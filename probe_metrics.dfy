/**
 * The per-address probe wiring of main.go: every dial address gets four
 * counters per protocol, named after the address with `.` and `:` replaced
 * by `_`, and the client's `reportFn` adds the four numbers it is handed
 * onto them.
 */
module ProbeMetrics {
  import opened Exchange
  import opened UdpClient

  /** `strings.ReplaceAll` for a one-character pattern and replacement. */
  function ReplaceAll(s: string, from: char, to: char): (r: string)
    ensures |r| == |s|
    ensures forall i :: 0 <= i < |s| ==> r[i] == if s[i] == from then to else s[i]
  {
    if |s| == 0 then ""
    else [if s[0] == from then to else s[0]] + ReplaceAll(s[1..], from, to)
  }

  /** `friendlyRawDialAddr`: the address with every `.` and `:` turned into `_`. */
  function Sanitise(addr: string): (r: string)
    ensures |r| == |addr|
    ensures forall i :: 0 <= i < |addr| ==> r[i] == if addr[i] == '.' || addr[i] == ':' then '_' else addr[i]
    ensures '.' !in r && ':' !in r
  {
    ReplaceAll(ReplaceAll(addr, '.', '_'), ':', '_')
  }

  /** Sanitising twice changes nothing more. */
  lemma SanitiseIdempotent(addr: string)
    ensures Sanitise(Sanitise(addr)) == Sanitise(addr)
  {
    var r := Sanitise(addr);
    assert forall i :: 0 <= i < |r| ==> Sanitise(r)[i] == r[i];
  }

  datatype Protocol = Tcp | Udp
  datatype Metric = SentMetric | ReceivedMetric | OutOfOrderMetric | LostMetric

  /** The registered metric name, such as `tcp_10_0_0_1_6943_out_of_order`. */
  function CounterName(p: Protocol, addr: string, m: Metric): (name: string)
    ensures |name| > 5 + |addr|
    ensures name[..4] == if p == Tcp then "tcp_" else "udp_"
    ensures name[4..4 + |addr|] == Sanitise(addr) && name[4 + |addr|] == '_'
    ensures name[5 + |addr|..] == MetricSuffix(m)
  {
    (if p == Tcp then "tcp_" else "udp_") + Sanitise(addr) + "_" + MetricSuffix(m)
  }

  /** The metric part of a counter name, as main.go spells it. */
  function MetricSuffix(m: Metric): string {
    match m
    case SentMetric => "sent"
    case ReceivedMetric => "received"
    case OutOfOrderMetric => "out_of_order"
    case LostMetric => "lost"
  }

  /**
   * The eight counters of one address get eight different names, so
   * registering them never clashes with one another.
   */
  lemma CounterNamesDistinct(p: Protocol, q: Protocol, addr: string, m: Metric, n: Metric)
    ensures CounterName(p, addr, m) == CounterName(q, addr, n) <==> p == q && m == n
  {
    if CounterName(p, addr, m) == CounterName(q, addr, n) {
      var a, b := CounterName(p, addr, m), CounterName(q, addr, n);
      assert a[..4] == b[..4];
      assert MetricSuffix(m) == a[5 + |addr|..] == b[5 + |addr|..] == MetricSuffix(n);
      assert MetricSuffix(m)[0] == MetricSuffix(n)[0] && |MetricSuffix(m)| == |MetricSuffix(n)|;
    }
  }

  /** Fieldwise sum of two counter quadruples. */
  function Plus(a: Counts, b: Counts): Counts {
    Counts(a.sent + b.sent, a.received + b.received, a.outOfOrder + b.outOfOrder, a.lost + b.lost)
  }

  /** What the four counters of one address hold after the given report calls. */
  function Total(reports: seq<Counts>): (t: Counts)
    ensures (forall i :: 0 <= i < |reports| ==> Le(Zero, reports[i])) ==> Le(Zero, t)
  {
    if |reports| == 0 then Zero
    else Plus(Total(reports[..|reports| - 1]), reports[|reports| - 1])
  }

  /** The four counters of one dial address and protocol. */
  class AddressCounters {
    var sent: int
    var received: int
    var outOfOrder: int
    var lost: int

    function Value(): Counts
      reads this
    {
      Counts(sent, received, outOfOrder, lost)
    }

    constructor ()
      ensures Value() == Zero
    {
      sent, received, outOfOrder, lost := 0, 0, 0, 0;
    }

    /** The `reportFn` of main.go: add each delivered number onto its counter. */
    method Report(delivered: Counts)
      modifies this
      ensures Value() == Plus(old(Value()), delivered)
    {
      sent := sent + delivered.sent;
      received := received + delivered.received;
      outOfOrder := outOfOrder + delivered.outOfOrder;
      lost := lost + delivered.lost;
    }
  }

  /** Feed a client's reports, in order, into a fresh set of counters. */
  method AccumulateReports(reports: seq<Counts>) returns (total: Counts)
    ensures total == Total(reports)
  {
    var counters := new AddressCounters();
    for i := 0 to |reports|
      invariant counters.Value() == Total(reports[..i])
    {
      assert reports[..i + 1][..i] == reports[..i];
      counters.Report(reports[i]);
    }
    assert reports[..|reports|] == reports;
    total := counters.Value();
  }

  /**
   * The UDP deltas reported from a baseline, added up, never take the
   * baseline past the last snapshot: each report is at most the rise since
   * the previous one.
   */
  lemma {:induction false} DeltaTotalBounded(baseline: Counts, snapshots: seq<Counts>)
    requires Le(Zero, baseline) && Chain([baseline] + snapshots)
    ensures Le(Plus(Total(DeltaReports(baseline, snapshots)), baseline), LastOf(baseline, snapshots))
    ensures Le(Zero, Total(DeltaReports(baseline, snapshots)))
    decreases |snapshots|
  {
    if |snapshots| > 0 {
      var front := snapshots[..|snapshots| - 1];
      var c := snapshots[|snapshots| - 1];
      assert snapshots == front + [c];
      var full := [baseline] + snapshots;
      assert Chain([baseline] + front) by {
        assert [baseline] + front == full[..|full| - 1];
      }
      assert Le(LastOf(baseline, front), c) by {
        assert full[|full| - 2] == LastOf(baseline, front);
        assert full[|full| - 1] == c;
      }
      if |front| > 0 {
        ChainOrdered([baseline] + front, 0, |front|);
        assert ([baseline] + front)[|front|] == LastOf(baseline, front);
      }
      DeltaTotalBounded(baseline, front);
      DeltaReportsSnoc(baseline, front, c);
      var rs := DeltaReports(baseline, front);
      assert DeltaReports(baseline, snapshots)[..|rs|] == rs;
    }
  }

  /**
   * What the main.go counters of one UDP session end up holding: never
   * negative, and never more than the session's own counters.
   */
  lemma UdpSessionTotals(s: Session)
    requires SessionInvariant(s)
    ensures var t := Total(DeltaReports(Zero, ReportPoints(s)));
            Le(Zero, t) && Le(t, s.counts)
  {
    var p := ReportPoints(s);
    ReportPointsChain(s);
    assert Chain([Zero] + p) by {
      forall i | 0 < i < |[Zero] + p| ensures Le(([Zero] + p)[i - 1], ([Zero] + p)[i]) {
        if i > 1 {
          assert ([Zero] + p)[i - 1] == p[i - 2] && ([Zero] + p)[i] == p[i - 1];
        }
      }
    }
    DeltaTotalBounded(Zero, p);
    assert Le(LastOf(Zero, p), s.counts) by {
      if s.verdict == Continue && |s.snapshots| > 0 {
        assert LastOf(Zero, p) == s.snapshots[|s.snapshots| - 1];
      }
    }
  }

  /**
   * The TCP reporter hands over cumulative counts, and main.go adds each one
   * onto the counters, so they end up at least at the latest snapshot (and
   * grow by every earlier one as well).
   */
  lemma {:induction false} TcpTotalsCoverLatest(snapshots: seq<Counts>)
    requires forall k :: 0 <= k < |snapshots| ==> Le(Zero, snapshots[k])
    ensures Le(Zero, Total(snapshots))
    ensures |snapshots| > 0 ==> Le(snapshots[|snapshots| - 1], Total(snapshots))
    decreases |snapshots|
  {
    if |snapshots| > 0 {
      TcpTotalsCoverLatest(snapshots[..|snapshots| - 1]);
    }
  }

  /** For a TCP session, the counters hold at least the latest report. */
  lemma TcpSessionTotals(s: Session)
    requires SessionInvariant(s)
    ensures Le(Zero, Total(s.snapshots))
    ensures |s.snapshots| > 0 ==> Le(s.snapshots[|s.snapshots| - 1], Total(s.snapshots))
  {
    TcpTotalsCoverLatest(s.snapshots);
  }
}
