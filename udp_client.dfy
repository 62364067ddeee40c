/**
 * `RunUDPClient` after a successful dial: the same send/verify loop as the
 * TCP client, plus the `reportFn` closure that delivers the change of each
 * counter since the previous report and re-seeds its four baselines. It is
 * called once when the session starts, each time the five-second ticker
 * fires, and once more (deferred) on every return.
 */
module UdpClient {
  import opened Exchange

  /**
   * One field of `reportFn`: the change since the baseline, except that it
   * is forced to 0 while the baseline is 0.
   */
  function FieldDelta(current: int, baseline: int): (d: int)
    ensures current == baseline ==> d == 0
    ensures 0 <= baseline <= current ==> 0 <= d <= current - baseline
  {
    if baseline == 0 then 0 else current - baseline
  }

  function Delta(current: Counts, baseline: Counts): (d: Counts)
    ensures current == baseline ==> d == Zero
    ensures Le(Zero, baseline) && Le(baseline, current) ==>
      Le(Zero, d) && Le(d, Counts(current.sent - baseline.sent, current.received - baseline.received,
                                  current.outOfOrder - baseline.outOfOrder, current.lost - baseline.lost))
  {
    Counts(FieldDelta(current.sent, baseline.sent),
           FieldDelta(current.received, baseline.received),
           FieldDelta(current.outOfOrder, baseline.outOfOrder),
           FieldDelta(current.lost, baseline.lost))
  }

  /** What one `reportFn` call delivers, and the baselines it leaves behind. */
  datatype Report = Report(delivered: Counts, baseline: Counts)

  function ReportFn(current: Counts, baseline: Counts): (r: Report)
    ensures r.baseline == current
  {
    Report(Delta(current, baseline), current)
  }

  /**
   * The reports delivered when `reportFn` runs at each of the given counter
   * snapshots in turn, starting from the given baselines.
   */
  function DeltaReports(baseline: Counts, snapshots: seq<Counts>): (rs: seq<Counts>)
    ensures |rs| == |snapshots|
    decreases |snapshots|
  {
    if |snapshots| == 0 then []
    else [ReportFn(snapshots[0], baseline).delivered] + DeltaReports(snapshots[0], snapshots[1..])
  }

  /** The baselines after reporting at each snapshot in turn. */
  function LastOf(baseline: Counts, snapshots: seq<Counts>): Counts {
    if |snapshots| == 0 then baseline else snapshots[|snapshots| - 1]
  }

  lemma {:induction false} DeltaReportsSnoc(baseline: Counts, snapshots: seq<Counts>, c: Counts)
    ensures DeltaReports(baseline, snapshots + [c])
         == DeltaReports(baseline, snapshots) + [ReportFn(c, LastOf(baseline, snapshots)).delivered]
    decreases |snapshots|
  {
    if |snapshots| > 0 {
      assert (snapshots + [c])[1..] == snapshots[1..] + [c];
      DeltaReportsSnoc(snapshots[0], snapshots[1..], c);
      assert LastOf(snapshots[0], snapshots[1..]) == LastOf(baseline, snapshots);
    }
  }

  /** The k-th report is the change from the previous snapshot (or the first baselines). */
  lemma {:induction false} DeltaReportsAt(baseline: Counts, snapshots: seq<Counts>, k: nat)
    requires k < |snapshots|
    ensures DeltaReports(baseline, snapshots)[k] == Delta(snapshots[k], if k == 0 then baseline else snapshots[k - 1])
    decreases k
  {
    if k > 0 {
      DeltaReportsAt(snapshots[0], snapshots[1..], k - 1);
    }
  }

  /** A report with no exchange since the previous one delivers (0, 0, 0, 0). */
  lemma IdleReportIsZero(baseline: Counts, snapshots: seq<Counts>, k: nat)
    requires 0 < k < |snapshots| && snapshots[k - 1] == snapshots[k]
    ensures DeltaReports(baseline, snapshots)[k] == Zero
  {
    DeltaReportsAt(baseline, snapshots, k);
  }

  /**
   * A field whose baseline is 0 reports 0, whatever its counter did, so the
   * first rise of a field from zero is never reported; any other field
   * reports its change since the baseline.
   */
  lemma FirstRiseSuppressed(current: Counts, baseline: Counts)
    ensures baseline.sent == 0 ==> ReportFn(current, baseline).delivered.sent == 0
    ensures baseline.received == 0 ==> ReportFn(current, baseline).delivered.received == 0
    ensures baseline.outOfOrder == 0 ==> ReportFn(current, baseline).delivered.outOfOrder == 0
    ensures baseline.lost == 0 ==> ReportFn(current, baseline).delivered.lost == 0
    ensures baseline.sent != 0 ==> ReportFn(current, baseline).delivered.sent == current.sent - baseline.sent
    ensures baseline.received != 0 ==> ReportFn(current, baseline).delivered.received == current.received - baseline.received
    ensures baseline.outOfOrder != 0 ==> ReportFn(current, baseline).delivered.outOfOrder == current.outOfOrder - baseline.outOfOrder
    ensures baseline.lost != 0 ==> ReportFn(current, baseline).delivered.lost == current.lost - baseline.lost
  {
  }

  /** With counters that only increase, no report is ever negative. */
  lemma {:induction false} DeltaReportsNonNegative(baseline: Counts, snapshots: seq<Counts>)
    requires Le(Zero, baseline) && Chain([baseline] + snapshots)
    ensures forall k :: 0 <= k < |snapshots| ==> Le(Zero, DeltaReports(baseline, snapshots)[k])
    decreases |snapshots|
  {
    if |snapshots| > 0 {
      var full := [baseline] + snapshots;
      assert Le(full[1 - 1], full[1]);
      assert full[0] == baseline && full[1] == snapshots[0];
      var rest := snapshots[1..];
      assert Chain([snapshots[0]] + rest) by {
        assert [snapshots[0]] + rest == ([baseline] + snapshots)[1..];
      }
      DeltaReportsNonNegative(snapshots[0], rest);
      var rs := DeltaReports(baseline, snapshots);
      forall k | 0 <= k < |snapshots| ensures Le(Zero, rs[k]) {
        if k > 0 {
          assert rs[k] == DeltaReports(snapshots[0], rest)[k - 1];
        }
      }
    }
  }

  /** The snapshots at which `reportFn` runs: session start, each tick, and a return. */
  function ReportPoints(s: Session): seq<Counts> {
    [Zero] + s.snapshots + (if s.verdict != Continue then [s.counts] else [])
  }

  /** One call of `reportFn` from the loop: deliver the deltas and re-seed the baselines. */
  method ReportAt(c: Counts, baseline: Counts, reports: seq<Counts>, ghost snaps: seq<Counts>)
    returns (reports': seq<Counts>, baseline': Counts)
    requires reports == [Zero] + DeltaReports(Zero, snaps) && baseline == LastOf(Zero, snaps)
    ensures reports' == [Zero] + DeltaReports(Zero, snaps + [c]) && baseline' == LastOf(Zero, snaps + [c])
  {
    DeltaReportsSnoc(Zero, snaps, c);
    var r := ReportFn(c, baseline);
    reports' := reports + [r.delivered];
    baseline' := r.baseline;
  }

  /**
   * One pass of the UDP loop body: a cancellation returns, a report tick
   * runs `reportFn`, a send tick runs one exchange.
   */
  method UdpTick(c: Counts, baseline: Counts, written: seq<string>, reports: seq<Counts>, ghost snaps: seq<Counts>, e: Event)
    returns (c': Counts, verdict: Verdict, written': seq<string>, reports': seq<Counts>, baseline': Counts, ghost snaps': seq<Counts>)
    requires reports == [Zero] + DeltaReports(Zero, snaps) && baseline == LastOf(Zero, snaps)
    ensures Apply(Session(c, Continue, written, snaps), e) == Session(c', verdict, written', snaps')
    ensures reports' == [Zero] + DeltaReports(Zero, snaps') && baseline' == LastOf(Zero, snaps')
  {
    c', verdict, written', reports', baseline', snaps' := c, Continue, written, reports, baseline, snaps;
    match e {
      case Cancelled =>
        verdict := ReturnNil;
      case ReportTick =>
        reports', baseline' := ReportAt(c, baseline, reports, snaps);
        snaps' := snaps + [c];
      case SendTick(setup, write, read) =>
        var sent, received, outOfOrder, lost, out;
        sent, received, outOfOrder, lost, verdict, out :=
          SendAndVerify(c.sent, c.received, c.outOfOrder, c.lost, setup, write, read);
        c' := Counts(sent, received, outOfOrder, lost);
        if out.Some? {
          written' := written + [out.value];
        }
    }
  }

  /**
   * `RunUDPClient` up to the return: the report right after the dial, then
   * the loop with `reportFn` run at each report tick. Also returns the
   * baselines the last report left behind.
   */
  method ReportingLoop(events: seq<Event>)
    returns (verdict: Verdict, counts: Counts, written: seq<string>, reports: seq<Counts>,
             baseline: Counts, ghost snaps: seq<Counts>)
    ensures Run(events) == Session(counts, verdict, written, snaps)
    ensures reports == [Zero] + DeltaReports(Zero, snaps)
    ensures baseline == LastOf(Zero, snaps)
  {
    var sent, received, outOfOrder, lost := 0, 0, 0, 0;
    var lastSent, lastReceived, lastOutOfOrder, lastLost := 0, 0, 0, 0;
    // reportFn() right after the dial
    var r := ReportFn(Counts(sent, received, outOfOrder, lost), Counts(lastSent, lastReceived, lastOutOfOrder, lastLost));
    reports := [r.delivered];
    lastSent, lastReceived, lastOutOfOrder, lastLost := r.baseline.sent, r.baseline.received, r.baseline.outOfOrder, r.baseline.lost;
    snaps := [];
    verdict, written := Continue, [];
    assert r.delivered == Zero && r.baseline == Zero;
    assert events[..0] == [];
    var i := 0;
    while i < |events| && verdict == Continue
      invariant 0 <= i <= |events|
      invariant Run(events[..i]) == Session(Counts(sent, received, outOfOrder, lost), verdict, written, snaps)
      invariant reports == [Zero] + DeltaReports(Zero, snaps)
      invariant Counts(lastSent, lastReceived, lastOutOfOrder, lastLost) == LastOf(Zero, snaps)
    {
      RunNext(events, i);
      var c, b;
      c, verdict, written, reports, b, snaps :=
        UdpTick(Counts(sent, received, outOfOrder, lost), Counts(lastSent, lastReceived, lastOutOfOrder, lastLost),
                written, reports, snaps, events[i]);
      sent, received, outOfOrder, lost := c.sent, c.received, c.outOfOrder, c.lost;
      lastSent, lastReceived, lastOutOfOrder, lastLost := b.sent, b.received, b.outOfOrder, b.lost;
      i := i + 1;
    }
    counts := Counts(sent, received, outOfOrder, lost);
    baseline := Counts(lastSent, lastReceived, lastOutOfOrder, lastLost);
    if i < |events| {
      RunStopped(events[..i], events[i..]);
      assert events[..i] + events[i..] == events;
    } else {
      assert events[..i] == events;
    }
  }

  /**
   * The loop run against the given loop-head events, with `reportFn` called
   * at the start, at each report tick and on return. Returns what
   * `RunTCPClient` returns, except that the reports are deltas.
   */
  method RunUDPClient(events: seq<Event>)
    returns (verdict: Verdict, counts: Counts, written: seq<string>, reports: seq<Counts>)
    ensures var s := Run(events);
            s.verdict == verdict && s.counts == counts && s.written == written
            && reports == DeltaReports(Zero, ReportPoints(s))
    ensures verdict == Continue ==> Balanced(counts)
    ensures |reports| > 0 && reports[0] == Zero
    ensures forall k :: 0 <= k < |reports| ==> Le(Zero, reports[k])
  {
    var baseline;
    ghost var snaps;
    verdict, counts, written, reports, baseline, snaps := ReportingLoop(events);
    ghost var taken := [Zero] + snaps;
    assert reports == DeltaReports(Zero, taken) by {
      assert taken[1..] == snaps;
    }
    assert baseline == LastOf(Zero, taken);
    if verdict != Continue {
      // the deferred reportFn() on the way out
      DeltaReportsSnoc(Zero, taken, counts);
      var r := ReportFn(counts, baseline);
      reports := reports + [r.delivered];
      taken := taken + [counts];
    }
    assert taken == ReportPoints(Run(events));
    RunInvariant(events);
    ReportsNonNegative(Run(events));
  }

  /** A session's reports are never negative and the first is all zeros. */
  lemma ReportsNonNegative(s: Session)
    requires SessionInvariant(s)
    ensures var rs := DeltaReports(Zero, ReportPoints(s));
            |rs| > 0 && rs[0] == Zero && forall k :: 0 <= k < |rs| ==> Le(Zero, rs[k])
  {
    var p := ReportPoints(s);
    ReportPointsChain(s);
    assert [Zero] + p[1..] == p;
    DeltaReportsNonNegative(Zero, p[1..]);
    var rs := DeltaReports(Zero, p);
    forall k | 0 <= k < |rs| ensures Le(Zero, rs[k]) {
      if k > 0 {
        assert rs[k] == DeltaReports(Zero, p[1..])[k - 1];
      }
    }
  }

  /** The report points of a session form a monotone chain starting at zero. */
  lemma ReportPointsChain(s: Session)
    requires SessionInvariant(s)
    ensures Chain(ReportPoints(s)) && ReportPoints(s)[0] == Zero
  {
    var p := ReportPoints(s);
    forall i | 0 < i < |p| ensures Le(p[i - 1], p[i]) {
      if i == 1 && |s.snapshots| > 0 {
        assert p[1] == s.snapshots[0];
      } else if i <= |s.snapshots| {
        assert p[i - 1] == s.snapshots[i - 2] && p[i] == s.snapshots[i - 1];
      } else if |s.snapshots| > 0 {
        assert p[i - 1] == s.snapshots[|s.snapshots| - 1];
      }
    }
  }
}
