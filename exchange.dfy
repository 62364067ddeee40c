/**
 * One tick of the echo clients' send/verify loop, shared by the TCP and the
 * UDP client (they run the same loop body). Sockets and timers are replaced
 * by the outcome of each I/O call: at every loop head the environment
 * either cancels the session, lets the reporter run, or fires the send
 * ticker with the outcomes of the deadline calls, the write and the read.
 */
module Exchange {
  import opened Wrappers
  import opened GoText

  /** The session's four counters (sent, received, outOfOrder, lost). */
  datatype Counts = Counts(sent: int, received: int, outOfOrder: int, lost: int)

  const Zero := Counts(0, 0, 0, 0)

  /** Outcome of `SetWriteDeadline` followed by `SetReadDeadline`. */
  datatype Setup = DeadlinesSet | DeadlineFailed

  /** Outcome of `conn.Write`: success, an error wrapping `io.EOF`, any other error. */
  datatype WriteOutcome = Written | WriteEof | WriteFailed

  /** Outcome of `conn.Read`: the bytes read, `io.EOF`, any other error. */
  datatype ReadOutcome = Echo(payload: string) | ReadEof | ReadFailed

  /**
   * What happens at one loop head. `Cancelled`: the context is done.
   * `ReportTick`: the reporter runs between two exchanges (it never changes
   * the counters). `SendTick`: the send ticker fired; the read outcome is
   * only looked at when the write succeeded.
   */
  datatype Event =
    | Cancelled
    | ReportTick
    | SendTick(setup: Setup, write: WriteOutcome, read: ReadOutcome)

  /** Whether the loop goes round again, returns nil, or returns an error. */
  datatype Verdict = Continue | ReturnNil | ReturnErr

  datatype StepResult = StepResult(counts: Counts, verdict: Verdict, written: Option<string>)

  /** Fieldwise `a <= b`. */
  predicate Le(a: Counts, b: Counts) {
    a.sent <= b.sent && a.received <= b.received && a.outOfOrder <= b.outOfOrder && a.lost <= b.lost
  }

  /** The loop-head invariant: every exchange sent so far has exactly one fate. */
  predicate Balanced(c: Counts) {
    && 0 <= c.received && 0 <= c.outOfOrder && 0 <= c.lost
    && c.sent == c.received + c.outOfOrder + c.lost
  }

  /** Whether the event gets past the deadline setup, so that `sent` is incremented. */
  predicate Sends(e: Event) {
    e.SendTick? && e.setup == DeadlinesSet
  }

  /**
   * The loop body. The written payload, when there is one, is the decimal
   * text of the incremented `sent`.
   */
  function Step(c: Counts, e: Event): (r: StepResult)
    ensures Le(c, r.counts)
    ensures r.verdict == Continue && Balanced(c) ==> Balanced(r.counts)
    ensures r.counts.sent == if Sends(e) then c.sent + 1 else c.sent
  {
    match e
    case Cancelled => StepResult(c, ReturnNil, None)
    case ReportTick => StepResult(c, Continue, None)
    case SendTick(setup, write, read) =>
      if setup == DeadlineFailed then StepResult(c, ReturnErr, None)
      else
        var c1 := c.(sent := c.sent + 1);
        var out := Some(FormatInt(c1.sent));
        match write
        case WriteEof => StepResult(c1, ReturnNil, out)
        case WriteFailed => StepResult(c1.(lost := c1.lost + 1), Continue, out)
        case Written =>
          match read
          case ReadEof => StepResult(c1, ReturnNil, out)
          case ReadFailed => StepResult(c1.(lost := c1.lost + 1), ReturnErr, out)
          case Echo(payload) =>
            match ParseInt(payload)
            case None => StepResult(c1, ReturnErr, out)
            case Some(ack) =>
              if ack == c1.sent then StepResult(c1.(received := c1.received + 1), Continue, out)
              else StepResult(c1.(outOfOrder := c1.outOfOrder + 1), Continue, out)
  }

  /** Each tick that passes the deadline setup writes the decimal text of the new `sent`. */
  lemma StepWrites(c: Counts, e: Event)
    ensures Step(c, e).written == if Sends(e) then Some(FormatInt(c.sent + 1)) else None
  {
  }

  /** Cancellation is seen before `sent++`: nothing changes and the loop returns nil. */
  lemma StepCancelled(c: Counts)
    ensures Step(c, Cancelled) == StepResult(c, ReturnNil, None)
  {
  }

  /** A failed deadline call returns the error before anything is counted. */
  lemma StepDeadlineFailed(c: Counts, w: WriteOutcome, rd: ReadOutcome)
    ensures Step(c, SendTick(DeadlineFailed, w, rd)) == StepResult(c, ReturnErr, None)
  {
  }

  /**
   * The write outcomes: a non-EOF failure counts one loss and carries on;
   * EOF returns nil with only `sent` changed.
   */
  lemma StepWriteOutcomes(c: Counts, rd: ReadOutcome)
    ensures var r := Step(c, SendTick(DeadlinesSet, WriteFailed, rd));
            r.verdict == Continue && r.counts == Counts(c.sent + 1, c.received, c.outOfOrder, c.lost + 1)
    ensures var r := Step(c, SendTick(DeadlinesSet, WriteEof, rd));
            r.verdict == ReturnNil && r.counts == c.(sent := c.sent + 1)
  {
  }

  /**
   * The read outcomes: a non-EOF failure counts one loss and returns the
   * error; EOF returns nil without counting a loss.
   */
  lemma StepReadOutcomes(c: Counts)
    ensures var r := Step(c, SendTick(DeadlinesSet, Written, ReadFailed));
            r.verdict == ReturnErr && r.counts == Counts(c.sent + 1, c.received, c.outOfOrder, c.lost + 1)
    ensures var r := Step(c, SendTick(DeadlinesSet, Written, ReadEof));
            r.verdict == ReturnNil && r.counts == c.(sent := c.sent + 1)
  {
  }

  /**
   * The echo outcomes: an echo that parses to the new `sent` counts as
   * received, any other integer as out of order, and an echo that does not
   * parse returns an error with no counter other than `sent` changed.
   */
  lemma StepEchoOutcomes(c: Counts, payload: string)
    ensures var r := Step(c, SendTick(DeadlinesSet, Written, Echo(payload)));
            var c1 := c.(sent := c.sent + 1);
            match ParseInt(payload)
            case None => r.verdict == ReturnErr && r.counts == c1
            case Some(ack) =>
              r.verdict == Continue &&
              r.counts == (if ack == c1.sent then c1.(received := c.received + 1)
                           else c1.(outOfOrder := c.outOfOrder + 1))
  {
  }

  /**
   * The peer that reflects exactly what was written: its echo is counted as
   * received (the decimal text parses back to the same number).
   */
  lemma StepExactEcho(c: Counts)
    requires c.sent + 1 <= Int64Max && 0 <= c.sent
    ensures Step(c, SendTick(DeadlinesSet, Written, Echo(FormatInt(c.sent + 1))))
         == StepResult(Counts(c.sent + 1, c.received + 1, c.outOfOrder, c.lost), Continue,
                       Some(FormatInt(c.sent + 1)))
  {
    ParseFormatRoundTrip(c.sent + 1);
  }

  /** An echo of any other sequence number is counted as out of order. */
  lemma StepStaleEcho(c: Counts, stale: int)
    requires Int64Min <= stale <= Int64Max && stale != c.sent + 1
    ensures var r := Step(c, SendTick(DeadlinesSet, Written, Echo(FormatInt(stale))));
            r.verdict == Continue && r.counts == Counts(c.sent + 1, c.received, c.outOfOrder + 1, c.lost)
  {
    ParseFormatRoundTrip(stale);
  }

  /**
   * The loop body after the send ticker fired, over the counter locals of
   * either client: set the deadlines, `sent++`, write the decimal text of
   * `sent`, read the echo, parse it and compare it with `sent`.
   */
  method SendAndVerify(sent: int, received: int, outOfOrder: int, lost: int,
                       setup: Setup, write: WriteOutcome, read: ReadOutcome)
    returns (sent': int, received': int, outOfOrder': int, lost': int, verdict: Verdict, written: Option<string>)
    ensures Step(Counts(sent, received, outOfOrder, lost), SendTick(setup, write, read))
         == StepResult(Counts(sent', received', outOfOrder', lost'), verdict, written)
  {
    sent', received', outOfOrder', lost' := sent, received, outOfOrder, lost;
    verdict, written := Continue, None;
    if setup == DeadlineFailed {
      verdict := ReturnErr;
      return;
    }
    sent' := sent' + 1;
    written := Some(FormatInt(sent'));
    match write {
      case WriteEof =>
        verdict := ReturnNil;
      case WriteFailed =>
        lost' := lost' + 1;
      case Written =>
        match read {
          case ReadEof =>
            verdict := ReturnNil;
          case ReadFailed =>
            lost' := lost' + 1;
            verdict := ReturnErr;
          case Echo(payload) =>
            var ack := ParseInt(payload);
            if ack.None? {
              verdict := ReturnErr;
            } else if ack.value == sent' {
              received' := received' + 1;
            } else {
              outOfOrder' := outOfOrder' + 1;
            }
        }
    }
  }

  // ---------------------------------------------------------------------
  // The loop as a whole, as a left fold of Step over the events seen so far.
  // ---------------------------------------------------------------------

  /**
   * The state of a session after some events: the counters, the verdict,
   * every payload written, and the counters each time the reporter ran.
   */
  datatype Session = Session(counts: Counts, verdict: Verdict, written: seq<string>, snapshots: seq<Counts>)

  const Start := Session(Zero, Continue, [], [])

  function Apply(s: Session, e: Event): (r: Session)
    ensures Le(s.counts, r.counts)
    ensures s.written <= r.written && |r.written| <= |s.written| + 1
    ensures s.snapshots <= r.snapshots && |r.snapshots| <= |s.snapshots| + 1
  {
    var r := Step(s.counts, e);
    Session(r.counts, r.verdict,
            s.written + (if r.written.Some? then [r.written.value] else []),
            s.snapshots + (if e.ReportTick? then [s.counts] else []))
  }

  /** The session after the given events: once it returns, later events are not looked at. */
  function Run(events: seq<Event>): (r: Session)
    ensures Le(Zero, r.counts)
    ensures |r.written| <= |events| && |r.snapshots| <= |events|
  {
    if |events| == 0 then Start
    else
      var s := Run(events[..|events| - 1]);
      if s.verdict != Continue then s else Apply(s, events[|events| - 1])
  }

  /** One more event, while the loop is still running, is one more `Apply`. */
  lemma RunNext(events: seq<Event>, i: nat)
    requires i < |events| && Run(events[..i]).verdict == Continue
    ensures Run(events[..i + 1]) == Apply(Run(events[..i]), events[i])
  {
    assert events[..i + 1][..i] == events[..i];
  }

  /** A session that has returned ignores whatever would have come after. */
  lemma {:induction false} RunStopped(events: seq<Event>, more: seq<Event>)
    requires Run(events).verdict != Continue
    ensures Run(events + more) == Run(events)
    decreases |more|
  {
    if |more| > 0 {
      var front := more[..|more| - 1];
      assert (events + more)[..|events + more| - 1] == events + front;
      RunStopped(events, front);
    } else {
      assert events + more == events;
    }
  }

  /** Monotone chain of counter snapshots. */
  predicate Chain(s: seq<Counts>) {
    forall i :: 0 < i < |s| ==> Le(s[i - 1], s[i])
  }

  /** Every element of a monotone chain is below each later one. */
  lemma {:induction false} ChainOrdered(s: seq<Counts>, i: nat, j: nat)
    requires Chain(s) && i <= j < |s|
    ensures Le(s[i], s[j])
    decreases j - i
  {
    if i < j {
      ChainOrdered(s, i, j - 1);
    }
  }

  /**
   * What holds of every session state: while the loop is running the
   * counters are balanced; the written payloads are "1", "2", ... up to the
   * current `sent`; the reporter's snapshots are balanced, only increase and
   * never exceed the current counters.
   */
  ghost predicate SessionInvariant(s: Session) {
    && (s.verdict == Continue ==> Balanced(s.counts))
    && 0 <= s.counts.received && 0 <= s.counts.outOfOrder && 0 <= s.counts.lost
    && s.counts.received + s.counts.outOfOrder + s.counts.lost <= s.counts.sent
    && |s.written| == s.counts.sent
    && (forall k :: 0 <= k < |s.written| ==> s.written[k] == FormatInt(k + 1))
    && (forall k :: 0 <= k < |s.snapshots| ==> Balanced(s.snapshots[k]))
    && Chain(s.snapshots)
    && (|s.snapshots| > 0 ==> Le(s.snapshots[|s.snapshots| - 1], s.counts))
  }

  lemma {:induction false} RunInvariant(events: seq<Event>)
    ensures SessionInvariant(Run(events))
  {
    if |events| > 0 {
      var front := events[..|events| - 1];
      RunInvariant(front);
      var s := Run(front);
      if s.verdict == Continue {
        ApplyInvariant(s, events[|events| - 1]);
      }
    }
  }

  /** One event applied to a running session keeps the invariant. */
  lemma ApplyInvariant(s: Session, e: Event)
    requires SessionInvariant(s) && s.verdict == Continue
    ensures SessionInvariant(Apply(s, e))
  {
    ApplyWritten(s, e);
    ApplySnapshots(s, e);
  }

  /** The written part of `ApplyInvariant`: the payloads stay "1", "2", … up to `sent`. */
  lemma ApplyWritten(s: Session, e: Event)
    requires |s.written| == s.counts.sent
    requires forall k :: 0 <= k < |s.written| ==> s.written[k] == FormatInt(k + 1)
    ensures var t := Apply(s, e);
            && |t.written| == t.counts.sent
            && forall k :: 0 <= k < |t.written| ==> t.written[k] == FormatInt(k + 1)
  {
    StepWrites(s.counts, e);
    var t := Apply(s, e);
    if Sends(e) {
      assert t.written == s.written + [FormatInt(s.counts.sent + 1)];
    } else {
      assert t.written == s.written;
    }
  }

  /** The snapshot part of `ApplyInvariant`: a report takes a balanced snapshot of the current counters. */
  lemma ApplySnapshots(s: Session, e: Event)
    requires s.verdict == Continue && Balanced(s.counts)
    requires forall k :: 0 <= k < |s.snapshots| ==> Balanced(s.snapshots[k])
    requires Chain(s.snapshots)
    requires |s.snapshots| > 0 ==> Le(s.snapshots[|s.snapshots| - 1], s.counts)
    ensures var t := Apply(s, e);
            && (forall k :: 0 <= k < |t.snapshots| ==> Balanced(t.snapshots[k]))
            && Chain(t.snapshots)
            && (|t.snapshots| > 0 ==> Le(t.snapshots[|t.snapshots| - 1], t.counts))
  {
    var t := Apply(s, e);
    if e.ReportTick? {
      assert Step(s.counts, e).counts == s.counts;
      assert t.snapshots == s.snapshots + [s.counts];
    } else {
      assert t.snapshots == s.snapshots;
    }
  }

  /** The counters only ever increase along a session. */
  lemma {:induction false} RunMonotone(events: seq<Event>, i: nat)
    requires i <= |events|
    ensures Le(Run(events[..i]).counts, Run(events).counts)
    decreases |events| - i
  {
    if i < |events| {
      var front := events[..|events| - 1];
      assert front[..i] == events[..i];
      assert events[..|events|] == events;
      RunMonotone(front, i);
    } else {
      assert events[..i] == events;
    }
  }

  /** N send ticks whose echoes are exactly what was written. */
  function PerfectEchoes(n: nat): (es: seq<Event>)
    ensures |es| == n
  {
    seq(n, i => SendTick(DeadlinesSet, Written, Echo(FormatInt(i + 1))))
  }

  /**
   * N exchanges with no induced failure give `sent == received == N` and
   * nothing out of order or lost; the session is still running.
   */
  lemma {:induction false} RunPerfectEchoes(n: nat)
    requires n <= Int64Max
    ensures var s := Run(PerfectEchoes(n));
            s.verdict == Continue && s.counts == Counts(n, n, 0, 0) && s.snapshots == []
  {
    if n > 0 {
      RunPerfectEchoes(n - 1);
      PerfectEchoStep(n);
    }
  }

  /** The induction step of `RunPerfectEchoes`: one more perfect pass. */
  lemma PerfectEchoStep(n: nat)
    requires 0 < n <= Int64Max
    requires var s := Run(PerfectEchoes(n - 1));
             s.verdict == Continue && s.counts == Counts(n - 1, n - 1, 0, 0) && s.snapshots == []
    ensures var s := Run(PerfectEchoes(n));
            s.verdict == Continue && s.counts == Counts(n, n, 0, 0) && s.snapshots == []
  {
    var es := PerfectEchoes(n);
    assert es[..n - 1] == PerfectEchoes(n - 1);
    StepExactEcho(Counts(n - 1, n - 1, 0, 0));
  }
}
