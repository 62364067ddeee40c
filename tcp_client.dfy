/**
 * `RunTCPClient` after a successful dial: the send/verify loop over the
 * four counter locals, and the once-a-second reporter that forwards the
 * cumulative counters.
 */
module TcpClient {
  import opened Exchange

  /**
   * The loop run against the given loop-head events. Returns the verdict
   * (`Continue` if the events ran out while the loop was still going), the
   * counters, the payloads written in order, and what the reporter
   * delivered: the cumulative counters each time it ran, unchanged and
   * never reset.
   */
  method RunTCPClient(events: seq<Event>)
    returns (verdict: Verdict, counts: Counts, written: seq<string>, reports: seq<Counts>)
    ensures Run(events) == Session(counts, verdict, written, reports)
    ensures verdict == Continue ==> Balanced(counts)
    ensures forall k :: 0 <= k < |reports| ==> Balanced(reports[k]) && Le(reports[k], counts)
  {
    var sent, received, outOfOrder, lost := 0, 0, 0, 0;
    verdict, written, reports := Continue, [], [];
    var i := 0;
    while i < |events| && verdict == Continue
      invariant 0 <= i <= |events|
      invariant Run(events[..i]) == Session(Counts(sent, received, outOfOrder, lost), verdict, written, reports)
    {
      RunNext(events, i);
      ghost var before := Run(events[..i]);
      match events[i] {
        case Cancelled =>
          verdict := ReturnNil;
        case ReportTick =>
          reports := reports + [Counts(sent, received, outOfOrder, lost)];
        case SendTick(setup, write, read) =>
          var out;
          sent, received, outOfOrder, lost, verdict, out :=
            SendAndVerify(sent, received, outOfOrder, lost, setup, write, read);
          if out.Some? {
            written := written + [out.value];
          }
      }
      assert Apply(before, events[i]) == Session(Counts(sent, received, outOfOrder, lost), verdict, written, reports);
      i := i + 1;
    }
    counts := Counts(sent, received, outOfOrder, lost);
    if i < |events| {
      RunStopped(events[..i], events[i..]);
      assert events[..i] + events[i..] == events;
    } else {
      assert events[..i] == events;
    }
    RunInvariant(events);
    forall k | 0 <= k < |reports| ensures Le(reports[k], counts) {
      ChainOrdered(reports, k, |reports| - 1);
    }
  }
}
