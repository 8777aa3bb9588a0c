/**
 The span exporter (internal/tracing/exporter.go): request goroutines end spans onto a bounded queue
 without ever blocking, one worker ships them, and Shutdown drains. Every select is one atomic step;
 steps of producers, worker and shutdown interleave in any order.
 */
module Exporter {
  const QUEUE_DEPTH := 1024

  // A span, by identity.
  type Span = nat

  // Where the worker's loop is: in the outer select, exporting, in the drain select after stop was
  // seen, exporting there, returning with the deferred close still to run, or done (doneCh closed).
  datatype Worker = Waiting | Exporting(span: Span) | Draining | DrainExporting(span: Span) | Returning | Done

  datatype State = State(
    queue: seq<Span>, stopped: bool, worker: Worker,
    exported: seq<Span>,  // export has returned for these
    accepted: seq<Span>, dropped: seq<Span>)

  datatype Event =
    | End(span: Span)   // Span.End: enqueue or drop
    | Stop              // Shutdown closes stopCh, once
    | Receive           // either select takes a span from the queue
    | Finish            // export returns
    | SeeStop           // the outer select takes the stop case
    | FindEmpty         // the drain select takes its default and the worker starts to return
    | CloseDone         // the deferred close of doneCh runs

  const INITIAL := State([], false, Waiting, [], [], [])

  predicate Enabled(s: State, e: Event) {
    match e
    case End(_) => true
    case Stop => true
    case Receive => s.queue != [] && (s.worker.Waiting? || s.worker.Draining?)
    case Finish => s.worker.Exporting? || s.worker.DrainExporting?
    case SeeStop => s.stopped && s.worker.Waiting?
    case FindEmpty => s.queue == [] && s.worker.Draining?
    case CloseDone => s.worker.Returning?
  }

  function Next(s: State, e: Event): State
    requires Enabled(s, e)
  {
    match e
    case End(span) =>
      if |s.queue| < QUEUE_DEPTH then s.(queue := s.queue + [span], accepted := s.accepted + [span])
      else s.(dropped := s.dropped + [span])
    case Stop => s.(stopped := true)
    case Receive =>
      s.(queue := s.queue[1..], worker := if s.worker.Waiting? then Exporting(s.queue[0])
          else DrainExporting(s.queue[0]))
    case Finish =>
      s.(exported := s.exported + [s.worker.span], worker := if s.worker.Exporting? then Waiting else Draining)
    case SeeStop => s.(worker := Draining)
    case FindEmpty => s.(worker := Returning)
    case CloseDone => s.(worker := Done)
  }

  // The exporter's fields, changed in place; the histories are ghost.
  class SpanExporter {
    var queue: seq<Span>
    var stopped: bool
    var worker: Worker
    ghost var exported: seq<Span>
    ghost var accepted: seq<Span>
    ghost var dropped: seq<Span>

    constructor ()
      ensures Value() == INITIAL
    {
      queue, stopped, worker := [], false, Waiting;
      exported, accepted, dropped := [], [], [];
    }

    ghost function Value(): State
      reads this
    {
      State(queue, stopped, worker, exported, accepted, dropped)
    }

    // Never blocks: enabled in every state.
    method Enqueue(span: Span)
      modifies this
      ensures Value() == Next(old(Value()), End(span))
    {
      if |queue| < QUEUE_DEPTH {
        queue, accepted := queue + [span], accepted + [span];
      } else {
        dropped := dropped + [span];
      }
    }

    method CloseStop()
      modifies this
      ensures Value() == Next(old(Value()), Stop)
    {
      stopped := true;
    }

    // One turn of the worker's loop. Where both cases of the outer select are ready, Go picks either:
    // `preferStop` is that choice. Returns false when every case blocks, or the worker has returned.
    method WorkerStep(preferStop: bool) returns (moved: bool, ghost e: Event)
      modifies this
      ensures moved ==> Enabled(old(Value()), e) && !e.End? && !e.Stop? && Value() == Next(old(Value()), e)
      ensures !moved ==> Value() == old(Value())
      ensures !moved <==> old(worker.Done? || (worker.Waiting? && queue == [] && !stopped))
    {
      match worker
      case Waiting =>
        if stopped && (preferStop || queue == []) {
          worker := Draining;
          return true, SeeStop;
        } else if queue != [] {
          worker, queue := Exporting(queue[0]), queue[1..];
          return true, Receive;
        }
        return false, SeeStop;
      case Exporting(span) =>
        exported, worker := exported + [span], Waiting;
        return true, Finish;
      case Draining =>
        if queue != [] {
          worker, queue := DrainExporting(queue[0]), queue[1..];
          return true, Receive;
        }
        worker := Returning;
        return true, FindEmpty;
      case DrainExporting(span) =>
        exported, worker := exported + [span], Draining;
        return true, Finish;
      case Returning =>
        worker := Done;
        return true, CloseDone;
      case Done =>
        return false, CloseDone;
    }
  }

  // --- runs ---

  ghost predicate IsRun(s: State, es: seq<Event>)
    decreases |es|
  {
    es == [] || (Enabled(s, es[0]) && IsRun(Next(s, es[0]), es[1..]))
  }

  ghost function After(s: State, es: seq<Event>): State
    requires IsRun(s, es)
    decreases |es|
  {
    if es == [] then s else After(Next(s, es[0]), es[1..])
  }

  function InFlight(w: Worker): seq<Span> {
    if w.Exporting? || w.DrainExporting? then [w.span] else []
  }

  // The spans a run ends, in order.
  function Ended(es: seq<Event>): seq<Span> {
    if es == [] then [] else (if es[0].End? then [es[0].span] else []) + Ended(es[1..])
  }

  // Accepted spans are, in acceptance order, the exported ones, the one in flight, the queued ones.
  ghost predicate Ordered(s: State) {
    && |s.queue| <= QUEUE_DEPTH
    && s.accepted == s.exported + InFlight(s.worker) + s.queue
    && (!s.worker.Waiting? && !s.worker.Exporting? ==> s.stopped)
  }

  lemma Reassociated(a: seq<Span>, b: seq<Span>, c: seq<Span>, x: Span)
    ensures a + b + (c + [x]) == a + b + c + [x]
    ensures a + [] + ([x] + c) == a + [x] + c
    ensures (a + [x]) + [] + c == a + [x] + c
  {
  }

  lemma StepOrdered(s: State, e: Event)
    requires Ordered(s) && Enabled(s, e)
    ensures Ordered(Next(s, e))
  {
    match e
    case End(span) => Reassociated(s.exported, InFlight(s.worker), s.queue, span);
    case Receive =>
      assert s.queue == [s.queue[0]] + s.queue[1..];
      Reassociated(s.exported, [], s.queue[1..], s.queue[0]);
    case Finish => Reassociated(s.exported, [], s.queue, s.worker.span);
    case _ =>
  }

  // Conservation and order over every interleaving, from any consistent state.
  lemma {:induction false} RunOrdered(s: State, es: seq<Event>)
    requires Ordered(s) && IsRun(s, es)
    ensures Ordered(After(s, es))
    ensures |After(s, es).accepted| + |After(s, es).dropped| == |s.accepted| + |s.dropped| + |Ended(es)|
    decreases |es|
  {
    if es != [] {
      StepOrdered(s, es[0]);
      RunOrdered(Next(s, es[0]), es[1..]);
    }
  }

  // ended = exported + in flight + queued + dropped, and the queue never holds more than 1024.
  lemma Conservation(es: seq<Event>)
    requires IsRun(INITIAL, es)
    ensures var s := After(INITIAL, es);
            && |s.queue| <= 1024
            && |Ended(es)| == |s.exported| + |InFlight(s.worker)| + |s.queue| + |s.dropped|
            && s.exported + InFlight(s.worker) <= s.accepted
  {
    RunOrdered(INITIAL, es);
  }

  // The run drops a span exactly when some span is ended while 1024 are queued.
  lemma DropsExactly(es: seq<Event>)
    requires IsRun(INITIAL, es)
    ensures After(INITIAL, es).dropped != [] <==> exists i :: 0 <= i < |es| && FullAt(INITIAL, es, i)
  {
    RunDropsExactly(INITIAL, es);
  }

  // Event i ends a span, and 1024 are queued then.
  ghost predicate FullAt(s: State, es: seq<Event>, i: nat)
    requires i < |es|
  {
    es[i].End? && IsRun(s, es[..i]) && |After(s, es[..i]).queue| == 1024
  }

  lemma {:induction false} RunDropsExactly(s: State, es: seq<Event>)
    requires Ordered(s) && IsRun(s, es)
    ensures |After(s, es).dropped| >= |s.dropped|
    ensures |After(s, es).dropped| > |s.dropped| <==> exists i :: 0 <= i < |es| && FullAt(s, es, i)
    decreases |es|
  {
    if es != [] {
      var next, rest := Next(s, es[0]), es[1..];
      StepOrdered(s, es[0]);
      RunDropsExactly(next, rest);
      assert FullAt(s, es, 0) <==> es[0].End? && |s.queue| == 1024 by { assert es[..0] == []; }
      assert |next.dropped| > |s.dropped| <==> FullAt(s, es, 0);
      forall i | 0 < i < |es| ensures FullAt(s, es, i) <==> FullAt(next, rest, i - 1) {
        assert es[..i][1..] == rest[..i - 1] && es[..i][0] == es[0];
      }
      if i :| 0 <= i < |rest| && FullAt(next, rest, i) { assert FullAt(s, es, i + 1); }
    }
  }

  ghost predicate Distinct(s: seq<Span>) {
    forall i, j :: 0 <= i < j < |s| ==> s[i] != s[j]
  }

  lemma {:induction false} AcceptedWereEnded(s: State, es: seq<Event>)
    requires IsRun(s, es) && Distinct(Ended(es)) && Distinct(s.accepted)
    requires forall x :: x in s.accepted ==> x !in Ended(es)
    ensures Distinct(After(s, es).accepted)
    decreases |es|
  {
    if es != [] {
      var n := Next(s, es[0]);
      var rest := Ended(es[1..]);
      if es[0].End? {
        assert Ended(es)[0] == es[0].span && Ended(es)[1..] == rest;
        assert es[0].span in Ended(es);
        forall x | x in rest ensures x in Ended(es) {}
        forall i, j | 0 <= i < j < |rest| ensures rest[i] != rest[j] { assert Ended(es)[i + 1] != Ended(es)[j + 1]; }
        forall k | 0 <= k < |rest| ensures rest[k] != es[0].span { assert Ended(es)[0] != Ended(es)[k + 1]; }
      } else {
        assert Ended(es) == rest;
      }
      AcceptedWereEnded(n, es[1..]);
    }
  }

  // No span is exported twice, when no span is ended twice.
  lemma ExportedAtMostOnce(es: seq<Event>)
    requires IsRun(INITIAL, es) && Distinct(Ended(es))
    ensures Distinct(After(INITIAL, es).exported)
  {
    RunOrdered(INITIAL, es);
    AcceptedWereEnded(INITIAL, es);
    var s := After(INITIAL, es);
    assert forall i :: 0 <= i < |s.exported| ==> s.exported[i] == s.accepted[i];
  }

  // When the drain finds the queue empty, everything accepted so far has been handed to export; what
  // is accepted after that stays queued for ever.
  lemma FoundEmptyIsDrained(es: seq<Event>, later: seq<Event>)
    requires IsRun(INITIAL, es) && Enabled(After(INITIAL, es), FindEmpty)
    requires IsRun(Next(After(INITIAL, es), FindEmpty), later)
    ensures After(INITIAL, es).exported == After(INITIAL, es).accepted
    ensures var end := After(Next(After(INITIAL, es), FindEmpty), later);
            && end.exported == After(INITIAL, es).accepted
            && end.accepted == end.exported + end.queue
  {
    RunOrdered(INITIAL, es);
    var returning := Next(After(INITIAL, es), FindEmpty);
    StepOrdered(After(INITIAL, es), FindEmpty);
    NothingMoreExported(returning, later);
    RunOrdered(returning, later);
  }

  lemma {:induction false} NothingMoreExported(s: State, es: seq<Event>)
    requires (s.worker.Returning? || s.worker.Done?) && IsRun(s, es)
    ensures After(s, es).exported == s.exported && (After(s, es).worker.Returning? || After(s, es).worker.Done?)
    decreases |es|
  {
    if es != [] { NothingMoreExported(Next(s, es[0]), es[1..]); }
  }

  // --- what is drained when doneCh closes ---

  // The spans ended since the drain last found the queue empty, after `since` of them already.
  function EndedSinceEmpty(es: seq<Event>, since: seq<Span>): seq<Span>
    decreases |es|
  {
    if es == [] then since
    else
      var e := es[0];
      EndedSinceEmpty(es[1..], if e.FindEmpty? then [] else if e.End? then since + [e.span] else since)
  }

  // While the worker returns, the queue holds nothing iff nothing was ended since it was found empty.
  lemma {:induction false} ReturningTracks(s: State, es: seq<Event>, since: seq<Span>)
    requires IsRun(s, es) && (s.worker.Returning? ==> (s.queue == [] <==> since == []))
    ensures After(s, es).worker.Returning? ==> (After(s, es).queue == [] <==> EndedSinceEmpty(es, since) == [])
    decreases |es|
  {
    if es != [] {
      var e := es[0];
      ReturningTracks(Next(s, e), es[1..], if e.FindEmpty? then [] else if e.End? then since + [e.span] else since);
    }
  }

  // When doneCh is about to close, everything accepted has been handed to export iff no span was ended
  // since the drain found the queue empty.
  lemma ClosedDrainedExactly(es: seq<Event>)
    requires IsRun(INITIAL, es) && Enabled(After(INITIAL, es), CloseDone)
    ensures After(INITIAL, es).exported == After(INITIAL, es).accepted <==> EndedSinceEmpty(es, []) == []
  {
    RunOrdered(INITIAL, es);
    ReturningTracks(INITIAL, es, []);
    NothingQueued(After(INITIAL, es));
  }

  lemma NothingQueued(s: State)
    requires Ordered(s) && s.worker.Returning?
    ensures s.exported == s.accepted <==> s.queue == []
  {
    assert |s.accepted| == |s.exported| + |s.queue|;
  }

  // A span accepted between the drain's default case and the deferred close is never exported, although
  // Shutdown returns as if the queue had been drained.
  lemma SpanLostAtClose()
    ensures var es := [Stop, SeeStop, FindEmpty, End(7), CloseDone];
            && IsRun(INITIAL, es)
            && After(INITIAL, es).worker.Done? && After(INITIAL, es).accepted == [7]
                && After(INITIAL, es).exported == []
  {
    var stopped := Next(INITIAL, Stop);
    var draining := Next(stopped, SeeStop);
    var returning := Next(draining, FindEmpty);
    var late := Next(returning, End(7));
    var done := Next(late, CloseDone);
    assert [CloseDone][1..] == [] && IsRun(late, [CloseDone]) && After(late, [CloseDone]) == done;
    var e3 := [End(7), CloseDone];
    assert e3[1..] == [CloseDone] && IsRun(returning, e3) && After(returning, e3) == done;
    var e2 := [FindEmpty, End(7), CloseDone];
    assert e2[1..] == e3 && IsRun(draining, e2) && After(draining, e2) == done;
    var e1 := [SeeStop, FindEmpty, End(7), CloseDone];
    assert e1[1..] == e2 && IsRun(stopped, e1) && After(stopped, e1) == done;
    var es := [Stop, SeeStop, FindEmpty, End(7), CloseDone];
    assert es[1..] == e1;
  }

  // No span is ended once Shutdown was called.
  ghost predicate QuietAfterStop(es: seq<Event>) {
    forall i, j :: 0 <= i < j < |es| && es[i].Stop? ==> !es[j].End?
  }

  // Then doneCh closes on a drained queue: nothing accepted is lost.
  lemma QuietShutdownDrains(es: seq<Event>)
    requires IsRun(INITIAL, es) && Enabled(After(INITIAL, es), CloseDone) && QuietAfterStop(es)
    ensures After(INITIAL, es).exported == After(INITIAL, es).accepted
  {
    RunOrdered(INITIAL, es);
    QuietSinceEmpty(INITIAL, es, []);
    ClosedDrainedExactly(es);
  }

  lemma {:induction false} QuietSinceEmpty(s: State, es: seq<Event>, since: seq<Span>)
    requires Ordered(s) && IsRun(s, es) && QuietAfterStop(es)
    requires s.stopped ==> forall j :: 0 <= j < |es| ==> !es[j].End?
    requires s.worker.Returning? ==> since == []
    ensures After(s, es).worker.Returning? ==> EndedSinceEmpty(es, since) == []
    decreases |es|
  {
    if es != [] {
      var e := es[0];
      StepOrdered(s, e);
      forall j | 0 <= j < |es[1..]| && Next(s, e).stopped ensures !es[1..][j].End? { assert es[1..][j] == es[j + 1]; }
      QuietSinceEmpty(Next(s, e), es[1..], if e.FindEmpty? then [] else if e.End? then since + [e.span] else since);
    }
  }

  // --- shutdown ends ---

  ghost function Remaining(s: State): nat {
    match s.worker
    case Waiting => 2 * |s.queue| + 4
    case Exporting(_) => 2 * |s.queue| + 5
    case Draining => 2 * |s.queue| + 2
    case DrainExporting(_) => 2 * |s.queue| + 3
    case Returning => 1
    case Done => 0
  }

  predicate WorkerEvent(e: Event) {
    !e.End? && !e.Stop?
  }

  // After stop and with no more spans ended, the worker has at most Remaining steps left, however it
  // chooses, and it can only get stuck by being done.
  lemma {:induction false} ShutdownDrains(s: State, es: seq<Event>)
    requires s.stopped && IsRun(s, es) && forall i :: 0 <= i < |es| ==> WorkerEvent(es[i])
    ensures |es| <= Remaining(s)
    ensures After(s, es).worker.Done? || exists e :: WorkerEvent(e) && Enabled(After(s, es), e)
    decreases |es|
  {
    if es == [] {
      var e := if s.worker.Waiting? then SeeStop
               else if s.worker.Draining? then (if s.queue == [] then FindEmpty else Receive)
               else if s.worker.Returning? then CloseDone
               else Finish;
      assert s.worker.Done? || (WorkerEvent(e) && Enabled(s, e));
    } else {
      assert WorkerEvent(es[0]);
      forall i | 0 <= i < |es[1..]| ensures WorkerEvent(es[1..][i]) { assert es[1..][i] == es[i + 1]; }
      ShutdownDrains(Next(s, es[0]), es[1..]);
    }
  }
}
