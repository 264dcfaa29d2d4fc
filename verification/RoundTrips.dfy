/**
 The round trip: exactly which executions come back from their events, for every
 execution and for those without re-entrant calls, and two that do not.
 */
module RoundTrips {
  import opened Common
  import opened Soroban
  import opened Events
  import opened CallTree
  import opened CallShape
  import opened Executions
  import opened Tracking
  import opened Misreadings

  /** A readable run ends as expected unless a stale frame takes the terminal error. */
  lemma ReadableEnds(m: Machine, raised: Option<(ScError, nat)>, loose: seq<Loose>, calls: seq<CallFrame>,
                     leftover: CallOutcome)
    requires Tracks(Empty, m, raised, loose, calls, leftover) && Chain(m)
    ensures CloseTo(m, 0, leftover).frames == calls <==> leftover == Unknown || !Stale(loose)
  {
    assert Empty.frames + calls == calls;
    if leftover == Unknown || !Stale(loose) {
      forall i | 0 <= i < |loose|
        ensures EndsLike(m.stack[0 + i], loose[i], leftover, leftover)
      {
        assert LooseAt(m, 0 + i, 0, loose[i]);
      }
      LooseCloseTo(m, 0, loose, leftover, leftover);
      hide CloseTo, CloseLoose;
    } else {
      hide CloseLoose;
      var i: nat :| i < |loose| && loose[i].silent && loose[i].spent;
      assert LooseAt(m, 0 + i, 0, loose[i]);
      LooseExpected(Empty, m, raised, loose, calls, leftover, i);
      CloseToEnds(m, 0, leftover, i);
      hide CloseTo;
      assert calls[m.stack[i].frame].outcome == Unknown;
    }
  }

  lemma MachineRoundTrip(run: seq<Act>, leftover: CallOutcome)
    requires WellFormed(run)
    ensures CloseTo(After(Empty, BodyTrace(None, run), 0), 0, leftover).frames == BodyFrames(None, run, 0, 0, leftover)
            <==> Readable(None, run) && (leftover == Unknown || !Stale(Dangling(None, run)))
  {
    hide BodyFrames, BodyTrace, Dangling, LastRaise, Readable, WellFormed, CloseTo, After, Stale, Tracks, CloseLoose;
    var m, calls := After(Empty, BodyTrace(None, run), 0), BodyFrames(None, run, 0, 0, leftover);
    AfterFit(Empty, BodyTrace(None, run), 0);
    FitChain(m, |BodyTrace(None, run)|);
    if Readable(None, run) {
      BodyTracks(Empty, None, run, 0, leftover);
      ReadableEnds(m, LastRaise(None, run, 0), Dangling(None, run), calls, leftover);
    } else {
      Spoils(Empty, None, run, 0, leftover);
      var k: nat :| Misread(Empty, m, calls, k);
      CloseDooms(m, 0, leftover, k, calls[k]);
    }
  }

  /**
   The round trip, for every execution: the call tree is every call, in order,
   with its contract, function, depth and outcome, exactly when the execution is
   readable and no stale frame is left to take a terminal error.
   */
  lemma RoundTrip(run: seq<Act>, raw: seq<RawEvent>, enabled: bool)
    requires WellFormed(run)
    requires Shows(ClassifyFrom(raw, 0), BodyTrace(None, run))
    ensures var d := FromEvents(raw, enabled);
            d.calls == BodyFrames(None, run, 0, 0, Leftover(d.terminal))
            <==> Distinguishable(None, run) && Orderly(run) && (d.terminal.None? || !Stale(Dangling(None, run)))
  {
    hide ClassifyFrom, Shows, WellFormed, Distinguishable, Orderly, BodyTrace, BodyFrames, CloseTo, After, Stale,
         Dangling;
    var events := ClassifyFrom(raw, 0);
    RunReadsNotes(events, BodyTrace(None, run));
    MachineRoundTrip(run, Leftover(TerminalOf(events)));
  }

  // ------------------------------------------------------------ without re-entry

  /** No contract is called while it is already on the path from the root. */
  predicate DistinctPaths(path: set<ContractId>, body: seq<Act>)
    decreases body
  {
    body == [] || (DistinctPaths(path, body[..|body| - 1]) && ActDistinctPaths(path, body[|body| - 1]))
  }

  predicate ActDistinctPaths(path: set<ContractId>, act: Act)
    decreases act
  {
    match act
    case Invoke(call) => call.contract !in path && DistinctPaths(path + {call.contract}, call.body)
    case _ => true
  }

  /** Loose frames of contracts off the path, none of them spent. */
  predicate Apart(loose: seq<Loose>, path: set<ContractId>) {
    forall i :: 0 <= i < |loose| ==> loose[i].contract !in path && !loose[i].spent
  }

  /** Without re-entrant calls, no failure can hide behind its emitter. */
  lemma {:induction false} DistinctPathsDistinguish(path: set<ContractId>, owner: Option<ContractId>, body: seq<Act>)
    requires DistinctPaths(path, body) && (owner.Some? ==> owner.value in path)
    ensures Distinguishable(owner, body)
    ensures Apart(Dangling(owner, body), path)
    decreases body
  {
    if body != [] {
      var init := body[..|body| - 1];
      DistinctPathsDistinguish(path, owner, init);
      ActDistinctPathsDistinguish(path, body[|body| - 1]);
      if owner.Some? {
        assert !Has(Dangling(owner, init), owner.value);
      }
    }
  }

  lemma {:induction false} ActDistinctPathsDistinguish(path: set<ContractId>, act: Act)
    requires ActDistinctPaths(path, act)
    ensures ActDistinguishable(act)
    ensures Apart(ActDangling(act), path)
    decreases act
  {
    if act.Invoke? {
      DistinctPathsDistinguish(path + {act.call.contract}, Some(act.call.contract), act.call.body);
    }
  }

  /** Without re-entrant calls, the round trip holds exactly when no call returns too early. */
  lemma RoundTripWithoutReentry(run: seq<Act>, raw: seq<RawEvent>, enabled: bool)
    requires WellFormed(run) && DistinctPaths({}, run)
    requires Shows(ClassifyFrom(raw, 0), BodyTrace(None, run))
    ensures var d := FromEvents(raw, enabled);
            d.calls == BodyFrames(None, run, 0, 0, Leftover(d.terminal)) <==> Orderly(run)
  {
    RoundTrip(run, raw, enabled);
    DistinctPathsDistinguish({}, None, run);
    hide Distinguishable, Orderly, Dangling, BodyFrames, BodyTrace, WellFormed, DistinctPaths, FromEvents, Shows;
    assert !Stale(Dangling(None, run));
  }

  // ------------------------------------------------------- failures that hide

  /** `a` calls `b`, `b` calls `a` again; both inner calls fail silently, and then the outer `a` does `last`. */
  function Reentrant(a: ContractId, b: ContractId, last: EventKind): seq<Act> {
    [Invoke(Call(a, "f", [Invoke(Inner(a, b)), Emit(last)], false))]
  }

  lemma NothingDone(owner: Option<ContractId>)
    ensures WellFormed([]) && Orderly([]) && Distinguishable(owner, []) && Dangling(owner, []) == []
    ensures LastRaise(owner, [], 0) == None
  {
  }

  lemma OneMoreAct(owner: Option<ContractId>, init: seq<Act>, last: Act)
    ensures var body := init + [last];
            && (WellFormed(body) <==> WellFormed(init) && ActWellFormed(last))
            && (Orderly(body) <==> Orderly(init) && ActOrderly(last))
            && (Distinguishable(owner, body) <==>
                  && Distinguishable(owner, init) && ActDistinguishable(last)
                  && (owner.Some? && Marks(last) ==> !Has(Dangling(owner, init), owner.value)))
            && Dangling(owner, body) == LooseAfter(owner, last, Dangling(owner, init))
            && (last.Invoke? ==> (LastRaise(owner, body, 0).None? <==> LastRaise(owner, init, 0).None?))
  {
    var body := init + [last];
    assert body[..|body| - 1] == init && body[|body| - 1] == last;
    hide BodyTrace, Unwound, Spent, Has;
  }

  /** A body of one call whose own body is known. */
  lemma OneCall(owner: Option<ContractId>, call: Call)
    requires !call.returns_
    ensures var act, inside := Invoke(call), Some(call.contract);
            && (WellFormed([act]) <==> WellFormed(call.body))
            && (Orderly([act]) <==> Orderly(call.body))
            && (Distinguishable(owner, [act]) <==> Distinguishable(inside, call.body))
            && Dangling(owner, [act])
               == [Loose(call.contract, LastRaise(inside, call.body, 0).None?, false)] + Dangling(inside, call.body)
            && LastRaise(owner, [act], 0) == None
  {
    NothingDone(owner);
    OneMoreAct(owner, [], Invoke(call));
    assert [] + [Invoke(call)] == [Invoke(call)];
  }

  function Inner(a: ContractId, b: ContractId): Call {
    Call(b, "g", [Invoke(Call(a, "h", [], false))], false)
  }

  /** What is loose when the outer `a` speaks again: the inner `b` and `a`, which raised nothing. */
  lemma InnerLoose(a: ContractId, b: ContractId)
    requires a != b
    ensures var body := [Invoke(Inner(a, b))];
            && Dangling(Some(a), body) == [Loose(b, true, false), Loose(a, true, false)]
            && WellFormed(body) && Orderly(body) && Distinguishable(Some(a), body)
  {
    var deepest := Call(a, "h", [], false);
    NothingDone(Some(a));
    OneCall(Some(b), deepest);
    OneCall(Some(a), Inner(a, b));
    hide WellFormed, Orderly, Distinguishable, Dangling, LastRaise;
    assert [Loose(a, true, false)] + [] == [Loose(a, true, false)];
  }

  lemma ReentrantConditions(a: ContractId, b: ContractId, last: EventKind)
    requires a != b && Plain(last)
    ensures var run := Reentrant(a, b, last);
            && WellFormed(run) && Orderly(run)
            && (Distinguishable(None, run) <==> !last.Error?)
            && (!last.Error? ==> Stale(Dangling(None, run)))
  {
    var body := [Invoke(Inner(a, b)), Emit(last)];
    var loose := [Loose(b, true, false), Loose(a, true, false)];
    InnerLoose(a, b);
    OneMoreAct(Some(a), [Invoke(Inner(a, b))], Emit(last));
    OneCall(None, Call(a, "f", body, false));
    hide WellFormed, Orderly, Distinguishable, Dangling, LastRaise;
    assert [Invoke(Inner(a, b))] + [Emit(last)] == body;
    assert loose[1].contract == a && Unwound(loose, a) == loose;
    assert Spent(loose)[0] == Loose(b, true, true);
    var run := Reentrant(a, b, last);
    assert run == [Invoke(Call(a, "f", body, false))];
    assert Dangling(None, run)[1] == Spent(loose)[0];
  }

  /**
   Without the condition on contracts the round trip fails: the error of the
   outer `a` is charged to the inner one, in an execution that is otherwise orderly.
   */
  lemma ErrorGoesToTheWrongFrame(a: ContractId, b: ContractId, error: ScError, raw: seq<RawEvent>, enabled: bool)
    requires a != b
    requires Shows(ClassifyFrom(raw, 0), BodyTrace(None, Reentrant(a, b, Error(error, None))))
    ensures var run, d := Reentrant(a, b, Error(error, None)), FromEvents(raw, enabled);
            && WellFormed(run) && Orderly(run) && !Distinguishable(None, run)
            && d.calls != BodyFrames(None, run, 0, 0, Leftover(d.terminal))
  {
    ReentrantConditions(a, b, Error(error, None));
    hide WellFormed, Orderly, Distinguishable, BodyFrames, BodyTrace, Reentrant, FromEvents, Shows, Dangling, Stale;
    RoundTrip(Reentrant(a, b, Error(error, None)), raw, enabled);
  }

  /** The outer `a` goes on with another event, and then the invocation ends with an error. */
  function Ended(a: ContractId, b: ContractId, error: ScError): seq<Act> {
    Reentrant(a, b, Log(None)) + [Ambient(HostFnFailed(error))]
  }

  lemma EndedConditions(a: ContractId, b: ContractId, error: ScError)
    requires a != b
    ensures var run := Ended(a, b, error);
            && WellFormed(run) && Orderly(run) && Distinguishable(None, run) && Stale(Dangling(None, run))
            && BodyTrace(None, run)
               == BodyTrace(None, Reentrant(a, b, Log(None))) + [Note(None, HostFnFailed(error))]
  {
    ReentrantConditions(a, b, Log(None));
    var init, last := Reentrant(a, b, Log(None)), Ambient(HostFnFailed(error));
    OneMoreAct(None, init, last);
    hide WellFormed, Orderly, Distinguishable, Dangling, Reentrant, Stale;
    assert (init + [last])[..|init + [last]| - 1] == init;
  }

  lemma EndsWithAnError(events: seq<DiagEvent>, notes: seq<Note>, error: ScError)
    requires Shows(events, notes + [Note(None, HostFnFailed(error))])
    ensures TerminalOf(events).Some?
  {
    hide TerminalOf;
    assert events[|notes|].kind == HostFnFailed(error) && events[|notes|] in events;
  }

  /** Another event of the outer `a` leaves the inner frames open, and they take the terminal error. */
  lemma FailureTakesTheTerminalError(a: ContractId, b: ContractId, error: ScError, raw: seq<RawEvent>, enabled: bool)
    requires a != b
    requires Shows(ClassifyFrom(raw, 0), BodyTrace(None, Ended(a, b, error)))
    ensures var run, d := Ended(a, b, error), FromEvents(raw, enabled);
            && WellFormed(run) && Orderly(run) && Distinguishable(None, run)
            && d.calls != BodyFrames(None, run, 0, 0, Leftover(d.terminal))
  {
    hide ClassifyFrom, WellFormed, Orderly, Distinguishable, BodyFrames, BodyTrace, Ended, Shows, Dangling, Stale,
         TerminalOf, Reconstruct;
    EndedConditions(a, b, error);
    EndsWithAnError(ClassifyFrom(raw, 0), BodyTrace(None, Reentrant(a, b, Log(None))), error);
    RoundTrip(Ended(a, b, error), raw, enabled);
  }
}
