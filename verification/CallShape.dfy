/**
 What the call tree guarantees for every event list, well formed or not: its
 frames are the call events in order, they form a forest, every frame is settled
 at most once, and a failure always names where it was raised.
 */
module CallShape {
  import opened Common
  import opened Soroban
  import opened Events
  import opened CallTree

  /** The machine `CloseTo` leaves: only frames of the ended entries change. */
  lemma {:induction false} CloseToFrame(m: Machine, height: nat, dflt: CallOutcome, k: nat)
    requires m.Sound() && k < |m.frames|
    ensures CloseTo(m, height, dflt).frames[k] == m.frames[k].(outcome := CloseTo(m, height, dflt).frames[k].outcome)
    ensures (forall i :: height <= i < |m.stack| ==> m.stack[i].frame != k)
            ==> CloseTo(m, height, dflt).frames[k] == m.frames[k]
    decreases |m.stack|
  {
    if |m.stack| > height {
      CloseToFrame(PopFailed(m, dflt), height, dflt, k);
    }
  }

  lemma {:induction false} CloseToTwice(m: Machine, h: nat, low: nat, dflt: CallOutcome)
    requires m.Sound() && low <= h
    ensures CloseTo(CloseTo(m, h, dflt), low, dflt) == CloseTo(m, low, dflt)
    decreases |m.stack|
  {
    if |m.stack| > h {
      CloseToTwice(PopFailed(m, dflt), h, low, dflt);
    }
  }

  /** The open frames are a chain, each one deeper and later than the one below. */
  ghost predicate Chain(m: Machine) {
    && m.Sound()
    && (forall i, j :: 0 <= i < j < |m.stack| ==> m.stack[i].frame < m.stack[j].frame)
    && (forall i :: 0 <= i < |m.stack| ==> m.frames[m.stack[i].frame].depth == i)
  }

  /** Depths read in call order are a preorder forest. */
  ghost predicate Forest(frames: seq<CallFrame>) {
    && (frames != [] ==> frames[0].depth == 0)
    && forall k :: 0 <= k < |frames| - 1 ==> frames[k + 1].depth <= frames[k].depth + 1
  }

  /** Everything opened after an open frame is below it. */
  ghost predicate Encloses(m: Machine) {
    && m.Sound()
    && (forall i, k :: 0 <= i < |m.stack| && m.stack[i].frame < k < |m.frames| ==> m.frames[k].depth > i)
    && (|m.stack| > 0 ==> m.frames != [] && |m.stack| <= m.frames[|m.frames| - 1].depth + 1)
  }

  ghost predicate Shaped(m: Machine) {
    Chain(m) && Forest(m.frames) && Encloses(m)
  }

  lemma CloseToChain(m: Machine, height: nat, dflt: CallOutcome)
    requires Chain(m)
    ensures Chain(CloseTo(m, height, dflt))
  {
    var r := CloseTo(m, height, dflt);
    forall k | 0 <= k < |m.frames|
      ensures r.frames[k] == m.frames[k].(outcome := r.frames[k].outcome)
    {
      CloseToFrame(m, height, dflt, k);
    }
    assert forall i :: 0 <= i < |r.stack| ==> r.stack[i] == m.stack[i];
  }

  lemma CloseToShaped(m: Machine, height: nat, dflt: CallOutcome)
    requires m.Sound() && Shaped(m)
    ensures Shaped(CloseTo(m, height, dflt))
  {
    hide CloseTo, Chain;
    CloseToChain(m, height, dflt);
    var r := CloseTo(m, height, dflt);
    forall k | 0 <= k < |m.frames|
      ensures r.frames[k].depth == m.frames[k].depth
    {
      CloseToFrame(m, height, dflt, k);
    }
    assert forall i :: 0 <= i < |r.stack| ==> r.stack[i] == m.stack[i];
    assert Forest(r.frames);
    assert Encloses(r);
  }

  lemma PushShaped(m: Machine, index: nat, callee: ContractId, func: string)
    requires Shaped(m)
    ensures Shaped(Push(m, index, callee, func))
  {
    var r := Push(m, index, callee, func);
    forall i, k | 0 <= i < |r.stack| && r.stack[i].frame < k < |r.frames|
      ensures r.frames[k].depth > i
    {
      if k == |m.frames| {
        assert i < |m.stack|;
      }
    }
  }

  lemma ReturnShaped(m: Machine)
    requires Shaped(m)
    ensures Shaped(PopReturned(m))
  {
  }

  lemma ChargeShaped(m: Machine, c: ContractId, error: ScError, index: nat)
    requires Shaped(m)
    ensures Shaped(Charge(m, c, error, index))
  {
    var r := Charge(m, c, error, index);
    assert forall i :: 0 <= i < |r.stack| ==> r.stack[i].frame == m.stack[i].frame;
  }

  lemma StepShaped(m: Machine, e: DiagEvent)
    requires m.Sound() && Shaped(m)
    ensures Shaped(Step(m, e))
  {
    hide Shaped, CloseTo, HeightFor, Push, PopReturned, Charge;
    if e.kind.FnCall? {
      var height := if e.contract.Some? then HeightFor(m, e.contract.value) else 0;
      CloseToShaped(m, height, Unknown);
      PushShaped(CloseTo(m, height, Unknown), e.index, e.kind.callee, e.kind.func);
    } else if e.kind.FnReturn? {
      ReturnShaped(m);
    } else if e.contract.Some? {
      CloseToShaped(m, HeightFor(m, e.contract.value), Unknown);
      if e.kind.Error? {
        ChargeShaped(Unwind(m, e.contract.value), e.contract.value, e.kind.error, e.index);
      }
    }
  }

  lemma {:induction false} RunShaped(m: Machine, events: seq<DiagEvent>)
    requires Shaped(m)
    ensures Shaped(Run(m, events))
    decreases |events|
  {
    if events != [] {
      RunShaped(m, events[..|events| - 1]);
      StepShaped(Run(m, events[..|events| - 1]), events[|events| - 1]);
    }
  }

  /** Frame `k` exists and is no longer open. */
  ghost predicate Closed(m: Machine, k: nat) {
    && m.Sound() && k < |m.frames|
    && forall i :: 0 <= i < |m.stack| ==> m.stack[i].frame != k
  }

  /** Every entry above the height is ended, with what it raised or else with the default. */
  lemma {:induction false} CloseToEnds(m: Machine, height: nat, dflt: CallOutcome, i: nat)
    requires Chain(m) && height <= i < |m.stack|
    ensures var r := CloseTo(m, height, dflt);
            && Closed(r, m.stack[i].frame)
            && r.frames[m.stack[i].frame].outcome == OutcomeOf(m.stack[i].lastError, dflt)
    decreases |m.stack|
  {
    var r := PopFailed(m, dflt);
    CloseToUnfolds(m, height, dflt);
    PopEnds(m, dflt);
    hide CloseTo, PopFailed, Chain, Closed;
    if i < |m.stack| - 1 {
      CloseToEnds(r, height, dflt, i);
    } else {
      CloseKeepsClosed(r, height, dflt, m.Top().frame);
    }
  }

  lemma PopEnds(m: Machine, dflt: CallOutcome)
    requires Chain(m) && m.stack != []
    ensures var r, k := PopFailed(m, dflt), m.Top().frame;
            && Chain(r) && r.stack == m.stack[..|m.stack| - 1]
            && Closed(r, k) && r.frames[k].outcome == OutcomeOf(m.Top().lastError, dflt)
  {
  }

  lemma CloseKeepsClosed(m: Machine, height: nat, dflt: CallOutcome, k: nat)
    requires m.Sound() && Closed(m, k)
    ensures Closed(CloseTo(m, height, dflt), k) && CloseTo(m, height, dflt).frames[k] == m.frames[k]
  {
    CloseToFrame(m, height, dflt, k);
    hide CloseTo;
  }

  lemma StepKeepsClosed(m: Machine, e: DiagEvent, k: nat)
    requires Closed(m, k)
    ensures Closed(Step(m, e), k) && Step(m, e).frames[k] == m.frames[k]
  {
    if e.kind.FnCall? {
      CloseToFrame(m, if e.contract.Some? then HeightFor(m, e.contract.value) else 0, Unknown, k);
    } else if !e.kind.FnReturn? && e.contract.Some? {
      CloseToFrame(m, HeightFor(m, e.contract.value), Unknown, k);
    }
  }

  /** A frame is settled at most once: whatever follows leaves it alone. */
  lemma {:induction false} RunKeepsClosed(m: Machine, events: seq<DiagEvent>, k: nat)
    requires Closed(m, k)
    ensures Closed(Run(m, events), k) && Run(m, events).frames[k] == m.frames[k]
    decreases |events|
  {
    if events != [] {
      RunKeepsClosed(m, events[..|events| - 1], k);
      StepKeepsClosed(Run(m, events[..|events| - 1]), events[|events| - 1], k);
    }
  }

  // ------------------------------------------------ frames are the call events

  /** The positions of the call events, in order. */
  function CallsIn(events: seq<DiagEvent>): (r: seq<nat>)
    ensures forall k :: 0 <= k < |r| ==> r[k] < |events|
  {
    if events == [] then []
    else
      var n := |events| - 1;
      CallsIn(events[..n]) + if events[n].kind.FnCall? then [n] else []
  }

  lemma {:induction false} CallsInOrder(events: seq<DiagEvent>)
    ensures forall j, k :: 0 <= j < k < |CallsIn(events)| ==> CallsIn(events)[j] < CallsIn(events)[k]
    ensures forall p: nat :: p in CallsIn(events) <==> p < |events| && events[p].kind.FnCall?
    decreases |events|
  {
    if events != [] {
      CallsInOrder(events[..|events| - 1]);
    }
  }

  predicate SameCall(a: CallFrame, b: CallFrame) {
    a == b.(outcome := a.outcome)
  }

  predicate OpenedBy(f: CallFrame, e: DiagEvent) {
    e.kind.FnCall? && f.eventIndex == e.index && f.contract == e.kind.callee && f.func == e.kind.func
  }

  lemma CloseToCalls(m: Machine, height: nat, dflt: CallOutcome)
    requires m.Sound()
    ensures forall k :: 0 <= k < |m.frames| ==> SameCall(CloseTo(m, height, dflt).frames[k], m.frames[k])
  {
    forall k | 0 <= k < |m.frames|
      ensures SameCall(CloseTo(m, height, dflt).frames[k], m.frames[k])
    {
      CloseToFrame(m, height, dflt, k);
    }
  }

  lemma StepCalls(m: Machine, e: DiagEvent)
    requires m.Sound()
    ensures |Step(m, e).frames| == |m.frames| + if e.kind.FnCall? then 1 else 0
    ensures forall k :: 0 <= k < |m.frames| ==> SameCall(Step(m, e).frames[k], m.frames[k])
    ensures e.kind.FnCall? ==> OpenedBy(Step(m, e).frames[|m.frames|], e)
  {
    if e.kind.FnCall? {
      CloseToCalls(m, if e.contract.Some? then HeightFor(m, e.contract.value) else 0, Unknown);
    } else if !e.kind.FnReturn? && e.contract.Some? {
      CloseToCalls(m, HeightFor(m, e.contract.value), Unknown);
    }
  }

  lemma {:induction false} RunCalls(events: seq<DiagEvent>)
    ensures var frames := Run(Empty, events).frames;
            && |frames| == |CallsIn(events)|
            && forall k :: 0 <= k < |frames| ==> OpenedBy(frames[k], events[CallsIn(events)[k]])
    decreases |events|
  {
    if events != [] {
      var n := |events| - 1;
      RunCalls(events[..n]);
      StepCalls(Run(Empty, events[..n]), events[n]);
    }
  }

  /** Every call event makes exactly one frame, in order, and the depths are a forest. */
  lemma FramesAreTheCalls(events: seq<DiagEvent>, terminal: Option<TerminalError>)
    ensures var frames := Reconstruct(events, terminal);
            && |frames| == |CallsIn(events)|
            && (forall k :: 0 <= k < |frames| ==> OpenedBy(frames[k], events[CallsIn(events)[k]]))
            && Forest(frames)
  {
    var m := Run(Empty, events);
    RunCalls(events);
    CloseToCalls(m, 0, Leftover(terminal));
    RunShaped(Empty, events);
    CloseToShaped(m, 0, Leftover(terminal));
  }

  /** The nearest earlier frame one level up. */
  ghost predicate ParentOf(frames: seq<CallFrame>, p: nat, k: nat) {
    && p < k < |frames|
    && frames[p].depth + 1 == frames[k].depth
    && forall q :: p < q < k ==> frames[q].depth > frames[p].depth
  }

  /** A call from a contract on the stack becomes a child of that contract's frame. */
  lemma CallerIsParent(m: Machine, e: DiagEvent)
    requires Shaped(m) && e.kind.FnCall? && e.contract.Some? && m.OnStack(e.contract.value)
    ensures var r := Step(m, e);
            exists p: nat :: ParentOf(r.frames, p, |m.frames|) && r.frames[p].contract == e.contract.value
  {
    var h := HeightFor(m, e.contract.value);
    var i :| 0 <= i < |m.stack| && m.ContractAt(i) == e.contract.value;
    assert h > 0;
    StepShaped(m, e);
    StepCalls(m, e);
    var r := Step(m, e);
    var p := m.stack[h - 1].frame;
    assert r.stack[h - 1] == m.stack[h - 1];
    assert SameCall(r.frames[p], m.frames[p]);
    assert ParentOf(r.frames, p, |m.frames|);
  }

  /** A call from a contract that is not on the stack closes nothing, and goes on top. */
  lemma StrangerCallsFromTheTop(m: Machine, e: DiagEvent)
    requires m.Sound() && e.kind.FnCall? && e.contract.Some? && !m.OnStack(e.contract.value)
    ensures var r := Step(m, e);
            && r.stack == m.stack + [Open(|m.frames|, None)]
            && r.frames == m.frames + [CallFrame(e.index, |m.stack|, e.kind.callee, e.kind.func, Unknown)]
  {
    assert CloseTo(m, |m.stack|, Unknown) == m;
    hide CloseTo;
  }

  /** A call without an emitter starts a tree of its own: every open frame ends with its last error. */
  lemma TransactionCallsFromTheBottom(m: Machine, e: DiagEvent, k: nat)
    requires m.Sound() && Chain(m) && e.kind.FnCall? && e.contract.None? && k < |m.stack|
    ensures var r := Step(m, e);
            && r.stack == [Open(|m.frames|, None)]
            && |r.frames| == |m.frames| + 1
            && r.frames[|m.frames|] == CallFrame(e.index, 0, e.kind.callee, e.kind.func, Unknown)
            && r.frames[m.stack[k].frame].outcome == OutcomeOf(m.stack[k].lastError, Unknown)
  {
    CloseToEnds(m, 0, Unknown, k);
    hide CloseTo;
  }

  /** A contract that is not on the stack changes nothing, unless it calls or returns. */
  lemma StrangerChangesNothing(m: Machine, e: DiagEvent)
    requires m.Sound() && !e.kind.FnCall? && !e.kind.FnReturn?
    requires e.contract.None? || !m.OnStack(e.contract.value)
    ensures Step(m, e) == m
  {
    if e.contract.Some? {
      assert |m.stack| > 0 ==> m.ContractAt(|m.stack| - 1) != e.contract.value;
    }
  }

  // -------------------------------------------------- outcomes and their sources

  ghost predicate Cites(e: DiagEvent, c: ContractId, error: ScError, index: nat) {
    e.kind.Error? && e.kind.error == error && e.contract == Some(c) && e.index == index
  }

  /** After position `from`, the contract raised this error in the event cited. */
  ghost predicate RaisedAfter(events: seq<DiagEvent>, from: nat, c: ContractId, error: ScError, index: nat) {
    exists j :: from < j < |events| && Cites(events[j], c, error, index)
  }

  ghost predicate FrameSourced(events: seq<DiagEvent>, from: nat, f: CallFrame) {
    f.outcome.Failed? ==> RaisedAfter(events, from, f.contract, f.outcome.error, f.outcome.eventIndex)
  }

  ghost predicate OpenSourced(events: seq<DiagEvent>, from: nat, c: ContractId, o: Open) {
    o.lastError.Some? ==> RaisedAfter(events, from, c, o.lastError.value.0, o.lastError.value.1)
  }

  /** Every error recorded so far was raised by the frame it is recorded for. */
  ghost predicate Sourced(m: Machine, events: seq<DiagEvent>, calls: seq<nat>) {
    && m.Sound() && |m.frames| == |calls|
    && (forall k :: 0 <= k < |m.frames| ==> FrameSourced(events, calls[k], m.frames[k]))
    && (forall i :: 0 <= i < |m.stack| ==>
          OpenSourced(events, calls[m.stack[i].frame], m.ContractAt(i), m.stack[i]))
    && (forall i :: 0 <= i < |m.stack| ==> m.frames[m.stack[i].frame].outcome == Unknown)
  }

  /** Ending the top frame with what it raised. */
  lemma PopSourced(m: Machine, events: seq<DiagEvent>, calls: seq<nat>)
    requires Sourced(m, events, calls) && Chain(m) && m.stack != []
    ensures Sourced(PopFailed(m, Unknown), events, calls) && Chain(PopFailed(m, Unknown))
  {
    var r, n, top := PopFailed(m, Unknown), |m.stack| - 1, m.Top();
    hide RaisedAfter;
    assert OpenSourced(events, calls[top.frame], m.ContractAt(n), top);
    assert FrameSourced(events, calls[top.frame], r.frames[top.frame]);
    forall i | 0 <= i < |r.stack|
      ensures r.stack[i] == m.stack[i] && r.frames[r.stack[i].frame] == m.frames[m.stack[i].frame]
    {
    }
    hide FrameSourced, OpenSourced;
  }

  lemma {:induction false} CloseToSourced(m: Machine, height: nat, events: seq<DiagEvent>, calls: seq<nat>)
    requires Sourced(m, events, calls) && Chain(m)
    ensures Sourced(CloseTo(m, height, Unknown), events, calls)
    decreases |m.stack|
  {
    CloseToUnfolds(m, height, Unknown);
    if |m.stack| > height {
      PopSourced(m, events, calls);
      hide Sourced, Chain, CloseTo;
      CloseToSourced(PopFailed(m, Unknown), height, events, calls);
    }
  }

  lemma SourcedLater(m: Machine, events: seq<DiagEvent>, calls: seq<nat>, e: DiagEvent)
    requires Sourced(m, events, calls)
    ensures Sourced(m, events + [e], calls)
  {
    forall from: nat, c, error, index | RaisedAfter(events, from, c, error, index)
      ensures RaisedAfter(events + [e], from, c, error, index)
    {
      var j :| from < j < |events| && Cites(events[j], c, error, index);
      assert Cites((events + [e])[j], c, error, index);
    }
  }

  lemma ChargeSourced(m: Machine, events: seq<DiagEvent>, calls: seq<nat>, j: nat, c: ContractId)
    requires Sourced(m, events, calls) && Chain(m)
    requires j < |events| && events[j].kind.Error? && events[j].contract == Some(c)
    requires forall k :: 0 <= k < |calls| ==> calls[k] < j
    ensures Sourced(Charge(m, c, events[j].kind.error, events[j].index), events, calls)
  {
    var r := Charge(m, c, events[j].kind.error, events[j].index);
    var n := |m.stack|;
    if n > 0 && m.ContractAt(n - 1) == c {
      assert Cites(events[j], c, events[j].kind.error, events[j].index);
      assert OpenSourced(events, calls[r.stack[n - 1].frame], c, r.stack[n - 1]);
    }
    assert forall i :: 0 <= i < |r.stack| ==>
      r.stack[i].frame == m.stack[i].frame && r.ContractAt(i) == m.ContractAt(i);
  }

  lemma PushSourced(m: Machine, events: seq<DiagEvent>, calls: seq<nat>, at: nat, e: DiagEvent)
    requires Sourced(m, events, calls) && e.kind.FnCall?
    ensures Sourced(Push(m, e.index, e.kind.callee, e.kind.func), events, calls + [at])
  {
    var r := Push(m, e.index, e.kind.callee, e.kind.func);
    assert forall i :: 0 <= i < |m.stack| ==> r.stack[i] == m.stack[i] && r.ContractAt(i) == m.ContractAt(i);
  }

  lemma ReturnSourced(m: Machine, events: seq<DiagEvent>, calls: seq<nat>)
    requires Sourced(m, events, calls) && Chain(m)
    ensures Sourced(PopReturned(m), events, calls)
  {
    var r := PopReturned(m);
    assert forall i :: 0 <= i < |r.stack| ==> r.stack[i] == m.stack[i] && r.ContractAt(i) == m.ContractAt(i);
  }

  lemma StepSourced(m: Machine, events: seq<DiagEvent>, calls: seq<nat>, e: DiagEvent)
    requires m.Sound() && Sourced(m, events, calls) && Shaped(m) && Chain(m)
    requires forall k :: 0 <= k < |calls| ==> calls[k] < |events|
    ensures Sourced(Step(m, e), events + [e], calls + if e.kind.FnCall? then [|events|] else [])
  {
    hide Sourced, Shaped, CloseTo, HeightFor, Push, PopReturned, Charge;
    var n := |events|;
    var events' := events + [e];
    assert events'[n] == e;
    assert calls + [] == calls;
    SourcedLater(m, events, calls, e);
    if e.kind.FnCall? {
      var height := if e.contract.Some? then HeightFor(m, e.contract.value) else 0;
      CloseToSourced(m, height, events', calls);
      PushSourced(CloseTo(m, height, Unknown), events', calls, n, e);
    } else if e.kind.FnReturn? {
      ReturnSourced(m, events', calls);
    } else if e.contract.Some? {
      var c := e.contract.value;
      CloseToSourced(m, HeightFor(m, c), events', calls);
      CloseToChain(m, HeightFor(m, c), Unknown);
      if e.kind.Error? {
        ChargeSourced(Unwind(m, c), events', calls, n, c);
      }
    }
  }

  lemma NoneSourced()
    ensures Sourced(Run(Empty, []), [], CallsIn([]))
  {
  }

  lemma LatestRun(events: seq<DiagEvent>)
    requires events != []
    ensures Run(Empty, events) == Step(Run(Empty, events[..|events| - 1]), events[|events| - 1])
  {
    hide Step;
  }

  lemma LatestCall(events: seq<DiagEvent>)
    requires events != []
    ensures var n := |events| - 1;
            CallsIn(events) == CallsIn(events[..n]) + if events[n].kind.FnCall? then [n] else []
  {
  }

  lemma RunChain(events: seq<DiagEvent>)
    ensures Shaped(Run(Empty, events)) && Chain(Run(Empty, events))
  {
    RunShaped(Empty, events);
  }

  lemma {:induction false} RunSourced(events: seq<DiagEvent>)
    ensures Sourced(Run(Empty, events), events, CallsIn(events))
    decreases |events|
  {
    if events == [] {
      NoneSourced();
    } else {
      hide *;
      var n := |events| - 1;
      var m, calls := Run(Empty, events[..n]), CallsIn(events[..n]);
      RunSourced(events[..n]);
      RunChain(events[..n]);
      LatestRun(events);
      LatestCall(events);
      assert events == events[..n] + [events[n]];
      StepSourced(m, events[..n], calls, events[n]);
    }
  }

  ghost predicate OpenEntry(m: Machine, k: nat) {
    exists i :: 0 <= i < |m.stack| && m.stack[i].frame == k
  }

  /** What an open frame becomes when everything is drained. */
  lemma {:induction false} DrainFrame(m: Machine, dflt: CallOutcome, k: nat)
    requires Chain(m) && k < |m.frames|
    ensures forall i :: 0 <= i < |m.stack| && m.stack[i].frame == k ==>
              CloseTo(m, 0, dflt).frames[k].outcome == OutcomeOf(m.stack[i].lastError, dflt)
    ensures !OpenEntry(m, k) ==> CloseTo(m, 0, dflt).frames[k] == m.frames[k]
    decreases |m.stack|
  {
    CloseToFrame(m, 0, dflt, k);
    if |m.stack| > 0 {
      var r := PopFailed(m, dflt);
      assert forall i :: 0 <= i < |r.stack| ==> r.stack[i] == m.stack[i];
      DrainFrame(r, dflt, k);
      if k == m.Top().frame {
        CloseToFrame(r, 0, dflt, k);
      }
    }
  }

  lemma DrainSources(m: Machine, dflt: CallOutcome, events: seq<DiagEvent>, calls: seq<nat>, k: nat)
    requires Sourced(m, events, calls) && Chain(m) && k < |m.frames|
    ensures var f := CloseTo(m, 0, dflt).frames[k];
            FrameSourced(events, calls[k], f) || (f.outcome == dflt && Open(k, None) in m.stack)
  {
    CloseToFrame(m, 0, dflt, k);
    DrainFrame(m, dflt, k);
    if OpenEntry(m, k) {
      var i :| 0 <= i < |m.stack| && m.stack[i].frame == k;
      assert OpenSourced(events, calls[k], m.ContractAt(i), m.stack[i]);
      assert m.stack[i] in m.stack;
    }
  }

  /**
   Every failure reported was raised by that frame's own contract, in an event
   after its call; or else the frame was still open when the events ended, had
   raised nothing, and takes the terminal error.
   */
  lemma FailuresAreSourced(events: seq<DiagEvent>, terminal: Option<TerminalError>, k: nat)
    requires k < |Reconstruct(events, terminal)|
    ensures var f := Reconstruct(events, terminal)[k];
            f.outcome.Failed? ==>
              || (k < |CallsIn(events)| && FrameSourced(events, CallsIn(events)[k], f))
              || (&& terminal == Some(TerminalError(f.outcome.error, f.outcome.eventIndex))
                  && Open(k, None) in Run(Empty, events).stack)
  {
    var m := Run(Empty, events);
    RunSourced(events);
    RunShaped(Empty, events);
    DrainSources(m, Leftover(terminal), events, CallsIn(events), k);
  }

  // ------------------------------------------------------------- conservation

  function ReturnedIn(frames: seq<CallFrame>): set<nat> {
    set k: nat | k < |frames| && frames[k].outcome == Returned
  }

  /** The return events that found an open frame. */
  function ReturnsTaken(events: seq<DiagEvent>): nat {
    if events == [] then 0
    else
      var n := |events| - 1;
      ReturnsTaken(events[..n])
      + if events[n].kind.FnReturn? && Run(Empty, events[..n]).stack != [] then 1 else 0
  }

  ghost predicate OpenUnknown(m: Machine) {
    m.Sound() && forall i :: 0 <= i < |m.stack| ==> m.frames[m.stack[i].frame].outcome == Unknown
  }

  lemma {:induction false} CloseToReturned(m: Machine, height: nat, dflt: CallOutcome)
    requires Chain(m) && OpenUnknown(m) && dflt != Returned
    ensures ReturnedIn(CloseTo(m, height, dflt).frames) == ReturnedIn(m.frames)
    ensures OpenUnknown(CloseTo(m, height, dflt))
    decreases |m.stack|
  {
    if |m.stack| > height {
      var r := PopFailed(m, dflt);
      assert forall i :: 0 <= i < |r.stack| ==> r.stack[i] == m.stack[i];
      CloseToReturned(r, height, dflt);
    }
  }

  lemma PopReturnedCounts(m: Machine)
    requires Chain(m) && OpenUnknown(m)
    ensures OpenUnknown(PopReturned(m))
    ensures |ReturnedIn(PopReturned(m).frames)| == |ReturnedIn(m.frames)| + if m.stack != [] then 1 else 0
  {
    if m.stack != [] {
      var r := PopReturned(m);
      assert ReturnedIn(r.frames) == ReturnedIn(m.frames) + {m.Top().frame};
      assert forall i :: 0 <= i < |r.stack| ==> r.stack[i] == m.stack[i];
    }
  }

  lemma StepReturned(m: Machine, e: DiagEvent)
    requires m.Sound() && Chain(m) && OpenUnknown(m)
    ensures OpenUnknown(Step(m, e))
    ensures |ReturnedIn(Step(m, e).frames)|
            == |ReturnedIn(m.frames)| + if e.kind.FnReturn? && m.stack != [] then 1 else 0
  {
    hide Chain, CloseTo, PopReturned, HeightFor;
    if e.kind.FnCall? {
      var height := if e.contract.Some? then HeightFor(m, e.contract.value) else 0;
      CloseToReturned(m, height, Unknown);
      assert ReturnedIn(Step(m, e).frames) == ReturnedIn(CloseTo(m, height, Unknown).frames);
    } else if e.kind.FnReturn? {
      PopReturnedCounts(m);
    } else if e.contract.Some? {
      CloseToReturned(m, HeightFor(m, e.contract.value), Unknown);
    }
  }

  lemma {:induction false} RunReturned(events: seq<DiagEvent>)
    ensures OpenUnknown(Run(Empty, events))
    ensures |ReturnedIn(Run(Empty, events).frames)| == ReturnsTaken(events)
    decreases |events|
  {
    if events != [] {
      var n := |events| - 1;
      RunReturned(events[..n]);
      RunShaped(Empty, events[..n]);
      StepReturned(Run(Empty, events[..n]), events[n]);
    } else {
      assert ReturnedIn([]) == {};
    }
  }

  /** As many frames are reported `Returned` as returns found an open frame. */
  lemma ReturnsAreConserved(events: seq<DiagEvent>, terminal: Option<TerminalError>)
    ensures |ReturnedIn(Reconstruct(events, terminal))| == ReturnsTaken(events)
  {
    hide Run, CloseTo, ReturnedIn, ReturnsTaken;
    RunReturned(events);
    RunShaped(Empty, events);
    CloseToReturned(Run(Empty, events), 0, Leftover(terminal));
  }
}
