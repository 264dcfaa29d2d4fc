/**
 An execution that is not readable is misread for good: at the first action that
 breaks a condition some frame can no longer end as it should, and no later event
 mends that.
 */
module Misreadings {
  import opened Common
  import opened Soroban
  import opened Events
  import opened CallTree
  import opened CallShape
  import opened Executions
  import opened Tracking

  /** Every error on the stack was raised by an event numbered below `now`. */
  ghost predicate Past(m: Machine, now: nat) {
    forall i :: 0 <= i < |m.stack| && m.stack[i].lastError.Some? ==> m.stack[i].lastError.value.1 < now
  }

  ghost predicate Fit(m: Machine, now: nat) {
    Shaped(m) && Past(m, now)
  }

  lemma LaterPast(m: Machine, r: Machine, now: nat, later: nat)
    requires Past(m, now) && now <= later && r.stack <= m.stack
    ensures Past(r, later)
  {
  }

  lemma PushPast(m: Machine, index: nat, callee: ContractId, func: string, now: nat)
    requires m.Sound() && Past(m, now)
    ensures Past(Push(m, index, callee, func), now)
  {
  }

  lemma ChargePast(m: Machine, c: ContractId, error: ScError, index: nat)
    requires m.Sound() && Past(m, index)
    ensures Past(Charge(m, c, error, index), index + 1)
  {
  }

  lemma StepPast(m: Machine, e: DiagEvent, now: nat)
    requires m.Sound() && Past(m, now) && now <= e.index
    ensures Past(Step(m, e), e.index + 1)
  {
    hide CloseTo, HeightFor, Past, Push, Charge;
    if e.kind.FnCall? {
      var base := CloseTo(m, if e.contract.Some? then HeightFor(m, e.contract.value) else 0, Unknown);
      LaterPast(m, base, now, e.index + 1);
      PushPast(base, e.index, e.kind.callee, e.kind.func, e.index + 1);
    } else if e.kind.FnReturn? || e.contract.None? {
      LaterPast(m, Step(m, e), now, e.index + 1);
    } else {
      var base := Unwind(m, e.contract.value);
      LaterPast(m, base, now, e.index);
      LaterPast(m, base, now, e.index + 1);
      if e.kind.Error? {
        ChargePast(base, e.contract.value, e.kind.error, e.index);
      }
    }
  }

  lemma StepFit(m: Machine, e: DiagEvent, now: nat)
    requires m.Sound() && Fit(m, now) && now <= e.index
    ensures Fit(Step(m, e), e.index + 1)
  {
    hide Shaped, Past, Step;
    StepShaped(m, e);
    StepPast(m, e, now);
  }

  /** The entry has recorded an error later than the outcome allows. */
  predicate Blamed(o: Open, outcome: CallOutcome) {
    && o.lastError.Some?
    && match outcome
       case Returned => false
       case Unknown => true
       case Failed(_, index) => index < o.lastError.value.1
  }

  ghost predicate BlamedAt(m: Machine, k: nat, outcome: CallOutcome, i: nat) {
    i < |m.stack| && m.stack[i].frame == k && Blamed(m.stack[i], outcome)
  }

  /** Frame `k` cannot end as `want` any more. */
  ghost predicate Doomed(m: Machine, k: nat, want: CallFrame) {
    && m.Sound() && k < |m.frames|
    && (|| m.frames[k].depth != want.depth
        || (Closed(m, k) && m.frames[k].outcome != want.outcome)
        || exists i: nat :: BlamedAt(m, k, want.outcome, i))
  }

  lemma CloseDooms(m: Machine, height: nat, dflt: CallOutcome, k: nat, want: CallFrame)
    requires Chain(m) && Doomed(m, k, want)
    ensures Doomed(CloseTo(m, height, dflt), k, want)
  {
    var r := CloseTo(m, height, dflt);
    CloseToFrame(m, height, dflt, k);
    if m.frames[k].depth == want.depth && exists i: nat :: BlamedAt(m, k, want.outcome, i) {
      var i: nat :| BlamedAt(m, k, want.outcome, i);
      if height <= i {
        CloseToEnds(m, height, dflt, i);
      } else {
        assert BlamedAt(r, k, want.outcome, i);
      }
    }
    hide CloseTo;
  }

  lemma PopDooms(m: Machine, k: nat, want: CallFrame)
    requires Chain(m) && Doomed(m, k, want)
    ensures Doomed(PopReturned(m), k, want)
  {
    var r := PopReturned(m);
    if m.frames[k].depth == want.depth && exists i: nat :: BlamedAt(m, k, want.outcome, i) {
      var i: nat :| BlamedAt(m, k, want.outcome, i);
      if i < |m.stack| - 1 {
        assert BlamedAt(r, k, want.outcome, i);
      } else {
        assert Closed(r, k) && r.frames[k].outcome == Returned;
      }
    }
  }

  lemma ChargeDooms(m: Machine, c: ContractId, error: ScError, index: nat, k: nat, want: CallFrame)
    requires Chain(m) && Past(m, index) && Doomed(m, k, want)
    ensures Doomed(Charge(m, c, error, index), k, want)
  {
    var r := Charge(m, c, error, index);
    if m.frames[k].depth == want.depth && exists i: nat :: BlamedAt(m, k, want.outcome, i) {
      var i: nat :| BlamedAt(m, k, want.outcome, i);
      assert BlamedAt(r, k, want.outcome, i);
    }
  }

  lemma PushDooms(m: Machine, index: nat, callee: ContractId, func: string, k: nat, want: CallFrame)
    requires Doomed(m, k, want)
    ensures Doomed(Push(m, index, callee, func), k, want)
  {
    var r := Push(m, index, callee, func);
    if m.frames[k].depth == want.depth && exists i: nat :: BlamedAt(m, k, want.outcome, i) {
      var i: nat :| BlamedAt(m, k, want.outcome, i);
      assert BlamedAt(r, k, want.outcome, i);
    }
  }

  lemma StepDooms(m: Machine, e: DiagEvent, k: nat, want: CallFrame, now: nat)
    requires Fit(m, now) && now <= e.index && Doomed(m, k, want)
    ensures Doomed(Step(m, e), k, want)
  {
    assert Chain(m);
    hide Shaped, Doomed, CloseTo, HeightFor, Push, PopReturned, Charge, Chain;
    if e.kind.FnCall? {
      var height := if e.contract.Some? then HeightFor(m, e.contract.value) else 0;
      CloseDooms(m, height, Unknown, k, want);
      PushDooms(CloseTo(m, height, Unknown), e.index, e.kind.callee, e.kind.func, k, want);
    } else if e.kind.FnReturn? {
      PopDooms(m, k, want);
    } else if e.contract.Some? {
      var height := HeightFor(m, e.contract.value);
      CloseDooms(m, height, Unknown, k, want);
      if e.kind.Error? {
        CloseToChain(m, height, Unknown);
        ChargeDooms(Unwind(m, e.contract.value), e.contract.value, e.kind.error, e.index, k, want);
      }
    }
  }

  lemma {:induction false} AfterFit(m: Machine, notes: seq<Note>, at: nat)
    requires m.Sound() && Fit(m, at)
    ensures Fit(After(m, notes, at), at + |notes|)
    decreases |notes|
  {
    hide Fit, After, Step;
    if notes == [] {
      NothingTracks(m, at, Unknown);
    } else {
      var n := |notes| - 1;
      AfterFit(m, notes[..n], at);
      AfterLast(m, notes, at);
      StepFit(After(m, notes[..n], at), Numbered(notes[n], at + n), at + n);
    }
  }

  lemma AfterLast(m: Machine, notes: seq<Note>, at: nat)
    requires m.Sound() && notes != []
    ensures var n := |notes| - 1; After(m, notes, at) == Step(After(m, notes[..n], at), Numbered(notes[n], at + n))
  {
    hide After, Step;
    var n := |notes| - 1;
    assert notes == notes[..n] + [notes[n]];
    AfterConcat(m, notes[..n], [notes[n]], at);
    AfterOne(After(m, notes[..n], at), notes[n], at + n);
  }

  lemma {:induction false} AfterDooms(m: Machine, notes: seq<Note>, at: nat, k: nat, want: CallFrame)
    requires m.Sound() && Fit(m, at) && Doomed(m, k, want)
    ensures Doomed(After(m, notes, at), k, want)
    decreases |notes|
  {
    hide Fit, After, Step, Doomed;
    if notes == [] {
      NothingTracks(m, at, Unknown);
    } else {
      var n := |notes| - 1;
      AfterDooms(m, notes[..n], at, k, want);
      AfterFit(m, notes[..n], at);
      AfterLast(m, notes, at);
      StepDooms(After(m, notes[..n], at), Numbered(notes[n], at + n), k, want, at + n);
    }
  }

  /** Some frame of the calls `expected`, numbered from `|start.frames|` on, cannot end as expected. */
  ghost predicate Misread(start: Machine, m: Machine, expected: seq<CallFrame>, k: nat) {
    |start.frames| <= k < |start.frames| + |expected| && Doomed(m, k, expected[k - |start.frames|])
  }

  ghost predicate Misreads(start: Machine, m: Machine, expected: seq<CallFrame>) {
    exists k: nat :: Misread(start, m, expected, k)
  }

  lemma MisreadStays(start: Machine, m: Machine, notes: seq<Note>, at: nat, expected: seq<CallFrame>,
                     more: seq<CallFrame>)
    requires m.Sound() && Fit(m, at) && Misreads(start, m, expected)
    ensures Misreads(start, After(m, notes, at), expected + more)
  {
    hide Doomed, Fit, After;
    var k: nat :| Misread(start, m, expected, k);
    AfterDooms(m, notes, at, k, expected[k - |start.frames|]);
    assert Misread(start, After(m, notes, at), expected + more, k);
  }

  lemma MisreadReturns(start: Machine, m: Machine, expected: seq<CallFrame>)
    requires m.Sound() && Chain(m) && Misreads(start, m, expected)
    ensures Misreads(start, PopReturned(m), expected)
  {
    hide Doomed, PopReturned, Chain;
    var k: nat :| Misread(start, m, expected, k);
    PopDooms(m, k, expected[k - |start.frames|]);
    assert Misread(start, PopReturned(m), expected, k);
  }

  lemma MisreadOutward(start: Machine, raised: Option<(ScError, nat)>, calls: seq<CallFrame>, index: nat, call: Call,
                       m: Machine, inner: seq<CallFrame>, frame: CallFrame)
    requires start.Sound()
    requires Misreads(Entered(start, raised, calls, index, call), m, inner)
    ensures Misreads(start, m, calls + ([frame] + inner))
  {
    hide Doomed;
    var k: nat :| Misread(Entered(start, raised, calls, index, call), m, inner, k);
    assert Misread(start, m, calls + ([frame] + inner), k);
  }

  // ------------------------------------------------------- the three misreadings

  /** What the calls say of the `i`-th loose frame. */
  lemma LooseExpected(start: Machine, m: Machine, raised: Option<(ScError, nat)>, loose: seq<Loose>,
                      calls: seq<CallFrame>, leftover: CallOutcome, i: nat)
    requires Tracks(start, m, raised, loose, calls, leftover) && Chain(m) && i < |loose|
    ensures var o := m.stack[|start.stack| + i];
            && |start.frames| <= o.frame < |start.frames| + |calls|
            && calls[o.frame - |start.frames|].outcome == OutcomeOf(o.lastError, EndOf(loose[i], leftover))
  {
    var o := m.stack[|start.stack| + i];
    assert LooseAt(m, |start.stack| + i, |start.frames|, loose[i]);
    CloseLooseFrame(m, |start.stack|, loose, leftover, i);
    hide CloseLoose, Chain;
    assert (start.frames + calls)[o.frame] == calls[o.frame - |start.frames|];
  }

  /** A return pops a loose frame, and reports a failed call as returned. */
  lemma WrongPopMisreads(start: Machine, m: Machine, own: Option<(ScError, nat)>, loose: seq<Loose>,
                         inner: seq<CallFrame>)
    requires Chain(m) && loose != []
    requires Tracks(start, m, own, loose, inner, Unknown)
    ensures Misreads(start, PopReturned(m), inner)
  {
    LooseExpected(start, m, own, loose, inner, Unknown, |loose| - 1);
    hide CloseLoose, LooseOn;
    assert Misread(start, PopReturned(m), inner, m.Top().frame);
  }

  /** An error charged to an open frame that was to end without it. */
  lemma ChargeBlames(m: Machine, h: nat, c: ContractId, error: ScError, index: nat, want: CallFrame)
    requires m.Sound() && Past(m, index) && 0 < h <= |m.stack| && m.ContractAt(h - 1) == c
    requires want.outcome == OutcomeOf(m.stack[h - 1].lastError, Unknown)
    ensures Doomed(Charge(CloseTo(m, h, Unknown), c, error, index), m.stack[h - 1].frame, want)
  {
    var o, r := m.stack[h - 1], CloseTo(m, h, Unknown);
    CloseToFrame(m, h, Unknown, o.frame);
    hide CloseTo;
    assert r.stack[h - 1] == o && r.ContractAt(h - 1) == c;
    assert BlamedAt(Charge(r, c, error, index), o.frame, want.outcome, h - 1);
  }

  /** An error is charged to a loose frame of the emitter's contract. */
  lemma WrongBlameMisreads(start: Machine, m: Machine, owner: ContractId, raised: Option<(ScError, nat)>,
                           loose: seq<Loose>, calls: seq<CallFrame>, error: ScError, index: nat)
    requires Owns(start, Some(owner)) && m.Sound() && Fit(m, index) && Has(loose, owner)
    requires Tracks(start, m, raised, loose, calls, Unknown)
    ensures Misreads(start, Charge(Unwind(m, owner), owner, error, index), calls)
  {
    hide *;
    var h := |start.stack| + |Unwound(loose, owner)|;
    FitChain(m, index);
    OwnerHeight(start, m, owner, raised, loose, calls, Unknown);
    UnwindIs(m, owner, h);
    OwnLoose(start, m, raised, loose, calls, owner, h);
    var k := m.stack[h - 1].frame;
    var want, r := calls[k - |start.frames|], Charge(CloseTo(m, h, Unknown), owner, error, index);
    ChargeBlames(m, h, owner, error, index, want);
    OneMisread(start, r, calls, k);
  }

  lemma UnwindIs(m: Machine, c: ContractId, h: nat)
    requires m.Sound() && HeightFor(m, c) == h
    ensures Unwind(m, c) == CloseTo(m, h, Unknown)
  {
  }

  lemma OneMisread(start: Machine, m: Machine, calls: seq<CallFrame>, k: nat)
    requires |start.frames| <= k < |start.frames| + |calls| && Doomed(m, k, calls[k - |start.frames|])
    ensures Misreads(start, m, calls)
  {
    hide Doomed;
    assert Misread(start, m, calls, k);
  }

  /** The topmost loose frame of a contract, and what the calls say of it. */
  lemma OwnLoose(start: Machine, m: Machine, raised: Option<(ScError, nat)>, loose: seq<Loose>,
                 calls: seq<CallFrame>, c: ContractId, h: nat)
    requires Tracks(start, m, raised, loose, calls, Unknown) && Chain(m)
    requires Has(loose, c) && h == |start.stack| + |Unwound(loose, c)|
    ensures 0 < h <= |m.stack| && m.ContractAt(h - 1) == c
    ensures var o := m.stack[h - 1];
            && |start.frames| <= o.frame < |start.frames| + |calls|
            && calls[o.frame - |start.frames|].outcome == OutcomeOf(o.lastError, Unknown)
  {
    var n, u := |start.stack|, |Unwound(loose, c)|;
    LooseExpected(start, m, raised, loose, calls, Unknown, u - 1);
    assert LooseAt(m, n + (u - 1), |start.frames|, loose[u - 1]);
    hide CloseLoose, Chain, Unwound, Has, LooseOn;
  }

  /** A call is put under a loose frame of the caller's contract, too deep. */
  lemma WrongParentMisreads(start: Machine, m: Machine, owner: ContractId, raised: Option<(ScError, nat)>,
                            loose: seq<Loose>, calls: seq<CallFrame>, index: nat, call: Call, mine: seq<CallFrame>)
    requires Owns(start, Some(owner)) && Has(loose, owner)
    requires Tracks(start, m, raised, loose, calls, Unknown)
    requires mine != [] && mine[0].depth == |start.stack|
    ensures Misreads(start, Push(Unwind(m, owner), index, call.contract, call.func), calls + mine)
  {
    OwnerHeight(start, m, owner, raised, loose, calls, Unknown);
    var r := Push(Unwind(m, owner), index, call.contract, call.func);
    hide CloseTo, HeightFor, Unwound, LooseOn;
    var k := |start.frames + calls|;
    assert Misread(start, r, calls + mine, k);
  }

  /** A body that is not readable is misread, and nothing that follows mends it. */
  lemma {:induction false} Spoils(start: Machine, owner: Option<ContractId>, body: seq<Act>, at: nat,
                                  leftover: CallOutcome)
    requires start.Sound() && Owns(start, owner) && Fit(start, at)
    requires WellFormed(body) && !Readable(owner, body)
    ensures Misreads(start, After(start, BodyTrace(owner, body), at),
                     BodyFrames(owner, body, |start.stack|, at, leftover))
    decreases body, 0
  {
    hide Tracks, Misreads, Fit, Owns, After, Entered, CallTrace, CallFrames, Has;
    var init, last := body[..|body| - 1], body[|body| - 1];
    var here := at + |BodyTrace(owner, init)|;
    var mid := After(start, BodyTrace(owner, init), at);
    AfterConcat(start, BodyTrace(owner, init), ActTrace(owner, last), at);
    AfterFit(start, BodyTrace(owner, init), at);
    if Readable(owner, init) {
      BodyTracks(start, owner, init, at, Unknown);
      var raised, loose := LastRaise(owner, init, at), Dangling(owner, init);
      var calls := BodyFrames(owner, init, |start.stack|, at, Unknown);
      if owner.Some? && Marks(last) && Has(loose, owner.value) {
        SpoilsMark(start, mid, owner.value, last, raised, loose, calls, here, leftover);
      } else {
        SpoilsCall(start, mid, owner, last, raised, loose, calls, here, leftover);
      }
    } else {
      var lo := if Speaks(owner, last) then Unknown else leftover;
      Spoils(start, owner, init, at, lo);
      MisreadStays(start, mid, ActTrace(owner, last), here,
                   BodyFrames(owner, init, |start.stack|, at, lo), ActFrames(last, |start.stack|, here, leftover));
    }
  }

  /** An error or a call that finds a loose frame of its own emitter's contract. */
  lemma SpoilsMark(start: Machine, mid: Machine, owner: ContractId, act: Act, raised: Option<(ScError, nat)>,
                   loose: seq<Loose>, calls: seq<CallFrame>, here: nat, leftover: CallOutcome)
    requires start.Sound() && mid.Sound() && Owns(start, Some(owner)) && Fit(mid, here)
    requires Tracks(start, mid, raised, loose, calls, Unknown) && Marks(act) && Has(loose, owner)
    ensures Misreads(start, After(mid, ActTrace(Some(owner), act), here),
                     calls + ActFrames(act, |start.stack|, here, leftover))
  {
    hide Tracks, Misreads, Fit, Owns, After, Has, Unwind, Charge, Push, BodyTrace, BodyFrames, CallTrace;
    match act
    case Invoke(call) =>
      var note, mine := CallNote(Some(owner), call), CallFrames(call, |start.stack|, here, leftover);
      var entered := Step(mid, Numbered(note, here));
      CallRuns(mid, Some(owner), call, here);
      StepFit(mid, Numbered(note, here), here);
      WrongParentMisreads(start, mid, owner, raised, loose, calls, here, call, mine);
      var inside := BodyTrace(Some(call.contract), call.body);
      MisreadStays(start, entered, inside, here + 1, calls + mine, []);
      assert calls + mine + [] == calls + mine;
      if call.returns_ {
        AfterFit(entered, inside, here + 1);
        FitChain(After(entered, inside, here + 1), here + 1 + |inside|);
        MisreadReturns(start, After(entered, inside, here + 1), calls + mine);
      }
    case Emit(kind) =>
      AfterOne(mid, Note(Some(owner), kind), here);
      WrongBlameMisreads(start, mid, owner, raised, loose, calls, kind.error, here);
      assert calls + [] == calls;
  }

  lemma FitChain(m: Machine, now: nat)
    requires Fit(m, now)
    ensures Chain(m) && Past(m, now)
  {
  }

  /** A call whose own body is not readable, or that returns too early. */
  lemma {:induction false} SpoilsCall(start: Machine, mid: Machine, owner: Option<ContractId>, act: Act,
                                      raised: Option<(ScError, nat)>, loose: seq<Loose>, calls: seq<CallFrame>,
                                      here: nat, leftover: CallOutcome)
    requires start.Sound() && mid.Sound() && Owns(start, owner) && Fit(mid, here)
    requires Tracks(start, mid, raised, loose, calls, Unknown)
    requires ActWellFormed(act) && !ActReadable(act) && (owner.Some? ==> !Has(loose, owner.value))
    ensures Misreads(start, After(mid, ActTrace(owner, act), here),
                     calls + ActFrames(act, |start.stack|, here, leftover))
    decreases act, 1
  {
    hide Tracks, Misreads, Fit, Entered, After, PopReturned, Step, Has, CallTrace;
    var call, inside := act.call, Some(act.call.contract);
    var entered := Entered(start, raised, calls, here, call);
    var trace := BodyTrace(inside, call.body);
    var lo := if call.returns_ then Unknown else leftover;
    var inner := BodyFrames(inside, call.body, |start.stack| + 1, here + 1, lo);
    var left := After(entered, trace, here + 1);
    Enters(start, mid, owner, raised, loose, calls, here, call);
    CallRuns(mid, owner, call, here);
    StepFit(mid, Numbered(CallNote(owner, call), here), here);
    AfterFit(entered, trace, here + 1);
    FitChain(left, here + 1 + |trace|);
    if Readable(inside, call.body) {
      BodyTracks(entered, inside, call.body, here + 1, Unknown);
      WrongPopMisreads(entered, left, LastRaise(inside, call.body, here + 1), Dangling(inside, call.body), inner);
    } else {
      Spoils(entered, inside, call.body, here + 1, lo);
      if call.returns_ {
        MisreadReturns(entered, left, inner);
      }
    }
    MisreadOutward(start, raised, calls, here, call, if call.returns_ then PopReturned(left) else left, inner,
                   CallFrames(call, |start.stack|, here, leftover)[0]);
  }
}
