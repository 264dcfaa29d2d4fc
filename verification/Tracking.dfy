/**
 An execution that is readable so far is tracked: the machine holds the frames
 of its calls, with the loose ones still open on the stack.
 */
module Tracking {
  import opened Common
  import opened Soroban
  import opened Events
  import opened CallTree
  import opened CallShape
  import opened Executions

  /** The stack once its top has recorded `raised`, if anything. */
  function Recorded(stack: seq<Open>, raised: Option<(ScError, nat)>): seq<Open> {
    if stack == [] || raised.None? then stack
    else stack[|stack| - 1 := stack[|stack| - 1].(lastError := raised)]
  }

  /** The frame `owner` is on top of the stack, which is empty for the transaction. */
  predicate Owns(m: Machine, owner: Option<ContractId>) {
    && m.Sound()
    && match owner
       case None => m.stack == []
       case Some(c) => m.stack != [] && m.ContractAt(|m.stack| - 1) == c
  }

  function Numbered(n: Note, index: nat): DiagEvent {
    DiagEvent(index, n.contract, n.kind, VoidVal)
  }

  function NumberedFrom(notes: seq<Note>, at: nat): seq<DiagEvent> {
    seq(|notes|, (i: nat) requires i < |notes| => Numbered(notes[i], at + i))
  }

  function After(m: Machine, notes: seq<Note>, at: nat): (r: Machine)
    requires m.Sound()
    ensures r.Sound()
  {
    Run(m, NumberedFrom(notes, at))
  }

  lemma AfterConcat(m: Machine, a: seq<Note>, b: seq<Note>, at: nat)
    requires m.Sound()
    ensures After(m, a + b, at) == After(After(m, a, at), b, at + |a|)
  {
    assert NumberedFrom(a + b, at) == NumberedFrom(a, at) + NumberedFrom(b, at + |a|);
    RunConcat(m, NumberedFrom(a, at), NumberedFrom(b, at + |a|));
  }

  lemma AfterOne(m: Machine, n: Note, at: nat)
    requires m.Sound()
    ensures After(m, [n], at) == Step(m, Numbered(n, at))
  {
    var events := NumberedFrom([n], at);
    assert events[..0] == [];
    assert Run(m, events[..0]) == m;
  }

  /** How a loose frame ends that raised nothing. */
  function EndOf(l: Loose, leftover: CallOutcome): CallOutcome {
    if l.spent then Unknown else leftover
  }

  /** Ends the loose frames on top, each in its own way. */
  function CloseLoose(m: Machine, loose: seq<Loose>, leftover: CallOutcome): (r: Machine)
    requires m.Sound() && |loose| <= |m.stack|
    ensures r.Sound() && |r.frames| == |m.frames| && r.stack == m.stack[..|m.stack| - |loose|]
    decreases |loose|
  {
    if loose == [] then m
    else CloseLoose(PopFailed(m, EndOf(loose[|loose| - 1], leftover)), loose[..|loose| - 1], leftover)
  }

  lemma CloseLooseUnfolds(m: Machine, loose: seq<Loose>, leftover: CallOutcome)
    requires m.Sound() && 0 < |loose| <= |m.stack|
    ensures CloseLoose(m, loose, leftover)
            == CloseLoose(PopFailed(m, EndOf(loose[|loose| - 1], leftover)), loose[..|loose| - 1], leftover)
  {
  }

  /** The entry ends the same way with `dflt`. */
  predicate EndsLike(o: Open, l: Loose, leftover: CallOutcome, dflt: CallOutcome) {
    EndOf(l, leftover) == dflt || o.lastError.Some?
  }

  lemma PopsAlike(m: Machine, l: Loose, leftover: CallOutcome, dflt: CallOutcome)
    requires m.Sound() && m.stack != [] && EndsLike(m.Top(), l, leftover, dflt)
    ensures PopFailed(m, EndOf(l, leftover)) == PopFailed(m, dflt)
    ensures PopFailed(m, dflt).stack == m.stack[..|m.stack| - 1]
  {
  }

  /** Where every frame ends the same way, this is the machine's own unwinding. */
  lemma {:induction false} LooseCloseTo(m: Machine, low: nat, loose: seq<Loose>, leftover: CallOutcome,
                                        dflt: CallOutcome)
    requires m.Sound() && |m.stack| == low + |loose|
    requires forall i :: 0 <= i < |loose| ==> EndsLike(m.stack[low + i], loose[i], leftover, dflt)
    ensures CloseLoose(m, loose, leftover) == CloseTo(m, low, dflt)
    decreases |loose|
  {
    CloseToUnfolds(m, low, dflt);
    if loose != [] {
      CloseLooseUnfolds(m, loose, leftover);
      PopsAlike(m, loose[|loose| - 1], leftover, dflt);
      hide CloseTo, CloseLoose, PopFailed, EndsLike, EndOf;
      LooseCloseTo(PopFailed(m, dflt), low, loose[..|loose| - 1], leftover, dflt);
    }
  }

  lemma {:induction false} CloseLooseConcat(m: Machine, a: seq<Loose>, b: seq<Loose>, leftover: CallOutcome)
    requires m.Sound() && |a + b| <= |m.stack|
    ensures CloseLoose(m, a + b, leftover) == CloseLoose(CloseLoose(m, b, leftover), a, leftover)
    decreases |b|
  {
    if b == [] {
      assert a + b == a;
    } else {
      var n := |b| - 1;
      assert (a + b)[..|a + b| - 1] == a + b[..n];
      CloseLooseConcat(PopFailed(m, EndOf(b[n], leftover)), a, b[..n], leftover);
    }
  }

  lemma {:induction false} CloseLooseKeeps(m: Machine, low: nat, loose: seq<Loose>, leftover: CallOutcome, k: nat)
    requires m.Sound() && |m.stack| == low + |loose| && k < |m.frames|
    requires forall i :: low <= i < |m.stack| ==> m.stack[i].frame != k
    ensures CloseLoose(m, loose, leftover).frames[k] == m.frames[k]
    decreases |loose|
  {
    if loose != [] {
      var n := |loose| - 1;
      CloseLooseKeeps(PopFailed(m, EndOf(loose[n], leftover)), low, loose[..n], leftover, k);
    }
  }

  /** The outcome each loose frame ends with. */
  lemma {:induction false} CloseLooseFrame(m: Machine, low: nat, loose: seq<Loose>, leftover: CallOutcome, i: nat)
    requires Chain(m) && |m.stack| == low + |loose| && i < |loose|
    ensures var o := m.stack[low + i];
            CloseLoose(m, loose, leftover).frames[o.frame].outcome == OutcomeOf(o.lastError, EndOf(loose[i], leftover))
    decreases |loose|
  {
    var n := |loose| - 1;
    var r := PopFailed(m, EndOf(loose[n], leftover));
    CloseLooseUnfolds(m, loose, leftover);
    PopKeepsChain(m, EndOf(loose[n], leftover));
    hide CloseLoose;
    if i < n {
      hide Chain, PopFailed, EndOf;
      CloseLooseFrame(r, low, loose[..n], leftover, i);
    } else {
      CloseLooseKeeps(r, low, loose[..n], leftover, m.Top().frame);
    }
  }

  lemma PopKeepsChain(m: Machine, dflt: CallOutcome)
    requires Chain(m) && m.stack != []
    ensures Chain(PopFailed(m, dflt)) && PopFailed(m, dflt).stack == m.stack[..|m.stack| - 1]
  {
  }

  /** Entry `j` of the stack is this loose frame, and not one of the first `older`. */
  ghost predicate LooseAt(m: Machine, j: nat, older: nat, l: Loose) {
    && m.Sound() && j < |m.stack|
    && older <= m.stack[j].frame && m.ContractAt(j) == l.contract && (m.stack[j].lastError.None? <==> l.silent)
  }

  /** The stack above `low` is the loose frames. */
  ghost predicate LooseOn(m: Machine, low: nat, older: nat, loose: seq<Loose>) {
    && m.Sound() && |m.stack| == low + |loose|
    && forall i :: 0 <= i < |loose| ==> LooseAt(m, low + i, older, loose[i])
  }

  /**
   The machine `m` that started as `start`, seen from the frame on top of
   `start`: that frame has raised `raised`, the frames above it are `loose`, and
   ending those leaves the new `calls`.
   */
  ghost predicate Tracks(start: Machine, m: Machine, raised: Option<(ScError, nat)>, loose: seq<Loose>,
                         calls: seq<CallFrame>, leftover: CallOutcome)
  {
    && start.Sound() && m.Sound()
    && start.frames <= m.frames
    && Recorded(start.stack, raised) <= m.stack
    && LooseOn(m, |start.stack|, |start.frames|, loose)
    && CloseLoose(m, loose, leftover).frames == start.frames + calls
  }

  /** The machine once everything above the top of `start` has ended. */
  function Settled(start: Machine, raised: Option<(ScError, nat)>, calls: seq<CallFrame>): (r: Machine)
    requires start.Sound()
    ensures r.Sound()
    ensures forall owner :: Owns(start, owner) ==> Owns(r, owner)
  {
    Machine(start.frames + calls, Recorded(start.stack, raised))
  }

  lemma SettledTracks(start: Machine, raised: Option<(ScError, nat)>, calls: seq<CallFrame>, leftover: CallOutcome)
    requires start.Sound()
    ensures Tracks(start, Settled(start, raised, calls), raised, [], calls, leftover)
  {
  }

  lemma TracksCloseTo(start: Machine, m: Machine, raised: Option<(ScError, nat)>, loose: seq<Loose>,
                      calls: seq<CallFrame>)
    requires Tracks(start, m, raised, loose, calls, Unknown)
    ensures CloseTo(m, |start.stack|, Unknown) == Settled(start, raised, calls)
  {
    LooseCloseTo(m, |start.stack|, loose, Unknown, Unknown);
    hide CloseTo, CloseLoose;
  }

  lemma OwnerIsBelow(start: Machine, m: Machine, owner: ContractId, raised: Option<(ScError, nat)>,
                     loose: seq<Loose>, calls: seq<CallFrame>, leftover: CallOutcome)
    requires Owns(start, Some(owner)) && Tracks(start, m, raised, loose, calls, leftover)
    ensures var n := |start.stack|;
            && 0 < n <= |m.stack| && m.ContractAt(n - 1) == owner && LooseOn(m, n, |start.frames|, loose)
  {
    hide CloseLoose, LooseOn;
    var n := |start.stack|;
    assert |m.stack| >= n && m.stack[n - 1] == Recorded(start.stack, raised)[n - 1];
    assert m.frames[start.stack[n - 1].frame] == start.frames[start.stack[n - 1].frame];
    hide Tracks;
  }

  /** An event of the owner's unwinds to its topmost loose frame, or to the owner. */
  lemma OwnerHeight(start: Machine, m: Machine, owner: ContractId, raised: Option<(ScError, nat)>,
                    loose: seq<Loose>, calls: seq<CallFrame>, leftover: CallOutcome)
    requires Owns(start, Some(owner)) && Tracks(start, m, raised, loose, calls, leftover)
    ensures m.OnStack(owner) && HeightFor(m, owner) == |start.stack| + |Unwound(loose, owner)|
  {
    OwnerIsBelow(start, m, owner, raised, loose, calls, leftover);
    hide Tracks, Owns, CloseLoose;
    var n, kept := |start.stack|, Unwound(loose, owner);
    hide Unwound, Has;
    forall i | n + |kept| <= i < |m.stack|
      ensures m.ContractAt(i) != owner
    {
      assert LooseAt(m, n + (i - n), |start.frames|, loose[i - n]);
    }
    assert m.ContractAt(n + |kept| - 1) == owner;
    HeightIsTopmost(m, owner, n + |kept|);
  }

  lemma HeightIsTopmost(m: Machine, c: ContractId, h: nat)
    requires m.Sound() && 0 < h <= |m.stack| && m.ContractAt(h - 1) == c
    requires forall i :: h <= i < |m.stack| ==> m.ContractAt(i) != c
    ensures m.OnStack(c) && HeightFor(m, c) == h
  {
    hide HeightBelow;
    assert m.OnStack(c);
    hide HeightFor;
    var g := HeightFor(m, c);
  }

  /** An event of the owner's unwinds exactly what is loose, if none of it is of the owner's contract. */
  lemma UnwindsToOwner(start: Machine, m: Machine, owner: ContractId, raised: Option<(ScError, nat)>,
                       loose: seq<Loose>, calls: seq<CallFrame>)
    requires Owns(start, Some(owner))
    requires Tracks(start, m, raised, loose, calls, Unknown)
    requires !Has(loose, owner)
    ensures Unwind(m, owner) == Settled(start, raised, calls)
  {
    OwnerHeight(start, m, owner, raised, loose, calls, Unknown);
    TracksCloseTo(start, m, raised, loose, calls);
    hide CloseTo, Tracks, HeightFor;
  }

  lemma SpentCloses(m: Machine, low: nat, kept: seq<Loose>, leftover: CallOutcome)
    requires m.Sound() && |m.stack| == low + |kept|
    ensures CloseLoose(m, Spent(kept), leftover) == CloseTo(m, low, Unknown)
  {
    LooseCloseTo(m, low, Spent(kept), leftover, Unknown);
  }

  lemma PartUnwound(start: Machine, m: Machine, r: Machine, owner: ContractId, raised: Option<(ScError, nat)>,
                    loose: seq<Loose>, calls: seq<CallFrame>)
    requires Owns(start, Some(owner)) && Tracks(start, m, raised, loose, calls, Unknown) && Has(loose, owner)
    requires r == Unwind(m, owner)
    ensures r.Sound() && start.frames <= r.frames && Recorded(start.stack, raised) <= r.stack
    ensures LooseOn(r, |start.stack|, |start.frames|, Spent(Unwound(loose, owner)))
    ensures CloseTo(r, |start.stack|, Unknown) == Settled(start, raised, calls)
  {
    var n, kept := |start.stack|, Unwound(loose, owner);
    var h := n + |kept|;
    OwnerHeight(start, m, owner, raised, loose, calls, Unknown);
    TracksCloseTo(start, m, raised, loose, calls);
    CloseToTwice(m, h, n, Unknown);
    hide CloseTo, CloseLoose, HeightFor, Unwound, LooseOn, Has, Spent;
    assert r == CloseTo(m, h, Unknown) && kept == loose[..h - n];
    KeptLoose(m, n, start.frames, loose, h);
  }

  /** Otherwise it stops short, and what stays loose is spent. */
  lemma UnwindsPart(start: Machine, m: Machine, owner: ContractId, raised: Option<(ScError, nat)>,
                    loose: seq<Loose>, calls: seq<CallFrame>, leftover: CallOutcome)
    requires Owns(start, Some(owner)) && Tracks(start, m, raised, loose, calls, Unknown) && Has(loose, owner)
    ensures Tracks(start, Unwind(m, owner), raised, Spent(Unwound(loose, owner)), calls, leftover)
  {
    var r, kept := Unwind(m, owner), Unwound(loose, owner);
    PartUnwound(start, m, r, owner, raised, loose, calls);
    hide CloseTo, CloseLoose, Unwind, Unwound, LooseAt, Has, Spent;
    SpentCloses(r, |start.stack|, kept, leftover);
  }

  /** Ending the topmost loose frames leaves older frames and the other loose ones as they were, spent. */
  lemma KeptLoose(m: Machine, low: nat, older: seq<CallFrame>, loose: seq<Loose>, h: nat)
    requires LooseOn(m, low, |older|, loose) && low <= h <= |m.stack| && older <= m.frames
    ensures var r := CloseTo(m, h, Unknown);
            older <= r.frames && LooseOn(r, low, |older|, Spent(loose[..h - low]))
  {
    var r := CloseTo(m, h, Unknown);
    forall k | 0 <= k < |m.frames|
      ensures r.frames[k].contract == m.frames[k].contract
      ensures k < |older| ==> r.frames[k] == m.frames[k]
    {
      if k < |older| {
        AboveOlder(m, low, |older|, loose, h, k);
      }
      CloseToFrame(m, h, Unknown, k);
    }
    hide CloseTo;
    var kept := Spent(loose[..h - low]);
    forall i | 0 <= i < |kept|
      ensures LooseAt(r, low + i, |older|, kept[i])
    {
      assert LooseAt(m, low + i, |older|, loose[i]);
    }
  }

  lemma AboveOlder(m: Machine, low: nat, first: nat, loose: seq<Loose>, h: nat, k: nat)
    requires LooseOn(m, low, first, loose) && low <= h && k < first
    ensures forall i :: h <= i < |m.stack| ==> m.stack[i].frame != k
  {
    forall i | h <= i < |m.stack|
      ensures m.stack[i].frame != k
    {
      assert LooseAt(m, low + (i - low), first, loose[i - low]);
    }
  }

  /** An event of the owner's that is neither a call nor a return. */
  lemma EmitTracks(start: Machine, m: Machine, owner: ContractId, raised: Option<(ScError, nat)>,
                   loose: seq<Loose>, calls: seq<CallFrame>, kind: EventKind, index: nat, leftover: CallOutcome)
    requires Owns(start, Some(owner)) && Plain(kind)
    requires Tracks(start, m, raised, loose, calls, Unknown)
    requires kind.Error? ==> !Has(loose, owner)
    ensures Tracks(start, Step(m, Numbered(Note(Some(owner), kind), index)),
                   if kind.Error? then Some((kind.error, index)) else raised,
                   Spent(Unwound(loose, owner)), calls, leftover)
  {
    var r := Step(m, Numbered(Note(Some(owner), kind), index));
    if Has(loose, owner) {
      UnwindsPart(start, m, owner, raised, loose, calls, leftover);
      assert r == Unwind(m, owner);
    } else {
      UnwindsToOwner(start, m, owner, raised, loose, calls);
      hide Tracks, Unwind;
      assert Owns(Settled(start, raised, calls), Some(owner));
      var raised' := if kind.Error? then Some((kind.error, index)) else raised;
      assert r == Settled(start, raised', calls);
      SettledTracks(start, raised', calls, leftover);
      assert Spent(Unwound(loose, owner)) == [];
    }
  }

  /** What the machine looks like as a call is entered. */
  function Entered(start: Machine, raised: Option<(ScError, nat)>, calls: seq<CallFrame>, index: nat, call: Call)
    : (r: Machine)
    requires start.Sound()
    ensures Owns(r, Some(call.contract)) && |r.stack| == |start.stack| + 1
  {
    Push(Settled(start, raised, calls), index, call.contract, call.func)
  }

  lemma Enters(start: Machine, m: Machine, owner: Option<ContractId>, raised: Option<(ScError, nat)>,
               loose: seq<Loose>, calls: seq<CallFrame>, index: nat, call: Call)
    requires Owns(start, owner)
    requires Tracks(start, m, raised, loose, calls, Unknown)
    requires owner.Some? ==> !Has(loose, owner.value)
    ensures Step(m, Numbered(CallNote(owner, call), index)) == Entered(start, raised, calls, index, call)
  {
    if owner.Some? {
      UnwindsToOwner(start, m, owner.value, raised, loose, calls);
    } else {
      TracksCloseTo(start, m, raised, loose, calls);
    }
    hide Tracks, CloseTo, Unwind;
  }

  /** The state in which a call's body ends, seen from the frame that made it. */
  lemma Leaving(start: Machine, m: Machine, raised: Option<(ScError, nat)>, calls: seq<CallFrame>, index: nat,
                call: Call, own: Option<(ScError, nat)>, loose: seq<Loose>, inner: seq<CallFrame>,
                leftover: CallOutcome)
    requires start.Sound()
    requires Tracks(Entered(start, raised, calls, index, call), m, own, loose, inner, leftover)
    ensures var n, k := |start.stack|, |start.frames + calls|;
            && |m.stack| > n && |m.frames| > k
            && Recorded(start.stack, raised) <= m.stack
            && m.stack[n] == Open(k, own)
            && m.frames[k].contract == call.contract
            && start.frames <= m.frames
  {
    hide CloseLoose, LooseOn;
    var n, k := |start.stack|, |start.frames + calls|;
    var entered := Entered(start, raised, calls, index, call);
    assert Recorded(entered.stack, own)[n] == Open(k, own);
    assert m.frames[k] == entered.frames[k];
    assert Recorded(start.stack, raised) <= entered.stack;
  }

  lemma NothingLoose(start: Machine, m: Machine, raised: Option<(ScError, nat)>, calls: seq<CallFrame>)
    requires Tracks(start, m, raised, [], calls, Unknown)
    ensures m == Settled(start, raised, calls)
  {
  }

  lemma ReturnSettles(start: Machine, m: Machine, raised: Option<(ScError, nat)>, calls: seq<CallFrame>, index: nat,
                      call: Call, own: Option<(ScError, nat)>, inner: seq<CallFrame>)
    requires start.Sound()
    requires Tracks(Entered(start, raised, calls, index, call), m, own, [], inner, Unknown)
    ensures var frame := CallFrame(index, |start.stack|, call.contract, call.func, Returned);
            PopReturned(m) == Settled(start, raised, calls + ([frame] + inner))
  {
    var entered := Entered(start, raised, calls, index, call);
    NothingLoose(entered, m, own, inner);
    hide Tracks;
    assert m.stack[..|start.stack|] == Recorded(start.stack, raised);
  }

  /** A call that failed leaves its frame loose, below those it left loose itself. */
  function Leaves(call: Call, own: Option<(ScError, nat)>, loose: seq<Loose>): seq<Loose> {
    [Loose(call.contract, own.None?, false)] + loose
  }

  /** Ending a call that failed, after everything that is loose above it. */
  lemma FailCloses(start: Machine, m: Machine, raised: Option<(ScError, nat)>, calls: seq<CallFrame>, index: nat,
                   call: Call, own: Option<(ScError, nat)>, loose: seq<Loose>, inner: seq<CallFrame>,
                   leftover: CallOutcome)
    requires start.Sound()
    requires Tracks(Entered(start, raised, calls, index, call), m, own, loose, inner, leftover)
    ensures var frame := CallFrame(index, |start.stack|, call.contract, call.func, OutcomeOf(own, leftover));
            CloseLoose(m, Leaves(call, own, loose), leftover).frames == start.frames + (calls + ([frame] + inner))
  {
    Leaving(start, m, raised, calls, index, call, own, loose, inner, leftover);
    var first := Loose(call.contract, own.None?, false);
    CloseLooseConcat(m, [first], loose, leftover);
    var closed := CloseLoose(m, loose, leftover);
    assert closed.frames == Entered(start, raised, calls, index, call).frames + inner;
    PopsOne(closed, first, leftover);
    hide CloseLoose, LooseOn, Tracks;
    assert closed.Top() == Open(|start.frames + calls|, own);
  }

  lemma PopsOne(m: Machine, one: Loose, leftover: CallOutcome)
    requires m.Sound() && m.stack != [] && !one.spent
    ensures CloseLoose(m, [one], leftover) == PopFailed(m, leftover)
  {
    assert [one][..0] == [];
  }

  lemma FailTracks(start: Machine, m: Machine, raised: Option<(ScError, nat)>, calls: seq<CallFrame>, index: nat,
                   call: Call, own: Option<(ScError, nat)>, loose: seq<Loose>, inner: seq<CallFrame>,
                   leftover: CallOutcome)
    requires start.Sound()
    requires Tracks(Entered(start, raised, calls, index, call), m, own, loose, inner, leftover)
    ensures var frame := CallFrame(index, |start.stack|, call.contract, call.func, OutcomeOf(own, leftover));
            Tracks(start, m, raised, Leaves(call, own, loose), calls + ([frame] + inner), leftover)
  {
    var n, entered := |start.stack|, Entered(start, raised, calls, index, call);
    Leaving(start, m, raised, calls, index, call, own, loose, inner, leftover);
    FailCloses(start, m, raised, calls, index, call, own, loose, inner, leftover);
    assert LooseOn(m, n + 1, |entered.frames|, loose);
    hide CloseLoose, Entered, LooseOn;
    OneMoreLoose(m, n, |start.frames|, |start.frames + calls|, Loose(call.contract, own.None?, false), loose);
  }

  lemma OneMoreLoose(m: Machine, low: nat, older: nat, k: nat, l: Loose, loose: seq<Loose>)
    requires LooseOn(m, low + 1, k + 1, loose) && older <= k
    requires LooseAt(m, low, older, l)
    ensures LooseOn(m, low, older, [l] + loose)
  {
    var all := [l] + loose;
    forall i | 0 <= i < |all|
      ensures LooseAt(m, low + i, older, all[i])
    {
      if i > 0 {
        assert LooseAt(m, low + 1 + (i - 1), k + 1, loose[i - 1]);
      }
    }
  }

  lemma NothingTracks(start: Machine, at: nat, leftover: CallOutcome)
    requires start.Sound()
    ensures After(start, [], at) == start
    ensures Tracks(start, start, None, [], [], leftover)
  {
    assert NumberedFrom([], at) == [];
    assert start.frames + [] == start.frames;
  }

  /** Whether a frame raised anything does not depend on the numbering. */
  lemma {:induction false} RaiseAnywhere(owner: Option<ContractId>, body: seq<Act>, at: nat)
    ensures LastRaise(owner, body, at).None? <==> LastRaise(owner, body, 0).None?
    decreases |body|
  {
    hide BodyTrace;
    if body != [] {
      RaiseAnywhere(owner, body[..|body| - 1], at);
    }
  }

  /** `Tracks` for a body run from `start`. */
  ghost predicate TracksBody(start: Machine, m: Machine, owner: Option<ContractId>, body: seq<Act>, at: nat,
                             leftover: CallOutcome)
  {
    Tracks(start, m, LastRaise(owner, body, at), Dangling(owner, body),
           BodyFrames(owner, body, |start.stack|, at, leftover), leftover)
  }

  lemma {:induction false} BodyTracks(start: Machine, owner: Option<ContractId>, body: seq<Act>, at: nat,
                                      leftover: CallOutcome)
    requires Owns(start, owner)
    requires WellFormed(body) && Readable(owner, body)
    ensures TracksBody(start, After(start, BodyTrace(owner, body), at), owner, body, at, leftover)
    decreases body, 0
  {
    hide Tracks, After;
    if body == [] {
      NothingTracks(start, at, leftover);
    } else {
      var init, last := body[..|body| - 1], body[|body| - 1];
      var here := at + |BodyTrace(owner, init)|;
      AfterConcat(start, BodyTrace(owner, init), ActTrace(owner, last), at);
      var mid := After(start, BodyTrace(owner, init), at);
      if Speaks(owner, last) {
        BodyTracks(start, owner, init, at, Unknown);
        ActTracks(start, mid, owner, last, LastRaise(owner, init, at), Dangling(owner, init),
                  BodyFrames(owner, init, |start.stack|, at, Unknown), here, leftover);
      } else {
        BodyTracks(start, owner, init, at, leftover);
        AfterOne(mid, ActTrace(owner, last)[0], here);
        assert BodyFrames(owner, body, |start.stack|, at, leftover)
            == BodyFrames(owner, init, |start.stack|, at, leftover);
      }
    }
  }

  /** What is loose after an action of `owner`'s, given what was before. */
  function LooseAfter(owner: Option<ContractId>, act: Act, loose: seq<Loose>): seq<Loose> {
    if act.Invoke? then ActDangling(act)
    else if act.Emit? && owner.Some? then Spent(Unwound(loose, owner.value))
    else loose
  }

  lemma {:induction false} ActTracks(start: Machine, mid: Machine, owner: Option<ContractId>, act: Act,
                                     raised: Option<(ScError, nat)>, loose: seq<Loose>,
                                     calls: seq<CallFrame>, here: nat, leftover: CallOutcome)
    requires Owns(start, owner) && Speaks(owner, act) && mid.Sound()
    requires ActWellFormed(act) && ActReadable(act)
    requires Tracks(start, mid, raised, loose, calls, Unknown)
    requires owner.Some? && Marks(act) ==> !Has(loose, owner.value)
    ensures var raised' := if act.Emit? && act.kind.Error? then Some((act.kind.error, here)) else raised;
            Tracks(start, After(mid, ActTrace(owner, act), here), raised', LooseAfter(owner, act, loose),
                   calls + ActFrames(act, |start.stack|, here, leftover), leftover)
    decreases act, 1
  {
    hide Tracks, After, Step, Settled, Entered, Unwound, Spent, Has;
    match act
    case Invoke(call) =>
      var entered := Entered(start, raised, calls, here, call);
      var inside := Some(call.contract);
      Enters(start, mid, owner, raised, loose, calls, here, call);
      CallRuns(mid, owner, call, here);
      var left := After(entered, BodyTrace(inside, call.body), here + 1);
      var own := LastRaise(inside, call.body, here + 1);
      if call.returns_ {
        BodyTracks(entered, inside, call.body, here + 1, Unknown);
        var inner := BodyFrames(inside, call.body, |start.stack| + 1, here + 1, Unknown);
        ReturnSettles(start, left, raised, calls, here, call, own, inner);
        SettledTracks(start, raised, calls + CallFrames(call, |start.stack|, here, leftover), leftover);
      } else {
        BodyTracks(entered, inside, call.body, here + 1, leftover);
        var inner := BodyFrames(inside, call.body, |start.stack| + 1, here + 1, leftover);
        FailTracks(start, left, raised, calls, here, call, own, Dangling(inside, call.body), inner, leftover);
        RaiseAnywhere(inside, call.body, here + 1);
      }
    case Emit(kind) =>
      AfterOne(mid, Note(owner, kind), here);
      EmitTracks(start, mid, owner.value, raised, loose, calls, kind, here, leftover);
      assert calls + [] == calls;
  }

  lemma ReturnPops(m: Machine, call: Call, index: nat)
    requires m.Sound()
    ensures Step(m, Numbered(ReturnNote(call), index)) == PopReturned(m)
  {
  }

  /** A call's trace runs as its first event, its body, and its return if any. */
  lemma CallRuns(m: Machine, owner: Option<ContractId>, call: Call, at: nat)
    requires m.Sound()
    ensures var entered := Step(m, Numbered(CallNote(owner, call), at));
            var left := After(entered, BodyTrace(Some(call.contract), call.body), at + 1);
            After(m, CallTrace(owner, call), at)
            == if call.returns_ then PopReturned(left) else left
  {
    hide After, Step, BodyTrace, CallNote, ReturnNote, Numbered, PopReturned;
    var head, inside := [CallNote(owner, call)], BodyTrace(Some(call.contract), call.body);
    var entered := Step(m, Numbered(CallNote(owner, call), at));
    AfterOne(m, CallNote(owner, call), at);
    AfterConcat(m, head, inside, at);
    var left := After(entered, inside, at + 1);
    if call.returns_ {
      AfterConcat(m, head + inside, [ReturnNote(call)], at);
      AfterOne(left, ReturnNote(call), at + 1 + |inside|);
      ReturnPops(left, call, at + 1 + |inside|);
    } else {
      assert head + inside + [] == head + inside;
    }
  }

  /** The events show this trace, whatever data they carry besides. */
  ghost predicate Shows(events: seq<DiagEvent>, notes: seq<Note>) {
    && |events| == |notes|
    && forall i :: 0 <= i < |events| ==>
         events[i].index == i && events[i].contract == notes[i].contract && events[i].kind == notes[i].kind
  }

  lemma StepReadsNote(m: Machine, e: DiagEvent, n: Note, index: nat)
    requires m.Sound()
    requires e.index == index && e.contract == n.contract && e.kind == n.kind
    ensures Step(m, e) == Step(m, Numbered(n, index))
  {
  }

  lemma {:induction false} RunReadsNotes(events: seq<DiagEvent>, notes: seq<Note>)
    requires Shows(events, notes)
    ensures Run(Empty, events) == After(Empty, notes, 0)
    decreases |events|
  {
    hide Step;
    if events != [] {
      StepReadsNote(Run(Empty, events[..|events| - 1]), events[|events| - 1], notes[|events| - 1], |events| - 1);
      var n := |events| - 1;
      RunReadsNotes(events[..n], notes[..n]);
      assert NumberedFrom(notes, 0)[..n] == NumberedFrom(notes[..n], 0);
    }
  }
}
