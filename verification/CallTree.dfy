/**
 The stack machine that rebuilds the call tree from the flat event list
 (`call_tree`, crates/soroban-failure-analysis/src/model/events.rs:396-475).

 `Reconstruct` is the specification: every unwinding is one `CloseTo`, down to
 a height named directly. `BuildCallTree` is the code: nested loops that pop one
 entry at a time.
 */
module CallTree {
  import opened Common
  import opened Soroban
  import opened Events

  datatype CallOutcome = Returned | Failed(error: ScError, eventIndex: nat) | Unknown

  datatype CallFrame = CallFrame(
    eventIndex: nat, depth: nat, contract: ContractId, func: string, outcome: CallOutcome)

  /** An open frame and the last error it raised. */
  datatype Open = Open(frame: nat, lastError: Option<(ScError, nat)>)

  /** Every frame so far, and the open ones, innermost last. */
  datatype Machine = Machine(frames: seq<CallFrame>, stack: seq<Open>) {
    predicate Sound() {
      forall i :: 0 <= i < |stack| ==> stack[i].frame < |frames|
    }

    /** The contract of the i-th open frame. */
    function ContractAt(i: nat): ContractId
      requires Sound() && i < |stack|
    {
      frames[stack[i].frame].contract
    }

    predicate OnStack(c: ContractId)
      requires Sound()
    {
      exists i :: 0 <= i < |stack| && ContractAt(i) == c
    }

    function Top(): Open
      requires stack != []
    {
      stack[|stack| - 1]
    }
  }

  const Empty := Machine([], [])

  function OutcomeOf(lastError: Option<(ScError, nat)>, dflt: CallOutcome): CallOutcome {
    match lastError
    case Some((error, index)) => Failed(error, index)
    case None => dflt
  }

  function SetOutcome(frames: seq<CallFrame>, i: nat, outcome: CallOutcome): seq<CallFrame>
    requires i < |frames|
  {
    frames[i := frames[i].(outcome := outcome)]
  }

  /** End the innermost open frame: with its last error, or else with `dflt`. */
  function PopFailed(m: Machine, dflt: CallOutcome): (r: Machine)
    requires m.Sound() && m.stack != []
    ensures r.Sound() && |r.frames| == |m.frames|
  {
    Machine(SetOutcome(m.frames, m.Top().frame, OutcomeOf(m.Top().lastError, dflt)),
            m.stack[..|m.stack| - 1])
  }

  /** End open frames until at most `height` are left. */
  function CloseTo(m: Machine, height: nat, dflt: CallOutcome): (r: Machine)
    requires m.Sound()
    ensures r.Sound() && |r.frames| == |m.frames|
    ensures r.stack == if height <= |m.stack| then m.stack[..height] else m.stack
    decreases |m.stack|
  {
    if |m.stack| <= height then m else CloseTo(PopFailed(m, dflt), height, dflt)
  }

  /** How many of the lowest `n` entries are left once unwound to `c`. */
  function HeightBelow(m: Machine, c: ContractId, n: nat): (h: nat)
    requires m.Sound() && n <= |m.stack|
    ensures h <= n
    ensures forall i :: h <= i < n ==> m.ContractAt(i) != c
    ensures h > 0 ==> m.ContractAt(h - 1) == c
  {
    if n == 0 then 0
    else if m.ContractAt(n - 1) == c then n
    else HeightBelow(m, c, n - 1)
  }

  /** The stack height an event from `c` unwinds to: all of it for a stranger. */
  function HeightFor(m: Machine, c: ContractId): (h: nat)
    requires m.Sound()
    ensures h <= |m.stack|
    ensures forall i :: h <= i < |m.stack| ==> m.ContractAt(i) != c
    ensures m.OnStack(c) ==> h > 0 && m.ContractAt(h - 1) == c
  {
    if m.OnStack(c) then HeightBelow(m, c, |m.stack|) else |m.stack|
  }

  function Unwind(m: Machine, c: ContractId): (r: Machine)
    requires m.Sound()
    ensures r.Sound()
  {
    CloseTo(m, HeightFor(m, c), Unknown)
  }

  function Push(m: Machine, index: nat, callee: ContractId, func: string): (r: Machine)
    requires m.Sound()
    ensures r.Sound()
  {
    Machine(m.frames + [CallFrame(index, |m.stack|, callee, func, Unknown)],
            m.stack + [Open(|m.frames|, None)])
  }

  function PopReturned(m: Machine): (r: Machine)
    requires m.Sound()
    ensures r.Sound()
  {
    if m.stack == [] then m
    else Machine(SetOutcome(m.frames, m.Top().frame, Returned), m.stack[..|m.stack| - 1])
  }

  /** An error event from `c`: charged to the top frame if it is `c`'s. */
  function Charge(m: Machine, c: ContractId, error: ScError, index: nat): (r: Machine)
    requires m.Sound()
    ensures r.Sound()
  {
    var n := |m.stack|;
    if n > 0 && m.ContractAt(n - 1) == c then
      m.(stack := m.stack[n - 1 := m.Top().(lastError := Some((error, index)))])
    else m
  }

  function Step(m: Machine, e: DiagEvent): (r: Machine)
    requires m.Sound()
    ensures r.Sound()
  {
    if e.kind.FnCall? then
      var base := if e.contract.Some? then Unwind(m, e.contract.value) else CloseTo(m, 0, Unknown);
      Push(base, e.index, e.kind.callee, e.kind.func)
    else if e.kind.FnReturn? then PopReturned(m)
    else if e.contract.None? then m
    else
      var base := Unwind(m, e.contract.value);
      if e.kind.Error? then Charge(base, e.contract.value, e.kind.error, e.index) else base
  }

  function Run(m: Machine, events: seq<DiagEvent>): (r: Machine)
    requires m.Sound()
    ensures r.Sound()
  {
    if events == [] then m
    else Step(Run(m, events[..|events| - 1]), events[|events| - 1])
  }

  lemma {:induction false} RunConcat(m: Machine, a: seq<DiagEvent>, b: seq<DiagEvent>)
    requires m.Sound()
    ensures Run(m, a + b) == Run(Run(m, a), b)
    decreases |b|
  {
    if b == [] {
      assert a + b == a;
    } else {
      assert (a + b)[..|a + b| - 1] == a + b[..|b| - 1];
      RunConcat(m, a, b[..|b| - 1]);
    }
  }

  /** What a frame still open at the end, that raised nothing, ends with. */
  function Leftover(terminal: Option<TerminalError>): CallOutcome {
    match terminal
    case Some(t) => Failed(t.error, t.eventIndex)
    case None => Unknown
  }

  function Reconstruct(events: seq<DiagEvent>, terminal: Option<TerminalError>): seq<CallFrame> {
    CloseTo(Run(Empty, events), 0, Leftover(terminal)).frames
  }

  /** The diagnostics of a transaction: its events, calls and terminal error. */
  datatype Diagnostics = Diagnostics(
    emitted: bool, events: seq<DiagEvent>, calls: seq<CallFrame>, terminal: Option<TerminalError>)

  function FromEvents(raw: seq<RawEvent>, enabled: bool): Diagnostics {
    var events := ClassifyFrom(raw, 0);
    var terminal := TerminalOf(events);
    Diagnostics(enabled, events, Reconstruct(events, terminal), terminal)
  }

  // ---------------------------------------------------------------- the code

  lemma CloseToUnfolds(m: Machine, height: nat, dflt: CallOutcome)
    requires m.Sound()
    ensures CloseTo(m, height, dflt)
            == if |m.stack| <= height then m else CloseTo(PopFailed(m, dflt), height, dflt)
  {
  }

  /** Part of the way through unwinding `start` to a height. */
  ghost predicate Unwinding(start: Machine, m: Machine, height: nat) {
    && start.Sound() && m.Sound()
    && height <= |m.stack| && m.stack <= start.stack && |m.frames| == |start.frames|
    && (forall i :: 0 <= i < |m.frames| ==> m.frames[i].contract == start.frames[i].contract)
    && CloseTo(m, height, Unknown) == CloseTo(start, height, Unknown)
  }

  lemma UnwindingPops(start: Machine, m: Machine, height: nat)
    requires m.Sound() && start.Sound() && |m.stack| <= |start.stack|
    requires Unwinding(start, m, height) && m.stack != []
    ensures m.ContractAt(|m.stack| - 1) == start.ContractAt(|m.stack| - 1)
    ensures |m.stack| > height ==> Unwinding(start, PopFailed(m, Unknown), height)
    ensures |m.stack| == height ==> CloseTo(start, height, Unknown) == m
  {
    hide CloseTo;
    CloseToUnfolds(m, height, Unknown);
  }

  lemma PopIs(frames: seq<CallFrame>, stack: seq<Open>, dflt: CallOutcome)
    requires Machine(frames, stack).Sound() && stack != []
    ensures var o := stack[|stack| - 1];
            PopFailed(Machine(frames, stack), dflt)
            == Machine(SetOutcome(frames, o.frame, OutcomeOf(o.lastError, dflt)), stack[..|stack| - 1])
  {
  }

  /** Pop and end frames until `c`'s is on top; there is one. */
  method PopUntil(frames: seq<CallFrame>, stack: seq<Open>, c: ContractId)
    returns (frames': seq<CallFrame>, stack': seq<Open>)
    requires Machine(frames, stack).Sound() && Machine(frames, stack).OnStack(c)
    ensures Machine(frames', stack') == Unwind(Machine(frames, stack), c)
  {
    frames', stack' := frames, stack;
    ghost var start := Machine(frames, stack);
    ghost var h := HeightFor(start, c);
    assert h > 0 && start.ContractAt(h - 1) == c;
    assert Unwinding(start, start, h);
    hide CloseTo, HeightFor, Unwinding, Machine.OnStack, SetOutcome, PopFailed;
    while frames'[stack'[|stack'| - 1].frame].contract != c
      invariant Machine(frames', stack').Sound() && h <= |stack'| <= |stack|
      invariant Unwinding(start, Machine(frames', stack'), h)
      decreases |stack'|
    {
      UnwindingPops(start, Machine(frames', stack'), h);
      PopIs(frames', stack', Unknown);
      var o := stack'[|stack'| - 1];
      stack' := stack'[..|stack'| - 1];
      frames' := SetOutcome(frames', o.frame, OutcomeOf(o.lastError, Unknown));
    }
    UnwindingPops(start, Machine(frames', stack'), h);
  }

  method UnwindTo(frames: seq<CallFrame>, stack: seq<Open>, c: ContractId)
    returns (frames': seq<CallFrame>, stack': seq<Open>)
    requires Machine(frames, stack).Sound()
    ensures Machine(frames', stack') == Unwind(Machine(frames, stack), c)
  {
    if Machine(frames, stack).OnStack(c) {
      frames', stack' := PopUntil(frames, stack, c);
    } else {
      frames', stack' := frames, stack;
    }
  }

  /** Pop every open frame, as a call with no emitter and the final drain do. */
  method Drain(frames: seq<CallFrame>, stack: seq<Open>, dflt: CallOutcome)
    returns (frames': seq<CallFrame>)
    requires Machine(frames, stack).Sound()
    ensures frames' == CloseTo(Machine(frames, stack), 0, dflt).frames
  {
    frames' := frames;
    var stack' := stack;
    while stack' != []
      invariant Machine(frames', stack').Sound()
      invariant CloseTo(Machine(frames', stack'), 0, dflt) == CloseTo(Machine(frames, stack), 0, dflt)
      decreases |stack'|
    {
      var o := stack'[|stack'| - 1];
      stack' := stack'[..|stack'| - 1];
      frames' := SetOutcome(frames', o.frame, OutcomeOf(o.lastError, dflt));
    }
  }

  method BuildCallTree(events: seq<DiagEvent>, terminal: Option<TerminalError>)
    returns (frames: seq<CallFrame>)
    ensures frames == Reconstruct(events, terminal)
  {
    hide CloseTo, Unwind;
    frames := [];
    var stack: seq<Open> := [];
    for i := 0 to |events|
      invariant Machine(frames, stack).Sound()
      invariant Machine(frames, stack) == Run(Empty, events[..i])
    {
      var e := events[i];
      assert events[..i + 1][..i] == events[..i];
      ghost var before := Machine(frames, stack);
      if e.kind.FnCall? {
        if e.contract.Some? {
          frames, stack := UnwindTo(frames, stack, e.contract.value);
        } else {
          frames := Drain(frames, stack, Unknown);
          stack := [];
        }
        frames := frames + [CallFrame(e.index, |stack|, e.kind.callee, e.kind.func, Unknown)];
        stack := stack + [Open(|frames| - 1, None)];
      } else if e.kind.FnReturn? {
        if stack != [] {
          var o := stack[|stack| - 1];
          stack := stack[..|stack| - 1];
          frames := SetOutcome(frames, o.frame, Returned);
        }
      } else if e.contract.Some? {
        var c := e.contract.value;
        frames, stack := UnwindTo(frames, stack, c);
        if e.kind.Error? && stack != [] {
          var top := stack[|stack| - 1];
          if frames[top.frame].contract == c {
            stack := stack[|stack| - 1 := top.(lastError := Some((e.kind.error, e.index)))];
          }
        }
      }
      assert Machine(frames, stack) == Step(before, e);
    }
    assert events[..|events|] == events;
    frames := Drain(frames, stack, Leftover(terminal));
  }
}
