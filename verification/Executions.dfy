/**
 What the call tree is for: an execution is a tree of calls, the host flattens
 it into events, and `FromEvents` has to give the tree back.

 A call that fails emits nothing when it ends, so its frame stays loose on the
 stack until some enclosing frame emits its next event. Three things can go
 wrong with a loose frame: a call below it returns and pops it instead
 (`Orderly` rules that out); an error or a call of an enclosing frame with the
 same contract is taken for its own (`Distinguishable`); another event of such a
 frame does not close it, and it ends with the terminal error (`Stale`).
 `RoundTrips` says that nothing else can go wrong, and that each of these does.
 */
module Executions {
  import opened Common
  import opened Soroban
  import opened Events
  import opened CallTree
  import opened CallShape

  datatype Call = Call(contract: ContractId, func: string, body: seq<Act>, returns_: bool)

  datatype Act =
    | Emit(kind: EventKind)     // an event of the frame's own
    | Ambient(kind: EventKind)  // an event with no emitter
    | Invoke(call: Call)

  /** What the call tree reads of an event, besides its number. */
  datatype Note = Note(contract: Option<ContractId>, kind: EventKind)

  // ----------------------------------------------------- what the host emits

  function CallNote(caller: Option<ContractId>, call: Call): Note {
    Note(caller, FnCall(call.contract, call.func))
  }

  function ReturnNote(call: Call): Note {
    Note(Some(call.contract), FnReturn(call.func))
  }

  function CallTrace(caller: Option<ContractId>, call: Call): (r: seq<Note>)
    ensures |r| >= 1
    decreases call
  {
    [CallNote(caller, call)] + BodyTrace(Some(call.contract), call.body)
    + if call.returns_ then [ReturnNote(call)] else []
  }

  function ActTrace(owner: Option<ContractId>, act: Act): seq<Note>
    decreases act, 0
  {
    match act
    case Emit(kind) => [Note(owner, kind)]
    case Ambient(kind) => [Note(None, kind)]
    case Invoke(call) => CallTrace(owner, call)
  }

  /** The events of a frame's body; `owner` is `None` for the transaction itself. */
  function BodyTrace(owner: Option<ContractId>, body: seq<Act>): seq<Note>
    decreases body, 0
  {
    if body == [] then []
    else BodyTrace(owner, body[..|body| - 1]) + ActTrace(owner, body[|body| - 1])
  }

  // ------------------------------------------------------- conditions on trees

  /** An `Emit` or `Ambient` event is anything but a call or a return. */
  predicate Plain(kind: EventKind) {
    !kind.FnCall? && !kind.FnReturn?
  }

  predicate WellFormed(body: seq<Act>)
    decreases body
  {
    body == [] || (WellFormed(body[..|body| - 1]) && ActWellFormed(body[|body| - 1]))
  }

  predicate ActWellFormed(act: Act)
    decreases act
  {
    match act
    case Emit(kind) => Plain(kind)
    case Ambient(kind) => Plain(kind)
    case Invoke(call) => WellFormed(call.body)
  }

  /** Whether an action unwinds to the frame that performs it. */
  predicate Speaks(owner: Option<ContractId>, act: Act) {
    act.Invoke? || (act.Emit? && owner.Some?)
  }

  /**
   A frame that is still open although its call has failed: whether it raised
   nothing, and whether an enclosing frame has spoken since.
   */
  datatype Loose = Loose(contract: ContractId, silent: bool, spent: bool)

  predicate Has(loose: seq<Loose>, c: ContractId) {
    exists i :: 0 <= i < |loose| && loose[i].contract == c
  }

  function Spent(loose: seq<Loose>): (r: seq<Loose>)
    ensures |r| == |loose|
  {
    seq(|loose|, (i: nat) requires i < |loose| => loose[i].(spent := true))
  }

  /** What an event of `c` leaves open: everything up to the topmost frame of `c`, if there is one. */
  function Unwound(loose: seq<Loose>, c: ContractId): (r: seq<Loose>)
    ensures r <= loose
    ensures Has(loose, c) <==> r != []
    ensures r != [] ==> r[|r| - 1].contract == c
    ensures forall i :: |r| <= i < |loose| ==> loose[i].contract != c
  {
    if loose == [] || loose[|loose| - 1].contract == c then loose else Unwound(loose[..|loose| - 1], c)
  }

  /** The loose frames above a body's own frame once the body is done, innermost last. */
  function Dangling(owner: Option<ContractId>, body: seq<Act>): seq<Loose>
    decreases body
  {
    if body == [] then []
    else
      var init, last := body[..|body| - 1], body[|body| - 1];
      match last
      case Invoke(_) => ActDangling(last)
      case Ambient(_) => Dangling(owner, init)
      case Emit(_) => if owner.None? then Dangling(owner, init) else Spent(Unwound(Dangling(owner, init), owner.value))
  }

  function ActDangling(act: Act): seq<Loose>
    decreases act
  {
    match act
    case Invoke(call) =>
      if call.returns_ then []
      else
        var inside := Some(call.contract);
        [Loose(call.contract, LastRaise(inside, call.body, 0).None?, false)] + Dangling(inside, call.body)
    case _ => []
  }

  /** An error or a call; any other event of a frame leaves no mark of its own. */
  predicate Marks(act: Act) {
    act.Invoke? || (act.Emit? && act.kind.Error?)
  }

  /** No error and no call finds a loose frame of its own emitter's contract. */
  predicate Distinguishable(owner: Option<ContractId>, body: seq<Act>)
    decreases body
  {
    body == []
    || (var init, last := body[..|body| - 1], body[|body| - 1];
        && Distinguishable(owner, init)
        && (owner.Some? && Marks(last) ==> !Has(Dangling(owner, init), owner.value))
        && ActDistinguishable(last))
  }

  predicate ActDistinguishable(act: Act)
    decreases act
  {
    match act
    case Invoke(call) => Distinguishable(Some(call.contract), call.body)
    case _ => true
  }

  /** No call returns while a failed call below it is still loose. */
  predicate Orderly(body: seq<Act>)
    decreases body
  {
    body == [] || (Orderly(body[..|body| - 1]) && ActOrderly(body[|body| - 1]))
  }

  predicate ActOrderly(act: Act)
    decreases act
  {
    match act
    case Invoke(call) =>
      && Orderly(call.body)
      && (call.returns_ ==> Dangling(Some(call.contract), call.body) == [])
    case _ => true
  }

  predicate Readable(owner: Option<ContractId>, body: seq<Act>) {
    Distinguishable(owner, body) && Orderly(body)
  }

  predicate ActReadable(act: Act) {
    ActDistinguishable(act) && ActOrderly(act)
  }

  /** A loose frame that raised nothing, passed over by an event that should have closed it. */
  predicate Stale(loose: seq<Loose>) {
    exists i :: 0 <= i < |loose| && loose[i].silent && loose[i].spent
  }

  // --------------------------------------------------- what should come back

  /** The last error a body's own frame raised, and the event that raised it. */
  function LastRaise(owner: Option<ContractId>, body: seq<Act>, at: nat): Option<(ScError, nat)> {
    if body == [] then None
    else
      var init, last := body[..|body| - 1], body[|body| - 1];
      if last.Emit? && owner.Some? && last.kind.Error? then
        Some((last.kind.error, at + |BodyTrace(owner, init)|))
      else LastRaise(owner, init, at)
  }

  /**
   The frames of a call whose first event is number `at`, in call order. A call
   that fails takes the last error it raised itself; failing that, it is
   `Unknown`, unless it is still open when the events end: then `leftover`.
   */
  function CallFrames(call: Call, depth: nat, at: nat, leftover: CallOutcome): (r: seq<CallFrame>)
    decreases call
  {
    var outcome :=
      if call.returns_ then Returned
      else OutcomeOf(LastRaise(Some(call.contract), call.body, at + 1), leftover);
    [CallFrame(at, depth, call.contract, call.func, outcome)]
    + BodyFrames(Some(call.contract), call.body, depth + 1, at + 1,
                 if call.returns_ then Unknown else leftover)
  }

  function ActFrames(act: Act, depth: nat, at: nat, leftover: CallOutcome): seq<CallFrame>
    decreases act
  {
    match act
    case Invoke(call) => CallFrames(call, depth, at, leftover)
    case _ => []
  }

  function BodyFrames(owner: Option<ContractId>, body: seq<Act>, depth: nat, at: nat, leftover: CallOutcome)
    : seq<CallFrame>
    decreases body
  {
    if body == [] then []
    else
      var init, last := body[..|body| - 1], body[|body| - 1];
      BodyFrames(owner, init, depth, at, if Speaks(owner, last) then Unknown else leftover)
      + ActFrames(last, depth, at + |BodyTrace(owner, init)|, leftover)
  }
}
