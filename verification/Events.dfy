/**
 Classification of diagnostic events, and the reconstruction of the call tree
 from the flat event list (crates/soroban-failure-analysis/src/model/events.rs).
 */
module Events {
  import opened Common
  import opened Soroban

  datatype RawEvent = RawEvent(contract: Option<ContractId>, topics: seq<ScVal>, data: ScVal)

  datatype EventKind =
    | FnCall(callee: ContractId, func: string)
    | FnReturn(func: string)
    | Error(error: ScError, message: Option<string>)
    | HostFnFailed(error: ScError)
    | Log(message: Option<string>)
    | CoreMetric(name: string, value: Option<U64>)
    | Other(topic: Option<string>)

  datatype DiagEvent =
    DiagEvent(index: nat, contract: Option<ContractId>, kind: EventKind, data: ScVal)

  datatype TerminalError = TerminalError(error: ScError, eventIndex: nat)

  function At(s: seq<ScVal>, i: nat): Option<ScVal> {
    if i < |s| then Some(s[i]) else None
  }

  function SymbolOf(v: ScVal): Option<string> {
    match v
    case SymbolVal(s) => Some(s)
    case _ => None
  }

  /** The message in an event's data: a bare string, or the head of a vector. */
  function Message(data: ScVal): Option<string> {
    match data
    case StringVal(s) => Some(s)
    case VecVal(Some(items)) =>
      if items == [] then None
      else (match items[0]
            case StringVal(s) => Some(s)
            case _ => None)
    case _ => None
  }

  function KindOf(topics: seq<ScVal>, data: ScVal): EventKind {
    var first := if topics == [] then None else SymbolOf(topics[0]);
    var second: Option<ScVal> := At(topics, 1);
    var third: Option<ScVal> := At(topics, 2);
    match (first, second, third)
    case (Some("fn_call"), Some(BytesVal(callee)), Some(func)) =>
      (match SymbolOf(func)
       case Some(name) =>
         if |callee| == 32 then FnCall(ContractId(callee), name) else Other(first)
       case None => Other(first))
    case (Some("fn_return"), Some(func), _) =>
      (match SymbolOf(func)
       case Some(name) => FnReturn(name)
       case None => Other(first))
    case (Some("error"), Some(ErrorVal(error)), _) => Error(error, Message(data))
    case (Some("host_fn_failed"), Some(ErrorVal(error)), _) => HostFnFailed(error)
    case (Some("log"), _, _) => Log(Message(data))
    case (Some("core_metrics"), Some(name), _) =>
      (match SymbolOf(name)
       case Some(metric) =>
         CoreMetric(metric, match data case U64Val(v) => Some(v) case _ => None)
       case None => Other(first))
    case _ => Other(first)
  }

  predicate Named(topics: seq<ScVal>, i: nat, name: string) {
    i < |topics| && topics[i] == SymbolVal(name)
  }

  /**
   Each kind stands for exactly one shape of event; whatever has no such shape
   is kept as `Other`, with its first topic.
   */
  lemma KindIsExact(topics: seq<ScVal>, data: ScVal, callee: ContractId, func: string, error: ScError)
    ensures var k := KindOf(topics, data);
            && (k == FnCall(callee, func) <==>
                  && Named(topics, 0, "fn_call") && |topics| > 2
                  && topics[1] == BytesVal(callee.hash) && Named(topics, 2, func))
            && (k == FnReturn(func) <==> Named(topics, 0, "fn_return") && Named(topics, 1, func))
            && (k.Error? && k.error == error <==>
                  Named(topics, 0, "error") && |topics| > 1 && topics[1] == ErrorVal(error))
            && (k == HostFnFailed(error) <==>
                  Named(topics, 0, "host_fn_failed") && |topics| > 1 && topics[1] == ErrorVal(error))
            && (k.Error? || k.Log? ==> k.message == Message(data))
            && (k.Log? <==> Named(topics, 0, "log"))
            && (k.CoreMetric? <==> Named(topics, 0, "core_metrics") && |topics| > 1 && topics[1].SymbolVal?)
            && (k.Other? ==> k.topic == if topics == [] then None else SymbolOf(topics[0]))
  {
    hide Message;
  }

  function Classify(index: nat, e: RawEvent): DiagEvent {
    DiagEvent(index, e.contract, KindOf(e.topics, e.data), e.data)
  }

  /** The classified list, its first event numbered `at`. */
  function ClassifyFrom(raw: seq<RawEvent>, at: nat): (r: seq<DiagEvent>)
    ensures |r| == |raw|
  {
    seq(|raw|, (i: nat) requires i < |raw| => Classify(at + i, raw[i]))
  }

  /** The first `host_fn_failed` event, if there is one. */
  function TerminalOf(events: seq<DiagEvent>): (t: Option<TerminalError>)
    ensures t.None? <==> forall e :: e in events ==> !e.kind.HostFnFailed?
    ensures t.Some? ==> exists i :: 0 <= i < |events| && events[i].kind == HostFnFailed(t.value.error)
                                    && events[i].index == t.value.eventIndex
                                    && forall j :: 0 <= j < i ==> !events[j].kind.HostFnFailed?
  {
    if events == [] then None
    else if events[0].kind.HostFnFailed? then
      Some(TerminalError(events[0].kind.error, events[0].index))
    else
      var rest := TerminalOf(events[1..]);
      assert rest.Some? ==> exists i :: 0 <= i < |events| - 1 && events[1..][i].kind == HostFnFailed(rest.value.error)
                                        && events[1..][i].index == rest.value.eventIndex
                                        && forall j :: 0 <= j < i ==> !events[1..][j].kind.HostFnFailed?;
      rest
  }
}
