/**
 The eight built-in failure rules (crates/soroban-failure-analysis/src/rules).
 Reasons, summaries and remediation are text for people; what a rule decides is
 its outcome, its confidence and the artefacts it cites.
 */
module Rules {
  import opened Common
  import opened Soroban
  import opened Events
  import opened CallTree
  import opened Outcomes
  import opened Model
  import opened Resolve

  datatype Confidence = Possible | Likely | Confirmed

  datatype Source =
    | OperationAt(index: nat)
    | EventAt(index: nat)
    | AuthEntryAt(index: nat)
    | FootprintAt(readWrite: bool, index: nat)
    | SorobanResources
    | SpecOfContract
    | WholeFootprint
    | ObservedResources

  /** The rules are named by their ids; a registry may hold a caller's own. */
  datatype RuleId =
    | Archived | LimitExceeded | InsufficientFee
    | ContractDefined | InvalidAuth | OutsideFootprint | Trap | MissingAuth
    | Custom(id: string)

  type Builtin = rule: RuleId | !rule.Custom? witness Archived

  datatype Cause = Cause(rule: RuleId, confidence: Confidence, evidence: seq<Source>)

  datatype RuleOutcome = NotApplicable | NoEvidence | Match(cause: Cause)

  /** In registration order. */
  const BUILTIN: seq<Builtin> :=
    [Archived, LimitExceeded, InsufficientFee, ContractDefined, InvalidAuth, OutsideFootprint, Trap, MissingAuth]

  const EXPIRED_MARKER := "signature has expired"
  const NONCE_MARKER := "nonce already exists for address"
  const UNAUTHORIZED_MARKER := "Unauthorized function call for address"
  const FOOTPRINT_MARKER := "outside of the footprint"
  const UNREACHABLE_MARKER := "UnreachableCodeReached"

  // ------------------------------------------------------ what the rules look at

  function ItemsOf(data: ScVal): seq<ScVal> {
    match data
    case VecVal(Some(items)) => items
    case _ => []
  }

  function AddressIn(data: ScVal): Option<ScAddress> {
    match At(ItemsOf(data), 1)
    case Some(AddressVal(a)) => Some(a)
    case _ => None
  }

  /** The current ledger and the expiration ledger of an expired signature. */
  function LedgersIn(data: ScVal): Option<(U32, U32)> {
    var current, expiry := At(ItemsOf(data), 2), At(ItemsOf(data), 3);
    if current.Some? && current.value.U32Val? && expiry.Some? && expiry.value.U32Val? then
      Some((current.value.u32, expiry.value.u32))
    else None
  }

  function AccessedKey(data: ScVal): Option<(ScAddress, ScVal)> {
    var key := At(ItemsOf(data), 2);
    if AddressIn(data).Some? && key.Some? then Some((AddressIn(data).value, key.value)) else None
  }

  /** Where an event's vector has the address, the ledgers and the key. */
  lemma DataIsRead(data: ScVal, a: ScAddress, current: U32, expiry: U32, k: ScVal)
    ensures AddressIn(data) == Some(a)
            <==> exists items :: data == VecVal(Some(items)) && |items| > 1 && items[1] == AddressVal(a)
    ensures LedgersIn(data) == Some((current, expiry))
            <==> exists items :: data == VecVal(Some(items)) && |items| > 3
                                 && items[2] == U32Val(current) && items[3] == U32Val(expiry)
    ensures AccessedKey(data) == Some((a, k))
            <==> exists items :: data == VecVal(Some(items)) && |items| > 2
                                 && items[1] == AddressVal(a) && items[2] == k
  {
    if data.VecVal? && data.items.Some? {
      assert data == VecVal(Some(data.items.value));
    }
  }

  /** `events[i]` satisfies `p` and nothing before it does. */
  ghost predicate IsFirst(events: seq<DiagEvent>, p: DiagEvent -> bool, i: nat) {
    i < |events| && p(events[i]) && forall j :: 0 <= j < i ==> !p(events[j])
  }

  function FirstWhere(events: seq<DiagEvent>, p: DiagEvent -> bool): (r: Option<nat>)
    ensures r.Some? ==> IsFirst(events, p, r.value)
    ensures r.None? ==> forall i :: 0 <= i < |events| ==> !p(events[i])
  {
    if events == [] then None
    else
      var n := |events| - 1;
      var earlier := FirstWhere(events[..n], p);
      if earlier.Some? then earlier else if p(events[n]) then Some(n) else None
  }

  predicate Holds(a: AuthEntry, address: ScAddress) {
    a.credentials.Address? && a.credentials.address == address
  }

  /** `auth[k]` is the first entry with credentials for the address. */
  ghost predicate FirstHolder(auth: seq<AuthEntry>, address: ScAddress, k: nat) {
    k < |auth| && Holds(auth[k], address) && forall j :: 0 <= j < k ==> !Holds(auth[j], address)
  }

  /** The first authorization entry with credentials for the address. */
  function EntryFor(auth: seq<AuthEntry>, address: ScAddress): (r: Option<AuthEntry>)
    ensures r.Some? ==> exists k: nat :: FirstHolder(auth, address, k) && r.value == auth[k]
    ensures r.None? ==> forall a :: a in auth ==> !Holds(a, address)
  {
    if auth == [] then None
    else if Holds(auth[0], address) then
      assert FirstHolder(auth, address, 0);
      Some(auth[0])
    else
      assert auth == [auth[0]] + auth[1..];
      assert forall k: nat :: FirstHolder(auth[1..], address, k) ==> FirstHolder(auth, address, k + 1);
      EntryFor(auth[1..], address)
  }

  predicate IsDeclared(k: LedgerKey, accessed: (ScAddress, ScVal)) {
    k.ContractData? && k.contract == accessed.0 && k.key == accessed.1
  }

  /** The entries of a footprint list that declare the key, under either durability. */
  function DeclaredIn(keys: seq<LedgerKey>, readWrite: bool, accessed: (ScAddress, ScVal)): (r: seq<Source>)
    ensures forall s :: s in r <==>
              exists i: nat :: i < |keys| && IsDeclared(keys[i], accessed) && s == FootprintAt(readWrite, i)
  {
    if keys == [] then []
    else
      var n := |keys| - 1;
      var earlier := DeclaredIn(keys[..n], readWrite, accessed);
      assert forall i: nat :: i < n ==> keys[..n][i] == keys[i];
      if IsDeclared(keys[n], accessed) then earlier + [FootprintAt(readWrite, n)] else earlier
  }

  function Declared(s: SorobanData, accessed: (ScAddress, ScVal)): seq<Source> {
    DeclaredIn(s.readOnly, false, accessed) + DeclaredIn(s.readWrite, true, accessed)
  }

  /** Whether the invocation ended with this error. */
  predicate EndedWith(m: TransactionModel, error: ScError) {
    m.diagnostics.terminal.Some? && m.diagnostics.terminal.value.error == error
  }

  /** The second citation: the terminal event, or else the error event again. */
  function EndCitation(m: TransactionModel, e: DiagEvent): Source
    requires e.kind.Error?
  {
    if EndedWith(m, e.kind.error) then EventAt(m.diagnostics.terminal.value.eventIndex) else EventAt(e.index)
  }

  // ------------------------------------------------------- rules on a result code

  /** The common gate: the stage and the failing operation's code must both agree. */
  function Gate(m: TransactionModel, wanted: FailureStage, code: string): Result<Source, RuleOutcome> {
    match m.outcome.stage
    case None => Err(NotApplicable)
    case Some(stage) =>
      if stage != wanted then Err(NotApplicable)
      else
        match m.outcome.failedOperation
        case None => Err(NoEvidence)
        case Some(op) => if op.code != code then Err(NoEvidence) else Ok(OperationAt(op.index))
  }

  function EvaluateArchived(m: TransactionModel): RuleOutcome {
    match Gate(m, StateArchival, "EntryArchived")
    case Err(outcome) => outcome
    case Ok(op) => Match(Cause(Archived, Confirmed, [op] + if m.soroban.Some? then [SorobanResources] else []))
  }

  function EvaluateLimitExceeded(m: TransactionModel): RuleOutcome {
    match Gate(m, ResourceLimit, "ResourceLimitExceeded")
    case Err(outcome) => outcome
    case Ok(op) =>
      var declared :=
        if m.soroban.None? then []
        else [SorobanResources] + if "cpu_insn" in m.coreMetrics then [ObservedResources] else [];
      var memory := if "mem_byte" in m.coreMetrics then [ObservedResources] else [];
      Match(Cause(LimitExceeded, Confirmed, [op] + declared + memory))
  }

  function EvaluateInsufficientFee(m: TransactionModel): RuleOutcome {
    if m.outcome.stage == Some(Fee) then NotApplicable
    else
      match Gate(m, ResourceFee, "InsufficientRefundableFee")
      case Err(outcome) => outcome
      case Ok(op) =>
        var declared := if m.soroban.Some? then [SorobanResources] else [];
        var charged := if m.feesCharged.Some? then [ObservedResources] else [];
        Match(Cause(InsufficientFee, Confirmed, [op] + declared + charged))
  }

  // ------------------------------------------------- rules on diagnostic events

  predicate IsAuthError(e: DiagEvent) {
    e.kind.Error? && e.kind.error.Auth?
  }

  predicate Says(e: DiagEvent, marker: string) {
    e.kind.Error? && e.kind.message.Some? && marker <= e.kind.message.value
  }

  /** An authorization error whose message this rule knows. */
  predicate IsInvalidAuth(e: DiagEvent) {
    IsAuthError(e) && (Says(e, EXPIRED_MARKER) || Says(e, NONCE_MARKER))
  }

  /** The envelope's entry carries the expiry the host checked, and it had passed. */
  predicate Corroborated(entry: Option<AuthEntry>, ledgers: Option<(U32, U32)>) {
    && entry.Some? && ledgers.Some?
    && ledgers.value.0 > ledgers.value.1
    && entry.value.credentials.Address?
    && entry.value.credentials.signatureExpirationLedger == ledgers.value.1
  }

  function InvalidAuthCause(m: TransactionModel, s: SorobanData, e: DiagEvent): Cause
    requires IsInvalidAuth(e)
  {
    var ended := EndedWith(m, e.kind.error);
    var address := AddressIn(e.data);
    var entry := if address.Some? then EntryFor(s.auth, address.value) else None;
    var ledgers := LedgersIn(e.data);
    var found := if entry.Some? then AuthEntryAt(entry.value.index) else EventAt(e.index);
    var evidence := [EventAt(e.index), EndCitation(m, e), found];
    if Says(e, EXPIRED_MARKER) then
      var corroborated := Corroborated(entry, ledgers);
      var confidence := if !ended then Possible else if corroborated then Confirmed else Likely;
      Cause(InvalidAuth, confidence,
            evidence + (if ledgers.Some? then [EventAt(e.index)] else [])
            + (if corroborated then [AuthEntryAt(entry.value.index)] else []))
    else
      Cause(InvalidAuth, if ended && entry.Some? then Likely else Possible, evidence)
  }

  function EvaluateInvalidAuth(m: TransactionModel): RuleOutcome {
    if m.outcome.stage.None? || m.soroban.None? || m.outcome.stage.value != ContractExecution then NotApplicable
    else if !m.diagnostics.emitted then NoEvidence
    else
      var events := m.diagnostics.events;
      if FirstWhere(events, IsAuthError).None? then
        if m.diagnostics.terminal.Some? then NotApplicable else NoEvidence
      else
        match FirstWhere(events, IsInvalidAuth)
        case None => NoEvidence
        case Some(i) => Match(InvalidAuthCause(m, m.soroban.value, events[i]))
  }

  /** A storage error whose message reports an access outside the footprint. */
  predicate IsOutside(e: DiagEvent) {
    && e.kind.Error? && e.kind.error.Storage?
    && e.kind.message.Some? && Contains(e.kind.message.value, FOOTPRINT_MARKER)
  }

  function OutsideCause(m: TransactionModel, s: SorobanData, e: DiagEvent): Cause
    requires IsOutside(e)
  {
    var ended := EndedWith(m, e.kind.error);
    var evidence := [EventAt(e.index), EndCitation(m, e)];
    match AccessedKey(e.data)
    case Some(accessed) =>
      var declared := Declared(s, accessed);
      if declared == [] then
        Cause(OutsideFootprint, if ended then Confirmed else Possible, evidence + [WholeFootprint])
      else Cause(OutsideFootprint, Possible, evidence + declared)
    case None => Cause(OutsideFootprint, if ended then Likely else Possible, evidence + [EventAt(e.index)])
  }

  function EvaluateOutsideFootprint(m: TransactionModel): RuleOutcome {
    if m.outcome.stage.None? || m.soroban.None? || m.outcome.stage.value != ContractExecution then NotApplicable
    else if !m.diagnostics.emitted then NoEvidence
    else
      match FirstWhere(m.diagnostics.events, IsOutside)
      case None => NoEvidence
      case Some(i) => Match(OutsideCause(m, m.soroban.value, m.diagnostics.events[i]))
  }

  predicate IsTrapOf(e: DiagEvent, error: ScError) {
    && e.kind.Error? && e.kind.error == error
    && e.kind.message.Some? && Contains(e.kind.message.value, UNREACHABLE_MARKER)
  }

  /** Whichever `WasmVm` code the trap carries. */
  function EvaluateTrap(m: TransactionModel): RuleOutcome {
    if m.outcome.stage.None? || m.outcome.stage.value != ContractExecution then NotApplicable
    else if !m.diagnostics.emitted then NoEvidence
    else
      match m.diagnostics.terminal
      case None => NoEvidence
      case Some(t) =>
        if !t.error.WasmVm? then NotApplicable
        else
          match FirstWhere(m.diagnostics.events, (e: DiagEvent) => IsTrapOf(e, t.error))
          case None => NoEvidence
          case Some(i) => Match(Cause(Trap, Likely, [EventAt(t.eventIndex), EventAt(m.diagnostics.events[i].index)]))
  }

  predicate IsUnauthorized(e: DiagEvent) {
    e.kind.Error? && e.kind.error == Auth(InvalidAction) && Says(e, UNAUTHORIZED_MARKER)
  }

  function MissingAuthOutcome(m: TransactionModel, s: SorobanData, e: DiagEvent): RuleOutcome
    requires IsUnauthorized(e)
  {
    var ended := EndedWith(m, e.kind.error);
    var address := AddressIn(e.data);
    if address.Some? && address.value.text == m.sourceAccount then NotApplicable
    else if address.Some? && EntryFor(s.auth, address.value).Some? then NoEvidence
    else
      Match(Cause(MissingAuth, if ended && address.Some? then Confirmed else Likely,
                  [EventAt(e.index), EndCitation(m, e)] + if address.Some? then [EventAt(e.index)] else []))
  }

  function EvaluateMissingAuth(m: TransactionModel): RuleOutcome {
    if m.outcome.stage.None? || m.soroban.None? || m.outcome.stage.value != ContractExecution then NotApplicable
    else if !m.diagnostics.emitted then NoEvidence
    else
      match FirstWhere(m.diagnostics.events, IsUnauthorized)
      case None => NoEvidence
      case Some(i) => MissingAuthOutcome(m, m.soroban.value, m.diagnostics.events[i])
  }

  // ------------------------------------------------------- the contract's own error

  function TerminalReport(reports: seq<Report>, code: U32): (r: Option<Report>)
    ensures r.Some? ==> r.value in reports && r.value.terminal && r.value.code == code
    ensures r.None? ==> forall rep :: rep in reports ==> !(rep.terminal && rep.code == code)
  {
    if reports == [] then None
    else if reports[0].terminal && reports[0].code == code then Some(reports[0])
    else
      assert reports == [reports[0]] + reports[1..];
      TerminalReport(reports[1..], code)
  }

  /** The first event cited other than the terminal one, if there is one. */
  function RaisedAt(indexes: seq<nat>, terminal: nat): (r: nat)
    ensures r in indexes || r == terminal
  {
    if indexes == [] then terminal
    else if indexes[0] != terminal then indexes[0]
    else RaisedAt(indexes[1..], terminal)
  }

  function SpecCitations(r: Resolution): seq<Source> {
    match r
    case Resolved(_, _, _, doc, _) => [SpecOfContract] + if doc != "" then [SpecOfContract] else []
    case ContractNotIdentified => []
    case _ => [SpecOfContract]
  }

  /** One citation for every code that was raised without ending the invocation. */
  function OtherCitations(reports: seq<Report>): seq<Source> {
    if reports == [] then []
    else
      var n := |reports| - 1;
      var rep := reports[n];
      OtherCitations(reports[..n])
      + if !rep.terminal && rep.eventIndexes != [] then [EventAt(rep.eventIndexes[0])] else []
  }

  lemma {:induction false} OtherCitationsAreReported(reports: seq<Report>)
    ensures forall s :: s in OtherCitations(reports) ==>
              s.EventAt? && exists rep :: rep in reports && s.index in rep.eventIndexes
  {
    if reports != [] {
      var n := |reports| - 1;
      OtherCitationsAreReported(reports[..n]);
      assert reports == reports[..n] + [reports[n]];
    }
  }

  function ContractErrorConfidence(rep: Report): Confidence {
    if rep.identification.Unique? && rep.resolution.Resolved?
       && rep.resolution.provenance.MatchesFootprint? then Confirmed
    else Likely
  }

  function ContractErrorCause(rep: Report, terminal: nat, reports: seq<Report>): Cause {
    Cause(ContractDefined, ContractErrorConfidence(rep),
          [EventAt(terminal), EventAt(RaisedAt(rep.eventIndexes, terminal))]
          + SpecCitations(rep.resolution) + OtherCitations(reports))
  }

  function EvaluateContractDefined(m: TransactionModel, reports: seq<Report>): RuleOutcome {
    if m.outcome.stage.None? || m.outcome.stage.value != ContractExecution then NotApplicable
    else if !m.diagnostics.emitted then NoEvidence
    else
      match m.diagnostics.terminal
      case None => NoEvidence
      case Some(t) =>
        if !t.error.Contract? then NotApplicable
        else
          match TerminalReport(reports, t.error.code)
          case None => NoEvidence
          case Some(rep) => Match(ContractErrorCause(rep, t.eventIndex, reports))
  }

  function Evaluate(rule: Builtin, m: TransactionModel, reports: seq<Report>): RuleOutcome {
    match rule
    case Archived => EvaluateArchived(m)
    case LimitExceeded => EvaluateLimitExceeded(m)
    case InsufficientFee => EvaluateInsufficientFee(m)
    case ContractDefined => EvaluateContractDefined(m, reports)
    case InvalidAuth => EvaluateInvalidAuth(m)
    case OutsideFootprint => EvaluateOutsideFootprint(m)
    case Trap => EvaluateTrap(m)
    case MissingAuth => EvaluateMissingAuth(m)
  }

  // ---------------------------------------------------------------- the code

  method OutsideFootprintRule(m: TransactionModel) returns (r: RuleOutcome)
    ensures r == EvaluateOutsideFootprint(m)
  {
    hide AccessedKey, IsDeclared;
    if m.outcome.stage.None? || m.soroban.None? || m.outcome.stage.value != ContractExecution {
      return NotApplicable;
    }
    if !m.diagnostics.emitted {
      return NoEvidence;
    }
    var s := m.soroban.value;
    var first := FirstWhere(m.diagnostics.events, IsOutside);
    if first.None? {
      return NoEvidence;
    }
    var e := m.diagnostics.events[first.value];
    var ended := EndedWith(m, e.kind.error);
    var evidence := [EventAt(e.index)];
    evidence := evidence + [EndCitation(m, e)];
    var accessed := AccessedKey(e.data);
    var confidence;
    if accessed.Some? {
      var declared: seq<Source> := [];
      for i := 0 to |s.readOnly|
        invariant declared == DeclaredIn(s.readOnly[..i], false, accessed.value)
      {
        assert s.readOnly[..i + 1][..i] == s.readOnly[..i];
        if IsDeclared(s.readOnly[i], accessed.value) {
          declared := declared + [FootprintAt(false, i)];
        }
      }
      assert s.readOnly[..|s.readOnly|] == s.readOnly;
      for i := 0 to |s.readWrite|
        invariant declared == DeclaredIn(s.readOnly, false, accessed.value)
                              + DeclaredIn(s.readWrite[..i], true, accessed.value)
      {
        assert s.readWrite[..i + 1][..i] == s.readWrite[..i];
        if IsDeclared(s.readWrite[i], accessed.value) {
          declared := declared + [FootprintAt(true, i)];
        }
      }
      assert s.readWrite[..|s.readWrite|] == s.readWrite;
      if declared == [] {
        evidence := evidence + [WholeFootprint];
        confidence := if ended then Confirmed else Possible;
      } else {
        for i := 0 to |declared|
          invariant evidence == [EventAt(e.index), EndCitation(m, e)] + declared[..i]
        {
          evidence := evidence + [declared[i]];
        }
        confidence := Possible;
      }
    } else {
      evidence := evidence + [EventAt(e.index)];
      confidence := if ended then Likely else Possible;
    }
    r := Match(Cause(OutsideFootprint, confidence, evidence));
  }

  method ContractDefinedRule(m: TransactionModel, reports: seq<Report>) returns (r: RuleOutcome)
    ensures r == EvaluateContractDefined(m, reports)
  {
    hide RaisedAt, TerminalReport, SpecCitations, ContractErrorConfidence;
    if m.outcome.stage.None? || m.outcome.stage.value != ContractExecution {
      return NotApplicable;
    }
    if !m.diagnostics.emitted || m.diagnostics.terminal.None? {
      return NoEvidence;
    }
    var t := m.diagnostics.terminal.value;
    if !t.error.Contract? {
      return NotApplicable;
    }
    var report := TerminalReport(reports, t.error.code);
    if report.None? {
      return NoEvidence;
    }
    var rep := report.value;
    var evidence := [EventAt(t.eventIndex)];
    evidence := evidence + [EventAt(RaisedAt(rep.eventIndexes, t.eventIndex))];
    evidence := evidence + SpecCitations(rep.resolution);
    ghost var before := evidence;
    for i := 0 to |reports|
      invariant evidence == before + OtherCitations(reports[..i])
    {
      assert reports[..i + 1][..i] == reports[..i];
      var other := reports[i];
      if !other.terminal && other.eventIndexes != [] {
        evidence := evidence + [EventAt(other.eventIndexes[0])];
      }
    }
    assert reports[..|reports|] == reports;
    r := Match(Cause(ContractDefined, ContractErrorConfidence(rep), evidence));
  }
}
