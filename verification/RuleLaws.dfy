/**
 What holds of all eight rules together, for every input: when a cause may be
 called confirmed, which causes can be confirmed together, and that every
 citation points at something that is there.
 */
module RuleLaws {
  import opened Common
  import opened Soroban
  import opened Events
  import opened CallTree
  import opened Outcomes
  import opened Model
  import opened Resolve
  import opened Rules

  predicate Confirms(rule: Builtin, m: TransactionModel, reports: seq<Report>) {
    Evaluate(rule, m, reports).Match? && Evaluate(rule, m, reports).cause.confidence.Confirmed?
  }

  /** What the rule cites first, if it matches. */
  function FirstCitation(rule: Builtin, m: TransactionModel, reports: seq<Report>): Option<Source> {
    match Evaluate(rule, m, reports)
    case Match(cause) => if cause.evidence == [] then None else Some(cause.evidence[0])
    case _ => None
  }

  // ------------------------------------------------------- rules on a result code

  predicate IsGated(rule: Builtin) {
    rule.Archived? || rule.LimitExceeded? || rule.InsufficientFee?
  }

  function StageOf(rule: Builtin): FailureStage {
    match rule
    case Archived => StateArchival
    case LimitExceeded => ResourceLimit
    case InsufficientFee => ResourceFee
    case _ => ContractExecution
  }

  /** The outcome names the result code its stage stands for. */
  predicate Agrees(o: Outcome) {
    o.stage.Some? && CodeOf(o.stage.value).Some? ==>
      o.failedOperation.Some? && CodeOf(o.stage.value) == Some(o.failedOperation.value.code)
  }

  /** A rule on a result code matches exactly at its stage, and then always confirms. */
  lemma GatedRulesMatchTheirStage(rule: Builtin, m: TransactionModel, reports: seq<Report>)
    requires IsGated(rule) && Agrees(m.outcome)
    ensures Evaluate(rule, m, reports).Match? <==> m.outcome.stage == Some(StageOf(rule))
    ensures Evaluate(rule, m, reports).Match? ==>
              && Confirms(rule, m, reports)
              && m.outcome.failedOperation.Some?
              && FirstCitation(rule, m, reports) == Some(OperationAt(m.outcome.failedOperation.value.index))
  {
  }

  /** The other rules concern contract execution only. */
  lemma OthersMatchInExecution(rule: Builtin, m: TransactionModel, reports: seq<Report>)
    requires !IsGated(rule) && !Evaluate(rule, m, reports).NotApplicable?
    ensures m.outcome.stage == Some(ContractExecution)
  {
  }

  // --------------------------------------------------- exactly when each confirms

  ghost predicate InExecution(m: TransactionModel) {
    m.outcome.stage == Some(ContractExecution) && m.diagnostics.emitted
  }

  lemma EntryForIsFirst(auth: seq<AuthEntry>, address: ScAddress, k: nat)
    requires FirstHolder(auth, address, k)
    ensures EntryFor(auth, address) == Some(auth[k])
  {
    assert auth[k] in auth;
  }

  /** The first failure the rule knows is an expiry the envelope itself bears out, and it ended the invocation. */
  ghost predicate ExpiryProven(m: TransactionModel, i: nat, k: nat) {
    var events := m.diagnostics.events;
    && m.soroban.Some?
    && IsFirst(events, IsInvalidAuth, i) && Says(events[i], EXPIRED_MARKER)
    && EndedWith(m, events[i].kind.error)
    && AddressIn(events[i].data).Some? && FirstHolder(m.soroban.value.auth, AddressIn(events[i].data).value, k)
    && LedgersIn(events[i].data).Some?
    && var (current, expiry) := LedgersIn(events[i].data).value;
       current > expiry && m.soroban.value.auth[k].credentials.signatureExpirationLedger == expiry
  }

  lemma ExpiryConfirmsExactly(m: TransactionModel, reports: seq<Report>)
    ensures Confirms(InvalidAuth, m, reports) <==> InExecution(m) && exists i: nat, k: nat :: ExpiryProven(m, i, k)
  {
    hide LedgersIn, AddressIn, Says;
    var events := m.diagnostics.events;
    var first := FirstWhere(events, IsInvalidAuth);
    if InExecution(m) && exists i: nat, k: nat :: ExpiryProven(m, i, k) {
      var i: nat, k: nat :| ExpiryProven(m, i, k);
      assert first == Some(i);
      EntryForIsFirst(m.soroban.value.auth, AddressIn(events[i].data).value, k);
    }
    if Confirms(InvalidAuth, m, reports) {
      var i := first.value;
      var k: nat :| FirstHolder(m.soroban.value.auth, AddressIn(events[i].data).value, k);
      EntryForIsFirst(m.soroban.value.auth, AddressIn(events[i].data).value, k);
      assert ExpiryProven(m, i, k);
    }
  }

  /** The first access outside the footprint ended the invocation, and no entry declares its key. */
  ghost predicate AbsenceProven(m: TransactionModel, i: nat) {
    var events := m.diagnostics.events;
    && m.soroban.Some?
    && IsFirst(events, IsOutside, i)
    && EndedWith(m, events[i].kind.error)
    && AccessedKey(events[i].data).Some?
    && NotDeclared(m.soroban.value, AccessedKey(events[i].data).value)
  }

  ghost predicate NotDeclared(s: SorobanData, accessed: (ScAddress, ScVal)) {
    && (forall k :: k in s.readOnly ==> !IsDeclared(k, accessed))
    && (forall k :: k in s.readWrite ==> !IsDeclared(k, accessed))
  }

  lemma DeclaredIsExact(s: SorobanData, accessed: (ScAddress, ScVal))
    ensures Declared(s, accessed) == [] <==> NotDeclared(s, accessed)
  {
    hide IsDeclared;
    var (ro, rw) := (DeclaredIn(s.readOnly, false, accessed), DeclaredIn(s.readWrite, true, accessed));
    if ro != [] {
      assert ro[0] in ro;
    }
    if rw != [] {
      assert rw[0] in rw;
    }
    forall k | k in s.readOnly && IsDeclared(k, accessed)
      ensures ro != []
    {
      var i: nat :| i < |s.readOnly| && s.readOnly[i] == k;
      assert FootprintAt(false, i) in ro;
    }
    forall k | k in s.readWrite && IsDeclared(k, accessed)
      ensures rw != []
    {
      var i: nat :| i < |s.readWrite| && s.readWrite[i] == k;
      assert FootprintAt(true, i) in rw;
    }
  }

  lemma AbsenceConfirmsExactly(m: TransactionModel, reports: seq<Report>)
    ensures Confirms(OutsideFootprint, m, reports) <==> InExecution(m) && exists i: nat :: AbsenceProven(m, i)
  {
    hide AccessedKey, IsOutside, Declared, NotDeclared;
    var first := FirstWhere(m.diagnostics.events, IsOutside);
    if m.soroban.Some? && first.Some? {
      var accessed := AccessedKey(m.diagnostics.events[first.value].data);
      if accessed.Some? {
        DeclaredIsExact(m.soroban.value, accessed.value);
      }
      assert forall i: nat :: IsFirst(m.diagnostics.events, IsOutside, i) ==> i == first.value;
    }
    if Confirms(OutsideFootprint, m, reports) {
      assert AbsenceProven(m, first.value);
    }
  }

  /** The first rejection ended the invocation, for a third party the envelope has no credentials for. */
  ghost predicate MissingProven(m: TransactionModel, i: nat) {
    var events := m.diagnostics.events;
    && m.soroban.Some?
    && IsFirst(events, IsUnauthorized, i)
    && EndedWith(m, events[i].kind.error)
    && AddressIn(events[i].data).Some?
    && AddressIn(events[i].data).value.text != m.sourceAccount
    && forall a :: a in m.soroban.value.auth ==> !Holds(a, AddressIn(events[i].data).value)
  }

  lemma MissingConfirmsExactly(m: TransactionModel, reports: seq<Report>)
    ensures Confirms(MissingAuth, m, reports) <==> InExecution(m) && exists i: nat :: MissingProven(m, i)
  {
    hide AddressIn, IsUnauthorized;
    var first := FirstWhere(m.diagnostics.events, IsUnauthorized);
    assert first.Some? ==> forall i: nat :: IsFirst(m.diagnostics.events, IsUnauthorized, i) ==> i == first.value;
    if Confirms(MissingAuth, m, reports) {
      assert IsUnauthorized(m.diagnostics.events[first.value]);
      assert MissingProven(m, first.value);
    }
  }

  lemma TrapNeverConfirms(m: TransactionModel, reports: seq<Report>)
    ensures !Confirms(Trap, m, reports)
  {
  }

  lemma TerminalReportIs(m: TransactionModel, specs: Specs, code: U32)
    requires TerminalCode(m.diagnostics.terminal) == Some(code)
    ensures TerminalReport(Reports(m, specs), code) == Some(ReportOf(m, specs, code))
  {
    hide Identify, ResolveOne, Loaded, IndexesOf, Codes;
    var reports := Reports(m, specs);
    ReportsCoverTheCodes(m, specs);
    assert code in Codes(m);
    var k :| 0 <= k < |Codes(m)| && Codes(m)[k] == code;
    assert reports[k] == ReportOf(m, specs, code);
    assert reports[k] in reports;
    var found := TerminalReport(reports, code);
    var j :| 0 <= j < |reports| && reports[j] == found.value;
    assert reports[j] == ReportOf(m, specs, Codes(m)[j]);
  }

  /** The terminal code has a name, and the spec it comes from is for code this transaction loaded. */
  ghost predicate NameProven(m: TransactionModel, specs: Specs, name: string, c: ContractId) {
    && TerminalCode(m.diagnostics.terminal).Some?
    && EarnsNameFrom(m, specs, TerminalCode(m.diagnostics.terminal).value, name, c)
    && specs[c].spec.wasmHash.Some? && Loaded(m).Some? && Loaded(m).value != []
  }

  lemma NameConfirmsExactly(m: TransactionModel, specs: Specs)
    ensures Confirms(ContractDefined, m, Reports(m, specs))
            <==> InExecution(m) && exists name, c :: NameProven(m, specs, name, c)
  {
    var reports := Reports(m, specs);
    var terminal := TerminalCode(m.diagnostics.terminal);
    if terminal.Some? {
      var rep := ReportOf(m, specs, terminal.value);
      TerminalReportIs(m, specs, terminal.value);
      hide Reports, ReportOf, EarnsNameFrom;
      assert Confirms(ContractDefined, m, reports) <==> InExecution(m) && ContractErrorConfidence(rep).Confirmed?;
      if ContractErrorConfidence(rep).Confirmed? {
        NameNeedsProof(m, specs, terminal.value);
        assert NameProven(m, specs, rep.resolution.caseName, rep.resolution.contract);
      }
      if name, c :| NameProven(m, specs, name, c) {
        NameIsProof(m, specs, terminal.value, name, c);
      }
    }
  }

  lemma NameNeedsProof(m: TransactionModel, specs: Specs, code: U32)
    requires ContractErrorConfidence(ReportOf(m, specs, code)).Confirmed?
    ensures var r := ReportOf(m, specs, code).resolution;
            && EarnsNameFrom(m, specs, code, r.caseName, r.contract)
            && specs[r.contract].spec.wasmHash.Some? && Loaded(m).Some? && Loaded(m).value != []
  {
    hide Identify, LookUp, Loaded, IndexesOf, CandidateNames;
    var r := ReportOf(m, specs, code).resolution;
    NamesAreEarned(m, specs, code, r.caseName, r.contract);
  }

  lemma NameIsProof(m: TransactionModel, specs: Specs, code: U32, name: string, c: ContractId)
    requires EarnsNameFrom(m, specs, code, name, c)
    requires specs[c].spec.wasmHash.Some? && Loaded(m).Some? && Loaded(m).value != []
    ensures ContractErrorConfidence(ReportOf(m, specs, code)).Confirmed?
  {
    NamesAreEarned(m, specs, code, name, c);
    hide Identify, LookUp, Loaded, IndexesOf, CandidateNames, EarnsNameFrom;
  }

  // ------------------------------------------------- exactly when each rule matches

  ghost predicate SomeEvent(m: TransactionModel, p: DiagEvent -> bool) {
    exists i :: 0 <= i < |m.diagnostics.events| && p(m.diagnostics.events[i])
  }

  /** The first rejection is of a third party without credentials, as far as its event says. */
  ghost predicate ThirdParty(m: TransactionModel, i: nat) {
    && m.soroban.Some? && IsFirst(m.diagnostics.events, IsUnauthorized, i)
    && match AddressIn(m.diagnostics.events[i].data) {
         case Some(a) => a.text != m.sourceAccount && forall x :: x in m.soroban.value.auth ==> !Holds(x, a)
         case None => true
       }
  }

  /** The evidence a rule fires on. */
  ghost predicate Fires(rule: Builtin, m: TransactionModel) {
    match rule
    case ContractDefined => InExecution(m) && TerminalCode(m.diagnostics.terminal).Some?
    case InvalidAuth => InExecution(m) && m.soroban.Some? && SomeEvent(m, IsInvalidAuth)
    case OutsideFootprint => InExecution(m) && m.soroban.Some? && SomeEvent(m, IsOutside)
    case Trap =>
      && InExecution(m) && m.diagnostics.terminal.Some? && m.diagnostics.terminal.value.error.WasmVm?
      && SomeEvent(m, (e: DiagEvent) => IsTrapOf(e, m.diagnostics.terminal.value.error))
    case MissingAuth => InExecution(m) && exists i: nat :: ThirdParty(m, i)
    case _ => m.outcome.stage == Some(StageOf(rule))
  }

  lemma MissingAuthMatches(m: TransactionModel, reports: seq<Report>)
    ensures Evaluate(MissingAuth, m, reports).Match? <==> Fires(MissingAuth, m)
  {
    hide AddressIn, IsUnauthorized;
    var first := FirstWhere(m.diagnostics.events, IsUnauthorized);
    assert first.Some? ==> forall i: nat :: IsFirst(m.diagnostics.events, IsUnauthorized, i) ==> i == first.value;
    if Evaluate(MissingAuth, m, reports).Match? {
      assert ThirdParty(m, first.value);
    }
  }

  /** Each rule matches exactly on its evidence. */
  lemma MatchesExactly(rule: Builtin, m: TransactionModel, specs: Specs)
    requires Agrees(m.outcome)
    ensures Evaluate(rule, m, Reports(m, specs)).Match? <==> Fires(rule, m)
  {
    var reports := Reports(m, specs);
    match rule
    case ContractDefined =>
      if TerminalCode(m.diagnostics.terminal).Some? {
        TerminalReportIs(m, specs, TerminalCode(m.diagnostics.terminal).value);
      }
      hide Reports, ReportOf;
    case InvalidAuth =>
      hide Reports;
      InvalidAuthMatches(m, reports);
    case OutsideFootprint =>
      hide Reports, AccessedKey, Declared;
    case Trap =>
      hide Reports;
    case MissingAuth =>
      MissingAuthMatches(m, reports);
    case _ =>
      GatedRulesMatchTheirStage(rule, m, reports);
  }

  lemma InvalidAuthMatches(m: TransactionModel, reports: seq<Report>)
    ensures Evaluate(InvalidAuth, m, reports).Match? <==> Fires(InvalidAuth, m)
  {
    hide EntryFor, Corroborated, LedgersIn, AddressIn, Says;
  }

  /** The event a rule on a raised error rests on. */
  function Basis(rule: Builtin, events: seq<DiagEvent>): Option<nat> {
    match rule
    case InvalidAuth => FirstWhere(events, IsInvalidAuth)
    case OutsideFootprint => FirstWhere(events, IsOutside)
    case MissingAuth => FirstWhere(events, IsUnauthorized)
    case _ => None
  }

  /** What a rule that matched without confirming could not establish. */
  lemma WeakerConfidence(rule: Builtin, m: TransactionModel, reports: seq<Report>)
    requires Evaluate(rule, m, reports).Match? && rule in {InvalidAuth, OutsideFootprint, MissingAuth}
    ensures var confidence := Evaluate(rule, m, reports).cause.confidence;
            var e := m.diagnostics.events[Basis(rule, m.diagnostics.events).value];
            var ended := EndedWith(m, e.kind.error);
            var held := AddressIn(e.data).Some?
                        && exists a :: a in m.soroban.value.auth && Holds(a, AddressIn(e.data).value);
            match rule {
              case InvalidAuth => confidence.Possible? <==> !ended || !(Says(e, EXPIRED_MARKER) || held)
              case OutsideFootprint =>
                && (confidence.Likely? <==> ended && AccessedKey(e.data).None?)
                && (confidence.Possible? <==>
                      !ended || (AccessedKey(e.data).Some? && !NotDeclared(m.soroban.value, AccessedKey(e.data).value)))
              case _ => confidence.Likely? <==> !(ended && AddressIn(e.data).Some?)
            }
  {
    match rule
    case InvalidAuth =>
      hide AddressIn, LedgersIn, Says;
    case OutsideFootprint =>
      var accessed := AccessedKey(m.diagnostics.events[FirstWhere(m.diagnostics.events, IsOutside).value].data);
      if accessed.Some? {
        DeclaredIsExact(m.soroban.value, accessed.value);
      }
      hide AccessedKey, Declared, NotDeclared, AddressIn;
    case _ =>
      hide AddressIn;
  }

  /** The other rules have one confidence, or two. */
  lemma OtherConfidence(rule: Builtin, m: TransactionModel, reports: seq<Report>)
    requires Evaluate(rule, m, reports).Match?
    ensures var confidence := Evaluate(rule, m, reports).cause.confidence;
            && (IsGated(rule) ==> confidence.Confirmed?)
            && (rule == Trap ==> confidence.Likely?)
            && (rule == ContractDefined ==> confidence.Confirmed? || confidence.Likely?)
  {
    hide InvalidAuthCause, OutsideCause, MissingAuthOutcome;
  }

  // ---------------------------------------------------------- confirmed is earned

  /** The error an event reports, raised or final. */
  function ErrorOn(e: DiagEvent): Option<ScError> {
    match e.kind
    case Error(error, _) => Some(error)
    case HostFnFailed(error) => Some(error)
    case _ => None
  }

  /** The terminal event is there, and is where the diagnostics say it is. */
  lemma TerminalIsThere(m: TransactionModel, results: nat)
    requires Consistent(m, results) && m.diagnostics.terminal.Some?
    ensures var t := m.diagnostics.terminal.value;
            t.eventIndex < |m.diagnostics.events| && m.diagnostics.events[t.eventIndex].kind == HostFnFailed(t.error)
  {
  }

  lemma ConfirmedCitesItsBasis(rule: Builtin, m: TransactionModel, reports: seq<Report>)
    requires rule in {InvalidAuth, OutsideFootprint, MissingAuth} && Confirms(rule, m, reports)
    ensures var events := m.diagnostics.events;
            && Basis(rule, events).Some? && Basis(rule, events).value < |events|
            && var e := events[Basis(rule, events).value];
               && e.kind.Error? && EndedWith(m, e.kind.error)
               && FirstCitation(rule, m, reports) == Some(EventAt(e.index))
  {
    hide EntryFor, Declared, AccessedKey, Corroborated, Says;
  }

  /** In contract execution, confirming takes the very error that ended the invocation. */
  lemma ConfirmedCitesTheTerminalError(rule: Builtin, m: TransactionModel, results: nat, specs: Specs)
    requires Consistent(m, results) && Confirms(rule, m, Reports(m, specs)) && !IsGated(rule)
    ensures m.diagnostics.terminal.Some?
    ensures exists i: nat :: i < |m.diagnostics.events|
                             && FirstCitation(rule, m, Reports(m, specs)) == Some(EventAt(i))
                             && ErrorOn(m.diagnostics.events[i]) == Some(m.diagnostics.terminal.value.error)
  {
    var reports := Reports(m, specs);
    hide Reports;
    TrapNeverConfirms(m, reports);
    if rule.ContractDefined? {
      TerminalIsThere(m, results);
      assert FirstCitation(rule, m, reports) == Some(EventAt(m.diagnostics.terminal.value.eventIndex));
    } else {
      ConfirmedCitesItsBasis(rule, m, reports);
      Numbered(m, results, Basis(rule, m.diagnostics.events).value);
      hide Confirms, FirstCitation, Consistent, Basis;
      assert ErrorOn(m.diagnostics.events[Basis(rule, m.diagnostics.events).value])
          == Some(m.diagnostics.terminal.value.error);
    }
  }

  lemma Numbered(m: TransactionModel, results: nat, i: nat)
    requires Consistent(m, results) && i < |m.diagnostics.events|
    ensures m.diagnostics.events[i].index == i
  {
  }

  /**
   Confirmed is earned: at any other stage only that stage's result-code rule
   can confirm, and in contract execution no rule can without a terminal error,
   or on an event that reports another error.
   */
  lemma ConfirmedIsEarned(input: Input, specs: Specs, rule: Builtin)
    requires Confirms(rule, FromInput(input), Reports(FromInput(input), specs))
    ensures var m := FromInput(input);
            && m.outcome.stage == Some(StageOf(rule))
            && (m.outcome.stage == Some(ContractExecution) ==>
                  && m.diagnostics.terminal.Some?
                  && exists i: nat :: i < |m.diagnostics.events|
                                      && FirstCitation(rule, m, Reports(m, specs)) == Some(EventAt(i))
                                      && ErrorOn(m.diagnostics.events[i]) == Some(m.diagnostics.terminal.value.error))
  {
    var m := FromInput(input);
    FromInputIsConsistent(input);
    FromInputAgrees(input);
    hide FromInput, Reports, Consistent, Agrees, Confirms, FirstCitation, Evaluate;
    var reports := Reports(m, specs);
    ConfirmingNeeds(rule, m, reports);
    if !IsGated(rule) {
      ConfirmedCitesTheTerminalError(rule, m, |OperationsOf(input.result.result)|, specs);
    }
  }

  lemma FromInputAgrees(input: Input)
    ensures Agrees(FromInput(input).outcome)
  {
    hide ClassifyResult, FromEvents, CoreMetrics, AuthOf;
    StageNamesTheCode(input.result);
  }

  // ----------------------------------------------------------- confirmed together

  /** The kind of error that has to end the invocation for the rule to confirm. */
  predicate ErrorFits(rule: Builtin, error: ScError) {
    match rule
    case ContractDefined => error.Contract?
    case InvalidAuth => error.Auth?
    case OutsideFootprint => error.Storage?
    case MissingAuth => error == Auth(InvalidAction)
    case _ => false
  }

  lemma ConfirmedFitsTheTerminalError(rule: Builtin, m: TransactionModel, reports: seq<Report>)
    requires Confirms(rule, m, reports) && !IsGated(rule)
    ensures m.diagnostics.terminal.Some? && ErrorFits(rule, m.diagnostics.terminal.value.error)
  {
    hide Declared, EntryFor, AccessedKey, Corroborated;
  }

  /** No message starts with the markers of both authorization rules. */
  lemma MarkersExclude(message: string)
    ensures !(UNAUTHORIZED_MARKER <= message && (EXPIRED_MARKER <= message || NONCE_MARKER <= message))
  {
    if UNAUTHORIZED_MARKER <= message {
      assert message[0] == 'U';
    }
    if EXPIRED_MARKER <= message {
      assert message[0] == 's';
    }
    if NONCE_MARKER <= message {
      assert message[0] == 'n';
    }
  }

  /** What a confirming rule says about the stage and the error that ended the invocation. */
  lemma ConfirmingNeeds(rule: Builtin, m: TransactionModel, reports: seq<Report>)
    requires Agrees(m.outcome) && Confirms(rule, m, reports)
    ensures m.outcome.stage == Some(StageOf(rule))
    ensures !IsGated(rule) ==> m.diagnostics.terminal.Some? && ErrorFits(rule, m.diagnostics.terminal.value.error)
  {
    if IsGated(rule) {
      GatedRulesMatchTheirStage(rule, m, reports);
    } else {
      OthersMatchInExecution(rule, m, reports);
      ConfirmedFitsTheTerminalError(rule, m, reports);
    }
  }

  lemma OnlyAuthRulesFitTogether(
    rule: Builtin, other: Builtin, stage: Option<FailureStage>, terminal: Option<TerminalError>)
    requires rule != other && stage == Some(StageOf(rule)) == Some(StageOf(other))
    requires !IsGated(rule) ==> terminal.Some? && ErrorFits(rule, terminal.value.error)
    requires !IsGated(other) ==> terminal.Some? && ErrorFits(other, terminal.value.error)
    ensures (rule == InvalidAuth && other == MissingAuth) || (rule == MissingAuth && other == InvalidAuth)
  {
  }

  /** Two rules confirm together only if they are the authorization rules, on different events. */
  lemma ConfirmedTogether(m: TransactionModel, results: nat, specs: Specs, rule: Builtin, other: Builtin)
    requires Consistent(m, results) && Agrees(m.outcome) && rule != other
    requires Confirms(rule, m, Reports(m, specs)) && Confirms(other, m, Reports(m, specs))
    ensures {rule, other} == {InvalidAuth, MissingAuth}
    ensures var reports := Reports(m, specs);
            FirstCitation(rule, m, reports) != FirstCitation(other, m, reports)
  {
    var reports := Reports(m, specs);
    ConfirmingNeeds(rule, m, reports);
    ConfirmingNeeds(other, m, reports);
    hide *;
    OnlyAuthRulesFitTogether(rule, other, m.outcome.stage, m.diagnostics.terminal);
    AuthRulesDiffer(m, results, reports);
  }

  lemma AuthRulesDiffer(m: TransactionModel, results: nat, reports: seq<Report>)
    requires Consistent(m, results)
    requires Confirms(InvalidAuth, m, reports) && Confirms(MissingAuth, m, reports)
    ensures FirstCitation(InvalidAuth, m, reports) != FirstCitation(MissingAuth, m, reports)
  {
    hide Consistent, EntryFor, Corroborated, IsAuthError, AddressIn;
    var i := FirstWhere(m.diagnostics.events, IsInvalidAuth).value;
    var j := FirstWhere(m.diagnostics.events, IsUnauthorized).value;
    Numbered(m, results, i);
    Numbered(m, results, j);
    MarkersExclude(m.diagnostics.events[i].kind.message.value);
  }

  /**
   The two rules confirm together exactly on a proven expiry and a proven
   rejection, so on two errors of the one kind that ended the invocation.
   */
  lemma BothConfirmExactly(m: TransactionModel, reports: seq<Report>)
    ensures Confirms(InvalidAuth, m, reports) && Confirms(MissingAuth, m, reports)
            <==> InExecution(m) && exists i: nat, j: nat, k: nat :: ExpiryProven(m, i, k) && MissingProven(m, j)
    ensures forall i: nat, j: nat, k: nat :: ExpiryProven(m, i, k) && MissingProven(m, j) ==>
              m.diagnostics.events[i].kind.error == Auth(InvalidAction)
  {
    ExpiryConfirmsExactly(m, reports);
    MissingConfirmsExactly(m, reports);
    hide Confirms;
    forall i: nat, j: nat, k: nat | ExpiryProven(m, i, k) && MissingProven(m, j)
      ensures m.diagnostics.events[i].kind.error == Auth(InvalidAction)
    {
    }
    hide ExpiryProven, MissingProven;
  }

  /** The first failure the rule knows, if an expiry, has the code `InvalidAuthorizationEntry` documents for it. */
  ghost predicate ExpiryDocumented(events: seq<DiagEvent>) {
    forall i: nat :: IsFirst(events, IsInvalidAuth, i) && Says(events[i], EXPIRED_MARKER) ==>
      events[i].kind.error == Auth(InvalidInput)
  }

  lemma DocumentedExpiry(m: TransactionModel, reports: seq<Report>)
    requires ExpiryDocumented(m.diagnostics.events)
    ensures !Confirms(InvalidAuth, m, reports) || !Confirms(MissingAuth, m, reports)
  {
    BothConfirmExactly(m, reports);
    hide Confirms, EndedWith, MissingProven, IsFirst, Says, AddressIn, LedgersIn;
  }

  /** With the first expiry on its documented code, at most one rule confirms. */
  lemma DocumentedMarkersExclude(m: TransactionModel, results: nat, specs: Specs, rule: Builtin, other: Builtin)
    requires Consistent(m, results) && Agrees(m.outcome) && rule != other
    requires Confirms(rule, m, Reports(m, specs)) && ExpiryDocumented(m.diagnostics.events)
    ensures !Confirms(other, m, Reports(m, specs))
  {
    hide *;
    var reports := Reports(m, specs);
    if Confirms(other, m, reports) {
      ConfirmedTogether(m, results, specs, rule, other);
      BothInOrder(m, reports, rule, other);
    }
    DocumentedExpiry(m, reports);
  }

  lemma BothInOrder(m: TransactionModel, reports: seq<Report>, rule: Builtin, other: Builtin)
    requires {rule, other} == {InvalidAuth, MissingAuth} && Confirms(rule, m, reports) && Confirms(other, m, reports)
    ensures Confirms(InvalidAuth, m, reports) && Confirms(MissingAuth, m, reports)
  {
    hide *;
    assert rule in {rule, other} && other in {rule, other};
    assert InvalidAuth in {rule, other} && MissingAuth in {rule, other};
  }

  // ---------------------------------------------------------- a pair that confirms

  /** An error raised with a message and an address, as the host records it. */
  function RaisedFor(error: ScError, message: string, rest: seq<ScVal>): RawEvent {
    RawEvent(None, [SymbolVal("error"), ErrorVal(error)], VecVal(Some([StringVal(message)] + rest)))
  }

  /** An expired signature for one address and a missing entry for another, both `Error(Auth, InvalidAction)`. */
  function BothAuthProblems(expired: ScAddress, missing: ScAddress): Input {
    var error := Auth(InvalidAction);
    Input("", [InvokeOperation([Address(expired, 0, 5)])], Some(Footprint([], [])),
          TransactionResult(0, Outer.TxFailed([OpInner(InvokeHostFunction(Trapped))])),
          [RaisedFor(error, EXPIRED_MARKER, [AddressVal(expired), U32Val(9), U32Val(5)]),
           RaisedFor(error, UNAUTHORIZED_MARKER, [AddressVal(missing)]),
           RawEvent(None, [SymbolVal("host_fn_failed"), ErrorVal(error)], VoidVal)],
          true, None)
  }

  /** The two authorization rules really can confirm together. */
  lemma BothAuthRulesCanConfirm(expired: ScAddress, missing: ScAddress, specs: Specs)
    requires expired != missing && missing.text != ""
    ensures var m := FromInput(BothAuthProblems(expired, missing));
            Confirms(InvalidAuth, m, Reports(m, specs)) && Confirms(MissingAuth, m, Reports(m, specs))
  {
    var m := FromInput(BothAuthProblems(expired, missing));
    BothModel(expired, missing);
    BothEvents(expired, missing);
    hide *;
    BothProven(m, expired, missing);
    BothConfirm(m, Reports(m, specs));
  }

  lemma BothConfirm(m: TransactionModel, reports: seq<Report>)
    requires InExecution(m) && ExpiryProven(m, 0, 0) && MissingProven(m, 1)
    ensures Confirms(InvalidAuth, m, reports) && Confirms(MissingAuth, m, reports)
  {
    ExpiryConfirmsExactly(m, reports);
    MissingConfirmsExactly(m, reports);
    hide Confirms, ExpiryProven, MissingProven;
  }

  lemma BothModel(expired: ScAddress, missing: ScAddress)
    ensures var input := BothAuthProblems(expired, missing);
            var m := FromInput(input);
            && InExecution(m)
            && m.soroban == Some(SorobanData([AuthEntry(0, Address(expired, 0, 5))], [], []))
            && m.sourceAccount == ""
            && m.diagnostics.events == ClassifyFrom(input.events, 0)
            && m.diagnostics.terminal == TerminalOf(m.diagnostics.events)
  {
    hide Classify, Reconstruct, TerminalOf, CoreMetrics;
    BothOutcome(expired, missing);
    hide ClassifyResult, AuthOf;
  }

  lemma BothProven(m: TransactionModel, expired: ScAddress, missing: ScAddress)
    requires expired != missing && missing.text != m.sourceAccount
    requires InExecution(m) && m.soroban == Some(SorobanData([AuthEntry(0, Address(expired, 0, 5))], [], []))
    requires BothRaised(m.diagnostics.events, expired, missing)
    requires m.diagnostics.terminal == Some(TerminalError(Auth(InvalidAction), 2))
    ensures ExpiryProven(m, 0, 0) && MissingProven(m, 1)
  {
    hide AddressIn, LedgersIn;
    MarkersExclude(EXPIRED_MARKER);
  }

  ghost predicate BothRaised(events: seq<DiagEvent>, expired: ScAddress, missing: ScAddress) {
    && |events| == 3
    && events[0].kind == Error(Auth(InvalidAction), Some(EXPIRED_MARKER))
    && AddressIn(events[0].data) == Some(expired) && LedgersIn(events[0].data) == Some((9, 5))
    && events[1].kind == Error(Auth(InvalidAction), Some(UNAUTHORIZED_MARKER))
    && AddressIn(events[1].data) == Some(missing)
  }

  lemma RaisedIs(error: ScError, message: string, rest: seq<ScVal>, index: nat)
    ensures var e := Classify(index, RaisedFor(error, message, rest));
            && e.kind == Error(error, Some(message))
            && ItemsOf(e.data) == [StringVal(message)] + rest
  {
  }

  lemma EndedIs(error: ScError, index: nat)
    ensures Classify(index, RawEvent(None, [SymbolVal("host_fn_failed"), ErrorVal(error)], VoidVal))
            == DiagEvent(index, None, HostFnFailed(error), VoidVal)
  {
  }

  lemma BothEvents(expired: ScAddress, missing: ScAddress)
    ensures var events := ClassifyFrom(BothAuthProblems(expired, missing).events, 0);
            && BothRaised(events, expired, missing)
            && TerminalOf(events) == Some(TerminalError(Auth(InvalidAction), 2))
  {
    var events := ClassifyFrom(BothAuthProblems(expired, missing).events, 0);
    var error := Auth(InvalidAction);
    RaisedIs(error, EXPIRED_MARKER, [AddressVal(expired), U32Val(9), U32Val(5)], 0);
    RaisedIs(error, UNAUTHORIZED_MARKER, [AddressVal(missing)], 1);
    EndedIs(error, 2);
    hide Classify, RaisedFor, ItemsOf;
    assert events[1..][0] == events[1] && events[1..][1..][0] == events[2];
  }

  lemma BothOutcome(expired: ScAddress, missing: ScAddress)
    ensures var input := BothAuthProblems(expired, missing);
            && ClassifyResult(input.result).stage == Some(ContractExecution)
            && AuthOf(input.operations) == [AuthEntry(0, Address(expired, 0, 5))]
  {
    var operations := BothAuthProblems(expired, missing).operations;
    assert operations[1..] == [];
    assert CredentialsOf(operations) == [Address(expired, 0, 5)];
  }

  /** A trap on `unreachable` that ends the invocation with any code. */
  function TrapWith(code: ScErrorCode): Input {
    Input("", [], None, TransactionResult(0, Outer.TxFailed([OpInner(InvokeHostFunction(Trapped))])),
          [RaisedFor(WasmVm(code), UNREACHABLE_MARKER, []),
           RawEvent(None, [SymbolVal("host_fn_failed"), ErrorVal(WasmVm(code))], VoidVal)],
          true, None)
  }

  /**
   The trap rule's table names `Error(WasmVm, InvalidAction)`; the rule fires
   on every other `WasmVm` code as well.
   */
  lemma TrapFiresOnEveryCode(code: ScErrorCode, reports: seq<Report>)
    ensures var m := FromInput(TrapWith(code));
            m.diagnostics.terminal == Some(TerminalError(WasmVm(code), 1)) && Evaluate(Trap, m, reports).Match?
  {
    var m := FromInput(TrapWith(code));
    TrapEvents(code);
    TrapModel(code);
    hide FromInput, TrapWith, ClassifyFrom;
    assert IsTrapOf(m.diagnostics.events[0], WasmVm(code));
  }

  lemma TrapEvents(code: ScErrorCode)
    ensures var events := ClassifyFrom(TrapWith(code).events, 0);
            && |events| == 2
            && events[0].kind == Error(WasmVm(code), Some(UNREACHABLE_MARKER))
            && Contains(UNREACHABLE_MARKER, UNREACHABLE_MARKER)
            && TerminalOf(events) == Some(TerminalError(WasmVm(code), 1))
  {
    var events := ClassifyFrom(TrapWith(code).events, 0);
    assert UNREACHABLE_MARKER <= UNREACHABLE_MARKER[0..];
    assert events[1].kind == HostFnFailed(WasmVm(code)) && events[1].index == 1;
    hide KindOf;
    assert events[1..][0] == events[1];
  }

  lemma TrapModel(code: ScErrorCode)
    ensures var m := FromInput(TrapWith(code));
            && InExecution(m)
            && m.diagnostics.events == ClassifyFrom(TrapWith(code).events, 0)
            && m.diagnostics.terminal == TerminalOf(m.diagnostics.events)
  {
    hide Classify, Reconstruct, TerminalOf, CoreMetrics, AuthOf;
  }

  // ----------------------------------------------------------- citations are real

  /** The event a cause cites first. */
  function FirstEvent(m: TransactionModel, first: Option<Source>): Option<DiagEvent> {
    match first
    case Some(EventAt(i)) => if i < |m.diagnostics.events| then Some(m.diagnostics.events[i]) else None
    case _ => None
  }

  /** What the event cited first accessed, or was about. */
  function FirstAccess(m: TransactionModel, first: Option<Source>): Option<(ScAddress, ScVal)> {
    if FirstEvent(m, first).None? then None else AccessedKey(FirstEvent(m, first).value.data)
  }

  function FirstAddress(m: TransactionModel, first: Option<Source>): Option<ScAddress> {
    if FirstEvent(m, first).None? then None else AddressIn(FirstEvent(m, first).value.data)
  }

  /** `op` failed at position `i` with the result that stands for the rule's stage. */
  predicate FailedAs(rule: Builtin, op: OperationResult, i: nat) {
    FailureOf(op, i).Some? && FailureOf(op, i).value.1 == StageOf(rule)
  }

  predicate FootprintHas(s: SorobanData, readWrite: bool, i: nat, accessed: (ScAddress, ScVal)) {
    var list := if readWrite then s.readWrite else s.readOnly;
    i < |list| && IsDeclared(list[i], accessed)
  }

  /** What is cited is there, and carries what it is cited for. */
  ghost predicate Grounded(m: TransactionModel, ops: seq<OperationResult>, rule: Builtin, first: Option<Source>,
                           s: Source)
  {
    match s
    case OperationAt(i) => i < |ops| && FailedAs(rule, ops[i], i)
    case EventAt(i) => i < |m.diagnostics.events| && ErrorOn(m.diagnostics.events[i]).Some?
    case AuthEntryAt(i) =>
      && m.soroban.Some? && i < |m.soroban.value.auth|
      && FirstAddress(m, first).Some? && Holds(m.soroban.value.auth[i], FirstAddress(m, first).value)
    case FootprintAt(readWrite, i) =>
      && m.soroban.Some? && FirstAccess(m, first).Some?
      && FootprintHas(m.soroban.value, readWrite, i, FirstAccess(m, first).value)
    case WholeFootprint =>
      m.soroban.Some? && FirstAccess(m, first).Some? && NotDeclared(m.soroban.value, FirstAccess(m, first).value)
    case SpecOfContract =>
      && TerminalCode(m.diagnostics.terminal).Some?
      && Identify(m.diagnostics.events, TerminalCode(m.diagnostics.terminal).value).Unique?
    case SorobanResources => m.soroban.Some?
    case ObservedResources => m.feesCharged.Some? || m.coreMetrics != map[]
  }

  ghost predicate AllGrounded(m: TransactionModel, ops: seq<OperationResult>, rule: Builtin, reports: seq<Report>) {
    Evaluate(rule, m, reports).Match? ==>
      forall s :: s in Evaluate(rule, m, reports).cause.evidence ==>
        Grounded(m, ops, rule, FirstCitation(rule, m, reports), s)
  }

  /** The operation the outcome blames is in the result, and failed at that stage. */
  ghost predicate BlamesAnOperation(m: TransactionModel, ops: seq<OperationResult>) {
    m.outcome.failedOperation.Some? ==>
      var i := m.outcome.failedOperation.value.index;
      && i < |ops| && m.outcome.stage.Some?
      && FailureOf(ops[i], i).Some? && FailureOf(ops[i], i).value.1 == m.outcome.stage.value
  }

  lemma GatedGrounded(rule: Builtin, m: TransactionModel, ops: seq<OperationResult>, reports: seq<Report>)
    requires IsGated(rule) && BlamesAnOperation(m, ops)
    ensures AllGrounded(m, ops, rule, reports)
  {
    hide FailureOf, Identify;
  }

  lemma TrapGrounded(m: TransactionModel, ops: seq<OperationResult>, reports: seq<Report>)
    requires Consistent(m, |ops|)
    ensures AllGrounded(m, ops, Trap, reports)
  {
    if Evaluate(Trap, m, reports).Match? {
      TerminalIsThere(m, |ops|);
    }
  }

  lemma EndCitationGrounded(m: TransactionModel, ops: seq<OperationResult>, rule: Builtin, first: Option<Source>,
                            i: nat)
    requires Consistent(m, |ops|) && i < |m.diagnostics.events| && m.diagnostics.events[i].kind.Error?
    ensures m.diagnostics.events[i].index == i
    ensures Grounded(m, ops, rule, first, EventAt(i))
    ensures Grounded(m, ops, rule, first, EndCitation(m, m.diagnostics.events[i]))
  {
    if m.diagnostics.terminal.Some? {
      TerminalIsThere(m, |ops|);
    }
  }

  lemma MissingGrounded(m: TransactionModel, ops: seq<OperationResult>, reports: seq<Report>)
    requires Consistent(m, |ops|)
    ensures AllGrounded(m, ops, MissingAuth, reports)
  {
    if Evaluate(MissingAuth, m, reports).Match? {
      var i := FirstWhere(m.diagnostics.events, IsUnauthorized).value;
      EndCitationGrounded(m, ops, MissingAuth, FirstCitation(MissingAuth, m, reports), i);
      hide Grounded, Consistent, EndCitation, EntryFor, FirstCitation;
    }
  }

  lemma HolderGrounded(m: TransactionModel, ops: seq<OperationResult>, first: Option<Source>, address: ScAddress)
    requires Consistent(m, |ops|) && m.soroban.Some? && FirstAddress(m, first) == Some(address)
    requires EntryFor(m.soroban.value.auth, address).Some?
    ensures Grounded(m, ops, InvalidAuth, first, AuthEntryAt(EntryFor(m.soroban.value.auth, address).value.index))
  {
    var auth := m.soroban.value.auth;
    hide EntryFor, FirstAddress;
    var k :| 0 <= k < |auth| && auth[k] == EntryFor(auth, address).value;
  }

  lemma InvalidAuthGrounded(m: TransactionModel, ops: seq<OperationResult>, reports: seq<Report>)
    requires Consistent(m, |ops|)
    ensures AllGrounded(m, ops, InvalidAuth, reports)
  {
    hide Grounded, Consistent, EndCitation, EntryFor, FirstCitation, LedgersIn, Says, AddressIn;
    if Evaluate(InvalidAuth, m, reports).Match? {
      var i := FirstWhere(m.diagnostics.events, IsInvalidAuth).value;
      var e := m.diagnostics.events[i];
      var first := FirstCitation(InvalidAuth, m, reports);
      InvalidAuthStarts(m, ops, reports, i);
      EndCitationGrounded(m, ops, InvalidAuth, first, i);
      if AddressIn(e.data).Some? && EntryFor(m.soroban.value.auth, AddressIn(e.data).value).Some? {
        HolderGrounded(m, ops, first, AddressIn(e.data).value);
      }
    }
  }

  lemma InvalidAuthStarts(m: TransactionModel, ops: seq<OperationResult>, reports: seq<Report>, i: nat)
    requires Consistent(m, |ops|) && Evaluate(InvalidAuth, m, reports).Match?
    requires FirstWhere(m.diagnostics.events, IsInvalidAuth) == Some(i)
    ensures FirstCitation(InvalidAuth, m, reports) == Some(EventAt(i))
    ensures FirstAddress(m, Some(EventAt(i))) == AddressIn(m.diagnostics.events[i].data)
  {
    Numbered(m, |ops|, i);
    hide EntryFor, LedgersIn, Says, AddressIn, Corroborated, EndCitation, Consistent;
  }

  lemma OutsideGrounded(m: TransactionModel, ops: seq<OperationResult>, reports: seq<Report>)
    requires Consistent(m, |ops|)
    ensures AllGrounded(m, ops, OutsideFootprint, reports)
  {
    if Evaluate(OutsideFootprint, m, reports).Match? {
      var i := FirstWhere(m.diagnostics.events, IsOutside).value;
      var e := m.diagnostics.events[i];
      var first := FirstCitation(OutsideFootprint, m, reports);
      EndCitationGrounded(m, ops, OutsideFootprint, first, i);
      assert first == Some(EventAt(i));
      if AccessedKey(e.data).Some? {
        AccessGrounded(m, ops, first, m.soroban.value, AccessedKey(e.data).value);
      }
      hide Grounded, Consistent, EndCitation, FirstCitation, Declared, IsOutside;
    }
  }

  lemma AccessGrounded(m: TransactionModel, ops: seq<OperationResult>, first: Option<Source>, s: SorobanData,
                       accessed: (ScAddress, ScVal))
    requires m.soroban == Some(s) && FirstAccess(m, first) == Some(accessed)
    ensures forall d :: d in Declared(s, accessed) ==> Grounded(m, ops, OutsideFootprint, first, d)
    ensures Declared(s, accessed) == [] ==> Grounded(m, ops, OutsideFootprint, first, WholeFootprint)
  {
    DeclaredIsExact(s, accessed);
    hide IsDeclared, FirstAccess;
  }

  ghost predicate ReportsGrounded(m: TransactionModel, ops: seq<OperationResult>, first: Option<Source>,
                                  reports: seq<Report>)
  {
    forall r, i | r in reports && i in r.eventIndexes :: Grounded(m, ops, ContractDefined, first, EventAt(i))
  }

  lemma ContractCauseGrounded(m: TransactionModel, ops: seq<OperationResult>, first: Option<Source>, rep: Report,
                              terminal: nat, reports: seq<Report>)
    requires ReportsGrounded(m, ops, first, reports) && rep in reports
    requires Grounded(m, ops, ContractDefined, first, EventAt(terminal))
    requires rep.resolution.ContractNotIdentified? || Grounded(m, ops, ContractDefined, first, SpecOfContract)
    ensures forall s :: s in ContractErrorCause(rep, terminal, reports).evidence ==>
              Grounded(m, ops, ContractDefined, first, s)
  {
    OtherCitationsAreReported(reports);
    hide Grounded, RaisedAt, OtherCitations, ContractErrorConfidence;
  }

  lemma TerminalReportGrounded(m: TransactionModel, ops: seq<OperationResult>, specs: Specs, first: Option<Source>)
    requires Consistent(m, |ops|) && TerminalCode(m.diagnostics.terminal).Some?
    ensures var rep := ReportOf(m, specs, TerminalCode(m.diagnostics.terminal).value);
            rep.resolution.ContractNotIdentified? || Grounded(m, ops, ContractDefined, first, SpecOfContract)
    ensures Grounded(m, ops, ContractDefined, first, EventAt(m.diagnostics.terminal.value.eventIndex))
  {
    hide Identify, ResolveAgainst, IndexesOf, Loaded;
    TerminalIsThere(m, |ops|);
    hide Consistent;
  }

  lemma AllReportsGrounded(m: TransactionModel, ops: seq<OperationResult>, specs: Specs, first: Option<Source>)
    requires Consistent(m, |ops|)
    ensures ReportsGrounded(m, ops, first, Reports(m, specs))
  {
    var reports := Reports(m, specs);
    hide Reports, Consistent, Grounded;
    forall r, i | r in reports && i in r.eventIndexes
      ensures Grounded(m, ops, ContractDefined, first, EventAt(i))
    {
      var k :| 0 <= k < |reports| && reports[k] == r;
      ReportedGrounded(m, ops, specs, k, first, i);
    }
  }

  lemma ContractGrounded(m: TransactionModel, ops: seq<OperationResult>, specs: Specs)
    requires Consistent(m, |ops|)
    ensures AllGrounded(m, ops, ContractDefined, Reports(m, specs))
  {
    var reports := Reports(m, specs);
    var first := FirstCitation(ContractDefined, m, reports);
    hide Reports, FirstCitation, ReportOf, Consistent, Grounded, ReportsGrounded, ContractErrorCause;
    if Evaluate(ContractDefined, m, reports).Match? {
      var t := m.diagnostics.terminal.value;
      TerminalReportIs(m, specs, t.error.code);
      AllReportsGrounded(m, ops, specs, first);
      TerminalReportGrounded(m, ops, specs, first);
      ContractCauseGrounded(m, ops, first, ReportOf(m, specs, t.error.code), t.eventIndex, reports);
    }
  }

  lemma ReportedGrounded(m: TransactionModel, ops: seq<OperationResult>, specs: Specs, k: nat, first: Option<Source>,
                         i: nat)
    requires Consistent(m, |ops|) && k < |Reports(m, specs)| && i in Reports(m, specs)[k].eventIndexes
    ensures Grounded(m, ops, ContractDefined, first, EventAt(i))
  {
    hide *;
    ReportsCiteTheirCode(m, specs, |ops|, k);
    ErrorEventGrounded(m, ops, first, i, Reports(m, specs)[k].code);
  }

  lemma ErrorEventGrounded(m: TransactionModel, ops: seq<OperationResult>, first: Option<Source>, i: nat, code: U32)
    requires i < |m.diagnostics.events|
    requires || Carries(m.diagnostics.events[i], code)
             || m.diagnostics.events[i].kind == HostFnFailed(Contract(code))
    ensures Grounded(m, ops, ContractDefined, first, EventAt(i))
  {
  }

  lemma FromInputBlames(input: Input)
    ensures BlamesAnOperation(FromInput(input), OperationsOf(input.result.result))
  {
    FailedOperationIsFirst(input.result);
    hide ClassifyResult, FromEvents, CoreMetrics, AuthOf, OperationsOf, FailureOf, Succeeded;
  }

  /** Every citation of every rule is real, for every input. */
  lemma CitationsAreGrounded(input: Input, specs: Specs, rule: Builtin)
    ensures AllGrounded(FromInput(input), OperationsOf(input.result.result), rule, Reports(FromInput(input), specs))
  {
    var m, ops := FromInput(input), OperationsOf(input.result.result);
    FromInputIsConsistent(input);
    FromInputBlames(input);
    hide FromInput, Reports, Consistent, AllGrounded, BlamesAnOperation;
    match rule
    case ContractDefined => ContractGrounded(m, ops, specs);
    case InvalidAuth => InvalidAuthGrounded(m, ops, Reports(m, specs));
    case OutsideFootprint => OutsideGrounded(m, ops, Reports(m, specs));
    case Trap => TrapGrounded(m, ops, Reports(m, specs));
    case MissingAuth => MissingGrounded(m, ops, Reports(m, specs));
    case _ => GatedGrounded(rule, m, ops, Reports(m, specs));
  }
}
