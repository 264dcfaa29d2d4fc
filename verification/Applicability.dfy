/**
 What the eight rules answer when they do not match: that they do not apply, or
 that they lack evidence (crates/soroban-failure-analysis/src/rules). Together
 with `RuleLaws.MatchesExactly` this says of every rule exactly what it answers.
 */
module Applicability {
  import opened Common
  import opened Soroban
  import opened Events
  import opened CallTree
  import opened Outcomes
  import opened Model
  import opened Resolve
  import opened Rules
  import opened RuleLaws

  // ----------------------------------------------------- which events are meant

  ghost predicate MessageStarts(e: DiagEvent, text: string) {
    e.kind.Error? && exists rest :: e.kind.message == Some(text + rest)
  }

  ghost predicate MessageHas(e: DiagEvent, text: string) {
    e.kind.Error? && exists before, after :: e.kind.message == Some(before + text + after)
  }

  lemma StartsIsPrefix(e: DiagEvent, text: string)
    ensures Says(e, text) <==> MessageStarts(e, text)
  {
    if Says(e, text) {
      var message := e.kind.message.value;
      assert message == text + message[|text|..];
    }
  }

  lemma HasIsContains(message: string, text: string)
    ensures Contains(message, text) <==> exists before, after :: message == before + text + after
  {
    if Contains(message, text) {
      var i :| 0 <= i <= |message| - |text| && text <= message[i..];
      assert message == message[..i] + text + message[i + |text|..];
    }
    if before, after :| message == before + text + after {
      assert message[|before|..] == text + after;
    }
  }

  /** The events the rules look for, by error and message. */
  lemma EventsAreRecognised(e: DiagEvent, error: ScError)
    ensures IsInvalidAuth(e)
            <==> && e.kind.Error? && e.kind.error.Auth?
                 && (MessageStarts(e, "signature has expired") || MessageStarts(e, "nonce already exists for address"))
    ensures IsOutside(e)
            <==> e.kind.Error? && e.kind.error.Storage? && MessageHas(e, "outside of the footprint")
    ensures IsTrapOf(e, error)
            <==> e.kind.Error? && e.kind.error == error && MessageHas(e, "UnreachableCodeReached")
    ensures IsUnauthorized(e)
            <==> && e.kind.Error? && e.kind.error == Auth(InvalidAction)
                 && MessageStarts(e, "Unauthorized function call for address")
  {
    StartsIsPrefix(e, EXPIRED_MARKER);
    StartsIsPrefix(e, NONCE_MARKER);
    StartsIsPrefix(e, UNAUTHORIZED_MARKER);
    if e.kind.Error? && e.kind.message.Some? {
      HasIsContains(e.kind.message.value, FOOTPRINT_MARKER);
      HasIsContains(e.kind.message.value, UNREACHABLE_MARKER);
    }
    hide Says, Contains;
  }

  // ------------------------------------------------------------ what is answered

  ghost predicate AtStage(m: TransactionModel, stage: FailureStage) {
    m.outcome.stage == Some(stage)
  }

  /** The invocation ended with an error, and not one of these. */
  ghost predicate EndedOtherwise(m: TransactionModel, p: ScError -> bool) {
    m.diagnostics.emitted && m.diagnostics.terminal.Some? && !p(m.diagnostics.terminal.value.error)
  }

  /** The first rejection is of this address. */
  ghost predicate Rejected(m: TransactionModel, i: nat, a: ScAddress) {
    IsFirst(m.diagnostics.events, IsUnauthorized, i) && AddressIn(m.diagnostics.events[i].data) == Some(a)
  }

  /** The rule has nothing to do with such a transaction. */
  ghost predicate Silent(rule: Builtin, m: TransactionModel) {
    match rule
    case ContractDefined =>
      !AtStage(m, ContractExecution) || EndedOtherwise(m, (e: ScError) => e.Contract?)
    case InvalidAuth =>
      || !AtStage(m, ContractExecution) || m.soroban.None?
      || (m.diagnostics.emitted && !SomeEvent(m, IsAuthError) && m.diagnostics.terminal.Some?)
    case OutsideFootprint => !AtStage(m, ContractExecution) || m.soroban.None?
    case Trap =>
      !AtStage(m, ContractExecution) || EndedOtherwise(m, (e: ScError) => e.WasmVm?)
    case MissingAuth =>
      || !AtStage(m, ContractExecution) || m.soroban.None?
      || (m.diagnostics.emitted && exists i: nat, a :: Rejected(m, i, a) && a.text == m.sourceAccount)
    case Archived => !AtStage(m, StateArchival)
    case LimitExceeded => !AtStage(m, ResourceLimit)
    case InsufficientFee => !AtStage(m, ResourceFee)
  }

  ghost predicate FailedWith(m: TransactionModel, code: string) {
    m.outcome.failedOperation.Some? && m.outcome.failedOperation.value.code == code
  }

  /** The rule is meant for such a transaction, and what it needs to see is not there. */
  ghost predicate Lacks(rule: Builtin, m: TransactionModel) {
    match rule
    case ContractDefined => AtStage(m, ContractExecution) && (!m.diagnostics.emitted || m.diagnostics.terminal.None?)
    case InvalidAuth =>
      && AtStage(m, ContractExecution) && m.soroban.Some?
      && (|| !m.diagnostics.emitted
          || (if SomeEvent(m, IsAuthError) then !SomeEvent(m, IsInvalidAuth) else m.diagnostics.terminal.None?))
    case OutsideFootprint =>
      && AtStage(m, ContractExecution) && m.soroban.Some?
      && (!m.diagnostics.emitted || !SomeEvent(m, IsOutside))
    case Trap =>
      && AtStage(m, ContractExecution)
      && (|| !m.diagnostics.emitted
          || match m.diagnostics.terminal
             case None => true
             case Some(t) => t.error.WasmVm? && !SomeEvent(m, (e: DiagEvent) => IsTrapOf(e, t.error)))
    case MissingAuth =>
      && AtStage(m, ContractExecution) && m.soroban.Some?
      && (|| !m.diagnostics.emitted || !SomeEvent(m, IsUnauthorized)
          || exists i: nat, a :: && Rejected(m, i, a) && a.text != m.sourceAccount
                                 && exists x :: x in m.soroban.value.auth && Holds(x, a))
    case Archived => AtStage(m, StateArchival) && !FailedWith(m, "EntryArchived")
    case LimitExceeded => AtStage(m, ResourceLimit) && !FailedWith(m, "ResourceLimitExceeded")
    case InsufficientFee => AtStage(m, ResourceFee) && !FailedWith(m, "InsufficientRefundableFee")
  }

  lemma GatedAnswers(rule: Builtin, m: TransactionModel, reports: seq<Report>)
    requires IsGated(rule)
    ensures Evaluate(rule, m, reports) == NotApplicable <==> Silent(rule, m)
    ensures Evaluate(rule, m, reports) == NoEvidence <==> Lacks(rule, m)
  {
  }

  lemma ContractDefinedAnswers(m: TransactionModel, specs: Specs)
    ensures Evaluate(ContractDefined, m, Reports(m, specs)) == NotApplicable <==> Silent(ContractDefined, m)
    ensures Evaluate(ContractDefined, m, Reports(m, specs)) == NoEvidence <==> Lacks(ContractDefined, m)
  {
    if TerminalCode(m.diagnostics.terminal).Some? {
      TerminalReportIs(m, specs, TerminalCode(m.diagnostics.terminal).value);
    }
    hide Reports, ReportOf, ContractErrorCause;
  }

  lemma InvalidAuthAnswers(m: TransactionModel, reports: seq<Report>)
    ensures Evaluate(InvalidAuth, m, reports) == NotApplicable <==> Silent(InvalidAuth, m)
    ensures Evaluate(InvalidAuth, m, reports) == NoEvidence <==> Lacks(InvalidAuth, m)
  {
    hide InvalidAuthCause, Says, IsAuthError;
    SomeIsFirst(m, IsAuthError);
    SomeIsFirst(m, IsInvalidAuth);
    RecognisedIsAuth(m);
    hide SomeEvent, IsInvalidAuth;
  }

  lemma SomeIsFirst(m: TransactionModel, p: DiagEvent -> bool)
    ensures SomeEvent(m, p) <==> FirstWhere(m.diagnostics.events, p).Some?
  {
  }

  lemma RecognisedIsAuth(m: TransactionModel)
    ensures SomeEvent(m, IsInvalidAuth) ==> SomeEvent(m, IsAuthError)
  {
    hide Says;
  }

  lemma OutsideAnswers(m: TransactionModel, reports: seq<Report>)
    ensures Evaluate(OutsideFootprint, m, reports) == NotApplicable <==> Silent(OutsideFootprint, m)
    ensures Evaluate(OutsideFootprint, m, reports) == NoEvidence <==> Lacks(OutsideFootprint, m)
  {
    hide OutsideCause, IsOutside;
    SomeIsFirst(m, IsOutside);
    hide SomeEvent;
  }

  lemma TrapAnswers(m: TransactionModel, reports: seq<Report>)
    ensures Evaluate(Trap, m, reports) == NotApplicable <==> Silent(Trap, m)
    ensures Evaluate(Trap, m, reports) == NoEvidence <==> Lacks(Trap, m)
  {
    hide IsTrapOf;
    if m.diagnostics.terminal.Some? {
      SomeIsFirst(m, (e: DiagEvent) => IsTrapOf(e, m.diagnostics.terminal.value.error));
    }
    hide SomeEvent;
  }

  /** What the first rejection comes to. */
  lemma MissingAuthAnswers(m: TransactionModel, reports: seq<Report>)
    ensures Evaluate(MissingAuth, m, reports) == NotApplicable <==> Silent(MissingAuth, m)
    ensures Evaluate(MissingAuth, m, reports) == NoEvidence <==> Lacks(MissingAuth, m)
  {
    hide AddressIn, IsUnauthorized, EndCitation;
    var events := m.diagnostics.events;
    var first := FirstWhere(events, IsUnauthorized);
    SomeIsFirst(m, IsUnauthorized);
    if first.Some? {
      OnlyRejection(m, first.value);
      var a := AddressIn(events[first.value].data);
      if a.Some? {
        assert Rejected(m, first.value, a.value);
        if m.soroban.Some? {
          HeldIsFound(m.soroban.value.auth, a.value);
        }
      }
    } else {
      assert forall i: nat, a :: !Rejected(m, i, a);
    }
    hide SomeEvent, EntryFor, Holds, Rejected, IsFirst;
  }

  lemma OnlyRejection(m: TransactionModel, i: nat)
    requires IsFirst(m.diagnostics.events, IsUnauthorized, i)
    ensures forall j: nat, a :: Rejected(m, j, a) ==> j == i && AddressIn(m.diagnostics.events[i].data) == Some(a)
  {
    hide AddressIn, IsUnauthorized;
  }

  lemma HeldIsFound(auth: seq<AuthEntry>, a: ScAddress)
    ensures EntryFor(auth, a).Some? <==> exists x :: x in auth && Holds(x, a)
  {
    hide Holds;
    if EntryFor(auth, a).Some? {
      var k: nat :| FirstHolder(auth, a, k);
      assert auth[k] in auth;
    }
  }

  /** Exactly when a rule does not apply, and exactly when it lacks evidence. */
  lemma AnswersExactly(rule: Builtin, m: TransactionModel, specs: Specs)
    ensures Evaluate(rule, m, Reports(m, specs)) == NotApplicable <==> Silent(rule, m)
    ensures Evaluate(rule, m, Reports(m, specs)) == NoEvidence <==> Lacks(rule, m)
  {
    hide Reports, Evaluate, Silent, Lacks;
    var reports := Reports(m, specs);
    match rule
    case ContractDefined => ContractDefinedAnswers(m, specs);
    case InvalidAuth => InvalidAuthAnswers(m, reports);
    case OutsideFootprint => OutsideAnswers(m, reports);
    case Trap => TrapAnswers(m, reports);
    case MissingAuth => MissingAuthAnswers(m, reports);
    case _ => GatedAnswers(rule, m, reports);
  }

  // --------------------------------------------------------- all rules together

  /** Nothing in the diagnostics is for these rules: no Soroban data, and another kind of error. */
  ghost predicate OutsideTheRules(m: TransactionModel) {
    && m.soroban.None? && m.diagnostics.emitted && m.diagnostics.terminal.Some?
    && !m.diagnostics.terminal.value.error.Contract? && !m.diagnostics.terminal.value.error.WasmVm?
  }

  /** When no rule fires, some rule lacks evidence exactly in contract execution that is not outside the rules. */
  lemma SomeRuleLacks(m: TransactionModel)
    requires Agrees(m.outcome) && forall rule: Builtin :: !Fires(rule, m)
    ensures (exists rule: Builtin :: Lacks(rule, m)) <==> AtStage(m, ContractExecution) && !OutsideTheRules(m)
  {
    if rule: Builtin :| Lacks(rule, m) {
      LackingIsInExecution(rule, m);
    }
    if AtStage(m, ContractExecution) && !OutsideTheRules(m) {
      assert !Fires(ContractDefined, m) && !Fires(OutsideFootprint, m) && !Fires(Trap, m);
      hide IsTrapOf, IsOutside, SomeEvent;
      assert Lacks(ContractDefined, m) || Lacks(OutsideFootprint, m) || Lacks(Trap, m);
    }
  }

  lemma LackingIsInExecution(rule: Builtin, m: TransactionModel)
    requires Agrees(m.outcome) && Lacks(rule, m)
    ensures AtStage(m, ContractExecution) && !OutsideTheRules(m)
  {
    hide SomeEvent, IsTrapOf, Rejected;
  }

  /** What fires outside the rules: nothing in contract execution. */
  lemma NothingFires(m: TransactionModel)
    ensures (forall rule: Builtin :: !Fires(rule, m)) && (AtStage(m, ContractExecution) ==> OutsideTheRules(m))
            <==> && (AtStage(m, ContractExecution) ==> OutsideTheRules(m))
                 && !AtStage(m, StateArchival) && !AtStage(m, ResourceLimit) && !AtStage(m, ResourceFee)
  {
    if forall rule: Builtin :: !Fires(rule, m) {
      assert !Fires(Archived, m) && !Fires(LimitExceeded, m) && !Fires(InsufficientFee, m);
    }
    hide SomeEvent, IsTrapOf, ThirdParty;
    if rule: Builtin :| Fires(rule, m) {
      FiringIsInside(rule, m);
    }
  }

  lemma FiringIsInside(rule: Builtin, m: TransactionModel)
    requires Fires(rule, m)
    ensures || (AtStage(m, ContractExecution) && !OutsideTheRules(m))
            || AtStage(m, StateArchival) || AtStage(m, ResourceLimit) || AtStage(m, ResourceFee)
  {
    hide SomeEvent, IsTrapOf;
  }
}
