/**
 The analysis as a whole (crates/soroban-failure-analysis/src/lib.rs:99-186) and
 its verdict (crates/soroban-failure-analysis/src/diagnosis.rs).
 */
module Diagnoses {
  import opened Common
  import opened Outcomes
  import opened Model
  import opened Resolve
  import opened Rules
  import opened RuleLaws
  import opened Applicability

  datatype RuleStatus = Matched | Lacking | Inapplicable

  datatype RuleReport = RuleReport(rule: RuleId, status: RuleStatus)

  datatype Diagnosis = Diagnosis(
    stage: Option<FailureStage>, causes: seq<Cause>, contractErrors: seq<Report>, ruleReports: seq<RuleReport>)

  datatype Verdict = NotAFailure | Explained(confidence: Confidence) | InsufficientEvidence | Unsupported

  function StatusOf(outcome: RuleOutcome): RuleStatus {
    match outcome
    case Match(_) => Matched
    case NoEvidence => Lacking
    case NotApplicable => Inapplicable
  }

  /** What a rule is given: an unobserved stage reads as unknown. */
  datatype Context = Context(input: Input, model: TransactionModel, stage: FailureStage, reports: seq<Report>)

  /** A built-in rule or one of the caller's own. */
  datatype Rule = Rule(id: RuleId, evaluate: Context -> RuleOutcome)

  function ContextOf(input: Input, specs: Specs): Context {
    var m := FromInput(input);
    Context(input, m, if m.outcome.stage.Some? then m.outcome.stage.value else Unknown, Reports(m, specs))
  }

  function BuiltInRule(rule: Builtin): Rule {
    Rule(rule, (c: Context) => Evaluate(rule, c.model, c.reports))
  }

  function BuiltInRegistry(): (r: seq<Rule>)
    ensures |r| == |BUILTIN| && forall i :: 0 <= i < |r| ==> r[i] == BuiltInRule(BUILTIN[i])
  {
    seq(|BUILTIN|, (i: nat) requires i < |BUILTIN| => BuiltInRule(BUILTIN[i]))
  }

  function Position(rule: RuleId): nat {
    match rule
    case Archived => 0
    case LimitExceeded => 1
    case InsufficientFee => 2
    case ContractDefined => 3
    case InvalidAuth => 4
    case OutsideFootprint => 5
    case Trap => 6
    case MissingAuth => 7
    case Custom(_) => 8
  }

  /** Some rule of the registry concludes this. */
  ghost predicate SomeRule(registry: seq<Rule>, c: Context, outcome: RuleOutcome) {
    exists i :: 0 <= i < |registry| && registry[i].evaluate(c) == outcome
  }

  /** The causes of the rules that matched, in registration order. */
  function Candidates(registry: seq<Rule>, c: Context): (r: seq<Cause>)
    ensures forall cause :: cause in r <==> SomeRule(registry, c, Match(cause))
  {
    if registry == [] then []
    else
      var n := |registry| - 1;
      assert forall i :: 0 <= i < n ==> registry[..n][i] == registry[i];
      var earlier := Candidates(registry[..n], c);
      var outcome := registry[n].evaluate(c);
      assert forall cause :: SomeRule(registry, c, Match(cause))
                             <==> SomeRule(registry[..n], c, Match(cause)) || outcome == Match(cause);
      if outcome.Match? then earlier + [outcome.cause] else earlier
  }

  function RuleReports(registry: seq<Rule>, c: Context): (r: seq<RuleReport>)
    ensures |r| == |registry|
    ensures forall i :: 0 <= i < |r| ==> r[i] == RuleReport(registry[i].id, StatusOf(registry[i].evaluate(c)))
  {
    seq(|registry|, (i: nat) requires i < |registry| =>
      RuleReport(registry[i].id, StatusOf(registry[i].evaluate(c))))
  }

  // ------------------------------------------------------------------- ranking

  function WithConfidence(causes: seq<Cause>, confidence: Confidence): seq<Cause> {
    Filter(causes, (c: Cause) => c.confidence == confidence)
  }

  /** Strongest first; equals keep their order. */
  function Ranked(causes: seq<Cause>): seq<Cause> {
    WithConfidence(causes, Confirmed) + WithConfidence(causes, Likely) + WithConfidence(causes, Possible)
  }

  function Rank(c: Confidence): nat {
    match c
    case Possible => 0
    case Likely => 1
    case Confirmed => 2
  }

  ghost predicate Descending(causes: seq<Cause>) {
    forall i, j :: 0 <= i < j < |causes| ==> Rank(causes[i].confidence) >= Rank(causes[j].confidence)
  }

  /** For every confidence, the same causes in the same order. */
  ghost predicate Stable(a: seq<Cause>, b: seq<Cause>) {
    forall c :: WithConfidence(a, c) == WithConfidence(b, c)
  }

  lemma {:induction false} FilterAll(causes: seq<Cause>, c: Confidence)
    requires forall x :: x in causes ==> x.confidence == c
    ensures WithConfidence(causes, c) == causes
  {
    if causes != [] {
      FilterAll(causes[..|causes| - 1], c);
    }
  }

  lemma {:induction false} FilterNone(causes: seq<Cause>, c: Confidence)
    requires forall x :: x in causes ==> x.confidence != c
    ensures WithConfidence(causes, c) == []
  {
    if causes != [] {
      FilterNone(causes[..|causes| - 1], c);
    }
  }

  lemma EachHas(causes: seq<Cause>, c: Confidence)
    ensures forall i :: 0 <= i < |WithConfidence(causes, c)| ==> WithConfidence(causes, c)[i].confidence == c
  {
    var r := WithConfidence(causes, c);
    assert forall i :: 0 <= i < |r| ==> r[i] in r;
  }

  lemma OneMore(causes: seq<Cause>, last: Cause, c: Confidence)
    ensures WithConfidence(causes + [last], c)
            == WithConfidence(causes, c) + if last.confidence == c then [last] else []
  {
    assert (causes + [last])[..|causes + [last]| - 1] == causes;
  }

  lemma RankedIsStable(causes: seq<Cause>)
    ensures Stable(Ranked(causes), causes)
  {
    forall c
      ensures WithConfidence(Ranked(causes), c) == WithConfidence(causes, c)
    {
      RankedKeeps(causes, c);
    }
  }

  lemma PartKept(causes: seq<Cause>, part: Confidence, c: Confidence)
    ensures WithConfidence(WithConfidence(causes, part), c) == if c == part then WithConfidence(causes, c) else []
  {
    var s := WithConfidence(causes, part);
    if c == part {
      FilterAll(s, c);
    } else {
      FilterNone(s, c);
    }
  }

  lemma RankedKeeps(causes: seq<Cause>, c: Confidence)
    ensures WithConfidence(Ranked(causes), c) == WithConfidence(causes, c)
  {
    var a, b, p := WithConfidence(causes, Confirmed), WithConfidence(causes, Likely), WithConfidence(causes, Possible);
    var wanted := (x: Cause) => x.confidence == c;
    FilterConcat(a + b, p, wanted);
    FilterConcat(a, b, wanted);
    PartKept(causes, Confirmed, c);
    PartKept(causes, Likely, c);
    PartKept(causes, Possible, c);
    hide Filter;
  }

  lemma RankedDescends(causes: seq<Cause>)
    ensures Descending(Ranked(causes))
  {
    var a, b, p := WithConfidence(causes, Confirmed), WithConfidence(causes, Likely), WithConfidence(causes, Possible);
    var r := Ranked(causes);
    forall i | 0 <= i < |r|
      ensures Rank(r[i].confidence) == if i < |a| then 2 else if i < |a| + |b| then 1 else 0
    {
      assert i < |a| ==> r[i] in a;
      assert |a| <= i < |a| + |b| ==> r[i] in b;
      assert |a| + |b| <= i ==> r[i] in p;
    }
  }

  /** A descending list is its own ranking. */
  lemma {:induction false} DescendingIsRanked(causes: seq<Cause>)
    requires Descending(causes)
    ensures causes == Ranked(causes)
  {
    if causes != [] {
      var n := |causes| - 1;
      var earlier, last := causes[..n], causes[n];
      assert causes == earlier + [last];
      DescendingIsRanked(earlier);
      NoneWeaker(earlier, last);
      hide *;
      RankedLast(earlier, last);
    }
  }

  lemma RankedLast(causes: seq<Cause>, last: Cause)
    requires forall c :: Rank(c) < Rank(last.confidence) ==> WithConfidence(causes, c) == []
    ensures Ranked(causes + [last]) == Ranked(causes) + [last]
  {
    OneMore(causes, last, Confirmed);
    OneMore(causes, last, Likely);
    OneMore(causes, last, Possible);
    hide WithConfidence;
    assert Rank(Possible) < Rank(Likely) < Rank(Confirmed);
    match last.confidence
    case Confirmed =>
      assert WithConfidence(causes, Likely) == [] && WithConfidence(causes, Possible) == [];
    case Likely =>
      assert WithConfidence(causes, Possible) == [];
    case Possible =>
  }

  lemma NoneWeaker(causes: seq<Cause>, last: Cause)
    requires Descending(causes + [last])
    ensures forall c :: Rank(c) < Rank(last.confidence) ==> WithConfidence(causes, c) == []
  {
    hide WithConfidence;
    var all := causes + [last];
    forall c | Rank(c) < Rank(last.confidence)
      ensures WithConfidence(causes, c) == []
    {
      assert forall i :: 0 <= i < |causes| ==>
        all[i] == causes[i] && Rank(all[i].confidence) >= Rank(all[|causes|].confidence);
      FilterNone(causes, c);
    }
  }

  /** The ranking is the one list that descends and keeps equals in order. */
  lemma RankedIsTheStableSort(causes: seq<Cause>, r: seq<Cause>)
    ensures r == Ranked(causes) <==> Descending(r) && Stable(r, causes)
  {
    RankedIsStable(causes);
    RankedDescends(causes);
    if Descending(r) && Stable(r, causes) {
      DescendingIsRanked(r);
    }
  }

  // --------------------------------------------------------------- the diagnosis

  function Diagnose(input: Input, specs: Specs, registry: seq<Rule>): Diagnosis {
    var c := ContextOf(input, specs);
    Diagnosis(c.model.outcome.stage, Ranked(Candidates(registry, c)), c.reports, RuleReports(registry, c))
  }

  method AnalyzeWith(input: Input, specs: Specs, registry: seq<Rule>) returns (d: Diagnosis)
    ensures d == Diagnose(input, specs, registry)
  {
    hide FromInput, Reports, Ranked, Candidates, RuleReports;
    var m := FromInput(input);
    var reports := ResolveContractErrors(m, specs);
    var c := Context(input, m, if m.outcome.stage.Some? then m.outcome.stage.value else Unknown, reports);
    var causes: seq<Cause> := [];
    var ruleReports: seq<RuleReport> := [];
    CandidatesSoFar(registry, c);
    for i := 0 to |registry|
      invariant causes == Candidates(registry[..i], c)
      invariant |ruleReports| == i && ruleReports == RuleReports(registry, c)[..i]
    {
      CandidatesStep(registry, c, i);
      var outcome := registry[i].evaluate(c);
      if outcome.Match? {
        causes := causes + [outcome.cause];
      }
      ruleReports := ruleReports + [RuleReport(registry[i].id, StatusOf(outcome))];
    }
    assert registry[..|registry|] == registry;
    d := Diagnosis(m.outcome.stage, Ranked(causes), reports, ruleReports);
  }

  lemma CandidatesSoFar(registry: seq<Rule>, c: Context)
    ensures Candidates(registry[..0], c) == []
  {
  }

  lemma CandidatesStep(registry: seq<Rule>, c: Context, i: nat)
    requires i < |registry|
    ensures var outcome := registry[i].evaluate(c);
            Candidates(registry[..i + 1], c)
            == Candidates(registry[..i], c) + if outcome.Match? then [outcome.cause] else []
  {
    assert registry[..i + 1][..i] == registry[..i];
  }

  function VerdictOf(d: Diagnosis): Verdict {
    if d.stage.None? then NotAFailure
    else if d.causes != [] then Explained(d.causes[0].confidence)
    else if exists r :: r in d.ruleReports && r.status == Lacking then InsufficientEvidence
    else Unsupported
  }

  /** Whatever the rules are, the verdict names the strongest confidence of any that matched. */
  lemma VerdictIsExact(input: Input, specs: Specs, registry: seq<Rule>)
    ensures var c := ContextOf(input, specs);
            match VerdictOf(Diagnose(input, specs, registry))
            case NotAFailure => c.model.outcome.stage.None?
            case Explained(confidence) =>
              && c.model.outcome.stage.Some?
              && (exists cause :: SomeRule(registry, c, Match(cause)) && cause.confidence == confidence)
              && (forall cause :: SomeRule(registry, c, Match(cause)) ==> Rank(cause.confidence) <= Rank(confidence))
            case InsufficientEvidence =>
              && c.model.outcome.stage.Some?
              && (forall cause :: !SomeRule(registry, c, Match(cause)))
              && SomeRule(registry, c, NoEvidence)
            case Unsupported =>
              && c.model.outcome.stage.Some?
              && forall i :: 0 <= i < |registry| ==> registry[i].evaluate(c) == NotApplicable
  {
    var c := ContextOf(input, specs);
    var causes := Candidates(registry, c);
    RankedDescends(causes);
    RankedMembers(causes);
    LackingIsReported(registry, c);
    hide ContextOf, Candidates, Ranked, RuleReports, SomeRule;
    var ranked := Ranked(causes);
    if ranked != [] {
      assert ranked[0] in ranked;
    } else {
      NoneMatched(registry, c);
    }
  }

  lemma NoneMatched(registry: seq<Rule>, c: Context)
    requires forall cause :: !SomeRule(registry, c, Match(cause))
    ensures SomeRule(registry, c, NoEvidence)
            || forall i :: 0 <= i < |registry| ==> registry[i].evaluate(c) == NotApplicable
  {
    forall i | 0 <= i < |registry| && registry[i].evaluate(c).Match?
      ensures SomeRule(registry, c, Match(registry[i].evaluate(c).cause))
    {
    }
  }

  lemma RankedMembers(causes: seq<Cause>)
    ensures forall c :: c in Ranked(causes) <==> c in causes
  {
  }

  lemma LackingIsReported(registry: seq<Rule>, c: Context)
    ensures (exists r :: r in RuleReports(registry, c) && r.status == Lacking) <==> SomeRule(registry, c, NoEvidence)
  {
    var all := RuleReports(registry, c);
    if i :| 0 <= i < |registry| && registry[i].evaluate(c) == NoEvidence {
      assert all[i] in all;
    }
  }

  lemma SomeBuiltIn(c: Context, outcome: RuleOutcome)
    ensures SomeRule(BuiltInRegistry(), c, outcome)
            <==> exists rule: Builtin :: Evaluate(rule, c.model, c.reports) == outcome
  {
    hide Evaluate;
    var registry := BuiltInRegistry();
    if i :| 0 <= i < |registry| && registry[i].evaluate(c) == outcome {
      assert Evaluate(BUILTIN[i], c.model, c.reports) == outcome;
    }
    if rule: Builtin :| Evaluate(rule, c.model, c.reports) == outcome {
      BuiltInIsRegistered(rule, c);
    }
  }

  lemma BuiltInIsRegistered(rule: Builtin, c: Context)
    ensures exists i :: 0 <= i < |BuiltInRegistry()|
                        && BuiltInRegistry()[i].evaluate(c) == Evaluate(rule, c.model, c.reports)
  {
    var i := Position(rule);
    assert BUILTIN[i] == rule;
    assert BuiltInRegistry()[i] == BuiltInRule(rule);
    hide Evaluate, BuiltInRegistry;
    assert BuiltInRegistry()[i].evaluate(c) == Evaluate(rule, c.model, c.reports);
  }

  /** The built-in rules answer with a match, or no evidence, as their laws say. */
  lemma BuiltInAnswers(c: Context, specs: Specs)
    requires Agrees(c.model.outcome) && c.reports == Reports(c.model, specs)
    ensures (exists cause :: SomeRule(BuiltInRegistry(), c, Match(cause)))
            <==> exists rule: Builtin :: Fires(rule, c.model)
    ensures SomeRule(BuiltInRegistry(), c, NoEvidence) <==> exists rule: Builtin :: Lacks(rule, c.model)
  {
    hide Reports, Evaluate, Fires, Lacks, Silent, SomeRule, BuiltInRegistry, Agrees;
    SomeBuiltIn(c, NoEvidence);
    forall rule: Builtin
      ensures Evaluate(rule, c.model, c.reports).Match? <==> Fires(rule, c.model)
      ensures Evaluate(rule, c.model, c.reports) == NoEvidence <==> Lacks(rule, c.model)
    {
      MatchesExactly(rule, c.model, specs);
      AnswersExactly(rule, c.model, specs);
    }
    if cause :| SomeRule(BuiltInRegistry(), c, Match(cause)) {
      SomeBuiltIn(c, Match(cause));
    }
    if rule: Builtin :| Fires(rule, c.model) {
      SomeBuiltIn(c, Evaluate(rule, c.model, c.reports));
      assert Evaluate(rule, c.model, c.reports) == Match(Evaluate(rule, c.model, c.reports).cause);
    }
  }

  /**
   The verdict of the built-in rules, on what the transaction is alone. Only a
   failure at a stage no rule is for is unsupported, or one in contract execution
   of a transaction without Soroban data, with another kind of terminal error.
   */
  lemma BuiltInVerdict(input: Input, specs: Specs)
    ensures var m := FromInput(input);
            var verdict := VerdictOf(Diagnose(input, specs, BuiltInRegistry()));
            && (verdict == NotAFailure <==> m.outcome.stage.None?)
            && (verdict.Explained? <==> exists rule: Builtin :: Fires(rule, m))
            && (verdict == InsufficientEvidence <==>
                  && AtStage(m, ContractExecution) && !OutsideTheRules(m)
                  && forall rule: Builtin :: !Fires(rule, m))
            && (verdict == Unsupported <==>
                  && m.outcome.stage.Some?
                  && !AtStage(m, StateArchival) && !AtStage(m, ResourceLimit) && !AtStage(m, ResourceFee)
                  && (AtStage(m, ContractExecution) ==> OutsideTheRules(m)))
  {
    var c := ContextOf(input, specs);
    FromInputAgrees(input);
    hide FromInput, Reports, Agrees, OutsideTheRules, BuiltInRegistry, Diagnose;
    VerdictIsExact(input, specs, BuiltInRegistry());
    BuiltInAnswers(c, specs);
    FiringIsAFailure(c.model);
    NothingFires(c.model);
    hide Fires, Lacks, SomeRule, VerdictOf;
    if forall rule: Builtin :: !Fires(rule, c.model) {
      SomeRuleLacks(c.model);
    }
    UnsupportedMeans(c);
  }

  lemma FiringIsAFailure(m: TransactionModel)
    ensures m.outcome.stage.None? ==> forall rule: Builtin :: !Fires(rule, m)
  {
  }

  /** Where every built-in rule is silent, none matches and none lacks evidence; and the other way round. */
  lemma UnsupportedMeans(c: Context)
    ensures (forall i :: 0 <= i < |BuiltInRegistry()| ==> BuiltInRegistry()[i].evaluate(c) == NotApplicable)
            <==> && !SomeRule(BuiltInRegistry(), c, NoEvidence)
                 && forall cause :: !SomeRule(BuiltInRegistry(), c, Match(cause))
  {
    hide BuiltInRegistry;
    if forall cause :: !SomeRule(BuiltInRegistry(), c, Match(cause)) {
      NoneMatched(BuiltInRegistry(), c);
    }
  }

  /** A classic operation that failed is outside what the built-in rules explain. */
  lemma UnderfundedIsUnsupported(input: Input, specs: Specs)
    requires input.result.result == Outer.TxFailed([OpInner(Classic("Payment", "Underfunded", -2))])
    ensures VerdictOf(Diagnose(input, specs, BuiltInRegistry())) == Unsupported
  {
    var op := OpInner(Classic("Payment", "Underfunded", -2));
    StageOfFailedOperation(input.result, Inner.TxFailed([op]), 0, op);
    BuiltInVerdict(input, specs);
    hide Diagnose, VerdictOf, BuiltInRegistry, Reports, ClassifyResult, OutsideTheRules;
  }

  /** No rule of the registry has anything to say about a transaction that succeeded. */
  ghost predicate SilentOnSuccess(registry: seq<Rule>) {
    forall i, c: Context :: 0 <= i < |registry| && c.model.outcome.stage.None? ==>
      registry[i].evaluate(c) == NotApplicable
  }

  /** A transaction that succeeded has no causes, whatever its events say. */
  lemma SuccessHasNoCauses(input: Input, specs: Specs, registry: seq<Rule>)
    requires FromInput(input).outcome.stage.None? && SilentOnSuccess(registry)
    ensures Diagnose(input, specs, registry).causes == []
    ensures forall r :: r in Diagnose(input, specs, registry).ruleReports ==> r.status == Inapplicable
  {
    hide FromInput, Reports, Candidates, RuleReports;
    var c := ContextOf(input, specs);
    assert forall cause :: cause !in Candidates(registry, c);
    RankedMembers(Candidates(registry, c));
  }

  lemma BuiltInsAreSilentOnSuccess()
    ensures SilentOnSuccess(BuiltInRegistry())
  {
    forall i, c: Context | 0 <= i < |BuiltInRegistry()| && c.model.outcome.stage.None?
      ensures BuiltInRegistry()[i].evaluate(c) == NotApplicable
    {
    }
  }

  // --------------------------------------------------- confirmed causes at the top

  ghost predicate InOrder(causes: seq<Cause>) {
    forall i, j :: 0 <= i < j < |causes| ==> Position(causes[i].rule) < Position(causes[j].rule)
  }

  lemma {:induction false} FilterInOrder(causes: seq<Cause>, c: Confidence)
    requires InOrder(causes)
    ensures InOrder(WithConfidence(causes, c))
  {
    if causes != [] {
      var n := |causes| - 1;
      FilterInOrder(causes[..n], c);
      forall x | x in WithConfidence(causes[..n], c)
        ensures Position(x.rule) < Position(causes[n].rule)
      {
        assert x in causes[..n];
      }
    }
  }

  lemma CauseNamesItsRule(rule: Builtin, m: TransactionModel, reports: seq<Report>)
    ensures Evaluate(rule, m, reports).Match? ==> Evaluate(rule, m, reports).cause.rule == rule
  {
    hide EntryFor, Declared, AccessedKey, Corroborated, IsAuthError, Says;
  }

  ghost predicate IsBuiltIn(rule: Rule) {
    exists b: Builtin :: rule == BuiltInRule(b)
  }

  /** Built-in rules, in the order they are registered in. */
  ghost predicate InRegistrationOrder(registry: seq<Rule>) {
    && (forall i :: 0 <= i < |registry| ==> IsBuiltIn(registry[i]))
    && forall i, j :: 0 <= i < j < |registry| ==> Position(registry[i].id) < Position(registry[j].id)
  }

  lemma {:induction false} CandidatesInOrder(registry: seq<Rule>, c: Context)
    requires InRegistrationOrder(registry)
    ensures InOrder(Candidates(registry, c))
    ensures forall cause :: cause in Candidates(registry, c) ==>
              exists i :: 0 <= i < |registry| && registry[i].id == cause.rule
  {
    hide Evaluate;
    if registry != [] {
      var n := |registry| - 1;
      var last: Builtin :| registry[n] == BuiltInRule(last);
      assert forall i :: 0 <= i < n ==> registry[..n][i] == registry[i];
      CandidatesInOrder(registry[..n], c);
      CauseNamesItsRule(last, c.model, c.reports);
      var earlier := Candidates(registry[..n], c);
      forall cause | cause in earlier
        ensures Position(cause.rule) < Position(registry[n].id)
      {
        var i :| 0 <= i < n && registry[..n][i].id == cause.rule;
      }
    }
  }

  /**
   A diagnosis has at most two confirmed causes; two are the invalid and then
   the missing authorization entry.
   */
  lemma ConfirmedCausesOnTop(input: Input, specs: Specs, i: nat, j: nat)
    requires var causes := Diagnose(input, specs, BuiltInRegistry()).causes;
             i < j < |causes| && causes[i].confidence.Confirmed? && causes[j].confidence.Confirmed?
    ensures var causes := Diagnose(input, specs, BuiltInRegistry()).causes;
            i == 0 && j == 1 && causes[0].rule == InvalidAuth && causes[1].rule == MissingAuth
  {
    FromInputIsConsistent(input);
    FromInputAgrees(input);
    hide FromInput, Reports, Consistent, Agrees, Ranked, InOrder, Candidates, OnlyAuthPair, BuiltInRegistry;
    var c := ContextOf(input, specs);
    BuiltInsInOrder();
    CandidatesInOrder(BuiltInRegistry(), c);
    OnlyAuthPairs(c, |OperationsOf(input.result.result)|, specs);
    TopOfRanking(Candidates(BuiltInRegistry(), c), i, j);
  }

  lemma BuiltInsInOrder()
    ensures InRegistrationOrder(BuiltInRegistry())
  {
    var registry := BuiltInRegistry();
    forall i | 0 <= i < |registry|
      ensures IsBuiltIn(registry[i]) && Position(registry[i].id) == i
    {
      BuiltInIs(BUILTIN[i]);
      assert registry[i] == BuiltInRule(BUILTIN[i]);
    }
    hide BuiltInRegistry, BuiltInRule;
  }

  lemma BuiltInIs(rule: Builtin)
    ensures IsBuiltIn(BuiltInRule(rule)) && BuiltInRule(rule).id == rule
  {
    hide Evaluate;
  }

  lemma OnlyAuthPairs(c: Context, results: nat, specs: Specs)
    requires Consistent(c.model, results) && Agrees(c.model.outcome) && c.reports == Reports(c.model, specs)
    ensures var candidates := Candidates(BuiltInRegistry(), c);
            forall a, b :: a in candidates && b in candidates ==> OnlyAuthPair(a, b)
  {
    hide Reports, Consistent, Agrees, Evaluate, SomeRule;
    var candidates := Candidates(BuiltInRegistry(), c);
    forall a, b | a in candidates && b in candidates
      ensures OnlyAuthPair(a, b)
    {
      if a.confidence.Confirmed? && b.confidence.Confirmed? && Position(a.rule) < Position(b.rule) {
        PairOfConfirmed(c, results, specs, a, b);
      }
    }
  }

  predicate OnlyAuthPair(a: Cause, b: Cause) {
    a.confidence.Confirmed? && b.confidence.Confirmed? && Position(a.rule) < Position(b.rule) ==>
      a.rule == InvalidAuth && b.rule == MissingAuth
  }

  lemma TopOfRanking(causes: seq<Cause>, i: nat, j: nat)
    requires InOrder(causes) && forall a, b :: a in causes && b in causes ==> OnlyAuthPair(a, b)
    requires i < j < |Ranked(causes)|
    requires Ranked(causes)[i].confidence.Confirmed? && Ranked(causes)[j].confidence.Confirmed?
    ensures i == 0 && j == 1 && Ranked(causes)[0].rule == InvalidAuth && Ranked(causes)[1].rule == MissingAuth
  {
    OnlyConfirmedFirst(causes, i);
    OnlyConfirmedFirst(causes, j);
    FilterInOrder(causes, Confirmed);
    var confirmed := WithConfidence(causes, Confirmed);
    assert confirmed[0] in confirmed && confirmed[1] in confirmed;
    forall a, b | 0 <= a < b < |confirmed|
      ensures confirmed[a].rule == InvalidAuth && confirmed[b].rule == MissingAuth
    {
      assert confirmed[a] in confirmed && confirmed[b] in confirmed;
      assert OnlyAuthPair(confirmed[a], confirmed[b]);
    }
  }

  /** The confirmed causes are the first of the ranking. */
  lemma OnlyConfirmedFirst(causes: seq<Cause>, i: nat)
    requires i < |Ranked(causes)| && Ranked(causes)[i].confidence.Confirmed?
    ensures i < |WithConfidence(causes, Confirmed)| && Ranked(causes)[i] == WithConfidence(causes, Confirmed)[i]
  {
    EachHas(causes, Likely);
    EachHas(causes, Possible);
    hide WithConfidence;
  }

  lemma ConcludedByBuiltIn(c: Context, cause: Cause) returns (rule: Builtin)
    requires SomeRule(BuiltInRegistry(), c, Match(cause))
    ensures Evaluate(rule, c.model, c.reports) == Match(cause) && rule == cause.rule
  {
    hide Evaluate;
    var i :| 0 <= i < |BuiltInRegistry()| && BuiltInRegistry()[i].evaluate(c) == Match(cause);
    rule := BUILTIN[i];
    CauseNamesItsRule(rule, c.model, c.reports);
  }

  lemma PairOfConfirmed(c: Context, results: nat, specs: Specs, a: Cause, b: Cause)
    requires Consistent(c.model, results) && Agrees(c.model.outcome) && c.reports == Reports(c.model, specs)
    requires a.confidence.Confirmed? && b.confidence.Confirmed? && Position(a.rule) < Position(b.rule)
    requires SomeRule(BuiltInRegistry(), c, Match(a)) && SomeRule(BuiltInRegistry(), c, Match(b))
    ensures a.rule == InvalidAuth && b.rule == MissingAuth
  {
    hide Evaluate, Consistent, Agrees, Reports, SomeRule;
    var r := ConcludedByBuiltIn(c, a);
    var s := ConcludedByBuiltIn(c, b);
    ConfirmedTogether(c.model, results, specs, r, s);
    assert r in {InvalidAuth, MissingAuth} && s in {InvalidAuth, MissingAuth};
  }
}
