/**
 Naming contract-defined errors (crates/soroban-failure-analysis/src/contract/resolve.rs
 and contract/spec.rs).
 */
module Resolve {
  import opened Common
  import opened Soroban
  import opened Events
  import opened CallTree
  import opened Model

  const ORIGIN_MARKER := "failing with contract error"

  datatype ErrorCase = ErrorCase(name: string, value: U32, doc: string)
  datatype ErrorEnum = ErrorEnum(name: string, cases: seq<ErrorCase>)
  datatype ContractSpec = ContractSpec(wasmHash: Option<Hash>, errorEnums: seq<ErrorEnum>)
  datatype SpecAvailability = Available(spec: ContractSpec) | Unavailable(reason: string)

  datatype IdentificationBasis = SoleEmitter | OriginMarker

  datatype Identification =
    | Unique(contract: ContractId, basis: IdentificationBasis)
    | Ambiguous(candidates: seq<ContractId>)
    | Unidentified

  datatype Provenance = MatchesFootprint(wasmHash: Hash) | Unverified

  datatype Resolution =
    | Resolved(contract: ContractId, enumName: string, caseName: string, doc: string, provenance: Provenance)
    | CodeNotInSpec(contract: ContractId, provenance: Provenance)
    | AmbiguousInSpec(contract: ContractId, candidates: seq<(string, string)>)
    | SpecUnavailable(contract: ContractId, reason: string)
    | SpecVersionMismatch(contract: ContractId, specWasmHash: Hash)
    | ContractNotIdentified

  datatype Report = Report(
    code: U32, terminal: bool, eventIndexes: seq<nat>, identification: Identification, resolution: Resolution)

  // ---------------------------------------------------------------- identify

  /** An error event that carries this code. */
  predicate Carries(e: DiagEvent, code: U32) {
    e.kind.Error? && e.kind.error == Contract(code)
  }

  predicate Emits(e: DiagEvent, code: U32) {
    Carries(e, code) && e.contract.Some?
  }

  predicate Originates(e: DiagEvent, code: U32) {
    Emits(e, code) && e.kind.message.Some? && ORIGIN_MARKER <= e.kind.message.value
  }

  function AddNew<T(==)>(s: seq<T>, x: T): seq<T> {
    if x in s then s else s + [x]
  }

  /** The contracts of the events that satisfy `p`, each once, in order of first appearance. */
  function ContractsWhere(events: seq<DiagEvent>, p: DiagEvent -> bool): (r: seq<ContractId>)
    requires forall e :: p(e) ==> e.contract.Some?
    ensures Distinct(r)
    ensures forall c :: c in r <==> exists e :: e in events && p(e) && e.contract == Some(c)
  {
    if events == [] then []
    else
      var n := |events| - 1;
      var earlier := ContractsWhere(events[..n], p);
      assert events == events[..n] + [events[n]];
      if p(events[n]) then AddNew(earlier, events[n].contract.value) else earlier
  }

  function Emitters(events: seq<DiagEvent>, code: U32): seq<ContractId> {
    ContractsWhere(events, (e: DiagEvent) => Emits(e, code))
  }

  function Origins(events: seq<DiagEvent>, code: U32): seq<ContractId> {
    ContractsWhere(events, (e: DiagEvent) => Originates(e, code))
  }

  function Decide(emitters: seq<ContractId>, origins: seq<ContractId>): Identification {
    if emitters == [] then Unidentified
    else if |emitters| == 1 then Unique(emitters[0], SoleEmitter)
    else if |origins| == 1 then Unique(origins[0], OriginMarker)
    else Ambiguous(emitters)
  }

  function Identify(events: seq<DiagEvent>, code: U32): Identification {
    Decide(Emitters(events, code), Origins(events, code))
  }

  /** Who emitted the code, and who emitted it with the origin marker. */
  ghost predicate Emitted(events: seq<DiagEvent>, code: U32, c: ContractId) {
    exists e :: e in events && Emits(e, code) && e.contract == Some(c)
  }

  ghost predicate Originated(events: seq<DiagEvent>, code: U32, c: ContractId) {
    exists e :: e in events && Originates(e, code) && e.contract == Some(c)
  }

  ghost predicate OnlyEmitter(events: seq<DiagEvent>, code: U32, c: ContractId) {
    forall d :: Emitted(events, code, d) <==> d == c
  }

  ghost predicate OnlyOrigin(events: seq<DiagEvent>, code: U32, c: ContractId) {
    forall d :: Originated(events, code, d) <==> d == c
  }

  lemma Singleton<T>(s: seq<T>, x: T)
    requires Distinct(s)
    ensures s == [x] <==> forall y :: y in s <==> y == x
  {
    if forall y :: y in s <==> y == x {
      assert x in s;
      assert |s| > 1 ==> s[0] in s && s[1] in s;
    }
  }

  /** Exactly when each answer is given, whatever order the events come in. */
  lemma IdentifyIsExact(events: seq<DiagEvent>, code: U32, c: ContractId)
    ensures Identify(events, code) == Unique(c, SoleEmitter) <==> OnlyEmitter(events, code, c)
    ensures Identify(events, code) == Unique(c, OriginMarker)
            <==> OnlyOrigin(events, code, c) && (exists d :: d != c && Emitted(events, code, d))
    ensures Identify(events, code).Unidentified? <==> forall d :: !Emitted(events, code, d)
    ensures Identify(events, code).Ambiguous? ==>
              && Distinct(Identify(events, code).candidates)
              && forall d :: d in Identify(events, code).candidates <==> Emitted(events, code, d)
  {
    var emitters, origins := Emitters(events, code), Origins(events, code);
    assert forall d :: d in emitters <==> Emitted(events, code, d);
    assert forall d :: d in origins <==> Originated(events, code, d);
    Singleton(emitters, c);
    Singleton(origins, c);
    if OnlyOrigin(events, code, c) {
      assert Originated(events, code, c);
      assert Emitted(events, code, c);
    }
    if emitters != [] {
      assert Emitted(events, code, emitters[0]);
    }
    if |emitters| > 1 {
      assert emitters[0] in emitters && emitters[1] in emitters;
    }
    if |emitters| == 1 {
      assert forall d :: d in emitters <==> d == emitters[0];
    }
  }

  /** The same answer, except that candidates may be listed in another order. */
  ghost predicate SameUpToOrder(a: Identification, b: Identification) {
    a == b
    || (a.Ambiguous? && b.Ambiguous? && Distinct(a.candidates) && Distinct(b.candidates)
        && forall d :: d in a.candidates <==> d in b.candidates)
  }

  lemma IdentifyIgnoresOrder(events: seq<DiagEvent>, others: seq<DiagEvent>, code: U32)
    requires multiset(events) == multiset(others)
    ensures SameUpToOrder(Identify(events, code), Identify(others, code))
  {
    SameEmitters(events, others, code);
    var a, b := Identify(events, code), Identify(others, code);
    hide Identify, OnlyEmitter, OnlyOrigin, Emitted, Originated;
    forall c
      ensures a == Unique(c, SoleEmitter) <==> b == Unique(c, SoleEmitter)
      ensures a == Unique(c, OriginMarker) <==> b == Unique(c, OriginMarker)
    {
      IdentifyIsExact(events, code, c);
      IdentifyIsExact(others, code, c);
    }
    var any := ContractId(seq(32, _ => 0));
    IdentifyIsExact(events, code, any);
    IdentifyIsExact(others, code, any);
  }

  lemma SameEmitters(events: seq<DiagEvent>, others: seq<DiagEvent>, code: U32)
    requires multiset(events) == multiset(others)
    ensures forall c :: Emitted(events, code, c) <==> Emitted(others, code, c)
    ensures forall c :: Originated(events, code, c) <==> Originated(others, code, c)
    ensures forall c :: OnlyEmitter(events, code, c) <==> OnlyEmitter(others, code, c)
    ensures forall c :: OnlyOrigin(events, code, c) <==> OnlyOrigin(others, code, c)
  {
    hide Emits, Originates;
    assert forall e :: e in events <==> e in multiset(events);
    assert forall e :: e in others <==> e in multiset(others);
  }

  // ------------------------------------------------------------------ look up

  datatype Lookup =
    | Found(error_enum: ErrorEnum, case_: ErrorCase)
    | NotFound
    | Conflicting(matches: seq<(ErrorEnum, ErrorCase)>)

  function CasesIn(en: ErrorEnum, cases: seq<ErrorCase>, code: U32): (r: seq<(ErrorEnum, ErrorCase)>)
    ensures forall m :: m in r <==> m.0 == en && m.1 in cases && m.1.value == code
  {
    if cases == [] then []
    else
      assert cases == [cases[0]] + cases[1..];
      (if cases[0].value == code then [(en, cases[0])] else []) + CasesIn(en, cases[1..], code)
  }

  /** Every case of every enum that declares the code, in declaration order. */
  function Matches(enums: seq<ErrorEnum>, code: U32): (r: seq<(ErrorEnum, ErrorCase)>)
    ensures forall m :: m in r <==> m.0 in enums && m.1 in m.0.cases && m.1.value == code
  {
    if enums == [] then []
    else
      assert enums == [enums[0]] + enums[1..];
      CasesIn(enums[0], enums[0].cases, code) + Matches(enums[1..], code)
  }

  function LookUp(spec: ContractSpec, code: U32): Lookup {
    var matches := Matches(spec.errorEnums, code);
    if matches == [] then NotFound
    else if forall m :: m in matches[1..] ==> m.1.name == matches[0].1.name then
      Found(matches[0].0, matches[0].1)
    else Conflicting(matches)
  }

  /** Some enum of the spec declares this case for the code. */
  ghost predicate Declares(spec: ContractSpec, code: U32, en: ErrorEnum, c: ErrorCase) {
    en in spec.errorEnums && c in en.cases && c.value == code
  }

  /** A name is found exactly when the code is declared, and under that name only. */
  ghost predicate DeclaredOnlyAs(spec: ContractSpec, code: U32, name: string) {
    && (exists en, c :: Declares(spec, code, en, c))
    && forall en, c :: Declares(spec, code, en, c) ==> c.name == name
  }

  lemma LookUpIsExact(spec: ContractSpec, code: U32, name: string)
    ensures (LookUp(spec, code).Found? && LookUp(spec, code).case_.name == name) <==> DeclaredOnlyAs(spec, code, name)
    ensures LookUp(spec, code).Found? ==> Declares(spec, code, LookUp(spec, code).error_enum, LookUp(spec, code).case_)
    ensures LookUp(spec, code).NotFound? <==> forall en, c :: !Declares(spec, code, en, c)
  {
    var matches := Matches(spec.errorEnums, code);
    assert forall en, c :: (en, c) in matches <==> Declares(spec, code, en, c);
    if matches != [] {
      assert matches == [matches[0]] + matches[1..];
      assert Declares(spec, code, matches[0].0, matches[0].1);
      if LookUp(spec, code).Conflicting? {
        var m :| m in matches[1..] && m.1.name != matches[0].1.name;
        assert Declares(spec, code, m.0, m.1);
      }
    }
  }

  // ------------------------------------------------------------------ resolve

  type Specs = map<ContractId, SpecAvailability>

  const NO_SPEC_REASON := "no contract spec was supplied for this contract"

  function ResolveAgainst(contract: ContractId, spec: ContractSpec, code: U32, loaded: Option<seq<Hash>>): Resolution {
    if spec.wasmHash.Some? && loaded.Some? && loaded.value != [] && spec.wasmHash.value !in loaded.value then
      SpecVersionMismatch(contract, spec.wasmHash.value)
    else
      var provenance :=
        if spec.wasmHash.Some? && loaded.Some? && loaded.value != [] then MatchesFootprint(spec.wasmHash.value)
        else Unverified;
      match LookUp(spec, code)
      case Found(en, c) => Resolved(contract, en.name, c.name, c.doc, provenance)
      case NotFound => CodeNotInSpec(contract, provenance)
      case Conflicting(matches) => AmbiguousInSpec(contract, CandidateNames(matches))
  }

  function CandidateNames(matches: seq<(ErrorEnum, ErrorCase)>): seq<(string, string)> {
    seq(|matches|, (i: nat) requires i < |matches| => (matches[i].0.name, matches[i].1.name))
  }

  function ResolveOne(code: U32, identification: Identification, specs: Specs, loaded: Option<seq<Hash>>): Resolution {
    match identification
    case Unique(contract, _) =>
      if contract !in specs then SpecUnavailable(contract, NO_SPEC_REASON)
      else
        (match specs[contract]
         case Unavailable(reason) => SpecUnavailable(contract, reason)
         case Available(spec) => ResolveAgainst(contract, spec, code, loaded))
    case _ => ContractNotIdentified
  }

  // ------------------------------------------------- exactly how a code is resolved

  ghost predicate NoneDeclares(cases: seq<ErrorCase>, code: U32) {
    forall c :: c in cases ==> c.value != code
  }

  /** Case `j` of enum `i` is the first that declares the code. */
  ghost predicate DeclaredFirst(enums: seq<ErrorEnum>, code: U32, i: nat, j: nat) {
    && i < |enums| && j < |enums[i].cases| && enums[i].cases[j].value == code
    && NoneDeclares(enums[i].cases[..j], code)
    && forall k :: 0 <= k < i ==> NoneDeclares(enums[k].cases, code)
  }

  lemma {:induction false} FirstCase(en: ErrorEnum, cases: seq<ErrorCase>, code: U32) returns (j: nat)
    requires CasesIn(en, cases, code) != []
    ensures j < |cases| && cases[j].value == code && NoneDeclares(cases[..j], code)
    ensures CasesIn(en, cases, code)[0] == (en, cases[j])
  {
    if cases[0].value == code {
      j := 0;
    } else {
      var k := FirstCase(en, cases[1..], code);
      j := k + 1;
      assert cases[..j] == [cases[0]] + cases[1..][..k];
    }
  }

  lemma {:induction false} NoneHere(en: ErrorEnum, cases: seq<ErrorCase>, code: U32)
    requires CasesIn(en, cases, code) == []
    ensures NoneDeclares(cases, code)
  {
    if cases != [] {
      NoneHere(en, cases[1..], code);
      assert cases == [cases[0]] + cases[1..];
    }
  }

  lemma {:induction false} FirstMatch(enums: seq<ErrorEnum>, code: U32) returns (i: nat, j: nat)
    requires Matches(enums, code) != []
    ensures DeclaredFirst(enums, code, i, j)
    ensures Matches(enums, code)[0] == (enums[i], enums[i].cases[j])
  {
    var here := CasesIn(enums[0], enums[0].cases, code);
    if here != [] {
      i := 0;
      j := FirstCase(enums[0], enums[0].cases, code);
    } else {
      NoneHere(enums[0], enums[0].cases, code);
      assert here + Matches(enums[1..], code) == Matches(enums[1..], code);
      var k;
      k, j := FirstMatch(enums[1..], code);
      i := k + 1;
      hide Matches, NoneDeclares;
      forall n | 0 <= n < i
        ensures NoneDeclares(enums[n].cases, code)
      {
        assert n > 0 ==> enums[n] == enums[1..][n - 1];
      }
    }
  }

  /** The spec is for code that this transaction, which says what it loads, did not load. */
  predicate ForOtherCode(spec: ContractSpec, loaded: Option<seq<Hash>>) {
    spec.wasmHash.Some? && loaded.Some? && loaded.value != [] && spec.wasmHash.value !in loaded.value
  }

  /** What the spec could be checked against. */
  predicate Vouches(p: Provenance, spec: ContractSpec, loaded: Option<seq<Hash>>) {
    match p
    case MatchesFootprint(h) => spec.wasmHash == Some(h) && loaded.Some? && h in loaded.value
    case Unverified => spec.wasmHash.None? || loaded.None? || loaded.value == []
  }

  /** The first case that declares the code, in declaration order, is this one. */
  ghost predicate FirstDeclares(spec: ContractSpec, code: U32, enumName: string, caseName: string, doc: string) {
    exists i: nat, j: nat ::
      && DeclaredFirst(spec.errorEnums, code, i, j)
      && spec.errorEnums[i].name == enumName
      && spec.errorEnums[i].cases[j].name == caseName && spec.errorEnums[i].cases[j].doc == doc
  }

  /** What a spec answers, on what it declares and what was loaded; these exclude each other. */
  ghost predicate Justified(r: Resolution, spec: ContractSpec, code: U32, loaded: Option<seq<Hash>>) {
    match r
    case SpecVersionMismatch(_, h) => ForOtherCode(spec, loaded) && spec.wasmHash == Some(h)
    case CodeNotInSpec(_, p) => Vouches(p, spec, loaded) && forall en, x :: !Declares(spec, code, en, x)
    case AmbiguousInSpec(_, names) =>
      && !ForOtherCode(spec, loaded) && names != [] && (forall name :: !DeclaredOnlyAs(spec, code, name))
      && forall n :: n in names <==> exists en, x :: Declares(spec, code, en, x) && n == (en.name, x.name)
    case Resolved(_, enumName, caseName, doc, p) =>
      && Vouches(p, spec, loaded) && DeclaredOnlyAs(spec, code, caseName)
      && FirstDeclares(spec, code, enumName, caseName, doc)
    case _ => false
  }

  lemma AgainstIsExact(contract: ContractId, spec: ContractSpec, code: U32, loaded: Option<seq<Hash>>)
    ensures var r := ResolveAgainst(contract, spec, code, loaded);
            Justified(r, spec, code, loaded) && !r.ContractNotIdentified? && r.contract == contract
  {
    hide FirstDeclares, DeclaredOnlyAs, LookUp, CandidateNames;
    var found := LookUp(spec, code);
    match found
    case Found(en, c) =>
      LookUpIsExact(spec, code, c.name);
      FoundIsFirst(spec, code);
    case NotFound =>
      LookUpIsExact(spec, code, "");
    case Conflicting(matches) =>
      forall name
        ensures !DeclaredOnlyAs(spec, code, name)
      {
        LookUpIsExact(spec, code, name);
      }
      ConflictNames(spec, code);
  }

  lemma FoundIsFirst(spec: ContractSpec, code: U32)
    requires LookUp(spec, code).Found?
    ensures var Found(en, c) := LookUp(spec, code); FirstDeclares(spec, code, en.name, c.name, c.doc)
  {
    hide DeclaredFirst;
    var i, j := FirstMatch(spec.errorEnums, code);
    assert DeclaredFirst(spec.errorEnums, code, i, j);
  }

  lemma ConflictNames(spec: ContractSpec, code: U32)
    requires LookUp(spec, code).Conflicting?
    ensures var names := CandidateNames(LookUp(spec, code).matches);
            && names != []
            && forall n :: n in names <==> exists en, x :: Declares(spec, code, en, x) && n == (en.name, x.name)
  {
    var matches := LookUp(spec, code).matches;
    var names := CandidateNames(matches);
    assert matches == Matches(spec.errorEnums, code);
    forall n
      ensures n in names <==> exists en, x :: Declares(spec, code, en, x) && n == (en.name, x.name)
    {
      if n in names {
        var i :| 0 <= i < |names| && names[i] == n;
        assert matches[i] in matches;
        assert Declares(spec, code, matches[i].0, matches[i].1);
      }
      if en, x :| Declares(spec, code, en, x) && n == (en.name, x.name) {
        assert (en, x) in matches;
        var i :| 0 <= i < |matches| && matches[i] == (en, x);
        assert names[i] == n;
      }
    }
  }

  /**
   Each answer comes with exactly what it says: who was identified, whether a
   spec was obtained, what it declares, and what was loaded.
   */
  lemma ResolutionIsExact(code: U32, id: Identification, specs: Specs, loaded: Option<seq<Hash>>)
    ensures var r := ResolveOne(code, id, specs, loaded);
            match r
            case ContractNotIdentified => !id.Unique?
            case SpecUnavailable(c, reason) =>
              id.Unique? && id.contract == c && (c in specs ==> specs[c] == Unavailable(reason))
            case _ =>
              && id.Unique? && id.contract == r.contract && r.contract in specs && specs[r.contract].Available?
              && Justified(r, specs[r.contract].spec, code, loaded)
  {
    hide ResolveAgainst, Justified;
    if id.Unique? && id.contract in specs && specs[id.contract].Available? {
      AgainstIsExact(id.contract, specs[id.contract].spec, code, loaded);
      SpecAnswers(id.contract, specs[id.contract].spec, code, loaded);
    }
  }

  lemma SpecAnswers(contract: ContractId, spec: ContractSpec, code: U32, loaded: Option<seq<Hash>>)
    ensures !ResolveAgainst(contract, spec, code, loaded).SpecUnavailable?
  {
    hide LookUp;
  }

  // ------------------------------------------------------------------ reports

  function TerminalCode(terminal: Option<TerminalError>): Option<U32> {
    match terminal
    case Some(t) => if t.error.Contract? then Some(t.error.code) else None
    case None => None
  }

  ghost predicate Raised(events: seq<DiagEvent>, code: U32) {
    exists e :: e in events && Carries(e, code)
  }

  lemma RaisedStep(events: seq<DiagEvent>)
    requires events != []
    ensures var n := |events| - 1;
            forall c :: Raised(events, c) <==> Raised(events[..n], c) || Carries(events[n], c)
  {
    assert events == events[..|events| - 1] + [events[|events| - 1]];
  }

  /** The codes of the error events, each once, in order of first appearance. */
  function CodesRaised(events: seq<DiagEvent>): (r: seq<U32>)
    ensures Distinct(r)
    ensures forall c :: c in r <==> Raised(events, c)
  {
    if events == [] then []
    else
      var n := |events| - 1;
      RaisedStep(events);
      var earlier := CodesRaised(events[..n]);
      if events[n].kind.Error? && events[n].kind.error.Contract? then AddNew(earlier, events[n].kind.error.code)
      else earlier
  }

  function CodesSeen(d: Diagnostics): (r: seq<U32>)
    ensures Distinct(r)
    ensures forall c :: c in r <==> Raised(d.events, c) || TerminalCode(d.terminal) == Some(c)
  {
    var raised := CodesRaised(d.events);
    match TerminalCode(d.terminal)
    case Some(t) => AddNew(raised, t)
    case None => raised
  }

  /** The terminal code first, the others in the order they had. */
  function TerminalFirst(codes: seq<U32>, terminal: Option<U32>): seq<U32> {
    Filter(codes, (c: U32) => Some(c) == terminal) + Filter(codes, (c: U32) => Some(c) != terminal)
  }

  function Loaded(m: TransactionModel): Option<seq<Hash>> {
    match m.soroban
    case Some(s) => Some(ContractCodeHashes(s))
    case None => None
  }

  /** The numbers of the events that carry the code, the terminal event's last. */
  function IndexesOf(events: seq<DiagEvent>, code: U32): (r: seq<nat>)
    ensures forall i :: i in r <==> exists e :: e in events && Carries(e, code) && e.index == i
  {
    if events == [] then []
    else
      var n := |events| - 1;
      assert events == events[..n] + [events[n]];
      IndexesOf(events[..n], code) + if Carries(events[n], code) then [events[n].index] else []
  }

  function ReportOf(m: TransactionModel, specs: Specs, code: U32): Report {
    var d := m.diagnostics;
    var identification := Identify(d.events, code);
    var isTerminal := TerminalCode(d.terminal) == Some(code);
    Report(code, isTerminal,
           IndexesOf(d.events, code) + (if isTerminal then [d.terminal.value.eventIndex] else []),
           identification, ResolveOne(code, identification, specs, Loaded(m)))
  }

  function Codes(m: TransactionModel): seq<U32> {
    TerminalFirst(CodesSeen(m.diagnostics), TerminalCode(m.diagnostics.terminal))
  }

  function Reports(m: TransactionModel, specs: Specs): (r: seq<Report>)
    ensures |r| == |Codes(m)|
  {
    var codes := Codes(m);
    seq(|codes|, (i: nat) requires i < |codes| => ReportOf(m, specs, codes[i]))
  }

  function NeededBy(reports: seq<Report>): (r: seq<ContractId>)
    ensures Distinct(r)
    ensures forall c :: c in r <==> exists rep :: rep in reports && rep.identification.Unique?
                                                && rep.identification.contract == c
  {
    if reports == [] then []
    else
      var n := |reports| - 1;
      var earlier := NeededBy(reports[..n]);
      assert reports == reports[..n] + [reports[n]];
      match reports[n].identification
      case Unique(contract, _) => AddNew(earlier, contract)
      case _ => earlier
  }

  function ContractsNeedingSpecs(m: TransactionModel): seq<ContractId> {
    NeededBy(Reports(m, map[]))
  }

  // --------------------------------------------------------------- properties

  /** Everything that has to hold before an error may be given a name of `c`'s. */
  ghost predicate EarnsNameFrom(m: TransactionModel, specs: Specs, code: U32, name: string, c: ContractId) {
    var events := m.diagnostics.events;
    && (OnlyEmitter(events, code, c) || (OnlyOrigin(events, code, c) && exists d :: d != c && Emitted(events, code, d)))
    && c in specs && specs[c].Available?
    && DeclaredOnlyAs(specs[c].spec, code, name)
    && (specs[c].spec.wasmHash.Some? && Loaded(m).Some? && Loaded(m).value != [] ==>
          specs[c].spec.wasmHash.value in Loaded(m).value)
  }

  /** A name is never a guess, and never withheld when it is earned. */
  lemma NamesAreEarned(m: TransactionModel, specs: Specs, code: U32, name: string, c: ContractId)
    ensures var r := ReportOf(m, specs, code).resolution;
            (r.Resolved? && r.contract == c && r.caseName == name) <==> EarnsNameFrom(m, specs, code, name, c)
  {
    hide Identify, LookUp, Loaded, OnlyEmitter, OnlyOrigin, Emitted, DeclaredOnlyAs, IndexesOf, CandidateNames,
         ResolveAgainst;
    IdentifyIsExact(m.diagnostics.events, code, c);
    if c in specs && specs[c].Available? {
      SpecDecides(c, specs[c].spec, code, Loaded(m), name);
    }
    var id := Identify(m.diagnostics.events, code);
    assert id.Unique? ==> id.basis.SoleEmitter? || id.basis.OriginMarker?;
    if id.Unique? && id.contract in specs && specs[id.contract].Available? {
      SpecDecides(id.contract, specs[id.contract].spec, code, Loaded(m), name);
    }
  }

  lemma SpecDecides(c: ContractId, spec: ContractSpec, code: U32, loaded: Option<seq<Hash>>, name: string)
    ensures var r := ResolveAgainst(c, spec, code, loaded);
            && (r.Resolved? ==> r.contract == c)
            && ((r.Resolved? && r.caseName == name) <==>
                  && DeclaredOnlyAs(spec, code, name)
                  && (spec.wasmHash.Some? && loaded.Some? && loaded.value != [] ==>
                        spec.wasmHash.value in loaded.value))
  {
    hide LookUp, DeclaredOnlyAs, CandidateNames;
    LookUpIsExact(spec, code, name);
  }

  /** A report's events exist and every one of them carries the code. */
  lemma ReportsCiteTheirCode(m: TransactionModel, specs: Specs, results: nat, k: nat)
    requires Consistent(m, results) && k < |Codes(m)|
    ensures var r := Reports(m, specs)[k];
            && r.eventIndexes != []
            && forall i :: i in r.eventIndexes ==>
                 && i < |m.diagnostics.events|
                 && (Carries(m.diagnostics.events[i], r.code)
                     || m.diagnostics.events[i].kind == HostFnFailed(Contract(r.code)))
    ensures var r := Reports(m, specs)[k];
            && (forall i: nat :: i < |m.diagnostics.events| && Carries(m.diagnostics.events[i], r.code) ==>
                  i in r.eventIndexes)
            && (r.terminal ==>
                  m.diagnostics.terminal.Some? && m.diagnostics.terminal.value.eventIndex in r.eventIndexes)
  {
    hide *;
    CodeIsSeen(m, k);
    ReportOfCites(m, specs, results, Codes(m)[k]);
    ReportIs(m, specs, k);
  }

  lemma ReportIs(m: TransactionModel, specs: Specs, k: nat)
    requires k < |Codes(m)|
    ensures Reports(m, specs)[k] == ReportOf(m, specs, Codes(m)[k])
  {
    hide ReportOf, Codes;
  }

  lemma CodeIsSeen(m: TransactionModel, k: nat)
    requires k < |Codes(m)|
    ensures Raised(m.diagnostics.events, Codes(m)[k]) || TerminalCode(m.diagnostics.terminal) == Some(Codes(m)[k])
  {
    hide CodesSeen, Raised, TerminalCode;
    assert Codes(m)[k] in Codes(m);
    assert Codes(m)[k] in CodesSeen(m.diagnostics);
  }

  lemma ReportOfCites(m: TransactionModel, specs: Specs, results: nat, code: U32)
    requires Consistent(m, results)
    requires Raised(m.diagnostics.events, code) || TerminalCode(m.diagnostics.terminal) == Some(code)
    ensures var r := ReportOf(m, specs, code);
            && r.code == code
            && r.eventIndexes != []
            && (forall i :: i in r.eventIndexes ==>
                  && i < |m.diagnostics.events|
                  && (Carries(m.diagnostics.events[i], code)
                      || m.diagnostics.events[i].kind == HostFnFailed(Contract(code))))
            && (forall i: nat :: i < |m.diagnostics.events| && Carries(m.diagnostics.events[i], code) ==>
                  i in r.eventIndexes)
            && (r.terminal ==>
                  m.diagnostics.terminal.Some? && m.diagnostics.terminal.value.eventIndex in r.eventIndexes)
  {
    hide Identify, ResolveOne, Loaded, IndexesOf;
    var d := m.diagnostics;
    if TerminalCode(d.terminal) != Some(code) {
      var e :| e in d.events && Carries(e, code);
      assert e.index in IndexesOf(d.events, code);
    }
    forall i: nat | i < |d.events| && Carries(d.events[i], code)
      ensures i in IndexesOf(d.events, code)
    {
      assert d.events[i] in d.events;
    }
  }

  /** Every code seen has exactly one report, and only the terminal one is marked, first. */
  lemma ReportsCoverTheCodes(m: TransactionModel, specs: Specs)
    ensures Distinct(Codes(m))
    ensures forall c :: c in Codes(m) <==> c in CodesSeen(m.diagnostics)
    ensures forall k :: 0 <= k < |Codes(m)| ==> (Reports(m, specs)[k].terminal <==>
                        k == 0 && TerminalCode(m.diagnostics.terminal).Some?)
  {
    hide Identify, ResolveOne, Loaded, IndexesOf, TerminalFirst;
    var d := m.diagnostics;
    var codes, terminal := CodesSeen(d), TerminalCode(d.terminal);
    TerminalFirstIsAPermutation(codes, terminal);
  }

  lemma {:induction false} FilterDistinct(codes: seq<U32>, p: U32 -> bool)
    requires Distinct(codes)
    ensures Distinct(Filter(codes, p))
  {
    if codes != [] {
      FilterDistinct(codes[..|codes| - 1], p);
    }
  }

  lemma AtMostOne(s: seq<U32>, x: U32)
    requires Distinct(s) && forall i :: 0 <= i < |s| ==> s[i] == x
    ensures |s| <= 1
  {
    DistinctSize(s);
    assert Elements(s) == {} || Elements(s) == {x};
  }

  lemma TerminalFirstIsAPermutation(codes: seq<U32>, terminal: Option<U32>)
    requires Distinct(codes)
    ensures var r := TerminalFirst(codes, terminal);
            && Distinct(r)
            && (forall c :: c in r <==> c in codes)
            && (terminal.Some? && terminal.value in codes ==> r[0] == terminal.value)
            && (terminal.Some? ==> forall k :: 0 < k < |r| ==> r[k] != terminal.value)
  {
    var isTerminal, isOther := (c: U32) => Some(c) == terminal, (c: U32) => Some(c) != terminal;
    FilterDistinct(codes, isTerminal);
    FilterDistinct(codes, isOther);
    var first, rest := Filter(codes, isTerminal), Filter(codes, isOther);
    if terminal.Some? {
      forall i | 0 <= i < |first|
        ensures first[i] == terminal.value
      {
        assert first[i] in first;
      }
      AtMostOne(first, terminal.value);
    }
    if terminal.Some? && terminal.value in codes {
      assert terminal.value in first;
      assert first[0] in first;
    }
    assert forall k :: 0 <= k < |rest| ==> rest[k] in rest;
  }

  /** Which specs are given for contracts nobody needs makes no difference. */
  lemma OnlyNeededSpecsMatter(m: TransactionModel, specs: Specs, others: Specs)
    requires forall c :: c in ContractsNeedingSpecs(m) ==>
               (c in specs <==> c in others) && (c in specs ==> specs[c] == others[c])
    ensures Reports(m, specs) == Reports(m, others)
  {
    hide Identify, IndexesOf, Loaded, ResolveAgainst, TerminalCode, Codes;
    forall k | 0 <= k < |Codes(m)|
      ensures Reports(m, specs)[k] == Reports(m, others)[k]
    {
      var bare := Reports(m, map[])[k];
      assert bare in Reports(m, map[]);
      if bare.identification.Unique? {
        assert bare.identification.contract in ContractsNeedingSpecs(m);
      }
    }
  }

  // ---------------------------------------------------------------- the code

  method IdentifyContract(events: seq<DiagEvent>, code: U32) returns (r: Identification)
    ensures r == Identify(events, code)
  {
    var emitters: seq<ContractId> := [];
    var origins: seq<ContractId> := [];
    for i := 0 to |events|
      invariant emitters == Emitters(events[..i], code)
      invariant origins == Origins(events[..i], code)
    {
      var e := events[i];
      assert events[..i + 1][..i] == events[..i];
      if e.kind.Error? && e.contract.Some? && e.kind.error == Contract(code) {
        var contract := e.contract.value;
        if contract !in emitters {
          emitters := emitters + [contract];
        }
        if e.kind.message.Some? && ORIGIN_MARKER <= e.kind.message.value && contract !in origins {
          origins := origins + [contract];
        }
      }
    }
    assert events[..|events|] == events;
    r := Decide(emitters, origins);
  }

  lemma OneMoreEvent(events: seq<DiagEvent>, i: nat)
    requires i < |events|
    ensures var e := events[i];
            CodesRaised(events[..i + 1])
            == if e.kind.Error? && e.kind.error.Contract? then AddNew(CodesRaised(events[..i]), e.kind.error.code)
               else CodesRaised(events[..i])
  {
    assert events[..i + 1][..i] == events[..i];
  }

  lemma NoCodesYet(events: seq<DiagEvent>)
    ensures CodesRaised(events[..0]) == []
  {
  }

  lemma CodesAre(m: TransactionModel, raised: seq<U32>)
    requires raised == CodesRaised(m.diagnostics.events)
    ensures var terminal := TerminalCode(m.diagnostics.terminal);
            Codes(m)
            == TerminalFirst(if terminal.Some? && terminal.value !in raised then raised + [terminal.value] else raised,
                             terminal)
  {
    hide CodesRaised, TerminalFirst;
  }

  method ResolveContractErrors(m: TransactionModel, specs: Specs) returns (reports: seq<Report>)
    ensures reports == Reports(m, specs)
  {
    hide ReportOf, IndexesOf, TerminalFirst, CodesRaised, Codes, Reports;
    var d := m.diagnostics;
    var terminal := TerminalCode(d.terminal);
    var codes: seq<U32> := [];
    NoCodesYet(d.events);
    for i := 0 to |d.events|
      invariant codes == CodesRaised(d.events[..i])
    {
      var e := d.events[i];
      OneMoreEvent(d.events, i);
      if e.kind.Error? && e.kind.error.Contract? && e.kind.error.code !in codes {
        codes := codes + [e.kind.error.code];
      }
    }
    assert d.events[..|d.events|] == d.events;
    CodesAre(m, codes);
    if terminal.Some? && terminal.value !in codes {
      codes := codes + [terminal.value];
    }
    codes := TerminalFirst(codes, terminal);
    assert codes == Codes(m);
    reports := [];
    for i := 0 to |codes|
      invariant |reports| == i && reports == Reports(m, specs)[..i]
    {
      ReportIs(m, specs, i);
      reports := reports + [ReportOf(m, specs, codes[i])];
    }
    assert Reports(m, specs)[..|codes|] == Reports(m, specs);
  }

  method FindNeeded(m: TransactionModel) returns (out: seq<ContractId>)
    ensures out == ContractsNeedingSpecs(m)
  {
    hide Reports, Codes, Identify, ReportOf;
    out := [];
    var reports := ResolveContractErrors(m, map[]);
    for i := 0 to |reports|
      invariant out == NeededBy(reports[..i])
    {
      assert reports[..i + 1][..i] == reports[..i];
      var id := reports[i].identification;
      if id.Unique? && id.contract !in out {
        out := out + [id.contract];
      }
    }
    assert reports[..|reports|] == reports;
  }
}
