/**
 Exactly what each rule cites when it matches: every artefact it rests on, and
 no other (crates/soroban-failure-analysis/src/rules).
 */
module Citations {
  import opened Common
  import opened Soroban
  import opened Events
  import opened CallTree
  import opened Outcomes
  import opened Model
  import opened Resolve
  import opened Rules
  import opened RuleLaws

  /** The event itself, and the one the invocation ended with, if that was its error. */
  ghost predicate EventCited(m: TransactionModel, e: DiagEvent, s: Source) {
    || s == EventAt(e.index)
    || (&& e.kind.Error? && m.diagnostics.terminal.Some? && m.diagnostics.terminal.value.error == e.kind.error
        && s == EventAt(m.diagnostics.terminal.value.eventIndex))
  }

  /** The first entry with credentials for the address the event is about. */
  ghost predicate HolderCited(m: TransactionModel, e: DiagEvent, s: Source) {
    && m.soroban.Some? && AddressIn(e.data).Some?
    && exists k: nat :: && FirstHolder(m.soroban.value.auth, AddressIn(e.data).value, k)
                        && s == AuthEntryAt(m.soroban.value.auth[k].index)
  }

  predicate DeclaresKey(k: LedgerKey, a: ScAddress, key: ScVal) {
    k.ContractData? && k.contract == a && k.key == key
  }

  /** Every footprint entry for the key, under either durability; if there is none, the whole footprint. */
  ghost predicate KeyCited(data: SorobanData, accessed: (ScAddress, ScVal), s: Source) {
    var (a, key) := accessed;
    match s
    case FootprintAt(false, i) => i < |data.readOnly| && DeclaresKey(data.readOnly[i], a, key)
    case FootprintAt(true, i) => i < |data.readWrite| && DeclaresKey(data.readWrite[i], a, key)
    case WholeFootprint => forall k :: k in data.readOnly || k in data.readWrite ==> !DeclaresKey(k, a, key)
    case _ => false
  }

  ghost predicate FootprintCited(m: TransactionModel, e: DiagEvent, s: Source) {
    m.soroban.Some? && AccessedKey(e.data).Some? && KeyCited(m.soroban.value, AccessedKey(e.data).value, s)
  }

  /** The first event of the report other than the terminal one, or else the terminal one. */
  ghost predicate RaisedThere(indexes: seq<nat>, terminal: nat, at: nat) {
    || (at == terminal && forall i :: i in indexes ==> i == terminal)
    || exists k :: 0 <= k < |indexes| && indexes[k] == at != terminal
                   && forall j :: 0 <= j < k ==> indexes[j] == terminal
  }

  /** The report of the code the invocation ended with, its spec, and one event of every other code. */
  ghost predicate ContractErrorCited(rep: Report, terminal: nat, reports: seq<Report>, s: Source) {
    || s == EventAt(terminal)
    || (exists at: nat :: RaisedThere(rep.eventIndexes, terminal, at) && s == EventAt(at))
    || (s == SpecOfContract && !rep.resolution.ContractNotIdentified?)
    || exists other :: other in reports && !other.terminal && other.eventIndexes != []
                       && s == EventAt(other.eventIndexes[0])
  }

  ghost predicate OperationCited(m: TransactionModel, s: Source) {
    m.outcome.failedOperation.Some? && s == OperationAt(m.outcome.failedOperation.value.index)
  }

  /** What the rule cites. */
  ghost predicate Cited(rule: Builtin, m: TransactionModel, reports: seq<Report>, s: Source) {
    var events := m.diagnostics.events;
    match rule
    case Archived => OperationCited(m, s) || (s == SorobanResources && m.soroban.Some?)
    case LimitExceeded =>
      || OperationCited(m, s) || (s == SorobanResources && m.soroban.Some?)
      || (s == ObservedResources
          && ((m.soroban.Some? && "cpu_insn" in m.coreMetrics) || "mem_byte" in m.coreMetrics))
    case InsufficientFee =>
      || OperationCited(m, s) || (s == SorobanResources && m.soroban.Some?)
      || (s == ObservedResources && m.feesCharged.Some?)
    case ContractDefined =>
      && m.diagnostics.terminal.Some? && m.diagnostics.terminal.value.error.Contract?
      && var t := m.diagnostics.terminal.value;
         var rep := TerminalReport(reports, t.error.code);
         rep.Some? && ContractErrorCited(rep.value, t.eventIndex, reports, s)
    case InvalidAuth =>
      exists i: nat :: && IsFirst(events, IsInvalidAuth, i)
                       && (EventCited(m, events[i], s) || HolderCited(m, events[i], s))
    case OutsideFootprint =>
      exists i: nat :: IsFirst(events, IsOutside, i) && (EventCited(m, events[i], s) || FootprintCited(m, events[i], s))
    case Trap =>
      && m.diagnostics.terminal.Some?
      && var t := m.diagnostics.terminal.value;
         || s == EventAt(t.eventIndex)
         || exists i: nat :: IsFirst(events, (e: DiagEvent) => IsTrapOf(e, t.error), i) && s == EventAt(events[i].index)
    case MissingAuth => exists i: nat :: IsFirst(events, IsUnauthorized, i) && EventCited(m, events[i], s)
  }

  /** The evidence of a match. */
  function EvidenceOf(rule: Builtin, m: TransactionModel, reports: seq<Report>): seq<Source> {
    match Evaluate(rule, m, reports)
    case Match(cause) => cause.evidence
    case _ => []
  }

  lemma OnlyFirst(events: seq<DiagEvent>, p: DiagEvent -> bool) returns (i: nat)
    requires FirstWhere(events, p).Some?
    ensures FirstWhere(events, p) == Some(i) && i < |events| && p(events[i])
    ensures forall j: nat :: IsFirst(events, p, j) <==> j == i
  {
    i := FirstWhere(events, p).value;
  }

  lemma RecognisedIsError(e: DiagEvent)
    ensures IsOutside(e) || IsUnauthorized(e) ==> e.kind.Error?
  {
  }

  lemma GatedCites(rule: Builtin, m: TransactionModel, reports: seq<Report>, s: Source)
    requires IsGated(rule) && Evaluate(rule, m, reports).Match?
    ensures s in EvidenceOf(rule, m, reports) <==> Cited(rule, m, reports, s)
  {
  }

  lemma {:induction false} RaisedAtIs(indexes: seq<nat>, terminal: nat)
    ensures RaisedThere(indexes, terminal, RaisedAt(indexes, terminal))
  {
    if indexes != [] {
      var at := RaisedAt(indexes, terminal);
      if indexes[0] != terminal {
        assert indexes[0] == at;
      } else {
        RaisedAtIs(indexes[1..], terminal);
        assert indexes == [indexes[0]] + indexes[1..];
        if k :| 0 <= k < |indexes[1..]| && indexes[1..][k] == at != terminal
                && forall j :: 0 <= j < k ==> indexes[1..][j] == terminal {
          assert indexes[k + 1] == at;
        }
      }
    }
  }

  lemma RaisedOnce(indexes: seq<nat>, terminal: nat, a: nat, b: nat)
    requires RaisedThere(indexes, terminal, a) && RaisedThere(indexes, terminal, b)
    ensures a == b
  {
    assert forall i :: 0 <= i < |indexes| ==> indexes[i] in indexes;
    if a != terminal && b != terminal {
      var k :| 0 <= k < |indexes| && indexes[k] == a && forall i :: 0 <= i < k ==> indexes[i] == terminal;
      var j :| 0 <= j < |indexes| && indexes[j] == b && forall i :: 0 <= i < j ==> indexes[i] == terminal;
      assert !(k < j) && !(j < k);
    }
  }

  lemma {:induction false} OthersAre(reports: seq<Report>, s: Source)
    ensures s in OtherCitations(reports)
            <==> exists other :: other in reports && !other.terminal && other.eventIndexes != []
                                 && s == EventAt(other.eventIndexes[0])
  {
    if reports != [] {
      var n := |reports| - 1;
      OthersAre(reports[..n], s);
      assert reports == reports[..n] + [reports[n]];
    }
  }

  lemma ContractErrorCites(rep: Report, terminal: nat, reports: seq<Report>, s: Source)
    ensures s in ContractErrorCause(rep, terminal, reports).evidence
            <==> ContractErrorCited(rep, terminal, reports, s)
  {
    var at := RaisedAt(rep.eventIndexes, terminal);
    RaisedAtIs(rep.eventIndexes, terminal);
    OthersAre(reports, s);
    forall b: nat | RaisedThere(rep.eventIndexes, terminal, b)
      ensures b == at
    {
      RaisedOnce(rep.eventIndexes, terminal, at, b);
    }
    hide RaisedAt, RaisedThere, OtherCitations, ContractErrorConfidence;
  }

  lemma ContractDefinedCites(m: TransactionModel, reports: seq<Report>, s: Source)
    requires Evaluate(ContractDefined, m, reports).Match?
    ensures s in EvidenceOf(ContractDefined, m, reports) <==> Cited(ContractDefined, m, reports, s)
  {
    hide ContractErrorCause, ContractErrorCited, TerminalReport;
    var t := m.diagnostics.terminal.value;
    ContractErrorCites(TerminalReport(reports, t.error.code).value, t.eventIndex, reports, s);
  }

  function EntryOf(auth: seq<AuthEntry>, e: DiagEvent): Option<AuthEntry> {
    if AddressIn(e.data).Some? then EntryFor(auth, AddressIn(e.data).value) else None
  }

  lemma HolderIs(m: TransactionModel, e: DiagEvent, s: Source)
    requires m.soroban.Some?
    ensures var entry := EntryOf(m.soroban.value.auth, e);
            HolderCited(m, e, s) <==> entry.Some? && s == AuthEntryAt(entry.value.index)
  {
    hide AddressIn;
    if AddressIn(e.data).Some? {
      var auth, a := m.soroban.value.auth, AddressIn(e.data).value;
      forall k: nat | FirstHolder(auth, a, k)
        ensures EntryFor(auth, a) == Some(auth[k])
      {
        EntryForIsFirst(auth, a, k);
      }
      hide EntryFor, FirstHolder;
    }
  }

  lemma InvalidAuthCites(m: TransactionModel, reports: seq<Report>, s: Source)
    requires Evaluate(InvalidAuth, m, reports).Match?
    ensures s in EvidenceOf(InvalidAuth, m, reports) <==> Cited(InvalidAuth, m, reports, s)
  {
    var events := m.diagnostics.events;
    var i := OnlyFirst(events, IsInvalidAuth);
    HolderIs(m, events[i], s);
    hide HolderCited, EntryFor, AddressIn, LedgersIn, Says, Corroborated, IsFirst, IsAuthError;
  }

  lemma KeyIs(data: SorobanData, accessed: (ScAddress, ScVal), s: Source)
    ensures var declared := Declared(data, accessed);
            KeyCited(data, accessed, s) <==> if declared == [] then s == WholeFootprint else s in declared
  {
    var declared := Declared(data, accessed);
    DeclaredIsExact(data, accessed);
    DeclaredAre(data, accessed, s);
    hide Declared, DeclaredIn, IsDeclared, NotDeclared;
    if declared == [] {
      NoneDeclared(data, accessed);
    } else {
      SomeDeclared(data, accessed);
    }
  }

  lemma DeclaredAre(data: SorobanData, accessed: (ScAddress, ScVal), s: Source)
    ensures s in Declared(data, accessed) <==> !s.WholeFootprint? && KeyCited(data, accessed, s)
  {
    hide DeclaredIn;
  }

  lemma NoneDeclared(data: SorobanData, accessed: (ScAddress, ScVal))
    requires NotDeclared(data, accessed)
    ensures KeyCited(data, accessed, WholeFootprint)
  {
  }

  lemma SomeDeclared(data: SorobanData, accessed: (ScAddress, ScVal))
    requires !NotDeclared(data, accessed)
    ensures !KeyCited(data, accessed, WholeFootprint)
  {
  }

  lemma OutsideCites(m: TransactionModel, reports: seq<Report>, s: Source)
    requires Evaluate(OutsideFootprint, m, reports).Match?
    ensures s in EvidenceOf(OutsideFootprint, m, reports) <==> Cited(OutsideFootprint, m, reports, s)
  {
    hide KeyCited, AccessedKey, Declared, IsOutside, IsFirst;
    var events := m.diagnostics.events;
    var i := OnlyFirst(events, IsOutside);
    RecognisedIsError(events[i]);
    if AccessedKey(events[i].data).Some? {
      KeyIs(m.soroban.value, AccessedKey(events[i].data).value, s);
    }
  }

  lemma TrapCites(m: TransactionModel, reports: seq<Report>, s: Source)
    requires Evaluate(Trap, m, reports).Match?
    ensures s in EvidenceOf(Trap, m, reports) <==> Cited(Trap, m, reports, s)
  {
    hide IsTrapOf;
  }

  lemma MissingAuthCites(m: TransactionModel, reports: seq<Report>, s: Source)
    requires Evaluate(MissingAuth, m, reports).Match?
    ensures s in EvidenceOf(MissingAuth, m, reports) <==> Cited(MissingAuth, m, reports, s)
  {
    hide IsUnauthorized, AddressIn, EntryFor, IsFirst;
    var events := m.diagnostics.events;
    var i := OnlyFirst(events, IsUnauthorized);
    RecognisedIsError(events[i]);
  }

  /** A rule that matches cites exactly this. */
  lemma CitationsAreExact(rule: Builtin, m: TransactionModel, reports: seq<Report>, s: Source)
    requires Evaluate(rule, m, reports).Match?
    ensures s in EvidenceOf(rule, m, reports) <==> Cited(rule, m, reports, s)
  {
    hide Evaluate, Cited, EvidenceOf;
    match rule
    case ContractDefined => ContractDefinedCites(m, reports, s);
    case InvalidAuth => InvalidAuthCites(m, reports, s);
    case OutsideFootprint => OutsideCites(m, reports, s);
    case Trap => TrapCites(m, reports, s);
    case MissingAuth => MissingAuthCites(m, reports, s);
    case _ => GatedCites(rule, m, reports, s);
  }

  // ------------------------------------------------------------- how many there are

  function One(b: bool): nat {
    if b then 1 else 0
  }

  /** The entry and the event agree on an expiry that has passed. */
  ghost predicate ExpiryAgrees(m: TransactionModel, e: DiagEvent, k: nat) {
    && m.soroban.Some? && AddressIn(e.data).Some? && LedgersIn(e.data).Some?
    && FirstHolder(m.soroban.value.auth, AddressIn(e.data).value, k)
    && var (current, expiry) := LedgersIn(e.data).value;
       current > expiry && m.soroban.value.auth[k].credentials.signatureExpirationLedger == expiry
  }

  lemma CorroboratedIs(m: TransactionModel, e: DiagEvent)
    requires m.soroban.Some?
    ensures var entry := EntryOf(m.soroban.value.auth, e);
            Corroborated(entry, LedgersIn(e.data)) <==> exists k: nat :: ExpiryAgrees(m, e, k)
  {
    hide AddressIn, LedgersIn;
    if AddressIn(e.data).Some? {
      var auth, a := m.soroban.value.auth, AddressIn(e.data).value;
      forall k: nat | FirstHolder(auth, a, k)
        ensures EntryFor(auth, a) == Some(auth[k])
      {
        EntryForIsFirst(auth, a, k);
      }
      if EntryFor(auth, a).Some? {
        var k: nat :| FirstHolder(auth, a, k);
        assert Corroborated(Some(auth[k]), LedgersIn(e.data)) ==> ExpiryAgrees(m, e, k);
      }
      hide EntryFor;
    }
  }

  /**
   An invalid entry is cited three times; an expired signature once more for its
   ledgers, and once more for the entry that bears it out.
   */
  lemma ExpiryCitations(m: TransactionModel, reports: seq<Report>)
    requires Evaluate(InvalidAuth, m, reports).Match?
    ensures var e := m.diagnostics.events[FirstWhere(m.diagnostics.events, IsInvalidAuth).value];
            var expired := Says(e, EXPIRED_MARKER);
            |EvidenceOf(InvalidAuth, m, reports)|
            == 3 + One(expired && LedgersIn(e.data).Some?) + One(expired && exists k: nat :: ExpiryAgrees(m, e, k))
  {
    var i := OnlyFirst(m.diagnostics.events, IsInvalidAuth);
    CorroboratedIs(m, m.diagnostics.events[i]);
    hide ExpiryAgrees, Corroborated, EntryFor, AddressIn, LedgersIn, Says, IsFirst, IsAuthError;
  }
}
