/**
 The transaction the engine reasons about: Soroban data and declared footprint
 (crates/soroban-failure-analysis/src/model/soroban.rs), outcome and diagnostics.
 */
module Model {
  import opened Common
  import opened Soroban
  import opened Events
  import opened CallTree
  import opened Outcomes

  datatype AuthCredentials =
    | SourceAccount
    | Address(address: ScAddress, nonce: I64, signatureExpirationLedger: U32)

  datatype AuthEntry = AuthEntry(index: nat, credentials: AuthCredentials)

  datatype ChargedFees = ChargedFees(nonRefundable: I64, refundable: I64, rent: I64)

  datatype SorobanData = SorobanData(auth: seq<AuthEntry>, readOnly: seq<LedgerKey>, readWrite: seq<LedgerKey>)

  datatype TransactionModel = TransactionModel(
    sourceAccount: string, soroban: Option<SorobanData>, outcome: Outcome, diagnostics: Diagnostics,
    coreMetrics: map<string, U64>, feesCharged: Option<ChargedFees>)

  /** An operation of the envelope, as far as authorization goes. */
  datatype EnvelopeOperation = InvokeOperation(auth: seq<AuthCredentials>) | OtherOperation

  datatype Footprint = Footprint(readOnly: seq<LedgerKey>, readWrite: seq<LedgerKey>)

  datatype Input = Input(
    sourceAccount: string, operations: seq<EnvelopeOperation>, footprint: Option<Footprint>,
    result: TransactionResult, events: seq<RawEvent>, diagnosticsEnabled: bool,
    feesCharged: Option<ChargedFees>)

  function CredentialsOf(operations: seq<EnvelopeOperation>): seq<AuthCredentials> {
    if operations == [] then []
    else
      (if operations[0].InvokeOperation? then operations[0].auth else []) + CredentialsOf(operations[1..])
  }

  /** The authorization entries of every invoke operation, numbered throughout. */
  function AuthOf(operations: seq<EnvelopeOperation>): (r: seq<AuthEntry>)
    ensures |r| == |CredentialsOf(operations)|
    ensures forall i :: 0 <= i < |r| ==> r[i].index == i
  {
    var credentials := CredentialsOf(operations);
    seq(|credentials|, (i: nat) requires i < |credentials| => AuthEntry(i, credentials[i]))
  }

  lemma {:induction false} CredentialsConcat(a: seq<EnvelopeOperation>, b: seq<EnvelopeOperation>)
    ensures CredentialsOf(a + b) == CredentialsOf(a) + CredentialsOf(b)
  {
    if a == [] {
      assert a + b == b;
    } else {
      CredentialsConcat(a[1..], b);
      assert (a + b)[1..] == a[1..] + b;
    }
  }

  /** The `k`-th entry of operation `j` comes after all those of earlier operations. */
  lemma AuthNumbers(operations: seq<EnvelopeOperation>, j: nat, k: nat)
    requires j < |operations| && operations[j].InvokeOperation? && k < |operations[j].auth|
    ensures var at := |CredentialsOf(operations[..j])| + k;
            at < |AuthOf(operations)| && AuthOf(operations)[at] == AuthEntry(at, operations[j].auth[k])
  {
    assert operations == operations[..j] + operations[j..];
    CredentialsConcat(operations[..j], operations[j..]);
  }

  /** And there are no others. */
  lemma {:induction false} AuthHasAnOperation(operations: seq<EnvelopeOperation>, at: nat) returns (j: nat, k: nat)
    requires at < |CredentialsOf(operations)|
    ensures j < |operations| && operations[j].InvokeOperation? && k < |operations[j].auth|
    ensures at == |CredentialsOf(operations[..j])| + k
  {
    var first := if operations[0].InvokeOperation? then operations[0].auth else [];
    if at < |first| {
      j, k := 0, at;
    } else {
      j, k := AuthHasAnOperation(operations[1..], at - |first|);
      assert operations[..j + 1] == [operations[0]] + operations[1..][..j];
      CredentialsConcat([operations[0]], operations[1..][..j]);
      assert CredentialsOf([operations[0]]) == first;
      j := j + 1;
    }
  }

  /** Every metric with a value, the last report of each name winning. */
  function CoreMetrics(events: seq<DiagEvent>): map<string, U64> {
    if events == [] then map[]
    else
      var n := |events| - 1;
      var earlier := CoreMetrics(events[..n]);
      match events[n].kind
      case CoreMetric(name, Some(v)) => earlier[name := v]
      case _ => earlier
  }

  /** Event `i` is the last that gives the metric a value. */
  ghost predicate LastMetric(events: seq<DiagEvent>, name: string, v: U64, i: nat) {
    && i < |events| && events[i].kind == CoreMetric(name, Some(v))
    && forall j, w :: i < j < |events| ==> events[j].kind != CoreMetric(name, Some(w))
  }

  lemma {:induction false} MetricIsTheLast(events: seq<DiagEvent>, name: string, v: U64)
    ensures name in CoreMetrics(events) && CoreMetrics(events)[name] == v
            <==> exists i: nat :: LastMetric(events, name, v, i)
  {
    if events != [] {
      var n := |events| - 1;
      MetricIsTheLast(events[..n], name, v);
      if i: nat :| LastMetric(events[..n], name, v, i) {
        assert events[..n][i] == events[i];
        if forall w :: events[n].kind != CoreMetric(name, Some(w)) {
          assert LastMetric(events, name, v, i);
        }
      }
      if i: nat :| LastMetric(events, name, v, i) {
        if i < n {
          assert LastMetric(events[..n], name, v, i);
        }
      }
      if events[n].kind == CoreMetric(name, Some(v)) {
        assert LastMetric(events, name, v, n);
      }
    }
  }

  function FromInput(input: Input): TransactionModel {
    var diagnostics := FromEvents(input.events, input.diagnosticsEnabled);
    TransactionModel(
      input.sourceAccount,
      (match input.footprint
       case Some(f) => Some(SorobanData(AuthOf(input.operations), f.readOnly, f.readWrite))
       case None => None),
      ClassifyResult(input.result),
      diagnostics,
      CoreMetrics(diagnostics.events),
      input.feesCharged)
  }

  /** WASM hashes of every `ContractCode` entry in the footprint, read-only first. */
  function CodeHashes(keys: seq<LedgerKey>): seq<Hash> {
    if keys == [] then []
    else (if keys[0].ContractCode? then [keys[0].hash] else []) + CodeHashes(keys[1..])
  }

  lemma {:induction false} CodeHashesAre(keys: seq<LedgerKey>)
    ensures forall h :: h in CodeHashes(keys) <==> ContractCode(h) in keys
  {
    if keys != [] {
      assert keys == [keys[0]] + keys[1..];
      CodeHashesAre(keys[1..]);
    }
  }

  function ContractCodeHashes(s: SorobanData): (r: seq<Hash>)
    ensures forall h :: h in r <==> ContractCode(h) in s.readOnly || ContractCode(h) in s.readWrite
  {
    CodeHashesAre(s.readOnly + s.readWrite);
    CodeHashes(s.readOnly + s.readWrite)
  }

  lemma {:induction false} CodeHashesConcat(a: seq<LedgerKey>, b: seq<LedgerKey>)
    ensures CodeHashes(a + b) == CodeHashes(a) + CodeHashes(b)
  {
    if a == [] {
      assert a + b == b;
    } else {
      CodeHashesConcat(a[1..], b);
      assert (a + b)[1..] == a[1..] + b;
    }
  }

  /** Read-only entries first, each list in its own order: a hash follows those of the entries before it. */
  lemma HashesInOrder(s: SorobanData, i: nat)
    requires i < |s.readOnly + s.readWrite| && (s.readOnly + s.readWrite)[i].ContractCode?
    ensures var keys := s.readOnly + s.readWrite;
            var at := |CodeHashes(keys[..i])|;
            at < |ContractCodeHashes(s)| && ContractCodeHashes(s)[at] == keys[i].hash
    ensures ContractCodeHashes(s) == CodeHashes(s.readOnly) + CodeHashes(s.readWrite)
  {
    var keys := s.readOnly + s.readWrite;
    assert keys == keys[..i] + keys[i..];
    CodeHashesConcat(keys[..i], keys[i..]);
    CodeHashesConcat(s.readOnly, s.readWrite);
  }

  // ------------------------------------------------ what every built model keeps

  /** Everything numbered in the model is numbered by its position. */
  ghost predicate Consistent(m: TransactionModel, results: nat) {
    && (forall i :: 0 <= i < |m.diagnostics.events| ==> m.diagnostics.events[i].index == i)
    && m.diagnostics.terminal == TerminalOf(m.diagnostics.events)
    && (m.soroban.Some? ==>
          forall i :: 0 <= i < |m.soroban.value.auth| ==> m.soroban.value.auth[i].index == i)
    && (m.outcome.failedOperation.Some? ==> m.outcome.failedOperation.value.index < results)
  }

  /** A built model is consistent, and has of the envelope what was declared. */
  lemma FromInputIsConsistent(input: Input)
    ensures Consistent(FromInput(input), |OperationsOf(input.result.result)|)
    ensures var m := FromInput(input);
            && m.sourceAccount == input.sourceAccount && m.feesCharged == input.feesCharged
            && m.diagnostics.emitted == input.diagnosticsEnabled && |m.diagnostics.events| == |input.events|
            && (m.soroban.Some? <==> input.footprint.Some?)
            && (m.soroban.Some? ==>
                  && m.soroban.value.readOnly == input.footprint.value.readOnly
                  && m.soroban.value.readWrite == input.footprint.value.readWrite
                  && |m.soroban.value.auth| == |CredentialsOf(input.operations)|)
  {
    hide KindOf, Reconstruct, CoreMetrics, TerminalOf, FirstFailedOperation, OuterName, InnerName;
    FailedOperationIsFirst(input.result);
    hide ClassifyResult;
  }
}
