/**
 Census records and the keys the selection caps rest on
 (crates/soroban-failure-rpc/src/cluster.rs and the eligibility checks of
 crates/soroban-failure-rpc/examples/pilot_report.rs:84-96). Account and contract
 strkeys are opaque text.
 */
module Clusters {
  import opened Common
  import opened Soroban
  import opened FetchSpecs

  datatype UnresolvedCode = InstanceUnavailable | NotInFootprint | UnsupportedExecutable

  datatype CodeIdentity = Resolved(key: string) | Unresolved(reason: UnresolvedCode)

  datatype InstanceLookup = Found(executable: Executable) | NotFound | Failed

  datatype PilotRecord = PilotRecord(
    transactionHash: string, ledger: U32, operationCount: nat, diagnosticEventCount: nat,
    submitterCluster: string, rootContract: Option<string>,
    codeCluster: Option<string>, codeUnresolvedReason: Option<UnresolvedCode>)

  datatype Exclusion =
    | UnexpectedOperationCount | NoDiagnosticEvents | NoRootContractInvocation | Code(reason: UnresolvedCode)

  const STELLAR_ASSET_CLUSTER := "builtin:stellar-asset-contract"

  function CodeCluster(instance: Option<Executable>, footprintCode: seq<Hash>): CodeIdentity {
    match instance
    case None => Unresolved(InstanceUnavailable)
    case Some(WasmExecutable(hash)) =>
      if hash in footprintCode then Resolved("wasm:" + Hex(hash)) else Unresolved(NotInFootprint)
    case Some(StellarAsset) => Resolved(STELLAR_ASSET_CLUSTER)
    case Some(ExternalRef) => Unresolved(UnsupportedExecutable)
  }

  function ExecutableOf(lookup: Option<InstanceLookup>): Option<Executable> {
    match lookup
    case Some(Found(executable)) => Some(executable)
    case _ => None
  }

  function NewRecord(
    hash: string, ledger: U32, operations: nat, events: nat, submitter: string, root: Option<string>,
    lookup: Option<InstanceLookup>, footprintCode: seq<Hash>): PilotRecord
  {
    var identity: Option<CodeIdentity> :=
      if root.None? then None else Some(CodeCluster(ExecutableOf(lookup), footprintCode));
    PilotRecord(
      hash, ledger, operations, events, submitter, root,
      match identity { case Some(Resolved(key)) => Some(key) case _ => None },
      match identity { case Some(Unresolved(reason)) => Some(reason) case _ => None })
  }

  /** What the answer to asking for the root contract's instance says of its code. */
  predicate Decides(answer: InstanceLookup, footprintCode: seq<Hash>, r: PilotRecord) {
    match answer
    case Found(WasmExecutable(h)) =>
      if h in footprintCode then r.codeCluster == Some("wasm:" + Hex(h)) && r.codeUnresolvedReason == None
      else r.codeCluster == None && r.codeUnresolvedReason == Some(NotInFootprint)
    case Found(StellarAsset) =>
      r.codeCluster == Some("builtin:stellar-asset-contract") && r.codeUnresolvedReason == None
    case Found(ExternalRef) => r.codeCluster == None && r.codeUnresolvedReason == Some(UnsupportedExecutable)
    case NotFound => r.codeCluster == None && r.codeUnresolvedReason == Some(InstanceUnavailable)
    case Failed => r.codeCluster == None && r.codeUnresolvedReason == Some(InstanceUnavailable)
  }

  function ExclusionOf(r: PilotRecord): Option<Exclusion> {
    if r.operationCount != 1 then Some(UnexpectedOperationCount)
    else if r.diagnosticEventCount == 0 then Some(NoDiagnosticEvents)
    else if r.rootContract.None? then Some(NoRootContractInvocation)
    else
      match r.codeUnresolvedReason
      case Some(reason) => Some(Code(reason))
      case None => None
  }

  /** A record that is written and not excluded has a code cluster, so selecting it cannot fail. */
  lemma EligibleRecordsHaveCode(
    hash: string, ledger: U32, operations: nat, events: nat, submitter: string, root: Option<string>,
    lookup: Option<InstanceLookup>, footprintCode: seq<Hash>)
    ensures var r := NewRecord(hash, ledger, operations, events, submitter, root, lookup, footprintCode);
            && (ExclusionOf(r).None? ==> r.codeCluster.Some?)
            && (ExclusionOf(r).None? <==>
                  && operations == 1 && events > 0 && root.Some?
                  && ExecutableOf(lookup).Some?
                  && match ExecutableOf(lookup).value {
                       case WasmExecutable(h) => h in footprintCode
                       case StellarAsset => true
                       case ExternalRef => false
                     })
  {
  }

  /** The reason given is the first check that fails; an unresolved code is the last. */
  lemma ExclusionIsExact(r: PilotRecord, reason: UnresolvedCode)
    ensures ExclusionOf(r) == Some(UnexpectedOperationCount) <==> r.operationCount != 1
    ensures ExclusionOf(r) == Some(NoDiagnosticEvents) <==> r.operationCount == 1 && r.diagnosticEventCount == 0
    ensures ExclusionOf(r) == Some(NoRootContractInvocation)
            <==> r.operationCount == 1 && r.diagnosticEventCount > 0 && r.rootContract == None
    ensures ExclusionOf(r) == Some(Code(reason))
            <==> && r.operationCount == 1 && r.diagnosticEventCount > 0 && r.rootContract.Some?
                 && r.codeUnresolvedReason == Some(reason)
  {
  }

  lemma {:induction false} HexIsInjective(a: Bytes, b: Bytes)
    requires Hex(a) == Hex(b)
    ensures a == b
  {
    assert |a| == |b|;
    if a != [] {
      var s, t := Hex(a), Hex(b);
      assert s[0] == HexDigit(a[0] / 16) && s[1] == HexDigit(a[0] % 16) && s[2..] == Hex(a[1..]);
      assert t[0] == HexDigit(b[0] / 16) && t[1] == HexDigit(b[0] % 16) && t[2..] == Hex(b[1..]);
      DigitIsInjective(a[0] / 16, b[0] / 16);
      DigitIsInjective(a[0] % 16, b[0] % 16);
      assert a[0] == b[0];
      HexIsInjective(a[1..], b[1..]);
      assert a == [a[0]] + a[1..] && b == [b[0]] + b[1..];
    }
  }

  lemma DigitIsInjective(m: nat, n: nat)
    requires m < 16 && n < 16
    ensures HexDigit(m) == HexDigit(n) <==> m == n
  {
    var digits := "0123456789abcdef";
    assert forall i, j :: 0 <= i < j < 16 ==> digits[i] < digits[j];
  }

  /** Two transactions share a code cluster exactly when they ran the same code. */
  lemma KeysIdentifyCode(a: Executable, b: Executable, footprintA: seq<Hash>, footprintB: seq<Hash>)
    requires CodeCluster(Some(a), footprintA).Resolved? && CodeCluster(Some(b), footprintB).Resolved?
    ensures CodeCluster(Some(a), footprintA) == CodeCluster(Some(b), footprintB) <==> a == b
  {
    if a.WasmExecutable? && b.WasmExecutable? {
      var s, t := "wasm:" + Hex(a.hash), "wasm:" + Hex(b.hash);
      if s == t {
        assert s[5..] == Hex(a.hash) && t[5..] == Hex(b.hash);
        HexIsInjective(a.hash, b.hash);
      }
    } else {
      assert forall h: Hash :: ("wasm:" + Hex(h))[0] == 'w';
      assert STELLAR_ASSET_CLUSTER[0] == 'b';
    }
  }
}
