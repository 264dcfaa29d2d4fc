/**
 The probe's own reading of a transaction result
 (tools/rpc-probe/src/result_codes.rs), and where it agrees with `Outcomes`.
 */
module Probe {
  import opened Common
  import opened Soroban
  import opened Outcomes

  datatype FailureSignal = FailureSignal(
    feeBumped: bool, operationResults: seq<string>, failedInContractExecution: bool)

  function OperationResultName(op: OperationResult): (string, bool) {
    match op
    case OpInner(InvokeHostFunction(r)) =>
      (match r
       case InvokeSuccess => ("invoke_host_function_success", false)
       case InvokeMalformed => ("invoke_host_function_malformed", true)
       case Trapped => ("invoke_host_function_trapped", true)
       case InvokeResourceLimitExceeded => ("invoke_host_function_resource_limit_exceeded", true)
       case EntryArchived => ("invoke_host_function_entry_archived", true)
       case InvokeInsufficientRefundableFee => ("invoke_host_function_insufficient_refundable_fee", true))
    case OpInner(ExtendFootprintTtl(_)) => ("extend_footprint_ttl", false)
    case OpInner(RestoreFootprint(_)) => ("restore_footprint", false)
    case OpInner(Classic(_, _, _)) => ("op_inner_classic", false)
    case OpBadAuth => ("op_bad_auth", false)
    case OpNoAccount => ("op_no_account", false)
    case OpNotSupported => ("op_not_supported", false)
    case OpTooManySubentries => ("op_too_many_subentries", false)
    case OpExceededWorkLimit => ("op_exceeded_work_limit", false)
    case OpTooManySponsoring => ("op_too_many_sponsoring", false)
  }

  function OpNames(ops: seq<OperationResult>): (r: seq<string>)
    ensures |r| == |ops|
  {
    seq(|ops|, (i: nat) requires i < |ops| => OperationResultName(ops[i]).0)
  }

  /** Some `InvokeHostFunction` operation did not succeed. */
  predicate SomeInvokeFailed(ops: seq<OperationResult>) {
    exists i :: 0 <= i < |ops| && OperationResultName(ops[i]).1
  }

  function Signal(result: TransactionResult): FailureSignal {
    match result.result
    case TxFailed(ops) => FailureSignal(false, OpNames(ops), SomeInvokeFailed(ops))
    case TxSuccess(ops) => FailureSignal(false, OpNames(ops), SomeInvokeFailed(ops))
    case TxFeeBumpInnerFailed(pair) => InnerSignal(pair.result)
    case TxFeeBumpInnerSuccess(pair) => InnerSignal(pair.result)
    case _ => FailureSignal(false, [], false)
  }

  function InnerSignal(inner: Inner): FailureSignal {
    match inner
    case TxFailed(ops) => FailureSignal(true, OpNames(ops), SomeInvokeFailed(ops))
    case TxSuccess(ops) => FailureSignal(true, OpNames(ops), SomeInvokeFailed(ops))
    case _ => FailureSignal(true, [], false)
  }

  // ---------------------------------------------------------------- the code

  method CollectOps(ops: seq<OperationResult>) returns (names: seq<string>, failed: bool)
    ensures names == OpNames(ops)
    ensures failed <==> SomeInvokeFailed(ops)
  {
    names := [];
    failed := false;
    for i := 0 to |ops|
      invariant names == OpNames(ops[..i])
      invariant failed <==> SomeInvokeFailed(ops[..i])
    {
      var (name, opFailed) := OperationResultName(ops[i]);
      assert ops[..i + 1] == ops[..i] + [ops[i]];
      assert OpNames(ops[..i + 1]) == OpNames(ops[..i]) + [name];
      assert SomeInvokeFailed(ops[..i + 1]) <==> SomeInvokeFailed(ops[..i]) || opFailed by {
        assert ops[..i + 1][i] == ops[i];
        if SomeInvokeFailed(ops[..i]) {
          var j :| 0 <= j < i && OperationResultName(ops[..i][j]).1;
          assert ops[..i + 1][j] == ops[..i][j];
        }
      }
      failed := failed || opFailed;
      names := names + [name];
    }
    assert ops[..|ops|] == ops;
  }

  // -------------------------------------------------------------- agreement

  /** An operation result the two implementations read together. */
  lemma OperationAgrees(op: OperationResult, index: nat)
    ensures OperationResultName(op).1 ==> FailureOf(op, index).Some?
    ensures FailureOf(op, index).Some?
            && FailureOf(op, index).value.1 in {HostFunction, ContractExecution, StateArchival}
            ==> OperationResultName(op).1
    ensures FailureOf(op, index).Some? <==> !Succeeded(op)
  {
  }

  /**
   The stages only a failed invoke can reach imply the probe's flag; and for a
   transaction that failed, the flag implies a failed operation no later than
   any failed invoke.
   */
  lemma StagesAgree(result: TransactionResult)
    ensures var stage := ClassifyResult(result).stage;
            stage.Some? && stage.value in {HostFunction, ContractExecution, StateArchival}
            ==> Signal(result).failedInContractExecution
    ensures Signal(result).failedInContractExecution && EffectiveLevel(result.result).LevelFailed? ==>
              var ops := OperationsOf(result.result);
              var failed := ClassifyResult(result).failedOperation;
              && failed.Some?
              && (forall i :: 0 <= i < |ops| && OperationResultName(ops[i]).1 ==> failed.value.index <= i)
    ensures Signal(result).feeBumped <==> ClassifyResult(result).feeBump.Some?
  {
    hide OuterName, InnerName, FailureOf, OperationResultName, OpNames, FirstFailedFrom, Succeeded;
    var ops := OperationsOf(result.result);
    FirstFailedIsFirst(ops, 0);
    forall i: nat | i < |ops|
      ensures OperationResultName(ops[i]).1 ==> !Succeeded(ops[i])
    {
      OperationAgrees(ops[i], i);
    }
    var failed := FirstFailedOperation(ops);
    if failed.Some? {
      OperationAgrees(ops[failed.value.0.index], failed.value.0.index);
    }
  }
}
