/**
 What a transaction result says happened, with fee bumps unwrapped
 (crates/soroban-failure-analysis/src/model/outcome.rs).
 */
module Outcomes {
  import opened Common
  import opened Soroban

  datatype FailureStage =
    | Validation | Sequence | Fee | Operation | HostFunction | ContractExecution
    | AuthStage | FootprintStage | StateArchival | ResourceLimit | ResourceFee | Unknown

  datatype InvokeResult =
    | InvokeSuccess | InvokeMalformed | Trapped | InvokeResourceLimitExceeded | EntryArchived
    | InvokeInsufficientRefundableFee

  datatype ExtendResult =
    | ExtendSuccess | ExtendMalformed | ExtendResourceLimitExceeded | ExtendInsufficientRefundableFee

  datatype RestoreResult =
    | RestoreSuccess | RestoreMalformed | RestoreResourceLimitExceeded | RestoreInsufficientRefundableFee

  /** An operation's own result; the 24 classic types differ only in their names. */
  datatype OperationTr =
    | InvokeHostFunction(invoke: InvokeResult)
    | ExtendFootprintTtl(extend: ExtendResult)
    | RestoreFootprint(restore: RestoreResult)
    | Classic(operation: string, arm: string, discriminant: int)

  datatype OperationResult =
    | OpInner(tr: OperationTr)
    | OpBadAuth | OpNoAccount | OpNotSupported | OpTooManySubentries | OpExceededWorkLimit
    | OpTooManySponsoring

  datatype Inner =
    | TxSuccess(ops: seq<OperationResult>)
    | TxFailed(ops: seq<OperationResult>)
    | TxTooEarly | TxTooLate | TxMissingOperation | TxBadAuth
    | TxBadAuthExtra | TxNoAccount | TxNotSupported | TxBadSponsorship
    | TxMalformed | TxSorobanInvalid | TxBadSeq | TxBadMinSeqAgeOrGap
    | TxInsufficientFee | TxInsufficientBalance | TxInternalError | TxFrozenKeyAccessed

  datatype InnerPair = InnerPair(transactionHash: Hash, feeCharged: int, result: Inner)

  datatype Outer =
    | TxSuccess(ops: seq<OperationResult>)
    | TxFailed(ops: seq<OperationResult>)
    | TxFeeBumpInnerSuccess(pair: InnerPair)
    | TxFeeBumpInnerFailed(pair: InnerPair)
    | TxTooEarly | TxTooLate | TxMissingOperation | TxBadAuth
    | TxBadAuthExtra | TxNoAccount | TxNotSupported | TxBadSponsorship
    | TxMalformed | TxSorobanInvalid | TxBadSeq | TxBadMinSeqAgeOrGap
    | TxInsufficientFee | TxInsufficientBalance | TxInternalError | TxFrozenKeyAccessed

  datatype TransactionResult = TransactionResult(feeCharged: int, result: Outer)

  datatype FeeBumpResult = FeeBumpResult(outerCode: string, innerTransactionHash: Hash, innerFeeCharged: int)

  datatype FailedOperation = FailedOperation(index: nat, operation: Option<string>, code: string)

  datatype Outcome = Outcome(
    feeCharged: int, feeBump: Option<FeeBumpResult>, resultCode: string,
    failedOperation: Option<FailedOperation>, stage: Option<FailureStage>)

  function OuterName(r: Outer): string {
    match r
    case TxSuccess(_) => "TxSuccess"
    case TxFailed(_) => "TxFailed"
    case TxFeeBumpInnerSuccess(_) => "TxFeeBumpInnerSuccess"
    case TxFeeBumpInnerFailed(_) => "TxFeeBumpInnerFailed"
    case TxTooEarly => "TxTooEarly"
    case TxTooLate => "TxTooLate"
    case TxMissingOperation => "TxMissingOperation"
    case TxBadAuth => "TxBadAuth"
    case TxBadAuthExtra => "TxBadAuthExtra"
    case TxNoAccount => "TxNoAccount"
    case TxNotSupported => "TxNotSupported"
    case TxBadSponsorship => "TxBadSponsorship"
    case TxMalformed => "TxMalformed"
    case TxSorobanInvalid => "TxSorobanInvalid"
    case TxBadSeq => "TxBadSeq"
    case TxBadMinSeqAgeOrGap => "TxBadMinSeqAgeOrGap"
    case TxInsufficientFee => "TxInsufficientFee"
    case TxInsufficientBalance => "TxInsufficientBalance"
    case TxInternalError => "TxInternalError"
    case TxFrozenKeyAccessed => "TxFrozenKeyAccessed"
  }

  function InnerName(r: Inner): string {
    match r
    case TxSuccess(_) => "TxSuccess"
    case TxFailed(_) => "TxFailed"
    case TxTooEarly => "TxTooEarly"
    case TxTooLate => "TxTooLate"
    case TxMissingOperation => "TxMissingOperation"
    case TxBadAuth => "TxBadAuth"
    case TxBadAuthExtra => "TxBadAuthExtra"
    case TxNoAccount => "TxNoAccount"
    case TxNotSupported => "TxNotSupported"
    case TxBadSponsorship => "TxBadSponsorship"
    case TxMalformed => "TxMalformed"
    case TxSorobanInvalid => "TxSorobanInvalid"
    case TxBadSeq => "TxBadSeq"
    case TxBadMinSeqAgeOrGap => "TxBadMinSeqAgeOrGap"
    case TxInsufficientFee => "TxInsufficientFee"
    case TxInsufficientBalance => "TxInsufficientBalance"
    case TxInternalError => "TxInternalError"
    case TxFrozenKeyAccessed => "TxFrozenKeyAccessed"
  }

  datatype Level =
    | LevelSuccess(code: string)
    | LevelFailed(code: string, ops: seq<OperationResult>)
    | Rejected(code: string, stage: FailureStage)

  function OuterLevel(r: Outer): Level {
    var code := OuterName(r);
    match r
    case TxSuccess(_) => LevelSuccess(code)
    case TxFailed(ops) => LevelFailed(code, ops)
    case TxFeeBumpInnerSuccess(_) => Rejected(code, Unknown)
    case TxFeeBumpInnerFailed(_) => Rejected(code, Unknown)
    case TxTooEarly => Rejected(code, Validation)
    case TxTooLate => Rejected(code, Validation)
    case TxMissingOperation => Rejected(code, Validation)
    case TxBadAuth => Rejected(code, Validation)
    case TxBadAuthExtra => Rejected(code, Validation)
    case TxNoAccount => Rejected(code, Validation)
    case TxNotSupported => Rejected(code, Validation)
    case TxBadSponsorship => Rejected(code, Validation)
    case TxMalformed => Rejected(code, Validation)
    case TxSorobanInvalid => Rejected(code, Validation)
    case TxBadSeq => Rejected(code, Sequence)
    case TxBadMinSeqAgeOrGap => Rejected(code, Sequence)
    case TxInsufficientFee => Rejected(code, Fee)
    case TxInsufficientBalance => Rejected(code, Fee)
    case TxInternalError => Rejected(code, Unknown)
    case TxFrozenKeyAccessed => Rejected(code, Unknown)
  }

  function InnerLevel(r: Inner): Level {
    var code := InnerName(r);
    match r
    case TxSuccess(_) => LevelSuccess(code)
    case TxFailed(ops) => LevelFailed(code, ops)
    case TxTooEarly => Rejected(code, Validation)
    case TxTooLate => Rejected(code, Validation)
    case TxMissingOperation => Rejected(code, Validation)
    case TxBadAuth => Rejected(code, Validation)
    case TxBadAuthExtra => Rejected(code, Validation)
    case TxNoAccount => Rejected(code, Validation)
    case TxNotSupported => Rejected(code, Validation)
    case TxBadSponsorship => Rejected(code, Validation)
    case TxMalformed => Rejected(code, Validation)
    case TxSorobanInvalid => Rejected(code, Validation)
    case TxBadSeq => Rejected(code, Sequence)
    case TxBadMinSeqAgeOrGap => Rejected(code, Sequence)
    case TxInsufficientFee => Rejected(code, Fee)
    case TxInsufficientBalance => Rejected(code, Fee)
    case TxInternalError => Rejected(code, Unknown)
    case TxFrozenKeyAccessed => Rejected(code, Unknown)
  }

  function TrName(tr: OperationTr): string {
    match tr
    case InvokeHostFunction(_) => "InvokeHostFunction"
    case ExtendFootprintTtl(_) => "ExtendFootprintTtl"
    case RestoreFootprint(_) => "RestoreFootprint"
    case Classic(operation, _, _) => operation
  }

  /** The result code's name and number; zero is success for every type. */
  function ResultCode(tr: OperationTr): (string, int) {
    match tr
    case InvokeHostFunction(r) =>
      (match r
       case InvokeSuccess => ("Success", 0)
       case InvokeMalformed => ("Malformed", -1)
       case Trapped => ("Trapped", -2)
       case InvokeResourceLimitExceeded => ("ResourceLimitExceeded", -3)
       case EntryArchived => ("EntryArchived", -4)
       case InvokeInsufficientRefundableFee => ("InsufficientRefundableFee", -5))
    case ExtendFootprintTtl(r) =>
      (match r
       case ExtendSuccess => ("Success", 0)
       case ExtendMalformed => ("Malformed", -1)
       case ExtendResourceLimitExceeded => ("ResourceLimitExceeded", -2)
       case ExtendInsufficientRefundableFee => ("InsufficientRefundableFee", -3))
    case RestoreFootprint(r) =>
      (match r
       case RestoreSuccess => ("Success", 0)
       case RestoreMalformed => ("Malformed", -1)
       case RestoreResourceLimitExceeded => ("ResourceLimitExceeded", -2)
       case RestoreInsufficientRefundableFee => ("InsufficientRefundableFee", -3))
    case Classic(_, arm, discriminant) => (arm, discriminant)
  }

  function InnerCode(tr: OperationTr): (string, bool) {
    (ResultCode(tr).0, ResultCode(tr).1 == 0)
  }

  function SorobanStage(tr: OperationTr): Option<FailureStage> {
    match tr
    case InvokeHostFunction(r) =>
      (match r
       case InvokeSuccess => None
       case InvokeMalformed => Some(HostFunction)
       case Trapped => Some(ContractExecution)
       case InvokeResourceLimitExceeded => Some(ResourceLimit)
       case EntryArchived => Some(StateArchival)
       case InvokeInsufficientRefundableFee => Some(ResourceFee))
    case ExtendFootprintTtl(r) =>
      (match r
       case ExtendSuccess => None
       case ExtendResourceLimitExceeded => Some(ResourceLimit)
       case ExtendInsufficientRefundableFee => Some(ResourceFee)
       case ExtendMalformed => Some(Unknown))
    case RestoreFootprint(r) =>
      (match r
       case RestoreSuccess => None
       case RestoreResourceLimitExceeded => Some(ResourceLimit)
       case RestoreInsufficientRefundableFee => Some(ResourceFee)
       case RestoreMalformed => Some(Unknown))
    case Classic(_, _, _) => None
  }

  /** What one operation result says, or `None` if it succeeded. */
  function FailureOf(op: OperationResult, index: nat): Option<(FailedOperation, FailureStage)> {
    match op
    case OpInner(tr) =>
      var (code, success) := InnerCode(tr);
      if success then None
      else
        var stage := match SorobanStage(tr) case Some(s) => s case None => Operation;
        Some((FailedOperation(index, Some(TrName(tr)), code), stage))
    case OpBadAuth => Some((FailedOperation(index, None, "OpBadAuth"), Validation))
    case OpNoAccount => Some((FailedOperation(index, None, "OpNoAccount"), Validation))
    case OpNotSupported => Some((FailedOperation(index, None, "OpNotSupported"), Unknown))
    case OpTooManySubentries => Some((FailedOperation(index, None, "OpTooManySubentries"), Unknown))
    case OpExceededWorkLimit => Some((FailedOperation(index, None, "OpExceededWorkLimit"), Unknown))
    case OpTooManySponsoring => Some((FailedOperation(index, None, "OpTooManySponsoring"), Unknown))
  }

  function FirstFailedFrom(ops: seq<OperationResult>, i: nat): Option<(FailedOperation, FailureStage)>
    decreases |ops| - i
  {
    if i >= |ops| then None
    else if FailureOf(ops[i], i).Some? then FailureOf(ops[i], i)
    else FirstFailedFrom(ops, i + 1)
  }

  function FirstFailedOperation(ops: seq<OperationResult>): Option<(FailedOperation, FailureStage)> {
    FirstFailedFrom(ops, 0)
  }

  function EffectiveLevel(r: Outer): Level {
    match r
    case TxFeeBumpInnerSuccess(pair) => InnerLevel(pair.result)
    case TxFeeBumpInnerFailed(pair) => InnerLevel(pair.result)
    case _ => OuterLevel(r)
  }

  function FeeBumpOf(r: Outer): Option<FeeBumpResult> {
    match r
    case TxFeeBumpInnerSuccess(pair) => Some(FeeBumpResult(OuterName(r), pair.transactionHash, pair.feeCharged))
    case TxFeeBumpInnerFailed(pair) => Some(FeeBumpResult(OuterName(r), pair.transactionHash, pair.feeCharged))
    case _ => None
  }

  function ClassifyLevel(feeCharged: int, feeBump: Option<FeeBumpResult>, level: Level): Outcome {
    match level
    case LevelSuccess(code) => Outcome(feeCharged, feeBump, code, None, None)
    case LevelFailed(code, ops) =>
      (match FirstFailedOperation(ops)
       case Some((op, stage)) => Outcome(feeCharged, feeBump, code, Some(op), Some(stage))
       case None => Outcome(feeCharged, feeBump, code, None, Some(Unknown)))
    case Rejected(code, stage) => Outcome(feeCharged, feeBump, code, None, Some(stage))
  }

  function ClassifyResult(result: TransactionResult): Outcome {
    ClassifyLevel(result.feeCharged, FeeBumpOf(result.result), EffectiveLevel(result.result))
  }

  // ------------------------------------------------------------- properties

  predicate Succeeded(op: OperationResult) {
    op.OpInner? && InnerCode(op.tr).1
  }

  lemma {:induction false} FirstFailedIsFirst(ops: seq<OperationResult>, i: nat)
    ensures match FirstFailedFrom(ops, i)
            case Some((op, stage)) =>
              && i <= op.index < |ops| && !Succeeded(ops[op.index])
              && FailureOf(ops[op.index], op.index) == Some((op, stage))
              && forall j :: i <= j < op.index ==> Succeeded(ops[j])
            case None => forall j :: i <= j < |ops| ==> Succeeded(ops[j])
    decreases |ops| - i
  {
    if i < |ops| {
      FirstFailedIsFirst(ops, i + 1);
    }
  }

  /** The operations the effective level carries, success or not. */
  function OperationsOf(r: Outer): seq<OperationResult> {
    match r
    case TxSuccess(ops) => ops
    case TxFailed(ops) => ops
    case TxFeeBumpInnerSuccess(pair) => InnerOperations(pair.result)
    case TxFeeBumpInnerFailed(pair) => InnerOperations(pair.result)
    case _ => []
  }

  function InnerOperations(r: Inner): seq<OperationResult> {
    match r
    case TxSuccess(ops) => ops
    case TxFailed(ops) => ops
    case _ => []
  }

  /**
   The failed operation is the first that did not succeed. There is one exactly
   if the operations failed and one did not succeed; if all did, the stage is
   unknown.
   */
  lemma FailedOperationIsFirst(result: TransactionResult)
    ensures var ops := OperationsOf(result.result);
            match ClassifyResult(result).failedOperation
            case Some(op) =>
              && op.index < |ops| && !Succeeded(ops[op.index]) && (forall j :: 0 <= j < op.index ==> Succeeded(ops[j]))
              && ClassifyResult(result).stage.Some?
              && FailureOf(ops[op.index], op.index) == Some((op, ClassifyResult(result).stage.value))
            case None =>
              EffectiveLevel(result.result).LevelFailed? ==>
                && (forall j :: 0 <= j < |ops| ==> Succeeded(ops[j]))
                && ClassifyResult(result).stage == Some(Unknown)
    ensures ClassifyResult(result).failedOperation.Some? ==> EffectiveLevel(result.result).LevelFailed?
  {
    FirstFailedIsFirst(OperationsOf(result.result), 0);
    hide FirstFailedFrom, FailureOf, OuterName, InnerName;
  }

  /** The result a fee bump wraps, as it would be reported without the wrapper. */
  function Unwrapped(r: Inner): Outer {
    match r
    case TxSuccess(ops) => Outer.TxSuccess(ops)
    case TxFailed(ops) => Outer.TxFailed(ops)
    case TxTooEarly => Outer.TxTooEarly
    case TxTooLate => Outer.TxTooLate
    case TxMissingOperation => Outer.TxMissingOperation
    case TxBadAuth => Outer.TxBadAuth
    case TxBadAuthExtra => Outer.TxBadAuthExtra
    case TxNoAccount => Outer.TxNoAccount
    case TxNotSupported => Outer.TxNotSupported
    case TxBadSponsorship => Outer.TxBadSponsorship
    case TxMalformed => Outer.TxMalformed
    case TxSorobanInvalid => Outer.TxSorobanInvalid
    case TxBadSeq => Outer.TxBadSeq
    case TxBadMinSeqAgeOrGap => Outer.TxBadMinSeqAgeOrGap
    case TxInsufficientFee => Outer.TxInsufficientFee
    case TxInsufficientBalance => Outer.TxInsufficientBalance
    case TxInternalError => Outer.TxInternalError
    case TxFrozenKeyAccessed => Outer.TxFrozenKeyAccessed
  }

  /** Wrapping a result in a fee bump changes neither its code, its failed operation nor its stage. */
  lemma FeeBumpIsTransparent(fee: int, pair: InnerPair)
    ensures var plain := ClassifyResult(TransactionResult(fee, Unwrapped(pair.result)));
            && ClassifyResult(TransactionResult(fee, TxFeeBumpInnerFailed(pair)))
               == plain.(feeBump := Some(FeeBumpResult("TxFeeBumpInnerFailed", pair.transactionHash, pair.feeCharged)))
            && ClassifyResult(TransactionResult(fee, TxFeeBumpInnerSuccess(pair)))
               == plain.(feeBump := Some(FeeBumpResult("TxFeeBumpInnerSuccess", pair.transactionHash, pair.feeCharged)))
            && plain.feeBump == None
  {
    hide FirstFailedOperation;
    assert InnerLevel(pair.result) == OuterLevel(Unwrapped(pair.result));
  }

  /** The result code a stage stands for, where it stands for one only. */
  function CodeOf(stage: FailureStage): Option<string> {
    match stage
    case HostFunction => Some("Malformed")
    case ContractExecution => Some("Trapped")
    case StateArchival => Some("EntryArchived")
    case ResourceLimit => Some("ResourceLimitExceeded")
    case ResourceFee => Some("InsufficientRefundableFee")
    case _ => None
  }

  lemma FailureNamesTheCode(op: OperationResult, index: nat)
    requires FailureOf(op, index).Some?
    ensures var (failed, stage) := FailureOf(op, index).value;
            && failed.index == index
            && (CodeOf(stage).Some? ==> CodeOf(stage) == Some(failed.code))
            && stage !in {AuthStage, FootprintStage}
  {
  }

  /** A Soroban stage always comes with a failed operation of that very code. */
  lemma StageNamesTheCode(result: TransactionResult)
    ensures var o := ClassifyResult(result);
            o.stage.Some? ==>
              && (CodeOf(o.stage.value).Some? ==>
                    o.failedOperation.Some? && CodeOf(o.stage.value) == Some(o.failedOperation.value.code))
              && o.stage.value !in {AuthStage, FootprintStage}
  {
    hide FailureOf, OuterName, InnerName, Succeeded, FirstFailedFrom;
    var ops := OperationsOf(result.result);
    FirstFailedIsFirst(ops, 0);
    var failed := FirstFailedOperation(ops);
    if failed.Some? {
      FailureNamesTheCode(ops[failed.value.0.index], failed.value.0.index);
    }
  }

  // ------------------------------------------------------- the stage of a result

  /** The result that counts, with a fee bump unwrapped, is `r`. */
  predicate Effective(result: TransactionResult, r: Inner) {
    match result.result
    case TxFeeBumpInnerSuccess(pair) => pair.result == r
    case TxFeeBumpInnerFailed(pair) => pair.result == r
    case outer => outer == Unwrapped(r)
  }

  /** The operation did what it was asked to. */
  predicate Done(op: OperationResult) {
    && op.OpInner?
    && match op.tr
       case InvokeHostFunction(r) => r.InvokeSuccess?
       case ExtendFootprintTtl(r) => r.ExtendSuccess?
       case RestoreFootprint(r) => r.RestoreSuccess?
       case Classic(_, _, discriminant) => discriminant == 0
  }

  /** Operations ran, and the first that was not done is this one. */
  ghost predicate FailedFirst(r: Inner, i: nat, op: OperationResult) {
    && r.TxFailed? && i < |r.ops| && r.ops[i] == op && !Done(op)
    && forall j :: 0 <= j < i ==> Done(r.ops[j])
  }

  predicate OverLimit(op: OperationResult) {
    || op == OpInner(InvokeHostFunction(InvokeResourceLimitExceeded))
    || op == OpInner(ExtendFootprintTtl(ExtendResourceLimitExceeded))
    || op == OpInner(RestoreFootprint(RestoreResourceLimitExceeded))
  }

  predicate OverFee(op: OperationResult) {
    || op == OpInner(InvokeHostFunction(InvokeInsufficientRefundableFee))
    || op == OpInner(ExtendFootprintTtl(ExtendInsufficientRefundableFee))
    || op == OpInner(RestoreFootprint(RestoreInsufficientRefundableFee))
  }

  /** A failed operation that does not say where it failed. */
  predicate Unplaced(op: OperationResult) {
    || op.OpNotSupported? || op.OpTooManySubentries? || op.OpExceededWorkLimit? || op.OpTooManySponsoring?
    || op == OpInner(ExtendFootprintTtl(ExtendMalformed)) || op == OpInner(RestoreFootprint(RestoreMalformed))
  }

  predicate Invalid(r: Inner) {
    || r.TxTooEarly? || r.TxTooLate? || r.TxMissingOperation? || r.TxBadAuth? || r.TxBadAuthExtra?
    || r.TxNoAccount? || r.TxNotSupported? || r.TxBadSponsorship? || r.TxMalformed? || r.TxSorobanInvalid?
  }

  lemma DoneIsSuccess(op: OperationResult)
    ensures Done(op) <==> Succeeded(op)
  {
  }

  lemma EffectiveLevelIs(result: TransactionResult, r: Inner)
    requires Effective(result, r)
    ensures EffectiveLevel(result.result) == InnerLevel(r)
    ensures OperationsOf(result.result) == InnerOperations(r)
  {
  }

  /** Every result has an effective one. */
  lemma HasEffective(result: TransactionResult) returns (r: Inner)
    ensures Effective(result, r)
  {
    match result.result
    case TxSuccess(ops) => r := Inner.TxSuccess(ops);
    case TxFailed(ops) => r := Inner.TxFailed(ops);
    case TxFeeBumpInnerSuccess(pair) => r := pair.result;
    case TxFeeBumpInnerFailed(pair) => r := pair.result;
    case TxTooEarly => r := Inner.TxTooEarly;
    case TxTooLate => r := Inner.TxTooLate;
    case TxMissingOperation => r := Inner.TxMissingOperation;
    case TxBadAuth => r := Inner.TxBadAuth;
    case TxBadAuthExtra => r := Inner.TxBadAuthExtra;
    case TxNoAccount => r := Inner.TxNoAccount;
    case TxNotSupported => r := Inner.TxNotSupported;
    case TxBadSponsorship => r := Inner.TxBadSponsorship;
    case TxMalformed => r := Inner.TxMalformed;
    case TxSorobanInvalid => r := Inner.TxSorobanInvalid;
    case TxBadSeq => r := Inner.TxBadSeq;
    case TxBadMinSeqAgeOrGap => r := Inner.TxBadMinSeqAgeOrGap;
    case TxInsufficientFee => r := Inner.TxInsufficientFee;
    case TxInsufficientBalance => r := Inner.TxInsufficientBalance;
    case TxInternalError => r := Inner.TxInternalError;
    case TxFrozenKeyAccessed => r := Inner.TxFrozenKeyAccessed;
  }

  /** The stage of a result whose operations ran is that of the first one not done. */
  lemma StageOfFailedOperation(result: TransactionResult, r: Inner, i: nat, op: OperationResult)
    requires Effective(result, r) && FailedFirst(r, i, op)
    ensures var o := ClassifyResult(result);
            && o.failedOperation.Some? && o.failedOperation.value.index == i && o.stage.Some?
            && (o.stage == Some(HostFunction) <==> op == OpInner(InvokeHostFunction(InvokeMalformed)))
            && (o.stage == Some(ContractExecution) <==> op == OpInner(InvokeHostFunction(Trapped)))
            && (o.stage == Some(StateArchival) <==> op == OpInner(InvokeHostFunction(EntryArchived)))
            && (o.stage == Some(ResourceLimit) <==> OverLimit(op))
            && (o.stage == Some(ResourceFee) <==> OverFee(op))
            && (o.stage == Some(Operation) <==> op.OpInner? && op.tr.Classic?)
            && (o.stage == Some(Validation) <==> op.OpBadAuth? || op.OpNoAccount?)
            && (o.stage == Some(Unknown) <==> Unplaced(op))
  {
    EffectiveLevelIs(result, r);
    FirstFailedIsFirst(r.ops, 0);
    forall j | 0 <= j <= i
      ensures Done(r.ops[j]) <==> Succeeded(r.ops[j])
    {
      DoneIsSuccess(r.ops[j]);
    }
    hide Succeeded, Done, FirstFailedFrom, EffectiveLevel, OuterName, InnerName, TrName;
  }

  /** The stage of a result no operation is to blame for; and what it says besides the stage. */
  lemma StageWithoutOperation(result: TransactionResult, r: Inner)
    requires Effective(result, r) && forall i: nat, op :: !FailedFirst(r, i, op)
    ensures var o := ClassifyResult(result);
            && o.failedOperation.None?
            && (o.stage.None? <==> r.TxSuccess?)
            && (o.stage == Some(Validation) <==> Invalid(r))
            && (o.stage == Some(Sequence) <==> r.TxBadSeq? || r.TxBadMinSeqAgeOrGap?)
            && (o.stage == Some(Fee) <==> r.TxInsufficientFee? || r.TxInsufficientBalance?)
            && (o.stage == Some(Unknown) <==> r.TxInternalError? || r.TxFrozenKeyAccessed? || r.TxFailed?)
  {
    EffectiveLevelIs(result, r);
    hide Done, FirstFailedFrom, EffectiveLevel, OuterName, InnerName, FailedFirst, FirstFailedOperation;
    if r.TxFailed? && FirstFailedOperation(r.ops).Some? {
      BlamedIsFirst(r);
    }
  }

  lemma BlamedIsFirst(r: Inner)
    requires r.TxFailed? && FirstFailedOperation(r.ops).Some?
    ensures exists i: nat, op :: FailedFirst(r, i, op)
  {
    FirstFailedIsFirst(r.ops, 0);
    var i := FirstFailedOperation(r.ops).value.0.index;
    forall j | 0 <= j <= i
      ensures Done(r.ops[j]) <==> Succeeded(r.ops[j])
    {
      DoneIsSuccess(r.ops[j]);
    }
    hide Succeeded, Done, FirstFailedFrom;
    assert FailedFirst(r, i, r.ops[i]);
  }

  /** The fee is that of the outermost result, the code that of the effective one. */
  lemma FeeAndCode(result: TransactionResult, r: Inner)
    requires Effective(result, r)
    ensures ClassifyResult(result).feeCharged == result.feeCharged
    ensures ClassifyResult(result).resultCode == InnerName(r)
    ensures ClassifyResult(result).feeBump.Some?
            <==> result.result.TxFeeBumpInnerSuccess? || result.result.TxFeeBumpInnerFailed?
  {
    EffectiveLevelIs(result, r);
    hide EffectiveLevel, FirstFailedOperation;
  }
}
