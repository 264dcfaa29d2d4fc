# Soroban failure diagnosis, modelled and proved

The repository explains failed Soroban transactions. This project models its
engine and the sampling tools around it, and proves what they promise for every
input or every run. `dafny verify dfyconfig.toml` verifies all of it.

* **Call tree** (`Events`, `CallTree`, `CallShape`, `Executions`, `Tracking`,
  `Misreadings`, `RoundTrips`). Diagnostic
  events are a flat list without parent links; a stack machine infers the
  nesting from which contract emitted each event. `BuildCallTree` is the nested
  loops, `Reconstruct` their specification. `Executions` starts from the other
  end: a tree of calls, the events the host emits for it, and what should come
  back; `RoundTrips` has the exact conditions under which it does.
* **Labels** (`Labels`). Rendering of a value with its cuts at depth, width and length.
* **WASM framing** (`Wasm`). A byte cursor, the LEB128 loop and the section loop,
  against the integers and the section framing of the WebAssembly Core
  Specification (sections 5.2.2, 5.5.2 and 5.5.3) and against a printer. What the
  code accepts is wider than that grammar: it checks neither that names are UTF-8
  (5.2.4) nor which ids sections have and in what order (5.5.2).
* **Outcome** (`Outcomes`, `Probe`, `Model`). Result unwrapping, in both of the
  repository's implementations, and the transaction model.
* **Contract errors** (`Resolve`, `FetchSpecs`). Who raised a code, what it is
  called, and which specs have to be fetched for that.
* **Rules** (`Rules`, `RuleLaws`, `Applicability`, `Citations`, `Diagnoses`). All eight
  rules: exactly when each matches, does not apply or lacks evidence, with which
  confidence and citations; what holds of them together, the ranking and the verdict.
* **Sampling** (`SplitMix`, `Sampling`). The generator, stratified ledgers and the
  partial shuffle.
* **Selection** (`Clusters`, `Selection`). Cluster keys, the walk order and the
  greedy selection under two caps.
* **Reading ledgers** (`Paging`, `Scanning`, `Archive`) and the **census** (`Census`). An RPC server is a
  ledger-ordered history and an arbitrary way of cutting it into pages; the
  census is a protocol over two files whose runs may stop anywhere.

Code that loops and updates is a method or a class; each is proved against a
function or relation whose own properties are the lemmas below. Rules whose code
only appends a fixed list of citations are functions.

Where code and documentation differ, the model follows the code:

* `rules/contract_trap.rs` documents `Error(WasmVm, InvalidAction)`; the code
  accepts every `WasmVm` code (`TrapFiresOnEveryCode`).
* `rules/auth.rs` pairs each host message with one error code; the code accepts
  any `Auth` code. Two causes can be confirmed together because of it
  (`BothAuthRulesCanConfirm`, exactly when: `BothConfirmExactly`), and cannot when
  the first expiry has its documented code (`DocumentedMarkersExclude`).
* `scan.rs` goes on past the last ledger of each page with a saturating addition.
  It misses what is left of a ledger that a page ends inside (`RestOfALedgerIsMissed`,
  exactly when: `NothingMissedExactly`), and it reads ledger 4294967295 twice
  (`LastLedgerIsReportedTwice`, exactly when that matters: `ReportedOnceExactly`).
* The call tree of a well-formed execution is right if and only if three conditions
  hold (`RoundTrip`): no error and no call finds a dangling failed frame of its own
  emitter's contract (`Distinguishable`); no call returns while a failed call below it
  dangles (`Orderly`), because a return pops the top frame whoever emitted it; and
  there is no terminal error, or no frame that raised nothing was passed over by a
  later event of an enclosing frame (`Stale`). Re-entrant calls can break the first
  and the third (`ErrorGoesToTheWrongFrame`, `FailureTakesTheTerminalError`).
* A registry of a caller's own rules may have causes for a transaction that
  succeeded, since rules are given the stage `Unknown` then; the verdict is
  `NotAFailure` all the same (`VerdictIsExact`, `SuccessHasNoCauses`).

## Model

| member | source | states |
|---|---|---|
| `Events.KindIsExact` | crates/soroban-failure-analysis/src/model/events.rs:328-394 | every kind of event stands for exactly one shape of topics; an event of no such shape is kept, with its first topic |
| `Events.TerminalOf` | crates/soroban-failure-analysis/src/model/events.rs:162-168 | the terminal error is that of the first `host_fn_failed` event, with its number |
| `CallTree.PopUntil` | crates/soroban-failure-analysis/src/model/events.rs:415-421 | pops one frame at a time until the emitter is on top; the result is the one-step unwinding to its height |
| `CallTree.UnwindTo` | crates/soroban-failure-analysis/src/model/events.rs:409-422 | unwinds to the emitter if it is on the stack, and otherwise leaves frames and stack alone |
| `CallTree.Drain` | crates/soroban-failure-analysis/src/model/events.rs:467-472 | ends every open frame, innermost first, with its own last error or else the given outcome |
| `CallTree.BuildCallTree` | crates/soroban-failure-analysis/src/model/events.rs:396-475 | the nested loops compute the specification `Reconstruct`, for every event list |
| `CallTree.RunConcat` | crates/soroban-failure-analysis/src/model/events.rs:424-465 | the machine reads a list of events in any two parts as it reads the whole |
| `CallShape.CloseToFrame` | crates/soroban-failure-analysis/src/model/events.rs:402-422 | unwinding changes nothing of a frame but its outcome, and of no frame that stays open or was closed |
| `CallShape.FramesAreTheCalls` | crates/soroban-failure-analysis/src/model/events.rs:425-448 | for every event list the frames are the call events in order, and their depths are a preorder forest |
| `CallShape.CallsInOrder` | crates/soroban-failure-analysis/src/model/events.rs:425-448 | the positions of the call events, all of them, in order |
| `CallShape.RunShaped` | crates/soroban-failure-analysis/src/model/events.rs:409-448 | at every point the open entries have increasing frame numbers, entry i is a frame of depth i, and encloses what follows it |
| `CallShape.CallerIsParent` | crates/soroban-failure-analysis/src/model/events.rs:425-448 | a call from a contract on the stack becomes a child of that contract's frame |
| `CallShape.StrangerChangesNothing` | crates/soroban-failure-analysis/src/model/events.rs:409-413 | an emitter that is not on the stack changes nothing, unless it calls or returns |
| `CallShape.StrangerCallsFromTheTop` | crates/soroban-failure-analysis/src/model/events.rs:409-448 | a call from a contract that is not on the stack keeps every open entry and goes on top, at the stack's depth |
| `CallShape.TransactionCallsFromTheBottom` | crates/soroban-failure-analysis/src/model/events.rs:428-448 | a call without an emitter ends every open frame with its own last error, and starts at depth 0 |
| `CallShape.RunKeepsClosed` | crates/soroban-failure-analysis/src/model/events.rs:402-407 | a frame that has been settled is never changed again |
| `CallShape.FailuresAreSourced` | crates/soroban-failure-analysis/src/model/events.rs:402-474 | a failed frame cites a later error event of its own contract with that error, or takes the terminal error because it was left open and raised nothing |
| `CallShape.ReturnsAreConserved` | crates/soroban-failure-analysis/src/model/events.rs:450-454 | as many frames are reported returned as returns found an open frame |
| `RoundTrips.RoundTrip` | crates/soroban-failure-analysis/src/model/events.rs:382-475 | flattening any well-formed execution tree into events and rebuilding the call tree gives back every call with contract, function, depth and outcome if and only if (1) no error and no call finds a dangling failed frame of its own emitter's contract, (2) no call returns while a failed call below it dangles, and (3) there is no terminal error or no silent frame that a later event of an enclosing frame passed over |
| `RoundTrips.MachineRoundTrip` | crates/soroban-failure-analysis/src/model/events.rs:402-475 | the same for the machine on the notes of any well-formed tree, whatever outcome the open frames are drained with |
| `RoundTrips.RoundTripWithoutReentry` | crates/soroban-failure-analysis/src/model/events.rs:382-475 | if no contract is called while it is on the path from the root, the tree comes back if and only if no call returns while a failed one below it dangles |
| `RoundTrips.DistinctPathsDistinguish` | crates/soroban-failure-analysis/src/model/events.rs:382-395 | without re-entrant calls condition (1) holds, and no frame is passed over |
| `RoundTrips.ErrorGoesToTheWrongFrame` | crates/soroban-failure-analysis/src/model/events.rs:455-462 | A calls B, B calls A, both fail silently, the outer A raises: well-formed and orderly, but the error is charged to the inner A, so the tree does not come back |
| `RoundTrips.FailureTakesTheTerminalError` | crates/soroban-failure-analysis/src/model/events.rs:467-472 | the same calls with a log event of the outer A and a terminal error: conditions (1) and (2) hold, but a frame that raised nothing is reported with the terminal error |
| `Misreadings.WrongPopMisreads` | crates/soroban-failure-analysis/src/model/events.rs:450-454 | a return right after a child that failed pops the wrong frame, and reports the child as returned |
| `Misreadings.WrongBlameMisreads` | crates/soroban-failure-analysis/src/model/events.rs:455-462 | an error that finds a dangling frame of its emitter's contract is charged to that frame |
| `Misreadings.WrongParentMisreads` | crates/soroban-failure-analysis/src/model/events.rs:425-448 | a call that finds a dangling frame of its caller's contract is put under that frame, too deep |
| `Misreadings.Spoils` | crates/soroban-failure-analysis/src/model/events.rs:396-475 | from any state the machine can be in, a body that breaks (1) or (2) leaves a frame that can no longer end as it should, and no later event mends it |
| `Labels.ValueLabel` | crates/soroban-failure-analysis/src/model/events.rs:238-246 | the label built by appending is the label of the value at depth 0 |
| `Labels.WriteValue` | crates/soroban-failure-analysis/src/model/events.rs:256-306 | one value appends exactly its label at that depth |
| `Labels.WriteItems` | crates/soroban-failure-analysis/src/model/events.rs:274-286 | the loop over at most eight vector elements appends their labels, separated, and says how many are left out |
| `Labels.WriteEntries` | crates/soroban-failure-analysis/src/model/events.rs:287-301 | the loop over at most eight map entries, likewise |
| `Labels.LabelBound` | crates/soroban-failure-analysis/src/model/events.rs:220-306 | at every depth a label is no longer than the bound of that depth |
| `Labels.LabelsAreBounded` | crates/soroban-failure-analysis/src/model/events.rs:220-306 | no value, however deep, wide or long, has a label longer than 292998 characters, and one value reaches that length |
| `Labels.DecimalDenotes` | crates/soroban-failure-analysis/src/model/events.rs:256-266 | a number is read back from its text |
| `Wasm.Reader.Take` | crates/soroban-failure-analysis/src/contract/wasm.rs:54-59 | gives the next n bytes and moves past them, or reports truncation and does not move |
| `Wasm.Reader.LebU32` | crates/soroban-failure-analysis/src/contract/wasm.rs:66-81 | the five-byte loop reads exactly what `Decode` reads, and leaves the cursor after it |
| `Wasm.DecodeIsTheGrammar` | crates/soroban-failure-analysis/src/contract/wasm.rs:65-81 | decoding accepts exactly the u32 grammar of section 5.2.2 of the WebAssembly Core Specification, padded forms included, with exactly its value |
| `Wasm.DecodeErrors` | crates/soroban-failure-analysis/src/contract/wasm.rs:65-81 | the exact inputs on which each of the two errors is reported |
| `Wasm.OrAdds` | crates/soroban-failure-analysis/src/contract/wasm.rs:69-76 | or-ing a shifted group into the bits below it adds it: no bit is lost |
| `Wasm.LebOfIsU32` | crates/soroban-failure-analysis/src/contract/wasm.rs:131-142 | the canonical encoding is in the grammar, with its value |
| `Wasm.DecodeOfLebOf` | crates/soroban-failure-analysis/src/contract/wasm.rs:131-142 | decoding a canonical encoding anywhere in a buffer returns the integer and takes exactly its bytes |
| `Wasm.ReadName` | crates/soroban-failure-analysis/src/contract/wasm.rs:115-122 | reads a name and leaves the cursor after it, or fails, as the section reader specifies |
| `Wasm.ReadSection` | crates/soroban-failure-analysis/src/contract/wasm.rs:109-123 | reads one section and moves to the next, collecting its content if it is a custom section of that name |
| `Wasm.ScanSections` | crates/soroban-failure-analysis/src/contract/wasm.rs:107-124 | the section loop ends inside the input and collects what the scan collects |
| `Wasm.CustomSections` | crates/soroban-failure-analysis/src/contract/wasm.rs:92-125 | header checks and loop together compute `Scan`, for every byte sequence |
| `Wasm.VersionIsItsBytes` | crates/soroban-failure-analysis/src/contract/wasm.rs:101-105 | the version reported is the number whose four bytes, least significant first, stand there |
| `Wasm.ScanIsTheGrammar` | crates/soroban-failure-analysis/src/contract/wasm.rs:92-125 | the scan succeeds if and only if the bytes after the header are tiled by sections whose lengths are right (framed as in 5.5.2 and 5.5.3, with any id and any bytes as a name), and then returns the contents of the custom sections of that name, in order |
| `Wasm.ScanErrors` | crates/soroban-failure-analysis/src/contract/wasm.rs:92-125 | the scan fails with an error if and only if the header is broken in that way, or well-formed sections are followed by one whose size, payload or name is: a length that ends inside itself or has no end in five bytes, or that says more than is left |
| `Wasm.PrintedIsReadBack` | crates/soroban-failure-analysis/src/contract/wasm.rs:131-160 | for every list of sections, reading the encoded module returns exactly the contents of the custom sections with the name |
| `Outcomes.FirstFailedIsFirst` | crates/soroban-failure-analysis/src/model/outcome.rs:179-215 | the failed operation found is preceded by successes only, and none is found only if all succeeded |
| `Outcomes.FailedOperationIsFirst` | crates/soroban-failure-analysis/src/model/outcome.rs:82-122 | the blamed operation is the first of the effective result that did not succeed, with its code and stage; there is one only if the operations failed, and if they did with none to blame, all succeeded and the stage is unknown |
| `Outcomes.FeeBumpIsTransparent` | crates/soroban-failure-analysis/src/model/outcome.rs:82-122 | a fee bump changes neither result code, failed operation nor stage |
| `Outcomes.StageOfFailedOperation` | crates/soroban-failure-analysis/src/model/outcome.rs:179-245 | the stage, for every result whose operations ran: that of the first operation not done, exactly one for each of the five invoke codes, the TTL and restore codes, classic operations and the wrapper codes |
| `Outcomes.StageWithoutOperation` | crates/soroban-failure-analysis/src/model/outcome.rs:126-177 | the stage of every other result: none for success, validation, sequence, fee or unknown for exactly the codes that mean it |
| `Outcomes.HasEffective` | crates/soroban-failure-analysis/src/model/outcome.rs:82-94 | every result has an effective one: itself, or the one a fee bump wraps |
| `Outcomes.FeeAndCode` | crates/soroban-failure-analysis/src/model/outcome.rs:82-115 | the fee is that of the outermost result, the code that of the effective one |
| `Probe.CollectOps` | tools/rpc-probe/src/result_codes.rs:71-81 | the loop collects every name in order and whether any invoke failed |
| `Probe.OperationAgrees` | tools/rpc-probe/src/result_codes.rs:49-69 | on one operation result, the two implementations agree on failure |
| `Probe.StagesAgree` | tools/rpc-probe/src/result_codes.rs:134-177 | stages only a failed invoke reaches imply the probe's flag; for a failed transaction the flag implies a failing operation no later than that invoke |
| `Model.FromInputIsConsistent` | crates/soroban-failure-analysis/src/model/soroban.rs:186-230 | events, authorization entries and the failed operation are numbered by their positions; footprint lists, source account, fees and availability are those of the input |
| `Model.MetricIsTheLast` | crates/soroban-failure-analysis/src/model/events.rs:182-195 | a metric has the value its last event with a value gives it |
| `Model.AuthNumbers` | crates/soroban-failure-analysis/src/model/soroban.rs:199-209 | the k-th authorization entry of an operation is numbered after all entries of earlier operations, and has its credentials |
| `Model.AuthHasAnOperation` | crates/soroban-failure-analysis/src/model/soroban.rs:199-209 | and every number stands for such an entry |
| `Model.ContractCodeHashes` | crates/soroban-failure-analysis/src/model/soroban.rs:134-144 | exactly the hashes of the footprint's contract-code entries |
| `Model.HashesInOrder` | crates/soroban-failure-analysis/src/model/soroban.rs:134-144 | read-only first, and each list in its own order: every entry's hash stands after those of the entries before it |
| `Resolve.IdentifyContract` | crates/soroban-failure-analysis/src/contract/resolve.rs:313-351 | the loop over the events computes `Identify` |
| `Resolve.IdentifyIsExact` | crates/soroban-failure-analysis/src/contract/resolve.rs:313-351 | a contract is identified if and only if it is the only emitter, or the only marked origin among several |
| `Resolve.IdentifyIgnoresOrder` | crates/soroban-failure-analysis/src/contract/resolve.rs:313-351 | reordering the events changes nothing but the order candidates are listed in |
| `Resolve.LookUpIsExact` | crates/soroban-failure-analysis/src/contract/spec.rs:172-188 | a name is found if and only if every case with that code, over all enums, has that name |
| `Resolve.SpecDecides` | crates/soroban-failure-analysis/src/contract/resolve.rs:353-415 | a spec gives a name if and only if it declares that name only and its WASM, if known, is among the code loaded |
| `Resolve.ResolutionIsExact` | crates/soroban-failure-analysis/src/contract/resolve.rs:353-415 | every answer with exactly what it says: who was identified, whether a spec was obtained, whether it is for other code, and whether it declares the code never, under several names (which are listed), or under one (the first declaration) |
| `Resolve.ResolveContractErrors` | crates/soroban-failure-analysis/src/contract/resolve.rs:230-298 | the two loops compute one report per code, terminal first |
| `Resolve.FindNeeded` | crates/soroban-failure-analysis/src/contract/resolve.rs:300-310 | the loop lists each uniquely identified contract once |
| `Resolve.NamesAreEarned` | crates/soroban-failure-analysis/src/contract/resolve.rs:313-415 | a report carries a name if and only if the contract emitted the code alone or as sole origin, its spec has that one name, and its WASM is loaded |
| `Resolve.ReportsCiteTheirCode` | crates/soroban-failure-analysis/src/contract/resolve.rs:273-283 | a report cites at least one event, and exactly the error events that carry its code, with the terminal event if it is terminal |
| `Resolve.ReportsCoverTheCodes` | crates/soroban-failure-analysis/src/contract/resolve.rs:230-272 | every code seen has exactly one report, and only the first can be terminal |
| `Resolve.OnlyNeededSpecsMatter` | crates/soroban-failure-analysis/src/contract/resolve.rs:300-310 | specs of contracts that are not needed change no report |
| `FetchSpecs.SpecOfExactly` | crates/soroban-failure-rpc/src/contract.rs:163-207 | a spec is available for a contract if and only if it runs WASM with some hash, that code is read, it is a module with spec sections, and their join decodes; the spec then has that hash and those enums |
| `FetchSpecs.SpecSectionIs` | crates/soroban-failure-analysis/src/contract/spec.rs:20-20 | the section is the one called "contractspecv0" |
| `FetchSpecs.ConcatJoins` | crates/soroban-failure-analysis/src/contract/spec.rs:117-122 | spec sections are joined in order |
| `FetchSpecs.SpecFor` | crates/soroban-failure-rpc/src/contract.rs:195-207 | reads the WASM once; a spec is available exactly if it was read and declares it |
| `FetchSpecs.Fetch` | crates/soroban-failure-rpc/src/contract.rs:163-193 | the memo is invisible: each contract has a spec exactly under those conditions, while every distinct WASM is read exactly once |
| `FetchSpecs.FetchingOnDemandLosesNothing` | crates/soroban-failure-rpc/src/contract.rs:163-193 | resolving with the specs of the needed contracts only gives the same reports as with those of any larger list |
| `Rules.OutsideFootprintRule` | crates/soroban-failure-analysis/src/rules/footprint.rs:69-258 | the two footprint loops compute the rule, evidence included |
| `Rules.ContractDefinedRule` | crates/soroban-failure-analysis/src/rules/contract_error.rs:55-314 | the loop over the other reports computes the rule, evidence included |
| `Rules.EntryFor` | crates/soroban-failure-analysis/src/rules/auth.rs:77-81 | the first entry with credentials for the address, and none only if there is none |
| `Rules.DataIsRead` | crates/soroban-failure-analysis/src/rules/footprint.rs:50-58 | address, ledgers and key are read exactly from the second, third and fourth places of the event's vector |
| `Applicability.EventsAreRecognised` | crates/soroban-failure-analysis/src/rules/auth.rs:117-150 | which error events the rules recognise, by error and by the text their message starts with or contains |
| `Applicability.AnswersExactly` | crates/soroban-failure-analysis/src/rules/mod.rs:61-104 | for each of the eight rules, exactly when it does not apply and exactly when it lacks evidence, on stage, Soroban data, availability, terminal error and events |
| `RuleLaws.GatedRulesMatchTheirStage` | crates/soroban-failure-analysis/src/rules/mod.rs:61-104 | a result-code rule matches if and only if the stage is its own, always confirms, and cites the failed operation |
| `RuleLaws.MatchesExactly` | crates/soroban-failure-analysis/src/rules/mod.rs:61-104 | for each of the eight rules, the exact evidence on which it matches |
| `RuleLaws.ExpiryConfirmsExactly` | crates/soroban-failure-analysis/src/rules/auth.rs:117-288 | an invalid entry is confirmed if and only if the first recognised failure is an expiry that ended the invocation and that the first entry for the address bears out |
| `RuleLaws.AbsenceConfirmsExactly` | crates/soroban-failure-analysis/src/rules/footprint.rs:109-248 | a missing footprint entry is confirmed if and only if the first violation ended the invocation and no entry, under either durability, declares its key |
| `RuleLaws.MissingConfirmsExactly` | crates/soroban-failure-analysis/src/rules/missing_auth.rs:112-180 | a missing authorization is confirmed if and only if the first rejection ended the invocation and names a third party without credentials |
| `RuleLaws.NameConfirmsExactly` | crates/soroban-failure-analysis/src/rules/contract_error.rs:72-304 | a contract error is confirmed if and only if the terminal code has earned a name from a spec whose WASM is known and loaded |
| `RuleLaws.TrapNeverConfirms` | crates/soroban-failure-analysis/src/rules/contract_trap.rs:120-173 | a trap is never confirmed |
| `RuleLaws.TrapFiresOnEveryCode` | crates/soroban-failure-analysis/src/rules/contract_trap.rs:105-122 | the trap rule fires on every `WasmVm` code, where its documentation names one |
| `RuleLaws.WeakerConfidence` | crates/soroban-failure-analysis/src/rules/auth.rs:195-275 | which missing evidence lowers the confidence of the three rules on raised errors, and to what |
| `RuleLaws.OtherConfidence` | crates/soroban-failure-analysis/src/rules/contract_error.rs:229-304 | result-code rules always confirm, a trap is always likely, a contract error is confirmed or likely |
| `RuleLaws.ConfirmedIsEarned` | crates/soroban-failure-analysis/src/lib.rs:99-131 | over all rules and inputs: at another stage only its result-code rule confirms; in contract execution confirming takes a terminal error equal to the error on the event cited first |
| `RuleLaws.ConfirmedTogether` | crates/soroban-failure-analysis/src/lib.rs:99-131 | two rules confirm together only if they are the two authorization rules, on different events |
| `RuleLaws.BothAuthRulesCanConfirm` | crates/soroban-failure-analysis/src/rules/auth.rs:146-156 | they do confirm together on an input with both failures under one error code |
| `RuleLaws.BothConfirmExactly` | crates/soroban-failure-analysis/src/rules/auth.rs:146-156 | both authorization rules confirm if and only if the events prove an expiry and a missing entry, and then the expiry came with the code `InvalidAction` |
| `RuleLaws.CitationsAreGrounded` | crates/soroban-failure-analysis/src/rules/footprint.rs:148-213 | for every input every citation of every rule is in range and is of what it is cited for: the failed operation of that stage, an error event, an entry with credentials for the address, a footprint entry of the accessed key |
| `Citations.CitationsAreExact` | crates/soroban-failure-analysis/src/rules/footprint.rs:109-248 | a rule that matches cites exactly what it rests on and no more: the event, the terminal event if it has its error, the first entry of the address, every footprint entry of the key or else the whole footprint, the spec, one event of every other code |
| `Citations.ExpiryCitations` | crates/soroban-failure-analysis/src/rules/auth.rs:168-246 | an expired signature is cited once more for its ledgers, and once more for the entry that bears it out |
| `Diagnoses.AnalyzeWith` | crates/soroban-failure-analysis/src/lib.rs:99-135 | the rule loop, for any registry, a caller's own rules included, computes the diagnosis: ranked causes, reports and statuses |
| `Diagnoses.RankedIsTheStableSort` | crates/soroban-failure-analysis/src/lib.rs:133-135 | the ranking is the one list that descends in confidence and keeps equals in order |
| `Diagnoses.VerdictIsExact` | crates/soroban-failure-analysis/src/diagnosis.rs:218-235 | whatever rules are registered, the verdict names the strongest confidence of any that matched, or says exactly why there is none |
| `Diagnoses.BuiltInVerdict` | crates/soroban-failure-analysis/src/diagnosis.rs:218-235 | the verdict of the built-in rules on the transaction alone: unsupported exactly at a stage no rule is for, or in contract execution without Soroban data and with another kind of terminal error; insufficient evidence exactly in any other contract execution on which no rule fires |
| `Diagnoses.UnderfundedIsUnsupported` | crates/soroban-failure-analysis/src/diagnosis.rs:218-235 | a payment that failed for lack of funds is unsupported, not lacking evidence |
| `Diagnoses.SuccessHasNoCauses` | crates/soroban-failure-analysis/src/lib.rs:99-131 | a transaction that succeeded has no cause, and every rule says it does not apply, if the rules registered do not apply to a success |
| `Diagnoses.BuiltInsAreSilentOnSuccess` | crates/soroban-failure-analysis/src/lib.rs:86-92 | as the built-in ones do not |
| `Diagnoses.ConfirmedCausesOnTop` | crates/soroban-failure-analysis/src/lib.rs:99-135 | the built-in rules confirm at most two causes: the invalid and then the missing authorization entry |
| `SplitMix.Generator.Next` | crates/soroban-failure-rpc/examples/survey_failures.rs:174-180 | steps the state by the odd constant and returns its mix, modulo 2^64 |
| `SplitMix.MixIsABijection` | crates/soroban-failure-rpc/examples/survey_failures.rs:174-180 | mixing is a bijection of states onto outputs, with the inverse given |
| `SplitMix.StatesRepeat` | crates/soroban-failure-rpc/examples/survey_failures.rs:174-175 | a state comes back if and only if a multiple of 2^64 draws lies between |
| `SplitMix.OutputsRepeatAtThePeriod` | crates/soroban-failure-rpc/examples/pilot_report.rs:98-109 | two draws are equal if and only if a multiple of 2^64 draws lies between them |
| `Sampling.StratifiedLedgers` | crates/soroban-failure-rpc/examples/survey_failures.rs:183-194 | draws one ledger per stratum from the generator's outputs, in order, or panics exactly when some sum passes 64 bits |
| `Sampling.NoOverflow` | crates/soroban-failure-rpc/examples/survey_failures.rs:183-194 | no draw of the generator can overflow 64 bits if and only if the count is at most hi - lo or lo + count is at most 2^64 |
| `Sampling.OnePerStratum` | crates/soroban-failure-rpc/examples/survey_failures.rs:183-194 | whatever is drawn, with 1 <= count <= hi - lo each ledger lies in its own stratum and none is clamped |
| `Sampling.StrataFillTheWindow` | crates/soroban-failure-rpc/examples/survey_failures.rs:186-187 | a window with at least `count` ledgers is cut into strata as long as fit in it |
| `Sampling.EveryLedgerIsPicked` | crates/soroban-failure-rpc/examples/survey_failures.rs:188-192 | every ledger of a stratum, as far as the window goes, is picked from some seed |
| `Sampling.IncreasingExactly` | crates/soroban-failure-rpc/examples/survey_failures.rs:183-194 | the ledgers are strictly increasing if and only if the count is at most one or at most hi - lo + 1 |
| `Sampling.PartialShuffle` | crates/soroban-failure-rpc/examples/pilot_report.rs:366-373 | the in-place swaps compute `Shuffled` for the generator's outputs |
| `Sampling.EveryTargetIsDrawn` | crates/soroban-failure-rpc/examples/pilot_report.rs:366-373 | every place not before i is where swap i goes from some seed |
| `Sampling.ShuffledIsAPermutation` | crates/soroban-failure-rpc/examples/pilot_report.rs:366-373 | the pool stays a permutation of itself |
| `Sampling.PrefixIsASample` | crates/soroban-failure-rpc/examples/pilot_report.rs:366-375 | the first k are k different ledgers of the pool |
| `Sampling.ArrangementsAreDrawnOnce` | crates/soroban-failure-rpc/examples/pilot_report.rs:366-375 | every arrangement of k ledgers comes from exactly one choice of swap targets |
| `Clusters.EligibleRecordsHaveCode` | crates/soroban-failure-rpc/src/cluster.rs:231-276 | a record written and not excluded has a code cluster, and exactly which records are not excluded |
| `Clusters.ExclusionIsExact` | crates/soroban-failure-rpc/examples/pilot_report.rs:84-96 | each reason for exclusion is given exactly if its check is the first that fails |
| `Clusters.KeysIdentifyCode` | crates/soroban-failure-rpc/src/cluster.rs:88-106 | two transactions share a cluster key if and only if they ran the same code |
| `Clusters.HexIsInjective` | crates/soroban-failure-rpc/src/cluster.rs:278-281 | hex text determines its bytes |
| `Selection.OrderKeysDistinguish` | crates/soroban-failure-rpc/examples/pilot_report.rs:111-115 | within a trial two order keys are equal if and only if the hash prefixes are |
| `Selection.PrefixIsTheFirstBytes` | crates/soroban-failure-rpc/examples/pilot_report.rs:111-112 | the order key of a hash starts from its first eight bytes as a number, most significant first |
| `Selection.TrialsDistinguish` | crates/soroban-failure-rpc/examples/pilot_report.rs:111-115 | two trials give a hash the same key if and only if they are the same trial |
| `Selection.BeforeIsStrict` | crates/soroban-failure-rpc/examples/pilot_report.rs:128-128 | the walk order is strict, and total up to equal hashes |
| `Selection.ArrangedInOrder` | crates/soroban-failure-rpc/examples/pilot_report.rs:127-128 | sorting puts no candidate after one it comes before |
| `Selection.KeysAscend` | crates/soroban-failure-rpc/examples/pilot_report.rs:128-128 | along the walk keys never fall, and equal keys have their hashes in string order |
| `Selection.LeftOutIsBlocked` | crates/soroban-failure-rpc/examples/pilot_report.rs:129-146 | a candidate left out had its code taken, or its submitter's three samples, by accepted candidates whose (key, hash) is no greater than its own, or in an earlier round |
| `Selection.Caps.Select` | crates/soroban-failure-rpc/examples/pilot_report.rs:126-147 | the loop updates codes and submitters, and counts, as the walk over the sorted candidates does |
| `Selection.WalkIsMaximal` | crates/soroban-failure-rpc/examples/pilot_report.rs:126-147 | what is accepted obeys both caps, comes from the candidates, and no rejected candidate can be added |
| `Selection.MaximalIsHalfTheBest` | crates/soroban-failure-rpc/examples/pilot_report.rs:118-148 | no selection under both caps has more than twice as many samples as one that cannot be extended |
| `Selection.GreedyIsHalfTheBest` | crates/soroban-failure-rpc/examples/pilot_report.rs:118-148 | so greedy selection, in any order, is within a factor of two of the best |
| `Selection.OrdersAreWithinTwo` | crates/soroban-failure-rpc/examples/pilot_report.rs:118-148 | two orders of the same candidates differ by a factor of two at most |
| `Selection.TwiceIsReached` | crates/soroban-failure-rpc/examples/pilot_report.rs:118-148 | the factor two is reached |
| `Selection.SelectionIgnoresOrder` | crates/soroban-failure-rpc/examples/pilot_report.rs:126-147 | with distinct hashes, reordering the input changes neither caps nor accepted samples |
| `Selection.WalkConcat` | crates/soroban-failure-rpc/examples/pilot_report.rs:463-467 | a second round under the same caps continues the walk |
| `Selection.TwoRounds` | crates/soroban-failure-rpc/examples/pilot_report.rs:449-467 | two rounds are one walk over the two sorted lists joined, so the caps hold across them |
| `Paging.WholeLedger` | crates/soroban-failure-rpc/examples/survey_failures.rs:207-240 | against any faithful server, ends, and any result is exactly the ledger's transactions in order; it has one if every call is answered |
| `Paging.LedgerTransactionHashes` | crates/soroban-failure-rpc/examples/verify_protocol_assumptions.rs:96-125 | likewise for the set of hashes |
| `Scanning.ScanForFailed` | tools/rpc-probe/src/scan.rs:29-108 | for any server, reports exactly the first `want` failed Soroban transactions of the pages read, in order, or nothing if a page cannot be read, in at most `max_pages` calls |
| `Scanning.ScanPage` | tools/rpc-probe/src/scan.rs:52-94 | the inner loop keeps every failed Soroban transaction of the page, as far as they are wanted, and gives the last ledger |
| `Scanning.PagesReport` | tools/rpc-probe/src/scan.rs:60-94 | against a faithful server, what is reported is what the history has at the failed places of the pages read |
| `Scanning.NothingMissedExactly` | tools/rpc-probe/src/scan.rs:97-104 | no failed Soroban transaction between the start and the stopping point is missed if and only if no page stepped past left one of its last ledger behind |
| `Scanning.ScanIsComplete` | tools/rpc-probe/src/scan.rs:29-108 | then, if it never goes back, the scan reports exactly the failures from its start to its stopping point, each once, in order |
| `Scanning.CompleteAtLedgerEnds` | tools/rpc-probe/src/scan.rs:29-108 | which holds for every faithful server whose pages end at ledger boundaries |
| `Scanning.RestOfALedgerIsMissed` | tools/rpc-probe/src/scan.rs:97-104 | two failures of ledger 5 on two pages: the second is missed |
| `Scanning.ReportedOnceExactly` | tools/rpc-probe/src/scan.rs:97-104 | no faithful server can make the scan report a place twice if and only if it starts at ledger 4294967295 or that ledger has no failed Soroban transaction |
| `Scanning.LastLedgerIsReportedTwice` | tools/rpc-probe/src/scan.rs:97-104 | a failure in ledger 4294967295, scanned from the ledger before it, is reported twice |
| `Scanning.HashesReportedOnce` | tools/rpc-probe/src/scan.rs:29-108 | where hashes are distinct and the scan never goes back, no hash is reported twice |
| `Archive.CheckpointIsTheNext` | crates/soroban-failure-rpc/examples/verify_protocol_assumptions.rs:171-171 | the checkpoint of a ledger is the first of the form 64k - 1 at or after it |
| `Archive.MarkIsItsLength` | crates/soroban-failure-rpc/examples/verify_protocol_assumptions.rs:194-195 | a mark gives length n if and only if it is the four bytes of n, most significant first, with or without the top bit |
| `Archive.ArchiveHash` | crates/soroban-failure-rpc/examples/verify_protocol_assumptions.rs:192-211 | the record-mark loop computes `FindFrom`, errors included |
| `Archive.HashIsTheLedgers` | crates/soroban-failure-rpc/examples/verify_protocol_assumptions.rs:192-211 | a hash is returned if and only if the file holds, after whole records of other ledgers, a record of that ledger with that hash |
| `Archive.AbsentIsReported` | crates/soroban-failure-rpc/examples/verify_protocol_assumptions.rs:192-211 | whole records of other ledgers, with at most three bytes more, give the not-in-file error |
| `Census.AlreadyRead` | crates/soroban-failure-rpc/examples/survey_failures.rs:294-305 | exactly the ledgers logged as read |
| `Census.InstanceCache.Lookup` | crates/soroban-failure-rpc/examples/survey_failures.rs:248-284 | answers found and not found are remembered; a failed lookup is not, and is asked again |
| `Census.RecordLedger` | crates/soroban-failure-rpc/examples/survey_failures.rs:423-443 | writes through the buffer, by steps the protocol allows, one record for each failed Soroban transaction: its operation and event counts, submitter, root contract, and the code key or reason that an answer to asking for the root's instance decides |
| `Census.OneLedger` | crates/soroban-failure-rpc/examples/survey_failures.rs:406-458 | a ledger is read whole, recorded, flushed and only then logged, or logged as unreadable |
| `Census.LedgerMode` | crates/soroban-failure-rpc/examples/survey_failures.rs:363-470 | a run takes only allowed steps from the files it finds, and every chosen ledger ends up read or logged as unreadable, and read if every call is answered |
| `Census.StepKeeps` | crates/soroban-failure-rpc/examples/survey_failures.rs:374-458 | every allowed step keeps the invariant: each ledger logged as read has the records of all its failed Soroban transactions in the file |
| `Census.EveryRunIsSafe` | crates/soroban-failure-rpc/examples/survey_failures.rs:374-458 | over any sequence of starts, unreadable ledgers, crashes and resumes, and any old record file, every state satisfies it |
| `Census.KilledAnywhereIsSafe` | crates/soroban-failure-rpc/examples/survey_failures.rs:444-458 | killing a run after any of its steps leaves files that satisfy it |
| `Census.FoldLog` | crates/soroban-failure-rpc/examples/pilot_report.rs:209-225 | the fold gives the ledgers read, each with the count of its last read line, and the unreadable ones never read |
| `Census.ReadCensus` | crates/soroban-failure-rpc/examples/pilot_report.rs:208-247 | filter and dedup keep the first record of each hash of the ledgers read |
| `Census.ReportIsExact` | crates/soroban-failure-rpc/examples/pilot_report.rs:209-247 | in every state a census can be in, the report has exactly the failed Soroban transactions of the ledgers read, each once and with the record that belongs to it, and no ledger both read and unreadable |

## Left out

- The network client, retries, JSON-RPC bodies, argument parsing and gzip: the server is a history and a way of paging it; contract instances, executables and WASM come from function parameters.
- XDR, base64 and strkey text: decoded values are datatypes, an address is its strkey text (at most 69 characters), and the decoder of spec entries is a parameter.
- Summaries, reasons, remediation and limitations texts: rules are modelled by outcome, confidence and cited artefacts; messages matter only for the marker tests.
- Human and JSON rendering, error labels, fixture validation and the cause taxonomy.
- Overflow in a build without overflow checks: `StratifiedLedgers` models the panic, not the wrapped sum.
- Saturation of indexes at 32 bits: indexes are naturals, so fewer than 2^32 events, operations and entries are assumed.
- The arm-name tables of the probe and of the transaction result, beyond the codes the stages stand for.
- Fields of a census record that nothing here reads (inner hash, fee bump, lookup status, terminal error), and how a transaction decodes to its counts, submitter and root: a parameter.
- Fields no rule or report reads: raw topics, event types, the successful-call flag, declared resource amounts, and the `final_cursor` and `failed_soroban` counts of the ledger log.
- Floating-point figures (Chao2, percentiles, shares), the census counters and buckets, `--only`, and the exclusion list.
- FNV seeding of the generator: a seed is any 64-bit state. The modulo bias of a draw is not quantified; `ArrangementsAreDrawnOnce` is about swap targets.
- The archive's file name and download: the checkpoint file is a byte sequence, and the decoder of its records is a parameter.
- `ContractSpec::from_entries` counts, `Footprint::access` and `base_account`: easy members.
- `page_mode`: it keeps nothing between pages.
- A history that grows or slides while it is read: the server's history is fixed.
- Partial lines: a line of the record file or of the log is written whole or not at all.
- Errors in opening or writing a file: they stop the run, as a crash does.
