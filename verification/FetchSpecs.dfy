/**
 Obtaining contract specs (crates/soroban-failure-rpc/src/contract.rs:163-207 and
 crates/soroban-failure-analysis/src/contract/spec.rs:117-132). The network and the
 XDR decoder are parameters.
 */
module FetchSpecs {
  import opened Common
  import opened Soroban
  import opened Model
  import opened Resolve
  import Wasm

  datatype Executable = WasmExecutable(hash: Hash) | StellarAsset | ExternalRef

  type Decoder = Bytes -> Result<seq<ErrorEnum>, string>

  /** "contractspecv0" */
  const SPEC_SECTION: Bytes := [99, 111, 110, 116, 114, 97, 99, 116, 115, 112, 101, 99, 118, 48]

  /** Somewhere executables and WASM are read from; it remembers which WASM was read. */
  class ContractSource {
    const executables: ContractId -> Result<Executable, string>
    const code: Hash -> Result<Bytes, string>
    var wasmReads: seq<Hash>

    constructor (executables: ContractId -> Result<Executable, string>, code: Hash -> Result<Bytes, string>)
      ensures this.executables == executables && this.code == code && wasmReads == []
    {
      this.executables := executables;
      this.code := code;
      wasmReads := [];
    }

    method ContractExecutable(c: ContractId) returns (r: Result<Executable, string>)
      ensures r == executables(c)
    {
      r := executables(c);
    }

    method ContractWasm(h: Hash) returns (r: Result<Bytes, string>)
      modifies this
      ensures r == code(h)
      ensures wasmReads == old(wasmReads) + [h]
    {
      wasmReads := wasmReads + [h];
      r := code(h);
    }
  }

  function Concat(parts: seq<Bytes>): Bytes {
    if parts == [] then [] else parts[0] + Concat(parts[1..])
  }

  /** The spec in contract WASM: every spec section, joined and decoded. */
  function SpecFromWasm(wasm: Bytes, decode: Decoder): Result<ContractSpec, string> {
    match Wasm.Scan(wasm, SPEC_SECTION)
    case Err(_) => Err("invalid contract WASM")
    case Ok(sections) =>
      if sections == [] then Err("contract WASM has no `contractspecv0` section")
      else
        match decode(Concat(sections))
        case Ok(enums) => Ok(ContractSpec(None, enums))
        case Err(e) => Err(e)
  }

  function SpecOfWasm(wasm: Result<Bytes, string>, hash: Hash, decode: Decoder): SpecAvailability {
    match wasm
    case Err(e) => Unavailable(e)
    case Ok(bytes) =>
      match SpecFromWasm(bytes, decode)
      case Ok(spec) => Available(spec.(wasmHash := Some(hash)))
      case Err(e) => Unavailable(e)
  }

  /** What is available for one contract, fetched on its own. */
  function SpecOf(
    executables: ContractId -> Result<Executable, string>, code: Hash -> Result<Bytes, string>, decode: Decoder,
    c: ContractId): SpecAvailability
  {
    match executables(c)
    case Ok(WasmExecutable(hash)) => SpecOfWasm(code(hash), hash, decode)
    case Ok(StellarAsset) => Unavailable("Stellar Asset Contract: built into the host, with no on-chain WASM spec")
    case Ok(ExternalRef) => Unavailable("contract executable is not supported")
    case Err(e) => Unavailable(e)
  }

  /** Sections are joined in order. */
  lemma {:induction false} ConcatJoins(a: seq<Bytes>, b: seq<Bytes>, one: Bytes)
    ensures Concat(a + b) == Concat(a) + Concat(b) && Concat([one]) == one
    decreases |a|
  {
    assert [one][1..] == [] && Concat([]) == [];
    assert one + [] == one;
    if a == [] {
      assert a + b == b;
      assert Concat(a) + Concat(b) == Concat(b);
    } else {
      assert (a + b)[1..] == a[1..] + b;
      ConcatJoins(a[1..], b, one);
      assert a[0] + (Concat(a[1..]) + Concat(b)) == (a[0] + Concat(a[1..])) + Concat(b);
    }
  }

  /** The bytes of "contractspecv0", the name of the section a spec is in. */
  lemma SpecSectionIs()
    ensures |SPEC_SECTION| == |"contractspecv0"|
    ensures forall i :: 0 <= i < |SPEC_SECTION| ==> SPEC_SECTION[i] == "contractspecv0"[i] as int
  {
  }

  /** The code is a module whose spec sections, joined, decode to the enums of the spec, which is for that code. */
  ghost predicate Declares(wasm: Bytes, hash: Hash, decode: Decoder, spec: ContractSpec, sections: seq<Wasm.Section>) {
    && Wasm.Module(wasm, sections)
    && Wasm.Contents(sections, SPEC_SECTION) != []
    && decode(Concat(Wasm.Contents(sections, SPEC_SECTION))) == Ok(spec.errorEnums)
    && spec.wasmHash == Some(hash)
  }

  ghost predicate SpecIn(wasm: Result<Bytes, string>, hash: Hash, decode: Decoder, spec: ContractSpec) {
    wasm.Ok? && exists sections :: Declares(wasm.value, hash, decode, spec, sections)
  }

  lemma SpecOfWasmExactly(wasm: Result<Bytes, string>, hash: Hash, decode: Decoder, spec: ContractSpec)
    ensures SpecOfWasm(wasm, hash, decode) == Available(spec) <==> SpecIn(wasm, hash, decode, spec)
  {
    if wasm.Ok? {
      Wasm.ScanIsTheGrammar(wasm.value, SPEC_SECTION);
      hide Wasm.Module, Wasm.Contents, Wasm.Scan, Concat;
      if SpecOfWasm(wasm, hash, decode) == Available(spec) {
        var sections :| Wasm.Module(wasm.value, sections);
        assert Declares(wasm.value, hash, decode, spec, sections);
      }
    }
  }

  /** The contract runs WASM whose code was read and declares the spec. */
  ghost predicate HasSpec(
    executable: Result<Executable, string>, code: Hash -> Result<Bytes, string>, decode: Decoder, spec: ContractSpec)
  {
    exists h :: executable == Ok(WasmExecutable(h)) && SpecIn(code(h), h, decode, spec)
  }

  lemma SpecOfExactly(
    executables: ContractId -> Result<Executable, string>, code: Hash -> Result<Bytes, string>, decode: Decoder,
    c: ContractId, spec: ContractSpec)
    ensures SpecOf(executables, code, decode, c) == Available(spec)
            <==> HasSpec(executables(c), code, decode, spec)
  {
    match executables(c) {
      case Ok(WasmExecutable(h)) => SpecOfWasmExactly(code(h), h, decode, spec);
      case _ =>
    }
    hide SpecIn, SpecOfWasm;
  }

  function SpecsOf(
    executables: ContractId -> Result<Executable, string>, code: Hash -> Result<Bytes, string>, decode: Decoder,
    contracts: seq<ContractId>): Specs
  {
    map c | c in contracts :: SpecOf(executables, code, decode, c)
  }

  /** The WASM hashes behind the contracts. */
  function HashesOf(executables: ContractId -> Result<Executable, string>, contracts: seq<ContractId>): set<Hash> {
    set c | c in contracts && executables(c).Ok? && executables(c).value.WasmExecutable? :: executables(c).value.hash
  }

  lemma NoneYet(
    executables: ContractId -> Result<Executable, string>, code: Hash -> Result<Bytes, string>, decode: Decoder)
    ensures SpecsOf(executables, code, decode, []) == map[] && HashesOf(executables, []) == {}
  {
  }

  /** One more contract adds its own spec, and its WASM hash if it has one. */
  lemma OneMore(
    executables: ContractId -> Result<Executable, string>, code: Hash -> Result<Bytes, string>, decode: Decoder,
    contracts: seq<ContractId>, c: ContractId)
    ensures SpecsOf(executables, code, decode, contracts + [c])
            == SpecsOf(executables, code, decode, contracts)[c := SpecOf(executables, code, decode, c)]
    ensures HashesOf(executables, contracts + [c])
            == HashesOf(executables, contracts)
               + match executables(c) { case Ok(WasmExecutable(h)) => {h} case _ => {} }
  {
    hide SpecOf;
    var more := contracts + [c];
    forall h
      ensures h in HashesOf(executables, more)
              <==> h in HashesOf(executables, contracts) || executables(c) == Ok(WasmExecutable(h))
    {
      if h in HashesOf(executables, contracts) {
        var d :| d in contracts && executables(d) == Ok(WasmExecutable(h));
        assert d in more;
      }
      assert c in more;
    }
  }

  method SpecFor(source: ContractSource, hash: Hash, decode: Decoder) returns (r: SpecAvailability)
    modifies source
    ensures r == SpecOfWasm(source.code(hash), hash, decode)
    ensures forall spec :: r == Available(spec) <==> SpecIn(source.code(hash), hash, decode, spec)
    ensures source.wasmReads == old(source.wasmReads) + [hash]
  {
    hide SpecFromWasm, SpecIn, SpecOfWasm;
    var wasm := source.ContractWasm(hash);
    r := SpecOfWasm(wasm, hash, decode);
    forall spec
      ensures r == Available(spec) <==> SpecIn(source.code(hash), hash, decode, spec)
    {
      SpecOfWasmExactly(wasm, hash, decode, spec);
    }
  }

  /**
   The memo is invisible: the result is each contract's own spec, while every
   distinct WASM is read exactly once, however many contracts share it.
   */
  method Fetch(source: ContractSource, contracts: seq<ContractId>, decode: Decoder) returns (out: Specs)
    modifies source
    ensures out == SpecsOf(source.executables, source.code, decode, contracts)
    ensures out.Keys == Elements(contracts)
    ensures forall c, spec :: c in contracts ==>
              (out[c] == Available(spec) <==> HasSpec(source.executables(c), source.code, decode, spec))
    ensures old(source.wasmReads) <= source.wasmReads
    ensures var new_ := source.wasmReads[|old(source.wasmReads)|..];
            Distinct(new_) && Elements(new_) == HashesOf(source.executables, contracts)
  {
    hide SpecOfWasm, SpecsOf, HashesOf, HasSpec;
    var byHash: map<Hash, SpecAvailability> := map[];
    out := map[];
    NoneYet(source.executables, source.code, decode);
    ghost var before := source.wasmReads;
    ghost var fetched: seq<Hash> := [];
    for i := 0 to |contracts|
      invariant out == SpecsOf(source.executables, source.code, decode, contracts[..i])
      invariant source.wasmReads == before + fetched
      invariant Distinct(fetched) && Elements(fetched) == byHash.Keys == HashesOf(source.executables, contracts[..i])
      invariant forall h :: h in byHash ==> byHash[h] == SpecOfWasm(source.code(h), h, decode)
    {
      var c := contracts[i];
      var availability: SpecAvailability;
      assert contracts[..i + 1] == contracts[..i] + [c];
      var executable := source.ContractExecutable(c);
      match executable {
        case Ok(WasmExecutable(hash)) =>
          if hash !in byHash {
            var spec := SpecFor(source, hash, decode);
            byHash := byHash[hash := spec];
            fetched := fetched + [hash];
          }
          availability := byHash[hash];
        case Ok(StellarAsset) =>
          availability := Unavailable("Stellar Asset Contract: built into the host, with no on-chain WASM spec");
        case Ok(ExternalRef) =>
          availability := Unavailable("contract executable is not supported");
        case Err(e) =>
          availability := Unavailable(e);
      }
      OneMore(source.executables, source.code, decode, contracts[..i], c);
      out := out[c := availability];
    }
    assert contracts[..|contracts|] == contracts;
    SpecsAreExact(source.executables, source.code, decode, contracts);
  }

  lemma SpecsAreExact(
    executables: ContractId -> Result<Executable, string>, code: Hash -> Result<Bytes, string>, decode: Decoder,
    contracts: seq<ContractId>)
    ensures SpecsOf(executables, code, decode, contracts).Keys == Elements(contracts)
    ensures forall c, spec :: c in contracts ==>
              (SpecsOf(executables, code, decode, contracts)[c] == Available(spec)
               <==> HasSpec(executables(c), code, decode, spec))
  {
    hide SpecOf, HasSpec;
    forall c, spec | c in contracts
      ensures SpecsOf(executables, code, decode, contracts)[c] == Available(spec)
              <==> HasSpec(executables(c), code, decode, spec)
    {
      SpecOfExactly(executables, code, decode, c, spec);
    }
  }

  /**
   Fetching only what is needed loses nothing: the reports are those that the
   specs of any larger list of contracts would give.
   */
  lemma FetchingOnDemandLosesNothing(
    m: TransactionModel, executables: ContractId -> Result<Executable, string>, code: Hash -> Result<Bytes, string>,
    decode: Decoder, all: seq<ContractId>)
    requires forall c :: c in ContractsNeedingSpecs(m) ==> c in all
    ensures Reports(m, SpecsOf(executables, code, decode, ContractsNeedingSpecs(m)))
            == Reports(m, SpecsOf(executables, code, decode, all))
  {
    OnlyNeededSpecsMatter(m, SpecsOf(executables, code, decode, ContractsNeedingSpecs(m)),
                          SpecsOf(executables, code, decode, all));
  }
}
