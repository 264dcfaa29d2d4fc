/**
 The decoded XDR values the analysis works on. Text and byte strings are kept
 as they are; an address is its strkey text, which is unique to it.
 */
module Soroban {
  import opened Common

  type U32 = n: int | 0 <= n < 0x1_0000_0000
  type I32 = n: int | -0x8000_0000 <= n < 0x8000_0000
  type U64 = n: int | 0 <= n < 0x1_0000_0000_0000_0000
  type I64 = n: int | -0x8000_0000_0000_0000 <= n < 0x8000_0000_0000_0000

  /** XDR byte strings carry a 32-bit length. */
  type XdrBytes = b: Bytes | |b| < 0x1_0000_0000 witness []

  /** A 32-byte hash. */
  type Hash = h: Bytes | |h| == 32 witness seq(32, _ => 0)

  datatype ContractId = ContractId(hash: Hash)

  /** The longest strkey is that of a muxed account. */
  const MAX_STRKEY := 69

  type Strkey = s: string | |s| <= MAX_STRKEY witness ""

  datatype ScAddress = ScAddress(text: Strkey)

  datatype ScErrorCode =
    | ArithDomain | IndexBounds | InvalidInput | MissingValue | ExistingValue
    | ExceededLimit | InvalidAction | InternalError | UnexpectedType | UnexpectedSize
  {
    function Name(): string {
      match this
      case ArithDomain => "ArithDomain"
      case IndexBounds => "IndexBounds"
      case InvalidInput => "InvalidInput"
      case MissingValue => "MissingValue"
      case ExistingValue => "ExistingValue"
      case ExceededLimit => "ExceededLimit"
      case InvalidAction => "InvalidAction"
      case InternalError => "InternalError"
      case UnexpectedType => "UnexpectedType"
      case UnexpectedSize => "UnexpectedSize"
    }
  }

  datatype ScError =
    | Contract(code: U32)
    | WasmVm(host: ScErrorCode)
    | Context(host: ScErrorCode)
    | Storage(host: ScErrorCode)
    | Object(host: ScErrorCode)
    | Crypto(host: ScErrorCode)
    | Events(host: ScErrorCode)
    | Budget(host: ScErrorCode)
    | Value(host: ScErrorCode)
    | Auth(host: ScErrorCode)

  datatype MapEntry = MapEntry(key: ScVal, val: ScVal)

  datatype ScVal =
    | BoolVal(b: bool)
    | VoidVal
    | U32Val(u32: U32)
    | I32Val(i32: I32)
    | U64Val(u64: U64)
    | I64Val(i64: I64)
    | SymbolVal(symbol: string)
    | StringVal(text: string)
    | BytesVal(bytes: XdrBytes)
    | AddressVal(address: ScAddress)
    | ErrorVal(error: ScError)
    | VecVal(items: Option<seq<ScVal>>)
    | MapVal(entries: Option<seq<MapEntry>>)
    | OtherVal(tag: OtherTag)

  /** The `ScVal` arms that nothing here looks inside. */
  datatype OtherTag =
    | Timepoint | Duration | U128 | I128 | U256 | I256
    | ContractInstance | LedgerKeyContractInstance | LedgerKeyNonce
  {
    function Name(): string {
      match this
      case Timepoint => "Timepoint"
      case Duration => "Duration"
      case U128 => "U128"
      case I128 => "I128"
      case U256 => "U256"
      case I256 => "I256"
      case ContractInstance => "ContractInstance"
      case LedgerKeyContractInstance => "LedgerKeyContractInstance"
      case LedgerKeyNonce => "LedgerKeyNonce"
    }
  }

  datatype Durability = Temporary | Persistent

  datatype LedgerKey =
    | ContractData(contract: ScAddress, key: ScVal, durability: Durability)
    | ContractCode(hash: Hash)
    | OtherKey(name: string)
}
