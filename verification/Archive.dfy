/**
 Finding a ledger in a history archive's checkpoint file (`archive_hash`,
 crates/soroban-failure-rpc/examples/verify_protocol_assumptions.rs:165-212): a
 stream of records, each after a mark whose low 31 bits are its length. Decoding
 a record is a parameter.
 */
module Archive {
  import opened Common
  import opened Soroban

  datatype Entry = Entry(ledger: U32, hash: Hash)

  datatype ArchiveError = TruncatedRecord | UndecodableRecord | NotInFile

  type Decoder = Bytes -> Option<Entry>

  function Checkpoint(ledger: nat): nat {
    ledger / 64 * 64 + 63
  }

  /** The checkpoint of a ledger is the first one at or after it. */
  lemma CheckpointIsTheNext(ledger: nat, c: nat)
    requires (c + 1) % 64 == 0 && c >= ledger
    ensures (Checkpoint(ledger) + 1) % 64 == 0 && ledger <= Checkpoint(ledger) <= c
  {
  }

  function BigEndian(v: Bytes): nat
    requires |v| == 4
  {
    var (a: nat, b: nat, c: nat, d: nat) := (v[0], v[1], v[2], v[3]);
    0x100_0000 * a + 0x1_0000 * b + 0x100 * c + d
  }

  /** `mark & 0x7fff_ffff` */
  function LengthOf(mark: Bytes): nat
    requires |mark| == 4
  {
    BigEndian(mark) % 0x8000_0000
  }

  /** A number in four bytes, most significant first. */
  function FourBytes(n: U32): (v: Bytes)
    ensures |v| == 4
  {
    [n / 0x100_0000, n / 0x1_0000 % 0x100, n / 0x100 % 0x100, n % 0x100]
  }

  lemma BytesOfNumber(v: Bytes, n: U32)
    requires |v| == 4
    ensures 0 <= BigEndian(v) < 0x1_0000_0000
    ensures BigEndian(v) == n <==> v == FourBytes(n)
  {
    FourDigits(v[0], v[1], v[2], v[3]);
    FromFourDigits(n);
    var m := BigEndian(v);
    assert v == FourBytes(m);
    assert v == FourBytes(n) ==> v[0] == FourBytes(n)[0] && v[1] == FourBytes(n)[1];
  }

  lemma LowBits(m: nat, n: nat)
    requires m < 0x1_0000_0000 && n < 0x8000_0000
    ensures m % 0x8000_0000 == n <==> m == n || m == 0x8000_0000 + n
  {
  }

  /** A mark is the length in four bytes, most significant first, with or without the top bit. */
  lemma MarkIsItsLength(mark: Bytes, n: nat)
    requires |mark| == 4 && n < 0x8000_0000
    ensures LengthOf(mark) == n <==> mark == FourBytes(n) || mark == FourBytes(0x8000_0000 + n)
  {
    hide FourBytes, BigEndian;
    BytesOfNumber(mark, n);
    BytesOfNumber(mark, 0x8000_0000 + n);
    LowBits(BigEndian(mark), n);
  }

  function FindFrom(raw: Bytes, at: nat, ledger: U32, decode: Decoder): Result<Hash, ArchiveError>
    decreases |raw| - at
  {
    if at + 4 > |raw| then Err(NotInFile)
    else
      var n := LengthOf(raw[at..at + 4]);
      if at + 4 + n > |raw| then Err(TruncatedRecord)
      else
        match decode(raw[at + 4..at + 4 + n])
        case None => Err(UndecodableRecord)
        case Some(entry) => if entry.ledger == ledger then Ok(entry.hash) else FindFrom(raw, at + 4 + n, ledger, decode)
  }

  method ArchiveHash(raw: Bytes, ledger: U32, decode: Decoder) returns (r: Result<Hash, ArchiveError>)
    ensures r == FindFrom(raw, 0, ledger, decode)
  {
    hide LengthOf;
    var at := 0;
    while at + 4 <= |raw|
      invariant at <= |raw| && FindFrom(raw, at, ledger, decode) == FindFrom(raw, 0, ledger, decode)
      decreases |raw| - at
    {
      var len := LengthOf(raw[at..at + 4]);
      if at + 4 + len > |raw| {
        return Err(TruncatedRecord);
      }
      var entry := decode(raw[at + 4..at + 4 + len]);
      if entry.None? {
        return Err(UndecodableRecord);
      }
      if entry.value.ledger == ledger {
        return Ok(entry.value.hash);
      }
      at := at + 4 + len;
    }
    r := Err(NotInFile);
  }

  // ------------------------------------------------------------ what is in a file

  /** A record as it lies in the file. */
  datatype Record = Record(mark: Bytes, body: Bytes) {
    ghost predicate WellFormed() {
      |mark| == 4 && LengthOf(mark) == |body|
    }
  }

  function Flatten(records: seq<Record>): Bytes {
    if records == [] then [] else records[0].mark + records[0].body + Flatten(records[1..])
  }

  /** Whole records that decode, none of them of the ledger. */
  ghost predicate Passed(records: seq<Record>, ledger: U32, decode: Decoder) {
    forall r :: r in records ==> r.WellFormed() && decode(r.body).Some? && decode(r.body).value.ledger != ledger
  }

  lemma OneRecord(raw: Bytes, at: nat, r: Record, rest: Bytes)
    requires at <= |raw| && raw[at..] == r.mark + r.body + rest && r.WellFormed()
    ensures var body := at + 4;
            && body + |r.body| <= |raw| && raw[at..body] == r.mark
            && raw[body..body + |r.body|] == r.body && raw[body + |r.body|..] == rest
  {
    hide LengthOf;
    var tail := raw[at..];
    assert tail[..4] == r.mark && tail[4..4 + |r.body|] == r.body && tail[4 + |r.body|..] == rest;
    assert raw[at..at + 4] == tail[..4];
    assert raw[at + 4..at + 4 + |r.body|] == tail[4..4 + |r.body|];
    assert raw[at + 4 + |r.body|..] == tail[4 + |r.body|..];
  }

  lemma PassesOver(raw: Bytes, at: nat, r: Record, ledger: U32, decode: Decoder)
    requires r.WellFormed() && at + 4 + |r.body| <= |raw|
    requires raw[at..at + 4] == r.mark && raw[at + 4..at + 4 + |r.body|] == r.body
    requires decode(r.body).Some? && decode(r.body).value.ledger != ledger
    ensures FindFrom(raw, at, ledger, decode) == FindFrom(raw, at + 4 + |r.body|, ledger, decode)
  {
    hide LengthOf;
  }

  lemma FirstRecord(records: seq<Record>, rest: Bytes, ledger: U32, decode: Decoder)
    requires Passed(records, ledger, decode) && records != []
    ensures var r, more := records[0], records[1..];
            && r.WellFormed() && decode(r.body).Some? && decode(r.body).value.ledger != ledger
            && Passed(more, ledger, decode)
            && Flatten(records) + rest == r.mark + r.body + (Flatten(more) + rest)
  {
    assert records == [records[0]] + records[1..];
    assert records[0] in records;
    hide LengthOf;
  }

  /** A record of another ledger is passed over. */
  lemma SkipsOne(raw: Bytes, at: nat, r: Record, rest: Bytes, ledger: U32, decode: Decoder) returns (next: nat)
    requires at <= |raw| && raw[at..] == r.mark + r.body + rest && r.WellFormed()
    requires decode(r.body).Some? && decode(r.body).value.ledger != ledger
    ensures at < next <= |raw| && raw[next..] == rest
    ensures FindFrom(raw, at, ledger, decode) == FindFrom(raw, next, ledger, decode)
  {
    OneRecord(raw, at, r, rest);
    next := at + 4 + |r.body|;
    PassesOver(raw, at, r, ledger, decode);
    hide *;
  }

  /** Records of other ledgers are passed over. */
  lemma {:induction false} SkipsOthers(raw: Bytes, at: nat, records: seq<Record>, rest: Bytes, ledger: U32,
                                       decode: Decoder)
    returns (next: nat)
    requires at <= |raw| && raw[at..] == Flatten(records) + rest && Passed(records, ledger, decode)
    ensures next <= |raw| && raw[next..] == rest
    ensures FindFrom(raw, at, ledger, decode) == FindFrom(raw, next, ledger, decode)
    decreases |records|
  {
    if records == [] {
      next := at;
    } else {
      FirstRecord(records, rest, ledger, decode);
      hide *;
      var more := Flatten(records[1..]) + rest;
      var second := SkipsOne(raw, at, records[0], more, ledger, decode);
      next := SkipsOthers(raw, second, records[1..], rest, ledger, decode);
    }
  }

  /** The ledger's record, found after whole records of other ledgers. */
  ghost predicate FoundAfter(
    raw: Bytes, before: seq<Record>, r: Record, after: Bytes, ledger: U32, decode: Decoder, hash: Hash)
  {
    && raw == Flatten(before) + (r.mark + r.body + after) && Passed(before, ledger, decode)
    && r.WellFormed() && decode(r.body) == Some(Entry(ledger, hash))
  }

  lemma FoundIsReturned(raw: Bytes, before: seq<Record>, r: Record, after: Bytes, ledger: U32, decode: Decoder,
                        hash: Hash)
    requires FoundAfter(raw, before, r, after, ledger, decode, hash)
    ensures FindFrom(raw, 0, ledger, decode) == Ok(hash)
  {
    var rest := r.mark + r.body + after;
    assert raw[0..] == raw;
    var at := SkipsOthers(raw, 0, before, rest, ledger, decode);
    OneRecord(raw, at, r, after);
    hide LengthOf, Flatten, Passed;
  }

  lemma {:induction false} ReturnedIsFound(raw: Bytes, at: nat, ledger: U32, decode: Decoder)
    returns (before: seq<Record>, r: Record, after: Bytes)
    requires at <= |raw| && FindFrom(raw, at, ledger, decode).Ok?
    ensures FoundAfter(raw[at..], before, r, after, ledger, decode, FindFrom(raw, at, ledger, decode).value)
    decreases |raw| - at
  {
    var n := LengthOf(raw[at..at + 4]);
    var first := Record(raw[at..at + 4], raw[at + 4..at + 4 + n]);
    var next := at + 4 + n;
    assert raw[at..] == first.mark + first.body + raw[next..];
    hide LengthOf;
    if decode(first.body).value.ledger == ledger {
      before, r, after := [], first, raw[next..];
      assert Flatten([]) + (r.mark + r.body + after) == r.mark + r.body + after;
    } else {
      var later;
      later, r, after := ReturnedIsFound(raw, next, ledger, decode);
      before := [first] + later;
      FlattenOne(first, later, r.mark + r.body + after);
    }
  }

  lemma FlattenOne(first: Record, later: seq<Record>, rest: Bytes)
    ensures Flatten([first] + later) + rest == first.mark + first.body + (Flatten(later) + rest)
  {
    assert ([first] + later)[1..] == later;
  }

  /**
   A hash is returned exactly when the file holds, after whole records of other
   ledgers, a record of that ledger with that hash.
   */
  lemma HashIsTheLedgers(raw: Bytes, ledger: U32, decode: Decoder, hash: Hash)
    ensures FindFrom(raw, 0, ledger, decode) == Ok(hash)
            <==> exists before, r, after :: FoundAfter(raw, before, r, after, ledger, decode, hash)
  {
    if FindFrom(raw, 0, ledger, decode) == Ok(hash) {
      var before, r, after := ReturnedIsFound(raw, 0, ledger, decode);
      assert raw[0..] == raw;
      assert FoundAfter(raw, before, r, after, ledger, decode, hash);
    }
    hide FindFrom, FoundAfter;
    forall before, r, after | FoundAfter(raw, before, r, after, ledger, decode, hash)
      ensures FindFrom(raw, 0, ledger, decode) == Ok(hash)
    {
      FoundIsReturned(raw, before, r, after, ledger, decode, hash);
    }
  }

  /** A file of whole records of other ledgers, with at most three bytes more, does not have it. */
  lemma AbsentIsReported(raw: Bytes, records: seq<Record>, rest: Bytes, ledger: U32, decode: Decoder)
    requires raw == Flatten(records) + rest && |rest| < 4 && Passed(records, ledger, decode)
    ensures FindFrom(raw, 0, ledger, decode) == Err(NotInFile)
  {
    assert raw[0..] == raw;
    var at := SkipsOthers(raw, 0, records, rest, ledger, decode);
  }
}
