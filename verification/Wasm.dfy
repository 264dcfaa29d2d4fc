/**
 The WebAssembly framing reader (crates/soroban-failure-analysis/src/contract/wasm.rs)
 against the binary grammar of the WebAssembly Core Specification: integers
 (section 5.2.2), sections (5.5.2) and custom sections (5.5.3).
 */
module Wasm {
  import opened Common

  datatype WasmError = NotWasm | UnsupportedVersion(version: nat) | Truncated | BadLeb128

  // -------------------------------------------------------------- the grammar

  /**
   `bytes` is an encoding of `value` as an unsigned integer of `width` bits:
   one byte below 128 and below 2^width, or a byte from 128 up followed by the
   encoding of the rest in seven bits less.
   */
  ghost predicate UN(width: nat, bytes: Bytes, value: nat) {
    if |bytes| == 0 then false
    else
      var b := bytes[0];
      if |bytes| == 1 then b < 128 && b < Pow2(width) && value == b
      else
        && b >= 128 && width > 7
        && value >= b - 128 && (value - (b - 128)) % 128 == 0
        && UN(width - 7, bytes[1..], (value - (b - 128)) / 128)
  }

  ghost predicate U32(bytes: Bytes, value: nat) {
    UN(32, bytes, value)
  }

  // ------------------------------------------------------- decoding, as a function

  datatype Leb = Value(value: nat, used: nat) | Bad(error: WasmError)

  /** Group `i` is byte `b`, with `rest` decoded after it. */
  function Group(b: Byte, i: nat, rest: Leb): Leb {
    if i == 4 && b % 128 > 15 then Bad(BadLeb128)
    else if b < 128 then Value(b, 1)
    else
      match rest
      case Value(v, used) => Value(b - 128 + 128 * v, used + 1)
      case Bad(e) => Bad(e)
  }

  /** Read group `i` of seven bits and what follows it. */
  function DecodeFrom(bytes: Bytes, at: nat, i: nat): (r: Leb)
    requires i <= 5
    decreases 5 - i
  {
    if i == 5 then Bad(BadLeb128)
    else if at >= |bytes| then Bad(Truncated)
    else Group(bytes[at], i, DecodeFrom(bytes, at + 1, i + 1))
  }

  function Decode(bytes: Bytes, at: nat): Leb {
    DecodeFrom(bytes, at, 0)
  }

  lemma {:induction false} Pow2Grows(a: nat, b: nat)
    requires a <= b
    ensures Pow2(a) <= Pow2(b)
    decreases b - a
  {
    if a < b {
      Pow2Grows(a, b - 1);
    }
  }

  lemma ShortUN(width: nat, s: Bytes, b: nat)
    requires |s| == 1 && s[0] == b && b < 128 && (width >= 7 || b < Pow2(width))
    ensures UN(width, s, b)
  {
    if width >= 7 {
      Pow2Grows(7, width);
      assert Pow2(7) == 128;
    }
  }

  lemma LongUN(width: nat, s: Bytes, b: nat, rest: nat)
    requires |s| > 1 && s[0] == b && b >= 128 && width > 7
    requires UN(width - 7, s[1..], rest)
    ensures UN(width, s, b - 128 + 128 * rest)
  {
    var value := b - 128 + 128 * rest;
    assert (value - (b - 128)) / 128 == rest;
  }

  lemma {:induction false} DecodeFromSound(bytes: Bytes, at: nat, i: nat)
    requires i <= 5 && at <= |bytes|
    ensures var r := DecodeFrom(bytes, at, i);
            r.Value? ==> && 1 <= r.used <= 5 - i && at + r.used <= |bytes|
                         && UN(32 - 7 * i, bytes[at..at + r.used], r.value)
    decreases 5 - i
  {
    hide UN;
    if i < 5 && at < |bytes| {
      DecodeFromSound(bytes, at + 1, i + 1);
      var r := DecodeFrom(bytes, at, i);
      if r.Value? {
        var s, b := bytes[at..at + r.used], bytes[at];
        if b < 128 {
          assert Pow2(4) == 16;
          ShortUN(32 - 7 * i, s, b);
        } else {
          assert s[1..] == bytes[at + 1..at + r.used];
          LongUN(32 - 7 * i, s, b, (r.value - (b - 128)) / 128);
        }
      }
    }
  }

  lemma {:induction false} DecodeFromComplete(bytes: Bytes, at: nat, i: nat, used: nat, value: nat)
    requires i <= 4 && at + used <= |bytes|
    requires UN(32 - 7 * i, bytes[at..at + used], value)
    ensures DecodeFrom(bytes, at, i) == Value(value, used)
    decreases 5 - i
  {
    var s := bytes[at..at + used];
    assert s[0] == bytes[at];
    assert Pow2(4) == 16;
    if used > 1 {
      assert s[1..] == bytes[at + 1..at + used];
      DecodeFromComplete(bytes, at + 1, i + 1, used - 1, (value - (s[0] - 128)) / 128);
    }
  }

  /** Decoding accepts exactly the u32 encodings, with exactly their value. */
  lemma DecodeIsTheGrammar(bytes: Bytes, at: nat, used: nat, value: nat)
    requires at + used <= |bytes|
    ensures Decode(bytes, at) == Value(value, used) <==> U32(bytes[at..at + used], value)
  {
    DecodeFromSound(bytes, at, 0);
    if U32(bytes[at..at + used], value) {
      DecodeFromComplete(bytes, at, 0, used, value);
    }
  }

  lemma DecodeSound(bytes: Bytes, at: nat)
    requires at <= |bytes|
    ensures var r := Decode(bytes, at);
            r.Value? ==> && 1 <= r.used <= 5 && at + r.used <= |bytes|
                         && U32(bytes[at..at + r.used], r.value)
  {
    DecodeFromSound(bytes, at, 0);
  }

  /** The byte in group `i` carries on: only such bytes come before the last. */
  predicate Continues(bytes: Bytes, at: nat, n: nat) {
    at + n <= |bytes| && forall k :: at <= k < at + n ==> bytes[k] >= 128
  }

  lemma {:induction false} DecodeFromErrors(bytes: Bytes, at: nat, i: nat)
    requires i <= 4 && at <= |bytes|
    ensures DecodeFrom(bytes, at, i) == Bad(Truncated)
            <==> |bytes| - at < 5 - i && Continues(bytes, at, |bytes| - at)
    ensures DecodeFrom(bytes, at, i) == Bad(BadLeb128)
            <==> |bytes| - at >= 5 - i && Continues(bytes, at, 4 - i) && bytes[at + 4 - i] > 15
    ensures DecodeFrom(bytes, at, i) in [Bad(Truncated), Bad(BadLeb128)] || DecodeFrom(bytes, at, i).Value?
    decreases 5 - i
  {
    if at < |bytes| && i < 4 {
      DecodeFromErrors(bytes, at + 1, i + 1);
    }
  }

  /** The two ways to fail: the input ends inside the integer, or it has no end in five bytes. */
  lemma DecodeErrors(bytes: Bytes, at: nat)
    requires at <= |bytes|
    ensures Decode(bytes, at) == Bad(Truncated)
            <==> |bytes| - at < 5 && Continues(bytes, at, |bytes| - at)
    ensures Decode(bytes, at) == Bad(BadLeb128)
            <==> |bytes| - at >= 5 && Continues(bytes, at, 4) && bytes[at + 4] > 15
    ensures Decode(bytes, at) in [Bad(Truncated), Bad(BadLeb128)] || Decode(bytes, at).Value?
  {
    DecodeFromErrors(bytes, at, 0);
  }

  /** The canonical (shortest) encoding. */
  function LebOf(n: nat): (r: Bytes)
    ensures |r| >= 1
  {
    if n < 128 then [n] else [n % 128 + 128] + LebOf(n / 128)
  }

  lemma {:induction false} LebOfIsUN(width: nat, n: nat)
    requires n < Pow2(width)
    ensures UN(width, LebOf(n), n)
    decreases n
  {
    hide UN;
    if n < 128 {
      ShortUN(width, LebOf(n), n);
    } else {
      assert Pow2(7) == 128;
      if width <= 7 {
        Pow2Grows(width, 7);
        assert false;
      }
      Pow2Splits(width - 7);
      LebOfIsUN(width - 7, n / 128);
      LongUN(width, LebOf(n), n % 128 + 128, n / 128);
    }
  }

  lemma Pow2Splits(n: nat)
    ensures Pow2(n + 7) == 128 * Pow2(n)
  {
    assert Pow2(n + 7) == 2 * Pow2(n + 6) == 4 * Pow2(n + 5) == 8 * Pow2(n + 4);
    assert Pow2(n + 4) == 2 * Pow2(n + 3) == 4 * Pow2(n + 2) == 8 * Pow2(n + 1);
  }

  lemma LebOfIsU32(n: nat)
    requires n < 0x1_0000_0000
    ensures U32(LebOf(n), n)
  {
    Pow2Splits(25);
    Pow2Splits(18);
    Pow2Splits(11);
    Pow2Splits(4);
    assert Pow2(4) == 16;
    LebOfIsUN(32, n);
  }

  /** Reading back a canonical encoding gives the integer, and takes exactly its bytes. */
  lemma DecodeOfLebOf(n: nat, before: Bytes, after: Bytes)
    requires n < 0x1_0000_0000
    ensures Decode(before + LebOf(n) + after, |before|) == Value(n, |LebOf(n)|)
  {
    var bytes, used := before + LebOf(n) + after, |LebOf(n)|;
    assert bytes[|before|..|before| + used] == LebOf(n);
    LebOfIsU32(n);
    DecodeIsTheGrammar(bytes, |before|, used, n);
  }

  // ------------------------------------------------------- modules and sections

  datatype Section =
    | Plain(id: Byte, size: Bytes, payload: Bytes)
    | Custom(size: Bytes, nameLen: Bytes, name: Bytes, content: Bytes)
  {
    /**
     The framing is valid: both length fields say the length they precede. That
     is less than the specification asks for: a name need not be UTF-8 (section
     5.2.4), and any id will do, in any order (section 5.5.2).
     */
    ghost predicate WellFormed() {
      match this
      case Plain(id, size, payload) => id != 0 && U32(size, |Payload()|)
      case Custom(size, nameLen, name, content) =>
        U32(nameLen, |name|) && U32(size, |Payload()|)
    }

    function Id(): Byte {
      if Plain? then id else 0
    }

    function Payload(): Bytes {
      if Plain? then payload else nameLen + name + content
    }

    function Bytes(): Bytes {
      [Id()] + size + Payload()
    }
  }

  const MAGIC: Bytes := [0x00, 0x61, 0x73, 0x6d]
  const HEADER: Bytes := MAGIC + [1, 0, 0, 0]

  ghost predicate AllWellFormed(sections: seq<Section>) {
    forall s :: s in sections ==> s.WellFormed()
  }

  function Flatten(sections: seq<Section>): Bytes {
    if sections == [] then [] else sections[0].Bytes() + Flatten(sections[1..])
  }

  /** The contents of the custom sections called `name`, in order. */
  function Contents(sections: seq<Section>, name: Bytes): seq<Bytes> {
    if sections == [] then []
    else
      (if sections[0].Custom? && sections[0].name == name then [sections[0].content] else [])
      + Contents(sections[1..], name)
  }

  // --------------------------------------------------------- the scan, as a function

  function LittleEndian(v: Bytes): nat
    requires |v| == 4
  {
    var (a: nat, b: nat, c: nat, d: nat) := (v[0], v[1], v[2], v[3]);
    a + 0x100 * b + 0x1_0000 * c + 0x100_0000 * d
  }

  /** A version is read back from its four bytes, least significant first. */
  lemma VersionIsItsBytes(v: Bytes, n: nat)
    requires |v| == 4 && n < 0x1_0000_0000
    ensures LittleEndian(v) == n
            <==> v == [n % 0x100, n / 0x100 % 0x100, n / 0x1_0000 % 0x100, n / 0x100_0000]
  {
    FourDigits(v[3], v[2], v[1], v[0]);
    FromFourDigits(n);
    var m := LittleEndian(v);
    assert v == [m % 0x100, m / 0x100 % 0x100, m / 0x1_0000 % 0x100, m / 0x100_0000];
  }

  /** The name and content of a custom section's payload. */
  function SplitName(payload: Bytes): Result<(Bytes, Bytes), WasmError> {
    match Decode(payload, 0)
    case Bad(e) => Err(e)
    case Value(n, used) =>
      if used + n > |payload| then Err(Truncated)
      else Ok((payload[used..used + n], payload[used + n..]))
  }

  function ScanFrom(wasm: Bytes, at: nat, name: Bytes): Result<seq<Bytes>, WasmError>
    decreases |wasm| - at
  {
    if at >= |wasm| then Ok([])
    else
      match Decode(wasm, at + 1)
      case Bad(e) => Err(e)
      case Value(size, used) =>
        var body := at + 1 + used;
        if body + size > |wasm| then Err(Truncated)
        else if wasm[at] != 0 then ScanFrom(wasm, body + size, name)
        else
          match SplitName(wasm[body..body + size])
          case Err(e) => Err(e)
          case Ok((sectionName, content)) =>
            match ScanFrom(wasm, body + size, name)
            case Err(e) => Err(e)
            case Ok(found) => Ok((if sectionName == name then [content] else []) + found)
  }

  function Scan(wasm: Bytes, name: Bytes): Result<seq<Bytes>, WasmError> {
    if !(MAGIC <= wasm) then Err(NotWasm)
    else if |wasm| < 8 then Err(Truncated)
    else if LittleEndian(wasm[4..8]) != 1 then Err(UnsupportedVersion(LittleEndian(wasm[4..8])))
    else ScanFrom(wasm, 8, name)
  }

  /** What has been found so far, before what is still to be read. */
  function Prefixed(found: seq<Bytes>, rest: Result<seq<Bytes>, WasmError>): Result<seq<Bytes>, WasmError> {
    match rest
    case Ok(more) => Ok(found + more)
    case Err(e) => Err(e)
  }

  lemma PrefixedTwice(a: seq<Bytes>, b: seq<Bytes>, rest: Result<seq<Bytes>, WasmError>)
    ensures Prefixed(a, Prefixed(b, rest)) == Prefixed(a + b, rest)
    ensures Prefixed([], rest) == rest
  {
    if rest.Ok? {
      assert a + (b + rest.value) == (a + b) + rest.value;
      assert [] + rest.value == rest.value;
    }
  }

  /** What a section contributes to the scan for `name`. */
  function Match(id: Byte, payload: Bytes, name: Bytes): seq<Bytes>
    requires id == 0 ==> SplitName(payload).Ok?
  {
    if id == 0 && SplitName(payload).value.0 == name then [SplitName(payload).value.1] else []
  }

  lemma ScanStep(wasm: Bytes, at: nat, name: Bytes, payload: Bytes, used: nat)
    requires at < |wasm| && Decode(wasm, at + 1) == Value(|payload|, used)
    requires at + 1 + used + |payload| <= |wasm|
    requires wasm[at + 1 + used..at + 1 + used + |payload|] == payload
    requires wasm[at] == 0 ==> SplitName(payload).Ok?
    ensures ScanFrom(wasm, at, name)
            == Prefixed(Match(wasm[at], payload, name), ScanFrom(wasm, at + 1 + used + |payload|, name))
  {
    hide Decode, SplitName;
    PrefixedTwice([], [], ScanFrom(wasm, at + 1 + used + |payload|, name));
  }

  lemma SplitNameIsTheGrammar(payload: Bytes, nameLen: Bytes, name: Bytes, content: Bytes)
    requires payload == nameLen + name + content && U32(nameLen, |name|)
    ensures SplitName(payload) == Ok((name, content))
  {
    assert payload[0..|nameLen|] == nameLen;
    DecodeIsTheGrammar(payload, 0, |nameLen|, |name|);
  }

  lemma SplitNameSound(payload: Bytes) returns (nameLen: Bytes)
    requires SplitName(payload).Ok?
    ensures var (name, content) := SplitName(payload).value;
            payload == nameLen + name + content && U32(nameLen, |name|)
  {
    hide Decode, U32;
    var r := Decode(payload, 0);
    DecodeSound(payload, 0);
    nameLen := payload[0..r.used];
  }

  /** Where the parts of an encoded section are. */
  lemma SectionParts(s: Section, rest: Bytes)
    ensures var tail, n := s.Bytes() + rest, |s.size|;
            && tail[0] == s.Id()
            && tail[1..1 + n] == s.size
            && tail[1 + n..1 + n + |s.Payload()|] == s.Payload()
            && tail[1 + n + |s.Payload()|..] == rest
  {
    hide *;
    var id, payload := s.Id(), s.Payload();
    assert s.Bytes() == [id] + s.size + payload by { SectionBytes(s); }
  }

  lemma SectionBytes(s: Section)
    ensures s.Bytes() == [s.Id()] + s.size + s.Payload()
  {
  }

  /** One section at position `at` is read whole. */
  lemma ScanOne(wasm: Bytes, at: nat, s: Section, rest: Bytes)
    requires U32(s.size, |s.Payload()|) && at <= |wasm| && wasm[at..] == s.Bytes() + rest
    ensures var body := at + 1 + |s.size|;
            && body + |s.Payload()| <= |wasm|
            && wasm[at] == s.Id()
            && Decode(wasm, at + 1) == Value(|s.Payload()|, |s.size|)
            && wasm[body..body + |s.Payload()|] == s.Payload()
            && wasm[body + |s.Payload()|..] == rest
  {
    hide *;
    SectionBytes(s);
    SectionParts(s, rest);
    var tail, n, p := wasm[at..], |s.size|, |s.Payload()|;
    assert wasm[at + 1..at + 1 + n] == tail[1..1 + n];
    DecodeIsTheGrammar(wasm, at + 1, n, p);
    assert wasm[at + 1 + n..at + 1 + n + p] == tail[1 + n..1 + n + p];
    assert wasm[at + 1 + n + p..] == tail[1 + n + p..];
    assert wasm[at] == tail[0];
  }

  lemma MatchIs(id: Byte, payload: Bytes, name: Bytes)
    requires id == 0 ==> SplitName(payload).Ok?
    ensures Match(id, payload, name)
            == if id == 0 && SplitName(payload).value.0 == name then [SplitName(payload).value.1] else []
  {
    hide SplitName;
  }

  lemma ConsSections(first: Section, rest: seq<Section>, name: Bytes)
    requires first.WellFormed() && AllWellFormed(rest)
    ensures var sections := [first] + rest;
            && AllWellFormed(sections)
            && Flatten(sections) == first.Bytes() + Flatten(rest)
            && Contents(sections, name)
               == (if first.Custom? && first.name == name then [first.content] else []) + Contents(rest, name)
  {
    hide U32;
    assert ([first] + rest)[1..] == rest;
  }

  lemma MatchSection(s: Section, name: Bytes)
    requires s.WellFormed()
    ensures s.Id() == 0 ==> SplitName(s.Payload()).Ok?
    ensures Match(s.Id(), s.Payload(), name)
            == if s.Custom? && s.name == name then [s.content] else []
  {
    hide SplitName, U32;
    if s.Custom? {
      SplitNameIsTheGrammar(s.Payload(), s.nameLen, s.name, s.content);
    }
  }

  /** A well-formed section contributes its content, and the scan goes on after it. */
  lemma ScanHead(wasm: Bytes, at: nat, s: Section, next: nat, name: Bytes)
    requires s.WellFormed() && at < |wasm| && next == at + 1 + |s.size| + |s.Payload()| <= |wasm|
    requires wasm[at] == s.Id() && Decode(wasm, at + 1) == Value(|s.Payload()|, |s.size|)
    requires wasm[at + 1 + |s.size|..next] == s.Payload()
    ensures ScanFrom(wasm, at, name)
            == Prefixed(if s.Custom? && s.name == name then [s.content] else [], ScanFrom(wasm, next, name))
  {
    hide *;
    var id, payload := s.Id(), s.Payload();
    MatchSection(s, name);
    ScanStep(wasm, at, name, payload, |s.size|);
  }

  lemma WellFormedSize(s: Section)
    requires s.WellFormed()
    ensures U32(s.size, |s.Payload()|)
  {
    hide U32;
  }

  lemma PrefixedOk(found: seq<Bytes>, more: seq<Bytes>)
    ensures Prefixed(found, Ok(more)) == Ok(found + more)
  {
  }

  /** One section, and where the next begins. */
  lemma ScanNext(wasm: Bytes, at: nat, s: Section, rest: Bytes, name: Bytes) returns (next: nat)
    requires s.WellFormed() && at <= |wasm| && wasm[at..] == s.Bytes() + rest
    ensures at < next <= |wasm| && wasm[next..] == rest
    ensures ScanFrom(wasm, at, name)
            == Prefixed(if s.Custom? && s.name == name then [s.content] else [], ScanFrom(wasm, next, name))
  {
    hide *;
    WellFormedSize(s);
    ScanOne(wasm, at, s, rest);
    next := at + 1 + |s.size| + |s.Payload()|;
    ScanHead(wasm, at, s, next, name);
  }

  /** Well-formed sections contribute their contents, and the scan goes on after them. */
  lemma {:induction false} ScanPasses(wasm: Bytes, at: nat, sections: seq<Section>, tail: Bytes, name: Bytes)
    returns (next: nat)
    requires AllWellFormed(sections) && at <= |wasm| && wasm[at..] == Flatten(sections) + tail
    ensures next <= |wasm| && wasm[next..] == tail
    ensures ScanFrom(wasm, at, name) == Prefixed(Contents(sections, name), ScanFrom(wasm, next, name))
    decreases |sections|
  {
    hide *;
    if sections == [] {
      next := at;
      NoSections();
      NoContents(name);
      assert [] + tail == tail;
      PrefixedTwice([], [], ScanFrom(wasm, at, name));
    } else {
      var s, rest := sections[0], sections[1..];
      assert sections == [s] + rest;
      SplitSections(s, rest);
      ConsSections(s, rest, name);
      assert s.Bytes() + Flatten(rest) + tail == s.Bytes() + (Flatten(rest) + tail);
      var second := ScanNext(wasm, at, s, Flatten(rest) + tail, name);
      next := ScanPasses(wasm, second, rest, tail, name);
      PrefixedTwice(if s.Custom? && s.name == name then [s.content] else [], Contents(rest, name),
                    ScanFrom(wasm, next, name));
    }
  }

  lemma NoSections()
    ensures AllWellFormed([]) && Flatten([]) == []
  {
  }

  lemma NoContents(name: Bytes)
    ensures Contents([], name) == []
  {
  }

  lemma SplitSections(first: Section, rest: seq<Section>)
    requires AllWellFormed([first] + rest)
    ensures first.WellFormed() && AllWellFormed(rest)
  {
    var sections := [first] + rest;
    assert first in sections;
    forall s | s in rest
      ensures s.WellFormed()
    {
      assert s in sections;
    }
  }

  lemma ScanComplete(wasm: Bytes, at: nat, sections: seq<Section>, name: Bytes)
    requires AllWellFormed(sections) && at <= |wasm| && wasm[at..] == Flatten(sections)
    ensures ScanFrom(wasm, at, name) == Ok(Contents(sections, name))
  {
    hide Decode, U32, SplitName, AllWellFormed, Flatten, Contents;
    assert Flatten(sections) + [] == Flatten(sections);
    var next := ScanPasses(wasm, at, sections, [], name);
    PrefixedOk(Contents(sections, name), []);
    assert Contents(sections, name) + [] == Contents(sections, name);
  }

  /** The section the scan reads at `at`. */
  lemma SectionAt(wasm: Bytes, at: nat, id: Byte, size: Bytes, payload: Bytes) returns (s: Section)
    requires at < |wasm| && wasm[at] == id && at + 1 + |size| + |payload| <= |wasm|
    requires size == wasm[at + 1..at + 1 + |size|]
    requires payload == wasm[at + 1 + |size|..at + 1 + |size| + |payload|]
    requires U32(size, |payload|) && (id == 0 ==> SplitName(payload).Ok?)
    ensures s.WellFormed() && wasm[at..] == s.Bytes() + wasm[at + 1 + |size| + |payload|..]
    ensures id != 0 ==> s.Plain?
    ensures id == 0 ==> s.Custom? && SplitName(payload) == Ok((s.name, s.content))
  {
    hide U32, SplitName;
    if id != 0 {
      s := Plain(id, size, payload);
    } else {
      var nameLen := SplitNameSound(payload);
      var (sectionName, content) := SplitName(payload).value;
      s := Custom(size, nameLen, sectionName, content);
    }
    assert s.Bytes() == [id] + size + payload;
    assert wasm[at..] == [wasm[at]] + size + payload + wasm[at + 1 + |size| + |payload|..];
  }

  lemma ScanFound(wasm: Bytes, at: nat, name: Bytes)
    requires at < |wasm| && ScanFrom(wasm, at, name).Ok?
    ensures var r := Decode(wasm, at + 1);
            && r.Value? && at + 1 + r.used + r.value <= |wasm|
            && (wasm[at] == 0 ==> SplitName(wasm[at + 1 + r.used..at + 1 + r.used + r.value]).Ok?)
            && ScanFrom(wasm, at + 1 + r.used + r.value, name).Ok?
  {
    hide Decode, SplitName;
  }

  /** How the loop fails in the section at `at`. */
  lemma ScanFails(wasm: Bytes, at: nat, name: Bytes)
    requires at < |wasm|
    ensures match Decode(wasm, at + 1)
            case Bad(e) => ScanFrom(wasm, at, name) == Err(e)
            case Value(size, used) =>
              var body := at + 1 + used;
              if body + size > |wasm| then ScanFrom(wasm, at, name) == Err(Truncated)
              else
                var named := SplitName(wasm[body..body + size]);
                wasm[at] == 0 && named.Err? ==> ScanFrom(wasm, at, name) == Err(named.error)
  {
    hide Decode, SplitName;
  }

  lemma {:induction false} ScanSound(wasm: Bytes, at: nat, name: Bytes) returns (sections: seq<Section>)
    requires at <= |wasm| && ScanFrom(wasm, at, name).Ok?
    ensures AllWellFormed(sections) && wasm[at..] == Flatten(sections)
    ensures ScanFrom(wasm, at, name).value == Contents(sections, name)
    decreases |wasm| - at
  {
    hide Decode, U32, SplitName;
    if at == |wasm| {
      sections := [];
    } else {
      ScanFound(wasm, at, name);
      hide ScanFrom, AllWellFormed, Flatten, Contents;
      var r := Decode(wasm, at + 1);
      DecodeSound(wasm, at + 1);
      var body := at + 1 + r.used;
      var size, payload := wasm[at + 1..body], wasm[body..body + r.value];
      ScanStep(wasm, at, name, payload, r.used);
      var first := SectionAt(wasm, at, wasm[at], size, payload);
      var rest := ScanSound(wasm, body + r.value, name);
      sections := [first] + rest;
      ConsSections(first, rest, name);
    }
  }

  /** `wasm` is the header followed by exactly these well-formed sections. */
  ghost predicate Module(wasm: Bytes, sections: seq<Section>) {
    AllWellFormed(sections) && wasm == HEADER + Flatten(sections)
  }

  lemma HeaderRead(wasm: Bytes)
    ensures HEADER <= wasm <==> MAGIC <= wasm && |wasm| >= 8 && LittleEndian(wasm[4..8]) == 1
  {
    if |wasm| >= 8 {
      var v := wasm[4..8];
      assert LittleEndian(v) == 1 <==> v == [1, 0, 0, 0];
      assert wasm[..8] == wasm[..4] + v;
    }
  }

  /**
   The scan succeeds exactly on modules, and returns exactly the contents of
   their custom sections with that name, in order.
   */
  lemma ScanIsTheGrammar(wasm: Bytes, name: Bytes)
    ensures Scan(wasm, name).Ok? <==> exists sections :: Module(wasm, sections)
    ensures forall sections :: Module(wasm, sections) ==> Scan(wasm, name) == Ok(Contents(sections, name))
  {
    hide ScanFrom, Flatten, Contents, LittleEndian;
    HeaderRead(wasm);
    if Scan(wasm, name).Ok? {
      var sections := ScanSound(wasm, 8, name);
      assert Module(wasm, sections);
    }
    forall sections | Module(wasm, sections)
      ensures Scan(wasm, name) == Ok(Contents(sections, name))
    {
      assert wasm[8..] == Flatten(sections);
      ScanComplete(wasm, 8, sections, name);
    }
  }

  // ------------------------------------------------------------- every failure

  /** No integer begins here: the input ends inside one, or none ends in five bytes. */
  predicate NoLength(bytes: Bytes, e: WasmError) {
    || (e == Truncated && |bytes| < 5 && Continues(bytes, 0, |bytes|))
    || (e == BadLeb128 && |bytes| >= 5 && Continues(bytes, 0, 4) && bytes[4] > 15)
  }

  /** A length that says more than is left. */
  ghost predicate Overruns(bytes: Bytes) {
    exists used: nat, n: nat :: used <= |bytes| && U32(bytes[..used], n) && used + n > |bytes|
  }

  /** No length and as many bytes begin here. */
  ghost predicate BrokenField(bytes: Bytes, e: WasmError) {
    NoLength(bytes, e) || (e == Truncated && Overruns(bytes))
  }

  /** A custom section whose name is broken, and whatever follows it. */
  ghost predicate BrokenName(tail: Bytes, size: Bytes, payload: Bytes, rest: Bytes, e: WasmError) {
    tail == [0] + size + payload + rest && U32(size, |payload|) && BrokenField(payload, e)
  }

  /** Something is left, and no section begins there. */
  ghost predicate BrokenSection(tail: Bytes, e: WasmError) {
    && tail != []
    && (BrokenField(tail[1..], e) || exists size, payload, rest :: BrokenName(tail, size, payload, rest, e))
  }

  /** The eight bytes in front are not those of a version 1 module. */
  predicate BrokenHeader(wasm: Bytes, e: WasmError) {
    match e
    case NotWasm => !(MAGIC <= wasm)
    case Truncated => MAGIC <= wasm && |wasm| < 8
    case UnsupportedVersion(version) => MAGIC <= wasm && |wasm| >= 8 && version == LittleEndian(wasm[4..8]) != 1
    case BadLeb128 => false
  }

  /** `wasm` is the header, then these well-formed sections, then a broken one. */
  ghost predicate BrokenAfter(wasm: Bytes, sections: seq<Section>, tail: Bytes, e: WasmError) {
    AllWellFormed(sections) && wasm == HEADER + Flatten(sections) + tail && BrokenSection(tail, e)
  }

  lemma DecodeUnfolds(bytes: Bytes, at: nat, i: nat)
    requires i < 5 && at < |bytes|
    ensures DecodeFrom(bytes, at, i) == Group(bytes[at], i, DecodeFrom(bytes, at + 1, i + 1))
  {
  }

  lemma DecodeEnds(bytes: Bytes, at: nat, i: nat)
    requires i == 5 || (i < 5 && at >= |bytes|)
    ensures DecodeFrom(bytes, at, i) == Bad(if i == 5 then BadLeb128 else Truncated)
  {
  }

  /** What is decoded depends only on what follows. */
  lemma {:induction false} DecodeFromShift(bytes: Bytes, tail: Bytes, before: nat, at: nat, i: nat)
    requires i <= 5 && before <= |bytes| && tail == bytes[before..]
    ensures DecodeFrom(bytes, before + at, i) == DecodeFrom(tail, at, i)
    decreases 5 - i
  {
    hide *;
    if i == 5 || at >= |tail| {
      DecodeEnds(bytes, before + at, i);
      DecodeEnds(tail, at, i);
    } else {
      assert bytes[before + at] == tail[at];
      assert before + at + 1 == before + (at + 1);
      DecodeUnfolds(bytes, before + at, i);
      DecodeUnfolds(tail, at, i);
      DecodeFromShift(bytes, tail, before, at + 1, i + 1);
    }
  }

  lemma FieldFails(bytes: Bytes, e: WasmError)
    ensures BrokenField(bytes, e) <==> SplitName(bytes) == Err(e)
  {
    hide U32, DecodeFrom;
    DecodeErrors(bytes, 0);
    DecodeSound(bytes, 0);
    hide Decode;
    forall used: nat, n: nat | used <= |bytes| && U32(bytes[..used], n)
      ensures Decode(bytes, 0) == Value(n, used)
    {
      assert bytes[..used] == bytes[0..0 + used];
      DecodeIsTheGrammar(bytes, 0, used, n);
    }
    var r := Decode(bytes, 0);
    if r.Value? {
      assert bytes[0..0 + r.used] == bytes[..r.used];
    }
  }

  /** The size and payload of a section make a field like a name does. */
  lemma SectionFails(wasm: Bytes, at: nat, name: Bytes, e: WasmError)
    requires at < |wasm| && BrokenField(wasm[at + 1..], e)
    ensures ScanFrom(wasm, at, name) == Err(e)
  {
    FieldFails(wasm[at + 1..], e);
    DecodeFromShift(wasm, wasm[at + 1..], at + 1, 0, 0);
    hide DecodeFrom, BrokenField;
  }

  lemma NameFails(wasm: Bytes, at: nat, name: Bytes, size: Bytes, payload: Bytes, rest: Bytes, e: WasmError)
    requires at < |wasm| && BrokenName(wasm[at..], size, payload, rest, e)
    ensures ScanFrom(wasm, at, name) == Err(e)
  {
    FieldFails(payload, e);
    hide Decode, SplitName, BrokenField, U32;
    var s := Plain(0, size, payload);
    ScanOne(wasm, at, s, rest);
  }

  lemma BrokenFails(wasm: Bytes, at: nat, name: Bytes, e: WasmError)
    requires at <= |wasm| && BrokenSection(wasm[at..], e)
    ensures ScanFrom(wasm, at, name) == Err(e)
  {
    hide BrokenField, BrokenName, ScanFrom;
    var tail := wasm[at..];
    assert tail[1..] == wasm[at + 1..];
    if BrokenField(tail[1..], e) {
      SectionFails(wasm, at, name, e);
    } else {
      var size, payload, rest :| BrokenName(tail, size, payload, rest, e);
      NameFails(wasm, at, name, size, payload, rest, e);
    }
  }

  /** A section whose size and payload can be read, custom only if its name can be. */
  ghost predicate Readable(wasm: Bytes, at: nat, size: Bytes, payload: Bytes) {
    && at + 1 + |size| + |payload| <= |wasm|
    && size == wasm[at + 1..at + 1 + |size|]
    && payload == wasm[at + 1 + |size|..at + 1 + |size| + |payload|]
    && U32(size, |payload|) && (wasm[at] == 0 ==> SplitName(payload).Ok?)
  }

  /** Of a section that is read, only the name can be broken. */
  lemma OnlyTheName(wasm: Bytes, at: nat, size: Bytes, payload: Bytes, e: WasmError)
    requires at + 1 + |size| + |payload| <= |wasm|
    requires size == wasm[at + 1..at + 1 + |size|] && U32(size, |payload|)
    requires payload == wasm[at + 1 + |size|..at + 1 + |size| + |payload|]
    requires wasm[at] == 0 && SplitName(payload) == Err(e)
    ensures BrokenSection(wasm[at..], e)
  {
    FieldFails(payload, e);
    hide BrokenField, SplitName, U32;
    var rest := wasm[at + 1 + |size| + |payload|..];
    assert wasm[at..] == [wasm[at]] + size + payload + rest;
    assert BrokenName(wasm[at..], size, payload, rest, e);
  }

  lemma FieldBreaks(wasm: Bytes, at: nat, e: WasmError)
    requires at < |wasm| && SplitName(wasm[at + 1..]) == Err(e)
    ensures BrokenSection(wasm[at..], e)
  {
    FieldFails(wasm[at + 1..], e);
    hide BrokenField, SplitName;
    assert wasm[at..][1..] == wasm[at + 1..];
  }

  lemma FieldAt(wasm: Bytes, at: nat)
    requires at < |wasm|
    ensures match Decode(wasm, at + 1)
            case Bad(e) => SplitName(wasm[at + 1..]) == Err(e)
            case Value(size, used) => at + 1 + used + size > |wasm| ==> SplitName(wasm[at + 1..]) == Err(Truncated)
  {
    DecodeFromShift(wasm, wasm[at + 1..], at + 1, 0, 0);
    hide DecodeFrom;
  }

  /** The scan fails at a section because it is broken, or after it. */
  lemma FailsHereOrLater(wasm: Bytes, at: nat, name: Bytes, e: WasmError) returns (size: Bytes, payload: Bytes)
    requires at < |wasm| && ScanFrom(wasm, at, name) == Err(e)
    ensures BrokenSection(wasm[at..], e)
            || (Readable(wasm, at, size, payload)
                && ScanFrom(wasm, at + 1 + |size| + |payload|, name) == Err(e))
  {
    hide Decode, U32, SplitName, BrokenSection;
    size, payload := [], [];
    var r := Decode(wasm, at + 1);
    FieldAt(wasm, at);
    if r.Bad? || at + 1 + r.used + r.value > |wasm| {
      FieldBreaks(wasm, at, e);
    } else {
      DecodeSound(wasm, at + 1);
      var body := at + 1 + r.used;
      size, payload := wasm[at + 1..body], wasm[body..body + r.value];
      if wasm[at] == 0 && SplitName(payload).Err? {
        OnlyTheName(wasm, at, size, payload, e);
      }
    }
  }

  lemma ReadableSection(wasm: Bytes, at: nat, size: Bytes, payload: Bytes) returns (s: Section)
    requires at < |wasm| && Readable(wasm, at, size, payload)
    ensures at + 1 + |size| + |payload| <= |wasm|
    ensures s.WellFormed() && wasm[at..] == s.Bytes() + wasm[at + 1 + |size| + |payload|..]
  {
    hide U32, SplitName;
    s := SectionAt(wasm, at, wasm[at], size, payload);
  }

  lemma {:induction false} FailsAfter(wasm: Bytes, at: nat, name: Bytes, e: WasmError)
    returns (sections: seq<Section>, tail: Bytes)
    requires at <= |wasm| && ScanFrom(wasm, at, name) == Err(e)
    ensures AllWellFormed(sections) && wasm[at..] == Flatten(sections) + tail && BrokenSection(tail, e)
    decreases |wasm| - at
  {
    hide *;
    NotAtTheEnd(wasm, at, name);
    var size, payload := FailsHereOrLater(wasm, at, name, e);
    if BrokenSection(wasm[at..], e) {
      NoSections();
      sections, tail := [], wasm[at..];
      assert [] + tail == tail;
    } else {
      var first := ReadableSection(wasm, at, size, payload);
      var rest, end := FailsAfter(wasm, at + 1 + |size| + |payload|, name, e);
      sections, tail := [first] + rest, end;
      ConsSections(first, rest, name);
      assert first.Bytes() + Flatten(rest) + tail == first.Bytes() + (Flatten(rest) + tail);
    }
  }

  lemma NotAtTheEnd(wasm: Bytes, at: nat, name: Bytes)
    requires at <= |wasm| && ScanFrom(wasm, at, name).Err?
    ensures at < |wasm|
  {
  }

  lemma HeaderFails(wasm: Bytes, name: Bytes, e: WasmError)
    ensures BrokenHeader(wasm, e) ==> !(HEADER <= wasm) && Scan(wasm, name) == Err(e)
    ensures !(HEADER <= wasm) && Scan(wasm, name) == Err(e) ==> BrokenHeader(wasm, e)
    ensures HEADER <= wasm ==> Scan(wasm, name) == ScanFrom(wasm, 8, name)
  {
    HeaderRead(wasm);
    hide ScanFrom, LittleEndian;
  }

  /**
   The scan fails with an error exactly when the header is broken in that way,
   or well-formed sections are followed by one broken in that way.
   */
  lemma ScanErrors(wasm: Bytes, name: Bytes, e: WasmError)
    ensures Scan(wasm, name) == Err(e)
            <==> BrokenHeader(wasm, e) || exists sections, tail :: BrokenAfter(wasm, sections, tail, e)
  {
    hide Scan, ScanFrom, Flatten, AllWellFormed, BrokenSection, BrokenHeader, Contents;
    HeaderFails(wasm, name, e);
    if HEADER <= wasm && Scan(wasm, name) == Err(e) {
      var sections, tail := FailsAfter(wasm, 8, name, e);
      assert wasm == HEADER + wasm[8..];
      assert HEADER + (Flatten(sections) + tail) == HEADER + Flatten(sections) + tail;
      assert BrokenAfter(wasm, sections, tail, e);
    }
    forall sections, tail | BrokenAfter(wasm, sections, tail, e)
      ensures Scan(wasm, name) == Err(e)
    {
      assert wasm[8..] == Flatten(sections) + tail;
      var next := ScanPasses(wasm, 8, sections, tail, name);
      BrokenFails(wasm, next, name, e);
      PrefixedFails(Contents(sections, name), ScanFrom(wasm, next, name));
    }
  }

  /** A section as it is written, before its lengths are encoded. */
  datatype Source = Other(id: Byte, payload: Bytes) | Named(name: Bytes, content: Bytes)

  function Written(s: Source): Section {
    match s
    case Other(id, payload) => Plain(id, LebOf(|payload|), payload)
    case Named(name, content) =>
      var nameLen := LebOf(|name|);
      Custom(LebOf(|nameLen + name + content|), nameLen, name, content)
  }

  function WrittenAll(sources: seq<Source>): (r: seq<Section>)
    ensures |r| == |sources|
    ensures forall i :: 0 <= i < |r| ==> r[i] == Written(sources[i])
  {
    seq(|sources|, (i: nat) requires i < |sources| => Written(sources[i]))
  }

  function Print(sources: seq<Source>): Bytes {
    HEADER + Flatten(WrittenAll(sources))
  }

  /** The contents written under `name`, in order. */
  function ContentsOf(sources: seq<Source>, name: Bytes): seq<Bytes> {
    if sources == [] then []
    else
      (if sources[0].Named? && sources[0].name == name then [sources[0].content] else [])
      + ContentsOf(sources[1..], name)
  }

  predicate Printable(s: Source) {
    match s
    case Other(id, payload) => id != 0 && |payload| < 0x1_0000_0000
    case Named(name, content) => |LebOf(|name|) + name + content| < 0x1_0000_0000
  }

  lemma {:induction false} WrittenContents(sources: seq<Source>, name: Bytes)
    ensures Contents(WrittenAll(sources), name) == ContentsOf(sources, name)
  {
    if sources != [] {
      WrittenContents(sources[1..], name);
      assert WrittenAll(sources)[1..] == WrittenAll(sources[1..]);
    }
  }

  lemma WrittenWellFormed(s: Source)
    requires Printable(s)
    ensures Written(s).WellFormed()
  {
    hide U32, LebOf;
    match s
    case Other(id, payload) => LebOfIsU32(|payload|);
    case Named(name, content) =>
      LebOfIsU32(|name|);
      LebOfIsU32(|LebOf(|name|) + name + content|);
  }

  /** Reading back a printed module gives what was written, whatever else it holds. */
  lemma PrintedIsReadBack(sources: seq<Source>, name: Bytes)
    requires forall s :: s in sources ==> Printable(s)
    ensures Scan(Print(sources), name) == Ok(ContentsOf(sources, name))
  {
    var sections := WrittenAll(sources);
    forall s | s in sections
      ensures s.WellFormed()
    {
      var i :| 0 <= i < |sections| && sections[i] == s;
      WrittenWellFormed(sources[i]);
    }
    assert Module(Print(sources), sections);
    ScanIsTheGrammar(Print(sources), name);
    WrittenContents(sources, name);
  }

  // ---------------------------------------------------------------- the code

  /** Bitwise OR of two unsigned integers. */
  function BitOr(a: nat, b: nat): nat {
    if a == 0 then b
    else if b == 0 then a
    else (if a % 2 == 1 || b % 2 == 1 then 1 else 0) + 2 * BitOr(a / 2, b / 2)
  }

  /** A 32-bit left shift: what passes the top is lost. */
  function Shl32(x: nat, k: nat): nat {
    (x * Pow2(k)) % 0x1_0000_0000
  }

  lemma {:induction false} OrAdds(a: nat, b: nat, k: nat)
    requires a < Pow2(k)
    ensures BitOr(a, b * Pow2(k)) == a + b * Pow2(k)
  {
    if k > 0 && a > 0 && b > 0 {
      var high := b * Pow2(k - 1);
      assert b * Pow2(k) == 2 * high;
      OrAdds(a / 2, b, k - 1);
    }
  }

  /** A group of seven bits loses none in its place, the fifth having only four. */
  lemma ShiftKeeps(low: nat, i: nat)
    requires i <= 4 && low < 128 && (i == 4 ==> low < 16)
    ensures Shl32(low, 7 * i) == low * Pow2(7 * i)
    ensures Pow2(7 * i) + low * Pow2(7 * i) <= Pow2(7 * (i + 1))
  {
    Pow2Sevens();
    hide Pow2;
  }

  lemma Pow2Sevens()
    ensures Pow2(0) == 1 && Pow2(7) == 0x80 && Pow2(14) == 0x4000 && Pow2(21) == 0x20_0000 && Pow2(28) == 0x1000_0000
    ensures Pow2(35) == 0x8_0000_0000
  {
    Pow2Splits(0);
    Pow2Splits(7);
    Pow2Splits(14);
    Pow2Splits(21);
    Pow2Splits(28);
  }

  /** Bitwise AND of two unsigned integers. */
  function BitAnd(a: nat, b: nat): nat {
    if a == 0 || b == 0 then 0
    else (if a % 2 == 1 && b % 2 == 1 then 1 else 0) + 2 * BitAnd(a / 2, b / 2)
  }

  lemma BitAndHalves(a: nat, mask: nat)
    ensures BitAnd(a, mask) == (if mask % 2 == 1 then a % 2 else 0) + 2 * BitAnd(a / 2, mask / 2)
  {
  }

  /** The seven low bits of a byte, and its continuation bit. */
  lemma ByteBits(b: Byte)
    ensures BitAnd(b, 0x7f) == b % 128
    ensures BitAnd(b, 0x80) == 0 <==> b < 128
  {
    MaskIsLow(b, 7);
    assert Ones(7) == 0x7f && Pow2(7) == 128;
    LowIsRemainder(b, 7);
    TopBit(b);
  }

  /** A mask of `k` ones. */
  function Ones(k: nat): nat {
    if k == 0 then 0 else 2 * Ones(k - 1) + 1
  }

  /** The number the `k` low bits of `a` make. */
  function Low(a: nat, k: nat): nat {
    if k == 0 then 0 else a % 2 + 2 * Low(a / 2, k - 1)
  }

  lemma MulAtLeast(x: int, m: nat)
    requires x >= 1
    ensures x * m >= m
  {
  }

  lemma MulDifference(q: int, d: int, m: int)
    ensures (q - d) * m == q * m - d * m
  {
  }

  lemma RemainderIsUnique(a: nat, m: nat, q: nat, r: nat)
    requires r < m && a == q * m + r
    ensures a % m == r
  {
    var d, t := a / m, a % m;
    assert a == d * m + t;
    MulDifference(q, d, m);
    MulDifference(d, q, m);
    if q > d {
      MulAtLeast(q - d, m);
    } else if q < d {
      MulAtLeast(d - q, m);
    }
  }

  lemma HalvesRemainder(a: nat, p: nat)
    requires p > 0
    ensures a % (2 * p) == a % 2 + 2 * (a / 2 % p)
  {
    var q, r := a / 2 / p, a / 2 % p;
    assert a / 2 == q * p + r;
    assert q * (2 * p) == 2 * (q * p);
    RemainderIsUnique(a, 2 * p, q, a % 2 + 2 * r);
  }

  lemma {:induction false} LowIsRemainder(a: nat, k: nat)
    ensures Low(a, k) == a % Pow2(k) && Low(a, k) < Pow2(k)
    decreases k
  {
    if k > 0 {
      LowIsRemainder(a / 2, k - 1);
      HalvesRemainder(a, Pow2(k - 1));
    }
  }

  lemma TopBit(b: Byte)
    ensures BitAnd(b, 0x80) == 0 <==> b < 128
  {
    var x1 := b / 2;
    var x2 := x1 / 2;
    var x3 := x2 / 2;
    var x4 := x3 / 2;
    var x5 := x4 / 2;
    var x6 := x5 / 2;
    assert BitAnd(x6 / 2, 1) == 0 <==> b < 128;
    hide BitAnd;
    BitAndHalves(b, 0x80);
    BitAndHalves(x1, 0x40);
    BitAndHalves(x2, 0x20);
    BitAndHalves(x3, 0x10);
    BitAndHalves(x4, 0x08);
    BitAndHalves(x5, 0x04);
    BitAndHalves(x6, 0x02);
  }

  lemma {:induction false} MaskIsLow(a: nat, k: nat)
    ensures BitAnd(a, Ones(k)) == Low(a, k)
    decreases k
  {
    if k > 0 {
      BitAndHalves(a, Ones(k));
      hide BitAnd;
      MaskIsLow(a / 2, k - 1);
    } else {
      assert BitAnd(a, 0) == 0;
    }
  }

  /** Decoding from group `i` on, with `result` already read. */
  function Resumed(rest: Leb, result: nat, i: nat): Leb {
    match rest
    case Value(v, used) => Value(result + v * Pow2(7 * i), used + i)
    case Bad(e) => Bad(e)
  }

  lemma Distributes(b: nat, v: nat, p: nat)
    ensures (b + 128 * v) * p == b * p + v * (128 * p)
  {
  }

  lemma ResumeStep(bytes: Bytes, at: nat, i: nat, result: nat)
    requires i <= 4 && at < |bytes| && !(i == 4 && bytes[at] % 128 > 15)
    ensures var b := bytes[at];
            Resumed(DecodeFrom(bytes, at, i), result, i)
            == if b < 128 then Value(result + b % 128 * Pow2(7 * i), i + 1)
               else Resumed(DecodeFrom(bytes, at + 1, i + 1), result + b % 128 * Pow2(7 * i), i + 1)
  {
    hide Pow2;
    var b := bytes[at];
    if b >= 128 {
      Pow2Splits(7 * i);
      assert 7 * i + 7 == 7 * (i + 1);
      var rest := DecodeFrom(bytes, at + 1, i + 1);
      if rest.Value? {
        Distributes(b - 128, rest.value, Pow2(7 * i));
      }
    }
  }

  /** One turn of the decoding loop, on byte `b`. */
  lemma GroupStep(bytes: Bytes, at: nat, i: nat, result: nat, b: Byte)
    requires i <= 4 && at < |bytes| && bytes[at] == b && result < Pow2(7 * i)
    ensures var low := BitAnd(b, 0x7f);
            && (i == 4 && low > 0x0f ==> Resumed(DecodeFrom(bytes, at, i), result, i) == Bad(BadLeb128))
            && (!(i == 4 && low > 0x0f) ==>
                  var next := BitOr(result, Shl32(low, 7 * i));
                  && next < Pow2(7 * (i + 1))
                  && Resumed(DecodeFrom(bytes, at, i), result, i)
                     == if BitAnd(b, 0x80) == 0 then Value(next, i + 1)
                        else Resumed(DecodeFrom(bytes, at + 1, i + 1), next, i + 1))
  {
    ByteBits(b);
    hide Pow2, BitOr, Shl32;
    var low := BitAnd(b, 0x7f);
    if !(i == 4 && low > 0x0f) {
      hide DecodeFrom;
      ResumeStep(bytes, at, i, result);
      ShiftKeeps(low, i);
      OrAdds(result, low, 7 * i);
    }
  }

  class Reader {
    const bytes: Bytes
    var pos: nat

    ghost predicate Valid()
      reads this
    {
      pos <= |bytes|
    }

    constructor (bytes: Bytes)
      ensures this.bytes == bytes && pos == 0 && Valid()
    {
      this.bytes := bytes;
      pos := 0;
    }

    method Take(n: nat) returns (r: Result<Bytes, WasmError>)
      requires Valid()
      modifies this
      ensures Valid()
      ensures old(pos) + n <= |bytes| ==> r == Ok(bytes[old(pos)..old(pos) + n]) && pos == old(pos) + n
      ensures old(pos) + n > |bytes| ==> r == Err(Truncated) && pos == old(pos)
    {
      var end := pos + n;
      if end > |bytes| {
        return Err(Truncated);
      }
      r := Ok(bytes[pos..end]);
      pos := end;
    }

    method Byte() returns (r: Result<Byte, WasmError>)
      requires Valid()
      modifies this
      ensures Valid()
      ensures old(pos) < |bytes| ==> r == Ok(bytes[old(pos)]) && pos == old(pos) + 1
      ensures old(pos) == |bytes| ==> r == Err(Truncated) && pos == old(pos)
    {
      var one := Take(1);
      match one
      case Err(e) => r := Err(e);
      case Ok(slice) => r := Ok(slice[0]);
    }

    /** Reads exactly the integer `Decode` describes, and nothing after it. */
    method LebU32() returns (r: Result<nat, WasmError>)
      requires Valid()
      modifies this
      ensures Valid()
      ensures match Decode(bytes, old(pos))
              case Value(v, used) => r == Ok(v) && pos == old(pos) + used
              case Bad(e) => r == Err(e)
    {
      var result: nat := 0;
      ghost var start := pos;
      assert Resumed(Decode(bytes, start), 0, 0) == Decode(bytes, start) by { assert Pow2(0) == 1; }
      for i := 0 to 5
        invariant Valid() && pos == start + i
        invariant result < Pow2(7 * i)
        invariant Resumed(DecodeFrom(bytes, start + i, i), result, i) == Decode(bytes, start)
      {
        hide Decode, Pow2, BitOr, Shl32;
        var next := Byte();
        if next.Err? {
          return Err(next.error);
        }
        var b := next.value;
        var low := BitAnd(b, 0x7f);
        GroupStep(bytes, start + i, i, result, b);
        if i == 4 && low > 0x0f {
          return Err(BadLeb128);
        }
        result := BitOr(result, Shl32(low, 7 * i));
        if BitAnd(b, 0x80) == 0 {
          return Ok(result);
        }
      }
      r := Err(BadLeb128);
    }

    method Done() returns (r: bool)
      requires Valid()
      ensures r <==> pos == |bytes|
    {
      r := pos >= |bytes|;
    }
  }

  /** The name and the content of a custom section's payload. */
  method ReadName(payload: Bytes) returns (r: Result<(Bytes, Bytes), WasmError>)
    ensures r == SplitName(payload)
  {
    hide Decode;
    var s := new Reader(payload);
    var nameLen := s.LebU32();
    if nameLen.Err? {
      return Err(nameLen.error);
    }
    var sectionName := s.Take(nameLen.value);
    if sectionName.Err? {
      return Err(sectionName.error);
    }
    r := Ok((sectionName.value, payload[s.pos..]));
  }

  /** The next section's id and payload. */
  method ReadSection(reader: Reader) returns (r: Result<(Byte, Bytes), WasmError>)
    requires reader.Valid()
    modifies reader
    ensures reader.Valid()
    ensures var at := old(reader.pos);
            if at == |reader.bytes| then r == Err(Truncated) else
            match Decode(reader.bytes, at + 1)
            case Bad(e) => r == Err(e)
            case Value(size, used) =>
              var body := at + 1 + used;
              if body + size > |reader.bytes| then r == Err(Truncated)
              else && r == Ok((reader.bytes[at], reader.bytes[body..body + size]))
                   && reader.pos == body + size
  {
    hide Decode;
    var id := reader.Byte();
    if id.Err? {
      return Err(id.error);
    }
    var size := reader.LebU32();
    if size.Err? {
      return Err(size.error);
    }
    var payload := reader.Take(size.value);
    if payload.Err? {
      return Err(payload.error);
    }
    r := Ok((id.value, payload.value));
  }

  /** The section loop, from where the reader is. */
  method ScanSections(reader: Reader, name: Bytes) returns (r: Result<seq<Bytes>, WasmError>)
    requires reader.Valid()
    modifies reader
    ensures r == ScanFrom(reader.bytes, old(reader.pos), name)
  {
    hide Decode, SplitName, ScanFrom, Match, Prefixed;
    var wasm := reader.bytes;
    ghost var start := reader.pos;
    var found: seq<Bytes> := [];
    PrefixedTwice([], [], ScanFrom(wasm, start, name));
    var done := reader.Done();
    while !done
      invariant reader.Valid()
      invariant done <==> reader.pos == |wasm|
      invariant Prefixed(found, ScanFrom(wasm, reader.pos, name)) == ScanFrom(wasm, start, name)
      decreases |wasm| - reader.pos
    {
      ghost var at := reader.pos;
      ScanFails(wasm, at, name);
      var section := ReadSection(reader);
      PrefixedFails(found, ScanFrom(wasm, at, name));
      if section.Err? {
        return Err(section.error);
      }
      var (id, payload) := section.value;
      var hit := [];
      if id == 0 {
        var named := ReadName(payload);
        if named.Err? {
          return Err(named.error);
        }
        if named.value.0 == name {
          hit := [named.value.1];
        }
      }
      assert hit == Match(id, payload, name) by { MatchIs(id, payload, name); }
      ScanStep(wasm, at, name, payload, reader.pos - at - 1 - |payload|);
      PrefixedTwice(found, hit, ScanFrom(wasm, reader.pos, name));
      found := found + hit;
      done := reader.Done();
    }
    ScanEnds(wasm, name, found);
    r := Ok(found);
  }

  lemma PrefixedFails(found: seq<Bytes>, rest: Result<seq<Bytes>, WasmError>)
    ensures rest.Err? ==> Prefixed(found, rest) == rest
  {
  }

  lemma ScanEnds(wasm: Bytes, name: Bytes, found: seq<Bytes>)
    ensures Prefixed(found, ScanFrom(wasm, |wasm|, name)) == Ok(found)
  {
    assert found + [] == found;
  }

  method CustomSections(wasm: Bytes, name: Bytes) returns (r: Result<seq<Bytes>, WasmError>)
    ensures r == Scan(wasm, name)
  {
    var reader := new Reader(wasm);
    var magic := reader.Take(4);
    if magic.Err? || magic.value != MAGIC {
      return Err(NotWasm);
    }
    var v := reader.Take(4);
    if v.Err? {
      return Err(v.error);
    }
    var version := LittleEndian(v.value);
    if version != 1 {
      return Err(UnsupportedVersion(version));
    }
    r := ScanSections(reader, name);
  }
}
