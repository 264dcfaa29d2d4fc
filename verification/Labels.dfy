/**
 The bounded text of a value (`value_label`,
 crates/soroban-failure-analysis/src/model/events.rs:216-306).
 */
module Labels {
  import opened Common
  import opened Soroban

  const LABEL_MAX_DEPTH := 3
  const LABEL_MAX_ITEMS := 8
  const LABEL_MAX_TEXT := 64

  const ELLIPSIS := "\U{2026}"

  function Digits(n: nat): string {
    if n < 10 then [('0' as int + n) as char] else Digits(n / 10) + [('0' as int + n % 10) as char]
  }

  function Decimal(n: int): string {
    if n < 0 then "-" + Digits(-n) else Digits(n)
  }

  function ErrorName(e: ScError): string {
    match e
    case Contract(_) => "Contract"
    case WasmVm(_) => "WasmVm"
    case Context(_) => "Context"
    case Storage(_) => "Storage"
    case Object(_) => "Object"
    case Crypto(_) => "Crypto"
    case Events(_) => "Events"
    case Budget(_) => "Budget"
    case Value(_) => "Value"
    case Auth(_) => "Auth"
  }

  function ErrorLabel(e: ScError): string {
    if e.Contract? then "Error(Contract, #" + Decimal(e.code) + ")"
    else "Error(" + ErrorName(e) + ", " + e.host.Name() + ")"
  }

  function Clipped(s: string): string {
    if |s| <= LABEL_MAX_TEXT then s else s[..LABEL_MAX_TEXT] + ELLIPSIS
  }

  function BytesLabel(b: XdrBytes): string {
    "0x" + Hex(b[..Min(8, |b|)]) + (if |b| > 8 then ELLIPSIS else "") + " (" + Decimal(|b|) + " bytes)"
  }

  function ShownCount<T>(s: seq<T>): nat {
    Min(LABEL_MAX_ITEMS, |s|)
  }

  function More<T>(s: seq<T>): string {
    if |s| > LABEL_MAX_ITEMS then ", " + ELLIPSIS else ""
  }

  /** How much deeper a label goes. */
  function Room(depth: nat): nat {
    if depth < LABEL_MAX_DEPTH then LABEL_MAX_DEPTH - depth else 0
  }

  function Label(v: ScVal, depth: nat): string
    decreases Room(depth), 0
  {
    match v
    case BoolVal(b) => if b then "true" else "false"
    case VoidVal => "void"
    case U32Val(n) => Decimal(n)
    case I32Val(n) => Decimal(n)
    case U64Val(n) => Decimal(n)
    case I64Val(n) => Decimal(n)
    case SymbolVal(s) => Clipped(s)
    case StringVal(s) => "\"" + Clipped(s) + "\""
    case BytesVal(b) => BytesLabel(b)
    case AddressVal(a) => a.text
    case ErrorVal(e) => ErrorLabel(e)
    case VecVal(Some(items)) =>
      if depth < LABEL_MAX_DEPTH then VecLabel(items, depth)
      else "vec[" + ELLIPSIS + "]"
    case MapVal(Some(entries)) =>
      if depth < LABEL_MAX_DEPTH then MapLabel(entries, depth)
      else "map{" + ELLIPSIS + "}"
    case VecVal(None) => "<Vec>"
    case MapVal(None) => "<Map>"
    case OtherVal(tag) => "<" + tag.Name() + ">"
  }

  function VecLabel(items: seq<ScVal>, depth: nat): string
    requires depth < LABEL_MAX_DEPTH
    decreases Room(depth + 1), 3
  {
    "vec[" + ItemsLabel(items, ShownCount(items), depth + 1) + More(items) + "]"
  }

  function MapLabel(entries: seq<MapEntry>, depth: nat): string
    requires depth < LABEL_MAX_DEPTH
    decreases Room(depth + 1), 3
  {
    "map{" + EntriesLabel(entries, ShownCount(entries), depth + 1) + More(entries) + "}"
  }

  function Separator(i: nat): string {
    if i > 0 then ", " else ""
  }

  /** The first `n` items. */
  function ItemsLabel(items: seq<ScVal>, n: nat, depth: nat): string
    requires n <= |items|
    decreases Room(depth), 2, n
  {
    if n == 0 then ""
    else ItemsLabel(items, n - 1, depth) + Separator(n - 1) + Label(items[n - 1], depth)
  }

  /** The first `n` entries. */
  function EntriesLabel(entries: seq<MapEntry>, n: nat, depth: nat): string
    requires n <= |entries|
    decreases Room(depth), 2, n
  {
    if n == 0 then ""
    else EntriesLabel(entries, n - 1, depth) + Separator(n - 1) + EntryLabel(entries[n - 1], depth)
  }

  function EntryLabel(e: MapEntry, depth: nat): string
    decreases Room(depth), 1
  {
    Label(e.key, depth) + ": " + Label(e.val, depth)
  }

  // ------------------------------------------------------------------ the bound

  function Power10(k: nat): (r: nat)
    ensures r >= 1
  {
    if k == 0 then 1 else 10 * Power10(k - 1)
  }

  lemma {:induction false} DigitsBound(n: nat, k: nat)
    requires k >= 1 && n < Power10(k)
    ensures |Digits(n)| <= k
    decreases k
  {
    if n >= 10 {
      assert k > 1 by { assert Power10(1) == 10 * Power10(0) == 10; }
      DigitsBound(n / 10, k - 1);
    }
  }

  /** The number that decimal digits stand for. */
  function Denotes(digits: string): int {
    if digits == "" then 0
    else 10 * Denotes(digits[..|digits| - 1]) + (digits[|digits| - 1] as int - '0' as int)
  }

  lemma {:induction false} DigitsDenote(n: nat)
    ensures Digits(n) != "" && '0' <= Digits(n)[0] <= '9' && Denotes(Digits(n)) == n
  {
    if n < 10 {
      assert Digits(n)[..0] == "";
    } else {
      DigitsDenote(n / 10);
      assert Digits(n)[..|Digits(n)| - 1] == Digits(n / 10);
    }
  }

  /** A number is read back from its text: a minus sign exactly for negative ones, and the digits. */
  lemma DecimalDenotes(n: int)
    ensures var s := Decimal(n);
            s != "" && n == if s[0] == '-' then -Denotes(s[1..]) else Denotes(s)
  {
    DigitsDenote(if n < 0 then -n else n);
    hide Digits, Denotes;
    assert n < 0 ==> Decimal(n)[1..] == Digits(-n);
  }

  lemma TenDigits()
    ensures Power10(10) == 10_000_000_000
    ensures Power10(20) == 100_000_000_000_000_000_000
  {
    assert Power10(4) == 100 * Power10(2) == 10_000 * Power10(0);
    assert Power10(8) == 100 * Power10(6) == 10_000 * Power10(4);
    assert Power10(10) == 100 * Power10(8);
    assert Power10(14) == 100 * Power10(12) == 10_000 * Power10(10);
    assert Power10(18) == 100 * Power10(16) == 10_000 * Power10(14);
    assert Power10(20) == 100 * Power10(18);
  }

  lemma NumberBounds(n: int)
    requires -0x8000_0000_0000_0000 <= n < 0x1_0000_0000_0000_0000
    ensures |Decimal(n)| <= 21
    ensures 0 <= n < 0x1_0000_0000 ==> |Decimal(n)| <= 10
  {
    TenDigits();
    hide Power10, Digits;
    DigitsBound(if n < 0 then -n else n, 20);
    if 0 <= n < 0x1_0000_0000 {
      DigitsBound(n, 10);
    }
  }

  /** The longest text of a value that holds no other: an address. */
  const LONGEST_LEAF: nat := MAX_STRKEY

  /** The longest text of `n` map entries whose parts are at most `inner` long. */
  function EntriesMax(n: nat, inner: nat): nat {
    n * (2 * inner + |": "|) + if n > 0 then (n - 1) * |", "| else 0
  }

  lemma EntriesMaxGrows(n: nat, inner: nat)
    requires n > 0
    ensures EntriesMax(n, inner) == EntriesMax(n - 1, inner) + |Separator(n - 1)| + 2 * inner + 2
  {
    assert n * (2 * inner + 2) == (n - 1) * (2 * inner + 2) + (2 * inner + 2);
  }

  /** The longest label of a value at a depth. */
  function MaxLabel(depth: nat): (r: nat)
    ensures r >= LONGEST_LEAF
    decreases LABEL_MAX_DEPTH - depth
  {
    if depth >= LABEL_MAX_DEPTH then LONGEST_LEAF
    else |"map{"| + EntriesMax(LABEL_MAX_ITEMS, MaxLabel(depth + 1)) + |", " + ELLIPSIS| + |"}"|
  }

  lemma LeafBound(v: ScVal, depth: nat)
    requires !(v.VecVal? && v.items.Some? && depth < LABEL_MAX_DEPTH)
    requires !(v.MapVal? && v.entries.Some? && depth < LABEL_MAX_DEPTH)
    ensures |Label(v, depth)| <= LONGEST_LEAF
  {
    hide Decimal, Digits;
    match v
    case U32Val(n) => NumberBounds(n);
    case I32Val(n) => NumberBounds(n);
    case U64Val(n) => NumberBounds(n);
    case I64Val(n) => NumberBounds(n);
    case BytesVal(b) => NumberBounds(|b|);
    case ErrorVal(e) =>
      if e.Contract? {
        NumberBounds(e.code);
      }
    case _ =>
  }

  lemma {:induction false} LabelBound(v: ScVal, depth: nat)
    ensures |Label(v, depth)| <= MaxLabel(depth)
    decreases Room(depth), 0
  {
    hide MaxLabel, VecLabel, MapLabel, ErrorLabel, BytesLabel, Decimal, Clipped;
    if depth < LABEL_MAX_DEPTH && v.VecVal? && v.items.Some? {
      VecBound(v.items.value, depth);
    } else if depth < LABEL_MAX_DEPTH && v.MapVal? && v.entries.Some? {
      MapBound(v.entries.value, depth);
    } else {
      LeafBound(v, depth);
    }
  }

  lemma {:induction false} VecBound(items: seq<ScVal>, depth: nat)
    requires depth < LABEL_MAX_DEPTH
    ensures |VecLabel(items, depth)| <= MaxLabel(depth)
    decreases Room(depth + 1), 3
  {
    ItemsBound(items, ShownCount(items), depth + 1);
    EntriesMaxMonotone(ShownCount(items), MaxLabel(depth + 1));
    hide ItemsLabel, EntriesMax;
  }

  lemma {:induction false} MapBound(entries: seq<MapEntry>, depth: nat)
    requires depth < LABEL_MAX_DEPTH
    ensures |MapLabel(entries, depth)| <= MaxLabel(depth)
    decreases Room(depth + 1), 3
  {
    EntriesBound(entries, ShownCount(entries), depth + 1);
    EntriesMaxMonotone(ShownCount(entries), MaxLabel(depth + 1));
    hide EntriesLabel, EntriesMax;
  }

  lemma EntriesMaxMonotone(n: nat, inner: nat)
    requires n <= LABEL_MAX_ITEMS
    ensures EntriesMax(n, inner) <= EntriesMax(LABEL_MAX_ITEMS, inner)
  {
    assert n * (2 * inner + 2) <= LABEL_MAX_ITEMS * (2 * inner + 2);
  }

  lemma {:induction false} ItemsBound(items: seq<ScVal>, n: nat, depth: nat)
    requires n <= |items|
    ensures |ItemsLabel(items, n, depth)| <= EntriesMax(n, MaxLabel(depth))
    decreases Room(depth), 2, n
  {
    if n > 0 {
      ItemsBound(items, n - 1, depth);
      LabelBound(items[n - 1], depth);
      EntriesMaxGrows(n, MaxLabel(depth));
      hide EntriesMax, MaxLabel, Label;
    }
  }

  lemma {:induction false} EntriesBound(entries: seq<MapEntry>, n: nat, depth: nat)
    requires n <= |entries|
    ensures |EntriesLabel(entries, n, depth)| <= EntriesMax(n, MaxLabel(depth))
    decreases Room(depth), 2, n
  {
    if n > 0 {
      EntriesBound(entries, n - 1, depth);
      EntryBound(entries[n - 1], depth);
      EntriesMaxGrows(n, MaxLabel(depth));
      hide EntriesMax, MaxLabel, EntryLabel;
    }
  }

  lemma {:induction false} EntryBound(e: MapEntry, depth: nat)
    ensures |EntryLabel(e, depth)| <= 2 * MaxLabel(depth) + 2
    decreases Room(depth), 1
  {
    LabelBound(e.key, depth);
    LabelBound(e.val, depth);
  }

  // ------------------------------------------------------- the bound is reached

  /** A map of nine entries, each key and value the same value one level down. */
  function Widest(depth: nat): ScVal
    decreases LABEL_MAX_DEPTH - depth
  {
    if depth >= LABEL_MAX_DEPTH then AddressVal(ScAddress(seq(MAX_STRKEY, _ => 'M')))
    else
      var inner := Widest(depth + 1);
      MapVal(Some(seq(LABEL_MAX_ITEMS + 1, _ => MapEntry(inner, inner))))
  }

  lemma {:induction false} WidestLength(depth: nat)
    requires depth <= LABEL_MAX_DEPTH
    ensures |Label(Widest(depth), depth)| == MaxLabel(depth)
    decreases LABEL_MAX_DEPTH - depth
  {
    if depth < LABEL_MAX_DEPTH {
      WidestLength(depth + 1);
      var inner := Widest(depth + 1);
      var entries := seq(LABEL_MAX_ITEMS + 1, _ => MapEntry(inner, inner));
      SameEntriesLength(entries, LABEL_MAX_ITEMS, depth + 1, MapEntry(inner, inner));
    }
  }

  lemma {:induction false} SameEntriesLength(entries: seq<MapEntry>, n: nat, depth: nat, e: MapEntry)
    requires n <= |entries| && forall i :: 0 <= i < |entries| ==> entries[i] == e
    requires |Label(e.key, depth)| == |Label(e.val, depth)| == MaxLabel(depth)
    ensures |EntriesLabel(entries, n, depth)| == EntriesMax(n, MaxLabel(depth))
    decreases n
  {
    if n > 0 {
      SameEntriesLength(entries, n - 1, depth, e);
      EntriesMaxGrows(n, MaxLabel(depth));
      hide EntriesMax, MaxLabel, Label;
    }
  }

  /** No label is longer than 292998 characters, and one is exactly that long. */
  lemma LabelsAreBounded(v: ScVal)
    ensures |Label(v, 0)| <= 292_998
    ensures |Label(Widest(0), 0)| == 292_998
  {
    LabelBound(v, 0);
    WidestLength(0);
    assert MaxLabel(3) == 69;
    assert MaxLabel(2) == 1_142;
    assert MaxLabel(1) == 18_310;
  }

  // ---------------------------------------------------------------- the code

  lemma WrappedText(out: string, open: string, inside: string, more: string, close: string)
    ensures (out + open + inside) + more + close == out + (open + inside + more + close)
  {
  }

  method WriteValue(out: string, v: ScVal, depth: nat) returns (out': string)
    ensures out' == out + Label(v, depth)
    decreases Room(depth), 0
  {
    hide ErrorLabel, BytesLabel, Decimal, Clipped, ItemsLabel, EntriesLabel, More;
    if v.VecVal? && v.items.Some? && depth < LABEL_MAX_DEPTH {
      var items := v.items.value;
      out' := WriteItems(out + "vec[", items, depth + 1);
      WrappedText(out, "vec[", ItemsLabel(items, ShownCount(items), depth + 1), More(items), "]");
      out' := out' + More(items) + "]";
    } else if v.MapVal? && v.entries.Some? && depth < LABEL_MAX_DEPTH {
      var entries := v.entries.value;
      out' := WriteEntries(out + "map{", entries, depth + 1);
      WrappedText(out, "map{", EntriesLabel(entries, ShownCount(entries), depth + 1), More(entries), "}");
      out' := out' + More(entries) + "}";
    } else {
      out' := out + Label(v, depth);
    }
  }

  lemma JoinedText(out: string, before: string, separator: string, text: string)
    ensures (out + before) + separator + text == out + (before + separator + text)
    ensures (out + before) + "" == out + before
  {
  }

  method WriteItems(out: string, items: seq<ScVal>, depth: nat) returns (out': string)
    ensures out' == out + ItemsLabel(items, ShownCount(items), depth)
    decreases Room(depth), 2
  {
    hide Label;
    out' := out;
    for i := 0 to ShownCount(items)
      invariant out' == out + ItemsLabel(items, i, depth)
    {
      JoinedText(out, ItemsLabel(items, i, depth), Separator(i), Label(items[i], depth));
      if i > 0 {
        out' := out' + ", ";
      }
      out' := WriteValue(out', items[i], depth);
    }
  }

  method WriteEntries(out: string, entries: seq<MapEntry>, depth: nat) returns (out': string)
    ensures out' == out + EntriesLabel(entries, ShownCount(entries), depth)
    decreases Room(depth), 2
  {
    hide EntryLabel;
    out' := out;
    for i := 0 to ShownCount(entries)
      invariant out' == out + EntriesLabel(entries, i, depth)
    {
      JoinedText(out, EntriesLabel(entries, i, depth), Separator(i), EntryLabel(entries[i], depth));
      if i > 0 {
        out' := out' + ", ";
      }
      out' := WriteEntry(out', entries[i], depth);
    }
  }

  method WriteEntry(out: string, e: MapEntry, depth: nat) returns (out': string)
    ensures out' == out + EntryLabel(e, depth)
    decreases Room(depth), 1
  {
    out' := WriteValue(out, e.key, depth);
    out' := out' + ": ";
    out' := WriteValue(out', e.val, depth);
  }

  method ValueLabel(v: ScVal) returns (out: string)
    ensures out == Label(v, 0)
    ensures |out| <= 292_998
  {
    out := WriteValue("", v, 0);
    LabelsAreBounded(v);
  }
}
