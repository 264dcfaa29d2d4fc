/**
 Selecting samples under two caps: one per code cluster, three per submitter
 (crates/soroban-failure-rpc/examples/pilot_report.rs:111-148 and 449-467).
 */
module Selection {
  import opened Common
  import opened Soroban
  import opened SplitMix
  import opened Clusters

  /** A candidate is an eligible record, so its code cluster is there; its hash has the digits the order reads. */
  type Candidate = r: PilotRecord | r.codeCluster.Some? && |r.transactionHash| >= 16
    witness PilotRecord("0123456789abcdef", 0, 1, 1, "", Some(""), Some(""), None)

  function CodeOf(r: Candidate): string {
    r.codeCluster.value
  }

  // ------------------------------------------------------------- the walk order

  function Digit(c: char): Option<nat> {
    if '0' <= c <= '9' then Some((c - '0') as nat)
    else if 'a' <= c <= 'f' then Some((c - 'a') as nat + 10)
    else if 'A' <= c <= 'F' then Some((c - 'A') as nat + 10)
    else None
  }

  function Pow16(n: nat): nat {
    if n == 0 then 1 else 16 * Pow16(n - 1)
  }

  function Digits(s: string): (r: Option<nat>)
    ensures r.Some? ==> r.value < Pow16(|s|)
  {
    if s == "" then Some(0)
    else
      var earlier, last := Digits(s[..|s| - 1]), Digit(s[|s| - 1]);
      if earlier.Some? && last.Some? then Some(16 * earlier.value + last.value) else None
  }

  lemma Pow16Bounds()
    ensures Pow16(15) == 0x1000_0000_0000_0000 && Pow16(16) == 0x1_0000_0000_0000_0000
  {
    assert Pow16(4) == 0x1_0000;
    assert Pow16(8) == 0x1_0000_0000;
    assert Pow16(12) == 0x1_0000_0000_0000;
  }

  /** The first 16 digits as a number, or 0 if they are not one; a leading `+` is allowed. */
  function Prefix(hash: string): U64
    requires |hash| >= 16
  {
    Pow16Bounds();
    match Digits(if hash[0] == '+' then hash[1..16] else hash[..16])
    case Some(n) => n
    case None => 0
  }

  function OrderKey(hash: string, trial: U64): U64
    requires |hash| >= 16
  {
    SeedIsU64(Prefix(hash), Times(trial, 0xa076_1d64_78bd_642f));
    Mix(Advance(Xor(Prefix(hash), Times(trial, 0xa076_1d64_78bd_642f))))
  }

  lemma SeedIsU64(a: U64, b: U64)
    ensures Xor(a, b) < TWO64
  {
    Pow2Of64();
    hide Pow2;
    XorBelow(a, b, 64);
  }

  /** Within a trial, keys collide only when the first 16 digits do. */
  lemma OrderKeysDistinguish(a: string, b: string, trial: U64)
    requires |a| >= 16 && |b| >= 16
    ensures OrderKey(a, trial) == OrderKey(b, trial) <==> Prefix(a) == Prefix(b)
  {
    var x, y, t := Prefix(a), Prefix(b), Times(trial, 0xa076_1d64_78bd_642f);
    SeedIsU64(x, t);
    SeedIsU64(y, t);
    MixDistinguishes(Advance(Xor(x, t)), Advance(Xor(y, t)));
    AdvanceDistinguishes(Xor(x, t), Xor(y, t));
    XorCancels(x, y, t);
    hide Mix, Prefix, Times, Xor, Advance;
  }

  /** A number in bytes, most significant first. */
  function NumberOf(bytes: Bytes): nat {
    if bytes == [] then 0 else 0x100 * NumberOf(bytes[..|bytes| - 1]) + bytes[|bytes| - 1]
  }

  lemma {:induction false} HexConcat(a: Bytes, b: Bytes)
    ensures Hex(a + b) == Hex(a) + Hex(b)
    decreases |a|
  {
    if a == [] {
      assert a + b == b;
    } else {
      assert (a + b)[1..] == a[1..] + b;
      HexConcat(a[1..], b);
    }
  }

  lemma HexDigitIsRead(n: nat)
    requires n < 16
    ensures Digit(HexDigit(n)) == Some(n)
  {
  }

  lemma {:induction false} HexIsRead(bytes: Bytes)
    ensures Digits(Hex(bytes)) == Some(NumberOf(bytes))
    decreases |bytes|
  {
    if bytes != [] {
      var front, last := bytes[..|bytes| - 1], bytes[|bytes| - 1];
      var s := Hex(bytes);
      HexIsRead(front);
      HexConcat(front, [last]);
      assert bytes == front + [last];
      assert Hex([last]) == [HexDigit(last / 16), HexDigit(last % 16)];
      HexDigitIsRead(last / 16);
      HexDigitIsRead(last % 16);
      TwoMoreDigits(s, Hex(front), HexDigit(last / 16), HexDigit(last % 16));
    }
  }

  lemma TwoMoreDigits(s: string, front: string, c: char, d: char)
    requires s == front + [c, d] && Digits(front).Some? && Digit(c).Some? && Digit(d).Some?
    ensures Digits(s) == Some(0x100 * Digits(front).value + 16 * Digit(c).value + Digit(d).value)
  {
    assert s[..|s| - 1] == front + [c];
    assert (front + [c])[..|front|] == front;
    hide Digit;
  }

  /** The order reads the first eight bytes of a hash, as a number. */
  lemma PrefixIsTheFirstBytes(bytes: Bytes)
    requires |bytes| >= 8
    ensures Prefix(Hex(bytes)) == NumberOf(bytes[..8])
  {
    var hash := Hex(bytes);
    HexConcat(bytes[..8], bytes[8..]);
    assert bytes == bytes[..8] + bytes[8..];
    assert hash[..16] == Hex(bytes[..8]);
    assert hash[0] == HexDigit(bytes[0] / 16);
    HexDigitIsRead(bytes[0] / 16);
    HexIsRead(bytes[..8]);
    hide Hex, NumberOf, Digits;
    assert hash[0] != '+';
  }

  /** Two trials give a hash the same key only if they are the same trial. */
  lemma TrialsDistinguish(hash: string, t: U64, u: U64)
    requires |hash| >= 16
    ensures OrderKey(hash, t) == OrderKey(hash, u) <==> t == u
  {
    var p := Prefix(hash);
    var x, y := Times(t, 0xa076_1d64_78bd_642f), Times(u, 0xa076_1d64_78bd_642f);
    SeedIsU64(p, x);
    SeedIsU64(p, y);
    MixDistinguishes(Advance(Xor(p, x)), Advance(Xor(p, y)));
    AdvanceDistinguishes(Xor(p, x), Xor(p, y));
    XorCancelsLeft(p, x, y);
    TimesDistinguishes(t, u, 0xa076_1d64_78bd_642f, 0x939c_72e4_af1e_62cf, 0x5c85_e2de_8a9b_090e);
    hide Mix, Prefix, Times, Xor, Advance;
  }

  lemma XorCancelsLeft(p: nat, x: nat, y: nat)
    ensures Xor(p, x) == Xor(p, y) <==> x == y
  {
    hide Xor;
    XorAssoc(p, p, x);
    XorAssoc(p, p, y);
    XorZero(x);
    XorZero(y);
    XorZero(p);
  }

  lemma AdvanceDistinguishes(x: U64, y: U64)
    ensures Advance(x) == Advance(y) <==> x == y
  {
  }

  lemma XorCancels(x: nat, y: nat, t: nat)
    ensures Xor(x, t) == Xor(y, t) <==> x == y
  {
    hide Xor;
    XorAssoc(x, t, t);
    XorAssoc(y, t, t);
    XorZero(x);
    XorZero(y);
    XorZero(t);
  }

  predicate StrLess(a: string, b: string) {
    if b == "" then false
    else if a == "" then true
    else a[0] < b[0] || (a[0] == b[0] && StrLess(a[1..], b[1..]))
  }

  lemma {:induction false} StrTotal(a: string, b: string)
    ensures StrLess(a, b) || StrLess(b, a) || a == b
    ensures !(StrLess(a, b) && (StrLess(b, a) || a == b))
    decreases |a|
  {
    if a != "" && b != "" && a[0] == b[0] {
      StrTotal(a[1..], b[1..]);
      assert a == [a[0]] + a[1..] && b == [b[0]] + b[1..];
    }
  }

  lemma {:induction false} StrTransitive(a: string, b: string, c: string)
    requires StrLess(a, b) && StrLess(b, c)
    ensures StrLess(a, c)
    decreases |a|
  {
    if a != "" && a[0] == b[0] == c[0] {
      StrTransitive(a[1..], b[1..], c[1..]);
    }
  }

  /** The strings agree up to `k`, and there `a` ends or has the smaller character. */
  predicate LessAt(a: string, b: string, k: nat) {
    k <= |a| && k < |b| && a[..k] == b[..k] && (k == |a| || a[k] < b[k])
  }

  /** String order: by the first difference, a prefix coming first. */
  ghost predicate Earlier(a: string, b: string) {
    exists k: nat :: LessAt(a, b, k)
  }

  lemma EarlierUnfolds(a: string, b: string)
    requires a != "" && b != ""
    ensures Earlier(a, b) <==> a[0] < b[0] || (a[0] == b[0] && Earlier(a[1..], b[1..]))
  {
    if k: nat :| LessAt(a, b, k) {
      if k > 0 {
        assert a[0] == a[..k][0] == b[..k][0] == b[0];
        assert a[1..][..k - 1] == a[..k][1..] && b[1..][..k - 1] == b[..k][1..];
        assert LessAt(a[1..], b[1..], k - 1);
      }
    }
    if a[0] < b[0] {
      assert LessAt(a, b, 0);
    } else if a[0] == b[0] && Earlier(a[1..], b[1..]) {
      var k: nat :| LessAt(a[1..], b[1..], k);
      assert a[..k + 1] == [a[0]] + a[1..][..k] && b[..k + 1] == [b[0]] + b[1..][..k];
      assert LessAt(a, b, k + 1);
    }
  }

  lemma {:induction false} StrLessIsEarlier(a: string, b: string)
    ensures StrLess(a, b) <==> Earlier(a, b)
    decreases |a|
  {
    if b != "" && a == "" {
      assert LessAt(a, b, 0);
    } else if b != "" {
      StrLessIsEarlier(a[1..], b[1..]);
      EarlierUnfolds(a, b);
    }
  }

  /** Ordered by key, then by hash. */
  predicate Before(a: Candidate, b: Candidate, trial: U64) {
    var x, y := OrderKey(a.transactionHash, trial), OrderKey(b.transactionHash, trial);
    x < y || (x == y && StrLess(a.transactionHash, b.transactionHash))
  }

  lemma BeforeIsStrict(a: Candidate, b: Candidate, trial: U64)
    ensures !Before(a, a, trial) && !(Before(a, b, trial) && Before(b, a, trial))
    ensures Before(a, b, trial) || Before(b, a, trial) || a.transactionHash == b.transactionHash
  {
    hide OrderKey;
    StrTotal(a.transactionHash, b.transactionHash);
    StrTotal(a.transactionHash, a.transactionHash);
  }

  /** The key is smaller, or it is the same and the hash is not later in string order. */
  ghost predicate NoLater(a: Candidate, b: Candidate, trial: U64) {
    var x, y := OrderKey(a.transactionHash, trial), OrderKey(b.transactionHash, trial);
    x < y || (x == y && (a.transactionHash == b.transactionHash || Earlier(a.transactionHash, b.transactionHash)))
  }

  lemma NoLaterIsNotBefore(a: Candidate, b: Candidate, trial: U64)
    ensures NoLater(a, b, trial) <==> !Before(b, a, trial)
  {
    hide OrderKey, StrLess, Earlier;
    StrTotal(a.transactionHash, b.transactionHash);
    StrLessIsEarlier(a.transactionHash, b.transactionHash);
    StrLessIsEarlier(b.transactionHash, a.transactionHash);
  }

  /** Not coming later is transitive. */
  lemma NotAfterIsTransitive(a: Candidate, b: Candidate, c: Candidate, trial: U64)
    requires !Before(b, a, trial) && !Before(c, b, trial)
    ensures !Before(c, a, trial)
  {
    hide OrderKey;
    StrTotal(a.transactionHash, b.transactionHash);
    StrTotal(b.transactionHash, c.transactionHash);
    if StrLess(c.transactionHash, a.transactionHash) && StrLess(a.transactionHash, b.transactionHash) {
      StrTransitive(c.transactionHash, a.transactionHash, b.transactionHash);
    }
  }

  /** Insert before the first element that comes later. */
  function Insert(s: seq<Candidate>, r: Candidate, trial: U64): (t: seq<Candidate>)
    ensures multiset(t) == multiset(s + [r])
  {
    if s == [] then [r]
    else
      var n := |s| - 1;
      assert s == s[..n] + [s[n]];
      if Before(r, s[n], trial) then Insert(s[..n], r, trial) + [s[n]] else s + [r]
  }

  /** The stable sort by key and hash. */
  function Arranged(s: seq<Candidate>, trial: U64): (t: seq<Candidate>)
    ensures multiset(t) == multiset(s)
  {
    if s == [] then []
    else
      assert s == s[..|s| - 1] + [s[|s| - 1]];
      Insert(Arranged(s[..|s| - 1], trial), s[|s| - 1], trial)
  }

  ghost predicate InOrder(s: seq<Candidate>, trial: U64) {
    forall i, j :: 0 <= i < j < |s| ==> !Before(s[j], s[i], trial)
  }

  lemma AppendInOrder(s: seq<Candidate>, r: Candidate, trial: U64)
    requires InOrder(s, trial) && forall x :: x in s ==> !Before(r, x, trial)
    ensures InOrder(s + [r], trial)
  {
    hide Before;
  }

  lemma InsertMembers(s: seq<Candidate>, r: Candidate, trial: U64)
    ensures forall x :: x in Insert(s, r, trial) <==> x in s || x == r
  {
    var t := Insert(s, r, trial);
    hide Insert;
    assert forall x :: x in t <==> x in multiset(t);
    assert forall x :: x in s + [r] <==> x in multiset(s + [r]);
  }

  lemma {:induction false} InsertInOrder(s: seq<Candidate>, r: Candidate, trial: U64)
    requires InOrder(s, trial)
    ensures InOrder(Insert(s, r, trial), trial)
  {
    if s != [] {
      var n := |s| - 1;
      var front, last := s[..n], s[n];
      hide Before;
      if Before(r, last, trial) {
        InsertInOrder(front, r, trial);
        InsertMembers(front, r, trial);
        BeforeIsStrict(r, last, trial);
        AppendInOrder(Insert(front, r, trial), last, trial);
      } else {
        forall x | x in s
          ensures !Before(r, x, trial)
        {
          if x != last {
            NotAfterIsTransitive(x, last, r, trial);
          }
        }
        AppendInOrder(s, r, trial);
      }
    }
  }

  lemma {:induction false} ArrangedInOrder(s: seq<Candidate>, trial: U64)
    ensures InOrder(Arranged(s, trial), trial)
  {
    if s != [] {
      ArrangedInOrder(s[..|s| - 1], trial);
      InsertInOrder(Arranged(s[..|s| - 1], trial), s[|s| - 1], trial);
    }
  }

  /** Along the walk keys never fall, and equal keys have their hashes in string order. */
  lemma KeysAscend(s: seq<Candidate>, trial: U64)
    ensures var t := Arranged(s, trial);
            forall i, j :: 0 <= i < j < |t| ==>
              var x, y := OrderKey(t[i].transactionHash, trial), OrderKey(t[j].transactionHash, trial);
              && x <= y
              && (x == y ==> t[i].transactionHash == t[j].transactionHash
                             || Earlier(t[i].transactionHash, t[j].transactionHash))
  {
    ArrangedInOrder(s, trial);
    hide Arranged, Before, OrderKey, Earlier;
    var t := Arranged(s, trial);
    forall i, j | 0 <= i < j < |t|
      ensures NoLater(t[i], t[j], trial)
    {
      NoLaterIsNotBefore(t[i], t[j], trial);
    }
  }

  ghost predicate DistinctHashes(s: multiset<Candidate>) {
    && (forall r :: r in s ==> s[r] == 1)
    && forall r, t :: r in s && t in s && r.transactionHash == t.transactionHash ==> r == t
  }

  /** With distinct hashes there is only one order. */
  lemma {:induction false} OrderIsUnique(s: seq<Candidate>, t: seq<Candidate>, trial: U64)
    requires InOrder(s, trial) && InOrder(t, trial)
    requires multiset(s) == multiset(t) && DistinctHashes(multiset(s))
    ensures s == t
  {
    if s == [] {
      assert |multiset(t)| == 0;
    } else {
      FirstIsTheSame(s, t, trial);
      InOrderTail(s, trial);
      InOrderTail(t, trial);
      SameTails(s, t);
      hide InOrder, DistinctHashes;
      OrderIsUnique(s[1..], t[1..], trial);
      assert s == [s[0]] + s[1..] && t == [t[0]] + t[1..];
    }
  }

  lemma InOrderTail(s: seq<Candidate>, trial: U64)
    requires InOrder(s, trial) && s != []
    ensures InOrder(s[1..], trial)
  {
    hide Before;
  }

  lemma SameTails(s: seq<Candidate>, t: seq<Candidate>)
    requires s != [] && t != [] && s[0] == t[0] && multiset(s) == multiset(t) && DistinctHashes(multiset(s))
    ensures multiset(s[1..]) == multiset(t[1..]) && DistinctHashes(multiset(s[1..]))
  {
    assert s == [s[0]] + s[1..] && t == [t[0]] + t[1..];
    assert multiset(s[1..]) == multiset(s) - multiset{s[0]};
    assert multiset(t[1..]) == multiset(t) - multiset{t[0]};
    forall r | r in multiset(s[1..])
      ensures r in multiset(s) && multiset(s[1..])[r] == 1
    {
    }
  }

  lemma FirstIsTheSame(s: seq<Candidate>, t: seq<Candidate>, trial: U64)
    requires InOrder(s, trial) && InOrder(t, trial) && s != []
    requires multiset(s) == multiset(t) && DistinctHashes(multiset(s))
    ensures t != [] && t[0] == s[0]
  {
    hide Before;
    assert s[0] in multiset(t);
    assert t != [];
    assert t[0] in multiset(s);
    var i :| 0 <= i < |s| && s[i] == t[0];
    var j :| 0 <= j < |t| && t[j] == s[0];
    BeforeIsStrict(s[0], t[0], trial);
  }

  /** The walk depends only on which candidates there are. */
  lemma ArrangedIgnoresOrder(s: seq<Candidate>, t: seq<Candidate>, trial: U64)
    requires multiset(s) == multiset(t) && DistinctHashes(multiset(s))
    ensures Arranged(s, trial) == Arranged(t, trial)
  {
    ArrangedInOrder(s, trial);
    ArrangedInOrder(t, trial);
    OrderIsUnique(Arranged(s, trial), Arranged(t, trial), trial);
  }

  // -------------------------------------------------------------------- the caps

  const PER_SUBMITTER := 3

  datatype Usage = Usage(codes: set<string>, submitters: map<string, nat>) {
    function Used(submitter: string): nat {
      if submitter in submitters then submitters[submitter] else 0
    }

    predicate Admits(r: Candidate) {
      CodeOf(r) !in codes && Used(r.submitterCluster) < PER_SUBMITTER
    }

    function Admit(r: Candidate): Usage {
      Usage(codes + {CodeOf(r)}, submitters[r.submitterCluster := Used(r.submitterCluster) + 1])
    }
  }

  const Unused := Usage({}, map[])

  /** The caps after walking the candidates in order, and who was accepted. */
  function Walk(caps: Usage, s: seq<Candidate>): (Usage, seq<Candidate>) {
    if s == [] then (caps, [])
    else
      var (after, accepted) := Walk(caps, s[..|s| - 1]);
      var r := s[|s| - 1];
      if after.Admits(r) then (after.Admit(r), accepted + [r]) else (after, accepted)
  }

  /** The caps, carried across rounds. */
  class Caps {
    var codes: set<string>
    var submitters: map<string, nat>

    constructor ()
      ensures Value() == Unused
    {
      codes, submitters := {}, map[];
    }

    ghost function Value(): Usage
      reads this
    {
      Usage(codes, submitters)
    }

    method Select(candidates: seq<Candidate>, trial: U64) returns (accepted: nat)
      modifies this
      ensures (Value(), accepted)
              == (Walk(old(Value()), Arranged(candidates, trial)).0,
                  |Walk(old(Value()), Arranged(candidates, trial)).1|)
    {
      hide Arranged;
      var ordered := Arranged(candidates, trial);
      accepted := 0;
      ghost var before := Value();
      for i := 0 to |ordered|
        invariant Value() == Walk(before, ordered[..i]).0 && accepted == |Walk(before, ordered[..i]).1|
      {
        var r := ordered[i];
        assert ordered[..i + 1][..i] == ordered[..i];
        var code := CodeOf(r);
        if code in codes {
          continue;
        }
        var used := if r.submitterCluster in submitters then submitters[r.submitterCluster] else 0;
        if used >= 3 {
          continue;
        }
        submitters := submitters[r.submitterCluster := used + 1];
        codes := codes + {code};
        accepted := accepted + 1;
      }
      assert ordered[..|ordered|] == ordered;
    }
  }

  // ------------------------------------------------------------ what a walk obeys

  function CodesOf(s: seq<Candidate>): (c: set<string>)
    ensures forall r :: r in s ==> CodeOf(r) in c
    ensures forall x :: x in c ==> exists r :: r in s && CodeOf(r) == x
  {
    set r | r in s :: CodeOf(r)
  }

  function From(s: seq<Candidate>, submitter: string): nat {
    if s == [] then 0
    else From(s[..|s| - 1], submitter) + if s[|s| - 1].submitterCluster == submitter then 1 else 0
  }

  /** At most one sample a code, and three a submitter. */
  ghost predicate Feasible(s: seq<Candidate>) {
    && (forall i, j :: 0 <= i < j < |s| ==> CodeOf(s[i]) != CodeOf(s[j]))
    && (forall x :: From(s, x) <= PER_SUBMITTER)
  }

  /** The caps say exactly who was accepted. */
  ghost predicate Records(caps: Usage, s: seq<Candidate>) {
    caps.codes == CodesOf(s) && forall x :: caps.Used(x) == From(s, x)
  }

  /** No candidate that was left out could be added. */
  ghost predicate Maximal(accepted: seq<Candidate>, s: seq<Candidate>) {
    forall r :: r in s ==> CodeOf(r) in CodesOf(accepted) || From(accepted, r.submitterCluster) >= PER_SUBMITTER
  }

  lemma OneMore(s: seq<Candidate>, r: Candidate)
    ensures CodesOf(s + [r]) == CodesOf(s) + {CodeOf(r)}
    ensures forall x :: From(s + [r], x) == From(s, x) + if r.submitterCluster == x then 1 else 0
  {
    assert (s + [r])[..|s + [r]| - 1] == s;
  }

  lemma AdmittedIsRecorded(caps: Usage, accepted: seq<Candidate>, r: Candidate)
    requires Records(caps, accepted) && Feasible(accepted) && caps.Admits(r)
    ensures Records(caps.Admit(r), accepted + [r]) && Feasible(accepted + [r])
  {
    OneMore(accepted, r);
    hide From;
  }

  lemma AdmittedIsMaximal(caps: Usage, accepted: seq<Candidate>, s: seq<Candidate>, r: Candidate)
    requires Records(caps, accepted) && Maximal(accepted, s)
    ensures Maximal(if caps.Admits(r) then accepted + [r] else accepted, s + [r])
  {
    OneMore(accepted, r);
    hide From, CodesOf;
  }

  /** The selection obeys both caps, comes from the candidates, and cannot be extended. */
  lemma {:induction false} WalkIsMaximal(s: seq<Candidate>)
    ensures var (caps, accepted) := Walk(Unused, s);
            && Records(caps, accepted) && Feasible(accepted) && Maximal(accepted, s)
            && forall r :: r in accepted ==> r in s
  {
    if s != [] {
      var front, r := s[..|s| - 1], s[|s| - 1];
      WalkIsMaximal(front);
      var (caps, accepted) := Walk(Unused, front);
      assert Walk(Unused, s) == if caps.Admits(r) then (caps.Admit(r), accepted + [r]) else (caps, accepted);
      assert s == front + [r];
      AdmittedIsMaximal(caps, accepted, front, r);
      if caps.Admits(r) {
        AdmittedIsRecorded(caps, accepted, r);
      }
      hide Walk, Records, Feasible, Maximal;
    }
  }

  // ------------------------------------------------------------- within a factor of two

  lemma {:induction false} CodesBound(s: seq<Candidate>)
    requires Feasible(s)
    ensures |CodesOf(s)| == |s|
  {
    if s != [] {
      var front, r := s[..|s| - 1], s[|s| - 1];
      assert s == front + [r];
      OneMore(front, r);
      CodesBound(front);
      assert CodeOf(r) !in CodesOf(front);
    }
  }

  lemma {:induction false} PartsAddUp(s: seq<Candidate>, p: Candidate -> bool)
    ensures |s| == |Filter(s, p)| + |Filter(s, (r: Candidate) => !p(r))|
  {
    if s != [] {
      PartsAddUp(s[..|s| - 1], p);
    }
  }

  lemma {:induction false} PartFrom(s: seq<Candidate>, p: Candidate -> bool, x: string)
    ensures From(Filter(s, p), x) <= From(s, x)
  {
    if s != [] {
      var front, r := s[..|s| - 1], s[|s| - 1];
      PartFrom(front, p, x);
      assert s == front + [r];
      FilterOne(front, r, p);
      OneMore(Filter(front, p), r);
      OneMore(front, r);
      hide From, Filter, CodesOf;
    }
  }

  lemma {:induction false} PartFeasible(s: seq<Candidate>, p: Candidate -> bool)
    requires Feasible(s)
    ensures Feasible(Filter(s, p))
  {
    forall x
      ensures From(Filter(s, p), x) <= PER_SUBMITTER
    {
      PartFrom(s, p, x);
    }
    PartDistinct(s, p);
  }

  lemma {:induction false} PartDistinct(s: seq<Candidate>, p: Candidate -> bool)
    requires forall i, j :: 0 <= i < j < |s| ==> CodeOf(s[i]) != CodeOf(s[j])
    ensures var t := Filter(s, p); forall i, j :: 0 <= i < j < |t| ==> CodeOf(t[i]) != CodeOf(t[j])
  {
    if s != [] {
      var front, last := s[..|s| - 1], s[|s| - 1];
      PartDistinct(front, p);
      assert s == front + [last];
      FilterOne(front, last, p);
      var t := Filter(front, p);
      forall i | 0 <= i < |t|
        ensures CodeOf(t[i]) != CodeOf(last)
      {
        assert t[i] in t;
      }
    }
  }

  /** Candidates without those of one submitter. */
  function Without(s: seq<Candidate>, x: string): seq<Candidate> {
    Filter(s, (r: Candidate) => r.submitterCluster != x)
  }

  lemma {:induction false} WithoutOne(s: seq<Candidate>, x: string)
    ensures |s| == From(s, x) + |Without(s, x)|
    ensures forall y :: From(Without(s, x), y) == if y == x then 0 else From(s, y)
  {
    if s != [] {
      var front, r := s[..|s| - 1], s[|s| - 1];
      WithoutOne(front, x);
      assert s == front + [r];
      FilterOne(front, r, (c: Candidate) => c.submitterCluster != x);
      OneMore(Without(front, x), r);
    }
  }

  /** At most three from each of a set of submitters. */
  lemma {:induction false} FewFrom(s: seq<Candidate>, submitters: set<string>)
    requires forall x :: From(s, x) <= PER_SUBMITTER
    requires forall r :: r in s ==> r.submitterCluster in submitters
    ensures |s| <= PER_SUBMITTER * |submitters|
    decreases |submitters|
  {
    if s != [] {
      var x := s[0].submitterCluster;
      assert s[0] in s;
      WithoutOne(s, x);
      FewFrom(Without(s, x), submitters - {x});
    }
  }

  /** At least three from each of a set of submitters. */
  lemma {:induction false} ManyFrom(s: seq<Candidate>, submitters: set<string>)
    requires forall x :: x in submitters ==> From(s, x) >= PER_SUBMITTER
    ensures PER_SUBMITTER * |submitters| <= |s|
    decreases |submitters|
  {
    if submitters != {} {
      var x :| x in submitters;
      WithoutOne(s, x);
      ManyFrom(Without(s, x), submitters - {x});
    }
  }

  /** The submitters that fill their cap. */
  function Full(accepted: seq<Candidate>): (x: set<string>)
    ensures forall y :: y in x <==>
              exists r :: r in accepted && r.submitterCluster == y && From(accepted, y) >= PER_SUBMITTER
  {
    set r | r in accepted && From(accepted, r.submitterCluster) >= PER_SUBMITTER :: r.submitterCluster
  }

  lemma {:induction false} FromSomeone(s: seq<Candidate>, x: string)
    requires From(s, x) > 0
    ensures exists r :: r in s && r.submitterCluster == x
  {
    var front, r := s[..|s| - 1], s[|s| - 1];
    if r.submitterCluster != x {
      FromSomeone(front, x);
    }
  }

  lemma CodesWithin(s: seq<Candidate>, codes: set<string>)
    requires Feasible(s) && forall r :: r in s ==> CodeOf(r) in codes
    ensures |s| <= |codes|
  {
    CodesBound(s);
    Smaller(CodesOf(s), codes);
  }

  lemma {:induction false} Smaller(a: set<string>, b: set<string>)
    requires a <= b
    ensures |a| <= |b|
  {
    if a != {} {
      var x :| x in a;
      Smaller(a - {x}, b - {x});
    }
  }

  /**
   No selection that obeys both caps has more than twice as many samples as one
   that cannot be extended.
   */
  lemma MaximalIsHalfTheBest(accepted: seq<Candidate>, s: seq<Candidate>, best: seq<Candidate>)
    requires Feasible(accepted) && Maximal(accepted, s)
    requires Feasible(best) && forall r :: r in best ==> r in s
    ensures |best| <= 2 * |accepted|
  {
    var codes, full := CodesOf(accepted), Full(accepted);
    var taken := (r: Candidate) => CodeOf(r) in codes;
    var clash, rest := Filter(best, taken), Filter(best, (r: Candidate) => !taken(r));
    PartsAddUp(best, taken);
    PartFeasible(best, taken);
    PartFeasible(best, (r: Candidate) => !taken(r));
    CodesWithin(clash, codes);
    CodesBound(accepted);
    ManyFrom(accepted, full);
    forall r | r in rest
      ensures r.submitterCluster in full
    {
      FromSomeone(accepted, r.submitterCluster);
    }
    FewFrom(rest, full);
  }

  /** Greedy selection is within a factor of two of the best, in any order. */
  lemma GreedyIsHalfTheBest(s: seq<Candidate>, trial: U64, best: seq<Candidate>)
    requires Feasible(best) && forall r :: r in best ==> r in s
    ensures |best| <= 2 * |Walk(Unused, Arranged(s, trial)).1|
  {
    var ordered := Arranged(s, trial);
    WalkIsMaximal(ordered);
    forall r | r in best
      ensures r in ordered
    {
      assert r in multiset(s);
    }
    hide Walk, Arranged, Feasible, Maximal;
    MaximalIsHalfTheBest(Walk(Unused, ordered).1, ordered, best);
  }

  /** Two orders of the same candidates differ by a factor of two at most. */
  lemma OrdersAreWithinTwo(s: seq<Candidate>, trial: U64, t: seq<Candidate>, other: U64)
    requires multiset(s) == multiset(t)
    ensures |Walk(Unused, Arranged(s, trial)).1| <= 2 * |Walk(Unused, Arranged(t, other)).1|
  {
    var ordered := Arranged(s, trial);
    WalkIsMaximal(ordered);
    var accepted := Walk(Unused, ordered).1;
    forall r | r in accepted
      ensures r in t
    {
      assert r in multiset(ordered);
    }
    hide Walk, Arranged, Feasible, Maximal;
    GreedyIsHalfTheBest(t, other, accepted);
  }

  // -------------------------------------------------------------------- rounds

  /** A second round under the same caps continues the walk. */
  lemma {:induction false} WalkConcat(caps: Usage, a: seq<Candidate>, b: seq<Candidate>)
    ensures var (after, first) := Walk(caps, a);
            var (last, second) := Walk(after, b);
            Walk(caps, a + b) == (last, first + second)
    decreases |b|
  {
    if b == [] {
      assert a + b == a && Walk(caps, a).1 + [] == Walk(caps, a).1;
    } else {
      var n := |b| - 1;
      assert (a + b)[..|a + b| - 1] == a + b[..n] && (a + b)[|a + b| - 1] == b[n];
      WalkConcat(caps, a, b[..n]);
      var (after, first) := Walk(caps, a);
      var (last, second) := Walk(after, b[..n]);
      assert first + (second + [b[n]]) == (first + second) + [b[n]];
    }
  }

  /** After a walk the caps are what they were, and what was accepted. */
  lemma {:induction false} WalkRecords(caps: Usage, s: seq<Candidate>)
    ensures var (after, accepted) := Walk(caps, s);
            && after.codes == caps.codes + CodesOf(accepted)
            && (forall x :: after.Used(x) == caps.Used(x) + From(accepted, x))
            && (forall r :: r in accepted ==> r in s)
  {
    if s != [] {
      var front, r := s[..|s| - 1], s[|s| - 1];
      WalkRecords(caps, front);
      assert s == front + [r];
      OneMore(Walk(caps, front).1, r);
      hide From, CodesOf;
    }
  }

  /** A candidate before this one in the walk has its code, or three have its submitter. */
  ghost predicate Blocked(caps: Usage, accepted: seq<Candidate>, r: Candidate, trial: U64, k: nat) {
    && k <= |accepted|
    && (forall a :: a in accepted[..k] ==> NoLater(a, r, trial))
    && (|| CodeOf(r) in caps.codes
        || (exists a :: a in accepted[..k] && CodeOf(a) == CodeOf(r))
        || caps.Used(r.submitterCluster) + From(accepted[..k], r.submitterCluster) >= 3)
  }

  /**
   A candidate that is left out had its code taken, or its submitter's three
   samples, by accepted candidates whose (key, hash) is no greater than its own,
   or in an earlier round.
   */
  lemma LeftOutIsBlocked(caps: Usage, s: seq<Candidate>, trial: U64, r: Candidate)
    requires r in s && r !in Walk(caps, Arranged(s, trial)).1
    ensures exists k: nat :: Blocked(caps, Walk(caps, Arranged(s, trial)).1, r, trial, k)
  {
    hide *;
    var t := Arranged(s, trial);
    ArrangedInOrder(s, trial);
    assert r in multiset(t);
    var n :| 0 <= n < |t| && t[n] == r;
    var earlier := Walk(caps, t[..n]).1;
    StaysAdmitted(caps, t, n);
    WalkRecords(caps, t[..n]);
    EarlierAreNoLater(t, trial, n);
    assert Walk(caps, t).1[..|earlier|] == earlier;
    BlockedBy(caps, Walk(caps, t[..n]).0, Walk(caps, t).1, r, trial, |earlier|);
  }

  lemma EarlierAreNoLater(t: seq<Candidate>, trial: U64, n: nat)
    requires InOrder(t, trial) && n < |t|
    ensures forall a :: a in t[..n] ==> NoLater(a, t[n], trial)
  {
    hide NoLater, Before;
    forall a | a in t[..n]
      ensures NoLater(a, t[n], trial)
    {
      var i :| 0 <= i < n && t[..n][i] == a;
      assert t[i] == a;
      NoLaterIsNotBefore(a, t[n], trial);
    }
  }

  lemma BlockedBy(caps: Usage, after: Usage, accepted: seq<Candidate>, r: Candidate, trial: U64, k: nat)
    requires k <= |accepted| && forall a :: a in accepted[..k] ==> NoLater(a, r, trial)
    requires after.codes == caps.codes + CodesOf(accepted[..k])
    requires after.Used(r.submitterCluster) == caps.Used(r.submitterCluster) + From(accepted[..k], r.submitterCluster)
    requires !after.Admits(r)
    ensures Blocked(caps, accepted, r, trial, k)
  {
    hide NoLater, From;
  }

  /** What was accepted before a place stays accepted, and so does what stands there, if the caps admit it. */
  lemma StaysAdmitted(caps: Usage, t: seq<Candidate>, n: nat)
    requires n < |t|
    ensures Walk(caps, t[..n]).1 <= Walk(caps, t).1
    ensures Walk(caps, t[..n]).0.Admits(t[n]) ==> t[n] in Walk(caps, t).1
  {
    assert t == t[..n] + t[n..] && t == t[..n + 1] + t[n + 1..];
    WalkConcat(caps, t[..n], t[n..]);
    WalkConcat(caps, t[..n + 1], t[n + 1..]);
    assert t[..n + 1][..n] == t[..n];
    var accepted := Walk(caps, t[..n + 1]).1;
    assert Walk(caps, t[..n]).0.Admits(t[n]) ==> t[n] == accepted[|accepted| - 1];
  }

  /** Two rounds are one walk over the rounds' orders joined, so the caps hold across them. */
  method TwoRounds(r1: seq<Candidate>, r2: seq<Candidate>, trial: U64) returns (first: nat, second: nat)
    ensures var both := Walk(Unused, Arranged(r1, trial) + Arranged(r2, trial)).1;
            && first == |Walk(Unused, Arranged(r1, trial)).1|
            && first + second == |both|
            && Feasible(both) && Maximal(both, Arranged(r1, trial) + Arranged(r2, trial))
  {
    var caps := new Caps();
    first := caps.Select(r1, trial);
    second := caps.Select(r2, trial);
    WalkConcat(Unused, Arranged(r1, trial), Arranged(r2, trial));
    WalkIsMaximal(Arranged(r1, trial) + Arranged(r2, trial));
    hide Walk, Arranged, Feasible, Maximal;
  }

  /** The same candidates in any order are selected alike. */
  lemma SelectionIgnoresOrder(caps: Usage, s: seq<Candidate>, t: seq<Candidate>, trial: U64)
    requires multiset(s) == multiset(t) && DistinctHashes(multiset(s))
    ensures Walk(caps, Arranged(s, trial)) == Walk(caps, Arranged(t, trial))
  {
    ArrangedIgnoresOrder(s, t, trial);
  }

  // ------------------------------------------------------- the factor is reached

  lemma {:induction false} NobodyAdmitted(caps: Usage, s: seq<Candidate>)
    requires forall r :: r in s ==> !caps.Admits(r)
    ensures Walk(caps, s) == (caps, [])
  {
    if s != [] {
      NobodyAdmitted(caps, s[..|s| - 1]);
    }
  }

  function Sample(code: string, submitter: string): Candidate {
    PilotRecord("0123456789abcdef", 0, 1, 1, submitter, Some(""), Some(code), None)
  }

  /** Walking `t` from `start`, everyone was accepted; `s` had been accepted before. */
  ghost predicate AllAccepted(start: Usage, s: seq<Candidate>, t: seq<Candidate>, caps: Usage) {
    Walk(start, t) == (caps, t) && Records(caps, s + t) && Feasible(s + t)
  }

  lemma AcceptOne(start: Usage, s: seq<Candidate>, t: seq<Candidate>, caps: Usage, r: Candidate)
    requires AllAccepted(start, s, t, caps) && caps.Admits(r)
    ensures AllAccepted(start, s, t + [r], caps.Admit(r))
  {
    assert (t + [r])[..|t + [r]| - 1] == t;
    AdmittedIsRecorded(caps, s + t, r);
    assert s + t + [r] == s + (t + [r]);
    hide Records, Feasible;
  }

  /** Three new codes from a submitter not seen yet are all accepted. */
  lemma ThreeAccepted(start: Usage, s: seq<Candidate>, x: string, c1: string, c2: string, c3: string)
    returns (after: Usage)
    requires AllAccepted(start, s, [], start) && start.Used(x) == 0
    requires c1 !in start.codes && c2 !in start.codes && c3 !in start.codes && c1 != c2 && c1 != c3 && c2 != c3
    ensures AllAccepted(start, s, Three(x, c1, c2, c3), after)
    ensures after.codes == start.codes + {c1, c2, c3}
    ensures forall y :: after.Used(y) == if y == x then 3 else start.Used(y)
  {
    hide AllAccepted;
    var r1, r2, r3 := Sample(c1, x), Sample(c2, x), Sample(c3, x);
    var caps1 := start.Admit(r1);
    var caps2 := caps1.Admit(r2);
    after := caps2.Admit(r3);
    AcceptOne(start, s, [], start, r1);
    AcceptOne(start, s, [] + [r1], caps1, r2);
    AcceptOne(start, s, [] + [r1] + [r2], caps2, r3);
    assert [] + [r1] + [r2] + [r3] == [r1, r2, r3];
  }

  lemma StartAgain(start: Usage, s: seq<Candidate>, t: seq<Candidate>, caps: Usage)
    requires AllAccepted(start, s, t, caps)
    ensures AllAccepted(caps, s + t, [], caps)
  {
    assert s + t + [] == s + t;
    hide Records, Feasible;
  }

  lemma AcceptedInAll(start: Usage, s: seq<Candidate>, t: seq<Candidate>, caps: Usage)
    requires AllAccepted(start, s, t, caps)
    ensures Walk(start, t) == (caps, t) && Feasible(s + t)
  {
    hide Walk, Records, Feasible;
  }

  /** Twice as many of the candidates as the walk accepts would have obeyed the caps. */
  ghost predicate Halved(s: seq<Candidate>, best: seq<Candidate>) {
    Feasible(best) && (forall r :: r in best ==> r in s) && |best| == 2 * |Walk(Unused, s).1| == 6
  }

  lemma Reached(first: seq<Candidate>, after: Usage, best: seq<Candidate>)
    requires |first| == 3 && |best| == 6 && Feasible(best)
    requires Walk(Unused, first) == (after, first) && Walk(after, best) == (after, [])
    ensures Halved(first + best, best)
  {
    WalkConcat(Unused, first, best);
    assert first + [] == first;
    hide Walk, Feasible;
  }

  function Three(x: string, c1: string, c2: string, c3: string): seq<Candidate> {
    [Sample(c1, x), Sample(c2, x), Sample(c3, x)]
  }

  lemma NothingYet()
    ensures AllAccepted(Unused, [], [], Unused) && Unused.codes == {} && forall x :: Unused.Used(x) == 0
  {
  }

  lemma AllDifferent(c: seq<string>)
    requires |c| == 6 && Distinct(c)
    ensures c[0] != c[1] && c[0] != c[2] && c[1] != c[2] && c[3] != c[4] && c[3] != c[5] && c[4] != c[5]
    ensures {c[0], c[1], c[2]} !! {c[3], c[4], c[5]}
  {
  }

  /** What the first submitter's samples leave. */
  lemma FirstThree(x: string, c: seq<string>) returns (after: Usage)
    requires |c| == 6 && Distinct(c)
    ensures Walk(Unused, Three(x, c[0], c[1], c[2])) == (after, Three(x, c[0], c[1], c[2]))
    ensures after.codes == {c[0], c[1], c[2]} && after.Used(x) == 3
  {
    NothingYet();
    AllDifferent(c);
    hide *;
    after := ThreeAccepted(Unused, [], x, c[0], c[1], c[2]);
    AcceptedInAll(Unused, [], Three(x, c[0], c[1], c[2]), after);
  }

  /** They keep the six others out. */
  lemma KeptOut(caps: Usage, x: string, y: string, c: seq<string>)
    requires |c| == 6 && caps.codes == {c[0], c[1], c[2]} && caps.Used(x) == 3
    ensures Walk(caps, Three(y, c[0], c[1], c[2]) + Three(x, c[3], c[4], c[5])) == (caps, [])
  {
    hide Walk;
    NobodyAdmitted(caps, Three(y, c[0], c[1], c[2]) + Three(x, c[3], c[4], c[5]));
  }

  lemma OtherSix(x: string, y: string, c: seq<string>)
    requires x != y && |c| == 6 && Distinct(c)
    ensures Feasible(Three(y, c[0], c[1], c[2]) + Three(x, c[3], c[4], c[5]))
  {
    NothingYet();
    AllDifferent(c);
    hide *;
    var s, t := Three(y, c[0], c[1], c[2]), Three(x, c[3], c[4], c[5]);
    var half := ThreeAccepted(Unused, [], y, c[0], c[1], c[2]);
    StartAgain(Unused, [], s, half);
    assert [] + s == s;
    var full := ThreeAccepted(half, s, x, c[3], c[4], c[5]);
    AcceptedInAll(half, s, t, full);
  }

  /** One submitter's three samples can keep out six others: the factor is exact. */
  lemma TwiceIsReached(x: string, y: string, c: seq<string>)
    requires x != y && |c| == 6 && Distinct(c)
    ensures exists s, best :: Halved(s, best)
  {
    var after := FirstThree(x, c);
    KeptOut(after, x, y, c);
    OtherSix(x, y, c);
    hide Walk, Records, Feasible, Halved, Distinct;
    Reached(Three(x, c[0], c[1], c[2]), after, Three(y, c[0], c[1], c[2]) + Three(x, c[3], c[4], c[5]));
  }
}
