/**
 Drawing ledgers: one from each stratum of a window
 (crates/soroban-failure-rpc/examples/survey_failures.rs:183-194), and the first
 k of a shuffle (crates/soroban-failure-rpc/examples/pilot_report.rs:366-373).
 What is proved holds whatever the generator returns.
 */
module Sampling {
  import opened Common
  import opened Soroban
  import opened SplitMix

  // ------------------------------------------------------------- one per stratum

  function Stratum(lo: U64, hi: U64, count: nat): (s: nat)
    ensures s >= 1
  {
    var span := Max(Max(hi - lo, 0), 1);
    Max(span / Max(count, 1), 1)
  }

  /** The place drawn in stratum `i`, before it is clamped to the window. */
  function Drawn(lo: U64, hi: U64, count: nat, i: nat, draw: U64): nat {
    var stratum := Stratum(lo, hi, count);
    lo + i * stratum + draw % stratum
  }

  function Pick(lo: U64, hi: U64, count: nat, i: nat, draw: U64): (r: U64)
    ensures r <= hi
  {
    Min(Drawn(lo, hi, count, i, draw), hi)
  }

  const TWO_64 := 0x1_0000_0000_0000_0000

  /** `None` is the panic on a 64-bit overflow. */
  method StratifiedLedgers(rng: Generator, lo: U64, hi: U64, count: U64) returns (r: Option<seq<U64>>)
    modifies rng
    ensures r.None? <==> exists i: nat :: i < count && Drawn(lo, hi, count, i, Output(old(rng.state), i)) >= TWO_64
    ensures r.Some? ==>
              && |r.value| == count && rng.state == After(old(rng.state), count)
              && forall i :: 0 <= i < count ==> r.value[i] == Pick(lo, hi, count, i, Output(old(rng.state), i))
  {
    hide Mix, Advance, Pick;
    var stratum := Stratum(lo, hi, count);
    var out: seq<U64> := [];
    ghost var seed := rng.state;
    for i := 0 to count
      invariant |out| == i && rng.state == After(seed, i)
      invariant forall k :: 0 <= k < i ==> Drawn(lo, hi, count, k, Output(seed, k)) < TWO_64
      invariant forall k :: 0 <= k < i ==> out[k] == Pick(lo, hi, count, k, Output(seed, k))
    {
      var base := lo + i * stratum;
      var draw := rng.Next();
      assert base + draw % stratum == Drawn(lo, hi, count, i, Output(seed, i));
      if base >= TWO_64 || base + draw % stratum >= TWO_64 {
        return None;
      }
      assert Min(base + draw % stratum, hi) == Pick(lo, hi, count, i, Output(seed, i)) by {
        Picked(lo, hi, count, i, draw);
      }
      out := out + [Min(base + draw % stratum, hi)];
    }
    r := Some(out);
  }

  lemma Picked(lo: U64, hi: U64, count: nat, i: nat, draw: U64)
    ensures Pick(lo, hi, count, i, draw) == Min(Drawn(lo, hi, count, i, draw), hi)
  {
  }

  /** No draw overflows exactly when the strata fit in the window, or ledgers of their own fit below 2^64. */
  lemma NoOverflow(lo: U64, hi: U64, count: nat)
    ensures (forall i: nat, draw: U64 :: i < count ==> Drawn(lo, hi, count, i, draw) < TWO_64)
            <==> count <= hi - lo || lo + count <= TWO_64
  {
    if count <= hi - lo || lo + count <= TWO_64 {
      forall i: nat, draw: U64 | i < count
        ensures Drawn(lo, hi, count, i, draw) < TWO_64
      {
        StratumFits(lo, hi, count);
        var stratum := Stratum(lo, hi, count);
        hide Stratum;
        Within(i, stratum, draw % stratum, count);
      }
    } else {
      LastOverflows(lo, hi, count);
    }
  }

  lemma LastOverflows(lo: U64, hi: U64, count: nat)
    requires count > hi - lo && lo + count > TWO_64
    ensures count > 1 && Drawn(lo, hi, count, count - 1, 0) >= TWO_64
  {
    StratumIsOne(lo, hi, count);
  }

  lemma Ordered(a: nat, b: nat, s: nat)
    requires a <= b
    ensures a * s <= b * s
  {
    assert b * s == a * s + (b - a) * s;
  }

  lemma Within(i: nat, s: nat, d: nat, count: nat)
    requires i < count && d < s
    ensures i * s + d < (i + 1) * s <= count * s
  {
    Ordered(i + 1, count, s);
    assert (i + 1) * s == i * s + s;
  }

  lemma Quotient(span: nat, count: nat)
    requires 1 <= count <= span
    ensures 1 <= span / count && span / count <= span && count * (span / count) <= span
  {
    var q := span / count;
    assert span == count * q + span % count;
    assert count * 0 == 0;
    assert q != 0;
    Ordered(1, count, q);
  }

  lemma StratumFits(lo: U64, hi: U64, count: nat)
    ensures var s, span := Stratum(lo, hi, count), Max(Max(hi - lo, 0), 1);
            && s <= span && count * s <= Max(span, count)
            && (1 <= count <= span ==> s == span / count && count * s <= span)
  {
    var span := Max(Max(hi - lo, 0), 1);
    if 1 <= count <= span {
      Quotient(span, count);
    } else if count > span {
      NoQuotient(span, count);
      assert count * 1 == count;
    }
  }

  lemma NoQuotient(span: nat, count: nat)
    requires span < count
    ensures span / count == 0
  {
  }

  /** The ledgers drawn when the generator returns `draws`. */
  function Picks(lo: U64, hi: U64, draws: seq<U64>): seq<nat> {
    seq(|draws|, (i: nat) requires i < |draws| => Pick(lo, hi, |draws|, i, draws[i]))
  }

  ghost predicate Increasing(s: seq<nat>) {
    forall i, j :: 0 <= i < j < |s| ==> s[i] < s[j]
  }

  /** While the window has room, each stratum gives one ledger and none is clamped. */
  lemma OnePerStratum(lo: U64, hi: U64, draws: seq<U64>, i: nat)
    requires i < |draws| <= hi - lo
    ensures var stratum := Stratum(lo, hi, |draws|);
            lo + i * stratum <= Picks(lo, hi, draws)[i] < lo + (i + 1) * stratum <= hi
  {
    var stratum := Stratum(lo, hi, |draws|);
    StratumFits(lo, hi, |draws|);
    hide Stratum;
    Within(i, stratum, draws[i] % stratum, |draws|);
  }

  /** The window is cut into `count` strata as long as can be, if it has that many ledgers. */
  lemma StrataFillTheWindow(lo: U64, hi: U64, count: nat)
    requires 1 <= count <= hi - lo
    ensures var stratum := Stratum(lo, hi, count);
            count * stratum <= hi - lo < count * (stratum + 1)
  {
    var span, q := hi - lo, (hi - lo) / count;
    StratumFits(lo, hi, count);
    assert span == count * q + span % count;
    assert count * (q + 1) == count * q + count;
  }

  /** Every ledger of a stratum, as far as the window goes, is picked from some seed. */
  lemma EveryLedgerIsPicked(lo: U64, hi: U64, count: nat, i: nat, ledger: U64) returns (seed: U64)
    requires i < count && lo + i * Stratum(lo, hi, count) <= ledger < lo + (i + 1) * Stratum(lo, hi, count)
    requires ledger <= hi
    ensures Pick(lo, hi, count, i, Output(seed, i)) == ledger
  {
    var stratum := Stratum(lo, hi, count);
    hide Stratum, Output;
    assert (i + 1) * stratum == i * stratum + stratum;
    var draw := ledger - (lo + i * stratum);
    seed := SeedFor(i, draw);
    SmallRemainder(draw, stratum);
  }

  lemma SmallRemainder(d: nat, m: nat)
    requires d < m
    ensures d % m == d
  {
  }

  lemma SpreadOut(lo: U64, hi: U64, draws: seq<U64>)
    requires |draws| <= hi - lo
    ensures Increasing(Picks(lo, hi, draws))
  {
    var n := |draws|;
    var picks, stratum := Picks(lo, hi, draws), Stratum(lo, hi, n);
    forall i, j | 0 <= i < j < n
      ensures picks[i] < picks[j]
    {
      OnePerStratum(lo, hi, draws, i);
      OnePerStratum(lo, hi, draws, j);
      hide *;
      Ordered(i + 1, j, stratum);
    }
  }

  /** With strata of one ledger, the draws do not matter. */
  lemma EachItsOwn(lo: U64, hi: U64, draws: seq<U64>, i: nat)
    requires |draws| > 1 && |draws| > hi - lo && i < |draws|
    ensures Picks(lo, hi, draws)[i] == Min(lo + i, hi)
  {
    StratumIsOne(lo, hi, |draws|);
    hide Stratum;
    assert draws[i] % 1 == 0;
  }

  /** The ledgers are strictly increasing, so all different, exactly when they fit in the window. */
  lemma IncreasingExactly(lo: U64, hi: U64, draws: seq<U64>)
    ensures Increasing(Picks(lo, hi, draws)) <==> |draws| <= 1 || |draws| <= hi - lo + 1
  {
    var n := |draws|;
    var picks := Picks(lo, hi, draws);
    if n <= hi - lo {
      SpreadOut(lo, hi, draws);
    } else if 1 < n {
      forall i | 0 <= i < n
        ensures picks[i] == Min(lo + i, hi)
      {
        EachItsOwn(lo, hi, draws, i);
      }
      hide Picks;
      if n > hi - lo + 1 {
        assert picks[n - 1] == hi && picks[n - 2] == hi;
      }
    }
  }

  lemma StratumIsOne(lo: U64, hi: U64, count: nat)
    requires count > 1 && count > hi - lo
    ensures Stratum(lo, hi, count) == 1
  {
    var span := Max(Max(hi - lo, 0), 1);
    NoQuotient(span, count);
  }

  // ------------------------------------------------------------------ the shuffle

  function Swap<T>(s: seq<T>, i: nat, j: nat): (r: seq<T>)
    requires i < |s| && j < |s|
    ensures |r| == |s|
  {
    s[i := s[j]][j := s[i]]
  }

  /** Position `i` is swapped with one not before it. */
  ghost predicate Legal(js: seq<nat>, n: nat) {
    |js| <= n && forall i :: 0 <= i < |js| ==> i <= js[i] < n
  }

  function Shuffled<T>(pool: seq<T>, js: seq<nat>): (r: seq<T>)
    requires Legal(js, |pool|)
    ensures |r| == |pool|
  {
    if js == [] then pool
    else
      var i := |js| - 1;
      Swap(Shuffled(pool, js[..i]), i, js[i])
  }

  /** Where the swaps go, for the numbers the generator gives. */
  function Targets(seed: U64, n: nat, k: nat): (js: seq<nat>)
    requires k <= n
    ensures |js| == k && Legal(js, n)
  {
    seq(k, (i: nat) requires i < k => i + Output(seed, i) % (n - i))
  }

  /** Every place not before `i` is where swap `i` goes from some seed. */
  lemma EveryTargetIsDrawn(n: nat, i: nat, j: nat) returns (seed: U64)
    requires i <= j < n <= TWO_64
    ensures Targets(seed, n, i + 1)[i] == j
  {
    hide Targets, Output;
    seed := SeedFor(i, j - i);
    TargetIs(seed, n, i + 1, i);
    SmallRemainder(j - i, n - i);
  }

  lemma TargetIs(seed: U64, n: nat, k: nat, i: nat)
    requires i < k <= n
    ensures Targets(seed, n, k)[i] == i + Output(seed, i) % (n - i)
  {
    hide Output;
  }

  method PartialShuffle(rng: Generator, pool: array<nat>, k: nat)
    requires k <= pool.Length
    modifies rng, pool
    ensures pool[..] == Shuffled(old(pool[..]), Targets(old(rng.state), pool.Length, k))
    ensures rng.state == After(old(rng.state), k)
  {
    hide Mix, Advance;
    ghost var seed, n := rng.state, pool.Length;
    assert Targets(seed, n, 0) == [];
    for i := 0 to k
      invariant rng.state == After(seed, i)
      invariant pool[..] == Shuffled(old(pool[..]), Targets(seed, n, i))
    {
      var r := rng.Next();
      var j := i + r % (pool.Length - i);
      pool[i], pool[j] := pool[j], pool[i];
      assert Targets(seed, n, i + 1)[..i] == Targets(seed, n, i);
    }
  }

  lemma {:induction false} ShuffledIsAPermutation<T>(pool: seq<T>, js: seq<nat>)
    requires Legal(js, |pool|)
    ensures multiset(Shuffled(pool, js)) == multiset(pool)
    ensures Distinct(pool) ==> Distinct(Shuffled(pool, js))
  {
    if js != [] {
      var i := |js| - 1;
      ShuffledIsAPermutation(pool, js[..i]);
      SwapIsAPermutation(Shuffled(pool, js[..i]), i, js[i]);
    }
  }

  lemma SwapIsAPermutation<T>(s: seq<T>, i: nat, j: nat)
    requires i < |s| && j < |s|
    ensures multiset(Swap(s, i, j)) == multiset(s)
    ensures Distinct(s) ==> Distinct(Swap(s, i, j))
  {
  }

  /** What is drawn first stays where it is, and the last draw comes from what was left. */
  lemma DrawnStays<T>(pool: seq<T>, js: seq<nat>)
    requires Legal(js, |pool|) && js != []
    ensures var n := |js| - 1;
            && Legal(js[..n], |pool|) && js[n] < |pool|
            && Shuffled(pool, js)[..n + 1]
               == Shuffled(pool, js[..n])[..n] + [Shuffled(pool, js[..n])[js[n]]]
  {
    var n := |js| - 1;
    var r := Shuffled(pool, js[..n]);
    assert Shuffled(pool, js) == Swap(r, n, js[n]);
    hide Shuffled;
    SwapPrefix(r, n, js[n]);
  }

  lemma SwapPrefix<T>(s: seq<T>, i: nat, j: nat)
    requires i <= j < |s|
    ensures Swap(s, i, j)[..i + 1] == s[..i] + [s[j]]
  {
  }

  lemma SameIndex<T>(s: seq<T>, i: nat, j: nat)
    requires Distinct(s) && i < |s| && j < |s| && s[i] == s[j]
    ensures i == j
  {
  }

  lemma LastOfEach<T>(a: seq<T>, x: T, b: seq<T>, y: T)
    requires a + [x] == b + [y]
    ensures a == b && x == y
  {
    var s, t := a + [x], b + [y];
    assert |s| == |t| && s[..|a|] == t[..|b|] && s[|a|] == t[|b|];
  }

  /** Different draws give different prefixes. */
  lemma {:induction false} ArrangementOnce<T>(pool: seq<T>, js: seq<nat>, ks: seq<nat>)
    requires Distinct(pool) && Legal(js, |pool|) && Legal(ks, |pool|) && |js| == |ks|
    requires Shuffled(pool, js)[..|js|] == Shuffled(pool, ks)[..|ks|]
    ensures js == ks
  {
    if js != [] {
      hide Shuffled, Legal, Distinct;
      var n := |js| - 1;
      DrawnStays(pool, js);
      DrawnStays(pool, ks);
      var a, b := Shuffled(pool, js[..n]), Shuffled(pool, ks[..n]);
      LastOfEach(a[..n], a[js[n]], b[..n], b[ks[n]]);
      ArrangementOnce(pool, js[..n], ks[..n]);
      ShuffledIsAPermutation(pool, js[..n]);
      SameIndex(a, js[n], ks[n]);
      assert js == js[..n] + [js[n]] && ks == ks[..n] + [ks[n]];
    }
  }

  /** Every arrangement of distinct elements of the pool is drawn by some draws. */
  lemma {:induction false} ArrangementDrawn<T>(pool: seq<T>, chosen: seq<T>) returns (js: seq<nat>)
    requires Distinct(pool) && Distinct(chosen) && forall x :: x in chosen ==> x in pool
    ensures Legal(js, |pool|) && |js| == |chosen| && Shuffled(pool, js)[..|chosen|] == chosen
  {
    if chosen == [] {
      js := [];
    } else {
      var n := |chosen| - 1;
      assert chosen == chosen[..n] + [chosen[n]];
      var earlier := ArrangementDrawn(pool, chosen[..n]);
      var p := NextDraw(pool, earlier, chosen[..n], chosen[n]);
      js := earlier + [p];
      hide Shuffled;
      assert js[..n] == earlier;
      DrawnStays(pool, js);
    }
  }

  /** An element not drawn yet is still in the undrawn part. */
  lemma NextDraw<T>(pool: seq<T>, js: seq<nat>, drawn: seq<T>, x: T) returns (p: nat)
    requires Legal(js, |pool|) && Shuffled(pool, js)[..|js|] == drawn
    requires x in pool && x !in drawn
    ensures |js| <= p < |pool| && Shuffled(pool, js)[p] == x
  {
    var r := Shuffled(pool, js);
    ShuffledIsAPermutation(pool, js);
    hide Shuffled;
    assert x in multiset(pool);
    assert x in multiset(r);
    assert forall i :: 0 <= i < |js| ==> r[i] == drawn[i] && drawn[i] in drawn;
    p :| 0 <= p < |r| && r[p] == x;
  }

  /** Each arrangement of k elements comes from exactly one choice of draws. */
  lemma ArrangementsAreDrawnOnce<T>(pool: seq<T>, chosen: seq<T>)
    requires Distinct(pool) && Distinct(chosen) && forall x :: x in chosen ==> x in pool
    ensures exists js :: Draws(pool, js, chosen) && forall ks :: Draws(pool, ks, chosen) ==> ks == js
  {
    var js := ArrangementDrawn(pool, chosen);
    assert Draws(pool, js, chosen);
    forall ks | Draws(pool, ks, chosen)
      ensures ks == js
    {
      ArrangementOnce(pool, ks, js);
    }
  }

  ghost predicate Draws<T>(pool: seq<T>, js: seq<nat>, chosen: seq<T>) {
    Legal(js, |pool|) && |js| == |chosen| && Shuffled(pool, js)[..|js|] == chosen
  }

  /** The first k ledgers drawn are k different ledgers of the pool. */
  lemma PrefixIsASample<T>(pool: seq<T>, js: seq<nat>)
    requires Distinct(pool) && Legal(js, |pool|)
    ensures var sample := Shuffled(pool, js)[..|js|];
            Distinct(sample) && forall x :: x in sample ==> x in pool
  {
    ShuffledIsAPermutation(pool, js);
    var r := Shuffled(pool, js);
    forall x | x in r[..|js|]
      ensures x in pool
    {
      assert x in multiset(r);
    }
  }
}
