/** The element type the server hashes: the enclosing struct and its embedded
    UT_hash_handle as one object. `key` never changes while the object lives. */
module Elements {
  import opened Bits

  class Elem {
    const key: string
    var value: string
    var creator: int

    var hashv: nat      // hash of the key, filled in by the adds
    var prev: Elem?     // application order
    var next: Elem?
    var hhPrev: Elem?   // order within the bucket
    var hhNext: Elem?

    constructor (key: string, value: string, creator: int)
      ensures this.key == key && this.value == value && this.creator == creator
    {
      this.key, this.value, this.creator := key, value, creator;
    }
  }

  /** HASH_FUNCTION: any function from key bytes to 32-bit words. */
  type HashFn = string -> Word

  /** The element at position `i`, NULL outside the list. */
  function At(s: seq<Elem>, i: int): Elem? {
    if 0 <= i < |s| then s[i] else null
  }

  ghost predicate Distinct(s: seq<Elem>) {
    forall i, j :: 0 <= i < j < |s| ==> s[i] != s[j]
  }

  ghost predicate Inside(s: seq<Elem>, S: set<Elem>) {
    forall i :: 0 <= i < |s| ==> s[i] in S
  }

  /** `next` leads through `s` and then ends. */
  ghost predicate AppRuns(s: seq<Elem>)
    reads s`next
  {
    forall i {:trigger s[i].next} :: 0 <= i < |s| ==> s[i].next == At(s, i + 1)
  }
}

/** The bucket part of the hash table as a value, and what adds, deletes and
    expansions do to it. */
module HashSpec {
  import opened Bits
  import opened Elements

  const INITIAL_LOG2: nat := 5          // HASH_INITIAL_NUM_BUCKETS_LOG2
  const CAPACITY_THRESH: nat := 10      // HASH_BKT_CAPACITY_THRESH

  datatype Tbl = Tbl(
    lg: nat,                  // log2_num_buckets
    chains: seq<seq<Elem>>,   // the bucket chains, head first
    mult: seq<nat>,           // expand_mult of each bucket
    items: nat,               // num_items
    ideal: nat,               // ideal_chain_maxlen
    nonideal: nat,            // nonideal_items
    ineff: nat,               // ineff_expands
    noexpand: bool)

  /** HASH_TO_BKT */
  function Bkt(hashv: nat, lg: nat): nat {
    And(hashv, Pow2(lg) - 1)
  }

  function Repeat<T>(n: nat, x: T): seq<T> { seq(n, _ => x) }

  /** HASH_MAKE_TABLE */
  function EmptyTbl(): (t: Tbl)
    ensures |t.chains| == |t.mult| == Pow2(t.lg)
  {
    Tbl(INITIAL_LOG2, Repeat(Pow2(INITIAL_LOG2), []), Repeat(Pow2(INITIAL_LOG2), 0), 0, 0, 0, 0, false)
  }

  function SumLen(cs: seq<seq<Elem>>): nat {
    if cs == [] then 0 else SumLen(cs[..|cs| - 1]) + |cs[|cs| - 1]|
  }

  /** Every element sits in the bucket its hash selects, once. */
  ghost predicate Placed(hf: HashFn, lg: nat, cs: seq<seq<Elem>>) {
    && (forall b :: 0 <= b < |cs| ==> Distinct(cs[b]))
    && (forall b, i {:trigger cs[b][i]} :: 0 <= b < |cs| && 0 <= i < |cs[b]| ==> Bkt(hf(cs[b][i].key), lg) == b)
  }

  ghost predicate Wf(hf: HashFn, t: Tbl) {
    && |t.chains| == Pow2(t.lg) == |t.mult|
    && Placed(hf, t.lg, t.chains)
    && SumLen(t.chains) == t.items
  }

  lemma WfParts(hf: HashFn, t: Tbl)
    requires Wf(hf, t)
    ensures |t.chains| == Pow2(t.lg) == |t.mult| && Placed(hf, t.lg, t.chains)
  {
  }

  // ----- expansion

  /** The elements of `c` that hash to bucket `b` of `2^lg`, last first: what is
      left in a new bucket after the elements of `c` were pushed on it in turn. */
  function Moved(hf: HashFn, lg: nat, c: seq<Elem>, b: nat): seq<Elem> {
    if c == [] then []
    else
      var e, r := c[|c| - 1], Moved(hf, lg, c[..|c| - 1], b);
      if Bkt(hf(e.key), lg) == b then [e] + r else r
  }

  /** expand_mult of a new bucket that received `count` elements. */
  function MultOf(count: nat, ideal: nat): nat {
    if count == 0 then 0
    else
      var m := MultOf(count - 1, ideal);
      if count > ideal && count > m * ideal then m + 1 else m
  }

  function Excess(count: nat, ideal: nat): nat {
    if count > ideal then count - ideal else 0
  }

  function SumExcess(cs: seq<seq<Elem>>, ideal: nat): nat {
    if cs == [] then 0 else SumExcess(cs[..|cs| - 1], ideal) + Excess(|cs[|cs| - 1]|, ideal)
  }

  /** The old bucket that new bucket `b` draws from. */
  function Source(b: nat, n: nat): nat { if b < n then b else b - n }

  /** The new buckets once old buckets below `i` and the first `k` elements of
      bucket `i` have been moved. */
  function MovedChains(hf: HashFn, lg: nat, cs: seq<seq<Elem>>, i: nat, k: nat): (m: seq<seq<Elem>>)
    requires i < |cs| ==> k <= |cs[i]|
    ensures |m| == 2 * |cs|
  {
    var n := |cs|;
    seq(2 * n, b requires 0 <= b < 2 * n =>
      var s := Source(b, n);
      if s < i then Moved(hf, lg, cs[s], b) else if s == i then Moved(hf, lg, cs[s][..k], b) else [])
  }

  function Mults(cs: seq<seq<Elem>>, ideal: nat): seq<nat> {
    seq(|cs|, b requires 0 <= b < |cs| => MultOf(|cs[b]|, ideal))
  }

  /** ideal_chain_maxlen for `2^lg` buckets, by shift and mask. */
  function IdealLen(items: nat, lg: nat): nat {
    Shr(items, lg) + (if And(items, Pow2(lg) - 1) != 0 then 1 else 0)
  }

  /** HASH_EXPAND_BUCKETS */
  function Expand(hf: HashFn, t: Tbl): Tbl {
    var cs := MovedChains(hf, t.lg + 1, t.chains, |t.chains|, 0);
    var ideal := IdealLen(t.items, t.lg + 1);
    var nonideal := SumExcess(cs, ideal);
    var ineff := if nonideal > Shr(t.items, 1) then t.ineff + 1 else 0;
    Tbl(t.lg + 1, cs, Mults(cs, ideal), t.items, ideal, nonideal, ineff, ineff > 1 || t.noexpand)
  }

  // ----- lookups

  /** A search of the application list from its head. */
  function LinearFind(s: seq<Elem>, key: string): Elem? {
    if s == [] then null else if s[0].key == key then s[0] else LinearFind(s[1..], key)
  }

  ghost predicate UniqueKeys(s: seq<Elem>) {
    forall i, j :: 0 <= i < j < |s| ==> s[i].key != s[j].key
  }

  lemma {:induction false} LinearFindUnique(s: seq<Elem>, key: string, i: nat)
    requires UniqueKeys(s) && i < |s| && s[i].key == key
    ensures LinearFind(s, key) == s[i]
  {
    if i > 0 { LinearFindUnique(s[1..], key, i - 1); }
  }

  lemma {:induction false} LinearFindNone(s: seq<Elem>, key: string)
    requires forall i :: 0 <= i < |s| ==> s[i].key != key
    ensures LinearFind(s, key) == null
  {
    if s != [] { LinearFindNone(s[1..], key); }
  }

  // ----- adds and deletes

  /** The element is at the front of its bucket, nothing has expanded yet. */
  function Pushed(hf: HashFn, t: Tbl, e: Elem): Tbl
    requires Bkt(hf(e.key), t.lg) < |t.chains|
  {
    var b := Bkt(hf(e.key), t.lg);
    t.(chains := t.chains[b := [e] + t.chains[b]], items := t.items + 1)
  }

  /** The test at the end of HASH_ADD_TO_BKT. */
  predicate MustExpand(t: Tbl, b: nat)
    requires b < |t.chains| && b < |t.mult|
  {
    |t.chains[b]| >= (t.mult[b] + 1) * CAPACITY_THRESH && !t.noexpand
  }

  predicate AddReady(hf: HashFn, t: Tbl, e: Elem) {
    Bkt(hf(e.key), t.lg) < |t.chains| == |t.mult|
  }

  /** HASH_ADD_TO_TABLE */
  function Add(hf: HashFn, t: Tbl, e: Elem): Tbl
    requires AddReady(hf, t, e)
  {
    var p := Pushed(hf, t, e);
    if MustExpand(p, Bkt(hf(e.key), t.lg)) then Expand(hf, p) else p
  }

  function Without(c: seq<Elem>, e: Elem): seq<Elem> {
    if c == [] then [] else if c[0] == e then c[1..] else [c[0]] + Without(c[1..], e)
  }

  /** HASH_DEL_IN_BKT and the count of HASH_DELETE_HH */
  function Del(hf: HashFn, t: Tbl, e: Elem): Tbl
    requires Bkt(hf(e.key), t.lg) < |t.chains| && t.items > 0
  {
    var b := Bkt(hf(e.key), t.lg);
    t.(chains := t.chains[b := Without(t.chains[b], e)], items := t.items - 1)
  }

  // ----- sums over buckets

  lemma {:induction false} SumLenUpdate(cs: seq<seq<Elem>>, b: nat, c: seq<Elem>)
    requires b < |cs|
    ensures SumLen(cs[b := c]) + |cs[b]| == SumLen(cs) + |c|
  {
    var n := |cs| - 1;
    if b < n {
      SumLenUpdate(cs[..n], b, c);
      assert cs[b := c][..n] == cs[..n][b := c];
    } else {
      assert cs[b := c][..n] == cs[..n];
    }
  }

  lemma {:induction false} SumExcessUpdate(cs: seq<seq<Elem>>, b: nat, c: seq<Elem>, ideal: nat)
    requires b < |cs|
    ensures SumExcess(cs[b := c], ideal) + Excess(|cs[b]|, ideal) == SumExcess(cs, ideal) + Excess(|c|, ideal)
  {
    var n := |cs| - 1;
    if b < n {
      SumExcessUpdate(cs[..n], b, c, ideal);
      assert cs[b := c][..n] == cs[..n][b := c];
    } else {
      assert cs[b := c][..n] == cs[..n];
    }
  }

  lemma {:induction false} SumsOfEmpty(cs: seq<seq<Elem>>, ideal: nat)
    requires forall b :: 0 <= b < |cs| ==> cs[b] == []
    ensures SumLen(cs) == 0 && SumExcess(cs, ideal) == 0
  {
    if cs != [] { SumsOfEmpty(cs[..|cs| - 1], ideal); }
  }

  lemma PlacedPush(hf: HashFn, lg: nat, cs: seq<seq<Elem>>, b: nat, e: Elem)
    requires Placed(hf, lg, cs) && b < |cs| && Bkt(hf(e.key), lg) == b && e !in cs[b]
    ensures Placed(hf, lg, cs[b := [e] + cs[b]])
  {
  }

  // ----- moving elements to the doubled table

  lemma {:induction false} MovedMembers(hf: HashFn, lg: nat, c: seq<Elem>, b: nat)
    ensures forall i :: 0 <= i < |Moved(hf, lg, c, b)| ==>
      Moved(hf, lg, c, b)[i] in c && Bkt(hf(Moved(hf, lg, c, b)[i].key), lg) == b
    ensures Distinct(c) ==> Distinct(Moved(hf, lg, c, b))
    ensures forall i :: 0 <= i < |c| && Bkt(hf(c[i].key), lg) == b ==> c[i] in Moved(hf, lg, c, b)
  {
    if c != [] {
      var e, d := c[|c| - 1], c[..|c| - 1];
      MovedMembers(hf, lg, d, b);
      assert c == d + [e];
      assert Distinct(c) ==> e !in d;
      forall i | 0 <= i < |c| && Bkt(hf(c[i].key), lg) == b ensures c[i] in Moved(hf, lg, c, b) {
        if i < |d| { assert d[i] in Moved(hf, lg, d, b); }
      }
    }
  }

  /** A doubled table sends the elements of old bucket `i` to `i` or `i + n` only. */
  lemma SplitSource(hf: HashFn, lg: nat, e: Elem)
    ensures Bkt(hf(e.key), lg) < Pow2(lg) && Bkt(hf(e.key), lg + 1) < 2 * Pow2(lg)
    ensures Source(Bkt(hf(e.key), lg + 1), Pow2(lg)) == Bkt(hf(e.key), lg)
  {
    AndDoubleMask(hf(e.key), lg);
  }

  lemma MovedStep(hf: HashFn, lg: nat, cs: seq<seq<Elem>>, i: nat, k: nat)
    requires |cs| == Pow2(lg) && Placed(hf, lg, cs) && i < |cs| && k < |cs[i]|
    ensures Bkt(hf(cs[i][k].key), lg + 1) < 2 * |cs|
    ensures var m, b := MovedChains(hf, lg + 1, cs, i, k), Bkt(hf(cs[i][k].key), lg + 1);
            MovedChains(hf, lg + 1, cs, i, k + 1) == m[b := [cs[i][k]] + m[b]]
  {
    var n, e, c := |cs|, cs[i][k], cs[i];
    SplitSource(hf, lg, e);
    var b := Bkt(hf(e.key), lg + 1);
    assert Source(b, n) == i;
    assert c[..k + 1][..k] == c[..k] && c[..k + 1][k] == e;
    var m, m' := MovedChains(hf, lg + 1, cs, i, k), MovedChains(hf, lg + 1, cs, i, k + 1);
    forall d | 0 <= d < 2 * n ensures m'[d] == m[b := [e] + m[b]][d] {
      if Source(d, n) == i {
        assert Moved(hf, lg + 1, c[..k + 1], d) ==
          if d == b then [e] + Moved(hf, lg + 1, c[..k], d) else Moved(hf, lg + 1, c[..k], d);
      }
    }
  }

  lemma MovedNextBucket(hf: HashFn, lg: nat, cs: seq<seq<Elem>>, i: nat)
    requires i < |cs|
    ensures MovedChains(hf, lg, cs, i, |cs[i]|) == MovedChains(hf, lg, cs, i + 1, 0)
  {
    assert cs[i][..|cs[i]|] == cs[i];
    forall b | 0 <= b < 2 * |cs|
      ensures MovedChains(hf, lg, cs, i, |cs[i]|)[b] == MovedChains(hf, lg, cs, i + 1, 0)[b]
    {
      var s := Source(b, |cs|);
      if s == i + 1 { assert cs[s][..0] == []; }
    }
  }

  lemma MovedStart(hf: HashFn, lg: nat, cs: seq<seq<Elem>>)
    ensures MovedChains(hf, lg, cs, 0, 0) == Repeat(2 * |cs|, [])
  {
    forall b | 0 <= b < 2 * |cs| ensures MovedChains(hf, lg, cs, 0, 0)[b] == [] {
      if Source(b, |cs|) == 0 { assert cs[0][..0] == []; }
    }
  }

  /** The partly filled new table is well placed, and holds only what was moved. */
  lemma MovedPlaced(hf: HashFn, lg: nat, cs: seq<seq<Elem>>, i: nat, k: nat)
    requires |cs| == Pow2(lg) && Placed(hf, lg, cs) && (i < |cs| ==> k <= |cs[i]|)
    ensures Placed(hf, lg + 1, MovedChains(hf, lg + 1, cs, i, k))
  {
    var m := MovedChains(hf, lg + 1, cs, i, k);
    forall b | 0 <= b < |m|
      ensures Distinct(m[b]) && forall j :: 0 <= j < |m[b]| ==> Bkt(hf(m[b][j].key), lg + 1) == b
    {
      var s := Source(b, |cs|);
      MovedMembers(hf, lg + 1, cs[s], b);
      if s == i { MovedMembers(hf, lg + 1, cs[s][..k], b); }
    }
  }

  /** The element about to be moved is not in its new bucket yet. */
  lemma MovedFresh(hf: HashFn, lg: nat, cs: seq<seq<Elem>>, i: nat, k: nat)
    requires |cs| == Pow2(lg) && Placed(hf, lg, cs) && i < |cs| && k < |cs[i]|
    ensures var b := Bkt(hf(cs[i][k].key), lg + 1);
            b < 2 * |cs| && cs[i][k] !in MovedChains(hf, lg + 1, cs, i, k)[b]
  {
    var e := cs[i][k];
    var b := Bkt(hf(e.key), lg + 1);
    SplitSource(hf, lg, e);
    MovedMembers(hf, lg + 1, cs[i][..k], b);
    assert e !in cs[i][..k];
  }

  // ----- every operation keeps the table well-formed

  lemma BktBound(hashv: nat, lg: nat)
    ensures Bkt(hashv, lg) < Pow2(lg)
  {
    AndDoubleMask(hashv, lg);
  }

  /** The bucket index is the hash modulo the number of buckets. */
  lemma BktIsMod(hashv: nat, lg: nat)
    ensures Bkt(hashv, lg) == hashv % Pow2(lg)
  {
    ShiftMaskSplit(hashv, lg);
    ModIs(hashv, Pow2(lg), Shr(hashv, lg), Bkt(hashv, lg));
  }

  lemma EmptyParts(hf: HashFn)
    ensures Wf(hf, EmptyTbl())
    ensures var t := EmptyTbl();
      && t.lg == INITIAL_LOG2 && |t.chains| == |t.mult| == Pow2(INITIAL_LOG2) == 32
      && (forall b :: 0 <= b < 32 ==> t.chains[b] == [] && t.mult[b] == 0)
      && t.items == t.ideal == t.nonideal == t.ineff == 0 && !t.noexpand
  {
    assert Pow2(5) == 2 * Pow2(4) && Pow2(4) == 2 * Pow2(3) && Pow2(3) == 2 * Pow2(2) && Pow2(2) == 4;
    SumsOfEmpty(EmptyTbl().chains, 0);
  }

  lemma PushedWf(hf: HashFn, t: Tbl, e: Elem)
    requires Wf(hf, t) && Bkt(hf(e.key), t.lg) < |t.chains| && e !in t.chains[Bkt(hf(e.key), t.lg)]
    ensures Wf(hf, Pushed(hf, t, e))
  {
    var b := Bkt(hf(e.key), t.lg);
    PlacedPush(hf, t.lg, t.chains, b, e);
    SumLenUpdate(t.chains, b, [e] + t.chains[b]);
  }

  /** What an add does: below the threshold it only puts the element in front of its chain, and it
      expands exactly if the chain reaches ten times expand_mult + 1 elements while expansion is on. */
  lemma AddExact(hf: HashFn, t: Tbl, e: Elem)
    requires Wf(hf, t) && AddReady(hf, t, e)
    ensures var t', b := Add(hf, t, e), Bkt(hf(e.key), t.lg);
      && t'.items == t.items + 1
      && if |t.chains[b]| + 1 >= (t.mult[b] + 1) * 10 && !t.noexpand then t'.lg == t.lg + 1
         else
           && t'.lg == t.lg && t'.mult == t.mult && t'.ideal == t.ideal && t'.nonideal == t.nonideal
           && t'.ineff == t.ineff && t'.noexpand == t.noexpand
           && t'.chains == t.chains[b := [e] + t.chains[b]]
  {
    hide Wf, MovedChains, Mults, SumExcess, IdealLen;
  }

  lemma {:induction false} MovedSum(hf: HashFn, lg: nat, cs: seq<seq<Elem>>, i: nat, k: nat)
    requires |cs| == Pow2(lg) && Placed(hf, lg, cs) && i <= |cs|
    requires if i < |cs| then k <= |cs[i]| else k == 0
    ensures SumLen(MovedChains(hf, lg + 1, cs, i, k)) == SumLen(cs[..i]) + k
    decreases i, k
  {
    hide MovedChains, Placed;
    if k > 0 {
      MovedSum(hf, lg, cs, i, k - 1);
      MovedStep(hf, lg, cs, i, k - 1);
      var m, b := MovedChains(hf, lg + 1, cs, i, k - 1), Bkt(hf(cs[i][k - 1].key), lg + 1);
      SumLenUpdate(m, b, [cs[i][k - 1]] + m[b]);
    } else if i > 0 {
      MovedSum(hf, lg, cs, i - 1, |cs[i - 1]|);
      MovedNextBucket(hf, lg + 1, cs, i - 1);
      assert cs[..i][..i - 1] == cs[..i - 1];
    } else {
      MovedStart(hf, lg + 1, cs);
      SumsOfEmpty(MovedChains(hf, lg + 1, cs, 0, 0), 0);
    }
  }

  lemma ExpandWf(hf: HashFn, t: Tbl)
    requires Wf(hf, t)
    ensures Wf(hf, Expand(hf, t))
  {
    hide MovedChains, Placed;
    var n := |t.chains|;
    MovedPlaced(hf, t.lg, t.chains, n, 0);
    MovedSum(hf, t.lg, t.chains, n, 0);
    assert t.chains[..n] == t.chains;
  }

  /** The element is in the bucket its hash selects. */
  ghost predicate InBucket(hf: HashFn, t: Tbl, e: Elem) {
    Bkt(hf(e.key), t.lg) < |t.chains| && e in t.chains[Bkt(hf(e.key), t.lg)]
  }

  /** No element is lost by an expansion. */
  lemma ExpandHolds(hf: HashFn, t: Tbl, e: Elem)
    requires |t.chains| == Pow2(t.lg) && InBucket(hf, t, e)
    ensures InBucket(hf, Expand(hf, t), e)
  {
    SplitSource(hf, t.lg, e);
    MovedMembers(hf, t.lg + 1, t.chains[Bkt(hf(e.key), t.lg)], Bkt(hf(e.key), t.lg + 1));
  }

  lemma PushedHolds(hf: HashFn, t: Tbl, e: Elem)
    requires Bkt(hf(e.key), t.lg) < |t.chains|
    ensures InBucket(hf, Pushed(hf, t, e), e)
    ensures forall x :: InBucket(hf, t, x) ==> InBucket(hf, Pushed(hf, t, e), x)
  {
  }

  lemma {:induction false} WithoutAt(c: seq<Elem>, k: nat)
    requires Distinct(c) && k < |c|
    ensures Without(c, c[k]) == c[..k] + c[k + 1..]
  {
    if k == 0 {
      assert c[..0] + c[1..] == c[1..];
    } else {
      WithoutAt(c[1..], k - 1);
      assert c[..k] == [c[0]] + c[1..][..k - 1];
    }
  }

  lemma {:induction false} LenBelowSum(cs: seq<seq<Elem>>, b: nat)
    requires b < |cs|
    ensures |cs[b]| <= SumLen(cs)
  {
    if b < |cs| - 1 { LenBelowSum(cs[..|cs| - 1], b); }
  }

  lemma PlacedShrink(hf: HashFn, lg: nat, cs: seq<seq<Elem>>, b: nat, k: nat)
    requires Placed(hf, lg, cs) && b < |cs| && k < |cs[b]|
    ensures Placed(hf, lg, cs[b := cs[b][..k] + cs[b][k + 1..]])
    ensures cs[b][k] !in cs[b][..k] + cs[b][k + 1..]
  {
  }

  lemma DelWf(hf: HashFn, t: Tbl, e: Elem)
    requires Wf(hf, t) && InBucket(hf, t, e)
    ensures t.items > 0 && Wf(hf, Del(hf, t, e)) && !InBucket(hf, Del(hf, t, e), e)
  {
    hide Placed;
    var b := Bkt(hf(e.key), t.lg);
    var c := t.chains[b];
    var k :| 0 <= k < |c| && c[k] == e;
    PlacedDistinct(hf, t.lg, t.chains, b);
    WithoutAt(c, k);
    PlacedShrink(hf, t.lg, t.chains, b, k);
    LenBelowSum(t.chains, b);
    SumLenUpdate(t.chains, b, Without(c, e));
  }

  lemma PlacedDistinct(hf: HashFn, lg: nat, cs: seq<seq<Elem>>, b: nat)
    requires Placed(hf, lg, cs) && b < |cs|
    ensures Distinct(cs[b])
  {
  }

  lemma DelHolds(hf: HashFn, t: Tbl, e: Elem, x: Elem)
    requires Wf(hf, t) && InBucket(hf, t, e) && t.items > 0 && InBucket(hf, t, x) && x != e
    ensures InBucket(hf, Del(hf, t, e), x)
  {
    var c := t.chains[Bkt(hf(e.key), t.lg)];
    if x in c { WithoutOther(c, e, x); }
  }

  lemma {:induction false} WithoutOther(c: seq<Elem>, e: Elem, x: Elem)
    requires x in c && x != e
    ensures x in Without(c, e)
  {
    if c[0] != e && c[0] != x { WithoutOther(c[1..], e, x); }
  }

  /** Where a deletion cuts its chain. */
  lemma DelShape(hf: HashFn, t: Tbl, e: Elem) returns (k: nat)
    requires Wf(hf, t) && InBucket(hf, t, e)
    ensures var b := Bkt(hf(e.key), t.lg);
      && t.items > 0 && Wf(hf, Del(hf, t, e))
      && b < |t.chains| && k < |t.chains[b]| && t.chains[b][k] == e
      && Del(hf, t, e) == t.(chains := t.chains[b := t.chains[b][..k] + t.chains[b][k + 1..]], items := t.items - 1)
  {
    var c := t.chains[Bkt(hf(e.key), t.lg)];
    k :| 0 <= k < |c| && c[k] == e;
    WithoutAt(c, k);
    DelWf(hf, t, e);
  }

  /** Expansion invents no element: bucket `b` draws from one old bucket. */
  lemma ExpandMembers(hf: HashFn, t: Tbl, b: nat, i: nat)
    requires b < 2 * |t.chains| && i < |Expand(hf, t).chains[b]|
    ensures Expand(hf, t).chains[b][i] in t.chains[Source(b, |t.chains|)]
  {
    MovedMembers(hf, t.lg + 1, t.chains[Source(b, |t.chains|)], b);
  }

  lemma WithoutMembers(c: seq<Elem>, e: Elem)
    ensures forall x :: x in Without(c, e) ==> x in c
    ensures |Without(c, e)| == if e in c then |c| - 1 else |c|
  {
  }

  // ----- what an expansion computes

  /** Old bucket `i` is split between `i` and `i + n`, nothing lost or doubled. */
  lemma {:induction false} MovedSplit(hf: HashFn, lg: nat, c: seq<Elem>, i: nat)
    requires forall j :: 0 <= j < |c| ==> Bkt(hf(c[j].key), lg) == i
    ensures multiset(Moved(hf, lg + 1, c, i)) + multiset(Moved(hf, lg + 1, c, i + Pow2(lg))) == multiset(c)
  {
    if c != [] {
      var e, d := c[|c| - 1], c[..|c| - 1];
      MovedSplit(hf, lg, d, i);
      assert c == d + [e];
      AndDoubleMask(hf(e.key), lg);
    }
  }

  lemma ExpandSplits(hf: HashFn, t: Tbl, i: nat)
    requires Wf(hf, t) && i < |t.chains|
    ensures var cs := Expand(hf, t).chains;
      multiset(cs[i]) + multiset(cs[i + |t.chains|]) == multiset(t.chains[i])
  {
    hide Moved;
    var n := |t.chains|;
    MovedSplit(hf, t.lg, t.chains[i], i);
    assert Source(i, n) == i && Source(i + n, n) == i;
    assert Expand(hf, t).chains[i] == Moved(hf, t.lg + 1, t.chains[i], i);
    assert Expand(hf, t).chains[i + n] == Moved(hf, t.lg + 1, t.chains[i], i + n);
  }

  lemma {:induction false} MovedReverses(hf: HashFn, lg: nat, c: seq<Elem>, b: nat, i: nat, j: nat)
    requires i < j < |Moved(hf, lg, c, b)|
    ensures exists p, q :: 0 <= q < p < |c| && c[p] == Moved(hf, lg, c, b)[i] && c[q] == Moved(hf, lg, c, b)[j]
  {
    var e, d := c[|c| - 1], c[..|c| - 1];
    if Bkt(hf(e.key), lg) != b {
      MovedReverses(hf, lg, d, b, i, j);
      var p, q :| 0 <= q < p < |d| && d[p] == Moved(hf, lg, d, b)[i] && d[q] == Moved(hf, lg, d, b)[j];
      assert c[p] == d[p] && c[q] == d[q];
    } else if i > 0 {
      MovedReverses(hf, lg, d, b, i - 1, j - 1);
      var p, q :| 0 <= q < p < |d| && d[p] == Moved(hf, lg, d, b)[i - 1] && d[q] == Moved(hf, lg, d, b)[j - 1];
      assert c[p] == d[p] && c[q] == d[q];
    } else {
      MovedMembers(hf, lg, d, b);
      var q :| 0 <= q < |d| && d[q] == Moved(hf, lg, d, b)[j - 1];
      assert c[|c| - 1] == e && c[q] == d[q];
    }
  }

  /** An expansion turns the order around: what is ahead in a new bucket was behind in the old one. */
  lemma ExpandReverses(hf: HashFn, t: Tbl, b: nat, i: nat, j: nat)
    requires b < 2 * |t.chains| && i < j < |Expand(hf, t).chains[b]|
    ensures var c, c' := t.chains[Source(b, |t.chains|)], Expand(hf, t).chains[b];
      exists p, q :: 0 <= q < p < |c| && c[p] == c'[i] && c[q] == c'[j]
  {
    hide Moved;
    MovedReverses(hf, t.lg + 1, t.chains[Source(b, |t.chains|)], b, i, j);
  }

  // ----- what nonideal_items counts

  /** The places in the buckets beyond the ideal length. */
  ghost function TooDeep(cs: seq<seq<Elem>>, ideal: nat): set<(int, int)> {
    set b, i | 0 <= b < |cs| && ideal <= i < |cs[b]| :: (b, i)
  }

  ghost function Column(b: int, lo: int, hi: int): set<(int, int)> { set i | lo <= i < hi :: (b, i) }

  lemma {:induction false} ColumnSize(b: int, lo: nat, hi: nat)
    ensures |Column(b, lo, hi)| == Excess(hi, lo)
    decreases hi
  {
    if hi > lo {
      ColumnSize(b, lo, hi - 1);
      assert Column(b, lo, hi) == Column(b, lo, hi - 1) + {(b, hi - 1)};
    } else {
      assert Column(b, lo, hi) == {};
    }
  }

  /** The sum of the excesses is the number of elements beyond the ideal length. */
  lemma {:induction false} SumExcessCounts(cs: seq<seq<Elem>>, ideal: nat)
    ensures SumExcess(cs, ideal) == |TooDeep(cs, ideal)|
  {
    if cs == [] {
      assert TooDeep(cs, ideal) == {};
    } else {
      var n := |cs| - 1;
      var a, b := TooDeep(cs[..n], ideal), Column(n, ideal, |cs[n]|);
      SumExcessCounts(cs[..n], ideal);
      ColumnSize(n, ideal, |cs[n]|);
      assert TooDeep(cs, ideal) == a + b;
      assert a !! b;
    }
  }

  /** A new bucket holds at most `expand_mult + 1` ideal chain lengths. */
  lemma {:induction false} MultBound(count: nat, ideal: nat)
    requires ideal > 0
    ensures count <= (MultOf(count, ideal) + 1) * ideal
  {
    if count > 0 {
      MultBound(count - 1, ideal);
      var m := MultOf(count - 1, ideal);
      MulSucc(m, ideal);
      MulSucc(m + 1, ideal);
    }
  }

  /** What expand_mult is: the number of ideal lengths in the bucket, except that
      one element too many counts only 1, and with ideal length 1 it is one less. */
  ghost predicate MultIs(count: nat, ideal: nat, m: nat) {
    if count <= ideal then m == 0
    else if count == ideal + 1 then m == 1
    else if ideal == 1 then m == count - 1
    else IsCeilDiv(count, ideal, m)
  }

  lemma {:induction false} MultExact(count: nat, ideal: nat)
    requires ideal > 0
    ensures MultIs(count, ideal, MultOf(count, ideal))
  {
    if count > 0 {
      MultExact(count - 1, ideal);
      var m := MultOf(count - 1, ideal);
      MulSucc(m, ideal);
      if m > 0 { MulSucc(m - 1, ideal); }
      if count == ideal + 2 { MulSucc(1, ideal); }
    }
  }

  /** The numbers an expansion leaves behind. */
  lemma ExpandMetrics(hf: HashFn, t: Tbl, b: nat)
    requires Wf(hf, t) && t.items > 0 && b < 2 * |t.chains|
    ensures var t' := Expand(hf, t);
      && |t'.chains| == Pow2(t'.lg) == 2 * Pow2(t.lg)
      && IsCeilDiv(t'.items, Pow2(t'.lg), t'.ideal) && t'.ideal > 0
      && t'.nonideal == |TooDeep(t'.chains, t'.ideal)|
      && MultIs(|t'.chains[b]|, t'.ideal, t'.mult[b])
      && |t'.chains[b]| <= (t'.mult[b] + 1) * t'.ideal
  {
    hide MovedChains, SumExcess, TooDeep;
    ExpandWf(hf, t);
    var t' := Expand(hf, t);
    SumExcessCounts(t'.chains, t'.ideal);
    ShiftMaskIsCeil(t.items, t.lg + 1);
    MultBound(|t'.chains[b]|, t'.ideal);
    MultExact(|t'.chains[b]|, t'.ideal);
  }
}
