/** uthash's table in place: two doubly linked structures threaded through the
    same elements, a bucket array that doubles, and the merge sort of the
    application list. */
module UtHash {
  import opened Bits
  import opened Elements
  import opened HashSpec
  import StableSort
  import UtHashSort

  /** UT_hash_bucket */
  datatype Bucket = Bucket(hhHead: Elem?, count: nat, expandMult: nat)

  // ----- what the links say: forward, back, and both

  ghost predicate ChainRuns(c: seq<Elem>)
    reads c`hhNext
  {
    forall i {:trigger c[i].hhNext} :: 0 <= i < |c| ==> c[i].hhNext == At(c, i + 1)
  }

  ghost predicate ChainBack(c: seq<Elem>)
    reads c`hhPrev
  {
    forall i {:trigger c[i].hhPrev} :: 0 <= i < |c| ==> c[i].hhPrev == At(c, i - 1)
  }

  ghost predicate AppBack(s: seq<Elem>)
    reads s`prev
  {
    forall i {:trigger s[i].prev} :: 0 <= i < |s| ==> s[i].prev == At(s, i - 1)
  }

  /** `s` is a doubly linked application list. */
  ghost predicate AppOk(s: seq<Elem>)
    reads s`prev, s`next
  {
    Distinct(s) && AppRuns(s) && AppBack(s)
  }

  /** `c` is a doubly linked bucket chain. */
  ghost predicate ChainOk(c: seq<Elem>)
    reads c`hhPrev, c`hhNext
  {
    ChainRuns(c) && ChainBack(c)
  }

  ghost function Els(s: seq<Elem>): set<Elem> { set e | e in s }

  ghost predicate ChainsOk(cs: seq<seq<Elem>>, S: set<Elem>)
    reads S`hhPrev, S`hhNext
  {
    forall b :: 0 <= b < |cs| ==> Inside(cs[b], S) && ChainOk(cs[b])
  }

  ghost predicate BucketsOk(bs: array<Bucket>, cs: seq<seq<Elem>>, mult: seq<nat>)
    reads bs
  {
    && bs.Length == |cs| == |mult|
    && forall b :: 0 <= b < |cs| ==> bs[b] == Bucket(At(cs[b], 0), |cs[b]|, mult[b])
  }

  /** Links still to be followed by an expansion that is at element `k` of bucket `i`. */
  ghost predicate Pending(cs: seq<seq<Elem>>, i: nat, k: nat, S: set<Elem>)
    reads S`hhNext
  {
    && (forall b :: 0 <= b < |cs| ==> Inside(cs[b], S))
    && (forall j, m {:trigger cs[j][m].hhNext} ::
          i <= j < |cs| && (j == i ==> k <= m) && 0 <= m < |cs[j]| ==> cs[j][m].hhNext == At(cs[j], m + 1))
  }

  /** Pushes `e` on bucket `b`, as HASH_ADD_TO_BKT and the expansion loop do. */
  method PushLinks(bs: array<Bucket>, b: nat, e: Elem, ghost hf: HashFn, ghost lg: nat,
                   ghost cs: seq<seq<Elem>>, ghost S: set<Elem>)
    requires ChainsOk(cs, S) && Placed(hf, lg, cs) && e in S
    requires b < |cs| == bs.Length && Bkt(hf(e.key), lg) == b && bs[b].hhHead == At(cs[b], 0)
    requires e !in cs[b]
    modifies bs, S`hhPrev, S`hhNext
    ensures ChainsOk(cs[b := [e] + cs[b]], S)
    ensures bs[b] == old(bs[b]).(hhHead := e)
    ensures forall d :: 0 <= d < bs.Length && d != b ==> bs[d] == old(bs[d])
    ensures forall x :: x in S && x != e ==> x.hhNext == old(x.hhNext)
  {
    var h := bs[b].hhHead;
    e.hhNext := h;
    e.hhPrev := null;
    if h != null {
      h.hhPrev := e;
    }
    bs[b] := bs[b].(hhHead := e);
    ghost var c := [e] + cs[b];
    assert ChainOk(c);
    forall d | 0 <= d < |cs| && d != b ensures ChainOk(cs[d]) {
      assert old(ChainOk(cs[d]));
      forall i | 0 <= i < |cs[d]| ensures cs[d][i] != e && cs[d][i] != h {
        assert Bkt(hf(cs[d][i].key), lg) == d;
      }
    }
  }

  /** Moves one element to its new bucket `b`. */
  method MoveElem(bs: array<Bucket>, b: nat, e: Elem, ideal: nat, nonideal0: nat, ghost hf: HashFn, ghost lg: nat,
                  ghost m: seq<seq<Elem>>, ghost S: set<Elem>)
    returns (nonideal: nat)
    requires ChainsOk(m, S) && Placed(hf, lg, m) && e in S
    requires b < |m| && Bkt(hf(e.key), lg) == b && e !in m[b]
    requires BucketsOk(bs, m, Mults(m, ideal))
    modifies bs, S`hhPrev, S`hhNext
    ensures var m' := m[b := [e] + m[b]];
            ChainsOk(m', S) && BucketsOk(bs, m', Mults(m', ideal))
    ensures nonideal == nonideal0 + (if |m[b]| + 1 > ideal then 1 else 0)
    ensures forall x :: x in S && x != e ==> x.hhNext == old(x.hhNext)
  {
    hide ChainsOk, Placed;
    nonideal := nonideal0;
    var bkt := bs[b].(count := bs[b].count + 1);
    if bkt.count > ideal {
      nonideal := nonideal + 1;
      if bkt.count > bkt.expandMult * ideal {
        bkt := bkt.(expandMult := bkt.expandMult + 1);
      }
    }
    assert bkt.expandMult == MultOf(|m[b]| + 1, ideal);
    bs[b] := bkt;
    PushLinks(bs, b, e, hf, lg, m, S);
  }

  /** The state of an expansion that has reached element `k` of old bucket `i`. */
  ghost predicate Expanding(bs: array<Bucket>, hf: HashFn, lg: nat, cs: seq<seq<Elem>>, i: nat, k: nat,
                            ideal: nat, nonideal: nat, S: set<Elem>)
    requires i < |cs| ==> k <= |cs[i]|
    reads bs, S`hhPrev, S`hhNext
  {
    var m := MovedChains(hf, lg + 1, cs, i, k);
    && Pending(cs, i, k, S)
    && ChainsOk(m, S)
    && BucketsOk(bs, m, Mults(m, ideal))
    && nonideal == SumExcess(m, ideal)
  }

  /** One round of HASH_EXPAND_BUCKETS' inner loop. */
  method MoveNext(bs: array<Bucket>, thh: Elem, lg: nat, ideal: nat, nonideal0: nat,
                  ghost i: nat, ghost k: nat, ghost hf: HashFn, ghost cs: seq<seq<Elem>>, ghost S: set<Elem>)
    returns (nxt: Elem?, nonideal: nat)
    requires |cs| == Pow2(lg) && Placed(hf, lg, cs) && i < |cs| && k < |cs[i]| && thh == cs[i][k]
    requires forall x :: x in S ==> x.hashv == hf(x.key)
    requires Expanding(bs, hf, lg, cs, i, k, ideal, nonideal0, S)
    modifies bs, S`hhPrev, S`hhNext
    ensures nxt == At(cs[i], k + 1)
    ensures Expanding(bs, hf, lg, cs, i, k + 1, ideal, nonideal, S)
  {
    hide MovedChains, Mults, Placed, ChainsOk, BucketsOk, Distinct, Bkt;
    ghost var m := MovedChains(hf, lg + 1, cs, i, k);
    nxt := thh.hhNext;
    MovedStep(hf, lg, cs, i, k);
    MovedPlaced(hf, lg, cs, i, k);
    MovedFresh(hf, lg, cs, i, k);
    assert thh in S;
    var b := Bkt(thh.hashv, lg + 1);
    SumExcessUpdate(m, b, [thh] + m[b], ideal);
    nonideal := MoveElem(bs, b, thh, ideal, nonideal0, hf, lg + 1, m, S);
    PendingStep(cs, i, k, hf, lg);
  }

  /** HASH_EXPAND_BUCKETS' inner loop: moves the elements of old bucket `i`. */
  method MoveBucket(bs: array<Bucket>, first: Elem?, lg: nat, ideal: nat, nonideal0: nat, ghost i: nat,
                    ghost hf: HashFn, ghost cs: seq<seq<Elem>>, ghost S: set<Elem>)
    returns (nonideal: nat)
    requires |cs| == Pow2(lg) && Placed(hf, lg, cs) && i < |cs| && first == At(cs[i], 0)
    requires forall x :: x in S ==> x.hashv == hf(x.key)
    requires Expanding(bs, hf, lg, cs, i, 0, ideal, nonideal0, S)
    modifies bs, S`hhPrev, S`hhNext
    ensures Expanding(bs, hf, lg, cs, i + 1, 0, ideal, nonideal, S)
  {
    hide MovedChains, Mults, Placed, ChainsOk, BucketsOk, Distinct, Bkt, Expanding;
    nonideal := nonideal0;
    var thh := first;
    ghost var k := 0;
    while thh != null
      invariant k <= |cs[i]| && thh == At(cs[i], k)
      invariant Expanding(bs, hf, lg, cs, i, k, ideal, nonideal, S)
      decreases |cs[i]| - k
    {
      thh, nonideal := MoveNext(bs, thh, lg, ideal, nonideal, i, k, hf, cs, S);
      k := k + 1;
    }
    BucketDone(bs, hf, lg, cs, i, ideal, nonideal, S);
  }

  lemma BucketDone(bs: array<Bucket>, hf: HashFn, lg: nat, cs: seq<seq<Elem>>, i: nat,
                   ideal: nat, nonideal: nat, S: set<Elem>)
    requires i < |cs| && Expanding(bs, hf, lg, cs, i, |cs[i]|, ideal, nonideal, S)
    ensures Expanding(bs, hf, lg, cs, i + 1, 0, ideal, nonideal, S)
  {
    hide MovedChains, Mults, ChainsOk, BucketsOk;
    MovedNextBucket(hf, lg + 1, cs, i);
  }

  /** No later element of the old table is the one just moved. */
  lemma PendingStep(cs: seq<seq<Elem>>, i: nat, k: nat, hf: HashFn, lg: nat)
    requires Placed(hf, lg, cs) && i < |cs| && k < |cs[i]|
    ensures forall j, m {:trigger cs[j][m]} ::
      i <= j < |cs| && (j == i ==> k < m) && 0 <= m < |cs[j]| ==> cs[j][m] != cs[i][k]
  {
  }

  // ----- the application list

  /** HASH_APPEND_LIST */
  method AppendLinks(tail: Elem, e: Elem, ghost s: seq<Elem>)
    requires AppOk(s) && s != [] && tail == s[|s| - 1] && e !in s
    modifies tail`next, e`prev, e`next
    ensures AppOk(s + [e])
  {
    e.next := null;
    e.prev := tail;
    tail.next := e;
  }

  /** The in-order add links `e` before `iter`, the element at position `k`. */
  method InsertLinks(iter: Elem, e: Elem, ghost s: seq<Elem>, ghost k: nat)
    requires AppOk(s) && k < |s| && iter == s[k] && e !in s
    modifies s`prev, s`next, e`prev, e`next
    ensures AppOk(s[..k] + [e] + s[k..])
    ensures e.prev == At(s, k - 1)
  {
    e.next := iter;
    e.prev := iter.prev;
    if e.prev != null {
      e.prev.next := e;
    }
    iter.prev := e;
  }

  /** HASH_DELETE_HH's patch-up of the application list around the element at `k`. */
  method UnlinkApp(e: Elem, ghost s: seq<Elem>, ghost k: nat)
    requires AppOk(s) && k < |s| && e == s[k]
    modifies s`prev, s`next
    ensures AppOk(s[..k] + s[k + 1..])
    ensures e.prev == At(s, k - 1) && e.next == At(s, k + 1)
  {
    if e.prev != null {
      e.prev.next := e.next;
    }
    if e.next != null {
      e.next.prev := e.prev;
    }
  }

  /** HASH_DEL_IN_BKT's patch-up of a chain around the element at `k`. */
  method UnlinkChain(e: Elem, ghost c: seq<Elem>, ghost k: nat)
    requires ChainOk(c) && Distinct(c) && k < |c| && e == c[k]
    modifies c`hhPrev, c`hhNext
    ensures ChainOk(c[..k] + c[k + 1..])
    ensures e.hhNext == old(e.hhNext)
  {
    if e.hhPrev != null {
      e.hhPrev.hhNext := e.hhNext;
    }
    if e.hhNext != null {
      e.hhNext.hhPrev := e.hhPrev;
    }
  }

  /** HASH_DEL_IN_BKT without the count. */
  method UnlinkBucket(bs: array<Bucket>, b: nat, e: Elem, ghost k: nat, ghost hf: HashFn, ghost lg: nat,
                      ghost cs: seq<seq<Elem>>, ghost S: set<Elem>)
    requires ChainsOk(cs, S) && Placed(hf, lg, cs)
    requires b < |cs| == bs.Length && k < |cs[b]| && e == cs[b][k] && bs[b].hhHead == At(cs[b], 0)
    modifies bs, S`hhPrev, S`hhNext
    ensures ChainsOk(cs[b := cs[b][..k] + cs[b][k + 1..]], S - {e})
    ensures bs[b] == old(bs[b]).(hhHead := At(cs[b][..k] + cs[b][k + 1..], 0))
    ensures forall d :: 0 <= d < bs.Length && d != b ==> bs[d] == old(bs[d])
  {
    ghost var c := cs[b];
    ghost var c' := c[..k] + c[k + 1..];
    if bs[b].hhHead == e {
      bs[b] := bs[b].(hhHead := e.hhNext);
    }
    assert Inside(c, S);
    UnlinkChain(e, c, k);
    assert Inside(c', S - {e});
    forall d | 0 <= d < |cs| && d != b ensures ChainOk(cs[d]) && Inside(cs[d], S - {e}) {
      assert old(ChainOk(cs[d])) && Inside(cs[d], S);
      forall i | 0 <= i < |cs[d]| ensures cs[d][i] !in c {
        assert Bkt(hf(cs[d][i].key), lg) == d;
      }
    }
  }

  // ----- expansion, continued

  lemma ExpandStart(news: array<Bucket>, hf: HashFn, lg: nat, cs: seq<seq<Elem>>, ideal: nat, S: set<Elem>)
    requires ChainsOk(cs, S) && news.Length == 2 * |cs|
    requires forall b :: 0 <= b < news.Length ==> news[b] == Bucket(null, 0, 0)
    ensures Expanding(news, hf, lg, cs, 0, 0, ideal, 0, S)
  {
    MovedStart(hf, lg + 1, cs);
    SumsOfEmpty(MovedChains(hf, lg + 1, cs, 0, 0), ideal);
  }

  /** HASH_EXPAND_BUCKETS' outer loop. */
  method Redistribute(olds: array<Bucket>, news: array<Bucket>, lg: nat, ideal: nat,
                      ghost hf: HashFn, ghost cs: seq<seq<Elem>>, ghost mult: seq<nat>, ghost S: set<Elem>)
    returns (nonideal: nat)
    requires olds != news && BucketsOk(olds, cs, mult)
    requires |cs| == Pow2(lg) && Placed(hf, lg, cs)
    requires forall x :: x in S ==> x.hashv == hf(x.key)
    requires Expanding(news, hf, lg, cs, 0, 0, ideal, 0, S)
    modifies news, S`hhPrev, S`hhNext
    ensures Expanding(news, hf, lg, cs, |cs|, 0, ideal, nonideal, S)
  {
    hide Expanding, Placed;
    nonideal := 0;
    for i := 0 to olds.Length
      invariant BucketsOk(olds, cs, mult)
      invariant Expanding(news, hf, lg, cs, i, 0, ideal, nonideal, S)
    {
      nonideal := MoveBucket(news, olds[i].hhHead, lg, ideal, nonideal, i, hf, cs, S);
    }
  }

  lemma ExpandDone(news: array<Bucket>, hf: HashFn, t: Tbl, nonideal: nat, S: set<Elem>)
    requires Expanding(news, hf, t.lg, t.chains, |t.chains|, 0, IdealLen(t.items, t.lg + 1), nonideal, S)
    ensures var t' := HashSpec.Expand(hf, t);
            BucketsOk(news, t'.chains, t'.mult) && ChainsOk(t'.chains, S) && nonideal == t'.nonideal
  {
    hide MovedChains, Mults, ChainsOk, BucketsOk;
  }

  lemma ChainsGrow(cs: seq<seq<Elem>>, S: set<Elem>, e: Elem)
    requires ChainsOk(cs, S) && e !in S
    ensures ChainsOk(cs, S + {e})
    ensures forall b :: 0 <= b < |cs| ==> e !in cs[b]
  {
    forall b | 0 <= b < |cs| ensures e !in cs[b] && Inside(cs[b], S + {e}) {
      assert Inside(cs[b], S);
    }
  }

  lemma ElsCut(s: seq<Elem>, k: nat)
    requires k < |s| && Distinct(s)
    ensures Els(s[..k] + s[k + 1..]) == Els(s) - {s[k]}
  {
    var t := s[..k] + s[k + 1..];
    forall e | e in s && e != s[k] ensures e in t {
      var i :| 0 <= i < |s| && s[i] == e;
      assert e == if i < k then t[i] else t[i - 1];
    }
  }

  lemma ElsInsert(s: seq<Elem>, k: nat, e: Elem)
    requires k <= |s| && e !in s
    ensures Els(s[..k] + [e] + s[k..]) - {e} == Els(s)
  {
    assert s == s[..k] + s[k..];
  }

  class HashTable {
    const hashFn: HashFn

    var head: Elem?              // the user's head pointer; NULL means no table exists
    var tail: Elem?
    var buckets: array<Bucket>
    var numBuckets: nat
    var log2NumBuckets: nat
    var numItems: nat
    var idealChainMaxlen: nat
    var nonidealItems: nat
    var ineffExpands: nat
    var noexpand: bool

    ghost var app: seq<Elem>     // the elements in application order
    ghost var tbl: Tbl           // the bucket part as a value

    /** The bucket part is linked up and holds exactly the elements of `S`. */
    ghost predicate TableOk(S: set<Elem>)
      reads this`numBuckets, this`log2NumBuckets, this`numItems, this`idealChainMaxlen, this`nonidealItems,
            this`ineffExpands, this`noexpand, this`tbl, this`buckets, buckets,
            S`hashv, S`hhPrev, S`hhNext
    {
      && Fields()
      && Wf(hashFn, tbl)
      && BucketsOk(buckets, tbl.chains, tbl.mult)
      && ChainsOk(tbl.chains, S)
      && Holds(S)
    }

    ghost predicate Fields()
      reads this`numBuckets, this`log2NumBuckets, this`numItems, this`idealChainMaxlen, this`nonidealItems,
            this`ineffExpands, this`noexpand, this`tbl
    {
      && numBuckets == Pow2(tbl.lg) && log2NumBuckets == tbl.lg && numItems == tbl.items
      && idealChainMaxlen == tbl.ideal && nonidealItems == tbl.nonideal
      && ineffExpands == tbl.ineff && noexpand == tbl.noexpand
    }

    ghost predicate Holds(S: set<Elem>)
      reads this`tbl, S`hashv
    {
      forall e :: e in S ==>
        e.hashv == hashFn(e.key) && InBucket(hashFn, tbl, e)
    }

    ghost predicate Valid()
      reads this, buckets, app`hashv, app`prev, app`next, app`hhPrev, app`hhNext
    {
      && AppOk(app)
      && head == At(app, 0)
      && (head != null ==> tail == app[|app| - 1] && numItems == |app| && TableOk(Els(app)))
    }

    constructor (hashFn: HashFn)
      ensures Valid() && app == [] && this.hashFn == hashFn && fresh(buckets)
    {
      this.hashFn := hashFn;
      head, tail, app := null, null, [];
      buckets := new Bucket[0];
    }

    /** The end of HASH_EXPAND_BUCKETS: the new bucket array replaces the old one. */
    method Install(newBuckets: array<Bucket>, ideal: nat, nonideal: nat)
      requires Fields()
      requires ideal == IdealLen(numItems, log2NumBuckets + 1)
      requires nonideal == HashSpec.Expand(hashFn, tbl).nonideal
      modifies this`buckets, this`numBuckets, this`log2NumBuckets, this`idealChainMaxlen, this`nonidealItems,
               this`ineffExpands, this`noexpand, this`tbl
      ensures Fields()
      ensures tbl == HashSpec.Expand(hashFn, old(tbl)) && buckets == newBuckets
    {
      hide MovedChains, Mults, SumExcess;
      idealChainMaxlen, nonidealItems := ideal, nonideal;
      numBuckets := numBuckets * 2;
      log2NumBuckets := log2NumBuckets + 1;
      buckets := newBuckets;
      ineffExpands := if nonidealItems > Shr(numItems, 1) then ineffExpands + 1 else 0;
      if ineffExpands > 1 {
        noexpand := true;
      }
      tbl := HashSpec.Expand(hashFn, tbl);
    }

    /** HASH_EXPAND_BUCKETS */
    method ExpandBuckets(ghost S: set<Elem>)
      requires TableOk(S)
      modifies this`buckets, this`numBuckets, this`log2NumBuckets, this`idealChainMaxlen, this`nonidealItems,
               this`ineffExpands, this`noexpand, this`tbl, S`hhPrev, S`hhNext
      ensures TableOk(S)
      ensures tbl == HashSpec.Expand(hashFn, old(tbl))
      ensures fresh(buckets)
    {
      hide MovedChains, Mults, Wf, ChainsOk, BucketsOk, SumExcess, InBucket, Expanding, IdealLen, Shr;
      ghost var t0, t1 := tbl, HashSpec.Expand(hashFn, tbl);
      WfParts(hashFn, t0);
      ExpandWf(hashFn, t0);
      forall e | e in S ensures InBucket(hashFn, t1, e) {
        ExpandHolds(hashFn, t0, e);
      }
      var newBuckets := new Bucket[2 * numBuckets](_ => Bucket(null, 0, 0));
      var ideal := IdealLen(numItems, log2NumBuckets + 1);
      ExpandStart(newBuckets, hashFn, log2NumBuckets, t0.chains, ideal, S);
      var nonideal := Redistribute(buckets, newBuckets, log2NumBuckets, ideal, hashFn, t0.chains, t0.mult, S);
      ExpandDone(newBuckets, hashFn, t0, nonideal, S);
      Install(newBuckets, ideal, nonideal);
    }

    /** HASH_ADD_TO_BKT up to the test for expansion. */
    method PushOnBucket(b: nat, e: Elem, ghost S: set<Elem>)
      requires TableOk(S) && e !in S && e.hashv == hashFn(e.key) && b == Bkt(e.hashv, tbl.lg)
      modifies this`numItems, this`tbl, buckets, S`hhPrev, S`hhNext, e`hhPrev, e`hhNext
      ensures TableOk(S + {e})
      ensures b < |old(tbl).chains| && tbl == Pushed(hashFn, old(tbl), e)
      ensures numItems == old(numItems) + 1
    {
      hide Wf, Placed, ChainsOk, InBucket;
      ghost var t, S' := tbl, S + {e};
      WfParts(hashFn, t);
      BktBound(e.hashv, t.lg);
      assert e !in t.chains[b] && ChainsOk(t.chains, S') by { ChainsGrow(t.chains, S, e); }
      PushedWf(hashFn, t, e);
      PushedHolds(hashFn, t, e);
      numItems := numItems + 1;
      buckets[b] := buckets[b].(count := buckets[b].count + 1);
      PushLinks(buckets, b, e, hashFn, t.lg, t.chains, S');
      tbl := Pushed(hashFn, t, e);
    }

    /** HASH_ADD_TO_TABLE */
    method AddToTable(e: Elem, ghost S: set<Elem>)
      requires TableOk(S) && e !in S && e.hashv == hashFn(e.key)
      modifies this`numItems, this`buckets, this`numBuckets, this`log2NumBuckets, this`idealChainMaxlen,
               this`nonidealItems, this`ineffExpands, this`noexpand, this`tbl,
               buckets, S`hhPrev, S`hhNext, e`hhPrev, e`hhNext
      ensures TableOk(S + {e})
      ensures AddReady(hashFn, old(tbl), e) && tbl == HashSpec.Add(hashFn, old(tbl), e)
      ensures numItems == old(numItems) + 1
      ensures buckets == old(buckets) || fresh(buckets)
      ensures var b := Bkt(e.hashv, old(log2NumBuckets));
        && b < old(buckets).Length
        && if old(buckets[b].count) + 1 >= (old(buckets[b].expandMult) + 1) * 10 && !old(noexpand)
           then numBuckets == 2 * old(numBuckets)
           else numBuckets == old(numBuckets) && buckets == old(buckets)
                && buckets[b] == Bucket(e, old(buckets[b].count) + 1, old(buckets[b].expandMult))
    {
      hide Wf, ChainsOk, HashSpec.Expand, Holds;
      assert AddReady(hashFn, tbl, e) by { WfParts(hashFn, tbl); BktBound(e.hashv, tbl.lg); }
      AddExact(hashFn, tbl, e);
      var b := Bkt(e.hashv, log2NumBuckets);
      PushOnBucket(b, e, S);
      if buckets[b].count >= (buckets[b].expandMult + 1) * CAPACITY_THRESH && !noexpand {
        ExpandBuckets(S + {e});
      }
    }

    /** HASH_MAKE_TABLE */
    method MakeTable()
      modifies this
      ensures TableOk({}) && tbl == EmptyTbl() && numItems == 0 && fresh(buckets)
      ensures unchanged(this`head) && unchanged(this`app)
    {
      hide Wf, EmptyTbl;
      tail := null;
      numItems, idealChainMaxlen, nonidealItems, ineffExpands, noexpand := 0, 0, 0, 0, false;
      numBuckets, log2NumBuckets := 32, INITIAL_LOG2;
      buckets := new Bucket[32](_ => Bucket(null, 0, 0));
      tbl := EmptyTbl();
      EmptyParts(hashFn);
    }

    /** `e` is in the application list, but not in the buckets yet. */
    ghost predicate Linked(e: Elem)
      reads this, buckets, app`hashv, app`prev, app`next, app`hhPrev, app`hhNext
    {
      && AppOk(app) && e in app && head == app[0] && tail == app[|app| - 1]
      && numItems + 1 == |app|
      && TableOk(Els(app) - {e})
    }

    /** The first add makes the table. */
    method LinkFirst(e: Elem)
      requires Valid() && head == null
      modifies this, e`prev, e`next
      ensures Linked(e) && app == [e] && tbl == EmptyTbl() && fresh(buckets)
    {
      hide TableOk, EmptyTbl;
      e.next := null;
      e.prev := null;
      MakeTable();
      head, tail, app := e, e, [e];
      assert Els(app) - {e} == {};
    }

    method LinkLast(e: Elem)
      requires Valid() && head != null && e !in app
      modifies this`tail, this`app, app`next, e`prev, e`next
      ensures Linked(e) && app == old(app) + [e]
    {
      hide TableOk;
      AppendLinks(tail, e, app);
      tail, app := e, app + [e];
      assert Els(app) - {e} == Els(old(app));
    }

    /** The bucket half of an add. */
    method FinishAdd(e: Elem)
      requires Linked(e) && e.hashv == hashFn(e.key)
      modifies this, buckets, app`hhPrev, app`hhNext
      ensures Valid()
      ensures app == old(app)
      ensures AddReady(hashFn, old(tbl), e) && tbl == HashSpec.Add(hashFn, old(tbl), e)
      ensures buckets == old(buckets) || fresh(buckets)
    {
      hide TableOk, HashSpec.Add, AddReady;
      ghost var S := Els(app) - {e};
      AddToTable(e, S);
      assert S + {e} == Els(app);
    }

    /** The bucket part a new element meets: a fresh one if there was no table. */
    ghost function TblOrNew(): Tbl
      reads this`head, this`tbl
    {
      if head == null then EmptyTbl() else tbl
    }

    /** HASH_ADD_KEYPTR_BYHASHVALUE */
    method Add(e: Elem)
      requires Valid() && e !in app
      modifies this, buckets, app`prev, app`next, app`hhPrev, app`hhNext, e`hashv, e`prev, e`next, e`hhPrev, e`hhNext
      ensures Valid()
      ensures app == old(app) + [e]
      ensures AddReady(hashFn, old(TblOrNew()), e) && tbl == HashSpec.Add(hashFn, old(TblOrNew()), e)
      ensures buckets == old(buckets) || fresh(buckets)
    {
      hide TableOk, HashSpec.Add, AddReady, EmptyTbl, AppOk;
      e.hashv := hashFn(e.key);
      if head == null {
        LinkFirst(e);
      } else {
        LinkLast(e);
      }
      FinishAdd(e);
    }

    /** HASH_AKBI_INNER_LOOP: the first element that compares greater than `e`. */
    method FindSlot(e: Elem, cmp: (Elem, Elem) -> int) returns (iter: Elem?, ghost k: nat)
      requires AppOk(app) && head == At(app, 0)
      ensures k <= |app| && iter == At(app, k)
      ensures StableSort.Insert(cmp, app, e) == app[..k] + [e] + app[k..]
    {
      iter, k := head, 0;
      while iter != null && cmp(iter, e) <= 0
        invariant k <= |app| && iter == At(app, k)
        invariant forall j :: 0 <= j < k ==> cmp(app[j], e) <= 0
        decreases |app| - k
      {
        iter, k := iter.next, k + 1;
      }
      StableSort.InsertAt(cmp, app, e, k);
    }

    method LinkBefore(iter: Elem, e: Elem, ghost k: nat)
      requires Valid() && head != null && e !in app && k < |app| && iter == app[k]
      modifies this`head, this`app, app`prev, app`next, e`prev, e`next
      ensures Linked(e) && app == old(app[..k] + [e] + app[k..])
    {
      hide TableOk, AppRuns, AppBack;
      InsertLinks(iter, e, app, k);
      if e.prev == null {
        head := e;
      }
      app := app[..k] + [e] + app[k..];
      ElsInsert(old(app), k, e);
    }

    /** HASH_ADD_KEYPTR_BYHASHVALUE_INORDER */
    method AddInOrder(e: Elem, cmp: (Elem, Elem) -> int)
      requires Valid() && e !in app
      modifies this, buckets, app`prev, app`next, app`hhPrev, app`hhNext, e`hashv, e`prev, e`next, e`hhPrev, e`hhNext
      ensures Valid()
      ensures app == StableSort.Insert(cmp, old(app), e)
      ensures AddReady(hashFn, old(TblOrNew()), e) && tbl == HashSpec.Add(hashFn, old(TblOrNew()), e)
      ensures buckets == old(buckets) || fresh(buckets)
    {
      hide TableOk, HashSpec.Add, AddReady, EmptyTbl, AppOk, StableSort.Insert;
      e.hashv := hashFn(e.key);
      ghost var k: nat;
      var iter: Elem?;
      iter, k := FindSlot(e, cmp);
      if head == null {
        LinkFirst(e);
      } else {
        if iter != null {
          LinkBefore(iter, e, k);
        } else {
          LinkLast(e);
        }
      }
      FinishAdd(e);
    }

    /** HASH_FIND */
    method Find(key: string) returns (out: Elem?)
      requires Valid()
      ensures out != null ==> out in app && out.key == key
      ensures out == null ==> forall i :: 0 <= i < |app| ==> app[i].key != key
      ensures UniqueKeys(app) ==> out == LinearFind(app, key)
    {
      out := null;
      if head != null {
        var hashv := hashFn(key);
        BktBound(hashv, log2NumBuckets);
        out := FindInBucket(buckets[Bkt(hashv, log2NumBuckets)], key, hashv);
      }
      FindIsLinear(out, key);
    }

    /** HASH_FIND_IN_BKT */
    method FindInBucket(bucket: Bucket, key: string, hashv: nat) returns (out: Elem?)
      requires Valid() && head != null && hashv == hashFn(key)
      requires Bkt(hashv, tbl.lg) < buckets.Length && bucket == buckets[Bkt(hashv, tbl.lg)]
      ensures out != null ==> out in app && out.key == key
      ensures out == null ==> forall e :: e in app ==> e.key != key
    {
      ghost var c := tbl.chains[Bkt(hashv, tbl.lg)];
      ghost var k := 0;
      out := bucket.hhHead;
      while out != null
        invariant k <= |c| && out == At(c, k)
        invariant forall j :: 0 <= j < k ==> c[j].key != key
        decreases |c| - k
      {
        if out.hashv == hashv && |out.key| == |key| {
          if out.key == key {
            break;
          }
        }
        out, k := out.hhNext, k + 1;
      }
    }

    lemma FindIsLinear(out: Elem?, key: string)
      requires out != null ==> out in app && out.key == key
      requires out == null ==> forall i :: 0 <= i < |app| ==> app[i].key != key
      ensures UniqueKeys(app) ==> out == LinearFind(app, key)
    {
      if UniqueKeys(app) {
        if out == null {
          LinearFindNone(app, key);
        } else {
          var i :| 0 <= i < |app| && app[i] == out;
          LinearFindUnique(app, key, i);
        }
      }
    }

    /** HASH_DEL_IN_BKT, and the item count of HASH_DELETE_HH */
    method DelInBucket(e: Elem, ghost S: set<Elem>)
      requires TableOk(S) && e in S
      modifies this`tbl, this`numItems, buckets, S`hhPrev, S`hhNext
      ensures TableOk(S - {e})
      ensures InBucket(hashFn, old(tbl), e) && old(tbl).items > 0 && tbl == HashSpec.Del(hashFn, old(tbl), e)
      ensures numItems == old(numItems) - 1
    {
      hide Wf, Placed, ChainsOk, InBucket, HashSpec.Del;
      ghost var t := tbl;
      var b := Bkt(e.hashv, log2NumBuckets);
      WfParts(hashFn, t);
      ghost var k := DelShape(hashFn, t, e);
      forall x | x in S && x != e ensures InBucket(hashFn, HashSpec.Del(hashFn, t, e), x) {
        DelHolds(hashFn, t, e, x);
      }
      buckets[b] := buckets[b].(count := buckets[b].count - 1);
      UnlinkBucket(buckets, b, e, k, hashFn, t.lg, t.chains, S);
      numItems := numItems - 1;
      tbl := HashSpec.Del(hashFn, t, e);
    }

    /** HASH_DELETE_HH's work on the application list when other elements remain. */
    method Unlink(e: Elem, ghost k: nat)
      requires AppOk(app) && k < |app| && e == app[k] && |app| > 1 && head == app[0] && tail == app[|app| - 1]
      modifies this`head, this`tail, this`app, app`prev, app`next
      ensures AppOk(app) && app == old(app[..k] + app[k + 1..]) && head == app[0] && tail == app[|app| - 1]
    {
      if e == tail {
        tail := e.prev;
      }
      if e.prev == null {
        head := e.next;
      }
      UnlinkApp(e, app, k);
      app := app[..k] + app[k + 1..];
    }

    method DeleteOne(e: Elem, ghost k: nat)
      requires Valid() && k < |app| && e == app[k] && |app| > 1
      modifies this`head, this`tail, this`app, this`tbl, this`numItems, buckets,
               app`prev, app`next, app`hhPrev, app`hhNext
      ensures Valid() && app == old(app[..k] + app[k + 1..])
      ensures InBucket(hashFn, old(tbl), e) && old(tbl).items > 0 && tbl == HashSpec.Del(hashFn, old(tbl), e)
    {
      hide TableOk, InBucket, HashSpec.Del, AppRuns, AppBack;
      ghost var S := Els(app);
      Unlink(e, k);
      ElsCut(old(app), k);
      DelInBucket(e, S);
    }

    /** HASH_DELETE */
    method Delete(e: Elem)
      requires Valid() && e in app
      modifies this`head, this`tail, this`app, this`tbl, this`numItems, buckets,
               app`prev, app`next, app`hhPrev, app`hhNext
      ensures Valid() && app == Without(old(app), e)
      ensures |old(app)| > 1 ==>
        InBucket(hashFn, old(tbl), e) && old(tbl).items > 0 && tbl == HashSpec.Del(hashFn, old(tbl), e)
    {
      hide TableOk, InBucket, HashSpec.Del, Without;
      ghost var k :| 0 <= k < |app| && app[k] == e;
      WithoutAt(app, k);
      if e.prev == null && e.next == null {
        head, app := null, [];
      } else {
        DeleteOne(e, k);
      }
    }

    method SortApp(cmp: (Elem, Elem) -> int)
      requires AppOk(app) && head != null && head == At(app, 0)
      modifies this`head, this`tail, this`app, app`prev, app`next
      ensures AppOk(app) && app == StableSort.MergeSort(cmp, old(app))
      ensures head == At(app, 0) && tail == At(app, |app| - 1)
    {
      var list, last;
      list, last, app := UtHashSort.SortList(cmp, head, app, Els(app));
      tail := last;
      head := list;
    }

    /** HASH_SRT */
    method Sort(cmp: (Elem, Elem) -> int)
      requires Valid()
      modifies this`head, this`tail, this`app, app`prev, app`next
      ensures Valid() && app == StableSort.MergeSort(cmp, old(app))
      ensures StableSort.Preorder(cmp, old(app)) ==> StableSort.StableSorted(cmp, old(app), app)
    {
      hide TableOk, AppOk, StableSort.Preorder, StableSort.StableSorted, StableSort.MergeSort;
      SortKeeps(cmp, app);
      if StableSort.Preorder(cmp, app) {
        StableSort.MergeSortStable(cmp, app);
      }
      if head != null {
        SortApp(cmp);
      }
    }

    lemma SortKeeps(cmp: (Elem, Elem) -> int, s: seq<Elem>)
      ensures var t := StableSort.MergeSort(cmp, s);
              |t| == |s| && Els(t) == Els(s)
    {
      var t := StableSort.MergeSort(cmp, s);
      StableSort.BottomUpPerm(cmp, s, 1);
      StableSort.PermLength(s, t);
      StableSort.PermMembers(s, t);
    }

    /** HASH_ITER over the table, deleting every element on the way. */
    method DeleteAll() returns (visited: seq<Elem>)
      requires Valid()
      modifies this`head, this`tail, this`app, this`tbl, this`numItems, buckets,
               app`prev, app`next, app`hhPrev, app`hhNext
      ensures Valid() && head == null && app == []
      ensures visited == old(app)
    {
      hide TableOk;
      ghost var s := app;
      visited := [];
      var el := head;
      var tmp := if head != null then head.next else null;
      while el != null
        invariant Valid() && |visited| <= |s| && visited == s[..|visited|] && app == s[|visited|..]
        invariant el == At(app, 0) && tmp == At(app, 1)
        decreases |app|
      {
        Delete(el);
        visited := visited + [el];
        el := tmp;
        tmp := if tmp != null then tmp.next else null;
      }
    }

    // ----- HASH_FSCK

    /** The walk over one bucket chain: its length, and whether every back link is right. */
    method FsckChain(first: Elem?, ghost c: seq<Elem>) returns (ok: bool, count: nat)
      requires ChainRuns(c) && first == At(c, 0)
      ensures count == |c| && (ok <==> ChainBack(c))
    {
      ok, count := true, 0;
      var thh, prev: Elem? := first, null;
      while thh != null
        invariant count <= |c| && thh == At(c, count) && prev == At(c, count - 1)
        invariant ok <==> forall i {:trigger c[i].hhPrev} :: 0 <= i < count ==> c[i].hhPrev == At(c, i - 1)
        decreases |c| - count
      {
        if prev != thh.hhPrev {
          ok := false;
        }
        count := count + 1;
        prev, thh := thh, thh.hhNext;
      }
    }

    /** The walk over the application list. */
    method FsckApp(ghost s: seq<Elem>) returns (ok: bool, count: nat)
      requires AppRuns(s) && head == At(s, 0)
      ensures count == |s| && (ok <==> AppBack(s))
    {
      ok, count := true, 0;
      var thh, prev: Elem? := head, null;
      while thh != null
        invariant count <= |s| && thh == At(s, count) && prev == At(s, count - 1)
        invariant ok <==> forall i {:trigger s[i].prev} :: 0 <= i < count ==> s[i].prev == At(s, i - 1)
        decreases |s| - count
      {
        if prev != thh.prev {
          ok := false;
        }
        count := count + 1;
        prev, thh := thh, thh.next;
      }
    }

    /** The forward links lead through the chains `cs` and the list `s`; nothing else is known. */
    ghost predicate Walks(cs: seq<seq<Elem>>, s: seq<Elem>)
      reads this`head, this`buckets, this`numBuckets, buckets, s`next, set b, i | 0 <= b < |cs| && 0 <= i < |cs[b]| :: cs[b][i]
    {
      && head == At(s, 0) && AppRuns(s)
      && numBuckets == buckets.Length == |cs|
      && forall b :: 0 <= b < |cs| ==> buckets[b].hhHead == At(cs[b], 0) && ChainRuns(cs[b])
    }

    /** What HASH_FSCK demands: right back links, bucket counts and totals. */
    ghost predicate Sane(cs: seq<seq<Elem>>, s: seq<Elem>)
      reads this`buckets, this`numItems, buckets, s`prev, set b, i | 0 <= b < |cs| && 0 <= i < |cs[b]| :: cs[b][i]
    {
      && AppBack(s) && numItems == |s| == SumLen(cs)
      && forall b :: 0 <= b < |cs| && b < buckets.Length ==> ChainBack(cs[b]) && buckets[b].count == |cs[b]|
    }

    /** HASH_FSCK: finds a fault exactly if there is one. */
    method Fsck(ghost cs: seq<seq<Elem>>, ghost s: seq<Elem>) returns (ok: bool)
      requires head != null ==> Walks(cs, s)
      ensures ok <==> head == null || Sane(cs, s)
    {
      ok := true;
      if head != null {
        var count := 0;
        for i := 0 to numBuckets
          invariant count == SumLen(cs[..i])
          invariant ok <==> forall b :: 0 <= b < i ==> ChainBack(cs[b]) && buckets[b].count == |cs[b]|
        {
          var good, n := FsckChain(buckets[i].hhHead, cs[i]);
          count := count + n;
          assert cs[..i + 1][..i] == cs[..i];
          ok := ok && good && buckets[i].count == n;
        }
        assert cs[..numBuckets] == cs;
        ok := ok && count == numItems;
        var good, n := FsckApp(s);
        ok := ok && good && n == numItems;
      }
    }

    /** A valid table has no fault. */
    lemma ValidIsSane()
      requires Valid() && head != null
      ensures Walks(tbl.chains, app) && Sane(tbl.chains, app)
    {
    }
  }
}
