/** The bottom-up merge sort that HASH_SRT runs on the application list, and the
    ordered insertion that the in-order adds run, as functions on sequences.
    Both are shown to give the one stable sorted rearrangement. */
module StableSort {

  // ----- the specification

  /** `cmp` orders the elements of `s` as a total preorder. */
  ghost predicate Preorder<T>(cmp: (T, T) -> int, s: seq<T>) {
    && (forall a, b {:trigger cmp(a, b)} :: a in s && b in s ==> cmp(a, b) <= 0 || cmp(b, a) <= 0)
    && (forall a, b, c {:trigger cmp(a, b), cmp(b, c)} ::
          a in s && b in s && c in s && cmp(a, b) <= 0 && cmp(b, c) <= 0 ==> cmp(a, c) <= 0)
  }

  ghost predicate Within<T>(s: seq<T>, u: seq<T>) {
    forall i :: 0 <= i < |s| ==> s[i] in u
  }

  ghost predicate Sorted<T>(cmp: (T, T) -> int, s: seq<T>) {
    forall i, j :: 0 <= i < j < |s| ==> cmp(s[i], s[j]) <= 0
  }

  predicate Equal<T>(cmp: (T, T) -> int, a: T, b: T) {
    cmp(a, b) <= 0 && cmp(b, a) <= 0
  }

  /** The elements of `s` that compare equal to `x`, in their order. */
  function Class<T>(cmp: (T, T) -> int, s: seq<T>, x: T): seq<T> {
    if s == [] then []
    else if Equal(cmp, s[0], x) then [s[0]] + Class(cmp, s[1..], x)
    else Class(cmp, s[1..], x)
  }

  /** `t` has the same classes as `s`, each in the same order. */
  ghost predicate SameClasses<T>(cmp: (T, T) -> int, s: seq<T>, t: seq<T>) {
    forall x :: x in s ==> Class(cmp, s, x) == Class(cmp, t, x)
  }

  /** `t` is a sorted permutation of `s` that keeps equals in their order. */
  ghost predicate StableSorted<T>(cmp: (T, T) -> int, s: seq<T>, t: seq<T>) {
    && multiset(s) == multiset(t)
    && Sorted(cmp, t)
    && SameClasses(cmp, s, t)
  }

  // ----- the algorithms

  /** One run of the innermost loop of HASH_SRT: on a tie the left run goes first. */
  function Merge<T>(cmp: (T, T) -> int, a: seq<T>, b: seq<T>): seq<T> {
    if a == [] then b
    else if b == [] then a
    else if cmp(a[0], b[0]) <= 0 then [a[0]] + Merge(cmp, a[1..], b)
    else [b[0]] + Merge(cmp, a, b[1..])
  }

  function Min(a: int, b: int): int { if a < b then a else b }

  /** One pass: neighbouring runs of length `k` are merged in pairs. */
  function MergePass<T>(cmp: (T, T) -> int, s: seq<T>, k: nat): seq<T>
    requires k > 0
    decreases |s|
  {
    if s == [] then []
    else
      var p, q := Min(k, |s|), Min(2 * k, |s|);
      Merge(cmp, s[..p], s[p..q]) + MergePass(cmp, s[q..], k)
  }

  lemma MergePassUnfold<T>(cmp: (T, T) -> int, s: seq<T>, k: nat)
    requires k > 0 && s != []
    ensures var p, q := Min(k, |s|), Min(2 * k, |s|);
            MergePass(cmp, s, k) == Merge(cmp, s[..p], s[p..q]) + MergePass(cmp, s[q..], k)
  {
  }

  /** The outer loop: passes with doubling run length until one merge sufficed. */
  function BottomUp<T>(cmp: (T, T) -> int, s: seq<T>, k: nat): seq<T>
    requires k > 0
    decreases if |s| <= 2 * k then 0 else |s| - k
  {
    var t := MergePass(cmp, s, k);
    if |s| <= 2 * k then t else
      MergePassPerm(cmp, s, k);
      PermLength(s, t);
      BottomUp(cmp, t, 2 * k)
  }

  function MergeSort<T>(cmp: (T, T) -> int, s: seq<T>): seq<T> {
    BottomUp(cmp, s, 1)
  }

  /** The place an in-order add takes: before the first larger element. */
  function Insert<T>(cmp: (T, T) -> int, s: seq<T>, x: T): seq<T> {
    if s == [] then [x]
    else if cmp(s[0], x) > 0 then [x] + s
    else [s[0]] + Insert(cmp, s[1..], x)
  }

  lemma {:induction false} InsertAt<T>(cmp: (T, T) -> int, s: seq<T>, x: T, k: nat)
    requires k <= |s| && (forall j :: 0 <= j < k ==> cmp(s[j], x) <= 0) && (k < |s| ==> cmp(s[k], x) > 0)
    ensures Insert(cmp, s, x) == s[..k] + [x] + s[k..]
  {
    if k > 0 {
      InsertAt(cmp, s[1..], x, k - 1);
      assert s[..k] == [s[0]] + s[1..][..k - 1] && s[1..][k - 1..] == s[k..];
    }
  }

  /** In-order adds of the elements of `s`, first to last. */
  function InsertAll<T>(cmp: (T, T) -> int, s: seq<T>): seq<T> {
    if s == [] then [] else Insert(cmp, InsertAll(cmp, s[..|s| - 1]), s[|s| - 1])
  }

  // ----- permutations

  lemma PermLength<T>(s: seq<T>, t: seq<T>)
    requires multiset(s) == multiset(t)
    ensures |s| == |t|
  {
    assert |multiset(s)| == |s| && |multiset(t)| == |t|;
  }

  lemma PermMembers<T>(s: seq<T>, t: seq<T>)
    requires multiset(s) == multiset(t)
    ensures Within(s, t) && Within(t, s)
  {
    forall i | 0 <= i < |s| ensures s[i] in t { assert s[i] in multiset(t); }
    forall i | 0 <= i < |t| ensures t[i] in s { assert t[i] in multiset(s); }
  }

  lemma {:induction false} MergePerm<T>(cmp: (T, T) -> int, a: seq<T>, b: seq<T>)
    ensures multiset(Merge(cmp, a, b)) == multiset(a) + multiset(b)
    decreases |a| + |b|
  {
    if a != [] && b != [] {
      if cmp(a[0], b[0]) <= 0 {
        assert a == [a[0]] + a[1..];
        MergePerm(cmp, a[1..], b);
      } else {
        assert b == [b[0]] + b[1..];
        MergePerm(cmp, a, b[1..]);
      }
    }
  }

  lemma {:induction false} MergePassPerm<T>(cmp: (T, T) -> int, s: seq<T>, k: nat)
    requires k > 0
    ensures multiset(MergePass(cmp, s, k)) == multiset(s)
    decreases |s|
  {
    if s != [] {
      var p, q := Min(k, |s|), Min(2 * k, |s|);
      var a, b, c := s[..p], s[p..q], s[q..];
      Split3(s, p, q);
      MergePerm(cmp, a, b);
      MergePassPerm(cmp, c, k);
      Perm3(s, a, b, c, Merge(cmp, a, b), MergePass(cmp, c, k));
    }
  }

  lemma Split3<T>(s: seq<T>, p: nat, q: nat)
    requires p <= q <= |s|
    ensures s == s[..p] + s[p..q] + s[q..]
  {
  }

  lemma Perm3<T>(s: seq<T>, a: seq<T>, b: seq<T>, c: seq<T>, m: seq<T>, r: seq<T>)
    requires s == a + b + c
    requires multiset(m) == multiset(a) + multiset(b) && multiset(r) == multiset(c)
    ensures multiset(m + r) == multiset(s)
  {
  }

  lemma {:induction false} InsertPerm<T>(cmp: (T, T) -> int, s: seq<T>, x: T)
    ensures multiset(Insert(cmp, s, x)) == multiset(s) + multiset{x}
  {
    if s != [] && cmp(s[0], x) <= 0 {
      assert s == [s[0]] + s[1..];
      InsertPerm(cmp, s[1..], x);
    }
  }

  // ----- classes

  lemma {:induction false} ClassConcat<T>(cmp: (T, T) -> int, a: seq<T>, b: seq<T>, x: T)
    ensures Class(cmp, a + b, x) == Class(cmp, a, x) + Class(cmp, b, x)
  {
    if a == [] {
      assert a + b == b;
    } else {
      assert (a + b)[1..] == a[1..] + b;
      ClassConcat(cmp, a[1..], b, x);
    }
  }

  lemma ClassCons<T>(cmp: (T, T) -> int, e: T, t: seq<T>, x: T)
    ensures Class(cmp, [e] + t, x) == if Equal(cmp, e, x) then [e] + Class(cmp, t, x) else Class(cmp, t, x)
  {
    assert ([e] + t)[1..] == t;
  }

  lemma {:induction false} ClassEmpty<T>(cmp: (T, T) -> int, s: seq<T>, x: T)
    requires forall i :: 0 <= i < |s| ==> !Equal(cmp, s[i], x)
    ensures Class(cmp, s, x) == []
  {
    if s != [] { ClassEmpty(cmp, s[1..], x); }
  }

  /** Elements of a sorted run above `y` share no class with `y`. */
  lemma AboveNotEqual<T>(cmp: (T, T) -> int, a: seq<T>, y: T, x: T, u: seq<T>)
    requires Preorder(cmp, u) && Within(a, u) && y in u && x in u
    requires Sorted(cmp, a) && a != [] && cmp(a[0], y) > 0 && Equal(cmp, y, x)
    ensures Class(cmp, a, x) == []
  {
    forall i | 0 <= i < |a| ensures !Equal(cmp, a[i], x) {
      assert a[0] in a && a[i] in a && cmp(a[0], a[0]) <= 0;
      assert cmp(a[0], a[i]) <= 0;
      assert cmp(a[i], y) > 0;
      assert cmp(x, y) <= 0;
    }
    ClassEmpty(cmp, a, x);
  }

  lemma {:induction false} MergeClass<T>(cmp: (T, T) -> int, a: seq<T>, b: seq<T>, x: T, u: seq<T>)
    requires Preorder(cmp, u) && Within(a, u) && Within(b, u) && x in u
    requires Sorted(cmp, a) && Sorted(cmp, b)
    ensures Class(cmp, Merge(cmp, a, b), x) == Class(cmp, a, x) + Class(cmp, b, x)
    decreases |a| + |b|
  {
    if a != [] && b != [] {
      assert a[0] in a && b[0] in b;
      if cmp(a[0], b[0]) <= 0 {
        MergeClass(cmp, a[1..], b, x, u);
        ClassCons(cmp, a[0], Merge(cmp, a[1..], b), x);
      } else {
        MergeClass(cmp, a, b[1..], x, u);
        ClassCons(cmp, b[0], Merge(cmp, a, b[1..]), x);
        if Equal(cmp, b[0], x) {
          AboveNotEqual(cmp, a, b[0], x, u);
        }
      }
    }
  }

  // ----- sortedness

  lemma SortedCons<T>(cmp: (T, T) -> int, x: T, t: seq<T>)
    requires Sorted(cmp, t) && forall e :: e in t ==> cmp(x, e) <= 0
    ensures Sorted(cmp, [x] + t)
  {
    var r := [x] + t;
    forall i, j | 0 <= i < j < |r| ensures cmp(r[i], r[j]) <= 0 {
      assert r[j] == t[j - 1] && t[j - 1] in t;
      if i > 0 { assert r[i] == t[i - 1]; }
    }
  }

  lemma HeadLeast<T>(cmp: (T, T) -> int, a: seq<T>, u: seq<T>)
    requires Preorder(cmp, u) && Within(a, u)
    requires a != [] && Sorted(cmp, a)
    ensures forall e :: e in a ==> cmp(a[0], e) <= 0
  {
    forall e | e in a ensures cmp(a[0], e) <= 0 {
      var i :| 0 <= i < |a| && a[i] == e;
      assert a[0] in a;
      if i == 0 { assert cmp(a[0], a[0]) <= 0; }
    }
  }

  lemma {:induction false} MergeSorted<T>(cmp: (T, T) -> int, a: seq<T>, b: seq<T>, u: seq<T>)
    requires Preorder(cmp, u) && Within(a, u) && Within(b, u)
    requires Sorted(cmp, a) && Sorted(cmp, b)
    ensures Sorted(cmp, Merge(cmp, a, b))
    decreases |a| + |b|
  {
    if a != [] && b != [] {
      assert a[0] in a && b[0] in b;
      HeadLeast(cmp, a, u);
      HeadLeast(cmp, b, u);
      if cmp(a[0], b[0]) <= 0 {
        MergeSorted(cmp, a[1..], b, u);
        MergeMembers(cmp, a[1..], b);
        SortedCons(cmp, a[0], Merge(cmp, a[1..], b));
      } else {
        MergeSorted(cmp, a, b[1..], u);
        MergeMembers(cmp, a, b[1..]);
        SortedCons(cmp, b[0], Merge(cmp, a, b[1..]));
      }
    }
  }

  lemma MergeMembers<T>(cmp: (T, T) -> int, a: seq<T>, b: seq<T>)
    ensures Within(Merge(cmp, a, b), a + b)
  {
    MergePerm(cmp, a, b);
    assert multiset(a) + multiset(b) == multiset(a + b);
    PermMembers(Merge(cmp, a, b), a + b);
  }

  /** Every block `[j * k, (j + 1) * k)` of `s` is sorted. */
  ghost predicate RunsSorted<T>(cmp: (T, T) -> int, s: seq<T>, k: nat)
    requires k > 0
    decreases |s|
  {
    s == [] ||
    var p := Min(k, |s|);
    Sorted(cmp, s[..p]) && RunsSorted(cmp, s[p..], k)
  }

  lemma {:induction false} SingletonRuns<T>(cmp: (T, T) -> int, s: seq<T>)
    ensures RunsSorted(cmp, s, 1)
  {
    if s != [] { SingletonRuns(cmp, s[1..]); }
  }

  lemma {:induction false} MergePassRuns<T>(cmp: (T, T) -> int, s: seq<T>, k: nat, u: seq<T>)
    requires k > 0 && Preorder(cmp, u) && Within(s, u)
    requires RunsSorted(cmp, s, k)
    ensures RunsSorted(cmp, MergePass(cmp, s, k), 2 * k)
    decreases |s|
  {
    if s != [] {
      var p, q := Min(k, |s|), Min(2 * k, |s|);
      var a, b, m, t := s[..p], s[p..q], Merge(cmp, s[..p], s[p..q]), MergePass(cmp, s[q..], k);
      SecondRun(cmp, s, k);
      MergeSorted(cmp, a, b, u);
      MergePassRuns(cmp, s[q..], k, u);
      MergePerm(cmp, a, b);
      PermLength(m, a + b);
      MergePassPerm(cmp, s[q..], k);
      PermLength(t, s[q..]);
      RunsCons(cmp, m, t, 2 * k);
    }
  }

  lemma RunsCons<T>(cmp: (T, T) -> int, m: seq<T>, t: seq<T>, k: nat)
    requires k > 0 && Sorted(cmp, m) && RunsSorted(cmp, t, k)
    requires |m| == k || (|m| < k && t == [])
    ensures RunsSorted(cmp, m + t, k)
  {
    var p := Min(k, |m + t|);
    assert (m + t)[..p] == m && (m + t)[p..] == t;
  }

  lemma SecondRun<T>(cmp: (T, T) -> int, s: seq<T>, k: nat)
    requires k > 0 && s != [] && RunsSorted(cmp, s, k)
    ensures Sorted(cmp, s[Min(k, |s|)..Min(2 * k, |s|)])
    ensures RunsSorted(cmp, s[Min(2 * k, |s|)..], k)
  {
    hide Sorted;
    var p, q := Min(k, |s|), Min(2 * k, |s|);
    var r := s[p..];
    SliceSlice(s, p, q);
    if r != [] {
      assert Min(k, |r|) == q - p;
    } else {
      NothingSorted(cmp, s[p..q]);
    }
  }

  lemma NothingSorted<T>(cmp: (T, T) -> int, s: seq<T>)
    requires |s| == 0
    ensures Sorted(cmp, s)
  {
  }

  lemma SliceSlice<T>(s: seq<T>, p: nat, q: nat)
    requires p <= q <= |s|
    ensures s[p..][..q - p] == s[p..q] && s[p..][q - p..] == s[q..]
  {
  }

  lemma {:induction false} MergePassClass<T>(cmp: (T, T) -> int, s: seq<T>, k: nat, x: T, u: seq<T>)
    requires k > 0 && Preorder(cmp, u) && Within(s, u) && x in u
    requires RunsSorted(cmp, s, k)
    ensures Class(cmp, MergePass(cmp, s, k), x) == Class(cmp, s, x)
    decreases |s|
  {
    if s != [] {
      var p, q := Min(k, |s|), Min(2 * k, |s|);
      var a, b, r := s[..p], s[p..q], s[q..];
      SecondRun(cmp, s, k);
      MergeClass(cmp, a, b, x, u);
      MergePassClass(cmp, r, k, x, u);
      Split3(s, p, q);
      ClassConcat(cmp, Merge(cmp, a, b), MergePass(cmp, r, k), x);
      ClassSplit(cmp, s, a, b, r, x);
    }
  }

  lemma ClassSplit<T>(cmp: (T, T) -> int, s: seq<T>, a: seq<T>, b: seq<T>, c: seq<T>, x: T)
    requires s == a + b + c
    ensures Class(cmp, s, x) == Class(cmp, a, x) + Class(cmp, b, x) + Class(cmp, c, x)
  {
    ClassConcat(cmp, a, b, x);
    ClassConcat(cmp, a + b, c, x);
  }

  // ----- the theorems

  lemma {:induction false} BottomUpStable<T>(cmp: (T, T) -> int, s: seq<T>, k: nat, u: seq<T>)
    requires k > 0 && Preorder(cmp, u) && Within(s, u) && RunsSorted(cmp, s, k)
    ensures StableSorted(cmp, s, BottomUp(cmp, s, k))
    decreases if |s| <= 2 * k then 0 else |s| - k
  {
    var t := MergePass(cmp, s, k);
    MergePassPerm(cmp, s, k);
    PermLength(s, t);
    PermMembers(s, t);
    MergePassRuns(cmp, s, k, u);
    forall x | x in s ensures Class(cmp, s, x) == Class(cmp, t, x) {
      MergePassClass(cmp, s, k, x, u);
    }
    if |s| <= 2 * k {
      assert t[..|t|] == t;
    } else {
      BottomUpStable(cmp, t, 2 * k, u);
    }
  }

  /** Whatever the comparison answers, sorting only rearranges. */
  lemma {:induction false} BottomUpPerm<T>(cmp: (T, T) -> int, s: seq<T>, k: nat)
    requires k > 0
    ensures multiset(BottomUp(cmp, s, k)) == multiset(s)
    decreases if |s| <= 2 * k then 0 else |s| - k
  {
    MergePassPerm(cmp, s, k);
    PermLength(s, MergePass(cmp, s, k));
    if |s| > 2 * k { BottomUpPerm(cmp, MergePass(cmp, s, k), 2 * k); }
  }

  /** HASH_SRT's sort is a stable sort, for every list and every total preorder. */
  lemma MergeSortStable<T>(cmp: (T, T) -> int, s: seq<T>)
    requires Preorder(cmp, s)
    ensures StableSorted(cmp, s, MergeSort(cmp, s))
  {
    SingletonRuns(cmp, s);
    BottomUpStable(cmp, s, 1, s);
  }

  lemma {:induction false} InsertSorted<T>(cmp: (T, T) -> int, s: seq<T>, x: T, u: seq<T>)
    requires Preorder(cmp, u) && Within(s, u) && x in u
    requires Sorted(cmp, s)
    ensures Sorted(cmp, Insert(cmp, s, x))
  {
    if s != [] {
      HeadLeast(cmp, s, u);
      assert s[0] in s;
      if cmp(s[0], x) > 0 {
        SortedCons(cmp, x, s);
      } else {
        InsertSorted(cmp, s[1..], x, u);
        InsertPerm(cmp, s[1..], x);
        assert multiset(s[1..] + [x]) == multiset(s[1..]) + multiset{x};
        PermMembers(Insert(cmp, s[1..], x), s[1..] + [x]);
        SortedCons(cmp, s[0], Insert(cmp, s[1..], x));
      }
    }
  }

  lemma {:induction false} InsertClass<T>(cmp: (T, T) -> int, s: seq<T>, x: T, y: T, u: seq<T>)
    requires Preorder(cmp, u) && Within(s, u) && x in u && y in u
    requires Sorted(cmp, s)
    ensures Class(cmp, Insert(cmp, s, x), y) == Class(cmp, s, y) + Class(cmp, [x], y)
  {
    if s != [] {
      if cmp(s[0], x) > 0 {
        ClassCons(cmp, x, s, y);
        if Equal(cmp, x, y) {
          AboveNotEqual(cmp, s, x, y, u);
        }
      } else {
        InsertClass(cmp, s[1..], x, y, u);
        ClassCons(cmp, s[0], Insert(cmp, s[1..], x), y);
      }
    }
  }

  /** Building a list by in-order adds is a stable sort too. */
  lemma {:induction false} InsertAllStable<T>(cmp: (T, T) -> int, s: seq<T>, u: seq<T>)
    requires Preorder(cmp, u) && Within(s, u)
    ensures StableSorted(cmp, s, InsertAll(cmp, s))
  {
    if s != [] {
      var r, x := s[..|s| - 1], s[|s| - 1];
      InsertAllStable(cmp, r, u);
      var t := InsertAll(cmp, r);
      assert s == r + [x];
      PermMembers(r, t);
      InsertPerm(cmp, t, x);
      InsertSorted(cmp, t, x, u);
      forall y | y in s ensures Class(cmp, s, y) == Class(cmp, Insert(cmp, t, x), y) {
        InsertClass(cmp, t, x, y, u);
        ClassConcat(cmp, r, [x], y);
        AbsentClass(cmp, r, t, y, u);
      }
    }
  }

  /** Stable rearrangements agree on the class of any element, listed or not. */
  lemma AbsentClass<T>(cmp: (T, T) -> int, s: seq<T>, t: seq<T>, y: T, u: seq<T>)
    requires Preorder(cmp, u) && Within(s, u) && y in u
    requires multiset(s) == multiset(t) && SameClasses(cmp, s, t)
    ensures Class(cmp, s, y) == Class(cmp, t, y)
  {
    PermMembers(s, t);
    if x :| x in s && Equal(cmp, x, y) {
      EqualClass(cmp, s, x, y, u);
      EqualClass(cmp, t, x, y, u);
    } else {
      ClassEmpty(cmp, s, y);
      ClassEmpty(cmp, t, y);
    }
  }

  lemma {:induction false} EqualClass<T>(cmp: (T, T) -> int, s: seq<T>, x: T, y: T, u: seq<T>)
    requires Preorder(cmp, u) && Within(s, u) && x in u && y in u
    requires Equal(cmp, x, y)
    ensures Class(cmp, s, x) == Class(cmp, s, y)
  {
    if s != [] {
      assert s[0] in s;
      EqualClass(cmp, s[1..], x, y, u);
    }
  }

  /** There is only one stable sorted rearrangement. */
  lemma {:induction false} StableUnique<T>(cmp: (T, T) -> int, s: seq<T>, t: seq<T>, u: seq<T>)
    requires Preorder(cmp, u) && Within(s, u)
    requires Sorted(cmp, s) && StableSorted(cmp, s, t)
    ensures s == t
    decreases |s|
  {
    hide Preorder, StableSorted;
    StableLength(cmp, s, t);
    if s != [] {
      SameHead(cmp, s, t, u);
      TailsStable(cmp, s, t);
      StableUnique(cmp, s[1..], t[1..], u);
      assert s == [s[0]] + s[1..] && t == [t[0]] + t[1..];
    }
  }

  lemma StableLength<T>(cmp: (T, T) -> int, s: seq<T>, t: seq<T>)
    requires StableSorted(cmp, s, t)
    ensures |s| == |t|
  {
    PermLength(s, t);
  }

  lemma TailsStable<T>(cmp: (T, T) -> int, s: seq<T>, t: seq<T>)
    requires s != [] && t != [] && s[0] == t[0] && StableSorted(cmp, s, t)
    ensures StableSorted(cmp, s[1..], t[1..])
  {
    TailMultiset(s);
    TailMultiset(t);
    forall x | x in s[1..] ensures Class(cmp, s[1..], x) == Class(cmp, t[1..], x) {
      assert x in s;
      TailClass(cmp, s, t, x);
    }
  }

  lemma TailMultiset<T>(s: seq<T>)
    requires s != []
    ensures multiset(s[1..]) == multiset(s) - multiset{s[0]}
  {
    assert s == [s[0]] + s[1..];
  }

  lemma TailClass<T>(cmp: (T, T) -> int, s: seq<T>, t: seq<T>, x: T)
    requires s != [] && t != [] && s[0] == t[0] && Class(cmp, s, x) == Class(cmp, t, x)
    ensures Class(cmp, s[1..], x) == Class(cmp, t[1..], x)
  {
    if Equal(cmp, s[0], x) {
      assert Class(cmp, s[1..], x) == Class(cmp, s, x)[1..];
      assert Class(cmp, t[1..], x) == Class(cmp, t, x)[1..];
    }
  }

  lemma SameHead<T>(cmp: (T, T) -> int, s: seq<T>, t: seq<T>, u: seq<T>)
    requires Preorder(cmp, u) && Within(s, u)
    requires s != [] && t != [] && Sorted(cmp, s) && StableSorted(cmp, s, t)
    ensures s[0] == t[0]
  {
    PermMembers(s, t);
    HeadLeast(cmp, s, u);
    HeadLeast(cmp, t, u);
    assert s[0] in s && t[0] in t;
    assert Equal(cmp, s[0], s[0]) && Equal(cmp, t[0], s[0]);
    assert Class(cmp, s, s[0])[0] == s[0];
    assert Class(cmp, t, s[0])[0] == t[0];
  }

  /** In-order adds give the same application order as plain adds followed by HASH_SRT. */
  lemma InOrderAddsEqualSort<T>(cmp: (T, T) -> int, s: seq<T>)
    requires Preorder(cmp, s)
    ensures InsertAll(cmp, s) == MergeSort(cmp, s)
  {
    var a, b := InsertAll(cmp, s), MergeSort(cmp, s);
    InsertAllStable(cmp, s, s);
    MergeSortStable(cmp, s);
    PermMembers(s, a);
    StableUnique(cmp, a, b, s);
  }
}
