/** HASH_SRT: a bottom-up merge sort that relinks the application list in place. */
module UtHashSort {
  import opened Elements
  import opened StableSort

  /** `next` leads through `s`; past its end it may point anywhere. */
  ghost predicate Run(s: seq<Elem>)
    reads s`next
  {
    forall i {:trigger s[i].next} :: 0 <= i < |s| - 1 ==> s[i].next == s[i + 1]
  }

  /** The merged part of the new list: doubly linked, its last `next` not yet set. */
  ghost predicate Merged(s: seq<Elem>)
    reads s`prev, s`next
  {
    Run(s) && forall i {:trigger s[i].prev} :: 0 <= i < |s| ==> s[i].prev == At(s, i - 1)
  }

  ghost predicate Disjoint(a: seq<Elem>, b: seq<Elem>) {
    forall i, j :: 0 <= i < |a| && 0 <= j < |b| ==> a[i] != b[j]
  }

  ghost predicate Apart(out: seq<Elem>, p: seq<Elem>, r: seq<Elem>) {
    && Distinct(out) && Distinct(p) && Distinct(r)
    && Disjoint(out, p) && Disjoint(out, r) && Disjoint(p, r)
  }

  /** What the merge works on: the new list, the left run, and the rest of the old list. */
  ghost predicate Merging(out: seq<Elem>, p: seq<Elem>, r: seq<Elem>)
    reads out`prev, out`next, p`next, r`next
  {
    Apart(out, p, r) && Merged(out) && Run(p) && AppRuns(r)
  }

  /** Appends `e` to the new list. */
  method Emit(e: Elem, tail: Elem?, list0: Elem?, ghost out: seq<Elem>) returns (list: Elem?)
    requires Merged(out) && Distinct(out) && e !in out
    requires tail == At(out, |out| - 1) && list0 == At(out, 0)
    modifies out`next, e`prev
    ensures Merged(out + [e]) && list == At(out + [e], 0)
  {
    list := list0;
    if tail != null {
      tail.next := e;
    } else {
      list := e;
    }
    e.prev := tail;
  }

  /** The part of the rest that belongs to the right run. */
  function Take(r: seq<Elem>, n: nat): seq<Elem> { r[..Min(n, |r|)] }

  /** What comes after it. */
  function Rest(r: seq<Elem>, n: nat): seq<Elem> { r[Min(n, |r|)..] }

  method TakeLeft(p: Elem, tail: Elem?, list0: Elem?, ghost out: seq<Elem>, ghost ps: seq<Elem>, ghost r: seq<Elem>)
    returns (p': Elem?, list: Elem?)
    requires Merging(out, ps, r) && ps != [] && p == ps[0]
    requires tail == At(out, |out| - 1) && list0 == At(out, 0)
    modifies out`next, p`prev
    ensures Merging(out + [p], ps[1..], r) && list == At(out + [p], 0)
    ensures |ps| > 1 ==> p' == ps[1]
  {
    p' := p.next;
    list := Emit(p, tail, list0, out);
  }

  method TakeRight(q: Elem, tail: Elem?, list0: Elem?, ghost out: seq<Elem>, ghost ps: seq<Elem>, ghost r: seq<Elem>)
    returns (q': Elem?, list: Elem?)
    requires Merging(out, ps, r) && r != [] && q == r[0]
    requires tail == At(out, |out| - 1) && list0 == At(out, 0)
    modifies out`next, q`prev
    ensures Merging(out + [q], ps, r[1..]) && list == At(out + [q], 0)
    ensures q' == At(r, 1)
  {
    q' := q.next;
    list := Emit(q, tail, list0, out);
  }

  ghost predicate Ends(tail: Elem?, list: Elem?, out: seq<Elem>) {
    tail == At(out, |out| - 1) && list == At(out, 0)
  }

  /** What the new list will be once the runs are merged. */
  function Goal(cmp: (Elem, Elem) -> int, out: seq<Elem>, ps: seq<Elem>, r: seq<Elem>, n: nat): seq<Elem> {
    out + Merge(cmp, ps, Take(r, n))
  }

  /** The innermost loop of HASH_SRT: merges the left run `ps0` with the first
      `insize` elements of the rest `r0` onto the new list `out0`. */
  method MergeRuns(cmp: (Elem, Elem) -> int, p0: Elem?, q0: Elem?, psize0: nat, insize: nat, tail0: Elem?, list0: Elem?,
                   ghost out0: seq<Elem>, ghost ps0: seq<Elem>, ghost r0: seq<Elem>, ghost S: set<Elem>)
    returns (q: Elem?, tail: Elem?, list: Elem?, ghost out: seq<Elem>)
    requires Merging(out0, ps0, r0) && Ends(tail0, list0, out0)
    requires psize0 == |ps0| && (ps0 != [] ==> p0 == ps0[0]) && q0 == At(r0, 0)
    requires Inside(out0, S) && Inside(ps0, S) && Inside(r0, S)
    modifies S`prev, S`next
    ensures out == Goal(cmp, out0, ps0, r0, insize)
    ensures Merging(out, [], Rest(r0, insize)) && Ends(tail, list, out)
    ensures q == At(Rest(r0, insize), 0)
    ensures Inside(out, S)
  {
    hide Merging, Goal, Rest;
    var p := p0;
    var psize: nat, qsize: nat := psize0, insize;
    q, tail, list, out := q0, tail0, list0, out0;
    ghost var ps, r := ps0, r0;
    while psize != 0 || (qsize != 0 && q != null)
      invariant Merging(out, ps, r) && Ends(tail, list, out)
      invariant psize == |ps| && (ps != [] ==> p == ps[0]) && q == At(r, 0)
      invariant Rest(r, qsize) == Rest(r0, insize)
      invariant Inside(out, S) && Inside(ps, S) && Inside(r, S)
      invariant Goal(cmp, out, ps, r, qsize) == Goal(cmp, out0, ps0, r0, insize)
      decreases psize + qsize
    {
      if psize != 0 && (qsize == 0 || q == null || cmp(p, q) <= 0) {
        MergeLeft(cmp, out, ps, r, qsize);
        var p', l := TakeLeft(p, tail, list, out, ps, r);
        tail, out, ps := p, out + [p], ps[1..];
        p, psize, list := p', psize - 1, l;
      } else {
        MergeRight(cmp, out, ps, r, qsize);
        var q', l := TakeRight(q, tail, list, out, ps, r);
        tail, out, r := q, out + [q], r[1..];
        q, qsize, list := q', qsize - 1, l;
      }
    }
    MergeEmpty(cmp, out, r, qsize);
  }

  lemma MergeLeft(cmp: (Elem, Elem) -> int, out: seq<Elem>, ps: seq<Elem>, r: seq<Elem>, n: nat)
    requires ps != [] && (n == 0 || r == [] || cmp(ps[0], r[0]) <= 0)
    ensures Goal(cmp, out, ps, r, n) == Goal(cmp, out + [ps[0]], ps[1..], r, n)
  {
    var b := Take(r, n);
    if b == [] { assert Merge(cmp, ps[1..], b) == ps[1..]; }
    Assoc(out, [ps[0]], Merge(cmp, ps[1..], b));
  }

  lemma MergeRight(cmp: (Elem, Elem) -> int, out: seq<Elem>, ps: seq<Elem>, r: seq<Elem>, n: nat)
    requires n > 0 && r != [] && (ps == [] || cmp(ps[0], r[0]) > 0)
    ensures Goal(cmp, out, ps, r, n) == Goal(cmp, out + [r[0]], ps, r[1..], n - 1)
    ensures Rest(r, n) == Rest(r[1..], n - 1)
  {
    assert Take(r, n) == [r[0]] + Take(r[1..], n - 1);
    Assoc(out, [r[0]], Merge(cmp, ps, Take(r[1..], n - 1)));
  }

  lemma MergeEmpty(cmp: (Elem, Elem) -> int, out: seq<Elem>, r: seq<Elem>, n: nat)
    requires n == 0 || r == []
    ensures Goal(cmp, out, [], r, n) == out && Rest(r, n) == r
  {
  }

  /** Walks `q` over the left run: at most `insize` elements. */
  method StepOver(p: Elem, insize: nat, ghost r: seq<Elem>) returns (q: Elem?, psize: nat)
    requires AppRuns(r) && r != [] && p == r[0] && insize > 0
    ensures psize == Min(insize, |r|) && q == At(r, psize)
  {
    q, psize := p, 0;
    while psize < insize && q != null
      invariant psize <= insize && psize <= |r| && q == At(r, psize)
      decreases insize - psize
    {
      psize := psize + 1;
      q := q.next;
    }
  }

  lemma SplitRun(out: seq<Elem>, r: seq<Elem>, n: nat)
    requires Merging(out, [], r) && n <= |r|
    ensures Merging(out, r[..n], r[n..]) && AppRuns(r)
  {
  }

  /** One turn of the middle loop: merges the next pair of runs. */
  method MergePair(cmp: (Elem, Elem) -> int, p: Elem, insize: nat, tail0: Elem?, list0: Elem?,
                   ghost out0: seq<Elem>, ghost r0: seq<Elem>, ghost S: set<Elem>)
    returns (p': Elem?, tail: Elem?, list: Elem?, ghost out: seq<Elem>, ghost r: seq<Elem>)
    requires insize > 0 && r0 != [] && p == r0[0]
    requires Merging(out0, [], r0) && Ends(tail0, list0, out0) && Inside(out0, S) && Inside(r0, S)
    modifies S`prev, S`next
    ensures r == r0[Min(2 * insize, |r0|)..] && p' == At(r, 0)
    ensures out + MergePass(cmp, r, insize) == out0 + MergePass(cmp, r0, insize)
    ensures Merging(out, [], r) && Ends(tail, list, out) && Inside(out, S) && Inside(r, S)
  {
    hide Merge, MergePass, Merging, AppRuns;
    SplitRun(out0, r0, 0);
    var q, psize := StepOver(p, insize, r0);
    ghost var a, b := r0[..psize], r0[psize..];
    SplitRun(out0, r0, psize);
    p', tail, list, out := MergeRuns(cmp, p, q, psize, insize, tail0, list0, out0, a, b, S);
    ghost var j := Min(2 * insize, |r0|);
    SliceSlice(r0, psize, j);
    assert Min(insize, |b|) == j - psize;
    r := r0[j..];
    PairDone(cmp, out0, r0, insize, psize, j, out);
  }

  lemma PairDone(cmp: (Elem, Elem) -> int, out: seq<Elem>, r: seq<Elem>, k: nat, p: nat, q: nat, m: seq<Elem>)
    requires k > 0 && r != [] && p == Min(k, |r|) && q == Min(2 * k, |r|)
    requires m == out + Merge(cmp, r[..p], r[p..q])
    ensures m + MergePass(cmp, r[q..], k) == out + MergePass(cmp, r, k)
  {
    hide Merge, MergePass;
    MergePassUnfold(cmp, r, k);
    Assoc(out, Merge(cmp, r[..p], r[p..q]), MergePass(cmp, r[q..], k));
  }

  lemma Assoc(a: seq<Elem>, b: seq<Elem>, c: seq<Elem>)
    ensures (a + b) + c == a + (b + c)
  {
  }

  /** The middle loop of HASH_SRT: one pass over the list. */
  method Pass(cmp: (Elem, Elem) -> int, first: Elem, insize: nat, ghost s: seq<Elem>, ghost S: set<Elem>)
    returns (list: Elem?, tail: Elem?, nmerges: nat, ghost out: seq<Elem>)
    requires insize > 0 && s != [] && first == s[0] && AppRuns(s) && Distinct(s) && Inside(s, S)
    modifies S`prev, S`next
    ensures out == MergePass(cmp, s, insize)
    ensures Distinct(out) && Merged(out) && AppRuns(out) && Ends(tail, list, out) && Inside(out, S)
    ensures nmerges <= 1 <==> |s| <= 2 * insize
  {
    hide MergePass, Merging, Merged, AppRuns;
    var p: Elem? := first;
    list, tail, nmerges, out := null, null, 0, [];
    ghost var r := s;
    assert Merging(out, [], r) by { StartPass(s); }
    assert [] + MergePass(cmp, s, insize) == MergePass(cmp, s, insize);
    while p != null
      invariant Merging(out, [], r) && Ends(tail, list, out) && Inside(out, S) && Inside(r, S) && p == At(r, 0)
      invariant out + MergePass(cmp, r, insize) == MergePass(cmp, s, insize)
      invariant nmerges == 0 ==> r == s
      invariant nmerges == 1 ==> |r| == |s| - Min(2 * insize, |s|)
      invariant nmerges > 1 ==> |s| > 2 * insize
      decreases |r|
    {
      nmerges := nmerges + 1;
      p, tail, list, out, r := MergePair(cmp, p, insize, tail, list, out, r, S);
    }
    EndPass(cmp, out, insize);
    Terminate(tail, out);
  }

  /** The new list gets its end. */
  method Terminate(tail: Elem?, ghost out: seq<Elem>)
    requires Distinct(out) && Merged(out) && tail == At(out, |out| - 1)
    modifies out`next
    ensures Merged(out) && AppRuns(out)
  {
    if tail != null {
      tail.next := null;
    }
  }

  lemma StartPass(s: seq<Elem>)
    requires Distinct(s) && AppRuns(s)
    ensures Merging([], [], s)
  {
  }

  lemma EndPass(cmp: (Elem, Elem) -> int, out: seq<Elem>, k: nat)
    requires k > 0 && Merging(out, [], [])
    ensures out + MergePass(cmp, [], k) == out
    ensures Distinct(out) && Merged(out)
  {
  }

  /** HASH_SRT: the outer loop. */
  method SortList(cmp: (Elem, Elem) -> int, first: Elem, ghost s0: seq<Elem>, ghost S: set<Elem>)
    returns (list: Elem?, tail: Elem?, ghost s: seq<Elem>)
    requires s0 != [] && first == s0[0] && AppRuns(s0) && Distinct(s0) && Inside(s0, S)
    modifies S`prev, S`next
    ensures s == MergeSort(cmp, s0)
    ensures Distinct(s) && Merged(s) && AppRuns(s) && Ends(tail, list, s) && Inside(s, S)
  {
    hide Merged, AppRuns, MergePass, BottomUp, MergeSort;
    assert MergeSort(cmp, s0) == BottomUp(cmp, s0, 1) by { SortUnfold(cmp, s0, 1); }
    var insize, looping := 1, true;
    list, s := first, s0;
    tail := null;
    while looping
      invariant insize > 0 && Distinct(s) && Inside(s, S)
      invariant looping ==> s != [] && list == s[0] && AppRuns(s)
      invariant looping ==> BottomUp(cmp, s, insize) == MergeSort(cmp, s0)
      invariant !looping ==> s == MergeSort(cmp, s0) && Merged(s) && AppRuns(s) && Ends(tail, list, s)
      decreases if looping then 1 + |s| - Min(insize, |s|) else 0
    {
      SortUnfold(cmp, s, insize);
      var nmerges;
      list, tail, nmerges, s := Pass(cmp, list, insize, s, S);
      if nmerges <= 1 {
        looping := false;
      }
      insize := insize * 2;
    }
  }

  lemma SortUnfold(cmp: (Elem, Elem) -> int, s: seq<Elem>, k: nat)
    requires k > 0
    ensures var t := MergePass(cmp, s, k);
            |t| == |s| && BottomUp(cmp, s, k) == if |s| <= 2 * k then t else BottomUp(cmp, t, 2 * k)
    ensures MergeSort(cmp, s) == BottomUp(cmp, s, 1)
  {
    MergePassPerm(cmp, s, k);
    PermLength(s, MergePass(cmp, s, k));
  }
}
