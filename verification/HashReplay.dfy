/** The heap table follows the runs of HashRuns, step by step, and HASH_FSCK
    passes after every one of them. */
module HashReplay {
  import opened Elements
  import opened HashSpec
  import opened HashRuns
  import opened UtHash
  import StableSort

  ghost predicate Abstracts(h: HashTable, st: State)
    reads h`app, h`head, h`tbl
  {
    h.app == st.app && h.TblOrNew() == st.tbl
  }

  ghost predicate Covers(S: set<Elem>, ops: seq<Op>) {
    forall i :: 0 <= i < |ops| ==> !ops[i].SortBy? ==> ops[i].e in S
  }

  method Apply(h: HashTable, op: Op, ghost st: State, ghost S: set<Elem>)
    requires h.Valid() && Inv(h.hashFn, st) && Abstracts(h, st) && Legal(st, op)
    requires Els(h.app) <= S && Covers(S, [op])
    modifies h, h.buckets, S`hashv, S`prev, S`next, S`hhPrev, S`hhNext
    ensures h.Valid() && Abstracts(h, Step(h.hashFn, st, op)) && Els(h.app) <= S
    ensures h.buckets == old(h.buckets) || fresh(h.buckets)
  {
    hide Inv, h.TableOk, Add, Del;
    assert Covers(S, [op]) ==> ([op][0].SortBy? || [op][0].e in S);
    match op
    case Plain(e) =>
      InvReady(h.hashFn, st, e);
      h.Add(e);
    case InOrder(e, cmp) =>
      InvReady(h.hashFn, st, e);
      h.AddInOrder(e, cmp);
      InsertEls(cmp, st.app, e);
    case Remove(e) =>
      InvDel(h.hashFn, st, e);
      WithoutMembers(st.app, e);
      h.Delete(e);
    case SortBy(cmp) =>
      h.SortKeeps(cmp, h.app);
      h.Sort(cmp);
  }

  lemma InsertEls(cmp: (Elem, Elem) -> int, s: seq<Elem>, e: Elem)
    ensures Els(StableSort.Insert(cmp, s, e)) == Els(s) + {e}
    ensures StableSort.Insert(cmp, s, e) != []
  {
    StableSort.InsertPerm(cmp, s, e);
    assert multiset(s) + multiset{e} == multiset(s + [e]);
    var t, u := StableSort.Insert(cmp, s, e), s + [e];
    StableSort.PermMembers(t, u);
    assert forall x :: x in t ==> x in u;
    assert forall x :: x in u ==> x in t;
    assert Els(u) == Els(s) + {e} by { assert u[|s|] == e; }
  }

  /** HASH_FSCK on a valid table. */
  method Check(h: HashTable) returns (ok: bool)
    requires h.Valid()
    ensures ok
  {
    hide h.Valid, h.Walks, h.Sane;
    if h.head != null { h.ValidIsSane(); }
    ok := h.Fsck(h.tbl.chains, h.app);
  }

  /** Runs `ops` on the table; HASH_FSCK is called after every operation. */
  method Replay(h: HashTable, ops: seq<Op>, ghost st0: State, ghost S: set<Elem>) returns (ok: bool)
    requires h.Valid() && Inv(h.hashFn, st0) && Abstracts(h, st0) && LegalRun(h.hashFn, st0, ops)
    requires Els(h.app) <= S && Covers(S, ops)
    modifies h, h.buckets, S`hashv, S`prev, S`next, S`hhPrev, S`hhNext
    ensures ok
    ensures h.Valid() && Abstracts(h, Run(h.hashFn, st0, ops))
  {
    hide Inv, Step, h.Valid, Abstracts;
    ok := true;
    ghost var st := st0;
    for i := 0 to |ops|
      invariant ok && h.Valid() && Inv(h.hashFn, st) && Abstracts(h, st) && LegalRun(h.hashFn, st, ops[i..])
      invariant Run(h.hashFn, st, ops[i..]) == Run(h.hashFn, st0, ops)
      invariant Els(h.app) <= S
      invariant h.buckets == old(h.buckets) || fresh(h.buckets)
    {
      assert ops[i..][0] == ops[i] && ops[i..][1..] == ops[i + 1..];
      StepInv(h.hashFn, st, ops[i]);
      Apply(h, ops[i], st, S);
      st := Step(h.hashFn, st, ops[i]);
      ok := Check(h);
    }
  }
}
