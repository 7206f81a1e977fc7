/** Whole runs of a hash table: adds, in-order adds, deletes and sorts in any
    order, on values. What holds in every reachable state, and the history of
    the table's expansions. */
module HashRuns {
  import opened Bits
  import opened Elements
  import opened HashSpec
  import StableSort

  datatype Op =
    | Plain(e: Elem)
    | InOrder(e: Elem, cmp: (Elem, Elem) -> int)
    | Remove(e: Elem)
    | SortBy(cmp: (Elem, Elem) -> int)

  /** What an expansion found: the number of items, and how many sit too deep. */
  datatype Expansion = Expansion(items: nat, nonideal: nat)

  /** `tbl` is the empty table while `app` is empty; `hist` lists the expansions
      of the present table, first to last. */
  datatype State = State(app: seq<Elem>, tbl: Tbl, hist: seq<Expansion>)

  const Start := State([], EmptyTbl(), [])

  /** What the macros demand: an element is added once, and removed only if present. */
  ghost predicate Legal(st: State, op: Op) {
    match op
    case Plain(e) => e !in st.app
    case InOrder(e, _) => e !in st.app
    case Remove(e) => e in st.app
    case SortBy(_) => true
  }

  ghost function AddTo(hf: HashFn, st: State, e: Elem, app: seq<Elem>): State
    requires AddReady(hf, st.tbl, e)
  {
    var t := Add(hf, st.tbl, e);
    State(app, t, if t.lg == st.tbl.lg then st.hist else st.hist + [Expansion(t.items, t.nonideal)])
  }

  ghost function Step(hf: HashFn, st: State, op: Op): State
    requires Inv(hf, st) && Legal(st, op)
  {
    match op
    case Plain(e) => InvReady(hf, st, e); AddTo(hf, st, e, st.app + [e])
    case InOrder(e, cmp) => InvReady(hf, st, e); AddTo(hf, st, e, StableSort.Insert(cmp, st.app, e))
    case Remove(e) =>
      if |st.app| == 1 then Start
      else InvDel(hf, st, e); State(Without(st.app, e), Del(hf, st.tbl, e), st.hist)
    case SortBy(cmp) => st.(app := StableSort.MergeSort(cmp, st.app))
  }

  // ----- the invariant

  /** The lists agree: same elements, each once, each where its hash says. */
  ghost predicate Inv(hf: HashFn, st: State) {
    && Distinct(st.app)
    && Wf(hf, st.tbl)
    && st.tbl.items == |st.app|
    && Same(hf, st.tbl, st.app)
  }

  /** The bucket part holds exactly the elements of `app`. */
  ghost predicate Same(hf: HashFn, t: Tbl, app: seq<Elem>) {
    && (forall e :: e in app ==> InBucket(hf, t, e))
    && (forall b, i {:trigger t.chains[b][i]} :: 0 <= b < |t.chains| && 0 <= i < |t.chains[b]| ==> t.chains[b][i] in app)
  }

  lemma InvReady(hf: HashFn, st: State, e: Elem)
    requires Inv(hf, st)
    ensures AddReady(hf, st.tbl, e)
  {
    BktBound(hf(e.key), st.tbl.lg);
  }

  lemma InvDel(hf: HashFn, st: State, e: Elem)
    requires Inv(hf, st) && e in st.app
    ensures st.tbl.items > 0 && Bkt(hf(e.key), st.tbl.lg) < |st.tbl.chains|
  {
    assert InBucket(hf, st.tbl, e);
  }

  // ----- every step keeps it

  lemma DistinctOnce(s: seq<Elem>, i: nat)
    requires Distinct(s) && i < |s|
    ensures multiset(s)[s[i]] == 1
  {
    assert s == s[..i] + [s[i]] + s[i + 1..];
    assert s[i] !in s[..i] && s[i] !in s[i + 1..];
  }

  lemma TwiceCounts(s: seq<Elem>, i: nat, j: nat)
    requires i < j < |s| && s[i] == s[j]
    ensures multiset(s)[s[i]] >= 2
  {
    assert s == s[..j] + [s[j]] + s[j + 1..];
    assert s[i] in s[..j];
  }

  lemma DistinctPerm(s: seq<Elem>, t: seq<Elem>)
    requires Distinct(s) && multiset(s) == multiset(t)
    ensures Distinct(t) && |s| == |t|
  {
    StableSort.PermLength(s, t);
    StableSort.PermMembers(s, t);
    forall i, j | 0 <= i < j < |t| ensures t[i] != t[j] {
      var k :| 0 <= k < |s| && s[k] == t[i];
      DistinctOnce(s, k);
      if t[i] == t[j] { TwiceCounts(t, i, j); }
    }
  }

  lemma SamePerm(hf: HashFn, t: Tbl, app: seq<Elem>, app': seq<Elem>)
    requires Same(hf, t, app) && multiset(app) == multiset(app')
    ensures Same(hf, t, app')
  {
    hide InBucket;
    StableSort.PermMembers(app, app');
  }

  lemma AddInv(hf: HashFn, st: State, e: Elem, app: seq<Elem>)
    requires Inv(hf, st) && e !in st.app && AddReady(hf, st.tbl, e)
    requires multiset(app) == multiset(st.app + [e])
    ensures Inv(hf, AddTo(hf, st, e, app))
  {
    hide Wf, Expand, Same;
    DistinctPerm(st.app + [e], app);
    var p := Pushed(hf, st.tbl, e);
    PushInv(hf, st, e);
    if MustExpand(p, Bkt(hf(e.key), st.tbl.lg)) {
      ExpandInv(hf, p, st.app + [e]);
    }
    SamePerm(hf, Add(hf, st.tbl, e), st.app + [e], app);
  }

  lemma PushInv(hf: HashFn, st: State, e: Elem)
    requires Inv(hf, st) && e !in st.app && AddReady(hf, st.tbl, e)
    ensures var p := Pushed(hf, st.tbl, e);
      Wf(hf, p) && p.items == |st.app| + 1 && Same(hf, p, st.app + [e])
  {
    PushedWf(hf, st.tbl, e);
    PushedHolds(hf, st.tbl, e);
  }

  lemma ExpandInv(hf: HashFn, t: Tbl, app: seq<Elem>)
    requires Wf(hf, t) && Same(hf, t, app)
    ensures var t' := Expand(hf, t);
      Wf(hf, t') && t'.items == t.items && Same(hf, t', app)
  {
    ExpandWf(hf, t);
    var t' := Expand(hf, t);
    forall e | e in app ensures InBucket(hf, t', e) { ExpandHolds(hf, t, e); }
    forall b, i | 0 <= b < |t'.chains| && 0 <= i < |t'.chains[b]| ensures t'.chains[b][i] in app {
      ExpandMembers(hf, t, b, i);
    }
  }

  lemma RemoveInv(hf: HashFn, st: State, e: Elem)
    requires Inv(hf, st) && e in st.app && st.tbl.items > 0 && Bkt(hf(e.key), st.tbl.lg) < |st.tbl.chains|
    ensures Inv(hf, State(Without(st.app, e), Del(hf, st.tbl, e), st.hist))
  {
    hide Wf, Del, InBucket, Same, Distinct, Without;
    WithoutDistinct(st.app, e);
    assert InBucket(hf, st.tbl, e) by { SameHolds(hf, st.tbl, st.app, e); }
    var j := DelShape(hf, st.tbl, e);
    RemoveSame(hf, st, e);
  }

  lemma SameHolds(hf: HashFn, t: Tbl, app: seq<Elem>, e: Elem)
    requires Same(hf, t, app) && e in app
    ensures InBucket(hf, t, e)
  {
  }

  lemma RemoveSame(hf: HashFn, st: State, e: Elem)
    requires Inv(hf, st) && e in st.app && st.tbl.items > 0 && Bkt(hf(e.key), st.tbl.lg) < |st.tbl.chains|
    ensures Same(hf, Del(hf, st.tbl, e), Without(st.app, e))
  {
    hide Wf, Del, InBucket, Without;
    var t' := Del(hf, st.tbl, e);
    forall x | x in Without(st.app, e) ensures InBucket(hf, t', x) {
      WithoutIs(st.app, e, x);
      DelHolds(hf, st.tbl, e, x);
    }
    forall d, i | 0 <= d < |t'.chains| && 0 <= i < |t'.chains[d]| ensures t'.chains[d][i] in Without(st.app, e) {
      assert |t'.chains| == |st.tbl.chains| by { var _ := DelShape(hf, st.tbl, e); }
      DelMembers(hf, st.tbl, e, d, i);
      WithoutOther(st.app, e, t'.chains[d][i]);
    }
  }

  lemma WithoutDistinct(s: seq<Elem>, e: Elem)
    requires Distinct(s) && e in s
    ensures Distinct(Without(s, e)) && |Without(s, e)| == |s| - 1
  {
    hide Without;
    var k :| 0 <= k < |s| && s[k] == e;
    WithoutAt(s, k);
  }

  lemma WithoutIs(s: seq<Elem>, e: Elem, x: Elem)
    requires Distinct(s) && e in s && x in Without(s, e)
    ensures x in s && x != e
  {
    var k :| 0 <= k < |s| && s[k] == e;
    WithoutAt(s, k);
  }

  lemma DelMembers(hf: HashFn, t: Tbl, e: Elem, d: nat, i: nat)
    requires Wf(hf, t) && InBucket(hf, t, e) && t.items > 0 && d < |t.chains| && i < |Del(hf, t, e).chains[d]|
    ensures Del(hf, t, e).chains[d][i] in t.chains[d] && Del(hf, t, e).chains[d][i] != e
  {
    hide Del;
    var j := DelShape(hf, t, e);
    var b := Bkt(hf(e.key), t.lg);
    if d == b {
      PlacedShrink(hf, t.lg, t.chains, b, j);
    }
  }

  lemma StartInv(hf: HashFn)
    ensures Inv(hf, Start)
  {
    EmptyParts(hf);
  }

  lemma StepInv(hf: HashFn, st: State, op: Op)
    requires Inv(hf, st) && Legal(st, op)
    ensures Inv(hf, Step(hf, st, op))
  {
    match op
    case Plain(e) =>
      InvReady(hf, st, e);
      AddInv(hf, st, e, st.app + [e]);
    case InOrder(e, cmp) =>
      InvReady(hf, st, e);
      StableSort.InsertPerm(cmp, st.app, e);
      AddInv(hf, st, e, StableSort.Insert(cmp, st.app, e));
    case Remove(e) =>
      if |st.app| == 1 {
        StartInv(hf);
      } else {
        InvDel(hf, st, e);
        RemoveInv(hf, st, e);
      }
    case SortBy(cmp) =>
      StableSort.BottomUpPerm(cmp, st.app, 1);
      DistinctPerm(st.app, StableSort.MergeSort(cmp, st.app));
      SamePerm(hf, st.tbl, st.app, StableSort.MergeSort(cmp, st.app));
  }

  // ----- runs

  ghost predicate LegalRun(hf: HashFn, st: State, ops: seq<Op>)
    requires Inv(hf, st)
    decreases |ops|
  {
    ops == [] || (Legal(st, ops[0]) && (StepInv(hf, st, ops[0]); LegalRun(hf, Step(hf, st, ops[0]), ops[1..])))
  }

  ghost function Run(hf: HashFn, st: State, ops: seq<Op>): (r: State)
    requires Inv(hf, st) && LegalRun(hf, st, ops)
    ensures Inv(hf, r)
    decreases |ops|
  {
    if ops == [] then st
    else StepInv(hf, st, ops[0]); Run(hf, Step(hf, st, ops[0]), ops[1..])
  }

  /** A run is its operations one after the other. */
  lemma {:induction false} RunSnoc(hf: HashFn, st: State, ops: seq<Op>, op: Op)
    requires Inv(hf, st)
    ensures LegalRun(hf, st, []) && Run(hf, st, []) == st
    ensures LegalRun(hf, st, ops + [op]) <==> LegalRun(hf, st, ops) && Legal(Run(hf, st, ops), op)
    ensures LegalRun(hf, st, ops + [op]) ==> Run(hf, st, ops + [op]) == Step(hf, Run(hf, st, ops), op)
    decreases |ops|
  {
    hide Inv, Step;
    if ops == [] {
      assert ops + [op] == [op] && [op][1..] == [];
      if Legal(st, op) { StepInv(hf, st, op); }
    } else {
      assert (ops + [op])[0] == ops[0] && (ops + [op])[1..] == ops[1..] + [op];
      if Legal(st, ops[0]) {
        StepInv(hf, st, ops[0]);
        RunSnoc(hf, Step(hf, st, ops[0]), ops[1..], op);
      }
    }
  }

  // ----- lookups

  /** In every reachable state with unique keys, searching the one bucket chain
      that the key selects finds what searching the whole list would find. */
  lemma FindExact(hf: HashFn, st: State, key: string)
    requires Inv(hf, st) && UniqueKeys(st.app)
    ensures Bkt(hf(key), st.tbl.lg) < |st.tbl.chains|
    ensures LinearFind(st.tbl.chains[Bkt(hf(key), st.tbl.lg)], key) == LinearFind(st.app, key)
  {
    BktBound(hf(key), st.tbl.lg);
    var c := st.tbl.chains[Bkt(hf(key), st.tbl.lg)];
    if i :| 0 <= i < |st.app| && st.app[i].key == key {
      LinearFindUnique(st.app, key, i);
      assert InBucket(hf, st.tbl, st.app[i]);
      var j :| 0 <= j < |c| && c[j] == st.app[i];
      ChainUnique(c, st.app);
      LinearFindUnique(c, key, j);
    } else {
      LinearFindNone(st.app, key);
      assert forall j :: 0 <= j < |c| ==> c[j] in st.app;
      LinearFindNone(c, key);
    }
  }

  lemma ChainUnique(c: seq<Elem>, app: seq<Elem>)
    requires Distinct(c) && UniqueKeys(app) && forall j :: 0 <= j < |c| ==> c[j] in app
    ensures UniqueKeys(c)
  {
    forall i, j | 0 <= i < j < |c| ensures c[i].key != c[j].key {
      assert c[i] in app && c[j] in app && c[i] != c[j];
    }
  }

  // ----- the life of a table

  predicate Ineffective(x: Expansion) {
    x.nonideal > x.items / 2
  }

  /** How many of the latest expansions in a row were ineffective. */
  function Streak(hist: seq<Expansion>): nat {
    if hist == [] || !Ineffective(hist[|hist| - 1]) then 0 else 1 + Streak(hist[..|hist| - 1])
  }

  ghost predicate NoPairBefore(hist: seq<Expansion>) {
    forall i :: 0 <= i < |hist| - 2 ==> !(Ineffective(hist[i]) && Ineffective(hist[i + 1]))
  }

  /** A chain below the threshold of its bucket, or within what the last expansion left. */
  ghost predicate ShortChain(t: Tbl, b: nat)
    requires b < |t.chains| && b < |t.mult|
  {
    |t.chains[b]| < (t.mult[b] + 1) * CAPACITY_THRESH || |t.chains[b]| <= (t.mult[b] + 1) * t.ideal
  }

  /** The bucket count doubles once per expansion; expansion is off exactly when
      the last two were ineffective, which has not happened before; and while it
      is on, every chain is short. */
  ghost predicate Life(st: State) {
    && st.tbl.lg == INITIAL_LOG2 + |st.hist|
    && st.tbl.ineff == Streak(st.hist) <= 2
    && (st.tbl.noexpand <==> Streak(st.hist) == 2)
    && NoPairBefore(st.hist)
    && |st.tbl.chains| == |st.tbl.mult|
    && (!st.tbl.noexpand ==> forall b :: 0 <= b < |st.tbl.chains| ==> ShortChain(st.tbl, b))
  }

  lemma AddLife(hf: HashFn, st: State, e: Elem, app: seq<Elem>)
    requires Inv(hf, st) && Life(st) && e !in st.app && AddReady(hf, st.tbl, e)
    ensures Life(AddTo(hf, st, e, app))
  {
    hide Expand, Inv;
    var p, b := Pushed(hf, st.tbl, e), Bkt(hf(e.key), st.tbl.lg);
    if MustExpand(p, b) {
      PushInv(hf, st, e);
      ExpandLife(hf, p, st.hist);
    } else {
      forall d | 0 <= d < |p.chains| && !p.noexpand ensures ShortChain(p, d) {
        if d != b { assert ShortChain(st.tbl, d); }
      }
    }
  }

  lemma ExpandLife(hf: HashFn, p: Tbl, hist: seq<Expansion>)
    requires Wf(hf, p) && p.items > 0 && !p.noexpand
    requires p.lg == INITIAL_LOG2 + |hist| && p.ineff == Streak(hist) < 2
    requires NoPairBefore(hist)
    ensures var t := Expand(hf, p);
      t.lg == p.lg + 1 && Life(State([], t, hist + [Expansion(t.items, t.nonideal)]))
  {
    hide Expand, Wf, Streak, Ineffective;
    var t := Expand(hf, p);
    ExpandFields(hf, p);
    HistPush(hist, Expansion(t.items, t.nonideal));
    ExpandShort(hf, p);
  }

  lemma ExpandFields(hf: HashFn, p: Tbl)
    ensures var t := Expand(hf, p);
      && t.lg == p.lg + 1 && t.items == p.items
      && t.ineff == (if Ineffective(Expansion(t.items, t.nonideal)) then p.ineff + 1 else 0)
      && t.noexpand == (t.ineff > 1 || p.noexpand)
  {
    hide MovedChains, Mults, SumExcess, IdealLen;
    assert Shr(p.items, 1) == p.items / 2;
  }

  lemma HistPush(hist: seq<Expansion>, x: Expansion)
    requires NoPairBefore(hist) && Streak(hist) < 2
    ensures NoPairBefore(hist + [x])
    ensures Streak(hist + [x]) == if Ineffective(x) then 1 + Streak(hist) else 0
  {
    var h := hist + [x];
    assert h[..|hist|] == hist;
    forall i | 0 <= i < |h| - 2 ensures !(Ineffective(h[i]) && Ineffective(h[i + 1])) {
      if i == |hist| - 2 { StreakOfTwo(hist); }
    }
  }

  lemma StreakOfTwo(hist: seq<Expansion>)
    requires |hist| >= 2
    ensures Streak(hist) >= 2 <==> Ineffective(hist[|hist| - 2]) && Ineffective(hist[|hist| - 1])
  {
    assert hist[..|hist| - 1][|hist| - 2] == hist[|hist| - 2];
  }

  lemma ExpandShort(hf: HashFn, p: Tbl)
    requires Wf(hf, p) && p.items > 0
    ensures var t := Expand(hf, p);
      |t.chains| == |t.mult| && forall b :: 0 <= b < |t.chains| ==> ShortChain(t, b)
  {
    hide Expand, Wf;
    ExpandWf(hf, p);
    var t := Expand(hf, p);
    WfParts(hf, p);
    WfParts(hf, t);
    ExpandMetrics(hf, p, 0);
    forall b | 0 <= b < |t.chains| ensures ShortChain(t, b) { ExpandMetrics(hf, p, b); }
  }

  lemma RemoveLife(hf: HashFn, st: State, e: Elem)
    requires Inv(hf, st) && Life(st) && e in st.app && st.tbl.items > 0 && Bkt(hf(e.key), st.tbl.lg) < |st.tbl.chains|
    ensures Life(State(Without(st.app, e), Del(hf, st.tbl, e), st.hist))
  {
    var t, t' := st.tbl, Del(hf, st.tbl, e);
    var b := Bkt(hf(e.key), t.lg);
    WithoutMembers(t.chains[b], e);
    forall d | 0 <= d < |t'.chains| && !t'.noexpand ensures ShortChain(t', d) {
      assert ShortChain(t, d) && |t'.chains[d]| <= |t.chains[d]|;
    }
  }

  lemma StartLife()
    ensures Life(Start)
  {
    EmptyParts(s => 0);
  }

  lemma StepLife(hf: HashFn, st: State, op: Op)
    requires Inv(hf, st) && Legal(st, op) && Life(st)
    ensures Life(Step(hf, st, op))
  {
    hide Inv, Life;
    match op
    case Plain(e) =>
      InvReady(hf, st, e);
      AddLife(hf, st, e, st.app + [e]);
    case InOrder(e, cmp) =>
      InvReady(hf, st, e);
      AddLife(hf, st, e, StableSort.Insert(cmp, st.app, e));
    case Remove(e) =>
      if |st.app| == 1 {
        StartLife();
      } else {
        InvDel(hf, st, e);
        RemoveLife(hf, st, e);
      }
    case SortBy(cmp) =>
      assert Life(st.(app := StableSort.MergeSort(cmp, st.app))) by { LifeIgnoresOrder(st, StableSort.MergeSort(cmp, st.app)); }
  }

  lemma LifeIgnoresOrder(st: State, app: seq<Elem>)
    requires Life(st)
    ensures Life(st.(app := app))
  {
    forall b | 0 <= b < |st.tbl.chains| && !st.tbl.noexpand ensures ShortChain(st.tbl, b) { }
  }

  /** Over every run, noexpand is on exactly when the last two expansions of the
      present table were ineffective, and there has been no such pair before. */
  lemma {:induction false} RunLife(hf: HashFn, st: State, ops: seq<Op>)
    requires Inv(hf, st) && Life(st) && LegalRun(hf, st, ops)
    ensures Life(Run(hf, st, ops))
    decreases |ops|
  {
    hide Inv, Life, Step;
    if ops != [] {
      StepInv(hf, st, ops[0]);
      StepLife(hf, st, ops[0]);
      RunLife(hf, Step(hf, st, ops[0]), ops[1..]);
    }
  }

  ghost predicate BothIneffective(hist: seq<Expansion>, i: int)
    requires 0 <= i < |hist| - 1
  {
    Ineffective(hist[i]) && Ineffective(hist[i + 1])
  }

  /** From the empty table: what any legal run leaves behind. */
  lemma NoexpandExact(hf: HashFn, ops: seq<Op>)
    requires Inv(hf, Start) && LegalRun(hf, Start, ops)
    ensures var st := Run(hf, Start, ops);
      && |st.tbl.chains| == Pow2(INITIAL_LOG2 + |st.hist|)
      && (st.tbl.noexpand <==> |st.hist| >= 2 && BothIneffective(st.hist, |st.hist| - 2))
      && (forall i :: 0 <= i < |st.hist| - 2 ==> !BothIneffective(st.hist, i))
  {
    hide Run, LegalRun;
    StartLife();
    RunLife(hf, Start, ops);
    var st := Run(hf, Start, ops);
    if |st.hist| >= 2 {
      StreakOfTwo(st.hist);
    } else if |st.hist| == 1 {
      assert st.hist[..0] == [];
    }
    forall i | 0 <= i < |st.hist| - 2 ensures !BothIneffective(st.hist, i) {
      assert !(Ineffective(st.hist[i]) && Ineffective(st.hist[i + 1]));
    }
  }

  /** The run never removes the last element, so it stays with one table. */
  ghost predicate NeverEmptied(hf: HashFn, st: State, ops: seq<Op>)
    requires Inv(hf, st) && LegalRun(hf, st, ops)
    decreases |ops|
  {
    ops == [] || (StepInv(hf, st, ops[0]);
      var st' := Step(hf, st, ops[0]); st'.app != [] && NeverEmptied(hf, st', ops[1..]))
  }

  lemma NoGrowthStep(hf: HashFn, st: State, op: Op)
    requires Inv(hf, st) && Legal(st, op) && st.tbl.noexpand && Step(hf, st, op).app != []
    ensures Step(hf, st, op).tbl.lg == st.tbl.lg && Step(hf, st, op).tbl.noexpand
  {
  }

  /** Once expansion is off, the bucket array of this table never grows again. */
  lemma {:induction false} NeverGrowsAgain(hf: HashFn, st: State, ops: seq<Op>)
    requires Inv(hf, st) && LegalRun(hf, st, ops) && NeverEmptied(hf, st, ops) && st.tbl.noexpand
    ensures Run(hf, st, ops).tbl.lg == st.tbl.lg && Run(hf, st, ops).tbl.noexpand
    decreases |ops|
  {
    hide Inv, Step;
    if ops != [] {
      StepInv(hf, st, ops[0]);
      NoGrowthStep(hf, st, ops[0]);
      NeverGrowsAgain(hf, Step(hf, st, ops[0]), ops[1..]);
    }
  }

  // ----- in-order building

  ghost function PlainOps(es: seq<Elem>): seq<Op> { seq(|es|, i requires 0 <= i < |es| => Plain(es[i])) }

  ghost function InOrderOps(es: seq<Elem>, cmp: (Elem, Elem) -> int): seq<Op> {
    seq(|es|, i requires 0 <= i < |es| => InOrder(es[i], cmp))
  }

  lemma {:induction false} BuildPlain(hf: HashFn, st: State, es: seq<Elem>, cmp: (Elem, Elem) -> int)
    requires Inv(hf, st) && Distinct(st.app + es)
    ensures LegalRun(hf, st, PlainOps(es) + [SortBy(cmp)])
    ensures Run(hf, st, PlainOps(es) + [SortBy(cmp)]).app == StableSort.MergeSort(cmp, st.app + es)
    decreases |es|
  {
    hide Inv, AddTo;
    var ops := PlainOps(es) + [SortBy(cmp)];
    if es == [] {
      assert st.app + es == st.app && ops == [SortBy(cmp)] && ops[1..] == [];
      StepInv(hf, st, ops[0]);
      assert Run(hf, st, ops) == Run(hf, Step(hf, st, ops[0]), []);
    } else {
      var e := es[0];
      FreshHead(st.app, es);
      assert ops[0] == Plain(e) && ops[1..] == PlainOps(es[1..]) + [SortBy(cmp)];
      StepInv(hf, st, ops[0]);
      InvReady(hf, st, e);
      var st' := Step(hf, st, ops[0]);
      AddToApp(hf, st, e, st.app + [e]);
      assert st.app + es == st'.app + es[1..];
      BuildPlain(hf, st', es[1..], cmp);
    }
  }

  lemma FreshHead(a: seq<Elem>, es: seq<Elem>)
    requires Distinct(a + es) && es != []
    ensures es[0] !in a
  {
    forall i | 0 <= i < |a| ensures a[i] != es[0] {
      assert (a + es)[i] == a[i] && (a + es)[|a|] == es[0];
    }
  }

  lemma AddToApp(hf: HashFn, st: State, e: Elem, app: seq<Elem>)
    requires AddReady(hf, st.tbl, e)
    ensures AddTo(hf, st, e, app).app == app
  {
  }

  lemma {:induction false} BuildInOrder(hf: HashFn, st: State, pre: seq<Elem>, es: seq<Elem>, cmp: (Elem, Elem) -> int)
    requires Inv(hf, st) && Distinct(pre + es) && st.app == StableSort.InsertAll(cmp, pre)
    requires multiset(st.app) == multiset(pre)
    ensures LegalRun(hf, st, InOrderOps(es, cmp))
    ensures Run(hf, st, InOrderOps(es, cmp)).app == StableSort.InsertAll(cmp, pre + es)
    decreases |es|
  {
    hide Inv, Step, Legal, Distinct, StableSort.InsertAll;
    var ops := InOrderOps(es, cmp);
    if es == [] {
      assert pre + es == pre;
    } else {
      assert ops[0] == InOrder(es[0], cmp) && ops[1..] == InOrderOps(es[1..], cmp);
      InOrderStep(hf, st, pre, es, cmp);
      assert pre + es == (pre + [es[0]]) + es[1..];
      BuildInOrder(hf, Step(hf, st, ops[0]), pre + [es[0]], es[1..], cmp);
    }
  }

  /** The first of the remaining in-order adds. */
  lemma InOrderStep(hf: HashFn, st: State, pre: seq<Elem>, es: seq<Elem>, cmp: (Elem, Elem) -> int)
    requires Inv(hf, st) && Distinct(pre + es) && es != []
    requires st.app == StableSort.InsertAll(cmp, pre) && multiset(st.app) == multiset(pre)
    ensures Legal(st, InOrder(es[0], cmp))
    ensures var st' := Step(hf, st, InOrder(es[0], cmp));
      && Inv(hf, st') && st'.app == StableSort.InsertAll(cmp, pre + [es[0]])
      && multiset(st'.app) == multiset(pre + [es[0]])
  {
    hide Inv, AddTo;
    var e := es[0];
    FreshHead(pre, es);
    StableSort.PermMembers(st.app, pre);
    assert e !in st.app;
    StepInv(hf, st, InOrder(e, cmp));
    InvReady(hf, st, e);
    AddToApp(hf, st, e, StableSort.Insert(cmp, st.app, e));
    assert (pre + [e])[..|pre|] == pre;
    StableSort.InsertPerm(cmp, st.app, e);
  }

  /** Two ways to build a sorted table give the same application order, the stable sorted one. */
  lemma InOrderBuildIsSortedBuild(hf: HashFn, es: seq<Elem>, cmp: (Elem, Elem) -> int)
    requires Distinct(es) && StableSort.Preorder(cmp, es)
    ensures Inv(hf, Start)
    ensures LegalRun(hf, Start, InOrderOps(es, cmp)) && LegalRun(hf, Start, PlainOps(es) + [SortBy(cmp)])
    ensures Run(hf, Start, InOrderOps(es, cmp)).app == Run(hf, Start, PlainOps(es) + [SortBy(cmp)]).app
    ensures StableSort.StableSorted(cmp, es, Run(hf, Start, InOrderOps(es, cmp)).app)
  {
    hide StableSort.StableSorted, StableSort.Preorder;
    StableSort.MergeSortStable(cmp, es);
    StartInv(hf);
    assert [] + es == es;
    BuildPlain(hf, Start, es, cmp);
    BuildInOrder(hf, Start, [], es, cmp);
    StableSort.InOrderAddsEqualSort(cmp, es);
  }
}
