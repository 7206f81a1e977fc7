/** strcmp on C strings: a strict total order. */
module CStrings {
  predicate Lt(a: string, b: string) {
    b != [] && (a == [] || a[0] < b[0] || (a[0] == b[0] && Lt(a[1..], b[1..])))
  }

  lemma {:induction false} Transitive(a: string, b: string, c: string)
    requires Lt(a, b) && Lt(b, c)
    ensures Lt(a, c)
  {
    if a != [] && a[0] == b[0] == c[0] { Transitive(a[1..], b[1..], c[1..]); }
  }

  /** The strings agree up to `k`, where the first ends or has the smaller character. */
  predicate DiffersAt(a: string, b: string, k: nat) {
    k <= |a| && k < |b| && a[..k] == b[..k] && (k == |a| || a[k] < b[k])
  }

  /** Below means below at the first place where the strings differ. */
  lemma {:induction false} LtIsLexicographic(a: string, b: string)
    ensures Lt(a, b) <==> exists k: nat :: DiffersAt(a, b, k)
  {
    if a == [] || b == [] || a[0] != b[0] {
      if b != [] && (a == [] || a[0] < b[0]) { assert DiffersAt(a, b, 0); }
      assert forall k: nat :: 0 < k <= |a| && k <= |b| && a[..k] == b[..k] ==> a[..k][0] == b[..k][0];
    } else {
      LtIsLexicographic(a[1..], b[1..]);
      if k: nat :| DiffersAt(a[1..], b[1..], k) {
        assert a[..k + 1] == [a[0]] + a[1..][..k] && b[..k + 1] == [b[0]] + b[1..][..k];
        assert DiffersAt(a, b, k + 1);
      }
      if k: nat :| DiffersAt(a, b, k) {
        assert k > 0;
        assert a[1..][..k - 1] == a[..k][1..] && b[1..][..k - 1] == b[..k][1..];
        assert DiffersAt(a[1..], b[1..], k - 1);
      }
    }
  }

  /** Exactly one of below, equal, above. */
  lemma {:induction false} Trichotomy(a: string, b: string)
    ensures (a == b && !Lt(a, b) && !Lt(b, a)) || (a != b && Lt(a, b) && !Lt(b, a)) || (a != b && !Lt(a, b) && Lt(b, a))
  {
    if a != [] && b != [] && a[0] == b[0] {
      Trichotomy(a[1..], b[1..]);
      assert a == [a[0]] + a[1..] && b == [b[0]] + b[1..];
    }
  }
}

/** The search tree with a mutex in every node: any number of threads run `add`
    and lock-free `lookup`, interleaved step by step. */
module TreeProtocol {
  import opened CStrings

  datatype Option<+T> = None | Some(value: T)

  datatype Dir = Left | Right

  /** A tree node without its mutex; NULL fields are None. */
  datatype Node = Node(key: Option<string>, value: Option<int>, left: Option<nat>, right: Option<nat>)

  const EMPTY := Node(None, None, None, None)

  function Child(x: Node, d: Dir): Option<nat> { if d == Left then x.left else x.right }

  function WithChild(x: Node, d: Dir, c: nat): Node {
    if d == Left then x.(left := Some(c)) else x.(right := Some(c))
  }

  /** Which way a key goes at a node with another key. */
  function Side(k: string, at: string): Dir { if Lt(k, at) then Left else Right }

  /** Where a thread is; every constructor names the action it takes next. */
  datatype Pc =
    // add
    | ToLock(n: nat)                         // lock the node
    | Test(n: nat)                           // look at its key
    | PutKey(n: nat)                         // it was empty: store the key
    | PutValue(n: nat)                       // ... and the value
    | Release(n: nat, stored: bool)          // unlock and return
    | Link(n: nat, d: Dir)                   // allocate a child and link it
    | InitLock(n: nat, d: Dir, c: nat)       // initialize(child): lock it,
    | InitClear(n: nat, d: Dir, c: nat)      // ... clear its fields,
    | InitUnlock(n: nat, d: Dir, c: nat)     // ... unlock it
    | ReleaseDown(n: nat, d: Dir)            // unlock the node
    | Descend(n: nat, d: Dir)                // read the child link and recurse
    | AddDone(n: nat, stored: bool)
    // lookup
    | Read(n: nat)                           // read the node's key
    | Follow(n: nat, d: Dir)                 // read the child link
    | Answer(found: bool, n: nat)

  /** `target` records, for a lookup, the node that held its key when it started. */
  datatype Thread = Thread(pc: Pc, key: string, value: int, target: Option<nat>)

  /** Nodes are numbered in the order they are allocated, the root is 0; `depth` is
      a record of how far below the root each was linked. */
  datatype State = State(nodes: seq<Node>, depth: seq<nat>, locks: seq<Option<nat>>, threads: map<nat, Thread>)

  const Start := State([EMPTY], [0], [None], map[])

  // ----- the steps

  predicate Finished(pc: Pc) { pc.AddDone? || pc.Answer? }

  /** The ids a program counter mentions exist. */
  predicate InRange(pc: Pc, size: nat) {
    && (pc.Answer? || pc.n < size)
    && (pc.InitLock? || pc.InitClear? || pc.InitUnlock? ==> pc.c < size)
  }

  predicate Ready(s: State, t: nat) {
    t in s.threads && InRange(s.threads[t].pc, |s.nodes|) && |s.locks| == |s.nodes| == |s.depth|
  }

  /** Only a step that takes a mutex can be blocked. */
  predicate Enabled(s: State, t: nat)
    requires Ready(s, t)
  {
    var pc := s.threads[t].pc;
    if pc.ToLock? then s.locks[pc.n] == None
    else if pc.InitLock? then s.locks[pc.c] == None
    else !Finished(pc)
  }

  /** The next program counter, from what the thread reads. */
  function NextPc(s: State, t: nat): Pc
    requires Ready(s, t)
  {
    var th := s.threads[t];
    match th.pc
    case ToLock(n) => Test(n)
    case Test(n) =>
      (match s.nodes[n].key
       case None => PutKey(n)
       case Some(at) =>
         if th.key == at then Release(n, false)
         else
           var d := Side(th.key, at);
           if Child(s.nodes[n], d) == None then Link(n, d) else ReleaseDown(n, d))
    case PutKey(n) => PutValue(n)
    case PutValue(n) => Release(n, true)
    case Release(n, stored) => AddDone(n, stored)
    case Link(n, d) => InitLock(n, d, |s.nodes|)
    case InitLock(n, d, c) => InitClear(n, d, c)
    case InitClear(n, d, c) => InitUnlock(n, d, c)
    case InitUnlock(n, d, c) => ReleaseDown(n, d)
    case ReleaseDown(n, d) => Descend(n, d)
    case Descend(n, d) => (match Child(s.nodes[n], d) case Some(c) => ToLock(c) case None => AddDone(n, false))
    case AddDone(_, _) => th.pc
    case Read(n) =>
      (match s.nodes[n].key
       case None => Answer(false, n)
       case Some(at) => if th.key == at then Answer(true, n) else Follow(n, Side(th.key, at)))
    case Follow(n, d) => (match Child(s.nodes[n], d) case Some(c) => Read(c) case None => Answer(false, n))
    case Answer(_, _) => th.pc
  }

  /** What the step writes to the nodes. */
  function NextNodes(s: State, t: nat): seq<Node>
    requires Ready(s, t)
  {
    var th := s.threads[t];
    match th.pc
    case PutKey(n) => s.nodes[n := s.nodes[n].(key := Some(th.key))]
    case PutValue(n) => s.nodes[n := s.nodes[n].(value := Some(th.value))]
    case Link(n, d) => s.nodes[n := WithChild(s.nodes[n], d, |s.nodes|)] + [EMPTY]
    case InitClear(n, d, c) => s.nodes[c := EMPTY]
    case _ => s.nodes
  }

  function NextLocks(s: State, t: nat): seq<Option<nat>>
    requires Ready(s, t)
  {
    match s.threads[t].pc
    case ToLock(n) => s.locks[n := Some(t)]
    case Release(n, _) => s.locks[n := None]
    case ReleaseDown(n, _) => s.locks[n := None]
    case Link(n, d) => s.locks + [None]
    case InitLock(_, _, c) => s.locks[c := Some(t)]
    case InitUnlock(_, _, c) => s.locks[c := None]
    case _ => s.locks
  }

  function Go(s: State, t: nat): State
    requires Ready(s, t)
  {
    var pc := s.threads[t].pc;
    State(NextNodes(s, t),
          if pc.Link? then s.depth + [s.depth[pc.n] + 1] else s.depth,
          NextLocks(s, t),
          s.threads[t := s.threads[t].(pc := NextPc(s, t))])
  }

  // ----- search paths

  /** The node at depth `d` on the search path of `k`. */
  function Walk(nodes: seq<Node>, k: string, d: nat): Option<nat> {
    if d == 0 then Some(0)
    else
      var up := Walk(nodes, k, d - 1);
      if up == None || up.value >= |nodes| then None
      else
        var x := nodes[up.value];
        if x.key == None || x.key.value == k then None else Child(x, Side(k, x.key.value))
  }

  /** The search path of `k` goes through node `n`. */
  ghost predicate On(nodes: seq<Node>, depth: seq<nat>, k: string, n: nat) {
    n < |nodes| == |depth| && Walk(nodes, k, depth[n]) == Some(n)
  }

  lemma {:induction false} WalkEnds(nodes: seq<Node>, k: string, d: nat, e: nat)
    requires Walk(nodes, k, d) == None && d <= e
    ensures Walk(nodes, k, e) == None
  {
    if d < e { WalkEnds(nodes, k, d, e - 1); }
  }

  /** Keys and links, once set, are still the same. */
  ghost predicate Extends(a: seq<Node>, b: seq<Node>) {
    && |a| <= |b|
    && forall n {:trigger b[n]} {:trigger a[n]} :: 0 <= n < |a| ==>
         && (a[n].key.Some? ==> b[n].key == a[n].key)
         && (a[n].value.Some? ==> b[n].value == a[n].value)
         && (a[n].left.Some? ==> b[n].left == a[n].left)
         && (a[n].right.Some? ==> b[n].right == a[n].right)
  }

  lemma {:induction false} WalkKept(a: seq<Node>, b: seq<Node>, k: string, d: nat)
    requires Extends(a, b) && Walk(a, k, d).Some?
    ensures Walk(b, k, d) == Walk(a, k, d)
  {
    if d > 0 { WalkKept(a, b, k, d - 1); }
  }

  // ----- the invariant

  /** The links form a tree: a child is one deeper, has one parent, and hangs below a key. */
  ghost predicate Shape(nodes: seq<Node>, depth: seq<nat>) {
    && |depth| == |nodes| > 0 && depth[0] == 0
    && (forall n {:trigger depth[n]} :: 0 <= n < |depth| ==> depth[n] <= n)
    && (forall n, d {:trigger Child(nodes[n], d)} :: 0 <= n < |nodes| && Child(nodes[n], d).Some? ==>
          nodes[n].key.Some? && 0 < Child(nodes[n], d).value < |nodes| && depth[Child(nodes[n], d).value] == depth[n] + 1)
    && (forall n, d, m, e {:trigger Child(nodes[n], d), Child(nodes[m], e)} ::
          0 <= n < |nodes| && 0 <= m < |nodes| && Child(nodes[n], d).Some? && Child(nodes[n], d) == Child(nodes[m], e) ==>
          n == m && d == e)
  }

  /** Every stored key is on its own search path; a node without key is empty. */
  ghost predicate Findable(nodes: seq<Node>, depth: seq<nat>) {
    forall n {:trigger nodes[n]} :: 0 <= n < |nodes| ==>
      if nodes[n].key.Some? then On(nodes, depth, nodes[n].key.value, n) else nodes[n] == EMPTY
  }

  /** The node has another key, and `d` is where `k` goes. */
  ghost predicate Turns(x: Node, k: string, d: Dir) {
    x.key.Some? && x.key.value != k && d == Side(k, x.key.value)
  }

  ghost predicate Holding(x: Node, th: Thread, stored: bool) {
    x.key == Some(th.key) && x.value.Some? && (stored ==> x.value == Some(th.value))
  }

  ghost predicate TargetBelow(nodes: seq<Node>, depth: seq<nat>, th: Thread, from: nat) {
    th.target.Some? ==>
      th.target.value < |nodes| == |depth| && nodes[th.target.value].key == Some(th.key) && from <= depth[th.target.value]
  }

  ghost predicate ThreadOk(nodes: seq<Node>, depth: seq<nat>, th: Thread) {
    && |depth| == |nodes| && InRange(th.pc, |nodes|)
    && (th.pc.Answer? || th.pc.AddDone? || On(nodes, depth, th.key, th.pc.n))
    && match th.pc
       case ToLock(n) => true
       case Test(n) => true
       case PutKey(n) => nodes[n] == EMPTY
       case PutValue(n) => nodes[n].key == Some(th.key) && nodes[n].value == None
       case Release(n, stored) => Holding(nodes[n], th, stored)
       case Link(n, d) => Turns(nodes[n], th.key, d) && Child(nodes[n], d) == None
       case InitLock(n, d, c) => Turns(nodes[n], th.key, d) && Child(nodes[n], d) == Some(c) && nodes[c] == EMPTY
       case InitClear(n, d, c) => Turns(nodes[n], th.key, d) && Child(nodes[n], d) == Some(c) && nodes[c] == EMPTY
       case InitUnlock(n, d, c) => Turns(nodes[n], th.key, d) && Child(nodes[n], d) == Some(c) && nodes[c] == EMPTY
       case ReleaseDown(n, d) => Turns(nodes[n], th.key, d) && Child(nodes[n], d).Some?
       case Descend(n, d) => Turns(nodes[n], th.key, d) && Child(nodes[n], d).Some?
       case AddDone(n, stored) => Holding(nodes[n], th, stored)
       case Read(n) => TargetBelow(nodes, depth, th, depth[n])
       case Follow(n, d) => Turns(nodes[n], th.key, d) && TargetBelow(nodes, depth, th, depth[n] + 1)
       case Answer(found, n) => (found ==> n < |nodes| && nodes[n].key == Some(th.key)) && (th.target.Some? ==> found)
  }

  predicate Initialising(pc: Pc) { pc.InitLock? || pc.InitClear? || pc.InitUnlock? }

  /** Which mutexes a thread at `pc` holds. */
  predicate Holds(pc: Pc, n: nat) {
    || ((pc.Test? || pc.PutKey? || pc.PutValue? || pc.Release? || pc.Link? || pc.ReleaseDown? || Initialising(pc)) && pc.n == n)
    || ((pc.InitClear? || pc.InitUnlock?) && pc.c == n)
  }

  /** An add that stands at node `n`, or is about to. */
  predicate AddAt(pc: Pc, n: nat) {
    !pc.Read? && !pc.Follow? && !Finished(pc) && pc.n == n
  }

  /** A mutex is recorded as held exactly by the thread whose program counter says so. */
  ghost predicate LocksOk(s: State) {
    && |s.locks| == |s.nodes|
    && (forall t: nat, n: nat {:trigger Holds(s.threads[t].pc, n)} ::
          t in s.threads && n < |s.nodes| && Holds(s.threads[t].pc, n) ==> s.locks[n] == Some(t))
    && (forall n: nat {:trigger s.locks[n]} :: n < |s.nodes| && s.locks[n].Some? ==>
          s.locks[n].value in s.threads && Holds(s.threads[s.locks[n].value].pc, n))
  }

  /** A child under initialisation is out of reach of the other adds. */
  ghost predicate Private(s: State) {
    forall t, u {:trigger s.threads[t], s.threads[u]} :: t in s.threads && u in s.threads && t != u && Initialising(s.threads[t].pc) ==>
      var p, q := s.threads[t].pc, s.threads[u].pc;
      !AddAt(q, p.c) && !(q.Descend? && q.n == p.n && q.d == p.d)
  }

  /** The add that stored the key of node `n`. */
  predicate StoredAt(pc: Pc, n: nat) {
    (pc.PutValue? || (pc.Release? && pc.stored) || (pc.AddDone? && pc.stored)) && pc.n == n
  }

  /** An add on its way to node `n`. */
  predicate HeadsFor(pc: Pc, nodes: seq<Node>, n: nat) {
    || ((pc.ToLock? || pc.Test? || pc.PutKey?) && pc.n == n)
    || (Initialising(pc) && pc.c == n)
    || ((pc.ReleaseDown? || pc.Descend?) && pc.n < |nodes| && Child(nodes[pc.n], pc.d) == Some(n))
  }

  ghost predicate SomeStored(s: State, n: nat) {
    exists t :: t in s.threads && StoredAt(s.threads[t].pc, n)
  }

  ghost predicate SomeHeads(s: State, n: nat) {
    exists t :: t in s.threads && HeadsFor(s.threads[t].pc, s.nodes, n)
  }

  /** Every key was stored by some add, and an empty node below the root is what some add is after. */
  ghost predicate Covered(s: State) {
    forall n: nat {:trigger s.nodes[n]} :: n < |s.nodes| ==>
      if s.nodes[n].key.Some? then SomeStored(s, n) else n == 0 || SomeHeads(s, n)
  }

  ghost predicate Inv(s: State) {
    && Shape(s.nodes, s.depth)
    && Findable(s.nodes, s.depth)
    && (forall t :: t in s.threads ==> ThreadOk(s.nodes, s.depth, s.threads[t]))
    && LocksOk(s)
    && Private(s)
    && Covered(s)
  }

  lemma StartInv()
    ensures Inv(Start)
  {
  }

  // ----- every step keeps it

  lemma OnKept(a: seq<Node>, b: seq<Node>, da: seq<nat>, db: seq<nat>, k: string, n: nat)
    requires Extends(a, b) && |da| == |a| && |db| == |b| && da <= db && On(a, da, k, n)
    ensures On(b, db, k, n)
  {
    WalkKept(a, b, k, da[n]);
  }

  /** A step writes only to nodes whose mutex the thread holds. */
  lemma WritesHeld(s: State, t: nat, m: nat)
    requires Ready(s, t) && m < |s.nodes| && !Holds(s.threads[t].pc, m)
    ensures NextNodes(s, t)[m] == s.nodes[m]
  {
  }

  lemma StepExtends(s: State, t: nat)
    requires Inv(s) && Ready(s, t)
    ensures Extends(s.nodes, NextNodes(s, t)) && s.depth <= Go(s, t).depth && |Go(s, t).depth| == |NextNodes(s, t)|
  {
    hide Shape, Findable, LocksOk, Private, Covered, On;
    assert ThreadOk(s.nodes, s.depth, s.threads[t]);
  }

  lemma StepShape(s: State, t: nat)
    requires Inv(s) && Ready(s, t)
    ensures Shape(Go(s, t).nodes, Go(s, t).depth)
  {
    hide Findable, LocksOk, Private, Covered, On, NextPc, NextLocks;
    var th := s.threads[t];
    assert ThreadOk(s.nodes, s.depth, th);
    match th.pc
    case Link(n, d) => LinkShape(s.nodes, s.depth, n, d);
    case PutKey(n) => SameLinks(s.nodes, NextNodes(s, t), s.depth);
    case PutValue(n) => SameLinks(s.nodes, NextNodes(s, t), s.depth);
    case InitClear(n, d, c) => assert s.nodes[c := EMPTY] == s.nodes;
    case _ =>
  }

  lemma SameLinks(a: seq<Node>, b: seq<Node>, depth: seq<nat>)
    requires Shape(a, depth) && |a| == |b|
    requires forall n {:trigger a[n]} {:trigger b[n]} :: 0 <= n < |a| ==>
      a[n].left == b[n].left && a[n].right == b[n].right && (a[n].key.Some? ==> b[n].key.Some?)
    ensures Shape(b, depth)
  {
    forall n, d | 0 <= n < |a| ensures Child(a[n], d) == Child(b[n], d) { }
  }

  lemma LinkShape(nodes: seq<Node>, depth: seq<nat>, n: nat, d: Dir)
    requires Shape(nodes, depth) && n < |nodes| && nodes[n].key.Some? && Child(nodes[n], d) == None
    ensures Shape(nodes[n := WithChild(nodes[n], d, |nodes|)] + [EMPTY], depth + [depth[n] + 1])
  {
    var b := nodes[n := WithChild(nodes[n], d, |nodes|)] + [EMPTY];
    forall m, e | 0 <= m < |b|
      ensures Child(b[m], e) == if m == n && e == d then Some(|nodes|) else if m < |nodes| then Child(nodes[m], e) else None
    {
    }
  }

  lemma StepFindable(s: State, t: nat)
    requires Inv(s) && Ready(s, t)
    ensures Findable(Go(s, t).nodes, Go(s, t).depth)
  {
    hide LocksOk, Private, Covered, NextPc, NextLocks, On, Shape, Extends;
    var th, a, b, db := s.threads[t], s.nodes, Go(s, t).nodes, Go(s, t).depth;
    StepExtends(s, t);
    assert |a| == |s.depth| by { assert Shape(a, s.depth); ShapeSizes(a, s.depth); }
    assert ThreadOk(a, s.depth, th);
    forall n | 0 <= n < |b| ensures if b[n].key.Some? then On(b, db, b[n].key.value, n) else b[n] == EMPTY {
      if n < |a| && a[n].key.Some? {
        OnKept(a, b, s.depth, db, a[n].key.value, n);
        KeyKept(a, b, n);
      } else if th.pc.PutKey? && th.pc.n == n {
        OnKept(a, b, s.depth, db, th.key, n);
      }
    }
  }

  lemma ShapeSizes(nodes: seq<Node>, depth: seq<nat>)
    requires Shape(nodes, depth)
    ensures |nodes| == |depth| > 0
  {
  }

  lemma KeyKept(a: seq<Node>, b: seq<Node>, n: nat)
    requires Extends(a, b) && n < |a| && a[n].key.Some?
    ensures b[n].key == a[n].key
  {
  }

  lemma WalkNext(nodes: seq<Node>, depth: seq<nat>, k: string, n: nat, d: Dir)
    requires On(nodes, depth, k, n) && Turns(nodes[n], k, d)
    ensures Walk(nodes, k, depth[n] + 1) == Child(nodes[n], d)
  {
  }

  /** A search path that has not reached the node of its key goes on. */
  lemma PathGoesOn(nodes: seq<Node>, depth: seq<nat>, k: string, n: nat, m: nat)
    requires Findable(nodes, depth) && On(nodes, depth, k, n)
    requires m < |nodes| && nodes[m].key == Some(k) && depth[n] <= depth[m] && n != m
    ensures depth[n] < depth[m] && nodes[n].key.Some? && nodes[n].key.value != k
    ensures Child(nodes[n], Side(k, nodes[n].key.value)).Some?
  {
    hide Side, Child;
    assert On(nodes, depth, k, m);
    if Walk(nodes, k, depth[n] + 1) == None && depth[n] < depth[m] {
      WalkEnds(nodes, k, depth[n] + 1, depth[m]);
    }
  }

  lemma StepOwnThread(s: State, t: nat)
    requires Inv(s) && Ready(s, t) && Enabled(s, t)
    ensures ThreadOk(Go(s, t).nodes, Go(s, t).depth, Go(s, t).threads[t])
  {
    if s.threads[t].pc.Read? || s.threads[t].pc.Follow? {
      StepLookup(s, t);
    } else {
      StepAdd(s, t);
    }
  }

  lemma StepLookup(s: State, t: nat)
    requires Inv(s) && Ready(s, t) && (s.threads[t].pc.Read? || s.threads[t].pc.Follow?)
    ensures ThreadOk(Go(s, t).nodes, Go(s, t).depth, Go(s, t).threads[t])
  {
    hide LocksOk, Private, Covered, NextLocks, Walk, Lt;
    var th, a, da := s.threads[t], s.nodes, s.depth;
    assert ThreadOk(a, da, th);
    var n := th.pc.n;
    if th.target.Some? && th.target.value != n {
      PathGoesOn(a, da, th.key, n, th.target.value);
    }
    if th.pc.Follow? {
      WalkNext(a, da, th.key, n, th.pc.d);
    }
  }

  /** A thread that holds the mutex of a node with a key finds a value there too. */
  lemma KeyHasValue(s: State, t: nat)
    requires Inv(s) && t in s.threads && s.threads[t].pc.Test? && s.threads[t].pc.n < |s.nodes|
    ensures s.nodes[s.threads[t].pc.n].key.Some? ==> s.nodes[s.threads[t].pc.n].value.Some?
  {
    hide Shape, Findable, On, Private;
    var n := s.threads[t].pc.n;
    if s.nodes[n].key.Some? {
      var u :| u in s.threads && StoredAt(s.threads[u].pc, n);
      assert ThreadOk(s.nodes, s.depth, s.threads[u]);
      if s.threads[u].pc.PutValue? { HeldByOne(s, t, u, n); }
    }
  }

  lemma StepAdd(s: State, t: nat)
    requires Inv(s) && Ready(s, t) && Enabled(s, t) && !s.threads[t].pc.Read? && !s.threads[t].pc.Follow?
    ensures ThreadOk(Go(s, t).nodes, Go(s, t).depth, Go(s, t).threads[t])
  {
    hide LocksOk, Private, Covered, NextLocks, Extends, Walk, Lt, TargetBelow;
    var th, a, da := s.threads[t], s.nodes, s.depth;
    var b, db := Go(s, t).nodes, Go(s, t).depth;
    StepExtends(s, t);
    ShapeSizes(a, da);
    assert ThreadOk(a, da, th);
    OnKept(a, b, da, db, th.key, th.pc.n);
    if th.pc.Descend? {
      WalkNext(a, da, th.key, th.pc.n, th.pc.d);
    } else if th.pc.Test? {
      KeyHasValue(s, t);
    }
  }

  /** Two threads never hold the same mutex. */
  lemma HeldByOne(s: State, t: nat, u: nat, n: nat)
    requires LocksOk(s) && t in s.threads && u in s.threads && n < |s.nodes|
    requires Holds(s.threads[t].pc, n) && Holds(s.threads[u].pc, n)
    ensures t == u
  {
  }

  /** What a thread at `q` relies on being empty is the same in `a` and `b`. */
  ghost predicate Spared(a: seq<Node>, b: seq<Node>, q: Pc) {
    && |a| <= |b| && InRange(q, |a|)
    && (q.PutKey? || q.PutValue? || q.Link? ==> a[q.n] == b[q.n])
    && (Initialising(q) ==> a[q.c] == b[q.c])
  }

  lemma StepSparesOthers(s: State, t: nat, u: nat)
    requires Inv(s) && Ready(s, t) && u in s.threads && u != t
    ensures Spared(s.nodes, NextNodes(s, t), s.threads[u].pc)
  {
    hide Shape, Findable, On, Covered;
    var p, q := s.threads[t].pc, s.threads[u].pc;
    assert ThreadOk(s.nodes, s.depth, s.threads[u]) && ThreadOk(s.nodes, s.depth, s.threads[t]);
    if q.PutKey? || q.PutValue? || q.Link? {
      if Holds(p, q.n) { HeldByOne(s, t, u, q.n); } else { WritesHeld(s, t, q.n); }
    }
    if Initialising(q) {
      if Holds(p, q.c) {
        assert !AddAt(p, q.c);
      } else {
        WritesHeld(s, t, q.c);
      }
    }
  }

  lemma StepOtherThread(s: State, t: nat, u: nat)
    requires Inv(s) && Ready(s, t) && u in s.threads && u != t
    ensures ThreadOk(Go(s, t).nodes, Go(s, t).depth, s.threads[u])
  {
    hide LocksOk, Private, Covered, NextLocks, NextPc, NextNodes, On, Findable, Lt;
    var th, a, da := s.threads[u], s.nodes, s.depth;
    var b, db := Go(s, t).nodes, Go(s, t).depth;
    StepExtends(s, t);
    ShapeSizes(a, da);
    assert ThreadOk(a, da, th);
    StepSparesOthers(s, t, u);
    if !th.pc.Answer? && !th.pc.AddDone? {
      OnKept(a, b, da, db, th.key, th.pc.n);
    }
  }

  lemma NodesGrow(s: State, t: nat)
    requires Ready(s, t)
    ensures |NextNodes(s, t)| == |s.nodes| + (if s.threads[t].pc.Link? then 1 else 0)
  {
  }

  lemma ChildDiffers(nodes: seq<Node>, depth: seq<nat>, n: nat, d: Dir)
    requires Shape(nodes, depth) && n < |nodes| && Child(nodes[n], d).Some?
    ensures Child(nodes[n], d).value != n
  {
  }

  lemma StepHeldRecorded(s: State, t: nat, u: nat, n: nat)
    requires Inv(s) && Ready(s, t) && Enabled(s, t)
    requires var s' := Go(s, t); u in s'.threads && n < |s'.nodes| && Holds(s'.threads[u].pc, n)
    ensures n < |NextLocks(s, t)| && NextLocks(s, t)[n] == Some(u)
  {
    hide Shape, Findable, On, Private, Covered, NextNodes, Turns, Holding, TargetBelow, Lt;
    NodesGrow(s, t);
    var p := s.threads[t].pc;
    assert ThreadOk(s.nodes, s.depth, s.threads[t]) && ThreadOk(s.nodes, s.depth, s.threads[u]);
    if p.InitUnlock? {
      ChildDiffers(s.nodes, s.depth, p.n, p.d);
      assert Holds(s.threads[t].pc, p.c);
    } else if p.Release? || p.ReleaseDown? {
      assert Holds(s.threads[t].pc, p.n);
    }
    if n < |s.nodes| && Holds(s.threads[u].pc, n) {
      assert s.locks[n] == Some(u);
    }
  }

  lemma StepRecordedHeld(s: State, t: nat, n: nat)
    requires Inv(s) && Ready(s, t) && Enabled(s, t)
    requires n < |NextLocks(s, t)| && NextLocks(s, t)[n].Some?
    ensures var s' := Go(s, t); s'.locks[n].value in s'.threads && Holds(s'.threads[s'.locks[n].value].pc, n)
  {
    hide Shape, Findable, On, Private, Covered, NextNodes, Turns, Holding, TargetBelow, Lt;
    assert ThreadOk(s.nodes, s.depth, s.threads[t]);
  }

  lemma StepLocks(s: State, t: nat)
    requires Inv(s) && Ready(s, t) && Enabled(s, t)
    ensures LocksOk(Go(s, t))
  {
    hide Inv, Enabled, NextPc, Holds;
    NodesGrow(s, t);
    var s' := Go(s, t);
    forall u: nat, n: nat | u in s'.threads && n < |s'.nodes| && Holds(s'.threads[u].pc, n)
      ensures s'.locks[n] == Some(u)
    {
      StepHeldRecorded(s, t, u, n);
    }
    forall n: nat | n < |s'.nodes| && s'.locks[n].Some?
      ensures s'.locks[n].value in s'.threads && Holds(s'.threads[s'.locks[n].value].pc, n)
    {
      StepRecordedHeld(s, t, n);
    }
  }

  /** `q` keeps out of the child that a thread at `p` initialises. */
  predicate KeepsOut(p: Pc, q: Pc) {
    Initialising(p) ==> !AddAt(q, p.c) && !(q.Descend? && q.n == p.n && q.d == p.d)
  }

  lemma StepPrivate(s: State, t: nat)
    requires Inv(s) && Ready(s, t) && Enabled(s, t)
    ensures Private(Go(s, t))
  {
    hide Inv, Enabled, NextPc, KeepsOut, NextNodes, NextLocks;
    var s' := Go(s, t);
    forall x, y | x in s'.threads && y in s'.threads && x != y
      ensures KeepsOut(s'.threads[x].pc, s'.threads[y].pc)
    {
      if x == t {
        StepKeepsOthersOut(s, t, y);
      } else if y == t {
        StepKeepsOut(s, t, x);
      } else {
        OthersKeepOut(s, x, y);
      }
    }
    PrivateFromPairs(s');
  }

  lemma OthersKeepOut(s: State, x: nat, y: nat)
    requires Inv(s) && x in s.threads && y in s.threads && x != y
    ensures KeepsOut(s.threads[x].pc, s.threads[y].pc)
  {
  }

  lemma PrivateFromPairs(s: State)
    requires forall x, y {:trigger s.threads[x], s.threads[y]} ::
      x in s.threads && y in s.threads && x != y ==> KeepsOut(s.threads[x].pc, s.threads[y].pc)
    ensures Private(s)
  {
  }

  lemma StepKeepsOthersOut(s: State, t: nat, y: nat)
    requires Inv(s) && Ready(s, t) && y in s.threads && y != t
    ensures KeepsOut(NextPc(s, t), s.threads[y].pc)
  {
    hide Findable, On, Shape, LocksOk, Covered, Lt, TargetBelow, Holding;
    assert ThreadOk(s.nodes, s.depth, s.threads[t]) && ThreadOk(s.nodes, s.depth, s.threads[y]);
    OthersKeepOut(s, t, y);
  }

  lemma StepKeepsOut(s: State, t: nat, x: nat)
    requires Inv(s) && Ready(s, t) && x in s.threads && x != t
    ensures KeepsOut(s.threads[x].pc, NextPc(s, t))
  {
    hide Findable, On, Lt, TargetBelow, Holding, Covered;
    var p, q := s.threads[x].pc, s.threads[t].pc;
    assert ThreadOk(s.nodes, s.depth, s.threads[t]) && ThreadOk(s.nodes, s.depth, s.threads[x]);
    OthersKeepOut(s, x, t);
    if Initialising(p) {
      if q.ReleaseDown? && q.n == p.n {
        HeldByOne(s, t, x, p.n);
      } else if q.Descend? {
        assert Child(s.nodes[p.n], p.d) == Some(p.c);
      }
    }
  }

  lemma StoredKept(s: State, t: nat, n: nat)
    requires Inv(s) && Ready(s, t) && Enabled(s, t) && SomeStored(s, n)
    ensures SomeStored(Go(s, t), n)
  {
    hide Inv, NextNodes, NextLocks;
    var u :| u in s.threads && StoredAt(s.threads[u].pc, n);
    assert StoredAt(Go(s, t).threads[u].pc, n);
  }

  lemma HeadsKept(s: State, t: nat, n: nat)
    requires Inv(s) && Ready(s, t) && Enabled(s, t) && n < |s.nodes| && SomeHeads(s, n)
    requires s.nodes[n].key == None && n < |Go(s, t).nodes| && Go(s, t).nodes[n].key == None
    ensures SomeHeads(Go(s, t), n)
  {
    hide Shape, Findable, On, LocksOk, Private, Covered, NextLocks, Holding, TargetBelow, Lt;
    var u :| u in s.threads && HeadsFor(s.threads[u].pc, s.nodes, n);
    StepExtends(s, t);
    assert ThreadOk(s.nodes, s.depth, s.threads[u]);
    assert HeadsFor(Go(s, t).threads[u].pc, Go(s, t).nodes, n);
  }

  lemma StepCovered(s: State, t: nat)
    requires Inv(s) && Ready(s, t) && Enabled(s, t)
    ensures Covered(Go(s, t))
  {
    hide Shape, Findable, ThreadOk, LocksOk, Private, NextLocks, SomeStored, SomeHeads, Enabled;
    var s', p := Go(s, t), s.threads[t].pc;
    StepExtends(s, t);
    forall n: nat | n < |s'.nodes|
      ensures if s'.nodes[n].key.Some? then SomeStored(s', n) else n == 0 || SomeHeads(s', n)
    {
      if n == |s.nodes| {
        NewNodeHeads(s, t);
      } else if s.nodes[n].key.Some? {
        StoredKept(s, t, n);
      } else if s'.nodes[n].key.Some? {
        NewKeyStored(s, t, n);
      } else if n != 0 {
        HeadsKept(s, t, n);
      }
    }
  }

  lemma NewNodeHeads(s: State, t: nat)
    requires Ready(s, t) && s.threads[t].pc.Link?
    ensures SomeHeads(Go(s, t), |s.nodes|)
  {
    assert HeadsFor(Go(s, t).threads[t].pc, Go(s, t).nodes, |s.nodes|);
  }

  lemma NewKeyStored(s: State, t: nat, n: nat)
    requires Ready(s, t) && s.threads[t].pc.PutKey? && s.threads[t].pc.n == n
    ensures SomeStored(Go(s, t), n)
  {
    assert StoredAt(Go(s, t).threads[t].pc, n);
  }

  /** Any step of any thread keeps the invariant. */
  lemma StepInv(s: State, t: nat)
    requires Inv(s) && t in s.threads && Ready(s, t) && Enabled(s, t)
    ensures Inv(Go(s, t)) && Extends(s.nodes, Go(s, t).nodes)
  {
    hide Shape, Findable, ThreadOk, LocksOk, Private, Covered, NextNodes, NextLocks, NextPc, Extends, Enabled;
    StepExtends(s, t);
    StepShape(s, t);
    StepFindable(s, t);
    StepLocks(s, t);
    StepPrivate(s, t);
    StepCovered(s, t);
    var s' := Go(s, t);
    forall u | u in s'.threads ensures ThreadOk(s'.nodes, s'.depth, s'.threads[u]) {
      if u == t { StepOwnThread(s, t); } else { StepOtherThread(s, t, u); }
    }
  }

  // ----- runs

  /** A thread calls add, a thread calls lookup, or a thread takes its next step. */
  datatype Event =
    | CallAdd(t: nat, key: string, value: int)
    | CallLookup(t: nat, key: string, target: Option<nat>)
    | Step(t: nat)

  ghost predicate Present(s: State, k: string) {
    exists n :: 0 <= n < |s.nodes| && s.nodes[n].key == Some(k)
  }

  /** `target` is the node that holds `k` now, if there is one. */
  ghost predicate IsTarget(s: State, k: string, target: Option<nat>) {
    if target.Some? then target.value < |s.nodes| && s.nodes[target.value].key == Some(k) else !Present(s, k)
  }

  ghost predicate Legal(s: State, e: Event) {
    match e
    case CallAdd(t, _, _) => t !in s.threads
    case CallLookup(t, k, target) => t !in s.threads && IsTarget(s, k, target)
    case Step(t) => Ready(s, t) && Enabled(s, t)
  }

  ghost function Apply(s: State, e: Event): State
    requires Legal(s, e)
  {
    match e
    case CallAdd(t, k, v) => s.(threads := s.threads[t := Thread(ToLock(0), k, v, None)])
    case CallLookup(t, k, target) => s.(threads := s.threads[t := Thread(Read(0), k, 0, target)])
    case Step(t) => Go(s, t)
  }

  lemma SpawnInv(s: State, t: nat, th: Thread)
    requires Inv(s) && t !in s.threads && (th.pc == ToLock(0) || th.pc == Read(0)) && ThreadOk(s.nodes, s.depth, th)
    ensures Inv(s.(threads := s.threads[t := th]))
  {
    hide Findable, Shape, ThreadOk, LocksOk, Private, Covered;
    SpawnLocks(s, t, th);
    SpawnPrivate(s, t, th);
    SpawnCovered(s, t, th);
  }

  lemma SpawnCovered(s: State, t: nat, th: Thread)
    requires Covered(s) && t !in s.threads
    ensures Covered(s.(threads := s.threads[t := th]))
  {
    hide StoredAt, HeadsFor;
    var s' := s.(threads := s.threads[t := th]);
    forall n: nat | n < |s.nodes|
      ensures if s'.nodes[n].key.Some? then SomeStored(s', n) else n == 0 || SomeHeads(s', n)
    {
      if s.nodes[n].key.Some? {
        var u :| u in s.threads && StoredAt(s.threads[u].pc, n);
        assert StoredAt(s'.threads[u].pc, n);
      } else if n != 0 {
        var u :| u in s.threads && HeadsFor(s.threads[u].pc, s.nodes, n);
        assert HeadsFor(s'.threads[u].pc, s'.nodes, n);
      }
    }
  }

  lemma SpawnLocks(s: State, t: nat, th: Thread)
    requires LocksOk(s) && t !in s.threads && (th.pc == ToLock(0) || th.pc == Read(0))
    ensures LocksOk(s.(threads := s.threads[t := th]))
  {
    var s' := s.(threads := s.threads[t := th]);
    forall u: nat, n: nat | u in s'.threads && n < |s'.nodes| && Holds(s'.threads[u].pc, n)
      ensures s'.locks[n] == Some(u)
    {
      assert Holds(s.threads[u].pc, n);
    }
  }

  lemma SpawnPrivate(s: State, t: nat, th: Thread)
    requires Inv(s) && t !in s.threads && (th.pc == ToLock(0) || th.pc == Read(0))
    ensures Private(s.(threads := s.threads[t := th]))
  {
    hide Findable, On, LocksOk, Covered, Turns;
    var s' := s.(threads := s.threads[t := th]);
    forall u, v | u in s'.threads && v in s'.threads && u != v && Initialising(s'.threads[u].pc)
      ensures !AddAt(s'.threads[v].pc, s'.threads[u].pc.c)
      ensures !(s'.threads[v].pc.Descend? && s'.threads[v].pc.n == s'.threads[u].pc.n && s'.threads[v].pc.d == s'.threads[u].pc.d)
    {
      assert s'.threads[u] == s.threads[u] && ThreadOk(s.nodes, s.depth, s.threads[u]);
      if v != t { assert s'.threads[v] == s.threads[v]; }
    }
  }

  lemma EventInv(s: State, e: Event)
    requires Inv(s) && Legal(s, e)
    ensures Inv(Apply(s, e)) && Extends(s.nodes, Apply(s, e).nodes)
  {
    hide Shape, Findable, LocksOk, Private, Covered;
    match e
    case CallAdd(t, k, v) => ShapeSizes(s.nodes, s.depth); RootOn(s, k); SpawnInv(s, t, Thread(ToLock(0), k, v, None));
    case CallLookup(t, k, target) => ShapeSizes(s.nodes, s.depth); RootOn(s, k); SpawnInv(s, t, Thread(Read(0), k, 0, target));
    case Step(t) => StepInv(s, t);
  }

  lemma RootOn(s: State, k: string)
    requires Inv(s)
    ensures On(s.nodes, s.depth, k, 0) && s.depth[0] == 0
  {
  }

  ghost predicate LegalRun(s: State, es: seq<Event>)
    decreases |es|
  {
    es == [] || (Legal(s, es[0]) && LegalRun(Apply(s, es[0]), es[1..]))
  }

  ghost function Run(s: State, es: seq<Event>): State
    requires LegalRun(s, es)
    decreases |es|
  {
    if es == [] then s else Run(Apply(s, es[0]), es[1..])
  }

  /** A run is its events one after the other. */
  lemma {:induction false} RunSnoc(s: State, es: seq<Event>, e: Event)
    ensures LegalRun(s, []) && Run(s, []) == s
    ensures LegalRun(s, es + [e]) <==> LegalRun(s, es) && Legal(Run(s, es), e)
    ensures LegalRun(s, es + [e]) ==> Run(s, es + [e]) == Apply(Run(s, es), e)
    decreases |es|
  {
    hide Legal, Apply;
    if es == [] {
      assert es + [e] == [e] && [e][1..] == [];
    } else {
      assert (es + [e])[0] == es[0] && (es + [e])[1..] == es[1..] + [e];
      if Legal(s, es[0]) { RunSnoc(Apply(s, es[0]), es[1..], e); }
    }
  }

  /** Every reachable state satisfies the invariant, and what was set stays set. */
  lemma {:induction false} RunInv(s: State, es: seq<Event>)
    requires Inv(s) && LegalRun(s, es)
    ensures Inv(Run(s, es)) && Extends(s.nodes, Run(s, es).nodes)
    decreases |es|
  {
    hide Inv, Extends, Apply, Legal;
    if es == [] {
      ExtendsRefl(s.nodes);
    } else {
      var s' := Apply(s, es[0]);
      EventInv(s, es[0]);
      RunInv(s', es[1..]);
      ExtendsTrans(s.nodes, s'.nodes, Run(s, es).nodes);
    }
  }

  lemma ExtendsRefl(a: seq<Node>)
    ensures Extends(a, a)
  {
  }

  lemma ExtendsTrans(a: seq<Node>, b: seq<Node>, c: seq<Node>)
    requires Extends(a, b) && Extends(b, c)
    ensures Extends(a, c)
  {
  }

  // ----- what the invariant gives

  /** No key is stored twice. */
  lemma UniqueKeys(s: State, n: nat, m: nat)
    requires Inv(s) && n < |s.nodes| && m < |s.nodes| && s.nodes[n].key.Some? && s.nodes[n].key == s.nodes[m].key
    ensures n == m
  {
    var k := s.nodes[n].key.value;
    if s.depth[n] <= s.depth[m] && n != m {
      PathGoesOn(s.nodes, s.depth, k, n, m);
    } else if n != m {
      PathGoesOn(s.nodes, s.depth, k, m, n);
    }
  }

  /** `path` leads from node `n` down to node `m`. */
  ghost predicate Leads(nodes: seq<Node>, n: nat, path: seq<Dir>, m: nat)
    decreases |path|
  {
    if path == [] then n == m < |nodes|
    else n < |nodes| && Child(nodes[n], path[0]).Some? && Leads(nodes, Child(nodes[n], path[0]).value, path[1..], m)
  }

  /** If the search path of `k` ends below, it passed through every node above. */
  lemma {:induction false} PathAbove(s: State, n: nat, path: seq<Dir>, m: nat, k: string)
    requires Inv(s) && Leads(s.nodes, n, path, m) && On(s.nodes, s.depth, k, m)
    ensures On(s.nodes, s.depth, k, n)
    ensures path != [] ==> Turns(s.nodes[n], k, path[0])
    decreases |path|
  {
    hide ThreadOk, LocksOk, Private, Covered, Findable, Lt;
    if path != [] {
      var c := Child(s.nodes[n], path[0]).value;
      PathAbove(s, c, path[1..], m, k);
      var up := Walk(s.nodes, k, s.depth[n]);
      assert s.depth[c] == s.depth[n] + 1;
      assert Walk(s.nodes, k, s.depth[c]) == Some(c);
      assert up.Some? && up.value < |s.nodes|;
      var x := s.nodes[up.value];
      assert Child(x, Side(k, x.key.value)) == Child(s.nodes[n], path[0]);
    }
  }

  lemma KeysAlongPath(s: State, n: nat, path: seq<Dir>, m: nat)
    requires Inv(s) && Leads(s.nodes, n, path, m) && path != [] && m < |s.nodes| && s.nodes[m].key.Some?
    ensures s.nodes[n].key.Some?
    ensures path[0] == Left ==> Lt(s.nodes[m].key.value, s.nodes[n].key.value)
    ensures path[0] == Right ==> Lt(s.nodes[n].key.value, s.nodes[m].key.value)
  {
    hide ThreadOk, LocksOk, Private, Covered, Shape;
    var k := s.nodes[m].key.value;
    assert On(s.nodes, s.depth, k, m);
    PathAbove(s, n, path, m, k);
    Trichotomy(k, s.nodes[n].key.value);
  }

  /** Below a node's left link all keys are smaller than its own, below its right link larger. */
  lemma SearchTree(s: State, n: nat, c: nat, path: seq<Dir>, m: nat)
    requires Inv(s) && n < |s.nodes| && Leads(s.nodes, c, path, m) && m < |s.nodes| && s.nodes[m].key.Some?
    ensures s.nodes[n].left == Some(c) ==> s.nodes[n].key.Some? && Lt(s.nodes[m].key.value, s.nodes[n].key.value)
    ensures s.nodes[n].right == Some(c) ==> s.nodes[n].key.Some? && Lt(s.nodes[n].key.value, s.nodes[m].key.value)
  {
    hide Inv, Lt;
    assert ([Left] + path)[1..] == path && ([Right] + path)[1..] == path;
    if s.nodes[n].left == Some(c) { KeysAlongPath(s, n, [Left] + path, m); }
    if s.nodes[n].right == Some(c) { KeysAlongPath(s, n, [Right] + path, m); }
  }

  /** As long as some thread has not returned, some thread can take a step. */
  lemma NoDeadlock(s: State, t: nat)
    requires Inv(s) && t in s.threads && !Finished(s.threads[t].pc)
    ensures exists u :: Ready(s, u) && Enabled(s, u)
  {
    hide Shape, Findable, On, Covered;
    var pc := s.threads[t].pc;
    assert ThreadOk(s.nodes, s.depth, s.threads[t]);
    assert Ready(s, t);
    if pc.ToLock? && s.locks[pc.n].Some? {
      HolderRuns(s, pc.n);
    } else if pc.InitLock? {
      ChildUnlocked(s, t);
      assert Enabled(s, t);
    } else {
      assert Enabled(s, t);
    }
  }

  /** The child a thread initialises is not locked by anyone else. */
  lemma ChildUnlocked(s: State, t: nat)
    requires Inv(s) && t in s.threads && s.threads[t].pc.InitLock?
    ensures s.threads[t].pc.c < |s.nodes| && s.locks[s.threads[t].pc.c] == None
  {
    var p := s.threads[t].pc;
    assert ThreadOk(s.nodes, s.depth, s.threads[t]);
    if s.locks[p.c].Some? {
      var u := s.locks[p.c].value;
      ChildDiffers(s.nodes, s.depth, p.n, p.d);
      assert Holds(s.threads[u].pc, p.c);
      assert ThreadOk(s.nodes, s.depth, s.threads[u]);
      assert u != t;
      var q := s.threads[u].pc;
      assert !AddAt(q, p.c);
      assert Child(s.nodes[q.n], q.d) == Child(s.nodes[p.n], p.d);
      HeldByOne(s, t, u, p.n);
    }
  }

  lemma HolderRuns(s: State, n: nat)
    requires Inv(s) && n < |s.nodes| && s.locks[n].Some?
    ensures exists u :: Ready(s, u) && Enabled(s, u)
  {
    var u := s.locks[n].value;
    assert ThreadOk(s.nodes, s.depth, s.threads[u]);
    assert Ready(s, u);
    if s.threads[u].pc.InitLock? { ChildUnlocked(s, u); }
    assert Enabled(s, u);
  }

  // ----- what callers see

  /** A call keeps its key and target to its end. */
  lemma {:induction false} CallKept(s: State, es: seq<Event>, t: nat)
    requires LegalRun(s, es) && t in s.threads
    ensures t in Run(s, es).threads
    ensures var a, b := s.threads[t], Run(s, es).threads[t]; a.key == b.key && a.value == b.value && a.target == b.target
    decreases |es|
  {
    hide NextPc, NextNodes, NextLocks;
    if es != [] { CallKept(Apply(s, es[0]), es[1..], t); }
  }

  /** After an add has returned its key is in the tree for good, with a value that is never
      replaced; if the add stored the key, the value is the add's. */
  lemma AddedStays(s: State, es: seq<Event>, t: nat)
    requires Inv(s) && t in s.threads && s.threads[t].pc.AddDone? && LegalRun(s, es)
    ensures var th, later := s.threads[t], Run(s, es).nodes;
      && th.pc.n < |s.nodes| <= |later|
      && later[th.pc.n].key == Some(th.key)
      && (th.pc.stored ==> later[th.pc.n].value == Some(th.value))
      && s.nodes[th.pc.n].value.Some? && later[th.pc.n].value == s.nodes[th.pc.n].value
  {
    RunInv(s, es);
    assert ThreadOk(s.nodes, s.depth, s.threads[t]);
  }

  /** The thread is in a call of add. */
  predicate InAdd(pc: Pc) { !pc.Read? && !pc.Follow? && !pc.Answer? }

  /** Every add in progress or done comes from a call with its key and value. */
  lemma {:induction false} Origin(s: State, es: seq<Event>, u: nat)
    requires LegalRun(s, es) && u in Run(s, es).threads && InAdd(Run(s, es).threads[u].pc)
    ensures var th := Run(s, es).threads[u];
      || CallAdd(u, th.key, th.value) in es
      || (u in s.threads && InAdd(s.threads[u].pc) && s.threads[u].key == th.key && s.threads[u].value == th.value)
    decreases |es|
  {
    hide Enabled, NextNodes, NextLocks;
    if es != [] {
      Origin(Apply(s, es[0]), es[1..], u);
    }
  }

  /** Only keys and values that some add was called with get into the tree. */
  lemma OnlyAddedKeys(es: seq<Event>, n: nat)
    requires LegalRun(Start, es) && n < |Run(Start, es).nodes| && Run(Start, es).nodes[n].key.Some?
    ensures var x := Run(Start, es).nodes[n];
      exists u, v :: CallAdd(u, x.key.value, v) in es && (x.value.Some? ==> x.value.value == v)
  {
    hide Run, LegalRun, Shape, Findable, On, LocksOk, Private;
    StartInv();
    RunInv(Start, es);
    var s := Run(Start, es);
    var u :| u in s.threads && StoredAt(s.threads[u].pc, n);
    assert ThreadOk(s.nodes, s.depth, s.threads[u]);
    Origin(Start, es, u);
    assert CallAdd(u, s.threads[u].key, s.threads[u].value) in es;
  }

  /** What a call of add has done when it has returned: its key is in the tree, with a value, and with
      its own value if it reports to have stored it. */
  lemma AddStores(s: State, t: nat, key: string, value: int, es: seq<Event>)
    requires Inv(s) && Legal(s, CallAdd(t, key, value)) && LegalRun(Apply(s, CallAdd(t, key, value)), es)
    ensures var e := Run(Apply(s, CallAdd(t, key, value)), es);
      t in e.threads && (e.threads[t].pc.AddDone? ==>
        && e.threads[t].pc.n < |e.nodes|
        && e.nodes[e.threads[t].pc.n].key == Some(key) && e.nodes[e.threads[t].pc.n].value.Some?
        && (e.threads[t].pc.stored ==> e.nodes[e.threads[t].pc.n].value == Some(value)))
  {
    hide Inv, Run, LegalRun;
    var c := CallAdd(t, key, value);
    EventInv(s, c);
    RunInv(Apply(s, c), es);
    CallKept(Apply(s, c), es, t);
    InvThread(Run(Apply(s, c), es), t);
  }

  /** A lookup answers true if the key was present when it was called, and only if it is present
      when it answers: as if it had looked at one instant in between. */
  lemma LookupExact(s: State, t: nat, key: string, target: Option<nat>, es: seq<Event>)
    requires Inv(s) && Legal(s, CallLookup(t, key, target))
    requires LegalRun(Apply(s, CallLookup(t, key, target)), es)
    ensures var e := Run(Apply(s, CallLookup(t, key, target)), es);
      t in e.threads && (e.threads[t].pc.Answer? ==>
        && (Present(s, key) ==> e.threads[t].pc.found)
        && (e.threads[t].pc.found ==> Present(e, key)))
  {
    hide Inv, Run, LegalRun;
    var c := CallLookup(t, key, target);
    var s' := Apply(s, c);
    EventInv(s, c);
    RunInv(s', es);
    CallKept(s', es, t);
    var e := Run(s', es);
    assert ThreadOk(e.nodes, e.depth, e.threads[t]) by { InvThread(e, t); }
  }

  lemma InvThread(s: State, t: nat)
    requires Inv(s) && t in s.threads
    ensures ThreadOk(s.nodes, s.depth, s.threads[t])
  {
  }

  /** A lookup called after an add of the same key has returned finds it. */
  lemma LookupAfterAdd(s: State, adder: nat, t: nat, target: Option<nat>, es: seq<Event>)
    requires Inv(s) && adder in s.threads && s.threads[adder].pc.AddDone?
    requires Legal(s, CallLookup(t, s.threads[adder].key, target))
    requires LegalRun(Apply(s, CallLookup(t, s.threads[adder].key, target)), es)
    ensures var e := Run(Apply(s, CallLookup(t, s.threads[adder].key, target)), es);
      t in e.threads && (e.threads[t].pc.Answer? ==> e.threads[t].pc.found)
  {
    hide Run, LegalRun;
    InvThread(s, adder);
    LookupExact(s, t, s.threads[adder].key, target, es);
    assert s.nodes[s.threads[adder].pc.n].key == Some(s.threads[adder].key);
  }

  // ----- every call returns

  /** The node an add stored its key in, or is after; every thread has at most one. */
  function Goal(pc: Pc, nodes: seq<Node>): Option<nat> {
    if pc.ToLock? || pc.Test? || pc.PutKey? || pc.PutValue? then Some(pc.n)
    else if (pc.Release? || pc.AddDone?) && pc.stored then Some(pc.n)
    else if Initialising(pc) then Some(pc.c)
    else if (pc.ReleaseDown? || pc.Descend?) && pc.n < |nodes| then Child(nodes[pc.n], pc.d)
    else None
  }

  ghost predicate SomeGoal(s: State, ts: set<nat>, n: nat)
    requires ts <= s.threads.Keys
  {
    exists t :: t in ts && Goal(s.threads[t].pc, s.nodes) == Some(n)
  }

  /** Distinct goals need distinct threads. */
  lemma {:induction false} EnoughThreads(s: State, ts: set<nat>, top: nat)
    requires ts <= s.threads.Keys && forall n: nat :: 0 < n <= top ==> SomeGoal(s, ts, n)
    ensures top <= |ts|
    decreases top
  {
    hide Goal;
    if top > 0 {
      assert SomeGoal(s, ts, top);
      var t :| t in ts && Goal(s.threads[t].pc, s.nodes) == Some(top);
      var rest := ts - {t};
      forall n: nat | 0 < n <= top - 1 ensures SomeGoal(s, rest, n) {
        assert SomeGoal(s, ts, n);
        var u :| u in ts && Goal(s.threads[u].pc, s.nodes) == Some(n);
        assert u in rest;
      }
      EnoughThreads(s, rest, top - 1);
    }
  }

  /** There are at most as many nodes below the root as there were calls. */
  lemma NodesBounded(s: State)
    requires Inv(s)
    ensures |s.nodes| <= |s.threads| + 1
  {
    hide Shape, Findable, ThreadOk, LocksOk, Private;
    forall n: nat | 0 < n <= |s.nodes| - 1 ensures SomeGoal(s, s.threads.Keys, n) {
      if s.nodes[n].key.Some? {
        var t :| t in s.threads && StoredAt(s.threads[t].pc, n);
        assert Goal(s.threads[t].pc, s.nodes) == Some(n);
      } else {
        var t :| t in s.threads && HeadsFor(s.threads[t].pc, s.nodes, n);
        assert Goal(s.threads[t].pc, s.nodes) == Some(n);
      }
    }
    if s.nodes != [] { EnoughThreads(s, s.threads.Keys, |s.nodes| - 1); }
  }

  /** Where a program counter is within its level of the tree; a level takes at most 8 steps. */
  function Place(pc: Pc): nat
    ensures Place(pc) < 8
  {
    match pc
    case ToLock(_) => 0
    case Test(_) => 1
    case PutKey(_) => 2
    case PutValue(_) => 3
    case Release(_, _) => 4
    case AddDone(_, _) => 5
    case Link(_, _) => 2
    case InitLock(_, _, _) => 3
    case InitClear(_, _, _) => 4
    case InitUnlock(_, _, _) => 5
    case ReleaseDown(_, _) => 6
    case Descend(_, _) => 7
    case Read(_) => 0
    case Follow(_, _) => 1
    case Answer(_, _) => 2
  }

  /** A bound on the steps a thread has taken. */
  function Rank(pc: Pc, depth: seq<nat>): nat {
    8 * (if pc.n < |depth| then depth[pc.n] else 0) + Place(pc)
  }

  function Ranks(s: State): map<nat, nat> {
    map t | t in s.threads :: Rank(s.threads[t].pc, s.depth)
  }

  lemma StepRank(s: State, t: nat)
    requires Inv(s) && Ready(s, t) && Enabled(s, t)
    ensures Rank(NextPc(s, t), Go(s, t).depth) > Rank(s.threads[t].pc, s.depth)
  {
    hide Findable, On, LocksOk, Private, Covered, Lt, Holding, TargetBelow;
    assert ThreadOk(s.nodes, s.depth, s.threads[t]);
  }

  lemma OtherRank(s: State, t: nat, u: nat)
    requires Ready(s, t) && u in s.threads
    ensures Rank(s.threads[u].pc, Go(s, t).depth) >= Rank(s.threads[u].pc, s.depth)
  {
    hide Place, NextPc, NextNodes, NextLocks;
  }

  lemma RankBounded(s: State, t: nat)
    requires Inv(s) && t in s.threads
    ensures Rank(s.threads[t].pc, s.depth) <= 8 * |s.threads| + 7
  {
    hide Findable, ThreadOk, LocksOk, Private, Covered;
    NodesBounded(s);
  }

  /** The ranks of the threads below `m`, added up. */
  function Sum(r: map<nat, nat>, m: nat): nat {
    if m == 0 then 0 else Sum(r, m - 1) + (if m - 1 in r then r[m - 1] else 0)
  }

  lemma {:induction false} SumSame(r: map<nat, nat>, q: map<nat, nat>, m: nat)
    requires forall t: nat :: t < m ==> (t in r <==> t in q) && (t in r ==> r[t] == q[t])
    ensures Sum(r, m) == Sum(q, m)
  {
    if m > 0 { SumSame(r, q, m - 1); }
  }

  lemma {:induction false} SumBounded(r: map<nat, nat>, m: nat, top: nat)
    requires forall t :: t in r ==> r[t] <= top
    ensures Sum(r, m) <= |r| * top
    decreases m
  {
    if m > 0 {
      var t := m - 1;
      if t in r {
        var q := r - {t};
        DropOne(r, t);
        SumBounded(q, t, top);
        SumSame(r, q, t);
        MulStep(|q|, top);
      } else {
        SumBounded(r, t, top);
      }
    }
  }

  lemma DropOne(r: map<nat, nat>, t: nat)
    requires t in r
    ensures |r - {t}| == |r| - 1
  {
    assert (r - {t}).Keys == r.Keys - {t};
  }

  lemma MulStep(a: nat, b: nat)
    ensures (a + 1) * b == a * b + b
  {
  }

  /** A step raises the sum. */
  lemma {:induction false} SumRises(r: map<nat, nat>, q: map<nat, nat>, m: nat, t: nat)
    requires forall u :: u in r ==> u in q && r[u] <= q[u]
    requires t in r && r[t] < q[t]
    ensures Sum(r, m) <= Sum(q, m) && (t < m ==> Sum(r, m) < Sum(q, m))
    decreases m
  {
    if m > 0 { SumRises(r, q, m - 1, t); }
  }

  lemma {:induction false} SumKept(r: map<nat, nat>, q: map<nat, nat>, m: nat)
    requires forall u :: u in r ==> u in q && r[u] <= q[u]
    ensures Sum(r, m) <= Sum(q, m)
  {
    if m > 0 { SumKept(r, q, m - 1); }
  }

  function Calls(es: seq<Event>): nat {
    if es == [] then 0 else (if es[0].Step? then 0 else 1) + Calls(es[1..])
  }

  function MaxId(es: seq<Event>): nat {
    if es == [] then 0 else if es[0].t >= MaxId(es[1..]) then es[0].t + 1 else MaxId(es[1..])
  }

  /** One event: a call adds a thread, a step raises the sum of the ranks. */
  lemma EventRanks(s: State, e: Event, m: nat)
    requires Inv(s) && Legal(s, e) && e.t < m
    ensures var s' := Apply(s, e);
      && |s'.threads| == |s.threads| + (if e.Step? then 0 else 1)
      && Sum(Ranks(s), m) + (if e.Step? then 1 else 0) <= Sum(Ranks(s'), m)
  {
    hide Inv, NextPc, NextNodes, NextLocks, Enabled, Rank, Sum, Present;
    var s' := Apply(s, e);
    if e.Step? {
      StepRank(s, e.t);
      forall u | u in s.threads ensures u in s'.threads && Ranks(s)[u] <= Ranks(s')[u] {
        if u == e.t { assert s'.threads[u].pc == NextPc(s, u); } else { OtherRank(s, e.t, u); }
      }
      assert s'.threads.Keys == s.threads.Keys;
      SumRises(Ranks(s), Ranks(s'), m, e.t);
    } else {
      SumKept(Ranks(s), Ranks(s'), m);
    }
  }

  lemma {:induction false} RunRanks(s: State, es: seq<Event>, m: nat)
    requires Inv(s) && LegalRun(s, es) && MaxId(es) <= m
    ensures |Run(s, es).threads| == |s.threads| + Calls(es)
    ensures Sum(Ranks(s), m) + |es| <= Sum(Ranks(Run(s, es)), m) + Calls(es)
    decreases |es|
  {
    hide Inv, Apply, Legal, Ranks, Sum;
    if es != [] {
      EventInv(s, es[0]);
      EventRanks(s, es[0], m);
      RunRanks(Apply(s, es[0]), es[1..], m);
    }
  }

  /** No run is longer than the number of its calls allows. */
  lemma RunBounded(es: seq<Event>)
    requires LegalRun(Start, es)
    ensures |Run(Start, es).threads| == Calls(es)
    ensures |es| <= 8 * Calls(es) * (Calls(es) + 1)
  {
    hide Run, LegalRun, Inv, Rank, Sum, Calls;
    StartInv();
    var m, c := MaxId(es), Calls(es);
    var s := Run(Start, es);
    RunInv(Start, es);
    RunRanks(Start, es, m);
    forall t | t in Ranks(s) ensures Ranks(s)[t] <= 8 * c + 7 { RankBounded(s, t); }
    var top := 8 * c + 7;
    SumBounded(Ranks(s), m, top);
    assert Ranks(s).Keys == s.threads.Keys;
    assert |es| <= c * top + c;
    Quadratic(c);
  }

  lemma Quadratic(c: nat)
    ensures c * (8 * c + 7) + c == 8 * c * (c + 1)
  {
  }

  ghost predicate AllReturned(s: State) {
    forall t :: t in s.threads ==> Finished(s.threads[t].pc)
  }

  /** A run can go on without new calls exactly as long as some call has not returned. */
  lemma StuckIffReturned(s: State)
    requires Inv(s)
    ensures (exists u :: Ready(s, u) && Enabled(s, u)) <==> !AllReturned(s)
  {
    hide Inv;
    if !AllReturned(s) {
      var t :| t in s.threads && !Finished(s.threads[t].pc);
      NoDeadlock(s, t);
    }
  }

  /** Some add was called with this key and value, and has returned. */
  ghost predicate AddedBy(s: State, k: string, v: int) {
    exists t :: t in s.threads && s.threads[t].pc.AddDone? && s.threads[t].key == k && s.threads[t].value == v
  }

  /** A node of the finished tree: a key with a value some add brought, or the root if there was no add. */
  ghost predicate FinalNode(s: State, n: nat)
    requires n < |s.nodes|
  {
    var x := s.nodes[n];
    if x.key.Some? then x.value.Some? && AddedBy(s, x.key.value, x.value.value)
    else n == 0 && forall t :: t in s.threads ==> s.threads[t].pc.Answer?
  }

  /** Once all calls have returned, the keys in the tree are exactly those the adds were called with,
      each with the value of such an add, and no node is empty unless there was no add at all. */
  lemma FinalTree(s: State)
    requires Inv(s) && AllReturned(s)
    ensures forall n: nat :: n < |s.nodes| ==> FinalNode(s, n)
    ensures forall t :: t in s.threads && s.threads[t].pc.AddDone? ==> Present(s, s.threads[t].key)
  {
    hide Inv, FinalNode;
    forall n: nat | n < |s.nodes| ensures FinalNode(s, n) {
      if s.nodes[n].key.Some? { FinalKey(s, n); } else { FinalEmpty(s, n); }
    }
    forall t | t in s.threads && s.threads[t].pc.AddDone? ensures Present(s, s.threads[t].key) {
      InvThread(s, t);
      assert s.nodes[s.threads[t].pc.n].key == Some(s.threads[t].key);
    }
  }

  lemma FinalKey(s: State, n: nat)
    requires Inv(s) && AllReturned(s) && n < |s.nodes| && s.nodes[n].key.Some?
    ensures FinalNode(s, n)
  {
    hide Shape, Findable, On, LocksOk, Private;
    var t :| t in s.threads && StoredAt(s.threads[t].pc, n);
    assert ThreadOk(s.nodes, s.depth, s.threads[t]);
  }

  lemma FinalEmpty(s: State, n: nat)
    requires Inv(s) && AllReturned(s) && n < |s.nodes| && s.nodes[n].key == None
    ensures FinalNode(s, n)
  {
    hide Shape, Findable, On, LocksOk, Private;
    forall t | t in s.threads ensures !HeadsFor(s.threads[t].pc, s.nodes, n) {
      assert Finished(s.threads[t].pc);
    }
    forall t | t in s.threads ensures s.threads[t].pc.Answer? {
      assert ThreadOk(s.nodes, s.depth, s.threads[t]);
      if s.threads[t].pc.AddDone? { EmptyRoot(s, s.threads[t].pc.n); }
    }
  }

  /** Below an empty root there is nothing. */
  lemma EmptyRoot(s: State, n: nat)
    requires Inv(s) && 0 < |s.nodes| && s.nodes[0].key == None && n < |s.nodes|
    ensures s.nodes[n].key == None
  {
    hide Shape, ThreadOk, LocksOk, Private, Covered;
    ShapeSizes(s.nodes, s.depth);
    var k := if s.nodes[n].key.Some? then s.nodes[n].key.value else "";
    assert Walk(s.nodes, k, 0) == Some(0);
    assert Walk(s.nodes, k, 1) == None;
    if s.depth[n] > 0 { WalkEnds(s.nodes, k, 1, s.depth[n]); }
  }
}
