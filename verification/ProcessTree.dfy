/** The process tree as a value: who is whose child, and what printing emits. */
module ProcessTreeSpec {

  datatype Proc = Proc(name: string, pid: int, ppid: int)

  /** The ghost process at the top of the tree. */
  const GHOST := -1

  /** find_node_in_ll: the first process with that pid, or the number of processes. */
  function FindPid(ps: seq<Proc>, pid: int): (i: nat)
    ensures i <= |ps| && (i < |ps| ==> ps[i].pid == pid)
    ensures forall j :: 0 <= j < i ==> ps[j].pid != pid
  {
    if ps == [] then 0 else if ps[0].pid == pid then 0 else 1 + FindPid(ps[1..], pid)
  }

  /** The parent of process `j`; a ppid of 0 means the ghost process. */
  function ParentOf(ps: seq<Proc>, j: nat): (q: int)
    requires j < |ps|
    ensures GHOST <= q <= |ps|
  {
    if ps[j].ppid == 0 then GHOST else FindPid(ps, ps[j].ppid)
  }

  /** The ghost process exactly for a ppid of 0; otherwise the first process with that pid, if there is one. */
  lemma ParentIs(ps: seq<Proc>, j: nat)
    requires j < |ps|
    ensures var q, pid := ParentOf(ps, j), ps[j].ppid;
      && (q == -1 <==> pid == 0)
      && (0 <= q < |ps| ==> ps[q].pid == pid)
      && (pid != 0 ==> forall i :: 0 <= i < q ==> ps[i].pid != pid)
  {
  }

  /** The chain of parents from process `j` reaches a ppid of 0 after `k` links. */
  ghost predicate Reaches(ps: seq<Proc>, j: nat, k: nat)
    requires j < |ps|
    decreases k
  {
    var q := ParentOf(ps, j);
    k > 0 && (if q == GHOST then k == 1 else q < |ps| && Reaches(ps, q, k - 1))
  }

  /** The chain does not end at an unlisted parent or in a cycle. */
  ghost predicate ReachesTop(ps: seq<Proc>, j: nat)
    requires j < |ps|
  {
    exists k: nat :: Reaches(ps, j, k)
  }

  /** The ghost process, or a process with such a chain. */
  ghost predicate OnTop(ps: seq<Proc>, q: int) {
    q == GHOST || (0 <= q < |ps| && ReachesTop(ps, q))
  }

  /** How far process `j` is below the ghost process, if it is. */
  ghost function DepthOf(ps: seq<Proc>, j: nat): (k: nat)
    requires j < |ps|
    ensures ReachesTop(ps, j) ==> Reaches(ps, j, k)
  {
    if ReachesTop(ps, j) then var k: nat :| Reaches(ps, j, k); k else 0
  }

  ghost function Depths(ps: seq<Proc>): (depth: seq<nat>)
    ensures |depth| == |ps|
  {
    seq(|ps|, j requires 0 <= j < |ps| => DepthOf(ps, j))
  }

  /** The depth of a node, 0 for the ghost process. */
  ghost function Above(depth: seq<nat>, q: int): nat {
    if 0 <= q < |depth| then depth[q] else 0
  }

  /** Being connected to the top goes from parent to child and back, and `depth` counts the links. */
  ghost predicate Levels(ps: seq<Proc>, depth: seq<nat>) {
    && |depth| == |ps|
    && forall j {:trigger depth[j]} {:trigger ReachesTop(ps, j)} :: 0 <= j < |ps| ==>
         && (ReachesTop(ps, j) <==> OnTop(ps, ParentOf(ps, j)))
         && (ReachesTop(ps, j) ==> depth[j] == Above(depth, ParentOf(ps, j)) + 1)
  }

  lemma LevelAt(ps: seq<Proc>, depth: seq<nat>, j: nat)
    requires Levels(ps, depth) && j < |ps|
    ensures |depth| == |ps| && (ReachesTop(ps, j) <==> OnTop(ps, ParentOf(ps, j)))
    ensures ReachesTop(ps, j) ==> depth[j] == Above(depth, ParentOf(ps, j)) + 1
  {
    hide ParentOf, ReachesTop;
  }

  lemma {:induction false} ReachesOnce(ps: seq<Proc>, j: nat, k: nat, m: nat)
    requires j < |ps| && Reaches(ps, j, k) && Reaches(ps, j, m)
    ensures k == m
    decreases k
  {
    hide ParentOf;
    if ParentOf(ps, j) != GHOST { ReachesOnce(ps, ParentOf(ps, j), k - 1, m - 1); }
  }

  lemma TopFromParent(ps: seq<Proc>, j: nat)
    requires j < |ps|
    ensures ReachesTop(ps, j) <==> OnTop(ps, ParentOf(ps, j))
  {
    hide ParentOf;
    var q := ParentOf(ps, j);
    if q == GHOST {
      assert Reaches(ps, j, 1);
    } else {
      if k: nat :| Reaches(ps, j, k) { assert Reaches(ps, q, k - 1); }
      if k: nat :| q < |ps| && Reaches(ps, q, k) { assert Reaches(ps, j, k + 1); }
    }
  }

  /** Every list has its depths, whatever its parent chains look like. */
  lemma DepthsAreLevels(ps: seq<Proc>)
    ensures Levels(ps, Depths(ps))
  {
    hide ParentOf, ReachesTop;
    var depth := Depths(ps);
    forall j | 0 <= j < |ps|
      ensures ReachesTop(ps, j) <==> OnTop(ps, ParentOf(ps, j))
      ensures ReachesTop(ps, j) ==> depth[j] == Above(depth, ParentOf(ps, j)) + 1
    {
      TopFromParent(ps, j);
      var q := ParentOf(ps, j);
      if ReachesTop(ps, j) && q != GHOST {
        assert Reaches(ps, j, depth[j]) && Reaches(ps, q, depth[q]);
        ReachesOnce(ps, q, depth[j] - 1, depth[q]);
      }
    }
  }

  /** The children of `q` among the first `n` processes, in list order. */
  function Kids(ps: seq<Proc>, q: int, n: nat): seq<nat>
    requires n <= |ps|
  {
    if n == 0 then []
    else Kids(ps, q, n - 1) + (if ParentOf(ps, n - 1) == q then [n - 1] else [])
  }

  function Children(ps: seq<Proc>, q: int): seq<nat> { Kids(ps, q, |ps|) }

  lemma {:induction false} KidsAre(ps: seq<Proc>, q: int, n: nat)
    requires n <= |ps|
    ensures forall k :: 0 <= k < |Kids(ps, q, n)| ==> Kids(ps, q, n)[k] < n && ParentOf(ps, Kids(ps, q, n)[k]) == q
    ensures forall j: nat :: j < n && ParentOf(ps, j) == q ==> j in Kids(ps, q, n)
    ensures forall k, m :: 0 <= k < m < |Kids(ps, q, n)| ==> Kids(ps, q, n)[k] < Kids(ps, q, n)[m]
  {
    hide ParentOf;
    if n > 0 { KidsAre(ps, q, n - 1); }
  }

  /** Every process is listed as a child of its parent, once, and of no other node. */
  lemma ChildOfOne(ps: seq<Proc>, j: nat)
    requires j < |ps|
    ensures exists k :: 0 <= k < |Children(ps, ParentOf(ps, j))| && Children(ps, ParentOf(ps, j))[k] == j
    ensures forall q, k, m :: 0 <= k < m < |Children(ps, q)| ==> !(Children(ps, q)[k] == Children(ps, q)[m] == j)
    ensures forall q :: j in Children(ps, q) ==> q == ParentOf(ps, j)
  {
    hide Kids, ParentOf;
    assert j in Children(ps, ParentOf(ps, j)) by { KidsAre(ps, ParentOf(ps, j), |ps|); }
    forall q ensures j in Children(ps, q) <==> q == ParentOf(ps, j) {
      KidsAre(ps, q, |ps|);
    }
    forall q, k, m | 0 <= k < m < |Children(ps, q)| ensures Children(ps, q)[k] != Children(ps, q)[m] {
      KidsAre(ps, q, |ps|);
    }
  }

  // ----- printing

  /** One line of output: indentation depth, whether it uses the last-child mark, and the process. */
  datatype Line = Line(depth: nat, isLast: bool, proc: nat)

  ghost function MaxOf(depth: seq<nat>): (m: nat)
    ensures forall i :: 0 <= i < |depth| ==> depth[i] <= m
  {
    if depth == [] then 0
    else
      var m := MaxOf(depth[..|depth| - 1]);
      if depth[|depth| - 1] > m then depth[|depth| - 1] else m
  }

  ghost predicate AllBelow(ps: seq<Proc>, cs: seq<nat>, q: int) {
    forall k :: 0 <= k < |cs| ==> cs[k] < |ps| && ParentOf(ps, cs[k]) == q
  }

  /** print_tree_recursive */
  ghost function Subtree(ps: seq<Proc>, depth: seq<nat>, j: nat, at: nat, isLast: bool): seq<Line>
    requires Levels(ps, depth) && j < |ps| && ReachesTop(ps, j)
    decreases MaxOf(depth) - depth[j], 1, 0
  {
    KidsAre(ps, j, |ps|);
    [Line(at, isLast, j)] + Forest(ps, depth, Children(ps, j), j, 0, at + 1)
  }

  /** The loop over the children from the `k`-th on. */
  ghost function Forest(ps: seq<Proc>, depth: seq<nat>, cs: seq<nat>, q: int, k: nat, at: nat): seq<Line>
    requires Levels(ps, depth) && AllBelow(ps, cs, q) && k <= |cs| && OnTop(ps, q)
    decreases MaxOf(depth) - Above(depth, q), 0, |cs| - k
  {
    if k == |cs| then []
    else
      assert ReachesTop(ps, cs[k]) && depth[cs[k]] == Above(depth, q) + 1;
      Subtree(ps, depth, cs[k], at, k == |cs| - 1) + Forest(ps, depth, cs, q, k + 1, at)
  }

  /** print_tree, below its heading. */
  ghost function Printed(ps: seq<Proc>): seq<Line> {
    KidsAre(ps, GHOST, |ps|);
    DepthsAreLevels(ps);
    Forest(ps, Depths(ps), Children(ps, GHOST), GHOST, 0, 1)
  }

  // ----- every process once

  function Count(ls: seq<Line>, x: nat): nat {
    if ls == [] then 0 else (if ls[0].proc == x then 1 else 0) + Count(ls[1..], x)
  }

  lemma {:induction false} CountConcat(a: seq<Line>, b: seq<Line>, x: nat)
    ensures Count(a + b, x) == Count(a, x) + Count(b, x)
  {
    if a == [] {
      assert a + b == b;
    } else {
      assert (a + b)[1..] == a[1..] + b;
      CountConcat(a[1..], b, x);
    }
  }

  /** The ancestor of `x`, or `x` itself, at depth `k`. */
  ghost function AncestorAt(ps: seq<Proc>, depth: seq<nat>, x: nat, k: nat): (a: nat)
    requires Levels(ps, depth) && x < |ps| && ReachesTop(ps, x) && 0 < k <= depth[x]
    ensures a < |ps| && depth[a] == k && ReachesTop(ps, a)
    decreases depth[x]
  {
    if depth[x] == k then x else AncestorAt(ps, depth, ParentOf(ps, x), k)
  }

  /** `x` is below `j`, or is `j`. */
  ghost predicate Under(ps: seq<Proc>, depth: seq<nat>, j: int, x: nat)
    requires Levels(ps, depth) && x < |ps|
  {
    ReachesTop(ps, x) && (j == GHOST || (0 <= j < |ps| && 0 < depth[j] <= depth[x] && AncestorAt(ps, depth, x, depth[j]) == j))
  }

  lemma {:induction false} AncestorStep(ps: seq<Proc>, depth: seq<nat>, x: nat, k: nat)
    requires Levels(ps, depth) && x < |ps| && ReachesTop(ps, x) && 0 < k < depth[x]
    ensures ParentOf(ps, AncestorAt(ps, depth, x, k + 1)) == AncestorAt(ps, depth, x, k)
    decreases depth[x]
  {
    hide ParentOf;
    if depth[x] != k + 1 { AncestorStep(ps, depth, ParentOf(ps, x), k); }
  }

  /** The child of `q` above `x`, if there is one. */
  lemma ChildTowards(ps: seq<Proc>, depth: seq<nat>, q: int, x: nat, c: nat)
    requires Levels(ps, depth) && x < |ps| && c < |ps| && ParentOf(ps, c) == q && OnTop(ps, q)
    ensures Under(ps, depth, c, x) <==> ReachesTop(ps, x) && Above(depth, q) < depth[x] && AncestorAt(ps, depth, x, Above(depth, q) + 1) == c
    ensures Under(ps, depth, c, x) ==> Under(ps, depth, q, x) && x != q
  {
    hide Levels, ParentOf, ReachesTop, AncestorAt;
    LevelAt(ps, depth, c);
    if Under(ps, depth, c, x) && q != GHOST {
      DepthPositive(ps, depth, q);
      AncestorStep(ps, depth, x, depth[q]);
    }
  }

  lemma DepthPositive(ps: seq<Proc>, depth: seq<nat>, j: nat)
    requires Levels(ps, depth) && j < |ps| && ReachesTop(ps, j)
    ensures depth[j] > 0
  {
    hide ParentOf;
  }

  lemma TowardsExists(ps: seq<Proc>, depth: seq<nat>, q: int, x: nat)
    requires Levels(ps, depth) && x < |ps| && OnTop(ps, q) && Under(ps, depth, q, x) && x != q
    ensures Above(depth, q) < depth[x]
    ensures var c := AncestorAt(ps, depth, x, Above(depth, q) + 1);
      ParentOf(ps, c) == q && c in Children(ps, q)
  {
    hide Levels, Kids, ParentOf, ReachesTop;
    LevelAt(ps, depth, x);
    var c := AncestorAt(ps, depth, x, Above(depth, q) + 1);
    if q == GHOST {
      LevelAt(ps, depth, c);
      if ParentOf(ps, c) != GHOST { DepthPositive(ps, depth, ParentOf(ps, c)); }
    } else {
      AncestorStep(ps, depth, x, depth[q]);
    }
    KidsAre(ps, q, |ps|);
  }

  /** A subtree prints exactly what is under its root, once. */
  lemma {:induction false} SubtreeCount(ps: seq<Proc>, depth: seq<nat>, j: nat, at: nat, isLast: bool, x: nat)
    requires Levels(ps, depth) && j < |ps| && ReachesTop(ps, j) && x < |ps|
    ensures Count(Subtree(ps, depth, j, at, isLast), x) == if Under(ps, depth, j, x) then 1 else 0
    decreases MaxOf(depth) - depth[j], 1, 0
  {
    hide Under, Kids, ParentOf, MaxOf;
    KidsAre(ps, j, |ps|);
    var cs := Children(ps, j);
    CountConcat([Line(at, isLast, j)], Forest(ps, depth, cs, j, 0, at + 1), x);
    ForestCount(ps, depth, cs, j, 0, at + 1, x);
    assert Count([Line(at, isLast, j)], x) == if x == j then 1 else 0 by { assert [Line(at, isLast, j)][1..] == []; }
    UnderSplits(ps, depth, j, x, cs);
  }

  /** Some child from the `k`-th on is above `x`. */
  ghost predicate SomeUnder(ps: seq<Proc>, depth: seq<nat>, cs: seq<nat>, k: nat, x: nat)
    requires Levels(ps, depth) && x < |ps| && k <= |cs|
  {
    exists m {:trigger cs[m]} :: k <= m < |cs| && Under(ps, depth, cs[m], x)
  }

  /** What is under a node is the node itself or under one of its children. */
  lemma UnderSplits(ps: seq<Proc>, depth: seq<nat>, q: int, x: nat, cs: seq<nat>)
    requires Levels(ps, depth) && x < |ps| && OnTop(ps, q) && cs == Children(ps, q)
    ensures Under(ps, depth, q, x) <==> x == q || SomeUnder(ps, depth, cs, 0, x)
    ensures x == q ==> !SomeUnder(ps, depth, cs, 0, x)
  {
    KidsAre(ps, q, |ps|);
    forall m | 0 <= m < |cs| && Under(ps, depth, cs[m], x) ensures Under(ps, depth, q, x) && x != q {
      ChildTowards(ps, depth, q, x, cs[m]);
    }
    if Under(ps, depth, q, x) && x != q {
      TowardsExists(ps, depth, q, x);
      var c := AncestorAt(ps, depth, x, Above(depth, q) + 1);
      var m :| 0 <= m < |cs| && cs[m] == c;
      ChildTowards(ps, depth, q, x, c);
      assert Under(ps, depth, cs[m], x);
    }
    if x == q { DepthPositive(ps, depth, x); }
  }

  lemma {:induction false} ForestCount(ps: seq<Proc>, depth: seq<nat>, cs: seq<nat>, q: int, k: nat, at: nat, x: nat)
    requires Levels(ps, depth) && AllBelow(ps, cs, q) && k <= |cs| && OnTop(ps, q) && x < |ps|
    requires forall i, m :: 0 <= i < m < |cs| ==> cs[i] < cs[m]
    ensures Count(Forest(ps, depth, cs, q, k, at), x) == if SomeUnder(ps, depth, cs, k, x) then 1 else 0
    decreases MaxOf(depth) - Above(depth, q), 0, |cs| - k
  {
    hide Under, Kids, ParentOf, MaxOf;
    if k < |cs| {
      assert ReachesTop(ps, cs[k]) && depth[cs[k]] == Above(depth, q) + 1;
      SubtreeCount(ps, depth, cs[k], at, k == |cs| - 1, x);
      ForestCount(ps, depth, cs, q, k + 1, at, x);
      CountConcat(Subtree(ps, depth, cs[k], at, k == |cs| - 1), Forest(ps, depth, cs, q, k + 1, at), x);
      OneUnder(ps, depth, cs, q, k, x);
    }
  }

  /** At most one child is above `x`. */
  lemma OneUnder(ps: seq<Proc>, depth: seq<nat>, cs: seq<nat>, q: int, k: nat, x: nat)
    requires Levels(ps, depth) && AllBelow(ps, cs, q) && k < |cs| && OnTop(ps, q) && x < |ps|
    requires forall i, m :: 0 <= i < m < |cs| ==> cs[i] < cs[m]
    ensures SomeUnder(ps, depth, cs, k, x) <==> Under(ps, depth, cs[k], x) || SomeUnder(ps, depth, cs, k + 1, x)
    ensures !(Under(ps, depth, cs[k], x) && SomeUnder(ps, depth, cs, k + 1, x))
  {
    hide Under, Kids, ParentOf;
    ChildTowards(ps, depth, q, x, cs[k]);
    forall m | k < m < |cs| && Under(ps, depth, cs[m], x) ensures !Under(ps, depth, cs[k], x) {
      ChildTowards(ps, depth, q, x, cs[m]);
    }
  }

  /** Printing emits a process once if its chain of parents reaches 0, and otherwise not at all. */
  lemma PrintedOnce(ps: seq<Proc>, x: nat)
    requires x < |ps|
    ensures Count(Printed(ps), x) == if ReachesTop(ps, x) then 1 else 0
  {
    var depth := Depths(ps);
    DepthsAreLevels(ps);
    KidsAre(ps, GHOST, |ps|);
    ForestCount(ps, depth, Children(ps, GHOST), GHOST, 0, 1, x);
    UnderSplits(ps, depth, GHOST, x, Children(ps, GHOST));
  }

  // ----- each line

  /** A process is the last among its siblings. */
  ghost predicate LastChild(ps: seq<Proc>, x: nat)
    requires x < |ps|
  {
    var cs := Children(ps, ParentOf(ps, x));
    cs != [] && cs[|cs| - 1] == x
  }

  /** A line shows a process at its depth with the right mark. */
  ghost predicate LineOk(ps: seq<Proc>, depth: seq<nat>, l: Line) {
    l.proc < |ps| == |depth| && ReachesTop(ps, l.proc) && l.depth == depth[l.proc] && (l.isLast <==> LastChild(ps, l.proc))
  }

  /** The parent of the process on line `i` is printed before it. */
  ghost predicate ParentBefore(ps: seq<Proc>, ls: seq<Line>, i: nat)
    requires i < |ls| && ls[i].proc < |ps|
  {
    exists p :: 0 <= p < i && ls[p].proc == ParentOf(ps, ls[i].proc)
  }

  /** All lines are right, and all but the children of `q` follow their parents. */
  ghost predicate Orderly(ps: seq<Proc>, depth: seq<nat>, ls: seq<Line>, q: int) {
    forall i :: 0 <= i < |ls| ==>
      LineOk(ps, depth, ls[i]) && (ParentOf(ps, ls[i].proc) == q || ParentBefore(ps, ls, i))
  }

  lemma OrderlyConcat(ps: seq<Proc>, depth: seq<nat>, a: seq<Line>, b: seq<Line>, q: int)
    requires Orderly(ps, depth, a, q) && Orderly(ps, depth, b, q)
    ensures Orderly(ps, depth, a + b, q)
  {
    var ls := a + b;
    forall i | 0 <= i < |ls| ensures LineOk(ps, depth, ls[i]) && (ParentOf(ps, ls[i].proc) == q || ParentBefore(ps, ls, i)) {
      if i < |a| {
        assert ls[i] == a[i];
        if ParentOf(ps, ls[i].proc) != q {
          var p :| 0 <= p < i && a[p].proc == ParentOf(ps, a[i].proc);
          assert ls[p] == a[p];
        }
      } else {
        var m := i - |a|;
        assert ls[i] == b[m];
        if ParentOf(ps, ls[i].proc) != q {
          var p :| 0 <= p < m && b[p].proc == ParentOf(ps, b[m].proc);
          assert ls[|a| + p] == b[p];
        }
      }
    }
  }

  lemma OrderlyUnder(ps: seq<Proc>, depth: seq<nat>, l: Line, f: seq<Line>, q: int)
    requires LineOk(ps, depth, l) && ParentOf(ps, l.proc) == q && Orderly(ps, depth, f, l.proc)
    ensures Orderly(ps, depth, [l] + f, q)
  {
    var ls := [l] + f;
    forall i | 0 <= i < |ls| ensures LineOk(ps, depth, ls[i]) && (ParentOf(ps, ls[i].proc) == q || ParentBefore(ps, ls, i)) {
      if i > 0 {
        assert ls[i] == f[i - 1];
        if ParentOf(ps, ls[i].proc) == l.proc {
          assert ls[0].proc == l.proc;
        } else {
          var p :| 0 <= p < i - 1 && f[p].proc == ParentOf(ps, f[i - 1].proc);
          assert ls[p + 1] == f[p];
        }
      }
    }
  }

  lemma {:induction false} SubtreeOrderly(ps: seq<Proc>, depth: seq<nat>, j: nat, isLast: bool)
    requires Levels(ps, depth) && j < |ps| && ReachesTop(ps, j) && (isLast <==> LastChild(ps, j))
    ensures Orderly(ps, depth, Subtree(ps, depth, j, depth[j], isLast), ParentOf(ps, j))
    decreases MaxOf(depth) - depth[j], 1, 0
  {
    hide Orderly, LastChild, Kids, ParentOf, MaxOf;
    KidsAre(ps, j, |ps|);
    ForestOrderly(ps, depth, j, 0);
    OrderlyUnder(ps, depth, Line(depth[j], isLast, j), Forest(ps, depth, Children(ps, j), j, 0, depth[j] + 1), ParentOf(ps, j));
  }

  lemma NothingOrderly(ps: seq<Proc>, depth: seq<nat>, q: int)
    ensures Orderly(ps, depth, [], q)
  {
  }

  lemma LastIff(ps: seq<Proc>, q: int, k: nat)
    requires k < |Children(ps, q)|
    ensures Children(ps, q)[k] < |ps| && (k == |Children(ps, q)| - 1 <==> LastChild(ps, Children(ps, q)[k]))
  {
    hide Kids;
    KidsAre(ps, q, |ps|);
  }

  lemma {:induction false} ForestOrderly(ps: seq<Proc>, depth: seq<nat>, q: int, k: nat)
    requires Levels(ps, depth) && OnTop(ps, q) && k <= |Children(ps, q)|
    ensures AllBelow(ps, Children(ps, q), q)
    ensures Orderly(ps, depth, Forest(ps, depth, Children(ps, q), q, k, Above(depth, q) + 1), q)
    decreases MaxOf(depth) - Above(depth, q), 0, |Children(ps, q)| - k
  {
    hide Orderly, LastChild, Kids, Subtree, ParentOf, MaxOf;
    KidsAre(ps, q, |ps|);
    var cs := Children(ps, q);
    if k == |cs| {
      NothingOrderly(ps, depth, q);
    } else {
      assert ReachesTop(ps, cs[k]) && depth[cs[k]] == Above(depth, q) + 1;
      LastIff(ps, q, k);
      SubtreeOrderly(ps, depth, cs[k], k == |cs| - 1);
      ForestOrderly(ps, depth, q, k + 1);
      OrderlyConcat(ps, depth, Subtree(ps, depth, cs[k], depth[cs[k]], k == |cs| - 1),
                    Forest(ps, depth, cs, q, k + 1, Above(depth, q) + 1), q);
    }
  }

  /** Printing shows a process at its distance from the ghost process, marked as last child
      exactly if it is one, and after its parent. */
  lemma PrintedOrderly(ps: seq<Proc>)
    ensures Orderly(ps, Depths(ps), Printed(ps), GHOST)
    ensures forall i :: 0 <= i < |Printed(ps)| ==>
      Printed(ps)[i].proc < |ps| && Reaches(ps, Printed(ps)[i].proc, Printed(ps)[i].depth)
  {
    hide ParentOf, Kids, LastChild, ReachesTop, Forest;
    DepthsAreLevels(ps);
    ForestOrderly(ps, Depths(ps), GHOST, 0);
    forall i | 0 <= i < |Printed(ps)| ensures LineOk(ps, Depths(ps), Printed(ps)[i]) { }
  }

  // ----- the order of the lines

  /** `x` and `y` are under different children of one node, the child above `x` listed first. */
  ghost predicate Branches(ps: seq<Proc>, depth: seq<nat>, x: nat, y: nat)
    requires Levels(ps, depth) && x < |ps| && y < |ps|
  {
    exists a: nat, b: nat :: a < b < |ps| && Under(ps, depth, a, x) && Under(ps, depth, b, y) && ParentOf(ps, a) == ParentOf(ps, b)
  }

  /** `x` comes before `y` in a walk that visits a node before its children, and these in list order. */
  ghost predicate Before(ps: seq<Proc>, depth: seq<nat>, x: nat, y: nat)
    requires Levels(ps, depth) && x < |ps| && y < |ps|
  {
    (x != y && Under(ps, depth, x, y)) || Branches(ps, depth, x, y)
  }

  ghost predicate PreOrdered(ps: seq<Proc>, depth: seq<nat>, ls: seq<Line>)
    requires Levels(ps, depth)
  {
    && (forall i :: 0 <= i < |ls| ==> ls[i].proc < |ps|)
    && (forall i, j :: 0 <= i < j < |ls| ==> Before(ps, depth, ls[i].proc, ls[j].proc))
  }

  lemma {:induction false} CountPositive(ls: seq<Line>, i: nat)
    requires i < |ls|
    ensures Count(ls, ls[i].proc) > 0
  {
    if i > 0 { CountPositive(ls[1..], i - 1); }
  }

  lemma OrderedConcat(ps: seq<Proc>, depth: seq<nat>, a: seq<Line>, b: seq<Line>)
    requires Levels(ps, depth) && PreOrdered(ps, depth, a) && PreOrdered(ps, depth, b)
    requires forall i, j :: 0 <= i < |a| && 0 <= j < |b| ==> Before(ps, depth, a[i].proc, b[j].proc)
    ensures PreOrdered(ps, depth, a + b)
  {
    hide Levels, Before;
    var ls := a + b;
    forall i, j | 0 <= i < j < |ls| ensures Before(ps, depth, ls[i].proc, ls[j].proc) {
      if j < |a| {
        assert ls[i] == a[i] && ls[j] == a[j];
      } else if i < |a| {
        assert ls[i] == a[i] && ls[j] == b[j - |a|];
      } else {
        assert ls[i] == b[i - |a|] && ls[j] == b[j - |a|];
      }
    }
  }

  /** A line of a subtree shows a process under its root. */
  lemma SubtreeLine(ps: seq<Proc>, depth: seq<nat>, j: nat, at: nat, isLast: bool, i: nat)
    requires Levels(ps, depth) && j < |ps| && ReachesTop(ps, j) && i < |Subtree(ps, depth, j, at, isLast)|
    requires Subtree(ps, depth, j, at, isLast)[i].proc < |ps|
    ensures Under(ps, depth, j, Subtree(ps, depth, j, at, isLast)[i].proc)
  {
    hide Subtree, Levels, Under;
    CountPositive(Subtree(ps, depth, j, at, isLast), i);
    SubtreeCount(ps, depth, j, at, isLast, Subtree(ps, depth, j, at, isLast)[i].proc);
  }

  /** A line of a forest shows a process under one of its roots. */
  lemma ForestLine(ps: seq<Proc>, depth: seq<nat>, q: int, k: nat, at: nat, i: nat)
    requires Levels(ps, depth) && OnTop(ps, q) && k <= |Children(ps, q)| && AllBelow(ps, Children(ps, q), q)
    requires i < |Forest(ps, depth, Children(ps, q), q, k, at)|
    requires Forest(ps, depth, Children(ps, q), q, k, at)[i].proc < |ps|
    ensures SomeUnder(ps, depth, Children(ps, q), k, Forest(ps, depth, Children(ps, q), q, k, at)[i].proc)
  {
    hide Forest, Levels, Under, Kids;
    KidsAre(ps, q, |ps|);
    CountPositive(Forest(ps, depth, Children(ps, q), q, k, at), i);
    ForestCount(ps, depth, Children(ps, q), q, k, at, Forest(ps, depth, Children(ps, q), q, k, at)[i].proc);
  }

  lemma {:induction false} SubtreeOrdered(ps: seq<Proc>, depth: seq<nat>, j: nat, at: nat, isLast: bool)
    requires Levels(ps, depth) && j < |ps| && ReachesTop(ps, j)
    ensures PreOrdered(ps, depth, Subtree(ps, depth, j, at, isLast))
    decreases MaxOf(depth) - depth[j], 1, 0
  {
    hide Levels, Under, Kids, ParentOf, MaxOf, Branches, Forest;
    KidsAre(ps, j, |ps|);
    LevelAt(ps, depth, j);
    var l, f := [Line(at, isLast, j)], Forest(ps, depth, Children(ps, j), j, 0, at + 1);
    ForestOrdered(ps, depth, j, 0, at + 1);
    forall i | 0 <= i < |f| ensures Before(ps, depth, j, f[i].proc) {
      ForestLine(ps, depth, j, 0, at + 1, i);
      UnderSplits(ps, depth, j, f[i].proc, Children(ps, j));
    }
    OrderedConcat(ps, depth, l, f);
  }

  lemma {:induction false} ForestOrdered(ps: seq<Proc>, depth: seq<nat>, q: int, k: nat, at: nat)
    requires Levels(ps, depth) && OnTop(ps, q) && k <= |Children(ps, q)| && AllBelow(ps, Children(ps, q), q)
    ensures PreOrdered(ps, depth, Forest(ps, depth, Children(ps, q), q, k, at))
    decreases MaxOf(depth) - Above(depth, q), 0, |Children(ps, q)| - k
  {
    hide Levels, Under, Kids, ParentOf, MaxOf, Subtree;
    var cs := Children(ps, q);
    if k < |cs| {
      KidsAre(ps, q, |ps|);
      LevelAt(ps, depth, cs[k]);
      MaxAt(depth, cs[k]);
      var a, b := Subtree(ps, depth, cs[k], at, k == |cs| - 1), Forest(ps, depth, cs, q, k + 1, at);
      SubtreeOrdered(ps, depth, cs[k], at, k == |cs| - 1);
      ForestOrdered(ps, depth, q, k + 1, at);
      forall i, j | 0 <= i < |a| && 0 <= j < |b| ensures Before(ps, depth, a[i].proc, b[j].proc) {
        SubtreeLine(ps, depth, cs[k], at, k == |cs| - 1, i);
        ForestLine(ps, depth, q, k + 1, at, j);
        var m :| k + 1 <= m < |cs| && Under(ps, depth, cs[m], b[j].proc);
        assert cs[k] < cs[m];
      }
      OrderedConcat(ps, depth, a, b);
    }
  }

  lemma MaxAt(depth: seq<nat>, i: nat)
    requires i < |depth|
    ensures depth[i] <= MaxOf(depth)
  {
  }

  /** Lines appear in preorder: a process before everything under it, and siblings, each with all that
      is under it, in the order of the list. */
  lemma PrintedPreorder(ps: seq<Proc>)
    ensures Levels(ps, Depths(ps)) && PreOrdered(ps, Depths(ps), Printed(ps))
  {
    hide Levels, PreOrdered, Forest, Kids, Depths;
    DepthsAreLevels(ps);
    KidsAre(ps, GHOST, |ps|);
    ForestOrdered(ps, Depths(ps), GHOST, 0, 1);
  }
}

/** pstree in place: the linked list of processes, the child arrays, and the
    recursive printing. */
module ProcessTree {
  import opened ProcessTreeSpec

  const MAX_CHILDS: nat := 512

  class PNode {
    const name: string
    const pid: int
    const ppid: int
    var parent: PNode?
    const childs: array<PNode?>
    var childIndex: nat
    var next: PNode?

    constructor (name: string, pid: int, ppid: int)
      ensures this.name == name && this.pid == pid && this.ppid == ppid && next == null && childIndex == 0
      ensures fresh(childs) && childs.Length == MAX_CHILDS
    {
      this.name, this.pid, this.ppid := name, pid, ppid;
      parent, next, childIndex := null, null, 0;
      childs := new PNode?[MAX_CHILDS](_ => null);
    }
  }

  function At(s: seq<PNode>, i: int): PNode? {
    if 0 <= i < |s| then s[i] else null
  }

  /** What the nodes say about the processes. */
  function ProcsOf(nodes: seq<PNode>): (ps: seq<Proc>)
    ensures |ps| == |nodes|
  {
    seq(|nodes|, i requires 0 <= i < |nodes| => Proc(nodes[i].name, nodes[i].pid, nodes[i].ppid))
  }

  /** `next` leads through the nodes; a list of one node leads back to itself. */
  ghost predicate ListOk(nodes: seq<PNode>)
    reads nodes`next
  {
    forall i {:trigger nodes[i].next} :: 0 <= i < |nodes| ==>
      nodes[i].next == if |nodes| == 1 then nodes[0] else At(nodes, i + 1)
  }

  /** Different nodes, each with a child array of its own. */
  ghost predicate Apart(nodes: seq<PNode>) {
    && (forall i :: 0 <= i < |nodes| ==> nodes[i].childs.Length == MAX_CHILDS)
    && (forall i, j :: 0 <= i < j < |nodes| ==> nodes[i] != nodes[j] && nodes[i].childs != nodes[j].childs)
  }

  class ProcList {
    var start: PNode?
    var head: PNode?
    ghost var nodes: seq<PNode>

    ghost predicate Valid()
      reads this, nodes`next
    {
      start == At(nodes, 0) && head == At(nodes, |nodes| - 1) && ListOk(nodes) && Apart(nodes)
    }

    constructor ()
      ensures Valid() && nodes == []
    {
      start, head, nodes := null, null, [];
    }

    /** create_and_insert_process_node_ll */
    method Insert(name: string, pid: int, ppid: int) returns (res: PNode)
      requires Valid()
      modifies this, nodes`next
      ensures Valid() && fresh(res) && fresh(res.childs) && res.childIndex == 0 && nodes == old(nodes) + [res]
      ensures ProcsOf(nodes) == ProcsOf(old(nodes)) + [Proc(name, pid, ppid)]
    {
      res := new PNode(name, pid, ppid);
      if start == null {
        start := res;
        head := start;
      }
      head.next := res;
      head := res;
      nodes := nodes + [res];
    }

    // ----- where the walk from the start leads

    /** The node `k` links from the start, NULL once the links have ended. */
    ghost function Reached(k: nat): (n: PNode?)
      requires Valid()
      reads this, nodes`next
      ensures n == null || n in nodes
    {
      if k == 0 then start
      else
        var m := Reached(k - 1);
        if m == null then null else m.next
    }

    lemma {:induction false} ReachedIs(k: nat)
      requires Valid()
      ensures Reached(k) == if |nodes| == 1 then nodes[0] else At(nodes, k)
    {
      if k > 0 { ReachedIs(k - 1); }
    }

    /** A walk over the list ends if and only if it does not have exactly one node. */
    lemma WalkEndsIff()
      requires Valid()
      ensures (exists k: nat :: Reached(k) == null) <==> |nodes| != 1
    {
      ReachedIs(|nodes|);
      if k: nat :| Reached(k) == null { ReachedIs(k); }
    }

    /** The search for `pid` stops at node `k`, or has run off the list there. */
    ghost predicate Stops(pid: int, k: nat)
      requires Valid()
      reads this, nodes`next
    {
      Reached(k) == null || Reached(k).pid == pid
    }

    /** The search for `pid` has run off the list without finding it. */
    ghost predicate Misses(pid: int, k: nat)
      requires Valid()
      reads this, nodes`next
    {
      Reached(k) == null && forall m: nat :: m < k && Reached(m) != null ==> Reached(m).pid != pid
    }

    /** The search ends if and only if the list does not have exactly one node, or that node is the
        wanted one; it answers NULL if and only if no node is the wanted one and there is not just one. */
    lemma FindEndsIff(pid: int)
      requires Valid()
      ensures (exists k: nat :: Stops(pid, k)) <==> |nodes| != 1 || nodes[0].pid == pid
      ensures (exists k: nat :: Misses(pid, k)) <==> |nodes| != 1 && forall i :: 0 <= i < |nodes| ==> nodes[i].pid != pid
    {
      hide Valid, Reached;
      forall k: nat ensures Reached(k) == if |nodes| == 1 then nodes[0] else At(nodes, k) { ReachedIs(k); }
      if |nodes| != 1 {
        assert Stops(pid, |nodes|);
        if forall i :: 0 <= i < |nodes| ==> nodes[i].pid != pid { assert Misses(pid, |nodes|); }
      } else if nodes[0].pid == pid {
        assert Stops(pid, 0);
      }
      if k: nat :| Misses(pid, k) {
        forall i | 0 <= i < |nodes| ensures nodes[i].pid != pid { assert Reached(i) == nodes[i]; }
      }
    }

    /** find_node_in_ll */
    method FindNode(pid: int) returns (n: PNode?, ghost i: nat)
      requires Valid() && (|nodes| != 1 || nodes[0].pid == pid)
      ensures i == FindPid(ProcsOf(nodes), pid) && n == At(nodes, i)
    {
      n, i := start, 0;
      while n != null && n.pid != pid
        invariant i <= |nodes| && n == At(nodes, i) && (|nodes| == 1 ==> i == 0)
        invariant forall j :: 0 <= j < i ==> ProcsOf(nodes)[j].pid != pid
        decreases |nodes| - i
      {
        n, i := n.next, i + 1;
      }
      assert i < |nodes| ==> ProcsOf(nodes)[i].pid == pid;
    }
  }

  /** One insert into an empty list: the node is its own successor, and every walk stays on it. */
  method OneProcess(name: string, pid: int, ppid: int) returns (list: ProcList)
    ensures list.Valid() && ProcsOf(list.nodes) == [Proc(name, pid, ppid)]
    ensures list.start == list.nodes[0] && list.nodes[0].next == list.nodes[0]
    ensures forall k: nat :: list.Reached(k) == list.nodes[0]
  {
    list := new ProcList();
    var n := list.Insert(name, pid, ppid);
    assert |list.nodes| == 1;
    forall k: nat ensures list.Reached(k) == list.nodes[0] { list.ReachedIs(k); }
  }

  // ----- building the tree

  /** The child array of `n` holds the nodes numbered `cs`. */
  ghost predicate KidsOk(n: PNode, nodes: seq<PNode>, cs: seq<nat>)
    reads n`childIndex, n.childs
  {
    && n.childIndex == |cs| <= n.childs.Length
    && forall k :: 0 <= k < |cs| ==> cs[k] < |nodes| && n.childs[k] == nodes[cs[k]]
  }

  /** The node that stands for `q`. */
  function NodeOf(ghostNode: PNode, nodes: seq<PNode>, q: int): PNode {
    if 0 <= q < |nodes| then nodes[q] else ghostNode
  }

  /** All nodes, the ghost process first. */
  ghost predicate AllApart(g: PNode, nodes: seq<PNode>) {
    && Apart(nodes) && g.childs.Length == MAX_CHILDS
    && forall i :: 0 <= i < |nodes| ==> nodes[i] != g && nodes[i].childs != g.childs
  }

  ghost function Arrays(g: PNode, nodes: seq<PNode>): set<array<PNode?>> {
    {g.childs} + set i | 0 <= i < |nodes| :: nodes[i].childs
  }

  /** Every node lists its children among the first `n` processes. */
  ghost predicate AllKids(g: PNode, nodes: seq<PNode>, n: nat)
    requires n <= |nodes|
    reads g`childIndex, nodes`childIndex, Arrays(g, nodes)
  {
    forall q {:trigger NodeOf(g, nodes, q)} :: GHOST <= q < |nodes| ==>
      NodeOf(g, nodes, q).childs in Arrays(g, nodes) && KidsOk(NodeOf(g, nodes, q), nodes, Kids(ProcsOf(nodes), q, n))
  }

  /** The first `n` processes know their parents. */
  ghost predicate Parents(g: PNode, nodes: seq<PNode>, n: nat)
    requires n <= |nodes|
    reads nodes`parent
  {
    forall j {:trigger nodes[j].parent} :: 0 <= j < n ==>
      ParentOf(ProcsOf(nodes), j) < |nodes| && nodes[j].parent == NodeOf(g, nodes, ParentOf(ProcsOf(nodes), j))
  }

  /** `child` becomes the last in the child array of its parent `p`. */
  method AppendChild(p: PNode, child: PNode, ghost g: PNode, ghost nodes: seq<PNode>, ghost j: nat)
    requires AllApart(g, nodes) && j < |nodes| && child == nodes[j]
    requires ParentOf(ProcsOf(nodes), j) < |nodes| && p == NodeOf(g, nodes, ParentOf(ProcsOf(nodes), j))
    requires |Kids(ProcsOf(nodes), ParentOf(ProcsOf(nodes), j), j)| < MAX_CHILDS
    requires AllKids(g, nodes, j)
    modifies p`childIndex, p.childs
    ensures AllKids(g, nodes, j + 1)
  {
    ghost var ps := ProcsOf(nodes);
    ghost var q := ParentOf(ps, j);
    hide ParentOf, ProcsOf;
    assert KidsOk(NodeOf(g, nodes, q), nodes, Kids(ps, q, j));
    p.childs[p.childIndex] := child;
    p.childIndex := p.childIndex + 1;
    forall r | GHOST <= r < |nodes|
      ensures NodeOf(g, nodes, r).childs in Arrays(g, nodes) && KidsOk(NodeOf(g, nodes, r), nodes, Kids(ps, r, j + 1))
    {
      assert old(KidsOk(NodeOf(g, nodes, r), nodes, Kids(ps, r, j)));
      if r != q { assert NodeOf(g, nodes, r) != p; }
    }
  }

  /** One turn of create_tree's loop: process `j` and its parent `p` are joined. */
  method Attach(p: PNode, child: PNode, ghost g: PNode, ghost nodes: seq<PNode>, ghost j: nat)
    requires AllApart(g, nodes) && j < |nodes| && child == nodes[j]
    requires ParentOf(ProcsOf(nodes), j) < |nodes| && p == NodeOf(g, nodes, ParentOf(ProcsOf(nodes), j))
    requires |Kids(ProcsOf(nodes), ParentOf(ProcsOf(nodes), j), j)| < MAX_CHILDS
    requires AllKids(g, nodes, j) && Parents(g, nodes, j)
    modifies p`childIndex, p.childs, child`parent
    ensures AllKids(g, nodes, j + 1) && Parents(g, nodes, j + 1)
  {
    hide KidsOk, ParentOf, ProcsOf, Kids;
    AppendChild(p, child, g, nodes, j);
    child.parent := p;
    forall i | 0 <= i < j
      ensures ParentOf(ProcsOf(nodes), i) < |nodes| && nodes[i].parent == NodeOf(g, nodes, ParentOf(ProcsOf(nodes), i))
    {
      assert nodes[i] != nodes[j];
      assert old(nodes[i].parent) == NodeOf(g, nodes, ParentOf(ProcsOf(nodes), i));
    }
  }

  /** No node gets more children than its array holds. */
  ghost predicate RoomForAll(ps: seq<Proc>) {
    forall q: int {:trigger Children(ps, q)} :: |Children(ps, q)| <= MAX_CHILDS
  }

  lemma {:induction false} KidsGrow(ps: seq<Proc>, q: int, n: nat, m: nat)
    requires n <= m <= |ps|
    ensures Kids(ps, q, n) <= Kids(ps, q, m)
    decreases m
  {
    if n < m { KidsGrow(ps, q, n, m - 1); }
  }

  /** There is room in the parent's array before process `j` is attached. */
  lemma RoomFor(ps: seq<Proc>, j: nat)
    requires RoomForAll(ps) && j < |ps|
    ensures |Kids(ps, ParentOf(ps, j), j)| < MAX_CHILDS
  {
    hide ParentOf;
    var q := ParentOf(ps, j);
    KidsGrow(ps, q, j + 1, |ps|);
    assert |Children(ps, q)| <= MAX_CHILDS;
  }

  /** The body of create_tree's loop; false where the original exits because a parent is not listed. */
  method AttachNext(list: ProcList, i: PNode, g: PNode, ghost j: nat) returns (ok: bool)
    requires list.Valid() && |list.nodes| != 1 && RoomForAll(ProcsOf(list.nodes))
    requires AllApart(g, list.nodes) && j < |list.nodes| && i == list.nodes[j]
    requires AllKids(g, list.nodes, j) && Parents(g, list.nodes, j)
    modifies g`childIndex, g.childs, list.nodes`parent, list.nodes`childIndex, set k | 0 <= k < |list.nodes| :: list.nodes[k].childs
    ensures ok ==> AllKids(g, list.nodes, j + 1) && Parents(g, list.nodes, j + 1)
    ensures !ok ==> !AllListed(ProcsOf(list.nodes))
  {
    hide ParentOf, Kids, ProcsOf, KidsOk, Parents;
    ghost var ps := ProcsOf(list.nodes);
    ParentCases(list.nodes, j);
    RoomFor(ps, j);
    var p := g;
    if i.ppid != 0 {
      var n;
      ghost var k;
      n, k := list.FindNode(i.ppid);
      if n == null {
        assert ps[j] in ps && ParentOf(ps, j) == |ps|;
        return false;
      }
      p := n;
    }
    Attach(p, i, g, list.nodes, j);
    ok := true;
  }

  /** create_tree */
  method CreateTree(list: ProcList) returns (ok: bool, g: PNode)
    requires list.Valid() && |list.nodes| != 1 && RoomForAll(ProcsOf(list.nodes))
    requires forall i :: 0 <= i < |list.nodes| ==> list.nodes[i].childIndex == 0
    modifies list.nodes`parent, list.nodes`childIndex, set i | 0 <= i < |list.nodes| :: list.nodes[i].childs
    ensures fresh(g) && AllApart(g, list.nodes)
    ensures ok <==> AllListed(ProcsOf(list.nodes))
    ensures ok ==> AllKids(g, list.nodes, |list.nodes|) && Parents(g, list.nodes, |list.nodes|)
  {
    hide AllKids, Parents, AllListed, RoomForAll, Apart, ProcsOf, Arrays;
    g := new PNode("GHOST PROCESS", 0, 0);
    ghost var nodes := list.nodes;
    NoKidsYet(g, nodes);
    var i := list.start;
    ghost var j := 0;
    while i != null
      invariant j <= |nodes| && i == At(nodes, j) && list.Valid()
      invariant AllKids(g, nodes, j) && Parents(g, nodes, j)
      decreases |nodes| - j
    {
      ok := AttachNext(list, i, g, j);
      if !ok {
        return;
      }
      i, j := i.next, j + 1;
    }
    ok := true;
    ParentsListed(g, nodes);
  }

  /** Every parent is a listed process or the ghost process. */
  ghost predicate AllListed(ps: seq<Proc>) {
    forall j {:trigger ps[j]} :: 0 <= j < |ps| ==> ParentOf(ps, j) < |ps|
  }

  lemma ParentsListed(g: PNode, nodes: seq<PNode>)
    requires Parents(g, nodes, |nodes|)
    ensures AllListed(ProcsOf(nodes))
  {
    hide ParentOf, ProcsOf;
    forall j | 0 <= j < |nodes| ensures ParentOf(ProcsOf(nodes), j) < |nodes| {
      assert nodes[j].parent == NodeOf(g, nodes, ParentOf(ProcsOf(nodes), j));
    }
  }

  lemma ParentCases(nodes: seq<PNode>, j: nat)
    requires j < |nodes|
    ensures |ProcsOf(nodes)| == |nodes|
    ensures ParentOf(ProcsOf(nodes), j) == if nodes[j].ppid == 0 then GHOST else FindPid(ProcsOf(nodes), nodes[j].ppid)
  {
  }

  lemma NoKidsYet(g: PNode, nodes: seq<PNode>)
    requires AllApart(g, nodes) && g.childIndex == 0 && forall i :: 0 <= i < |nodes| ==> nodes[i].childIndex == 0
    ensures AllKids(g, nodes, 0) && Parents(g, nodes, 0) && |ProcsOf(nodes)| == |nodes|
  {
  }

  // ----- printing

  /** What one printed line shows. */
  datatype Output = Output(depth: nat, isLast: bool, name: string, pid: int)

  ghost function Show(ps: seq<Proc>, l: Line): Output {
    if l.proc < |ps| then Output(l.depth, l.isLast, ps[l.proc].name, ps[l.proc].pid) else Output(l.depth, l.isLast, "", 0)
  }

  ghost function Render(ps: seq<Proc>, ls: seq<Line>): seq<Output> {
    seq(|ls|, i requires 0 <= i < |ls| => Show(ps, ls[i]))
  }

  lemma RenderConcat(ps: seq<Proc>, a: seq<Line>, b: seq<Line>)
    ensures Render(ps, a + b) == Render(ps, a) + Render(ps, b)
  {
  }

  /** The `k`-th child of the node for `q`. */
  lemma KidAt(g: PNode, nodes: seq<PNode>, q: int, k: nat)
    requires AllKids(g, nodes, |nodes|) && GHOST <= q < |nodes| && k <= |Children(ProcsOf(nodes), q)|
    ensures var cs, n := Children(ProcsOf(nodes), q), NodeOf(g, nodes, q);
      n.childIndex == |cs| <= n.childs.Length && (k < |cs| ==> cs[k] < |nodes| && n.childs[k] == nodes[cs[k]])
  {
    hide Kids, ProcsOf;
    assert KidsOk(NodeOf(g, nodes, q), nodes, Kids(ProcsOf(nodes), q, |nodes|));
  }

  lemma ForestUnfold(ps: seq<Proc>, depth: seq<nat>, cs: seq<nat>, q: int, k: nat, at: nat)
    requires Levels(ps, depth) && AllBelow(ps, cs, q) && k < |cs| && OnTop(ps, q)
    ensures ReachesTop(ps, cs[k]) && depth[cs[k]] == Above(depth, q) + 1
    ensures Render(ps, Forest(ps, depth, cs, q, k, at)) ==
      Render(ps, Subtree(ps, depth, cs[k], at, k == |cs| - 1)) + Render(ps, Forest(ps, depth, cs, q, k + 1, at))
  {
    hide Subtree, Render, ParentOf;
    RenderConcat(ps, Subtree(ps, depth, cs[k], at, k == |cs| - 1), Forest(ps, depth, cs, q, k + 1, at));
  }

  lemma SubtreeUnfold(ps: seq<Proc>, depth: seq<nat>, j: nat, at: nat, isLast: bool)
    requires Levels(ps, depth) && j < |ps| && ReachesTop(ps, j)
    ensures AllBelow(ps, Children(ps, j), j)
    ensures Render(ps, Subtree(ps, depth, j, at, isLast)) ==
      [Output(at, isLast, ps[j].name, ps[j].pid)] + Render(ps, Forest(ps, depth, Children(ps, j), j, 0, at + 1))
  {
    hide Forest, Kids, ParentOf;
    KidsAre(ps, j, |ps|);
    RenderConcat(ps, [Line(at, isLast, j)], Forest(ps, depth, Children(ps, j), j, 0, at + 1));
  }

  /** print_tree_recursive */
  method PrintSubtree(node: PNode, at: nat, isLast: bool, ghost g: PNode, ghost nodes: seq<PNode>, ghost depth: seq<nat>, ghost j: nat)
    returns (out: seq<Output>)
    requires AllKids(g, nodes, |nodes|) && Levels(ProcsOf(nodes), depth) && j < |nodes| && node == nodes[j] && ReachesTop(ProcsOf(nodes), j)
    ensures out == Render(ProcsOf(nodes), Subtree(ProcsOf(nodes), depth, j, at, isLast))
    decreases MaxOf(depth) - depth[j], 1
  {
    ghost var ps := ProcsOf(nodes);
    assert ps[j] == Proc(node.name, node.pid, node.ppid);
    hide AllKids, Levels, ProcsOf, Render, Subtree, Forest, Kids, MaxOf;
    SubtreeUnfold(ps, depth, j, at, isLast);
    var below := PrintChildren(node, at + 1, g, nodes, depth, j);
    out := [Output(at, isLast, node.name, node.pid)] + below;
  }

  /** The loop over the children of one node. */
  method PrintChildren(node: PNode, at: nat, ghost g: PNode, ghost nodes: seq<PNode>, ghost depth: seq<nat>, ghost q: int)
    returns (out: seq<Output>)
    requires AllKids(g, nodes, |nodes|) && Levels(ProcsOf(nodes), depth) && OnTop(ProcsOf(nodes), q) && node == NodeOf(g, nodes, q)
    requires AllBelow(ProcsOf(nodes), Children(ProcsOf(nodes), q), q)
    ensures out == Render(ProcsOf(nodes), Forest(ProcsOf(nodes), depth, Children(ProcsOf(nodes), q), q, 0, at))
    decreases MaxOf(depth) - Above(depth, q), 0
  {
    hide ProcsOf, Render, Subtree, Forest, Kids, MaxOf, KidsOk;
    ghost var ps := ProcsOf(nodes);
    ghost var cs := Children(ps, q);
    out := [];
    KidAt(g, nodes, q, 0);
    assert [] + Render(ps, Forest(ps, depth, cs, q, 0, at)) == Render(ps, Forest(ps, depth, cs, q, 0, at));
    for i := 0 to node.childIndex
      invariant AllKids(g, nodes, |nodes|) && node.childIndex == |cs|
      invariant out + Render(ps, Forest(ps, depth, cs, q, i, at)) == Render(ps, Forest(ps, depth, cs, q, 0, at))
    {
      KidAt(g, nodes, q, i);
      ForestUnfold(ps, depth, cs, q, i, at);
      MaxAt(depth, cs[i]);
      var sub := PrintSubtree(node.childs[i], at, i == node.childIndex - 1, g, nodes, depth, cs[i]);
      SplitOff(out, sub, Render(ps, Forest(ps, depth, cs, q, i + 1, at)));
      out := out + sub;
    }
    NothingLeft(ps, depth, cs, q, at, out);
  }

  lemma SplitOff(a: seq<Output>, b: seq<Output>, c: seq<Output>)
    ensures (a + b) + c == a + (b + c)
  {
  }

  lemma NothingLeft(ps: seq<Proc>, depth: seq<nat>, cs: seq<nat>, q: int, at: nat, out: seq<Output>)
    requires Levels(ps, depth) && AllBelow(ps, cs, q) && OnTop(ps, q)
    ensures out + Render(ps, Forest(ps, depth, cs, q, |cs|, at)) == out
  {
  }

  /** A line shows the depth, the mark, and the name and pid of its process. */
  lemma RenderedIs(nodes: seq<PNode>)
    ensures var ps := ProcsOf(nodes);
      && |Render(ps, Printed(ps))| == |Printed(ps)|
      && forall i :: 0 <= i < |Printed(ps)| ==>
           var l := Printed(ps)[i];
           l.proc < |nodes| && Render(ps, Printed(ps))[i] == Output(l.depth, l.isLast, nodes[l.proc].name, nodes[l.proc].pid)
  {
    hide Printed;
    PrintedOrderly(ProcsOf(nodes));
  }

  /** print_tree: everything below its heading line. */
  method PrintTree(g: PNode, ghost nodes: seq<PNode>) returns (out: seq<Output>)
    requires AllKids(g, nodes, |nodes|)
    ensures var lines := Printed(ProcsOf(nodes));
      && |out| == |lines|
      && forall i :: 0 <= i < |lines| ==>
           lines[i].proc < |nodes|
           && out[i] == Output(lines[i].depth, lines[i].isLast, nodes[lines[i].proc].name, nodes[lines[i].proc].pid)
  {
    hide AllKids, Levels, ProcsOf, Render, Forest, Kids, Depths;
    ghost var ps := ProcsOf(nodes);
    KidsAre(ps, GHOST, |nodes|);
    DepthsAreLevels(ps);
    out := PrintChildren(g, 1, g, nodes, Depths(ps), GHOST);
    RenderedIs(nodes);
  }
}
