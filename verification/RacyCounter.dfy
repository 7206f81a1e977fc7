/** Two threads increment a shared counter without a lock: which final values
    the interleavings of their loads and stores can produce. */
module RacyCounter {

  /** A thread between rounds, or between its load and its store. */
  datatype Thread = Thread(done: nat, loaded: bool, loc: int)

  /** `last` records which thread stored most recently. */
  datatype State = State(glob: int, a: Thread, b: Thread, last: bool)

  const Start := State(0, Thread(0, false, 0), Thread(0, false, 0), false)

  function Of(s: State, who: bool): Thread { if who then s.a else s.b }

  function Put(s: State, who: bool, t: Thread): State { if who then s.(a := t) else s.(b := t) }

  /** The thread has rounds left. */
  predicate Active(s: State, n: nat, who: bool) { Of(s, who).done < n }

  /** One shared access: a load into the local, or the store of the local plus one. */
  function Step(s: State, who: bool): State {
    var t := Of(s, who);
    if !t.loaded then Put(s, who, t.(loaded := true, loc := s.glob))
    else Put(s.(glob := t.loc + 1, last := who), who, t.(loaded := false, done := t.done + 1))
  }

  /** A schedule lists which thread makes the next shared access. */
  predicate Legal(s: State, n: nat, sched: seq<bool>)
    decreases |sched|
  {
    sched == [] || (Active(s, n, sched[0]) && Legal(Step(s, sched[0]), n, sched[1..]))
  }

  function Run(s: State, sched: seq<bool>): State
    decreases |sched|
  {
    if sched == [] then s else Run(Step(s, sched[0]), sched[1..])
  }

  /** Both threads have finished their `n` rounds. */
  predicate Finished(s: State, n: nat) { s.a.done == n && s.b.done == n }

  /** `v` is what main prints after some interleaving of two threads with `n` rounds each. */
  ghost predicate CanPrint(n: nat, v: int) {
    exists sched :: Legal(Start, n, sched) && Finished(Run(Start, sched), n) && Run(Start, sched).glob == v
  }

  // ----- no schedule leaves the range

  /** The value written last came from a thread whose earlier stores it saw. */
  ghost predicate Inv(s: State, n: nat) {
    && s.a.done <= n && s.b.done <= n
    && 0 <= s.glob <= s.a.done + s.b.done
    && (s.a.done + s.b.done > 0 ==> s.glob >= 1 && Of(s, s.last).done > 0)
    && (Of(s, s.last).done >= 2 ==> s.glob >= 2)
    && (forall who {:trigger Of(s, who)} :: Of(s, who).loaded ==>
          0 <= Of(s, who).loc <= s.a.done + s.b.done && (Of(s, who).done > 0 ==> Of(s, who).loc >= 1))
  }

  lemma StepInv(s: State, n: nat, who: bool)
    requires Inv(s, n) && Active(s, n, who)
    ensures Inv(Step(s, who), n)
  {
    var s' := Step(s, who);
    assert Of(s, true) == s.a && Of(s, false) == s.b && Of(s', true) == s'.a && Of(s', false) == s'.b;
  }

  lemma {:induction false} RunInv(s: State, n: nat, sched: seq<bool>)
    requires Inv(s, n) && Legal(s, n, sched)
    ensures Inv(Run(s, sched), n)
    decreases |sched|
  {
    if sched != [] {
      StepInv(s, n, sched[0]);
      RunInv(Step(s, sched[0]), n, sched[1..]);
    }
  }

  // ----- schedules

  lemma {:induction false} RunConcat(s: State, n: nat, x: seq<bool>, y: seq<bool>)
    requires Legal(s, n, x) && Legal(Run(s, x), n, y)
    ensures Legal(s, n, x + y) && Run(s, x + y) == Run(Run(s, x), y)
    decreases |x|
  {
    if x == [] {
      assert x + y == y;
    } else {
      assert (x + y)[1..] == x[1..] + y;
      RunConcat(Step(s, x[0]), n, x[1..], y);
    }
  }

  /** `k` undisturbed rounds of one thread. */
  function Rounds(who: bool, k: nat): seq<bool> {
    if k == 0 then [] else [who, who] + Rounds(who, k - 1)
  }

  lemma {:induction false} RoundsRun(s: State, n: nat, who: bool, k: nat)
    requires !Of(s, who).loaded && Of(s, who).done + k <= n
    ensures Legal(s, n, Rounds(who, k))
    ensures var s' := Run(s, Rounds(who, k));
      && s'.glob == s.glob + k && Of(s', !who) == Of(s, !who)
      && !Of(s', who).loaded && Of(s', who).done == Of(s, who).done + k
    decreases k
  {
    if k > 0 {
      var r := Rounds(who, k);
      assert r[0] == who && r[1..] == [who] + Rounds(who, k - 1) && r[1..][1..] == Rounds(who, k - 1);
      RoundsRun(Step(Step(s, who), who), n, who, k - 1);
    }
  }

  lemma One(s: State, n: nat, who: bool)
    requires Active(s, n, who)
    ensures Legal(s, n, [who]) && Run(s, [who]) == Step(s, who)
  {
    assert [who][1..] == [];
    assert Run(Step(s, who), []) == Step(s, who);
  }

  /** One thread loads, the other does `lost` rounds that its store wipes out. */
  function Overlap(who: bool, lost: nat): seq<bool> { [who] + Rounds(!who, lost) + [who] }

  lemma OverlapRun(s: State, n: nat, who: bool, lost: nat)
    requires !s.a.loaded && !s.b.loaded && Of(s, who).done < n && Of(s, !who).done + lost <= n
    ensures Legal(s, n, Overlap(who, lost))
    ensures var s' := Run(s, Overlap(who, lost));
      && s'.glob == s.glob + 1 && !s'.a.loaded && !s'.b.loaded
      && Of(s', who).done == Of(s, who).done + 1 && Of(s', !who).done == Of(s, !who).done + lost
  {
    One(s, n, who);
    var s1 := Step(s, who);
    RoundsRun(s1, n, !who, lost);
    RunConcat(s, n, [who], Rounds(!who, lost));
    var s2 := Run(s1, Rounds(!who, lost));
    assert Of(s2, who) == Of(s1, who);
    One(s2, n, who);
    RunConcat(s, n, [who] + Rounds(!who, lost), [who]);
  }

  /** The schedule that loses `x` rounds of one thread, then `y` of the other, then none. */
  function Losing(n: nat, x: nat, y: nat): seq<bool>
    requires x < n && y < n
  {
    Overlap(true, x) + Overlap(false, y) + Rounds(true, n - 1 - y) + Rounds(false, n - 1 - x)
  }

  lemma LosingPrints(n: nat, x: nat, y: nat)
    requires x < n && y < n
    ensures Legal(Start, n, Losing(n, x, y))
    ensures Finished(Run(Start, Losing(n, x, y)), n) && Run(Start, Losing(n, x, y)).glob == 2 * n - x - y
  {
    var p, q, r, t := Overlap(true, x), Overlap(false, y), Rounds(true, n - 1 - y), Rounds(false, n - 1 - x);
    OverlapRun(Start, n, true, x);
    var s1 := Run(Start, p);
    OverlapRun(s1, n, false, y);
    RunConcat(Start, n, p, q);
    var s2 := Run(s1, q);
    RoundsRun(s2, n, true, n - 1 - y);
    RunConcat(Start, n, p + q, r);
    var s3 := Run(s2, r);
    RoundsRun(s3, n, false, n - 1 - x);
    RunConcat(Start, n, p + q + r, t);
  }

  /** With a single round each, both may load before either stores. */
  lemma LosingOne()
    ensures CanPrint(1, 1)
  {
    var s := [true, false, true, false];
    assert s[1..] == [false, true, false] && s[1..][1..] == [true, false] && s[1..][1..][1..] == [false];
    var s1 := Step(Start, true);
    var s2 := Step(s1, false);
    var s3 := Step(s2, true);
    One(s3, 1, false);
    assert Legal(Start, 1, s) && Run(Start, s) == Step(s3, false);
  }

  function Min(a: int, b: int): int { if a < b then a else b }

  /** The printable values are exactly min(n, 2) up to 2n. */
  lemma PrintsExactly(n: nat, v: int)
    requires n >= 1
    ensures CanPrint(n, v) <==> Min(n, 2) <= v <= 2 * n
  {
    if CanPrint(n, v) {
      var sched :| Legal(Start, n, sched) && Finished(Run(Start, sched), n) && Run(Start, sched).glob == v;
      RunInv(Start, n, sched);
    }
    if Min(n, 2) <= v <= 2 * n {
      if v == 1 {
        LosingOne();
      } else {
        var lost := 2 * n - v;
        var x := Min(lost, n - 1);
        LosingPrints(n, x, lost - x);
      }
    }
  }
}
