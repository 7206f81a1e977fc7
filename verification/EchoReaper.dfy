/** The child-limited echo server: the accept/fork loop, children that exit at
    any time, and the SIGCHLD handler that may interrupt the loop between any
    two machine steps. `CHILD_COUNT++` is a load and a store. */
module EchoReaper {

  const MAX_CHILD := 10

  /** The main loop. */
  datatype Main =
    | Guard               // test CHILD_COUNT != MAX_CHILD
    | Forking             // accept() has returned or will; fork() comes next
    | Load                // CHILD_COUNT++: read it
    | Store(loc: int)     // ... write it back plus one
    | Left                // the loop is over

  /** The handler: not running, about to call waitpid, or about to decrement. */
  datatype Handler = Idle | Waiting | Decrement

  /** `running` and `zombies` are the children not yet reaped; `pending` is the SIGCHLD bit;
      `overwritten` counts decrements that a store of the main loop wiped out. */
  datatype State = State(main: Main, handler: Handler, count: int, running: nat, zombies: nat, pending: bool, overwritten: int)

  const Start := State(Guard, Idle, 0, 0, 0, false, 0)

  datatype Event =
    | MainStep(forkFails: bool)   // the main loop, only while the handler is not running
    | ChildExits                  // a running child becomes a zombie and raises SIGCHLD
    | Deliver                     // the handler starts
    | HandlerStep

  predicate Legal(s: State, e: Event) {
    match e
    case MainStep(_) => s.handler == Idle && s.main != Left
    case ChildExits => s.running > 0
    case Deliver => s.handler == Idle && s.pending && s.main != Left
    case HandlerStep => s.handler != Idle
  }

  function NextMain(s: State, forkFails: bool): State {
    match s.main
    case Guard => s.(main := if s.count != MAX_CHILD then Forking else Left)
    case Forking => if forkFails then s.(main := Guard) else s.(main := Load, running := s.running + 1)
    case Load => s.(main := Store(s.count))
    case Store(loc) => s.(main := Guard, count := loc + 1, overwritten := s.overwritten + loc - s.count)
    case Left => s
  }

  function NextHandler(s: State): State {
    match s.handler
    case Idle => s
    case Waiting => if s.zombies > 0 then s.(handler := Decrement, zombies := s.zombies - 1) else s.(handler := Idle)
    case Decrement => s.(handler := Waiting, count := s.count - 1)
  }

  function Apply(s: State, e: Event): State
    requires Legal(s, e)
  {
    match e
    case MainStep(forkFails) => NextMain(s, forkFails)
    case ChildExits => s.(running := s.running - 1, zombies := s.zombies + 1, pending := true)
    case Deliver => s.(handler := Waiting, pending := false)
    case HandlerStep => NextHandler(s)
  }

  predicate LegalRun(s: State, es: seq<Event>)
    decreases |es|
  {
    es == [] || (Legal(s, es[0]) && LegalRun(Apply(s, es[0]), es[1..]))
  }

  function Run(s: State, es: seq<Event>): State
    requires LegalRun(s, es)
    decreases |es|
  {
    if es == [] then s else Run(Apply(s, es[0]), es[1..])
  }

  function Unreaped(s: State): nat { s.running + s.zombies }

  /** The main loop is between fork and the end of the increment. */
  predicate BetweenForkAndStore(s: State) { s.main == Load || s.main.Store? }

  /** CHILD_COUNT, plus one for a forked child not yet counted, less one for a reaped child still counted. */
  function Expected(s: State): int {
    if BetweenForkAndStore(s) then (if s.handler == Decrement then s.count else s.count + 1)
    else (if s.handler == Decrement then s.count - 1 else s.count)
  }

  ghost predicate Inv(s: State) {
    && Unreaped(s) + s.overwritten == Expected(s)
    && s.overwritten >= 0
    && s.count <= MAX_CHILD
    && (s.main == Forking || s.main == Load ==> s.count < MAX_CHILD)
    && (match s.main case Store(loc) => s.count <= loc < MAX_CHILD case _ => true)
    && (s.main == Left ==> s.count == MAX_CHILD && s.handler == Idle)
    && (s.zombies > 0 ==> s.pending || s.handler != Idle)
  }

  lemma StepInv(s: State, e: Event)
    requires Inv(s) && Legal(s, e)
    ensures Inv(Apply(s, e))
  {
  }

  lemma {:induction false} RunInv(s: State, es: seq<Event>)
    requires Inv(s) && LegalRun(s, es)
    ensures Inv(Run(s, es))
    decreases |es|
  {
    if es != [] {
      StepInv(s, es[0]);
      RunInv(Apply(s, es[0]), es[1..]);
    }
  }

  lemma InvMeans(s: State)
    requires Inv(s)
    ensures Unreaped(s) <= MAX_CHILD && (s.main == Left ==> Unreaped(s) == MAX_CHILD - s.overwritten)
    ensures s.zombies > 0 ==> s.pending || s.handler != Idle
  {
  }

  /** In every reachable state at most MAX_CHILD children are unreaped, however the handler cuts
      into the increment; the loop ends short by the decrements that were wiped out; and no zombie
      is forgotten, although signals merge. */
  lemma NeverTooMany(es: seq<Event>)
    requires LegalRun(Start, es)
    ensures var s := Run(Start, es);
      && Unreaped(s) <= MAX_CHILD
      && (s.main == Left ==> Unreaped(s) == MAX_CHILD - s.overwritten)
      && (s.zombies > 0 ==> s.pending || s.handler != Idle)
  {
    hide Run, LegalRun, Inv, Unreaped;
    StartInv();
    RunInv(Start, es);
    InvMeans(Run(Start, es));
  }

  // ----- how far the count can be off

  /** A decrement of the handler that falls between the load and the store of an increment. */
  predicate InsideIncrement(s: State, e: Event) {
    e == HandlerStep && s.handler == Decrement && s.main.Store?
  }

  function Inside(s: State, es: seq<Event>): nat
    requires LegalRun(s, es)
    decreases |es|
  {
    if es == [] then 0 else (if InsideIncrement(s, es[0]) then 1 else 0) + Inside(Apply(s, es[0]), es[1..])
  }

  /** Decrements wiped out so far, and those the store to come will wipe out. */
  function Drift(s: State): int {
    s.overwritten + (match s.main case Store(loc) => loc - s.count case _ => 0)
  }

  lemma StepDrift(s: State, e: Event)
    requires Legal(s, e)
    ensures Drift(Apply(s, e)) == Drift(s) + (if InsideIncrement(s, e) then 1 else 0)
  {
  }

  lemma {:induction false} RunDrift(s: State, es: seq<Event>)
    requires LegalRun(s, es)
    ensures Drift(Run(s, es)) == Drift(s) + Inside(s, es)
    decreases |es|
  {
    hide Legal, Apply, Drift, InsideIncrement;
    if es != [] {
      StepDrift(s, es[0]);
      RunDrift(Apply(s, es[0]), es[1..]);
    }
  }

  lemma StartInv()
    ensures Inv(Start) && Drift(Start) == 0
  {
  }

  lemma DriftMeans(s: State)
    requires Inv(s) && !s.main.Store?
    ensures Unreaped(s) == Expected(s) - Drift(s)
    ensures s.main == Left ==> Unreaped(s) == MAX_CHILD - Drift(s)
  {
  }

  /** Outside an increment, CHILD_COUNT is off by exactly the children reaped inside one: it is
      right, and the loop is left only with MAX_CHILD unreaped, if and only if there were none.
      An increment that cannot be interrupted has none. */
  lemma CountExact(es: seq<Event>)
    requires LegalRun(Start, es) && !Run(Start, es).main.Store?
    ensures var s := Run(Start, es);
      && Unreaped(s) == Expected(s) - Inside(Start, es)
      && (s.main == Left ==> (Unreaped(s) == MAX_CHILD <==> Inside(Start, es) == 0))
  {
    hide Run, LegalRun, Inside, Inv, Drift, Expected, Unreaped;
    StartInv();
    RunInv(Start, es);
    RunDrift(Start, es);
    DriftMeans(Run(Start, es));
  }

  lemma RunCons(s: State, e: Event, rest: seq<Event>)
    requires Legal(s, e) && LegalRun(Apply(s, e), rest)
    ensures LegalRun(s, [e] + rest) && Run(s, [e] + rest) == Run(Apply(s, e), rest)
  {
    assert ([e] + rest)[1..] == rest;
  }

  lemma RunNothing(s: State)
    ensures LegalRun(s, []) && Run(s, []) == s
  {
  }

  lemma {:induction false} RunAppend(s: State, a: seq<Event>, b: seq<Event>)
    requires LegalRun(s, a) && LegalRun(Run(s, a), b)
    ensures LegalRun(s, a + b) && Run(s, a + b) == Run(Run(s, a), b)
    decreases |a|
  {
    hide Legal, Apply;
    if a == [] {
      assert a + b == b;
    } else {
      assert (a + b)[1..] == a[1..] + b;
      RunAppend(Apply(s, a[0]), a[1..], b);
    }
  }

  /** At the guard with `r` children, none of them a zombie, and a count of `c`. */
  function Resting(c: int, r: nat, lost: int): State { State(Guard, Idle, c, r, 0, false, lost) }

  /** A child is forked and stays. */
  lemma ForkRound(c: int, r: nat, lost: int) returns (es: seq<Event>)
    requires c != MAX_CHILD
    ensures LegalRun(Resting(c, r, lost), es) && Run(Resting(c, r, lost), es) == Resting(c + 1, r + 1, lost)
  {
    hide Run, LegalRun;
    var m := MainStep(false);
    var s0 := Resting(c, r, lost);
    var s1 := Apply(s0, m);              // guard
    var s2 := Apply(s1, m);              // fork
    var s3 := Apply(s2, m);              // load
    var s4 := Apply(s3, m);              // store
    es := [];
    RunNothing(s4);
    RunCons(s3, m, es); es := [m] + es;
    RunCons(s2, m, es); es := [m] + es;
    RunCons(s1, m, es); es := [m] + es;
    RunCons(s0, m, es); es := [m] + es;
  }

  /** A child is forked, exits and is reaped inside the increment: the count goes up all the same. */
  lemma DriftRound(c: int, r: nat, lost: int) returns (es: seq<Event>)
    requires c != MAX_CHILD
    ensures LegalRun(Resting(c, r, lost), es) && Run(Resting(c, r, lost), es) == Resting(c + 1, r, lost + 1)
  {
    hide Run, LegalRun;
    var m, h := MainStep(false), HandlerStep;
    var s0 := Resting(c, r, lost);
    var s1 := Apply(s0, m);              // guard
    var s2 := Apply(s1, m);              // fork
    var s3 := Apply(s2, m);              // load
    var s4 := Apply(s3, ChildExits);
    var s5 := Apply(s4, Deliver);
    var s6 := Apply(s5, h);              // waitpid reaps
    var s7 := Apply(s6, h);              // CHILD_COUNT--
    var s8 := Apply(s7, h);              // nothing left to reap
    var s9 := Apply(s8, m);              // store
    es := [];
    RunNothing(s9);
    RunCons(s8, m, es);          es := [m] + es;
    RunCons(s7, h, es);          es := [h] + es;
    RunCons(s6, h, es);          es := [h] + es;
    RunCons(s5, h, es);          es := [h] + es;
    RunCons(s4, Deliver, es);    es := [Deliver] + es;
    RunCons(s3, ChildExits, es); es := [ChildExits] + es;
    RunCons(s2, m, es);          es := [m] + es;
    RunCons(s1, m, es);          es := [m] + es;
    RunCons(s0, m, es);          es := [m] + es;
  }

  /** Any mixture of children that stay and decrements that are lost. */
  lemma {:induction false} Reach(k: nat, lost: nat) returns (es: seq<Event>)
    requires k + lost <= MAX_CHILD
    ensures LegalRun(Start, es) && Run(Start, es) == Resting(k + lost, k, lost)
    decreases k + lost
  {
    hide Run, LegalRun;
    if k > 0 {
      var before := Reach(k - 1, lost);
      var round := ForkRound(k - 1 + lost, k - 1, lost);
      RunAppend(Start, before, round);
      es := before + round;
    } else if lost > 0 {
      var before := Reach(k, lost - 1);
      var round := DriftRound(lost - 1, 0, lost - 1);
      RunAppend(Start, before, round);
      es := before + round;
    } else {
      RunNothing(Start);
      es := [];
    }
  }

  /** The count can be wrong: no child is left, but CHILD_COUNT is 1. */
  lemma CountCanDrift() returns (es: seq<Event>)
    ensures LegalRun(Start, es)
    ensures var s := Run(Start, es); Unreaped(s) == 0 && s.main == Guard && s.handler == Idle && s.count == 1
  {
    es := Reach(0, 1);
  }

  /** The loop can be left while `k` children are unreaped. */
  ghost predicate CanLeaveWith(k: int) {
    exists es :: LegalRun(Start, es) && Run(Start, es).main == Left && Unreaped(Run(Start, es)) == k
  }

  /** Not only MAX_CHILD: the loop can be left with any number of children up to it, even none. */
  lemma LeavesExactly(k: int)
    ensures CanLeaveWith(k) <==> 0 <= k <= MAX_CHILD
  {
    hide Run, LegalRun;
    if CanLeaveWith(k) {
      var es :| LegalRun(Start, es) && Run(Start, es).main == Left && Unreaped(Run(Start, es)) == k;
      NeverTooMany(es);
    }
    if 0 <= k <= MAX_CHILD {
      var es := Reach(k, MAX_CHILD - k);
      var s, m := Resting(MAX_CHILD, k, MAX_CHILD - k), MainStep(false);
      RunNothing(Apply(s, m));
      RunCons(s, m, []);
      assert [m] + [] == [m];
      RunAppend(Start, es, [m]);
      assert Run(Start, es + [m]).main == Left;
    }
  }
}
