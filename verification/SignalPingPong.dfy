/** Parent and child send each other a signal in turn, each waiting with
    sigsuspend; a pending signal is one bit per process. */
module SignalPingPong {

  /** Position in the loop body: at its first call, or at its second. */
  datatype Proc = Proc(count: nat, second: bool, pending: bool)

  /** `sends`, `merged` and `missed` record all signals sent, those that met a bit already
      set, and those sent to a process that had already left its loop. */
  datatype State = State(child: Proc, parent: Proc, sends: nat, merged: nat, missed: nat)

  const Start := State(Proc(0, false, false), Proc(0, false, false), 0, 0, 0)

  /** The process has run its loop to the end and exits. */
  predicate Exited(p: Proc, numSigs: nat) { p.count >= numSigs && !p.second }

  /** The child sends first and then waits, the parent waits first. */
  predicate AboutToSend(s: State, isChild: bool) { if isChild then !s.child.second else s.parent.second }

  function Me(s: State, isChild: bool): Proc { if isChild then s.child else s.parent }

  /** sigsuspend returns only when a signal is pending; kill never blocks. */
  predicate Enabled(s: State, numSigs: nat, isChild: bool) {
    !Exited(Me(s, isChild), numSigs) && (AboutToSend(s, isChild) || Me(s, isChild).pending)
  }

  function Advance(p: Proc): Proc {
    if p.second then p.(count := p.count + 1, second := false) else p.(second := true)
  }

  function Step(s: State, numSigs: nat, isChild: bool): State {
    var me, other := Me(s, isChild), Me(s, !isChild);
    if AboutToSend(s, isChild) then
      var me', other' := Advance(me), other.(pending := true);
      State(if isChild then me' else other', if isChild then other' else me', s.sends + 1,
            s.merged + (if other.pending then 1 else 0), s.missed + (if Exited(other, numSigs) then 1 else 0))
    else
      var me' := Advance(me).(pending := false);
      if isChild then s.(child := me') else s.(parent := me')
  }

  predicate Legal(s: State, numSigs: nat, sched: seq<bool>)
    decreases |sched|
  {
    sched == [] || (Enabled(s, numSigs, sched[0]) && Legal(Step(s, numSigs, sched[0]), numSigs, sched[1..]))
  }

  function Run(s: State, numSigs: nat, sched: seq<bool>): State
    decreases |sched|
  {
    if sched == [] then s else Run(Step(s, numSigs, sched[0]), numSigs, sched[1..])
  }

  /** A run is its steps one after the other. */
  lemma {:induction false} RunSnoc(s: State, numSigs: nat, sched: seq<bool>, isChild: bool)
    ensures Legal(s, numSigs, []) && Run(s, numSigs, []) == s
    ensures Legal(s, numSigs, sched + [isChild]) <==>
      Legal(s, numSigs, sched) && Enabled(Run(s, numSigs, sched), numSigs, isChild)
    ensures Run(s, numSigs, sched + [isChild]) == Step(Run(s, numSigs, sched), numSigs, isChild)
    decreases |sched|
  {
    hide Enabled, Step;
    if sched == [] {
      assert sched + [isChild] == [isChild] && [isChild][1..] == [];
    } else {
      assert (sched + [isChild])[0] == sched[0] && (sched + [isChild])[1..] == sched[1..] + [isChild];
      RunSnoc(Step(s, numSigs, sched[0]), numSigs, sched[1..], isChild);
    }
  }

  /** The four places a round can be. */
  ghost predicate Inv(s: State, numSigs: nat) {
    var c, p := s.child, s.parent;
    && s.merged == 0 && s.missed == 0
    && c.count <= numSigs && p.count <= numSigs
    && (   (!c.second && !p.second && c.count == p.count && !c.pending && !p.pending)                    // child to send
        || (c.second && !p.second && c.count == p.count < numSigs && !c.pending && p.pending)            // parent to wake
        || (c.second && p.second && c.count == p.count < numSigs && !c.pending && !p.pending)            // parent to send
        || (c.second && !p.second && p.count == c.count + 1 && c.pending && !p.pending))                 // child to wake
    && s.sends == c.count + (if c.second then 1 else 0) + p.count
  }

  /** How many steps it takes to get here. */
  function Steps(s: State): nat {
    2 * s.child.count + (if s.child.second then 1 else 0) + 2 * s.parent.count + (if s.parent.second then 1 else 0)
  }

  lemma StepInv(s: State, numSigs: nat, isChild: bool)
    requires Inv(s, numSigs) && Enabled(s, numSigs, isChild)
    ensures Inv(Step(s, numSigs, isChild), numSigs) && Steps(Step(s, numSigs, isChild)) == Steps(s) + 1
  {
  }

  lemma {:induction false} RunInv(s: State, numSigs: nat, sched: seq<bool>)
    requires Inv(s, numSigs) && Legal(s, numSigs, sched)
    ensures Inv(Run(s, numSigs, sched), numSigs)
    ensures Steps(Run(s, numSigs, sched)) == Steps(s) + |sched|
    decreases |sched|
  {
    if sched != [] {
      StepInv(s, numSigs, sched[0]);
      RunInv(Step(s, numSigs, sched[0]), numSigs, sched[1..]);
    }
  }

  ghost predicate CanStep(s: State, numSigs: nat) {
    Enabled(s, numSigs, true) || Enabled(s, numSigs, false)
  }

  /** In every run no signal is merged or sent to a process that is gone, the loop counters differ
      by at most one, and exactly the unfinished states have a step; a run stops after
      4 * numSigs steps and 2 * numSigs signals, never earlier and never later. */
  lemma PingPong(numSigs: nat, sched: seq<bool>)
    requires Legal(Start, numSigs, sched)
    ensures var s := Run(Start, numSigs, sched);
      && s.merged == 0 && s.missed == 0
      && 0 <= s.parent.count - s.child.count <= 1
      && (CanStep(s, numSigs) <==> !(Exited(s.child, numSigs) && Exited(s.parent, numSigs)))
      && (CanStep(s, numSigs) <==> |sched| < 4 * numSigs)
      && (!CanStep(s, numSigs) ==> |sched| == 4 * numSigs && s.sends == 2 * numSigs)
  {
    RunInv(Start, numSigs, sched);
  }
}
