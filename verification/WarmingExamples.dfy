// Runs that show what the election does not exclude: a task that is walked again after its marker was written, and
// a root that two children walk at once, each for its own cache directory.
module WarmingExamples {
  import opened Warming

  const SHELF: Task := Task("/var/cache", "/books")

  /** Where a child stands in the only turn it has; a child past its turn has gone. */
  function One(generation: Generation, stage: Stage): Child {
    Child([SHELF], generation, 0, stage, false)
  }

  /** The run goes on with one more action. */
  lemma Extend(states: seq<State>, actions: seq<Action>, a: Action)
    returns (states': seq<State>, actions': seq<Action>)
    requires Run(states, actions) && Enabled(states[|actions|], a)
    ensures states' == states + [Next(states[|actions|], a)] && actions' == actions + [a]
    ensures Run(states', actions')
  {
    states', actions' := states + [Next(states[|actions|], a)], actions + [a];
    forall i | 0 <= i < |actions'|
      ensures Enabled(states'[i], actions'[i]) && states'[i + 1] == Next(states'[i], actions'[i])
    {
      if i < |actions| { assert Enabled(states[i], actions[i]); }
    }
  }

  function Gone(generation: Generation): Child {
    Child([SHELF], generation, 1, Polling, false)
  }

  /** A child that stands before the free lock and does not see its marker starts to walk. */
  lemma StartToWalk(states: seq<State>, actions: seq<Action>, c: nat, generation: Generation, ok: bool)
    returns (states': seq<State>, actions': seq<Action>)
    requires Run(states, actions)
    requires var s := states[|actions|];
             && c in s.children && s.children[c] == One(generation, Locking) && s.locks == map[]
             && !SeesMarker(s, s.children[c], ok)
    ensures Run(states', actions') && states <= states' && actions <= actions'
    ensures actions'[|actions|..] == [TryLock(c, true), LookAtStop(c), Recheck(c, ok)]
    ensures StartsWalk(states'[|actions| + 2], actions'[|actions| + 2], SHELF)
    ensures states'[|actions| + 2].children[c].generation == generation
    ensures var s := states[|actions|];
            states'[|actions'|] == State(s.children[c := One(generation, Walking)], map[SHELF := c], s.markers)
  {
    var s := states[|actions|];
    states', actions' := Extend(states, actions, TryLock(c, true));
    assert states'[|actions'|] == State(s.children[c := One(generation, Elected)], map[SHELF := c], s.markers);
    states', actions' := Extend(states', actions', LookAtStop(c));
    assert states'[|actions'|] == State(s.children[c := One(generation, Rechecking)], map[SHELF := c], s.markers);
    var before := states'[|actions'|];
    states', actions' := Extend(states', actions', Recheck(c, ok));
    assert states'[|actions| + 2] == before;
  }

  /** A child that walks finishes, marks and leaves. */
  lemma FinishTheWalk(states: seq<State>, actions: seq<Action>, c: nat, generation: Generation)
    returns (states': seq<State>, actions': seq<Action>)
    requires Run(states, actions)
    requires var s := states[|actions|];
             c in s.children && s.children[c] == One(generation, Walking) && s.locks == map[SHELF := c]
    ensures Run(states', actions') && states <= states' && actions <= actions'
    ensures actions'[|actions|..] == [EndWalk(c, true), WriteMarker(c, true), Leave(c)]
    ensures Marks(states'[|actions| + 1], actions'[|actions| + 1], SHELF)
    ensures states'[|actions| + 1].children[c].generation == generation
    ensures var s := states[|actions|];
            states'[|actions'|] == State(s.children[c := Gone(generation)], map[], s.markers[SHELF := generation])
  {
    var s := states[|actions|];
    states', actions' := Extend(states, actions, EndWalk(c, true));
    assert states'[|actions'|] == State(s.children[c := One(generation, Marking)], s.locks, s.markers);
    states', actions' := Extend(states', actions', WriteMarker(c, true));
    var marked := State(s.children[c := One(generation, Leaving)], s.locks, s.markers[SHELF := generation]);
    assert states'[|actions'|] == marked;
    states', actions' := Extend(states', actions', Leave(c));
    assert Released(marked, c).locks == map[];
  }

  /** A spawned child comes to stand before the lock. */
  lemma Arrive(states: seq<State>, actions: seq<Action>, c: nat, generation: Generation)
    returns (states': seq<State>, actions': seq<Action>)
    requires Run(states, actions) && c !in states[|actions|].children
    requires !SeesMarker(states[|actions|], One(generation, Reading), true)
    ensures Run(states', actions') && |actions'| == |actions| + 3
    ensures actions <= actions' && states <= states'
    ensures actions'[|actions|..] == [Spawn(c, [SHELF], generation), Poll(c), Read(c, true)]
    ensures states'[|actions'|]
            == states[|actions|].(children := states[|actions|].children[c := One(generation, Locking)])
  {
    var s := states[|actions|];
    states', actions' := Extend(states, actions, Spawn(c, [SHELF], generation));
    assert states'[|actions'|] == s.(children := s.children[c := One(generation, Polling)]);
    states', actions' := Extend(states', actions', Poll(c));
    assert states'[|actions'|] == s.(children := s.children[c := One(generation, Reading)]);
    states', actions' := Extend(states', actions', Read(c, true));
  }

  /** A failed read is enough: one generation, two children, and the walk is done twice. */
  lemma FailedReadRepeatsTheWalk() returns (states: seq<State>, actions: seq<Action>, i: nat, j: nat)
    ensures Run(states, actions) && OneGeneration(actions, "new")
    ensures i < j < |actions| && Marks(states[i], actions[i], SHELF) && StartsWalk(states[j], actions[j], SHELF)
  {
    hide Run, Next, Enabled, Marks, StartsWalk, OneGeneration;
    var s0, a0 := [State(map[], map[], map[])], [];
    StartOfRun(s0, a0);
    var s1, a1 := Arrive(s0, a0, 1, "new");
    var s2, a2 := Arrive(s1, a1, 2, "new");
    GenerationGoesOn(a0, a1);
    GenerationGoesOn(a1, a2);
    var s3, a3 := StartToWalk(s2, a2, 1, "new", true);
    var s4, a4 := FinishTheWalk(s3, a3, 1, "new");
    GenerationGoesOn(a2, a3);
    GenerationGoesOn(a3, a4);
    states, actions := StartToWalk(s4, a4, 2, "new", false);
    GenerationGoesOn(a4, actions);
    i, j := |a3| + 1, |a4| + 2;
    assert states[i] == s4[i] && actions[i] == a4[i];
  }

  lemma StartOfRun(states: seq<State>, actions: seq<Action>)
    requires actions == [] && states == [State(map[], map[], map[])]
    ensures Run(states, actions) && OneGeneration(actions, "new")
  {
  }

  /** The run goes on without a child of another generation. */
  lemma GenerationGoesOn(actions: seq<Action>, more: seq<Action>)
    requires OneGeneration(actions, "new") && actions <= more
    requires forall k | |actions| <= k < |more| && more[k].Spawn? :: more[k].generation == "new"
    ensures OneGeneration(more, "new")
  {
    forall k | 0 <= k < |more| && more[k].Spawn? ensures more[k].generation == "new" {
      if k < |actions| { assert more[k] == actions[k]; }
    }
  }

  lemma ReadsGoOnSucceeding(actions: seq<Action>, more: seq<Action>)
    requires ReadsSucceed(actions) && actions <= more && ReadsSucceed(more[|actions|..])
    ensures ReadsSucceed(more)
  {
    forall k | 0 <= k < |more| && more[k].Recheck? ensures more[k].ok {
      if k < |actions| {
        assert more[k] == actions[k];
      } else {
        assert more[k] == more[|actions|..][k - |actions|];
      }
    }
  }

  /** Child 1 of the new generation marks the task, then child 2 of the old generation walks and marks it. */
  lemma OldGenerationMarksLast() returns (states: seq<State>, actions: seq<Action>, i: nat)
    ensures Run(states, actions) && |states| == |actions| + 1 && ReadsSucceed(actions)
    ensures i < |actions| && Marks(states[i], actions[i], SHELF)
    ensures states[i].children[actions[i].child].generation == "new"
    ensures states[|actions|]
            == State(map[1 := Gone("new"), 2 := Gone("old")], map[], map[SHELF := "old"])
  {
    hide Run, Next, Enabled, Marks, StartsWalk;
    var s0, a0 := [State(map[], map[], map[])], [];
    assert Run(s0, a0) && |s0| == |a0| + 1 by { StartOfRun(s0, a0); }
    var s1, a1 := Arrive(s0, a0, 1, "new");
    var s2, a2 := Arrive(s1, a1, 2, "old");
    ReadsGoOnSucceeding(a0, a1);
    ReadsGoOnSucceeding(a1, a2);
    var s3, a3 := StartToWalk(s2, a2, 1, "new", true);
    var s4, a4 := FinishTheWalk(s3, a3, 1, "new");
    ReadsGoOnSucceeding(a2, a3);
    ReadsGoOnSucceeding(a3, a4);
    var s5, a5 := StartToWalk(s4, a4, 2, "old", true);
    states, actions := FinishTheWalk(s5, a5, 2, "old");
    ReadsGoOnSucceeding(a4, a5);
    ReadsGoOnSucceeding(a5, actions);
    i := |a3| + 1;
    assert states[i] == s4[i] && actions[i] == a4[i];
  }

  /** Two generations are enough: every read succeeds, and still the new generation walks twice. */
  lemma OldGenerationRepeatsTheWalk() returns (states: seq<State>, actions: seq<Action>, i: nat, j: nat)
    ensures Run(states, actions) && ReadsSucceed(actions)
    ensures i < j < |actions| && Marks(states[i], actions[i], SHELF) && StartsWalk(states[j], actions[j], SHELF)
    ensures states[i].children[actions[i].child].generation == states[j].children[actions[j].child].generation
  {
    hide Run, Next, Enabled, Marks, StartsWalk;
    var s6, a6;
    s6, a6, i := OldGenerationMarksLast();
    var s7, a7 := Arrive(s6, a6, 3, "new");
    ReadsGoOnSucceeding(a6, a7);
    states, actions := StartToWalk(s7, a7, 3, "new", true);
    ReadsGoOnSucceeding(a7, actions);
    j := |a7| + 2;
    assert states[i] == s6[i] && actions[i] == a6[i];
  }

  // ----- two cache directories

  /** The same root, cached in another directory. */
  const OTHER: Task := Task("/srv/cache", "/books")

  /** A child of a server whose two hosts share the root but not the cache. */
  function Two(at: nat, stage: Stage): Child {
    Child([SHELF, OTHER], "new", at, stage, false)
  }

  /** A child that comes to a task with no marker and a free lock walks it. */
  lemma WalkTheNext(states: seq<State>, actions: seq<Action>, c: nat, at: nat)
    returns (states': seq<State>, actions': seq<Action>)
    requires Run(states, actions) && at < 2
    requires var s := states[|actions|];
             && c in s.children && s.children[c] == Two(at, Polling) && s.markers == map[]
             && [SHELF, OTHER][at] !in s.locks
    ensures Run(states', actions')
    ensures var s := states[|actions|];
            states'[|actions'|] == State(s.children[c := Two(at, Walking)], s.locks[[SHELF, OTHER][at] := c], map[])
  {
    var s, task := states[|actions|], [SHELF, OTHER][at];
    states', actions' := Extend(states, actions, Poll(c));
    assert states'[|actions'|] == s.(children := s.children[c := Two(at, Reading)]);
    states', actions' := Extend(states', actions', Read(c, true));
    assert states'[|actions'|] == s.(children := s.children[c := Two(at, Locking)]);
    states', actions' := Extend(states', actions', TryLock(c, true));
    assert states'[|actions'|] == State(s.children[c := Two(at, Elected)], s.locks[task := c], map[]);
    states', actions' := Extend(states', actions', LookAtStop(c));
    assert states'[|actions'|] == State(s.children[c := Two(at, Rechecking)], s.locks[task := c], map[]);
    states', actions' := Extend(states', actions', Recheck(c, true));
  }

  /** Child 1 cannot complete the first walk and goes on to the second; child 2 takes the first. Both walk the same
      root, so the lock excludes walkers of one task only. */
  lemma TwoCachesWalkOneRootAtOnce() returns (states: seq<State>, actions: seq<Action>)
    ensures Run(states, actions)
    ensures var s := states[|actions|];
            && Stands(s, 1, Walking) && Stands(s, 2, Walking)
            && TaskOf(s.children[1]).root == TaskOf(s.children[2]).root
            && TaskOf(s.children[1]).cache != TaskOf(s.children[2]).cache
  {
    hide Run, Next, Enabled;
    states, actions := [State(map[], map[], map[])], [];
    StartOfRun(states, actions);
    states, actions := Arrival(states, actions, 1);
    states, actions := WalkTheNext(states, actions, 1, 0);
    states, actions := GiveUp(states, actions, 1);
    states, actions := WalkTheNext(states, actions, 1, 1);
    states, actions := Arrival(states, actions, 2);
    states, actions := WalkTheNext(states, actions, 2, 0);
  }

  lemma Arrival(states: seq<State>, actions: seq<Action>, c: nat) returns (states': seq<State>, actions': seq<Action>)
    requires Run(states, actions) && c !in states[|actions|].children
    ensures Run(states', actions')
    ensures var s := states[|actions|]; states'[|actions'|] == s.(children := s.children[c := Two(0, Polling)])
  {
    states', actions' := Extend(states, actions, Spawn(c, [SHELF, OTHER], "new"));
  }

  /** A walk that stays incomplete leaves no marker, and the lock goes with the turn. */
  lemma GiveUp(states: seq<State>, actions: seq<Action>, c: nat) returns (states': seq<State>, actions': seq<Action>)
    requires Run(states, actions)
    requires var s := states[|actions|];
             c in s.children && s.children[c] == Two(0, Walking) && s.locks == map[SHELF := c]
    ensures Run(states', actions')
    ensures var s := states[|actions|];
            states'[|actions'|] == State(s.children[c := Two(1, Polling)], map[], s.markers)
  {
    var s := states[|actions|];
    states', actions' := Extend(states, actions, EndWalk(c, false));
    assert states'[|actions'|] == s.(children := s.children[c := Two(0, Leaving)]);
    states', actions' := Extend(states', actions', Leave(c));
    assert Released(s.(children := s.children[c := Two(0, Leaving)]), c).locks == map[];
  }
}
