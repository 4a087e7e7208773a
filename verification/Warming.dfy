// The election among httpd children in index_warming.cpp: every child goes through its list of walks, and for
// each one checks the marker, takes its lock, checks again, walks, writes the marker, unlocks.
module Warming {
  /** A root to walk, and the cache directory that holds its lock and its marker. Servers that share a cache
      directory share its walks; two cache directories may list the same root. */
  datatype Task = Task(cache: string, root: string)

  type Generation = string

  /** Where a child stands inside one turn of `Warmer::run`. */
  datatype Stage =
    | Polling      // at the head of the waiting loop
    | Reading      // about to read the marker
    | Locking      // about to try the lock
    | Elected      // holds the lock, about to look at the stop flag
    | Rechecking   // about to read the marker again
    | Walking
    | Marking      // the walk was complete, about to write the marker
    | Leaving      // about to leave the turn, which closes the lock

  datatype Child = Child(tasks: seq<Task>, generation: Generation, at: nat, stage: Stage, stop: bool)

  /** A lock belongs to the child whose descriptor holds it. A marker names the generation that wrote it. */
  datatype State = State(children: map<nat, Child>, locks: map<Task, nat>, markers: map<Task, Generation>)

  datatype Action =
    | Spawn(child: nat, tasks: seq<Task>, generation: Generation)
    | Stop(child: nat)
    | Poll(child: nat)
    | Read(child: nat, ok: bool)            // `ok`: the read gave what the marker file holds
    | TryLock(child: nat, ok: bool)         // `ok`: the lock file could be opened
    | LookAtStop(child: nat)
    | Recheck(child: nat, ok: bool)
    | EndWalk(child: nat, complete: bool)
    | WriteMarker(child: nat, ok: bool)
    | Leave(child: nat)
    | Crash(child: nat)

  ghost predicate Initial(s: State) {
    s.children == map[] && s.locks == map[]
  }

  predicate Working(child: Child) {
    child.at < |child.tasks|
  }

  function TaskOf(child: Child): Task
    requires Working(child)
  {
    child.tasks[child.at]
  }

  /** The child runs a turn and stands at this stage of it. */
  predicate Stands(s: State, c: nat, stage: Stage) {
    c in s.children && Working(s.children[c]) && s.children[c].stage == stage
  }

  function Moved(s: State, c: nat, stage: Stage): State
    requires c in s.children
  {
    s.(children := s.children[c := s.children[c].(stage := stage)])
  }

  /** The next turn of the loop over the tasks; a stopped child returns instead. */
  function NextTask(s: State, c: nat): State
    requires c in s.children
  {
    var child := s.children[c];
    if child.stop then s.(children := s.children - {c})
    else s.(children := s.children[c := child.(at := child.at + 1, stage := Polling)])
  }

  function Released(s: State, c: nat): State {
    s.(locks := map r | r in s.locks && s.locks[r] != c :: s.locks[r])
  }

  predicate MarkerMatches(s: State, child: Child)
    requires Working(child)
  {
    TaskOf(child) in s.markers && s.markers[TaskOf(child)] == child.generation
  }

  /** The child's own `store.read(marker_key) == marker_bytes`; a failed read never matches. */
  predicate SeesMarker(s: State, child: Child, ok: bool)
    requires Working(child)
  {
    ok && MarkerMatches(s, child)
  }

  predicate Enabled(s: State, a: Action) {
    match a
    case Spawn(c, _, _) => c !in s.children
    case Stop(c) => c in s.children
    case Poll(c) => Stands(s, c, Polling)
    case Read(c, _) => Stands(s, c, Reading)
    case TryLock(c, _) => Stands(s, c, Locking)
    case LookAtStop(c) => Stands(s, c, Elected)
    case Recheck(c, _) => Stands(s, c, Rechecking)
    case EndWalk(c, _) => Stands(s, c, Walking)
    case WriteMarker(c, _) => Stands(s, c, Marking)
    case Leave(c) => Stands(s, c, Leaving)
    case Crash(c) => c in s.children
  }

  function Next(s: State, a: Action): State
    requires Enabled(s, a)
  {
    match a
    case Spawn(c, tasks, generation) =>
      s.(children := s.children[c := Child(tasks, generation, 0, Polling, false)])
    case Stop(c) =>
      s.(children := s.children[c := s.children[c].(stop := true)])
    case Poll(c) =>  // leaving the loop without a lock is the end of the turn
      if s.children[c].stop then NextTask(s, c) else Moved(s, c, Reading)
    case Read(c, ok) =>
      if SeesMarker(s, s.children[c], ok) then NextTask(s, c) else Moved(s, c, Locking)
    case TryLock(c, ok) =>
      if !ok then NextTask(s, c)
      else if TaskOf(s.children[c]) in s.locks then Moved(s, c, Polling)
      else Moved(s, c, Elected).(locks := s.locks[TaskOf(s.children[c]) := c])
    case LookAtStop(c) =>
      Moved(s, c, if s.children[c].stop then Leaving else Rechecking)
    case Recheck(c, ok) =>
      Moved(s, c, if SeesMarker(s, s.children[c], ok) then Leaving else Walking)
    case EndWalk(c, complete) =>
      Moved(s, c, if s.children[c].stop || !complete then Leaving else Marking)
    case WriteMarker(c, ok) =>
      var moved := Moved(s, c, Leaving);
      if ok then moved.(markers := s.markers[TaskOf(s.children[c]) := s.children[c].generation]) else moved
    case Leave(c) =>
      NextTask(Released(s, c), c)
    case Crash(c) =>  // the kernel closes the descriptors
      Released(s.(children := s.children - {c}), c)
  }

  ghost predicate Run(states: seq<State>, actions: seq<Action>) {
    && |states| == |actions| + 1 && Initial(states[0])
    && forall i | 0 <= i < |actions| :: Enabled(states[i], actions[i]) && states[i + 1] == Next(states[i], actions[i])
  }

  predicate Holding(child: Child) {
    Working(child) && (child.stage.Elected? || child.stage.Rechecking? || child.stage.Walking?
                       || child.stage.Marking? || child.stage.Leaving?)
  }

  /** Exactly the children past the election hold a lock, and it is the lock of their task. */
  ghost predicate LocksAreHeld(s: State) {
    && (forall c | c in s.children && Holding(s.children[c]) ::
          TaskOf(s.children[c]) in s.locks && s.locks[TaskOf(s.children[c])] == c)
    && (forall r | r in s.locks ::
          s.locks[r] in s.children && Holding(s.children[s.locks[r]]) && TaskOf(s.children[s.locks[r]]) == r)
  }

  ghost predicate SameOthers(s: State, t: State, c: nat) {
    forall d | d != c :: (d in t.children <==> d in s.children)
                         && (d in s.children ==> t.children[d] == s.children[d])
  }

  lemma QuietChild(s: State, t: State, c: nat)
    requires LocksAreHeld(s) && t.locks == s.locks && SameOthers(s, t, c)
    requires c in t.children && Holding(t.children[c]) <==> c in s.children && Holding(s.children[c])
    requires c in t.children && Holding(t.children[c]) ==> TaskOf(t.children[c]) == TaskOf(s.children[c])
    ensures LocksAreHeld(t)
  {
  }

  lemma LetGo(s: State, t: State, c: nat)
    requires LocksAreHeld(s) && t.locks == Released(s, c).locks && SameOthers(s, t, c)
    requires c in t.children ==> !Holding(t.children[c])
    ensures LocksAreHeld(t)
  {
  }

  lemma LockTaken(s: State, c: nat)
    requires LocksAreHeld(s) && Stands(s, c, Locking) && TaskOf(s.children[c]) !in s.locks
    ensures LocksAreHeld(Next(s, TryLock(c, true)))
  {
  }

  lemma StepKeepsLocks(s: State, a: Action)
    requires LocksAreHeld(s) && Enabled(s, a)
    ensures LocksAreHeld(Next(s, a))
  {
    hide LocksAreHeld;
    var c, t := a.child, Next(s, a);
    if a.Leave? || a.Crash? {
      LetGo(s, t, c);
    } else if a.TryLock? && a.ok && TaskOf(s.children[c]) !in s.locks {
      LockTaken(s, c);
    } else {
      QuietChild(s, t, c);
    }
  }

  lemma {:induction false} LocksAreAlwaysHeld(states: seq<State>, actions: seq<Action>, at: nat)
    requires Run(states, actions) && at < |states|
    ensures LocksAreHeld(states[at])
    decreases at
  {
    if at > 0 {
      LocksAreAlwaysHeld(states, actions, at - 1);
      assert Enabled(states[at - 1], actions[at - 1]);
      StepKeepsLocks(states[at - 1], actions[at - 1]);
    }
  }

  /** However many children there are and however they stop or crash, at most one walks a given root for a given
      cache directory. */
  lemma OneWalkerPerTask(states: seq<State>, actions: seq<Action>, at: nat, c: nat, d: nat)
    requires Run(states, actions) && at < |states|
    requires Stands(states[at], c, Walking) && Stands(states[at], d, Walking)
    requires TaskOf(states[at].children[c]) == TaskOf(states[at].children[d])
    ensures c == d
  {
    LocksAreAlwaysHeld(states, actions, at);
  }

  // ----- when a walk starts

  /** This step starts a walk. */
  predicate StartsWalk(s: State, a: Action, task: Task) {
    && Enabled(s, a) && a.Recheck? && TaskOf(s.children[a.child]) == task
    && Stands(Next(s, a), a.child, Walking)
  }

  /** The last look of the child at its stop flag, at step `k`, found it clear, and the child has done nothing since. */
  ghost predicate WentOn(states: seq<State>, actions: seq<Action>, k: nat, at: nat, c: nat)
    requires |states| == |actions| + 1 && at < |states|
  {
    && k < at && actions[k] == LookAtStop(c) && c in states[k].children && !states[k].children[c].stop
    && forall m | k < m < at && actions[m].child == c :: actions[m].Stop?
  }

  lemma RecheckingComesFrom(s: State, a: Action, c: nat)
    requires Enabled(s, a) && Stands(Next(s, a), c, Rechecking)
    ensures if Stands(s, c, Rechecking) then a.child == c ==> a.Stop?
            else a == LookAtStop(c) && c in s.children && !s.children[c].stop
  {
  }

  lemma {:induction false} LookedAtStop(states: seq<State>, actions: seq<Action>, at: nat, c: nat) returns (k: nat)
    requires Run(states, actions) && at < |states| && Stands(states[at], c, Rechecking)
    ensures WentOn(states, actions, k, at, c)
    decreases at
  {
    hide Next, Enabled;
    assert at > 0;
    RecheckingComesFrom(states[at - 1], actions[at - 1], c);
    if !Stands(states[at - 1], c, Rechecking) {
      k := at - 1;
    } else {
      k := LookedAtStop(states, actions, at - 1, c);
    }
  }

  /** A child that comes to its second look at the marker holds the lock of its task and was not stopped when it last
      looked; it starts to walk exactly when that look fails or does not find its generation's marker. */
  lemma WalkStartsExactly(states: seq<State>, actions: seq<Action>, j: nat) returns (k: nat)
    requires Run(states, actions) && j < |actions| && actions[j].Recheck?
    ensures var s, c := states[j], actions[j].child;
            && Stands(s, c, Rechecking) && WentOn(states, actions, k, j, c)
            && var task := TaskOf(s.children[c]);
               && task in s.locks && s.locks[task] == c
               && (StartsWalk(s, actions[j], task)
                   <==> !actions[j].ok || task !in s.markers || s.markers[task] != s.children[c].generation)
  {
    assert Enabled(states[j], actions[j]);
    LocksAreAlwaysHeld(states, actions, j);
    k := LookedAtStop(states, actions, j, actions[j].child);
  }

  // ----- when a walk starts again

  /** This step writes the marker of the task. */
  predicate Marks(s: State, a: Action, task: Task) {
    Enabled(s, a) && a.WriteMarker? && a.ok && TaskOf(s.children[a.child]) == task
  }

  /** The generation of the child that acts at step `k`. */
  function GenerationAt(states: seq<State>, actions: seq<Action>, k: nat): Generation
    requires k < |states| && k < |actions| && actions[k].child in states[k].children
  {
    states[k].children[actions[k].child].generation
  }

  /** Only a marking step changes a marker. */
  lemma MarkerChanges(s: State, a: Action, task: Task)
    requires Enabled(s, a)
    ensures Marks(s, a, task) ==> task in Next(s, a).markers
                                  && Next(s, a).markers[task] == s.children[a.child].generation
    ensures !Marks(s, a, task) ==> (task in Next(s, a).markers <==> task in s.markers)
                                   && (task in s.markers ==> Next(s, a).markers[task] == s.markers[task])
  {
  }

  /** Step `k` is the last one before `j` that marks the task. */
  ghost predicate LastMarking(states: seq<State>, actions: seq<Action>, task: Task, k: nat, j: nat)
    requires j <= |actions| < |states|
  {
    k < j && Marks(states[k], actions[k], task) && forall m | k < m < j :: !Marks(states[m], actions[m], task)
  }

  /** Once a task is marked, its marker is that of the last child that marked it. */
  lemma {:induction false} MarkerStands(states: seq<State>, actions: seq<Action>, task: Task, i: nat, j: nat)
    returns (k: nat)
    requires Run(states, actions) && i < j <= |actions| && Marks(states[i], actions[i], task)
    ensures i <= k && LastMarking(states, actions, task, k, j)
    ensures task in states[j].markers && states[j].markers[task] == GenerationAt(states, actions, k)
    decreases j
  {
    assert Enabled(states[j - 1], actions[j - 1]) && states[j] == Next(states[j - 1], actions[j - 1]);
    MarkerChanges(states[j - 1], actions[j - 1], task);
    if Marks(states[j - 1], actions[j - 1], task) {
      k := j - 1;
    } else {
      k := MarkerStands(states, actions, task, i, j - 1);
    }
  }

  /** After a task was marked, a child that comes to its second look walks it again exactly when that look fails or
      the last child to mark the task was of another generation. */
  lemma WalkIsNotRepeated(states: seq<State>, actions: seq<Action>, task: Task, i: nat, j: nat) returns (k: nat)
    requires Run(states, actions) && i < j < |actions| && Marks(states[i], actions[i], task)
    requires actions[j].Recheck? && Stands(states[j], actions[j].child, Rechecking)
    requires TaskOf(states[j].children[actions[j].child]) == task
    ensures i <= k && LastMarking(states, actions, task, k, j)
    ensures StartsWalk(states[j], actions[j], task)
            <==> !actions[j].ok || GenerationAt(states, actions, k) != GenerationAt(states, actions, j)
  {
    k := MarkerStands(states, actions, task, i, j);
  }

  // ----- what a step leaves

  /** The child goes on to its next task, or returns if it was stopped. */
  predicate GoesOn(s: State, t: State, c: nat)
    requires c in s.children
  {
    t.children == if s.children[c].stop then s.children - {c}
                  else s.children[c := s.children[c].(at := s.children[c].at + 1, stage := Polling)]
  }

  predicate Moves(s: State, t: State, c: nat, stage: Stage)
    requires c in s.children
  {
    t.children == s.children[c := s.children[c].(stage := stage)]
  }

  /** The child reads its own generation's marker of the task. */
  predicate Finds(s: State, c: nat, ok: bool)
    requires c in s.children && Working(s.children[c])
  {
    ok && TaskOf(s.children[c]) in s.markers && s.markers[TaskOf(s.children[c])] == s.children[c].generation
  }

  /** A child polls until it is stopped, finds the marker, fails to open the lock, or gets it; then it looks at the flag
      and at the marker again, walks, and marks a walk that was complete and not stopped. */
  lemma StepsExactly(s: State, a: Action)
    requires Enabled(s, a)
    ensures var t, c := Next(s, a), a.child;
            match a
            case Spawn(_, tasks, generation) => t.children == s.children[c := Child(tasks, generation, 0, Polling, false)]
            case Stop(_) => t.children == s.children[c := s.children[c].(stop := true)]
            case Poll(_) => if s.children[c].stop then GoesOn(s, t, c) else Moves(s, t, c, Reading)
            case Read(_, ok) => if Finds(s, c, ok) then GoesOn(s, t, c) else Moves(s, t, c, Locking)
            case TryLock(_, ok) =>
              if !ok then GoesOn(s, t, c)
              else Moves(s, t, c, if TaskOf(s.children[c]) in s.locks then Polling else Elected)
            case LookAtStop(_) => Moves(s, t, c, if s.children[c].stop then Leaving else Rechecking)
            case Recheck(_, ok) => Moves(s, t, c, if Finds(s, c, ok) then Leaving else Walking)
            case EndWalk(_, complete) => Moves(s, t, c, if complete && !s.children[c].stop then Marking else Leaving)
            case WriteMarker(_, _) => Moves(s, t, c, Leaving)
            case Leave(_) => GoesOn(s, t, c)
            case Crash(_) => t.children == s.children - {c}
  {
  }

  /** A lock is taken by the child that tries a free one, and let go by a child that leaves or crashes. */
  lemma LocksChangeExactly(s: State, a: Action, task: Task)
    requires Enabled(s, a)
    ensures var t, c := Next(s, a), a.child;
            && (a.TryLock? && a.ok && task !in s.locks && TaskOf(s.children[c]) == task ==>
                  task in t.locks && t.locks[task] == c)
            && ((a.Leave? || a.Crash?) && task in s.locks && s.locks[task] == c ==> task !in t.locks)
            && (!(a.TryLock? && a.ok && task !in s.locks && TaskOf(s.children[c]) == task)
                && !((a.Leave? || a.Crash?) && task in s.locks && s.locks[task] == c) ==>
                  (task in t.locks <==> task in s.locks) && (task in s.locks ==> t.locks[task] == s.locks[task]))
  {
  }

  // ----- a marker follows a completed walk

  lemma MarkingComesFrom(s: State, a: Action, c: nat)
    requires Enabled(s, a) && Stands(Next(s, a), c, Marking)
    ensures if Stands(s, c, Marking) then a.child == c ==> a.Stop?
            else a == EndWalk(c, true) && Stands(s, c, Walking) && !s.children[c].stop
    ensures c in s.children && Working(s.children[c]) && TaskOf(s.children[c]) == TaskOf(Next(s, a).children[c])
  {
  }

  lemma WalkingComesFrom(s: State, a: Action, c: nat)
    requires Enabled(s, a) && Stands(Next(s, a), c, Walking)
    ensures c in s.children && Working(s.children[c]) && TaskOf(s.children[c]) == TaskOf(Next(s, a).children[c])
    ensures if Stands(s, c, Walking) then a.child == c ==> a.Stop?
            else a.child == c && StartsWalk(s, a, TaskOf(s.children[c]))
  {
  }

  /** Between the two steps the child does nothing but be stopped. */
  ghost predicate QuietBetween(actions: seq<Action>, from: nat, to: nat, c: nat)
    requires to <= |actions|
  {
    forall m | from < m < to && actions[m].child == c :: actions[m].Stop?
  }

  /** The child started its walk of the task at step `r`. */
  ghost predicate WalksSince(states: seq<State>, actions: seq<Action>, r: nat, at: nat, c: nat, task: Task)
    requires |states| == |actions| + 1 && at < |states|
  {
    r < at && actions[r].child == c && StartsWalk(states[r], actions[r], task) && QuietBetween(actions, r, at, c)
  }

  lemma {:induction false} WalkStarted(states: seq<State>, actions: seq<Action>, at: nat, c: nat) returns (r: nat)
    requires Run(states, actions) && at < |states| && Stands(states[at], c, Walking)
    ensures WalksSince(states, actions, r, at, c, TaskOf(states[at].children[c]))
    decreases at
  {
    hide Next, Enabled;
    assert at > 0;
    WalkingComesFrom(states[at - 1], actions[at - 1], c);
    if Stands(states[at - 1], c, Walking) {
      r := WalkStarted(states, actions, at - 1, c);
    } else {
      r := at - 1;
    }
  }

  /** At step `i` the child completed its walk of the task and found its stop flag clear. */
  ghost predicate Completes(states: seq<State>, actions: seq<Action>, i: nat, c: nat, task: Task)
    requires |states| == |actions| + 1 && i < |actions|
  {
    && actions[i] == EndWalk(c, true) && c in states[i].children && !states[i].children[c].stop
    && Working(states[i].children[c]) && TaskOf(states[i].children[c]) == task
  }

  lemma {:induction false} WalkCompleted(states: seq<State>, actions: seq<Action>, at: nat, c: nat)
    returns (r: nat, i: nat)
    requires Run(states, actions) && at < |states| && Stands(states[at], c, Marking)
    ensures var task := TaskOf(states[at].children[c]);
            && i < at && Completes(states, actions, i, c, task) && QuietBetween(actions, i, at, c)
            && WalksSince(states, actions, r, i, c, task)
    decreases at
  {
    hide Next, Enabled;
    assert at > 0;
    MarkingComesFrom(states[at - 1], actions[at - 1], c);
    if Stands(states[at - 1], c, Marking) {
      r, i := WalkCompleted(states, actions, at - 1, c);
    } else {
      i := at - 1;
      r := WalkStarted(states, actions, i, c);
    }
  }

  /** A child writes a marker only right after it has walked that task to completion and found its stop flag clear. */
  lemma MarkerFollowsWalk(states: seq<State>, actions: seq<Action>, task: Task, j: nat) returns (r: nat, i: nat)
    requires Run(states, actions) && j < |actions| && Marks(states[j], actions[j], task)
    ensures var c := actions[j].child;
            && r < i < j && WalksSince(states, actions, r, i, c, task)
            && Completes(states, actions, i, c, task) && QuietBetween(actions, i, j, c)
  {
    r, i := WalkCompleted(states, actions, j, actions[j].child);
  }

  /** A walk that ends stopped or incomplete is not marked: before the child marks anything it starts another walk. */
  lemma BrokenWalkIsNotMarked(states: seq<State>, actions: seq<Action>, task: Task, i: nat, j: nat) returns (r: nat)
    requires Run(states, actions) && i < j < |actions| && actions[i].EndWalk? && actions[i].child in states[i].children
    requires !actions[i].complete || states[i].children[actions[i].child].stop
    requires Marks(states[j], actions[j], task) && actions[j].child == actions[i].child
    ensures i < r < j && actions[r].child == actions[i].child && StartsWalk(states[r], actions[r], task)
  {
    var k;
    r, k := MarkerFollowsWalk(states, actions, task, j);
    hide Run, StartsWalk, Marks;
  }

  // ----- no task is passed over

  /** The child finds its generation's marker, finds no lock file to open, or ends a walk of the task. */
  predicate Settles(s: State, a: Action, c: nat, task: Task) {
    && a.child == c && c in s.children && Working(s.children[c]) && TaskOf(s.children[c]) == task
    && (|| ((a.Read? || a.Recheck?) && a.ok && task in s.markers && s.markers[task] == s.children[c].generation)
        || (a.TryLock? && !a.ok)
        || a.EndWalk?)
  }

  lemma LeavingComesFrom(s: State, a: Action, c: nat)
    requires Enabled(s, a) && Stands(Next(s, a), c, Leaving) && !Next(s, a).children[c].stop
    ensures c in s.children && !s.children[c].stop && Working(s.children[c])
    ensures TaskOf(s.children[c]) == TaskOf(Next(s, a).children[c])
    ensures Stands(s, c, Leaving) || Stands(s, c, Marking) || Settles(s, a, c, TaskOf(s.children[c]))
  {
  }

  lemma {:induction false} LeavingIsSettled(states: seq<State>, actions: seq<Action>, at: nat, c: nat) returns (i: nat)
    requires Run(states, actions) && at < |states| && Stands(states[at], c, Leaving) && !states[at].children[c].stop
    ensures i < at && Settles(states[i], actions[i], c, TaskOf(states[at].children[c]))
    decreases at
  {
    hide Next, Enabled;
    assert at > 0;
    LeavingComesFrom(states[at - 1], actions[at - 1], c);
    if Stands(states[at - 1], c, Leaving) {
      i := LeavingIsSettled(states, actions, at - 1, c);
    } else if Stands(states[at - 1], c, Marking) {
      var r;
      r, i := WalkCompleted(states, actions, at - 1, c);
    } else {
      i := at - 1;
    }
  }

  /** A child that goes on goes on to the very next task, and only from a task that it found marked, could not lock, or
      walked to an end. */
  lemma NoTaskIsPassedOver(states: seq<State>, actions: seq<Action>, j: nat, c: nat) returns (i: nat)
    requires Run(states, actions) && j < |actions| && c in states[j].children && c in states[j + 1].children
    requires states[j + 1].children[c].at != states[j].children[c].at
    ensures Working(states[j].children[c]) && states[j + 1].children[c].at == states[j].children[c].at + 1
    ensures i <= j && Settles(states[i], actions[i], c, TaskOf(states[j].children[c]))
  {
    assert Enabled(states[j], actions[j]);
    if actions[j].Leave? {
      i := LeavingIsSettled(states, actions, j, c);
    } else {
      i := j;
    }
  }

  // ----- one generation, reads that do not fail

  ghost predicate OneGeneration(actions: seq<Action>, g: Generation) {
    forall i | 0 <= i < |actions| && actions[i].Spawn? :: actions[i].generation == g
  }

  ghost predicate ReadsSucceed(actions: seq<Action>) {
    forall i | 0 <= i < |actions| && actions[i].Recheck? :: actions[i].ok
  }

  ghost predicate AllOf(s: State, g: Generation) {
    forall c | c in s.children :: s.children[c].generation == g
  }

  /** A child that walks, or is about to mark, does so for a task its generation has not marked. */
  predicate WalksUnmarked(s: State, child: Child) {
    Working(child) && (child.stage.Walking? || child.stage.Marking?) ==> !MarkerMatches(s, child)
  }

  ghost predicate NobodyWalksAMarkedTask(s: State) {
    forall c | c in s.children :: WalksUnmarked(s, s.children[c])
  }

  lemma StepKeepsGeneration(s: State, a: Action, g: Generation)
    requires Enabled(s, a) && AllOf(s, g) && (a.Spawn? ==> a.generation == g)
    ensures AllOf(Next(s, a), g)
  {
  }

  lemma StepKeepsMarkedTasksQuiet(s: State, a: Action)
    requires Enabled(s, a) && LocksAreHeld(s) && NobodyWalksAMarkedTask(s)
    requires a.Recheck? ==> a.ok
    ensures NobodyWalksAMarkedTask(Next(s, a))
  {
    hide LocksAreHeld, Next;
    var t := Next(s, a);
    forall d | d in t.children ensures WalksUnmarked(t, t.children[d]) {
      ChildStaysQuiet(s, a, d);
    }
  }

  lemma ChildStaysQuiet(s: State, a: Action, d: nat)
    requires Enabled(s, a) && LocksAreHeld(s) && (a.Recheck? ==> a.ok)
    requires d in Next(s, a).children && (d in s.children ==> WalksUnmarked(s, s.children[d]))
    ensures WalksUnmarked(Next(s, a), Next(s, a).children[d])
  {
    if a.WriteMarker? && a.ok && d != a.child && Working(s.children[d])
       && (s.children[d].stage.Walking? || s.children[d].stage.Marking?) {
      assert s.locks[TaskOf(s.children[d])] == d && s.locks[TaskOf(s.children[a.child])] == a.child;
    }
  }

  lemma {:induction false} MarkedTasksStayQuiet(states: seq<State>, actions: seq<Action>, g: Generation, at: nat)
    requires Run(states, actions) && at < |states|
    requires OneGeneration(actions, g) && ReadsSucceed(actions)
    ensures AllOf(states[at], g) && NobodyWalksAMarkedTask(states[at])
    decreases at
  {
    if at > 0 {
      MarkedTasksStayQuiet(states, actions, g, at - 1);
      LocksAreAlwaysHeld(states, actions, at - 1);
      assert Enabled(states[at - 1], actions[at - 1]);
      StepKeepsGeneration(states[at - 1], actions[at - 1], g);
      StepKeepsMarkedTasksQuiet(states[at - 1], actions[at - 1]);
    }
  }

  /** Among children of one generation whose reads succeed, a task is walked to completion and marked at most
      once, whatever stops and crashes in between. */
  lemma OneCompletedWalkPerGeneration(states: seq<State>, actions: seq<Action>, g: Generation, task: Task,
                                      i: nat, j: nat)
    requires Run(states, actions) && OneGeneration(actions, g) && ReadsSucceed(actions)
    requires i < |actions| && j < |actions|
    requires Marks(states[i], actions[i], task) && Marks(states[j], actions[j], task)
    ensures i == j
  {
    if i != j {
      var first, second := if i < j then i else j, if i < j then j else i;
      MarkedTasksStayQuiet(states, actions, g, second);
      var k := MarkerStands(states, actions, task, first, second);
      MarkedTasksStayQuiet(states, actions, g, first);
      if first < k < second { MarkedTasksStayQuiet(states, actions, g, k); }
    }
  }

  /** Among such children no walk of a task starts once the task is marked. */
  lemma NoWalkAfterTheMarker(states: seq<State>, actions: seq<Action>, g: Generation, task: Task, i: nat, j: nat)
    requires Run(states, actions) && OneGeneration(actions, g) && ReadsSucceed(actions)
    requires i < j < |actions| && Marks(states[i], actions[i], task)
    ensures !StartsWalk(states[j], actions[j], task)
  {
    if StartsWalk(states[j], actions[j], task) {
      var k := WalkIsNotRepeated(states, actions, task, i, j);
      MarkedTasksStayQuiet(states, actions, g, k);
      MarkedTasksStayQuiet(states, actions, g, j);
    }
  }
}
