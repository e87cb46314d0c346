/** The DAG execution engine. A poller spawns a coroutine for every ready stage; the coroutines
    and the poller interleave at their await points. One task is followed through the engine. */
module DagEngine {
  import opened Wrappers
  import opened Graphs

  datatype Status = Pending | Running | Completed | Failed

  datatype Stage = Stage(id: string, dependencies: seq<string>)

  datatype Poller = Awake | Sleeping | Done(result: bool)

  /** `spawned` lists the coroutines created and not yet run, oldest first; `started` and
      `finished` record the stages in the order they start and complete. */
  datatype State = State(
    stages: seq<Stage>,
    status: seq<Status>,
    completed: set<string>,
    poller: Poller,
    spawned: seq<nat>,
    started: seq<nat>,
    finished: seq<nat>)
  {
    predicate Sized() {
      |status| == |stages|
    }

    predicate Is(i: nat, st: Status) {
      i < |status| && status[i] == st
    }
  }

  predicate IsReady(stage: Stage, completed: set<string>) {
    forall d :: d in stage.dependencies ==> d in completed
  }

  /** Indices of the pending stages from i on whose dependencies are completed. */
  function ReadyStages(stages: seq<Stage>, status: seq<Status>, completed: set<string>, i: nat := 0): (r: seq<nat>)
    requires i <= |stages| == |status|
    ensures forall k :: k in r <==> i <= k < |stages| && status[k].Pending? && IsReady(stages[k], completed)
    ensures Distinct(r)
    decreases |stages| - i
  {
    if i == |stages| then []
    else
      var later := ReadyStages(stages, status, completed, i + 1);
      if status[i].Pending? && IsReady(stages[i], completed) then [i] + later else later
  }

  predicate AllCompleted(status: seq<Status>) {
    forall i :: 0 <= i < |status| ==> status[i].Completed?
  }

  predicate AnyFailed(status: seq<Status>) {
    exists i :: 0 <= i < |status| && status[i].Failed?
  }

  // ----- the steps

  function Poll(s: State): State
    requires s.Sized()
  {
    var ready := ReadyStages(s.stages, s.status, s.completed);
    if ready != [] then s.(spawned := s.spawned + ready, poller := Sleeping)
    else if AllCompleted(s.status) then s.(poller := Done(true))
    else if AnyFailed(s.status) then s.(poller := Done(false))
    else s.(poller := Sleeping)
  }

  function Start(s: State): State
    requires s.Sized() && s.spawned != [] && s.spawned[0] < |s.stages|
  {
    var i := s.spawned[0];
    s.(status := s.status[i := Running], spawned := s.spawned[1..], started := s.started + [i])
  }

  function Finish(s: State, i: nat, ok: bool): State
    requires s.Sized() && i < |s.stages|
  {
    if ok then
      s.(status := s.status[i := Completed], completed := s.completed + {s.stages[i].id}, finished := s.finished + [i])
    else
      s.(status := s.status[i := Failed])
  }

  datatype Action = DoPoll | DoWake | DoStart | DoFinish(i: nat, ok: bool)

  /** The event loop runs spawned coroutines before a sleep ends. */
  predicate Enabled(s: State, a: Action) {
    match a
    case DoPoll => s.poller.Awake?
    case DoWake => s.poller.Sleeping? && s.spawned == []
    case DoStart => s.spawned != [] && s.spawned[0] < |s.stages|
    case DoFinish(i, ok) => s.Is(i, Running)
  }

  function Step(s: State, a: Action): State
    requires s.Sized() && Enabled(s, a)
  {
    match a
    case DoPoll => Poll(s)
    case DoWake => s.(poller := Awake)
    case DoStart => Start(s)
    case DoFinish(i, ok) => Finish(s, i, ok)
  }

  ghost predicate Init(s: State) {
    && s.Sized() && (forall i :: 0 <= i < |s.status| ==> s.status[i].Pending?)
    && s.completed == {} && s.poller == Awake && s.spawned == [] && s.started == [] && s.finished == []
  }

  ghost predicate Run(ss: seq<State>, acts: seq<Action>) {
    && |ss| == |acts| + 1 && Init(ss[0])
    && forall k :: 0 <= k < |acts| ==> StepAt(ss, acts, k)
  }

  ghost predicate StepAt(ss: seq<State>, acts: seq<Action>, k: nat)
    requires k + 1 < |ss| && k < |acts|
  {
    ss[k].Sized() && Enabled(ss[k], acts[k]) && ss[k + 1] == Step(ss[k], acts[k])
  }

  // ----- what every step keeps

  ghost predicate Distinct(xs: seq<nat>) {
    forall i, j :: 0 <= i < j < |xs| ==> xs[i] != xs[j]
  }

  ghost predicate SpawnedOk(s: State) {
    && Distinct(s.spawned)
    && (s.spawned != [] ==> s.poller.Sleeping?)
    && forall i :: i in s.spawned ==> s.Is(i, Pending) && i < |s.stages| && IsReady(s.stages[i], s.completed)
  }

  ghost predicate CompletedWithId(s: State, i: nat, d: string) {
    s.Is(i, Completed) && i < |s.stages| && s.stages[i].id == d
  }

  /** `completed` holds exactly the ids of the completed stages. */
  ghost predicate CompletedOk(s: State) {
    forall d :: d in s.completed <==> exists i :: CompletedWithId(s, i, d)
  }

  /** A stage that has started has all its dependencies completed; none is started twice. */
  ghost predicate StartedOk(s: State) {
    && Distinct(s.started)
    && (forall i: nat :: i in s.started <==> i < |s.status| && !s.Is(i, Pending))
    && forall i :: 0 <= i < |s.stages| && !s.Is(i, Pending) ==> IsReady(s.stages[i], s.completed)
  }

  /** d is the id of one of the first n stages to complete. */
  ghost predicate Earlier(stages: seq<Stage>, finished: seq<nat>, n: nat, d: string)
    requires n <= |finished|
  {
    exists k :: 0 <= k < n && finished[k] < |stages| && stages[finished[k]].id == d
  }

  /** Stages complete after everything they depend on. */
  ghost predicate Topological(stages: seq<Stage>, finished: seq<nat>) {
    forall n, d :: 0 <= n < |finished| && finished[n] < |stages| && d in stages[finished[n]].dependencies ==>
      Earlier(stages, finished, n, d)
  }

  ghost predicate FinishedOk(s: State) {
    && Distinct(s.finished)
    && (forall i :: i in s.finished <==> s.Is(i, Completed))
    && Topological(s.stages, s.finished)
  }

  ghost predicate PollerOk(s: State) {
    && (s.poller == Done(true) ==> AllCompleted(s.status))
    && (s.poller == Done(false) ==> AnyFailed(s.status))
  }

  ghost predicate Inv(s: State) {
    s.Sized() && SpawnedOk(s) && CompletedOk(s) && StartedOk(s) && FinishedOk(s) && PollerOk(s)
  }

  lemma PollKeepsInv(s: State)
    requires Inv(s) && s.poller.Awake?
    ensures Inv(Poll(s))
  {
    var s' := Poll(s);
    assert forall i, d :: CompletedWithId(s', i, d) == CompletedWithId(s, i, d);
  }

  lemma StartKeepsInv(s: State)
    requires Inv(s) && Enabled(s, DoStart)
    ensures Inv(Start(s))
  {
    var s', i := Start(s), s.spawned[0];
    assert i in s.spawned && s.Is(i, Pending);
    assert forall j :: j in s'.started <==> j in s.started || j == i;
    assert forall j :: j in s'.spawned ==> j in s.spawned && j != i;
    assert forall j, d :: CompletedWithId(s', j, d) == CompletedWithId(s, j, d);
  }

  lemma FinishKeepsInv(s: State, i: nat, ok: bool)
    requires Inv(s) && s.Is(i, Running)
    ensures Inv(Finish(s, i, ok))
  {
    var s' := Finish(s, i, ok);
    assert i !in s.spawned && i !in s.finished;
    if s.poller == Done(false) {
      var j :| 0 <= j < |s.status| && s.status[j].Failed?;
      assert s'.status[j].Failed?;
    }
    if ok {
      assert CompletedWithId(s', i, s.stages[i].id);
      assert forall j, d :: j != i ==> CompletedWithId(s', j, d) == CompletedWithId(s, j, d);
      assert forall j :: j in s'.finished <==> j in s.finished || j == i;
      FinishKeepsTopological(s, i);
    } else {
      assert forall j, d :: CompletedWithId(s', j, d) == CompletedWithId(s, j, d);
    }
  }

  lemma FinishKeepsTopological(s: State, i: nat)
    requires Inv(s) && s.Is(i, Running)
    ensures Topological(s.stages, s.finished + [i])
  {
    var f, f' := s.finished, s.finished + [i];
    forall n, d | 0 <= n < |f'| && f'[n] < |s.stages| && d in s.stages[f'[n]].dependencies
      ensures Earlier(s.stages, f', n, d)
    {
      if n < |f| {
        assert Earlier(s.stages, f, n, d);
        var k :| 0 <= k < n && f[k] < |s.stages| && s.stages[f[k]].id == d;
        assert f'[k] == f[k];
      } else {
        assert d in s.completed;
        var j :| CompletedWithId(s, j, d);
        assert j in f;
        var k :| 0 <= k < |f| && f[k] == j;
        assert f'[k] == j;
      }
    }
  }

  lemma StepKeepsInv(s: State, a: Action)
    requires Inv(s) && Enabled(s, a)
    ensures Inv(Step(s, a))
  {
    match a
    case DoPoll => PollKeepsInv(s);
    case DoWake =>
      var s' := Step(s, a);
      assert forall i, d :: CompletedWithId(s', i, d) == CompletedWithId(s, i, d);
    case DoStart => StartKeepsInv(s);
    case DoFinish(i, ok) => FinishKeepsInv(s, i, ok);
  }

  lemma {:induction false} RunInv(ss: seq<State>, acts: seq<Action>, k: nat)
    requires Run(ss, acts) && k < |ss|
    ensures Inv(ss[k]) && ss[k].stages == ss[0].stages
    decreases k
  {
    if k > 0 {
      RunInv(ss, acts, k - 1);
      assert StepAt(ss, acts, k - 1);
      StepKeepsInv(ss[k - 1], acts[k - 1]);
    }
  }

  // ----- what a poll does, and what the statuses of a run say

  /** Some completed stage has this id. */
  ghost predicate Provided(s: State, d: string) {
    exists j :: CompletedWithId(s, j, d)
  }

  /** Stage i has not started, and each of its dependencies is the id of a completed stage. */
  ghost predicate Startable(s: State, i: nat) {
    i < |s.stages| && s.Is(i, Pending) && forall d :: d in s.stages[i].dependencies ==> Provided(s, d)
  }

  lemma StartableMeans(s: State, i: nat)
    requires Inv(s) && i < |s.stages|
    ensures Startable(s, i) <==> s.status[i].Pending? && IsReady(s.stages[i], s.completed)
  {
    forall d ensures d in s.completed <==> Provided(s, d) {
      if d in s.completed { var j :| CompletedWithId(s, j, d); }
    }
  }

  ghost predicate Increasing(xs: seq<nat>) {
    forall x, y :: 0 <= x < y < |xs| ==> xs[x] < xs[y]
  }

  lemma {:induction false} ReadyIncrease(stages: seq<Stage>, status: seq<Status>, completed: set<string>, i: nat)
    requires i <= |stages| == |status|
    ensures Increasing(ReadyStages(stages, status, completed, i))
    decreases |stages| - i
  {
    if i < |stages| {
      ReadyIncrease(stages, status, completed, i + 1);
      Behind(i, ReadyStages(stages, status, completed, i + 1));
    }
  }

  lemma Behind(i: nat, xs: seq<nat>)
    requires Increasing(xs) && forall x :: x in xs ==> i < x
    ensures Increasing([i] + xs)
  {
    forall x | 0 <= x < |xs| ensures i < xs[x] { assert xs[x] in xs; }
  }

  /** A poll spawns every startable stage, in the order of the stages, and sleeps. It ends the task only when there
      is none: with True if all stages are completed, else with False if one has failed. */
  lemma PollMeans(s: State) returns (ready: seq<nat>)
    requires Inv(s) && s.poller.Awake?
    ensures forall i: nat :: i in ready <==> Startable(s, i)
    ensures Increasing(ready)
    ensures Poll(s).spawned == ready
    ensures Poll(s).poller ==
      if ready != [] then Sleeping
      else if forall i :: 0 <= i < |s.stages| ==> s.status[i] == Completed then Done(true)
      else if exists i :: 0 <= i < |s.stages| && s.status[i] == Failed then Done(false) else Sleeping
    ensures Poll(s) == s.(spawned := ready, poller := Poll(s).poller)
  {
    ready := ReadyStages(s.stages, s.status, s.completed);
    ReadyIncrease(s.stages, s.status, s.completed, 0);
    forall i: nat ensures i in ready <==> Startable(s, i) {
      if i < |s.stages| { StartableMeans(s, i); }
    }
    assert s.spawned == [];
  }

  ghost predicate StartsAt(ss: seq<State>, acts: seq<Action>, m: nat, i: nat)
    requires m < |acts| && m < |ss|
  {
    acts[m].DoStart? && ss[m].spawned != [] && ss[m].spawned[0] == i
  }

  ghost predicate FinishesAt(acts: seq<Action>, m: nat, i: nat, ok: bool)
    requires m < |acts|
  {
    acts[m] == DoFinish(i, ok)
  }

  ghost predicate HasStarted(ss: seq<State>, acts: seq<Action>, k: nat, i: nat)
    requires k <= |acts| && k <= |ss|
  {
    exists m :: 0 <= m < k && StartsAt(ss, acts, m, i)
  }

  ghost predicate HasFinished(acts: seq<Action>, k: nat, i: nat, ok: bool)
    requires k <= |acts|
  {
    exists m :: 0 <= m < k && FinishesAt(acts, m, i, ok)
  }

  /** A stage is completed or failed exactly if it has ended so, running exactly if it was started and has not
      ended, and pending exactly if it was not started. */
  lemma {:induction false} StatusMeans(ss: seq<State>, acts: seq<Action>, k: nat, i: nat)
    requires Run(ss, acts) && k < |ss| && i < |ss[0].stages|
    ensures |ss[k].status| == |ss[0].stages|
    ensures ss[k].status[i] ==
      if HasFinished(acts, k, i, true) then Completed
      else if HasFinished(acts, k, i, false) then Failed
      else if HasStarted(ss, acts, k, i) then Running else Pending
    ensures !(HasFinished(acts, k, i, true) && HasFinished(acts, k, i, false))
    decreases k
  {
    RunInv(ss, acts, k);
    if k > 0 {
      RunInv(ss, acts, k - 1);
      StatusMeans(ss, acts, k - 1, i);
      assert StepAt(ss, acts, k - 1);
      HasNext(ss, acts, k, i);
      var s := ss[k - 1];
      if s.spawned != [] { assert s.spawned[0] in s.spawned; }
    }
  }

  lemma HasNext(ss: seq<State>, acts: seq<Action>, k: nat, i: nat)
    requires 0 < k <= |acts| && k <= |ss|
    ensures HasStarted(ss, acts, k, i) <==> HasStarted(ss, acts, k - 1, i) || StartsAt(ss, acts, k - 1, i)
    ensures HasFinished(acts, k, i, true) <==> HasFinished(acts, k - 1, i, true) || acts[k - 1] == DoFinish(i, true)
    ensures HasFinished(acts, k, i, false) <==> HasFinished(acts, k - 1, i, false) || acts[k - 1] == DoFinish(i, false)
  {
    if acts[k - 1] == DoFinish(i, true) { assert FinishesAt(acts, k - 1, i, true); }
    if acts[k - 1] == DoFinish(i, false) { assert FinishesAt(acts, k - 1, i, false); }
  }

  /** What each step of a run does to the coroutines: only a poll adds some, and they start in the order they were
      spawned in. */
  lemma SpawnOrder(ss: seq<State>, acts: seq<Action>, k: nat)
    requires Run(ss, acts) && k < |acts|
    ensures ss[k].started + ss[k].spawned <= ss[k + 1].started + ss[k + 1].spawned
    ensures acts[k].DoPoll? || ss[k].started + ss[k].spawned == ss[k + 1].started + ss[k + 1].spawned
    ensures acts[k].DoStart? <==> |ss[k + 1].started| == |ss[k].started| + 1
    ensures acts[k].DoStart? || ss[k + 1].started == ss[k].started
  {
    assert StepAt(ss, acts, k);
  }

  /** Nothing is startable, and r tells whether all stages are completed; if they are not, some stage has failed. */
  ghost predicate Returns(s: State, r: bool) {
    && (forall i: nat :: !Startable(s, i))
    && (r <==> forall i :: 0 <= i < |s.status| ==> s.status[i] == Completed)
    && (!r ==> exists i :: 0 <= i < |s.status| && s.status[i] == Failed)
  }

  lemma PollReturns(s: State, r: bool)
    requires Inv(s) && s.poller.Awake?
    ensures Poll(s).poller == Done(r) <==> Returns(s, r)
  {
    hide Startable;
    var ready := PollMeans(s);
    hide Poll, Inv;
    if ready != [] {
      assert ready[0] in ready && Startable(s, ready[0]);
    } else {
      forall i: nat ensures !Startable(s, i) { assert i !in ready; }
    }
  }

  /** execute_task has returned r exactly if some poll found nothing startable, and then r tells whether all stages
      were completed; if they were not, some stage had failed. */
  lemma {:induction false} ReturnMeans(ss: seq<State>, acts: seq<Action>, k: nat, r: bool)
    requires Run(ss, acts) && k < |ss|
    ensures ss[k].poller == Done(r) <==> exists m :: 0 <= m < k && ReturnsAt(ss, acts, m, r)
    decreases k
  {
    if k > 0 {
      ReturnMeans(ss, acts, k - 1, r);
      RunInv(ss, acts, k - 1);
      assert StepAt(ss, acts, k - 1);
      if acts[k - 1].DoPoll? {
        PollReturns(ss[k - 1], r);
        hide Poll;
        assert ReturnsAt(ss, acts, k - 1, r) <==> ss[k].poller == Done(r);
      } else {
        assert !ReturnsAt(ss, acts, k - 1, r);
      }
    }
  }

  ghost predicate ReturnsAt(ss: seq<State>, acts: seq<Action>, m: nat, r: bool)
    requires m < |acts| && m < |ss|
  {
    acts[m].DoPoll? && Returns(ss[m], r)
  }

  // ----- safety over whole runs

  predicate Advances(a: Status, b: Status) {
    a == b || (a.Pending? && !b.Pending?) || (a.Running? && (b.Completed? || b.Failed?))
  }

  /** Over any stretch of a run statuses only move forward, and completions and starts are never undone. */
  lemma {:induction false} RunAdvances(ss: seq<State>, acts: seq<Action>, k: nat, l: nat)
    requires Run(ss, acts) && k <= l < |ss|
    ensures ss[k].stages == ss[l].stages && |ss[k].status| == |ss[l].status|
    ensures forall i :: 0 <= i < |ss[k].status| ==> Advances(ss[k].status[i], ss[l].status[i])
    ensures ss[k].completed <= ss[l].completed && ss[k].started <= ss[l].started && ss[k].finished <= ss[l].finished
    decreases l
  {
    if k < l {
      RunAdvances(ss, acts, k, l - 1);
      RunInv(ss, acts, l - 1);
      assert StepAt(ss, acts, l - 1);
      StepAdvances(ss[l - 1], acts[l - 1]);
    }
  }

  lemma StepAdvances(s: State, a: Action)
    requires Inv(s) && Enabled(s, a)
    ensures var s' := Step(s, a);
      && s'.stages == s.stages && |s'.status| == |s.status|
      && (forall i :: 0 <= i < |s.status| ==> Advances(s.status[i], s'.status[i]))
      && s.completed <= s'.completed && s.started <= s'.started && s.finished <= s'.finished
  {
    if a.DoStart? {
      assert s.spawned[0] in s.spawned;
    }
  }

  ghost predicate UniqueIds(stages: seq<Stage>) {
    forall i, j :: 0 <= i < j < |stages| ==> stages[i].id != stages[j].id
  }

  function Ids(stages: seq<Stage>): set<string> {
    set i | 0 <= i < |stages| :: stages[i].id
  }

  /** Edges from each stage id to the ids it depends on. */
  function DependencyGraph(stages: seq<Stage>): Graph {
    map x | x in Ids(stages) :: set i, d | 0 <= i < |stages| && stages[i].id == x && d in stages[i].dependencies :: d
  }

  lemma EdgeIsDependency(stages: seq<Stage>, i: nat, d: string)
    requires UniqueIds(stages) && i < |stages|
    ensures d in Succ(DependencyGraph(stages), stages[i].id) <==> d in stages[i].dependencies
  {}

  /** Whatever a started stage depends on, directly or through other stages, is completed. */
  lemma {:induction false} StartedAfterAncestors(s: State, i: nat, p: seq<string>)
    requires Inv(s) && UniqueIds(s.stages) && i < |s.stages| && !s.Is(i, Pending)
    requires Walk(DependencyGraph(s.stages), p) && p[0] == s.stages[i].id && |p| > 1
    ensures p[|p| - 1] in s.completed
    decreases |p|
  {
    var g := DependencyGraph(s.stages);
    assert p[1] in Succ(g, p[0]);
    EdgeIsDependency(s.stages, i, p[1]);
    if |p| > 2 {
      var j :| CompletedWithId(s, j, p[1]);
      SubWalk(g, p, 1, |p|);
      StartedAfterAncestors(s, j, p[1..]);
    }
  }

  /** So a stage that depends, however remotely, on an unfinished or failed stage has never started. */
  lemma NeverStartedTooEarly(ss: seq<State>, acts: seq<Action>, k: nat, i: nat, j: nat, p: seq<string>)
    requires Run(ss, acts) && k < |ss| && UniqueIds(ss[0].stages) && i < |ss[0].stages| && j < |ss[0].stages|
    requires Walk(DependencyGraph(ss[0].stages), p) && |p| > 1
    requires p[0] == ss[0].stages[i].id && p[|p| - 1] == ss[0].stages[j].id
    requires !ss[k].Is(j, Completed)
    ensures ss[k].Is(i, Pending) && i !in ss[k].started
  {
    RunInv(ss, acts, k);
    if !ss[k].Is(i, Pending) {
      StartedAfterAncestors(ss[k], i, p);
      var m :| CompletedWithId(ss[k], m, p[|p| - 1]);
    }
  }

  // ----- progress and termination

  ghost predicate WellFormed(stages: seq<Stage>) {
    && UniqueIds(stages)
    && (forall i, d :: 0 <= i < |stages| && d in stages[i].dependencies ==> d in Ids(stages))
    && Acyclic(DependencyGraph(stages))
  }

  ghost predicate Quiet(s: State) {
    s.spawned == [] && forall i :: 0 <= i < |s.status| ==> !s.status[i].Running?
  }

  /** With nothing running and nothing ready, unfinished stages wait for each other in a chain. */
  lemma {:induction false} WaitingChain(s: State, i: nat, n: nat) returns (p: seq<string>)
    requires Inv(s) && UniqueIds(s.stages) && i < |s.stages| && s.Is(i, Pending)
    requires forall j, d :: 0 <= j < |s.stages| && d in s.stages[j].dependencies ==> d in Ids(s.stages)
    requires Quiet(s) && !AnyFailed(s.status) && ReadyStages(s.stages, s.status, s.completed) == []
    ensures |p| == n + 1 && p[0] == s.stages[i].id && Walk(DependencyGraph(s.stages), p)
    ensures forall k :: 0 <= k < |p| ==> p[k] in Ids(s.stages)
    decreases n
  {
    if n == 0 {
      p := [s.stages[i].id];
    } else {
      assert i !in ReadyStages(s.stages, s.status, s.completed);
      var d :| d in s.stages[i].dependencies && d !in s.completed;
      assert d in Ids(s.stages);
      var j :| 0 <= j < |s.stages| && s.stages[j].id == d;
      if s.Is(j, Completed) { assert CompletedWithId(s, j, d); }
      assert s.Is(j, Pending);
      var q := WaitingChain(s, j, n - 1);
      EdgeIsDependency(s.stages, i, d);
      PrependWalk(DependencyGraph(s.stages), s.stages[i].id, q);
      p := [s.stages[i].id] + q;
    }
  }

  /** Progress: unfinished, nothing running, spawned or failed - then some stage is ready. */
  lemma SomeStageReady(s: State)
    requires Inv(s) && WellFormed(s.stages) && Quiet(s) && !AnyFailed(s.status) && !AllCompleted(s.status)
    ensures ReadyStages(s.stages, s.status, s.completed) != []
  {
    var i :| 0 <= i < |s.status| && !s.status[i].Completed?;
    if ReadyStages(s.stages, s.status, s.completed) == [] {
      var p := WaitingChain(s, i, |Ids(s.stages)|);
      LongWalkCycles(DependencyGraph(s.stages), p, Ids(s.stages));
    }
  }

  /** Progress that is not an idle poll or a wake-up. */
  predicate Productive(s: State, a: Action)
    requires s.Sized() && Enabled(s, a)
  {
    match a
    case DoPoll => Poll(s).poller.Done? || Poll(s).spawned != []
    case DoWake => false
    case DoStart => true
    case DoFinish(_, _) => true
  }

  /** When nothing is running or spawned, the next poll is productive: the poller never sleeps for ever. */
  lemma PollerNeverStuck(s: State)
    requires Inv(s) && WellFormed(s.stages) && Quiet(s) && !s.poller.Done?
    ensures s.poller.Awake? ==> Productive(s, DoPoll)
    ensures s.poller.Sleeping? ==> Enabled(s, DoWake) && Productive(Step(s, DoWake), DoPoll)
  {
    if !AnyFailed(s.status) && !AllCompleted(s.status) {
      SomeStageReady(s);
    }
  }

  function Weight(s: State, i: nat): nat
    requires i < |s.status|
  {
    match s.status[i]
    case Pending => if i in s.spawned then 2 else 3
    case Running => 1
    case _ => 0
  }

  function Work(s: State, i: nat): nat
    requires i <= |s.status|
    decreases |s.status| - i
  {
    if i == |s.status| then 0 else Weight(s, i) + Work(s, i + 1)
  }

  function Measure(s: State): nat {
    Work(s, 0) + if s.poller.Done? then 0 else 1
  }

  lemma {:induction false} WorkSame(s: State, s': State, i: nat)
    requires i <= |s.status| == |s'.status|
    requires forall j :: i <= j < |s.status| ==> Weight(s', j) <= Weight(s, j)
    ensures Work(s', i) <= Work(s, i)
    decreases |s.status| - i
  {
    if i < |s.status| { WorkSame(s, s', i + 1); }
  }

  lemma {:induction false} WorkLess(s: State, s': State, i: nat, k: nat)
    requires i <= k < |s.status| == |s'.status|
    requires forall j :: i <= j < |s.status| ==> Weight(s', j) <= Weight(s, j)
    requires Weight(s', k) < Weight(s, k)
    ensures Work(s', i) < Work(s, i)
    decreases |s.status| - i
  {
    if i == k { WorkSame(s, s', i + 1); } else { WorkLess(s, s', i + 1, k); }
  }

  lemma StepUsesWork(s: State, a: Action)
    requires Inv(s) && Enabled(s, a)
    ensures Measure(Step(s, a)) <= Measure(s)
    ensures Productive(s, a) ==> Measure(Step(s, a)) < Measure(s)
  {
    var s' := Step(s, a);
    match a
    case DoPoll =>
      WorkSame(s, s', 0);
      if s'.spawned != [] {
        assert s'.spawned[0] in s'.spawned;
        WorkLess(s, s', 0, s'.spawned[0]);
      }
    case DoWake =>
      WorkSame(s, s', 0);
    case DoStart =>
      assert s.spawned[0] in s.spawned;
      assert forall j :: j in s.spawned && j != s.spawned[0] ==> j in s'.spawned;
      WorkLess(s, s', 0, s.spawned[0]);
    case DoFinish(i, ok) =>
      WorkLess(s, s', 0, i);
  }

  function ProductiveSteps(ss: seq<State>, acts: seq<Action>, k: nat): nat
    requires |ss| == |acts| + 1 && k <= |acts| && forall l :: 0 <= l < |acts| ==> StepAt(ss, acts, l)
    decreases k
  {
    if k == 0 then 0
    else
      assert StepAt(ss, acts, k - 1);
      ProductiveSteps(ss, acts, k - 1) + if Productive(ss[k - 1], acts[k - 1]) then 1 else 0
  }

  lemma {:induction false} InitialWork(s: State, i: nat)
    requires Init(s) && i <= |s.status|
    ensures Work(s, i) == 3 * (|s.status| - i)
    decreases |s.status| - i
  {
    if i < |s.status| { InitialWork(s, i + 1); }
  }

  /** No run makes more than 3n + 1 productive steps. */
  lemma {:induction false} BoundedProgress(ss: seq<State>, acts: seq<Action>, k: nat)
    requires Run(ss, acts) && k <= |acts|
    ensures ProductiveSteps(ss, acts, k) + Measure(ss[k]) <= 3 * |ss[0].stages| + 1
    decreases k
  {
    if k == 0 {
      InitialWork(ss[0], 0);
    } else {
      BoundedProgress(ss, acts, k - 1);
      RunInv(ss, acts, k - 1);
      assert StepAt(ss, acts, k - 1);
      StepUsesWork(ss[k - 1], acts[k - 1]);
    }
  }

  /** execute_task returns True only when all stages completed, and then the dependency graph was
      acyclic and closed and the completion order is topological. */
  lemma TrueOnlyWhenAllCompleted(s: State)
    requires Inv(s) && s.poller == Done(true)
    ensures AllCompleted(s.status) && Topological(s.stages, s.finished)
    ensures forall i: nat :: i in s.finished <==> i < |s.stages|
    ensures UniqueIds(s.stages) ==> WellFormed(s.stages)
  {
    forall i, d | 0 <= i < |s.stages| && d in s.stages[i].dependencies ensures d in Ids(s.stages) {
      assert !s.Is(i, Pending) && d in s.completed;
      var j :| CompletedWithId(s, j, d);
    }
    if UniqueIds(s.stages) {
      var g := DependencyGraph(s.stages);
      forall x | x in g ensures !CycleReachable(g, x) {
        var i :| 0 <= i < |s.stages| && s.stages[i].id == x;
        var n := FinishedBounds(s, i);
        BoundedHasNoLasso(g, {}, x, n);
        LassoIsCycle(g, x);
      }
    }
  }

  /** The n-th stage to complete has no dependency walk longer than n. */
  lemma {:induction false} BoundedByOrder(s: State, n: nat)
    requires Inv(s) && UniqueIds(s.stages) && n < |s.finished|
    ensures s.finished[n] < |s.stages| && Bounded(DependencyGraph(s.stages), {}, s.stages[s.finished[n]].id, n)
    decreases n
  {
    var i := s.finished[n];
    assert i in s.finished;
    var g := DependencyGraph(s.stages);
    forall d | d in Succ(g, s.stages[i].id) ensures n > 0 && Bounded(g, {}, d, n - 1) {
      EdgeIsDependency(s.stages, i, d);
      assert Earlier(s.stages, s.finished, n, d);
      var k :| 0 <= k < n && s.finished[k] < |s.stages| && s.stages[s.finished[k]].id == d;
      BoundedByOrder(s, k);
      BoundedMonotone(g, {}, d, k, n - 1);
    }
  }

  lemma FinishedBounds(s: State, i: nat) returns (n: nat)
    requires Inv(s) && UniqueIds(s.stages) && s.Is(i, Completed)
    ensures i < |s.stages| && Bounded(DependencyGraph(s.stages), {}, s.stages[i].id, n)
  {
    assert i in s.finished;
    n :| 0 <= n < |s.finished| && s.finished[n] == i;
    BoundedByOrder(s, n);
  }

  /** While no stage has failed, execute_task has not ended on a task that is not well-formed. */
  lemma IllFormedNeverEnds(ss: seq<State>, acts: seq<Action>, k: nat)
    requires Run(ss, acts) && k < |ss| && UniqueIds(ss[0].stages) && !WellFormed(ss[0].stages)
    requires !AnyFailed(ss[k].status)
    ensures !ss[k].poller.Done?
  {
    RunInv(ss, acts, k);
    if ss[k].poller == Done(true) {
      TrueOnlyWhenAllCompleted(ss[k]);
    }
  }

  // ----- endless runs

  /** A trace goes on for ever; once execute_task has returned it may also stand still. */
  ghost predicate TraceStep(ss: nat -> State, acts: nat -> Action, k: nat) {
    ss(k).Sized() && (
      || (Enabled(ss(k), acts(k)) && ss(k + 1) == Step(ss(k), acts(k)))
      || (ss(k).poller.Done? && ss(k + 1) == ss(k)))
  }

  ghost predicate Trace(ss: nat -> State, acts: nat -> Action) {
    Init(ss(0)) && forall k: nat :: TraceStep(ss, acts, k)
  }

  /** Stage i is in the hands of a coroutine: spawned and not yet run, or running. */
  predicate Busy(s: State, i: nat) {
    i in s.spawned || s.Is(i, Running)
  }

  ghost predicate Released(ss: nat -> State, k: nat, i: nat) {
    exists l: nat :: k <= l && HandsOver(ss(k), ss(l), i)
  }

  /** A spawned stage has started, or a running one has ended, between s and s'. */
  predicate HandsOver(s: State, s': State, i: nat) {
    (i in s.spawned && i !in s'.spawned) || (s.Is(i, Running) && !s'.Is(i, Running))
  }

  /** Every spawned coroutine is run at last, and every running stage ends. */
  ghost predicate FairRun(ss: nat -> State, acts: nat -> Action) {
    Trace(ss, acts) && forall k: nat, i: nat :: Busy(ss(k), i) ==> Released(ss, k, i)
  }

  ghost predicate Ends(ss: nat -> State) {
    exists k: nat :: ss(k).poller.Done?
  }

  ghost predicate FailsAt(ss: nat -> State, k: nat) {
    AnyFailed(ss(k).status)
  }

  ghost predicate SomeStageFails(ss: nat -> State) {
    exists k: nat :: FailsAt(ss, k)
  }

  lemma {:induction false} TraceInv(ss: nat -> State, acts: nat -> Action, k: nat)
    requires Trace(ss, acts)
    ensures Inv(ss(k)) && ss(k).stages == ss(0).stages
  {
    if k > 0 {
      TraceInv(ss, acts, k - 1);
      assert TraceStep(ss, acts, k - 1);
      if ss(k) != ss(k - 1) { StepKeepsInv(ss(k - 1), acts(k - 1)); }
    }
  }

  /** Without a productive step between k and l no stage is started, spawned or ended. */
  lemma {:induction false} WorkOrStill(ss: nat -> State, acts: nat -> Action, k: nat, l: nat)
    requires Trace(ss, acts) && k <= l
    ensures Measure(ss(l)) <= Measure(ss(k))
    ensures AnyFailed(ss(k).status) ==> AnyFailed(ss(l).status)
    ensures Measure(ss(l)) == Measure(ss(k)) ==> ss(l).status == ss(k).status && ss(l).spawned == ss(k).spawned
    decreases l
  {
    if k < l {
      var s := ss(l - 1);
      WorkOrStill(ss, acts, k, l - 1);
      TraceInv(ss, acts, l - 1);
      assert TraceStep(ss, acts, l - 1);
      if ss(l) != s {
        StepUsesWork(s, acts(l - 1));
        if AnyFailed(s.status) { FailureStays(s, acts(l - 1)); }
      }
    }
  }

  lemma FailureStays(s: State, a: Action)
    requires Inv(s) && Enabled(s, a) && AnyFailed(s.status)
    ensures AnyFailed(Step(s, a).status)
  {
    StepAdvances(s, a);
    var i :| 0 <= i < |s.status| && s.status[i].Failed?;
    assert Step(s, a).status[i].Failed?;
  }

  /** In a quiet state that is not idle for good, the poller's next step or two are all that can happen,
      and one of them is productive. */
  lemma QuietAdvances(ss: nat -> State, acts: nat -> Action, k: nat) returns (l: nat)
    requires Trace(ss, acts) && Quiet(ss(k)) && !ss(k).poller.Done?
    requires WellFormed(ss(0).stages) || AnyFailed(ss(k).status)
    ensures k <= l && Measure(ss(l)) < Measure(ss(k))
  {
    var s := ss(k);
    TraceInv(ss, acts, k);
    assert TraceStep(ss, acts, k);
    PollFindsWork(s);
    StepUsesWork(s, acts(k));
    l := k + 1;
    if s.poller.Sleeping? {
      assert ss(k + 1) == s.(poller := Awake);
      assert TraceStep(ss, acts, k + 1);
      TraceInv(ss, acts, k + 1);
      PollFindsWork(ss(k + 1));
      StepUsesWork(ss(k + 1), acts(k + 1));
      l := k + 2;
    }
  }

  lemma PollFindsWork(s: State)
    requires Inv(s) && Quiet(s) && !s.poller.Done? && (WellFormed(s.stages) || AnyFailed(s.status))
    ensures s.poller.Awake? ==> Productive(s, DoPoll)
  {
    if !AnyFailed(s.status) { PollerNeverStuck(s); }
  }

  lemma {:induction false} EndsFrom(ss: nat -> State, acts: nat -> Action, k: nat)
    requires FairRun(ss, acts) && (WellFormed(ss(0).stages) || AnyFailed(ss(k).status))
    ensures Ends(ss)
    decreases Measure(ss(k))
  {
    var s := ss(k);
    if !s.poller.Done? {
      var l;
      if Quiet(s) {
        l := QuietAdvances(ss, acts, k);
      } else {
        l := BusyAdvances(ss, acts, k);
      }
      WorkOrStill(ss, acts, k, l);
      EndsFrom(ss, acts, l);
    }
  }

  lemma BusyAdvances(ss: nat -> State, acts: nat -> Action, k: nat) returns (l: nat)
    requires FairRun(ss, acts) && !Quiet(ss(k))
    ensures k <= l && Measure(ss(l)) < Measure(ss(k))
  {
    var s := ss(k);
    var i: nat;
    if s.spawned != [] {
      i := s.spawned[0];
    } else {
      i :| i < |s.status| && s.status[i].Running?;
    }
    assert Busy(s, i);
    assert Released(ss, k, i);
    l :| k <= l && HandsOver(s, ss(l), i);
    WorkOrStill(ss, acts, k, l);
  }

  /** If every started stage ends, execute_task ends on every well-formed task. */
  lemma WellFormedEnds(ss: nat -> State, acts: nat -> Action)
    requires FairRun(ss, acts) && WellFormed(ss(0).stages)
    ensures Ends(ss)
  {
    EndsFrom(ss, acts, 0);
  }

  /** If every started stage ends, execute_task ends exactly if the task is well-formed or a stage fails;
      on any other task it polls for ever. */
  lemma EndsIff(ss: nat -> State, acts: nat -> Action)
    requires FairRun(ss, acts) && UniqueIds(ss(0).stages)
    ensures Ends(ss) <==> WellFormed(ss(0).stages) || SomeStageFails(ss)
  {
    if WellFormed(ss(0).stages) {
      EndsFrom(ss, acts, 0);
    } else if SomeStageFails(ss) {
      var k: nat :| FailsAt(ss, k);
      EndsFrom(ss, acts, k);
    } else if Ends(ss) {
      var k: nat :| ss(k).poller.Done?;
      TraceInv(ss, acts, k);
      assert !FailsAt(ss, k);
      TrueOnlyWhenAllCompleted(ss(k));
    }
  }

  // ----- fair runs exist for every task

  /** Spawned coroutines first, then the first running stage succeeds, then the poller. */
  function Pick(s: State): Action {
    if s.spawned != [] then DoStart
    else if FirstRunning(s.status) < |s.status| then DoFinish(FirstRunning(s.status), true)
    else if s.poller.Sleeping? then DoWake
    else DoPoll
  }

  function FirstRunning(status: seq<Status>): (i: nat)
    ensures i <= |status| && (i < |status| ==> status[i].Running?)
    ensures forall j :: 0 <= j < i ==> !status[j].Running?
  {
    if status == [] || status[0].Running? then 0 else 1 + FirstRunning(status[1..])
  }

  function Next(s: State): State {
    if s.Sized() && Enabled(s, Pick(s)) then Step(s, Pick(s)) else s
  }

  function Reached(s: State, k: nat): State {
    if k == 0 then s else Next(Reached(s, k - 1))
  }

  lemma PickWorks(s: State)
    requires Inv(s)
    ensures s.poller.Done? || Enabled(s, Pick(s))
    ensures Next(s) == s || Enabled(s, Pick(s))
    ensures !Quiet(s) ==> Enabled(s, Pick(s)) && Productive(s, Pick(s))
    ensures !AnyFailed(s.status) ==> !AnyFailed(Next(s).status)
  {
    if s.spawned != [] { assert s.spawned[0] in s.spawned; }
  }

  lemma {:induction false} ReachedInv(s: State, k: nat)
    requires Init(s)
    ensures Inv(Reached(s, k)) && !AnyFailed(Reached(s, k).status)
  {
    if k > 0 {
      ReachedInv(s, k - 1);
      PickWorks(Reached(s, k - 1));
      if Next(Reached(s, k - 1)) != Reached(s, k - 1) { StepKeepsInv(Reached(s, k - 1), Pick(Reached(s, k - 1))); }
    }
  }

  /** A busy stage is handed over as long as every step does some work. */
  lemma {:induction false} PickIsFair(s: State, k: nat, i: nat) returns (l: nat)
    requires Init(s) && Busy(Reached(s, k), i)
    ensures k <= l && HandsOver(Reached(s, k), Reached(s, l), i)
    decreases Measure(Reached(s, k))
  {
    var here := Reached(s, k);
    ReachedInv(s, k);
    PickWorks(here);
    assert i in here.spawned || (i < |here.status| && here.status[i].Running?);
    StepUsesWork(here, Pick(here));
    assert Reached(s, k + 1) == Step(here, Pick(here));
    if HandsOver(here, Reached(s, k + 1), i) {
      l := k + 1;
    } else {
      ReachedInv(s, k + 1);
      l := PickIsFair(s, k + 1, i);
    }
  }

  /** Every task has a fair run in which no stage fails. */
  lemma FairRunExists(s: State) returns (ss: nat -> State, acts: nat -> Action)
    requires Init(s)
    ensures FairRun(ss, acts) && ss(0) == s && !SomeStageFails(ss)
  {
    ss := (k: nat) => Reached(s, k);
    acts := (k: nat) => Pick(Reached(s, k));
    forall k: nat ensures TraceStep(ss, acts, k) && !FailsAt(ss, k) {
      ReachedInv(s, k);
      PickWorks(Reached(s, k));
      assert Reached(s, k + 1) == Next(Reached(s, k));
    }
    forall k: nat, i: nat | Busy(ss(k), i) ensures Released(ss, k, i) {
      var l := PickIsFair(s, k, i);
      assert HandsOver(ss(k), ss(l), i);
    }
  }

  /** A stage that depends on itself is never started, so that execute_task never ends, whatever happens. */
  lemma SelfDependentNeverEnds(ss: nat -> State, acts: nat -> Action)
    requires Trace(ss, acts) && ss(0).stages == [Stage("a", ["a"])]
    ensures UniqueIds(ss(0).stages) && !WellFormed(ss(0).stages)
    ensures !Ends(ss) && !SomeStageFails(ss)
  {
    var g, stages := DependencyGraph(ss(0).stages), ss(0).stages;
    forall k: nat ensures !ss(k).poller.Done? && !FailsAt(ss, k) { SelfDependentWaits(ss, acts, k); }
    if WellFormed(stages) {
      EdgeIsDependency(stages, 0, "a");
      assert stages[0].id in Ids(stages);
      LongWalkCycles(g, ["a", "a"], {"a"});
    }
  }

  lemma {:induction false} SelfDependentWaits(ss: nat -> State, acts: nat -> Action, k: nat)
    requires Trace(ss, acts) && ss(0).stages == [Stage("a", ["a"])]
    ensures ss(k).stages == ss(0).stages && ss(k).status == [Pending] && ss(k).completed == {}
    ensures ss(k).spawned == [] && !ss(k).poller.Done?
  {
    if k == 0 {
      assert ss(0).status[0].Pending?;
    } else {
      SelfDependentWaits(ss, acts, k - 1);
      assert TraceStep(ss, acts, k - 1);
      var s := ss(k - 1);
      assert s.stages[0].dependencies[0] in s.stages[0].dependencies;
      assert !IsReady(s.stages[0], s.completed);
      assert 0 !in ReadyStages(s.stages, s.status, s.completed);
      assert !s.status[0].Completed?;
    }
  }

  // ----- the engine object: one method per atomic stretch between awaits

  class DAGExecutionEngine {
    var stages: seq<Stage>
    var status: seq<Status>
    var completed: set<string>
    var poller: Poller
    var spawned: seq<nat>
    ghost var started: seq<nat>
    ghost var finished: seq<nat>

    ghost function Contents(): State reads this {
      State(stages, status, completed, poller, spawned, started, finished)
    }

    /** submit_task, and the entry of execute_task. */
    constructor (stages: seq<Stage>)
      ensures Init(Contents()) && this.stages == stages && Inv(Contents())
    {
      this.stages := stages;
      status := seq(|stages|, i => Pending);
      completed, poller, spawned, started, finished := {}, Awake, [], [], [];
    }

    /** One pass of execute_task's loop, up to its sleep or return. */
    method PollOnce() returns (result: Poller)
      requires Contents().Sized() && poller.Awake?
      modifies this`poller, this`spawned
      ensures Contents() == Poll(old(Contents()))
      ensures result == poller
    {
      var ready := ReadyStages(stages, status, completed);
      if ready == [] {
        if AllCompleted(status) {
          poller := Done(true);
        } else if AnyFailed(status) {
          poller := Done(false);
        } else {
          poller := Sleeping;
        }
      } else {
        for k := 0 to |ready|
          invariant spawned == old(spawned) + ready[..k]
        {
          spawned := spawned + [ready[k]];
        }
        assert ready[..|ready|] == ready;
        poller := Sleeping;
      }
      result := poller;
    }

    method WakeUp()
      requires Contents().Sized() && Enabled(Contents(), DoWake)
      modifies this`poller
      ensures Contents() == Step(old(Contents()), DoWake)
    {
      poller := Awake;
    }

    /** _execute_stage up to the gathering of its chunks. */
    method StartNext() returns (i: nat)
      requires Contents().Sized() && Enabled(Contents(), DoStart)
      modifies this`status, this`spawned, this`started
      ensures Contents() == Start(old(Contents())) && i == old(spawned)[0]
    {
      i := spawned[0];
      status := status[i := Running];
      spawned := spawned[1..];
      started := started + [i];
    }

    /** _execute_stage after its chunks ended with the given results. */
    method FinishStage(i: nat, results: seq<bool>)
      requires Contents().Sized() && Enabled(Contents(), DoFinish(i, false))
      modifies this`status, this`completed, this`finished
      ensures Contents() == Finish(old(Contents()), i, false !in results)
    {
      var failedCount := 0;
      for k := 0 to |results|
        invariant 0 <= failedCount && (failedCount > 0 <==> false in results[..k])
      {
        assert results[..k + 1] == results[..k] + [results[k]];
        if !results[k] {
          failedCount := failedCount + 1;
        }
      }
      assert results[..|results|] == results;
      if failedCount > 0 {
        status := status[i := Failed];
      } else {
        status := status[i := Completed];
        completed := completed + {stages[i].id};
        finished := finished + [i];
      }
    }
  }

  datatype Answer = StillRunning | Succeeded | FailedThere

  /** The scheduler as a chunk's attempts meet it: whether it takes attempt a, and what the q-th query about it says. */
  datatype Scheduler = Scheduler(takes: nat -> bool, answers: (nat, nat) -> Answer)

  /** Attempt a succeeds at query q: the earlier answers were still running. */
  ghost predicate SucceedsAt(sch: Scheduler, a: nat, q: nat) {
    sch.takes(a) && sch.answers(a, q).Succeeded? && forall p: nat :: p < q ==> sch.answers(a, p).StillRunning?
  }

  ghost predicate Succeeds(sch: Scheduler, a: nat) {
    exists q: nat :: SucceedsAt(sch, a, q)
  }

  /** Every attempt that is taken is answered at last; `last` says by which query. */
  ghost predicate AnswersBy(sch: Scheduler, last: nat -> nat) {
    forall a: nat :: sch.takes(a) ==> !sch.answers(a, last(a)).StillRunning?
  }

  /** The first answer that is not still running decides. */
  lemma FirstAnswer(sch: Scheduler, a: nat, q: nat)
    requires sch.takes(a) && !sch.answers(a, q).StillRunning?
    requires forall p: nat :: p < q ==> sch.answers(a, p).StillRunning?
    ensures Succeeds(sch, a) <==> sch.answers(a, q).Succeeded?
  {
    if sch.answers(a, q).Succeeded? { assert SucceedsAt(sch, a, q); }
    forall p: nat ensures SucceedsAt(sch, a, p) ==> p == q {}
  }

  /** A chunk of a stage, executed with retries. */
  class TaskChunk {
    var status: Status
    var retryCount: nat
    const maxRetries: int

    constructor (maxRetries: int)
      ensures status == Pending && retryCount == 0 && this.maxRetries == maxRetries
    {
      status, retryCount, this.maxRetries := Pending, 0, maxRetries;
    }

    /** One attempt: the chunk is submitted, and the scheduler asked until the chunk is no longer running. */
    method Attempt(a: nat, sch: Scheduler, ghost last: nat -> nat) returns (ok: bool)
      requires AnswersBy(sch, last)
      ensures ok <==> Succeeds(sch, a)
    {
      if !sch.takes(a) { return false; }
      var q := 0;
      while sch.answers(a, q).StillRunning?
        invariant q <= last(a) && forall p: nat :: p < q ==> sch.answers(a, p).StillRunning?
        decreases last(a) - q
      {
        q := q + 1;
      }
      ok := sch.answers(a, q).Succeeded?;
      FirstAnswer(sch, a, q);
    }

    /** Gives up after maxRetries + 1 failed attempts; each failed attempt counts as a retry. Without a scheduler
        the first attempt succeeds. */
    method Execute(scheduler: Option<Scheduler>, ghost last: nat -> nat) returns (ok: bool)
      requires scheduler.Some? ==> AnswersBy(scheduler.value, last)
      modifies this
      ensures scheduler.None? ==> ok == (maxRetries >= 0) && retryCount == old(retryCount)
      ensures scheduler.Some? ==> (ok <==> exists a: nat :: a <= maxRetries && Succeeds(scheduler.value, a))
      ensures status == if ok then Completed else if maxRetries >= 0 then Failed else Running
      ensures scheduler.Some? ==>
        var failures := retryCount - old(retryCount);
        && 0 <= failures && (forall a: nat :: a < failures ==> !Succeeds(scheduler.value, a))
        && (ok ==> failures <= maxRetries && Succeeds(scheduler.value, failures))
        && (!ok ==> failures == if maxRetries >= 0 then maxRetries + 1 else 0)
    {
      status := Running;
      var attempt := 0;
      while attempt < maxRetries + 1
        invariant status == Running && 0 <= attempt && (attempt == 0 || attempt <= maxRetries)
        invariant retryCount == old(retryCount) + attempt
        invariant scheduler.None? ==> attempt == 0
        invariant scheduler.Some? ==> forall a: nat :: a < attempt ==> !Succeeds(scheduler.value, a)
      {
        var done := true;
        if scheduler.Some? { done := Attempt(attempt, scheduler.value, last); }
        if done {
          status := Completed;
          return true;
        }
        retryCount := retryCount + 1;
        if attempt == maxRetries {
          status := Failed;
          return false;
        }
        attempt := attempt + 1;
      }
      ok := false;
    }
  }
}
