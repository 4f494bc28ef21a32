/** Progress of the compositor for every image of at least four by four pixels: no reachable state is
    stuck, and a measure bounds the steps to the next publication. */
module CompositorProgress {
  import opened Compositor
  import opened CompositorFlow
  import opened CompositorSafety
  import opened Pixels
  import opened Tiles

  /** A frame has been started and not yet published. */
  predicate MidFrame(s: State) { !s.main.Starting? && !s.main.Stopped? }

  // ----- no reachable state is stuck -----

  /** Unless the compositor has stopped, some thread can always take a step, also while threads
      released from the previous generation are still on their way back to the pool. */
  lemma NeverStuck(c: Config, s: State) returns (a: Action)
    requires Large(c) && Flow(c, s) && !s.main.Stopped?
    ensures Enabled(c, s, a) && (MidFrame(s) ==> !a.StartFrame?)
  {
    hide ThreadsOk, Conserving, Counted;
    match s.main
    case Starting => a := StartFrame;
    case Posting(_, _) => a := Post;
    case MainArriving => a := MainArrive;
    case MainWaiting(g) =>
      if g != s.generation {
        a := MainReturn;
      } else {
        a := ClosedBarrier(c, s);
      }
    case Publishing => a := Publish(false);
  }

  /** While main waits at a closed barrier, a pool thread can step: an idle thread finds a task, because
      the open frame and the frames before it have posted more than the barrier has let through. */
  lemma ClosedBarrier(c: Config, s: State) returns (a: Action)
    requires Large(c) && Flow(c, s) && s.main == MainWaiting(s.generation)
    ensures Enabled(c, s, a) && !a.StartFrame?
  {
    hide Waiters, Active, InTask, TaskCount;
    assert forall w :: 0 <= w < |s.workers| ==> ThreadOk(c, s, s.workers[w]);
    if w: nat :| w < |s.workers| && s.workers[w].Arriving? {
      a := Arrive(w);
    } else if w: nat :| w < |s.workers| && (s.workers[w].Collecting? || s.workers[w].Overlaying?) {
      a := Write(w);
    } else if w: nat :| w < |s.workers| && s.workers[w].Waiting? && s.workers[w].generation != s.generation {
      a := Return(w);
    } else {
      WaitersAll(s.workers, s.generation);
      var w: nat :| w < |s.workers| && !IsWaiter(s.workers[w], s.generation);
      assert !IsActive(s.workers[w], s.generation);
      QueueNotEmpty(c, s, w);
      a := Take(w);
    }
  }

  lemma QueueNotEmpty(c: Config, s: State, w: nat)
    requires Large(c) && Flow(c, s) && s.main == MainWaiting(s.generation)
    requires w < |s.workers| && !IsActive(s.workers[w], s.generation)
    ensures s.queue != []
  {
    EnoughTasks(c);
    ActiveAll(s.workers, s.generation);
    AboveSixteen(FrameTasks(c), s.generation);
    hide TaskCount, Active, Waiters, ThreadsOk;
  }

  // ----- a measure that every step of a frame decreases -----

  function Sub(a: nat, b: nat): nat { if a > b then a - b else 0 }

  /** Pixels of a tile. */
  function TilePixels(c: Config, t: Task): nat {
    Steps(Sub(End(c.width, t.i), Origin(c.width, t.i)), Sub(End(c.height, t.j), Origin(c.height, t.j)))
  }

  /** Pixels of a tile from (x, y) on, in row-major order. */
  function Remaining(c: Config, t: Task, x: nat, y: nat): nat {
    Steps(Sub(End(c.width, t.i), Origin(c.width, t.i)), Sub(End(c.height, t.j), y + 1)) + Sub(End(c.width, t.i), x)
  }

  /** Steps a pool thread still takes for its current task. */
  function WorkerRank(c: Config, v: Worker): nat {
    match v
    case Idle => 0
    case Waiting(_, _) => 1
    case Arriving(_) => 2
    case Overlaying(t, x, y) => 2 + Remaining(c, t, x, y)
    case Collecting(t, x, y) => 2 + TilePixels(c, t) + Remaining(c, t, x, y)
  }

  function WorkersRank(c: Config, workers: seq<Worker>): nat {
    if workers == [] then 0
    else WorkersRank(c, workers[..|workers| - 1]) + WorkerRank(c, workers[|workers| - 1])
  }

  /** Steps one task takes from the queue on, with its two passes over a quarter of each side. */
  function TaskRank(c: Config): nat { 3 + 2 * Steps(Step(c.width), Step(c.height)) }

  function MainRank(c: Config, m: Main): nat
    requires Large(c)
  {
    match m
    case Starting => 0
    case Stopped => 0
    case Publishing => 1
    case MainWaiting(_) => 2
    case MainArriving => 3
    case Posting(i, j) =>
      Steps(TaskRank(c) + 1, Sub(FrameTasks(c), Steps(Count(c.height), i) + j)) + Sub(Count(c.width), i) + 4
  }

  function Rank(c: Config, s: State): nat
    requires Large(c)
  {
    MainRank(c, s.main) + Steps(TaskRank(c), |s.queue|) + WorkersRank(c, s.workers)
  }

  lemma {:induction false} WorkersRankUpdate(c: Config, workers: seq<Worker>, w: nat, v: Worker)
    requires w < |workers|
    ensures WorkersRank(c, workers[w := v]) == WorkersRank(c, workers) - WorkerRank(c, workers[w]) + WorkerRank(c, v)
    decreases workers
  {
    var last := |workers| - 1;
    if w == last {
      assert workers[w := v][..last] == workers[..last];
    } else {
      assert workers[w := v][..last] == workers[..last][w := v];
      WorkersRankUpdate(c, workers[..last], w, v);
    }
  }

  lemma {:induction false} StepsBelow(d: nat, m: nat, d': nat, m': nat)
    requires d <= d' && m <= m'
    ensures Steps(d, m) <= Steps(d', m')
    decreases m'
  {
    if m > 0 {
      StepsBelow(d, m - 1, d', m' - 1);
    }
  }

  /** Writing a pixel leaves one pixel less. */
  lemma WriteRank(c: Config, v: Worker)
    requires (v.Collecting? || v.Overlaying?) && InTask(c, v.task, v.x, v.y)
    ensures WorkerRank(c, Advance(c, v)) == WorkerRank(c, v) - 1
  {
    hide Origin, End;
    var tw := Sub(End(c.width, v.task.i), Origin(c.width, v.task.i));
    var rows := Sub(End(c.height, v.task.j), v.y + 1);
    assert rows > 0 ==> Steps(tw, rows) == Steps(tw, rows - 1) + tw;
  }

  /** A freshly taken task has no more steps before it than two passes over a full tile. */
  lemma TakeRank(c: Config, t: Task)
    ensures WorkerRank(c, FirstPixel(c, t)) < TaskRank(c)
  {
    var tw, th := Sub(End(c.width, t.i), Origin(c.width, t.i)), Sub(End(c.height, t.j), Origin(c.height, t.j));
    StepsBelow(tw, th, Step(c.width), Step(c.height));
    hide Origin, End;
    if !EmptyTile(c, t) {
      assert Steps(tw, th) == Steps(tw, th - 1) + tw;
    }
  }

  /** A tile to be posted is one of those the frame still has to post. */
  lemma StillToPost(c: Config, i: nat, j: nat)
    requires Large(c) && i < Count(c.width) && j < Count(c.height)
    ensures Steps(Count(c.height), i) + j < FrameTasks(c)
  {
    StepsMonotone(Count(c.height), i, Count(c.width));
  }

  lemma OneStep(d: nat, n: nat)
    ensures n > 0 ==> Steps(d, n) == Steps(d, n - 1) + d
  {}

  lemma LeftToPost(task: nat, tasks: nat, posted: nat)
    requires posted < tasks
    ensures Steps(task + 1, Sub(tasks, posted + 1)) + task < Steps(task + 1, Sub(tasks, posted))
  {
    OneStep(task + 1, tasks - posted);
  }

  /** Moving a loop variable brings the posting loops nearer to their end... */
  lemma RowRank(c: Config, i: nat)
    requires Large(c)
    ensures i < Count(c.width) ==> MainRank(c, Posting(i + 1, 0)) < MainRank(c, Posting(i, Count(c.height)))
  {
    hide Count, TaskCount, TaskRank;
    OneStep(Count(c.height), i + 1);
    hide Steps;
  }

  /** ...by more than a task's steps when a task is posted. */
  lemma LoopRank(c: Config, i: nat, j: nat)
    requires Large(c) && i < Count(c.width) && j < Count(c.height)
    ensures MainRank(c, Posting(i, j + 1)) + TaskRank(c) < MainRank(c, Posting(i, j))
  {
    StillToPost(c, i, j);
    hide Count, FrameTasks, TaskRank;
    LeftToPost(TaskRank(c), FrameTasks(c), Steps(Count(c.height), i) + j);
    hide Steps;
  }

  lemma LastRank(c: Config, i: nat, j: nat)
    requires Large(c)
    ensures MainRank(c, Posting(i, j)) > MainRank(c, MainArriving)
  {
    hide Count, FrameTasks, TaskRank, Steps;
  }

  lemma PostRank(c: Config, s: State)
    requires Large(c) && Flow(c, s) && s.main.Posting?
    ensures Rank(c, Apply(c, s, Post)) < Rank(c, s)
  {
    var Posting(i, j) := s.main;
    OriginBelowIff(c.width, i);
    OriginBelowIff(c.height, j);
    LastRank(c, i, j);
    if i < Count(c.width) {
      if j < Count(c.height) {
        LoopRank(c, i, j);
      } else {
        RowRank(c, i);
      }
    }
    OneStep(TaskRank(c), |s.queue| + 1);
    hide Origin, Count, FrameTasks, TaskRank, MainRank, WorkersRank, ThreadsOk, Counted, Conserving, Generations, Steps;
  }

  /** Every step except the start of a frame decreases the measure. */
  lemma StepDecreases(c: Config, s: State, a: Action)
    requires Large(c) && Flow(c, s) && Enabled(c, s, a) && !a.StartFrame?
    ensures Rank(c, Apply(c, s, a)) < Rank(c, s)
  {
    hide Origin, End, InTask, Count, TaskCount, Waiters, Active, TaskRank, Advance, FirstPixel, Written;
    match a
    case Post => PostRank(c, s);
    case MainArrive =>
    case MainReturn =>
    case Publish(_) =>
    case Take(w) =>
      TakeRank(c, s.queue[0]);
      WorkersRankUpdate(c, s.workers, w, FirstPixel(c, s.queue[0]));
    case Write(w) =>
      assert ThreadOk(c, s, s.workers[w]);
      WriteRank(c, s.workers[w]);
      WorkersRankUpdate(c, s.workers, w, Advance(c, s.workers[w]));
    case Arrive(w) => WorkersRankUpdate(c, s.workers, w, Waiting(s.workers[w].task, s.generation));
    case Return(w) => WorkersRankUpdate(c, s.workers, w, Idle);
  }

  /** From the middle of a frame, a run that does not publish is at most as long as the measure. */
  lemma {:induction false} UnpublishedRunIsShort(c: Config, s: State, run: seq<Action>)
    requires Large(c) && Flow(c, s) && MidFrame(s) && CanRun(c, s, run)
    requires forall n :: 0 <= n < |run| ==> !run[n].Publish?
    ensures |run| <= Rank(c, s)
    decreases run
  {
    hide Rank, Flow;
    if run != [] {
      assert !run[0].Publish?;
      FlowStep(c, s, run[0]);
      StepDecreases(c, s, run[0]);
      UnpublishedRunIsShort(c, Apply(c, s, run[0]), run[1..]);
    }
  }

  /** Every long enough run from the middle of a frame publishes that frame. */
  lemma FrameIsPublished(c: Config, s: State, run: seq<Action>)
    requires Large(c) && Reachable(c, s) && MidFrame(s) && CanRun(c, s, run)
    requires |run| > Rank(c, s)
    ensures exists n :: 0 <= n < |run| && run[n].Publish?
  {
    ReachableFlow(c, s);
    if forall n :: 0 <= n < |run| ==> !run[n].Publish? {
      UnpublishedRunIsShort(c, s, run);
    }
  }

  /** From every reachable state in the middle of a frame there is a run that publishes it, after which the compositor
      is about to start the next frame or, if told to exit, stopped. */
  lemma CanPublish(c: Config, s: State, stop: bool) returns (run: seq<Action>)
    requires Large(c) && Flow(c, s) && MidFrame(s)
    ensures CanRun(c, s, run)
    ensures After(c, s, run).main == if stop then Stopped else Starting
    ensures After(c, s, run).published == |s.images| - 1
    decreases Rank(c, s)
  {
    hide Rank;
    if s.main.Publishing? {
      run := [Publish(stop)];
      assert run[1..] == [];
    } else {
      var a := NeverStuck(c, s);
      FlowStep(c, s, a);
      StepDecreases(c, s, a);
      var rest := CanPublish(c, Apply(c, s, a), stop);
      run := [a] + rest;
      assert run[1..] == rest;
    }
  }

  // ----- the stop is final -----

  /** A step of the main thread. */
  predicate OfMain(a: Action) { a.StartFrame? || a.Post? || a.MainArrive? || a.MainReturn? || a.Publish? }

  /** Publishing with the exit flag set is the main thread's last step: in no continuation does it take another, so
      no frame is started, posted or published any more, for every image size. */
  lemma {:induction false} StopIsFinal(c: Config, s: State, run: seq<Action>)
    requires s.main.Stopped? && CanRun(c, s, run)
    ensures forall n :: 0 <= n < |run| ==> !OfMain(run[n])
    ensures var s' := After(c, s, run);
            s'.main.Stopped? && s'.published == s.published && |s'.images| == |s.images| && |s'.queue| <= |s.queue|
    decreases run
  {
    if run != [] {
      StoppedStep(c, s, run[0]);
      StopIsFinal(c, Apply(c, s, run[0]), run[1..]);
    }
  }

  lemma StoppedStep(c: Config, s: State, a: Action)
    requires s.main.Stopped? && Enabled(c, s, a)
    ensures !OfMain(a)
    ensures var s' := Apply(c, s, a);
            s'.main.Stopped? && s'.published == s.published && |s'.images| == |s.images| && |s'.queue| <= |s.queue|
  {}

  /** The exit flag takes effect at a publication, and only there. */
  lemma StopsWithFlag(c: Config, s: State, a: Action)
    requires Enabled(c, s, a) && !s.main.Stopped?
    ensures Apply(c, s, a).main.Stopped? <==> a == Publish(true)
    ensures a.Publish? ==> Apply(c, s, a).published == |s.images| - 1
  {}

  // ----- who can step -----

  /** A step of pool thread w. */
  predicate OfThread(a: Action, w: nat) { (a.Take? || a.Write? || a.Arrive? || a.Return?) && a.w == w }

  /** Idle with nothing queued, or in a barrier that has not opened since the thread entered. */
  predicate HeldUp(s: State, v: Worker) {
    (v.Idle? && s.queue == []) || (v.Waiting? && v.generation == s.generation)
  }

  lemma ThreadCanStep(c: Config, s: State, w: nat) returns (a: Action)
    requires w < |s.workers| && ThreadOk(c, s, s.workers[w]) && !HeldUp(s, s.workers[w])
    ensures OfThread(a, w) && Enabled(c, s, a)
  {
    hide InTask;
    match s.workers[w]
    case Idle => a := Take(w);
    case Waiting(_, _) => a := Return(w);
    case Arriving(_) => a := Arrive(w);
    case _ => a := Write(w);
  }

  lemma ThreadHeldUp(c: Config, s: State, w: nat, a: Action)
    requires w < |s.workers| && HeldUp(s, s.workers[w]) && OfThread(a, w)
    ensures !Enabled(c, s, a)
  {}

  /** Whatever the others do, a pool thread is held up exactly while it is idle with nothing queued, or in a
      barrier that has not opened since it entered. */
  lemma ThreadBlockedIff(c: Config, s: State, w: nat)
    requires Large(c) && Reachable(c, s) && w < 16
    ensures |s.workers| == 16
    ensures (forall a :: OfThread(a, w) ==> !Enabled(c, s, a)) <==>
            (s.workers[w].Idle? && s.queue == []) || (s.workers[w].Waiting? && s.workers[w].generation == s.generation)
  {
    ReachableFlow(c, s);
    assert ThreadOk(c, s, s.workers[w]);
    hide Reachable, Generations, PostingOk, ThreadsOk, ThreadOk, Conserving, Counted, Enabled;
    if HeldUp(s, s.workers[w]) {
      forall a | OfThread(a, w)
        ensures !Enabled(c, s, a)
      {
        ThreadHeldUp(c, s, w, a);
      }
    } else {
      var a := ThreadCanStep(c, s, w);
    }
  }

  /** And the main thread exactly while it waits in a barrier that has not opened since it entered, and when it has
      stopped. At a publication it can go on or stop. */
  lemma MainBlockedIff(c: Config, s: State)
    requires Large(c) && Reachable(c, s)
    ensures (forall a :: OfMain(a) ==> !Enabled(c, s, a)) <==> s.main.Stopped? || s.main == MainWaiting(s.generation)
    ensures s.main.Publishing? ==> Enabled(c, s, Publish(true)) && Enabled(c, s, Publish(false))
  {
    ReachableFlow(c, s);
    hide ThreadsOk, Conserving, Counted;
    var step := match s.main
      case Starting => StartFrame
      case Posting(_, _) => Post
      case MainArriving => MainArrive
      case MainWaiting(_) => MainReturn
      case _ => Publish(false);
    assert OfMain(step);
    if s.main.Stopped? || s.main == MainWaiting(s.generation) {
      assert forall a :: OfMain(a) ==> !Enabled(c, s, a);
    } else {
      assert Enabled(c, s, step);
    }
  }

  /** No reachable state is stuck before the compositor stops. */
  lemma DeadlockFree(c: Config, s: State)
    requires Large(c) && Reachable(c, s) && !s.main.Stopped?
    ensures exists a :: Enabled(c, s, a)
  {
    ReachableFlow(c, s);
    var a := NeverStuck(c, s);
  }
}
