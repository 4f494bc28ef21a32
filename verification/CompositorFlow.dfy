/** The flow of tasks through the compositor for every image of at least four by four pixels: what is
    conserved between the posting loops, the queue, the pool threads and the barrier. */
module CompositorFlow {
  import opened Compositor
  import opened CompositorSafety
  import opened Pixels
  import opened Tiles

  predicate Large(c: Config) { c.width >= 4 && c.height >= 4 }

  function FrameTasks(c: Config): nat
    requires Large(c)
  {
    TaskCount(c.width, c.height)
  }

  // ----- the invariant -----

  /** Holds a task that the barrier has not yet let through in this generation. */
  predicate IsActive(v: Worker, g: nat) { Busy(v) && !(v.Waiting? && v.generation != g) }

  function Active(workers: seq<Worker>, g: nat): (n: nat)
    ensures n <= |workers|
  {
    if workers == [] then 0
    else Active(workers[..|workers| - 1], g) + (if IsActive(workers[|workers| - 1], g) then 1 else 0)
  }

  /** Tasks posted so far, over all frames. */
  function PostedSoFar(c: Config, s: State): nat
    requires Large(c)
  {
    if |s.images| <= 1 then 0
    else
      Steps(FrameTasks(c), |s.images| - 2)
      + (if s.main.Posting? then Steps(Count(c.height), s.main.i) + s.main.j else FrameTasks(c))
  }

  /** Every task posted is queued, held by a thread of the current generation, or one of the sixteen that
      each completed generation has let through. */
  ghost predicate Conserving(c: Config, s: State)
    requires Large(c)
  {
    PostedSoFar(c, s) == |s.queue| + Active(s.workers, s.generation) + 16 * s.generation
  }

  ghost predicate PostingOk(c: Config, s: State)
    requires Large(c)
  {
    s.main.Posting? ==>
      && |s.images| >= 2 && s.main.i <= Count(c.width) && s.main.j <= Count(c.height)
      && (s.main.i == Count(c.width) ==> s.main.j == 0)
  }

  predicate ThreadOk(c: Config, s: State, v: Worker) {
    match v
    case Idle => true
    case Collecting(t, x, y) => t.frame < |s.images| && InTask(c, t, x, y)
    case Overlaying(t, x, y) => t.frame < |s.images| && InTask(c, t, x, y)
    case Arriving(_) => true
    case Waiting(_, g) => g <= s.generation
  }

  ghost predicate ThreadsOk(c: Config, s: State) {
    && (forall q :: 0 <= q < |s.queue| ==> s.queue[q].frame < |s.images|)
    && (forall w :: 0 <= w < |s.workers| ==> ThreadOk(c, s, s.workers[w]))
  }

  ghost predicate Flow(c: Config, s: State)
    requires Large(c)
  {
    Generations(s) && PostingOk(c, s) && ThreadsOk(c, s) && Counted(s) && Conserving(c, s)
  }

  // ----- counting -----

  lemma {:induction false} ActiveUpdate(workers: seq<Worker>, w: nat, v: Worker, g: nat)
    requires w < |workers|
    ensures Active(workers[w := v], g) ==
            Active(workers, g) - (if IsActive(workers[w], g) then 1 else 0) + (if IsActive(v, g) then 1 else 0)
  {
    var last := |workers| - 1;
    if w == last {
      assert workers[w := v][..last] == workers[..last];
    } else {
      assert workers[w := v][..last] == workers[..last][w := v];
      ActiveUpdate(workers[..last], w, v, g);
    }
  }

  lemma {:induction false} ActiveAll(workers: seq<Worker>, g: nat)
    ensures Active(workers, g) == |workers| <==> forall w :: 0 <= w < |workers| ==> IsActive(workers[w], g)
    ensures Active(workers, g) == 0 <==> forall w :: 0 <= w < |workers| ==> !IsActive(workers[w], g)
  {
    if workers != [] {
      var last := |workers| - 1;
      ActiveAll(workers[..last], g);
      assert forall w :: 0 <= w < last ==> workers[..last][w] == workers[w];
    }
  }

  lemma EnoughTasks(c: Config)
    requires Large(c)
    ensures FrameTasks(c) >= 16
  {
    SixteenTasksIff(c.width, c.height);
    hide TaskCount;
  }

  // ----- every step -----

  lemma FlowInit(c: Config)
    requires Large(c)
    ensures Flow(c, Init())
  {
    WaitersAll(Init().workers, 0);
    ActiveAll(Init().workers, 0);
  }

  lemma FlowPost(c: Config, s: State)
    requires Large(c) && Flow(c, s) && Enabled(c, s, Post)
    ensures Flow(c, Apply(c, s, Post))
  {
    OriginBelowIff(c.width, s.main.i);
    OriginBelowIff(c.height, s.main.j);
    hide Origin, Count, Waiters, Active, InTask;
    var s' := Apply(c, s, Post);
    assert forall w :: 0 <= w < |s.workers| ==> ThreadOk(c, s, s.workers[w]);
  }

  lemma FlowStart(c: Config, s: State)
    requires Large(c) && Flow(c, s) && Enabled(c, s, StartFrame)
    ensures Flow(c, Apply(c, s, StartFrame))
  {
    hide Origin, Count, Waiters, Active, InTask, TaskCount;
    assert forall w :: 0 <= w < |s.workers| ==> ThreadOk(c, s, s.workers[w]);
  }

  /** When the last party arrives, all sixteen threads are in the barrier with a task each, and it lets
      exactly these sixteen tasks through. */
  lemma FlowRelease(c: Config, s: State)
    requires Large(c) && Generations(s) && ThreadsOk(c, s) && Conserving(c, s)
    requires s.main == MainWaiting(s.generation)
    requires forall w :: 0 <= w < |s.workers| ==> IsWaiter(s.workers[w], s.generation)
    ensures Flow(c, s.(missing := BARRIER_PARTIES, generation := s.generation + 1))
  {
    var s' := s.(missing := BARRIER_PARTIES, generation := s.generation + 1);
    WaitersAll(s.workers, s'.generation);
    ActiveAll(s.workers, s.generation);
    ActiveAll(s.workers, s'.generation);
    hide Origin, Count, Waiters, Active, InTask, TaskCount;
  }

  lemma FlowMainArrive(c: Config, s: State)
    requires Large(c) && Flow(c, s) && Enabled(c, s, MainArrive)
    ensures Flow(c, Apply(c, s, MainArrive))
  {
    hide Origin, Count, Waiters, Active, InTask, TaskCount;
    assert forall w :: 0 <= w < |s.workers| ==> ThreadOk(c, s, s.workers[w]);
    if s.missing == 1 {
      WaitersAll(s.workers, s.generation);
      FlowRelease(c, s.(main := MainWaiting(s.generation)));
    }
  }

  lemma FlowTake(c: Config, s: State, w: nat)
    requires Large(c) && Flow(c, s) && Enabled(c, s, Take(w))
    ensures Flow(c, Apply(c, s, Take(w)))
  {
    hide Origin, Count, Waiters, Active, TaskCount;
    var v := FirstPixel(c, s.queue[0]);
    WaitersUpdate(s.workers, w, v, s.generation);
    ActiveUpdate(s.workers, w, v, s.generation);
  }

  lemma FlowWrite(c: Config, s: State, w: nat)
    requires Large(c) && Flow(c, s) && Enabled(c, s, Write(w))
    ensures Flow(c, Apply(c, s, Write(w)))
  {
    assert ThreadOk(c, s, s.workers[w]);
    AdvanceInTile(c, s.workers[w]);
    hide Origin, Count, Waiters, Active, TaskCount, Advance, Written, InTask;
    var v := Advance(c, s.workers[w]);
    WaitersUpdate(s.workers, w, v, s.generation);
    ActiveUpdate(s.workers, w, v, s.generation);
  }

  lemma FlowArrive(c: Config, s: State, w: nat)
    requires Large(c) && Flow(c, s) && Enabled(c, s, Arrive(w))
    ensures Flow(c, Apply(c, s, Arrive(w)))
  {
    hide Origin, Count, Waiters, Active, TaskCount, InTask;
    var v := Waiting(s.workers[w].task, s.generation);
    WaitersUpdate(s.workers, w, v, s.generation);
    ActiveUpdate(s.workers, w, v, s.generation);
    if s.missing == 1 {
      WaitersAll(s.workers[w := v], s.generation);
      FlowRelease(c, s.(workers := s.workers[w := v]));
    }
  }

  lemma FlowReturn(c: Config, s: State, w: nat)
    requires Large(c) && Flow(c, s) && Enabled(c, s, Return(w))
    ensures Flow(c, Apply(c, s, Return(w)))
  {
    hide Origin, Count, Waiters, Active, TaskCount, InTask;
    WaitersUpdate(s.workers, w, Idle, s.generation);
    ActiveUpdate(s.workers, w, Idle, s.generation);
  }

  lemma FlowMain(c: Config, s: State, a: Action)
    requires Large(c) && Flow(c, s) && Enabled(c, s, a) && (a.MainReturn? || a.Publish?)
    ensures Flow(c, Apply(c, s, a))
  {
    hide Origin, Count, Waiters, Active, TaskCount, InTask;
    assert forall w :: 0 <= w < |s.workers| ==> ThreadOk(c, s, s.workers[w]);
  }

  /** Every step of every thread keeps the flow, whatever the size of the image. */
  lemma FlowStep(c: Config, s: State, a: Action)
    requires Large(c) && Flow(c, s) && Enabled(c, s, a)
    ensures Flow(c, Apply(c, s, a))
  {
    hide Flow, Apply;
    match a
    case StartFrame => FlowStart(c, s);
    case Post => FlowPost(c, s);
    case MainArrive => FlowMainArrive(c, s);
    case MainReturn => FlowMain(c, s, a);
    case Publish(_) => FlowMain(c, s, a);
    case Take(w) => FlowTake(c, s, w);
    case Write(w) => FlowWrite(c, s, w);
    case Arrive(w) => FlowArrive(c, s, w);
    case Return(w) => FlowReturn(c, s, w);
  }

  lemma {:induction false} FlowRun(c: Config, s: State, run: seq<Action>)
    requires Large(c) && Flow(c, s) && CanRun(c, s, run)
    ensures Flow(c, After(c, s, run))
    decreases run
  {
    hide Flow;
    if run != [] {
      FlowStep(c, s, run[0]);
      FlowRun(c, Apply(c, s, run[0]), run[1..]);
    }
  }

  lemma ReachableFlow(c: Config, s: State)
    requires Large(c) && Reachable(c, s)
    ensures Flow(c, s)
  {
    hide Flow;
    var run :| CanRun(c, Init(), run) && After(c, Init(), run) == s;
    FlowInit(c);
    FlowRun(c, Init(), run);
  }

  // ----- the backlog -----

  /** In every reachable state of every image of at least four by four, the tasks posted so far are those in
      the queue, those held in the current barrier generation, and sixteen for each generation before. */
  lemma TasksAreConserved(c: Config, s: State)
    requires Large(c) && Reachable(c, s)
    ensures PostedSoFar(c, s) == |s.queue| + Active(s.workers, s.generation) + 16 * s.generation
  {
    ReachableFlow(c, s);
  }

  lemma {:induction false} AboveSixteen(tasks: nat, frames: nat)
    requires tasks >= 16
    ensures Steps(tasks, frames) == 16 * frames + Steps(tasks - 16, frames)
  {
    if frames > 0 {
      AboveSixteen(tasks, frames - 1);
    }
  }

  lemma BacklogSteps(c: Config, s: State)
    requires Large(c) && Flow(c, s) && (s.main.Starting? || s.main.Stopped?)
    ensures FrameTasks(c) >= 16 && |s.workers| == POOL_THREADS
    ensures |s.queue| + Active(s.workers, s.generation) == Steps(FrameTasks(c) - 16, s.published)
  {
    EnoughTasks(c);
    hide TaskCount, Active;
    AboveSixteen(FrameTasks(c), s.published);
  }

  /** Between two frames, the tasks left over are as many for each published frame as a frame has above
      sixteen: none when both sides are multiples of four, and at least four otherwise. */
  lemma BacklogPerFrame(c: Config, s: State)
    requires Large(c) && Reachable(c, s) && (s.main.Starting? || s.main.Stopped?)
    ensures FrameTasks(c) >= 16 && Active(s.workers, s.generation) <= |s.workers| == POOL_THREADS
    ensures |s.queue| + Active(s.workers, s.generation) == (FrameTasks(c) - 16) * s.published
  {
    hide Flow, Reachable, FrameTasks;
    ReachableFlow(c, s);
    BacklogSteps(c, s);
    StepsIsProduct(FrameTasks(c) - 16, s.published);
  }
}
