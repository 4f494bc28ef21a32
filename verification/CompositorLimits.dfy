/** The compositor for every image size: exactly which sizes it publishes only complete frames for. */
module CompositorLimits {
  import opened Compositor
  import opened CompositorFlow
  import opened CompositorProgress
  import opened CompositorSafety
  import opened Pixels
  import opened Tiles
  import opened Words

  ghost predicate Leads(c: Config, s: State, s': State) {
    exists run :: CanRun(c, s, run) && After(c, s, run) == s'
  }

  lemma LeadsStep(c: Config, s: State, a: Action, s': State)
    requires Enabled(c, s, a) && Leads(c, Apply(c, s, a), s')
    ensures Leads(c, s, s')
  {
    var run :| CanRun(c, Apply(c, s, a), run) && After(c, Apply(c, s, a), run) == s';
    assert ([a] + run)[1..] == run;
    assert CanRun(c, s, [a] + run);
  }

  lemma LeadsTrivially(c: Config, s: State)
    ensures Leads(c, s, s)
  {
    assert CanRun(c, s, []);
  }

  lemma LeadsTransitive(c: Config, s: State, s': State, s'': State)
    requires Leads(c, s, s') && Leads(c, s', s'')
    ensures Leads(c, s, s'')
  {
    var run :| CanRun(c, s, run) && After(c, s, run) == s';
    var more :| CanRun(c, s', more) && After(c, s', more) == s'';
    RunConcat(c, s, run, more);
  }

  // ----- sizes of at least four that are not both multiples of four -----

  /** The posting loops can run to their end before any pool thread takes a task. */
  lemma PostAll(c: Config, s: State) returns (queue: seq<Task>)
    requires c.width >= 4 && c.height >= 4
    requires s.main.Posting? && |s.images| > 0
    requires s.main.i <= Count(c.width) && s.main.j <= Count(c.height) && (s.main.i == Count(c.width) ==> s.main.j == 0)
    ensures Leads(c, s, s.(main := MainArriving, queue := queue))
    ensures s.queue <= queue
    ensures |queue| + s.main.j == |s.queue| + Steps(Count(c.height), Count(c.width) - s.main.i)
    ensures forall q :: |s.queue| <= q < |queue| ==> queue[q].frame == |s.images| - 1 && !EmptyTile(c, queue[q])
    decreases Count(c.width) - s.main.i, Count(c.height) - s.main.j
  {
    var Posting(i, j) := s.main;
    OriginBelowIff(c.width, i);
    OriginBelowIff(c.height, j);
    var s1 := Apply(c, s, Post);
    if i == Count(c.width) {
      queue := s.queue;
      LeadsTrivially(c, s1);
      assert s1 == s.(main := MainArriving, queue := queue);
    } else {
      hide Origin, Leads;
      queue := PostAll(c, s1);
      assert s1.(main := MainArriving, queue := queue) == s.(main := MainArriving, queue := queue);
    }
    LeadsStep(c, s, Post, s.(main := MainArriving, queue := queue));
  }

  /** A thread can run its task to the barrier while everything else stands still. */
  lemma FinishTask(c: Config, s: State, w: nat) returns (images: seq<Picture>)
    requires w < |s.workers|
    requires var v := s.workers[w];
             && (v.Collecting? || v.Overlaying? || v.Arriving?) && v.task.frame < |s.images|
             && (v.Arriving? || InTask(c, v.task, v.x, v.y))
    ensures |images| == |s.images|
    ensures Leads(c, s, s.(workers := s.workers[w := Arriving(s.workers[w].task)], images := images))
    decreases WorkerRank(c, s.workers[w])
  {
    hide Leads, InTask, WorkerRank, Written;
    var v := s.workers[w];
    if v.Arriving? {
      images := s.images;
      LeadsTrivially(c, s);
      assert s == s.(workers := s.workers[w := Arriving(v.task)], images := images);
    } else {
      AdvanceInTile(c, v);
      WriteRank(c, v);
      hide Advance;
      var s1 := Apply(c, s, Write(w));
      images := FinishTask(c, s1, w);
      var s2 := s.(workers := s.workers[w := Arriving(v.task)], images := images);
      assert s1.workers[w := Arriving(v.task)] == s.workers[w := Arriving(v.task)];
      assert s1.(workers := s1.workers[w := Arriving(v.task)], images := images) == s2;
      LeadsStep(c, s, Write(w), s2);
    }
  }

  /** Thread w takes the first queued task and runs it into the barrier without releasing it. */
  lemma ServeOne(c: Config, s: State, w: nat) returns (s': State)
    requires w < |s.workers| && s.workers[w].Idle? && s.queue != [] && s.missing > 1
    requires s.queue[0].frame < |s.images|
    ensures Leads(c, s, s')
    ensures s'.main == s.main && s'.generation == s.generation && s'.published == s.published
    ensures |s'.images| == |s.images| && s'.queue == s.queue[1..] && s'.missing == s.missing - 1
    ensures |s'.workers| == |s.workers| && IsWaiter(s'.workers[w], s.generation)
    ensures forall u :: 0 <= u < |s.workers| && u != w ==> s'.workers[u] == s.workers[u]
  {
    hide Leads;
    var s1 := Apply(c, s, Take(w));
    var images := FinishTask(c, s1, w);
    var t := s.queue[0];
    var s2 := s1.(workers := s1.workers[w := Arriving(t)], images := images);
    s' := Apply(c, s2, Arrive(w));
    LeadsTrivially(c, s');
    LeadsStep(c, s2, Arrive(w), s');
    LeadsTransitive(c, s1, s2, s');
    LeadsStep(c, s, Take(w), s');
  }

  /** All threads from w on serve one task each; one party is then missing. */
  lemma ServeRest(c: Config, s: State, w: nat) returns (s': State)
    requires |s.workers| == POOL_THREADS && w <= POOL_THREADS
    requires forall u :: w <= u < POOL_THREADS ==> s.workers[u].Idle?
    requires |s.queue| >= POOL_THREADS - w && s.missing == BARRIER_PARTIES - w
    requires forall q :: 0 <= q < |s.queue| ==> s.queue[q].frame < |s.images|
    ensures Leads(c, s, s')
    ensures s'.main == s.main && s'.generation == s.generation && s'.published == s.published
    ensures |s'.images| == |s.images| && s'.queue == s.queue[POOL_THREADS - w..] && s'.missing == 1
    ensures |s'.workers| == |s.workers| && forall u :: 0 <= u < w ==> s'.workers[u] == s.workers[u]
    ensures w < POOL_THREADS ==> IsWaiter(s'.workers[w], s.generation)
    decreases POOL_THREADS - w
  {
    hide Leads;
    if w == POOL_THREADS {
      s' := s;
      LeadsTrivially(c, s);
    } else {
      var s1 := ServeOne(c, s, w);
      s' := ServeRest(c, s1, w + 1);
      LeadsTransitive(c, s, s1, s');
    }
  }

  /** With more than sixteen tasks the barrier opens after the first sixteen: the first frame can be
      published while tasks of it have not even started. */
  lemma PublishesTooEarly(c: Config) returns (s: State)
    requires c.width >= 4 && c.height >= 4 && !(c.width % 4 == 0 && c.height % 4 == 0)
    ensures Reachable(c, s) && s.published == 1 && |s.images| == 2 && |s.queue| >= 4
    ensures s.queue[0].frame == 1 && !EmptyTile(c, s.queue[0])
    ensures |s.workers| == POOL_THREADS && s.workers[0].Waiting? && s.workers[0].generation != s.generation
    ensures !PublishedComplete(s)
  {
    hide Leads, EmptyTile;
    SixteenTasksIff(c.width, c.height);
    var s1 := Apply(c, Init(), StartFrame);
    var queue := PostAll(c, s1);
    var s2 := s1.(main := MainArriving, queue := queue);
    var s3 := ServeRest(c, s2, 0);
    var s4 := Apply(c, s3, MainArrive);
    var s5 := Apply(c, s4, MainReturn);
    s := Apply(c, s5, Publish(false));
    LeadsTrivially(c, s);
    LeadsStep(c, s5, Publish(false), s);
    LeadsStep(c, s4, MainReturn, s);
    LeadsStep(c, s3, MainArrive, s);
    LeadsTransitive(c, s2, s3, s);
    LeadsTransitive(c, s1, s2, s);
    LeadsStep(c, Init(), StartFrame, s);
    LeadsIsReachable(c, s);
  }

  /** And a thread can then come back for such a task and write to the image already published. */
  lemma WritesAfterPublishing(c: Config) returns (s: State, w: nat)
    requires c.width >= 4 && c.height >= 4 && !(c.width % 4 == 0 && c.height % 4 == 0)
    ensures Reachable(c, s) && Enabled(c, s, Write(w)) && s.workers[w].task.frame == s.published == 1
  {
    w := 0;
    var s0 := PublishesTooEarly(c);
    var s1 := Apply(c, s0, Return(0));
    s := Apply(c, s1, Take(0));
    var run :| CanRun(c, Init(), run) && After(c, Init(), run) == s0;
    LeadsTrivially(c, s);
    LeadsStep(c, s1, Take(0), s);
    LeadsStep(c, s0, Return(0), s);
    assert Leads(c, Init(), s0);
    LeadsTransitive(c, Init(), s0, s);
    LeadsIsReachable(c, s);
  }

  lemma LeadsIsReachable(c: Config, s: State)
    requires Leads(c, Init(), s)
    ensures Reachable(c, s)
  {}

  // ----- the backlog of tasks -----

  /** Any number of frames can be published one after the other. */
  lemma PublishMany(c: Config, n: nat) returns (s: State)
    requires Large(c)
    ensures Reachable(c, s) && s.main.Starting? && s.published == n
  {
    hide Leads, Flow;
    if n == 0 {
      s := Init();
      LeadsTrivially(c, s);
    } else {
      var s0 := PublishMany(c, n - 1);
      ReachableFlow(c, s0);
      FlowStep(c, s0, StartFrame);
      var s1 := Apply(c, s0, StartFrame);
      BetweenFrames(c, s0);
      var run := CanPublish(c, s1, false);
      s := After(c, s1, run);
      LeadsBy(c, s1, run);
      LeadsStep(c, s0, StartFrame, s);
      ReachableLeads(c, s0);
      LeadsTransitive(c, Init(), s0, s);
    }
    LeadsIsReachable(c, s);
  }

  lemma BetweenFrames(c: Config, s: State)
    requires Large(c) && Flow(c, s) && s.main.Starting?
    ensures |s.images| == s.published + 1
  {}

  lemma LeadsBy(c: Config, s: State, run: seq<Action>)
    requires CanRun(c, s, run)
    ensures Leads(c, s, After(c, s, run))
  {}

  lemma ReachableLeads(c: Config, s: State)
    requires Reachable(c, s)
    ensures Leads(c, Init(), s)
  {}

  /** For all sides of at least four, the queue of the pool stays below some bound exactly when both sides are
      multiples of four: then it never holds more than one frame's sixteen tasks, and otherwise more and
      more tasks are left over from the frames already published. */
  lemma BacklogBoundedIff(c: Config)
    requires Large(c)
    ensures (exists bound: nat :: QueueBelow(c, bound)) <==> c.width % 4 == 0 && c.height % 4 == 0
    ensures c.width % 4 == 0 && c.height % 4 == 0 ==> QueueBelow(c, 16)
  {
    hide QueueBelow, Reachable, FrameTasks;
    SixteenTasksIff(c.width, c.height);
    if c.width % 4 == 0 && c.height % 4 == 0 {
      QuarteredQueue(c);
    } else if bound: nat :| QueueBelow(c, bound) {
      var s := PublishMany(c, bound + 5);
      BacklogPerFrame(c, s);
      LeftOver(c, s.published);
      BelowBound(c, s, bound);
    }
  }

  /** No reachable state has more than this many tasks in the queue. */
  ghost predicate QueueBelow(c: Config, bound: nat) { forall s :: Reachable(c, s) ==> |s.queue| <= bound }

  lemma BelowBound(c: Config, s: State, bound: nat)
    requires QueueBelow(c, bound) && Reachable(c, s)
    ensures |s.queue| <= bound
  {}

  lemma LeftOver(c: Config, frames: nat)
    requires Large(c) && !(c.width % 4 == 0 && c.height % 4 == 0)
    ensures (FrameTasks(c) - 16) * frames >= 4 * frames
  {
    SixteenTasksIff(c.width, c.height);
    hide TaskCount;
    MulMonotone(4, FrameTasks(c) - 16, frames);
  }

  lemma QuarteredQueue(c: Config)
    requires Quartered(c)
    ensures QueueBelow(c, 16)
  {
    SixteenTasksIff(c.width, c.height);
    forall s | Reachable(c, s)
      ensures |s.queue| <= 16
    {
      ReachableFlow(c, s);
      PostedOfQuarters(c, s);
    }
  }

  lemma PostedOfQuarters(c: Config, s: State)
    requires Quartered(c) && Flow(c, s)
    ensures PostedSoFar(c, s) <= 16 * s.generation + 16
  {
    SixteenTasksIff(c.width, c.height);
    AxisCount(c.width);
    AxisCount(c.height);
    hide TaskCount, Count, Active, Waiters, ThreadsOk;
    if |s.images| > 1 {
      AboveSixteen(16, |s.images| - 2);
      NoSteps(|s.images| - 2);
      if s.main.Posting? {
        StepsIsProduct(4, s.main.i);
      }
    }
  }

  // ----- sides below four -----

  predicate Tiny(c: Config) { c.width < 4 || c.height < 4 }

  predicate AllIdle(s: State) { s.queue == [] && forall w :: 0 <= w < |s.workers| ==> s.workers[w].Idle? }

  ghost predicate TinyInv(c: Config, s: State) {
    && |s.workers| == POOL_THREADS && |s.images| >= 1 && s.generation == 0 && s.published == 0
    && (s.main.Starting? || s.main.Posting? || s.main.MainArriving? || s.main == MainWaiting(0))
    && s.missing == BARRIER_PARTIES - Waiters(s.workers, 0) - (if s.main.MainWaiting? then 1 else 0)
    && (!s.main.Posting? || c.width == 0 || c.height == 0 ==> AllIdle(s))
    && (s.main.Starting? ==> |s.images| == 1)
    && (s.main.Posting? ==> |s.images| == 2)
    && (s.main.Posting? && 0 < c.height < 4 && c.width >= 4 ==> s.main.i == 0)
    && (forall q :: 0 <= q < |s.queue| ==> s.queue[q].frame == 1)
    && (forall w :: 0 <= w < |s.workers| && Busy(s.workers[w]) ==> s.workers[w].task.frame == 1)
    && (forall w :: 0 <= w < |s.workers| && s.workers[w].Waiting? ==> s.workers[w].generation == 0)
  }

  lemma {:induction false} NoSteps(n: nat)
    ensures Steps(0, n) == 0
  {
    if n > 0 {
      NoSteps(n - 1);
    }
  }

  /** A pool thread moves on without opening the barrier. */
  lemma TinyThread(c: Config, s: State, w: nat, v: Worker)
    requires Tiny(c) && TinyInv(c, s) && w < |s.workers| && !AllIdle(s)
    requires Busy(v) && v.task.frame == 1 && (v.Waiting? ==> v.generation == 0)
    ensures var waits := (if IsWaiter(v, 0) then 1 else 0) - (if IsWaiter(s.workers[w], 0) then 1 else 0);
            && TinyInv(c, s.(workers := s.workers[w := v], missing := s.missing - waits))
            && (!IsWaiter(s.workers[w], 0) ==> s.missing > 1)
  {
    WaitersUpdate(s.workers, w, v, 0);
    WaitersAll(s.workers, 0);
    hide Waiters;
  }

  lemma TinyStep(c: Config, s: State, a: Action)
    requires Tiny(c) && TinyInv(c, s) && Enabled(c, s, a)
    ensures TinyInv(c, Apply(c, s, a))
  {
    hide EmptyTile, NextPixel, Written;
    match a
    case StartFrame =>
    case Post =>
      NoSteps(s.main.i);
      NoSteps(s.main.j);
    case MainArrive => WaitersAll(s.workers, 0);
    case Take(w) =>
      TinyThread(c, s, w, FirstPixel(c, s.queue[0]));
      assert TinyInv(c, s.(workers := s.workers[w := FirstPixel(c, s.queue[0])]));
    case Write(w) =>
      TinyThread(c, s, w, Advance(c, s.workers[w]));
      hide Waiters;
    case Arrive(w) => TinyThread(c, s, w, Waiting(s.workers[w].task, s.generation));
    case Return(w) =>
  }

  lemma {:induction false} TinyRun(c: Config, s: State, run: seq<Action>)
    requires Tiny(c) && TinyInv(c, s) && CanRun(c, s, run)
    ensures TinyInv(c, After(c, s, run))
    decreases run
  {
    if run != [] {
      TinyStep(c, s, run[0]);
      TinyRun(c, Apply(c, s, run[0]), run[1..]);
    }
  }

  /** One of the posting loops steps by zero, from inside the image. */
  predicate PostsForever(c: Config) { 0 < c.width < 4 || (c.width >= 4 && 0 < c.height < 4) }

  /** With a side below four no frame is ever published: for widths 1 to 3, and for heights 1 to 3 with a
      greater width, the main thread never leaves the posting loops; otherwise the image has no pixels and
      no task exists that could open the barrier. */
  lemma TinyNeverPublishes(c: Config, s: State)
    requires Tiny(c) && Reachable(c, s)
    ensures s.published == 0 && !s.main.Publishing? && !s.main.Stopped?
    ensures PostsForever(c) ==> s.main.Starting? || s.main.Posting?
    ensures PublishedComplete(s)
  {
    WaitersAll(Init().workers, 0);
    var run :| CanRun(c, Init(), run) && After(c, Init(), run) == s;
    TinyRun(c, Init(), run);
    if PostsForever(c) {
      TinyLoops(c, Init(), run);
    }
  }

  lemma {:induction false} TinyLoops(c: Config, s: State, run: seq<Action>)
    requires PostsForever(c) && TinyInv(c, s) && CanRun(c, s, run) && (s.main.Starting? || s.main.Posting?)
    ensures After(c, s, run).main.Starting? || After(c, s, run).main.Posting?
    decreases run
  {
    if run != [] {
      if s.main.Posting? {
        NoSteps(s.main.i);
      }
      TinyStep(c, s, run[0]);
      TinyLoops(c, Apply(c, s, run[0]), run[1..]);
    }
  }

  // ----- the exact condition -----

  /** The compositor never publishes an unfinished frame, and no task writes to a published one,
      exactly when both sides are multiples of four or some side is below four, in which case it
      never publishes any frame. */
  lemma PublishSafetyIff(c: Config)
    ensures (forall s :: Reachable(c, s) ==> PublishedComplete(s)) <==>
            (c.width % 4 == 0 && c.height % 4 == 0) || c.width < 4 || c.height < 4
  {
    if Tiny(c) {
      forall s | Reachable(c, s)
        ensures PublishedComplete(s)
      {
        TinyNeverPublishes(c, s);
      }
    } else if c.width % 4 == 0 && c.height % 4 == 0 {
      forall s | Reachable(c, s)
        ensures PublishedComplete(s)
      {
        PublishedTasksFinished(c, s);
      }
    } else {
      var s := PublishesTooEarly(c);
    }
  }
}
