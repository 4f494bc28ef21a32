/** What the backlog does to the pictures: tasks are taken in the order they were posted, so frames whose
    tasks lie too far back in the queue are published before any of their pixels is written. */
module CompositorBlank {
  import opened Compositor
  import opened CompositorFlow
  import opened CompositorSafety
  import opened Pixels
  import opened Tiles

  /** Tasks posted before those of frame k. */
  function FirstOf(c: Config, k: nat): nat
    requires Large(c) && k >= 1
  {
    Steps(FrameTasks(c), k - 1)
  }

  /** The place of a task in the posting order of all frames. */
  function Place(c: Config, t: Task): nat
    requires Large(c) && t.frame >= 1
  {
    FirstOf(c, t.frame) + Steps(Count(c.height), t.i) + t.j
  }

  /** Tasks taken from the queue so far. */
  function Taken(c: Config, s: State): int
    requires Large(c)
  {
    PostedSoFar(c, s) - |s.queue|
  }

  ghost predicate QueueInOrder(c: Config, s: State)
    requires Large(c)
  {
    forall q :: 0 <= q < |s.queue| ==> s.queue[q].frame >= 1 && Place(c, s.queue[q]) == Taken(c, s) + q
  }

  ghost predicate HeldAreTaken(c: Config, s: State)
    requires Large(c)
  {
    forall w :: 0 <= w < |s.workers| && Busy(s.workers[w]) ==>
      s.workers[w].task.frame >= 1 && Place(c, s.workers[w].task) < Taken(c, s)
  }

  /** A frame with no task taken is still blank. */
  ghost predicate UntouchedAreBlank(c: Config, s: State)
    requires Large(c)
  {
    forall k :: 1 <= k < |s.images| && FirstOf(c, k) >= Taken(c, s) ==> s.images[k] == map[]
  }

  ghost predicate InOrder(c: Config, s: State)
    requires Large(c)
  {
    QueueInOrder(c, s) && HeldAreTaken(c, s) && UntouchedAreBlank(c, s)
  }

  /** Only a posted task changes the number posted so far, and it is posted at the next place. */
  lemma PostedStep(c: Config, s: State, a: Action)
    requires Large(c) && Flow(c, s) && Enabled(c, s, a) && !a.Post?
    ensures PostedSoFar(c, Apply(c, s, a)) == PostedSoFar(c, s)
  {
    hide Count, TaskCount, Active, Waiters, ThreadsOk;
  }

  lemma PostedNextPlace(c: Config, s: State)
    requires Large(c) && Flow(c, s) && Enabled(c, s, Post)
    ensures var s' := Apply(c, s, Post);
            && s'.workers == s.workers && s'.images == s.images
            && ((s'.queue == s.queue && PostedSoFar(c, s') == PostedSoFar(c, s))
                || (exists t: Task :: t.frame >= 1 && s'.queue == s.queue + [t] && Place(c, t) == PostedSoFar(c, s)
                                   && PostedSoFar(c, s') == PostedSoFar(c, s) + 1))
  {
    OriginBelowIff(c.width, s.main.i);
    OriginBelowIff(c.height, s.main.j);
    hide Origin, Count, Active, Waiters, ThreadsOk;
    var t := Task(|s.images| - 1, s.main.i, s.main.j);
    assert Place(c, t) == PostedSoFar(c, s);
  }

  lemma InOrderPost(c: Config, s: State)
    requires Large(c) && Flow(c, s) && InOrder(c, s) && Enabled(c, s, Post)
    ensures InOrder(c, Apply(c, s, Post))
  {
    PostedNextPlace(c, s);
    hide Apply, Flow, PostedSoFar, Place, FirstOf;
  }

  lemma InOrderTake(c: Config, s: State, w: nat)
    requires Large(c) && Flow(c, s) && InOrder(c, s) && Enabled(c, s, Take(w))
    ensures InOrder(c, Apply(c, s, Take(w)))
  {
    PostedStep(c, s, Take(w));
    hide Flow, PostedSoFar, Place, FirstOf, EmptyTile;
    var s' := Apply(c, s, Take(w));
    assert forall q :: 0 <= q < |s'.queue| ==> s'.queue[q] == s.queue[q + 1];
  }

  lemma InOrderWrite(c: Config, s: State, w: nat)
    requires Large(c) && Flow(c, s) && InOrder(c, s) && Enabled(c, s, Write(w))
    ensures InOrder(c, Apply(c, s, Write(w)))
  {
    PostedStep(c, s, Write(w));
    hide Flow, PostedSoFar, NextPixel, Written;
    assert FirstOf(c, s.workers[w].task.frame) < Taken(c, s);
    hide Place, FirstOf;
  }

  lemma InOrderOther(c: Config, s: State, a: Action)
    requires Large(c) && Flow(c, s) && InOrder(c, s) && Enabled(c, s, a) && !a.Post? && !a.Take? && !a.Write?
    ensures InOrder(c, Apply(c, s, a))
  {
    PostedStep(c, s, a);
    hide Flow, PostedSoFar, Place, FirstOf;
  }

  lemma InOrderStep(c: Config, s: State, a: Action)
    requires Large(c) && Flow(c, s) && InOrder(c, s) && Enabled(c, s, a)
    ensures InOrder(c, Apply(c, s, a))
  {
    hide Flow, InOrder, Apply;
    match a
    case Post => InOrderPost(c, s);
    case Take(w) => InOrderTake(c, s, w);
    case Write(w) => InOrderWrite(c, s, w);
    case _ => InOrderOther(c, s, a);
  }

  lemma {:induction false} InOrderRun(c: Config, s: State, run: seq<Action>)
    requires Large(c) && Flow(c, s) && InOrder(c, s) && CanRun(c, s, run)
    ensures InOrder(c, After(c, s, run))
    decreases run
  {
    hide Flow, InOrder;
    if run != [] {
      FlowStep(c, s, run[0]);
      InOrderStep(c, s, run[0]);
      InOrderRun(c, Apply(c, s, run[0]), run[1..]);
    }
  }

  /** In every reachable state the tasks are queued in posting order, all tasks held come before them, and a
      frame none of whose tasks has been taken is blank. */
  lemma ReachableInOrder(c: Config, s: State)
    requires Large(c) && Reachable(c, s)
    ensures InOrder(c, s)
  {
    var run :| CanRun(c, Init(), run) && After(c, Init(), run) == s;
    FlowInit(c);
    hide Flow;
    InOrderRun(c, Init(), run);
  }

  /** In every run a frame is published blank, without a single pixel written, if at least sixteen tasks for it
      and each frame before were posted before its own. */
  lemma PublishedBlank(c: Config, s: State)
    requires Large(c) && Reachable(c, s) && s.main.Publishing?
    requires |s.images| >= 2 && FirstOf(c, |s.images| - 1) >= 16 * |s.images|
    ensures s.images[|s.images| - 1] == map[]
  {
    ReachableInOrder(c, s);
    TasksAreConserved(c, s);
    ReachableFlow(c, s);
    hide FirstOf, PostedSoFar, Active, Waiters, Reachable, QueueInOrder, HeldAreTaken, ThreadsOk, Counted;
  }

  /** So with sides of at least four that are not both multiples of four, every run publishes nothing but blank
      frames from the ninth on. */
  lemma NinthFrameOnBlank(c: Config, s: State)
    requires Large(c) && !(c.width % 4 == 0 && c.height % 4 == 0)
    requires Reachable(c, s) && s.main.Publishing? && |s.images| - 1 >= 9
    ensures s.images[|s.images| - 1] == map[]
  {
    hide Reachable, InOrder, FrameTasks;
    AtLeastTwenty(c, |s.images| - 1);
    PublishedBlank(c, s);
  }

  lemma AtLeastTwenty(c: Config, k: nat)
    requires Large(c) && !(c.width % 4 == 0 && c.height % 4 == 0) && k >= 1
    ensures FirstOf(c, k) >= 20 * (k - 1)
  {
    SixteenTasksIff(c.width, c.height);
    hide TaskCount;
    TwentyEach(FrameTasks(c), k - 1);
  }

  lemma {:induction false} TwentyEach(tasks: nat, frames: nat)
    requires tasks >= 20
    ensures Steps(tasks, frames) >= 20 * frames
  {
    if frames > 0 {
      TwentyEach(tasks, frames - 1);
    }
  }
}
