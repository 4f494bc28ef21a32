/** Safety of the compositor when both sides of the image are multiples of four: an invariant of all
    reachable states that spans barrier generations. */
module CompositorSafety {
  import opened Compositor
  import opened Pixels
  import opened Tiles

  /** Both sides are multiples of four, so a frame has sixteen tasks. */
  predicate Quartered(c: Config) {
    c.width >= 4 && c.width % 4 == 0 && c.height >= 4 && c.height % 4 == 0
  }

  // ----- the invariant -----

  /** The frame being built, or built last. */
  function Frame(s: State): int { |s.images| - 1 }

  /** The current frame still waits for its barrier. */
  predicate Open(s: State) {
    s.main.Posting? || s.main.MainArriving? || (s.main.MainWaiting? && s.main.generation == s.generation)
  }

  /** Tile (i, j) of the current frame has been posted. */
  predicate IsPosted(s: State, i: nat, j: nat) {
    i < 4 && j < 4 && (s.main.Posting? ==> i < s.main.i || (i == s.main.i && j < s.main.j))
  }

  /** How frames, barrier generations and publications advance together. */
  ghost predicate Generations(s: State) {
    && |s.workers| == POOL_THREADS && |s.images| >= 1
    && Frame(s) == (if Open(s) then s.generation + 1 else s.generation)
    && (s.main.MainWaiting? ==> s.main.generation + 1 == Frame(s))
    && s.published == (if s.main.Starting? || s.main.Stopped? then Frame(s) else Frame(s) - 1)
  }

  ghost predicate Phases(s: State) {
    && Generations(s)
    && (s.main.Posting? ==> s.main.i <= 4 && s.main.j <= 4 && (s.main.i == 4 ==> s.main.j == 0))
  }

  /** A task of the current generation, posted and not yet past the barrier. */
  predicate Live(s: State, t: Task) {
    Open(s) && t.frame == s.generation + 1 && IsPosted(s, t.i, t.j)
  }

  predicate Busy(v: Worker) { !v.Idle? }

  predicate WorkerOk(c: Config, s: State, v: Worker) {
    match v
    case Idle => true
    case Collecting(t, x, y) => Live(s, t) && InTask(c, t, x, y)
    case Overlaying(t, x, y) => Live(s, t) && InTask(c, t, x, y)
    case Arriving(t) => Live(s, t)
    case Waiting(t, g) => t.frame == g + 1 && g <= s.generation && (g == s.generation ==> Live(s, t))
  }

  ghost predicate TasksOk(c: Config, s: State) {
    && (forall q :: 0 <= q < |s.queue| ==> Live(s, s.queue[q]))
    && (forall w :: 0 <= w < |s.workers| ==> WorkerOk(c, s, s.workers[w]))
  }

  /** No task is held twice. */
  ghost predicate Distinct(s: State) {
    && (forall p, q :: 0 <= p < q < |s.queue| ==> s.queue[p] != s.queue[q])
    && (forall v, w :: 0 <= v < w < |s.workers| && Busy(s.workers[v]) && Busy(s.workers[w]) ==>
          s.workers[v].task != s.workers[w].task)
    && (forall q, w :: 0 <= q < |s.queue| && 0 <= w < |s.workers| && Busy(s.workers[w]) ==>
          s.queue[q] != s.workers[w].task)
  }

  ghost predicate Held(s: State, t: Task) {
    || (exists q :: 0 <= q < |s.queue| && s.queue[q] == t)
    || (exists w :: 0 <= w < |s.workers| && Busy(s.workers[w]) && s.workers[w].task == t)
  }

  /** Every posted task of the open frame is queued or held by a thread. */
  ghost predicate Covered(s: State) {
    Open(s) ==> forall i: nat, j: nat :: IsPosted(s, i, j) ==> Held(s, Task(s.generation + 1, i, j))
  }

  function Waiters(workers: seq<Worker>, g: nat): (n: nat)
    ensures n <= |workers|
  {
    if workers == [] then 0
    else Waiters(workers[..|workers| - 1], g) + (if IsWaiter(workers[|workers| - 1], g) then 1 else 0)
  }

  predicate IsWaiter(v: Worker, g: nat) { v.Waiting? && v.generation == g }

  function Holders(workers: seq<Worker>, frame: nat): (n: nat)
    ensures n <= |workers|
  {
    if workers == [] then 0
    else Holders(workers[..|workers| - 1], frame) + (if IsHolder(workers[|workers| - 1], frame) then 1 else 0)
  }

  predicate IsHolder(v: Worker, frame: nat) { Busy(v) && v.task.frame == frame }

  function PostedCount(s: State): int {
    if s.main.Posting? then 4 * s.main.i + s.main.j else 16
  }

  ghost predicate Conserved(s: State) {
    Open(s) ==> |s.queue| + Holders(s.workers, s.generation + 1) == PostedCount(s)
  }

  /** The barrier misses exactly the parties that have not entered it in this generation. */
  ghost predicate Counted(s: State) {
    && 1 <= s.missing
    && s.missing == BARRIER_PARTIES - Waiters(s.workers, s.generation)
                    - (if s.main.MainWaiting? && s.main.generation == s.generation then 1 else 0)
  }

  /** How far the pixels of a worker's tile are. */
  predicate PixelOk(c: Config, v: Worker, picture: Picture, x: nat, y: nat)
    requires Busy(v)
  {
    match v
    case Collecting(t, x', y') => y < y' || (y == y' && x < x') ==> At(picture, x, y) == Collected(c, t, x, y)
    case Overlaying(t, x', y') =>
      At(picture, x, y) == if y < y' || (y == y' && x < x') then Composited(c, t, x, y) else Collected(c, t, x, y)
    case Arriving(t) => At(picture, x, y) == Composited(c, t, x, y)
    case Waiting(t, _) => At(picture, x, y) == Composited(c, t, x, y)
  }

  ghost predicate TileOk(c: Config, v: Worker, picture: Picture)
    requires Busy(v)
  {
    forall x, y :: InTask(c, v.task, x, y) ==> PixelOk(c, v, picture, x, y)
  }

  /** Pixel (x, y) of frame k as one collector pass and one overlay pass make it. */
  function FramePixel(c: Config, k: nat, x: nat, y: nat): Rgb
    requires c.width >= 4 && c.height >= 4
  {
    Composited(c, Task(k, TileOf(c.width, x), TileOf(c.height, y)), x, y)
  }

  ghost predicate Complete(c: Config, k: nat, picture: Picture)
    requires c.width >= 4 && c.height >= 4
  {
    forall x, y :: 0 <= x < c.width && 0 <= y < c.height ==> At(picture, x, y) == FramePixel(c, k, x, y)
  }

  ghost predicate PicturesOk(c: Config, s: State)
    requires c.width >= 4 && c.height >= 4
  {
    && (forall w ::
          0 <= w < |s.workers| && IsHolder(s.workers[w], s.generation + 1) && s.generation + 1 < |s.images| ==>
          TileOk(c, s.workers[w], s.images[s.generation + 1]))
    && (forall k :: 1 <= k <= s.generation && k < |s.images| ==> Complete(c, k, s.images[k]))
  }

  ghost predicate Consistent(c: Config, s: State)
    requires Quartered(c)
  {
    Phases(s) && TasksOk(c, s) && Distinct(s) && Covered(s) && Conserved(s) && PicturesOk(c, s)
  }

  ghost predicate Inv(c: Config, s: State)
    requires Quartered(c)
  {
    Consistent(c, s) && Counted(s)
  }

  // ----- counting threads -----

  lemma {:induction false} WaitersUpdate(workers: seq<Worker>, w: nat, v: Worker, g: nat)
    requires w < |workers|
    ensures Waiters(workers[w := v], g) ==
            Waiters(workers, g) - (if IsWaiter(workers[w], g) then 1 else 0) + (if IsWaiter(v, g) then 1 else 0)
  {
    var last := |workers| - 1;
    if w == last {
      assert workers[w := v][..last] == workers[..last];
    } else {
      assert workers[w := v][..last] == workers[..last][w := v];
      WaitersUpdate(workers[..last], w, v, g);
    }
  }

  lemma {:induction false} HoldersUpdate(workers: seq<Worker>, w: nat, v: Worker, frame: nat)
    requires w < |workers|
    ensures Holders(workers[w := v], frame) ==
            Holders(workers, frame) - (if IsHolder(workers[w], frame) then 1 else 0)
              + (if IsHolder(v, frame) then 1 else 0)
  {
    var last := |workers| - 1;
    if w == last {
      assert workers[w := v][..last] == workers[..last];
    } else {
      assert workers[w := v][..last] == workers[..last][w := v];
      HoldersUpdate(workers[..last], w, v, frame);
    }
  }

  lemma {:induction false} WaitersAll(workers: seq<Worker>, g: nat)
    ensures Waiters(workers, g) == |workers| <==> forall w :: 0 <= w < |workers| ==> IsWaiter(workers[w], g)
    ensures Waiters(workers, g) == 0 <==> forall w :: 0 <= w < |workers| ==> !IsWaiter(workers[w], g)
  {
    if workers != [] {
      var last := |workers| - 1;
      WaitersAll(workers[..last], g);
      assert forall w :: 0 <= w < last ==> workers[..last][w] == workers[w];
    }
  }

  lemma {:induction false} HoldersAll(workers: seq<Worker>, frame: nat)
    ensures Holders(workers, frame) == |workers| <==> forall w :: 0 <= w < |workers| ==> IsHolder(workers[w], frame)
    ensures Holders(workers, frame) == 0 <==> forall w :: 0 <= w < |workers| ==> !IsHolder(workers[w], frame)
  {
    if workers != [] {
      var last := |workers| - 1;
      HoldersAll(workers[..last], frame);
      assert forall w :: 0 <= w < last ==> workers[..last][w] == workers[w];
    }
  }

  // ----- the invariant holds -----

  lemma InitInv(c: Config)
    requires Quartered(c)
    ensures Inv(c, Init())
  {
    WaitersAll(Init().workers, 0);
  }

  lemma OriginsOfQuarters(extent: nat, i: nat)
    requires extent >= 4 && extent % 4 == 0
    ensures Origin(extent, i) < extent <==> i < 4
  {
    AxisCount(extent);
    OriginBelowIff(extent, i);
  }

  lemma QueueOnlyWhenOpen(c: Config, s: State)
    requires TasksOk(c, s)
    ensures s.queue != [] ==> Open(s)
  {
    if s.queue != [] {
      assert Live(s, s.queue[0]);
    }
  }

  lemma StartFrameInv(c: Config, s: State)
    requires Quartered(c) && Inv(c, s) && s.main.Starting?
    ensures Inv(c, Apply(c, s, StartFrame))
  {
    hide Origin, End, TileOf, Collected, Composited;
    var s' := Apply(c, s, StartFrame);
    HoldersAll(s.workers, s'.generation + 1);
    QueueOnlyWhenOpen(c, s);
  }

  /** The posting step that posts: tile (i, j) joins the queue. */
  lemma PostTaskInv(c: Config, s: State)
    requires Quartered(c) && Inv(c, s) && s.main.Posting? && s.main.i < 4 && s.main.j < 4
    ensures Inv(c, s.(main := Posting(s.main.i, s.main.j + 1), queue := s.queue + [Task(Frame(s), s.main.i, s.main.j)]))
  {
    hide Origin, End, TileOf, Collected, Composited, Waiters, Holders, TileOk, Complete;
    var t := Task(Frame(s), s.main.i, s.main.j);
    var s' := s.(main := Posting(s.main.i, s.main.j + 1), queue := s.queue + [t]);
    assert !IsPosted(s, t.i, t.j);
    assert s'.queue[|s.queue|] == t;
    assert forall q :: 0 <= q < |s.queue| ==> s'.queue[q] == s.queue[q];
    forall i: nat, j: nat | IsPosted(s', i, j)
      ensures Held(s', Task(s'.generation + 1, i, j))
    {
      if IsPosted(s, i, j) {
        AppendKeepsHeld(s, s', Task(s'.generation + 1, i, j));
      }
    }
    assert TasksOk(c, s');
    hide Held;
  }

  lemma AppendKeepsHeld(s: State, s': State, t: Task)
    requires Held(s, t) && s'.workers == s.workers && s.queue <= s'.queue
    ensures Held(s', t)
  {
    if q :| 0 <= q < |s.queue| && s.queue[q] == t {
      assert s'.queue[q] == t;
    }
  }

  /** The posting steps that only move the loop variables. */
  lemma PostMovesInv(c: Config, s: State, main: Main)
    requires Quartered(c) && Inv(c, s) && s.main.Posting?
    requires (s.main.i == 4 && main.MainArriving?) || (s.main.j == 4 && main == Posting(s.main.i + 1, 0))
    ensures Inv(c, s.(main := main))
  {
    hide Origin, End, TileOf, Collected, Composited, Waiters, Holders, TileOk, Complete, Held;
    var s' := s.(main := main);
    assert forall i: nat, j: nat :: IsPosted(s', i, j) == IsPosted(s, i, j);
    forall i: nat, j: nat | IsPosted(s', i, j)
      ensures Held(s', Task(s'.generation + 1, i, j))
    {
      assert IsPosted(s, i, j);
      AppendKeepsHeld(s, s', Task(s'.generation + 1, i, j));
    }
  }

  lemma PostInv(c: Config, s: State)
    requires Quartered(c) && Inv(c, s) && Enabled(c, s, Post)
    ensures Inv(c, Apply(c, s, Post))
  {
    OriginsOfQuarters(c.width, s.main.i);
    OriginsOfQuarters(c.height, s.main.j);
    if s.main.i >= 4 {
      PostMovesInv(c, s, MainArriving);
    } else if s.main.j >= 4 {
      PostMovesInv(c, s, Posting(s.main.i + 1, 0));
    } else {
      PostTaskInv(c, s);
    }
    hide Inv;
  }

  // ----- the barrier -----

  /** When every pool thread waits in the barrier and everything is posted, the frame's queue is empty
      and its picture is complete. */
  lemma AllArrived(c: Config, s: State)
    requires Quartered(c) && Consistent(c, s) && Open(s) && !s.main.Posting?
    requires forall w :: 0 <= w < |s.workers| ==> IsWaiter(s.workers[w], s.generation)
    ensures s.queue == []
    ensures Complete(c, s.generation + 1, s.images[s.generation + 1])
  {
    var f := s.generation + 1;
    assert forall w :: 0 <= w < |s.workers| ==> WorkerOk(c, s, s.workers[w]);
    HoldersAll(s.workers, f);
    AxisCount(c.width);
    AxisCount(c.height);
    forall x: nat, y: nat | x < c.width && y < c.height
      ensures At(s.images[f], x, y) == FramePixel(c, f, x, y)
    {
      var i, j := TileOf(c.width, x), TileOf(c.height, y);
      PixelPartition(c.width, c.height, x, y, i, j);
      assert IsPosted(s, i, j);
      assert Held(s, Task(f, i, j));
      var w :| 0 <= w < |s.workers| && Busy(s.workers[w]) && s.workers[w].task == Task(f, i, j);
      assert TileOk(c, s.workers[w], s.images[f]);
      assert InTask(c, s.workers[w].task, x, y);
    }
  }

  /** Releasing the barrier after the last of the seventeen arrivals. */
  lemma ReleaseInv(c: Config, s: State)
    requires Quartered(c) && Consistent(c, s) && s.main.MainWaiting? && s.main.generation == s.generation
    requires forall w :: 0 <= w < |s.workers| ==> IsWaiter(s.workers[w], s.generation)
    ensures Inv(c, s.(missing := BARRIER_PARTIES, generation := s.generation + 1))
  {
    hide Origin, End, TileOf, Collected, Composited, Waiters, Holders, Held, TileOk, Complete;
    AllArrived(c, s);
    var s' := s.(missing := BARRIER_PARTIES, generation := s.generation + 1);
    assert forall w :: 0 <= w < |s.workers| ==> WorkerOk(c, s, s.workers[w]);
    WaitersAll(s'.workers, s'.generation);
    HoldersAll(s'.workers, s'.generation + 1);
  }

  /** How many parties the barrier misses matters to nothing but the barrier. */
  lemma MissingAside(c: Config, s: State, missing: int)
    requires Quartered(c) && Consistent(c, s)
    ensures Consistent(c, s.(missing := missing))
  {
    hide Origin, End, TileOf, Collected, Composited, Waiters, Holders, TileOk, Complete;
    var s' := s.(missing := missing);
    forall t | Held(s, t)
      ensures Held(s', t)
    {
      assert s'.queue == s.queue && s'.workers == s.workers;
    }
    assert forall i: nat, j: nat :: IsPosted(s', i, j) == IsPosted(s, i, j);
  }

  lemma MainArriveConsistent(c: Config, s: State)
    requires Quartered(c) && Inv(c, s) && s.main.MainArriving?
    ensures Consistent(c, s.(main := MainWaiting(s.generation)))
  {
    hide Origin, End, TileOf, Collected, Composited, Waiters, Holders, TileOk, Complete, Held;
    var s1 := s.(main := MainWaiting(s.generation));
    forall i: nat, j: nat | IsPosted(s1, i, j)
      ensures Held(s1, Task(s.generation + 1, i, j))
    {
      assert IsPosted(s, i, j);
      AppendKeepsHeld(s, s1, Task(s.generation + 1, i, j));
    }
    forall u | 0 <= u < |s.workers|
      ensures WorkerOk(c, s1, s.workers[u])
    {
      assert WorkerOk(c, s, s.workers[u]);
    }
  }

  lemma MainArriveInv(c: Config, s: State)
    requires Quartered(c) && Inv(c, s) && Enabled(c, s, MainArrive)
    ensures Inv(c, Apply(c, s, MainArrive))
  {
    hide TasksOk, Distinct, Covered, Conserved, PicturesOk, Waiters;
    var s1 := s.(main := MainWaiting(s.generation));
    MainArriveConsistent(c, s);
    if s.missing == 1 {
      WaitersAll(s.workers, s.generation);
      ReleaseInv(c, s1);
      assert Apply(c, s, MainArrive) == s1.(missing := BARRIER_PARTIES, generation := s.generation + 1);
    } else {
      MissingAside(c, s1, s.missing - 1);
      assert Apply(c, s, MainArrive) == s1.(missing := s.missing - 1);
      hide Consistent;
    }
  }

  lemma MainReturnInv(c: Config, s: State)
    requires Quartered(c) && Inv(c, s) && Enabled(c, s, MainReturn)
    ensures Inv(c, Apply(c, s, MainReturn))
  {
    hide Origin, End, TileOf, Collected, Composited;
    assert !Open(s);
  }

  lemma PublishInv(c: Config, s: State, stop: bool)
    requires Quartered(c) && Inv(c, s) && Enabled(c, s, Publish(stop))
    ensures Inv(c, Apply(c, s, Publish(stop)))
  {
    hide Origin, End, TileOf, Collected, Composited;
    assert !Open(s);
  }

  // ----- the pool threads -----

  lemma TileNotEmpty(extent: nat, i: nat)
    requires extent >= 4 && extent % 4 == 0 && i < 4
    ensures Origin(extent, i) < End(extent, i) <= extent
  {
    OriginsOfQuarters(extent, i);
  }

  lemma TakeCovers(c: Config, s: State, w: nat, v: Worker, t: Task)
    requires Quartered(c) && Inv(c, s) && Enabled(c, s, Take(w)) && Held(s, t)
    requires Busy(v) && v.task == s.queue[0]
    ensures Held(s.(queue := s.queue[1..], workers := s.workers[w := v]), t)
  {
    var s' := s.(queue := s.queue[1..], workers := s.workers[w := v]);
    if t == s.queue[0] {
      assert Busy(s'.workers[w]) && s'.workers[w].task == t;
    } else if q :| 0 <= q < |s.queue| && s.queue[q] == t {
      assert s'.queue[q - 1] == t;
    } else {
      var u :| 0 <= u < |s.workers| && Busy(s.workers[u]) && s.workers[u].task == t;
      assert s'.workers[u] == s.workers[u];
    }
  }

  lemma TakeTasks(c: Config, s: State, w: nat, v: Worker)
    requires Quartered(c) && Inv(c, s) && Enabled(c, s, Take(w))
    requires v.Collecting? && v.task == s.queue[0] && WorkerOk(c, s, v)
    requires forall picture :: TileOk(c, v, picture)
    ensures var s' := s.(queue := s.queue[1..], workers := s.workers[w := v]);
            Phases(s') && TasksOk(c, s') && Distinct(s') && PicturesOk(c, s')
  {
    hide Origin, End, TileOf, Collected, Composited, Held, Waiters, Holders, TileOk, Complete;
    var s' := s.(queue := s.queue[1..], workers := s.workers[w := v]);
    assert forall q :: 0 <= q < |s'.queue| ==> s'.queue[q] == s.queue[q + 1];
    forall u | 0 <= u < |s'.workers|
      ensures WorkerOk(c, s', s'.workers[u])
    {
      assert WorkerOk(c, s, s.workers[u]);
    }
  }

  /** A thread starts a task at the first pixel of its tile, with no pixel claimed yet. */
  lemma TakeStarts(c: Config, s: State, w: nat)
    requires Quartered(c) && Inv(c, s) && Enabled(c, s, Take(w))
    ensures var v := FirstPixel(c, s.queue[0]);
            && v.Collecting? && v.task == s.queue[0] && WorkerOk(c, s, v)
            && v.task.frame == s.generation + 1 && Open(s)
            && forall picture :: TileOk(c, v, picture)
  {
    hide TileOf, Collected, Composited, Distinct, Covered, Conserved, Counted, PicturesOk;
    assert Live(s, s.queue[0]);
    TileNotEmpty(c.width, s.queue[0].i);
    TileNotEmpty(c.height, s.queue[0].j);
  }

  lemma TakeInv(c: Config, s: State, w: nat)
    requires Quartered(c) && Inv(c, s) && Enabled(c, s, Take(w))
    ensures Inv(c, Apply(c, s, Take(w)))
  {
    hide FirstPixel, TasksOk, Distinct, PicturesOk, Held, Waiters, Holders;
    var v := FirstPixel(c, s.queue[0]);
    TakeStarts(c, s, w);
    TakeTasks(c, s, w, v);
    var s' := s.(queue := s.queue[1..], workers := s.workers[w := v]);
    assert Apply(c, s, Take(w)) == s';
    WaitersUpdate(s.workers, w, v, s.generation);
    HoldersUpdate(s.workers, w, v, s.generation + 1);
    forall i: nat, j: nat | IsPosted(s', i, j)
      ensures Held(s', Task(s.generation + 1, i, j))
    {
      assert IsPosted(s, i, j);
      TakeCovers(c, s, w, v, Task(s.generation + 1, i, j));
    }
  }

  lemma SameTaskHeld(s: State, w: nat, v: Worker, t: Task)
    requires w < |s.workers| && Busy(s.workers[w]) && Busy(v) && v.task == s.workers[w].task && Held(s, t)
    ensures Held(s.(workers := s.workers[w := v]), t)
  {
    var s' := s.(workers := s.workers[w := v]);
    if u :| 0 <= u < |s.workers| && Busy(s.workers[u]) && s.workers[u].task == t {
      assert Busy(s'.workers[u]) && s'.workers[u].task == t;
    } else {
      assert s'.queue == s.queue;
    }
  }

  /** Replacing a thread's state by another one that holds the same task keeps every task in its place. */
  lemma SameTaskInv(c: Config, s: State, w: nat, v: Worker)
    requires Quartered(c) && Consistent(c, s) && w < |s.workers|
    requires Busy(s.workers[w]) && Busy(v) && v.task == s.workers[w].task && WorkerOk(c, s, v)
    ensures var s' := s.(workers := s.workers[w := v]);
            Phases(s') && TasksOk(c, s') && Distinct(s') && Covered(s') && Conserved(s')
  {
    hide Origin, End, TileOf, Collected, Composited, Held, Waiters, Holders, PicturesOk;
    var s' := s.(workers := s.workers[w := v]);
    HoldersUpdate(s.workers, w, v, s.generation + 1);
    forall u | 0 <= u < |s'.workers|
      ensures WorkerOk(c, s', s'.workers[u])
    {
      assert WorkerOk(c, s, s.workers[u]);
    }
    forall i: nat, j: nat | IsPosted(s', i, j)
      ensures Open(s) ==> Held(s', Task(s.generation + 1, i, j))
    {
      assert IsPosted(s, i, j);
      if Open(s) {
        SameTaskHeld(s, w, v, Task(s.generation + 1, i, j));
      }
    }
  }

  lemma ArriveConsistent(c: Config, s: State, w: nat)
    requires Quartered(c) && Inv(c, s) && Enabled(c, s, Arrive(w))
    ensures Consistent(c, s.(workers := s.workers[w := Waiting(s.workers[w].task, s.generation)]))
  {
    hide Origin, End, TileOf, Collected, Composited, Waiters, Holders, Held;
    var v := Waiting(s.workers[w].task, s.generation);
    var s1 := s.(workers := s.workers[w := v]);
    assert WorkerOk(c, s, s.workers[w]);
    SameTaskInv(c, s, w, v);
    assert forall u :: 0 <= u < |s.workers| && u != w ==> s1.workers[u] == s.workers[u];
    assert TileOk(c, s.workers[w], s.images[s.generation + 1]);
    assert PicturesOk(c, s1);
  }

  lemma ArriveInv(c: Config, s: State, w: nat)
    requires Quartered(c) && Inv(c, s) && Enabled(c, s, Arrive(w))
    ensures Inv(c, Apply(c, s, Arrive(w)))
  {
    hide TasksOk, Distinct, Covered, Conserved, PicturesOk, Waiters;
    var v := Waiting(s.workers[w].task, s.generation);
    var s1 := s.(workers := s.workers[w := v]);
    ArriveConsistent(c, s, w);
    WaitersUpdate(s.workers, w, v, s.generation);
    if s.missing == 1 {
      WaitersAll(s1.workers, s.generation);
      ReleaseInv(c, s1);
      assert Apply(c, s, Arrive(w)) == s1.(missing := BARRIER_PARTIES, generation := s.generation + 1);
    } else {
      MissingAside(c, s1, s.missing - 1);
      assert Apply(c, s, Arrive(w)) == s1.(missing := s.missing - 1);
      hide Consistent;
    }
  }

  /** A thread that leaves the barrier held a task of an earlier generation. */
  lemma ReturnKeepsHeld(c: Config, s: State, w: nat, t: Task)
    requires Quartered(c) && Inv(c, s) && Enabled(c, s, Return(w))
    requires Held(s, t) && t.frame == s.generation + 1
    ensures Held(s.(workers := s.workers[w := Idle]), t)
  {
    var s' := s.(workers := s.workers[w := Idle]);
    assert WorkerOk(c, s, s.workers[w]);
    if u :| 0 <= u < |s.workers| && Busy(s.workers[u]) && s.workers[u].task == t {
      assert Busy(s'.workers[u]) && s'.workers[u].task == t;
    } else {
      assert s'.queue == s.queue;
    }
  }

  lemma ReturnTasks(c: Config, s: State, w: nat)
    requires Quartered(c) && Inv(c, s) && Enabled(c, s, Return(w))
    ensures var s' := s.(workers := s.workers[w := Idle]);
            Phases(s') && TasksOk(c, s') && Distinct(s') && PicturesOk(c, s')
  {
    hide Origin, End, TileOf, Collected, Composited, Held, Waiters, Holders, TileOk, Complete;
    var s' := s.(workers := s.workers[w := Idle]);
    assert forall u :: 0 <= u < |s.workers| && u != w ==> s'.workers[u] == s.workers[u];
    forall u | 0 <= u < |s'.workers|
      ensures WorkerOk(c, s', s'.workers[u])
    {
      assert WorkerOk(c, s, s.workers[u]);
    }
  }

  lemma ReturnInv(c: Config, s: State, w: nat)
    requires Quartered(c) && Inv(c, s) && Enabled(c, s, Return(w))
    ensures Inv(c, Apply(c, s, Return(w)))
  {
    var s' := s.(workers := s.workers[w := Idle]);
    ReturnTasks(c, s, w);
    WaitersUpdate(s.workers, w, Idle, s.generation);
    HoldersUpdate(s.workers, w, Idle, s.generation + 1);
    assert WorkerOk(c, s, s.workers[w]);
    forall i: nat, j: nat | Open(s) && IsPosted(s', i, j)
      ensures Held(s', Task(s.generation + 1, i, j))
    {
      assert IsPosted(s, i, j);
      ReturnKeepsHeld(c, s, w, Task(s.generation + 1, i, j));
    }
    hide TasksOk, Distinct, PicturesOk, Waiters, Holders, Held;
  }

  /** Tiles of different tasks of one frame have no pixel in common. */
  lemma TasksDisjoint(c: Config, t: Task, t': Task, x: nat, y: nat)
    requires Quartered(c) && t != t' && t.frame == t'.frame
    ensures !(InTask(c, t, x, y) && InTask(c, t', x, y))
  {
    if x < c.width && y < c.height {
      PixelPartition(c.width, c.height, x, y, t.i, t.j);
      PixelPartition(c.width, c.height, x, y, t'.i, t'.j);
    }
  }

  /** A thread moves on inside its tile, and to the first pixel for its second pass. */
  lemma AdvanceInTile(c: Config, v: Worker)
    requires (v.Collecting? || v.Overlaying?) && InTask(c, v.task, v.x, v.y)
    ensures var v' := Advance(c, v);
            && Busy(v') && v'.task == v.task && !v'.Waiting?
            && (v'.Arriving? || InTask(c, v.task, v'.x, v'.y))
  {
    hide Origin, End;
  }

  /** Writing the next pixel of a tile moves its thread on in row-major order. */
  lemma WriteAdvances(c: Config, v: Worker, picture: Picture)
    requires v.Collecting? || v.Overlaying?
    requires InTask(c, v.task, v.x, v.y) && TileOk(c, v, picture)
    ensures var v' := Advance(c, v);
            && Busy(v') && v'.task == v.task && !v'.Waiting?
            && TileOk(c, v', picture[(v.x, v.y) := Written(c, v, picture)])
  {
    hide Origin, End, Collected;
    var v' := Advance(c, v);
    var picture' := picture[(v.x, v.y) := Written(c, v, picture)];
    forall x: nat, y: nat | InTask(c, v.task, x, y)
      ensures PixelOk(c, v', picture', x, y)
    {
      assert PixelOk(c, v, picture, x, y);
      assert PixelOk(c, v, picture, v.x, v.y);
    }
  }

  /** A write touches no pixel of another thread's tile. */
  lemma WriteElsewhere(c: Config, v: Worker, u: Worker, picture: Picture)
    requires Quartered(c) && (v.Collecting? || v.Overlaying?) && InTask(c, v.task, v.x, v.y)
    requires Busy(u) && u.task != v.task && u.task.frame == v.task.frame && TileOk(c, u, picture)
    ensures TileOk(c, u, picture[(v.x, v.y) := Written(c, v, picture)])
  {
    hide Origin, End, TileOf, Collected, Composited, Written;
    forall x: nat, y: nat | InTask(c, u.task, x, y)
      ensures PixelOk(c, u, picture[(v.x, v.y) := Written(c, v, picture)], x, y)
    {
      TasksDisjoint(c, v.task, u.task, v.x, v.y);
      assert PixelOk(c, u, picture, x, y);
    }
  }

  lemma WritePictures(c: Config, s: State, w: nat)
    requires Quartered(c) && Inv(c, s) && Enabled(c, s, Write(w))
    ensures PicturesOk(c, Apply(c, s, Write(w)))
  {
    hide Origin, End, TileOf, Collected, Composited, Advance, Written, TileOk, Complete, Waiters, Holders, Held;
    var v := s.workers[w];
    assert WorkerOk(c, s, v);
    var s' := Apply(c, s, Write(w));
    var f := s.generation + 1;
    assert v.task.frame == f;
    forall u | 0 <= u < |s'.workers| && IsHolder(s'.workers[u], f)
      ensures TileOk(c, s'.workers[u], s'.images[f])
    {
      if u == w {
        assert TileOk(c, v, s.images[f]);
        WriteAdvances(c, v, s.images[f]);
      } else {
        assert TileOk(c, s.workers[u], s.images[f]);
        WriteElsewhere(c, v, s.workers[u], s.images[f]);
      }
    }
    assert forall k :: 0 <= k < f ==> s'.images[k] == s.images[k];
  }

  lemma WriteInv(c: Config, s: State, w: nat)
    requires Quartered(c) && Inv(c, s) && Enabled(c, s, Write(w))
    ensures Inv(c, Apply(c, s, Write(w)))
  {
    var v := s.workers[w];
    assert WorkerOk(c, s, v);
    assert TileOk(c, v, s.images[v.task.frame]);
    WriteAdvances(c, v, s.images[v.task.frame]);
    AdvanceInTile(c, v);
    var v' := Advance(c, v);
    assert WorkerOk(c, s, v');
    SameTaskInv(c, s, w, v');
    WaitersUpdate(s.workers, w, v', s.generation);
    WritePictures(c, s, w);
    hide TasksOk, Distinct, Covered, PicturesOk, Conserved, WorkerOk, Advance, Written, TileOk, Waiters;
    ImagesAside(c, s.(workers := s.workers[w := v']), Apply(c, s, Write(w)));
  }

  /** Which pixels are written matters to nothing but the pictures. */
  lemma ImagesAside(c: Config, s: State, s': State)
    requires Quartered(c) && Phases(s) && TasksOk(c, s) && Distinct(s) && Covered(s) && Conserved(s)
    requires s' == s.(images := s'.images) && |s'.images| == |s.images|
    ensures Phases(s') && TasksOk(c, s') && Distinct(s') && Covered(s') && Conserved(s')
  {
    hide Origin, End, TileOf, Collected, Composited, Waiters, Holders;
    forall t | Held(s, t)
      ensures Held(s', t)
    {
      assert s'.queue == s.queue && s'.workers == s.workers;
    }
    assert forall i: nat, j: nat :: IsPosted(s', i, j) == IsPosted(s, i, j);
  }

  // ----- all reachable states -----

  lemma StepInv(c: Config, s: State, a: Action)
    requires Quartered(c) && Inv(c, s) && Enabled(c, s, a)
    ensures Inv(c, Apply(c, s, a))
  {
    match a
    case StartFrame => StartFrameInv(c, s);
    case Post => PostInv(c, s);
    case MainArrive => MainArriveInv(c, s);
    case MainReturn => MainReturnInv(c, s);
    case Publish(stop) => PublishInv(c, s, stop);
    case Take(w) => TakeInv(c, s, w);
    case Write(w) => WriteInv(c, s, w);
    case Arrive(w) => ArriveInv(c, s, w);
    case Return(w) => ReturnInv(c, s, w);
  }

  lemma {:induction false} RunInv(c: Config, s: State, run: seq<Action>)
    requires Quartered(c) && Inv(c, s) && CanRun(c, s, run)
    ensures Inv(c, After(c, s, run))
    decreases run
  {
    if run != [] {
      StepInv(c, s, run[0]);
      RunInv(c, Apply(c, s, run[0]), run[1..]);
    }
  }

  lemma ReachableInv(c: Config, s: State)
    requires Quartered(c) && Reachable(c, s)
    ensures Inv(c, s)
  {
    var run :| CanRun(c, Init(), run) && After(c, Init(), run) == s;
    InitInv(c);
    RunInv(c, Init(), run);
  }

  // ----- what readers of the published image see -----

  /** In every reachable state, over any number of frames and whatever other threads do, the published
      image and all earlier ones are complete composites of their frames: every interleaving of the
      tile tasks produces the same picture as one pass of each kind over the whole frame. */
  lemma PublishedIsComposite(c: Config, s: State, k: nat)
    requires Quartered(c) && Reachable(c, s) && 1 <= k <= s.published
    ensures k < |s.images| && Complete(c, k, s.images[k])
  {
    ReachableInv(c, s);
  }

  /** An image is published only after all tasks of its frame have finished both their passes. */
  lemma PublishedTasksFinished(c: Config, s: State)
    requires Quartered(c) && Reachable(c, s)
    ensures PublishedComplete(s)
    ensures forall q :: 0 <= q < |s.queue| ==> s.queue[q].frame > s.published
    ensures forall w :: 0 <= w < |s.workers| && Busy(s.workers[w]) && !s.workers[w].Waiting? ==>
              s.workers[w].task.frame > s.published
  {
    ReachableInv(c, s);
    assert forall w :: 0 <= w < |s.workers| ==> WorkerOk(c, s, s.workers[w]);
  }

  /** No step ever changes an image that is published or was published before. */
  lemma PublishedIsImmutable(c: Config, s: State, a: Action, k: nat)
    requires Quartered(c) && Reachable(c, s) && Enabled(c, s, a) && k <= s.published
    ensures k < |s.images| && k < |Apply(c, s, a).images| && Apply(c, s, a).images[k] == s.images[k]
    ensures Apply(c, s, a).published >= s.published
  {
    ReachableInv(c, s);
    hide TileOk, Complete, Waiters, Holders, Held, Covered, Distinct, Conserved, PicturesOk, Counted;
    hide Advance, Written, FirstPixel, InTask, Origin;
    if a.Write? {
      assert WorkerOk(c, s, s.workers[a.w]);
    }
  }

  /** A task that is queued, or running and not yet in the barrier. */
  predicate Unarrived(s: State, t: Task) {
    || t in s.queue
    || exists w :: 0 <= w < |s.workers| && Busy(s.workers[w]) && !s.workers[w].Waiting? && s.workers[w].task == t
  }

  /** At any time all tasks that have not arrived at the barrier belong to one frame, the one after the
      published one. */
  lemma OneFrameAtATime(c: Config, s: State, t: Task)
    requires Quartered(c) && Reachable(c, s) && Unarrived(s, t)
    ensures t.frame == |s.images| - 1 == s.published + 1
  {
    ReachableInv(c, s);
    if w :| 0 <= w < |s.workers| && Busy(s.workers[w]) && !s.workers[w].Waiting? && s.workers[w].task == t {
      assert WorkerOk(c, s, s.workers[w]);
    }
  }
}
