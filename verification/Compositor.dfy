/** The tiled parallel compositor as a transition system: a main thread that posts one task per tile
    to a pool of sixteen threads, joins them on a barrier for seventeen parties, and publishes. */
module Compositor {
  import opened Overlay
  import opened Pixels
  import opened Tiles
  import Collector

  const POOL_THREADS := 16
  const BARRIER_PARTIES := 17

  /** The sizes and the fade duration, and everything the tile tasks read while they run. A task
      reads every collected pixel and every overlay pixel of its tile once and the clock once, so one
      value for each of these reads covers every way in which other threads may change them. */
  datatype Config = Config(
    width: nat,
    height: nat,
    fadeOut: int,
    collected: (nat, nat, nat) -> Collector.FadedPixel,  // frame, x, y
    clock: (nat, nat, nat) -> int,                       // frame, tile column, tile row
    overlay: (nat, nat, nat) -> Rgba                     // frame, x, y
  )

  /** An image under construction, as the pixels written so far; the others are black. */
  type Picture = map<(nat, nat), Rgb>

  function At(picture: Picture, x: nat, y: nat): Rgb {
    if (x, y) in picture then picture[(x, y)] else BLACK
  }

  /** One posted unit of work: tile column i and tile row j of one frame. */
  datatype Task = Task(frame: nat, i: nat, j: nat)

  datatype Worker =
    | Idle
    | Collecting(task: Task, x: nat, y: nat)   // the collector pass is about to write pixel (x, y)
    | Overlaying(task: Task, x: nat, y: nat)   // the overlay pass is about to write pixel (x, y)
    | Arriving(task: Task)                     // both passes done, about to enter the barrier
    | Waiting(task: Task, generation: nat)     // inside the barrier since this generation

  datatype Main =
    | Starting                                 // about to create the next image
    | Posting(i: nat, j: nat)                  // loop variables at tile column i, tile row j
    | MainArriving
    | MainWaiting(generation: nat)
    | Publishing
    | Stopped

  /** images[0] is the image stored before the first frame; frame k builds images[k]. The barrier
      counts the parties still missing in the current generation. */
  datatype State = State(
    main: Main,
    queue: seq<Task>,
    workers: seq<Worker>,
    missing: int,
    generation: nat,
    images: seq<Picture>,
    published: nat)

  datatype Action =
    | StartFrame
    | Post
    | MainArrive
    | MainReturn
    | Publish(stop: bool)
    | Take(w: nat)
    | Write(w: nat)
    | Arrive(w: nat)
    | Return(w: nat)

  function Init(): State {
    State(Starting, [], seq(POOL_THREADS, _ => Idle), BARRIER_PARTIES, 0, [map[]], 0)
  }

  // ----- tiles and pixels -----

  predicate InTask(c: Config, t: Task, x: nat, y: nat) {
    InTile(c.width, t.i, x) && InTile(c.height, t.j, y)
  }

  predicate EmptyTile(c: Config, t: Task) {
    End(c.width, t.i) <= Origin(c.width, t.i) || End(c.height, t.j) <= Origin(c.height, t.j)
  }

  /** What the collector pass of task t stores at (x, y). */
  function Collected(c: Config, t: Task, x: nat, y: nat): Rgb {
    Collector.Faded(c.collected(t.frame, x, y), c.clock(t.frame, t.i, t.j), c.fadeOut)
  }

  /** What the overlay pass of task t leaves at (x, y) after its collector pass. */
  function Composited(c: Config, t: Task, x: nat, y: nat): Rgb {
    Over(c.overlay(t.frame, x, y), Collected(c, t, x, y))
  }

  /** The pixel after (x, y) in the row-major order of a tile, or the first pixel of a missing row. */
  function NextPixel(c: Config, t: Task, x: nat, y: nat): (nat, nat) {
    if x + 1 < End(c.width, t.i) then (x + 1, y) else (Origin(c.width, t.i), y + 1)
  }

  // ----- transitions -----

  predicate Enabled(c: Config, s: State, a: Action) {
    match a
    case StartFrame => s.main.Starting?
    case Post => s.main.Posting? && |s.images| > 0
    case MainArrive => s.main.MainArriving?
    case MainReturn => s.main.MainWaiting? && s.main.generation != s.generation
    case Publish(_) => s.main.Publishing? && |s.images| > 0
    case Take(w) => w < |s.workers| && s.workers[w].Idle? && s.queue != []
    case Write(w) =>
      && w < |s.workers| && (s.workers[w].Collecting? || s.workers[w].Overlaying?)
      && s.workers[w].task.frame < |s.images|
    case Arrive(w) => w < |s.workers| && s.workers[w].Arriving?
    case Return(w) => w < |s.workers| && s.workers[w].Waiting? && s.workers[w].generation != s.generation
  }

  /** One party enters the barrier; the last one starts the next generation. */
  function EnterBarrier(s: State): State {
    if s.missing == 1 then s.(missing := BARRIER_PARTIES, generation := s.generation + 1)
    else s.(missing := s.missing - 1)
  }

  /** One step of the posting loops. */
  function PostStep(c: Config, s: State): State
    requires s.main.Posting? && |s.images| > 0
  {
    var Posting(i, j) := s.main;
    if Origin(c.width, i) >= c.width then s.(main := MainArriving)
    else if Origin(c.height, j) >= c.height then s.(main := Posting(i + 1, 0))
    else s.(main := Posting(i, j + 1), queue := s.queue + [Task(|s.images| - 1, i, j)])
  }

  function FirstPixel(c: Config, t: Task): Worker {
    if EmptyTile(c, t) then Arriving(t) else Collecting(t, Origin(c.width, t.i), Origin(c.height, t.j))
  }

  /** The worker after it has written the pixel it was about to write. */
  function Advance(c: Config, v: Worker): Worker
    requires v.Collecting? || v.Overlaying?
  {
    var (x, y) := NextPixel(c, v.task, v.x, v.y);
    if y < End(c.height, v.task.j) then v.(x := x, y := y)
    else if v.Collecting? then Overlaying(v.task, Origin(c.width, v.task.i), Origin(c.height, v.task.j))
    else Arriving(v.task)
  }

  /** The colour a worker writes next: the collector pass overwrites, the overlay pass blends. */
  function Written(c: Config, v: Worker, picture: Picture): Rgb
    requires v.Collecting? || v.Overlaying?
  {
    if v.Collecting? then Collected(c, v.task, v.x, v.y)
    else Over(c.overlay(v.task.frame, v.x, v.y), At(picture, v.x, v.y))
  }

  function Apply(c: Config, s: State, a: Action): State
    requires Enabled(c, s, a)
  {
    match a
    case StartFrame => s.(main := Posting(0, 0), images := s.images + [map[]])
    case Post => PostStep(c, s)
    case MainArrive => EnterBarrier(s).(main := MainWaiting(s.generation))
    case MainReturn => s.(main := Publishing)
    case Publish(stop) => s.(main := if stop then Stopped else Starting, published := |s.images| - 1)
    case Take(w) => s.(queue := s.queue[1..], workers := s.workers[w := FirstPixel(c, s.queue[0])])
    case Write(w) =>
      var v := s.workers[w];
      var k := v.task.frame;
      s.(workers := s.workers[w := Advance(c, v)],
         images := s.images[k := s.images[k][(v.x, v.y) := Written(c, v, s.images[k])]])
    case Arrive(w) => EnterBarrier(s).(workers := s.workers[w := Waiting(s.workers[w].task, s.generation)])
    case Return(w) => s.(workers := s.workers[w := Idle])
  }

  // ----- runs -----

  predicate CanRun(c: Config, s: State, run: seq<Action>)
    decreases run
  {
    run == [] || (Enabled(c, s, run[0]) && CanRun(c, Apply(c, s, run[0]), run[1..]))
  }

  function After(c: Config, s: State, run: seq<Action>): State
    requires CanRun(c, s, run)
    decreases run
  {
    if run == [] then s else After(c, Apply(c, s, run[0]), run[1..])
  }

  ghost predicate Reachable(c: Config, s: State) {
    exists run :: CanRun(c, Init(), run) && After(c, Init(), run) == s
  }

  /** No task of a published frame still has a pixel to write. */
  predicate PublishedComplete(s: State) {
    && (forall q :: 0 <= q < |s.queue| ==> s.queue[q].frame > s.published)
    && (forall w :: 0 <= w < |s.workers| && (s.workers[w].Collecting? || s.workers[w].Overlaying?) ==>
          s.workers[w].task.frame > s.published)
  }

  lemma {:induction false} RunConcat(c: Config, s: State, run: seq<Action>, more: seq<Action>)
    requires CanRun(c, s, run) && CanRun(c, After(c, s, run), more)
    ensures CanRun(c, s, run + more) && After(c, s, run + more) == After(c, After(c, s, run), more)
    decreases run
  {
    if run == [] {
      assert run + more == more;
    } else {
      assert (run + more)[1..] == run[1..] + more;
      RunConcat(c, Apply(c, s, run[0]), run[1..], more);
    }
  }
}
