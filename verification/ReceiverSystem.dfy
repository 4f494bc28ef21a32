/** The receiver's threads as a transition system: worker cores count pings into the current frame
    while the frames core swaps frames, writes them to the stream pixel by pixel and releases them. A
    worker keeps only a bare reference into the frame whose pointer it loaded: the shared pointer itself
    is a temporary that dies with the load. The update of a pixel is taken as atomic. */
module ReceiverSystem {
  import opened Accumulator
  import opened Pixels

  datatype Worker =
    | Polling
    | Updating(frame: nat, ping: Ping)   // holds a reference into this frame, about to count the ping

  datatype Swapper =
    | Sleeping
    | Loaded(frame: nat)                 // swap_buffers has loaded the pointer
    | Sending(frame: nat)                // a new frame is current, the old one is to be written
    | Writing(record: Sent)              // part of the old frame is written
    | Releasing(frame: nat)              // written; its last owner is about to go out of scope

  /** A ping and the frame it is counted in. */
  datatype Update = Update(frame: nat, ping: Ping)

  /** A frame as far as it is written to the stream: the pixels written, for each of them the number of
      updates before it was copied, and whether memory was still intact when the last of them was. `from`
      is the number of updates when the writing began and `held` the number of workers that held a
      reference into the frame then. */
  datatype Sent = Sent(frame: nat, pixels: seq<Rgba16>, at: seq<nat>, from: nat, held: nat, clean: bool)

  /** All frames ever created, of which the first |released| are gone, and the history of pointer loads,
      updates, sent frames, releases (with the number of workers that held the frame then), and stray
      writes: updates of a frame that has been released. */
  datatype State = State(
    frames: seq<seq<Rgba16>>,
    current: nat,
    workers: seq<Worker>,
    swapper: Swapper,
    sent: seq<Sent>,
    released: seq<nat>,
    loads: seq<Update>,
    updates: seq<Update>,
    stray: seq<Update>)

  /** A stray write has no defined effect. It is modelled as leaving any contents in all frames. */
  datatype Action =
    | Load(w: nat, ping: Ping)
    | Count(w: nat)
    | Stray(w: nat, damaged: seq<seq<Rgba16>>)
    | SwapLoad
    | SwapStore
    | StartWrite
    | WritePixel
    | EndWrite
    | Release

  /** `size` pixels per frame and `cores` worker cores. */
  datatype Config = Config(size: nat, cores: nat)

  function Init(c: Config): State {
    State([Accumulate(c.size, [])], 0, seq(c.cores, _ => Polling), Sleeping, [], [], [], [], [])
  }

  predicate Shaped(c: Config, frames: seq<seq<Rgba16>>) {
    forall k :: 0 <= k < |frames| ==> |frames[k]| == c.size
  }

  predicate Enabled(c: Config, s: State, a: Action) {
    match a
    case Load(w, ping) => w < |s.workers| && s.workers[w].Polling? && ping.pixel < c.size
    case Count(w) =>
      && w < |s.workers| && s.workers[w].Updating? && |s.released| <= s.workers[w].frame < |s.frames|
      && s.workers[w].ping.pixel < |s.frames[s.workers[w].frame]|
    case Stray(w, damaged) =>
      && w < |s.workers| && s.workers[w].Updating? && s.workers[w].frame < |s.released|
      && |damaged| == |s.frames| && Shaped(c, damaged)
    case SwapLoad => s.swapper.Sleeping?
    case SwapStore => s.swapper.Loaded?
    case StartWrite => s.swapper.Sending?
    case WritePixel =>
      && s.swapper.Writing? && s.swapper.record.frame < |s.frames|
      && |s.swapper.record.pixels| < |s.frames[s.swapper.record.frame]|
    case EndWrite =>
      && s.swapper.Writing? && s.swapper.record.frame < |s.frames|
      && |s.swapper.record.pixels| == |s.frames[s.swapper.record.frame]|
    case Release => s.swapper.Releasing?
  }

  /** The next pixel of the frame is copied to the stream. */
  function WriteNext(s: State): Sent
    requires s.swapper.Writing? && s.swapper.record.frame < |s.frames|
    requires |s.swapper.record.pixels| < |s.frames[s.swapper.record.frame]|
  {
    var r := s.swapper.record;
    r.(pixels := r.pixels + [s.frames[r.frame][|r.pixels|]], at := r.at + [|s.updates|], clean := s.stray == [])
  }

  function Apply(c: Config, s: State, a: Action): State
    requires Enabled(c, s, a)
  {
    match a
    case Load(w, ping) =>
      s.(workers := s.workers[w := Updating(s.current, ping)], loads := s.loads + [Update(s.current, ping)])
    case Count(w) =>
      var Updating(f, ping) := s.workers[w];
      s.(workers := s.workers[w := Polling],
         frames := s.frames[f := s.frames[f][ping.pixel := AddPing(s.frames[f][ping.pixel], ping.colour)]],
         updates := s.updates + [Update(f, ping)])
    case Stray(w, damaged) =>
      s.(workers := s.workers[w := Polling], frames := damaged,
         stray := s.stray + [Update(s.workers[w].frame, s.workers[w].ping)])
    case SwapLoad => s.(swapper := Loaded(s.current))
    case SwapStore =>
      s.(swapper := Sending(s.swapper.frame), frames := s.frames + [Accumulate(c.size, [])], current := |s.frames|)
    case StartWrite =>
      var f := s.swapper.frame;
      s.(swapper := Writing(Sent(f, [], [], |s.updates|, PendingIn(s.workers, f), s.stray == [])))
    case WritePixel => s.(swapper := Writing(WriteNext(s)))
    case EndWrite => s.(swapper := Releasing(s.swapper.record.frame), sent := s.sent + [s.swapper.record])
    case Release =>
      s.(swapper := Sleeping, released := s.released + [PendingIn(s.workers, s.swapper.frame)])
  }

  predicate CanRun(c: Config, s: State, run: seq<Action>)
    decreases run
  {
    run == [] || (Enabled(c, s, run[0]) && CanRun(c, Apply(c, s, run[0]), run[1..]))
  }

  function After(c: Config, s: State, run: seq<Action>): State
    requires CanRun(c, s, run)
    decreases run
  {
    if run == [] then s else After(c, Apply(c, s, run[0]), run[1..])
  }

  ghost predicate Reachable(c: Config, s: State) {
    exists run :: CanRun(c, Init(c), run) && After(c, Init(c), run) == s
  }

  // ----- histories -----

  /** The pings counted in frame k, in order. */
  function CountedIn(updates: seq<Update>, k: nat): (pings: seq<Ping>)
    ensures |pings| <= |updates|
  {
    if updates == [] then []
    else
      var last := updates[|updates| - 1];
      CountedIn(updates[..|updates| - 1], k) + (if last.frame == k then [last.ping] else [])
  }

  /** The updates that workers still have to make. */
  function Pending(workers: seq<Worker>): multiset<Update> {
    if workers == [] then multiset{}
    else
      var last := workers[|workers| - 1];
      Pending(workers[..|workers| - 1]) + PendingOf(last)
  }

  function PendingOf(v: Worker): multiset<Update> {
    if v.Updating? then multiset{Update(v.frame, v.ping)} else multiset{}
  }

  /** How many workers still hold a reference into frame k. */
  function PendingIn(workers: seq<Worker>, k: nat): (n: nat)
    ensures n <= |workers|
  {
    if workers == [] then 0
    else PendingIn(workers[..|workers| - 1], k) + (if Updates(workers[|workers| - 1], k) then 1 else 0)
  }

  predicate Updates(v: Worker, k: nat) { v.Updating? && v.frame == k }

  /** Pixel p has not been copied yet, or only after the first n updates. */
  predicate InTime(at: seq<nat>, p: nat, n: nat) { p < |at| ==> n < at[p] }

  /** The pings that the bytes of frame k in the stream carry: those counted in it before their own pixel
      was copied. */
  function CarriedIn(updates: seq<Update>, k: nat, at: seq<nat>): (pings: seq<Ping>)
    ensures |pings| <= |updates|
  {
    if updates == [] then []
    else
      var n := |updates| - 1;
      CarriedIn(updates[..n], k, at)
      + (if updates[n].frame == k && InTime(at, updates[n].ping.pixel, n) then [updates[n].ping] else [])
  }

  // ----- the invariant -----

  ghost predicate SwapperOk(c: Config, s: State) {
    && |s.frames| > 0 && s.current == |s.frames| - 1
    && match s.swapper
       case Sleeping => |s.released| == |s.sent| == s.current
       case Loaded(f) => |s.released| == |s.sent| == s.current == f
       case Sending(f) => |s.released| == |s.sent| == f && f + 1 == s.current
       case Writing(r) => |s.released| == |s.sent| == r.frame && r.frame + 1 == s.current && |r.pixels| <= c.size
       case Releasing(f) => |s.released| == f && |s.sent| == f + 1 == s.current
  }

  ghost predicate UpdatesOk(c: Config, s: State) {
    && (forall n :: 0 <= n < |s.updates| ==> s.updates[n].frame < |s.frames| && s.updates[n].ping.pixel < c.size)
    && (forall n :: 0 <= n < |s.stray| ==> s.stray[n].frame < |s.released|)
  }

  /** Memory is intact until the first stray write. */
  ghost predicate FramesOk(c: Config, s: State) {
    && Shaped(c, s.frames)
    && forall k :: 0 <= k < |s.frames| ==>
         && InFrame(CountedIn(s.updates, k), c.size)
         && (s.stray == [] ==> s.frames[k] == Accumulate(c.size, CountedIn(s.updates, k)))
  }

  ghost predicate WorkersOk(c: Config, s: State) {
    && |s.workers| == c.cores
    && forall w :: 0 <= w < |s.workers| && s.workers[w].Updating? ==>
         s.workers[w].frame <= s.current && s.workers[w].ping.pixel < c.size
  }

  /** The pixels written are those of the pings carried. */
  ghost predicate CopyOk(c: Config, s: State, r: Sent) {
    && |r.pixels| == |r.at| && r.from <= |s.updates|
    && (forall p :: 0 <= p < |r.at| ==> r.from <= r.at[p] <= |s.updates|)
    && InFrame(CarriedIn(s.updates, r.frame, r.at), c.size)
    && (r.clean ==>
          forall p :: 0 <= p < |r.pixels| && p < c.size ==>
            r.pixels[p] == Accumulate(c.size, CarriedIn(s.updates, r.frame, r.at))[p])
  }

  /** Whoever held the frame when the writing began has counted since, has written to freed memory, or
      still holds it. */
  ghost predicate HeldOk(c: Config, s: State, r: Sent)
    requires r.from <= |s.updates|
  {
    && r.held <= c.cores
    && |CountedIn(s.updates, r.frame)| - |CountedIn(s.updates[..r.from], r.frame)|
       + |CountedIn(s.stray, r.frame)| + PendingIn(s.workers, r.frame) == r.held
  }

  ghost predicate RecordOk(c: Config, s: State, r: Sent) {
    CopyOk(c, s, r) && HeldOk(c, s, r) && (s.stray == [] ==> r.clean)
  }

  ghost predicate RecordsOk(c: Config, s: State) {
    && (forall k :: 0 <= k < |s.sent| ==>
          s.sent[k].frame == k && |s.sent[k].pixels| == c.size && RecordOk(c, s, s.sent[k]))
    && (s.swapper.Writing? ==> RecordOk(c, s, s.swapper.record))
  }

  /** Whoever held frame k when it was released still holds it, or has written to freed memory. */
  ghost predicate StrayOk(s: State) {
    forall k :: 0 <= k < |s.released| ==> |CountedIn(s.stray, k)| + PendingIn(s.workers, k) == s.released[k]
  }

  ghost predicate Balanced(s: State) {
    multiset(s.loads) == multiset(s.updates) + multiset(s.stray) + Pending(s.workers)
  }

  ghost predicate Inv(c: Config, s: State) {
    && SwapperOk(c, s) && UpdatesOk(c, s) && FramesOk(c, s) && RecordsOk(c, s) && WorkersOk(c, s)
    && StrayOk(s) && Balanced(s)
  }

  // ----- counting -----

  lemma AddToBoth(a: multiset<Update>, x: multiset<Update>, b: multiset<Update>, y: multiset<Update>,
                  l: multiset<Update>)
    requires a + x == b + y
    ensures (a + l) + x == (b + l) + y
  {
    assert (a + l) + x == (a + x) + l;
    assert (b + l) + y == (b + y) + l;
  }

  lemma Exchange(p: multiset<Update>, x: multiset<Update>, y: multiset<Update>)
    ensures (p + x) + y == (p + y) + x
  {}

  lemma PendingLast(workers: seq<Worker>)
    requires workers != []
    ensures Pending(workers) == Pending(workers[..|workers| - 1]) + PendingOf(workers[|workers| - 1])
  {}

  lemma {:induction false} PendingUpdate(workers: seq<Worker>, w: nat, v: Worker)
    requires w < |workers|
    ensures Pending(workers[w := v]) + PendingOf(workers[w]) == Pending(workers) + PendingOf(v)
    decreases workers
  {
    hide Pending, PendingOf;
    var last := |workers| - 1;
    PendingLast(workers);
    PendingLast(workers[w := v]);
    if w == last {
      assert workers[w := v][..last] == workers[..last];
      Exchange(Pending(workers[..last]), PendingOf(v), PendingOf(workers[w]));
    } else {
      assert workers[w := v][..last] == workers[..last][w := v];
      PendingUpdate(workers[..last], w, v);
      assert workers[w := v][last] == workers[last] && workers[..last][w] == workers[w];
      AddToBoth(Pending(workers[..last][w := v]), PendingOf(workers[w]), Pending(workers[..last]), PendingOf(v),
                PendingOf(workers[last]));
    }
  }

  lemma {:induction false} PendingInUpdate(workers: seq<Worker>, w: nat, v: Worker, k: nat)
    requires w < |workers|
    ensures PendingIn(workers[w := v], k) ==
            PendingIn(workers, k) - (if Updates(workers[w], k) then 1 else 0) + (if Updates(v, k) then 1 else 0)
    decreases workers
  {
    var last := |workers| - 1;
    if w == last {
      assert workers[w := v][..last] == workers[..last];
    } else {
      assert workers[w := v][..last] == workers[..last][w := v];
      PendingInUpdate(workers[..last], w, v, k);
    }
  }

  lemma {:induction false} NothingPending(workers: seq<Worker>)
    requires forall w :: 0 <= w < |workers| ==> workers[w].Polling?
    ensures Pending(workers) == multiset{}
  {
    if workers != [] {
      NothingPending(workers[..|workers| - 1]);
    }
  }

  lemma {:induction false} PendingInBound(workers: seq<Worker>, k: nat)
    ensures PendingIn(workers, k) == 0 <==> forall w :: 0 <= w < |workers| ==> !Updates(workers[w], k)
    ensures PendingIn(workers, k) == |workers| <==> forall w :: 0 <= w < |workers| ==> Updates(workers[w], k)
    decreases workers
  {
    if workers != [] {
      var last := |workers| - 1;
      PendingInBound(workers[..last], k);
      assert forall w :: 0 <= w < last ==> workers[..last][w] == workers[w];
    }
  }

  lemma {:induction false} NothingCounted(updates: seq<Update>, k: nat)
    requires forall n :: 0 <= n < |updates| ==> updates[n].frame != k
    ensures CountedIn(updates, k) == []
    decreases updates
  {
    if updates != [] {
      NothingCounted(updates[..|updates| - 1], k);
    }
  }

  lemma CountedAppend(updates: seq<Update>, u: Update, k: nat)
    ensures CountedIn(updates + [u], k) == CountedIn(updates, k) + (if u.frame == k then [u.ping] else [])
  {
    assert (updates + [u])[..|updates|] == updates;
  }

  lemma AccumulateAppend(size: nat, pings: seq<Ping>, p: Ping)
    requires InFrame(pings, size) && p.pixel < size
    ensures InFrame(pings + [p], size)
    ensures Accumulate(size, pings + [p]) ==
            Accumulate(size, pings)[p.pixel := AddPing(Accumulate(size, pings)[p.pixel], p.colour)]
  {
    assert (pings + [p])[..|pings|] == pings;
  }

  lemma CarriedAppend(updates: seq<Update>, u: Update, k: nat, at: seq<nat>)
    ensures CarriedIn(updates + [u], k, at) ==
            CarriedIn(updates, k, at) + (if u.frame == k && InTime(at, u.ping.pixel, |updates|) then [u.ping] else [])
  {
    assert (updates + [u])[..|updates|] == updates;
  }

  lemma {:induction false} CarriedInFrame(updates: seq<Update>, k: nat, at: seq<nat>, size: nat)
    requires forall n :: 0 <= n < |updates| ==> updates[n].ping.pixel < size
    ensures InFrame(CarriedIn(updates, k, at), size)
    decreases updates
  {
    if updates != [] {
      CarriedInFrame(updates[..|updates| - 1], k, at, size);
    }
  }

  /** Copying a pixel now leaves out none of the pings counted so far. */
  lemma {:induction false} CarriedCopy(updates: seq<Update>, k: nat, at: seq<nat>, now: nat)
    requires |updates| <= now
    ensures CarriedIn(updates, k, at + [now]) == CarriedIn(updates, k, at)
    decreases updates
  {
    if updates != [] {
      var n := |updates| - 1;
      CarriedCopy(updates[..n], k, at, now);
      assert InTime(at + [now], updates[n].ping.pixel, n) == InTime(at, updates[n].ping.pixel, n);
    }
  }

  /** All pings counted so far at a pixel that has not been copied are carried. */
  lemma {:induction false} CarriedUncopied(updates: seq<Update>, k: nat, at: seq<nat>, p: nat)
    requires p >= |at|
    ensures TotalsAt(CarriedIn(updates, k, at), p) == TotalsAt(CountedIn(updates, k), p)
    decreases updates
  {
    if updates != [] {
      var n := |updates| - 1;
      var ping := updates[n].ping;
      CarriedUncopied(updates[..n], k, at, p);
      TotalsAppend(CarriedIn(updates[..n], k, at), ping, p);
      TotalsAppend(CountedIn(updates[..n], k), ping, p);
      hide TotalsAt;
    }
  }

  lemma TotalsAppend(pings: seq<Ping>, ping: Ping, p: nat)
    ensures TotalsAt(pings + [ping], p) ==
            var t := TotalsAt(pings, p);
            if ping.pixel != p then t
            else Totals(t.r + ping.colour.r, t.g + ping.colour.g, t.b + ping.colour.b, t.n + 1)
    ensures pings + [] == pings
  {
    assert (pings + [ping])[..|pings|] == pings;
  }

  /** What is carried lies between what was counted before the writing began and all that is counted. */
  lemma {:induction false} CarriedBounds(updates: seq<Update>, k: nat, at: seq<nat>, from: nat)
    requires from <= |updates| && forall p :: 0 <= p < |at| ==> from <= at[p]
    ensures |CountedIn(updates[..from], k)| <= |CarriedIn(updates, k, at)| <= |CountedIn(updates, k)|
    decreases updates
  {
    if updates != [] {
      var n := |updates| - 1;
      if from <= n {
        CarriedBounds(updates[..n], k, at, from);
        assert updates[..n][..from] == updates[..from];
      } else {
        CarriedBounds(updates[..n], k, at, n);
        assert updates[..n][..n] == updates[..n] && updates[..from] == updates;
      }
    }
  }

  // ----- the invariant holds -----

  lemma InitInv(c: Config)
    ensures Inv(c, Init(c))
  {
    NothingPending(Init(c).workers);
  }

  /** A step that neither counts nor strays nor loads leaves a record as it is. */
  lemma RecordAside(c: Config, s: State, s': State, r: Sent)
    requires RecordOk(c, s, r)
    requires s'.updates == s.updates && s'.stray == s.stray
             && PendingIn(s'.workers, r.frame) == PendingIn(s.workers, r.frame)
    ensures RecordOk(c, s', r)
  {
    hide Accumulate, CountedIn, CarriedIn, PendingIn, InFrame;
  }

  lemma LoadInv(c: Config, s: State, w: nat, ping: Ping)
    requires Inv(c, s) && Enabled(c, s, Load(w, ping))
    ensures Inv(c, Apply(c, s, Load(w, ping)))
  {
    hide Accumulate, CountedIn, CarriedIn, Pending, PendingIn, InFrame, RecordOk;
    var s' := Apply(c, s, Load(w, ping));
    PendingUpdate(s.workers, w, Updating(s.current, ping));
    var u := Update(s.current, ping);
    assert Pending(s'.workers) == Pending(s.workers) + multiset{u};
    assert multiset(s'.loads) == multiset(s.loads) + multiset{u};
    assert Balanced(s');
    forall k: nat | k < s.current
      ensures PendingIn(s'.workers, k) == PendingIn(s.workers, k)
    {
      PendingInUpdate(s.workers, w, Updating(s.current, ping), k);
    }
    forall r | RecordOk(c, s, r) && r.frame < s.current
      ensures RecordOk(c, s', r)
    {
      RecordAside(c, s, s', r);
    }
  }

  /** Counting a ping changes the one frame its worker had loaded. */
  lemma CountFrames(c: Config, s: State, w: nat)
    requires Inv(c, s) && Enabled(c, s, Count(w))
    ensures FramesOk(c, Apply(c, s, Count(w))) && UpdatesOk(c, Apply(c, s, Count(w)))
  {
    hide Accumulate, CountedIn, CarriedIn, Pending, PendingIn, RecordsOk, StrayOk, Balanced;
    var s' := Apply(c, s, Count(w));
    var Updating(f, ping) := s.workers[w];
    forall k | 0 <= k < |s'.frames|
      ensures InFrame(CountedIn(s'.updates, k), c.size)
      ensures s.stray == [] ==> s'.frames[k] == Accumulate(c.size, CountedIn(s'.updates, k))
    {
      CountedAppend(s.updates, Update(f, ping), k);
      if k == f {
        AccumulateAppend(c.size, CountedIn(s.updates, k), ping);
      } else {
        assert CountedIn(s.updates, k) + [] == CountedIn(s.updates, k);
      }
    }
  }

  /** A ping counted in a frame that is written, or being written, is one more update of it since the
      writing began and one less pending. */
  lemma CountHeld(c: Config, s: State, w: nat, r: Sent)
    requires Inv(c, s) && Enabled(c, s, Count(w)) && r.from <= |s.updates| && HeldOk(c, s, r)
    ensures HeldOk(c, Apply(c, s, Count(w)), r)
  {
    hide Accumulate, CountedIn, CarriedIn, Pending, PendingIn, InFrame, RecordsOk, StrayOk, Balanced, FramesOk;
    var s' := Apply(c, s, Count(w));
    assert s'.updates[..r.from] == s.updates[..r.from];
    CountedAppend(s.updates, Update(s.workers[w].frame, s.workers[w].ping), r.frame);
    PendingInUpdate(s.workers, w, Polling, r.frame);
  }

  /** It is carried exactly if its pixel is still to be copied, so that the pixels copied stay right. */
  lemma CountCopied(c: Config, s: State, w: nat, r: Sent)
    requires Inv(c, s) && Enabled(c, s, Count(w)) && CopyOk(c, s, r)
    ensures CopyOk(c, Apply(c, s, Count(w)), r)
  {
    hide Accumulate, CountedIn, CarriedIn, Pending, PendingIn, RecordsOk, StrayOk, Balanced, FramesOk;
    var ping := s.workers[w].ping;
    var carried := CarriedIn(s.updates, r.frame, r.at);
    CarriedAppend(s.updates, Update(s.workers[w].frame, ping), r.frame, r.at);
    AccumulateAppend(c.size, carried, ping);
    assert carried + [] == carried;
  }

  lemma CountBalanced(c: Config, s: State, w: nat)
    requires Inv(c, s) && Enabled(c, s, Count(w))
    ensures Balanced(Apply(c, s, Count(w)))
  {
    hide Accumulate, CountedIn, CarriedIn, Pending, PendingIn, InFrame;
    var s' := Apply(c, s, Count(w));
    var u := Update(s.workers[w].frame, s.workers[w].ping);
    PendingUpdate(s.workers, w, Polling);
    assert Pending(s'.workers) + multiset{u} == Pending(s.workers);
    assert multiset(s'.updates) == multiset(s.updates) + multiset{u};
  }

  lemma CountRecords(c: Config, s: State, w: nat)
    requires Inv(c, s) && Enabled(c, s, Count(w))
    ensures RecordsOk(c, Apply(c, s, Count(w))) && StrayOk(Apply(c, s, Count(w)))
  {
    hide CountedIn, PendingIn, FramesOk, UpdatesOk, WorkersOk, SwapperOk, Balanced, CopyOk, HeldOk;
    var s' := Apply(c, s, Count(w));
    forall r | RecordOk(c, s, r)
      ensures RecordOk(c, s', r)
    {
      FromInRange(c, s, r);
      CountHeld(c, s, w, r);
      CountCopied(c, s, w, r);
    }
    forall k | 0 <= k < |s.released|
      ensures PendingIn(s'.workers, k) == PendingIn(s.workers, k)
    {
      PendingInUpdate(s.workers, w, Polling, k);
    }
  }

  lemma FromInRange(c: Config, s: State, r: Sent)
    requires CopyOk(c, s, r)
    ensures r.from <= |s.updates|
  {}

  lemma CountInv(c: Config, s: State, w: nat)
    requires Inv(c, s) && Enabled(c, s, Count(w))
    ensures Inv(c, Apply(c, s, Count(w)))
  {
    hide FramesOk, RecordsOk, StrayOk, UpdatesOk, Balanced;
    CountFrames(c, s, w);
    CountBalanced(c, s, w);
    CountRecords(c, s, w);
  }

  lemma StrayBalanced(c: Config, s: State, w: nat, damaged: seq<seq<Rgba16>>)
    requires Inv(c, s) && Enabled(c, s, Stray(w, damaged))
    ensures Balanced(Apply(c, s, Stray(w, damaged)))
  {
    hide Accumulate, CountedIn, CarriedIn, Pending, PendingIn, InFrame;
    var s' := Apply(c, s, Stray(w, damaged));
    var u := Update(s.workers[w].frame, s.workers[w].ping);
    PendingUpdate(s.workers, w, Polling);
    assert Pending(s'.workers) + multiset{u} == Pending(s.workers);
    assert multiset(s'.stray) == multiset(s.stray) + multiset{u};
  }

  /** A stray write for frame k is one more missed ping and one less pending update. */
  lemma StrayStep(c: Config, s: State, w: nat, damaged: seq<seq<Rgba16>>, k: nat)
    requires Inv(c, s) && Enabled(c, s, Stray(w, damaged))
    ensures var s' := Apply(c, s, Stray(w, damaged));
            |CountedIn(s'.stray, k)| + PendingIn(s'.workers, k) == |CountedIn(s.stray, k)| + PendingIn(s.workers, k)
  {
    hide Accumulate, CountedIn, Pending, PendingIn, InFrame, FramesOk, RecordsOk, StrayOk, UpdatesOk, Balanced;
    CountedAppend(s.stray, Update(s.workers[w].frame, s.workers[w].ping), k);
    PendingInUpdate(s.workers, w, Polling, k);
  }

  lemma StrayRecords(c: Config, s: State, w: nat, damaged: seq<seq<Rgba16>>)
    requires Inv(c, s) && Enabled(c, s, Stray(w, damaged))
    ensures var s' := Apply(c, s, Stray(w, damaged)); RecordsOk(c, s') && StrayOk(s')
  {
    hide Accumulate, CountedIn, CarriedIn, Pending, PendingIn, InFrame, FramesOk, UpdatesOk, WorkersOk, SwapperOk,
         Balanced;
    var s' := Apply(c, s, Stray(w, damaged));
    forall k: nat
      ensures |CountedIn(s'.stray, k)| + PendingIn(s'.workers, k) == |CountedIn(s.stray, k)| + PendingIn(s.workers, k)
    {
      StrayStep(c, s, w, damaged, k);
    }
    forall r | RecordOk(c, s, r)
      ensures RecordOk(c, s', r)
    {
      assert CopyOk(c, s', r);
      assert HeldOk(c, s', r);
    }
    hide RecordOk;
  }

  lemma StrayFrames(c: Config, s: State, w: nat, damaged: seq<seq<Rgba16>>)
    requires Inv(c, s) && Enabled(c, s, Stray(w, damaged))
    ensures var s' := Apply(c, s, Stray(w, damaged)); FramesOk(c, s') && UpdatesOk(c, s')
  {
    hide Accumulate, CountedIn, Pending, PendingIn, InFrame, RecordsOk, StrayOk, Balanced, WorkersOk;
    var s' := Apply(c, s, Stray(w, damaged));
    assert s'.stray != [];
    assert forall k :: 0 <= k < |s.frames| ==> InFrame(CountedIn(s.updates, k), c.size);
  }

  lemma StrayThreads(c: Config, s: State, w: nat, damaged: seq<seq<Rgba16>>)
    requires Inv(c, s) && Enabled(c, s, Stray(w, damaged))
    ensures var s' := Apply(c, s, Stray(w, damaged)); SwapperOk(c, s') && WorkersOk(c, s')
  {
    hide Accumulate, PendingIn, RecordsOk, StrayOk, Balanced, FramesOk, UpdatesOk;
  }

  lemma StrayInv(c: Config, s: State, w: nat, damaged: seq<seq<Rgba16>>)
    requires Inv(c, s) && Enabled(c, s, Stray(w, damaged))
    ensures Inv(c, Apply(c, s, Stray(w, damaged)))
  {
    hide Apply, Enabled, SwapperOk, WorkersOk, RecordsOk, StrayOk, Balanced, FramesOk, UpdatesOk;
    StrayBalanced(c, s, w, damaged);
    StrayRecords(c, s, w, damaged);
    StrayFrames(c, s, w, damaged);
    StrayThreads(c, s, w, damaged);
  }

  /** The steps of the frames core leave the records of the frames sent before as they are. */
  lemma SentAside(c: Config, s: State, a: Action)
    requires Inv(c, s) && Enabled(c, s, a) && !a.Load? && !a.Count? && !a.Stray?
    ensures forall r :: RecordOk(c, s, r) ==> RecordOk(c, Apply(c, s, a), r)
  {
    hide Accumulate, CountedIn, CarriedIn, PendingIn, InFrame, RecordOk, Inv;
    forall r | RecordOk(c, s, r)
      ensures RecordOk(c, Apply(c, s, a), r)
    {
      RecordAside(c, s, Apply(c, s, a), r);
    }
  }

  /** All steps of the frames core but the swap leave frames, workers and histories as they are. */
  lemma RestAside(c: Config, s: State, a: Action)
    requires Inv(c, s) && Enabled(c, s, a)
    requires a.SwapLoad? || a.StartWrite? || a.WritePixel? || a.EndWrite? || a.Release?
    ensures var s' := Apply(c, s, a); FramesOk(c, s') && UpdatesOk(c, s') && WorkersOk(c, s') && Balanced(s')
  {
    hide Accumulate, CountedIn, Pending, PendingIn, InFrame, RecordsOk, StrayOk, SwapperOk;
  }

  lemma CoreSwapper(c: Config, s: State, a: Action)
    requires Inv(c, s) && Enabled(c, s, a)
    requires a.SwapLoad? || a.StartWrite? || a.WritePixel? || a.EndWrite? || a.Release?
    ensures SwapperOk(c, Apply(c, s, a))
  {
    hide Accumulate, CountedIn, PendingIn, InFrame, RecordsOk, StrayOk, Balanced, UpdatesOk, WorkersOk;
    assert Shaped(c, s.frames);
    hide FramesOk;
  }

  lemma CoreStray(c: Config, s: State, a: Action)
    requires Inv(c, s) && Enabled(c, s, a)
    requires a.SwapLoad? || a.StartWrite? || a.WritePixel? || a.EndWrite?
    ensures StrayOk(Apply(c, s, a))
  {
    hide Accumulate, CountedIn, PendingIn, RecordsOk, Balanced, UpdatesOk, WorkersOk, FramesOk, SwapperOk;
  }

  lemma SwapLoadInv(c: Config, s: State)
    requires Inv(c, s) && Enabled(c, s, SwapLoad)
    ensures Inv(c, Apply(c, s, SwapLoad))
  {
    SentAside(c, s, SwapLoad);
    RestAside(c, s, SwapLoad);
    CoreSwapper(c, s, SwapLoad);
    CoreStray(c, s, SwapLoad);
    hide RecordOk, FramesOk, UpdatesOk, WorkersOk, Balanced, StrayOk, SwapperOk;
  }

  lemma SwapStoreInv(c: Config, s: State)
    requires Inv(c, s) && Enabled(c, s, SwapStore)
    ensures Inv(c, Apply(c, s, SwapStore))
  {
    NothingCounted(s.updates, |s.frames|);
    SentAside(c, s, SwapStore);
    hide Accumulate, CountedIn, CarriedIn, Pending, PendingIn, RecordOk;
    var s' := Apply(c, s, SwapStore);
    assert forall k :: 0 <= k < |s.frames| ==> s'.frames[k] == s.frames[k];
    assert FramesOk(c, s');
    hide InFrame;
  }

  lemma StartCopy(c: Config, s: State, r: Sent)
    requires UpdatesOk(c, s) && r.pixels == [] && r.at == [] && r.from == |s.updates|
    ensures CopyOk(c, s, r)
  {
    CarriedInFrame(s.updates, r.frame, [], c.size);
    hide Accumulate, CarriedIn, InFrame;
  }

  lemma StartHeld(c: Config, s: State, r: Sent)
    requires UpdatesOk(c, s) && |s.workers| == c.cores && r.frame >= |s.released|
    requires r.from == |s.updates| && r.held == PendingIn(s.workers, r.frame)
    ensures HeldOk(c, s, r)
  {
    NothingCounted(s.stray, r.frame);
    assert s.updates[..|s.updates|] == s.updates;
    hide CountedIn;
  }

  lemma StartWriteInv(c: Config, s: State)
    requires Inv(c, s) && Enabled(c, s, StartWrite)
    ensures Inv(c, Apply(c, s, StartWrite))
  {
    SentAside(c, s, StartWrite);
    RestAside(c, s, StartWrite);
    CoreSwapper(c, s, StartWrite);
    CoreStray(c, s, StartWrite);
    hide CountedIn, PendingIn, CopyOk, HeldOk, FramesOk, UpdatesOk, Balanced, StrayOk;
    var s' := Apply(c, s, StartWrite);
    StartCopy(c, s', s'.swapper.record);
    StartHeld(c, s', s'.swapper.record);
    assert RecordOk(c, s', s'.swapper.record);
    hide RecordOk, WorkersOk, SwapperOk;
  }

  /** The pixel copied is that of the pings counted at it so far, all of which are carried. */
  lemma WriteNextCopy(c: Config, s: State)
    requires Inv(c, s) && Enabled(c, s, WritePixel)
    ensures CopyOk(c, s, WriteNext(s))
  {
    hide Accumulate, CountedIn, CarriedIn, PendingIn, TotalsAt, StrayOk, Balanced, WorkersOk, InFrame;
    var r := s.swapper.record;
    var p := |r.pixels|;
    assert RecordOk(c, s, r);
    CarriedCopy(s.updates, r.frame, r.at, |s.updates|);
    if s.stray == [] {
      CarriedUncopied(s.updates, r.frame, r.at, p);
      AccumulateIsTotals(c.size, CountedIn(s.updates, r.frame), p);
      AccumulateIsTotals(c.size, CarriedIn(s.updates, r.frame, r.at), p);
    }
  }

  lemma NextRecord(c: Config, s: State)
    requires Inv(c, s) && Enabled(c, s, WritePixel)
    ensures RecordOk(c, s, WriteNext(s))
  {
    WriteNextCopy(c, s);
    assert RecordOk(c, s, s.swapper.record);
    hide Accumulate, CountedIn, CarriedIn, PendingIn, FramesOk, RecordsOk, StrayOk, Balanced, UpdatesOk, WorkersOk;
    hide CopyOk;
  }

  lemma WritePixelInv(c: Config, s: State)
    requires Inv(c, s) && Enabled(c, s, WritePixel)
    ensures Inv(c, Apply(c, s, WritePixel))
  {
    SentAside(c, s, WritePixel);
    NextRecord(c, s);
    RestAside(c, s, WritePixel);
    CoreSwapper(c, s, WritePixel);
    CoreStray(c, s, WritePixel);
    hide RecordOk, FramesOk, UpdatesOk, WorkersOk, Balanced, StrayOk, SwapperOk, WriteNext;
  }

  lemma EndRecords(c: Config, s: State)
    requires Inv(c, s) && Enabled(c, s, EndWrite)
    ensures RecordsOk(c, Apply(c, s, EndWrite))
  {
    SentAside(c, s, EndWrite);
    hide Accumulate, CountedIn, InFrame, RecordOk, UpdatesOk, WorkersOk, Balanced, StrayOk;
    assert Shaped(c, s.frames);
    hide FramesOk;
  }

  lemma EndWriteInv(c: Config, s: State)
    requires Inv(c, s) && Enabled(c, s, EndWrite)
    ensures Inv(c, Apply(c, s, EndWrite))
  {
    EndRecords(c, s);
    RestAside(c, s, EndWrite);
    CoreSwapper(c, s, EndWrite);
    CoreStray(c, s, EndWrite);
    hide RecordsOk, FramesOk, UpdatesOk, WorkersOk, Balanced, StrayOk, SwapperOk, Apply, Enabled;
  }

  lemma ReleaseStray(c: Config, s: State)
    requires Inv(c, s) && Enabled(c, s, Release)
    ensures StrayOk(Apply(c, s, Release))
  {
    NothingCounted(s.stray, |s.released|);
    hide Accumulate, CountedIn, PendingIn, RecordsOk, Balanced, UpdatesOk, WorkersOk, FramesOk;
  }

  lemma ReleaseRecords(c: Config, s: State)
    requires Inv(c, s) && Enabled(c, s, Release)
    ensures RecordsOk(c, Apply(c, s, Release))
  {
    SentAside(c, s, Release);
    hide RecordOk, FramesOk, UpdatesOk, WorkersOk, Balanced, StrayOk, SwapperOk, PendingIn;
  }

  lemma ReleaseInv(c: Config, s: State)
    requires Inv(c, s) && Enabled(c, s, Release)
    ensures Inv(c, Apply(c, s, Release))
  {
    ReleaseRecords(c, s);
    RestAside(c, s, Release);
    CoreSwapper(c, s, Release);
    ReleaseStray(c, s);
    hide RecordsOk, FramesOk, UpdatesOk, WorkersOk, Balanced, StrayOk, SwapperOk, Apply, Enabled;
  }

  lemma StepInv(c: Config, s: State, a: Action)
    requires Inv(c, s) && Enabled(c, s, a)
    ensures Inv(c, Apply(c, s, a))
  {
    hide Inv;
    match a
    case Load(w, ping) => LoadInv(c, s, w, ping);
    case Count(w) => CountInv(c, s, w);
    case Stray(w, damaged) => StrayInv(c, s, w, damaged);
    case SwapLoad => SwapLoadInv(c, s);
    case SwapStore => SwapStoreInv(c, s);
    case StartWrite => StartWriteInv(c, s);
    case WritePixel => WritePixelInv(c, s);
    case EndWrite => EndWriteInv(c, s);
    case Release => ReleaseInv(c, s);
  }

  lemma {:induction false} RunInv(c: Config, s: State, run: seq<Action>)
    requires Inv(c, s) && CanRun(c, s, run)
    ensures Inv(c, After(c, s, run))
    decreases run
  {
    if run != [] {
      StepInv(c, s, run[0]);
      RunInv(c, Apply(c, s, run[0]), run[1..]);
    }
  }

  lemma ReachableInv(c: Config, s: State)
    requires Reachable(c, s)
    ensures Inv(c, s)
  {
    var run :| CanRun(c, Init(c), run) && After(c, Init(c), run) == s;
    InitInv(c);
    RunInv(c, Init(c), run);
  }

  lemma {:induction false} RunConcat(c: Config, s: State, run: seq<Action>, more: seq<Action>)
    requires CanRun(c, s, run) && CanRun(c, After(c, s, run), more)
    ensures CanRun(c, s, run + more) && After(c, s, run + more) == After(c, After(c, s, run), more)
    decreases run
  {
    if run == [] {
      assert run + more == more;
    } else {
      assert (run + more)[1..] == run[1..] + more;
      RunConcat(c, Apply(c, s, run[0]), run[1..], more);
    }
  }

  lemma OneStepRun(c: Config, s: State, a: Action)
    requires Enabled(c, s, a)
    ensures CanRun(c, s, [a]) && After(c, s, [a]) == Apply(c, s, a)
  {
    assert [a][1..] == [];
  }

  lemma ReachStep(c: Config, s: State, a: Action)
    requires Reachable(c, s) && Enabled(c, s, a)
    ensures Reachable(c, Apply(c, s, a))
  {
    var run :| CanRun(c, Init(c), run) && After(c, Init(c), run) == s;
    OneStepRun(c, s, a);
    RunConcat(c, Init(c), run, [a]);
  }

  lemma InitReachable(c: Config)
    ensures Reachable(c, Init(c))
  {
    assert CanRun(c, Init(c), []);
  }

  lemma {:induction false} HistoryGrows(c: Config, s: State, run: seq<Action>)
    requires CanRun(c, s, run)
    ensures var s' := After(c, s, run); s.sent <= s'.sent && s.released <= s'.released && s.updates <= s'.updates
    decreases run
  {
    hide Accumulate, PendingIn;
    if run != [] {
      HistoryGrows(c, Apply(c, s, run[0]), run[1..]);
    }
  }

  lemma {:induction false} ReachRun(c: Config, s: State, run: seq<Action>)
    requires Reachable(c, s) && CanRun(c, s, run)
    ensures Reachable(c, After(c, s, run))
    decreases run
  {
    hide Reachable;
    if run != [] {
      ReachStep(c, s, run[0]);
      ReachRun(c, Apply(c, s, run[0]), run[1..]);
    }
  }

  // ----- conservation -----

  /** The pings of a run's pointer loads, each with the number of frame swaps before it. */
  function LoadsFrom(swaps: nat, run: seq<Action>): seq<Update>
    decreases run
  {
    if run == [] then []
    else if run[0].Load? then [Update(swaps, run[0].ping)] + LoadsFrom(swaps, run[1..])
    else LoadsFrom(if run[0].SwapStore? then swaps + 1 else swaps, run[1..])
  }

  lemma {:induction false} LoadsOfRun(c: Config, s: State, run: seq<Action>)
    requires Inv(c, s) && CanRun(c, s, run)
    ensures After(c, s, run).loads == s.loads + LoadsFrom(s.current, run)
    decreases run
  {
    hide Inv, Apply, Enabled;
    if run != [] {
      StepInv(c, s, run[0]);
      LoadsOfStep(c, s, run[0]);
      LoadsOfRun(c, Apply(c, s, run[0]), run[1..]);
    }
  }

  lemma LoadsOfStep(c: Config, s: State, a: Action)
    requires Inv(c, s) && Enabled(c, s, a)
    ensures Apply(c, s, a).current == if a.SwapStore? then s.current + 1 else s.current
    ensures Apply(c, s, a).loads == s.loads + (if a.Load? then [Update(s.current, a.ping)] else [])
  {
    hide Accumulate, FramesOk, RecordsOk, StrayOk, UpdatesOk, WorkersOk, Pending, PendingIn, Balanced;
  }

  /** In every run, each ping is loaded for the frame that is current at that moment: frame n after the
      n-th swap. */
  lemma LoadsAreCurrent(c: Config, run: seq<Action>)
    requires CanRun(c, Init(c), run)
    ensures After(c, Init(c), run).loads == LoadsFrom(0, run)
  {
    InitInv(c);
    LoadsOfRun(c, Init(c), run);
  }

  /** Every ping is counted in exactly one frame, the one that was current when its worker loaded the
      pointer, or strays: at any time the loads made so far are the updates, the stray writes and those
      still pending. Until the first stray write every frame is the accumulation of its own updates. */
  lemma PingsAreConserved(c: Config, s: State, k: nat, pixel: nat)
    requires Reachable(c, s) && k < |s.frames| && pixel < c.size
    ensures multiset(s.loads) == multiset(s.updates) + multiset(s.stray) + Pending(s.workers)
    ensures InFrame(CountedIn(s.updates, k), c.size) && pixel < |s.frames[k]|
    ensures s.stray == [] ==> s.frames[k][pixel] == Wrapped(TotalsAt(CountedIn(s.updates, k), pixel))
  {
    ReachableInv(c, s);
    AccumulateIsTotals(c.size, CountedIn(s.updates, k), pixel);
  }

  /** The pings counted in each of the first n frames. */
  function FramePings(updates: seq<Update>, n: nat): (pings: seq<seq<Ping>>)
    ensures |pings| == n
  {
    seq(n, k requires 0 <= k < n => CountedIn(updates, k))
  }

  lemma {:induction false} FramePingsAppend(updates: seq<Update>, u: Update, n: nat)
    ensures PingCount(FramePings(updates + [u], n))
            == PingCount(FramePings(updates, n)) + (if u.frame < n then 1 else 0)
  {
    hide CountedIn;
    if n > 0 {
      FramePingsAppend(updates, u, n - 1);
      CountedAppend(updates, u, n - 1);
      assert FramePings(updates, n)[..n - 1] == FramePings(updates, n - 1);
      assert FramePings(updates + [u], n)[..n - 1] == FramePings(updates + [u], n - 1);
    }
  }

  lemma {:induction false} FramePingsEmpty(n: nat)
    ensures PingCount(FramePings([], n)) == 0
  {
    if n > 0 {
      FramePingsEmpty(n - 1);
      assert FramePings([], n)[..n - 1] == FramePings([], n - 1);
    }
  }

  lemma {:induction false} AllCounted(updates: seq<Update>, n: nat)
    requires forall i :: 0 <= i < |updates| ==> updates[i].frame < n
    ensures PingCount(FramePings(updates, n)) == |updates|
    decreases updates
  {
    if updates == [] {
      FramePingsEmpty(n);
    } else {
      var before := updates[..|updates| - 1];
      AllCounted(before, n);
      FramePingsAppend(before, updates[|updates| - 1], n);
      assert before + [updates[|updates| - 1]] == updates;
    }
  }

  /** In every reachable state without a stray write, under every schedule, the ping counts of all frames,
      each as it was last, add up to the number of pings counted so far exactly when no 16-bit count has
      wrapped, and never exceed it. */
  lemma AlphaIsConserved(c: Config, s: State)
    requires Reachable(c, s) && s.stray == []
    ensures AlphaOver(s.frames) <= |s.updates|
    ensures AlphaOver(s.frames) == |s.updates| <==> NoFrameWraps(c.size, FramePings(s.updates, |s.frames|))
  {
    ReachableInv(c, s);
    hide Accumulate, CountedIn;
    AlphaOverFrames(c.size, s.frames, FramePings(s.updates, |s.frames|));
    AllCounted(s.updates, |s.frames|);
  }

  /** Every frame that was swapped out is written to the stream exactly once and in order, and then
      released; at most the latest one is still on its way. */
  lemma EveryFrameSentOnce(c: Config, s: State)
    requires Reachable(c, s)
    ensures forall k :: 0 <= k < |s.sent| ==> s.sent[k].frame == k && |s.sent[k].pixels| == c.size
    ensures |s.released| <= |s.sent| <= s.current <= |s.released| + 1
    ensures s.current == |s.sent| + 1 <==> s.swapper.Sending? || s.swapper.Writing?
    ensures |s.sent| == |s.released| + 1 <==> s.swapper.Releasing?
  {
    ReachableInv(c, s);
  }

  /** What the stream carries for a frame written before any stray write is the accumulation of exactly those of
      its pings that were counted before their own pixel was copied. */
  lemma SentIsCarried(c: Config, s: State, k: nat)
    requires Reachable(c, s) && k < |s.sent|
    ensures |s.sent[k].pixels| == |s.sent[k].at| == c.size
    ensures InFrame(CarriedIn(s.updates, k, s.sent[k].at), c.size)
    ensures s.sent[k].clean ==> s.sent[k].pixels == Accumulate(c.size, CarriedIn(s.updates, k, s.sent[k].at))
    ensures s.stray == [] ==> s.sent[k].clean
  {
    ReachableInv(c, s);
    hide CarriedIn, Accumulate, InFrame;
    assert RecordOk(c, s, s.sent[k]);
  }
}
