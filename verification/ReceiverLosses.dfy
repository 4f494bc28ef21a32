/** What the receiver loses to its worker cores' bare references: pings that a frame's bytes in the
    stream do not carry, and writes to frames that have been released. */
module ReceiverLosses {
  import opened Accumulator
  import opened Pixels
  import opened ReceiverSystem

  /** The pings that the bytes of frame k carry. */
  function Carried(s: State, k: nat): seq<Ping>
    requires k < |s.sent|
  {
    CarriedIn(s.updates, k, s.sent[k].at)
  }

  /** Pings counted in frame k only after their pixel was copied, while the frame still existed. */
  function Late(s: State, k: nat): int
    requires k < |s.sent|
  {
    |CountedIn(s.updates, k)| - |Carried(s, k)|
  }

  /** Pings for frame k that its bytes do not carry: the late ones and the stray ones. */
  function Missed(s: State, k: nat): int
    requires k < |s.sent|
  {
    Late(s, k) + |CountedIn(s.stray, k)|
  }

  /** Pings counted in frame k while it was being written, just in time to be carried. */
  function JustInTime(s: State, k: nat): int
    requires k < |s.sent| && s.sent[k].from <= |s.updates|
  {
    |Carried(s, k)| - |CountedIn(s.updates[..s.sent[k].from], k)|
  }

  // ----- what the stream misses -----

  /** At any time the workers that held frame k when its writing began are accounted for: their pings were just in
      time, or are missed, or they still hold the frame. So at most one ping per core is missed. */
  lemma MissedAreHeld(c: Config, s: State, k: nat)
    requires Reachable(c, s) && k < |s.sent|
    ensures s.sent[k].from <= |s.updates| && 0 <= Late(s, k) <= Missed(s, k) && 0 <= JustInTime(s, k)
    ensures Missed(s, k) + JustInTime(s, k) + PendingIn(s.workers, k) == s.sent[k].held <= c.cores
  {
    ReachableInv(c, s);
    hide CarriedIn, CountedIn, PendingIn, Accumulate, InFrame;
    assert RecordOk(c, s, s.sent[k]);
    CarriedBounds(s.updates, k, s.sent[k].at, s.sent[k].from);
  }

  /** A record of frame k, finished or not, that began with these numbers. */
  predicate Recorded(s: State, k: nat, from: nat, held: nat) {
    if k < |s.sent| then s.sent[k].from == from && s.sent[k].held == held
    else
      && s.swapper.Writing? && s.swapper.record.frame == k
      && s.swapper.record.from == from && s.swapper.record.held == held
  }

  lemma RecordedStep(c: Config, s: State, a: Action, k: nat, from: nat, held: nat)
    requires Inv(c, s) && Enabled(c, s, a) && Recorded(s, k, from, held)
    ensures Recorded(Apply(c, s, a), k, from, held)
  {
    hide FramesOk, RecordsOk, StrayOk, UpdatesOk, WorkersOk, Balanced, Accumulate, PendingIn;
  }

  lemma {:induction false} RecordedRun(c: Config, s: State, run: seq<Action>, k: nat, from: nat, held: nat)
    requires Inv(c, s) && CanRun(c, s, run) && Recorded(s, k, from, held)
    ensures Recorded(After(c, s, run), k, from, held)
    decreases run
  {
    hide Inv, Recorded;
    if run != [] {
      StepInv(c, s, run[0]);
      RecordedStep(c, s, run[0], k, from, held);
      RecordedRun(c, Apply(c, s, run[0]), run[1..], k, from, held);
    }
  }

  lemma NextFrames(c: Config, s: State)
    requires Inv(c, s)
    ensures s.swapper.Sending? ==> s.swapper.frame == |s.sent| && s.swapper.frame < |s.frames|
    ensures s.swapper.Writing? ==> s.swapper.record.frame == |s.sent| && s.swapper.record.frame < |s.frames|
    ensures s.swapper.Sending? || s.swapper.Writing? ==> |s.released| == |s.sent|
    ensures s.swapper.Releasing? ==> s.swapper.frame == |s.released|
  {
    hide FramesOk, RecordsOk, StrayOk, UpdatesOk, WorkersOk, Balanced;
  }

  /** For every run from the moment the writing of frame k begins: once it is written, the pings that its bytes miss are
      those of the workers that held it at that moment, except the ones counted before their own pixel was copied and
      the ones still pending. */
  lemma WriteMissesExactly(c: Config, s: State, run: seq<Action>)
    requires Reachable(c, s) && Enabled(c, s, StartWrite) && CanRun(c, Apply(c, s, StartWrite), run)
    ensures var k, s' := s.swapper.frame, After(c, Apply(c, s, StartWrite), run);
            k < |s'.sent| ==>
              && s'.sent[k].from == |s.updates| <= |s'.updates| && 0 <= Late(s', k) <= Missed(s', k)
              && 0 <= JustInTime(s', k)
              && Missed(s', k) + JustInTime(s', k) + PendingIn(s'.workers, k) == PendingIn(s.workers, k)
  {
    ReachableInv(c, s);
    NextFrames(c, s);
    ReachStep(c, s, StartWrite);
    ReachRun(c, Apply(c, s, StartWrite), run);
    StepInv(c, s, StartWrite);
    hide Reachable, Inv, PendingIn, Late, Missed, JustInTime;
    var k, s1, s' := s.swapper.frame, Apply(c, s, StartWrite), After(c, Apply(c, s, StartWrite), run);
    RecordedRun(c, s1, run, k, |s.updates|, PendingIn(s.workers, k));
    if k < |s'.sent| {
      MissedAreHeld(c, s', k);
    }
  }

  lemma {:induction false} CarriedSettled(before: seq<Update>, updates: seq<Update>, k: nat, at: seq<nat>)
    requires before <= updates && forall n :: 0 <= n < |updates| ==> updates[n].ping.pixel < |at|
    requires forall p :: 0 <= p < |at| ==> at[p] <= |before|
    ensures CarriedIn(updates, k, at) == CarriedIn(before, k, at)
    decreases updates
  {
    if updates != before {
      var n := |updates| - 1;
      CarriedSettled(before, updates[..n], k, at);
      assert !InTime(at, updates[n].ping.pixel, n);
    }
  }

  /** From the end of the writing on, the pings missed and those pending stay the same in number. */
  lemma MissedAfterWrite(c: Config, s: State, run: seq<Action>, k: nat)
    requires Reachable(c, s) && k < |s.sent| && CanRun(c, s, run)
    ensures var s' := After(c, s, run);
            && k < |s'.sent| && Carried(s', k) == Carried(s, k)
            && Missed(s', k) + PendingIn(s'.workers, k) == Missed(s, k) + PendingIn(s.workers, k)
  {
    ReachRun(c, s, run);
    HistoryGrows(c, s, run);
    var s' := After(c, s, run);
    CarriedKept(c, s, s', k);
    MissedAreHeld(c, s, k);
    MissedAreHeld(c, s', k);
    hide Reachable, CarriedIn, CountedIn, PendingIn;
    assert s'.updates[..s.sent[k].from] == s.updates[..s.sent[k].from];
  }

  lemma CarriedKept(c: Config, s: State, s': State, k: nat)
    requires Reachable(c, s) && Reachable(c, s') && k < |s.sent| && s.sent <= s'.sent && s.updates <= s'.updates
    ensures Carried(s', k) == Carried(s, k)
  {
    ReachableInv(c, s);
    ReachableInv(c, s');
    hide Reachable, CarriedIn, CountedIn, PendingIn, Accumulate, InFrame, HeldOk;
    assert RecordOk(c, s, s.sent[k]) && s'.sent[k] == s.sent[k];
    CarriedSettled(s.updates, s'.updates, k, s.sent[k].at);
  }

  // ----- runs that miss all or nothing -----

  /** A run in which every worker that holds frame k makes its update, and nothing else happens. */
  lemma Drain(c: Config, s: State, k: nat) returns (run: seq<Action>)
    requires Reachable(c, s) && k < |s.frames|
    ensures CanRun(c, s, run)
    ensures var s' := After(c, s, run);
            && PendingIn(s'.workers, k) == 0
            && s'.swapper == s.swapper && s'.sent == s.sent && s'.released == s.released
    decreases PendingIn(s.workers, k)
  {
    hide Reachable, PendingIn, Accumulate;
    ReachableInv(c, s);
    if PendingIn(s.workers, k) == 0 {
      run := [];
    } else {
      PendingInBound(s.workers, k);
      var w: nat :| w < |s.workers| && Updates(s.workers[w], k);
      var a := if k < |s.released| then Stray(w, s.frames) else Count(w);
      PendingInUpdate(s.workers, w, Polling, k);
      ReachStep(c, s, a);
      hide Inv;
      var rest := Drain(c, Apply(c, s, a), k);
      run := [a] + rest;
      assert run[1..] == rest;
    }
  }

  /** A run that copies all pixels of the frame being written, and ends the writing, while nothing is counted. */
  lemma FinishWrite(c: Config, s: State) returns (run: seq<Action>)
    requires Reachable(c, s) && s.swapper.Writing?
    ensures CanRun(c, s, run)
    ensures var s', k := After(c, s, run), s.swapper.record.frame;
            && s'.workers == s.workers && s'.updates == s.updates && s'.stray == s.stray && s'.released == s.released
            && |s'.sent| == |s.sent| + 1 == k + 1 && s'.swapper == Releasing(k) && k < |s'.frames|
            && Carried(s', k) == CarriedIn(s.updates, k, s.swapper.record.at)
            && (s.stray == [] && s.swapper.record.clean ==> s'.sent[k].clean)
            && s'.frames == s.frames && s'.current == s.current && s'.loads == s.loads && s'.sent[..k] == s.sent
            && (s.swapper.record.pixels <= s.frames[k] ==> s'.sent[k].pixels == s.frames[k])
    decreases c.size - |s.swapper.record.pixels|
  {
    hide Reachable, CarriedIn, Accumulate, RecordsOk, StrayOk, UpdatesOk, WorkersOk, Balanced, PendingIn;
    ReachableInv(c, s);
    var r := s.swapper.record;
    if |r.pixels| < c.size {
      ReachStep(c, s, WritePixel);
      var rest := FinishWrite(c, Apply(c, s, WritePixel));
      CarriedCopy(s.updates, r.frame, r.at, |s.updates|);
      run := [WritePixel] + rest;
      assert run[1..] == rest;
    } else {
      run := [EndWrite];
      OneStepRun(c, s, EndWrite);
    }
  }

  lemma {:induction false} NothingCopied(updates: seq<Update>, k: nat)
    ensures CarriedIn(updates, k, []) == CountedIn(updates, k)
    decreases updates
  {
    if updates != [] {
      NothingCopied(updates[..|updates| - 1], k);
    }
  }

  /** From every beginning of a write there is a run after which the stream misses the ping of every worker that held
      the frame then, each of them counted while the frame still existed. */
  lemma MissAll(c: Config, s: State) returns (run: seq<Action>)
    requires Reachable(c, s) && Enabled(c, s, StartWrite)
    ensures CanRun(c, Apply(c, s, StartWrite), run)
    ensures var k, s' := s.swapper.frame, After(c, Apply(c, s, StartWrite), run);
            && k < |s'.sent| && k == |s'.released| && s'.swapper == Releasing(k)
            && Late(s', k) == Missed(s', k) == PendingIn(s.workers, k)
  {
    hide Reachable, Inv, PendingIn, CountedIn, CarriedIn;
    ReachableInv(c, s);
    NextFrames(c, s);
    ReachStep(c, s, StartWrite);
    var k, s1 := s.swapper.frame, Apply(c, s, StartWrite);
    var write := FinishWrite(c, s1);
    var s2 := After(c, s1, write);
    ReachRun(c, s1, write);
    var drain := Drain(c, s2, k);
    RunConcat(c, s1, write, drain);
    run := write + drain;
    var s' := After(c, s1, run);
    WriteMissesExactly(c, s, run);
    NothingCopied(s.updates, k);
    MissedAfterWrite(c, s2, drain, k);
    ReachRun(c, s2, drain);
    NoStrayYet(c, s', k);
  }

  lemma NoStrayYet(c: Config, s: State, k: nat)
    requires Reachable(c, s) && k >= |s.released|
    ensures CountedIn(s.stray, k) == []
  {
    ReachableInv(c, s);
    NothingCounted(s.stray, k);
  }

  /** And one after which it misses none of them, since all were counted just in time. */
  lemma MissNone(c: Config, s: State) returns (run: seq<Action>)
    requires Reachable(c, s) && Enabled(c, s, StartWrite)
    ensures CanRun(c, Apply(c, s, StartWrite), run)
    ensures var k, s' := s.swapper.frame, After(c, Apply(c, s, StartWrite), run);
            && k < |s'.sent| && s'.sent[k].from <= |s'.updates| && Missed(s', k) == 0
            && JustInTime(s', k) == PendingIn(s.workers, k)
  {
    hide Reachable, Inv, PendingIn, CountedIn, CarriedIn;
    ReachableInv(c, s);
    NextFrames(c, s);
    ReachStep(c, s, StartWrite);
    var k, s1 := s.swapper.frame, Apply(c, s, StartWrite);
    var drain := Drain(c, s1, k);
    var s2 := After(c, s1, drain);
    ReachRun(c, s1, drain);
    NothingCopied(s2.updates, k);
    var write := FinishWrite(c, s2);
    RunConcat(c, s1, drain, write);
    run := drain + write;
    var s' := After(c, s1, run);
    WriteMissesExactly(c, s, run);
    ReachRun(c, s2, write);
    NoStrayYet(c, s', k);
  }

  /** The stream misses no ping of frame k so far. */
  predicate NoneMissed(s: State, k: nat) { k < |s.sent| ==> Missed(s, k) == 0 }

  /** The stream carries every ping of frame k that is ever counted, whatever happens after the writing begins, exactly
      when no worker holds the frame at that moment. */
  lemma SendCompleteIff(c: Config, s: State)
    requires Reachable(c, s) && Enabled(c, s, StartWrite)
    ensures (forall run :: CanRun(c, Apply(c, s, StartWrite), run) ==>
               NoneMissed(After(c, Apply(c, s, StartWrite), run), s.swapper.frame))
            <==> forall w :: 0 <= w < |s.workers| ==> !Updates(s.workers[w], s.swapper.frame)
  {
    hide Reachable, Apply, Late, Missed, JustInTime;
    var k, s1 := s.swapper.frame, Apply(c, s, StartWrite);
    PendingInBound(s.workers, k);
    if PendingIn(s.workers, k) == 0 {
      forall run | CanRun(c, s1, run)
        ensures NoneMissed(After(c, s1, run), k)
      {
        WriteMissesExactly(c, s, run);
      }
    } else {
      var run := MissAll(c, s);
    }
  }

  // ----- stray writes -----

  /** At any time the stray writes for a released frame, plus the workers that still hold it, are as many as the
      workers that held it at the release; the others that held it when its writing began were late or just in time. */
  lemma StrayAreHeld(c: Config, s: State, k: nat)
    requires Reachable(c, s) && k < |s.released|
    ensures k < |s.sent| && s.sent[k].from <= |s.updates|
    ensures |CountedIn(s.stray, k)| + PendingIn(s.workers, k) == s.released[k]
            == s.sent[k].held - Late(s, k) - JustInTime(s, k) <= c.cores
  {
    ReachableInv(c, s);
    hide RecordsOk, FramesOk, Late, JustInTime, CountedIn, PendingIn;
    MissedAreHeld(c, s, k);
  }

  /** No write has strayed and none of the released frames can still be written to, exactly when no worker held
      a frame at its release. */
  lemma StrayFreeIff(c: Config, s: State)
    requires Reachable(c, s)
    ensures (forall k :: 0 <= k < |s.released| ==> s.released[k] == 0)
            <==>
            && s.stray == []
            && forall w :: 0 <= w < |s.workers| && s.workers[w].Updating? ==> s.workers[w].frame >= |s.released|
  {
    hide Reachable, Inv;
    forall k: nat | k < |s.released|
      ensures s.released[k] == 0 <==>
              CountedIn(s.stray, k) == [] && forall w :: 0 <= w < |s.workers| ==> !Updates(s.workers[w], k)
    {
      StrayAreHeld(c, s, k);
      PendingInBound(s.workers, k);
    }
    StrayInReleased(c, s);
    assert forall w :: 0 <= w < |s.workers| && s.workers[w].Updating? ==> Updates(s.workers[w], s.workers[w].frame);
    assert s.stray == [] ==> forall k: nat :: CountedIn(s.stray, k) == [];
    hide CountedIn;
    if forall k :: 0 <= k < |s.released| ==> s.released[k] == 0 {
      forall w | 0 <= w < |s.workers| && s.workers[w].Updating?
        ensures s.workers[w].frame >= |s.released|
      {
        UnheldIfZero(c, s, w);
      }
    }
  }

  lemma UnheldIfZero(c: Config, s: State, w: nat)
    requires Reachable(c, s) && w < |s.workers| && s.workers[w].Updating?
    ensures s.workers[w].frame < |s.released| ==> s.released[s.workers[w].frame] != 0
  {
    hide Reachable;
    var k := s.workers[w].frame;
    if k < |s.released| {
      StrayAreHeld(c, s, k);
      PendingInBound(s.workers, k);
      assert Updates(s.workers[w], k);
    }
  }

  /** A stray write is counted in one of the released frames. */
  lemma StrayInReleased(c: Config, s: State)
    requires Reachable(c, s)
    ensures s.stray != [] ==> var k := s.stray[|s.stray| - 1].frame; k < |s.released| && CountedIn(s.stray, k) != []
  {
    ReachableInv(c, s);
  }

  /** After every run that begins with the release of frame k, the stray writes for the frame and the workers that
      still hold it are as many as the workers that held it at the release. */
  lemma ReleaseStraysExactly(c: Config, s: State, run: seq<Action>)
    requires Reachable(c, s) && Enabled(c, s, Release) && CanRun(c, Apply(c, s, Release), run)
    ensures var k, s' := s.swapper.frame, After(c, Apply(c, s, Release), run);
            |CountedIn(s'.stray, k)| + PendingIn(s'.workers, k) == PendingIn(s.workers, k)
  {
    ReachableInv(c, s);
    NextFrames(c, s);
    ReachStep(c, s, Release);
    ReachRun(c, Apply(c, s, Release), run);
    HistoryGrows(c, Apply(c, s, Release), run);
    hide Reachable, Inv, PendingIn, CountedIn;
    var k, s1, s' := s.swapper.frame, Apply(c, s, Release), After(c, Apply(c, s, Release), run);
    assert s'.released[k] == s1.released[k];
    StrayAreHeld(c, s', k);
  }

  /** From every release there is a run after which every worker that held the frame has written to freed memory. */
  lemma StrayAll(c: Config, s: State) returns (run: seq<Action>)
    requires Reachable(c, s) && Enabled(c, s, Release)
    ensures CanRun(c, Apply(c, s, Release), run)
    ensures |CountedIn(After(c, Apply(c, s, Release), run).stray, s.swapper.frame)|
            == PendingIn(s.workers, s.swapper.frame)
  {
    hide Reachable, PendingIn, CountedIn;
    ReachableInv(c, s);
    ReachStep(c, s, Release);
    run := Drain(c, Apply(c, s, Release), s.swapper.frame);
    ReleaseStraysExactly(c, s, run);
  }

  /** No worker ever writes to frame k after its release, exactly when none holds the frame at the release. */
  lemma ReleaseSafeIff(c: Config, s: State)
    requires Reachable(c, s) && Enabled(c, s, Release)
    ensures (forall run :: CanRun(c, Apply(c, s, Release), run) ==>
               CountedIn(After(c, Apply(c, s, Release), run).stray, s.swapper.frame) == [])
            <==> forall w :: 0 <= w < |s.workers| ==> !Updates(s.workers[w], s.swapper.frame)
  {
    hide Reachable, Apply;
    var k, s1 := s.swapper.frame, Apply(c, s, Release);
    PendingInBound(s.workers, k);
    if PendingIn(s.workers, k) == 0 {
      forall run | CanRun(c, s1, run)
        ensures CountedIn(After(c, s1, run).stray, k) == []
      {
        ReleaseStraysExactly(c, s, run);
      }
    } else {
      var run := StrayAll(c, s);
    }
  }

  // ----- the bounds are reached -----

  /** n workers load the first frame, each with the same ping. */
  lemma LoadAll(c: Config, ping: Ping, n: nat) returns (s: State)
    requires n <= c.cores && ping.pixel < c.size
    ensures Reachable(c, s) && s.swapper.Sleeping? && s.current == 0 && |s.frames| == 1
    ensures |s.workers| == c.cores
    ensures forall w :: 0 <= w < c.cores ==> s.workers[w] == if w < n then Updating(0, ping) else Polling
  {
    hide Reachable, Accumulate;
    if n == 0 {
      s := Init(c);
      InitReachable(c);
    } else {
      var s0 := LoadAll(c, ping, n - 1);
      s := Apply(c, s0, Load(n - 1, ping));
      ReachStep(c, s0, Load(n - 1, ping));
    }
  }

  /** For every number of cores: all of them can hold the first frame when it is swapped out and about to be written. */
  lemma AllHold(c: Config, ping: Ping) returns (s: State)
    requires ping.pixel < c.size
    ensures Reachable(c, s) && s.swapper == Sending(0) && Enabled(c, s, StartWrite)
    ensures PendingIn(s.workers, 0) == c.cores
  {
    hide Reachable, Accumulate;
    var s0 := LoadAll(c, ping, c.cores);
    PendingInBound(s0.workers, 0);
    var s1 := Apply(c, s0, SwapLoad);
    ReachStep(c, s0, SwapLoad);
    s := Apply(c, s1, SwapStore);
    ReachStep(c, s1, SwapStore);
  }

  /** The bound on missed pings is reached: for every number of cores there is a run in which each of them counts a
      ping in the first frame after its pixel was copied, so that the stream carries none of them. */
  lemma AllLate(c: Config, ping: Ping) returns (s: State)
    requires ping.pixel < c.size
    ensures Reachable(c, s) && |s.sent| > 0 && Late(s, 0) == Missed(s, 0) == c.cores
  {
    hide Reachable, Accumulate, PendingIn, CountedIn, Late, Missed;
    var s0 := AllHold(c, ping);
    var run := MissAll(c, s0);
    s := After(c, Apply(c, s0, StartWrite), run);
    ReachStep(c, s0, StartWrite);
    ReachRun(c, Apply(c, s0, StartWrite), run);
  }

  /** And one in which each of them writes to the first frame after its release. */
  lemma AllStray(c: Config, ping: Ping) returns (s: State)
    requires ping.pixel < c.size
    ensures Reachable(c, s) && |CountedIn(s.stray, 0)| == c.cores
  {
    hide Reachable, Accumulate, PendingIn, CountedIn, CarriedIn;
    var s0 := AllHold(c, ping);
    var s1 := Apply(c, s0, StartWrite);
    ReachStep(c, s0, StartWrite);
    var write := FinishWrite(c, s1);
    var s2 := After(c, s1, write);
    ReachRun(c, s1, write);
    var run := StrayAll(c, s2);
    s := After(c, Apply(c, s2, Release), run);
    ReachStep(c, s2, Release);
    ReachRun(c, Apply(c, s2, Release), run);
  }
}
