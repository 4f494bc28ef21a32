/** Nothing ties the receiver's threads to each other: in every reachable state each worker core and the
    frames core can go on by itself, whatever the others are doing. */
module ReceiverProgress {
  import opened Accumulator
  import opened Pixels
  import opened ReceiverLosses
  import opened ReceiverSystem

  /** A polling core can take a ping for any pixel at any moment: it then holds the frame current at that moment,
      whatever is being swapped, written or released, and nothing else changes. */
  lemma CanLoad(c: Config, s: State, w: nat, ping: Ping) returns (run: seq<Action>)
    requires Reachable(c, s) && w < c.cores && ping.pixel < c.size
    ensures |s.workers| == c.cores
    ensures s.workers[w].Polling? ==>
              && CanRun(c, s, run)
              && After(c, s, run) == s.(workers := s.workers[w := Updating(s.current, ping)],
                                        loads := s.loads + [Update(s.current, ping)])
  {
    ReachableInv(c, s);
    run := [Load(w, ping)];
    hide Inv;
    if s.workers[w].Polling? {
      OneStepRun(c, s, run[0]);
    }
  }

  /** A core that holds a frame which still exists can count its ping there at any moment. */
  lemma CanCount(c: Config, s: State, w: nat) returns (run: seq<Action>)
    requires Reachable(c, s) && w < |s.workers| && s.workers[w].Updating? && s.workers[w].frame >= |s.released|
    ensures CanRun(c, s, run)
    ensures var Updating(k, ping) := s.workers[w];
            var s' := After(c, s, run);
            && k < |s.frames| == |s'.frames| && ping.pixel < c.size == |s.frames[k]| == |s'.frames[k]|
            && s' == s.(workers := s.workers[w := Polling], frames := s'.frames,
                        updates := s.updates + [Update(k, ping)])
            && s'.frames[k] == s.frames[k][ping.pixel := s'.frames[k][ping.pixel]]
            && (forall l :: 0 <= l < |s.frames| && l != k ==> s'.frames[l] == s.frames[l])
            && var p, p' := s.frames[k][ping.pixel], s'.frames[k][ping.pixel];
               && p'.r == (p.r + ping.colour.r) % 0x1_0000 && p'.g == (p.g + ping.colour.g) % 0x1_0000
               && p'.b == (p.b + ping.colour.b) % 0x1_0000 && p'.a == (p.a + 1) % 0x1_0000
  {
    ReachableInv(c, s);
    assert Shaped(c, s.frames);
    hide RecordsOk, FramesOk, StrayOk, UpdatesOk, Balanced, Accumulate;
    run := [Count(w)];
    OneStepRun(c, s, run[0]);
  }

  /** A core that holds a frame already released is not held back either: it writes to freed memory, with any
      effect on the frames. */
  lemma CanStray(c: Config, s: State, w: nat, damaged: seq<seq<Rgba16>>) returns (run: seq<Action>)
    requires Reachable(c, s) && w < |s.workers| && s.workers[w].Updating? && s.workers[w].frame < |s.released|
    requires |damaged| == |s.frames| && forall k :: 0 <= k < |damaged| ==> |damaged[k]| == c.size
    ensures CanRun(c, s, run)
    ensures After(c, s, run) == s.(workers := s.workers[w := Polling], frames := damaged,
                                   stray := s.stray + [Update(s.workers[w].frame, s.workers[w].ping)])
  {
    run := [Stray(w, damaged)];
    OneStepRun(c, s, run[0]);
  }

  lemma CurrentFrame(c: Config, s: State)
    requires Inv(c, s)
    ensures s.current == |s.frames| - 1
    ensures s.swapper.Releasing? ==> |s.sent| == |s.released| + 1 == s.current
    ensures s.swapper.Sleeping? || s.swapper.Loaded? ==> |s.sent| == |s.released| == s.current
    ensures s.swapper.Loaded? ==> s.swapper.frame == s.current
    ensures s.swapper.Sending? || s.swapper.Writing? ==> |s.sent| == |s.released| == s.current - 1
  {
    hide RecordsOk, FramesOk, StrayOk, UpdatesOk, WorkersOk, Balanced;
  }

  /** The frames core has come to rest; no worker has moved meanwhile, and the frames are unchanged. */
  ghost predicate CameToRest(s: State, s': State) {
    && s'.swapper == Sleeping && s'.workers == s.workers && s'.frames == s.frames && s'.current == s.current
    && s'.loads == s.loads && s'.updates == s.updates && s'.stray == s.stray
    && |s'.sent| == |s'.released| == s'.current && s.sent <= s'.sent
  }

  /** A run from the middle of a write until the frame is released. */
  lemma FinishWriting(c: Config, s: State) returns (run: seq<Action>)
    requires Reachable(c, s) && s.swapper.Writing?
    ensures CanRun(c, s, run) && CameToRest(s, After(c, s, run))
    ensures var k, s' := s.swapper.record.frame, After(c, s, run);
            && k < |s.frames| && k < |s'.sent|
            && (s.swapper.record.pixels <= s.frames[k] ==> s'.sent[k].pixels == s.frames[k])
  {
    hide Reachable, Accumulate, CarriedIn, PendingIn, Carried;
    var write := FinishWrite(c, s);
    var s1 := After(c, s, write);
    ReachRun(c, s, write);
    OneStepRun(c, s1, Release);
    RunConcat(c, s, write, [Release]);
    run := write + [Release];
    ReachableInv(c, s1);
    CurrentFrame(c, s1);
    hide Inv, CanRun, After;
  }

  /** A run from a frame handed over for sending until it is released. */
  lemma FinishSending(c: Config, s: State) returns (run: seq<Action>)
    requires Reachable(c, s) && s.swapper.Sending?
    ensures CanRun(c, s, run) && CameToRest(s, After(c, s, run))
    ensures var k, s' := s.swapper.frame, After(c, s, run);
            k < |s.frames| && k < |s'.sent| && s'.sent[k].pixels == s.frames[k]
  {
    hide Reachable, Accumulate, PendingIn;
    OneStepRun(c, s, StartWrite);
    ReachStep(c, s, StartWrite);
    var rest := FinishWriting(c, Apply(c, s, StartWrite));
    RunConcat(c, s, [StartWrite], rest);
    run := [StartWrite] + rest;
    hide CanRun, After;
  }

  /** The frames core is never held back: from every reachable state it can finish the frame it is working on and
      come to rest, with no worker moving. */
  lemma CanFinishRound(c: Config, s: State) returns (run: seq<Action>)
    requires Reachable(c, s)
    ensures CanRun(c, s, run)
    ensures var s' := After(c, s, run);
            && s'.swapper == Sleeping && s'.workers == s.workers && |s'.sent| == |s'.released| == s'.current
            && s'.loads == s.loads && s'.updates == s.updates && s'.stray == s.stray && s.frames <= s'.frames
  {
    hide Reachable, Accumulate, PendingIn;
    ReachableInv(c, s);
    CurrentFrame(c, s);
    hide Inv;
    if s.swapper.Sleeping? {
      run := [];
    } else if s.swapper.Loaded? {
      OneStepRun(c, s, SwapStore);
      ReachStep(c, s, SwapStore);
      var rest := FinishSending(c, Apply(c, s, SwapStore));
      RunConcat(c, s, [SwapStore], rest);
      run := [SwapStore] + rest;
    } else if s.swapper.Sending? {
      run := FinishSending(c, s);
    } else if s.swapper.Writing? {
      run := FinishWriting(c, s);
    } else {
      run := [Release];
      OneStepRun(c, s, Release);
    }
  }

  /** And from rest it can go a whole round: an empty frame becomes current, and the old one is written to the stream
      as it is and released, also while worker cores hold it. */
  lemma CanSendFrame(c: Config, s: State) returns (run: seq<Action>)
    requires Reachable(c, s) && s.swapper.Sleeping?
    ensures CanRun(c, s, run)
    ensures var k, s' := s.current, After(c, s, run);
            && s'.swapper == Sleeping && s'.workers == s.workers && s'.current == k + 1 == |s'.frames| - 1
            && |s'.sent| == |s'.released| == k + 1 && s'.sent[..k] == s.sent && k < |s.frames|
            && s'.sent[k].pixels == s.frames[k]
            && s'.frames == s.frames + [seq(c.size, _ => Rgba16(0, 0, 0, 0))]
            && s'.loads == s.loads && s'.updates == s.updates && s'.stray == s.stray
  {
    hide Reachable, PendingIn;
    ReachableInv(c, s);
    CurrentFrame(c, s);
    hide Inv;
    var s1 := Apply(c, s, SwapLoad);
    OneStepRun(c, s, SwapLoad);
    ReachStep(c, s, SwapLoad);
    var s2 := Apply(c, s1, SwapStore);
    OneStepRun(c, s1, SwapStore);
    ReachStep(c, s1, SwapStore);
    var rest := FinishSending(c, s2);
    RunConcat(c, s1, [SwapStore], rest);
    RunConcat(c, s, [SwapLoad], [SwapStore] + rest);
    run := [SwapLoad] + ([SwapStore] + rest);
    assert s2.frames[s.current] == s.frames[s.current];
  }
}
