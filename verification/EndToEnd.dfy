/** From the address of an echo request to a pixel of the published image: the receiver's decoding and
    counting, the stream, the collector and the compositor composed. */
module EndToEnd {
  import opened Accumulator
  import opened Addressing
  import opened Checksum
  import opened PacketBytes
  import opened Pixels
  import opened Receiver
  import opened Stream
  import opened Tiles
  import Collector
  import Compositor
  import CompositorFlow
  import CompositorProgress
  import CompositorSafety
  import ReceiverSystem
  import opened ReceiverLosses

  /** A small enough echo request whose destination spells this pixel and colour. */
  predicate AsksFor(settings: Settings, p: Packet, x: nat, y: nat, colour: Rgb) {
    && IsIcmp6(p, 128) && |p| <= LARGEST_PING
    && Spells(Destination(p), settings.prefix, x, y, colour.r, colour.g, colour.b)
  }

  /** Which packets these are, byte by byte. */
  lemma AsksForIff(settings: Settings, p: Packet, x: nat, y: nat, colour: Rgb)
    ensures AsksFor(settings, p, x, y, colour) <==>
            && 58 <= |p| <= 200 && p[12] == 0x86 && p[13] == 0xDD && p[20] == 58 && p[54] == 128 && p[55] == 0
            && p[38..44] == settings.prefix[..6]
            && (forall k :: 44 <= k < 48 ==> p[k] / 16 < 10 && p[k] % 16 < 10)
            && x == 100 * Decimal(p[44]) + Decimal(p[45]) && y == 100 * Decimal(p[46]) + Decimal(p[47])
            && colour == Rgb(p[49], p[51], p[53])
  {
    if |p| >= 58 {
      assert Destination(p)[..6] == p[38..44];
      EncodesIff(p[44], p[45], x);
      EncodesIff(p[46], p[47], y);
      hide Encode;
    }
  }

  /** The ping that a packet makes the receiver count. */
  predicate CameFrom(settings: Settings, ping: Ping, p: Packet) {
    var e := Classify(settings, p);
    e.Echo? && OnScreen(settings, e.request) && PingOf(settings, e.request) == ping
  }

  lemma EchoAccepted(settings: Settings, p: Packet)
    requires IsIcmp6(p, 128) && |p| <= LARGEST_PING
    requires SamePrefix(Destination(p), settings.prefix, PrefixBits(settings.cidr))
    ensures Classify(settings, p) == Echo(Source(p), Decode(Destination(p)))
  {
    hide SamePrefix, Decode, Source, Destination;
  }

  /** Under a prefix of at most 48 bits, a request for an on-screen pixel is counted there with its colour. */
  lemma RequestIsCounted(settings: Settings, p: Packet, x: nat, y: nat, colour: Rgb)
    ensures settings.cidr <= 48 && x < settings.width && y < settings.height && AsksFor(settings, p, x, y, colour) ==>
              && Classify(settings, p) == Echo(Source(p), Request(x, y, colour.r, colour.g, colour.b))
              && forall ping :: CameFrom(settings, ping, p) <==> ping == Ping(Index(settings.width, x, y), colour)
  {
    hide SamePrefix, Decode, Classify, Source, Destination, Index, Spells;
    if settings.cidr <= 48 && AsksFor(settings, p, x, y, colour) {
      SpelledAddress(Destination(p), settings.prefix, settings.cidr, x, y, colour.r, colour.g, colour.b);
      EchoAccepted(settings, p);
    }
  }

  /** Every ping counted at pixel (x, y) came from a packet that asks for that pixel in this colour. */
  ghost predicate AllAskFor(settings: Settings, pings: seq<Ping>, x: nat, y: nat, colour: Rgb) {
    forall n :: 0 <= n < |pings| && pings[n].pixel == Index(settings.width, x, y) ==>
      exists p :: AsksFor(settings, p, x, y, colour) && CameFrom(settings, pings[n], p)
  }

  lemma AllHaveColour(settings: Settings, pings: seq<Ping>, x: nat, y: nat, colour: Rgb)
    requires settings.cidr <= 48 && x < settings.width && y < settings.height
             && AllAskFor(settings, pings, x, y, colour)
    ensures Between(pings, Index(settings.width, x, y), colour, colour)
  {
    hide AsksFor, CameFrom;
    forall n | 0 <= n < |pings| && pings[n].pixel == Index(settings.width, x, y)
      ensures pings[n].colour == colour
    {
      var p :| AsksFor(settings, p, x, y, colour) && CameFrom(settings, pings[n], p);
      RequestIsCounted(settings, p, x, y, colour);
    }
  }

  /** The pixels of the frames that the receiver has handed to the stream. */
  function SentFrames(s: ReceiverSystem.State): (frames: seq<seq<Rgba16>>)
    ensures |frames| == |s.sent|
  {
    seq(|s.sent|, k requires 0 <= k < |s.sent| => s.sent[k].pixels)
  }

  lemma SentFramesOfSize(c: ReceiverSystem.Config, s: ReceiverSystem.State)
    requires ReceiverSystem.Reachable(c, s)
    ensures OfSize(SentFrames(s), c.size)
  {
    ReceiverSystem.ReachableInv(c, s);
  }

  /** What the collector has been fed when n bytes of the stream have arrived. */
  ghost function Deltas(c: ReceiverSystem.Config, s: ReceiverSystem.State, order: ByteOrder, n: nat,
                        clock: (int, int) -> int): (d: seq<Collector.Delta>)
    requires c.size > 0 && n <= |SerializeAll(order, SentFrames(s))|
    ensures Collector.Fits(d, c.size)
  {
    Stamped(Cut(order, SerializeAll(order, SentFrames(s))[..n], c.size), c.size, clock)
  }

  /** Frame k was sent before any stray write and has been delivered with n bytes of the stream; it carries 1 to 257
      pings at this pixel and is the latest delivered frame with any there. */
  ghost predicate Arrives(c: ReceiverSystem.Config, s: ReceiverSystem.State, order: ByteOrder, n: nat,
                          clock: (int, int) -> int, k: nat, pixel: nat)
    requires c.size > 0 && n <= |SerializeAll(order, SentFrames(s))|
  {
    && ReceiverSystem.Reachable(c, s) && pixel < c.size
    && k < |s.sent| && s.sent[k].clean && 1 <= TotalsAt(Carried(s, k), pixel).n <= 257
    && var deltas := Deltas(c, s, order, n, clock);
       k < |deltas| && forall l :: k < l < |deltas| ==> deltas[l].pixels[pixel].a == 0
  }

  /** Such a pixel arrives in the collector with the floor of the exact mean of its pings, between the extreme
      colours sent, whatever the receiver's schedule was and wherever the stream has got to. */
  lemma MeanArrives(c: ReceiverSystem.Config, s: ReceiverSystem.State, order: ByteOrder, n: nat,
                    clock: (int, int) -> int, image: seq<Collector.FadedPixel>, k: nat, pixel: nat, low: Rgb, high: Rgb)
    requires pixel < c.size == |image| && n <= |SerializeAll(order, SentFrames(s))|
    requires Arrives(c, s, order, n, clock, k, pixel) && Between(Carried(s, k), pixel, low, high)
    ensures var t := TotalsAt(Carried(s, k), pixel);
            var q := Collector.CollectAll(image, Deltas(c, s, order, n, clock))[pixel];
            && q.r == t.r / t.n && q.g == t.g / t.n && q.b == t.b / t.n && q.lastUpdated == clock(k, pixel)
            && low.r <= q.r <= high.r && low.g <= q.g <= high.g && low.b <= q.b <= high.b
  {
    hide Cut, SerializeAll, Accumulate, Carried, Collector.CollectAll, ReceiverSystem.Reachable;
    SentFramesOfSize(c, s);
    CutIsPrefix(order, SentFrames(s), c.size, n);
    var deltas := Deltas(c, s, order, n, clock);
    CarriedIsSent(c, s, k);
    assert deltas[k].pixels == s.sent[k].pixels == Accumulate(c.size, Carried(s, k));
    AverageIsMean(c.size, Carried(s, k), pixel, low, high, image[pixel], clock(k, pixel));
    CarriedAlpha(c.size, Carried(s, k), pixel);
    hide Collector.Average, TotalsAt;
    assert Collector.Latest(deltas, |image|, pixel, k);
    Collector.CollectedFromLatest(image, deltas, pixel, k);
    assert deltas[k].stamps[pixel] == clock(k, pixel);
  }

  lemma CarriedIsSent(c: ReceiverSystem.Config, s: ReceiverSystem.State, k: nat)
    requires ReceiverSystem.Reachable(c, s) && k < |s.sent| && s.sent[k].clean
    ensures InFrame(Carried(s, k), c.size) && s.sent[k].pixels == Accumulate(c.size, Carried(s, k))
  {
    ReceiverSystem.SentIsCarried(c, s, k);
  }

  /** So the colour of a pixel arrives unchanged if all its pings have it. */
  lemma ColourArrives(c: ReceiverSystem.Config, s: ReceiverSystem.State, order: ByteOrder, n: nat,
                      clock: (int, int) -> int, image: seq<Collector.FadedPixel>, k: nat, pixel: nat, colour: Rgb)
    requires pixel < c.size == |image| && n <= |SerializeAll(order, SentFrames(s))|
    requires Arrives(c, s, order, n, clock, k, pixel) && Between(Carried(s, k), pixel, colour, colour)
    ensures Collector.CollectAll(image, Deltas(c, s, order, n, clock))[pixel]
            == Collector.FadedPixel(colour.r, colour.g, colour.b, clock(k, pixel))
  {
    hide Deltas, Arrives, Collector.CollectAll;
    MeanArrives(c, s, order, n, clock, image, k, pixel, colour, colour);
  }

  lemma CarriedAlpha(size: nat, pings: seq<Ping>, pixel: nat)
    requires InFrame(pings, size) && pixel < size && 1 <= TotalsAt(pings, pixel).n <= 257
    ensures Accumulate(size, pings)[pixel].a > 0
  {
    AccumulateIsTotals(size, pings, pixel);
    hide Accumulate, TotalsAt;
  }

  /** A collected colour is shown unchanged by every frame that reads it within a millisecond, where
      the overlay is transparent. */
  lemma FreshColourIsShown(c: Compositor.Config, s: Compositor.State, frame: nat, x: nat, y: nat, colour: Rgb,
                           stamp: int)
    requires CompositorSafety.Quartered(c) && Compositor.Reachable(c, s) && 1 <= frame <= s.published
    requires x < c.width && y < c.height && c.fadeOut > 0 && c.overlay(frame, x, y).a == 0
    requires c.collected(frame, x, y) == Collector.FadedPixel(colour.r, colour.g, colour.b, stamp)
    requires c.clock(frame, TileOf(c.width, x), TileOf(c.height, y)) < stamp + 1_000_000
    ensures frame < |s.images| && Compositor.At(s.images[frame], x, y) == colour
  {
    hide Collector.Faded;
    CompositorSafety.PublishedIsComposite(c, s, frame);
    Collector.FreshIsUnchanged(c.collected(frame, x, y), c.clock(frame, TileOf(c.width, x), TileOf(c.height, y)),
                              c.fadeOut);
  }

  /** A receiver state, the n bytes of its stream that the renderer has read, the clock readings and the
      first contents of the collector, and a frame k of the stream. */
  datatype Delivery = Delivery(rc: ReceiverSystem.Config, rs: ReceiverSystem.State, order: ByteOrder, n: nat,
                               clock: (int, int) -> int, image: seq<Collector.FadedPixel>, k: nat)

  /** Frame k has arrived with pings at pixel (x, y), all requested in this colour. */
  ghost predicate Delivers(settings: Settings, d: Delivery, x: nat, y: nat, colour: Rgb) {
    && settings.cidr <= 48 && x < settings.width && y < settings.height
    && d.rc.size == settings.width * settings.height == |d.image| && Index(settings.width, x, y) < d.rc.size
    && d.n <= |SerializeAll(d.order, SentFrames(d.rs))|
    && Arrives(d.rc, d.rs, d.order, d.n, d.clock, d.k, Index(settings.width, x, y))
    && AllAskFor(settings, Carried(d.rs, d.k), x, y, colour)
  }

  /** What the collector holds for a pixel after everything delivered. */
  ghost function CollectedAt(d: Delivery, pixel: nat): Collector.FadedPixel
    requires pixel < d.rc.size == |d.image| && d.n <= |SerializeAll(d.order, SentFrames(d.rs))|
  {
    Collector.CollectAll(d.image, Deltas(d.rc, d.rs, d.order, d.n, d.clock))[pixel]
  }

  /** A published frame has read that pixel of the collector within a millisecond of its update, where the
      overlay is transparent. */
  ghost predicate ShowsFresh(d: Delivery, c: Compositor.Config, s: Compositor.State, frame: nat, x: nat, y: nat) {
    && CompositorSafety.Quartered(c) && Compositor.Reachable(c, s) && 1 <= frame <= s.published
    && x < c.width && y < c.height && c.fadeOut > 0 && c.overlay(frame, x, y).a == 0
    && Index(c.width, x, y) < d.rc.size == |d.image| && d.n <= |SerializeAll(d.order, SentFrames(d.rs))|
    && c.collected(frame, x, y) == CollectedAt(d, Index(c.width, x, y))
    && c.clock(frame, TileOf(c.width, x), TileOf(c.height, y))
       < d.clock(d.k, Index(c.width, x, y)) + 1_000_000
  }

  /** End to end. Under a prefix of at most 48 bits, if the pings that some sent frame carries for a pixel are
      between 1 and 257 requests for that pixel in one colour, in any schedule of the receiver's threads and
      wherever the stream has got to, then the collector holds exactly that colour until a later frame has pings
      there, and every published frame that reads it within a millisecond under a transparent overlay shows
      exactly that colour, in any schedule of the compositor's threads. */
  lemma AddressToScreen(settings: Settings, d: Delivery, c: Compositor.Config, s: Compositor.State, frame: nat,
                        x: nat, y: nat, colour: Rgb)
    ensures Delivers(settings, d, x, y, colour) ==>
              var pixel := Index(settings.width, x, y);
              CollectedAt(d, pixel) == Collector.FadedPixel(colour.r, colour.g, colour.b, d.clock(d.k, pixel))
    ensures Delivers(settings, d, x, y, colour) && settings.width == c.width && ShowsFresh(d, c, s, frame, x, y) ==>
              frame < |s.images| && Compositor.At(s.images[frame], x, y) == colour
  {
    hide Index, Deltas, Carried, TotalsAt, AllAskFor, Collector.CollectAll, ReceiverSystem.Reachable,
         Compositor.Reachable;
    if Delivers(settings, d, x, y, colour) {
      var pixel := Index(settings.width, x, y);
      AllHaveColour(settings, Carried(d.rs, d.k), x, y, colour);
      ColourArrives(d.rc, d.rs, d.order, d.n, d.clock, d.image, d.k, pixel, colour);
      if settings.width == c.width && ShowsFresh(d, c, s, frame, x, y) {
        FreshColourIsShown(c, s, frame, x, y, colour, d.clock(d.k, pixel));
      }
    }
  }

  // ----- such journeys exist -----

  /** One core can count n copies of a ping, after which their frame is swapped and sent. */
  lemma SendCopies(c: ReceiverSystem.Config, ping: Ping, n: nat) returns (s: ReceiverSystem.State)
    requires c.cores > 0 && ping.pixel < c.size
    ensures ReceiverSystem.Reachable(c, s) && |s.sent| == 1 && s.sent[0].clean
    ensures Carried(s, 0) == Copies(n, ping)
  {
    hide ReceiverSystem.Reachable, ReceiverSystem.CountedIn, Accumulate;
    var s0 := CountCopies(c, ping, n);
    ReceiverSystem.ReachableInv(c, s0);
    var s1 := ReceiverSystem.Apply(c, s0, ReceiverSystem.SwapLoad);
    ReceiverSystem.ReachStep(c, s0, ReceiverSystem.SwapLoad);
    var s2 := ReceiverSystem.Apply(c, s1, ReceiverSystem.SwapStore);
    ReceiverSystem.ReachStep(c, s1, ReceiverSystem.SwapStore);
    var s3 := ReceiverSystem.Apply(c, s2, ReceiverSystem.StartWrite);
    ReceiverSystem.ReachStep(c, s2, ReceiverSystem.StartWrite);
    var write := FinishWrite(c, s3);
    s := ReceiverSystem.After(c, s3, write);
    ReceiverSystem.ReachRun(c, s3, write);
    NothingCopied(s.updates, 0);
  }

  lemma CountCopies(c: ReceiverSystem.Config, ping: Ping, n: nat) returns (s: ReceiverSystem.State)
    requires c.cores > 0 && ping.pixel < c.size
    ensures ReceiverSystem.Reachable(c, s) && s.swapper.Sleeping? && |s.frames| == 1 && s.current == 0 && s.sent == []
    ensures s.stray == [] && s.released == []
    ensures |s.workers| == c.cores && s.workers[0].Polling?
    ensures ReceiverSystem.CountedIn(s.updates, 0) == Copies(n, ping)
  {
    hide ReceiverSystem.Reachable, Accumulate;
    if n == 0 {
      s := ReceiverSystem.Init(c);
      ReceiverSystem.InitReachable(c);
    } else {
      var s0 := CountCopies(c, ping, n - 1);
      ReceiverSystem.ReachableInv(c, s0);
      var s1 := ReceiverSystem.Apply(c, s0, ReceiverSystem.Load(0, ping));
      ReceiverSystem.ReachStep(c, s0, ReceiverSystem.Load(0, ping));
      s := ReceiverSystem.Apply(c, s1, ReceiverSystem.Count(0));
      ReceiverSystem.ReachStep(c, s1, ReceiverSystem.Count(0));
      ReceiverSystem.CountedAppend(s0.updates, ReceiverSystem.Update(0, ping), 0);
      hide ReceiverSystem.CountedIn;
      assert Copies(n, ping) == Copies(n - 1, ping) + [ping];
    }
  }

  /** Every request for an on-screen pixel can make the journey, once or up to 257 times in one frame: there are a
      run of the receiver and a run of the compositor after which the published image shows its colour. */
  lemma JourneyExists(settings: Settings, p: Packet, x: nat, y: nat, colour: Rgb, n: nat)
    returns (d: Delivery, c: Compositor.Config, s: Compositor.State)
    requires settings.cidr <= 48 && x < settings.width && y < settings.height && 1 <= n <= 257
    requires settings.width >= 4 && settings.width % 4 == 0 && settings.height >= 4 && settings.height % 4 == 0
    ensures AsksFor(settings, p, x, y, colour) ==>
              && Delivers(settings, d, x, y, colour) && ShowsFresh(d, c, s, 1, x, y)
              && 1 < |s.images| && Compositor.At(s.images[1], x, y) == colour
  {
    hide Compositor.Reachable, Delivers, AsksFor, Index, CollectedAt;
    d := DeliverCopies(settings, p, x, y, colour, n);
    var collected := CollectedAt(d, Index(settings.width, x, y));
    c := Compositor.Config(settings.width, settings.height, 1,
                           (_, _, _) => collected, (_, _, _) => collected.lastUpdated, (_, _, _) => Rgba(0, 0, 0, 0));
    var s0 := Compositor.Apply(c, Compositor.Init(), Compositor.StartFrame);
    CompositorFlow.FlowInit(c);
    CompositorFlow.FlowStep(c, Compositor.Init(), Compositor.StartFrame);
    var run := CompositorProgress.CanPublish(c, s0, false);
    s := Compositor.After(c, s0, run);
    StartsReachable(c, run);
    AddressToScreen(settings, d, c, s, 1, x, y, colour);
  }

  lemma StartsReachable(c: Compositor.Config, run: seq<Compositor.Action>)
    requires Compositor.CanRun(c, Compositor.Apply(c, Compositor.Init(), Compositor.StartFrame), run)
    ensures var s := Compositor.Apply(c, Compositor.Init(), Compositor.StartFrame);
            Compositor.Reachable(c, Compositor.After(c, s, run))
  {
    var whole := [Compositor.StartFrame] + run;
    assert whole[1..] == run;
    assert Compositor.CanRun(c, Compositor.Init(), whole);
  }

  lemma DeliverCopies(settings: Settings, p: Packet, x: nat, y: nat, colour: Rgb, n: nat) returns (d: Delivery)
    requires settings.cidr <= 48 && x < settings.width && y < settings.height && 1 <= n <= 257
    ensures AsksFor(settings, p, x, y, colour) ==> Delivers(settings, d, x, y, colour)
    ensures Index(settings.width, x, y) < d.rc.size == |d.image| && d.n <= |SerializeAll(d.order, SentFrames(d.rs))|
  {
    hide AsksFor, CameFrom, SerializeAll, ReceiverSystem.Reachable, ReceiverSystem.CountedIn, TotalsAt, Accumulate;
    var pixel := Index(settings.width, x, y);
    IndexInRange(settings.width, settings.height, x, y);
    var rc := ReceiverSystem.Config(settings.width * settings.height, 1);
    var ping := Ping(pixel, colour);
    var rs := SendCopies(rc, ping, n);
    var order := settings.order;
    var bytes := |SerializeAll(order, SentFrames(rs))|;
    d := Delivery(rc, rs, order, bytes, (_, _) => 0, seq(rc.size, _ => Collector.FadedPixel(0, 0, 0, 0)), 0);
    OneFrameDelivered(rc, rs, order, d.clock);
    CopiesTotals(n, ping);
    RequestIsCounted(settings, p, x, y, colour);
    hide Index, Deltas;
    if AsksFor(settings, p, x, y, colour) {
      assert CameFrom(settings, ping, p);
      assert AllAskFor(settings, Carried(rs, 0), x, y, colour);
    }
  }

  lemma OneFrameDelivered(c: ReceiverSystem.Config, s: ReceiverSystem.State, order: ByteOrder, clock: (int, int) -> int)
    requires ReceiverSystem.Reachable(c, s) && |s.sent| == 1 && c.size > 0
    ensures |Deltas(c, s, order, |SerializeAll(order, SentFrames(s))|, clock)| == 1
  {
    hide ReceiverSystem.Reachable, SerializeFrame, Cut;
    SentFramesOfSize(c, s);
    var frames := SentFrames(s);
    var bytes := |SerializeAll(order, frames)|;
    assert SerializeAll(order, frames[1..]) == [];
    assert |frames[0]| == c.size;
    assert bytes == PIXEL_BYTES * c.size;
    CutIsPrefix(order, frames, c.size, bytes);
    assert WholeFrames(0, c.size) == 0;
    assert WholeFrames(bytes, c.size) == 1;
  }
}
