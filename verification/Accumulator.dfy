/** The receiver's frame as an accumulator of pings: 16-bit colour sums and a 16-bit ping count per
    pixel, and what the collector's division recovers from them. */
module Accumulator {
  import opened Overlay
  import opened Pixels
  import opened Words
  import Collector

  /** A ping that hits the image: the index of its pixel and its colour. */
  datatype Ping = Ping(pixel: nat, colour: Rgb)

  /** A ping adds its colour to the 16-bit colour sums and one to the 16-bit ping count. */
  function AddPing(p: Rgba16, colour: Rgb): Rgba16 {
    Rgba16(U16(p.r + colour.r), U16(p.g + colour.g), U16(p.b + colour.b), U16(p.a + 1))
  }

  ghost predicate InFrame(pings: seq<Ping>, size: nat) {
    forall n :: 0 <= n < |pings| ==> pings[n].pixel < size
  }

  /** A frame of `size` pixels, empty at first, after a sequence of pings. */
  function Accumulate(size: nat, pings: seq<Ping>): (frame: seq<Rgba16>)
    requires InFrame(pings, size)
    ensures |frame| == size
  {
    if pings == [] then seq(size, _ => EMPTY)
    else
      var last := pings[|pings| - 1];
      var before := Accumulate(size, pings[..|pings| - 1]);
      before[last.pixel := AddPing(before[last.pixel], last.colour)]
  }

  // ----- exact sums -----

  datatype Totals = Totals(r: nat, g: nat, b: nat, n: nat)

  /** The exact colour sums and ping count at one pixel. */
  function TotalsAt(pings: seq<Ping>, pixel: nat): Totals {
    if pings == [] then Totals(0, 0, 0, 0)
    else
      var last := pings[|pings| - 1];
      var t := TotalsAt(pings[..|pings| - 1], pixel);
      if last.pixel == pixel then Totals(t.r + last.colour.r, t.g + last.colour.g, t.b + last.colour.b, t.n + 1) else t
  }

  function Wrapped(t: Totals): Rgba16 { Rgba16(U16(t.r), U16(t.g), U16(t.b), U16(t.n)) }

  lemma U16Sum(n: nat, d: nat)
    ensures U16(U16(n) + d) == U16(n + d)
  {}

  /** Every pixel holds the exact sums and the exact count, modulo 65536. */
  lemma {:induction false} AccumulateIsTotals(size: nat, pings: seq<Ping>, pixel: nat)
    requires InFrame(pings, size) && pixel < size
    ensures Accumulate(size, pings)[pixel] == Wrapped(TotalsAt(pings, pixel))
    decreases pings
  {
    if pings != [] {
      var before, last := pings[..|pings| - 1], pings[|pings| - 1];
      AccumulateIsTotals(size, before, pixel);
      var t := TotalsAt(before, pixel);
      U16Sum(t.r, last.colour.r);
      U16Sum(t.g, last.colour.g);
      U16Sum(t.b, last.colour.b);
      U16Sum(t.n, 1);
      hide U16;
    }
  }

  // ----- conservation -----

  function TotalAlpha(frame: seq<Rgba16>): nat {
    if frame == [] then 0 else TotalAlpha(frame[..|frame| - 1]) + frame[|frame| - 1].a
  }

  /** How often some ping count has wrapped around. */
  function Wraps(pings: seq<Ping>): nat {
    if pings == [] then 0
    else
      Wraps(pings[..|pings| - 1])
      + (if TotalsAt(pings, pings[|pings| - 1].pixel).n % 0x1_0000 == 0 then 1 else 0)
  }

  lemma {:induction false} TotalAlphaUpdate(frame: seq<Rgba16>, i: nat, p: Rgba16)
    requires i < |frame|
    ensures TotalAlpha(frame[i := p]) == TotalAlpha(frame) - frame[i].a + p.a
    decreases frame
  {
    var last := |frame| - 1;
    if i == last {
      assert frame[i := p][..last] == frame[..last];
    } else {
      assert frame[i := p][..last] == frame[..last][i := p];
      TotalAlphaUpdate(frame[..last], i, p);
    }
  }

  lemma {:induction false} TotalAlphaEmpty(size: nat)
    ensures TotalAlpha(seq(size, _ => EMPTY)) == 0
  {
    if size > 0 {
      assert seq(size, _ => EMPTY)[..size - 1] == seq(size - 1, _ => EMPTY);
      TotalAlphaEmpty(size - 1);
    }
  }

  /** No ping is lost or counted twice: the ping counts of a frame add up to the number of its pings,
      up to 65536 for every time a count wrapped. */
  lemma {:induction false} AlphaConservation(size: nat, pings: seq<Ping>)
    requires InFrame(pings, size)
    ensures TotalAlpha(Accumulate(size, pings)) + 0x1_0000 * Wraps(pings) == |pings|
    decreases pings
  {
    if pings == [] {
      TotalAlphaEmpty(size);
    } else {
      var before, last := pings[..|pings| - 1], pings[|pings| - 1];
      AlphaConservation(size, before);
      var frame := Accumulate(size, before);
      var p := AddPing(frame[last.pixel], last.colour);
      TotalAlphaUpdate(frame, last.pixel, p);
      AccumulateIsTotals(size, before, last.pixel);
      CountStep(TotalsAt(before, last.pixel).n);
      assert TotalsAt(pings, last.pixel).n == TotalsAt(before, last.pixel).n + 1;
      assert p.a == U16(U16(TotalsAt(before, last.pixel).n) + 1);
      hide U16, TotalsAt;
    }
  }

  /** A 16-bit count grows by one, or falls by 65535 when it wraps. */
  lemma CountStep(n: nat)
    ensures U16(U16(n) + 1) == U16(n) + 1 - (if (n + 1) % 0x1_0000 == 0 then 0x1_0000 else 0)
  {}

  /** No pixel received more than 65535 pings. */
  ghost predicate NeverWraps(size: nat, pings: seq<Ping>) {
    forall pixel: nat :: pixel < size ==> TotalsAt(pings, pixel).n < 0x1_0000
  }

  /** The counts are exact precisely when no pixel received more than 65535 pings. */
  lemma ExactIffNoWrap(size: nat, pings: seq<Ping>)
    requires InFrame(pings, size)
    ensures TotalAlpha(Accumulate(size, pings)) == |pings| <==>
            NeverWraps(size, pings)
  {
    AlphaConservation(size, pings);
    WrapsIff(size, pings);
  }

  lemma {:induction false} WrapsIff(size: nat, pings: seq<Ping>)
    requires InFrame(pings, size)
    ensures Wraps(pings) == 0 <==> NeverWraps(size, pings)
    decreases pings
  {
    if pings != [] {
      var before, last := pings[..|pings| - 1], pings[|pings| - 1];
      WrapsIff(size, before);
      assert pings[|pings| - 1].pixel < size;
      var n := TotalsAt(before, last.pixel).n;
      assert TotalsAt(pings, last.pixel).n == n + 1;
      assert forall pixel: nat :: pixel < size && pixel != last.pixel ==>
             TotalsAt(pings, pixel).n == TotalsAt(before, pixel).n;
      if Wraps(before) == 0 {
        assert n < 0x1_0000;
        assert Wraps(pings) == 0 <==> n + 1 < 0x1_0000;
      } else {
        var pixel: nat :| pixel < size && TotalsAt(before, pixel).n >= 0x1_0000;
        assert TotalsAt(pings, pixel).n >= 0x1_0000;
      }
    }
  }

  // ----- conservation over several frames -----

  /** These frames are the accumulations of these sequences of pings. */
  ghost predicate AreFrames(size: nat, frames: seq<seq<Rgba16>>, pings: seq<seq<Ping>>) {
    && |frames| == |pings|
    && forall k :: 0 <= k < |frames| ==> InFrame(pings[k], size) && frames[k] == Accumulate(size, pings[k])
  }

  /** The ping counts of all frames together. */
  function AlphaOver(frames: seq<seq<Rgba16>>): nat {
    if frames == [] then 0 else AlphaOver(frames[..|frames| - 1]) + TotalAlpha(frames[|frames| - 1])
  }

  /** The pings of all frames together. */
  function PingCount(pings: seq<seq<Ping>>): nat {
    if pings == [] then 0 else PingCount(pings[..|pings| - 1]) + |pings[|pings| - 1]|
  }

  /** No pixel of any frame received more than 65535 pings in it. */
  ghost predicate NoFrameWraps(size: nat, pings: seq<seq<Ping>>) {
    forall k :: 0 <= k < |pings| ==> NeverWraps(size, pings[k])
  }

  /** The ping counts of any sequence of frames never exceed the number of their pings, and equal it
      exactly when no count of any frame wrapped. */
  lemma {:induction false} AlphaOverFrames(size: nat, frames: seq<seq<Rgba16>>, pings: seq<seq<Ping>>)
    requires AreFrames(size, frames, pings)
    ensures AlphaOver(frames) <= PingCount(pings)
    ensures AlphaOver(frames) == PingCount(pings) <==> NoFrameWraps(size, pings)
    decreases frames
  {
    hide Accumulate, TotalAlpha, NeverWraps;
    if frames != [] {
      var k := |frames| - 1;
      AlphaOverFrames(size, frames[..k], pings[..k]);
      AlphaConservation(size, pings[k]);
      ExactIffNoWrap(size, pings[k]);
    }
  }

  // ----- what averaging recovers -----

  /** All pings at a pixel have each channel between these bounds. */
  ghost predicate Between(pings: seq<Ping>, pixel: nat, low: Rgb, high: Rgb) {
    forall n :: 0 <= n < |pings| && pings[n].pixel == pixel ==>
      && low.r <= pings[n].colour.r <= high.r && low.g <= pings[n].colour.g <= high.g
      && low.b <= pings[n].colour.b <= high.b
  }

  lemma {:induction false} TotalsBetween(pings: seq<Ping>, pixel: nat, low: Rgb, high: Rgb)
    requires Between(pings, pixel, low, high)
    ensures var t := TotalsAt(pings, pixel);
            && t.n * low.r <= t.r <= t.n * high.r && t.n * low.g <= t.g <= t.n * high.g
            && t.n * low.b <= t.b <= t.n * high.b
    decreases pings
  {
    if pings != [] {
      var before, last := pings[..|pings| - 1], pings[|pings| - 1];
      TotalsBetween(before, pixel, low, high);
      var n := TotalsAt(before, pixel).n;
      assert last.pixel == pixel ==> low.r <= last.colour.r <= high.r;
      OneMore(n, low.r, high.r);
      OneMore(n, low.g, high.g);
      OneMore(n, low.b, high.b);
    }
  }

  lemma OneMore(n: nat, low: nat, high: nat)
    ensures (n + 1) * low == n * low + low && (n + 1) * high == n * high + high
  {}

  lemma MeanBetween(sum: nat, n: nat, low: byte, high: byte)
    requires n > 0 && n * low <= sum <= n * high
    ensures low <= sum / n <= high
  {
    DivMonotone(n * low, sum, n);
    DivMonotone(sum, n * high, n);
    ModUnique(n * low, n, low, 0);
    ModUnique(n * high, n, high, 0);
  }

  /** Between 1 and 257 pings at a pixel in one frame are recovered without loss: each channel the
      collector stores is the floor of the exact mean, and lies between the extreme colours sent. */
  lemma AverageIsMean(size: nat, pings: seq<Ping>, pixel: nat, low: Rgb, high: Rgb, previous: Collector.FadedPixel,
                      now: int)
    requires InFrame(pings, size) && pixel < size
    requires 1 <= TotalsAt(pings, pixel).n <= 257 && Between(pings, pixel, low, high)
    ensures var t := TotalsAt(pings, pixel);
            var q := Collector.Average(previous, Accumulate(size, pings)[pixel], now);
            && q.r == t.r / t.n && q.g == t.g / t.n && q.b == t.b / t.n && q.lastUpdated == now
            && low.r <= q.r <= high.r && low.g <= q.g <= high.g && low.b <= q.b <= high.b
  {
    var t := TotalsAt(pings, pixel);
    AccumulateIsTotals(size, pings, pixel);
    TotalsBetween(pings, pixel, low, high);
    ChannelExact(t.r, t.n, low.r, high.r);
    ChannelExact(t.g, t.n, low.g, high.g);
    ChannelExact(t.b, t.n, low.b, high.b);
    assert U16(t.n) == t.n;
    hide U16, U8, TotalsAt, Accumulate;
  }

  lemma ChannelExact(sum: nat, n: nat, low: byte, high: byte)
    requires 1 <= n <= 257 && n * low <= sum <= n * high
    ensures U16(sum) == sum && U8(sum / n) == sum / n && low <= sum / n <= high
  {
    MulMonotone(n, 257, high);
    MeanBetween(sum, n, low, high);
  }

  lemma SmallByte(q: nat)
    requires q < 0x100
    ensures U8(q) == q
  {}

  lemma OneLess(n: nat, small: nat, sum: nat)
    requires n > 0 && small + n <= sum
    ensures small / n < sum / n
  {
    DivMonotone(small + n, sum, n);
    ModUnique(small + n, n, small / n + 1, small % n);
  }

  lemma WrappedSum(sum: nat, n: nat)
    requires 0 < n < 0x1_0000
    ensures if sum < 0x1_0000 then U16(sum) == sum else U16(sum) + n <= sum
  {}

  lemma WrappedMean(sum: nat, n: nat)
    requires 0 < n < 0x1_0000
    ensures if sum < 0x1_0000 then U16(sum) / n == sum / n else U16(sum) / n < sum / n
  {
    hide U16;
    WrappedSum(sum, n);
    if sum >= 0x1_0000 {
      OneLess(n, U16(sum), sum);
    }
  }

  /** A channel sum, 0 < n < 65536 with a mean that is a byte, comes back from 16 bits as the floor of
      its mean exactly when it fits them. */
  lemma ChannelMeanIff(sum: nat, n: nat)
    requires 0 < n < 0x1_0000 && sum / n < 0x100
    ensures U8(U16(sum) / n) == sum / n <==> sum < 0x1_0000
  {
    hide U8, U16;
    WrappedMean(sum, n);
    SmallByte(U16(sum) / n);
  }

  lemma MeanOfBytes(pings: seq<Ping>, pixel: nat)
    requires TotalsAt(pings, pixel).n > 0
    ensures var t := TotalsAt(pings, pixel);
            t.r / t.n < 0x100 && t.g / t.n < 0x100 && t.b / t.n < 0x100
  {
    var t := TotalsAt(pings, pixel);
    TotalsBetween(pings, pixel, BLACK, Rgb(255, 255, 255));
    hide TotalsAt;
    MeanBetween(t.r, t.n, 0, 255);
    MeanBetween(t.g, t.n, 0, 255);
    MeanBetween(t.b, t.n, 0, 255);
  }

  /** Whatever the pings at a pixel in one frame: the collector divides the sums modulo 65536 by the count modulo
      65536, and keeps the previous value if that is zero. With 1 to 65535 pings of any colours, each channel is
      the floor of the exact mean precisely when the sum of that channel is below 65536. */
  lemma MeanIff(size: nat, pings: seq<Ping>, pixel: nat, previous: Collector.FadedPixel, now: int)
    requires InFrame(pings, size) && pixel < size
    ensures var t := TotalsAt(pings, pixel);
            var q := Collector.Average(previous, Accumulate(size, pings)[pixel], now);
            var n := t.n % 0x1_0000;
            && (if n == 0 then q == previous
                else
                  && q.r == t.r % 0x1_0000 / n % 0x100 && q.g == t.g % 0x1_0000 / n % 0x100
                  && q.b == t.b % 0x1_0000 / n % 0x100
                  && q.lastUpdated == now)
            && (0 < t.n < 0x1_0000 ==>
                  && (q.r == t.r / t.n <==> t.r < 0x1_0000) && (q.g == t.g / t.n <==> t.g < 0x1_0000)
                  && (q.b == t.b / t.n <==> t.b < 0x1_0000))
  {
    hide TotalsAt, Accumulate;
    var t := TotalsAt(pings, pixel);
    AccumulateIsTotals(size, pings, pixel);
    if 0 < t.n < 0x1_0000 {
      MeanOfBytes(pings, pixel);
      ChannelMeanIff(t.r, t.n);
      ChannelMeanIff(t.g, t.n);
      ChannelMeanIff(t.b, t.n);
    }
  }

  // ----- which numbers of equal pings are recovered -----

  /** n pings of one colour at one pixel. */
  function Copies(n: nat, ping: Ping): (pings: seq<Ping>)
    ensures |pings| == n && InFrame(pings, ping.pixel + 1)
  {
    seq(n, _ => ping)
  }

  lemma {:induction false} CopiesTotals(n: nat, ping: Ping)
    ensures TotalsAt(Copies(n, ping), ping.pixel) == Totals(n * ping.colour.r, n * ping.colour.g, n * ping.colour.b, n)
  {
    if n > 0 {
      assert Copies(n, ping)[..n - 1] == Copies(n - 1, ping);
      CopiesTotals(n - 1, ping);
      OneMore(n - 1, ping.colour.r, ping.colour.g);
      OneMore(n - 1, ping.colour.b, ping.colour.b);
      hide Copies;
    }
  }

  /** One channel of n equal pings comes back from the average exactly when its sum fits 16 bits. */
  lemma ChannelRecoveredIff(n: nat, v: byte)
    requires 0 < n < 0x1_0000
    ensures U8(U16(n * v) / n) == v <==> n * v < 0x1_0000
  {
    hide U8, U16;
    ModUnique(n * v, n, v, 0);
    ChannelMeanIff(n * v, n);
  }

  /** Only the remainder of n modulo 65536 matters to a 16-bit sum of n equal terms. */
  lemma ProductWraps(n: nat, v: nat)
    ensures U16(n * v) == U16((n % 0x1_0000) * v)
  {
    var k, a := n / 0x1_0000, n % 0x1_0000;
    var exact := a * v;
    var j, m := exact / 0x1_0000, exact % 0x1_0000;
    assert n * v == (0x1_0000 * k + a) * v == 0x1_0000 * (k * v) + exact;
    ModUnique(n * v, 0x1_0000, k * v + j, m);
  }

  /** What the collector stores for a pixel after n copies of a ping. */
  function Recovered(n: nat, ping: Ping, previous: Collector.FadedPixel, now: int): Collector.FadedPixel {
    Collector.Average(previous, Accumulate(ping.pixel + 1, Copies(n, ping))[ping.pixel], now)
  }

  /** n copies of one ping, for every n: a multiple of 65536 of them goes unnoticed, since the ping count
      wraps to zero; otherwise they are averaged back to their colour exactly when none of the three
      colour sums of the remaining n % 65536 overflows its 16 bits. */
  lemma CopiesRecoveredIff(n: nat, ping: Ping, previous: Collector.FadedPixel, now: int)
    ensures var a := n % 0x1_0000;
            var q := Recovered(n, ping, previous, now);
            if a == 0 then q == previous
            else
              q == Collector.FadedPixel(ping.colour.r, ping.colour.g, ping.colour.b, now)
              <==> a * ping.colour.r < 0x1_0000 && a * ping.colour.g < 0x1_0000 && a * ping.colour.b < 0x1_0000
  {
    hide Accumulate, U8;
    CopiesTotals(n, ping);
    AccumulateIsTotals(ping.pixel + 1, Copies(n, ping), ping.pixel);
    ProductWraps(n, ping.colour.r);
    ProductWraps(n, ping.colour.g);
    ProductWraps(n, ping.colour.b);
    var a := n % 0x1_0000;
    assert U16(n) == a;
    hide U16, TotalsAt;
    if a > 0 {
      ChannelRecoveredIff(a, ping.colour.r);
      ChannelRecoveredIff(a, ping.colour.g);
      ChannelRecoveredIff(a, ping.colour.b);
    }
  }

  /** A number n of equal pings is safe for every colour exactly when n modulo 65536 is from 1 to 257. */
  lemma SafeCountIff(n: nat)
    ensures (forall ping: Ping, previous, now ::
               Recovered(n, ping, previous, now)
                 == Collector.FadedPixel(ping.colour.r, ping.colour.g, ping.colour.b, now))
            <==> 1 <= n % 0x1_0000 <= 257
  {
    hide Recovered;
    var a := n % 0x1_0000;
    if 1 <= a <= 257 {
      forall ping: Ping, previous, now
        ensures Recovered(n, ping, previous, now)
                == Collector.FadedPixel(ping.colour.r, ping.colour.g, ping.colour.b, now)
      {
        MulMonotone(a, 257, ping.colour.r);
        MulMonotone(a, 257, ping.colour.g);
        MulMonotone(a, 257, ping.colour.b);
        CopiesRecoveredIff(n, ping, previous, now);
      }
    } else {
      var white, previous := Ping(0, Rgb(255, 255, 255)), Collector.FadedPixel(0, 0, 0, 0);
      CopiesRecoveredIff(n, white, previous, 0);
    }
  }
}
