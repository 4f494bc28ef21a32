/** The renderer's collector: it keeps, for every pixel, the colour of the latest delta image that
    touched it and the time of that update, and fades pixels out as they age. */
module Collector {
  import opened Overlay
  import opened Pixels
  import opened Words

  /** A collected colour and the time of its last update, in nanoseconds. */
  datatype FadedPixel = FadedPixel(r: byte, g: byte, b: byte, lastUpdated: int)

  const NANOSECONDS_PER_MILLISECOND := 1_000_000

  // ----- averaging -----

  /** One delta pixel arriving: a pixel with pings takes their mean colour and the clock reading. */
  function Average(p: FadedPixel, delta: Rgba16, stamp: int): FadedPixel {
    if delta.a > 0
    then FadedPixel(U8(delta.r / delta.a), U8(delta.g / delta.a), U8(delta.b / delta.a), stamp)
    else p
  }

  /** One delta image arriving; stamps[i] is the clock reading for pixel i. */
  function Collect(image: seq<FadedPixel>, delta: seq<Rgba16>, stamps: seq<int>): (collected: seq<FadedPixel>)
    requires |image| == |delta| == |stamps|
    ensures |collected| == |image|
  {
    seq(|image|, i requires 0 <= i < |image| => Average(image[i], delta[i], stamps[i]))
  }

  /** A delta image together with the clock readings made while it was collected. */
  datatype Delta = Delta(pixels: seq<Rgba16>, stamps: seq<int>)

  ghost predicate Fits(deltas: seq<Delta>, size: nat) {
    forall k :: 0 <= k < |deltas| ==> |deltas[k].pixels| == |deltas[k].stamps| == size
  }

  /** The collector after a whole sequence of delta images. */
  function CollectAll(image: seq<FadedPixel>, deltas: seq<Delta>): (collected: seq<FadedPixel>)
    requires Fits(deltas, |image|)
    ensures |collected| == |image|
  {
    if deltas == [] then image
    else Collect(CollectAll(image, deltas[..|deltas| - 1]), deltas[|deltas| - 1].pixels, deltas[|deltas| - 1].stamps)
  }

  /** Delta image k is the latest one with pings at pixel i. */
  predicate Latest(deltas: seq<Delta>, size: nat, i: nat, k: nat)
    requires Fits(deltas, size) && i < size
  {
    && k < |deltas| && deltas[k].pixels[i].a > 0
    && forall l :: k < l < |deltas| ==> deltas[l].pixels[i].a == 0
  }

  /** The collector is a function of its history: each pixel holds the mean colour and the time of the
      latest delta image with pings there... */
  lemma {:induction false} CollectedFromLatest(image: seq<FadedPixel>, deltas: seq<Delta>, i: nat, k: nat)
    requires Fits(deltas, |image|) && i < |image| && Latest(deltas, |image|, i, k)
    ensures var p, stamp := deltas[k].pixels[i], deltas[k].stamps[i];
            CollectAll(image, deltas)[i] == FadedPixel(U8(p.r / p.a), U8(p.g / p.a), U8(p.b / p.a), stamp)
    decreases deltas
  {
    if k < |deltas| - 1 {
      CollectedFromLatest(image, deltas[..|deltas| - 1], i, k);
    }
  }

  /** ...or its first value when no delta image had any. */
  lemma {:induction false} CollectedUntouched(image: seq<FadedPixel>, deltas: seq<Delta>, i: nat)
    requires Fits(deltas, |image|) && i < |image|
    requires forall k :: 0 <= k < |deltas| ==> deltas[k].pixels[i].a == 0
    ensures CollectAll(image, deltas)[i] == image[i]
    decreases deltas
  {
    if deltas != [] {
      CollectedUntouched(image, deltas[..|deltas| - 1], i);
    }
  }

  // ----- fading -----

  /** Whole milliseconds from `then` to `now`, rounded toward zero. */
  function ElapsedMs(now: int, since: int): int {
    if now >= since then (now - since) / NANOSECONDS_PER_MILLISECOND
    else -((since - now) / NANOSECONDS_PER_MILLISECOND)
  }

  /** Channel v with m of the f milliseconds of its life left. */
  function FadeChannel(v: byte, m: int, f: int): byte
    requires f != 0
  {
    U8(v * m / f)
  }

  /** The colour a collected pixel shows at time `now` when colours live f milliseconds. */
  function Faded(p: FadedPixel, now: int, f: int): Rgb {
    var diff := ElapsedMs(now, p.lastUpdated);
    if p.lastUpdated >= now then Rgb(p.r, p.g, p.b)
    else if diff >= f || (p.r == 0 && p.g == 0 && p.b == 0) then BLACK
    else Rgb(FadeChannel(p.r, f - diff, f), FadeChannel(p.g, f - diff, f), FadeChannel(p.b, f - diff, f))
  }

  lemma QuotientMonotone(v: nat, m: nat, m': nat, f: nat)
    requires 0 < f && m <= m'
    ensures v * m / f <= v * m' / f
  {
    MulMonotone(m, m', v);
    var a, b := v * m, v * m';
    assert a == m * v && b == m' * v;
    DivMonotone(a, b, f);
  }

  lemma QuotientExact(v: nat, f: nat)
    requires 0 < f
    ensures v * f / f == v
  {
    ModUnique(v * f, f, v, 0);
  }

  lemma QuotientBounds(v: nat, m: nat, m': nat, f: nat)
    requires 0 < f && m <= m' <= f
    ensures 0 <= v * m / f <= v * m' / f <= v == v * f / f
  {
    QuotientMonotone(v, 0, m, f);
    QuotientMonotone(v, m, m', f);
    QuotientMonotone(v, m', f, f);
    QuotientExact(v, f);
  }

  /** While a colour lives, its fading channel neither overflows a byte nor exceeds the stored value,
      and it does not grow as the remaining life shrinks. */
  lemma FadeChannelBounds(v: byte, m: nat, m': nat, f: nat)
    requires 0 < f && m <= m' <= f
    ensures FadeChannel(v, m, f) == v * m / f <= FadeChannel(v, m', f) <= v
    ensures FadeChannel(v, f, f) == v
  {
    QuotientBounds(v, m, m', f);
    Reduced(v * m / f);
    Reduced(v * m' / f);
    Reduced(v * f / f);
    hide U8;
  }

  lemma Reduced(q: int)
    requires 0 <= q < 0x100
    ensures U8(q) == q
  {}

  lemma ElapsedMonotone(now: int, now': int, since: int)
    requires since <= now <= now'
    ensures 0 <= ElapsedMs(now, since) <= ElapsedMs(now', since)
  {}

  /** The division in the fading branch is by a positive number, with a non-negative age below it. */
  lemma FadeDivisorPositive(p: FadedPixel, now: int, f: int)
    requires p.lastUpdated < now && ElapsedMs(now, p.lastUpdated) < f
    ensures f > 0 && 0 <= ElapsedMs(now, p.lastUpdated)
    ensures 0 < f - ElapsedMs(now, p.lastUpdated) <= f
  {
    ElapsedMonotone(now, now, p.lastUpdated);
  }

  /** As time passes without an update, no channel ever gets brighter, whatever the fade duration. */
  lemma FadedDarkens(p: FadedPixel, now: int, now': int, f: int)
    requires now <= now'
    ensures Darker(Faded(p, now', f), Faded(p, now, f))
    ensures Darker(Faded(p, now, f), Rgb(p.r, p.g, p.b))
  {
    FadedBelowStored(p, now, f);
    FadedBelowStored(p, now', f);
    if p.lastUpdated < now {
      ElapsedMonotone(now, now', p.lastUpdated);
      var m, m' := f - ElapsedMs(now', p.lastUpdated), f - ElapsedMs(now, p.lastUpdated);
      if 0 < m {
        FadeChannelBounds(p.r, m, m', f);
        FadeChannelBounds(p.g, m, m', f);
        FadeChannelBounds(p.b, m, m', f);
      }
    }
    hide FadeChannel;
  }

  lemma FadedBelowStored(p: FadedPixel, now: int, f: int)
    ensures Darker(Faded(p, now, f), Rgb(p.r, p.g, p.b))
  {
    if p.lastUpdated < now && ElapsedMs(now, p.lastUpdated) < f {
      FadeDivisorPositive(p, now, f);
      var m := f - ElapsedMs(now, p.lastUpdated);
      FadeChannelBounds(p.r, m, m, f);
      FadeChannelBounds(p.g, m, m, f);
      FadeChannelBounds(p.b, m, m, f);
    }
    hide FadeChannel;
  }

  /** A pixel shows its stored colour unchanged during the first millisecond after its update. */
  lemma FreshIsUnchanged(p: FadedPixel, now: int, f: int)
    requires f > 0 && now < p.lastUpdated + 1_000_000
    ensures Faded(p, now, f) == Rgb(p.r, p.g, p.b)
  {
    FadeChannelBounds(p.r, f, f, f);
    FadeChannelBounds(p.g, f, f, f);
    FadeChannelBounds(p.b, f, f, f);
    hide FadeChannel;
  }

  lemma ZeroQuotientIff(n: nat, f: nat)
    requires f > 0
    ensures n / f == 0 <==> n < f
  {
    if n < f {
      ModUnique(n, f, 0, n);
    }
  }

  lemma ChannelGoneIff(v: byte, m: nat, f: nat)
    requires 0 < f && m <= f
    ensures FadeChannel(v, m, f) == 0 <==> v * m < f
  {
    FadeChannelBounds(v, m, m, f);
    ZeroQuotientIff(v * m, f);
    hide FadeChannel;
  }

  /** Exactly when a pixel shows as black: if it was updated before `now`, once its age reaches the fade
      duration or, already before, the remaining life of every channel is too short for its value. */
  lemma BlackIff(p: FadedPixel, now: int, f: int)
    ensures var age := ElapsedMs(now, p.lastUpdated);
            Faded(p, now, f) == BLACK <==>
            if p.lastUpdated >= now then p.r == 0 && p.g == 0 && p.b == 0
            else age >= f || (p.r * (f - age) < f && p.g * (f - age) < f && p.b * (f - age) < f)
  {
    var age := ElapsedMs(now, p.lastUpdated);
    if p.lastUpdated < now && age < f {
      FadeDivisorPositive(p, now, f);
      var m := f - age;
      ChannelGoneIff(p.r, m, f);
      ChannelGoneIff(p.g, m, f);
      ChannelGoneIff(p.b, m, f);
      hide ElapsedMs, FadeChannel;
    }
  }

  lemma ElapsedWhole(now: int, since: int, d: int)
    requires since < now && 0 <= d && since + d * 1_000_000 <= now < since + (d + 1) * 1_000_000
    ensures ElapsedMs(now, since) == d
  {
    ModUnique(now - since, 1_000_000, d, now - since - d * 1_000_000);
  }

  lemma ElapsedAtLeast(now: int, since: int, f: int)
    requires since < now && since + f * 1_000_000 <= now
    ensures ElapsedMs(now, since) >= f
  {}

  /** What a pixel shows, with the clock in nanoseconds and a fade duration of f milliseconds: in the millisecond
      that begins d milliseconds after its update, the share (f - d) / f of every channel, rounded down; from f
      milliseconds on black; and before its update the stored colour. */
  lemma FadedInNanoseconds(p: FadedPixel, now: int, f: int, d: int)
    ensures now <= p.lastUpdated ==> Faded(p, now, f) == Rgb(p.r, p.g, p.b)
    ensures p.lastUpdated < now && p.lastUpdated + f * 1_000_000 <= now ==> Faded(p, now, f) == Rgb(0, 0, 0)
    ensures p.lastUpdated < now && 0 <= d < f
            && p.lastUpdated + d * 1_000_000 <= now < p.lastUpdated + (d + 1) * 1_000_000 ==>
              var q := Faded(p, now, f);
              q.r == p.r * (f - d) / f && q.g == p.g * (f - d) / f && q.b == p.b * (f - d) / f
  {
    var since := p.lastUpdated;
    if since < now {
      if since + f * 1_000_000 <= now {
        ElapsedAtLeast(now, since, f);
      } else if 0 <= d < f && since + d * 1_000_000 <= now < since + (d + 1) * 1_000_000 {
        ElapsedWhole(now, since, d);
        FadingShare(p, now, f, d);
      }
    }
    hide ElapsedMs, FadeChannel;
  }

  lemma FadingShare(p: FadedPixel, now: int, f: int, d: int)
    requires p.lastUpdated < now && 0 <= d < f && ElapsedMs(now, p.lastUpdated) == d
    ensures var q := Faded(p, now, f);
            q.r == p.r * (f - d) / f && q.g == p.g * (f - d) / f && q.b == p.b * (f - d) / f
  {
    hide ElapsedMs;
    FadeChannelBounds(p.r, f - d, f - d, f);
    FadeChannelBounds(p.g, f - d, f - d, f);
    FadeChannelBounds(p.b, f - d, f - d, f);
    hide FadeChannel;
    ZeroShare(f - d, f);
  }

  lemma ZeroShare(m: nat, f: nat)
    requires f > 0
    ensures 0 * m / f == 0
  {
    ModUnique(0, f, 0, 0);
  }

  /** Over successive frames without a new delta and under a fixed overlay, what is displayed darkens. */
  lemma DisplayedDarkens(o: Rgba, p: FadedPixel, now: int, now': int, f: int)
    requires now <= now'
    ensures Darker(Over(o, Faded(p, now', f)), Over(o, Faded(p, now, f)))
  {
    FadedDarkens(p, now, now', f);
    OverMonotone(o, Faded(p, now', f), Faded(p, now, f));
  }

  // ----- the collector -----

  class Collector {
    const width: nat
    const height: nat
    const image: array<FadedPixel>

    ghost predicate Valid() { image.Length == width * height }

    /** init: every pixel starts black, stamped with the clock reading made for it. */
    constructor (width: nat, height: nat, stamps: seq<int>)
      requires |stamps| == width * height
      ensures Valid() && fresh(image) && this.width == width && this.height == height
      ensures image[..] == seq(|stamps|, i requires 0 <= i < |stamps| => FadedPixel(0, 0, 0, stamps[i]))
    {
      this.width := width;
      this.height := height;
      var pixels := new FadedPixel[width * height](_ => FadedPixel(0, 0, 0, 0));
      this.image := pixels;
      new;
      var i := 0;
      while i < width * height
        invariant i <= width * height
        invariant forall k :: 0 <= k < i ==> pixels[k] == FadedPixel(0, 0, 0, stamps[k])
      {
        pixels[i] := FadedPixel(0, 0, 0, stamps[i]);
        i := i + 1;
      }
    }

    function At(x: nat, y: nat): FadedPixel
      requires Valid() && x < width && y < height
      reads image
    {
      IndexInRange(width, height, x, y);
      image[Index(width, x, y)]
    }

    /** A delta image arrives: exactly its pixels with pings replace the collected ones. */
    method HandleNewDeltaImage(delta: Image<Rgba16>, stamps: seq<int>)
      requires Valid() && delta.Valid()
      requires delta.width == width && delta.height == height && |stamps| == width * height
      modifies image
      ensures image[..] == Collect(old(image[..]), delta.data[..], stamps)
    {
      hide Average;
      var w, h := delta.width, delta.height;
      var y := 0;
      while y < h
        invariant 0 <= y <= h
        invariant forall k :: 0 <= k < image.Length ==>
                    image[k] ==
                    if k < Index(w, 0, y) then Average(old(image[k]), delta.data[k], stamps[k]) else old(image[k])
      {
        var x := 0;
        while x < w
          invariant 0 <= x <= w
          invariant forall k :: 0 <= k < image.Length ==>
                      image[k] ==
                      if k < Index(w, x, y) then Average(old(image[k]), delta.data[k], stamps[k]) else old(image[k])
        {
          IndexInRange(w, h, x, y);
          var i := Index(w, x, y);
          var p := AveragePixel(image[i], delta.data[i], stamps[i]);
          image[i] := p;
          x := x + 1;
        }
        y := y + 1;
      }
      StepsIsProduct(w, h);
    }

    /** The collector pass on one tile: every pixel of the clipped rectangle takes the faded colour
        of the collected pixel at the same place, and no other pixel changes. */
    method WriteCurrentImage(output: Image<Rgb>, fadeOut: int, now: int, xOffset: nat, yOffset: nat, tileWidth: nat,
                             tileHeight: nat)
      requires Valid() && output.Valid() && output.width == width && output.height == height
      requires xOffset + tileWidth < 0x1_0000_0000 && yOffset + tileHeight < 0x1_0000_0000
      modifies output.data
      ensures forall i, j :: 0 <= i < width && 0 <= j < height ==>
                output.GetPixel(i, j) ==
                if xOffset <= i < xOffset + tileWidth && yOffset <= j < yOffset + tileHeight
                then Faded(At(i, j), now, fadeOut)
                else old(output.GetPixel(i, j))
    {
      hide Faded;
      var right, bottom := Min(xOffset + tileWidth, output.width), Min(yOffset + tileHeight, output.height);
      var y := yOffset;
      while y < bottom
        invariant yOffset <= y
        invariant forall a, b :: 0 <= a < width && 0 <= b < height ==>
                    output.GetPixel(a, b) ==
                    if Before(xOffset, right, yOffset, bottom, xOffset, y, a, b)
                    then Faded(At(a, b), now, fadeOut) else old(output.GetPixel(a, b))
      {
        var x := xOffset;
        while x < right
          invariant xOffset <= x
          invariant forall a, b :: 0 <= a < width && 0 <= b < height ==>
                      output.GetPixel(a, b) ==
                      if Before(xOffset, right, yOffset, bottom, x, y, a, b)
                      then Faded(At(a, b), now, fadeOut) else old(output.GetPixel(a, b))
        {
          var newPixel := FadePixel(At(x, y), now, fadeOut);
          output.SetPixel(x, y, newPixel);
          x := x + 1;
        }
        y := y + 1;
      }
    }
  }

  /** The update of one collected pixel. */
  method AveragePixel(p: FadedPixel, deltaPixel: Rgba16, now: int) returns (q: FadedPixel)
    ensures q == Average(p, deltaPixel, now)
  {
    q := p;
    if deltaPixel.a > 0 {
      q := q.(r := U8(deltaPixel.r / deltaPixel.a));
      q := q.(g := U8(deltaPixel.g / deltaPixel.a));
      q := q.(b := U8(deltaPixel.b / deltaPixel.a));
      q := q.(lastUpdated := now);
    }
  }

  /** The fading of one pixel; the fading branch never divides by zero. */
  method FadePixel(original: FadedPixel, now: int, f: int) returns (pixel: Rgb)
    ensures pixel == Faded(original, now, f)
  {
    hide U8;
    var since := original.lastUpdated;
    var diff := ElapsedMs(now, since);
    var m := f - diff;
    if since >= now {
      pixel := Rgb(original.r, original.g, original.b);
    } else if diff >= f || (original.r == 0 && original.g == 0 && original.b == 0) {
      pixel := Rgb(0, 0, 0);
    } else {
      FadeDivisorPositive(original, now, f);
      pixel := Rgb(U8(original.r * m / f), U8(original.g * m / f), U8(original.b * m / f));
    }
  }
}
