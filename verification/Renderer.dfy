/** The tile task and the sequential composition of a frame, on the renderer's image objects, and
    their agreement with what the parallel compositor publishes. */
module Renderer {
  import opened Compositor
  import opened CompositorSafety
  import opened Overlay
  import opened Pixels
  import opened Tiles
  import Collector

  /** The work of one posted task: a collector pass and an overlay pass over the same tile. */
  method RenderTile(collector: Collector.Collector, overlay: Image<Rgba>, img: Image<Rgb>,
                    fadeOut: int, now: int, x: nat, y: nat, ghost column: nat, ghost row: nat)
    requires collector.Valid() && overlay.Valid() && img.Valid()
    requires collector.width == overlay.width == img.width && collector.height == overlay.height == img.height
    requires x == Origin(img.width, column) && y == Origin(img.height, row)
    requires x + Step(img.width) < 0x1_0000_0000 && y + Step(img.height) < 0x1_0000_0000
    modifies img.data
    ensures forall i, j :: 0 <= i < img.width && 0 <= j < img.height ==>
              img.GetPixel(i, j) ==
              if InTile(img.width, column, i) && InTile(img.height, row, j)
              then Over(overlay.GetPixel(i, j), Collector.Faded(collector.At(i, j), now, fadeOut))
              else old(img.GetPixel(i, j))
  {
    hide Overlay.Over, Collector.Faded;
    collector.WriteCurrentImage(img, fadeOut, now, x, y, img.width / 4, img.height / 4);
    WriteCurrentImage(overlay, img, x, y, img.width / 4, img.height / 4);
  }

  /** One collector pass and one overlay pass over a whole new image. */
  method ComposeSequentially(collector: Collector.Collector, overlay: Image<Rgba>, fadeOut: int, now: int)
    returns (img: Image<Rgb>)
    requires collector.Valid() && overlay.Valid()
    requires collector.width == overlay.width < 0x1_0000_0000 && collector.height == overlay.height < 0x1_0000_0000
    ensures fresh(img) && img.Valid() && img.width == overlay.width && img.height == overlay.height
    ensures img.data[..] == Sequential(collector.image[..], overlay.data[..], fadeOut, now)
  {
    hide Overlay.Over, Collector.Faded;
    img := new Image(overlay.width, overlay.height, BLACK);
    collector.WriteCurrentImage(img, fadeOut, now, 0, 0, img.width, img.height);
    AddAssign(img, overlay);
    SequentialImage(collector, overlay, img, fadeOut, now);
  }

  /** The posting loops with each task carried out on the spot: for every image size of at least four
      by four, the tile passes compute the image of the sequential composition. */
  method ComposeByTiles(collector: Collector.Collector, overlay: Image<Rgba>, fadeOut: int, now: int)
    returns (img: Image<Rgb>)
    requires collector.Valid() && overlay.Valid()
    requires 4 <= collector.width == overlay.width && 4 <= collector.height == overlay.height
    requires NoWrap(collector.width) && NoWrap(collector.height)
    ensures fresh(img) && img.Valid() && img.width == overlay.width && img.height == overlay.height
    ensures img.data[..] == Sequential(collector.image[..], overlay.data[..], fadeOut, now)
  {
    hide Overlay.Over, Collector.Faded, Origin, End, TileOf;
    img := new Image(overlay.width, overlay.height, BLACK);
    var x := 0;
    ghost var i := 0;
    assert Origin(img.width, 0) == 0 && Origin(img.height, 0) == 0 by {
      OriginOfFirst(img.width);
      OriginOfFirst(img.height);
    }
    while x < img.width
      invariant x == Origin(img.width, i) && x <= img.width + Step(img.width)
      invariant forall a, b :: 0 <= a < img.width && 0 <= b < img.height && TileOf(img.width, a) < i ==>
                  img.GetPixel(a, b) == Over(overlay.GetPixel(a, b), Collector.Faded(collector.At(a, b), now, fadeOut))
      decreases img.width + Step(img.width) - x
    {
      OriginBelowIff(img.width, i);
      var y := 0;
      ghost var j := 0;
      while y < img.height
        invariant y == Origin(img.height, j) && y <= img.height + Step(img.height)
        invariant forall a, b :: 0 <= a < img.width && 0 <= b < img.height
                                 && (TileOf(img.width, a) < i
                                     || (TileOf(img.width, a) == i && TileOf(img.height, b) < j)) ==>
                    img.GetPixel(a, b)
                    == Over(overlay.GetPixel(a, b), Collector.Faded(collector.At(a, b), now, fadeOut))
        decreases img.height + Step(img.height) - y
      {
        OriginBelowIff(img.height, j);
        forall a: nat, b: nat | a < img.width && b < img.height
          ensures InTile(img.width, i, a) && InTile(img.height, j, b) <==>
                  (i, j) == (TileOf(img.width, a), TileOf(img.height, b))
        {
          PixelPartition(img.width, img.height, a, b, i, j);
        }
        NextOriginFits(img.width, i);
        NextOriginFits(img.height, j);
        RenderTile(collector, overlay, img, fadeOut, now, x, y, i, j);
        y := y + Step(img.height);
        j := j + 1;
      }
      AllBelow(img.height, j);
      NextOriginFits(img.width, i);
      x := x + Step(img.width);
      i := i + 1;
    }
    AllBelow(img.width, i);
    SequentialImage(collector, overlay, img, fadeOut, now);
  }

  lemma OriginOfFirst(extent: nat)
    ensures Origin(extent, 0) == 0
  {}

  /** Once an origin has left the image, all its coordinates lie in earlier tiles. */
  lemma AllBelow(extent: nat, i: nat)
    requires extent >= 4 && Origin(extent, i) >= extent
    ensures forall v: nat :: v < extent ==> TileOf(extent, v) < i
  {
    OriginBelowIff(extent, i);
    forall v: nat | v < extent
      ensures TileOf(extent, v) < i
    {
      AxisPartition(extent, v, i);
    }
    hide TileOf;
  }

  /** During frame k the tile tasks read this collector, this overlay and this time. */
  ghost predicate FixedInputs(c: Config, k: nat, collector: seq<Collector.FadedPixel>, overlay: seq<Rgba>, now: int)
    requires |collector| == |overlay| == c.width * c.height
  {
    && (forall x, y :: 0 <= x < c.width && 0 <= y < c.height ==>
          Index(c.width, x, y) < |collector| && c.collected(k, x, y) == collector[Index(c.width, x, y)]
          && c.overlay(k, x, y) == overlay[Index(c.width, x, y)])
    && (forall i, j :: c.clock(k, i, j) == now)
  }

  /** The image that a sequential composition leaves, as its pixel vector. */
  function Sequential(collector: seq<Collector.FadedPixel>, overlay: seq<Rgba>, fadeOut: int, now: int)
    : (image: seq<Rgb>)
    requires |collector| == |overlay|
    ensures |image| == |collector|
  {
    seq(|collector|, p requires 0 <= p < |collector| => Over(overlay[p], Collector.Faded(collector[p], now, fadeOut)))
  }

  /** An image whose pixels are composited at their coordinates is composited at its indices. */
  lemma SequentialImage(collector: Collector.Collector, overlay: Image<Rgba>, img: Image<Rgb>, fadeOut: int, now: int)
    requires collector.Valid() && overlay.Valid() && img.Valid()
    requires collector.width == overlay.width == img.width && collector.height == overlay.height == img.height
    requires forall i, j :: 0 <= i < img.width && 0 <= j < img.height ==>
               img.GetPixel(i, j) == Over(overlay.GetPixel(i, j), Collector.Faded(collector.At(i, j), now, fadeOut))
    ensures img.data[..] == Sequential(collector.image[..], overlay.data[..], fadeOut, now)
  {
    hide Overlay.Over, Collector.Faded;
    forall p | 0 <= p < img.data.Length
      ensures img.data[p] == Sequential(collector.image[..], overlay.data[..], fadeOut, now)[p]
    {
      IndexSurjective(img.width, img.height, p);
      assert img.GetPixel(p % img.width, p / img.width) ==
             Over(overlay.GetPixel(p % img.width, p / img.width),
                  Collector.Faded(collector.At(p % img.width, p / img.width), now, fadeOut));
    }
  }

  /** Parallel equals sequential: in every interleaving of the sixteen tile tasks, a published frame
      whose inputs stayed fixed shows pixel by pixel the image of the sequential composition. */
  lemma ParallelIsSequential(c: Config, s: State, k: nat, collector: seq<Collector.FadedPixel>, overlay: seq<Rgba>,
                             now: int, x: nat, y: nat)
    requires Quartered(c) && Reachable(c, s) && 1 <= k <= s.published
    requires |collector| == |overlay| == c.width * c.height && FixedInputs(c, k, collector, overlay, now)
    requires x < c.width && y < c.height
    ensures Index(c.width, x, y) < |collector| && k < |s.images|
    ensures At(s.images[k], x, y) == Sequential(collector, overlay, c.fadeOut, now)[Index(c.width, x, y)]
  {
    hide Overlay.Over, Collector.Faded;
    PublishedIsComposite(c, s, k);
    IndexInRange(c.width, c.height, x, y);
  }

  /** Over published frames without a new delta at a pixel, under an unchanged overlay and with a
      clock that does not run backwards, the pixel never gets brighter. */
  lemma PublishedFramesDarken(c: Config, s: State, k: nat, k': nat, x: nat, y: nat)
    requires Quartered(c) && Reachable(c, s) && 1 <= k <= k' <= s.published && x < c.width && y < c.height
    requires c.collected(k, x, y) == c.collected(k', x, y) && c.overlay(k, x, y) == c.overlay(k', x, y)
    requires c.clock(k, TileOf(c.width, x), TileOf(c.height, y)) <= c.clock(k', TileOf(c.width, x), TileOf(c.height, y))
    ensures k' < |s.images| && Darker(At(s.images[k'], x, y), At(s.images[k], x, y))
  {
    hide Overlay.Over, Collector.Faded;
    PublishedIsComposite(c, s, k);
    PublishedIsComposite(c, s, k');
    var i, j := TileOf(c.width, x), TileOf(c.height, y);
    Collector.DisplayedDarkens(c.overlay(k, x, y), c.collected(k, x, y), c.clock(k, i, j), c.clock(k', i, j),
                               c.fadeOut);
  }
}
