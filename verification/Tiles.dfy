/** How the compositor cuts an image into tiles: along each axis the tile origins are
    0, step, 2*step, ... below the extent, where step is a quarter of the extent. */
module Tiles {
  import opened Pixels
  import opened Words

  function Step(extent: nat): nat { extent / 4 }

  /** First coordinate of tile i along an axis. */
  function Origin(extent: nat, i: nat): nat { Steps(Step(extent), i) }

  /** First coordinate after tile i, clipped to the image. */
  function End(extent: nat, i: nat): nat {
    if Origin(extent, i) + Step(extent) < extent then Origin(extent, i) + Step(extent) else extent
  }

  /** The tile that holds coordinate v. */
  function TileOf(extent: nat, v: nat): nat
    requires extent >= 4
  {
    v / Step(extent)
  }

  /** How many origins lie below the extent. */
  function Count(extent: nat): nat
    requires extent >= 4
  {
    (extent + Step(extent) - 1) / Step(extent)
  }

  function CeilDiv(a: nat, b: nat): nat
    requires b > 0
  {
    (a + b - 1) / b
  }

  predicate InTile(extent: nat, i: nat, v: nat) {
    Origin(extent, i) <= v < End(extent, i)
  }

  lemma OriginBelowIff(extent: nat, i: nat)
    requires extent >= 4
    ensures Origin(extent, i) < extent <==> i < Count(extent)
  {
    var s, n := Step(extent), Count(extent);
    RowStart(s, extent + s - 1);
    hide Count;
    if i < n {
      StepsMonotone(s, i, n);
    } else {
      StepsMonotone(s, n, i);
    }
  }

  /** Along one axis every coordinate of the image lies in exactly one clipped tile. */
  lemma AxisPartition(extent: nat, v: nat, i: nat)
    requires extent >= 4 && v < extent
    ensures InTile(extent, i, v) <==> i == TileOf(extent, v)
    ensures TileOf(extent, v) < Count(extent)
  {
    var q := TileOf(extent, v);
    RowStart(Step(extent), v);
    OriginBelowIff(extent, q);
    if i < q {
      StepsMonotone(Step(extent), i, q);
    } else if i > q {
      StepsMonotone(Step(extent), q, i);
    }
  }

  /** The number of origins along one axis: four, and more when the extent is not a multiple of four. */
  lemma AxisCount(extent: nat)
    requires extent >= 4
    ensures Count(extent) == 4 + CeilDiv(extent % 4, Step(extent))
    ensures Count(extent) >= 4
    ensures Count(extent) == 4 <==> extent % 4 == 0
  {
    var s, r := Step(extent), extent % 4;
    var c := CeilDiv(r, s);
    var m := (r + s - 1) % s;
    assert r + s - 1 == s * c + m;
    assert extent + s - 1 == s * (4 + c) + m;
    ModUnique(extent + s - 1, s, 4 + c, m);
    if r == 0 {
      ModUnique(s - 1, s, 0, s - 1);
    } else {
      assert s * 0 == 0;
    }
  }

  /** Number of tasks posted for one frame. */
  function TaskCount(width: nat, height: nat): nat
    requires width >= 4 && height >= 4
  {
    Steps(Count(height), Count(width))
  }

  /** A frame has sixteen tasks exactly when both sides are multiples of four; otherwise it has at least twenty. */
  lemma SixteenTasksIff(width: nat, height: nat)
    requires width >= 4 && height >= 4
    ensures TaskCount(width, height) == (4 + CeilDiv(width % 4, Step(width))) * (4 + CeilDiv(height % 4, Step(height)))
    ensures TaskCount(width, height) == 16 <==> width % 4 == 0 && height % 4 == 0
    ensures TaskCount(width, height) != 16 ==> TaskCount(width, height) >= 20
  {
    AxisCount(width);
    AxisCount(height);
    var a, b := Count(width), Count(height);
    StepsIsProduct(b, a);
    if a > 4 {
      MulMonotone(5, a, b);
    } else if b > 4 {
      assert a * b == 4 * b;
    }
  }

  /** Every pixel of the image lies in exactly one tile. */
  lemma PixelPartition(width: nat, height: nat, x: nat, y: nat, i: nat, j: nat)
    requires width >= 4 && height >= 4 && x < width && y < height
    ensures InTile(width, i, x) && InTile(height, j, y) <==> (i, j) == (TileOf(width, x), TileOf(height, y))
    ensures TileOf(width, x) < Count(width) && TileOf(height, y) < Count(height)
  {
    AxisPartition(width, x, i);
    AxisPartition(height, y, j);
  }

  /** The origins handed to the tile tasks before the one of tile (i, j), in posting order. */
  function Posted(width: nat, height: nat, i: nat, j: nat): seq<(nat, nat)>
    requires width >= 4 && height >= 4
    decreases i, j
  {
    if j > 0 then Posted(width, height, i, j - 1) + [(Origin(width, i), Origin(height, j - 1))]
    else if i > 0 then Posted(width, height, i - 1, Count(height))
    else []
  }

  /** Tile (a, b) is posted once, and its place in the posting order is a * Count(height) + b. */
  lemma {:induction false} PostedAt(width: nat, height: nat, i: nat, j: nat, a: nat, b: nat)
    requires width >= 4 && height >= 4 && j <= Count(height)
    requires b < Count(height) && (a < i || (a == i && b < j))
    ensures |Posted(width, height, i, j)| == Steps(Count(height), i) + j
    ensures Steps(Count(height), a) + b < |Posted(width, height, i, j)|
    ensures Posted(width, height, i, j)[Steps(Count(height), a) + b] == (Origin(width, a), Origin(height, b))
    decreases i, j
  {
    PostedLength(width, height, i, j);
    if j > 0 {
      PostedLength(width, height, i, j - 1);
      if a == i && b == j - 1 {
      } else {
        PostedAt(width, height, i, j - 1, a, b);
      }
    } else {
      PostedAt(width, height, i - 1, Count(height), a, b);
    }
  }

  lemma {:induction false} PostedLength(width: nat, height: nat, i: nat, j: nat)
    requires width >= 4 && height >= 4
    ensures |Posted(width, height, i, j)| == Steps(Count(height), i) + j
    decreases i, j
  {
    if j > 0 {
      PostedLength(width, height, i, j - 1);
    } else if i > 0 {
      PostedLength(width, height, i - 1, Count(height));
    }
  }

  lemma PostedNext(width: nat, height: nat, i: nat, j: nat)
    requires width >= 4 && height >= 4
    ensures Posted(width, height, 0, 0) == []
    ensures Posted(width, height, i, j + 1) == Posted(width, height, i, j) + [(Origin(width, i), Origin(height, j))]
    ensures Posted(width, height, i + 1, 0) == Posted(width, height, i, Count(height))
  {
    hide Origin, Count;
  }

  /** A posting loop over this extent stays within 32 bits: also the value that ends it does. */
  predicate NoWrap(extent: nat)
    requires extent >= 4
  {
    Origin(extent, Count(extent)) < 0x1_0000_0000
  }

  /** Which is so for every extent below 2^31, and for every multiple of four below 2^32. */
  lemma NoWrapExtents(extent: nat)
    requires extent >= 4 && (extent < 0x8000_0000 || (extent % 4 == 0 && extent < 0x1_0000_0000))
    ensures NoWrap(extent)
  {
    var n := Count(extent);
    OriginBelowIff(extent, n - 1);
    assert Origin(extent, n) == Origin(extent, n - 1) + Step(extent);
    if extent % 4 == 0 {
      AxisCount(extent);
      StepsIsProduct(Step(extent), 4);
    }
  }

  /** So they stay within 32 bits for every image of fewer than 2^32 pixels. */
  lemma NoWrapImages(width: nat, height: nat)
    requires width >= 4 && height >= 4 && width * height < 0x1_0000_0000
    ensures NoWrap(width) && NoWrap(height)
  {
    MulMonotone(4, height, width);
    MulMonotone(4, width, height);
    NoWrapExtents(width);
    NoWrapExtents(height);
  }

  lemma NextOriginFits(extent: nat, i: nat)
    requires extent >= 4 && NoWrap(extent) && i < Count(extent)
    ensures Origin(extent, i + 1) == Origin(extent, i) + Step(extent) < 0x1_0000_0000
  {
    StepsMonotone(Step(extent), i + 1, Count(extent));
  }

  /** The posting loops of the compositor, for every size for which they stay within 32 bits: one task per
      tile, none twice. */
  method PostTiles(width: nat, height: nat) returns (origins: seq<(nat, nat)>)
    requires width >= 4 && height >= 4 && NoWrap(width) && NoWrap(height)
    ensures |origins| == TaskCount(width, height)
    ensures forall i, j :: 0 <= i < Count(width) && 0 <= j < Count(height) ==>
              && Steps(Count(height), i) + j < |origins|
              && origins[Steps(Count(height), i) + j] == (Origin(width, i), Origin(height, j))
  {
    assert Origin(width, 0) == 0 && Origin(height, 0) == 0 && Step(width) > 0 && Step(height) > 0;
    PostedNext(width, height, 0, 0);
    hide Origin, Count, Step, NoWrap, Posted, TaskCount;
    origins := [];
    var x := 0;
    ghost var i := 0;
    while x < width
      invariant x == Origin(width, i) && x <= width + Step(width) && x < 0x1_0000_0000
      invariant 0 <= i <= Count(width)
      invariant origins == Posted(width, height, i, 0)
      decreases width + Step(width) - x
    {
      OriginBelowIff(width, i);
      var y := 0;
      ghost var j := 0;
      while y < height
        invariant y == Origin(height, j) && y <= height + Step(height) && y < 0x1_0000_0000
        invariant 0 <= j <= Count(height)
        invariant origins == Posted(width, height, i, j)
        decreases height + Step(height) - y
      {
        OriginBelowIff(height, j);
        origins := origins + [(x, y)];
        NextOriginFits(height, j);
        PostedNext(width, height, i, j);
        y := y + Step(height);
        j := j + 1;
      }
      OriginBelowIff(height, j);
      NextOriginFits(width, i);
      PostedNext(width, height, i, j);
      x := x + Step(width);
      i := i + 1;
    }
    OriginBelowIff(width, i);
    PostedAll(width, height);
  }

  lemma PostedAll(width: nat, height: nat)
    requires width >= 4 && height >= 4
    ensures |Posted(width, height, Count(width), 0)| == TaskCount(width, height)
    ensures forall i, j :: 0 <= i < Count(width) && 0 <= j < Count(height) ==>
              && Steps(Count(height), i) + j < TaskCount(width, height)
              && Posted(width, height, Count(width), 0)[Steps(Count(height), i) + j]
                == (Origin(width, i), Origin(height, j))
  {
    hide Origin, Count;
    PostedLength(width, height, Count(width), 0);
    forall a: nat, b: nat | a < Count(width) && b < Count(height)
      ensures Steps(Count(height), a) + b < TaskCount(width, height)
      ensures Posted(width, height, Count(width), 0)[Steps(Count(height), a) + b]
              == (Origin(width, a), Origin(height, b))
    {
      PostedAt(width, height, Count(width), 0, a, b);
    }
  }
}
