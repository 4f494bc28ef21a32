/** Blending an 8-bit RGBA overlay over an RGB image: the overlay pass of the compositor
    and the library's image addition. */
module Overlay {
  import opened Pixels
  import opened Words

  /** The overlay pass: channel c of the image under channel o of an overlay pixel with alpha a. */
  function OverChannel(o: byte, a: byte, c: byte): byte {
    U8(o * a / 255 + c * (255 - a) / 255)
  }

  /** The overlay pass at one pixel; fully transparent overlay pixels are skipped. */
  function Over(o: Rgba, p: Rgb): Rgb {
    if o.a > 0 then Rgb(OverChannel(o.r, o.a, p.r), OverChannel(o.g, o.a, p.g), OverChannel(o.b, o.a, p.b)) else p
  }

  /** `rgb_pixel_t::operator+=` at one channel. */
  function AddChannel(c: byte, o: byte, a: byte): byte {
    U8(c * (255 - a) / 255 + o * a / 255)
  }

  function Add(p: Rgb, o: Rgba): Rgb {
    Rgb(AddChannel(p.r, o.r, o.a), AddChannel(p.g, o.g, o.a), AddChannel(p.b, o.b, o.a))
  }

  lemma DivMonotone(m: nat, n: nat, d: nat)
    requires d > 0 && m <= n
    ensures m / d <= n / d
  {
    if m / d > n / d {
      MulMonotone(n / d + 1, m / d, d);
    }
  }

  /** floor(m/d) + floor(n/d) is floor((m+n)/d) or one less. */
  lemma FloorSum(m: nat, n: nat, d: nat)
    requires d > 0
    ensures m / d + n / d <= (m + n) / d <= m / d + n / d + 1
  {
    var q := m / d + n / d;
    var r := m % d + n % d;
    assert m + n == d * q + r;
    if r < d {
      ModUnique(m + n, d, q, r);
    } else {
      assert m + n == d * (q + 1) + (r - d);
      ModUnique(m + n, d, q + 1, r - d);
    }
  }

  /** A convex combination of two bytes stays a byte. */
  lemma ConvexIsByte(o: byte, a: byte, c: byte)
    ensures o * a + c * (255 - a) <= 255 * 255
  {
    MulMonotone(o, 255, a);
    MulMonotone(c, 255, 255 - a);
  }

  lemma ProductIsNat(a: nat, b: nat)
    ensures a * b >= 0
  {}

  lemma WeightedSum(m: nat, n: nat)
    requires m + n <= 255 * 255
    ensures U8(m / 255 + n / 255) == m / 255 + n / 255
    ensures (m + n) / 255 - 1 <= m / 255 + n / 255 <= (m + n) / 255
  {
    FloorSum(m, n, 255);
  }

  /** The blended channel never needs its 8-bit conversion, and it is the floor of the exact
      convex combination or one less, never more. */
  lemma BlendBounds(o: byte, a: byte, c: byte)
    ensures OverChannel(o, a, c) == o * a / 255 + c * (255 - a) / 255
    ensures (o * a + c * (255 - a)) / 255 - 1 <= OverChannel(o, a, c) <= (o * a + c * (255 - a)) / 255
  {
    hide U8;
    ProductIsNat(o, a);
    ProductIsNat(c, 255 - a);
    ConvexIsByte(o, a, c);
    WeightedSum(o * a, c * (255 - a));
  }

  lemma TransparentChannel(o: byte, c: byte)
    ensures OverChannel(o, 0, c) == c
  {
    assert o * 0 == 0;
  }

  lemma OpaqueChannel(o: byte, c: byte)
    ensures OverChannel(o, 255, c) == o
  {
    assert c * 0 == 0;
  }

  lemma AddIsOverChannel(o: byte, a: byte, c: byte)
    ensures AddChannel(c, o, a) == OverChannel(o, a, c)
  {}

  /** The overlay pass is image addition, although it skips transparent pixels. */
  lemma OverIsAdd(o: Rgba, p: Rgb)
    ensures Over(o, p) == Add(p, o)
  {
    AddIsOverChannel(o.r, o.a, p.r);
    AddIsOverChannel(o.g, o.a, p.g);
    AddIsOverChannel(o.b, o.a, p.b);
    if o.a == 0 {
      TransparentChannel(o.r, p.r);
      TransparentChannel(o.g, p.g);
      TransparentChannel(o.b, p.b);
    }
    hide OverChannel, AddChannel;
  }

  /** Every channel of a blended pixel, transparent ones included: the sum of the two weighted parts, each rounded
      down, so that it is never above the floor of the exact convex combination and at most one below it. */
  lemma OverBounds(o: Rgba, p: Rgb)
    ensures var q := Over(o, p);
            && q.r == o.r * o.a / 255 + p.r * (255 - o.a) / 255
            && q.g == o.g * o.a / 255 + p.g * (255 - o.a) / 255
            && q.b == o.b * o.a / 255 + p.b * (255 - o.a) / 255
            && (o.r * o.a + p.r * (255 - o.a)) / 255 - 1 <= q.r <= (o.r * o.a + p.r * (255 - o.a)) / 255
            && (o.g * o.a + p.g * (255 - o.a)) / 255 - 1 <= q.g <= (o.g * o.a + p.g * (255 - o.a)) / 255
            && (o.b * o.a + p.b * (255 - o.a)) / 255 - 1 <= q.b <= (o.b * o.a + p.b * (255 - o.a)) / 255
  {
    OverChannels(o, p);
    hide Over, OverChannel;
    BlendBounds(o.r, o.a, p.r);
    BlendBounds(o.g, o.a, p.g);
    BlendBounds(o.b, o.a, p.b);
  }

  lemma OverChannels(o: Rgba, p: Rgb)
    ensures Over(o, p) == Rgb(OverChannel(o.r, o.a, p.r), OverChannel(o.g, o.a, p.g), OverChannel(o.b, o.a, p.b))
  {
    if o.a == 0 {
      TransparentChannel(o.r, p.r);
      TransparentChannel(o.g, p.g);
      TransparentChannel(o.b, p.b);
    }
    hide OverChannel;
  }

  /** An opaque overlay pixel replaces the image. */
  lemma OpaqueReplaces(o: Rgba, p: Rgb)
    requires o.a == 255
    ensures Over(o, p) == Rgb(o.r, o.g, o.b)
  {
    OpaqueChannel(o.r, p.r);
    OpaqueChannel(o.g, p.g);
    OpaqueChannel(o.b, p.b);
  }

  /** One colour is nowhere brighter than another. */
  predicate Darker(p: Rgb, q: Rgb) { p.r <= q.r && p.g <= q.g && p.b <= q.b }

  lemma OverChannelMonotone(o: byte, a: byte, c: byte, d: byte)
    requires c <= d
    ensures OverChannel(o, a, c) <= OverChannel(o, a, d)
  {
    BlendBounds(o, a, c);
    BlendBounds(o, a, d);
    MulMonotone(c, d, 255 - a);
    DivMonotone(c * (255 - a), d * (255 - a), 255);
  }

  /** Under the same overlay a darker image stays darker. */
  lemma OverMonotone(o: Rgba, p: Rgb, q: Rgb)
    requires Darker(p, q)
    ensures Darker(Over(o, p), Over(o, q))
  {
    OverChannelMonotone(o.r, o.a, p.r, q.r);
    OverChannelMonotone(o.g, o.a, p.g, q.g);
    OverChannelMonotone(o.b, o.a, p.b, q.b);
  }

  function Min(a: nat, b: nat): nat { if a < b then a else b }

  /** Pixel (i, j) of the rectangle comes before (x, y) in row-major order. */
  predicate Before(left: nat, right: nat, top: nat, bottom: nat, x: nat, y: nat, i: nat, j: nat) {
    left <= i < right && top <= j < bottom && (j < y || (j == y && i < x))
  }

  /** What the overlay pass stores in an image pixel under a pixel that is not transparent. */
  method BlendPixel(o: Rgba, pix: Rgb) returns (blended: Rgb)
    requires o.a > 0
    ensures blended == Over(o, pix)
  {
    hide U8;
    blended := pix.(r := U8((o.r * o.a / 255) + (pix.r * (255 - o.a) / 255)));
    blended := blended.(g := U8((o.g * o.a / 255) + (pix.g * (255 - o.a) / 255)));
    blended := blended.(b := U8((o.b * o.a / 255) + (pix.b * (255 - o.a) / 255)));
  }

  /** `rgb_pixel_t::operator+=` */
  method AddPixel(p: Rgb, rhs: Rgba) returns (sum: Rgb)
    ensures sum == Add(p, rhs)
  {
    hide U8;
    sum := p.(r := U8(p.r * (255 - rhs.a) / 255 + rhs.r * rhs.a / 255));
    sum := sum.(g := U8(p.g * (255 - rhs.a) / 255 + rhs.g * rhs.a / 255));
    sum := sum.(b := U8(p.b * (255 - rhs.a) / 255 + rhs.b * rhs.a / 255));
  }

  /** The overlay pass on one tile: every pixel of the clipped rectangle is blended once with the
      overlay pixel at the same place, and no other pixel changes. */
  method WriteCurrentImage(overlay: Image<Rgba>, output: Image<Rgb>, xOffset: nat, yOffset: nat, width: nat,
                           height: nat)
    requires overlay.Valid() && output.Valid()
    requires overlay.width == output.width && overlay.height == output.height
    requires xOffset + width < 0x1_0000_0000 && yOffset + height < 0x1_0000_0000
    modifies output.data
    ensures forall i, j :: 0 <= i < output.width && 0 <= j < output.height ==>
              output.GetPixel(i, j) ==
              if xOffset <= i < xOffset + width && yOffset <= j < yOffset + height
              then Over(overlay.GetPixel(i, j), old(output.GetPixel(i, j)))
              else old(output.GetPixel(i, j))
  {
    hide OverChannel;
    var right, bottom := Min(xOffset + width, output.width), Min(yOffset + height, output.height);
    var j := yOffset;
    while j < bottom
      invariant yOffset <= j
      invariant forall a, b :: 0 <= a < output.width && 0 <= b < output.height ==>
                  output.GetPixel(a, b) ==
                  if Before(xOffset, right, yOffset, bottom, xOffset, j, a, b)
                  then Over(overlay.GetPixel(a, b), old(output.GetPixel(a, b)))
                  else old(output.GetPixel(a, b))
    {
      var i := xOffset;
      while i < right
        invariant xOffset <= i
        invariant forall a, b :: 0 <= a < output.width && 0 <= b < output.height ==>
                    output.GetPixel(a, b) ==
                    if Before(xOffset, right, yOffset, bottom, i, j, a, b)
                    then Over(overlay.GetPixel(a, b), old(output.GetPixel(a, b)))
                    else old(output.GetPixel(a, b))
      {
        var o := overlay.GetPixel(i, j);
        if o.a > 0 {
          var pix := output.GetPixel(i, j);
          var blended := BlendPixel(o, pix);
          output.SetPixel(i, j, blended);
        }
        i := i + 1;
      }
      j := j + 1;
    }
  }

  /** `Image::operator+=`: the overlay added onto the whole image, which is what the overlay
      passes over a tile partition compute. */
  method AddAssign(output: Image<Rgb>, rhs: Image<Rgba>)
    requires rhs.Valid() && output.Valid()
    requires rhs.width == output.width && rhs.height == output.height
    modifies output.data
    ensures forall i, j :: 0 <= i < output.width && 0 <= j < output.height ==>
              output.GetPixel(i, j) == Over(rhs.GetPixel(i, j), old(output.GetPixel(i, j)))
  {
    hide OverChannel, Add;
    var y := 0;
    while y < output.height
      invariant forall a, b :: 0 <= a < output.width && 0 <= b < output.height ==>
                  output.GetPixel(a, b) ==
                  if b < y then Over(rhs.GetPixel(a, b), old(output.GetPixel(a, b))) else old(output.GetPixel(a, b))
    {
      var x := 0;
      while x < output.width
        invariant forall a, b :: 0 <= a < output.width && 0 <= b < output.height ==>
                    output.GetPixel(a, b) ==
                    if b < y || (b == y && a < x) then Over(rhs.GetPixel(a, b), old(output.GetPixel(a, b)))
                    else old(output.GetPixel(a, b))
      {
        var p, o := output.GetPixel(x, y), rhs.GetPixel(x, y);
        OverIsAdd(o, p);
        var sum := AddPixel(p, o);
        output.SetPixel(x, y, sum);
        x := x + 1;
      }
      y := y + 1;
    }
  }
}
