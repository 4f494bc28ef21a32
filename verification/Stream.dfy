/** The byte stream between receiver and renderer: frames are written as the raw bytes of their pixel
    vectors and cut out of the stream again at the frame size. Both hosts use one byte order. */
module Stream {
  import opened Checksum
  import opened Pixels
  import opened Words
  import Collector

  const PIXEL_BYTES := 8

  function SerializePixel(order: ByteOrder, p: Rgba16): (bytes: seq<byte>)
    ensures |bytes| == PIXEL_BYTES
  {
    Store(order, p.r) + Store(order, p.g) + Store(order, p.b) + Store(order, p.a)
  }

  function ParsePixel(order: ByteOrder, bytes: seq<byte>): Rgba16
    requires |bytes| == PIXEL_BYTES
  {
    Rgba16(Word(order, bytes[0], bytes[1]), Word(order, bytes[2], bytes[3]),
           Word(order, bytes[4], bytes[5]), Word(order, bytes[6], bytes[7]))
  }

  lemma PixelRoundTrip(order: ByteOrder, p: Rgba16)
    ensures ParsePixel(order, SerializePixel(order, p)) == p
  {
    hide Word;
  }

  /** The eight bytes of a pixel: red, green, blue and count, each in the byte order of the host. */
  lemma PixelBytes(order: ByteOrder, p: Rgba16)
    ensures SerializePixel(order, p) ==
            match order
            case Big => [p.r / 256, p.r % 256, p.g / 256, p.g % 256, p.b / 256, p.b % 256, p.a / 256, p.a % 256]
            case Little => [p.r % 256, p.r / 256, p.g % 256, p.g / 256, p.b % 256, p.b / 256, p.a % 256, p.a / 256]
  {}

  /** The raw bytes of a pixel vector. */
  function SerializeFrame(order: ByteOrder, frame: seq<Rgba16>): (bytes: seq<byte>)
    ensures |bytes| == PIXEL_BYTES * |frame|
  {
    if frame == [] then [] else SerializePixel(order, frame[0]) + SerializeFrame(order, frame[1..])
  }

  /** Raw bytes seen as a pixel vector. */
  function ParseFrame(order: ByteOrder, bytes: seq<byte>): (frame: seq<Rgba16>)
    requires |bytes| % PIXEL_BYTES == 0
    ensures |frame| == |bytes| / PIXEL_BYTES
  {
    if bytes == [] then [] else [ParsePixel(order, bytes[..PIXEL_BYTES])] + ParseFrame(order, bytes[PIXEL_BYTES..])
  }

  /** Pixel i of a frame takes the eight bytes from 8 * i on. */
  lemma {:induction false} FrameBytes(order: ByteOrder, frame: seq<Rgba16>, i: nat)
    requires i < |frame|
    ensures |SerializeFrame(order, frame)| == 8 * |frame|
    ensures SerializeFrame(order, frame)[8 * i..8 * i + 8] == SerializePixel(order, frame[i])
  {
    hide SerializePixel;
    if i > 0 {
      FrameBytes(order, frame[1..], i - 1);
      var first, rest := SerializePixel(order, frame[0]), SerializeFrame(order, frame[1..]);
      assert (first + rest)[8 * i..8 * i + 8] == rest[8 * (i - 1)..8 * (i - 1) + 8];
    }
  }

  lemma {:induction false} FrameRoundTrip(order: ByteOrder, frame: seq<Rgba16>)
    ensures ParseFrame(order, SerializeFrame(order, frame)) == frame
    decreases frame
  {
    if frame != [] {
      PixelRoundTrip(order, frame[0]);
      FrameRoundTrip(order, frame[1..]);
      hide ParsePixel, SerializePixel;
      var bytes := SerializeFrame(order, frame);
      assert bytes[..PIXEL_BYTES] == SerializePixel(order, frame[0]);
      assert bytes[PIXEL_BYTES..] == SerializeFrame(order, frame[1..]);
    }
  }

  ghost predicate OfSize(frames: seq<seq<Rgba16>>, size: nat) {
    forall k :: 0 <= k < |frames| ==> |frames[k]| == size
  }

  function SerializeAll(order: ByteOrder, frames: seq<seq<Rgba16>>): seq<byte> {
    if frames == [] then [] else SerializeFrame(order, frames[0]) + SerializeAll(order, frames[1..])
  }

  /** Cutting a stream at the frame size; an incomplete last frame is dropped. */
  function Cut(order: ByteOrder, stream: seq<byte>, size: nat): (frames: seq<seq<Rgba16>>)
    requires size > 0
    ensures OfSize(frames, size)
    decreases |stream|
  {
    if |stream| < PIXEL_BYTES * size then []
    else [ParseFrame(order, stream[..PIXEL_BYTES * size])] + Cut(order, stream[PIXEL_BYTES * size..], size)
  }

  /** The number of whole frames in n bytes, counted frame by frame. */
  function WholeFrames(n: nat, size: nat): nat
    requires size > 0
    decreases n
  {
    if n < PIXEL_BYTES * size then 0 else WholeFrames(n - PIXEL_BYTES * size, size) + 1
  }

  lemma {:induction false} WholeFramesIsQuotient(n: nat, size: nat)
    requires size > 0
    ensures WholeFrames(n, size) == n / (PIXEL_BYTES * size)
    decreases n
  {
    if n >= PIXEL_BYTES * size {
      WholeFramesIsQuotient(n - PIXEL_BYTES * size, size);
      OneFrameLess(n, PIXEL_BYTES * size);
    }
  }

  lemma TakeConcat(a: seq<byte>, b: seq<byte>, n: nat)
    requires |a| <= n <= |a| + |b|
    ensures (a + b)[..n][..|a|] == a && (a + b)[..n][|a|..] == b[..n - |a|]
  {}

  /** Wherever the stream ends, the renderer gets a prefix of the frames sent, in order and unchanged,
      and never a partial frame. */
  lemma {:induction false} CutIsPrefix(order: ByteOrder, frames: seq<seq<Rgba16>>, size: nat, n: nat)
    requires size > 0 && OfSize(frames, size) && n <= |SerializeAll(order, frames)|
    ensures WholeFrames(n, size) <= |frames|
    ensures Cut(order, SerializeAll(order, frames)[..n], size) == frames[..WholeFrames(n, size)]
    decreases |frames|
  {
    hide ParseFrame, SerializeFrame;
    if n >= PIXEL_BYTES * size {
      var first, rest := SerializeFrame(order, frames[0]), SerializeAll(order, frames[1..]);
      assert |frames[0]| == size;
      assert SerializeAll(order, frames) == first + rest;
      hide SerializeAll, Cut;
      FrameRoundTrip(order, frames[0]);
      CutConcat(order, first, rest, n, size);
      CutIsPrefix(order, frames[1..], size, n - |first|);
      var m := WholeFrames(n - |first|, size);
      assert frames[..m + 1] == [frames[0]] + frames[1..][..m];
    }
  }

  lemma CutConcat(order: ByteOrder, first: seq<byte>, rest: seq<byte>, n: nat, size: nat)
    requires size > 0 && |first| == PIXEL_BYTES * size <= n <= |first| + |rest|
    ensures Cut(order, (first + rest)[..n], size) == [ParseFrame(order, first)] + Cut(order, rest[..n - |first|], size)
  {
    TakeConcat(first, rest, n);
    hide ParseFrame;
  }

  lemma OneFrameLess(n: nat, d: nat)
    requires 0 < d <= n
    ensures n / d == (n - d) / d + 1
  {
    ModUnique(n, d, (n - d) / d + 1, (n - d) % d);
  }

  /** Frames with the clock readings made while each was collected. */
  function Stamped(frames: seq<seq<Rgba16>>, size: nat, clock: (int, int) -> int): (deltas: seq<Collector.Delta>)
    requires OfSize(frames, size)
    ensures |deltas| == |frames| && Collector.Fits(deltas, size)
  {
    seq(|frames|, k requires 0 <= k < |frames| => Collector.Delta(frames[k], seq(size, i => clock(k, i))))
  }

  lemma StampedAppend(frames: seq<seq<Rgba16>>, frame: seq<Rgba16>, size: nat, clock: (int, int) -> int)
    requires OfSize(frames, size) && |frame| == size
    ensures OfSize(frames + [frame], size)
    ensures Stamped(frames + [frame], size, clock) ==
            Stamped(frames, size, clock) + [Collector.Delta(frame, seq(size, i => clock(|frames|, i)))]
  {}

  /** One more delivered frame is one more collected delta. */
  lemma CollectOneMore(image: seq<Collector.FadedPixel>, frames: seq<seq<Rgba16>>, frame: seq<Rgba16>,
                       clock: (int, int) -> int)
    requires OfSize(frames, |image|) && |frame| == |image|
    ensures OfSize(frames + [frame], |image|)
    ensures Collector.CollectAll(image, Stamped(frames + [frame], |image|, clock)) ==
            Collector.Collect(Collector.CollectAll(image, Stamped(frames, |image|, clock)), frame,
                              seq(|image|, i => clock(|frames|, i)))
  {
    hide Collector.Collect;
    StampedAppend(frames, frame, |image|, clock);
    hide Stamped;
    var deltas := Stamped(frames + [frame], |image|, clock);
    assert deltas[..|deltas| - 1] == Stamped(frames, |image|, clock);
  }

  /** One frame read completely into the image buffer and collected. */
  method CollectFrame(collector: Collector.Collector, img: Image<Rgba16>, order: ByteOrder, bytes: seq<byte>,
                      stamps: seq<int>)
    requires collector.Valid() && img.Valid() && img.width == collector.width && img.height == collector.height
    requires |bytes| == PIXEL_BYTES * img.data.Length && |stamps| == img.data.Length
    modifies collector.image, img.data
    ensures collector.image[..] == Collector.Collect(old(collector.image[..]), ParseFrame(order, bytes), stamps)
  {
    hide ParseFrame, Collector.Collect;
    var pixels := ParseFrame(order, bytes);
    forall i | 0 <= i < img.data.Length {
      img.data[i] := pixels[i];
    }
    assert img.data[..] == pixels;
    assert collector.image[..] == old(collector.image[..]);
    collector.HandleNewDeltaImage(img, stamps);
    assert img.data[..] == pixels;
  }

  lemma CutOnce(order: ByteOrder, stream: seq<byte>, position: nat, size: nat)
    requires size > 0 && position <= |stream|
    ensures var next := position + PIXEL_BYTES * size;
            Cut(order, stream[position..], size) ==
            if next > |stream| then []
            else [ParseFrame(order, stream[position..next])] + Cut(order, stream[next..], size)
  {
    var next := position + PIXEL_BYTES * size;
    if next <= |stream| {
      assert stream[position..][..PIXEL_BYTES * size] == stream[position..next];
      assert stream[position..][PIXEL_BYTES * size..] == stream[next..];
    }
  }

  /** connection::run: read whole frames until the stream ends and feed each to the collector. The
      collector ends up as if it had been given exactly the frames cut from the stream. */
  method Run(collector: Collector.Collector, order: ByteOrder, stream: seq<byte>, clock: (int, int) -> int)
    requires collector.Valid() && collector.image.Length > 0
    modifies collector.image
    ensures collector.image[..] ==
            Collector.CollectAll(old(collector.image[..]),
                                 Stamped(Cut(order, stream, collector.image.Length), collector.image.Length, clock))
  {
    hide Collector.Collect, Collector.CollectAll, ParseFrame, Cut, Stamped;
    var img := new Image(collector.width, collector.height, EMPTY);
    var size := collector.image.Length;
    var position, count := 0, 0;
    ghost var delivered: seq<seq<Rgba16>> := [];
    assert stream[0..] == stream;
    StartCollecting(collector.image[..], clock);
    while true
      invariant 0 <= position <= |stream| && OfSize(delivered, size) && count == |delivered| && img.Valid()
                && fresh(img.data)
      invariant img.width == collector.width && img.height == collector.height
      invariant delivered + Cut(order, stream[position..], size) == Cut(order, stream, size)
      invariant collector.image[..] == Collector.CollectAll(old(collector.image[..]), Stamped(delivered, size, clock))
      decreases |stream| - position
    {
      CutOnce(order, stream, position, size);
      var received := if |stream| - position < PIXEL_BYTES * size then |stream| - position else PIXEL_BYTES * size;
      if received != PIXEL_BYTES * size {
        assert delivered + [] == delivered;
        return;
      }
      var bytes := stream[position..position + received];
      CollectOneMore(old(collector.image[..]), delivered, ParseFrame(order, bytes), clock);
      CollectFrame(collector, img, order, bytes, seq(size, i => clock(count, i)));
      delivered := delivered + [ParseFrame(order, bytes)];
      position, count := position + received, count + 1;
    }
  }

  lemma StartCollecting(image: seq<Collector.FadedPixel>, clock: (int, int) -> int)
    ensures Collector.CollectAll(image, Stamped([], |image|, clock)) == image
  {}
}
