/** Pixels and images (libsixelping/include/sixelping/pixel.h). */
module Pixels {
  import opened Words

  datatype Rgb = Rgb(r: byte, g: byte, b: byte)
  datatype Rgba = Rgba(r: byte, g: byte, b: byte, a: byte)
  /** The receiver's accumulator: colour sums and a ping count, 16 bits each. */
  datatype Rgba16 = Rgba16(r: word, g: word, b: word, a: word)

  const BLACK := Rgb(0, 0, 0)
  const EMPTY := Rgba16(0, 0, 0, 0)

  /** n steps of length d from zero: n * d, counted up one step at a time. */
  function Steps(d: nat, n: nat): nat {
    if n == 0 then 0 else Steps(d, n - 1) + d
  }

  lemma {:induction false} StepsIsProduct(d: nat, n: nat)
    ensures Steps(d, n) == n * d
  {
    if n > 0 {
      StepsIsProduct(d, n - 1);
    }
  }

  lemma {:induction false} StepsMonotone(d: nat, m: nat, n: nat)
    requires m <= n
    ensures Steps(d, m) <= Steps(d, n)
    ensures m < n ==> Steps(d, m) + d <= Steps(d, n)
  {
    if m < n {
      StepsMonotone(d, m, n - 1);
    }
  }

  /** Where pixel (x, y) lies in the row-major pixel vector: x + y * width. */
  function Index(width: nat, x: nat, y: nat): nat { x + Steps(width, y) }

  /** Every coordinate pair of an image has its index inside the pixel vector. */
  lemma IndexInRange(width: nat, height: nat, x: nat, y: nat)
    requires x < width && y < height
    ensures Index(width, x, y) == x + y * width < width * height
  {
    StepsIsProduct(width, y);
    StepsIsProduct(width, height);
    StepsMonotone(width, y, height);
  }

  /** Different pixels have different indices. */
  lemma IndexInjective(width: nat, x: nat, y: nat, x': nat, y': nat)
    requires x < width && x' < width
    requires Index(width, x, y) == Index(width, x', y')
    ensures x == x' && y == y'
  {
    if y < y' {
      StepsMonotone(width, y, y');
    } else {
      StepsMonotone(width, y', y);
    }
  }

  lemma RowStart(d: nat, v: nat)
    requires d > 0
    ensures Steps(d, v / d) + v % d == v && v % d < d
  {
    StepsIsProduct(d, v / d);
  }

  /** Every index of the pixel vector belongs to a pixel. */
  lemma IndexSurjective(width: nat, height: nat, i: nat)
    requires i < width * height
    ensures width > 0 && i % width < width && i / width < height
    ensures Index(width, i % width, i / width) == i
  {
    StepsIsProduct(width, height);
    RowStart(width, i);
    var row := i / width;
    if row >= height {
      StepsMonotone(width, height, row);
    }
  }

  class Image<T> {
    const width: nat
    const height: nat
    const data: array<T>

    /** The vector holds one pixel for each coordinate pair. */
    ghost predicate Valid() { data.Length == width * height }

    /** The constructor sizes the vector and zero-initialises its pixels. */
    constructor (width: nat, height: nat, zero: T)
      ensures Valid() && fresh(data)
      ensures this.width == width && this.height == height
      ensures forall i :: 0 <= i < data.Length ==> data[i] == zero
    {
      this.width := width;
      this.height := height;
      this.data := new T[width * height](_ => zero);
    }

    function GetPixel(x: nat, y: nat): T
      requires Valid() && x < width && y < height
      reads data
    {
      IndexInRange(width, height, x, y);
      data[Index(width, x, y)]
    }

    method SetPixel(x: nat, y: nat, pixel: T)
      requires Valid() && x < width && y < height
      modifies data
      ensures GetPixel(x, y) == pixel
      ensures forall i, j :: 0 <= i < width && 0 <= j < height && (i, j) != (x, y) ==>
              GetPixel(i, j) == old(GetPixel(i, j))
      ensures Index(width, x, y) < data.Length
      ensures data[..] == old(data[..])[Index(width, x, y) := pixel]
    {
      IndexInRange(width, height, x, y);
      data[Index(width, x, y)] := pixel;
      forall i: nat, j: nat | i < width && j < height && (i, j) != (x, y)
        ensures GetPixel(i, j) == old(GetPixel(i, j))
      {
        IndexInRange(width, height, i, j);
        if Index(width, i, j) == Index(width, x, y) {
          IndexInjective(width, i, j, x, y);
        }
      }
    }
  }
}
