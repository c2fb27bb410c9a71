/** The RGB byte buffer every renderer fills: `width * height` pixels, row-major,
    three bytes each, and the two orders in which `src/render/mod.rs` fills it
    (row by row in `render`, by column slices in `render_multi`). */
module Framebuffer {
  import opened Pixels

  /** Where pixel `(i, j)` (row `i`, column `j`) starts: `(i * width + j) * 3`. */
  function PixelIndex(i: nat, j: nat, width: nat): nat {
    (i * width + j) * 3
  }

  lemma MulMonotone(a: nat, b: nat, w: nat)
    requires a <= b
    ensures a * w <= b * w
  {
  }

  /** Each pixel of the image fits in the buffer of `width * height * 3` bytes. */
  lemma PixelIndexInBounds(i: nat, j: nat, width: nat, height: nat)
    requires i < height && j < width
    ensures PixelIndex(i, j, width) + 2 < width * height * 3
  {
    MulMonotone(i + 1, height, width);
    assert (i + 1) * width == i * width + width;
    assert height * width == width * height;
  }

  /** Different pixels own disjoint triples of bytes. */
  lemma PixelIndexDistinct(i: nat, j: nat, i': nat, j': nat, width: nat)
    requires j < width && j' < width && (i != i' || j != j')
    ensures PixelIndex(i, j, width) + 3 <= PixelIndex(i', j', width) || PixelIndex(i', j', width) + 3 <= PixelIndex(i, j, width)
  {
    if i < i' {
      MulMonotone(i + 1, i', width);
      assert (i + 1) * width == i * width + width;
    } else if i' < i {
      MulMonotone(i' + 1, i, width);
      assert (i' + 1) * width == i' * width + width;
    }
  }

  /** The layout is row-major: the row and column come back out of the index. */
  lemma PixelIndexDecode(i: nat, j: nat, width: nat)
    requires j < width
    ensures PixelIndex(i, j, width) % 3 == 0
    ensures PixelIndex(i, j, width) / 3 / width == i
    ensures PixelIndex(i, j, width) / 3 % width == j
  {
    var k := i * width + j;
    assert PixelIndex(i, j, width) / 3 == k;
    var q, r := k / width, k % width;
    assert k == q * width + r;
    if q > i {
      MulMonotone(i + 1, q, width);
      assert false;
    } else if q < i {
      MulMonotone(q + 1, i, width);
      assert false;
    }
  }

  /** The pixel stored at `(i, j)`; black where the buffer is too short to hold it. */
  function PixelAt(data: seq<byte>, i: nat, j: nat, width: nat): Pixel {
    var k := PixelIndex(i, j, width);
    if k + 2 < |data| then Pixel(data[k], data[k + 1], data[k + 2]) else Black
  }

  /** The three byte stores `data[base_idx + c] = ...` of one pixel. */
  function WritePixel(data: seq<byte>, i: nat, j: nat, width: nat, p: Pixel): (r: seq<byte>)
    requires PixelIndex(i, j, width) + 2 < |data|
    ensures |r| == |data|
    ensures PixelAt(r, i, j, width) == p
  {
    var k := PixelIndex(i, j, width);
    data[k := p.r][k + 1 := p.g][k + 2 := p.b]
  }

  /** Writing one pixel leaves every other pixel as it was. */
  lemma WritePixelFrame(data: seq<byte>, i: nat, j: nat, width: nat, p: Pixel)
    requires j < width && PixelIndex(i, j, width) + 2 < |data|
    ensures forall i': nat, j': nat :: j' < width && (i' != i || j' != j) ==>
              PixelAt(WritePixel(data, i, j, width, p), i', j', width) == PixelAt(data, i', j', width)
  {
    forall i': nat, j': nat | j' < width && (i' != i || j' != j)
      ensures PixelAt(WritePixel(data, i, j, width, p), i', j', width) == PixelAt(data, i', j', width)
    {
      PixelIndexDistinct(i, j, i', j', width);
    }
  }

  /** The zeroed buffer `vec![0; width * height * 3]`. */
  function Blank(width: nat, height: nat): (data: seq<byte>)
    ensures |data| == width * height * 3
    ensures forall i: nat, j: nat :: PixelAt(data, i, j, width) == Black
  {
    seq(width * height * 3, _ => 0 as byte)
  }

  /** The loop of `render`: rows top to bottom, each left to right, every pixel
      set to `shade(i, j)`. */
  method FillRows(width: nat, height: nat, shade: (nat, nat) -> Pixel) returns (data: seq<byte>)
    ensures |data| == width * height * 3
    ensures forall i: nat, j: nat :: i < height && j < width ==> PixelAt(data, i, j, width) == shade(i, j)
  {
    data := Blank(width, height);
    for i := 0 to height
      invariant |data| == width * height * 3
      invariant forall i': nat, j': nat :: i' < i && j' < width ==> PixelAt(data, i', j', width) == shade(i', j')
    {
      for j := 0 to width
        invariant |data| == width * height * 3
        invariant forall i': nat, j': nat :: i' < i && j' < width ==> PixelAt(data, i', j', width) == shade(i', j')
        invariant forall j': nat :: j' < j ==> PixelAt(data, i, j', width) == shade(i, j')
      {
        PixelIndexInBounds(i, j, width, height);
        WritePixelFrame(data, i, j, width, shade(i, j));
        data := WritePixel(data, i, j, width, shade(i, j));
      }
    }
  }

  /** Column boundaries `0 = bounds[0] <= bounds[1] <= ... <= width`; worker `n`
      renders the columns `[bounds[n], bounds[n + 1])`. */
  predicate ValidBounds(bounds: seq<nat>, width: nat) {
    && |bounds| >= 1
    && bounds[0] == 0
    && (forall k, k' :: 0 <= k <= k' < |bounds| ==> bounds[k] <= bounds[k'])
    && bounds[|bounds| - 1] <= width
  }

  /** The workers of `render_multi`, run one after the other: they write disjoint
      pixels, so any interleaving leaves the same buffer. Every column the slices
      cover is shaded; the rest stay black. */
  method FillColumnSlices(width: nat, height: nat, bounds: seq<nat>, shade: (nat, nat) -> Pixel) returns (data: seq<byte>)
    requires ValidBounds(bounds, width)
    ensures |data| == width * height * 3
    ensures forall i: nat, j: nat :: i < height && j < width ==>
              PixelAt(data, i, j, width) == if j < bounds[|bounds| - 1] then shade(i, j) else Black
  {
    data := Blank(width, height);
    for n := 0 to |bounds| - 1
      invariant |data| == width * height * 3
      invariant forall i': nat, j': nat :: i' < height && j' < width ==>
                  PixelAt(data, i', j', width) == if j' < bounds[n] then shade(i', j') else Black
    {
      for j := bounds[n] to bounds[n + 1]
        invariant |data| == width * height * 3
        invariant forall i': nat, j': nat :: i' < height && j' < width ==>
                    PixelAt(data, i', j', width) == if j' < j then shade(i', j') else Black
      {
        for i := 0 to height
          invariant |data| == width * height * 3
          invariant forall i': nat, j': nat :: i' < height && j' < width ==>
                      PixelAt(data, i', j', width) == if j' < j || (j' == j && i' < i) then shade(i', j') else Black
        {
          PixelIndexInBounds(i, j, width, height);
          WritePixelFrame(data, i, j, width, shade(i, j));
          data := WritePixel(data, i, j, width, shade(i, j));
        }
      }
    }
  }

  /** Slices from different workers share no column. */
  lemma SlicesDisjoint(bounds: seq<nat>, width: nat, n: nat, n': nat, j: nat)
    requires ValidBounds(bounds, width)
    requires n < n' < |bounds| - 1
    ensures !(bounds[n] <= j < bounds[n + 1] && bounds[n'] <= j < bounds[n' + 1])
  {
  }

  /** The slices together cover exactly the columns below the last boundary. */
  lemma SlicesCover(bounds: seq<nat>, width: nat, j: nat)
    requires ValidBounds(bounds, width)
    ensures j < bounds[|bounds| - 1] <==> exists n :: 0 <= n < |bounds| - 1 && bounds[n] <= j < bounds[n + 1]
  {
    if j < bounds[|bounds| - 1] {
      var n := 0;
      while bounds[n + 1] <= j
        invariant 0 <= n < |bounds| - 1 && bounds[n] <= j
        decreases |bounds| - n
      {
        n := n + 1;
      }
    }
  }
}
