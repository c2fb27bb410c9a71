/** Turning the colour samples of one pixel into three bytes, as both `render`
    functions of `src/render/mod.rs` do: average, gamma-correct with gamma 2,
    scale to 255 and convert with `as u8`. */
module Pixels {
  import opened Math

  newtype byte = x: int | 0 <= x < 256

  datatype Pixel = Pixel(r: byte, g: byte, b: byte)

  /** The colour of an untouched buffer entry. */
  const Black: Pixel := Pixel(0, 0, 0)

  /** `x as u8` on a finite float: truncation towards zero, saturating at 0 and 255. */
  function ToByte(x: real): (b: byte)
    ensures 0.0 <= x < 256.0 ==> b as real <= x < b as real + 1.0
    ensures x <= 0.0 ==> b == 0
    ensures 255.0 <= x ==> b == 255
  {
    if x < 1.0 then 0 else if x >= 255.0 then 255 else x.Floor as byte
  }

  /** A brighter channel never gives a smaller byte. */
  lemma ToByteMonotone(x: real, y: real)
    requires x <= y
    ensures ToByte(x) <= ToByte(y)
  {
  }

  /** The running sum `color += sample`, in sampling order. */
  function Sum(cs: seq<Color>): Color
    decreases |cs|
  {
    if |cs| == 0 then Origin else Add(Sum(cs[..|cs| - 1]), cs[|cs| - 1])
  }

  /** `color /= samples`. */
  function Average(cs: seq<Color>): Color
    requires |cs| > 0
  {
    Div(Sum(cs), |cs| as real)
  }

  /** Each channel of a sum of unit-range colours lies between 0 and their number. */
  lemma {:induction false} SumBounds(cs: seq<Color>)
    requires forall i :: 0 <= i < |cs| ==> InUnitCube(cs[i])
    ensures 0.0 <= Sum(cs).x <= |cs| as real
    ensures 0.0 <= Sum(cs).y <= |cs| as real
    ensures 0.0 <= Sum(cs).z <= |cs| as real
    decreases |cs|
  {
    if |cs| > 0 {
      SumBounds(cs[..|cs| - 1]);
    }
  }

  lemma DivideUnit(s: real, n: real)
    requires 0.0 < n && 0.0 <= s <= n
    ensures 0.0 <= s / n <= 1.0
  {
    assert s / n * n == s;
  }

  /** The average of unit-range samples is a unit-range colour. */
  lemma AverageInUnitCube(cs: seq<Color>)
    requires |cs| > 0
    requires forall i :: 0 <= i < |cs| ==> InUnitCube(cs[i])
    ensures InUnitCube(Average(cs))
  {
    SumBounds(cs);
    var n := |cs| as real;
    DivideUnit(Sum(cs).x, n);
    DivideUnit(Sum(cs).y, n);
    DivideUnit(Sum(cs).z, n);
  }

  /** `n` equal samples sum to `n` times the sample. */
  lemma {:induction false} SumOfConstant(cs: seq<Color>, c: Color)
    requires forall i :: 0 <= i < |cs| ==> cs[i] == c
    ensures Sum(cs) == Scale(|cs| as real, c)
    decreases |cs|
  {
    if |cs| > 0 {
      SumOfConstant(cs[..|cs| - 1], c);
      var n := (|cs| - 1) as real;
      assert n * c.x + c.x == (n + 1.0) * c.x;
      assert n * c.y + c.y == (n + 1.0) * c.y;
      assert n * c.z + c.z == (n + 1.0) * c.z;
    }
  }

  /** Averaging equal samples gives the sample back. */
  lemma AverageOfConstant(cs: seq<Color>, c: Color)
    requires |cs| > 0
    requires forall i :: 0 <= i < |cs| ==> cs[i] == c
    ensures Average(cs) == c
  {
    SumOfConstant(cs, c);
    var n := |cs| as real;
    assert n * c.x / n == c.x;
    assert n * c.y / n == c.y;
    assert n * c.z / n == c.z;
  }

  /** The bytes of one pixel from its samples. With no samples the source divides
      zero by zero, and the resulting NaN converts to 0. */
  function PixelColor(samples: seq<Color>, num: Numerics): (p: Pixel)
    ensures |samples| == 0 ==> p == Black
  {
    if |samples| == 0 then Black
    else
      var c := Scale(255.0, GammaCorrect(Average(samples), 2.0, num));
      Pixel(ToByte(c.x), ToByte(c.y), ToByte(c.z))
  }

  /** A pixel whose samples all agree shows that one colour, gamma-corrected. */
  lemma PixelColorOfUniform(samples: seq<Color>, c: Color, num: Numerics)
    requires |samples| > 0
    requires forall i :: 0 <= i < |samples| ==> samples[i] == c
    ensures PixelColor(samples, num)
              == Pixel(ToByte(255.0 * num.pow(c.x, 0.5)), ToByte(255.0 * num.pow(c.y, 0.5)), ToByte(255.0 * num.pow(c.z, 0.5)))
  {
    AverageOfConstant(samples, c);
  }

  /** With a `powf` that fixes 0 and 1, black samples give a black pixel and white
      samples a white one. */
  lemma PixelColorExtremes(samples: seq<Color>, num: Numerics)
    requires |samples| > 0
    requires num.pow(0.0, 0.5) == 0.0 && num.pow(1.0, 0.5) == 1.0
    ensures (forall i :: 0 <= i < |samples| ==> samples[i] == Origin) ==> PixelColor(samples, num) == Black
    ensures (forall i :: 0 <= i < |samples| ==> samples[i] == Vec3(1.0, 1.0, 1.0)) ==>
              PixelColor(samples, num) == Pixel(255, 255, 255)
  {
    if forall i :: 0 <= i < |samples| ==> samples[i] == Origin {
      PixelColorOfUniform(samples, Origin, num);
    }
    if forall i :: 0 <= i < |samples| ==> samples[i] == Vec3(1.0, 1.0, 1.0) {
      PixelColorOfUniform(samples, Vec3(1.0, 1.0, 1.0), num);
    }
  }
}
