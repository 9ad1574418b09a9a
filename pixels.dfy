/** The values and specifications of the digit canvas's pixel pipeline:
    RGBA byte buffers, the grayscale/normalise decoding of a 28x28 buffer into
    a vector of intensities in [0,1], and the preview image rebuilt from such a
    vector. The imperative code that produces them is in CanvasComponent. */
module Pixels {

  /** One channel of an RGBA buffer (the browser's Uint8ClampedArray). */
  type Byte = x: int | 0 <= x < 256

  const Side: nat := 28
  const PreviewCells: nat := Side * Side
  const PreviewBytes: nat := 4 * PreviewCells
  const CanvasSide: nat := 280
  const CanvasCells: nat := CanvasSide * CanvasSide
  const CanvasBytes: nat := 4 * CanvasCells
  const Opaque: Byte := 255

  /** True when byte j of an RGBA buffer is a colour channel (not alpha). */
  predicate IsColour(j: int) { j % 4 != 3 }

  /** Bytes 4k, 4k+1 and 4k+2 of a buffer are the colour channels of cell k,
      byte 4k+3 its alpha. */
  lemma ColourBytesOfCell(k: int)
    ensures IsColour(4 * k) && IsColour(4 * k + 1) && IsColour(4 * k + 2) && !IsColour(4 * k + 3)
    ensures (4 * k) / 4 == k && (4 * k + 1) / 4 == k && (4 * k + 2) / 4 == k && (4 * k + 3) / 4 == k
  {
  }

  /** Byte j of a buffer belongs to cell j / 4. */
  lemma CellOfByte(j: int)
    requires 0 <= j
    ensures var k := j / 4;
      j == 4 * k || j == 4 * k + 1 || j == 4 * k + 2 || j == 4 * k + 3
    ensures IsColour(j) <==> j != 4 * (j / 4) + 3
  {
  }

  // ---------------------------------------------------------------------------
  // Decoding: RGBA buffer -> normalised grayscale vector

  /** Unweighted mean of the three colour channels. */
  function Gray(r: Byte, g: Byte, b: Byte): (m: real)
    ensures 0.0 <= m <= 255.0
    ensures m == 0.0 <==> r == 0 && g == 0 && b == 0
    ensures r == g == b ==> m == r as real
  {
    (r as int + g + b) as real / 3.0
  }

  /** The grayscale mean scaled to [0,1]. */
  function Normalize(r: Byte, g: Byte, b: Byte): (v: real)
    ensures 0.0 <= v <= 1.0
    ensures v * 765.0 == (r as int + g + b) as real
  {
    Gray(r, g, b) / 255.0
  }

  /** The vector decoded from an RGBA buffer: one value per 4-byte group,
      appended in buffer order. */
  function Decode(data: seq<Byte>): (pixels: seq<real>)
    requires |data| % 4 == 0
    ensures 4 * |pixels| == |data|
    decreases |data|
  {
    if |data| == 0 then []
    else
      var n := |data| - 4;
      Decode(data[..n]) + [Normalize(data[n], data[n + 1], data[n + 2])]
  }

  /** Value k of the decoded vector is the normalised mean of the colour
      channels of pixel k, and of nothing else. */
  lemma {:induction false} DecodeAt(data: seq<Byte>, k: int)
    requires |data| % 4 == 0 && 0 <= k < |data| / 4
    ensures Decode(data)[k] == Normalize(data[4 * k], data[4 * k + 1], data[4 * k + 2])
    decreases |data|
  {
    var n := |data| - 4;
    if k < n / 4 {
      DecodeAt(data[..n], k);
    }
  }

  /** Every decoded value lies in [0,1]. */
  lemma DecodeInUnitRange(data: seq<Byte>)
    requires |data| % 4 == 0
    ensures forall k :: 0 <= k < |Decode(data)| ==> 0.0 <= Decode(data)[k] <= 1.0
  {
    forall k | 0 <= k < |Decode(data)|
      ensures 0.0 <= Decode(data)[k] <= 1.0
    {
      DecodeAt(data, k);
    }
  }

  /** A 28x28 buffer decodes to exactly 784 values, each in [0,1]. */
  lemma DecodePreviewSize(data: seq<Byte>)
    requires |data| == PreviewBytes
    ensures |Decode(data)| == PreviewCells
    ensures forall k :: 0 <= k < PreviewCells ==> 0.0 <= Decode(data)[k] <= 1.0
  {
    DecodeInUnitRange(data);
  }

  /** The alpha bytes are never read: buffers that agree on every colour
      channel decode to the same vector. */
  lemma DecodeIgnoresAlpha(a: seq<Byte>, b: seq<Byte>)
    requires |a| == |b| && |a| % 4 == 0
    requires forall j :: 0 <= j < |a| && IsColour(j) ==> a[j] == b[j]
    ensures Decode(a) == Decode(b)
  {
    var da, db := Decode(a), Decode(b);
    forall k | 0 <= k < |da|
      ensures da[k] == db[k]
    {
      DecodeAt(a, k);
      DecodeAt(b, k);
      ColourBytesOfCell(k);
    }
    assert da == db;
  }

  /** Order is preserved: decoding a buffer split at a pixel boundary yields
      the decoding of the first part followed by that of the second. */
  lemma {:induction false} DecodeAppend(a: seq<Byte>, b: seq<Byte>)
    requires |a| % 4 == 0 && |b| % 4 == 0
    ensures Decode(a + b) == Decode(a) + Decode(b)
    decreases |b|
  {
    if |b| == 0 {
      assert a + b == a;
    } else {
      var n := |b| - 4;
      var front := b[..n];
      var last := [Normalize(b[n], b[n + 1], b[n + 2])];
      assert Decode(b) == Decode(front) + last;
      SplitLast(a, b);
      assert Decode(a + b) == Decode(a + front) + last;
      DecodeAppend(a, front);
    }
  }

  /** Dropping the last pixel of a + b drops it from b. */
  lemma SplitLast(a: seq<Byte>, b: seq<Byte>)
    requires |b| >= 4
    ensures (a + b)[..|a| + |b| - 4] == a + b[..|b| - 4]
    ensures (a + b)[|a| + |b| - 4] == b[|b| - 4]
    ensures (a + b)[|a| + |b| - 3] == b[|b| - 3]
    ensures (a + b)[|a| + |b| - 2] == b[|b| - 2]
  {
  }

  /** The decoded vector is all zeros exactly when every colour channel of the
      buffer is zero (whatever the alpha bytes hold). */
  lemma DecodeBlack(data: seq<Byte>)
    requires |data| % 4 == 0
    ensures (forall k :: 0 <= k < |Decode(data)| ==> Decode(data)[k] == 0.0)
        <==> (forall j :: 0 <= j < |data| && IsColour(j) ==> data[j] == 0)
  {
    var pixels := Decode(data);
    if forall k :: 0 <= k < |pixels| ==> pixels[k] == 0.0 {
      forall j | 0 <= j < |data| && IsColour(j)
        ensures data[j] == 0
      {
        var k := j / 4;
        DecodeAt(data, k);
        assert pixels[k] == 0.0;
        CellOfByte(j);
      }
    }
    if forall j :: 0 <= j < |data| && IsColour(j) ==> data[j] == 0 {
      forall k | 0 <= k < |pixels|
        ensures pixels[k] == 0.0
      {
        DecodeAt(data, k);
        ColourBytesOfCell(k);
      }
    }
  }

  // ---------------------------------------------------------------------------
  // Encoding: normalised vector -> preview RGBA buffer

  /** Rounding to the nearest integer, halves upwards (JavaScript's Math.round). */
  function Round(x: real): (n: int)
    ensures x - 0.5 < n as real <= x + 0.5
  {
    (x + 0.5).Floor
  }

  /** The value a Uint8ClampedArray stores when assigned the integer n. */
  function ClampByte(n: int): (b: Byte)
    ensures 0 <= n <= 255 ==> b == n
    ensures n < 0 ==> b == 0
    ensures 255 < n ==> b == 255
  {
    if n < 0 then 0 else if n > 255 then 255 else n
  }

  /** The colour byte the preview stores for a normalised value v. */
  function Channel(v: real): (b: Byte)
    ensures 0.0 <= v <= 1.0 ==> b == Round(v * 255.0)
    ensures 0.0 <= v <= 1.0 ==> v * 255.0 - 0.5 < b as real <= v * 255.0 + 0.5
  {
    ClampByte(Round(v * 255.0))
  }

  /** Byte j of the preview rebuilt from pixels: cells covered by the vector
      are gray and opaque, the rest keep the zeros of a fresh ImageData. */
  function PreviewByte(pixels: seq<real>, j: int): (b: Byte)
    ensures !(0 <= j / 4 < |pixels|) ==> b == 0
    ensures 0 <= j / 4 < |pixels| && !IsColour(j) ==> b == Opaque
    ensures 0 <= j / 4 < |pixels| && IsColour(j) && 0.0 <= pixels[j / 4] <= 1.0 ==>
      b == Round(pixels[j / 4] * 255.0)
  {
    var c := j / 4;
    if 0 <= c < |pixels| then
      if IsColour(j) then Channel(pixels[c]) else Opaque
    else 0
  }

  /** The whole 28x28 preview buffer rebuilt from pixels. */
  function PreviewImage(pixels: seq<real>): (img: seq<Byte>)
    ensures |img| == PreviewBytes
    ensures forall j :: 0 <= j < PreviewBytes && |pixels| <= j / 4 ==> img[j] == 0
  {
    seq(PreviewBytes, j => PreviewByte(pixels, j))
  }

  /** An RGBA buffer of n cells, every one opaque black. */
  function OpaqueBlack(n: nat): (img: seq<Byte>)
    ensures |img| == 4 * n
    ensures forall c :: 0 <= c < n ==>
      img[4 * c] == 0 && img[4 * c + 1] == 0 && img[4 * c + 2] == 0 && img[4 * c + 3] == Opaque
  {
    seq(4 * n, j => if IsColour(j) then 0 else Opaque)
  }

  /** Each preview cell covered by the vector holds R = G = B = the rounded
      value times 255 and alpha 255; a value in [0,1] is never clamped. */
  lemma PreviewCell(pixels: seq<real>, c: int)
    requires 0 <= c < PreviewCells && c < |pixels|
    requires 0.0 <= pixels[c] <= 1.0
    ensures var img := PreviewImage(pixels);
      var gray := Round(pixels[c] * 255.0);
      0 <= gray <= 255 &&
      img[4 * c] == gray && img[4 * c + 1] == gray && img[4 * c + 2] == gray &&
      img[4 * c + 3] == Opaque
  {
    var img := PreviewImage(pixels);
    ColourBytesOfCell(c);
  }

  /** A vector of at least 784 values leaves every preview cell opaque: no
      cell of any earlier preview survives. */
  lemma PreviewAllOpaque(pixels: seq<real>)
    requires |pixels| >= PreviewCells
    ensures forall c :: 0 <= c < PreviewCells ==> PreviewImage(pixels)[4 * c + 3] == Opaque
  {
    forall c | 0 <= c < PreviewCells
      ensures PreviewImage(pixels)[4 * c + 3] == Opaque
    {
      ColourBytesOfCell(c);
    }
  }

  // ---------------------------------------------------------------------------
  // Round trips

  /** The mean of three bytes, rounded, is (sum + 1) / 3, and the rounded value
      is within one third of the mean: Math.round never meets a tie here. */
  lemma RoundThird(s: int)
    requires 0 <= s <= 765
    ensures Round(s as real / 3.0) == (s + 1) / 3
    ensures -1 <= 3 * ((s + 1) / 3) - s <= 1
  {
    var q := (s + 1) / 3;
    var t := (s + 1) % 3;
    assert s == 3 * q + t - 1;
    assert s as real / 3.0 + 0.5 == q as real + (2 * t + 1) as real / 6.0;
    assert q as real <= s as real / 3.0 + 0.5 < q as real + 1.0;
  }

  /** The preview channel of one decoded cell is its channel mean rounded to
      the nearest integer, which is strictly less than 1/2 away from the mean. */
  lemma ChannelOfNormalized(r: Byte, g: Byte, b: Byte)
    ensures var s := r as int + g + b;
      Round(Normalize(r, g, b) * 255.0) == (s + 1) / 3 &&
      -0.5 < ((s + 1) / 3) as real - Gray(r, g, b) < 0.5
  {
    var s := r as int + g + b;
    assert Normalize(r, g, b) * 255.0 == s as real / 3.0;
    RoundThird(s);
  }

  /** Decoding a 28x28 buffer and rebuilding the preview gives, for each cell k,
      an opaque gray whose R = G = B channel is the source cell's channel mean
      rounded to the nearest integer, strictly less than 1/2 away from it. */
  lemma RoundTripCell(data: seq<Byte>, k: int)
    requires |data| == PreviewBytes && 0 <= k < PreviewCells
    ensures var img := PreviewImage(Decode(data));
      var s := data[4 * k] as int + data[4 * k + 1] + data[4 * k + 2];
      img[4 * k] == (s + 1) / 3 &&
      img[4 * k + 1] == img[4 * k] && img[4 * k + 2] == img[4 * k] &&
      img[4 * k + 3] == Opaque &&
      -0.5 < img[4 * k] as real - Gray(data[4 * k], data[4 * k + 1], data[4 * k + 2]) < 0.5
  {
    var r, g, b := data[4 * k], data[4 * k + 1], data[4 * k + 2];
    var pixels := Decode(data);
    assert pixels[k] == Normalize(r, g, b) by { DecodeAt(data, k); }
    PreviewCell(pixels, k);
    ChannelOfNormalized(r, g, b);
  }

  /** A buffer whose cells are all gray (R = G = B) is rebuilt exactly by the
      preview: its colour channels come back unchanged and alpha becomes 255. */
  lemma RoundTripGrayscale(data: seq<Byte>)
    requires |data| == PreviewBytes
    requires forall k :: 0 <= k < PreviewCells ==> data[4 * k] == data[4 * k + 1] == data[4 * k + 2]
    ensures forall j :: 0 <= j < PreviewBytes ==>
      PreviewImage(Decode(data))[j] == if IsColour(j) then data[j] else Opaque
  {
    forall j | 0 <= j < PreviewBytes
      ensures PreviewImage(Decode(data))[j] == if IsColour(j) then data[j] else Opaque
    {
      var k := j / 4;
      GrayscaleCell(data, k);
      CellOfByte(j);
    }
  }

  /** A gray source cell (R = G = B = c) comes back from decode-then-preview
      as R = G = B = c with alpha 255. */
  lemma GrayscaleCell(data: seq<Byte>, k: int)
    requires |data| == PreviewBytes && 0 <= k < PreviewCells
    requires data[4 * k] == data[4 * k + 1] == data[4 * k + 2]
    ensures var img := PreviewImage(Decode(data));
      img[4 * k] == data[4 * k] && img[4 * k + 1] == data[4 * k + 1] &&
      img[4 * k + 2] == data[4 * k + 2] && img[4 * k + 3] == Opaque
  {
    var c := data[4 * k] as int;
    RoundTripCell(data, k);
    assert (3 * c + 1) / 3 == c;
  }

  /** The vector whose value k is levels[k] / 255: the values a preview can
      show exactly. */
  function Levels(levels: seq<Byte>): (pixels: seq<real>)
    ensures |pixels| == |levels|
    ensures forall k :: 0 <= k < |levels| ==> 0.0 <= pixels[k] <= 1.0
  {
    seq(|levels|, k requires 0 <= k < |levels| => levels[k] as real / 255.0)
  }

  /** The level n / 255 is stored as channel n, and a gray cell of channel n
      decodes back to n / 255. */
  lemma LevelChannel(n: Byte)
    ensures Round(n as real / 255.0 * 255.0) == n
    ensures Normalize(n, n, n) == n as real / 255.0
  {
    assert n as real / 255.0 * 255.0 == n as real;
  }

  /** A cell whose colour channels all hold n decodes to n / 255. */
  lemma DecodeGrayCell(img: seq<Byte>, k: int, n: Byte)
    requires |img| % 4 == 0 && 0 <= k < |img| / 4
    requires img[4 * k] == n && img[4 * k + 1] == n && img[4 * k + 2] == n
    ensures Decode(img)[k] == n as real / 255.0
  {
    DecodeAt(img, k);
    LevelChannel(n);
  }

  /** Cell k of a vector of levels survives rebuilding the preview (as channel
      levels[k]) and decoding it again. */
  lemma QuantizedCell(levels: seq<Byte>, k: int)
    requires |levels| == PreviewCells && 0 <= k < PreviewCells
    ensures PreviewImage(Levels(levels))[4 * k] == levels[k]
    ensures Decode(PreviewImage(Levels(levels)))[k] == Levels(levels)[k]
  {
    var pixels := Levels(levels);
    var img := PreviewImage(pixels);
    var n := levels[k];
    assert pixels[k] == n as real / 255.0;
    LevelChannel(n);
    PreviewCell(pixels, k);
    DecodeGrayCell(img, k, n);
  }

  /** A vector of 784 multiples of 1/255 survives rebuilding the preview and
      decoding it again, and the preview shows exactly those levels. */
  lemma RoundTripQuantized(levels: seq<Byte>)
    requires |levels| == PreviewCells
    ensures Decode(PreviewImage(Levels(levels))) == Levels(levels)
    ensures forall k :: 0 <= k < PreviewCells ==> PreviewImage(Levels(levels))[4 * k] == levels[k]
  {
    var pixels := Levels(levels);
    var img := PreviewImage(pixels);
    var back := Decode(img);
    forall k | 0 <= k < PreviewCells
      ensures back[k] == pixels[k] && img[4 * k] == levels[k]
    {
      QuantizedCell(levels, k);
    }
    assert |back| == |pixels|;
  }

  /** The all-black scenario: an opaque-black 28x28 buffer decodes to 784
      zeros, and those zeros rebuild an opaque-black preview, which is also
      what clearing leaves behind. */
  lemma AllBlackScenario()
    ensures Decode(OpaqueBlack(PreviewCells)) == seq(PreviewCells, _ => 0.0)
    ensures PreviewImage(seq(PreviewCells, _ => 0.0)) == OpaqueBlack(PreviewCells)
  {
    var black := OpaqueBlack(PreviewCells);
    DecodeBlack(black);
    var zeros := seq(PreviewCells, _ => 0.0);
    assert Decode(black) == zeros;
    forall j | 0 <= j < PreviewBytes
      ensures PreviewImage(zeros)[j] == black[j]
    {
      assert Round(0.0 * 255.0) == 0;
    }
  }
}
