/** The DigitCanvas component's buffer operations: the grayscale/normalise loop
    over the 28x28 buffer read back from the downsampled drawing, the preview
    rebuilt from the resulting vector, and the clear button. The drawing and
    preview canvases are arrays of RGBA bytes that these methods update in place. */
module CanvasComponent {
  import opened Pixels

  /** Walks an RGBA buffer four bytes at a time and appends, for each pixel,
      the mean of R, G and B divided by 255. */
  method Grayscale(data: array<Byte>) returns (pixels: seq<real>)
    requires data.Length % 4 == 0
    ensures |pixels| == data.Length / 4
    ensures forall k :: 0 <= k < |pixels| ==>
      pixels[k] == Normalize(data[4 * k], data[4 * k + 1], data[4 * k + 2])
    ensures pixels == Decode(data[..])
  {
    pixels := [];
    var i := 0;
    while i < data.Length
      invariant 0 <= i <= data.Length && i % 4 == 0
      invariant pixels == Decode(data[..i])
    {
      var r, g, b := data[i], data[i + 1], data[i + 2];
      var gray := Gray(r, g, b);
      assert data[..i + 4][..i] == data[..i];
      pixels := pixels + [gray / 255.0];
      i := i + 4;
    }
    assert data[..i] == data[..];
    forall k | 0 <= k < |pixels|
      ensures pixels[k] == Normalize(data[4 * k], data[4 * k + 1], data[4 * k + 2])
    {
      DecodeAt(data[..], k);
    }
  }

  /** An assignment into a Uint8ClampedArray: an index outside the buffer is
      ignored and the value is clamped to [0,255]. */
  method Store(buf: array<Byte>, index: int, value: int)
    modifies buf
    ensures forall j :: 0 <= j < buf.Length ==>
      buf[j] == if j == index then ClampByte(value) else old(buf[j])
  {
    if 0 <= index < buf.Length {
      buf[index] := ClampByte(value);
    }
  }

  /** fillRect with opaque black over a whole RGBA buffer. */
  method FillBlack(a: array<Byte>)
    requires a.Length % 4 == 0
    modifies a
    ensures a[..] == OpaqueBlack(a.Length / 4)
  {
    forall j | 0 <= j < a.Length {
      a[j] := if IsColour(j) then 0 else Opaque;
    }
  }

  /** The component with its two canvases: the 280x280 drawing raster and the
      28x28 preview, both RGBA bytes in row-major order. */
  class DigitCanvas {
    var canvas: array<Byte>
    var preview: array<Byte>

    ghost predicate Valid()
      reads this
    {
      canvas.Length == CanvasBytes && preview.Length == PreviewBytes
    }

    /** Mounting: both canvases start transparent, then the drawing canvas is
        filled black; the preview stays transparent until first drawn. */
    constructor ()
      ensures Valid() && fresh(canvas) && fresh(preview)
      ensures canvas[..] == OpaqueBlack(CanvasCells)
      ensures forall j :: 0 <= j < preview.Length ==> preview[j] == 0
    {
      canvas := new Byte[CanvasBytes](_ => 0);
      preview := new Byte[PreviewBytes](_ => 0);
      new;
      FillBlack(canvas);
    }

    /** The clear button: both canvases become opaque black. */
    method Clear()
      requires Valid()
      modifies canvas, preview
      ensures Valid()
      ensures canvas[..] == OpaqueBlack(CanvasCells)
      ensures preview[..] == OpaqueBlack(PreviewCells)
    {
      FillBlack(canvas);
      FillBlack(preview);
    }

    /** Fills the preview black, builds a fresh 28x28 ImageData holding the
        vector as opaque grays and puts it over the whole preview. */
    method DrawPreview(pixels: seq<real>)
      requires Valid()
      modifies preview
      ensures Valid() && unchanged(canvas)
      ensures preview[..] == PreviewImage(pixels)
    {
      FillBlack(preview);
      var img := new Byte[PreviewBytes](_ => 0);
      var i := 0;
      while i < |pixels|
        invariant 0 <= i <= |pixels|
        invariant forall j :: 0 <= j < img.Length ==> img[j] == PreviewByte(pixels[..i], j)
      {
        var gray := Round(pixels[i] * 255.0);
        var index := i * 4;
        Store(img, index, gray);
        Store(img, index + 1, gray);
        Store(img, index + 2, gray);
        Store(img, index + 3, 255);
        i := i + 1;
      }
      assert pixels[..i] == pixels;
      forall j | 0 <= j < preview.Length {
        preview[j] := img[j];
      }
    }

    /** The submit button, from the 28x28 buffer read back from the
        downsampled drawing: decodes it, redraws the preview from the vector
        and returns the vector that is handed to the submit callback. */
    method ConvertTo28x28(resized: array<Byte>) returns (pixels: seq<real>)
      requires Valid() && resized.Length == PreviewBytes && resized != preview
      modifies preview
      ensures Valid() && unchanged(canvas) && unchanged(resized)
      ensures pixels == Decode(resized[..])
      ensures |pixels| == PreviewCells
      ensures forall k :: 0 <= k < PreviewCells ==> 0.0 <= pixels[k] <= 1.0
      ensures preview[..] == PreviewImage(pixels)
    {
      pixels := Grayscale(resized);
      DecodePreviewSize(resized[..]);
      DrawPreview(pixels);
    }
  }
}
