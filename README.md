# Digit canvas pixel pipeline

A Dafny model of the pixel pipeline of the MNIST digit-drawing widget's
`DigitCanvas` React component. The user draws white strokes on a 280x280 black
canvas. On submit, the browser scales the drawing down to a 28x28 RGBA buffer.
The component turns that buffer into a 784-long vector of grayscale
intensities in [0,1]: for each pixel it takes the unweighted mean of R, G and B
and divides it by 255. It then redraws a 28x28 preview from that vector and
hands the vector to the submit callback. The clear button paints both
canvases opaque black.

- `pixels.dfy`, module `Pixels`, holds the values and their specifications.
  Channel bytes are the subset type `Byte` (0..255). Intensities are exact
  `real`s. `Decode` is the grayscale/normalise decoding of an RGBA buffer.
  `PreviewImage` is the preview buffer rebuilt from a vector. `OpaqueBlack` is
  a cleared buffer. `Round` is JavaScript's `Math.round`, i.e. `Floor(x + 1/2)`.
  `ClampByte` is a store into a `Uint8ClampedArray`. The module also holds the
  lemmas about these definitions: length, range, locality, order, alpha
  independence, the all-black scenario, and the round trips.
- `canvas_component.dfy`, module `CanvasComponent`, holds the component's
  imperative code. `Grayscale` is the stride-4 loop that appends one value per
  pixel. `DrawPreview` fills the preview black, writes a fresh ImageData in a
  loop and puts it over the preview. `Clear` fills both canvases.
  `ConvertTo28x28` chains the decoding and the preview. Each method is proved
  against the functions of `Pixels`.

The 28x28 buffer that `getImageData` returns after the browser's `drawImage`
downscale is an input of the model.

Math.round never meets a tie in this pipeline. The channel sum `s` is an
integer, so the rounded preview channel is `(s + 1) / 3`, and that is always
within 1/3 of the mean `s / 3`.

## Model

| member | source | states |
|---|---|---|
| `Pixels.Gray` | mnist-react-app/src/component/digit_canvas.js:76 | the unweighted channel mean lies in [0,255]; it is 0 exactly when R = G = B = 0; it equals the channel when all three channels are equal |
| `Pixels.Normalize` | mnist-react-app/src/component/digit_canvas.js:77 | the normalised value lies in [0,1] and equals (R+G+B)/765 |
| `Pixels.Decode` | mnist-react-app/src/component/digit_canvas.js:71-78 | decoding a buffer yields exactly one value per 4-byte group |
| `Pixels.DecodeAt` | mnist-react-app/src/component/digit_canvas.js:72-77 | value k is (data[4k] + data[4k+1] + data[4k+2]) / 3 / 255: it depends only on pixel k and never on its alpha byte |
| `Pixels.DecodeInUnitRange` | mnist-react-app/src/component/digit_canvas.js:76-77 | every decoded value lies in [0,1] inclusive |
| `Pixels.DecodePreviewSize` | mnist-react-app/src/component/digit_canvas.js:67-78 | a 3136-byte 28x28 buffer yields exactly 784 values, each in [0,1] |
| `Pixels.DecodeIgnoresAlpha` | mnist-react-app/src/component/digit_canvas.js:72-75 | two buffers that agree on every R, G and B byte decode to the same vector, whatever their alpha bytes hold |
| `Pixels.DecodeAppend` | mnist-react-app/src/component/digit_canvas.js:71-78 | order is preserved: decoding a buffer split at a pixel boundary gives the first part's vector followed by the second's, so the output is row-major |
| `Pixels.DecodeBlack` | mnist-react-app/src/component/digit_canvas.js:76-77 | the decoded vector is all zeros if and only if every R, G and B byte is 0 |
| `Pixels.Round` | mnist-react-app/src/component/digit_canvas.js:102 | Math.round gives the integer n with x - 1/2 < n <= x + 1/2 |
| `Pixels.ClampByte` | mnist-react-app/src/component/digit_canvas.js:104-107 | a clamped-array store keeps values in [0,255] unchanged and sends lower values to 0 and higher values to 255 |
| `Pixels.Channel` | mnist-react-app/src/component/digit_canvas.js:102-106 | the byte stored for a value v in [0,1] is Math.round(v·255), never clamped, and lies within 1/2 of v·255 |
| `Pixels.PreviewByte` | mnist-react-app/src/component/digit_canvas.js:101-108 | byte j of the ImageData is 0 when its cell is past the vector, 255 when it is the alpha of a covered cell, and round(v·255) of that cell's value v in [0,1] when it is a colour byte |
| `Pixels.PreviewImage` | mnist-react-app/src/component/digit_canvas.js:100-109 | the ImageData left by `putImageData` has exactly 28·28·4 bytes whatever the vector's length, and every cell past the vector's end stays transparent zero |
| `Pixels.OpaqueBlack` | mnist-react-app/src/component/digit_canvas.js:45-46 | a black `fillRect` over n cells leaves 4n bytes in which every cell is (0,0,0,255) |
| `Pixels.PreviewCell` | mnist-react-app/src/component/digit_canvas.js:101-108 | for each covered cell i with a value in [0,1], the preview holds R = G = B = round(pixels[i]·255) at 4i..4i+2, which lies in [0,255] and is not clamped, and alpha 255 at 4i+3 |
| `Pixels.PreviewAllOpaque` | mnist-react-app/src/component/digit_canvas.js:100-109 | a vector of at least 784 values makes every preview cell opaque, so no cell of an earlier render survives |
| `Pixels.RoundThird` | mnist-react-app/src/component/digit_canvas.js:102 | rounding the mean s/3 of three bytes gives (s+1)/3, which is within 1/3 of the mean, so there is never a tie |
| `Pixels.ChannelOfNormalized` | mnist-react-app/src/component/digit_canvas.js:102 | round(Normalize(r,g,b)·255) is the channel mean rounded, strictly within 1/2 of the mean |
| `Pixels.RoundTripCell` | mnist-react-app/src/component/digit_canvas.js:71-108 | after decoding a 28x28 buffer and rebuilding the preview, cell k is opaque with R = G = B = round((r+g+b)/3) of source cell k, strictly within 1/2 of that cell's gray mean |
| `Pixels.RoundTripGrayscale` | mnist-react-app/src/component/digit_canvas.js:71-108 | a source buffer whose cells are all gray (R = G = B) comes back from decode-then-preview with the same colour bytes and alpha 255 |
| `Pixels.GrayscaleCell` | mnist-react-app/src/component/digit_canvas.js:71-108 | a gray source cell (R = G = B = c) comes back from decode-then-preview as R = G = B = c with alpha 255 |
| `Pixels.Levels` | mnist-react-app/src/component/digit_canvas.js:77 | the vector of levels n/255 has one value per level, each in [0,1] |
| `Pixels.LevelChannel` | mnist-react-app/src/component/digit_canvas.js:102 | the value n/255 is shown as channel n, and a gray cell of channel n normalises back to n/255 |
| `Pixels.DecodeGrayCell` | mnist-react-app/src/component/digit_canvas.js:72-77 | a cell whose R, G and B all hold n decodes to n/255 |
| `Pixels.QuantizedCell` | mnist-react-app/src/component/digit_canvas.js:71-108 | cell k of a vector of levels n/255 is shown as channel n and decodes back to n/255 |
| `Pixels.RoundTripQuantized` | mnist-react-app/src/component/digit_canvas.js:71-108 | a 784-long vector of multiples of 1/255 is shown as exactly those levels and is recovered exactly by decoding its preview |
| `Pixels.AllBlackScenario` | mnist-react-app/src/component/digit_canvas.js:71-108 | an opaque-black 28x28 buffer decodes to 784 zeros, and those zeros rebuild an opaque-black preview, the same buffer that clearing leaves |
| `CanvasComponent.Grayscale` | mnist-react-app/src/component/digit_canvas.js:71-78 | the stride-4 loop returns data.Length/4 values, and value k is the normalised mean of data[4k..4k+2]; the result equals Decode of the buffer |
| `CanvasComponent.Store` | mnist-react-app/src/component/digit_canvas.js:104-107 | a typed-array store changes only the addressed in-range byte, to the clamped value |
| `CanvasComponent.FillBlack` | mnist-react-app/src/component/digit_canvas.js:45-46 | a black fillRect leaves every cell of the buffer opaque black |
| `CanvasComponent.DigitCanvas.constructor` | mnist-react-app/src/component/digit_canvas.js:9-15 | on mount the drawing canvas is opaque black and the preview is transparent |
| `CanvasComponent.DigitCanvas.Clear` | mnist-react-app/src/component/digit_canvas.js:42-52 | every cell of the 280x280 canvas and of the 28x28 preview is opaque black afterwards |
| `CanvasComponent.DigitCanvas.DrawPreview` | mnist-react-app/src/component/digit_canvas.js:91-110 | the new preview is exactly PreviewImage(pixels): it does not depend on the old preview, and the drawing canvas is unchanged |
| `CanvasComponent.DigitCanvas.ConvertTo28x28` | mnist-react-app/src/component/digit_canvas.js:54-89 | the submitted vector is Decode of the 28x28 buffer, has 784 values in [0,1], and the preview is rebuilt from exactly that vector |

## Left out

- Stroke painting (`draw`, `startDrawing`, `stopDrawing`, digit_canvas.js:17-40): the pixels a disc covers come from the browser's antialiased `arc`/`fill` rasteriser and from `getBoundingClientRect`, which the code does not define.
- The 280x280 to 28x28 downscale (`drawImage`, digit_canvas.js:64): the browser chooses the resampling kernel and the code does not pin it down. `ConvertTo28x28` takes the `getImageData` result as its input.
- IEEE-754 doubles: `/ 3`, `/ 255.0` and `* 255` are modelled as exact real arithmetic. The rounded channel is always within 1/3 of the mean, so the small float error cannot move `Math.round` across a half.
- `Pixels.Decode`, `CanvasComponent.Grayscale`: require a buffer length that is a multiple of 4. `getImageData` always returns 4·w·h bytes. The NaN values that a ragged tail would give in JavaScript are not modelled.
- `CanvasComponent.DigitCanvas.DrawPreview`: takes a vector of reals, so NaN and infinite entries are not modelled (a clamped array stores NaN and -Infinity as 0, +Infinity as 255). Vectors of any length are modelled. Stores past byte 3136 are ignored, and cells past the vector's end stay transparent (0,0,0,0) after `putImageData`. The preceding black `fillRect` is overwritten by `putImageData`, which replaces pixels rather than compositing them.
- `FillBlack` and the `putImageData` copy are single platform calls in the component. They are modelled as simultaneous `forall` assignments, not as loops.
- React state and hooks, JSX rendering, the brush-size slider (digit_canvas.js:1-8, 112-161) and the `console.log` at digit_canvas.js:80: UI plumbing with no buffer behaviour.
- The `onSubmit` callback and everything in `App.js`: the `fetch` POST to the prediction endpoint, the loading and error flags, and `handleClear`. `handleClear` is passed as `onClear`, but `DigitCanvas` never reads it. `ConvertTo28x28` returns the vector it would hand to `onSubmit`.
- `model api/model_api.py` (the inference server) is not part of this model.
