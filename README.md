# preprocessImage, modelled in Dafny

The browser script runs a YOLOv8 object detector on video frames. Before each
inference call it converts the canvas frame with `preprocessImage`
(`script.js:64-78`). The frame is an interleaved RGBA byte buffer, four bytes
per pixel. The function turns it into a planar `Float32Array`: every red value,
then every green value, then every blue value, each divided by 255. It wraps
that buffer as an ONNX tensor with dimensions `[1, 3, modelWidth, modelHeight]`.

This project models that function in one module, `Preprocess`
(`preprocess.dfy`):

- **The code itself.** `PreprocessImage` and its loop `FillPlanes` are methods
  over arrays. Every typed-array store goes through `TypedArraySet`, which, like
  JavaScript, ignores an index past the end.
- **A store-by-store specification.** `Store`, `Step`, `Run` and `Planar`
  replay the loop on sequences, one iteration at a time.
- **An independent, slot-by-slot reference.** `LastWriter` and
  `LastWriteValue` say, for each output slot, which (pixel, channel) store was
  the last to reach it in program order, and so what value it holds.

The lemma `RunAt` proves by induction that the replayed loop and the reference
agree on every slot. The loop invariant of `FillPlanes` proves the same of the
method. The layout, padding, overflow, alpha and range properties are then
proved about `Planar`.

The model covers every frame size. With `n = modelWidth * modelHeight`, a frame
of more than `n` pixels is not resized or rejected. Later stores overwrite
earlier ones: the red value of pixel `n + m` lands in the green plane, on top
of pixel `m`'s green value. Stores at offsets of `3n` and beyond are dropped.
The model states this behaviour instead of excluding it.

Pixel bytes are the newtype `byte` (0..255). Normalised values are exact reals
`b / 255`.

Three points where the code may surprise a reader. The model keeps each of them:

- The declared dimensions are `[1, 3, modelWidth, modelHeight]`, width before
  height, not the usual `[1, 3, height, width]` order (`script.js:77`).
  `ModelInputDims` keeps this order.
- Nothing is resized, although the comment on `script.js:68` says "resize".
  Pixels are copied in source order, one output slot per input pixel
  (`PlanarLayout`, `PlanarPadding`).
- No error is raised. An empty frame gives an all-zero tensor, and the channel
  layout is never checked.

## Model

| member | source | states |
|---|---|---|
| Preprocess.Normalize | script.js:71-73 | a byte divided by 255 lies in [0, 1], and multiplying the result back by 255 gives the byte |
| Preprocess.Run | script.js:66-75 | the buffer replayed after any number of iterations has exactly `3·W·H` entries, whatever the input length |
| Preprocess.Planar | script.js:66-75 | the buffer the whole loop fills has exactly `3·W·H` entries, whatever the input length |
| Preprocess.Store | script.js:71-73 | a store into the buffer never changes its length, even when the index is past the end |
| Preprocess.StoreAt | script.js:71-73 | a store changes the indexed entry to the stored value and leaves every other entry as it was; an index past the end changes nothing |
| Preprocess.Step | script.js:70-74 | one iteration (three stores) never changes the buffer's length |
| Preprocess.Zeros | script.js:66 | the freshly allocated buffer has the requested length and every entry is 0 |
| Preprocess.StepAt | script.js:71-73 | one iteration changes a slot only when one of its three stores reaches it, and then the blue, green or red value it stored last |
| Preprocess.LastWriterIsLast | script.js:69-75 | the reference store for a slot is a store of the first `j` iterations that reaches the slot, and every other store reaching it comes earlier in program order; there is none exactly when no store of slots `m`, `m + W·H`, `m + 2·W·H` (for `m < j`) reaches it |
| Preprocess.LastWriteStep | script.js:69-75 | one more iteration moves the last-store reference of each slot exactly as that iteration's stores do |
| Preprocess.RunAt | script.js:69-75 | after `j` iterations every slot holds the value of the last store to it, or 0 if none reached it |
| Preprocess.UnwrittenSlotIsZero | script.js:66-75 | a slot no store of the first `j` iterations reaches still holds its initial 0 |
| Preprocess.PlanarLastWriteWins | script.js:66-75 | every slot of the final buffer holds the value of the last store to it, or 0 |
| Preprocess.PixelPlaced | script.js:69-75 | while the iterations fit in a plane, pixel `k`'s R, G and B values, divided by 255, sit at `k`, `k + W·H` and `k + 2·W·H` |
| Preprocess.PlanarLayout | script.js:69-75 | when the frame has at most `W·H` pixels, `out[k] = data[4k]/255`, `out[W·H+k] = data[4k+1]/255` and `out[2·W·H+k] = data[4k+2]/255` for every pixel `k` |
| Preprocess.PlanarPadding | script.js:66-75 | when the frame has at most `W·H` pixels, every plane position at or beyond the pixel count stays 0: nothing is resized or interpolated |
| Preprocess.PlanarOverflowRedWins | script.js:69-75 | when the frame has more than `W·H` pixels, slot `k` (below `3·W·H`) holds pixel `k`'s red value, whatever earlier green or blue store reached it |
| Preprocess.OverflowExample | script.js:66-75 | for a two-pixel frame and a one-entry plane, the output is `[R0, R1, G1] / 255`: pixel 1 overwrites pixel 0's green and blue, and its own blue store is dropped |
| Preprocess.PlanarInUnitInterval | script.js:68-73 | every output entry lies in [0, 1] |
| Preprocess.AlphaIgnored | script.js:70-73 | two frames that differ only in their alpha bytes give the same output |
| Preprocess.ModelInputDims | script.js:66-77 | the dimensions are `[1, 3, modelWidth, modelHeight]`, width before height, and their product is the buffer length `3·W·H` |
| Preprocess.TypedArraySet | script.js:71-73 | a typed-array store changes exactly the indexed entry, and nothing when the index is past the end |
| Preprocess.FillPlanes | script.js:65-75 | the loop allocates a fresh buffer of `3·W·H` entries; in every slot it leaves the value of the last store to it, or 0; it leaves the input unchanged; its loop invariant keeps `i = 4·offset` |
| Preprocess.PreprocessImage | script.js:64-78 | the returned tensor is a fresh float32 buffer equal to `Planar` of the input, with dimensions `[1, 3, modelWidth, modelHeight]` whose product is its length; the input frame is unchanged |

## Left out

- Model loading and inference (`script.js:9-14`, `55-56`): calls into the ONNX runtime, whose behaviour is not visible here.
- Camera and video-file setup (`script.js:17-42`): browser media I/O.
- Canvas operations `clearRect`, `drawImage` and `getImageData` (`script.js:48-52`): rendering. The frame arrives as the `ImageData` parameter.
- `drawDetections` (`script.js:81-90`): it only sets drawing styles. Its box decoding is an empty placeholder, so there is nothing to model.
- The `requestAnimationFrame` loop, the `async` sequencing in `runDetection` and the event listeners (`script.js:45-61`, `93-105`): scheduling and UI wiring.
- The `modelLoaded` flag (`script.js:6`, `12`, `46`): a single boolean guard outside the preprocessing.
- Preprocess.Normalize: computes the exact real `b / 255`, not the float32 value the `Float32Array` stores, because floating-point rounding is not modelled.
- Preprocess.PreprocessImage: requires the input length to be a multiple of 4. `ImageData` always satisfies this, so a trailing partial pixel is never modelled.
- The `width` and `height` fields of `ImageData` are carried but unused, as in the code. The model size at the only call site (640 × 640, `script.js:53`) is a parameter.
