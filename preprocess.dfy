/** Model of `preprocessImage`: the copy of an interleaved RGBA canvas buffer into
    the planar, normalised float buffer handed to the detection model.

    The loop visits the input four bytes (one pixel) at a time and stores the
    pixel's R, G and B bytes, each divided by 255, at offsets `k`, `k + n` and
    `k + 2n` of an output of `3n` entries, where `n` is model width times model
    height and `k` counts the pixels visited so far.  Nothing is resized: when
    the frame has more than `n` pixels, later stores overwrite earlier ones and
    stores past the end of the output are dropped, as with any JavaScript typed
    array.  Offsets such as `4k` and `3n` are written as sums, which keep the
    index arithmetic linear. */
module Preprocess {

  /** One entry of the canvas buffer (a Uint8ClampedArray element). */
  newtype byte = x: int | 0 <= x < 256

  datatype Option<T> = None | Some(value: T)

  /** The (pixel, channel) pair whose store put a value into an output slot;
      channel 0 is red, 1 green, 2 blue. */
  datatype Writer = Writer(pixel: nat, channel: nat)

  /** What the canvas returns from `getImageData`: the frame size and its
      interleaved RGBA bytes.  The preprocessor reads only `data`. */
  datatype ImageData = ImageData(width: nat, height: nat, data: array<byte>)

  /** The value handed to the inference engine: a buffer, its element type
      and its declared dimensions. */
  datatype Tensor = Tensor(data: array<real>, dtype: string, dims: seq<nat>)

  // ---------------------------------------------------------------------------
  // Pixels and planes
  // ---------------------------------------------------------------------------

  /** A byte scaled into the unit interval, `b / 255`. */
  function Normalize(b: byte): (v: real)
    ensures 0.0 <= v <= 1.0
    ensures v * 255.0 == (b as int) as real
  {
    (b as int) as real / 255.0
  }

  /** Index of the first byte of pixel `k` in the interleaved buffer, `4k`. */
  function PixelStart(k: nat): nat
  {
    k + k + k + k
  }

  /** The number of whole pixels in an interleaved RGBA buffer. */
  function PixelCount(data: seq<byte>): nat
  {
    |data| / 4
  }

  /** Byte `c` (0 = R, 1 = G, 2 = B, 3 = A) of pixel `k` in an interleaved RGBA buffer. */
  function Channel(data: seq<byte>, k: nat, c: nat): byte
    requires c < 4 && PixelStart(k) + 4 <= |data|
  {
    data[PixelStart(k) + c]
  }

  /** Length of the planar buffer for planes of `n` entries, `3n`. */
  function BufferLength(n: nat): nat
  {
    n + n + n
  }

  /** The output offset that channel `c` of pixel `k` is stored to, with
      planes of `n` entries: `k`, `k + n` or `k + 2n`. */
  function Slot(n: nat, k: nat, c: nat): nat
    requires c < 3
  {
    if c == 0 then k else if c == 1 then k + n else k + n + n
  }

  /** Program order of the stores: the store of channel `c` of pixel `k` comes
      no later than the store `w` (pixel by pixel, and within a pixel R, then
      G, then B). */
  predicate NotAfter(k: nat, c: nat, w: Writer)
  {
    k < w.pixel || (k == w.pixel && c <= w.channel)
  }

  // ---------------------------------------------------------------------------
  // The loop, store by store
  // ---------------------------------------------------------------------------

  /** A store into a typed array, `s[i] = v`: an offset past the end is
      silently ignored. */
  function Store(s: seq<real>, i: nat, v: real): (r: seq<real>)
    ensures |r| == |s|
  {
    if i < |s| then s[i := v] else s
  }

  /** A typed-array store changes the indexed entry to `v`, and nothing else;
      past the end it changes nothing. */
  lemma StoreAt(s: seq<real>, i: nat, v: real, m: nat)
    requires m < |s|
    ensures Store(s, i, v)[m] == if m == i then v else s[m]
  {
  }

  /** One iteration of the loop: the red, green and blue stores for pixel `k`. */
  function Step(s: seq<real>, data: seq<byte>, n: nat, k: nat): (r: seq<real>)
    requires PixelStart(k) + 4 <= |data|
    ensures |r| == |s|
  {
    var s1 := Store(s, Slot(n, k, 0), Normalize(Channel(data, k, 0)));
    var s2 := Store(s1, Slot(n, k, 1), Normalize(Channel(data, k, 1)));
    Store(s2, Slot(n, k, 2), Normalize(Channel(data, k, 2)))
  }

  /** A zero-filled buffer, as `new Float32Array(len)` creates. */
  function Zeros(len: nat): (r: seq<real>)
    ensures |r| == len
    ensures forall m :: 0 <= m < len ==> r[m] == 0.0
  {
    seq(len, i => 0.0)
  }

  /** The output buffer after the first `j` iterations, starting from the
      zero-filled buffer; its length never depends on the input. */
  function Run(data: seq<byte>, n: nat, j: nat): (r: seq<real>)
    requires PixelStart(j) <= |data|
    ensures |r| == BufferLength(n)
  {
    if j == 0 then Zeros(BufferLength(n))
    else Step(Run(data, n, j - 1), data, n, j - 1)
  }

  /** The buffer `preprocessImage` fills: the loop run over every pixel of the
      input, for planes of `n` entries. */
  function Planar(data: seq<byte>, n: nat): (r: seq<real>)
    requires |data| % 4 == 0
    ensures |r| == BufferLength(n)
  {
    Run(data, n, PixelCount(data))
  }

  // ---------------------------------------------------------------------------
  // The same buffer, slot by slot: the last store wins
  // ---------------------------------------------------------------------------

  /** The store that is last, in program order, among the first `j` iterations'
      stores to output slot `idx`, or None when none of them reaches `idx`
      (LastWriterIsLast). */
  function LastWriter(n: nat, j: nat, idx: nat): Option<Writer>
    requires idx < BufferLength(n)
  {
    if idx < j then Some(Writer(idx, 0))
    else if n <= idx && idx - n < j then Some(Writer(idx - n, 1))
    else if n + n <= idx && idx - n - n < j then Some(Writer(idx - n - n, 2))
    else None
  }

  /** LastWriter names a store of the first `j` iterations that reaches `idx`,
      and every other store that reaches `idx` comes before it; it is None
      exactly when no store reaches `idx`. */
  lemma LastWriterIsLast(n: nat, j: nat, idx: nat)
    requires idx < BufferLength(n)
    ensures LastWriter(n, j, idx).Some? ==>
              var w := LastWriter(n, j, idx).value;
              && w.pixel < j && w.channel < 3 && Slot(n, w.pixel, w.channel) == idx
              && forall k: nat, c: nat :: k < j && c < 3 && Slot(n, k, c) == idx ==> NotAfter(k, c, w)
    ensures LastWriter(n, j, idx).None? <==>
              forall k: nat, c: nat :: k < j && c < 3 ==> Slot(n, k, c) != idx
  {
    if LastWriter(n, j, idx).None? {
      forall k: nat, c: nat | k < j && c < 3
        ensures Slot(n, k, c) != idx
      {
      }
    }
  }

  /** The value in output slot `idx` after `j` iterations: that of the last
      store to it, or the initial zero if there was none. */
  function LastWriteValue(data: seq<byte>, n: nat, j: nat, idx: nat): real
    requires PixelStart(j) <= |data| && idx < BufferLength(n)
  {
    match LastWriter(n, j, idx)
    case None => 0.0
    case Some(w) => Normalize(Channel(data, w.pixel, w.channel))
  }

  /** What iteration `k` leaves in output slot `idx` that held `prev`: the
      value of the last of its three stores that reaches the slot, or `prev`. */
  function Overwrite(data: seq<byte>, n: nat, k: nat, idx: nat, prev: real): real
    requires PixelStart(k) + 4 <= |data|
  {
    if idx == Slot(n, k, 2) then Normalize(Channel(data, k, 2))
    else if idx == Slot(n, k, 1) then Normalize(Channel(data, k, 1))
    else if idx == Slot(n, k, 0) then Normalize(Channel(data, k, 0))
    else prev
  }

  /** Iteration `k` seen from one slot of the buffer. */
  lemma StepAt(s: seq<real>, data: seq<byte>, n: nat, k: nat, idx: nat)
    requires PixelStart(k) + 4 <= |data| && idx < |s|
    ensures Step(s, data, n, k)[idx] == Overwrite(data, n, k, idx, s[idx])
  {
  }

  /** Iteration `k` seen from the last store to one slot: the stores of pixel
      `k` come after every store of the earlier iterations. */
  lemma LastWriteStep(data: seq<byte>, n: nat, k: nat, idx: nat)
    requires PixelStart(k) + 4 <= |data| && idx < BufferLength(n)
    ensures LastWriteValue(data, n, k + 1, idx)
            == Overwrite(data, n, k, idx, LastWriteValue(data, n, k, idx))
  {
  }

  /** After `j` iterations every slot holds the value of the last store to it,
      or zero if there was none. */
  lemma {:induction false} RunAt(data: seq<byte>, n: nat, j: nat, idx: nat)
    requires PixelStart(j) <= |data| && idx < BufferLength(n)
    ensures Run(data, n, j)[idx] == LastWriteValue(data, n, j, idx)
  {
    if j > 0 {
      var k := j - 1;
      var prev := Run(data, n, k);
      calc {
        Run(data, n, j)[idx];
        { assert Run(data, n, j) == Step(prev, data, n, k); }
        Step(prev, data, n, k)[idx];
        { StepAt(prev, data, n, k, idx); }
        Overwrite(data, n, k, idx, prev[idx]);
        { RunAt(data, n, k, idx); }
        Overwrite(data, n, k, idx, LastWriteValue(data, n, k, idx));
        { LastWriteStep(data, n, k, idx); }
        LastWriteValue(data, n, j, idx);
      }
    }
  }

  /** Slots that no store of the first `j` iterations reaches are still zero. */
  lemma UnwrittenSlotIsZero(data: seq<byte>, n: nat, j: nat, idx: nat)
    requires PixelStart(j) <= |data| && idx < BufferLength(n)
    requires forall k: nat, c: nat :: k < j && c < 3 ==> Slot(n, k, c) != idx
    ensures Run(data, n, j)[idx] == 0.0
  {
    LastWriterIsLast(n, j, idx);
    RunAt(data, n, j, idx);
  }

  /** Every slot of the final buffer holds the last value stored to it. */
  lemma PlanarLastWriteWins(data: seq<byte>, n: nat)
    requires |data| % 4 == 0
    ensures forall idx :: 0 <= idx < BufferLength(n) ==>
              Planar(data, n)[idx] == LastWriteValue(data, n, PixelCount(data), idx)
  {
    forall idx | 0 <= idx < BufferLength(n)
      ensures Planar(data, n)[idx] == LastWriteValue(data, n, PixelCount(data), idx)
    {
      RunAt(data, n, PixelCount(data), idx);
    }
  }

  // ---------------------------------------------------------------------------
  // What the final buffer holds
  // ---------------------------------------------------------------------------

  /** After `j <= n` iterations, pixel `k < j` sits at offset `k` of each plane. */
  lemma PixelPlaced(data: seq<byte>, n: nat, j: nat, k: nat)
    requires PixelStart(j) <= |data| && k < j <= n
    ensures Run(data, n, j)[k] == Normalize(Channel(data, k, 0))
    ensures Run(data, n, j)[n + k] == Normalize(Channel(data, k, 1))
    ensures Run(data, n, j)[n + n + k] == Normalize(Channel(data, k, 2))
  {
    RunAt(data, n, j, k);
    RunAt(data, n, j, n + k);
    RunAt(data, n, j, n + n + k);
  }

  /** When the frame fits the planes, pixel `k`'s red, green and blue bytes end
      up, normalised, at offset `k` of the first, second and third plane. */
  lemma PlanarLayout(data: seq<byte>, n: nat)
    requires |data| % 4 == 0 && PixelCount(data) <= n
    ensures forall k :: 0 <= k < PixelCount(data) ==>
              && Planar(data, n)[k] == Normalize(Channel(data, k, 0))
              && Planar(data, n)[n + k] == Normalize(Channel(data, k, 1))
              && Planar(data, n)[n + n + k] == Normalize(Channel(data, k, 2))
  {
    forall k | 0 <= k < PixelCount(data)
      ensures && Planar(data, n)[k] == Normalize(Channel(data, k, 0))
              && Planar(data, n)[n + k] == Normalize(Channel(data, k, 1))
              && Planar(data, n)[n + n + k] == Normalize(Channel(data, k, 2))
    {
      PixelPlaced(data, n, PixelCount(data), k);
    }
  }

  /** When the frame has fewer pixels than a plane, each plane's tail stays
      zero: no resizing or interpolation fills it. */
  lemma PlanarPadding(data: seq<byte>, n: nat)
    requires |data| % 4 == 0 && PixelCount(data) <= n
    ensures forall m :: PixelCount(data) <= m < n ==> Planar(data, n)[m] == 0.0
    ensures forall m :: n + PixelCount(data) <= m < n + n ==> Planar(data, n)[m] == 0.0
    ensures forall m :: n + n + PixelCount(data) <= m < BufferLength(n) ==> Planar(data, n)[m] == 0.0
  {
    PlanarLastWriteWins(data, n);
  }

  /** When the frame has more pixels than a plane, the red byte of pixel `k`
      lands at offset `k` even beyond the first plane, replacing the green or
      blue value an earlier pixel stored there. */
  lemma PlanarOverflowRedWins(data: seq<byte>, n: nat)
    requires |data| % 4 == 0 && n < PixelCount(data)
    ensures forall k :: 0 <= k < PixelCount(data) && k < BufferLength(n) ==>
              Planar(data, n)[k] == Normalize(Channel(data, k, 0))
  {
    PlanarLastWriteWins(data, n);
  }

  /** A two-pixel frame against a one-entry plane: pixel 1's red and green
      overwrite pixel 0's green and blue, and its blue store is dropped. */
  lemma OverflowExample(r0: byte, g0: byte, b0: byte, a0: byte, r1: byte, g1: byte, b1: byte, a1: byte)
    ensures Planar([r0, g0, b0, a0, r1, g1, b1, a1], 1)
            == [Normalize(r0), Normalize(r1), Normalize(g1)]
  {
    var data := [r0, g0, b0, a0, r1, g1, b1, a1];
    PlanarLastWriteWins(data, 1);
  }

  /** Every entry of the final buffer lies in the unit interval. */
  lemma PlanarInUnitInterval(data: seq<byte>, n: nat)
    requires |data| % 4 == 0
    ensures forall idx :: 0 <= idx < |Planar(data, n)| ==> 0.0 <= Planar(data, n)[idx] <= 1.0
  {
    PlanarLastWriteWins(data, n);
  }

  /** Two buffers of the same length whose R, G and B bytes agree; their alpha
      bytes may differ arbitrarily. */
  ghost predicate SameColours(d1: seq<byte>, d2: seq<byte>)
  {
    && |d1| == |d2|
    && forall k: nat, c: nat :: c < 3 && PixelStart(k) + 4 <= |d1| ==> Channel(d1, k, c) == Channel(d2, k, c)
  }

  /** The alpha byte never reaches the output. */
  lemma AlphaIgnored(d1: seq<byte>, d2: seq<byte>, n: nat)
    requires |d1| % 4 == 0 && SameColours(d1, d2)
    ensures Planar(d1, n) == Planar(d2, n)
  {
    PlanarLastWriteWins(d1, n);
    PlanarLastWriteWins(d2, n);
  }

  // ---------------------------------------------------------------------------
  // The tensor
  // ---------------------------------------------------------------------------

  /** The product of a tensor's dimensions, its element count. */
  function ElementCount(dims: seq<nat>): nat
  {
    if dims == [] then 1 else dims[0] * ElementCount(dims[1..])
  }

  /** The dimensions `preprocessImage` declares: batch 1, three channels, then
      the model width and the model height, in that order. */
  function ModelInputDims(modelWidth: nat, modelHeight: nat): (dims: seq<nat>)
    ensures |dims| == 4 && dims[0] == 1 && dims[1] == 3
    ensures dims[2] == modelWidth && dims[3] == modelHeight
    ensures ElementCount(dims) == BufferLength(modelWidth * modelHeight)
  {
    var dims := [1, 3, modelWidth, modelHeight];
    assert ElementCount(dims[3..]) == modelHeight;
    assert ElementCount(dims[2..]) == modelWidth * modelHeight;
    dims
  }

  // ---------------------------------------------------------------------------
  // The imperative code
  // ---------------------------------------------------------------------------

  /** A store into a JavaScript typed array, `a[i] = v`: an index past the end
      is silently ignored. */
  method TypedArraySet(a: array<real>, i: nat, v: real)
    modifies a
    ensures forall m :: 0 <= m < a.Length ==> a[m] == if m == i then v else old(a[m])
  {
    if i < a.Length {
      a[i] := v;
    }
  }

  /** The buffer-filling loop of `preprocessImage` for planes of `n` entries:
      a fresh zero-filled buffer of `3n` entries, filled pixel by pixel, in
      which every slot ends up holding the last value stored to it.  The input
      is only read. */
  method FillPlanes(data: array<byte>, n: nat) returns (resized: array<real>)
    requires data.Length % 4 == 0
    ensures fresh(resized)
    ensures resized.Length == BufferLength(n)
    ensures forall idx :: 0 <= idx < resized.Length ==>
              resized[idx] == LastWriteValue(data[..], n, PixelCount(data[..]), idx)
    ensures data[..] == old(data[..])
  {
    ghost var input := data[..];
    ghost var pixels := PixelCount(input);
    assert data.Length == PixelStart(pixels);
    resized := new real[BufferLength(n)](i => 0.0);

    var offset := 0;
    var i := 0;
    while i < data.Length
      invariant i == PixelStart(offset) && offset <= pixels
      invariant resized.Length == BufferLength(n)
      invariant forall idx :: 0 <= idx < resized.Length ==>
                  resized[idx] == LastWriteValue(input, n, offset, idx)
    {
      assert offset < pixels;
      var r, g, b := Normalize(data[i]), Normalize(data[i + 1]), Normalize(data[i + 2]);
      TypedArraySet(resized, offset, r);
      TypedArraySet(resized, offset + n, g);
      TypedArraySet(resized, offset + n + n, b);
      forall idx | 0 <= idx < resized.Length
        ensures resized[idx] == LastWriteValue(input, n, offset + 1, idx)
      {
        LastWriteStep(input, n, offset, idx);
      }
      offset := offset + 1;
      i := i + 4;
    }
  }

  /** `preprocessImage`: the planar buffer for planes of `W * H` entries,
      wrapped as a float32 tensor with dimensions `[1, 3, W, H]`. */
  method PreprocessImage(imageData: ImageData, modelWidth: nat, modelHeight: nat) returns (t: Tensor)
    requires imageData.data.Length % 4 == 0
    ensures fresh(t.data)
    ensures t.dtype == "float32" && t.dims == ModelInputDims(modelWidth, modelHeight)
    ensures t.data.Length == ElementCount(t.dims)
    ensures t.data[..] == Planar(imageData.data[..], modelWidth * modelHeight)
    ensures imageData.data[..] == old(imageData.data[..])
  {
    var resized := FillPlanes(imageData.data, modelWidth * modelHeight);
    PlanarLastWriteWins(imageData.data[..], modelWidth * modelHeight);
    t := Tensor(resized, "float32", ModelInputDims(modelWidth, modelHeight));
  }
}
