/**
 * The face-embedding model's input side: the buffers `create` allocates,
 * and the preprocessing in `recognizeImage` that turns ARGB pixels, row by
 * row, into the model's input bytes. It then wraps the interpreter's
 * output in a single recognition.
 */
module TFLite {
  import opened Wrappers
  import opened Extensions
  import opened Classifier
  import opened EmbeddingCodec

  const OUTPUT_SIZE: nat := 192
  const IMAGE_MEAN: real := 128.0
  const IMAGE_STD: real := 128.0

  /** `Float.MAX_VALUE`, (2 - 2^-23) * 2^127. */
  const FLOAT_MAX: real := 340282346638528859811704183484516925440.0

  /** One byte per channel for a quantized model, a 4-byte float otherwise. */
  function BytesPerChannel(quantized: bool): (n: nat)
    ensures n == 1 || n == 4
    ensures quantized <==> n == 1
  {
    if quantized then 1 else 4
  }

  /** The bytes one pixel takes in the input buffer: three channels. */
  function Stride(quantized: bool): nat
  {
    3 * BytesPerChannel(quantized)
  }

  /** The input buffer's capacity for a square image of side `inputSize`. */
  function Capacity(inputSize: nat, quantized: bool): nat
  {
    inputSize * inputSize * Stride(quantized)
  }

  /** `(p >> 16) & 0xFF`, `(p >> 8) & 0xFF` and `p & 0xFF` of a pixel's 32 ARGB bits. */
  function Red(p: bv32): bv8
  {
    ((p >> 16) & 0xFF) as bv8
  }

  function Green(p: bv32): bv8
  {
    ((p >> 8) & 0xFF) as bv8
  }

  function Blue(p: bv32): bv8
  {
    (p & 0xFF) as bv8
  }

  /** The alpha byte never reaches the model: pixels that differ only in alpha give the same channels. */
  lemma AlphaIgnored(p: bv32, alpha: bv8)
    ensures var q := (p & 0x00FF_FFFF) | ((alpha as bv32) << 24);
      Red(q) == Red(p) && Green(q) == Green(p) && Blue(q) == Blue(p)
  {
  }

  /** A channel for the float model: `(c - IMAGE_MEAN) / IMAGE_STD`. */
  function Normalize(c: bv8): (v: real)
    ensures -1.0 <= v <= 127.0 / 128.0
    ensures v * IMAGE_STD + IMAGE_MEAN == c as int as real
  {
    ((c as int) as real - IMAGE_MEAN) / IMAGE_STD
  }

  /** `enc` stands for `putFloat`'s four bytes of a float in the buffer's byte order. */
  ghost predicate FourByteFloats(enc: real -> seq<bv8>)
  {
    forall x {:trigger enc(x)} :: |enc(x)| == 4
  }

  /** The bytes one pixel contributes: three channel bytes, or three encoded normalised channels. */
  function PixelBytes(p: bv32, quantized: bool, enc: real -> seq<bv8>): seq<bv8>
  {
    if quantized then [Red(p), Green(p), Blue(p)]
    else enc(Normalize(Red(p))) + enc(Normalize(Green(p))) + enc(Normalize(Blue(p)))
  }

  lemma PixelBytesLength(p: bv32, quantized: bool, enc: real -> seq<bv8>)
    requires FourByteFloats(enc)
    ensures |PixelBytes(p, quantized, enc)| == Stride(quantized)
  {
    if !quantized {
      assert |enc(Normalize(Red(p)))| == 4;
      assert |enc(Normalize(Green(p)))| == 4;
      assert |enc(Normalize(Blue(p)))| == 4;
    }
  }

  /** The whole input: each pixel's bytes, in pixel order. */
  function Encoded(pixels: seq<bv32>, quantized: bool, enc: real -> seq<bv8>): seq<bv8>
  {
    if |pixels| == 0 then []
    else Encoded(pixels[..|pixels| - 1], quantized, enc) + PixelBytes(pixels[|pixels| - 1], quantized, enc)
  }

  /** The input has exactly one stride of bytes per pixel, so a full image fills the buffer. */
  lemma {:induction false} EncodedLength(pixels: seq<bv32>, quantized: bool, enc: real -> seq<bv8>)
    requires FourByteFloats(enc)
    ensures |Encoded(pixels, quantized, enc)| == |pixels| * Stride(quantized)
    decreases |pixels|
  {
    if |pixels| > 0 {
      EncodedLength(pixels[..|pixels| - 1], quantized, enc);
      PixelBytesLength(pixels[|pixels| - 1], quantized, enc);
    }
  }

  /** Pixel `k` occupies bytes `k * stride` up to `(k + 1) * stride` of the input. */
  lemma {:induction false} EncodedPixelAt(pixels: seq<bv32>, k: nat, quantized: bool, enc: real -> seq<bv8>)
    requires FourByteFloats(enc) && k < |pixels|
    ensures |Encoded(pixels, quantized, enc)| == |pixels| * Stride(quantized)
    ensures Encoded(pixels, quantized, enc)[k * Stride(quantized)..(k + 1) * Stride(quantized)] ==
            PixelBytes(pixels[k], quantized, enc)
    decreases |pixels|
  {
    var n := |pixels|;
    var s := Stride(quantized);
    var init := pixels[..n - 1];
    var front := Encoded(init, quantized, enc);
    var back := PixelBytes(pixels[n - 1], quantized, enc);
    EncodedLength(pixels, quantized, enc);
    EncodedLength(init, quantized, enc);
    PixelBytesLength(pixels[n - 1], quantized, enc);
    assert Encoded(pixels, quantized, enc) == front + back;
    var lo := k * s;
    var hi := (k + 1) * s;
    assert hi == lo + s;
    if k == n - 1 {
      assert lo == |front|;
      SliceOfSecond(front, back);
    } else {
      EncodedPixelAt(init, k, quantized, enc);
      MulLe(k + 1, n - 1, s);
      SliceOfFirst(front, back, lo, hi);
    }
  }

  lemma SliceOfFirst(x: seq<bv8>, y: seq<bv8>, lo: nat, hi: nat)
    requires lo <= hi <= |x|
    ensures (x + y)[lo..hi] == x[lo..hi]
  {
  }

  lemma SliceOfSecond(x: seq<bv8>, y: seq<bv8>)
    ensures (x + y)[|x|..|x| + |y|] == y
  {
  }

  /** A fixed-capacity byte buffer with a write position. */
  class ByteBuffer {
    const data: array<bv8>
    var position: nat

    ghost predicate Valid()
      reads this
    {
      position <= data.Length
    }

    /** The bytes before the position. */
    function Written(): seq<bv8>
      reads this, data
      requires Valid()
    {
      data[..position]
    }

    /** `allocateDirect`: a zero-filled buffer of the given capacity. */
    constructor Allocate(capacity: nat)
      ensures Valid() && fresh(data) && data.Length == capacity && position == 0
    {
      data := new bv8[capacity](_ => 0);
      position := 0;
    }

    method Rewind()
      modifies this
      ensures Valid() && position == 0 && Written() == []
    {
      position := 0;
    }

    /** `put`: one byte at the position, which moves on by one. */
    method Put(b: bv8)
      requires Valid() && position < data.Length
      modifies this, data
      ensures Valid() && position == old(position) + 1
      ensures Written() == old(Written()) + [b]
    {
      data[position] := b;
      position := position + 1;
    }

    /** `putFloat`: the float's four bytes at the position, which moves on by four. */
    method PutFloat(x: real, enc: real -> seq<bv8>)
      requires Valid() && FourByteFloats(enc) && position + 4 <= data.Length
      modifies this, data
      ensures Valid() && position == old(position) + 4
      ensures Written() == old(Written()) + enc(x)
    {
      var bytes := enc(x);
      assert |bytes| == 4;
      for k := 0 to 4
        invariant position == old(position) + k
        invariant data[..position] == old(data[..position]) + bytes[..k]
      {
        data[position] := bytes[k];
        position := position + 1;
        assert bytes[..k + 1] == bytes[..k] + [bytes[k]];
      }
      assert bytes[..4] == bytes;
    }
  }

  /** The embedding model with its pre-allocated buffers. */
  class FaceModel {
    const isModelQuantized: bool
    const inputSize: nat
    const intValues: array<bv32>
    const imgData: ByteBuffer

    ghost predicate Valid()
      reads this, imgData
    {
      && imgData.Valid()
      && imgData.data.Length == Capacity(inputSize, isModelQuantized)
      && intValues.Length == inputSize * inputSize
    }

    /** `create`, from the quantization flag on: sizes the input buffer and the pixel array. */
    constructor Create(inputSize: nat, isQuantized: bool)
      ensures Valid()
      ensures this.inputSize == inputSize && isModelQuantized == isQuantized
      ensures imgData.data.Length == inputSize * inputSize * 3 * (if isQuantized then 1 else 4)
      ensures intValues.Length == inputSize * inputSize
    {
      this.inputSize := inputSize;
      isModelQuantized := isQuantized;
      var numBytesPerChannel := if isQuantized then 1 else 4;
      imgData := new ByteBuffer.Allocate(inputSize * inputSize * 3 * numBytesPerChannel);
      intValues := new bv32[inputSize * inputSize];
    }

    /** The three channel writes of one pixel. */
    method PutPixel(pixelValue: bv32, enc: real -> seq<bv8>)
      requires imgData.Valid() && FourByteFloats(enc)
      requires imgData.position + Stride(isModelQuantized) <= imgData.data.Length
      modifies imgData, imgData.data
      ensures imgData.Valid()
      ensures imgData.position == old(imgData.position) + Stride(isModelQuantized)
      ensures imgData.Written() == old(imgData.Written()) + PixelBytes(pixelValue, isModelQuantized, enc)
    {
      if isModelQuantized {
        imgData.Put(Red(pixelValue));
        imgData.Put(Green(pixelValue));
        imgData.Put(Blue(pixelValue));
      } else {
        imgData.PutFloat(Normalize(Red(pixelValue)), enc);
        imgData.PutFloat(Normalize(Green(pixelValue)), enc);
        imgData.PutFloat(Normalize(Blue(pixelValue)), enc);
      }
    }

    /** The inner loop of the preprocessing: the pixels of the row that starts at index `start`, left to right. */
    method PreprocessRow(start: nat, pixels: seq<bv32>, enc: real -> seq<bv8>)
      requires Valid() && FourByteFloats(enc)
      requires |pixels| == inputSize * inputSize && intValues[..] == pixels
      requires start + inputSize <= |pixels|
      requires imgData.Written() == Encoded(pixels[..start], isModelQuantized, enc)
      modifies imgData, imgData.data
      ensures imgData.Valid()
      ensures imgData.Written() == Encoded(pixels[..start + inputSize], isModelQuantized, enc)
    {
      for j := 0 to inputSize
        invariant imgData.Valid()
        invariant imgData.Written() == Encoded(pixels[..start + j], isModelQuantized, enc)
      {
        var index := start + j;
        EncodedLength(pixels[..index], isModelQuantized, enc);
        RoomForPixel(index, inputSize, isModelQuantized);
        var pixelValue := intValues[index];
        PutPixel(pixelValue, enc);
        EncodedStep(pixels, index, isModelQuantized, enc);
      }
    }

    /**
     * `recognizeImage` for a bitmap already scaled to the input size:
     * `pixels` are its ARGB values in row-major order, `enc` the float
     * encoding and `interpreter` the model run on the finished input. The
     * single recognition has id "0", title "?", the largest float as
     * distance and an empty location; its extra is the 1 x 192 output, set
     * only when `storeExtra` asks for it.
     */
    method RecognizeImage(pixels: seq<bv32>, storeExtra: bool, enc: real -> seq<bv8>,
                          interpreter: seq<bv8> -> seq<real>)
      returns (recognitions: seq<Recognition>)
      requires Valid() && FourByteFloats(enc)
      requires |pixels| == inputSize * inputSize
      requires forall input {:trigger interpreter(input)} :: |interpreter(input)| == OUTPUT_SIZE
      modifies intValues, imgData, imgData.data
      ensures Valid()
      ensures intValues[..] == pixels
      ensures imgData.position == imgData.data.Length
      ensures imgData.data[..] == Encoded(pixels, isModelQuantized, enc)
      ensures |recognitions| == 1 && fresh(recognitions[0])
      ensures var rec := recognitions[0];
        && rec.id == Some("0") && rec.title == Some("?") && rec.distance == Some(FLOAT_MAX)
        && rec.location == Some(RectF(0.0, 0.0, 0.0, 0.0))
        && rec.extra == (if storeExtra then Some([interpreter(imgData.data[..])]) else None)
        && (storeExtra ==> |rec.extra.value| == 1 && |rec.extra.value[0]| == OUTPUT_SIZE)
    {
      forall k | 0 <= k < intValues.Length {
        intValues[k] := pixels[k];
      }
      imgData.Rewind();
      ghost var done: nat := 0;
      for i := 0 to inputSize
        modifies imgData, imgData.data
        invariant imgData.Valid()
        invariant done == i * inputSize && done <= |pixels|
        invariant imgData.Written() == Encoded(pixels[..done], isModelQuantized, enc)
      {
        RowEnd(i, inputSize);
        var start := i * inputSize;
        PreprocessRow(start, pixels, enc);
        done := done + inputSize;
      }
      EncodedLength(pixels, isModelQuantized, enc);
      assert pixels[..inputSize * inputSize] == pixels;
      assert imgData.position == imgData.data.Length;
      assert imgData.data[..] == imgData.data[..imgData.position];
      var embeedings := [interpreter(imgData.data[..])];
      var rec := new Recognition(Some("0"), Some("?"), Some(FLOAT_MAX), Some(RectF(0.0, 0.0, 0.0, 0.0)));
      if storeExtra {
        rec.SetExtra(Some(embeedings));
      }
      recognitions := [rec];
    }
  }

  /** One more pixel appends its bytes to the input. */
  lemma EncodedStep(pixels: seq<bv32>, k: nat, quantized: bool, enc: real -> seq<bv8>)
    requires k < |pixels|
    ensures Encoded(pixels[..k + 1], quantized, enc) == Encoded(pixels[..k], quantized, enc) + PixelBytes(pixels[k], quantized, enc)
  {
    assert pixels[..k + 1][..k] == pixels[..k];
  }

  /** The end of row `i` is the start of row `i + 1`, and lies within the image. */
  lemma RowEnd(i: nat, n: nat)
    requires i < n
    ensures i * n + n == (i + 1) * n <= n * n
  {
    MulLe(i + 1, n, n);
  }

  /** A pixel before the end of the image still has a whole stride of room in the buffer. */
  lemma RoomForPixel(index: nat, n: nat, quantized: bool)
    requires index < n * n
    ensures index * Stride(quantized) + Stride(quantized) <= Capacity(n, quantized)
  {
    var s := Stride(quantized);
    MulLe(index + 1, n * n, s);
    assert (index + 1) * s == index * s + s;
  }

  lemma MulLe(a: nat, b: nat, c: nat)
    requires a <= b
    ensures a * c <= b * c
  {
    var d := b - a;
    assert b * c == a * c + d * c;
  }
}
