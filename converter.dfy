/** The two conversions of `unity_raw_to_exr.py` on in-memory data:
    `raw_to_exr` reads the raw byte stream two bytes at a time into a list of
    heights while tracking their minimum and maximum, then reshapes the list
    into a square grid; `exr_to_raw` reduces an image to its first channel,
    flattens it row by row and writes each quantised height as two
    little-endian bytes. Opening, reading and writing files and the image
    codec are outside the model: the methods take and return the data. */
module Converter {
  import opened Common
  import opened Normalization
  import opened SampleCodec
  import opened Grid

  /** The heights of a list of samples, in order. */
  function NormalizeAll(samples: seq<int>): (hs: seq<real>)
    ensures |hs| == |samples|
    ensures forall i :: 0 <= i < |samples| ==> hs[i] == Normalize(samples[i])
  {
    seq(|samples|, i requires 0 <= i < |samples| => Normalize(samples[i]))
  }

  /** The raw samples of a list of heights, in order. */
  function QuantizeAll(heights: seq<real>): (ss: seq<int>)
    ensures |ss| == |heights|
    ensures forall i :: 0 <= i < |heights| ==> ss[i] == Quantize(heights[i])
  {
    seq(|heights|, i requires 0 <= i < |heights| => Quantize(heights[i]))
  }

  /** The grid `raw_to_exr` hands to the image writer, or the error that
      stops it before anything is written. */
  function RawToExrGrid(bytes: seq<Byte>): Result<seq<seq<real>>>
  {
    SquareReshape(NormalizeAll(DecodeSamples(bytes)))
  }

  /** The bytes `exr_to_raw` leaves in the raw file, and how it ends. */
  function ExrToRawBytes(img: Image): Written
    requires WellFormed(img)
  {
    match FirstChannel(img)
    case Err(e) => Written([], Fail(e))
    case Ok(plane) => EncodeStream(QuantizeAll(Flatten(plane)))
  }

  /** The read loop of `raw_to_exr`: consume the stream two bytes at a
      time (one at the end of an odd-length stream), append each sample's
      height, and keep the running minimum and maximum, which start at
      32767 and -1. */
  method DecodeRaw(bytes: seq<Byte>) returns (heights: seq<real>, minValue: real, maxValue: real)
    ensures heights == NormalizeAll(DecodeSamples(bytes))
    ensures heights == [] ==> minValue == MaxShort as real && maxValue == -1.0
    ensures heights != [] ==> minValue in heights && maxValue in heights
    ensures forall i :: 0 <= i < |heights| ==> minValue <= heights[i] <= maxValue
  {
    minValue, maxValue := MaxShort as real, -1.0;
    heights := [];
    ghost var samples: seq<int> := [];
    var pos := 0;
    while pos < |bytes|
      invariant pos <= |bytes|
      invariant samples + DecodeSamples(bytes[pos..]) == DecodeSamples(bytes)
      invariant |heights| == |samples|
      invariant forall i :: 0 <= i < |samples| ==> heights[i] == Normalize(samples[i])
      invariant RunningExtremes(heights, minValue, maxValue)
      decreases |bytes| - pos
    {
      var k := ChunkLength(bytes, pos);
      var chunk := bytes[pos..pos + k];
      var shortValue := FromBytesLittle(chunk);
      ChunkFits(chunk);
      var height := Normalize(shortValue);
      NormalizeRange(shortValue);
      ghost var (oldHeights, oldMin, oldMax) := (heights, minValue, maxValue);
      if height < minValue {
        minValue := height;
      }
      if height > maxValue {
        maxValue := height;
      }
      ExtremesStep(oldHeights, oldMin, oldMax, height);
      assert (samples + [shortValue]) + DecodeSamples(bytes[pos + k..]) == DecodeSamples(bytes) by {
        DecodeStep(bytes, pos);
      }
      heights := heights + [height];
      samples := samples + [shortValue];
      pos := pos + k;
    }
    assert bytes[pos..] == [];
  }

  /** The running minimum and maximum of the heights read so far: the
      initial 32767 and -1 before the first sample, afterwards two of the
      heights that bound all of them. */
  predicate RunningExtremes(heights: seq<real>, minValue: real, maxValue: real)
  {
    && (heights == [] ==> minValue == MaxShort as real && maxValue == -1.0)
    && (heights != [] ==> minValue in heights && maxValue in heights)
    && forall i :: 0 <= i < |heights| ==> minValue <= heights[i] <= maxValue
  }

  /** The two comparisons of the read loop keep the running extremes for
      any height in [0, 32767): the first one replaces both initial values. */
  lemma ExtremesStep(heights: seq<real>, minValue: real, maxValue: real, h: real)
    requires RunningExtremes(heights, minValue, maxValue)
    requires 0.0 <= h < MaxShort as real
    ensures RunningExtremes(heights + [h],
      if h < minValue then h else minValue,
      if h > maxValue then h else maxValue)
  {
  }

  /** A chunk of one or two bytes holds an unsigned 16-bit value. */
  lemma ChunkFits(chunk: seq<Byte>)
    requires 1 <= |chunk| <= 2
    ensures Fits(FromBytesLittle(chunk))
  {
    if |chunk| == 1 {
      ChunkValue(chunk[0], 0);
      assert chunk == [chunk[0]];
    } else {
      ChunkValue(chunk[0], chunk[1]);
      assert chunk == [chunk[0], chunk[1]];
    }
  }

  /** `raw_to_exr` up to the image writer: decode the stream, then reshape
      the heights into the square grid. The minimum and maximum are the
      extremes of the decoded heights (32767 and -1 for an empty stream),
      so they bound every cell of the grid. */
  method RawToExr(bytes: seq<Byte>) returns (grid: Result<seq<seq<real>>>, minValue: real, maxValue: real)
    ensures grid == RawToExrGrid(bytes)
    ensures RunningExtremes(NormalizeAll(DecodeSamples(bytes)), minValue, maxValue)
    ensures grid.Ok? ==>
      forall r, c :: 0 <= r < |grid.value| && 0 <= c < |grid.value[r]| ==>
        minValue <= grid.value[r][c] <= maxValue
  {
    var heights;
    heights, minValue, maxValue := DecodeRaw(bytes);
    grid := SquareReshape(heights);
    SquareReshapeCells(heights);
  }

  /** The write loop of `exr_to_raw`: quantise each height, turn it into
      two little-endian bytes and append them; the first value that does
      not fit raises, and what was written before it stays written. */
  method EncodeRaw(heights: seq<real>) returns (written: seq<Byte>, outcome: Outcome)
    ensures Written(written, outcome) == EncodeStream(QuantizeAll(heights))
  {
    ghost var samples := QuantizeAll(heights);
    written := [];
    for i := 0 to |heights|
      invariant EncodeStream(samples) ==
        Written(written + EncodeStream(samples[i..]).bytes, EncodeStream(samples[i..]).outcome)
    {
      var shortValue := Quantize(heights[i]);
      assert samples[i..][0] == shortValue && samples[i..][1..] == samples[i + 1..];
      match ToBytes2(shortValue)
      case Err(e) =>
        outcome := Fail(e);
        assert EncodeStream(samples[i..]) == Written([], Fail(e));
        assert written + [] == written;
        return;
      case Ok(byteData) =>
        written := written + byteData;
    }
    outcome := Pass;
    assert samples[|heights|..] == [];
    assert written + [] == written;
  }

  /** `exr_to_raw` after the image reader: keep channel 0 of a layered
      image, flatten row by row, and run the write loop. */
  method ExrToRaw(img: Image) returns (written: seq<Byte>, outcome: Outcome)
    requires WellFormed(img)
    ensures Written(written, outcome) == ExrToRawBytes(img)
  {
    var plane := FirstChannel(img);
    if plane.Err? {
      return [], Fail(plane.error);
    }
    var heightData := Flatten(plane.value);
    written, outcome := EncodeRaw(heightData);
  }

  /** What `raw_to_exr` produces: a grid exactly when the sample count
      ceil(len / 2) is `n * n` for `n = int(sqrt(count))`, a ShapeError
      otherwise; the grid is n x n and holds the heights of the samples in
      row-major order (its rows, one after another, are the heights). */
  lemma RawToExrSpec(bytes: seq<Byte>, n: nat)
    requires n == Isqrt((|bytes| + 1) / 2)
    ensures RawToExrGrid(bytes).Ok? <==> (|bytes| + 1) / 2 == n * n
    ensures RawToExrGrid(bytes).Err? ==> RawToExrGrid(bytes).error == ShapeError((|bytes| + 1) / 2)
    ensures RawToExrGrid(bytes).Ok? ==>
      IsGrid(RawToExrGrid(bytes).value, n, n) &&
      Flatten(RawToExrGrid(bytes).value) == NormalizeAll(DecodeSamples(bytes))
  {
    var samples := DecodeSamples(bytes);
    assert |samples| == (|bytes| + 1) / 2 by {
      DecodeSamplesAt(bytes);
    }
    var heights := NormalizeAll(samples);
    if |heights| == n * n {
      assert RawToExrGrid(bytes) == Ok(Rows(heights, n, n));
      RowsShape(heights, n, n);
      FlattenRows(heights, n, n);
    }
  }

  /** What `exr_to_raw` leaves in the file: nothing when channel 0 does not
      exist; otherwise the quantised heights in row-major order, two bytes
      each, up to the first one that does not fit, and success exactly when
      all of them fit. Reading the file back gives those samples. */
  lemma ExrToRawSpec(img: Image)
    requires WellFormed(img)
    ensures FirstChannel(img).Err? ==> ExrToRawBytes(img) == Written([], Fail(ChannelIndexError))
    ensures FirstChannel(img).Ok? ==>
      var samples := QuantizeAll(Flatten(FirstChannel(img).value));
      var w := ExrToRawBytes(img);
      |w.bytes| == 2 * FirstOverflow(samples) &&
      DecodeSamples(w.bytes) == samples[..FirstOverflow(samples)] &&
      (w.outcome == Pass <==> forall i :: 0 <= i < |samples| ==> Fits(samples[i]))
  {
    if FirstChannel(img).Ok? {
      var samples := QuantizeAll(Flatten(FirstChannel(img).value));
      EncodeStreamAt(samples);
      DecodeEncode(samples);
    }
  }

  /** A layered image is written exactly like the single-channel image made
      of its channel 0. */
  lemma ChannelReduction(img: Image)
    requires WellFormed(img) && img.Layered? && img.depth > 0
    ensures ExrToRawBytes(img) == ExrToRawBytes(Plane(FirstChannel(img).value))
  {
  }

  /** The integer path is lossless: an n x n grid of samples that fit,
      flattened and written, then read back and reshaped, is the same grid. */
  lemma GridRoundTrip(g: seq<seq<int>>, n: nat)
    requires IsGrid(g, n, n)
    requires forall r, c :: 0 <= r < n && 0 <= c < n ==> Fits(g[r][c])
    ensures EncodeStream(Flatten(g)).outcome == Pass
    ensures SquareReshape(DecodeSamples(EncodeStream(Flatten(g)).bytes)) == Ok(g)
  {
    var flat := Flatten(g);
    forall i | 0 <= i < |flat| ensures Fits(flat[i]) {
      FlattenMembers(g, flat[i]);
      var r :| 0 <= r < |g| && flat[i] in g[r];
      var c :| 0 <= c < |g[r]| && g[r][c] == flat[i];
    }
    RoundTrip(flat);
    SquareReshapeFlatten(g, n);
  }

  /** A two-sample stream `00 00 FF 7F` is not square: ShapeError. */
  lemma TwoSamplesRejected()
    ensures RawToExrGrid([0x00, 0x00, 0xFF, 0x7F]) == Err(ShapeError(2))
  {
  }

  /** `00 00 FF 7F 00 00 FF 7F` is the 2 x 2 grid [[0, 1], [0, 1]]. */
  lemma FourSamplesGrid()
    ensures RawToExrGrid([0x00, 0x00, 0xFF, 0x7F, 0x00, 0x00, 0xFF, 0x7F]) == Ok([[0.0, 1.0], [0.0, 1.0]])
  {
    var bytes: seq<Byte> := [0x00, 0x00, 0xFF, 0x7F, 0x00, 0x00, 0xFF, 0x7F];
    var samples := DecodeSamples(bytes);
    assert samples == [0, 32767, 0, 32767] by {
      DecodeSamplesAt(bytes);
    }
    var heights := NormalizeAll(samples);
    assert heights == [0.0, 1.0, 0.0, 1.0];
    SquareOfFour(heights);
  }

  /** A trailing odd byte is a sample of its own: `34 12 07` decodes to the
      samples 0x1234 and 7. */
  lemma OddTrailingByte()
    ensures DecodeSamples([0x34, 0x12, 0x07]) == [0x1234, 0x07]
  {
  }

  /** Height 0.0 is written as `00 00` and height 1.0 as `FF 7F`; a height of
      -1.0 raises OverflowError on the sample -32767 before anything of it is
      written. */
  lemma ReverseMapping()
    ensures ExrToRawBytes(Plane([[0.0, 1.0]])) == Written([0x00, 0x00, 0xFF, 0x7F], Pass)
    ensures ExrToRawBytes(Plane([[0.0, -1.0]])) == Written([0x00, 0x00], Fail(OverflowError(-32767)))
  {
  }
}
