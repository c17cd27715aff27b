# unity-raw-to-exr: the integer data path, in Dafny

`src/unity_raw_to_exr.py` converts a Unity terrain heightmap between two
forms. One is a headerless `.raw` / `.r16` file of unsigned 16-bit
little-endian samples. The other is a single-channel float `.exr` image.

- `raw_to_exr` reads the file two bytes at a time. Each chunk becomes an
  unsigned integer, is divided by 32767 and is appended to a list of heights.
  The loop also keeps a running minimum and maximum. The list is then
  reshaped into an `N x N` grid with `N = int(sqrt(count))`.
- `exr_to_raw` keeps channel 0 of a 3-dimensional image and flattens the
  image row by row. Each height is multiplied by 32767 and truncated toward
  zero, and each sample is written as two little-endian bytes.

This project models that core on in-memory data:

- `common.dfy` (`Common`) holds the byte type, the error kinds
  (ShapeError, OverflowError, ChannelIndexError) and the result types.
- `normalization.dfy` (`Normalization`) holds division by 32767, Python's
  truncating `int()` and quantisation. Heights are exact `real`s.
- `sample_codec.dfy` (`SampleCodec`) holds the specification functions of the
  two loops. `DecodeSamples` is what the read loop appends. `EncodeStream` is
  what the write loop leaves in the file, together with how the loop ends.
  The lemmas here cover the byte layout and both round trips.
- `grid.dfy` (`Grid`) holds the integer square root, numpy's row-major
  `reshape` and `flatten`, and the channel-0 slice.
- `converter.dfy` (`Converter`) holds the two loops as methods with loop
  invariants (`DecodeRaw`, `EncodeRaw`), each conversion as a whole
  (`RawToExr`, `ExrToRaw`), and worked examples (`TwoSamplesRejected`,
  `FourSamplesGrid`, `OddTrailingByte`, `ReverseMapping`).

Behaviour of the code worth knowing:

- In a file of odd length, `file.read(2)` returns the last single byte, and
  the loop decodes it as one more sample whose value is that byte
  (`OddTrailingByte`).
- Samples range over 0..65535, so heights range over [0, 65535/32767].
- A quantised value outside 0..65535 makes `to_bytes` raise OverflowError.
  The bytes written before that sample stay in the file, so `EncodeStream`
  returns those bytes together with the failure.

## Model

| member | source | states |
|---|---|---|
| Normalization.Trunc | src/unity_raw_to_exr.py:90 | `int(x)` truncates toward zero: for x >= 0 the result r satisfies 0 <= r <= x < r + 1; for x < 0 it satisfies r - 1 < x <= r <= 0 |
| Normalization.NormalizeRange | src/unity_raw_to_exr.py:11-15 | every sample in 0..65535 has a height in [0, 65535/32767]; that height is below the initial running minimum 32767 |
| Normalization.QuantizeFitsIff | src/unity_raw_to_exr.py:90-93 | the quantised value fits in two unsigned bytes iff -1 < f * 32767 < 65536; slightly negative heights truncate to 0 and are still written |
| SampleCodec.ChunkLength | src/unity_raw_to_exr.py:24-44 | `file.read(2)` returns two bytes, or one byte when exactly one is left; it never reads past the end |
| SampleCodec.ChunkValue | src/unity_raw_to_exr.py:29 | `int.from_bytes(..., "little")` maps a chunk `b0 b1` to `b0 + 256*b1` and a chunk `b0` to `b0` |
| SampleCodec.DecodeStep | src/unity_raw_to_exr.py:24-44 | from any offset, the next chunk's value is the next sample and the rest of the stream follows it, so values are only appended in order |
| SampleCodec.DecodeSamplesAt | src/unity_raw_to_exr.py:24-44 | decoding n bytes yields ceil(n/2) samples; sample i is `bytes[2i] + 256*bytes[2i+1]`; a trailing odd byte is a last sample equal to that byte |
| SampleCodec.DecodeSamplesFit | src/unity_raw_to_exr.py:29 | every decoded sample lies in 0..65535 |
| SampleCodec.FirstOverflow | src/unity_raw_to_exr.py:88-93 | the index of the first sample outside 0..65535; every sample before it fits |
| SampleCodec.EncodeStreamAt | src/unity_raw_to_exr.py:88-96 | the write loop writes 2 bytes per sample, `S % 256` then `S / 256`, up to the first sample that does not fit; it succeeds iff every sample fits, and otherwise fails with OverflowError on that sample |
| SampleCodec.DecodeEncode | src/unity_raw_to_exr.py:29-44 | reading back the bytes the write loop left gives exactly the samples it wrote, in order |
| SampleCodec.RoundTrip | src/unity_raw_to_exr.py:93 | samples that all fit are written completely, as 2 * count bytes, and decode back to the same samples |
| SampleCodec.EncodeDecode | src/unity_raw_to_exr.py:29 | a stream of even length, decoded and then encoded, gives the same bytes and succeeds |
| Grid.IsqrtBounds | src/unity_raw_to_exr.py:48 | the side `Isqrt(n)` is the floor of the square root: side² <= n < (side+1)² |
| Grid.IsqrtUnique | src/unity_raw_to_exr.py:48 | only one side satisfies those bounds |
| Grid.PerfectSquareIff | src/unity_raw_to_exr.py:48-51 | `Isqrt(n)² == n` iff n is a perfect square |
| Grid.RowsShape | src/unity_raw_to_exr.py:51 | the row-major reshape of rows * cols values has `rows` rows of `cols` cells |
| Grid.RowsCell | src/unity_raw_to_exr.py:51 | cell (r, c) of the row-major reshape is flat element `r * cols + c` |
| Grid.SquareReshapeOk | src/unity_raw_to_exr.py:48-51 | `reshape(N, N)` with N = `int(sqrt(count))` succeeds iff the count is a perfect square (some k with k*k == count); otherwise it is a ShapeError carrying the count, never a truncation |
| Grid.SquareReshapeAt | src/unity_raw_to_exr.py:48-51 | a successful square reshape is an N x N grid with `grid[r][c] == flat[r*N + c]` |
| Grid.RowsMembers | src/unity_raw_to_exr.py:51 | every cell of a reshape is an element of the flat sequence |
| Grid.SquareReshapeCells | src/unity_raw_to_exr.py:51 | every cell of a successful square reshape is an element of the flat sequence |
| Grid.FlattenLength | src/unity_raw_to_exr.py:76 | flattening a rows x cols grid gives rows * cols values |
| Grid.FlattenRows | src/unity_raw_to_exr.py:51 | `flatten(reshape(xs, rows, cols)) == xs` |
| Grid.RowsFlatten | src/unity_raw_to_exr.py:76 | `reshape(flatten(g), rows, cols) == g` for a rows x cols grid |
| Grid.FlattenAt | src/unity_raw_to_exr.py:76 | the row-major flatten puts cell (r, c) at position `r * cols + c` |
| Grid.FlattenMembers | src/unity_raw_to_exr.py:76 | a value is in the flattened grid iff it is in one of the rows |
| Grid.SquareReshapeFlatten | src/unity_raw_to_exr.py:48-51 | the square reshape of a flattened N x N grid gives the grid back |
| Grid.SquareOfFour | src/unity_raw_to_exr.py:48-51 | four values reshape into `[[h0, h1], [h2, h3]]` |
| Grid.FirstChannel | src/unity_raw_to_exr.py:71-73 | a 2-dimensional image is used unchanged; for a 3-dimensional one, `result[r][c] == data[r][c][0]` with the same shape; an image with no channel fails with ChannelIndexError |
| Converter.DecodeRaw | src/unity_raw_to_exr.py:14-44 | the read loop returns the heights of `DecodeSamples(bytes)`, in order; on non-empty input the running minimum and maximum are heights that bound every height; on empty input they stay 32767 and -1 |
| Converter.ExtremesStep | src/unity_raw_to_exr.py:35-38 | the two comparisons keep the running minimum and maximum for any new height in [0, 32767) |
| Converter.ChunkFits | src/unity_raw_to_exr.py:24-29 | a chunk of one or two bytes holds a value in 0..65535 |
| Converter.RawToExr | src/unity_raw_to_exr.py:9-51 | `raw_to_exr` returns the square grid of `RawToExrGrid` or its ShapeError; the reported minimum and maximum are heights of the decoded stream that bound every height (32767 and -1 when the stream is empty), so every cell of the grid lies between them |
| Converter.RawToExrSpec | src/unity_raw_to_exr.py:21-51 | the conversion succeeds iff ceil(len/2) == N*N for N = Isqrt(ceil(len/2)), and otherwise fails with ShapeError(ceil(len/2)); on success the grid is N x N and its rows, one after another, are the heights of the decoded samples |
| Converter.EncodeRaw | src/unity_raw_to_exr.py:86-96 | the write loop returns the bytes and outcome of `EncodeStream` over the quantised heights |
| Converter.ExrToRaw | src/unity_raw_to_exr.py:67-96 | `exr_to_raw` selects channel 0, flattens and runs the write loop, with the result of `ExrToRawBytes` |
| Converter.ExrToRawSpec | src/unity_raw_to_exr.py:71-96 | nothing is written when channel 0 does not exist; otherwise 2 bytes are written per quantised height in row-major order up to the first that does not fit; those bytes read back as those samples; the conversion succeeds iff all samples fit |
| Converter.ChannelReduction | src/unity_raw_to_exr.py:71-76 | a layered image is written exactly like the single-channel image made of its channel 0 |
| Converter.GridRoundTrip | src/unity_raw_to_exr.py:29-51 | an N x N grid of samples in 0..65535, flattened and written, then read back and square-reshaped, is the same grid, and the write succeeds |
| Converter.TwoSamplesRejected | src/unity_raw_to_exr.py:48-51 | the stream `00 00 FF 7F` (2 samples) fails with ShapeError(2) |
| Converter.FourSamplesGrid | src/unity_raw_to_exr.py:21-51 | the stream `00 00 FF 7F 00 00 FF 7F` becomes the grid `[[0.0, 1.0], [0.0, 1.0]]` |
| Converter.OddTrailingByte | src/unity_raw_to_exr.py:24-44 | `34 12 07` decodes to the samples 0x1234 and 7: the odd byte is decoded, not dropped |
| Converter.ReverseMapping | src/unity_raw_to_exr.py:88-96 | height 0.0 is written as `00 00` and 1.0 as `FF 7F`; a height of -1.0 stops the write with OverflowError(-32767) after the bytes already written |

## Left out

- File opening, reading and writing are not modelled. Nor are `imageio.v2.imread` / `imwrite` and the freeimage plugin download. The methods take the byte stream or the image as a value and return the bytes or the grid.
- The command-line entry point is not modelled: the argument count, the file-existence check and the dispatch on `.raw` / `.r16` / `.exr`. It is glue around the two conversions.
- The default output names (`Path.with_suffix`) are not modelled: they are a library call with no logic of their own.
- The statistics lines are not modelled. Their min/max values are returned by `DecodeRaw` and `RawToExr`, but their formatting is not. The `np.min` / `np.max` statistics of `exr_to_raw` are left out.
- Float semantics are not modelled. Heights are exact reals, so `S / 32767`, the `astype("float32")` narrowing and `f * 32767` have no rounding. The model makes no claim that decode then encode returns S: with float32 narrowing and truncation the code can return S - 1.
- The warning `exr_to_raw` prints before reducing a 3-dimensional image to channel 0 (line 72) is not modelled: it is console output only; the reduction itself is `Grid.FirstChannel`.
- NaN and infinite heights are not modelled. `int()` raises on them in the source, and reals have no such values.
- Grid.Isqrt: models the exact integer square root. The source computes `int(math.sqrt(count))` in double precision, which agrees for every count below 2^52.
- Image shapes other than 2- or 3-dimensional are not modelled, because `imread` does not return them. Rows of a 2-dimensional `Plane` are not forced to have equal length.
- An empty raw file reshapes to an empty 0 x 0 grid, as numpy does. What the image writer then does with it is outside the model.
- Converter.ExrToRaw: returns no bytes when channel 0 is missing. The model does not distinguish "no file was created" from "an empty file".
