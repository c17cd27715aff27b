/** The integer data path of the converter: a raw file is a stream of
    unsigned little-endian samples, read two bytes at a time and written two
    bytes per sample. The functions here say what the two loops of the
    converter compute; the loops themselves are in module Converter. */
module SampleCodec {
  import opened Common

  /** `int.from_bytes(chunk, byteorder="little")`: the first byte is the
      least significant. */
  function FromBytesLittle(chunk: seq<Byte>): nat
  {
    if chunk == [] then 0 else chunk[0] + 256 * FromBytesLittle(chunk[1..])
  }

  /** The length of the chunk `file.read(2)` returns at offset `pos`: two
      bytes, or the single byte left at the end of an odd-length file. */
  function ChunkLength(bytes: seq<Byte>, pos: nat): (k: nat)
    requires pos < |bytes|
    ensures 1 <= k <= 2 && pos + k <= |bytes|
    ensures k == 1 <==> pos + 1 == |bytes|
  {
    if pos + 2 <= |bytes| then 2 else 1
  }

  /** The samples the read loop appends, in file order: one per two-byte
      chunk, plus one for a trailing odd byte. */
  function DecodeSamples(bytes: seq<Byte>): seq<int>
    decreases |bytes|
  {
    if bytes == [] then []
    else
      var k := ChunkLength(bytes, 0);
      [FromBytesLittle(bytes[..k])] + DecodeSamples(bytes[k..])
  }

  /** Reading on from offset `pos`: the chunk there is the next sample, and
      the rest of the stream follows it. */
  lemma DecodeStep(bytes: seq<Byte>, pos: nat)
    requires pos < |bytes|
    ensures var k := ChunkLength(bytes, pos);
      DecodeSamples(bytes[pos..]) ==
        [FromBytesLittle(bytes[pos..pos + k])] + DecodeSamples(bytes[pos + k..])
  {
    var k := ChunkLength(bytes, pos);
    assert ChunkLength(bytes[pos..], 0) == k;
    assert bytes[pos..][..k] == bytes[pos..pos + k] && bytes[pos..][k..] == bytes[pos + k..];
  }

  /** A value `to_bytes(2, ...)` accepts. */
  predicate Fits(s: int)
  {
    0 <= s <= 65535
  }

  /** `s.to_bytes(2, byteorder="little")`: low byte first; a value outside
      0..65535 raises OverflowError rather than wrapping. */
  function ToBytes2(s: int): Result<seq<Byte>>
  {
    if Fits(s) then Ok([s % 256, s / 256]) else Err(OverflowError(s))
  }

  /** What the write loop leaves behind: the bytes already in the file, and
      whether the loop ran to the end or stopped at an error. */
  datatype Written = Written(bytes: seq<Byte>, outcome: Outcome)

  /** The write loop over a sequence of samples: each sample's two bytes are
      appended in order; the first sample that does not fit stops the loop,
      and the bytes written before it stay in the file. */
  function EncodeStream(samples: seq<int>): Written
  {
    if samples == [] then Written([], Pass)
    else
      match ToBytes2(samples[0])
      case Err(e) => Written([], Fail(e))
      case Ok(b) =>
        var rest := EncodeStream(samples[1..]);
        Written(b + rest.bytes, rest.outcome)
  }

  /** The index of the first sample that does not fit in two bytes, or the
      length when every sample fits. */
  function FirstOverflow(samples: seq<int>): (k: nat)
    ensures k <= |samples|
    ensures forall i :: 0 <= i < k ==> Fits(samples[i])
    ensures k < |samples| ==> !Fits(samples[k])
  {
    if samples == [] || !Fits(samples[0]) then 0 else 1 + FirstOverflow(samples[1..])
  }

  /** A two-byte chunk is the sample `b0 + 256 * b1`; a one-byte chunk is
      the sample `b0`. */
  lemma ChunkValue(b0: Byte, b1: Byte)
    ensures FromBytesLittle([b0, b1]) == b0 as int + 256 * b1 as int
    ensures FromBytesLittle([b0]) == b0
  {
    assert [b0, b1][1..] == [b1];
    assert FromBytesLittle([b1]) == b1 as int + 256 * FromBytesLittle([]);
  }

  /** Decoding yields ceil(n / 2) samples; sample i comes from bytes 2i and
      2i+1, and a trailing odd byte is a sample of its own. */
  lemma {:induction false} DecodeSamplesAt(bytes: seq<Byte>)
    ensures |DecodeSamples(bytes)| == (|bytes| + 1) / 2
    ensures forall i :: 0 <= i < |bytes| / 2 ==>
      DecodeSamples(bytes)[i] == bytes[2 * i] as int + 256 * bytes[2 * i + 1] as int
    ensures |bytes| % 2 == 1 ==> DecodeSamples(bytes)[|bytes| / 2] == bytes[|bytes| - 1]
  {
    if |bytes| == 1 {
      ChunkValue(bytes[0], 0);
      assert bytes[..1] == [bytes[0]];
    } else if |bytes| >= 2 {
      var rest := bytes[2..];
      DecodeSamplesAt(rest);
      ChunkValue(bytes[0], bytes[1]);
      assert bytes[..2] == [bytes[0], bytes[1]];
      var d := DecodeSamples(bytes);
      assert d == [bytes[0] as int + 256 * bytes[1] as int] + DecodeSamples(rest);
      forall i | 0 <= i < |bytes| / 2
        ensures d[i] == bytes[2 * i] as int + 256 * bytes[2 * i + 1] as int
      {
        if i > 0 {
          assert d[i] == DecodeSamples(rest)[i - 1];
          assert rest[2 * (i - 1)] == bytes[2 * i];
          assert rest[2 * (i - 1) + 1] == bytes[2 * i + 1];
        }
      }
      if |bytes| % 2 == 1 {
        assert d[|bytes| / 2] == DecodeSamples(rest)[|rest| / 2];
      }
    }
  }

  /** Every decoded sample is an unsigned 16-bit value. */
  lemma DecodeSamplesFit(bytes: seq<Byte>)
    ensures forall i :: 0 <= i < |DecodeSamples(bytes)| ==> Fits(DecodeSamples(bytes)[i])
  {
    DecodeSamplesAt(bytes);
    var d := DecodeSamples(bytes);
    forall i | 0 <= i < |d| ensures Fits(d[i]) {
      if i < |bytes| / 2 {
        assert d[i] == bytes[2 * i] as int + 256 * bytes[2 * i + 1] as int;
      } else {
        assert d[i] == bytes[|bytes| - 1];
      }
    }
  }

  /** The write loop writes exactly the samples before the first one that
      does not fit, two bytes each, low byte first; it succeeds exactly when
      every sample fits, and otherwise fails with that first sample. */
  lemma {:induction false} EncodeStreamAt(samples: seq<int>)
    ensures |EncodeStream(samples).bytes| == 2 * FirstOverflow(samples)
    ensures forall i :: 0 <= i < FirstOverflow(samples) ==>
      EncodeStream(samples).bytes[2 * i] == samples[i] % 256 &&
      EncodeStream(samples).bytes[2 * i + 1] == samples[i] / 256
    ensures EncodeStream(samples).outcome ==
      if FirstOverflow(samples) == |samples| then Pass
      else Fail(OverflowError(samples[FirstOverflow(samples)]))
  {
    if samples != [] && Fits(samples[0]) {
      var tail := samples[1..];
      EncodeStreamAt(tail);
      var w := EncodeStream(samples);
      var b := [samples[0] % 256, samples[0] / 256];
      assert w.bytes == b + EncodeStream(tail).bytes;
      forall i | 0 <= i < FirstOverflow(samples)
        ensures w.bytes[2 * i] == samples[i] % 256 && w.bytes[2 * i + 1] == samples[i] / 256
      {
        if i > 0 {
          assert w.bytes[2 * i] == EncodeStream(tail).bytes[2 * (i - 1)];
          assert w.bytes[2 * i + 1] == EncodeStream(tail).bytes[2 * (i - 1) + 1];
          assert tail[i - 1] == samples[i];
        }
      }
    }
  }

  /** Reading back what the write loop left in the file gives the samples
      it managed to write, in order. */
  lemma {:induction false} DecodeEncode(samples: seq<int>)
    ensures DecodeSamples(EncodeStream(samples).bytes) == samples[..FirstOverflow(samples)]
  {
    if samples != [] && Fits(samples[0]) {
      var tail := samples[1..];
      DecodeEncode(tail);
      var b: seq<Byte> := [samples[0] % 256, samples[0] / 256];
      var bytes := b + EncodeStream(tail).bytes;
      assert bytes[..2] == b && bytes[2..] == EncodeStream(tail).bytes;
      ChunkValue(b[0], b[1]);
      assert samples[..FirstOverflow(samples)] == [samples[0]] + tail[..FirstOverflow(tail)];
    }
  }

  /** The integer round trip: samples that all fit are written completely
      and read back unchanged. */
  lemma RoundTrip(samples: seq<int>)
    requires forall i :: 0 <= i < |samples| ==> Fits(samples[i])
    ensures EncodeStream(samples).outcome == Pass
    ensures |EncodeStream(samples).bytes| == 2 * |samples|
    ensures DecodeSamples(EncodeStream(samples).bytes) == samples
  {
    EncodeStreamAt(samples);
    DecodeEncode(samples);
    assert samples[..|samples|] == samples;
  }

  /** The other direction: a file of even length, decoded and written again,
      is the same file. */
  lemma {:induction false} EncodeDecode(bytes: seq<Byte>)
    requires |bytes| % 2 == 0
    ensures EncodeStream(DecodeSamples(bytes)) == Written(bytes, Pass)
  {
    if bytes != [] {
      var rest := bytes[2..];
      EncodeDecode(rest);
      ChunkValue(bytes[0], bytes[1]);
      assert bytes[..2] == [bytes[0], bytes[1]];
      var s := bytes[0] as int + 256 * bytes[1] as int;
      assert DecodeSamples(bytes) == [s] + DecodeSamples(rest);
      assert ([s] + DecodeSamples(rest))[1..] == DecodeSamples(rest);
      assert s % 256 == bytes[0] && s / 256 == bytes[1];
      assert bytes == [bytes[0], bytes[1]] + rest;
    }
  }
}
