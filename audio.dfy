/**
 * Raw audio as it travels between the streaming client and the server:
 * 16-bit signed mono PCM samples, their little-endian byte image, and the
 * concatenation of byte chunks.
 */
module Audio {

  /** One byte of a `bytes` / `bytearray` value. */
  type byte = x: int | 0 <= x < 256

  /** One sample of the capture stream (`dtype='int16'`, one channel). */
  type int16 = x: int | -32768 <= x < 32768

  /** Sample rate of the capture stream and of the server's WAV segments. */
  const SampleRate: nat := 16000

  /** Bytes per 16-bit sample. */
  const BytesPerSample: nat := 2

  /** A value that may be missing: an absent dictionary entry, a call that was not made. */
  datatype Option<T> = None | Some(value: T)

  /** The two-byte little-endian two's-complement image of one sample. */
  function SampleToBytes(x: int16): (r: seq<byte>)
    ensures |r| == 2
  {
    var u := if x < 0 then x + 65536 else x;
    [u % 256, u / 256]
  }

  /** The sample whose little-endian image is `lo, hi`. */
  function BytesToSample(lo: byte, hi: byte): (x: int16)
  {
    var u := lo + 256 * hi;
    if u >= 32768 then u - 65536 else u
  }

  /** `indata.tobytes()`: the samples of one captured block, laid out byte by byte. */
  function ToBytes(samples: seq<int16>): (r: seq<byte>)
    ensures |r| == BytesPerSample * |samples|
  {
    if samples == [] then [] else SampleToBytes(samples[0]) + ToBytes(samples[1..])
  }

  /** Reads a byte string of even length back as samples. */
  function FromBytes(bytes: seq<byte>): (r: seq<int16>)
    requires |bytes| % 2 == 0
    ensures BytesPerSample * |r| == |bytes|
  {
    if bytes == [] then [] else [BytesToSample(bytes[0], bytes[1])] + FromBytes(bytes[2..])
  }

  lemma SampleRoundTrip(x: int16)
    ensures var b := SampleToBytes(x); BytesToSample(b[0], b[1]) == x
  {
  }

  lemma BytesRoundTrip(lo: byte, hi: byte)
    ensures SampleToBytes(BytesToSample(lo, hi)) == [lo, hi]
  {
  }

  /** Reading back the bytes of a block gives the block. */
  lemma {:induction false} FromToBytes(samples: seq<int16>)
    ensures FromBytes(ToBytes(samples)) == samples
  {
    if samples != [] {
      var b := SampleToBytes(samples[0]);
      SampleRoundTrip(samples[0]);
      assert ToBytes(samples)[..2] == b;
      assert ToBytes(samples)[2..] == ToBytes(samples[1..]);
      FromToBytes(samples[1..]);
    }
  }

  /** Every even-length byte string is the image of exactly the samples read from it. */
  lemma {:induction false} ToFromBytes(bytes: seq<byte>)
    requires |bytes| % 2 == 0
    ensures ToBytes(FromBytes(bytes)) == bytes
  {
    if bytes != [] {
      BytesRoundTrip(bytes[0], bytes[1]);
      ToFromBytes(bytes[2..]);
      assert bytes == [bytes[0], bytes[1]] + bytes[2..];
    }
  }

  /** The image of consecutive samples is the concatenation of their images. */
  lemma {:induction false} ToBytesAppend(a: seq<int16>, b: seq<int16>)
    ensures ToBytes(a + b) == ToBytes(a) + ToBytes(b)
  {
    if a != [] {
      assert (a + b)[1..] == a[1..] + b;
      ToBytesAppend(a[1..], b);
    } else {
      assert a + b == b;
    }
  }

  /** The byte concatenation of chunks, in order. */
  function Flatten(chunks: seq<seq<byte>>): (r: seq<byte>)
  {
    if chunks == [] then [] else Flatten(chunks[..|chunks| - 1]) + chunks[|chunks| - 1]
  }

  lemma {:induction false} FlattenAppend(a: seq<seq<byte>>, b: seq<seq<byte>>)
    ensures Flatten(a + b) == Flatten(a) + Flatten(b)
  {
    if b == [] {
      assert a + b == a;
    } else {
      var last := b[|b| - 1];
      assert (a + b)[..|a + b| - 1] == a + b[..|b| - 1];
      FlattenAppend(a, b[..|b| - 1]);
    }
  }

  // ---------------------------------------------------------------------
  // Arithmetic and sequence facts used by both ends

  /** Quotient and remainder are determined by `x == q * d + r` with `0 <= r < d`. */
  lemma DivModUnique(x: int, d: int, q: int, r: int)
    requires d > 0 && 0 <= r < d && x == q * d + r
    ensures x / d == q && x % d == r
  {
    var k, m := x / d, x % d;
    assert x == k * d + m && 0 <= m < d;
    if q > k {
      assert (q - k) * d == q * d - k * d;
      AtLeastOneMultiple(q - k, d);
    } else if q < k {
      assert (k - q) * d == k * d - q * d;
      AtLeastOneMultiple(k - q, d);
    }
  }

  /** A positive multiple of `d` is at least `d`. */
  lemma {:induction false} AtLeastOneMultiple(a: int, d: int)
    requires a >= 1 && d > 0
    ensures a * d >= d
    decreases a
  {
    if a > 1 {
      AtLeastOneMultiple(a - 1, d);
      assert a * d == (a - 1) * d + d;
    }
  }

  lemma SliceSplit<T>(s: seq<T>, i: nat, j: nat, k: nat)
    requires i <= j <= k <= |s|
    ensures s[i..k] == s[i..j] + s[j..k]
  {
  }
}
