/**
 * The LC3 container file: an 18-byte header of nine little-endian 16-bit
 * fields, followed by frames, each a 2-byte little-endian length and that
 * many encoded bytes. The parameters both playback modules derive from the
 * header are defined here with the C integer rules made explicit.
 */
module Lc3Header {
  import opened Common

  const HeaderSize: nat := 18

  /**
   * The header fields in file order. `fileId` is documented as 0xCC1C and
   * `hdrSize` as 0x0012, but no code compares either against anything.
   */
  datatype Header = Header(
    fileId: nat,
    hdrSize: nat,
    sampleRate: nat,      // sample frequency / 100
    bitRate: nat,         // bit rate / 100
    channels: nat,
    frameMs: nat,         // frame duration in ms * 100
    rfu: nat,
    signalLenLsb: nat,    // sample count, low 16 bits
    signalLenMsb: nat)    // sample count, high 16 bits

  /** Every field fits its `uint16_t`. */
  predicate Fields16(h: Header)
  {
    && h.fileId < U16Modulus && h.hdrSize < U16Modulus && h.sampleRate < U16Modulus
    && h.bitRate < U16Modulus && h.channels < U16Modulus && h.frameMs < U16Modulus
    && h.rfu < U16Modulus && h.signalLenLsb < U16Modulus && h.signalLenMsb < U16Modulus
  }

  /** The `k`-th 16-bit little-endian field of a byte string. */
  function Field(b: seq<byte>, k: nat): nat
    requires 2 * k + 1 < |b|
  {
    LeU16(b[2 * k], b[2 * k + 1])
  }

  /** The header struct as the bytes read into it are interpreted. */
  function Decode(b: seq<byte>): (h: Header)
    requires |b| == HeaderSize
    ensures Fields16(h)
  {
    Header(Field(b, 0), Field(b, 1), Field(b, 2), Field(b, 3), Field(b, 4),
           Field(b, 5), Field(b, 6), Field(b, 7), Field(b, 8))
  }

  /** The bytes an encoder writes for a header. */
  function Encode(h: Header): (b: seq<byte>)
    requires Fields16(h)
    ensures |b| == HeaderSize
  {
    U16Bytes(h.fileId) + U16Bytes(h.hdrSize) + U16Bytes(h.sampleRate)
    + U16Bytes(h.bitRate) + U16Bytes(h.channels) + U16Bytes(h.frameMs)
    + U16Bytes(h.rfu) + U16Bytes(h.signalLenLsb) + U16Bytes(h.signalLenMsb)
  }

  lemma DecodeEncode(h: Header)
    requires Fields16(h)
    ensures Decode(Encode(h)) == h
  {
    var b := Encode(h);
    assert b[0..2] == U16Bytes(h.fileId);
  }

  lemma EncodeDecode(b: seq<byte>)
    requires |b| == HeaderSize
    ensures Encode(Decode(b)) == b
  {
    var e := Encode(Decode(b));
    forall k | 0 <= k < 9
      ensures U16Bytes(Field(b, k)) == b[2 * k..2 * k + 2]
    {
      LeU16Inverse(b[2 * k], b[2 * k + 1]);
    }
    assert b == b[0..2] + b[2..4] + b[4..6] + b[6..8] + b[8..10]
              + b[10..12] + b[12..14] + b[14..16] + b[16..18];
  }

  // ---------------------------------------------------------------------
  // Derived parameters

  /** `2 * sample_rate * frame_ms` is evaluated in C `int`: defined only below INT_MAX. */
  predicate FrameSizeDefined(h: Header)
  {
    2 * h.sampleRate * h.frameMs <= IntMax
  }

  /**
   * The mono PCM frame size in bytes: two bytes per sample of one frame,
   * truncated to the `uint16_t` it is stored in.
   */
  function PcmFrameSize(h: Header): (r: nat)
    requires FrameSizeDefined(h)
    ensures r < U16Modulus
    ensures (2 * h.sampleRate * h.frameMs / 1000 - r) % U16Modulus == 0
    ensures 2 * h.sampleRate * h.frameMs < 1000 * U16Modulus ==>
              r * 1000 <= 2 * h.sampleRate * h.frameMs < r * 1000 + 1000
  {
    ToU16(2 * h.sampleRate * h.frameMs / 1000)
  }

  /** The 32-bit sample count the two halves describe. */
  function SignalSamples(h: Header): nat
  {
    h.signalLenMsb * U16Modulus + h.signalLenLsb
  }

  /**
   * sd_card_playback evaluates `2 * ((msb << 16) + lsb) / pcm_frame_size`
   * entirely in `int`: defined only without overflow and with a non-zero divisor.
   */
  predicate SdFrameCountDefined(h: Header)
  {
    && FrameSizeDefined(h)
    && PcmFrameSize(h) > 0
    && 2 * SignalSamples(h) <= IntMax
  }

  /** Number of frames per sd_card_playback, truncated to `uint16_t`. */
  function SdFramesNum(h: Header): (n: nat)
    requires SdFrameCountDefined(h)
    ensures n < U16Modulus
  {
    ToU16(2 * SignalSamples(h) / PcmFrameSize(h))
  }

  /**
   * When the quotient fits in 16 bits, the frame count is the number of
   * whole PCM frames the signal's bytes fill: the last partial frame is
   * dropped.
   */
  lemma SdFramesNumFloor(h: Header)
    requires SdFrameCountDefined(h)
    requires 2 * SignalSamples(h) < PcmFrameSize(h) * U16Modulus
    ensures SdFramesNum(h) * PcmFrameSize(h) <= 2 * SignalSamples(h)
    ensures 2 * SignalSamples(h) < (SdFramesNum(h) + 1) * PcmFrameSize(h)
  {
    TruncatedQuotient(2 * SignalSamples(h), PcmFrameSize(h), SdFramesNum(h));
  }

  lemma TruncatedQuotient(a: nat, p: nat, n: nat)
    requires p > 0 && a < p * U16Modulus
    requires n == ToU16(a / p)
    ensures n * p <= a < (n + 1) * p
  {
    DivBounds(a, p, U16Modulus);
  }

  /**
   * lc3_playback evaluates `(msb << 16) + lsb` in `int` (so `msb` must keep
   * the shift in range), stores it in a `uint32_t`, and doubles it in
   * unsigned 32-bit arithmetic.
   */
  predicate Lc3FrameCountDefined(h: Header)
  {
    && FrameSizeDefined(h)
    && PcmFrameSize(h) > 0
    && SignalSamples(h) <= IntMax
  }

  /** `num_samples`, the `uint32_t` sample count of lc3_playback. */
  function NumSamples(h: Header): (n: nat)
    requires Lc3FrameCountDefined(h)
    ensures n == SignalSamples(h)
  {
    ToU32(SignalSamples(h))
  }

  /** Number of frames per lc3_playback, truncated to `uint16_t`. */
  function Lc3FramesNum(h: Header): (n: nat)
    requires Lc3FrameCountDefined(h)
    ensures n < U16Modulus
  {
    ToU16(ToU32(2 * NumSamples(h)) / PcmFrameSize(h))
  }

  /**
   * Wherever sd_card_playback's formula is defined, lc3_playback's is too,
   * and the two modules count the same frames: the unsigned wrap-around of
   * lc3_playback never happens for a sample count C `int` can shift.
   */
  lemma FrameCountVariantsAgree(h: Header)
    requires SdFrameCountDefined(h)
    ensures Lc3FrameCountDefined(h)
    ensures Lc3FramesNum(h) == SdFramesNum(h)
  {
  }

  /** The header an encoder writes for `frames` frames at the given rate and frame duration. */
  function HeaderFor(sampleRate: nat, frameMs: nat, frames: nat): (h: Header)
    requires sampleRate < U16Modulus && frameMs < U16Modulus
    requires frames * (sampleRate * frameMs / 1000) < U16Modulus * U16Modulus
    ensures Fields16(h)
    ensures SignalSamples(h) == frames * (sampleRate * frameMs / 1000)
  {
    var samples := frames * (sampleRate * frameMs / 1000);
    Header(0xCC1C, HeaderSize, sampleRate, 0, 1, frameMs, 0,
           samples % U16Modulus, samples / U16Modulus)
  }

  /**
   * Round trip from frames to header and back: when a frame holds a whole
   * number of samples, the frame count sd_card_playback derives from the
   * header of `frames` frames is exactly `frames`.
   */
  lemma {:induction false} HeaderForRoundTrip(sampleRate: nat, frameMs: nat, frames: nat)
    requires sampleRate < U16Modulus && frameMs < U16Modulus
    requires (sampleRate * frameMs) % 1000 == 0 && sampleRate * frameMs > 0
    requires 2 * sampleRate * frameMs <= IntMax
    requires 2 * frames * (sampleRate * frameMs / 1000) <= IntMax
    requires 2 * (sampleRate * frameMs / 1000) < U16Modulus
    requires frames < U16Modulus
    ensures SdFrameCountDefined(HeaderFor(sampleRate, frameMs, frames))
    ensures PcmFrameSize(HeaderFor(sampleRate, frameMs, frames)) == 2 * (sampleRate * frameMs / 1000)
    ensures SdFramesNum(HeaderFor(sampleRate, frameMs, frames)) == frames
  {
    var spf := sampleRate * frameMs / 1000;
    var h := HeaderFor(sampleRate, frameMs, frames);
    assert sampleRate * frameMs == spf * 1000;
    assert 2 * sampleRate * frameMs == (2 * spf) * 1000;
    MulDivExact(2 * spf, 1000);
    assert 2 * spf < U16Modulus;
    assert PcmFrameSize(h) == 2 * spf;
    assert 2 * SignalSamples(h) == frames * (2 * spf);
    MulDivExact(frames, 2 * spf);
  }

  // ---------------------------------------------------------------------
  // Frame stream

  predicate LengthsFit(frames: seq<seq<byte>>)
  {
    forall i | 0 <= i < |frames| :: |frames[i]| < U16Modulus
  }

  /** Each frame as its 2-byte length followed by its bytes, in order. */
  function EncodeFrames(frames: seq<seq<byte>>): (b: seq<byte>)
    requires LengthsFit(frames)
    ensures |b| == StreamSize(frames)
  {
    if frames == [] then []
    else U16Bytes(|frames[0]|) + frames[0] + EncodeFrames(frames[1..])
  }

  /** Bytes the frames occupy in the file: 2 + length for each. */
  function StreamSize(frames: seq<seq<byte>>): nat
  {
    if frames == [] then 0 else 2 + |frames[0]| + StreamSize(frames[1..])
  }

  /** A non-empty stream is its first frame's prefix and bytes, then the rest of the stream. */
  lemma EncodeFramesHead(frames: seq<seq<byte>>)
    requires LengthsFit(frames) && frames != []
    ensures LengthsFit(frames[1..])
    ensures EncodeFrames(frames) == U16Bytes(|frames[0]|) + frames[0] + EncodeFrames(frames[1..])
    ensures StreamSize(frames) == |U16Bytes(|frames[0]|)| + |frames[0]| + |EncodeFrames(frames[1..])|
  {
    assert forall i | 0 <= i < |frames[1..]| :: frames[1..][i] == frames[i + 1];
  }
}
