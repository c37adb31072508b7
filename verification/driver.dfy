/**
 * What a playback session receives from the code it calls but cannot see:
 * the status codes of the SD-card driver and the results of the LC3
 * decoder. They are inputs, so every fault the drivers can report is a
 * value the model has to handle.
 */
module Driver {
  import opened Common

  /** Result of one `sw_codec_lc3_dec_run` call: a status and the PCM it wrote. */
  datatype Decoded = Decoded(status: int, pcm: seq<byte>)

  /**
   * The statuses one open-to-close pass over a file sees: `io(k)` is what
   * the k-th read, skip or peek on the open file returns (negative means it
   * failed and transferred nothing), and `decode` is the decoder applied to
   * the bytes read and the frame length it is told.
   */
  datatype Services = Services(
    openStatus: int,
    io: nat -> int,
    decode: (seq<byte>, nat) -> Decoded,
    closeStatus: int)

  /** A pass in which nothing fails. */
  ghost predicate Faultless(s: Services)
  {
    && s.openStatus >= 0
    && s.closeStatus >= 0
    && (forall k: nat :: s.io(k) >= 0)
    && (forall b, n :: s.decode(b, n).status >= 0)
  }

  /** The decoder's output for each frame in turn. */
  function DecodeAll(s: Services, frames: seq<seq<byte>>): (pcm: seq<seq<byte>>)
    ensures |pcm| == |frames|
  {
    if frames == [] then []
    else [s.decode(frames[0], |frames[0]|).pcm] + DecodeAll(s, frames[1..])
  }

  /** The decoder accepts every frame. */
  predicate DecodesAll(svc: Services, frames: seq<seq<byte>>)
  {
    forall i | 0 <= i < |frames| :: svc.decode(frames[i], |frames[i]|).status >= 0
  }

  lemma DecodesTail(svc: Services, frames: seq<seq<byte>>)
    requires frames != [] && DecodesAll(svc, frames)
    ensures DecodesAll(svc, frames[1..])
    ensures svc.decode(frames[0], |frames[0]|).status >= 0
  {
    assert forall i | 0 <= i < |frames[1..]| :: frames[1..][i] == frames[i + 1];
  }

  /** The decoder's output for each of the first `m` frames in turn. */
  function DecodedBefore(svc: Services, frames: seq<seq<byte>>, m: nat): (pcm: seq<seq<byte>>)
    requires m <= |frames|
    ensures |pcm| == m
    decreases m
  {
    if m == 0 then [] else [svc.decode(frames[0], |frames[0]|).pcm] + DecodedBefore(svc, frames[1..], m - 1)
  }

  /** The outputs for the first `m` frames are those of the first `m` frames taken alone. */
  lemma {:induction false} DecodedBeforeIsPrefix(svc: Services, frames: seq<seq<byte>>, m: nat)
    requires m <= |frames|
    ensures DecodedBefore(svc, frames, m) == DecodeAll(svc, frames[..m])
    decreases m
  {
    if m > 0 {
      DecodedBeforeIsPrefix(svc, frames[1..], m - 1);
      assert frames[1..][..m - 1] == frames[..m][1..];
    }
  }

  /** Block `i` of the outputs is the decoder's output for frame `i`. */
  lemma {:induction false} DecodeAllAt(s: Services, frames: seq<seq<byte>>)
    ensures forall i | 0 <= i < |frames| :: DecodeAll(s, frames)[i] == s.decode(frames[i], |frames[i]|).pcm
    decreases |frames|
  {
    if frames != [] {
      DecodeAllAt(s, frames[1..]);
      assert forall i | 1 <= i < |frames| :: frames[1..][i - 1] == frames[i];
    }
  }
}
