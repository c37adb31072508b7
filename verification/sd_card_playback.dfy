/**
 * sd_card_playback: one playback session of an LC3 file (per-frame length
 * prefixes) or a raw PCM ".wav" file, and the shell's current-directory
 * state. A session is a pure function of the module's static variables, the
 * file contents, and the driver/decoder results; it yields the return code,
 * the statics it leaves behind, whether the file is still open, and the
 * blocks handed to the ring buffer (each after a semaphore take; see
 * Pipeline for what the ring does with them).
 */
module SdCardPlayback {
  import opened Common
  import opened Lc3Header
  import opened Driver

  const MaxFilenameLen: nat := 32
  const MaxPathLen: nat := 260
  /** `SAMPLE_RATE_48K`: the enum value is 48, not 48000. */
  const SampleRate48K: nat := 48
  /**
   * Duration and bit depth of the shell's `play_wav`: `sd_card_playback_wav`
   * stores them in the statics the WAV session reads (the thread's own
   * arguments to the session function are discarded, as it has no parameters).
   */
  const WavDurationMs: nat := 10
  const WavBitDepth: nat := 16

  /** The module's static variables that outlive a session. */
  datatype Statics = Statics(
    header: seq<byte>,        // lc3_file_header, as raw bytes
    frameLength: seq<byte>,   // lc3_frame_length, as raw bytes
    frameLengthSize: nat,     // lc3_frame_length_size: in/out size of every prefix read
    pcmFrameSize: nat,        // pcm_frame_size, the low-water mark of buffer_set
    framesNum: nat,           // lc3_frames_num
    active: bool)             // sd_card_playback_active
  type SdStatics = s: Statics | |s.header| == HeaderSize && |s.frameLength| == 2 && s.frameLengthSize <= 2
    witness Statics(seq(HeaderSize, _ => 0), [0, 0], 2, 0, 0, false)

  /** Zero-initialised statics, with `lc3_frame_length_size = 2`. */
  function Boot(): (st: SdStatics)
    ensures st.frameLengthSize == 2 && !st.active
  {
    Statics(seq(HeaderSize, _ => 0), [0, 0], 2, 0, 0, false)
  }

  /**
   * How a session ends: its return code, the statics, the file (contents and
   * cursor), whether it is still open (no successful close), and the blocks
   * pushed in order.
   */
  datatype Session = Session(ret: int, st: SdStatics, file: OpenFile, open: bool, blocks: seq<seq<byte>>)

  // ---------------------------------------------------------------------
  // LC3

  /**
   * `sd_card_playback_header_read`: open the file and read up to 18 bytes
   * into the header struct. A failed open or read returns its code; after a
   * failed read the file stays open.
   */
  function HeaderRead(st: SdStatics, data: seq<byte>, svc: Services): (r: (int, SdStatics, OpenFile))
    ensures r.0 == 0 <==> svc.openStatus >= 0 && svc.io(0) >= 0
    ensures svc.openStatus < 0 ==> r.0 == svc.openStatus
    ensures svc.openStatus >= 0 && svc.io(0) < 0 ==> r.0 == svc.io(0)
    ensures r.1 == st.(header := r.1.header)
    ensures r.2.data == data
    ensures r.0 == 0 && |data| >= HeaderSize ==> r.1.header == data[..HeaderSize] && r.2.pos == HeaderSize
  {
    var f := File(data, 0);
    if svc.openStatus < 0 then (svc.openStatus, st, f)
    else if svc.io(0) < 0 then (svc.io(0), st, f)
    else
      var (got, f1) := Read(f, HeaderSize);
      (0, st.(header := Overlay(st.header, got)), f1)
  }

  /** The header a session would parse makes its frame arithmetic defined. */
  predicate Lc3Defined(st: SdStatics, data: seq<byte>, svc: Services)
  {
    var r := HeaderRead(st, data, svc);
    r.0 == 0 ==> SdFrameCountDefined(Decode(r.1.header))
  }

  /**
   * Where the frame loop stops: status, statics, file, the I/O call it
   * stopped at (after the last iteration, the next one), the frame buffer
   * the decoder rejected (empty when none was), and the blocks pushed.
   */
  datatype Loop = Loop(status: int, st: SdStatics, file: OpenFile, io: nat, rejected: seq<byte>,
                       blocks: seq<seq<byte>>)

  /** The `len`-byte stack buffer of the iteration whose payload read is call `k`, before the read. */
  function StackFrame(uninit: (nat, int) -> byte, k: nat, len: nat): (b: seq<byte>)
    ensures |b| == len
  {
    seq(len, i => uninit(k, i))
  }

  /**
   * The prefix read of one iteration: up to the static in/out size of bytes
   * land in `lc3_frame_length`, and the size becomes what was delivered.
   */
  function PrefixRead(st: SdStatics, f: OpenFile): (r: (SdStatics, OpenFile))
    ensures r.0 == st.(frameLength := r.0.frameLength, frameLengthSize := r.0.frameLengthSize)
    ensures r.0.frameLengthSize <= st.frameLengthSize
    ensures r.1.data == f.data && r.1.pos == f.pos + r.0.frameLengthSize
  {
    var (got, f1) := Read(f, st.frameLengthSize);
    (st.(frameLength := Overlay(st.frameLength, got), frameLengthSize := |got|), f1)
  }

  /** The frame length the last prefix read left in `lc3_frame_length`. */
  function FrameLength(st: SdStatics): nat
  {
    LeU16(st.frameLength[0], st.frameLength[1])
  }

  /**
   * The payload read of one iteration into the fresh `len`-byte buffer
   * whose read is call `k`: the bytes delivered, then the buffer's tail.
   */
  function PayloadRead(f: OpenFile, len: nat, uninit: (nat, int) -> byte, k: nat): (r: (seq<byte>, OpenFile))
    ensures |r.0| == len
    ensures r.1.data == f.data && r.1.pos == f.pos + Min(len, Remaining(f))
  {
    var (payload, f2) := Read(f, len);
    (Overlay(StackFrame(uninit, k, len), payload), f2)
  }

  /** The buffer starts with the bytes the payload read delivered. */
  lemma PayloadReadDelivers(f: OpenFile, len: nat, uninit: (nat, int) -> byte, k: nat)
    ensures var r := PayloadRead(f, len, uninit, k);
            r.0[..Min(len, Remaining(f))] == f.data[f.pos..r.1.pos]
  {
  }

  /**
   * The LC3 frame loop, `n` iterations from I/O call `io`: read the length
   * prefix (with the static in/out size), read up to that many payload bytes
   * into a fresh stack buffer of the frame length, decode the buffer, push
   * the decoder's output. A short payload read leaves the buffer's tail as
   * `uninit(k, _)` says the stack held it when the payload read was call
   * `k`. A failing read or decode stops at once with its code (see
   * Lc3FramesExits); one block is pushed per completed frame.
   */
  function Lc3Frames(st: SdStatics, f: OpenFile, svc: Services, io: nat, n: nat, uninit: (nat, int) -> byte)
    : (r: Loop)
    ensures r.status <= 0
    ensures io <= r.io <= io + 2 * n
    ensures r.status == 0 <==> r.io == io + 2 * n
    ensures |r.blocks| == (r.io - io) / 2
    ensures r.st == st.(frameLength := r.st.frameLength, frameLengthSize := r.st.frameLengthSize)
    ensures r.st.frameLengthSize <= st.frameLengthSize
    ensures r.file.data == f.data && r.file.pos >= f.pos
    decreases n
  {
    if n == 0 then Loop(0, st, f, io, [], [])
    else if svc.io(io) < 0 then Loop(svc.io(io), st, f, io, [], [])
    else
      var p := PrefixRead(st, f);
      if svc.io(io + 1) < 0 then Loop(svc.io(io + 1), p.0, p.1, io + 1, [], [])
      else
        var q := PayloadRead(p.1, FrameLength(p.0), uninit, io + 1);
        var d := svc.decode(q.0, |q.0|);
        if d.status < 0 then Loop(d.status, p.0, q.1, io + 1, q.0, [])
        else
          var rest := Lc3Frames(p.0, q.1, svc, io + 2, n - 1, uninit);
          Loop(rest.status, rest.st, rest.file, rest.io, rest.rejected, [d.pcm] + rest.blocks)
  }

  /**
   * The exit of a frame loop started at call `io` is accounted for: each
   * I/O call before the one it stopped at succeeded, a failing read returns
   * its own code, and any other failure is the decoder's verdict on the
   * payload buffer of the frame whose payload read it stopped at.
   */
  predicate Accounted(r: Loop, svc: Services, io: nat)
  {
    && io <= r.io
    && (forall k | io <= k < r.io :: svc.io(k) >= 0)
    && (r.status < 0 && svc.io(r.io) < 0 ==> r.status == svc.io(r.io))
    && (r.status < 0 && svc.io(r.io) >= 0 ==>
          (r.io - io) % 2 == 1 && r.status == svc.decode(r.rejected, |r.rejected|).status)
  }

  /** Every exit of the frame loop is accounted for. */
  lemma {:induction false} Lc3FramesExits(st: SdStatics, f: OpenFile, svc: Services, io: nat, n: nat,
                                          uninit: (nat, int) -> byte)
    ensures Accounted(Lc3Frames(st, f, svc, io, n, uninit), svc, io)
    decreases n, 1
  {
    if Lc3Continues(st, f, svc, io, n, uninit) {
      Lc3FramesContinue(st, f, svc, io, n, uninit);
    } else {
      Lc3FramesStops(st, f, svc, io, n, uninit);
    }
  }

  /** The iteration at call `io` completes: both reads and the decode succeed. */
  predicate Lc3Continues(st: SdStatics, f: OpenFile, svc: Services, io: nat, n: nat, uninit: (nat, int) -> byte)
  {
    var p := PrefixRead(st, f);
    var q := PayloadRead(p.1, FrameLength(p.0), uninit, io + 1);
    n > 0 && svc.io(io) >= 0 && svc.io(io + 1) >= 0 && svc.decode(q.0, |q.0|).status >= 0
  }

  /** An iteration that does not complete is the loop's accounted-for exit. */
  lemma Lc3FramesStops(st: SdStatics, f: OpenFile, svc: Services, io: nat, n: nat, uninit: (nat, int) -> byte)
    requires !Lc3Continues(st, f, svc, io, n, uninit)
    ensures Accounted(Lc3Frames(st, f, svc, io, n, uninit), svc, io)
  {
  }

  /** An iteration that completes is accounted for once the iterations after it are. */
  lemma {:induction false} Lc3FramesContinue(st: SdStatics, f: OpenFile, svc: Services, io: nat, n: nat,
                                             uninit: (nat, int) -> byte)
    requires Lc3Continues(st, f, svc, io, n, uninit)
    ensures Accounted(Lc3Frames(st, f, svc, io, n, uninit), svc, io)
    decreases n, 0
  {
    var p := PrefixRead(st, f);
    var q := PayloadRead(p.1, FrameLength(p.0), uninit, io + 1);
    Lc3FramesExits(p.0, q.1, svc, io + 2, n - 1, uninit);
    Lc3FramesCons(st, f, svc, io, n, uninit, p, q);
  }

  /** An iteration that completes ends where the iterations after it end. */
  lemma Lc3FramesCons(st: SdStatics, f: OpenFile, svc: Services, io: nat, n: nat, uninit: (nat, int) -> byte,
                      p: (SdStatics, OpenFile), q: (seq<byte>, OpenFile))
    requires Lc3Continues(st, f, svc, io, n, uninit)
    requires p == PrefixRead(st, f) && q == PayloadRead(p.1, FrameLength(p.0), uninit, io + 1)
    requires Accounted(Lc3Frames(p.0, q.1, svc, io + 2, n - 1, uninit), svc, io + 2)
    ensures Accounted(Lc3Frames(st, f, svc, io, n, uninit), svc, io)
  {
    var r := Lc3Frames(st, f, svc, io, n, uninit);
    var rest := Lc3Frames(p.0, q.1, svc, io + 2, n - 1, uninit);
    assert r.status == rest.status && r.io == rest.io && r.rejected == rest.rejected;
    AccountedStep(r, rest, svc, io);
  }

  /** An iteration whose two reads succeeded keeps the accounting of the iterations after it. */
  lemma AccountedStep(r: Loop, rest: Loop, svc: Services, io: nat)
    requires Accounted(rest, svc, io + 2)
    requires svc.io(io) >= 0 && svc.io(io + 1) >= 0
    requires r.status == rest.status && r.io == rest.io && r.rejected == rest.rejected
    ensures Accounted(r, svc, io)
  {
    assert (r.io - io) % 2 == (rest.io - (io + 2)) % 2;
  }

  /**
   * With a decoder that accepts everything, the first failing read ends the
   * loop with that read's code, after pushing one block per frame completed
   * before it.
   */
  lemma Lc3FramesReadFailure(st: SdStatics, f: OpenFile, svc: Services, io: nat, n: nat,
                             uninit: (nat, int) -> byte, k: nat)
    requires io <= k < io + 2 * n && svc.io(k) < 0
    requires forall j | io <= j < k :: svc.io(j) >= 0
    requires forall b, l :: svc.decode(b, l).status >= 0
    ensures Lc3Frames(st, f, svc, io, n, uninit).status == svc.io(k)
    ensures Lc3Frames(st, f, svc, io, n, uninit).io == k
    ensures |Lc3Frames(st, f, svc, io, n, uninit).blocks| == (k - io) / 2
  {
    var r := Lc3Frames(st, f, svc, io, n, uninit);
    Lc3FramesExits(st, f, svc, io, n, uninit);
    assert r.io <= k;
    assert r.io == k;
  }

  /**
   * The part of `sd_card_playback_thread_play_lc3` after a successful header
   * read: derive the frame size and frame count, set the active flag, run
   * the frame loop, close. A failing read, decode or close returns its code
   * at once with the file open and the active flag still set; only the
   * success path clears it.
   */
  function Lc3Body(st: SdStatics, f: OpenFile, svc: Services, uninit: (nat, int) -> byte): (s: Session)
    requires SdFrameCountDefined(Decode(st.header))
    ensures s.ret <= 0
    ensures s.open <==> s.ret < 0
    ensures s.st.active <==> s.ret < 0
    ensures s.st.header == st.header
    ensures s.st.pcmFrameSize == PcmFrameSize(Decode(st.header))
    ensures s.st.framesNum == SdFramesNum(Decode(st.header))
    ensures |s.blocks| <= s.st.framesNum
    ensures s.ret == 0 ==> |s.blocks| == s.st.framesNum
    ensures s.st.frameLengthSize <= st.frameLengthSize
    ensures s.file.data == f.data
  {
    var h := Decode(st.header);
    var st1 := st.(pcmFrameSize := PcmFrameSize(h), framesNum := SdFramesNum(h), active := true);
    var loop := Lc3Frames(st1, f, svc, 1, st1.framesNum, uninit);
    if loop.status < 0 then Session(loop.status, loop.st, loop.file, true, loop.blocks)
    else if svc.closeStatus < 0 then Session(svc.closeStatus, loop.st, loop.file, true, loop.blocks)
    else Session(0, loop.st.(active := false), loop.file, false, loop.blocks)
  }

  /**
   * A failing read inside the frame loop (the first one, with a decoder that
   * accepts everything) is the session's return code; the file stays open,
   * the active flag stays set, and the frames completed before it were
   * pushed.
   */
  lemma Lc3BodyReadFailure(st: SdStatics, f: OpenFile, svc: Services, uninit: (nat, int) -> byte, k: nat)
    requires SdFrameCountDefined(Decode(st.header))
    requires 1 <= k < 1 + 2 * SdFramesNum(Decode(st.header)) && svc.io(k) < 0
    requires forall j | 1 <= j < k :: svc.io(j) >= 0
    requires forall b, l :: svc.decode(b, l).status >= 0
    ensures Lc3Body(st, f, svc, uninit).ret == svc.io(k)
    ensures Lc3Body(st, f, svc, uninit).st.active && Lc3Body(st, f, svc, uninit).open
    ensures |Lc3Body(st, f, svc, uninit).blocks| == (k - 1) / 2
  {
    var h := Decode(st.header);
    var st1 := st.(pcmFrameSize := PcmFrameSize(h), framesNum := SdFramesNum(h), active := true);
    Lc3FramesReadFailure(st1, f, svc, 1, st1.framesNum, uninit, k);
  }

  /**
   * A loop that completes every frame followed by a failing close returns
   * the close's code, with the file still open and the active flag still
   * set.
   */
  lemma Lc3BodyCloseFailure(st: SdStatics, f: OpenFile, svc: Services, uninit: (nat, int) -> byte)
    requires SdFrameCountDefined(Decode(st.header))
    requires forall j | 1 <= j < 1 + 2 * SdFramesNum(Decode(st.header)) :: svc.io(j) >= 0
    requires forall b, l :: svc.decode(b, l).status >= 0
    requires svc.closeStatus < 0
    ensures Lc3Body(st, f, svc, uninit).ret == svc.closeStatus
    ensures Lc3Body(st, f, svc, uninit).st.active && Lc3Body(st, f, svc, uninit).open
    ensures |Lc3Body(st, f, svc, uninit).blocks| == SdFramesNum(Decode(st.header))
  {
    var h := Decode(st.header);
    var st1 := st.(pcmFrameSize := PcmFrameSize(h), framesNum := SdFramesNum(h), active := true);
    Lc3FramesExits(st1, f, svc, 1, st1.framesNum, uninit);
  }

  /**
   * `sd_card_playback_thread_play_lc3`: the header read, then the body. A
   * failed open leaves everything as it was; a failed header read returns
   * its code with the file open and nothing pushed.
   */
  function PlayLc3(st: SdStatics, data: seq<byte>, svc: Services, uninit: (nat, int) -> byte): (s: Session)
    requires Lc3Defined(st, data, svc)
    ensures s.ret <= 0
    ensures svc.openStatus < 0 ==> s.ret == svc.openStatus && !s.open && s.st == st && s.blocks == []
    ensures svc.openStatus >= 0 && svc.io(0) < 0 ==> s.ret == svc.io(0) && s.open && s.blocks == []
    ensures svc.openStatus >= 0 ==> (s.open <==> s.ret < 0)
    ensures s.ret == 0 ==> !s.st.active
    ensures s.st.frameLengthSize <= st.frameLengthSize
  {
    var r := HeaderRead(st, data, svc);
    if r.0 < 0 then Session(r.0, r.1, r.2, svc.openStatus >= 0, [])
    else Lc3Body(r.1, r.2, svc, uninit)
  }

  /** The statics after a full read of the length prefix of a `len`-byte frame. */
  function AfterPrefix(st: SdStatics, len: nat): SdStatics
    requires len < U16Modulus
  {
    st.(frameLength := U16Bytes(len), frameLengthSize := 2)
  }

  /** The bytes from the cursor on begin with the length-prefixed encoding of `frames`. */
  predicate StreamAt(f: OpenFile, frames: seq<seq<byte>>)
  {
    && LengthsFit(frames)
    && f.pos + StreamSize(frames) <= |f.data|
    && f.data[f.pos .. f.pos + StreamSize(frames)] == EncodeFrames(frames)
  }

  /** The loop ran to the end, pushed `blocks`, left the cursor at `pos` and the prefix size intact. */
  predicate LoopDone(r: Loop, blocks: seq<seq<byte>>, pos: nat)
  {
    r.status == 0 && r.blocks == blocks && r.file.pos == pos && r.st.frameLengthSize == 2
  }

  /**
   * The loop over a well-formed frame stream: with no failing I/O from call
   * `io` on, every frame accepted by the decoder, and the prefix size
   * intact, it pushes the decoder's output for each frame in order and
   * consumes exactly 2 + length bytes per frame.
   */
  lemma {:induction false} Lc3FramesWellFormed(st: SdStatics, f: OpenFile, svc: Services, io: nat,
                                               frames: seq<seq<byte>>, n: nat, uninit: (nat, int) -> byte)
    requires n == |frames|
    requires forall k: nat | io <= k :: svc.io(k) >= 0
    requires DecodesAll(svc, frames)
    requires st.frameLengthSize == 2
    requires StreamAt(f, frames)
    ensures LoopDone(Lc3Frames(st, f, svc, io, n, uninit), DecodeAll(svc, frames), f.pos + StreamSize(frames))
    decreases n
  {
    if n > 0 {
      var st1 := AfterPrefix(st, |frames[0]|);
      var f2: OpenFile := File(f.data, f.pos + 2 + |frames[0]|);
      StreamStep(f, frames, f2);
      DecodesTail(svc, frames);
      Lc3FramesWellFormed(st1, f2, svc, io + 2, frames[1..], n - 1, uninit);
      Lc3FrameStep(st, f, svc, io, frames, n, st1, f2, uninit);
    }
  }

  /** After the first frame, the rest of a well-formed stream is well formed. */
  lemma StreamStep(f: OpenFile, frames: seq<seq<byte>>, f': OpenFile)
    requires frames != [] && StreamAt(f, frames)
    requires f' == File(f.data, f.pos + 2 + |frames[0]|)
    ensures StreamAt(f', frames[1..])
  {
    StreamHead(f.data, f.pos, frames);
  }

  /**
   * One iteration over a well-formed stream: what the loop does over the
   * remaining frames carries over to the whole stream.
   */
  lemma Lc3FrameStep(st: SdStatics, f: OpenFile, svc: Services, io: nat, frames: seq<seq<byte>>, n: nat,
                     st': SdStatics, f': OpenFile, uninit: (nat, int) -> byte)
    requires n == |frames| && n > 0
    requires svc.io(io) >= 0 && svc.io(io + 1) >= 0
    requires svc.decode(frames[0], |frames[0]|).status >= 0
    requires st.frameLengthSize == 2
    requires StreamAt(f, frames)
    requires st' == AfterPrefix(st, |frames[0]|)
    requires f' == File(f.data, f.pos + 2 + |frames[0]|)
    requires LoopDone(Lc3Frames(st', f', svc, io + 2, n - 1, uninit), DecodeAll(svc, frames[1..]),
                      f'.pos + StreamSize(frames[1..]))
    ensures LoopDone(Lc3Frames(st, f, svc, io, n, uninit), DecodeAll(svc, frames), f.pos + StreamSize(frames))
  {
    StreamHead(f.data, f.pos, frames);
    Lc3FrameUnfold(st, f, svc, io, n, frames[0], st', f', uninit);
    assert DecodeAll(svc, frames) == [svc.decode(frames[0], |frames[0]|).pcm] + DecodeAll(svc, frames[1..]);
    assert StreamSize(frames) == 2 + |frames[0]| + StreamSize(frames[1..]);
  }

  /** Where the first frame's prefix, payload and the remaining frames sit in the file. */
  lemma StreamHead(data: seq<byte>, pos: nat, frames: seq<seq<byte>>)
    requires LengthsFit(frames) && frames != []
    requires pos + StreamSize(frames) <= |data|
    requires data[pos .. pos + StreamSize(frames)] == EncodeFrames(frames)
    ensures LengthsFit(frames[1..])
    ensures data[pos..pos + 2] == U16Bytes(|frames[0]|)
    ensures data[pos + 2..pos + 2 + |frames[0]|] == frames[0]
    ensures pos + 2 + |frames[0]| + StreamSize(frames[1..]) <= |data|
    ensures data[pos + 2 + |frames[0]| .. pos + 2 + |frames[0]| + StreamSize(frames[1..])]
            == EncodeFrames(frames[1..])
  {
    EncodeFramesHead(frames);
    SplitThree(data, pos, U16Bytes(|frames[0]|), frames[0], EncodeFrames(frames[1..]));
  }

  /** A slice holding `a + b + c` holds `a`, then `b`, then `c`. */
  lemma SplitThree(data: seq<byte>, pos: nat, a: seq<byte>, b: seq<byte>, c: seq<byte>)
    requires pos + |a| + |b| + |c| <= |data|
    requires data[pos..pos + |a| + |b| + |c|] == a + b + c
    ensures data[pos..pos + |a|] == a
    ensures data[pos + |a|..pos + |a| + |b|] == b
    ensures data[pos + |a| + |b|..pos + |a| + |b| + |c|] == c
  {
    var e := a + b + c;
    SliceWithin(data, pos, e, 0, |a|);
    SliceWithin(data, pos, e, |a|, |a| + |b|);
    SliceWithin(data, pos, e, |a| + |b|, |e|);
    assert e[0..|a|] == a;
    assert e[|a|..|a| + |b|] == b;
    assert e[|a| + |b|..|e|] == c;
  }

  /**
   * The loop's first iteration when the prefix holds `payload`'s length and
   * the payload follows it: the buffer handed to the decoder is the payload
   * itself; a rejection stops there, an acceptance pushes its output in
   * front of what the remaining iterations do.
   */
  lemma Lc3FrameUnfold(st: SdStatics, f: OpenFile, svc: Services, io: nat, n: nat, payload: seq<byte>,
                       st': SdStatics, f': OpenFile, uninit: (nat, int) -> byte)
    requires n > 0
    requires |payload| < U16Modulus && f.pos + 2 + |payload| <= |f.data|
    requires f.data[f.pos..f.pos + 2] == U16Bytes(|payload|)
    requires f.data[f.pos + 2..f.pos + 2 + |payload|] == payload
    requires svc.io(io) >= 0 && svc.io(io + 1) >= 0
    requires st.frameLengthSize == 2
    requires st' == AfterPrefix(st, |payload|)
    requires f' == File(f.data, f.pos + 2 + |payload|)
    ensures var d := svc.decode(payload, |payload|);
            d.status < 0 ==> Lc3Frames(st, f, svc, io, n, uninit) == Loop(d.status, st', f', io + 1, payload, [])
    ensures var d := svc.decode(payload, |payload|);
            var r, rest := Lc3Frames(st, f, svc, io, n, uninit), Lc3Frames(st', f', svc, io + 2, n - 1, uninit);
            d.status >= 0 ==> r == rest.(blocks := [d.pcm] + rest.blocks)
  {
    var r1 := Read(f, 2);
    assert r1.0 == U16Bytes(|payload|);
    var p := PrefixRead(st, f);
    assert p.0 == AfterPrefix(st, |payload|);
    assert p.1 == File(f.data, f.pos + 2);
    assert FrameLength(p.0) == |payload|;
    var q := PayloadRead(p.1, |payload|, uninit, io + 1);
    PayloadReadDelivers(p.1, |payload|, uninit, io + 1);
    assert q.0 == q.0[..|payload|] == payload;
    assert q.1 == f';
  }

  /** The decoder accepts the first `m` frames and rejects frame `m`. */
  predicate RejectsAt(svc: Services, frames: seq<seq<byte>>, m: nat)
  {
    && m < |frames|
    && (forall j | 0 <= j < m :: svc.decode(frames[j], |frames[j]|).status >= 0)
    && svc.decode(frames[m], |frames[m]|).status < 0
  }

  /** The loop stopped with `status`, having pushed `blocks`, on the rejected payload buffer `rejected`. */
  predicate StoppedOn(r: Loop, status: int, blocks: seq<seq<byte>>, rejected: seq<byte>)
  {
    r.status == status && r.blocks == blocks && r.rejected == rejected
  }

  /**
   * Over a well-formed stream with no failing I/O, when the decoder accepts
   * the first `m` frames and rejects frame `m`, the loop returns the
   * decoder's code, having pushed the output of exactly the first `m`
   * frames and handed frame `m` to the decoder unchanged.
   */
  lemma {:induction false} Lc3FramesDecodeFailure(st: SdStatics, f: OpenFile, svc: Services, io: nat,
                                                  frames: seq<seq<byte>>, n: nat, uninit: (nat, int) -> byte, m: nat)
    requires n == |frames|
    requires forall k: nat | io <= k :: svc.io(k) >= 0
    requires RejectsAt(svc, frames, m)
    requires st.frameLengthSize == 2
    requires StreamAt(f, frames)
    ensures StoppedOn(Lc3Frames(st, f, svc, io, n, uninit), svc.decode(frames[m], |frames[m]|).status,
                      DecodedBefore(svc, frames, m), frames[m])
    decreases m
  {
    if m == 0 {
      Lc3RejectFirst(st, f, svc, io, frames, n, uninit);
    } else {
      var st1 := AfterPrefix(st, |frames[0]|);
      var f2: OpenFile := File(f.data, f.pos + 2 + |frames[0]|);
      StreamStep(f, frames, f2);
      RejectsLater(svc, frames, m);
      Lc3FramesDecodeFailure(st1, f2, svc, io + 2, frames[1..], n - 1, uninit, m - 1);
      Lc3RejectLater(st, f, svc, io, frames, n, st1, f2, uninit, m);
    }
  }

  /** Frames accepted up to `m` and rejected at `m` are, after the first, accepted up to `m - 1`. */
  lemma RejectsLater(svc: Services, frames: seq<seq<byte>>, m: nat)
    requires 0 < m && RejectsAt(svc, frames, m)
    ensures RejectsAt(svc, frames[1..], m - 1)
    ensures svc.decode(frames[0], |frames[0]|).status >= 0
  {
    assert forall j | 0 <= j < m - 1 :: frames[1..][j] == frames[j + 1];
  }

  /** A first frame the decoder rejects ends the loop with its code and nothing pushed. */
  lemma Lc3RejectFirst(st: SdStatics, f: OpenFile, svc: Services, io: nat, frames: seq<seq<byte>>, n: nat,
                       uninit: (nat, int) -> byte)
    requires n == |frames| && n > 0
    requires svc.io(io) >= 0 && svc.io(io + 1) >= 0
    requires svc.decode(frames[0], |frames[0]|).status < 0
    requires st.frameLengthSize == 2
    requires StreamAt(f, frames)
    ensures StoppedOn(Lc3Frames(st, f, svc, io, n, uninit), svc.decode(frames[0], |frames[0]|).status,
                      DecodedBefore(svc, frames, 0), frames[0])
  {
    StreamHead(f.data, f.pos, frames);
    Lc3FrameUnfold(st, f, svc, io, n, frames[0], AfterPrefix(st, |frames[0]|),
                   File(f.data, f.pos + 2 + |frames[0]|), uninit);
  }

  /** A frame accepted ahead of the rejected one is pushed ahead of what the rest of the loop pushed. */
  lemma Lc3RejectLater(st: SdStatics, f: OpenFile, svc: Services, io: nat, frames: seq<seq<byte>>, n: nat,
                       st': SdStatics, f': OpenFile, uninit: (nat, int) -> byte, m: nat)
    requires n == |frames| && 0 < m < n
    requires svc.io(io) >= 0 && svc.io(io + 1) >= 0
    requires svc.decode(frames[0], |frames[0]|).status >= 0
    requires st.frameLengthSize == 2
    requires StreamAt(f, frames)
    requires st' == AfterPrefix(st, |frames[0]|)
    requires f' == File(f.data, f.pos + 2 + |frames[0]|)
    requires StoppedOn(Lc3Frames(st', f', svc, io + 2, n - 1, uninit),
                       svc.decode(frames[1..][m - 1], |frames[1..][m - 1]|).status,
                       DecodedBefore(svc, frames[1..], m - 1), frames[1..][m - 1])
    ensures StoppedOn(Lc3Frames(st, f, svc, io, n, uninit), svc.decode(frames[m], |frames[m]|).status,
                      DecodedBefore(svc, frames, m), frames[m])
  {
    StreamHead(f.data, f.pos, frames);
    Lc3FrameUnfold(st, f, svc, io, n, frames[0], st', f', uninit);
    assert frames[1..][m - 1] == frames[m];
  }

  /** A slice of a slice is a slice. */
  lemma SliceWithin(s: seq<byte>, a: nat, e: seq<byte>, i: nat, j: nat)
    requires a + |e| <= |s| && s[a..a + |e|] == e && i <= j <= |e|
    ensures s[a + i..a + j] == e[i..j]
  {
    forall k | 0 <= k < j - i
      ensures s[a + i..a + j][k] == e[i..j][k]
    {
      assert e[i + k] == s[a..a + |e|][i + k];
    }
  }

  /**
   * A well-formed LC3 file (header followed by exactly the frames it
   * counts) plays to completion: return 0, active flag cleared, file closed,
   * every frame decoded and pushed in order, and the file consumed up to
   * 18 + the sum of 2 + length over the frames.
   */
  lemma PlayLc3WellFormed(st: SdStatics, h: Header, frames: seq<seq<byte>>, svc: Services,
                          uninit: (nat, int) -> byte)
    requires Fields16(h) && LengthsFit(frames)
    requires SdFrameCountDefined(h) && SdFramesNum(h) == |frames|
    requires st.frameLengthSize == 2
    requires Faultless(svc)
    ensures Lc3Defined(st, Encode(h) + EncodeFrames(frames), svc)
    ensures PlayLc3(st, Encode(h) + EncodeFrames(frames), svc, uninit).ret == 0
    ensures !PlayLc3(st, Encode(h) + EncodeFrames(frames), svc, uninit).st.active
    ensures !PlayLc3(st, Encode(h) + EncodeFrames(frames), svc, uninit).open
    ensures PlayLc3(st, Encode(h) + EncodeFrames(frames), svc, uninit).blocks == DecodeAll(svc, frames)
    ensures PlayLc3(st, Encode(h) + EncodeFrames(frames), svc, uninit).file.pos == HeaderSize + StreamSize(frames)
    ensures PlayLc3(st, Encode(h) + EncodeFrames(frames), svc, uninit).st.pcmFrameSize == PcmFrameSize(h)
  {
    var data := Encode(h) + EncodeFrames(frames);
    assert data[..HeaderSize] == Encode(h);
    DecodeEncode(h);
    var (hret, st1, f1) := HeaderRead(st, data, svc);
    assert Decode(st1.header) == h;
    assert f1.data[f1.pos .. f1.pos + StreamSize(frames)] == EncodeFrames(frames);
    assert StreamAt(f1, frames);
    var st2 := st1.(pcmFrameSize := PcmFrameSize(h), framesNum := SdFramesNum(h), active := true);
    Lc3FramesWellFormed(st2, f1, svc, 1, frames, |frames|, uninit);
  }

  /**
   * A decoder failure inside the frame loop of a well-formed file is the
   * session's return code: the file stays open, the active flag stays set,
   * and exactly the frames before the rejected one were pushed.
   */
  lemma Lc3BodyDecodeFailure(st: SdStatics, f: OpenFile, svc: Services, uninit: (nat, int) -> byte,
                             frames: seq<seq<byte>>, m: nat)
    requires SdFrameCountDefined(Decode(st.header)) && SdFramesNum(Decode(st.header)) == |frames|
    requires m < |frames|
    requires forall k: nat | 1 <= k :: svc.io(k) >= 0
    requires DecodesAll(svc, frames[..m]) && svc.decode(frames[m], |frames[m]|).status < 0
    requires st.frameLengthSize == 2
    requires StreamAt(f, frames)
    ensures Lc3Body(st, f, svc, uninit).ret == svc.decode(frames[m], |frames[m]|).status
    ensures Lc3Body(st, f, svc, uninit).st.active && Lc3Body(st, f, svc, uninit).open
    ensures Lc3Body(st, f, svc, uninit).blocks == DecodeAll(svc, frames[..m])
  {
    var h := Decode(st.header);
    var st1 := st.(pcmFrameSize := PcmFrameSize(h), framesNum := SdFramesNum(h), active := true);
    assert forall j | 0 <= j < m :: frames[..m][j] == frames[j];
    Lc3FramesDecodeFailure(st1, f, svc, 1, frames, |frames|, uninit, m);
    DecodedBeforeIsPrefix(svc, frames, m);
  }

  // ---------------------------------------------------------------------
  // WAV

  /** `duration_ms * sample_rate * bit_depth / 8`, evaluated in unsigned 32-bit arithmetic. */
  function WavFrameSize(durationMs: nat, sampleRate: nat, bitDepth: nat): (n: nat)
    ensures n < U32Modulus
    ensures durationMs * sampleRate * bitDepth < U32Modulus ==> n == durationMs * sampleRate * bitDepth / 8
  {
    if bitDepth == 0 then 0
    else
      MulAtLeast(bitDepth, durationMs * sampleRate);
      ToU32(ToU32(durationMs * sampleRate) * bitDepth) / 8
  }

  /** The shell's `play_wav` arguments (10 ms, 48, 16 bits) give a 960-byte frame. */
  lemma DefaultWavFrameSize()
    ensures WavFrameSize(WavDurationMs, SampleRate48K, WavBitDepth) == 960
  {
  }

  /** Where the WAV loop stops: status, file, I/O calls used, the in/out read size, blocks pushed. */
  datatype WavLoop = WavLoop(status: int, file: OpenFile, io: nat, size: nat, blocks: seq<seq<byte>>)

  /**
   * The blocks pushed from cursor `f` on, with the loop ending at `last`:
   * each between `threshold` and `size` bytes long, and together the bytes
   * of the file from the cursor on, in order.
   */
  predicate Pushed(f: OpenFile, blocks: seq<seq<byte>>, last: OpenFile, threshold: nat, size: nat)
  {
    && (forall i | 0 <= i < |blocks| :: threshold <= |blocks[i]| <= size)
    && f.pos + |Flatten(blocks)| <= last.pos <= |f.data|
    && Flatten(blocks) == f.data[f.pos .. f.pos + |Flatten(blocks)|]
  }

  /**
   * The WAV loop: read up to `size` bytes (the size is in/out and shrinks
   * with a short read); a read shorter than `threshold` ends the loop without
   * pushing it; anything else is pushed whole.
   */
  function WavFrames(f: OpenFile, svc: Services, io: nat, size: nat, threshold: nat): (r: WavLoop)
    requires threshold > 0
    ensures r.status <= 0
    ensures r.file.data == f.data
    ensures r.size <= size
    ensures r.status == 0 ==> r.size < threshold
    ensures Pushed(f, r.blocks, r.file, threshold, size)
    decreases Remaining(f)
  {
    if svc.io(io) < 0 then WavLoop(svc.io(io), f, io + 1, size, [])
    else
      var (got, f1) := Read(f, size);
      if |got| < threshold then WavLoop(0, f1, io + 1, |got|, [])
      else
        var rest := WavFrames(f1, svc, io + 1, |got|, threshold);
        WavPushed(f, got, f1, rest.file, rest.blocks, size, threshold);
        WavLoop(rest.status, rest.file, rest.io, rest.size, [got] + rest.blocks)
  }

  /** A block pushed in front of what the rest of the loop pushed keeps the loop's guarantees. */
  lemma WavPushed(f: OpenFile, got: seq<byte>, f1: OpenFile, last: OpenFile, rest: seq<seq<byte>>,
                  size: nat, threshold: nat)
    requires (got, f1) == Read(f, size) && threshold <= |got|
    requires last.data == f1.data
    requires Pushed(f1, rest, last, threshold, |got|)
    ensures Pushed(f, [got] + rest, last, threshold, size)
  {
    SlicesFlatten(f.data, f.pos, got, rest);
  }

  /** Consecutive slices of a file, one block after another, are one slice. */
  lemma SlicesFlatten(data: seq<byte>, pos: nat, got: seq<byte>, rest: seq<seq<byte>>)
    requires pos + |got| + |Flatten(rest)| <= |data|
    requires got == data[pos..pos + |got|]
    requires Flatten(rest) == data[pos + |got|..pos + |got| + |Flatten(rest)|]
    ensures Flatten([got] + rest) == got + Flatten(rest)
    ensures Flatten([got] + rest) == data[pos..pos + |Flatten([got] + rest)|]
  {
    assert ([got] + rest)[1..] == rest;
    assert data[pos..pos + |got| + |Flatten(rest)|]
        == data[pos..pos + |got|] + data[pos + |got|..pos + |got| + |Flatten(rest)|];
  }

  /**
   * Every exit of the WAV loop started at call `io` is accounted for: one
   * block per call before the last, each of those calls succeeded, and the
   * loop fails exactly when its last call did, with that call's code.
   */
  predicate WavAccounted(r: WavLoop, svc: Services, io: nat)
  {
    && r.io == io + |r.blocks| + 1
    && (forall j | io <= j < r.io - 1 :: svc.io(j) >= 0)
    && (r.status < 0 <==> svc.io(r.io - 1) < 0)
    && (r.status < 0 ==> r.status == svc.io(r.io - 1))
  }

  lemma {:induction false} WavFramesExits(f: OpenFile, svc: Services, io: nat, size: nat, threshold: nat)
    requires threshold > 0
    ensures WavAccounted(WavFrames(f, svc, io, size, threshold), svc, io)
    decreases Remaining(f)
  {
    if svc.io(io) >= 0 {
      var (got, f1) := Read(f, size);
      if |got| >= threshold {
        WavFramesExits(f1, svc, io + 1, |got|, threshold);
        WavAccountedStep(WavFrames(f, svc, io, size, threshold), WavFrames(f1, svc, io + 1, |got|, threshold),
                         svc, io);
      }
    }
  }

  /** A block pushed after a successful read keeps the accounting of the iterations after it. */
  lemma WavAccountedStep(r: WavLoop, rest: WavLoop, svc: Services, io: nat)
    requires WavAccounted(rest, svc, io + 1) && svc.io(io) >= 0
    requires r.status == rest.status && r.io == rest.io && |r.blocks| == |rest.blocks| + 1
    ensures WavAccounted(r, svc, io)
  {
  }

  /**
   * While at least a full block remains for every call before `k`, each of
   * those reads fills the whole block, so the first failing read, call `k`,
   * ends the loop with its code after one block per earlier call.
   */
  lemma {:induction false} WavFramesReadFailure(f: OpenFile, svc: Services, io: nat, size: nat, threshold: nat,
                                                k: nat)
    requires 0 < threshold <= size
    requires io <= k && svc.io(k) < 0
    requires forall j | io <= j < k :: svc.io(j) >= 0
    requires (k - io) * size <= Remaining(f)
    ensures WavFrames(f, svc, io, size, threshold).status == svc.io(k)
    ensures |WavFrames(f, svc, io, size, threshold).blocks| == k - io
    decreases k - io
  {
    if io < k {
      var (got, f1) := Read(f, size);
      FullBlocksLeft(k - io, size, Remaining(f));
      assert |got| == size;
      WavFramesReadFailure(f1, svc, io + 1, size, threshold, k);
      WavFramesCons(f, svc, io, size, threshold);
    }
  }

  /** Room for `x >= 1` blocks of `size` is room for one block and then `x - 1` more. */
  lemma FullBlocksLeft(x: nat, size: nat, room: nat)
    requires x >= 1 && x * size <= room
    ensures size <= room && (x - 1) * size <= room - size
  {
    MulAtLeast(x, size);
    assert (x - 1) * size == x * size - size;
  }

  /** An iteration that pushes its block ends where the iterations after it end. */
  lemma WavFramesCons(f: OpenFile, svc: Services, io: nat, size: nat, threshold: nat)
    requires threshold > 0 && svc.io(io) >= 0 && |Read(f, size).0| >= threshold
    ensures var r := WavFrames(f, svc, io, size, threshold);
            var rest := WavFrames(Read(f, size).1, svc, io + 1, |Read(f, size).0|, threshold);
            r.status == rest.status && r.io == rest.io && |r.blocks| == |rest.blocks| + 1
  {
  }

  /**
   * `sd_card_playback_thread_play_wav`: store the (16-bit truncated) frame
   * size as low-water mark, open, then loop. A read error returns at once
   * with the active flag still set and the file open. Normal termination
   * clears the flag in the loop itself, so a failing close returns its code
   * with the flag already cleared.
   */
  function PlayWav(st: SdStatics, data: seq<byte>, svc: Services,
                   durationMs: nat, sampleRate: nat, bitDepth: nat): (s: Session)
    requires ToU16(WavFrameSize(durationMs, sampleRate, bitDepth)) > 0
    ensures s.ret <= 0
    ensures s.st == st.(pcmFrameSize := ToU16(WavFrameSize(durationMs, sampleRate, bitDepth)), active := s.st.active)
    ensures svc.openStatus < 0 ==> s.ret == svc.openStatus && !s.open && s.blocks == [] && s.st.active == st.active
    ensures svc.openStatus >= 0 ==> (s.open <==> s.ret < 0)
    ensures svc.openStatus >= 0 && !s.st.active ==> s.ret == (if svc.closeStatus < 0 then svc.closeStatus else 0)
    ensures forall i | 0 <= i < |s.blocks| :: s.st.pcmFrameSize <= |s.blocks[i]|
    ensures |Flatten(s.blocks)| <= |data| && Flatten(s.blocks) == data[..|Flatten(s.blocks)|]
  {
    var size := WavFrameSize(durationMs, sampleRate, bitDepth);
    var st1 := st.(pcmFrameSize := ToU16(size));
    var f := File(data, 0);
    if svc.openStatus < 0 then Session(svc.openStatus, st1, f, false, [])
    else
      var loop := WavFrames(f, svc, 0, size, st1.pcmFrameSize);
      if loop.status < 0 then Session(loop.status, st1.(active := true), loop.file, true, loop.blocks)
      else if svc.closeStatus < 0 then Session(svc.closeStatus, st1.(active := false), loop.file, true, loop.blocks)
      else Session(0, st1.(active := false), loop.file, false, loop.blocks)
  }

  /**
   * Every exit of an opened WAV session is accounted for: each block pushed
   * cost one successful read, and the session is left active exactly when
   * the read after the last block failed, returning that read's code.
   */
  lemma PlayWavExits(st: SdStatics, data: seq<byte>, svc: Services, durationMs: nat, sampleRate: nat, bitDepth: nat)
    requires ToU16(WavFrameSize(durationMs, sampleRate, bitDepth)) > 0
    requires svc.openStatus >= 0
    ensures var s := PlayWav(st, data, svc, durationMs, sampleRate, bitDepth);
            && (forall j | 0 <= j < |s.blocks| :: svc.io(j) >= 0)
            && (s.st.active <==> svc.io(|s.blocks|) < 0)
            && (s.st.active ==> s.ret == svc.io(|s.blocks|))
  {
    var size := WavFrameSize(durationMs, sampleRate, bitDepth);
    WavFramesExits(File(data, 0), svc, 0, size, ToU16(size));
  }

  /**
   * When the first failing read is call `k` and the file holds at least `k`
   * full frames, the session returns that read's code with the active flag
   * set and the file open, after pushing `k` blocks.
   */
  lemma PlayWavReadFailure(st: SdStatics, data: seq<byte>, svc: Services, durationMs: nat, sampleRate: nat,
                           bitDepth: nat, k: nat)
    requires ToU16(WavFrameSize(durationMs, sampleRate, bitDepth)) > 0
    requires svc.openStatus >= 0 && svc.io(k) < 0
    requires forall j | 0 <= j < k :: svc.io(j) >= 0
    requires k * WavFrameSize(durationMs, sampleRate, bitDepth) <= |data|
    ensures PlayWav(st, data, svc, durationMs, sampleRate, bitDepth).ret == svc.io(k)
    ensures PlayWav(st, data, svc, durationMs, sampleRate, bitDepth).st.active
    ensures PlayWav(st, data, svc, durationMs, sampleRate, bitDepth).open
    ensures |PlayWav(st, data, svc, durationMs, sampleRate, bitDepth).blocks| == k
  {
    var size := WavFrameSize(durationMs, sampleRate, bitDepth);
    assert ToU16(size) <= size;
    WavFramesReadFailure(File(data, 0), svc, 0, size, ToU16(size), k);
  }

  /**
   * With every read succeeding, a failing close is the session's return
   * code; the loop has already cleared the active flag, and the file stays
   * open.
   */
  lemma PlayWavCloseFailure(st: SdStatics, data: seq<byte>, svc: Services, durationMs: nat, sampleRate: nat,
                            bitDepth: nat)
    requires ToU16(WavFrameSize(durationMs, sampleRate, bitDepth)) > 0
    requires svc.openStatus >= 0 && svc.closeStatus < 0
    requires forall j: nat :: svc.io(j) >= 0
    ensures PlayWav(st, data, svc, durationMs, sampleRate, bitDepth).ret == svc.closeStatus
    ensures !PlayWav(st, data, svc, durationMs, sampleRate, bitDepth).st.active
    ensures PlayWav(st, data, svc, durationMs, sampleRate, bitDepth).open
  {
    var size := WavFrameSize(durationMs, sampleRate, bitDepth);
    WavFramesExits(File(data, 0), svc, 0, size, ToU16(size));
  }

  /**
   * With nothing failing and a frame size that survives the 16-bit store,
   * the loop pushes consecutive full frames only: as many as fit in the rest
   * of the file, and the tail shorter than a frame is never pushed.
   */
  lemma {:induction false} WavFramesFaultless(f: OpenFile, svc: Services, io: nat, size: nat)
    requires Faultless(svc) && size > 0
    ensures WavFrames(f, svc, io, size, size).status == 0
    ensures forall i | 0 <= i < |WavFrames(f, svc, io, size, size).blocks| ::
              |WavFrames(f, svc, io, size, size).blocks[i]| == size
    ensures |WavFrames(f, svc, io, size, size).blocks| * size <= Remaining(f)
              < (|WavFrames(f, svc, io, size, size).blocks| + 1) * size
    decreases Remaining(f)
  {
    var (got, f1) := Read(f, size);
    if |got| >= size {
      WavFramesFaultless(f1, svc, io + 1, size);
      var k := |WavFrames(f1, svc, io + 1, size, size).blocks|;
      assert (k + 1) * size == k * size + size;
      assert (k + 2) * size == (k + 1) * size + size;
    }
  }

  lemma PlayWavFaultless(st: SdStatics, data: seq<byte>, svc: Services)
    requires Faultless(svc)
    ensures PlayWav(st, data, svc, WavDurationMs, SampleRate48K, WavBitDepth).ret == 0
    ensures !PlayWav(st, data, svc, WavDurationMs, SampleRate48K, WavBitDepth).st.active
    ensures var s := PlayWav(st, data, svc, WavDurationMs, SampleRate48K, WavBitDepth);
            && (forall i | 0 <= i < |s.blocks| :: |s.blocks[i]| == 960)
            && |s.blocks| * 960 <= |data| < (|s.blocks| + 1) * 960
            && Flatten(s.blocks) == data[..|Flatten(s.blocks)|]
  {
    DefaultWavFrameSize();
    WavFramesFaultless(File(data, 0), svc, 0, 960);
  }

  // ---------------------------------------------------------------------
  // Shell paths

  /** The text of a C string: no NUL before its end. */
  predicate NoNul(s: string)
  {
    forall i | 0 <= i < |s| :: s[i] != '\0'
  }

  /** `cd` treats an argument whose first character is '/' as "go to the root". */
  predicate IsRoot(arg: string)
  {
    |arg| > 0 && arg[0] == '/'
  }

  /** A shell path is empty (the root) or a chain of directories each ending in '/'. */
  predicate PathForm(p: string)
  {
    p == [] || p[|p| - 1] == '/'
  }

  /**
   * `cd <arg>`: a root argument empties the path; any other is appended with
   * a trailing '/'. `None` is an append that does not fit
   * `playback_file_path[260]` with its terminating NUL: the unchecked
   * `strcat` would write past the buffer.
   */
  function ChangeDir(path: string, arg: string): (p: Option<string>)
    requires NoNul(arg)
    ensures p.None? <==> !IsRoot(arg) && |path| + |arg| + 1 >= MaxPathLen
    ensures IsRoot(arg) ==> p == Some("")
    ensures p.Some? && !IsRoot(arg) ==>
              && |p.value| == |path| + |arg| + 1
              && p.value[..|path|] == path && p.value[|path|..|p.value| - 1] == arg && p.value[|p.value| - 1] == '/'
    ensures p.Some? ==> |p.value| < MaxPathLen && PathForm(p.value)
  {
    if IsRoot(arg) then Some("")
    else if |path| + |arg| + 1 >= MaxPathLen then None
    else Some(path + arg + "/")
  }

  /**
   * `play_lc3 <file>` / `play_wav <file>`: the file location is the path
   * followed by the name. `None` is a location that does not fit
   * `file_loc[MAX_PATH_LEN + MAX_FILENAME_LEN]` with its terminating NUL.
   */
  function PlayLocation(path: string, filename: string): (loc: Option<string>)
    ensures loc.None? <==> |path| + |filename| >= MaxPathLen + MaxFilenameLen
    ensures loc.Some? ==> |loc.value| == |path| + |filename|
    ensures loc.Some? ==> loc.value[..|path|] == path && loc.value[|path|..] == filename
  {
    if |path| + |filename| >= MaxPathLen + MaxFilenameLen then None else Some(path + filename)
  }

  /** Each directory name followed by '/'. */
  function Joined(dirs: seq<string>): string
  {
    if dirs == [] then "" else dirs[0] + "/" + Joined(dirs[1..])
  }

  /** The path after a sequence of `cd` commands; `None` when one of them would overflow the path buffer. */
  function ChangeDirs(path: string, args: seq<string>): Option<string>
    requires forall i | 0 <= i < |args| :: NoNul(args[i])
    decreases |args|
  {
    if args == [] then Some(path)
    else
      var p := ChangeDir(path, args[0]);
      if p.None? then None else ChangeDirs(p.value, args[1..])
  }

  /**
   * After a sequence of `cd` commands none of which goes to the root, the
   * path is the starting path followed by each argument and a '/'.
   */
  lemma {:induction false} ChangeDirsAppend(path: string, args: seq<string>)
    requires forall i | 0 <= i < |args| :: NoNul(args[i]) && !IsRoot(args[i])
    ensures ChangeDirs(path, args).Some? ==> ChangeDirs(path, args).value == path + Joined(args)
    decreases |args|
  {
    if args != [] && ChangeDir(path, args[0]).Some? {
      ChangeDirsAppend(ChangeDir(path, args[0]).value, args[1..]);
      assert path + args[0] + "/" + Joined(args[1..]) == path + Joined(args);
    }
  }

  /** A `cd` to the root forgets every earlier `cd`. */
  lemma {:induction false} ChangeDirsRootResets(path: string, args: seq<string>, k: nat)
    requires forall i | 0 <= i < |args| :: NoNul(args[i])
    requires k < |args| && IsRoot(args[k])
    requires ChangeDirs(path, args[..k]).Some?
    ensures ChangeDirs(path, args) == ChangeDirs("", args[k + 1..])
    decreases k
  {
    if k == 0 {
      assert args[1..] == args[k + 1..];
    } else {
      assert args[..k][1..] == args[1..][..k - 1];
      assert args[1..][k..] == args[k + 1..];
      ChangeDirsRootResets(ChangeDir(path, args[0]).value, args[1..], k - 1);
    }
  }
}
