/**
 * lc3_playback: the second LC3 player. A header pass (open, read the
 * header, peek one frame length, close) fixes the parameters; the play
 * pass reopens the file, skips the header and decodes `lc3_frames_num`
 * frames, all read with the one length peeked at the start. The frame's
 * own length prefix is skipped, never read. The ring side (`buffer_set`,
 * `mix_with_stream`, the push) is the shared hand-off of Pipeline.
 */
module Lc3Playback {
  import opened Common
  import opened Lc3Header
  import opened Driver

  /** The module's static variables that outlive a session. */
  datatype Statics = Statics(
    header: seq<byte>,       // header, as raw bytes
    headerSize: nat,         // header_size: in/out size of the header read and skip
    frameLength: seq<byte>,  // lc3_frame_length, as raw bytes
    framesNum: nat,          // lc3_frames_num
    pcmFrameSize: nat,       // pcm_mono_frame_size
    active: bool)            // lc3_playback_active
  type Lc3Statics = s: Statics | |s.header| == HeaderSize && s.headerSize <= HeaderSize && |s.frameLength| == 2
    witness Statics(seq(HeaderSize, _ => 0), HeaderSize, [0, 0], 0, 0, false)

  /** Zero-initialised statics, with `header_size = sizeof(header)`. */
  function Boot(): (st: Lc3Statics)
    ensures st.headerSize == HeaderSize && !st.active
  {
    Statics(seq(HeaderSize, _ => 0), HeaderSize, [0, 0], 0, 0, false)
  }

  /** The length every frame is read with: the peeked `uint16_t`. */
  function FrameLength(st: Lc3Statics): nat
  {
    LeU16(st.frameLength[0], st.frameLength[1])
  }

  // ---------------------------------------------------------------------
  // Header pass

  /** The statics after a successful header read: the bytes delivered and the in/out size. */
  function AfterHeaderRead(st: Lc3Statics, data: seq<byte>): (r: (Lc3Statics, OpenFile))
    ensures r.0 == st.(header := r.0.header, headerSize := r.0.headerSize)
    ensures r.1 == File(data, r.0.headerSize)
  {
    var (got, f1) := Read(File(data, 0), st.headerSize);
    (st.(header := Overlay(st.header, got), headerSize := |got|), f1)
  }

  /** The header a header pass would read makes lc3_playback's frame arithmetic defined. */
  predicate HeaderDefined(st: Lc3Statics, data: seq<byte>, hdr: Services)
  {
    hdr.openStatus >= 0 && hdr.io(0) >= 0 ==> Lc3FrameCountDefined(Decode(AfterHeaderRead(st, data).0.header))
  }

  /**
   * `lc3_playback_header_read`: open, read the header (with the in/out
   * `header_size`), derive the frame size and count, peek the first frame
   * length without moving the cursor, close. Returns the code, the statics
   * and whether the file is left open: a failed read, peek or close returns
   * at once with the file open; the pass never touches the active flag.
   */
  function HeaderPass(st: Lc3Statics, data: seq<byte>, hdr: Services): (r: (int, Lc3Statics, bool))
    requires HeaderDefined(st, data, hdr)
    ensures r.0 == 0 <==> hdr.openStatus >= 0 && hdr.io(0) >= 0 && hdr.io(1) >= 0 && hdr.closeStatus >= 0
    ensures hdr.openStatus < 0 ==> r.0 == hdr.openStatus && r.1 == st
    ensures hdr.openStatus >= 0 && hdr.io(0) < 0 ==> r.0 == hdr.io(0) && r.1 == st
    ensures hdr.openStatus >= 0 && hdr.io(0) >= 0 && hdr.io(1) < 0 ==> r.0 == hdr.io(1)
    ensures hdr.openStatus >= 0 && hdr.io(0) >= 0 && hdr.io(1) >= 0 && hdr.closeStatus < 0 ==> r.0 == hdr.closeStatus
    ensures r.2 <==> r.0 < 0 && hdr.openStatus >= 0
    ensures r.1.active == st.active
  {
    if hdr.openStatus < 0 then (hdr.openStatus, st, false)
    else if hdr.io(0) < 0 then (hdr.io(0), st, true)
    else
      var (st1, f1) := AfterHeaderRead(st, data);
      var h := Decode(st1.header);
      var st2 := st1.(pcmFrameSize := PcmFrameSize(h), framesNum := Lc3FramesNum(h));
      if hdr.io(1) < 0 then (hdr.io(1), st2, true)
      else
        var peeked := Read(f1, 2).0;
        var st3 := st2.(frameLength := Overlay(st2.frameLength, peeked));
        if hdr.closeStatus < 0 then (hdr.closeStatus, st3, true)
        else (0, st3, false)
  }

  /**
   * A header pass over a file of at least 20 bytes with the full header
   * size: the header is the first 18 bytes, the frame size and count come
   * from it, and the frame length is the 2 bytes right after it.
   */
  lemma HeaderPassReads(st: Lc3Statics, data: seq<byte>, hdr: Services)
    requires st.headerSize == HeaderSize && |data| >= HeaderSize + 2
    requires Faultless(hdr)
    requires Lc3FrameCountDefined(Decode(data[..HeaderSize]))
    ensures HeaderDefined(st, data, hdr)
    ensures var r := HeaderPass(st, data, hdr);
      && r.0 == 0 && !r.2
      && r.1.header == data[..HeaderSize] && r.1.headerSize == HeaderSize
      && r.1.pcmFrameSize == PcmFrameSize(Decode(data[..HeaderSize]))
      && r.1.framesNum == Lc3FramesNum(Decode(data[..HeaderSize]))
      && r.1.frameLength == data[HeaderSize..HeaderSize + 2]
      && FrameLength(r.1) == LeU16(data[HeaderSize], data[HeaderSize + 1])
  {
    var (st1, f1) := AfterHeaderRead(st, data);
    assert st1.header == data[..HeaderSize];
    var peeked := Read(f1, 2).0;
    assert peeked == data[HeaderSize..HeaderSize + 2];
    assert Overlay(st1.frameLength, peeked) == peeked;
    assert peeked[0] == data[HeaderSize] && peeked[1] == data[HeaderSize + 1];
  }

  // ---------------------------------------------------------------------
  // Play pass

  /**
   * Where the frame loop stops: status, file, the I/O call it stopped at
   * (the failing one, or the frame read before a rejected decode), the local
   * in/out sizes `lc3_fr_len_size` and `lc3_fr_len`, the frame buffer, and
   * the blocks pushed.
   */
  datatype Loop = Loop(status: int, file: OpenFile, io: nat, lenSize: nat, frLen: nat,
                       frame: seq<byte>, blocks: seq<seq<byte>>)

  /**
   * `n` iterations of the frame loop from I/O call `io`: skip `lenSize`
   * bytes of prefix, read up to `frLen` bytes into the frame buffer (a short
   * read leaves the buffer's tail from the previous frame), decode the whole
   * buffer, push the output. Both sizes are in/out: a short skip or read
   * shrinks every later request. The decoder is always told the peeked
   * length, which is the buffer's size.
   */
  function Frames(f: OpenFile, svc: Services, io: nat, lenSize: nat, frLen: nat, frame: seq<byte>, n: nat)
    : (r: Loop)
    requires frLen <= |frame|
    ensures r.status <= 0
    ensures |r.blocks| <= n
    ensures r.status == 0 ==> |r.blocks| == n && r.io == io + 2 * n
    ensures r.status < 0 ==> io <= r.io < io + 2 * n
    ensures r.lenSize <= lenSize && r.frLen <= frLen
    ensures |r.frame| == |frame|
    ensures r.file.data == f.data && r.file.pos >= f.pos
    decreases n
  {
    if n == 0 then Loop(0, f, io, lenSize, frLen, frame, [])
    else if svc.io(io) < 0 then Loop(svc.io(io), f, io, lenSize, frLen, frame, [])
    else
      var (skipped, f1) := Read(f, lenSize);
      if svc.io(io + 1) < 0 then Loop(svc.io(io + 1), f1, io + 1, |skipped|, frLen, frame, [])
      else
        var (got, f2) := Read(f1, frLen);
        var frame1 := Overlay(frame, got);
        var d := svc.decode(frame1, |frame1|);
        if d.status < 0 then Loop(d.status, f2, io + 1, |skipped|, |got|, frame1, [])
        else
          var rest := Frames(f2, svc, io + 2, |skipped|, |got|, frame1, n - 1);
          Loop(rest.status, rest.file, rest.io, rest.lenSize, rest.frLen, rest.frame, [d.pcm] + rest.blocks)
  }

  /**
   * The exit of a frame loop started at call `io` is accounted for: one
   * block per completed frame, each I/O call before the one it stopped at
   * succeeded, a failing skip or read returns its own code, and any other
   * failure is the decoder's verdict on the frame buffer it stopped with.
   */
  predicate Accounted(r: Loop, svc: Services, io: nat)
  {
    && io <= r.io
    && |r.blocks| == (r.io - io) / 2
    && (forall k | io <= k < r.io :: svc.io(k) >= 0)
    && (r.status < 0 && svc.io(r.io) < 0 ==> r.status == svc.io(r.io))
    && (r.status < 0 && svc.io(r.io) >= 0 ==>
          (r.io - io) % 2 == 1 && r.status == svc.decode(r.frame, |r.frame|).status)
  }

  /** The iteration at call `io` completes: the skip, the read and the decode succeed. */
  predicate Continues(f: OpenFile, svc: Services, io: nat, lenSize: nat, frLen: nat, frame: seq<byte>, n: nat)
    requires frLen <= |frame|
  {
    var frame1 := Overlay(frame, Read(Read(f, lenSize).1, frLen).0);
    n > 0 && svc.io(io) >= 0 && svc.io(io + 1) >= 0 && svc.decode(frame1, |frame1|).status >= 0
  }

  /** Every exit of the frame loop is accounted for. */
  lemma {:induction false} FramesExits(f: OpenFile, svc: Services, io: nat, lenSize: nat, frLen: nat,
                                       frame: seq<byte>, n: nat)
    requires frLen <= |frame|
    ensures Accounted(Frames(f, svc, io, lenSize, frLen, frame, n), svc, io)
    decreases n
  {
    if Continues(f, svc, io, lenSize, frLen, frame, n) {
      var (skipped, f1) := Read(f, lenSize);
      var (got, f2) := Read(f1, frLen);
      var frame1 := Overlay(frame, got);
      FramesExits(f2, svc, io + 2, |skipped|, |got|, frame1, n - 1);
      FramesCons(f, svc, io, lenSize, frLen, frame, n, skipped, f1, got, f2);
    } else {
      FramesStops(f, svc, io, lenSize, frLen, frame, n);
    }
  }

  /** An iteration that does not complete is the loop's accounted-for exit. */
  lemma FramesStops(f: OpenFile, svc: Services, io: nat, lenSize: nat, frLen: nat, frame: seq<byte>, n: nat)
    requires frLen <= |frame|
    requires !Continues(f, svc, io, lenSize, frLen, frame, n)
    ensures Accounted(Frames(f, svc, io, lenSize, frLen, frame, n), svc, io)
  {
  }

  /** An iteration that completes keeps the accounting of the iterations after it. */
  lemma FramesCons(f: OpenFile, svc: Services, io: nat, lenSize: nat, frLen: nat, frame: seq<byte>, n: nat,
                   skipped: seq<byte>, f1: OpenFile, got: seq<byte>, f2: OpenFile)
    requires frLen <= |frame|
    requires Continues(f, svc, io, lenSize, frLen, frame, n)
    requires (skipped, f1) == Read(f, lenSize) && (got, f2) == Read(f1, frLen)
    requires Accounted(Frames(f2, svc, io + 2, |skipped|, |got|, Overlay(frame, got), n - 1), svc, io + 2)
    ensures Accounted(Frames(f, svc, io, lenSize, frLen, frame, n), svc, io)
  {
    var r := Frames(f, svc, io, lenSize, frLen, frame, n);
    var rest := Frames(f2, svc, io + 2, |skipped|, |got|, Overlay(frame, got), n - 1);
    assert r.status == rest.status && r.io == rest.io && r.frame == rest.frame;
    assert |r.blocks| == |rest.blocks| + 1;
    AccountedStep(r, rest, svc, io);
  }

  /** An iteration whose skip and read succeeded and that pushed one block keeps the accounting after it. */
  lemma AccountedStep(r: Loop, rest: Loop, svc: Services, io: nat)
    requires Accounted(rest, svc, io + 2)
    requires svc.io(io) >= 0 && svc.io(io + 1) >= 0
    requires r.status == rest.status && r.io == rest.io && r.frame == rest.frame
    requires |r.blocks| == |rest.blocks| + 1
    ensures Accounted(r, svc, io)
  {
    assert (r.io - io) % 2 == (rest.io - (io + 2)) % 2;
    assert (r.io - io) / 2 == (rest.io - (io + 2)) / 2 + 1;
  }

  /**
   * With a decoder that accepts everything, the first failing skip or read
   * ends the loop with that call's code, after one block per frame
   * completed before it.
   */
  lemma FramesReadFailure(f: OpenFile, svc: Services, io: nat, lenSize: nat, frLen: nat, frame: seq<byte>, n: nat,
                          k: nat)
    requires frLen <= |frame|
    requires io <= k < io + 2 * n && svc.io(k) < 0
    requires forall j | io <= j < k :: svc.io(j) >= 0
    requires forall b, l :: svc.decode(b, l).status >= 0
    ensures Frames(f, svc, io, lenSize, frLen, frame, n).status == svc.io(k)
    ensures |Frames(f, svc, io, lenSize, frLen, frame, n).blocks| == (k - io) / 2
  {
    var r := Frames(f, svc, io, lenSize, frLen, frame, n);
    FramesExits(f, svc, io, lenSize, frLen, frame, n);
    assert r.io <= k;
    assert r.io == k;
  }

  /**
   * How a play ends: its return code, the statics, the file, whether it is
   * still open, and the blocks pushed in order.
   */
  datatype Session = Session(ret: int, st: Lc3Statics, file: OpenFile, open: bool, blocks: seq<seq<byte>>)

  /**
   * The play pass of `lc3_playback_play`: open, skip the header (with the
   * in/out `header_size`), set the active flag, run `lc3_frames_num`
   * iterations starting with the peeked length and a 2-byte prefix size,
   * close. The frame buffer starts with whatever `uninit` says the stack
   * held. A failing step returns its code at once; only the success path
   * clears the active flag.
   */
  function PlayPass(st: Lc3Statics, data: seq<byte>, svc: Services, uninit: int -> byte): (s: Session)
    ensures s.ret <= 0
    ensures svc.openStatus < 0 ==> s.ret == svc.openStatus && !s.open && s.st == st && s.blocks == []
    ensures svc.openStatus >= 0 && svc.io(0) < 0 ==> s.ret == svc.io(0) && s.open && s.st == st && s.blocks == []
    ensures svc.openStatus >= 0 && svc.io(0) >= 0 ==>
              (s.open <==> s.ret < 0) && (s.st.active <==> s.ret < 0)
    ensures s.st == st.(headerSize := s.st.headerSize, active := s.st.active)
    ensures s.st.headerSize <= st.headerSize
    ensures |s.blocks| <= st.framesNum
    ensures s.ret == 0 ==> |s.blocks| == st.framesNum
  {
    var f := File(data, 0);
    if svc.openStatus < 0 then Session(svc.openStatus, st, f, false, [])
    else if svc.io(0) < 0 then Session(svc.io(0), st, f, true, [])
    else
      var (skipped, f1) := Read(f, st.headerSize);
      var st1 := st.(headerSize := |skipped|, active := true);
      var len := FrameLength(st);
      var loop := Frames(f1, svc, 1, 2, len, seq(len, i => uninit(i)), st.framesNum);
      if loop.status < 0 then Session(loop.status, st1, loop.file, true, loop.blocks)
      else if svc.closeStatus < 0 then Session(svc.closeStatus, st1, loop.file, true, loop.blocks)
      else Session(0, st1.(active := false), loop.file, false, loop.blocks)
  }

  /**
   * With a decoder that accepts everything, the first failing skip or read
   * in the frame loop (call `k`, after the header skip at call 0) is the
   * play pass's return code: the file stays open, the active flag stays set,
   * and one block was pushed per frame completed before it.
   */
  lemma PlayPassReadFailure(st: Lc3Statics, data: seq<byte>, svc: Services, uninit: int -> byte, k: nat)
    requires svc.openStatus >= 0
    requires 1 <= k < 1 + 2 * st.framesNum && svc.io(k) < 0
    requires forall j | 0 <= j < k :: svc.io(j) >= 0
    requires forall b, l :: svc.decode(b, l).status >= 0
    ensures PlayPass(st, data, svc, uninit).ret == svc.io(k)
    ensures PlayPass(st, data, svc, uninit).st.active && PlayPass(st, data, svc, uninit).open
    ensures |PlayPass(st, data, svc, uninit).blocks| == (k - 1) / 2
  {
    var f1 := Read(File(data, 0), st.headerSize).1;
    var len := FrameLength(st);
    FramesReadFailure(f1, svc, 1, 2, len, seq(len, i => uninit(i)), st.framesNum, k);
  }

  /**
   * A frame loop that completes every frame followed by a failing close
   * returns the close's code, with the file open and the active flag set.
   */
  lemma PlayPassCloseFailure(st: Lc3Statics, data: seq<byte>, svc: Services, uninit: int -> byte)
    requires svc.openStatus >= 0 && svc.closeStatus < 0
    requires forall j | 0 <= j < 1 + 2 * st.framesNum :: svc.io(j) >= 0
    requires forall b, l :: svc.decode(b, l).status >= 0
    ensures PlayPass(st, data, svc, uninit).ret == svc.closeStatus
    ensures PlayPass(st, data, svc, uninit).st.active && PlayPass(st, data, svc, uninit).open
    ensures |PlayPass(st, data, svc, uninit).blocks| == st.framesNum
  {
    var f1 := Read(File(data, 0), st.headerSize).1;
    var len := FrameLength(st);
    FramesExits(f1, svc, 1, 2, len, seq(len, i => uninit(i)), st.framesNum);
  }

  /**
   * Over a file whose frames after a full header are uniform, with no
   * failing I/O, a decoder that accepts the first `m` payloads and rejects
   * payload `m` is the play pass's return code: the file stays open, the
   * active flag stays set, and exactly the first `m` outputs were pushed.
   */
  lemma PlayPassDecodeFailure(st: Lc3Statics, data: seq<byte>, svc: Services, uninit: int -> byte,
                              payloads: seq<seq<byte>>, m: nat)
    requires svc.openStatus >= 0 && forall k: nat :: svc.io(k) >= 0
    requires st.headerSize == HeaderSize
    requires m < st.framesNum && |payloads| == m + 1
    requires Uniform(data, HeaderSize, FrameLength(st), payloads)
    requires DecodesAll(svc, payloads[..m]) && svc.decode(payloads[m], |payloads[m]|).status < 0
    ensures PlayPass(st, data, svc, uninit).ret == svc.decode(payloads[m], |payloads[m]|).status
    ensures PlayPass(st, data, svc, uninit).st.active && PlayPass(st, data, svc, uninit).open
    ensures PlayPass(st, data, svc, uninit).blocks == DecodeAll(svc, payloads[..m])
  {
    var len := FrameLength(st);
    var f1: OpenFile := File(data, HeaderSize);
    assert Read(File(data, 0), st.headerSize).1 == f1;
    assert forall j | 0 <= j < m :: payloads[..m][j] == payloads[j];
    FramesDecodeFailure(f1, svc, 1, seq(len, i => uninit(i)), payloads, st.framesNum, m);
    DecodedBeforeIsPrefix(svc, payloads, m);
  }

  /**
   * `lc3_playback_play`: the header pass with its own driver results
   * `hdr`, then the play pass with `svc`. A failed header pass returns its
   * code and pushes nothing.
   */
  function Play(st: Lc3Statics, data: seq<byte>, hdr: Services, svc: Services, uninit: int -> byte): (s: Session)
    requires HeaderDefined(st, data, hdr)
    ensures s.ret <= 0
    ensures HeaderPass(st, data, hdr).0 < 0 ==>
              s.ret == HeaderPass(st, data, hdr).0 && s.blocks == [] && s.st.active == st.active
    ensures s.ret == 0 ==> !s.st.active && !s.open
    ensures s.ret == 0 ==> |s.blocks| == s.st.framesNum
  {
    var (ret, st1, open) := HeaderPass(st, data, hdr);
    if ret < 0 then Session(ret, st1, File(data, 0), open, [])
    else PlayPass(st1, data, svc, uninit)
  }

  // ---------------------------------------------------------------------
  // Well-formed files of uniform frames

  /** The frame starting at `start` is a 2-byte prefix followed by exactly the `len` bytes of `payload`. */
  predicate PayloadAt(data: seq<byte>, start: nat, len: nat, payload: seq<byte>)
  {
    && |payload| == len
    && start + 2 + len <= |data|
    && data[start + 2..start + 2 + len] == payload
  }

  /**
   * From `pos` on, the data holds one frame per payload, one after another.
   * The prefixes' values are never looked at.
   */
  predicate Uniform(data: seq<byte>, pos: nat, len: nat, payloads: seq<seq<byte>>)
    decreases |payloads|
  {
    payloads == [] ||
    (PayloadAt(data, pos, len, payloads[0]) && Uniform(data, pos + 2 + len, len, payloads[1..]))
  }

  /** Frame `i` starts at `pos + i * (2 + len)`, for every payload. */
  predicate AtOffsets(data: seq<byte>, pos: nat, len: nat, payloads: seq<seq<byte>>)
  {
    forall i | 0 <= i < |payloads| :: PayloadAt(data, pos + i * (2 + len), len, payloads[i])
  }

  lemma OffsetShift(pos: nat, len: nat, i: nat)
    ensures pos + (i + 1) * (2 + len) == (pos + 2 + len) + i * (2 + len)
    ensures pos + 0 * (2 + len) == pos
  {
    assert (i + 1) * (2 + len) == i * (2 + len) + (2 + len);
  }

  /**
   * The uniform layout puts frame `i`'s payload at
   * `pos + i * (2 + len) + 2`, and a file with every payload at its offset
   * has the uniform layout.
   */
  lemma UniformOffsets(data: seq<byte>, pos: nat, len: nat, payloads: seq<seq<byte>>)
    ensures Uniform(data, pos, len, payloads) <==> AtOffsets(data, pos, len, payloads)
  {
    if Uniform(data, pos, len, payloads) {
      UniformToOffsets(data, pos, len, payloads);
    }
    if AtOffsets(data, pos, len, payloads) {
      OffsetsToUniform(data, pos, len, payloads);
    }
  }

  lemma {:induction false} UniformToOffsets(data: seq<byte>, pos: nat, len: nat, payloads: seq<seq<byte>>)
    requires Uniform(data, pos, len, payloads)
    ensures AtOffsets(data, pos, len, payloads)
    decreases |payloads|
  {
    if payloads != [] {
      var tail := payloads[1..];
      UniformToOffsets(data, pos + 2 + len, len, tail);
      forall i | 0 <= i < |payloads|
        ensures PayloadAt(data, pos + i * (2 + len), len, payloads[i])
      {
        OffsetShift(pos, len, if i == 0 then 0 else i - 1);
        if i > 0 {
          assert payloads[i] == tail[i - 1];
        }
      }
    }
  }

  lemma {:induction false} OffsetsToUniform(data: seq<byte>, pos: nat, len: nat, payloads: seq<seq<byte>>)
    requires AtOffsets(data, pos, len, payloads)
    ensures Uniform(data, pos, len, payloads)
    decreases |payloads|
  {
    if payloads != [] {
      var tail := payloads[1..];
      forall i | 0 <= i < |tail|
        ensures PayloadAt(data, pos + 2 + len + i * (2 + len), len, tail[i])
      {
        OffsetShift(pos, len, i);
        assert tail[i] == payloads[i + 1];
      }
      OffsetsToUniform(data, pos + 2 + len, len, tail);
      OffsetShift(pos, len, 0);
      assert PayloadAt(data, pos + 0 * (2 + len), len, payloads[0]);
    }
  }

  /** A uniform stream occupies `2 + len` bytes per frame. */
  lemma {:induction false} UniformSize(data: seq<byte>, pos: nat, len: nat, payloads: seq<seq<byte>>)
    requires Uniform(data, pos, len, payloads)
    ensures StreamSize(payloads) == |payloads| * (2 + len)
    decreases |payloads|
  {
    if payloads != [] {
      UniformSize(data, pos + 2 + len, len, payloads[1..]);
      assert |payloads| * (2 + len) == (|payloads| - 1) * (2 + len) + (2 + len);
    }
  }

  /** The loop ran to the end, pushed `blocks`, and left the cursor at `pos`. */
  predicate LoopDone(r: Loop, blocks: seq<seq<byte>>, pos: nat)
  {
    r.status == 0 && r.blocks == blocks && r.file.pos == pos
  }

  /**
   * The loop over a uniform stream with no failing I/O, every frame
   * accepted, and full sizes (2-byte prefix, buffer-sized reads): it pushes
   * the decoder's output for each payload in order and consumes `2 + len`
   * bytes per frame.
   */
  lemma {:induction false} FramesUniform(f: OpenFile, svc: Services, io: nat, frame: seq<byte>,
                                         payloads: seq<seq<byte>>, n: nat)
    requires n == |payloads|
    requires forall k: nat | io <= k :: svc.io(k) >= 0
    requires DecodesAll(svc, payloads)
    requires Uniform(f.data, f.pos, |frame|, payloads)
    ensures LoopDone(Frames(f, svc, io, 2, |frame|, frame, n), DecodeAll(svc, payloads),
                     f.pos + StreamSize(payloads))
    decreases n
  {
    if n > 0 {
      var f2: OpenFile := File(f.data, f.pos + 2 + |frame|);
      DecodesTail(svc, payloads);
      FramesUniform(f2, svc, io + 2, payloads[0], payloads[1..], n - 1);
      FrameStep(f, svc, io, frame, payloads, n, f2);
    }
  }

  /** One iteration over a uniform stream: what the loop does after the first frame carries over. */
  lemma FrameStep(f: OpenFile, svc: Services, io: nat, frame: seq<byte>, payloads: seq<seq<byte>>, n: nat,
                  f': OpenFile)
    requires n == |payloads| && n > 0
    requires svc.io(io) >= 0 && svc.io(io + 1) >= 0
    requires svc.decode(payloads[0], |payloads[0]|).status >= 0
    requires PayloadAt(f.data, f.pos, |frame|, payloads[0])
    requires f' == File(f.data, f.pos + 2 + |frame|)
    requires LoopDone(Frames(f', svc, io + 2, 2, |frame|, payloads[0], n - 1), DecodeAll(svc, payloads[1..]),
                      f'.pos + StreamSize(payloads[1..]))
    ensures LoopDone(Frames(f, svc, io, 2, |frame|, frame, n), DecodeAll(svc, payloads),
                     f.pos + StreamSize(payloads))
  {
    FrameUnfold(f, svc, io, frame, payloads[0], n, f');
    assert DecodeAll(svc, payloads) == [svc.decode(payloads[0], |payloads[0]|).pcm] + DecodeAll(svc, payloads[1..]);
    assert StreamSize(payloads) == 2 + |frame| + StreamSize(payloads[1..]);
  }

  /**
   * The loop's first iteration when the payload after the prefix fills the
   * buffer: a rejected payload ends the loop with the decoder's code, an
   * accepted one is pushed ahead of what the rest of the loop pushes.
   */
  lemma FrameUnfold(f: OpenFile, svc: Services, io: nat, frame: seq<byte>, payload: seq<byte>, n: nat,
                    f': OpenFile)
    requires n > 0
    requires PayloadAt(f.data, f.pos, |frame|, payload)
    requires svc.io(io) >= 0 && svc.io(io + 1) >= 0
    requires f' == File(f.data, f.pos + 2 + |frame|)
    ensures svc.decode(payload, |payload|).status < 0 ==>
              Frames(f, svc, io, 2, |frame|, frame, n) == Loop(svc.decode(payload, |payload|).status, f', io + 1, 2,
                                                               |frame|, payload, [])
    ensures var r, rest := Frames(f, svc, io, 2, |frame|, frame, n), Frames(f', svc, io + 2, 2, |frame|, payload, n - 1);
            svc.decode(payload, |payload|).status >= 0 ==>
              r == rest.(blocks := [svc.decode(payload, |payload|).pcm] + rest.blocks)
  {
    var r1 := Read(f, 2);
    assert r1.1 == File(f.data, f.pos + 2);
    var r2 := Read(r1.1, |frame|);
    assert r2.0 == payload;
    assert r2.1 == f';
    assert Overlay(frame, r2.0) == payload;
  }

  /**
   * Over a uniform stream with no failing I/O and full sizes, when the
   * decoder accepts the first `m` payloads and rejects payload `m`, the loop
   * returns the decoder's code, having pushed the output of exactly the
   * first `m` payloads, with payload `m` left in the frame buffer.
   */
  lemma {:induction false} FramesDecodeFailure(f: OpenFile, svc: Services, io: nat, frame: seq<byte>,
                                               payloads: seq<seq<byte>>, n: nat, m: nat)
    requires m < n && |payloads| == m + 1
    requires forall k: nat | io <= k :: svc.io(k) >= 0
    requires forall j | 0 <= j < m :: svc.decode(payloads[j], |payloads[j]|).status >= 0
    requires svc.decode(payloads[m], |payloads[m]|).status < 0
    requires Uniform(f.data, f.pos, |frame|, payloads)
    ensures Frames(f, svc, io, 2, |frame|, frame, n).status == svc.decode(payloads[m], |payloads[m]|).status
    ensures Frames(f, svc, io, 2, |frame|, frame, n).blocks == DecodedBefore(svc, payloads, m)
    ensures Frames(f, svc, io, 2, |frame|, frame, n).frame == payloads[m]
    decreases m
  {
    var f2: OpenFile := File(f.data, f.pos + 2 + |frame|);
    FrameUnfold(f, svc, io, frame, payloads[0], n, f2);
    if m > 0 {
      FramesDecodeFailure(f2, svc, io + 2, payloads[0], payloads[1..], n - 1, m - 1);
    }
  }

  /**
   * A well-formed file plays to completion: with nothing failing in either
   * pass, a full-size header read, and after the 18-byte header exactly the
   * frames the header counts, all of the peeked length, the play returns 0
   * with the active flag cleared and the file closed, pushes the decoder's
   * output for every payload in order, and stops after the last payload
   * (`2 + len` bytes per frame, by UniformSize).
   */
  lemma PlayWellFormed(st: Lc3Statics, data: seq<byte>, hdr: Services, svc: Services, uninit: int -> byte,
                       payloads: seq<seq<byte>>)
    requires st.headerSize == HeaderSize && |data| >= HeaderSize + 2
    requires Faultless(hdr) && Faultless(svc)
    requires Lc3FrameCountDefined(Decode(data[..HeaderSize]))
    requires Lc3FramesNum(Decode(data[..HeaderSize])) == |payloads|
    requires Uniform(data, HeaderSize, LeU16(data[HeaderSize], data[HeaderSize + 1]), payloads)
    ensures HeaderDefined(st, data, hdr)
    ensures PlayDone(Play(st, data, hdr, svc, uninit), DecodeAll(svc, payloads), HeaderSize + StreamSize(payloads))
  {
    HeaderPassReads(st, data, hdr);
    var st1 := HeaderPass(st, data, hdr).1;
    var len := FrameLength(st1);
    var f1: OpenFile := File(data, HeaderSize);
    assert Read(File(data, 0), st1.headerSize).1 == f1;
    FramesUniform(f1, svc, 1, seq(len, i => uninit(i)), payloads, |payloads|);
  }

  /** A session that returned 0, cleared the active flag, closed the file, pushed `blocks` and stopped at `pos`. */
  predicate PlayDone(s: Session, blocks: seq<seq<byte>>, pos: nat)
  {
    s.ret == 0 && !s.st.active && !s.open && s.blocks == blocks && s.file.pos == pos
  }
}
