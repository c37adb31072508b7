/**
 * audio_wav: raw PCM streamed from the SD card to I2S through a ring of
 * four slot-sized chunks. The producer (`play_file_from_sd`) primes the two
 * I2S slots A and B, then moves half a ring per semaphore take; the I2S
 * completion callback refills exactly the slot it released and gives the
 * semaphore once more than half the ring is free. Both sides are atomic
 * transitions of one state; the I2S driver is seen only through the slots
 * it is handed and the buffers it hands back.
 */
module AudioWav {
  import opened Common
  import opened RingBuffer
  import opened Semaphore
  import opened Driver

  /**
   * The buffer sizes in bytes for `I2S_SAMPLES_NUM` samples (a constant of
   * the I2S driver): a slot holds `I2S_16BIT_SAMPLE_NUM` 16-bit words, the
   * ring four slots, a transfer half the ring.
   */
  datatype Geometry = Geometry(slot: nat, ring: nat, transfer: nat)

  function GeometryFor(samplesNum: nat): (g: Geometry)
    ensures g.ring == 4 * g.slot
    ensures g.transfer == 2 * g.slot
    ensures g.transfer < g.ring || samplesNum == 0
  {
    var sampleNum16 := samplesNum * 2;
    var soundBufSize := sampleNum16 * 2 * 4;
    Geometry(sampleNum16 * 2, soundBufSize, soundBufSize / 2)
  }

  /** The I2S buffers: the two transmit slots, or a pointer that is neither. */
  datatype Buf = BufA | BufB | Other

  /**
   * Everything the two sides share: the ring, `m_sem_load_from_sd`, the
   * contents of the slots, every slot handed to the I2S driver in order,
   * the file and the next driver call, every byte committed to the ring and
   * every byte moved out of it into a slot, whether I2S is running and the
   * file open, and the return value once `play_file_from_sd` has returned.
   */
  datatype Player = Player(
    ring: RingBuf,
    sem: KSem,
    a: seq<byte>,
    b: seq<byte>,
    handed: seq<Buf>,
    file: OpenFile,
    io: nat,
    committed: seq<byte>,
    delivered: seq<byte>,
    i2s: bool,
    open: bool,
    ret: Option<int>)

  /** The slots hold one slot's worth of bytes each. */
  predicate SlotsSized(g: Geometry, p: Player)
  {
    |p.a| == g.slot && |p.b| == g.slot
  }

  /**
   * `sd_card_to_buffer(numbytes)`: claim up to `numbytes`, read at most the
   * claimed length straight into the claim, commit and return the length
   * the read reports. The read's status is ignored: a failed read leaves
   * the length at the claim and commits whatever the claimed memory held
   * (`stale`). Returns the count, the ring, the file and the bytes committed.
   */
  function SdCardToBuffer(ring: RingBuf, f: OpenFile, svc: Services, io: nat, numbytes: nat, contiguous: nat,
                          stale: int -> byte): (r: (nat, RingBuf, OpenFile, seq<byte>))
    ensures r.0 == |r.3| && r.0 <= Claim(ring, numbytes, contiguous) && r.0 <= numbytes
    ensures r.1.data == ring.data + r.3 && r.1.capacity == ring.capacity
    ensures r.2.data == f.data
    ensures svc.io(io) >= 0 ==>
              && f.pos + r.0 <= |f.data|
              && r.3 == f.data[f.pos..f.pos + r.0]
              && r.2.pos == f.pos + r.0
              && (r.0 < Claim(ring, numbytes, contiguous) <==> Remaining(f) < Claim(ring, numbytes, contiguous))
    ensures svc.io(io) < 0 ==> r.0 == Claim(ring, numbytes, contiguous) && r.2 == f
  {
    var c := Claim(ring, numbytes, contiguous);
    var (bytes, f1) := if svc.io(io) < 0 then (seq(c, i => stale(i)), f) else Read(f, c);
    (|bytes|, Finish(ring, bytes), f1, bytes)
  }

  /** `m_i2s_tx_buf_a` / `_b` at boot: zero-initialised statics. */
  function Zeros(n: nat): (z: seq<byte>)
    ensures |z| == n
  {
    seq(n, _ => 0)
  }

  /**
   * The start of `play_file_from_sd`: open (a failure returns its code),
   * fill the ring with one transfer of the whole ring size, copy a slot's
   * worth into A and start I2S with it, copy the next slot's worth into B
   * and queue it. A short copy leaves the slot's tail as it was.
   */
  function Start(g: Geometry, data: seq<byte>, svc: Services, contiguous: nat, stale: int -> byte): (p: Player)
    ensures SlotsSized(g, p) && p.ring.capacity == g.ring
    ensures svc.openStatus < 0 <==> p.ret.Some?
    ensures svc.openStatus < 0 ==> p.ret == Some(svc.openStatus) && !p.open && !p.i2s && p.handed == []
    ensures svc.openStatus >= 0 ==> p.open && p.i2s && p.handed == [BufA, BufB] && p.io == 1 && p.sem == Define(0, 1)
  {
    var f := File(data, 0);
    var empty := Declare(g.ring);
    if svc.openStatus < 0 then
      Player(empty, Define(0, 1), Zeros(g.slot), Zeros(g.slot), [], f, 0, [], [], false, false,
             Some(svc.openStatus))
    else
      var (_, ring1, f1, bytes) := SdCardToBuffer(empty, f, svc, 0, g.ring, contiguous, stale);
      var (outA, ring2) := Get(ring1, g.slot);
      var (outB, ring3) := Get(ring2, g.slot);
      Player(ring3, Define(0, 1), Overlay(Zeros(g.slot), outA), Overlay(Zeros(g.slot), outB), [BufA, BufB],
             f1, 1, bytes, outA + outB, true, true, None)
  }

  /**
   * `i2s_callback`: the released slot, and only that one, gets up to a
   * slot's worth of the oldest ring bytes (the count is ignored, so on
   * underrun its tail keeps the previous audio) and is handed back to the
   * driver; then the semaphore is given iff more than a transfer's worth
   * of the ring is free. An unrecognised buffer changes nothing.
   */
  function Callback(g: Geometry, p: Player, released: Buf): (q: Player)
    requires SlotsSized(g, p)
    ensures SlotsSized(g, q)
    ensures released == Other ==> q == p
    ensures released == BufA ==> q.b == p.b && q.handed == p.handed + [BufA]
    ensures released == BufB ==> q.a == p.a && q.handed == p.handed + [BufB]
    ensures released != Other ==> |p.delivered| <= |q.delivered|
    ensures released != Other ==>
              var out := q.delivered[|p.delivered|..];
              && q.delivered == p.delivered + out
              && |out| == Min(g.slot, |p.ring.data|)
              && p.ring.data == out + q.ring.data
              && (released == BufA ==> q.a[..|out|] == out && q.a[|out|..] == p.a[|out|..])
              && (released == BufB ==> q.b[..|out|] == out && q.b[|out|..] == p.b[|out|..])
              && q.sem == (if Space(q.ring) > g.transfer then Give(p.sem) else p.sem)
    ensures q.ring.capacity == p.ring.capacity && q.committed == p.committed
    ensures q.file == p.file && q.io == p.io && q.i2s == p.i2s && q.open == p.open && q.ret == p.ret
  {
    if released == Other then p
    else
      var (out, ring) := Get(p.ring, g.slot);
      var p1 :=
        if released == BufA then p.(ring := ring, a := Overlay(p.a, out), handed := p.handed + [BufA])
        else p.(ring := ring, b := Overlay(p.b, out), handed := p.handed + [BufB]);
      var sem := if Space(ring) > g.transfer then Give(p.sem) else p.sem;
      p1.(delivered := p.delivered + out, sem := sem)
  }

  /**
   * One iteration of the producer loop: take the semaphore (`None` while it
   * would block), move up to a transfer's worth from the file to the ring.
   * A short transfer ends playback: mute, and on a mute error return it
   * with I2S running and the file open; otherwise stop I2S and return the
   * close status.
   */
  function Produce(g: Geometry, p: Player, svc: Services, mute: int, contiguous: nat, stale: int -> byte)
    : (r: Option<Player>)
    requires p.ret.None?
    ensures r.None? <==> p.sem.count == 0
    ensures r.Some? ==> |p.committed| <= |r.value.committed|
    ensures r.Some? ==> Transferred(p, r.value, r.value.committed[|p.committed|..])
    ensures r.Some? ==> |r.value.committed| - |p.committed| <= g.transfer
    ensures r.Some? ==> r.value.sem.count + 1 == p.sem.count && r.value.sem.limit == p.sem.limit
    ensures r.Some? ==> (r.value.ret.Some? <==> |r.value.committed| - |p.committed| < g.transfer)
    ensures r.Some? && r.value.ret.Some? && mute < 0 ==>
              r.value.ret == Some(mute) && r.value.i2s == p.i2s && r.value.open == p.open
    ensures r.Some? && r.value.ret.Some? && mute >= 0 ==>
              r.value.ret == Some(svc.closeStatus) && !r.value.i2s && (r.value.open <==> svc.closeStatus < 0)
    ensures r.Some? && r.value.ret.None? ==> r.value.i2s == p.i2s && r.value.open == p.open
  {
    match Take(p.sem)
    case None => None
    case Some(s) =>
      var (n, ring, f, bytes) := SdCardToBuffer(p.ring, p.file, svc, p.io, g.transfer, contiguous, stale);
      var p1 := p.(sem := s, ring := ring, file := f, io := p.io + 1, committed := p.committed + bytes);
      if n >= g.transfer then Some(p1)
      else if mute < 0 then Some(p1.(ret := Some(mute)))
      else Some(p1.(i2s := false, open := svc.closeStatus < 0, ret := Some(svc.closeStatus)))
  }

  /**
   * A producer step appended `added` to the ring and to the committed bytes,
   * used the next driver call, and left the slots and the consumer's record alone.
   */
  predicate Transferred(p: Player, q: Player, added: seq<byte>)
  {
    && q.committed == p.committed + added
    && q.ring.data == p.ring.data + added
    && q.ring.capacity == p.ring.capacity
    && q.io == p.io + 1
    && q.a == p.a && q.b == p.b && q.handed == p.handed && q.delivered == p.delivered
  }

  // ---------------------------------------------------------------------
  // Schedules

  /** What happens next: a producer iteration, or an I2S completion releasing a buffer. */
  datatype Event = Transfer(contiguous: nat) | Release(buf: Buf)

  /**
   * The state after an event: `None` when it cannot happen (a transfer
   * after the producer returned or while it would block, a release while
   * I2S is stopped).
   */
  function Step(g: Geometry, p: Player, svc: Services, mute: int, stale: int -> byte, e: Event): (r: Option<Player>)
    requires SlotsSized(g, p)
    ensures r.Some? ==> SlotsSized(g, r.value)
  {
    match e
    case Transfer(contiguous) => if p.ret.Some? then None else Produce(g, p, svc, mute, contiguous, stale)
    case Release(buf) => if !p.i2s then None else Some(Callback(g, p, buf))
  }

  function Run(g: Geometry, p: Player, svc: Services, mute: int, stale: int -> byte, es: seq<Event>): Option<Player>
    requires SlotsSized(g, p)
    decreases |es|
  {
    if es == [] then Some(p)
    else
      match Step(g, p, svc, mute, stale, es[0])
      case None => None
      case Some(q) => Run(g, q, svc, mute, stale, es[1..])
  }

  /**
   * The invariant: what I2S was handed followed by what the ring holds is
   * exactly what was committed (FIFO), the semaphore is binary, and while
   * the producer runs, a unit on the semaphore means more than a transfer's
   * worth of the ring is free.
   */
  predicate Inv(g: Geometry, p: Player)
  {
    && SlotsSized(g, p)
    && p.delivered + p.ring.data == p.committed
    && p.ring.capacity == g.ring
    && p.sem.limit == 1
    && (p.ret.None? ==> p.i2s && p.open)
    && (p.ret.None? && p.sem.count > 0 ==> Space(p.ring) > g.transfer)
  }

  lemma StartInv(g: Geometry, data: seq<byte>, svc: Services, contiguous: nat, stale: int -> byte)
    ensures Inv(g, Start(g, data, svc, contiguous, stale))
  {
    var p := Start(g, data, svc, contiguous, stale);
    if svc.openStatus >= 0 {
      var ring1 := SdCardToBuffer(Declare(g.ring), File(data, 0), svc, 0, g.ring, contiguous, stale).1;
      var (outA, ring2) := Get(ring1, g.slot);
      var (outB, ring3) := Get(ring2, g.slot);
      TwoGets(ring1, g.slot, outA, ring2, outB, ring3);
    }
  }

  /** Two slot reads take the oldest bytes of the ring, in order, and leave the rest. */
  lemma TwoGets(ring1: RingBuf, slot: nat, outA: seq<byte>, ring2: RingBuf, outB: seq<byte>, ring3: RingBuf)
    requires (outA, ring2) == Get(ring1, slot) && (outB, ring3) == Get(ring2, slot)
    ensures (outA + outB) + ring3.data == ring1.data
  {
    assert (outA + outB) + ring3.data == outA + (outB + ring3.data);
  }

  lemma StepInv(g: Geometry, p: Player, svc: Services, mute: int, stale: int -> byte, e: Event)
    requires Inv(g, p)
    ensures Step(g, p, svc, mute, stale, e).Some? ==> Inv(g, Step(g, p, svc, mute, stale, e).value)
  {
    match e
    case Transfer(contiguous) =>
      if p.ret.None? && p.sem.count > 0 {
        ProduceInv(g, p, svc, mute, contiguous, stale);
      }
    case Release(buf) =>
      if p.i2s && buf != Other {
        CallbackInv(g, p, buf);
      }
  }

  /** A producer iteration keeps the invariant. */
  lemma ProduceInv(g: Geometry, p: Player, svc: Services, mute: int, contiguous: nat, stale: int -> byte)
    requires Inv(g, p) && p.ret.None? && p.sem.count > 0
    ensures Inv(g, Produce(g, p, svc, mute, contiguous, stale).value)
  {
    var q := Produce(g, p, svc, mute, contiguous, stale).value;
    assert q.delivered + q.ring.data == p.delivered + p.ring.data + q.committed[|p.committed|..];
  }

  /** An I2S completion for one of the two slots keeps the invariant. */
  lemma CallbackInv(g: Geometry, p: Player, buf: Buf)
    requires Inv(g, p) && buf != Other
    ensures Inv(g, Callback(g, p, buf))
  {
    var q := Callback(g, p, buf);
    var out := q.delivered[|p.delivered|..];
    assert q.delivered + q.ring.data == p.delivered + (out + q.ring.data);
    assert Space(q.ring) >= Space(p.ring);
  }

  /** Every schedule of producer iterations and I2S completions keeps the invariant. */
  lemma {:induction false} RunInv(g: Geometry, p: Player, svc: Services, mute: int, stale: int -> byte,
                                  es: seq<Event>)
    requires Inv(g, p)
    ensures Run(g, p, svc, mute, stale, es).Some? ==> Inv(g, Run(g, p, svc, mute, stale, es).value)
    decreases |es|
  {
    if es != [] {
      StepInv(g, p, svc, mute, stale, es[0]);
      if Step(g, p, svc, mute, stale, es[0]).Some? {
        RunInv(g, Step(g, p, svc, mute, stale, es[0]).value, svc, mute, stale, es[1..]);
      }
    }
  }

  /**
   * The flow control the producer relies on ("assume the claim was
   * successful"): under the invariant, a producer that gets past the
   * semaphore finds more than a transfer's worth of free space, so its
   * claim is cut only at the ring's wrap point.
   */
  lemma ClaimNotShort(g: Geometry, p: Player, contiguous: nat)
    requires Inv(g, p) && p.ret.None? && Take(p.sem).Some?
    ensures Claim(p.ring, g.transfer, contiguous) == Min(g.transfer, contiguous)
  {
  }

  // ---------------------------------------------------------------------
  // Faultless streams

  /** Everything committed so far is the file's bytes up to the cursor. */
  predicate Clean(p: Player)
  {
    p.committed == p.file.data[..p.file.pos]
  }

  /**
   * With a read that does not fail, a producer iteration commits the next
   * bytes of the file.
   */
  lemma ProduceClean(g: Geometry, p: Player, svc: Services, mute: int, contiguous: nat, stale: int -> byte)
    requires p.ret.None? && Clean(p) && svc.io(p.io) >= 0
    ensures Produce(g, p, svc, mute, contiguous, stale).Some? ==>
              Clean(Produce(g, p, svc, mute, contiguous, stale).value)
  {
    if p.sem.count > 0 {
      var r := SdCardToBuffer(p.ring, p.file, svc, p.io, g.transfer, contiguous, stale);
      assert p.file.data[..p.file.pos] + r.3 == p.file.data[..r.2.pos];
    }
  }

  /**
   * Audio in order: under the invariant, with everything committed being
   * the file's bytes, what I2S has been handed is a prefix of the file.
   */
  lemma DeliveredInOrder(g: Geometry, p: Player)
    requires Inv(g, p) && Clean(p)
    ensures |p.delivered| <= p.file.pos
    ensures p.delivered == p.file.data[..|p.delivered|]
  {
    assert p.committed[..|p.delivered|] == p.delivered;
  }

  /**
   * Priming from a file of at least a ring's worth with nothing failing
   * and no wrap in the way: slot A holds the file's first slot of bytes,
   * slot B the next, and the ring keeps the following two slots.
   */
  lemma StartPrimes(g: Geometry, data: seq<byte>, svc: Services, contiguous: nat, stale: int -> byte)
    requires svc.openStatus >= 0 && svc.io(0) >= 0
    requires g.ring == 4 * g.slot
    requires |data| >= g.ring && contiguous >= g.ring
    ensures var p := Start(g, data, svc, contiguous, stale);
      && p.a == data[..g.slot]
      && p.b == data[g.slot..2 * g.slot]
      && p.ring.data == data[2 * g.slot..g.ring]
      && p.handed == [BufA, BufB]
      && Clean(p)
  {
    var r := SdCardToBuffer(Declare(g.ring), File(data, 0), svc, 0, g.ring, contiguous, stale);
    StartFills(g, data, svc, contiguous, stale);
    var (outA, ring2) := Get(r.1, g.slot);
    var (outB, ring3) := Get(ring2, g.slot);
    SlotsFromFill(data, g.slot, r.1, outA, ring2, outB, ring3);
  }

  /** The priming transfer of a large enough file fills the ring with the file's first bytes. */
  lemma StartFills(g: Geometry, data: seq<byte>, svc: Services, contiguous: nat, stale: int -> byte)
    requires svc.io(0) >= 0
    requires |data| >= g.ring && contiguous >= g.ring
    ensures var r := SdCardToBuffer(Declare(g.ring), File(data, 0), svc, 0, g.ring, contiguous, stale);
      && r.1.data == data[..g.ring] && r.3 == data[..g.ring] && r.2.pos == g.ring
  {
  }

  /** Two slot-sized gets from a ring of four slots' worth of bytes split them in order. */
  lemma SlotsFromFill(data: seq<byte>, slot: nat, ring1: RingBuf, outA: seq<byte>, ring2: RingBuf,
                      outB: seq<byte>, ring3: RingBuf)
    requires |data| >= 4 * slot && ring1.data == data[..4 * slot]
    requires (outA, ring2) == Get(ring1, slot) && (outB, ring3) == Get(ring2, slot)
    ensures outA == data[..slot] && outB == data[slot..2 * slot] && ring3.data == data[2 * slot..4 * slot]
  {
  }
}
