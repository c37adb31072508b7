/**
 * The producer/consumer hand-off shared by sd_card_playback and
 * lc3_playback (their ring helpers are the same code): the decode thread
 * takes the flow-control semaphore and pushes one decoded block; the mixer
 * pulls bytes and gives the semaphore back once a frame's worth of space is
 * free. Each side is one atomic transition; locking is not modelled.
 */
module Pipeline {
  import opened Common
  import opened RingBuffer
  import opened Semaphore

  /** `RING_BUF_SIZE_1920_BYTES` of sd_card_playback. */
  const SdRingSize: nat := 1920
  /** `RING_BUF_SIZE` of lc3_playback. */
  const Lc3RingSize: nat := 960

  /**
   * The ring, the semaphore `m_sem_load_from_buf_lc3`, the frame size that
   * serves as low-water mark (one session's `pcm_frame_size`, fixed here),
   * and a record of every byte committed, handed to the mixer, or dropped by
   * a short claim.
   */
  datatype Pipe = Pipe(
    ring: RingBuf,
    sem: KSem,
    frameSize: nat,
    committed: seq<byte>,
    delivered: seq<byte>,
    dropped: nat)

  /** The state at boot: an empty ring and `K_SEM_DEFINE(m_sem_load_from_buf_lc3, 1, 1)`. */
  function Boot(capacity: nat, frameSize: nat): (p: Pipe)
    ensures p.ring == Declare(capacity) && p.sem == Define(1, 1)
    ensures p.frameSize == frameSize
    ensures p.committed == [] && p.delivered == [] && p.dropped == 0
  {
    Pipe(Declare(capacity), Define(1, 1), frameSize, [], [], 0)
  }

  /**
   * One producer hand-off: `k_sem_take` then `buffer_to_ringbuffer`. `None`
   * while the take would block. The push copies and commits exactly the
   * granted claim and returns its length, which the caller ignores: the rest
   * of the block is lost.
   */
  function Push(p: Pipe, block: seq<byte>, contiguous: nat): (r: Option<(Pipe, nat)>)
    ensures r.None? <==> p.sem.count == 0
    ensures r.Some? ==>
              var (q, g) := r.value;
              && g <= |block| && g <= Space(p.ring) && g <= contiguous
              && q.ring.data == p.ring.data + block[..g]
              && q.committed == p.committed + block[..g]
              && q.delivered == p.delivered
              && q.dropped == p.dropped + (|block| - g)
              && q.sem.limit == p.sem.limit && q.sem.count + 1 == p.sem.count
              && q.frameSize == p.frameSize
  {
    match Take(p.sem)
    case None => None
    case Some(s) =>
      var (ring, g) := Put(p.ring, block, contiguous);
      Some((Pipe(ring, s, p.frameSize, p.committed + block[..g], p.delivered,
                 p.dropped + (|block| - g)), g))
  }

  /**
   * `buffer_set(buf, size)`: takes out up to `size` of the oldest bytes,
   * gives the semaphore iff at least a frame's worth of space is then free,
   * and always returns 0.
   */
  function Pull(p: Pipe, size: nat): (r: (int, seq<byte>, Pipe))
    ensures r.0 == 0
    ensures r.1 == p.ring.data[..Min(size, |p.ring.data|)]
    ensures r.2.ring.data == p.ring.data[|r.1|..] && r.2.ring.capacity == p.ring.capacity
    ensures r.2.delivered == p.delivered + r.1
    ensures r.2.committed == p.committed && r.2.dropped == p.dropped
    ensures r.2.frameSize == p.frameSize
    ensures r.2.sem == (if Space(r.2.ring) >= p.frameSize then Give(p.sem) else p.sem)
  {
    var (out, ring) := Get(p.ring, size);
    var sem := if Space(ring) >= p.frameSize then Give(p.sem) else p.sem;
    (0, out, Pipe(ring, sem, p.frameSize, p.committed, p.delivered + out, p.dropped))
  }

  /**
   * `mix_with_stream`: always asks the ring for exactly one frame and
   * returns 0; the bytes it gets are at most one frame, the oldest ones.
   * The mixing itself (`pcm_mix`) is external.
   */
  function MixWithStream(p: Pipe): (r: (int, seq<byte>, Pipe))
    ensures r.0 == 0
    ensures |r.1| <= p.frameSize
    ensures |r.1| == p.frameSize <==> |p.ring.data| >= p.frameSize
    ensures r.1 + r.2.ring.data == p.ring.data && r.2.ring.capacity == p.ring.capacity
    ensures r.2.delivered == p.delivered + r.1
    ensures r.2.committed == p.committed && r.2.dropped == p.dropped && r.2.frameSize == p.frameSize
    ensures r.2.sem == (if Space(r.2.ring) >= p.frameSize then Give(p.sem) else p.sem)
  {
    Pull(p, p.frameSize)
  }

  /**
   * The pipeline invariant: delivered bytes followed by buffered ones are
   * exactly the committed ones (FIFO), the semaphore is binary, and an
   * available unit guarantees a frame's worth of free space.
   */
  predicate Inv(p: Pipe)
  {
    && p.delivered + p.ring.data == p.committed
    && p.sem.limit == 1
    && (p.sem.count > 0 ==> Space(p.ring) >= p.frameSize)
  }

  lemma BootInv(capacity: nat, frameSize: nat)
    requires frameSize <= capacity
    ensures Inv(Boot(capacity, frameSize))
  {
  }

  /** One atomic transition of either side. */
  datatype Event = Produce(block: seq<byte>, contiguous: nat) | Consume(size: nat)

  /** The state after an event; `None` when a producer step is scheduled while it would block. */
  function Step(p: Pipe, e: Event): Option<Pipe>
  {
    match e
    case Produce(block, contiguous) =>
      (match Push(p, block, contiguous)
       case None => None
       case Some(r) => Some(r.0))
    case Consume(size) => Some(Pull(p, size).2)
  }

  function Run(p: Pipe, es: seq<Event>): Option<Pipe>
    decreases |es|
  {
    if es == [] then Some(p)
    else
      match Step(p, es[0])
      case None => None
      case Some(q) => Run(q, es[1..])
  }

  lemma StepPreservesInv(p: Pipe, e: Event)
    requires Inv(p)
    ensures Step(p, e).Some? ==> Inv(Step(p, e).value)
  {
    match e
    case Produce(block, contiguous) =>
      if Push(p, block, contiguous).Some? {
        var (q, g) := Push(p, block, contiguous).value;
        assert q.delivered + q.ring.data == p.delivered + p.ring.data + block[..g];
      }
    case Consume(size) =>
      var (_, out, q) := Pull(p, size);
      assert p.ring.data == out + q.ring.data;
      assert q.delivered + q.ring.data == p.delivered + (out + q.ring.data);
  }

  /** Every schedule of producer and consumer steps keeps the invariant. */
  lemma {:induction false} RunPreservesInv(p: Pipe, es: seq<Event>)
    requires Inv(p)
    ensures Run(p, es).Some? ==> Inv(Run(p, es).value)
    decreases |es|
  {
    if es != [] {
      StepPreservesInv(p, es[0]);
      if Step(p, es[0]).Some? {
        RunPreservesInv(Step(p, es[0]).value, es[1..]);
      }
    }
  }

  /**
   * Flow control under the invariant: a producer that gets past the
   * semaphore finds at least a frame's worth of free space, so a block no
   * larger than a frame loses bytes only to a claim cut short at the wrap
   * point; and a second push without a pull in between blocks.
   */
  lemma FlowControl(p: Pipe, block: seq<byte>, contiguous: nat, next: seq<byte>, contiguous': nat)
    requires Inv(p)
    requires Push(p, block, contiguous).Some?
    ensures Space(p.ring) >= p.frameSize
    ensures |block| <= p.frameSize && |block| <= contiguous ==>
              Push(p, block, contiguous).value.1 == |block|
    ensures Push(Push(p, block, contiguous).value.0, next, contiguous').None?
  {
  }

  /** The blocks the producer steps of a schedule hand over, in order. */
  function Produced(es: seq<Event>): (blocks: seq<seq<byte>>)
    ensures |blocks| <= |es|
    decreases |es|
  {
    if es == [] then []
    else if es[0].Produce? then [es[0].block] + Produced(es[1..])
    else Produced(es[1..])
  }


  /**
   * No byte a producer hands over goes unaccounted: over any schedule, the
   * bytes committed plus the bytes dropped grow by exactly the bytes of the
   * blocks pushed.
   */
  lemma {:induction false} RunAccountsBytes(p: Pipe, es: seq<Event>)
    ensures Run(p, es).Some? ==>
              |Run(p, es).value.committed| + Run(p, es).value.dropped
              == |p.committed| + p.dropped + |Flatten(Produced(es))|
    decreases |es|
  {
    if es != [] && Step(p, es[0]).Some? {
      RunAccountsBytes(Step(p, es[0]).value, es[1..]);
      if es[0].Produce? {
        FlattenCons(es[0].block, Produced(es[1..]));
      }
    }
  }

  /** Every producer step of the schedule pushes a block no larger than a frame or the contiguous run. */
  predicate WholeClaims(es: seq<Event>, frameSize: nat)
  {
    forall i | 0 <= i < |es| :: es[i].Produce? ==> |es[i].block| <= frameSize && |es[i].block| <= es[i].contiguous
  }

  /**
   * End to end: from a state that keeps the invariant, a schedule whose
   * producer hands over blocks of at most a frame, each within the
   * contiguous run, commits exactly the concatenation of those blocks
   * (such as a session's pushed blocks, in order) and drops nothing.
   */
  lemma {:induction false} RunCommitsProduced(p: Pipe, es: seq<Event>)
    requires Inv(p)
    requires WholeClaims(es, p.frameSize)
    ensures Run(p, es).Some? ==>
              Run(p, es).value.committed == p.committed + Flatten(Produced(es))
              && Run(p, es).value.dropped == p.dropped
    decreases |es|
  {
    if es != [] && Step(p, es[0]).Some? {
      var q := Step(p, es[0]).value;
      StepPreservesInv(p, es[0]);
      assert q.frameSize == p.frameSize;
      assert WholeClaims(es[1..], q.frameSize) by {
        forall i | 0 <= i < |es[1..]| && es[1..][i].Produce?
          ensures |es[1..][i].block| <= q.frameSize && |es[1..][i].block| <= es[1..][i].contiguous
        {
          assert es[1..][i] == es[i + 1];
        }
      }
      RunCommitsProduced(q, es[1..]);
      if es[0].Produce? {
        var b := es[0].block;
        FlowControl(p, b, es[0].contiguous, [], 0);
        assert b[..|b|] == b;
        FlattenCons(b, Produced(es[1..]));
        assert p.committed + b + Flatten(Produced(es[1..])) == p.committed + (b + Flatten(Produced(es[1..])));
      }
    }
  }
}
