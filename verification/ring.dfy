/**
 * The Zephyr ring buffer as the pipeline uses it, seen only through its
 * contract: a FIFO of bytes with a fixed capacity, written by claim/finish
 * and drained by `ring_buf_get`. Where the buffer wraps, a claim may grant
 * less than the free space; that limit is an input (`contiguous`), so the
 * wrap arithmetic itself stays out of the model.
 */
module RingBuffer {
  import opened Common

  datatype Ring = Ring(capacity: nat, data: seq<byte>)
  type RingBuf = r: Ring | |r.data| <= r.capacity witness Ring(0, [])

  /** `RING_BUF_DECLARE(name, capacity)`: an empty buffer. */
  function Declare(capacity: nat): (r: RingBuf)
    ensures r.capacity == capacity && r.data == []
  {
    Ring(capacity, [])
  }

  /** `ring_buf_space_get`: occupied and free bytes always add up to the capacity. */
  function Space(r: RingBuf): (s: nat)
    ensures s + |r.data| == r.capacity
  {
    r.capacity - |r.data|
  }

  /**
   * `ring_buf_put_claim`: the granted length never exceeds the request, the
   * free space, or the contiguous run up to the wrap point, and is one of them.
   */
  function Claim(r: RingBuf, requested: nat, contiguous: nat): (g: nat)
    ensures g <= requested && g <= Space(r) && g <= contiguous
    ensures g == requested || g == Space(r) || g == contiguous
  {
    Min(Min(requested, Space(r)), contiguous)
  }

  /** `ring_buf_put_finish`: the bytes written into a claim become readable after the old ones. */
  function Finish(r: RingBuf, written: seq<byte>): (r': RingBuf)
    requires |written| <= Space(r)
    ensures r'.capacity == r.capacity
    ensures |r'.data| == |r.data| + |written|
    ensures r'.data[..|r.data|] == r.data && r'.data[|r.data|..] == written
    ensures Space(r') == Space(r) - |written|
  {
    Ring(r.capacity, r.data + written)
  }

  /**
   * `ring_buf_get(r, dst, n)`: copies out up to `n` of the oldest bytes and
   * removes them.
   */
  function Get(r: RingBuf, n: nat): (res: (seq<byte>, RingBuf))
    ensures |res.0| == Min(n, |r.data|)
    ensures res.0 + res.1.data == r.data
    ensures res.1.capacity == r.capacity
    ensures Space(res.1) == Space(r) + |res.0|
  {
    var k := Min(n, |r.data|);
    (r.data[..k], Ring(r.capacity, r.data[k..]))
  }

  /**
   * Claim `|src|` bytes, copy exactly the granted length, finish with it:
   * the write both playback modules perform. Returns the new buffer and the
   * number of bytes committed; the rest of `src` is not written.
   */
  function Put(r: RingBuf, src: seq<byte>, contiguous: nat): (res: (RingBuf, nat))
    ensures res.1 == Claim(r, |src|, contiguous)
    ensures res.0.capacity == r.capacity
    ensures res.0.data == r.data + src[..res.1]
  {
    var g := Claim(r, |src|, contiguous);
    (Finish(r, src[..g]), g)
  }

  /** One operation on the buffer, from either side. */
  datatype Op = PutOp(src: seq<byte>, contiguous: nat) | GetOp(n: nat)

  /**
   * The buffer after a sequence of operations, together with every byte
   * committed and every byte read out, in order.
   */
  function Run(r: RingBuf, ops: seq<Op>): (res: (RingBuf, seq<byte>, seq<byte>))
    ensures res.0.capacity == r.capacity
    decreases |ops|
  {
    if ops == [] then (r, [], [])
    else
      match ops[0]
      case PutOp(src, contiguous) =>
        var (r1, g) := Put(r, src, contiguous);
        var (rf, committed, drained) := Run(r1, ops[1..]);
        (rf, src[..g] + committed, drained)
      case GetOp(n) =>
        var (out, r1) := Get(r, n);
        var (rf, committed, drained) := Run(r1, ops[1..]);
        (rf, committed, out + drained)
  }

  /**
   * FIFO order, byte-exact: whatever sequence of writes and reads runs, the
   * bytes read out followed by what is still buffered are exactly the bytes
   * that were buffered at the start followed by every committed byte.
   */
  lemma {:induction false} RunIsFifo(r: RingBuf, ops: seq<Op>)
    ensures Run(r, ops).2 + Run(r, ops).0.data == r.data + Run(r, ops).1
    decreases |ops|
  {
    if ops != [] {
      match ops[0]
      case PutOp(src, contiguous) =>
        var (r1, g) := Put(r, src, contiguous);
        RunIsFifo(r1, ops[1..]);
        var (rf, committed, drained) := Run(r1, ops[1..]);
        assert drained + rf.data == r.data + src[..g] + committed;
      case GetOp(n) =>
        var (out, r1) := Get(r, n);
        RunIsFifo(r1, ops[1..]);
        var (rf, committed, drained) := Run(r1, ops[1..]);
        assert out + drained + rf.data == out + (r1.data + committed);
    }
  }
}
