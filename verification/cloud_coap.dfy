/**
 * The request functions of the nRF Cloud CoAP client: the connection and
 * argument guards, the response callbacks that the CoAP transport calls once
 * per received block, and the mapping from the transport's return value and
 * the callback's error variable to the value a request returns.
 *
 * The transport, the CBOR/JSON codecs and the clock are not modelled; what
 * they report is an input (`blocks` delivered to the callback, the
 * transport's return value, an encoder's status, the clock's reading).
 */
module CloudCoap {
  import opened Common

  // errno values returned negated by the client
  const EAGAIN: int := 11
  const EACCES: int := 13
  const EINVAL: int := 22
  const ENOMSG: int := 35
  const ENOTSUP: int := 134
  const EOVERFLOW: int := 139

  /** CoAP response codes as the transport reports them: 2.05 Content and 4.04 Not Found. */
  const Content: int := 69
  const NotFound: int := 132

  /** `NRF_CLOUD_NO_TIMESTAMP`: a caller's request to stamp a message with the current time. */
  const NoTimestamp: int := 0

  /**
   * One response block as handed to a callback: its CoAP result code, its
   * offset in the whole response, its payload (`None` for a NULL pointer,
   * whose length is 0) and whether it is the last block.
   */
  datatype Block = Block(code: int, offset: nat, payload: Option<seq<byte>>, last: bool)

  /** The bytes a block carries: none behind a NULL pointer. */
  function PayloadOf(b: Block): seq<byte>
  {
    if b.payload.Some? then b.payload.value else []
  }

  function PayloadLen(b: Block): nat
  {
    |PayloadOf(b)|
  }

  // ---------------------------------------------------------------------
  // Clock and timestamps

  /** What `date_time_now` reports: its status and, on success, the time in ms. */
  datatype Clock = Clock(err: int, now: int)

  /** `get_ts`: the current time, or 0 when the clock has none. */
  function CurrentTs(c: Clock): (ts: int)
    ensures c.err == 0 ==> ts == c.now
    ensures c.err != 0 ==> ts == 0
  {
    if c.err != 0 then 0 else c.now
  }

  /** The timestamp a sent message carries: the caller's, unless it asked for the current time. */
  function EffectiveTs(tsMs: int, c: Clock): (ts: int)
    ensures tsMs != NoTimestamp ==> ts == tsMs
    ensures tsMs == NoTimestamp ==> ts == CurrentTs(c)
  {
    if tsMs == NoTimestamp then CurrentTs(c) else tsMs
  }

  /**
   * A message left without a timestamp stays without one exactly when the
   * clock fails (or reads 0): `get_ts`'s fallback value is the no-timestamp marker.
   */
  lemma UnstampedIffClockFails(tsMs: int, c: Clock)
    requires tsMs == NoTimestamp
    ensures EffectiveTs(tsMs, c) == NoTimestamp <==> c.err != 0 || c.now == NoTimestamp
  {
  }

  // ---------------------------------------------------------------------
  // A-GPS

  /**
   * `struct nrf_cloud_rest_agps_result`: the caller's buffer (`buf_sz` is its
   * length), whether its pointer is NULL, and the number of bytes received.
   */
  datatype AgpsResult = AgpsResult(buf: seq<byte>, bufNull: bool, agpsSz: nat)

  /** Whether a block is one the A-GPS callback copies into `r`. */
  predicate Fits(r: AgpsResult, b: Block)
  {
    b.offset + PayloadLen(b) <= |r.buf| && !r.bufNull && b.payload.Some?
  }

  /**
   * `get_agps_callback`: the new error variable and result after one block.
   * `err` is the error variable before the call; `result` is `None` for a
   * NULL user pointer.
   */
  function AgpsCallback(err: int, result: Option<AgpsResult>, b: Block): (r: (int, Option<AgpsResult>))
    ensures result.None? ==> r == (-EINVAL, None)
    ensures result.Some? ==> r.1.Some? && |r.1.value.buf| == |result.value.buf|
    ensures result.Some? && b.code != Content ==> r == (b.code, result)
    ensures result.Some? && b.code == Content && !Fits(result.value, b) ==> r == (-EOVERFLOW, result)
    ensures result.Some? && b.code == Content && Fits(result.value, b) ==>
      && r.1.Some?
      && var old_ := result.value; var new_ := r.1.value;
      && |new_.buf| == |old_.buf| && new_.bufNull == old_.bufNull
      && new_.buf[..b.offset] == old_.buf[..b.offset]
      && new_.buf[b.offset .. b.offset + PayloadLen(b)] == b.payload.value
      && new_.buf[b.offset + PayloadLen(b) ..] == old_.buf[b.offset + PayloadLen(b) ..]
      && new_.agpsSz == old_.agpsSz + PayloadLen(b)
      && r.0 == (if b.last then 0 else err)
  {
    if result.None? then (-EINVAL, None)
    else if b.code != Content then (b.code, result)
    else if Fits(result.value, b) then
      var res := result.value;
      var p := b.payload.value;
      var res' := res.(buf := res.buf[..b.offset] + p + res.buf[b.offset + |p| ..],
                       agpsSz := res.agpsSz + |p|);
      (if b.last then 0 else err, Some(res'))
    else (-EOVERFLOW, result)
  }

  /** The callback applied to every block the transport delivers, in order. */
  function AgpsBlocks(err: int, result: Option<AgpsResult>, blocks: seq<Block>): (r: (int, Option<AgpsResult>))
    ensures result.None? && blocks != [] ==> r == (-EINVAL, None)
    ensures result.Some? ==> r.1.Some? && |r.1.value.buf| == |result.value.buf|
    decreases |blocks|
  {
    if blocks == [] then (err, result)
    else
      var s := AgpsCallback(err, result, blocks[0]);
      AgpsBlocks(s.0, s.1, blocks[1..])
  }

  /** The payloads of a run of blocks, one after another. */
  function Payloads(blocks: seq<Block>): seq<byte>
  {
    if blocks == [] then []
    else PayloadOf(blocks[0]) + Payloads(blocks[1..])
  }

  /**
   * A well-formed A-GPS response from offset `o` on: every block is Content,
   * has a payload, starts where the previous one ended, and only the final
   * block may be marked last.
   */
  predicate InOrder(blocks: seq<Block>, o: nat)
    decreases |blocks|
  {
    blocks == [] ||
    (&& blocks[0].code == Content
     && blocks[0].payload.Some?
     && blocks[0].offset == o
     && (blocks[0].last ==> |blocks| == 1)
     && InOrder(blocks[1..], o + |blocks[0].payload.value|))
  }

  predicate EndsWithLast(blocks: seq<Block>)
  {
    blocks != [] && blocks[|blocks| - 1].last
  }

  /** The buffer after a reassembly: `got` written at `o`, everything else as before. */
  predicate Reassembled(before: AgpsResult, after: AgpsResult, o: nat, got: seq<byte>)
  {
    && o + |got| <= |before.buf|
    && after.bufNull == before.bufNull
    && after.buf == before.buf[..o] + got + before.buf[o + |got| ..]
    && after.agpsSz == before.agpsSz + |got|
  }

  /**
   * In-order blocks that fit the buffer reassemble the response in it, add
   * its length to `agps_sz`, and leave the error variable 0 exactly when the
   * response ended with its last block (otherwise as it was).
   */
  lemma AgpsReassembly(err: int, res: AgpsResult, blocks: seq<Block>, o: nat)
    requires !res.bufNull && InOrder(blocks, o) && o + |Payloads(blocks)| <= |res.buf|
    ensures AgpsBlocks(err, Some(res), blocks).1.Some?
    ensures Reassembled(res, AgpsBlocks(err, Some(res), blocks).1.value, o, Payloads(blocks))
    ensures AgpsBlocks(err, Some(res), blocks).0 == (if EndsWithLast(blocks) then 0 else err)
  {
    AgpsBuffer(err, res, blocks, o);
    AgpsError(err, res, blocks, o);
  }

  lemma {:induction false} AgpsBuffer(err: int, res: AgpsResult, blocks: seq<Block>, o: nat)
    requires !res.bufNull && InOrder(blocks, o) && o + |Payloads(blocks)| <= |res.buf|
    ensures AgpsBlocks(err, Some(res), blocks).1.Some?
    ensures Reassembled(res, AgpsBlocks(err, Some(res), blocks).1.value, o, Payloads(blocks))
    decreases |blocks|
  {
    if blocks == [] {
      assert res.buf == res.buf[..o] + [] + res.buf[o..];
    } else {
      var b := blocks[0];
      var p := b.payload.value;
      var s := AgpsCallback(err, Some(res), b);
      var mid := s.1.value;
      var rest := blocks[1..];
      assert Payloads(blocks) == p + Payloads(rest);
      CallbackWrites(err, res, mid, b);
      AgpsBuffer(s.0, mid, rest, o + |p|);
      AgpsStep(res, mid, AgpsBlocks(s.0, s.1, rest).1.value, o, p, Payloads(rest));
    }
  }

  lemma {:induction false} AgpsError(err: int, res: AgpsResult, blocks: seq<Block>, o: nat)
    requires !res.bufNull && InOrder(blocks, o) && o + |Payloads(blocks)| <= |res.buf|
    ensures AgpsBlocks(err, Some(res), blocks).0 == (if EndsWithLast(blocks) then 0 else err)
    decreases |blocks|
  {
    if blocks != [] {
      var b := blocks[0];
      var p := b.payload.value;
      var s := AgpsCallback(err, Some(res), b);
      var rest := blocks[1..];
      assert Payloads(blocks) == p + Payloads(rest);
      AgpsError(s.0, s.1.value, rest, o + |p|);
      if rest != [] {
        assert blocks[|blocks| - 1] == rest[|rest| - 1];
      }
    }
  }

  /** A copied block is a reassembly of its payload at its offset. */
  lemma CallbackWrites(err: int, res: AgpsResult, mid: AgpsResult, b: Block)
    requires b.code == Content && Fits(res, b)
    requires AgpsCallback(err, Some(res), b).1 == Some(mid)
    ensures Reassembled(res, mid, b.offset, b.payload.value)
  {
    var e := b.offset + |b.payload.value|;
    assert mid.buf == mid.buf[..b.offset] + mid.buf[b.offset..e] + mid.buf[e..];
  }

  /** One copied block followed by a reassembled rest is a reassembly of both. */
  lemma AgpsStep(res: AgpsResult, mid: AgpsResult, fin: AgpsResult, o: nat, p: seq<byte>, q: seq<byte>)
    requires Reassembled(res, mid, o, p)
    requires Reassembled(mid, fin, o + |p|, q)
    ensures Reassembled(res, fin, o, p + q)
  {
    var e := o + |p|;
    assert mid.buf[..e] == res.buf[..o] + p;
    assert mid.buf[e + |q| ..] == res.buf[e + |q| ..];
    assert fin.buf == (res.buf[..o] + p) + q + res.buf[e + |q| ..];
  }

  // ---------------------------------------------------------------------
  // Result mapping of the fetching getters

  /**
   * What the A-GPS, P-GPS and location getters return once the transport is
   * done: 0 when both the transport and the callback succeeded, a timeout as
   * is, and in every other case the callback's error variable.
   */
  function FetchResult(err: int, cbErr: int): (r: int)
    ensures err == -EAGAIN ==> r == -EAGAIN
    ensures err != -EAGAIN && (err != 0 || cbErr != 0) ==> r == cbErr
    ensures r == 0 <==> cbErr == 0 && err != -EAGAIN
  {
    if err == 0 && cbErr == 0 then 0
    else if err == -EAGAIN then err
    else cbErr
  }

  /**
   * A transport failure other than a timeout is reported as success when no
   * callback recorded an error: the error variable is what the getter returns.
   */
  lemma TransportErrorUnreported(err: int, cbErr: int)
    requires err < 0 && err != -EAGAIN && cbErr == 0
    ensures FetchResult(err, cbErr) == 0
  {
  }

  /** A getter's outcome: its return value and the state the callbacks left behind. */
  datatype AgpsOutcome = AgpsOutcome(ret: int, agpsErr: int, result: AgpsResult)

  /**
   * `nrf_cloud_coap_agps_data_get`. `agpsErr` is the static error variable
   * as the previous request left it; `encodeErr` the request encoder's
   * status; the transport delivers `blocks` and then returns `transportErr`.
   */
  function AgpsDataGet(connected: bool, agpsErr: int, result: AgpsResult, encodeErr: int,
                       blocks: seq<Block>, transportErr: int): (o: AgpsOutcome)
    ensures !connected ==> o == AgpsOutcome(-EACCES, agpsErr, result)
    ensures connected && encodeErr != 0 ==> o == AgpsOutcome(encodeErr, agpsErr, result)
    ensures connected && encodeErr == 0 ==>
      && o.agpsErr == AgpsBlocks(agpsErr, Some(result.(agpsSz := 0)), blocks).0
      && o.ret == FetchResult(transportErr, o.agpsErr)
  {
    if !connected then AgpsOutcome(-EACCES, agpsErr, result)
    else if encodeErr != 0 then AgpsOutcome(encodeErr, agpsErr, result)
    else
      var s := AgpsBlocks(agpsErr, Some(result.(agpsSz := 0)), blocks);
      AgpsOutcome(FetchResult(transportErr, s.0), s.0, s.1.value)
  }

  /**
   * A complete in-order response that fits the buffer is a successful
   * request: it returns 0 and leaves the response at the start of the
   * buffer with `agps_sz` its length.
   */
  lemma AgpsDataGetComplete(agpsErr: int, result: AgpsResult, blocks: seq<Block>)
    requires !result.bufNull && InOrder(blocks, 0) && EndsWithLast(blocks)
    requires |Payloads(blocks)| <= |result.buf|
    ensures var o := AgpsDataGet(true, agpsErr, result, 0, blocks, 0);
      && o.ret == 0
      && o.result.buf[..|Payloads(blocks)|] == Payloads(blocks)
      && o.result.buf[|Payloads(blocks)|..] == result.buf[|Payloads(blocks)|..]
      && o.result.agpsSz == |Payloads(blocks)|
  {
    AgpsReassembly(agpsErr, result.(agpsSz := 0), blocks, 0);
  }

  // ---------------------------------------------------------------------
  // P-GPS and location: decoding callbacks

  /** A response block together with what the response decoder reports for it. */
  datatype Decoded = Decoded(block: Block, decodeStatus: int)

  /** `get_pgps_callback` and `get_location_callback`: the new error variable. */
  function DecodeCallback(d: Decoded): (err: int)
    ensures d.block.code != Content ==> err == d.block.code
    ensures d.block.code == Content ==> err == d.decodeStatus
  {
    if d.block.code != Content then d.block.code else d.decodeStatus
  }

  /** The error variable after every delivered block: the last block decides. */
  function DecodeBlocks(err: int, ds: seq<Decoded>): (r: int)
    ensures ds == [] ==> r == err
    ensures ds != [] ==> r == DecodeCallback(ds[|ds| - 1])
    decreases |ds|
  {
    if ds == [] then err else DecodeBlocks(DecodeCallback(ds[0]), ds[1..])
  }

  datatype DecodeOutcome = DecodeOutcome(ret: int, cbErr: int)

  /**
   * `nrf_cloud_coap_pgps_url_get` and `nrf_cloud_coap_location_get`: the
   * same guards and result mapping around their own decoder.
   */
  function DecodingGet(connected: bool, cbErr: int, encodeErr: int,
                       ds: seq<Decoded>, transportErr: int): (o: DecodeOutcome)
    ensures !connected ==> o == DecodeOutcome(-EACCES, cbErr)
    ensures connected && encodeErr != 0 ==> o == DecodeOutcome(encodeErr, cbErr)
    ensures connected && encodeErr == 0 ==>
      o == DecodeOutcome(FetchResult(transportErr, DecodeBlocks(cbErr, ds)), DecodeBlocks(cbErr, ds))
  {
    if !connected then DecodeOutcome(-EACCES, cbErr)
    else if encodeErr != 0 then DecodeOutcome(encodeErr, cbErr)
    else
      var e := DecodeBlocks(cbErr, ds);
      DecodeOutcome(FetchResult(transportErr, e), e)
  }

  /**
   * A decoding request succeeds exactly when the transport did not time out
   * and the last block (or, with none, the previous request) left no error.
   */
  lemma DecodingGetSucceeds(cbErr: int, ds: seq<Decoded>, transportErr: int)
    requires ds != []
    ensures DecodingGet(true, cbErr, 0, ds, transportErr).ret == 0 <==>
      && transportErr != -EAGAIN
      && var last := ds[|ds| - 1];
      if last.block.code == Content then last.decodeStatus == 0 else last.block.code == 0
  {
  }

  // ---------------------------------------------------------------------
  // FOTA

  /** `get_fota_callback`: the new error variable. */
  function FotaCallback(d: Decoded): (err: int)
    ensures d.block.code != Content ==> err == d.block.code
    ensures d.block.code == Content && PayloadLen(d.block) > 0 ==> err == d.decodeStatus
    ensures d.block.code == Content && PayloadLen(d.block) == 0 ==> err == -ENOMSG
  {
    if d.block.code != Content then d.block.code
    else if d.block.payload.Some? && |d.block.payload.value| != 0 then d.decodeStatus
    else -ENOMSG
  }

  function FotaBlocks(err: int, ds: seq<Decoded>): (r: int)
    ensures ds == [] ==> r == err
    ensures ds != [] ==> r == FotaCallback(ds[|ds| - 1])
    decreases |ds|
  {
    if ds == [] then err else FotaBlocks(FotaCallback(ds[0]), ds[1..])
  }

  /**
   * What `nrf_cloud_coap_fota_job_get` returns once the transport is done:
   * "no pending job" as -ENOMSG, transport failures as they are, and an
   * unexpected response code as itself.
   */
  function FotaResult(err: int, fotaErr: int): (r: int)
    ensures err == 0 && fotaErr == NotFound ==> r == -ENOMSG
    ensures err < 0 ==> r == err
    ensures err > 0 ==> r == fotaErr
    ensures err == 0 && fotaErr != NotFound ==> r == fotaErr
    ensures r == 0 <==> err >= 0 && fotaErr == 0
  {
    if err == 0 && fotaErr == 0 then err
    else if err == 0 && fotaErr == NotFound then -ENOMSG
    else if err == -EAGAIN then err
    else if err < 0 then err
    else fotaErr
  }

  /** The job type the request leaves behind, with `NRF_CLOUD_FOTA_TYPE__INVALID` first. */
  datatype FotaType = Invalid | Typed(kind: int)

  /** Whether the FOTA callback hands a block to the job decoder. */
  predicate ReachesDecoder(d: Decoded)
  {
    d.block.code == Content && PayloadLen(d.block) > 0
  }

  datatype FotaOutcome = FotaOutcome(ret: int, fotaErr: int, jobType: FotaType)

  /**
   * `nrf_cloud_coap_fota_job_get`. `jobType` is the caller's job's type; the
   * request invalidates it, and `decodedType` is what the job decoder leaves
   * in it when some block reaches the decoder.
   */
  function FotaJobGet(connected: bool, fotaErr: int, jobType: FotaType,
                      ds: seq<Decoded>, decodedType: FotaType, transportErr: int): (o: FotaOutcome)
    ensures !connected ==> o == FotaOutcome(-EACCES, fotaErr, jobType)
    ensures connected ==> o.fotaErr == FotaBlocks(fotaErr, ds)
    ensures connected ==> o.ret == FotaResult(transportErr, o.fotaErr)
    ensures connected && (forall i :: 0 <= i < |ds| ==> !ReachesDecoder(ds[i])) ==> o.jobType == Invalid
  {
    if !connected then FotaOutcome(-EACCES, fotaErr, jobType)
    else
      var e := FotaBlocks(fotaErr, ds);
      var t := if exists i :: 0 <= i < |ds| && ReachesDecoder(ds[i]) then decodedType else Invalid;
      FotaOutcome(FotaResult(transportErr, e), e, t)
  }

  /** A request answered with an empty Content body reports that no job is pending. */
  lemma FotaEmptyBodyNoJob(fotaErr: int, jobType: FotaType, b: Block, t: FotaType)
    requires b.code == Content && PayloadLen(b) == 0
    ensures FotaJobGet(true, fotaErr, jobType, [Decoded(b, 0)], t, 0) == FotaOutcome(-ENOMSG, -ENOMSG, Invalid)
  {
  }

  // ---------------------------------------------------------------------
  // Shadow

  /**
   * `get_shadow_callback` on a buffer of `buf_len == |buf|` bytes: the new
   * error variable and buffer. A Content block is copied to the start of
   * the buffer whatever its offset, truncated to leave room for the NUL.
   */
  function ShadowCallback(err: int, buf: seq<byte>, b: Block): (r: (int, seq<byte>))
    requires |buf| != 0
    ensures |r.1| == |buf|
    ensures b.code != Content ==> r == (b.code, buf)
    ensures b.code == Content ==>
      var n := Min(|buf| - 1, PayloadLen(b));
      && r.0 == 0
      && r.1[..n] == PayloadOf(b)[..n]
      && r.1[n] == 0
      && r.1[n + 1 ..] == buf[n + 1 ..]
  {
    if b.code != Content then (b.code, buf)
    else
      var n := Min(|buf| - 1, PayloadLen(b));
      var got := PayloadOf(b)[..n];
      (0, got + [0] + buf[n + 1 ..])
  }

  function ShadowBlocks(err: int, buf: seq<byte>, blocks: seq<Block>): (r: (int, seq<byte>))
    requires |buf| != 0
    ensures |r.1| == |buf|
    decreases |blocks|
  {
    if blocks == [] then (err, buf)
    else
      var s := ShadowCallback(err, buf, blocks[0]);
      ShadowBlocks(s.0, s.1, blocks[1..])
  }

  /** The NUL-terminated text at the start of a buffer. */
  function CString(buf: seq<byte>): (s: seq<byte>)
    ensures |s| <= |buf|
    ensures s == buf[..|s|]
    ensures forall i :: 0 <= i < |s| ==> s[i] != 0
    ensures |s| < |buf| ==> buf[|s|] == 0
  {
    if buf == [] || buf[0] == 0 then [] else [buf[0]] + CString(buf[1..])
  }

  /**
   * After a Content block without NUL bytes the buffer holds, as a C string,
   * the block's payload cut to `buf_len - 1` bytes.
   */
  lemma {:induction false} ShadowText(err: int, buf: seq<byte>, b: Block)
    requires |buf| != 0 && b.code == Content
    requires b.payload.Some? && forall i :: 0 <= i < |b.payload.value| ==> b.payload.value[i] != 0
    ensures CString(ShadowCallback(err, buf, b).1) == b.payload.value[..Min(|buf| - 1, |b.payload.value|)]
  {
    var n := Min(|buf| - 1, |b.payload.value|);
    var out := ShadowCallback(err, buf, b).1;
    assert out[..n] == b.payload.value[..n];
    CStringOfTerminated(out, n);
  }

  /** A buffer with no NUL before index `n` and a NUL at `n` holds a C string of length `n`. */
  lemma {:induction false} CStringOfTerminated(buf: seq<byte>, n: nat)
    requires n < |buf| && buf[n] == 0
    requires forall i :: 0 <= i < n ==> buf[i] != 0
    ensures CString(buf) == buf[..n]
    decreases n
  {
    if n > 0 {
      CStringOfTerminated(buf[1..], n - 1);
      assert buf[..n] == [buf[0]] + buf[1..][..n - 1];
    }
  }

  datatype ShadowOutcome = ShadowOutcome(ret: int, shadowErr: int, buf: seq<byte>)

  /** The query string of a shadow request: none for the delta, `delta=false` for the whole shadow. */
  function ShadowQuery(delta: bool): (q: Option<string>)
    ensures q.None? <==> delta
    ensures !delta ==> q == Some("delta=false")
  {
    if delta then None else Some("delta=false")
  }

  /**
   * `nrf_cloud_coap_shadow_get`: the transport's return value is what the
   * request returns; the callback's error variable is kept but not consulted.
   */
  function ShadowGet(connected: bool, shadowErr: int, buf: seq<byte>,
                     blocks: seq<Block>, transportRet: int): (o: ShadowOutcome)
    requires |buf| != 0
    ensures |o.buf| == |buf|
    ensures !connected ==> o == ShadowOutcome(-EACCES, shadowErr, buf)
    ensures connected ==> o.ret == transportRet
    ensures connected ==> (o.shadowErr, o.buf) == ShadowBlocks(shadowErr, buf, blocks)
  {
    if !connected then ShadowOutcome(-EACCES, shadowErr, buf)
    else
      var s := ShadowBlocks(shadowErr, buf, blocks);
      ShadowOutcome(transportRet, s.0, s.1)
  }

  /**
   * Every block of a multi-block shadow is written at the start of the
   * buffer: only the final Content block's text remains.
   */
  lemma {:induction false} ShadowLastBlockWins(err: int, buf: seq<byte>, blocks: seq<Block>)
    requires |buf| != 0 && blocks != []
    requires forall i :: 0 <= i < |blocks| ==> blocks[i].code == Content
    ensures var last := blocks[|blocks| - 1];
      var r := ShadowBlocks(err, buf, blocks);
      && r.0 == 0
      && r.1[..Min(|buf| - 1, PayloadLen(last))] == PayloadOf(last)[..Min(|buf| - 1, PayloadLen(last))]
      && r.1[Min(|buf| - 1, PayloadLen(last))] == 0
    decreases |blocks|
  {
    var s := ShadowCallback(err, buf, blocks[0]);
    if |blocks| > 1 {
      ShadowLastBlockWins(s.0, s.1, blocks[1..]);
      assert blocks[1..][|blocks| - 2] == blocks[|blocks| - 1];
    }
  }

  // ---------------------------------------------------------------------
  // Requests that send

  /** A request's outcome and, when it reached the transport, the timestamp it carried. */
  datatype SendOutcome = SendOutcome(ret: int, sentTs: Option<int>)

  /** `nrf_cloud_coap_sensor_send`: `postErr` is the POST request's status. */
  function SensorSend(connected: bool, tsMs: int, clock: Clock, encodeErr: int, postErr: int): (o: SendOutcome)
    ensures !connected ==> o == SendOutcome(-EACCES, None)
    ensures connected && encodeErr != 0 ==> o == SendOutcome(encodeErr, None)
    ensures connected && encodeErr == 0 ==> o == SendOutcome(postErr, Some(EffectiveTs(tsMs, clock)))
  {
    if !connected then SendOutcome(-EACCES, None)
    else
      var ts := if tsMs == NoTimestamp then CurrentTs(clock) else tsMs;
      if encodeErr != 0 then SendOutcome(encodeErr, None)
      else SendOutcome(postErr, Some(ts))
  }

  /** The GNSS data formats; only PVT can be sent. */
  datatype GnssType = Pvt | Nmea

  /** `nrf_cloud_coap_location_send`. */
  function LocationSend(connected: bool, kind: GnssType, tsMs: int, clock: Clock,
                        encodeErr: int, postErr: int): (o: SendOutcome)
    ensures !connected ==> o == SendOutcome(-EACCES, None)
    ensures connected && kind != Pvt ==> o == SendOutcome(-ENOTSUP, None)
    ensures connected && kind == Pvt ==> o == SensorSend(true, tsMs, clock, encodeErr, postErr)
  {
    if !connected then SendOutcome(-EACCES, None)
    else
      var ts := if tsMs == NoTimestamp then CurrentTs(clock) else tsMs;
      if kind != Pvt then SendOutcome(-ENOTSUP, None)
      else if encodeErr != 0 then SendOutcome(encodeErr, None)
      else SendOutcome(postErr, Some(ts))
  }

  /** Whether a request reached the transport's PATCH, and with what outcome. */
  datatype PatchOutcome = PatchOutcome(ret: int, patched: bool)

  /** `nrf_cloud_coap_fota_job_update`: `createErr` is the update structure's creation status. */
  function FotaJobUpdate(connected: bool, createErr: int, patchRet: int): (o: PatchOutcome)
    ensures o.patched <==> connected && createErr == 0
    ensures !connected ==> o.ret == -EACCES
    ensures connected && createErr != 0 ==> o.ret == createErr
    ensures o.patched ==> o.ret == patchRet
  {
    if !connected then PatchOutcome(-EACCES, false)
    else if createErr != 0 then PatchOutcome(createErr, false)
    else PatchOutcome(patchRet, true)
  }

  /** `nrf_cloud_coap_shadow_state_update`. */
  function ShadowStateUpdate(connected: bool, patchRet: int): (o: PatchOutcome)
    ensures o.patched <==> connected
    ensures o.ret == if connected then patchRet else -EACCES
  {
    if !connected then PatchOutcome(-EACCES, false) else PatchOutcome(patchRet, true)
  }

  /** `nrf_cloud_coap_shadow_device_status_update`: encode the status, then update the shadow. */
  function DeviceStatusUpdate(connected: bool, encodeErr: int, patchRet: int): (o: PatchOutcome)
    ensures o.patched <==> connected && encodeErr == 0
    ensures !connected ==> o.ret == -EACCES
    ensures connected && encodeErr != 0 ==> o.ret == encodeErr
    ensures o.patched ==> o.ret == patchRet
  {
    if !connected then PatchOutcome(-EACCES, false)
    else if encodeErr != 0 then PatchOutcome(encodeErr, false)
    else ShadowStateUpdate(connected, patchRet)
  }

  /** `nrf_cloud_coap_shadow_service_info_update`: a NULL argument is refused before anything else. */
  function ServiceInfoUpdate(svcInfoNull: bool, connected: bool, encodeErr: int, patchRet: int): (o: PatchOutcome)
    ensures svcInfoNull ==> o == PatchOutcome(-EINVAL, false)
    ensures !svcInfoNull && !connected ==> o == PatchOutcome(-EACCES, false)
    ensures o.patched <==> !svcInfoNull && connected && encodeErr == 0
  {
    if svcInfoNull then PatchOutcome(-EINVAL, false)
    else DeviceStatusUpdate(connected, encodeErr, patchRet)
  }
}
