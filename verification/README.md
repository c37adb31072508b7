# nRF5340 audio playback and nRF Cloud CoAP requests, modelled in Dafny

This project models four C modules:

- Three SD-card audio players of the nRF5340 audio application:
  - `sd_card_playback` plays LC3 files with per-frame length prefixes, or raw PCM ".wav" files. It also keeps a shell working directory.
  - `lc3_playback` plays LC3 files by reading one frame length up front.
  - `audio_wav` streams raw PCM to I2S through a four-slot ring.
- The request layer of the nRF Cloud CoAP client (`nrf_cloud_coap`).

Every operation is a pure function of its inputs:

- the module's static variables;
- the file contents;
- what the code it calls reports: SD-driver status codes, decoder results, the CoAP transport's return value and response blocks, encoder statuses, and the clock.

A driver status that the C code could receive is an input. So every failure the code handles is a value the model handles too.

Layout:

| file | module | what it holds |
|---|---|---|
| `common.dfy` | `Common` | bytes; the C conversions to `uint16_t`/`uint32_t`; little-endian fields; an open file with a cursor; a read that is short only at end of file |
| `ring.dfy` | `RingBuffer` | the Zephyr ring buffer's claim/finish/get contract as a FIFO with a capacity |
| `semaphore.dfy` | `Semaphore` | the Zephyr semaphore as a saturating counter |
| `driver.dfy` | `Driver` | SD-driver statuses and decoder results as inputs |
| `lc3_header.dfy` | `Lc3Header` | the 18-byte LC3 header codec, the frame size and frame count each player derives, and the frame stream layout |
| `pipeline.dfy` | `Pipeline` | the producer/consumer hand-off shared by both LC3 players |
| `sd_card_playback.dfy` | `SdCardPlayback` | LC3 and WAV sessions and the shell's `cd` |
| `lc3_playback.dfy` | `Lc3Playback` | the header pass and the play pass |
| `audio_wav.dfy` | `AudioWav` | priming, the producer loop, the I2S callback and their invariant |
| `cloud_coap.dfy` | `CloudCoap` | callbacks, result mapping and guards of the CoAP requests |

Where the code does not do what its documentation describes, the model follows the code:

- No code compares the header's `file_id` against `0xCC1C`, so no magic-number check is modelled.
- No frame length is bounded or compared with the frame size.
- A claim that the ring grants short is committed as far as it goes. The rest of the block is dropped, with no error.
- An I2S completion for a buffer that is neither slot only prints a message.
- A slot refill copies up to a slot's worth of bytes and ignores the count. On underrun the slot's tail keeps the previous audio.
- `lc3_playback` reads every frame with the one length it peeked after the header. Each frame's own length prefix is skipped, never read.

## Model

Paths are relative to the repository root.

| member | source | states |
|---|---|---|
| RingBuffer.Claim | applications/nrf5340_audio/src/modules/sd_card_playback.c:82 | the granted length is at most the request, the free space and the contiguous run, and equals one of them |
| RingBuffer.Finish | applications/nrf5340_audio/src/modules/sd_card_playback.c:87 | committed bytes become readable after the older ones; free space shrinks by their count |
| RingBuffer.Get | applications/nrf5340_audio/src/modules/sd_card_playback.c:69 | `ring_buf_get` returns the oldest min(n, used) bytes; those bytes followed by the rest are the old contents |
| RingBuffer.Put | applications/nrf5340_audio/src/modules/sd_card_playback.c:77-90 | the copy loop commits exactly the granted prefix of the block |
| RingBuffer.RunIsFifo | applications/nrf5340_audio/src/modules/sd_card_playback.c:66-90 | over any mix of puts and gets: bytes read followed by bytes still buffered = initial contents followed by all committed bytes |
| Semaphore.Give | applications/nrf5340_audio/src/modules/sd_card_playback.c:72 | a give adds one unit and saturates at the limit |
| Semaphore.Take | applications/nrf5340_audio/src/modules/sd_card_playback.c:157 | a take succeeds iff the count is positive, and uses up one unit |
| Semaphore.GivesSaturate | applications/nrf5340_audio/src/modules/sd_card_playback.c:42 | k gives leave min(count + k, limit) units |
| Semaphore.BinarySignal | applications/nrf5340_audio/src/modules/sd_card_playback.c:42 | for the (1, 1) semaphore, any number of gives enables exactly one take |
| Lc3Header.DecodeEncode | applications/nrf5340_audio/src/modules/sd_card_playback.c:24-34 | decoding the bytes of an encoded header gives back the header |
| Lc3Header.EncodeDecode | applications/nrf5340_audio/src/modules/sd_card_playback.c:24-34 | any 18 bytes are the encoding of the header they decode to |
| Lc3Header.Decode | applications/nrf5340_audio/src/modules/sd_card_playback.c:24-34 | each of the nine fields read from the 18 header bytes is a 16-bit value |
| Lc3Header.PcmFrameSize | applications/nrf5340_audio/src/modules/sd_card_playback.c:124 | the frame size is 2·rate·ms/1000 reduced mod 2^16; without truncation it brackets 2·rate·ms within one 1000 |
| Lc3Header.SdFramesNum | applications/nrf5340_audio/src/modules/sd_card_playback.c:125-127 | the frame count stored in `uint16_t` is below 2^16 |
| Lc3Header.SdFramesNumFloor | applications/nrf5340_audio/src/modules/sd_card_playback.c:125-127 | when the quotient fits in 16 bits, the count is the number of whole PCM frames in the signal; a final partial frame is dropped |
| Lc3Header.NumSamples | applications/nrf5340_audio/src/modules/lc3_playback.c:118 | `(msb << 16) + lsb` stored in `uint32_t` is the 32-bit sample count when the shift is defined |
| Lc3Header.Lc3FramesNum | applications/nrf5340_audio/src/modules/lc3_playback.c:117-119 | lc3_playback's count with its unsigned 32-bit doubling, truncated to 16 bits |
| Lc3Header.FrameCountVariantsAgree | applications/nrf5340_audio/src/modules/lc3_playback.c:117-119 | wherever sd_card_playback's signed formula is defined, lc3_playback's is too and both count the same frames |
| Lc3Header.HeaderForRoundTrip | applications/nrf5340_audio/src/modules/sd_card_playback.c:124-127 | the header of a file of `frames` whole frames yields exactly `frames` as frame count |
| Lc3Header.EncodeFrames | applications/nrf5340_audio/src/modules/sd_card_playback.c:132-148 | a frame stream occupies 2 + length bytes per frame |
| Pipeline.Boot | applications/nrf5340_audio/src/modules/sd_card_playback.c:41-42 | the ring starts empty and the load semaphore starts with one unit of limit one |
| Pipeline.Push | applications/nrf5340_audio/src/modules/sd_card_playback.c:157-158 | a push blocks iff the semaphore is empty; otherwise it commits the granted prefix of the block and records the rest as dropped |
| Pipeline.Pull | applications/nrf5340_audio/src/modules/sd_card_playback.c:66-75 | `buffer_set` hands out the oldest bytes, returns 0, and gives the semaphore iff at least a frame of space is then free |
| Pipeline.MixWithStream | applications/nrf5340_audio/src/modules/sd_card_playback.c:254-266 | the mixer gets at most one frame, a full one iff the ring holds one, always the oldest bytes; the call returns 0 and gives the semaphore iff a frame of space is free afterwards |
| Pipeline.BootInv | applications/nrf5340_audio/src/modules/sd_card_playback.c:41-42 | the boot state satisfies the FIFO / binary semaphore / free-space invariant when a frame fits the ring |
| Pipeline.StepPreservesInv | applications/nrf5340_audio/src/modules/sd_card_playback.c:66-90 | a producer push or a consumer pull keeps the invariant |
| Pipeline.RunPreservesInv | applications/nrf5340_audio/src/modules/sd_card_playback.c:66-90 | every interleaving of pushes and pulls keeps the invariant |
| Pipeline.FlowControl | applications/nrf5340_audio/src/modules/sd_card_playback.c:71-73 | a producer past the semaphore finds a frame of free space; a block of at most a frame loses bytes only at the wrap point; a second push without a pull blocks |
| Pipeline.RunAccountsBytes | applications/nrf5340_audio/src/modules/sd_card_playback.c:77-90 | over any schedule, the bytes committed plus the bytes dropped grow by exactly the bytes of the blocks the producer pushed |
| Pipeline.RunCommitsProduced | applications/nrf5340_audio/src/modules/sd_card_playback.c:66-90 | from a state keeping the invariant, a schedule whose pushed blocks (such as a session's blocks) each fit a frame and the contiguous run commits exactly their concatenation, in order, and drops nothing |
| Driver.DecodeAllAt | applications/nrf5340_audio/src/modules/sd_card_playback.c:150-158 | output block i is the decoder's output for frame i |
| SdCardPlayback.Boot | applications/nrf5340_audio/src/modules/sd_card_playback.c:47-55 | statics start with a 2-byte prefix size and playback inactive |
| SdCardPlayback.HeaderRead | applications/nrf5340_audio/src/modules/sd_card_playback.c:92-112 | 0 iff open and read succeed, else the failing code; only the header changes; a full read puts the file's first 18 bytes in it |
| SdCardPlayback.Lc3Frames | applications/nrf5340_audio/src/modules/sd_card_playback.c:132-159 | the loop returns 0 or a negative code; it stops at some I/O call up to two per frame, and reaches the last call iff it returns 0; one block per completed iteration; the prefix size never grows; the file contents stay the same |
| SdCardPlayback.Lc3FramesExits | applications/nrf5340_audio/src/modules/sd_card_playback.c:132-155 | every exit of the loop is accounted for: each call before the stopping one succeeded; a failing read returns its own code; any other failure is the decoder's code for the payload buffer it was given |
| SdCardPlayback.Lc3FramesReadFailure | applications/nrf5340_audio/src/modules/sd_card_playback.c:134-148 | with a decoder that accepts everything, the first failing read, call k, stops the loop with its code after (k - io)/2 blocks |
| SdCardPlayback.Lc3FramesDecodeFailure | applications/nrf5340_audio/src/modules/sd_card_playback.c:132-155 | over a well-formed stream with no failing read, a decoder that rejects frame m stops the loop with its code; the first m outputs were pushed and frame m was the buffer handed over |
| SdCardPlayback.Lc3Body | applications/nrf5340_audio/src/modules/sd_card_playback.c:124-166 | the session stays open and active iff it fails; at most `lc3_frames_num` blocks; success pushes exactly that many; the frame size and count are stored as the header gives them |
| SdCardPlayback.Lc3BodyReadFailure | applications/nrf5340_audio/src/modules/sd_card_playback.c:134-148 | the first failing read is the session's return code; the file stays open and the flag set, after one block per completed frame |
| SdCardPlayback.Lc3BodyCloseFailure | applications/nrf5340_audio/src/modules/sd_card_playback.c:160-164 | when every frame completes, a failing close is the return code; the file stays open, the flag set, and all `lc3_frames_num` blocks were pushed |
| SdCardPlayback.Lc3BodyDecodeFailure | applications/nrf5340_audio/src/modules/sd_card_playback.c:150-155 | over a well-formed stream, the decoder's first rejection is the return code; the file stays open, the flag set, and exactly the outputs for the frames before it were pushed |
| SdCardPlayback.PlayLc3 | applications/nrf5340_audio/src/modules/sd_card_playback.c:114-167 | a failed open changes nothing; a failed header read leaves the file open with nothing pushed; success leaves playback inactive |
| SdCardPlayback.Lc3FramesWellFormed | applications/nrf5340_audio/src/modules/sd_card_playback.c:132-159 | over a well-formed frame stream with nothing failing, the loop pushes each frame's decoded output in order and consumes 2 + length bytes per frame |
| SdCardPlayback.PlayLc3WellFormed | applications/nrf5340_audio/src/modules/sd_card_playback.c:114-167 | an encoded header followed by the frames it counts plays to completion: 0, closed, inactive, every frame pushed, file consumed to the end of the last frame |
| SdCardPlayback.WavFrameSize | applications/nrf5340_audio/src/modules/sd_card_playback.c:173 | the frame size is the product over 8 whenever the 32-bit product does not wrap |
| SdCardPlayback.DefaultWavFrameSize | applications/nrf5340_audio/src/modules/sd_card_playback.c:291 | the shell's `play_wav` arguments (10 ms, 16 bits, enum value 48), which `sd_card_playback_wav` stores in the statics the session reads (lines 233-243), give a 960-byte frame |
| SdCardPlayback.WavFrames | applications/nrf5340_audio/src/modules/sd_card_playback.c:183-199 | pushed blocks are consecutive file bytes from the cursor, each between the low-water mark and the request size; a normal end had a read below the mark |
| SdCardPlayback.WavFramesExits | applications/nrf5340_audio/src/modules/sd_card_playback.c:183-199 | every exit is accounted for: one successful read per block pushed, and the loop fails exactly when the read after the last block failed, with that read's code |
| SdCardPlayback.WavFramesReadFailure | applications/nrf5340_audio/src/modules/sd_card_playback.c:185-189 | while a full block remains for each earlier call, the first failing read, call k, stops the loop with its code after k - io blocks |
| SdCardPlayback.PlayWav | applications/nrf5340_audio/src/modules/sd_card_playback.c:169-207 | only the low-water mark and the flag change; a failed open returns its code with nothing pushed; after an open, the file stays open iff the session fails; an inactive end returns the close's code or 0; every block reaches the mark; everything pushed is a prefix of the file |
| SdCardPlayback.PlayWavExits | applications/nrf5340_audio/src/modules/sd_card_playback.c:183-204 | after a good open, each block cost one successful read, and the session ends active iff the read after the last block failed, returning its code |
| SdCardPlayback.PlayWavReadFailure | applications/nrf5340_audio/src/modules/sd_card_playback.c:185-189 | a first failing read, call k, with k full frames in the file, is the return code; the session stays active and open after k blocks |
| SdCardPlayback.PlayWavCloseFailure | applications/nrf5340_audio/src/modules/sd_card_playback.c:200-204 | with every read good, a failing close is the return code; the flag is already cleared and the file stays open |
| SdCardPlayback.WavFramesFaultless | applications/nrf5340_audio/src/modules/sd_card_playback.c:183-199 | with nothing failing, the loop pushes only full frames, as many as fit, and never the shorter tail |
| SdCardPlayback.PlayWavFaultless | applications/nrf5340_audio/src/modules/sd_card_playback.c:169-207 | a faultless default WAV session returns 0, ends inactive and pushes ⌊size/960⌋ full frames of the file in order |
| SdCardPlayback.ChangeDir | applications/nrf5340_audio/src/modules/sd_card_playback.c:305-317 | `cd /…` empties the path; any other argument is appended with a trailing '/'; an append that does not fit the 260-byte buffer with its NUL is an overflow (`None`) |
| SdCardPlayback.PlayLocation | applications/nrf5340_audio/src/modules/sd_card_playback.c:285-303 | the played file's location is the current path followed by the argument, unless it overflows the 292-byte location buffer (`None`) |
| SdCardPlayback.ChangeDirsAppend | applications/nrf5340_audio/src/modules/sd_card_playback.c:311-315 | a run of non-root `cd`s yields the start path followed by each argument and '/' |
| SdCardPlayback.ChangeDirsRootResets | applications/nrf5340_audio/src/modules/sd_card_playback.c:308-310 | a `cd` to the root forgets every earlier `cd` |
| Lc3Playback.Boot | applications/nrf5340_audio/src/modules/lc3_playback.c:32-37 | statics start with the full header size and playback inactive |
| Lc3Playback.AfterHeaderRead | applications/nrf5340_audio/src/modules/lc3_playback.c:110 | a header read changes only the header and the in/out `header_size`, and leaves the cursor at the new size |
| Lc3Playback.HeaderPass | applications/nrf5340_audio/src/modules/lc3_playback.c:96-136 | 0 iff open, read, peek and close all succeed, else the first failing code; the file stays open iff a step after the open failed; the active flag is never touched |
| Lc3Playback.HeaderPassReads | applications/nrf5340_audio/src/modules/lc3_playback.c:109-127 | a faultless pass reads the first 18 bytes as header and peeks the next two as the frame length without consuming them |
| Lc3Playback.Frames | applications/nrf5340_audio/src/modules/lc3_playback.c:168-197 | the loop returns 0 or a negative code; success pushes `n` blocks and uses every call; a failure stops before the last call; both in/out sizes only shrink; the frame buffer keeps its size |
| Lc3Playback.FramesExits | applications/nrf5340_audio/src/modules/lc3_playback.c:168-192 | every exit of the loop is accounted for: one block per completed frame; each call before the stopping one succeeded; a failing skip or read returns its own code; any other failure is the decoder's code for the frame buffer it stopped with |
| Lc3Playback.FramesReadFailure | applications/nrf5340_audio/src/modules/lc3_playback.c:171-183 | with a decoder that accepts everything, the first failing skip or read, call k, stops the loop with its code after (k - io)/2 blocks |
| Lc3Playback.FramesDecodeFailure | applications/nrf5340_audio/src/modules/lc3_playback.c:168-192 | over equal-length frames with no failing call, a decoder that rejects payload m stops the loop with its code; the first m outputs were pushed and payload m is in the frame buffer |
| Lc3Playback.PlayPass | applications/nrf5340_audio/src/modules/lc3_playback.c:154-204 | a failed open or header skip returns its code with nothing pushed; after both, the file stays open and playback active iff the pass fails; only `header_size` and the flag change; at most `lc3_frames_num` blocks, exactly that many on success |
| Lc3Playback.PlayPassReadFailure | applications/nrf5340_audio/src/modules/lc3_playback.c:171-183 | the first failing skip or read in the loop is the pass's return code; the file stays open and the flag set, after one block per completed frame |
| Lc3Playback.PlayPassCloseFailure | applications/nrf5340_audio/src/modules/lc3_playback.c:198-202 | when every frame completes, a failing close is the return code; the file stays open, the flag set, and all `lc3_frames_num` blocks were pushed |
| Lc3Playback.PlayPassDecodeFailure | applications/nrf5340_audio/src/modules/lc3_playback.c:187-192 | over a uniform file, the decoder's first rejection is the pass's return code; the file stays open, the flag set, and exactly the outputs for the payloads before it were pushed |
| Lc3Playback.Play | applications/nrf5340_audio/src/modules/lc3_playback.c:138-205 | a failed header pass returns its code with nothing pushed; success closes the file, clears the flag and pushes one block per counted frame |
| Lc3Playback.UniformOffsets | applications/nrf5340_audio/src/modules/lc3_playback.c:168-183 | a stream of equal-length frames holds payload i at offset pos + i·(2 + len) + 2, and conversely |
| Lc3Playback.UniformSize | applications/nrf5340_audio/src/modules/lc3_playback.c:168-183 | such a stream occupies 2 + len bytes per frame |
| Lc3Playback.FramesUniform | applications/nrf5340_audio/src/modules/lc3_playback.c:168-197 | over equal-length frames with nothing failing, the loop pushes each payload's decoded output in order and stops after the last payload |
| Lc3Playback.PlayWellFormed | applications/nrf5340_audio/src/modules/lc3_playback.c:138-205 | a header followed by the counted frames, all of the peeked length, plays to completion: 0, closed, inactive, every payload decoded and pushed in order |
| AudioWav.GeometryFor | applications/nrf5340_audio/src/modules/audio_wav.c:10-14 | the ring holds four slots and a transfer is two slots, less than the ring |
| AudioWav.SdCardToBuffer | applications/nrf5340_audio/src/modules/audio_wav.c:21-39 | the count is what was committed, at most the claim; a good read commits the next file bytes and is short iff the file has less than the claim; a failed read commits the whole claim |
| AudioWav.Start | applications/nrf5340_audio/src/modules/audio_wav.c:41-62 | a failed open returns its code; otherwise I2S runs with slots A then B handed over and, on the first use after boot, an empty (0, 1) semaphore |
| AudioWav.Callback | applications/nrf5340_audio/src/modules/audio_wav.c:102-121 | only the released slot is refilled, with the oldest ring bytes, and handed back; the semaphore is given iff more than a transfer is free; an unknown buffer changes nothing |
| AudioWav.Produce | applications/nrf5340_audio/src/modules/audio_wav.c:68-99 | blocks iff the semaphore is empty; appends at most a transfer; returns iff the transfer was short, with the mute error or else the close status after stopping I2S |
| AudioWav.StartInv | applications/nrf5340_audio/src/modules/audio_wav.c:41-62 | priming establishes the invariant: handed + buffered = committed, binary semaphore, a unit means more than a transfer free |
| AudioWav.StepInv | applications/nrf5340_audio/src/modules/audio_wav.c:68-121 | a producer iteration or an I2S completion keeps the invariant |
| AudioWav.ProduceInv | applications/nrf5340_audio/src/modules/audio_wav.c:75-86 | a producer iteration keeps the invariant: its bytes land behind everything buffered |
| AudioWav.CallbackInv | applications/nrf5340_audio/src/modules/audio_wav.c:105-120 | a slot refill keeps the invariant: handed bytes come off the front of the ring, and the give happens only with more than a transfer free |
| AudioWav.RunInv | applications/nrf5340_audio/src/modules/audio_wav.c:68-121 | every interleaving of producer iterations and completions keeps the invariant |
| AudioWav.ClaimNotShort | applications/nrf5340_audio/src/modules/audio_wav.c:30 | under the invariant, the producer's claim is cut only at the wrap point, as the code's comment assumes |
| AudioWav.ProduceClean | applications/nrf5340_audio/src/modules/audio_wav.c:79-86 | a producer iteration with a good read keeps "committed = file up to the cursor" |
| AudioWav.DeliveredInOrder | applications/nrf5340_audio/src/modules/audio_wav.c:102-110 | under the invariant, everything handed to I2S is a prefix of the file |
| AudioWav.StartPrimes | applications/nrf5340_audio/src/modules/audio_wav.c:49-62 | on the first use after boot, priming from a large enough file puts its first slot in A, the next in B and two more in the ring |
| CloudCoap.CurrentTs | subsys/net/lib/nrf_cloud/coap/src/nrf_cloud_coap.c:30-41 | the clock's time, or 0 when the clock reports an error |
| CloudCoap.EffectiveTs | subsys/net/lib/nrf_cloud/coap/src/nrf_cloud_coap.c:169 | the caller's timestamp is kept unless it is the no-timestamp marker |
| CloudCoap.UnstampedIffClockFails | subsys/net/lib/nrf_cloud/coap/src/nrf_cloud_coap.c:35-40 | an unstamped message stays unstamped iff the clock fails or reads 0 |
| CloudCoap.AgpsCallback | subsys/net/lib/nrf_cloud/coap/src/nrf_cloud_coap.c:46-71 | NULL result gives -EINVAL; a non-Content code becomes the error; a fitting block is copied at its offset with nothing else changed and `agps_sz` grows by its length; otherwise -EOVERFLOW and no copy; only a copied last block clears the error |
| CloudCoap.AgpsBlocks | subsys/net/lib/nrf_cloud/coap/src/nrf_cloud_coap.c:52-56 | with a NULL result every response ends in -EINVAL |
| CloudCoap.AgpsReassembly | subsys/net/lib/nrf_cloud/coap/src/nrf_cloud_coap.c:61-70 | in-order blocks that fit reassemble the response at its offset and leave the rest of the buffer; the error is 0 iff the last block arrived |
| CloudCoap.FetchResult | subsys/net/lib/nrf_cloud/coap/src/nrf_cloud_coap.c:98-107 | a timeout is returned as such; otherwise a failure returns the callback error; success is reported iff the callback error is 0 and there was no timeout |
| CloudCoap.TransportErrorUnreported | subsys/net/lib/nrf_cloud/coap/src/nrf_cloud_coap.c:98-105 | a transport error other than a timeout with no callback error is returned as 0 |
| CloudCoap.AgpsDataGet | subsys/net/lib/nrf_cloud/coap/src/nrf_cloud_coap.c:73-108 | disconnected: -EACCES with nothing changed; an encode error is returned with nothing changed; otherwise `agps_sz` restarts at 0, the blocks run through the callback, and the mapping applies |
| CloudCoap.AgpsDataGetComplete | subsys/net/lib/nrf_cloud/coap/src/nrf_cloud_coap.c:93-107 | a complete in-order response that fits returns 0 with the data at the buffer start and `agps_sz` its length |
| CloudCoap.DecodeCallback | subsys/net/lib/nrf_cloud/coap/src/nrf_cloud_coap.c:114-124 | the error is the response code unless it is Content, then the decoder's status |
| CloudCoap.DecodeBlocks | subsys/net/lib/nrf_cloud/coap/src/nrf_cloud_coap.c:219-229 | the last delivered block decides the error; with none it keeps its old value |
| CloudCoap.DecodingGet | subsys/net/lib/nrf_cloud/coap/src/nrf_cloud_coap.c:126-160 | P-GPS (and location, lines 231-266): -EACCES when disconnected, an encode error as is, else the fetch mapping over the decoded error |
| CloudCoap.DecodingGetSucceeds | subsys/net/lib/nrf_cloud/coap/src/nrf_cloud_coap.c:150-159 | a decoding request returns 0 iff there is no timeout and the last block decoded cleanly (or carried code 0) |
| CloudCoap.FotaCallback | subsys/net/lib/nrf_cloud/coap/src/nrf_cloud_coap.c:270-283 | a non-Content code becomes the error; a non-empty Content body the decoder's status; an empty body -ENOMSG |
| CloudCoap.FotaBlocks | subsys/net/lib/nrf_cloud/coap/src/nrf_cloud_coap.c:270-283 | the last delivered block decides the error |
| CloudCoap.FotaResult | subsys/net/lib/nrf_cloud/coap/src/nrf_cloud_coap.c:299-313 | Not Found means -ENOMSG; negative transport errors are returned; 0 iff the transport did not fail and the callback error is 0 |
| CloudCoap.FotaJobGet | subsys/net/lib/nrf_cloud/coap/src/nrf_cloud_coap.c:285-315 | -EACCES when disconnected with the job untouched; otherwise the job type is invalid unless a block reached the decoder, and the result mapping applies |
| CloudCoap.FotaEmptyBodyNoJob | subsys/net/lib/nrf_cloud/coap/src/nrf_cloud_coap.c:276-304 | an empty Content answer reports "no pending job" (-ENOMSG) with an invalid job type |
| CloudCoap.ShadowCallback | subsys/net/lib/nrf_cloud/coap/src/nrf_cloud_coap.c:352-373 | a Content block writes min(buf_len-1, len) payload bytes at the buffer start and a NUL right after; a non-Content code becomes the error with the buffer unchanged |
| CloudCoap.ShadowText | subsys/net/lib/nrf_cloud/coap/src/nrf_cloud_coap.c:361-371 | the buffer then holds, as a C string, the payload cut to buf_len-1 bytes |
| CloudCoap.ShadowLastBlockWins | subsys/net/lib/nrf_cloud/coap/src/nrf_cloud_coap.c:361-371 | the offset is ignored: after several Content blocks only the last block's text is at the start of the buffer |
| CloudCoap.ShadowQuery | subsys/net/lib/nrf_cloud/coap/src/nrf_cloud_coap.c:386 | a delta request sends no query; otherwise `delta=false` |
| CloudCoap.ShadowGet | subsys/net/lib/nrf_cloud/coap/src/nrf_cloud_coap.c:375-389 | -EACCES when disconnected with the buffer untouched; otherwise the transport's value, whatever the callback recorded |
| CloudCoap.SensorSend | subsys/net/lib/nrf_cloud/coap/src/nrf_cloud_coap.c:163-186 | -EACCES when disconnected; an encode error with nothing sent; else the POST status, with the message stamped by the effective timestamp |
| CloudCoap.LocationSend | subsys/net/lib/nrf_cloud/coap/src/nrf_cloud_coap.c:188-215 | -EACCES when disconnected; non-PVT data gives -ENOTSUP with nothing sent; PVT data behaves as a sensor send |
| CloudCoap.FotaJobUpdate | subsys/net/lib/nrf_cloud/coap/src/nrf_cloud_coap.c:322-344 | the PATCH is sent iff connected and the update was created; -EACCES, the creation error, or the PATCH status |
| CloudCoap.ShadowStateUpdate | subsys/net/lib/nrf_cloud/coap/src/nrf_cloud_coap.c:391-401 | the PATCH is sent iff connected; -EACCES otherwise |
| CloudCoap.DeviceStatusUpdate | subsys/net/lib/nrf_cloud/coap/src/nrf_cloud_coap.c:403-428 | the PATCH is sent iff connected and the status encoded; -EACCES, the encode error, or the PATCH status |
| CloudCoap.ServiceInfoUpdate | subsys/net/lib/nrf_cloud/coap/src/nrf_cloud_coap.c:430-442 | a NULL argument gives -EINVAL before the connection check; otherwise as a device status update |

## Left out

- Threads, scheduling, `k_msleep`, mutexes and thread creation (`*_init`, the playback threads' start-up wait) are not modelled. Each side of a hand-off is one atomic step, and a schedule is a sequence of steps.
- The wrap-around arithmetic inside the Zephyr ring buffer is not modelled. The contiguous run a claim may use is an input.
- The SD-card driver (`sd_card.c`) is not part of this model. Its open/read/skip/peek/close results are inputs, and a read is short only at end of file. A failed read, skip or peek is assumed to transfer nothing and to leave its in/out size argument unchanged; that assumption decides what the static `lc3_frame_length_size` and `header_size` hold after a failure, and so what the next session starts from.
- The LC3 decoder (`sw_codec_lc3_dec_run`), `pcm_mix`, the hardware codec and the I2S driver are external. Decoder output and the mute status are inputs. The I2S driver is seen as the list of slots handed to it.
- `printk`, logging and `k_uptime_get_32` are left out: they only print.
- The shell registration, `cmd_list_files` and the `open_file` test command are not modelled. They only call the SD driver and print.
- `sd_card_playback_wav`/`_lc3` and the playback thread's format switch are not modelled. They store arguments and wake the thread; the session functions take those arguments directly.
- The `is_active` getters are left out: they return the modelled `active` flag.
- The shell commands pass a pointer to a stack buffer that goes out of scope before the thread reads it. The model passes the location's text.
- CoAP transport, CBOR/JSON codecs, FOTA job structures, `nrf_cloud_coap_fota_job_free` and the `double` sensor value are left out. These are network, foreign code and floating point. The transport's blocks and statuses are inputs.
- `MAX_COAP_PAYLOAD_SIZE` is left out because no code uses it.
- `audio_lc3.c` and the headers are not part of this model.
- AudioWav.SdCardToBuffer: the status of `sd_card_segment_read` is ignored by the code. The model assumes a failed read leaves the length at the claim and commits the claimed memory's stale bytes. The driver's actual behaviour on failure is not visible.
- CloudCoap.AgpsCallback: `offset + len` and `agps_sz += len` are unbounded here. The 32-bit `size_t` wrap-around needs a response above 4 GiB.
- CloudCoap.ShadowCallback: the `int cpy_len` conversion is unbounded here. A shadow above INT_MAX bytes cannot arrive.
- CloudCoap.FotaJobGet: the decoded job is reduced to its type, and the decoder's effect is an input.
- CloudCoap.SensorSend: the application id and value are not modelled; only the timestamp of the encoded message is.
- A NULL CoAP payload is modelled with length 0.
- SdCardPlayback.PlayWav: requires the frame size, truncated to the `uint16_t` low-water mark, to be positive. With a mark of 0 (a product that is a multiple of 65536 bytes) no read is ever below the mark, so the C loop never ends: at end of file it keeps pushing empty blocks. A non-terminating session has no result to model.
- SdCardPlayback.WavFrames: requires a positive low-water mark, for the same reason.
- SdCardPlayback.PlayLc3: requires `Lc3Defined`. The header must give a non-zero `pcm_frame_size`, and the `int` products `2 * sample_rate * frame_ms` and `2 * ((msb << 16) + lsb)` must not overflow. A division by zero or a signed overflow is undefined behaviour in C, so those headers have no modelled outcome.
- SdCardPlayback.Lc3Body: requires `SdFrameCountDefined` of the stored header, for the same reason.
- Lc3Playback.Play: requires `HeaderDefined`. A header that reads successfully must give a non-zero frame size, with no overflow in `2 * sample_rate * frame_ms` or in `(msb << 16) + lsb`. Those cases are undefined behaviour, as above.
- SdCardPlayback.ChangeDir: an append that does not fit `playback_file_path[260]` with its NUL is returned as `None`. The C `strcat` writes past the buffer there, which is undefined behaviour, so the model does not say what memory holds afterwards.
- SdCardPlayback.PlayLocation: a location that does not fit `file_loc[292]` with its NUL is returned as `None`, for the same reason.
- AudioWav.Start: starts every session from the boot state: an empty ring, the (0, 1) semaphore and zeroed slots. The C statics are never reset, so a later `audio_wav_play` inherits the previous session's leftover ring bytes, semaphore count and slot contents. Only the first session after boot is modelled exactly.
- The frame buffers of both LC3 players are stack arrays that are not initialised. Their bytes before a read are an input (`uninit`), so a short payload read hands the decoder the stack's old contents past the delivered bytes.
- Driver.Services: the decoder is a function of the frame bytes and the length it is told. The LC3 decoder keeps state between calls (overlap-add and packet-loss history), so its real output for a frame also depends on the frames before it, and it may reject a frame it accepted earlier. The decoder is not part of this model and its state is not visible. So "block i is the decoder's output for frame i" is stated relative to this stateless decoder, and every contract of that form inherits the assumption.
- Pipeline.Pipe: the frame size is fixed for the life of a pipe, so the pipe models one session. The C rewrites `pcm_frame_size` at the start of every session (sd_card_playback.c lines 124 and 174), while the ring and the semaphore carry over. A unit given on a smaller frame's free space can then let a larger frame's producer past the semaphore with less than a frame free, and the push drops bytes. The invariant and FlowControl are not claimed across a frame-size change.
