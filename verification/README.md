# Rolling recorder: a Dafny model of `CircularOutput`

`CircularOutput` keeps the most recent stretch of a video stream in a
fixed-capacity ring of bytes. Each frame is stored as a 16-byte header
(payload length, keyframe flag, timestamp), then its payload, then padding up
to the next multiple of `ALIGN` (16) bytes. When a new frame does not fit,
`outputBuffer` evicts whole frames, oldest first, until it does. It fails with
"circular buffer too small" when the ring is already empty and the frame still
does not fit. On shutdown the destructor drains the ring, oldest frame first.
It writes the payloads (no headers, no padding) of every frame from the first
resident keyframe onward, and counts the bytes and frames written.

The model has five modules, one per concern:

- `Align` (align.dfy): the padding and round-up arithmetic.
  - Unsigned wrap-around is written out as `U32` and `U64`.
  - The masks `& (ALIGN - 1)` and `& ~(ALIGN - 1)` are written as remainders.
  - Three bit-vector lemmas show that on 32- and 64-bit words the masks compute
    exactly these remainders.
- `Framing` (framing.dfy): the `Header` record and the frame layout.
  - The header is serialized explicitly as 16 little-endian bytes, with a
    round-trip lemma.
  - The ghost predicate `Holds(bytes, frames)` says that the live bytes of
    the ring are exactly the given frames laid out one after another, oldest
    first.
- `Ring` (ring.dfy): the `CircularBuffer` class.
  - It has a byte array, a read cursor and a write cursor taken modulo the
    capacity, and the ghost sequence `Contents` of live bytes.
  - `Write`, `Pad`, `Read` and `Skip` are each proved to append to or remove
    from `Contents`.
- `Policy` (policy.dfy): what is kept and what is written out, stated on
  sequences of frames.
  - `Retained` gives the frames left after eviction.
  - `FromFirstKeyframe`, `Payloads` and `TotalLength` give what the flush
    writes.
- `Recorder` (circular_output.dfy): the `CircularOutput` class.
  - Its ghost fields are `frames` (resident, oldest first), `appended` (every
    frame ever appended) and `departed` (frames evicted or drained).
  - Its invariant: the ring holds exactly `frames`, `appended == departed +
    frames`, and both cursors sit on `ALIGN` boundaries whenever the capacity
    is a multiple of `ALIGN`.
  - `OutputBuffer` and `Flush` are proved against the `Policy` functions.

`CircularBuffer` is declared in circular_output.hpp, which is not part of this
model. It is modelled from its use in circular_output.cpp:

- `Empty()` holds exactly when the two cursors are equal.
- Consequently a full ring would look empty. So `Available()` is
  `capacity - 1 - used`: one byte always stays free (`Framing.FreeSpace`).
- A formula of `capacity - used` cannot coexist with that `Empty()`. With the
  model's formula, two 32-byte frames do not fit together in a 64-byte ring:
  the second evicts the first.
- The free-space formula appears in one function, `Framing.FreeSpace`. Every
  eviction property is stated through it.
- `Recorder.KeyframeEvicted` plays this out: a keyframe followed by two other
  frames in a 64-byte ring leaves no keyframe behind, and the flush writes
  nothing.

## Model

| member | source | states |
|---|---|---|
| Align.U32 | circular_output.cpp:48 | an `unsigned int` expression's value: below 2^32 and congruent to the exact value modulo 2^32 |
| Align.U64 | circular_output.cpp:62 | a `size_t` expression's value: below 2^64 and congruent to the exact value modulo 2^64 |
| Align.MaskLow | circular_output.cpp:48 | `x & (ALIGN - 1)` as a remainder: below 16 and differing from x by a multiple of 16 |
| Align.PadOf | circular_output.cpp:62 | the pad is below 16 and brings the payload size to a multiple of 16 |
| Align.PadMask | circular_output.cpp:62 | `(ALIGN - size) & (ALIGN - 1)` on a wrapping 64-bit size_t equals PadOf(size) for every size |
| Align.PadOfIsLeast | circular_output.cpp:62 | no smaller amount reaches a multiple of 16, so the pad is the least one |
| Align.SkipAfterPayload | circular_output.cpp:48 | the 32-bit `(ALIGN - length) & (ALIGN - 1)` skipped after a written payload equals the pad that was appended after it |
| Align.ClearLow | circular_output.cpp:70 | clearing the low bits gives the largest multiple of 16 not above x |
| Align.RoundUp | circular_output.cpp:70 | the 32-bit `(length + ALIGN - 1) & ~(ALIGN - 1)` used when evicting or discarding equals length plus its pad for every length up to MAX_LENGTH |
| Align.MaskIsRemainder64 | circular_output.cpp:62 | on a 64-bit word, `x & 15` is x mod 16 |
| Align.MaskIsRemainder32 | circular_output.cpp:48 | on a 32-bit word, `x & 15` is x mod 16 |
| Align.ClearLowIsRoundDown | circular_output.cpp:53 | on a 32-bit word, `x & ~15` is x minus x mod 16 |
| Align.ModMultipleOfAlign | circular_output.cpp:62 | wrapping modulo 2^32 or 2^64 does not change the remainder modulo 16 |
| Framing.HeaderOf | circular_output.cpp:72 | the header written for a frame carries its payload length, keyframe bit and timestamp |
| Framing.FreeSpace | circular_output.cpp:63 | the free space behind `cb_.Available()`, assumed to be capacity − 1 − used because the `CircularBuffer` source is not available: live plus free bytes stay below the capacity, and the free space is not negative while the ring is not overfull |
| Framing.Footprint | circular_output.cpp:63 | a frame's footprint (header + size + pad) is a multiple of 16 and exceeds header plus payload by less than 16 |
| Framing.TotalFootprint | circular_output.cpp:63 | the footprint of a sequence of frames is a multiple of 16, at least one header when non-empty |
| Framing.TotalFootprintAppend | circular_output.cpp:72-75 | appending a frame adds its footprint to the total |
| Framing.EncodeHeader | circular_output.cpp:15-21 | the serialized header is exactly HEADER_SIZE (16) bytes, a multiple of ALIGN |
| Framing.DecodeEncodeLE | circular_output.cpp:15-20 | decoding the k little-endian bytes of n gives back n when n fits in k bytes |
| Framing.EncodeDecodeLE | circular_output.cpp:15-20 | re-encoding the number that k bytes decode to gives back those bytes |
| Framing.FromTwosComplement | circular_output.cpp:19 | reading a 64-bit pattern as a signed timestamp is inverse to taking the timestamp's pattern |
| Framing.DecodeHeader | circular_output.cpp:42-43 | the header read back from 16 bytes of the ring (also lines 68-69); writing it again reproduces exactly those bytes whose keyframe byte is 0 or 1 and whose next three bytes are zero |
| Framing.HeaderRoundTrip | circular_output.cpp:42-44 | reading a header's bytes back yields exactly the header that was written |
| Framing.FrameBytesHold | circular_output.cpp:72-75 | header bytes, then payload, then any pad of the right size lay out exactly that one frame |
| Framing.HoldsLength | circular_output.cpp:63 | the live bytes are exactly as long as the total footprint of the resident frames |
| Framing.HoldsAppend | circular_output.cpp:72-75 | appending the bytes of one frame to the live bytes appends that frame as the newest |
| Framing.HoldsFirstHeader | circular_output.cpp:67-69 | the first 16 live bytes decode to the oldest frame's header |
| Framing.SkipOldest | circular_output.cpp:67-70 | reading the oldest header and skipping the rounded-up length removes exactly the oldest frame and leaves the others intact |
| Framing.ReadOldest | circular_output.cpp:43-48 | after the oldest header, the next `length` bytes are its payload, and skipping the pad leaves the other frames intact |
| Framing.HoldsAfterAppend | circular_output.cpp:72-75 | writing header, payload and pad after the live bytes makes the new frame the newest resident frame |
| Ring.CircularBuffer.constructor | circular_output.cpp:24 | a new ring of the given capacity is empty |
| Ring.CircularBuffer.Available | circular_output.cpp:63 | free space is FreeSpace(capacity, live bytes) |
| Ring.CircularBuffer.Empty | circular_output.cpp:40 | empty exactly when no byte is live |
| Ring.CircularBuffer.Write | circular_output.cpp:73-74 | the live bytes gain the data at the end (wrapping around the array end); the read cursor is unchanged |
| Ring.CircularBuffer.Pad | circular_output.cpp:75 | the live bytes grow by n bytes at the end, keeping whatever the array held; the old live bytes are unchanged |
| Ring.CircularBuffer.Read | circular_output.cpp:43 | hands over the n oldest live bytes and removes them; the write cursor is unchanged |
| Ring.CircularBuffer.Skip | circular_output.cpp:70 | removes the n oldest live bytes without handing them over |
| Policy.Retained | circular_output.cpp:63-71 | eviction fails exactly when the footprint exceeds the empty ring's free space; otherwise the kept frames leave room for it |
| Policy.RetainedIsSuffix | circular_output.cpp:63-71 | eviction removes only the oldest frames: the kept frames are a suffix, in order |
| Policy.RetainedIsLongestFit | circular_output.cpp:63-70 | every longer suffix would not have left room, so no frame is evicted needlessly |
| Policy.RetainedAfterEvicting | circular_output.cpp:63-70 | evicting oldest frames that did not make room does not change what is finally kept |
| Policy.FromFirstKeyframe | circular_output.cpp:44-53 | the written frames start at a keyframe, and every frame before them is not a keyframe |
| Policy.FromFirstKeyframeIsSuffix | circular_output.cpp:44-53 | the written frames are the newest resident frames, in their original order |
| Policy.FromFirstKeyframeEmpty | circular_output.cpp:34-35 | nothing is written exactly when no resident frame is a keyframe |
| Policy.HasKeyframeAppend | circular_output.cpp:44 | the sticky flag after one more frame is the old flag or that frame's keyframe bit |
| Policy.HasKeyframeTail | circular_output.cpp:44 | a keyframe is among the frames exactly when it is the first or among the rest |
| Policy.FromFirstKeyframeAppend | circular_output.cpp:44-53 | one more drained frame is written exactly when a keyframe has been seen, including that frame itself |
| Policy.PayloadsAppend | circular_output.cpp:47-49 | writing one more frame appends its payload to the output and adds its length to the total |
| Policy.PayloadsLength | circular_output.cpp:47-49 | the output is exactly as long as the total of the written lengths |
| Recorder.CircularOutput.constructor | circular_output.cpp:23-25 | a new recorder holds no frames |
| Recorder.CircularOutput.OutputBuffer | circular_output.cpp:59-76 | it fails exactly when the frame does not fit the empty ring, and then the ring is empty and none of the frame is written; otherwise the resident frames become Retained(old frames) followed by the new frame |
| Recorder.CircularOutput.DropOldest | circular_output.cpp:67-70 | one eviction step removes exactly the oldest frame, which departs, and keeps the invariant |
| Recorder.CircularOutput.ReadHeader | circular_output.cpp:42-43 | the header read is the oldest frame's length, keyframe bit and timestamp |
| Recorder.CircularOutput.SkipRest | circular_output.cpp:53 | skipping the rounded-up length after a header ends exactly the oldest frame |
| Recorder.CircularOutput.ReadRest | circular_output.cpp:47-48 | reading `length` bytes after a header yields the oldest frame's payload, and skipping the pad ends that frame |
| Recorder.CircularOutput.WriteFrame | circular_output.cpp:72-75 | header, payload and pad make the new frame the newest resident and appended frame |
| Recorder.CircularOutput.DrainOldest | circular_output.cpp:42-53 | one drain step consumes the oldest frame, updates the sticky flag with its keyframe bit, and hands over its payload exactly when the flag is set |
| Recorder.CircularOutput.Flush | circular_output.cpp:32-57 | the ring ends empty; the output is the concatenated payloads from the first resident keyframe on; total and count are their length sum and number |
| Recorder.CursorStaysAligned | circular_output.cpp:13 | a cursor on a 16-byte boundary that advances by one footprint in a ring whose capacity is a multiple of 16 stays on a boundary |
| Recorder.KeyframeEvicted | circular_output.cpp:32-76 | a 64-byte ring given a keyframe and then two other 8-byte frames writes nothing at shutdown |

## Left out

- Opening the output file (`fopen` in the constructor) and its "could not open output file" error are not modelled.
- `fclose` and the `std::cout` report are not modelled either. The sink callback that `fwrite`s payload bytes is modelled as the byte sequence `Flush` returns; `Flush` also returns the two counters.
- The exceptions are modelled as values: "circular buffer too small" is the outcome `Fail(BufferTooSmall)` of `OutputBuffer`. Evictions made before it stand, as they do in the source.
- The native struct layout of `Header` and its `memcpy` through `uint8_t*` are not modelled. They are replaced by an explicit 16-byte little-endian serialization of the same fields.
- The 4 MiB `CIRCULAR_BUFFER_SIZE` is not fixed: the capacity is a constructor parameter.
- `FLAG_KEYFRAME` and the `flags` word are not modelled. The keyframe bit is a boolean input.
- `Output`, `VideoOptions` and the internals of `CircularBuffer` are not part of this model. The ring is modelled from how circular_output.cpp uses it, with `Available()` = capacity − 1 − used.
- Recorder.CircularOutput.OutputBuffer: requires `|mem| <= MAX_LENGTH` (2^32 − 16). It does not model the truncation of a larger `size_t` into the 32-bit header length, nor the wrap of the round-up of such a length to 0.
- Recorder.CircularOutput.Flush: `total` and `count` are unbounded naturals. The 32-bit wrap of `unsigned int total` is not modelled.
- Align.RoundUp: its contract gives the value only for lengths up to MAX_LENGTH. Above that the 32-bit sum wraps, and the contract says nothing.
- Ring.CircularBuffer.Pad: the padding bytes stay as the array held them. The model says nothing about their values, and no property depends on them.
- Ring.CircularBuffer.Write, Ring.CircularBuffer.Pad, Ring.CircularBuffer.Read, Ring.CircularBuffer.Skip: the ring performs no overflow check. Callers must prove `n <= Available()` (Write, Pad) or `n <= |Contents|` (Read, Skip), which is the obligation the source leaves to its callers.
