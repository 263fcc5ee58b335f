/**
 * The rolling recorder: frames are appended to a ring, evicting the oldest
 * whole frames when space runs out, and on shutdown the ring is drained to the
 * output, starting at the first keyframe still resident.
 */
module Recorder {
  import opened Align
  import opened Framing
  import opened Ring
  import opened Policy

  datatype Error = BufferTooSmall

  datatype Outcome = Pass | Fail(error: Error)

  class CircularOutput {
    const cb: CircularBuffer

    /** The frames resident in the ring, oldest first. */
    ghost var frames: seq<Frame>
    /** Every frame appended so far, in order. */
    ghost var appended: seq<Frame>
    /** The appended frames that have left the ring (evicted or drained), in order. */
    ghost var departed: seq<Frame>

    ghost predicate Valid()
      reads this, cb, cb.buf
    {
      && cb.Valid()
      && Holds(cb.Contents, frames)
      && appended == departed + frames
      && (cb.size % ALIGN == 0 ==> cb.rptr % ALIGN == 0 && cb.wptr % ALIGN == 0)
    }

    constructor (capacity: nat)
      requires capacity > 0
      ensures Valid() && fresh(cb) && fresh(cb.buf)
      ensures cb.size == capacity
      ensures frames == [] && appended == []
    {
      cb := new CircularBuffer(capacity);
      frames, appended, departed := [], [], [];
    }

    /**
     * Appends one frame: evicts whole oldest frames until its footprint fits,
     * then writes its header, payload and padding. Fails when the footprint
     * does not fit even in the empty ring; the evictions already made stand,
     * and none of the new frame's bytes are written.
     */
    method OutputBuffer(mem: seq<byte>, timestamp_us: int64, keyframe: bool) returns (r: Outcome)
      requires Valid()
      requires |mem| <= MAX_LENGTH
      modifies this, cb, cb.buf
      ensures Valid()
      ensures var f := Frame(keyframe, timestamp_us, mem);
              var kept := Retained(old(frames), Footprint(f), cb.size);
              && (r == if kept.Some? then Pass else Fail(BufferTooSmall))
              && (kept.Some? ==> frames == kept.value + [f] && appended == old(appended) + [f])
              && (kept.None? ==> frames == [] && cb.Contents == [] && appended == old(appended))
    {
      ghost var need := Footprint(Frame(keyframe, timestamp_us, mem));
      var pad := PadMask(|mem|);
      while |mem| + pad + HEADER_SIZE > cb.Available()
        invariant Valid()
        invariant Retained(old(frames), need, cb.size) == Retained(frames, need, cb.size)
        invariant appended == old(appended)
        decreases |frames|
      {
        HoldsLength(cb.Contents, frames);
        if cb.Empty() {
          return Fail(BufferTooSmall);
        }
        DropOldest();
      }
      HoldsLength(cb.Contents, frames);
      WriteFrame(mem, timestamp_us, keyframe, pad);
      return Pass;
    }

    /** Reads the oldest frame's header and skips the rest of that frame. */
    method DropOldest()
      requires Valid() && frames != []
      modifies this, cb
      ensures Valid()
      ensures frames == old(frames)[1..] && departed == old(departed) + [old(frames)[0]]
      ensures appended == old(appended)
    {
      var header;
      ghost var live, r0;
      header, live, r0 := ReadHeader();
      SkipRest(live, r0, header.length);
    }

    /**
     * The ring is part-way through its oldest frame: `live` were its live bytes
     * when that frame's header started at `r0`, and the header has been read.
     */
    ghost predicate PastHeader(live: seq<byte>, r0: nat)
      reads this, cb, cb.buf
    {
      && cb.Valid()
      && frames != []
      && Holds(live, frames)
      && ValidFrame(frames[0]) && |live| >= Footprint(frames[0])
      && cb.Contents == live[HEADER_SIZE..]
      && appended == departed + frames
      && (cb.size % ALIGN == 0 ==> r0 % ALIGN == 0 && cb.wptr % ALIGN == 0)
      && (cb.rptr == r0 + HEADER_SIZE || cb.rptr == r0 + HEADER_SIZE - cb.size)
    }

    /** Reads the oldest frame's header. */
    method ReadHeader() returns (header: Header, ghost live: seq<byte>, ghost r0: nat)
      requires Valid() && frames != []
      modifies cb
      ensures PastHeader(live, r0)
      ensures header.length as int == |frames[0].payload|
      ensures header.keyframe == frames[0].keyframe && header.timestamp == frames[0].timestamp
    {
      live, r0 := cb.Contents, cb.rptr;
      HoldsFirstHeader(live, frames);
      var bytes := cb.Read(HEADER_SIZE);
      header := DecodeHeader(bytes);
    }

    /** After the header: skips the payload rounded up to ALIGN, which ends the frame. */
    method SkipRest(ghost live: seq<byte>, ghost r0: nat, length: u32)
      requires PastHeader(live, r0) && length as int == |frames[0].payload|
      modifies this, cb
      ensures Valid()
      ensures frames == old(frames)[1..] && departed == old(departed) + [old(frames)[0]]
      ensures appended == old(appended)
    {
      ghost var f, r1 := frames[0], cb.rptr;
      var rounded := RoundUp(length as nat);
      SkipOldest(live, frames, rounded);
      cb.Skip(rounded);
      CursorStaysAligned(cb.size, r0, r1, cb.rptr, cb.rptr, HEADER_SIZE, rounded, 0, Footprint(f));
      assert [f] + frames[1..] == frames;
      frames, departed := frames[1..], departed + [f];
    }

    /** After the header: hands over the payload and skips the padding, which ends the frame. */
    method ReadRest(ghost live: seq<byte>, ghost r0: nat, length: u32) returns (payload: seq<byte>)
      requires PastHeader(live, r0) && length as int == |frames[0].payload|
      modifies this, cb
      ensures Valid()
      ensures frames == old(frames)[1..] && departed == old(departed) + [old(frames)[0]]
      ensures appended == old(appended)
      ensures payload == old(frames)[0].payload
    {
      ghost var f, r1 := frames[0], cb.rptr;
      payload := cb.Read(length as nat);
      var pad := SkipAfterPayload(length as nat);
      ReadOldest(live, frames, pad);
      ghost var r2 := cb.rptr;
      cb.Skip(pad);
      CursorStaysAligned(cb.size, r0, r1, r2, cb.rptr, HEADER_SIZE, length as nat, pad, Footprint(f));
      assert [f] + frames[1..] == frames;
      frames, departed := frames[1..], departed + [f];
    }

    /** Writes one frame's header and payload, then advances over its padding. */
    method WriteFrame(mem: seq<byte>, timestamp_us: int64, keyframe: bool, pad: nat)
      requires Valid()
      requires |mem| <= MAX_LENGTH && pad == PadOf(|mem|)
      requires |mem| + pad + HEADER_SIZE <= cb.Available()
      modifies this, cb, cb.buf
      ensures Valid()
      ensures frames == old(frames) + [Frame(keyframe, timestamp_us, mem)]
      ensures appended == old(appended) + [Frame(keyframe, timestamp_us, mem)]
      ensures departed == old(departed)
    {
      ghost var f := Frame(keyframe, timestamp_us, mem);
      ghost var before, w0 := cb.Contents, cb.wptr;
      var header := HeaderOf(Frame(keyframe, timestamp_us, mem));
      cb.Write(EncodeHeader(header));
      ghost var w1 := cb.wptr;
      cb.Write(mem);
      ghost var w2 := cb.wptr;
      ghost var skipped := cb.Pad(pad);
      CursorStaysAligned(cb.size, w0, w1, w2, cb.wptr, HEADER_SIZE, |mem|, pad, Footprint(f));
      HoldsAfterAppend(before, frames, f, skipped);
      assert appended + [f] == departed + (frames + [f]);
      frames, appended := frames + [f], appended + [f];
    }

    /**
     * Drains the ring on shutdown, oldest frame first. Once a keyframe has been
     * seen, every frame's payload goes to the output and is counted; frames
     * before the first resident keyframe are skipped. Returns the bytes written,
     * their number and the number of frames written.
     */
    method Flush() returns (out: seq<byte>, total: nat, count: nat)
      requires Valid()
      modifies this, cb
      ensures Valid() && cb.Empty()
      ensures frames == [] && appended == old(appended)
      ensures out == Payloads(FromFirstKeyframe(old(frames)))
      ensures total == TotalLength(FromFirstKeyframe(old(frames)))
      ensures count == |FromFirstKeyframe(old(frames))|
    {
      out, total, count := [], 0, 0;
      var seenKeyframe := false;
      ghost var done: seq<Frame> := [];
      while !cb.Empty()
        invariant Valid()
        invariant old(frames) == done + frames
        invariant appended == old(appended)
        invariant seenKeyframe == HasKeyframe(done)
        invariant out == Payloads(FromFirstKeyframe(done))
        invariant total == TotalLength(FromFirstKeyframe(done))
        invariant count == |FromFirstKeyframe(done)|
        decreases |frames|
      {
        ghost var f := frames[0];
        var header, payload;
        seenKeyframe, header, payload := DrainOldest(seenKeyframe);
        if seenKeyframe {
          out := out + payload;
          total := total + header.length as nat;
          count := count + 1;
        }
        HasKeyframeAppend(done, f);
        FromFirstKeyframeEmpty(done);
        FromFirstKeyframeAppend(done, f);
        PayloadsAppend(FromFirstKeyframe(done), f);
        assert done + [f] + frames == old(frames);
        done := done + [f];
      }
      HoldsLength(cb.Contents, frames);
      assert done == old(frames);
    }

    /**
     * Reads the oldest frame's header and updates the keyframe flag with it;
     * from a keyframe onward hands over the payload and skips the padding,
     * before one skips the rest of the frame.
     */
    method DrainOldest(seen: bool) returns (seenNow: bool, header: Header, payload: seq<byte>)
      requires Valid() && frames != []
      modifies this, cb
      ensures Valid()
      ensures frames == old(frames)[1..] && departed == old(departed) + [old(frames)[0]]
      ensures appended == old(appended)
      ensures header.length as int == |old(frames)[0].payload|
      ensures header.keyframe == old(frames)[0].keyframe && header.timestamp == old(frames)[0].timestamp
      ensures seenNow == (seen || old(frames)[0].keyframe)
      ensures payload == if seenNow then old(frames)[0].payload else []
    {
      ghost var live, r0;
      header, live, r0 := ReadHeader();
      seenNow := seen || header.keyframe;
      if seenNow {
        payload := ReadRest(live, r0, header.length);
      } else {
        payload := [];
        SkipRest(live, r0, header.length);
      }
    }
  }

  /**
   * A cursor that starts on an ALIGN boundary and advances, modulo a size that
   * is a multiple of ALIGN, in three steps that add up to a multiple of ALIGN,
   * ends on an ALIGN boundary.
   */
  lemma CursorStaysAligned(size: nat, p0: nat, p1: nat, p2: nat, p3: nat, a: nat, b: nat, c: nat, total: nat)
    requires size % ALIGN == 0 ==> p0 % ALIGN == 0
    requires a + b + c == total && total % ALIGN == 0
    requires p1 == p0 + a || p1 == p0 + a - size
    requires p2 == p1 + b || p2 == p1 + b - size
    requires p3 == p2 + c || p3 == p2 + c - size
    ensures size % ALIGN == 0 ==> p3 % ALIGN == 0
  {
    if size % ALIGN == 0 {
      var t := p0 + total;
      AddAligned(p0, total);
      AddAligned(t, size);
      AddAligned(t - size, size);
      AddAligned(t - 2 * size, size);
      assert p3 == t || p3 == t - size || p3 == t - 2 * size || p3 == t - 3 * size;
    }
  }

  /**
   * A 64-byte ring receives a keyframe A and then two other frames B and C,
   * each with an 8-byte payload (32 bytes of footprint). Since one byte of the
   * ring always stays free, each frame evicts the one before it, so A is gone
   * by the time the ring is drained and nothing is written.
   */
  method KeyframeEvicted() returns (out: seq<byte>, total: nat, count: nat)
    ensures out == [] && total == 0 && count == 0
  {
    var rec := new CircularOutput(64);
    var payload: seq<byte> := [1, 2, 3, 4, 5, 6, 7, 8];
    var a, b, c := Frame(true, 0, payload), Frame(false, 1, payload), Frame(false, 2, payload);
    assert Footprint(a) == 32 && Footprint(b) == 32 && Footprint(c) == 32;
    var r := rec.OutputBuffer(payload, 0, true);
    assert rec.frames == [a];
    assert [a][1..] == [];
    r := rec.OutputBuffer(payload, 1, false);
    assert rec.frames == [b];
    assert [b][1..] == [];
    r := rec.OutputBuffer(payload, 2, false);
    assert rec.frames == [c];
    assert [c][1..] == [];
    out, total, count := rec.Flush();
  }
}
