/**
 * Frame layout inside the ring.
 *
 * A frame occupies a header, then its payload, then padding up to the next
 * multiple of ALIGN. The header records the payload length, whether the frame
 * is a keyframe and its timestamp in microseconds. Instead of copying the
 * compiler's in-memory struct, the header is serialized explicitly as 16
 * little-endian bytes: length (4 bytes), keyframe (1 byte), three zero bytes,
 * timestamp (8 bytes, two's complement).
 */
module Framing {
  import opened Align

  /** C++ `uint8_t`. */
  newtype byte = x: int | 0 <= x < 256

  /** C++ `unsigned int`. */
  newtype u32 = x: int | 0 <= x < 0x1_0000_0000

  /** C++ `int64_t`. */
  newtype int64 = x: int | -0x8000_0000_0000_0000 <= x < 0x8000_0000_0000_0000

  datatype Header = Header(length: u32, keyframe: bool, timestamp: int64)

  /** Bytes a header occupies in the ring; a multiple of ALIGN. */
  const HEADER_SIZE: nat := 16

  /** A frame as the producer hands it over: keyframe bit, timestamp and payload. */
  datatype Frame = Frame(keyframe: bool, timestamp: int64, payload: seq<byte>)

  /** Payloads are bounded so that their length fits the header and its round-up does not wrap. */
  predicate ValidFrame(f: Frame)
  {
    |f.payload| <= MAX_LENGTH
  }

  /** The header written in front of a frame's payload. */
  function HeaderOf(f: Frame): (h: Header)
    requires ValidFrame(f)
    ensures h.length as int == |f.payload|
    ensures h.keyframe == f.keyframe && h.timestamp == f.timestamp
  {
    Header(|f.payload| as u32, f.keyframe, f.timestamp)
  }

  /** Bytes a frame occupies in the ring: header, payload and padding. */
  function Footprint(f: Frame): (n: nat)
    ensures n % ALIGN == 0
    ensures HEADER_SIZE + |f.payload| <= n < HEADER_SIZE + |f.payload| + ALIGN
  {
    HEADER_SIZE + |f.payload| + PadOf(|f.payload|)
  }

  /** Bytes a sequence of frames occupies in the ring. */
  function TotalFootprint(fs: seq<Frame>): (n: nat)
    ensures n % ALIGN == 0
    ensures fs != [] ==> n >= HEADER_SIZE
  {
    if fs == [] then 0 else Footprint(fs[0]) + TotalFootprint(fs[1..])
  }

  lemma {:induction false} TotalFootprintAppend(fs: seq<Frame>, f: Frame)
    ensures TotalFootprint(fs + [f]) == TotalFootprint(fs) + Footprint(f)
    decreases |fs|
  {
    if fs == [] {
      assert [f][1..] == [];
    } else {
      assert (fs + [f])[1..] == fs[1..] + [f];
      TotalFootprintAppend(fs[1..], f);
    }
  }

  /**
   * Free space of a ring of `size` bytes holding `used` live bytes. One byte
   * always stays unused, since equal cursors mean "empty": the live and the
   * free bytes together never reach the capacity, and a ring that is not
   * overfull has no negative room.
   */
  function FreeSpace(size: nat, used: nat): (n: int)
    ensures used + n < size
    ensures used < size ==> n >= 0
  {
    size - 1 - used
  }

  // ---------------------------------------------------------------------------
  // Little-endian integers

  function Pow256(k: nat): (p: nat)
    ensures p >= 1
  {
    if k == 0 then 1 else 256 * Pow256(k - 1)
  }

  /** The k low-order bytes of n, least significant first. */
  function EncodeLE(n: nat, k: nat): (bs: seq<byte>)
    ensures |bs| == k
  {
    if k == 0 then [] else [(n % 256) as byte] + EncodeLE(n / 256, k - 1)
  }

  /** The number whose little-endian bytes are bs. */
  function DecodeLE(bs: seq<byte>): (n: nat)
    ensures n < Pow256(|bs|)
  {
    if bs == [] then 0 else bs[0] as nat + 256 * DecodeLE(bs[1..])
  }

  lemma {:induction false} DecodeEncodeLE(n: nat, k: nat)
    requires n < Pow256(k)
    ensures DecodeLE(EncodeLE(n, k)) == n
  {
    if k > 0 {
      var bs := EncodeLE(n, k);
      assert bs[1..] == EncodeLE(n / 256, k - 1);
      assert n / 256 < Pow256(k - 1);
      DecodeEncodeLE(n / 256, k - 1);
    }
  }

  lemma {:induction false} EncodeDecodeLE(bs: seq<byte>)
    ensures EncodeLE(DecodeLE(bs), |bs|) == bs
  {
    if bs != [] {
      var n := DecodeLE(bs);
      assert n % 256 == bs[0] as int && n / 256 == DecodeLE(bs[1..]);
      EncodeDecodeLE(bs[1..]);
    }
  }

  // ---------------------------------------------------------------------------
  // Header serialization

  /** The 64-bit two's-complement bit pattern of a timestamp, as an unsigned value. */
  function TwosComplement(t: int64): (u: nat)
    ensures u < TWO_64
  {
    if t < 0 then t as int + TWO_64 else t as int
  }

  function FromTwosComplement(u: nat): (t: int64)
    requires u < TWO_64
    ensures TwosComplement(t) == u
  {
    if u >= TWO_64 / 2 then (u - TWO_64) as int64 else u as int64
  }

  /** The header's bytes as they are written into the ring. */
  function EncodeHeader(h: Header): (bs: seq<byte>)
    ensures |bs| == HEADER_SIZE
  {
    EncodeLE(h.length as nat, 4)
      + [if h.keyframe then 1 else 0] + [0, 0, 0]
      + EncodeLE(TwosComplement(h.timestamp), 8)
  }

  /**
   * The header read back from HEADER_SIZE bytes of the ring. Writing it again
   * reproduces those bytes exactly when they have the shape EncodeHeader
   * gives: a keyframe byte of 0 or 1 followed by three zero bytes.
   */
  function DecodeHeader(bs: seq<byte>): (h: Header)
    requires |bs| == HEADER_SIZE
    ensures EncodeHeader(h) == bs <==> bs[4] <= 1 && bs[5..8] == [0, 0, 0]
  {
    EncodeDecodeLE(bs[..4]);
    EncodeDecodeLE(bs[8..]);
    assert bs == bs[..4] + [bs[4]] + bs[5..8] + bs[8..];
    Header(DecodeLE(bs[..4]) as u32, bs[4] != 0, FromTwosComplement(DecodeLE(bs[8..])))
  }

  /** Reading a header back yields exactly the header that was written. */
  lemma HeaderRoundTrip(h: Header)
    ensures DecodeHeader(EncodeHeader(h)) == h
  {
    var bs := EncodeHeader(h);
    assert bs[..4] == EncodeLE(h.length as nat, 4);
    assert bs[8..] == EncodeLE(TwosComplement(h.timestamp), 8);
    DecodeEncodeLE(h.length as nat, 4);
    DecodeEncodeLE(TwosComplement(h.timestamp), 8);
  }

  // ---------------------------------------------------------------------------
  // Frames laid out in a byte sequence

  /**
   * The live bytes of the ring hold exactly the frames fs, oldest first: for
   * each frame its header bytes, its payload, and then padding whose content
   * is unspecified (the ring advances over it without writing).
   */
  ghost predicate Holds(bytes: seq<byte>, fs: seq<Frame>)
    decreases |fs|, 1
  {
    if fs == [] then bytes == [] else HoldsFirst(bytes, fs)
  }

  /** The bytes open with the oldest frame of fs, and what follows it holds the others. */
  ghost predicate HoldsFirst(bytes: seq<byte>, fs: seq<Frame>)
    requires fs != []
    decreases |fs|, 0
  {
    var f := fs[0];
    && ValidFrame(f) && |bytes| >= Footprint(f)
    && bytes[..HEADER_SIZE] == EncodeHeader(HeaderOf(f))
    && bytes[HEADER_SIZE..HEADER_SIZE + |f.payload|] == f.payload
    && Holds(bytes[Footprint(f)..], fs[1..])
  }

  /** The bytes of one frame followed by any padding of the right size. */
  lemma FrameBytesHold(f: Frame, pad: seq<byte>)
    requires ValidFrame(f) && |pad| == PadOf(|f.payload|)
    ensures Holds(EncodeHeader(HeaderOf(f)) + f.payload + pad, [f])
  {
    var bytes := EncodeHeader(HeaderOf(f)) + f.payload + pad;
    assert bytes[..HEADER_SIZE] == EncodeHeader(HeaderOf(f));
    assert bytes[HEADER_SIZE..HEADER_SIZE + |f.payload|] == f.payload;
    assert bytes[Footprint(f)..] == [];
    assert HoldsFirst(bytes, [f]);
  }

  /** The live bytes are exactly as long as the frames they hold. */
  lemma {:induction false} HoldsLength(bytes: seq<byte>, fs: seq<Frame>)
    requires Holds(bytes, fs)
    ensures |bytes| == TotalFootprint(fs)
    decreases |fs|
  {
    if fs != [] {
      assert HoldsFirst(bytes, fs);
      HoldsLength(bytes[Footprint(fs[0])..], fs[1..]);
    }
  }

  /** Appending the bytes of one more frame appends that frame. */
  lemma {:induction false} HoldsAppend(a: seq<byte>, fs: seq<Frame>, b: seq<byte>, f: Frame)
    requires Holds(a, fs) && Holds(b, [f])
    ensures Holds(a + b, fs + [f])
    decreases |fs|
  {
    if fs == [] {
      assert a == [];
      assert a + b == b && fs + [f] == [f];
    } else {
      assert HoldsFirst(a, fs);
      var g := fs[0];
      var n := Footprint(g);
      assert (a + b)[..HEADER_SIZE] == a[..HEADER_SIZE];
      assert (a + b)[HEADER_SIZE..HEADER_SIZE + |g.payload|] == a[HEADER_SIZE..HEADER_SIZE + |g.payload|];
      assert (a + b)[n..] == a[n..] + b;
      assert (fs + [f])[0] == g;
      assert (fs + [f])[1..] == fs[1..] + [f];
      HoldsAppend(a[n..], fs[1..], b, f);
      assert HoldsFirst(a + b, fs + [f]);
    }
  }

  /** The first header in the live bytes is the oldest frame's header. */
  lemma HoldsFirstHeader(bytes: seq<byte>, fs: seq<Frame>)
    requires Holds(bytes, fs) && fs != []
    ensures ValidFrame(fs[0]) && |bytes| >= Footprint(fs[0]) && |bytes| >= HEADER_SIZE
    ensures DecodeHeader(bytes[..HEADER_SIZE]) == HeaderOf(fs[0])
  {
    assert HoldsFirst(bytes, fs);
    HeaderRoundTrip(HeaderOf(fs[0]));
  }

  /**
   * Reading the oldest frame's header and then skipping its payload rounded up
   * to ALIGN removes exactly that frame and leaves the others.
   */
  lemma SkipOldest(bytes: seq<byte>, fs: seq<Frame>, n: nat)
    requires Holds(bytes, fs) && fs != []
    requires n == |fs[0].payload| + PadOf(|fs[0].payload|)
    ensures HEADER_SIZE + n <= |bytes|
    ensures Holds(bytes[HEADER_SIZE..][n..], fs[1..])
  {
    assert HoldsFirst(bytes, fs);
    assert bytes[HEADER_SIZE..][n..] == bytes[Footprint(fs[0])..];
  }

  /**
   * Reading the oldest frame's header, then its payload, then skipping its
   * padding hands over exactly its payload and leaves the other frames.
   */
  lemma ReadOldest(bytes: seq<byte>, fs: seq<Frame>, pad: nat)
    requires Holds(bytes, fs) && fs != []
    requires pad == PadOf(|fs[0].payload|)
    ensures HEADER_SIZE + |fs[0].payload| + pad <= |bytes|
    ensures bytes[HEADER_SIZE..][..|fs[0].payload|] == fs[0].payload
    ensures Holds(bytes[HEADER_SIZE..][|fs[0].payload|..][pad..], fs[1..])
  {
    assert HoldsFirst(bytes, fs);
    var len := |fs[0].payload|;
    assert bytes[HEADER_SIZE..][..len] == bytes[HEADER_SIZE..HEADER_SIZE + len];
    assert bytes[HEADER_SIZE..][len..][pad..] == bytes[Footprint(fs[0])..];
  }

  /**
   * Writing one frame's header and payload after the live bytes, then advancing
   * over its padding, appends that frame.
   */
  lemma HoldsAfterAppend(before: seq<byte>, fs: seq<Frame>, f: Frame, pad: seq<byte>)
    requires Holds(before, fs) && ValidFrame(f) && |pad| == PadOf(|f.payload|)
    ensures Holds(before + EncodeHeader(HeaderOf(f)) + f.payload + pad, fs + [f])
  {
    var written := EncodeHeader(HeaderOf(f)) + f.payload + pad;
    assert before + EncodeHeader(HeaderOf(f)) + f.payload + pad == before + written;
    FrameBytesHold(f, pad);
    HoldsAppend(before, fs, written, f);
  }
}
