/**
 * What the recorder keeps and what it writes out, stated on sequences of
 * frames (oldest first), independently of the ring that stores them.
 */
module Policy {
  import opened Align
  import opened Framing

  datatype Option<T> = None | Some(value: T)

  // ---------------------------------------------------------------------------
  // Eviction

  /**
   * The frames left after evicting the oldest ones, one whole frame at a time,
   * until `need` more bytes fit in a ring of `size` bytes; None when they do
   * not fit even once every frame is gone. The kept frames are the longest
   * suffix of fs that leaves room for `need` bytes.
   */
  function Retained(fs: seq<Frame>, need: nat, size: nat): (r: Option<seq<Frame>>)
    ensures r.None? <==> need > FreeSpace(size, 0)
    ensures r.Some? ==> |r.value| <= |fs|
    ensures r.Some? ==> need <= FreeSpace(size, TotalFootprint(r.value))
    decreases |fs|
  {
    if need <= FreeSpace(size, TotalFootprint(fs)) then Some(fs)
    else if fs == [] then None
    else Retained(fs[1..], need, size)
  }

  /** Eviction removes whole frames from the old end only: the kept frames are the newest ones. */
  lemma {:induction false} RetainedIsSuffix(fs: seq<Frame>, need: nat, size: nat)
    requires Retained(fs, need, size).Some?
    ensures var kept := Retained(fs, need, size).value; kept == fs[|fs| - |kept|..]
    decreases |fs|
  {
    if need > FreeSpace(size, TotalFootprint(fs)) {
      var kept := Retained(fs[1..], need, size).value;
      RetainedIsSuffix(fs[1..], need, size);
      assert fs[1..][|fs| - 1 - |kept|..] == fs[|fs| - |kept|..];
    }
  }

  /** Eviction stops at the first suffix that leaves room: no longer suffix does. */
  lemma {:induction false} RetainedIsLongestFit(fs: seq<Frame>, need: nat, size: nat, k: nat)
    requires Retained(fs, need, size).Some?
    requires k < |fs| - |Retained(fs, need, size).value|
    ensures need > FreeSpace(size, TotalFootprint(fs[k..]))
    decreases |fs|
  {
    if k > 0 {
      assert fs[k..] == fs[1..][k - 1..];
      RetainedIsLongestFit(fs[1..], need, size, k - 1);
    }
  }

  /**
   * Evicting the k oldest frames, none of whose removal made room, does not
   * change which frames are eventually kept.
   */
  lemma {:induction false} RetainedAfterEvicting(fs: seq<Frame>, need: nat, size: nat, k: nat)
    requires k <= |fs|
    requires forall j :: 0 <= j < k ==> need > FreeSpace(size, TotalFootprint(fs[j..]))
    ensures Retained(fs, need, size) == Retained(fs[k..], need, size)
    decreases k
  {
    if k == 0 {
      assert fs[0..] == fs;
    } else {
      RetainedAfterEvicting(fs, need, size, k - 1);
      var rest := fs[k - 1..];
      assert need > FreeSpace(size, TotalFootprint(rest));
      assert rest[1..] == fs[k..];
    }
  }

  // ---------------------------------------------------------------------------
  // Keyframe gating

  predicate HasKeyframe(fs: seq<Frame>)
  {
    exists i :: 0 <= i < |fs| && fs[i].keyframe
  }

  /**
   * The frames from the first keyframe onward; empty when there is no keyframe.
   * Frames before the first keyframe cannot be decoded and are dropped.
   */
  function FromFirstKeyframe(fs: seq<Frame>): (r: seq<Frame>)
    ensures |r| <= |fs|
    ensures r != [] ==> r[0].keyframe
    ensures forall j :: 0 <= j < |fs| - |r| ==> !fs[j].keyframe
    decreases |fs|
  {
    if fs == [] then []
    else if fs[0].keyframe then fs
    else
      var r := FromFirstKeyframe(fs[1..]);
      assert forall j :: 1 <= j < |fs| - |r| ==> fs[j] == fs[1..][j - 1];
      r
  }

  /** The frames kept are the newest ones: a suffix of fs. */
  lemma {:induction false} FromFirstKeyframeIsSuffix(fs: seq<Frame>)
    ensures FromFirstKeyframe(fs) == fs[|fs| - |FromFirstKeyframe(fs)|..]
    decreases |fs|
  {
    if fs != [] && !fs[0].keyframe {
      var r := FromFirstKeyframe(fs[1..]);
      assert FromFirstKeyframe(fs) == r;
      FromFirstKeyframeIsSuffix(fs[1..]);
      assert fs[1..][|fs| - 1 - |r|..] == fs[|fs| - |r|..];
    }
  }

  /** Without a keyframe nothing is kept; with one, the result starts at a keyframe. */
  lemma FromFirstKeyframeEmpty(fs: seq<Frame>)
    ensures FromFirstKeyframe(fs) == [] <==> !HasKeyframe(fs)
  {
    var r := FromFirstKeyframe(fs);
    if r != [] {
      FromFirstKeyframeIsSuffix(fs);
      assert fs[|fs| - |r|] == r[0];
    }
  }

  lemma HasKeyframeAppend(fs: seq<Frame>, f: Frame)
    ensures HasKeyframe(fs + [f]) == (HasKeyframe(fs) || f.keyframe)
  {
    var gs := fs + [f];
    if HasKeyframe(fs) {
      var i :| 0 <= i < |fs| && fs[i].keyframe;
      assert gs[i].keyframe;
    }
    if f.keyframe {
      assert gs[|fs|].keyframe;
    }
    if HasKeyframe(gs) {
      var i :| 0 <= i < |gs| && gs[i].keyframe;
      if i < |fs| { assert fs[i].keyframe; }
    }
  }

  lemma HasKeyframeTail(fs: seq<Frame>)
    requires fs != []
    ensures HasKeyframe(fs) == (fs[0].keyframe || HasKeyframe(fs[1..]))
  {
    if HasKeyframe(fs) && !fs[0].keyframe {
      var i :| 0 <= i < |fs| && fs[i].keyframe;
      assert fs[1..][i - 1].keyframe;
    }
    if HasKeyframe(fs[1..]) {
      var i :| 0 <= i < |fs| - 1 && fs[1..][i].keyframe;
      assert fs[i + 1].keyframe;
    }
  }

  /** The sticky flag in the drain loop: one more frame extends the kept run, or starts it. */
  lemma {:induction false} FromFirstKeyframeAppend(fs: seq<Frame>, f: Frame)
    ensures FromFirstKeyframe(fs + [f])
         == if HasKeyframe(fs) || f.keyframe then FromFirstKeyframe(fs) + [f] else []
    decreases |fs|
  {
    if fs == [] {
      assert fs + [f] == [f];
      assert !HasKeyframe(fs);
    } else {
      assert (fs + [f])[0] == fs[0];
      assert (fs + [f])[1..] == fs[1..] + [f];
      HasKeyframeTail(fs);
      if !fs[0].keyframe {
        FromFirstKeyframeAppend(fs[1..], f);
      }
    }
  }

  // ---------------------------------------------------------------------------
  // Output file contents

  /** The payloads of fs, concatenated in order, without headers or padding. */
  function Payloads(fs: seq<Frame>): seq<byte>
    decreases |fs|
  {
    if fs == [] then [] else fs[0].payload + Payloads(fs[1..])
  }

  /** Sum of the payload lengths of fs. */
  function TotalLength(fs: seq<Frame>): nat
    decreases |fs|
  {
    if fs == [] then 0 else |fs[0].payload| + TotalLength(fs[1..])
  }

  lemma {:induction false} PayloadsAppend(fs: seq<Frame>, f: Frame)
    ensures Payloads(fs + [f]) == Payloads(fs) + f.payload
    ensures TotalLength(fs + [f]) == TotalLength(fs) + |f.payload|
    decreases |fs|
  {
    if fs == [] {
      assert fs + [f] == [f];
    } else {
      assert (fs + [f])[1..] == fs[1..] + [f];
      PayloadsAppend(fs[1..], f);
    }
  }

  /** The output is as long as the payloads it concatenates. */
  lemma {:induction false} PayloadsLength(fs: seq<Frame>)
    ensures |Payloads(fs)| == TotalLength(fs)
    decreases |fs|
  {
    if fs != [] {
      PayloadsLength(fs[1..]);
    }
  }
}
