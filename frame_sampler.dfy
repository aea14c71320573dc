/** `extract_images`: decode a video frame by frame and write every
    `frame_interval`-th frame as `frame_NNNNNN.jpg` into the images folder. */
module FrameSampler {
  import opened Outcomes
  import opened Decimal
  import opened Files

  // ---------------------------------------------------------------------
  // Frame file names

  /** `f"frame_{n:06d}.jpg"`. */
  function FrameName(n: nat): string {
    "frame_" + Format(n, 6) + ".jpg"
  }

  function FramePath(dir: Path, n: nat): Path {
    dir + [FrameName(n)]
  }

  /** A frame name is `frame_`, at least six digits that read back as the
      frame index, and `.jpg`. */
  lemma FrameNameDecodes(n: nat)
    ensures |FrameName(n)| >= 16
    ensures FrameName(n)[..6] == "frame_"
    ensures FrameName(n)[|FrameName(n)| - 4..] == ".jpg"
    ensures AllDigits(FrameName(n)[6..|FrameName(n)| - 4])
    ensures Value(FrameName(n)[6..|FrameName(n)| - 4]) == n
  {
    var f := Format(n, 6);
    assert FrameName(n)[6..|FrameName(n)| - 4] == f;
    ValueOfFormat(n, 6);
  }

  /** Distinct frames get distinct file names. */
  lemma FrameNameInjective(a: nat, b: nat)
    requires FrameName(a) == FrameName(b)
    ensures a == b
  {
    FrameNameDecodes(a);
    FrameNameDecodes(b);
  }

  lemma FramePathInjective(dir: Path, a: nat, b: nat)
    requires FramePath(dir, a) == FramePath(dir, b)
    ensures a == b
  {
    assert FramePath(dir, a)[|dir|] == FrameName(a);
    assert FramePath(dir, b)[|dir|] == FrameName(b);
    FrameNameInjective(a, b);
  }

  /** Below one million frames every name has exactly six digits. */
  lemma FrameNameWidth(n: nat)
    requires n < 1000000
    ensures |FrameName(n)| == 16
  {
    assert Pow10(6) == 1000000;
    FormatWidth(n, 6);
  }

  /** Below one million frames, sorting the names as strings sorts the frames
      by index. */
  lemma FrameNameOrder(a: nat, b: nat)
    requires a < 1000000 && b < 1000000
    ensures a < b <==> LexLess(FrameName(a), FrameName(b))
  {
    assert Pow10(6) == 1000000;
    if a < b {
      FrameNameOrdered(a, b);
    } else if a == b {
      LexLessIrreflexive(FrameName(a));
    } else {
      FrameNameOrdered(b, a);
      LexLessAsymmetric(FrameName(b), FrameName(a));
    }
  }

  lemma FrameNameOrdered(a: nat, b: nat)
    requires a < b < Pow10(6)
    ensures LexLess(FrameName(a), FrameName(b))
  {
    var fa, fb := Format(a, 6), Format(b, 6);
    FormatWidth(a, 6);
    FormatWidth(b, 6);
    ValueOfFormat(a, 6);
    ValueOfFormat(b, 6);
    LexLessOfValue(fa, fb);
    LexLessAppend(fa, fb, ".jpg", ".jpg");
    LexLessPrepend("frame_", fa + ".jpg", fb + ".jpg");
    assert FrameName(a) == "frame_" + (fa + ".jpg");
    assert FrameName(b) == "frame_" + (fb + ".jpg");
  }

  // ---------------------------------------------------------------------
  // Which frames are written

  /** The indices written after `count` frames have been decoded with a
      non-zero stride, in the order they are written: frame `n` is written
      iff `n % stride == 0`. (For any non-zero stride Dafny's `%` is zero
      exactly when Python's is.) */
  function Written(count: nat, stride: int): seq<nat>
    requires stride != 0
  {
    if count == 0 then []
    else Written(count - 1, stride) + (if (count - 1) % stride == 0 then [count - 1] else [])
  }

  /** Exactly the decoded frames whose index is a multiple of the stride are written. */
  lemma {:induction false} WrittenExactly(count: nat, stride: int, n: nat)
    requires stride != 0
    ensures n in Written(count, stride) <==> n < count && n % stride == 0
  {
    if count > 0 {
      WrittenExactly(count - 1, stride, n);
    }
  }

  /** Frames are written in strictly increasing index order. */
  lemma {:induction false} WrittenIncreasing(count: nat, stride: int)
    requires stride != 0
    ensures forall i, j :: 0 <= i < j < |Written(count, stride)| ==>
      Written(count, stride)[i] < Written(count, stride)[j]
  {
    if count > 0 {
      WrittenIncreasing(count - 1, stride);
      var w := Written(count - 1, stride);
      forall i | 0 <= i < |w|
        ensures w[i] < count - 1
      {
        WrittenExactly(count - 1, stride, w[i]);
      }
    }
  }

  /** With a positive stride `k` the frames written are `0, k, 2k, ...`,
      `ceil(count / k)` of them. */
  lemma {:induction false} WrittenClosedForm(count: nat, k: nat)
    requires k > 0
    ensures Written(count, k) == seq(CeilDiv(count, k), i => i * k)
  {
    if count == 0 {
      assert CeilDiv(0, k) == 0 by { DivideOut(0, k, k - 1); }
    } else {
      var c := count - 1;
      WrittenClosedForm(c, k);
      CeilDivStep(c, k);
      var m := CeilDiv(c, k);
      if c % k == 0 {
        assert seq(m + 1, i => i * k) == seq(m, i => i * k) + [c];
      }
    }
  }

  /** With a positive stride and at least one decoded frame, frame 0 is written first. */
  lemma FirstFrameWritten(count: nat, k: nat)
    requires k > 0 && count > 0
    ensures |Written(count, k)| == CeilDiv(count, k) >= 1
    ensures Written(count, k)[0] == 0
  {
    WrittenClosedForm(count, k);
    CeilDivStep(0, k);
    assert CeilDiv(0, k) == 0 by { DivideOut(0, k, k - 1); }
    assert CeilDiv(count, k) >= CeilDiv(1, k) by {
      assert count + k - 1 >= 1 + k - 1;
    }
  }

  /** Ninety seconds at 30 frames per second with a 15-second interval
      (a stride of 450) yield six images, frames 0, 450, ..., 2250. */
  lemma NinetySecondsAtThirtyFps()
    ensures Written(2700, 450) == [0, 450, 900, 1350, 1800, 2250]
  {
    WrittenClosedForm(2700, 450);
    DivideOut(6, 450, 449);
    assert 2700 + 450 - 1 == 6 * 450 + 449;
  }

  // ---------------------------------------------------------------------
  // The effect on the filesystem

  /** The images written for the indices `idx`, in order. */
  function WriteFrames(m: Tree, dir: Path, idx: seq<nat>): Tree {
    if idx == [] then m
    else WriteFrames(m, dir, idx[..|idx| - 1])[FramePath(dir, idx[|idx| - 1]) := Image(idx[|idx| - 1])]
  }

  /** Every index written has its own image under its own name. */
  lemma {:induction false} WriteFramesHolds(m: Tree, dir: Path, idx: seq<nat>, n: nat)
    requires n in idx
    ensures FramePath(dir, n) in WriteFrames(m, dir, idx)
    ensures WriteFrames(m, dir, idx)[FramePath(dir, n)] == Image(n)
  {
    var last := idx[|idx| - 1];
    if last != n {
      assert n in idx[..|idx| - 1];
      WriteFramesHolds(m, dir, idx[..|idx| - 1], n);
      if FramePath(dir, last) == FramePath(dir, n) {
        FramePathInjective(dir, last, n);
      }
    }
  }

  /** Writing frames touches no other path. */
  lemma {:induction false} WriteFramesElsewhere(m: Tree, dir: Path, idx: seq<nat>, p: Path)
    requires forall n :: n in idx ==> p != FramePath(dir, n)
    ensures p in WriteFrames(m, dir, idx) <==> p in m
    ensures p in m ==> WriteFrames(m, dir, idx)[p] == m[p]
  {
    if idx != [] {
      assert idx[|idx| - 1] in idx;
      WriteFramesElsewhere(m, dir, idx[..|idx| - 1], p);
    }
  }

  /** Decoding one more frame writes it exactly when the stride divides its index. */
  lemma WriteFramesStep(m: Tree, dir: Path, count: nat, stride: int)
    requires stride != 0
    ensures WriteFrames(m, dir, Written(count + 1, stride)) ==
      if count % stride == 0
      then WriteFrames(m, dir, Written(count, stride))[FramePath(dir, count) := Image(count)]
      else WriteFrames(m, dir, Written(count, stride))
  {
    var idx := Written(count, stride);
    if count % stride == 0 {
      assert Written(count + 1, stride) == idx + [count];
      assert (idx + [count])[..|idx|] == idx;
    } else {
      assert Written(count + 1, stride) == idx;
    }
  }

  /** `extract_images` raises ZeroDivisionError exactly when the stride is 0
      and at least one frame is decoded. */
  function ImagesOutcome(count: nat, stride: int): Outcome {
    if stride == 0 && count > 0 then Fail(ZeroDivision) else Pass
  }

  /** The filesystem after `extract_images`: the images folder is created,
      then (for a non-zero stride) one image per written index. With a zero
      stride nothing is written, whether or not the call raises. */
  function SampleFrames(m: Tree, dir: Path, count: nat, stride: int): Tree {
    var m1 := AfterMakeDirs(m, dir);
    if stride == 0 then m1 else WriteFrames(m1, dir, Written(count, stride))
  }

  /** Frame `n` is present as its own image iff it was decoded and the stride divides it. */
  lemma SampleFramesWrites(m: Tree, dir: Path, count: nat, stride: int, n: nat)
    requires stride != 0 && n < count && n % stride == 0
    ensures FramePath(dir, n) in SampleFrames(m, dir, count, stride)
    ensures SampleFrames(m, dir, count, stride)[FramePath(dir, n)] == Image(n)
  {
    WrittenExactly(count, stride, n);
    WriteFramesHolds(AfterMakeDirs(m, dir), dir, Written(count, stride), n);
  }

  /** A path that neither existed nor is a folder on the way to the images
      folder is present afterwards only as the image of a sampled frame. */
  lemma SampleFramesOnly(m: Tree, dir: Path, count: nat, stride: int, p: Path)
    requires p !in m && p !in Ancestors(dir)
    requires p in SampleFrames(m, dir, count, stride)
    ensures stride != 0
    ensures exists n: nat :: n < count && n % stride == 0 && p == FramePath(dir, n)
  {
    var m1 := AfterMakeDirs(m, dir);
    if stride == 0 {
      assert false;
    } else if forall n :: n in Written(count, stride) ==> p != FramePath(dir, n) {
      WriteFramesElsewhere(m1, dir, Written(count, stride), p);
      assert false;
    } else {
      var n :| n in Written(count, stride) && p == FramePath(dir, n);
      WrittenExactly(count, stride, n);
    }
  }

  // ---------------------------------------------------------------------
  // The decoder and the loop

  /** An opened `cv2.VideoCapture`: it yields `frames` frames, then reports end of stream. */
  class VideoCapture {
    const frames: nat
    var position: nat
    var released: bool

    constructor (frames: nat)
      ensures this.frames == frames && position == 0 && !released
    {
      this.frames := frames;
      position := 0;
      released := false;
    }

    /** `cap.read()`: only its success flag is modelled, not the image. */
    method Read() returns (success: bool)
      modifies this
      ensures success == (!old(released) && old(position) < frames)
      ensures position == old(position) + (if success then 1 else 0)
      ensures released == old(released)
    {
      success := !released && position < frames;
      if success {
        position := position + 1;
      }
    }

    /** `cap.release()`. */
    method Release()
      modifies this
      ensures released && position == old(position)
    {
      released := true;
    }
  }

  /** `extract_images(video_path, dir)` for a video that decodes to `frames`
      frames, where `stride` is `int(fps * interval)`. The capture handle is
      returned so that its release is visible to the caller. */
  method ExtractImages(fs: FileSystem, frames: nat, dir: Path, stride: int)
    returns (r: Outcome, cap: VideoCapture)
    modifies fs
    ensures fresh(cap) && cap.released
    ensures cap.position == (if stride == 0 && frames > 0 then 1 else frames)
    ensures r == ImagesOutcome(frames, stride)
    ensures fs.entries == SampleFrames(old(fs.entries), dir, frames, stride)
  {
    fs.MakeDirs(dir);
    ghost var m1 := fs.entries;
    cap := new VideoCapture(frames);
    r := Pass;
    var frameCount: nat := 0;
    while true
      invariant !cap.released && cap.frames == frames
      invariant frameCount == cap.position <= frames
      invariant stride == 0 ==> frameCount == 0 && fs.entries == m1
      invariant stride != 0 ==> fs.entries == WriteFrames(m1, dir, Written(frameCount, stride))
      invariant r == Pass
      decreases frames - cap.position
    {
      var success := cap.Read();
      if !success {
        break;
      }
      if stride == 0 {
        // frame_count % frame_interval raises before anything is written
        r := Fail(ZeroDivision);
        break;
      }
      WriteFramesStep(m1, dir, frameCount, stride);
      if frameCount % stride == 0 {
        fs.Write(FramePath(dir, frameCount), Image(frameCount));
      }
      frameCount := frameCount + 1;
    }
    cap.Release();
  }
}
