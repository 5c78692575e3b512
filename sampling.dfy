/** Frame extraction (`extract_frames`): read a video frame by frame and write
    every `frame_skip`-th raw frame to the output folder under a name built
    from a gapless counter of written frames. */
module FrameSampling {
  import opened FrameNames
  import opened Storage

  datatype Option<T> = None | Some(value: T)

  /** The stride both scripts pass (and the parameter's default). */
  const DefaultFrameSkip: int := 5

  /** `cv2.VideoCapture` over a finite stream: each `read()` yields the next
      frame until the stream is exhausted and fails from then on. A video that
      cannot be opened behaves as an empty stream. */
  class Capture<F> {
    const frames: seq<F>
    var position: nat

    ghost predicate Valid()
      reads this
    {
      position <= |frames|
    }

    constructor (frames: seq<F>)
      ensures Valid() && this.frames == frames && position == 0
    {
      this.frames := frames;
      position := 0;
    }

    method Read() returns (frame: Option<F>)
      requires Valid()
      modifies this
      ensures Valid()
      ensures old(position) < |frames| ==> frame == Some(frames[old(position)]) && position == old(position) + 1
      ensures old(position) == |frames| ==> frame == None && position == old(position)
    {
      if position < |frames| {
        frame := Some(frames[position]);
        position := position + 1;
      } else {
        frame := None;
      }
    }
  }

  /** How `extract_frames` ends: it reports the number of frames written, or
      the first `count % frame_skip` raises because `frame_skip` is 0. */
  datatype Extraction = Extracted(saved: nat) | DivisionByZero

  /** The distance between two written raw frames. */
  function Stride(frameSkip: int): nat {
    if frameSkip < 0 then -frameSkip else frameSkip
  }

  /** Raw frame `count` is written iff `count % frame_skip == 0`. Python's
      remainder takes the divisor's sign and Dafny's is never negative, but for
      a non-negative `count` both are zero exactly when `frame_skip` divides it. */
  predicate Sampled(count: nat, frameSkip: int) {
    frameSkip != 0 && count % frameSkip == 0
  }

  /** The value of `saved` once `n` raw frames have been read. */
  function SavedCount(n: nat, frameSkip: int): nat {
    if n == 0 then 0
    else SavedCount(n - 1, frameSkip) + if Sampled(n - 1, frameSkip) then 1 else 0
  }

  /** The files written while reading `video`, by name. */
  function Written<F>(video: seq<F>, frameSkip: int, style: NameStyle): map<string, F> {
    if video == [] then map[]
    else
      var n := |video| - 1;
      var before := Written(video[..n], frameSkip, style);
      if Sampled(n, frameSkip) then before[FrameName(style, SavedCount(n, frameSkip)) := video[n]]
      else before
  }

  method ExtractFrames<F>(video: seq<F>, output: Folder<F>, frameSkip: int, style: NameStyle)
    returns (result: Extraction)
    modifies output
    ensures result == DivisionByZero <==> frameSkip == 0 && video != []
    ensures result == DivisionByZero ==> output.files == old(output.files)
    ensures result.Extracted? ==>
              result.saved == SavedCount(|video|, frameSkip) &&
              output.files == old(output.files) + Written(video, frameSkip, style)
  {
    var cap := new Capture(video);
    var count, saved := 0, 0;
    while true
      invariant cap.Valid() && cap.frames == video && cap.position == count
      invariant frameSkip == 0 ==> count == 0
      invariant saved == SavedCount(count, frameSkip)
      invariant output.files == old(output.files) + Written(video[..count], frameSkip, style)
      decreases |video| - count
    {
      var frame := cap.Read();
      if frame.None? {
        break;
      }
      if frameSkip == 0 {
        return DivisionByZero;
      }
      assert video[..count + 1][..count] == video[..count];
      if count % frameSkip == 0 {
        output.Write(FrameName(style, saved), frame.value);
        saved := saved + 1;
      }
      count := count + 1;
    }
    assert video[..count] == video;
    result := Extracted(saved);
  }

  // ---------------------------------------------------------------------
  // What is written
  // ---------------------------------------------------------------------

  /** The raw frames that are written are exactly the multiples of the stride. */
  lemma SampledIffMultiple(n: nat, frameSkip: int)
    requires frameSkip != 0
    ensures Sampled(n, frameSkip) <==> n % Stride(frameSkip) == 0
  {
    if frameSkip < 0 {
      ModUnique(n, -frameSkip, -(n / frameSkip), n % frameSkip);
    }
  }

  /** Quotient and remainder are determined by n == q * d + r, 0 <= r < d. */
  lemma ModUnique(n: int, d: int, q: int, r: int)
    requires d > 0 && n == q * d + r && 0 <= r < d
    ensures n / d == q && n % d == r
  {
    var q0, r0 := n / d, n % d;
    assert (q - q0) * d == r0 - r;
    if q0 < q {
      MulMonotone(1, q - q0, d);
    } else if q < q0 {
      MulMonotone(1, q0 - q, d);
    }
  }

  /** After `n` raw frames, `saved` is ceil(n / stride): the smallest c with
      n <= c * stride. */
  lemma {:induction false} SavedCountIsCeiling(n: nat, frameSkip: int)
    requires frameSkip != 0
    ensures var c, s := SavedCount(n, frameSkip), Stride(frameSkip);
            (c - 1) * s < n <= c * s
  {
    if n > 0 {
      var m, s := n - 1, Stride(frameSkip);
      var c := SavedCount(m, frameSkip);
      SavedCountIsCeiling(m, frameSkip);
      SampledIffMultiple(m, frameSkip);
      if Sampled(m, frameSkip) {
        var q := m / s;
        assert m == q * s;
        if q < c {
          MulMonotone(q, c - 1, s);
          assert false;
        }
        MulMonotone(c, q, s);
      } else if m == c * s {
        ModUnique(m, s, c, 0);
        assert false;
      }
    }
  }

  /** The same count, as Python would compute it: (n + stride - 1) // stride. */
  lemma SavedCountFormula(n: nat, frameSkip: int)
    requires frameSkip != 0
    ensures SavedCount(n, frameSkip) == (n + Stride(frameSkip) - 1) / Stride(frameSkip)
  {
    var c, s := SavedCount(n, frameSkip), Stride(frameSkip);
    SavedCountIsCeiling(n, frameSkip);
    ModUnique(n + s - 1, s, c, n + s - 1 - c * s);
  }

  /** A written raw frame n is output number n / stride. */
  lemma SampledFrameIndex(n: nat, frameSkip: int)
    requires Sampled(n, frameSkip)
    ensures n == SavedCount(n, frameSkip) * Stride(frameSkip)
  {
    var c, s := SavedCount(n, frameSkip), Stride(frameSkip);
    SavedCountIsCeiling(n, frameSkip);
    SampledIffMultiple(n, frameSkip);
    var q := n / s;
    assert n == q * s;
    if q < c {
      MulMonotone(q, c - 1, s);
      assert false;
    }
    MulMonotone(c, q, s);
  }

  /** The written names are exactly the names of counters 0 .. saved-1. */
  lemma {:induction false} WrittenNames<F>(video: seq<F>, frameSkip: int, style: NameStyle, name: string)
    ensures name in Written(video, frameSkip, style) <==>
            exists k :: 0 <= k < SavedCount(|video|, frameSkip) && name == FrameName(style, k)
  {
    if video != [] {
      var n := |video| - 1;
      assert video[..n] == video[..|video| - 1];
      WrittenNames(video[..n], frameSkip, style, name);
    }
  }

  /** Output k holds raw frame k * stride. */
  lemma {:induction false} WrittenFrames<F>(video: seq<F>, frameSkip: int, style: NameStyle, k: nat)
    requires k < SavedCount(|video|, frameSkip)
    ensures k * Stride(frameSkip) < |video|
    ensures FrameName(style, k) in Written(video, frameSkip, style)
    ensures Written(video, frameSkip, style)[FrameName(style, k)] == video[k * Stride(frameSkip)]
  {
    var n := |video| - 1;
    var before := video[..n];
    if k < SavedCount(n, frameSkip) {
      WrittenFrames(before, frameSkip, style, k);
      if Sampled(n, frameSkip) && FrameName(style, SavedCount(n, frameSkip)) == FrameName(style, k) {
        NamesInjective(style, SavedCount(n, frameSkip), k);
        assert false;
      }
    } else {
      SampledFrameIndex(n, frameSkip);
    }
  }

  /** No output overwrites another: exactly `saved` files are written. */
  lemma {:induction false} WrittenCount<F>(video: seq<F>, frameSkip: int, style: NameStyle)
    ensures |Written(video, frameSkip, style)| == SavedCount(|video|, frameSkip)
  {
    if video != [] {
      var n := |video| - 1;
      var before := Written(video[..n], frameSkip, style);
      WrittenCount(video[..n], frameSkip, style);
      if Sampled(n, frameSkip) {
        var name := FrameName(style, SavedCount(n, frameSkip));
        if name in before {
          WrittenNames(video[..n], frameSkip, style, name);
          var k :| 0 <= k < SavedCount(n, frameSkip) && name == FrameName(style, k);
          NamesInjective(style, SavedCount(n, frameSkip), k);
          assert false;
        }
        assert before[name := video[n]].Keys == before.Keys + {name};
      }
    }
  }

  /** Ten raw frames with the default stride of 5 give `frame_00000.jpg` (raw frame 0)
      and `frame_00001.jpg` (raw frame 5), and nothing else. */
  lemma TenFramesStrideFive<F>(video: seq<F>)
    requires |video| == 10
    ensures Written(video, DefaultFrameSkip, Padded) == map["frame_00000.jpg" := video[0], "frame_00001.jpg" := video[5]]
  {
    SavedCountFormula(10, 5);
    var w := Written(video, 5, Padded);
    assert FrameName(Padded, 0) == "frame_00000.jpg";
    assert FrameName(Padded, 1) == "frame_00001.jpg";
    WrittenFrames(video, 5, Padded, 0);
    WrittenFrames(video, 5, Padded, 1);
    forall name | name in w
      ensures name == "frame_00000.jpg" || name == "frame_00001.jpg"
    {
      WrittenNames(video, 5, Padded, name);
    }
  }
}
