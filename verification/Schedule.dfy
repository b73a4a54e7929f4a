/** The order in which the two synthetic streams make frames, as a function of the sample rate and the
    audio frame size alone: the reference for the interleaving loop in `Mux`. */
module Schedule {

  const STREAM_DURATION := 10
  const STREAM_FRAME_RATE := 25

  datatype Rational = Rational(num: nat, den: nat)

  /** `av_compare_ts`: the sign of `a * tbA - b * tbB`, by cross multiplication. */
  function CompareTs(a: int, tbA: Rational, b: int, tbB: Rational): int {
    var l, r := a * (tbA.num * tbB.den), b * (tbB.num * tbA.den);
    if l < r then -1 else if l > r then 1 else 0
  }

  datatype Kind = Video | Audio

  datatype Frame = Frame(kind: Kind, pts: nat)

  /** What a run is given: audio sample rate and samples per frame, and which streams the format has. */
  datatype Config = Config(rate: nat, nb: nat, hasVideo: bool, hasAudio: bool) {
    ghost predicate Valid() { rate > 0 && nb > 0 }

    function VideoEnd(): nat { if hasVideo then STREAM_DURATION * STREAM_FRAME_RATE else 0 }

    function AudioEnd(): nat { if hasAudio then STREAM_DURATION * rate else 0 }

    function AudioFrames(): nat
      requires nb > 0
    {
      FramesLeft(0, nb, AudioEnd())
    }

    /** The time of a frame in units of 1/(25 rate) of a second. */
    function Time(f: Frame): nat {
      if f.kind == Video then f.pts * rate else f.pts * STREAM_FRAME_RATE
    }

    /** `f` may come before `g`: earlier, or at the same time unless audio would overtake video. */
    ghost predicate Before(f: Frame, g: Frame) {
      Time(f) < Time(g) || (Time(f) == Time(g) && (f.kind == Video || g.kind == Audio))
    }
  }

  function Max0(x: int): nat { if x > 0 then x else 0 }

  /** Whose frame is next. */
  predicate PicksVideo(c: Config, v: nat, a: nat) {
    v < c.VideoEnd() && (a >= c.AudioEnd() || v * c.rate <= a * STREAM_FRAME_RATE)
  }

  /** The frames still to be made when the clocks stand at `v` and `a`. */
  function Remaining(c: Config, v: nat, a: nat): seq<Frame>
    requires c.Valid()
    decreases Max0(c.VideoEnd() - v) + Max0(c.AudioEnd() - a)
  {
    if PicksVideo(c, v, a) then
      [Frame(Video, v)] + Remaining(c, v + 1, a)
    else if a < c.AudioEnd() then
      [Frame(Audio, a)] + Remaining(c, v, a + c.nb)
    else []
  }

  /** The timestamps of one stream, in order. */
  function PtsOf(frames: seq<Frame>, kind: Kind): seq<nat> {
    if frames == [] then []
    else (if frames[0].kind == kind then [frames[0].pts] else []) + PtsOf(frames[1..], kind)
  }

  lemma {:induction false} PtsOfAppend(a: seq<Frame>, b: seq<Frame>, kind: Kind)
    ensures PtsOf(a + b, kind) == PtsOf(a, kind) + PtsOf(b, kind)
  {
    if a == [] {
      assert a + b == b;
    } else {
      var tail := a[1..];
      assert (a + b)[0] == a[0] && (a + b)[1..] == tail + b;
      PtsOfAppend(tail, b, kind);
      var first := if a[0].kind == kind then [a[0].pts] else [];
      assert first + (PtsOf(tail, kind) + PtsOf(b, kind)) == (first + PtsOf(tail, kind)) + PtsOf(b, kind);
    }
  }

  /** `count` timestamps, `step` apart, from `from` on. */
  function Ticks(from: nat, step: nat, count: nat): seq<nat>
    decreases count
  {
    if count == 0 then [] else [from] + Ticks(from + step, step, count - 1)
  }

  lemma StepOnce(k: nat, step: nat)
    ensures (k + 1) * step == k * step + step
  {}

  lemma {:induction false} TickAt(from: nat, step: nat, count: nat, k: nat)
    requires k < count
    ensures |Ticks(from, step, count)| == count && Ticks(from, step, count)[k] == from + k * step
    decreases count
  {
    if k > 0 {
      TickAt(from + step, step, count - 1, k - 1);
      StepOnce(k - 1, step);
    } else if count > 1 {
      TickAt(from + step, step, count - 1, 0);
    }
  }

  /** How many frames of `step` ticks it takes to reach `end` from `at`. */
  function FramesLeft(at: nat, step: nat, end: nat): nat
    requires step > 0
    decreases Max0(end - at)
  {
    if at >= end then 0 else 1 + FramesLeft(at + step, step, end)
  }

  /** A stream short of its end gives its clock's reading next. */
  lemma FirstLeft(at: nat, step: nat, end: nat, first: nat, rest: seq<nat>)
    requires step > 0
    ensures Ticks(at, step, FramesLeft(at, step, end)) == [] <==> at >= end
    ensures Ticks(at, step, FramesLeft(at, step, end)) == [first] + rest ==> first == at
  {
    assert ([first] + rest)[0] == first;
  }

  /** That is the ceiling of `(end - at) / step`. */
  lemma {:induction false} FramesLeftIsCeiling(at: nat, step: nat, end: nat)
    requires step > 0 && at <= end
    ensures var n := FramesLeft(at, step, end); (n - 1) * step < end - at <= n * step
    decreases end - at
  {
    if at + step <= end {
      FramesLeftIsCeiling(at + step, step, end);
      var n := FramesLeft(at + step, step, end);
      assert n * step == (n - 1) * step + step;
      StepOnce(n, step);
    } else if at < end {
      assert FramesLeft(at + step, step, end) == 0;
    }
  }

  lemma PtsOfCons(f: Frame, rest: seq<Frame>, kind: Kind)
    ensures PtsOf([f] + rest, kind) == (if f.kind == kind then [f.pts] else []) + PtsOf(rest, kind)
  {
    assert ([f] + rest)[1..] == rest;
  }

  lemma TicksStep(at: nat, step: nat, end: nat)
    requires step > 0
    ensures Ticks(at, step, FramesLeft(at, step, end)) ==
      if at >= end then [] else [at] + Ticks(at + step, step, FramesLeft(at + step, step, end))
  {}

  lemma RemainingStep(c: Config, v: nat, a: nat)
    requires c.Valid()
    ensures PicksVideo(c, v, a) ==>
      v < c.VideoEnd() && Remaining(c, v, a) == [Frame(Video, v)] + Remaining(c, v + 1, a)
    ensures !PicksVideo(c, v, a) && a < c.AudioEnd() ==>
      Remaining(c, v, a) == [Frame(Audio, a)] + Remaining(c, v, a + c.nb)
    ensures !PicksVideo(c, v, a) && a >= c.AudioEnd() ==> Remaining(c, v, a) == [] && v >= c.VideoEnd()
  {}

  /** Each stream's frames appear once each, in its own order, up to its end. */
  lemma {:induction false} RemainingIsComplete(c: Config, v: nat, a: nat)
    requires c.Valid()
    ensures PtsOf(Remaining(c, v, a), Video) == Ticks(v, 1, FramesLeft(v, 1, c.VideoEnd()))
    ensures PtsOf(Remaining(c, v, a), Audio) == Ticks(a, c.nb, FramesLeft(a, c.nb, c.AudioEnd()))
    decreases Max0(c.VideoEnd() - v) + Max0(c.AudioEnd() - a)
  {
    RemainingStep(c, v, a);
    TicksStep(v, 1, c.VideoEnd());
    TicksStep(a, c.nb, c.AudioEnd());
    if PicksVideo(c, v, a) {
      RemainingIsComplete(c, v + 1, a);
      PtsOfCons(Frame(Video, v), Remaining(c, v + 1, a), Video);
      PtsOfCons(Frame(Video, v), Remaining(c, v + 1, a), Audio);
    } else if a < c.AudioEnd() {
      RemainingIsComplete(c, v, a + c.nb);
      PtsOfCons(Frame(Audio, a), Remaining(c, v, a + c.nb), Video);
      PtsOfCons(Frame(Audio, a), Remaining(c, v, a + c.nb), Audio);
    }
  }

  /** No remaining frame is earlier than its stream's clock. */
  lemma {:induction false} RemainingIsLater(c: Config, v: nat, a: nat, i: nat)
    requires c.Valid() && i < |Remaining(c, v, a)|
    ensures var f := Remaining(c, v, a)[i];
      if f.kind == Video then v <= f.pts < c.VideoEnd() else a <= f.pts < c.AudioEnd()
    decreases i
  {
    RemainingStep(c, v, a);
    if i > 0 {
      if PicksVideo(c, v, a) {
        RemainingIsLater(c, v + 1, a, i - 1);
      } else {
        RemainingIsLater(c, v, a + c.nb, i - 1);
      }
    }
  }

  lemma TimeMonotone(x: nat, y: nat, k: nat)
    requires x <= y
    ensures x * k <= y * k
    ensures x < y && k > 0 ==> x * k < y * k
  {}

  /** The frame that is next may come before any that is not before its stream's clock. */
  lemma NextIsFirst(c: Config, v: nat, a: nat, f: Frame)
    requires c.Valid() && (PicksVideo(c, v, a) || a < c.AudioEnd())
    requires if f.kind == Video then v <= f.pts < c.VideoEnd() else a <= f.pts < c.AudioEnd()
    ensures c.Before(if PicksVideo(c, v, a) then Frame(Video, v) else Frame(Audio, a), f)
  {
    if f.kind == Video {
      TimeMonotone(v, f.pts, c.rate);
    } else {
      TimeMonotone(a, f.pts, STREAM_FRAME_RATE);
    }
  }

  /** The schedule is chronological: every frame may come before every later one. */
  lemma {:induction false} RemainingIsChronological(c: Config, v: nat, a: nat, i: nat, j: nat)
    requires c.Valid() && i < j < |Remaining(c, v, a)|
    ensures c.Before(Remaining(c, v, a)[i], Remaining(c, v, a)[j])
    decreases i
  {
    RemainingStep(c, v, a);
    if i == 0 {
      RemainingIsLater(c, v, a, j);
      NextIsFirst(c, v, a, Remaining(c, v, a)[j]);
    } else if PicksVideo(c, v, a) {
      RemainingIsChronological(c, v + 1, a, i - 1, j - 1);
    } else {
      RemainingIsChronological(c, v, a + c.nb, i - 1, j - 1);
    }
  }

  /** The whole schedule: 250 video frames with timestamps 0, 1, ... and ceil(10 rate / nb) audio
      frames with timestamps 0, nb, 2 nb, ..., when the format has the stream. */
  lemma WholeSchedule(c: Config)
    requires c.Valid()
    ensures PtsOf(Remaining(c, 0, 0), Video) == Ticks(0, 1, if c.hasVideo then 250 else 0)
    ensures PtsOf(Remaining(c, 0, 0), Audio) == Ticks(0, c.nb, c.AudioFrames())
    ensures c.hasAudio ==> (c.AudioFrames() - 1) * c.nb < 10 * c.rate <= c.AudioFrames() * c.nb
  {
    RemainingIsComplete(c, 0, 0);
    FramesLeftIsCeiling(0, 1, c.VideoEnd());
    FramesLeftIsCeiling(0, c.nb, c.AudioEnd());
  }

  // ---------- drift ----------

  /** Neither clock is ahead of the other by more than one frame of its own. */
  ghost predicate Drift(c: Config, v: int, a: int) {
    -(STREAM_FRAME_RATE * c.nb) < v * c.rate - a * STREAM_FRAME_RATE <= c.rate
  }

  lemma DriftAfterVideo(c: Config, v: nat, a: nat)
    requires c.Valid() && Drift(c, v, a)
    requires v * c.rate <= a * STREAM_FRAME_RATE
    ensures Drift(c, v + 1, a)
  {
    assert (v + 1) * c.rate == v * c.rate + c.rate;
  }

  lemma DriftAfterAudio(c: Config, v: nat, a: nat)
    requires c.Valid() && Drift(c, v, a)
    requires v * c.rate > a * STREAM_FRAME_RATE
    ensures Drift(c, v, a + c.nb)
  {
    assert (a + c.nb) * STREAM_FRAME_RATE == a * STREAM_FRAME_RATE + c.nb * STREAM_FRAME_RATE;
  }

  /** A clock past its end is not behind a clock before its end. */
  lemma EndedIsLater(c: Config, v: nat, a: nat)
    requires c.Valid() && c.hasVideo && c.hasAudio
    ensures v < c.VideoEnd() && a >= c.AudioEnd() ==> v * c.rate < a * STREAM_FRAME_RATE
    ensures v >= c.VideoEnd() && a < c.AudioEnd() ==> v * c.rate > a * STREAM_FRAME_RATE
  {
    if v < c.VideoEnd() && a >= c.AudioEnd() {
      TimeMonotone(v, c.VideoEnd(), c.rate);
    } else if v >= c.VideoEnd() && a < c.AudioEnd() {
      TimeMonotone(c.VideoEnd(), v, c.rate);
    }
  }

  /** From clocks within the bound, whichever frame the schedule makes next leaves them within it. */
  lemma DriftIsKept(c: Config, v: nat, a: nat)
    requires c.Valid() && c.hasVideo && c.hasAudio && Drift(c, v, a) && Remaining(c, v, a) != []
    ensures if Remaining(c, v, a)[0].kind == Video then Drift(c, v + 1, a) else Drift(c, v, a + c.nb)
  {
    EndedIsLater(c, v, a);
    if Remaining(c, v, a)[0].kind == Video {
      DriftAfterVideo(c, v, a);
    } else {
      DriftAfterAudio(c, v, a);
    }
  }
}
