/** The two-stream encode loop of `muxer.cpp`, in place: pick a stream by timestamp, make a frame while
    its duration lasts, feed or drain its encoder, write what comes out. */
module Mux {
  import opened Text
  import opened Schedule

  /** What a write call tells the loop; `Exit` is `exit(1)` or a failed assertion inside it. */
  datatype Written = More | Finished | Exit

  class OutputStream {
    const kind: Kind
    const timeBase: Rational
    const frameSize: nat        // ticks per frame: 1 for video, nb_samples for audio
    var nextPts: nat
    var samplesCount: nat
    var pending: seq<nat>       // timestamps of the frames inside the encoder
    ghost var failed: bool      // the encoder has reported an error

    constructor (kind: Kind, timeBase: Rational, frameSize: nat)
      ensures this.kind == kind && this.timeBase == timeBase && this.frameSize == frameSize
      ensures nextPts == 0 && samplesCount == 0 && pending == [] && !failed
    {
      this.kind, this.timeBase, this.frameSize := kind, timeBase, frameSize;
      nextPts, samplesCount, pending, failed := 0, 0, [], false;
    }

    /** The encoder: a queue of frames. A call gives out at most one packet, and a call without a frame
        gives one out exactly when the queue is not empty. It can also fail. */
    method Encode(frame: Option<nat>) returns (ret: int, packet: Option<nat>)
      modifies this`pending, this`failed
      ensures failed == (ret < 0 || old(failed))
      ensures ret >= 0 ==>
        old(pending) + (if frame.Some? then [frame.value] else [])
          == (if packet.Some? then [packet.value] else []) + pending
      ensures ret >= 0 && frame.None? ==> (packet.None? <==> old(pending) == [])
    {
      ret := *;
      failed := failed || ret < 0;
      packet := None;
      var fed := pending + (if frame.Some? then [frame.value] else []);
      if ret >= 0 {
        var hold: bool := *;
        if fed == [] || (frame.Some? && hold) {
          pending := fed;
        } else {
          packet := Some(fed[0]);
          pending := fed[1..];
        }
      }
    }

    /** The timestamps the stream has still to give: one each frame length, up to its duration. */
    ghost function Left(): seq<nat>
      reads this`nextPts
      requires frameSize > 0
    {
      Ticks(nextPts, frameSize, FramesLeft(nextPts, frameSize, STREAM_DURATION * timeBase.den))
    }

    /** `get_video_frame` and `get_audio_frame`: the first of the timestamps left is taken; none when
        none is left. */
    method GetFrame() returns (frame: Option<nat>)
      requires frameSize > 0 && timeBase.num == 1
      modifies this`nextPts
      ensures old(Left()) == (if frame.Some? then [frame.value] else []) + Left()
      ensures frame.None? <==> old(Left()) == []
      ensures nextPts == old(nextPts) + if frame.Some? then frameSize else 0
    {
      if CompareTs(nextPts, timeBase, STREAM_DURATION, Rational(1, 1)) >= 0 {
        return None;
      }
      frame := Some(nextPts);
      nextPts := nextPts + frameSize;
    }
  }

  class Muxer {
    const c: Config
    const video: OutputStream
    const audio: OutputStream
    var encodeVideo: bool
    var encodeAudio: bool
    var packets: seq<Frame>     // what was written to the container
    ghost var made: seq<Frame>  // what was generated
    ghost var failed: bool      // a library call other than an encoder's has failed

    ghost predicate Failed()
      reads this, video, audio
    {
      failed || video.failed || audio.failed
    }

    ghost predicate Streams()
    {
      && c.Valid() && video.kind == Video && audio.kind == Audio
      && video.timeBase == Rational(1, STREAM_FRAME_RATE) && video.frameSize == 1
      && audio.timeBase == Rational(1, c.rate) && audio.frameSize == c.nb
    }

    /** Frames are made in the order of the reference schedule. */
    ghost predicate OnSchedule()
      reads this, video, audio
      requires Streams()
    {
      made + Remaining(c, video.nextPts, audio.nextPts) == Remaining(c, 0, 0)
    }

    /** Every frame made was written, or is still inside its encoder; once each, in order. */
    ghost predicate Conserved()
      reads this, video, audio
    {
      && PtsOf(packets, Video) + video.pending == PtsOf(made, Video)
      && PtsOf(packets, Audio) + audio.pending == PtsOf(made, Audio)
    }

    /** What the clocks alone satisfy, whatever the encoders hold back. */
    ghost predicate Clocks()
      reads this, video, audio
    {
      && Streams() && OnSchedule()
      && (c.hasVideo && c.hasAudio ==> Drift(c, video.nextPts, audio.nextPts))
      && (!encodeVideo ==> video.nextPts >= c.VideoEnd())
      && (!encodeAudio ==> audio.nextPts >= c.AudioEnd())
      && (encodeVideo ==> c.hasVideo) && (encodeAudio ==> c.hasAudio)
    }

    ghost predicate Valid()
      reads this, video, audio
    {
      && Clocks() && Conserved()
      && audio.samplesCount == audio.nextPts
      && (!encodeVideo ==> video.pending == [])
      && (!encodeAudio ==> audio.pending == [])
    }

    /** What holds when the process exits in the middle: what was written is the front of each stream,
        and the clocks have not drifted. */
    ghost predicate Abandoned()
      reads this, video, audio
    {
      && Streams() && OnSchedule()
      && PtsOf(packets, Video) <= PtsOf(made, Video) && PtsOf(packets, Audio) <= PtsOf(made, Audio)
      && (c.hasVideo && c.hasAudio ==> Drift(c, video.nextPts, audio.nextPts))
    }

    /** Write calls left, at most: two for a frame not yet made, one for a frame inside an encoder, and
        one to find a stream finished. */
    ghost function Work(): nat
      reads this, video, audio
      requires Streams()
    {
      2 * |Remaining(c, video.nextPts, audio.nextPts)| + |video.pending| + |audio.pending|
      + (if encodeVideo then 1 else 0) + (if encodeAudio then 1 else 0)
    }

    constructor (c: Config)
      requires c.Valid()
      ensures this.c == c && fresh(video) && fresh(audio)
      ensures Valid() && made == [] && packets == [] && !Failed()
      ensures encodeVideo == c.hasVideo && encodeAudio == c.hasAudio
    {
      this.c := c;
      video := new OutputStream(Video, Rational(1, STREAM_FRAME_RATE), 1);
      audio := new OutputStream(Audio, Rational(1, c.rate), c.nb);
      encodeVideo, encodeAudio := c.hasVideo, c.hasAudio;
      packets, made, failed := [], [], false;
    }

    /** A write call may always leave the process. */
    method MayExit() returns (exits: bool)
      modifies this`failed
      ensures failed == (exits || old(failed))
    {
      exits := *;
      failed := failed || exits;
    }

    /** The common end of the two write functions: encode, write the packet if there is one. */
    method EncodeAndWrite(st: OutputStream, frame: Option<nat>) returns (r: Written)
      modifies this`packets, this`failed, st`pending, st`failed
      ensures r == Exit ==> failed || st.failed
      ensures r != Exit ==> failed == old(failed) && st.failed == old(st.failed)
      ensures r != Exit ==>
        PtsOf(packets, st.kind) + st.pending ==
          old(PtsOf(packets, st.kind) + st.pending) + (if frame.Some? then [frame.value] else [])
      ensures st.kind != Video || r == Exit ==> PtsOf(packets, Video) == old(PtsOf(packets, Video))
      ensures st.kind != Audio || r == Exit ==> PtsOf(packets, Audio) == old(PtsOf(packets, Audio))
      ensures r != Exit ==> (r == Finished <==> frame.None? && old(st.pending) == [])
      ensures r == Finished ==> st.pending == []
      ensures r == More ==> |st.pending| <= |old(st.pending)| + (if frame.Some? then 1 else -1)
    {
      ghost var before, fed := packets, st.pending + (if frame.Some? then [frame.value] else []);
      var ret, packet := st.Encode(frame);
      if ret < 0 {
        return Exit;
      }
      if packet.Some? {
        var unwritten := MayExit();
        if unwritten {
          return Exit;
        }
        var written := Frame(st.kind, packet.value);
        packets := packets + [written];
        forall k ensures PtsOf(packets, k) == PtsOf(before, k) + (if k == st.kind then [packet.value] else []) {
          PtsOfAppend(before, [written], k);
        }
        assert PtsOf(packets, st.kind) + st.pending == PtsOf(before, st.kind) + ([packet.value] + st.pending);
      }
      assert PtsOf(packets, st.kind) + st.pending == PtsOf(before, st.kind) + fed;
      assert PtsOf(before, st.kind) + fed
        == PtsOf(before, st.kind) + old(st.pending) + (if frame.Some? then [frame.value] else []);
      r := if frame.Some? || packet.Some? then More else Finished;
    }

    /** `swr_get_delay`; the code asserts that there is none. */
    method ResamplerDelay() returns (delay: int)
      modifies this`failed
      ensures failed == (delay != 0 || old(failed))
    {
      delay := *;
      failed := failed || delay != 0;
    }

    /** The loop calls for video only when it is not ahead. */
    ghost predicate VideoIsDue()
      reads this, video, audio
    {
      encodeVideo && (encodeAudio ==> video.nextPts * c.rate <= audio.nextPts * STREAM_FRAME_RATE)
    }

    ghost predicate AudioIsDue()
      reads this, video, audio
    {
      encodeAudio && (encodeVideo ==> video.nextPts * c.rate > audio.nextPts * STREAM_FRAME_RATE)
    }

    /** Record a frame as made: it is the next one of the schedule. */
    ghost method Made(f: Frame, v: nat, a: nat)
      requires Streams()
      requires made + Remaining(c, v, a) == Remaining(c, 0, 0)
      requires Remaining(c, v, a) == [f] + Remaining(c, video.nextPts, audio.nextPts)
      modifies this`made
      ensures made == old(made) + [f] && OnSchedule()
      ensures forall k :: PtsOf(made, k) == PtsOf(old(made), k) + (if k == f.kind then [f.pts] else [])
    {
      var before := made;
      made := made + [f];
      var rest := Remaining(c, video.nextPts, audio.nextPts);
      assert made + rest == before + ([f] + rest);
      forall k ensures PtsOf(made, k) == PtsOf(before, k) + (if k == f.kind then [f.pts] else []) {
        PtsOfAppend(before, [f], k);
      }
    }

    /** It may exit before the frame is made, when its buffer cannot be made writable. */
    method MakeVideoFrame() returns (frame: Option<nat>, exits: bool)
      requires Clocks() && VideoIsDue()
      modifies this`made, this`failed, video`nextPts
      ensures Clocks() && failed == (exits || old(failed))
      ensures |Remaining(c, video.nextPts, audio.nextPts)|
           == old(|Remaining(c, video.nextPts, audio.nextPts)|) - (if frame.Some? then 1 else 0)
      ensures PtsOf(made, Video) == old(PtsOf(made, Video)) + (if frame.Some? then [frame.value] else [])
      ensures PtsOf(made, Audio) == old(PtsOf(made, Audio))
      ensures frame.None? ==> made == old(made) && (exits || video.nextPts >= c.VideoEnd())
    {
      ghost var v, a := video.nextPts, audio.nextPts;
      if c.hasVideo && c.hasAudio {
        EndedIsLater(c, v, a);
      }
      exits := false;
      if CompareTs(video.nextPts, video.timeBase, STREAM_DURATION, Rational(1, 1)) < 0 {
        exits := MayExit();
        if exits {
          return None, true;
        }
      }
      frame := video.GetFrame();
      if frame.Some? {
        FirstLeft(v, 1, STREAM_DURATION * STREAM_FRAME_RATE, frame.value, video.Left());
        Made(Frame(Video, v), v, a);
        if c.hasVideo && c.hasAudio {
          DriftAfterVideo(c, v, a);
        }
      }
    }

    method MakeAudioFrame() returns (frame: Option<nat>)
      requires Clocks() && AudioIsDue()
      modifies this`made, audio`nextPts
      ensures Clocks()
      ensures |Remaining(c, video.nextPts, audio.nextPts)|
           == old(|Remaining(c, video.nextPts, audio.nextPts)|) - (if frame.Some? then 1 else 0)
      ensures PtsOf(made, Audio) == old(PtsOf(made, Audio)) + (if frame.Some? then [frame.value] else [])
      ensures PtsOf(made, Video) == old(PtsOf(made, Video))
      ensures if frame.Some? then frame.value == old(audio.nextPts) && audio.nextPts == old(audio.nextPts) + c.nb
              else audio.nextPts == old(audio.nextPts) >= c.AudioEnd() && made == old(made)
    {
      ghost var v, a := video.nextPts, audio.nextPts;
      if c.hasVideo && c.hasAudio {
        EndedIsLater(c, v, a);
      }
      frame := audio.GetFrame();
      if frame.Some? {
        FirstLeft(a, c.nb, STREAM_DURATION * c.rate, frame.value, audio.Left());
        Made(Frame(Audio, a), v, a);
        if c.hasVideo && c.hasAudio {
          DriftAfterAudio(c, v, a);
        }
      }
    }

    /** The audio frame converted for the encoder. It is stamped with `samples_count`, not `next_pts`. */
    method PrepareAudioFrame() returns (frame: Option<nat>, exits: bool)
      requires Clocks() && AudioIsDue() && audio.samplesCount == audio.nextPts
      modifies this`made, this`failed, audio`nextPts, audio`samplesCount
      ensures Clocks()
      ensures failed == (exits || old(failed)) && (!exits ==> audio.samplesCount == audio.nextPts)
      ensures |Remaining(c, video.nextPts, audio.nextPts)|
           == old(|Remaining(c, video.nextPts, audio.nextPts)|) - (if frame.Some? then 1 else 0)
      ensures PtsOf(made, Audio) == old(PtsOf(made, Audio)) + (if frame.Some? then [frame.value] else [])
      ensures PtsOf(made, Video) == old(PtsOf(made, Video))
      ensures frame.None? ==> audio.nextPts >= c.AudioEnd() && made == old(made)
    {
      exits := false;
      frame := MakeAudioFrame();
      if frame.Some? {
        var delay := ResamplerDelay();
        var dstNbSamples := delay + audio.frameSize;
        exits := MayExit();
        if dstNbSamples != audio.frameSize || exits {
          return frame, true;
        }
        frame := Some(audio.samplesCount);
        audio.samplesCount := audio.samplesCount + dstNbSamples;
      }
    }

    method WriteVideoFrame() returns (r: Written)
      requires Valid() && VideoIsDue()
      modifies this`packets, this`made, this`failed, this`encodeVideo, video
      ensures r != Exit ==> Valid() && Work() < old(Work()) && encodeVideo == (r == More)
      ensures r == Exit ==> Abandoned() && Failed()
      ensures r != Exit ==> failed == old(failed) && video.failed == old(video.failed)
    {
      var frame, exits := MakeVideoFrame();
      if exits {
        return Exit;
      }
      r := EncodeAndWrite(video, frame);
      encodeVideo := r != Finished;
    }

    method WriteAudioFrame() returns (r: Written)
      requires Valid() && AudioIsDue()
      modifies this`packets, this`made, this`failed, this`encodeAudio, audio
      ensures r != Exit ==> Valid() && Work() < old(Work()) && encodeAudio == (r == More)
      ensures r == Exit ==> Abandoned() && Failed()
      ensures r != Exit ==> failed == old(failed) && audio.failed == old(audio.failed)
    {
      var frame, exits := PrepareAudioFrame();
      if exits {
        return Exit;
      }
      r := EncodeAndWrite(audio, frame);
      encodeAudio := r != Finished;
    }

    /** The loop of `main`. It terminates; and unless a library call failed, every frame of the whole
        schedule was made in order and written exactly once, and both encoders are empty. */
    method Run() returns (ok: bool)
      requires Valid()
      modifies this, video, audio
      ensures ok ==> Valid() && made == Remaining(c, 0, 0) && video.pending == [] && audio.pending == []
      ensures ok ==> PtsOf(packets, Video) == Ticks(0, 1, if c.hasVideo then 250 else 0)
      ensures ok ==> PtsOf(packets, Audio) == Ticks(0, c.nb, c.AudioFrames())
      ensures if ok then Failed() == old(Failed()) else Abandoned() && Failed()
    {
      while encodeVideo || encodeAudio
        invariant Valid() && Failed() == old(Failed())
        decreases Work()
      {
        var r;
        if encodeVideo && (!encodeAudio
          || CompareTs(video.nextPts, video.timeBase, audio.nextPts, audio.timeBase) <= 0) {
          r := WriteVideoFrame();
        } else {
          r := WriteAudioFrame();
        }
        if r == Exit {
          return false;
        }
      }
      assert Remaining(c, video.nextPts, audio.nextPts) == [];
      assert made == made + [];
      assert PtsOf(packets, Video) + [] == PtsOf(packets, Video);
      assert PtsOf(packets, Audio) + [] == PtsOf(packets, Audio);
      WholeSchedule(c);
      return true;
    }
  }
}
