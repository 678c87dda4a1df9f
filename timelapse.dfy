/** The timelapse of compute/timelapse.rs: evenly spaced global timestamps,
    the frame request each one becomes, and the loop that hands extracted
    frames to the JPEG-directory encoder in frame order. */
module Timelapse {
  import opened Wrappers
  import opened Timelines
  import opened Digits

  const U32_MAX: nat := 0xFFFF_FFFF

  /** `(len.as_secs_f64() * fps as f64) as u32`. The length comes from
      whole seconds and the product of two integers is exact in f64 up to
      2^53, far above where the saturating cast clamps, so this is the
      integer product clamped to the u32 range. */
  function NumFrames(lenSecs: nat, fps: nat): (n: nat)
    ensures n <= U32_MAX
    ensures lenSecs * fps <= U32_MAX ==> n == lenSecs * fps
    ensures lenSecs * fps > U32_MAX ==> n == U32_MAX
  {
    if lenSecs * fps <= U32_MAX then lenSecs * fps else U32_MAX
  }

  /** `(skip..=num_frames).map(|n| n * (timeline.len() / num_frames))`: one
      timestamp per frame number from `skip` to `numFrames` inclusive.
      `Duration / u32` panics on zero, which the range reaches only when it
      is not empty. */
  function Timestamps(duration: nat, numFrames: nat, skip: nat): (ts: seq<nat>)
    requires numFrames > 0 || skip > numFrames
    ensures skip > numFrames ==> ts == []
    ensures skip <= numFrames ==> |ts| == numFrames - skip + 1
  {
    if skip > numFrames then []
    else
      var step := duration / numFrames;
      seq(numFrames - skip + 1, k => (skip + k) * step)
  }

  /** No timestamp lies past the end of the timeline; consecutive ones are
      one step apart, and the last one is less than `numFrames`
      nanoseconds before the end. */
  lemma TimestampsBounds(duration: nat, numFrames: nat, skip: nat)
    requires numFrames > 0 && skip <= numFrames
    ensures var ts := Timestamps(duration, numFrames, skip);
      && (forall k :: 0 <= k < |ts| ==> ts[k] <= duration)
      && (forall k :: 0 <= k < |ts| - 1 ==> ts[k + 1] == ts[k] + duration / numFrames)
      && duration - ts[|ts| - 1] < numFrames
  {
    var ts := Timestamps(duration, numFrames, skip);
    var step := duration / numFrames;
    assert numFrames * step <= duration;
    forall k | 0 <= k < |ts| ensures ts[k] <= duration {
      MulLe(skip + k, numFrames, step);
    }
    forall k | 0 <= k < |ts| - 1 ensures ts[k + 1] == ts[k] + step {
      assert (skip + k + 1) * step == (skip + k) * step + step;
    }
    assert ts[|ts| - 1] == numFrames * step;
  }

  /** The timestamps never decrease, and strictly increase when the
      timeline has at least one nanosecond per frame. */
  lemma TimestampsOrdered(duration: nat, numFrames: nat, skip: nat)
    requires numFrames > 0
    ensures var ts := Timestamps(duration, numFrames, skip);
      && (forall i, j :: 0 <= i <= j < |ts| ==> ts[i] <= ts[j])
      && (duration >= numFrames ==> forall i, j :: 0 <= i < j < |ts| ==> ts[i] < ts[j])
  {
    var ts := Timestamps(duration, numFrames, skip);
    var step := duration / numFrames;
    forall i, j | 0 <= i <= j < |ts| ensures ts[i] <= ts[j] {
      MulLe(skip + i, skip + j, step);
    }
    if duration >= numFrames {
      assert step >= 1;
      forall i, j | 0 <= i < j < |ts| ensures ts[i] < ts[j] {
        MulLe(skip + i + 1, skip + j, step);
        assert (skip + i + 1) * step == (skip + i) * step + step;
      }
    }
  }

  /** Skipping frames drops them from the front and moves nothing else. */
  lemma SkipDropsPrefix(duration: nat, numFrames: nat, skip: nat)
    requires numFrames > 0 && skip <= numFrames
    ensures Timestamps(duration, numFrames, skip) == Timestamps(duration, numFrames, 0)[skip..]
  {
  }

  //
  // The frame job
  //

  /** The extraction job for one timestamp: the cancellation check, the
      clip playing at `ts`, and the frame at the offset into that clip.
      `extract` stands for `ffmpeg::extract_frame` on a clip path and an
      offset into it. A cancelled job returns before `get_at`, so only an
      uncancelled one needs a clip to index. */
  function FrameJob(cancelled: bool, tl: Timeline, ts: nat,
                    extract: (string, nat) -> Result<seq<bv8>>): (r: Result<seq<bv8>>)
    requires Valid(tl) && (cancelled || |tl.clips| > 0)
    ensures cancelled ==> r == Err("job is cancelled")
    ensures !cancelled ==> r == extract(FrameRequest(tl, ts).0, FrameRequest(tl, ts).1)
  {
    if cancelled then Err("job is cancelled")
    else
      var (clipTs, clip) := GetAt(tl, ts);
      extract(clip.path, ts - clipTs)
  }

  /** The offset `ts - clip_ts` never underflows, and below the duration
      it falls inside the clip when no clip is empty. */
  function FrameRequest(tl: Timeline, ts: nat): (req: (string, nat))
    requires Valid(tl) && |tl.clips| > 0
    ensures GetAt(tl, ts).0 + req.1 == ts && req.0 == GetAt(tl, ts).1.path
  {
    var (clipTs, clip) := GetAt(tl, ts);
    (clip.path, ts - clipTs)
  }

  /** Without empty clips, an uncancelled job extracts from the clip
      playing at `ts`, at the offset into it. */
  lemma FrameJobExtractsPlayingClip(tl: Timeline, i: nat, ts: nat, extract: (string, nat) -> Result<seq<bv8>>)
    requires Valid(tl) && PositiveLengths(tl) && i < |tl.clips|
    requires tl.clips[i].0 <= ts < tl.clips[i].0 + tl.clips[i].1.length
    ensures FrameJob(false, tl, ts, extract) == extract(tl.clips[i].1.path, ts - tl.clips[i].0)
  {
    GetAtExact(tl, i, ts);
  }

  lemma FrameRequestInsideClip(tl: Timeline, ts: nat)
    requires Valid(tl) && PositiveLengths(tl) && |tl.clips| > 0 && ts < tl.duration
    ensures FrameRequest(tl, ts).1 < GetAt(tl, ts).1.length
  {
    GetAtInsideClip(tl, ts);
  }

  /** When the duration is a multiple of the frame count the last
      timestamp is the duration itself. */
  lemma LastTimestampIsDuration(duration: nat, numFrames: nat, skip: nat)
    requires numFrames > 0 && skip <= numFrames && duration % numFrames == 0
    ensures var ts := Timestamps(duration, numFrames, skip); ts[|ts| - 1] == duration
  {
    var ts := Timestamps(duration, numFrames, skip);
    assert ts[|ts| - 1] == numFrames * (duration / numFrames);
  }

  /** With no empty clip, the request for the timestamp at the duration
      asks for the last clip at its full length: one past its last frame. */
  lemma RequestAtDuration(tl: Timeline)
    requires Valid(tl) && PositiveLengths(tl) && |tl.clips| > 0
    ensures FrameRequest(tl, tl.duration) == (tl.clips[|tl.clips| - 1].1.path, tl.clips[|tl.clips| - 1].1.length)
  {
    var n := |tl.clips|;
    GetAtPastEnd(tl, tl.duration);
    var cs := Iter(tl);
    SumLengthsStep(cs, n - 1);
    assert cs[..n] == cs;
  }

  //
  // The encoder
  //

  /** `JpgTimelapseEnc`: numbers frames from 1 and writes frame n to the
      file `n.jpg` in its output directory. `files` maps each frame number
      to the bytes written under that name. */
  class JpgTimelapseEnc {
    const outputDir: string
    var frameN: nat
    var files: map<nat, seq<bv8>>

    constructor(outputDir: string)
      ensures this.outputDir == outputDir && frameN == 0 && files == map[]
    {
      this.outputDir := outputDir;
      frameN := 0;
      files := map[];
    }

    /** `encode_frame`: the counter moves before the write, so a failed
        write still uses up its number. `writeOk` is the outcome of
        `std::fs::write`. */
    method EncodeFrame(jpgData: seq<bv8>, writeOk: bool) returns (r: Outcome)
      modifies this
      ensures frameN == old(frameN) + 1
      ensures files == if writeOk then old(files)[frameN := jpgData] else old(files)
      ensures r.Pass? <==> writeOk
    {
      frameN := frameN + 1;
      if !writeOk {
        return Fail("write frame file");
      }
      files := files[frameN := jpgData];
      return Pass;
    }

    /** The trait's default `finish`, which JPEG output keeps. */
    method Finish() returns (r: Outcome)
      ensures r.Pass?
    {
      return Pass;
    }
  }

  /** What the consuming loop leaves: the encoder's counter and files, and
      the index of the frame whose encoding failed, if any. */
  datatype EncState = EncState(frameN: nat, files: map<nat, seq<bv8>>, failedAt: Option<nat>)

  /** One job result reaching the loop: a failed extraction is only
      reported, a frame is encoded, and nothing happens after an encoding
      error has returned. */
  function Step(s: EncState, i: nat, job: Result<seq<bv8>>, writeOk: bool): EncState {
    if s.failedAt.Some? || job.Err? then s
    else
      var n := s.frameN + 1;
      if writeOk then EncState(n, s.files[n := job.value], None)
      else EncState(n, s.files, Some(i))
  }

  /** The loop over the job results in frame order. `writeOk[i]` is the
      outcome of the file write for job i, used only when the job
      succeeded. */
  function Consume(s: EncState, jobs: seq<Result<seq<bv8>>>, writeOk: seq<bool>): EncState
    requires |writeOk| == |jobs|
    decreases |jobs|
  {
    if jobs == [] then s
    else
      var n := |jobs| - 1;
      Step(Consume(s, jobs[..n], writeOk[..n]), n, jobs[n], writeOk[n])
  }

  /** The result of `timelapse` for the JPEG encoder. */
  datatype TimelapseResult = Finished | EncodeFailed(frame: nat)

  lemma ConsumeStep(s: EncState, jobs: seq<Result<seq<bv8>>>, writeOk: seq<bool>, i: nat)
    requires |writeOk| == |jobs| && i < |jobs|
    ensures Consume(s, jobs[..i + 1], writeOk[..i + 1]) == Step(Consume(s, jobs[..i], writeOk[..i]), i, jobs[i], writeOk[i])
  {
    assert jobs[..i + 1][..i] == jobs[..i];
    assert writeOk[..i + 1][..i] == writeOk[..i];
  }

  lemma {:induction false} FailureStays(s: EncState, jobs: seq<Result<seq<bv8>>>, writeOk: seq<bool>, i: nat)
    requires |writeOk| == |jobs| && i <= |jobs| && Consume(s, jobs[..i], writeOk[..i]).failedAt.Some?
    ensures Consume(s, jobs, writeOk) == Consume(s, jobs[..i], writeOk[..i])
    decreases |jobs| - i
  {
    if i < |jobs| {
      ConsumeStep(s, jobs, writeOk, i);
      FailureStays(s, jobs, writeOk, i + 1);
    } else {
      assert jobs[..i] == jobs && writeOk[..i] == writeOk;
    }
  }

  /** The frame loop and the final `finish` of `timelapse`, on the job
      results the ordered channel delivers. */
  method ConsumeFrames(enc: JpgTimelapseEnc, jobs: seq<Result<seq<bv8>>>, writeOk: seq<bool>)
    returns (r: TimelapseResult)
    requires |writeOk| == |jobs|
    modifies enc
    ensures var f := Consume(EncState(old(enc.frameN), old(enc.files), None), jobs, writeOk);
      && enc.frameN == f.frameN && enc.files == f.files
      && r == (if f.failedAt.Some? then EncodeFailed(f.failedAt.value) else Finished)
  {
    ghost var s0 := EncState(enc.frameN, enc.files, None);
    for i := 0 to |jobs|
      invariant Consume(s0, jobs[..i], writeOk[..i]) == EncState(enc.frameN, enc.files, None)
    {
      ConsumeStep(s0, jobs, writeOk, i);
      if jobs[i].Ok? {
        var e := enc.EncodeFrame(jobs[i].value, writeOk[i]);
        if e.Fail? {
          FailureStays(s0, jobs, writeOk, i + 1);
          return EncodeFailed(i);
        }
      }
    }
    assert jobs[..|jobs|] == jobs && writeOk[..|jobs|] == writeOk;
    var fin := enc.Finish();
    return Finished;
  }

  /** `timelapse` with the JPEG encoder: the frame count, the timestamps,
      one extraction job per timestamp, and the loop over their results. */
  method RunTimelapse(enc: JpgTimelapseEnc, tl: Timeline, lenSecs: nat, fps: nat, skip: nat,
                      cancelled: bool, extract: (string, nat) -> Result<seq<bv8>>, writeOk: seq<bool>)
    returns (r: TimelapseResult)
    requires Valid(tl) && (cancelled || |tl.clips| > 0)
    requires NumFrames(lenSecs, fps) > 0 || skip > NumFrames(lenSecs, fps)
    requires |writeOk| == |Timestamps(Len(tl), NumFrames(lenSecs, fps), skip)|
    modifies enc
    ensures var ts := Timestamps(Len(tl), NumFrames(lenSecs, fps), skip);
      var jobs := seq(|ts|, k requires 0 <= k < |ts| => FrameJob(cancelled, tl, ts[k], extract));
      var f := Consume(EncState(old(enc.frameN), old(enc.files), None), jobs, writeOk);
      && enc.frameN == f.frameN && enc.files == f.files
      && r == (if f.failedAt.Some? then EncodeFailed(f.failedAt.value) else Finished)
  {
    var numFrames := NumFrames(lenSecs, fps);
    var ts := Timestamps(Len(tl), numFrames, skip);
    var jobs := seq(|ts|, k requires 0 <= k < |ts| => FrameJob(cancelled, tl, ts[k], extract));
    r := ConsumeFrames(enc, jobs, writeOk);
  }

  //
  // Properties of the loop
  //

  /** The frames that were extracted, in frame order. */
  function Successes(jobs: seq<Result<seq<bv8>>>): seq<seq<bv8>>
    decreases |jobs|
  {
    if jobs == [] then []
    else
      var n := |jobs| - 1;
      Successes(jobs[..n]) + (if jobs[n].Ok? then [jobs[n].value] else [])
  }

  ghost predicate WritesSucceed(jobs: seq<Result<seq<bv8>>>, writeOk: seq<bool>)
    requires |writeOk| == |jobs|
  {
    forall i :: 0 <= i < |jobs| && jobs[i].Ok? ==> writeOk[i]
  }

  /** Frame numbers `base + 1 ..` hold `frames` in order. */
  ghost predicate NumberedFrom(files: map<nat, seq<bv8>>, base: nat, frames: seq<seq<bv8>>) {
    forall k :: 0 <= k < |frames| ==> Holds(files, base + k + 1, frames[k])
  }

  /** File number `n` holds `frame`. */
  predicate Holds(files: map<nat, seq<bv8>>, n: nat, frame: seq<bv8>) {
    n in files && files[n] == frame
  }

  /** Outside the numbers `lo + 1 .. hi` the files are as they were. */
  ghost predicate ElsewhereUnchanged(before: map<nat, seq<bv8>>, after: map<nat, seq<bv8>>, lo: nat, hi: nat) {
    && (forall n :: n in after && !(lo < n <= hi) ==> n in before && after[n] == before[n])
    && (forall n :: n in before && !(lo < n <= hi) ==> n in after)
  }

  /** When every write succeeds, the successful extractions are written in
      order to the next frame numbers, failed extractions take no number,
      and nothing else is touched. */
  lemma {:induction false} ConsumeAllWritten(s: EncState, jobs: seq<Result<seq<bv8>>>, writeOk: seq<bool>)
    requires |writeOk| == |jobs| && s.failedAt.None? && WritesSucceed(jobs, writeOk)
    ensures Consume(s, jobs, writeOk).failedAt.None?
    ensures Consume(s, jobs, writeOk).frameN == s.frameN + |Successes(jobs)|
    ensures NumberedFrom(Consume(s, jobs, writeOk).files, s.frameN, Successes(jobs))
    ensures ElsewhereUnchanged(s.files, Consume(s, jobs, writeOk).files, s.frameN, s.frameN + |Successes(jobs)|)
    decreases |jobs|
  {
    if jobs != [] {
      var n := |jobs| - 1;
      assert forall k :: 0 <= k < n ==> jobs[..n][k] == jobs[k] && writeOk[..n][k] == writeOk[k];
      assert WritesSucceed(jobs[..n], writeOk[..n]);
      ConsumeAllWritten(s, jobs[..n], writeOk[..n]);
      var p := Consume(s, jobs[..n], writeOk[..n]);
      var okp := Successes(jobs[..n]);
      if jobs[n].Ok? {
        assert Successes(jobs) == okp + [jobs[n].value];
        assert Consume(s, jobs, writeOk) == EncState(p.frameN + 1, p.files[p.frameN + 1 := jobs[n].value], None);
        WriteNext(s.files, p.files, s.frameN, okp, jobs[n].value);
      } else {
        assert Successes(jobs) == okp;
        assert Consume(s, jobs, writeOk) == p;
      }
    }
  }

  /** Writing the next frame number extends the numbered run by one file
      and touches nothing else. */
  lemma WriteNext(before: map<nat, seq<bv8>>, files: map<nat, seq<bv8>>, base: nat, frames: seq<seq<bv8>>, v: seq<bv8>)
    requires NumberedFrom(files, base, frames) && ElsewhereUnchanged(before, files, base, base + |frames|)
    ensures NumberedFrom(files[base + |frames| + 1 := v], base, frames + [v])
    ensures ElsewhereUnchanged(before, files[base + |frames| + 1 := v], base, base + |frames| + 1)
  {
    var after := files[base + |frames| + 1 := v];
    var ext := frames + [v];
    forall k | 0 <= k < |ext| ensures Holds(after, base + k + 1, ext[k]) {
      if k < |frames| {
        assert ext[k] == frames[k];
        assert Holds(files, base + k + 1, frames[k]);
      } else {
        assert ext[k] == v;
      }
    }
  }

  /** Job i is the first whose frame was extracted but not written. */
  ghost predicate FirstBadWrite(jobs: seq<Result<seq<bv8>>>, writeOk: seq<bool>, i: nat)
    requires |writeOk| == |jobs|
  {
    && i < |jobs| && jobs[i].Ok? && !writeOk[i]
    && forall k :: 0 <= k < i && jobs[k].Ok? ==> writeOk[k]
  }

  lemma {:induction false} FailureIsFirstBadWrite(s: EncState, jobs: seq<Result<seq<bv8>>>, writeOk: seq<bool>, i: nat)
    requires |writeOk| == |jobs| && s.failedAt.None?
    requires Consume(s, jobs, writeOk).failedAt == Some(i)
    ensures FirstBadWrite(jobs, writeOk, i)
    decreases |jobs|
  {
    var n := |jobs| - 1;
    var p := Consume(s, jobs[..n], writeOk[..n]);
    if p.failedAt == Some(i) {
      FailureIsFirstBadWrite(s, jobs[..n], writeOk[..n], i);
      assert forall k :: 0 <= k <= i ==> jobs[..n][k] == jobs[k] && writeOk[..n][k] == writeOk[k];
    } else {
      NoFailureMeansWritten(s, jobs[..n], writeOk[..n]);
      assert forall k :: 0 <= k < n ==> jobs[..n][k] == jobs[k] && writeOk[..n][k] == writeOk[k];
    }
  }

  lemma FirstBadWriteFails(s: EncState, jobs: seq<Result<seq<bv8>>>, writeOk: seq<bool>, i: nat)
    requires |writeOk| == |jobs| && s.failedAt.None? && FirstBadWrite(jobs, writeOk, i)
    ensures Consume(s, jobs, writeOk).failedAt == Some(i)
    ensures Consume(s, jobs, writeOk).frameN == s.frameN + |Successes(jobs[..i + 1])|
  {
    assert forall k :: 0 <= k < i ==> jobs[..i][k] == jobs[k] && writeOk[..i][k] == writeOk[k];
    assert WritesSucceed(jobs[..i], writeOk[..i]);
    NoFailureMeansWritten(s, jobs[..i], writeOk[..i]);
    ConsumeCounts(s, jobs[..i], writeOk[..i]);
    ConsumeStep(s, jobs, writeOk, i);
    assert jobs[..i + 1][..i] == jobs[..i];
    FailureStays(s, jobs, writeOk, i + 1);
  }

  /** An encoding error is reported for exactly the first job whose frame
      was extracted but could not be written, and by then every frame
      extracted up to it has taken a number. */
  lemma ConsumeFailsAtFirstBadWrite(s: EncState, jobs: seq<Result<seq<bv8>>>, writeOk: seq<bool>, i: nat)
    requires |writeOk| == |jobs| && s.failedAt.None?
    ensures Consume(s, jobs, writeOk).failedAt == Some(i) <==> FirstBadWrite(jobs, writeOk, i)
    ensures FirstBadWrite(jobs, writeOk, i) ==> Consume(s, jobs, writeOk).frameN == s.frameN + |Successes(jobs[..i + 1])|
  {
    if Consume(s, jobs, writeOk).failedAt == Some(i) {
      FailureIsFirstBadWrite(s, jobs, writeOk, i);
    }
    if FirstBadWrite(jobs, writeOk, i) {
      FirstBadWriteFails(s, jobs, writeOk, i);
    }
  }

  /** No encoding error means every extracted frame was written. */
  lemma {:induction false} NoFailureMeansWritten(s: EncState, jobs: seq<Result<seq<bv8>>>, writeOk: seq<bool>)
    requires |writeOk| == |jobs| && s.failedAt.None?
    ensures Consume(s, jobs, writeOk).failedAt.None? <==> WritesSucceed(jobs, writeOk)
    decreases |jobs|
  {
    if jobs != [] {
      var n := |jobs| - 1;
      NoFailureMeansWritten(s, jobs[..n], writeOk[..n]);
      assert forall k :: 0 <= k < n ==> jobs[..n][k] == jobs[k] && writeOk[..n][k] == writeOk[k];
    }
  }

  /** Without an encoding error the counter has moved once per extracted
      frame. */
  lemma {:induction false} ConsumeCounts(s: EncState, jobs: seq<Result<seq<bv8>>>, writeOk: seq<bool>)
    requires |writeOk| == |jobs| && s.failedAt.None?
    ensures Consume(s, jobs, writeOk).failedAt.None? ==>
      Consume(s, jobs, writeOk).frameN == s.frameN + |Successes(jobs)|
    decreases |jobs|
  {
    if jobs != [] {
      var n := |jobs| - 1;
      ConsumeCounts(s, jobs[..n], writeOk[..n]);
    }
  }
}
