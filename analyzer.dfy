/** SampleAnalyzer: holds a decoded audio buffer and proposes chop points,
    the onsets that survive a minimum-spacing filter, each annotated with
    the spectral centroid and RMS energy of the hop-length block of samples
    starting at its frame.

    The numeric analysis is done by librosa. Its calls have no body to model
    and work in floating point, so they enter the model as given functions
    (the `Librosa` record); what is modelled is what the analyzer does with
    their results. */
module Analyzer {
  import Spacing

  datatype Option<+T> = None | Some(value: T)

  /** NotLoaded is the ValueError raised when no audio is loaded;
      DecodeError is librosa.load failing on the file. */
  datatype Error = NotLoaded | DecodeError

  datatype Result<+T> = Ok(value: T) | Err(error: Error)

  /** One record of the list find_chop_points returns. */
  datatype ChopPoint = ChopPoint(time: real, frame: nat, energy: real, spectralCentroid: real)

  /** The librosa calls the analyzer makes, each with the arguments it passes.
      The two feature functions include the `.mean()` taken of their result. */
  datatype Librosa = Librosa(
    onsetStrength: (seq<real>, int, nat) -> seq<real>,      // (y, sr, hop_length) -> onset envelope
    onsetDetect: (seq<real>, int, nat, real) -> seq<nat>,   // (envelope, sr, hop_length, threshold) -> onset frames
    framesToTime: (seq<nat>, int, nat) -> seq<real>,        // (frames, sr, hop_length) -> onset times
    meanSpectralCentroid: (seq<real>, int) -> real,         // (y, sr) -> mean centroid
    meanRms: seq<real> -> real)                             // y -> mean RMS energy

  function Min(a: int, b: int): int
  {
    if a <= b then a else b
  }

  /** Python's s[start:stop] for non-negative bounds: both bounds are clipped
      to the length, and a range that ends before it starts is empty. */
  function Slice<T>(s: seq<T>, start: nat, stop: nat): seq<T>
  {
    var lo := Min(start, |s|);
    var hi := Min(stop, |s|);
    if lo <= hi then s[lo..hi] else []
  }

  /** The samples whose features are computed for an onset at `frame`:
      audio[frame*hop : (frame+1)*hop]. The window is the block of samples
      starting at frame*hop, at most hop long, cut off at the end of the
      buffer, and empty when it starts at or past the end. */
  function Window(audio: seq<real>, frame: nat, hop: nat): (w: seq<real>)
    ensures |w| <= hop
    ensures frame * hop >= |audio| ==> w == []
    ensures frame * hop < |audio| ==> |w| == Min(hop, |audio| - frame * hop)
    ensures forall k :: 0 <= k < |w| ==> frame * hop + k < |audio| && w[k] == audio[frame * hop + k]
  {
    assert (frame + 1) * hop == frame * hop + hop;
    Slice(audio, frame * hop, (frame + 1) * hop)
  }

  /** The record find_chop_points builds for an accepted onset. */
  function Annotate(audio: seq<real>, sr: int, hop: nat, lib: Librosa, frame: nat, time: real): ChopPoint
  {
    var w := Window(audio, frame, hop);
    ChopPoint(time, frame, lib.meanRms(w), lib.meanSpectralCentroid(w, sr))
  }

  /** The onset frames librosa detects in the buffer. */
  function OnsetFrames(audio: seq<real>, sr: int, hop: nat, lib: Librosa, threshold: real): seq<nat>
  {
    lib.onsetDetect(lib.onsetStrength(audio, sr, hop), sr, hop, threshold)
  }

  /** The onset times, converted from the onset frames. */
  function OnsetTimes(audio: seq<real>, sr: int, hop: nat, lib: Librosa, threshold: real): seq<real>
  {
    lib.framesToTime(OnsetFrames(audio, sr, hop, lib, threshold), sr, hop)
  }

  /** The records for the selected positions `kept` of the paired onsets. */
  function AnnotateAll(audio: seq<real>, sr: int, hop: nat, lib: Librosa,
                       frames: seq<nat>, times: seq<real>, kept: seq<nat>): (cps: seq<ChopPoint>)
    requires Spacing.Below(kept, Min(|frames|, |times|))
    ensures |cps| == |kept|
    ensures forall k :: 0 <= k < |kept| ==> cps[k].frame == frames[kept[k]] && cps[k].time == times[kept[k]]
  {
    seq(|kept|, k requires 0 <= k < |kept| => Annotate(audio, sr, hop, lib, frames[kept[k]], times[kept[k]]))
  }

  /** What find_chop_points returns for a loaded buffer: the onsets paired with
      their times as zip() pairs them (cut to the shorter list), filtered by
      the spacing rule, each annotated. */
  function ChopPoints(audio: seq<real>, sr: int, hop: nat, lib: Librosa, threshold: real, minSamples: int): seq<ChopPoint>
  {
    var frames := OnsetFrames(audio, sr, hop, lib, threshold);
    var times := OnsetTimes(audio, sr, hop, lib, threshold);
    var n := Min(|frames|, |times|);
    AnnotateAll(audio, sr, hop, lib, frames, times, Spacing.Scan(frames[..n], minSamples).kept)
  }

  /** The chop points are the annotated greedy selection of the onsets (the
      only selection meeting that description), so they form a subsequence
      of the onsets: ascending positions, each record's frame and time taken
      from the same position, never more records than paired onsets. */
  lemma ChopPointsFromOnsets(audio: seq<real>, sr: int, hop: nat, lib: Librosa, threshold: real, minSamples: int)
    ensures var frames := OnsetFrames(audio, sr, hop, lib, threshold);
      var times := OnsetTimes(audio, sr, hop, lib, threshold);
      var n := Min(|frames|, |times|);
      var cps := ChopPoints(audio, sr, hop, lib, threshold, minSamples);
      |cps| <= n &&
      exists kept: seq<nat> ::
        Spacing.IsGreedySelection(frames[..n], minSamples, kept) &&
        Spacing.StrictlyIncreasing(kept) && Spacing.Below(kept, n) && |kept| == |cps| &&
        forall k :: 0 <= k < |cps| ==>
          cps[k].frame == frames[kept[k]] && cps[k].time == times[kept[k]] &&
          cps[k] == Annotate(audio, sr, hop, lib, frames[kept[k]], times[kept[k]])
  {
    var frames := OnsetFrames(audio, sr, hop, lib, threshold);
    var times := OnsetTimes(audio, sr, hop, lib, threshold);
    var n := Min(|frames|, |times|);
    var kept := Spacing.Scan(frames[..n], minSamples).kept;
    Spacing.ScanIsTheGreedySelection(frames[..n], minSamples, kept);
  }

  /** Consecutive chop points are at least minSamples frames apart. */
  lemma ChopPointsSpacing(audio: seq<real>, sr: int, hop: nat, lib: Librosa, threshold: real, minSamples: int)
    ensures var cps := ChopPoints(audio, sr, hop, lib, threshold, minSamples);
      forall k :: 0 < k < |cps| ==> cps[k].frame - cps[k - 1].frame >= minSamples
  {
    var frames := OnsetFrames(audio, sr, hop, lib, threshold);
    var times := OnsetTimes(audio, sr, hop, lib, threshold);
    var n := Min(|frames|, |times|);
    var p := frames[..n];
    var kept := Spacing.Scan(p, minSamples).kept;
    Spacing.ScanSpacing(p, minSamples);
    assert Spacing.Spaced(p, kept, minSamples);
    var cps := ChopPoints(audio, sr, hop, lib, threshold, minSamples);
    forall k | 0 < k < |cps| ensures cps[k].frame - cps[k - 1].frame >= minSamples {
      assert p[kept[k]] - p[kept[k - 1]] >= minSamples;
    }
  }

  /** The first detected onset is always a chop point; no onsets give no chop points. */
  lemma ChopPointsFirstOnset(audio: seq<real>, sr: int, hop: nat, lib: Librosa, threshold: real, minSamples: int)
    ensures var frames := OnsetFrames(audio, sr, hop, lib, threshold);
      var times := OnsetTimes(audio, sr, hop, lib, threshold);
      var cps := ChopPoints(audio, sr, hop, lib, threshold, minSamples);
      (cps == [] <==> (frames == [] || times == [])) &&
      (cps != [] ==> cps[0].frame == frames[0] && cps[0].time == times[0])
  {
    var frames := OnsetFrames(audio, sr, hop, lib, threshold);
    var times := OnsetTimes(audio, sr, hop, lib, threshold);
    var n := Min(|frames|, |times|);
    if n > 0 {
      Spacing.FirstOnsetAccepted(frames[..n], minSamples);
    }
  }

  /** The analyzer object. It is unloaded while `audio` is None and loaded
      once load_audio has decoded a file. */
  class SampleAnalyzer {
    var sr: int
    var hopLength: nat
    var audio: Option<seq<real>>
    var filePath: Option<string>

    constructor (sr: int := 22050, hopLength: nat := 512)
      ensures this.sr == sr && this.hopLength == hopLength
      ensures audio == None && filePath == None
    {
      this.sr := sr;
      this.hopLength := hopLength;
      audio := None;
      filePath := None;
    }

    /** load_audio records the path first and then decodes the file at the
        analyzer's sample rate; when decoding fails the path has already been
        replaced and the previous buffer, if any, is kept. */
    method LoadAudio(path: string, decode: (string, int) -> Option<seq<real>>) returns (r: Result<()>)
      modifies this`filePath, this`audio
      ensures filePath == Some(path)
      ensures sr == old(sr) && hopLength == old(hopLength)
      ensures decode(path, sr).Some? ==> audio == decode(path, sr) && r == Ok(())
      ensures decode(path, sr).None? ==> audio == old(audio) && r == Err(DecodeError)
      ensures r.Ok? ==> audio.Some?
    {
      filePath := Some(path);
      var decoded := decode(path, sr);
      if decoded.None? {
        return Err(DecodeError);
      }
      audio := decoded;
      r := Ok(());
    }

    /** find_chop_points with min_samples given as a frame count. It fails
        with NotLoaded, before any analysis, exactly when no audio is loaded,
        and otherwise returns the chop points of the loaded buffer. */
    method FindChopPoints(threshold: real := 0.5, minSamples: int, lib: Librosa) returns (r: Result<seq<ChopPoint>>)
      ensures audio.None? <==> r == Err(NotLoaded)
      ensures audio.Some? ==> r == Ok(ChopPoints(audio.value, sr, hopLength, lib, threshold, minSamples))
    {
      if audio.None? {
        return Err(NotLoaded);
      }
      var y := audio.value;
      var onsetEnv := lib.onsetStrength(y, sr, hopLength);
      var onsetFrames := lib.onsetDetect(onsetEnv, sr, hopLength, threshold);
      var onsetTimes := lib.framesToTime(onsetFrames, sr, hopLength);

      var n := Min(|onsetFrames|, |onsetTimes|);
      var filteredPoints: seq<ChopPoint> := [];
      var lastPoint := -minSamples;
      ghost var kept: seq<nat> := [];
      for i := 0 to n
        invariant Spacing.Scan(onsetFrames[..i], minSamples) == Spacing.ScanState(lastPoint, kept)
        invariant Spacing.Below(kept, i)
        invariant |filteredPoints| == |kept|
        invariant forall k :: 0 <= k < |kept| ==>
          filteredPoints[k] == Annotate(y, sr, hopLength, lib, onsetFrames[kept[k]], onsetTimes[kept[k]])
      {
        assert onsetFrames[..i + 1][..i] == onsetFrames[..i];
        var frame, time := onsetFrames[i], onsetTimes[i];
        if frame - lastPoint >= minSamples {
          var specCentroid := lib.meanSpectralCentroid(Window(y, frame, hopLength), sr);
          var rms := lib.meanRms(Window(y, frame, hopLength));
          filteredPoints := filteredPoints + [ChopPoint(time, frame, rms, specCentroid)];
          lastPoint := frame;
          kept := kept + [i];
        }
      }
      assert Spacing.Scan(onsetFrames[..n], minSamples).kept == kept;
      assert filteredPoints == AnnotateAll(y, sr, hopLength, lib, onsetFrames, onsetTimes, kept);
      r := Ok(filteredPoints);
    }
  }
}
