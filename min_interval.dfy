/** How find_chop_points turns its min_interval, a time in seconds, into the
    frame count min_samples that the spacing rule compares against, and what
    that count guarantees in seconds. Frames start every hop samples, so the
    time of frame f is f * hop / sr seconds (librosa.frames_to_time). */
module MinInterval {
  import Spacing

  /** The least integer not below x. */
  function Ceil(x: real): (i: int)
    ensures x <= i as real < x + 1.0
  {
    -((-x).Floor)
  }

  /** Python's int() on a number: truncation toward zero. */
  function Trunc(x: real): (i: int)
    ensures x >= 0.0 ==> i as real <= x < i as real + 1.0
    ensures x < 0.0 ==> i as real - 1.0 < x <= i as real
  {
    if x >= 0.0 then x.Floor else Ceil(x)
  }

  /** The start time, in seconds, of frame `frame`. */
  function FrameTime(frame: int, sr: int, hop: nat): real
    requires sr > 0
  {
    (frame * hop) as real / sr as real
  }

  lemma FrameTimeDifference(a: int, b: int, sr: int, hop: nat)
    requires sr > 0
    ensures FrameTime(a, sr, hop) - FrameTime(b, sr, hop) == FrameTime(a - b, sr, hop)
  {
  }

  lemma FrameTimeMonotone(a: int, b: int, sr: int, hop: nat)
    requires sr > 0 && a <= b
    ensures FrameTime(a, sr, hop) <= FrameTime(b, sr, hop)
  {
  }

  /** Frame f lies at least x seconds in exactly when f >= x * sr / hop. */
  lemma FrameTimeAtLeast(f: int, x: real, sr: int, hop: nat)
    requires sr > 0 && hop > 0
    ensures FrameTime(f, sr, hop) >= x <==> f as real >= x * sr as real / hop as real
  {
  }

  /** min_samples as find_chop_points computes it, int(min_interval * sr / hop_length).
      A hop of 0 raises ZeroDivisionError there. */
  function MinSamplesAsWritten(minInterval: real, sr: int, hop: nat): int
    requires hop > 0
  {
    Trunc(minInterval * sr as real / hop as real)
  }

  /** With the default sample rate and hop and min_interval 0.2 s, int() gives
      8 frames, and two onsets 8 frames apart are both kept although they are
      only about 0.186 s apart: the truncated count does not keep chop points
      min_interval seconds apart. */
  lemma AsWrittenSpacingBelowMinInterval()
    ensures MinSamplesAsWritten(0.2, 22050, 512) == 8
    ensures Spacing.Scan([0, 8], MinSamplesAsWritten(0.2, 22050, 512)).kept == [0, 1]
    ensures FrameTime(8, 22050, 512) - FrameTime(0, 22050, 512) < 0.2
  {
  }

  /** The corrected count: the fewest frames spanning at least minInterval
      seconds (rounding up instead of truncating). */
  function MinSamplesFor(minInterval: real, sr: int, hop: nat): (m: int)
    requires sr > 0 && hop > 0
    ensures FrameTime(m, sr, hop) >= minInterval
    ensures FrameTime(m - 1, sr, hop) < minInterval
  {
    var m := Ceil(minInterval * sr as real / hop as real);
    FrameTimeAtLeast(m, minInterval, sr, hop);
    FrameTimeAtLeast(m - 1, minInterval, sr, hop);
    m
  }

  /** With the corrected count, consecutive kept onsets are at least
      minInterval seconds apart. */
  lemma CorrectedSpacingInSeconds(frames: seq<nat>, minInterval: real, sr: int, hop: nat)
    requires sr > 0 && hop > 0
    ensures var kept := Spacing.Scan(frames, MinSamplesFor(minInterval, sr, hop)).kept;
      forall k :: 0 < k < |kept| ==>
        FrameTime(frames[kept[k]], sr, hop) - FrameTime(frames[kept[k - 1]], sr, hop) >= minInterval
  {
    var m := MinSamplesFor(minInterval, sr, hop);
    var kept := Spacing.Scan(frames, m).kept;
    Spacing.ScanSpacing(frames, m);
    assert Spacing.Spaced(frames, kept, m);
    forall k | 0 < k < |kept|
      ensures FrameTime(frames[kept[k]], sr, hop) - FrameTime(frames[kept[k - 1]], sr, hop) >= minInterval
    {
      var a, b := frames[kept[k]], frames[kept[k - 1]];
      assert a - b >= m;
      FrameTimeDifference(a, b, sr, hop);
      FrameTimeMonotone(m, a - b, sr, hop);
    }
  }
}
