/** The greedy minimum-spacing rule that find_chop_points applies to the
    detected onsets, stated on the onset frame numbers alone.

    The loop keeps the frame of the last accepted onset, starting from
    -minSamples, and accepts an onset when its frame is at least minSamples
    past that one. Scan below is that loop, one iteration per element;
    IsGreedySelection is an independent, declarative description of the
    same selection, and ScanIsTheGreedySelection shows the two agree. */
module Spacing {

  /** What the loop carries between iterations: the frame of the last
      accepted onset and the positions (indices into the onset list)
      accepted so far. */
  datatype ScanState = ScanState(lastPoint: int, kept: seq<nat>)

  /** Every position in `s` is a valid index into a list of length `n`. */
  predicate Below(s: seq<nat>, n: nat)
  {
    forall k :: 0 <= k < |s| ==> s[k] < n
  }

  /** Positions listed in strictly ascending order: the selection is a
      subsequence, nothing reordered and nothing repeated. */
  predicate StrictlyIncreasing(s: seq<nat>)
  {
    forall a, b :: 0 <= a < b < |s| ==> s[a] < s[b]
  }

  /** The loop run over all of `frames`; defined on the last element so that
      one unfolding is one iteration. */
  function Scan(frames: seq<nat>, minSamples: int): (st: ScanState)
    ensures |st.kept| <= |frames|
    ensures Below(st.kept, |frames|)
    decreases |frames|
  {
    if frames == [] then ScanState(-minSamples, [])
    else
      var n := |frames| - 1;
      var prev := Scan(frames[..n], minSamples);
      if frames[n] - prev.lastPoint >= minSamples then ScanState(frames[n], prev.kept + [n])
      else prev
  }

  /** The accepted positions come in the order of the onset list. */
  lemma {:induction false} ScanKeptIncreasing(frames: seq<nat>, minSamples: int)
    ensures StrictlyIncreasing(Scan(frames, minSamples).kept)
    decreases |frames|
  {
    if frames != [] {
      ScanKeptIncreasing(frames[..|frames| - 1], minSamples);
    }
  }

  /** `lastPoint` is always the frame of the most recently accepted onset,
      or -minSamples while none has been accepted. */
  lemma {:induction false} ScanLastPoint(frames: seq<nat>, minSamples: int)
    ensures var st := Scan(frames, minSamples);
      if st.kept == [] then st.lastPoint == -minSamples
      else st.lastPoint == frames[st.kept[|st.kept| - 1]]
    decreases |frames|
  {
    if frames != [] {
      var n := |frames| - 1;
      ScanLastPoint(frames[..n], minSamples);
    }
  }

  /** Consecutive selected onsets lie at least minSamples frames apart. */
  predicate Spaced(frames: seq<nat>, kept: seq<nat>, minSamples: int)
    requires Below(kept, |frames|)
  {
    forall k :: 0 < k < |kept| ==> frames[kept[k]] - frames[kept[k - 1]] >= minSamples
  }

  /** Any two consecutive accepted onsets are at least minSamples frames apart. */
  lemma {:induction false} ScanSpacing(frames: seq<nat>, minSamples: int)
    ensures Spaced(frames, Scan(frames, minSamples).kept, minSamples)
    decreases |frames|
  {
    if frames != [] {
      var n := |frames| - 1;
      var prev := Scan(frames[..n], minSamples);
      ScanSpacing(frames[..n], minSamples);
      ScanLastPoint(frames[..n], minSamples);
      assert forall k :: 0 <= k < |prev.kept| ==> frames[..n][prev.kept[k]] == frames[prev.kept[k]];
    }
  }

  /** Scanning a prefix of the onsets accepts a prefix of what scanning them all accepts. */
  lemma {:induction false} ScanPrefix(frames: seq<nat>, minSamples: int, i: nat)
    requires i <= |frames|
    ensures Scan(frames[..i], minSamples).kept <= Scan(frames, minSamples).kept
    decreases |frames| - i
  {
    if i < |frames| {
      var n := |frames| - 1;
      ScanPrefix(frames[..n], minSamples, i);
      assert frames[..n][..i] == frames[..i];
    } else {
      assert frames[..i] == frames;
    }
  }

  /** Because lastPoint starts at -minSamples and frames are never negative,
      the first onset is always accepted, whatever minSamples is. */
  lemma FirstOnsetAccepted(frames: seq<nat>, minSamples: int)
    requires |frames| > 0
    ensures var kept := Scan(frames, minSamples).kept; |kept| > 0 && kept[0] == 0
  {
  }

  /** The frame of the latest selected onset at a position before `j`, or
      -minSamples when no selected position lies before `j`. */
  function PrecedingKept(frames: seq<nat>, kept: seq<nat>, j: nat, minSamples: int): int
    requires Below(kept, |frames|)
  {
    if kept == [] then -minSamples
    else if kept[|kept| - 1] < j then frames[kept[|kept| - 1]]
    else PrecedingKept(frames, kept[..|kept| - 1], j, minSamples)
  }

  /** Whether the selection decides position `j` the greedy way: `j` is
      selected exactly when its frame lies at least minSamples frames after
      the latest selected onset before it. */
  predicate DecidedGreedily(frames: seq<nat>, minSamples: int, kept: seq<nat>, j: nat)
    requires Below(kept, |frames|) && j < |frames|
  {
    j in kept <==> frames[j] - PrecedingKept(frames, kept, j, minSamples) >= minSamples
  }

  /** A declarative description of the selection: positions in ascending
      order, each position decided greedily. */
  ghost predicate IsGreedySelection(frames: seq<nat>, minSamples: int, kept: seq<nat>)
  {
    Below(kept, |frames|) && StrictlyIncreasing(kept) &&
    forall j :: 0 <= j < |frames| ==> DecidedGreedily(frames, minSamples, kept, j)
  }

  /** PrecedingKept only looks at the frames the selection points to. */
  lemma {:induction false} PrecedingKeptOnPrefix(frames: seq<nat>, p: nat, kept: seq<nat>, j: nat, minSamples: int)
    requires p <= |frames| && Below(kept, p)
    ensures PrecedingKept(frames, kept, j, minSamples) == PrecedingKept(frames[..p], kept, j, minSamples)
    decreases |kept|
  {
    if kept != [] {
      PrecedingKeptOnPrefix(frames, p, kept[..|kept| - 1], j, minSamples);
    }
  }

  /** Extending a selection `rest` of the first n onsets by nothing or by
      position n leaves the decision at every earlier position as it was. */
  lemma DecidedGreedilyExtend(frames: seq<nat>, minSamples: int, rest: seq<nat>, kept: seq<nat>, j: nat)
    requires |frames| > 0 && Below(rest, |frames| - 1)
    requires kept == rest || kept == rest + [|frames| - 1]
    requires j < |frames| - 1
    ensures Below(kept, |frames|)
    ensures DecidedGreedily(frames, minSamples, kept, j) <==> DecidedGreedily(frames[..|frames| - 1], minSamples, rest, j)
  {
    var n := |frames| - 1;
    PrecedingKeptOnPrefix(frames, n, rest, j, minSamples);
    if kept != rest {
      assert kept[..|rest|] == rest;
    }
    assert j in kept <==> j in rest;
  }

  /** The decision at position n, the newest onset, compares its frame with
      that of the last position selected among the first n. */
  lemma DecidedGreedilyLast(frames: seq<nat>, minSamples: int, rest: seq<nat>, kept: seq<nat>)
    requires |frames| > 0 && Below(rest, |frames| - 1)
    requires kept == rest || kept == rest + [|frames| - 1]
    ensures Below(kept, |frames|)
    ensures DecidedGreedily(frames, minSamples, kept, |frames| - 1) <==>
      (kept != rest <==>
       frames[|frames| - 1] - (if rest == [] then -minSamples else frames[rest[|rest| - 1]]) >= minSamples)
  {
    var n := |frames| - 1;
    if kept != rest {
      assert kept[..|rest|] == rest;
    }
    assert n !in rest;
  }

  /** The loop's selection is the greedy selection, and it is the only one:
      a selection satisfies the declarative description exactly when it is
      the one the loop produces. */
  lemma ScanIsTheGreedySelection(frames: seq<nat>, minSamples: int, kept: seq<nat>)
    ensures IsGreedySelection(frames, minSamples, kept) <==> kept == Scan(frames, minSamples).kept
  {
    ScanIsGreedy(frames, minSamples);
    if IsGreedySelection(frames, minSamples, kept) {
      GreedyIsScan(frames, minSamples, kept);
    }
  }

  /** One iteration of the loop: the newest onset is either appended to the
      kept positions, when it is far enough from the last kept frame, or dropped. */
  lemma ScanStep(frames: seq<nat>, minSamples: int)
    requires |frames| > 0
    ensures var n := |frames| - 1;
      var prev := Scan(frames[..n], minSamples);
      var kept := Scan(frames, minSamples).kept;
      (kept == prev.kept + [n] && frames[n] - prev.lastPoint >= minSamples) ||
      (kept == prev.kept && frames[n] - prev.lastPoint < minSamples)
  {
  }

  /** The loop decides an earlier position as the scan of the shorter list did. */
  lemma ScanDecidesEarlier(frames: seq<nat>, minSamples: int, j: nat)
    requires |frames| > 0 && j < |frames| - 1
    requires DecidedGreedily(frames[..|frames| - 1], minSamples, Scan(frames[..|frames| - 1], minSamples).kept, j)
    ensures DecidedGreedily(frames, minSamples, Scan(frames, minSamples).kept, j)
  {
    var n := |frames| - 1;
    ScanStep(frames, minSamples);
    DecidedGreedilyExtend(frames, minSamples, Scan(frames[..n], minSamples).kept, Scan(frames, minSamples).kept, j);
  }

  /** An iteration that compares the newest onset with the last kept frame
      and appends it exactly when it is far enough decides it greedily. */
  lemma NewestDecidedGreedily(frames: seq<nat>, minSamples: int, rest: seq<nat>, lastPoint: int, kept: seq<nat>)
    requires |frames| > 0 && Below(rest, |frames| - 1)
    requires lastPoint == if rest == [] then -minSamples else frames[rest[|rest| - 1]]
    requires (kept == rest + [|frames| - 1] && frames[|frames| - 1] - lastPoint >= minSamples) ||
             (kept == rest && frames[|frames| - 1] - lastPoint < minSamples)
    ensures Below(kept, |frames|)
    ensures DecidedGreedily(frames, minSamples, kept, |frames| - 1)
  {
    DecidedGreedilyLast(frames, minSamples, rest, kept);
  }

  /** The loop decides the newest position greedily. */
  lemma ScanDecidesNewest(frames: seq<nat>, minSamples: int)
    requires |frames| > 0
    ensures DecidedGreedily(frames, minSamples, Scan(frames, minSamples).kept, |frames| - 1)
  {
    var n := |frames| - 1;
    var p := frames[..n];
    var prev := Scan(p, minSamples);
    ScanStep(frames, minSamples);
    ScanLastPoint(p, minSamples);
    assert prev.kept != [] ==> p[prev.kept[|prev.kept| - 1]] == frames[prev.kept[|prev.kept| - 1]];
    NewestDecidedGreedily(frames, minSamples, prev.kept, prev.lastPoint, Scan(frames, minSamples).kept);
  }

  lemma {:induction false} ScanIsGreedy(frames: seq<nat>, minSamples: int)
    ensures IsGreedySelection(frames, minSamples, Scan(frames, minSamples).kept)
    decreases |frames|
  {
    ScanKeptIncreasing(frames, minSamples);
    if frames != [] {
      var n := |frames| - 1;
      ScanIsGreedy(frames[..n], minSamples);
      forall j | 0 <= j < |frames|
        ensures DecidedGreedily(frames, minSamples, Scan(frames, minSamples).kept, j)
      {
        if j < n {
          ScanDecidesEarlier(frames, minSamples, j);
        } else {
          ScanDecidesNewest(frames, minSamples);
        }
      }
    }
  }

  /** A selection of all n+1 onsets, with position n taken off if it was selected. */
  function WithoutLast(kept: seq<nat>, n: nat): seq<nat>
  {
    if kept != [] && kept[|kept| - 1] == n then kept[..|kept| - 1] else kept
  }

  lemma WithoutLastBelow(kept: seq<nat>, n: nat)
    requires Below(kept, n + 1) && StrictlyIncreasing(kept)
    ensures Below(WithoutLast(kept, n), n) && StrictlyIncreasing(WithoutLast(kept, n))
    ensures kept == WithoutLast(kept, n) || kept == WithoutLast(kept, n) + [n]
  {
  }

  /** A greedy selection of all the onsets restricts to a greedy selection of
      all but the last. */
  lemma GreedyRestrict(frames: seq<nat>, minSamples: int, kept: seq<nat>)
    requires |frames| > 0 && IsGreedySelection(frames, minSamples, kept)
    ensures var n := |frames| - 1; var rest := WithoutLast(kept, n);
      IsGreedySelection(frames[..n], minSamples, rest) && (kept == rest || kept == rest + [n])
  {
    var n := |frames| - 1;
    var rest := WithoutLast(kept, n);
    WithoutLastBelow(kept, n);
    forall j | 0 <= j < n
      ensures DecidedGreedily(frames[..n], minSamples, rest, j)
    {
      assert DecidedGreedily(frames, minSamples, kept, j);
      DecidedGreedilyExtend(frames, minSamples, rest, kept, j);
    }
  }

  /** When the selection without the newest position is the loop's selection
      of the shorter list, the greedy decision at the newest position makes the
      whole selection the loop's. */
  lemma GreedyDecidesNewest(frames: seq<nat>, minSamples: int, kept: seq<nat>, rest: seq<nat>)
    requires |frames| > 0 && Below(rest, |frames| - 1)
    requires kept == rest || kept == rest + [|frames| - 1]
    requires rest == Scan(frames[..|frames| - 1], minSamples).kept
    requires DecidedGreedily(frames, minSamples, kept, |frames| - 1)
    ensures kept == Scan(frames, minSamples).kept
  {
    var n := |frames| - 1;
    var p := frames[..n];
    ScanStep(frames, minSamples);
    ScanLastPoint(p, minSamples);
    assert rest != [] ==> p[rest[|rest| - 1]] == frames[rest[|rest| - 1]];
    DecidedGreedilyLast(frames, minSamples, rest, kept);
  }

  lemma {:induction false} GreedyIsScan(frames: seq<nat>, minSamples: int, kept: seq<nat>)
    requires IsGreedySelection(frames, minSamples, kept)
    ensures kept == Scan(frames, minSamples).kept
    decreases |frames|
  {
    assert kept != [] ==> kept[0] < |frames|;
    if frames != [] {
      var n := |frames| - 1;
      var rest := WithoutLast(kept, n);
      GreedyRestrict(frames, minSamples, kept);
      GreedyIsScan(frames[..n], minSamples, rest);
      assert DecidedGreedily(frames, minSamples, kept, n);
      GreedyDecidesNewest(frames, minSamples, kept, rest);
    }
  }
}
