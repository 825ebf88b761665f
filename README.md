# samplechop chop-point analyzer, modelled in Dafny

`SampleAnalyzer` (samplechop/analyzer.py) holds one decoded audio buffer and
proposes *chop points*, which are places to slice a sample. It asks librosa for
the onset frames and their times. It then walks the onsets in order and keeps
one only when its frame is at least `min_samples` frames after the last onset
it kept. The running `last_point` starts at `-min_samples`. For each kept
onset it records the time, the frame, and the mean RMS energy and mean
spectral centroid of the samples `audio[frame*hop : (frame+1)*hop]`. Calling
`find_chop_points` before `load_audio` raises an error.

The project has three modules:

- `Spacing` (spacing.dfy) holds the greedy minimum-spacing rule on frame
  numbers alone. `Scan` is the loop, one iteration per element.
  `IsGreedySelection` is a separate, declarative description of the same
  selection. Lemmas prove order, spacing, the first-onset guarantee, and that
  `Scan` is the one and only greedy selection.
- `Analyzer` (analyzer.dfy) holds the class `SampleAnalyzer`. Its fields are
  `sr`, `hopLength`, `audio` and `filePath`, and `audio == None` is the
  unloaded state. `LoadAudio` updates fields in place. `FindChopPoints` has
  the same `for` loop as the source, and its invariants tie the loop to
  `Scan`. The module also holds the Python-slice window and the lemmas about
  the chop-point list.
- `MinInterval` (min_interval.dfy) covers how seconds become `min_samples`,
  and the finding below.

The librosa calls have no body to model and compute in floating point. They
are the function-valued fields of the `Librosa` record: `onset_strength`,
`onset_detect`, `frames_to_time`, and the two feature calls with their
`.mean()`. `librosa.load` is a function argument of `LoadAudio` that returns
`None` when decoding fails. Samples and times are `real`.

Four behaviours of the code worth stating:

- Seconds become frames with `int(...)`, which truncates.
- A negative threshold or interval is not rejected.
- `visualize_chop_points` does not check that audio is loaded.
- Consecutive chop points are not guaranteed to be `min_interval` seconds
  apart (see Findings).

## Model

| member | source | states |
|---|---|---|
| `Spacing.Scan` | samplechop/analyzer.py:68-89 | The spacing loop never keeps more onsets than it is given, and every kept position indexes the onset list. |
| `Spacing.ScanKeptIncreasing` | samplechop/analyzer.py:71-89 | Kept positions are strictly ascending, so the result is a subsequence of the onsets: nothing is reordered, repeated or invented. |
| `Spacing.ScanLastPoint` | samplechop/analyzer.py:69-89 | `last_point` is -min_samples until an onset is kept, and from then on it is the frame of the most recently kept onset. |
| `Spacing.ScanSpacing` | samplechop/analyzer.py:72-89 | Any two consecutive kept onsets are at least min_samples frames apart. |
| `Spacing.ScanPrefix` | samplechop/analyzer.py:71-89 | Running the loop over a prefix of the onsets keeps a prefix of what the full run keeps. |
| `Spacing.FirstOnsetAccepted` | samplechop/analyzer.py:69-72 | A non-empty onset list always has its first onset kept, whatever min_samples is, because frames are non-negative and last_point starts at -min_samples. |
| `Spacing.ScanIsTheGreedySelection` | samplechop/analyzer.py:68-91 | A selection is greedy exactly when it is the loop's selection. Greedy means ascending positions, and a position is kept exactly when its frame is at least min_samples past the latest kept frame before it (or past -min_samples). This proves both directions, so the selection is unique. |
| `Analyzer.Window` | samplechop/analyzer.py:75-80 | The feature window is at most hop_length long. It is empty when frame*hop is at or past the end of the buffer. Otherwise it has length min(hop, len - frame*hop), and element k is audio[frame*hop + k]. |
| `Analyzer.AnnotateAll` | samplechop/analyzer.py:83-88 | Each record's frame and time come from the same position of the paired onset frames and onset times. |
| `Analyzer.ChopPointsFromOnsets` | samplechop/analyzer.py:71-91 | The chop points are the annotated greedy selection of the zip-paired onsets. They are never more than the pairs, they come at ascending positions, and record k takes its frame and time from one onset and its features from that onset's window. |
| `Analyzer.ChopPointsSpacing` | samplechop/analyzer.py:72-89 | Consecutive chop points are at least min_samples frames apart. |
| `Analyzer.ChopPointsFirstOnset` | samplechop/analyzer.py:68-91 | There are no chop points exactly when there are no onsets (or no onset times). Otherwise the first chop point is the first onset, with its own frame and time. |
| `Analyzer.SampleAnalyzer.constructor` | samplechop/analyzer.py:7-18 | A new analyzer has the given sample rate and hop length (22050 and 512 by default), no audio and no file path. |
| `Analyzer.SampleAnalyzer.LoadAudio` | samplechop/analyzer.py:20-28 | The file path is always replaced, and sr and hop_length are unchanged. When decoding succeeds, audio becomes the decoded buffer and the analyzer is loaded. When it fails, a DecodeError is returned and the previous audio is kept. |
| `Analyzer.SampleAnalyzer.FindChopPoints` | samplechop/analyzer.py:30-91 | The call fails with NotLoaded exactly when no audio is loaded, before any librosa call. Otherwise it returns the chop points of the loaded buffer, and its loop invariant keeps it in step with `Scan`. threshold defaults to 0.5, as in the source. |
| `MinInterval.Trunc` | samplechop/analyzer.py:67 | Python's int() truncates toward zero: the result is floor for non-negative input and ceiling for negative input. |
| `MinInterval.AsWrittenSpacingBelowMinInterval` | samplechop/analyzer.py:67-72 | With sr 22050, hop 512 and min_interval 0.2, int() gives 8 frames. Onsets at frames 0 and 8 are then both kept, although they are less than 0.2 s apart. |
| `MinInterval.MinSamplesFor` | samplechop/analyzer.py:67 | The corrected count is the fewest frames spanning at least min_interval seconds: that many frames reach min_interval, and one frame fewer does not. |
| `MinInterval.CorrectedSpacingInSeconds` | samplechop/analyzer.py:67-89 | With the corrected count, consecutive kept onsets are at least min_interval seconds apart, timing frame f at f * hop / sr. |

## Left out

- The librosa analysis (`onset_strength`, `onset_detect`, `frames_to_time`, `feature.spectral_centroid`, `feature.rms` and the `.mean()` of their results) is given as functions in the `Librosa` record. It is foreign code in floating point, so nothing is proved about what these functions compute.
- `librosa.load` is file I/O and decoding. It is a function argument that yields either a buffer or a failure. Any resampling happens inside that function.
- Floating point is modelled as `real`: samples, times, energies, centroids and the min_interval arithmetic.
- Analyzer.SampleAnalyzer.FindChopPoints: with a hop length of 0 the source raises, either inside librosa or with a ZeroDivisionError at line 67, while the model returns `Ok`. min_samples is an argument here, so the division on line 67 never happens in the model.
- Analyzer.SampleAnalyzer.FindChopPoints: the `Librosa` functions are total, so an exception raised inside `onset_strength`, `onset_detect`, `frames_to_time` or the feature calls cannot happen in the model. Such an exception would propagate out of `find_chop_points`.
- Analyzer.SampleAnalyzer.FindChopPoints: takes min_samples as an integer argument. The conversion `int(min_interval * sr / hop_length)` on line 67 is modelled separately, in `MinInterval.MinSamplesAsWritten`, because it is a float expression.
- Analyzer.SampleAnalyzer.constructor: hop_length is a `nat`. A negative hop length, which Python accepts here and librosa rejects later, is not modelled.
- Python's negative slice indices are not modelled. Onset frames are non-negative (`seq<nat>`), and so is the hop length.
- `visualize_chop_points` (lines 93-115) only draws a matplotlib plot and returns nothing.
- The result dictionaries become the `ChopPoint` datatype. The numpy-to-Python conversions `float(...)` and `int(...)` on lines 84-87 change no value in the model.

## Findings

| source | as written | input that shows it | evidently intended | confidence | as-written member | corrected member |
|---|---|---|---|---|---|---|
| samplechop/analyzer.py:67 | `min_samples = int(min_interval * sr / hop_length)` truncates. The spacing rule then lets through onsets closer than `min_interval`, which the docstring on line 38 calls the minimum time between chop points. | sr 22050, hop 512, min_interval 0.2 gives min_samples 8. Onsets at frames 0 and 8 are both kept, about 0.186 s apart. | Round the count up, so kept onsets are at least min_interval seconds apart. | medium; not executed | `MinInterval.AsWrittenSpacingBelowMinInterval` | `MinInterval.CorrectedSpacingInSeconds` |

`FindChopPoints` takes the frame count as an argument, so it behaves correctly
with either count. A caller that wants the documented guarantee computes the
count with `MinInterval.MinSamplesFor`.
