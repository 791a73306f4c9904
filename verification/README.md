# Ground-truth half-splitter for MOT annotation files

This project models `process_gt_file` from `gen_val_half_gt.py`. The function turns a
Multiple-Object-Tracking ground-truth table into its validation half. Every row has nine numeric
fields: frame, track id, x, y, w, h, flag, class and confidence. The function works in five steps:

1. It takes the sorted distinct frame numbers F and picks `mid_frame = F[|F| / 2]`, the distinct
   frame with exactly `|F| / 2` frames below it (the upper median when `|F|` is even).
2. It keeps the rows whose frame is strictly greater than `mid_frame`, in their original order.
3. It builds a dictionary from `(old frame, track)` to 1, 2, 3, … for each track, in ascending
   old-frame order. It then rewrites column 0 of the kept table in place.
4. It sorts the table stably by track id and then by the new frame (`np.lexsort`).
5. It formats each row and writes the line twice. Fields 0-7 are truncated to integers and field 8
   is the confidence.

Modules, one per step, each in its own file:

- `GtRows` (`rows.dfy`): the row record, its columns and the remap key.
- `Ordering` (`ordering.dfy`): the meanings of `sorted` and `np.unique`, plus counting and
  cardinality lemmas.
- `HalfSplit` (`half_split.dfy`): the split frame and the second-half filter. These are pure
  functions.
- `FrameRemap` (`frame_remap.dfy`): the dictionary built by nested loops, as methods over a `map`,
  and the in-place rewrite of an `array`.
- `TrackSort` (`track_sort.dfy`): the stable two-key sort, as a pure function.
- `GtOutput` (`output.dfy`): formatting and the doubled write, as methods with loops.
- `GenValHalfGt` (`gen_val_half_gt.dfy`): `process_gt_file` itself and the end-to-end lemmas.

Modelling choices:

- Fields are `real`s, standing for the parsed floats. `int(val)` is written out as truncation
  toward zero (`Truncate`).
- Parsing produces a table of rows, which is the input. The output is a sequence of lines, and a
  line is a sequence of nine tokens.
- The docstring of `process_gt_file` says it keeps "the first half of frames". The code keeps
  frames strictly greater than `mid_frame`, which is the second half. The model follows the code.
- Rows can repeat a `(frame, track)` key. The dictionary loop then assigns the same key several
  times, and the last assignment wins. So the new frame of key `(f, t)` is the number of kept rows
  of track `t` whose frame is at most `f` (`NewFrame`).
- This means the remap is strictly increasing across distinct old frames. Repeated old frames
  share one number, so the remap is only non-decreasing overall.
- The new frames of a track are exactly 1..K when that track repeats no frame
  (`NoRepeatedFrames`). Other tracks may repeat theirs.
- An empty table makes numpy raise an `IndexError` at `data[:, 0]`. The model returns
  `Err(EmptyTable)` instead of requiring a non-empty input.

## Model

| member | source | states |
|---|---|---|
| `Ordering.UniqueSorted` | gen_val_half_gt.py:21 | `np.unique` on a column: the result is strictly ascending and holds exactly the values of the column |
| `Ordering.SortAsc` | gen_val_half_gt.py:38 | `sorted(track_frames)`: an ascending permutation of its argument |
| `HalfSplit.MidFrame` | gen_val_half_gt.py:21-24 | the split frame is a frame that occurs in the (non-empty) input |
| `HalfSplit.MidFrameRank` | gen_val_half_gt.py:21-24 | exactly `\|F\| / 2` distinct frames lie below the split frame and `\|F\| - \|F\| / 2 - 1` above it |
| `HalfSplit.SecondHalfKeeps` | gen_val_half_gt.py:27 | a row is kept, with all its copies, exactly when its frame is strictly greater than the split frame; otherwise it is dropped |
| `HalfSplit.SecondHalfKeepsOrder` | gen_val_half_gt.py:27 | the filter keeps input order: for each `(frame, track)` key, the rows carrying it are kept in their input order when the frame exceeds the split frame, and dropped otherwise |
| `HalfSplit.SecondHalfRowsAreAbove` | gen_val_half_gt.py:27 | every kept row is an input row whose frame exceeds the split frame |
| `HalfSplit.SecondHalfEmptyIff` | gen_val_half_gt.py:21-27 | nothing is kept iff the split frame is the maximum frame, iff the input has at most two distinct frames |
| `FrameRemap.TrackFrames` | gen_val_half_gt.py:34-35 | the masked frame column of track `t` has one entry per row whose track id is `t` |
| `FrameRemap.TrackFramesMembers` | gen_val_half_gt.py:34-35 | the masked frame column of track `t` holds exactly the frames of the rows with track `t` |
| `FrameRemap.NumberTrack` | gen_val_half_gt.py:37-39 | zipping ascending frames with 1, 2, 3, … leaves each frame mapped to its count of frames at most it (its last position); other tracks' entries are untouched |
| `FrameRemap.BuildRemap` | gen_val_half_gt.py:30-39 | the dictionary has one key per kept `(frame, track)` pair, and each key holds `NewFrame` |
| `FrameRemap.NewFrameBounds` | gen_val_half_gt.py:33-45 | each rewritten frame is a whole number in 1..K, where K is the number of kept rows of the row's track |
| `FrameRemap.NewFrameMonotone` | gen_val_half_gt.py:38-39 | within a track a smaller old frame gets a strictly smaller new frame, and a smaller-or-equal one a smaller-or-equal new frame |
| `FrameRemap.RemapInjective` | gen_val_half_gt.py:33-39 | when track `t` repeats no frame, no two rows of track `t` share a new frame |
| `FrameRemap.RemapOnto` | gen_val_half_gt.py:33-39 | when track `t` repeats no frame, every value 1..K is the new frame of some row of track `t` (with `RemapInjective`: exactly 1..K) |
| `FrameRemap.Renumbered` | gen_val_half_gt.py:42-45 | the rewrite keeps the number of rows and every field except column 0 of every row |
| `FrameRemap.RenumberInPlace` | gen_val_half_gt.py:42-45 | the in-place loop sets column 0 of each row to the dictionary entry for the row's own key and changes nothing else |
| `TrackSort.LexSort` | gen_val_half_gt.py:48-49 | the result is ordered by track id, then by frame, and is a permutation of the input |
| `TrackSort.LexSortStable` | gen_val_half_gt.py:48 | the sort is stable: rows with equal (track, frame) keys keep their relative order |
| `GtOutput.Truncate` | gen_val_half_gt.py:60 | `int(val)` truncates toward zero: the result is within 1 of the value, on the side of zero |
| `GtOutput.FormatRow` | gen_val_half_gt.py:55-61 | a line has exactly nine tokens: columns 0-7 as truncated integers, column 8 as the confidence |
| `GtOutput.WriteLines` | gen_val_half_gt.py:53-63 | there are exactly twice as many lines as rows, and line `j` is the rendering of row `j / 2`, so lines 2i and 2i+1 are equal |
| `GenValHalfGt.ProcessGtFile` | gen_val_half_gt.py:5-63 | fails exactly on an empty table; otherwise it produces `2 \|ValHalfRows\|` lines, and line `j` renders row `j / 2` of the filtered, renumbered and sorted table |
| `GenValHalfGt.ValHalfRowsProperties` | gen_val_half_gt.py:27-49 | output rows are sorted by (track, frame); there is one per kept row, and each is a kept input row with a frame after the split, changed only in a frame now in 1..K |
| `GenValHalfGt.PermutedRenumbering` | gen_val_half_gt.py:42-49 | any reordering of the renumbered rows consists of kept rows changed only in a frame in 1..K |
| `GenValHalfGt.EmptyOutputIff` | gen_val_half_gt.py:21-63 | the output is empty exactly when the input has at most two distinct frames |
| `GenValHalfGt.ScenarioTwoFrames` | gen_val_half_gt.py:21-27 | frames {1, 2}: the split frame is 2 and nothing is kept |
| `GenValHalfGt.ScenarioThreeFrames` | gen_val_half_gt.py:21-49 | frames {1, 2, 3} on one track: only the frame-3 row is kept, and it is renumbered to frame 1 |

## Left out

- Reading the input file, splitting lines on commas and parsing floats (lines 14-18). The input is
  the already-parsed table. Malformed lines, which fail the parse, are not modelled.
- Writing the output file (line 52). The result is the sequence of lines in write order.
- The `.5f` rendering of the confidence (line 58). The token `Fixed5` carries the value that is
  printed, so floating-point formatting is not modelled.
- Floating-point specifics: NaN, infinities, signed zero and rounding are not modelled, because
  fields are exact reals.
- `np.unique` and `np.lexsort` are modelled by their mathematical meaning: sorted distinct values,
  and a stable sort by (track, frame). numpy's algorithms are not modelled.
- The unused `start_frame` (line 36) has no effect on the result.
- `process_mot_sequence` and `main` (lines 66-100) are not part of this model: directory walking,
  existence checks, `os.makedirs` and the `print` messages.
