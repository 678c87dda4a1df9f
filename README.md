# crimelapse compute core in Dafny

crimelapse builds timelapses out of a folder of dash-cam clips. Its compute core:

- probes every clip and lays the clips end to end, ordered by creation time, into a **timeline**;
- samples the timeline at a fixed frame rate and writes one JPEG per frame, in order, through an **encoder**;
- reads each clip's overlaid latitude and longitude. Frames are cut into fixed-pitch glyph cells, each cell becomes a black and white mask, masks are scored against a reference alphabet, and the two strings read off are parsed as coordinates;
- optionally, clusters every glyph mask it sees, for building that alphabet, and outlines the glyph cells on a frame, for aligning them;
- runs all of this on a small **worker pool**. The pool hands out jobs from a shared queue, and a reorder stage delivers the results in submission order.

The Dafny modules follow the source files:

| module | file | source |
|---|---|---|
| `Wrappers` | wrappers.dfy | `Option`, `Result`, `Outcome`, and `Collect`, which stands for collecting an iterator of `Result`s |
| `Digits` | digits.dfy | the decimal digits and zero-padded fields of chrono's `%Y_%m%d_%H%M%S` |
| `Workers` | workers.dfy | compute/workers.rs |
| `Timelines` | timeline.dfy | compute/timeline.rs |
| `Timelapse` | timelapse.dfy | compute/timelapse.rs |
| `Glyph` | glyph.dfy | compute/glyph.rs |
| `Organize` | organize.dfy | compute/glyph/organize.rs |
| `Annotate` | annotate.dfy | compute/glyph/annotate.rs |

Conventions:

- Durations are `nat` nanoseconds. Integer `Duration` division is floor division.
- An f64 similarity `matched / total` is kept as the exact pair `Score(matched, total)`. A zero total stands for NaN, which compares false.
- Every input that comes from outside is a parameter of the operation that reads it:
  - the cancellation flag;
  - the `ffprobe` result;
  - the extracted and decoded frames;
  - the success of each file write;
  - the time-zone conversion;
  - the order in which worker results arrive.
- The worker threads are modelled in two parts:
  - the shared queue itself (`Workers.Inner`);
  - the order in which the reorder thread receives results, which may be any permutation of the tagged results.
- Imperative code stays imperative:
  - the job queue and the JPEG encoder are classes whose methods update their fields;
  - `draw_rect_outline` and `annotate_image` write into an `array2`;
  - the loops of the reorder thread, of `Timeline::new`, of `timelapse`, of `scrape_string`, of `load_glyph_masks` and of `organize_glyphs` are `while`/`for` loops, each proved equal to a specification function;
  - properties are proved about those functions.

## Model

| member | source | states |
|---|---|---|
| Workers.ThreadCount | src-tauri/src/compute/workers.rs:77-88 | the pool has `max(threads, 1)` workers: as many as asked for, and one when asked for none |
| Workers.Inner.constructor | src-tauri/src/compute/workers.rs:33-41 | a new queue is empty and not shut down |
| Workers.Inner.Push | src-tauri/src/compute/workers.rs:43-50 | a job is appended at the back of the queue unless the queue is shut down, in which case nothing changes |
| Workers.Inner.NextJob | src-tauri/src/compute/workers.rs:52-63 | a non-empty queue hands out its front job and keeps the rest in order; an empty queue reports closed after shutdown and makes the worker wait otherwise |
| Workers.Inner.WorkerLoop | src-tauri/src/compute/workers.rs:66-70 | a worker runs exactly the queued jobs, in queue order, empties the queue, then waits or stops according to the shutdown flag |
| Workers.Tagged | src-tauri/src/compute/workers.rs:143-148 | job k of a batch carries index k and task k |
| Workers.EnqueueIndexed | src-tauri/src/compute/workers.rs:134-152 | `run_indexed_channel` appends the tagged batch to the queue in submission order, or nothing once shut down |
| Workers.RunBatchOnOneWorker | src-tauri/src/compute/workers.rs:134-152 | on a fresh queue, one worker runs the tagged batch in submission order |
| Workers.RunBatchesOnOneWorker | src-tauri/src/compute/workers.rs:184-199 | one pool reused for successive batches: round r runs exactly batch r, tagged, in submission order; after each round the worker waits instead of ending, and the queue is empty and open again |
| Workers.Results | src-tauri/src/compute/workers.rs:125-132 | `run_channel` drops the indices and keeps the arrival order |
| Workers.ResultsPermute | src-tauri/src/compute/workers.rs:125-132 | permuting the arrivals permutes their results |
| Workers.RunChannelPermutes | src-tauri/src/compute/workers.rs:125-132 | `run_channel` yields every task's result exactly once, in some order |
| Workers.Drain | src-tauri/src/compute/workers.rs:111-116 | defines the inner loop: remove and send the result numbered `next_expected` while it is buffered, and stop for good on a refused send |
| Workers.Arrive | src-tauri/src/compute/workers.rs:108-116 | defines one arrival: buffer the result under its index, then drain; nothing happens after the thread has returned |
| Workers.Run | src-tauri/src/compute/workers.rs:104-120 | defines the reorder thread's state after a sequence of arrivals, starting from `next_expected = 0` and an empty buffer |
| Workers.ReorderStage | src-tauri/src/compute/workers.rs:104-120 | the reorder thread's loops send exactly what the reorder state machine `Run` sends |
| Workers.DrainBuffer | src-tauri/src/compute/workers.rs:111-116 | the inner `while let` loop ends in the state the drain function gives, stopping at the first failed send |
| Workers.RunStep | src-tauri/src/compute/workers.rs:108-117 | one more arrival is one more buffered result followed by a drain |
| Workers.DrainProgress | src-tauri/src/compute/workers.rs:111-116 | a drain sends one result per step of `next_expected`, and only results that were buffered; it never fails without a dropped receiver, and it never passes the receiver's drop point |
| Workers.DrainRemoves | src-tauri/src/compute/workers.rs:111-116 | a drain removes exactly the keys it passes over, keeps the other buffered results untouched, and stops only where the key `next_expected` is missing (or on a failed send) |
| Workers.DrainFacts | src-tauri/src/compute/workers.rs:111-116 | the two groups of drain facts above together |
| Workers.DrainAgrees | src-tauri/src/compute/workers.rs:111-116 | a drain keeps the sent prefix and the buffer in agreement with the batch's results |
| Workers.RunFacts | src-tauri/src/compute/workers.rs:104-120 | after any arrivals, every sent index and every buffered key has arrived; every arrived index at or past `next_expected` is still buffered; the stage stops only when the receiver was dropped, and never sends more than the receiver accepts |
| Workers.RunAgrees | src-tauri/src/compute/workers.rs:104-120 | when arrivals carry their own task's result, the stage agrees with the batch after each arrival |
| Workers.EmitsInIndexOrder | src-tauri/src/compute/workers.rs:104-120 | whatever the arrival order, what is sent is a prefix of the results in submission order |
| Workers.StopsAtGap | src-tauri/src/compute/workers.rs:111-116 | no result past a missing index is ever sent |
| Workers.StoppedStays | src-tauri/src/compute/workers.rs:112-114 | after a failed send the thread has returned: later arrivals change nothing |
| Workers.SendsAtMostAccepted | src-tauri/src/compute/workers.rs:112-114 | after the receiver drops out following m results, at most m are sent |
| Workers.NoStaleKeys | src-tauri/src/compute/workers.rs:106-116 | with distinct indices the buffer only ever holds keys above `next_expected` |
| Workers.PermutationIsDistinct | src-tauri/src/compute/workers.rs:143-148 | any arrival order of a tagged batch has distinct indices |
| Workers.OrderedChannel | src-tauri/src/compute/workers.rs:94-123 | for every arrival order of the tagged results, `run_ordered_channel` yields exactly the results in submission order and leaves the buffer empty |
| Workers.SubmissionOrderExample | src-tauri/src/compute/workers.rs:161-173 | the unit test: jobs of 30, 5 and 15 that finish as 5, 15, 30 arrive in the order 30, 5, 15 |
| Timelines.Iter | src-tauri/src/compute/timeline.rs:57-60 | the clips in timeline order, without their offsets |
| Timelines.InsertByCreation | src-tauri/src/compute/timeline.rs:104 | defines one insertion by creation time, after the clips created no later |
| Timelines.SortByCreation | src-tauri/src/compute/timeline.rs:104 | defines the sort model as insertion of each clip in turn |
| Timelines.Offsets | src-tauri/src/compute/timeline.rs:58 | the offsets in timeline order, one per clip |
| Timelines.Valid | src-tauri/src/compute/timeline.rs:106-113 | defines a well-formed timeline: each offset is the sum of the lengths before it, and the duration is the sum of all lengths |
| Timelines.InsertSorted | src-tauri/src/compute/timeline.rs:104 | inserting by creation time into a sorted list keeps it sorted and adds exactly the one clip |
| Timelines.InsertPermutes | src-tauri/src/compute/timeline.rs:104 | insertion adds exactly the one clip |
| Timelines.InsertKeepsSorted | src-tauri/src/compute/timeline.rs:104 | insertion keeps the list sorted by creation time |
| Timelines.SortSorts | src-tauri/src/compute/timeline.rs:104 | `sort_unstable_by_key(creation_time)` returns a permutation of its input, sorted by creation time |
| Wrappers.Collect | src-tauri/src/compute/timeline.rs:100-103 | collecting results succeeds if and only if every result is Ok, and then keeps every value in order; otherwise it fails with the error of the first failing result |
| Wrappers.CollectKeepsError | src-tauri/src/compute/glyph.rs:244 | the first error of a prefix is the error of the whole collection |
| Timelines.CollectClips | src-tauri/src/compute/timeline.rs:100-103 | collecting the probe results gives all clips, or the first error in submission order |
| Timelines.LayOut | src-tauri/src/compute/timeline.rs:106-113 | the fold lays the sorted clips end to end: each offset is the sum of the lengths before it, and the duration is the sum of all lengths |
| Timelines.New | src-tauri/src/compute/timeline.rs:77-121 | `Timeline::new` fails exactly when some clip failed, with the first failure; otherwise it returns a well-formed timeline of exactly the probed clips, sorted by creation time |
| Timelines.OffsetsArePrefixSums | src-tauri/src/compute/timeline.rs:106-113 | the first clip starts at 0; each clip starts where the previous one ends; offsets never decrease; every clip ends by the duration, and the last ends exactly at it |
| Timelines.SumLengthsMonotone | src-tauri/src/compute/timeline.rs:106-113 | a running sum of lengths never decreases |
| Timelines.Len | src-tauri/src/compute/timeline.rs:133-135 | `len` is the total length of the clips |
| Timelines.BinarySearch | src-tauri/src/compute/timeline.rs:124-127 | what std promises of `binary_search_by_key` on sorted offsets: an index holding the target, or the insertion point, below which every offset is smaller and from which every offset is larger |
| Timelines.GetAtIndex | src-tauri/src/compute/timeline.rs:123-132 | the index `get_at` reads is a clip starting at or before `t`, and no clip that starts at or before `t` starts later |
| Timelines.GetAt | src-tauri/src/compute/timeline.rs:123-132 | `get_at(t)` returns one of the timeline's clips with its offset: one starting at or before `t`, and at the latest start among such clips |
| Timelines.GetAtFindsPlayingClip | src-tauri/src/compute/timeline.rs:123-132 | a time inside clip i maps to clip i's offset: either clip i itself or an empty clip at the same offset |
| Timelines.StrictOffsets | src-tauri/src/compute/timeline.rs:106-113 | without empty clips the offsets strictly increase |
| Timelines.GetAtExact | src-tauri/src/compute/timeline.rs:123-132 | without empty clips `get_at` returns exactly the clip playing at `t` |
| Timelines.GetAtInsideClip | src-tauri/src/compute/timeline.rs:123-132 | without empty clips, every time before the duration falls inside the clip `get_at` returns |
| Timelines.GetAtPastEnd | src-tauri/src/compute/timeline.rs:123-132 | a time at or past the duration maps to the last offset, and to the last clip when no clip is empty |
| Timelines.DatePrefix | src-tauri/src/compute/timeline.rs:47-48 | a parsed prefix has `_` at positions 4 and 9, as the pattern `%Y_%m%d_%H%M%S` demands |
| Timelines.ClipFileName | src-tauri/src/compute/timeline.rs:47 | a file name written in the camera's layout has a 16-character date prefix |
| Timelines.DatePrefixRoundTrip | src-tauri/src/compute/timeline.rs:47-48 | parsing the first 16 characters of a file name written in that layout gives back its date-time, whatever follows |
| Timelines.LayoutFields | src-tauri/src/compute/timeline.rs:47-48 | where each zero-padded field and each `_` sits in the 16-character prefix |
| Timelines.ProcessClip | src-tauri/src/compute/timeline.rs:22-54 | `TimelineClip::process` fails on cancellation ("job is cancelled"), then on a probe failure ("probe info"), then on a missing name, an unparsable prefix or an ambiguous local time ("parse timestamp from path"); otherwise the clip has the converted creation time, the probed length and the path |
| Timelines.ProcessClipReadsName | src-tauri/src/compute/timeline.rs:22-54 | a clip whose name carries its date-time in the camera's layout gets that time, converted, as its creation time |
| Digits.Padded | src-tauri/src/compute/timeline.rs:48 | a zero-padded field has exactly its width |
| Digits.PaddedReadsBack | src-tauri/src/compute/timeline.rs:48 | a padded field is all digits and reads back as the number it was written from |
| Timelapse.NumFrames | src-tauri/src/compute/timelapse.rs:72 | `(len * fps) as u32` is the product when it fits, and saturates at `u32::MAX` otherwise |
| Timelapse.Timestamps | src-tauri/src/compute/timelapse.rs:73-74 | `(skip..=num_frames)` has `num_frames - skip + 1` timestamps, and none when `skip > num_frames` |
| Timelapse.TimestampsBounds | src-tauri/src/compute/timelapse.rs:73-74 | every timestamp is within the timeline; consecutive timestamps are `len / num_frames` apart; the last lies less than `num_frames` nanoseconds before the end |
| Timelapse.TimestampsOrdered | src-tauri/src/compute/timelapse.rs:73-74 | the timestamps never decrease, and strictly increase once the timeline is at least `num_frames` nanoseconds long |
| Timelapse.SkipDropsPrefix | src-tauri/src/compute/timelapse.rs:73-74 | skipping k frames drops exactly the first k timestamps of the unskipped grid |
| Timelapse.LastTimestampIsDuration | src-tauri/src/compute/timelapse.rs:73-74 | when `num_frames` divides the length, the last timestamp is the timeline's end |
| Timelapse.FrameRequest | src-tauri/src/compute/timelapse.rs:88-90 | a frame is extracted from the clip `get_at` returns, at the timestamp less that clip's offset |
| Timelapse.FrameJob | src-tauri/src/compute/timelapse.rs:86-97 | a frame job fails with "job is cancelled" when cancelled, before any clip is looked up, so an empty timeline is allowed; otherwise it is the extraction of the frame request: the clip `get_at` returns, at the timestamp less its offset |
| Timelapse.FrameJobExtractsPlayingClip | src-tauri/src/compute/timelapse.rs:86-97 | without empty clips, an uncancelled job extracts from the clip playing at the timestamp, at the offset into it |
| Timelapse.FrameRequestInsideClip | src-tauri/src/compute/timelapse.rs:88-90 | without empty clips, a timestamp before the end is requested inside the clip's length |
| Timelapse.RequestAtDuration | src-tauri/src/compute/timelapse.rs:88-90 | the timestamp at the timeline's end is requested from the last clip, at its full length |
| Timelapse.JpgTimelapseEnc.constructor | src-tauri/src/compute/timelapse.rs:26-31 | a new JPEG encoder has counted no frames and written no file |
| Timelapse.JpgTimelapseEnc.EncodeFrame | src-tauri/src/compute/timelapse.rs:34-41 | the frame counter moves on even when the write fails; the file under the new number holds the frame when the write succeeds; the call fails exactly when the write fails |
| Timelapse.JpgTimelapseEnc.Finish | src-tauri/src/compute/timelapse.rs:16-18 | the default `finish` succeeds |
| Timelapse.Step | src-tauri/src/compute/timelapse.rs:101-108 | defines one loop step: a failed extraction is only reported; a frame is counted and either written or the run returns with that frame's index; after a return nothing changes |
| Timelapse.Consume | src-tauri/src/compute/timelapse.rs:100-114 | defines the loop as the steps over the job results in frame order |
| Timelapse.ConsumeStep | src-tauri/src/compute/timelapse.rs:100-114 | consuming one more job result is one more loop step |
| Timelapse.FailureStays | src-tauri/src/compute/timelapse.rs:103-104 | after a failed encode the loop has returned: later jobs change nothing |
| Timelapse.ConsumeFrames | src-tauri/src/compute/timelapse.rs:100-115 | the loop over the ordered job results leaves the encoder as the consumer function says; it returns the failed frame's index on an encode failure and finishes otherwise |
| Timelapse.RunTimelapse | src-tauri/src/compute/timelapse.rs:63-117 | `timelapse` samples the grid `Timestamps`, runs one frame job per timestamp, and consumes the results in timestamp order as the consumer function says |
| Timelapse.ConsumeAllWritten | src-tauri/src/compute/timelapse.rs:100-114 | when every write succeeds, the successful extractions are written in order to consecutive file numbers after the counter; failed extractions take no number; no other file changes |
| Timelapse.WriteNext | src-tauri/src/compute/timelapse.rs:34-41 | one more written frame extends the numbered run by one and changes no other file |
| Timelapse.FailureIsFirstBadWrite | src-tauri/src/compute/timelapse.rs:103-104 | an encode failure is reported at the first successful extraction whose write failed |
| Timelapse.FirstBadWriteFails | src-tauri/src/compute/timelapse.rs:103-104 | the first failed write of a successful extraction is where the run fails, after counting every successful extraction up to it |
| Timelapse.ConsumeFailsAtFirstBadWrite | src-tauri/src/compute/timelapse.rs:100-114 | the run fails at frame i if and only if frame i is the first successful extraction whose write failed |
| Timelapse.NoFailureMeansWritten | src-tauri/src/compute/timelapse.rs:100-114 | the run finishes if and only if every successful extraction was written |
| Timelapse.ConsumeCounts | src-tauri/src/compute/timelapse.rs:100-114 | a finished run counted exactly the successful extractions |
| Glyph.MaskPixel | src-tauri/src/compute/glyph.rs:50-61 | a pixel becomes white (255) if and only if the truncated average of its channels is at least 220 and the spread of its channels is at most 30; otherwise it becomes black (0) |
| Glyph.WhiteIsBright | src-tauri/src/compute/glyph.rs:46-56 | a white pixel has every channel at least 200 |
| Glyph.GrayThreshold | src-tauri/src/compute/glyph.rs:46-56 | a gray pixel is white if and only if its level is at least 220 |
| Glyph.MaskFrom | src-tauri/src/compute/glyph.rs:44-65 | `GlyphMask::from` keeps the image's dimensions and classifies each pixel in place |
| Glyph.Weight | src-tauri/src/compute/glyph.rs:30-34 | a pixel pair weighs 15 when either pixel is bright, and 1 otherwise |
| Glyph.Tally | src-tauri/src/compute/glyph.rs:26-39 | defines the weighted tally of matched and total weight over the first n pixel pairs |
| Glyph.Similarity | src-tauri/src/compute/glyph.rs:23-42 | defines the score as the tally over the zipped pixel streams, which stop at the shorter stream |
| Glyph.Exceeds | src-tauri/src/compute/glyph.rs:97 | defines `score > best` on the exact ratios, false whenever either is NaN |
| Glyph.ScoreSimilarity | src-tauri/src/compute/glyph.rs:23-42 | the loop's tally is the weighted score over the zipped pixel streams |
| Glyph.TallyBounds | src-tauri/src/compute/glyph.rs:26-39 | the matched weight never exceeds the total, which lies between 1 and 15 per pixel |
| Glyph.TallySymmetric | src-tauri/src/compute/glyph.rs:26-39 | the tally does not depend on which mask comes first |
| Glyph.SimilaritySymmetric | src-tauri/src/compute/glyph.rs:23-42 | `a.score_similarity(b) == b.score_similarity(a)` |
| Glyph.TallySelf | src-tauri/src/compute/glyph.rs:26-39 | a stream matched against itself matches everywhere |
| Glyph.SelfSimilarity | src-tauri/src/compute/glyph.rs:23-42 | a mask scores exactly 1 against itself, or NaN when it has no pixels |
| Glyph.TallyBlackWhite | src-tauri/src/compute/glyph.rs:26-39 | all black against all white matches nowhere, and every pair weighs 15 |
| Glyph.BlackWhiteSimilarity | src-tauri/src/compute/glyph.rs:23-42 | an all-black mask against an all-white mask of the same size scores 0 matched over a total of 15 per pixel |
| Glyph.ExceedsAsymmetric | src-tauri/src/compute/glyph.rs:97 | no two scores exceed each other |
| Glyph.BelowNewBest | src-tauri/src/compute/glyph.rs:97-100 | a score that did not beat the old best is below a new best, unless it is NaN |
| Glyph.AbovePositive | src-tauri/src/compute/glyph.rs:94-100 | anything above a positive best is positive |
| Glyph.Pick | src-tauri/src/compute/glyph.rs:93-101 | the search's pick is one of the scores, or no pick with the starting score 0.0 |
| Glyph.PickIsFirstMaximum | src-tauri/src/compute/glyph.rs:93-101 | there is no pick if and only if no score is above 0; a pick is above 0; no score beats the pick; every earlier score is below the pick or NaN |
| Glyph.ScoresAgainst | src-tauri/src/compute/glyph.rs:95-96 | the score against each reference mask, in order |
| Glyph.BestMatch | src-tauri/src/compute/glyph.rs:93-101 | the inner search loop computes the pick over the score list |
| Glyph.CellRect | src-tauri/src/compute/glyph.rs:80-84 | every cell of a row has the row's top edge, width and height |
| Glyph.CellsAbut | src-tauri/src/compute/glyph.rs:80-84 | the first cell starts at `right`, and each cell starts where the previous one ends |
| Glyph.Crop | src-tauri/src/compute/glyph.rs:83 | `crop_imm` clamps the origin into the image and the size to what remains of it, and copies those pixels |
| Glyph.CropInside | src-tauri/src/compute/glyph.rs:83 | a cell wholly inside the image is cut out at its own size and place |
| Glyph.Glyphs | src-tauri/src/compute/glyph.rs:86-89 | a row yields exactly `columns` masks, cell by cell |
| Glyph.Chosen | src-tauri/src/compute/glyph.rs:93-103 | defines the string pushed for one cell: the best match's string, or "" when nothing scores above 0 |
| Glyph.RowString | src-tauri/src/compute/glyph.rs:90-106 | defines a row's string as the chosen strings of its cells, in column order |
| Glyph.ChosenIsBestMatch | src-tauri/src/compute/glyph.rs:93-103 | a cell reads as one of the alphabet's strings, or as nothing when no reference scores above 0; a reference that strictly beats all others and scores above 0 is the one chosen |
| Glyph.ScrapeString | src-tauri/src/compute/glyph.rs:90-106 | the loop concatenates the chosen strings of the cells in column order |
| Glyph.RowStringPerColumn | src-tauri/src/compute/glyph.rs:90-106 | with one-character alphabet entries and every cell recognised, the row's string has one character per column, each the chosen string of its cell |
| Glyph.LoadEntry | src-tauri/src/compute/glyph.rs:131-133 | defines one entry's load: its string with the luma mask, or the load error |
| Glyph.LoadGlyphMasks | src-tauri/src/compute/glyph.rs:128-136 | the reference masks in configuration order, each the loaded luma image; the first load error aborts |
| Glyph.DigitRunEnd | src-tauri/src/compute/glyph.rs:148 | `\d+` extends to the end of the run of digits |
| Glyph.MatchAt | src-tauri/src/compute/glyph.rs:147-152 | defines an anchored attempt of the pattern at one position, with the regex crate's greedy choice of two or three major digits |
| Glyph.MatchAtSound | src-tauri/src/compute/glyph.rs:148-151 | a match at p is the pattern's text at p: a cardinal, a separator, 2 or 3 digits, a separator, then digits up to the first non-digit |
| Glyph.MatchAtComplete | src-tauri/src/compute/glyph.rs:148-151 | wherever the text admits the pattern there is a match |
| Glyph.MatchAtPrefersThree | src-tauri/src/compute/glyph.rs:148-151 | where a three-digit major part fits, the greedy `\d{2,3}` takes it |
| Glyph.DigitRunIsDecimal | src-tauri/src/compute/glyph.rs:148 | the digit run from q is exactly the decimal group when no digit follows it |
| Glyph.Find | src-tauri/src/compute/glyph.rs:160-161 | `captures` finds the leftmost position with a match, and no match exists before it; no match anywhere means none is found |
| Glyph.ParseLatLng | src-tauri/src/compute/glyph.rs:159-173 | `parse_lat_lng` fails, with "match regular expression", if and only if the pattern matches nowhere |
| Glyph.Reading | src-tauri/src/compute/glyph.rs:165-170 | defines the value the captures spell, as the exact decimal `major.decimal` (a `Coord`), negated for the second cardinal |
| Glyph.ParseReadsLeftmostMatch | src-tauri/src/compute/glyph.rs:159-173 | a parsed value is read from the leftmost match: negative for the second cardinal, its digits those of `major.decimal` |
| Glyph.ParseExampleNorth | src-tauri/src/compute/glyph.rs:159-173 | "N 40 7128" parses as +40.7128 |
| Glyph.ParseExampleWest | src-tauri/src/compute/glyph.rs:159-173 | "W:074.0060" parses as -74.0060, with the three-digit major part |
| Glyph.ParseExampleNoSeparator | src-tauri/src/compute/glyph.rs:148 | "N40.7128" does not parse: the pattern wants a separator after the cardinal |
| Glyph.FromStrings | src-tauri/src/compute/glyph.rs:145-158 | `LatLng::from_strings` succeeds if and only if both parses do, with their values; a bad latitude is reported first ("parse latitude"), then a bad longitude ("parse longitude") |
| Glyph.ScrapeClipLocation | src-tauri/src/compute/glyph.rs:175-208 | cancellation and frame errors propagate; otherwise the location is parsed from the first two rows' strings, and a parse failure gives the default location |
| Glyph.ScrapeLocations | src-tauri/src/compute/glyph.rs:210-247 | the scrape succeeds if and only if there are no clips, or it is not cancelled and every clip's frame was obtained |
| Glyph.ScrapeLocationsPerClip | src-tauri/src/compute/glyph.rs:233-244 | a successful scrape has one location per clip, in timeline order: the parsed one, or the default for clips whose strings do not parse |
| Organize.AtLeastThreshold | src-tauri/src/compute/glyph/organize.rs:8 | defines `best_score >= 0.85` on the exact ratio, false for NaN |
| Organize.ZeroBelowThreshold | src-tauri/src/compute/glyph/organize.rs:8 | the search's starting score 0.0 is below the threshold 0.85 |
| Organize.Classify | src-tauri/src/compute/glyph/organize.rs:29-44 | a mask is filed under a valid index of the kept masks; those are unchanged, or the mask is appended |
| Organize.ClassifyJoinsOrAppends | src-tauri/src/compute/glyph/organize.rs:29-44 | a mask joins a kept mask if and only if the best score reaches 0.85. It then joins the search's pick, which is at least 0.85 similar and not beaten by any kept mask. Otherwise it is appended and filed under the new last index |
| Organize.Step | src-tauri/src/compute/glyph/organize.rs:29-46 | defines the filing of one mask: classify it, then export it under its cluster and the next number |
| Organize.Fold | src-tauri/src/compute/glyph/organize.rs:27-49 | defines the filing of a stream of masks in order |
| Organize.ClusterAll | src-tauri/src/compute/glyph/organize.rs:18-56 | defines the clustering of a stream, starting from no kept masks and counter 0 |
| Organize.FoldConcat | src-tauri/src/compute/glyph/organize.rs:20-56 | filing two streams one after the other is filing their concatenation |
| Organize.ClusterNumbering | src-tauri/src/compute/glyph/organize.rs:45-46 | every mask is exported exactly once, numbered by its position in the stream; at most one mask is kept per mask seen |
| Organize.ClusterMembership | src-tauri/src/compute/glyph/organize.rs:29-44 | every exported mask is filed under a kept mask, and is either that cluster's representative or at least 0.85 similar to it |
| Organize.ClusterPrefix | src-tauri/src/compute/glyph/organize.rs:18-56 | the kept masks and the exports only grow: a prefix of the stream yields prefixes of both |
| Organize.FirstMaskStartsCluster | src-tauri/src/compute/glyph/organize.rs:29-44 | the first mask always starts cluster 0 |
| Organize.FirstError | src-tauri/src/compute/glyph/organize.rs:20-24 | the first clip whose frame could not be obtained, or the number of clips |
| Organize.FileMask | src-tauri/src/compute/glyph/organize.rs:29-46 | the innermost loop body files one mask into the clustering and counts it |
| Organize.OrganizeRow | src-tauri/src/compute/glyph/organize.rs:28-49 | the loop over a row's cells files them in column order |
| Organize.OrganizeFrame | src-tauri/src/compute/glyph/organize.rs:27-50 | the loops over a frame file its cells row by row |
| Organize.FrameMasksStep | src-tauri/src/compute/glyph/organize.rs:27-28 | one more row adds that row's cells after the others |
| Organize.AllMasksStep | src-tauri/src/compute/glyph/organize.rs:20-28 | one more clip adds its frame's cells after the others |
| Organize.OrganizeGlyphs | src-tauri/src/compute/glyph/organize.rs:10-60 | `organize_glyphs` succeeds if and only if every clip's frame was obtained, and otherwise fails with the first clip's error; the clustering covers every cell of the clips before that one |
| Organize.FirstErrorAt | src-tauri/src/compute/glyph/organize.rs:20-24 | the clip where the run stops is the first that failed |
| Annotate.ClampTo | src-tauri/src/compute/glyph/annotate.rs:20-23 | `clamp(0, n - 1)` lies below n, is at most its input, and is either its input or n - 1 |
| Annotate.Corners | src-tauri/src/compute/glyph/annotate.rs:17-23 | the clamped corners lie in the image and not beyond the rectangle's own corners |
| Annotate.Drawn | src-tauri/src/compute/glyph/annotate.rs:25-37 | defines the pixels the outline sets: none when the clamped box is empty, otherwise its border rows and columns |
| Annotate.NoEarlyReturn | src-tauri/src/compute/glyph/annotate.rs:25-27 | a rectangle at least one pixel wide and high never takes the early return |
| Annotate.ZeroWidthDrawsNothing | src-tauri/src/compute/glyph/annotate.rs:25-27 | a zero-width rectangle inside the image takes the early return and draws nothing |
| Annotate.OutlineOfInsideRect | src-tauri/src/compute/glyph/annotate.rs:16-38 | for a rectangle inside the image, a pixel is drawn if and only if it lies on the rectangle's border |
| Annotate.DrawnInsideBox | src-tauri/src/compute/glyph/annotate.rs:16-38 | drawn pixels lie in the image and inside the clamped box |
| Annotate.DrawRectOutline | src-tauri/src/compute/glyph/annotate.rs:16-38 | every pixel on the clamped box's border takes the colour; every other pixel keeps its old value |
| Annotate.CellDrawable | src-tauri/src/compute/glyph/annotate.rs:45-50 | the cells of a drawable row satisfy the outline's precondition |
| Annotate.InRow | src-tauri/src/compute/glyph/annotate.rs:44-52 | defines the pixels drawn by the first `cols` cells of a row |
| Annotate.InRows | src-tauri/src/compute/glyph/annotate.rs:43-53 | defines the pixels drawn by all cells of the rows |
| Annotate.InRowIff | src-tauri/src/compute/glyph/annotate.rs:44-52 | a pixel is drawn for a row if and only if it lies on the outline of one of the row's cells |
| Annotate.InRowsIff | src-tauri/src/compute/glyph/annotate.rs:40-54 | a pixel is drawn for the rows if and only if it lies on the outline of some cell of some row |
| Annotate.InRowsStep | src-tauri/src/compute/glyph/annotate.rs:43-53 | one more row adds its cells' outlines |
| Annotate.AnnotateImage | src-tauri/src/compute/glyph/annotate.rs:40-54 | every pixel on some cell's outline turns red (255, 0, 0); every other pixel keeps its old value |

## Left out

- The worker threads, the `Condvar` and the `Mutex` are left out. Their effect on results is modelled as the queue class plus an arbitrary arrival order at the reorder thread. The terminal `drop(ordered_tx)` is not modelled.
- The pool never shuts down: nothing in workers.rs sets `shutdown`, and the thread handles collected in `WorkerPool::new` are dropped, so the workers are detached. `Workers.Inner` still models the `shutdown` flag that `push` and `next_job` read.
- `WorkerPool::new`'s spawning of threads is reduced to `ThreadCount`.
- The empty-batch test (workers.rs lines 176-181) is covered by `OrderedChannel` over empty results. There is no separate lemma for it.
- I/O is replaced by parameters. This covers `ffmpeg::probe`, `ffmpeg::extract_frame`, image decoding, `image::open` and `std::fs::write`. The saves in `organize_glyphs` and `annotate_frames` are not modelled.
- `GlyphConfig::from_resources` (reading and deserialising the JSON configuration) is left out. Resource path resolution is left out.
- Progress events (`set_progress`) and their text are left out. So are the warning strings for frames that could not be extracted.
- The Mp4 encoder (`Mp4TimelapseEnc`) is left out, because it drives an ffmpeg child process.
- `annotate_frames` (annotate.rs lines 56-93) is left out apart from the `annotate_image` it calls for each clip. It is a loop of frame extraction and file saves.
- `Timelapse.RunTimelapse`, `Timelapse.FrameJob`: an empty timeline, which `Timeline::new` returns for a folder with no clips, is allowed only when the job is cancelled. Then every frame job fails before `get_at`, and the run finishes with no frames. An uncancelled job on an empty timeline underflows at `i - 1` in `get_at` (timeline.rs line 129) and panics, killing its worker thread. That panic, and the result loop then waiting for ever on the lost results, is not modelled.
- `Timelapse.RunTimelapse` follows release builds: when `skip > num_frames`, line 75's `u32` subtraction would panic in a debug build. Its result only feeds progress reports, so the model runs no frames and finishes.
- `Timelapse.NumFrames`: the `f64` product of seconds and fps is taken on whole seconds. Fractional seconds are not modelled.
- `Timelapse.Timestamps`: a zero frame count with no skip divides by zero in the source. This is the function's precondition. Overflow of `frame_n * (len / num_frames)` is not modelled.
- `Timelines.ProcessClip`: the time-zone conversion (`chrono_tz`, `single()`) is a parameter. A name shorter than 16 characters, where the source's slice panics, is excluded by the precondition. Names are ASCII; a slice off a character boundary is not modelled.
- `Timelines.DatePrefix`: only chrono's zero-padded fields are read. Range checks of months, days and hours, and chrono's other leniencies, are not modelled.
- `Timelines.SortSorts`: `sort_unstable` may order equal creation times in any way. The model fixes one order, and only sortedness and permutation are claimed.
- The `Timeline::iter` accessor used by the other files is not in the available source of timeline.rs. Its clip order is modelled by `Timelines.Iter`.
- `Glyph.ScoreSimilarity`: the final `f64` division is kept as an exact ratio. Two scores are compared exactly. The threshold 0.85 is compared as `20 * matched >= 17 * total`. f64 rounding is not modelled.
- `Glyph.ParseLatLng`: the value is kept as an exact decimal. The f64 parse and its rounding are not modelled. The regular expression is modelled for its one pattern over ASCII digits: Unicode `\d` is not modelled. The "invalid cardinal" arm (line 171) is unreachable, because the pattern only captures the two cardinals.
- Errors are message strings. Where the source adds a `.context` label to a failing call, the model returns that label: "probe info", "parse timestamp from path", "match regular expression", "parse latitude", "parse longitude". The errors underneath are not kept, among them "get filename from path", "from_local_datetime not single", chrono's parse error and the "unmatched by regular expression" message. Labels added with `with_context` ("extract frame {i}", "encode frame {i}", "scrape_clip_location for {path}") are not kept either. Cancellation keeps its own message, "job is cancelled".
- `Timelapse.JpgTimelapseEnc.EncodeFrame`: a failed write fails with the fixed message "write frame file". It stands for the io error of `std::fs::write`, which is not modelled.
- `Glyph.ScrapeClipLocation` requires at least two glyph rows, where the source indexes `strings[0]` and `strings[1]`.
- `Glyph.Crop`, `Annotate.AnnotateImage`: the 32-bit arithmetic `right + col * width` and `x + width` is unbounded here. Wrap-around is not modelled.
- `Annotate.DrawRectOutline` requires a non-empty image and `x + width >= 1`, `y + height >= 1`. For other inputs the source's `u32` subtractions underflow.
- annotate.rs's own `Rect` struct is modelled by `Glyph.Rect`, which has the same fields.
- `Organize.OrganizeGlyphs`: cancellation, extraction and decoding errors of a clip are one error parameter per clip. The export path format (`glyph/{:02}/g_{:04}.bmp`) is modelled as the pair (cluster, number).
