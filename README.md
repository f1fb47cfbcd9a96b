# Morganite text-to-speech pipeline, modelled in Dafny

Morganite reads a text file and synthesizes speech for it line by line. It
writes the result as a series of MP3 files of bounded duration. This project
models the deterministic core of that pipeline and proves properties of it:

- **Job list** (`InputLines.dfy`). The text file is split into lines as
  `BufRead::lines` splits it. Every line is trimmed with `str::trim` (Unicode
  White_Space), blank lines are dropped, and the survivors are numbered
  0 .. n-1 by `enumerate`.
- **Reorder loop** (`Reorder.dfy`). The consumer half of `main` receives
  `(position, result)` messages in completion order. It parks each one in a
  map keyed by position and hands the samples to the writer strictly in
  position order. `next_expected` tracks the next position to write.
- **Segmented writer** (`Writer.dfy`, `SegmentNames.dfy`). This is
  `Mp3Splitter`:
  - `frames_for_duration` turns a segment duration into a frame capacity.
  - `f32_to_i16` converts the samples.
  - The splitter spreads the frames over files `{prefix}_000.mp3`,
    `{prefix}_001.mp3`, …
  - A full file is rotated immediately when more frames of the same call
    remain, and lazily (on the next write) otherwise.
  - `finish_current` / `finalize` write the encoder's tail and flush.

`Mp3Splitter` is a class whose methods update its fields in place. The
writer's loop and the reorder loop are `while` loops with their invariants.
Line splitting, trimming and filtering are functions.

The codec library and the file system are foreign. Every foreign call is
counted, in call order, by `ioCalls`. Each writer is built with a fixed set
`ioFaults`, and call number `k` fails exactly when `k` is in that set. Every
error path of the source is reachable in the model this way. The foreign
calls are `File::create`, `Mp3Encoder::new`, `encode_interleaved`, writing
the encoded blocks, `finish`, writing the tail and `flush`.

The writer's state is seen through:

- the record of every file it has created (`OutFile`: the index its name was
  formatted from, its frame count, whether it was finished);
- a ghost stream `fed` of every PCM sample handed to an encoder.

The central property of the pipeline is proved of this model. After a clean
run, the encoders received the samples of positions 0, 1, 2, … in that
order, whatever order the results arrived in. The files tile that stream:
every file but the last holds exactly the capacity, and all are finished.

## Model

| member | source | states |
|---|---|---|
| Writer.FramesForDuration | src/writer.rs:21-27 | The frame count is the floor of nanos × rate / 10^9. It is `Err(DurationTooSmall)` exactly when that floor is 0 and `Err(DurationTooLarge)` exactly when it exceeds `u64::MAX`; otherwise it is `Ok` with a value of at least 1. |
| Writer.FramesForDurationMonotonic | src/writer.rs:21-27 | A longer segment duration never yields a smaller capacity. |
| Writer.Clamp | src/writer.rs:15 | The clamped sample lies in [-1, 1]. It equals the input when the input already lies there, is -1 for any input below -1, and is 1 for any input above 1. |
| Writer.ToPcm16 | src/writer.rs:13-17 | The converted sample lies in [-32767, 32767], so `i16::MIN` is never produced. The rest of its meaning is stated by `Writer.ToPcm16Bounds`. |
| Writer.Pcm | src/writer.rs:151-156 | Converting a buffer keeps its length: one PCM value per sample. `Writer.PcmAppend` states that conversion works piece by piece, which is what lets the loop convert chunk by chunk. |
| Writer.PcmAppend | src/writer.rs:151-156 | Converting `a + b` gives the conversion of `a` followed by that of `b`. |
| Writer.ToPcm16Bounds | src/writer.rs:13-17 | The converted sample lies in [-32767, 32767], within one unit of the scaled sample, with the sign of the input and truncated toward zero. |
| Writer.SegmentCount | src/writer.rs:135-176 | For files that tile a non-empty stream, the number of files is ceil(total frames / capacity). An empty stream leaves at most one file. |
| Writer.TilingDeterminedByTotal | src/writer.rs:135-176 | Two tilings with the same total are the same sequence of frame counts: where files are cut depends only on how many frames were written, not on how the writes were sized. |
| Writer.SplitExample | src/writer.rs:135-176 | At a capacity of 100 frames, mono writes of 40, 70 and 30 frames leave two files of 100 and 40 frames. |
| Writer.Mp3Splitter.New | src/writer.rs:49-76 | A config the encoder library refuses gives `InvalidConfig`. A duration error from `frames_for_duration` is returned as is. Either way no writer exists and no foreign call was made. Otherwise the writer starts at index 0 with no file open, no file created and the computed capacity. |
| Writer.Mp3Splitter.FinishCurrent | src/writer.rs:78-101 | With no file open it returns `Ok` and changes nothing. Otherwise the writer and encoder are taken, so no file is open afterwards, whatever happens. The open file is marked finished and the frame count reset only when finish, tail write and flush all succeed. It fails exactly when one of those calls fails, and the error is then a finish, tail-write or flush error. |
| Writer.Mp3Splitter.CreateSegment | src/writer.rs:106-116 | The index is bumped whether or not the calls succeed. On success one empty file numbered with the old index is appended and opened, with the frame count at 0. On failure no file is open, and the file list is either unchanged or has that one empty file appended (a file created before the encoder failed stays behind). |
| Writer.Mp3Splitter.OpenNext | src/writer.rs:103-119 | It succeeds exactly when no foreign call fails. Success finishes the open file, appends exactly one empty file with the next number, and adds no frames. A failure leaves no file open. A rotation away from a full file keeps the files tiled. |
| Writer.Mp3Splitter.FeedChunk | src/writer.rs:146-169 | The scratch buffer holds the converted chunk. On success the encoder was fed exactly that PCM, the open file grows by `take` frames, and nothing else changes. On failure no frames are counted. The tiling invariant is kept. |
| Writer.Mp3Splitter.Advance | src/writer.rs:138-175 | One pass of the loop. A full file is rotated without feeding anything. Otherwise min(room left, frames left) frames are fed, in order, and a file the pass filled is rotated at once only when frames of the call remain. It never overfills a file and keeps the fed stream a prefix of the call's PCM. |
| Writer.Mp3Splitter.FeedFrames | src/writer.rs:135-178 | The loop feeds exactly `total` frames, in order: `fed` grows by the PCM of the whole buffer and the files' frame total by `total`. It succeeds exactly when no foreign call fails, and a healthy writer stays healthy. A call that fits in the open file creates no file (lazy rotation). |
| Writer.Mp3Splitter.WriteInterleaved | src/writer.rs:121-179 | A channel count other than 1 or 2 and a partial trailing frame are rejected before any state change or foreign call. Otherwise it opens a first file if none is open and feeds len/ch frames in order. It succeeds exactly when no foreign call fails, and after success a file is open. |
| Writer.Mp3Splitter.WriteMono | src/writer.rs:181-188 | A writer not configured for one channel is refused with `NotMono` and left untouched. Otherwise it is `write_f32_interleaved`, with every sample a frame. |
| Writer.Mp3Splitter.Finalize | src/writer.rs:190-192 | It is a no-op when no file is open. It always leaves no file open and the frame counts unchanged, and it succeeds exactly when no foreign call fails. Success after a healthy run leaves every file finished, numbered 0, 1, 2, …, with the files tiling the stream. |
| Writer.Mp3Splitter.HealthySegmentCount | src/writer.rs:135-176 | A writer on which no call has failed holds ceil(frames written / capacity) files. |
| Writer.Mp3Splitter.NamesUsedOnce | src/writer.rs:106-109 | The files a writer creates have pairwise different names, so `File::create` never truncates an earlier segment. |
| SegmentNames.Decimal | src/writer.rs:106 | The decimal text of `n` is non-empty and all digits. It is "0" for 0 and has no leading zero otherwise. |
| SegmentNames.IndexText | src/writer.rs:106 | The `{:03}` index text is all digits. Its length is that of the decimal text, or 3 when that is shorter. It ends with the decimal text, and everything before it is `'0'`. It starts with a zero only when it is exactly three long. |
| SegmentNames.SegmentName | src/writer.rs:106 | The name `{prefix}_{index:03}.mp3` is five characters longer than the prefix plus the index text. `SegmentNames.SegmentNameParts` states its parts in order, and `SegmentNames.SegmentNamesDistinct` states that it is injective in the index. |
| SegmentNames.SegmentNameParts | src/writer.rs:106 | The name is the prefix, then `'_'`, then the index text, then `".mp3"`. |
| SegmentNames.IndexTextRoundTrip | src/writer.rs:106 | Zero padding loses nothing: the padded text reads back as the index. |
| SegmentNames.SegmentNamesDistinct | src/writer.rs:106 | Different indices give different file names. |
| InputLines.Lines | src/main.rs:121-123 | `lines()` gives no more lines than the text has characters, and no lines exactly for empty text. What the lines are is stated by `InputLines.LinesRoundTrip` and `InputLines.LinesHaveNoNewline`. |
| InputLines.LinesRoundTrip | src/main.rs:121-123 | On text without carriage returns, joining the lines with newlines gives back the text minus one final newline. |
| InputLines.LinesHaveNoNewline | src/main.rs:121-123 | No line contains a newline. |
| InputLines.Trim | src/main.rs:126 | `trim()` never lengthens a line. What it cuts is stated by `InputLines.TrimSpec`, `InputLines.TrimEnds`, `InputLines.TrimBlank` and `InputLines.TrimIdempotent`. |
| InputLines.TrimSpec | src/main.rs:126 | The trimmed line is a slice of the line, and everything cut off on either side is whitespace. |
| InputLines.TrimEnds | src/main.rs:126 | A non-empty trimmed line starts and ends with a non-whitespace character. |
| InputLines.TrimBlank | src/main.rs:126-129 | A line trims to empty exactly when it is all whitespace. |
| InputLines.TrimIdempotent | src/main.rs:126 | Trimming twice is trimming once. |
| InputLines.Kept | src/main.rs:124-130 | The `map(trim)`/`filter` chain keeps at most as many entries as it was given. Which entries it keeps is stated by `InputLines.KeptEntries`, `InputLines.KeptSkipsBlank` and `InputLines.KeptAreTrimmed`. |
| InputLines.TotalLines | src/main.rs:120-131 | `total_lines` has at most as many entries as the file has characters. It is the chain applied to the file's lines, so the `Kept` lemmas describe its entries. |
| InputLines.KeptEntries | src/main.rs:120-131 | Entry j of `total_lines` is the trimmed line at the j-th kept position, and the kept positions strictly increase, so file order is kept. |
| InputLines.KeptSkipsBlank | src/main.rs:124-130 | Every line the chain drops is all whitespace. |
| InputLines.KeptAreTrimmed | src/main.rs:124-130 | Every entry of `total_lines` is non-empty and already trimmed. |
| InputLines.Jobs | src/main.rs:152 | `enumerate` gives one job per line, and job i carries position i and the i-th line. |
| InputLines.JobsAreDense | src/main.rs:152-156 | The jobs for `total_lines` are numbered 0 .. n-1 in line order, one per kept line. No job text is empty or untrimmed, so the `unreachable!()` arm cannot be reached. |
| Reorder.WriteNext | src/main.rs:196-198 | Removing `next_expected` from the buffer and writing it succeeds exactly when no foreign call fails. On success the fed stream grows by exactly that position's samples and the files' frame total by their count. Both equal the drain so far extended by this position. The writer stays healthy. |
| Reorder.Drain | src/main.rs:196-201 | The inner loop writes ascending positions from `next_expected` with no gap, and stops at the first position not in the buffer. After a clean drain the buffer is the old buffer minus exactly those positions. The fed stream grows by their samples in position order, and the frame total by their count. A failed write stops it, with the failing position still in the old buffer. |
| Reorder.Receive | src/main.rs:193-201 | One received result is stored and drained. The reorder state (least missing position, what waits in the buffer) is kept for the arrivals seen so far. With unique positions, the fed stream and frame total stay the stream of positions 0 .. next_expected-1. |
| Reorder.BatchExtendsStream | src/main.rs:196-201 | Writing the recorded results of positions lo .. hi-1 in order after the stream of positions below lo gives the stream of positions below hi. |
| Reorder.FaithfulAfterDrain | src/main.rs:196-201 | With unique positions, a clean drain keeps the buffer and the fed stream faithful to the arrivals. |
| Reorder.Consume | src/main.rs:189-202 | It completes exactly when no result is an error and no write fails. `next_expected` then equals the least position that has not arrived, and every arrived position at or above it waits in the buffer. The first error result aborts the run before the result is stored. The model's outcome records that result's position and reason; the `expect_or_log` at src/main.rs:193 reports only the reason. At that abort, `next_expected` is the least position missing among the earlier arrivals, all of them at or above it wait in the buffer, and `next_expected` itself does not. Unless a write failed, with unique positions the encoders were fed the samples of positions 0 .. next_expected-1 in order. The files' frame total grew by their count, and the buffer holds no key below `next_expected`. |
| Reorder.PermutationDrainsAll | src/main.rs:189-202 | When the channel delivers each of 0 .. n-1 exactly once, the loop ends with `next_expected == n` and an empty buffer. |
| Reorder.Run | src/main.rs:189-209 | It completes exactly when no result is an error, the producer succeeds and no write or finalize fails. An error result ends it with that result's position and reason (the position is the model's outcome; `expect_or_log` reports only the reason). For a permutation of 0 .. n-1, a completed run fed all n results to the encoders in position order. The files' frame total grew by the length of that stream. After a healthy start every file is finished and the files tile the stream. From no files, there are ceil(frames / capacity) of them. |

## Left out

- The producer task (tokio `JoinSet`, semaphore, progress bar) is not modelled. So are `tts.rs` (the ONNX synthesis engine) and the CLI. The model takes what the producer sends: a sequence of `(position, result)` messages in arrival order, plus the producer's own final result as `producerOk`.
- Reorder.Consume, Reorder.Run, Reorder.Receive, Reorder.FaithfulAfterDrain: the fed-stream, frame-total and "no key below `next_expected`" properties are stated only when positions are unique. Uniqueness is a promise of the producer, which is not modelled. A position delivered twice after it was written would stay in the buffer.
- Reorder.Run, Reorder.Consume, Reorder.Receive, Reorder.Drain, Reorder.WriteNext require a writer configured for one channel (`channels == 1`). `main` builds it from `CHANNELS = 1` (src/main.rs:110). The `NotMono` refusal itself is modelled in `Writer.Mp3Splitter.WriteMono`.
- `main` (src/main.rs:115) builds a `writer::WavSplitter`, which src/writer.rs does not define. The reorder loop is modelled against `Mp3Splitter::write_f32_mono` and `finalize`, the only splitter in the source.
- After the channel closes, entries left in the buffer (positions never delivered) are dropped silently, as the code does. For a correct producer (a permutation), nothing is left: `Reorder.PermutationDrainsAll`.
- An error result aborts the run as soon as it arrives (src/main.rs:193), as the code does, even when its position is not yet needed.
- The channel count is checked on every write (src/writer.rs:125), as the code does. Construction does not check it.
- `Mp3EncoderConfig::validate` and the codec's own work are foreign. Validation is the parameter `configAccepted` of `New`. Encoding is one failing-or-not call whose output is the PCM it received.
- Writing the encoded blocks is modelled as one foreign call per chunk rather than one per block. The first failing block ends the call either way. The code makes no write at all when the encoder returns zero blocks (src/writer.rs:163). The model still makes the one call, which may fail.
- Writer.Mp3Splitter.FinishCurrent: the code skips the tail write when the encoder's tail is empty (src/writer.rs:93). The model always makes that call, which may fail, so it admits a failure the code cannot have there.
- A `BufWriter` that is dropped without flush after an error, and the bytes it may lose, are not modelled. A file is "finished" only after `finish_current` succeeds.
- Writer.ToPcm16Bounds: samples are exact reals, so `f32` rounding of `x * 32767` is not modelled. The conversion clamps, scales and truncates toward zero, as the `as i16` cast does for in-range values. NaN is not modelled.
- `u32` overflow of `index` and `usize` limits are not modelled: integers are unbounded. `frames_for_duration`'s `u128` product is proved to fit (`Writer.ProductFitsU128`), and its `u64` bound is modelled.
- Invalid UTF-8 in the text file (the `expect_or_log` on each line at src/main.rs:125) is not modelled. The text is a sequence of characters.
- Logging (`tracing`) and the synthesis time `took` carry no behaviour. `took` is kept in the data but not used.
