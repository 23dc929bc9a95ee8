# Hard-subtitle extraction pipeline, modelled in Dafny

The repository turns subtitles burned into a video into a SubRip (`.srt`)
file, then translates that file. It has three stages, each a script.

1. `extractor.py` crops a fixed subtitle region from each frame. Inside each
   scene it compares every region with the one before it. A large difference
   opens a subtitle. The first small difference closes it. A closed subtitle
   longer than the debounce of `int(fps * 0.2)` frames is saved as a `.png`
   image. The image is named `HH_MM_SS_mmm__HH_MM_SS_mmm.png` after the times
   of its first and last frame.
2. `ocr_processor.py` recognises the text of every image. It cleans the text
   into one line and reads the two times back from the file name. It keeps one
   block per start time and writes the blocks sorted by start time and
   numbered from 1.
3. `translator.py` parses a SubRip file into entries, asks a language model to
   translate each text, and writes the entries back with the same index and
   time line.

The model has one module per file:

- `Wrappers`: `Option`.
- `Text`: the Python string operations the scripts use. These are `split`,
  `join`, `strip`, `lstrip`, `replace` and `endswith`, plus the order that
  `sorted` puts strings in.
- `Numerals`: `str(n)`, `f"{n:0Nd}"` and `int(s)`.
- `Timestamp`: `frames_to_time_str`.
- `Detector`: the per-scene frame loop.
  - It is a step function and its fold.
  - A characterisation stated without the loop says which intervals are saved.
  - A method with a `while` loop is proved equal to the fold.
- `Extractor`: `main` of `extractor.py`.
  - The folder wipe, the two early exits, and the scene loop that saves images.
  - The `--roi` argument.
- `Srt`: the SubRip block layout. The OCR writer and the translator writer
  share it.
- `OcrProcessor`: the text cleanup, the name-to-time parsing, the `srt_blocks`
  dictionary filled image by image, and the sorted, numbered write.
- `Translator`: `parse_srt`, the empty-text guard and the prompt, the output
  loop and the progress bar.

The loops of the source are methods with loop invariants. Each method is
proved equal to a function, and the source's promises are lemmas about that
function. External effects are parameters:

- **Extractor:**
  - the folder is a map from names to contents;
  - the video is the sequence of its frames;
  - each scene seeks to its first frame, and a given number of reads then
    succeed before the first failed read ends that scene's loop;
  - cropping and the difference score are functions.
- **OCR:**
  - recognition is a function from image name to the downloaded text, or none;
  - the thread pool's completion order is a sequence of names.
- **Translator:**
  - the language model is a function from prompt to answer;
  - a missing input file is `None`.

Only a frame rate of exactly 0 is replaced by 25; a negative rate is used
as it is. The `.png` files are wiped before the region and scene checks, so a
run that exits early has already emptied the folder of images.

The cleanup is documented as removing leading underscores and spaces. It
strips `_` and space first and whitespace second. So a text that starts with
a tab and then `_` keeps that `_`: `"\t_x"` gives `"_x"`. `CleanupShape`
states only what holds for every input.

## Model

| member | source | states |
|---|---|---|
| Timestamp.FramesToTimeStr | extractor.py:103-113 | `frames_to_time_str`: the clock of the frame with `_` between all four fields. Its properties are stated by the lemmas below. |
| Timestamp.ClockOf | extractor.py:105-111 | The clock's total milliseconds are the exact elapsed time, truncated to a millisecond. For a frame count >= 0 and fps > 0, minutes and seconds are below 60 and milliseconds below 1000. |
| Timestamp.ZeroFpsIsTwentyFive | extractor.py:105-106 | A frame rate of 0 gives the same string as 25 frames per second, which is 40 ms per frame. |
| Timestamp.FramesToTimeStrLayout | extractor.py:103-113 | For a frame count >= 0, fps > 0 and under 100 hours, the string is `dd_dd_dd_ddd`: twelve characters, `_` at positions 2, 5 and 8, digits elsewhere. |
| Timestamp.ClockMonotonic | extractor.py:106-111 | For a fixed fps > 0, a later frame never has an earlier time. |
| Timestamp.StampOrder | extractor.py:112-113 | For clocks under 100 hours, string order of the stamps is time order, and equal stamps mean equal clocks. |
| Timestamp.FramesToTimeStrSorted | extractor.py:103-113 | For a fixed fps > 0 and under 100 hours, the string of a later frame never sorts before the string of an earlier one. |
| Numerals.Pad3 | extractor.py:113 | `f"{ms:03d}"` for 0 <= ms < 1000 is the hundreds, tens and units digits. |
| Numerals.PadIntShape | extractor.py:112-113 | A padded field is non-empty, ends in a digit and holds only digits after an optional minus sign. |
| Numerals.IntToStringParses | extractor.py:217 | `int(str(n)) == n` for every integer, negative ones included. |
| Detector.Window | extractor.py:154-164 | The regions read for a scene are the video's frames from the scene's first frame on. Reading stops at the scene end, at the end of the video, or at the first failed read after the seek. |
| Detector.ScanInvariant | extractor.py:160-188 | After k frames the state records the run of changed frames still open and the previous region. Its saved intervals are exactly the closed runs longer than the debounce, in order. |
| Detector.SceneIntervalsExact | extractor.py:156-198 | An interval is saved for a scene iff either case holds. (1) It is a maximal run of changed frames, closed by an unchanged frame, longer than the debounce, and its image is the run's last region. (2) It is the run still open at the end of the scene, ending at the scene's last frame, and its image is the last region read. |
| Detector.SceneIntervalsOrdered | extractor.py:172-198 | A scene's intervals increase, with at least one frame between one interval and the next. |
| Detector.SceneIntervalsBounds | extractor.py:156-198 | Every saved interval has first < start <= end <= sceneEnd - 1, so none starts at the scene's first frame. It also has end > start + debounce. |
| Detector.Step | extractor.py:168-188 | The transition for one frame: the first frame of a scene is only stored, a change opens an interval, and the first non-change closes it and saves it if it outlasts the debounce. Its properties are stated by ScanInvariant and SceneIntervalsExact. |
| Detector.Flush | extractor.py:190-198 | The end-of-scene step: an interval still open ends at the scene's last frame and is saved if it outlasts the debounce. Its properties are stated by SceneIntervalsExact. |
| Detector.DetectScene | extractor.py:154-198 | The frame loop with `last_img`, `subtitle_present` and `subtitle_start_frame`, plus the flush, saves exactly the intervals `SceneIntervals` defines for the scene's window, including when a read fails part way. |
| Extractor.DebounceFrames | extractor.py:179 | `int(fps * 0.2)`, truncated toward zero. Used as the debounce by Extract. |
| Extractor.ImageName | extractor.py:180-182 | The two time strings joined by `__`, then `.png`. Its properties are stated by ImageNameIsPng and OcrProcessor.ImageNameRoundTrip. |
| Extractor.Wiped | extractor.py:121-128 | The folder after the wipe: empty when it did not exist, else its non-`.png` files. Its properties are stated by ClearImages and PrepareFolder. |
| Extractor.ImageNameIsPng | extractor.py:180-182 | Every image name ends in `.png`. |
| Extractor.ClearImages | extractor.py:126-128 | The listing loop removes exactly the names ending in `.png` and leaves every other file and its contents. |
| Extractor.PrepareFolder | extractor.py:121-128 | A missing folder is created empty. An existing one keeps only its non-`.png` files. |
| Extractor.SaveIntervals | extractor.py:180-198 | Each interval writes its image under its name, and the count grows by one per interval. |
| Extractor.ScanScenes | extractor.py:150-198 | The count is the number of intervals over all scenes. The folder is the old one after every interval's image was written, in scene order. |
| Extractor.Extract | extractor.py:121-198 | With no region, or with a region but no scenes, the run ends with a distinct outcome and the folder only wiped. Otherwise `--roi` takes precedence over the interactive choice, and the count and folder are those of the scene loop. A failed read ends only its own scene. |
| Extractor.StoreUntouched | extractor.py:184 | A file that no write names keeps its contents. |
| Extractor.StoreNames | extractor.py:184 | After the writes, a name exists iff it existed before or some write used it. |
| Extractor.StoreLastWins | extractor.py:184 | A name holds what the last write to it wrote, so a rewritten name keeps the later image. |
| Extractor.ExtractImages | extractor.py:121-198 | After a finished run, the folder's `.png` names are exactly the names of the intervals found, none left from an earlier run. Its other files are exactly those it had before, with the same contents. |
| Extractor.AllIntervalsInScenes | extractor.py:153-198 | Every interval found lies strictly after the first frame of some scene and at or before that scene's last frame, and is longer than the debounce. |
| Extractor.ParseRoi | extractor.py:214-221 | A missing or empty `--roi` means interactive selection. Any other text gives a fixed region or the invalid-format exit. |
| Extractor.ParseFormatRoi | extractor.py:214-218 | The text `y1,y2,x1,x2` written from any region, negative numbers included, parses back to that region. |
| Srt.RenderJoin | ocr_processor.py:160-162 | A file of blocks is the blocks' bodies joined by blank lines, followed by one blank line. |
| Srt.RenderAppend | translator.py:126-132 | Writing two runs of entries one after the other writes the two files concatenated. |
| OcrProcessor.Cleanup | ocr_processor.py:78-79 | The non-empty lines joined by single spaces, then `lstrip('_ ')`, then `strip()`. Its properties are stated by CleanupShape and CleanupJoin. |
| OcrProcessor.CleanupShape | ocr_processor.py:78-79 | The cleaned text holds no line-break character and has no leading or trailing whitespace. |
| OcrProcessor.LinePiecesJoin | ocr_processor.py:78 | Splitting lines joined by line feeds at line breaks gives back those lines, when none holds a line break. |
| OcrProcessor.NonEmptyAppend | ocr_processor.py:78 | `filter(None, …)` of a concatenation is the concatenation of the filtered parts, so kept lines stay in order. |
| OcrProcessor.NonEmptyComplete | ocr_processor.py:78 | Every non-empty line is kept. |
| OcrProcessor.NonEmptyLinesJoin | ocr_processor.py:78 | The non-empty lines of break-free lines joined by line feeds are exactly those lines with the empty ones dropped. |
| OcrProcessor.CleanupJoin | ocr_processor.py:78-79 | Lines without breaks come out as their non-empty lines, in order, joined by single spaces. This holds when the first non-empty line starts with neither `_` nor space and the first and last are stripped. All-empty lines give the empty text. |
| OcrProcessor.LastDot | ocr_processor.py:137 | The position found holds the name's last dot; none is found iff the name has no dot. |
| OcrProcessor.SplitExtRoot | ocr_processor.py:137 | `os.path.splitext(name)[0]`: the name before its last dot, unless only dots precede it. Its properties are stated by LastDot and RootOfPng. |
| OcrProcessor.RootOfPng | ocr_processor.py:137 | `os.path.splitext` of `stem + ".png"` gives `stem` as the root, unless the stem is only dots. |
| OcrProcessor.SrtTime | ocr_processor.py:138-146 | One half of the name turned into a SubRip time. Its properties are stated by SrtTimeFields. |
| OcrProcessor.ParseImageName | ocr_processor.py:137-146 | The start and end times from an image name, or none where `time_parts[1]` would raise. Its properties are stated by ParseFieldName, ParseStampName and ImageNameRoundTrip. |
| OcrProcessor.SrtTimeFields | ocr_processor.py:139-141 | A half made of `_`-free fields turns into those fields but the last joined by `:`, then `,` and the last field. |
| OcrProcessor.ParseFieldName | ocr_processor.py:137-146 | For `A_B_..__E_F_...png` with non-empty, `_`-free fields, the start is `A:B:..,last` and the end likewise. |
| OcrProcessor.ParseStampName | ocr_processor.py:137-146 | A name made of two stamps with `_` separators reads back as the same stamps with `:` and `,` separators. |
| OcrProcessor.ImageNameRoundTrip | ocr_processor.py:137-146 | Parsing any name the extractor writes gives back both times of the interval, digit for digit, in SubRip layout. This holds for every frame pair and rate. |
| OcrProcessor.ParseImageNameAvoids | ocr_processor.py:137-146 | Times read from a name without line breaks hold none. |
| OcrProcessor.OcrTextClean | ocr_processor.py:78-79 | A non-empty recognised text is stripped and holds no line feed. |
| OcrProcessor.Entry | ocr_processor.py:136-148 | An image contributes no block iff its text is empty or its root has no `__`. Otherwise the key is the start time and the value is the `start --> end` line with the text. |
| OcrProcessor.EntryClean | ocr_processor.py:136-148 | A contributed block has an arrow in its time line, a stripped non-empty text and no line feed in either. |
| OcrProcessor.CuesKeys | ocr_processor.py:148 | There is a block for a start time iff some completed image contributes one under that time. |
| OcrProcessor.CuesLastWins | ocr_processor.py:148 | A start time holds the block of the last image that completed with that start time. |
| OcrProcessor.CompletionOrderKeys | ocr_processor.py:130-148 | The set of start times does not depend on the order in which the images complete. |
| OcrProcessor.CollectedStep | ocr_processor.py:130-153 | One more completed image either leaves the dictionary as it was or sets its start time to its block. |
| OcrProcessor.CollectBlocks | ocr_processor.py:130-153 | The loop over completed images builds exactly the dictionary that the images, folded in completion order, define. |
| OcrProcessor.SortedKeys | ocr_processor.py:159 | The sorted keys are the dictionary's keys, each exactly once. |
| OcrProcessor.SortedKeysIncreasing | ocr_processor.py:159 | The sorted keys strictly increase in string order. |
| OcrProcessor.Sorted | ocr_processor.py:159 | The sorting loop produces the keys in strictly increasing string order. |
| OcrProcessor.SortedIsChronological | ocr_processor.py:159 | For start times under 100 hours, a key sorted before another is an earlier time. |
| OcrProcessor.WriteBlocks | ocr_processor.py:160-162 | The writing loop outputs, for each key in order, its number counting from 1 and the stored block, followed by a blank line. |
| OcrProcessor.WriteSrt | ocr_processor.py:156-165 | Nothing is written iff there are no blocks. Otherwise the file is the numbered blocks in sorted key order. |
| OcrProcessor.WrittenRender | ocr_processor.py:160-162 | The file written is the SubRip file of entries numbered 1..n with each block's time line and text. |
| OcrProcessor.CuesClean | ocr_processor.py:136-148 | Every block collected from names without line breaks is clean. |
| OcrProcessor.CuesReadBack | ocr_processor.py:159-162 | Parsing the file written from clean blocks gives one entry per key in sorted order. Each entry has index `i+1`, the block's time line and its text. |
| OcrProcessor.OcrFileReadsBack | ocr_processor.py:136-162 | The translator's parser reads the OCR stage's output back as exactly its numbered blocks. |
| OcrProcessor.PngFiles | ocr_processor.py:118 | The images processed are exactly the listed names ending in `.png`. |
| OcrProcessor.ProcessFolder | ocr_processor.py:118-165 | No file is written iff there are no images or no image gave a block. Otherwise the file is the sorted, numbered blocks collected over the completion order. |
| Translator.ParseBlock | translator.py:25-38 | The entry one block yields, or none for a blank, short or malformed block. Its properties are stated by ParseBlockValid, ParseBody and ReadBlock. |
| Translator.ParseBlockValid | translator.py:25-34 | Every entry a block yields has an all-digit index, a time line with `-->` and stripped text. |
| Translator.ParsedValid | translator.py:22-38 | Parsing yields at most one entry per block, and each entry is valid. |
| Translator.ReadBlock | translator.py:25-38 | The block step: blank blocks, blocks with under three lines and malformed blocks are skipped. Otherwise the entry is lines 0 and 1 and the rest rejoined and stripped. |
| Translator.ParseSrt | translator.py:14-47 | A missing file gives no entries. Otherwise the entries are those of the stripped content's blank-line-separated blocks, in order. |
| Translator.ParseBody | translator.py:27-34 | A clean entry's three lines parse back to that entry. |
| Translator.ParseRender | translator.py:20-34 | Parsing a file of clean entries gives back exactly those entries. |
| Translator.Prompt | translator.py:55-66 | The prompt ends with the text. With a non-empty context it begins with the context section, then the task. Otherwise it begins with the plain task. |
| Translator.PromptMarksContext | translator.py:55-66 | The prompt opens with the context header iff a non-empty context is given. |
| Translator.Request | translator.py:51-66 | No request is made iff the text is empty. Otherwise the request is the prompt. |
| Translator.TranslateText | translator.py:49-51 | An empty text translates to the empty string without a request. |
| Translator.Translated | translator.py:126-132 | One entry per input entry, in order, with index and time line kept and the text translated. |
| Translator.TranslateFile | translator.py:115-133 | No output when parsing gives no entries. Otherwise the output is every entry's block, in order, with the translated text. |
| Translator.TranslationReadsBack | translator.py:126-132 | When the translations are non-empty, stripped single lines, the output parses back to the same indexes and time lines with the translated texts. |
| Translator.FloorDiv | translator.py:100 | Python's `//` rounds toward minus infinity, for either sign of the divisor. |
| Translator.ProgressBar | translator.py:97-101 | Only a zero total fails, on the division. |
| Translator.ProgressBarShape | translator.py:100-101 | For 0 <= iteration <= total and total > 0, the bar has exactly `length` characters. The first `length*iteration // total` are the fill, the rest `-`. |

## Left out

- The interactive region picker `select_subtitle_area` and its scale-ratio rounding. The picked region is a parameter.
- Scene detection, and a video that cannot be opened. The scene list is an input; `open_video` failing is not modelled.
- Frame decoding, cropping, `cv2.absdiff`/`np.sum` and `cv2.imwrite`. Frames and regions are opaque, and cropping and the score are functions. The number of successful reads after each scene's seek is an input. Seeking is taken to land exactly on the scene's first frame.
- Floating point.
  - Times and the debounce `int(fps * 0.2)` use exact reals truncated toward zero.
  - `np.modf` and `int(frac * 1000)` can differ from this by one millisecond.
- Timestamp.FramesToTimeStrLayout: only for under 100 hours, because a longer time has a wider hour field.
- Timestamp.FramesToTimeStrSorted: same bound, for the same reason.
- Python's `str.isdigit` and `int()` also accept non-ASCII digits. The model accepts only `0`-`9`.
- The `.png` wipe treats every listed `.png` name as a removable file. `os.remove` on a directory named `*.png` would raise, and that is not modelled.
- Google Drive authentication, the upload/export/delete calls, the retries with back-off and the error paths. The downloaded text of an image is a parameter, and none stands for every failure path, which returns `""`.
- The thread pool. Results are taken in a given completion order, a permutation of the images; CompletionOrderKeys shows the key set does not depend on it.
- The Gemini HTTP request, its retries and the reading of the JSON answer. The answer to a prompt is a parameter.
- Reading and writing files, UTF-8 decoding and universal-newline translation. A file's content is a string, and a missing input file is `None`.
- `print`, `tqdm` and the `sys.stdout` writes of the progress bar. The bar is modelled as a string.
- The progress bar's `{0:.1f}` percentage, which is floating point.
- ProgressBar: `fill` is a single character, though Python would repeat a longer string too.
- OcrProcessor.LinePieces: yields one more empty piece than `str.splitlines` for `\r\n` and after a final break. Only the non-empty pieces are used, so the cleanup result is the same.
- OcrProcessor.Sorted: selects the least remaining key each round, where Python's `sorted` uses Timsort. Both give the unique increasing order.
- `launcher.py`, the graphical front end that starts the three scripts.
