# Local meeting assistant: recorder and artifact naming

The local meeting assistant records a meeting from the microphone and saves a
WAV file. It transcribes the recording with a local speech model and
summarises the transcript with a local chat model. Every artifact the
pipeline names is joined below `output/`; a recording name given as an
absolute path is kept as it is, and the recorder's own test run writes
`test_recording.wav` in the working directory. This project models the two
self-contained pieces of that pipeline and proves properties about them:

- **The `AudioRecorder`** (module `Recorder`, `recorder.dfy`). It is a class
  with the fields of the source object: the sample rate and channel count,
  the `recording` flag, the `frames` buffer of sample blocks and the capture
  `thread`. Its methods mirror `start`, `stop`, the stream callback and
  `save`. The first three name what they change in a `modifies` clause
  and give the whole new state in their postconditions; `save` changes
  nothing and states what it writes and returns. `Valid()` states the invariant the join in `stop`
  provides: a capture thread runs exactly while the recorder is armed.
  The saved audio is the concatenation `Flatten` of the blocks. Lemmas
  show it has as many frames as all blocks together. Every frame of every
  block lands at its offset, in arrival order.
- **The naming and decision rules** of the command-line front end and the
  graphical one (module `Naming`, `naming.dfy`). These are pure functions:
  - the recording path from the user's name and a timestamp;
  - the transcript path from an audio path;
  - the summary path the pipeline derives with `str.replace`;
  - the summary path of `--summarize` mode;
  - the summary path of the graphical pipeline;
  - the `[Y/n]` continuation rule.

  They are built on small models of the Python primitives they use:
  - `str.strip`, `str.lower`, `str.endswith` and `str.replace` (module
    `Strings`, `strings.dfy`);
  - `os.path.basename`, `os.path.splitext` and `os.path.join` for POSIX
    paths (module `Paths`, `paths.dfy`).

Notable behaviour of the source that the model keeps and proves:

- The stream callback appends a block whether or not the recorder is
  armed. It never tests the flag. That no block arrives after `stop` is
  owed to the thread join alone, which `Valid()` records: the buffer itself
  does not refuse blocks once disarmed, and the model does not claim it
  does.
- `str.replace("_transcript.txt", "_summary.md")` replaces every
  occurrence. So the command-line naming rule and the graphical naming
  rule (gui.py:134, 152) give different summary names for an audio path
  exactly when its stem holds `_transcript.txt`
  (`SummaryPathAgreesWithGuiIff`, `SummaryPathDiffersWhenTagged`).
  `SummaryPathDiffersFromGui` gives both names for stems ending in the tag,
  such as `a_transcript.txt.wav`. The graphical front end itself only ever
  applies its rule to its own recording `output/meeting_<timestamp>.wav`
  (gui.py:106-115), and for that file the two rules agree
  (`GuiOwnRecordingAgrees`).
- `--summarize` removes every `_transcript` from a stem that ends with one,
  not just the final one (`SummarizeModeRemovesEveryTag`). Transcripts the
  tool wrote itself are still named consistently, as long as the audio stem
  does not contain `_transcript` (`SummarizeModeOfTranscriptPath`).
- A user-given recording name that starts with `/` is absolute, so `join`
  discards `output` (`RecordingPathShape`).

## Model

| member | source | states |
|---|---|---|
| Recorder.AudioRecorder.constructor | recorder.py:9-14 | defaults to 44100 Hz and one channel; the new recorder is disarmed with an empty buffer and no thread, and satisfies the thread invariant |
| Recorder.AudioRecorder.Start | recorder.py:28-38 | on an armed recorder the flag, buffer and thread are all unchanged; otherwise the recorder is armed, the buffer is emptied and a fresh running thread is installed; the thread invariant is preserved |
| Recorder.AudioRecorder.Stop | recorder.py:40-47 | afterwards the recorder is disarmed and the buffer is as before; a previously armed recorder's thread has been joined, and a disarmed recorder's thread is untouched |
| Recorder.AudioRecorder.Callback | recorder.py:22-26 | exactly one block, the delivered one, is appended at the end, with no condition on the flag, and the concatenated audio grows by exactly that block; the thread invariant is kept |
| Recorder.AudioRecorder.Save | recorder.py:49-61 | an empty buffer gives `None` and no write; otherwise the filename is returned and the write holds the filename, the recorder's rate and the 16-bit samples of the blocks joined in order, as many frames as all blocks together; nothing is modified |
| Recorder.TestRecording | recorder.py:63-69 | a default recorder started, fed any blocks, stopped and saved returns `test_recording.wav` and writes a file exactly when some block arrived; the write goes to `test_recording.wav` at 44100 Hz and holds the concatenation of those blocks, with the sum of their lengths as frame count |
| Recorder.CaptureThread.constructor | recorder.py:36 | a newly created thread is not running yet |
| Recorder.CaptureThread.Start | recorder.py:37 | the thread is running afterwards |
| Recorder.CaptureThread.Join | recorder.py:46 | the thread has finished afterwards |
| Recorder.FlattenConcat | recorder.py:56 | concatenating the blocks of two runs concatenates their audio |
| Recorder.FlattenLength | recorder.py:56 | the concatenated audio has as many frames as the sum of the block lengths |
| Recorder.FlattenIndex | recorder.py:56 | frame j of block i is at position (frames of the blocks before i) + j of the concatenation: blocks keep their order and content |
| Recorder.QuantizeBounds | recorder.py:59 | a sample in [-1, 1] scaled by 32767 and cast to int16 stays within ±32767 and differs from the scaled value by less than one, truncated toward zero |
| Strings.SkipSpaces | main.py:16 | the scan stops at the first non-whitespace character at or after the start, with only whitespace skipped |
| Strings.SkipSpacesBack | main.py:16 | the backward scan stops right after the last non-whitespace character, with only whitespace skipped |
| Strings.StripIsTrimmedInfix | main.py:16 | `strip` returns a contiguous slice with only whitespace cut off on either side, and its result starts and ends with non-whitespace |
| Strings.StripOfPadded | main.py:16 | stripping whitespace padding around a trimmed text gives back exactly that text |
| Strings.StripIdempotent | main.py:16 | stripping twice is stripping once |
| Strings.StripEmptyIffBlank | main.py:16-17 | the stripped text is empty exactly when the input is all whitespace |
| Strings.ReplaceAllAbsent | main.py:72 | a text without the pattern is unchanged by `replace` |
| Strings.ReplaceAllSkipsPrefix | main.py:72 | a prefix without the pattern's first character passes through `replace` unchanged |
| Strings.ReplaceAllAround | main.py:72 | for a pattern with no self-overlap, `replace` on x + pattern + y is replace(x) + replacement + replace(y) |
| Strings.ReplaceAllOfSuffixed | main.py:72 | for such a pattern, a text ending in the pattern ends in the replacement after `replace` |
| Strings.ReplaceAllShorter | main.py:72 | a replacement shorter than the pattern never lengthens the text, and shortens it whenever the pattern occurs |
| Strings.ReplaceAllKeepsCharOut | main.py:101 | `replace` introduces no character that is in neither the text nor the replacement |
| Strings.OccursPrefix | main.py:101 | a text containing a pattern contains every prefix of it |
| Paths.RFind | main.py:35 | the result is the last index holding the character, or -1 when there is none |
| Paths.BasenameIsFinalComponent | main.py:35 | `basename` is the suffix after the last separator: it has no separator and is preceded by one unless it is the whole path |
| Paths.SkipDotsFindsNonDot | main.py:35 | the leading-dot scan of `splitext` stops early exactly when the component has a character other than a dot before its last dot |
| Paths.SplitExtParts | main.py:35 | `splitext` loses no characters, and what it splits off is empty or one dot followed by neither dots nor separators, after a root component not made only of dots |
| Paths.SplitExtOfName | main.py:35 | for a name without separators, an extension is split off exactly when some dot follows a character other than a dot |
| Paths.SplitExtOfRootAndExt | main.py:35 | a root with a non-dot character followed by one dotted extension is split back into exactly that root and extension |
| Paths.StemParts | main.py:35 | the stem has no separator and is the base name with at most one dotted extension removed |
| Paths.JoinRelative | main.py:21 | a relative component is joined below the directory with one separator, and stays the final component |
| Naming.RecordingNameDefaults | main.py:16-18 | the name is never empty and is trimmed; a blank input gives `meeting`, any other its stripped form |
| Naming.RecordingPathShape | main.py:16-21 | the recording is `output/<name>_<timestamp>.wav`, or `<name>_<timestamp>.wav` for an absolute name; a blank input gives `output/meeting_<timestamp>.wav` |
| Naming.TranscriptPathShape | main.py:35-36 | the transcript is `output/<stem>_transcript.txt`, where the stem has no separator and is the audio base name with at most its last extension removed |
| Naming.RecordingTranscriptPath | main.py:16-36 | for a recording name n without `/` and a timestamp t of the `strftime` shape, the recording is transcribed to `output/<n>_<t>_transcript.txt` |
| Naming.SummaryPathOfTranscript | main.py:72 | the summary of any transcript path the pipeline builds is `output/` + the stem with every `_transcript.txt` replaced + `_summary.md`, so it ends in `_summary.md` |
| Naming.GuiSummaryPathShape | gui.py:152 | the graphical pipeline writes `output/<stem>_summary.md` |
| Naming.SummaryPathAgreesWithGui | gui.py:134-152 | when the stem holds no `_transcript.txt`, the command-line rule and the graphical rule name the same summary file |
| Naming.SummaryPathDiffersWhenTagged | gui.py:134-152 | whenever the stem holds `_transcript.txt` anywhere, the command-line rule's summary name differs from the graphical rule's |
| Naming.SummaryPathAgreesWithGuiIff | gui.py:134-152 | the command-line and graphical rules give the same summary name exactly when the stem holds no `_transcript.txt` |
| Naming.DefaultStemUntagged | gui.py:106-107 | a stem `meeting_<timestamp>` never holds `_transcript.txt` |
| Naming.GuiOwnRecordingAgrees | gui.py:106-115 | for the graphical front end's own recording `output/meeting_<timestamp>.wav`, both rules name the summary `output/meeting_<timestamp>_summary.md` |
| Naming.SummaryPathOfTaggedStem | main.py:72 | a stem x + `_transcript.txt` is summarised to `output/<x>_summary.md_summary.md`, which differs from the graphical rule's name |
| Naming.SummaryPathDiffersFromGui | main.py:86 | for every audio name x + `_transcript.txt.wav` with x free of `/` and of `_transcript.txt` (such as `a_transcript.txt.wav` or `_transcript.txt.wav`) the command-line and graphical rules name the summary differently, and both names are given |
| Naming.SummarizeModePathShape | main.py:99-103 | `--summarize` writes `output/<stem>_summary.md` with a stem that has no separator, and keeps a stem not ending in `_transcript` unchanged |
| Naming.TranscriptStem | main.py:99 | the stem of a transcript path the tool built is the audio stem + `_transcript` |
| Naming.SummarizeModeOfTranscriptPath | main.py:99-103 | for a transcript the tool built from a stem without `_transcript`, `--summarize` names the summary exactly as the command-line and graphical rules do |
| Naming.SummarizeModeRemovesEveryTag | main.py:100-101 | for any x and y free of `/` and of `_transcript`, `--summarize` on `<x>_transcript<y>_transcript.txt` writes `output/<x><y>_summary.md`: every `_transcript` is removed, not only the final one |
| Naming.LowerIsDecline | main.py:67-68 | the lower-cased answer is `n` exactly when the answer is `n` or `N` |
| Naming.ProceedUnlessNo | main.py:67-68 | the prompt proceeds exactly when the stripped answer is neither `n` nor `N`; a blank answer proceeds |
| Naming.PaddedNoDeclines | main.py:83-84 | `n` or `N` surrounded by whitespace declines |

## Left out

- The `sounddevice` input stream, the `sd.sleep` polling loop and the real thread (recorder.py:16-20, created and started at recorder.py:36-37 and joined at recorder.py:46). These are device I/O and concurrency. The thread is a `CaptureThread` object whose `alive` flag stands for "the capture loop runs". `TestRecording` feeds the blocks the stream would deliver in a loop of callback calls.
- The status printout of the callback and the messages of `start`, `stop` and `save`. They are console output.
- Recorder.AudioRecorder.Callback: the unused `frames`, `time` and `status` arguments are dropped. A block is a sequence of rows of reals, not a NumPy array, so nothing ties a block's row width to the channel count.
- Recorder.AudioRecorder.Save: the `ValueError` that `np.concatenate` (recorder.py:56) raises for blocks of different row widths is not modelled; such a buffer still gives a write. The stream always delivers blocks `channels` wide, so this case does not arise from the callback.
- Recorder.Quantize: the scaling by 32767 is exact real arithmetic. The source multiplies float32 samples, so the product is rounded to float32 before the cast truncates it. A written sample can therefore differ from the model's value by one step: the float32 sample nearest 16384/32767 gives 16384 in the file but 16383 in the model.
- Recorder.QuantizeBounds: it covers samples in [-1, 1] only. A NumPy float-to-int16 cast of an out-of-range value has no defined result, so `Quantize` gives the unbounded truncated value there.
- The WAV encoding by SciPy. `Save` returns the write it would make (file name, rate, samples) instead of writing a file. The channel count of the file follows the row width there.
- transcriber.py, summarizer.py and the rest of gui.py (layout, status label, background threads) are not part of this model. They wrap foreign engines and user-interface code.
- Argument parsing, `input()` prompts, `open`/`write`, `os.makedirs` and the interactive menu's dispatch on the typed choice. These are I/O. The choice-1 path (main.py:117-120) uses the same naming functions.
- `time.strftime("%Y%m%d_%H%M%S")` is a clock read. The timestamp is a parameter, and `IsTimestamp` describes its shape.
- Strings.Lower: it lower-cases ASCII letters only. For the test against `n` this is exact, since no other character lower-cases to `n`.
- Strings.ReplaceAll: it requires a non-empty pattern. Python's empty-pattern `replace` (inserting between characters) is never used here.
- Paths.Join: it covers two components, the only form used.

