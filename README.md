# Local transcription script: segment assembly and repetition guards

This project models the deterministic core of `scripts/local_transcribe.py`, the
local speech-to-text helper of a live English/Spanish translation app. The script
hands an audio file to a Faster-Whisper model, collects the text segments the
model yields into one transcript, and prints a JSON result. Two guards protect
that transcript against the model's habit of looping on the same phrase:

- **Segment collection** (`Segments`). Each segment's text is whitespace-stripped
  and compared with the previous stripped text, which starts as the empty text.
  A counter of consecutive identical texts rises by one on a repeat and resets to
  0 on a change. The segment that brings the counter to 4 (the fifth identical
  text in a row) ends the loop: it is not appended, and no later segment is looked
  at. Texts longer than two characters are appended, each followed by a space, and
  the whole is stripped at the end. `CollectText` is that loop, proved against the
  specification function `Assemble`. The lemmas characterise the stop point
  independently (the first five identical consecutive texts), show that short
  texts add nothing yet still count as repeats, and show that later segments are
  ignored once the loop has stopped.
- **Repetition ratio** (`Repetition`). The transcript is split into words. When
  there are more than ten words and more than three times as many words as
  distinct words, only the first `min(50, n // 3)` words are kept, joined by
  single spaces.

Around them, `Cli` models the argument-count check with its default model size,
and the choice of device, weight precision, beam width and voice-activity filter
from whether CUDA is available. `LocalTranscribe.Transcribe` puts the pieces
together as `main` does. `Text` defines Python's `str.strip()`, `str.split()` and
`" ".join(...)` over a character predicate equal to Python's `str.isspace()`,
and proves that `split` undoes `join` on a list of words, and that joining the
words of any text is the same as collapsing its whitespace character by
character (`Collapse`).

The speech model is a foreign call. Its output enters the model as parameters:
the sequence of raw segment texts, and the detected language. The CUDA probe
enters as a boolean.

Python's ratio test `len(words) / len(set(words)) > 3` divides floating-point
numbers. The model states it as the integer comparison `n > 3 * u`.
`RatioTestIsIntegerTest` proves this equals the test over real numbers whenever
more than ten words are present, because then there is at least one distinct
word. Floating-point rounding cannot change the outcome for word counts below 2^52.

`Report` keeps every field of the result except the floating-point ones and the
millisecond timing fields.

## Model

| member | source | states |
|---|---|---|
| Text.Strip | scripts/local_transcribe.py:83 | the stripped text neither starts nor ends with whitespace |
| Text.StripIsSlice | scripts/local_transcribe.py:83 | the stripped text is a contiguous slice of the input, and everything cut off before and after it is whitespace |
| Text.Words | scripts/local_transcribe.py:108 | every word `split()` yields is non-empty and contains no whitespace |
| Text.JoinOfWordsIsCollapse | scripts/local_transcribe.py:108 | for every text, joining its words by single spaces gives the text read character by character with whitespace dropped at both ends and each inner whitespace run replaced by one space |
| Text.Join | scripts/local_transcribe.py:116 | `" ".join` of a non-empty list starts with its first element; `WordsOfJoin` states the inverse |
| Text.WordsOfJoin | scripts/local_transcribe.py:116 | splitting words joined by single spaces gives back exactly those words |
| Text.JoinTrimmed | scripts/local_transcribe.py:116 | joining non-empty trimmed texts gives a trimmed text, non-empty when any text is given |
| Segments.RepeatCount | scripts/local_transcribe.py:86-96 | the counter after segment i is positive exactly when its stripped text equals the previous one (the initial empty text before the first), and never exceeds i + 1 |
| Segments.RepeatCountIsRunLength | scripts/local_transcribe.py:86-96 | the repetition counter after segment i is at least k exactly when the k texts before it (the initial empty text included) all equal its text |
| Segments.StopsAtFirstFiveIdentical | scripts/local_transcribe.py:90-93 | the loop stops at the first segment that is the fifth of five identical consecutive stripped texts; no earlier segment is |
| Segments.Assemble | scripts/local_transcribe.py:99-102 | the transcript of the examined segments has no whitespace at either end, and is empty exactly when no text was appended |
| Segments.CollectText | scripts/local_transcribe.py:72-102 | the result is the kept texts of the examined segments, in input order, joined by single spaces, with no whitespace at either end |
| Segments.Kept | scripts/local_transcribe.py:99-100 | the texts appended, in order, are never more than the texts examined |
| Segments.KeptMembers | scripts/local_transcribe.py:99-100 | a text is appended exactly when it is a stripped segment text longer than two characters |
| Segments.ShortSegmentAddsNothing | scripts/local_transcribe.py:99-100 | removing a segment whose stripped text has two characters or fewer leaves the appended texts unchanged |
| Segments.LeadingBlanksSilence | scripts/local_transcribe.py:75-93 | four leading segments that strip to nothing stop the loop, so the transcript is empty whatever follows |
| Segments.LaterSegmentsIgnored | scripts/local_transcribe.py:90-93 | once the loop has stopped early, appending further segments does not change the transcript |
| Segments.NoRunKeepsAll | scripts/local_transcribe.py:81-100 | without five identical consecutive texts every segment is examined and every text longer than two characters is kept |
| Segments.SpacedStrips | scripts/local_transcribe.py:100-102 | stripping the kept texts, each followed by a space, gives them joined by single spaces |
| Repetition.GuardRepetition | scripts/local_transcribe.py:107-118 | the text changes exactly when there are more than ten words and more than three times as many words as distinct words; it then becomes the first min(50, n div 3) words joined by single spaces, a non-empty prefix of at most 50 words and fewer than the input's |
| Repetition.RatioTestIsIntegerTest | scripts/local_transcribe.py:109-112 | with more than ten words there is a distinct word, and the floating-point ratio test equals the integer test |
| Repetition.DistinctBounds | scripts/local_transcribe.py:110-111 | a word list has no more distinct words than words, and at least one distinct word when non-empty |
| Repetition.GuardKeepsTrimmed | scripts/local_transcribe.py:116 | the guard never puts whitespace at either end of a trimmed transcript |
| Cli.ParseArgs | scripts/local_transcribe.py:15-20 | one or two arguments after the script name are accepted, any other count is a usage error; the first is the audio path, the second the model size, which defaults to "small" |
| Cli.ParseArgsRoundTrip | scripts/local_transcribe.py:19-20 | reading a full command line gives back the path and model size it names |
| Cli.OmittedModelSizeIsDefault | scripts/local_transcribe.py:20 | leaving the model size out is the same as passing "small" |
| Cli.SelectSettings | scripts/local_transcribe.py:32-33 | CUDA available gives "cuda", "float16", beam 5 and VAD on; otherwise "cpu", "int8", beam 1 and VAD off |
| Cli.SettingsFollowDevice | scripts/local_transcribe.py:49-50 | half precision, beam search and voice-activity filtering are on exactly when the device is the GPU |
| LocalTranscribe.Transcribe | scripts/local_transcribe.py:14-132 | a usage error exactly for a wrong argument count; otherwise the report carries the guarded collected text (trimmed), the settings, the model size and the detected language |

## Left out

- Loading and running the speech model (`WhisperModel`, `model.transcribe` and its tuning arguments). These are foreign library calls. Their segments and detected language are parameters of `Transcribe`.
- The CUDA probe through `torch`. It is the boolean parameter `cudaAvailable`.
- Wall-clock timing and the millisecond fields of the result. They are floating-point clock readings.
- `language_probability` and `duration`. They are floating-point values passed through from the speech model.
- JSON printing, the debug and warning lines on standard error, `sys.exit` and the exception handlers that report a missing library or a failed transcription. These are I/O and process plumbing.
- `segments_processed`. It only feeds a debug message.
- The rest of the application (audio gate, language heuristic, translation, transcript merging). None of that code is part of this model.
