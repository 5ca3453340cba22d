# SubRip serialiser of the audio-to-text converter

The converter sends an uploaded audio file to a speech recogniser. The
recogniser returns the whole transcript plus a list of timed segments. From
these the converter writes two artifacts:

- a plain-text file, which holds the transcript unchanged;
- a SubRip (`.srt`) subtitle file, which holds one cue block per segment.

A cue block has four lines:

- the cue number, which is the segment's `id + 1`;
- `HH:MM:SS,mmm --> HH:MM:SS,mmm`;
- the segment text;
- an empty line.

This project models that serialiser in Dafny and proves what it guarantees.

- `wrappers.dfy` (`Wrappers`): the `Option` type used by the readers.
- `text.dfy` (`Text`): concatenating a sequence of strings, and mapping a function over a sequence.
- `decimal.dfy` (`Decimal`): Python's `f"{n}"` and `f"{n:0W}"` for integers, and reading digit strings back.
- `timestamp.dfy` (`Timestamp`): `format_timestamp`. It works in two steps:
  - `Split` is the arithmetic: `int((t % 1) * 1000)` milliseconds, then two floored `divmod`s by 60.
  - `Render` is the f-string.

  A reader `ParseTimestamp` serves as the partner of the formatter.
- `subrip.dfy` (`SubRip`): the subtitle file.
  - `AssembleSrt` is the file as a function of the segments.
  - `SaveTranscription` is the loop that appends the three writes of each segment to a buffer. It is proved equal to `AssembleSrt`.
  - A reader `ParseSrt` shows that the file gives back, in order, one cue per segment.

Times are exact reals, and Python's `int()` truncates toward zero (`PyInt`).
Python's `x % 1` follows the sign of the divisor (`PyFrac`).
The formatter is total, as the Python function is: a negative time is formatted, not rejected.
Its promises about the fields (ranges, no wrap-around, round trip) are stated for times that are not negative.
For negative times, `NegativeTimeSign`, `SplitNegative` and `FormatNegativeFraction` state what it prints.

The cue number is the segment's own `id + 1`, as line 75 writes it.
It is the position 1..n only when each segment's `id` equals its index (`CueNumberAt`, `CueNumbersArePositions`).
The writer does not check that a segment ends after it starts, and neither does the model.

## Model

| member | source | states |
|---|---|---|
| Timestamp.PyInt | audio-to-text.py:30-31 | `int()` truncates toward zero: for x >= 0 the result is the integer with i <= x < i + 1, for x < 0 the one with i - 1 < x <= i |
| Timestamp.PyFrac | audio-to-text.py:30 | `seconds % 1` is in [0, 1) and leaves a whole number when subtracted |
| Timestamp.Split | audio-to-text.py:28-33 | minutes, seconds below 60 and millis below 1000; hours*3600 + minutes*60 + seconds == `int(seconds)`; millis is `(seconds % 1) * 1000` truncated; for t >= 0 hours is whole seconds div 3600 |
| Timestamp.SplitTruncatesToMillis | audio-to-text.py:30-33 | for t >= 0 the hours are not negative and the fields stand for exactly `floor(t * 1000)` milliseconds: the input truncated, never rounded, to millisecond resolution |
| Timestamp.RenderRoundTrip | audio-to-text.py:34 | fields in range with hours >= 0 render in the shape `\d{2,}:\d{2}:\d{2},\d{3}` and read back as the same fields |
| Timestamp.FormatTimestampRoundTrip | audio-to-text.py:28-34 | for t >= 0 the output has the SubRip timestamp shape and reads back as `Split(t)` |
| Timestamp.HoursNeverWrap | audio-to-text.py:32-34 | for t >= 0 the hours field reads back as whole seconds div 3600 (no wrap), and is wider than two digits exactly when that is 100 or more |
| Timestamp.TimestampHasNoSeparators | audio-to-text.py:34 | a formatted timestamp never contains a space or a line break |
| Timestamp.FormatZero | audio-to-text.py:28-34 | 0 seconds prints `00:00:00,000` |
| Timestamp.FormatOneHourOneMinute | audio-to-text.py:28-34 | 3661.5 seconds prints `01:01:01,500` |
| Timestamp.FormatTruncatesNotRounds | audio-to-text.py:28-34 | 59.9996 seconds prints `00:00:59,999`: no rollover to the next second |
| Timestamp.FormatHundredHours | audio-to-text.py:28-34 | 360000 seconds prints `100:00:00,000` |
| Timestamp.SplitNegative | audio-to-text.py:30-33 | -61.25 seconds splits into hours -1, minutes 58, seconds 59, millis 750 (floored `%`, truncating `int()`) |
| Timestamp.NegativeTimeSign | audio-to-text.py:28-34 | the output starts with `-` if and only if the time is -1 second or less, because only then do the hours go negative |
| Timestamp.SplitNegativeFraction | audio-to-text.py:30-33 | -0.5 seconds splits into zero hours, minutes and seconds and 500 millis |
| Timestamp.FormatNegativeFraction | audio-to-text.py:28-34 | -0.5 seconds prints `00:00:00,500`, without a sign |
| Decimal.Pad | audio-to-text.py:34 | `:0W` of a non-negative number is all digits, `max(W, digit count)` long, and denotes the number |
| Decimal.DigitsLength | audio-to-text.py:34 | a number has at most k digits exactly when it is below 10^k |
| Decimal.PadWidth | audio-to-text.py:34 | padding to width W gives exactly W characters exactly when the number is below 10^W; otherwise nothing is cut off |
| Decimal.PadIsUnique | audio-to-text.py:34 | the padded rendering is the only W-digit string denoting the number |
| Decimal.ValueInjective | audio-to-text.py:34 | two digit strings of one length with the same value are equal |
| Decimal.FormatIntRoundTrip | audio-to-text.py:75 | `f"{n}"` and `f"{n:0W}"` of any integer, negative included, read back as that integer |
| Decimal.FormatIntHasNoSeparators | audio-to-text.py:75 | a formatted integer has no line break and no space |
| SubRip.AssembleSrtNone | audio-to-text.py:71 | no segments write an empty subtitle file |
| SubRip.AssembleSrtOne | audio-to-text.py:75-77 | one segment writes exactly its cue block |
| SubRip.AssembleSrtAppend | audio-to-text.py:71-77 | the file for two runs of segments is the file of the first followed by that of the second |
| SubRip.AssembleSrtEmpty | audio-to-text.py:71-77 | the file is empty if and only if there are no segments |
| SubRip.BlockAt | audio-to-text.py:71-77 | the i-th segment's block sits, verbatim, between the blocks of the segments before and after it, whatever the texts contain |
| SubRip.WritesExtendFile | audio-to-text.py:75-77 | the three writes for segment i, appended to the file of the segments before it, give the file up to and including segment i |
| SubRip.SaveTranscription | audio-to-text.py:61-77 | the text artifact is the transcript unchanged, whatever the segments; the appending loop produces exactly `AssembleSrt` of the segments |
| SubRip.TimeRangeSingleLine | audio-to-text.py:76 | the `start --> end` line has no line break inside it |
| SubRip.ParseTimeRangeOf | audio-to-text.py:76 | for non-negative times, the `start --> end` line reads back as the fields of both times |
| SubRip.ParseAssembled | audio-to-text.py:71-77 | for non-negative times and single-line texts, the file reads back as exactly one cue per segment, in order: number `id + 1`, the split start and end, and the text verbatim |
| SubRip.CueBlockOpens | audio-to-text.py:75 | every cue block begins with the line holding `id + 1` |
| SubRip.CueNumberAt | audio-to-text.py:71-75 | for any texts, the file holds the blocks before segment i followed by the line `i + 1` when that segment's `id` is i, so ids equal to positions number the cues 1..n |
| SubRip.CueNumbersArePositions | audio-to-text.py:71-75 | when every segment's `id` equals its index, the cues read back are numbered 1..n in order |

## Left out

- The Streamlit page, meaning the title, uploader, spinner, balloons and download buttons (lines 13-26, 36-44, 52-56, 79-97). It is presentation only.
- Loading the Whisper model and the `transcribe` call (lines 5-10, 58). The recogniser's result is the input of `SaveTranscription`.
- Saving the upload, the `temp` directory, and opening, writing and reading files (lines 46-50, 62-70, 89, 95). The artifacts are returned as strings. Encoding is not modelled.
- The file-size display in megabytes (lines 43-44). It is a floating-point division for display only.
- IEEE-754 floating point. Times are exact reals, so float effects such as `1.001 % 1 * 1000` giving 0 ms are not captured.
- Timestamp.SplitTruncatesToMillis: stated only for times that are not negative. For a negative time the milliseconds count upwards from the floor while the whole seconds are truncated toward zero, so the fields do not add up to the time. `SplitNegative` shows this.
- Timestamp.FormatTimestampRoundTrip: stated only for times that are not negative. A negative time can put a sign in the hours field, which the reader does not accept.
- Timestamp.HoursNeverWrap: stated only for times that are not negative, for the same reason.
- SubRip.ParseAssembled: stated only for texts without a line break. A text holding line breaks is written verbatim, which makes the SubRip file ambiguous to read. `BlockAt` states the layout for any text.
- SubRip.ParseAssembled: the count of cue blocks is shown through the reader, so it too is stated only for single-line texts and non-negative times.
- SubRip.CueNumbersArePositions: positional numbering holds only when each `id` equals its index. The writer numbers cues by `id + 1` and does not renumber them.
- SubRip.CueNumbersArePositions: it reads the numbers back through the reader, so it is stated only for single-line texts and non-negative times. `CueNumberAt` states the same numbering on the written file for any text and any time.
