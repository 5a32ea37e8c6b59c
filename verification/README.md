# MKV-to-MP4 remuxer: a Dafny model of its decision and parsing core

The script remuxes a Matroska file into MP4 with ffmpeg. It copies the video
stream, converts DTS audio to ALAC and tags HEVC video as `hvc1`, and shows
a percentage computed from ffmpeg's `-progress` output. This project models
the script's pure logic and proves properties of it:

- **Command** (`command.dfy`) models `build_ffmpeg_cmd`. Two policies turn the
  probed codec names into a `Plan`, and the plan is rendered into the argument
  vector. Lower-casing is modelled per character; `Text.Lower` covers the ASCII
  capitals and the Kelvin sign.
- **OutputPath** (`output_path.dfy`) models the destination
  `os.path.splitext(src)[0] + ".mp4"`. It follows the POSIX splitext rule: the
  last dot after the last slash starts the extension, unless only dots come
  before it in the basename.
- **ProgressLine** (`progress_line.dfy`) models one line of progress output.
  First comes the leftmost, greedy `out_time_ms=(\d+)` search. Only if that
  fails comes `out_time=([\d:.]+)`, split on `:` and parsed with `float`. A
  line matching neither is skipped. `Search` is proved against a declarative
  statement of what `re.search` returns (`IsSearchResult`).
- **Throttle** (`throttle.dfy`) models the loop. It computes
  `min(done / total * 100, 100)`, truncates it toward zero, and emits only when
  the integer part differs from the last one emitted (sentinel -1). The loop
  is a fold, `Scan`, over the interpreted lines. A malformed clock (Python's
  `ValueError`) and a zero duration (`ZeroDivisionError`) end it as an explicit
  `Failure`.
- **Entry** (`entry.dfy`) models the `__main__` checks: an empty selection is
  rejected, then a name not ending in `.mkv` in any case. It also composes the
  pipeline up to the command.
- **Text** and **Common** hold string, number and `Option`/`Result` helpers.
- **Scenarios** (`scenarios.dfy`) states the model's results on concrete inputs.

The argument vector has 14 entries without the `hvc1` tag and 16 with it:
six leading entries, two audio, two `-movflags`, two tag, three
progress/nostats, and the destination.

The loop does not make progress non-decreasing. A later, smaller timestamp
is printed as a smaller percentage whenever its integer part differs from the
last one printed, and `Scenarios.ProgressCanFallBack` proves this on two
lines; a smaller timestamp with the same integer part (5.05 s then 5.02 s of
10 s) prints nothing. A zero duration is not turned into an
indeterminate progress mode either. The division raises as soon as the first
progress line arrives, and the model records that as `ZeroDuration`.

Nothing is executed: the properties are proved by the Dafny verifier.

## Model

| member | source | states |
|---|---|---|
| Command.ChooseAudio | code.py:123 | the audio is transcoded to ALAC exactly when the codec name spells "dts" in some mixture of cases; an empty (unknown) codec is copied |
| Command.NeedsHvc1Tag | code.py:124 | the `hvc1` tag is requested exactly when the video codec spells "hevc" or "h265" in some mixture of cases; never for an empty codec |
| Text.Lower | code.py:123-124 | the modelled lower-casing keeps the length, lowers each character on its own, and leaves no ASCII capital and no Kelvin sign |
| Command.MakePlan | code.py:123-124 | the plan keeps the two paths, transcodes exactly for "dts" in any case, and tags exactly for "hevc" or "h265" in any case |
| Text.LowerEqualsIffSpells | code.py:123-124 | `s.lower() == t` for an ASCII lower-case target holds exactly when each character of `s` is a spelling of the corresponding one of `t` |
| Text.SpellingsAreFoldPreimage | code.py:123-124 | the hand-written case spellings of a character are exactly the characters that lower to it |
| Command.BuildCommand | code.py:104-136 | length is 16 exactly when the video is HEVC/H.265 and 14 otherwise; starts `ffmpeg -y -i src -c:v copy`; audio pair is `-c:a alac` exactly for DTS, else `-c:a copy`; with the tag, `-tag:v hvc1` sits at positions 10-11, and the option pair `-tag:v hvc1` occurs exactly when the length is 16; always carries `-movflags +faststart`, `-progress pipe:1` and `-nostats`; ends with `dst` |
| Command.UntaggedHasNoTagArgument | code.py:124-136 | without the HEVC policy, no argument other than the source or destination path is `-tag:v` |
| Command.Render | code.py:126-136 | the list literal has 16 entries with the tag and 14 without; it starts with `ffmpeg`, carries the source at position 3 and ends with the destination |
| Command.RenderLayout | code.py:126-136 | where each argument group of the list literal lands in the vector, for both lengths |
| Command.RecoverRender | code.py:126-136 | the plan (paths, audio action, tag) can be read back from the vector, and only the rendering of a plan reads back as that plan |
| Command.RenderInjective | code.py:126-136 | different plans give different argument vectors |
| OutputPath.RFind | code.py:147 | the position of the last occurrence of a character, or -1, as splitext uses it |
| OutputPath.SplitExt | code.py:147 | root and extension concatenate to the path, and the extension is empty or starts with a dot |
| OutputPath.Mp4Path | code.py:147 | the destination ends in ".mp4", and what precedes that suffix, followed by the dropped extension, is the source |
| OutputPath.SplitExtSpec | code.py:147 | root + extension is the path; the extension is empty or one dot followed by neither dots nor slashes; it is non-empty exactly when some non-dot basename character is followed by a dot |
| OutputPath.Mp4PathShape | code.py:147 | the destination keeps the directory of the source, ends in ".mp4", and is the source plus ".mp4" when the basename has no extension |
| Entry.CheckSelection | code.py:198-201 | an empty selection is rejected as "no file selected", a non-empty name not ending in `.mkv` in any case as "not an MKV", and anything else is accepted unchanged |
| Text.LowerEndsWithIffSpells | code.py:200 | `s.lower().endswith(t)` holds exactly when `s` ends in characters that spell `t` in some mixture of cases |
| Entry.MkvDestination | code.py:147 | for an accepted name the destination replaces the `.mkv` suffix by ".mp4", except for basenames that are dots followed by `mkv`, which get ".mp4" appended |
| Entry.DestinationDiffersFromSource | code.py:147 | the destination of an accepted name is never the source itself |
| Entry.PrepareRemux | code.py:143-154 | the selection is rejected with the same error `CheckSelection` gives, or the command is `build_ffmpeg_cmd(src, splitext(src)[0] + ".mp4", acodec, vcodec)`, whose input is the selection, whose last argument differs from it, and which reads back as the plan of the probed codecs |
| ProgressLine.Search | code.py:167-168 | no result exactly when the pattern matches nowhere; otherwise a non-empty group that is the greedy run at the leftmost match |
| ProgressLine.SearchResultUnique | code.py:167-168 | the declarative description of a search result determines the group |
| ProgressLine.KeyThenRun | code.py:167-168 | a line made of the key and a run of class characters matches at its start and captures the whole run |
| ProgressLine.KeyCharAbsent | code.py:167-168 | a line missing some character of the key matches nowhere |
| ProgressLine.Interpret | code.py:171-179 | a line is skipped exactly when neither pattern matches; a microsecond match always yields a time; a failure comes only from a clock match with no microsecond match; times are never negative |
| ProgressLine.MicrosecondsTakePrecedence | code.py:173-174 | when the microsecond pattern matches, the reading is its digits over one million, whatever else the line holds |
| ProgressLine.MicrosLineReading | code.py:173-174 | a line made of `out_time_ms=` and digits reads as those digits over one million |
| ProgressLine.MicrosLineOf | code.py:173-174 | the line for `n` microseconds reads as `n / 1000000` seconds |
| ProgressLine.ClockFallback | code.py:175-177 | with no microsecond match the clock capture decides: its seconds, or a failure when it does not parse |
| ProgressLine.ClockFormReading | code.py:175-177 | with no microsecond match, a clock `h:m:s` whose fields parse reads as `h*3600 + m*60 + s` |
| ProgressLine.WrongFieldCountFails | code.py:176 | a clock capture without exactly two colons makes the script fail |
| ProgressLine.ClockSeconds | code.py:176-177 | a parsed clock is non-negative and had exactly three fields |
| ProgressLine.FieldSeconds | code.py:176-177 | the unpacked sum is never negative and exists only for three fields |
| ProgressLine.FieldSecondsAccepts | code.py:176-177 | unpacking and the three `float()` calls succeed exactly when there are three fields, each a decimal |
| ProgressLine.ClockTextFields | code.py:176 | the clock rendered from three whole numbers splits on `:` back into their three numerals |
| ProgressLine.ClockSecondsOfText | code.py:176-177 | the clock rendered from whole `h`, `m`, `s` reads back as `h*3600 + m*60 + s` seconds |
| ProgressLine.ClockLineOf | code.py:172-177 | the line `out_time=h:m:s` for whole numbers reads as `h*3600 + m*60 + s` seconds |
| ProgressLine.ClockFieldsAreNumeric | code.py:168 | every field of a clock capture consists of digits and dots |
| Text.Split | code.py:176 | `str.split` on one character: one more part than separators, and no part contains the separator |
| Text.JoinSplit | code.py:176 | joining the parts with the separator gives back the text |
| Text.SplitJoin | code.py:176 | splitting a join of separator-free parts gives back the parts |
| Text.DecimalValue | code.py:176 | `float()` of digits and dots is never negative |
| Text.DecimalByDots | code.py:176 | a text of digits and dots is a decimal exactly when it has no dot and is non-empty, or has a single dot and more than that dot |
| Text.DecimalValueAccepts | code.py:176 | `float()` accepts a text of digits and dots exactly when it has at most one dot and at least one digit |
| Text.DecimalValueOfParts | code.py:176 | `float("w.f")` is `w` plus `f` scaled down by one power of ten per digit of `f` |
| Text.DecimalValueOfShow | code.py:176 | `float()` of a decimal numeral is its value |
| Text.NatOf | code.py:174 | `int()` of a digit string is below ten to the power of its length |
| Text.NatOfShow | code.py:174 | `int()` of the decimal rendering of `n` is `n` |
| Text.NatOfLeadingZero | code.py:174 | a leading zero does not change `int()` of a digit string |
| Throttle.Trunc | code.py:182 | `int()` on a float truncates toward zero |
| Throttle.Percent | code.py:181 | the percentage never exceeds 100 nor the exact ratio, and is one of the two |
| Throttle.PercentBounds | code.py:181 | with a positive duration and non-negative time: within [0, 100], the exact ratio up to the total, and 100 exactly from the total on |
| Throttle.Step | code.py:171-184 | a failure is final; a skipped line changes nothing; from a running state, the loop fails as malformed exactly on a bad clock, and on a recognised time it fails for a zero duration exactly when the duration is zero; otherwise an update is appended exactly when the integer percent differs from the last one; the appended update is `min(done / total * 100, 100)` for the line's time, and its integer part becomes the new last one |
| Throttle.Scan | code.py:169-184 | at most one update per reading, and the sentinel -1 stays while nothing is printed |
| Throttle.Run | code.py:169-184 | at most one update per line, and the sentinel -1 stays while nothing is printed |
| Throttle.ScanIsThrottled | code.py:169-184 | for any non-negative readings and positive duration: the sentinel -1 holds exactly while nothing was printed, otherwise the last printed integer percent; consecutive updates differ in integer part; every update lies in [0, 100] |
| Throttle.RunIsThrottled | code.py:169-184 | the same for any sequence of lines |
| Throttle.UnrelatedChangeNothing | code.py:178-179 | lines that match neither pattern leave the loop state unchanged |
| Throttle.FirstElapsedEmits | code.py:169-184 | after readings that are all skipped, the first elapsed time is printed as its percentage |
| Throttle.FirstReadingEmits | code.py:169-184 | after skipped lines only, the first recognised line is always printed |
| Throttle.LastTracksLatestReading | code.py:182-184 | the last printed integer percent is that of the latest recognised reading |
| Throttle.UpdatesAreChangePoints | code.py:182-184 | the printed updates are exactly the readings whose integer part differs from that of the reading before them |
| Throttle.UpdatesOnlyGrow | code.py:183 | more lines only append to what was printed |
| Throttle.FailureIsFinal | code.py:176-181 | after a parse failure or a zero duration no further line changes anything |
| Throttle.InterpretationsNonNegative | code.py:173-177 | no line yields a negative elapsed time |
| Scenarios.MicrosecondLineExample | code.py:173-181 | `out_time_ms=5000000` is 5 seconds, 50 percent of 10 seconds |
| Scenarios.ClockLineExample | code.py:175-177 | `out_time=00:00:05.000000` is also 5 seconds |
| Scenarios.ProgressCanFallBack | code.py:181-184 | 5 s then 1 s of a 10 s file prints 50 then 10: progress is not kept monotone |
| Scenarios.DtsHevcCommand | code.py:104-136 | the full 16-argument command for DTS audio and HEVC video |
| Scenarios.AacH264Command | code.py:104-136 | the full 14-argument command for AAC audio and H.264 video |
| Scenarios.MovieDestination | code.py:147 | `/videos/Movie.MKV` becomes `/videos/Movie.mp4` |
| Scenarios.DotfileDestination | code.py:147 | `/videos/.mkv` is accepted and becomes `/videos/.mkv.mp4` |

## Left out

- `pick_mkv` (code.py:43-52) is a Tk file dialog. The selection is an input string; a cancelled dialog is the empty string.
- `ffprobe_field`, `get_duration`, `detect_audio_codec` and `detect_video_codec` (code.py:55-101) run ffprobe. Their results are inputs: the codec names, and the duration as a `real`.
- `subprocess.Popen`, reading the merged stdout/stderr pipe line by line, `proc.wait` and forwarding the exit code (code.py:155-161, 186-190) are process I/O. The loop is given the sequence of lines the pipe produces.
- Printing is not modelled: the codec line, the `%6.2f` progress text and the status line. The printed values are the `updates` of the monitor.
- Floating point is not modelled. `float()`, `/`, `*` and `min` are exact `real` arithmetic, without IEEE rounding, overflow to infinity, or `int()` of a huge integer overflowing a float.
- ProgressLine.Interpret: `int()` of the microsecond digits has no length limit here; Python raises `ValueError` on a capture of more than 4300 digits (leading zeros count), and `int(...) / 1_000_000` raises `OverflowError` when the quotient exceeds the float range.
- Text.IsDigit: `\d`, `int()` and `float()` accept only the ASCII digits here; Python also accepts other Unicode decimal digits.
- Text.Lower: folds only ASCII capitals and the Kelvin sign. Every other character is kept, which gives the same answer as Python for comparisons against the ASCII targets used.
- OutputPath.SplitExt: follows POSIX `posixpath.splitext` only; the Windows rules of `ntpath` (backslashes, drive letters) are not modelled.
- Throttle.Step: a `ValueError` or `ZeroDivisionError` ends the model's loop as a `Failure` value; the traceback and exit status that follow are not modelled.
- Throttle lemmas: `ScanIsThrottled`, `RunIsThrottled`, `FirstElapsedEmits` and `FirstReadingEmits` assume a positive duration (and, on readings, non-negative times); `LastTracksLatestReading` and `UpdatesAreChangePoints` also assume no malformed clock line. These are the conditions under which the loop runs to the end; `FailureIsFinal` covers the other runs.
