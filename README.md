# VideoEncoder core, modelled in Dafny

VideoEncoder is an interactive front-end for ffmpeg. It asks for a video file,
a quality (0-100) and a scale percentage (1-100). It then runs ffmpeg to
transcode the file to H.264/AAC and draws a progress bar from ffmpeg's
diagnostic output. The program's own logic is a handful of pure computations
in `video_encoder.py`. This project models each of them as Dafny functions and
proves what they promise:

- **Progress-line parser** (`ProgressParser`). It finds the leftmost
  `time=HH:MM:SS.CC` in a line of ffmpeg's stderr and gives the elapsed time
  exactly, in whole centiseconds and in seconds. It returns a percentage capped
  at 100, but only when the total duration is known and positive.
- **Progress bar** (`ProgressBar`). Python's `int()` truncation of
  `50 * progress / 100` filled glyphs (`█`), then empty glyphs (`░`) up to 50.
- **Encoder settings** (`EncoderSettings`). The x264 constant rate factor
  `51 - int(quality * 0.51)`, the `-vf` filter chain, and the ffmpeg argument
  list.
- **Output path** (`Paths`). `convert_` + the input's file name in the same
  directory. A `.mp4/.avi/.mov/.mkv` suffix (any letter case) is kept;
  otherwise `with_suffix('.mp4')` applies. pathlib's `suffix`, `stem` and
  `with_suffix` rules are modelled.
- **Size text** (`SizeFormat`). The GB/MB/KB/B cascade over 2^30, 2^20 and
  2^10.
- `Decimal` models Python's `int` on digit strings and `str` on integers.
  `Wrappers` holds `Option`.

Two behaviours of the code that a reader might not expect; the model follows
the code:

- The quality factor is **truncated**: quality 80 gives CRF 11, because the
  product 80 × 0.51 = 40.8 is cut to 40 (`EncoderSettings.CrfExamples`). There is no clamping; none is needed
  for qualities 0-100 (`EncoderSettings.CrfRange`).
- With an unknown or non-positive total duration, the parser returns
  `(None, None)`, with no elapsed time alone
  (`ProgressParser.UnknownTotalNoSample`).

Behaviour the code has and the model makes explicit:

- A dot file such as `.bashrc` has no suffix to pathlib, but `convert_.bashrc`
  has the suffix `.bashrc`. Such an input therefore becomes `convert_.mp4`
  (`Paths.DotFileReplaced`, `Paths.ExampleDotFile`), and its name is not kept.
- Hours are exactly two digits, so a time field past 99 hours gives no sample
  (`ProgressParser.ExampleHundredHours`).

## Model

| member | source | states |
|---|---|---|
| `Decimal.ValueOf` | video_encoder.py:33 | `int()` of a digit run is below 10^length |
| `Decimal.DigitsOf` | video_encoder.py:176 | `str()` of a non-negative integer: at least one digit, all ASCII digits, no leading zero, as many digits as the magnitude needs |
| `Decimal.ValueOfDigitsOf` | video_encoder.py:176 | reading the printed digits back gives the number |
| `Decimal.ShowParse` | video_encoder.py:122 | `int(str(n)) == n` for every integer, sign included |
| `Decimal.ShowShape` | video_encoder.py:122 | `str(n)` starts with `-` exactly for negative n, and the rest is one or more ASCII digits |
| `Decimal.ParseShape` | video_encoder.py:33 | `int()` of a digit run is its value and below 10^length; a negative result needs a leading `-`; a text of at most one character that is not a digit is refused |
| `ProgressParser.FindFrom` | video_encoder.py:31 | the search returns a position where the pattern matches and no earlier one from i matches; no position is returned only when the pattern matches nowhere from i |
| `ProgressParser.LeftmostUnique` | video_encoder.py:31 | the leftmost match is unique |
| `ProgressParser.Group` | video_encoder.py:33 | a captured two-digit group is worth 10 × first digit + second digit |
| `ProgressParser.CentisParts` | video_encoder.py:33-34 | the centiseconds of a match, divided by 100, give back H·3600 + M·60 + S, and their remainder is CC |
| `ProgressParser.ElapsedSeconds` | video_encoder.py:34 | H·3600 + M·60 + S + CC/100 equals the whole number of centiseconds H·360000 + M·6000 + S·100 + CC divided by 100, and is non-negative |
| `ProgressParser.Percent` | video_encoder.py:36 | `min(elapsed/total*100, 100)` lies in [0,100], is 100 exactly when elapsed ≥ total, and is elapsed/total·100 otherwise |
| `ProgressParser.MatchedText` | video_encoder.py:31 | a match lies inside the line, starts with the `t` of `time=` and has its first `:` seven characters on |
| `ProgressParser.ParseProgress` | video_encoder.py:28-38 | a sample comes back only with a known positive total; its percentage lies in [0,100] and is 100 iff elapsed ≥ total |
| `ProgressParser.ParseAtLeftmost` | video_encoder.py:31-37 | with a positive total, the sample carries the elapsed time of the leftmost match (its centiseconds / 100) and that time's percentage of the total |
| `ProgressParser.SampleIffMatch` | video_encoder.py:31-38 | a sample comes back iff the line has a match and the total is known and positive |
| `ProgressParser.FindLeftmost` | video_encoder.py:31 | the search returns exactly the leftmost match |
| `ProgressParser.SameElapsedSameSample` | video_encoder.py:33-37 | two lines whose leftmost matches give the same elapsed time give the same sample |
| `ProgressParser.NoMatchNoSample` | video_encoder.py:31-38 | a line with no `time=DD:DD:DD.DD` gives `(None, None)` whatever the total |
| `ProgressParser.UnknownTotalNoSample` | video_encoder.py:35-38 | an unknown or non-positive total gives `(None, None)` and discards the elapsed time |
| `ProgressParser.PercentMonotone` | video_encoder.py:36 | for a fixed total, a later elapsed time never gives a smaller percentage |
| `ProgressParser.NoMatchBefore` | video_encoder.py:31 | no match starts inside a prefix without a `t` |
| `ProgressParser.MatchShift` | video_encoder.py:31 | prefixing text shifts every match by its length and keeps its elapsed time |
| `ProgressParser.LeftmostAfterPrefix` | video_encoder.py:31 | after a prefix without a `t`, the leftmost match of a line is still the leftmost one, shifted by the prefix's length |
| `ProgressParser.NoMatchAfterPrefix` | video_encoder.py:31 | a prefix without a `t` adds no match to a line that has none |
| `ProgressParser.FindAfterPrefix` | video_encoder.py:31 | after a prefix without a `t`, the search finds the same match, shifted, or none if the line has none |
| `ProgressParser.ParseShiftedMatch` | video_encoder.py:31-37 | a line with a match and a positive total gives the same sample after a prefix without a `t` |
| `ProgressParser.ParseAfterPrefix` | video_encoder.py:28-38 | a prefix without a `t` (such as ffmpeg's `frame= … size= …` fields) does not change the parser's result |
| `ProgressParser.ExampleHalfway` | video_encoder.py:28-38 | `time=00:01:00.00` with total 120 gives 50 % at 60 s |
| `ProgressParser.ExamplePastEnd` | video_encoder.py:36 | `time=00:02:10.00` with total 120 is capped at 100 % and keeps 130 s |
| `ProgressParser.ExampleNoTimeField` | video_encoder.py:31-32 | `frame=120 fps=30` gives no sample |
| `ProgressParser.ExampleMisshapedTime` | video_encoder.py:31 | `time=1:00:00.00 ` (one-digit hours, then a space, so the line is 16 characters long like a match) gives no sample: the only position a match could start at fails on the one-digit hour |
| `ProgressParser.ExampleHundredHours` | video_encoder.py:31 | `time=100:00:00.00` gives no sample |
| `ProgressParser.TimeFieldExtends` | video_encoder.py:31-34 | a time field stays one, with the same elapsed time, whatever text follows it |
| `ProgressParser.ExampleTwoFields` | video_encoder.py:31 | a line starting `time=00:00:30.50` gives 50 % of 61 s at 30.5 s whatever follows, a second time field included: the first field counts |
| `ProgressParser.ExampleTwoFieldsAfterPrefix` | video_encoder.py:31 | the same after any prefix without a `t` |
| `ProgressBar.Truncate` | video_encoder.py:44 | `int()` on a real truncates toward zero: the result is the integer part from the correct side |
| `ProgressBar.FilledLength` | video_encoder.py:43-44 | for progress ≥ 0 the filled length is ⌊progress/2⌋; below 0 it is at most 0 |
| `ProgressBar.Repeat` | video_encoder.py:45 | `c * n` is n copies of c, and empty for n ≤ 0 |
| `ProgressBar.Bar` | video_encoder.py:43-45 | every glyph is filled or empty, and a glyph is filled exactly when its position is below the filled length |
| `ProgressBar.BarInRange` | video_encoder.py:43-45 | for progress in [0,100] the bar has exactly 50 glyphs: ⌊50·p/100⌋ filled, then only empty ones |
| `ProgressBar.FilledMonotone` | video_encoder.py:44 | more progress never fills fewer glyphs |
| `ProgressBar.ParsedSampleBar` | video_encoder.py:159-161 | the bar drawn for any sample the parser returns has 50 glyphs |
| `ProgressBar.ExampleBars` | video_encoder.py:44 | 100 % fills 50 glyphs, 50 % fills 25, 99.9 % fills 49, 1.9 % fills none |
| `EncoderSettings.TruncDiv` | video_encoder.py:116 | truncating division toward zero brackets the exact quotient from the correct side |
| `EncoderSettings.Crf` | video_encoder.py:116 | 51 − CRF is the integer part of quality × 0.51, truncated toward zero |
| `EncoderSettings.CrfRange` | video_encoder.py:116 | for quality 0..100 the CRF lies in [0,51] |
| `EncoderSettings.CrfExamples` | video_encoder.py:116 | quality 0 → 51, 100 → 0, 80 → 11, 50 → 26, 1 → 51, 2 → 50 |
| `EncoderSettings.CrfAntitone` | video_encoder.py:116 | a higher quality never gives a higher CRF |
| `EncoderSettings.TruncDivMonotone` | video_encoder.py:116 | truncating division is monotone in the dividend |
| `EncoderSettings.VideoFilter` | video_encoder.py:130-137 | the filter always ends with `,fps=fps=min(source_fps\,59.94)`, and starts with `scale=trunc(iw/2)*2:trunc(ih/2)*2` iff scale = 100 |
| `EncoderSettings.EncoderArgs` | video_encoder.py:118-141 | the argument list has 21 entries; input after `-i`, CRF after `-crf`, filter after `-vf`, output last after `-y` |
| `EncoderSettings.EncoderCommand` | video_encoder.py:118-141 | the command reads the input path, passes a `-crf` text that reads back as `Crf(quality)`, the filter chain, and writes to the derived output path |
| `EncoderSettings.CommandCrfDigits` | video_encoder.py:116-122 | for quality 0..100 the `-crf` argument is one or two ASCII digits worth the CRF |
| `Paths.LastIndexOf` | video_encoder.py:110 | the last occurrence of a character: the character is there and nowhere after; none exactly when the character is absent |
| `Paths.SuffixStart` | video_encoder.py:110 | pathlib's suffix starts at the last dot, which is neither the first nor the last character; no position comes back only when every dot strictly inside the name has another dot after it |
| `Paths.SuffixShape` | video_encoder.py:110-111 | `suffix` ends the name and is empty or a dot followed by at least one non-dot character; `stem` begins the name and is empty only for an empty name |
| `Paths.WithSuffix` | video_encoder.py:111 | `with_suffix` keeps the directory, and with a dotted suffix the new name has exactly that suffix and the old stem |
| `Paths.NewSuffixParts` | video_encoder.py:111 | a non-empty stem followed by a dotted suffix splits back into that stem and that suffix |
| `Paths.Lower` | video_encoder.py:110 | lower-casing keeps the length and maps each ASCII capital to its small letter |
| `Paths.OutputPath` | video_encoder.py:107-111 | the output sits in the input's directory (same anchor and parts) and its name starts with `convert_` |
| `Paths.OutputSuffix` | video_encoder.py:110-111 | the marked name keeps its suffix iff the suffix's lower-case form is a kept container, gets `.mp4` otherwise, and keeps its stem either way |
| `Paths.KeepsDefault` | video_encoder.py:110-111 | `.mp4` is itself kept |
| `Paths.KeptLength` | video_encoder.py:110 | every kept suffix has four characters |
| `Paths.StemSuffix` | video_encoder.py:110-111 | a name is its stem followed by its suffix |
| `Paths.StemWithSuffix` | video_encoder.py:111 | `with_suffix('.mp4')` on a `convert_` name gives suffix `.mp4`, keeps the stem, and keeps the `convert_` prefix |
| `Paths.LastIndexAfterPrefix` | video_encoder.py:108 | a prefix without the character moves its last occurrence by the prefix length |
| `Paths.MarkedNameParts` | video_encoder.py:108 | apart from dot files, `convert_` + name has the name's suffix and `convert_` + the name's stem as stem |
| `Paths.DotFileMarkedParts` | video_encoder.py:108 | for a dot file, the whole name becomes the suffix of `convert_` + name |
| `Paths.OutputKeepsName` | video_encoder.py:108-110 | apart from dot files, a kept suffix gives `convert_` + the input name, suffix case preserved |
| `Paths.OutputReplacesSuffix` | video_encoder.py:110-111 | apart from dot files, any other suffix (or none) gives `convert_` + stem + `.mp4` |
| `Paths.OutputStartsWithStem` | video_encoder.py:108-111 | apart from dot files, the output name starts with `convert_` + the input's stem |
| `Paths.DotFileKept` | video_encoder.py:108-110 | a dot file named like a kept container (`.mov`) gives `convert_.mov` |
| `Paths.DotFileReplaced` | video_encoder.py:108-111 | any other dot file gives `convert_.mp4` |
| `Paths.OutputPathString` | video_encoder.py:108 | the printed output path is the printed input path with its final name replaced by the output name |
| `Paths.LastIndexAt` | video_encoder.py:110 | the last occurrence is at i when the character is at i and not after it |
| `Paths.SplitName` | video_encoder.py:110 | a dot-free stem followed by a dotted extension splits back into stem and suffix |
| `Paths.KeptExamples` | video_encoder.py:110 | `.mkv`, `.MOV`, `.Avi` are kept; `.webm`, `.mp3` are not |
| `Paths.ExampleKeptContainer` | video_encoder.py:107-111 | `clip.mkv` → `convert_clip.mkv` |
| `Paths.ExampleReplacedContainer` | video_encoder.py:107-111 | `clip.webm` → `convert_clip.mp4` |
| `Paths.ExampleUpperCaseKept` | video_encoder.py:107-111 | `/home/me/clip.MOV` → `/home/me/convert_clip.MOV` |
| `Paths.ExampleNoSuffix` | video_encoder.py:107-111 | a name without a dot gets `.mp4` appended |
| `Paths.DotFileName` | video_encoder.py:110 | a dot followed by dot-free text is a dot file |
| `Paths.ExampleDotFile` | video_encoder.py:107-111 | `.bashrc` → `convert_.mp4` |
| `SizeFormat.UnitFor` | video_encoder.py:169-176 | the chosen unit is one the size reaches (bytes aside) and no larger unit is reached |
| `SizeFormat.UnitRanges` | video_encoder.py:169-176 | GB iff size ≥ 2^30; MB iff 2^20 ≤ size < 2^30; KB iff 1024 ≤ size < 2^20; bytes iff size < 1024 |
| `SizeFormat.SizeText` | video_encoder.py:169-176 | the text ends with a space and the name of the unit the cascade chose |
| `SizeFormat.ScaledValue` | video_encoder.py:169-174 | from 1024 bytes on, the text is `:.1f` of the size divided by the chosen unit, a space and the unit's name; that number lies in [1,1024) before KB or MB and is at least 1 before GB |
| `SizeFormat.BytesText` | video_encoder.py:175-176 | below 1024 the text is the exact byte count and ` B`, and the count reads back as the size |
| `SizeFormat.ExampleSizes` | video_encoder.py:169-176 | 500 → `500 B`, 2048 → 2.0 KB, 5·2^20 → 5.0 MB, 3·2^30 → 3.0 GB |

## Left out

- `check_ffmpeg` and `get_video_duration` (video_encoder.py:9-25) run external programs. The duration is an input (`Option<real>`) of the parser.
- The `Popen`/`readline`/`poll`/`wait` loop and the stderr read on failure (video_encoder.py:148-164, 183-185) are blocking I/O with a child process. Only what they feed the parser and the bar is modelled (`ProgressBar.ParsedSampleBar`).
- `get_user_input` (video_encoder.py:55-103) is interactive prompting and file-existence checks. The quality range it enforces (0-100) is the requirement of `EncoderSettings.CrfRange` and `EncoderSettings.CommandCrfDigits`. The scale range (1-100) is required nowhere: the filter's contract holds for every scale, and the text of scale/100 is the `showRatio` parameter.
- Printing is not modelled: the `\r` overwrite and flush in `display_progress`, the elapsed/total time text (video_encoder.py:47-52), the status messages, `main`, `sys.exit` and the `KeyboardInterrupt` handling (video_encoder.py:193-216).
- Number formatting stays abstract. `:.1f` (size text) and the text of the float `scale/100` (filter) are function parameters (`show1`, `showRatio`).
- Floating point: elapsed time, total and percentage are reals, not IEEE doubles, and NaN or infinite totals are not modelled.
- `EncoderSettings.Crf` computes with the exact product quality × 0.51. For qualities 0-100 the double product truncates to the same integer, because the exact product is either an integer (0 and 100) or at least 0.01 away from one. This argument is not proved here.
- `\d` is narrowed to the ASCII digits `0`-`9`. Python's `re` also accepts other Unicode decimal digits.
- `str.lower` is narrowed to ASCII letters. Non-ASCII characters that lower-case to an ASCII letter are not modelled.
- Paths are POSIX paths already parsed by pathlib (anchor, directory parts, name). Parsing a typed path string, Windows paths, and the file-size lookup `stat()` are left out. The file size is an input.
- pathlib's `suffix`/`stem`/`with_suffix` rules are modelled as CPython 3.12 implements them for POSIX paths: the suffix starts at the last dot, when it is neither the first nor the last character. Other CPython releases treat names ending in a dot differently (here `clip.` gives `convert_clip..mp4`).
- `Paths.WithSuffix`: pathlib's `ValueError` for an invalid suffix or an empty name is not modelled, because the only call passes `.mp4` on a name starting with `convert_`. The contract speaks only of suffixes with a single dot, the only kind used.
