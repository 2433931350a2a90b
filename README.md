# Go_MuteCut: a Dafny model of its naming and argument logic

Go_MuteCut is a command-line front end to ffmpeg. It can cut a clip out of a
video, silence a time window in it, or extract its audio as MP3, and it can
first download the video from YouTube. All decoding and encoding happens in
the external ffmpeg process. What remains in the tool itself is deterministic
string and argument-list logic, and that logic is modelled and proved here:

- the default output name (`<stem>_cleaned[_muted]<ext>`), which uses Go's
  `filepath.Ext` / `strings.TrimSuffix` reading of a path;
- the encoder argument lists: the input part (`getInputArgs`), the cut and
  mute command (`simpleCut`) and the MP3 extraction command (`extractAudio`);
- the timestamp reader `parseTimeToSeconds`: plain seconds or `H:M:S` in
  base 60, evaluated right to left with a running multiplier;
- the `.mp3` normalisation of the extraction output name;
- the name a downloaded video is saved under: the title with the characters
  `<>:"/\|?*` replaced by `_`, then `stem_1.ext`, `stem_2.ext`, ... until a
  name is free;
- the search order that finds the ffmpeg and ffprobe executables.

Modules:

| module | file | contents |
|---|---|---|
| `Wrappers` | wrappers.dfy | `Option` |
| `GoPaths` | gopaths.dfy | `filepath.Ext` (as a backward scan, with an independent characterisation), `strings.HasSuffix` / `TrimSuffix`, `filepath.Join(dir, "bin", name)` |
| `Decimal` | decimal.dfy | digit strings, their values, `strconv.Itoa` / `%d` with a read-back round trip |
| `Text` | text.dfy | `strings.Split` / `Join` on one character with a round trip, `strings.ToLower` |
| `Settings` | settings.dfy | the `Config` record |
| `MuteCut` | mutecut.dfy | `getInputArgs`, `parseTimeToSeconds`, `simpleCut`'s arguments, `resolveBinary` |
| `Mp3` | mp3.dfy | the MP3 output name and `extractAudio`'s arguments |
| `YouTube` | youtube.dfy | `sanitizeFilename`, `ensureUniqueFilename`, the download file name |
| `Pipeline` | pipeline.dfy | the default output name and how it reaches `extractAudio` |

The operations the Go code performs by successive `append` or by a loop are
methods: `MuteCut.GetInputArgs`, `MuteCut.SimpleCutArgs`,
`MuteCut.ParseTimeToSeconds` and `YouTube.EnsureUniqueFilename`. Each is
proved against a function or a property stated outright.
`YouTube.DownloadFileName` has no loop of its own; it is a method only
because it calls `EnsureUniqueFilename`, and its contract restates that
method's choice of name for the sanitised title. The pure conditionals are
functions.

The environment becomes parameters:

- `strconv.ParseFloat` is `num: string -> Option<nat>`, used both for the
  fast path and for each colon segment, as in the code. `Decimal.ParseNat`
  (non-empty digit strings) is the instance the examples use.
- `%.3f` is `fixed3: nat -> string`.
- The file system is the finite set of paths that exist (`onDisk`,
  `existing`).
- `os.Executable`'s directory and `os.Getwd` are `Option<string>` values, with
  None standing for an error.
- `exec.LookPath`'s result is a string, "" when it found nothing.

`ensureUniqueFilename`'s loop has no bound in the code. It terminates
because the probed names are pairwise distinct (the counter's decimal
numeral is injective, and it sits between the stem and the extension) and
each failed probe hits an existing path. So the probed set grows inside the
finite set of existing paths, and the counter never exceeds its size.

The code does not check that a mute window's start precedes its end, nor
that the timestamps are well formed, and neither does the model: it takes
any strings, and a colon segment that `num` rejects counts as 0. This
matches Go for text that `ParseFloat` rejects outright; the values Go gets
from range errors, "Inf" and "NaN" are outside the model (see "Left out").

## Model

| member | source | states |
|---|---|---|
| GoPaths.TrimSuffix | main.go:127 | with the suffix present, the result followed by the suffix is the input; otherwise the input is returned unchanged |
| GoPaths.ExtFrom | main.go:126 | the backward scan from any position whose tail holds no dot and no separator yields the extension as characterised by `IsExtensionOf` |
| GoPaths.Ext | main.go:126 | the result is a suffix of the path that starts with '.', holds no separator and no other '.'; it is "" only when the last path element has no '.' |
| GoPaths.ExtUnique | main.go:126 | the characterisation determines the extension: any string meeting it equals `Ext(p)` |
| GoPaths.Stem | main.go:126-127 | the stem followed by the extension is the path again |
| GoPaths.ExtKeptUnderInfix | main.go:126-133 | inserting text with no '.' and no separator between stem and extension keeps the extension and grows the stem by exactly that text |
| GoPaths.ExtOfAppendedExtension | youtube.go:49 | a name followed by ".ext" (no further dot, no separator) has extension ".ext" and that name as stem |
| GoPaths.HasSuffix | mp3.go:18 | definition (`strings.HasSuffix`); no contract |
| GoPaths.JoinBin | main.go:246 | the joined path ends in `bin/<name>`; it is `bin/<name>` for "" and "."; otherwise it starts with the directory, with exactly one separator between directory and `bin` |
| Decimal.NatToString | youtube.go:83 | the numeral is a non-empty digit string whose value is n, with no leading zero |
| Decimal.ParseNatToString | youtube.go:83 | reading a numeral back gives its number |
| Decimal.NatToStringInjective | youtube.go:83 | distinct counters have distinct numerals |
| Decimal.IntToString | main.go:197 | a non-negative CRF prints as its numeral; a negative one as '-' followed by the numeral of its magnitude; no leading zero in either case |
| Text.Join | main.go:202 | definition (`strings.Join`); no contract of its own, `Text.Split` and `Text.SplitJoin` relate it to Split |
| Text.Split | main.go:217 | at least one piece, no piece holds the separator, and joining the pieces with it gives the input back |
| Text.SplitNoSeparator | main.go:217 | a string without the separator splits into itself alone |
| Text.SplitAfterPiece | main.go:217 | splitting `a`, separator, `b` gives `a` followed by the pieces of `b` |
| Text.SplitJoin | main.go:217 | Split undoes Join for a non-empty list of separator-free pieces |
| Text.ToLower | mp3.go:18 | same length; each character lower-cased in place (ASCII letters only) |
| Text.ToLowerConcat | mp3.go:18 | lower-casing distributes over concatenation |
| MuteCut.HasOptionConcat | main.go:196-205 | in a list built from whole flag/value pairs and a tail, an option occurs exactly when it occurs in one of the two parts |
| MuteCut.HasOptionPair | main.go:174 | a single pair carries just its own flag and value |
| MuteCut.InputArgs | main.go:171-181 | length 2 + 2 per time bound given; ends with `-i <input>`; `-ss <start>` first when a start is given, `-to <end>` just before `-i`; `-ss v` occurs exactly when the start is v and non-empty, likewise `-to`; no other flag than `-ss`, `-to`, `-i` |
| MuteCut.GetInputArgs | main.go:171-181 | the list grown by appends is `InputArgs(cfg)` |
| MuteCut.SegmentValue | main.go:222 | definition: a segment's reading, or 0 when `num` rejects it (the ignored error); no contract |
| MuteCut.PlaceValueSumSnoc | main.go:221-225 | adding a segment on the right multiplies the weighted sum of the others by 60 and adds the new segment |
| MuteCut.SnocStep | main.go:221-225 | the inductive step of the previous row, given it for the tail |
| MuteCut.PlaceValueSumIsSexagesimal | main.go:221-225 | the right-to-left sum with weights 60^k equals the left fold v := 60 v + segment |
| MuteCut.ParseTimeToSeconds | main.go:210-227 | the fast-path value when the whole string parses, otherwise the left fold over the colon segments (unparseable ones as 0); the loop keeps `multiplier == 60^k` and `seconds` as the weighted sum of the segments processed |
| MuteCut.ColonFreeTime | main.go:217-225 | a string with no colon is read as one segment: its value, or 0 |
| MuteCut.MinutesSeconds | main.go:216-225 | `M:S` that does not parse as a whole is 60 M + S |
| MuteCut.HoursMinutesSeconds | main.go:216-225 | `H:M:S` that does not parse as a whole is 3600 H + 60 M + S |
| MuteCut.ColonIsNotNumeral | main.go:212 | a string holding a colon fails the digit parser, so it takes the colon path |
| MuteCut.PlainSecondsExample | main.go:212-214 | "90" is 90 seconds |
| MuteCut.MinutesExample | main.go:216-226 | "01:30" is 90 seconds |
| MuteCut.HoursExample | main.go:216-226 | "01:00:00" is 3600 seconds |
| MuteCut.UnparseableSegmentExample | main.go:222 | with the digit-string parser `ParseNat` as `num`: `M:S` where S holds a non-digit is 60 M seconds (so "1:ab" is 60); the segment counts 0 and raises no error. Go's `ParseFloat` accepts some such S ("1.5", "1e2"), so this is about the `ParseNat` instance only |
| MuteCut.Muted | main.go:188 | definition: both mute ends given; no contract |
| MuteCut.MuteFilter | main.go:193 | definition: the `volume=0:enable='between(t,<start>,<end>)'` filter text; no contract |
| MuteCut.MuteFilterOf | main.go:190-193 | definition: the filter of the two parsed mute times printed by `fixed3`; no contract |
| MuteCut.CodecPairsHaveNoFilter | main.go:196-199 | the ten codec tokens carry no `-af` option |
| MuteCut.SimpleCutArgs | main.go:183-207 | the input part first, then exactly `-c:v libx264 -preset P -crf itoa(CRF) -c:a aac -b:a 192k`, then `-af <filter>` when both mute ends are given, then `-y <output>` last; `-af v` occurs exactly when both mute ends are given and v is the mute filter of the two parsed times |
| MuteCut.FilterOptionIff | main.go:188-203 | in input + codecs + filter part + `-y out`, `-af v` occurs exactly when the window is muted and v is the filter |
| MuteCut.InputHasNoFilter | main.go:171-181 | the input part never carries `-af` |
| MuteCut.FilterOptionOfCut | main.go:196-205 | an `-af` option of the cut command can only come from the filter part |
| MuteCut.Candidates | main.go:246-264 | two candidates per known directory, the executable's first: `exeDir/bin/name`, `exeDir/bin/name.exe`, then `cwd/bin/name`, `cwd/bin/name.exe` |
| MuteCut.FirstExisting | main.go:243-265 | Some(p): p exists and is the first existing candidate, all before it missing; None exactly when no candidate exists |
| MuteCut.FirstExistingConcat | main.go:244-264 | the search over two lists is the search over the first, and over the second only when the first finds nothing |
| MuteCut.ProbeDir | main.go:246-252 | one directory's probe is the search over `dir/bin/name`, then `dir/bin/name.exe` |
| MuteCut.DirCandidates | main.go:246-250 | a known directory contributes two candidates, none of them empty |
| MuteCut.ResolveBinaryFacts | main.go:243-264 | the executable's directory probe, then the working directory's probe, is the search over all four candidates in order |
| MuteCut.ResolveBinary | main.go:243-268 | the first existing of exeDir/bin/name, exeDir/bin/name.exe, cwd/bin/name, cwd/bin/name.exe, else the PATH lookup; "" exactly when the lookup gave "" and no candidate exists |
| Mp3.EndsWithMp3 | mp3.go:18 | definition: the lower-cased name has the suffix ".mp3"; no contract |
| Mp3.AppendMp3 | mp3.go:18-19 | appending ".mp3" always gives a name ending in ".mp3" in any case |
| Mp3.Mp3OutputName | mp3.go:11-22 | always ends in ".mp3" in any case; empty output: the input's stem + ".mp3"; a name already ending so: unchanged; otherwise the name + ".mp3"; a given name is always kept as prefix |
| Mp3.Mp3OutputNameIdempotent | mp3.go:16-20 | normalising a normalised name changes nothing, whatever the input file |
| Mp3.Mp3NameExtension | mp3.go:18 | a name that ends in ".mp3" in any case has an extension that lower-cases to ".mp3" |
| Mp3.ExtractAudioArgs | mp3.go:27-34 | exactly nine tokens `-i <input> -vn -acodec libmp3lame -q:a 2 -y <name>`, the normalised name last |
| Mp3.ExtractAudioIgnoresCutSettings | mp3.go:9-34 | the extraction command depends on the input and output names alone |
| Mp3.ExtractAudioOutputExtension | mp3.go:22-34 | the file extraction writes has extension ".mp3" in some letter case |
| YouTube.IsReserved | youtube.go:70 | definition: the character class of `<`, `>`, `:`, `"`, `/`, backslash, vertical bar, `?` and `*`; no contract |
| YouTube.SanitizeFilename | youtube.go:68-72 | same length; no reserved character left; every other character unchanged in place; each reserved one replaced by '_' |
| YouTube.SanitizeFilenameIdempotent | youtube.go:68-72 | sanitising twice is sanitising once |
| YouTube.Numbered | youtube.go:83 | definition: stem, "_", the counter in decimal, extension; no contract, `YouTube.NumberedProperties` states its properties |
| YouTube.NumberedProperties | youtube.go:79-83 | `stem_i.ext` keeps the extension, is longer than the path, and differs for different i |
| YouTube.EnsureUniqueFilename | youtube.go:74-88 | the result does not exist; a free path comes back unchanged; otherwise the result is `stem_i.ext` for an i between 1 and the number of existing paths with every smaller counter taken, i.e. the smallest free one; the loop terminates on every finite set |
| YouTube.ProbeStep | youtube.go:82-87 | the i-th probe is new, differs from the path, and adds exactly itself to the names probed |
| YouTube.DownloadFileName | youtube.go:47-51 | the sanitised title + ".mp4" when that is free, otherwise "title_i.mp4" for the smallest free i (between 1 and the number of existing paths); the name does not exist yet, has extension ".mp4", starts with the sanitised title and holds no reserved character |
| YouTube.NumberedStems | youtube.go:79-83 | every alternative of "title.mp4" up to a counter is "title_j.mp4" |
| YouTube.PlainDownloadName | youtube.go:48-49 | the sanitised title + ".mp4" is a valid download name |
| YouTube.NumberedDownloadName | youtube.go:79-83 | the numbered alternatives of "title.mp4" keep the title, the ".mp4" extension and the reserved-free character set |
| YouTube.NumberedStem | youtube.go:79-83 | the i-th alternative of "title.mp4" is "title_i.mp4" |
| Pipeline.DefaultSuffix | main.go:128-132 | definition: "_cleaned", plus "_muted" when a mute start is given; no contract |
| Pipeline.DefaultOutputName | main.go:124-134 | a given output name is kept; otherwise the result keeps the input's extension, has the input's stem + "_cleaned" (+ "_muted" when a mute start is given) as stem, and is longer than the input; never empty |
| Pipeline.DefaultNameFacts | main.go:126-133 | both suffixes keep the extension and extend the stem by exactly themselves |
| Pipeline.Mp4Parts | main.go:126-127 | any name + ".mp4" has extension ".mp4" and that name as stem |
| Pipeline.DefaultOutputNameOf | main.go:124-134 | the default name is stem + suffix + extension |
| Pipeline.DefaultOutputNameExample | main.go:124-134 | "x.mp4" becomes "x_cleaned.mp4" |
| Pipeline.DefaultMutedOutputNameExample | main.go:130-133 | with a mute start "x.mp4" becomes "x_cleaned_muted.mp4" |
| Pipeline.MutedNameWithoutMuteFilter | main.go:130-132 | a mute start without a mute end gives the "_muted" name but no mute filter |
| Pipeline.Mp3TargetAsWritten | main.go:124-138 | the MP3 name as the program computes it normalises the already-filled default, so with no `-o` it is never stem + ".mp3" |
| Pipeline.Mp3TargetAsWrittenExample | mp3.go:11-15 | with no `-o`, "x.mp4" is extracted to "x_cleaned.mp4.mp3" |
| Pipeline.AsWrittenAppendsToDefault | mp3.go:16-20 | when the cut default is not an MP3 name, ".mp3" is appended to it |
| Pipeline.CleanedNameIsNotMp3 | mp3.go:18 | the cut default of an ".mp4" input does not end in ".mp3" |
| Pipeline.Mp3Target | mp3.go:11-21 | with no `-o`: the input's stem + ".mp3", whose extension is ".mp3" and stem the input's; otherwise the normalised `-o` |
| Pipeline.Mp3TargetExample | mp3.go:12-15 | with no `-o`, "x.mp4" is extracted to "x.mp3" |

## Left out

- Flag parsing, the interactive prompts, the URL detection and the input checks of `main` (main.go:40-122) are command-line and file-system I/O.
- The dispatch between cut and extraction (main.go:163-167) and the check that both executables were found (main.go:149-156) are process control around `os.Exit`; they are not members of the model.
- `runFFmpeg` (main.go:229-241), `printStats`, `os.MkdirAll` and the timing code are process I/O and side effects.
- Downloading (youtube.go:14-45, 52-65) is a network client over a third-party library; only the file name it saves under is modelled.
- `MaxVideoLen`, `MaxFileSize` and the `Segment` type are declared but never used by the modelled code.
- MuteCut.ParseTimeToSeconds: segment and fast-path values are naturals from the abstract `num`; fractions, negative values, float rounding and `ParseFloat`'s exact syntax are not modelled. Nor are its special values: on a range error `ParseFloat` returns ±Inf together with the error, and main.go:222 keeps that value, so Go reads "1e999:00" as +Inf seconds where the model (with `num` rejecting the text) reads 0; the fast path at main.go:212 also accepts "Inf" and "NaN".
- MuteCut.MuteFilterOf: the `%.3f` rendering of the two times is the abstract `fixed3`.
- MuteCut.ResolveBinary: the directory of `os.Executable`, `os.Getwd` and `exec.LookPath` are given values; `os.Stat` success is membership of a set.
- GoPaths.JoinBin: models `filepath.Join(dir, "bin", name)` only for a `dir` that is already clean, which is what `filepath.Dir` and `os.Getwd` return (including "", "." and "/"); the cleaning of other directories (such as "a/../b" or "a//b") is not modelled.
- GoPaths.Ext: the path separator is '/' only; the Windows separator '\\' and volume names are not modelled.
- Text.ToLower: lower-cases ASCII letters only, not the full Unicode mapping of `strings.ToLower`.
- Strings are sequences of characters; the byte-wise UTF-8 indexing of Go strings is not modelled.
- YouTube.EnsureUniqueFilename: a name counts as free exactly when it is not in the set. `os.Stat` errors other than "does not exist" are not modelled. In Go such an error makes the probe count as taken, so if `os.Stat` keeps failing that way (for example, permission denied on the directory), the loop at youtube.go:82-87 never ends. The termination proof holds only because the model's finite set excludes that case.

## Findings

| source | as written | input that shows it | evidently intended | confidence | as-written member | corrected member |
|---|---|---|---|---|---|---|
| main.go:124-134 | `main` fills the default cut name into `OutputFile` before `extractAudio` runs, so the empty-output branch of mp3.go:12-15 never runs | `-i a.mp4 -mp3` with no `-o`: the audio goes to `a_cleaned.mp4.mp3` | `a.mp3`, the input's stem with ".mp3" (mp3.go:12-15) | medium, not executed | Pipeline.Mp3TargetAsWrittenExample | Pipeline.Mp3Target |
