/**
 * The encoder argument lists of the trim/mute operation, the timestamp
 * parser, and the search for the encoder binaries.
 *
 * Two things the tool leaves to Go's runtime are parameters here:
 * `num` stands for strconv.ParseFloat restricted to whole seconds (None
 * where it rejects the text; the ±Inf it returns with a range error and
 * the NaN and Inf it accepts are outside this model), and `fixed3` prints
 * a number of seconds with %.3f.
 */
module MuteCut {
  import opened Wrappers
  import opened GoPaths
  import opened Decimal
  import opened Text
  import opened Settings

  /** Reading `args` as flag/value pairs from the front, one pair is `flag` followed by `value`. */
  predicate HasOption(args: seq<string>, flag: string, value: string)
    decreases |args|
  {
    |args| >= 2 && ((args[0] == flag && args[1] == value) || HasOption(args[2..], flag, value))
  }

  /** Options of a concatenation whose first part is made of whole pairs. */
  lemma {:induction false} HasOptionConcat(a: seq<string>, b: seq<string>, flag: string, value: string)
    requires |a| % 2 == 0
    ensures HasOption(a + b, flag, value) <==> HasOption(a, flag, value) || HasOption(b, flag, value)
    decreases |a|
  {
    if |a| >= 2 {
      HasOptionConcat(a[2..], b, flag, value);
      assert (a + b)[2..] == a[2..] + b;
    } else {
      assert a + b == b;
    }
  }

  /** The options of a single pair. */
  lemma {:induction false} HasOptionPair(f: string, v: string, flag: string, value: string)
    ensures HasOption([f, v], flag, value) <==> flag == f && value == v
  {
    assert !HasOption([f, v][2..], flag, value);
  }

  // ---------------------------------------------------------------------
  // getInputArgs
  // ---------------------------------------------------------------------

  /**
   * The input part of the encoder command: a seek-start pair when a start
   * time is given, a seek-end pair when an end time is given, then the
   * input file.
   */
  function InputArgs(cfg: Config): (args: seq<string>)
    ensures |args| == 2 + (if cfg.startTime != "" then 2 else 0) + (if cfg.endTime != "" then 2 else 0)
    ensures args[|args| - 2..] == ["-i", cfg.inputFile]
    ensures cfg.startTime != "" ==> args[..2] == ["-ss", cfg.startTime]
    ensures cfg.endTime != "" ==> args[|args| - 4..|args| - 2] == ["-to", cfg.endTime]
    ensures forall v :: HasOption(args, "-ss", v) <==> cfg.startTime != "" && v == cfg.startTime
    ensures forall v :: HasOption(args, "-to", v) <==> cfg.endTime != "" && v == cfg.endTime
    ensures forall flag, v :: HasOption(args, flag, v) ==> flag == "-ss" || flag == "-to" || flag == "-i"
  {
    var ss := if cfg.startTime != "" then ["-ss", cfg.startTime] else [];
    var to := if cfg.endTime != "" then ["-to", cfg.endTime] else [];
    var args := ss + to + ["-i", cfg.inputFile];
    forall flag, v
      ensures HasOption(args, flag, v) <==>
        (cfg.startTime != "" && flag == "-ss" && v == cfg.startTime) ||
        (cfg.endTime != "" && flag == "-to" && v == cfg.endTime) ||
        (flag == "-i" && v == cfg.inputFile)
    {
      HasOptionConcat(ss + to, ["-i", cfg.inputFile], flag, v);
      HasOptionConcat(ss, to, flag, v);
      HasOptionPair("-i", cfg.inputFile, flag, v);
      if cfg.startTime != "" { HasOptionPair("-ss", cfg.startTime, flag, v); }
      if cfg.endTime != "" { HasOptionPair("-to", cfg.endTime, flag, v); }
    }
    args
  }

  /** getInputArgs: grows the argument list pair by pair. */
  method GetInputArgs(cfg: Config) returns (args: seq<string>)
    ensures args == InputArgs(cfg)
  {
    args := [];
    if cfg.startTime != "" {
      args := args + ["-ss", cfg.startTime];
    }
    if cfg.endTime != "" {
      args := args + ["-to", cfg.endTime];
    }
    args := args + ["-i", cfg.inputFile];
  }

  // ---------------------------------------------------------------------
  // parseTimeToSeconds
  // ---------------------------------------------------------------------

  /** What one colon-separated segment adds: its reading, or 0 when it does not parse. */
  function SegmentValue(part: string, num: string -> Option<nat>): nat {
    num(part).GetOr(0)
  }

  function Pow60(k: nat): nat {
    if k == 0 then 1 else 60 * Pow60(k - 1)
  }

  /** Base-60 reading of the segments, left to right: v := v * 60 + segment. */
  function Sexagesimal(parts: seq<string>, num: string -> Option<nat>): nat
    decreases |parts|
  {
    if parts == [] then 0
    else Sexagesimal(parts[..|parts| - 1], num) * 60 + SegmentValue(parts[|parts| - 1], num)
  }

  /** Place-value sum: the segment at position k from the right weighs 60^k. */
  function PlaceValueSum(parts: seq<string>, num: string -> Option<nat>): nat
    decreases |parts|
  {
    if parts == [] then 0
    else SegmentValue(parts[0], num) * Pow60(|parts| - 1) + PlaceValueSum(parts[1..], num)
  }

  /** Adding a segment on the right multiplies the place-value sum of the others by 60. */
  lemma {:induction false} PlaceValueSumSnoc(parts: seq<string>, num: string -> Option<nat>)
    requires parts != []
    ensures PlaceValueSum(parts, num)
         == PlaceValueSum(parts[..|parts| - 1], num) * 60 + SegmentValue(parts[|parts| - 1], num)
    decreases |parts|
  {
    if |parts| > 1 {
      PlaceValueSumSnoc(parts[1..], num);
      SnocStep(parts, num);
    }
  }

  /** The inductive step of PlaceValueSumSnoc, given the claim for the tail. */
  lemma {:induction false} SnocStep(parts: seq<string>, num: string -> Option<nat>)
    requires |parts| > 1
    requires PlaceValueSum(parts[1..], num)
          == PlaceValueSum(parts[1..][..|parts| - 2], num) * 60 + SegmentValue(parts[|parts| - 1], num)
    ensures PlaceValueSum(parts, num)
         == PlaceValueSum(parts[..|parts| - 1], num) * 60 + SegmentValue(parts[|parts| - 1], num)
  {
    var n := |parts|;
    var init := parts[..n - 1];
    assert parts[1..][..n - 2] == init[1..];
    assert init[0] == parts[0];
    var x := SegmentValue(parts[0], num);
    var y := SegmentValue(parts[n - 1], num);
    var rest := PlaceValueSum(init[1..], num);
    var p := Pow60(n - 2);
    var q := Pow60(n - 1);
    assert q == 60 * p;
    var tail := PlaceValueSum(parts[1..], num);
    assert tail == rest * 60 + y;
    assert PlaceValueSum(parts, num) == x * q + tail;
    assert PlaceValueSum(init, num) == x * p + rest;
    ScaleDistributes(x, p, rest);
  }

  /** x * (60 * p) + 60 * r, regrouped. */
  lemma {:induction false} ScaleDistributes(x: nat, p: nat, r: nat)
    ensures x * (60 * p) + r * 60 == (x * p + r) * 60
  {
  }

  /** The two readings agree: the right-to-left loop computes the left fold. */
  lemma {:induction false} PlaceValueSumIsSexagesimal(parts: seq<string>, num: string -> Option<nat>)
    ensures PlaceValueSum(parts, num) == Sexagesimal(parts, num)
    decreases |parts|
  {
    if parts != [] {
      PlaceValueSumSnoc(parts, num);
      PlaceValueSumIsSexagesimal(parts[..|parts| - 1], num);
    }
  }

  /** The seconds a timestamp denotes: a plain number as such, otherwise its colon segments in base 60. */
  function TimeValue(ts: string, num: string -> Option<nat>): nat {
    match num(ts)
    case Some(v) => v
    case None => Sexagesimal(Split(ts, ':'), num)
  }

  /** parseTimeToSeconds: the fast path, then a down-counting loop with a running multiplier. */
  method ParseTimeToSeconds(ts: string, num: string -> Option<nat>) returns (seconds: nat)
    ensures seconds == TimeValue(ts, num)
  {
    var fast := num(ts);
    if fast.Some? {
      return fast.value;
    }
    var parts := Split(ts, ':');
    seconds := 0;
    var multiplier: nat := 1;
    var i: int := |parts| - 1;
    while i >= 0
      invariant -1 <= i < |parts|
      invariant multiplier == Pow60(|parts| - 1 - i)
      invariant seconds == PlaceValueSum(parts[i + 1..], num)
    {
      assert parts[i..][1..] == parts[i + 1..];
      seconds := seconds + SegmentValue(parts[i], num) * multiplier;
      multiplier := multiplier * 60;
      i := i - 1;
    }
    PlaceValueSumIsSexagesimal(parts, num);
  }

  /** A timestamp without colons is read as a single segment: 0 when it does not parse, never an error. */
  lemma {:induction false} ColonFreeTime(ts: string, num: string -> Option<nat>)
    requires ':' !in ts
    ensures TimeValue(ts, num) == SegmentValue(ts, num)
  {
    SplitNoSeparator(ts, ':');
  }

  /** "M:S" is 60 M + S, where a segment that does not parse counts as 0. */
  lemma {:induction false} MinutesSeconds(m: string, s: string, num: string -> Option<nat>)
    requires ':' !in m && ':' !in s
    requires num(m + ":" + s) == None
    ensures TimeValue(m + ":" + s, num) == 60 * SegmentValue(m, num) + SegmentValue(s, num)
  {
    var parts := [m, s];
    assert Join(parts, ':') == m + ":" + s by {
      assert parts[1..] == [s];
    }
    SplitJoin(parts, ':');
    assert parts[..1] == [m];
    assert [m][..0] == [];
    assert Sexagesimal([m], num) == SegmentValue(m, num);
    assert Sexagesimal(parts, num) == Sexagesimal([m], num) * 60 + SegmentValue(s, num);
  }

  /** "H:M:S" is 3600 H + 60 M + S, where a segment that does not parse counts as 0. */
  lemma {:induction false} HoursMinutesSeconds(h: string, m: string, s: string, num: string -> Option<nat>)
    requires ':' !in h && ':' !in m && ':' !in s
    requires num(h + ":" + m + ":" + s) == None
    ensures TimeValue(h + ":" + m + ":" + s, num)
         == 3600 * SegmentValue(h, num) + 60 * SegmentValue(m, num) + SegmentValue(s, num)
  {
    var parts := [h, m, s];
    assert Join(parts, ':') == h + ":" + m + ":" + s by {
      assert parts[1..] == [m, s];
      assert [m, s][1..] == [s];
      assert Join([m, s], ':') == m + ":" + s;
    }
    SplitJoin(parts, ':');
    assert parts[..2] == [h, m];
    assert [h, m][..1] == [h];
    assert [h][..0] == [];
    assert Sexagesimal([h], num) == SegmentValue(h, num);
    assert Sexagesimal([h, m], num) == Sexagesimal([h], num) * 60 + SegmentValue(m, num);
    assert Sexagesimal(parts, num) == Sexagesimal([h, m], num) * 60 + SegmentValue(s, num);
  }

  /** A string holding a colon is not a plain decimal numeral. */
  lemma {:induction false} ColonIsNotNumeral(s: string, k: nat)
    requires k < |s| && s[k] == ':'
    ensures ParseNat(s) == None
  {
    assert !IsDigit(s[k]);
  }

  /** The reading of a two-digit numeral. */
  lemma {:induction false} TwoDigitValue(s: string)
    requires |s| == 2 && IsDigits(s)
    ensures ParseNat(s) == Some(10 * (s[0] as int - '0' as int) + (s[1] as int - '0' as int))
  {
    var first := s[..1];
    assert first[..0] == "" && first[0] == s[0];
    assert DigitsValue(first) == s[0] as int - '0' as int;
    assert DigitsValue(s) == DigitsValue(first) * 10 + (s[1] as int - '0' as int);
  }

  /** A plain number takes the fast path: "90" is 90 seconds. */
  lemma PlainSecondsExample()
    ensures TimeValue("90", ParseNat) == 90
  {
    TwoDigitValue("90");
  }

  /** "01:30" is 90 seconds. */
  lemma MinutesExample()
    ensures TimeValue("01:30", ParseNat) == 90
  {
    var m, s := "01", "30";
    assert m + ":" + s == "01:30";
    ColonIsNotNumeral("01:30", 2);
    TwoDigitValue(m);
    TwoDigitValue(s);
    MinutesSeconds(m, s, ParseNat);
  }

  /** "01:00:00" is 3600 seconds. */
  lemma HoursExample()
    ensures TimeValue("01:00:00", ParseNat) == 3600
  {
    var h, m := "01", "00";
    assert h + ":" + m + ":" + m == "01:00:00";
    ColonIsNotNumeral("01:00:00", 2);
    TwoDigitValue(h);
    TwoDigitValue(m);
    HoursMinutesSeconds(h, m, m, ParseNat);
  }

  /** A segment that is not a number counts as 0: "M:S" with a non-numeric S is 60 M seconds ("1:ab" is 60). */
  lemma {:induction false} UnparseableSegmentExample(m: string, s: string, k: nat)
    requires m != "" && IsDigits(m)
    requires k < |s| && !IsDigit(s[k]) && ':' !in s
    ensures TimeValue(m + ":" + s, ParseNat) == 60 * DigitsValue(m)
  {
    assert (m + ":" + s)[|m|] == ':';
    ColonIsNotNumeral(m + ":" + s, |m|);
    assert ParseNat(s) == None;
    assert ParseNat(m) == Some(DigitsValue(m));
    assert ':' !in m by {
      assert forall i :: 0 <= i < |m| ==> IsDigit(m[i]);
    }
    MinutesSeconds(m, s, ParseNat);
  }

  // ---------------------------------------------------------------------
  // simpleCut
  // ---------------------------------------------------------------------

  /** A mute window is applied only when both of its ends are given. */
  predicate Muted(cfg: Config) {
    cfg.muteStart != "" && cfg.muteEnd != ""
  }

  /** The audio filter that silences the window between two printed second offsets. */
  function MuteFilter(startText: string, endText: string): string {
    "volume=0:enable='between(t," + startText + "," + endText + ")'"
  }

  /** The filter simpleCut passes for the configured mute window. */
  function MuteFilterOf(cfg: Config, num: string -> Option<nat>, fixed3: nat -> string): string {
    MuteFilter(fixed3(TimeValue(cfg.muteStart, num)), fixed3(TimeValue(cfg.muteEnd, num)))
  }

  /** The codec options never carry an audio filter. */
  lemma {:induction false} CodecPairsHaveNoFilter(preset: string, crf: string, v: string)
    ensures !HasOption(["-c:v", "libx264", "-preset", preset, "-crf", crf, "-c:a", "aac", "-b:a", "192k"], "-af", v)
  {
    var p1, p2, p3, p4, p5 := ["-c:v", "libx264"], ["-preset", preset], ["-crf", crf], ["-c:a", "aac"], ["-b:a", "192k"];
    assert ["-c:v", "libx264", "-preset", preset, "-crf", crf, "-c:a", "aac", "-b:a", "192k"]
        == p1 + (p2 + (p3 + (p4 + p5)));
    HasOptionConcat(p1, p2 + (p3 + (p4 + p5)), "-af", v);
    HasOptionConcat(p2, p3 + (p4 + p5), "-af", v);
    HasOptionConcat(p3, p4 + p5, "-af", v);
    HasOptionConcat(p4, p5, "-af", v);
    HasOptionPair("-c:v", "libx264", "-af", v);
    HasOptionPair("-preset", preset, "-af", v);
    HasOptionPair("-crf", crf, "-af", v);
    HasOptionPair("-c:a", "aac", "-af", v);
    HasOptionPair("-b:a", "192k", "-af", v);
  }

  /**
   * The arguments simpleCut hands to the encoder: the input part, the fixed
   * video and audio codec options, the mute filter when both mute ends are
   * given, and the overwrite flag with the output file last.
   */
  method SimpleCutArgs(cfg: Config, num: string -> Option<nat>, fixed3: nat -> string) returns (args: seq<string>)
    ensures |args| == |InputArgs(cfg)| + 10 + (if Muted(cfg) then 2 else 0) + 2
    ensures args[..|InputArgs(cfg)|] == InputArgs(cfg)
    ensures args[|InputArgs(cfg)|..|InputArgs(cfg)| + 10]
         == ["-c:v", "libx264", "-preset", cfg.preset, "-crf", IntToString(cfg.crf), "-c:a", "aac", "-b:a", "192k"]
    ensures Muted(cfg) ==> args[|args| - 4..|args| - 2] == ["-af", MuteFilterOf(cfg, num, fixed3)]
    ensures forall v :: HasOption(args, "-af", v) <==> Muted(cfg) && v == MuteFilterOf(cfg, num, fixed3)
    ensures args[|args| - 2..] == ["-y", cfg.outputFile]
  {
    var inputArgs := GetInputArgs(cfg);

    var filters: seq<string> := [];
    if cfg.muteStart != "" && cfg.muteEnd != "" {
      var startSec := ParseTimeToSeconds(cfg.muteStart, num);
      var endSec := ParseTimeToSeconds(cfg.muteEnd, num);
      filters := filters + [MuteFilter(fixed3(startSec), fixed3(endSec))];
      assert filters == [MuteFilterOf(cfg, num, fixed3)];
    }
    ghost var filterPart := if Muted(cfg) then ["-af", MuteFilterOf(cfg, num, fixed3)] else [];

    args := inputArgs + ["-c:v", "libx264", "-preset", cfg.preset, "-crf", IntToString(cfg.crf), "-c:a", "aac", "-b:a", "192k"];
    ghost var codecs := args[|inputArgs|..];
    assert args == inputArgs + codecs;

    if |filters| > 0 {
      args := args + ["-af", Join(filters, ',')];
    }
    assert args == inputArgs + codecs + filterPart;

    args := args + ["-y", cfg.outputFile];
    CutArgsLayout(inputArgs, codecs, filterPart, ["-y", cfg.outputFile]);
    FilterOptionIff(cfg, inputArgs, codecs, filterPart, cfg.outputFile, MuteFilterOf(cfg, num, fixed3));
  }

  /** The audio-filter option of a cut command is present exactly when both mute ends are given. */
  lemma {:induction false} FilterOptionIff(cfg: Config, input: seq<string>, codecs: seq<string>, filterPart: seq<string>, out: string, f: string)
    requires input == InputArgs(cfg)
    requires codecs == ["-c:v", "libx264", "-preset", cfg.preset, "-crf", IntToString(cfg.crf), "-c:a", "aac", "-b:a", "192k"]
    requires filterPart == if Muted(cfg) then ["-af", f] else []
    ensures forall v :: HasOption(input + codecs + filterPart + ["-y", out], "-af", v) <==> Muted(cfg) && v == f
  {
    forall v ensures HasOption(input + codecs + filterPart + ["-y", out], "-af", v) <==> Muted(cfg) && v == f {
      FilterOptionAt(cfg, input, codecs, filterPart, out, f, v);
    }
  }

  /** FilterOptionIff for one value. */
  lemma {:induction false} FilterOptionAt(cfg: Config, input: seq<string>, codecs: seq<string>, filterPart: seq<string>, out: string, f: string, v: string)
    requires input == InputArgs(cfg)
    requires codecs == ["-c:v", "libx264", "-preset", cfg.preset, "-crf", IntToString(cfg.crf), "-c:a", "aac", "-b:a", "192k"]
    requires filterPart == if Muted(cfg) then ["-af", f] else []
    ensures HasOption(input + codecs + filterPart + ["-y", out], "-af", v) <==> Muted(cfg) && v == f
  {
    InputHasNoFilter(cfg, v);
    CodecPairsHaveNoFilter(cfg.preset, IntToString(cfg.crf), v);
    assert |codecs| == 10;
    FilterOptionOfCut(input, codecs, filterPart, out, v);
    if Muted(cfg) {
      HasOptionPair("-af", f, "-af", v);
    } else {
      assert filterPart == [];
    }
  }

  /** The input part of a command never carries an audio filter. */
  lemma {:induction false} InputHasNoFilter(cfg: Config, v: string)
    ensures !HasOption(InputArgs(cfg), "-af", v)
  {
    assert "-af"[1] != "-ss"[1] && "-af"[1] != "-to"[1] && "-af"[1] != "-i"[1];
  }

  /** The four parts of a cut command can be read back from it. */
  lemma {:induction false} CutArgsLayout(a: seq<string>, b: seq<string>, c: seq<string>, d: seq<string>)
    ensures var s := a + b + c + d;
      && |s| == |a| + |b| + |c| + |d|
      && s[..|a|] == a
      && s[|a|..|a| + |b|] == b
      && s[|a| + |b|..|s| - |d|] == c
      && s[|s| - |d|..] == d
  {
  }

  /** Where the only audio-filter option of a cut command can come from. */
  lemma {:induction false} FilterOptionOfCut(input: seq<string>, codecs: seq<string>, filterPart: seq<string>, out: string, v: string)
    requires |input| % 2 == 0 && |codecs| % 2 == 0 && |filterPart| % 2 == 0
    requires !HasOption(input, "-af", v) && !HasOption(codecs, "-af", v)
    ensures HasOption(input + codecs + filterPart + ["-y", out], "-af", v) <==> HasOption(filterPart, "-af", v)
  {
    HasOptionConcat(input + codecs + filterPart, ["-y", out], "-af", v);
    HasOptionPair("-y", out, "-af", v);
    HasOptionConcat(input + codecs, filterPart, "-af", v);
    HasOptionConcat(input, codecs, "-af", v);
  }

  // ---------------------------------------------------------------------
  // resolveBinary
  // ---------------------------------------------------------------------

  /**
   * The places resolveBinary tries, in order: bin/ next to the executable
   * (when its directory is known), then bin/ under the working directory
   * (when known), each as the bare name and with ".exe".
   */
  function Candidates(name: string, exeDir: Option<string>, cwd: Option<string>): (c: seq<string>)
    ensures |c| == (if exeDir.Some? then 2 else 0) + (if cwd.Some? then 2 else 0)
    ensures exeDir.Some? ==> c[0] == JoinBin(exeDir.value, name) && c[1] == JoinBin(exeDir.value, name) + ".exe"
    ensures cwd.Some? ==> c[|c| - 2] == JoinBin(cwd.value, name) && c[|c| - 1] == JoinBin(cwd.value, name) + ".exe"
  {
    var a := DirCandidates(name, exeDir);
    var b := DirCandidates(name, cwd);
    assert |a + b| == |a| + |b|;
    assert exeDir.Some? ==> (a + b)[0] == a[0] && (a + b)[1] == a[1];
    assert cwd.Some? ==> (a + b)[|a + b| - 2] == b[0] && (a + b)[|a + b| - 1] == b[1];
    a + b
  }

  /** The first of `paths` that is on disk, if any. */
  function FirstExisting(paths: seq<string>, onDisk: set<string>): (r: Option<string>)
    ensures r.Some? ==> r.value in onDisk
    ensures r.Some? ==> exists k :: 0 <= k < |paths| && paths[k] == r.value && forall j :: 0 <= j < k ==> paths[j] !in onDisk
    ensures r.None? <==> forall k :: 0 <= k < |paths| ==> paths[k] !in onDisk
    decreases |paths|
  {
    if paths == [] then None
    else if paths[0] in onDisk then Some(paths[0])
    else
      var r := FirstExisting(paths[1..], onDisk);
      if r.Some? then
        var k :| 0 <= k < |paths[1..]| && paths[1..][k] == r.value && forall j :: 0 <= j < k ==> paths[1..][j] !in onDisk;
        assert paths[k + 1] == r.value && forall j :: 0 <= j < k + 1 ==> paths[j] !in onDisk;
        r
      else
        r
  }

  /** FirstExisting over a concatenation: the first part is searched first. */
  lemma {:induction false} FirstExistingConcat(a: seq<string>, b: seq<string>, onDisk: set<string>)
    ensures FirstExisting(a + b, onDisk)
         == if FirstExisting(a, onDisk).Some? then FirstExisting(a, onDisk) else FirstExisting(b, onDisk)
    decreases |a|
  {
    if a == [] {
      assert a + b == b;
    } else {
      assert (a + b)[0] == a[0];
      assert (a + b)[1..] == a[1..] + b;
      FirstExistingConcat(a[1..], b, onDisk);
    }
  }

  /** One directory's probe in resolveBinary: the bare name, then the name with ".exe". */
  function ProbeDir(dir: string, name: string, onDisk: set<string>): (r: Option<string>)
    ensures r == FirstExisting([JoinBin(dir, name), JoinBin(dir, name) + ".exe"], onDisk)
  {
    var binPath := JoinBin(dir, name);
    assert [binPath, binPath + ".exe"][1..] == [binPath + ".exe"];
    assert [binPath + ".exe"][1..] == [];
    if binPath in onDisk then Some(binPath)
    else if binPath + ".exe" in onDisk then Some(binPath + ".exe")
    else None
  }

  /**
   * resolveBinary: the first candidate that is on disk, and otherwise what
   * the PATH lookup gave ("" when it found nothing). `exeDir` is the
   * directory of the running executable and `cwd` the working directory,
   * None where the runtime reported an error; `onDisk` is the set of paths
   * os.Stat succeeds on.
   */
  function ResolveBinary(name: string, exeDir: Option<string>, cwd: Option<string>,
                         onDisk: set<string>, lookPath: string): (path: string)
    ensures path == FirstExisting(Candidates(name, exeDir, cwd), onDisk).GetOr(lookPath)
    ensures path == "" <==> (lookPath == "" && forall c :: c in Candidates(name, exeDir, cwd) ==> c !in onDisk)
  {
    var fromExe := if exeDir.Some? then ProbeDir(exeDir.value, name, onDisk) else None;
    var fromCwd := if cwd.Some? then ProbeDir(cwd.value, name, onDisk) else None;
    ResolveBinaryFacts(name, exeDir, cwd, onDisk);
    if fromExe.Some? then fromExe.value
    else if fromCwd.Some? then fromCwd.value
    else lookPath
  }

  /** The two directory probes together are the search over all candidates. */
  lemma {:induction false} ResolveBinaryFacts(name: string, exeDir: Option<string>, cwd: Option<string>, onDisk: set<string>)
    ensures FirstExisting(Candidates(name, exeDir, cwd), onDisk)
         == var e := if exeDir.Some? then ProbeDir(exeDir.value, name, onDisk) else None;
            if e.Some? then e else if cwd.Some? then ProbeDir(cwd.value, name, onDisk) else None
    ensures forall c :: c in Candidates(name, exeDir, cwd) ==> c != ""
  {
    var a := DirCandidates(name, exeDir);
    var b := DirCandidates(name, cwd);
    assert Candidates(name, exeDir, cwd) == a + b;
    FirstExistingConcat(a, b, onDisk);
    DirCandidatesProbe(name, exeDir, onDisk);
    DirCandidatesProbe(name, cwd, onDisk);
  }

  /** The two candidates of one directory, if it is known. */
  function DirCandidates(name: string, dir: Option<string>): (c: seq<string>)
    ensures dir.None? ==> c == []
    ensures dir.Some? ==> |c| == 2 && c[0] == JoinBin(dir.value, name) && c[1] == JoinBin(dir.value, name) + ".exe"
    ensures forall k :: 0 <= k < |c| ==> c[k] != ""
  {
    if dir.Some? then [JoinBin(dir.value, name), JoinBin(dir.value, name) + ".exe"] else []
  }

  /** Searching one directory's candidates is its probe. */
  lemma {:induction false} DirCandidatesProbe(name: string, dir: Option<string>, onDisk: set<string>)
    ensures FirstExisting(DirCandidates(name, dir), onDisk)
         == if dir.Some? then ProbeDir(dir.value, name, onDisk) else None
  {
  }
}
