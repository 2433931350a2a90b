/**
 * What the command line feeds the two operations: the default output name,
 * and (as a finding) how that default meets the MP3 naming rule.
 */
module Pipeline {
  import opened GoPaths
  import opened Mp3
  import opened Text
  import opened Settings
  import MuteCut

  /** The text the default output name inserts before the extension: "_cleaned", then "_muted" when a mute start is given. */
  function DefaultSuffix(muteStart: string): string {
    if muteStart != "" then "_cleaned_muted" else "_cleaned"
  }

  /**
   * The output name when none is given: the input's stem, "_cleaned", then
   * "_muted" when a mute start is given, then the input's extension. The
   * result keeps the input's extension, extends its stem by exactly that
   * suffix, and so is never the input itself.
   */
  function DefaultOutputName(input: string, outputFlag: string, muteStart: string): (out: string)
    ensures outputFlag != "" ==> out == outputFlag
    ensures outputFlag == "" ==> Ext(out) == Ext(input)
    ensures outputFlag == "" ==> Stem(out) == Stem(input) + DefaultSuffix(muteStart)
    ensures outputFlag == "" ==> |out| > |input|
    ensures out != ""
  {
    if outputFlag != "" then outputFlag
    else
      var ext := Ext(input);
      var base := TrimSuffix(input, ext);
      var suffix := DefaultSuffix(muteStart);
      DefaultNameFacts(input, suffix);
      base + suffix + ext
  }

  /** Inserting either default suffix keeps the extension and lengthens the stem by it. */
  lemma {:induction false} DefaultNameFacts(input: string, suffix: string)
    requires suffix == "_cleaned" || suffix == "_cleaned_muted"
    ensures Ext(Stem(input) + suffix + Ext(input)) == Ext(input)
    ensures Stem(Stem(input) + suffix + Ext(input)) == Stem(input) + suffix
  {
    assert forall k :: 0 <= k < |suffix| ==> suffix[k] != '.' && !IsPathSeparator(suffix[k]);
    ExtKeptUnderInfix(input, suffix);
  }

  /** Any name followed by ".mp4" has that extension and that stem. */
  lemma {:induction false} Mp4Parts(b: string)
    ensures Ext(b + ".mp4") == ".mp4" && Stem(b + ".mp4") == b
  {
    ExtOfAppendedExtension(b, ".mp4");
  }

  /** The default name of an input whose stem and extension are known. */
  lemma {:induction false} DefaultOutputNameOf(input: string, b: string, e: string, muteStart: string)
    requires Stem(input) == b && Ext(input) == e
    ensures DefaultOutputName(input, "", muteStart) == b + DefaultSuffix(muteStart) + e
  {
  }

  /** "x.mp4" becomes "x_cleaned.mp4" (so "a.mp4" becomes "a_cleaned.mp4"). */
  lemma {:induction false} DefaultOutputNameExample(b: string)
    ensures DefaultOutputName(b + ".mp4", "", "") == b + "_cleaned.mp4"
  {
    Mp4Parts(b);
    DefaultOutputNameOf(b + ".mp4", b, ".mp4", "");
    assert b + "_cleaned" + ".mp4" == b + "_cleaned.mp4";
  }

  /** With a mute start, "x.mp4" becomes "x_cleaned_muted.mp4". */
  lemma {:induction false} DefaultMutedOutputNameExample(b: string, muteStart: string)
    requires muteStart != ""
    ensures DefaultOutputName(b + ".mp4", "", muteStart) == b + "_cleaned_muted.mp4"
  {
    Mp4Parts(b);
    DefaultOutputNameOf(b + ".mp4", b, ".mp4", muteStart);
    assert b + "_cleaned_muted" + ".mp4" == b + "_cleaned_muted.mp4";
  }

  /**
   * The "_muted" suffix follows the mute start alone, while the filter needs
   * both ends: a mute start without a mute end names the file "_muted" and
   * mutes nothing.
   */
  lemma {:induction false} MutedNameWithoutMuteFilter(cfg: Config)
    requires cfg.muteStart != "" && cfg.muteEnd == ""
    ensures !MuteCut.Muted(cfg)
    ensures DefaultOutputName(cfg.inputFile, "", cfg.muteStart)
         == Stem(cfg.inputFile) + "_cleaned_muted" + Ext(cfg.inputFile)
  {
    var out := DefaultOutputName(cfg.inputFile, "", cfg.muteStart);
    assert out == Stem(out) + Ext(out);
  }

  // ---------------------------------------------------------------------
  // The MP3 target name
  // ---------------------------------------------------------------------

  /**
   * The MP3 file name as the program computes it: main fills in the cut
   * default before extractAudio runs, so extractAudio never sees an empty
   * output name.
   */
  function Mp3TargetAsWritten(input: string, outputFlag: string, muteStart: string): (r: string)
    ensures r == Mp3OutputName(input, DefaultOutputName(input, outputFlag, muteStart))
    ensures outputFlag == "" ==> r != Stem(input) + ".mp3"
  {
    var cfgOutput := DefaultOutputName(input, outputFlag, muteStart);
    var r := Mp3OutputName(input, cfgOutput);
    assert outputFlag == "" ==> r[..|cfgOutput|] == cfgOutput && |cfgOutput| > |input| >= |Stem(input)|;
    r
  }

  /** With no output name, "x.mp4" is extracted to "x_cleaned.mp4.mp3" rather than "x.mp3". */
  lemma {:induction false} Mp3TargetAsWrittenExample(b: string)
    ensures Mp3TargetAsWritten(b + ".mp4", "", "") == b + "_cleaned.mp4.mp3"
  {
    var n := b + "_cleaned.mp4";
    assert n + ".mp3" == b + "_cleaned.mp4.mp3";
    DefaultOutputNameExample(b);
    CleanedNameIsNotMp3(b);
    AsWrittenAppendsToDefault(b + ".mp4", n);
  }

  /** When the cut default is not an MP3 name, the extraction appends ".mp3" to it. */
  lemma {:induction false} AsWrittenAppendsToDefault(input: string, n: string)
    requires DefaultOutputName(input, "", "") == n
    requires !EndsWithMp3(n)
    ensures Mp3TargetAsWritten(input, "", "") == n + ".mp3"
  {
  }

  /** A cut default of an ".mp4" input does not end in ".mp3". */
  lemma {:induction false} CleanedNameIsNotMp3(b: string)
    ensures !EndsWithMp3(b + "_cleaned.mp4")
  {
    var n := b + "_cleaned.mp4";
    assert n[|n| - 1] == '4';
    assert ToLower(n)[|n| - 1] == LowerChar(n[|n| - 1]);
  }

  /**
   * The MP3 file name when the user's own output flag reaches extractAudio:
   * with no flag, the input's stem with the extension ".mp3".
   */
  function Mp3Target(input: string, outputFlag: string): (r: string)
    ensures EndsWithMp3(r)
    ensures outputFlag == "" ==> r == Stem(input) + ".mp3" && Ext(r) == ".mp3" && Stem(r) == Stem(input)
    ensures outputFlag != "" ==> r == Mp3OutputName(input, outputFlag)
  {
    ExtOfAppendedExtension(Stem(input), ".mp3");
    Mp3OutputName(input, outputFlag)
  }

  /** With no output name, "x.mp4" is extracted to "x.mp3". */
  lemma {:induction false} Mp3TargetExample(b: string)
    ensures Mp3Target(b + ".mp4", "") == b + ".mp3"
  {
    Mp4Parts(b);
  }
}
