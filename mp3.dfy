/** Audio extraction: the MP3 output name and the encoder arguments for it. */
module Mp3 {
  import opened GoPaths
  import opened Text
  import opened Settings

  /** The name ends in ".mp3" in any letter case. */
  predicate EndsWithMp3(name: string) {
    HasSuffix(ToLower(name), ".mp3")
  }

  /** Appending ".mp3" always yields an MP3 name. */
  lemma {:induction false} AppendMp3(s: string)
    ensures EndsWithMp3(s + ".mp3")
  {
    ToLowerConcat(s, ".mp3");
    assert ToLower(".mp3") == ".mp3";
  }

  /**
   * The output name extractAudio uses: the input's stem with ".mp3" when no
   * output was given, otherwise the given name, with ".mp3" appended unless
   * it already ends so in any letter case.
   */
  function Mp3OutputName(input: string, output: string): (r: string)
    ensures EndsWithMp3(r)
    ensures output == "" ==> r == Stem(input) + ".mp3"
    ensures output != "" && EndsWithMp3(output) ==> r == output
    ensures output != "" && !EndsWithMp3(output) ==> r == output + ".mp3"
    ensures output != "" ==> |output| <= |r| && r[..|output|] == output
  {
    if output == "" then
      var ext := Ext(input);
      var base := TrimSuffix(input, ext);
      AppendMp3(base);
      base + ".mp3"
    else if !HasSuffix(ToLower(output), ".mp3") then
      AppendMp3(output);
      output + ".mp3"
    else output
  }

  /** Normalising an already normalised name changes nothing, whatever the input file. */
  lemma {:induction false} Mp3OutputNameIdempotent(input: string, input': string, output: string)
    ensures Mp3OutputName(input', Mp3OutputName(input, output)) == Mp3OutputName(input, output)
  {
  }

  /** Lower-casing yields '.', 'm', 'p' or '3' only from that character or its capital. */
  lemma {:induction false} LowerCharPreimage(c: char)
    ensures LowerChar(c) == '.' ==> c == '.'
    ensures LowerChar(c) == '3' ==> c == '3'
    ensures LowerChar(c) == 'm' ==> c == 'm' || c == 'M'
    ensures LowerChar(c) == 'p' ==> c == 'p' || c == 'P'
  {
  }

  /** The extension of an MP3 name is ".mp3" in some letter case. */
  lemma {:induction false} Mp3NameExtension(r: string)
    requires EndsWithMp3(r)
    ensures ToLower(Ext(r)) == ".mp3"
  {
    var n := |r|;
    var e := r[n - 4..];
    assert ToLower(r)[n - 4..] == ".mp3";
    forall k | 0 <= k < 4 ensures LowerChar(e[k]) == ".mp3"[k] {
      assert ToLower(r)[n - 4 + k] == LowerChar(r[n - 4 + k]);
    }
    LowerCharPreimage(e[0]);
    LowerCharPreimage(e[1]);
    LowerCharPreimage(e[2]);
    LowerCharPreimage(e[3]);
    assert r == r[..n - 4] + e;
    ExtOfAppendedExtension(r[..n - 4], e);
  }

  /**
   * The arguments extractAudio hands to the encoder: the input, no video,
   * the LAME MP3 codec at variable-bitrate quality 2, overwrite, and the
   * normalised output name last.
   */
  function ExtractAudioArgs(cfg: Config): (args: seq<string>)
    ensures |args| == 9
    ensures args[..2] == ["-i", cfg.inputFile]
    ensures args[2..8] == ["-vn", "-acodec", "libmp3lame", "-q:a", "2", "-y"]
    ensures args[8] == Mp3OutputName(cfg.inputFile, cfg.outputFile)
    ensures EndsWithMp3(args[8])
  {
    var outputFile := Mp3OutputName(cfg.inputFile, cfg.outputFile);
    ["-i", cfg.inputFile, "-vn", "-acodec", "libmp3lame", "-q:a", "2", "-y", outputFile]
  }

  /** Clip boundaries, mute window, preset and quality play no part in audio extraction. */
  lemma {:induction false} ExtractAudioIgnoresCutSettings(c1: Config, c2: Config)
    requires c1.inputFile == c2.inputFile && c1.outputFile == c2.outputFile
    ensures ExtractAudioArgs(c1) == ExtractAudioArgs(c2)
  {
  }

  /** The file extraction writes has the extension ".mp3" in some letter case. */
  lemma {:induction false} ExtractAudioOutputExtension(cfg: Config)
    ensures ToLower(Ext(ExtractAudioArgs(cfg)[8])) == ".mp3"
  {
    Mp3NameExtension(ExtractAudioArgs(cfg)[8]);
  }
}
