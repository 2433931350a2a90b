/**
 * Naming the file a downloaded video is saved under: the title with the
 * characters file systems reserve replaced, and a counter added when the
 * name is taken. The file system is the finite set of paths that exist.
 */
module YouTube {
  import opened GoPaths
  import opened Decimal

  /** The characters the pattern [<>:"/\\|?*] matches. */
  predicate IsReserved(c: char) {
    c in "<>:\"/\\|?*"
  }

  /** sanitizeFilename: every reserved character becomes '_', the rest stay in place. */
  function SanitizeFilename(name: string): (r: string)
    ensures |r| == |name|
    ensures forall i :: 0 <= i < |r| ==> !IsReserved(r[i])
    ensures forall i :: 0 <= i < |name| && !IsReserved(name[i]) ==> r[i] == name[i]
    ensures forall i :: 0 <= i < |name| && IsReserved(name[i]) ==> r[i] == '_'
    decreases |name|
  {
    if name == "" then ""
    else [if IsReserved(name[0]) then '_' else name[0]] + SanitizeFilename(name[1..])
  }

  /** Sanitising twice is sanitising once. */
  lemma {:induction false} SanitizeFilenameIdempotent(name: string)
    ensures SanitizeFilename(SanitizeFilename(name)) == SanitizeFilename(name)
  {
    var r := SanitizeFilename(name);
    assert forall i :: 0 <= i < |r| ==> SanitizeFilename(r)[i] == r[i];
  }

  /** The i-th alternative name: "%s_%d%s" of the stem, i and the extension. */
  function Numbered(path: string, i: nat): string {
    Stem(path) + "_" + NatToString(i) + Ext(path)
  }

  /** Alternative names keep the extension, are longer than the original, and differ for different counters. */
  lemma {:induction false} NumberedProperties(path: string, i: nat, j: nat)
    ensures Ext(Numbered(path, i)) == Ext(path)
    ensures |Numbered(path, i)| > |path|
    ensures i != j ==> Numbered(path, i) != Numbered(path, j)
  {
    var w := "_" + NatToString(i);
    assert Numbered(path, i) == Stem(path) + w + Ext(path);
    ExtKeptUnderInfix(path, w);
    if Numbered(path, i) == Numbered(path, j) {
      var s := Numbered(path, i);
      var a := |Stem(path)| + 1;
      var x, y := NatToString(i), NatToString(j);
      assert |x| == |y|;
      assert s[a..a + |x|] == x;
      assert s[a..a + |y|] == y;
      NatToStringInjective(i, j);
    }
  }

  /** A subset is no larger than its superset. */
  lemma {:induction false} SubsetCardinality(a: set<string>, b: set<string>)
    requires a <= b
    ensures |a| <= |b|
    decreases |a|
  {
    if a != {} {
      var x :| x in a;
      SubsetCardinality(a - {x}, b - {x});
    }
  }

  /**
   * ensureUniqueFilename: the path itself when it does not exist; otherwise
   * the first "stem_i.ext" with i = 1, 2, ... that does not exist. The search
   * ends because each probe that fails hits a different existing path, so
   * the counter never passes the number of existing paths.
   */
  method EnsureUniqueFilename(path: string, existing: set<string>) returns (r: string)
    ensures r !in existing
    ensures path !in existing ==> r == path
    ensures path in existing ==>
      exists i :: 1 <= i <= |existing| && r == Numbered(path, i) &&
        forall j :: 1 <= j < i ==> Numbered(path, j) in existing
  {
    if path !in existing {
      return path;
    }

    var ext := Ext(path);
    var base := TrimSuffix(path, ext);

    var i: nat := 1;
    ghost var probed: set<string> := {};
    while true
      invariant i >= 1
      invariant probed == Probed(path, i)
      invariant probed <= existing - {path}
      invariant |probed| == i - 1
      decreases existing - probed
    {
      var newPath := base + "_" + NatToString(i) + ext;
      assert newPath == Numbered(path, i);
      ProbeStep(path, i);
      if newPath !in existing {
        SubsetCardinality(probed, existing - {path});
        return newPath;
      }
      probed := probed + {newPath};
      i := i + 1;
    }
  }

  /** The alternative names tried before counter i. */
  ghost function Probed(path: string, i: nat): set<string> {
    set j: nat | 1 <= j < i :: Numbered(path, j)
  }

  /** One more probe: the i-th name is new, differs from the path, and extends the probed set. */
  lemma {:induction false} ProbeStep(path: string, i: nat)
    requires i >= 1
    ensures Numbered(path, i) !in Probed(path, i)
    ensures Numbered(path, i) != path
    ensures Probed(path, i + 1) == Probed(path, i) + {Numbered(path, i)}
    ensures forall j :: 1 <= j < i ==> Numbered(path, j) in Probed(path, i)
  {
    NumberedProperties(path, i, i);
    forall j: nat | 1 <= j < i ensures Numbered(path, j) != Numbered(path, i) {
      NumberedProperties(path, j, i);
    }
  }

  /**
   * The name a downloaded video is saved under: ensureUniqueFilename of the
   * sanitised title with ".mp4". So it is "title.mp4" when that is free, and
   * otherwise "title_i.mp4" for the smallest free i. It does not exist yet,
   * has the extension ".mp4", starts with the sanitised title and holds no
   * reserved character, so in particular no separator: the file lands in
   * the working directory.
   */
  method DownloadFileName(title: string, existing: set<string>) returns (r: string)
    ensures r !in existing
    ensures SanitizeFilename(title) + ".mp4" !in existing ==> r == SanitizeFilename(title) + ".mp4"
    ensures SanitizeFilename(title) + ".mp4" in existing ==>
      exists i :: 1 <= i <= |existing| && r == SanitizeFilename(title) + "_" + NatToString(i) + ".mp4" &&
        forall j :: 1 <= j < i ==> SanitizeFilename(title) + "_" + NatToString(j) + ".mp4" in existing
    ensures Ext(r) == ".mp4"
    ensures |title| <= |r| && r[..|title|] == SanitizeFilename(title)
    ensures forall k :: 0 <= k < |r| ==> !IsReserved(r[k])
  {
    var cleanTitle := SanitizeFilename(title);
    var outputFile := cleanTitle + ".mp4";
    PlainDownloadName(cleanTitle);
    r := EnsureUniqueFilename(outputFile, existing);
    if outputFile in existing {
      ghost var i :| 1 <= i <= |existing| && r == Numbered(outputFile, i) &&
        forall j :: 1 <= j < i ==> Numbered(outputFile, j) in existing;
      NumberedDownloadName(cleanTitle, i);
      NumberedStems(cleanTitle, i);
    }
    assert DownloadNameOf(cleanTitle, r);
  }

  /** Every alternative of "title.mp4" up to counter i is "title_j.mp4". */
  lemma {:induction false} NumberedStems(cleanTitle: string, i: nat)
    ensures forall j :: 1 <= j <= i ==> Numbered(cleanTitle + ".mp4", j) == cleanTitle + "_" + NatToString(j) + ".mp4"
  {
    forall j | 1 <= j <= i ensures Numbered(cleanTitle + ".mp4", j) == cleanTitle + "_" + NatToString(j) + ".mp4" {
      NumberedStem(cleanTitle, j);
    }
  }

  /** `r` is a download name for the sanitised title `cleanTitle`. */
  predicate DownloadNameOf(cleanTitle: string, r: string) {
    && Ext(r) == ".mp4"
    && |cleanTitle| <= |r| && r[..|cleanTitle|] == cleanTitle
    && forall k :: 0 <= k < |r| ==> !IsReserved(r[k])
  }

  /** A sanitised title with ".mp4" is a download name for that title. */
  lemma {:induction false} PlainDownloadName(cleanTitle: string)
    requires forall k :: 0 <= k < |cleanTitle| ==> !IsReserved(cleanTitle[k])
    ensures DownloadNameOf(cleanTitle, cleanTitle + ".mp4")
  {
    ExtOfAppendedExtension(cleanTitle, ".mp4");
    UnreservedConcat(cleanTitle, ".mp4");
  }

  /** The alternative names of a sanitised "title.mp4" keep the title, the extension and the character set. */
  lemma {:induction false} NumberedDownloadName(cleanTitle: string, i: nat)
    requires forall k :: 0 <= k < |cleanTitle| ==> !IsReserved(cleanTitle[k])
    ensures DownloadNameOf(cleanTitle, Numbered(cleanTitle + ".mp4", i))
  {
    var stem := cleanTitle + "_" + NatToString(i);
    NumberedStem(cleanTitle, i);
    UnreservedNumberedStem(cleanTitle, NatToString(i));
    PlainDownloadName(stem);
    assert (stem + ".mp4")[..|cleanTitle|] == cleanTitle;
  }

  /** The i-th alternative of "title.mp4" is "title_i.mp4". */
  lemma {:induction false} NumberedStem(cleanTitle: string, i: nat)
    ensures Numbered(cleanTitle + ".mp4", i) == (cleanTitle + "_" + NatToString(i)) + ".mp4"
  {
    ExtOfAppendedExtension(cleanTitle, ".mp4");
  }

  /** A title free of reserved characters, '_' and digits hold none. */
  lemma {:induction false} UnreservedNumberedStem(cleanTitle: string, digits: string)
    requires forall k :: 0 <= k < |cleanTitle| ==> !IsReserved(cleanTitle[k])
    requires IsDigits(digits)
    ensures forall k :: 0 <= k < |cleanTitle + "_" + digits| ==> !IsReserved((cleanTitle + "_" + digits)[k])
  {
    assert !IsReserved('_');
    UnreservedConcat(cleanTitle, "_");
    UnreservedConcat(cleanTitle + "_", digits);
  }

  /** Concatenating strings free of reserved characters gives one. */
  lemma {:induction false} UnreservedConcat(a: string, b: string)
    requires forall k :: 0 <= k < |a| ==> !IsReserved(a[k])
    requires forall k :: 0 <= k < |b| ==> !IsReserved(b[k])
    ensures forall k :: 0 <= k < |a + b| ==> !IsReserved((a + b)[k])
  {
    forall k | 0 <= k < |a + b| ensures !IsReserved((a + b)[k]) {
      if k < |a| { assert (a + b)[k] == a[k]; } else { assert (a + b)[k] == b[k - |a|]; }
    }
  }
}
