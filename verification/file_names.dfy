/** The file-name helpers `format_name_to_zip` and `format_name_to_txt`
    (tinyzip.py lines 40-49). Both cut the last four characters with
    `fileName[0:-4]`, which on a name shorter than four characters leaves
    the empty string. */
module FileNames {

  const TxtSuffix := ".txt"
  const ZipSuffix := ".zip"

  /** `sub in s` (`s.__contains__(sub)`): `sub` starts at some position,
      so it is no longer than `s`. */
  predicate Contains(s: string, sub: string)
    ensures Contains(s, sub) ==> |sub| <= |s|
    ensures sub <= s ==> Contains(s, sub)
  {
    sub <= s || (s != [] && Contains(s[1..], sub))
  }

  predicate EndsWith(s: string, suffix: string)
  {
    |suffix| <= |s| && s[|s| - |suffix|..] == suffix
  }

  /** `fileName[0:-4]`. */
  function DropLast4(s: string): (r: string)
    ensures |s| >= 4 ==> |r| == |s| - 4 && r <= s
    ensures |s| < 4 ==> r == []
  {
    if |s| >= 4 then s[..|s| - 4] else []
  }

  /** `format_name_to_zip(fileName)`: a name that contains ".txt" anywhere
      loses its last four characters and gets ".zip"; any other name is
      returned unchanged. */
  function FormatNameToZip(fileName: string): (r: string)
    ensures !Contains(fileName, TxtSuffix) ==> r == fileName
    ensures Contains(fileName, TxtSuffix) ==>
      |r| == |fileName| && EndsWith(r, ZipSuffix) && r[..|r| - 4] == fileName[..|fileName| - 4]
  {
    if Contains(fileName, TxtSuffix) then
      DropLast4(fileName) + ZipSuffix
    else fileName
  }

  /** A name ending in ".txt" has that extension replaced by ".zip". */
  lemma FormatNameToZipTxt(fileName: string)
    requires EndsWith(fileName, TxtSuffix)
    ensures FormatNameToZip(fileName) == fileName[..|fileName| - 4] + ZipSuffix
  {
    EndsWithContains(fileName, TxtSuffix);
  }

  /** A name contains its own suffix. */
  lemma {:induction false} EndsWithContains(s: string, suffix: string)
    requires EndsWith(s, suffix)
    ensures Contains(s, suffix)
  {
    if |s| > |suffix| {
      assert s[1..][|s[1..]| - |suffix|..] == s[|s| - |suffix|..];
      EndsWithContains(s[1..], suffix);
    } else {
      assert s == suffix;
    }
  }

  /** Formatting a name a second time changes nothing. */
  lemma FormatNameToZipIdempotent(fileName: string)
    ensures FormatNameToZip(FormatNameToZip(fileName)) == FormatNameToZip(fileName)
  {
    var r := FormatNameToZip(fileName);
    if Contains(fileName, TxtSuffix) {
      assert r[..|r| - 4] + ZipSuffix == r;
    }
  }

  /** `format_name_to_txt(fileName)` as written: the last four characters
      are replaced by ".zip", not ".txt". */
  function FormatNameToTxt(fileName: string): (r: string)
    ensures EndsWith(r, ZipSuffix) && r[..|r| - 4] == DropLast4(fileName)
  {
    DropLast4(fileName) + ZipSuffix
  }

  /** The name `unzip` derives for its output is the archive's own name:
      "King.zip" stays "King.zip". */
  lemma FormatNameToTxtKeepsZip(fileName: string)
    requires EndsWith(fileName, ZipSuffix)
    ensures FormatNameToTxt(fileName) == fileName
  {
    assert fileName == fileName[..|fileName| - 4] + fileName[|fileName| - 4..];
  }

  /** The helper as its name says: the last four characters are replaced
      by ".txt". */
  function FormatNameToTxtFixed(fileName: string): (r: string)
    ensures EndsWith(r, TxtSuffix) && r[..|r| - 4] == DropLast4(fileName)
  {
    DropLast4(fileName) + TxtSuffix
  }

  /** The fixed helper undoes `format_name_to_zip` on a ".txt" name, and
      `format_name_to_zip` undoes it on a ".zip" name. */
  lemma FileNamesRoundTrip(fileName: string)
    ensures EndsWith(fileName, TxtSuffix) ==> FormatNameToTxtFixed(FormatNameToZip(fileName)) == fileName
    ensures EndsWith(fileName, ZipSuffix) ==> FormatNameToZip(FormatNameToTxtFixed(fileName)) == fileName
  {
    if EndsWith(fileName, TxtSuffix) {
      FormatNameToZipTxt(fileName);
      assert fileName == fileName[..|fileName| - 4] + fileName[|fileName| - 4..];
    }
    if EndsWith(fileName, ZipSuffix) {
      var t := FormatNameToTxtFixed(fileName);
      assert EndsWith(t, TxtSuffix);
      FormatNameToZipTxt(t);
      assert fileName == fileName[..|fileName| - 4] + fileName[|fileName| - 4..];
    }
  }
}
