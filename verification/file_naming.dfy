/**
 * The file filter and the output names (src/ConverterApp.js:32-35, 43,
 * 225-227): which picked files are read, the base name kept after
 * `name.replace(/\.[^/.]+$/, "")`, and the name the CSV is saved under.
 */
module FileNaming {
  import opened Wrappers
  import opened Strings

  /** The part of a browser `File` the converter looks at. */
  datatype FileInfo = FileInfo(name: string, mimeType: string)

  const JsonMimeType := "application/json"
  const JsonSuffix := ".json"
  const CsvSuffix := ".csv"
  const FallbackName := "converted_data.csv"

  /**
   * A file is read when its type is JSON or its lower-cased name ends in
   * ".json": that is, when the name ends in a dot and "json" in any mix of
   * cases.
   */
  function Accepted(f: FileInfo): (accepted: bool)
    ensures accepted <==> f.mimeType == JsonMimeType || DotJsonAnyCase(f.name)
  {
    JsonSuffixIgnoresCase(f.name);
    f.mimeType == JsonMimeType || EndsWith(Lower(f.name), JsonSuffix)
  }

  /** What `[^/.]+` matches: one or more characters, none a dot or a slash. */
  predicate IsExtension(e: string) {
    |e| > 0 && '.' !in e && '/' !in e
  }

  /** The position of the last `c` in `s`. */
  function LastIndexOf(s: string, c: char): (r: Option<nat>)
    ensures r.None? ==> c !in s
    ensures r.Some? ==> r.value < |s| && s[r.value] == c && c !in s[r.value + 1..]
    decreases |s|
  {
    if |s| == 0 then None
    else if s[|s| - 1] == c then Some(|s| - 1)
    else
      var r := LastIndexOf(s[..|s| - 1], c);
      assert s == s[..|s| - 1] + [s[|s| - 1]];
      assert r.Some? ==> s[r.value + 1..] == s[..|s| - 1][r.value + 1..] + [s[|s| - 1]];
      r
  }

  /**
   * `name.replace(/\.[^/.]+$/, "")`: drops a final dot and the extension
   * after it, if the extension is non-empty and holds no dot or slash.
   */
  function StripExtension(name: string): (base: string)
    ensures base == name || (|base| < |name| && name[..|base|] == base
                             && name[|base|] == '.' && IsExtension(name[|base| + 1..]))
    ensures base == name <==> forall i :: 0 <= i < |name| && name[i] == '.' ==> !IsExtension(name[i + 1..])
  {
    var dot := LastIndexOf(name, '.');
    NoExtensionBeforeLastDot(name, dot);
    if dot.Some? && IsExtension(name[dot.value + 1..]) then name[..dot.value] else name
  }

  /** Only the last dot of a name can start an extension. */
  lemma NoExtensionBeforeLastDot(name: string, dot: Option<nat>)
    requires dot == LastIndexOf(name, '.')
    ensures forall i :: 0 <= i < |name| && name[i] == '.' && IsExtension(name[i + 1..]) ==> dot == Some(i)
  {
  }

  /** The download name: "<base>.csv", or "converted_data.csv" when the base is empty. */
  function DownloadName(base: string): (r: string)
    ensures EndsWith(r, CsvSuffix)
    ensures base != "" ==> r[..|r| - |CsvSuffix|] == base
    ensures base == "" ==> r == FallbackName
  {
    if base != "" then base + CsvSuffix else FallbackName
  }

  /** Appending a dot and an extension to any base and stripping it again gives the base back. */
  lemma StripAppendedExtension(base: string, ext: string)
    requires IsExtension(ext)
    ensures StripExtension(base + "." + ext) == base
  {
    var name := base + "." + ext;
    assert name[|base|] == '.';
    assert name[|base| + 1..] == ext;
    assert name[..|base|] == base;
  }

  /** The name ends in a dot followed by j, s, o and n, each in either case. */
  predicate DotJsonAnyCase(name: string) {
    var n := |name|;
    && n >= 5 && name[n - 5] == '.'
    && name[n - 4] in "jJ" && name[n - 3] in "sS" && name[n - 2] in "oO" && name[n - 1] in "nN"
  }

  /**
   * The lower-cased ".json" test ignores case in the last four characters
   * only: it holds iff the name ends in a dot followed by j, s, o and n,
   * each in either case.
   */
  lemma JsonSuffixIgnoresCase(name: string)
    ensures EndsWith(Lower(name), JsonSuffix) <==> DotJsonAnyCase(name)
  {
    var n := |name|;
    if n >= 5 {
      var tail := Lower(name)[n - 5..];
      assert |tail| == 5;
      assert forall k :: 0 <= k < 5 ==> tail[k] == LowerChar(name[n - 5 + k]);
      assert tail == [tail[0], tail[1], tail[2], tail[3], tail[4]];
    }
  }

  /**
   * A file accepted for its ".json" name is saved as the name with the last
   * five characters replaced by ".csv"; a file named just ".json" (any case)
   * is saved as "converted_data.csv".
   */
  lemma JsonFileDownloadName(name: string)
    requires EndsWith(Lower(name), JsonSuffix)
    ensures DownloadName(StripExtension(name)) ==
      if |name| == 5 then FallbackName else name[..|name| - 5] + CsvSuffix
  {
    JsonSuffixIgnoresCase(name);
    var n := |name|;
    assert IsExtension(name[n - 4..]) by {
      assert name[n - 4..] == [name[n - 4], name[n - 3], name[n - 2], name[n - 1]];
    }
    assert name == name[..n - 5] + "." + name[n - 4..];
    StripAppendedExtension(name[..n - 5], name[n - 4..]);
  }
}
