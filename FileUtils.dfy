/**
 * The pure file-name and file-content helpers of the chat UI: deriving a
 * file's extension, the allow-list of text files that may be attached, and
 * the truncation of a file's text to a character budget.
 */
module FileUtils {
  import opened Wrappers
  import opened JsString

  /** The extensions, in lower case, of the files that may be attached. */
  const SupportedExtensions: seq<string> :=
    ["txt", "md", "js", "jsx", "ts", "tsx", "json", "html", "css", "csv"]

  /** The character budget `truncateContent` uses when none is given. */
  const DefaultMaxLength: int := 10000

  /** The text around the omitted-character count in a truncation marker. */
  const MarkerOpen: string := "\n\n[Content truncated: "
  const MarkerClose: string := " characters omitted due to length]"

  /**
   * The longest name for which `>>> 0` in `GetFileExtension` does not wrap
   * into the name itself: 2^32 characters.
   */
  const MaxNameLength: int := TwoTo32

  // ---------------------------------------------------------------------
  // getFileExtension

  /**
   * `fileName.slice(((fileName.lastIndexOf(".") - 1) >>> 0) + 2)`.
   * Without a dot, or with the only dot at index 0, the unsigned shift turns
   * -2 or -1 into a start near 2^32, past the end of any realistic name.
   */
  function GetFileExtension(fileName: string): (ext: string)
    ensures |ext| <= |fileName| && ext == fileName[|fileName| - |ext|..]
  {
    Slice(fileName, ExtensionStart(fileName))
  }

  /** The start position handed to `slice`: `((lastIndexOf(".") - 1) >>> 0) + 2`. */
  function ExtensionStart(fileName: string): int
  {
    ToUint32(LastIndexOf(fileName, '.') - 1) + 2
  }

  /** The longest suffix of `s` that contains no dot. */
  function DotFreeSuffix(s: string): (t: string)
    ensures |t| <= |s| && t == s[|s| - |t|..] && '.' !in t
    ensures |t| < |s| ==> s[|s| - |t| - 1] == '.'
  {
    if s == [] || s[|s| - 1] == '.' then []
    else
      var t := DotFreeSuffix(s[..|s| - 1]);
      assert s == s[..|s| - 1] + [s[|s| - 1]];
      t + [s[|s| - 1]]
  }

  /**
   * Reference definition of the extension: the text after the last dot,
   * provided that dot is not the first character of the name; otherwise
   * the empty string.
   */
  function ExtensionAfterLastDot(fileName: string): string
  {
    var t := DotFreeSuffix(fileName);
    if |fileName| - |t| >= 2 then t else []
  }

  /** The last dot sits right before the dot-free suffix. */
  lemma {:induction false} LastDotBeforeDotFreeSuffix(s: string)
    ensures LastIndexOf(s, '.') == |s| - |DotFreeSuffix(s)| - 1
  {
    if s != [] && s[|s| - 1] != '.' {
      LastDotBeforeDotFreeSuffix(s[..|s| - 1]);
    }
  }

  /** A dot followed only by dot-free text bounds the dot-free suffix. */
  lemma {:induction false} DotFreeSuffixAfter(s: string, k: nat)
    requires k < |s| && s[k] == '.' && '.' !in s[k + 1..]
    ensures DotFreeSuffix(s) == s[k + 1..]
  {
    if k < |s| - 1 {
      var p := s[..|s| - 1];
      assert s[k + 1..] == p[k + 1..] + [s[|s| - 1]];
      assert s[|s| - 1] in s[k + 1..];
      assert p[k + 1..] == s[k + 1..|s| - 1];
      DotFreeSuffixAfter(p, k);
    }
  }

  /** `getFileExtension` agrees with the reference definition. */
  lemma GetFileExtensionIsAfterLastDot(fileName: string)
    requires |fileName| <= MaxNameLength
    ensures GetFileExtension(fileName) == ExtensionAfterLastDot(fileName)
  {
    LastDotBeforeDotFreeSuffix(fileName);
  }

  /**
   * The cases of `getFileExtension`: with the last dot at index i >= 1 the
   * extension is everything after it; with no dot, or with the last dot at
   * index 0, it is empty.
   */
  lemma GetFileExtensionCases(fileName: string)
    requires |fileName| <= MaxNameLength
    ensures var i := LastIndexOf(fileName, '.');
      && (i >= 1 ==> GetFileExtension(fileName) == fileName[i + 1..])
      && (i <= 0 ==> GetFileExtension(fileName) == [])
  {
    GetFileExtensionIsAfterLastDot(fileName);
    LastDotBeforeDotFreeSuffix(fileName);
    var t := DotFreeSuffix(fileName);
    var i := LastIndexOf(fileName, '.');
    assert i + 1 == |fileName| - |t|;
    assert t == fileName[i + 1..];
  }

  /**
   * The extension never contains a dot, and a name ending in a dot has an
   * empty extension.
   */
  lemma GetFileExtensionHasNoDot(fileName: string)
    requires |fileName| <= MaxNameLength
    ensures '.' !in GetFileExtension(fileName)
    ensures |fileName| > 0 && fileName[|fileName| - 1] == '.' ==> GetFileExtension(fileName) == []
  {
    GetFileExtensionIsAfterLastDot(fileName);
  }

  // ---------------------------------------------------------------------
  // isSupportedFile

  /**
   * `isSupportedFile(file)`, given the file's name: the lower-cased
   * extension is on the allow-list, so an accepted name always has an
   * extension of two to four characters.
   */
  predicate IsSupportedFile(fileName: string)
    ensures IsSupportedFile(fileName) ==> 2 <= |GetFileExtension(fileName)| <= 4
  {
    ToLowerAscii(GetFileExtension(fileName)) in SupportedExtensions
  }

  /**
   * The name ends in a dot followed by `ext` in any letter case, and at
   * least one character precedes that dot.
   */
  predicate EndsWithExtension(fileName: string, ext: string)
  {
    |fileName| >= |ext| + 2
    && fileName[|fileName| - |ext| - 1] == '.'
    && ToLowerAscii(fileName[|fileName| - |ext|..]) == ext
  }

  /** Lower-casing neither creates nor removes dots. */
  lemma LowerKeepsDots(s: string)
    ensures '.' in ToLowerAscii(s) <==> '.' in s
  {
    if '.' in ToLowerAscii(s) {
      var i :| 0 <= i < |s| && ToLowerAscii(s)[i] == '.';
    }
    if '.' in s {
      var i :| 0 <= i < |s| && s[i] == '.';
      assert ToLowerAscii(s)[i] == '.';
    }
  }

  /** Every allowed extension is non-empty and free of dots. */
  lemma SupportedExtensionShape(e: string)
    requires e in SupportedExtensions
    ensures |e| > 0 && '.' !in e
  {
  }

  /** An accepted name ends in a dot and an allowed extension. */
  lemma SupportedEndsWithExtension(fileName: string)
    requires |fileName| <= MaxNameLength
    requires IsSupportedFile(fileName)
    ensures EndsWithExtension(fileName, ToLowerAscii(GetFileExtension(fileName)))
  {
    GetFileExtensionIsAfterLastDot(fileName);
    SupportedExtensionShape(ToLowerAscii(GetFileExtension(fileName)));
  }

  /** A name ending in a dot and a dot-free extension has that extension. */
  lemma EndsWithExtensionGivesExtension(fileName: string, e: string)
    requires |fileName| <= MaxNameLength
    requires '.' !in e && EndsWithExtension(fileName, e)
    ensures ToLowerAscii(GetFileExtension(fileName)) == e
  {
    var k := |fileName| - |e| - 1;
    var u := fileName[k + 1..];
    assert '.' !in u by {
      LowerKeepsDots(u);
    }
    assert DotFreeSuffix(fileName) == u by {
      DotFreeSuffixAfter(fileName, k);
    }
    assert GetFileExtension(fileName) == u by {
      GetFileExtensionIsAfterLastDot(fileName);
    }
  }

  /**
   * A name is supported exactly when it ends in `.` and one of the ten
   * extensions, in any ASCII letter case, with something before the dot.
   */
  lemma IsSupportedFileIff(fileName: string)
    requires |fileName| <= MaxNameLength
    ensures IsSupportedFile(fileName) <==>
      exists e :: e in SupportedExtensions && EndsWithExtension(fileName, e)
  {
    if IsSupportedFile(fileName) {
      SupportedEndsWithExtension(fileName);
    }
    if e :| e in SupportedExtensions && EndsWithExtension(fileName, e) {
      SupportedExtensionShape(e);
      EndsWithExtensionGivesExtension(fileName, e);
    }
  }

  /** Names that agree up to letter case have dot-free suffixes of one length. */
  lemma {:induction false} DotFreeSuffixIgnoresCase(a: string, b: string)
    requires EqualIgnoringCase(a, b)
    ensures |DotFreeSuffix(a)| == |DotFreeSuffix(b)|
  {
    if a != [] {
      var n := |a| - 1;
      assert LowerChar(a[n]) == LowerChar(b[n]);
      if a[n] != '.' {
        assert EqualIgnoringCase(a[..n], b[..n]);
        DotFreeSuffixIgnoresCase(a[..n], b[..n]);
      }
    }
  }

  /** Names equal up to case have their last dot at the same index. */
  lemma LastDotIgnoresCase(a: string, b: string)
    requires EqualIgnoringCase(a, b)
    ensures LastIndexOf(a, '.') == LastIndexOf(b, '.')
  {
    DotFreeSuffixIgnoresCase(a, b);
    LastDotBeforeDotFreeSuffix(a);
    LastDotBeforeDotFreeSuffix(b);
  }

  /** Slicing names equal up to case from one start gives texts equal up to case. */
  lemma SliceIgnoresCase(a: string, b: string, start: int)
    requires EqualIgnoringCase(a, b)
    ensures EqualIgnoringCase(Slice(a, start), Slice(b, start))
  {
    var from := if start < 0 then Clamp(|a| + start, |a|) else Clamp(start, |a|);
    assert Slice(a, start) == a[from..] && Slice(b, start) == b[from..];
  }

  /** Names that agree up to ASCII letter case have extensions that agree up to case. */
  lemma GetFileExtensionIgnoresCase(a: string, b: string)
    requires ToLowerAscii(a) == ToLowerAscii(b)
    ensures ToLowerAscii(GetFileExtension(a)) == ToLowerAscii(GetFileExtension(b))
  {
    EqualIgnoringCaseIff(a, b);
    LastDotIgnoresCase(a, b);
    var start := ExtensionStart(a);
    assert start == ExtensionStart(b);
    SliceIgnoresCase(a, b, start);
    EqualIgnoringCaseIff(GetFileExtension(a), GetFileExtension(b));
  }

  /** The verdict depends only on the lower-cased extension. */
  lemma IsSupportedFileByExtension(fileName: string, e: string)
    requires ToLowerAscii(GetFileExtension(fileName)) == e
    ensures IsSupportedFile(fileName) == (e in SupportedExtensions)
  {
  }

  /** Names that agree up to ASCII letter case are accepted alike. */
  lemma IsSupportedFileIgnoresCase(a: string, b: string)
    requires ToLowerAscii(a) == ToLowerAscii(b)
    ensures IsSupportedFile(a) == IsSupportedFile(b)
  {
    GetFileExtensionIgnoresCase(a, b);
    var e := ToLowerAscii(GetFileExtension(a));
    IsSupportedFileByExtension(a, e);
    IsSupportedFileByExtension(b, e);
  }

  /** Upper-casing a name does not change whether it is accepted. */
  lemma IsSupportedFileUpperCase(fileName: string)
    ensures IsSupportedFile(ToUpperAscii(fileName)) == IsSupportedFile(fileName)
  {
    LowerOfUpper(fileName);
    IsSupportedFileIgnoresCase(fileName, ToUpperAscii(fileName));
  }

  /*
   * The sample lemmas below take their names as parameters pinned by
   * `requires`: stated on literals, the recursive definitions would be
   * unfolded eagerly and the proofs would not fit the solver's budget.
   */

  /** Extensions of sample names, including the no-dot and leading-dot cases. */
  lemma GetFileExtensionExamples(nested: string, dotfile: string, bare: string)
    requires nested == "a.b.tsx" && dotfile == ".bashrc" && bare == "README"
    ensures GetFileExtension(nested) == "tsx"
    ensures GetFileExtension(dotfile) == ""
    ensures GetFileExtension(bare) == ""
  {
    assert GetFileExtension(nested) == "tsx" by {
      DotFreeSuffixAfter(nested, 3);
      GetFileExtensionIsAfterLastDot(nested);
    }
    assert GetFileExtension(dotfile) == "" by {
      DotFreeSuffixAfter(dotfile, 0);
      GetFileExtensionIsAfterLastDot(dotfile);
    }
    assert GetFileExtension(bare) == "" by {
      assert '.' !in bare;
      GetFileExtensionCases(bare);
    }
  }

  /** Sample names that are accepted, in either letter case. */
  lemma IsSupportedFileAccepts(lower: string, upper: string)
    requires lower == "notes.md" && upper == "NOTES.MD"
    ensures IsSupportedFile(lower) && IsSupportedFile(upper)
  {
    MarkdownNameSupported(lower);
    assert ToUpperAscii(lower) == upper;
    IsSupportedFileUpperCase(lower);
  }

  /** The lower-case half of the sample above, on its own. */
  lemma MarkdownNameSupported(lower: string)
    requires lower == "notes.md"
    ensures IsSupportedFile(lower)
  {
    assert EndsWithExtension(lower, "md") by {
      assert lower[6..] == "md";
      assert ToLowerAscii("md") == "md";
    }
    EndsWithExtensionGivesExtension(lower, "md");
    IsSupportedFileByExtension(lower, "md");
  }

  /** A sample name with an extension outside the allow-list is rejected. */
  lemma IsSupportedFileRejectsForeign(exe: string)
    requires exe == "malware.exe"
    ensures !IsSupportedFile(exe)
  {
    assert GetFileExtension(exe) == "exe" by {
      assert exe[7] == '.' && exe[8..] == "exe";
      DotFreeSuffixAfter(exe, 7);
      GetFileExtensionIsAfterLastDot(exe);
    }
    assert ToLowerAscii("exe") == "exe";
    IsSupportedFileByExtension(exe, "exe");
  }

  /**
   * Sample names without an extension are rejected: one without a dot, and
   * one whose only dot is its first character.
   */
  lemma IsSupportedFileRejectsNoExtension(bare: string, dotfile: string)
    requires bare == "README" && dotfile == ".txt"
    ensures !IsSupportedFile(bare) && !IsSupportedFile(dotfile)
  {
    assert '.' !in bare;
    IsSupportedFileByExtension(bare, "");
    DotFreeSuffixAfter(dotfile, 0);
    GetFileExtensionIsAfterLastDot(dotfile);
    IsSupportedFileByExtension(dotfile, "");
  }

  // ---------------------------------------------------------------------
  // truncateContent

  /**
   * The marker appended to truncated text: the fixed opening and closing
   * text around the omitted count, written in canonical decimal.
   */
  function TruncationMarker(omitted: nat): (r: string)
    ensures |r| > |MarkerOpen| + |MarkerClose|
    ensures r[..|MarkerOpen|] == MarkerOpen && r[|r| - |MarkerClose|..] == MarkerClose
    ensures var digits := r[|MarkerOpen|..|r| - |MarkerClose|];
      IsCanonicalDecimal(digits) && DecimalValue(digits) == omitted
  {
    var d := NatToString(omitted);
    DecimalRoundTrip(omitted);
    var r := MarkerOpen + d + MarkerClose;
    assert r[|MarkerOpen|..|r| - |MarkerClose|] == d;
    r
  }

  /**
   * Reads the omitted count back out of a truncation marker. Only the exact
   * text `TruncationMarker` writes is accepted: a padded count such as
   * `005` is refused.
   */
  function ParseTruncationMarker(s: string): (r: Option<nat>)
    ensures r.Some? ==> s == TruncationMarker(r.value)
  {
    if |s| < |MarkerOpen| + |MarkerClose| then None
    else if s[..|MarkerOpen|] != MarkerOpen || s[|s| - |MarkerClose|..] != MarkerClose then None
    else
      var digits := s[|MarkerOpen|..|s| - |MarkerClose|];
      if !IsCanonicalDecimal(digits) then None
      else
        var n := DecimalValue(digits);
        CanonicalDecimalRoundTrip(digits);
        assert s == MarkerOpen + digits + MarkerClose;
        assert TruncationMarker(n) == MarkerOpen + NatToString(n) + MarkerClose;
        Some(n)
  }

  /** The marker of n reads back as n. */
  lemma TruncationMarkerRoundTrip(n: nat)
    ensures ParseTruncationMarker(TruncationMarker(n)) == Some(n)
  {
  }

  /** A marker whose count is padded with a leading zero is refused. */
  lemma ParseTruncationMarkerRefusesPadding(s: string)
    requires s == MarkerOpen + "05" + MarkerClose
    ensures ParseTruncationMarker(s) == None
  {
  }

  /**
   * `truncateContent(content, maxLength)`: text within the budget is
   * returned as it is; longer text keeps its first `maxLength` characters
   * (none when the budget is negative, as `substring` clamps) and gains a
   * marker with the number of characters beyond the budget.
   */
  function TruncateContent(content: string, maxLength: int): (r: string)
    ensures |content| <= maxLength ==> r == content
  {
    if |content| <= maxLength then content
    else Substring(content, 0, maxLength) + TruncationMarker(|content| - maxLength)
  }

  /**
   * Over the budget, the result starts with the first `maxLength`
   * characters of the text, and what follows them is a marker that reads
   * back as the number of characters cut off, so the original length is
   * recoverable.
   */
  lemma TruncateContentOverBudget(content: string, maxLength: int)
    requires 0 <= maxLength < |content|
    ensures var r := TruncateContent(content, maxLength);
      && |r| == maxLength + |TruncationMarker(|content| - maxLength)| > maxLength
      && r[..maxLength] == content[..maxLength]
      && ParseTruncationMarker(r[maxLength..]) == Some(|content| - maxLength)
  {
    var r := TruncateContent(content, maxLength);
    var t := TruncationMarker(|content| - maxLength);
    var kept := content[..maxLength];
    assert r == kept + t by {
      assert Substring(content, 0, maxLength) == kept;
    }
    assert r[..maxLength] == kept && r[maxLength..] == t;
    TruncationMarkerRoundTrip(|content| - maxLength);
  }

  /**
   * With a negative budget nothing of the text is kept: the result is the
   * marker alone, counting every character and the deficit below zero.
   */
  lemma TruncateContentNegativeBudget(content: string, maxLength: int)
    requires maxLength < 0
    ensures ParseTruncationMarker(TruncateContent(content, maxLength)) == Some(|content| - maxLength)
  {
    assert TruncateContent(content, maxLength) == TruncationMarker(|content| - maxLength);
    TruncationMarkerRoundTrip(|content| - maxLength);
  }

  /**
   * With the default budget the result is longer than 10000 characters
   * whenever the text is: the marker comes on top of the budget.
   */
  lemma TruncateContentDefaultExceedsBudget(content: string)
    requires |content| > DefaultMaxLength
    ensures |TruncateContent(content, DefaultMaxLength)| >=
      DefaultMaxLength + |MarkerOpen| + 1 + |MarkerClose|
  {
  }
}
