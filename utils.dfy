/**
 * The pure helpers beside the scorer: upload validation, a guarded
 * percentage, and the display form of a skill list.
 */
module Utils {
  import opened Wrappers
  import opened Strings
  import opened Config

  /** An uploaded file as the upload widget reports it: its name and its size in bytes. */
  datatype UploadedFile = UploadedFile(name: string, size: int)

  /** Which check decided the verdict. */
  datatype Reason = NoFile | BadExtension | TooLarge | Accepted

  /** The `(is_valid, message)` pair, with the message given by its reason. */
  datatype Verdict = Verdict(ok: bool, reason: Reason)

  /** `s.rfind(c)`: the last index holding `c`, or -1. */
  function RFind(s: string, c: char): (i: int)
    ensures -1 <= i < |s|
    ensures i >= 0 ==> s[i] == c
    ensures forall j :: i < j < |s| ==> s[j] != c
  {
    if s == [] then -1
    else if s[|s| - 1] == c then |s| - 1
    else RFind(s[..|s| - 1], c)
  }

  /** The path with its trailing separators removed. */
  function StripTrailingSlashes(path: string): (r: string)
    ensures |r| <= |path| && r == path[..|r|]
    ensures r == [] || r[|r| - 1] != '/'
  {
    if path != [] && path[|path| - 1] == '/' then StripTrailingSlashes(path[..|path| - 1])
    else path
  }

  /** `Path(path).name`: the final component of a '/'-separated path. */
  function BaseName(path: string): (r: string)
    ensures '/' !in r
  {
    var trimmed := StripTrailingSlashes(path);
    trimmed[RFind(trimmed, '/') + 1..]
  }

  /**
   * The base name is the final component of the path once trailing
   * separators are gone: a tail of it that is either the whole trimmed path
   * or starts just after a separator.
   */
  lemma BaseNameIsFinalComponent(path: string)
    ensures var t := StripTrailingSlashes(path); var r := BaseName(path);
      |r| <= |t| && r == t[|t| - |r|..] && (|r| == |t| || t[|t| - |r| - 1] == '/')
  {
  }

  /**
   * `PurePath.suffix` of a final component: from its last dot to the end,
   * provided the dot is neither the first nor the last character; else empty.
   */
  function Suffix(name: string): (r: string)
    ensures r == [] || (r[0] == '.' && 1 < |r| < |name| && r == name[|name| - |r|..] && '.' !in r[1..])
  {
    var i := RFind(name, '.');
    if 0 < i < |name| - 1 then name[i..] else []
  }

  /** `Path(name).suffix.lower()`. */
  function Extension(name: string): string
  {
    Lower(Suffix(BaseName(name)))
  }

  /**
   * `validate_file`: no file fails first, then an extension outside the
   * allowed set, then a size above the limit; anything else is valid.
   */
  function ValidateFile(file: Option<UploadedFile>): (v: Verdict)
    ensures v.ok <==> v.reason == Accepted
    ensures v.reason == NoFile <==> file.None?
    ensures v.reason == BadExtension <==> file.Some? && Extension(file.value.name) !in AllowedExtensions
    ensures v.reason == TooLarge <==>
              file.Some? && Extension(file.value.name) in AllowedExtensions && file.value.size > MaxFileSize
    ensures v.ok <==>
              file.Some? && Extension(file.value.name) in AllowedExtensions && file.value.size <= MaxFileSize
  {
    match file
    case None => Verdict(false, NoFile)
    case Some(f) =>
      if Extension(f.name) !in AllowedExtensions then Verdict(false, BadExtension)
      else if f.size > MaxFileSize then Verdict(false, TooLarge)
      else Verdict(true, Accepted)
  }

  /**
   * The message returned with each verdict. For a bad extension this returns
   * only the fixed prefix: the source appends the allowed set, joined in an
   * unspecified set order, which is not modelled.
   */
  function Message(reason: Reason): (m: string)
    ensures reason == BadExtension ==> m == "Invalid file format. Allowed formats: "
    ensures reason == TooLarge ==> m == "File size exceeds 10MB limit" && MaxFileSize / (1024 * 1024) == 10
  {
    UploadLimits();
    match reason
    case NoFile => "No file uploaded"
    case BadExtension => "Invalid file format. Allowed formats: "
    case TooLarge => "File size exceeds 10MB limit"
    case Accepted => "File is valid"
  }

  /** No file: `(False, "No file uploaded")`; a file passing both checks: `(True, "File is valid")`. */
  lemma ValidateFileMessages(file: Option<UploadedFile>)
    ensures file.None? ==> !ValidateFile(file).ok && Message(ValidateFile(file).reason) == "No file uploaded"
    ensures ValidateFile(file).ok ==> Message(ValidateFile(file).reason) == "File is valid"
  {
  }

  /** The extension of a name without separators: its last dot onwards, lower-cased. */
  lemma ExtensionOfBareName(name: string, i: nat)
    requires forall j :: 0 <= j < |name| ==> name[j] != '/'
    requires 0 < i < |name| - 1 && name[i] == '.'
    requires forall j :: i < j < |name| ==> name[j] != '.'
    ensures Extension(name) == Lower(name[i..])
  {
    assert RFind(name, '/') == -1;
    assert StripTrailingSlashes(name) == name;
    assert RFind(name, '.') == i;
  }

  /** A non-empty stem without separators, then a dot-led ending with no further dot: the ending, lower-cased. */
  lemma ExtensionOfStem(stem: string, ending: string)
    requires stem != [] && forall j :: 0 <= j < |stem| ==> stem[j] != '/'
    requires |ending| >= 2 && ending[0] == '.'
    requires forall j :: 0 < j < |ending| ==> ending[j] != '.' && ending[j] != '/'
    ensures Extension(stem + ending) == Lower(ending)
  {
    var name := stem + ending;
    forall j | 0 <= j < |name|
      ensures name[j] != '/'
    {
      if j >= |stem| {
        assert name[j] == ending[j - |stem|];
      }
    }
    forall j | |stem| < j < |name|
      ensures name[j] != '.'
    {
      assert name[j] == ending[j - |stem|];
    }
    ExtensionOfBareName(name, |stem|);
    assert name[|stem|..] == ending;
  }

  lemma LowerPdf()
    ensures Lower(".PDF") == ".pdf"
  {
    var lowered := Lower(".PDF");
    assert lowered[0] == '.' && lowered[1] == 'p' && lowered[2] == 'd' && lowered[3] == 'f';
  }

  /** An upper-case ".PDF" name of exactly the limit is valid; one byte more is too large. */
  lemma ValidateFileSizeExamples(stem: string)
    requires stem != [] && forall j :: 0 <= j < |stem| ==> stem[j] != '/'
    ensures ValidateFile(Some(UploadedFile(stem + ".PDF", MaxFileSize))) == Verdict(true, Accepted)
    ensures ValidateFile(Some(UploadedFile(stem + ".PDF", MaxFileSize + 1))) == Verdict(false, TooLarge)
  {
    ExtensionOfStem(stem, ".PDF");
    LowerPdf();
  }

  /** A ".txt" name is refused for its extension whatever its size. */
  lemma ValidateFileExtensionExample(stem: string, size: int)
    requires stem != [] && forall j :: 0 <= j < |stem| ==> stem[j] != '/'
    ensures ValidateFile(Some(UploadedFile(stem + ".txt", size))) == Verdict(false, BadExtension)
  {
    ExtensionOfStem(stem, ".txt");
    LowerTxt();
    TxtNotAllowed();
  }

  lemma TxtNotAllowed()
    ensures ".txt" !in AllowedExtensions
  {
    assert ".txt"[1] != ".pdf"[1] && |".txt"| != |".docx"|;
  }

  lemma LowerTxt()
    ensures Lower(".txt") == ".txt"
  {
    var lowered := Lower(".txt");
    assert lowered[0] == '.' && lowered[1] == 't' && lowered[2] == 'x' && lowered[3] == 't';
  }

  /** Lower-casing maps a character to a non-letter `c` exactly when it already is `c`. */
  lemma LowerCharToNonLetter(x: char, c: char)
    requires !('A' <= c <= 'Z') && !('a' <= c <= 'z')
    ensures LowerChar(x) == c <==> x == c
  {
  }

  lemma {:induction false} RFindLower(s: string, c: char)
    requires !('A' <= c <= 'Z') && !('a' <= c <= 'z')
    ensures RFind(Lower(s), c) == RFind(s, c)
  {
    if s != [] {
      LowerCharToNonLetter(s[|s| - 1], c);
      LowerSlice(s, 0, |s| - 1);
      RFindLower(s[..|s| - 1], c);
    }
  }

  lemma {:induction false} StripTrailingSlashesLower(path: string)
    ensures StripTrailingSlashes(Lower(path)) == Lower(StripTrailingSlashes(path))
  {
    if path != [] {
      LowerCharToNonLetter(path[|path| - 1], '/');
      LowerSlice(path, 0, |path| - 1);
      StripTrailingSlashesLower(path[..|path| - 1]);
    }
  }

  lemma BaseNameLower(path: string)
    ensures BaseName(Lower(path)) == Lower(BaseName(path))
  {
    var trimmed := StripTrailingSlashes(path);
    StripTrailingSlashesLower(path);
    RFindLower(trimmed, '/');
    LowerSlice(trimmed, RFind(trimmed, '/') + 1, |trimmed|);
  }

  lemma SuffixLower(name: string)
    ensures Suffix(Lower(name)) == Lower(Suffix(name))
  {
    RFindLower(name, '.');
    var i := RFind(name, '.');
    if 0 < i < |name| - 1 {
      LowerSlice(name, i, |name|);
    }
  }

  /** The extension check ignores the case of the file name. */
  lemma ExtensionIgnoresCase(name: string)
    ensures Extension(Lower(name)) == Extension(name)
  {
    BaseNameLower(name);
    SuffixLower(BaseName(name));
    LowerIdempotent(Suffix(BaseName(name)));
  }

  /** Validation gives the same verdict whatever the case of the file name. */
  lemma ValidateFileIgnoresCase(name: string, size: int)
    ensures ValidateFile(Some(UploadedFile(Lower(name), size))) == ValidateFile(Some(UploadedFile(name, size)))
  {
    ExtensionIgnoresCase(name);
  }

  /** `calculate_percentage`: 0 for a zero maximum, else score / max * 100. */
  function Percentage(score: real, maxScore: real): (r: real)
    ensures maxScore == 0.0 ==> r == 0.0
    ensures maxScore != 0.0 ==> r * maxScore == score * 100.0
  {
    if maxScore == 0.0 then 0.0 else score / maxScore * 100.0
  }

  /** A score equal to a non-zero maximum is 100 percent. */
  lemma PercentageOfMax(maxScore: real)
    requires maxScore != 0.0
    ensures Percentage(maxScore, maxScore) == 100.0
  {
  }

  /** Strictly ascending in Python's string order, hence without repeats. */
  predicate StrictlyAscending(s: seq<string>)
  {
    forall i, j :: 0 <= i < j < |s| ==> Less(s[i], s[j])
  }

  /** Adds `x` to a strictly ascending sequence, unless it is already there. */
  function InsertDistinct(x: string, s: seq<string>): (r: seq<string>)
    ensures forall y :: y in r <==> y == x || y in s
  {
    if s == [] then [x]
    else if x == s[0] then s
    else if Less(x, s[0]) then [x] + s
    else
      assert s == [s[0]] + s[1..];
      [s[0]] + InsertDistinct(x, s[1..])
  }

  lemma {:induction false} InsertDistinctAscending(x: string, s: seq<string>)
    requires StrictlyAscending(s)
    ensures StrictlyAscending(InsertDistinct(x, s))
  {
    if s == [] || x == s[0] {
    } else if Less(x, s[0]) {
      forall j | 0 < j < |s| ensures Less(x, s[j]) {
        LessTransitive(x, s[0], s[j]);
      }
    } else {
      LessTotal(x, s[0]);
      var t := InsertDistinct(x, s[1..]);
      InsertDistinctAscending(x, s[1..]);
      forall j | 0 <= j < |t| ensures Less(s[0], t[j]) {
        assert t[j] in t;
      }
    }
  }

  /** `sorted(set(xs))`: each distinct element once, ascending. */
  function SortedDistinct(xs: seq<string>): (r: seq<string>)
    ensures forall y :: y in r <==> y in xs
    ensures StrictlyAscending(r)
  {
    if xs == [] then []
    else
      var rest := SortedDistinct(xs[1..]);
      InsertDistinctAscending(xs[0], rest);
      assert xs == [xs[0]] + xs[1..];
      InsertDistinct(xs[0], rest)
  }

  /** No element occurs twice in a strictly ascending sequence. */
  lemma AscendingIsDistinct(s: seq<string>)
    requires StrictlyAscending(s)
    ensures forall i, j :: 0 <= i < |s| && 0 <= j < |s| && s[i] == s[j] ==> i == j
  {
    forall i, j | 0 <= i < j < |s| ensures s[i] != s[j] {
      if s[i] == s[j] {
        LessIrreflexive(s[i]);
      }
    }
  }

  /** `format_skills`: the distinct skills in ascending order, joined by ", ". */
  function FormatSkills(skills: seq<string>): (r: string)
    ensures skills == [] ==> r == ""
  {
    Join(SortedDistinct(skills), ", ")
  }

  /** `format_skills` lists each distinct skill exactly once. */
  lemma FormatSkillsOnce(skills: seq<string>)
    ensures var r := SortedDistinct(skills);
            forall i, j :: 0 <= i < |r| && 0 <= j < |r| && r[i] == r[j] ==> i == j
  {
    AscendingIsDistinct(SortedDistinct(skills));
  }
}
