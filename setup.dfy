/**
 * The packaging script's text handling (setup.py): which lines of a
 * requirements file name a package, the set of entries collected from
 * several files, and the version string read from a module's source.
 */
module Setup {
  import opened Wrappers
  import opened Seqs
  import opened Text

  // ---------------------------------------------------------------------
  // is_requirement
  // ---------------------------------------------------------------------

  /** `is_requirement`: not blank, not a comment, not a URL or an editable, not an included file. */
  predicate IsRequirement(line: string) {
    line != [] &&
    !(StartsWith(line, "-r") || StartsWith(line, "#") || StartsWith(line, "-e") ||
      StartsWith(line, "git+") || StartsWith(line, "-c"))
  }

  /**
   * The same test on characters: a line is a requirement exactly when it is
   * non-empty, its first character is not '#', a '-' is not followed by
   * 'r', 'e' or 'c', and it does not begin "git+".
   */
  lemma IsRequirementChars(line: string)
    ensures IsRequirement(line) <==>
      (line != [] && line[0] != '#' &&
       !(|line| >= 2 && line[0] == '-' && line[1] in {'r', 'e', 'c'}) &&
       !(|line| >= 4 && line[..4] == "git+"))
  {
    if |line| >= 2 && line[0] == '-' {
      assert line[..2] == ['-', line[1]];
    }
  }

  /** Other options are taken for requirements: a `--index-url ...` line passes the test. */
  lemma DoubleDashPasses(rest: string)
    ensures IsRequirement("--" + rest)
  {
    IsRequirementChars("--" + rest);
  }

  // ---------------------------------------------------------------------
  // Strip helpers
  // ---------------------------------------------------------------------

  /** `strip()` returns a slice of its argument, after a run of whitespace. */
  lemma {:induction false} StripIsSlice(s: string) returns (a: nat, b: nat)
    ensures a <= b <= |s| && Strip(s) == s[a..b]
    ensures forall i :: 0 <= i < a ==> IsSpace(s[i])
    decreases |s|
  {
    if s == [] {
      a, b := 0, 0;
    } else if IsSpace(s[0]) {
      var a', b' := StripIsSlice(s[1..]);
      a, b := a' + 1, b' + 1;
      assert s[1..][a'..b'] == s[a..b];
    } else if IsSpace(s[|s| - 1]) {
      a, b := StripIsSlice(s[..|s| - 1]);
      assert s[..|s| - 1][a..b] == s[a..b];
    } else {
      a, b := 0, |s|;
    }
  }

  /** A string holding a non-whitespace character does not strip to nothing. */
  lemma {:induction false} StripNonEmpty(s: string, i: nat)
    requires i < |s| && !IsSpace(s[i])
    ensures Strip(s) != []
    decreases |s|
  {
    if IsSpace(s[0]) {
      StripNonEmpty(s[1..], i - 1);
    } else if IsSpace(s[|s| - 1]) {
      StripNonEmpty(s[..|s| - 1], i);
    }
  }

  // ---------------------------------------------------------------------
  // load_requirements
  // ---------------------------------------------------------------------

  /** What a kept line contributes: `line.split("#")[0].strip()`. */
  function RequirementEntry(line: string): string {
    Strip(Before(line, '#'))
  }

  /** The entries of one file: the generator given to `requirements.update`. */
  function FileRequirements(lines: seq<string>): set<string> {
    set line | line in lines && IsRequirement(Strip(line)) :: RequirementEntry(line)
  }

  /** The entries of all files. */
  function AllRequirements(files: seq<seq<string>>): set<string> {
    set lines, line | lines in files && line in lines && IsRequirement(Strip(line)) :: RequirementEntry(line)
  }

  /** Every entry of a kept line is non-empty and free of '#'. */
  lemma RequirementEntryWellFormed(line: string)
    requires IsRequirement(Strip(line))
    ensures RequirementEntry(line) != [] && '#' !in RequirementEntry(line)
  {
    var a, b := StripIsSlice(line);
    var head := Before(line, '#');
    assert line[a] == Strip(line)[0];
    assert Strip(line)[..1] != "#";
    assert '#' !in line[..a + 1] by {
      forall i | 0 <= i <= a
        ensures line[i] != '#'
      {
        if i < a {
          assert IsSpace(line[i]);
        }
      }
    }
    assert |head| > a && head[a] == line[a] by {
      assert head == line[..|head|];
    }
    StripNonEmpty(head, a);
    var c, d := StripIsSlice(head);
    assert forall x :: x in head[c..d] ==> x in head;
  }

  /** Every entry `load_requirements` collects is non-empty and free of '#'. */
  lemma AllRequirementsWellFormed(files: seq<seq<string>>, x: string)
    requires x in AllRequirements(files)
    ensures x != [] && '#' !in x
  {
    var lines, line :| lines in files && line in lines && IsRequirement(Strip(line)) && x == RequirementEntry(line);
    RequirementEntryWellFormed(line);
  }

  /** `load_requirements`: the union of every file's entries, as a list without repeats. */
  method LoadRequirements(files: seq<seq<string>>) returns (r: seq<string>)
    ensures Distinct(r) && Elems(r) == AllRequirements(files)
    ensures forall i :: 0 <= i < |r| ==> r[i] != [] && '#' !in r[i]
  {
    var requirements: set<string> := {};
    for i := 0 to |files|
      invariant requirements == AllRequirements(files[..i])
    {
      assert files[..i + 1] == files[..i] + [files[i]];
      requirements := requirements + FileRequirements(files[i]);
    }
    assert files[..|files|] == files;
    r := ListOfSet(requirements);
    forall i | 0 <= i < |r|
      ensures r[i] != [] && '#' !in r[i]
    {
      AllRequirementsWellFormed(files, r[i]);
    }
  }

  // ---------------------------------------------------------------------
  // get_version
  // ---------------------------------------------------------------------

  predicate IsQuote(c: char) {
    c == '\'' || c == '"'
  }

  /** Length of the leading run of non-quote characters (the class `[^'"]*`, greedy; it crosses lines). */
  function NonQuoteRun(s: string): (n: nat)
    ensures n <= |s|
    ensures forall i :: 0 <= i < n ==> !IsQuote(s[i])
    ensures n < |s| ==> IsQuote(s[n])
  {
    if s != [] && !IsQuote(s[0]) then 1 + NonQuoteRun(s[1..]) else 0
  }

  /** With `re.M`, `^` matches at the start of the text and after every line break. */
  predicate LineStart(s: string, p: nat) {
    p == 0 || (p <= |s| && s[p - 1] == '\n')
  }

  const Header: string := "__version__ = "

  /**
   * The group captured by `^__version__ = ['"]([^'"]*)['"]` at `p`: the
   * header, a quote, the longest quote-free run and a closing quote (of
   * either kind). A shorter run never helps, since the character after it
   * is not a quote.
   */
  function VersionAt(s: string, p: nat): (r: Option<string>)
    ensures r.Some? ==> forall i :: 0 <= i < |r.value| ==> !IsQuote(r.value[i])
  {
    if LineStart(s, p) && p + 15 <= |s| && StartsWith(s[p..], Header) && IsQuote(s[p + 14]) then
      var rest := s[p + 15..];
      var n := NonQuoteRun(rest);
      if n < |rest| then Some(rest[..n]) else None
    else None
  }

  /** `re.search` tries the positions from left to right. */
  function FirstVersion(s: string, p: nat): (r: Option<nat>)
    ensures r.Some? ==> p <= r.value && VersionAt(s, r.value).Some?
    ensures r.Some? ==> forall p': nat :: p <= p' < r.value ==> VersionAt(s, p').None?
    ensures r.None? ==> forall p': nat :: p <= p' ==> VersionAt(s, p').None?
    decreases |s| - p
  {
    if p + 15 > |s| then None
    else if VersionAt(s, p).Some? then Some(p)
    else FirstVersion(s, p + 1)
  }

  const VersionNotFound: string := "Unable to find version string."

  /** `get_version` on the text of the version file. */
  function GetVersion(versionFile: string): (r: Result<string>)
    ensures r.Err? <==> forall p: nat :: VersionAt(versionFile, p).None?
    ensures r.Err? ==> r.error == RuntimeError(VersionNotFound)
    ensures r.Ok? ==> forall i :: 0 <= i < |r.value| ==> !IsQuote(r.value[i])
  {
    match FirstVersion(versionFile, 0)
    case None => Err(RuntimeError(VersionNotFound))
    case Some(p) => Ok(VersionAt(versionFile, p).value)
  }

  /** Round trip: a file whose first line is `__version__ = '<v>'` gives `v`, for a quote-free `v`. */
  lemma VersionRoundTrip(v: string, rest: string)
    requires forall i :: 0 <= i < |v| ==> !IsQuote(v[i])
    ensures GetVersion(Header + "'" + v + "'" + rest) == Ok(v)
  {
    var s := Header + "'" + v + "'" + rest;
    var tail := v + "'" + rest;
    assert s == Header + "'" + tail;
    assert s[..14] == Header;
    assert s[15..] == tail;
    NonQuoteRunOf(v, "'" + rest);
    assert tail == v + ("'" + rest);
    assert VersionAt(s, 0) == Some(v);
  }

  lemma {:induction false} NonQuoteRunOf(a: string, b: string)
    requires forall i :: 0 <= i < |a| ==> !IsQuote(a[i])
    requires b != [] && IsQuote(b[0])
    ensures NonQuoteRun(a + b) == |a|
  {
    if a != [] {
      assert (a + b)[1..] == a[1..] + b;
      NonQuoteRunOf(a[1..], b);
    } else {
      assert a + b == b;
    }
  }

  /** A later line can hold the version; the earlier lines, lacking the header, are passed over. */
  lemma VersionOnLaterLine(first: string, v: string)
    requires '\n' !in first && !StartsWith(first, Header)
    requires forall i :: 0 <= i < |v| ==> !IsQuote(v[i])
    ensures GetVersion(first + "\n" + Header + "\"" + v + "\"") == Ok(v)
  {
    var s := first + "\n" + Header + "\"" + v + "\"";
    var p := |first| + 1;
    forall p': nat | p' < p
      ensures VersionAt(s, p').None?
    {
      if 0 < p' {
        assert s[p' - 1] == first[p' - 1];
      } else {
        assert s[..|first|] == first;
        if |first| >= 14 {
          assert s[..14] == first[..14];
        } else {
          assert s[|first|] == '\n' && '\n' !in Header;
        }
      }
    }
    assert s[p..] == Header + "\"" + v + "\"";
    assert s[p..][..14] == Header;
    assert s[p + 15..] == v + "\"";
    NonQuoteRunOf(v, "\"");
    assert VersionAt(s, p) == Some(v);
    assert FirstVersion(s, 0) == Some(p);
  }
}
