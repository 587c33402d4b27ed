/**
 * The Django dependency report (repo_health/utils.py): reading
 * requirement lines into a name -> version map, the two regular
 * expressions that pull a package name out of a PyPI pin or a GitHub
 * link, the sets of packages that support Django 3.2 and are upgraded in
 * the repository, the summary stored in the results, and the org/repo
 * split of a GitHub remote URL.
 *
 * The regular expressions are written out by hand as the leftmost,
 * backtracking match Python's `re` module returns; an unescaped `.` in a
 * pattern matches any character except a line break.
 */
module RepoHealthUtils {
  import opened Wrappers
  import opened Seqs
  import opened Text
  import opened Json
  import opened RepoFiles
  import CheckDependencies

  // ---------------------------------------------------------------------
  // strip_requirement
  // ---------------------------------------------------------------------

  /**
   * `strip_requirement`: None for an empty line or one starting with '#'
   * or '-'; otherwise `re.sub(r' +[;#].*', "", line).replace('-e ', "")`.
   */
  function StripRequirement(line: string): (r: Option<string>)
    ensures r.None? <==> line == [] || line[0] == '#' || line[0] == '-'
  {
    if line == [] || line[0] == '#' || line[0] == '-' then None
    else Some(DeleteAll(CutComments(line, {';', '#'}), "-e "))
  }

  /**
   * On a single line, the stripped requirement is the line up to the
   * first run of spaces followed by ';' or '#', with every "-e " deleted.
   */
  lemma StripRequirementCut(line: string)
    requires '\n' !in line && StripRequirement(line).Some?
    ensures exists n :: (0 <= n <= |line| &&
      StripRequirement(line).value == DeleteAll(line[..n], "-e ") &&
      (n < |line| ==> CommentAt(line[n..], {';', '#'})) &&
      forall i :: 0 <= i < n ==> !CommentAt(line[i..], {';', '#'}))
  {
    CutCommentsIsCut(line, {';', '#'});
    var n := |CutComments(line, {';', '#'})|;
    assert CutComments(line, {';', '#'}) == line[..n];
  }

  /** The positions of a name without spaces start no comment match. */
  lemma NameStartsNoComment(name: string, rest: string, marks: set<char>)
    requires ' ' !in name
    ensures CutComments(name + rest, marks) == name + CutComments(rest, marks)
  {
    var line := name + rest;
    forall i | 0 <= i < |name|
      ensures !CommentAt(line[i..], marks)
    {
      assert line[i..][0] == name[i] != ' ';
    }
    CutCommentsKeepsPrefix(line, |name|, marks);
    assert line[..|name|] == name && line[|name|..] == rest;
  }

  /**
   * The Django reader cuts a requirement at " ;": `six ;python_version<"3"`
   * loses its environment marker.
   */
  lemma SemicolonCut(name: string, marker: string)
    requires name != [] && name[0] != '#' && name[0] != '-'
    requires ' ' !in name && '\n' !in marker
    ensures StripRequirement(name + " ;" + marker) == Some(DeleteAll(name, "-e "))
  {
    var rest := " ;" + marker;
    NameStartsNoComment(name, rest, {';', '#'});
    assert LeadingSpaces(rest) == 1 by {
      assert rest[0] == ' ' && rest[1..][0] == ';';
    }
    assert '\n' !in rest by {
      assert forall i :: 2 <= i < |rest| ==> rest[i] == marker[i - 2];
    }
    CutCommentsTail(rest, {';', '#'});
    assert name + " ;" + marker == name + rest;
    assert name + [] == name;
  }

  /** The dependency check cuts only at " #", so the same line keeps " ;" and its marker there. */
  lemma SemicolonKeptByDependencyCheck(name: string, marker: string)
    requires ' ' !in name && '#' !in marker
    ensures CutComments(name + " ;" + marker, {'#'}) == name + " ;" + CutComments(marker, {'#'})
  {
    var rest := " ;" + marker;
    NameStartsNoComment(name, rest, {'#'});
    SpaceSemicolonKept(marker);
    ConcatAssociative(name, " ;", marker);
    ConcatAssociative(name, " ;", CutComments(marker, {'#'}));
  }

  /** Neither position of " ;" starts a match of ` +#.*`. */
  lemma SpaceSemicolonKept(marker: string)
    ensures CutComments(" ;" + marker, {'#'}) == " ;" + CutComments(marker, {'#'})
  {
    var rest := " ;" + marker;
    assert LeadingSpaces(rest) == 1 by {
      assert rest[0] == ' ' && rest[1..][0] == ';';
    }
    assert !CommentAt(rest, {'#'});
    var tail := rest[1..];
    assert tail[0] == ';' && tail[1..] == marker;
    assert !CommentAt(tail, {'#'});
    assert CutComments(tail, {'#'}) == [';'] + CutComments(marker, {'#'});
    assert CutComments(rest, {'#'}) == [' '] + CutComments(tail, {'#'});
    ConcatAssociative([' '], [';'], CutComments(marker, {'#'}));
  }

  /** A match that runs to the end of the text leaves nothing behind. */
  lemma CutCommentsTail(s: string, marks: set<char>)
    requires CommentAt(s, marks) && '\n' !in s
    ensures CutComments(s, marks) == []
  {
    var k := LeadingSpaces(s);
    assert RunWithout(s[k + 1..], '\n') == |s| - k - 1 by {
      var t := s[k + 1..];
      assert forall j :: 0 <= j < |t| ==> t[j] == s[k + 1 + j];
    }
    assert s[CommentLength(s, marks)..] == [];
  }

  // ---------------------------------------------------------------------
  // extract_from_pypi_package
  // ---------------------------------------------------------------------

  /**
   * PYPI_PACKAGE_PATTERN `(?P<package_name>[^/]+)==(?P<version>[^/]+)`
   * with `re.match` can split at position `j` of `s`, whose leading
   * non-slash run has length `m`: a non-empty name, "==", and at least
   * one more non-slash character.
   */
  predicate PinAt(s: string, m: nat, j: nat) {
    1 <= j && j + 2 < m <= |s| && s[j..j + 2] == "=="
  }

  /** The largest split position at most `j`: the greedy name group backs off from the right. */
  function LastPin(s: string, m: nat, j: nat): (r: Option<nat>)
    ensures r.Some? ==> r.value <= j && PinAt(s, m, r.value)
    ensures r.Some? ==> forall j': nat :: r.value < j' <= j ==> !PinAt(s, m, j')
    ensures r.None? ==> forall j': nat :: j' <= j ==> !PinAt(s, m, j')
  {
    if j == 0 then None
    else if PinAt(s, m, j) then Some(j)
    else LastPin(s, m, j - 1)
  }

  /**
   * `extract_from_pypi_package`: all whitespace removed, then the name is
   * everything before the last "==" that leaves a non-empty version, and
   * the version runs to the first '/' (or the end); ("", "") without a
   * match.
   */
  function ExtractFromPypiPackage(dependency: string): (r: (string, string))
    ensures var s := RemoveWhitespace(dependency);
      && (r.0 == [] <==> r.1 == [])
      && (r.0 == [] ==> forall j :: !PinAt(s, RunWithout(s, '/'), j))
      && (r.0 != [] ==>
            && StartsWith(s, r.0 + "==" + r.1)
            && '/' !in r.0 && '/' !in r.1
            && (|r.0| + 2 + |r.1| < |s| ==> s[|r.0| + 2 + |r.1|] == '/')
            && forall j :: 0 <= j < |r.1| - 2 ==> !StartsWith(r.1[j..], "=="))
  {
    var s := RemoveWhitespace(dependency);
    var m := RunWithout(s, '/');
    match LastPin(s, m, m)
    case None => ("", "")
    case Some(j) =>
      PinSplit(s, m, j);
      (s[..j], s[j + 2..m])
  }

  /** The split the match picks: the name, "==", and a version running to the first '/' with no usable "==" in it. */
  lemma PinSplit(s: string, m: nat, j: nat)
    requires m == RunWithout(s, '/') && LastPin(s, m, m) == Some(j)
    ensures var name, version := s[..j], s[j + 2..m];
      && name != [] && version != []
      && StartsWith(s, name + "==" + version)
      && '/' !in name && '/' !in version
      && (m < |s| ==> s[m] == '/')
      && forall k :: 0 <= k < |version| - 2 ==> !StartsWith(version[k..], "==")
  {
    var name, version := s[..j], s[j + 2..m];
    PinSplitSpelled(s, m, j);
    forall k | 0 <= k < |version| - 2
      ensures !StartsWith(version[k..], "==")
    {
      NoLaterPin(s, m, j, k);
    }
  }

  /** The text up to the first '/' spells name, "==", version. */
  lemma PinSplitSpelled(s: string, m: nat, j: nat)
    requires PinAt(s, m, j)
    ensures s[..m] == s[..j] + "==" + s[j + 2..m]
  {
    assert s[..m] == s[..j] + s[j..j + 2] + s[j + 2..m];
  }

  /** No "==" inside the version leaves a non-empty version: the match would have split there. */
  lemma NoLaterPin(s: string, m: nat, j: nat, k: nat)
    requires m == RunWithout(s, '/') && LastPin(s, m, m) == Some(j)
    requires k < m - j - 4
    ensures !StartsWith(s[j + 2..m][k..], "==")
  {
    var i := j + 2 + k;
    assert !PinAt(s, m, i);
    assert s[j + 2..m][k..][..2] == s[i..i + 2];
  }

  /** The compact pin `name==version` is free of whitespace and slashes, and its last usable "==" follows the name. */
  lemma CompactPinFacts(name: string, version: string)
    requires name != [] && version != []
    requires forall i :: 0 <= i < |name| ==> !IsSpace(name[i]) && name[i] != '/'
    requires forall i :: 0 <= i < |version| ==> !IsSpace(version[i]) && version[i] != '/' && version[i] != '='
    ensures var s := name + "==" + version;
      && RemoveWhitespace(s) == s && RunWithout(s, '/') == |s| && LastPin(s, |s|, |s|) == Some(|name|)
      && s[..|name|] == name && s[|name| + 2..|s|] == version
  {
    var s := name + "==" + version;
    assert forall i :: 0 <= i < |s| ==> !IsSpace(s[i]) && s[i] != '/' by {
      forall i | 0 <= i < |s|
        ensures !IsSpace(s[i]) && s[i] != '/'
      {
        if i >= |name| + 2 {
          assert s[i] == version[i - |name| - 2];
        } else if i < |name| {
          assert s[i] == name[i];
        }
      }
    }
    RemoveWhitespaceNone(s);
    RunWithoutOf(s, [], '/');
    assert s + [] == s;
    var m := |s|;
    assert PinAt(s, m, |name|) by {
      assert s[|name|..|name| + 2] == "==";
    }
    assert forall i :: |name| + 2 <= i < |s| ==> s[i] == version[i - |name| - 2];
    forall j: nat | |name| < j <= m
      ensures !PinAt(s, m, j)
    {
      if j + 2 < m {
        assert s[j..j + 2][1] == s[j + 1];
      }
    }
    assert LastPin(s, m, m) == Some(|name|);
  }

  /**
   * Round trip: a whitespace-free, slash-free pin whose version holds no
   * '=' splits back into its name and version.
   */
  lemma PypiRoundTrip(name: string, version: string)
    requires name != [] && version != []
    requires forall i :: 0 <= i < |name| ==> !IsSpace(name[i]) && name[i] != '/'
    requires forall i :: 0 <= i < |version| ==> !IsSpace(version[i]) && version[i] != '/' && version[i] != '='
    ensures ExtractFromPypiPackage(name + "==" + version) == (name, version)
  {
    CompactPinFacts(name, version);
    var s := name + "==" + version;
    assert ExtractFromPypiPackage(s) == (s[..|name|], s[|name| + 2..|s|]);
  }

  /** Removing the whitespace from `name == version` leaves `name==version`. */
  lemma SpacedPinCompacts(name: string, version: string)
    requires forall i :: 0 <= i < |name| ==> !IsSpace(name[i])
    requires forall i :: 0 <= i < |version| ==> !IsSpace(version[i])
    ensures RemoveWhitespace(name + " == " + version) == name + "==" + version
  {
    RemoveWhitespaceConcat(name + " == ", version);
    RemoveWhitespaceConcat(name, " == ");
    assert RemoveWhitespace(" == ") == "==";
    RemoveWhitespaceNone(name);
    RemoveWhitespaceNone(version);
  }

  /** `django == 2.2.20` gives ("django", "2.2.20"): the spaces are removed first. */
  lemma PypiSpacedRoundTrip(name: string, version: string)
    requires name != [] && version != []
    requires forall i :: 0 <= i < |name| ==> !IsSpace(name[i]) && name[i] != '/'
    requires forall i :: 0 <= i < |version| ==> !IsSpace(version[i]) && version[i] != '/' && version[i] != '='
    ensures ExtractFromPypiPackage(name + " == " + version) == (name, version)
  {
    SpacedPinCompacts(name, version);
    CompactPinFacts(name, version);
    ExtractSeesCompactForm(name + " == " + version, name + "==" + version);
    PypiRoundTrip(name, version);
  }

  /** Only the whitespace-free form of the requirement matters. */
  lemma ExtractSeesCompactForm(a: string, b: string)
    requires RemoveWhitespace(a) == RemoveWhitespace(b)
    ensures ExtractFromPypiPackage(a) == ExtractFromPypiPackage(b)
  {
  }

  // ---------------------------------------------------------------------
  // The `github.com[/:]<org>/` prefix shared by both GitHub patterns
  // ---------------------------------------------------------------------

  /** `github.com[/:]` at position `p` (the '.' is unescaped: any character but a line break). */
  predicate HostAt(s: string, p: nat) {
    p + 11 <= |s| && s[p..p + 6] == "github" && s[p + 6] != '\n' &&
    s[p + 7..p + 10] == "com" && (s[p + 10] == '/' || s[p + 10] == ':')
  }

  /** Where `(?P<org_name>[^/]+)` ends: at the first '/' after the host. */
  function OrgEnd(s: string, p: nat): (q: nat)
    requires p + 11 <= |s|
    ensures p + 11 <= q <= |s|
    ensures q < |s| ==> s[q] == '/'
  {
    p + 11 + RunWithout(s[p + 11..], '/')
  }

  /** The host matches at `p`, the org is non-empty and a '/' follows it. */
  predicate OrgAt(s: string, p: nat) {
    HostAt(s, p) && p + 11 < OrgEnd(s, p) < |s|
  }

  /** Where the longest possible `(?P<repo_name>[^/]+)` after the org's '/' at `q` would end. */
  function RepoRunEnd(s: string, q: nat): (e: nat)
    requires q < |s|
    ensures q + 1 <= e <= |s|
  {
    q + 1 + RunWithout(s[q + 1..], '/')
  }

  // ---------------------------------------------------------------------
  // extract_from_github_link
  // ---------------------------------------------------------------------

  /** `#egg=` at `t` followed by at least one character of `(?P<package>[^/]+)`. */
  predicate EggAt(s: string, t: nat) {
    t + 5 < |s| && s[t..t + 5] == "#egg=" && s[t + 5] != '/'
  }

  function Min(a: nat, b: nat): nat {
    if a <= b then a else b
  }

  /**
   * GITHUB_URL_PATTERN can reach `#egg=` at `t` after the org's '/' at
   * `q`: the repo group must be a non-empty part of the non-slash run
   * ending at `e`, and the `.*` between the repo and `#egg=` crosses no
   * line break.  The best repo end for a given `t` is `Min(t, e)`.
   */
  predicate EggReachable(s: string, q: nat, e: nat, t: nat) {
    q + 2 <= e && q + 2 <= t && EggAt(s, t) && '\n' !in s[Min(t, e)..t]
  }

  /**
   * The `#egg=` the match uses: the greedy repo group and the greedy `.*`
   * together pick the last reachable one.
   */
  function LastEgg(s: string, q: nat, e: nat, t: nat): (r: Option<nat>)
    ensures r.Some? ==> r.value <= t && EggReachable(s, q, e, r.value)
    ensures r.Some? ==> forall t': nat :: r.value < t' <= t ==> !EggReachable(s, q, e, t')
    ensures r.None? ==> forall t': nat :: t' <= t ==> !EggReachable(s, q, e, t')
  {
    if EggReachable(s, q, e, t) then Some(t)
    else if t == 0 then None
    else LastEgg(s, q, e, t - 1)
  }

  /** The `#egg=` position of a match of GITHUB_URL_PATTERN starting at `p`, if one starts there. */
  function EggMatchAt(s: string, p: nat): Option<nat> {
    if !OrgAt(s, p) then None
    else
      var q := OrgEnd(s, p);
      LastEgg(s, q, RepoRunEnd(s, q), |s|)
  }

  /** `re.search` tries the start positions from left to right. */
  function FirstEggMatch(s: string, p: nat): (r: Option<nat>)
    ensures r.Some? ==> p <= r.value && EggMatchAt(s, r.value).Some?
    ensures r.Some? ==> forall p': nat :: p <= p' < r.value ==> EggMatchAt(s, p').None?
    ensures r.None? ==> forall p': nat :: p <= p' ==> EggMatchAt(s, p').None?
    decreases |s| - p
  {
    if p + 11 > |s| then
      assert forall p': nat :: p <= p' ==> !HostAt(s, p');
      None
    else if EggMatchAt(s, p).Some? then Some(p)
    else FirstEggMatch(s, p + 1)
  }

  /**
   * `extract_from_github_link`: the package after the chosen `#egg=` (a
   * non-empty run of non-slash characters) and an empty version; ("", "")
   * when the pattern does not match.
   */
  function ExtractFromGithubLink(link: string): (r: (string, string))
    ensures r.1 == []
    ensures r.0 == [] <==> forall p: nat :: EggMatchAt(link, p).None?
    ensures '/' !in r.0
    ensures r.0 != [] ==> exists t: nat :: EggAt(link, t) && StartsWith(link[t + 5..], r.0)
  {
    match FirstEggMatch(link, 0)
    case None => ("", "")
    case Some(p) =>
      (PackageAfter(link, EggMatchAt(link, p).value), "")
  }

  /** The package group: the non-slash run after the `#egg=` at `t`. */
  function PackageAfter(link: string, t: nat): (package: string)
    requires EggAt(link, t)
    ensures package != [] && '/' !in package && StartsWith(link[t + 5..], package)
  {
    var package := link[t + 5..t + 5 + RunWithout(link[t + 5..], '/')];
    assert package == link[t + 5..][..|package|];
    package
  }

  /** `github.com/` spelled out at `p` is a host match. */
  lemma HostSpelled(s: string, p: nat)
    requires p + 11 <= |s| && s[p..p + 11] == "github.com/"
    ensures HostAt(s, p)
  {
    var u := s[p..p + 11];
    assert forall i :: 0 <= i < 11 ==> s[p + i] == u[i];
    assert s[p..p + 6] == u[..6];
    assert s[p + 7..p + 10] == u[7..10];
  }

  /** An org part `org/` after the host at `p`: the org group is exactly `org`. */
  lemma OrgSpelled(s: string, p: nat, org: string, rest: string)
    requires HostAt(s, p) && s[p + 11..] == org + "/" + rest
    requires org != [] && '/' !in org
    ensures OrgAt(s, p) && OrgEnd(s, p) == p + 11 + |org|
    ensures s[p + 11..OrgEnd(s, p)] == org && s[OrgEnd(s, p) + 1..] == rest
  {
    assert org + "/" + rest == org + ("/" + rest);
    RunWithoutOf(org, "/" + rest, '/');
    var q := p + 11 + |org|;
    assert s[q..] == "/" + rest;
    assert s[q + 1..] == rest;
  }

  /** A slash-free remainder after the org's '/' is one non-slash run up to the end. */
  lemma RunToEnd(s: string, q: nat)
    requires q < |s| && '/' !in s[q + 1..]
    ensures RepoRunEnd(s, q) == |s|
  {
    RunWithoutOf(s[q + 1..], [], '/');
    assert s[q + 1..] + [] == s[q + 1..];
  }

  /** With `<repo>#egg=<package>` after the org's '/', the match uses that `#egg=`. */
  lemma EggSpelled(s: string, q: nat, repo: string, package: string)
    requires q < |s| && s[q + 1..] == repo + "#egg=" + package
    requires repo != [] && package != [] && '/' !in repo && '/' !in package
    requires '#' !in package && '\n' !in repo
    ensures LastEgg(s, q, RepoRunEnd(s, q), |s|) == Some(q + 1 + |repo|)
  {
    var tail := repo + "#egg=" + package;
    var t := q + 1 + |repo|;
    var e := |s|;
    EggTailSlashFree(repo, package);
    RunToEnd(s, q);
    assert s[t..] == "#egg=" + package by {
      assert s[t..] == s[q + 1..][|repo|..];
      DropFront(repo, "#egg=", package);
    }
    OnlyEggAt(s, t, package);
    assert s[Min(t, e)..t] == [];
    assert EggReachable(s, q, e, t);
    assert forall t': nat :: t < t' ==> !EggReachable(s, q, e, t');
  }

  lemma DropFront(a: string, b: string, c: string)
    ensures (a + b + c)[|a|..] == b + c
  {
  }

  /** `<repo>#egg=<package>` has no '/' when neither part has one. */
  lemma EggTailSlashFree(repo: string, package: string)
    requires '/' !in repo && '/' !in package
    ensures '/' !in repo + "#egg=" + package
  {
    var tail := repo + "#egg=" + package;
    forall i | 0 <= i < |tail|
      ensures tail[i] != '/'
    {
      if i < |repo| {
        assert tail[i] == repo[i];
      } else if i >= |repo| + 5 {
        assert tail[i] == package[i - |repo| - 5];
      }
    }
  }

  /** In `#egg=<package>` with no '#' in the package, `#egg=` occurs only at the front. */
  lemma OnlyEggAt(s: string, t: nat, package: string)
    requires t <= |s| && s[t..] == "#egg=" + package
    requires package != [] && '/' !in package && '#' !in package
    ensures EggAt(s, t)
    ensures forall t': nat :: t < t' ==> !EggAt(s, t')
  {
    assert s[t..t + 5] == "#egg=" && s[t + 5] == package[0];
    forall t': nat | t < t'
      ensures !EggAt(s, t')
    {
      if t' + 5 < |s| {
        assert s[t'..t' + 5][0] == s[t'];
        if t' < t + 5 {
          assert s[t'] == "#egg="[t' - t];
        } else {
          assert s[t'] == package[t' - t - 5];
        }
      }
    }
  }

  /** In `git+https://github.com/...` the first host match is at 12. */
  lemma NoHostInScheme(s: string)
    requires |s| >= 23 && s[..23] == "git+https://github.com/"
    ensures HostAt(s, 12)
    ensures forall p: nat :: p < 12 ==> !HostAt(s, p)
  {
    assert s[12..23] == "github.com/" by {
      assert s[12..23] == s[..23][12..23];
    }
    HostSpelled(s, 12);
    forall p: nat | p < 12
      ensures !HostAt(s, p)
    {
      assert s[p] == "git+https://github.com/"[p];
      if p == 0 {
        assert s[3] == '+';
      }
    }
  }

  /** The match of a `git+https://github.com/<org>/<repo>#egg=<package>` link starts at the host, 12. */
  lemma EggLinkMatch(s: string, org: string, repo: string, package: string)
    requires |s| >= 23 && s[..23] == "git+https://github.com/" && s[23..] == org + "/" + (repo + "#egg=" + package)
    requires org != [] && repo != [] && package != []
    requires '/' !in org && '/' !in repo && '/' !in package
    requires '#' !in package && '\n' !in repo
    ensures FirstEggMatch(s, 0) == Some(12)
    ensures EggMatchAt(s, 12) == Some(23 + |org| + 1 + |repo|)
  {
    NoHostInScheme(s);
    var q, t := EggLinkParts(s, org, repo, package);
    EggMatchFirst(s, 12, q, t);
  }

  /** The org ends at `q`, right after it; the match uses the `#egg=` at `t`, right after the repo. */
  lemma EggLinkParts(s: string, org: string, repo: string, package: string) returns (q: nat, t: nat)
    requires HostAt(s, 12) && s[23..] == org + "/" + (repo + "#egg=" + package)
    requires org != [] && repo != [] && package != []
    requires '/' !in org && '/' !in repo && '/' !in package
    requires '#' !in package && '\n' !in repo
    ensures q == 23 + |org| && t == q + 1 + |repo|
    ensures OrgAt(s, 12) && OrgEnd(s, 12) == q && LastEgg(s, q, RepoRunEnd(s, q), |s|) == Some(t)
  {
    var rest := repo + "#egg=" + package;
    OrgSpelled(s, 12, org, rest);
    q := OrgEnd(s, 12);
    EggSpelled(s, q, repo, package);
    t := q + 1 + |repo|;
  }

  /** A match at `p` with no host before it is the one `re.search` finds. */
  lemma EggMatchFirst(s: string, p: nat, q: nat, t: nat)
    requires OrgAt(s, p) && OrgEnd(s, p) == q && LastEgg(s, q, RepoRunEnd(s, q), |s|) == Some(t)
    requires forall p': nat :: p' < p ==> !HostAt(s, p')
    ensures FirstEggMatch(s, 0) == Some(p) && EggMatchAt(s, p) == Some(t)
  {
    assert EggMatchAt(s, p) == Some(t);
    assert forall p': nat :: p' < p ==> EggMatchAt(s, p').None?;
  }

  /**
   * Round trip: `git+https://github.com/<org>/<repo>#egg=<package>` gives
   * `package`, for slash-free parts, no '#' in the package and no line
   * break in the repo.
   */
  lemma GithubLinkRoundTrip(org: string, repo: string, package: string)
    requires org != [] && repo != [] && package != []
    requires '/' !in org && '/' !in repo && '/' !in package
    requires '#' !in package && '\n' !in repo
    ensures ExtractFromGithubLink("git+https://github.com/" + org + "/" + repo + "#egg=" + package) == (package, "")
  {
    var prefix := "git+https://github.com/";
    var s := prefix + org + "/" + repo + "#egg=" + package;
    assert s == prefix + (org + "/" + (repo + "#egg=" + package));
    EggLinkExtract(s, org, repo, package);
  }

  lemma EggLinkExtract(s: string, org: string, repo: string, package: string)
    requires |s| >= 23 && s[..23] == "git+https://github.com/" && s[23..] == org + "/" + (repo + "#egg=" + package)
    requires org != [] && repo != [] && package != []
    requires '/' !in org && '/' !in repo && '/' !in package
    requires '#' !in package && '\n' !in repo
    ensures ExtractFromGithubLink(s) == (package, "")
  {
    EggLinkMatch(s, org, repo, package);
    var t := 23 + |org| + 1 + |repo|;
    assert s[t + 5..] == package;
    ExtractAt(s, t);
  }

  /** When the chosen `#egg=` is followed by a slash-free rest, the package is that whole rest. */
  lemma ExtractAt(link: string, t: nat)
    requires FirstEggMatch(link, 0).Some? && EggMatchAt(link, FirstEggMatch(link, 0).value) == Some(t)
    requires t + 5 <= |link| && '/' !in link[t + 5..]
    ensures ExtractFromGithubLink(link) == (link[t + 5..], "")
  {
    var rest := link[t + 5..];
    RunWithoutOf(rest, [], '/');
    assert rest + [] == rest;
    assert PackageAfter(link, t) == rest;
  }

  // ---------------------------------------------------------------------
  // github_org_repo
  // ---------------------------------------------------------------------

  /**
   * What the `.` before `git` in URL_PATTERN matches: as written, unescaped,
   * any character but a line break; escaped, only a '.'.
   */
  datatype DotMatch = AnyButLineBreak | LiteralDot

  predicate DotMatches(dot: DotMatch, c: char) {
    match dot
    case AnyButLineBreak => c != '\n'
    case LiteralDot => c == '.'
  }

  /** `.git` ending the repo group at `k`. */
  predicate GitSuffixAt(s: string, k: nat, dot: DotMatch) {
    k + 4 <= |s| && DotMatches(dot, s[k]) && s[k + 1..k + 4] == "git"
  }

  /** The greedy repo group ends at the last `.git` within reach: in `[q + 2, e]`. */
  function LastGitSuffix(s: string, q: nat, e: nat, k: nat, dot: DotMatch): (r: Option<nat>)
    ensures r.Some? ==> q + 2 <= r.value <= k && r.value <= e && GitSuffixAt(s, r.value, dot)
    ensures r.Some? ==> forall k': nat :: r.value < k' <= k && k' <= e ==> !GitSuffixAt(s, k', dot)
    ensures r.None? ==> forall k': nat :: q + 2 <= k' <= k && k' <= e ==> !GitSuffixAt(s, k', dot)
    decreases k
  {
    if k < q + 2 then None
    else if k <= e && GitSuffixAt(s, k, dot) then Some(k)
    else LastGitSuffix(s, q, e, k - 1, dot)
  }

  /** The (org, repo) a match of URL_PATTERN starting at `p` captures, if one starts there. */
  function OrgRepoAt(s: string, p: nat, dot: DotMatch): (r: Option<(string, string)>)
    ensures r.Some? ==> r.value.0 != [] && r.value.1 != [] && '/' !in r.value.0 && '/' !in r.value.1
  {
    if !OrgAt(s, p) then None
    else
      var q := OrgEnd(s, p);
      var e := RepoRunEnd(s, q);
      match LastGitSuffix(s, q, e, e, dot)
      case None => None
      case Some(k) =>
        assert forall i :: p + 11 <= i < q ==> s[i] == s[p + 11..][i - p - 11];
        assert forall i :: q + 1 <= i < k ==> s[i] == s[q + 1..][i - q - 1];
        Some((s[p + 11..q], s[q + 1..k]))
  }

  /** `re.search` tries the start positions from left to right. */
  function FirstOrgRepo(s: string, p: nat, dot: DotMatch): (r: Option<nat>)
    ensures r.Some? ==> p <= r.value && OrgRepoAt(s, r.value, dot).Some?
    ensures r.Some? ==> forall p': nat :: p <= p' < r.value ==> OrgRepoAt(s, p', dot).None?
    ensures r.None? ==> forall p': nat :: p <= p' ==> OrgRepoAt(s, p', dot).None?
    decreases |s| - p
  {
    if p + 11 > |s| then
      assert forall p': nat :: p <= p' ==> !HostAt(s, p');
      None
    else if OrgRepoAt(s, p, dot).Some? then Some(p)
    else FirstOrgRepo(s, p + 1, dot)
  }

  /**
   * `github_org_repo`: the org and repo of the leftmost match of
   * URL_PATTERN; the `assert match is not None` fails when there is none.
   */
  function OrgRepoSearch(url: string, dot: DotMatch): (r: Result<(string, string)>)
    ensures r.Err? <==> forall p: nat :: OrgRepoAt(url, p, dot).None?
    ensures r.Err? ==> r.error == AssertionError
    ensures r.Ok? ==> r.value.0 != [] && r.value.1 != [] && '/' !in r.value.0 && '/' !in r.value.1
  {
    match FirstOrgRepo(url, 0, dot)
    case None => Err(AssertionError)
    case Some(p) => Ok(OrgRepoAt(url, p, dot).value)
  }

  /** `github_org_repo` as written: the '.' of `.git` is unescaped. */
  function GithubOrgRepoAsWritten(url: string): Result<(string, string)> {
    OrgRepoSearch(url, AnyButLineBreak)
  }

  /** `github_org_repo` with the '.' of `.git` escaped, as the pattern evidently intends. */
  function GithubOrgRepo(url: string): Result<(string, string)> {
    OrgRepoSearch(url, LiteralDot)
  }

  /** With `<repo>.git` and nothing else after the org's '/', the repo group is exactly `repo`. */
  lemma GitSuffixSpelled(s: string, q: nat, repo: string, dot: DotMatch)
    requires q < |s| && s[q + 1..] == repo + ".git"
    requires repo != [] && '/' !in repo
    ensures LastGitSuffix(s, q, RepoRunEnd(s, q), RepoRunEnd(s, q), dot) == Some(|s| - 4)
    ensures s[q + 1..|s| - 4] == repo
  {
    var tail := repo + ".git";
    assert forall i :: 0 <= i < |tail| ==> s[q + 1 + i] == tail[i];
    assert '/' !in tail by {
      forall i | 0 <= i < |tail|
        ensures tail[i] != '/'
      {
        if i < |repo| {
          assert tail[i] == repo[i];
        } else {
          assert tail[i] == ".git"[i - |repo|];
        }
      }
    }
    RunToEnd(s, q);
    var k := |s| - 4;
    assert s[k..] == ".git";
    assert GitSuffixAt(s, k, dot) by {
      assert s[k + 1..k + 4] == s[k..][1..];
    }
  }

  /** Nothing before position 8 of `https://github.com/...` starts a host match. */
  lemma NoHostInHttps(s: string)
    requires |s| >= 19 && s[..19] == "https://github.com/"
    ensures HostAt(s, 8)
    ensures forall p: nat :: p < 8 ==> !HostAt(s, p)
  {
    assert s[8..19] == "github.com/" by {
      assert s[8..19] == s[..19][8..19];
    }
    HostSpelled(s, 8);
    forall p: nat | p < 8
      ensures !HostAt(s, p)
    {
      assert s[p] == "https://github.com/"[p];
    }
  }

  /**
   * Round trip: `https://github.com/<org>/<repo>.git` gives (org, repo) for
   * slash-free non-empty parts, with the pattern as written and corrected.
   */
  lemma GithubOrgRepoHttps(org: string, repo: string)
    requires org != [] && repo != [] && '/' !in org && '/' !in repo
    ensures GithubOrgRepoAsWritten("https://github.com/" + org + "/" + repo + ".git") == Ok((org, repo))
    ensures GithubOrgRepo("https://github.com/" + org + "/" + repo + ".git") == Ok((org, repo))
  {
    var prefix := "https://github.com/";
    var s := prefix + org + "/" + repo + ".git";
    assert s == prefix + (org + "/" + (repo + ".git"));
    NoHostInHttps(s);
    HttpsOrgRepo(s, org, repo, AnyButLineBreak);
    HttpsOrgRepo(s, org, repo, LiteralDot);
  }

  lemma HttpsOrgRepo(s: string, org: string, repo: string, dot: DotMatch)
    requires HostAt(s, 8) && forall p: nat :: p < 8 ==> !HostAt(s, p)
    requires s[19..] == org + "/" + (repo + ".git")
    requires org != [] && repo != [] && '/' !in org && '/' !in repo
    ensures OrgRepoSearch(s, dot) == Ok((org, repo))
  {
    var q := HttpsParts(s, org, repo, dot);
    OrgRepoFirst(s, 8, q, |s| - 4, dot, org, repo);
  }

  /** The host is at 8, the org ends at `q`, and the `.git` the match uses is the final one. */
  lemma HttpsParts(s: string, org: string, repo: string, dot: DotMatch) returns (q: nat)
    requires HostAt(s, 8) && s[19..] == org + "/" + (repo + ".git")
    requires org != [] && repo != [] && '/' !in org && '/' !in repo
    ensures OrgAt(s, 8) && OrgEnd(s, 8) == q && s[19..q] == org
    ensures LastGitSuffix(s, q, RepoRunEnd(s, q), RepoRunEnd(s, q), dot) == Some(|s| - 4) && s[q + 1..|s| - 4] == repo
  {
    OrgSpelled(s, 8, org, repo + ".git");
    q := OrgEnd(s, 8);
    GitSuffixSpelled(s, q, repo, dot);
  }

  /** The groups of a match at `p` whose org ends at `q` and whose repo ends at `k`. */
  lemma OrgRepoAtIs(s: string, p: nat, q: nat, k: nat, dot: DotMatch)
    requires OrgAt(s, p) && OrgEnd(s, p) == q
    requires LastGitSuffix(s, q, RepoRunEnd(s, q), RepoRunEnd(s, q), dot) == Some(k)
    ensures OrgRepoAt(s, p, dot) == Some((s[p + 11..q], s[q + 1..k]))
  {
  }

  /** A match at `p` with no host before it is the one `re.search` finds. */
  lemma OrgRepoFirst(s: string, p: nat, q: nat, k: nat, dot: DotMatch, org: string, repo: string)
    requires OrgAt(s, p) && OrgEnd(s, p) == q
    requires LastGitSuffix(s, q, RepoRunEnd(s, q), RepoRunEnd(s, q), dot) == Some(k)
    requires forall p': nat :: p' < p ==> !HostAt(s, p')
    requires org == s[p + 11..q] && repo == s[q + 1..k]
    ensures OrgRepoSearch(s, dot) == Ok((org, repo))
  {
    OrgRepoAtIs(s, p, q, k, dot);
    assert FirstOrgRepo(s, 0, dot) == Some(p);
  }

  // --- the unescaped '.' of `.git` ---

  /** A '/' at `q`, then `.git` at `k`: the text from `a` spells `org` (the part before the '/'), '/', `repo` (the part between) and ".git". */
  lemma SpelledAt(s: string, a: nat, q: nat, k: nat, org: string, repo: string)
    requires a <= q < k && k + 4 <= |s| && s[q] == '/' && s[k] == '.' && s[k + 1..k + 4] == "git"
    requires org == s[a..q] && repo == s[q + 1..k]
    ensures Contains(s, org + "/" + repo + ".git")
  {
    var w := org + "/" + repo + ".git";
    forall i | 0 <= i < |w|
      ensures s[a..][i] == w[i]
    {
      if k - a < i {
        assert s[k + 1..k + 4][i - (k - a) - 1] == s[a + i];
      }
    }
    ContainsAtPos(s, a, w);
  }

  /** Where the leftmost match `OrgRepoSearch` reports lies: the org ends at the '/' at `q`, the repo at the `.git` at `k`. */
  lemma SearchMatch(url: string, dot: DotMatch) returns (p: nat, q: nat, k: nat)
    requires OrgRepoSearch(url, dot).Ok?
    ensures GitSuffixAt(url, k, dot) && p + 11 <= q < k && url[q] == '/'
    ensures OrgRepoSearch(url, dot).value == (url[p + 11..q], url[q + 1..k])
  {
    p := FirstOrgRepo(url, 0, dot).value;
    assert OrgRepoSearch(url, dot).value == OrgRepoAt(url, p, dot).value;
    assert OrgAt(url, p);
    q := OrgEnd(url, p);
    var e := RepoRunEnd(url, q);
    k := LastGitSuffix(url, q, e, e, dot).value;
    OrgRepoAtIs(url, p, q, k, dot);
  }

  /**
   * With the '.' escaped, the repo group always ends at the text ".git":
   * the URL holds `<org>/<repo>.git`.
   */
  lemma EscapedDotEndsAtGit(url: string)
    requires GithubOrgRepo(url).Ok?
    ensures Contains(url, GithubOrgRepo(url).value.0 + "/" + GithubOrgRepo(url).value.1 + ".git")
  {
    var p, q, k := SearchMatch(url, LiteralDot);
    var r := OrgRepoSearch(url, LiteralDot).value;
    assert url[k] == '.';
    SpelledAt(url, p + 11, q, k, r.0, r.1);
  }

  /** A remote URL without the `.git` suffix, for a repository whose name holds "git" after its first character. */
  const LegitUrl: string := "https://github.com/edx/legit"

  /**
   * As written, the unescaped '.' matches the 'e' of "legit", so the URL
   * gives the repo "l", and no ".git" follows it in the URL.
   */
  lemma UnescapedDotTruncatesRepo()
    ensures GithubOrgRepoAsWritten(LegitUrl) == Ok(("edx", "l"))
    ensures !Contains(LegitUrl, "edx" + "/" + "l" + ".git")
  {
    LegitUrlMatch();
    LegitUrlLacksGit();
  }

  /** The match of URL_PATTERN, as written, in LegitUrl. */
  lemma LegitUrlMatch()
    ensures GithubOrgRepoAsWritten(LegitUrl) == Ok(("edx", "l"))
  {
    LegitUrlOrg();
    LegitUrlRepo();
    OrgRepoFirst(LegitUrl, 8, 22, 24, AnyButLineBreak, "edx", "l");
  }

  /** In LegitUrl the host is at 8, nowhere before, and the org is "edx", ending at 22. */
  lemma LegitUrlOrg()
    ensures forall p: nat :: p < 8 ==> !HostAt(LegitUrl, p)
    ensures OrgAt(LegitUrl, 8) && OrgEnd(LegitUrl, 8) == 22 && LegitUrl[19..22] == "edx"
  {
    LegitUrlSplit();
    NoHostInHttps(LegitUrl);
    OrgSpelled(LegitUrl, 8, "edx", "legit");
  }

  /** LegitUrl is the https host prefix, then "edx/legit". */
  lemma LegitUrlSplit()
    ensures |LegitUrl| >= 19 && LegitUrl[..19] == "https://github.com/"
    ensures LegitUrl[19..] == "edx" + "/" + "legit"
  {
  }

  /** In LegitUrl the greedy repo group, as written, ends at 24: the "egit" of "legit" is taken for ".git". */
  lemma LegitUrlRepo()
    ensures RepoRunEnd(LegitUrl, 22) == 28
    ensures LastGitSuffix(LegitUrl, 22, 28, 28, AnyButLineBreak) == Some(24) && LegitUrl[23..24] == "l"
  {
    var s := LegitUrl;
    RunToEnd(s, 22);
    assert GitSuffixAt(s, 24, AnyButLineBreak) by {
      assert s[25..28] == "git";
    }
  }

  /** LegitUrl holds no "edx/l.git": its only '.' is in "github.com". */
  lemma LegitUrlLacksGit()
    ensures !Contains(LegitUrl, "edx" + "/" + "l" + ".git")
  {
    var s := LegitUrl;
    var w := "edx" + "/" + "l" + ".git";
    forall i | 0 <= i <= |s|
      ensures !StartsWith(s[i..], w)
    {
      if i + 9 <= |s| {
        assert s[i..][..9][5] == s[i + 5];
        assert s[i..][..9][0] == s[i];
      }
    }
    NotContains(s, w);
  }

  /** Escaped, the pattern does not match the same URL, and the `assert` fails. */
  lemma EscapedDotRejects()
    ensures GithubOrgRepo(LegitUrl) == Err(AssertionError)
  {
    LegitUrlLacksDotGit();
    forall p: nat
      ensures OrgRepoAt(LegitUrl, p, LiteralDot).None?
    {
    }
  }

  /** The only '.' of LegitUrl, at 14, is followed by "com". */
  lemma LegitUrlLacksDotGit()
    ensures forall k: nat :: !GitSuffixAt(LegitUrl, k, LiteralDot)
  {
    var s := LegitUrl;
    forall k: nat
      ensures !GitSuffixAt(s, k, LiteralDot)
    {
      if k + 4 <= |s| && s[k] == '.' {
        assert k == 14;
        assert s[k + 1..k + 4][0] == 'c';
      }
    }
  }

  // ---------------------------------------------------------------------
  // DjangoDependencyReader._read_dependencies and read
  // ---------------------------------------------------------------------

  /**
   * What one requirement line contributes: nothing when it strips to None
   * or to the empty string; otherwise the GitHub extractor's pair when the
   * stripped line contains "git+http", the PyPI extractor's pair when not.
   */
  function ParseLine(line: string): (r: Option<(string, string)>)
    ensures r.None? <==> StripRequirement(line).None? || StripRequirement(line).value == []
    ensures r.Some? && Contains(StripRequirement(line).value, "git+http") ==>
      r.value == ExtractFromGithubLink(StripRequirement(line).value) && r.value.1 == []
    ensures r.Some? && !Contains(StripRequirement(line).value, "git+http") ==>
      r.value == ExtractFromPypiPackage(StripRequirement(line).value)
  {
    match StripRequirement(line)
    case None => None
    case Some(stripped) =>
      if stripped == [] then None
      else if Contains(stripped, "git+http") then Some(ExtractFromGithubLink(stripped))
      else Some(ExtractFromPypiPackage(stripped))
  }

  /** `dependencies[name] = version` for each parsed entry in order; skipped lines change nothing. */
  function Apply(deps: map<string, string>, entries: seq<Option<(string, string)>>): map<string, string>
    decreases |entries|
  {
    if entries == [] then deps
    else
      var before := Apply(deps, entries[..|entries| - 1]);
      match entries[|entries| - 1]
      case None => before
      case Some(entry) => before[entry.0 := entry.1]
  }

  /** What each line of a file contributes. */
  function ParsedLines(lines: seq<string>): (r: seq<Option<(string, string)>>)
    ensures |r| == |lines| && forall i :: 0 <= i < |lines| ==> r[i] == ParseLine(lines[i])
  {
    seq(|lines|, i requires 0 <= i < |lines| => ParseLine(lines[i]))
  }

  /** The lines of one file, in order. */
  function AddLines(deps: map<string, string>, lines: seq<string>): map<string, string> {
    Apply(deps, ParsedLines(lines))
  }

  /** The lines of the files, file after file. */
  function AddFiles(deps: map<string, string>, files: seq<RequirementsFile>): map<string, string>
    decreases |files|
  {
    if files == [] then deps
    else AddLines(AddFiles(deps, files[..|files| - 1]), files[|files| - 1].lines)
  }

  /** The Django reader skips a file when "constraints" occurs anywhere in its path. */
  predicate DjangoReads(path: string) {
    !Contains(path, "constraints")
  }

  /** `[str(file) for file in ... if 'constraints' not in str(file)]`, in `rglob` order. */
  function DjangoFiles(files: seq<RequirementsFile>): (r: seq<RequirementsFile>)
    ensures forall f :: f in r <==> f in files && DjangoReads(f.path)
  {
    if files == [] then []
    else
      var rest := DjangoFiles(files[1..]);
      assert forall f :: f in files <==> f == files[0] || f in files[1..];
      if DjangoReads(files[0].path) then [files[0]] + rest else rest
  }

  /** What `read` returns for a repository: `{}` without requirements/. */
  function DjangoDependencies(repo: Repository): map<string, string> {
    if repo.hasRequirements then AddFiles(map[], DjangoFiles(repo.requirementFiles)) else map[]
  }

  class DjangoDependencyReader {
    const repo: Repository
    var dependencies: map<string, string>

    constructor (repo: Repository)
      ensures this.repo == repo && dependencies == map[]
    {
      this.repo := repo;
      dependencies := map[];
    }

    /** `_read_dependencies`: every line of every file that is read updates `dependencies`. */
    method ReadDependencies()
      modifies this
      ensures dependencies == AddFiles(old(dependencies), DjangoFiles(repo.requirementFiles))
    {
      var requirementFiles := DjangoFiles(repo.requirementFiles);
      for i := 0 to |requirementFiles|
        invariant dependencies == AddFiles(old(dependencies), requirementFiles[..i])
      {
        assert requirementFiles[..i + 1][..i] == requirementFiles[..i];
        ReadLines(requirementFiles[i].lines);
      }
      assert requirementFiles[..|requirementFiles|] == requirementFiles;
    }

    /** The body of `_read_dependencies` for one file: each parsed line overwrites its package's entry. */
    method ReadLines(lines: seq<string>)
      modifies this
      ensures dependencies == AddLines(old(dependencies), lines)
    {
      ghost var parsed := ParsedLines(lines);
      for j := 0 to |lines|
        invariant dependencies == Apply(old(dependencies), parsed[..j])
      {
        assert parsed[..j + 1][..j] == parsed[..j];
        var strippedLine := StripRequirement(lines[j]);
        if strippedLine.None? || strippedLine.value == [] {
          continue;
        }
        var extracted;
        if Contains(strippedLine.value, "git+http") {
          extracted := ExtractFromGithubLink(strippedLine.value);
        } else {
          extracted := ExtractFromPypiPackage(strippedLine.value);
        }
        var name, version := extracted.0, extracted.1;
        dependencies := dependencies[name := version];
      }
      assert parsed[..|lines|] == parsed;
    }

    /** `read`: `{}`, reading nothing, when requirements/ does not exist. */
    method Read() returns (r: map<string, string>)
      modifies this
      ensures !repo.hasRequirements ==> r == map[] && dependencies == old(dependencies)
      ensures repo.hasRequirements ==>
        r == dependencies == AddFiles(old(dependencies), DjangoFiles(repo.requirementFiles))
    {
      if !repo.hasRequirements {
        return map[];
      }
      ReadDependencies();
      return dependencies;
    }
  }

  /** A key is present afterwards exactly when it was before or some entry names it. */
  lemma {:induction false} ApplyKeys(deps: map<string, string>, entries: seq<Option<(string, string)>>, k: string)
    ensures k in Apply(deps, entries) <==>
      k in deps || exists i :: 0 <= i < |entries| && entries[i].Some? && entries[i].value.0 == k
    decreases |entries|
  {
    if entries != [] {
      var init := entries[..|entries| - 1];
      ApplyKeys(deps, init, k);
      assert forall i :: 0 <= i < |init| ==> init[i] == entries[i];
      var last := entries[|entries| - 1];
      if last.Some? && last.value.0 == k {
        assert entries[|entries| - 1].Some? && entries[|entries| - 1].value.0 == k;
      }
    }
  }

  /** Later entries overwrite earlier ones: a key maps to the version of the last entry that names it. */
  lemma {:induction false} ApplyLastWins(deps: map<string, string>, entries: seq<Option<(string, string)>>, i: nat)
    requires i < |entries| && entries[i].Some?
    requires forall j :: i < j < |entries| ==> entries[j].None? || entries[j].value.0 != entries[i].value.0
    ensures entries[i].value.0 in Apply(deps, entries) && Apply(deps, entries)[entries[i].value.0] == entries[i].value.1
    decreases |entries|
  {
    if i < |entries| - 1 {
      var init := entries[..|entries| - 1];
      assert forall j :: 0 <= j < |init| ==> init[j] == entries[j];
      ApplyLastWins(deps, init, i);
    }
  }

  /** Entries that are all skipped leave the map alone. */
  lemma {:induction false} ApplySkipped(deps: map<string, string>, entries: seq<Option<(string, string)>>)
    requires forall i :: 0 <= i < |entries| ==> entries[i].None?
    ensures Apply(deps, entries) == deps
    decreases |entries|
  {
    if entries != [] {
      ApplySkipped(deps, entries[..|entries| - 1]);
    }
  }

  /** After a file's lines, a key is present exactly when it was before or some line of the file parses to it. */
  lemma AddLinesKeys(deps: map<string, string>, lines: seq<string>, k: string)
    ensures k in AddLines(deps, lines) <==>
      k in deps || exists i :: 0 <= i < |lines| && ParseLine(lines[i]).Some? && ParseLine(lines[i]).value.0 == k
  {
    ApplyKeys(deps, ParsedLines(lines), k);
  }

  /**
   * A requirement with no pin and no "#egg=", such as a bare package name,
   * is stored under the key "" with version "".
   */
  lemma UnpinnedLineParsesEmpty(name: string)
    requires name != [] && name[0] != '#' && name[0] != '-'
    requires forall i :: 0 <= i < |name| ==> !IsSpace(name[i]) && name[i] != '='
    ensures ParseLine(name) == Some(("", ""))
  {
    BareNameStrips(name);
    if Contains(name, "git+http") {
      forall t: nat
        ensures !EggAt(name, t)
      {
        if t + 5 < |name| {
          assert name[t..t + 5][4] == name[t + 4];
        }
      }
    } else {
      RemoveWhitespaceNone(name);
      PypiWithoutEquals(name);
    }
  }

  /** Without any '=' there is no pin to split at: `("", "")`. */
  lemma PypiWithoutEquals(dependency: string)
    requires '=' !in RemoveWhitespace(dependency)
    ensures ExtractFromPypiPackage(dependency) == ("", "")
  {
    var s := RemoveWhitespace(dependency);
    var m := RunWithout(s, '/');
    forall j: nat
      ensures !PinAt(s, m, j)
    {
      if j + 2 <= |s| {
        assert s[j..j + 2][0] == s[j];
      }
    }
    assert LastPin(s, m, m).None?;
  }

  /** A name without spaces that starts no comment and holds no "-e " comes through the strip step unchanged. */
  lemma BareNameStrips(name: string)
    requires name != [] && name[0] != '#' && name[0] != '-'
    requires forall i :: 0 <= i < |name| ==> !IsSpace(name[i])
    ensures StripRequirement(name) == Some(name)
  {
    assert ' ' !in name by {
      assert IsSpace(' ');
    }
    NameStartsNoComment(name, [], {';', '#'});
    assert name + [] == name;
    forall i | 0 <= i <= |name|
      ensures !StartsWith(name[i..], "-e ")
    {
      if i + 3 <= |name| {
        assert name[i..][..3][2] == name[i + 2];
      }
    }
    NotContains(name, "-e ");
    DeleteAllAbsent(name, "-e ");
  }

  /** A constraints file is never read by the Django reader. */
  lemma ConstraintsFileSkipped(path: string)
    requires EndsWith(path, "constraints.txt")
    ensures !DjangoReads(path)
  {
    var j := |path| - 15;
    assert path[j..][..11] == "constraints";
    ContainsAtPos(path, j, "constraints");
  }

  /**
   * The two readers filter differently: `constraints-dev.txt` is read by
   * the dependency check but skipped by the Django reader.
   */
  lemma ConstraintsPrefixReadOnlyByDependencyCheck()
    ensures !CheckDependencies.IsConstraintsFile("requirements/constraints-dev.txt")
    ensures !DjangoReads("requirements/constraints-dev.txt")
  {
    var path := "requirements/constraints-dev.txt";
    assert path[13..][..11] == "constraints";
    ContainsAtPos(path, 13, "constraints");
    assert path[|path| - 8] != "pins.txt"[0];
    assert path[|path| - 15] != "constraints.txt"[0];
  }

  // ---------------------------------------------------------------------
  // get_upgraded_dependencies_count and set_django_packages
  // ---------------------------------------------------------------------

  /** One row of the Django dependency sheet: the "Django Package Name" and "Django 3.2" columns. */
  datatype SheetRow = SheetRow(packageName: string, django32: string)

  /** The sheet names a Django 3.2 version for the package (a non-empty cell other than "-"). */
  predicate Supports32(row: SheetRow) {
    row.django32 != [] && row.django32 != "-"
  }

  /** Sheet packages the repository depends on. */
  function DjangoDepsOf(deps: map<string, string>, rows: seq<SheetRow>): set<string> {
    set row | row in rows && row.packageName in deps :: row.packageName
  }

  /** ... of which the sheet names a Django 3.2 version. */
  function Support32Of(deps: map<string, string>, rows: seq<SheetRow>): set<string> {
    set row | row in rows && row.packageName in deps && Supports32(row) :: row.packageName
  }

  /** ... of which the repository's version is at least that version (the order `atLeast` is a parameter). */
  function UpgradedOf(deps: map<string, string>, rows: seq<SheetRow>, atLeast: (string, string) -> bool): set<string> {
    set row | row in rows && row.packageName in deps && Supports32(row) && atLeast(deps[row.packageName], row.django32)
      :: row.packageName
  }

  /** The three rows-prefix sets grow by the contribution of the next row. */
  lemma SheetStep(deps: map<string, string>, rows: seq<SheetRow>, i: nat, atLeast: (string, string) -> bool)
    requires i < |rows|
    ensures var row := rows[i];
      && DjangoDepsOf(deps, rows[..i + 1]) == DjangoDepsOf(deps, rows[..i]) + (if row.packageName in deps then {row.packageName} else {})
      && Support32Of(deps, rows[..i + 1]) == Support32Of(deps, rows[..i]) +
           (if row.packageName in deps && Supports32(row) then {row.packageName} else {})
      && UpgradedOf(deps, rows[..i + 1], atLeast) == UpgradedOf(deps, rows[..i], atLeast) +
           (if row.packageName in deps && Supports32(row) && atLeast(deps[row.packageName], row.django32)
            then {row.packageName} else {})
  {
    assert rows[..i + 1] == rows[..i] + [rows[i]];
  }

  /** Upgraded packages support Django 3.2, which are Django packages, which are dependencies. */
  lemma SheetSubsets(deps: map<string, string>, rows: seq<SheetRow>, atLeast: (string, string) -> bool)
    ensures UpgradedOf(deps, rows, atLeast) <= Support32Of(deps, rows) <= DjangoDepsOf(deps, rows) <= deps.Keys
  {
  }

  /** The loop over the sheet's rows, appending to the three lists. */
  method ScanSheet(deps: map<string, string>, rows: seq<SheetRow>, atLeast: (string, string) -> bool)
    returns (djangoList: seq<string>, supportList: seq<string>, upgradedList: seq<string>)
    ensures Elems(djangoList) == DjangoDepsOf(deps, rows)
    ensures Elems(supportList) == Support32Of(deps, rows)
    ensures Elems(upgradedList) == UpgradedOf(deps, rows, atLeast)
  {
    djangoList, supportList, upgradedList := [], [], [];
    for i := 0 to |rows|
      invariant Elems(djangoList) == DjangoDepsOf(deps, rows[..i])
      invariant Elems(supportList) == Support32Of(deps, rows[..i])
      invariant Elems(upgradedList) == UpgradedOf(deps, rows[..i], atLeast)
    {
      SheetStep(deps, rows, i, atLeast);
      var packageName := rows[i].packageName;
      if packageName in deps {
        djangoList := djangoList + [packageName];
        if rows[i].django32 != [] && rows[i].django32 != "-" {
          supportList := supportList + [packageName];
          if atLeast(deps[packageName], rows[i].django32) {
            upgradedList := upgradedList + [packageName];
          }
        }
      }
    }
    assert rows[..|rows|] == rows;
  }

  /**
   * `get_upgraded_dependencies_count`: read the repository's dependencies,
   * walk the sheet, and return each accumulated list deduplicated.
   */
  method GetUpgradedDependenciesCount(repo: Repository, rows: seq<SheetRow>, atLeast: (string, string) -> bool)
    returns (djangoDeps: seq<string>, support32: seq<string>, upgraded: seq<string>)
    ensures var deps := DjangoDependencies(repo);
      && Elems(djangoDeps) == DjangoDepsOf(deps, rows)
      && Elems(support32) == Support32Of(deps, rows)
      && Elems(upgraded) == UpgradedOf(deps, rows, atLeast)
    ensures Distinct(djangoDeps) && Distinct(support32) && Distinct(upgraded)
    ensures Elems(upgraded) <= Elems(support32) <= Elems(djangoDeps) <= DjangoDependencies(repo).Keys
  {
    var readerInstance := new DjangoDependencyReader(repo);
    var deps := readerInstance.Read();
    assert deps == DjangoDependencies(repo);
    var djangoList, supportList, upgradedList := ScanSheet(deps, rows, atLeast);
    SheetSubsets(deps, rows, atLeast);
    djangoDeps := ListOfSet(Elems(djangoList));
    support32 := ListOfSet(Elems(supportList));
    upgraded := ListOfSet(Elems(upgradedList));
  }

  /** `{'count': len(names), 'list': names}`; the list is kept as a list rather than its `json.dumps` text. */
  function CountedList(names: seq<string>): Value {
    Dict([Entry("count", Int(|names|)), Entry("list", List(seq(|names|, i requires 0 <= i < |names| => Str(names[i]))))])
  }

  /** A group whose "count" is the length of its "list". */
  predicate CountMatchesList(group: Value) {
    group.Dict? &&
    match (Lookup(group.entries, "count"), Lookup(group.entries, "list"))
    case (Some(Int(n)), Some(List(items))) => n == |items|
    case _ => false
  }

  /** The names a group lists. */
  function ListedNames(group: Value): set<string> {
    if group.Dict? then
      match Lookup(group.entries, "list")
      case Some(List(items)) => set v | v in items && v.Str? :: v.s
      case _ => {}
    else {}
  }

  lemma CountedListFacts(names: seq<string>)
    ensures CountMatchesList(CountedList(names))
    ensures ListedNames(CountedList(names)) == Elems(names)
  {
    var items := seq(|names|, i requires 0 <= i < |names| => Str(names[i]));
    assert forall x :: x in names ==> Str(x) in items by {
      forall x | x in names
        ensures Str(x) in items
      {
        var i :| 0 <= i < |names| && names[i] == x;
        assert items[i] == Str(x);
      }
    }
  }

  /**
   * `set_django_packages`: `all_results[module_dict_key]` becomes the
   * total / django_32 / upgraded summary; every other key is untouched.
   */
  method SetDjangoPackages(repo: Repository, allResults: seq<Entry>, rows: seq<SheetRow>,
                           atLeast: (string, string) -> bool, moduleDictKey: string)
    returns (r: seq<Entry>)
    ensures forall k :: k != moduleDictKey ==> Lookup(r, k) == Lookup(allResults, k)
    ensures KeySet(r) == KeySet(allResults) + {moduleDictKey}
    ensures Lookup(r, moduleDictKey).Some? && Lookup(r, moduleDictKey).value.Dict?
    ensures var report := Lookup(r, moduleDictKey).value.entries;
      var deps := DjangoDependencies(repo);
      && Keys(report) == ["total", "django_32", "upgraded"]
      && Lookup(report, "total").Some? && CountMatchesList(Lookup(report, "total").value)
      && Lookup(report, "django_32").Some? && CountMatchesList(Lookup(report, "django_32").value)
      && Lookup(report, "upgraded").Some? && CountMatchesList(Lookup(report, "upgraded").value)
      && ListedNames(Lookup(report, "total").value) == DjangoDepsOf(deps, rows)
      && ListedNames(Lookup(report, "django_32").value) == Support32Of(deps, rows)
      && ListedNames(Lookup(report, "upgraded").value) == UpgradedOf(deps, rows, atLeast)
  {
    var djangoDeps, supportDjango32Deps, upgradedInRepo := GetUpgradedDependenciesCount(repo, rows, atLeast);
    CountedListFacts(djangoDeps);
    CountedListFacts(supportDjango32Deps);
    CountedListFacts(upgradedInRepo);
    var report := [
      Entry("total", CountedList(djangoDeps)),
      Entry("django_32", CountedList(supportDjango32Deps)),
      Entry("upgraded", CountedList(upgradedInRepo))];
    r := Put(allResults, moduleDictKey, Dict(report));
  }
}
