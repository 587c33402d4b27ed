/**
 * The dependency check (repo_health/check_dependencies.py): a JavaScript
 * reader over package.json and package-lock.json, a Python reader over the
 * requirement files under requirements/, and the aggregation of both into
 * one result with a fixed set of keys.
 *
 * The repository is the input value `RepoFiles.Repository`.
 */
module CheckDependencies {
  import opened Wrappers
  import opened Seqs
  import opened Text
  import opened RepoFiles

  // ---------------------------------------------------------------------
  // Outputs
  // ---------------------------------------------------------------------

  /** The "list" field: the "" placeholder, a JSON list, or a JSON object. */
  datatype Listing = Blank | Items(items: seq<string>) | Table(entries: map<string, string>)

  datatype Group = Group(count: nat, list: Listing)

  /** A reader's or the aggregator's result: the top-level "count" and the named groups. */
  datatype Summary = Summary(count: nat, groups: map<string, Group>)

  const JsKeys: set<string> := {"js", "js.dev", "js.all"}
  const PythonKeys: set<string> := {"github", "pypi_all", "pypi"}

  /** `default_output`: every group present with count 0 and list "". */
  const DefaultOutput: Summary := Summary(0, map k | k in PythonKeys + JsKeys :: Group(0, Blank))

  // ---------------------------------------------------------------------
  // JavascriptDependencyReader
  // ---------------------------------------------------------------------

  /** `package_json_data.get(key, {})`. */
  function OrEmpty(m: Option<map<string, string>>): map<string, string> {
    if m.Some? then m.value else map[]
  }

  /** The name -> version map `js_dependencies_all` ends with; KeyError when an entry has no version. */
  function LockedVersions(lock: Option<PackageLock>): (r: Result<map<string, string>>)
    ensures r.Err? <==> (lock.Some? && lock.value.dependencies.Some? &&
      exists name :: name in lock.value.dependencies.value && lock.value.dependencies.value[name].version.None?)
    ensures r.Err? ==> r.error == KeyError("version")
    ensures r.Ok? && (lock.None? || lock.value.dependencies.None?) ==> r.value == map[]
    ensures r.Ok? && lock.Some? && lock.value.dependencies.Some? ==>
      r.value.Keys == lock.value.dependencies.value.Keys &&
      forall name :: name in r.value ==> Some(r.value[name]) == lock.value.dependencies.value[name].version
  {
    if lock.None? || lock.value.dependencies.None? then Ok(map[])
    else
      var deps := lock.value.dependencies.value;
      if exists name :: name in deps && deps[name].version.None? then Err(KeyError("version"))
      else Ok(map name | name in deps :: deps[name].version.value)
  }

  /** What the JavaScript reader returns for a repository that has a package.json. */
  function JsSummary(pkg: PackageJson, lock: Option<PackageLock>): Result<Summary> {
    var deps := OrEmpty(pkg.dependencies);
    var devDeps := OrEmpty(pkg.devDependencies);
    match LockedVersions(lock)
    case Err(e) => Err(e)
    case Ok(all) => Ok(Summary(|deps| + |devDeps|, map[
      "js" := Group(|deps|, Table(deps)),
      "js.dev" := Group(|devDeps|, Table(devDeps)),
      "js.all" := Group(|all|, Table(all))]))
  }

  /**
   * The reader's counts: "js" counts `dependencies`, "js.dev" counts
   * `devDependencies`, the total is their sum and leaves "js.all" out;
   * "js.all" maps every locked name to its version and is empty without a
   * lockfile.
   */
  lemma JsCounts(pkg: PackageJson, lock: Option<PackageLock>)
    requires JsSummary(pkg, lock).Ok?
    ensures var s := JsSummary(pkg, lock).value;
      && s.groups.Keys == JsKeys
      && s.groups["js"].count == |OrEmpty(pkg.dependencies)|
      && s.groups["js.dev"].count == |OrEmpty(pkg.devDependencies)|
      && s.count == s.groups["js"].count + s.groups["js.dev"].count
      && (lock.None? ==> s.groups["js.all"] == Group(0, Table(map[])))
      && (lock.Some? && lock.value.dependencies.Some? ==>
            s.groups["js.all"].count == |lock.value.dependencies.value.Keys|)
  {
    var s := JsSummary(pkg, lock).value;
    var all := LockedVersions(lock).value;
    assert s.groups["js.all"] == Group(|all|, Table(all));
    assert |all| == |all.Keys|;
  }

  /**
   * Every name recorded so far is a package of the lockfile, under its own
   * version: what the lockfile loop leaves behind when a KeyError stops it.
   */
  predicate RecordedVersions(lock: Option<PackageLock>, all: map<string, string>) {
    forall name :: name in all ==>
      lock.Some? && lock.value.dependencies.Some? && name in lock.value.dependencies.value &&
      lock.value.dependencies.value[name].version == Some(all[name])
  }

  class JavascriptDependencyReader {
    const repo: Repository
    var jsDependencies: map<string, string>
    var jsDevDependencies: map<string, string>
    var jsDependenciesAll: map<string, string>
    var jsDependenciesCount: nat
    var jsDevDependenciesCount: nat

    constructor (repo: Repository)
      ensures this.repo == repo && jsDependenciesAll == map[]
      ensures jsDependenciesCount == 0 && jsDevDependenciesCount == 0
    {
      this.repo := repo;
      jsDependencies := map[];
      jsDevDependencies := map[];
      jsDependenciesAll := map[];
      jsDependenciesCount := 0;
      jsDevDependenciesCount := 0;
    }

    /**
     * The fields after `_read_dependencies`: the manifest's two maps and
     * their sizes, and `js_dependencies_all` filled from the lockfile when
     * the read succeeded (`ok`), or partly filled when a KeyError stopped it.
     */
    ghost predicate Loaded(ok: bool)
      requires repo.packageJson.Some?
      reads this
    {
      && jsDependencies == OrEmpty(repo.packageJson.value.dependencies)
      && jsDevDependencies == OrEmpty(repo.packageJson.value.devDependencies)
      && jsDependenciesCount == |jsDependencies|
      && jsDevDependenciesCount == |jsDevDependencies|
      && (ok ==> LockedVersions(repo.packageLock).Ok? && jsDependenciesAll == LockedVersions(repo.packageLock).value)
      && (!ok ==> RecordedVersions(repo.packageLock, jsDependenciesAll))
    }

    /** `_read_dependencies`: records the manifest's two maps and their sizes, and fills `js_dependencies_all` from the lockfile. */
    method ReadDependencies() returns (r: Result<Summary>)
      requires repo.packageJson.Some? && jsDependenciesAll == map[]
      modifies this
      ensures r == JsSummary(repo.packageJson.value, repo.packageLock)
      ensures Loaded(r.Ok?)
    {
      var pkg := repo.packageJson.value;
      jsDependencies := OrEmpty(pkg.dependencies);
      jsDevDependencies := OrEmpty(pkg.devDependencies);
      jsDependenciesCount := |jsDependencies|;
      jsDevDependenciesCount := |jsDevDependencies|;

      if repo.packageLock.Some? {
        var failed := ReadLockfile(repo.packageLock.value);
        if failed {
          return Err(KeyError("version"));
        }
      }

      r := Ok(Summary(jsDependenciesCount + jsDevDependenciesCount, map[
        "js" := Group(jsDependenciesCount, Table(jsDependencies)),
        "js.dev" := Group(jsDevDependenciesCount, Table(jsDevDependencies)),
        "js.all" := Group(|jsDependenciesAll|, Table(jsDependenciesAll))]));
    }

    /** The lockfile loop: every locked package's "version" recorded under its name; true on a missing "version". */
    method ReadLockfile(lock: PackageLock) returns (failed: bool)
      requires jsDependenciesAll == map[]
      modifies this`jsDependenciesAll
      ensures failed <==> LockedVersions(Some(lock)).Err?
      ensures !failed ==> jsDependenciesAll == LockedVersions(Some(lock)).value
      ensures failed ==> RecordedVersions(Some(lock), jsDependenciesAll)
    {
      var deps := if lock.dependencies.Some? then lock.dependencies.value else map[];
      var todo := deps.Keys;
      while todo != {}
        invariant todo <= deps.Keys
        invariant jsDependenciesAll.Keys == deps.Keys - todo
        invariant forall name :: name in jsDependenciesAll ==> deps[name].version == Some(jsDependenciesAll[name])
        decreases |todo|
      {
        var name :| name in todo;
        var details := deps[name];
        if details.version.None? {
          return true;
        }
        jsDependenciesAll := jsDependenciesAll[name := details.version.value];
        todo := todo - {name};
      }
      return false;
    }

    /** `read`: `{}` (None) when there is no package.json, and the fields untouched. */
    method Read() returns (r: Result<Option<Summary>>)
      requires jsDependenciesAll == map[]
      modifies this
      ensures repo.packageJson.None? ==> r == Ok(None)
      ensures repo.packageJson.None? ==>
        && jsDependencies == old(jsDependencies) && jsDevDependencies == old(jsDevDependencies)
        && jsDependenciesAll == old(jsDependenciesAll)
        && jsDependenciesCount == old(jsDependenciesCount) && jsDevDependenciesCount == old(jsDevDependenciesCount)
      ensures repo.packageJson.Some? ==>
        r == match JsSummary(repo.packageJson.value, repo.packageLock)
             case Ok(s) => Ok(Some(s))
             case Err(e) => Err(e)
      ensures repo.packageJson.Some? ==> Loaded(r.Ok?)
    {
      if repo.packageJson.None? {
        return Ok(None);
      }
      var s := ReadDependencies();
      if s.Err? {
        return Err(s.error);
      }
      return Ok(Some(s.value));
    }
  }

  // ---------------------------------------------------------------------
  // PythonDependencyReader: line cleaning and classification
  // ---------------------------------------------------------------------

  /** `re.sub(r' +#.*', "", line).replace('-e ', "")`. */
  function CleanLine(line: string): string {
    DeleteAll(CutComments(line, {'#'}), "-e ")
  }

  /** A line the cleaning keeps: not empty and not starting with '#'. */
  predicate Kept(line: string) {
    line != [] && line[0] != '#'
  }

  /** The `stripped_lines` comprehension: kept lines, cleaned, in order. */
  function StrippedLines(lines: seq<string>): (r: seq<string>)
    ensures |r| <= |lines|
    ensures forall x :: x in r <==> exists line :: line in lines && Kept(line) && CleanLine(line) == x
  {
    if lines == [] then []
    else
      var rest := StrippedLines(lines[1..]);
      assert forall line :: line in lines <==> line == lines[0] || line in lines[1..];
      if Kept(lines[0]) then [CleanLine(lines[0])] + rest else rest
  }

  /** `re.match(r'^git\+.*', line)`. */
  predicate IsGithub(line: string) {
    StartsWith(line, "git+")
  }

  /** A pinned PyPI requirement: not a GitHub line, and contains "==". */
  predicate IsPinned(line: string) {
    !IsGithub(line) && Contains(line, "==")
  }

  /** `[line for line in stripped if re.match(r'^git\+.*', line)]`. */
  function GithubLines(stripped: seq<string>): (r: seq<string>)
    ensures forall x :: x in r <==> x in stripped && IsGithub(x)
  {
    if stripped == [] then []
    else
      var rest := GithubLines(stripped[1..]);
      if IsGithub(stripped[0]) then [stripped[0]] + rest else rest
  }

  /** `[line for line in stripped if line not in github and "==" in line]`, as the source writes it. */
  function PinnedNotIn(stripped: seq<string>, github: seq<string>): seq<string> {
    if stripped == [] then []
    else
      var rest := PinnedNotIn(stripped[1..], github);
      if stripped[0] !in github && Contains(stripped[0], "==") then [stripped[0]] + rest else rest
  }

  /** The lines of `stripped` that are pinned PyPI requirements. */
  function PinnedLines(stripped: seq<string>): (r: seq<string>)
    ensures forall x :: x in r <==> x in stripped && IsPinned(x)
  {
    if stripped == [] then []
    else
      var rest := PinnedLines(stripped[1..]);
      if IsPinned(stripped[0]) then [stripped[0]] + rest else rest
  }

  /**
   * The source tests "not already a GitHub line" by membership in the
   * list of GitHub lines collected so far.  As long as that list holds
   * only GitHub lines and already holds this file's, the test is exactly
   * "does not start with git+".
   */
  lemma {:induction false} PinnedNotInIsPinned(stripped: seq<string>, github: seq<string>)
    requires forall g :: g in github ==> IsGithub(g)
    requires forall x :: x in stripped && IsGithub(x) ==> x in github
    ensures PinnedNotIn(stripped, github) == PinnedLines(stripped)
  {
    if stripped != [] {
      PinnedNotInIsPinned(stripped[1..], github);
    }
  }

  /** What `cleanup_lines` returns. */
  datatype Cleaned = Cleaned(github: seq<string>, pypi: seq<string>)

  /**
   * `cleanup_lines(lines)`: the GitHub lines and the pinned lines among
   * the cleaned lines; the two are disjoint and a line that is neither is
   * dropped.
   */
  function CleanupLines(lines: seq<string>): (r: Cleaned)
    ensures r.github == GithubLines(StrippedLines(lines))
    ensures r.pypi == PinnedLines(StrippedLines(lines))
  {
    var stripped := StrippedLines(lines);
    var github := GithubLines(stripped);
    PinnedNotInIsPinned(stripped, github);
    Cleaned(github, PinnedNotIn(stripped, github))
  }

  /** A line without spaces is left alone by the comment cut. */
  lemma {:induction false} CutCommentsNoSpace(s: string, marks: set<char>)
    requires ' ' !in s
    ensures CutComments(s, marks) == s
  {
    if s != [] {
      assert s == [s[0]] + s[1..];
      CutCommentsNoSpace(s[1..], marks);
    }
  }

  lemma {:induction false} NoSpaceNoEditable(s: string)
    requires ' ' !in s
    ensures !Contains(s, "-e ")
  {
    if s != [] {
      assert |s| >= 3 ==> s[2] in s && s[..3][2] == s[2];
      NoSpaceNoEditable(s[1..]);
    }
  }

  /** A line without spaces is its own cleaned form. */
  lemma CleanLineNoSpace(line: string)
    requires ' ' !in line
    ensures CleanLine(line) == line
  {
    CutCommentsNoSpace(line, {'#'});
    NoSpaceNoEditable(line);
    DeleteAllAbsent(line, "-e ");
  }

  /** An editable `-e git+...` line becomes a GitHub entry. */
  lemma EditableGithub(url: string)
    requires StartsWith(url, "git+")
    ensures IsGithub(CleanLine("-e " + url))
  {
    var line := "-e " + url;
    EditablePrefixUncut(url);
    CutCommentsKeepsPrefix(line, 7, {'#'});
    EditableFlagDeleted(line, CutComments(line, {'#'}));
  }

  /** None of the first seven positions of `-e git+...` starts a match of ` +#.*`. */
  lemma EditablePrefixUncut(url: string)
    requires StartsWith(url, "git+")
    ensures var line := "-e " + url; line[..7] == "-e git+" && forall i :: 0 <= i < 7 ==> !CommentAt(line[i..], {'#'})
  {
    var line := "-e " + url;
    assert line[3..7] == "git+";
    forall i | 0 <= i < 7
      ensures !CommentAt(line[i..], {'#'})
    {
      if i == 2 {
        assert line[2..][0] == ' ' && line[2..][1..][0] == 'g';
        assert LeadingSpaces(line[2..]) == 1;
      } else {
        assert line[i..][0] == line[i] != ' ';
      }
    }
  }

  /** Deleting "-e " from a cut line that starts `-e git+` leaves a line starting "git+". */
  lemma EditableFlagDeleted(line: string, cut: string)
    requires 7 <= |line| && line[..7] == "-e git+" && cut == line[..7] + CutComments(line[7..], {'#'})
    ensures StartsWith(DeleteAll(cut, "-e "), "git+")
  {
    assert cut[..3] == "-e " && cut[3..][..4] == "git+";
    assert DeleteAll(cut, "-e ") == DeleteAll(cut[3..], "-e ");
    DeleteAllKeepsPrefix(cut[3..], "git+", "-e ");
  }

  /**
   * A GitHub line without spaces, such as one ending in
   * `#egg=name==version`, is kept whole (no space precedes its '#') and
   * is a GitHub entry, never a pinned one, although it contains "==".
   */
  lemma GithubLineKept(line: string)
    requires StartsWith(line, "git+") && ' ' !in line
    ensures CleanLine(line) == line && IsGithub(CleanLine(line)) && !IsPinned(CleanLine(line))
  {
    CleanLineNoSpace(line);
  }

  lemma IncludeLineUncut(file: string)
    requires ' ' !in file && (file != [] ==> file[0] != '#')
    ensures CutComments("-r " + file, {'#'}) == "-r " + file
  {
    var line := "-r " + file;
    assert line[..3] == "-r " && line[3..] == file;
    forall i | 0 <= i < 3
      ensures !CommentAt(line[i..], {'#'})
    {
      if i == 2 {
        assert line[2..][0] == ' ' && line[2..][1..] == file;
        assert LeadingSpaces(line[2..]) == 1;
      } else {
        assert line[i..][0] == line[i] != ' ';
      }
    }
    CutCommentsKeepsPrefix(line, 3, {'#'});
    CutCommentsNoSpace(file, {'#'});
  }

  lemma IncludeLineLacks(file: string, sub: string)
    requires |sub| >= 2 && sub[0] != 'r' && sub[0] != ' ' && sub[1] != 'r'
    requires ' ' !in file && (sub[0] in file ==> sub[|sub| - 1] == ' ')
    ensures !Contains("-r " + file, sub)
  {
    var line := "-r " + file;
    assert line[3..] == file;
    forall i | 0 <= i <= |line|
      ensures !StartsWith(line[i..], sub)
    {
      if 3 <= i < |line| {
        assert line[i..] == file[i - 3..];
      }
    }
    NotContains(line, sub);
  }

  /**
   * An include line `-r <file>` (a file name without spaces or '=', not
   * starting with '#') survives cleaning unchanged and is neither a GitHub
   * nor a pinned entry, so it is counted nowhere.
   */
  lemma IncludeLineDropped(file: string)
    requires ' ' !in file && '=' !in file && (file != [] ==> file[0] != '#')
    ensures CleanLine("-r " + file) == "-r " + file
    ensures !IsGithub(CleanLine("-r " + file)) && !IsPinned(CleanLine("-r " + file))
  {
    IncludeLineUncut(file);
    IncludeLineLacks(file, "-e ");
    DeleteAllAbsent("-r " + file, "-e ");
    IncludeLineLacks(file, "==");
  }

  // ---------------------------------------------------------------------
  // PythonDependencyReader: files
  // ---------------------------------------------------------------------

  /** `file.endswith(("constraints.txt", "pins.txt"))`. */
  predicate IsConstraintsFile(path: string) {
    EndsWith(path, "constraints.txt") || EndsWith(path, "pins.txt")
  }

  /** The all-files pass reads exactly the files that are not constraint files. */
  function ReadFiles(files: seq<RequirementsFile>): (r: seq<RequirementsFile>)
    ensures forall f :: f in r <==> f in files && !IsConstraintsFile(f.path)
  {
    if files == [] then []
    else
      var rest := ReadFiles(files[1..]);
      assert forall f :: f in files <==> f == files[0] || f in files[1..];
      if IsConstraintsFile(files[0].path) then rest else [files[0]] + rest
  }

  /** The GitHub lines of the given files, in file order, repeats kept. */
  function GithubOf(files: seq<RequirementsFile>): (r: seq<string>)
    ensures forall x :: x in r ==> IsGithub(x)
  {
    if files == [] then []
    else GithubOf(files[..|files| - 1]) + GithubLines(StrippedLines(files[|files| - 1].lines))
  }

  /** The pinned lines of the given files, in file order, repeats kept. */
  function PinnedOf(files: seq<RequirementsFile>): (r: seq<string>)
    ensures forall x :: x in r ==> IsPinned(x)
  {
    if files == [] then []
    else PinnedOf(files[..|files| - 1]) + PinnedLines(StrippedLines(files[|files| - 1].lines))
  }

  /** A line is in a file's output exactly when some kept line of that file cleans to it. */
  ghost predicate FromFile(f: RequirementsFile, x: string) {
    exists line :: line in f.lines && Kept(line) && CleanLine(line) == x
  }

  lemma {:induction false} GithubOfMembers(files: seq<RequirementsFile>, x: string)
    ensures x in GithubOf(files) <==> IsGithub(x) && exists f :: f in files && FromFile(f, x)
  {
    if files != [] {
      var pre := files[..|files| - 1];
      var last := files[|files| - 1];
      GithubOfMembers(pre, x);
      assert forall f :: f in files <==> f in pre || f == last;
      assert x in GithubLines(StrippedLines(last.lines)) <==> IsGithub(x) && FromFile(last, x);
      if IsGithub(x) && exists f :: f in files && FromFile(f, x) {
        var f :| f in files && FromFile(f, x);
        if f != last {
          assert f in pre;
        }
      }
    }
  }

  lemma {:induction false} PinnedOfMembers(files: seq<RequirementsFile>, x: string)
    ensures x in PinnedOf(files) <==> IsPinned(x) && exists f :: f in files && FromFile(f, x)
  {
    if files != [] {
      var pre := files[..|files| - 1];
      var last := files[|files| - 1];
      PinnedOfMembers(pre, x);
      assert forall f :: f in files <==> f in pre || f == last;
      assert x in PinnedLines(StrippedLines(last.lines)) <==> IsPinned(x) && FromFile(last, x);
      if IsPinned(x) && exists f :: f in files && FromFile(f, x) {
        var f :| f in files && FromFile(f, x);
        if f != last {
          assert f in pre;
        }
      }
    }
  }

  /**
   * The all-files pass: `x` is a GitHub entry (a pinned entry) exactly when
   * it starts with "git+" (is pinned) and some kept line of some file whose
   * path does not end in constraints.txt or pins.txt cleans to it.
   */
  lemma AllFilesMembers(files: seq<RequirementsFile>, x: string)
    ensures x in GithubOf(ReadFiles(files)) <==>
      IsGithub(x) && exists f :: f in files && !IsConstraintsFile(f.path) && FromFile(f, x)
    ensures x in PinnedOf(ReadFiles(files)) <==>
      IsPinned(x) && exists f :: f in files && !IsConstraintsFile(f.path) && FromFile(f, x)
    ensures !(x in GithubOf(ReadFiles(files)) && x in PinnedOf(ReadFiles(files)))
  {
    GithubOfMembers(ReadFiles(files), x);
    PinnedOfMembers(ReadFiles(files), x);
  }

  const PriorityList: seq<string> := ["production.txt", "base.txt", "development.txt", "dev.txt"]

  /** `[file for file in files if file.endswith(name)]`. */
  function FilesEndingWith(files: seq<RequirementsFile>, name: string): (r: seq<RequirementsFile>)
    ensures forall f :: f in r <==> f in files && EndsWith(f.path, name)
  {
    if files == [] then []
    else
      var rest := FilesEndingWith(files[1..], name);
      assert forall f :: f in files <==> f == files[0] || f in files[1..];
      if EndsWith(files[0].path, name) then [files[0]] + rest else rest
  }

  /** The files ending with the first name of `names` that some file ends with; none if no name matches. */
  function SelectProduction(files: seq<RequirementsFile>, names: seq<string>): seq<RequirementsFile> {
    if names == [] then []
    else if FilesEndingWith(files, names[0]) != [] then FilesEndingWith(files, names[0])
    else SelectProduction(files, names[1..])
  }

  /** No file's path ends with any of the names. */
  ghost predicate NoneEndsWith(files: seq<RequirementsFile>, names: seq<string>) {
    forall n, f :: n in names && f in files ==> !EndsWith(f.path, n)
  }

  /** `r` holds the files ending with `names[j]`, and no file ends with an earlier name. */
  ghost predicate FirstEndingAt(files: seq<RequirementsFile>, names: seq<string>, r: seq<RequirementsFile>, j: int) {
    0 <= j < |names| && r == FilesEndingWith(files, names[j]) &&
    forall i, f :: 0 <= i < j && f in files ==> !EndsWith(f.path, names[i])
  }

  /** The production choice: every path ending with the first name in the priority list that some path ends with. */
  lemma {:induction false} SelectProductionIsFirstMatch(files: seq<RequirementsFile>, names: seq<string>)
    ensures var r := SelectProduction(files, names);
      && (r == [] <==> NoneEndsWith(files, names))
      && (r != [] ==> exists j :: FirstEndingAt(files, names, r, j))
  {
    if names != [] {
      if FilesEndingWith(files, names[0]) == [] {
        SelectProductionIsFirstMatch(files, names[1..]);
        SkipUnmatched(files, names);
      } else {
        var f := FilesEndingWith(files, names[0])[0];
        assert f in FilesEndingWith(files, names[0]);
        assert names[0] in names;
        assert FirstEndingAt(files, names, SelectProduction(files, names), 0);
      }
    }
  }

  /** A first name that no path ends with is skipped. */
  lemma SkipUnmatched(files: seq<RequirementsFile>, names: seq<string>)
    requires names != [] && FilesEndingWith(files, names[0]) == []
    requires var r := SelectProduction(files, names[1..]);
      && (r == [] <==> NoneEndsWith(files, names[1..]))
      && (r != [] ==> exists j :: FirstEndingAt(files, names[1..], r, j))
    ensures var r := SelectProduction(files, names);
      && (r == [] <==> NoneEndsWith(files, names))
      && (r != [] ==> exists j :: FirstEndingAt(files, names, r, j))
  {
    var r := SelectProduction(files, names);
    assert r == SelectProduction(files, names[1..]);
    assert forall n :: n in names <==> n == names[0] || n in names[1..];
    if r != [] {
      var j :| FirstEndingAt(files, names[1..], r, j);
      assert r == FilesEndingWith(files, names[j + 1]);
      forall i, f | 0 <= i < j + 1 && f in files
        ensures !EndsWith(f.path, names[i])
      {
        if i > 0 {
          assert names[i] == names[1..][i - 1];
        }
      }
      assert FirstEndingAt(files, names, r, j + 1);
    }
  }

  /** `endswith` also matches inside a longer name: requirements/database.txt is picked as base.txt. */
  lemma DatabaseCountsAsBase()
    ensures EndsWith("requirements/database.txt", "base.txt")
  {
    assert "requirements/database.txt"[17..] == "base.txt";
  }

  /**
   * Both constraint suffixes have an `s` fifth from the end (`...s.txt`), so
   * a path ending with a name that has another character there is no
   * constraints file.
   */
  lemma NotConstraintsBySuffix(p: string, name: string)
    requires EndsWith(p, name) && 5 <= |name| && name[|name| - 5] != 's'
    ensures !IsConstraintsFile(p)
  {
    assert p[|p| - 5] == name[|name| - 5] by {
      assert p[|p| - |name|..][|name| - 5] == p[|p| - 5];
    }
    if 15 <= |p| {
      assert p[|p| - 15..][10] == p[|p| - 5];
    }
    if 8 <= |p| {
      assert p[|p| - 8..][3] == p[|p| - 5];
    }
  }

  /** No production candidate is a constraints file. */
  lemma PriorityNamesAreNotConstraints(p: string, name: string)
    requires name in PriorityList && EndsWith(p, name)
    ensures !IsConstraintsFile(p)
  {
    assert "production.txt"[9] == 'n' && "base.txt"[3] == 'e';
    assert "development.txt"[10] == 't' && "dev.txt"[2] == 'v';
    NotConstraintsBySuffix(p, name);
  }

  /** The production pinned lines: those of the selected files. */
  function ProductionPinned(files: seq<RequirementsFile>): seq<string> {
    PinnedOf(SelectProduction(files, PriorityList))
  }

  /**
   * The production set is part of the all-files set, so `pypi.count <=
   * pypi_all.count`; and no GitHub line enters it.
   */
  lemma ProductionWithinAll(files: seq<RequirementsFile>)
    ensures Elems(ProductionPinned(files)) <= Elems(PinnedOf(ReadFiles(files)))
    ensures |Elems(ProductionPinned(files))| <= |Elems(PinnedOf(ReadFiles(files)))|
    ensures forall x :: x in ProductionPinned(files) ==> !IsGithub(x)
  {
    var selected := SelectProduction(files, PriorityList);
    SelectProductionIsFirstMatch(files, PriorityList);
    forall x | x in ProductionPinned(files)
      ensures x in PinnedOf(ReadFiles(files))
    {
      PinnedOfMembers(selected, x);
      var f :| f in selected && FromFile(f, x);
      var j :| FirstEndingAt(files, PriorityList, selected, j);
      PriorityNamesAreNotConstraints(f.path, PriorityList[j]);
      AllFilesMembers(files, x);
    }
    assert Elems(ProductionPinned(files)) <= Elems(PinnedOf(ReadFiles(files)));
    SubsetCard(Elems(ProductionPinned(files)), Elems(PinnedOf(ReadFiles(files))));
  }

  lemma SubsetCard(a: set<string>, b: set<string>)
    requires a <= b
    ensures |a| <= |b|
  {
    assert b == a + (b - a);
  }

  // ---------------------------------------------------------------------
  // PythonDependencyReader
  // ---------------------------------------------------------------------

  /** The Python reader's count: distinct pinned lines plus distinct GitHub lines, over all files. */
  function PythonCount(files: seq<RequirementsFile>): nat {
    |Elems(PinnedOf(ReadFiles(files)))| + |Elems(GithubOf(ReadFiles(files)))|
  }

  /**
   * The three groups the Python reader returns.  "github" counts distinct
   * lines but lists every collected line, repeats included; "pypi_all" and
   * "pypi" list their distinct lines in an unspecified order.
   */
  ghost predicate PythonGroups(files: seq<RequirementsFile>, groups: map<string, Group>) {
    var all := PinnedOf(ReadFiles(files));
    var github := GithubOf(ReadFiles(files));
    var production := ProductionPinned(files);
    && PythonKeys <= groups.Keys
    && groups["github"] == Group(|Elems(github)|, Items(github))
    && groups["pypi_all"].count == |Elems(all)|
    && groups["pypi_all"].list.Items?
    && Distinct(groups["pypi_all"].list.items) && Elems(groups["pypi_all"].list.items) == Elems(all)
    && groups["pypi"].count == |Elems(production)|
    && groups["pypi"].list.Items?
    && Distinct(groups["pypi"].list.items) && Elems(groups["pypi"].list.items) == Elems(production)
  }

  /** The dict `_read_dependencies` returns has the three Python groups. */
  lemma PythonGroupsBuilt(files: seq<RequirementsFile>, githubPackages: seq<string>, github: seq<string>,
                          pypi: seq<string>, production: seq<string>)
    requires githubPackages == GithubOf(ReadFiles(files)) && Elems(github) == Elems(githubPackages)
    requires Distinct(pypi) && Elems(pypi) == Elems(PinnedOf(ReadFiles(files)))
    requires Distinct(production) && Elems(production) == Elems(ProductionPinned(files))
    ensures var groups := map[
        "github" := Group(|Elems(github)|, Items(githubPackages)),
        "pypi_all" := Group(|Elems(pypi)|, Items(pypi)),
        "pypi" := Group(|Elems(production)|, Items(production))];
      groups.Keys == PythonKeys && PythonGroups(files, groups)
  {
  }

  class PythonDependencyReader {
    const repo: Repository
    var githubDependencies: seq<string>
    var pypiDependencies: seq<string>
    var productionPackages: seq<string>

    constructor (repo: Repository)
      ensures this.repo == repo
    {
      this.repo := repo;
      githubDependencies := [];
      pypiDependencies := [];
      productionPackages := [];
    }

    /** The production file choice: the priority names tried in order, stopping at the first that matches. */
    static method ProductionFiles(files: seq<RequirementsFile>) returns (selected: seq<RequirementsFile>)
      ensures selected == SelectProduction(files, PriorityList)
    {
      var priorityList := PriorityList;
      selected := [];
      var j := 0;
      while j < |priorityList|
        invariant 0 <= j <= |priorityList|
        invariant SelectProduction(files, priorityList) == SelectProduction(files, priorityList[j..])
        invariant selected == []
      {
        selected := FilesEndingWith(files, priorityList[j]);
        if selected != [] {
          break;
        }
        assert priorityList[j..][1..] == priorityList[j + 1..];
        j := j + 1;
      }
    }

    /** The all-files pass: GitHub lines and pinned lines extended file by file. */
    static method ScanFiles(requirementFiles: seq<RequirementsFile>) returns (githubPackages: seq<string>, pypiPackages: seq<string>)
      ensures githubPackages == GithubOf(requirementFiles)
      ensures pypiPackages == PinnedOf(requirementFiles)
    {
      githubPackages := [];
      pypiPackages := [];
      for i := 0 to |requirementFiles|
        invariant githubPackages == GithubOf(requirementFiles[..i])
        invariant pypiPackages == PinnedOf(requirementFiles[..i])
      {
        assert requirementFiles[..i + 1][..i] == requirementFiles[..i];
        var stripped := StrippedLines(requirementFiles[i].lines);
        githubPackages := githubPackages + GithubLines(stripped);
        PinnedNotInIsPinned(stripped, githubPackages);
        pypiPackages := pypiPackages + PinnedNotIn(stripped, githubPackages);
      }
      assert requirementFiles[..|requirementFiles|] == requirementFiles;
    }

    /** The production pass: the `pypi` part of `cleanup_lines` of each selected file. */
    static method ProductionLines(selected: seq<RequirementsFile>) returns (productionList: seq<string>)
      ensures productionList == PinnedOf(selected)
    {
      productionList := [];
      for i := 0 to |selected|
        invariant productionList == PinnedOf(selected[..i])
      {
        assert selected[..i + 1][..i] == selected[..i];
        var cleaned := CleanupLines(selected[i].lines);
        productionList := productionList + cleaned.pypi;
      }
      assert selected[..|selected|] == selected;
    }

    /**
     * The fields after `_read_dependencies`: the distinct GitHub lines and
     * pinned lines of all read files, and the distinct pinned lines of the
     * production selection, each in an unspecified order.
     */
    ghost predicate Loaded()
      reads this
    {
      && Distinct(githubDependencies) && Elems(githubDependencies) == Elems(GithubOf(ReadFiles(repo.requirementFiles)))
      && Distinct(pypiDependencies) && Elems(pypiDependencies) == Elems(PinnedOf(ReadFiles(repo.requirementFiles)))
      && Distinct(productionPackages) && Elems(productionPackages) == Elems(ProductionPinned(repo.requirementFiles))
    }

    /** `_read_dependencies`. */
    method ReadDependencies() returns (s: Summary)
      modifies this
      ensures s.count == PythonCount(repo.requirementFiles)
      ensures s.groups.Keys == PythonKeys && PythonGroups(repo.requirementFiles, s.groups)
      ensures Loaded()
    {
      var files := repo.requirementFiles;
      var githubPackages, pypiPackages := ScanFiles(ReadFiles(files));
      githubDependencies := ListOfSet(Elems(githubPackages));
      pypiDependencies := ListOfSet(Elems(pypiPackages));

      var selected := ProductionFiles(files);
      var productionList := ProductionLines(selected);
      productionPackages := ListOfSet(Elems(productionList));

      s := Summary(|Elems(pypiDependencies)| + |Elems(githubDependencies)|, map[
        "github" := Group(|Elems(githubDependencies)|, Items(githubPackages)),
        "pypi_all" := Group(|Elems(pypiDependencies)|, Items(pypiDependencies)),
        "pypi" := Group(|Elems(productionPackages)|, Items(productionPackages))]);
      PythonGroupsBuilt(files, githubPackages, githubDependencies, pypiDependencies, productionPackages);
    }

    /** `read`: `{}` (None) when requirements/ does not exist, and the fields untouched. */
    method Read() returns (r: Option<Summary>)
      modifies this
      ensures !repo.hasRequirements ==> r == None
      ensures !repo.hasRequirements ==>
        && githubDependencies == old(githubDependencies) && pypiDependencies == old(pypiDependencies)
        && productionPackages == old(productionPackages)
      ensures repo.hasRequirements ==>
        r.Some? && r.value.count == PythonCount(repo.requirementFiles) &&
        r.value.groups.Keys == PythonKeys && PythonGroups(repo.requirementFiles, r.value.groups)
      ensures repo.hasRequirements ==> Loaded()
    {
      if !repo.hasRequirements {
        return None;
      }
      var s := ReadDependencies();
      return Some(s);
    }
  }

  // ---------------------------------------------------------------------
  // get_dependencies
  // ---------------------------------------------------------------------

  /** The reader classes, in the order `DependencyReader.__subclasses__()` lists them. */
  datatype ReaderKind = Javascript | Python

  /** The two readers' groups do not overlap. */
  lemma GroupKeysDisjoint()
    ensures forall k :: k in PythonKeys ==> k !in JsKeys
  {
    assert "github"[0] == 'g' && "pypi_all"[0] == 'p' && "pypi"[0] == 'p';
    assert "js"[0] == 'j' && "js.dev"[0] == 'j' && "js.all"[0] == 'j';
  }

  const Readers: seq<ReaderKind> := [Javascript, Python]

  /** The count the JavaScript reader adds: 0 without package.json. */
  function JsCount(repo: Repository): nat
    requires repo.packageJson.Some? ==> JsSummary(repo.packageJson.value, repo.packageLock).Ok?
  {
    if repo.packageJson.Some? then JsSummary(repo.packageJson.value, repo.packageLock).value.count else 0
  }

  /** What a reader's `read` gives for the repository: `{}` (None) when it has nothing to read. */
  ghost predicate ReaderOutcome(repo: Repository, kind: ReaderKind, result: Option<Summary>) {
    match kind
    case Javascript =>
      && (repo.packageJson.None? ==> result == None)
      && (repo.packageJson.Some? ==>
            JsSummary(repo.packageJson.value, repo.packageLock).Ok? &&
            result == Some(JsSummary(repo.packageJson.value, repo.packageLock).value))
    case Python =>
      && (!repo.hasRequirements ==> result == None)
      && (repo.hasRequirements ==>
            result.Some? && result.value.count == PythonCount(repo.requirementFiles) &&
            result.value.groups.Keys == PythonKeys && PythonGroups(repo.requirementFiles, result.value.groups))
  }

  /** `reader_class(repo_path).read()`: builds the reader and reads; only the JavaScript reader can fail. */
  method RunReader(kind: ReaderKind, repo: Repository) returns (r: Result<Option<Summary>>)
    ensures r.Err? <==> kind == Javascript && repo.packageJson.Some? && JsSummary(repo.packageJson.value, repo.packageLock).Err?
    ensures r.Err? ==> r.error == JsSummary(repo.packageJson.value, repo.packageLock).error
    ensures r.Ok? ==> ReaderOutcome(repo, kind, r.value)
  {
    match kind {
      case Javascript =>
        var reader := new JavascriptDependencyReader(repo);
        r := reader.Read();
      case Python =>
        var reader := new PythonDependencyReader(repo);
        var read := reader.Read();
        r := Ok(read);
    }
  }

  /** The running output once the first `i` readers have been applied. */
  ghost predicate Progress(repo: Repository, i: nat, output: Summary) {
    && output.groups.Keys == DefaultOutput.groups.Keys
    && (i >= 1 && repo.packageJson.Some? ==> JsSummary(repo.packageJson.value, repo.packageLock).Ok?)
    && output.count == (if i >= 1 && repo.packageJson.Some? then JsSummary(repo.packageJson.value, repo.packageLock).value.count else 0)
         + (if i >= 2 && repo.hasRequirements then PythonCount(repo.requirementFiles) else 0)
    && (forall k :: k in JsKeys ==>
          output.groups[k] == (if i >= 1 && repo.packageJson.Some? then JsSummary(repo.packageJson.value, repo.packageLock).value.groups[k]
                               else DefaultOutput.groups[k]))
    && (i >= 2 && repo.hasRequirements ==> PythonGroups(repo.requirementFiles, output.groups))
    && (!(i >= 2 && repo.hasRequirements) ==>
          forall k :: k in PythonKeys ==> output.groups[k] == DefaultOutput.groups[k])
    && (!repo.hasRequirements && repo.packageJson.None? ==> output == DefaultOutput)
  }

  /** `dependencies_output.update(result)` with the count added; nothing for an empty result. */
  function Merge(output: Summary, result: Option<Summary>): (r: Summary)
    ensures result.None? ==> r == output
    ensures result.Some? ==> r.count == output.count + result.value.count
    ensures result.Some? ==> forall k :: k in r.groups <==> k in output.groups || k in result.value.groups
    ensures result.Some? ==> forall k :: k in result.value.groups ==> r.groups[k] == result.value.groups[k]
    ensures result.Some? ==> forall k :: k in output.groups && k !in result.value.groups ==> r.groups[k] == output.groups[k]
  {
    if result.None? then output
    else Summary(output.count + result.value.count, output.groups + result.value.groups)
  }

  /** Applying the JavaScript reader's outcome. */
  lemma AdvanceJavascript(repo: Repository, output: Summary, result: Option<Summary>)
    requires Progress(repo, 0, output) && ReaderOutcome(repo, Javascript, result)
    ensures Progress(repo, 1, Merge(output, result))
  {
    if result.Some? {
      GroupKeysDisjoint();
      var merged := Merge(output, result);
      assert result.value.groups.Keys == JsKeys;
      assert merged.groups.Keys == DefaultOutput.groups.Keys;
    }
  }

  /** Applying the Python reader's outcome. */
  lemma AdvancePython(repo: Repository, output: Summary, result: Option<Summary>)
    requires Progress(repo, 1, output) && ReaderOutcome(repo, Python, result)
    ensures Progress(repo, 2, Merge(output, result))
  {
    if result.Some? {
      GroupKeysDisjoint();
      var merged := Merge(output, result);
      assert merged.groups.Keys == DefaultOutput.groups.Keys;
      PythonGroupsKept(repo.requirementFiles, result.value.groups, merged.groups);
    }
  }

  /** PythonGroups only looks at the three Python keys. */
  lemma PythonGroupsKept(files: seq<RequirementsFile>, groups: map<string, Group>, merged: map<string, Group>)
    requires PythonGroups(files, groups)
    requires forall k :: k in PythonKeys ==> k in merged && merged[k] == groups[k]
    ensures PythonGroups(files, merged)
  {
    assert merged["github"] == groups["github"];
    assert merged["pypi_all"] == groups["pypi_all"];
    assert merged["pypi"] == groups["pypi"];
  }

  /**
   * One pass of the loop in `get_dependencies`: run reader `i`; an empty
   * result leaves count and output alone, otherwise its count is added and
   * its groups overwrite the output's.
   */
  method ApplyReader(repo: Repository, i: nat, dependenciesCount: nat, dependenciesOutput: Summary)
    returns (r: Result<(nat, Summary)>)
    requires i < |Readers| && Progress(repo, i, dependenciesOutput) && dependenciesOutput.count == dependenciesCount
    ensures r.Err? <==> i == 0 && repo.packageJson.Some? && JsSummary(repo.packageJson.value, repo.packageLock).Err?
    ensures r.Err? ==> r.error == JsSummary(repo.packageJson.value, repo.packageLock).error
    ensures r.Ok? ==> Progress(repo, i + 1, r.value.1) && r.value.1.count == r.value.0
  {
    var result := RunReader(Readers[i], repo);
    if result.Err? {
      return Err(result.error);
    }
    if i == 0 {
      AdvanceJavascript(repo, dependenciesOutput, result.value);
    } else {
      AdvancePython(repo, dependenciesOutput, result.value);
    }
    if result.value.None? {
      return Ok((dependenciesCount, dependenciesOutput));
    }
    var count := dependenciesCount + result.value.value.count;
    var output := Summary(count, dependenciesOutput.groups + result.value.value.groups);
    assert output == Merge(dependenciesOutput, result.value);
    return Ok((count, output));
  }

  /**
   * `get_dependencies`: starts from a copy of `default_output`, and for
   * each reader with a non-empty result overwrites that reader's groups
   * and adds its count to the running total.  A KeyError from the
   * JavaScript reader propagates.
   */
  method GetDependencies(repo: Repository) returns (r: Result<Summary>)
    ensures r.Err? <==> repo.packageJson.Some? && JsSummary(repo.packageJson.value, repo.packageLock).Err?
    ensures r.Ok? ==> r.value.groups.Keys == DefaultOutput.groups.Keys
    ensures r.Ok? ==> r.value.count == JsCount(repo) + (if repo.hasRequirements then PythonCount(repo.requirementFiles) else 0)
    ensures r.Ok? && repo.packageJson.Some? ==>
      forall k :: k in JsKeys ==> r.value.groups[k] == JsSummary(repo.packageJson.value, repo.packageLock).value.groups[k]
    ensures r.Ok? && repo.packageJson.None? ==>
      forall k :: k in JsKeys ==> r.value.groups[k] == DefaultOutput.groups[k]
    ensures r.Ok? && repo.hasRequirements ==> PythonGroups(repo.requirementFiles, r.value.groups)
    ensures r.Ok? && !repo.hasRequirements ==>
      forall k :: k in PythonKeys ==> r.value.groups[k] == DefaultOutput.groups[k]
    ensures !repo.hasRequirements && repo.packageJson.None? ==> r == Ok(DefaultOutput)
  {
    var dependenciesCount := 0;
    var dependenciesOutput := DefaultOutput;
    for i := 0 to |Readers|
      invariant Progress(repo, i, dependenciesOutput)
      invariant dependenciesOutput.count == dependenciesCount
    {
      var step := ApplyReader(repo, i, dependenciesCount, dependenciesOutput);
      if step.Err? {
        return Err(step.error);
      }
      dependenciesCount, dependenciesOutput := step.value.0, step.value.1;
    }
    return Ok(dependenciesOutput);
  }
}
