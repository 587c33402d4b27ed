# edx-repo-health: dependency inventories and the dashboard's aggregation, in Dafny

This project models the parts of `edx-repo-health` that do real work on data:

- **Dependency readers and their aggregation** (`repo_health/check_dependencies.py`).
  - The JavaScript reader counts `package.json` dependencies and dev dependencies, and maps every package in `package-lock.json` to its locked version.
  - The Python reader cleans the lines of every `requirements/**/*.txt` file and sorts them into GitHub lines (`git+...`) and pinned PyPI lines (containing `==`). It skips `constraints.txt` and `pins.txt`. It picks production files by the priority list `production.txt`, `base.txt`, `development.txt`, `dev.txt`.
  - `get_dependencies` starts from `default_output` and merges each reader's non-empty result into it, adding up the counts.
- **The Django dependency report** (`repo_health/utils.py`).
  - `DjangoDependencyReader` turns requirement lines into a name → version map. It uses `strip_requirement` and two regular expressions, one for a GitHub `#egg=` link and one for a `name==version` pin.
  - `get_upgraded_dependencies_count` builds three sets from a Django compatibility sheet: the Django packages the repository uses, those that support Django 3.2, and those already upgraded.
  - `set_django_packages` stores the three sets as a summary in the results.
  - `github_org_repo` splits a remote URL into org and repo.
- **The dashboard's aggregation layer** (`repo_health_dashboard/utils/utils.py`).
  - `squash_dict` flattens nested results.
  - `get_superset_of_keys` and `standardize_metadata_by_repo` give every repository the same keys, with `None` for the ones it lacks.
  - `squash_and_standardize_metadata_by_repo` does both, rewriting its argument in place.
  - `write_squashed_metadata_to_csv` lays out the columns, header and rows of the CSV report.
- **Packaging helpers** (`setup.py`): `is_requirement`, `load_requirements` and `get_version`.

A repository on disk is an input value (`RepoFiles.Repository`). It records whether `requirements/` exists, the `*.txt` files below it in `rglob` order with their lines, and the two JavaScript manifests already parsed. Python exceptions the code can raise on well-formed input become `Err` values:

- the `KeyError` for a lockfile entry without `"version"`;
- the `KeyError` for a CSV column a repository lacks;
- the failed `assert` in `github_org_repo`;
- the `RuntimeError` of `get_version`.

`list(set(xs))` has no defined order in Python. `Seqs.ListOfSet` therefore only promises a list without repeats holding exactly the set. The regular expressions are written out by hand as the leftmost, backtracking match Python's `re` returns. Greedy groups pick the last usable split, and an unescaped `.` matches any character except a line break. `github_org_repo` is modelled twice: as written, and with the '.' of `.git` escaped (see Findings).

The readers and `metadata_by_repo` are classes, because the source updates their fields in place. The string and dict transformations are functions. The loops the source writes are methods with loop invariants, proved against those functions.

## Model

| member | source | states |
|---|---|---|
| Setup.IsRequirementChars | setup.py:40-46 | A stripped line counts as a requirement exactly when it is non-empty, does not start with '#', does not start with "-r", "-e" or "-c", and does not start with "git+". |
| Setup.DoubleDashPasses | setup.py:46 | Other options, such as a `--index-url ...` line, pass the test and are collected as requirements. |
| Setup.RequirementEntryWellFormed | setup.py:33-35 | The entry a kept line contributes, `line.split("#")[0].strip()`, is non-empty and contains no '#'. |
| Setup.AllRequirementsWellFormed | setup.py:30-37 | Every entry collected from any file is non-empty and free of '#'. |
| Setup.LoadRequirements | setup.py:24-37 | The result has no repeats. Its elements are exactly the union of the entries of the kept lines of all files, and each is non-empty and free of '#'. |
| Setup.FirstVersion | setup.py:18 | `re.search` with `re.M` finds the leftmost line start where `__version__ = '...'` matches; no earlier position matches. |
| Setup.GetVersion | setup.py:12-21 | Fails with RuntimeError("Unable to find version string.") exactly when no line of the file matches the pattern. Otherwise the version is a quote-free string. |
| Setup.VersionRoundTrip | setup.py:18-20 | A file whose first line is `__version__ = '<v>'` gives back `v`, for any quote-free `v`. |
| Setup.VersionOnLaterLine | setup.py:18 | A double-quoted version on the second line is found, after a first line that lacks the header. |
| Seqs.ListOfSet | repo_health/check_dependencies.py:155-156 | `list(set(xs))` is a list with no element twice, holding exactly the elements of the set, with the set's size as its length. |
| CheckDependencies.LockedVersions | repo_health/check_dependencies.py:93-97 | With a lockfile: KeyError("version") exactly when some locked entry lacks "version", otherwise a map from every locked name to its version. Without a lockfile or its `dependencies`, the map is empty. |
| CheckDependencies.JsCounts | repo_health/check_dependencies.py:99-113 | The JavaScript result counts `dependencies` under "js" and `devDependencies` under "js.dev", with their sum as the total. "js.all" lists every locked name with its version and counts those names, not as part of the total. |
| CheckDependencies.JavascriptDependencyReader.ReadLockfile | repo_health/check_dependencies.py:96-97 | The lockfile loop fills `js_dependencies_all` with each name's version. It reports failure exactly when an entry lacks "version". |
| CheckDependencies.JavascriptDependencyReader.ReadDependencies | repo_health/check_dependencies.py:81-113 | Returns the JavaScript summary, or the KeyError. The fields end as the manifest's two maps and their two counts. `js_dependencies_all` holds the locked versions on success; after a KeyError it holds only locked names under their own versions. |
| CheckDependencies.JavascriptDependencyReader.Read | repo_health/check_dependencies.py:115-118 | Without package.json: an empty result (None), and no field changes. Otherwise: the reader's summary, with the fields as `_read_dependencies` leaves them. |
| CheckDependencies.StrippedLines | repo_health/check_dependencies.py:150-151 | A cleaned line appears exactly when some non-empty line not starting with '#' cleans to it. Nothing is added. |
| CheckDependencies.GithubLines | repo_health/check_dependencies.py:204 | Holds exactly the cleaned lines that start with "git+". |
| CheckDependencies.PinnedLines | repo_health/check_dependencies.py:208 | Holds exactly the cleaned lines that do not start with "git+" and contain "==". |
| CheckDependencies.PinnedNotInIsPinned | repo_health/check_dependencies.py:152-153 | The source's "not in github_packages" test, against the GitHub lines collected so far, is the same as "does not start with git+". |
| CheckDependencies.CleanupLines | repo_health/check_dependencies.py:194-209 | `cleanup_lines` returns the GitHub lines and the pinned lines of the cleaned lines. |
| CheckDependencies.EditableGithub | repo_health/check_dependencies.py:200 | An editable `-e git+...` line, once cleaned, is a GitHub entry. |
| CheckDependencies.GithubLineKept | tests/test_check_dependencies.py:44-47 | A space-free GitHub line that ends in `#egg=name==version` is kept whole. It is counted as GitHub and never as pinned, although it contains "==". |
| CheckDependencies.IncludeLineDropped | repo_health/check_dependencies.py:150-153 | An include line `-r <file>` survives cleaning unchanged and lands in neither group, so it is silently not counted. |
| CheckDependencies.ReadFiles | repo_health/check_dependencies.py:145-146 | The all-files pass reads exactly the files whose paths do not end in constraints.txt or pins.txt. |
| CheckDependencies.AllFilesMembers | repo_health/check_dependencies.py:143-153 | A line is a GitHub entry (a pinned entry) exactly when it starts with "git+" (is pinned) and some kept line of a non-constraints file cleans to it. No line is both. |
| CheckDependencies.FilesEndingWith | repo_health/check_dependencies.py:164 | Holds exactly the files whose path ends with the name. |
| CheckDependencies.SelectProductionIsFirstMatch | repo_health/check_dependencies.py:162-166 | The selection is empty exactly when no path ends with any priority name. Otherwise it is every file ending with the first priority name that some path ends with. |
| CheckDependencies.DatabaseCountsAsBase | repo_health/check_dependencies.py:164 | `endswith` also matches inside a longer name: requirements/database.txt is selected as base.txt. |
| CheckDependencies.PriorityNamesAreNotConstraints | repo_health/check_dependencies.py:143-164 | No file chosen by the production priority list is a constraints or pins file. |
| CheckDependencies.ProductionWithinAll | repo_health/check_dependencies.py:171-176 | The production pinned set is a subset of the all-files pinned set, so `pypi.count <= pypi_all.count`, and it holds no GitHub line. |
| CheckDependencies.PythonGroupsBuilt | repo_health/check_dependencies.py:178-192 | The returned groups count the distinct lines. "github" lists every collected line, repeats included. "pypi_all" and "pypi" list their distinct lines. |
| CheckDependencies.PythonDependencyReader.ProductionFiles | repo_health/check_dependencies.py:162-166 | The loop over the priority list, stopping at the first name with matching files, yields the selection. |
| CheckDependencies.PythonDependencyReader.ScanFiles | repo_health/check_dependencies.py:148-153 | The per-file loop extends the GitHub and pinned lists with each file's lines, in file order. |
| CheckDependencies.PythonDependencyReader.ProductionLines | repo_health/check_dependencies.py:171-174 | The production loop collects the pinned lines of each selected file. |
| CheckDependencies.PythonDependencyReader.ReadDependencies | repo_health/check_dependencies.py:135-192 | The count is the number of distinct pinned lines plus distinct GitHub lines. The result has exactly the three Python groups, and the deduplicated fields hold exactly those sets. |
| CheckDependencies.PythonDependencyReader.Read | repo_health/check_dependencies.py:211-214 | Without requirements/: an empty result (None), and no field changes. Otherwise: the reader's summary, with the three deduplicated fields holding exactly their sets. |
| CheckDependencies.GroupKeysDisjoint | repo_health/check_dependencies.py:20-46 | The Python readers' groups and the JavaScript readers' groups have no key in common. |
| CheckDependencies.RunReader | repo_health/check_dependencies.py:225-227 | Running a reader fails exactly when it is the JavaScript reader and that reader raises. Otherwise it gives that reader's outcome. |
| CheckDependencies.Merge | repo_health/check_dependencies.py:228-233 | An empty result changes nothing. Otherwise the result's groups overwrite the output's, the other groups stay, and the count grows by the result's count. |
| CheckDependencies.ApplyReader | repo_health/check_dependencies.py:226-233 | One loop pass keeps the running output's invariant: the groups of each reader run so far, and the sum of their counts. |
| CheckDependencies.GetDependencies | repo_health/check_dependencies.py:217-235 | KeyError exactly when the JavaScript reader raises. Otherwise the output has exactly the default keys, its count is the JavaScript count plus the Python count, and each reader's groups are its result when it applies and the zero default when it does not. A repository with neither manifest gives `default_output`. |
| DashboardUtils.SquashOnto | repo_health_dashboard/utils/utils.py:13-22 | Squashing into a dict with distinct keys and no dict values keeps both properties. |
| DashboardUtils.Squash | repo_health_dashboard/utils/utils.py:6-22 | `squash_dict` returns a one-level dict: distinct keys and no dict values. |
| DashboardUtils.SquashLookup | repo_health_dashboard/utils/utils.py:14-21 | Under each key the squashed dict holds the value last written there by the leaves, each under its parent keys joined by the delimiter. |
| DashboardUtils.SquashFlatIdentity | repo_health_dashboard/utils/utils.py:20-21 | A dict with no dict values is returned unchanged, with its order, whatever the delimiter. |
| DashboardUtils.SquashIdempotent | repo_health_dashboard/utils/utils.py:6-22 | Squashing a squashed dict again changes nothing. |
| DashboardUtils.SquashOntoConcat | repo_health_dashboard/utils/utils.py:14 | The squash is a left-to-right fold over the entries, so it splits over a concatenation. |
| DashboardUtils.EmptyDictVanishes | repo_health_dashboard/utils/utils.py:15-19 | A nested empty dict contributes nothing: its key disappears from the output. |
| DashboardUtils.SquashSingleLeaf | repo_health_dashboard/utils/utils.py:20-21 | A non-dict value, lists included, is kept under its own key. |
| DashboardUtils.SquashSingleDict | repo_health_dashboard/utils/utils.py:15-19 | A nested dict's squashed entries are written under `key + delimiter + key2`. |
| DashboardUtils.DelimiterOnlyAtTop | repo_health_dashboard/utils/utils.py:16-18 | The recursive call passes no delimiter, so only the top level is joined with the given delimiter and deeper levels with ".". |
| DashboardUtils.CollisionLastWriteWins | repo_health_dashboard/utils/utils.py:18-19 | A literal "a.b" key and a nested a → b collide. The later write wins, in the earlier key's position. |
| DashboardUtils.SupersetOfKeys | repo_health_dashboard/utils/utils.py:25-32 | A key is in the superset exactly when some repository's results have it. |
| DashboardUtils.GetSupersetOfKeys | repo_health_dashboard/utils/utils.py:25-32 | The loop accumulating key sets yields exactly the superset. |
| DashboardUtils.SupersetMember | repo_health_dashboard/utils/utils.py:30-31 | The superset built one repository at a time holds exactly the keys some repository has. |
| DashboardUtils.Fill | repo_health_dashboard/utils/utils.py:49-50 | A copy of the defaults updated with a repository's results has the superset's keys plus its own. Each value is its own where it has one and None elsewhere. |
| DashboardUtils.FillIdempotent | repo_health_dashboard/utils/utils.py:46-51 | Filling an already filled dict against the same keys changes nothing. |
| DashboardUtils.Standardize | repo_health_dashboard/utils/utils.py:35-52 | Every repository keeps its name and position and gets exactly the superset of keys. It keeps its own values and has None for the missing keys. |
| DashboardUtils.StandardizeMetadataByRepo | repo_health_dashboard/utils/utils.py:45-52 | The loop over the repositories produces the standardized set. |
| DashboardUtils.StandardizeKeepsKeys | repo_health_dashboard/utils/utils.py:45-52 | Standardizing does not change the superset of keys. |
| DashboardUtils.StandardizeIdempotent | repo_health_dashboard/utils/utils.py:35-52 | Standardizing an already standardized set returns it unchanged. |
| DashboardUtils.StandardizeSameSize | repo_health_dashboard/utils/utils.py:45-51 | Every standardized repository has as many keys as the superset, so all have the same number. |
| DashboardUtils.MetadataByRepo.SquashEntries | repo_health_dashboard/utils/utils.py:58-59 | Each repository's entry in `metadata_by_repo` is overwritten in place by its squashed form. Names and order are kept. |
| DashboardUtils.MetadataByRepo.SquashAndStandardize | repo_health_dashboard/utils/utils.py:54-60 | The caller's dict is left squashed, and the result is the standardization of the squashed repositories. |
| DashboardUtils.Minimum | repo_health_dashboard/utils/utils.py:69 | The chosen key belongs to the set and is below every other key in Python's string order. |
| DashboardUtils.SortedKeys | repo_health_dashboard/utils/utils.py:69 | `sorted(keys)` holds exactly the keys, in strictly ascending string order. |
| DashboardUtils.OrderedColumns | repo_health_dashboard/utils/utils.py:66-69 | The columns are `check_order`, followed by the superset keys not in it, in ascending order. |
| DashboardUtils.Header | repo_health_dashboard/utils/utils.py:71-81 | The header is "repo_name" followed by each column's alias, or the column itself when it has none. |
| DashboardUtils.Cells | repo_health_dashboard/utils/utils.py:84 | A row's cells exist exactly when the repository has every column. Otherwise KeyError names the first missing column. |
| DashboardUtils.WriteRows | repo_health_dashboard/utils/utils.py:83-84 | The rows are written in repository order. Writing stops at the first repository lacking a column, with its KeyError; the earlier rows were already written. |
| DashboardUtils.WriteSquashedMetadataToCsv | repo_health_dashboard/utils/utils.py:62-84 | States the column order, the header, and the rows up to the first KeyError, as above. |
| DashboardUtils.StandardizedRowsComplete | repo_health_dashboard/utils/utils.py:63-64 | On a standardized set whose columns are all known keys, no row raises: every repository has every column. |
| RepoHealthUtils.StripRequirement | repo_health/utils.py:60-68 | None exactly for an empty line or one starting with '#' or '-'. |
| RepoHealthUtils.StripRequirementCut | repo_health/utils.py:65-66 | A kept line is cut just before its leftmost run of spaces followed by ';' or '#', and then every "-e " is deleted. |
| RepoHealthUtils.SemicolonCut | repo_health/utils.py:66 | A requirement with an environment marker after " ;" loses the marker. |
| RepoHealthUtils.SemicolonKeptByDependencyCheck | repo_health/check_dependencies.py:150 | The dependency check cuts only at " #", so the same line keeps " ;" and its marker there. |
| RepoHealthUtils.LastPin | repo_health/utils.py:21 | The greedy name group of PYPI_PACKAGE_PATTERN splits at the last "==" that leaves a non-empty version. No later position works. |
| RepoHealthUtils.ExtractFromPypiPackage | repo_health/utils.py:82-93 | Name and version are both empty exactly when the pattern fails to match, and match has no split. Otherwise the whitespace-free line starts with `name==version`, neither part has '/', the version runs to the first '/', and it holds no later usable "==". |
| RepoHealthUtils.PypiRoundTrip | repo_health/utils.py:87-91 | `name==version` gives back (name, version), for slash-free, whitespace-free parts whose version holds no '='. |
| RepoHealthUtils.PypiSpacedRoundTrip | repo_health/utils.py:87-91 | `name == version` gives back the same pair, because whitespace is removed first. |
| RepoHealthUtils.ExtractSeesCompactForm | repo_health/utils.py:87 | Two requirements that agree once whitespace is removed are parsed alike. |
| RepoHealthUtils.PypiWithoutEquals | repo_health/utils.py:88-93 | A requirement without '=' gives ("", ""). |
| RepoHealthUtils.LastEgg | repo_health/utils.py:20 | The greedy repo group and `.*` use the last `#egg=` reachable without crossing a '/' in the repo or a line break. |
| RepoHealthUtils.FirstEggMatch | repo_health/utils.py:75 | `re.search` uses the leftmost start position where GITHUB_URL_PATTERN matches. |
| RepoHealthUtils.ExtractFromGithubLink | repo_health/utils.py:70-80 | The version is always empty. The package is empty exactly when the pattern matches nowhere. Otherwise it is a non-empty, slash-free run that follows an `#egg=` in the link. |
| RepoHealthUtils.GithubLinkRoundTrip | repo_health/utils.py:70-80 | `git+https://github.com/<org>/<repo>#egg=<package>` gives (package, ""), for slash-free parts, a package without '#' and a repo without a line break. |
| RepoHealthUtils.LastGitSuffix | repo_health/utils.py:214 | The greedy repo group of URL_PATTERN ends at the last `.git` within its run. The '.' there matches any character but a line break as written, or only '.' when escaped. |
| RepoHealthUtils.OrgRepoSearch | repo_health/utils.py:214-220 | For either reading of the '.' of `.git`, AssertionError exactly when URL_PATTERN matches nowhere. Otherwise the result is a non-empty, slash-free org and repo. |
| RepoHealthUtils.SearchMatch | repo_health/utils.py:216-220 | The groups `re.search` returns are the text between `github.com/` and a '/', and the text from there up to a `.git`. |
| RepoHealthUtils.GithubOrgRepoHttps | repo_health/utils.py:216-220 | `https://github.com/<org>/<repo>.git` gives back (org, repo), for non-empty slash-free parts. This holds both as written and with the '.' escaped. |
| RepoHealthUtils.EscapedDotEndsAtGit | repo_health/utils.py:214-220 | With the '.' escaped, whenever `github_org_repo` succeeds, the URL contains `<org>/<repo>.git` for the org and repo it returns. |
| RepoHealthUtils.UnescapedDotTruncatesRepo | repo_health/utils.py:214-220 | As written, `https://github.com/edx/legit` gives ("edx", "l"), and the URL contains no `edx/l.git`. |
| RepoHealthUtils.EscapedDotRejects | repo_health/utils.py:214-220 | With the '.' escaped, the same URL matches nowhere and the `assert` fails. |
| RepoHealthUtils.ParseLine | repo_health/utils.py:48-56 | A line contributes nothing exactly when it strips to None or to "". A stripped line containing "git+http" goes to the GitHub extractor; any other goes to the PyPI extractor. |
| RepoHealthUtils.DjangoFiles | repo_health/utils.py:41-43 | The Django reader reads exactly the files whose path does not contain "constraints". |
| RepoHealthUtils.DjangoDependencyReader.constructor | repo_health/utils.py:29-31 | A new reader has an empty dependency map. |
| RepoHealthUtils.DjangoDependencyReader.ReadLines | repo_health/utils.py:48-58 | Each line of a file that parses overwrites its package's entry, in line order. |
| RepoHealthUtils.DjangoDependencyReader.ReadDependencies | repo_health/utils.py:36-58 | The map ends as the lines of every read file applied in order, on top of what it held. |
| RepoHealthUtils.DjangoDependencyReader.Read | repo_health/utils.py:95-103 | Returns `{}` and reads nothing without requirements/. Otherwise it returns the map built from the read files. |
| RepoHealthUtils.ApplyKeys | repo_health/utils.py:58 | A package is in the map afterwards exactly when it was there before or some parsed line names it. |
| RepoHealthUtils.ApplyLastWins | repo_health/utils.py:58 | A package maps to the version of the last line that names it. |
| RepoHealthUtils.ApplySkipped | repo_health/utils.py:50-51 | Lines that are all skipped leave the map unchanged. |
| RepoHealthUtils.AddLinesKeys | repo_health/utils.py:48-58 | After a file's lines, a package is present exactly when it was before or some line of the file parses to it. |
| RepoHealthUtils.UnpinnedLineParsesEmpty | repo_health/utils.py:48-58 | A bare package name, with no pin and no `#egg=`, is recorded under the key "" with version "". |
| RepoHealthUtils.ConstraintsFileSkipped | repo_health/utils.py:41-43 | A file ending in constraints.txt is never read by the Django reader. |
| RepoHealthUtils.ConstraintsPrefixReadOnlyByDependencyCheck | repo_health/utils.py:43 | The two readers filter differently: requirements/constraints-dev.txt is read by the dependency check but skipped by the Django reader. |
| RepoHealthUtils.SheetStep | repo_health/utils.py:122-131 | Each sheet row adds its package to the Django set when the repository has it, to the 3.2 set when the sheet also names a 3.2 version, and to the upgraded set when the repository's version is also at least that version. |
| RepoHealthUtils.SheetSubsets | repo_health/utils.py:124-131 | Upgraded packages ⊆ packages supporting 3.2 ⊆ Django packages ⊆ the repository's dependencies. |
| RepoHealthUtils.ScanSheet | repo_health/utils.py:122-131 | The loop's three lists hold exactly the three sets. |
| RepoHealthUtils.GetUpgradedDependenciesCount | repo_health/utils.py:106-137 | Returns the three sets for the repository's dependencies as lists without repeats, nested as upgraded ⊆ 3.2 ⊆ Django ⊆ dependencies. |
| RepoHealthUtils.CountedListFacts | repo_health/utils.py:288-299 | Each summary group's count is the length of its list, and the list names exactly the group's packages. |
| RepoHealthUtils.SetDjangoPackages | repo_health/utils.py:283-302 | `all_results[module_dict_key]` becomes the total / django_32 / upgraded summary, with counts matching lists and lists naming exactly the three sets. Every other key is untouched. |

## Left out

- File system access is not modelled. `os.path.exists`, `Path.rglob`, `open`, `get_file_lines` and `get_file_content` are replaced by the `RepoFiles.Repository` value. `repo_health/__init__.py`, which defines the two file accessors, is not part of this model.
- JSON parsing of package.json and package-lock.json is not modelled. The manifests arrive parsed, so a malformed manifest is out of scope. Only the missing `"version"` KeyError is modelled.
- `json.dumps` is not modelled. Every "list" field keeps the list (or the name → version table) it would serialize.
- `packaging.version.parse` comparison is not modelled. `RepoHealthUtils.GetUpgradedDependenciesCount` takes the "at least this version" order as a parameter `atLeast`.
- `csv.DictReader` is not modelled. The sheet arrives as rows of its two relevant columns.
- `csv.writer` and the output file are not modelled. `DashboardUtils.WriteSquashedMetadataToCsv` returns the header and the rows of values instead; quoting and the rendering of None are left out.
- `logger.error` for a repository without production files is not modelled. The selection is simply empty.
- Reader discovery through `DependencyReader.__subclasses__()` is not modelled. The readers run in a fixed order, JavaScript then Python.
- `RepoHealthUtils.SetDjangoPackages`: returns the updated results rather than mutating the caller's dict, so aliasing is not captured.
- `DashboardUtils.Standardize`: each standardized repository is a map, so the key order inside it is not captured. In Python that order is the iteration order of a set, which is unspecified.
- `Seqs.ListOfSet`: gives no order for `list(set(...))`, because Python gives none.
- `DashboardUtils.Standardize`: repositories are values, so whether two standardized repositories share one dict (the source copies `defaults` for each) is not captured.
- `DashboardUtils.MetadataByRepo.SquashAndStandardize` and `DashboardUtils.MetadataByRepo.SquashEntries` require every repository's value to be a dict. The AttributeError that `squash_dict` raises on a non-dict value is not modelled.
- `RepoHealthUtils.DjangoDependencyReader`: its dependencies are a `map`, so the insertion order of the dict that `read()` returns is not captured. Membership and values are.
- The scenario of two repositories with keys {a, b} and {a, c} is not a separate lemma. It follows from the ensures of `DashboardUtils.Standardize`.
- The health-check wrappers decorated with `health_metadata` are not modelled; they only call the functions above.
- The network functions in repo_health/utils.py are not modelled: `parse_build_duration_response`, `get_branch_or_pr_count` and `set_branch_and_pr_count`.
- The setup.py/setup.cfg regex helpers are not modelled: `set_pypi_name`, `set_repo_url` and `set_project_urls`. Neither are check_setup_py.py, check_readme.py or check_dependabot.py.
- The `setup()` call in setup.py is not modelled; it is packaging glue.
- The "testing" group read by one test of the dependency check is not modelled, because no reader in check_dependencies.py produces it.

## Findings

| source | as written | input that shows it | evidently intended | confidence | as-written member | corrected member |
|---|---|---|---|---|---|---|
| repo_health/utils.py:214 | URL_PATTERN ends in `.git` with an unescaped '.', so the repo group may end before any character that precedes "git". | `https://github.com/edx/legit` gives ("edx", "l"): the 'e' of "legit" is taken for the '.'. | `\.git`: the repo group ends only at a literal ".git", the returned parts always appear as `<org>/<repo>.git` in the URL, and this URL fails the `assert`. The '.' of `github.com` stays as written in both forms. | high; not executed | RepoHealthUtils.UnescapedDotTruncatesRepo | RepoHealthUtils.EscapedDotEndsAtGit (and RepoHealthUtils.EscapedDotRejects for this URL) |

## Where the code and the design description differ

The model follows the code in each case below.

- **JavaScript total.** The total adds the sizes of `dependencies` and `devDependencies`; it does not count their union.
- **"github" list.** The list is every collected GitHub line, repeats included, though its count is the number of distinct lines.
- **Production file selection.** Files are selected with `endswith`, not by exact file name, so `database.txt` counts as `base.txt`.
- **Lockfile versus manifest counts.** No relation between `js.all.count` and `js.count` is guaranteed, so none is stated.
- **Report columns.** A `check_order` entry is used as given, even when it is repeated or absent from the data. An absent entry makes the row raise KeyError.
- **Key collisions while flattening.** A collision between a joined key and a literal key is resolved by last write wins, in the earlier key's position.
