/**
 * What the checks see of a repository on disk, as a value: whether the
 * marker files exist, the `*.txt` files `rglob` finds below
 * requirements/ with their lines, and the two JavaScript manifests
 * already parsed from JSON.
 */
module RepoFiles {
  import opened Wrappers

  datatype RequirementsFile = RequirementsFile(path: string, lines: seq<string>)

  /** package.json: `dependencies` and `devDependencies`, each name -> version range, either may be absent. */
  datatype PackageJson = PackageJson(dependencies: Option<map<string, string>>, devDependencies: Option<map<string, string>>)

  /** One package-lock.json `dependencies` entry; its "version" key may be missing. */
  datatype LockEntry = LockEntry(version: Option<string>)

  datatype PackageLock = PackageLock(dependencies: Option<map<string, LockEntry>>)

  datatype Repository = Repository(
    hasRequirements: bool,                    // requirements/ exists
    requirementFiles: seq<RequirementsFile>,  // every *.txt below requirements/, with its lines
    packageJson: Option<PackageJson>,         // None: no package.json
    packageLock: Option<PackageLock>)         // None: no package-lock.json, or an empty one
}
