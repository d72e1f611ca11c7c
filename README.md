# wasm-gg-build: release selection, lock-file lookup and built-crate naming

`wargo` builds a WebAssembly game. To do that it reads the version of `wasm-rgame` that the
project's Cargo.lock records. It then lists the releases of the companion JavaScript package
and picks the release that matches that version. This Dafny project models the three parts
of that pipeline that hold logic rather than I/O:

- **Release selection** (`choose_version_by_key`). It is given a main version, a non-empty
  list of items and a key function that gives each item an optional version. It returns the
  item with the greatest version not above the main version, or nothing when there is none.
  - `ChooseVersion.Filtered` models the map/filter/collect pipeline.
  - `ChooseVersion.ChooseVersionByKey` models the whole function.
  - `ChooseVersion.IsBestChoice` states what the result must be.
  - `ChooseVersion.SortedHeadIsBestChoice` proves that the source's own mechanism meets that
    statement: the head of ANY descending ordering of the filtered items is a best choice.
- **Version precedence** (`semver::Version`'s ordering, used by `<=` and `cmp` in the
  selection). Module `Semver` defines it: major, minor, patch, then pre-release identifiers,
  as in section 11 of Semantic Versioning 2.0.0. The module proves it is a total order.
- **Lock-file lookup** (`find_version`). It finds the first capture that names the package
  and parses that capture's version. The regex matches are an input sequence of `Capture`s,
  and `Version::parse` is a function parameter. `CargoLock.FindVersion` is the loop.
  `CargoLock.LockedVersion` is the recursive function the loop is proved equal to.
- **Built crate name** (`built_project_name`). It replaces every '-' with '_'.
  This is `ProjectName.BuiltProjectName`.

Where the code and its documentation disagree, the model follows the code:

- The doc comment of `choose_version_by_key` says the latest version is used when nothing
  matches. The code returns `None`, and its test `choose_version_by_key_with_no_matching`
  checks that. The model returns `None`.
- The ranking uses `sort_unstable_by`, so when several eligible items share the greatest
  version, which one is returned is not fixed. A stable sort would keep the first in input
  order; `sort_unstable_by` does not promise that, so the model does not either. It promises
  only some item of greatest version. `BestChoiceVersionIsUnique` shows that every such item
  has the same version. `ChooseVersionByKey` scans once for a greatest version instead of
  sorting. It returns an item whose version equals that of the sorted head.

## Model

| member | source | states |
|---|---|---|
| `Semver.VersionOrderIsTotal` | wargo/src/build/choose_version.rs:39 | the three-way comparison of versions that the descending sort uses is a strict total order: Equal exactly on equal versions, reversing the arguments reverses the answer, Less is transitive |
| `Semver.LeIsTotalOrder` | wargo/src/build/choose_version.rs:26 | the `<=` used to filter against the main version is total, antisymmetric and transitive |
| `Semver.LtIsStrictLe` | wargo/src/build/choose_version.rs:39 | a version is strictly below another exactly when it is not at or above it |
| `Semver.IdentifierOrderIsTotal` | wargo/src/build/choose_version.rs:39 | pre-release identifiers are totally ordered: numeric below alphanumeric, numbers by value, text lexicographically |
| `Semver.PreOrderIsTotal` | wargo/src/build/choose_version.rs:39 | pre-release lists are totally ordered, with the empty list (a release) above every non-empty one |
| `Semver.LexCompareEqual` | wargo/src/build/choose_version.rs:39 | lexicographic comparison over a total order answers Equal exactly on equal sequences |
| `Semver.LexCompareReverse` | wargo/src/build/choose_version.rs:39 | lexicographic comparison with its arguments swapped gives the reversed answer |
| `Semver.LexCompareTransitive` | wargo/src/build/choose_version.rs:39 | lexicographic Less is transitive |
| `Semver.PrecedenceExample` | wargo/src/build/choose_version.rs:26 | the precedence chain 1.0.0-alpha < 1.0.0-alpha.1 < … < 1.0.0-rc.1 < 1.0.0 holds |
| `ChooseVersion.Filtered` | wargo/src/build/choose_version.rs:19-32 | every kept pair is an input item with its key `Some(v)` and `v <= main`, so an item whose key is absent or above main is never kept; every eligible input item is kept; no more pairs than items |
| `ChooseVersion.HeadOfDescendingIsMaximum` | wargo/src/build/choose_version.rs:38-39 | in a sequence ordered from greatest version to least, every element's version is at most the head's |
| `ChooseVersion.SortedHeadIsBestChoice` | wargo/src/build/choose_version.rs:34-41 | for any permutation of the filtered items sorted descending: if empty, no input item is eligible; otherwise its head is an input item, eligible, and at least as great as every eligible item |
| `ChooseVersion.BestChoiceVersionIsUnique` | wargo/src/build/choose_version.rs:39-41 | any two results meeting the contract agree on whether an item is returned and on its version |
| `ChooseVersion.ChooseVersionByKey` | wargo/src/build/choose_version.rs:11-42 | requires a non-empty item list; returns None exactly when no item has a key `Some(v)` with `v <= main`; otherwise returns an item of the input whose key is `Some(v)`, `v <= main`, and `v` is at least the version of every eligible item |
| `ChooseVersion.ChoosesLatest` | wargo/src/build/choose_version.rs:48-55 | main 0.3.1 with 0.2.0 and 0.3.0 gives 0.3.0 |
| `ChooseVersion.PicksMatchingIfPossible` | wargo/src/build/choose_version.rs:57-64 | main 0.3.1 with 0.2.0, 0.3.0, 0.3.1 and 0.5.2 gives the exact match 0.3.1 |
| `ChooseVersion.NoMatching` | wargo/src/build/choose_version.rs:66-73 | main 0.1.1 with 0.2.0, 0.3.0, 0.3.1 and 0.5.2 gives None |
| `ChooseVersion.SkipsUnparsable` | wargo/src/build/choose_version.rs:24-29 | an item whose key is absent is dropped, and the parsable one is chosen |
| `CargoLock.FindVersion` | cargo-lock/src/lib.rs:13-29 | the loop's answer equals `LockedVersion`: the parsed version of the first capture naming the package, or None |
| `CargoLock.FirstMatchDecides` | cargo-lock/src/lib.rs:14-25 | if capture i names the package and no earlier one does, the result is the parse of capture i's version text, whatever follows |
| `CargoLock.NoMatchIsNone` | cargo-lock/src/lib.rs:28 | when no capture names the package, the result is None |
| `CargoLock.OtherPackagesAreSkipped` | cargo-lock/src/lib.rs:16-18 | captures of other packages placed in front do not change the result |
| `CargoLock.UnparsableFirstMatchHidesLater` | cargo-lock/src/lib.rs:20-25 | when the first matching capture does not parse, the result is None even if a later capture of the same package parses |
| `CargoLock.DistinctPackagesFindOwnVersions` | cargo-lock/src/lib.rs:39-42 | when package names are distinct, looking up each package gives the parse of its own version text |
| `CargoLock.ParseCargoLockExample` | cargo-lock/src/lib.rs:35-43 | with aho-corasick 0.6.4, ansi_term 0.11.0, arrayvec 0.4.7 and atty 0.2.10 at the head of the lock text, each lookup gives that version |
| `ProjectName.BuiltProjectName` | wargo/src/main.rs:119-121 | the result has the input's length; each '-' becomes '_' and every other character is kept at its position |
| `ProjectName.BuiltProjectNameHasNoHyphen` | wargo/src/main.rs:120 | the result contains no '-' |
| `ProjectName.BuiltProjectNameIsIdempotent` | wargo/src/main.rs:120 | applying the replacement twice equals applying it once |
| `ProjectName.BuiltProjectNameKeepsUnhyphenated` | wargo/src/main.rs:120 | a name without '-' is returned unchanged |

## Left out

- ChooseVersion.ChooseVersionByKey: the in-place `sort_unstable_by` and `remove(0)` are replaced by a single scan for a greatest version. `SortedHeadIsBestChoice` covers the sort-then-head mechanism for every descending order the sort may produce.
- Which of several items with the same greatest version is returned: the source leaves this to an unstable sort, so the model does not fix it.
- The empty item list: the source panics on it through `assert!`. The model makes it a precondition.
- Build metadata (`+…`) of versions: `semver` ignores it when comparing, so with it the order would not be antisymmetric. It is not modelled.
- Version components are unbounded naturals, not `u64`. Nothing in the modelled code does arithmetic on them.
- `Version::parse` and the Cargo.lock regular expression: these are library calls. Parsing is a function parameter. The regex matches are an input sequence of captures.
- Strings are compared character by character. Rust compares `String`s by UTF-8 bytes, and that gives the same order.
- The callers, which are not modelled: `build_project` and its `wrg-build` twin, `initialize_entrypoint`, `execute_command`, `project_name`, `wasm_rgame_version`, the command-line parsing, and the `$PROJECT_NAME` text substitution. They are GitHub API calls, HTTP downloads, archive extraction, file copying and process execution.
- The tag-stripping key closure in `build_project` (`split("v").nth(1).unwrap()`): it is caller glue that panics on tags without a 'v'. The model takes any key function.
- cargo-toml/src/lib.rs is not part of this model. It is a deserialisation wrapper with no logic.
