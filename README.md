# filebuilder, modelled in Dafny

A model of the core of the Go package `filebuilder`, a test-fixture library that
lays out declarative trees of files, directories and zip archives on an afero
filesystem and compares two directory trees. Three parts are modelled:

- **`Diff`** (`diff.dfy`, module `PathDiff`): an object holding two sets of
  paths, `left` and `right`, a memoised complement (the paths of each side
  the other lacks, under the keys `"left"` and `"right"`) and a `changed`
  flag that marks the memo stale. It is a class whose `Valid()` invariant
  says the memo is the exact complement whenever `changed` is false.
  `EqualTo` is a module-level method because Go allows a nil receiver.
- **`CompareDirectories`** (`compare.dfy`, module `Compare`): two walks feed
  one `Diff`, first the right root and then the left one. Every visited
  path loses the first occurrence of the root being walked
  (`strings.Replace(path, current, "", 1)`, modelled as `RemoveFirst`), and
  a `switch` that tests `left` first then picks the side. A walk is an
  input: the sequence of calls the traversal makes to the visitor, each
  with a path and possibly an error.
- **The tree builder** (`filebuilder.dfy`, module `FileBuilder`, over the
  backend of `filesystem.dfy`, module `FileSystem`):
  - The backend is a map from paths to `Dir | FileNode(bytes)`. Paths are
    sequences of clean segments (no empty name, no `.` or `..`, no
    separator), and `[]` is `/`.
  - Its `Fs` object carries a flag saying whether it is the host OS
    filesystem.
  - Each `Create` is a module-level method that takes that object and
    modifies it. It is proved equal to a function of the backend's
    contents (`FileOutcome`, `ZipOutcome`, `EntryOutcome`,
    `EntriesOutcome`). What the builder promises is proved about those
    functions.
  - `Build` applies the root default, refuses the host backend when the
    root reads `/`, skips nil
    entries, creates entries in order up to the first error, and returns a
    cleanup that removes the root subtree.

`wrappers.dfy` holds the `Option` type.

## Model

| member | source | states |
|---|---|---|
| PathDiff.Diff.constructor | diff.go:13-18 | The zero `Diff{}`: both sides empty, no memo, not changed, invariant holds |
| PathDiff.Diff.Literal | diff_test.go:6-19 | A `Diff` literal with the given sides and no memo satisfies the invariant |
| PathDiff.Diff.AppendLeft | diff.go:20-32 | `""` changes nothing. Otherwise exactly one leading `/` is stripped, the result is added to `left` and `changed` is set. `right` and the memo are untouched, and insertion is idempotent because `left` is a set |
| PathDiff.Diff.AppendRight | diff.go:34-46 | Mirror of AppendLeft on `right` |
| PathDiff.Diff.Diff | diff.go:50-71 | The result lists exactly `left - right` under `"left"` and `right - left` under `"right"`, with no duplicates and no other keys, so each list is as long as its set difference. It is stored as the memo, `changed` is cleared, the sides are unchanged, and a current memo is returned as is |
| PathDiff.Diff.IsEmpty | diff.go:74-79 | True exactly when `left == right` as sets |
| PathDiff.OneSided | diff.go:59-68 | The loop's output lists exactly `mine - theirs`, each element once, in any iteration order |
| PathDiff.EmptyListing | diff.go:76-78 | A complement listing has length 0 exactly when the set it lists is empty |
| PathDiff.ListingSize | diff.go:59-68 | A duplicate-free listing has as many entries as the set it lists |
| PathDiff.SameElements | diff.go:91-111 | The `equal` closure is true exactly when the two slices hold the same elements, ignoring order and repetition |
| PathDiff.SameSides | diff.go:112-117 | The loop over the memo's sides is true exactly when both sides list the same elements in the two memos |
| PathDiff.EqualTo | diff.go:82-118 | nil equals nil. A non-nil diff never equals nil. A nil receiver with a non-nil argument is excluded by a precondition, because Go dereferences nil there. Otherwise the result is true exactly when the two left complements are equal and the two right complements are equal, and neither diff's sides change |
| PathDiff.SameComplementsFromListings | diff.go:89-117 | Comparing the memos' listings side by side is the same as comparing the complements as sets |
| PathDiff.KeyDropsOneSlash | diff.go:24-26 | `"/" + q` is stored as `q`, whatever `q` is, including a `q` that starts with `/` |
| PathDiff.SlashEquivalence | diff.go:21-30 | `"/foo"` and `"foo"` are the same element. `"//foo"` is stored as `"/foo"`, not `"foo"`. `"/"` passes the emptiness check and is stored as `""` |
| PathDiff.SameComplementsIsEquivalence | diff_test.go:20-24 | The equality EqualTo decides is reflexive, symmetric and transitive |
| PathDiff.EmptyComplementIff | diff.go:74-79 | Both complements are empty exactly when the two sides are equal |
| PathDiff.EqualToScenario | diff_test.go:5-25 | Two diffs built from the test's literal are equal in both directions |
| Compare.IndexFrom | compare.go:22 | Returns the first position at or after `from` where `sub` occurs, or none when there is no such position |
| Compare.Index | compare.go:22 | Returns the first occurrence of `sub` in `s`, or none when `sub` does not occur |
| Compare.RemoveFirstOfPrefixed | compare.go:22 | A path that starts with the root loses exactly that prefix |
| Compare.RootIsNotRecorded | compare.go:22 | The root itself becomes `""`, which appending ignores |
| Compare.RemoveFirstIsNotAnchored | compare.go:22 | The removal is not anchored: `"a/left/b"` walked under `"left"` becomes `"a//b"` |
| Compare.SideOf | compare.go:23-28 | Definition of the switch (its ensures restates it); the consequences are in SameRootFillsLeftOnly and CompareIsSymmetric. Left exactly when `current == left`. Right exactly when `current` equals `right` but not `left` |
| Compare.ErrorIndex | compare.go:19-21 | The position of the first visit that carries an error, with every earlier visit error-free |
| Compare.NoErrors | compare.go:19-21 | A walk none of whose visits carries an error completes without error |
| Compare.VisitPath | compare.go:18-30 | The visitor returns an incoming error unchanged and records nothing. Otherwise it appends the path, with the current root removed, to the side the switch picks, or to neither |
| Compare.Walk | compare.go:31-32 | Visits in order, stops at the first error and returns it, and adds the stripped paths of every visit before that error to the side `current` selects |
| Compare.CompareDirectories | compare.go:13-45 | If the right walk fails, the result is `(nil, false, err)`. If only the left walk fails, it is `(nil, false, err)` with the left walk's error. Otherwise it is `(nil, true, nil)` exactly when the recorded left and right sets are equal, and `(diffs, false, nil)` with those sets, which differ, when they are not. A returned diff is freshly allocated, so the caller may go on to call Diff, IsEmpty or EqualTo on it |
| Compare.ShouldNotEqualEndToEnd | compare_test.go:79-103 | For the "should not equal" trees, CompareDirectories reports a difference, and the diff it returns is EqualTo the expected literal |
| Compare.RecordedMembership | compare.go:22-28 | A path is recorded exactly when some visit, with the root removed, contributes it |
| Compare.RecordedIgnoresOrder | compare.go:18-30 | The recorded set depends only on which paths were visited, not on their order or on repetition |
| Compare.CompareIsSymmetric | compare.go:41-44 | Swapping the roots and their walks does not change `ok`. With distinct roots it swaps the two recorded sets |
| Compare.SameRootFillsLeftOnly | compare.go:23-28 | When `left == right`, nothing is recorded on the right, and `ok` holds exactly when both walks recorded nothing |
| Compare.RecordUnderRoot | compare.go:22-27 | An error-free visit of `root + rest` adds the stored form of `rest` |
| Compare.WalkUnder | compare_test.go:66-79 | Scaffolding that builds test inputs (its ensures is the closed form of its body, not a property of the program): the walk of a root visits `root + rels[i]` for each i in order, without errors |
| Compare.RecordedWalkUnder | compare.go:22-28 | Walking any root over relative paths `rels` records exactly the stored forms of `rels` |
| Compare.MirroredTreesCompareEqual | compare_test.go:18-31 | Two distinct roots whose walks visit the same relative paths compare equal, and neither walk fails ("should equal") |
| Compare.ShouldNotEqualScenario | compare_test.go:32-56 | For the "should not equal" trees: left records `{foo, foo/foo.exe, foo/foobar.exe}` and right records `{foo, foo/bar.exe, foo/baz.exe}`. They are not equal, and the complement is the expected diff, with `foo` cancelling out |
| Compare.ScenarioComplement | compare_test.go:43-54 | In the scenario's sets, `foo` cancels and each side's files form its complement |
| Compare.RightScenarioWalk | compare_test.go:38-41 | The right walk of the scenario records `foo`, `foo/bar.exe` and `foo/baz.exe` |
| Compare.LeftScenarioWalk | compare_test.go:34-37 | The left walk of the scenario records `foo`, `foo/foo.exe` and `foo/foobar.exe` |
| Compare.WalkOfFour | compare.go:22-25 | A walk of a root over the root and three paths below it records the stored forms of the three relative paths |
| FileSystem.MkdirAllIn | filebuilder.go:96-99 | MkdirAll on success only adds directories along the path and the path is a directory. On failure a file stands at a prefix of the path |
| FileSystem.WriteFileIn | filebuilder.go:68-71 | Reference definition of file creation (its ensures restates it); the consequences are in FileCreated and WriteFileKeepsTree. Creating a file succeeds exactly when the path is not a directory and its parent is one. The file is then set to the content and nothing else changes |
| FileSystem.RemoveAllIn | filebuilder.go:29-31 | Reference definition of RemoveAll (its ensures restates it); the consequences are in RemoveAllKeepsTree and BuildThenCleanLeavesNoTrace. Removes exactly the path and everything beneath it, and keeps everything else unchanged |
| FileSystem.AncestorsAreDirs | filebuilder.go:65-67 | Every ancestor of an existing entry is a directory |
| FileSystem.MkdirAllKeepsTree | filebuilder.go:96-99 | MkdirAll keeps every entry inside an existing directory |
| FileSystem.MkdirAllMakesAncestors | filebuilder.go:65-67 | After a successful MkdirAll, the path and all its ancestors are directories |
| FileSystem.MkdirAllFailsIff | filebuilder.go:65-67 | MkdirAll fails exactly when a file stands on the way to the path |
| FileSystem.WriteFileKeepsTree | filebuilder.go:145-146 | Writing a file keeps every entry inside an existing directory |
| FileSystem.RemoveAllKeepsTree | filebuilder.go:29-31 | Removing a subtree keeps every remaining entry inside an existing directory |
| FileSystem.Fs.MemMap | filebuilder_test.go:22 | `afero.NewMemMapFs()`: a fresh in-memory backend is empty and is not the OS filesystem |
| FileSystem.Fs.Host | filebuilder_test.go:86 | `afero.NewOsFs()`: the host backend is the OS filesystem and holds whatever the host already holds |
| FileSystem.Fs.MkdirAll | filebuilder.go:97-99 | Updates the contents as MkdirAllIn says, or reports its error and changes nothing |
| FileSystem.Fs.Create | filebuilder.go:68-71 | Creates an empty file as WriteFileIn says, or reports its error and changes nothing |
| FileSystem.Fs.Write | filebuilder.go:76-78 | Replaces an existing file's content with the given bytes |
| FileSystem.Fs.WriteFile | filebuilder.go:145-146 | Writes the file as WriteFileIn says, or reports its error and changes nothing |
| FileSystem.Fs.RemoveAll | filebuilder.go:29-31 | The contents become RemoveAllIn of the old contents |
| FileBuilder.CreateFile | filebuilder.go:60-80 | Makes the parent directory (a failure is wrapped as "creating parent"), creates the file, and writes the content only when it is non-empty. The final state and error are FileOutcome's |
| FileBuilder.CreateWithContent | filebuilder.go:68-78 | Creating (truncating) the file and then copying the content only when it is non-empty leaves the backend exactly as one write of the content would, and fails, changing nothing, exactly when that write would |
| FileBuilder.CreateZip | filebuilder.go:130-147 | Encodes the archive (a failure changes nothing), then writes it as one file at base + path. The final state and error are ZipOutcome's |
| FileBuilder.CreateEntry | filebuilder.go:47-51 | Dispatches on the entry kind. The final state and error are EntryOutcome's |
| FileBuilder.CreateDirectory | filebuilder.go:92-106 | Makes base + path, then creates each child in order with that path as base, stopping at the first error |
| FileBuilder.CreateEntries | filebuilder.go:113-120 | Creates each element against the same base in order, stopping at the first error |
| FileBuilder.Build | filebuilder.go:19-41 | An unspecified root becomes `/`. On the OS backend, a root that is unspecified or spelled exactly `/` gets no cleanup and an error, and the backend is unchanged; the guard compares the spelling, as the source does. Otherwise it returns the cleanup for the effective root, and the state and error are those of creating the non-nil entries in order against the root |
| FileBuilder.HostRootGuardBypass | filebuilder.go:23-31 | On the host backend, a root such as `"//"` that names `/` without being spelled `/` passes the guard. Build then succeeds with a cleanup for `/`, and running that cleanup leaves the host empty |
| FileBuilder.BuildGuarded | filebuilder.go:26-28 | Build with the intended guard: on the host backend every root naming `/` is refused with nothing changed, so a cleanup handed back for the host never targets `/`. Otherwise it behaves as Build |
| FileBuilder.HostRootRefusedScenario | filebuilder_test.go:84-97 | On the host backend with no root, Build is refused with no cleanup, whatever the host holds and whatever the entries are, and the host's contents are unchanged |
| FileBuilder.Clean | filebuilder.go:29-31 | The cleanup removes the root and everything beneath it |
| FileBuilder.NilEntriesSkipped | filebuilder.go:32-35 | A nil entry anywhere in Build's arguments makes no difference |
| FileBuilder.FileCreated | filebuilder.go:64-78 | On a well-formed backend, File.Create succeeds exactly when the path is not a directory and no ancestor is a file. On success the file exists, holds exactly the content (empty for empty content), and every ancestor is a directory. Failing to make the parent changes nothing |
| FileBuilder.ZipCreated | filebuilder.go:130-146 | On success the backend gains exactly one file, the archive at base + path, and no archived path appears. On failure nothing changes. The archive error occurs exactly when encoding fails |
| FileBuilder.EntryExtends | filebuilder.go:47-51 | Creating an entry, whether or not it succeeds, removes nothing and never turns a file into a directory or back |
| FileBuilder.EntriesExtend | filebuilder.go:113-120 | The same for a list of entries |
| FileBuilder.KeptByExtension | filebuilder.go:100-104 | What later children create does not undo the files and directories earlier ones made |
| FileBuilder.EntryMaterialised | filebuilder.go:96-104 | After a successful create, every declared file and directory exists with its kind. A child of a directory sits at base + directory path + child path |
| FileBuilder.EntriesMaterialised | filebuilder.go:113-120 | After a successful Entries.Create, every file and directory declared by any element exists |
| FileBuilder.EntriesStopAtFirstError | filebuilder.go:113-120 | A failing list has a first failing entry k. The entries before k all succeeded, and k ran on the state they left; its outcome, including the earlier effects, is the list's |
| FileBuilder.MkdirAllStaysWithin | filebuilder.go:96-99 | MkdirAll of a path that runs through the base changes nothing outside the base, except for directories on the way to it |
| FileBuilder.StaysWithinChain | filebuilder.go:100-104 | Changes made within a subdirectory's base are changes within the outer base |
| FileBuilder.EntryStaysWithin | filebuilder.go:47-51 | Creating an entry changes the backend only at or below its base, or by directories on the way to it |
| FileBuilder.EntriesStayWithin | filebuilder.go:113-120 | The same for a list of entries |
| FileBuilder.BuildThenCleanLeavesNoTrace | filebuilder.go:29-39 | After Build and its cleanup, whether or not an entry failed: nothing at or below the root remains, everything outside it is as before, and the only additions are directories on the way to the root |

## Left out

- `Diff.String` (diff.go:120-136) is diagnostic formatting over a Go map iteration, whose order is unspecified.
- Zip encoding (filebuilder.go:131-144) is a parameter of type `Archiver`: a function from the files to archive bytes, or a failure. The `archive/zip` format is not modelled.
- The afero traversal is an input to `CompareDirectories`. Its visiting order, the `os.FileInfo` argument and the origin of its errors (for instance a root that does not exist) are not modelled. Two walks of the same root are two independent inputs.
- File handles, `Close`, `io.Copy` and the `0755` permission bits are not modelled. Content is written in one step.
- Backend I/O faults are not modelled. The backend fails only on structural conflicts: a file where a directory is needed, a directory where a file is written, or a missing parent directory.
- `afero.MemMapFs` creating missing parent directories implicitly on file creation is not modelled. `WriteFileIn` follows POSIX semantics, so `Zip.Create` into a missing directory fails.
- `RemoveAll` errors are not modelled. `Clean` returns no error.
- The kind of backend is a single `isOs` flag. `OsFs` and `MemMapFs` otherwise behave alike.
- A nil `fs` defaulting to `afero.NewOsFs()` (filebuilder.go:20-22, 61-63, 93-95) is not modelled: the backend is always given.
- `filepath.Join`, `filepath.Dir` and `filepath.Clean` are not modelled lexically. Builder paths are sequences of clean segments (the `Segment` type: not empty, not `.` or `..`, no `/`), joining is concatenation, and a root is `Unspecified`, the literal `Slash`, or `At` the segment path any other root string names. Entry paths such as `"../x"`, which `filepath.Join` would resolve outside the base, cannot be expressed. Different spellings of the same directory other than `"/"` (say `"/a//b"` and `"/a/b"`) are not told apart.
- Build: relative roots are not modelled. Every root names an absolute segment path, so on the OS backend a root `"root"`, which resolves against the working directory, stands for `/root`.
- EntryStaysWithin, EntriesStayWithin and BuildThenCleanLeavesNoTrace hold for clean-segment paths only. In Go, an entry path with `..` can create files outside the root, and the cleanup then leaves them behind.
- Error message text is not modelled, only the kind of error. File.Create's wrapped parent-directory error becomes `CreatingParent`. Zip's wrapped archiving errors become `ArchiveFailed`. Backend errors that Go returns unwrapped (filebuilder.go:70, 98, 146) become `Backend`. The host-root refusal becomes `HostRootRefused`.
- Nil entries nested inside `Directory.Entries` or `Entries` panic in Go. The `Entry` datatype excludes them, and only `Build`'s top-level arguments may be nil.
- The package has no concurrency.

## Findings

| source | as written | input that shows it | evidently intended | confidence | as-written member | corrected member |
|---|---|---|---|---|---|---|
| filebuilder.go:26-31 | The host-root guard compares the root string with `"/"` literally | An `afero.OsFs` backend with root `"//"` (or `"/."`): the guard passes, the entries are created under the host root, and the cleanup `RemoveAll("//")` removes the host root | Refuse every root that names the host root, however it is spelled | medium; not executed | FileBuilder.HostRootGuardBypass | FileBuilder.BuildGuarded |
