/**
 * The tree builder of filebuilder.go: declarative entries (files,
 * directories, zip archives and plain lists of entries) created in order
 * against a base path on a backend, and Build, which guards the host root
 * and hands back a cleanup that removes the whole root.
 *
 * Each Create is a module-level method that takes the backend object and
 * modifies it, proved equal to a function of the backend's contents
 * (FileOutcome, EntryOutcome, ...); what the builder promises is proved
 * about those functions.
 */
module FileBuilder {

  import opened Wrappers
  import opened FileSystem

  /** A file to create: its path below the base, and its content. */
  datatype File = File(path: Path, content: seq<byte>)

  /** The Entry interface, closed over its four implementations. */
  datatype Entry =
    | FileEntry(file: File)
    | Directory(path: Path, entries: seq<Entry>)
    | Entries(list: seq<Entry>)
    | Zip(path: Path, files: seq<File>)

  datatype Error =
    | HostRootRefused          // Build on the host backend at "/"
    | CreatingParent(cause: FsError)  // File.Create could not make its parent directory
    | Backend(cause: FsError)  // any other backend failure, passed on as is
    | ArchiveFailed            // the archive could not be encoded

  /** The zip encoder: the archive bytes for the given files, or a failure. */
  type Archiver = seq<File> -> Option<seq<byte>>

  /** The error an operation returns, and the backend's contents afterwards. */
  datatype Outcome = Outcome(err: Option<Error>, nodes: Nodes)

  /** File.Create: makes the parent directory, then the file with its content. */
  function FileOutcome(n: Nodes, f: File, base: Path): Outcome
  {
    var p := base + f.path;
    match MkdirAllIn(n, Parent(p))
    case FsErr(e) => Outcome(Some(CreatingParent(e)), n)
    case FsOk(m) =>
      match WriteFileIn(m, p, f.content)
      case FsErr(e) => Outcome(Some(Backend(e)), m)
      case FsOk(m') => Outcome(None, m')
  }

  /** Zip.Create: encodes the archive in memory, then writes it as one file. */
  function ZipOutcome(n: Nodes, path: Path, files: seq<File>, base: Path, zip: Archiver): Outcome
  {
    match zip(files)
    case None => Outcome(Some(ArchiveFailed), n)
    case Some(bytes) =>
      match WriteFileIn(n, base + path, bytes)
      case FsErr(e) => Outcome(Some(Backend(e)), n)
      case FsOk(m) => Outcome(None, m)
  }

  /** Entry.Create, dispatched on the kind of entry. */
  function EntryOutcome(n: Nodes, e: Entry, base: Path, zip: Archiver): Outcome
    decreases e, 1
  {
    match e
    case FileEntry(f) => FileOutcome(n, f, base)
    case Directory(path, entries) =>
      (match MkdirAllIn(n, base + path)
       case FsErr(err) => Outcome(Some(Backend(err)), n)
       case FsOk(m) => EntriesOutcome(m, entries, base + path, zip))
    case Entries(list) => EntriesOutcome(n, list, base, zip)
    case Zip(path, files) => ZipOutcome(n, path, files, base, zip)
  }

  /** Entries.Create: each entry against the same base, stopping at the first error. */
  function EntriesOutcome(n: Nodes, es: seq<Entry>, base: Path, zip: Archiver): Outcome
    decreases es, 0
  {
    if es == [] then Outcome(None, n)
    else
      var r := EntryOutcome(n, es[0], base, zip);
      if r.err.Some? then r else EntriesOutcome(r.nodes, es[1..], base, zip)
  }

  /** File.Create. */
  method CreateFile(fs: Fs, f: File, base: Path) returns (err: Option<Error>)
    requires fs.Valid()
    modifies fs
    ensures fs.Valid()
    ensures Outcome(err, fs.nodes) == FileOutcome(old(fs.nodes), f, base)
  {
    var path := base + f.path;
    var e := fs.MkdirAll(Parent(path));
    if e.Some? {
      return Some(CreatingParent(e.value));
    }
    e := CreateWithContent(fs, path, f.content);
    if e.Some? {
      return Some(Backend(e.value));
    }
    return None;
  }

  /**
   * The second half of File.Create: create (truncate) the file, then copy
   * the content into it unless the content is empty. Together the steps
   * write the file as one WriteFile of the content would.
   */
  method CreateWithContent(fs: Fs, path: Path, content: seq<byte>) returns (err: Option<FsError>)
    requires fs.Valid()
    modifies fs
    ensures fs.Valid()
    ensures WriteFileIn(old(fs.nodes), path, content).FsOk? ==>
      err.None? && fs.nodes == WriteFileIn(old(fs.nodes), path, content).nodes
    ensures WriteFileIn(old(fs.nodes), path, content).FsErr? ==>
      err == Some(WriteFileIn(old(fs.nodes), path, content).err) && fs.nodes == old(fs.nodes)
  {
    ghost var before := fs.nodes;
    err := fs.Create(path);
    if err.Some? {
      assert WriteFileIn(before, path, content).err == WriteFileIn(before, path, []).err;
      return;
    }
    if |content| == 0 {
      assert content == [];
      return;
    }
    fs.Write(path, content);
    assert fs.nodes == before[path := FileNode(content)];
  }

  /** Zip.Create. */
  method CreateZip(fs: Fs, path: Path, files: seq<File>, base: Path, zip: Archiver) returns (err: Option<Error>)
    requires fs.Valid()
    modifies fs
    ensures fs.Valid()
    ensures Outcome(err, fs.nodes) == ZipOutcome(old(fs.nodes), path, files, base, zip)
  {
    var archive := zip(files);
    if archive.None? {
      return Some(ArchiveFailed);
    }
    var e := fs.WriteFile(base + path, archive.value);
    if e.Some? {
      return Some(Backend(e.value));
    }
    return None;
  }

  /** Entry.Create: the interface call. */
  method CreateEntry(fs: Fs, e: Entry, base: Path, zip: Archiver) returns (err: Option<Error>)
    requires fs.Valid()
    modifies fs
    ensures fs.Valid()
    ensures Outcome(err, fs.nodes) == EntryOutcome(old(fs.nodes), e, base, zip)
    decreases e, 2
  {
    match e
    case FileEntry(f) =>
      err := CreateFile(fs, f, base);
    case Directory(_, _) =>
      err := CreateDirectory(fs, e, base, zip);
    case Entries(list) =>
      err := CreateEntries(fs, e, base, zip);
    case Zip(path, files) =>
      err := CreateZip(fs, path, files, base, zip);
  }

  /** Directory.Create: makes the directory, then each child with it as the base. */
  method CreateDirectory(fs: Fs, d: Entry, base: Path, zip: Archiver) returns (err: Option<Error>)
    requires d.Directory?
    requires fs.Valid()
    modifies fs
    ensures fs.Valid()
    ensures Outcome(err, fs.nodes) == EntryOutcome(old(fs.nodes), d, base, zip)
    decreases d, 1
  {
    var path := base + d.path;
    var e := fs.MkdirAll(path);
    if e.Some? {
      return Some(Backend(e.value));
    }
    ghost var made := fs.nodes;
    for i := 0 to |d.entries|
      invariant fs.Valid()
      invariant EntriesOutcome(made, d.entries, path, zip) == EntriesOutcome(fs.nodes, d.entries[i..], path, zip)
    {
      assert d.entries[i..][1..] == d.entries[i + 1..];
      err := CreateEntry(fs, d.entries[i], path, zip);
      if err.Some? {
        return;
      }
    }
    return None;
  }

  /** Entries.Create: each entry in order against the same base. */
  method CreateEntries(fs: Fs, es: Entry, base: Path, zip: Archiver) returns (err: Option<Error>)
    requires es.Entries?
    requires fs.Valid()
    modifies fs
    ensures fs.Valid()
    ensures Outcome(err, fs.nodes) == EntryOutcome(old(fs.nodes), es, base, zip)
    decreases es, 1
  {
    for i := 0 to |es.list|
      invariant fs.Valid()
      invariant EntriesOutcome(old(fs.nodes), es.list, base, zip) == EntriesOutcome(fs.nodes, es.list[i..], base, zip)
    {
      assert es.list[i..][1..] == es.list[i + 1..];
      err := CreateEntry(fs, es.list[i], base, zip);
      if err.Some? {
        return;
      }
    }
    return None;
  }

  /**
   * Build's root argument as a string: "" (unspecified), exactly "/", or any
   * other string, which names the directory `path` once cleaned. At([])
   * is a root such as "//" or "/." that names "/" without being spelled "/".
   */
  datatype Root = Unspecified | Slash | At(path: Path)

  /** The directory the root names; an unspecified root stands for "/". */
  function EffectiveRoot(root: Root): Path
  {
    if root.At? then root.path else []
  }

  /** Build's guard as written: the host backend with a root that reads "/" once defaulted. */
  predicate HostRootGuard(isOs: bool, root: Root)
  {
    isOs && (root.Unspecified? || root.Slash?)
  }

  /** The entries Build creates: its arguments without the nil ones, in order. */
  function Present(es: seq<Option<Entry>>): seq<Entry>
  {
    if es == [] then []
    else (if es[0].Some? then [es[0].value] else []) + Present(es[1..])
  }

  /** CleanFunc: removes the root Build was given from the backend it was given. */
  datatype CleanFunc = CleanFunc(fs: Fs, root: Path)

  /**
   * Build: refuses the host backend when the root reads "/", otherwise creates the non-nil
   * entries in order against the root, stopping at the first error, and
   * returns the cleanup whether or not an entry failed.
   */
  method Build(fs: Fs, root: Root, entries: seq<Option<Entry>>, zip: Archiver)
    returns (cleanup: Option<CleanFunc>, err: Option<Error>)
    requires fs.Valid()
    modifies fs
    ensures fs.Valid()
    ensures HostRootGuard(fs.isOs, root) ==>
      cleanup == None && err == Some(HostRootRefused) && fs.nodes == old(fs.nodes)
    ensures !HostRootGuard(fs.isOs, root) ==>
      && cleanup == Some(CleanFunc(fs, EffectiveRoot(root)))
      && Outcome(err, fs.nodes) == EntriesOutcome(old(fs.nodes), Present(entries), EffectiveRoot(root), zip)
  {
    var base: Path := if root.At? then root.path else [];
    if fs.isOs && !root.At? {
      return None, Some(HostRootRefused);
    }
    cleanup := Some(CleanFunc(fs, base));
    for i := 0 to |entries|
      invariant fs.Valid()
      invariant EntriesOutcome(old(fs.nodes), Present(entries), base, zip)
             == EntriesOutcome(fs.nodes, Present(entries[i..]), base, zip)
    {
      assert entries[i..][1..] == entries[i + 1..];
      assert Present(entries[i..]) ==
        (if entries[i].Some? then [entries[i].value] else []) + Present(entries[i + 1..]);
      if entries[i].Some? {
        var rest := Present(entries[i + 1..]);
        assert ([entries[i].value] + rest)[0] == entries[i].value;
        assert ([entries[i].value] + rest)[1..] == rest;
        ghost var before := fs.nodes;
        assert EntriesOutcome(before, [entries[i].value] + rest, base, zip) ==
          var r := EntryOutcome(before, entries[i].value, base, zip);
          if r.err.Some? then r else EntriesOutcome(r.nodes, rest, base, zip);
        err := CreateEntry(fs, entries[i].value, base, zip);
        if err.Some? {
          return;
        }
      } else {
        assert Present(entries[i..]) == Present(entries[i + 1..]);
      }
    }
    err := None;
  }

  /**
   * The "unspecified root and filesystem" case: Build on the host backend
   * with no root is refused, returns no cleanup and touches nothing,
   * whatever the host holds and whatever the entries are.
   */
  method HostRootRefusedScenario(contents: Nodes, entries: seq<Option<Entry>>, zip: Archiver)
    returns (cleanup: Option<CleanFunc>, err: Option<Error>, after: Nodes)
    requires Tree(contents)
    ensures cleanup.None? && err == Some(HostRootRefused) && after == contents
  {
    var fs := new Fs.Host(contents);
    cleanup, err := Build(fs, Unspecified, entries, zip);
    after := fs.nodes;
  }

  /**
   * The guard compares the root string, not the directory it names: on the
   * host backend a root such as "//" is let through, and the cleanup Build
   * returns for it removes everything the host holds.
   */
  method HostRootGuardBypass(contents: Nodes, zip: Archiver)
    returns (cleanup: Option<CleanFunc>, err: Option<Error>, after: Nodes)
    requires Tree(contents)
    ensures err.None? && cleanup.Some? && cleanup.value.root == []
    ensures after == map[]
  {
    var fs := new Fs.Host(contents);
    cleanup, err := Build(fs, At([]), [], zip);
    assert Present([]) == [];
    Clean(cleanup.value);
    after := fs.nodes;
    assert forall q :: q !in after by {
      forall q ensures q !in after {
        assert [] <= q;
      }
    }
  }

  /**
   * Build with the guard the host-root check is meant to be: every root that
   * names "/" is refused on the host backend, so the cleanup handed back for
   * the host never removes the host's root.
   */
  method BuildGuarded(fs: Fs, root: Root, entries: seq<Option<Entry>>, zip: Archiver)
    returns (cleanup: Option<CleanFunc>, err: Option<Error>)
    requires fs.Valid()
    modifies fs
    ensures fs.Valid()
    ensures fs.isOs && EffectiveRoot(root) == [] ==>
      cleanup == None && err == Some(HostRootRefused) && fs.nodes == old(fs.nodes)
    ensures !(fs.isOs && EffectiveRoot(root) == []) ==>
      && cleanup == Some(CleanFunc(fs, EffectiveRoot(root)))
      && Outcome(err, fs.nodes) == EntriesOutcome(old(fs.nodes), Present(entries), EffectiveRoot(root), zip)
    ensures fs.isOs && cleanup.Some? ==> cleanup.value.root != []
  {
    if fs.isOs && EffectiveRoot(root) == [] {
      return None, Some(HostRootRefused);
    }
    cleanup, err := Build(fs, root, entries, zip);
  }

  /** Running the cleanup: RemoveAll of the root. */
  method Clean(c: CleanFunc)
    requires c.fs.Valid()
    modifies c.fs
    ensures c.fs.Valid()
    ensures c.fs.nodes == RemoveAllIn(old(c.fs.nodes), c.root)
  {
    c.fs.RemoveAll(c.root);
  }

  /** A nil entry anywhere in Build's arguments is skipped. */
  lemma {:induction false} NilEntriesSkipped(a: seq<Option<Entry>>, b: seq<Option<Entry>>)
    ensures Present(a + [None] + b) == Present(a + b)
  {
    if a == [] {
      assert [None] + b == a + [None] + b && b == a + b;
      assert ([None] + b)[1..] == b;
    } else {
      NilEntriesSkipped(a[1..], b);
      assert (a + [None] + b)[1..] == a[1..] + [None] + b;
      assert (a + b)[1..] == a[1..] + b;
    }
  }

  /**
   * File.Create on a tree: it fails exactly when the path is "/" or a
   * directory, or a file stands where one of its ancestors should be; when
   * it succeeds the file holds the content and every ancestor is a
   * directory. A failure to make the parent leaves the backend unchanged.
   */
  lemma FileCreated(n: Nodes, f: File, base: Path)
    requires Tree(n)
    ensures var p, r := base + f.path, FileOutcome(n, f, base);
      && (r.err.None? <==> !IsDir(n, p) && forall i :: 0 < i < |p| ==> !IsFile(n, p[..i]))
      && (r.err.None? ==> IsFile(r.nodes, p) && r.nodes[p].content == f.content)
      && (r.err.None? ==> forall i :: 0 <= i < |p| ==> IsDir(r.nodes, p[..i]))
      && (r.err.Some? && r.err.value.CreatingParent? ==> r.nodes == n)
  {
    var p := base + f.path;
    var q := Parent(p);
    MkdirAllFailsIff(n, q);
    MkdirAllMakesAncestors(n, q);
    if p != [] {
      assert forall i :: 0 <= i <= |q| ==> q[..i] == p[..i];
    }
    match MkdirAllIn(n, q)
    case FsErr(e) => {
      if p != [] {
        var i :| 0 < i <= |q| && IsFile(n, q[..i]);
        assert IsFile(n, p[..i]);
      }
    }
    case FsOk(m) => {
      assert IsDir(m, p) <==> IsDir(n, p) by {
        if p != [] {
          assert !(p <= q) by { assert |q| < |p|; }
        }
      }
      if p != [] && !IsDir(n, p) {
        forall i | 0 < i < |p| ensures !IsFile(n, p[..i]) {
          assert p[..i] == q[..i];
        }
      }
    }
  }

  /**
   * Zip.Create: on success the backend gains exactly one file, the archive
   * at base + path, and none of the archived paths; on failure nothing
   * changes.
   */
  lemma ZipCreated(n: Nodes, path: Path, files: seq<File>, base: Path, zip: Archiver)
    ensures var r := ZipOutcome(n, path, files, base, zip);
      && (r.err.None? ==> zip(files).Some? && r.nodes == n[base + path := FileNode(zip(files).value)])
      && (r.err.None? ==> r.nodes.Keys == n.Keys + {base + path})
      && (r.err.None? ==> forall f :: f in files && base + f.path !in n && f.path != path ==> base + f.path !in r.nodes)
      && (r.err.Some? ==> r.nodes == n)
      && (r.err == Some(ArchiveFailed) <==> zip(files).None?)
  {
    var r := ZipOutcome(n, path, files, base, zip);
    if r.err.None? {
      forall f | f in files && base + f.path !in n && f.path != path ensures base + f.path !in r.nodes {
        assert (base + f.path)[|base|..] == f.path && (base + path)[|base|..] == path;
      }
    }
  }

  /** Nothing is removed, and nothing changes between directory and file. */
  ghost predicate Extends(n: Nodes, n': Nodes)
  {
    forall q :: q in n ==> q in n' && (n'[q].Dir? <==> n[q].Dir?)
  }

  /** Creating an entry, successful or not, only extends the backend. */
  lemma {:induction false} EntryExtends(n: Nodes, e: Entry, base: Path, zip: Archiver)
    ensures Extends(n, EntryOutcome(n, e, base, zip).nodes)
    decreases e, 1
  {
    match e
    case FileEntry(f) => {}
    case Directory(path, entries) => {
      if MkdirAllIn(n, base + path).FsOk? {
        EntriesExtend(MkdirAllIn(n, base + path).nodes, entries, base + path, zip);
      }
    }
    case Entries(list) => EntriesExtend(n, list, base, zip);
    case Zip(path, files) => {}
  }

  lemma {:induction false} EntriesExtend(n: Nodes, es: seq<Entry>, base: Path, zip: Archiver)
    ensures Extends(n, EntriesOutcome(n, es, base, zip).nodes)
    decreases es, 0
  {
    if es != [] {
      EntryExtends(n, es[0], base, zip);
      var r := EntryOutcome(n, es[0], base, zip);
      if r.err.None? {
        EntriesExtend(r.nodes, es[1..], base, zip);
      }
    }
  }

  /** The files an entry declares, as paths on the backend (archive members excluded). */
  function DeclaredFiles(e: Entry, base: Path): set<Path>
    decreases e, 1
  {
    match e
    case FileEntry(f) => {base + f.path}
    case Directory(path, entries) => DeclaredFilesOfAll(entries, base + path)
    case Entries(list) => DeclaredFilesOfAll(list, base)
    case Zip(path, _) => {base + path}
  }

  function DeclaredFilesOfAll(es: seq<Entry>, base: Path): set<Path>
    decreases es, 0
  {
    if es == [] then {} else DeclaredFiles(es[0], base) + DeclaredFilesOfAll(es[1..], base)
  }

  /** The directories an entry declares, as paths on the backend. */
  function DeclaredDirs(e: Entry, base: Path): set<Path>
    decreases e, 1
  {
    match e
    case FileEntry(_) => {}
    case Directory(path, entries) => {base + path} + DeclaredDirsOfAll(entries, base + path)
    case Entries(list) => DeclaredDirsOfAll(list, base)
    case Zip(_, _) => {}
  }

  function DeclaredDirsOfAll(es: seq<Entry>, base: Path): set<Path>
    decreases es, 0
  {
    if es == [] then {} else DeclaredDirs(es[0], base) + DeclaredDirsOfAll(es[1..], base)
  }

  /** Every path an entry declares exists with its kind once the backend extends further. */
  ghost predicate Materialised(n: Nodes, files: set<Path>, dirs: set<Path>)
  {
    (forall q :: q in files ==> IsFile(n, q)) && (forall q :: q in dirs ==> IsDir(n, q))
  }

  lemma KeptByExtension(n: Nodes, n': Nodes, files: set<Path>, dirs: set<Path>)
    requires Materialised(n, files, dirs) && Extends(n, n')
    ensures Materialised(n', files, dirs)
  {
  }

  /**
   * When creating an entry succeeds, every file and directory it declares
   * exists on the backend as a file or a directory.
   */
  lemma {:induction false} EntryMaterialised(n: Nodes, e: Entry, base: Path, zip: Archiver)
    ensures var r := EntryOutcome(n, e, base, zip);
      r.err.None? ==> Materialised(r.nodes, DeclaredFiles(e, base), DeclaredDirs(e, base))
    decreases e, 1
  {
    match e
    case FileEntry(f) => {}
    case Directory(path, entries) => {
      if MkdirAllIn(n, base + path).FsOk? {
        var m := MkdirAllIn(n, base + path).nodes;
        EntriesMaterialised(m, entries, base + path, zip);
        EntriesExtend(m, entries, base + path, zip);
        KeptByExtension(m, EntriesOutcome(m, entries, base + path, zip).nodes, {}, {base + path});
      }
    }
    case Entries(list) => EntriesMaterialised(n, list, base, zip);
    case Zip(path, files) => {}
  }

  lemma {:induction false} EntriesMaterialised(n: Nodes, es: seq<Entry>, base: Path, zip: Archiver)
    ensures var r := EntriesOutcome(n, es, base, zip);
      r.err.None? ==> Materialised(r.nodes, DeclaredFilesOfAll(es, base), DeclaredDirsOfAll(es, base))
    decreases es, 0
  {
    if es != [] {
      var r := EntryOutcome(n, es[0], base, zip);
      if r.err.None? {
        EntryMaterialised(n, es[0], base, zip);
        EntriesMaterialised(r.nodes, es[1..], base, zip);
        EntriesExtend(r.nodes, es[1..], base, zip);
        KeptByExtension(r.nodes, EntriesOutcome(r.nodes, es[1..], base, zip).nodes,
                        DeclaredFiles(es[0], base), DeclaredDirs(es[0], base));
      }
    }
  }

  /**
   * Creation is in order and stops at the first failing entry: that entry
   * ran on the state the entries before it left, all of which succeeded,
   * and its outcome is the outcome of the whole list.
   */
  lemma {:induction false} EntriesStopAtFirstError(n: Nodes, es: seq<Entry>, base: Path, zip: Archiver)
    requires EntriesOutcome(n, es, base, zip).err.Some?
    ensures exists k :: (0 <= k < |es|
      && EntriesOutcome(n, es[..k], base, zip).err.None?
      && EntryOutcome(EntriesOutcome(n, es[..k], base, zip).nodes, es[k], base, zip) == EntriesOutcome(n, es, base, zip))
    decreases |es|
  {
    var r := EntryOutcome(n, es[0], base, zip);
    if r.err.Some? {
      assert es[..0] == [];
    } else {
      EntriesStopAtFirstError(r.nodes, es[1..], base, zip);
      var k :| 0 <= k < |es[1..]|
        && EntriesOutcome(r.nodes, es[1..][..k], base, zip).err.None?
        && EntryOutcome(EntriesOutcome(r.nodes, es[1..][..k], base, zip).nodes, es[1..][k], base, zip)
           == EntriesOutcome(r.nodes, es[1..], base, zip);
      assert es[..k + 1][0] == es[0] && es[..k + 1][1..] == es[1..][..k];
      assert EntriesOutcome(n, es[..k + 1], base, zip) == EntriesOutcome(r.nodes, es[1..][..k], base, zip);
      assert es[k + 1] == es[1..][k];
    }
  }

  /**
   * `n'` differs from `n` only at or below `base`, or by directories added
   * on the way to `base`; nothing is removed.
   */
  ghost predicate StaysWithin(n: Nodes, n': Nodes, base: Path)
  {
    && n.Keys <= n'.Keys
    && forall q :: q in n' && (q !in n || n'[q] != n[q]) ==> base <= q || (q < base && n'[q] == Dir)
  }

  /** Two prefixes of one path are prefixes of one another. */
  lemma PrefixesComparable(a: Path, b: Path, x: Path)
    requires a <= x && b <= x
    ensures a <= b || b <= a
  {
    if |a| <= |b| {
      assert a == x[..|a|] == b[..|a|];
    } else {
      assert b == x[..|b|] == a[..|b|];
    }
  }

  /** Directories made along a path that runs through `base` stay within `base`. */
  lemma MkdirAllStaysWithin(n: Nodes, p: Path, base: Path)
    requires base <= p || p <= base
    ensures MkdirAllIn(n, p).FsOk? ==> StaysWithin(n, MkdirAllIn(n, p).nodes, base)
  {
    if MkdirAllIn(n, p).FsOk? {
      var m := MkdirAllIn(n, p).nodes;
      forall q | q in m && (q !in n || m[q] != n[q]) ensures base <= q || (q < base && m[q] == Dir) {
        if base <= p {
          PrefixesComparable(q, base, p);
        }
      }
    }
  }

  lemma StaysWithinChain(n1: Nodes, n2: Nodes, n3: Nodes, inner: Path, base: Path)
    requires base <= inner
    requires StaysWithin(n1, n2, base) && StaysWithin(n2, n3, inner)
    ensures StaysWithin(n1, n3, base)
  {
    forall q | q in n3 && (q !in n1 || n3[q] != n1[q]) ensures base <= q || (q < base && n3[q] == Dir) {
      if q in n2 && n3[q] == n2[q] {
      } else if inner <= q {
      } else {
        PrefixesComparable(q, base, inner);
      }
    }
  }

  /** Creating an entry changes the backend only within its base. */
  lemma {:induction false} EntryStaysWithin(n: Nodes, e: Entry, base: Path, zip: Archiver)
    ensures StaysWithin(n, EntryOutcome(n, e, base, zip).nodes, base)
    decreases e, 1
  {
    match e
    case FileEntry(f) => {
      var p := base + f.path;
      assert Parent(p) <= p;
      PrefixesComparable(base, Parent(p), p);
      MkdirAllStaysWithin(n, Parent(p), base);
    }
    case Directory(path, entries) => {
      MkdirAllStaysWithin(n, base + path, base);
      if MkdirAllIn(n, base + path).FsOk? {
        var m := MkdirAllIn(n, base + path).nodes;
        EntriesStayWithin(m, entries, base + path, zip);
        StaysWithinChain(n, m, EntriesOutcome(m, entries, base + path, zip).nodes, base + path, base);
      }
    }
    case Entries(list) => EntriesStayWithin(n, list, base, zip);
    case Zip(path, files) => {}
  }

  lemma {:induction false} EntriesStayWithin(n: Nodes, es: seq<Entry>, base: Path, zip: Archiver)
    ensures StaysWithin(n, EntriesOutcome(n, es, base, zip).nodes, base)
    decreases es, 0
  {
    if es != [] {
      EntryStaysWithin(n, es[0], base, zip);
      var r := EntryOutcome(n, es[0], base, zip);
      if r.err.None? {
        EntriesStayWithin(r.nodes, es[1..], base, zip);
        StaysWithinChain(n, r.nodes, EntriesOutcome(r.nodes, es[1..], base, zip).nodes, base, base);
      }
    }
  }

  /**
   * Build followed by its cleanup, whether or not an entry failed: nothing
   * at or below the root is left, and everything else is as it was except
   * for directories created on the way to the root.
   */
  lemma BuildThenCleanLeavesNoTrace(n: Nodes, es: seq<Entry>, root: Path, zip: Archiver)
    ensures var final := RemoveAllIn(EntriesOutcome(n, es, root, zip).nodes, root);
      && (forall q :: q in final ==> !(root <= q))
      && (forall q :: q in final ==> (q in n && final[q] == n[q]) || (q < root && final[q] == Dir))
      && (forall q :: q in n && !(root <= q) ==> q in final && final[q] == n[q])
  {
    EntriesStayWithin(n, es, root, zip);
    EntriesExtend(n, es, root, zip);
  }
}
