/**
 * The filesystem backend the builder writes to, reduced to what the builder
 * relies on: a tree of directories and files addressed by paths, with the
 * MkdirAll, Create/WriteFile and RemoveAll operations of a POSIX-like
 * backend, and a flag telling whether it is the host operating system's.
 *
 * A path is a sequence of clean segment names; [] is the root "/", and
 * joining two paths is concatenation. A clean segment is a single name: it
 * is not empty, not "." or "..", and holds no separator, so a joined path
 * never leaves the path it was joined onto.
 */
module FileSystem {

  import opened Wrappers

  newtype byte = x: int | 0 <= x < 256

  /** A name filepath.Clean leaves alone: no ".", "..", empty name or separator. */
  predicate CleanSegment(s: string)
  {
    s != "" && s != "." && s != ".." && '/' !in s
  }

  type Segment = s: string | CleanSegment(s) witness "x"

  type Path = seq<Segment>

  datatype Node = Dir | FileNode(content: seq<byte>)

  type Nodes = map<Path, Node>

  datatype FsError =
    | NotADirectory(path: Path)  // a file stands where a directory is needed
    | IsADirectory(path: Path)   // a directory stands where a file is written
    | NoParent(path: Path)       // the file's parent directory does not exist

  datatype FsResult = FsOk(nodes: Nodes) | FsErr(err: FsError)

  function Parent(p: Path): Path
  {
    if p == [] then [] else p[..|p| - 1]
  }

  /** The root always exists and is a directory. */
  predicate IsDir(n: Nodes, p: Path)
  {
    p == [] || (p in n && n[p].Dir?)
  }

  predicate IsFile(n: Nodes, p: Path)
  {
    p in n && n[p].FileNode?
  }

  /** The shape every backend keeps: each entry sits in an existing directory. */
  ghost predicate Tree(n: Nodes)
  {
    [] !in n && forall p :: p in n ==> IsDir(n, Parent(p))
  }

  /** `n'` is `n` with directories added along `p` and nothing else changed. */
  ghost predicate AddsDirsAlong(n: Nodes, n': Nodes, p: Path)
  {
    && n.Keys <= n'.Keys
    && (forall q :: q in n ==> n'[q] == n[q])
    && (forall q :: q in n' && q !in n ==> q <= p && n'[q] == Dir)
  }

  /**
   * MkdirAll: an existing directory is left alone, a file in the way is an
   * error; otherwise the parent is made first and then the directory.
   */
  function MkdirAllIn(n: Nodes, p: Path): (r: FsResult)
    ensures r.FsOk? ==> AddsDirsAlong(n, r.nodes, p) && IsDir(r.nodes, p)
    ensures r.FsErr? ==> r.err.NotADirectory? && r.err.path <= p && IsFile(n, r.err.path)
    decreases |p|
  {
    if p == [] then FsOk(n)
    else if p in n then (if n[p].Dir? then FsOk(n) else FsErr(NotADirectory(p)))
    else match MkdirAllIn(n, Parent(p))
      case FsErr(e) => FsErr(e)
      case FsOk(m) => FsOk(m[p := Dir])
  }

  /**
   * Create followed by a write of `content` (and WriteFile): the path must
   * not be a directory and its parent must be one; the file is replaced.
   */
  function WriteFileIn(n: Nodes, p: Path, content: seq<byte>): (r: FsResult)
    ensures r.FsOk? <==> !IsDir(n, p) && IsDir(n, Parent(p))
    ensures r.FsOk? ==> r.nodes == n[p := FileNode(content)]
  {
    if IsDir(n, p) then FsErr(IsADirectory(p))
    else if !IsDir(n, Parent(p)) then FsErr(NoParent(p))
    else FsOk(n[p := FileNode(content)])
  }

  /** RemoveAll: `p` and everything beneath it disappear. */
  function RemoveAllIn(n: Nodes, p: Path): (r: Nodes)
    ensures forall q :: q in r <==> q in n && !(p <= q)
    ensures forall q :: q in r ==> r[q] == n[q]
  {
    map q | q in n && !(p <= q) :: n[q]
  }

  /** Every ancestor of a node of a tree is a directory. */
  lemma {:induction false} AncestorsAreDirs(n: Nodes, p: Path, i: nat)
    requires Tree(n) && p in n && i < |p|
    ensures IsDir(n, p[..i])
    decreases |p| - i
  {
    var q := Parent(p);
    assert IsDir(n, q);
    if i < |q| {
      AncestorsAreDirs(n, q, i);
      assert q[..i] == p[..i];
    } else {
      assert q == p[..i];
    }
  }

  /** MkdirAll keeps the tree shape. */
  lemma {:induction false} MkdirAllKeepsTree(n: Nodes, p: Path)
    requires Tree(n)
    ensures MkdirAllIn(n, p).FsOk? ==> Tree(MkdirAllIn(n, p).nodes)
    decreases |p|
  {
    if p != [] && p !in n {
      var q := Parent(p);
      MkdirAllKeepsTree(n, q);
      if MkdirAllIn(n, q).FsOk? {
        var m := MkdirAllIn(n, q).nodes;
        assert !(p <= q) by { assert |q| < |p|; }
        assert IsDir(m, q);
        assert p !in m;
      }
    }
  }

  /** After a successful MkdirAll on a tree, `p` and all its ancestors are directories. */
  lemma {:induction false} MkdirAllMakesAncestors(n: Nodes, p: Path)
    requires Tree(n)
    ensures MkdirAllIn(n, p).FsOk? ==> forall i :: 0 <= i <= |p| ==> IsDir(MkdirAllIn(n, p).nodes, p[..i])
    decreases |p|
  {
    if p == [] {
    } else if p in n {
      if n[p].Dir? {
        forall i | 0 <= i <= |p| ensures IsDir(n, p[..i]) {
          if i < |p| { AncestorsAreDirs(n, p, i); } else { assert p[..i] == p; }
        }
      }
    } else {
      var q := Parent(p);
      MkdirAllMakesAncestors(n, q);
      if MkdirAllIn(n, q).FsOk? {
        var m := MkdirAllIn(n, q).nodes;
        forall i | 0 <= i <= |p| ensures IsDir(m[p := Dir], p[..i]) {
          if i == |p| { assert p[..i] == p; } else { assert p[..i] == q[..i]; }
        }
      }
    }
  }

  /** On a tree, MkdirAll fails exactly when a file stands on the way to `p`. */
  lemma {:induction false} MkdirAllFailsIff(n: Nodes, p: Path)
    requires Tree(n)
    ensures MkdirAllIn(n, p).FsErr? <==> exists i :: 0 < i <= |p| && IsFile(n, p[..i])
    decreases |p|
  {
    if p == [] {
    } else if p in n {
      if n[p].Dir? {
        forall i | 0 < i <= |p| ensures !IsFile(n, p[..i]) {
          if i < |p| { AncestorsAreDirs(n, p, i); } else { assert p[..i] == p; }
        }
      } else {
        assert p[..|p|] == p;
      }
    } else {
      var q := Parent(p);
      MkdirAllFailsIff(n, q);
      if MkdirAllIn(n, q).FsErr? {
        var i :| 0 < i <= |q| && IsFile(n, q[..i]);
        assert q[..i] == p[..i];
      } else {
        forall i | 0 < i <= |p| ensures !IsFile(n, p[..i]) {
          if i == |p| { assert p[..i] == p; } else { assert p[..i] == q[..i]; }
        }
      }
    }
  }

  /** Writing a file keeps the tree shape. */
  lemma WriteFileKeepsTree(n: Nodes, p: Path, content: seq<byte>)
    requires Tree(n)
    ensures WriteFileIn(n, p, content).FsOk? ==> Tree(WriteFileIn(n, p, content).nodes)
  {
  }

  /** Removing a subtree keeps the tree shape: what remains had its parent remain too. */
  lemma RemoveAllKeepsTree(n: Nodes, p: Path)
    requires Tree(n)
    ensures Tree(RemoveAllIn(n, p))
  {
    var r := RemoveAllIn(n, p);
    forall q | q in r ensures IsDir(r, Parent(q)) {
      if Parent(q) != [] {
        assert p <= Parent(q) ==> p <= q;
      }
    }
  }

  /**
   * A backend instance: the afero filesystem the builder is handed, with
   * its current contents.
   */
  class Fs {
    const isOs: bool
    var nodes: Nodes

    ghost predicate Valid()
      reads this
    {
      Tree(nodes)
    }

    /** afero.NewMemMapFs: a fresh in-memory backend, empty. */
    constructor MemMap()
      ensures Valid() && !isOs && nodes == map[]
    {
      isOs := false;
      nodes := map[];
    }

    /** afero.NewOsFs: the host's filesystem, with whatever it already holds. */
    constructor Host(contents: Nodes)
      requires Tree(contents)
      ensures Valid() && isOs && nodes == contents
    {
      isOs := true;
      nodes := contents;
    }

    method MkdirAll(p: Path) returns (err: Option<FsError>)
      requires Valid()
      modifies this
      ensures Valid()
      ensures MkdirAllIn(old(nodes), p).FsOk? ==> err.None? && nodes == MkdirAllIn(old(nodes), p).nodes
      ensures MkdirAllIn(old(nodes), p).FsErr? ==> err == Some(MkdirAllIn(old(nodes), p).err) && nodes == old(nodes)
    {
      MkdirAllKeepsTree(nodes, p);
      match MkdirAllIn(nodes, p)
      case FsOk(m) => nodes := m; err := None;
      case FsErr(e) => err := Some(e);
    }

    /** Create: opens `p` for writing, truncating it to an empty file. */
    method Create(p: Path) returns (err: Option<FsError>)
      requires Valid()
      modifies this
      ensures Valid()
      ensures WriteFileIn(old(nodes), p, []).FsOk? ==> err.None? && nodes == WriteFileIn(old(nodes), p, []).nodes
      ensures WriteFileIn(old(nodes), p, []).FsErr? ==> err == Some(WriteFileIn(old(nodes), p, []).err) && nodes == old(nodes)
    {
      err := WriteFile(p, []);
    }

    /** Writing `content` through the handle Create returned for the file `p`. */
    method Write(p: Path, content: seq<byte>)
      requires Valid() && IsFile(nodes, p)
      modifies this
      ensures Valid()
      ensures nodes == old(nodes)[p := FileNode(content)]
    {
      nodes := nodes[p := FileNode(content)];
    }

    /** afero.WriteFile: Create and one write. */
    method WriteFile(p: Path, content: seq<byte>) returns (err: Option<FsError>)
      requires Valid()
      modifies this
      ensures Valid()
      ensures WriteFileIn(old(nodes), p, content).FsOk? ==> err.None? && nodes == WriteFileIn(old(nodes), p, content).nodes
      ensures WriteFileIn(old(nodes), p, content).FsErr? ==> err == Some(WriteFileIn(old(nodes), p, content).err) && nodes == old(nodes)
    {
      WriteFileKeepsTree(nodes, p, content);
      match WriteFileIn(nodes, p, content)
      case FsOk(m) => nodes := m; err := None;
      case FsErr(e) => err := Some(e);
    }

    method RemoveAll(p: Path)
      requires Valid()
      modifies this
      ensures Valid()
      ensures nodes == RemoveAllIn(old(nodes), p)
    {
      RemoveAllKeepsTree(nodes, p);
      nodes := RemoveAllIn(nodes, p);
    }
  }
}
