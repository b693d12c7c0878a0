/**
 * CompareDirectories of compare.go: two walks, the right root first and then
 * the left one, feed one Diff; each visited path loses the first occurrence
 * of the root being walked before it is appended to the side the root names.
 *
 * The walks themselves are inputs: a walk is the sequence of calls the
 * traversal makes to the visitor, each with a path and, when the traversal
 * itself failed there, an error.
 */
module Compare {

  import opened Wrappers
  import opened PathDiff

  /** `sub` occurs in `s` starting at position `j`. */
  predicate OccursAt(s: string, sub: string, j: nat)
  {
    j + |sub| <= |s| && s[j..j + |sub|] == sub
  }

  /** The first position at or after `from` where `sub` occurs in `s`. */
  function IndexFrom(s: string, sub: string, from: nat): (r: Option<nat>)
    requires from <= |s|
    ensures r.Some? ==> from <= r.value && OccursAt(s, sub, r.value)
    ensures r.Some? ==> forall j :: from <= j < r.value ==> !OccursAt(s, sub, j)
    ensures r.None? ==> forall j :: from <= j <= |s| ==> !OccursAt(s, sub, j)
    decreases |s| - from
  {
    if OccursAt(s, sub, from) then Some(from)
    else if from == |s| then None
    else IndexFrom(s, sub, from + 1)
  }

  /** strings.Index: the first position where `sub` occurs in `s`. */
  function Index(s: string, sub: string): (r: Option<nat>)
    ensures r.Some? ==> OccursAt(s, sub, r.value)
    ensures r.Some? ==> forall j :: 0 <= j < r.value ==> !OccursAt(s, sub, j)
    ensures r.None? ==> forall j :: 0 <= j ==> !OccursAt(s, sub, j)
  {
    IndexFrom(s, sub, 0)
  }

  /**
   * strings.Replace(s, sub, "", 1): the first occurrence of `sub` is cut out,
   * wherever it is; an empty `sub` (equal to the replacement) leaves `s` as is.
   */
  function RemoveFirst(s: string, sub: string): string
  {
    if sub == "" then s
    else match Index(s, sub)
      case None => s
      case Some(i) => s[..i] + s[i + |sub|..]
  }

  /** A path that starts with the root loses exactly that prefix. */
  lemma RemoveFirstOfPrefixed(root: string, rest: string)
    ensures RemoveFirst(root + rest, root) == rest
  {
    var s := root + rest;
    assert OccursAt(s, root, 0) by {
      assert s[..|root|] == root;
    }
    if root != "" {
      assert Index(s, root) == Some(0);
      assert s[|root|..] == rest;
    }
  }

  /** The root itself becomes "" and so is never recorded. */
  lemma RootIsNotRecorded(root: string)
    ensures RemoveFirst(root, root) == ""
    ensures Added(RemoveFirst(root, root)) == {}
  {
    RemoveFirstOfPrefixed(root, "");
    assert root + "" == root;
  }

  /** The removal is not anchored: a root occurring inside a path is cut from the middle. */
  lemma RemoveFirstIsNotAnchored()
    ensures RemoveFirst("a/left/b", "left") == "a//b"
  {
    var s := "a/left/b";
    assert !OccursAt(s, "left", 0) by { assert s[0] != 'l'; }
    assert !OccursAt(s, "left", 1) by { assert s[1] != 'l'; }
    assert OccursAt(s, "left", 2) by { assert s[2..6] == "left"; }
    assert Index(s, "left") == Some(2);
    assert s[..2] + s[6..] == "a//b";
  }

  datatype WalkError = WalkError(reason: string)

  /** One call the traversal makes to the visitor. */
  datatype Visit = Visit(path: string, err: Option<WalkError>)

  /** Which side of the Diff the `switch current` statement picks. */
  datatype Side = LeftSide | RightSide | Neither

  /** The switch on `current`: the `left` case is tested first. */
  function SideOf(current: string, left: string, right: string): (s: Side)
    ensures s == LeftSide <==> current == left
    ensures s == RightSide <==> current != left && current == right
  {
    if current == left then LeftSide
    else if current == right then RightSide
    else Neither
  }

  /** The number of visits before the first one carrying an error. */
  function ErrorIndex(vs: seq<Visit>): (k: nat)
    ensures k <= |vs|
    ensures forall j :: 0 <= j < k ==> vs[j].err.None?
    ensures k < |vs| ==> vs[k].err.Some?
  {
    if vs == [] || vs[0].err.Some? then 0 else 1 + ErrorIndex(vs[1..])
  }

  /** The error the walk stops with, if any. */
  function FirstError(vs: seq<Visit>): Option<WalkError>
  {
    if ErrorIndex(vs) < |vs| then vs[ErrorIndex(vs)].err else None
  }

  /** The paths a walk of `root` appends: each visited path with `root` removed. */
  function Recorded(vs: seq<Visit>, root: string): set<string>
  {
    if vs == [] then {}
    else Recorded(vs[..|vs| - 1], root) + Added(RemoveFirst(vs[|vs| - 1].path, root))
  }

  /**
   * The visitor closure: an error handed to it is returned unchanged;
   * otherwise the path, with the current root removed, goes to the side
   * `current` names.
   */
  method VisitPath(diffs: Diff, left: string, right: string, current: string, v: Visit)
    returns (err: Option<WalkError>)
    requires diffs.Valid()
    modifies diffs
    ensures diffs.Valid()
    ensures err == v.err
    ensures diffs.left == old(diffs.left) +
      (if v.err.None? && SideOf(current, left, right) == LeftSide then Added(RemoveFirst(v.path, current)) else {})
    ensures diffs.right == old(diffs.right) +
      (if v.err.None? && SideOf(current, left, right) == RightSide then Added(RemoveFirst(v.path, current)) else {})
  {
    if v.err.Some? {
      return v.err;
    }
    var path := RemoveFirst(v.path, current);
    if current == left {
      diffs.AppendLeft(path);
    } else if current == right {
      diffs.AppendRight(path);
    }
    return None;
  }

  /**
   * afero.Walk with the visitor above: visits in order and stops at the
   * first error, which it returns.
   */
  method Walk(diffs: Diff, left: string, right: string, current: string, vs: seq<Visit>)
    returns (err: Option<WalkError>)
    requires diffs.Valid()
    modifies diffs
    ensures diffs.Valid()
    ensures err == FirstError(vs)
    ensures diffs.left == old(diffs.left) +
      (if SideOf(current, left, right) == LeftSide then Recorded(vs[..ErrorIndex(vs)], current) else {})
    ensures diffs.right == old(diffs.right) +
      (if SideOf(current, left, right) == RightSide then Recorded(vs[..ErrorIndex(vs)], current) else {})
  {
    var side := SideOf(current, left, right);
    ghost var recorded: set<string> := {};
    for i := 0 to |vs|
      invariant diffs.Valid()
      invariant i <= ErrorIndex(vs)
      invariant recorded == Recorded(vs[..i], current)
      invariant diffs.left == old(diffs.left) + (if side == LeftSide then recorded else {})
      invariant diffs.right == old(diffs.right) + (if side == RightSide then recorded else {})
    {
      err := VisitPath(diffs, left, right, current, vs[i]);
      if err.Some? {
        assert ErrorIndex(vs) == i;
        return;
      }
      assert vs[..i + 1][..i] == vs[..i];
      recorded := recorded + Added(RemoveFirst(vs[i].path, current));
    }
    assert vs[..|vs|] == vs;
    return None;
  }

  /** The paths that end up on the left side when neither walk fails. */
  function LeftPaths(left: string, right: string, leftWalk: seq<Visit>, rightWalk: seq<Visit>): set<string>
  {
    (if left == right then Recorded(rightWalk, right) else {}) + Recorded(leftWalk, left)
  }

  /** The paths that end up on the right side when neither walk fails. */
  function RightPaths(left: string, right: string, leftWalk: seq<Visit>, rightWalk: seq<Visit>): set<string>
  {
    if left == right then {} else Recorded(rightWalk, right)
  }

  /**
   * CompareDirectories(fs, left, right), with the walk of `right` and the walk
   * of `left` given as `rightWalk` and `leftWalk`.
   */
  method CompareDirectories(left: string, right: string, leftWalk: seq<Visit>, rightWalk: seq<Visit>)
    returns (difference: Diff?, ok: bool, err: Option<WalkError>)
    ensures difference != null ==> fresh(difference)
    ensures FirstError(rightWalk).Some? ==>
      difference == null && !ok && err == FirstError(rightWalk)
    ensures FirstError(rightWalk).None? && FirstError(leftWalk).Some? ==>
      difference == null && !ok && err == FirstError(leftWalk)
    ensures FirstError(rightWalk).None? && FirstError(leftWalk).None? ==>
      && err.None?
      && (ok <==> LeftPaths(left, right, leftWalk, rightWalk) == RightPaths(left, right, leftWalk, rightWalk))
      && (ok ==> difference == null)
      && (!ok ==> difference != null && difference.Valid()
                  && difference.left == LeftPaths(left, right, leftWalk, rightWalk)
                  && difference.right == RightPaths(left, right, leftWalk, rightWalk)
                  && difference.left != difference.right)
  {
    var diffs := new Diff();
    var current := right;
    err := Walk(diffs, left, right, current, rightWalk);
    if err.Some? {
      return null, false, err;
    }
    assert rightWalk[..ErrorIndex(rightWalk)] == rightWalk;
    current := left;
    err := Walk(diffs, left, right, current, leftWalk);
    if err.Some? {
      return null, false, err;
    }
    assert leftWalk[..ErrorIndex(leftWalk)] == leftWalk;
    var empty := diffs.IsEmpty();
    if !empty {
      return diffs, false, None;
    }
    return null, true, None;
  }

  /**
   * The "should not equal" case end to end: comparing the two trees reports
   * a difference, and the diff returned equals the expected literal.
   */
  method ShouldNotEqualEndToEnd() returns (ok: bool, matches: bool)
    ensures !ok && matches
  {
    var rightWalk := [Visit("right", None), Visit("right/foo", None),
                      Visit("right/foo/bar.exe", None), Visit("right/foo/baz.exe", None)];
    var leftWalk := [Visit("left", None), Visit("left/foo", None),
                     Visit("left/foo/foo.exe", None), Visit("left/foo/foobar.exe", None)];
    ShouldNotEqualScenario(leftWalk, rightWalk);
    var difference, err;
    difference, ok, err := CompareDirectories("left", "right", leftWalk, rightWalk);
    var expected := new Diff.Literal({"foo", "foo/foo.exe", "foo/foobar.exe"}, {"foo", "foo/bar.exe", "foo/baz.exe"});
    matches := EqualTo(difference, expected);
  }

  /** A path is recorded exactly when some visit of the walk contributes it. */
  lemma {:induction false} RecordedMembership(vs: seq<Visit>, root: string, x: string)
    ensures x in Recorded(vs, root) <==>
      exists i :: 0 <= i < |vs| && x in Added(RemoveFirst(vs[i].path, root))
  {
    if vs != [] {
      var init := vs[..|vs| - 1];
      RecordedMembership(init, root, x);
      if x in Recorded(vs, root) && x !in Added(RemoveFirst(vs[|vs| - 1].path, root)) {
        var i :| 0 <= i < |init| && x in Added(RemoveFirst(init[i].path, root));
        assert vs[i] == init[i];
      }
      if exists i :: 0 <= i < |vs| && x in Added(RemoveFirst(vs[i].path, root)) {
        var i :| 0 <= i < |vs| && x in Added(RemoveFirst(vs[i].path, root));
        if i < |vs| - 1 {
          assert init[i] == vs[i];
        }
      }
    }
  }

  /**
   * The recorded set depends only on which paths were visited: neither the
   * traversal order nor repeated visits matter.
   */
  lemma RecordedIgnoresOrder(vs: seq<Visit>, ws: seq<Visit>, root: string)
    requires forall v :: v in vs <==> v in ws
    ensures Recorded(vs, root) == Recorded(ws, root)
  {
    forall x ensures x in Recorded(vs, root) <==> x in Recorded(ws, root) {
      RecordedMembership(vs, root, x);
      RecordedMembership(ws, root, x);
      if x in Recorded(vs, root) {
        var i :| 0 <= i < |vs| && x in Added(RemoveFirst(vs[i].path, root));
        assert vs[i] in ws;
        var j :| 0 <= j < |ws| && ws[j] == vs[i];
      }
      if x in Recorded(ws, root) {
        var j :| 0 <= j < |ws| && x in Added(RemoveFirst(ws[j].path, root));
        assert ws[j] in vs;
        var i :| 0 <= i < |vs| && vs[i] == ws[j];
      }
    }
  }

  /** Whether the comparison reports the trees equal, when neither walk fails. */
  predicate Equal(left: string, right: string, leftWalk: seq<Visit>, rightWalk: seq<Visit>)
  {
    LeftPaths(left, right, leftWalk, rightWalk) == RightPaths(left, right, leftWalk, rightWalk)
  }

  /** Swapping the two roots, with their walks, does not change `ok`. */
  lemma CompareIsSymmetric(left: string, right: string, leftWalk: seq<Visit>, rightWalk: seq<Visit>)
    ensures Equal(left, right, leftWalk, rightWalk) == Equal(right, left, rightWalk, leftWalk)
    ensures left != right ==>
      LeftPaths(right, left, rightWalk, leftWalk) == RightPaths(left, right, leftWalk, rightWalk) &&
      RightPaths(right, left, rightWalk, leftWalk) == LeftPaths(left, right, leftWalk, rightWalk)
  {
  }

  /** With one root on both sides every path lands on the left, so `ok` means nothing was recorded. */
  lemma SameRootFillsLeftOnly(root: string, leftWalk: seq<Visit>, rightWalk: seq<Visit>)
    ensures RightPaths(root, root, leftWalk, rightWalk) == {}
    ensures Equal(root, root, leftWalk, rightWalk) <==>
      Recorded(leftWalk, root) == {} && Recorded(rightWalk, root) == {}
  {
  }

  /** A visit of `root + rest` without an error is stored as the key of `rest`. */
  lemma RecordUnderRoot(vs: seq<Visit>, root: string, rest: string)
    ensures Recorded(vs + [Visit(root + rest, None)], root) == Recorded(vs, root) + Added(rest)
  {
    var ws := vs + [Visit(root + rest, None)];
    assert ws[..|ws| - 1] == vs;
    RemoveFirstOfPrefixed(root, rest);
  }

  /** A walk of `root` that visits `root + rels[i]` for each i in order, without errors. */
  function WalkUnder(root: string, rels: seq<string>): (w: seq<Visit>)
    ensures |w| == |rels|
    ensures forall i :: 0 <= i < |w| ==> w[i] == Visit(root + rels[i], None)
  {
    if rels == [] then []
    else WalkUnder(root, rels[..|rels| - 1]) + [Visit(root + rels[|rels| - 1], None)]
  }

  /** The keys the relative paths `rels` are stored as. */
  function RelativeKeys(rels: seq<string>): set<string>
  {
    if rels == [] then {} else RelativeKeys(rels[..|rels| - 1]) + Added(rels[|rels| - 1])
  }

  /** Walking `root` records each visited path relative to `root`, whatever `root` is. */
  lemma {:induction false} RecordedWalkUnder(root: string, rels: seq<string>)
    ensures Recorded(WalkUnder(root, rels), root) == RelativeKeys(rels)
  {
    if rels != [] {
      var init := rels[..|rels| - 1];
      RecordedWalkUnder(root, init);
      RecordUnderRoot(WalkUnder(root, init), root, rels[|rels| - 1]);
    }
  }

  /**
   * The "should equal" case, for any contents: two distinct roots whose walks
   * visit the same relative paths compare equal and neither walk fails.
   */
  lemma MirroredTreesCompareEqual(left: string, right: string, rels: seq<string>)
    requires left != right
    ensures FirstError(WalkUnder(left, rels)).None? && FirstError(WalkUnder(right, rels)).None?
    ensures LeftPaths(left, right, WalkUnder(left, rels), WalkUnder(right, rels)) == RelativeKeys(rels)
    ensures RightPaths(left, right, WalkUnder(left, rels), WalkUnder(right, rels)) == RelativeKeys(rels)
    ensures Equal(left, right, WalkUnder(left, rels), WalkUnder(right, rels))
  {
    NoErrors(WalkUnder(left, rels));
    NoErrors(WalkUnder(right, rels));
    RecordedWalkUnder(left, rels);
    RecordedWalkUnder(right, rels);
  }

  /**
   * The "should not equal" case: foo/{foo,foobar}.exe against
   * foo/{bar,baz}.exe. The directory foo is recorded on both sides and
   * cancels out of the complement.
   */
  lemma ShouldNotEqualScenario(leftWalk: seq<Visit>, rightWalk: seq<Visit>)
    requires rightWalk == [Visit("right", None), Visit("right/foo", None),
                           Visit("right/foo/bar.exe", None), Visit("right/foo/baz.exe", None)]
    requires leftWalk == [Visit("left", None), Visit("left/foo", None),
                          Visit("left/foo/foo.exe", None), Visit("left/foo/foobar.exe", None)]
    ensures FirstError(rightWalk).None? && FirstError(leftWalk).None?
    ensures LeftPaths("left", "right", leftWalk, rightWalk) == {"foo", "foo/foo.exe", "foo/foobar.exe"}
    ensures RightPaths("left", "right", leftWalk, rightWalk) == {"foo", "foo/bar.exe", "foo/baz.exe"}
    ensures !Equal("left", "right", leftWalk, rightWalk)
    ensures SameComplements(LeftPaths("left", "right", leftWalk, rightWalk),
                            RightPaths("left", "right", leftWalk, rightWalk),
                            {"foo/foo.exe", "foo/foobar.exe"}, {"foo/bar.exe", "foo/baz.exe"})
  {
    NoErrors(rightWalk);
    NoErrors(leftWalk);
    RightScenarioWalk();
    LeftScenarioWalk();
    assert "left" != "right" by {
      assert "left"[0] != "right"[0];
    }
    ScenarioComplement();
  }

  /** The set algebra of the scenario: foo is on both sides, the files on one each. */
  lemma ScenarioComplement()
    ensures {"foo", "foo/foo.exe", "foo/foobar.exe"} != {"foo", "foo/bar.exe", "foo/baz.exe"}
    ensures SameComplements({"foo", "foo/foo.exe", "foo/foobar.exe"}, {"foo", "foo/bar.exe", "foo/baz.exe"},
                            {"foo/foo.exe", "foo/foobar.exe"}, {"foo/bar.exe", "foo/baz.exe"})
  {
    var l, r := {"foo", "foo/foo.exe", "foo/foobar.exe"}, {"foo", "foo/bar.exe", "foo/baz.exe"};
    DistinctNames();
    assert "foo/foo.exe" !in r;
    assert l - r == {"foo/foo.exe", "foo/foobar.exe"};
    assert r - l == {"foo/bar.exe", "foo/baz.exe"};
  }

  /** The file names of the two sides of the scenario differ. */
  lemma DistinctNames()
    ensures "foo/foo.exe" != "foo/bar.exe" && "foo/foo.exe" != "foo/baz.exe" && "foo/foo.exe" != "foo"
    ensures "foo/foobar.exe" != "foo/bar.exe" && "foo/foobar.exe" != "foo/baz.exe" && "foo/foobar.exe" != "foo"
    ensures "foo/bar.exe" != "foo" && "foo/baz.exe" != "foo"
  {
    assert "foo/foo.exe"[4] != "foo/bar.exe"[4] && "foo/foo.exe"[4] != "foo/baz.exe"[4];
    assert "foo/foobar.exe"[4] != "foo/bar.exe"[4] && "foo/foobar.exe"[4] != "foo/baz.exe"[4];
  }

  /** A walk none of whose visits carries an error completes. */
  lemma NoErrors(vs: seq<Visit>)
    requires forall i :: 0 <= i < |vs| ==> vs[i].err.None?
    ensures ErrorIndex(vs) == |vs| && FirstError(vs).None?
  {
  }

  /** The walk of "right" in the scenario: the root, foo, and two files in foo. */
  lemma RightScenarioWalk()
    ensures Recorded([Visit("right", None), Visit("right/foo", None),
                      Visit("right/foo/bar.exe", None), Visit("right/foo/baz.exe", None)], "right")
      == {"foo", "foo/bar.exe", "foo/baz.exe"}
  {
    assert "right/foo" == "right" + "/foo";
    assert "right/foo/bar.exe" == "right" + "/foo/bar.exe";
    assert "right/foo/baz.exe" == "right" + "/foo/baz.exe";
    WalkOfFour("right", "/foo", "/foo/bar.exe", "/foo/baz.exe");
    KeyDropsOneSlash("foo");
    KeyDropsOneSlash("foo/bar.exe");
    KeyDropsOneSlash("foo/baz.exe");
    assert "/foo" == "/" + "foo";
    assert "/foo/bar.exe" == "/" + "foo/bar.exe";
    assert "/foo/baz.exe" == "/" + "foo/baz.exe";
  }

  /** The walk of "left" in the scenario. */
  lemma LeftScenarioWalk()
    ensures Recorded([Visit("left", None), Visit("left/foo", None),
                      Visit("left/foo/foo.exe", None), Visit("left/foo/foobar.exe", None)], "left")
      == {"foo", "foo/foo.exe", "foo/foobar.exe"}
  {
    assert "left/foo" == "left" + "/foo";
    assert "left/foo/foo.exe" == "left" + "/foo/foo.exe";
    assert "left/foo/foobar.exe" == "left" + "/foo/foobar.exe";
    WalkOfFour("left", "/foo", "/foo/foo.exe", "/foo/foobar.exe");
    KeyDropsOneSlash("foo");
    KeyDropsOneSlash("foo/foo.exe");
    KeyDropsOneSlash("foo/foobar.exe");
    assert "/foo" == "/" + "foo";
    assert "/foo/foo.exe" == "/" + "foo/foo.exe";
    assert "/foo/foobar.exe" == "/" + "foo/foobar.exe";
  }

  /** A four-visit walk of `root`: the root itself and three paths below it. */
  lemma WalkOfFour(root: string, a: string, b: string, c: string)
    ensures Recorded([Visit(root, None), Visit(root + a, None), Visit(root + b, None), Visit(root + c, None)], root)
      == Added(a) + Added(b) + Added(c)
  {
    var v0, va, vb, vc := Visit(root, None), Visit(root + a, None), Visit(root + b, None), Visit(root + c, None);
    RootIsNotRecorded(root);
    RemoveFirstOfPrefixed(root, a);
    RemoveFirstOfPrefixed(root, b);
    RemoveFirstOfPrefixed(root, c);
    var w1, w2, w3, w4 := [v0], [v0, va], [v0, va, vb], [v0, va, vb, vc];
    assert w1[..0] == [] && w2[..1] == w1 && w3[..2] == w2 && w4[..3] == w3;
    assert Recorded(w1, root) == {};
    assert Recorded(w2, root) == Added(a);
    assert Recorded(w3, root) == Added(a) + Added(b);
    assert Recorded(w4, root) == Added(a) + Added(b) + Added(c);
  }
}
