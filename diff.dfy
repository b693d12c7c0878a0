/**
 * The path-set difference engine of diff.go.
 *
 * A `Diff` accumulates two sets of paths, `left` and `right`, and keeps a
 * lazily recomputed complement: the paths of each side that the other side
 * lacks, under the keys "left" and "right". The `changed` flag marks the
 * cached complement as stale whenever a path is appended.
 */
module PathDiff {

  import opened Wrappers

  const LeftKey: string := "left"
  const RightKey: string := "right"

  /** The element a non-empty path is stored as: one leading '/' is dropped. */
  function Key(path: string): string
    requires path != ""
  {
    if path[0] == '/' then path[1..] else path
  }

  /** What appending `path` adds to a side: nothing for "", else its key. */
  function Added(path: string): set<string>
  {
    if path == "" then {} else {Key(path)}
  }

  /** `s` has no element twice. */
  predicate NoDuplicates(s: seq<string>)
  {
    forall i, j :: 0 <= i < j < |s| ==> s[i] != s[j]
  }

  /** `s` lists exactly the elements of `elems`, each once. */
  ghost predicate Lists(s: seq<string>, elems: set<string>)
  {
    NoDuplicates(s) && forall x :: x in s <==> x in elems
  }

  /** `m` is the complement of `left` and `right` as diff.go lays it out. */
  ghost predicate IsComplement(m: map<string, seq<string>>, left: set<string>, right: set<string>)
  {
    && m.Keys == {LeftKey, RightKey}
    && Lists(m[LeftKey], left - right)
    && Lists(m[RightKey], right - left)
  }

  class Diff {
    var left: set<string>
    var right: set<string>
    /** The memoised complement; `None` stands for Go's nil map. */
    var diff: Option<map<string, seq<string>>>
    var changed: bool

    /** A cached complement has the two keys, and is current unless `changed`. */
    ghost predicate Valid()
      reads this
    {
      && (diff.Some? ==> diff.value.Keys == {LeftKey, RightKey})
      && (diff.Some? && !changed ==> IsComplement(diff.value, left, right))
    }

    /** The zero value `&Diff{}`. */
    constructor ()
      ensures Valid()
      ensures left == {} && right == {} && diff == None && !changed
    {
      left, right, diff, changed := {}, {}, None, false;
    }

    /** The struct literal `&Diff{left: ..., right: ...}`. */
    constructor Literal(l: set<string>, r: set<string>)
      ensures Valid()
      ensures left == l && right == r && diff == None && !changed
    {
      left, right, diff, changed := l, r, None, false;
    }

    /** appendLeft: ignores "", otherwise stores the key and marks the cache stale. */
    method AppendLeft(path: string)
      requires Valid()
      modifies this
      ensures Valid()
      ensures left == old(left) + Added(path)
      ensures changed == (old(changed) || path != "")
      ensures right == old(right) && diff == old(diff)
    {
      if path == "" {
        return;
      }
      var p := path;
      if p[0] == '/' {
        p := p[1..];
      }
      left := left + {p};
      changed := true;
    }

    /** appendRight: the mirror image of AppendLeft. */
    method AppendRight(path: string)
      requires Valid()
      modifies this
      ensures Valid()
      ensures right == old(right) + Added(path)
      ensures changed == (old(changed) || path != "")
      ensures left == old(left) && diff == old(diff)
    {
      if path == "" {
        return;
      }
      var p := path;
      if p[0] == '/' {
        p := p[1..];
      }
      right := right + {p};
      changed := true;
    }

    /**
     * Diff: recomputes the complement when there is none or it is stale,
     * returns it, and always leaves `changed` cleared.
     */
    method Diff() returns (r: map<string, seq<string>>)
      requires Valid()
      modifies this
      ensures Valid()
      ensures IsComplement(r, left, right)
      ensures diff == Some(r) && !changed
      ensures left == old(left) && right == old(right)
      ensures old(diff.Some? && !changed) ==> r == old(diff.value)
      ensures |r[LeftKey]| == |left - right| && |r[RightKey]| == |right - left|
    {
      if diff.None? || changed {
        var lefts := OneSided(left, right);
        var rights := OneSided(right, left);
        diff := Some(map[LeftKey := lefts, RightKey := rights]);
      }
      changed := false;
      r := diff.value;
      ListingSize(r[LeftKey], left - right);
      ListingSize(r[RightKey], right - left);
    }

    /** IsEmpty: true exactly when both sides hold the same paths. */
    method IsEmpty() returns (empty: bool)
      requires Valid()
      modifies this
      ensures Valid() && diff.Some? && !changed
      ensures left == old(left) && right == old(right)
      ensures empty <==> left == right
    {
      var diffs := Diff();
      var l := diffs[LeftKey];
      var r := diffs[RightKey];
      EmptyListing(l, left - right);
      EmptyListing(r, right - left);
      empty := |l| == 0 && |r| == 0;
    }
  }

  /**
   * One of the two loops of Diff(): the elements of `mine` that `theirs`
   * lacks, in the (unspecified) order a Go map iteration visits them.
   */
  method OneSided(mine: set<string>, theirs: set<string>) returns (out: seq<string>)
    ensures Lists(out, mine - theirs)
  {
    out := [];
    var rest := mine;
    while rest != {}
      invariant rest <= mine
      invariant NoDuplicates(out)
      invariant forall x :: x in out <==> x in mine - rest && x !in theirs
      decreases rest
    {
      var x :| x in rest;
      if x !in theirs {
        out := out + [x];
      }
      rest := rest - {x};
    }
  }

  /** A listing is empty exactly when the set it lists is. */
  lemma EmptyListing(s: seq<string>, elems: set<string>)
    requires Lists(s, elems)
    ensures |s| == 0 <==> elems == {}
  {
    if |s| != 0 {
      assert s[0] in elems;
    }
  }

  /** A duplicate-free listing has as many entries as the set has elements. */
  lemma {:induction false} ListingSize(s: seq<string>, elems: set<string>)
    requires Lists(s, elems)
    ensures |s| == |elems|
    decreases |s|
  {
    if s != [] {
      var x := s[|s| - 1];
      var init := s[..|s| - 1];
      assert forall y :: y in init <==> y in elems - {x} by {
        forall y ensures y in init <==> y in elems - {x} {
          if y in init {
            var i :| 0 <= i < |init| && init[i] == y;
            assert s[i] == y && s[|s| - 1] == x;
          }
          if y in elems - {x} {
            assert y in s;
            var i :| 0 <= i < |s| && s[i] == y;
            assert i != |s| - 1;
            assert init[i] == y;
          }
        }
      }
      ListingSize(init, elems - {x});
    }
  }

  /**
   * The `equal` closure of EqualTo: two listings are equal when they hold the
   * same paths, whatever their order and however often each appears.
   */
  method SameElements(a: seq<string>, b: seq<string>) returns (eq: bool)
    ensures eq <==> forall x :: x in a <==> x in b
  {
    var aSet: set<string> := {};
    var bSet: set<string> := {};
    for i := 0 to |a|
      invariant aSet == set k | 0 <= k < i :: a[k]
    {
      aSet := aSet + {a[i]};
    }
    for i := 0 to |b|
      invariant bSet == set k | 0 <= k < i :: b[k]
    {
      bSet := bSet + {b[i]};
    }
    assert forall x :: x in a <==> x in aSet by {
      forall x ensures x in a <==> x in aSet {
        if x in a {
          var k :| 0 <= k < |a| && a[k] == x;
        }
      }
    }
    assert forall x :: x in b <==> x in bSet by {
      forall x ensures x in b <==> x in bSet {
        if x in b {
          var k :| 0 <= k < |b| && b[k] == x;
        }
      }
    }
    var rest := aSet;
    while rest != {}
      invariant rest <= aSet
      invariant aSet - rest <= bSet
      decreases rest
    {
      var x :| x in rest;
      if x !in bSet {
        assert x in a;
        return false;
      }
      rest := rest - {x};
    }
    rest := bSet;
    while rest != {}
      invariant rest <= bSet
      invariant bSet - rest <= aSet
      decreases rest
    {
      var x :| x in rest;
      if x !in aSet {
        assert x in b;
        return false;
      }
      rest := rest - {x};
    }
    return true;
  }

  /** Equality of two diffs as EqualTo defines it: equal complements, side by side. */
  predicate SameComplements(l1: set<string>, r1: set<string>, l2: set<string>, r2: set<string>)
  {
    l1 - r1 == l2 - r2 && r1 - l1 == r2 - l2
  }

  /**
   * EqualTo. A module-level method because Go allows a nil receiver: nil
   * equals nil, a diff never equals nil, and a nil receiver with a non-nil
   * argument dereferences nil, which callers must avoid.
   */
  method EqualTo(d: Diff?, other: Diff?) returns (eq: bool)
    requires d != null ==> d.Valid()
    requires other != null ==> other.Valid()
    requires d != null || other == null
    modifies d, other
    ensures d != null ==> d.Valid() && d.left == old(d.left) && d.right == old(d.right)
    ensures other != null ==> other.Valid() && other.left == old(other.left) && other.right == old(other.right)
    ensures d == null ==> eq
    ensures d != null && other == null ==> !eq
    ensures d != null && other != null ==>
      (eq <==> SameComplements(d.left, d.right, other.left, other.right))
  {
    if d == null && other == null {
      return true;
    }
    if other == null {
      return false;
    }
    ghost var dl, dr := d.left, d.right;
    var mine := d.Diff();
    var theirs := other.Diff();
    assert d.left == dl && d.right == dr && IsComplement(mine, dl, dr);
    SameComplementsFromListings(mine, theirs, dl, dr, other.left, other.right);
    eq := SameSides(mine, theirs);
  }

  /**
   * The loop of EqualTo over the sides of the receiver's complement: every
   * side must list the same paths in both complements.
   */
  method SameSides(mine: map<string, seq<string>>, theirs: map<string, seq<string>>) returns (eq: bool)
    requires mine.Keys == {LeftKey, RightKey} && theirs.Keys == {LeftKey, RightKey}
    ensures eq <==>
      (forall x :: x in mine[LeftKey] <==> x in theirs[LeftKey]) &&
      (forall x :: x in mine[RightKey] <==> x in theirs[RightKey])
  {
    var sides := mine.Keys;
    while sides != {}
      invariant sides <= mine.Keys
      invariant forall side :: side in mine.Keys - sides ==>
        forall x :: x in mine[side] <==> x in theirs[side]
      decreases sides
    {
      var side :| side in sides;
      var same := SameElements(mine[side], theirs[side]);
      if !same {
        return false;
      }
      sides := sides - {side};
    }
    assert LeftKey in mine.Keys - sides && RightKey in mine.Keys - sides;
    return true;
  }

  /**
   * The EqualTo test: two diffs built from the same literal equal each other
   * in both directions.
   */
  method EqualToScenario() returns (leftEqualsRight: bool, rightEqualsLeft: bool)
    ensures leftEqualsRight && rightEqualsLeft
  {
    var l := {"foo/bar.exe", "foo"};
    var r := {"foo/baz.exe", "bar/baz.exe", "foo", "bar"};
    var left := new Diff.Literal(l, r);
    var right := new Diff.Literal(l, r);
    leftEqualsRight := EqualTo(left, right);
    rightEqualsLeft := EqualTo(right, left);
  }

  /** Comparing complements side by side is comparing the listings side by side. */
  lemma SameComplementsFromListings(m1: map<string, seq<string>>, m2: map<string, seq<string>>,
                                    l1: set<string>, r1: set<string>, l2: set<string>, r2: set<string>)
    requires IsComplement(m1, l1, r1) && IsComplement(m2, l2, r2)
    ensures SameComplements(l1, r1, l2, r2) <==>
      (forall x :: x in m1[LeftKey] <==> x in m2[LeftKey]) &&
      (forall x :: x in m1[RightKey] <==> x in m2[RightKey])
  {
  }

  /** Only one leading '/' is dropped: "/q" is stored as q, whatever q is. */
  lemma KeyDropsOneSlash(q: string)
    ensures Added("/" + q) == {q}
  {
    assert ("/" + q)[0] == '/' && ("/" + q)[1..] == q;
  }

  /** "/foo/bar" and "foo/bar" are the same entry; "//foo" is not "foo"; "/" is stored as "". */
  lemma SlashEquivalence(q: string)
    requires q != "" && q[0] != '/'
    ensures Added("/" + q) == Added(q) == {q}
    ensures Added("//" + q) == {"/" + q} != Added(q)
    ensures Added("/") == {""}
  {
    KeyDropsOneSlash(q);
    KeyDropsOneSlash("/" + q);
    assert "//" + q == "/" + ("/" + q);
    assert "/" + q != q by {
      assert |"/" + q| != |q|;
    }
    assert "/" == "/" + "";
    KeyDropsOneSlash("");
  }

  /** The equality EqualTo decides is reflexive, symmetric and transitive. */
  lemma SameComplementsIsEquivalence(l1: set<string>, r1: set<string>, l2: set<string>, r2: set<string>,
                                     l3: set<string>, r3: set<string>)
    ensures SameComplements(l1, r1, l1, r1)
    ensures SameComplements(l1, r1, l2, r2) ==> SameComplements(l2, r2, l1, r1)
    ensures SameComplements(l1, r1, l2, r2) && SameComplements(l2, r2, l3, r3) ==> SameComplements(l1, r1, l3, r3)
  {
  }

  /** The comparison IsEmpty makes: both complements are empty exactly when the sides agree. */
  lemma EmptyComplementIff(l: set<string>, r: set<string>)
    ensures SameComplements(l, r, {}, {}) <==> l == r
  {
    if l - r == {} && r - l == {} {
      assert forall x :: x in l <==> x in r;
    }
  }
}
