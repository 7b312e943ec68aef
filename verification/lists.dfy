/**
 * Filtering a list while mapping what is kept: the shape of every member
 * list the extractor builds, with the facts its loops and rules rely on.
 */
module Lists {
  /** The elements satisfying `keep`, each mapped by `f`, in order. */
  function FilterMap<X, Y>(xs: seq<X>, keep: X -> bool, f: X -> Y): (r: seq<Y>)
    ensures |r| <= |xs|
  {
    if xs == [] then []
    else (if keep(xs[0]) then [f(xs[0])] else []) + FilterMap(xs[1..], keep, f)
  }

  /** Nothing is kept when `keep` rejects every element. */
  lemma {:induction false} FilterMapNone<X, Y>(xs: seq<X>, keep: X -> bool, f: X -> Y)
    requires forall i :: 0 <= i < |xs| ==> !keep(xs[i])
    ensures FilterMap(xs, keep, f) == []
  {
    if xs != [] {
      FilterMapNone(xs[1..], keep, f);
    }
  }

  lemma {:induction false} FilterMapAppend<X, Y>(xs: seq<X>, ys: seq<X>, keep: X -> bool, f: X -> Y)
    ensures FilterMap(xs + ys, keep, f) == FilterMap(xs, keep, f) + FilterMap(ys, keep, f)
  {
    if xs == [] {
      assert xs + ys == ys;
    } else {
      var zs := xs + ys;
      assert zs[0] == xs[0];
      assert zs[1..] == xs[1..] + ys;
      FilterMapAppend(xs[1..], ys, keep, f);
      var h := if keep(xs[0]) then [f(xs[0])] else [];
      assert FilterMap(zs, keep, f) == h + FilterMap(zs[1..], keep, f);
      assert FilterMap(xs, keep, f) == h + FilterMap(xs[1..], keep, f);
    }
  }

  /** One more element adds its image at the end, when `keep` accepts it. */
  lemma FilterMapSnoc<X, Y>(xs: seq<X>, x: X, keep: X -> bool, f: X -> Y)
    ensures FilterMap(xs + [x], keep, f) == FilterMap(xs, keep, f) + (if keep(x) then [f(x)] else [])
  {
    FilterMapAppend(xs, [x], keep, f);
    assert [x][1..] == [];
    assert FilterMap([x], keep, f) == (if keep(x) then [f(x)] else []) + FilterMap([], keep, f);
  }

  lemma {:induction false} FilterMapMembers<X, Y>(xs: seq<X>, keep: X -> bool, f: X -> Y, y: Y)
    ensures y in FilterMap(xs, keep, f) <==> exists i :: 0 <= i < |xs| && keep(xs[i]) && y == f(xs[i])
  {
    if xs != [] {
      FilterMapMembers(xs[1..], keep, f, y);
      assert FilterMap(xs, keep, f) == (if keep(xs[0]) then [f(xs[0])] else []) + FilterMap(xs[1..], keep, f);
      if y in FilterMap(xs[1..], keep, f) {
        var i :| 0 <= i < |xs[1..]| && keep(xs[1..][i]) && y == f(xs[1..][i]);
        assert xs[i + 1] == xs[1..][i];
      }
      if exists i :: 0 <= i < |xs| && keep(xs[i]) && y == f(xs[i]) {
        var i :| 0 <= i < |xs| && keep(xs[i]) && y == f(xs[i]);
        if i > 0 {
          assert xs[1..][i - 1] == xs[i];
        }
      }
    }
  }

  /** Dropping an element `keep` rejects from between two parts changes nothing. */
  lemma FilterMapDrop<X, Y>(pre: seq<X>, x: X, post: seq<X>, keep: X -> bool, f: X -> Y)
    requires !keep(x)
    ensures FilterMap(pre + [x] + post, keep, f) == FilterMap(pre + post, keep, f)
  {
    FilterMapAppend(pre + [x], post, keep, f);
    FilterMapSnoc(pre, x, keep, f);
    FilterMapAppend(pre, post, keep, f);
  }

  /** An element `keep` rejects can be removed without changing the result. */
  lemma FilterMapSkips<X, Y>(xs: seq<X>, i: nat, keep: X -> bool, f: X -> Y)
    requires i < |xs| && !keep(xs[i])
    ensures FilterMap(xs[..i] + xs[i + 1..], keep, f) == FilterMap(xs, keep, f)
  {
    assert xs == xs[..i] + [xs[i]] + xs[i + 1..];
    FilterMapDrop(xs[..i], xs[i], xs[i + 1..], keep, f);
  }
}
