/**
 * The string operations the extractor and the codecs rely on, written once:
 * prefix and suffix tests (std::string_view::starts_with / ends_with),
 * joining with a separator, and searches for a character or a substring.
 */
module Text {
  import opened Wrappers

  predicate StartsWith(s: string, prefix: string)
  {
    |prefix| <= |s| && s[..|prefix|] == prefix
  }

  predicate EndsWith(s: string, suffix: string)
  {
    |suffix| <= |s| && s[|s| - |suffix|..] == suffix
  }

  /** The elements of `xs` with `sep` between each two neighbours, none leading or trailing. */
  function Join(xs: seq<string>, sep: string): string
  {
    if |xs| == 0 then ""
    else if |xs| == 1 then xs[0]
    else xs[0] + sep + Join(xs[1..], sep)
  }

  lemma {:induction false} JoinAppend(xs: seq<string>, x: string, sep: string)
    ensures Join(xs + [x], sep) == if xs == [] then x else Join(xs, sep) + sep + x
  {
    if |xs| == 0 {
      assert xs + [x] == [x];
    } else if |xs| == 1 {
      assert xs + [x] == [xs[0], x];
      assert (xs + [x])[1..] == [x];
    } else {
      assert (xs + [x])[1..] == xs[1..] + [x];
      JoinAppend(xs[1..], x, sep);
    }
  }

  /** A separator character occurs in the join only where it occurs in an element or as a separator. */
  lemma {:induction false} JoinNoChar(xs: seq<string>, sep: string, c: char)
    requires forall i :: 0 <= i < |xs| ==> c !in xs[i]
    requires c !in sep
    ensures c !in Join(xs, sep)
  {
    if |xs| > 1 {
      JoinNoChar(xs[1..], sep, c);
    }
  }

  function TotalLength(xs: seq<string>): nat
  {
    if xs == [] then 0 else |xs[0]| + TotalLength(xs[1..])
  }

  /** A join holds every element once and a separator between each two neighbours, and nothing else. */
  lemma {:induction false} JoinLength(xs: seq<string>, sep: string)
    ensures |Join(xs, sep)| == TotalLength(xs) + (if xs == [] then 0 else (|xs| - 1) * |sep|)
  {
    if |xs| == 1 {
      assert xs[1..] == [];
    } else if |xs| > 1 {
      JoinLength(xs[1..], sep);
      assert (|xs| - 1) * |sep| == (|xs| - 2) * |sep| + |sep|;
    }
  }

  /** A non-empty join starts with the first element and ends with the last. */
  lemma {:induction false} JoinEnds(xs: seq<string>, sep: string)
    requires xs != []
    ensures StartsWith(Join(xs, sep), xs[0])
    ensures EndsWith(Join(xs, sep), xs[|xs| - 1])
  {
    if |xs| > 1 {
      JoinEnds(xs[1..], sep);
      var j := Join(xs[1..], sep);
      var l := xs[|xs| - 1];
      assert Join(xs, sep) == xs[0] + sep + j;
      assert (xs[0] + sep + j)[..|xs[0]|] == xs[0];
      assert l == xs[1..][|xs[1..]| - 1];
      assert j[|j| - |l|..] == l;
      assert (xs[0] + sep + j)[|xs[0] + sep + j| - |l|..] == j[|j| - |l|..];
    }
  }

  /** Index of the first occurrence of `c` in `s` at or after `from`. */
  function FindCharFrom(s: string, c: char, from: nat): (r: Option<nat>)
    requires from <= |s|
    ensures r.Some? ==> from <= r.value < |s| && s[r.value] == c
    ensures r.Some? ==> forall j :: from <= j < r.value ==> s[j] != c
    ensures r.None? ==> forall j :: from <= j < |s| ==> s[j] != c
    decreases |s| - from
  {
    if from == |s| then None
    else if s[from] == c then Some(from)
    else FindCharFrom(s, c, from + 1)
  }

  /** Index of the last occurrence of `c` in `s[..upto]`. */
  function FindCharLast(s: string, c: char, upto: nat): (r: Option<nat>)
    requires upto <= |s|
    ensures r.Some? ==> r.value < upto && s[r.value] == c
    ensures r.Some? ==> forall j :: r.value < j < upto ==> s[j] != c
    ensures r.None? ==> forall j :: 0 <= j < upto ==> s[j] != c
  {
    if upto == 0 then None
    else if s[upto - 1] == c then Some(upto - 1)
    else FindCharLast(s, c, upto - 1)
  }

  predicate OccursAt(s: string, pat: string, i: nat)
  {
    i + |pat| <= |s| && s[i..i + |pat|] == pat
  }

  /** Index of the first occurrence of the substring `pat` in `s` at or after `from`. */
  function FindSubFrom(s: string, pat: string, from: nat): (r: Option<nat>)
    requires from <= |s|
    ensures r.Some? ==> from <= r.value && OccursAt(s, pat, r.value)
    ensures r.Some? ==> forall j :: from <= j < r.value ==> !OccursAt(s, pat, j)
    ensures r.None? ==> forall j :: from <= j <= |s| ==> !OccursAt(s, pat, j)
    decreases |s| - from
  {
    if OccursAt(s, pat, from) then Some(from)
    else if from == |s| then None
    else FindSubFrom(s, pat, from + 1)
  }

  /** `s` with its first occurrence of `pat` (if any) replaced by `rep` (std::string::find then replace). */
  function ReplaceFirst(s: string, pat: string, rep: string): (r: string)
    ensures FindSubFrom(s, pat, 0).None? ==> r == s
    ensures FindSubFrom(s, pat, 0).Some? ==>
      var i := FindSubFrom(s, pat, 0).value;
      r == s[..i] + rep + s[i + |pat|..] && forall j :: 0 <= j < i ==> !OccursAt(s, pat, j)
  {
    match FindSubFrom(s, pat, 0)
    case None => s
    case Some(i) => s[..i] + rep + s[i + |pat|..]
  }
}
