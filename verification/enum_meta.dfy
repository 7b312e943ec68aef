/**
 * The helpers the extractor generates inside `refl::meta<E>` for a reflected
 * enum: the ordered enumerator table and `valid`, `to_string`,
 * `to_string_safe` and `from_string` over it.
 */
module EnumMeta {
  import opened Wrappers

  /** One enumerator: its name and its underlying value. */
  datatype Enumerator = Enumerator(name: string, value: int)

  /** Enumerator names are unique in their scope (guaranteed by the host language). */
  predicate DistinctNames(es: seq<Enumerator>)
  {
    forall i, j :: 0 <= i < j < |es| ==> es[i].name != es[j].name
  }

  /** No two enumerators share a value. */
  predicate DistinctValues(es: seq<Enumerator>)
  {
    forall i, j :: 0 <= i < j < |es| ==> es[i].value != es[j].value
  }

  predicate HasValue(es: seq<Enumerator>, v: int)
  {
    exists i :: 0 <= i < |es| && es[i].value == v
  }

  /** `valid(v)`: a loop over the table that returns true at the first enumerator with value `v`. */
  function Valid(es: seq<Enumerator>, v: int): (r: bool)
    ensures r <==> HasValue(es, v)
  {
    if |es| == 0 then false
    else if es[0].value == v then true
    else
      var rest := Valid(es[1..], v);
      assert rest <==> HasValue(es[1..], v);
      assert HasValue(es[1..], v) ==> HasValue(es, v) by {
        if HasValue(es[1..], v) {
          var i :| 0 <= i < |es[1..]| && es[1..][i].value == v;
          assert es[i + 1].value == v;
        }
      }
      rest
  }

  /** Index of the first enumerator whose value is `v`: the case label a `switch (v)` takes. */
  function ValueIndex(es: seq<Enumerator>, v: int): (r: Option<nat>)
    ensures r.Some? ==> r.value < |es| && es[r.value].value == v
    ensures r.Some? ==> forall j :: 0 <= j < r.value ==> es[j].value != v
    ensures r.None? <==> !HasValue(es, v)
  {
    if |es| == 0 then None
    else if es[0].value == v then Some(0)
    else match ValueIndex(es[1..], v)
      case None =>
        assert !HasValue(es, v) by {
          forall i | 0 < i < |es| ensures es[i].value != v {
            assert es[1..][i - 1] == es[i];
          }
        }
        None
      case Some(k) => Some(k + 1)
  }

  /** Index of the first enumerator named `n`. */
  function NameIndex(es: seq<Enumerator>, n: string): (r: Option<nat>)
    ensures r.Some? ==> r.value < |es| && es[r.value].name == n
    ensures r.Some? ==> forall j :: 0 <= j < r.value ==> es[j].name != n
    ensures r.None? ==> forall j :: 0 <= j < |es| ==> es[j].name != n
  {
    if |es| == 0 then None
    else if es[0].name == n then Some(0)
    else match NameIndex(es[1..], n)
      case None =>
        assert forall j :: 0 < j < |es| ==> es[j] == es[1..][j - 1];
        None
      case Some(k) => Some(k + 1)
  }

  /**
   * `to_string(v)`: the name of the enumerator with value `v`. Defined only
   * for valid values; any other value reaches `assert(false)`.
   */
  function ToString(es: seq<Enumerator>, v: int): (r: string)
    requires HasValue(es, v)
    ensures exists i :: 0 <= i < |es| && es[i].value == v && es[i].name == r
  {
    es[ValueIndex(es, v).value].name
  }

  /** `to_string_safe(v)`: the matching name, or the empty string when no enumerator has value `v`. */
  function ToStringSafe(es: seq<Enumerator>, v: int): (r: string)
    ensures HasValue(es, v) ==> r == ToString(es, v)
    ensures !HasValue(es, v) ==> r == ""
  {
    match ValueIndex(es, v)
    case Some(i) => es[i].name
    case None => ""
  }

  /** `from_string(n)`: the value of the first enumerator named `n`, or nullopt. */
  function FromString(es: seq<Enumerator>, n: string): (r: Option<int>)
    ensures r.None? <==> forall j :: 0 <= j < |es| ==> es[j].name != n
    ensures r.Some? ==> exists i :: 0 <= i < |es| && es[i].name == n && es[i].value == r.value
  {
    match NameIndex(es, n)
    case Some(i) => Some(es[i].value)
    case None => None
  }

  /** Every enumerator's name converts back to its value. */
  lemma FromStringOfName(es: seq<Enumerator>, i: nat)
    requires DistinctNames(es) && i < |es|
    ensures FromString(es, es[i].name) == Some(es[i].value)
  {
    var k := NameIndex(es, es[i].name);
    assert k.Some?;
    assert k.value == i;
  }

  /** Names round-trip through values: `from_string(to_string(v)) == v` for every valid `v`. */
  lemma FromStringToString(es: seq<Enumerator>, v: int)
    requires DistinctNames(es) && HasValue(es, v)
    ensures FromString(es, ToString(es, v)) == Some(v)
  {
    var i := ValueIndex(es, v).value;
    FromStringOfName(es, i);
  }

  /** Values round-trip through names when no two enumerators share a value. */
  lemma ToStringFromString(es: seq<Enumerator>, n: string)
    requires DistinctValues(es)
    requires FromString(es, n).Some?
    ensures HasValue(es, FromString(es, n).value)
    ensures ToString(es, FromString(es, n).value) == n
  {
    var k := NameIndex(es, n).value;
    var j := ValueIndex(es, es[k].value).value;
    assert j == k;
  }
}
