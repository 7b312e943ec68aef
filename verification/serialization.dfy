/**
 * The serializer of the serialization example: a reflected record becomes
 * `{name:value,...}` over its instance variables that carry no `skip_ser`
 * tag, a vector becomes `[a,b,...]`, a streamable value is written by its
 * own `operator<<`, and anything else writes nothing.
 *
 * A value is modelled together with the variable descriptors of its
 * record, so that the serializer sees what `for_each_variable<M>` hands
 * it: each variable's name, pointer kind and tags, in declaration order.
 */
module Serialization {
  import opened Text
  import Refl

  /** The tag type `skip_ser`: a variable tagged with it is not written. */
  const SkipSer: Refl.Type := Refl.Named("skip_ser")

  /** A value as the serializer dispatches on it. */
  datatype Value =
    | Streamable(text: string)       // `os << t` is available; `text` is what it writes
    | Unprintable                    // neither reflected nor streamable: the base case writes nothing
    | Vector(elems: seq<Value>)      // std::vector<T>
    | Object(members: seq<Member>)   // a reflected record

  /** One entry of a record's variable list, with the member's current value (unused for statics). */
  datatype Member = Member(v: Refl.Var, value: Value)

  /** A written `name:value` item. */
  datatype Field = Field(name: string, text: string)

  /** The filter of the record serializer: instance variables without a `skip_ser` tag. */
  predicate Emitted(v: Refl.Var)
  {
    Refl.VarIsInstance(v) && !Refl.HasTag(v.tags, SkipSer)
  }

  function FieldText(f: Field): string
  {
    f.name + ":" + f.text
  }

  function FieldTexts(fs: seq<Field>): (r: seq<string>)
    ensures |r| == |fs| && forall i :: 0 <= i < |fs| ==> r[i] == FieldText(fs[i])
  {
    seq(|fs|, i requires 0 <= i < |fs| => FieldText(fs[i]))
  }

  /** The text the serializer writes for a value. */
  function Serialize(x: Value): (r: string)
    ensures x.Unprintable? ==> r == ""
    ensures x.Vector? ==> |r| >= 2 && r[0] == '[' && r[|r| - 1] == ']'
    ensures x.Object? ==> |r| >= 2 && r[0] == '{' && r[|r| - 1] == '}'
    decreases x
  {
    match x
    case Streamable(t) => t
    case Unprintable => ""
    case Vector(es) => "[" + Join(seq(|es|, i requires 0 <= i < |es| => Serialize(es[i])), ",") + "]"
    case Object(ms) => "{" + Join(FieldTexts(EmittedFields(ms)), ",") + "}"
  }

  /** The item an emitted variable writes. */
  function FieldOf(m: Member): Field
    decreases m
  {
    Field(m.v.name, Serialize(m.value))
  }

  /** The items a record writes: one per emitted variable, in the order of the variable list. */
  function EmittedFields(ms: seq<Member>): (fs: seq<Field>)
    decreases ms
  {
    if ms == [] then []
    else
      (if Emitted(ms[0].v) then [FieldOf(ms[0])] else []) + EmittedFields(ms[1..])
  }

  // ---------------------------------------------------------------------------
  // What the record serializer writes
  // ---------------------------------------------------------------------------

  /** An item is written iff it comes from an emitted variable: statics and `skip_ser` variables never appear. */
  lemma {:induction false} EmittedFieldsMembers(ms: seq<Member>, f: Field)
    ensures f in EmittedFields(ms) <==>
      exists i :: 0 <= i < |ms| && Emitted(ms[i].v) && f == FieldOf(ms[i])
  {
    if ms != [] {
      EmittedFieldsMembers(ms[1..], f);
      var h := if Emitted(ms[0].v) then [FieldOf(ms[0])] else [];
      assert EmittedFields(ms) == h + EmittedFields(ms[1..]);
      if f in EmittedFields(ms[1..]) {
        var i :| 0 <= i < |ms[1..]| && Emitted(ms[1..][i].v) && f == FieldOf(ms[1..][i]);
        assert ms[i + 1] == ms[1..][i];
      }
      if exists i :: 0 <= i < |ms| && Emitted(ms[i].v) && f == FieldOf(ms[i]) {
        var i :| 0 <= i < |ms| && Emitted(ms[i].v) && f == FieldOf(ms[i]);
        if i > 0 {
          assert ms[1..][i - 1] == ms[i];
        }
      }
    }
  }

  /** The items of a concatenated variable list are the items of each part, in order. */
  lemma {:induction false} EmittedFieldsAppend(a: seq<Member>, b: seq<Member>)
    ensures EmittedFields(a + b) == EmittedFields(a) + EmittedFields(b)
  {
    if a == [] {
      assert a + b == b;
    } else {
      var ab := a + b;
      assert ab[0] == a[0];
      assert ab[1..] == a[1..] + b;
      EmittedFieldsAppend(a[1..], b);
      var h := if Emitted(a[0].v) then [FieldOf(a[0])] else [];
      assert EmittedFields(ab) == h + EmittedFields(ab[1..]);
      assert EmittedFields(a) == h + EmittedFields(a[1..]);
    }
  }

  /** Appending one variable appends its item exactly when it is emitted. */
  lemma EmittedFieldsSnoc(ms: seq<Member>, m: Member)
    ensures EmittedFields(ms + [m]) ==
      EmittedFields(ms) + (if Emitted(m.v) then [FieldOf(m)] else [])
  {
    EmittedFieldsAppend(ms, [m]);
    assert [m][1..] == [];
  }

  /** Items appear in the order of the variable list. */
  lemma EmittedFieldsOrder(ms: seq<Member>, i: nat, j: nat)
    requires i < j < |ms| && Emitted(ms[i].v) && Emitted(ms[j].v)
    ensures exists p, q :: (0 <= p < q < |EmittedFields(ms)| &&
      EmittedFields(ms)[p] == FieldOf(ms[i]) && EmittedFields(ms)[q] == FieldOf(ms[j]))
  {
    var pre, post := ms[..j], ms[j..];
    assert ms == pre + post;
    EmittedFieldsAppend(pre, post);
    assert post == [ms[j]] + post[1..];
    EmittedFieldsAppend([ms[j]], post[1..]);
    assert [ms[j]][1..] == [];
    var fi := FieldOf(ms[i]);
    EmittedFieldsMembers(pre, fi);
    assert pre[i] == ms[i];
    var p :| 0 <= p < |EmittedFields(pre)| && EmittedFields(pre)[p] == fi;
    var q := |EmittedFields(pre)|;
    assert EmittedFields(ms)[p] == fi;
    assert EmittedFields(ms)[q] == FieldOf(ms[j]);
  }

  /** A record with no emitted variable writes `{}`; an empty vector writes `[]`. */
  lemma EmptyShapes(ms: seq<Member>)
    requires forall i :: 0 <= i < |ms| ==> !Emitted(ms[i].v)
    ensures Serialize(Object(ms)) == "{}"
    ensures Serialize(Vector([])) == "[]"
  {
    EmptyFields(ms);
  }

  lemma {:induction false} EmptyFields(ms: seq<Member>)
    requires forall i :: 0 <= i < |ms| ==> !Emitted(ms[i].v)
    ensures EmittedFields(ms) == []
  {
    if ms != [] {
      EmptyFields(ms[1..]);
    }
  }

  /**
   * Separators only between items: a record with `n` items writes its
   * braces, the items, and exactly `n - 1` commas.
   */
  lemma ObjectLength(ms: seq<Member>)
    ensures var ts := FieldTexts(EmittedFields(ms));
      |Serialize(Object(ms))| == 2 + TotalLength(ts) + (if ts == [] then 0 else |ts| - 1)
    ensures var ts := FieldTexts(EmittedFields(ms));
      ts != [] ==> StartsWith(Serialize(Object(ms)), "{" + ts[0]) && EndsWith(Serialize(Object(ms)), ts[|ts| - 1] + "}")
  {
    var ts := FieldTexts(EmittedFields(ms));
    JoinLength(ts, ",");
    if ts != [] {
      JoinEnds(ts, ",");
      BracedEnds(Join(ts, ","), ts[0], ts[|ts| - 1]);
    }
  }

  lemma BracedEnds(j: string, first: string, last: string)
    requires StartsWith(j, first) && EndsWith(j, last)
    ensures StartsWith("{" + j + "}", "{" + first) && EndsWith("{" + j + "}", last + "}")
  {
    var s := "{" + j + "}";
    assert s[..|first| + 1] == "{" + j[..|first|];
    assert s[|s| - |last| - 1..] == j[|j| - |last|..] + "}";
  }

  // ---------------------------------------------------------------------------
  // The serializer as it writes to the stream
  // ---------------------------------------------------------------------------

  /** The output stream: what has been written so far. */
  class OStream {
    var text: string

    constructor()
      ensures text == ""
    {
      text := "";
    }

    method Write(s: string)
      modifies this
      ensures text == old(text) + s
    {
      text := text + s;
    }
  }

  lemma FieldTextsSnoc(fs: seq<Field>, f: Field)
    ensures FieldTexts(fs + [f]) == FieldTexts(fs) + [FieldText(f)]
  {
  }

  /** `Serializer<T>::serialize(t, os)`: the base case, or the vector or reflected-record specialisation. */
  method SerializeTo(x: Value, os: OStream)
    modifies os
    ensures os.text == old(os.text) + Serialize(x)
    decreases x, 1
  {
    match x
    case Streamable(t) =>
      os.Write(t);
    case Unprintable =>
    case Vector(es) =>
      SerializeVectorTo(es, os);
    case Object(ms) =>
      SerializeObjectTo(ms, os);
  }

  /** `Serializer<std::vector<T>>::serialize`: `[`, the elements with `,` between them, `]`. */
  method SerializeVectorTo(es: seq<Value>, os: OStream)
    modifies os
    ensures os.text == old(os.text) + Serialize(Vector(es))
    decreases es, 1
  {
    os.Write("[");
    WriteElements(es, os);
    os.Write("]");
  }

  /** The element loop of the vector `serialize`: a `,` before every element but the first. */
  method WriteElements(es: seq<Value>, os: OStream)
    modifies os
    ensures os.text == old(os.text) + Join(seq(|es|, i requires 0 <= i < |es| => Serialize(es[i])), ",")
    decreases es, 0
  {
    ghost var texts := seq(|es|, i requires 0 <= i < |es| => Serialize(es[i]));
    var f: nat := 0;
    for k := 0 to |es|
      invariant f == k
      invariant os.text == old(os.text) + Join(texts[..k], ",")
    {
      JoinPrefixStep(texts, k);
      assert texts[k] == Serialize(es[k]);
      if f != 0 {
        os.Write(",");
      }
      f := f + 1;
      SerializeTo(es[k], os);
    }
    assert texts[..|es|] == texts;
  }

  /** One more element extends the join of a prefix by a separator (unless it is the first) and the element. */
  lemma JoinPrefixStep(texts: seq<string>, k: nat)
    requires k < |texts|
    ensures Join(texts[..k + 1], ",") == Join(texts[..k], ",") + (if k == 0 then "" else ",") + texts[k]
  {
    assert texts[..k + 1] == texts[..k] + [texts[k]];
    JoinAppend(texts[..k], texts[k], ",");
  }

  /** The reflected-record `serialize`: `{`, the visitor over the variable list, `}`. */
  method SerializeObjectTo(ms: seq<Member>, os: OStream)
    modifies os
    ensures os.text == old(os.text) + Serialize(Object(ms))
    decreases ms, 1
  {
    os.Write("{");
    WriteItems(ms, os);
    os.Write("}");
  }

  /** The `for_each_variable` pass of `serialize`: the visitor applied to each variable in order. */
  method WriteItems(ms: seq<Member>, os: OStream)
    modifies os
    ensures os.text == old(os.text) + Join(FieldTexts(EmittedFields(ms)), ",")
    decreases ms, 0
  {
    var f: nat := 0;
    for k := 0 to |ms|
      invariant f == |EmittedFields(ms[..k])|
      invariant os.text == old(os.text) + Join(FieldTexts(EmittedFields(ms[..k])), ",")
    {
      ObjectStep(ms, k);
      f := VisitVariable(ms[k], f, os);
    }
    assert ms[..|ms|] == ms;
  }

  /** One more variable extends the written items by what its visitor writes. */
  lemma ObjectStep(ms: seq<Member>, k: nat)
    requires k < |ms|
    ensures |EmittedFields(ms[..k + 1])| == |EmittedFields(ms[..k])| + (if Emitted(ms[k].v) then 1 else 0)
    ensures Join(FieldTexts(EmittedFields(ms[..k + 1])), ",") ==
      Join(FieldTexts(EmittedFields(ms[..k])), ",") +
      (if Emitted(ms[k].v) then (if EmittedFields(ms[..k]) == [] then "" else ",") + FieldText(FieldOf(ms[k])) else "")
  {
    assert ms[..k + 1] == ms[..k] + [ms[k]];
    EmittedFieldsSnoc(ms[..k], ms[k]);
    var done := EmittedFields(ms[..k]);
    if Emitted(ms[k].v) {
      FieldTextsSnoc(done, FieldOf(ms[k]));
      JoinAppend(FieldTexts(done), FieldText(FieldOf(ms[k])), ",");
    } else {
      assert EmittedFields(ms[..k + 1]) == done;
    }
  }

  /**
   * The visitor `for_each_variable` calls for one variable: an emitted
   * variable writes `,` unless it is the first item, then `name:` and its
   * value; `f` counts the items written so far.
   */
  method VisitVariable(m: Member, f: nat, os: OStream) returns (f': nat)
    modifies os
    ensures f' == if Emitted(m.v) then f + 1 else f
    ensures os.text == old(os.text) +
      (if Emitted(m.v) then (if f == 0 then "" else ",") + FieldText(FieldOf(m)) else "")
    decreases m
  {
    f' := f;
    if Emitted(m.v) {
      if f' != 0 {
        os.Write(",");
      }
      f' := f' + 1;
      os.Write(m.v.name + ":");
      SerializeTo(m.value, os);
    }
  }
}
