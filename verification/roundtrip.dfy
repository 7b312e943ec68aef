/**
 * The round trip of the deserialization example: `main` serializes a
 * record and feeds the text back through `deserialize`. For records whose
 * values the splitter can read back (no vectors, plain value texts without
 * `{`, `}` or `,`, names without `:` or braces, distinct item names), the
 * splitter recovers exactly the written items, and deserializing restores
 * every emitted variable while leaving the others as they were.
 */
module RoundTrip {
  import opened Wrappers
  import opened Text
  import opened Serialization
  import opened Deserialization

  // ---------------------------------------------------------------------------
  // Brace balance
  // ---------------------------------------------------------------------------

  function Delta(c: char): int
  {
    if c == '{' then 1 else if c == '}' then -1 else 0
  }

  /** The nesting level after reading `s` from level `l`. */
  function Level(s: string, l: int): int
  {
    if s == [] then l else Level(s[1..], l + Delta(s[0]))
  }

  /** Reading `s` from level `l` never goes below level 0. */
  predicate Nonneg(s: string, l: int)
  {
    l >= 0 && (s != [] ==> Nonneg(s[1..], l + Delta(s[0])))
  }

  /** As many `}` as `{`, and no prefix closes more than it opened. */
  predicate Balanced(s: string)
  {
    Nonneg(s, 0) && Level(s, 0) == 0
  }

  predicate NoBraces(s: string)
  {
    '{' !in s && '}' !in s
  }

  lemma {:induction false} LevelAppend(a: string, b: string, l: int)
    ensures Level(a + b, l) == Level(b, Level(a, l))
    ensures Nonneg(a, l) && Nonneg(b, Level(a, l)) ==> Nonneg(a + b, l)
  {
    if a == [] {
      assert a + b == b;
    } else {
      assert (a + b)[1..] == a[1..] + b;
      LevelAppend(a[1..], b, l + Delta(a[0]));
    }
  }

  /** Starting higher shifts the walk up and keeps it non-negative. */
  lemma {:induction false} LevelShift(s: string, l: int, d: nat)
    ensures Level(s, l + d) == Level(s, l) + d
    ensures Nonneg(s, l) ==> Nonneg(s, l + d)
  {
    if s != [] {
      LevelShift(s[1..], l + Delta(s[0]), d);
    }
  }

  lemma {:induction false} NoBracesLevel(s: string, l: nat)
    requires NoBraces(s)
    ensures Level(s, l) == l && Nonneg(s, l)
  {
    if s != [] {
      assert forall c :: c in s[1..] ==> c in s;
      NoBracesLevel(s[1..], l);
    }
  }

  lemma NoBracesBalanced(s: string)
    requires NoBraces(s)
    ensures Balanced(s)
  {
    NoBracesLevel(s, 0);
  }

  lemma BalancedAppend(a: string, b: string)
    requires Balanced(a) && Balanced(b)
    ensures Balanced(a + b)
  {
    LevelAppend(a, b, 0);
  }

  lemma BalancedWrap(b: string)
    requires Balanced(b)
    ensures Balanced("{" + b + "}")
  {
    LevelShift(b, 0, 1);
    LevelAppend(b, "}", 1);
    assert ("{" + b + "}")[1..] == b + "}";
  }

  lemma {:induction false} BalancedJoin(xs: seq<string>, sep: string)
    requires forall i :: 0 <= i < |xs| ==> Balanced(xs[i])
    requires Balanced(sep)
    ensures Balanced(Join(xs, sep))
  {
    if xs == [] {
      NoBracesBalanced("");
    } else if |xs| > 1 {
      BalancedJoin(xs[1..], sep);
      BalancedAppend(xs[0], sep);
      BalancedAppend(xs[0] + sep, Join(xs[1..], sep));
    }
  }

  // ---------------------------------------------------------------------------
  // Texts the splitter reads back
  // ---------------------------------------------------------------------------

  /** A leaf text the plain-value scan reads back whole. */
  predicate PlainText(t: string)
  {
    NoBraces(t) && ',' !in t
  }

  /** A name the name scan reads back whole, and which keeps a record's braces balanced. */
  predicate NameOk(n: string)
  {
    NoBraces(n) && ':' !in n
  }

  /** A value text: plain, or a braced text with balanced contents. */
  predicate ValueText(t: string)
  {
    PlainText(t) || (|t| >= 2 && t[0] == '{' && t[|t| - 1] == '}' && Balanced(t[1..|t| - 1]))
  }

  predicate FieldOk(f: Field)
  {
    NameOk(f.name) && ValueText(f.text)
  }

  predicate DistinctNames(fs: seq<Field>)
  {
    forall i, j :: 0 <= i < j < |fs| ==> fs[i].name != fs[j].name
  }

  /** The values whose text reads back: no vectors, plain leaves, and records with well-formed, distinctly named items. */
  predicate WellFormed(x: Value)
    decreases x
  {
    match x
    case Streamable(t) => PlainText(t)
    case Unprintable => true
    case Vector(_) => false
    case Object(ms) => DistinctNames(EmittedFields(ms)) && forall i :: 0 <= i < |ms| ==> MemberWellFormed(ms[i])
  }

  predicate MemberWellFormed(m: Member)
    decreases m
  {
    Emitted(m.v) ==> NameOk(m.v.name) && WellFormed(m.value)
  }

  // ---------------------------------------------------------------------------
  // What the serializer writes reads back
  // ---------------------------------------------------------------------------

  lemma FieldShape(m: Member)
    requires MemberWellFormed(m) && Emitted(m.v)
    ensures FieldOk(FieldOf(m)) && Balanced(FieldText(FieldOf(m)))
    decreases m, 0
  {
    SerializeShape(m.value);
    NoBracesBalanced(m.v.name + ":");
    BalancedAppend(m.v.name + ":", Serialize(m.value));
  }

  lemma {:induction false} FieldsShape(ms: seq<Member>)
    requires forall i :: 0 <= i < |ms| ==> MemberWellFormed(ms[i])
    ensures forall i :: 0 <= i < |EmittedFields(ms)| ==>
      FieldOk(EmittedFields(ms)[i]) && Balanced(FieldText(EmittedFields(ms)[i]))
    decreases ms, 1
  {
    if ms != [] {
      assert forall i :: 0 <= i < |ms[1..]| ==> ms[1..][i] == ms[i + 1];
      FieldsShape(ms[1..]);
      if Emitted(ms[0].v) {
        FieldShape(ms[0]);
      }
    }
  }

  /** A well-formed value writes a value text with balanced braces. */
  lemma SerializeShape(x: Value)
    requires WellFormed(x)
    ensures ValueText(Serialize(x)) && Balanced(Serialize(x))
    decreases x, 2
  {
    match x
    case Streamable(t) =>
      NoBracesBalanced(t);
    case Unprintable =>
      NoBracesBalanced("");
    case Object(ms) =>
      FieldsShape(ms);
      var ts := FieldTexts(EmittedFields(ms));
      NoBracesBalanced(",");
      BalancedJoin(ts, ",");
      var j := Join(ts, ",");
      BalancedWrap(j);
      var t := "{" + j + "}";
      assert t[1..|t| - 1] == j;
  }

  /** The nested-value scan stops at the `}` that closes a balanced stretch. */
  lemma {:induction false} ScanCloseFrom(input: string, j: nat, e: nat, level: int)
    requires j <= e < |input| && input[e] == '}'
    requires Nonneg(input[j..e], level) && Level(input[j..e], level) == 0
    ensures ScanClose(input, j, level) == Ok(e)
    decreases e - j
  {
    if j < e {
      assert input[j..e][1..] == input[j + 1..e];
      ScanCloseFrom(input, j + 1, e, level + Delta(input[j]));
    }
  }

  /** The value scan reads a value text back whole when a `,` or `}` follows it. */
  lemma ValueScan(input: string, p: nat, t: string)
    requires p + |t| < |input| && input[p..p + |t|] == t && IsStop(input[p + |t|])
    requires ValueText(t)
    ensures ValueEnd(input, p) == Ok(p + |t|)
  {
    if PlainText(t) {
      if t != [] {
        assert input[p] == t[0];
      }
      forall j | p <= j < p + |t|
        ensures !IsStop(input[j])
      {
        assert input[j] == t[j - p];
      }
    } else {
      assert input[p] == t[0];
      var e := p + |t| - 1;
      forall k | p + 1 <= k < e
        ensures input[k] == t[k - p]
      {
        assert input[p..p + |t|][k - p] == input[k];
      }
      assert input[p + 1..e] == t[1..|t| - 1];
      assert input[e] == t[|t| - 1];
      ScanCloseFrom(input, p + 1, e, 0);
    }
  }

  /** The name scan stops at the `:` after a name that holds none. */
  lemma NameScan(input: string, front: nat, name: string)
    requires front + |name| < |input| && input[front..front + |name|] == name
    requires ':' !in name && input[front + |name|] == ':'
    ensures FindCharFrom(input, ':', front) == Some(front + |name|)
  {
    forall j | front <= j < front + |name|
      ensures input[j] != ':'
    {
      assert input[j] == name[j - front];
    }
  }

  lemma JoinHead(fs: seq<Field>)
    requires fs != []
    ensures Join(FieldTexts(fs), ",") == FieldText(fs[0]) +
      (if |fs| == 1 then "" else "," + Join(FieldTexts(fs[1..]), ","))
  {
    assert FieldTexts(fs)[1..] == FieldTexts(fs[1..]);
  }

  /** One pass of the pair loop, given where the name scan and the value scan stop. */
  lemma PairAtIs(input: string, front: nat, colon: nat, b: nat)
    requires front <= |input|
    requires FindCharFrom(input, ':', front) == Some(colon)
    requires colon + 1 < |input| && ValueEnd(input, colon + 1) == Ok(b) && b < |input|
    ensures PairAt(input, front) ==
      Ok((Field(input[front..colon], input[colon + 1..b]), if input[b] == ',' then b + 1 else b))
  {
  }

  /** One pair: the name up to its `:`, the value text, and the `,` after it if there is one. */
  lemma PairStep(input: string, front: nat, f: Field, b: nat)
    requires FieldOk(f) && b == front + |FieldText(f)|
    requires b < |input| && input[front..b] == FieldText(f) && IsStop(input[b])
    ensures PairAt(input, front) == Ok((f, if input[b] == ',' then b + 1 else b))
  {
    var s := input[front..b];
    var colon := front + |f.name|;
    var p := colon + 1;
    assert input[front..colon] == s[..|f.name|] == f.name;
    assert input[colon] == s[|f.name|] == ':';
    NameScan(input, front, f.name);
    assert input[p..b] == s[|f.name| + 1..] == f.text;
    ValueScan(input, p, f.text);
    PairAtIs(input, front, colon, b);
  }

  /** A pass that reads a pair, followed by the rest of the loop. */
  lemma PairsFromStep(input: string, front: nat, f: Field, next: nat, rest: seq<Field>)
    requires 0 < |input| && front < |input| - 1
    requires PairAt(input, front) == Ok((f, next))
    requires PairsFrom(input, next) == Ok(rest)
    ensures PairsFrom(input, front) == Ok([f] + rest)
  {
  }

  /** Cutting the text at the end of its first piece. */
  lemma SliceAt(input: string, front: nat, t: string, tail: string)
    requires front <= |input| && input[front..] == t + tail
    ensures front + |t| <= |input|
    ensures input[front..front + |t|] == t && input[front + |t|..] == tail
  {
    assert input[front..][..|t|] == t;
    assert input[front..][|t|..] == tail;
  }

  /** Where the first written item ends, and what follows it: a comma and the rest, or the closing brace. */
  lemma HeadSlices(input: string, front: nat, fs: seq<Field>) returns (b: nat)
    requires front <= |input| && fs != []
    requires input[front..] == Join(FieldTexts(fs), ",") + "}"
    ensures b == front + |FieldText(fs[0])| && b < |input|
    ensures input[front..b] == FieldText(fs[0]) && (input[b] == ',' || input[b] == '}')
    ensures input[b] == ',' <==> |fs| > 1
    ensures input[if input[b] == ',' then b + 1 else b..] == Join(FieldTexts(fs[1..]), ",") + "}"
  {
    var f, rest := fs[0], fs[1..];
    JoinHead(fs);
    var j := Join(FieldTexts(rest), ",");
    var tail := if rest == [] then "}" else "," + j + "}";
    b := front + |FieldText(f)|;
    assert input[front..] == FieldText(f) + tail;
    SliceAt(input, front, FieldText(f), tail);
    assert input[b] == tail[0];
    if rest == [] {
      assert FieldTexts(rest) == [] && j == "";
      assert input[b..] == j + "}";
    } else {
      assert tail == "," + (j + "}");
      SliceAt(input, b, ",", j + "}");
      assert input[b + 1..] == j + "}";
    }
  }

  /** One pair read from the front of the written items: the first item, and where the rest start. */
  lemma FirstItem(input: string, front: nat, fs: seq<Field>) returns (next: nat)
    requires front <= |input| && fs != [] && FieldOk(fs[0])
    requires input[front..] == Join(FieldTexts(fs), ",") + "}"
    ensures 0 < |input| && front < |input| - 1 && next <= |input|
    ensures PairAt(input, front) == Ok((fs[0], next))
    ensures input[next..] == Join(FieldTexts(fs[1..]), ",") + "}"
  {
    var b := HeadSlices(input, front, fs);
    assert |FieldText(fs[0])| > 0;
    PairStep(input, front, fs[0], b);
    next := if input[b] == ',' then b + 1 else b;
  }

  /** The pair loop reads back the items it is given, from any starting point. */
  lemma {:induction false} PairsOfItems(input: string, front: nat, fs: seq<Field>)
    requires front <= |input|
    requires forall i :: 0 <= i < |fs| ==> FieldOk(fs[i])
    requires input[front..] == Join(FieldTexts(fs), ",") + "}"
    ensures PairsFrom(input, front) == Ok(fs)
    decreases |fs|
  {
    if fs == [] {
      assert |input[front..]| == 1;
    } else {
      var next := FirstItem(input, front, fs);
      assert forall i :: 0 <= i < |fs[1..]| ==> fs[1..][i] == fs[i + 1];
      PairsOfItems(input, next, fs[1..]);
      PairsFromStep(input, front, fs[0], next, fs[1..]);
      assert [fs[0]] + fs[1..] == fs;
    }
  }

  /** The splitter recovers exactly the items the serializer wrote, in order. */
  lemma SplitSerialized(ms: seq<Member>)
    requires WellFormed(Object(ms))
    ensures Split(Serialize(Object(ms))) == Ok(EmittedFields(ms))
  {
    var fs := EmittedFields(ms);
    var j := Join(FieldTexts(fs), ",");
    var input := Serialize(Object(ms));
    assert input == "{" + j + "}";
    if fs != [] {
      JoinHead(fs);
      assert |j| > 0;
      FieldsShape(ms);
      assert input[1..] == j + "}";
      PairsOfItems(input, 1, fs);
    }
  }

  // ---------------------------------------------------------------------------
  // Deserializing what was serialized
  // ---------------------------------------------------------------------------

  /** `y` and `x` have the same variables and kinds of value wherever the serializer looks. */
  predicate SameShape(y: Value, x: Value)
    decreases x
  {
    match x
    case Streamable(_) => y.Streamable?
    case Unprintable => y.Unprintable?
    case Vector(_) => y.Vector?
    case Object(xms) =>
      y.Object? && |y.members| == |xms| &&
      forall i :: 0 <= i < |xms| ==> MemberShape(y.members[i], xms[i])
  }

  predicate MemberShape(ym: Member, xm: Member)
    decreases xm
  {
    ym.v == xm.v && (Emitted(xm.v) ==> SameShape(ym.value, xm.value))
  }

  /** `y` with every emitted variable, at every depth, taken from `x`. */
  function Restore(y: Value, x: Value): Value
    decreases x
  {
    match x
    case Streamable(_) => x
    case Unprintable => x
    case Vector(_) => y
    case Object(xms) =>
      if y.Object? && |y.members| == |xms| then Object(RestoreMembers(y.members, xms)) else y
  }

  function RestoreMembers(yms: seq<Member>, xms: seq<Member>): (r: seq<Member>)
    requires |yms| == |xms|
    ensures |r| == |yms|
    decreases xms
  {
    if xms == [] then []
    else [RestoreMember(yms[0], xms[0])] + RestoreMembers(yms[1..], xms[1..])
  }

  function RestoreMember(ym: Member, xm: Member): Member
    decreases xm
  {
    if Emitted(ym.v) then Member(ym.v, Restore(ym.value, xm.value)) else ym
  }

  /** With distinct names, the map built from a record's items gives each emitted variable its own text. */
  lemma TableOfEmitted(ms: seq<Member>, i: nat)
    requires i < |ms| && Emitted(ms[i].v) && DistinctNames(EmittedFields(ms))
    ensures ms[i].v.name in Table(EmittedFields(ms))
    ensures Table(EmittedFields(ms))[ms[i].v.name] == Serialize(ms[i].value)
  {
    var fs := EmittedFields(ms);
    EmittedFieldsMembers(ms, FieldOf(ms[i]));
    var p :| 0 <= p < |fs| && fs[p] == FieldOf(ms[i]);
    TableFirstWins(fs, p);
  }

  /** Deserializing the text of `x` into a value of the same shape restores every emitted variable, without error. */
  lemma RoundTrip(y: Value, x: Value)
    requires SameShape(y, x) && WellFormed(x)
    ensures Deserialize(y, Serialize(x)) == Outcome(Restore(y, x), None)
    decreases x, 2
  {
    match x
    case Streamable(_) =>
    case Unprintable =>
    case Object(xms) =>
      var fs := EmittedFields(xms);
      SplitSerialized(xms);
      forall i | 0 <= i < |xms| && Emitted(xms[i].v)
        ensures xms[i].v.name in Table(fs) && Table(fs)[xms[i].v.name] == Serialize(xms[i].value)
      {
        TableOfEmitted(xms, i);
      }
      AssignRoundTrip(y.members, xms, Table(fs));
  }

  lemma {:induction false} AssignRoundTrip(yms: seq<Member>, xms: seq<Member>, table: map<string, string>)
    requires |yms| == |xms|
    requires forall i :: 0 <= i < |xms| ==> MemberShape(yms[i], xms[i]) && MemberWellFormed(xms[i])
    requires forall i :: 0 <= i < |xms| && Emitted(xms[i].v) ==>
      xms[i].v.name in table && table[xms[i].v.name] == Serialize(xms[i].value)
    ensures AssignMembers(yms, table) == MembersOutcome(RestoreMembers(yms, xms), None)
    decreases xms, 1
  {
    if xms != [] {
      MemberRoundTrip(yms[0], xms[0], table);
      assert forall i :: 0 <= i < |xms| - 1 ==> yms[1..][i] == yms[i + 1] && xms[1..][i] == xms[i + 1];
      AssignRoundTrip(yms[1..], xms[1..], table);
    }
  }

  lemma MemberRoundTrip(ym: Member, xm: Member, table: map<string, string>)
    requires MemberShape(ym, xm) && MemberWellFormed(xm)
    requires Emitted(xm.v) ==> xm.v.name in table && table[xm.v.name] == Serialize(xm.value)
    ensures AssignedValue(ym, table) == Outcome(RestoreMember(ym, xm).value, None)
    decreases xm, 0
  {
    if Emitted(xm.v) {
      RoundTrip(ym.value, xm.value);
    }
  }

  lemma SameShapeSelf(x: Value)
    ensures SameShape(x, x) && Restore(x, x) == x
    decreases x, 1
  {
    match x
    case Streamable(_) =>
    case Unprintable =>
    case Vector(_) =>
    case Object(ms) =>
      forall i | 0 <= i < |ms|
        ensures MemberShape(ms[i], ms[i])
      {
        MemberShapeSelf(ms[i]);
      }
      RestoreMembersSelf(ms);
  }

  lemma MemberShapeSelf(m: Member)
    ensures MemberShape(m, m) && RestoreMember(m, m) == m
    decreases m, 2
  {
    SameShapeSelf(m.value);
  }

  lemma {:induction false} RestoreMembersSelf(ms: seq<Member>)
    ensures RestoreMembers(ms, ms) == ms
    decreases ms, 0
  {
    if ms != [] {
      MemberShapeSelf(ms[0]);
      RestoreMembersSelf(ms[1..]);
    }
  }

  /** `main`'s round trip: deserializing a record from its own text leaves it unchanged and throws nothing. */
  lemma DeserializeSerialized(x: Value)
    requires WellFormed(x)
    ensures Deserialize(x, Serialize(x)) == Outcome(x, None)
  {
    SameShapeSelf(x);
    RoundTrip(x, x);
  }

  /** The restored value writes the same text as `x`: deserializing and serializing again reproduces the input. */
  lemma RestoreSerializes(y: Value, x: Value)
    requires SameShape(y, x) && WellFormed(x)
    ensures Serialize(Restore(y, x)) == Serialize(x)
    decreases x, 2
  {
    match x
    case Streamable(_) =>
    case Unprintable =>
    case Object(xms) =>
      RestoreFields(y.members, xms);
  }

  lemma {:induction false} RestoreFields(yms: seq<Member>, xms: seq<Member>)
    requires |yms| == |xms|
    requires forall i :: 0 <= i < |xms| ==> MemberShape(yms[i], xms[i]) && MemberWellFormed(xms[i])
    ensures EmittedFields(RestoreMembers(yms, xms)) == EmittedFields(xms)
    decreases xms, 1
  {
    if xms != [] {
      RestoreField(yms[0], xms[0]);
      assert forall i :: 0 <= i < |xms| - 1 ==> yms[1..][i] == yms[i + 1] && xms[1..][i] == xms[i + 1];
      RestoreFields(yms[1..], xms[1..]);
      var r := RestoreMembers(yms, xms);
      assert r[0] == RestoreMember(yms[0], xms[0]);
      assert r[1..] == RestoreMembers(yms[1..], xms[1..]);
    }
  }

  lemma RestoreField(ym: Member, xm: Member)
    requires MemberShape(ym, xm) && MemberWellFormed(xm)
    ensures RestoreMember(ym, xm).v == xm.v
    ensures Emitted(xm.v) ==> FieldOf(RestoreMember(ym, xm)) == FieldOf(xm)
    decreases xm, 0
  {
    if Emitted(xm.v) {
      RestoreSerializes(ym.value, xm.value);
    }
  }

  /** A variable the serializer skips keeps the value it had before deserializing. */
  lemma {:induction false} RestoreKeepsOthers(yms: seq<Member>, xms: seq<Member>, i: nat)
    requires |yms| == |xms| && i < |yms| && !Emitted(yms[i].v)
    ensures RestoreMembers(yms, xms)[i] == yms[i]
    decreases xms
  {
    if i > 0 {
      RestoreKeepsOthers(yms[1..], xms[1..], i - 1);
    }
  }
}
