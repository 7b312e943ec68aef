/**
 * The descriptor extractor of the compiler plugin. A reflected record or
 * enum, as the compiler front end presents it (members, access levels,
 * qualifiers, parameter type strings and the source text of each
 * attribute), is turned into the descriptor the runtime consumes. The
 * descriptor is kept structured here; the names, full names and member
 * tag payloads in it are the exact text the plugin writes, while the
 * constructor tags follow the corrected loop (`ConstructorTags`).
 */
module Extractor {
  import Wrappers
  import opened Text
  import opened Lists
  import Refl
  import EnumMeta
  import Attributes

  /** What the reflection directives on one declaration ask for. */
  datatype ReflSpec = All | None | Include | Exclude | Tag | Unknown

  /** An attribute on a declaration: its spelling (`annotate`, `deprecated`, ...) and its source text. */
  datatype Attribute = Attribute(spelling: string, text: string)

  /** An attribute that settles the spec: an annotation whose text is a tag, or a `refl::` directive with a known suffix. */
  predicate Decides(a: Attribute)
  {
    a.spelling == "annotate" &&
    (StartsWith(a.text, "refl_") ||
     (StartsWith(a.text, "refl::") &&
      (EndsWith(a.text, "all") || EndsWith(a.text, "none") ||
       EndsWith(a.text, "include") || EndsWith(a.text, "exclude"))))
  }

  /** The spec a deciding attribute gives; the suffixes are tried in the order all, none, include, exclude. */
  function Classify(a: Attribute): (r: ReflSpec)
    requires Decides(a)
    ensures r != Unknown
    ensures r == Tag <==> StartsWith(a.text, "refl_")
    ensures r == All <==> !StartsWith(a.text, "refl_") && EndsWith(a.text, "all")
    ensures r == None <==> !StartsWith(a.text, "refl_") && !EndsWith(a.text, "all") && EndsWith(a.text, "none")
    ensures r == Include <==>
      !StartsWith(a.text, "refl_") && !EndsWith(a.text, "all") && !EndsWith(a.text, "none") && EndsWith(a.text, "include")
    ensures r == Exclude <==>
      !StartsWith(a.text, "refl_") && !EndsWith(a.text, "all") && !EndsWith(a.text, "none") &&
      !EndsWith(a.text, "include") && EndsWith(a.text, "exclude")
  {
    if StartsWith(a.text, "refl_") then Tag
    else if EndsWith(a.text, "all") then All
    else if EndsWith(a.text, "none") then None
    else if EndsWith(a.text, "include") then Include
    else Exclude
  }

  /** The spec of a declaration: the classification of its first deciding attribute, `Unknown` without one. */
  function SpecOf(attrs: seq<Attribute>): (r: ReflSpec)
  {
    if attrs == [] then Unknown
    else if Decides(attrs[0]) then Classify(attrs[0])
    else SpecOf(attrs[1..])
  }

  /** The spec is `Unknown` exactly when no attribute decides; otherwise the first deciding attribute gives it. */
  lemma {:induction false} SpecOfFirstDeciding(attrs: seq<Attribute>)
    ensures SpecOf(attrs) == Unknown <==> forall i :: 0 <= i < |attrs| ==> !Decides(attrs[i])
    ensures SpecOf(attrs) != Unknown ==>
      exists i :: 0 <= i < |attrs| && Decides(attrs[i]) && SpecOf(attrs) == Classify(attrs[i]) &&
        forall j :: 0 <= j < i ==> !Decides(attrs[j])
  {
    if attrs != [] && !Decides(attrs[0]) {
      SpecOfFirstDeciding(attrs[1..]);
      if SpecOf(attrs) != Unknown {
        var i :| 0 <= i < |attrs[1..]| && Decides(attrs[1..][i]) && SpecOf(attrs[1..]) == Classify(attrs[1..][i]) &&
          forall j :: 0 <= j < i ==> !Decides(attrs[1..][j]);
        assert Decides(attrs[i + 1]) && forall j :: 0 <= j < i + 1 ==> !Decides(attrs[j]);
      }
    }
  }

  /** `getReflSpec`: the attributes are scanned in order and the first deciding one returns. */
  method GetReflSpec(attrs: seq<Attribute>) returns (spec: ReflSpec)
    ensures spec == SpecOf(attrs)
  {
    for i := 0 to |attrs|
      invariant SpecOf(attrs[i..]) == SpecOf(attrs)
    {
      assert attrs[i..][1..] == attrs[i + 1..];
      var a := attrs[i];
      if a.spelling == "annotate" {
        var s := a.text;
        if StartsWith(s, "refl_") {
          return Tag;
        }
        if StartsWith(s, "refl::") {
          if EndsWith(s, "all") {
            return All;
          } else if EndsWith(s, "none") {
            return None;
          } else if EndsWith(s, "include") {
            return Include;
          } else if EndsWith(s, "exclude") {
            return Exclude;
          }
        }
      }
    }
    assert attrs[|attrs|..] == [];
    return Unknown;
  }

  /** The directive rule for methods, fields and constructors: exclude always wins; a `none` record needs include or a tag. */
  predicate Included(record: ReflSpec, member: ReflSpec)
  {
    member != Exclude && (record != None || member == Include || member == Tag)
  }

  /** The rule for static data members, as the static-member callback writes it. */
  predicate StaticIncluded(record: ReflSpec, member: ReflSpec)
  {
    (record != Unknown && (member == Include || member == Tag)) || (record == All && member != Exclude)
  }

  /** For the two record specs the matcher reflects, the static rule accepts exactly what the member rule accepts. */
  lemma StaticRuleAgrees(record: ReflSpec, member: ReflSpec)
    requires record == All || record == None
    ensures StaticIncluded(record, member) <==> Included(record, member)
  {
  }

  /** A record with no directive of its own (never matched in practice) would keep no static member, though its other members pass unless excluded. */
  lemma StaticRuleWithoutRecordSpec(member: ReflSpec)
    ensures !StaticIncluded(Unknown, member)
    ensures Included(Unknown, member) <==> member != Exclude
  {
  }

  // ---------------------------------------------------------------------------
  // Declarations as the front end presents them
  // ---------------------------------------------------------------------------

  /** A parameter: its type as `getAsString` spells it, and its name. */
  datatype Param = Param(typeName: string, name: string)

  datatype RefQualifier = NoRef | LValueRef | RValueRef

  datatype MethodKind = Ordinary | Constructor | Destructor

  datatype MethodDecl = MethodDecl(
    kind: MethodKind,
    name: string,
    qualifiedName: string,
    returnType: string,
    params: seq<Param>,
    qualifiers: string,
    refQualifier: RefQualifier,
    access: Refl.Access,
    isVirtual: bool,
    isInstance: bool,
    isImplicit: bool,
    isDeleted: bool,
    attrs: seq<Attribute>)

  datatype FieldDecl = FieldDecl(name: string, qualifiedName: string, access: Refl.Access, isMutable: bool, attrs: seq<Attribute>)

  datatype StaticDecl = StaticDecl(name: string, qualifiedName: string, access: Refl.Access, attrs: seq<Attribute>)

  datatype BaseDecl = BaseDecl(typeName: string, access: Refl.Access)

  /** A record: its location (the key of the `unique` set), names, attributes, bases and members in declaration order. */
  datatype RecordDecl = RecordDecl(
    location: nat,
    name: string,
    qualifiedName: string,
    attrs: seq<Attribute>,
    bases: seq<BaseDecl>,
    methods: seq<MethodDecl>,
    fields: seq<FieldDecl>,
    statics: seq<StaticDecl>)

  datatype EnumDecl = EnumDecl(name: string, qualifiedName: string, enumerators: seq<EnumMeta.Enumerator>)

  // ---------------------------------------------------------------------------
  // The descriptor
  // ---------------------------------------------------------------------------

  datatype FuncEntry = FuncEntry(
    isInstance: bool,
    returnType: string,
    name: string,
    qualifiedName: string,
    fullName: string,
    isVirtual: bool,
    access: Refl.Access,
    paramTypes: seq<string>,
    paramNames: seq<string>,
    tags: seq<string>)

  /**
   * A variable entry. `isInstance` is what the written pointer tells the
   * runtime: `&S::x` names a data-member pointer for a field and a plain
   * pointer for a static member.
   */
  datatype VarEntry = VarEntry(
    isInstance: bool,
    name: string,
    qualifiedName: string,
    isMutable: bool,
    access: Refl.Access,
    tags: seq<string>)

  datatype ConstrEntry = ConstrEntry(name: string, paramTypes: seq<string>, paramNames: seq<string>, tags: seq<string>)

  datatype BaseEntry = BaseEntry(typeName: string, access: Refl.Access)

  datatype RecordEntry = RecordEntry(
    name: string,
    qualifiedName: string,
    bases: seq<BaseEntry>,
    functions: seq<FuncEntry>,
    variables: seq<VarEntry>,
    constructors: seq<ConstrEntry>)

  datatype EnumEntry = EnumEntry(name: string, qualifiedName: string, enumerators: seq<EnumMeta.Enumerator>)

  // ---------------------------------------------------------------------------
  // Names
  // ---------------------------------------------------------------------------

  /** A parameter type with its first `_Bool` spelled `bool`. */
  function ParamType(p: Param): (r: string)
    ensures FindSubFrom(p.typeName, "_Bool", 0).None? ==> r == p.typeName
  {
    ReplaceFirst(p.typeName, "_Bool", "bool")
  }

  /** A return type with its first `_Bool` spelled `bool ` (the plugin writes a trailing space here). */
  function ReturnType(t: string): (r: string)
    ensures FindSubFrom(t, "_Bool", 0).None? ==> r == t
  {
    ReplaceFirst(t, "_Bool", "bool ")
  }

  function ParamTypes(ps: seq<Param>): (r: seq<string>)
    ensures |r| == |ps| && forall i :: 0 <= i < |ps| ==> r[i] == ParamType(ps[i])
  {
    seq(|ps|, i requires 0 <= i < |ps| => ParamType(ps[i]))
  }

  function ParamNames(ps: seq<Param>): (r: seq<string>)
    ensures |r| == |ps| && forall i :: 0 <= i < |ps| ==> r[i] == ps[i].name
  {
    seq(|ps|, i requires 0 <= i < |ps| => ps[i].name)
  }

  /** The text between the parentheses of a full name: the parameter types joined by `,`. */
  function ParamList(ps: seq<Param>): string
  {
    Join(ParamTypes(ps), ",")
  }

  /** The parameter loop: the types joined by `,` with the flag `f` placing separators, and the names in order. */
  method BuildParams(ps: seq<Param>) returns (params: string, names: seq<string>)
    ensures params == ParamList(ps)
    ensures names == ParamNames(ps)
  {
    params := "";
    names := [];
    ghost var types := ParamTypes(ps);
    ghost var allNames := ParamNames(ps);
    var f := false;
    for i := 0 to |ps|
      invariant f <==> i > 0
      invariant params == Join(types[..i], ",")
      invariant names == allNames[..i]
    {
      assert types[..i + 1] == types[..i] + [types[i]];
      assert allNames[..i + 1] == allNames[..i] + [allNames[i]];
      JoinAppend(types[..i], types[i], ",");
      if f {
        params := params + ",";
      }
      f := true;
      params := params + ParamType(ps[i]);
      names := names + [ps[i].name];
    }
    assert types[..|ps|] == types;
    assert allNames[..|ps|] == allNames;
  }

  /** The qualifier text followed by ` &` or ` &&` for a reference qualifier. */
  function RefSuffix(qualifiers: string, r: RefQualifier): string
  {
    match r
    case NoRef => qualifiers
    case LValueRef => qualifiers + " &"
    case RValueRef => qualifiers + " &&"
  }

  /** The overload-disambiguating name of a method. */
  function FullName(m: MethodDecl): (r: string)
    ensures StartsWith(r, m.name + "(" + ParamList(m.params) + ")")
  {
    m.name + "(" + ParamList(m.params) + ")" + RefSuffix(m.qualifiers, m.refQualifier)
  }

  /** The name of a constructor: the record's simple name and its parameter list. */
  function ConstructorName(recordName: string, ps: seq<Param>): (r: string)
    ensures StartsWith(r, recordName + "(") && EndsWith(r, ")")
    ensures |r| == |recordName| + |ParamList(ps)| + 2
    ensures r[|recordName| + 1..|r| - 1] == ParamList(ps)
  {
    recordName + "(" + ParamList(ps) + ")"
  }

  /**
   * A constructor name determines its record and its parameter list: the
   * record name, an identifier, holds no `(`, so the first `(` ends it.
   */
  lemma ConstructorNameDisambiguates(n1: string, ps1: seq<Param>, n2: string, ps2: seq<Param>)
    requires '(' !in n1 && '(' !in n2
    requires ConstructorName(n1, ps1) == ConstructorName(n2, ps2)
    ensures n1 == n2 && ParamList(ps1) == ParamList(ps2)
  {
    var t := ConstructorName(n1, ps1);
    FirstParenEndsName(n1, ParamList(ps1) + ")");
    FirstParenEndsName(n2, ParamList(ps2) + ")");
    assert t == n1 + "(" + (ParamList(ps1) + ")") == n2 + "(" + (ParamList(ps2) + ")");
    assert n1 == t[..|n1|] && n2 == t[..|n2|];
  }

  /** In a name without `(` followed by `(` and more text, the first `(` is the one after the name. */
  lemma FirstParenEndsName(n: string, rest: string)
    requires '(' !in n
    ensures FindCharFrom(n + "(" + rest, '(', 0) == Wrappers.Some(|n|)
  {
    var t := n + "(" + rest;
    assert forall j :: 0 <= j < |n| ==> t[j] == n[j];
    assert t[|n|] == '(';
  }

  /** Qualifier text as the front end spells it: no `)` and no `&`. */
  predicate PlainQualifiers(q: string)
  {
    ')' !in q && '&' !in q
  }

  /** The shape of a reference suffix: the qualifiers, then nothing, ` &` or ` &&`. */
  lemma RefSuffixShape(q: string, r: RefQualifier)
    requires PlainQualifiers(q)
    ensures var s := RefSuffix(q, r);
      q == s[..|q|] && ')' !in s &&
      (r.NoRef? <==> |s| == |q|) &&
      (r.NoRef? <==> (|s| == 0 || s[|s| - 1] != '&')) &&
      (r.RValueRef? <==> (|s| >= 2 && s[|s| - 2] == '&'))
  {
    var s := RefSuffix(q, r);
    assert forall k :: 0 <= k < |q| ==> s[k] == q[k] && s[k] != ')' && s[k] != '&';
    match r
    case NoRef =>
    case LValueRef =>
      assert s[|s| - 2..] == " &";
    case RValueRef =>
      assert s[|s| - 3..] == " &&";
  }

  /** Different reference qualifiers over plain qualifiers give different suffixes. */
  lemma RefSuffixInjective(q1: string, r1: RefQualifier, q2: string, r2: RefQualifier)
    requires PlainQualifiers(q1) && PlainQualifiers(q2)
    requires RefSuffix(q1, r1) == RefSuffix(q2, r2)
    ensures q1 == q2 && r1 == r2
  {
    RefSuffixShape(q1, r1);
    RefSuffixShape(q2, r2);
  }

  /** Text closed by a ')' and followed by text without one splits at that ')' in one way only. */
  lemma SplitAtCloseParen(p1: string, s1: string, p2: string, s2: string)
    requires ')' !in s1 && ')' !in s2
    requires p1 + ")" + s1 == p2 + ")" + s2
    ensures p1 == p2 && s1 == s2
  {
    var t := p1 + ")" + s1;
    assert t == p2 + ")" + s2;
    assert forall j :: |p1| < j < |t| ==> t[j] == s1[j - |p1| - 1] && t[j] != ')';
    assert forall j :: |p2| < j < |t| ==> t[j] == s2[j - |p2| - 1] && t[j] != ')';
    assert t[|p1|] == ')' && t[|p2|] == ')';
    assert |p1| == |p2|;
    assert p1 == t[..|p1|];
    assert p2 == t[..|p2|];
    assert s1 == t[|p1| + 1..];
    assert s2 == t[|p2| + 1..];
  }

  /**
   * Overloads of one name get distinct full names: methods with the same
   * name and the same full name have the same parameter list, qualifiers and
   * reference qualifier.
   */
  lemma FullNameDisambiguates(m1: MethodDecl, m2: MethodDecl)
    requires m1.name == m2.name
    requires PlainQualifiers(m1.qualifiers) && PlainQualifiers(m2.qualifiers)
    requires FullName(m1) == FullName(m2)
    ensures ParamList(m1.params) == ParamList(m2.params)
    ensures m1.qualifiers == m2.qualifiers && m1.refQualifier == m2.refQualifier
  {
    var p1, p2 := ParamList(m1.params), ParamList(m2.params);
    var s1, s2 := RefSuffix(m1.qualifiers, m1.refQualifier), RefSuffix(m2.qualifiers, m2.refQualifier);
    var x1, x2 := m1.name + "(" + p1, m2.name + "(" + p2;
    assert FullName(m1) == x1 + ")" + s1;
    assert FullName(m2) == x2 + ")" + s2;
    RefSuffixShape(m1.qualifiers, m1.refQualifier);
    RefSuffixShape(m2.qualifiers, m2.refQualifier);
    SplitAtCloseParen(x1, s1, x2, s2);
    assert p1 == x1[|m1.name| + 1..];
    assert p2 == x2[|m2.name| + 1..];
    RefSuffixInjective(m1.qualifiers, m1.refQualifier, m2.qualifiers, m2.refQualifier);
  }

  // ---------------------------------------------------------------------------
  // Tag payloads
  // ---------------------------------------------------------------------------

  /** `std::string_view::npos` and the modulus of `size_t` arithmetic. */
  const SizeModulus: int := 0x1_0000_0000_0000_0000
  const NPos: int := SizeModulus - 1

  function FindFirstOf(s: string, c: char): (r: int)
    ensures r == NPos || (0 <= r < |s| && s[r] == c && c !in s[..r])
    ensures r == NPos ==> c !in s || NPos < |s|
  {
    match FindCharFrom(s, c, 0)
    case None => NPos
    case Some(i) => i
  }

  function FindLastOf(s: string, c: char): (r: int)
    ensures r == NPos || (0 <= r < |s| && s[r] == c && c !in s[r + 1..])
    ensures r == NPos ==> c !in s || NPos < |s|
  {
    match FindCharLast(s, c, |s|)
    case None => NPos
    case Some(i) => i
  }

  /** `substr(pos, count)`: at most `count` characters from `pos`. */
  function Substr(s: string, pos: nat, count: nat): (r: string)
    requires pos <= |s|
    ensures |r| <= count && pos + |r| <= |s| && r == s[pos..pos + |r|]
    ensures count >= |s| - pos ==> r == s[pos..]
  {
    if count <= |s| - pos then s[pos..pos + count] else s[pos..]
  }

  /**
   * The payload of a tag attribute: `substr(f + 1, l - f - 1)` for the
   * first '(' at `f` and the last ')' at `l`, both computed in `size_t`, so
   * that a missing parenthesis (`npos`) wraps around.
   */
  function TagPayload(s: string): (r: string)
    ensures |r| <= |s|
  {
    var f := FindFirstOf(s, '(');
    var l := FindLastOf(s, ')');
    var pos := (f + 1) % SizeModulus;
    assert pos <= |s| by {
      if f + 1 >= SizeModulus { assert pos < SizeModulus <= f + 1; }
    }
    Substr(s, pos, (l - f - 1) % SizeModulus)
  }

  /** For a first '(' before a last ')', the payload is exactly the text between them. */
  lemma TagPayloadBetween(s: string, f: nat, l: nat)
    requires |s| < NPos
    requires f < l < |s| && s[f] == '(' && s[l] == ')'
    requires forall j :: 0 <= j < f ==> s[j] != '('
    requires forall j :: l < j < |s| ==> s[j] != ')'
    ensures TagPayload(s) == s[f + 1..l]
  {
    assert FindCharFrom(s, '(', 0) == Wrappers.Some(f) by {
      match FindCharFrom(s, '(', 0)
      case None =>
      case Some(i) =>
    }
    assert FindCharLast(s, ')', |s|) == Wrappers.Some(l) by {
      match FindCharLast(s, ')', |s|)
      case None =>
      case Some(i) =>
    }
    assert FindFirstOf(s, '(') == f && FindLastOf(s, ')') == l;
    assert (f + 1) % SizeModulus == f + 1;
    assert (l - f - 1) % SizeModulus == l - f - 1;
  }

  /** The payload of `refl_tag(p)` is `p`, whatever `p` contains. */
  lemma TagPayloadOfTag(p: string)
    requires |p| < NPos - 10
    ensures TagPayload("refl_tag(" + p + ")") == p
  {
    var s := "refl_tag(" + p + ")";
    assert s[8] == '(';
    assert s[|s| - 1] == ')';
    TagPayloadBetween(s, 8, |s| - 1);
    assert s[9..|s| - 1] == p;
  }

  /** Without parentheses both searches give `npos` and the wrap-around makes the payload the whole text. */
  lemma TagPayloadWithoutParens(s: string)
    requires '(' !in s && ')' !in s
    requires |s| < NPos
    ensures TagPayload(s) == s
  {
  }

  /** An annotation the method, field and static tag loops slice: its text starts with `refl_tag`. */
  predicate IsTagAnnotation(a: Attribute)
  {
    a.spelling == "annotate" && StartsWith(a.text, "refl_tag")
  }

  predicate IsAnnotation(a: Attribute)
  {
    a.spelling == "annotate"
  }

  function PayloadOf(a: Attribute): string
  {
    TagPayload(a.text)
  }

  /** The tags of a method, field or static member: the payloads of the annotations starting with `refl_tag`, in order. */
  function MemberTags(attrs: seq<Attribute>): (r: seq<string>)
    ensures |r| <= |attrs|
    ensures (forall i :: 0 <= i < |attrs| ==> !IsTagAnnotation(attrs[i])) ==> r == []
  {
    var tags := FilterMap(attrs, IsTagAnnotation, PayloadOf);
    assert (forall i :: 0 <= i < |attrs| ==> !IsTagAnnotation(attrs[i])) ==> tags == [] by {
      if forall i :: 0 <= i < |attrs| ==> !IsTagAnnotation(attrs[i]) {
        FilterMapNone(attrs, IsTagAnnotation, PayloadOf);
      }
    }
    tags
  }

  /** The tag loop of the constructor list as written: every annotation is sliced, whatever its text. */
  function ConstructorTagsAsWritten(attrs: seq<Attribute>): (r: seq<string>)
    ensures |r| <= |attrs|
    ensures (forall i :: 0 <= i < |attrs| ==> !IsAnnotation(attrs[i])) ==> r == []
  {
    var tags := FilterMap(attrs, IsAnnotation, PayloadOf);
    assert (forall i :: 0 <= i < |attrs| ==> !IsAnnotation(attrs[i])) ==> tags == [] by {
      if forall i :: 0 <= i < |attrs| ==> !IsAnnotation(attrs[i]) {
        FilterMapNone(attrs, IsAnnotation, PayloadOf);
      }
    }
    tags
  }

  /** The constructor tag loop as intended: the `refl_tag` filter of every other member list, so directives give no tag. */
  function ConstructorTags(attrs: seq<Attribute>): (r: seq<string>)
    ensures |r| <= |attrs|
    ensures (forall i :: 0 <= i < |attrs| ==> !IsTagAnnotation(attrs[i])) ==> r == []
  {
    MemberTags(attrs)
  }

  /** Written tags `refl_tag(p)` come back as exactly their payloads, in order. */
  lemma {:induction false} MemberTagsOfWrittenTags(attrs: seq<Attribute>, ps: seq<string>)
    requires |attrs| == |ps|
    requires forall i :: 0 <= i < |ps| ==> |ps[i]| < NPos - 10 && attrs[i] == Attribute("annotate", "refl_tag(" + ps[i] + ")")
    ensures MemberTags(attrs) == ps
  {
    if ps != [] {
      MemberTagsOfWrittenTags(attrs[1..], ps[1..]);
      TagPayloadOfTag(ps[0]);
      assert IsTagAnnotation(attrs[0]) by {
        assert attrs[0].text[..8] == "refl_tag";
      }
      assert MemberTags(attrs) == [PayloadOf(attrs[0])] + MemberTags(attrs[1..]);
      assert ps == [ps[0]] + ps[1..];
    }
  }

  /**
   * The constructor tag loop as written turns a `refl::include` directive
   * into a tag argument `refl::include`, which names no value; the
   * intended loop gives no tag.
   */
  lemma ConstructorIncludeBecomesTag()
    ensures ConstructorTagsAsWritten([Attribute("annotate", "refl::include")]) == ["refl::include"]
    ensures ConstructorTags([Attribute("annotate", "refl::include")]) == []
  {
    var text := "refl::include";
    assert !StartsWith(text, "refl_tag") by {
      assert text[4] != "refl_tag"[4];
    }
    DirectiveBecomesTag(text);
  }

  /** An annotation without parentheses that is not a tag: the loop as written slices it whole, the intended one skips it. */
  lemma DirectiveBecomesTag(text: string)
    requires '(' !in text && ')' !in text && |text| < NPos
    requires !StartsWith(text, "refl_tag")
    ensures ConstructorTagsAsWritten([Attribute("annotate", text)]) == [text]
    ensures ConstructorTags([Attribute("annotate", text)]) == []
  {
    var a := Attribute("annotate", text);
    TagPayloadWithoutParens(text);
    assert [] + [a] == [a];
    FilterMapSnoc([], a, IsAnnotation, PayloadOf);
    FilterMapSnoc([], a, IsTagAnnotation, PayloadOf);
  }

  /** On tag annotations alone the two constructor loops agree: the difference is only in what else is sliced. */
  lemma {:induction false} ConstructorTagsAgreeOnTags(attrs: seq<Attribute>)
    requires forall i :: 0 <= i < |attrs| ==> IsAnnotation(attrs[i]) ==> IsTagAnnotation(attrs[i])
    ensures ConstructorTagsAsWritten(attrs) == ConstructorTags(attrs)
  {
    if attrs != [] {
      ConstructorTagsAgreeOnTags(attrs[1..]);
      assert ConstructorTagsAsWritten(attrs) == (if IsAnnotation(attrs[0]) then [PayloadOf(attrs[0])] else []) + ConstructorTagsAsWritten(attrs[1..]);
      assert MemberTags(attrs) == (if IsTagAnnotation(attrs[0]) then [PayloadOf(attrs[0])] else []) + MemberTags(attrs[1..]);
    }
  }

  // ---------------------------------------------------------------------------
  // The member lists
  // ---------------------------------------------------------------------------

  /** Structural filter of the method list: no constructor, destructor, implicit or deleted method. */
  predicate IsListedMethodKind(m: MethodDecl)
  {
    m.kind == Ordinary && !m.isImplicit && !m.isDeleted
  }

  /** Structural filter of the constructor list: any non-deleted constructor (implicit ones included). */
  predicate IsListedConstructorKind(m: MethodDecl)
  {
    m.kind == Constructor && !m.isDeleted
  }

  predicate MethodListed(spec: ReflSpec, m: MethodDecl)
  {
    IsListedMethodKind(m) && Included(spec, SpecOf(m.attrs))
  }

  predicate FieldListed(spec: ReflSpec, v: FieldDecl)
  {
    Included(spec, SpecOf(v.attrs))
  }

  predicate StaticListed(spec: ReflSpec, v: StaticDecl)
  {
    StaticIncluded(spec, SpecOf(v.attrs))
  }

  predicate ConstructorListed(spec: ReflSpec, m: MethodDecl)
  {
    IsListedConstructorKind(m) && Included(spec, SpecOf(m.attrs))
  }

  // The filters above as values, so that a list and the lemmas about it name the same function.
  function MethodFilter(spec: ReflSpec): MethodDecl -> bool { m => MethodListed(spec, m) }
  function FieldFilter(spec: ReflSpec): FieldDecl -> bool { v => FieldListed(spec, v) }
  function StaticFilter(spec: ReflSpec): StaticDecl -> bool { v => StaticListed(spec, v) }
  function ConstructorFilter(spec: ReflSpec): MethodDecl -> bool { m => ConstructorListed(spec, m) }
  function ConstructorEntries(recordName: string): MethodDecl -> ConstrEntry { m => ConstrEntryOf(recordName, m) }

  function FuncEntryOf(m: MethodDecl): (e: FuncEntry)
    ensures e.name == m.name && e.fullName == FullName(m) && e.tags == MemberTags(m.attrs)
  {
    FuncEntry(m.isInstance, ReturnType(m.returnType), m.name, m.qualifiedName, FullName(m), m.isVirtual,
      m.access, ParamTypes(m.params), ParamNames(m.params), MemberTags(m.attrs))
  }

  function FieldEntryOf(v: FieldDecl): (e: VarEntry)
    ensures e.isInstance && e.name == v.name && e.isMutable == v.isMutable && e.tags == MemberTags(v.attrs)
  {
    VarEntry(true, v.name, v.qualifiedName, v.isMutable, v.access, MemberTags(v.attrs))
  }

  /** A static member is written with `is_mutable` false. */
  function StaticEntryOf(v: StaticDecl): (e: VarEntry)
    ensures !e.isInstance && e.name == v.name && !e.isMutable && e.tags == MemberTags(v.attrs)
  {
    VarEntry(false, v.name, v.qualifiedName, false, v.access, MemberTags(v.attrs))
  }

  function ConstrEntryOf(recordName: string, m: MethodDecl): (e: ConstrEntry)
    ensures e.name == ConstructorName(recordName, m.params) && e.tags == ConstructorTags(m.attrs)
  {
    ConstrEntry(ConstructorName(recordName, m.params), ParamTypes(m.params), ParamNames(m.params), ConstructorTags(m.attrs))
  }

  function Functions(spec: ReflSpec, ms: seq<MethodDecl>): seq<FuncEntry>
  {
    FilterMap(ms, MethodFilter(spec), FuncEntryOf)
  }

  function Fields(spec: ReflSpec, vs: seq<FieldDecl>): seq<VarEntry>
  {
    FilterMap(vs, FieldFilter(spec), FieldEntryOf)
  }

  function Statics(spec: ReflSpec, vs: seq<StaticDecl>): seq<VarEntry>
  {
    FilterMap(vs, StaticFilter(spec), StaticEntryOf)
  }

  function Constructors(spec: ReflSpec, recordName: string, ms: seq<MethodDecl>): seq<ConstrEntry>
  {
    FilterMap(ms, ConstructorFilter(spec), ConstructorEntries(recordName))
  }

  function BaseEntryOf(b: BaseDecl): BaseEntry
  {
    BaseEntry(b.typeName, b.access)
  }

  /** The descriptor of a record: bases, functions, fields followed by statics, and constructors. */
  function ExtractRecord(d: RecordDecl): (r: RecordEntry)
    ensures r.name == d.name && r.qualifiedName == d.qualifiedName
    ensures |r.bases| == |d.bases| && forall i :: 0 <= i < |d.bases| ==> r.bases[i] == BaseEntryOf(d.bases[i])
  {
    var spec := SpecOf(d.attrs);
    RecordEntry(d.name, d.qualifiedName, seq(|d.bases|, i requires 0 <= i < |d.bases| => BaseEntryOf(d.bases[i])),
      Functions(spec, d.methods), Fields(spec, d.fields) + Statics(spec, d.statics),
      Constructors(spec, d.name, d.methods))
  }

  /** A function entry is listed exactly when some method passes the structural filter and the directive rule. */
  lemma FunctionListedIff(spec: ReflSpec, ms: seq<MethodDecl>, e: FuncEntry)
    ensures e in Functions(spec, ms) <==> exists i :: 0 <= i < |ms| && MethodListed(spec, ms[i]) && e == FuncEntryOf(ms[i])
  {
    FilterMapMembers(ms, MethodFilter(spec), FuncEntryOf, e);
  }

  lemma ConstructorListedIff(spec: ReflSpec, recordName: string, ms: seq<MethodDecl>, e: ConstrEntry)
    ensures e in Constructors(spec, recordName, ms) <==>
      exists i :: 0 <= i < |ms| && ConstructorListed(spec, ms[i]) && e == ConstrEntryOf(recordName, ms[i])
  {
    FilterMapMembers(ms, ConstructorFilter(spec), ConstructorEntries(recordName), e);
  }

  lemma FieldListedIff(spec: ReflSpec, vs: seq<FieldDecl>, e: VarEntry)
    ensures e in Fields(spec, vs) <==> exists i :: 0 <= i < |vs| && FieldListed(spec, vs[i]) && e == FieldEntryOf(vs[i])
  {
    FilterMapMembers(vs, FieldFilter(spec), FieldEntryOf, e);
  }

  lemma StaticListedIff(spec: ReflSpec, vs: seq<StaticDecl>, e: VarEntry)
    ensures e in Statics(spec, vs) <==> exists i :: 0 <= i < |vs| && StaticListed(spec, vs[i]) && e == StaticEntryOf(vs[i])
  {
    FilterMapMembers(vs, StaticFilter(spec), StaticEntryOf, e);
  }
  /**
   * The variable list of a descriptor holds the listed fields, each an
   * instance variable, followed by the listed statics, none of them one:
   * the runtime's `is_instance()` tells the two parts apart.
   */
  lemma VariablesFieldsThenStatics(d: RecordDecl)
    ensures var vs := ExtractRecord(d).variables;
      var fs := Fields(SpecOf(d.attrs), d.fields);
      |fs| <= |vs| && vs[..|fs|] == fs && vs[|fs|..] == Statics(SpecOf(d.attrs), d.statics) &&
      forall i :: 0 <= i < |vs| ==> (vs[i].isInstance <==> i < |fs|)
  {
    var spec := SpecOf(d.attrs);
    var fs, ss := Fields(spec, d.fields), Statics(spec, d.statics);
    var vs := ExtractRecord(d).variables;
    assert vs == fs + ss;
    forall i | 0 <= i < |vs|
      ensures vs[i].isInstance <==> i < |fs|
    {
      if i < |fs| {
        FieldListedIff(spec, d.fields, vs[i]);
      } else {
        assert vs[i] == ss[i - |fs|];
        StaticListedIff(spec, d.statics, vs[i]);
      }
    }
  }


  /** Exclude always wins: dropping an excluded method from the record changes nothing in its descriptor. */
  lemma ExcludedMethodIgnored(d: RecordDecl, i: nat)
    requires i < |d.methods| && SpecOf(d.methods[i].attrs) == Exclude
    ensures ExtractRecord(d.(methods := d.methods[..i] + d.methods[i + 1..])) == ExtractRecord(d)
  {
    var spec := SpecOf(d.attrs);
    FilterMapSkips(d.methods, i, MethodFilter(spec), FuncEntryOf);
    FilterMapSkips(d.methods, i, ConstructorFilter(spec), ConstructorEntries(d.name));
  }

  lemma ExcludedFieldIgnored(d: RecordDecl, i: nat)
    requires i < |d.fields| && SpecOf(d.fields[i].attrs) == Exclude
    ensures ExtractRecord(d.(fields := d.fields[..i] + d.fields[i + 1..])) == ExtractRecord(d)
  {
    FilterMapSkips(d.fields, i, FieldFilter(SpecOf(d.attrs)), FieldEntryOf);
  }

  lemma ExcludedStaticIgnored(d: RecordDecl, i: nat)
    requires i < |d.statics| && SpecOf(d.statics[i].attrs) == Exclude
    ensures ExtractRecord(d.(statics := d.statics[..i] + d.statics[i + 1..])) == ExtractRecord(d)
  {
    FilterMapSkips(d.statics, i, StaticFilter(SpecOf(d.attrs)), StaticEntryOf);
  }

  /** No member directive of its own means nothing of a `none` record is reflected (its bases still are). */
  lemma NoneRecordWithoutDirectives(d: RecordDecl)
    requires SpecOf(d.attrs) == None
    requires forall i :: 0 <= i < |d.methods| ==> SpecOf(d.methods[i].attrs) !in {Include, Tag}
    requires forall i :: 0 <= i < |d.fields| ==> SpecOf(d.fields[i].attrs) !in {Include, Tag}
    requires forall i :: 0 <= i < |d.statics| ==> SpecOf(d.statics[i].attrs) !in {Include, Tag}
    ensures ExtractRecord(d).functions == [] && ExtractRecord(d).variables == [] && ExtractRecord(d).constructors == []
  {
    FilterMapNone(d.methods, MethodFilter(None), FuncEntryOf);
    FilterMapNone(d.fields, FieldFilter(None), FieldEntryOf);
    FilterMapNone(d.statics, StaticFilter(None), StaticEntryOf);
    FilterMapNone(d.methods, ConstructorFilter(None), ConstructorEntries(d.name));
  }

  // ---------------------------------------------------------------------------
  // The record loops
  // ---------------------------------------------------------------------------

  /** The tag loop of methods, fields and statics. */
  method CollectTags(attrs: seq<Attribute>) returns (tags: seq<string>)
    ensures tags == MemberTags(attrs)
  {
    tags := [];
    for k := 0 to |attrs|
      invariant tags == MemberTags(attrs[..k])
    {
      assert attrs[..k + 1] == attrs[..k] + [attrs[k]];
      FilterMapSnoc(attrs[..k], attrs[k], IsTagAnnotation, PayloadOf);
      var a := attrs[k];
      if a.spelling == "annotate" {
        var s := a.text;
        if !StartsWith(s, "refl_tag") {
          continue;
        }
        tags := tags + [TagPayload(s)];
      }
    }
    assert attrs[..|attrs|] == attrs;
  }

  lemma FunctionsStep(spec: ReflSpec, ms: seq<MethodDecl>, k: nat)
    requires k < |ms|
    ensures Functions(spec, ms[..k + 1]) ==
      Functions(spec, ms[..k]) + (if MethodListed(spec, ms[k]) then [FuncEntryOf(ms[k])] else [])
  {
    assert ms[..k + 1] == ms[..k] + [ms[k]];
    FilterMapSnoc(ms[..k], ms[k], MethodFilter(spec), FuncEntryOf);
  }

  lemma StaticsStep(spec: ReflSpec, statics: seq<StaticDecl>, k: nat)
    requires k < |statics|
    ensures Statics(spec, statics[..k + 1]) ==
      Statics(spec, statics[..k]) + (if StaticListed(spec, statics[k]) then [StaticEntryOf(statics[k])] else [])
  {
    assert statics[..k + 1] == statics[..k] + [statics[k]];
    FilterMapSnoc(statics[..k], statics[k], StaticFilter(spec), StaticEntryOf);
  }

  lemma ConstructorsStep(spec: ReflSpec, recordName: string, ms: seq<MethodDecl>, k: nat)
    requires k < |ms|
    ensures Constructors(spec, recordName, ms[..k + 1]) ==
      Constructors(spec, recordName, ms[..k]) +
      (if ConstructorListed(spec, ms[k]) then [ConstrEntryOf(recordName, ms[k])] else [])
  {
    assert ms[..k + 1] == ms[..k] + [ms[k]];
    FilterMapSnoc(ms[..k], ms[k], ConstructorFilter(spec), ConstructorEntries(recordName));
  }

  /** The method loop: structural filter, then the directive rule, then the entry with its full name and tags. */
  method CollectFunctions(spec: ReflSpec, ms: seq<MethodDecl>) returns (fs: seq<FuncEntry>)
    ensures fs == Functions(spec, ms)
  {
    fs := [];
    for k := 0 to |ms|
      invariant fs == Functions(spec, ms[..k])
    {
      FunctionsStep(spec, ms, k);
      var it := ms[k];
      if it.kind == Constructor || it.kind == Destructor || it.isImplicit || it.isDeleted {
        assert !MethodListed(spec, it);
        continue;
      }
      var mspec := GetReflSpec(it.attrs);
      if mspec == Exclude {
        assert !MethodListed(spec, it);
        continue;
      }
      if spec == None && mspec != Include && mspec != Tag {
        assert !MethodListed(spec, it);
        continue;
      }
      assert MethodListed(spec, it);
      var params, paramNames := BuildParams(it.params);
      var fullName := it.name + "(" + params + ")" + RefSuffix(it.qualifiers, it.refQualifier);
      var tags := CollectTags(it.attrs);
      var entry := FuncEntry(it.isInstance, ReturnType(it.returnType), it.name, it.qualifiedName, fullName,
        it.isVirtual, it.access, ParamTypes(it.params), paramNames, tags);
      assert entry == FuncEntryOf(it);
      fs := fs + [entry];
    }
    assert ms[..|ms|] == ms;
  }

  lemma FieldsStep(spec: ReflSpec, fields: seq<FieldDecl>, k: nat)
    requires k < |fields|
    ensures Fields(spec, fields[..k + 1]) ==
      Fields(spec, fields[..k]) + (if FieldListed(spec, fields[k]) then [FieldEntryOf(fields[k])] else [])
  {
    assert fields[..k + 1] == fields[..k] + [fields[k]];
    FilterMapSnoc(fields[..k], fields[k], FieldFilter(spec), FieldEntryOf);
  }

  /** The field loop. */
  method CollectFields(spec: ReflSpec, fields: seq<FieldDecl>) returns (vs: seq<VarEntry>)
    ensures vs == Fields(spec, fields)
  {
    vs := [];
    for k := 0 to |fields|
      invariant vs == Fields(spec, fields[..k])
    {
      FieldsStep(spec, fields, k);
      var it := fields[k];
      var mspec := GetReflSpec(it.attrs);
      if mspec == Exclude {
        assert !FieldListed(spec, it);
        continue;
      }
      if spec == None && mspec != Include && mspec != Tag {
        assert !FieldListed(spec, it);
        continue;
      }
      assert FieldListed(spec, it);
      var tags := CollectTags(it.attrs);
      ghost var entry := VarEntry(true, it.name, it.qualifiedName, it.isMutable, it.access, tags);
      assert entry == FieldEntryOf(it);
      vs := vs + [VarEntry(true, it.name, it.qualifiedName, it.isMutable, it.access, tags)];
    }
    assert fields[..|fields|] == fields;
  }

  /** The static-member callback, run once per static data member of the record, appending after the fields. */
  method CollectStatics(spec: ReflSpec, statics: seq<StaticDecl>) returns (vs: seq<VarEntry>)
    ensures vs == Statics(spec, statics)
  {
    vs := [];
    for k := 0 to |statics|
      invariant vs == Statics(spec, statics[..k])
    {
      StaticsStep(spec, statics, k);
      var it := statics[k];
      var mspec := GetReflSpec(it.attrs);
      var ok := false;
      if spec != Unknown && (mspec == Include || mspec == Tag) {
        ok := true;
      }
      if spec == All && mspec != Exclude {
        ok := true;
      }
      assert ok == StaticListed(spec, it);
      if ok {
        var tags := CollectTags(it.attrs);
        vs := vs + [VarEntry(false, it.name, it.qualifiedName, false, it.access, tags)];
      }
    }
    assert statics[..|statics|] == statics;
  }

  /** The constructor loop; its tags follow the intended `refl_tag` filter. */
  method CollectConstructors(spec: ReflSpec, recordName: string, ms: seq<MethodDecl>) returns (cs: seq<ConstrEntry>)
    ensures cs == Constructors(spec, recordName, ms)
  {
    cs := [];
    for k := 0 to |ms|
      invariant cs == Constructors(spec, recordName, ms[..k])
    {
      ConstructorsStep(spec, recordName, ms, k);
      var it := ms[k];
      if it.kind != Constructor || it.isDeleted {
        continue;
      }
      var mspec := GetReflSpec(it.attrs);
      if mspec == Exclude {
        continue;
      }
      if spec == None && mspec != Include && mspec != Tag {
        continue;
      }
      var params, paramNames := BuildParams(it.params);
      var tags := CollectTags(it.attrs);
      var entry := ConstrEntry(recordName + "(" + params + ")", ParamTypes(it.params), paramNames, tags);
      assert entry == ConstrEntryOf(recordName, it);
      cs := cs + [entry];
    }
    assert ms[..|ms|] == ms;
  }

  /** The base loop: every base, in order, with its access. */
  method CollectBases(bs: seq<BaseDecl>) returns (es: seq<BaseEntry>)
    ensures |es| == |bs| && forall i :: 0 <= i < |bs| ==> es[i] == BaseEntry(bs[i].typeName, bs[i].access)
  {
    es := [];
    for k := 0 to |bs|
      invariant |es| == k && forall i :: 0 <= i < k ==> es[i] == BaseEntryOf(bs[i])
    {
      es := es + [BaseEntry(bs[k].typeName, bs[k].access)];
    }
  }

  /** The enum meta keeps the enumerators in declaration order; its helpers are those of `EnumMeta`. */
  function ExtractEnum(e: EnumDecl): (r: EnumEntry)
    ensures r.enumerators == e.enumerators
    ensures forall v :: EnumMeta.Valid(r.enumerators, v) <==> exists i :: 0 <= i < |e.enumerators| && e.enumerators[i].value == v
  {
    EnumEntry(e.name, e.qualifiedName, e.enumerators)
  }

  /** What a match delivers: a reflected record or a reflected enum. */
  datatype Match = RecordMatch(record: RecordDecl) | EnumMatch(enumDecl: EnumDecl)

  datatype Emitted = EmittedRecord(record: RecordEntry) | EmittedEnum(enumEntry: EnumEntry) | NothingEmitted

  /**
   * The match callback. A record is emitted the first time its location is
   * seen; `unique` remembers the locations and only grows. Enums are not
   * tracked.
   */
  class RecordMatchCallback {
    var unique: set<nat>
    ghost var emitted: seq<nat>

    /** Every emitted record location is remembered, and no location was emitted twice. */
    ghost predicate Valid()
      reads this
    {
      (forall i, j :: 0 <= i < j < |emitted| ==> emitted[i] != emitted[j]) &&
      (forall x :: x in unique <==> x in emitted)
    }

    constructor ()
      ensures Valid() && unique == {} && emitted == []
    {
      unique := {};
      emitted := [];
    }

    method Run(m: Match) returns (out: Emitted)
      requires Valid()
      modifies this
      ensures Valid()
      ensures unique >= old(unique)
      ensures m.EnumMatch? ==> out == EmittedEnum(ExtractEnum(m.enumDecl)) && unique == old(unique) && emitted == old(emitted)
      ensures m.RecordMatch? && m.record.location in old(unique) ==>
        out == NothingEmitted && unique == old(unique) && emitted == old(emitted)
      ensures m.RecordMatch? && m.record.location !in old(unique) ==>
        out == EmittedRecord(ExtractRecord(m.record)) && unique == old(unique) + {m.record.location} &&
        emitted == old(emitted) + [m.record.location]
    {
      match m
      case EnumMatch(e) =>
        out := EmittedEnum(ExtractEnum(e));
      case RecordMatch(d) =>
        if d.location in unique {
          return NothingEmitted;
        }
        unique := unique + {d.location};
        emitted := emitted + [d.location];
        var spec := GetReflSpec(d.attrs);
        var bases := CollectBases(d.bases);
        var functions := CollectFunctions(spec, d.methods);
        var fields := CollectFields(spec, d.fields);
        var statics := CollectStatics(spec, d.statics);
        var constructors := CollectConstructors(spec, d.name, d.methods);
        assert bases == ExtractRecord(d).bases;
        out := EmittedRecord(RecordEntry(d.name, d.qualifiedName, bases, functions, fields + statics, constructors));
    }
  }

  /** Every record location is emitted at most once, however often it is matched. */
  method RunAll(cb: RecordMatchCallback, ms: seq<Match>) returns (outs: seq<Emitted>)
    requires cb.Valid()
    modifies cb
    ensures cb.Valid() && |outs| == |ms|
    ensures forall i :: 0 <= i < |ms| && outs[i].EmittedRecord? ==> ms[i].RecordMatch?
    ensures forall i, j :: 0 <= i < j < |ms| && outs[i].EmittedRecord? && outs[j].EmittedRecord? ==>
      ms[i].RecordMatch? && ms[j].RecordMatch? && ms[i].record.location != ms[j].record.location
  {
    outs := [];
    for k := 0 to |ms|
      invariant cb.Valid() && |outs| == k
      invariant forall i :: 0 <= i < k && outs[i].EmittedRecord? ==> ms[i].RecordMatch? && ms[i].record.location in cb.unique
      invariant forall i, j :: 0 <= i < j < k && outs[i].EmittedRecord? && outs[j].EmittedRecord? ==>
        ms[i].RecordMatch? && ms[j].RecordMatch? && ms[i].record.location != ms[j].record.location
    {
      var o := cb.Run(ms[k]);
      outs := outs + [o];
    }
  }

  // ---------------------------------------------------------------------------
  // From directives to specs
  // ---------------------------------------------------------------------------

  /** The attribute a directive leaves behind: `annotate` with the written text of the directive. */
  function AnnotationOf(a: Attributes.Annotation): Attribute
  {
    Attribute("annotate", a.sourceText)
  }

  /** The source text of a directive written in its canonical form. */
  function WrittenText(d: Attributes.Directive, args: seq<string>): string
  {
    if |args| == 1 then d.spelling + "(" + args[0] + ")" else d.spelling
  }

  /** The spec each registered directive is meant to give. */
  function IntendedSpec(d: Attributes.Directive): ReflSpec
  {
    match d.annotation
    case "refl_none" => None
    case "refl_all" => All
    case "refl_include" => Include
    case "refl_exclude" => Exclude
    case _ => Tag
  }

  /** A single attribute decides the spec on its own. */
  lemma SpecOfSingle(a: Attribute)
    ensures SpecOf([a]) == if Decides(a) then Classify(a) else Unknown
  {
    assert [a][1..] == [];
  }

  lemma NoneText()
    ensures var a := Attribute("annotate", "refl::none"); Decides(a) && Classify(a) == None
  {
    var t := "refl::none";
    assert !StartsWith(t, "refl_") by { assert t[4] != '_'; }
    assert StartsWith(t, "refl::") by { assert t[..6] == "refl::"; }
    assert !EndsWith(t, "all") by { assert t[|t| - 1] != 'l'; }
    assert EndsWith(t, "none") by { assert t[|t| - 4..] == "none"; }
  }

  lemma AllText()
    ensures var a := Attribute("annotate", "refl::all"); Decides(a) && Classify(a) == All
  {
    var t := "refl::all";
    assert !StartsWith(t, "refl_") by { assert t[4] != '_'; }
    assert StartsWith(t, "refl::") by { assert t[..6] == "refl::"; }
    assert EndsWith(t, "all") by { assert t[|t| - 3..] == "all"; }
  }

  lemma IncludeText()
    ensures var a := Attribute("annotate", "refl::include"); Decides(a) && Classify(a) == Include
  {
    var t := "refl::include";
    assert !StartsWith(t, "refl_") by { assert t[4] != '_'; }
    assert StartsWith(t, "refl::") by { assert t[..6] == "refl::"; }
    assert !EndsWith(t, "all") by { assert t[|t| - 1] != 'l'; }
    assert !EndsWith(t, "none") by { assert t[|t| - 2] != 'n'; }
    assert EndsWith(t, "include") by { assert t[|t| - 7..] == "include"; }
  }

  lemma ExcludeText()
    ensures var a := Attribute("annotate", "refl::exclude"); Decides(a) && Classify(a) == Exclude
  {
    var t := "refl::exclude";
    assert !StartsWith(t, "refl_") by { assert t[4] != '_'; }
    assert StartsWith(t, "refl::") by { assert t[..6] == "refl::"; }
    assert !EndsWith(t, "all") by { assert t[|t| - 1] != 'l'; }
    assert !EndsWith(t, "none") by { assert t[|t| - 2] != 'n'; }
    assert !EndsWith(t, "include") by { assert t[|t| - 7] != 'i'; }
    assert EndsWith(t, "exclude") by { assert t[|t| - 7..] == "exclude"; }
  }

  lemma TagText(p: string)
    ensures var a := Attribute("annotate", "refl_tag(" + p + ")"); Decides(a) && Classify(a) == Tag
  {
    var t := "refl_tag(" + p + ")";
    assert StartsWith(t, "refl_") by { assert t[..5] == "refl_"; }
  }

  lemma Directive0Classifies(args: seq<string>)
    requires Attributes.ArityAccepted(Attributes.Registered[0], |args|)
    ensures var d := Attributes.Registered[0];
      SpecOf([AnnotationOf(Attributes.Annotation(d.annotation, args, WrittenText(d, args)))]) == IntendedSpec(d) == None
  {
    var d := Attributes.Registered[0];
    assert d == Attributes.ClassDirective("refl::none", "refl_none");
    var a := AnnotationOf(Attributes.Annotation(d.annotation, args, WrittenText(d, args)));
    SpecOfSingle(a);
    NoneText();
  }

  lemma Directive1Classifies(args: seq<string>)
    requires Attributes.ArityAccepted(Attributes.Registered[1], |args|)
    ensures var d := Attributes.Registered[1];
      SpecOf([AnnotationOf(Attributes.Annotation(d.annotation, args, WrittenText(d, args)))]) == IntendedSpec(d) == All
  {
    var d := Attributes.Registered[1];
    assert d == Attributes.ClassDirective("refl::all", "refl_all");
    var a := AnnotationOf(Attributes.Annotation(d.annotation, args, WrittenText(d, args)));
    SpecOfSingle(a);
    AllText();
  }

  lemma Directive2Classifies(args: seq<string>)
    requires Attributes.ArityAccepted(Attributes.Registered[2], |args|)
    ensures var d := Attributes.Registered[2];
      SpecOf([AnnotationOf(Attributes.Annotation(d.annotation, args, WrittenText(d, args)))]) == IntendedSpec(d) == Include
  {
    var d := Attributes.Registered[2];
    assert d == Attributes.MemberDirective("refl::include", "refl_include", 0);
    var a := AnnotationOf(Attributes.Annotation(d.annotation, args, WrittenText(d, args)));
    SpecOfSingle(a);
    IncludeText();
  }

  lemma Directive3Classifies(args: seq<string>)
    requires Attributes.ArityAccepted(Attributes.Registered[3], |args|)
    ensures var d := Attributes.Registered[3];
      SpecOf([AnnotationOf(Attributes.Annotation(d.annotation, args, WrittenText(d, args)))]) == IntendedSpec(d) == Exclude
  {
    var d := Attributes.Registered[3];
    assert d == Attributes.MemberDirective("refl::exclude", "refl_exclude", 0);
    var a := AnnotationOf(Attributes.Annotation(d.annotation, args, WrittenText(d, args)));
    SpecOfSingle(a);
    ExcludeText();
  }

  lemma Directive4Classifies(args: seq<string>)
    requires Attributes.ArityAccepted(Attributes.Registered[4], |args|)
    ensures var d := Attributes.Registered[4];
      SpecOf([AnnotationOf(Attributes.Annotation(d.annotation, args, WrittenText(d, args)))]) == IntendedSpec(d) == Tag
  {
    var d := Attributes.Registered[4];
    assert d == Attributes.MemberDirective("refl_tag", "refl_tag", 1);
    var a := AnnotationOf(Attributes.Annotation(d.annotation, args, WrittenText(d, args)));
    SpecOfSingle(a);
    assert a.text == "refl_tag" + "(" + args[0] + ")";
    assert a.text == "refl_tag(" + args[0] + ")";
    TagText(args[0]);
    assert d.annotation[5] == 't' && |d.annotation| == 8;
  }

  /**
   * Every registered directive, written canonically with the argument count
   * the plugin accepts, classifies to the spec it stands for.
   */
  lemma RegisteredDirectivesClassify(i: nat, args: seq<string>)
    requires i < |Attributes.Registered|
    requires Attributes.ArityAccepted(Attributes.Registered[i], |args|)
    ensures var d := Attributes.Registered[i];
      SpecOf([AnnotationOf(Attributes.Annotation(d.annotation, args, WrittenText(d, args)))]) == IntendedSpec(d)
  {
    if i == 0 {
      Directive0Classifies(args);
    } else if i == 1 {
      Directive1Classifies(args);
    } else if i == 2 {
      Directive2Classifies(args);
    } else if i == 3 {
      Directive3Classifies(args);
    } else {
      Directive4Classifies(args);
    }
  }

  /** A written `refl_tag(p)` gives the member the single tag `p`. */
  lemma WrittenTagGivesPayload(p: string)
    requires |p| < NPos - 10
    ensures var d := Attributes.Registered[4];
      MemberTags([AnnotationOf(Attributes.Annotation(d.annotation, [p], WrittenText(d, [p])))]) == [p]
  {
    var d := Attributes.Registered[4];
    assert d == Attributes.MemberDirective("refl_tag", "refl_tag", 1);
    assert WrittenText(d, [p]) == "refl_tag" + "(" + p + ")";
    assert "refl_tag" + "(" + p + ")" == "refl_tag(" + p + ")";
    MemberTagsOfWrittenTags([Attribute("annotate", "refl_tag(" + p + ")")], [p]);
  }
}
