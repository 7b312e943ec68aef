/**
 * The metadata runtime (refl.hpp): descriptors of reflected types as values,
 * a registry from types to descriptors, and the generic queries over them —
 * `with`, `for_each`, the access-bounded inherited traversal, constructor
 * classification, tag queries and the `e::` enum wrappers.
 *
 * C++ types become `Type` values; a compile-time fold that calls a visitor
 * once per tuple element becomes the sequence of calls the visitor receives.
 */
module Refl {
  import opened Wrappers
  import EnumMeta

  /** refl::AccessSpecifier, compared through its integer value. */
  datatype Access = Private | Protected | Public

  /** `static_cast<int>(access)`: Private < Protected < Public, and no two levels share a rank. */
  function Rank(a: Access): (r: nat)
    ensures r < 3
    ensures (r == 0 <==> a == Private) && (r == 1 <==> a == Protected) && (r == 2 <==> a == Public)
  {
    match a
    case Private => 0
    case Protected => 1
    case Public => 2
  }

  /** The threshold test of the inherited traversal: `(int)access >= (int)min`. */
  predicate AtLeast(a: Access, min: Access)
  {
    Rank(a) >= Rank(min)
  }

  /** AtLeast is a total order with Private at the bottom and Public at the top. */
  lemma AccessTotalOrder(a: Access, b: Access, c: Access)
    ensures AtLeast(a, a)
    ensures AtLeast(a, b) || AtLeast(b, a)
    ensures AtLeast(a, b) && AtLeast(b, a) ==> a == b
    ensures AtLeast(a, b) && AtLeast(b, c) ==> AtLeast(a, c)
    ensures AtLeast(a, Private) && AtLeast(Public, a)
  {
  }

  /** A C++ type, as far as the runtime compares types: named, const-qualified, or a reference. */
  datatype Type = Named(name: string) | Const(inner: Type) | LRef(target: Type) | RRef(target: Type)

  /** A tag attached to a member: the tag's type and its (opaque) value. */
  datatype TagValue = TagValue(ty: Type, payload: string)

  /** What a member pointer points through: `T::*` for instance members, a plain pointer for statics. */
  datatype PointerKind = MemberPointer | StaticPointer

  /** refl::Func<P, N, UN, ON, VIRT, A, R, Params, TAGS...>. */
  datatype Func = Func(
    ptr: PointerKind, name: string, qualifiedName: string, fullName: string, isVirtual: bool,
    access: Access, returnType: Type, paramTypes: seq<Type>, paramNames: seq<string>, tags: seq<TagValue>)

  /** refl::Var<P, N, UN, MUT, A, TAGS...>. */
  datatype Var = Var(
    ptr: PointerKind, name: string, qualifiedName: string, isMutable: bool, access: Access, tags: seq<TagValue>)

  /** refl::Constr<N, T, Params, TAGS...>. */
  datatype Constr = Constr(name: string, ty: Type, paramTypes: seq<Type>, paramNames: seq<string>, tags: seq<TagValue>)

  /** refl::Base<B, I>. */
  datatype Base = Base(ty: Type, access: Access)

  /** `meta<T>` of a reflected type: a RecordType or an EnumType. */
  datatype Meta =
    | Record(ty: Type, name: string, qualifiedName: string, bases: seq<Base>,
             functions: seq<Func>, variables: seq<Var>, constructors: seq<Constr>)
    | Enum(ty: Type, name: string, qualifiedName: string, enumerators: seq<EnumMeta.Enumerator>)

  /**
   * The reflected types of a program. `rank` is a measure that decreases
   * along every base edge between reflected types: the host language forbids
   * a class from (indirectly) deriving from itself.
   */
  datatype Registry = Registry(metas: map<Type, Meta>, rank: map<Type, nat>) {
    predicate Valid()
    {
      (forall t :: t in metas ==> t in rank && metas[t].ty == t)
      && (forall t, b :: t in metas && metas[t].Record? && b in metas[t].bases && b.ty in metas ==>
            rank[b.ty] < rank[t])
    }
  }

  /** `Func::is_instance()` / `Var::is_instance()`: the pointer is a member pointer. */
  predicate FuncIsInstance(f: Func) { f.ptr == MemberPointer }

  predicate VarIsInstance(v: Var) { v.ptr == MemberPointer }

  // ---------------------------------------------------------------- with

  /** The concept `reflected<T...>`: every type has a descriptor. */
  predicate Reflected(reg: Registry, ts: seq<Type>)
  {
    forall i :: 0 <= i < |ts| ==> ts[i] in reg.metas
  }

  /**
   * The calls `with<T...>(c)` makes: exactly one, handing over `meta<T>...`
   * in order, when every type is reflected; otherwise none, and nothing is
   * thrown (the runtime_error is constructed and discarded).
   */
  function With(reg: Registry, ts: seq<Type>): (calls: seq<seq<Meta>>)
    ensures |calls| <= 1
    ensures |calls| == 1 <==> Reflected(reg, ts)
    ensures |calls| == 1 ==> |calls[0]| == |ts| && forall i :: 0 <= i < |ts| ==> calls[0][i] == reg.metas[ts[i]]
  {
    if Reflected(reg, ts) then [seq(|ts|, i requires 0 <= i < |ts| && Reflected(reg, ts) => reg.metas[ts[i]])]
    else []
  }

  // ---------------------------------------------------------------- for_each

  /** `for_each<T>(f)`: the visitor is invoked once per tuple element, in index order. */
  function ForEach<X, Y>(xs: seq<X>, visit: X -> Y): (calls: seq<Y>)
    ensures |calls| == |xs|
    ensures forall i :: 0 <= i < |xs| ==> calls[i] == visit(xs[i])
  {
    if xs == [] then [] else [visit(xs[0])] + ForEach(xs[1..], visit)
  }

  /** `for_each_parameter<T>(f)`: element `I` of the parameter tuple is visited with `I` and `names[I]`. */
  function ForEachParameter(types: seq<Type>, names: seq<string>): (calls: seq<(Type, nat, string)>)
    requires |types| <= |names|
    ensures |calls| == |types|
    ensures forall i :: 0 <= i < |types| ==> calls[i].0 == types[i] && calls[i].1 == i && calls[i].2 == names[i]
  {
    ParametersFrom(types, names, 0)
  }

  function ParametersFrom(types: seq<Type>, names: seq<string>, from: nat): (calls: seq<(Type, nat, string)>)
    requires from <= |types| <= |names|
    ensures |calls| == |types| - from
    ensures forall i :: from <= i < |types| ==> calls[i - from] == (types[i], i, names[i])
    decreases |types| - from
  {
    if from == |types| then [] else [(types[from], from, names[from])] + ParametersFrom(types, names, from + 1)
  }

  // ---------------------------------------------------------------- inherited traversal

  function BasesOf(m: Meta): seq<Base>
  {
    if m.Record? then m.bases else []
  }

  /** The functions `for_each_function<M>` visits: a record's own list (an enum is no meta_type). */
  function OwnFunctions(m: Meta): seq<Func>
  {
    if m.Record? then m.functions else []
  }

  function OwnVariables(m: Meta): seq<Var>
  {
    if m.Record? then m.variables else []
  }

  /**
   * The access-bounded traversal of `for_each_function<M, A>`: the members
   * `own` selects from `t` itself, then, base by base in declaration order,
   * the same traversal of every reflected base inherited with access at
   * least `min` — with the same `min`.
   */
  function Inherited<X>(reg: Registry, t: Type, min: Access, own: Meta -> seq<X>): (r: seq<X>)
    requires reg.Valid() && t in reg.metas
    ensures |own(reg.metas[t])| <= |r| && r[..|own(reg.metas[t])|] == own(reg.metas[t])
    decreases reg.rank[t] + 1, 0
  {
    own(reg.metas[t]) + FromBases(reg, BasesOf(reg.metas[t]), min, own, reg.rank[t])
  }

  function FromBases<X>(reg: Registry, bs: seq<Base>, min: Access, own: Meta -> seq<X>, bound: nat): seq<X>
    requires reg.Valid()
    requires forall b :: b in bs && b.ty in reg.metas ==> reg.rank[b.ty] < bound
    decreases bound, |bs|
  {
    if bs == [] then []
    else
      (if AtLeast(bs[0].access, min) && bs[0].ty in reg.metas then Inherited(reg, bs[0].ty, min, own) else [])
      + FromBases(reg, bs[1..], min, own, bound)
  }

  /** `for_each_function<M, A>`. */
  function ForEachFunction(reg: Registry, t: Type, min: Access): (r: seq<Func>)
    requires reg.Valid() && t in reg.metas
    ensures |OwnFunctions(reg.metas[t])| <= |r| && r[..|OwnFunctions(reg.metas[t])|] == OwnFunctions(reg.metas[t])
  {
    Inherited(reg, t, min, OwnFunctions)
  }

  /** `u` derives directly from `v` through a reflected base inherited with access at least `min`. */
  predicate IsBaseEdge(reg: Registry, u: Type, v: Type, min: Access)
  {
    u in reg.metas && v in reg.metas &&
    exists b :: b in BasesOf(reg.metas[u]) && b.ty == v && AtLeast(b.access, min)
  }

  /** A chain of reflected types, each a base of the one before it, reached through edges of access at least `min`. */
  predicate IsPath(reg: Registry, min: Access, p: seq<Type>)
  {
    |p| >= 1 && (forall i :: 0 <= i < |p| ==> p[i] in reg.metas)
    && forall i :: 0 <= i < |p| - 1 ==> IsBaseEdge(reg, p[i], p[i + 1], min)
  }

  lemma {:induction false} FromBasesMembers<X>(reg: Registry, bs: seq<Base>, min: Access, own: Meta -> seq<X>, bound: nat, x: X)
    requires reg.Valid()
    requires forall b :: b in bs && b.ty in reg.metas ==> reg.rank[b.ty] < bound
    ensures x in FromBases(reg, bs, min, own, bound) <==>
      exists k :: 0 <= k < |bs| && AtLeast(bs[k].access, min) && bs[k].ty in reg.metas && x in Inherited(reg, bs[k].ty, min, own)
    decreases |bs|
  {
    if bs != [] {
      FromBasesMembers(reg, bs[1..], min, own, bound, x);
      assert forall k :: 0 < k < |bs| ==> bs[k] == bs[1..][k - 1];
      if exists k :: 0 <= k < |bs| && AtLeast(bs[k].access, min) && bs[k].ty in reg.metas && x in Inherited(reg, bs[k].ty, min, own) {
        var k :| 0 <= k < |bs| && AtLeast(bs[k].access, min) && bs[k].ty in reg.metas && x in Inherited(reg, bs[k].ty, min, own);
        if k > 0 {
          assert bs[1..][k - 1] == bs[k];
        }
      }
    }
  }

  /** A base edge followed by a path is a path. */
  lemma PathCons(reg: Registry, min: Access, t: Type, q: seq<Type>)
    requires IsPath(reg, min, q) && IsBaseEdge(reg, t, q[0], min)
    ensures IsPath(reg, min, [t] + q) && ([t] + q)[0] == t && ([t] + q)[|q|] == q[|q| - 1]
  {
    var p := [t] + q;
    forall i | 0 <= i < |p| - 1 ensures IsBaseEdge(reg, p[i], p[i + 1], min) {
      if i > 0 {
        assert p[i] == q[i - 1] && p[i + 1] == q[i];
      }
    }
    forall i | 0 <= i < |p| ensures p[i] in reg.metas {
      if i > 0 {
        assert p[i] == q[i - 1];
      }
    }
  }

  /** Every member the inherited traversal visits belongs to a type reachable from `t`. */
  lemma {:induction false} InheritedHasPath<X>(reg: Registry, t: Type, min: Access, own: Meta -> seq<X>, x: X)
    requires reg.Valid() && t in reg.metas
    requires x in Inherited(reg, t, min, own)
    ensures exists p :: IsPath(reg, min, p) && p[0] == t && x in own(reg.metas[p[|p| - 1]])
    decreases reg.rank[t]
  {
    var bs := BasesOf(reg.metas[t]);
    if x in own(reg.metas[t]) {
      assert IsPath(reg, min, [t]);
    } else {
      FromBasesMembers(reg, bs, min, own, reg.rank[t], x);
      var k :| 0 <= k < |bs| && AtLeast(bs[k].access, min) && bs[k].ty in reg.metas && x in Inherited(reg, bs[k].ty, min, own);
      InheritedHasPath(reg, bs[k].ty, min, own, x);
      var q :| IsPath(reg, min, q) && q[0] == bs[k].ty && x in own(reg.metas[q[|q| - 1]]);
      assert IsBaseEdge(reg, t, q[0], min) by {
        assert bs[k] in BasesOf(reg.metas[t]);
      }
      PathCons(reg, min, t, q);
      assert x in own(reg.metas[([t] + q)[|[t] + q| - 1]]);
    }
  }

  /** Every member of a type reachable from `t` is visited by the inherited traversal. */
  lemma {:induction false} PathIsInherited<X>(reg: Registry, t: Type, min: Access, own: Meta -> seq<X>, x: X, p: seq<Type>)
    requires reg.Valid() && t in reg.metas
    requires IsPath(reg, min, p) && p[0] == t && x in own(reg.metas[p[|p| - 1]])
    ensures x in Inherited(reg, t, min, own)
    decreases |p|
  {
    if |p| > 1 {
      var bs := BasesOf(reg.metas[t]);
      assert IsBaseEdge(reg, p[0], p[1], min);
      var b :| b in bs && b.ty == p[1] && AtLeast(b.access, min);
      var k :| 0 <= k < |bs| && bs[k] == b;
      var q := p[1..];
      forall i | 0 <= i < |q| - 1 ensures IsBaseEdge(reg, q[i], q[i + 1], min) {
        assert q[i] == p[i + 1] && q[i + 1] == p[i + 2];
      }
      assert IsPath(reg, min, q);
      assert q[|q| - 1] == p[|p| - 1];
      PathIsInherited(reg, p[1], min, own, x, q);
      FromBasesMembers(reg, bs, min, own, reg.rank[t], x);
    }
  }

  /**
   * What the inherited traversal visits: exactly the members of the types
   * reachable from `t` along base edges of access at least `min`.
   */
  lemma InheritedMembers<X>(reg: Registry, t: Type, min: Access, own: Meta -> seq<X>, x: X)
    requires reg.Valid() && t in reg.metas
    ensures x in Inherited(reg, t, min, own) <==>
      exists p :: IsPath(reg, min, p) && p[0] == t && x in own(reg.metas[p[|p| - 1]])
  {
    if x in Inherited(reg, t, min, own) {
      InheritedHasPath(reg, t, min, own, x);
    }
    if exists p :: IsPath(reg, min, p) && p[0] == t && x in own(reg.metas[p[|p| - 1]]) {
      var p :| IsPath(reg, min, p) && p[0] == t && x in own(reg.metas[p[|p| - 1]]);
      PathIsInherited(reg, t, min, own, x, p);
    }
  }

  /** Lowering the threshold never loses a member: a `Private` traversal visits everything a `Public` one does. */
  lemma LowerThresholdVisitsMore<X>(reg: Registry, t: Type, lower: Access, higher: Access, own: Meta -> seq<X>, x: X)
    requires reg.Valid() && t in reg.metas
    requires Rank(lower) <= Rank(higher)
    requires x in Inherited(reg, t, higher, own)
    ensures x in Inherited(reg, t, lower, own)
  {
    InheritedHasPath(reg, t, higher, own, x);
    var p :| IsPath(reg, higher, p) && p[0] == t && x in own(reg.metas[p[|p| - 1]]);
    forall i | 0 <= i < |p| - 1 ensures IsBaseEdge(reg, p[i], p[i + 1], lower) {
      assert IsBaseEdge(reg, p[i], p[i + 1], higher);
    }
    assert IsPath(reg, lower, p);
    PathIsInherited(reg, t, lower, own, x, p);
  }

  /** `for_each_variable<M, A>` as evidently intended: the same traversal over `variables`. */
  function ForEachVariable(reg: Registry, t: Type, min: Access): (r: seq<Var>)
    requires reg.Valid() && t in reg.metas
    ensures |OwnVariables(reg.metas[t])| <= |r| && r[..|OwnVariables(reg.metas[t])|] == OwnVariables(reg.metas[t])
  {
    Inherited(reg, t, min, OwnVariables)
  }

  /** The variables the (intended) traversal visits are those of the types reachable at access `min` or more. */
  lemma ForEachVariableVisits(reg: Registry, t: Type, min: Access, v: Var)
    requires reg.Valid() && t in reg.metas
    ensures v in ForEachVariable(reg, t, min) <==>
      exists p :: IsPath(reg, min, p) && p[0] == t && v in OwnVariables(reg.metas[p[|p| - 1]])
  {
    InheritedMembers(reg, t, min, OwnVariables, v);
  }

  /** The member type aliases a RecordType declares. */
  const RecordAliases: set<string> := {"type", "base_classes", "functions", "variables", "constructors"}

  /**
   * `for_each_variable<M, A>` as written: its first statement names
   * `T::variable`, an alias no meta type declares, so every instantiation is
   * ill-formed.
   */
  function ForEachVariableAsWritten(reg: Registry, t: Type, min: Access): (r: Result<seq<Var>, string>)
    requires reg.Valid() && t in reg.metas
  {
    if "variable" in RecordAliases then Ok(Inherited(reg, t, min, OwnVariables))
    else Err("no type named 'variable' in the meta type")
  }

  /** No record, however declared, can be traversed by the written `for_each_variable<M, A>`. */
  lemma ForEachVariableAsWrittenIllFormed(reg: Registry, t: Type, min: Access)
    requires reg.Valid() && t in reg.metas
    ensures ForEachVariableAsWritten(reg, t, min).Err?
  {
  }

  // ---------------------------------------------------------------- constructors

  /** `Constr::is_default()`: no parameters. */
  predicate IsDefault(c: Constr) { |c.paramTypes| == 0 }

  /** `Constr::is_copy()`: exactly one parameter, of type `const T&`. */
  predicate IsCopy(c: Constr) { |c.paramTypes| == 1 && c.paramTypes[0] == LRef(Const(c.ty)) }

  /** `Constr::is_move_copy()`: exactly one parameter, of type `T&&`. */
  predicate IsMoveCopy(c: Constr) { |c.paramTypes| == 1 && c.paramTypes[0] == RRef(c.ty) }

  /**
   * `Constr::is_move_copy()` as written: unlike `is_copy`, it names
   * `tuple_element_t<0, parameter_types>` without an `if constexpr` guard,
   * so for a constructor without parameters the index is out of range and
   * the instantiation is ill-formed.
   */
  function IsMoveCopyAsWritten(c: Constr): (r: Result<bool, string>)
    ensures r.Err? <==> |c.paramTypes| == 0
  {
    if |c.paramTypes| == 0 then Err("tuple index must be in range")
    else Ok(|c.paramTypes| == 1 && c.paramTypes[0] == RRef(c.ty))
  }

  /** Asking the written `is_move_copy()` of a default constructor does not compile. */
  lemma MoveCopyAsWrittenIllFormed(c: Constr)
    requires IsDefault(c)
    ensures IsMoveCopyAsWritten(c).Err?
  {
  }

  /**
   * The guarded `is_move_copy()` answers for every constructor: false for a
   * default one, and what the written one answers wherever that compiles.
   */
  lemma MoveCopyGuarded(c: Constr)
    ensures IsDefault(c) ==> !IsMoveCopy(c)
    ensures !IsDefault(c) ==> IsMoveCopyAsWritten(c) == Ok(IsMoveCopy(c))
  {
  }

  /** A constructor is at most one of default, copy and move. */
  lemma ConstructorKindsExclusive(c: Constr)
    ensures !(IsDefault(c) && IsCopy(c)) && !(IsDefault(c) && IsMoveCopy(c)) && !(IsCopy(c) && IsMoveCopy(c))
  {
  }

  // ---------------------------------------------------------------- tags

  /** `has_tag<T, TAG>`: some tag has type TAG. */
  predicate HasTag(tags: seq<TagValue>, tag: Type)
  {
    exists i :: 0 <= i < |tags| && tags[i].ty == tag
  }

  /**
   * The calls `with_tag<T, TAG>(func)` makes: one per tag of type TAG, in
   * tag order; none when there is no such tag.
   */
  function WithTag(tags: seq<TagValue>, tag: Type): (calls: seq<TagValue>)
    ensures forall c :: c in calls ==> c.ty == tag && c in tags
    ensures |calls| <= |tags|
  {
    if tags == [] then []
    else (if tags[0].ty == tag then [tags[0]] else []) + WithTag(tags[1..], tag)
  }

  /** `with_tag` calls `func` at all exactly when `has_tag` holds. */
  lemma {:induction false} WithTagCallsIffHasTag(tags: seq<TagValue>, tag: Type)
    ensures WithTag(tags, tag) != [] <==> HasTag(tags, tag)
  {
    if tags != [] {
      WithTagCallsIffHasTag(tags[1..], tag);
      if HasTag(tags[1..], tag) {
        var i :| 0 <= i < |tags[1..]| && tags[1..][i].ty == tag;
        assert tags[i + 1] == tags[1..][i];
      }
      if tags[0].ty != tag && HasTag(tags, tag) {
        var i :| 0 <= i < |tags| && tags[i].ty == tag;
        assert tags[1..][i - 1] == tags[i];
      }
    }
  }

  /** Every tag of type TAG leads to a call. */
  lemma {:induction false} WithTagCallsEveryMatch(tags: seq<TagValue>, tag: Type)
    ensures forall i :: 0 <= i < |tags| && tags[i].ty == tag ==> tags[i] in WithTag(tags, tag)
  {
    if tags != [] {
      WithTagCallsEveryMatch(tags[1..], tag);
      var rest := WithTag(tags[1..], tag);
      assert WithTag(tags, tag) == (if tags[0].ty == tag then [tags[0]] else []) + rest;
      forall i | 0 < i < |tags| && tags[i].ty == tag
        ensures tags[i] in WithTag(tags, tag)
      {
        assert tags[1..][i - 1] == tags[i];
      }
    }
  }

  /** The first call is for the first tag of type TAG. */
  lemma {:induction false} WithTagFirstCall(tags: seq<TagValue>, tag: Type, i: nat)
    requires i < |tags| && tags[i].ty == tag
    requires forall j :: 0 <= j < i ==> tags[j].ty != tag
    ensures WithTag(tags, tag) != [] && WithTag(tags, tag)[0] == tags[i]
  {
    if i > 0 {
      WithTagFirstCall(tags[1..], tag, i - 1);
      assert tags[1..][i - 1] == tags[i];
    }
  }

  /** The calls for a concatenated tag list are the calls for each part, in order. */
  lemma {:induction false} WithTagAppend(a: seq<TagValue>, b: seq<TagValue>, tag: Type)
    ensures WithTag(a + b, tag) == WithTag(a, tag) + WithTag(b, tag)
  {
    if a != [] {
      var ab := a + b;
      assert ab[0] == a[0];
      assert ab[1..] == a[1..] + b;
      WithTagAppend(a[1..], b, tag);
      var h := if a[0].ty == tag then [a[0]] else [];
      assert WithTag(ab, tag) == h + WithTag(ab[1..], tag);
      assert WithTag(a, tag) == h + WithTag(a[1..], tag);
    } else {
      assert a + b == b;
    }
  }

  // ---------------------------------------------------------------- e:: wrappers

  const NotReflectedEnum: string := "reflection is not available for this enum"

  /** The `c_enum` constraint of the `e::` functions, as far as the registry can tell. */
  predicate IsEnumType(reg: Registry, t: Type)
  {
    t in reg.metas ==> reg.metas[t].Enum?
  }

  /** `e::from_string<T>`: the generated lookup, or the runtime_error for an unreflected enum. */
  function EFromString(reg: Registry, t: Type, n: string): (r: Result<Option<int>, string>)
    requires IsEnumType(reg, t)
    ensures r.Err? <==> t !in reg.metas
    ensures r.Err? ==> r.error == NotReflectedEnum
    ensures r.Ok? ==> r.value == EnumMeta.FromString(reg.metas[t].enumerators, n)
  {
    if t in reg.metas then Ok(EnumMeta.FromString(reg.metas[t].enumerators, n)) else Err(NotReflectedEnum)
  }

  /** `e::to_string<T>`: defined for valid values of a reflected enum. */
  function EToString(reg: Registry, t: Type, v: int): (r: Result<string, string>)
    requires IsEnumType(reg, t)
    requires t in reg.metas ==> EnumMeta.HasValue(reg.metas[t].enumerators, v)
    ensures r.Err? <==> t !in reg.metas
    ensures r.Err? ==> r.error == NotReflectedEnum
    ensures r.Ok? ==> (exists i :: 0 <= i < |reg.metas[t].enumerators| &&
                         reg.metas[t].enumerators[i] == EnumMeta.Enumerator(r.value, v))
  {
    if t in reg.metas then Ok(EnumMeta.ToString(reg.metas[t].enumerators, v)) else Err(NotReflectedEnum)
  }

  /** `e::to_string_safe<T>`. */
  function EToStringSafe(reg: Registry, t: Type, v: int): (r: Result<string, string>)
    requires IsEnumType(reg, t)
    ensures r.Err? <==> t !in reg.metas
    ensures r.Err? ==> r.error == NotReflectedEnum
    ensures r.Ok? ==> r.value == EnumMeta.ToStringSafe(reg.metas[t].enumerators, v)
  {
    if t in reg.metas then Ok(EnumMeta.ToStringSafe(reg.metas[t].enumerators, v)) else Err(NotReflectedEnum)
  }

  /** `e::valid<T>`. */
  function EValid(reg: Registry, t: Type, v: int): (r: Result<bool, string>)
    requires IsEnumType(reg, t)
    ensures r.Err? <==> t !in reg.metas
    ensures r.Err? ==> r.error == NotReflectedEnum
    ensures r.Ok? ==> (r.value <==> EnumMeta.HasValue(reg.metas[t].enumerators, v))
  {
    if t in reg.metas then Ok(EnumMeta.Valid(reg.metas[t].enumerators, v)) else Err(NotReflectedEnum)
  }

  /**
   * `e::for_each<T>(func)`: a loop over the enumerator table calling
   * `func(value, name)` once per enumerator, in declaration order.
   */
  method EForEach(reg: Registry, t: Type) returns (r: Result<seq<(int, string)>, string>)
    requires IsEnumType(reg, t)
    ensures r.Err? <==> t !in reg.metas
    ensures r.Err? ==> r.error == NotReflectedEnum
    ensures r.Ok? ==>
      var es := reg.metas[t].enumerators;
      |r.value| == |es| && forall i :: 0 <= i < |es| ==> r.value[i] == (es[i].value, es[i].name)
  {
    if t !in reg.metas {
      return Err(NotReflectedEnum);
    }
    var es := reg.metas[t].enumerators;
    var calls: seq<(int, string)> := [];
    for i := 0 to |es|
      invariant |calls| == i
      invariant forall k :: 0 <= k < i ==> calls[k] == (es[k].value, es[k].name)
    {
      calls := calls + [(es[i].value, es[i].name)];
    }
    return Ok(calls);
  }
}
