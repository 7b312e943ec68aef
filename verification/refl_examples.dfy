/**
 * Concrete registries mirroring declarations of the class tests: the
 * `Derived` hierarchy and the `Constructors` record.
 */
module ReflExamples {
  import opened Refl

  function Fn(owner: string, name: string, virt: bool): Func
  {
    Func(MemberPointer, name, owner + "::" + name, name + "()", virt, Public, Named("void"), [], [], [])
  }

  const DerivedT := Named("Derived")
  const PrivateBaseT := Named("PrivateBase")
  const ProtectedBaseT := Named("ProtectedBase")
  const PublicBaseT := Named("PublicBase")
  const PublicVirtualBaseT := Named("PublicVirtualBase")

  function Rec(t: Type, bases: seq<Base>, fs: seq<Func>): Meta
    requires t.Named?
  {
    Record(t, t.name, t.name, bases, fs, [], [])
  }

  /** `Derived : private PrivateBase, protected ProtectedBase, public PublicBase, virtual public PublicVirtualBase`. */
  function DerivedRegistry(): Registry
  {
    Registry(
      map[
        DerivedT := Rec(DerivedT,
          [Base(PrivateBaseT, Private), Base(ProtectedBaseT, Protected),
           Base(PublicBaseT, Public), Base(PublicVirtualBaseT, Public)],
          [Fn("Derived", "bar", false), Fn("Derived", "foo", true), Fn("Derived", "baz", true)]),
        PrivateBaseT := Rec(PrivateBaseT, [], [Fn("PrivateBase", "bar", false)]),
        ProtectedBaseT := Rec(ProtectedBaseT, [], []),
        PublicBaseT := Rec(PublicBaseT, [],
          [Fn("PublicBase", "foo", true), Fn("PublicBase", "baz", true), Fn("PublicBase", "notOverriden", true)]),
        PublicVirtualBaseT := Rec(PublicVirtualBaseT, [], [])
      ],
      map[DerivedT := 1, PrivateBaseT := 0, ProtectedBaseT := 0, PublicBaseT := 0, PublicVirtualBaseT := 0])
  }

  lemma DerivedRegistryValid()
    ensures DerivedRegistry().Valid()
  {
  }

  /** A base without bases of its own contributes exactly its own functions, at any threshold. */
  lemma LeafFunctions(reg: Registry, t: Type, min: Access)
    requires reg.Valid() && t in reg.metas && BasesOf(reg.metas[t]) == []
    ensures ForEachFunction(reg, t, min) == OwnFunctions(reg.metas[t])
  {
    assert FromBases(reg, [], min, OwnFunctions, reg.rank[t]) == [];
    assert OwnFunctions(reg.metas[t]) + [] == OwnFunctions(reg.metas[t]);
  }

  /** The number of functions the bases passing the threshold contribute, when every base is a leaf. */
  function CountPassing(reg: Registry, bs: seq<Base>, min: Access): nat
    requires forall b :: b in bs ==> b.ty in reg.metas
  {
    if bs == [] then 0
    else (if AtLeast(bs[0].access, min) then |OwnFunctions(reg.metas[bs[0].ty])| else 0) + CountPassing(reg, bs[1..], min)
  }

  lemma {:induction false} FromLeafBases(reg: Registry, bs: seq<Base>, min: Access, bound: nat)
    requires reg.Valid()
    requires forall b :: b in bs ==> b.ty in reg.metas && BasesOf(reg.metas[b.ty]) == [] && reg.rank[b.ty] < bound
    ensures |FromBases(reg, bs, min, OwnFunctions, bound)| == CountPassing(reg, bs, min)
  {
    if bs != [] {
      FromLeafBases(reg, bs[1..], min, bound);
      if AtLeast(bs[0].access, min) {
        LeafFunctions(reg, bs[0].ty, min);
      }
    }
  }

  /** A record whose bases are all leaves: its own functions, then those of each base passing the threshold. */
  lemma LeafBasesFunctions(reg: Registry, t: Type, min: Access)
    requires reg.Valid() && t in reg.metas
    requires forall b :: b in BasesOf(reg.metas[t]) ==> b.ty in reg.metas && BasesOf(reg.metas[b.ty]) == []
    ensures |ForEachFunction(reg, t, min)| == |OwnFunctions(reg.metas[t])| + CountPassing(reg, BasesOf(reg.metas[t]), min)
  {
    FromLeafBases(reg, BasesOf(reg.metas[t]), min, reg.rank[t]);
  }

  /** Every base of `Derived` is a reflected leaf. */
  lemma DerivedBasesAreLeaves()
    ensures var reg := DerivedRegistry();
      DerivedT in reg.metas &&
      BasesOf(reg.metas[DerivedT]) ==
        [Base(PrivateBaseT, Private), Base(ProtectedBaseT, Protected), Base(PublicBaseT, Public), Base(PublicVirtualBaseT, Public)] &&
      (forall b :: b in BasesOf(reg.metas[DerivedT]) ==> b.ty in reg.metas && BasesOf(reg.metas[b.ty]) == []) &&
      |OwnFunctions(reg.metas[DerivedT])| == 3 && |OwnFunctions(reg.metas[PrivateBaseT])| == 1 &&
      |OwnFunctions(reg.metas[ProtectedBaseT])| == 0 && |OwnFunctions(reg.metas[PublicBaseT])| == 3 &&
      |OwnFunctions(reg.metas[PublicVirtualBaseT])| == 0
  {
  }

  /** The count over four leaf bases, one base at a time. */
  lemma CountFour(reg: Registry, bs: seq<Base>, min: Access)
    requires |bs| == 4 && forall b :: b in bs ==> b.ty in reg.metas
    ensures CountPassing(reg, bs, min) ==
      (if AtLeast(bs[0].access, min) then |OwnFunctions(reg.metas[bs[0].ty])| else 0) +
      (if AtLeast(bs[1].access, min) then |OwnFunctions(reg.metas[bs[1].ty])| else 0) +
      (if AtLeast(bs[2].access, min) then |OwnFunctions(reg.metas[bs[2].ty])| else 0) +
      (if AtLeast(bs[3].access, min) then |OwnFunctions(reg.metas[bs[3].ty])| else 0)
  {
    var b1 := bs[1..];
    var b2 := b1[1..];
    var b3 := b2[1..];
    assert b3 == [bs[3]] && b2[0] == bs[2] && b1[0] == bs[1];
    assert b3[1..] == [];
    assert CountPassing(reg, b3[1..], min) == 0;
    var c3 := CountPassing(reg, b3, min);
    assert c3 == (if AtLeast(bs[3].access, min) then |OwnFunctions(reg.metas[bs[3].ty])| else 0);
    var c2 := CountPassing(reg, b2, min);
    assert c2 == (if AtLeast(bs[2].access, min) then |OwnFunctions(reg.metas[bs[2].ty])| else 0) + c3;
    var c1 := CountPassing(reg, b1, min);
    assert c1 == (if AtLeast(bs[1].access, min) then |OwnFunctions(reg.metas[bs[1].ty])| else 0) + c2;
  }

  /** The inheritance test, public view: 6 functions reachable at `Public`. */
  lemma DerivedPublicFunctions()
    ensures DerivedRegistry().Valid()
    ensures |ForEachFunction(DerivedRegistry(), DerivedT, Public)| == 6
  {
    var reg := DerivedRegistry();
    DerivedRegistryValid();
    DerivedBasesAreLeaves();
    LeafBasesFunctions(reg, DerivedT, Public);
    CountFour(reg, BasesOf(reg.metas[DerivedT]), Public);
  }

  /** The inheritance test, private view: 7 functions reachable at `Private`. */
  lemma DerivedPrivateFunctions()
    ensures DerivedRegistry().Valid()
    ensures |ForEachFunction(DerivedRegistry(), DerivedT, Private)| == 7
  {
    var reg := DerivedRegistry();
    DerivedRegistryValid();
    DerivedBasesAreLeaves();
    LeafBasesFunctions(reg, DerivedT, Private);
    CountFour(reg, BasesOf(reg.metas[DerivedT]), Private);
  }
}
