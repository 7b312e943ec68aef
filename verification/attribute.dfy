/**
 * The attribute plugin: which declarations the reflection directives may
 * appear on, how many arguments each takes, and the `annotate` attribute
 * each one leaves on the declaration for the extractor to read.
 */
module Attributes {
  import opened Wrappers

  /** The kinds of declaration an attribute can be written on. A constructor is a method. */
  datatype DeclKind = RecordDecl | EnumDecl | VarDecl | FieldDecl | MethodDecl | OtherDecl

  /**
   * A registered directive: a class directive (`ReflectClassAttrInfo`) or a
   * member directive (`ReflectMemberAttrInfo`) with its fixed argument count.
   */
  datatype Directive =
    | ClassDirective(spelling: string, annotation: string)
    | MemberDirective(spelling: string, annotation: string, arity: nat)

  /** The registration table, in registration order. */
  const Registered: seq<Directive> := [
    ClassDirective("refl::none", "refl_none"),
    ClassDirective("refl::all", "refl_all"),
    MemberDirective("refl::include", "refl_include", 0),
    MemberDirective("refl::exclude", "refl_exclude", 0),
    MemberDirective("refl_tag", "refl_tag", 1)
  ]

  /** An attribute as parsed: its spelling, its argument expressions (as text) and its source text. */
  datatype ParsedAttr = ParsedAttr(spelling: string, args: seq<string>, sourceText: string)

  /** An `annotate` attribute attached to a declaration; it keeps the range (source text) of the written attribute. */
  datatype Annotation = Annotation(annotation: string, args: seq<string>, sourceText: string)

  datatype AttrHandling = AttributeApplied | AttributeNotApplied

  datatype Diagnostic =
    | WrongDeclType(spelling: string)   // warning: attribute only applies to some declarations
    | TooManyArgs(message: string)       // error with a custom message

  const ClassArgsMessage: string := "'refl::none/all' attributes do not accept arguments"
  const MemberArgsMessage: string := "'refl::include/exclude/tag' attribute does not accept that many arguments"

  /** `diagAppertainsToDecl`: whether the directive may be written on a declaration of this kind. */
  function AppertainsTo(d: Directive, kind: DeclKind): (r: (bool, Option<Diagnostic>))
    ensures d.ClassDirective? ==> (r.0 <==> kind in {RecordDecl, EnumDecl})
    ensures d.MemberDirective? ==> (r.0 <==> kind in {VarDecl, FieldDecl, MethodDecl})
    ensures r.0 <==> r.1.None?
    ensures !r.0 ==> r.1 == Some(WrongDeclType(d.spelling))
  {
    var ok := match d
      case ClassDirective(_, _) => kind == RecordDecl || kind == EnumDecl
      case MemberDirective(_, _, _) => kind == VarDecl || kind == FieldDecl || kind == MethodDecl;
    (ok, if ok then None else Some(WrongDeclType(d.spelling)))
  }

  /** A declaration: its kind and the attributes attached to it so far (`Decl::addAttr` appends). */
  class Decl {
    const kind: DeclKind
    var attrs: seq<Annotation>

    constructor (kind: DeclKind, attrs: seq<Annotation>)
      ensures this.kind == kind && this.attrs == attrs
    {
      this.kind := kind;
      this.attrs := attrs;
    }

    /**
     * `handleDeclAttribute`: a class directive must have no arguments, a
     * member directive exactly its arity; on a mismatch an error is reported
     * and nothing is attached. Otherwise exactly one `annotate` attribute is
     * added, carrying the directive's annotation name and all arguments in
     * their original order.
     */
    method HandleDeclAttribute(d: Directive, attr: ParsedAttr) returns (h: AttrHandling, diag: Option<Diagnostic>)
      modifies this
      ensures h == AttributeApplied <==> ArityAccepted(d, |attr.args|)
      ensures h == AttributeNotApplied ==> attrs == old(attrs)
      ensures h == AttributeNotApplied ==>
        diag == Some(TooManyArgs(if d.ClassDirective? then ClassArgsMessage else MemberArgsMessage))
      ensures h == AttributeApplied ==>
        diag == None && attrs == old(attrs) + [Annotation(d.annotation, attr.args, attr.sourceText)]
    {
      match d
      case ClassDirective(_, annotation) =>
        if |attr.args| > 0 {
          return AttributeNotApplied, Some(TooManyArgs(ClassArgsMessage));
        }
        attrs := attrs + [Annotation(annotation, [], attr.sourceText)];
        return AttributeApplied, None;
      case MemberDirective(_, annotation, arity) =>
        if |attr.args| != arity {
          return AttributeNotApplied, Some(TooManyArgs(MemberArgsMessage));
        }
        if |attr.args| > 0 {
          var argsBuf: seq<string> := [];
          var i := 0;
          while i < |attr.args|
            invariant 0 <= i <= |attr.args|
            invariant argsBuf == attr.args[..i]
          {
            argsBuf := argsBuf + [attr.args[i]];
            i := i + 1;
          }
          assert argsBuf == attr.args;
          attrs := attrs + [Annotation(annotation, argsBuf, attr.sourceText)];
        } else {
          assert attr.args == [];
          attrs := attrs + [Annotation(annotation, [], attr.sourceText)];
        }
        return AttributeApplied, None;
    }
  }

  /** The argument counts a directive accepts: none for a class directive, exactly its arity for a member one. */
  predicate ArityAccepted(d: Directive, n: nat)
  {
    match d
    case ClassDirective(_, _) => n == 0
    case MemberDirective(_, _, arity) => n == arity
  }

  /** The table: the two class directives take no argument; include and exclude none; refl_tag exactly one. */
  lemma RegisteredArities()
    ensures forall d :: d in Registered && d.ClassDirective? ==> (forall n: nat :: ArityAccepted(d, n) <==> n == 0)
    ensures forall d :: d in Registered && d.MemberDirective? ==>
      (d.arity == 1 <==> d.spelling == "refl_tag")
    ensures forall i, j :: 0 <= i < j < |Registered| ==> Registered[i].spelling != Registered[j].spelling
  {
  }
}
