# refl — a Dafny model of the compile-time reflection toolkit

refl gives C++ classes and enums static reflection. It has three parts.

- **Attribute plugin** (`src/attribute.cpp`). It registers the directives `refl::none`, `refl::all`, `refl::include`, `refl::exclude` and `refl_tag(x)`. It checks which declarations each may be written on and how many arguments it takes. It leaves an `annotate` attribute on the declaration.
- **Extractor plugin** (`src/plugin.cpp`). It visits every record and enum marked `refl::none` or `refl::all`. It decides from the directives which members to describe, and writes a `_meta` descriptor for the runtime:
  - bases;
  - functions, with overload-disambiguating full names and tag payloads;
  - variables: fields, then static members;
  - constructors;
  - for an enum, the enumerator table and `valid`, `to_string`, `to_string_safe` and `from_string`.
- **Runtime header** (`include/refl/refl.hpp`). It turns descriptors into queries:
  - `with`, `for_each`, `for_each_parameter`;
  - the access-bounded inherited traversals `for_each_function<M, A>` and `for_each_variable<M, A>`;
  - constructor classification;
  - `with_tag` / `has_tag`;
  - the `e::` enum wrappers.

Two example programs use the runtime:
- a serializer (`examples/serialization/serialization.cpp`) writes `{name:value,...}` for records and `[a,b,...]` for vectors;
- a deserializer (`examples/deserialize/deserialize.cpp`) reads such text back into a record.

## How the model is organised

- `text.dfy`, module `Text`: string helpers — prefix and suffix tests, join, character and substring search, first-occurrence replace.
- `lists.dfy`, module `Lists`: `FilterMap`, the shape of every member list the extractor builds.
- `wrappers.dfy`, module `Wrappers`: `Option` and `Result`.
- `cxstring.dfy`, module `CxStrings`: `cxstring<N>` as a class over a character array.
- `enum_meta.dfy`, module `EnumMeta`: the helpers generated for an enum.
- `attribute.dfy`, module `Attributes`: the directive table and `handleDeclAttribute`. A declaration is a class whose attribute list the handler appends to.
- `plugin.dfy`, module `Extractor`:
  - declarations as the compiler front end presents them;
  - the spec classification (`getReflSpec`);
  - the member rules, full names and tag payloads;
  - the record loops, as methods proved against the descriptor functions;
  - the match callback, as a class with its `unique` set.
- `refl.dfy`, module `Refl`: descriptors as values, a registry from types to descriptors, and the runtime queries. The visitor a fold calls once per tuple element becomes the sequence of calls it receives.
- `refl_examples.dfy`, module `ReflExamples`: the `Derived` inheritance hierarchy of the class tests.
- `serialization.dfy`, module `Serialization`: the serializer, as a function and as methods writing to an output stream.
- `deserialize.dfy`, module `Deserialization`: the deserializer, as functions and as the pointer-scanning loops that fill the `members` map. Undefined behaviour (reading past the end of the input) is an explicit `Undefined` error.
- `roundtrip.dfy`, module `RoundTrip`: deserializing the serializer's output restores the record.

Where the design documentation and the code disagree, the model follows the code:
- `with_tag` calls its function for every tag of the requested type, not only the first;
- a reference-qualified full name is written `load(int,int)const &`, with a space before the `&`.

## Model

| member | source | states |
|---|---|---|
| Extractor.Classify | src/plugin.cpp:93-107 | A deciding annotation never yields `unknown`. It yields `tag` exactly when its text starts with `refl_`. Otherwise the suffixes are tried in the order all, none, include, exclude: each spec is given iff its suffix matches and no earlier one does |
| Extractor.SpecOfFirstDeciding | src/plugin.cpp:88-112 | A declaration's spec is `unknown` iff none of its attributes decides. Otherwise it is the classification of the first deciding attribute; later ones are ignored |
| Extractor.GetReflSpec | src/plugin.cpp:88-112 | The attribute loop with its early returns computes exactly that first-deciding spec |
| Extractor.StaticRuleAgrees | src/plugin.cpp:403-409 | For the `all` and `none` records the matcher reflects, the static-member rule accepts exactly the members the method/field/constructor rule accepts |
| Extractor.StaticRuleWithoutRecordSpec | src/plugin.cpp:403-409 | For a record without a spec, the static rule keeps nothing, while the other rule keeps every member not excluded |
| Extractor.ParamType | src/plugin.cpp:294-296 | A parameter type without `_Bool` is written unchanged; otherwise its first `_Bool` becomes `bool` (through `Text.ReplaceFirst`) |
| Extractor.ReturnType | src/plugin.cpp:282-284 | A return type without `_Bool` is written unchanged; otherwise its first `_Bool` becomes `bool ` |
| Text.ReplaceFirst | src/plugin.cpp:283-284 | `find` then `replace`: the text is unchanged without an occurrence; otherwise exactly the first occurrence is replaced and everything around it is kept |
| Extractor.BuildParams | src/plugin.cpp:287-299 | The parameter loop with its separator flag writes the parameter types joined by `,` (no leading or trailing comma), and collects the names in order |
| Extractor.FullName | src/plugin.cpp:300-318 | A method's full name starts with its name and its parenthesised parameter types; `FullNameDisambiguates` states what the rest adds |
| Extractor.ConstructorName | src/plugin.cpp:491 | A constructor's name starts with the record name and `(`, ends with `)`, and holds exactly the comma-joined parameter types in between |
| Extractor.ConstructorNameDisambiguates | src/plugin.cpp:491 | For record names without `(`, equal constructor names imply the same record name and the same parameter list |
| Extractor.RefSuffixShape | src/plugin.cpp:300-306 | The qualifier suffix keeps the qualifiers as a prefix and contains no `)`. No reference qualifier adds nothing; `&` ends in one `&`; `&&` ends in two |
| Extractor.RefSuffixInjective | src/plugin.cpp:300-306 | Different qualifiers or reference qualifiers give different suffixes |
| Extractor.FullNameDisambiguates | src/plugin.cpp:315-318 | Two overloads of one name with the same full name have the same parameter list, qualifiers and reference qualifier: the full name tells overloads apart |
| Extractor.FindFirstOf | src/plugin.cpp:328 | `find_first_of('(')` is the first `(` or `npos` |
| Extractor.FindLastOf | src/plugin.cpp:329 | `find_last_of(')')` is the last `)` or `npos` |
| Extractor.Substr | src/plugin.cpp:330 | `substr(pos, count)` is at most `count` characters from `pos`, and the whole rest when `count` reaches past the end |
| Extractor.TagPayload | src/plugin.cpp:328-330 | The `substr` slice between the first `(` and the last `)` is never longer than the annotation text |
| Extractor.TagPayloadBetween | src/plugin.cpp:328-330 | With a first `(` before a last `)`, the payload sliced in `size_t` arithmetic is exactly the text between them |
| Extractor.TagPayloadOfTag | src/plugin.cpp:328-330 | The payload of `refl_tag(p)` is `p`, whatever parentheses `p` contains |
| Extractor.TagPayloadWithoutParens | src/plugin.cpp:328-330 | Without parentheses both searches return `npos`; the wrap-around makes the payload the whole text |
| Extractor.MemberTagsOfWrittenTags | src/plugin.cpp:319-332 | Attributes written as `refl_tag(p1)`, ..., `refl_tag(pn)` give exactly the tags `p1`, ..., `pn`, in order |
| Extractor.CollectTags | src/plugin.cpp:319-332 | The tag loop of methods, fields and statics emits the payloads of the `annotate` attributes starting with `refl_tag`, in attribute order |
| Extractor.MemberTags | src/plugin.cpp:321-331 | The member tags are at most one per attribute, and none when no attribute is a `refl_tag` annotation |
| Extractor.ConstructorTagsAsWritten | src/plugin.cpp:492-503 | The written constructor loop gives at most one tag per attribute, and none only when no attribute is an `annotate` attribute at all |
| Extractor.ConstructorTags | src/plugin.cpp:492-503 | Corrected constructor tag loop: the same `refl_tag` filter, so a constructor without tag annotations gets no tags |
| Extractor.DirectiveBecomesTag | src/plugin.cpp:492-503 | Any `annotate` text without parentheses that does not start with `refl_tag` becomes a whole-text constructor tag as written, and no tag in the corrected loop |
| Extractor.ConstructorIncludeBecomesTag | src/plugin.cpp:492-503 | As written, the loop turns a `refl::include` directive into the tag argument `refl::include`; the corrected loop gives no tag |
| Extractor.ConstructorTagsAgreeOnTags | src/plugin.cpp:492-503 | When every annotation on a constructor is a `refl_tag`, the loop as written and the corrected one agree |
| Extractor.FuncEntryOf | src/plugin.cpp:308-333 | A function entry carries the method's name, its full name and its tag payloads |
| Extractor.FieldEntryOf | src/plugin.cpp:367-384 | A field entry is an instance variable (`&S::x` names a data member) and carries the field's name, its `mutable` flag and its tag payloads |
| Extractor.StaticEntryOf | src/plugin.cpp:432-452 | A static member entry is not an instance variable (`&S::x` is a plain pointer), carries its name and tags, and is always written non-mutable |
| Extractor.ConstrEntryOf | src/plugin.cpp:479-504 | A constructor entry carries the constructor name and the corrected constructor tags (`ConstructorTags`), not the slices the written loop emits; see Findings |
| Extractor.ExtractRecord | src/plugin.cpp:227-508 | The record descriptor keeps the record's names and every base, in order, with its access |
| Extractor.FunctionListedIff | src/plugin.cpp:252-262 | A function entry is listed iff it comes from a method passing both filters. The structural filter drops constructors, destructors, implicit and deleted methods. The directive rule says exclude always wins and a `none` record needs include or a tag |
| Extractor.FieldListedIff | src/plugin.cpp:339-345 | A field entry is listed iff it comes from a field passing the directive rule |
| Extractor.StaticListedIff | src/plugin.cpp:403-409 | A static entry is listed iff it comes from a static member passing the static rule |
| Extractor.VariablesFieldsThenStatics | src/plugin.cpp:336-454 | A descriptor's variables are the listed fields followed by the listed statics; a variable is an instance variable (its written pointer is a data-member pointer) exactly when it lies in the field part |
| Extractor.ConstructorListedIff | src/plugin.cpp:466-475 | A constructor entry is listed iff it comes from a non-deleted constructor (implicit ones included) passing the directive rule |
| Extractor.ExcludedMethodIgnored | src/plugin.cpp:257-259 | Removing a `refl::exclude` method leaves the whole record descriptor unchanged |
| Extractor.ExcludedFieldIgnored | src/plugin.cpp:340-342 | Removing a `refl::exclude` field leaves the whole record descriptor unchanged |
| Extractor.ExcludedStaticIgnored | src/plugin.cpp:403-409 | Removing a `refl::exclude` static member leaves the whole record descriptor unchanged |
| Extractor.NoneRecordWithoutDirectives | src/plugin.cpp:260-262 | In a `refl::none` record with no include or tag directives, no function, variable or constructor is described |
| Extractor.CollectFunctions | src/plugin.cpp:250-334 | The method loop builds exactly the function list: the filtered methods' entries, in declaration order |
| Extractor.CollectFields | src/plugin.cpp:337-385 | The field loop builds exactly the field list |
| Extractor.CollectStatics | src/plugin.cpp:389-455 | The static-member callback, run per static member, builds exactly the static list |
| Extractor.CollectConstructors | src/plugin.cpp:465-505 | The constructor loop builds exactly the constructor list, with the corrected tags |
| Extractor.CollectBases | src/plugin.cpp:234-247 | The base loop lists every base in order, with its type and access |
| Extractor.ExtractEnum | src/plugin.cpp:512-529 | The enumerator table keeps the enumerators in declaration order. `valid` over it holds exactly for the declared values |
| Extractor.RecordMatchCallback.Run | src/plugin.cpp:222-227 | A record is described the first time its location is seen, and its location joins `unique`. A repeated location emits nothing and changes nothing. Enums are always described. `unique` only grows |
| Extractor.RunAll | src/plugin.cpp:222-225 | Over any sequence of matches, only record matches emit records, and no two emitted records share a location |
| Extractor.RegisteredDirectivesClassify | src/attribute.cpp:117-126 | Each registered directive, written with the argument count its handler accepts, leaves an annotation classified as the spec it stands for |
| Extractor.WrittenTagGivesPayload | src/attribute.cpp:125-126 | A written `refl_tag(p)` gives its member the single tag `p` |
| Attributes.AppertainsTo | src/attribute.cpp:40-88 | Class directives are accepted on records and enums only; member directives on variables, fields and methods only. Otherwise a wrong-declaration-type warning is issued |
| Attributes.Decl.HandleDeclAttribute | src/attribute.cpp:51-111 | A directive applies iff its argument count is accepted: none for class directives, exactly the arity for member ones. On rejection, the given error message and the attribute list unchanged. On success, exactly one `annotate` attribute is appended, with the directive's annotation name and all arguments in order |
| Attributes.RegisteredArities | src/attribute.cpp:117-126 | The class directives take no argument. Of the member directives exactly `refl_tag` takes one. No two directives share a spelling |
| CxStrings.CxString.constructor | include/refl/refl.hpp:20-25 | The constructor copies exactly the first N characters and keeps the terminating NUL |
| CxStrings.CxString.View | include/refl/refl.hpp:27-30 | The `string_view` conversion is the N buffered characters |
| CxStrings.CxString.CString | include/refl/refl.hpp:26 | The `char const*` conversion reads up to the first NUL, which is at the latest the terminator |
| CxStrings.FromLiteral | include/refl/refl.hpp:32 | A literal deduces `cxstring<N - 1>`, whose view is the literal itself |
| EnumMeta.Valid | src/plugin.cpp:531-533 | The generated `valid(v)` holds iff some enumerator has value `v` |
| EnumMeta.ToString | src/plugin.cpp:534-544 | For a valid value, the generated `to_string(v)` names an enumerator with that value |
| EnumMeta.ToStringSafe | src/plugin.cpp:546-555 | The generated `to_string_safe(v)` agrees with `to_string` on valid values and is empty otherwise |
| EnumMeta.FromString | src/plugin.cpp:555-558 | The generated `from_string(n)` is nullopt iff no enumerator is named `n`; otherwise it is the value of an enumerator named `n` |
| EnumMeta.FromStringOfName | src/plugin.cpp:524-558 | With distinct names, each enumerator's name converts back to its value |
| EnumMeta.FromStringToString | src/plugin.cpp:531-558 | `from_string(to_string(v)) == v` for every valid `v` |
| EnumMeta.ToStringFromString | src/plugin.cpp:531-558 | With distinct values, `to_string(*from_string(n)) == n` whenever `from_string(n)` succeeds |
| Refl.Rank | include/refl/refl.hpp:36-40 | The integer value of an access specifier, from the declaration order: Private exactly 0, Protected exactly 1, Public exactly 2 |
| Refl.AccessTotalOrder | include/refl/refl.hpp:226 | The access threshold test is a total order with Private at the bottom and Public at the top |
| Refl.With | include/refl/refl.hpp:187-193 | `with<T...>` makes exactly one call iff every type is reflected, handing over their descriptors in order. Otherwise it makes none and throws nothing |
| Refl.ForEach | include/refl/refl.hpp:195-207 | `for_each` calls the visitor once per tuple element, in index order |
| Refl.ForEachParameter | include/refl/refl.hpp:260-272 | Parameter `i` is visited with its type, its index `i` and its name `names[i]` |
| Refl.FromBasesMembers | include/refl/refl.hpp:251-257 | The traversal over the bases visits a member iff some base passing the access threshold and reflected has it in its own traversal |
| Refl.InheritedHasPath | include/refl/refl.hpp:247-258 | Every function the inherited traversal visits belongs to a type reachable along base edges at or above the threshold |
| Refl.PathIsInherited | include/refl/refl.hpp:247-258 | Every function of a type reachable along such edges is visited |
| Refl.Inherited | include/refl/refl.hpp:247-258 | An access-bounded traversal visits the type's own members first, before anything from its bases |
| Refl.ForEachFunction | include/refl/refl.hpp:247-258 | `for_each_function<M, A>` begins with M's own function list, in order |
| Refl.InheritedMembers | include/refl/refl.hpp:247-258 | `for_each_function<M, A>` visits exactly the functions of the types reachable from M along base edges with access at least A |
| Refl.LowerThresholdVisitsMore | include/refl/refl.hpp:247-258 | Lowering the threshold never loses a function |
| Refl.ForEachVariable | include/refl/refl.hpp:221-232 | The corrected `for_each_variable<M, A>` begins with M's own variable list, in order |
| Refl.ForEachVariableVisits | include/refl/refl.hpp:221-232 | Corrected `for_each_variable<M, A>` visits exactly the variables of the types reachable at access at least A |
| Refl.ForEachVariableAsWrittenIllFormed | include/refl/refl.hpp:222-224 | The written `for_each_variable<M, A>` names `T::variable`, which no descriptor declares, so it is ill-formed for every record |
| Refl.IsMoveCopyAsWritten | include/refl/refl.hpp:154-158 | The written `is_move_copy()` is ill-formed exactly for a constructor without parameters |
| Refl.MoveCopyAsWrittenIllFormed | include/refl/refl.hpp:154-158 | Asking the written `is_move_copy()` of a default constructor does not compile |
| Refl.MoveCopyGuarded | include/refl/refl.hpp:146-158 | The guarded `is_move_copy()` is false for a default constructor and agrees with the written one wherever that compiles |
| Refl.ConstructorKindsExclusive | include/refl/refl.hpp:142-158 | A constructor is at most one of default, copy and move |
| Refl.WithTag | include/refl/refl.hpp:274-292 | `with_tag` calls its function only with tags of the requested type taken from the tag list |
| Refl.WithTagCallsIffHasTag | include/refl/refl.hpp:274-310 | `with_tag` calls its function at all exactly when `has_tag` holds |
| Refl.WithTagCallsEveryMatch | include/refl/refl.hpp:280-286 | Every tag of the requested type leads to a call |
| Refl.WithTagFirstCall | include/refl/refl.hpp:280-286 | The first call is for the first tag of the requested type |
| Refl.WithTagAppend | include/refl/refl.hpp:280-286 | The calls for a concatenated tag list are the calls for each part, in order |
| Refl.EFromString | include/refl/refl.hpp:320-325 | `e::from_string` is the generated lookup for a reflected enum, and the runtime error otherwise |
| Refl.EToString | include/refl/refl.hpp:326-331 | `e::to_string` names an enumerator with the value for a reflected enum, and is the runtime error otherwise |
| Refl.EToStringSafe | include/refl/refl.hpp:332-337 | `e::to_string_safe` is the generated safe lookup, or the runtime error |
| Refl.EValid | include/refl/refl.hpp:338-343 | `e::valid` holds iff the value is declared, or it is the runtime error |
| Refl.EForEach | include/refl/refl.hpp:344-351 | The loop calls `func(value, name)` once per enumerator, in declaration order, or is the runtime error |
| ReflExamples.LeafFunctions | include/refl/refl.hpp:247-258 | A type without bases contributes exactly its own functions at any threshold |
| ReflExamples.DerivedPublicFunctions | tests/test_class.cpp:428-497 | For `Derived` with private, protected, public and virtual public bases, the `Public` traversal visits 6 functions |
| ReflExamples.DerivedPrivateFunctions | tests/test_class.cpp:428-497 | The `Private` traversal of the same hierarchy visits 7 functions |
| Serialization.Serialize | examples/serialization/serialization.cpp:48-101 | A value's text: nothing for an unprintable value, a `[`…`]` text for a vector and a `{`…`}` text for a record; `ObjectLength` and `EmittedFieldsMembers` state what lies between |
| Serialization.SerializeTo | examples/serialization/serialization.cpp:51-101 | The serializer dispatch appends exactly the text of the value to the stream: a streamable value, a vector or a reflected record |
| Serialization.SerializeVectorTo | examples/serialization/serialization.cpp:66-74 | A vector appends `[`, the element texts separated by `,`, and `]` |
| Serialization.WriteElements | examples/serialization/serialization.cpp:69-72 | The element loop appends each element's text in order, with `,` before every element but the first |
| Serialization.SerializeObjectTo | examples/serialization/serialization.cpp:81-101 | A record appends `{`, the `name:value` items of its emitted variables separated by `,`, and `}` |
| Serialization.WriteItems | examples/serialization/serialization.cpp:85-99 | The `for_each_variable` pass appends the `name:value` items of the emitted variables, in declaration order, separated by `,` |
| Serialization.VisitVariable | examples/serialization/serialization.cpp:88-97 | The visitor writes a variable iff it is an instance variable without a `skip_ser` tag. It writes `,` unless it is the first item, then `name:` and its value, and counts the items |
| Serialization.EmittedFieldsMembers | examples/serialization/serialization.cpp:88-90 | An item is written iff it comes from an instance variable without a `skip_ser` tag: statics and skipped variables never appear |
| Serialization.EmittedFieldsOrder | examples/serialization/serialization.cpp:88-97 | Items appear in the order of the variable list |
| Serialization.EmptyShapes | examples/serialization/serialization.cpp:68-100 | A record with nothing to write writes `{}`, and an empty vector writes `[]` |
| Serialization.ObjectLength | examples/serialization/serialization.cpp:83-100 | A record with n items writes its braces, the items and exactly n-1 commas, starting with its first item and ending with its last |
| Deserialization.ScanClose | examples/deserialize/deserialize.cpp:106-114 | The nesting scan stops only at a `}` inside the input, at or after its start |
| Deserialization.ScanPlain | examples/deserialize/deserialize.cpp:117-120 | The plain-value scan stops at the first `,` or `}`. Without one it reads past the end, which is undefined |
| Deserialization.PairAt | examples/deserialize/deserialize.cpp:99-125 | One pass of the pair loop makes progress and reads a name without `:` |
| Deserialization.PairsFrom | examples/deserialize/deserialize.cpp:99-126 | Every name the pair loop reads is free of `:` |
| Deserialization.Split | examples/deserialize/deserialize.cpp:84-126 | The checks and the pair loop: an empty input is undefined, a split succeeds only on text framed by `{` and `}`, and no name it reads contains `:` |
| Deserialization.Table | examples/deserialize/deserialize.cpp:115-122 | The first pair always keeps its text under its name in the `members` map |
| Deserialization.TableKeys | examples/deserialize/deserialize.cpp:91-122 | A name is in the `members` map iff some pair carries it |
| Deserialization.TableFirstWins | examples/deserialize/deserialize.cpp:115-122 | `insert` never overwrites: the first pair with a name decides its value |
| Deserialization.DeserializeChecks | examples/deserialize/deserialize.cpp:86-88 | An empty input is undefined, a missing `{` throws `{ missing`, and a missing `}` throws `} missing`, all leaving the record unchanged. `{}` returns at once with no change |
| Deserialization.Deserialize | examples/deserialize/deserialize.cpp:54-141 | A streamable value takes the input text; a record stays a record with as many variables; only a record can raise an error; anything else is unchanged |
| Deserialization.AssignMembers | examples/deserialize/deserialize.cpp:128-140 | The assignment walk keeps the number of variables; `AssignKeepsVariables` and `AssignLeavesOthers` state which values change |
| Deserialization.AssignKeepsVariables | examples/deserialize/deserialize.cpp:128-140 | Deserializing changes values only, never the variable list |
| Deserialization.AssignLeavesOthers | examples/deserialize/deserialize.cpp:128-140 | A variable that is skipped, static or absent from the map keeps its value |
| Deserialization.AssignEmptyTable | examples/deserialize/deserialize.cpp:128-140 | With an empty map nothing is assigned and nothing fails |
| Deserialization.NameEnd | examples/deserialize/deserialize.cpp:100-102 | The name scan finds the next `:` at or after the front, or runs off the end |
| Deserialization.NestedEnd | examples/deserialize/deserialize.cpp:107-113 | The level-counting loop computes the nesting scan |
| Deserialization.PlainEnd | examples/deserialize/deserialize.cpp:118-120 | The stop-character loop computes the plain-value scan |
| Deserialization.ReadPair | examples/deserialize/deserialize.cpp:99-125 | One pass of the pointer loop reads the pair and the next front that the pair function describes |
| Deserialization.CollectPairs | examples/deserialize/deserialize.cpp:91-126 | The outer loop either fails as the pair list does, or fills `members` with the first-wins map of all pairs |
| Deserialization.DeserializeInto | examples/deserialize/deserialize.cpp:54-61 | The dispatch: a streamable value takes the text; values that are neither streamable nor reflected, and vectors, are untouched |
| Deserialization.DeserializeRecord | examples/deserialize/deserialize.cpp:84-141 | The record deserializer runs the checks, the pair loop and the in-place assignment walk, with the outcome the deserialization function describes |
| Deserialization.AssignAll | examples/deserialize/deserialize.cpp:128-140 | The walk assigns, in place, each emitted variable named in the map. An error stops it with the later variables as they were |
| Deserialization.AssignVariable | examples/deserialize/deserialize.cpp:130-137 | One visitor call: an emitted variable found in the map is deserialized from its entry; any other is untouched |
| RoundTrip.SerializeShape | examples/deserialize/deserialize.cpp:67-82 | What the serializer writes for a well-formed value is a value text the splitter can delimit, with balanced braces |
| RoundTrip.PairsOfItems | examples/deserialize/deserialize.cpp:99-126 | On the items the serializer writes, the pair loop recovers exactly those items |
| RoundTrip.SplitSerialized | examples/deserialize/deserialize.cpp:84-126 | Splitting a well-formed record's text gives back exactly its written items |
| RoundTrip.TableOfEmitted | examples/deserialize/deserialize.cpp:91-126 | With distinct names, the map built from a record's items gives each emitted variable its own text |
| RoundTrip.RoundTrip | examples/deserialize/deserialize.cpp:67-141 | Deserializing the text of `x` into a value of the same shape restores every emitted variable, at every depth, without error |
| RoundTrip.DeserializeSerialized | examples/deserialize/deserialize.cpp:146-157 | `main`'s round trip: a record deserialized from its own text is unchanged and nothing is thrown |
| RoundTrip.RestoreSerializes | examples/deserialize/deserialize.cpp:67-141 | The restored value serializes to the same text: serialize, deserialize, serialize reproduces the first text |
| RoundTrip.RestoreKeepsOthers | examples/deserialize/deserialize.cpp:128-140 | A variable the serializer skips keeps the value it had before deserializing |

## Left out

- Plugin plumbing is not modelled. This covers the plugin registration and action, the compilation of the rewritten file, the `HandleTranslationUnit` matcher setup, `ReflError`, and the `hasReflectAttr` / `isStaticFieldOf` matchers. The model takes as given the records and enums those matchers deliver (`refl::none` or `refl::all` records and enums, and each record's static members), in the order they are delivered.
- Extractor.ExtractRecord: the descriptor is a structured value, not the literal `_meta` text the plugin splices in. The names, full names and constructor names in it, and the tag payloads of functions and variables, are the exact text the plugin writes. Constructor tags are not: see the next line. Template-argument punctuation and the `static_cast` pointer spelling are not modelled; a variable's written pointer is kept only as its `isInstance` flag.
- Extractor.ConstrEntryOf: a constructor's tags are the corrected `ConstructorTags` (annotations starting with `refl_tag` only), not the `ConstructorTagsAsWritten` slices the written loop emits. For `[[refl::include]] S(int)` in a `refl::none` record the plugin emits the tag argument `refl::include`; the model emits none. The written loop is modelled and compared in the first Findings row.
- Extractor.RecordMatchCallback.Run: the descriptors it records carry the corrected constructor tags, as `Extractor.ConstrEntryOf` says.
- Extractor.CollectConstructors: the constructor loop likewise builds the corrected constructor tags.
- The `AS_none` access case, which the plugin reports and asserts against, is excluded by the type: every access is Private, Protected or Public.
- Where the enum helpers are inserted is left out: after the enclosing namespace or the enclosing record's `;`. It depends on source locations.
- Static members are visited in the order the matcher finds them; the model takes the record's static-member sequence as that order.
- Leaf values: `operator<<` and `operator>>` are not modelled. A streamable value carries the text it writes, and deserializing it takes the value text verbatim. Whitespace splitting and number parsing by `>>` are not captured.
- The deserialization example has no vector specialisation, so a vector is left untouched. The round-trip lemmas therefore require values without vectors.
- Deserialization.AssignAll: a record's variables are updated in place through member pointers. The model returns the updated variable sequence, so aliasing between members is not modelled.
- `test_deserializer` and its function-pointer table in the deserialization example is a skeleton that only prints; it is not modelled.
- Undefined behaviour in the deserializer (`front()` of an empty input, reading past the end of the input) is modelled as the explicit error `Undefined`, not as arbitrary behaviour.
- The concrete `Example` record of the deserialization `main` is not instantiated. `RoundTrip.DeserializeSerialized` covers every record of that form.
- Type identity in the runtime (`std::is_same_v`, `std::decay_t`, `meta_type` concepts) is modelled by comparing `Type` values. Compile-time rejection of non-meta types appears only as preconditions.

## Findings

| source | as written | input that shows it | evidently intended | confidence | as-written member | corrected member |
|---|---|---|---|---|---|---|
| src/plugin.cpp:492-503 | The constructor tag loop slices every `annotate` attribute, without the `refl_tag` prefix check the method, field and static loops make (lines 326-327) | A constructor marked `[[refl::include]]`: both searches give `npos`, so the whole text `refl::include` is emitted as a tag argument, which names no value | Only `refl_tag(...)` annotations become constructor tags | high (not executed) | Extractor.ConstructorIncludeBecomesTag | Extractor.ConstructorTags |
| include/refl/refl.hpp:154-158 | `is_move_copy()` names `std::tuple_element_t<0, parameter_types>` without the `if constexpr` guard `is_copy()` has at line 148 | `C::is_move_copy()` for the default constructor `Constructors()` of the class tests: `tuple_element<0, std::tuple<>>` is out of range. The class tests ask only after `is_default()` fails, inside a discarded `if constexpr` branch, so they compile | The same guard as `is_copy()`, giving `false` for a constructor without parameters | medium (not executed) | Refl.MoveCopyAsWrittenIllFormed | Refl.MoveCopyGuarded |
| include/refl/refl.hpp:224 | `for_each_variable<M, A>` iterates `T::variable`, an alias no descriptor declares | Any instantiation, e.g. `for_each_variable<M, refl::AccessSpecifier::Public>` on a reflected record | `T::variables`, as in the overload at line 218 | high (not executed) | Refl.ForEachVariableAsWrittenIllFormed | Refl.ForEachVariableVisits |
