# AndroidApiExtractor in Dafny

AndroidApiExtractor reads the dex files of an Android framework and writes
class-file stubs. Each stub keeps a public type's accessible fields and
methods, with their flags, signatures, annotations, constants and parameter
names. Every method body becomes a stub that returns a zero value.
Inaccessible classes that the public API refers to get a header-only stub of
their own.

This project models the decisions behind those stubs:

- **Access flags.**
  - Which flags count as inaccessible.
  - How class, field and method flags are recomputed before they are written.
- **Merging.** How the classes of several archives merge into one map, where the first class of each type wins.
- **Reachability.** Which inaccessible classes are reachable from the public API.
- **Member filters.** Which fields and methods are emitted, including the five `Object` overrides that are dropped.
- **Parameters.** Parameter slots, and how parameter names are recovered from debug info.
- **Stub bodies.**
  - The stub instructions, chosen by return type.
  - The local-variable table and the frame sizes.
- **Encoded values.**
  - How field constants translate into class-file form.
  - How annotation values translate.
- **Descriptor helpers.**
  - Class names (`toCfName`).
  - Outer names.
  - Method descriptors.
  - Array component types.
  - The `Signature` and `Throws` annotations.
  - The single-value check.
- **Inner classes.** How an `InnerClass` annotation is parsed.

The dex reader and the class writer are replaced by plain datatypes:

- `Dex.ClassDef`, `Dex.Field`, `Dex.Method` and `Dex.EncodedValue` stand for the reader.
- `EncodedValues.AsmValue`, `Members.FieldNode`, `Members.MethodNode` and `StubBody.Code` stand for the writer.

A Java exception becomes a `Failure` value. Examples are a failed cast, a failed assertion, and `substring` or `charAt` out of range.

An `int` access-flag word is modelled as the set of the positions of its one bits (`Dex.Flags`), and each `ACC_*` constant as a bit position. The extractor only tests, sets and clears single bits, which become membership, union and difference. `AccessFlags.MaskOf` gives the mask a position stands for.

The model is split into one module per file:

| file | module |
|---|---|
| wrappers.dfy | `Wrappers` |
| dex.dfy | `Dex` |
| access_flags.dfy | `AccessFlags` |
| type_utils.dfy | `TypeUtils` |
| inner_class_record.dfy | `InnerClasses` |
| encoded_values.dfy | `EncodedValues` |
| merge.dfy | `Merge` |
| reachability.dfy | `Reachability` |
| members.dfy | `Members` |
| parameters.dfy | `Parameters` |
| stub_body.dfy | `StubBody` |

## Model

| member | source | states |
|---|---|---|
| AccessFlags.InaccessibleReadsThreeBits | app/src/main/java/io/github/eirv/androidapiextractor/AndroidApiExtractor.java:160-163 | inaccessibility depends only on the SYNTHETIC, PUBLIC and PROTECTED bits: two flag words that agree on those three bits are equally (in)accessible |
| AccessFlags.InaccessiblePatterns | app/src/main/java/io/github/eirv/androidapiextractor/AndroidApiExtractor.java:160-163 | a flag word is inaccessible exactly when its PUBLIC, PROTECTED and SYNTHETIC bits form none of the three accessible patterns: PUBLIC alone, PROTECTED alone, or both, each without SYNTHETIC |
| AccessFlags.PublicNonSyntheticIsAccessible | app/src/main/java/io/github/eirv/androidapiextractor/AndroidApiExtractor.java:160-163 | a public non-synthetic member is accessible; without SYNTHETIC, inaccessible means neither PUBLIC nor PROTECTED |
| AccessFlags.RecomputeDeprecated | app/src/main/java/io/github/eirv/androidapiextractor/AndroidApiExtractor.java:661-665 | DEPRECATED is set exactly when a Deprecated annotation is present; every other bit is kept |
| Merge.MergeClasses | app/src/main/java/io/github/eirv/androidapiextractor/AndroidApiExtractor.java:435-444 | the merged map holds, for every type that has a non-synthetic class, the first such class in input order, keyed by its own type; it holds nothing else |
| Merge.PutKeepingFirst | app/src/main/java/io/github/eirv/androidapiextractor/AndroidApiExtractor.java:440-443 | the put-then-restore step leaves a present key unchanged and adds an absent one |
| Merge.FirstKeptIsEarliest | app/src/main/java/io/github/eirv/androidapiextractor/AndroidApiExtractor.java:435-444 | a type has a class exactly when a kept class of that type occurs, and that class sits at the earliest such position |
| Merge.LaterDuplicateIgnored | app/src/main/java/io/github/eirv/androidapiextractor/AndroidApiExtractor.java:440-443 | a later class of an already merged type never replaces the first |
| Merge.FirstKeptIsKept | app/src/main/java/io/github/eirv/androidapiextractor/AndroidApiExtractor.java:436-439 | no synthetic class enters the map |
| Reachability.AnnotationRefs | app/src/main/java/io/github/eirv/androidapiextractor/AndroidApiExtractor.java:254-273 | the annotation walk visits every annotation except the `Ldalvik/annotation` ones other than Signature, Throws and PermittedSubclasses. For each visited annotation it yields the annotation type and every type its element values mention. Every type it yields comes from a visited annotation |
| Reachability.ValueRefs | app/src/main/java/io/github/eirv/androidapiextractor/AndroidApiExtractor.java:275-329 | a nested annotation value yields its type and the names of all its element values; an array the names of all its items; a type value exactly that type; an enum or field reference exactly its owner and type; a method reference exactly its owner, return type and parameter types; a constant or NULL nothing |
| Reachability.ValueRefsExact | app/src/main/java/io/github/eirv/androidapiextractor/AndroidApiExtractor.java:275-329 | the walk over a value yields exactly the names the value mentions, by an independent case-by-case definition of mentioning |
| Reachability.NestedAnnotationRefsExact | app/src/main/java/io/github/eirv/androidapiextractor/AndroidApiExtractor.java:280-288 | for a nested annotation: its type, or a name some element value mentions, and nothing else |
| Reachability.ArrayRefsExact | app/src/main/java/io/github/eirv/androidapiextractor/AndroidApiExtractor.java:289-296 | for an array: a name some item mentions, and nothing else |
| Reachability.ElementRefs | app/src/main/java/io/github/eirv/androidapiextractor/AndroidApiExtractor.java:280-288 | the elements of a nested annotation yield exactly the types their values yield |
| Reachability.ItemRefs | app/src/main/java/io/github/eirv/androidapiextractor/AndroidApiExtractor.java:289-296 | the items of an array yield exactly the types the items yield |
| Reachability.FieldRefs | app/src/main/java/io/github/eirv/androidapiextractor/AndroidApiExtractor.java:210-214 | every accessible field's type and its annotations' names are walked |
| Reachability.MethodRefs | app/src/main/java/io/github/eirv/androidapiextractor/AndroidApiExtractor.java:215-223 | every accessible method's return type, parameter types, parameter annotations' names and annotations' names are walked |
| Reachability.ParameterRefs | app/src/main/java/io/github/eirv/androidapiextractor/AndroidApiExtractor.java:218-221 | every parameter's type and its annotations' names are walked |
| Reachability.ParameterRefsExact | app/src/main/java/io/github/eirv/androidapiextractor/AndroidApiExtractor.java:218-221 | every name the parameter walk yields is a parameter type or an annotation name of some parameter |
| Reachability.FieldRefsExact | app/src/main/java/io/github/eirv/androidapiextractor/AndroidApiExtractor.java:210-214 | every name the field walk yields comes from an accessible field; an inaccessible field adds nothing |
| Reachability.MethodRefsExact | app/src/main/java/io/github/eirv/androidapiextractor/AndroidApiExtractor.java:215-223 | every name the method walk yields comes from an accessible method; an inaccessible method adds nothing |
| Reachability.ClassRefsExact | app/src/main/java/io/github/eirv/androidapiextractor/AndroidApiExtractor.java:203-223 | one pass of the outer loop yields exactly what the class exposes: superclass, interfaces, annotation names, and what its accessible fields and methods name |
| Reachability.SeedsExact | app/src/main/java/io/github/eirv/androidapiextractor/AndroidApiExtractor.java:200-223 | a name is a seed exactly when some accessible class of the map exposes it |
| Reachability.SeedsIncludeHeader | app/src/main/java/io/github/eirv/androidapiextractor/AndroidApiExtractor.java:202-209 | an accessible class seeds the walk with its superclass, its interfaces, and every type its walked annotations yield |
| Reachability.SeedsIncludeMembers | app/src/main/java/io/github/eirv/androidapiextractor/AndroidApiExtractor.java:210-223 | an accessible class seeds the walk with everything its accessible fields and methods name: field types and annotations, return and parameter types, parameter and method annotations |
| Reachability.Walk | app/src/main/java/io/github/eirv/androidapiextractor/AndroidApiExtractor.java:240-252 | the recursive walk yields classes of the merged map that are inaccessible and keyed by their own type. The result contains every seed that leads to such a class, and the superclass and interfaces of every class in it. It is the least set with those properties |
| Reachability.WalkStep | app/src/main/java/io/github/eirv/androidapiextractor/AndroidApiExtractor.java:240-252 | one visit keeps the walk invariants: every entry is an inaccessible class of the map under its own type; every seed and every edge out of a visited class is visited or pending; everything visited or pending lies in every covering closed set. Each step grows the visited set or shrinks the work list |
| Reachability.SweepAddsNothing | app/src/main/java/io/github/eirv/androidapiextractor/AndroidApiExtractor.java:225-236 | the second pass over superclasses and interfaces adds nothing to a closed result |
| Reachability.SearchReferenced | app/src/main/java/io/github/eirv/androidapiextractor/AndroidApiExtractor.java:200-238 | starting from every type an accessible class exposes (superclass, annotations, interfaces, accessible fields' and methods' types and annotations), the result is exactly the least closed set of inaccessible classes reachable from them |
| Reachability.AccessibleNeverReferenced | app/src/main/java/io/github/eirv/androidapiextractor/AndroidApiExtractor.java:246 | an accessible class stops the walk and is never in the result |
| Reachability.ReferencedNeverSynthetic | app/src/main/java/io/github/eirv/androidapiextractor/AndroidApiExtractor.java:246-247 | every referenced class is non-synthetic, and neither public nor protected |
| Members.NormaliseClassBits | app/src/main/java/io/github/eirv/androidapiextractor/AndroidApiExtractor.java:341-358 | SUPER is added unless the class is an interface; RECORD is added for a record; DEPRECATED is set or cleared; no other bit changes |
| Members.FixClassFlags | app/src/main/java/io/github/eirv/androidapiextractor/AndroidApiExtractor.java:341-365 | class flags after normalisation: SUPER iff already set or not an interface, RECORD iff already set or a Record annotation is present, DEPRECATED iff a Deprecated annotation is present, all else unchanged |
| Members.FixClassFlagsIdempotent | app/src/main/java/io/github/eirv/androidapiextractor/AndroidApiExtractor.java:341-358 | normalising already normalised flags changes nothing |
| Members.FixClassFlagsKeepsAccess | app/src/main/java/io/github/eirv/androidapiextractor/AndroidApiExtractor.java:341-358 | normalisation never changes whether a class is inaccessible |
| Members.IsDeprecated | app/src/main/java/io/github/eirv/androidapiextractor/AndroidApiExtractor.java:360-365 | a member is deprecated exactly when one of its annotations has the Deprecated type, which is exactly when the first-of-type search finds one |
| Members.IsObjectMethod | app/src/main/java/io/github/eirv/androidapiextractor/AndroidApiExtractor.java:172-194 | a method is an `Object` override exactly when it is non-static, outside `Object`, and matches one of the five signatures clone, equals, finalize, hashCode, toString |
| Members.Filter | app/src/main/java/io/github/eirv/androidapiextractor/AndroidApiExtractor.java:711-716 | filtering keeps exactly the members the predicate accepts |
| Members.FilterAppend | app/src/main/java/io/github/eirv/androidapiextractor/AndroidApiExtractor.java:711-716 | filtering keeps the source order: it distributes over concatenation |
| Members.EmittedMethods | app/src/main/java/io/github/eirv/androidapiextractor/AndroidApiExtractor.java:711-716 | the emitted methods are exactly those that are accessible, not bridges, not `Object` overrides and not `<clinit>` |
| Members.EmittedFields | app/src/main/java/io/github/eirv/androidapiextractor/AndroidApiExtractor.java:651-653 | the emitted fields are exactly the accessible ones |
| Members.DroppedMethods | app/src/main/java/io/github/eirv/androidapiextractor/AndroidApiExtractor.java:713-716 | a bridge, a `<clinit>` or an inaccessible method is never emitted |
| Members.HasMonitorEnter | app/src/main/java/io/github/eirv/androidapiextractor/AndroidApiExtractor.java:728-732 | the instruction scan reports a MONITOR_ENTER exactly when one occurs |
| Members.MethodBits | app/src/main/java/io/github/eirv/androidapiextractor/AndroidApiExtractor.java:719-733 | DEPRECATED follows the annotation; SYNCHRONIZED is set iff it was set or is added; no other bit changes |
| Members.MethodFlags | app/src/main/java/io/github/eirv/androidapiextractor/AndroidApiExtractor.java:711-733 | a method's written flags: DEPRECATED iff annotated Deprecated, SYNCHRONIZED iff already set or declared-synchronized with a body holding MONITOR_ENTER, all else unchanged |
| Members.ComputeMethodFlags | app/src/main/java/io/github/eirv/androidapiextractor/AndroidApiExtractor.java:711-733 | the statements of `transformMethod`, which set or clear DEPRECATED and then scan a declared-synchronized body for MONITOR_ENTER, compute exactly `MethodFlags` |
| Members.DeclaredSynchronizedBecomesSynchronized | app/src/main/java/io/github/eirv/androidapiextractor/AndroidApiExtractor.java:719-733 | the raw bit 0x20000 (the same bit as the class-file DEPRECATED) is replaced by SYNCHRONIZED when the body enters a monitor |
| Members.SynchronizedNeverCleared | app/src/main/java/io/github/eirv/androidapiextractor/AndroidApiExtractor.java:725-733 | SYNCHRONIZED is only ever added, and only for a declared-synchronized method |
| Members.MethodFlagsKeepAccess | app/src/main/java/io/github/eirv/androidapiextractor/AndroidApiExtractor.java:711-733 | recomputing a method's flags never changes its accessibility |
| Members.FieldConstant | app/src/main/java/io/github/eirv/androidapiextractor/AndroidApiExtractor.java:655-659 | only final fields outside `com.android.internal.R$…` read a constant. The read fails only for a non-constant encoded value; a constant-kind initial value is kept as the constant that converts back to it; a missing or NULL value gives none |
| Members.TransformAnnotations | app/src/main/java/io/github/eirv/androidapiextractor/AndroidApiExtractor.java:679-685 | a member's annotations translate in order, one node per annotation, failing iff one of them fails |
| Members.OmitType | app/src/main/java/io/github/eirv/androidapiextractor/AndroidApiExtractor.java:680 | the kept annotations are exactly those whose type is not skipped |
| Members.TransformField | app/src/main/java/io/github/eirv/androidapiextractor/AndroidApiExtractor.java:651-696 | a filtered field yields nothing. An emitted field yields a node, failing exactly when its constant, its signature or one of its kept annotations fails. The node keeps the name and type, the signature, the flags with DEPRECATED recomputed, and the translation of every annotation except Signature. A read constant-kind initial value is kept as the node's constant; a field that reads no constant has none. It carries a restriction annotation iff the field has no initial value and its non-empty restrictions exclude the whitelist |
| Members.FirstElementNamed | app/src/main/java/io/github/eirv/androidapiextractor/AndroidApiExtractor.java:757-758 | finds an element of the given name iff one exists, and it is the first such element: every element before it has another name |
| Members.DefaultIn | app/src/main/java/io/github/eirv/androidapiextractor/AndroidApiExtractor.java:753-763 | one AnnotationDefault annotation fails unless its single value is a nested annotation. Otherwise it gives no default iff no element has the method's name, and else the translation of the first such element's value, failing iff that translation fails |
| Members.AnnotationDefault | app/src/main/java/io/github/eirv/androidapiextractor/AndroidApiExtractor.java:750-765 | without an AnnotationDefault annotation there is no default. There is none exactly when every AnnotationDefault annotation gives none; otherwise the result is that of the first AnnotationDefault annotation that gives a default or fails, all earlier ones giving none |
| Members.TransformMethod | app/src/main/java/io/github/eirv/androidapiextractor/AndroidApiExtractor.java:711-789 | the method node. A filtered method yields nothing. An emitted one yields a node, failing exactly when its signature, its exceptions, the default of an annotation-interface method or one of its kept annotations fails. The node has the recomputed flags, its name, the descriptor built from its types, its signature and exceptions, and the translation of every annotation except Signature, Throws and MethodParameters. In an annotation interface its default is the class's AnnotationDefault for its name; elsewhere it has none. It has restrictions iff shown, and code iff it has a body |
| Parameters.NewRecord | app/src/main/java/io/github/eirv/androidapiextractor/MethodParameterRecord.java:25-44 | the constructor stores id, name, type, signature and annotations as given; the register id starts at 0 |
| Parameters.SlotsSplit | app/src/main/java/io/github/eirv/androidapiextractor/AndroidApiExtractor.java:380-381 | the slot count of a type list is the sum over any split of it |
| Parameters.Layout | app/src/main/java/io/github/eirv/androidapiextractor/AndroidApiExtractor.java:367-382 | parameter i gets the first slot plus the widths of the parameters before it, and keeps its name, type, signature and annotations |
| Parameters.LayoutSteps | app/src/main/java/io/github/eirv/androidapiextractor/AndroidApiExtractor.java:380-381 | consecutive ids advance by 2 after `J`/`D` and by 1 otherwise |
| Parameters.BackCountAsWritten | app/src/main/java/io/github/eirv/androidapiextractor/AndroidApiExtractor.java:387-393 | the source's back-count gives parameter k the id 1 plus the widths of the parameters after it |
| Parameters.BackCount | app/src/main/java/io/github/eirv/androidapiextractor/AndroidApiExtractor.java:387-393 | the corrected back-count gives parameter k the widths of itself and the parameters after it, its distance from the end of the register frame |
| Parameters.IdAndRegisterAgree | app/src/main/java/io/github/eirv/androidapiextractor/AndroidApiExtractor.java:367-403 | with the corrected back-count, a parameter's slot plus its distance from the frame end is the same for every parameter |
| Parameters.BackCountsDiffer | app/src/main/java/io/github/eirv/androidapiextractor/AndroidApiExtractor.java:387-393 | the two back-counts agree for narrow parameters and differ by one for wide ones |
| Parameters.ApplyLocal | app/src/main/java/io/github/eirv/androidapiextractor/AndroidApiExtractor.java:403-414 | one StartLocal fills the name and signature of each nameless record whose register id and type match, and leaves every other record alone |
| Parameters.Recover | app/src/main/java/io/github/eirv/androidapiextractor/AndroidApiExtractor.java:399-419 | recovery keeps one record per parameter, and with no nameless record it changes nothing |
| Parameters.RecoverOnlyFillsNames | app/src/main/java/io/github/eirv/androidapiextractor/MethodParameterRecord.java:25-31 | recovery keeps every record's id, type and annotations and never changes a named record |
| Parameters.RecoveredNamesComeFromMatchingLocals | app/src/main/java/io/github/eirv/androidapiextractor/AndroidApiExtractor.java:399-419 | a name recovery changes comes from a StartLocal at the record's register distance with the record's type |
| Parameters.StartLocalProvenance | app/src/main/java/io/github/eirv/androidapiextractor/AndroidApiExtractor.java:401-414 | the same, when the first debug item is a StartLocal: the name comes from it or from a later matching item |
| Parameters.MatchingLocalNamesParameter | app/src/main/java/io/github/eirv/androidapiextractor/AndroidApiExtractor.java:399-419 | recovery is complete: when every StartLocal carries a name, a nameless record that some StartLocal matches on register distance and type ends up named, whether the loop reaches that item or stops earlier |
| Parameters.GetParametersShape | app/src/main/java/io/github/eirv/androidapiextractor/AndroidApiExtractor.java:367-422 | the result has one record per parameter, with the laid-out slot, the type, the annotations and any dex name; without recovery it is the plain layout |
| Parameters.GetParametersAsWritten | app/src/main/java/io/github/eirv/androidapiextractor/AndroidApiExtractor.java:367-422 | with the back-count as written: one record per parameter, each with its laid-out slot, type and annotations, a named parameter keeping its dex name and signature; without recovery the plain layout |
| Parameters.GetParameters | app/src/main/java/io/github/eirv/androidapiextractor/AndroidApiExtractor.java:367-422 | the same, with the corrected back-count |
| Parameters.RecoverWithProvenance | app/src/main/java/io/github/eirv/androidapiextractor/AndroidApiExtractor.java:384-419 | a name that differs from the dex name implies that recovery ran (a nameless parameter, a concrete method) and a matching StartLocal supplied it |
| Parameters.RecoveredNameAtOwnRegister | app/src/main/java/io/github/eirv/androidapiextractor/AndroidApiExtractor.java:384-419 | with the corrected back-count, a recovered name comes from a local in the parameter's own register, `registerCount - width-sum from it to the end` |
| Parameters.WideParameterNameLost | app/src/main/java/io/github/eirv/androidapiextractor/AndroidApiExtractor.java:387-393 | for a static `(J)V` method with two registers whose debug info names the `long` at register 0, the name is not recovered as written; corrected, it is |
| Parameters.WideNameOnlyFromRegisterAbove | app/src/main/java/io/github/eirv/androidapiextractor/AndroidApiExtractor.java:384-419 | as written, a `long` or `double` parameter takes a recovered name only from a StartLocal one register above its own start, never from the one at its own register |
| StubBody.CfNameOrFail | app/src/main/java/io/github/eirv/androidapiextractor/TypeUtils.java:54-56 | a null superclass stays null, a descriptor of at least two characters is stripped, and a shorter one fails |
| StubBody.StubInstructions | app/src/main/java/io/github/eirv/androidapiextractor/AndroidApiExtractor.java:802-860 | a non-`Object` `<init>…V` calls its superclass's `()V` constructor; otherwise the return type's first character picks the zero constant and return (stack 2 for `J`/`D`, nothing for `V`, `null` for references), failing on an empty return type |
| StubBody.StubIsWellTyped | app/src/main/java/io/github/eirv/androidapiextractor/AndroidApiExtractor.java:802-860 | every stub passes an abstract type check against its return type, ending in the matching return, and its operand stack size is exactly the deepest stack it reaches |
| StubBody.ConstructorStubRuns | app/src/main/java/io/github/eirv/androidapiextractor/AndroidApiExtractor.java:803-814 | the constructor stub `aload_0; invokespecial <init>()V; return` type-checks in an instance method returning void, with stack depth 1 |
| StubBody.ZeroReturnRuns | app/src/main/java/io/github/eirv/androidapiextractor/AndroidApiExtractor.java:815-859 | each zero-return stub type-checks against its return kind and reaches exactly its declared stack depth |
| StubBody.LeadingNames | app/src/main/java/io/github/eirv/androidapiextractor/AndroidApiExtractor.java:793-797 | the emitted parameter names are the leading run of named parameters, stopping at the first nameless one |
| StubBody.DecimalRoundTrip | app/src/main/java/io/github/eirv/androidapiextractor/AndroidApiExtractor.java:873-876 | the position in a synthetic `p<i>` name reads back as i, so distinct positions give distinct names |
| StubBody.ParameterLocalsExact | app/src/main/java/io/github/eirv/androidapiextractor/AndroidApiExtractor.java:863-886 | there is one local per parameter with a name or signature, named by its name or `p<position>`, in its own slot; there is none for any other parameter |
| StubBody.LocalVariables | app/src/main/java/io/github/eirv/androidapiextractor/AndroidApiExtractor.java:861-886 | an instance method's table starts with `this` in slot 0; every entry is `this` or the entry of a described parameter; every described parameter has its entry |
| StubBody.MaxLocals | app/src/main/java/io/github/eirv/androidapiextractor/AndroidApiExtractor.java:887-890 | the corrected `max_locals` exceeds the value as written by exactly the last parameter's width, and equals it without parameters |
| StubBody.MaxLocalsIsArgumentWords | app/src/main/java/io/github/eirv/androidapiextractor/AndroidApiExtractor.java:887-890 | the corrected `max_locals` equals `this` plus the argument words of the descriptor |
| StubBody.LocalsFitInFrame | app/src/main/java/io/github/eirv/androidapiextractor/AndroidApiExtractor.java:861-890 | every local, `this` included, starts inside the frame; every parameter local, `long`/`double` pairs included, ends inside the corrected `max_locals` |
| StubBody.MaxLocalsTooSmall | app/src/main/java/io/github/eirv/androidapiextractor/AndroidApiExtractor.java:887-890 | as written, a static method with one named `int` gets `max_locals` 0 although its local sits in slot 0; corrected it is 1 |
| StubBody.MaxLocalsAsWrittenShort | app/src/main/java/io/github/eirv/androidapiextractor/AndroidApiExtractor.java:887-890 | as written, `max_locals` falls short of the descriptor's argument words by exactly the last parameter's width |
| StubBody.ParameterAnnotations | app/src/main/java/io/github/eirv/androidapiextractor/AndroidApiExtractor.java:868-904 | parameter annotations are written only for parameters with a name or signature. Each entry sits under its parameter's position and holds that parameter's annotations without Signature, and the entries come in increasing position order, so no parameter has two |
| StubBody.ParameterAnnotationsSucceed | app/src/main/java/io/github/eirv/androidapiextractor/AndroidApiExtractor.java:868-904 | the parameter annotations fail exactly when those of a described parameter fail |
| StubBody.ParameterAnnotationsComplete | app/src/main/java/io/github/eirv/androidapiextractor/AndroidApiExtractor.java:868-904 | every described parameter has its entry, holding its annotations without Signature |
| StubBody.StubCode | app/src/main/java/io/github/eirv/androidapiextractor/AndroidApiExtractor.java:791-891 | the corrected stub body, built on the corrected `getParameters` and `max_locals`. It fails exactly when the instructions or the parameter annotations fail. It holds the chosen instructions and stack size, the leading parameter names, the local table of the parameters, a slot inside the frame for every local, the parameter annotations, and `max_locals` equal to the argument words |
| StubBody.TransformMethodWithCode | app/src/main/java/io/github/eirv/androidapiextractor/AndroidApiExtractor.java:711-747 | the whole method transform: a filtered method yields nothing; an emitted one fails exactly when its node fails or, when it has a body, its stub code fails. On success it holds that node and, exactly when the method has a body, that stub code |
| EncodedValues.ToAsmValue | app/src/main/java/io/github/eirv/androidapiextractor/AndroidApiExtractor.java:130-158 | a missing or NULL value gives no constant; the ten constant kinds translate; every other kind fails |
| EncodedValues.ConstantRoundTrip | app/src/main/java/io/github/eirv/androidapiextractor/AndroidApiExtractor.java:130-158 | a translated constant converts back to exactly the dex value |
| EncodedValues.ConstantSurjective | app/src/main/java/io/github/eirv/androidapiextractor/AndroidApiExtractor.java:130-158 | every class-file constant is the translation of some dex value |
| EncodedValues.TransformValue | app/src/main/java/io/github/eirv/androidapiextractor/AndroidApiExtractor.java:915-1008 | an annotation value of the modelled kinds translates iff it contains no NULL, FIELD or METHOD value at any depth; otherwise the translation fails |
| EncodedValues.TransformItems | app/src/main/java/io/github/eirv/androidapiextractor/AndroidApiExtractor.java:927-936 | array entries translate in order, one per entry, failing iff one fails |
| EncodedValues.TransformElements | app/src/main/java/io/github/eirv/androidapiextractor/AndroidApiExtractor.java:906-913 | annotation elements translate in order under their own names, failing iff one fails |
| EncodedValues.TransformAnnotation | app/src/main/java/io/github/eirv/androidapiextractor/AndroidApiExtractor.java:906-913 | an annotation translates iff all its elements do. It keeps its type, its runtime visibility and its element count, and each element becomes its name with its translated value |
| EncodedValues.TransformRoundTrip | app/src/main/java/io/github/eirv/androidapiextractor/AndroidApiExtractor.java:915-1008 | the translation of a translatable value converts back to the same value, so the translation loses nothing |
| TypeUtils.ToCfName | app/src/main/java/io/github/eirv/androidapiextractor/TypeUtils.java:54-66 | the internal name is the descriptor without its first and last character |
| TypeUtils.ToCfNameOrNull | app/src/main/java/io/github/eirv/androidapiextractor/TypeUtils.java:54-56 | null maps to null; any other descriptor is stripped |
| TypeUtils.ToCfNames | app/src/main/java/io/github/eirv/androidapiextractor/TypeUtils.java:68-74 | the list form keeps length and order and strips each element |
| TypeUtils.CfNameRoundTrip | app/src/main/java/io/github/eirv/androidapiextractor/TypeUtils.java:54-66 | `L<name>;` strips to `<name>`, and wrapping a class descriptor's internal name gives the descriptor back |
| TypeUtils.CfNameInjective | app/src/main/java/io/github/eirv/androidapiextractor/TypeUtils.java:54-66 | distinct class descriptors have distinct internal names |
| TypeUtils.IndexOf | app/src/main/java/io/github/eirv/androidapiextractor/TypeUtils.java:76-79 | `indexOf` from a start gives the first occurrence at or after it, or -1 if there is none |
| TypeUtils.LastIndexOf | app/src/main/java/io/github/eirv/androidapiextractor/TypeUtils.java:76-79 | `lastIndexOf` gives the last occurrence, or -1 if there is none |
| TypeUtils.OuterName | app/src/main/java/io/github/eirv/androidapiextractor/TypeUtils.java:76-79 | the outer name is the prefix before the first `$` after the last `/` |
| TypeUtils.OuterNameOfNested | app/src/main/java/io/github/eirv/androidapiextractor/TypeUtils.java:76-79 | the outer name of `outer$inner` is `outer` when `outer`'s simple name has no `$` and `inner` has no `/` |
| TypeUtils.MethodDescriptorRoundTrip | app/src/main/java/io/github/eirv/androidapiextractor/TypeUtils.java:81-90 | the descriptor built from parameter and return types parses back to the same types in order |
| TypeUtils.MethodDescriptor | app/src/main/java/io/github/eirv/androidapiextractor/TypeUtils.java:81-90 | the descriptor is `(`, the concatenated parameter types, `)` and the return type, so its length is theirs plus two |
| TypeUtils.ParseFieldTypeRoundTrip | app/src/main/java/io/github/eirv/androidapiextractor/TypeUtils.java:81-90 | every valid field descriptor is read back whole from the front of a string |
| TypeUtils.ComponentTypeOfDescriptor | app/src/main/java/io/github/eirv/androidapiextractor/TypeUtils.java:92-103 | an array of objects maps to its element class descriptor; every other descriptor is unchanged |
| TypeUtils.ComponentType | app/src/main/java/io/github/eirv/androidapiextractor/TypeUtils.java:92-103 | null maps to null and non-null to non-null |
| TypeUtils.DescriptorShape | app/src/main/java/io/github/eirv/androidapiextractor/TypeUtils.java:92-103 | an array descriptor is one `[` per dimension followed by its element descriptor |
| TypeUtils.FirstOfType | app/src/main/java/io/github/eirv/androidapiextractor/TypeUtils.java:125-127 | finds the first annotation of the given type, or none if no annotation has it |
| TypeUtils.SingleValue | app/src/main/java/io/github/eirv/androidapiextractor/TypeUtils.java:155-165 | succeeds iff the annotation has exactly one element and it is named `value`, returning that element's value; otherwise fails with the count or the name |
| TypeUtils.StringItems | app/src/main/java/io/github/eirv/androidapiextractor/TypeUtils.java:131-133 | the items convert iff all are strings, in order |
| TypeUtils.TypeItemNames | app/src/main/java/io/github/eirv/androidapiextractor/TypeUtils.java:146-148 | the items convert iff all are type values long enough to strip, giving their internal names in order |
| TypeUtils.GetSignature | app/src/main/java/io/github/eirv/androidapiextractor/TypeUtils.java:125-138 | null iff there is no Signature annotation; otherwise the in-order concatenation of the first one's strings, failing on a malformed one |
| TypeUtils.GetExceptions | app/src/main/java/io/github/eirv/androidapiextractor/TypeUtils.java:140-153 | null iff there is no Throws annotation. Otherwise it succeeds exactly when the first one's single value is an array of type values long enough to strip, and gives their internal names in order |
| InnerClasses.Outcome | app/src/main/java/io/github/eirv/androidapiextractor/InnerClassRecord.java:57-60 | a record is built iff a name was seen and the flags are not -1, holding exactly those values |
| InnerClasses.Scan | app/src/main/java/io/github/eirv/androidapiextractor/InnerClassRecord.java:45-61 | a record the loop yields has flags other than -1, and a name that came in or that one of the `name` elements holds |
| InnerClasses.FindIn | app/src/main/java/io/github/eirv/androidapiextractor/InnerClassRecord.java:45-61 | a record found has flags other than -1 and the string one of the `name` elements holds; the only failure is a cast failure, on elements that are not well typed |
| InnerClasses.FindInRecord | app/src/main/java/io/github/eirv/androidapiextractor/InnerClassRecord.java:45-61 | on well-typed elements the parse succeeds, and gives a record iff the last `name` and last `accessFlags` elements exist (flags not -1), with exactly their values |
| InnerClasses.ScanWellTyped | app/src/main/java/io/github/eirv/androidapiextractor/InnerClassRecord.java:45-61 | the element loop on well-typed elements ends with the last name and last flags seen |
| InnerClasses.NullNameReturnsNull | app/src/main/java/io/github/eirv/androidapiextractor/InnerClassRecord.java:49-51 | a `name` element holding NULL (an anonymous class) returns null at once, whatever follows |
| InnerClasses.ScanFailsOnlyOnCast | app/src/main/java/io/github/eirv/androidapiextractor/InnerClassRecord.java:52-54 | the parse fails only with a cast failure, and only on ill-typed elements |
| InnerClasses.ScanIgnoresOtherElements | app/src/main/java/io/github/eirv/androidapiextractor/InnerClassRecord.java:48-56 | elements other than `name` and `accessFlags` do not affect the result |
| InnerClasses.FindInClass | app/src/main/java/io/github/eirv/androidapiextractor/InnerClassRecord.java:37-43 | a class without an InnerClass annotation has no record |
| InnerClasses.FindInClassUsesFirst | app/src/main/java/io/github/eirv/androidapiextractor/InnerClassRecord.java:37-43 | a class's record is the parse of its first InnerClass annotation |

## Left out

- `main` and the Android activity. They read the environment, open files, run a thread and redirect output. This is I/O glue.
- `writeTo` and `writeToJar`, the zip output. These are I/O.
- The dex reader and the class-file writer. They are foreign libraries, so each is replaced by a datatype: records in, nodes out.
- The emission order is not modelled, and neither are duplicate-entry warnings.
- The `<clinit>` throw stub and the HiddenApiRestriction annotation class. Both are fixed emissions that do not depend on the input.
- The branches for the test jar: the switch that enables them is the constant `false`.
  - `wrapType` is therefore the identity and does not appear in the model.
  - `toCfName` never adds a prefix.
- `transformClass`, `transformInaccessibleClass` and `transformClassAnnotation` are not part of this model. These are the class header, the EnclosingMethod, InnerClass and MemberClasses attributes, and the permitted subclasses. The model covers the pieces they use: `FixClassFlags`, `FindInClass`, `IsInaccessible`, `ToCfName` and `GetSignature`. The source file name and the class-file version are not modelled.
- Dex.EncodedValue: the METHOD_TYPE and METHOD_HANDLE kinds the dex reader can return are not variants of the datatype. In the source they fail in `toAsmValue` and `transformEncodedValue` and add nothing in the reachability walk; the model's statements about translation cover only the kinds it has.
- Float and double payloads are carried as opaque bit patterns. No numeric property is stated about them.
- Java `assert` statements are not modelled.
- `TypeUtils.TYPE_DEPRECATED` is used by `isDeprecated` but is not defined in the TypeUtils.java that is modelled. The model takes it to be `Ljava/lang/Deprecated;`.
- TypeUtils.ComponentType: on the empty string the source throws from `charAt(0)`. The model returns the string unchanged, because no descriptor is empty.
- Parameters.Width: the same applies to an empty parameter type. The model treats it as narrow.
- Reachability.Walk: on a cyclic superclass/interface graph the source recurses without end, since it keeps no visited set. The worklist returns the least covering closed set instead, which is what the recursion collects whenever it ends.
- StubBody.StubCode: it models the corrected body. The body as written differs in `max_locals` and in the register ids recovery uses; `MaxLocalsAsWritten` and `GetParametersAsWritten` model those two pieces.
- Parameters.MatchingLocalNamesParameter: completeness is stated only when every StartLocal carries a name. A StartLocal without a name gives a matching record a null name, and a later item may then name it or not.
- Parameters.GetParameters: it requires a method body. The source calls it only from the body transform, and its recovery branch dereferences the implementation.
- Behaviour that follows the code rather than a looser description of it:
  - The recursive walk follows only the superclass and interfaces of an inaccessible class, not its members.
  - Name recovery stops after the first StartLocal that every still-nameless parameter matches. It works item by item; there is no grouping.
  - Parameter annotations are written only for parameters that have a name or a signature.
  - NULL, FIELD and METHOD annotation values are rejected, even though the walk accepts them.

## Findings

| source | as written | input that shows it | evidently intended | confidence | as-written member | corrected member |
|---|---|---|---|---|---|---|
| app/src/main/java/io/github/eirv/androidapiextractor/AndroidApiExtractor.java:387-393 | the back-count gives the last parameter register id 1, so a `long`/`double` parameter's id is one less than its distance `registerCount - register` from the frame end | a static `(J)V` method with 2 registers and a StartLocal for `value` of type `J` in register 0 | each parameter's id counts its own width too, so the wide parameter matches its StartLocal | high, not executed | Parameters.GetParametersAsWritten, Parameters.WideParameterNameLost, Parameters.WideNameOnlyFromRegisterAbove | Parameters.GetParameters, Parameters.RecoveredNameAtOwnRegister |
| app/src/main/java/io/github/eirv/androidapiextractor/AndroidApiExtractor.java:887-889 | `max_locals` is the last parameter's slot, one or two short of the frame the descriptor needs | a static `(I)V` method whose parameter is named: `max_locals` 0 while its local is in slot 0 | `max_locals` is the last slot plus that parameter's width, the argument words of the descriptor | high, not executed | StubBody.MaxLocalsAsWritten, StubBody.MaxLocalsTooSmall | StubBody.MaxLocals, StubBody.MaxLocalsIsArgumentWords |
