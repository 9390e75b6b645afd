# A verified model of the Sorbet front end

This project models, in Dafny, six deterministic pieces of the Sorbet Ruby
type checker.

- **The name table** (`names.dfy`, module `Names`). It covers:
  - the three kinds of names (UTF8, UNIQUE, CONSTANT);
  - their renderings `show`, `toString`, `showRaw`, `shortName` and `isClassName`;
  - the table invariants that `Name::sanityCheck` asserts;
  - interning through `addEq`/`addQuestion`/`addAt`/`prepend`;
  - `deepCopy`;
  - the cross-state ownership check `NameRefDebugCheck`.

  `NameTable` is a class whose name sequence and interning maps are fields that its methods update.
- **The namer** (`namer.dfy`, module `Namer`; `symbols.dfy`, module `Symbols`). `NameInserter` is a class holding the scope-frame stack and the class-behavior map. It covers:
  - the tree-walk callbacks for class definitions, method definitions, sends and assignments;
  - `squashNames`, `arg2Symbol` and `fillInArgs`;
  - the redefinition rules for methods, classes, constants and type members;
  - `include`/`extend` ancestor collection, visibility modifiers and `module_function`;
  - type-member variance and the `:fixed`/bounds rules.

  The symbol table is `Symbols.SymbolTable`. It stands in for `GlobalState`'s symbol operations with small contracts. core/GlobalState.cc is not part of this model.
- **The indexing driver** (`pipeline.dfy`, module `Pipeline`). It covers:
  - choosing a file's strictness level;
  - the cache key;
  - the cache read and write protocol over a key-value store;
  - `indexOne`/`indexOneWithPlugins` with their `--stop-after` short-circuits;
  - `reserveFiles`;
  - `mergeIndexResults` as a fold over batches;
  - the single-threaded `index` loop and the final in-place sort by file.

  The passes (parser, desugarer, plugins, DSL, local variables), the content hash and the file system are fields of a `Frontend` value.
- **The LSP test assertions** (`assertions.dfy`, module `PositionAssertions`; `check_all.dfy`, module `ErrorChecks`). They cover:
  - the three-way comparators;
  - the URI and path conversions;
  - a hand-written matcher for the assertion-comment pattern `(#[ ]*)(\^*)[ ]*([a-zA-Z-]+):[ ]+(.*)$`;
  - `parseAssertionsForFile` as a loop over the file's line breaks;
  - `getSymbolAndVersion` and `FastPathAssertion::make`;
  - `containsLine`;
  - the two-cursor matching walk of `ErrorAssertion::checkAll`.
- **Hover** (`hover.dfy`, module `Hover`). It covers `formatRubyCode`, the `methodSignatureString` loop and the branches of `handleTextDocumentHover`.
- **The `private` DSL check** (`private_dsl.dfy`, module `PrivateDsl`). It covers `Private::replaceDSL` and the keyword-swapping autocorrect it suggests.

`common.dfy` (module `Common`) holds the shared pieces:
- locations;
- the error classes and diagnostics;
- decimal rendering and string helpers.

`ast.dfy` (module `Ast`) holds the parts of the syntax tree that these passes look at.

Diagnostics that the source reports through `beginError` become one of two things:
- a returned sequence, where the operation is otherwise pure;
- the `errors` field of the state, where it changes state.

StrictLevel is assumed to be ordered as the enumerators are listed in the switch at main/pipeline/pipeline.cc:393-424. The source relies on this order but does not show it.

## Model

| member | source | states |
|---|---|---|
| Common.NamerErrorCode | core/errors/namer.h:6-23 | every namer error class has its fixed code in 4001..4018 |
| Names.NewNameRefDebugCheck | core/Names.cc:194-204 | a reference is tagged with the first clone-history entry whose parent already knew the id, or with the state's own id |
| Names.CreatorOfIsOwnOrAncestor | core/Names.cc:197-203 | the tag is the state's own id or that of a history entry whose bound exceeds the id |
| Names.CheckNameRef | core/Names.cc:206-222 | the check passes exactly for tag -1, well-known ids, the state's own id, or a history entry of that id whose bound exceeds the reference |
| Names.MintedRefAccepted | core/Names.cc:194-222 | a reference minted by a state passes the check against that state |
| Names.ParentRefAcceptedInClone | core/Names.cc:194-222 | a clone's history is its parent's plus an entry for the parent with the parent's name count; every reference the parent could mint below that count passes the check in the clone |
| Names.ShortNameIsRootText | core/Names.cc:130-141 | `shortName` bottoms out at the text of the UTF8 name a derived name is built from |
| Names.ClassNameIsWrappedConstant | core/Names.cc:176-192 | a name is a class name exactly when stripping its Singleton and MangleRename wrappers leaves a CONSTANT name |
| Names.UniqueForms | core/Names.cc:90-129 | the wrappers `show` and `toString` put around a unique name's original keep any text the original shows |
| Names.ShortNameInShow | core/Names.cc:113-129 | `show` of any name contains its short name |
| Names.ShortNameInToString | core/Names.cc:90-111 | `toString` of any name contains its short name |
| Names.ShortNameInShowRaw | core/Names.cc:38-88 | `showRaw` of any name contains its short name |
| Names.DeepCopy | core/Names.cc:287-311 | the copy keeps the kind, the text, unique kind, num and original id, and re-tags the original for the target state |
| Names.RenderingsSurviveCopy | core/Names.cc:287-311 | a table copied with `deepCopy` renders every name identically under `show`, `toString`, `showRaw`, `shortName` and `isClassName` |
| Names.AppendUtf8Valid | core/Names.cc:148-152 | appending a text not yet interned keeps the table invariants that `sanityCheck` asserts |
| Names.AppendUniqueValid | core/Names.cc:153-160 | appending a unique name with a new key keeps those invariants |
| Names.AppendConstantValid | core/Names.cc:161-165 | appending a constant name with a new original keeps those invariants |
| Names.NameTable.Ref | core/Names.cc:171-174 | `ref` yields the name's index, tagged by the ownership check |
| Names.NameTable.EnterNameUtf8 | core/Names.cc:150-151 | interning a known text returns its id and changes nothing, and a new text is appended at the end; the table stays valid |
| Names.NameTable.FreshNameUnique | core/Names.cc:156-158 | the same (kind, original, num) always yields the same unique name id, and a new triple is appended |
| Names.NameTable.EnterNameConstant | core/Names.cc:163-164 | the same original always yields the same constant name id, and a new original is appended |
| Names.NameTable.AddEq | core/Names.cc:259-264 | interns exactly the name's text followed by `=` |
| Names.NameTable.AddQuestion | core/Names.cc:266-271 | interns exactly the name's text followed by `?` |
| Names.NameTable.AddAt | core/Names.cc:273-278 | interns exactly `@` followed by the name's text |
| Names.NameTable.Prepend | core/Names.cc:280-285 | interns exactly `s` followed by the name's text |
| Names.NameTable.SanityCheck | core/Names.cc:143-169 | in a valid table every check passes: originals precede, unique num > 0, re-interning returns the same id; the table is unchanged |
| Names.InterningIsIdempotent | core/Names.cc:148-165 | in a valid table two ids with the same text, the same unique triple or the same constant original are equal |
| Namer.ValidAncestorIffConstantPath | namer/namer.cc:204-212 | an ancestor is valid exactly when its constant path starts at the top level, at `self` or at a resolved constant |
| Namer.AncestorWalkIsReversedFilter | namer/namer.cc:162-182 | the walk appends exactly the non-empty valid arguments in reverse source order and draws one `AncestorNotConstant` per invalid argument |
| Namer.AddAncestor | namer/namer.cc:128-183 | a send that is not `include`/`extend` on self, with no arguments (`IncludeMutipleParam`) or with a block (`IncludePassedBlock`) is rejected, lists untouched; otherwise the arguments go to `ancestors` (include) or `singletonAncestors` (extend) |
| Namer.AncestorCheckSilentIffValid | namer/namer.cc:335-347 | the superclass check reports nothing exactly when every ancestor is valid |
| Namer.KeptAncestorsComplete | namer/namer.cc:343-346 | every valid ancestor the IDE needs (not the class's first ancestor unless a module) is copied into the body |
| Namer.CheckAncestors | namer/namer.cc:335-348 | invalid ancestors are replaced by the empty tree with one diagnostic each; afterwards every ancestor is valid and the kept ones are exactly the IDE ancestors |
| Namer.ParamsMatch | namer/namer.cc:479-543 | true exactly when the counts agree and every position agrees on keyword, block and repeated flags and on keyword names; each false return draws exactly one `RedefinitionOfMethod` |
| Namer.FilledExprsAt | namer/namer.cc:375-413 | each parameter becomes a local of its own name, or an optional argument around it when it brings a default at a new position; shadows are plain locals |
| Namer.FilledFresh | namer/namer.cc:375-413 | filling a method without arguments enters exactly one fresh argument per parameter |
| Namer.FreshMethodMatchesItsParams | namer/namer.cc:479-543 | a method entered fresh from some parameters matches those parameters when defined again |
| Namer.FilledCoversParams | namer/namer.cc:406-408 | filling never shortens the argument list, and every non-shadow position exists afterwards |
| Namer.StartFill | namer/namer.cc:378-387 | an intrinsic with exactly one argument has it taken out to be swapped in at the block parameter; otherwise the list is kept |
| Namer.DefaultSuperClass | namer/namer.cc:316-326 | a class other than BasicObject without a superclass gets `todo`; `Net::IMAP` always gets `Net::Protocol`; anything else keeps its superclass |
| Namer.MethodOwner | namer/namer.cc:196-203 | the owner is the enclosing class, or `Object` for methods at the top level |
| Namer.ContextClassIsEnclosingClass | namer/namer.cc:614-630 | away from static initializers the context class is the enclosing class |
| Namer.VisibilityModifier | namer/namer.cc:418-428 | `private`/`private_class_method` set private, `protected` protected, `public` public, and nothing else sets a visibility |
| Namer.RemainingLinesKeepsOthers | namer/namer.cc:331-333 | every body line that `addAncestor` does not consume survives the `remove_if` |
| Namer.RewrittenClassProperties | namer/namer.cc:331-355 | after the rewrite every ancestor is a constant path, other lines survive, and every ancestor the IDE needs is in the body |
| Namer.IdeStats | namer/namer.cc:356-363 | the statements before the class keep a resolved class name first, and a class's first ancestor only when the IDE needs it |
| Namer.DeclaredVariance | namer/namer.cc:709-732 | `:covariant`, `:contravariant` and `:invariant` give their variance; any other symbol draws one error and gives Invariant; a non-symbol other than a lone hash draws one error |
| Namer.WithKeysEffect | namer/namer.cc:767-796 | the option keys make the member fixed exactly when some key is `:fixed` and bounded exactly when some key is `:lower` or `:upper`, in any order |
| Namer.BodySettingsEffect | namer/namer.cc:280-295 | in any order of the lines, a class is final when some line is `final!`, abstract when some line is `abstract!` or `interface!`, an interface when some line is `interface!`, and its superclass is untouched |
| Namer.InterfaceClassReported | namer/namer.cc:288-295 | a class body draws `InterfaceClass` exactly when it is a class, not a module, and some line is `interface!` |
| Namer.HashOptionEffect | namer/namer.cc:767-796 | a trailing option hash sets fixed, bounded and the untyped result type from its keys and changes nothing else |
| Namer.NameInserter.constructor | namer/namer.cc:874-877 | a new inserter has exactly one frame, with `module_function` off |
| Namer.NameInserter.WithContext | namer/namer.cc:879-881 | the inserter that shares a namer context has one frame and that context's behavior map |
| Namer.NameInserter.EnterScope | namer/namer.cc:117-120 | pushes one frame with `module_function` off |
| Namer.NameInserter.ExitScope | namer/namer.cc:122-124 | pops the top frame |
| Namer.NameInserter.ScopeMember | namer/namer.cc:52-68 | an existing member is returned unchanged; a missing one under a non-class is `NoSymbol` with one `InvalidClassOwner`; otherwise a new class with its singleton is entered; `InvalidClassOwner` is drawn exactly when the result is `NoSymbol` |
| Namer.NameInserter.SquashNames | namer/namer.cc:26-74 | the table grows only by new classes, each plain-named one with its singleton; in the table left, the symbol and rewritten path are exactly `Resolve` of the path (`SquashedFrom`): a resolved constant is dealiased, a name is the member `findMember` gives in the squashed scope, entered as a class when missing from a class scope, and the owner with the empty tree otherwise; the diagnostics are exactly `SquashErrors` of the path in that table: those of the inner path first, one `InvalidClassOwner` at each name its scope lacks, and `DynamicConstant` for a scope that is not a constant |
| Namer.NameInserter.SquashMember | namer/namer.cc:52-73 | the last name of a path, once its scope is squashed: `SquashedFrom` extends to the whole path and the diagnostics grow from the scope's to `SquashErrors` of the whole path |
| Namer.SquashErrorsMissing | namer/namer.cc:54-64 | a name draws `InvalidClassOwner` exactly when the path resolves to the empty tree, and then the diagnostics are the inner path's followed by that one |
| Namer.SquashErrorsGrowth | namer/namer.cc:54-64 | once every missing name lies under a non-class, the diagnostics no longer change as the table grows (`PlainGrowth`) |
| Namer.SquashErrorsStep | namer/namer.cc:52-64 | the diagnostics of the scope path, followed by `InvalidClassOwner` when the member is missing, are `SquashErrors` of the whole path in the grown table |
| Namer.ResolveGrowth | namer/namer.cc:52-68 | once every missing name lies under a non-class, the resolution no longer changes as the table grows without losing or changing a plain-named member (`PlainGrowth`) |
| Namer.SquashedFindsMember | namer/namer.cc:52-53 | a name that already was a member of the squashed scope resolves to that member |
| Namer.SquashedEntersClass | namer/namer.cc:54-68 | a name missing from the squashed scope resolves to a new class of that name and owner with a singleton when the scope is a class, and to the owner and the empty tree otherwise |
| Namer.NameInserter.ArgToSymbol | namer/namer.cc:76-111 | a known position only moves that argument's location; a new position appends an argument with the parameter's keyword, block, repeated and default flags |
| Namer.NameInserter.FillInArgs | namer/namer.cc:375-413 | the method's argument list becomes the filled list and the returned expressions are one per parameter |
| Namer.NameInserter.ContextClass | namer/namer.cc:614-630 | the loop computes the class `self.class` denotes, stepping through static initializers to the attached class |
| Namer.NameInserter.AliasMethod | namer/namer.cc:185-189 | `newName` on the owner is a method aliasing `meth`; nothing else in the table changes |
| Namer.NameInserter.AliasModuleFunction | namer/namer.cc:191-194 | the method is aliased under its own name on its owner's singleton class |
| Namer.NameInserter.ResolveRedefinition | namer/namer.cc:568-572 | an intrinsic or matching redefinition only gains a location; any other is mangle-renamed out of the way with the mismatch diagnostic |
| Namer.NameInserter.RedefineMethod | namer/namer.cc:559-573 | the same site is reused (reparse); otherwise the location is added or the old symbol is renamed, then the method is entered |
| Namer.NameInserter.EnterMethodDef | namer/namer.cc:559-580 | fresh, reparsed, extended or renamed, exactly as the existing member's site and parameters decide; the entered method carries the site and the DSL flag |
| Namer.NameInserter.PreTransformMethodDef | namer/namer.cc:545-581 | pushes a frame and enters the method on its owner: the enclosing class, or for `def self.f` that class's existing singleton or else a new class attached to it |
| Namer.NameInserter.PostTransformMethodDef | namer/namer.cc:583-594 | pops the frame; an active `module_function` flag on the enclosing frame aliases the method onto the singleton, otherwise the table is unchanged |
| Namer.NameInserter.ModuleFunctionArg | namer/namer.cc:444-460 | a non-symbol argument draws `DynamicDSLInvocation`, a symbol with no method `MethodNotFound`, both leaving the table; a found method is aliased on its owner's singleton |
| Namer.NameInserter.ModuleFunctionArgs | namer/namer.cc:444-463 | one `ModuleFunctionStep` per argument from the table before it; the diagnostics are exactly `ArgsDiagnostics`: one `DynamicDSLInvocation` per non-symbol argument and one `MethodNotFound` per symbol whose method is missing at its turn; a method that existed before the loop is found and aliased |
| Namer.NameInserter.PostTransformSend | namer/namer.cc:415-470 | a visibility modifier or `module_function` applied to a definition acts on its symbol and is replaced by the definition; a bare `self.module_function` sets the flag on the top frame; with arguments, each is applied as `ModuleFunctionArgs` says, with exactly its diagnostics |
| Namer.NameInserter.ResolveClassSymbol | namer/namer.cc:216-228 | `class << self` names the enclosing class's singleton; a `todo` symbol is what `squashNames` resolves the name to from the enclosing class (`SquashedFrom`), with exactly its `SquashErrors` |
| Namer.NameInserter.RedefineAsClass | namer/namer.cc:230-244 | one `ModuleKindRedefinition`; the old symbol is renamed and a new class of the same owner, name and kind is entered with a fresh singleton |
| Namer.NameInserter.CheckClassKind | namer/namer.cc:229-253 | a non-class is redefined as a class; a kind conflict draws the error with no rename; otherwise the kind is recorded; the diagnostics are exactly `KindCheckErrors` |
| Namer.NameInserter.RecordBehaviorLoc | namer/namer.cc:255-266 | the first behavior-defining site of a class outside RBI files is recorded; a later one in another file draws `MultipleBehaviorDefs`, and no other diagnostic is drawn |
| Namer.NameInserter.ClassDefSymbol | namer/namer.cc:216-253 | the singleton class for `class << self`; otherwise the kind-checked outcome of the root or of the symbol `squashNames` resolved the name to from the enclosing class (`SquashedFrom`), with the kind check's diagnostics after the resolution's, which are exactly `SquashErrors` of the class name |
| Namer.NameInserter.PreTransformClassDef | namer/namer.cc:215-269 | the class is the enclosing singleton for `class << self`, else the kind-checked outcome (`KindChecked`) of the root or of the symbol `squashNames` resolved the name to from the enclosing class (`SquashedFrom`); the diagnostics are the resolution's (exactly `SquashErrors` of the class name), then the kind check's, then the behavior-location one; a frame is pushed |
| Namer.NameInserter.ApplyClassDSL | namer/namer.cc:280-295 | `final!` marks the class and singleton final; `abstract!`/`interface!` mark both abstract; `interface!` on a class draws `InterfaceClass`; the class's settings change exactly as `LineSettings` says |
| Namer.NameInserter.MarkFinal | namer/namer.cc:280-283 | the class and its (possibly new) singleton are final, and the class's settings change in `isFinal` only |
| Namer.NameInserter.MarkAbstract | namer/namer.cc:284-287 | the class and its (possibly new) singleton are abstract, and the class's settings change in `isAbstract` only |
| Namer.NameInserter.HandleNamerDSL | namer/namer.cc:271-299 | a line is removed exactly when it is an accepted `include`/`extend`, whose arguments join the ancestor lists; the diagnostics are exactly `LineDiagnostics` and a kept line's declarations take effect on the class (`LineSettings`) and its singleton |
| Namer.NameInserter.FilterNamerDSL | namer/namer.cc:331-333 | the kept lines are the remaining lines in order, the ancestor lists grow by the lines' ancestors, the diagnostics are `BodyDiagnostics` and the class's settings become `BodySettings` of the body |
| Namer.NameInserter.KeepSingletonAncestors | namer/namer.cc:349-355 | one `KeepForIDE` per singleton ancestor the IDE needs, in order |
| Namer.NameInserter.RewriteClassBody | namer/namer.cc:331-355 | the class is rewritten as `RewrittenClass` says; the diagnostics are those of the body, then of the ancestor check; the class's settings become `BodySettings` of the body |
| Namer.NameInserter.SetDefaultSuperClass | namer/namer.cc:316-326 | the class's entry gets its `DefaultSuperClass` and nothing else in the table changes |
| Namer.NameInserter.RecordClassSymbol | namer/namer.cc:328-329 | the definition site is among the class's locations and its settings are unchanged |
| Namer.NameInserter.RecordClassEntry | namer/namer.cc:316-329 | the site is recorded, no diagnostic is drawn, and the class's settings change in the superclass default only |
| Namer.NameInserter.EnsureStaticInit | namer/namer.cc:365-370 | the per-file initializer on the root's singleton for the top-level class, the class's own otherwise; only the class's singleton link may change |
| Namer.NameInserter.PostTransformClassDef | namer/namer.cc:314-373 | pops the frame; the class's superclass is its `DefaultSuperClass` and its settings are `BodySettings` of the body from there; the diagnostics are exactly the body's and the ancestor check's; body and ancestors are rewritten, the static initializer exists and the IDE statements wrap the class |
| Namer.NameInserter.CheckConstantScope | namer/namer.cc:633-639 | `DynamicConstantAssignment` exactly when the owner is neither a class nor DSL-synthesized |
| Namer.NameInserter.ConstantScope | namer/namer.cc:643-657 | the scope is the symbol `squashNames` resolves the path to from the context class (`ScopeChosen`); one that is not a class draws `InvalidClassOwner` and is replaced by a new class of its owner and name; the diagnostics are exactly `ScopeErrors`: the squashing's, then that `InvalidClassOwner` |
| Namer.NameInserter.ClassScope | namer/namer.cc:644-656 | a class scope is kept with nothing changed; any other draws one `InvalidClassOwner` and is replaced by a new class of its owner and name |
| Namer.NameInserter.ClaimConstantName | namer/namer.cc:659-667 | the static field of that name is entered in the scope; a non-field member of that name draws `ModuleKindRedefinition` and is renamed |
| Namer.NameInserter.FillAssign | namer/namer.cc:632-673 | the left-hand side becomes a static field of the constant's name, found under that name in the scope `ConstantScope` chose and owned by it (`FilledAssignIn`), keeping the rewritten path; the diagnostics are `DynamicConstantAssignment` when the owner is neither a class nor DSL-synthesized, then `ScopeErrors`, then at most one `ModuleKindRedefinition` |
| Namer.NameInserter.HandleAssignment | namer/namer.cc:825-840 | as `fillAssign`, with the field in the chosen scope and the same diagnostics, and a `T.type_alias` constant is marked a type alias |
| Namer.NameInserter.FindTypeMember | namer/namer.cc:735-736 | the position of the first type member of that name, or the end |
| Namer.NameInserter.CheckTypeMemberName | namer/namer.cc:735-750 | a type member of that name defined elsewhere makes this one a duplicate (one error, nothing changes); otherwise a clashing constant is reported and renamed |
| Namer.NameInserter.EnterTypeTemplateAlias | namer/namer.cc:752-765 | a `type_template` also defines a static field on the enclosing class aliasing the member, renaming a clashing one |
| Namer.NameInserter.ApplyTypeMemberKeys | namer/namer.cc:770-795 | the loop applies every key in turn: the member takes `WithKeys` of them, and a `:fixed` key rewrites the left-hand side |
| Namer.NameInserter.CheckTypeMemberBounds | namer/namer.cc:797-820 | the definition is kept exactly when the member is fixed or bounded but not both; bounded draws one error, and both or neither draws another |
| Namer.NameInserter.TypeMemberOptions | namer/namer.cc:767-821 | the member's fixed, bounded and result type follow the option keys, its variance is unchanged, and the diagnostics are the bounds verdict |
| Namer.NameInserter.DeclareTypeMember | namer/namer.cc:735-822 | a duplicate yields the empty tree and one error; otherwise the member is entered and its option hash applied |
| Namer.NameInserter.DefineTypeMember | namer/namer.cc:698-822 | more than two arguments draw one error and turn the definition into an untyped type alias; otherwise the variance is read and the member declared |
| Namer.NameInserter.HandleTypeMemberDefinition | namer/namer.cc:675-823 | outside a class: empty tree and one error; at the root: one `RootTypeMember` and an untyped type alias; otherwise the member goes on the class (its singleton for `type_template`) |
| Namer.NameInserter.PostTransformAssign | namer/namer.cc:842-870 | non-constant assignments are untouched; type-member sends go to `handleTypeMemberDefinition`; everything else to `fillAssign`/`handleAssignment` |
| Pipeline.MinLevel | main/pipeline/pipeline.cc:381 | `std::min`: one of the arguments, no greater than either |
| Pipeline.MaxLevel | main/pipeline/pipeline.cc:381 | `std::max`: one of the arguments, no smaller than either |
| Pipeline.ClampLevel | main/pipeline/pipeline.cc:378-382 | levels above Ignore up to Max land in [min, max] when the bounds are ordered, in-band levels are kept, and other levels are unchanged |
| Pipeline.ClampLevelIdempotent | main/pipeline/pipeline.cc:378-382 | clamping twice is clamping once |
| Pipeline.NormalizedPath | main/pipeline/pipeline.cc:357-360 | the key starts with `/` or `./`; such paths are kept and others get `./` in front |
| Pipeline.NormalizedPathIdempotent | main/pipeline/pipeline.cc:357-360 | normalising twice is normalising once |
| Pipeline.DecideStrictLevel | main/pipeline/pipeline.cc:351-390 | autogen gives False; else the clamped override; else the clamped sigil (None becoming False); a "Useless override" ParserError exactly when the override equals the sigil |
| Pipeline.BytesToHex | main/pipeline/pipeline.cc:79 | two lower-case hex digits per byte |
| Pipeline.HexRoundTrip | main/pipeline/pipeline.cc:79 | the hex string decodes back to the bytes |
| Pipeline.FileKey | main/pipeline/pipeline.cc:74-81 | the key is the path, `//` and 16 hex digits |
| Pipeline.FileKeyRoundTrip | main/pipeline/pipeline.cc:74-81 | the path and the source hash are recovered from the key |
| Pipeline.FileKeyInjective | main/pipeline/pipeline.cc:74-81 | two keys are equal exactly when the paths and the source hashes are |
| Pipeline.CacheEntry | main/pipeline/pipeline.cc:85-88 | a hit needs a store, an id within the table and the key present, and yields the stored tree |
| Pipeline.FetchTreeFromCache | main/pipeline/pipeline.cc:83-99 | returns the cache entry; a hit marks the file `cachedParseTree`, a miss changes nothing |
| Pipeline.CacheWritesDomain | main/pipeline/pipeline.cc:105-111 | the keys after writing are the old keys plus the keys of the trees not read from the cache |
| Pipeline.CacheWritesUntouched | main/pipeline/pipeline.cc:105-111 | a key no written tree has keeps its entry |
| Pipeline.CacheWritesLastWins | main/pipeline/pipeline.cc:105-111 | a written tree not overwritten later is what the store holds under its key |
| Pipeline.CacheWritesAppend | main/pipeline/pipeline.cc:105-111 | writing two lists in turn is writing their concatenation |
| Pipeline.CacheTrees | main/pipeline/pipeline.cc:101-112 | nothing without a store; otherwise every tree not read from the cache is written under its file key |
| Pipeline.RunPasses | main/pipeline/pipeline.cc:180-200 | Ignore and stop-after Parser, Desugarer or LocalVars stop with no tree; only the plugin variant produces generated files |
| Pipeline.IndexedTree | main/pipeline/pipeline.cc:170-220 | the tree is empty on Ignore, on stop-after Parser/Desugarer/LocalVars after a miss, on stop-after DSL and after an exception; otherwise the cached or indexed tree |
| Pipeline.IndexErrors | main/pipeline/pipeline.cc:213-219 | exactly one InternalError at `Loc::none(file)` when a pass raises, none otherwise |
| Pipeline.IndexOne | main/pipeline/pipeline.cc:170-220 | always a parsed file for the requested file, with the tree and errors above; a hit marks the file cached |
| Pipeline.IndexOneWithPlugins | main/pipeline/pipeline.cc:226-293 | as `indexOne`, plus the generated files, which are empty whenever the tree is |
| Pipeline.ReserveFiles | main/pipeline/pipeline.cc:337-349 | the new table is `Reserved` of the old one; each id is the first file of its path, so an existing file's id is reused and a repeated path gets one id |
| Pipeline.Reserved | main/pipeline/pipeline.cc:340-347 | the old table is kept as a prefix |
| Pipeline.ReservedEntries | main/pipeline/pipeline.cc:337-349 | every added file is unread and of a path in the list that the old table lacked; no two added files share a path; afterwards every path has a file |
| Pipeline.AppendFindsNew | main/pipeline/pipeline.cc:342-345 | a file appended with a path the table lacked is the one a later search finds |
| Pipeline.PrefixFindsFirst | main/pipeline/pipeline.cc:342-345 | appending files does not change which existing file a search finds |
| Pipeline.ReadFileWithStrictnessOverrides | main/pipeline/pipeline.cc:427-471 | a file already read is untouched; otherwise its source (empty and a FileNotFound error if missing), source type and decided level are set, other files unchanged; it raises exactly when it read the file and the level it set is `None`, `Internal` or `Max`, the levels `incrementStrictLevelCounter` has no counter for |
| Pipeline.EnterReadFile | main/pipeline/pipeline.cc:429-466 | the file's source is entered at its id with its sigil, a missing file is reported as FileNotFound, and the source type is PayloadGeneration exactly when a store state is asked for |
| Pipeline.ReadIs | main/pipeline/pipeline.cc:427-471 | for a file not yet read, the entry, the errors and the raise are those of the source read, the FileNotFound report and `decideStrictLevel` on the new entry |
| Pipeline.ReadRaisesWhen | main/pipeline/pipeline.cc:392-424 | a file already read, or any file under autogen, never raises; with `--typed` bounds between `false` and `strong` a file raises exactly when it is not yet read and its override is `None` |
| Pipeline.ReadRaisesForcedMax | main/pipeline/pipeline.cc:392-424 | a lower bound of `max` makes a file with a sigil above `ignore` and no override raise |
| Pipeline.SubstituteBatch | main/pipeline/pipeline.cc:506-512 | trees keep their files; trees read from the cache are kept and the others substituted |
| Pipeline.SubstituteTrees | main/pipeline/pipeline.cc:506-512 | the substitution loop computes `SubstituteBatch` |
| Pipeline.MergedTreesCount | main/pipeline/pipeline.cc:495-520 | the merged tree count is the sum over the batches |
| Pipeline.MergedTreesFirst | main/pipeline/pipeline.cc:495-500 | the first batch's trees lead the merge unchanged |
| Pipeline.MergeLaterBatch | main/pipeline/pipeline.cc:502-520 | one later batch is substituted, cached and appended |
| Pipeline.MergeIndexResults | main/pipeline/pipeline.cc:484-527 | no batches give an empty result; otherwise the first batch's state, the merged trees and plugin files, and the store holds the writes of all merged trees |
| Pipeline.SortByFile | main/pipeline/pipeline.cc:669 | the array ends sorted by file and is a permutation of its input |
| Pipeline.IndexGeneratedFiles | main/pipeline/pipeline.cc:650-658 | the inner loop leaves exactly `IndexedGenerated`: each generated file entered at the end of the table in order with its path, its level decided, its tree indexed from that entry with what the store has for it, and the errors of both appended |
| Pipeline.CoverageStep | main/pipeline/pipeline.cc:645-660 | appending a file's tree and its generated trees keeps every earlier file covered and covers this one |
| Pipeline.CoveragePermuted | main/pipeline/pipeline.cc:669 | sorting the trees, or any reordering of them, still leaves a tree for every input file |
| Pipeline.IndexSequentially | main/pipeline/pipeline.cc:642-661 | no input before the last one read raised; when one raises the loop stops there, the turns before it ran as below, and the file is read (`SequentialRaised`); otherwise the states between turns run from the table, errors and store before the loop to those after it, each turn being `InputTurn` for its file in the state the one before left; every input's tree is `IndexedTree` of the entry its turn read and of what the store had for it, and a file given for the first time is read from the table as it was before the loop; the trees are `Batches` of each input's tree and its generated trees, the count is the number of generated files, each entered at the end of the table with its path, there are inputs plus that many trees (the ENFORCE) and every input has one; with a store and no file given twice, the store ends as writing all the trees in order over the old entries |
| Pipeline.IndexInput | main/pipeline/pipeline.cc:646-658 | one turn of the loop: the entry indexed is `ReadData` of the file's old entry, what the store has for it is the cache lookup of that entry; it raises exactly when `ReadRaises` holds of the old entry, and then the file is read and nothing else happens; otherwise the table, errors, tree, plugin files and generated trees are those of `InputTurn` of the old table and store |
| Pipeline.EnteredStep | main/pipeline/pipeline.cc:650-658 | after a turn, the files entered so far are followed by this turn's, and the generated trees name them in order |
| Pipeline.GeneratedStep | main/pipeline/pipeline.cc:651-657 | one entry, with the plugin file's path, and one tree, for the id the file is entered at |
| Pipeline.IndexGeneratedFile | main/pipeline/pipeline.cc:651-657 | entering one generated file, deciding its level and indexing it leaves the table, tree and errors of `GeneratedStep` at the table's old size |
| Pipeline.InputTurn | main/pipeline/pipeline.cc:646-658 | the entry read is `ReadData` of the old entry; the cached tree is the store's entry for it; the tree is `IndexedTree` of both; the table grows by one entry per plugin file, only the file's own entry changes, and generated tree `i` is for the new entry `i`, which has plugin file `i`'s path |
| Pipeline.IndexTurn | main/pipeline/pipeline.cc:645-660 | one turn of the loop, plus `cacheTrees`: when reading the input raises, the loop's outcome is `SequentialRaised` at that input; otherwise the input did not raise and the loop invariant holds for one more input, the states and turns growing by the turn for the input and the state it leaves |
| Pipeline.FinishTurn | main/pipeline/pipeline.cc:647-659 | after an input read without raising, its turn and `cacheTrees` keep the loop invariant for one more input |
| Pipeline.Advance | main/pipeline/pipeline.cc:648-659 | a turn appends its tree and the generated trees to the trees so far, keeps every tree within the table and only grows the table |
| Pipeline.StepsUnvisited | main/pipeline/pipeline.cc:645-660 | a file no turn so far was for keeps its entry |
| Pipeline.StepsTreeFiles | main/pipeline/pipeline.cc:645-660 | the table only grows, and every tree so far belongs to an earlier turn's file or to a generated file |
| Pipeline.CacheWritesRewritten | main/pipeline/pipeline.cc:105-111 | writing the trees so far again on a table that agrees at their files, followed by more trees, is writing all of them once |
| Pipeline.StepsStore | main/pipeline/pipeline.cc:645-660 | with a store and no file turned twice, the store after `n` turns is the store before with all the trees so far written in order |
| Pipeline.RanTrees | main/pipeline/pipeline.cc:647-649 | every turn's tree is `IndexedTree` of the entry it read and of what the store in that state had for it |
| Pipeline.FirstTurnReads | main/pipeline/pipeline.cc:646-647 | the turn for a file given for the first time reads the entry the loop started with |
| Pipeline.SequentialDone | main/pipeline/pipeline.cc:642-661 | the loop invariant after every input gives all the facts `IndexSequentially` states |
| Pipeline.Index | main/pipeline/pipeline.cc:630-671 | stop-after Init yields no trees and changes nothing; with fewer than three files a raise while reading an input ends it with the loop's raising outcome, and otherwise the result is a permutation of the trees of the loop above, with all its facts on the states, turns, trees, count and store, so there are inputs plus that many trees and every input has one; with more, a permutation of the pool's trees; the result is always sorted by file |
| PositionAssertions.PositionComparison | test/helpers/position_assertions.cc:42-58 | -1, 0 or 1; 0 exactly for equal positions; the sign of the lexicographic order |
| PositionAssertions.PositionComparisonAntisymmetric | test/helpers/position_assertions.cc:42-58 | swapping the arguments negates the result |
| PositionAssertions.PositionComparisonTransitive | test/helpers/position_assertions.cc:42-58 | the order is transitive |
| PositionAssertions.RangeComparison | test/helpers/position_assertions.cc:60-67 | by start, then end; 0 exactly for equal ranges |
| PositionAssertions.RangeComparisonAntisymmetric | test/helpers/position_assertions.cc:60-67 | swapping the arguments negates the result |
| PositionAssertions.RangeComparisonTransitive | test/helpers/position_assertions.cc:60-67 | the order is transitive |
| PositionAssertions.RangeIsSubsetShape | test/helpers/position_assertions.cc:71-78 | multi-line ranges and different lines are never subsets; a single-line range contains itself; the relation is transitive |
| PositionAssertions.StringCompare | test/helpers/position_assertions.cc:82 | the sign of `compare`: first differing character, a proper prefix first, 0 exactly for equal strings |
| PositionAssertions.ErrorComparison | test/helpers/position_assertions.cc:80-91 | by file name, then range, then message; 0 exactly when all three are equal |
| PositionAssertions.ErrorComparisonAntisymmetric | test/helpers/position_assertions.cc:80-91 | swapping the arguments negates the result |
| PositionAssertions.ErrorComparisonTransitive | test/helpers/position_assertions.cc:80-91 | the order is transitive |
| PositionAssertions.FilePathToUri | test/helpers/position_assertions.cc:124-126 | the prefix, `/` and the path |
| PositionAssertions.UriToFilePath | test/helpers/position_assertions.cc:128-136 | a URI outside the prefix gives `""`; otherwise the text after the prefix and one character |
| PositionAssertions.UriRoundTrip | test/helpers/position_assertions.cc:124-136 | `uriToFilePath(p, filePathToUri(p, f)) == f` |
| PositionAssertions.AssertionCompare | test/helpers/position_assertions.cc:141-159 | different files compare by name; a whole-line assertion gives 0 exactly when its line lies in the other range's lines, 1 after, -1 before; other ranges compare as ranges |
| PositionAssertions.JoinSplit | test/helpers/position_assertions.cc:317 | joining the pieces of a split with the delimiter gives back the text |
| PositionAssertions.SplitJoin | test/helpers/position_assertions.cc:317 | splitting delimiter-free pieces joined by the delimiter gives back the pieces |
| PositionAssertions.Stoi | test/helpers/position_assertions.cc:325 | leading spaces, an optional sign and at least one digit; `None` (the source's exception) when there are no digits or the value lies outside the 32-bit range |
| PositionAssertions.StoiOfNatToString | test/helpers/position_assertions.cc:325 | the decimal rendering of a number reads back as that number |
| PositionAssertions.GetSymbolAndVersion | test/helpers/position_assertions.cc:315-328 | the first word and version 1, or the second word read as the version |
| PositionAssertions.GetSymbolAndVersionFailures | test/helpers/position_assertions.cc:319-322 | one failure exactly when the contents have three words or more, and then the symbol is the first word and the version 1 |
| PositionAssertions.SymbolAndVersionRoundTrip | test/helpers/position_assertions.cc:315-328 | `symbol version` reads back as written |
| PositionAssertions.SortStrings | test/helpers/position_assertions.cc:739 | the result is sorted and a permutation of the input |
| PositionAssertions.FastPathExpectedFiles | test/helpers/position_assertions.cc:734-742 | no list for empty contents; otherwise the comma-separated pieces, sorted and a permutation |
| PositionAssertions.MatchAtShape | test/helpers/position_assertions.cc:15 | a match is `#` and spaces, carets, a non-empty label, `:` and spaces, and contents to the end of the line |
| PositionAssertions.FirstMatchLeftmost | test/helpers/position_assertions.cc:229 | the match found is at the leftmost index where the pattern matches, and none is found only when it matches nowhere |
| PositionAssertions.AssertionCommentRoundTrip | test/helpers/position_assertions.cc:15 | a comment written as `# ^^^ label: contents` after any `#`-free code reads back as its code, carets, label and contents |
| PositionAssertions.NoHashNoMatch | test/helpers/position_assertions.cc:15 | a line without `#` never matches |
| PositionAssertions.MakeRange | test/helpers/position_assertions.cc:188-191 | a range on one line, by default the whole line |
| PositionAssertions.MakeAssertion | test/helpers/position_assertions.cc:20-35 | a constructor label makes its assertion, an ignored label nothing, and any other label an "unrecognized" failure; `usage`/`def` contents `stoi` rejects raise; `apply-code-action` contents not of the form `[version] title` make no assertion and a failure |
| PositionAssertions.TitleVersion | test/helpers/position_assertions.cc:856-872 | a match has a non-empty version of word characters and a title with no line terminator that does not start with white space |
| PositionAssertions.TitleVersionShape | test/helpers/position_assertions.cc:856-872 | a match reads the contents as `[`, the version, `]`, a non-empty run of white space and the title |
| PositionAssertions.TitleVersionRoundTrip | test/helpers/position_assertions.cc:856-872 | `[version] title` reads back as that version and title |
| PositionAssertions.TitleVersionExamples | test/helpers/position_assertions.cc:856-872 | `foo` and `[1]Fix` are malformed; `[1] Fix it` gives version `1` and title `Fix it` |
| PositionAssertions.MakeAssertionKinds | test/helpers/position_assertions.cc:20-35 | error, usage/def, boolean, fast-path, hover and well-formed apply-code-action contents are read as each constructor reads them |
| PositionAssertions.ParseMatchedLineFacts | test/helpers/position_assertions.cc:229-282 | a caret comment on line 0 yields nothing; a caret range starts after the code, `#` and spaces and spans one column per caret, on the last code line; ignored labels yield nothing |
| PositionAssertions.ReadAssertionLine | test/helpers/position_assertions.cc:223-286 | the loop body computes `ParseLine` with its early `continue` |
| PositionAssertions.ParseNextLine | test/helpers/position_assertions.cc:218-287 | one turn cuts out the line ending at the next break and reads it; a raising constructor raises |
| PositionAssertions.ParseAssertionsForFile | test/helpers/position_assertions.cc:203-289 | the loop over `lineBreaks` computes, as written, the assertions `ParseLines` gives for the file's lines and the failures `Failures` gives: a caret comment while the line counter is 0, every unrecognized label at its line, `usage`/`def` contents of three words or more, and every malformed `apply-code-action` at its line, up to a line whose constructor raises |
| PositionAssertions.ParseLinesRaised | test/helpers/position_assertions.cc:272-273 | once a line raises, the whole file does |
| PositionAssertions.FailuresRaised | test/helpers/position_assertions.cc:272-282 | once a constructor raises, no later line reports an unrecognized label |
| PositionAssertions.ContainsLineSound | test/helpers/position_assertions.cc:816-824 | a `true` answer means `line` is a whole line of the text |
| PositionAssertions.ContainsLineMissesLaterLine | test/helpers/position_assertions.cc:816-824 | as written, `("ab\nb", "b")` gives false though `b` is a line |
| PositionAssertions.ContainsLineCorrected | test/helpers/position_assertions.cc:815-824 | the corrected search is true exactly when `line` is a whole line of the text |
| PositionAssertions.SkippedLineShiftsNumbers | test/helpers/position_assertions.cc:235-243 | as written, the caret comment of `# ^ hover: x`, `a`, `# ^ hover: y` is recorded on line 1 pointing at line 0 |
| PositionAssertions.CountedLineNumbers | test/helpers/position_assertions.cc:235-243 | with the skipped line counted, it is recorded on line 2 pointing at the code line 1 |
| PositionAssertions.CountedParseState | test/helpers/position_assertions.cc:208-286 | counted, the loop state after some lines is their number and their last code line |
| PositionAssertions.CountedLineAssertion | test/helpers/position_assertions.cc:246-273 | counted, an assertion records its own line, and a caret comment points at the last code line before it |
| PositionAssertions.CountedLineFailure | test/helpers/position_assertions.cc:235-282 | with the skipped line counted, an unrecognized label or a malformed `apply-code-action` after the lines so far is reported at its own line number, unless it is a caret comment on the first line |
| PositionAssertions.AsWrittenEqualsCounted | test/helpers/position_assertions.cc:235-243 | when the first line is not a caret comment, the as-written and the counted loops give the same assertions and failures |
| ErrorChecks.ErrorAssertionsOfMembers | test/helpers/position_assertions.cc:193-201 | exactly the error assertions are kept, in order |
| ErrorChecks.GetErrorAssertions | test/helpers/position_assertions.cc:193-201 | the loop computes the error assertions among its input |
| ErrorChecks.IsDuplicateDiagnostic | test/helpers/position_assertions.cc:600-603 | true exactly when the last match was an `error-with-dupes` assertion that compares equal to the diagnostic and whose message it contains |
| ErrorChecks.SortByKey | test/helpers/position_assertions.cc:610-612 | sorted by `errorComparison` and a permutation |
| ErrorChecks.SortedFiles | test/helpers/position_assertions.cc:626-628 | each file's diagnostics sorted and permuted in place; the files are kept |
| ErrorChecks.MatchDiagnostics | test/helpers/position_assertions.cc:633-681 | the first loop walks both cursors as the step relation says |
| ErrorChecks.ReportUnexpected | test/helpers/position_assertions.cc:683-693 | the second loop reports every leftover diagnostic that is not a duplicate |
| ErrorChecks.CheckFile | test/helpers/position_assertions.cc:630-693 | both loops over one file consume assertions up to those left over, and `success` becomes the conjunction over the events |
| ErrorChecks.WalkAccounts | test/helpers/position_assertions.cc:605-705 | every assertion is consumed once, matched or missing, and every diagnostic once, each in order |
| ErrorChecks.CheckAll | test/helpers/position_assertions.cc:605-705 | the verdict is that every event of the walk passed, and each file's diagnostics come back sorted |
| ErrorChecks.CheckAllMeaning | test/helpers/position_assertions.cc:605-705 | true exactly when no assertion is missing, every diagnostic is matched or a duplicate of the preceding match, and every matched message is contained |
| Hover.FormattedSig | main/lsp/requests/hover.cc:37-43 | Markdown with a non-empty type gives "```ruby\n" + type + "\n```"; otherwise the type verbatim |
| Hover.UnwrapFormattedSig | main/lsp/requests/hover.cc:37-43 | the fenced signature unwraps to the type string |
| Hover.FormatRubyCode | main/lsp/requests/hover.cc:29-46 | the requested kind; the content starts with the documentation (empty when absent) followed by the formatted signature |
| Hover.FormatRubyCodeInverse | main/lsp/requests/hover.cc:29-46 | the content splits back into the documentation and the type string |
| Hover.MethodSignatureString | main/lsp/requests/hover.cc:9-27 | the loop over `main` and the `secondary` chain appends the details of existing methods, a space before each but the first |
| Hover.SignatureIsJoin | main/lsp/requests/hover.cc:12-26 | with non-empty details the signature is the details joined by single spaces, with no leading space |
| Hover.DetailsCount | main/lsp/requests/hover.cc:15-24 | one detail per component whose method exists |
| Hover.HandleTextDocumentHover | main/lsp/requests/hover.cc:48-126 | no responses give a null result; a setup error the error; otherwise the hover of the first response with its documentation |
| PrivateDsl.KeywordText | dsl/Private.cc:30 | `private` is 7 characters and `private_class_method` 20 |
| PrivateDsl.KeywordName | dsl/Private.cc:26-39 | the name a keyword spells, inverse to its text |
| PrivateDsl.KeywordSpan | dsl/Private.cc:29-30 | the first `width` bytes of the send's location, in its file |
| PrivateDsl.MismatchError | dsl/Private.cc:26-39 | at the send, `PrivateMethodMismatch`, replacing [begin, begin+7) by `private_class_method` or [begin, begin+20) by `private` |
| PrivateDsl.ReplaceDSL | dsl/Private.cc:14-43 | the replacement is always empty; a diagnostic exactly when one method-definition argument is on the wrong side for the keyword; at most one, at the send |
| PrivateDsl.SuggestionSwapsKeyword | dsl/Private.cc:30-37 | the replaced span is as long as the keyword written and the replacement is the other keyword |
| PrivateDsl.SuggestionFixesMismatch | dsl/Private.cc:26-39 | calling the suggested keyword instead draws no diagnostic |

## Left out

- Symbols.SymbolTable: `enterClassSymbol`, `enterMethodSymbol`, `enterStaticFieldSymbol`, `enterTypeMember`, `findMember`, `dealias`, `singletonClass`, `mangleRenameSymbol` and the flag setters are a stand-in for `GlobalState`/`Symbol`, which are not part of this model. Their contracts say only what the namer relies on. Their deduplication is not claimed to match the real table.
- Pipeline.FileTable and Pipeline.KeyValueStore: `findFileByPath`, `reserveFileRef`, `enterFile`, `enterNewFileAt` and the store are stand-ins of the same kind. The store holds trees; serialisation is not modelled.
- Name hashing (`Name::hash`, core/Names.cc:23-36): the mixing functions are not part of this model. Interning is keyed by the name's contents instead.
- The per-kind renderings of `show`, `toString` and `showRaw` (the `<Class:…>`, ` (overload.N)`, `$N`, `<U …>`, `<K … $num>`, `<C …>` and `CENSORED` forms): the functions state them case by case; the lemmas prove what follows from them.
- `postTransformUnresolvedIdent` (namer/namer.cc:596-610) is not modelled. Global variables are entered by code this model does not cover.
- `classDefinesBehavior`, `ArgParsing::parseArgs` and `isRBI` are parameters: a flag, the parsed parameters and a set of RBI files.
- Error headers, explanation lines and `beginError` suppression: every diagnostic is recorded. Only its location, class and autocorrect are modelled.
- The worker pool (`indexSuppliedFiles`, `indexPluginFiles`, the queues): `index` with three or more files takes the pool's trees as a parameter (`pooled`). `mergeIndexResults` is a fold over the batches in queue order. A worker's `readFileWithStrictnessOverrides` raising (main/pipeline/pipeline.cc:548) is therefore not modelled on that path; on the path with fewer than three files it is.
- Pipeline.Index: when an input's read raises, the model returns with the raise flagged and the table as the read left it; what the exception does beyond `index` is not modelled.
- The parser, desugarer, plugins, DSL passes, local-variable pass, hash function, file system and `Substitute::run` are fields of `Frontend` or function parameters. Printers, timers and counters are left out; the raise in `incrementStrictLevelCounter` is modelled.
- Namer.NameInserter.FilterNamerDSL: the `final!`/`abstract!` marks on the singleton class are stated line by line, by HandleNamerDSL, and not folded over the body. The fold covers the class's own entry and the diagnostics.
- Namer.NameInserter.FillAssign: the diagnostics end in at most one `ModuleKindRedefinition`; when it is drawn is stated by ClaimConstantName, in the table ConstantScope leaves, which FillAssign does not return. HandleAssignment inherits the same statement.
- Pipeline.SortByFile: `fast_sort` is not stable. The model promises the order by file and a permutation, nothing about equal ids.
- PositionAssertions.AssertionCompare and the comparators return the sign of `string_view::compare`, not its magnitude.
- ErrorChecks.CheckAll: `RangeAssertion::compare` returns the raw result of `filename.compare` for assertions in different files (test/helpers/position_assertions.cc:142-144), and `checkAll` branches only on exactly 1 and -1 (645-666). A cross-file comparison of another magnitude, which the C++ standard allows and common `memcmp` implementations produce, falls to `default:` and counts as a match in the source. The model reads every negative result as -1 and every positive one as 1, so there such a diagnostic is unexpected and the assertion missing. The magnitude is implementation-defined, so the verdict the source reaches there is not modelled.
- ErrorChecks.SortByKey: the model sorts with a stable insertion sort, while `fast_sort` is not stable. Diagnostics, and assertions, with equal keys keep their input order in the model. When an `error` and an `error-with-dupes` assertion share a key, the source's verdict can depend on an order the model fixes.
- `File::lineBreaks` (core/Files.cc is not part of this model) is taken to be -1, the offset of every newline, then the source length.
- The LSP checks of other assertion kinds (`DefAssertion::check`, `UsageAssertion::check`, `HoverAssertion::check`, `ApplyCodeActionAssertion::check`) and gtest reporting: only the verdicts that accompany the reports are modelled.
- PositionAssertions.ParseAssertionsForFile: for a malformed `apply-code-action` comment the source pushes the null pointer `ApplyCodeActionAssertion::make` returns into the list of assertions (test/helpers/position_assertions.cc:270-272). The model records the failure and adds no entry, so the null entry, and what later code does with it, is not modelled.
- PositionAssertions.Stoi: `std::invalid_argument` and `std::out_of_range` are both `None`, which `getSymbolAndVersion` passes on and the assertion constructors turn into a raised failure; which of the two exceptions was thrown is not kept.
- Hover: `methodDetail`, `findDocumentation`, type instantiation and type printing are code this model cannot see. The detail is a function parameter, and each query response carries its documentation and shown type as fields. The constant branch's singleton and type-alias adjustments are folded into the shown type.
- PrivateDsl.KeywordSpan: for a location without a range (`Loc::none`) the suggestion stays a location without a range, because `beginPos` of such a location is not available here.
- PositionAssertions.EndOfLinePos and PositionAssertions.MakeRange: `test/helpers/position_assertions.h` is not part of this model. The source uses `RangeAssertion::END_OF_LINE_POS` (test/helpers/position_assertions.cc:106, 146) and calls `makeRange` with only a line (258), but both the constant's value and `makeRange`'s default arguments are declared in that header. The model picks the value 9999 and the defaults start column 0 and end column `END_OF_LINE_POS`. These are not checked against the header. A caret range whose end column equals the real constant is treated as a whole line only if the two values agree.
- Names.IsClassName: the `ENFORCE` at core/Names.cc:186-188, that a constant's original is a UTF-8 name or a `ResolverMissingClass` unique name, is not modelled; every constant name is a class name in the model, whatever its original.
- Characters: each `char` of a `string` stands for one byte of UTF-8 text. The source counts bytes for `string_view` sizes and caret columns (test/helpers/position_assertions.cc:246-260), `compare` orders by bytes (test/helpers/position_assertions.cc:82), and the keyword widths 7 and 20 are byte counts (dsl/Private.cc:29-30). The model counts `char`s, which agrees with the source on ASCII text; multi-byte characters are not modelled.
- `test/lsp/ProtocolTest.cc` and `core/errors/resolver.h` are context only and are not modelled.

## Findings

| source | as written | input that shows it | evidently intended | confidence | as-written member | corrected member |
|---|---|---|---|---|---|---|
| test/helpers/position_assertions.cc:235-243 | a caret comment on line 0 is skipped with `continue`, which also skips `lineNum += 1`, so every later line is numbered one too low | the three lines `# ^ hover: x`, `a`, `# ^ hover: y`: the last comment is recorded on line 1 and points at line 0, the comment line | the skipped line is still counted, so the comment is recorded on line 2 and points at the code line 1 | not executed | PositionAssertions.SkippedLineShiftsNumbers | PositionAssertions.CountedLineNumbers |
| test/helpers/position_assertions.cc:816-824 | `containsLine` examines only the first occurrence of `line` | text `"ab\nb"`, line `"b"`: the first `b` is inside `ab`, so the answer is false although `b` is a whole line | true exactly when `line` is a whole line of `text`, as the comment at line 815 says | not executed | PositionAssertions.ContainsLineMissesLaterLine | PositionAssertions.ContainsLineCorrected |
