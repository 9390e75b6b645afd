/** The symbol table of a compilation state, as far as the namer uses it.
    The table lives in `GlobalState` and `Symbol` (core/GlobalState.cc and
    core/Symbols.cc are not part of this model): its operations are given
    a straightforward implementation here and only the contracts the namer
    relies on. */
module Symbols {
  import opened Common
  import opened Ast

  /** A symbol's name: a plain name, the positional-argument names
      `freshNameUnique(PositionalArg, arg, n)`, a singleton class name, the
      per-file static-initializer name, or a mangle-renamed name. */
  datatype SymName =
    | Plain(id: NameId)
    | PositionalArgName(num: nat)
    | SingletonOf(base: SymName)
    | FileStaticInit(file: nat)
    | MangleRenamed(original: SymName, num: nat)

  datatype SymbolKind = ClassOrModule | Method | StaticField | TypeMember

  datatype Visibility = Public | Private | Protected

  datatype Variance = CoVariant | ContraVariant | Invariant

  datatype ArgFlags = ArgFlags(isKeyword: bool, isBlock: bool, isRepeated: bool, isDefault: bool)

  datatype ArgInfo = ArgInfo(name: SymName, loc: Loc, flags: ArgFlags)

  /** A symbol's result type, as far as the namer sets or tests it. */
  datatype ResultType = NoResultType | AliasType(target: nat) | Untyped

  datatype SymbolData = SymbolData(
    owner: nat, name: SymName, kind: SymbolKind,
    locs: seq<Loc>,
    isModule: Option<bool>, superClass: Option<nat>,
    singleton: Option<nat>, attached: Option<nat>,
    visibility: Visibility, isFinal: bool, isAbstract: bool, isInterface: bool,
    resultType: ResultType, intrinsic: bool,
    typeMembers: seq<nat>, variance: Variance,
    isFixed: bool, isBounded: bool, isDSLSynthesized: bool, isTypeAlias: bool)

  function NewSymbol(owner: nat, name: SymName, kind: SymbolKind, loc: Loc): SymbolData {
    SymbolData(owner, name, kind, [loc], None, None, None, None, Public, false, false, false,
               NoResultType, false, [], Invariant, false, false, false, false)
  }

  /** The part of a class's entry that its superclass default and the
      `final!`, `abstract!` and `interface!` declarations of its body
      decide. */
  datatype ClassSettings = ClassSettings(superClass: Option<nat>, isFinal: bool, isAbstract: bool, isInterface: bool)

  function SettingsOf(d: SymbolData): ClassSettings {
    ClassSettings(d.superClass, d.isFinal, d.isAbstract, d.isInterface)
  }

  /** `Symbol::loc`: the most recent location, or none. */
  function SymbolLoc(d: SymbolData): Loc {
    if d.locs == [] then NoLoc(0) else d.locs[|d.locs| - 1]
  }

  // Well-known symbols.
  const NoSymbol: nat := 0
  const Root: nat := 1
  const Todo: nat := 2
  const Object: nat := 3
  const BasicObject: nat := 4
  const NetIMAP: nat := 5
  const NetProtocol: nat := 6

  /** The depth up to which `dealias` follows alias chains. */
  const DealiasDepth: nat := 42

  /** Every symbol a symbol refers to exists in a table of `n` symbols. */
  predicate RefsBelow(d: SymbolData, n: nat) {
    && d.owner < n
    && (d.superClass.Some? ==> d.superClass.value < n)
    && (d.singleton.Some? ==> d.singleton.value < n)
    && (d.attached.Some? ==> d.attached.value < n)
    && (d.resultType.AliasType? ==> Root < d.resultType.target < n)
    && (forall j :: 0 <= j < |d.typeMembers| ==> d.typeMembers[j] < n)
  }

  lemma RefsBelowGrow(d: SymbolData, n: nat, m: nat)
    requires RefsBelow(d, n) && n <= m
    ensures RefsBelow(d, m)
  {
  }

  /** The parts of a symbol that only `mangleRenameSymbol` changes: its
      kind, owner, attached class and name never change, and its locations
      only grow. */
  predicate SameIdentity(before: SymbolData, after: SymbolData) {
    && after.kind == before.kind && after.owner == before.owner
    && after.attached == before.attached && after.name == before.name
    && before.locs <= after.locs
  }

  /** The table only grows, and existing symbols keep their identity. */
  ghost predicate Extends(before: seq<SymbolData>, after: seq<SymbolData>) {
    && |before| <= |after|
    && forall i :: 0 <= i < |before| ==> SameIdentity(before[i], after[i])
  }

  lemma ExtendsTransitive(a: seq<SymbolData>, b: seq<SymbolData>, c: seq<SymbolData>)
    requires Extends(a, b) && Extends(b, c)
    ensures Extends(a, c)
  {
    forall i | 0 <= i < |a| ensures SameIdentity(a[i], c[i]) {
      assert SameIdentity(a[i], b[i]) && SameIdentity(b[i], c[i]);
    }
  }

  /** Like `Extends`, but symbols may also have been renamed out of the way
      by `mangleRenameSymbol`. */
  ghost predicate ExtendsRenaming(before: seq<SymbolData>, after: seq<SymbolData>) {
    && |before| <= |after|
    && forall i :: 0 <= i < |before| ==>
         && after[i].kind == before[i].kind && after[i].owner == before[i].owner
         && after[i].attached == before[i].attached && before[i].locs <= after[i].locs
  }

  lemma ExtendsRenamingTransitive(a: seq<SymbolData>, b: seq<SymbolData>, c: seq<SymbolData>)
    requires ExtendsRenaming(a, b) && ExtendsRenaming(b, c)
    ensures ExtendsRenaming(a, c)
  {
    forall i | 0 <= i < |a| ensures a[i].locs <= c[i].locs {
      assert a[i].locs <= b[i].locs && b[i].locs <= c[i].locs;
    }
  }

  lemma ExtendsIsRenaming(a: seq<SymbolData>, b: seq<SymbolData>)
    requires Extends(a, b)
    ensures ExtendsRenaming(a, b)
  {
    forall i | 0 <= i < |a|
      ensures b[i].kind == a[i].kind && b[i].owner == a[i].owner
      ensures b[i].attached == a[i].attached && a[i].locs <= b[i].locs
    {
      assert SameIdentity(a[i], b[i]);
    }
  }

  lemma RenamingThenExtends(a: seq<SymbolData>, b: seq<SymbolData>, c: seq<SymbolData>)
    requires ExtendsRenaming(a, b) && Extends(b, c)
    ensures ExtendsRenaming(a, c)
  {
    forall i | 0 <= i < |a|
      ensures c[i].kind == a[i].kind && c[i].owner == a[i].owner
      ensures c[i].attached == a[i].attached && a[i].locs <= c[i].locs
    {
      assert SameIdentity(b[i], c[i]);
    }
  }

  lemma ExtendsThenRenaming(a: seq<SymbolData>, b: seq<SymbolData>, c: seq<SymbolData>)
    requires Extends(a, b) && ExtendsRenaming(b, c)
    ensures ExtendsRenaming(a, c)
  {
    forall i | 0 <= i < |a|
      ensures c[i].kind == a[i].kind && c[i].owner == a[i].owner
      ensures c[i].attached == a[i].attached && a[i].locs <= c[i].locs
    {
      assert SameIdentity(a[i], b[i]);
    }
  }

  lemma ExtendsByUpdate(symbols: seq<SymbolData>, s: nat, d: SymbolData)
    requires s < |symbols| && SameIdentity(symbols[s], d)
    ensures Extends(symbols, symbols[s := d])
  {
  }

  predicate WellKnownClasses(symbols: seq<SymbolData>) {
    && |symbols| > NetProtocol
    && symbols[Root].kind == ClassOrModule && symbols[Todo].kind == ClassOrModule
    && symbols[Object].kind == ClassOrModule && symbols[BasicObject].kind == ClassOrModule
    && symbols[NetIMAP].kind == ClassOrModule && symbols[NetProtocol].kind == ClassOrModule
    && symbols[Root].owner == NoSymbol
  }

  // The facts the table invariant keeps about one symbol (or one member
  // entry). Each is a predicate of its own, and the invariant quantifies
  // over these predicates, so that a proof only unfolds the invariant at
  // the symbols it asks about.

  /** Symbol `i` is owned by an earlier symbol, so owner chains end at the
      root. */
  predicate OwnerEarlier(symbols: seq<SymbolData>, i: nat)
    requires i < |symbols|
  {
    NoSymbol < symbols[i].owner < i
  }

  /** Symbol `i`'s owner is a class. */
  predicate OwnerIsClass(symbols: seq<SymbolData>, i: nat)
    requires i < |symbols|
  {
    symbols[i].owner < |symbols| && symbols[symbols[i].owner].kind == ClassOrModule
  }

  /** Symbol `i` only refers to symbols of the table. */
  predicate RefsOk(symbols: seq<SymbolData>, i: nat)
    requires i < |symbols|
  {
    RefsBelow(symbols[i], |symbols|)
  }

  /** A singleton class is created after the class it is attached to. */
  predicate AttachedOk(symbols: seq<SymbolData>, i: nat)
    requires i < |symbols|
  {
    symbols[i].attached.Some? ==> symbols[i].attached.value < i
  }

  /** A symbol's singleton class, once it has one, is a class of the table. */
  predicate SingletonFits(symbols: seq<SymbolData>, d: SymbolData) {
    d.singleton.Some? ==>
      Root < d.singleton.value < |symbols| && symbols[d.singleton.value].kind == ClassOrModule
  }

  predicate SingletonOk(symbols: seq<SymbolData>, i: nat)
    requires i < |symbols|
  {
    SingletonFits(symbols, symbols[i])
  }

  /** The member entry `k` points at a symbol with that owner and name. */
  predicate MemberOk(symbols: seq<SymbolData>, members: map<(nat, SymName), nat>, k: (nat, SymName))
    requires k in members
  {
    && k.0 < |symbols| && Root < members[k] < |symbols|
    && symbols[members[k]].owner == k.0 && symbols[members[k]].name == k.1
  }

  ghost predicate OwnersAreEarlier(symbols: seq<SymbolData>) {
    forall i :: Root < i < |symbols| ==> OwnerEarlier(symbols, i)
  }

  ghost predicate OwnersAreClasses(symbols: seq<SymbolData>) {
    forall i :: Root < i < |symbols| ==> OwnerIsClass(symbols, i)
  }

  ghost predicate AllRefsBelow(symbols: seq<SymbolData>) {
    forall i :: 0 <= i < |symbols| ==> RefsOk(symbols, i)
  }

  ghost predicate AttachedEarlier(symbols: seq<SymbolData>) {
    forall i :: 0 <= i < |symbols| ==> AttachedOk(symbols, i)
  }

  ghost predicate SingletonsAreClasses(symbols: seq<SymbolData>) {
    forall i :: 0 <= i < |symbols| ==> SingletonOk(symbols, i)
  }

  ghost predicate MembersConsistent(symbols: seq<SymbolData>, members: map<(nat, SymName), nat>) {
    forall k :: k in members ==> MemberOk(symbols, members, k)
  }

  ghost predicate TableInvariant(symbols: seq<SymbolData>, members: map<(nat, SymName), nat>) {
    && WellKnownClasses(symbols)
    && OwnersAreEarlier(symbols)
    && OwnersAreClasses(symbols)
    && AllRefsBelow(symbols)
    && AttachedEarlier(symbols)
    && SingletonsAreClasses(symbols)
    && MembersConsistent(symbols, members)
  }

  lemma AppendKeepsInvariant(symbols: seq<SymbolData>, members: map<(nat, SymName), nat>, d: SymbolData)
    requires TableInvariant(symbols, members) && RefsBelow(d, |symbols|) && SingletonFits(symbols, d)
    requires NoSymbol < d.owner && d.owner < |symbols| && symbols[d.owner].kind == ClassOrModule
    ensures TableInvariant(symbols + [d], members[(d.owner, d.name) := |symbols|])
    ensures Extends(symbols, symbols + [d])
  {
    var s1 := symbols + [d];
    var m1 := members[(d.owner, d.name) := |symbols|];
    var n := |symbols|;
    assert forall i :: 0 <= i < n ==> s1[i] == symbols[i];
    forall i | Root < i < |s1| ensures OwnerEarlier(s1, i) && OwnerIsClass(s1, i) {
      if i < n {
        assert OwnerEarlier(symbols, i) && OwnerIsClass(symbols, i);
      }
    }
    forall i | 0 <= i < |s1| ensures RefsOk(s1, i) && AttachedOk(s1, i) && SingletonOk(s1, i) {
      if i < n {
        assert RefsOk(symbols, i) && AttachedOk(symbols, i) && SingletonOk(symbols, i);
        RefsBelowGrow(symbols[i], n, |s1|);
      } else {
        RefsBelowGrow(d, n, |s1|);
      }
    }
    forall k | k in m1 ensures MemberOk(s1, m1, k) {
      if k != (d.owner, d.name) {
        assert MemberOk(symbols, members, k);
      }
    }
  }

  /** Updating symbols without changing their identity keeps the invariant. */
  lemma SameIdentityKeepsInvariant(symbols: seq<SymbolData>, s1: seq<SymbolData>, members: map<(nat, SymName), nat>)
    requires TableInvariant(symbols, members) && |s1| == |symbols| && AllRefsBelow(s1) && SingletonsAreClasses(s1)
    requires forall i :: 0 <= i < |symbols| ==> SameIdentity(symbols[i], s1[i])
    ensures TableInvariant(s1, members)
  {
    forall i | Root < i < |s1| ensures OwnerEarlier(s1, i) && OwnerIsClass(s1, i) {
      assert OwnerEarlier(symbols, i) && OwnerIsClass(symbols, i);
      assert SameIdentity(symbols[i], s1[i]);
      assert SameIdentity(symbols[symbols[i].owner], s1[symbols[i].owner]);
    }
    forall k | k in members ensures MemberOk(s1, members, k) {
      assert MemberOk(symbols, members, k);
      assert SameIdentity(symbols[members[k]], s1[members[k]]);
    }
    forall i | 0 <= i < |s1| ensures AttachedOk(s1, i) {
      assert AttachedOk(symbols, i);
      assert SameIdentity(symbols[i], s1[i]);
    }
  }

  lemma PutKeepsInvariant(symbols: seq<SymbolData>, members: map<(nat, SymName), nat>, s: nat, d: SymbolData)
    requires TableInvariant(symbols, members) && s < |symbols| && RefsBelow(d, |symbols|)
    requires SameIdentity(symbols[s], d) && SingletonFits(symbols, d)
    ensures TableInvariant(symbols[s := d], members)
    ensures Extends(symbols, symbols[s := d])
  {
    var s1 := symbols[s := d];
    forall i | 0 <= i < |symbols| ensures SameIdentity(symbols[i], s1[i]) {
      if i != s {
        assert s1[i] == symbols[i];
      }
    }
    forall i | 0 <= i < |s1| ensures RefsOk(s1, i) && SingletonOk(s1, i) {
      if i != s {
        assert RefsOk(symbols, i) && SingletonOk(symbols, i);
        assert SingletonFits(symbols, s1[i]);
      } else {
        assert SingletonFits(symbols, d);
      }
      if s1[i].singleton.Some? {
        assert symbols[s1[i].singleton.value].kind == s1[s1[i].singleton.value].kind by {
          assert SameIdentity(symbols[s1[i].singleton.value], s1[s1[i].singleton.value]);
        }
      }
    }
    SameIdentityKeepsInvariant(symbols, s1, members);
  }

  lemma RenameKeepsInvariant(symbols: seq<SymbolData>, members: map<(nat, SymName), nat>, s: nat, name: SymName, newName: SymName)
    requires TableInvariant(symbols, members) && Root < s < |symbols|
    ensures TableInvariant(symbols[s := symbols[s].(name := newName)],
                           (members - {(symbols[s].owner, name), (symbols[s].owner, symbols[s].name)})[(symbols[s].owner, newName) := s])
    ensures ExtendsRenaming(symbols, symbols[s := symbols[s].(name := newName)])
  {
    var s1 := symbols[s := symbols[s].(name := newName)];
    var m0 := members - {(symbols[s].owner, name), (symbols[s].owner, symbols[s].name)};
    var m1 := m0[(symbols[s].owner, newName) := s];
    forall i | Root < i < |s1| ensures OwnerEarlier(s1, i) && OwnerIsClass(s1, i) {
      assert OwnerEarlier(symbols, i) && OwnerIsClass(symbols, i);
      assert s1[i].owner == symbols[i].owner;
      assert s1[symbols[i].owner].kind == symbols[symbols[i].owner].kind;
    }
    forall i | 0 <= i < |s1| ensures RefsOk(s1, i) && AttachedOk(s1, i) && SingletonOk(s1, i) {
      assert RefsOk(symbols, i) && AttachedOk(symbols, i) && SingletonOk(symbols, i);
      if s1[i].singleton.Some? {
        assert s1[s1[i].singleton.value].kind == symbols[s1[i].singleton.value].kind;
      }
    }
    assert OwnerEarlier(symbols, s);
    forall k: (nat, SymName) | k in m1 ensures MemberOk(s1, m1, k) {
      if k != (symbols[s].owner, newName) {
        assert k in members && m1[k] == members[k];
        assert MemberOk(symbols, members, k);
        assert members[k] != s;
        assert s1[members[k]] == symbols[members[k]];
      }
    }
  }

  /** `dealias` over a table given as a value. */
  ghost function DealiasIn(symbols: seq<SymbolData>, s: nat, depth: nat): (r: nat)
    requires AllRefsBelow(symbols) && s < |symbols|
    ensures r < |symbols| && (s > Root ==> r > Root)
    decreases depth
  {
    if depth > 0 && symbols[s].resultType.AliasType? then
      assert RefsOk(symbols, s);
      DealiasIn(symbols, symbols[s].resultType.target, depth - 1)
    else s
  }

  /** `findMember` over a table given as a value: `NoSymbol` when `owner`
      has no member `name`, otherwise that member dealiased. */
  ghost function MemberIn(symbols: seq<SymbolData>, members: map<(nat, SymName), nat>, owner: nat, name: SymName): (r: nat)
    requires TableInvariant(symbols, members)
    ensures r < |symbols| && (r == NoSymbol || r > Root)
    ensures r != NoSymbol <==> (owner, name) in members
  {
    if (owner, name) in members then
      assert MemberOk(symbols, members, (owner, name));
      DealiasIn(symbols, members[(owner, name)], DealiasDepth)
    else NoSymbol
  }

  /** From the table `s1`, `m1` to `s2`, `m2` no entry changes, every member
      of a plain name stays, and a new member of a plain name is a new
      symbol, entered only in a class or in a new symbol. */
  ghost predicate PlainGrowth(s1: seq<SymbolData>, m1: map<(nat, SymName), nat>, s2: seq<SymbolData>, m2: map<(nat, SymName), nat>) {
    && |s1| <= |s2| && s2[..|s1|] == s1
    && (forall k :: k in m1 && k.1.Plain? ==> k in m2 && m2[k] == m1[k])
    && (forall k :: k in m2 && k !in m1 && k.1.Plain? ==>
          && (k.0 >= |s1| || s1[k.0].kind == ClassOrModule)
          && m2[k] >= |s1|)
  }

  lemma PlainGrowthTransitive(s1: seq<SymbolData>, m1: map<(nat, SymName), nat>, s2: seq<SymbolData>, m2: map<(nat, SymName), nat>,
                              s3: seq<SymbolData>, m3: map<(nat, SymName), nat>)
    requires PlainGrowth(s1, m1, s2, m2) && PlainGrowth(s2, m2, s3, m3)
    ensures PlainGrowth(s1, m1, s3, m3)
  {
    assert s3[..|s1|] == s3[..|s2|][..|s1|];
    forall k | k in m3 && k !in m1 && k.1.Plain? && k.0 < |s1|
      ensures s1[k.0].kind == ClassOrModule
    {
      if k !in m2 {
        assert s2[k.0] == s2[..|s1|][k.0];
      }
    }
  }

  /** Following aliases is the same in a table and in one that extends it
      only at its end. */
  lemma {:induction false} DealiasInGrowth(s1: seq<SymbolData>, s2: seq<SymbolData>, s: nat, depth: nat)
    requires AllRefsBelow(s1) && AllRefsBelow(s2) && |s1| <= |s2| && s2[..|s1|] == s1 && s < |s1|
    ensures DealiasIn(s2, s, depth) == DealiasIn(s1, s, depth)
    decreases depth
  {
    assert s2[s] == s2[..|s1|][s];
    if depth > 0 && s1[s].resultType.AliasType? {
      assert RefsOk(s1, s);
      DealiasInGrowth(s1, s2, s1[s].resultType.target, depth - 1);
    }
  }

  /** Under `PlainGrowth` a member that was found stays the same, and an
      owner that is not a class gains no member. */
  lemma MemberInGrowth(s1: seq<SymbolData>, m1: map<(nat, SymName), nat>, s2: seq<SymbolData>, m2: map<(nat, SymName), nat>, owner: nat, name: SymName)
    requires TableInvariant(s1, m1) && TableInvariant(s2, m2) && PlainGrowth(s1, m1, s2, m2) && name.Plain?
    ensures MemberIn(s1, m1, owner, name) != NoSymbol ==> MemberIn(s2, m2, owner, name) == MemberIn(s1, m1, owner, name)
    ensures owner < |s1| && s1[owner].kind != ClassOrModule ==> MemberIn(s2, m2, owner, name) == MemberIn(s1, m1, owner, name)
  {
    if (owner, name) in m1 {
      assert MemberOk(s1, m1, (owner, name));
      DealiasInGrowth(s1, s2, m1[(owner, name)], DealiasDepth);
    }
  }

  /** Every symbol from `base` on is a class that is no alias and that,
      when it has a plain name, has a singleton class. */
  ghost predicate NewClasses(base: nat, symbols: seq<SymbolData>) {
    forall i :: base <= i < |symbols| ==>
      && symbols[i].kind == ClassOrModule && symbols[i].resultType.NoResultType?
      && (symbols[i].name.Plain? ==> symbols[i].singleton.Some?)
  }

  lemma NewClassesTransitive(base: nat, s1: seq<SymbolData>, s2: seq<SymbolData>)
    requires base <= |s1| <= |s2| && s2[..|s1|] == s1 && NewClasses(base, s1) && NewClasses(|s1|, s2)
    ensures NewClasses(base, s2)
  {
    forall i | base <= i < |s1| ensures s2[i] == s1[i] {
      assert s2[i] == s2[..|s1|][i];
    }
  }

  class SymbolTable {
    var symbols: seq<SymbolData>
    /** Each class's members by name. */
    var members: map<(nat, SymName), nat>
    /** Each method's arguments (`Symbol::arguments`), kept apart from the
        rest of the symbol's data; a symbol with no entry has none. */
    var arguments: map<nat, seq<ArgInfo>>
    /** The diagnostics reported so far (`beginError`). */
    var errors: seq<Diagnostic>
    /** Files that are RBI files, and files that have been deleted in an
        incremental update (`Loc::isTombStoned`). */
    const rbiFiles: set<nat>
    const tombstonedFiles: set<nat>

    ghost predicate Valid()
      reads this
    {
      TableInvariant(symbols, members)
    }

    function Arguments(s: nat): seq<ArgInfo>
      reads this
    {
      if s in arguments then arguments[s] else []
    }

    predicate IsClass(s: nat)
      reads this
    {
      s < |symbols| && symbols[s].kind == ClassOrModule
    }

    predicate HasSingleton(s: nat)
      reads this
    {
      s < |symbols| && symbols[s].singleton.Some? && symbols[s].singleton.value > Root && IsClass(symbols[s].singleton.value)
    }

    /** `isIntrinsic`: a stub that holds an intrinsic and has no result type yet. */
    predicate IsIntrinsic(s: nat)
      reads this
    {
      s < |symbols| && symbols[s].intrinsic && symbols[s].resultType.NoResultType?
    }

    predicate IsTombStoned(loc: Loc) {
      loc.file in tombstonedFiles
    }

    /** `findMemberNoDealias`: `NoSymbol` when there is no such member. */
    function FindMemberNoDealias(owner: nat, name: SymName): (r: nat)
      requires Valid()
      reads this
      ensures r < |symbols| && (r == NoSymbol || r > Root)
      ensures r != NoSymbol ==> symbols[r].owner == owner && symbols[r].name == name
    {
      if (owner, name) in members then
        assert MemberOk(symbols, members, (owner, name));
        members[(owner, name)]
      else NoSymbol
    }

    /** `dealias`: follows alias result types, up to `DealiasDepth` steps. */
    function Dealias(s: nat, depth: nat): (r: nat)
      requires Valid() && s < |symbols|
      reads this
      ensures r < |symbols| && (s > Root ==> r > Root) && (s != NoSymbol ==> r != NoSymbol)
      ensures depth > 0 && !symbols[s].resultType.AliasType? ==> r == s
      decreases depth
    {
      if depth > 0 && symbols[s].resultType.AliasType? then
        assert RefsOk(symbols, s);
        Dealias(symbols[s].resultType.target, depth - 1)
      else s
    }

    /** `findMember`: the member, dealiased. */
    function FindMember(owner: nat, name: SymName): (r: nat)
      requires Valid()
      reads this
      ensures r < |symbols| && (r == NoSymbol || r > Root)
    {
      var m := FindMemberNoDealias(owner, name);
      if m == NoSymbol then NoSymbol else Dealias(m, DealiasDepth)
    }

    lemma {:induction false} DealiasIsDealiasIn(s: nat, depth: nat)
      requires Valid() && s < |symbols|
      ensures Dealias(s, depth) == DealiasIn(symbols, s, depth)
      decreases depth
    {
      if depth > 0 && symbols[s].resultType.AliasType? {
        assert RefsOk(symbols, s);
        DealiasIsDealiasIn(symbols[s].resultType.target, depth - 1);
      }
    }

    lemma FindMemberIsMemberIn(owner: nat, name: SymName)
      requires Valid()
      ensures FindMember(owner, name) == MemberIn(symbols, members, owner, name)
    {
      if (owner, name) in members {
        assert MemberOk(symbols, members, (owner, name));
        DealiasIsDealiasIn(members[(owner, name)], DealiasDepth);
      }
    }

    /** `enclosingClass`: the nearest class among a symbol and its owners. */
    function EnclosingClass(s: nat): (r: nat)
      requires Valid() && s < |symbols|
      reads this
      ensures r <= s
      ensures s != NoSymbol ==> IsClass(r) && r != NoSymbol
      decreases s
    {
      if s == NoSymbol || symbols[s].kind == ClassOrModule then s
      else
        assert OwnerEarlier(symbols, s) && OwnerIsClass(symbols, s);
        EnclosingClass(symbols[s].owner)
    }

    /** The owner of every symbol but the root is a class. */
    lemma OwnerIsAClass(s: nat)
      requires Valid() && Root < s < |symbols|
      ensures NoSymbol < symbols[s].owner < s && IsClass(symbols[s].owner)
    {
      assert OwnerEarlier(symbols, s) && OwnerIsClass(symbols, s);
    }

    /** What a symbol refers to lies in the table. */
    lemma RefsOf(s: nat)
      requires Valid() && s < |symbols|
      ensures RefsBelow(symbols[s], |symbols|) && SingletonFits(symbols, symbols[s])
      ensures symbols[s].singleton.Some? <==> HasSingleton(s)
    {
      assert RefsOk(symbols, s) && SingletonOk(symbols, s);
    }

    /** A singleton class comes after the class it is attached to. */
    lemma AttachedIsEarlier(s: nat)
      requires Valid() && s < |symbols| && symbols[s].attached.Some?
      ensures symbols[s].attached.value < s
    {
      assert AttachedOk(symbols, s);
    }

    /** `beginError`: report one diagnostic. */
    method Report(loc: Loc, c: ErrorClass)
      modifies this
      ensures errors == old(errors) + [Error(loc, c)]
      ensures symbols == old(symbols) && members == old(members)
    {
      errors := errors + [Error(loc, c)];
    }

    /** Report several diagnostics in order. */
    method ReportAll(ds: seq<Diagnostic>)
      modifies this
      ensures errors == old(errors) + ds
      ensures symbols == old(symbols) && members == old(members)
    {
      errors := errors + ds;
    }

    /** Replace the data of one symbol by an update of it that keeps its
        identity (every flag setter of `Symbol`). */
    method Put(s: nat, d: SymbolData)
      requires Valid() && s < |symbols| && RefsBelow(d, |symbols|) && SameIdentity(symbols[s], d)
      requires SingletonFits(symbols, d)
      modifies this
      ensures Valid() && symbols == old(symbols)[s := d] && Extends(old(symbols), symbols)
      ensures members == old(members) && errors == old(errors) && arguments == old(arguments)
    {
      PutKeepsInvariant(symbols, members, s, d);
      symbols := symbols[s := d];
    }

    /** Append a new symbol and register it as a member of its owner. */
    method Append(d: SymbolData) returns (r: nat)
      requires Valid() && RefsBelow(d, |symbols|) && SingletonFits(symbols, d) && NoSymbol < d.owner && IsClass(d.owner)
      modifies this
      ensures Valid() && r == old(|symbols|) && symbols == old(symbols) + [d] && Extends(old(symbols), symbols)
      ensures members == old(members)[(d.owner, d.name) := r]
      ensures errors == old(errors) && arguments == old(arguments) - {r}
    {
      r := |symbols|;
      arguments := arguments - {r};
      AppendKeepsInvariant(symbols, members, d);
      symbols := symbols + [d];
      members := members[(d.owner, d.name) := r];
    }

    /** `enterClassSymbol`: the existing class of that name, or a new one. */
    method EnterClassSymbol(loc: Loc, owner: nat, name: SymName) returns (r: nat)
      requires Valid() && NoSymbol < owner && IsClass(owner)
      modifies this
      ensures Valid() && Extends(old(symbols), symbols) && errors == old(errors)
      ensures IsClass(r) && r > Root && symbols[r].owner == owner && symbols[r].name == name
      ensures FindMemberNoDealias(owner, name) == r
      ensures old(FindMemberNoDealias(owner, name)) == NoSymbol ==> r == old(|symbols|) && symbols[r].singleton.None?
      ensures old(FindMemberNoDealias(owner, name)) == NoSymbol ==>
                symbols == old(symbols) + [NewSymbol(owner, name, ClassOrModule, loc)] && members == old(members)[(owner, name) := r]
    {
      var existing := FindMemberNoDealias(owner, name);
      if existing != NoSymbol && symbols[existing].kind == ClassOrModule {
        return existing;
      }
      r := Append(NewSymbol(owner, name, ClassOrModule, loc));
    }

    /** The singleton class `r` of `s` is new: the only symbol added, a
        class that is no alias, filed under a singleton name. */
    ghost predicate NewSingleton(before: seq<SymbolData>, membersBefore: map<(nat, SymName), nat>, s: nat, r: nat)
      requires s < |before|
      reads this
    {
      && r == |before| && |symbols| == r + 1
      && symbols[r].kind == ClassOrModule && symbols[r].resultType.NoResultType?
      && symbols[r].name == SingletonOf(before[s].name)
      && members == membersBefore[(symbols[r].owner, symbols[r].name) := r]
    }

    /** `Symbol::singletonClass`: the class's singleton class, created on
        first use next to the class. */
    method SingletonClass(s: nat) returns (r: nat)
      requires Valid() && IsClass(s)
      modifies this
      ensures Valid() && Extends(old(symbols), symbols) && errors == old(errors)
      ensures IsClass(r) && r > Root && HasSingleton(s) && symbols[s].singleton == Some(r)
      ensures old(HasSingleton(s)) ==> r == old(symbols[s].singleton).value && symbols == old(symbols)
      ensures !old(HasSingleton(s)) ==> r == old(|symbols|) && symbols[r].attached == Some(s)
      ensures members == old(members) || !old(HasSingleton(s))
      ensures !old(HasSingleton(s)) ==> NewSingleton(old(symbols), old(members), s, r)
      ensures symbols[..old(|symbols|)] == old(symbols)[s := old(symbols[s]).(singleton := Some(r))]
      ensures symbols[s] == old(symbols[s]).(singleton := Some(r))
    {
      if HasSingleton(s) {
        r := symbols[s].singleton.value;
        assert symbols[s := symbols[s].(singleton := Some(r))] == symbols;
        return;
      }
      r := CreateSingleton(s);
      assert symbols[s] == symbols[..old(|symbols|)][s];
    }

    /** The first use of `singletonClass`: a new class attached to `s`. */
    method CreateSingleton(s: nat) returns (r: nat)
      requires Valid() && IsClass(s) && !HasSingleton(s)
      modifies this
      ensures Valid() && Extends(old(symbols), symbols) && errors == old(errors)
      ensures IsClass(r) && r > Root && HasSingleton(s) && symbols[s].singleton == Some(r)
      ensures r == old(|symbols|) && symbols[r].attached == Some(s)
      ensures NewSingleton(old(symbols), old(members), s, r)
      ensures symbols[..old(|symbols|)] == old(symbols)[s := old(symbols[s]).(singleton := Some(r))]
    {
      RefsOf(s);
      var owner := Root;
      if s > Root {
        OwnerIsAClass(s);
        owner := symbols[s].owner;
      }
      var d := NewSymbol(owner, SingletonOf(symbols[s].name), ClassOrModule, SymbolLoc(symbols[s]));
      ghost var before := symbols;
      r := Append(d.(attached := Some(s)));
      ghost var mid := symbols;
      assert symbols[s] == before[s];
      RefsOf(s);
      Put(s, symbols[s].(singleton := Some(r)));
      assert symbols[r] == mid[r];
      assert symbols[..|before|] == before[s := before[s].(singleton := Some(r))] by {
        assert mid[..|before|] == before;
      }
      ExtendsTransitive(before, mid, symbols);
    }

    /** `enterMethodSymbol`: the existing method of that name, or a new one
        with no arguments. */
    method EnterMethodSymbol(loc: Loc, owner: nat, name: SymName) returns (r: nat)
      requires Valid() && NoSymbol < owner && IsClass(owner)
      modifies this
      ensures Valid() && Extends(old(symbols), symbols) && errors == old(errors)
      ensures r > Root && r < |symbols| && symbols[r].kind == Method && symbols[r].owner == owner && symbols[r].name == name
      ensures FindMemberNoDealias(owner, name) == r
      ensures old(FindMemberNoDealias(owner, name)) == NoSymbol ==>
                r == old(|symbols|) && Arguments(r) == [] && symbols[r] == NewSymbol(owner, name, Method, loc)
      ensures old(FindMemberNoDealias(owner, name)) != NoSymbol && old(symbols[FindMemberNoDealias(owner, name)].kind) == Method ==>
                r == old(FindMemberNoDealias(owner, name)) && symbols == old(symbols)
      ensures r < old(|symbols|) ==> symbols == old(symbols)
      ensures symbols[..old(|symbols|)] == old(symbols)
      ensures old(members).Keys <= members.Keys
    {
      var existing := FindMemberNoDealias(owner, name);
      if existing != NoSymbol && symbols[existing].kind == Method {
        return existing;
      }
      r := Append(NewSymbol(owner, name, Method, loc));
    }

    /** `enterMethodArgumentSymbol`: appends an argument with no flags. */
    method EnterMethodArgumentSymbol(loc: Loc, m: nat, name: SymName) returns (index: nat)
      requires Valid() && Root < m < |symbols|
      modifies this
      ensures Valid() && symbols == old(symbols) && errors == old(errors) && members == old(members)
      ensures index == old(|Arguments(m)|)
      ensures arguments == old(arguments)[m := old(Arguments(m)) + [ArgInfo(name, loc, ArgFlags(false, false, false, false))]]
    {
      index := |Arguments(m)|;
      arguments := arguments[m := Arguments(m) + [ArgInfo(name, loc, ArgFlags(false, false, false, false))]];
    }

    /** `enterStaticFieldSymbol`. */
    method EnterStaticFieldSymbol(loc: Loc, owner: nat, name: SymName) returns (r: nat)
      requires Valid() && NoSymbol < owner && IsClass(owner)
      modifies this
      ensures Valid() && Extends(old(symbols), symbols) && errors == old(errors)
      ensures r > Root && r < |symbols| && symbols[r].kind == StaticField && symbols[r].owner == owner && symbols[r].name == name
      ensures FindMemberNoDealias(owner, name) == r
      ensures old(FindMemberNoDealias(owner, name)) == NoSymbol ==> r == old(|symbols|)
      ensures old(FindMemberNoDealias(owner, name)) != NoSymbol && old(symbols[FindMemberNoDealias(owner, name)].kind) == StaticField ==>
                r == old(FindMemberNoDealias(owner, name))
      ensures r < old(|symbols|) ==> symbols == old(symbols)
      ensures symbols[..old(|symbols|)] == old(symbols)
    {
      var existing := FindMemberNoDealias(owner, name);
      if existing != NoSymbol && symbols[existing].kind == StaticField {
        return existing;
      }
      r := Append(NewSymbol(owner, name, StaticField, loc));
    }

    /** `enterTypeMember`: a new type member, recorded among the owner's
        type members. */
    method EnterTypeMember(loc: Loc, owner: nat, name: SymName, variance: Variance) returns (r: nat)
      requires Valid() && NoSymbol < owner && IsClass(owner)
      modifies this
      ensures Valid() && Extends(old(symbols), symbols) && errors == old(errors)
      ensures r > Root && r < |symbols| && symbols[r].kind == TypeMember && symbols[r].owner == owner && symbols[r].name == name
      ensures symbols[r].variance == variance && !symbols[r].isFixed && !symbols[r].isBounded && symbols[r].locs == [loc]
      ensures r == old(|symbols|) && r in symbols[owner].typeMembers && FindMemberNoDealias(owner, name) == r
    {
      r := Append(NewSymbol(owner, name, TypeMember, loc).(variance := variance));
      var o := symbols[owner];
      RefsOf(owner);
      Put(owner, o.(typeMembers := o.typeMembers + [r]));
    }

    /** `mangleRenameSymbol`: gives the symbol a fresh mangled name, so that
        its old name is free in its owner. */
    method MangleRenameSymbol(s: nat, name: SymName)
      requires Valid() && Root < s < |symbols|
      modifies this
      ensures Valid() && errors == old(errors)
      ensures symbols == old(symbols)[s := old(symbols[s]).(name := MangleRenamed(name, |symbols|))]
      ensures FindMemberNoDealias(symbols[s].owner, name) == NoSymbol
      ensures ExtendsRenaming(old(symbols), symbols)
    {
      var owner := symbols[s].owner;
      var newName := MangleRenamed(name, |symbols|);
      RenameKeepsInvariant(symbols, members, s, name, newName);
      members := (members - {(owner, name), (owner, symbols[s].name)})[(owner, newName) := s];
      symbols := symbols[s := symbols[s].(name := newName)];
    }

    /** `addLoc`: records a definition site once. */
    method AddLoc(s: nat, loc: Loc)
      requires Valid() && s < |symbols|
      modifies this
      ensures Valid() && Extends(old(symbols), symbols) && errors == old(errors) && members == old(members)
      ensures arguments == old(arguments)
      ensures symbols == old(symbols)[s := old(symbols[s]).(locs := symbols[s].locs)]
      ensures symbols[s].locs == if loc in old(symbols[s].locs) then old(symbols[s].locs) else old(symbols[s].locs) + [loc]
    {
      if loc !in symbols[s].locs {
        RefsOf(s);
        Put(s, symbols[s].(locs := symbols[s].locs + [loc]));
      }
    }

    /** `setIsModule`. */
    method SetIsModule(s: nat, isModule: bool)
      requires Valid() && s < |symbols|
      modifies this
      ensures Valid() && Extends(old(symbols), symbols) && members == old(members) && errors == old(errors)
      ensures arguments == old(arguments)
      ensures symbols == old(symbols)[s := old(symbols[s]).(isModule := Some(isModule))]
    {
      RefsOf(s);
      Put(s, symbols[s].(isModule := Some(isModule)));
    }

    /** `setSuperClass`. */
    method SetSuperClass(s: nat, superClass: nat)
      requires Valid() && s < |symbols| && superClass < |symbols|
      modifies this
      ensures Valid() && Extends(old(symbols), symbols) && members == old(members) && errors == old(errors)
      ensures arguments == old(arguments)
      ensures symbols == old(symbols)[s := old(symbols[s]).(superClass := Some(superClass))]
    {
      RefsOf(s);
      Put(s, symbols[s].(superClass := Some(superClass)));
    }

    /** `setPrivate`, `setProtected`, `setPublic`. */
    method SetVisibility(s: nat, visibility: Visibility)
      requires Valid() && s < |symbols|
      modifies this
      ensures Valid() && Extends(old(symbols), symbols) && members == old(members) && errors == old(errors)
      ensures arguments == old(arguments)
      ensures symbols == old(symbols)[s := old(symbols[s]).(visibility := visibility)]
    {
      RefsOf(s);
      Put(s, symbols[s].(visibility := visibility));
    }

    /** `setClassFinal`. */
    method SetFinal(s: nat)
      requires Valid() && s < |symbols|
      modifies this
      ensures Valid() && Extends(old(symbols), symbols) && members == old(members) && errors == old(errors)
      ensures arguments == old(arguments)
      ensures symbols == old(symbols)[s := old(symbols[s]).(isFinal := true)]
    {
      RefsOf(s);
      Put(s, symbols[s].(isFinal := true));
    }

    /** `setClassAbstract`. */
    method SetAbstract(s: nat)
      requires Valid() && s < |symbols|
      modifies this
      ensures Valid() && Extends(old(symbols), symbols) && members == old(members) && errors == old(errors)
      ensures arguments == old(arguments)
      ensures symbols == old(symbols)[s := old(symbols[s]).(isAbstract := true)]
    {
      RefsOf(s);
      Put(s, symbols[s].(isAbstract := true));
    }

    /** `setClassInterface`. */
    method SetInterface(s: nat)
      requires Valid() && s < |symbols|
      modifies this
      ensures Valid() && Extends(old(symbols), symbols) && members == old(members) && errors == old(errors)
      ensures arguments == old(arguments)
      ensures symbols == old(symbols)[s := old(symbols[s]).(isInterface := true)]
    {
      RefsOf(s);
      Put(s, symbols[s].(isInterface := true));
    }

    /** `setDSLSynthesized`. */
    method SetDSLSynthesized(s: nat)
      requires Valid() && s < |symbols|
      modifies this
      ensures Valid() && Extends(old(symbols), symbols) && members == old(members) && errors == old(errors)
      ensures arguments == old(arguments)
      ensures symbols == old(symbols)[s := old(symbols[s]).(isDSLSynthesized := true)]
    {
      RefsOf(s);
      Put(s, symbols[s].(isDSLSynthesized := true));
    }

    /** `setFixed`. */
    method SetFixed(s: nat)
      requires Valid() && s < |symbols|
      modifies this
      ensures Valid() && Extends(old(symbols), symbols) && members == old(members) && errors == old(errors)
      ensures arguments == old(arguments)
      ensures symbols == old(symbols)[s := old(symbols[s]).(isFixed := true)]
    {
      RefsOf(s);
      Put(s, symbols[s].(isFixed := true));
    }

    /** `setBounded`. */
    method SetBounded(s: nat)
      requires Valid() && s < |symbols|
      modifies this
      ensures Valid() && Extends(old(symbols), symbols) && members == old(members) && errors == old(errors)
      ensures arguments == old(arguments)
      ensures symbols == old(symbols)[s := old(symbols[s]).(isBounded := true)]
    {
      RefsOf(s);
      Put(s, symbols[s].(isBounded := true));
    }

    /** `setTypeAlias`. */
    method SetTypeAlias(s: nat)
      requires Valid() && s < |symbols|
      modifies this
      ensures Valid() && Extends(old(symbols), symbols) && members == old(members) && errors == old(errors)
      ensures arguments == old(arguments)
      ensures symbols == old(symbols)[s := old(symbols[s]).(isTypeAlias := true)]
    {
      RefsOf(s);
      Put(s, symbols[s].(isTypeAlias := true));
    }

    /** `resultType = Types::untyped`. */
    method SetUntyped(s: nat)
      requires Valid() && s < |symbols|
      modifies this
      ensures Valid() && Extends(old(symbols), symbols) && members == old(members) && errors == old(errors)
      ensures arguments == old(arguments)
      ensures symbols == old(symbols)[s := old(symbols[s]).(resultType := Untyped)]
    {
      RefsOf(s);
      Put(s, symbols[s].(resultType := Untyped));
    }

    /** Replace a method's argument list (`arguments()` edited in place). */
    method SetArguments(m: nat, args: seq<ArgInfo>)
      requires Valid()
      modifies this
      ensures Valid() && symbols == old(symbols) && members == old(members) && errors == old(errors)
      ensures arguments == old(arguments)[m := args]
    {
      arguments := arguments[m := args];
    }

    /** `resultType = make_type<AliasType>(target)`. */
    method SetAliasTo(s: nat, target: nat)
      requires Valid() && s < |symbols| && Root < target < |symbols|
      modifies this
      ensures Valid() && Extends(old(symbols), symbols) && members == old(members) && errors == old(errors)
      ensures arguments == old(arguments)
      ensures symbols == old(symbols)[s := old(symbols[s]).(resultType := AliasType(target))]
    {
      RefsOf(s);
      Put(s, symbols[s].(resultType := AliasType(target)));
    }

    /** `staticInitForClass`: the static-initializer method on the class's
        singleton. */
    method StaticInitForClass(s: nat, loc: Loc) returns (init: nat)
      requires Valid() && IsClass(s)
      modifies this
      ensures Valid() && Extends(old(symbols), symbols) && errors == old(errors)
      ensures HasSingleton(s) && init > Root && init < |symbols| && symbols[init].kind == Method
      ensures FindMemberNoDealias(symbols[s].singleton.value, Plain(StaticInit)) == init
      ensures symbols[s] == old(symbols[s]).(singleton := symbols[s].singleton)
    {
      var singleton := SingletonClass(s);
      ghost var s1 := symbols;
      init := EnterMethodSymbol(loc, singleton, Plain(StaticInit));
      assert symbols[s] == s1[s];
      assert s1[s] == s1[..|old(symbols)|][s];
      ExtendsTransitive(old(symbols), s1, symbols);
    }

    /** `staticInitForFile`: the per-file static-initializer method on the
        root's singleton. */
    method StaticInitForFile(loc: Loc) returns (init: nat)
      requires Valid()
      modifies this
      ensures Valid() && Extends(old(symbols), symbols) && errors == old(errors)
      ensures HasSingleton(Root) && init > Root && init < |symbols| && symbols[init].kind == Method
      ensures FindMemberNoDealias(symbols[Root].singleton.value, FileStaticInit(loc.file)) == init
      ensures symbols[Root] == old(symbols[Root]).(singleton := symbols[Root].singleton)
    {
      var singleton := SingletonClass(Root);
      ghost var s1 := symbols;
      init := EnterMethodSymbol(loc, singleton, FileStaticInit(loc.file));
      assert symbols[Root] == s1[Root];
      assert s1[Root] == s1[..|old(symbols)|][Root];
      ExtendsTransitive(old(symbols), s1, symbols);
    }
  }
}
