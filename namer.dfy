/** The namer's `NameInserter` (namer/namer.cc): the tree walk that enters
    classes, methods, arguments, static fields and type members into the
    symbol table, with its redefinition rules and its `include`/`extend`,
    visibility and `module_function` handling. */
module Namer {
  import opened Common
  import opened Ast
  import opened Symbols

  // ---------------------------------------------------------------------
  // Ancestors

  /** `isValidAncestor`: a constant path, possibly rooted at `self` or at
      the top level. */
  predicate IsValidAncestor(e: Expr) {
    match e
    case EmptyTree => true
    case Self(_) => true
    case ConstantLit(_, _, _) => true
    case UnresolvedConstantLit(_, scope, _) => IsValidAncestor(scope)
    case _ => false
  }

  /** The innermost scope of a constant path: the expression reached by
      following `UnresolvedConstantLit` scopes. */
  function PathBase(e: Expr): (b: Expr)
    ensures !b.UnresolvedConstantLit?
  {
    if e.UnresolvedConstantLit? then PathBase(e.scope) else e
  }

  /** An ancestor is valid exactly when its path starts at the top level,
      at `self` or at a resolved constant. */
  lemma {:induction false} ValidAncestorIffConstantPath(e: Expr)
    ensures IsValidAncestor(e) <==> (PathBase(e).EmptyTree? || PathBase(e).Self? || PathBase(e).ConstantLit?)
  {
    if e.UnresolvedConstantLit? {
      ValidAncestorIffConstantPath(e.scope);
    }
  }

  /** `shouldLeaveAncestorForIDE`: everything but the empty tree, `self` and
      the placeholder superclass `todo`. */
  predicate ShouldLeaveAncestorForIDE(anc: Expr) {
    !(anc.EmptyTree? || anc.IsSelfReference() || (anc.ConstantLit? && anc.symbol == Todo))
  }

  /** What one argument of `include`/`extend` contributes to the ancestor
      list. */
  function AncestorContribution(arg: Expr): seq<Expr> {
    if arg.EmptyTree? then []
    else if arg.IsSelfReference() || IsValidAncestor(arg) then [arg]
    else []
  }

  /** The diagnostic one argument of `include`/`extend` draws. */
  function AncestorDiagnostic(arg: Expr): seq<Diagnostic> {
    if arg.EmptyTree? || arg.IsSelfReference() || IsValidAncestor(arg) then []
    else [Error(arg.Location(), AncestorNotConstant)]
  }

  /** The ancestors appended for `args`, last argument first. */
  function AncestorWalk(args: seq<Expr>): seq<Expr> {
    if args == [] then [] else AncestorWalk(args[1..]) + AncestorContribution(args[0])
  }

  /** The diagnostics drawn by `args`, last argument first. */
  function AncestorWalkDiagnostics(args: seq<Expr>): seq<Diagnostic> {
    if args == [] then [] else AncestorWalkDiagnostics(args[1..]) + AncestorDiagnostic(args[0])
  }

  function Reverse<T>(s: seq<T>): (r: seq<T>)
    ensures |r| == |s| && forall i :: 0 <= i < |s| ==> r[i] == s[|s| - 1 - i]
  {
    if s == [] then [] else Reverse(s[1..]) + [s[0]]
  }

  /** The arguments that are kept, in source order. */
  function ValidArguments(args: seq<Expr>): (r: seq<Expr>)
    ensures forall i :: 0 <= i < |r| ==> IsValidAncestor(r[i]) && !r[i].EmptyTree?
  {
    if args == [] then []
    else if !args[0].EmptyTree? && IsValidAncestor(args[0]) then [args[0]] + ValidArguments(args[1..])
    else ValidArguments(args[1..])
  }

  /** The number of arguments that are neither empty nor valid ancestors. */
  function InvalidCount(args: seq<Expr>): nat {
    if args == [] then 0
    else InvalidCount(args[1..]) + (if !args[0].EmptyTree? && !IsValidAncestor(args[0]) then 1 else 0)
  }

  /** The walk appends exactly the non-empty valid arguments, in reverse
      source order, and draws one `AncestorNotConstant` per invalid one. */
  lemma {:induction false} AncestorWalkIsReversedFilter(args: seq<Expr>)
    ensures AncestorWalk(args) == Reverse(ValidArguments(args))
    ensures |AncestorWalkDiagnostics(args)| == InvalidCount(args)
    ensures CountClass(AncestorWalkDiagnostics(args), AncestorNotConstant) == InvalidCount(args)
  {
    if args != [] {
      AncestorWalkIsReversedFilter(args[1..]);
      CountClassAppend(AncestorWalkDiagnostics(args[1..]), AncestorDiagnostic(args[0]), AncestorNotConstant);
      if !args[0].EmptyTree? && IsValidAncestor(args[0]) {
        assert ([args[0]] + ValidArguments(args[1..]))[1..] == ValidArguments(args[1..]);
      }
      if !args[0].EmptyTree? && !IsValidAncestor(args[0]) {
        var d := AncestorDiagnostic(args[0]);
        assert d[..|d| - 1] == [];
      }
    }
  }

  /** The ancestor lists of a class, and what an `include`/`extend` line did
      to them. */
  datatype AncestorLists = AncestorLists(ancestors: seq<Expr>, singletonAncestors: seq<Expr>)

  /** `addAncestor`: if `node` is `include`/`extend` on `self`, appends its
      valid arguments, last first, to the class's ancestors (`include`) or
      singleton ancestors (`extend`). */
  method AddAncestor(lists: AncestorLists, node: Expr) returns (added: bool, r: AncestorLists, diags: seq<Diagnostic>)
    ensures !added ==> r == lists
    ensures !(node.Send? && (node.fun == Include || node.fun == Extend) && node.recv.IsSelfReference()) ==>
              !added && diags == []
    ensures node.Send? && (node.fun == Include || node.fun == Extend) && node.recv.IsSelfReference() ==>
              if node.args == [] then !added && diags == [Error(node.loc, IncludeMutipleParam)]
              else if node.block.Some? then !added && diags == [Error(node.loc, IncludePassedBlock)]
              else
                && added
                && diags == AncestorWalkDiagnostics(node.args)
                && (node.fun == Include ==> r == lists.(ancestors := lists.ancestors + AncestorWalk(node.args)))
                && (node.fun == Extend ==> r == lists.(singletonAncestors := lists.singletonAncestors + AncestorWalk(node.args)))
  {
    r := lists;
    if !node.Send? || !(node.fun == Include || node.fun == Extend) || !node.recv.IsSelfReference() {
      return false, r, [];
    }
    if node.args == [] {
      return false, r, [Error(node.loc, IncludeMutipleParam)];
    }
    if node.block.Some? {
      return false, r, [Error(node.loc, IncludePassedBlock)];
    }
    var dest := if node.fun == Include then lists.ancestors else lists.singletonAncestors;
    var args := node.args;
    diags := [];
    var i := |args|;
    ghost var start := dest;
    while i > 0
      invariant 0 <= i <= |args|
      invariant dest == start + AncestorWalk(args[i..])
      invariant diags == AncestorWalkDiagnostics(args[i..])
    {
      i := i - 1;
      assert args[i..][1..] == args[i + 1..];
      var arg := args[i];
      if arg.EmptyTree? {
        continue;
      }
      if arg.IsSelfReference() {
        dest := dest + [arg];
        continue;
      }
      if IsValidAncestor(arg) {
        dest := dest + [arg];
      } else {
        diags := diags + [Error(arg.Location(), AncestorNotConstant)];
      }
    }
    assert args[0..] == args;
    added := true;
    if node.fun == Include {
      r := lists.(ancestors := dest);
    } else {
      r := lists.(singletonAncestors := dest);
    }
  }

  /** The diagnostics the superclass check in `postTransformClassDef` draws
      for a class's ancestors. */
  function AncestorCheckDiagnostics(ancs: seq<Expr>): seq<Diagnostic> {
    if ancs == [] then []
    else
      (if IsValidAncestor(ancs[0]) then [] else [Error(ancs[0].Location(), AncestorNotConstant)])
      + AncestorCheckDiagnostics(ancs[1..])
  }

  lemma {:induction false} AncestorCheckSilentIffValid(ancs: seq<Expr>)
    ensures AncestorCheckDiagnostics(ancs) == [] <==> forall j :: 0 <= j < |ancs| ==> IsValidAncestor(ancs[j])
  {
    if ancs != [] {
      AncestorCheckSilentIffValid(ancs[1..]);
      assert forall j :: 1 <= j < |ancs| ==> ancs[j] == ancs[1..][j - 1];
    }
  }

  /** Whether the ancestor at `index` is kept in the class body for the IDE. */
  predicate KeptForIDE(isModule: bool, anc: Expr, index: nat) {
    IsValidAncestor(anc) && ShouldLeaveAncestorForIDE(anc) && (isModule || index != 0)
  }

  /** The ancestors the superclass check copies into the class body for
      the IDE, in order. */
  function KeptAncestors(isModule: bool, ancs: seq<Expr>): (r: seq<Expr>)
    ensures forall e :: e in r ==> exists j :: 0 <= j < |ancs| && KeptForIDE(isModule, ancs[j], j) && e == KeepForIDE(ancs[j])
  {
    if ancs == [] then []
    else
      var j := |ancs| - 1;
      KeptAncestors(isModule, ancs[..j]) + (if KeptForIDE(isModule, ancs[j], j) then [KeepForIDE(ancs[j])] else [])
  }

  /** Every ancestor the IDE needs is kept. */
  lemma {:induction false} KeptAncestorsComplete(isModule: bool, ancs: seq<Expr>, j: nat)
    requires j < |ancs| && KeptForIDE(isModule, ancs[j], j)
    ensures KeepForIDE(ancs[j]) in KeptAncestors(isModule, ancs)
    decreases |ancs|
  {
    if j < |ancs| - 1 {
      KeptAncestorsComplete(isModule, ancs[..|ancs| - 1], j);
    }
  }

  /** An ancestor as the superclass check leaves it: the empty tree in
      place of an invalid one. */
  function CheckedAncestor(e: Expr): (r: Expr)
    ensures IsValidAncestor(r)
    ensures IsValidAncestor(e) ==> r == e
  {
    if IsValidAncestor(e) then e else EmptyTree
  }

  lemma {:induction false} AncestorCheckAppend(a: seq<Expr>, b: seq<Expr>)
    ensures AncestorCheckDiagnostics(a + b) == AncestorCheckDiagnostics(a) + AncestorCheckDiagnostics(b)
    decreases |a|
  {
    if a == [] {
      assert a + b == b;
    } else {
      assert (a + b)[1..] == a[1..] + b;
      AncestorCheckAppend(a[1..], b);
      var d := if IsValidAncestor(a[0]) then [] else [Error(a[0].Location(), AncestorNotConstant)];
      assert d + (AncestorCheckDiagnostics(a[1..]) + AncestorCheckDiagnostics(b))
             == (d + AncestorCheckDiagnostics(a[1..])) + AncestorCheckDiagnostics(b);
    }
  }

  lemma AncestorCheckStep(ancs: seq<Expr>, j: nat)
    requires j < |ancs|
    ensures AncestorCheckDiagnostics(ancs[..j + 1])
            == AncestorCheckDiagnostics(ancs[..j])
               + (if IsValidAncestor(ancs[j]) then [] else [Error(ancs[j].Location(), AncestorNotConstant)])
  {
    assert ancs[..j + 1] == ancs[..j] + [ancs[j]];
    AncestorCheckAppend(ancs[..j], [ancs[j]]);
    assert [ancs[j]][1..] == [];
  }

  lemma KeptAncestorsStep(isModule: bool, ancs: seq<Expr>, j: nat)
    requires j < |ancs|
    ensures KeptAncestors(isModule, ancs[..j + 1])
            == KeptAncestors(isModule, ancs[..j]) + (if KeptForIDE(isModule, ancs[j], j) then [KeepForIDE(ancs[j])] else [])
  {
    assert ancs[..j + 1][..j] == ancs[..j];
  }

  /** The superclass check for the ancestor at `index`. */
  method CheckAncestor(isModule: bool, anc: Expr, index: nat) returns (checked: Expr, keep: seq<Expr>, diags: seq<Diagnostic>)
    ensures checked == CheckedAncestor(anc)
    ensures keep == if KeptForIDE(isModule, anc, index) then [KeepForIDE(anc)] else []
    ensures diags == if IsValidAncestor(anc) then [] else [Error(anc.Location(), AncestorNotConstant)]
  {
    keep, diags := [], [];
    if !IsValidAncestor(anc) {
      diags := [Error(anc.Location(), AncestorNotConstant)];
      checked := EmptyTree;
    } else {
      if ShouldLeaveAncestorForIDE(anc) && (isModule || index != 0) {
        keep := [KeepForIDE(anc)];
      }
      checked := anc;
    }
  }

  /** The superclass check of `postTransformClassDef`: invalid ancestors are
      reported and replaced by the empty tree. The valid ones that the IDE
      needs are copied into `keep`. */
  method CheckAncestors(isModule: bool, ancs: seq<Expr>) returns (checked: seq<Expr>, keep: seq<Expr>, diags: seq<Diagnostic>)
    ensures |checked| == |ancs|
    ensures forall j :: 0 <= j < |ancs| ==> checked[j] == CheckedAncestor(ancs[j])
    ensures forall j :: 0 <= j < |checked| ==> IsValidAncestor(checked[j])
    ensures diags == AncestorCheckDiagnostics(ancs)
    ensures keep == KeptAncestors(isModule, ancs)
  {
    checked, keep, diags := [], [], [];
    var j := 0;
    while j < |ancs|
      invariant 0 <= j <= |ancs| && |checked| == j
      invariant forall k :: 0 <= k < j ==> checked[k] == CheckedAncestor(ancs[k]) && IsValidAncestor(checked[k])
      invariant diags == AncestorCheckDiagnostics(ancs[..j])
      invariant keep == KeptAncestors(isModule, ancs[..j])
    {
      AncestorCheckStep(ancs, j);
      KeptAncestorsStep(isModule, ancs, j);
      var c, k, d := CheckAncestor(isModule, ancs[j], j);
      checked, keep, diags := checked + [c], keep + k, diags + d;
      j := j + 1;
    }
    assert ancs[..|ancs|] == ancs;
  }

  // ---------------------------------------------------------------------
  // Method signatures

  /** One stored argument agrees with one parsed parameter: the same
      keyword, block and repeated flags, and for a keyword the same name. */
  predicate ArgAgrees(a: ArgInfo, p: ParsedArg) {
    && a.flags.isKeyword == p.keyword
    && a.flags.isBlock == p.block
    && a.flags.isRepeated == p.repeated
    && (a.flags.isKeyword ==> a.name == Plain(p.local))
  }

  /** A redefinition is compatible when it has as many parameters and they
      agree position by position. */
  predicate ParamsCompatible(symArgs: seq<ArgInfo>, parsed: seq<ParsedArg>) {
    |symArgs| == |parsed| && forall i :: 0 <= i < |parsed| ==> ArgAgrees(symArgs[i], parsed[i])
  }

  /** The comparison loop of `paramsMatch`: the first disagreeing position
      draws one `RedefinitionOfMethod` at `loc`. */
  method ParamsMatch(symArgs: seq<ArgInfo>, loc: Loc, parsed: seq<ParsedArg>) returns (ok: bool, diags: seq<Diagnostic>)
    ensures ok == ParamsCompatible(symArgs, parsed)
    ensures diags == if ok then [] else [Error(loc, RedefinitionOfMethod)]
  {
    if |symArgs| != |parsed| {
      return false, [Error(loc, RedefinitionOfMethod)];
    }
    var i := 0;
    while i < |parsed|
      invariant 0 <= i <= |parsed|
      invariant forall k :: 0 <= k < i ==> ArgAgrees(symArgs[k], parsed[k])
    {
      var methodArg := parsed[i];
      var symArg := symArgs[i];
      if symArg.flags.isKeyword != methodArg.keyword
        || symArg.flags.isBlock != methodArg.block
        || symArg.flags.isRepeated != methodArg.repeated
        || (symArg.flags.isKeyword && symArg.name != Plain(methodArg.local))
      {
        return false, [Error(loc, RedefinitionOfMethod)];
      }
      i := i + 1;
    }
    return true, [];
  }

  /** The name under which a parameter is stored: its own name for a
      keyword, `<blk>` for a block, and a fresh positional name otherwise. */
  function ArgName(p: ParsedArg, pos: nat): SymName {
    if p.keyword then Plain(p.local) else if p.block then Plain(BlkArg) else PositionalArgName(pos + 1)
  }

  /** The argument `arg2Symbol` enters for a parameter at a new position. */
  function FreshArg(p: ParsedArg, pos: nat): ArgInfo {
    ArgInfo(ArgName(p, pos), p.loc, ArgFlags(p.keyword, p.block, p.repeated, p.default_.Some?))
  }

  /** The argument list before the parameter at `j` is examined: the
      intrinsic block argument is pushed back in front of a block
      parameter when the list is being swapped. */
  function BeforeArg(cur: seq<ArgInfo>, swapped: Option<ArgInfo>, p: ParsedArg): seq<ArgInfo> {
    if swapped.Some? && p.block then cur + [swapped.value] else cur
  }

  /** `fillInArgs` after one parameter: a shadow parameter leaves the list
      alone, a known position gets the parameter's location, a new one is
      appended. */
  function FillStep(cur: seq<ArgInfo>, swapped: Option<ArgInfo>, p: ParsedArg, j: nat): seq<ArgInfo> {
    if p.shadow then cur
    else
      var c := BeforeArg(cur, swapped, p);
      if j < |c| then c[j := c[j].(loc := p.loc)] else c + [FreshArg(p, j)]
  }

  /** The argument list after the first `i` parameters. */
  function Filled(base: seq<ArgInfo>, swapped: Option<ArgInfo>, ps: seq<ParsedArg>, i: nat): seq<ArgInfo>
    requires i <= |ps|
  {
    if i == 0 then base else FillStep(Filled(base, swapped, ps, i - 1), swapped, ps[i - 1], i - 1)
  }

  /** The expression `fillInArgs` produces for a parameter: a local, or an
      optional argument when a default is given at a new position. */
  function ArgExpr(p: ParsedArg, reused: bool): Expr {
    if p.shadow || reused || p.default_.None? then Local(p.loc, p.local)
    else OptionalArg(p.loc, Local(p.loc, p.local), p.default_.value)
  }

  predicate Reuses(cur: seq<ArgInfo>, swapped: Option<ArgInfo>, p: ParsedArg, j: nat) {
    j < |BeforeArg(cur, swapped, p)|
  }

  /** The expressions `fillInArgs` produces for the first `i` parameters. */
  function FilledExprs(base: seq<ArgInfo>, swapped: Option<ArgInfo>, ps: seq<ParsedArg>, i: nat): (r: seq<Expr>)
    requires i <= |ps|
    ensures |r| == i
  {
    if i == 0 then []
    else FilledExprs(base, swapped, ps, i - 1)
         + [ArgExpr(ps[i - 1], Reuses(Filled(base, swapped, ps, i - 1), swapped, ps[i - 1], i - 1))]
  }

  /** Each parameter becomes a local named like it, or an optional argument
      around such a local when it brings a default at a new position. */
  lemma {:induction false} FilledExprsAt(base: seq<ArgInfo>, swapped: Option<ArgInfo>, ps: seq<ParsedArg>, i: nat, j: nat)
    requires j < i <= |ps|
    ensures var e := FilledExprs(base, swapped, ps, i)[j];
            && (e.Local? || (e.OptionalArg? && e.expr == Local(ps[j].loc, ps[j].local)
                             && ps[j].default_ == Some(e.defaultValue) && !ps[j].shadow))
            && (e.Local? ==> e == Local(ps[j].loc, ps[j].local))
            && (ps[j].shadow || ps[j].default_.None? ==> e.Local?)
  {
    if j < i - 1 {
      FilledExprsAt(base, swapped, ps, i - 1, j);
    }
  }

  lemma UpdateTwice<K, V>(a: map<K, V>, k: K, x: V, y: V)
    ensures a[k := x][k := y] == a[k := y]
  {
  }

  lemma UpdateSame<T>(s: seq<T>, i: nat)
    requires i < |s|
    ensures s[i := s[i]] == s
  {
  }

  /** `postTransformClassDef`'s superclass defaults: a class other than
      `BasicObject` with no superclass gets the placeholder `todo`, and
      `Net::IMAP` always gets `Net::Protocol`; anything else keeps what it
      has. */
  function DefaultSuperClass(sym: nat, kind: ClassDefKind, current: Option<nat>): (r: Option<nat>)
    ensures sym == NetIMAP ==> r == Some(NetProtocol)
    ensures kind == ClassKind && sym != BasicObject ==> r.Some?
    ensures sym != NetIMAP && (kind == ModuleKind || sym == BasicObject || current.Some?) ==> r == current
    ensures sym != NetIMAP && kind == ClassKind && sym != BasicObject && current.None? ==> r == Some(Todo)
    ensures r.Some? ==> r.value in {NetProtocol, Todo} || r == current
  {
    if sym == NetIMAP then Some(NetProtocol)
    else if kind == ClassKind && current.None? && sym != BasicObject then Some(Todo)
    else current
  }

  /** Shadow parameters come after all others. */
  predicate ShadowsLast(ps: seq<ParsedArg>) {
    forall i, j :: 0 <= i < j < |ps| && ps[i].shadow ==> ps[j].shadow
  }

  /** Filling a method with no arguments yet, from parameters with no
      shadows, enters exactly the parameters' fresh arguments. */
  lemma {:induction false} FilledFresh(ps: seq<ParsedArg>, i: nat)
    requires i <= |ps| && forall k :: 0 <= k < |ps| ==> !ps[k].shadow
    ensures |Filled([], None, ps, i)| == i
    ensures forall k :: 0 <= k < i ==> Filled([], None, ps, i)[k] == FreshArg(ps[k], k)
  {
    if i > 0 {
      FilledFresh(ps, i - 1);
    }
  }

  /** A method entered fresh from `ps` is compatible with `ps`, so defining
      it again with the same parameters keeps the symbol. */
  lemma FreshMethodMatchesItsParams(ps: seq<ParsedArg>)
    requires forall k :: 0 <= k < |ps| ==> !ps[k].shadow
    ensures ParamsCompatible(Filled([], None, ps, |ps|), ps)
  {
    FilledFresh(ps, |ps|);
  }

  /** Filling never shortens the list, and each non-shadow parameter's
      position exists afterwards (the `ENFORCE` after `arg2Symbol`). */
  lemma {:induction false} FilledCoversParams(base: seq<ArgInfo>, swapped: Option<ArgInfo>, ps: seq<ParsedArg>, i: nat)
    requires i <= |ps| && ShadowsLast(ps)
    ensures |Filled(base, swapped, ps, i)| >= |base|
    ensures (forall k :: 0 <= k < i ==> !ps[k].shadow) ==> |Filled(base, swapped, ps, i)| >= i
    ensures forall k :: 0 <= k < i && !ps[k].shadow ==> k < |Filled(base, swapped, ps, i)|
  {
    if i > 0 {
      FilledCoversParams(base, swapped, ps, i - 1);
    }
  }

  /** The argument list `fillInArgs` starts from, and the argument it swaps in. */
  datatype FillMode = FillMode(base: seq<ArgInfo>, swapped: Option<ArgInfo>)

  /** How `fillInArgs` starts: an intrinsic stub with exactly one argument
      has that (block) argument taken out, to be swapped back in at the
      block parameter. */
  function StartFill(intrinsic: bool, args: seq<ArgInfo>): (m: FillMode)
    ensures m.swapped.Some? ==> |args| == 1 && m.base == [] && m.swapped == Some(args[0])
    ensures m.swapped.None? ==> m.base == args
  {
    if intrinsic && |args| == 1 then FillMode([], Some(args[0])) else FillMode(args, None)
  }

  // ---------------------------------------------------------------------
  // Symbols the namer derives from the context

  /** `methodOwner`: the enclosing class of the context, with methods at the
      top level going on `Object`. */
  function MethodOwner(gs: SymbolTable, ctxOwner: nat): (r: nat)
    requires gs.Valid() && NoSymbol < ctxOwner < |gs.symbols|
    reads gs
    ensures gs.IsClass(r) && r > Root
    ensures r == Object || r == gs.EnclosingClass(ctxOwner)
  {
    var c := gs.EnclosingClass(ctxOwner);
    if c == Root then Object else c
  }

  /** `contextClass`: the class `self.class` denotes inside `s`. Static
      initializers stand for the class their singleton is attached to.
      `None` is the `ENFORCE` on a missing owner. */
  function ContextClassOf(gs: SymbolTable, s: nat): (r: Option<nat>)
    requires gs.Valid() && s < |gs.symbols|
    reads gs
    ensures r.Some? ==> gs.IsClass(r.value) && r.value != NoSymbol
    decreases s
  {
    if s == NoSymbol then None
    else if gs.symbols[s].kind == ClassOrModule then Some(s)
    else
      gs.OwnerIsAClass(s);
      var owner := gs.symbols[s].owner;
      if gs.symbols[s].name == Plain(StaticInit) then
        var attached := gs.symbols[owner].attached;
        if attached.None? then None
        else
          gs.AttachedIsEarlier(owner);
          ContextClassOf(gs, attached.value)
      else ContextClassOf(gs, owner)
  }

  /** No static initializer lies between `s` and its enclosing class. */
  predicate NoStaticInitOnPath(gs: SymbolTable, s: nat)
    requires gs.Valid() && s < |gs.symbols|
    reads gs
    decreases s
  {
    if s == NoSymbol || gs.symbols[s].kind == ClassOrModule then true
    else
      gs.OwnerIsAClass(s);
      gs.symbols[s].name != Plain(StaticInit) && NoStaticInitOnPath(gs, gs.symbols[s].owner)
  }

  /** Away from static initializers the context class is the enclosing class. */
  lemma {:induction false} ContextClassIsEnclosingClass(gs: SymbolTable, s: nat)
    requires gs.Valid() && NoSymbol < s < |gs.symbols| && NoStaticInitOnPath(gs, s)
    ensures ContextClassOf(gs, s) == Some(gs.EnclosingClass(s))
    decreases s
  {
    if gs.symbols[s].kind != ClassOrModule {
      gs.OwnerIsAClass(s);
      ContextClassIsEnclosingClass(gs, gs.symbols[s].owner);
    }
  }

  /** `enclosingClass` over a table given as a value. */
  ghost function EnclosingIn(symbols: seq<SymbolData>, s: nat): nat
    requires WellKnownClasses(symbols) && OwnersAreEarlier(symbols) && s < |symbols|
    decreases s
  {
    if s == NoSymbol || symbols[s].kind == ClassOrModule then s
    else
      assert OwnerEarlier(symbols, s);
      EnclosingIn(symbols, symbols[s].owner)
  }

  lemma {:induction false} EnclosingClassIsIn(gs: SymbolTable, s: nat)
    requires gs.Valid() && s < |gs.symbols|
    ensures gs.EnclosingClass(s) == EnclosingIn(gs.symbols, s)
    decreases s
  {
    if s != NoSymbol && gs.symbols[s].kind != ClassOrModule {
      assert OwnerEarlier(gs.symbols, s);
      EnclosingClassIsIn(gs, gs.symbols[s].owner);
    }
  }

  /** The enclosing class of a symbol stays the same as the table is
      extended. */
  lemma {:induction false} EnclosingInExtends(s1: seq<SymbolData>, s2: seq<SymbolData>, s: nat)
    requires WellKnownClasses(s1) && OwnersAreEarlier(s1) && WellKnownClasses(s2) && OwnersAreEarlier(s2)
    requires Extends(s1, s2) && s < |s1|
    ensures EnclosingIn(s2, s) == EnclosingIn(s1, s)
    decreases s
  {
    if s != NoSymbol {
      assert SameIdentity(s1[s], s2[s]);
      if s1[s].kind != ClassOrModule {
        assert OwnerEarlier(s1, s);
        EnclosingInExtends(s1, s2, s1[s].owner);
      }
    }
  }

  /** The diagnostic `squashNames` draws for a scope that is not a constant. */
  function DynamicScopeDiagnostics(node: Expr): seq<Diagnostic> {
    match node
    case UnresolvedIdent(loc, kind, name) =>
      if kind != ClassIdent || name != SingletonName then [Error(loc, DynamicConstant)] else []
    case EmptyTree => []
    case Self(_) => []
    case _ => [Error(node.Location(), DynamicConstant)]
  }

  /** Every resolved constant on the scope path of `e` names a symbol of a
      table of `n` symbols. */
  predicate ScopeRefsBelow(e: Expr, n: nat) {
    match e
    case ConstantLit(_, symbol, _) => NoSymbol < symbol < n
    case UnresolvedConstantLit(_, scope, _) => ScopeRefsBelow(scope, n)
    case _ => true
  }

  /** How `preTransformMethodDef` treated an existing method of that name. */
  datatype Redefinition =
    | Fresh     // no member of that name
    | Reparsed  // same declaration site: the file is being reparsed
    | AddedLoc  // compatible redefinition: the symbol gets another location
    | Mangled   // incompatible redefinition: the old symbol is renamed away

  /** The statement `handleTypeMemberDefinition` hands to `handleAssignment`
      when a type member must become a type alias: `T.type_alias(T.untyped)`
      (`T` and `T.untyped` are not interpreted here). */
  function TypeAliasUntyped(asgn: Expr): Expr
    requires asgn.Assign?
  {
    Assign(asgn.loc, asgn.lhs, Send(asgn.loc, Other(asgn.loc), TypeAlias, [Other(asgn.loc)], None))
  }

  /** The variance a `type_member`/`type_template` argument names. */
  function VarianceOf(name: NameId): Option<Variance> {
    if name == Covariant then Some(CoVariant)
    else if name == Contravariant then Some(ContraVariant)
    else if name == InvariantName then Some(Invariant)
    else None
  }

  /** A type member definition is left alone when its symbol's location is
      this definition's or lies in a deleted file. */
  predicate SameOrStale(gs: SymbolTable, s: nat, loc: Loc)
    requires s < |gs.symbols|
    reads gs`symbols
  {
    SymbolLoc(gs.symbols[s]) == loc || gs.IsTombStoned(SymbolLoc(gs.symbols[s]))
  }

  /** A resolved scope path stays resolved when the table grows. */
  lemma ScopeRefsBelowGrow(e: Expr, n: nat, m: nat)
    requires ScopeRefsBelow(e, n) && n <= m
    ensures ScopeRefsBelow(e, m)
  {
  }

  /** What `squashNames` resolves `node` to from `owner` in the table
      `symbols`, `members`, when every class it would enter is already
      there: the symbol and the rewritten scope path. A resolved constant
      is dealiased; a member that cannot be found leaves `owner` and an
      empty tree; any other scope is `owner` and an empty tree. */
  ghost function Resolve(symbols: seq<SymbolData>, members: map<(nat, SymName), nat>, owner: nat, node: Expr): (res: (nat, Expr))
    requires TableInvariant(symbols, members)
    ensures owner < |symbols| && ScopeRefsBelow(node, |symbols|) ==> res.0 < |symbols|
    decreases node
  {
    match node
    case ConstantLit(_, s, _) => (if s < |symbols| then DealiasIn(symbols, s, DealiasDepth) else s, node)
    case UnresolvedConstantLit(loc, scope, cnst) =>
      var inner := Resolve(symbols, members, owner, scope);
      var m := MemberIn(symbols, members, inner.0, Plain(cnst));
      if m == NoSymbol then (owner, EmptyTree)
      else (m, ConstantLit(loc, m, Some(node.(scope := inner.1))))
    case _ => (owner, EmptyTree)
  }

  /** Along the scope path of `node`, a member that `Resolve` does not find
      lies in a scope that is not a class, so `squashNames` would not enter
      it either. */
  ghost predicate Settled(symbols: seq<SymbolData>, members: map<(nat, SymName), nat>, owner: nat, node: Expr)
    requires TableInvariant(symbols, members)
    decreases node
  {
    node.UnresolvedConstantLit? ==>
      && Settled(symbols, members, owner, node.scope)
      && var scope := Resolve(symbols, members, owner, node.scope).0;
         MemberIn(symbols, members, scope, Plain(node.cnst)) == NoSymbol ==>
           !(scope < |symbols| && symbols[scope].kind == ClassOrModule)
  }

  /** A settled resolution stays the same as the table grows. */
  lemma {:induction false} ResolveGrowth(s1: seq<SymbolData>, m1: map<(nat, SymName), nat>,
                                         s2: seq<SymbolData>, m2: map<(nat, SymName), nat>, owner: nat, node: Expr)
    requires TableInvariant(s1, m1) && TableInvariant(s2, m2) && PlainGrowth(s1, m1, s2, m2)
    requires owner < |s1| && ScopeRefsBelow(node, |s1|) && Settled(s1, m1, owner, node)
    ensures Resolve(s2, m2, owner, node) == Resolve(s1, m1, owner, node) && Settled(s2, m2, owner, node)
    decreases node
  {
    match node
    case ConstantLit(_, s, _) =>
      DealiasInGrowth(s1, s2, s, DealiasDepth);
    case UnresolvedConstantLit(_, scope, cnst) =>
      ResolveGrowth(s1, m1, s2, m2, owner, scope);
      var o := Resolve(s1, m1, owner, scope).0;
      MemberInGrowth(s1, m1, s2, m2, o, Plain(cnst));
      assert s2[o] == s2[..|s1|][o];
    case _ =>
  }

  /** The diagnostics `squashNames` reports for `node` from `owner`, read in
      the table it leaves: those of the scope path first, then an
      `InvalidClassOwner` at the name when its scope has no such member
      (namer.cc:54-64), or `DynamicConstant` for a scope that is not a
      constant (namer.cc:31-47). */
  ghost function SquashErrors(symbols: seq<SymbolData>, members: map<(nat, SymName), nat>, owner: nat, node: Expr): seq<Diagnostic>
    requires TableInvariant(symbols, members)
    decreases node
  {
    match node
    case ConstantLit(_, _, _) => []
    case UnresolvedConstantLit(loc, scope, cnst) =>
      SquashErrors(symbols, members, owner, scope)
      + (if MemberIn(symbols, members, Resolve(symbols, members, owner, scope).0, Plain(cnst)) == NoSymbol
         then [Error(loc, InvalidClassOwner)] else [])
    case _ => DynamicScopeDiagnostics(node)
  }

  /** A name on a scope path draws `InvalidClassOwner` exactly when it
      resolves to nothing: then `node` resolves to `owner` and an empty
      tree. */
  lemma SquashErrorsMissing(symbols: seq<SymbolData>, members: map<(nat, SymName), nat>, owner: nat, node: Expr)
    requires TableInvariant(symbols, members) && node.UnresolvedConstantLit?
    ensures var inner := SquashErrors(symbols, members, owner, node.scope);
            && (Resolve(symbols, members, owner, node).1.EmptyTree? ==>
                  SquashErrors(symbols, members, owner, node) == inner + [Error(node.loc, InvalidClassOwner)])
            && (!Resolve(symbols, members, owner, node).1.EmptyTree? ==>
                  SquashErrors(symbols, members, owner, node) == inner)
  {
  }

  /** The diagnostics of a settled path stay the same as the table grows. */
  lemma {:induction false} SquashErrorsGrowth(s1: seq<SymbolData>, m1: map<(nat, SymName), nat>,
                                              s2: seq<SymbolData>, m2: map<(nat, SymName), nat>, owner: nat, node: Expr)
    requires TableInvariant(s1, m1) && TableInvariant(s2, m2) && PlainGrowth(s1, m1, s2, m2)
    requires owner < |s1| && ScopeRefsBelow(node, |s1|) && Settled(s1, m1, owner, node)
    ensures SquashErrors(s2, m2, owner, node) == SquashErrors(s1, m1, owner, node)
    decreases node
  {
    if node.UnresolvedConstantLit? {
      SquashErrorsGrowth(s1, m1, s2, m2, owner, node.scope);
      ResolveGrowth(s1, m1, s2, m2, owner, node.scope);
      var o := Resolve(s1, m1, owner, node.scope).0;
      MemberInGrowth(s1, m1, s2, m2, o, Plain(node.cnst));
    }
  }

  /** `squashNames` took the table from `s0`, `m0` to `s`, `m`, resolving
      `node` from `owner` to `sym` and the rewritten path `r`: it only
      entered classes, and in the table it left `node` resolves to exactly
      that. */
  ghost predicate SquashedFrom(s0: seq<SymbolData>, m0: map<(nat, SymName), nat>, s: seq<SymbolData>, m: map<(nat, SymName), nat>,
                               owner: nat, node: Expr, sym: nat, r: Expr)
    requires TableInvariant(s, m)
  {
    && PlainGrowth(s0, m0, s, m) && NewClasses(|s0|, s)
    && (sym, r) == Resolve(s, m, owner, node) && Settled(s, m, owner, node)
  }

  /** The last step of `squashNames`: after the scope path is squashed to
      `newOwner`, the member of the last name that the table then has is
      what `node` resolves to. */
  lemma SquashedStep(s0: seq<SymbolData>, m0: map<(nat, SymName), nat>, s1: seq<SymbolData>, m1: map<(nat, SymName), nat>,
                     s2: seq<SymbolData>, m2: map<(nat, SymName), nat>, owner: nat, node: Expr,
                     newOwner: nat, newScope: Expr, existing: nat)
    requires TableInvariant(s1, m1) && TableInvariant(s2, m2)
    requires node.UnresolvedConstantLit? && owner < |s0| && ScopeRefsBelow(node, |s0|) && newOwner < |s1|
    requires SquashedFrom(s0, m0, s1, m1, owner, node.scope, newOwner, newScope)
    requires PlainGrowth(s1, m1, s2, m2) && NewClasses(|s1|, s2)
    requires existing == MemberIn(s2, m2, newOwner, Plain(node.cnst))
    requires existing == NoSymbol ==> s1[newOwner].kind != ClassOrModule
    ensures SquashedFrom(s0, m0, s2, m2, owner, node,
                         if existing == NoSymbol then owner else existing,
                         if existing == NoSymbol then EmptyTree else ConstantLit(node.loc, existing, Some(node.(scope := newScope))))
  {
    PlainGrowthTransitive(s0, m0, s1, m1, s2, m2);
    NewClassesTransitive(|s0|, s1, s2);
    ScopeRefsBelowGrow(node.scope, |s0|, |s1|);
    ResolveGrowth(s1, m1, s2, m2, owner, node.scope);
    assert s2[newOwner] == s2[..|s1|][newOwner];
  }

  /** The diagnostics of the last step of `squashNames`: `e0` grows by
      those of the scope path, then by an `InvalidClassOwner` when the
      member is missing, and that is `SquashErrors` of `node` in the table
      the step leaves. */
  lemma SquashErrorsStep(s1: seq<SymbolData>, m1: map<(nat, SymName), nat>, s2: seq<SymbolData>, m2: map<(nat, SymName), nat>,
                         owner: nat, node: Expr, existing: nat, e0: seq<Diagnostic>, e1: seq<Diagnostic>, e2: seq<Diagnostic>)
    requires TableInvariant(s1, m1) && TableInvariant(s2, m2) && PlainGrowth(s1, m1, s2, m2)
    requires node.UnresolvedConstantLit? && owner < |s1| && ScopeRefsBelow(node.scope, |s1|) && Settled(s1, m1, owner, node.scope)
    requires existing == MemberIn(s2, m2, Resolve(s1, m1, owner, node.scope).0, Plain(node.cnst))
    requires e1 == e0 + SquashErrors(s1, m1, owner, node.scope)
    requires e2 == e1 + if existing == NoSymbol then [Error(node.loc, InvalidClassOwner)] else []
    ensures e2 == e0 + SquashErrors(s2, m2, owner, node)
  {
    ResolveGrowth(s1, m1, s2, m2, owner, node.scope);
    SquashErrorsGrowth(s1, m1, s2, m2, owner, node.scope);
  }

  /** The table after a new class `r` of plain name `name` is entered in
      the class `scope`, followed by its singleton class: it grows as
      `PlainGrowth` and `NewClasses` say, and `r` is the member found. */
  lemma EnteredClassGrowth(s0: seq<SymbolData>, m0: map<(nat, SymName), nat>, s: seq<SymbolData>, m: map<(nat, SymName), nat>,
                           scope: nat, name: SymName, r: nat)
    requires TableInvariant(s0, m0) && TableInvariant(s, m) && name.Plain?
    requires scope < |s0| && s0[scope].kind == ClassOrModule && (scope, name) !in m0
    requires r == |s0| && |s| == r + 2 && s[..r] == s0
    requires s[r].kind == ClassOrModule && s[r].resultType.NoResultType? && s[r].singleton.Some?
    requires s[r + 1].kind == ClassOrModule && s[r + 1].resultType.NoResultType? && !s[r + 1].name.Plain?
    requires m == m0[(scope, name) := r][(s[r + 1].owner, s[r + 1].name) := r + 1]
    ensures PlainGrowth(s0, m0, s, m) && NewClasses(|s0|, s) && MemberIn(s, m, scope, name) == r
  {
  }

  /** The scope in which `squashNames` looks the last name of `node` up. */
  ghost function SquashedScope(s: seq<SymbolData>, m: map<(nat, SymName), nat>, owner: nat, node: Expr): nat
    requires TableInvariant(s, m) && node.UnresolvedConstantLit?
  {
    Resolve(s, m, owner, node.scope).0
  }

  /** A name that was already a member of its scope resolves to that
      member (`findMember` found it, namer.cc:52-53). */
  lemma SquashedFindsMember(s0: seq<SymbolData>, m0: map<(nat, SymName), nat>, s: seq<SymbolData>, m: map<(nat, SymName), nat>,
                            owner: nat, node: Expr, sym: nat, r: Expr)
    requires TableInvariant(s0, m0) && TableInvariant(s, m) && SquashedFrom(s0, m0, s, m, owner, node, sym, r)
    requires node.UnresolvedConstantLit? && MemberIn(s0, m0, SquashedScope(s, m, owner, node), Plain(node.cnst)) != NoSymbol
    ensures sym == MemberIn(s0, m0, SquashedScope(s, m, owner, node), Plain(node.cnst)) && r.ConstantLit? && r.symbol == sym
  {
    MemberInGrowth(s0, m0, s, m, SquashedScope(s, m, owner, node), Plain(node.cnst));
  }

  /** A name that was not a member of its scope either leaves `owner` and
      an empty tree, when the scope is not a class (namer.cc:55-65), or
      resolves to a new class of that name in the scope, with a singleton
      class (namer.cc:66-67). */
  lemma SquashedEntersClass(s0: seq<SymbolData>, m0: map<(nat, SymName), nat>, s: seq<SymbolData>, m: map<(nat, SymName), nat>,
                            owner: nat, node: Expr, sym: nat, r: Expr)
    requires TableInvariant(s0, m0) && TableInvariant(s, m) && SquashedFrom(s0, m0, s, m, owner, node, sym, r)
    requires node.UnresolvedConstantLit? && MemberIn(s0, m0, SquashedScope(s, m, owner, node), Plain(node.cnst)) == NoSymbol
    ensures var scope := SquashedScope(s, m, owner, node);
            if scope < |s| && s[scope].kind == ClassOrModule then
              && |s0| <= sym < |s| && r.ConstantLit? && r.symbol == sym
              && s[sym].kind == ClassOrModule && s[sym].owner == scope && s[sym].name == Plain(node.cnst)
              && s[sym].singleton.Some?
            else sym == owner && r.EmptyTree?
  {
    var scope := SquashedScope(s, m, owner, node);
    var k := (scope, Plain(node.cnst));
    if k in m {
      assert k !in m0;
      assert MemberOk(s, m, k);
      assert m[k] >= |s0|;
    }
  }

  /** The method `meth` has an alias of name `name` on the singleton class
      of `owner`. */
  predicate AliasedOnSingleton(gs: SymbolTable, owner: nat, name: SymName, meth: nat)
    requires gs.Valid()
    reads gs
  {
    && gs.HasSingleton(owner)
    && var a := gs.FindMemberNoDealias(gs.symbols[owner].singleton.value, name);
    && a != NoSymbol && gs.symbols[a].kind == Method && gs.symbols[a].resultType == AliasType(meth)
  }

  /** A symbol table given as a value: its symbols and its members. */
  type Table = (seq<SymbolData>, map<(nat, SymName), nat>)

  /** `AliasedOnSingleton` over a table given as a value. */
  ghost predicate AliasedIn(t: Table, owner: nat, name: SymName, meth: nat)
    requires TableInvariant(t.0, t.1)
  {
    && owner < |t.0| && t.0[owner].singleton.Some?
    && var k := (t.0[owner].singleton.value, name);
    && k in t.1 && MemberOk(t.0, t.1, k)
    && t.0[t.1[k]].kind == Method && t.0[t.1[k]].resultType == AliasType(meth)
  }

  lemma AliasedOnSingletonIn(gs: SymbolTable, owner: nat, name: SymName, meth: nat)
    requires gs.Valid()
    ensures AliasedOnSingleton(gs, owner, name, meth) <==> AliasedIn((gs.symbols, gs.members), owner, name, meth)
  {
    if owner < |gs.symbols| {
      gs.RefsOf(owner);
      if gs.symbols[owner].singleton.Some? {
        var k := (gs.symbols[owner].singleton.value, name);
        if k in gs.members {
          assert MemberOk(gs.symbols, gs.members, k);
        }
      }
    }
  }

  /** The diagnostics one argument of `self.module_function` draws
      (namer.cc:444-460), looked up in the table `t` before it: an argument
      that is not a symbol, or a symbol that names no method of the method
      owner `mo`, is reported; a found method draws none. */
  ghost function ArgDiagnostics(t: Table, mo: nat, arg: Expr): seq<Diagnostic>
    requires TableInvariant(t.0, t.1)
  {
    if !arg.IsSymbolLiteral() then [Error(arg.Location(), DynamicDSLInvocation)]
    else if MemberIn(t.0, t.1, mo, Plain(arg.value.symbolName)) == NoSymbol then [Error(arg.Location(), MethodNotFound)]
    else []
  }

  /** One argument of `self.module_function` takes the table from `t0` to
      `t1`: a reported argument leaves it as it was; otherwise the method
      found is aliased on the singleton class of its owner. No member entry
      is lost. */
  ghost predicate ModuleFunctionStep(t0: Table, t1: Table, mo: nat, arg: Expr)
    requires TableInvariant(t0.0, t0.1) && TableInvariant(t1.0, t1.1)
  {
    && t0.1.Keys <= t1.1.Keys
    && (ArgDiagnostics(t0, mo, arg) != [] ==> t1 == t0)
    && (ArgDiagnostics(t0, mo, arg) == [] ==>
          var meth := MemberIn(t0.0, t0.1, mo, Plain(arg.value.symbolName));
          AliasedIn(t1, t0.0[meth].owner, t0.0[meth].name, meth))
  }

  /** The tables of the loop over `args`: from `s0`, `m0` to `s`, `m`, one
      `ModuleFunctionStep` per argument. */
  ghost predicate ModuleFunctionRun(tables: seq<Table>, s0: seq<SymbolData>, m0: map<(nat, SymName), nat>,
                                    s: seq<SymbolData>, m: map<(nat, SymName), nat>, mo: nat, args: seq<Expr>)
  {
    && |tables| == |args| + 1 && tables[0] == (s0, m0) && tables[|args|] == (s, m)
    && (forall k :: 0 <= k < |tables| ==> TableInvariant(tables[k].0, tables[k].1))
    && (forall k :: 0 <= k < |args| ==> ModuleFunctionStep(tables[k], tables[k + 1], mo, args[k]))
  }

  /** The diagnostics of the loop, each argument's looked up in the table
      before it. */
  ghost function ArgsDiagnostics(tables: seq<Table>, mo: nat, args: seq<Expr>): seq<Diagnostic>
    requires |args| <= |tables| && forall k :: 0 <= k < |tables| ==> TableInvariant(tables[k].0, tables[k].1)
  {
    if args == [] then []
    else ArgsDiagnostics(tables, mo, args[..|args| - 1]) + ArgDiagnostics(tables[|args| - 1], mo, args[|args| - 1])
  }

  /** The number of symbol arguments whose method is missing at their turn. */
  ghost function MissingCount(tables: seq<Table>, mo: nat, args: seq<Expr>): nat
    requires |args| <= |tables| && forall k :: 0 <= k < |tables| ==> TableInvariant(tables[k].0, tables[k].1)
  {
    if args == [] then 0
    else MissingCount(tables, mo, args[..|args| - 1])
         + (if ArgDiagnostics(tables[|args| - 1], mo, args[|args| - 1]) == [Error(args[|args| - 1].Location(), MethodNotFound)] then 1 else 0)
  }

  /** Both only look at the tables before the arguments. */
  lemma {:induction false} ArgsDiagnosticsPrefix(t1: seq<Table>, t2: seq<Table>, mo: nat, args: seq<Expr>)
    requires |args| <= |t1| <= |t2| && t2[..|t1|] == t1
    requires forall k :: 0 <= k < |t2| ==> TableInvariant(t2[k].0, t2[k].1)
    ensures forall k :: 0 <= k < |t1| ==> TableInvariant(t1[k].0, t1[k].1)
    ensures ArgsDiagnostics(t2, mo, args) == ArgsDiagnostics(t1, mo, args)
    ensures MissingCount(t2, mo, args) == MissingCount(t1, mo, args)
    decreases |args|
  {
    forall k | 0 <= k < |t1| ensures t1[k] == t2[k] {
      assert t1[k] == t2[..|t1|][k];
    }
    if args != [] {
      ArgsDiagnosticsPrefix(t1, t2, mo, args[..|args| - 1]);
    }
  }

  /** One more argument of the loop. */
  lemma ModuleFunctionRunStep(tables: seq<Table>, t: Table, s0: seq<SymbolData>, m0: map<(nat, SymName), nat>,
                              mo: nat, args: seq<Expr>, i: nat)
    requires i < |args| && |tables| == i + 1 && ModuleFunctionRun(tables, s0, m0, tables[i].0, tables[i].1, mo, args[..i])
    requires TableInvariant(t.0, t.1) && ModuleFunctionStep(tables[i], t, mo, args[i])
    ensures ModuleFunctionRun(tables + [t], s0, m0, t.0, t.1, mo, args[..i + 1])
    ensures ArgsDiagnostics(tables + [t], mo, args[..i + 1]) == ArgsDiagnostics(tables, mo, args[..i]) + ArgDiagnostics(tables[i], mo, args[i])
    ensures MissingCount(tables + [t], mo, args[..i + 1])
            == MissingCount(tables, mo, args[..i]) + CountClass(ArgDiagnostics(tables[i], mo, args[i]), MethodNotFound)
  {
    var t2 := tables + [t];
    assert forall k :: 0 <= k < i ==> args[..i + 1][k] == args[..i][k];
    assert forall k :: 0 <= k < i + 1 ==> t2[k] == tables[k];
    ModuleFunctionRunSnoc(tables, t, s0, m0, mo, args, i);
    assert t2[..|tables|] == tables;
    assert args[..i + 1][..i] == args[..i];
    ArgsDiagnosticsPrefix(tables, t2, mo, args[..i]);
    var d := ArgDiagnostics(tables[i], mo, args[i]);
    assert CountClass(d, MethodNotFound) == (if d == [Error(args[i].Location(), MethodNotFound)] then 1 else 0) by {
      if d != [] {
        assert d[..0] == [];
      }
    }
  }

  lemma ModuleFunctionRunSnoc(tables: seq<Table>, t: Table, s0: seq<SymbolData>, m0: map<(nat, SymName), nat>,
                              mo: nat, args: seq<Expr>, i: nat)
    requires i < |args| && |tables| == i + 1 && ModuleFunctionRun(tables, s0, m0, tables[i].0, tables[i].1, mo, args[..i])
    requires TableInvariant(t.0, t.1) && ModuleFunctionStep(tables[i], t, mo, args[i])
    ensures ModuleFunctionRun(tables + [t], s0, m0, t.0, t.1, mo, args[..i + 1])
  {
    assert args[..i + 1] == args[..i] + [args[i]];
    RunAppend(tables, t, s0, m0, mo, args[..i], args[i]);
  }

  lemma RunAppend(tables: seq<Table>, t: Table, s0: seq<SymbolData>, m0: map<(nat, SymName), nat>,
                  mo: nat, done: seq<Expr>, arg: Expr)
    requires |tables| == |done| + 1 && ModuleFunctionRun(tables, s0, m0, tables[|done|].0, tables[|done|].1, mo, done)
    requires TableInvariant(t.0, t.1) && ModuleFunctionStep(tables[|done|], t, mo, arg)
    ensures ModuleFunctionRun(tables + [t], s0, m0, t.0, t.1, mo, done + [arg])
  {
    var t2, a2 := tables + [t], done + [arg];
    TablesAppend(tables, t);
    forall k | 0 <= k < |done|
      ensures ModuleFunctionStep(t2[k], t2[k + 1], mo, a2[k]) == ModuleFunctionStep(tables[k], tables[k + 1], mo, done[k])
    {
      assert t2[k] == tables[k] && t2[k + 1] == tables[k + 1] && a2[k] == done[k];
    }
    assert t2[|done|] == tables[|done|] && t2[|done| + 1] == t && a2[|done|] == arg;
  }

  lemma TablesAppend(tables: seq<Table>, t: Table)
    requires forall k :: 0 <= k < |tables| ==> TableInvariant(tables[k].0, tables[k].1)
    requires TableInvariant(t.0, t.1)
    ensures forall k :: 0 <= k < |tables + [t]| ==> TableInvariant((tables + [t])[k].0, (tables + [t])[k].1)
  {
    forall k | 0 <= k < |tables + [t]| ensures TableInvariant((tables + [t])[k].0, (tables + [t])[k].1) {
      var x := if k < |tables| then tables[k] else t;
      assert (tables + [t])[k] == x;
    }
  }

  /** No member entry is lost along the loop, so an argument whose method
      existed before the loop finds one at its turn. */
  lemma ModuleFunctionRunFindsOld(tables: seq<Table>, s0: seq<SymbolData>, m0: map<(nat, SymName), nat>,
                                  s: seq<SymbolData>, m: map<(nat, SymName), nat>, mo: nat, args: seq<Expr>)
    requires ModuleFunctionRun(tables, s0, m0, s, m, mo, args)
    ensures forall k :: 0 <= k < |args| ==>
              (args[k].IsSymbolLiteral() && MemberIn(s0, m0, mo, Plain(args[k].value.symbolName)) != NoSymbol ==>
                 ArgDiagnostics(tables[k], mo, args[k]) == [])
  {
    assert forall j :: 0 <= j < |tables| - 1 ==> tables[j].1.Keys <= tables[j + 1].1.Keys;
    forall k | 0 <= k < |args| && args[k].IsSymbolLiteral() && MemberIn(s0, m0, mo, Plain(args[k].value.symbolName)) != NoSymbol
      ensures ArgDiagnostics(tables[k], mo, args[k]) == []
    {
      KeysKept(tables, k);
    }
  }

  lemma {:induction false} KeysKept(tables: seq<Table>, k: nat)
    requires k < |tables| && forall j :: 0 <= j < |tables| - 1 ==> tables[j].1.Keys <= tables[j + 1].1.Keys
    ensures tables[0].1.Keys <= tables[k].1.Keys
  {
    if k > 0 {
      KeysKept(tables, k - 1);
    }
  }

  // ---------------------------------------------------------------------
  // Sends

  /** A send whose only argument is a method definition, as in
      `private def f; end`. */
  predicate IsMethodDefSend(send: Expr) {
    send.Send? && |send.args| == 1 && send.args[0].MethodDef?
  }

  /** The visibility a modifier applied to a method definition sets. */
  function VisibilityModifier(fun: NameId): (v: Option<Visibility>)
    ensures v == Some(Private) <==> fun == PrivateName || fun == PrivateClassMethod
    ensures v == Some(Protected) <==> fun == ProtectedName
    ensures v == Some(Public) <==> fun == PublicName
  {
    if fun == PrivateName || fun == PrivateClassMethod then Some(Private)
    else if fun == ProtectedName then Some(Protected)
    else if fun == PublicName then Some(Public)
    else None
  }

  /** The number of arguments that are not symbol literals. */
  function NonSymbolCount(args: seq<Expr>): (n: nat)
    ensures n <= |args|
  {
    if args == [] then 0
    else NonSymbolCount(args[..|args| - 1]) + (if args[|args| - 1].IsSymbolLiteral() then 0 else 1)
  }

  lemma NonSymbolCountStep(args: seq<Expr>, i: nat)
    requires i < |args|
    ensures NonSymbolCount(args[..i + 1]) == NonSymbolCount(args[..i]) + NonSymbolCount([args[i]])
  {
    assert args[..i + 1][..i] == args[..i];
    assert [args[i]][..0] == [];
  }

  // ---------------------------------------------------------------------
  // Class bodies

  /** A line of a class body that `addAncestor` takes out of the body. */
  predicate ConsumesAncestors(line: Expr) {
    && line.Send? && (line.fun == Include || line.fun == Extend) && line.recv.IsSelfReference()
    && line.args != [] && line.block.None?
  }

  /** The lines of a class body that survive the namer DSL pass, in order. */
  function RemainingLines(body: seq<Expr>): (r: seq<Expr>)
    ensures forall e :: e in r ==> e in body && !ConsumesAncestors(e)
    ensures |r| <= |body|
  {
    if body == [] then []
    else RemainingLines(body[..|body| - 1]) + (if ConsumesAncestors(body[|body| - 1]) then [] else [body[|body| - 1]])
  }

  /** Every line that `addAncestor` does not consume survives. */
  lemma {:induction false} RemainingLinesKeepsOthers(body: seq<Expr>, j: nat)
    requires j < |body| && !ConsumesAncestors(body[j])
    ensures body[j] in RemainingLines(body)
    decreases |body|
  {
    if j < |body| - 1 {
      RemainingLinesKeepsOthers(body[..|body| - 1], j);
    }
  }

  /** The ancestors that one `include` (or `extend`) line adds. */
  function LineAncestors(line: Expr, fun: NameId): seq<Expr> {
    if ConsumesAncestors(line) && line.fun == fun then AncestorWalk(line.args) else []
  }

  /** The ancestors that the `include` (or `extend`) lines of a body add. */
  function DSLAncestors(body: seq<Expr>, fun: NameId): seq<Expr> {
    if body == [] then []
    else DSLAncestors(body[..|body| - 1], fun) + LineAncestors(body[|body| - 1], fun)
  }

  /** One more line of a class body. */
  lemma ClassBodyStep(body: seq<Expr>, i: nat)
    requires i < |body|
    ensures RemainingLines(body[..i + 1]) == RemainingLines(body[..i]) + (if ConsumesAncestors(body[i]) then [] else [body[i]])
  {
    assert body[..i + 1][..i] == body[..i];
  }

  lemma DSLAncestorsStep(body: seq<Expr>, i: nat, fun: NameId)
    requires i < |body|
    ensures DSLAncestors(body[..i + 1], fun) == DSLAncestors(body[..i], fun) + LineAncestors(body[i], fun)
  {
    assert body[..i + 1][..i] == body[..i];
  }

  lemma AppendAssoc<T>(a: seq<T>, b: seq<T>, c: seq<T>)
    ensures a + (b + c) == (a + b) + c
  {
  }

  /** What handling line `i` of a class body does to the lines kept so far. */
  lemma FilterStepKept(body: seq<Expr>, i: nat, kept: seq<Expr>, remove: bool)
    requires i < |body| && kept == RemainingLines(body[..i])
    requires remove <==> ConsumesAncestors(body[i])
    ensures (if remove then kept else kept + [body[i]]) == RemainingLines(body[..i + 1])
  {
    ClassBodyStep(body, i);
  }

  /** What handling line `i` of a class body does to an ancestor list. */
  lemma FilterStepList(start: seq<Expr>, body: seq<Expr>, i: nat, fun: NameId, before: seq<Expr>, after: seq<Expr>)
    requires i < |body| && before == start + DSLAncestors(body[..i], fun)
    requires after == before + LineAncestors(body[i], fun)
    ensures after == start + DSLAncestors(body[..i + 1], fun)
  {
    DSLAncestorsStep(body, i, fun);
    AppendAssoc(start, DSLAncestors(body[..i], fun), LineAncestors(body[i], fun));
  }

  /** What a line left in a class body declares about the class: `final!`
      makes it final, `abstract!` abstract, and `interface!` abstract and an
      interface, whatever the receiver. Every other line, an
      `include`/`extend` among them, leaves the settings alone. */
  function LineSettings(c: ClassSettings, line: Expr): ClassSettings {
    if !line.Send? then c
    else if line.fun == DeclareFinal then c.(isFinal := true)
    else if line.fun == DeclareAbstract then c.(isAbstract := true)
    else if line.fun == DeclareInterface then c.(isAbstract := true, isInterface := true)
    else c
  }

  /** The declarations of a class body applied in order. */
  function BodySettings(c: ClassSettings, body: seq<Expr>): ClassSettings
    decreases |body|
  {
    if body == [] then c else LineSettings(BodySettings(c, body[..|body| - 1]), body[|body| - 1])
  }

  lemma BodySettingsStep(c: ClassSettings, body: seq<Expr>, i: nat)
    requires i < |body|
    ensures BodySettings(c, body[..i + 1]) == LineSettings(BodySettings(c, body[..i]), body[i])
  {
    assert body[..i + 1][..i] == body[..i];
  }

  /** Some line of the body is a call of `fun`. */
  ghost predicate Declares(body: seq<Expr>, fun: NameId) {
    exists j :: 0 <= j < |body| && IsCallOf(body[j], fun)
  }

  predicate IsCallOf(line: Expr, fun: NameId) {
    line.Send? && line.fun == fun
  }

  lemma DeclaresStep(body: seq<Expr>, fun: NameId)
    requires body != []
    ensures Declares(body, fun) <==> Declares(body[..|body| - 1], fun) || IsCallOf(body[|body| - 1], fun)
  {
    var init := body[..|body| - 1];
    if Declares(body, fun) && !IsCallOf(body[|body| - 1], fun) {
      var j :| 0 <= j < |body| && IsCallOf(body[j], fun);
      assert init[j] == body[j];
    }
    if Declares(init, fun) {
      var j :| 0 <= j < |init| && IsCallOf(init[j], fun);
      assert body[j] == init[j];
    }
  }

  /** The order of the lines does not matter and the superclass is never
      touched: a class is final when some line is `final!`, abstract when
      some line is `abstract!` or `interface!`, and an interface when some
      line is `interface!`. */
  lemma {:induction false} BodySettingsEffect(c: ClassSettings, body: seq<Expr>)
    ensures BodySettings(c, body) ==
              ClassSettings(c.superClass,
                            c.isFinal || Declares(body, DeclareFinal),
                            c.isAbstract || Declares(body, DeclareAbstract) || Declares(body, DeclareInterface),
                            c.isInterface || Declares(body, DeclareInterface))
    decreases |body|
  {
    if body != [] {
      BodySettingsEffect(c, body[..|body| - 1]);
      DeclaresStep(body, DeclareFinal);
      DeclaresStep(body, DeclareAbstract);
      DeclaresStep(body, DeclareInterface);
    }
  }

  /** The diagnostics `handleNamerDSL` reports for one line of a class body:
      the misuses of `include`/`extend` on `self`, the dynamic ancestors of
      a consumed line, and `interface!` inside a class. */
  function LineDiagnostics(kind: ClassDefKind, line: Expr): seq<Diagnostic> {
    if line.Send? && (line.fun == Include || line.fun == Extend) && line.recv.IsSelfReference() then
      if line.args == [] then [Error(line.loc, IncludeMutipleParam)]
      else if line.block.Some? then [Error(line.loc, IncludePassedBlock)]
      else AncestorWalkDiagnostics(line.args)
    else if IsCallOf(line, DeclareInterface) && kind == ClassKind then [Error(line.loc, InterfaceClass)]
    else []
  }

  /** The diagnostics of a whole class body, in order. */
  function BodyDiagnostics(kind: ClassDefKind, body: seq<Expr>): seq<Diagnostic>
    decreases |body|
  {
    if body == [] then [] else BodyDiagnostics(kind, body[..|body| - 1]) + LineDiagnostics(kind, body[|body| - 1])
  }

  lemma BodyDiagnosticsStep(kind: ClassDefKind, body: seq<Expr>, i: nat)
    requires i < |body|
    ensures BodyDiagnostics(kind, body[..i + 1]) == BodyDiagnostics(kind, body[..i]) + LineDiagnostics(kind, body[i])
  {
    assert body[..i + 1][..i] == body[..i];
  }

  /** Some diagnostic is of class `c`. */
  ghost predicate Reports(ds: seq<Diagnostic>, c: ErrorClass) {
    exists j :: 0 <= j < |ds| && ds[j].errorClass == c
  }

  lemma ReportsAppend(a: seq<Diagnostic>, b: seq<Diagnostic>, c: ErrorClass)
    ensures Reports(a + b, c) <==> Reports(a, c) || Reports(b, c)
  {
    if Reports(a + b, c) {
      var j :| 0 <= j < |a + b| && (a + b)[j].errorClass == c;
      if j >= |a| {
        assert b[j - |a|] == (a + b)[j];
      }
    }
    if Reports(a, c) {
      var j :| 0 <= j < |a| && a[j].errorClass == c;
      assert (a + b)[j] == a[j];
    }
    if Reports(b, c) {
      var j :| 0 <= j < |b| && b[j].errorClass == c;
      assert (a + b)[|a| + j] == b[j];
    }
  }

  /** The ancestor walk only ever complains about dynamic ancestors. */
  lemma {:induction false} AncestorWalkReportsOnlyDynamic(args: seq<Expr>)
    ensures forall j :: 0 <= j < |AncestorWalkDiagnostics(args)| ==>
              AncestorWalkDiagnostics(args)[j].errorClass == AncestorNotConstant
  {
    if args != [] {
      AncestorWalkReportsOnlyDynamic(args[1..]);
    }
  }

  /** `interface!` is reported exactly for a class, as opposed to a module,
      whose body declares it. */
  lemma {:induction false} InterfaceClassReported(kind: ClassDefKind, body: seq<Expr>)
    ensures Reports(BodyDiagnostics(kind, body), InterfaceClass) <==> kind == ClassKind && Declares(body, DeclareInterface)
    decreases |body|
  {
    if body != [] {
      var line := body[|body| - 1];
      InterfaceClassReported(kind, body[..|body| - 1]);
      DeclaresStep(body, DeclareInterface);
      ReportsAppend(BodyDiagnostics(kind, body[..|body| - 1]), LineDiagnostics(kind, line), InterfaceClass);
      var ds := LineDiagnostics(kind, line);
      if line.Send? && (line.fun == Include || line.fun == Extend) && line.recv.IsSelfReference() {
        if line.args != [] && line.block.None? {
          AncestorWalkReportsOnlyDynamic(line.args);
        }
        assert !Reports(ds, InterfaceClass);
      } else if IsCallOf(line, DeclareInterface) && kind == ClassKind {
        assert ds[0].errorClass == InterfaceClass;
      } else {
        assert ds == [];
      }
      assert Reports(ds, InterfaceClass) <==> kind == ClassKind && IsCallOf(line, DeclareInterface);
    }
  }

  /** The loop invariant of `FilterNamerDSL` after `i` lines. */
  ghost predicate FilteredSoFar(kind: ClassDefKind, body: seq<Expr>, i: nat, lists: AncestorLists, kept: seq<Expr>,
                                r: AncestorLists, e00: seq<Diagnostic>, errors: seq<Diagnostic>, c0: ClassSettings, cs: ClassSettings)
    requires i <= |body|
  {
    && kept == RemainingLines(body[..i])
    && r.ancestors == lists.ancestors + DSLAncestors(body[..i], Include)
    && r.singletonAncestors == lists.singletonAncestors + DSLAncestors(body[..i], Extend)
    && errors == e00 + BodyDiagnostics(kind, body[..i])
    && cs == BodySettings(c0, body[..i])
  }

  /** Handling line `i` keeps the invariant of `FilterNamerDSL`. */
  lemma FilterStep(kind: ClassDefKind, body: seq<Expr>, i: nat, lists: AncestorLists, kept: seq<Expr>, r: AncestorLists,
                   e00: seq<Diagnostic>, e0: seq<Diagnostic>, c0: ClassSettings, cs0: ClassSettings,
                   remove: bool, next: AncestorLists, e1: seq<Diagnostic>, cs1: ClassSettings)
    requires i < |body| && FilteredSoFar(kind, body, i, lists, kept, r, e00, e0, c0, cs0)
    requires remove <==> ConsumesAncestors(body[i])
    requires next.ancestors == r.ancestors + LineAncestors(body[i], Include)
    requires next.singletonAncestors == r.singletonAncestors + LineAncestors(body[i], Extend)
    requires e1 == e0 + LineDiagnostics(kind, body[i]) && cs1 == LineSettings(cs0, body[i])
    ensures FilteredSoFar(kind, body, i + 1, lists, if remove then kept else kept + [body[i]], next, e00, e1, c0, cs1)
  {
    FilterStepState(kind, body, i, e00, e0, e1, c0, cs0, cs1);
    FilterStepKept(body, i, kept, remove);
    FilterStepList(lists.ancestors, body, i, Include, r.ancestors, next.ancestors);
    FilterStepList(lists.singletonAncestors, body, i, Extend, r.singletonAncestors, next.singletonAncestors);
  }

  /** What handling line `i` of a class body does to the diagnostics and
      the class settings so far. */
  lemma FilterStepState(kind: ClassDefKind, body: seq<Expr>, i: nat, e00: seq<Diagnostic>, e0: seq<Diagnostic>, e1: seq<Diagnostic>,
                        c0: ClassSettings, cs0: ClassSettings, cs1: ClassSettings)
    requires i < |body| && e0 == e00 + BodyDiagnostics(kind, body[..i]) && e1 == e0 + LineDiagnostics(kind, body[i])
    requires cs0 == BodySettings(c0, body[..i]) && cs1 == LineSettings(cs0, body[i])
    ensures e1 == e00 + BodyDiagnostics(kind, body[..i + 1]) && cs1 == BodySettings(c0, body[..i + 1])
  {
    BodyDiagnosticsStep(kind, body, i);
    AppendAssoc(e00, BodyDiagnostics(kind, body[..i]), LineDiagnostics(kind, body[i]));
    BodySettingsStep(c0, body, i);
  }

  /** The singleton ancestors the IDE keeps, in order. */
  function KeptSingletonAncestors(ancs: seq<Expr>): (r: seq<Expr>)
    ensures forall e :: e in r ==> exists j :: 0 <= j < |ancs| && ShouldLeaveAncestorForIDE(ancs[j]) && e == KeepForIDE(ancs[j])
  {
    if ancs == [] then []
    else
      var a := ancs[|ancs| - 1];
      KeptSingletonAncestors(ancs[..|ancs| - 1]) + (if ShouldLeaveAncestorForIDE(a) then [KeepForIDE(a)] else [])
  }

  /** The `KeepForIDE` statements `postTransformClassDef` places before the
      class: the class name if it is a resolved constant, and a class's
      superclass if the IDE needs it. */
  function IdeStats(klass: Expr, checked: seq<Expr>): (r: seq<Expr>)
    requires klass.ClassDef?
    ensures klass.className.ConstantLit? ==> |r| >= 1 && r[0] == KeepForIDE(klass.className)
    ensures klass.classKind == ModuleKind || checked == [] ==> |r| == (if klass.className.ConstantLit? then 1 else 0)
  {
    (if klass.className.ConstantLit? then [KeepForIDE(klass.className)] else [])
    + (if klass.classKind == ClassKind && checked != [] && ShouldLeaveAncestorForIDE(checked[0])
       then [KeepForIDE(checked[0])] else [])
  }

  /** The class `k` that `postTransformClassDef` makes of `klass`: the
      `include`/`extend` lines leave the body and their arguments join the
      ancestor lists; invalid ancestors become the empty tree; and the
      ancestors the IDE needs are appended to the body. */
  predicate RewrittenClass(klass: Expr, k: Expr)
    requires klass.ClassDef?
  {
    var ancs := klass.ancestors + DSLAncestors(klass.body, Include);
    && k.ClassDef?
    && k == klass.(ancestors := k.ancestors, singletonAncestors := k.singletonAncestors, body := k.body)
    && |k.ancestors| == |ancs|
    && (forall j :: 0 <= j < |ancs| ==> k.ancestors[j] == CheckedAncestor(ancs[j]))
    && k.singletonAncestors == klass.singletonAncestors + DSLAncestors(klass.body, Extend)
    && k.body == RemainingLines(klass.body) + KeptAncestors(klass.classKind == ModuleKind, ancs)
                 + KeptSingletonAncestors(k.singletonAncestors)
  }

  /** After the rewrite every ancestor is a constant path, every line that
      is not an `include`/`extend` survives, and every ancestor the IDE
      needs is in the body. */
  lemma RewrittenClassProperties(klass: Expr, k: Expr)
    requires klass.ClassDef? && RewrittenClass(klass, k)
    ensures forall j :: 0 <= j < |k.ancestors| ==> IsValidAncestor(k.ancestors[j])
    ensures forall j :: 0 <= j < |klass.body| && !ConsumesAncestors(klass.body[j]) ==> klass.body[j] in k.body
    ensures forall j :: 0 <= j < |klass.ancestors| && KeptForIDE(klass.classKind == ModuleKind, klass.ancestors[j], j) ==>
              KeepForIDE(klass.ancestors[j]) in k.body
  {
    var ancs := klass.ancestors + DSLAncestors(klass.body, Include);
    forall j | 0 <= j < |klass.body| && !ConsumesAncestors(klass.body[j])
      ensures klass.body[j] in k.body
    {
      RemainingLinesKeepsOthers(klass.body, j);
    }
    forall j | 0 <= j < |klass.ancestors| && KeptForIDE(klass.classKind == ModuleKind, klass.ancestors[j], j)
      ensures KeepForIDE(klass.ancestors[j]) in k.body
    {
      assert ancs[j] == klass.ancestors[j];
      KeptAncestorsComplete(klass.classKind == ModuleKind, ancs, j);
    }
  }

  /** Marking a class and then its singleton class final (or abstract)
      changes only that flag of the class's settings. */
  lemma MarkedFinal(s0: seq<SymbolData>, s1: seq<SymbolData>, s2: seq<SymbolData>, s3: seq<SymbolData>, sym: nat, singleton: nat)
    requires sym < |s0| && singleton < |s2| && |s0| == |s1| <= |s2|
    requires s1 == s0[sym := s0[sym].(isFinal := true)]
    requires s2[sym] == s1[sym].(singleton := Some(singleton))
    requires s3 == s2[singleton := s2[singleton].(isFinal := true)]
    ensures SettingsOf(s3[sym]) == SettingsOf(s0[sym]).(isFinal := true)
    ensures s3[sym].singleton == Some(singleton) && s3[singleton].isFinal
  {
  }

  lemma MarkedAbstract(s0: seq<SymbolData>, s1: seq<SymbolData>, s2: seq<SymbolData>, s3: seq<SymbolData>, sym: nat, singleton: nat)
    requires sym < |s0| && singleton < |s2| && |s0| == |s1| <= |s2|
    requires s1 == s0[sym := s0[sym].(isAbstract := true)]
    requires s2[sym] == s1[sym].(singleton := Some(singleton))
    requires s3 == s2[singleton := s2[singleton].(isAbstract := true)]
    ensures SettingsOf(s3[sym]) == SettingsOf(s0[sym]).(isAbstract := true)
    ensures s3[sym].singleton == Some(singleton) && s3[singleton].isAbstract
  {
  }

  /** `class << self` names the singleton class of the enclosing class. */
  predicate IsSingletonIdent(name: Expr) {
    name.UnresolvedIdent? && name.name == SingletonName
  }

  /** A class definition whose kind (`class` or `module`) disagrees with the
      kind already recorded for its symbol. */
  predicate KindMismatch(d: SymbolData, klass: Expr)
    requires klass.ClassDef?
  {
    d.isModule.Some? && d.isModule.value != (klass.classKind == ModuleKind)
  }

  /** What the kind check of `preTransformClassDef` does to the table
      `before` for the definition `klass` of `sym`, leaving `after` and the
      class `r` the definition goes on with: a symbol that is not a class
      is renamed out of the way and a new class of the same owner and name,
      with the definition's kind, takes its place; a class of the other kind
      is left alone; otherwise the class's kind is recorded. */
  ghost predicate KindChecked(before: seq<SymbolData>, sym: nat, klass: Expr, after: seq<SymbolData>, r: nat)
    requires klass.ClassDef? && sym < |before|
  {
    var isModule := Some(klass.classKind == ModuleKind);
    if before[sym].kind != ClassOrModule then
      && r == |before| && sym < r < |after| && after[r].kind == ClassOrModule
      && after[r].owner == before[sym].owner && after[r].name == before[sym].name && after[r].isModule == isModule
      && after[sym].name == MangleRenamed(before[sym].name, |before|)
    else if KindMismatch(before[sym], klass) then r == sym && after == before
    else r == sym && after == before[sym := before[sym].(isModule := isModule)]
  }

  /** The kind check reports a redefinition unless `sym` is a class of the
      definition's kind or of no recorded kind yet. */
  function KindCheckErrors(before: seq<SymbolData>, sym: nat, klass: Expr): seq<Diagnostic>
    requires klass.ClassDef? && sym < |before|
  {
    if before[sym].kind != ClassOrModule || KindMismatch(before[sym], klass) then [Error(klass.loc, ModuleKindRedefinition)]
    else []
  }

  /** The diagnostic the behavior-location bookkeeping draws: a class that
      defines behavior outside RBI files in a second file. */
  function BehaviorLocErrors(locs: map<nat, Loc>, sym: nat, declLoc: Loc, definesBehavior: bool, rbiFiles: set<nat>): seq<Diagnostic> {
    if sym != Root && declLoc.file !in rbiFiles && definesBehavior && sym in locs && locs[sym].file != declLoc.file
    then [Error(declLoc, MultipleBehaviorDefs)]
    else []
  }

  // ---------------------------------------------------------------------
  // Type members

  /** The variance the first argument of `type_member`/`type_template`
      declares, and the diagnostic a bad first argument draws. */
  function DeclaredVariance(sendLoc: Loc, args: seq<Expr>): (r: (Variance, seq<Diagnostic>))
    requires 1 <= |args| <= 2
    ensures r.0 != Invariant ==> args[0].IsSymbolLiteral() && VarianceOf(args[0].value.symbolName) == Some(r.0)
    ensures args[0].IsSymbolLiteral() && VarianceOf(args[0].value.symbolName).Some? ==>
              r == (VarianceOf(args[0].value.symbolName).value, [])
    ensures args[0].IsSymbolLiteral() && VarianceOf(args[0].value.symbolName).None? ==>
              r == (Invariant, [Error(args[0].Location(), InvalidTypeDefinition)])
    ensures !args[0].IsSymbolLiteral() ==>
              r.0 == Invariant && (r.1 == [] <==> |args| == 1 && args[0].Hash?)
  {
    if args[0].IsSymbolLiteral() then
      match VarianceOf(args[0].value.symbolName)
      case Some(v) => (v, [])
      case None => (Invariant, [Error(args[0].Location(), InvalidTypeDefinition)])
    else if |args| != 1 || !args[0].Hash? then (Invariant, [Error(sendLoc, InvalidTypeDefinition)])
    else (Invariant, [])
  }

  /** Some key of a type member's option hash is the symbol `name`. */
  ghost predicate HasSymbolKey(keys: seq<Expr>, name: NameId) {
    exists k :: 0 <= k < |keys| && keys[k].IsSymbolLiteral() && keys[k].value.symbolName == name
  }

  /** `m` is a symbol named `name`. */
  predicate TypeMemberNamed(gs: SymbolTable, m: nat, name: SymName)
    reads gs`symbols
  {
    m < |gs.symbols| && gs.symbols[m].name == name
  }

  /** The position of the first of `tms` named `name`, or `|tms|`. */
  function FirstNamed(gs: SymbolTable, tms: seq<nat>, name: SymName): (it: nat)
    reads gs`symbols
    ensures it <= |tms|
    ensures forall k :: 0 <= k < it ==> !TypeMemberNamed(gs, tms[k], name)
    ensures it < |tms| ==> TypeMemberNamed(gs, tms[it], name)
  {
    if tms == [] then 0
    else if TypeMemberNamed(gs, tms[0], name) then 0
    else 1 + FirstNamed(gs, tms[1..], name)
  }

  /** What `fillAssign` makes of `X = ...`: the left-hand side becomes a
      resolved constant naming a static field `X` of a class, which is that
      class's member `X`, and keeps the original name. */
  ghost predicate FilledAssign(gs: SymbolTable, asgn: Expr, r: Expr)
    requires gs.Valid() && asgn.Assign? && asgn.lhs.UnresolvedConstantLit?
    reads gs
  {
    && r.Assign? && r.loc == asgn.loc && r.rhs == asgn.rhs
    && r.lhs.ConstantLit? && r.lhs.loc == asgn.lhs.loc && r.lhs.original.Some?
    && r.lhs.original.value.UnresolvedConstantLit? && r.lhs.original.value.cnst == asgn.lhs.cnst
    && var f := r.lhs.symbol;
    && Root < f < |gs.symbols| && gs.symbols[f].kind == StaticField && gs.symbols[f].name == Plain(asgn.lhs.cnst)
    && NoSymbol < gs.symbols[f].owner && gs.IsClass(gs.symbols[f].owner)
    && gs.FindMemberNoDealias(gs.symbols[f].owner, Plain(asgn.lhs.cnst)) == f
  }

  /** `FilledAssign`, with the field entered in `scope` and the original
      name keeping the rewritten scope path `newScope`. */
  ghost predicate FilledAssignIn(gs: SymbolTable, asgn: Expr, r: Expr, scope: nat, newScope: Expr)
    requires gs.Valid() && asgn.Assign? && asgn.lhs.UnresolvedConstantLit?
    reads gs
  {
    && FilledAssign(gs, asgn, r)
    && gs.symbols[r.lhs.symbol].owner == scope
    && r.lhs.original == Some(asgn.lhs.(scope := newScope))
  }

  /** The class `fillAssign` enters a constant in (namer.cc:643-657):
      `squashNames` takes the table from `s0`, `m0` to `s`, `m` and resolves
      the scope path `path` from `ctxClass` to `squashed` and `newScope`;
      that is the class, and a `squashed` that is not a class is replaced
      by the next symbol, a new class. */
  ghost predicate ScopeChosen(s0: seq<SymbolData>, m0: map<(nat, SymName), nat>, s: seq<SymbolData>, m: map<(nat, SymName), nat>,
                              ctxClass: nat, path: Expr, squashed: nat, newScope: Expr, scope: nat)
  {
    && TableInvariant(s, m) && SquashedFrom(s0, m0, s, m, ctxClass, path, squashed, newScope)
    && squashed < |s|
    && (s[squashed].kind == ClassOrModule ==> scope == squashed)
    && (s[squashed].kind != ClassOrModule ==> scope == |s|)
  }

  /** The diagnostic of `fillAssign`'s first check: a constant assigned
      outside a class body, in a method the DSL did not synthesize. */
  function AssignScopeErrors(ctxIsClass: bool, ctxIsDSLSynthesized: bool, loc: Loc): seq<Diagnostic> {
    if !ctxIsClass && !ctxIsDSLSynthesized then [Error(loc, DynamicConstantAssignment)] else []
  }

  /** The diagnostics `fillAssign` draws while it chooses the scope of the
      constant `asgn` defines: those of `squashNames` on the scope path,
      then `InvalidClassOwner` at the assignment when the squashed symbol
      is not a class (namer.cc:643-656). */
  ghost function ScopeErrors(s: seq<SymbolData>, m: map<(nat, SymName), nat>, ctxClass: nat, asgn: Expr, squashed: nat): seq<Diagnostic>
    requires TableInvariant(s, m) && asgn.Assign? && asgn.lhs.UnresolvedConstantLit? && squashed < |s|
  {
    SquashErrors(s, m, ctxClass, asgn.lhs.scope)
    + if s[squashed].kind != ClassOrModule then [Error(asgn.loc, InvalidClassOwner)] else []
  }

  /** Whether `handleTypeMemberDefinition` rejects a type member named
      `name` defined at `loc` as a duplicate: the first type member of that
      name was defined elsewhere, in a file that still exists. */
  predicate DuplicateTypeMember(gs: SymbolTable, owner: nat, name: SymName, loc: Loc)
    requires owner < |gs.symbols|
    reads gs`symbols
  {
    var tms := gs.symbols[owner].typeMembers;
    var it := FirstNamed(gs, tms, name);
    it < |tms| && !SameOrStale(gs, tms[it], loc)
  }

  /** Looking at one more key of the option hash. */
  lemma HasSymbolKeyStep(keys: seq<Expr>, i: nat, name: NameId)
    requires i < |keys|
    ensures HasSymbolKey(keys[..i + 1], name) <==>
              HasSymbolKey(keys[..i], name) || (keys[i].IsSymbolLiteral() && keys[i].value.symbolName == name)
  {
    var next := keys[..i + 1];
    if HasSymbolKey(keys[..i], name) {
      var k :| 0 <= k < i && keys[..i][k].IsSymbolLiteral() && keys[..i][k].value.symbolName == name;
      assert next[k] == keys[k];
    }
    if keys[i].IsSymbolLiteral() && keys[i].value.symbolName == name {
      assert next[i] == keys[i];
    }
    if HasSymbolKey(next, name) {
      var k :| 0 <= k < i + 1 && next[k].IsSymbolLiteral() && next[k].value.symbolName == name;
      if k < i {
        assert keys[..i][k] == keys[k];
      }
    }
  }

  /** What one key of a type member's option hash does to the member:
      `:fixed` makes it fixed and, for now, untyped; `:lower` and `:upper`
      make it bounded; any other key is ignored. */
  function WithKey(d: SymbolData, key: Expr): SymbolData {
    if key.IsSymbolLiteral() && key.value.symbolName == Fixed then d.(isFixed := true, resultType := Untyped)
    else if key.IsSymbolLiteral() && (key.value.symbolName == Lower || key.value.symbolName == Upper) then d.(isBounded := true)
    else d
  }

  /** The keys of the option hash applied in order. */
  function WithKeys(d: SymbolData, keys: seq<Expr>): SymbolData
    decreases |keys|
  {
    if keys == [] then d else WithKey(WithKeys(d, keys[..|keys| - 1]), keys[|keys| - 1])
  }

  /** The order of the keys does not matter: the member is fixed when some
      key is `:fixed`, bounded when some key is `:lower` or `:upper`, and
      nothing else about it changes. */
  lemma {:induction false} WithKeysEffect(d: SymbolData, keys: seq<Expr>)
    ensures WithKeys(d, keys) == KeysEffect(d, HasSymbolKey(keys, Fixed), HasSymbolKey(keys, Lower) || HasSymbolKey(keys, Upper))
    decreases |keys|
  {
    if keys == [] {
      assert !HasSymbolKey(keys, Fixed) && !HasSymbolKey(keys, Lower) && !HasSymbolKey(keys, Upper);
    } else {
      var n := |keys| - 1;
      var init, key := keys[..n], keys[n];
      WithKeysEffect(d, init);
      var f, b := HasSymbolKey(init, Fixed), HasSymbolKey(init, Lower) || HasSymbolKey(init, Upper);
      assert keys[..n + 1] == keys;
      HasSymbolKeyStep(keys, n, Fixed);
      HasSymbolKeyStep(keys, n, Lower);
      HasSymbolKeyStep(keys, n, Upper);
      var fixed := key.IsSymbolLiteral() && key.value.symbolName == Fixed;
      var bound := key.IsSymbolLiteral() && (key.value.symbolName == Lower || key.value.symbolName == Upper);
      assert HasSymbolKey(keys, Fixed) == (f || fixed);
      assert (HasSymbolKey(keys, Lower) || HasSymbolKey(keys, Upper)) == (b || bound);
      assert WithKeys(d, keys) == WithKey(KeysEffect(d, f, b), key);
      WithKeyOnEffect(d, f, b, key);
    }
  }

  lemma WithKeysStep(d: SymbolData, keys: seq<Expr>, i: nat)
    requires i < |keys|
    ensures WithKeys(d, keys[..i + 1]) == WithKey(WithKeys(d, keys[..i]), keys[i])
  {
    assert keys[..i + 1][..i] == keys[..i];
  }

  lemma SeqUpdateTwice<T>(s: seq<T>, i: nat, x: T, y: T)
    requires i < |s|
    ensures s[i := x][i := y] == s[i := y]
  {
  }

  /** `d` once some keys have made it fixed (`f`) or bounded (`b`). */
  function KeysEffect(d: SymbolData, f: bool, b: bool): SymbolData {
    d.(isFixed := d.isFixed || f, isBounded := d.isBounded || b, resultType := if f then Untyped else d.resultType)
  }

  lemma WithKeyOnEffect(d: SymbolData, f: bool, b: bool, key: Expr)
    ensures var fixed := key.IsSymbolLiteral() && key.value.symbolName == Fixed;
            var bound := key.IsSymbolLiteral() && (key.value.symbolName == Lower || key.value.symbolName == Upper);
            WithKey(KeysEffect(d, f, b), key) == KeysEffect(d, f || fixed, b || bound)
  {
  }

  /** The assignment after the option hash: a `:fixed` key rewrites its
      left-hand side to the type member itself. */
  function FixedAssign(asgn: Expr, sym: nat): Expr
    requires asgn.Assign?
  {
    asgn.(lhs := ConstantLit(asgn.lhs.Location(), sym, None))
  }

  /** The keys of the option hash that ends a type member's arguments, if
      there is one. */
  function OptionKeys(args: seq<Expr>): (r: Option<seq<Expr>>)
    ensures r.Some? <==> |args| > 0 && args[|args| - 1].Hash?
  {
    if |args| > 0 && args[|args| - 1].Hash? then Some(args[|args| - 1].keys) else None
  }

  /** The option hash has a `:fixed` key. */
  ghost predicate KeysFixed(args: seq<Expr>) {
    OptionKeys(args).Some? && HasSymbolKey(OptionKeys(args).value, Fixed)
  }

  /** The option hash has a `:lower` or an `:upper` key. */
  ghost predicate KeysBounded(args: seq<Expr>) {
    OptionKeys(args).Some? && (HasSymbolKey(OptionKeys(args).value, Lower) || HasSymbolKey(OptionKeys(args).value, Upper))
  }

  /** What `handleTypeMemberDefinition` returns for a type member `sym`
      it has entered: the assignment, rewritten to the member when it is
      `:fixed`, when exactly one of `:fixed` and bounds is given; nothing
      otherwise, and nothing when there is no option hash. */
  ghost function TypeMemberResult(asgn: Expr, sym: nat): Expr
    requires asgn.Assign? && asgn.rhs.Send?
  {
    var args := asgn.rhs.args;
    if OptionKeys(args).None? || KeysFixed(args) == KeysBounded(args) then EmptyTree
    else if KeysFixed(args) then FixedAssign(asgn, sym)
    else asgn
  }

  /** What the option hash that ends `args` does to a type member that
      is neither fixed nor bounded yet. */
  lemma HashOptionEffect(args: seq<Expr>, d: SymbolData)
    requires |args| > 0 && args[|args| - 1].Hash? && !d.isFixed && !d.isBounded
    ensures HasSymbolKey(args[|args| - 1].keys, Fixed) == KeysFixed(args)
    ensures WithKeys(d, args[|args| - 1].keys)
            == d.(isFixed := KeysFixed(args), isBounded := KeysBounded(args),
                  resultType := if KeysFixed(args) then Untyped else d.resultType)
  {
    var keys := args[|args| - 1].keys;
    WithKeysEffect(d, keys);
    assert OptionKeys(args) == Some(keys);
  }

  /** The diagnostics the option hash draws: bounds are not supported, and
      exactly one of `:fixed` and bounds is required. */
  ghost function BoundsDiagnostics(args: seq<Expr>, sendLoc: Loc): seq<Diagnostic> {
    if OptionKeys(args).None? then []
    else
      (if KeysBounded(args) then [Error(sendLoc, InvalidTypeDefinition)] else [])
      + (if KeysFixed(args) == KeysBounded(args) then [Error(sendLoc, InvalidTypeDefinition)] else [])
  }

  /** The variance a type member definition declares: invariant unless its
      first argument names another. */
  function TypeMemberVariance(sendLoc: Loc, args: seq<Expr>): Variance {
    if 1 <= |args| <= 2 then DeclaredVariance(sendLoc, args).0 else Invariant
  }

  /** `sym` is the type member `asgn` defines on `onSymbol`, with the
      variance and the flags the definition declares. */
  ghost predicate DeclaredTypeMember(gs: SymbolTable, onSymbol: nat, asgn: Expr, sym: nat)
    requires asgn.Assign? && asgn.lhs.UnresolvedConstantLit? && asgn.rhs.Send?
    reads gs
  {
    var args := asgn.rhs.args;
    && Root < sym < |gs.symbols| && gs.symbols[sym].kind == TypeMember
    && gs.symbols[sym].owner == onSymbol && gs.symbols[sym].name == Plain(asgn.lhs.cnst)
    && gs.symbols[sym].variance == TypeMemberVariance(asgn.rhs.loc, args)
    && gs.symbols[sym].isFixed == KeysFixed(args) && gs.symbols[sym].isBounded == KeysBounded(args)
    && (KeysFixed(args) ==> gs.symbols[sym].resultType == Untyped)
  }

  /** A second `:fixed` key leaves the assignment as the first made it. */
  lemma FixedAssignIdempotent(asgn: Expr, sym: nat)
    requires asgn.Assign?
    ensures FixedAssign(FixedAssign(asgn, sym), sym) == FixedAssign(asgn, sym)
  {
  }

  /** `asgn` defines a type member or template: `X = type_member(...)`. */
  predicate IsTypeMemberDefinition(asgn: Expr) {
    && asgn.Assign? && asgn.lhs.UnresolvedConstantLit? && asgn.rhs.Send? && asgn.rhs.recv.IsSelfReference()
    && (asgn.rhs.fun == TypeTemplate || asgn.rhs.fun == TypeMemberName)
  }

  class NameInserter {
    /** One frame per class or method being walked; `true` when a bare
        `module_function` is active in it. */
    var scopeStack: seq<bool>
    /** `NamerCtx::classBehaviorLocs`: where each class first defined
        behavior. */
    var classBehaviorLocs: map<nat, Loc>

    constructor ()
      ensures scopeStack == [false] && classBehaviorLocs == map[]
    {
      scopeStack := [false];
      classBehaviorLocs := map[];
    }

    /** The constructor taking a shared `NamerCtx`. */
    constructor WithContext(behaviorLocs: map<nat, Loc>)
      ensures scopeStack == [false] && classBehaviorLocs == behaviorLocs
    {
      scopeStack := [false];
      classBehaviorLocs := behaviorLocs;
    }

    method EnterScope()
      modifies this
      ensures scopeStack == old(scopeStack) + [false] && classBehaviorLocs == old(classBehaviorLocs)
    {
      scopeStack := scopeStack + [false];
    }

    method ExitScope()
      requires |scopeStack| > 0
      modifies this
      ensures scopeStack == old(scopeStack)[..|old(scopeStack)| - 1] && classBehaviorLocs == old(classBehaviorLocs)
    {
      scopeStack := scopeStack[..|scopeStack| - 1];
    }

    // -------------------------------------------------------------------
    // Constant scopes

    /** The member `cnst` of `scope` in `squashNames`: the existing member,
        or a new class with its singleton. `NoSymbol`, with one
        `InvalidClassOwner` diagnostic, when it is missing and `scope` is not
        a class. */
    method ScopeMember(gs: SymbolTable, scope: nat, loc: Loc, cnst: NameId) returns (r: nat)
      requires gs.Valid() && NoSymbol < scope < |gs.symbols|
      modifies gs
      ensures gs.Valid() && Extends(old(gs.symbols), gs.symbols)
      ensures r == NoSymbol || Root < r < |gs.symbols|
      ensures var found := old(gs.FindMember(scope, Plain(cnst)));
              && (found != NoSymbol ==> r == found && unchanged(gs))
              && (found == NoSymbol && !old(gs.IsClass(scope)) ==>
                    r == NoSymbol && gs.symbols == old(gs.symbols) && gs.errors == old(gs.errors) + [Error(loc, InvalidClassOwner)])
              && (found == NoSymbol && old(gs.IsClass(scope)) ==>
                    && r == old(|gs.symbols|) && gs.IsClass(r) && gs.HasSingleton(r)
                    && gs.symbols[r].owner == scope && gs.symbols[r].name == Plain(cnst) && gs.errors == old(gs.errors))
      ensures PlainGrowth(old(gs.symbols), old(gs.members), gs.symbols, gs.members) && NewClasses(old(|gs.symbols|), gs.symbols)
      ensures r == MemberIn(gs.symbols, gs.members, scope, Plain(cnst))
      ensures gs.errors == old(gs.errors) + if r == NoSymbol then [Error(loc, InvalidClassOwner)] else []
    {
      gs.FindMemberIsMemberIn(scope, Plain(cnst));
      r := gs.FindMember(scope, Plain(cnst));
      if r != NoSymbol {
        return;
      }
      if !gs.IsClass(scope) {
        gs.Report(loc, InvalidClassOwner);
        return NoSymbol;
      }
      r := EnterScopeClass(gs, scope, loc, cnst);
    }

    /** The missing member `cnst` of the class `scope`: a new class, with
        its singleton class forced into existence. */
    method EnterScopeClass(gs: SymbolTable, scope: nat, loc: Loc, cnst: NameId) returns (r: nat)
      requires gs.Valid() && NoSymbol < scope && gs.IsClass(scope) && gs.FindMember(scope, Plain(cnst)) == NoSymbol
      modifies gs
      ensures gs.Valid() && Extends(old(gs.symbols), gs.symbols) && gs.errors == old(gs.errors)
      ensures r == old(|gs.symbols|) && gs.IsClass(r) && gs.HasSingleton(r)
      ensures gs.symbols[r].owner == scope && gs.symbols[r].name == Plain(cnst)
      ensures PlainGrowth(old(gs.symbols), old(gs.members), gs.symbols, gs.members) && NewClasses(old(|gs.symbols|), gs.symbols)
      ensures r == MemberIn(gs.symbols, gs.members, scope, Plain(cnst))
    {
      ghost var s0, m0 := gs.symbols, gs.members;
      r := gs.EnterClassSymbol(loc, scope, Plain(cnst));
      ghost var s1, m1 := gs.symbols, gs.members;
      var singleton := gs.SingletonClass(r);
      ExtendsTransitive(s0, s1, gs.symbols);
      assert gs.symbols[..|s0|] == s0 by {
        assert gs.symbols[..|s0|] == gs.symbols[..|s1|][..|s0|];
      }
      assert gs.symbols[r] == s1[r].(singleton := Some(singleton));
      EnteredClassGrowth(s0, m0, gs.symbols, gs.members, scope, Plain(cnst), r);
    }

    /** `squashNames`: resolves the scope path of a class or constant name
        to a class, entering missing classes (with their singletons) on the
        way, and rewrites the path into resolved constants. */
    method SquashNames(gs: SymbolTable, owner: nat, node: Expr) returns (sym: nat, r: Expr)
      requires gs.Valid() && NoSymbol < owner < |gs.symbols| && ScopeRefsBelow(node, |gs.symbols|)
      modifies gs
      ensures gs.Valid() && Extends(old(gs.symbols), gs.symbols) && old(gs.errors) <= gs.errors
      ensures NoSymbol < sym < |gs.symbols| && IsValidAncestor(r)
      ensures r.EmptyTree? ==> sym == owner
      ensures r.EmptyTree? || r.ConstantLit?
      ensures r.ConstantLit? ==> r.Location() == node.Location()
      ensures node.ConstantLit? ==>
                r == node && sym == old(gs.Dealias(node.symbol, DealiasDepth)) && unchanged(gs)
      ensures !node.ConstantLit? && !node.UnresolvedConstantLit? ==>
                && r.EmptyTree? && gs.symbols == old(gs.symbols) && gs.members == old(gs.members)
                && gs.errors == old(gs.errors) + DynamicScopeDiagnostics(node)
      ensures node.UnresolvedConstantLit? && r.ConstantLit? ==>
                r.symbol == sym && r.original.Some? && r.original.value.UnresolvedConstantLit? && r.original.value.cnst == node.cnst
      ensures SquashedFrom(old(gs.symbols), old(gs.members), gs.symbols, gs.members, owner, node, sym, r)
      ensures gs.errors == old(gs.errors) + SquashErrors(gs.symbols, gs.members, owner, node)
      decreases node
    {
      if !node.UnresolvedConstantLit? {
        if node.ConstantLit? {
          gs.DealiasIsDealiasIn(node.symbol, DealiasDepth);
          return gs.Dealias(node.symbol, DealiasDepth), node;
        }
        gs.ReportAll(DynamicScopeDiagnostics(node));
        return owner, EmptyTree;
      }
      ghost var s0, m0 := gs.symbols, gs.members;
      var newOwner, newScope := SquashNames(gs, owner, node.scope);
      ExtendsTransitive(old(gs.symbols), s0, gs.symbols);
      sym, r := SquashMember(gs, s0, m0, old(gs.errors), owner, node, newOwner, newScope);
    }

    /** The last step of `squashNames`, once the scope path of `node` is
        squashed to `newOwner` and `newScope`: the member of the last name,
        entered as a class when the scope is a class and it is missing,
        or `owner` and an empty tree after an `InvalidClassOwner`. */
    method SquashMember(gs: SymbolTable, ghost s0: seq<SymbolData>, ghost m0: map<(nat, SymName), nat>, ghost e0: seq<Diagnostic>,
                        owner: nat, node: Expr, newOwner: nat, newScope: Expr) returns (sym: nat, r: Expr)
      requires gs.Valid() && node.UnresolvedConstantLit? && NoSymbol < owner < |s0| && ScopeRefsBelow(node, |s0|)
      requires Extends(s0, gs.symbols) && NoSymbol < newOwner < |gs.symbols|
      requires SquashedFrom(s0, m0, gs.symbols, gs.members, owner, node.scope, newOwner, newScope)
      requires gs.errors == e0 + SquashErrors(gs.symbols, gs.members, owner, node.scope)
      modifies gs
      ensures gs.Valid() && Extends(s0, gs.symbols) && e0 <= gs.errors
      ensures NoSymbol < sym < |gs.symbols| && (r.EmptyTree? || r.ConstantLit?) && (r.EmptyTree? ==> sym == owner)
      ensures r.ConstantLit? ==>
                && r.Location() == node.Location() && r.symbol == sym
                && r.original.Some? && r.original.value.UnresolvedConstantLit? && r.original.value.cnst == node.cnst
      ensures SquashedFrom(s0, m0, gs.symbols, gs.members, owner, node, sym, r)
      ensures gs.errors == e0 + SquashErrors(gs.symbols, gs.members, owner, node)
    {
      ghost var s1, m1, e1 := gs.symbols, gs.members, gs.errors;
      var existing := ScopeMember(gs, newOwner, node.loc, node.cnst);
      ExtendsTransitive(s0, s1, gs.symbols);
      SquashedStep(s0, m0, s1, m1, gs.symbols, gs.members, owner, node, newOwner, newScope, existing);
      ScopeRefsBelowGrow(node.scope, |s0|, |s1|);
      SquashErrorsStep(s1, m1, gs.symbols, gs.members, owner, node, existing, e0, e1, gs.errors);
      if existing == NoSymbol {
        return owner, EmptyTree;
      }
      sym := existing;
      r := ConstantLit(node.loc, existing, Some(node.(scope := newScope)));
    }

    // -------------------------------------------------------------------
    // Method arguments

    /** `arg2Symbol`: a parameter at a known position only moves that
        argument's location; at a new position it enters an argument with
        the parameter's flags. */
    method ArgToSymbol(gs: SymbolTable, m: nat, pos: nat, arg: ParsedArg) returns (e: Expr)
      requires gs.Valid() && Root < m < |gs.symbols|
      modifies gs
      ensures gs.Valid() && gs.symbols == old(gs.symbols) && gs.members == old(gs.members) && gs.errors == old(gs.errors)
      ensures var a := old(gs.Arguments(m));
              gs.arguments == old(gs.arguments)[m :=
                if pos < |a| then a[pos := a[pos].(loc := arg.loc)] else a + [FreshArg(arg, pos)]]
      ensures e == ArgExpr(arg.(shadow := false), pos < |old(gs.Arguments(m))|)
    {
      var args := gs.Arguments(m);
      if pos < |args| {
        gs.SetArguments(m, args[pos := args[pos].(loc := arg.loc)]);
        return Local(arg.loc, arg.local);
      }
      var index := gs.EnterMethodArgumentSymbol(arg.loc, m, ArgName(arg, pos));
      var info := gs.Arguments(m)[index];
      assert info == ArgInfo(ArgName(arg, pos), arg.loc, ArgFlags(false, false, false, false));
      // Each flag is raised when the parameter has it.
      info := info.(flags := ArgFlags(arg.keyword, arg.block, arg.repeated, arg.default_.Some?));
      e := if arg.default_.Some? then OptionalArg(arg.loc, Local(arg.loc, arg.local), arg.default_.value)
           else Local(arg.loc, arg.local);
      assert gs.Arguments(m)[index := info] == args + [FreshArg(arg, pos)];
      gs.SetArguments(m, gs.Arguments(m)[index := info]);
    }

    /** One iteration of the `fillInArgs` loop: parameter `i`. */
    method FillOne(gs: SymbolTable, m: nat, mode: FillMode, ps: seq<ParsedArg>, i: nat) returns (e: Expr)
      requires gs.Valid() && Root < m < |gs.symbols| && i < |ps|
      requires m in gs.arguments && gs.arguments[m] == Filled(mode.base, mode.swapped, ps, i)
      modifies gs
      ensures gs.Valid() && gs.symbols == old(gs.symbols) && gs.members == old(gs.members) && gs.errors == old(gs.errors)
      ensures gs.arguments == old(gs.arguments)[m := Filled(mode.base, mode.swapped, ps, i + 1)]
      ensures e == ArgExpr(ps[i], Reuses(Filled(mode.base, mode.swapped, ps, i), mode.swapped, ps[i], i))
    {
      var p := ps[i];
      ghost var cur := Filled(mode.base, mode.swapped, ps, i);
      ghost var a0 := gs.arguments;
      assert Filled(mode.base, mode.swapped, ps, i + 1) == FillStep(cur, mode.swapped, p, i);
      if p.shadow {
        assert a0 == a0[m := cur];
        return Local(p.loc, p.local);
      }
      if mode.swapped.Some? && p.block {
        // see the comment on the swap in `fillInArgs`
        gs.SetArguments(m, gs.Arguments(m) + [mode.swapped.value]);
      }
      ghost var a1 := gs.arguments;
      e := ArgToSymbol(gs, m, i, p);
      UpdateTwice(a0, m, BeforeArg(cur, mode.swapped, p), FillStep(cur, mode.swapped, p, i));
    }

    /** `fillInArgs`: the method's argument list becomes
        `Filled(base, swapped, params)`, and each parameter becomes a local or
        an optional argument. */
    method FillInArgs(gs: SymbolTable, m: nat, ps: seq<ParsedArg>) returns (args: seq<Expr>)
      requires gs.Valid() && Root < m < |gs.symbols| && ShadowsLast(ps)
      modifies gs
      ensures gs.Valid() && gs.symbols == old(gs.symbols)
      ensures gs.members == old(gs.members) && gs.errors == old(gs.errors)
      ensures var mode := StartFill(old(gs.IsIntrinsic(m)), old(gs.Arguments(m)));
              && gs.arguments == old(gs.arguments)[m := Filled(mode.base, mode.swapped, ps, |ps|)]
              && args == FilledExprs(mode.base, mode.swapped, ps, |ps|)
    {
      ghost var a0 := gs.arguments;
      var mode := StartFill(gs.IsIntrinsic(m), gs.Arguments(m));
      // The list the loop starts from: cleared when the block argument is
      // being swapped, unchanged otherwise.
      gs.SetArguments(m, mode.base);
      args := [];
      var i := 0;
      while i < |ps|
        invariant 0 <= i <= |ps|
        invariant gs.Valid() && gs.symbols == old(gs.symbols)
        invariant gs.members == old(gs.members) && gs.errors == old(gs.errors)
        invariant gs.arguments == a0[m := Filled(mode.base, mode.swapped, ps, i)]
        invariant args == FilledExprs(mode.base, mode.swapped, ps, i)
      {
        var e := FillOne(gs, m, mode, ps, i);
        args := args + [e];
        i := i + 1;
      }
    }

    /** `contextClass`, as the loop the source runs. */
    method ContextClass(gs: SymbolTable, ofWhat: nat) returns (r: Option<nat>)
      requires gs.Valid() && ofWhat < |gs.symbols|
      ensures r == ContextClassOf(gs, ofWhat)
    {
      var owner: nat := ofWhat;
      while true
        invariant owner < |gs.symbols| && ContextClassOf(gs, owner) == ContextClassOf(gs, ofWhat)
        decreases owner
      {
        if owner == NoSymbol {
          return None;
        }
        if gs.symbols[owner].kind == ClassOrModule {
          return Some(owner);
        }
        gs.OwnerIsAClass(owner);
        var data := gs.symbols[owner];
        if data.name == Plain(StaticInit) {
          var attached := gs.symbols[data.owner].attached;
          if attached.None? {
            return None;
          }
          gs.AttachedIsEarlier(data.owner);
          owner := attached.value;
        } else {
          owner := data.owner;
        }
      }
    }

    // -------------------------------------------------------------------
    // Methods

    /** `aliasMethod`: `newName` on `owner` becomes an alias of `meth`. */
    method AliasMethod(gs: SymbolTable, loc: Loc, owner: nat, newName: SymName, meth: nat) returns (alias: nat)
      requires gs.Valid() && NoSymbol < owner && gs.IsClass(owner) && Root < meth < |gs.symbols|
      modifies gs
      ensures gs.Valid() && Extends(old(gs.symbols), gs.symbols) && gs.errors == old(gs.errors)
      ensures alias == gs.FindMemberNoDealias(owner, newName) && alias != NoSymbol
      ensures gs.symbols[alias].kind == Method && gs.symbols[alias].resultType == AliasType(meth)
      ensures alias < old(|gs.symbols|) ==> gs.symbols == old(gs.symbols)[alias := gs.symbols[alias]]
      ensures alias >= old(|gs.symbols|) ==> gs.symbols[..old(|gs.symbols|)] == old(gs.symbols)
      ensures old(gs.members).Keys <= gs.members.Keys
    {
      alias := gs.EnterMethodSymbol(loc, owner, newName);
      ghost var s1 := gs.symbols;
      gs.SetAliasTo(alias, meth);
      ExtendsTransitive(old(gs.symbols), s1, gs.symbols);
    }

    /** `aliasModuleFunction`: the method, aliased under its own name on the
        singleton class of its owner. */
    method AliasModuleFunction(gs: SymbolTable, loc: Loc, meth: nat)
      requires gs.Valid() && Root < meth < |gs.symbols|
      modifies gs
      ensures gs.Valid() && Extends(old(gs.symbols), gs.symbols) && gs.errors == old(gs.errors)
      ensures AliasedOnSingleton(gs, old(gs.symbols[meth].owner), old(gs.symbols[meth].name), meth)
      ensures AliasedIn((gs.symbols, gs.members), old(gs.symbols[meth].owner), old(gs.symbols[meth].name), meth)
      ensures old(gs.members).Keys <= gs.members.Keys
    {
      gs.OwnerIsAClass(meth);
      var owner := gs.symbols[meth].owner;
      var name := gs.symbols[meth].name;
      var singleton := gs.SingletonClass(owner);
      ghost var s1 := gs.symbols;
      var alias := AliasMethod(gs, loc, singleton, name, meth);
      ExtendsTransitive(old(gs.symbols), s1, gs.symbols);
      assert gs.symbols[owner].singleton == s1[owner].singleton;
      AliasedOnSingletonIn(gs, owner, name, meth);
    }

    /** A method defined again at another site: a stub holding an
        intrinsic, or a definition whose parameters match the existing
        symbol's (after dealiasing), only gains a location; any other
        redefinition is reported and the old symbol is renamed away. */
    method ResolveRedefinition(gs: SymbolTable, existing: nat, md: Expr) returns (decision: Redefinition)
      requires md.MethodDef? && gs.Valid() && Root < existing < |gs.symbols|
      modifies gs
      ensures gs.Valid() && ExtendsRenaming(old(gs.symbols), gs.symbols) && |gs.symbols| == old(|gs.symbols|)
      ensures decision == AddedLoc || decision == Mangled
      ensures decision == AddedLoc <==>
                old(gs.IsIntrinsic(existing)) || ParamsCompatible(old(gs.Arguments(gs.Dealias(existing, DealiasDepth))), md.params)
      ensures decision == AddedLoc ==>
                && gs.symbols == old(gs.symbols)[existing := old(gs.symbols[existing]).(locs := gs.symbols[existing].locs)]
                && md.declLoc in gs.symbols[existing].locs && gs.errors == old(gs.errors) && gs.members == old(gs.members)
      ensures decision == Mangled ==>
                && gs.symbols[existing].name == MangleRenamed(Plain(md.name), |gs.symbols|)
                && gs.FindMemberNoDealias(gs.symbols[existing].owner, Plain(md.name)) == NoSymbol
                && gs.errors == old(gs.errors) + [Error(md.declLoc, RedefinitionOfMethod)]
    {
      var keep := gs.IsIntrinsic(existing);
      if !keep {
        var target := gs.Dealias(existing, DealiasDepth);
        var ok, diags := ParamsMatch(gs.Arguments(target), md.declLoc, md.params);
        gs.ReportAll(diags);
        keep := ok;
      }
      if keep {
        gs.AddLoc(existing, md.declLoc);
        decision := AddedLoc;
      } else {
        gs.MangleRenameSymbol(existing, Plain(md.name));
        decision := Mangled;
      }
    }

    /** The end of `preTransformMethodDef`: enter the method (reusing a
        method of that name), fill in its arguments and record the
        definition site. */
    method DefineMethod(gs: SymbolTable, owner: nat, md: Expr) returns (s: nat, args: seq<Expr>)
      requires md.MethodDef? && ShadowsLast(md.params)
      requires gs.Valid() && NoSymbol < owner && gs.IsClass(owner)
      modifies gs
      ensures gs.Valid() && Extends(old(gs.symbols), gs.symbols) && gs.errors == old(gs.errors)
      ensures Root < s < |gs.symbols| && gs.symbols[s].kind == Method && gs.symbols[s].owner == owner
      ensures gs.symbols[s].name == Plain(md.name) && md.declLoc in gs.symbols[s].locs
      ensures md.isDSLSynthesized ==> gs.symbols[s].isDSLSynthesized
      ensures var e := old(gs.FindMemberNoDealias(owner, Plain(md.name)));
              && (e == NoSymbol ==>
                    s == old(|gs.symbols|) && gs.Arguments(s) == Filled([], None, md.params, |md.params|))
              && (e != NoSymbol && old(gs.symbols[e].kind) == Method ==> s == e)
    {
      s := gs.EnterMethodSymbol(md.declLoc, owner, Plain(md.name));
      ghost var s1 := gs.symbols;
      args := FillInArgs(gs, s, md.params);
      RecordMethodSite(gs, s, md);
      ExtendsTransitive(old(gs.symbols), s1, gs.symbols);
    }

    /** The definition site of a method, and whether a DSL synthesized it. */
    method RecordMethodSite(gs: SymbolTable, s: nat, md: Expr)
      requires md.MethodDef? && gs.Valid() && s < |gs.symbols|
      modifies gs
      ensures gs.Valid() && Extends(old(gs.symbols), gs.symbols) && |gs.symbols| == old(|gs.symbols|)
      ensures gs.errors == old(gs.errors) && gs.arguments == old(gs.arguments)
      ensures md.declLoc in gs.symbols[s].locs
      ensures md.isDSLSynthesized ==> gs.symbols[s].isDSLSynthesized
    {
      gs.AddLoc(s, md.declLoc);
      ghost var s1 := gs.symbols;
      if md.isDSLSynthesized {
        gs.SetDSLSynthesized(s);
      }
      ExtendsTransitive(old(gs.symbols), s1, gs.symbols);
    }

    /** A method definition whose name is already taken on its owner: the
        same site is being reparsed; otherwise the redefinition is resolved
        and the method entered. */
    method RedefineMethod(gs: SymbolTable, owner: nat, existing: nat, md: Expr) returns (r: Expr, decision: Redefinition)
      requires md.MethodDef? && ShadowsLast(md.params)
      requires gs.Valid() && NoSymbol < owner && gs.IsClass(owner)
      requires existing == gs.FindMemberNoDealias(owner, Plain(md.name)) && existing != NoSymbol
      modifies gs
      ensures gs.Valid() && ExtendsRenaming(old(gs.symbols), gs.symbols)
      ensures r.MethodDef? && r == md.(symbol := r.symbol, args := r.args)
      ensures Root < r.symbol < |gs.symbols| && decision != Fresh
      ensures decision == Reparsed <==> md.declLoc == SymbolLoc(old(gs.symbols[existing]))
      ensures decision == AddedLoc <==>
                && md.declLoc != SymbolLoc(old(gs.symbols[existing]))
                && (old(gs.IsIntrinsic(existing)) || ParamsCompatible(old(gs.Arguments(gs.Dealias(existing, DealiasDepth))), md.params))
      ensures decision == Reparsed ==> r.symbol == existing && gs.symbols == old(gs.symbols) && gs.errors == old(gs.errors)
      ensures decision == AddedLoc ==> md.declLoc in gs.symbols[existing].locs && gs.errors == old(gs.errors)
      ensures decision == AddedLoc && old(gs.symbols[existing].kind) == Method ==> r.symbol == existing
      ensures decision == Mangled ==>
                && gs.errors == old(gs.errors) + [Error(md.declLoc, RedefinitionOfMethod)]
                && r.symbol == old(|gs.symbols|) && gs.Arguments(r.symbol) == Filled([], None, md.params, |md.params|)
      ensures decision != Reparsed ==>
                && gs.symbols[r.symbol].kind == Method && gs.symbols[r.symbol].owner == owner
                && gs.symbols[r.symbol].name == Plain(md.name) && md.declLoc in gs.symbols[r.symbol].locs
                && (md.isDSLSynthesized ==> gs.symbols[r.symbol].isDSLSynthesized)
    {
      if md.declLoc == SymbolLoc(gs.symbols[existing]) {
        // Reparsing the same file.
        var args := FillInArgs(gs, existing, md.params);
        return md.(symbol := existing, args := args), Reparsed;
      }
      r, decision := ResolveAndDefine(gs, owner, existing, md);
    }

    /** A definition at a new site of a method name already taken. */
    method ResolveAndDefine(gs: SymbolTable, owner: nat, existing: nat, md: Expr) returns (r: Expr, decision: Redefinition)
      requires md.MethodDef? && ShadowsLast(md.params)
      requires gs.Valid() && NoSymbol < owner && gs.IsClass(owner)
      requires existing == gs.FindMemberNoDealias(owner, Plain(md.name)) && existing != NoSymbol
      modifies gs
      ensures gs.Valid() && ExtendsRenaming(old(gs.symbols), gs.symbols)
      ensures r.MethodDef? && r == md.(symbol := r.symbol, args := r.args)
      ensures Root < r.symbol < |gs.symbols| && (decision == AddedLoc || decision == Mangled)
      ensures decision == AddedLoc <==>
                old(gs.IsIntrinsic(existing)) || ParamsCompatible(old(gs.Arguments(gs.Dealias(existing, DealiasDepth))), md.params)
      ensures decision == AddedLoc ==> md.declLoc in gs.symbols[existing].locs && gs.errors == old(gs.errors)
      ensures decision == AddedLoc && old(gs.symbols[existing].kind) == Method ==> r.symbol == existing
      ensures decision == Mangled ==>
                && gs.errors == old(gs.errors) + [Error(md.declLoc, RedefinitionOfMethod)]
                && r.symbol == old(|gs.symbols|) && gs.Arguments(r.symbol) == Filled([], None, md.params, |md.params|)
      ensures gs.symbols[r.symbol].kind == Method && gs.symbols[r.symbol].owner == owner
      ensures gs.symbols[r.symbol].name == Plain(md.name) && md.declLoc in gs.symbols[r.symbol].locs
      ensures md.isDSLSynthesized ==> gs.symbols[r.symbol].isDSLSynthesized
    {
      decision := ResolveRedefinition(gs, existing, md);
      ghost var s1 := gs.symbols;
      var s, args := DefineMethod(gs, owner, md);
      RenamingThenExtends(old(gs.symbols), s1, gs.symbols);
      r := md.(symbol := s, args := args);
    }

    /** The part of `preTransformMethodDef` after the owner is known: reuse,
        extend or rename an existing method of that name, then enter the
        method and fill in its arguments. */
    method EnterMethodDef(gs: SymbolTable, owner: nat, md: Expr) returns (r: Expr, decision: Redefinition)
      requires md.MethodDef? && ShadowsLast(md.params)
      requires gs.Valid() && NoSymbol < owner && gs.IsClass(owner)
      modifies gs
      ensures gs.Valid() && ExtendsRenaming(old(gs.symbols), gs.symbols)
      ensures r.MethodDef? && r == md.(symbol := r.symbol, args := r.args)
      ensures Root < r.symbol < |gs.symbols|
      ensures var e := old(gs.FindMemberNoDealias(owner, Plain(md.name)));
              && (decision == Fresh <==> e == NoSymbol)
              && (decision == Reparsed <==> e != NoSymbol && md.declLoc == SymbolLoc(old(gs.symbols[e])))
              && (decision == AddedLoc <==>
                    && e != NoSymbol && md.declLoc != SymbolLoc(old(gs.symbols[e]))
                    && (old(gs.IsIntrinsic(e)) || ParamsCompatible(old(gs.Arguments(gs.Dealias(e, DealiasDepth))), md.params)))
              && (decision == Reparsed ==> r.symbol == e && gs.symbols == old(gs.symbols) && gs.errors == old(gs.errors))
              && (decision == AddedLoc ==> md.declLoc in gs.symbols[e].locs && gs.errors == old(gs.errors))
              && (decision == AddedLoc && old(gs.symbols[e].kind) == Method ==> r.symbol == e)
              && (decision == Mangled ==> gs.errors == old(gs.errors) + [Error(md.declLoc, RedefinitionOfMethod)])
              && (decision == Fresh ==> gs.errors == old(gs.errors))
              && (decision == Fresh || decision == Mangled ==>
                    r.symbol == old(|gs.symbols|) && gs.Arguments(r.symbol) == Filled([], None, md.params, |md.params|))
      ensures decision != Reparsed ==>
                && gs.symbols[r.symbol].kind == Method && gs.symbols[r.symbol].owner == owner
                && gs.symbols[r.symbol].name == Plain(md.name) && md.declLoc in gs.symbols[r.symbol].locs
                && (md.isDSLSynthesized ==> gs.symbols[r.symbol].isDSLSynthesized)
    {
      var existing := gs.FindMemberNoDealias(owner, Plain(md.name));
      if existing != NoSymbol {
        r, decision := RedefineMethod(gs, owner, existing, md);
      } else {
        var s, args := DefineMethod(gs, owner, md);
        ExtendsIsRenaming(old(gs.symbols), gs.symbols);
        r, decision := md.(symbol := s, args := args), Fresh;
      }
    }

    /** `preTransformMethodDef`: opens the method's scope and enters it on
        its owner (the singleton class for `def self.f`). */
    method PreTransformMethodDef(gs: SymbolTable, ctxOwner: nat, md: Expr) returns (r: Expr, decision: Redefinition)
      requires md.MethodDef? && ShadowsLast(md.params)
      requires gs.Valid() && NoSymbol < ctxOwner < |gs.symbols|
      modifies this, gs
      ensures scopeStack == old(scopeStack) + [false] && classBehaviorLocs == old(classBehaviorLocs)
      ensures gs.Valid() && ExtendsRenaming(old(gs.symbols), gs.symbols)
      ensures r.MethodDef? && r == md.(symbol := r.symbol, args := r.args) && Root < r.symbol < |gs.symbols|
      ensures decision != Reparsed ==>
                && gs.symbols[r.symbol].kind == Method && gs.symbols[r.symbol].name == Plain(md.name)
                && md.declLoc in gs.symbols[r.symbol].locs
                && gs.IsClass(gs.symbols[r.symbol].owner)
                && (!md.isSelf ==> gs.symbols[r.symbol].owner == old(MethodOwner(gs, ctxOwner)))
      ensures decision != Reparsed && md.isSelf ==>
                var o, owner := old(MethodOwner(gs, ctxOwner)), gs.symbols[r.symbol].owner;
                && (old(gs.HasSingleton(o)) ==> owner == old(gs.symbols[o].singleton.value))
                && (!old(gs.HasSingleton(o)) ==> owner == old(|gs.symbols|) && gs.symbols[owner].attached == Some(o))
    {
      EnterScope();
      var owner := MethodOwner(gs, ctxOwner);
      ghost var s0 := gs.symbols;
      if md.isSelf {
        owner := gs.SingletonClass(owner);
      }
      ghost var s1 := gs.symbols;
      r, decision := EnterMethodDef(gs, owner, md);
      ExtendsThenRenaming(s0, s1, gs.symbols);
    }

    /** `postTransformMethodDef`: closes the method's scope; under a bare
        `module_function` the method is also aliased on the singleton class. */
    method PostTransformMethodDef(gs: SymbolTable, md: Expr) returns (r: Expr)
      requires md.MethodDef? && |scopeStack| >= 2
      requires gs.Valid() && Root < md.symbol < |gs.symbols|
      modifies this, gs
      ensures r == md
      ensures scopeStack == old(scopeStack)[..|old(scopeStack)| - 1] && classBehaviorLocs == old(classBehaviorLocs)
      ensures gs.Valid() && Extends(old(gs.symbols), gs.symbols) && gs.errors == old(gs.errors)
      ensures !old(scopeStack[|scopeStack| - 2]) ==> gs.symbols == old(gs.symbols)
      ensures old(scopeStack[|scopeStack| - 2]) ==>
                AliasedOnSingleton(gs, old(gs.symbols[md.symbol].owner), old(gs.symbols[md.symbol].name), md.symbol)
    {
      ExitScope();
      if scopeStack[|scopeStack| - 1] {
        AliasModuleFunction(gs, SymbolLoc(gs.symbols[md.symbol]), md.symbol);
      }
      r := md;
    }

    // -------------------------------------------------------------------
    // Visibility modifiers and `module_function`

    /** One argument of `self.module_function :a, :b`. */
    method ModuleFunctionArg(gs: SymbolTable, ctxOwner: nat, loc: Loc, arg: Expr)
      requires gs.Valid() && NoSymbol < ctxOwner < |gs.symbols|
      modifies gs
      ensures gs.Valid() && Extends(old(gs.symbols), gs.symbols) && old(gs.errors) <= gs.errors
      ensures CountClass(gs.errors, DynamicDSLInvocation)
                == old(CountClass(gs.errors, DynamicDSLInvocation)) + NonSymbolCount([arg])
      ensures !arg.IsSymbolLiteral() ==>
                gs.symbols == old(gs.symbols) && gs.errors == old(gs.errors) + [Error(arg.Location(), DynamicDSLInvocation)]
      ensures arg.IsSymbolLiteral() ==>
                var meth := old(gs.FindMember(MethodOwner(gs, ctxOwner), Plain(arg.value.symbolName)));
                && (meth == NoSymbol ==>
                      gs.symbols == old(gs.symbols) && gs.errors == old(gs.errors) + [Error(arg.Location(), MethodNotFound)])
                && (meth != NoSymbol ==>
                      gs.errors == old(gs.errors)
                      && AliasedOnSingleton(gs, old(gs.symbols[meth].owner), old(gs.symbols[meth].name), meth))
      ensures ModuleFunctionStep((old(gs.symbols), old(gs.members)), (gs.symbols, gs.members), old(MethodOwner(gs, ctxOwner)), arg)
      ensures gs.errors == old(gs.errors) + ArgDiagnostics((old(gs.symbols), old(gs.members)), old(MethodOwner(gs, ctxOwner)), arg)
    {
      ghost var t0 := (gs.symbols, gs.members);
      if !arg.IsSymbolLiteral() {
        CountClassSnoc(gs.errors, Error(arg.Location(), DynamicDSLInvocation), DynamicDSLInvocation);
        gs.Report(arg.Location(), DynamicDSLInvocation);
        return;
      }
      var mo := MethodOwner(gs, ctxOwner);
      var meth := gs.FindMember(mo, Plain(arg.value.symbolName));
      gs.FindMemberIsMemberIn(mo, Plain(arg.value.symbolName));
      if meth == NoSymbol {
        CountClassSnoc(gs.errors, Error(arg.Location(), MethodNotFound), DynamicDSLInvocation);
        gs.Report(arg.Location(), MethodNotFound);
        return;
      }
      assert ArgDiagnostics(t0, mo, arg) == [];
      AliasModuleFunction(gs, loc, meth);
    }

    /** The loop of `self.module_function :a, :b` over its arguments. The
        ghost `tables` are the table before each argument and after the
        last: each argument takes one step from the table before it, an
        argument whose method already existed is aliased, and the
        diagnostics are one `DynamicDSLInvocation` per argument that is not
        a symbol and one `MethodNotFound` per symbol whose method is
        missing at its turn. */
    method ModuleFunctionArgs(gs: SymbolTable, ctxOwner: nat, loc: Loc, args: seq<Expr>) returns (ghost tables: seq<Table>)
      requires gs.Valid() && NoSymbol < ctxOwner < |gs.symbols|
      modifies gs
      ensures gs.Valid() && Extends(old(gs.symbols), gs.symbols) && old(gs.errors) <= gs.errors
      ensures CountClass(gs.errors, DynamicDSLInvocation) == old(CountClass(gs.errors, DynamicDSLInvocation)) + NonSymbolCount(args)
      ensures ModuleFunctionRun(tables, old(gs.symbols), old(gs.members), gs.symbols, gs.members, old(MethodOwner(gs, ctxOwner)), args)
      ensures gs.errors == old(gs.errors) + ArgsDiagnostics(tables, old(MethodOwner(gs, ctxOwner)), args)
      ensures CountClass(gs.errors, MethodNotFound)
              == old(CountClass(gs.errors, MethodNotFound)) + MissingCount(tables, old(MethodOwner(gs, ctxOwner)), args)
      ensures forall k :: 0 <= k < |args| ==>
                (args[k].IsSymbolLiteral() && old(gs.FindMember(MethodOwner(gs, ctxOwner), Plain(args[k].value.symbolName))) != NoSymbol ==>
                   ArgDiagnostics(tables[k], old(MethodOwner(gs, ctxOwner)), args[k]) == [])
    {
      ghost var mo := MethodOwner(gs, ctxOwner);
      forall n: SymName ensures gs.FindMember(mo, n) == MemberIn(gs.symbols, gs.members, mo, n) {
        gs.FindMemberIsMemberIn(mo, n);
      }
      tables := [(gs.symbols, gs.members)];
      var i := 0;
      while i < |args|
        invariant 0 <= i <= |args| && |tables| == i + 1
        invariant gs.Valid() && Extends(old(gs.symbols), gs.symbols) && old(gs.errors) <= gs.errors
        invariant MethodOwner(gs, ctxOwner) == mo
        invariant ModuleFunctionRun(tables, old(gs.symbols), old(gs.members), gs.symbols, gs.members, mo, args[..i])
        invariant gs.errors == old(gs.errors) + ArgsDiagnostics(tables, mo, args[..i])
        invariant CountClass(gs.errors, DynamicDSLInvocation)
                  == old(CountClass(gs.errors, DynamicDSLInvocation)) + NonSymbolCount(args[..i])
        invariant CountClass(gs.errors, MethodNotFound)
                  == old(CountClass(gs.errors, MethodNotFound)) + MissingCount(tables, mo, args[..i])
      {
        ghost var s0, m0, e0 := gs.symbols, gs.members, gs.errors;
        assert tables[i] == (s0, m0);
        ghost var d := ArgDiagnostics(tables[i], mo, args[i]);
        ghost var a := ArgsDiagnostics(tables, mo, args[..i]);
        EnclosingClassIsIn(gs, ctxOwner);
        ModuleFunctionArg(gs, ctxOwner, loc, args[i]);
        assert gs.errors == e0 + d;
        ExtendsTransitive(old(gs.symbols), s0, gs.symbols);
        EnclosingClassIsIn(gs, ctxOwner);
        EnclosingInExtends(s0, gs.symbols, ctxOwner);
        NonSymbolCountStep(args, i);
        CountClassAppend(e0, d, DynamicDSLInvocation);
        CountClassAppend(e0, d, MethodNotFound);
        ModuleFunctionRunStep(tables, (gs.symbols, gs.members), old(gs.symbols), old(gs.members), mo, args, i);
        AppendAssoc(old(gs.errors), a, d);
        tables := tables + [(gs.symbols, gs.members)];
        i := i + 1;
      }
      assert args[..|args|] == args;
      ModuleFunctionRunFindsOld(tables, old(gs.symbols), old(gs.members), gs.symbols, gs.members, mo, args);
    }

    /** `postTransformSend`: visibility modifiers and `module_function`
        applied to a method definition take effect on its symbol and are
        replaced by the definition; `self.module_function` with no
        arguments turns on the mode for the rest of the scope, and with
        symbol arguments aliases those methods. */
    method PostTransformSend(gs: SymbolTable, ctxOwner: nat, send: Expr) returns (r: Expr, ghost argTables: seq<Table>)
      requires send.Send? && gs.Valid() && NoSymbol < ctxOwner < |gs.symbols| && |scopeStack| > 0
      requires IsMethodDefSend(send) ==> Root < send.args[0].symbol < |gs.symbols|
      modifies this, gs
      ensures gs.Valid() && Extends(old(gs.symbols), gs.symbols) && old(gs.errors) <= gs.errors
      ensures classBehaviorLocs == old(classBehaviorLocs)
      ensures IsMethodDefSend(send) ==>
                var m := send.args[0].symbol;
                && scopeStack == old(scopeStack) && gs.errors == old(gs.errors)
                && (VisibilityModifier(send.fun).Some? ==>
                      r == send.args[0]
                      && gs.symbols == old(gs.symbols)[m := old(gs.symbols[m]).(visibility := VisibilityModifier(send.fun).value)])
                && (send.fun == ModuleFunction ==>
                      r == send.args[0] && AliasedOnSingleton(gs, old(gs.symbols[m].owner), old(gs.symbols[m].name), m))
                && (VisibilityModifier(send.fun).None? && send.fun != ModuleFunction ==>
                      r == send && gs.symbols == old(gs.symbols))
      ensures !IsMethodDefSend(send) ==> r == send
      ensures !IsMethodDefSend(send) && !(send.recv.IsSelfReference() && send.fun == ModuleFunction) ==>
                scopeStack == old(scopeStack) && gs.symbols == old(gs.symbols) && gs.errors == old(gs.errors)
      ensures !IsMethodDefSend(send) && send.recv.IsSelfReference() && send.fun == ModuleFunction && send.args == [] ==>
                && scopeStack == old(scopeStack)[|old(scopeStack)| - 1 := true]
                && gs.symbols == old(gs.symbols) && gs.errors == old(gs.errors)
      ensures !IsMethodDefSend(send) && send.recv.IsSelfReference() && send.fun == ModuleFunction && send.args != [] ==>
                && scopeStack == old(scopeStack)
                && CountClass(gs.errors, DynamicDSLInvocation)
                   == old(CountClass(gs.errors, DynamicDSLInvocation)) + NonSymbolCount(send.args)
      ensures !IsMethodDefSend(send) && send.recv.IsSelfReference() && send.fun == ModuleFunction && send.args != [] ==>
                var mo := old(MethodOwner(gs, ctxOwner));
                && ModuleFunctionRun(argTables, old(gs.symbols), old(gs.members), gs.symbols, gs.members, mo, send.args)
                && gs.errors == old(gs.errors) + ArgsDiagnostics(argTables, mo, send.args)
                && CountClass(gs.errors, MethodNotFound) == old(CountClass(gs.errors, MethodNotFound)) + MissingCount(argTables, mo, send.args)
                && (forall k :: 0 <= k < |send.args| ==>
                      (send.args[k].IsSymbolLiteral() && old(gs.FindMember(MethodOwner(gs, ctxOwner), Plain(send.args[k].value.symbolName))) != NoSymbol ==>
                         ArgDiagnostics(argTables[k], mo, send.args[k]) == []))
    {
      r, argTables := send, [];
      if IsMethodDefSend(send) {
        var m := send.args[0].symbol;
        var v := VisibilityModifier(send.fun);
        if v.Some? {
          gs.SetVisibility(m, v.value);
        } else if send.fun == ModuleFunction {
          AliasModuleFunction(gs, send.loc, m);
        } else {
          return;
        }
        r := send.args[0];
        return;
      }
      if !(send.recv.IsSelfReference() && send.fun == ModuleFunction) {
        return;
      }
      if send.args == [] {
        scopeStack := scopeStack[|scopeStack| - 1 := true];
        return;
      }
      argTables := ModuleFunctionArgs(gs, ctxOwner, send.loc, send.args);
    }

    // -------------------------------------------------------------------
    // Class definitions

    /** The symbol a class definition names, before its kind is checked:
        `class << self` names the singleton class of the enclosing class, a
        placeholder `todo` symbol is resolved by `squashNames`, and the
        top-level class of a file stays the root. */
    method ResolveClassSymbol(gs: SymbolTable, ctxOwner: nat, klass: Expr) returns (sym: nat, name: Expr)
      requires klass.ClassDef? && (klass.symbol == Todo || klass.symbol == Root)
      requires gs.Valid() && NoSymbol < ctxOwner < |gs.symbols| && ScopeRefsBelow(klass.className, |gs.symbols|)
      modifies gs
      ensures gs.Valid() && Extends(old(gs.symbols), gs.symbols) && old(gs.errors) <= gs.errors
      ensures NoSymbol < sym < |gs.symbols|
      ensures IsSingletonIdent(klass.className) ==>
                && name == klass.className && gs.errors == old(gs.errors) && gs.IsClass(sym)
                && gs.symbols[old(gs.EnclosingClass(ctxOwner))].singleton == Some(sym)
      ensures !IsSingletonIdent(klass.className) && klass.symbol == Root ==>
                sym == Root && name == klass.className && gs.symbols == old(gs.symbols) && gs.errors == old(gs.errors)
      ensures !IsSingletonIdent(klass.className) && klass.symbol == Todo ==>
                && (name.EmptyTree? || name.ConstantLit?) && IsValidAncestor(name)
                && (name.ConstantLit? ==> name.Location() == klass.className.Location())
                && (klass.className.UnresolvedConstantLit? && name.ConstantLit? ==> name.symbol == sym)
      ensures !IsSingletonIdent(klass.className) && klass.symbol == Todo ==>
                && SquashedFrom(old(gs.symbols), old(gs.members), gs.symbols, gs.members, old(gs.EnclosingClass(ctxOwner)), klass.className, sym, name)
                && gs.errors == old(gs.errors) + SquashErrors(gs.symbols, gs.members, old(gs.EnclosingClass(ctxOwner)), klass.className)
    {
      var enclosing := gs.EnclosingClass(ctxOwner);
      if IsSingletonIdent(klass.className) {
        sym := gs.SingletonClass(enclosing);
        return sym, klass.className;
      }
      if klass.symbol == Root {
        return Root, klass.className;
      }
      sym, name := SquashNames(gs, enclosing, klass.className);
    }

    /** A symbol whose name must belong to a class is renamed out of the
        way, and a new class of that name and owner, with its singleton
        class, takes its place. */
    method ReplaceByClass(gs: SymbolTable, s: nat, loc: Loc) returns (r: nat)
      requires gs.Valid() && Root < s < |gs.symbols|
      modifies gs
      ensures gs.Valid() && ExtendsRenaming(old(gs.symbols), gs.symbols) && gs.errors == old(gs.errors)
      ensures gs.symbols[s].name == MangleRenamed(old(gs.symbols[s].name), old(|gs.symbols|))
      ensures r == old(|gs.symbols|) && gs.IsClass(r) && gs.HasSingleton(r) && gs.symbols[r].singleton.value > r
      ensures gs.symbols[r].owner == old(gs.symbols[s].owner) && gs.symbols[r].name == old(gs.symbols[s].name)
    {
      gs.OwnerIsAClass(s);
      var owner := gs.symbols[s].owner;
      var name := gs.symbols[s].name;
      gs.MangleRenameSymbol(s, name);
      ghost var s1 := gs.symbols;
      r := gs.EnterClassSymbol(loc, owner, name);
      ghost var s2 := gs.symbols;
      var singleton := gs.SingletonClass(r);
      assert gs.symbols[s].name == s1[s].name;
      ExtendsTransitive(s1, s2, gs.symbols);
      RenamingThenExtends(old(gs.symbols), s1, gs.symbols);
    }

    /** A class definition whose name is taken by a symbol that is not a
        class: the error is reported, and a new class of that name, with
        the definition's kind, replaces the symbol. */
    method RedefineAsClass(gs: SymbolTable, sym: nat, klass: Expr) returns (r: nat)
      requires klass.ClassDef? && gs.Valid() && NoSymbol < sym < |gs.symbols| && !gs.IsClass(sym)
      modifies gs
      ensures gs.Valid() && ExtendsRenaming(old(gs.symbols), gs.symbols)
      ensures gs.errors == old(gs.errors) + [Error(klass.loc, ModuleKindRedefinition)]
      ensures gs.symbols[sym].name == MangleRenamed(old(gs.symbols[sym].name), old(|gs.symbols|))
      ensures r == old(|gs.symbols|) && gs.IsClass(r)
      ensures gs.symbols[r].owner == old(gs.symbols[sym].owner) && gs.symbols[r].name == old(gs.symbols[sym].name)
      ensures gs.symbols[r].isModule == Some(klass.classKind == ModuleKind)
      ensures gs.HasSingleton(r) && gs.symbols[r].singleton.value > r
    {
      gs.Report(klass.loc, ModuleKindRedefinition);
      r := ReplaceByClass(gs, sym, klass.declLoc);
      ghost var s1 := gs.symbols;
      gs.SetIsModule(r, klass.classKind == ModuleKind);
      ExtendsIsRenaming(s1, gs.symbols);
      ExtendsRenamingTransitive(old(gs.symbols), s1, gs.symbols);
    }

    /** The kind check of `preTransformClassDef`: a symbol that is not a
        class is redefined as one, a recorded kind that disagrees is an
        error, and otherwise the class's kind is recorded. */
    method CheckClassKind(gs: SymbolTable, sym: nat, klass: Expr) returns (r: nat)
      requires klass.ClassDef? && gs.Valid() && NoSymbol < sym < |gs.symbols|
      modifies gs
      ensures gs.Valid() && ExtendsRenaming(old(gs.symbols), gs.symbols) && gs.IsClass(r) && r != NoSymbol
      ensures !old(gs.IsClass(sym)) ==>
                r == old(|gs.symbols|) && gs.errors == old(gs.errors) + [Error(klass.loc, ModuleKindRedefinition)]
      ensures old(gs.IsClass(sym)) && KindMismatch(old(gs.symbols[sym]), klass) ==>
                && r == sym && gs.symbols == old(gs.symbols)
                && gs.errors == old(gs.errors) + [Error(klass.loc, ModuleKindRedefinition)]
      ensures old(gs.IsClass(sym)) && !KindMismatch(old(gs.symbols[sym]), klass) ==>
                && r == sym && gs.errors == old(gs.errors)
                && gs.symbols == old(gs.symbols)[sym := old(gs.symbols[sym]).(isModule := Some(klass.classKind == ModuleKind))]
      ensures KindChecked(old(gs.symbols), sym, klass, gs.symbols, r)
      ensures gs.errors == old(gs.errors) + KindCheckErrors(old(gs.symbols), sym, klass)
    {
      if !gs.IsClass(sym) {
        r := RedefineAsClass(gs, sym, klass);
      } else if KindMismatch(gs.symbols[sym], klass) {
        gs.Report(klass.loc, ModuleKindRedefinition);
        ExtendsIsRenaming(old(gs.symbols), gs.symbols);
        r := sym;
      } else {
        gs.SetIsModule(sym, klass.classKind == ModuleKind);
        ExtendsIsRenaming(old(gs.symbols), gs.symbols);
        r := sym;
      }
    }

    /** The behavior-location bookkeeping of `preTransformClassDef`: the
        first definition of a class (outside RBI files) that defines
        behavior is recorded, and a later one in another file is an error.
        A recorded location is never replaced. */
    method RecordBehaviorLoc(gs: SymbolTable, sym: nat, declLoc: Loc, definesBehavior: bool)
      requires gs.Valid()
      modifies this, gs
      ensures gs.Valid() && scopeStack == old(scopeStack)
      ensures gs.symbols == old(gs.symbols) && gs.members == old(gs.members)
      ensures forall k :: k in old(classBehaviorLocs) ==> k in classBehaviorLocs && classBehaviorLocs[k] == old(classBehaviorLocs[k])
      ensures sym == Root || declLoc.file in gs.rbiFiles || !definesBehavior ==>
                classBehaviorLocs == old(classBehaviorLocs) && gs.errors == old(gs.errors)
      ensures sym != Root && declLoc.file !in gs.rbiFiles && definesBehavior && sym !in old(classBehaviorLocs) ==>
                classBehaviorLocs == old(classBehaviorLocs)[sym := declLoc] && gs.errors == old(gs.errors)
      ensures sym != Root && declLoc.file !in gs.rbiFiles && definesBehavior && sym in old(classBehaviorLocs) ==>
                && classBehaviorLocs == old(classBehaviorLocs)
                && gs.errors == old(gs.errors) +
                     (if old(classBehaviorLocs[sym]).file != declLoc.file then [Error(declLoc, MultipleBehaviorDefs)] else [])
      ensures gs.errors == old(gs.errors) + BehaviorLocErrors(old(classBehaviorLocs), sym, declLoc, definesBehavior, gs.rbiFiles)
    {
      if sym == Root || declLoc.file in gs.rbiFiles || !definesBehavior {
        return;
      }
      if sym !in classBehaviorLocs {
        classBehaviorLocs := classBehaviorLocs[sym := declLoc];
      } else if classBehaviorLocs[sym].file != declLoc.file {
        gs.Report(declLoc, MultipleBehaviorDefs);
      }
    }

    /** The symbol of a class definition, resolved and kind-checked. */
    method ClassDefSymbol(gs: SymbolTable, ctxOwner: nat, klass: Expr)
      returns (sym: nat, name: Expr, ghost resolved: nat, ghost resolvedSymbols: seq<SymbolData>,
               ghost resolvedMembers: map<(nat, SymName), nat>, ghost resolvedErrors: seq<Diagnostic>)
      requires klass.ClassDef? && (klass.symbol == Todo || klass.symbol == Root)
      requires gs.Valid() && NoSymbol < ctxOwner < |gs.symbols| && ScopeRefsBelow(klass.className, |gs.symbols|)
      modifies gs
      ensures gs.Valid() && ExtendsRenaming(old(gs.symbols), gs.symbols) && old(gs.errors) <= gs.errors
      ensures gs.IsClass(sym) && sym != NoSymbol
      ensures IsSingletonIdent(klass.className) ==>
                name == klass.className && gs.symbols[old(gs.EnclosingClass(ctxOwner))].singleton == Some(sym)
      ensures !IsSingletonIdent(klass.className) && klass.symbol == Root ==> sym == Root
      ensures Extends(old(gs.symbols), resolvedSymbols) && NoSymbol < resolved < |resolvedSymbols| && old(gs.errors) <= resolvedErrors
      ensures IsSingletonIdent(klass.className) ==>
                sym == resolved && gs.symbols == resolvedSymbols && gs.errors == resolvedErrors == old(gs.errors)
      ensures !IsSingletonIdent(klass.className) ==>
                && KindChecked(resolvedSymbols, resolved, klass, gs.symbols, sym)
                && gs.errors == resolvedErrors + KindCheckErrors(resolvedSymbols, resolved, klass)
      ensures !IsSingletonIdent(klass.className) && klass.symbol == Root ==>
                resolved == Root && resolvedSymbols == old(gs.symbols) && resolvedErrors == old(gs.errors)
      ensures !IsSingletonIdent(klass.className) && klass.symbol == Todo ==>
                && (name.EmptyTree? || name.ConstantLit?) && IsValidAncestor(name)
                && (name.ConstantLit? ==> name.Location() == klass.className.Location())
                && (klass.className.UnresolvedConstantLit? && name.ConstantLit? ==> name.symbol == resolved)
      ensures TableInvariant(resolvedSymbols, resolvedMembers)
      ensures !IsSingletonIdent(klass.className) && klass.symbol == Todo ==>
                && SquashedFrom(old(gs.symbols), old(gs.members), resolvedSymbols, resolvedMembers, old(gs.EnclosingClass(ctxOwner)), klass.className, resolved, name)
                && resolvedErrors == old(gs.errors) + SquashErrors(resolvedSymbols, resolvedMembers, old(gs.EnclosingClass(ctxOwner)), klass.className)
    {
      sym, name := ResolveClassSymbol(gs, ctxOwner, klass);
      resolved, resolvedSymbols, resolvedMembers, resolvedErrors := sym, gs.symbols, gs.members, gs.errors;
      ghost var s1 := gs.symbols;
      ghost var e1 := gs.errors;
      if !IsSingletonIdent(klass.className) {
        sym := CheckClassKind(gs, sym, klass);
        ExtendsThenRenaming(old(gs.symbols), s1, gs.symbols);
        assert old(gs.errors) <= e1 <= gs.errors;
      } else {
        ExtendsIsRenaming(old(gs.symbols), gs.symbols);
      }
    }

    /** `preTransformClassDef`: resolves the class's symbol, checks its
        kind, records where it defines behavior, and opens its scope.
        `definesBehavior` is `classDefinesBehavior`, which inspects the
        body. */
    method PreTransformClassDef(gs: SymbolTable, ctxOwner: nat, klass: Expr, definesBehavior: bool)
      returns (r: Expr, ghost resolved: nat, ghost resolvedSymbols: seq<SymbolData>,
               ghost resolvedMembers: map<(nat, SymName), nat>, ghost resolvedErrors: seq<Diagnostic>)
      requires klass.ClassDef? && (klass.symbol == Todo || klass.symbol == Root)
      requires gs.Valid() && NoSymbol < ctxOwner < |gs.symbols| && ScopeRefsBelow(klass.className, |gs.symbols|)
      modifies this, gs
      ensures scopeStack == old(scopeStack) + [false]
      ensures gs.Valid() && ExtendsRenaming(old(gs.symbols), gs.symbols) && old(gs.errors) <= gs.errors
      ensures r.ClassDef? && r == klass.(symbol := r.symbol, className := r.className)
      ensures gs.IsClass(r.symbol) && r.symbol != NoSymbol
      ensures IsSingletonIdent(klass.className) ==>
                r.className == klass.className && gs.symbols[old(gs.EnclosingClass(ctxOwner))].singleton == Some(r.symbol)
      ensures !IsSingletonIdent(klass.className) && klass.symbol == Root ==> r.symbol == Root
      ensures forall k :: k in old(classBehaviorLocs) ==> k in classBehaviorLocs && classBehaviorLocs[k] == old(classBehaviorLocs[k])
      ensures definesBehavior && r.symbol != Root && klass.declLoc.file !in gs.rbiFiles ==> r.symbol in classBehaviorLocs
      ensures Extends(old(gs.symbols), resolvedSymbols) && NoSymbol < resolved < |resolvedSymbols| && old(gs.errors) <= resolvedErrors
      ensures IsSingletonIdent(klass.className) ==>
                && r.symbol == resolved && gs.symbols == resolvedSymbols && resolvedErrors == old(gs.errors)
                && gs.errors == old(gs.errors) + BehaviorLocErrors(old(classBehaviorLocs), r.symbol, klass.declLoc, definesBehavior, gs.rbiFiles)
      ensures !IsSingletonIdent(klass.className) ==>
                && KindChecked(resolvedSymbols, resolved, klass, gs.symbols, r.symbol)
                && gs.errors == resolvedErrors + KindCheckErrors(resolvedSymbols, resolved, klass)
                                + BehaviorLocErrors(old(classBehaviorLocs), r.symbol, klass.declLoc, definesBehavior, gs.rbiFiles)
      ensures !IsSingletonIdent(klass.className) && klass.symbol == Root ==>
                resolved == Root && resolvedSymbols == old(gs.symbols) && resolvedErrors == old(gs.errors)
      ensures !IsSingletonIdent(klass.className) && klass.symbol == Todo ==>
                && (r.className.EmptyTree? || r.className.ConstantLit?) && IsValidAncestor(r.className)
                && (r.className.ConstantLit? ==> r.className.Location() == klass.className.Location())
                && (klass.className.UnresolvedConstantLit? && r.className.ConstantLit? ==> r.className.symbol == resolved)
      ensures TableInvariant(resolvedSymbols, resolvedMembers)
      ensures !IsSingletonIdent(klass.className) && klass.symbol == Todo ==>
                && SquashedFrom(old(gs.symbols), old(gs.members), resolvedSymbols, resolvedMembers, old(gs.EnclosingClass(ctxOwner)), klass.className, resolved, r.className)
                && resolvedErrors == old(gs.errors) + SquashErrors(resolvedSymbols, resolvedMembers, old(gs.EnclosingClass(ctxOwner)), klass.className)
    {
      var sym, name;
      sym, name, resolved, resolvedSymbols, resolvedMembers, resolvedErrors := ClassDefSymbol(gs, ctxOwner, klass);
      ghost var e1 := gs.errors;
      RecordBehaviorLoc(gs, sym, klass.declLoc, definesBehavior);
      assert old(gs.errors) <= e1 <= gs.errors;
      EnterScope();
      r := klass.(symbol := sym, className := name);
    }

    /** `postTransformClassDef`'s superclass defaults: the symbol's table
        entry gets `DefaultSuperClass` and nothing else changes. */
    method SetDefaultSuperClass(gs: SymbolTable, sym: nat, kind: ClassDefKind)
      requires gs.Valid() && gs.IsClass(sym)
      modifies gs
      ensures gs.Valid() && Extends(old(gs.symbols), gs.symbols) && gs.errors == old(gs.errors)
      ensures gs.symbols == old(gs.symbols)[sym := old(gs.symbols[sym]).(superClass := DefaultSuperClass(sym, kind, old(gs.symbols[sym].superClass)))]
    {
      var current := gs.symbols[sym].superClass;
      var superClass := DefaultSuperClass(sym, kind, current);
      if superClass != current {
        gs.SetSuperClass(sym, superClass.value);
      } else {
        UpdateSame(gs.symbols, sym);
      }
    }

    /** `final!` marks the class and its singleton class final. */
    method MarkFinal(gs: SymbolTable, sym: nat)
      requires gs.Valid() && gs.IsClass(sym)
      modifies gs
      ensures gs.Valid() && Extends(old(gs.symbols), gs.symbols) && gs.errors == old(gs.errors)
      ensures gs.HasSingleton(sym) && gs.symbols[sym].isFinal && gs.symbols[gs.symbols[sym].singleton.value].isFinal
      ensures SettingsOf(gs.symbols[sym]) == SettingsOf(old(gs.symbols[sym])).(isFinal := true)
    {
      gs.SetFinal(sym);
      ghost var s1 := gs.symbols;
      var singleton := gs.SingletonClass(sym);
      ghost var s2 := gs.symbols;
      gs.SetFinal(singleton);
      MarkedFinal(old(gs.symbols), s1, s2, gs.symbols, sym, singleton);
      ExtendsTransitive(old(gs.symbols), s1, s2);
      ExtendsTransitive(old(gs.symbols), s2, gs.symbols);
    }

    /** `abstract!` and `interface!` mark the class and its singleton class
        abstract. */
    method MarkAbstract(gs: SymbolTable, sym: nat)
      requires gs.Valid() && gs.IsClass(sym)
      modifies gs
      ensures gs.Valid() && Extends(old(gs.symbols), gs.symbols) && gs.errors == old(gs.errors)
      ensures gs.HasSingleton(sym) && gs.symbols[sym].isAbstract && gs.symbols[gs.symbols[sym].singleton.value].isAbstract
      ensures SettingsOf(gs.symbols[sym]) == SettingsOf(old(gs.symbols[sym])).(isAbstract := true)
    {
      gs.SetAbstract(sym);
      ghost var s1 := gs.symbols;
      var singleton := gs.SingletonClass(sym);
      ghost var s2 := gs.symbols;
      gs.SetAbstract(singleton);
      MarkedAbstract(old(gs.symbols), s1, s2, gs.symbols, sym, singleton);
      ExtendsTransitive(old(gs.symbols), s1, s2);
      ExtendsTransitive(old(gs.symbols), s2, gs.symbols);
    }

    /** The class-level declarations of `handleNamerDSL`: `final!`,
        `abstract!` and `interface!` (on any receiver). A class, as opposed
        to a module, cannot be an interface. */
    method ApplyClassDSL(gs: SymbolTable, sym: nat, kind: ClassDefKind, line: Expr)
      requires gs.Valid() && gs.IsClass(sym) && line.Send?
      modifies gs
      ensures gs.Valid() && Extends(old(gs.symbols), gs.symbols) && gs.IsClass(sym)
      ensures line.fun == DeclareFinal ==>
                gs.HasSingleton(sym) && gs.symbols[sym].isFinal && gs.symbols[gs.symbols[sym].singleton.value].isFinal
      ensures line.fun == DeclareInterface || line.fun == DeclareAbstract ==>
                gs.HasSingleton(sym) && gs.symbols[sym].isAbstract && gs.symbols[gs.symbols[sym].singleton.value].isAbstract
      ensures line.fun == DeclareInterface ==>
                && gs.symbols[sym].isInterface
                && gs.errors == old(gs.errors) + (if kind == ClassKind then [Error(line.loc, InterfaceClass)] else [])
      ensures line.fun != DeclareInterface ==> gs.errors == old(gs.errors)
      ensures line.fun != DeclareFinal && line.fun != DeclareInterface && line.fun != DeclareAbstract ==>
                gs.symbols == old(gs.symbols)
      ensures SettingsOf(gs.symbols[sym]) == LineSettings(SettingsOf(old(gs.symbols[sym])), line)
    {
      if line.fun == DeclareFinal {
        MarkFinal(gs, sym);
      } else if line.fun == DeclareInterface || line.fun == DeclareAbstract {
        MarkAbstract(gs, sym);
        if line.fun == DeclareInterface {
          ghost var s1 := gs.symbols;
          gs.SetInterface(sym);
          ExtendsTransitive(old(gs.symbols), s1, gs.symbols);
          if kind == ClassKind {
            gs.Report(line.loc, InterfaceClass);
          }
        }
      }
    }

    /** `handleNamerDSL`: whether a line of the class body is removed. An
        `include`/`extend` line is removed and its arguments join the
        ancestor lists; any other line stays, after `final!`, `abstract!`
        and `interface!` have taken effect. */
    method HandleNamerDSL(gs: SymbolTable, sym: nat, kind: ClassDefKind, lists: AncestorLists, line: Expr)
      returns (remove: bool, r: AncestorLists)
      requires gs.Valid() && gs.IsClass(sym)
      modifies gs
      ensures gs.Valid() && Extends(old(gs.symbols), gs.symbols) && old(gs.errors) <= gs.errors && gs.IsClass(sym)
      ensures remove <==> ConsumesAncestors(line)
      ensures remove ==> gs.symbols == old(gs.symbols) && gs.errors == old(gs.errors) + AncestorWalkDiagnostics(line.args)
      ensures r.ancestors == lists.ancestors + LineAncestors(line, Include)
      ensures r.singletonAncestors == lists.singletonAncestors + LineAncestors(line, Extend)
      ensures gs.errors == old(gs.errors) + LineDiagnostics(kind, line)
      ensures SettingsOf(gs.symbols[sym]) == LineSettings(SettingsOf(old(gs.symbols[sym])), line)
      ensures IsCallOf(line, DeclareFinal) ==>
                gs.HasSingleton(sym) && gs.symbols[gs.symbols[sym].singleton.value].isFinal
      ensures IsCallOf(line, DeclareAbstract) || IsCallOf(line, DeclareInterface) ==>
                gs.HasSingleton(sym) && gs.symbols[gs.symbols[sym].singleton.value].isAbstract
    {
      var added, diags;
      added, r, diags := AddAncestor(lists, line);
      gs.ReportAll(diags);
      if added {
        return true, r;
      }
      if line.Send? {
        ghost var e1 := gs.errors;
        ApplyClassDSL(gs, sym, kind, line);
        assert old(gs.errors) <= e1 <= gs.errors;
      }
      return false, r;
    }

    /** The `remove_if` of `postTransformClassDef` over the class body. */
    method FilterNamerDSL(gs: SymbolTable, sym: nat, kind: ClassDefKind, lists: AncestorLists, body: seq<Expr>)
      returns (kept: seq<Expr>, r: AncestorLists)
      requires gs.Valid() && gs.IsClass(sym)
      modifies gs
      ensures gs.Valid() && Extends(old(gs.symbols), gs.symbols) && old(gs.errors) <= gs.errors && gs.IsClass(sym)
      ensures kept == RemainingLines(body)
      ensures r.ancestors == lists.ancestors + DSLAncestors(body, Include)
      ensures r.singletonAncestors == lists.singletonAncestors + DSLAncestors(body, Extend)
      ensures gs.errors == old(gs.errors) + BodyDiagnostics(kind, body)
      ensures SettingsOf(gs.symbols[sym]) == BodySettings(SettingsOf(old(gs.symbols[sym])), body)
    {
      kept, r := [], lists;
      ghost var c0, e00 := SettingsOf(gs.symbols[sym]), gs.errors;
      var i := 0;
      while i < |body|
        invariant 0 <= i <= |body|
        invariant gs.Valid() && Extends(old(gs.symbols), gs.symbols) && gs.IsClass(sym)
        invariant FilteredSoFar(kind, body, i, lists, kept, r, e00, gs.errors, c0, SettingsOf(gs.symbols[sym]))
      {
        ghost var s0 := gs.symbols;
        ghost var e0, cs0 := gs.errors, SettingsOf(gs.symbols[sym]);
        var remove, next := HandleNamerDSL(gs, sym, kind, r, body[i]);
        FilterStep(kind, body, i, lists, kept, r, e00, e0, c0, cs0, remove, next, gs.errors, SettingsOf(gs.symbols[sym]));
        kept, r := if remove then kept else kept + [body[i]], next;
        ExtendsTransitive(old(gs.symbols), s0, gs.symbols);
        i := i + 1;
      }
      assert body[..|body|] == body;
    }

    /** The loop of `postTransformClassDef` over the singleton ancestors. */
    method KeepSingletonAncestors(sancs: seq<Expr>) returns (keep: seq<Expr>)
      ensures keep == KeptSingletonAncestors(sancs)
    {
      keep := [];
      var i := 0;
      while i < |sancs|
        invariant 0 <= i <= |sancs|
        invariant keep == KeptSingletonAncestors(sancs[..i])
      {
        assert sancs[..i + 1][..i] == sancs[..i];
        if ShouldLeaveAncestorForIDE(sancs[i]) {
          keep := keep + [KeepForIDE(sancs[i])];
        }
        i := i + 1;
      }
      assert sancs[..|sancs|] == sancs;
    }

    /** The body and ancestors of a class after `postTransformClassDef`. */
    method RewriteClassBody(gs: SymbolTable, klass: Expr) returns (k: Expr)
      requires klass.ClassDef? && gs.Valid() && gs.IsClass(klass.symbol)
      modifies gs
      ensures gs.Valid() && Extends(old(gs.symbols), gs.symbols) && old(gs.errors) <= gs.errors
      ensures RewrittenClass(klass, k)
      ensures gs.errors == old(gs.errors) + BodyDiagnostics(klass.classKind, klass.body)
                           + AncestorCheckDiagnostics(klass.ancestors + DSLAncestors(klass.body, Include))
      ensures SettingsOf(gs.symbols[klass.symbol]) == BodySettings(SettingsOf(old(gs.symbols[klass.symbol])), klass.body)
    {
      var kept, lists := FilterNamerDSL(gs, klass.symbol, klass.classKind,
                                        AncestorLists(klass.ancestors, klass.singletonAncestors), klass.body);
      var checked, keep, diags := CheckAncestors(klass.classKind == ModuleKind, lists.ancestors);
      ghost var e1 := gs.errors;
      gs.ReportAll(diags);
      assert old(gs.errors) <= e1 <= gs.errors;
      var keepSingleton := KeepSingletonAncestors(lists.singletonAncestors);
      k := klass.(ancestors := checked, singletonAncestors := lists.singletonAncestors, body := kept + keep + keepSingleton);
    }

    /** The class's definition site and its singleton class, as
        `postTransformClassDef` records them. */
    method RecordClassSymbol(gs: SymbolTable, klass: Expr)
      requires klass.ClassDef? && gs.Valid() && gs.IsClass(klass.symbol)
      modifies gs
      ensures gs.Valid() && Extends(old(gs.symbols), gs.symbols) && gs.errors == old(gs.errors)
      ensures klass.declLoc in gs.symbols[klass.symbol].locs
      ensures SettingsOf(gs.symbols[klass.symbol]) == SettingsOf(old(gs.symbols[klass.symbol]))
    {
      gs.AddLoc(klass.symbol, klass.declLoc);
      ghost var s1 := gs.symbols;
      var singleton := gs.SingletonClass(klass.symbol);
      assert gs.symbols[klass.symbol] == gs.symbols[..|s1|][klass.symbol];
      assert gs.symbols[klass.symbol].locs == s1[klass.symbol].locs;
      ExtendsTransitive(old(gs.symbols), s1, gs.symbols);
    }

    /** The superclass default, definition site and singleton class that
        `postTransformClassDef` records before it rewrites the body. */
    method RecordClassEntry(gs: SymbolTable, klass: Expr)
      requires klass.ClassDef? && gs.Valid() && gs.IsClass(klass.symbol)
      modifies gs
      ensures gs.Valid() && Extends(old(gs.symbols), gs.symbols) && gs.errors == old(gs.errors)
      ensures klass.declLoc in gs.symbols[klass.symbol].locs
      ensures SettingsOf(gs.symbols[klass.symbol]) ==
                SettingsOf(old(gs.symbols[klass.symbol])).(superClass :=
                  DefaultSuperClass(klass.symbol, klass.classKind, old(gs.symbols[klass.symbol].superClass)))
    {
      SetDefaultSuperClass(gs, klass.symbol, klass.classKind);
      ghost var s0 := gs.symbols;
      RecordClassSymbol(gs, klass);
      ExtendsTransitive(old(gs.symbols), s0, gs.symbols);
    }

    /** The static initializer `postTransformClassDef` makes sure of: the
        per-file one on the root's singleton for the top-level class, the
        class's own on its singleton otherwise. Only the singleton link of
        the class's entry may change. */
    method EnsureStaticInit(gs: SymbolTable, klass: Expr)
      requires klass.ClassDef? && gs.Valid() && gs.IsClass(klass.symbol)
      modifies gs
      ensures gs.Valid() && Extends(old(gs.symbols), gs.symbols) && gs.errors == old(gs.errors)
      ensures gs.symbols[klass.symbol] == old(gs.symbols[klass.symbol]).(singleton := gs.symbols[klass.symbol].singleton)
      ensures gs.HasSingleton(klass.symbol)
      ensures klass.symbol != Root ==>
                gs.FindMemberNoDealias(gs.symbols[klass.symbol].singleton.value, Plain(StaticInit)) != NoSymbol
      ensures klass.symbol == Root ==>
                gs.FindMemberNoDealias(gs.symbols[Root].singleton.value, FileStaticInit(klass.loc.file)) != NoSymbol
    {
      var init;
      if klass.symbol == Root {
        init := gs.StaticInitForFile(klass.loc);
      } else {
        init := gs.StaticInitForClass(klass.symbol, klass.loc);
      }
    }

    /** `postTransformClassDef`: closes the class's scope, records the class
        symbol's superclass default, site and singleton class, rewrites the
        body and ancestors, makes sure the static initializer exists, and
        wraps the class with the statements the IDE needs. */
    method PostTransformClassDef(gs: SymbolTable, klass: Expr) returns (r: Expr)
      requires klass.ClassDef? && gs.Valid() && gs.IsClass(klass.symbol) && |scopeStack| > 0
      modifies this, gs
      ensures scopeStack == old(scopeStack)[..|old(scopeStack)| - 1] && classBehaviorLocs == old(classBehaviorLocs)
      ensures gs.Valid() && Extends(old(gs.symbols), gs.symbols) && old(gs.errors) <= gs.errors
      ensures r.InsSeq? && r.loc == klass.declLoc && r.expr.ClassDef?
      ensures RewrittenClass(klass, r.expr) && r.stats == IdeStats(klass, r.expr.ancestors)
      ensures klass.declLoc in gs.symbols[klass.symbol].locs && gs.HasSingleton(klass.symbol)
      ensures klass.symbol != Root ==>
                gs.FindMemberNoDealias(gs.symbols[klass.symbol].singleton.value, Plain(StaticInit)) != NoSymbol
      ensures klass.symbol == Root ==>
                gs.FindMemberNoDealias(gs.symbols[Root].singleton.value, FileStaticInit(klass.loc.file)) != NoSymbol
      ensures gs.symbols[klass.symbol].superClass ==
                DefaultSuperClass(klass.symbol, klass.classKind, old(gs.symbols[klass.symbol].superClass))
      ensures SettingsOf(gs.symbols[klass.symbol]) ==
                BodySettings(SettingsOf(old(gs.symbols[klass.symbol])).(superClass :=
                               DefaultSuperClass(klass.symbol, klass.classKind, old(gs.symbols[klass.symbol].superClass))),
                             klass.body)
      ensures gs.errors == old(gs.errors) + BodyDiagnostics(klass.classKind, klass.body)
                           + AncestorCheckDiagnostics(klass.ancestors + DSLAncestors(klass.body, Include))
    {
      ExitScope();
      RecordClassEntry(gs, klass);
      ghost var s1 := gs.symbols;
      var k := RewriteClassBody(gs, klass);
      ghost var s2 := gs.symbols;
      ghost var e2 := gs.errors;
      assert klass.declLoc in s2[klass.symbol].locs by {
        assert s1[klass.symbol].locs <= s2[klass.symbol].locs;
      }
      EnsureStaticInit(gs, klass);
      assert SettingsOf(gs.symbols[klass.symbol]) == SettingsOf(s2[klass.symbol]);
      BodySettingsEffect(SettingsOf(s1[klass.symbol]), klass.body);
      ExtendsTransitive(old(gs.symbols), s1, s2);
      ExtendsTransitive(old(gs.symbols), s2, gs.symbols);
      r := InsSeq(klass.declLoc, IdeStats(klass, k.ancestors), k);
    }

    // -------------------------------------------------------------------
    // Constant assignments

    /** The first check of `fillAssign`: a constant may only be assigned in
        a class body or in a method the DSL passes synthesized. */
    method CheckConstantScope(gs: SymbolTable, ctxOwner: nat, loc: Loc)
      requires gs.Valid() && ctxOwner < |gs.symbols|
      modifies gs
      ensures gs.Valid() && gs.symbols == old(gs.symbols) && gs.members == old(gs.members)
      ensures gs.errors == old(gs.errors) + AssignScopeErrors(gs.IsClass(ctxOwner), gs.symbols[ctxOwner].isDSLSynthesized, loc)
    {
      if !gs.IsClass(ctxOwner) && !gs.symbols[ctxOwner].isDSLSynthesized {
        gs.Report(loc, DynamicConstantAssignment);
      }
    }

    /** The static field `cnst` of `scope` that `fillAssign` enters. A
        member of that name that is not a static field is an error and is
        renamed out of the way. */
    method ClaimConstantName(gs: SymbolTable, scope: nat, asgnLoc: Loc, lhsLoc: Loc, cnst: NameId) returns (field: nat)
      requires gs.Valid() && NoSymbol < scope && gs.IsClass(scope)
      modifies gs
      ensures gs.Valid() && ExtendsRenaming(old(gs.symbols), gs.symbols)
      ensures Root < field < |gs.symbols| && gs.symbols[field].kind == StaticField
      ensures gs.symbols[field].owner == scope && gs.symbols[field].name == Plain(cnst)
      ensures gs.FindMemberNoDealias(scope, Plain(cnst)) == field
      ensures var m := old(gs.FindMemberNoDealias(scope, Plain(cnst)));
              && (m == NoSymbol ==> field == old(|gs.symbols|) && gs.errors == old(gs.errors))
              && (m != NoSymbol && old(gs.symbols[m].kind) == StaticField ==>
                    field == m && gs.symbols == old(gs.symbols) && gs.errors == old(gs.errors))
              && (m != NoSymbol && old(gs.symbols[m].kind) != StaticField ==>
                    && field == old(|gs.symbols|)
                    && gs.errors == old(gs.errors) + [Error(asgnLoc, ModuleKindRedefinition)]
                    && gs.symbols[m].name == MangleRenamed(old(gs.symbols[m].name), old(|gs.symbols|)))
    {
      var existing := gs.FindMemberNoDealias(scope, Plain(cnst));
      if existing != NoSymbol && gs.symbols[existing].kind != StaticField {
        gs.Report(asgnLoc, ModuleKindRedefinition);
        gs.MangleRenameSymbol(existing, gs.symbols[existing].name);
        ghost var s1 := gs.symbols;
        field := gs.EnterStaticFieldSymbol(lhsLoc, scope, Plain(cnst));
        assert gs.symbols[existing] == s1[existing];
        RenamingThenExtends(old(gs.symbols), s1, gs.symbols);
      } else {
        field := gs.EnterStaticFieldSymbol(lhsLoc, scope, Plain(cnst));
        ExtendsIsRenaming(old(gs.symbols), gs.symbols);
      }
    }

    /** The scope of an assigned constant: its scope path resolved from the
        context class, and replaced by a class if it names something else. */
    method ConstantScope(gs: SymbolTable, ctxClass: nat, asgn: Expr)
      returns (scope: nat, newScope: Expr, ghost squashed: nat, ghost squashedSymbols: seq<SymbolData>, ghost squashedMembers: map<(nat, SymName), nat>)
      requires asgn.Assign? && asgn.lhs.UnresolvedConstantLit?
      requires gs.Valid() && NoSymbol < ctxClass < |gs.symbols| && ScopeRefsBelow(asgn.lhs.scope, |gs.symbols|)
      modifies gs
      ensures gs.Valid() && ExtendsRenaming(old(gs.symbols), gs.symbols) && old(gs.errors) <= gs.errors
      ensures NoSymbol < scope && gs.IsClass(scope)
      ensures ScopeChosen(old(gs.symbols), old(gs.members), squashedSymbols, squashedMembers, ctxClass, asgn.lhs.scope, squashed, newScope, scope)
      ensures squashedSymbols[squashed].kind != ClassOrModule ==>
                && gs.symbols[scope].owner == squashedSymbols[squashed].owner && gs.symbols[scope].name == squashedSymbols[squashed].name
                && |gs.errors| > 0 && gs.errors[|gs.errors| - 1] == Error(asgn.loc, InvalidClassOwner)
      ensures gs.errors == old(gs.errors) + ScopeErrors(squashedSymbols, squashedMembers, ctxClass, asgn, squashed)
    {
      scope, newScope := SquashNames(gs, ctxClass, asgn.lhs.scope);
      squashed, squashedSymbols, squashedMembers := scope, gs.symbols, gs.members;
      ghost var s1 := gs.symbols;
      scope := ClassScope(gs, scope, asgn.loc, newScope.Location());
      ExtendsThenRenaming(old(gs.symbols), s1, gs.symbols);
    }

    /** The scope `squashNames` gave an assigned constant, when it is a
        class; otherwise `InvalidClassOwner` at the assignment, and a new
        class of the same owner and name replaces it. */
    method ClassScope(gs: SymbolTable, scope: nat, asgnLoc: Loc, scopeLoc: Loc) returns (r: nat)
      requires gs.Valid() && NoSymbol < scope < |gs.symbols|
      modifies gs
      ensures gs.Valid() && ExtendsRenaming(old(gs.symbols), gs.symbols) && NoSymbol < r && gs.IsClass(r)
      ensures old(gs.IsClass(scope)) ==> r == scope && gs.symbols == old(gs.symbols) && gs.errors == old(gs.errors)
      ensures !old(gs.IsClass(scope)) ==>
                && r == old(|gs.symbols|) && gs.symbols[r].owner == old(gs.symbols[scope].owner) && gs.symbols[r].name == old(gs.symbols[scope].name)
                && gs.errors == old(gs.errors) + [Error(asgnLoc, InvalidClassOwner)]
      ensures gs.errors == old(gs.errors) + if old(gs.symbols[scope].kind) != ClassOrModule then [Error(asgnLoc, InvalidClassOwner)] else []
    {
      r := scope;
      if !gs.IsClass(scope) {
        gs.Report(asgnLoc, InvalidClassOwner);
        r := ReplaceByClass(gs, scope, scopeLoc);
      } else {
        ExtendsIsRenaming(gs.symbols, gs.symbols);
      }
    }

    /** The part of `fillAssign` after the scope check: the constant's scope
        is resolved and the static field entered in it. */
    method DefineConstant(gs: SymbolTable, ctxClass: nat, asgn: Expr)
      returns (r: Expr, ghost scope: nat, ghost newScope: Expr,
               ghost squashed: nat, ghost squashedSymbols: seq<SymbolData>, ghost squashedMembers: map<(nat, SymName), nat>)
      requires asgn.Assign? && asgn.lhs.UnresolvedConstantLit?
      requires gs.Valid() && NoSymbol < ctxClass < |gs.symbols| && ScopeRefsBelow(asgn.lhs.scope, |gs.symbols|)
      modifies gs
      ensures gs.Valid() && ExtendsRenaming(old(gs.symbols), gs.symbols) && old(gs.errors) <= gs.errors
      ensures FilledAssignIn(gs, asgn, r, scope, newScope)
      ensures ScopeChosen(old(gs.symbols), old(gs.members), squashedSymbols, squashedMembers, ctxClass, asgn.lhs.scope, squashed, newScope, scope)
      ensures var pre := old(gs.errors) + ScopeErrors(squashedSymbols, squashedMembers, ctxClass, asgn, squashed);
              gs.errors == pre || gs.errors == pre + [Error(asgn.loc, ModuleKindRedefinition)]
    {
      var sc, ns;
      sc, ns, squashed, squashedSymbols, squashedMembers := ConstantScope(gs, ctxClass, asgn);
      scope, newScope := sc, ns;
      ghost var s1 := gs.symbols;
      ghost var e1 := gs.errors;
      var field := ClaimConstantName(gs, sc, asgn.loc, asgn.lhs.loc, asgn.lhs.cnst);
      ExtendsRenamingTransitive(old(gs.symbols), s1, gs.symbols);
      assert old(gs.errors) <= e1 <= gs.errors;
      r := asgn.(lhs := ConstantLit(asgn.lhs.loc, field, Some(asgn.lhs.(scope := ns))));
    }

    /** `fillAssign`: enters the static field an assignment `X = ...`
        defines, and rewrites its left-hand side to that field. */
    method FillAssign(gs: SymbolTable, ctxOwner: nat, asgn: Expr)
      returns (r: Expr, ghost scope: nat, ghost newScope: Expr,
               ghost squashed: nat, ghost squashedSymbols: seq<SymbolData>, ghost squashedMembers: map<(nat, SymName), nat>)
      requires asgn.Assign? && asgn.lhs.UnresolvedConstantLit?
      requires gs.Valid() && ctxOwner < |gs.symbols| && ContextClassOf(gs, ctxOwner).Some?
      requires ScopeRefsBelow(asgn.lhs.scope, |gs.symbols|)
      modifies gs
      ensures gs.Valid() && ExtendsRenaming(old(gs.symbols), gs.symbols) && old(gs.errors) <= gs.errors
      ensures FilledAssignIn(gs, asgn, r, scope, newScope)
      ensures ScopeChosen(old(gs.symbols), old(gs.members), squashedSymbols, squashedMembers,
                          old(ContextClassOf(gs, ctxOwner)).value, asgn.lhs.scope, squashed, newScope, scope)
      ensures !old(gs.IsClass(ctxOwner)) && !old(gs.symbols[ctxOwner].isDSLSynthesized) ==>
                |gs.errors| > |old(gs.errors)| && gs.errors[|old(gs.errors)|] == Error(asgn.loc, DynamicConstantAssignment)
      ensures var pre := old(gs.errors) + AssignScopeErrors(old(gs.IsClass(ctxOwner)), old(gs.symbols[ctxOwner].isDSLSynthesized), asgn.loc)
                         + ScopeErrors(squashedSymbols, squashedMembers, old(ContextClassOf(gs, ctxOwner)).value, asgn, squashed);
              gs.errors == pre || gs.errors == pre + [Error(asgn.loc, ModuleKindRedefinition)]
    {
      var ctxClass := ContextClass(gs, ctxOwner);
      CheckConstantScope(gs, ctxOwner, asgn.loc);
      ghost var e1 := gs.errors;
      r, scope, newScope, squashed, squashedSymbols, squashedMembers := DefineConstant(gs, ctxClass.value, asgn);
      assert old(gs.errors) <= e1 <= gs.errors;
    }

    /** `handleAssignment`: `fillAssign`, and a constant assigned
        `T.type_alias(...)` is marked a type alias. */
    method HandleAssignment(gs: SymbolTable, ctxOwner: nat, asgn: Expr)
      returns (r: Expr, ghost scope: nat, ghost newScope: Expr,
               ghost squashed: nat, ghost squashedSymbols: seq<SymbolData>, ghost squashedMembers: map<(nat, SymName), nat>)
      requires asgn.Assign? && asgn.lhs.UnresolvedConstantLit? && asgn.rhs.Send?
      requires gs.Valid() && ctxOwner < |gs.symbols| && ContextClassOf(gs, ctxOwner).Some?
      requires ScopeRefsBelow(asgn.lhs.scope, |gs.symbols|)
      modifies gs
      ensures gs.Valid() && ExtendsRenaming(old(gs.symbols), gs.symbols) && old(gs.errors) <= gs.errors
      ensures FilledAssignIn(gs, asgn, r, scope, newScope)
      ensures ScopeChosen(old(gs.symbols), old(gs.members), squashedSymbols, squashedMembers,
                          old(ContextClassOf(gs, ctxOwner)).value, asgn.lhs.scope, squashed, newScope, scope)
      ensures asgn.rhs.fun == TypeAlias ==> gs.symbols[r.lhs.symbol].isTypeAlias
      ensures var pre := old(gs.errors) + AssignScopeErrors(old(gs.IsClass(ctxOwner)), old(gs.symbols[ctxOwner].isDSLSynthesized), asgn.loc)
                         + ScopeErrors(squashedSymbols, squashedMembers, old(ContextClassOf(gs, ctxOwner)).value, asgn, squashed);
              gs.errors == pre || gs.errors == pre + [Error(asgn.loc, ModuleKindRedefinition)]
    {
      r, scope, newScope, squashed, squashedSymbols, squashedMembers := FillAssign(gs, ctxOwner, asgn);
      if asgn.rhs.fun == TypeAlias && gs.symbols[r.lhs.symbol].kind == StaticField {
        ghost var s1 := gs.symbols;
        gs.SetTypeAlias(r.lhs.symbol);
        ExtendsIsRenaming(s1, gs.symbols);
        ExtendsRenamingTransitive(old(gs.symbols), s1, gs.symbols);
      }
    }

    // -------------------------------------------------------------------
    // Type members

    /** The `c_find_if` of `handleTypeMemberDefinition`: the position of the
        first type member of `owner` named `name`, or the end. */
    method FindTypeMember(gs: SymbolTable, owner: nat, name: SymName) returns (it: nat)
      requires owner < |gs.symbols|
      ensures it == FirstNamed(gs, gs.symbols[owner].typeMembers, name)
    {
      var tms := gs.symbols[owner].typeMembers;
      it := 0;
      while it < |tms| && !TypeMemberNamed(gs, tms[it], name)
        invariant 0 <= it <= |tms|
        invariant it + FirstNamed(gs, tms[it..], name) == FirstNamed(gs, tms, name)
      {
        assert tms[it..][1..] == tms[it + 1..];
        it := it + 1;
      }
    }


    /** A constant of the name being defined as a type member, defined
        elsewhere in a file that still exists, is an error and is renamed
        out of the way. */
    method ClearRedefinedConstant(gs: SymbolTable, owner: nat, typeName: Expr, loc: Loc)
      requires gs.Valid() && owner < |gs.symbols| && typeName.UnresolvedConstantLit?
      modifies gs
      ensures gs.Valid() && ExtendsRenaming(old(gs.symbols), gs.symbols)
      ensures var m := old(gs.FindMemberNoDealias(owner, Plain(typeName.cnst)));
              if m != NoSymbol && !old(SameOrStale(gs, m, loc)) then
                && gs.errors == old(gs.errors) + [Error(typeName.loc, InvalidTypeDefinition)]
                && gs.symbols == old(gs.symbols)[m := old(gs.symbols[m]).(name := MangleRenamed(Plain(typeName.cnst), old(|gs.symbols|)))]
              else gs.symbols == old(gs.symbols) && gs.errors == old(gs.errors)
      ensures var m := gs.FindMemberNoDealias(owner, Plain(typeName.cnst));
              m == NoSymbol || SameOrStale(gs, m, loc)
    {
      var m := gs.FindMemberNoDealias(owner, Plain(typeName.cnst));
      if m != NoSymbol && !SameOrStale(gs, m, loc) {
        gs.Report(typeName.loc, InvalidTypeDefinition);
        gs.MangleRenameSymbol(m, Plain(typeName.cnst));
      }
    }

    /** The checks of `handleTypeMemberDefinition` against earlier
        definitions of the name: a type member of that name defined
        elsewhere makes this one a duplicate; otherwise any other member of
        that name defined elsewhere is renamed out of the way. */
    method CheckTypeMemberName(gs: SymbolTable, onSymbol: nat, typeName: Expr, loc: Loc) returns (duplicate: bool)
      requires gs.Valid() && onSymbol < |gs.symbols| && typeName.UnresolvedConstantLit?
      modifies gs
      ensures gs.Valid() && ExtendsRenaming(old(gs.symbols), gs.symbols)
      ensures duplicate <==> old(DuplicateTypeMember(gs, onSymbol, Plain(typeName.cnst), loc))
      ensures duplicate ==>
                gs.symbols == old(gs.symbols) && gs.errors == old(gs.errors) + [Error(typeName.loc, InvalidTypeDefinition)]
      ensures !duplicate ==>
                var m := old(gs.FindMemberNoDealias(onSymbol, Plain(typeName.cnst)));
                if m != NoSymbol && !old(SameOrStale(gs, m, loc)) then
                  gs.errors == old(gs.errors) + [Error(typeName.loc, InvalidTypeDefinition)]
                else gs.symbols == old(gs.symbols) && gs.errors == old(gs.errors)
      ensures !duplicate ==>
                var m := gs.FindMemberNoDealias(onSymbol, Plain(typeName.cnst));
                m == NoSymbol || SameOrStale(gs, m, loc)
    {
      var it := FindTypeMember(gs, onSymbol, Plain(typeName.cnst));
      var tms := gs.symbols[onSymbol].typeMembers;
      if it < |tms| && !SameOrStale(gs, tms[it], loc) {
        gs.Report(typeName.loc, InvalidTypeDefinition);
        return true;
      }
      ClearRedefinedConstant(gs, onSymbol, typeName, loc);
      return false;
    }

    /** The static field a `type_template` also defines on the enclosing
        class, aliasing the type member. */
    method EnterTypeTemplateAlias(gs: SymbolTable, context: nat, typeName: Expr, loc: Loc, sym: nat)
      requires gs.Valid() && NoSymbol < context && gs.IsClass(context) && typeName.UnresolvedConstantLit?
      requires Root < sym < |gs.symbols| && gs.symbols[sym].kind == TypeMember && SymbolLoc(gs.symbols[sym]) == loc
      modifies gs
      ensures gs.Valid() && ExtendsRenaming(old(gs.symbols), gs.symbols) && gs.symbols[sym] == old(gs.symbols[sym])
      ensures var a := gs.FindMemberNoDealias(context, Plain(typeName.cnst));
              a != NoSymbol && gs.symbols[a].kind == StaticField && gs.symbols[a].resultType == AliasType(sym)
      ensures var m := old(gs.FindMemberNoDealias(context, Plain(typeName.cnst)));
              gs.errors == old(gs.errors) + (if m != NoSymbol && !old(SameOrStale(gs, m, loc)) then [Error(typeName.loc, InvalidTypeDefinition)] else [])
    {
      ClearRedefinedConstant(gs, context, typeName, loc);
      ghost var s1 := gs.symbols;
      assert s1[sym] == old(gs.symbols[sym]);
      var alias := EnterAliasField(gs, context, Plain(typeName.cnst), loc, sym);
      RenamingThenExtends(old(gs.symbols), s1, gs.symbols);
    }

    /** The static field `name` on `context`, entered or reused, made an
        alias of `sym`. */
    method EnterAliasField(gs: SymbolTable, context: nat, name: SymName, loc: Loc, sym: nat) returns (alias: nat)
      requires gs.Valid() && NoSymbol < context && gs.IsClass(context)
      requires Root < sym < |gs.symbols| && gs.symbols[sym].kind == TypeMember
      modifies gs
      ensures gs.Valid() && Extends(old(gs.symbols), gs.symbols) && gs.errors == old(gs.errors) && gs.symbols[sym] == old(gs.symbols[sym])
      ensures alias == gs.FindMemberNoDealias(context, name) && alias != NoSymbol
      ensures gs.symbols[alias].kind == StaticField && gs.symbols[alias].resultType == AliasType(sym)
    {
      alias := gs.EnterStaticFieldSymbol(loc, context, name);
      ghost var s2 := gs.symbols;
      gs.SetAliasTo(alias, sym);
      ExtendsTransitive(old(gs.symbols), s2, gs.symbols);
    }

    /** One key of a type member's option hash: `setFixed` and the untyped
        result type, or `setBounded`, as one update of the member's data. */
    method ApplyTypeMemberKey(gs: SymbolTable, sym: nat, key: Expr, asgn: Expr) returns (r: Expr)
      requires gs.Valid() && Root < sym < |gs.symbols| && asgn.Assign?
      modifies gs
      ensures gs.Valid() && Extends(old(gs.symbols), gs.symbols) && gs.errors == old(gs.errors) && gs.members == old(gs.members)
      ensures gs.symbols == old(gs.symbols)[sym := WithKey(old(gs.symbols[sym]), key)]
      ensures r == if key.IsSymbolLiteral() && key.value.symbolName == Fixed then FixedAssign(asgn, sym) else asgn
    {
      gs.RefsOf(sym);
      gs.Put(sym, WithKey(gs.symbols[sym], key));
      r := if key.IsSymbolLiteral() && key.value.symbolName == Fixed then FixedAssign(asgn, sym) else asgn;
    }

    /** The loop of `handleTypeMemberDefinition` over the keys of the
        option hash, each key applied in turn. */
    method ApplyTypeMemberKeys(gs: SymbolTable, sym: nat, keys: seq<Expr>, asgn: Expr) returns (r: Expr)
      requires gs.Valid() && Root < sym < |gs.symbols| && asgn.Assign?
      modifies gs
      ensures gs.Valid() && Extends(old(gs.symbols), gs.symbols) && gs.errors == old(gs.errors) && gs.members == old(gs.members)
      ensures gs.symbols == old(gs.symbols)[sym := WithKeys(old(gs.symbols[sym]), keys)]
      ensures r == if HasSymbolKey(keys, Fixed) then FixedAssign(asgn, sym) else asgn
    {
      r := asgn;
      var i := 0;
      while i < |keys|
        invariant 0 <= i <= |keys|
        invariant gs.Valid() && gs.errors == old(gs.errors) && gs.members == old(gs.members)
        invariant gs.symbols == old(gs.symbols)[sym := WithKeys(old(gs.symbols[sym]), keys[..i])]
        invariant r == if HasSymbolKey(keys[..i], Fixed) then FixedAssign(asgn, sym) else asgn
      {
        FixedAssignIdempotent(asgn, sym);
        ghost var before := gs.symbols;
        r := ApplyTypeMemberKey(gs, sym, keys[i], r);
        WithKeysStep(old(gs.symbols[sym]), keys, i);
        SeqUpdateTwice(old(gs.symbols), sym, WithKeys(old(gs.symbols[sym]), keys[..i]), WithKeys(old(gs.symbols[sym]), keys[..i + 1]));
        HasSymbolKeyStep(keys, i, Fixed);
        i := i + 1;
      }
      assert keys[..|keys|] == keys;
      WithKeysEffect(old(gs.symbols[sym]), keys);
      ExtendsByUpdate(old(gs.symbols), sym, WithKeys(old(gs.symbols[sym]), keys));
    }

    /** The verdict of `handleTypeMemberDefinition` on the option hash: a
        bounded member is an error, and so is one that is both fixed and
        bounded or neither; the definition is kept when it is exactly one. */
    method CheckTypeMemberBounds(gs: SymbolTable, sym: nat, sendLoc: Loc) returns (keep: bool)
      requires sym < |gs.symbols|
      modifies gs
      ensures gs.symbols == old(gs.symbols) && gs.members == old(gs.members)
      ensures var fixed := gs.symbols[sym].isFixed;
              var bounded := gs.symbols[sym].isBounded;
              && (keep <==> fixed != bounded)
              && gs.errors == old(gs.errors) + (if bounded then [Error(sendLoc, InvalidTypeDefinition)] else [])
                                             + (if fixed == bounded then [Error(sendLoc, InvalidTypeDefinition)] else [])
    {
      var fixed := gs.symbols[sym].isFixed;
      var bounded := gs.symbols[sym].isBounded;
      ghost var e0 := gs.errors;
      if bounded {
        gs.Report(sendLoc, InvalidTypeDefinition);
      }
      ghost var e1 := gs.errors;
      assert e1 == e0 + (if bounded then [Error(sendLoc, InvalidTypeDefinition)] else []);
      if fixed == bounded {
        gs.Report(sendLoc, InvalidTypeDefinition);
      }
      keep := fixed != bounded;
    }

    /** The option hash of a type member definition: its keys applied to
        the member, then the verdict on the member's flags. */
    method ApplyOptionHash(gs: SymbolTable, sym: nat, keys: seq<Expr>, asgn: Expr, sendLoc: Loc) returns (r: Expr)
      requires gs.Valid() && Root < sym < |gs.symbols| && asgn.Assign?
      modifies gs
      ensures gs.Valid() && Extends(old(gs.symbols), gs.symbols) && gs.members == old(gs.members)
      ensures gs.symbols == old(gs.symbols)[sym := WithKeys(old(gs.symbols[sym]), keys)]
      ensures var fixed := gs.symbols[sym].isFixed;
              var bounded := gs.symbols[sym].isBounded;
              && gs.errors == old(gs.errors) + (if bounded then [Error(sendLoc, InvalidTypeDefinition)] else [])
                                             + (if fixed == bounded then [Error(sendLoc, InvalidTypeDefinition)] else [])
              && r == if fixed == bounded then EmptyTree else if HasSymbolKey(keys, Fixed) then FixedAssign(asgn, sym) else asgn
    {
      var a := ApplyTypeMemberKeys(gs, sym, keys, asgn);
      var keep := CheckTypeMemberBounds(gs, sym, sendLoc);
      r := if keep then a else EmptyTree;
    }

    /** The option hash, if the definition ends with one. */
    method TypeMemberOptions(gs: SymbolTable, sym: nat, asgn: Expr) returns (r: Expr)
      requires IsTypeMemberDefinition(asgn)
      requires gs.Valid() && Root < sym < |gs.symbols| && !gs.symbols[sym].isFixed && !gs.symbols[sym].isBounded
      modifies gs
      ensures gs.Valid() && Extends(old(gs.symbols), gs.symbols) && gs.members == old(gs.members)
      ensures gs.symbols == old(gs.symbols)[sym := gs.symbols[sym]]
      ensures gs.symbols[sym].isFixed == KeysFixed(asgn.rhs.args) && gs.symbols[sym].isBounded == KeysBounded(asgn.rhs.args)
      ensures gs.symbols[sym].resultType == if KeysFixed(asgn.rhs.args) then Untyped else old(gs.symbols[sym].resultType)
      ensures gs.symbols[sym].variance == old(gs.symbols[sym].variance)
      ensures gs.errors == old(gs.errors) + BoundsDiagnostics(asgn.rhs.args, asgn.rhs.loc)
      ensures r == TypeMemberResult(asgn, sym)
    {
      var args := asgn.rhs.args;
      if |args| > 0 && args[|args| - 1].Hash? {
        var keys := args[|args| - 1].keys;
        HashOptionEffect(args, gs.symbols[sym]);
        r := ApplyOptionHash(gs, sym, keys, asgn, asgn.rhs.loc);
      } else {
        assert !KeysFixed(args) && !KeysBounded(args);
        r := EmptyTree;
      }
    }

    /** The symbols of a type member definition that is not a duplicate:
        the type member on `onSymbol` and, for a `type_template`, its alias
        on the enclosing class. */
    method EnterTypeMemberSymbols(gs: SymbolTable, ctxOwner: nat, onSymbol: nat, asgn: Expr, variance: Variance)
      returns (entered: bool, sym: nat)
      requires IsTypeMemberDefinition(asgn)
      requires gs.Valid() && NoSymbol < ctxOwner && gs.IsClass(ctxOwner) && NoSymbol < onSymbol && gs.IsClass(onSymbol)
      modifies gs
      ensures gs.Valid() && ExtendsRenaming(old(gs.symbols), gs.symbols) && old(gs.errors) <= gs.errors
      ensures entered <==> !old(DuplicateTypeMember(gs, onSymbol, Plain(asgn.lhs.cnst), asgn.loc))
      ensures !entered ==>
                gs.symbols == old(gs.symbols) && gs.errors == old(gs.errors) + [Error(asgn.lhs.loc, InvalidTypeDefinition)]
      ensures entered ==>
                && Root < sym < |gs.symbols| && gs.symbols[sym].kind == TypeMember
                && gs.symbols[sym].owner == onSymbol && gs.symbols[sym].name == Plain(asgn.lhs.cnst)
                && gs.symbols[sym].variance == variance && !gs.symbols[sym].isFixed && !gs.symbols[sym].isBounded
      ensures entered && asgn.rhs.fun == TypeMemberName ==> gs.FindMemberNoDealias(onSymbol, Plain(asgn.lhs.cnst)) == sym
      ensures entered && asgn.rhs.fun == TypeTemplate ==>
                var a := gs.FindMemberNoDealias(ctxOwner, Plain(asgn.lhs.cnst));
                a != NoSymbol && gs.symbols[a].kind == StaticField && gs.symbols[a].resultType == AliasType(sym)
    {
      var duplicate := CheckTypeMemberName(gs, onSymbol, asgn.lhs, asgn.loc);
      if duplicate {
        return false, NoSymbol;
      }
      ghost var s1 := gs.symbols;
      sym := gs.EnterTypeMember(asgn.loc, onSymbol, Plain(asgn.lhs.cnst), variance);
      RenamingThenExtends(old(gs.symbols), s1, gs.symbols);
      if asgn.rhs.fun == TypeTemplate {
        ghost var s2 := gs.symbols;
        ghost var e2 := gs.errors;
        var context := gs.EnclosingClass(ctxOwner);
        EnterTypeTemplateAlias(gs, context, asgn.lhs, asgn.loc, sym);
        ExtendsRenamingTransitive(old(gs.symbols), s2, gs.symbols);
        assert old(gs.errors) <= e2 <= gs.errors;
      }
      entered := true;
    }

    /** A type member definition whose arguments have been checked: the
        member entered unless it is a duplicate, and its option hash. */
    method DeclareTypeMember(gs: SymbolTable, ctxOwner: nat, onSymbol: nat, asgn: Expr, variance: Variance)
      returns (r: Expr, sym: nat)
      requires IsTypeMemberDefinition(asgn) && variance == TypeMemberVariance(asgn.rhs.loc, asgn.rhs.args)
      requires gs.Valid() && NoSymbol < ctxOwner && gs.IsClass(ctxOwner) && NoSymbol < onSymbol && gs.IsClass(onSymbol)
      modifies gs
      ensures gs.Valid() && ExtendsRenaming(old(gs.symbols), gs.symbols) && old(gs.errors) <= gs.errors
      ensures sym == NoSymbol <==> old(DuplicateTypeMember(gs, onSymbol, Plain(asgn.lhs.cnst), asgn.loc))
      ensures sym == NoSymbol ==>
                r == EmptyTree && gs.symbols == old(gs.symbols) && gs.errors == old(gs.errors) + [Error(asgn.lhs.loc, InvalidTypeDefinition)]
      ensures sym != NoSymbol ==> DeclaredTypeMember(gs, onSymbol, asgn, sym) && r == TypeMemberResult(asgn, sym)
    {
      var entered;
      entered, sym := EnterTypeMemberSymbols(gs, ctxOwner, onSymbol, asgn, variance);
      if !entered {
        return EmptyTree, NoSymbol;
      }
      ghost var s1 := gs.symbols;
      ghost var e1 := gs.errors;
      r := TypeMemberOptions(gs, sym, asgn);
      assert old(gs.errors) <= e1 <= gs.errors;
      ExtendsIsRenaming(s1, gs.symbols);
      ExtendsRenamingTransitive(old(gs.symbols), s1, gs.symbols);
    }

    /** `handleTypeMemberDefinition` once the symbol the member goes on is
        known: too many arguments make the definition a type alias;
        otherwise the variance is read, with a diagnostic for a bad first
        argument, and the member declared. `sym` is the member entered, or
        `NoSymbol`. */
    method DefineTypeMember(gs: SymbolTable, ctxOwner: nat, onSymbol: nat, asgn: Expr) returns (r: Expr, sym: nat)
      requires IsTypeMemberDefinition(asgn)
      requires gs.Valid() && NoSymbol < ctxOwner && gs.IsClass(ctxOwner) && NoSymbol < onSymbol && gs.IsClass(onSymbol)
      requires ScopeRefsBelow(asgn.lhs.scope, |gs.symbols|)
      modifies gs
      ensures gs.Valid() && ExtendsRenaming(old(gs.symbols), gs.symbols) && old(gs.errors) <= gs.errors
      ensures |asgn.rhs.args| > 2 ==>
                && sym == NoSymbol
                && FilledAssign(gs, TypeAliasUntyped(asgn), r) && gs.symbols[r.lhs.symbol].isTypeAlias
                && |gs.errors| > |old(gs.errors)| && gs.errors[|old(gs.errors)|] == Error(asgn.rhs.loc, InvalidTypeDefinition)
      ensures |asgn.rhs.args| <= 2 ==>
                (sym == NoSymbol <==> old(DuplicateTypeMember(gs, onSymbol, Plain(asgn.lhs.cnst), asgn.loc)))
      ensures |asgn.rhs.args| <= 2 && sym == NoSymbol ==>
                r == EmptyTree && gs.symbols == old(gs.symbols) && 0 < |gs.errors| && gs.errors[|gs.errors| - 1] == Error(asgn.lhs.loc, InvalidTypeDefinition)
      ensures sym != NoSymbol ==> DeclaredTypeMember(gs, onSymbol, asgn, sym) && r == TypeMemberResult(asgn, sym)
    {
      var send := asgn.rhs;
      var variance := Invariant;
      if |send.args| > 0 {
        if |send.args| > 2 {
          gs.Report(send.loc, InvalidTypeDefinition);
          ghost var e1 := gs.errors;
          ghost var sc, ns, sq, sqSymbols, sqMembers;
          r, sc, ns, sq, sqSymbols, sqMembers := HandleAssignment(gs, ctxOwner, TypeAliasUntyped(asgn));
          assert old(gs.errors) <= e1 <= gs.errors;
          return r, NoSymbol;
        }
        var d := DeclaredVariance(send.loc, send.args);
        gs.ReportAll(d.1);
        variance := d.0;
      }
      ghost var e2 := gs.errors;
      r, sym := DeclareTypeMember(gs, ctxOwner, onSymbol, asgn, variance);
      assert old(gs.errors) <= e2 <= gs.errors;
    }

    /** A `type_template` in a class other than the root goes on the
        class's singleton class. */
    method TypeTemplateInClass(gs: SymbolTable, ctxOwner: nat, asgn: Expr) returns (r: Expr, onSymbol: nat, sym: nat)
      requires IsTypeMemberDefinition(asgn) && asgn.rhs.fun == TypeTemplate
      requires gs.Valid() && Root < ctxOwner && gs.IsClass(ctxOwner) && ScopeRefsBelow(asgn.lhs.scope, |gs.symbols|)
      modifies gs
      ensures gs.Valid() && ExtendsRenaming(old(gs.symbols), gs.symbols) && old(gs.errors) <= gs.errors
      ensures old(gs.HasSingleton(ctxOwner)) ==> onSymbol == old(gs.symbols[ctxOwner].singleton.value)
      ensures !old(gs.HasSingleton(ctxOwner)) ==>
                onSymbol == old(|gs.symbols|) && onSymbol < |gs.symbols| && gs.symbols[onSymbol].attached == Some(ctxOwner)
      ensures |asgn.rhs.args| > 2 ==>
                && sym == NoSymbol && FilledAssign(gs, TypeAliasUntyped(asgn), r)
                && |gs.errors| > |old(gs.errors)| && gs.errors[|old(gs.errors)|] == Error(asgn.rhs.loc, InvalidTypeDefinition)
      ensures |asgn.rhs.args| <= 2 && sym == NoSymbol ==> r == EmptyTree
      ensures sym != NoSymbol ==> DeclaredTypeMember(gs, onSymbol, asgn, sym) && r == TypeMemberResult(asgn, sym)
    {
      onSymbol := gs.SingletonClass(ctxOwner);
      ScopeRefsBelowGrow(asgn.lhs.scope, old(|gs.symbols|), |gs.symbols|);
      ghost var s1 := gs.symbols;
      ghost var e1 := gs.errors;
      r, sym := DefineTypeMember(gs, ctxOwner, onSymbol, asgn);
      ExtendsThenRenaming(old(gs.symbols), s1, gs.symbols);
    }

    /** `handleTypeMemberDefinition`: type members are defined in classes
        only, and the root's become type aliases. `onSymbol` is the symbol
        the member goes on and `sym` the member entered, or `NoSymbol`. */
    method HandleTypeMemberDefinition(gs: SymbolTable, ctxOwner: nat, asgn: Expr) returns (r: Expr, onSymbol: nat, sym: nat)
      requires IsTypeMemberDefinition(asgn)
      requires gs.Valid() && NoSymbol < ctxOwner < |gs.symbols| && ScopeRefsBelow(asgn.lhs.scope, |gs.symbols|)
      modifies gs
      ensures gs.Valid() && ExtendsRenaming(old(gs.symbols), gs.symbols) && old(gs.errors) <= gs.errors
      ensures !old(gs.IsClass(ctxOwner)) ==>
                && r == EmptyTree && sym == NoSymbol && gs.symbols == old(gs.symbols)
                && gs.errors == old(gs.errors) + [Error(asgn.rhs.loc, InvalidTypeDefinition)]
      ensures ctxOwner == Root ==>
                && sym == NoSymbol && FilledAssign(gs, TypeAliasUntyped(asgn), r) && gs.symbols[r.lhs.symbol].isTypeAlias
                && |gs.errors| > |old(gs.errors)| && gs.errors[|old(gs.errors)|] == Error(asgn.rhs.loc, RootTypeMember)
      ensures old(gs.IsClass(ctxOwner)) && ctxOwner != Root && |asgn.rhs.args| > 2 ==>
                && sym == NoSymbol && FilledAssign(gs, TypeAliasUntyped(asgn), r)
                && |gs.errors| > |old(gs.errors)| && gs.errors[|old(gs.errors)|] == Error(asgn.rhs.loc, InvalidTypeDefinition)
      ensures old(gs.IsClass(ctxOwner)) && ctxOwner != Root && |asgn.rhs.args| <= 2 && asgn.rhs.fun == TypeMemberName ==>
                onSymbol == ctxOwner && (sym == NoSymbol <==> old(DuplicateTypeMember(gs, ctxOwner, Plain(asgn.lhs.cnst), asgn.loc)))
      ensures old(gs.IsClass(ctxOwner)) && ctxOwner != Root && |asgn.rhs.args| <= 2 && sym == NoSymbol ==> r == EmptyTree
      ensures sym != NoSymbol ==> DeclaredTypeMember(gs, onSymbol, asgn, sym) && r == TypeMemberResult(asgn, sym)
    {
      var send := asgn.rhs;
      onSymbol := ctxOwner;
      if !gs.IsClass(ctxOwner) {
        gs.Report(send.loc, InvalidTypeDefinition);
        return EmptyTree, onSymbol, NoSymbol;
      }
      if ctxOwner == Root {
        gs.Report(send.loc, RootTypeMember);
        ghost var e1 := gs.errors;
        ghost var sc, ns, sq, sqSymbols, sqMembers;
        r, sc, ns, sq, sqSymbols, sqMembers := HandleAssignment(gs, ctxOwner, TypeAliasUntyped(asgn));
        assert old(gs.errors) <= e1 <= gs.errors;
        return r, onSymbol, NoSymbol;
      }
      if send.fun == TypeTemplate {
        r, onSymbol, sym := TypeTemplateInClass(gs, ctxOwner, asgn);
      } else {
        r, sym := DefineTypeMember(gs, ctxOwner, onSymbol, asgn);
      }
    }

    /** `postTransformAssign`: an assignment to a constant defines a static
        field, a type alias, or a type member; other assignments are left
        alone. */
    method PostTransformAssign(gs: SymbolTable, ctxOwner: nat, asgn: Expr) returns (r: Expr)
      requires asgn.Assign? && ScopeRefsBelow(asgn.lhs, |gs.symbols|)
      requires gs.Valid() && NoSymbol < ctxOwner < |gs.symbols| && ContextClassOf(gs, ctxOwner).Some?
      modifies gs
      ensures gs.Valid() && ExtendsRenaming(old(gs.symbols), gs.symbols) && old(gs.errors) <= gs.errors
      ensures !asgn.lhs.UnresolvedConstantLit? ==> r == asgn && gs.symbols == old(gs.symbols) && gs.errors == old(gs.errors)
      ensures asgn.lhs.UnresolvedConstantLit? && !IsTypeMemberDefinition(asgn) ==> FilledAssign(gs, asgn, r)
      ensures asgn.lhs.UnresolvedConstantLit? && asgn.rhs.Send? && !asgn.rhs.recv.IsSelfReference() && asgn.rhs.fun == TypeAlias ==>
                gs.symbols[r.lhs.symbol].isTypeAlias
      ensures IsTypeMemberDefinition(asgn) && !old(gs.IsClass(ctxOwner)) ==> r == EmptyTree
      ensures IsTypeMemberDefinition(asgn) && ctxOwner == Root ==> FilledAssign(gs, TypeAliasUntyped(asgn), r)
      ensures IsTypeMemberDefinition(asgn) ==>
                r == EmptyTree || r == asgn || (r.Assign? && r.loc == asgn.loc && r.rhs.Send? && r.lhs.ConstantLit?)
    {
      if !asgn.lhs.UnresolvedConstantLit? {
        return asgn;
      }
      if !asgn.rhs.Send? {
        ghost var sc, ns, sq, sqSymbols, sqMembers;
        r, sc, ns, sq, sqSymbols, sqMembers := FillAssign(gs, ctxOwner, asgn);
        return;
      }
      if !asgn.rhs.recv.IsSelfReference() {
        ghost var sc, ns, sq, sqSymbols, sqMembers;
        r, sc, ns, sq, sqSymbols, sqMembers := HandleAssignment(gs, ctxOwner, asgn);
        return;
      }
      if asgn.rhs.fun == TypeTemplate || asgn.rhs.fun == TypeMemberName {
        var onSymbol, sym;
        r, onSymbol, sym := HandleTypeMemberDefinition(gs, ctxOwner, asgn);
      } else {
        ghost var sc, ns, sq, sqSymbols, sqMembers;
        r, sc, ns, sq, sqSymbols, sqMembers := FillAssign(gs, ctxOwner, asgn);
      }
    }
  }
}
