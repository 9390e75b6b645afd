/** The slice of the abstract syntax tree that the namer and the DSL passes
    inspect (ast/ast.h is not part of this model). Trees are values: each
    node owns its children, so a transform that rewrites a subtree returns
    the new tree. */
module Ast {
  import opened Common

  /** The id of an interned plain name. */
  type NameId = nat

  // Well-known names the namer and the DSL passes compare against. Their
  // numeric ids are arbitrary but distinct.
  const StaticInit: NameId := 1
  const SingletonName: NameId := 2
  const Include: NameId := 3
  const Extend: NameId := 4
  const PrivateName: NameId := 5
  const PrivateClassMethod: NameId := 6
  const ProtectedName: NameId := 7
  const PublicName: NameId := 8
  const ModuleFunction: NameId := 9
  const DeclareFinal: NameId := 10
  const DeclareInterface: NameId := 11
  const DeclareAbstract: NameId := 12
  const TypeTemplate: NameId := 13
  const TypeMemberName: NameId := 14
  const TypeAlias: NameId := 15
  const Covariant: NameId := 16
  const Contravariant: NameId := 17
  const InvariantName: NameId := 18
  const Fixed: NameId := 19
  const Lower: NameId := 20
  const Upper: NameId := 21
  const BlkArg: NameId := 22

  datatype IdentKind = LocalIdent | InstanceIdent | ClassIdent | GlobalIdent

  datatype LiteralValue = SymbolLit(symbolName: NameId) | OtherLit

  datatype ClassDefKind = ModuleKind | ClassKind

  /** One method parameter as `ArgParsing::parseArgs` reports it. */
  datatype ParsedArg = ParsedArg(
    loc: Loc, local: NameId,
    keyword: bool, block: bool, repeated: bool, shadow: bool,
    default_: Option<Expr>)

  datatype Expr =
    | EmptyTree
    | Self(loc: Loc)
    | Local(loc: Loc, local: NameId)
    | OptionalArg(loc: Loc, expr: Expr, defaultValue: Expr)
    | ConstantLit(loc: Loc, symbol: nat, original: Option<Expr>)
    | UnresolvedConstantLit(loc: Loc, scope: Expr, cnst: NameId)
    | UnresolvedIdent(loc: Loc, identKind: IdentKind, name: NameId)
    | Literal(loc: Loc, value: LiteralValue)
    | Hash(loc: Loc, keys: seq<Expr>, values: seq<Expr>)
    | Send(loc: Loc, recv: Expr, fun: NameId, args: seq<Expr>, block: Option<Expr>)
    | Assign(loc: Loc, lhs: Expr, rhs: Expr)
    | MethodDef(loc: Loc, declLoc: Loc, symbol: nat, name: NameId, isSelf: bool,
                params: seq<ParsedArg>, args: seq<Expr>, isDSLSynthesized: bool)
    | ClassDef(loc: Loc, declLoc: Loc, classKind: ClassDefKind, symbol: nat, className: Expr,
               ancestors: seq<Expr>, singletonAncestors: seq<Expr>, body: seq<Expr>)
    | KeepForIDE(kept: Expr)
    | InsSeq(loc: Loc, stats: seq<Expr>, expr: Expr)
    | Other(loc: Loc)
  {
    /** The node's location; `EmptyTree` has none. */
    function Location(): Loc {
      match this
      case EmptyTree => NoLoc(0)
      case KeepForIDE(e) => NoLoc(0)
      case Self(l) => l
      case Local(l, _) => l
      case OptionalArg(l, _, _) => l
      case ConstantLit(l, _, _) => l
      case UnresolvedConstantLit(l, _, _) => l
      case UnresolvedIdent(l, _, _) => l
      case Literal(l, _) => l
      case Hash(l, _, _) => l
      case Send(l, _, _, _, _) => l
      case Assign(l, _, _) => l
      case MethodDef(l, _, _, _, _, _, _, _) => l
      case ClassDef(l, _, _, _, _, _, _, _) => l
      case InsSeq(l, _, _) => l
      case Other(l) => l
    }

    predicate IsSelfReference() {
      Self?
    }

    predicate IsSymbolLiteral() {
      Literal? && value.SymbolLit?
    }
  }
}
