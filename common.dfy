/** Shared vocabulary: optional values, source locations, error classes,
    diagnostics, and the few string helpers (decimal rendering, prefix and
    substring tests, first-occurrence search) that the other modules use. */
module Common {

  datatype Option<T> = None | Some(value: T)

  type byte = x: int | 0 <= x < 256

  /** A source location `core::Loc`: a file and a half-open byte range.
      `NoLoc(file)` is `Loc::none(file)`, a location with no range. */
  datatype Loc = Loc(file: nat, beginPos: nat, endPos: nat) | NoLoc(file: nat)

  /** The error classes the core emits (core/errors/namer.h and the few
      parser, DSL and internal classes that the driver uses). */
  datatype ErrorClass =
    | IncludeMutipleParam | AncestorNotConstant | IncludePassedBlock
    | SelfOutsideClass | DynamicDSLInvocation | MethodNotFound | InvalidAlias
    | RedefinitionOfMethod | InvalidTypeDefinition | ModuleKindRedefinition
    | InterfaceClass | DynamicConstant | InvalidClassOwner | RootTypeMember
    | DynamicConstantAssignment | RepeatedArgument
    | MultipleBehaviorDefs
    | PrivateMethodMismatch
    | ParserError
    | InternalError | FileNotFound

  /** The numeric codes of the namer's error classes. */
  function NamerErrorCode(e: ErrorClass): (code: Option<nat>)
    ensures code.Some? ==> 4001 <= code.value <= 4018
  {
    match e
    case IncludeMutipleParam => Some(4001)
    case AncestorNotConstant => Some(4002)
    case IncludePassedBlock => Some(4003)
    case SelfOutsideClass => Some(4006)
    case DynamicDSLInvocation => Some(4007)
    case MethodNotFound => Some(4008)
    case InvalidAlias => Some(4009)
    case RedefinitionOfMethod => Some(4010)
    case InvalidTypeDefinition => Some(4011)
    case ModuleKindRedefinition => Some(4012)
    case InterfaceClass => Some(4013)
    case DynamicConstant => Some(4014)
    case InvalidClassOwner => Some(4015)
    case RootTypeMember => Some(4016)
    case DynamicConstantAssignment => Some(4017)
    case RepeatedArgument => Some(4018)
    case _ => None
  }

  /** An autocorrect suggestion: replace the text at `loc` by `text`. */
  datatype Replacement = Replacement(loc: Loc, text: string)

  /** A reported error. Header and explanation lines are not modelled. */
  datatype Diagnostic = Diagnostic(loc: Loc, errorClass: ErrorClass, autocorrect: Option<Replacement>)

  function Error(loc: Loc, c: ErrorClass): Diagnostic {
    Diagnostic(loc, c, None)
  }

  /** The number of diagnostics of class `c` in `ds`. */
  function CountClass(ds: seq<Diagnostic>, c: ErrorClass): nat {
    if ds == [] then 0
    else CountClass(ds[..|ds| - 1], c) + (if ds[|ds| - 1].errorClass == c then 1 else 0)
  }

  lemma CountClassAppend(a: seq<Diagnostic>, b: seq<Diagnostic>, c: ErrorClass)
    ensures CountClass(a + b, c) == CountClass(a, c) + CountClass(b, c)
    decreases |b|
  {
    if b != [] {
      assert (a + b)[..|a + b| - 1] == a + b[..|b| - 1];
      CountClassAppend(a, b[..|b| - 1], c);
    } else {
      assert a + b == a;
    }
  }

  lemma CountClassSnoc(a: seq<Diagnostic>, d: Diagnostic, c: ErrorClass)
    ensures CountClass(a + [d], c) == CountClass(a, c) + (if d.errorClass == c then 1 else 0)
  {
    assert (a + [d])[..|a|] == a;
  }

  // ---------------------------------------------------------------------
  // Decimal numerals

  function DigitChar(d: nat): (c: char)
    requires d < 10
    ensures '0' <= c <= '9' && (c as int) - ('0' as int) == d
  {
    (('0' as int) + d) as char
  }

  predicate IsDigit(c: char) {
    '0' <= c <= '9'
  }

  /** The decimal rendering of `n`, as `fmt::format("{}", n)` prints an
      unsigned number: no sign and no leading zeros. */
  function NatToString(n: nat): (r: string)
    ensures |r| >= 1
    ensures forall i :: 0 <= i < |r| ==> IsDigit(r[i])
    ensures |r| > 1 ==> r[0] != '0'
    decreases n
  {
    if n < 10 then [DigitChar(n)] else NatToString(n / 10) + [DigitChar(n % 10)]
  }

  /** The value of a non-empty string of digits. */
  function DigitsValue(s: string): nat
    requires forall i :: 0 <= i < |s| ==> IsDigit(s[i])
  {
    if s == [] then 0
    else
      assert IsDigit(s[|s| - 1]);
      DigitsValue(s[..|s| - 1]) * 10 + ((s[|s| - 1] as int) - ('0' as int))
  }

  lemma {:induction false} DigitsValueOfNatToString(n: nat)
    ensures DigitsValue(NatToString(n)) == n
    decreases n
  {
    var r := NatToString(n);
    if n < 10 {
    } else {
      DigitsValueOfNatToString(n / 10);
      assert r[..|r| - 1] == NatToString(n / 10);
    }
  }

  // ---------------------------------------------------------------------
  // Prefixes, substrings and search

  predicate StartsWith<T(==)>(s: seq<T>, p: seq<T>) {
    |p| <= |s| && s[..|p|] == p
  }

  predicate OccursAt<T(==)>(s: seq<T>, p: seq<T>, i: int) {
    0 <= i && i + |p| <= |s| && s[i..i + |p|] == p
  }

  ghost predicate IsSubstring<T>(p: seq<T>, s: seq<T>) {
    exists i :: OccursAt(s, p, i)
  }

  /** The first index at which `p` occurs in `s` at or after `from`, as
      `string_view::find` reports it; `None` stands for `npos`. */
  function FindFrom<T(==)>(s: seq<T>, p: seq<T>, from: nat): (r: Option<nat>)
    ensures r.Some? ==> from <= r.value && OccursAt(s, p, r.value)
    ensures r.Some? ==> forall j :: from <= j < r.value ==> !OccursAt(s, p, j)
    ensures r.None? ==> forall j :: from <= j ==> !OccursAt(s, p, j)
    decreases |s| - from
  {
    if from + |p| > |s| then None
    else if s[from..from + |p|] == p then Some(from)
    else FindFrom(s, p, from + 1)
  }

  function Find<T(==)>(s: seq<T>, p: seq<T>): (r: Option<nat>)
    ensures r.Some? ==> OccursAt(s, p, r.value) && forall j :: 0 <= j < r.value ==> !OccursAt(s, p, j)
    ensures r.None? <==> !IsSubstring(p, s)
  {
    FindFrom(s, p, 0)
  }

  lemma {:induction false} SubstringOfExtension<T>(p: seq<T>, s: seq<T>, pre: seq<T>, post: seq<T>)
    requires IsSubstring(p, s)
    ensures IsSubstring(p, pre + s + post)
  {
    var i :| OccursAt(s, p, i);
    var t := pre + s + post;
    assert t[|pre| + i..|pre| + i + |p|] == s[i..i + |p|];
    assert OccursAt(t, p, |pre| + i);
  }

  lemma SubstringOfSelf<T>(s: seq<T>)
    ensures IsSubstring(s, s)
  {
    assert OccursAt(s, s, 0);
  }
}
