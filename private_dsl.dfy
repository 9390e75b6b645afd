/** The `private` DSL pass (dsl/Private.cc): a `private` or
    `private_class_method` call whose single argument is a method
    definition on the wrong side (`private def self.foo`, or
    `private_class_method def foo`) draws a `PrivateMethodMismatch`
    error whose autocorrect swaps the keyword. The pass never replaces
    the call. */
module PrivateDsl {
  import opened Common
  import opened Ast

  /** The keyword each name is spelled with at the call site. */
  function KeywordText(fun: NameId): (text: string)
    requires fun == PrivateName || fun == PrivateClassMethod
    ensures |text| == if fun == PrivateName then 7 else 20
  {
    if fun == PrivateName then "private" else "private_class_method"
  }

  /** The name a keyword spells, if it is one of the two. */
  function KeywordName(text: string): (fun: Option<NameId>)
    ensures fun.Some? ==> fun.value == PrivateName || fun.value == PrivateClassMethod
    ensures fun.Some? ==> KeywordText(fun.value) == text
  {
    if text == "private" then Some(PrivateName)
    else if text == "private_class_method" then Some(PrivateClassMethod)
    else None
  }

  /** The single argument of `send` is a method definition. */
  predicate DefinesOneMethod(send: Expr)
    requires send.Send?
  {
    |send.args| == 1 && send.args[0].MethodDef?
  }

  /** The keyword does not match the side the method is defined on. */
  predicate Mismatched(send: Expr)
    requires send.Send?
  {
    && DefinesOneMethod(send)
    && ((send.fun == PrivateName && send.args[0].isSelf)
        || (send.fun == PrivateClassMethod && !send.args[0].isSelf))
  }

  /** The first `width` bytes of `loc`, in the same file. A location
      without a range stays one: `Loc::none` has no begin position to
      count from. */
  function KeywordSpan(loc: Loc, width: nat): (r: Loc)
    ensures r.file == loc.file
    ensures loc.Loc? <==> r.Loc?
    ensures loc.Loc? ==> r.beginPos == loc.beginPos && r.endPos - r.beginPos == width
  {
    match loc
    case Loc(file, beginPos, _) => Loc(file, beginPos, beginPos + width)
    case NoLoc(file) => NoLoc(file)
  }

  /** The diagnostic for a mismatched call: at the call, replacing the
      keyword written there by the other one. */
  function MismatchError(send: Expr): (d: Diagnostic)
    requires send.Send? && Mismatched(send)
    ensures d.loc == send.loc && d.errorClass == PrivateMethodMismatch && d.autocorrect.Some?
    ensures send.fun == PrivateName ==>
              d.autocorrect.value == Replacement(KeywordSpan(send.loc, 7), "private_class_method")
    ensures send.fun == PrivateClassMethod ==>
              d.autocorrect.value == Replacement(KeywordSpan(send.loc, 20), "private")
  {
    if send.fun == PrivateName then
      Diagnostic(send.loc, PrivateMethodMismatch,
                 Some(Replacement(KeywordSpan(send.loc, 7), "private_class_method")))
    else
      Diagnostic(send.loc, PrivateMethodMismatch,
                 Some(Replacement(KeywordSpan(send.loc, 20), "private")))
  }

  /** What `replaceDSL` produces: the trees that replace the call (none,
      so the call is kept) and the diagnostics it reports. */
  datatype Rewrite = Rewrite(replacement: seq<Expr>, diagnostics: seq<Diagnostic>)

  /** `Private::replaceDSL`. */
  function ReplaceDSL(send: Expr): (r: Rewrite)
    requires send.Send?
    ensures r.replacement == []
    ensures r.diagnostics != [] <==> Mismatched(send)
    ensures !DefinesOneMethod(send) ==> r.diagnostics == []
    ensures send.fun == PrivateName && DefinesOneMethod(send) ==>
              (r.diagnostics != [] <==> send.args[0].isSelf)
    ensures send.fun == PrivateClassMethod && DefinesOneMethod(send) ==>
              (r.diagnostics != [] <==> !send.args[0].isSelf)
    ensures send.fun != PrivateName && send.fun != PrivateClassMethod ==> r.diagnostics == []
    ensures |r.diagnostics| <= 1
    ensures forall i :: 0 <= i < |r.diagnostics| ==>
              r.diagnostics[i].loc == send.loc && r.diagnostics[i].errorClass == PrivateMethodMismatch
  {
    if |send.args| != 1 || !send.args[0].MethodDef? then Rewrite([], [])
    else if Mismatched(send) then Rewrite([], [MismatchError(send)])
    else Rewrite([], [])
  }

  /** The replaced span covers exactly the keyword written at the call
      site, and the replacement text is the other keyword. */
  lemma SuggestionSwapsKeyword(send: Expr)
    requires send.Send? && send.loc.Loc? && Mismatched(send)
    ensures var edit := ReplaceDSL(send).diagnostics[0].autocorrect.value;
            && edit.loc.file == send.loc.file && edit.loc.beginPos == send.loc.beginPos
            && edit.loc.endPos - edit.loc.beginPos == |KeywordText(send.fun)|
            && KeywordName(edit.text).Some?
            && KeywordName(edit.text).value != send.fun
  {
    var edit := ReplaceDSL(send).diagnostics[0].autocorrect.value;
    if send.fun == PrivateName {
      assert edit.text == "private_class_method";
      assert KeywordName(edit.text) == Some(PrivateClassMethod);
    } else {
      assert edit.text == "private";
      assert KeywordName(edit.text) == Some(PrivateName);
    }
  }

  /** Applying the autocorrect (calling the other keyword) silences the
      pass. */
  lemma SuggestionFixesMismatch(send: Expr)
    requires send.Send? && Mismatched(send)
    ensures var edit := ReplaceDSL(send).diagnostics[0].autocorrect.value;
            && KeywordName(edit.text).Some?
            && ReplaceDSL(send.(fun := KeywordName(edit.text).value)).diagnostics == []
  {
    var edit := ReplaceDSL(send).diagnostics[0].autocorrect.value;
    if send.fun == PrivateName {
      assert KeywordName(edit.text) == Some(PrivateClassMethod);
    } else {
      assert KeywordName(edit.text) == Some(PrivateName);
    }
  }
}
