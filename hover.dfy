/** The LSP hover request (main/lsp/requests/hover.cc): the markup that
    shows a documentation string followed by a type or signature, the
    signature of a call assembled from every component of its dispatch,
    and the response when the query under the cursor found nothing. */
module Hover {
  import opened Common

  /** The markup kind the client asked for. */
  datatype MarkupKind = PlainText | Markdown

  /** `MarkupContent`: the kind and the text. */
  datatype MarkupContent = MarkupContent(kind: MarkupKind, value: string)

  const RubyFenceOpen: string := "```ruby\n"
  const RubyFenceClose: string := "\n```"

  // ---------------------------------------------------------------------
  // formatRubyCode

  /** `docString.value_or("")`. */
  function DocText(docString: Option<string>): (d: string)
    ensures docString.None? ==> d == []
    ensures docString.Some? ==> d == docString.value
  {
    if docString.Some? then docString.value else ""
  }

  /** The signature part of the hover text: fenced as Ruby code for a
      Markdown client when there is something to show, verbatim
      otherwise. */
  function FormattedSig(kind: MarkupKind, typeString: string): (s: string)
    ensures kind == Markdown && |typeString| > 0 ==>
              && |s| == |RubyFenceOpen| + |typeString| + |RubyFenceClose|
              && StartsWith(s, RubyFenceOpen)
              && s[|RubyFenceOpen|..|RubyFenceOpen| + |typeString|] == typeString
              && s[|RubyFenceOpen| + |typeString|..] == RubyFenceClose
    ensures kind == PlainText || typeString == [] ==> s == typeString
  {
    if kind == Markdown && |typeString| > 0 then RubyFenceOpen + typeString + RubyFenceClose
    else typeString
  }

  /** The type string a signature part shows: the inverse of
      `FormattedSig`. */
  function UnwrapSig(kind: MarkupKind, s: string): (t: string)
    ensures |t| <= |s|
  {
    if kind == Markdown && |s| >= |RubyFenceOpen| + |RubyFenceClose|
       && s[..|RubyFenceOpen|] == RubyFenceOpen && s[|s| - |RubyFenceClose|..] == RubyFenceClose
    then s[|RubyFenceOpen|..|s| - |RubyFenceClose|]
    else s
  }

  lemma UnwrapFormattedSig(kind: MarkupKind, typeString: string)
    ensures UnwrapSig(kind, FormattedSig(kind, typeString)) == typeString
  {
    if kind == Markdown && |typeString| > 0 {
      var s := RubyFenceOpen + typeString + RubyFenceClose;
      assert s[..|RubyFenceOpen|] == RubyFenceOpen;
      assert s[|s| - |RubyFenceClose|..] == RubyFenceClose;
      assert s[|RubyFenceOpen|..|s| - |RubyFenceClose|] == typeString;
    }
  }

  /** `formatRubyCode`: the documentation, then the signature part, in
      the requested markup kind. */
  function FormatRubyCode(kind: MarkupKind, typeString: string, docString: Option<string>): (r: MarkupContent)
    ensures r.kind == kind
    ensures StartsWith(r.value, DocText(docString))
    ensures r.value[|DocText(docString)|..] == FormattedSig(kind, typeString)
  {
    var content := DocText(docString) + FormattedSig(kind, typeString);
    assert content[..|DocText(docString)|] == DocText(docString);
    MarkupContent(kind, content)
  }

  /** The hover text splits back into the documentation and the type
      string it was made from. */
  lemma FormatRubyCodeInverse(kind: MarkupKind, typeString: string, docString: Option<string>)
    ensures var r := FormatRubyCode(kind, typeString, docString);
            && r.value[..|DocText(docString)|] == DocText(docString)
            && UnwrapSig(kind, r.value[|DocText(docString)|..]) == typeString
  {
    UnwrapFormattedSig(kind, typeString);
  }

  // ---------------------------------------------------------------------
  // methodSignatureString

  /** One component of a dispatch: the method it resolved to (`0` when
      none exists) and the receiver type it was resolved on. */
  datatype DispatchComponent = DispatchComponent(methodSymbol: nat, receiver: nat)

  /** `DispatchResult`: the main component and the chain of secondary
      results (one per alternative of a union receiver). */
  datatype DispatchResult = DispatchResult(main: DispatchComponent, secondary: Option<DispatchResult>)

  predicate MethodExists(c: DispatchComponent) {
    c.methodSymbol != 0
  }

  /** The `methodDetail` of every component of the chain whose method
      exists, in chain order. `detail` stands for `methodDetail` with the
      return type and constraint of the call fixed. */
  function Details(chain: Option<DispatchResult>, detail: DispatchComponent -> string): (parts: seq<string>)
    decreases chain
  {
    if chain.None? then []
    else
      var here := if MethodExists(chain.value.main) then [detail(chain.value.main)] else [];
      here + Details(chain.value.secondary, detail)
  }

  /** `contents` after appending each of `parts` the way the loop does: a
      space first unless `contents` is still empty. */
  function SpaceAppended(contents: string, parts: seq<string>): (r: string)
    ensures |r| >= |contents|
    decreases |parts|
  {
    if parts == [] then contents
    else SpaceAppended((if contents != [] then contents + " " else contents) + parts[0], parts[1..])
  }

  /** The parts separated by single spaces. */
  function Join(parts: seq<string>): (r: string)
    decreases |parts|
  {
    if parts == [] then ""
    else if |parts| == 1 then parts[0]
    else parts[0] + " " + Join(parts[1..])
  }

  /** `methodSignatureString`: walks the main result and then the
      secondary chain until it ends. */
  method MethodSignatureString(dispatch: DispatchResult, detail: DispatchComponent -> string)
    returns (contents: string)
    ensures contents == SpaceAppended("", Details(Some(dispatch), detail))
  {
    contents := "";
    var start: Option<DispatchResult> := Some(dispatch);
    while start.Some?
      invariant SpaceAppended(contents, Details(start, detail)) == SpaceAppended("", Details(Some(dispatch), detail))
      decreases start
    {
      var dispatchComponent := start.value.main;
      ghost var rest := Details(start.value.secondary, detail);
      if MethodExists(dispatchComponent) {
        assert Details(start, detail) == [detail(dispatchComponent)] + rest;
        assert ([detail(dispatchComponent)] + rest)[1..] == rest;
        if contents != [] {
          contents := contents + " ";
        }
        contents := contents + detail(dispatchComponent);
      } else {
        assert Details(start, detail) == rest;
      }
      start := start.value.secondary;
    }
  }

  lemma {:induction false} SpaceAppendedNonEmpty(contents: string, parts: seq<string>)
    requires contents != []
    requires forall i :: 0 <= i < |parts| ==> parts[i] != []
    ensures SpaceAppended(contents, parts) == if parts == [] then contents else contents + " " + Join(parts)
    decreases |parts|
  {
    if parts != [] {
      var next := contents + " " + parts[0];
      SpaceAppendedNonEmpty(next, parts[1..]);
      if |parts| == 1 {
        assert parts[1..] == [];
      } else {
        assert next + " " + Join(parts[1..]) == contents + " " + (parts[0] + " " + Join(parts[1..]));
      }
    }
  }

  /** When every component's detail is non-empty, the signature is the
      details joined by single spaces, with no leading space. (An empty
      detail adds nothing, not even a separator, while the signature is
      still empty.) */
  lemma {:induction false} SignatureIsJoin(parts: seq<string>)
    requires forall i :: 0 <= i < |parts| ==> parts[i] != []
    ensures SpaceAppended("", parts) == Join(parts)
  {
    if parts != [] {
      assert ("" + parts[0]) == parts[0];
      SpaceAppendedNonEmpty(parts[0], parts[1..]);
      if |parts| == 1 {
        assert parts[1..] == [];
      }
    }
  }

  /** Only the components whose method exists contribute, one detail
      each. */
  lemma {:induction false} DetailsCount(chain: Option<DispatchResult>, detail: DispatchComponent -> string)
    ensures |Details(chain, detail)| == ExistingComponents(chain)
    decreases chain
  {
    if chain.Some? {
      DetailsCount(chain.value.secondary, detail);
    }
  }

  /** The number of components of the chain whose method exists. */
  function ExistingComponents(chain: Option<DispatchResult>): nat
    decreases chain
  {
    if chain.None? then 0
    else (if MethodExists(chain.value.main) then 1 else 0) + ExistingComponents(chain.value.secondary)
  }

  // ---------------------------------------------------------------------
  // handleTextDocumentHover

  /** The first query response under the cursor, reduced to what the
      hover shows. `findDocumentation`, `methodDetail` and the type
      printer are outside this model: their results are fields. */
  datatype QueryResponse =
    | SendResponse(dispatch: DispatchResult, documentation: Option<string>)
    | DefinitionResponse(signature: string, documentation: Option<string>)
    | TypeResponse(shownType: string, documentation: Option<string>)

  /** What `setupLSPQueryByLoc` produced. */
  datatype QuerySetup = TypecheckRun(responses: seq<QueryResponse>) | SetupError(message: string)

  /** The `result` or `error` of the response message. */
  datatype HoverResponse = NullHover | HoverContents(contents: MarkupContent) | ErrorResponse(message: string)

  /** The type or signature string a response's hover shows. */
  function ShownString(resp: QueryResponse, detail: DispatchComponent -> string): string {
    match resp
    case SendResponse(dispatch, _) => SpaceAppended("", Details(Some(dispatch), detail))
    case DefinitionResponse(signature, _) => signature
    case TypeResponse(shownType, _) => shownType
  }

  /** `handleTextDocumentHover`. */
  method HandleTextDocumentHover(kind: MarkupKind, setup: QuerySetup, detail: DispatchComponent -> string)
    returns (response: HoverResponse)
    ensures setup.TypecheckRun? && setup.responses == [] ==> response == NullHover
    ensures setup.TypecheckRun? && setup.responses != [] ==>
              && response.HoverContents?
              && response.contents.kind == kind
              && response.contents == FormatRubyCode(kind, ShownString(setup.responses[0], detail), setup.responses[0].documentation)
    ensures setup.SetupError? ==> response == ErrorResponse(setup.message)
  {
    if setup.SetupError? {
      return ErrorResponse(setup.message);
    }
    var queryResponses := setup.responses;
    if queryResponses == [] {
      return NullHover;
    }
    var resp := queryResponses[0];
    match resp
    case SendResponse(dispatch, documentation) =>
      var signature := MethodSignatureString(dispatch, detail);
      response := HoverContents(FormatRubyCode(kind, signature, documentation));
    case DefinitionResponse(signature, documentation) =>
      response := HoverContents(FormatRubyCode(kind, signature, documentation));
    case TypeResponse(shownType, documentation) =>
      response := HoverContents(FormatRubyCode(kind, shownType, documentation));
  }
}
