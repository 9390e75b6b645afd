/** The interned name table of a compilation state (core/Names.cc): the three
    kinds of names, their renderings, the table's invariants, the copy of a
    name into another state, and the debug check that a name reference is
    used only with the state that minted it (or one that shares its names). */
module Names {
  import opened Common

  datatype UniqueNameKind =
    | Parser | Desugar | Namer | MangleRename | Singleton | Overload
    | TypeVarName | PositionalArg | MangledKeywordArg | ResolverMissingClass

  /** One entry of a state's deep-clone history: the id of an ancestor state
      and the number of names that ancestor had when the clone was taken. */
  datatype DeepCloneInfo = DeepCloneInfo(globalStateId: int, lastNameKnownByParentGlobalState: int)

  /** The part of a `GlobalState` that the ownership check reads. */
  datatype StateIdentity = StateIdentity(globalStateId: int, deepCloneHistory: seq<DeepCloneInfo>)

  /** A `NameRef`: the index into the table and the id of the state that the
      debug check attributes the reference to. Equality of references in the
      source compares `id` only. */
  datatype NameRef = NameRef(id: nat, globalStateId: int)

  datatype NameKind = UTF8 | UNIQUE | CONSTANT

  datatype Name =
    | Utf8(text: string)
    | Unique(uniqueKind: UniqueNameKind, original: NameRef, num: nat)
    | Constant(original: NameRef)
  {
    function Kind(): NameKind {
      match this
      case Utf8(_) => UTF8
      case Unique(_, _, _) => UNIQUE
      case Constant(_) => CONSTANT
    }
  }

  // ---------------------------------------------------------------------
  // The ownership check (NameRefDebugCheck)

  /** The state a reference with index `id` minted by `gs` is attributed to:
      the first clone-history entry whose parent already knew the name, or
      `gs` itself. */
  function CreatorOf(history: seq<DeepCloneInfo>, own: int, id: int): int {
    if history == [] then own
    else if id < history[0].lastNameKnownByParentGlobalState then history[0].globalStateId
    else CreatorOf(history[1..], own, id)
  }

  /** Whether `check` lets a reference (attributed to `tag`) be used with `gs`. */
  ghost predicate RefAccepted(tag: int, gs: StateIdentity, id: int, lastWellKnownName: int) {
    || tag == -1
    || id <= lastWellKnownName
    || tag == gs.globalStateId
    || exists j :: 0 <= j < |gs.deepCloneHistory| && gs.deepCloneHistory[j].globalStateId == tag
                   && id < gs.deepCloneHistory[j].lastNameKnownByParentGlobalState
  }

  /** The constructor of the debug check: tags a reference with its state. */
  method NewNameRefDebugCheck(gs: StateIdentity, id: int) returns (globalStateId: int)
    ensures globalStateId == CreatorOf(gs.deepCloneHistory, gs.globalStateId, id)
  {
    var h := gs.deepCloneHistory;
    globalStateId := gs.globalStateId;
    var i := 0;
    while i < |h|
      invariant 0 <= i <= |h|
      invariant CreatorOf(h, gs.globalStateId, id) == CreatorOf(h[i..], gs.globalStateId, id)
    {
      assert h[i..][1..] == h[i + 1..];
      if id < h[i].lastNameKnownByParentGlobalState {
        globalStateId := h[i].globalStateId;
        return;
      }
      i := i + 1;
    }
  }

  /** `NameRefDebugCheck::check`: `ok` is false exactly where the source
      fails its "NameRef not owned by correct GlobalState" assertion. */
  method CheckNameRef(tag: int, gs: StateIdentity, id: int, lastWellKnownName: int) returns (ok: bool)
    ensures ok == RefAccepted(tag, gs, id, lastWellKnownName)
    ensures tag == -1 ==> ok
    ensures id <= lastWellKnownName ==> ok
  {
    if tag == -1 || id <= lastWellKnownName || tag == gs.globalStateId {
      return true;
    }
    var h := gs.deepCloneHistory;
    var i := 0;
    while i < |h|
      invariant 0 <= i <= |h|
      invariant forall j :: 0 <= j < i ==> !(h[j].globalStateId == tag && id < h[j].lastNameKnownByParentGlobalState)
    {
      if h[i].globalStateId == tag && id < h[i].lastNameKnownByParentGlobalState {
        return true;
      }
      i := i + 1;
    }
    return false;
  }

  lemma {:induction false} CreatorOfIsOwnOrAncestor(history: seq<DeepCloneInfo>, own: int, id: int)
    ensures || CreatorOf(history, own, id) == own
            || exists j :: 0 <= j < |history| && history[j].globalStateId == CreatorOf(history, own, id)
                           && id < history[j].lastNameKnownByParentGlobalState
  {
    if history != [] && !(id < history[0].lastNameKnownByParentGlobalState) {
      CreatorOfIsOwnOrAncestor(history[1..], own, id);
      if CreatorOf(history, own, id) != own {
        var j :| 0 <= j < |history[1..]| && history[1..][j].globalStateId == CreatorOf(history, own, id)
                 && id < history[1..][j].lastNameKnownByParentGlobalState;
        assert history[j + 1] == history[1..][j];
      }
    }
  }

  /** A reference minted by a state passes the ownership check against that
      same state. */
  lemma MintedRefAccepted(gs: StateIdentity, id: int, lastWellKnownName: int)
    ensures RefAccepted(CreatorOf(gs.deepCloneHistory, gs.globalStateId, id), gs, id, lastWellKnownName)
  {
    CreatorOfIsOwnOrAncestor(gs.deepCloneHistory, gs.globalStateId, id);
  }

  /** A reference minted by a parent state before a clone was taken passes
      the check in the clone: the clone's history is the parent's followed
      by an entry for the parent with the number of names it had. */
  lemma ParentRefAcceptedInClone(parent: StateIdentity, clone: StateIdentity, n: int, id: int, lastWellKnownName: int)
    requires clone.deepCloneHistory == parent.deepCloneHistory + [DeepCloneInfo(parent.globalStateId, n)]
    requires id < n
    ensures RefAccepted(CreatorOf(parent.deepCloneHistory, parent.globalStateId, id), clone, id, lastWellKnownName)
  {
    var h := parent.deepCloneHistory;
    var tag := CreatorOf(h, parent.globalStateId, id);
    CreatorOfIsOwnOrAncestor(h, parent.globalStateId, id);
    if tag == parent.globalStateId {
      assert clone.deepCloneHistory[|h|] == DeepCloneInfo(parent.globalStateId, n);
    } else {
      var j :| 0 <= j < |h| && h[j].globalStateId == tag && id < h[j].lastNameKnownByParentGlobalState;
      assert clone.deepCloneHistory[j] == h[j];
    }
  }

  // ---------------------------------------------------------------------
  // Renderings

  /** Every derived name's original precedes it in the table. */
  ghost predicate OriginalsPrecede(names: seq<Name>) {
    forall i :: 0 <= i < |names| && !names[i].Utf8? ==> names[i].original.id < i
  }

  /** The snapshot-test setting that hides the counter of the namer's static
      initializer names, and the id of the well-known name `staticInit`. */
  datatype RenderOptions = RenderOptions(censorForSnapshotTests: bool, staticInit: nat)

  predicate Censored(opts: RenderOptions, n: Name) {
    n.Unique? && opts.censorForSnapshotTests && n.uniqueKind == Namer && n.original.id == opts.staticInit
  }

  /** `Name::show`. */
  function Show(names: seq<Name>, id: nat): string
    requires OriginalsPrecede(names) && id < |names|
    decreases id
  {
    match names[id]
    case Utf8(t) => t
    case Unique(k, o, n) =>
      if k == Singleton then "<Class:" + Show(names, o.id) + ">"
      else if k == Overload then Show(names, o.id) + " (overload." + NatToString(n) + ")"
      else if k == MangleRename then Show(names, o.id) + "$" + NatToString(n)
      else Show(names, o.id)
    case Constant(o) => Show(names, o.id)
  }

  /** `Name::toString`. */
  function ToString(names: seq<Name>, opts: RenderOptions, id: nat): string
    requires OriginalsPrecede(names) && id < |names|
    decreases id
  {
    match names[id]
    case Utf8(t) => t
    case Unique(k, o, n) =>
      if k == Singleton then "<Class:" + Show(names, o.id) + ">"
      else if k == Overload then Show(names, o.id) + " (overload." + NatToString(n) + ")"
      else if Censored(opts, names[id]) then Show(names, o.id) + "$CENSORED"
      else Show(names, o.id) + "$" + NatToString(n)
    case Constant(o) => "<C " + ToString(names, opts, o.id) + ">"
  }

  /** The one-letter code `showRaw` prints for each kind of unique name. */
  function KindCode(k: UniqueNameKind): string {
    match k
    case Parser => "P"
    case Desugar => "D"
    case Namer => "N"
    case MangleRename => "M"
    case Singleton => "S"
    case Overload => "O"
    case TypeVarName => "T"
    case PositionalArg => "A"
    case MangledKeywordArg => "K"
    case ResolverMissingClass => "R"
  }

  /** `Name::showRaw`. */
  function ShowRaw(names: seq<Name>, opts: RenderOptions, id: nat): string
    requires OriginalsPrecede(names) && id < |names|
    decreases id
  {
    match names[id]
    case Utf8(t) => "<U " + t + ">"
    case Unique(k, o, n) =>
      "<" + KindCode(k) + " " + ShowRaw(names, opts, o.id) + " $"
        + (if Censored(opts, names[id]) then "CENSORED" else NatToString(n)) + ">"
    case Constant(o) => "<C " + ShowRaw(names, opts, o.id) + ">"
  }

  /** `Name::shortName`. */
  function ShortName(names: seq<Name>, id: nat): string
    requires OriginalsPrecede(names) && id < |names|
    decreases id
  {
    match names[id]
    case Utf8(t) => t
    case Unique(_, o, _) => ShortName(names, o.id)
    case Constant(o) => ShortName(names, o.id)
  }

  /** `Name::isClassName` (the assertion on a constant's original is not modelled). */
  function IsClassName(names: seq<Name>, id: nat): bool
    requires OriginalsPrecede(names) && id < |names|
    decreases id
  {
    match names[id]
    case Utf8(_) => false
    case Unique(k, o, _) => (k == Singleton || k == MangleRename) && IsClassName(names, o.id)
    case Constant(_) => true
  }

  /** The plain name a derived name is ultimately built from. */
  function Root(names: seq<Name>, id: nat): (r: nat)
    requires OriginalsPrecede(names) && id < |names|
    ensures r <= id && names[r].Utf8?
    decreases id
  {
    if names[id].Utf8? then id else Root(names, names[id].original.id)
  }

  /** The name left after removing the singleton and mangle-rename wrappers. */
  function Unwrapped(names: seq<Name>, id: nat): (r: nat)
    requires OriginalsPrecede(names) && id < |names|
    ensures r <= id
    ensures !(names[r].Unique? && (names[r].uniqueKind == Singleton || names[r].uniqueKind == MangleRename))
    decreases id
  {
    if names[id].Unique? && (names[id].uniqueKind == Singleton || names[id].uniqueKind == MangleRename)
    then Unwrapped(names, names[id].original.id)
    else id
  }

  /** `shortName` of any name is the text of the plain name it is built from. */
  lemma {:induction false} ShortNameIsRootText(names: seq<Name>, id: nat)
    requires OriginalsPrecede(names) && id < |names|
    ensures ShortName(names, id) == names[Root(names, id)].text
    decreases id
  {
    if !names[id].Utf8? {
      ShortNameIsRootText(names, names[id].original.id);
    }
  }

  /** A name is a class name exactly when removing its singleton and
      mangle-rename wrappers leaves a constant name. */
  lemma {:induction false} ClassNameIsWrappedConstant(names: seq<Name>, id: nat)
    requires OriginalsPrecede(names) && id < |names|
    ensures IsClassName(names, id) <==> names[Unwrapped(names, id)].Constant?
    decreases id
  {
    if names[id].Unique? && (names[id].uniqueKind == Singleton || names[id].uniqueKind == MangleRename) {
      ClassNameIsWrappedConstant(names, names[id].original.id);
    }
  }

  lemma SubstringWrapped<T>(p: seq<T>, s: seq<T>, pre: seq<T>, post: seq<T>)
    requires IsSubstring(p, s)
    ensures IsSubstring(p, pre + s + post) && IsSubstring(p, s + post) && IsSubstring(p, pre + s)
  {
    SubstringOfExtension(p, s, pre, post);
    SubstringOfExtension(p, s, [], post);
    assert [] + s + post == s + post;
    SubstringOfExtension(p, s, pre, []);
    assert pre + s + [] == pre + s;
  }

  /** Each way `show` and `toString` wrap the original name of a unique
      name keeps what the original displays. */
  lemma UniqueForms(p: string, sh: string, n: nat)
    requires IsSubstring(p, sh)
    ensures IsSubstring(p, "<Class:" + sh + ">")
    ensures IsSubstring(p, sh + " (overload." + NatToString(n) + ")")
    ensures IsSubstring(p, sh + "$" + NatToString(n))
    ensures IsSubstring(p, sh + "$CENSORED")
  {
    SubstringWrapped(p, sh, "<Class:", ">");
    SubstringWrapped(p, sh, [], " (overload." + NatToString(n) + ")");
    assert sh + " (overload." + NatToString(n) + ")" == sh + (" (overload." + NatToString(n) + ")");
    SubstringWrapped(p, sh, [], "$" + NatToString(n));
    assert sh + "$" + NatToString(n) == sh + ("$" + NatToString(n));
    SubstringWrapped(p, sh, [], "$CENSORED");
  }

  /** `show` displays the short name. */
  lemma {:induction false} ShortNameInShow(names: seq<Name>, id: nat)
    requires OriginalsPrecede(names) && id < |names|
    ensures IsSubstring(ShortName(names, id), Show(names, id))
    decreases id
  {
    match names[id]
    case Utf8(t) =>
      SubstringOfSelf(t);
    case Unique(k, o, n) =>
      ShortNameInShow(names, o.id);
      UniqueForms(ShortName(names, o.id), Show(names, o.id), n);
    case Constant(o) =>
      ShortNameInShow(names, o.id);
  }

  /** `toString` displays the short name. */
  lemma {:induction false} ShortNameInToString(names: seq<Name>, opts: RenderOptions, id: nat)
    requires OriginalsPrecede(names) && id < |names|
    ensures IsSubstring(ShortName(names, id), ToString(names, opts, id))
    decreases id
  {
    match names[id]
    case Utf8(t) =>
      SubstringOfSelf(t);
    case Unique(k, o, n) =>
      ShortNameInShow(names, o.id);
      UniqueForms(ShortName(names, o.id), Show(names, o.id), n);
    case Constant(o) =>
      ShortNameInToString(names, opts, o.id);
      SubstringWrapped(ShortName(names, o.id), ToString(names, opts, o.id), "<C ", ">");
  }

  /** `showRaw` displays the short name. */
  lemma {:induction false} ShortNameInShowRaw(names: seq<Name>, opts: RenderOptions, id: nat)
    requires OriginalsPrecede(names) && id < |names|
    ensures IsSubstring(ShortName(names, id), ShowRaw(names, opts, id))
    decreases id
  {
    match names[id]
    case Utf8(t) =>
      SubstringOfSelf(t);
      SubstringWrapped(t, t, "<U ", ">");
    case Unique(k, o, n) =>
      ShortNameInShowRaw(names, opts, o.id);
      var raw := ShowRaw(names, opts, o.id);
      var suffix := if Censored(opts, names[id]) then "CENSORED" else NatToString(n);
      SubstringWrapped(ShortName(names, o.id), raw, "<" + KindCode(k) + " ", " $" + suffix + ">");
      assert "<" + KindCode(k) + " " + raw + (" $" + suffix + ">")
          == "<" + KindCode(k) + " " + raw + " $" + suffix + ">";
    case Constant(o) =>
      ShortNameInShowRaw(names, opts, o.id);
      SubstringWrapped(ShortName(names, o.id), ShowRaw(names, opts, o.id), "<C ", ">");
  }

  /** Two names that differ at most in the debug tags of their references. */
  ghost predicate SameName(a: Name, b: Name) {
    match a
    case Utf8(t) => b == Utf8(t)
    case Unique(k, o, n) => b.Unique? && b.uniqueKind == k && b.num == n && b.original.id == o.id
    case Constant(o) => b.Constant? && b.original.id == o.id
  }

  ghost predicate SameNames(a: seq<Name>, b: seq<Name>) {
    |a| == |b| && forall i :: 0 <= i < |a| ==> SameName(a[i], b[i])
  }

  /** A table whose names were copied one by one renders every name exactly
      as the original table does. */
  lemma {:induction false} RenderingsSurviveCopy(names: seq<Name>, copy: seq<Name>, opts: RenderOptions, id: nat)
    requires OriginalsPrecede(names) && SameNames(names, copy) && id < |names|
    ensures OriginalsPrecede(copy)
    ensures Show(names, id) == Show(copy, id)
    ensures ToString(names, opts, id) == ToString(copy, opts, id)
    ensures ShowRaw(names, opts, id) == ShowRaw(copy, opts, id)
    ensures ShortName(names, id) == ShortName(copy, id)
    ensures IsClassName(names, id) == IsClassName(copy, id)
    decreases id
  {
    assert forall i :: 0 <= i < |copy| && !copy[i].Utf8? ==> copy[i].original.id == names[i].original.id;
    if !names[id].Utf8? {
      RenderingsSurviveCopy(names, copy, opts, names[id].original.id);
    }
  }

  /** `Name::deepCopy`: the copy keeps the kind, the text, the unique kind,
      the counter and the original's index, and re-tags the original's
      reference for the target state. */
  method DeepCopy(n: Name, to: StateIdentity) returns (out: Name)
    ensures out.Kind() == n.Kind()
    ensures SameName(n, out)
    ensures !n.Utf8? ==> out.original.globalStateId == CreatorOf(to.deepCloneHistory, to.globalStateId, n.original.id)
  {
    match n
    case Utf8(t) =>
      out := Utf8(t);
    case Unique(k, o, num) =>
      var tag := NewNameRefDebugCheck(to, o.id);
      out := Unique(k, NameRef(o.id, tag), num);
    case Constant(o) =>
      var tag := NewNameRefDebugCheck(to, o.id);
      out := Constant(NameRef(o.id, tag));
  }

  // ---------------------------------------------------------------------
  // The interned table

  type UniqueKey = (UniqueNameKind, nat, nat)

  function KeyOf(n: Name): UniqueKey
    requires n.Unique?
  {
    (n.uniqueKind, n.original.id, n.num)
  }

  /** The effect of interning the text `t`: the table is unchanged and the
      known id returned when `t` was interned before, and otherwise `Utf8(t)`
      is appended and its index returned. */
  ghost predicate InternsUtf8(names0: seq<Name>, ids0: map<string, nat>, t: string, names1: seq<Name>, r: NameRef) {
    && r.id < |names1| && names1[r.id] == Utf8(t)
    && (t in ids0 ==> names1 == names0 && r.id == ids0[t])
    && (t !in ids0 ==> names1 == names0 + [Utf8(t)] && r.id == |names0|)
  }

  ghost predicate TableValid(names: seq<Name>, utf8Ids: map<string, nat>, uniqueIds: map<UniqueKey, nat>,
                             constantIds: map<nat, nat>) {
    && OriginalsPrecede(names)
    && (forall i :: 0 <= i < |names| && names[i].Unique? ==> names[i].num > 0)
    && (forall t :: t in utf8Ids ==> utf8Ids[t] < |names| && names[utf8Ids[t]] == Utf8(t))
    && (forall i :: 0 <= i < |names| && names[i].Utf8? ==> names[i].text in utf8Ids && utf8Ids[names[i].text] == i)
    && (forall k :: k in uniqueIds ==> uniqueIds[k] < |names| && names[uniqueIds[k]].Unique? && KeyOf(names[uniqueIds[k]]) == k)
    && (forall i :: 0 <= i < |names| && names[i].Unique? ==> KeyOf(names[i]) in uniqueIds && uniqueIds[KeyOf(names[i])] == i)
    && (forall o :: o in constantIds ==> constantIds[o] < |names| && names[constantIds[o]].Constant? && names[constantIds[o]].original.id == o)
    && (forall i :: 0 <= i < |names| && names[i].Constant? ==> names[i].original.id in constantIds && constantIds[names[i].original.id] == i)
  }

  /** Appending a unique name whose key is new keeps the table valid. */
  lemma AppendUniqueValid(names: seq<Name>, utf8Ids: map<string, nat>, uniqueIds: map<UniqueKey, nat>,
                          constantIds: map<nat, nat>, n: Name)
    requires TableValid(names, utf8Ids, uniqueIds, constantIds)
    requires n.Unique? && n.original.id < |names| && n.num > 0 && KeyOf(n) !in uniqueIds
    ensures TableValid(names + [n], utf8Ids, uniqueIds[KeyOf(n) := |names|], constantIds)
  {
    var names1 := names + [n];
    assert forall i :: 0 <= i < |names| ==> names1[i] == names[i];
  }

  /** Appending a text that is not interned yet keeps the table valid. */
  lemma AppendUtf8Valid(names: seq<Name>, utf8Ids: map<string, nat>, uniqueIds: map<UniqueKey, nat>,
                        constantIds: map<nat, nat>, t: string)
    requires TableValid(names, utf8Ids, uniqueIds, constantIds) && t !in utf8Ids
    ensures TableValid(names + [Utf8(t)], utf8Ids[t := |names|], uniqueIds, constantIds)
  {
    var names1 := names + [Utf8(t)];
    assert forall i :: 0 <= i < |names| ==> names1[i] == names[i];
  }

  /** Appending a constant name whose original has none yet keeps the
      table valid. */
  lemma AppendConstantValid(names: seq<Name>, utf8Ids: map<string, nat>, uniqueIds: map<UniqueKey, nat>,
                            constantIds: map<nat, nat>, n: Name)
    requires TableValid(names, utf8Ids, uniqueIds, constantIds)
    requires n.Constant? && n.original.id < |names| && n.original.id !in constantIds
    ensures TableValid(names + [n], utf8Ids, uniqueIds, constantIds[n.original.id := |names|])
  {
    var names1 := names + [n];
    assert forall i :: 0 <= i < |names| ==> names1[i] == names[i];
  }

  /** The name table of one compilation state, with its interning maps. */
  class NameTable {
    var names: seq<Name>
    var utf8Ids: map<string, nat>
    var uniqueIds: map<UniqueKey, nat>
    var constantIds: map<nat, nat>
    const identity: StateIdentity

    /** The table invariants `sanityCheck` asserts, together with the
        interning maps being exactly the inverse of the table. */
    ghost predicate Valid()
      reads this
    {
      TableValid(names, utf8Ids, uniqueIds, constantIds)
    }

    constructor (identity: StateIdentity)
      ensures Valid() && names == [] && this.identity == identity
    {
      names := [];
      utf8Ids := map[];
      uniqueIds := map[];
      constantIds := map[];
      this.identity := identity;
    }

    /** `NameRef(gs, id)`: a reference tagged by the debug check. */
    method Ref(id: nat) returns (r: NameRef)
      ensures r.id == id && r.globalStateId == CreatorOf(identity.deepCloneHistory, identity.globalStateId, id)
    {
      var tag := NewNameRefDebugCheck(identity, id);
      r := NameRef(id, tag);
    }

    /** `enterNameUTF8`. */
    method EnterNameUtf8(t: string) returns (r: NameRef)
      requires Valid()
      modifies this
      ensures Valid()
      ensures InternsUtf8(old(names), old(utf8Ids), t, names, r)
      ensures t in old(utf8Ids) ==> utf8Ids == old(utf8Ids)
      ensures uniqueIds == old(uniqueIds) && constantIds == old(constantIds)
    {
      var id: nat;
      if t in utf8Ids {
        id := utf8Ids[t];
      } else {
        id := |names|;
        AppendUtf8Valid(names, utf8Ids, uniqueIds, constantIds, t);
        names := names + [Utf8(t)];
        utf8Ids := utf8Ids[t := id];
      }
      r := Ref(id);
    }

    /** `freshNameUnique`: the same triple always yields the same name. */
    method FreshNameUnique(k: UniqueNameKind, original: NameRef, num: nat) returns (r: NameRef)
      requires Valid() && original.id < |names| && num > 0
      modifies this
      ensures Valid()
      ensures r.id < |names| && names[r.id].Unique? && KeyOf(names[r.id]) == (k, original.id, num)
      ensures (k, original.id, num) in old(uniqueIds) ==> names == old(names) && r.id == old(uniqueIds)[(k, original.id, num)]
      ensures (k, original.id, num) !in old(uniqueIds) ==> names == old(names) + [names[r.id]] && r.id == old(|names|)
      ensures utf8Ids == old(utf8Ids) && constantIds == old(constantIds)
    {
      var key := (k, original.id, num);
      var id: nat;
      if key in uniqueIds {
        id := uniqueIds[key];
      } else {
        id := |names|;
        var o := Ref(original.id);
        AppendUniqueValid(names, utf8Ids, uniqueIds, constantIds, Unique(k, o, num));
        names := names + [Unique(k, o, num)];
        uniqueIds := uniqueIds[key := id];
      }
      r := Ref(id);
    }

    /** `enterNameConstant`. */
    method EnterNameConstant(original: NameRef) returns (r: NameRef)
      requires Valid() && original.id < |names|
      modifies this
      ensures Valid()
      ensures r.id < |names| && names[r.id].Constant? && names[r.id].original.id == original.id
      ensures original.id in old(constantIds) ==> names == old(names) && r.id == old(constantIds)[original.id]
      ensures original.id !in old(constantIds) ==> names == old(names) + [names[r.id]] && r.id == old(|names|)
      ensures utf8Ids == old(utf8Ids) && uniqueIds == old(uniqueIds)
    {
      var id: nat;
      if original.id in constantIds {
        id := constantIds[original.id];
      } else {
        id := |names|;
        var o := Ref(original.id);
        AppendConstantValid(names, utf8Ids, uniqueIds, constantIds, Constant(o));
        names := names + [Constant(o)];
        constantIds := constantIds[original.id := id];
      }
      r := Ref(id);
    }

    /** `NameRef::addEq`: interns the name's text followed by `=`. */
    method AddEq(ref: NameRef) returns (r: NameRef)
      requires Valid() && ref.id < |names| && names[ref.id].Utf8?
      modifies this
      ensures Valid()
      ensures InternsUtf8(old(names), old(utf8Ids), old(names)[ref.id].text + "=", names, r)
    {
      r := EnterNameUtf8(names[ref.id].text + "=");
    }

    /** `NameRef::addQuestion`: interns the name's text followed by `?`. */
    method AddQuestion(ref: NameRef) returns (r: NameRef)
      requires Valid() && ref.id < |names| && names[ref.id].Utf8?
      modifies this
      ensures Valid()
      ensures InternsUtf8(old(names), old(utf8Ids), old(names)[ref.id].text + "?", names, r)
    {
      r := EnterNameUtf8(names[ref.id].text + "?");
    }

    /** `NameRef::addAt`: interns `@` followed by the name's text. */
    method AddAt(ref: NameRef) returns (r: NameRef)
      requires Valid() && ref.id < |names| && names[ref.id].Utf8?
      modifies this
      ensures Valid()
      ensures InternsUtf8(old(names), old(utf8Ids), "@" + old(names)[ref.id].text, names, r)
    {
      r := EnterNameUtf8("@" + names[ref.id].text);
    }

    /** `NameRef::prepend`: interns `s` followed by the name's text. */
    method Prepend(ref: NameRef, s: string) returns (r: NameRef)
      requires Valid() && ref.id < |names| && names[ref.id].Utf8?
      modifies this
      ensures Valid()
      ensures InternsUtf8(old(names), old(utf8Ids), s + old(names)[ref.id].text, names, r)
    {
      r := EnterNameUtf8(s + names[ref.id].text);
    }

    /** `Name::sanityCheck` for the name at `id`: re-entering it yields the
        same id, its original precedes it, and a unique name's counter is
        positive. In a valid table the checks pass and change nothing. */
    method SanityCheck(id: nat, debugMode: bool) returns (ok: bool)
      requires Valid() && id < |names|
      modifies this
      ensures Valid() && ok
      ensures names == old(names) && utf8Ids == old(utf8Ids)
      ensures uniqueIds == old(uniqueIds) && constantIds == old(constantIds)
    {
      if !debugMode {
        return true;
      }
      match names[id]
      case Utf8(t) =>
        var again := EnterNameUtf8(t);
        ok := again.id == id;
      case Unique(k, o, n) =>
        ok := o.id < id && n > 0;
        var again := FreshNameUnique(k, o, n);
        ok := ok && again.id == id;
      case Constant(o) =>
        ok := o.id < id;
        var again := EnterNameConstant(o);
        ok := ok && again.id == id;
    }
  }

  /** Re-interning the same text, the same unique triple or the same constant
      original in a valid table finds the name already there. */
  lemma InterningIsIdempotent(names: seq<Name>, utf8Ids: map<string, nat>, uniqueIds: map<UniqueKey, nat>,
                              constantIds: map<nat, nat>, i: nat, j: nat)
    requires forall t :: t in utf8Ids ==> utf8Ids[t] < |names| && names[utf8Ids[t]] == Utf8(t)
    requires forall i :: 0 <= i < |names| && names[i].Utf8? ==> names[i].text in utf8Ids && utf8Ids[names[i].text] == i
    requires forall i :: 0 <= i < |names| && names[i].Unique? ==> KeyOf(names[i]) in uniqueIds && uniqueIds[KeyOf(names[i])] == i
    requires forall i :: 0 <= i < |names| && names[i].Constant? ==> names[i].original.id in constantIds && constantIds[names[i].original.id] == i
    requires i < |names| && j < |names| && SameName(names[i], names[j])
    ensures i == j
  {
  }
}
