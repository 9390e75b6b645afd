/** `ErrorAssertion::checkAll`: the error assertions of a set of test files
    held against the diagnostics the type checker reported for them. Both
    sides are sorted into (file name, range, message) order and walked
    together; each step consumes a diagnostic, an assertion, or both. */
module ErrorChecks {
  import opened Common
  import opened PositionAssertions

  /** An `ErrorAssertion`: an `error` or `error-with-dupes` comment. */
  datatype ErrorAssertion = ErrorAssertion(filename: string, range: Range, assertionLine: int,
                                           message: string, matchesDuplicateErrors: bool)

  /** A reported diagnostic as the language server presents it. */
  datatype LspDiagnostic = LspDiagnostic(range: Range, message: string)

  // ---------------------------------------------------------------------
  // getErrorAssertions

  function AsErrorAssertion(a: RangeAssertion): ErrorAssertion
    requires a.kind.ErrorKind?
  {
    ErrorAssertion(a.filename, a.range, a.assertionLine, a.kind.message, a.kind.matchesDuplicateErrors)
  }

  /** The error assertions among `assertions`, in order. */
  function ErrorAssertionsOf(assertions: seq<RangeAssertion>): seq<ErrorAssertion> {
    if assertions == [] then []
    else
      var last := assertions[|assertions| - 1];
      ErrorAssertionsOf(assertions[..|assertions| - 1]) + (if last.kind.ErrorKind? then [AsErrorAssertion(last)] else [])
  }

  /** Exactly the error assertions are kept. */
  lemma {:induction false} ErrorAssertionsOfMembers(assertions: seq<RangeAssertion>)
    ensures forall e :: e in ErrorAssertionsOf(assertions) ==>
              exists k :: 0 <= k < |assertions| && assertions[k].kind.ErrorKind? && e == AsErrorAssertion(assertions[k])
    ensures forall k :: 0 <= k < |assertions| && assertions[k].kind.ErrorKind? ==>
              AsErrorAssertion(assertions[k]) in ErrorAssertionsOf(assertions)
  {
    if assertions != [] {
      var init := assertions[..|assertions| - 1];
      ErrorAssertionsOfMembers(init);
      forall e | e in ErrorAssertionsOf(assertions)
        ensures exists k :: 0 <= k < |assertions| && assertions[k].kind.ErrorKind? && e == AsErrorAssertion(assertions[k])
      {
        if e in ErrorAssertionsOf(init) {
          var k :| 0 <= k < |init| && init[k].kind.ErrorKind? && e == AsErrorAssertion(init[k]);
          assert assertions[k] == init[k];
        } else {
          assert e == AsErrorAssertion(assertions[|assertions| - 1]);
        }
      }
      forall k | 0 <= k < |assertions| && assertions[k].kind.ErrorKind?
        ensures AsErrorAssertion(assertions[k]) in ErrorAssertionsOf(assertions)
      {
        if k < |init| {
          assert assertions[k] == init[k];
        }
      }
    }
  }

  /** `RangeAssertion::getErrorAssertions`. */
  method GetErrorAssertions(assertions: seq<RangeAssertion>) returns (rv: seq<ErrorAssertion>)
    ensures rv == ErrorAssertionsOf(assertions)
  {
    rv := [];
    for i := 0 to |assertions|
      invariant rv == ErrorAssertionsOf(assertions[..i])
    {
      TakeSnoc(assertions, i + 1);
      if assertions[i].kind.ErrorKind? {
        rv := rv + [AsErrorAssertion(assertions[i])];
      }
    }
    TakeAll(assertions);
  }

  // ---------------------------------------------------------------------
  // Matching one assertion against one diagnostic

  /** `ErrorAssertion::check`: the diagnostic's message contains the
      assertion's message. */
  function ErrorCheck(a: ErrorAssertion, d: LspDiagnostic): (r: bool)
    ensures r <==> IsSubstring(a.message, d.message)
  {
    Find(d.message, a.message).Some?
  }

  /** `isDuplicateDiagnostic`: the previous diagnostic matched an
      `error-with-dupes` assertion that this one matches as well. */
  function IsDuplicateDiagnostic(filename: string, last: Option<ErrorAssertion>, d: LspDiagnostic): (r: bool)
    ensures r <==> && last.Some? && last.value.matchesDuplicateErrors
                   && AssertionCompare(last.value.filename, last.value.range, filename, d.range) == 0
                   && IsSubstring(last.value.message, d.message)
  {
    last.Some? && last.value.matchesDuplicateErrors
    && AssertionCompare(last.value.filename, last.value.range, filename, d.range) == 0
    && Find(d.message, last.value.message).Some?
  }

  // ---------------------------------------------------------------------
  // The walk

  /** What the walk does at each step. */
  datatype Event =
    | Matched(filename: string, assertion: ErrorAssertion, diagnostic: LspDiagnostic, passed: bool)
    | Unexpected(filename: string, diagnostic: LspDiagnostic)
    | Missing(assertion: ErrorAssertion)
    | Duplicate(filename: string, diagnostic: LspDiagnostic, original: ErrorAssertion)

  /** One pass of the loop body over a file: the event, what is left of
      the diagnostics and of the assertions, and the assertion the next
      duplicate may attach to. */
  datatype StepResult = StepResult(event: Event, diags: seq<LspDiagnostic>, asserts: seq<ErrorAssertion>,
                                   last: Option<ErrorAssertion>)

  /** A duplicate of the last match is skipped; otherwise the first
      assertion is compared with the diagnostic, and the one that sorts
      first is consumed alone (as missing or unexpected), or both are
      consumed as a match. */
  function WalkStep(filename: string, diags: seq<LspDiagnostic>, asserts: seq<ErrorAssertion>,
                    last: Option<ErrorAssertion>): (r: StepResult)
    requires diags != []
    ensures |r.diags| + |r.asserts| < |diags| + |asserts|
    ensures r.event.Duplicate? <==> IsDuplicateDiagnostic(filename, last, diags[0])
    ensures r.event.Duplicate? ==> r.diags == diags[1..] && r.asserts == asserts && r.last == last
    ensures r.event.Unexpected? ==> r.diags == diags[1..] && r.asserts == asserts && r.last.None?
    ensures r.event.Missing? ==> asserts != [] && r.event.assertion == asserts[0] && r.diags == diags
                                 && r.asserts == asserts[1..] && r.last.None?
    ensures r.event.Matched? ==> asserts != [] && r.event.assertion == asserts[0] && r.diags == diags[1..]
                                 && r.asserts == asserts[1..] && r.last == Some(asserts[0])
    ensures !r.event.Missing? ==> r.event.filename == filename && r.event.diagnostic == diags[0]
  {
    var d := diags[0];
    if IsDuplicateDiagnostic(filename, last, d) then StepResult(Duplicate(filename, d, last.value), diags[1..], asserts, last)
    else if asserts == [] then StepResult(Unexpected(filename, d), diags[1..], asserts, None)
    else
      var a := asserts[0];
      var c := AssertionCompare(a.filename, a.range, filename, d.range);
      if c == 1 then StepResult(Unexpected(filename, d), diags[1..], asserts, None)
      else if c == -1 then StepResult(Missing(a), diags, asserts[1..], None)
      else StepResult(Matched(filename, a, d, ErrorCheck(a, d)), diags[1..], asserts[1..], Some(a))
  }

  /** The walk over one file's sorted diagnostics, from the first assertion
      not yet consumed; `last` is the assertion the previous diagnostic
      matched. Returns the events and the assertions left for later files. */
  function FileWalk(filename: string, diags: seq<LspDiagnostic>, asserts: seq<ErrorAssertion>,
                    last: Option<ErrorAssertion>): (seq<Event>, seq<ErrorAssertion>)
    decreases |diags| + |asserts|
  {
    if diags == [] then ([], asserts)
    else
      var st := WalkStep(filename, diags, asserts, last);
      var w := FileWalk(filename, st.diags, st.asserts, st.last);
      ([st.event] + w.0, w.1)
  }

  function MissingAll(asserts: seq<ErrorAssertion>): seq<Event> {
    if asserts == [] then [] else [Missing(asserts[0])] + MissingAll(asserts[1..])
  }

  /** The walk over every file, in the order given; the assertions left at
      the end are missing. */
  function Walk(files: seq<(string, seq<LspDiagnostic>)>, asserts: seq<ErrorAssertion>): seq<Event> {
    if files == [] then MissingAll(asserts)
    else
      var w := FileWalk(files[0].0, files[0].1, asserts, None);
      w.0 + Walk(files[1..], w.1)
  }

  /** An event that does not fail the check. */
  predicate Passed(e: Event) {
    match e
    case Matched(_, _, _, passed) => passed
    case Duplicate(_, _, _) => true
    case _ => false
  }

  predicate AllPassed(events: seq<Event>) {
    forall k :: 0 <= k < |events| ==> Passed(events[k])
  }

  lemma AllPassedAppend(a: seq<Event>, b: seq<Event>)
    ensures AllPassed(a + b) <==> AllPassed(a) && AllPassed(b)
  {
    if AllPassed(a) && AllPassed(b) {
      forall k | 0 <= k < |a + b|
        ensures Passed((a + b)[k])
      {
        if k >= |a| {
          assert (a + b)[k] == b[k - |a|];
        }
      }
    }
    if AllPassed(a + b) {
      forall k | 0 <= k < |a|
        ensures Passed(a[k])
      {
        assert (a + b)[k] == a[k];
      }
      forall k | 0 <= k < |b|
        ensures Passed(b[k])
      {
        assert (a + b)[|a| + k] == b[k];
      }
    }
  }

  // ---------------------------------------------------------------------
  // What the walk accounts for

  /** The assertions the events consume, in order. */
  function EventAssertions(events: seq<Event>): seq<ErrorAssertion> {
    if events == [] then []
    else
      (match events[0]
       case Matched(_, a, _, _) => [a]
       case Missing(a) => [a]
       case _ => [])
      + EventAssertions(events[1..])
  }

  /** The diagnostics the events consume, with their files, in order. */
  function EventDiagnostics(events: seq<Event>): seq<(string, LspDiagnostic)> {
    if events == [] then []
    else
      (match events[0]
       case Matched(f, _, d, _) => [(f, d)]
       case Unexpected(f, d) => [(f, d)]
       case Duplicate(f, d, _) => [(f, d)]
       case Missing(_) => [])
      + EventDiagnostics(events[1..])
  }

  function Tagged(filename: string, diags: seq<LspDiagnostic>): seq<(string, LspDiagnostic)> {
    if diags == [] then [] else [(filename, diags[0])] + Tagged(filename, diags[1..])
  }

  /** Every diagnostic of every file, in the order the files come. */
  function FlatDiagnostics(files: seq<(string, seq<LspDiagnostic>)>): seq<(string, LspDiagnostic)> {
    if files == [] then [] else Tagged(files[0].0, files[0].1) + FlatDiagnostics(files[1..])
  }

  lemma {:induction false} EventAssertionsAppend(a: seq<Event>, b: seq<Event>)
    ensures EventAssertions(a + b) == EventAssertions(a) + EventAssertions(b)
  {
    if a != [] {
      assert (a + b)[1..] == a[1..] + b;
      EventAssertionsAppend(a[1..], b);
    } else {
      assert a + b == b;
    }
  }

  lemma {:induction false} EventDiagnosticsAppend(a: seq<Event>, b: seq<Event>)
    ensures EventDiagnostics(a + b) == EventDiagnostics(a) + EventDiagnostics(b)
  {
    if a != [] {
      assert (a + b)[1..] == a[1..] + b;
      EventDiagnosticsAppend(a[1..], b);
    } else {
      assert a + b == b;
    }
  }

  lemma {:induction false} MissingAllAccounts(asserts: seq<ErrorAssertion>)
    ensures EventAssertions(MissingAll(asserts)) == asserts
    ensures EventDiagnostics(MissingAll(asserts)) == []
  {
    if asserts != [] {
      MissingAllAccounts(asserts[1..]);
      EventAssertionsAppend([Missing(asserts[0])], MissingAll(asserts[1..]));
      EventDiagnosticsAppend([Missing(asserts[0])], MissingAll(asserts[1..]));
    }
  }

  /** Within a file, the events consume the assertions up to those left
      over, and every diagnostic, each in order. */
  lemma {:induction false} FileWalkAccounts(filename: string, diags: seq<LspDiagnostic>,
                                            asserts: seq<ErrorAssertion>, last: Option<ErrorAssertion>)
    ensures var w := FileWalk(filename, diags, asserts, last);
            EventAssertions(w.0) + w.1 == asserts && EventDiagnostics(w.0) == Tagged(filename, diags)
    decreases |diags| + |asserts|
  {
    if diags != [] {
      var st := WalkStep(filename, diags, asserts, last);
      FileWalkAccounts(filename, st.diags, st.asserts, st.last);
      ConsAccounts(st.event, FileWalk(filename, st.diags, st.asserts, st.last).0);
      if st.event.Missing? || st.event.Matched? {
        HeadTail(asserts);
      }
    }
  }

  lemma ConsAccounts(e: Event, rest: seq<Event>)
    ensures EventAssertions([e] + rest) == EventAssertions([e]) + EventAssertions(rest)
    ensures EventDiagnostics([e] + rest) == EventDiagnostics([e]) + EventDiagnostics(rest)
  {
    EventAssertionsAppend([e], rest);
    EventDiagnosticsAppend([e], rest);
  }

  /** Over every file, each assertion is consumed exactly once, as matched
      or missing, and each diagnostic exactly once, as matched, unexpected
      or a duplicate, both in order. */
  lemma {:induction false} WalkAccounts(files: seq<(string, seq<LspDiagnostic>)>, asserts: seq<ErrorAssertion>)
    ensures EventAssertions(Walk(files, asserts)) == asserts
    ensures EventDiagnostics(Walk(files, asserts)) == FlatDiagnostics(files)
    decreases |files|
  {
    if files == [] {
      MissingAllAccounts(asserts);
    } else {
      var w := FileWalk(files[0].0, files[0].1, asserts, None);
      FileWalkAccounts(files[0].0, files[0].1, asserts, None);
      WalkAccounts(files[1..], w.1);
      EventAssertionsAppend(w.0, Walk(files[1..], w.1));
      EventDiagnosticsAppend(w.0, Walk(files[1..], w.1));
    }
  }

  // ---------------------------------------------------------------------
  // What each event means

  /** A matched pair compares equal, and passes exactly when the message is
      contained; a duplicate compares equal to an `error-with-dupes`
      assertion whose message it contains. */
  ghost predicate EventSound(e: Event) {
    match e
    case Matched(f, a, d, passed) =>
      AssertionCompare(a.filename, a.range, f, d.range) == 0 && (passed <==> IsSubstring(a.message, d.message))
    case Duplicate(f, d, o) =>
      && o.matchesDuplicateErrors && AssertionCompare(o.filename, o.range, f, d.range) == 0
      && IsSubstring(o.message, d.message)
    case _ => true
  }

  /** Duplicates attach to the assertion most recently matched, with no
      unexpected or missing event in between. */
  predicate DuplicatesFollowMatch(events: seq<Event>, last: Option<ErrorAssertion>) {
    if events == [] then true
    else
      match events[0]
      case Duplicate(_, _, o) => last == Some(o) && DuplicatesFollowMatch(events[1..], last)
      case Matched(_, a, _, _) => DuplicatesFollowMatch(events[1..], Some(a))
      case _ => DuplicatesFollowMatch(events[1..], None)
  }

  lemma {:induction false} FileWalkMeaning(filename: string, diags: seq<LspDiagnostic>,
                                           asserts: seq<ErrorAssertion>, last: Option<ErrorAssertion>)
    ensures var w := FileWalk(filename, diags, asserts, last);
            (forall k :: 0 <= k < |w.0| ==> EventSound(w.0[k])) && DuplicatesFollowMatch(w.0, last)
    decreases |diags| + |asserts|
  {
    if diags != [] {
      var st := WalkStep(filename, diags, asserts, last);
      FileWalkMeaning(filename, st.diags, st.asserts, st.last);
      var e := st.event;
      var rest := FileWalk(filename, st.diags, st.asserts, st.last).0;
      assert ([e] + rest)[1..] == rest;
      assert EventSound(e);
      forall k | 0 <= k < |[e] + rest|
        ensures EventSound(([e] + rest)[k])
      {
        if k > 0 {
          assert ([e] + rest)[k] == rest[k - 1];
        }
      }
    }
  }

  lemma {:induction false} MissingAllMeaning(asserts: seq<ErrorAssertion>, last: Option<ErrorAssertion>)
    ensures forall k :: 0 <= k < |MissingAll(asserts)| ==> MissingAll(asserts)[k].Missing?
    ensures DuplicatesFollowMatch(MissingAll(asserts), last)
  {
    if asserts != [] {
      MissingAllMeaning(asserts[1..], None);
      var r := MissingAll(asserts);
      assert r[1..] == MissingAll(asserts[1..]);
      forall k | 0 < k < |r|
        ensures r[k].Missing?
      {
        assert r[k] == MissingAll(asserts[1..])[k - 1];
      }
    }
  }

  // ---------------------------------------------------------------------
  // Sorting by (file name, range, message)

  datatype ErrorKey = ErrorKey(filename: string, range: Range, message: string)

  function KeyCompare(a: ErrorKey, b: ErrorKey): int {
    ErrorComparison(a.filename, a.range, a.message, b.filename, b.range, b.message)
  }

  function AssertionKey(a: ErrorAssertion): ErrorKey {
    ErrorKey(a.filename, a.range, a.message)
  }

  function DiagnosticKey(filename: string): LspDiagnostic -> ErrorKey {
    (d: LspDiagnostic) => ErrorKey(filename, d.range, d.message)
  }

  predicate SortedByKey<T>(s: seq<T>, key: T -> ErrorKey) {
    forall i, j :: 0 <= i < j < |s| ==> KeyCompare(key(s[i]), key(s[j])) <= 0
  }

  /** No element of `s` sorts before `b`. */
  predicate KeyLowerBound<T>(b: ErrorKey, s: seq<T>, key: T -> ErrorKey) {
    forall k :: 0 <= k < |s| ==> KeyCompare(b, key(s[k])) <= 0
  }

  function InsertByKey<T>(x: T, s: seq<T>, key: T -> ErrorKey): (r: seq<T>)
    ensures |r| == |s| + 1
    ensures multiset(r) == multiset(s) + multiset{x}
  {
    if s == [] then [x]
    else if KeyCompare(key(x), key(s[0])) <= 0 then [x] + s
    else
      HeadTail(s);
      [s[0]] + InsertByKey(x, s[1..], key)
  }

  lemma {:induction false} InsertByKeyBound<T>(b: ErrorKey, x: T, s: seq<T>, key: T -> ErrorKey)
    requires KeyLowerBound(b, s, key) && KeyCompare(b, key(x)) <= 0
    ensures KeyLowerBound(b, InsertByKey(x, s, key), key)
  {
    if s == [] {
    } else if KeyCompare(key(x), key(s[0])) <= 0 {
      var r := [x] + s;
      assert forall k :: 1 <= k < |r| ==> r[k] == s[k - 1];
    } else {
      var tail := s[1..];
      assert forall k :: 0 <= k < |tail| ==> tail[k] == s[k + 1];
      InsertByKeyBound(b, x, tail, key);
      var rest := InsertByKey(x, tail, key);
      var r := [s[0]] + rest;
      assert forall k :: 1 <= k < |r| ==> r[k] == rest[k - 1];
    }
  }

  lemma KeyCompareTransitive(a: ErrorKey, b: ErrorKey, c: ErrorKey)
    requires KeyCompare(a, b) <= 0 && KeyCompare(b, c) <= 0
    ensures KeyCompare(a, c) <= 0
  {
    ErrorComparisonTransitive(a.filename, a.range, a.message, b.filename, b.range, b.message, c.filename, c.range, c.message);
  }

  lemma {:induction false} InsertByKeySorted<T>(x: T, s: seq<T>, key: T -> ErrorKey)
    requires SortedByKey(s, key)
    ensures SortedByKey(InsertByKey(x, s, key), key)
  {
    if s == [] {
    } else if KeyCompare(key(x), key(s[0])) <= 0 {
      assert KeyLowerBound(key(x), s, key) by {
        forall j | 0 < j < |s| {
          KeyCompareTransitive(key(x), key(s[0]), key(s[j]));
        }
      }
    } else {
      var rest := InsertByKey(x, s[1..], key);
      InsertByKeySorted(x, s[1..], key);
      ErrorComparisonAntisymmetric(key(x).filename, key(x).range, key(x).message,
                                   key(s[0]).filename, key(s[0]).range, key(s[0]).message);
      InsertByKeyBound(key(s[0]), x, s[1..], key);
      var r := [s[0]] + rest;
      assert SortedByKey(r, key) by {
        forall i, j | 0 <= i < j < |r|
          ensures KeyCompare(key(r[i]), key(r[j])) <= 0
        {
          if i == 0 {
            assert KeyCompare(key(s[0]), key(rest[j - 1])) <= 0;
          } else {
            assert KeyCompare(key(rest[i - 1]), key(rest[j - 1])) <= 0;
          }
        }
      }
    }
  }

  /** `fast_sort` with `errorComparison`, as an insertion sort. */
  function SortByKey<T>(s: seq<T>, key: T -> ErrorKey): (r: seq<T>)
    ensures SortedByKey(r, key)
    ensures multiset(r) == multiset(s)
  {
    if s == [] then []
    else
      TakeSnoc(s, |s|);
      TakeAll(s);
      var sorted := SortByKey(s[..|s| - 1], key);
      InsertByKeySorted(s[|s| - 1], sorted, key);
      InsertByKey(s[|s| - 1], sorted, key)
  }

  // ---------------------------------------------------------------------
  // checkAll

  /** A `std::map` keyed by file name iterates in increasing name order. */
  predicate FilenamesIncreasing(files: seq<(string, seq<LspDiagnostic>)>) {
    forall i, j :: 0 <= i < j < |files| ==> StringLess(files[i].0, files[j].0)
  }

  /** Each file's diagnostics sorted in place. */
  function SortedFiles(files: seq<(string, seq<LspDiagnostic>)>): (r: seq<(string, seq<LspDiagnostic>)>)
    ensures |r| == |files|
    ensures forall i :: 0 <= i < |r| ==>
              r[i].0 == files[i].0 && SortedByKey(r[i].1, DiagnosticKey(files[i].0))
              && multiset(r[i].1) == multiset(files[i].1)
  {
    seq(|files|, i requires 0 <= i < |files| => (files[i].0, SortByKey(files[i].1, DiagnosticKey(files[i].0))))
  }

  /** The state of the walk over one file: the diagnostic and assertion
      reached and the last assertion matched, with the verdict so far. */
  ghost predicate WalkAt(filename: string, diagnostics: seq<LspDiagnostic>, assertions: seq<ErrorAssertion>,
                         di: nat, ai: nat, last: Option<ErrorAssertion>, success: bool,
                         rest: seq<ErrorAssertion>, verdict: bool)
    requires di <= |diagnostics| && ai <= |assertions|
  {
    var w := FileWalk(filename, diagnostics[di..], assertions[ai..], last);
    w.1 == rest && (success && AllPassed(w.0)) == verdict
  }

  /** The two loops over one file's sorted diagnostics, from assertion `ai0`. */
  method CheckFile(filename: string, diagnostics: seq<LspDiagnostic>, assertions: seq<ErrorAssertion>,
                   ai0: nat, success0: bool) returns (success: bool, ai: nat)
    requires ai0 <= |assertions|
    ensures ai0 <= ai <= |assertions|
    ensures var w := FileWalk(filename, diagnostics, assertions[ai0..], None);
            assertions[ai..] == w.1 && success == (success0 && AllPassed(w.0))
  {
    ghost var w0 := FileWalk(filename, diagnostics, assertions[ai0..], None);
    assert diagnostics[0..] == diagnostics;
    var di, last;
    di, ai, last, success := MatchDiagnostics(filename, diagnostics, assertions, ai0, success0, w0.1, success0 && AllPassed(w0.0));
    success := ReportUnexpected(filename, diagnostics, di, assertions, ai, last, success, w0.1, success0 && AllPassed(w0.0));
    assert diagnostics[|diagnostics|..] == [];
  }

  /** The first loop: diagnostics and assertions walked together. */
  method MatchDiagnostics(filename: string, diagnostics: seq<LspDiagnostic>, assertions: seq<ErrorAssertion>,
                          ai0: nat, success0: bool, ghost rest: seq<ErrorAssertion>, ghost verdict: bool)
    returns (di: nat, ai: nat, last: Option<ErrorAssertion>, success: bool)
    requires ai0 <= |assertions| && WalkAt(filename, diagnostics, assertions, 0, ai0, None, success0, rest, verdict)
    ensures di <= |diagnostics| && ai0 <= ai <= |assertions| && (di == |diagnostics| || ai == |assertions|)
    ensures WalkAt(filename, diagnostics, assertions, di, ai, last, success, rest, verdict)
  {
    di := 0;
    last := None;
    ai := ai0;
    success := success0;
    while di < |diagnostics| && ai < |assertions|
      invariant 0 <= di <= |diagnostics| && ai0 <= ai <= |assertions|
      invariant WalkAt(filename, diagnostics, assertions, di, ai, last, success, rest, verdict)
      decreases |diagnostics| - di + |assertions| - ai
    {
      var diagnostic := diagnostics[di];
      var assertion := assertions[ai];
      if IsDuplicateDiagnostic(filename, last, diagnostic) {
        WalkStepDiagnostic(filename, diagnostics, di, assertions[ai..], last, last);
        di := di + 1;
        continue;
      }
      var c := AssertionCompare(assertion.filename, assertion.range, filename, diagnostic.range);
      if c == 1 {
        WalkStepDiagnostic(filename, diagnostics, di, assertions[ai..], last, None);
        success := false;
        di := di + 1;
      } else if c == -1 {
        WalkStepAssertion(filename, diagnostics[di..], assertions, ai, last);
        success := false;
        ai := ai + 1;
      } else {
        WalkStepBoth(filename, diagnostics, di, assertions, ai, last);
        success := ErrorCheck(assertion, diagnostic) && success;
        di := di + 1;
        ai := ai + 1;
      }
      last := if c == 0 then Some(assertion) else None;
    }
  }

  /** The second loop: the diagnostics left once the assertions run out. */
  method ReportUnexpected(filename: string, diagnostics: seq<LspDiagnostic>, di0: nat, assertions: seq<ErrorAssertion>,
                          ai: nat, last0: Option<ErrorAssertion>, success0: bool,
                          ghost rest: seq<ErrorAssertion>, ghost verdict: bool)
    returns (success: bool)
    requires di0 <= |diagnostics| && ai <= |assertions| && (di0 == |diagnostics| || ai == |assertions|)
    requires WalkAt(filename, diagnostics, assertions, di0, ai, last0, success0, rest, verdict)
    ensures WalkAt(filename, diagnostics, assertions, |diagnostics|, ai, last0, success, rest, verdict)
  {
    var di := di0;
    var last := last0;
    success := success0;
    while di < |diagnostics|
      invariant di0 <= di <= |diagnostics|
      invariant WalkAt(filename, diagnostics, assertions, di, ai, last, success, rest, verdict)
      invariant di < |diagnostics| ==> ai == |assertions|
    {
      if !IsDuplicateDiagnostic(filename, last, diagnostics[di]) {
        WalkStepDiagnostic(filename, diagnostics, di, assertions[ai..], last, None);
        success := false;
        last := None;
      } else {
        WalkStepDiagnostic(filename, diagnostics, di, assertions[ai..], last, last);
      }
      di := di + 1;
    }
    EmptyWalk(filename, diagnostics, assertions, ai, last, last0);
  }

  /** Once the diagnostics are exhausted, `last` no longer matters. */
  lemma EmptyWalk(filename: string, diagnostics: seq<LspDiagnostic>, assertions: seq<ErrorAssertion>, ai: nat,
                  last: Option<ErrorAssertion>, last': Option<ErrorAssertion>)
    requires ai <= |assertions|
    ensures FileWalk(filename, diagnostics[|diagnostics|..], assertions[ai..], last)
            == FileWalk(filename, diagnostics[|diagnostics|..], assertions[ai..], last')
  {
    assert diagnostics[|diagnostics|..] == [];
  }

  /** A step that consumes diagnostic `di` alone, leaving `next` as the
      last matched assertion. */
  lemma WalkStepDiagnostic(filename: string, diagnostics: seq<LspDiagnostic>, di: nat,
                           asserts: seq<ErrorAssertion>, last: Option<ErrorAssertion>, next: Option<ErrorAssertion>)
    requires di < |diagnostics|
    requires var d := diagnostics[di];
             if IsDuplicateDiagnostic(filename, last, d) then next == last
             else next == None && (asserts == [] || AssertionCompare(asserts[0].filename, asserts[0].range, filename, d.range) == 1)
    ensures var w := FileWalk(filename, diagnostics[di..], asserts, last);
            var w' := FileWalk(filename, diagnostics[di + 1..], asserts, next);
            && w.1 == w'.1
            && AllPassed(w.0) == (IsDuplicateDiagnostic(filename, last, diagnostics[di]) && AllPassed(w'.0))
  {
    var ds := diagnostics[di..];
    assert ds[0] == diagnostics[di] && ds[1..] == diagnostics[di + 1..];
    var w' := FileWalk(filename, diagnostics[di + 1..], asserts, next);
    var e := if IsDuplicateDiagnostic(filename, last, diagnostics[di]) then Duplicate(filename, diagnostics[di], last.value)
             else Unexpected(filename, diagnostics[di]);
    assert FileWalk(filename, ds, asserts, last) == ([e] + w'.0, w'.1);
    AllPassedAppend([e], w'.0);
    assert [e][0] == e;
    assert AllPassed([e]) == Passed(e);
  }

  /** A step that consumes assertion `ai` alone, as missing. */
  lemma WalkStepAssertion(filename: string, diags: seq<LspDiagnostic>, assertions: seq<ErrorAssertion>, ai: nat,
                          last: Option<ErrorAssertion>)
    requires ai < |assertions| && diags != []
    requires !IsDuplicateDiagnostic(filename, last, diags[0])
    requires AssertionCompare(assertions[ai].filename, assertions[ai].range, filename, diags[0].range) == -1
    ensures var w := FileWalk(filename, diags, assertions[ai..], last);
            var w' := FileWalk(filename, diags, assertions[ai + 1..], None);
            w.1 == w'.1 && !AllPassed(w.0)
  {
    var rs := assertions[ai..];
    assert rs[0] == assertions[ai] && rs[1..] == assertions[ai + 1..];
    var w' := FileWalk(filename, diags, assertions[ai + 1..], None);
    assert FileWalk(filename, diags, rs, last) == ([Missing(assertions[ai])] + w'.0, w'.1);
    assert !Passed(([Missing(assertions[ai])] + w'.0)[0]);
  }

  /** A step that consumes diagnostic `di` and assertion `ai` together. */
  lemma WalkStepBoth(filename: string, diagnostics: seq<LspDiagnostic>, di: nat, assertions: seq<ErrorAssertion>, ai: nat,
                     last: Option<ErrorAssertion>)
    requires di < |diagnostics| && ai < |assertions|
    requires !IsDuplicateDiagnostic(filename, last, diagnostics[di])
    requires AssertionCompare(assertions[ai].filename, assertions[ai].range, filename, diagnostics[di].range) == 0
    ensures var w := FileWalk(filename, diagnostics[di..], assertions[ai..], last);
            var w' := FileWalk(filename, diagnostics[di + 1..], assertions[ai + 1..], Some(assertions[ai]));
            && w.1 == w'.1
            && AllPassed(w.0) == (ErrorCheck(assertions[ai], diagnostics[di]) && AllPassed(w'.0))
  {
    var ds := diagnostics[di..];
    var rs := assertions[ai..];
    assert ds[0] == diagnostics[di] && ds[1..] == diagnostics[di + 1..];
    assert rs[0] == assertions[ai] && rs[1..] == assertions[ai + 1..];
    var e := Matched(filename, assertions[ai], diagnostics[di], ErrorCheck(assertions[ai], diagnostics[di]));
    var w' := FileWalk(filename, diagnostics[di + 1..], assertions[ai + 1..], Some(assertions[ai]));
    assert FileWalk(filename, ds, rs, last) == ([e] + w'.0, w'.1);
    AllPassedAppend([e], w'.0);
    assert [e][0] == e;
    assert AllPassed([e]) == Passed(e);
  }

  /** `ErrorAssertion::checkAll`. Returns the verdict and the diagnostics
      with each file's list sorted, as the source leaves its map. */
  method CheckAll(errorAssertions: seq<ErrorAssertion>, filesAndDiagnostics: seq<(string, seq<LspDiagnostic>)>)
    returns (success: bool, sortedDiagnostics: seq<(string, seq<LspDiagnostic>)>)
    requires FilenamesIncreasing(filesAndDiagnostics)
    ensures sortedDiagnostics == SortedFiles(filesAndDiagnostics)
    ensures success == AllPassed(Walk(sortedDiagnostics, SortByKey(errorAssertions, AssertionKey)))
  {
    var assertions := SortByKey(errorAssertions, AssertionKey);
    ghost var all := SortedFiles(filesAndDiagnostics);
    ghost var goal := AllPassed(Walk(all, assertions));
    var ai := 0;
    success := true;
    sortedDiagnostics := [];
    for fi := 0 to |filesAndDiagnostics|
      invariant 0 <= ai <= |assertions|
      invariant sortedDiagnostics == all[..fi]
      invariant (success && AllPassed(Walk(all[fi..], assertions[ai..]))) == goal
    {
      var filename := filesAndDiagnostics[fi].0;
      var diagnostics := SortByKey(filesAndDiagnostics[fi].1, DiagnosticKey(filename));
      assert all[fi] == (filename, diagnostics);
      ghost var ai0 := ai;
      success, ai := CheckFile(filename, diagnostics, assertions, ai, success);
      WalkFile(all, fi, assertions[ai0..]);
      TakeSnoc(all, fi + 1);
      sortedDiagnostics := sortedDiagnostics + [(filename, diagnostics)];
    }
    while ai < |assertions|
      invariant 0 <= ai <= |assertions|
      invariant (success && AllPassed(MissingAll(assertions[ai..]))) == goal
    {
      MissingStep(assertions, ai);
      success := false;
      ai := ai + 1;
    }
    assert assertions[ai..] == [];
    TakeAll(all);
  }

  lemma WalkFile(files: seq<(string, seq<LspDiagnostic>)>, fi: nat, asserts: seq<ErrorAssertion>)
    requires fi < |files|
    ensures var w := FileWalk(files[fi].0, files[fi].1, asserts, None);
            AllPassed(Walk(files[fi..], asserts)) == (AllPassed(w.0) && AllPassed(Walk(files[fi + 1..], w.1)))
  {
    var fs := files[fi..];
    assert fs[0] == files[fi] && fs[1..] == files[fi + 1..];
    var w := FileWalk(files[fi].0, files[fi].1, asserts, None);
    AllPassedAppend(w.0, Walk(files[fi + 1..], w.1));
  }

  lemma MissingStep(assertions: seq<ErrorAssertion>, ai: nat)
    requires ai < |assertions|
    ensures !AllPassed(MissingAll(assertions[ai..]))
  {
    assert MissingAll(assertions[ai..])[0] == Missing(assertions[ai]);
  }

  /** A walk that starts with nothing to attach duplicates to has none
      before its first other event, so it may start from any `last`. */
  lemma DuplicatesFollowMatchFromNone(events: seq<Event>, last: Option<ErrorAssertion>)
    requires DuplicatesFollowMatch(events, None)
    ensures DuplicatesFollowMatch(events, last)
  {
  }

  lemma {:induction false} DuplicatesFollowMatchAppend(a: seq<Event>, b: seq<Event>, last: Option<ErrorAssertion>)
    requires DuplicatesFollowMatch(a, last) && DuplicatesFollowMatch(b, None)
    ensures DuplicatesFollowMatch(a + b, last)
  {
    if a == [] {
      assert a + b == b;
      DuplicatesFollowMatchFromNone(b, last);
    } else {
      assert (a + b)[0] == a[0] && (a + b)[1..] == a[1..] + b;
      var next := match a[0]
        case Duplicate(_, _, _) => last
        case Matched(_, x, _, _) => Some(x)
        case _ => None;
      DuplicatesFollowMatchAppend(a[1..], b, next);
    }
  }

  lemma {:induction false} WalkMeaning(files: seq<(string, seq<LspDiagnostic>)>, asserts: seq<ErrorAssertion>)
    ensures var events := Walk(files, asserts);
            (forall k :: 0 <= k < |events| ==> EventSound(events[k])) && DuplicatesFollowMatch(events, None)
    decreases |files|
  {
    if files == [] {
      MissingAllMeaning(asserts, None);
      var r := MissingAll(asserts);
      forall k | 0 <= k < |r|
        ensures EventSound(r[k])
      {
        assert r[k].Missing?;
      }
    } else {
      var w := FileWalk(files[0].0, files[0].1, asserts, None);
      var rest := Walk(files[1..], w.1);
      FileWalkMeaning(files[0].0, files[0].1, asserts, None);
      WalkMeaning(files[1..], w.1);
      DuplicatesFollowMatchAppend(w.0, rest, None);
      forall k | 0 <= k < |w.0 + rest|
        ensures EventSound((w.0 + rest)[k])
      {
        if k < |w.0| {
          assert (w.0 + rest)[k] == w.0[k];
        } else {
          assert (w.0 + rest)[k] == rest[k - |w.0|];
        }
      }
    }
  }

  /** What the verdict of `checkAll` means. The walk consumes every
      assertion once and in order, and every diagnostic once and in order;
      a matched pair compares equal and passes exactly when the diagnostic
      contains the assertion's message; a duplicate contains the message
      of the `error-with-dupes` assertion matched just before it. The check
      passes exactly when every event is a passing match or a duplicate:
      no assertion is missing and no diagnostic is unexpected. */
  lemma CheckAllMeaning(files: seq<(string, seq<LspDiagnostic>)>, asserts: seq<ErrorAssertion>)
    ensures var events := Walk(files, asserts);
            && EventAssertions(events) == asserts
            && EventDiagnostics(events) == FlatDiagnostics(files)
            && (forall k :: 0 <= k < |events| ==> EventSound(events[k]))
            && DuplicatesFollowMatch(events, None)
            && (AllPassed(events) <==>
                  forall k :: 0 <= k < |events| ==> (events[k].Matched? && events[k].passed) || events[k].Duplicate?)
  {
    WalkAccounts(files, asserts);
    WalkMeaning(files, asserts);
  }
}
