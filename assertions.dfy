/** The assertion-comment machinery of the LSP test harness
    (test/helpers/position_assertions.cc): three-way comparators on
    positions, ranges and errors, the URI/path conversion, the parser that
    turns `# ^^^ assertionType: contents` comments into range assertions, the
    contents parsers of the individual assertion kinds, the full-line
    search used for hover contents, and the walk that matches error
    assertions against the diagnostics a run reported.

    Test failures reported through gtest (`ADD_FAILURE`, `EXPECT_*`) are not
    modelled, except through the results they accompany. */
module PositionAssertions {
  import opened Common

  // ---------------------------------------------------------------------
  // Positions, ranges and their comparators

  /** An LSP position: zero-based line and character. */
  datatype Position = Position(line: int, character: int)

  datatype Range = Range(start: Position, end: Position)

  predicate Sign(r: int) {
    r == -1 || r == 0 || r == 1
  }

  /** `positionComparison`: by line, then by character. */
  function PositionComparison(a: Position, b: Position): (r: int)
    ensures Sign(r)
    ensures r == 0 <==> a == b
    ensures r == -1 <==> a.line < b.line || (a.line == b.line && a.character < b.character)
  {
    if a.line < b.line then -1
    else if a.line > b.line then 1
    else if a.character < b.character then -1
    else if a.character > b.character then 1
    else 0
  }

  lemma PositionComparisonAntisymmetric(a: Position, b: Position)
    ensures PositionComparison(a, b) == -PositionComparison(b, a)
  {
  }

  lemma PositionComparisonTransitive(a: Position, b: Position, c: Position)
    requires PositionComparison(a, b) <= 0 && PositionComparison(b, c) <= 0
    ensures PositionComparison(a, c) <= 0
  {
  }

  /** `rangeComparison`: by start, then whichever range ends first. */
  function RangeComparison(a: Range, b: Range): (r: int)
    ensures Sign(r)
    ensures r == 0 <==> a == b
    ensures PositionComparison(a.start, b.start) != 0 ==> r == PositionComparison(a.start, b.start)
    ensures a.start == b.start ==> r == PositionComparison(a.end, b.end)
  {
    var startCmp := PositionComparison(a.start, b.start);
    if startCmp != 0 then startCmp else PositionComparison(a.end, b.end)
  }

  lemma RangeComparisonAntisymmetric(a: Range, b: Range)
    ensures RangeComparison(a, b) == -RangeComparison(b, a)
  {
    PositionComparisonAntisymmetric(a.start, b.start);
    PositionComparisonAntisymmetric(a.end, b.end);
  }

  lemma RangeComparisonTransitive(a: Range, b: Range, c: Range)
    requires RangeComparison(a, b) <= 0 && RangeComparison(b, c) <= 0
    ensures RangeComparison(a, c) <= 0
  {
  }

  predicate SingleLine(r: Range) {
    r.start.line == r.end.line
  }

  /** `rangeIsSubset(a, b)`: `b` lies within `a`; only single-line ranges
      on one line qualify. */
  predicate RangeIsSubset(a: Range, b: Range) {
    if !SingleLine(a) || !SingleLine(b) || a.start.line != b.start.line then false
    else b.start.character >= a.start.character && b.end.character <= a.end.character
  }

  /** Any multi-line range, or ranges on different lines, are never
      subsets; a single-line range is a subset of itself, and the relation
      is transitive. */
  lemma RangeIsSubsetShape(a: Range, b: Range, c: Range)
    ensures !SingleLine(a) || !SingleLine(b) || a.start.line != b.start.line ==> !RangeIsSubset(a, b)
    ensures SingleLine(a) ==> RangeIsSubset(a, a)
    ensures RangeIsSubset(a, b) && RangeIsSubset(b, c) ==> RangeIsSubset(a, c)
    ensures RangeIsSubset(a, b) ==> a.start.line == a.end.line == b.start.line == b.end.line
  {
  }

  /** The length of the longest common prefix of `a` and `b`. */
  function CommonPrefix(a: string, b: string): (k: nat)
    ensures k <= |a| && k <= |b|
    ensures forall i :: 0 <= i < k ==> a[i] == b[i]
    ensures k == |a| || k == |b| || a[k] != b[k]
  {
    if a == [] || b == [] || a[0] != b[0] then 0 else 1 + CommonPrefix(a[1..], b[1..])
  }

  lemma CommonPrefixIs(a: string, b: string, k: nat)
    requires k <= |a| && k <= |b|
    requires forall i :: 0 <= i < k ==> a[i] == b[i]
    requires k == |a| || k == |b| || a[k] != b[k]
    ensures CommonPrefix(a, b) == k
    decreases k
  {
    if k > 0 {
      CommonPrefixIs(a[1..], b[1..], k - 1);
    }
  }

  /** The sign of `string_view::compare`: at the first differing character,
      a proper prefix first. */
  function StringCompare(a: string, b: string): (r: int)
    ensures Sign(r)
    ensures r == 0 <==> a == b
  {
    var k := CommonPrefix(a, b);
    if k == |a| && k == |b| then
      assert a == b;
      0
    else if k == |a| then -1
    else if k == |b| then 1
    else if a[k] < b[k] then -1
    else 1
  }

  lemma StringCompareAntisymmetric(a: string, b: string)
    ensures StringCompare(a, b) == -StringCompare(b, a)
  {
    CommonPrefixIs(b, a, CommonPrefix(a, b));
  }

  lemma StringCompareTransitive(a: string, b: string, c: string)
    requires StringCompare(a, b) <= 0 && StringCompare(b, c) <= 0
    ensures StringCompare(a, c) <= 0
  {
    if a != b && b != c {
      var k1 := CommonPrefix(a, b);
      var k2 := CommonPrefix(b, c);
      if k1 < k2 {
        CommonPrefixIs(a, c, k1);
      } else if k2 < k1 {
        CommonPrefixIs(a, c, k2);
      } else {
        CommonPrefixIs(a, c, k1);
      }
    }
  }

  /** `std::string`'s `<`. */
  predicate StringLess(a: string, b: string) {
    StringCompare(a, b) < 0
  }

  /** `errorComparison`: by file name, then range, then message. */
  function ErrorComparison(aFilename: string, a: Range, aMessage: string, bFilename: string, b: Range, bMessage: string): (r: int)
    ensures Sign(r)
    ensures r == 0 <==> aFilename == bFilename && a == b && aMessage == bMessage
    ensures aFilename != bFilename ==> r == StringCompare(aFilename, bFilename)
    ensures aFilename == bFilename && a != b ==> r == RangeComparison(a, b)
    ensures aFilename == bFilename && a == b ==> r == StringCompare(aMessage, bMessage)
  {
    var fileCmp := StringCompare(aFilename, bFilename);
    if fileCmp != 0 then fileCmp
    else
      var rangeCmp := RangeComparison(a, b);
      if rangeCmp != 0 then rangeCmp else StringCompare(aMessage, bMessage)
  }

  lemma ErrorComparisonAntisymmetric(aFilename: string, a: Range, aMessage: string, bFilename: string, b: Range, bMessage: string)
    ensures ErrorComparison(aFilename, a, aMessage, bFilename, b, bMessage)
            == -ErrorComparison(bFilename, b, bMessage, aFilename, a, aMessage)
  {
    StringCompareAntisymmetric(aFilename, bFilename);
    RangeComparisonAntisymmetric(a, b);
    StringCompareAntisymmetric(aMessage, bMessage);
  }

  lemma ErrorComparisonTransitive(aFilename: string, a: Range, aMessage: string,
                                  bFilename: string, b: Range, bMessage: string,
                                  cFilename: string, c: Range, cMessage: string)
    requires ErrorComparison(aFilename, a, aMessage, bFilename, b, bMessage) <= 0
    requires ErrorComparison(bFilename, b, bMessage, cFilename, c, cMessage) <= 0
    ensures ErrorComparison(aFilename, a, aMessage, cFilename, c, cMessage) <= 0
  {
    if aFilename == bFilename == cFilename {
      if a == b == c {
        StringCompareTransitive(aMessage, bMessage, cMessage);
      } else if a == c {
        RangeComparisonAntisymmetric(a, b);
      } else {
        RangeComparisonTransitive(a, b, c);
      }
    } else if aFilename == cFilename {
      StringCompareAntisymmetric(aFilename, bFilename);
    } else {
      StringCompareTransitive(aFilename, bFilename, cFilename);
    }
  }

  // ---------------------------------------------------------------------
  // URIs

  /** `filePathToUri`: the root URI, `/`, the path. */
  function FilePathToUri(prefixUrl: string, filePath: string): (uri: string)
    ensures StartsWith(uri, prefixUrl)
    ensures |uri| == |prefixUrl| + 1 + |filePath| && uri[|prefixUrl|] == '/'
  {
    prefixUrl + "/" + filePath
  }

  /** `uriToFilePath`: the URI without the root URI and the character after
      it; `""` for a URI outside the root. `None` is the `out_of_range`
      that `substr` raises for a URI equal to the root URI. */
  function UriToFilePath(prefixUrl: string, uri: string): (r: Option<string>)
    ensures !StartsWith(uri, prefixUrl) ==> r == Some("")
    ensures StartsWith(uri, prefixUrl) && |uri| == |prefixUrl| ==> r == None
    ensures StartsWith(uri, prefixUrl) && |uri| > |prefixUrl| ==> r == Some(uri[|prefixUrl| + 1..])
  {
    if (if |uri| < |prefixUrl| then uri else uri[..|prefixUrl|]) != prefixUrl then Some("")
    else if |uri| < |prefixUrl| + 1 then None
    else Some(uri[|prefixUrl| + 1..])
  }

  lemma UriRoundTrip(prefixUrl: string, filePath: string)
    ensures UriToFilePath(prefixUrl, FilePathToUri(prefixUrl, filePath)) == Some(filePath)
  {
    var uri := FilePathToUri(prefixUrl, filePath);
    assert uri[|prefixUrl| + 1..] == filePath;
  }

  // ---------------------------------------------------------------------
  // RangeAssertion::compare

  /** `RangeAssertion::END_OF_LINE_POS`, the end character of a range that
      covers a whole line. */
  const EndOfLinePos: int := 9999

  /** `RangeAssertion::compare`: an assertion on the whole line matches any
      range whose lines include it. */
  function AssertionCompare(filename: string, range: Range, otherFilename: string, otherRange: Range): (r: int)
    ensures Sign(r)
    ensures filename != otherFilename ==> r == StringCompare(filename, otherFilename)
    ensures filename == otherFilename && range.end.character == EndOfLinePos ==>
              && (r == 0 <==> otherRange.start.line <= range.start.line <= otherRange.end.line)
              && (r == 1 <==> !(range.start.line <= otherRange.end.line) && range.start.line > otherRange.start.line)
              && (r == -1 <==> range.start.line <= otherRange.start.line && !(otherRange.start.line <= range.start.line <= otherRange.end.line))
    ensures filename == otherFilename && range.end.character != EndOfLinePos ==> r == RangeComparison(range, otherRange)
  {
    var filenameCmp := StringCompare(filename, otherFilename);
    if filenameCmp != 0 then filenameCmp
    else if range.end.character == EndOfLinePos then
      var targetLine := range.start.line;
      if targetLine >= otherRange.start.line && targetLine <= otherRange.end.line then 0
      else if targetLine > otherRange.start.line then 1
      else -1
    else RangeComparison(range, otherRange)
  }

  // ---------------------------------------------------------------------
  // Splitting and integers

  /** The first index of `d` in `s`. */
  function IndexOf(s: string, d: char): (i: nat)
    requires d in s
    ensures i < |s| && s[i] == d
    ensures forall j :: 0 <= j < i ==> s[j] != d
  {
    if s[0] == d then 0 else 1 + IndexOf(s[1..], d)
  }

  /** `absl::StrSplit` on a character: every piece between delimiters,
      empty pieces included. */
  function Split(s: string, d: char): (parts: seq<string>)
    ensures |parts| >= 1
    ensures forall k :: 0 <= k < |parts| ==> d !in parts[k]
    ensures d !in s ==> parts == [s]
    decreases |s|
  {
    if d !in s then [s]
    else
      var i := IndexOf(s, d);
      [s[..i]] + Split(s[i + 1..], d)
  }

  function Join(parts: seq<string>, d: char): string
    requires |parts| >= 1
  {
    if |parts| == 1 then parts[0] else parts[0] + [d] + Join(parts[1..], d)
  }

  lemma {:induction false} JoinSplit(s: string, d: char)
    ensures Join(Split(s, d), d) == s
    decreases |s|
  {
    if d in s {
      var i := IndexOf(s, d);
      var a, rest := s[..i], s[i + 1..];
      JoinSplit(rest, d);
      assert d !in a by { assert forall j :: 0 <= j < |a| ==> a[j] == s[j]; }
      CutAt(s, i);
      SplitCons(a, d, rest);
      JoinCons(a, Split(rest, d), d);
    }
  }

  lemma CutAt<T>(s: seq<T>, i: nat)
    requires i < |s|
    ensures s == s[..i] + [s[i]] + s[i + 1..]
  {
  }

  lemma JoinCons(a: string, parts: seq<string>, d: char)
    requires |parts| >= 1
    ensures Join([a] + parts, d) == a + [d] + Join(parts, d)
  {
    assert ([a] + parts)[1..] == parts;
  }

  lemma {:induction false} SplitJoin(parts: seq<string>, d: char)
    requires |parts| >= 1
    requires forall k :: 0 <= k < |parts| ==> d !in parts[k]
    ensures Split(Join(parts, d), d) == parts
    decreases |parts|
  {
    if |parts| > 1 {
      SplitJoin(parts[1..], d);
      SplitCons(parts[0], d, Join(parts[1..], d));
      assert parts == [parts[0]] + parts[1..];
    }
  }

  lemma {:induction false} IndexOfAfter(a: string, d: char, rest: string)
    requires d !in a
    ensures d in a + [d] + rest && IndexOf(a + [d] + rest, d) == |a|
    decreases |a|
  {
    var s := a + [d] + rest;
    assert s[|a|] == d;
    if a != [] {
      assert s[1..] == a[1..] + [d] + rest;
      IndexOfAfter(a[1..], d, rest);
    }
  }

  /** Splitting at the first delimiter. */
  lemma SplitCons(a: string, d: char, rest: string)
    requires d !in a
    ensures Split(a + [d] + rest, d) == [a] + Split(rest, d)
  {
    var s := a + [d] + rest;
    IndexOfAfter(a, d, rest);
    assert s[..|a|] == a;
    assert s[|a| + 1..] == rest;
  }

  const Int32Max: int := 0x7fff_ffff

  /** The white space `std::stoi` skips. */
  predicate IsCSpace(c: char) {
    c == ' ' || c == '\t' || c == '\n' || c == '\U{000B}' || c == '\U{000C}' || c == '\r'
  }

  function SkipSpaces(s: string, from: nat): (e: nat)
    requires from <= |s|
    ensures from <= e <= |s|
    ensures forall k :: from <= k < e ==> IsCSpace(s[k])
    ensures e == |s| || !IsCSpace(s[e])
    decreases |s| - from
  {
    if from == |s| || !IsCSpace(s[from]) then from else SkipSpaces(s, from + 1)
  }

  function DigitsEnd(s: string, from: nat): (e: nat)
    requires from <= |s|
    ensures from <= e <= |s|
    ensures forall k :: from <= k < e ==> IsDigit(s[k])
    ensures e == |s| || !IsDigit(s[e])
    decreases |s| - from
  {
    if from == |s| || !IsDigit(s[from]) then from else DigitsEnd(s, from + 1)
  }

  /** `std::stoi`: leading white space, an optional sign, at least one
      digit, anything after ignored. `None` is the `invalid_argument` or
      `out_of_range` it raises. */
  function Stoi(s: string): (r: Option<int>)
    ensures r.Some? ==> -Int32Max - 1 <= r.value <= Int32Max
  {
    var start := SkipSpaces(s, 0);
    var negative := start < |s| && s[start] == '-';
    var digitsStart := if start < |s| && (s[start] == '-' || s[start] == '+') then start + 1 else start;
    var digitsEnd := DigitsEnd(s, digitsStart);
    if digitsEnd == digitsStart then None
    else
      var magnitude: int := DigitsValue(s[digitsStart..digitsEnd]);
      var value: int := if negative then -magnitude else magnitude;
      if value < -Int32Max - 1 || value > Int32Max then None else Some(value)
  }

  lemma StoiOfNatToString(n: nat)
    requires n <= Int32Max
    ensures Stoi(NatToString(n)) == Some(n)
  {
    var s := NatToString(n);
    assert SkipSpaces(s, 0) == 0 by {
      assert IsDigit(s[0]);
    }
    assert DigitsEnd(s, 0) == |s| by {
      DigitsRunToEnd(s, 0);
    }
    assert s[0..|s|] == s;
    DigitsValueOfNatToString(n);
  }

  lemma {:induction false} DigitsRunToEnd(s: string, from: nat)
    requires from <= |s|
    requires forall k :: 0 <= k < |s| ==> IsDigit(s[k])
    ensures DigitsEnd(s, from) == |s|
    decreases |s| - from
  {
    if from < |s| {
      DigitsRunToEnd(s, from + 1);
    }
  }

  /** `getSymbolAndVersion`: the first word, and the second read as a
      version number (1 when there is none). `None` is `stoi` raising. */
  function GetSymbolAndVersion(assertionContents: string): (r: Option<(string, int)>)
    ensures ' ' !in assertionContents ==> r == Some((assertionContents, 1))
    ensures |Split(assertionContents, ' ')| != 2 ==> r == Some((Split(assertionContents, ' ')[0], 1))
    ensures r.Some? ==> r.value.0 == Split(assertionContents, ' ')[0]
  {
    var split := Split(assertionContents, ' ');
    if |split| == 2 then
      match Stoi(split[1])
      case None => None
      case Some(version) => Some((split[0], version))
    else Some((split[0], 1))
  }

  /** The test failure `getSymbolAndVersion` reports without stopping
      (position_assertions.cc:319-322): contents of three words or more.
      Such contents never reach `stoi`, so the symbol is the first word and
      the version is 1. */
  function GetSymbolAndVersionFailures(assertionContents: string): (r: seq<ParseFailure>)
    ensures r != [] <==> |Split(assertionContents, ' ')| >= 3
    ensures r != [] ==> r == [MultipleWords(assertionContents)]
                        && GetSymbolAndVersion(assertionContents) == Some((Split(assertionContents, ' ')[0], 1))
  {
    if |Split(assertionContents, ' ')| >= 3 then [MultipleWords(assertionContents)] else []
  }

  /** A symbol and a version written `symbol version` read back as they
      were written. */
  lemma SymbolAndVersionRoundTrip(symbol: string, version: nat)
    requires ' ' !in symbol && version <= Int32Max
    ensures GetSymbolAndVersion(symbol + " " + NatToString(version)) == Some((symbol, version))
  {
    var v := NatToString(version);
    assert ' ' !in v by {
      assert forall k :: 0 <= k < |v| ==> IsDigit(v[k]);
    }
    var parts := [symbol, v];
    assert Join(parts[1..], ' ') == v;
    assert Join(parts, ' ') == symbol + " " + v;
    SplitJoin(parts, ' ');
    StoiOfNatToString(version);
  }

  // ---------------------------------------------------------------------
  // Sorting file lists

  predicate SortedStrings(s: seq<string>) {
    forall i, j :: 0 <= i < j < |s| ==> StringCompare(s[i], s[j]) <= 0
  }

  /** No element of `s` sorts before `b`. */
  predicate LowerBound(b: string, s: seq<string>) {
    forall k :: 0 <= k < |s| ==> StringCompare(b, s[k]) <= 0
  }

  /** Inserts `x` before the first element it does not sort after. */
  function InsertString(x: string, s: seq<string>): (r: seq<string>)
    ensures |r| == |s| + 1
    ensures multiset(r) == multiset(s) + multiset{x}
  {
    if s == [] then [x]
    else if StringCompare(x, s[0]) <= 0 then [x] + s
    else
      HeadTail(s);
      [s[0]] + InsertString(x, s[1..])
  }

  lemma {:induction false} InsertStringBound(b: string, x: string, s: seq<string>)
    requires LowerBound(b, s) && StringCompare(b, x) <= 0
    ensures LowerBound(b, InsertString(x, s))
  {
    if s != [] && StringCompare(x, s[0]) > 0 {
      InsertStringBound(b, x, s[1..]);
    }
  }

  lemma {:induction false} InsertStringSorted(x: string, s: seq<string>)
    requires SortedStrings(s)
    ensures SortedStrings(InsertString(x, s))
  {
    if s == [] {
    } else if StringCompare(x, s[0]) <= 0 {
      assert LowerBound(x, s) by {
        forall j | 0 < j < |s| {
          StringCompareTransitive(x, s[0], s[j]);
        }
      }
    } else {
      var rest := InsertString(x, s[1..]);
      InsertStringSorted(x, s[1..]);
      StringCompareAntisymmetric(x, s[0]);
      InsertStringBound(s[0], x, s[1..]);
      var r := [s[0]] + rest;
      assert SortedStrings(r) by {
        forall i, j | 0 <= i < j < |r|
          ensures StringCompare(r[i], r[j]) <= 0
        {
          if i == 0 {
            assert StringCompare(s[0], rest[j - 1]) <= 0;
          } else {
            assert StringCompare(rest[i - 1], rest[j - 1]) <= 0;
          }
        }
      }
    }
  }

  /** `fast_sort` on strings, as an insertion sort. */
  function SortStrings(s: seq<string>): (r: seq<string>)
    ensures SortedStrings(r)
    ensures multiset(r) == multiset(s)
  {
    if s == [] then []
    else
      TakeSnoc(s, |s|);
      TakeAll(s);
      var sorted := SortStrings(s[..|s| - 1]);
      InsertStringSorted(s[|s| - 1], sorted);
      InsertString(s[|s| - 1], sorted)
  }

  /** `FastPathAssertion::make`: no list for empty contents, else the
      comma-separated files, sorted. */
  function FastPathExpectedFiles(assertionContents: string): (r: Option<seq<string>>)
    ensures r.None? <==> assertionContents == []
    ensures r.Some? ==> SortedStrings(r.value) && multiset(r.value) == multiset(Split(assertionContents, ','))
  {
    if assertionContents == [] then None else Some(SortStrings(Split(assertionContents, ',')))
  }

  // ---------------------------------------------------------------------
  // The assertion-comment pattern `(#[ ]*)(\^*)[ ]*([a-zA-Z-]+):[ ]+(.*)$`

  /** The end of the run of `c` that starts at `from`. */
  function RunEnd(s: string, from: nat, c: char): (e: nat)
    requires from <= |s|
    ensures from <= e <= |s|
    ensures forall k :: from <= k < e ==> s[k] == c
    ensures e == |s| || s[e] != c
    decreases |s| - from
  {
    if from == |s| || s[from] != c then from else RunEnd(s, from + 1, c)
  }

  predicate IsLabelChar(c: char) {
    'a' <= c <= 'z' || 'A' <= c <= 'Z' || c == '-'
  }

  /** The end of the run of assertionType characters that starts at `from`. */
  function LabelEnd(s: string, from: nat): (e: nat)
    requires from <= |s|
    ensures from <= e <= |s|
    ensures forall k :: from <= k < e ==> IsLabelChar(s[k])
    ensures e == |s| || !IsLabelChar(s[e])
    decreases |s| - from
  {
    if from == |s| || !IsLabelChar(s[from]) then from else LabelEnd(s, from + 1)
  }

  /** The characters the pattern's `.` does not match. */
  predicate IsLineTerminator(c: char) {
    c == '\n' || c == '\r'
  }

  predicate NoLineTerminator(s: string) {
    forall k :: 0 <= k < |s| ==> !IsLineTerminator(s[k])
  }

  /** A match of the pattern: the text before it, the `#` with the spaces
      after it (group 1), the number of carets (group 2), the assertionType
      (group 3) and the contents (group 4). */
  datatype Match = Match(prefix: string, hashGroup: string, carets: nat, assertionType: string, contents: string)

  function Carets(n: nat): (s: string)
    ensures |s| == n && forall k :: 0 <= k < n ==> s[k] == '^'
  {
    if n == 0 then "" else Carets(n - 1) + "^"
  }

  /** The match starting at index `i`. Every quantifier of the pattern is
      greedy and each is followed by something its own characters cannot
      start, so backtracking never finds a match the greedy reading
      misses, and the greedy reading is the one reported. */
  function MatchAt(line: string, i: nat): (m: Option<Match>)
    requires i <= |line|
    ensures m.Some? ==> i < |line| && line[i] == '#' && m.value.prefix == line[..i]
  {
    if i == |line| || line[i] != '#' then None else MatchAfterHash(line, i)
  }

  /** The rest of the pattern, after the `#` at index `i`. */
  function MatchAfterHash(line: string, i: nat): (m: Option<Match>)
    requires i < |line| && line[i] == '#'
    ensures m.Some? ==> m.value.prefix == line[..i]
  {
    var h := RunEnd(line, i + 1, ' ');
    var c := RunEnd(line, h, '^');
    var s := RunEnd(line, c, ' ');
    var l := LabelEnd(line, s);
    if l == s || l + 1 >= |line| || line[l] != ':' || line[l + 1] != ' ' then None
    else
      var t := RunEnd(line, l + 1, ' ');
      if !NoLineTerminator(line[t..]) then None
      else Some(Match(line[..i], line[i..h], c - h, line[s..l], line[t..]))
  }

  /** What a match says about the line: group 1 is `#` and spaces, then
      come the carets, a non-empty label, and contents free of line
      terminators that run to the end of the line. */
  ghost predicate MatchShape(line: string, m: Match) {
    var i := |m.prefix|;
    var b := i + |m.hashGroup|;
    && |m.hashGroup| >= 1 && b + m.carets <= |line|
    && line[..i] == m.prefix && line[i..b] == m.hashGroup && line[i] == '#'
    && (forall k :: i < k < b ==> line[k] == ' ')
    && line[b..b + m.carets] == Carets(m.carets)
    && |m.assertionType| >= 1 && (forall k :: 0 <= k < |m.assertionType| ==> IsLabelChar(m.assertionType[k]))
    && NoLineTerminator(m.contents)
    && |m.contents| < |line| && line[|line| - |m.contents|..] == m.contents
  }

  lemma MatchAtShape(line: string, i: nat)
    requires i <= |line|
    ensures MatchAt(line, i).Some? ==> MatchShape(line, MatchAt(line, i).value)
  {
    if MatchAt(line, i).Some? {
      var h := RunEnd(line, i + 1, ' ');
      var c := RunEnd(line, h, '^');
      assert line[h..c] == Carets(c - h);
    }
  }

  /** `regex_search`: the leftmost match at or after `from`. */
  function FirstMatch(line: string, from: nat): (r: Option<Match>)
    requires from <= |line|
    ensures r.Some? ==> from <= |r.value.prefix| < |line| && r.value.prefix == line[..|r.value.prefix|]
    decreases |line| - from
  {
    if from == |line| then None
    else
      match MatchAt(line, from)
      case Some(m) => Some(m)
      case None => FirstMatch(line, from + 1)
  }

  /** The match found is the one at the leftmost index where the pattern
      matches; none is found only when it matches nowhere. */
  lemma {:induction false} FirstMatchLeftmost(line: string, from: nat)
    requires from <= |line|
    ensures var r := FirstMatch(line, from);
            && (r.Some? ==> MatchAt(line, |r.value.prefix|) == r)
            && (r.Some? ==> forall j :: from <= j < |r.value.prefix| ==> MatchAt(line, j).None?)
            && (r.None? ==> forall j :: from <= j <= |line| ==> MatchAt(line, j).None?)
    decreases |line| - from
  {
    if from < |line| {
      var here := MatchAt(line, from);
      if here.Some? {
        assert |here.value.prefix| == from;
        assert FirstMatch(line, from) == here;
      } else {
        FirstMatchLeftmost(line, from + 1);
        var r := FirstMatch(line, from + 1);
        assert FirstMatch(line, from) == r;
        if r.Some? {
          forall j | from <= j < |r.value.prefix|
            ensures MatchAt(line, j).None?
          {
            if j == from {
              assert MatchAt(line, j) == here;
            }
          }
        } else {
          forall j | from <= j <= |line|
            ensures MatchAt(line, j).None?
          {
            if j == from {
              assert MatchAt(line, j) == here;
            }
          }
        }
      }
    }
  }

  /** `regex_match` against `^[ ]*$`. */
  predicate AllSpaces(s: string) {
    forall k :: 0 <= k < |s| ==> s[k] == ' '
  }

  lemma RunEndIs(s: string, from: nat, c: char, e: nat)
    requires from <= e <= |s|
    requires forall k :: from <= k < e ==> s[k] == c
    requires e == |s| || s[e] != c
    ensures RunEnd(s, from, c) == e
    decreases e - from
  {
    if from < e {
      RunEndIs(s, from + 1, c, e);
    }
  }

  lemma LabelEndIs(s: string, from: nat, e: nat)
    requires from <= e <= |s|
    requires forall k :: from <= k < e ==> IsLabelChar(s[k])
    requires e == |s| || !IsLabelChar(s[e])
    ensures LabelEnd(s, from) == e
    decreases e - from
  {
    if from < e {
      LabelEndIs(s, from + 1, e);
    }
  }

  /** The comment in the form the test files write it. */
  function AssertionComment(code: string, carets: nat, assertionType: string, contents: string): string {
    code + "# " + (if carets == 0 then "" else Carets(carets) + " ") + assertionType + ": " + contents
  }

  /** The pattern matches at `i` when the line there has the written form. */
  lemma MatchAtLayout(line: string, i: nat, carets: nat, s: nat, l: nat)
    requires s == (if carets == 0 then i + 2 else i + 3 + carets) && s < l && l + 2 <= |line|
    requires line[i] == '#' && line[i + 1] == ' '
    requires forall k :: i + 2 <= k < i + 2 + carets ==> line[k] == '^'
    requires carets > 0 ==> line[i + 2 + carets] == ' '
    requires forall k :: s <= k < l ==> IsLabelChar(line[k])
    requires line[l] == ':' && line[l + 1] == ' '
    requires NoLineTerminator(line[l + 2..]) && (l + 2 == |line| || line[l + 2] != ' ')
    ensures MatchAt(line, i) == Some(Match(line[..i], line[i..i + 2], carets, line[s..l], line[l + 2..]))
  {
    var c := i + 2 + carets;
    assert IsLabelChar(line[s]);
    if carets == 0 {
      RunEndIs(line, i + 1, ' ', i + 2);
      RunEndIs(line, i + 2, '^', c);
      RunEndIs(line, c, ' ', s);
    } else {
      RunEndIs(line, i + 1, ' ', i + 2);
      RunEndIs(line, i + 2, '^', c);
      RunEndIs(line, c, ' ', s);
    }
    LabelEndIs(line, s, l);
    RunEndIs(line, l + 1, ' ', l + 2);
    MatchAfterHashIs(line, i, i + 2, c, s, l, l + 2, carets);
  }

  /** A line cut into the written pieces, `hash` being `"# "` and `sep`
      being `": "`, has the characters the pattern looks for. */
  lemma PiecesChars(line: string, code: string, hash: string, middle: string, assertionType: string, sep: string,
                    contents: string, carets: nat)
    requires |hash| == 2 && hash[0] == '#' && hash[1] == ' ' && |sep| == 2 && sep[0] == ':' && sep[1] == ' '
    requires middle == (if carets == 0 then "" else Carets(carets) + " ")
    requires |assertionType| >= 1 && forall k :: 0 <= k < |assertionType| ==> IsLabelChar(assertionType[k])
    requires contents == [] || contents[0] != ' '
    requires |line| == |code| + 2 + |middle| + |assertionType| + 2 + |contents|
    requires var i := |code|;
             var s := i + 2 + |middle|;
             var l := s + |assertionType|;
             && line[i..i + 2] == hash && line[i + 2..s] == middle
             && line[s..l] == assertionType && line[l..l + 2] == sep && line[l + 2..] == contents
    ensures var i := |code|;
            var s := i + 2 + |middle|;
            var l := s + |assertionType|;
            && s == (if carets == 0 then i + 2 else i + 3 + carets) && s < l && l + 2 <= |line|
            && line[i] == '#' && line[i + 1] == ' '
            && (forall k :: i + 2 <= k < i + 2 + carets ==> line[k] == '^')
            && (carets > 0 ==> line[i + 2 + carets] == ' ')
            && (forall k :: s <= k < l ==> IsLabelChar(line[k]))
            && line[l] == ':' && line[l + 1] == ' '
            && (l + 2 == |line| || line[l + 2] != ' ')
  {
    var i := |code|;
    var s := i + 2 + |middle|;
    var l := s + |assertionType|;
    SliceChars(line, i, hash);
    SliceChars(line, l, sep);
    MiddleChars(line, i + 2, carets, middle);
    LabelChars(line, s, assertionType);
    if l + 2 < |line| {
      SliceChars(line, l + 2, contents);
    }
  }

  lemma SliceChars<T>(s: seq<T>, lo: nat, p: seq<T>)
    requires lo + |p| <= |s| && s[lo..lo + |p|] == p
    ensures forall k :: 0 <= k < |p| ==> s[lo + k] == p[k]
  {
    forall k | 0 <= k < |p|
      ensures s[lo + k] == p[k]
    {
      assert s[lo..lo + |p|][k] == p[k];
    }
  }

  /** The carets and the space after them, placed at `lo`. */
  lemma MiddleChars(line: string, lo: nat, carets: nat, middle: string)
    requires middle == (if carets == 0 then "" else Carets(carets) + " ")
    requires lo + |middle| <= |line| && line[lo..lo + |middle|] == middle
    ensures forall k :: lo <= k < lo + carets ==> line[k] == '^'
    ensures carets > 0 ==> line[lo + carets] == ' '
  {
    SliceChars(line, lo, middle);
    forall k | lo <= k < lo + carets
      ensures line[k] == '^'
    {
      assert line[lo + (k - lo)] == middle[k - lo];
    }
    if carets > 0 {
      assert line[lo + carets] == middle[carets];
    }
  }

  /** The label, placed at `lo`. */
  lemma LabelChars(line: string, lo: nat, assertionType: string)
    requires forall k :: 0 <= k < |assertionType| ==> IsLabelChar(assertionType[k])
    requires lo + |assertionType| <= |line| && line[lo..lo + |assertionType|] == assertionType
    ensures forall k :: lo <= k < lo + |assertionType| ==> IsLabelChar(line[k])
  {
    SliceChars(line, lo, assertionType);
    forall k | lo <= k < lo + |assertionType|
      ensures IsLabelChar(line[k])
    {
      assert line[lo + (k - lo)] == assertionType[k - lo];
    }
  }

  /** The pattern matches such a comment at its `#`. */
  lemma AssertionCommentMatchesAtHash(code: string, carets: nat, assertionType: string, contents: string)
    requires |assertionType| >= 1 && forall k :: 0 <= k < |assertionType| ==> IsLabelChar(assertionType[k])
    requires NoLineTerminator(contents) && (contents == [] || contents[0] != ' ')
    ensures MatchAt(AssertionComment(code, carets, assertionType, contents), |code|)
            == Some(Match(code, "# ", carets, assertionType, contents))
  {
    var middle := if carets == 0 then "" else Carets(carets) + " ";
    Layout(code, "# ", middle, assertionType, ": ", contents);
    var line := AssertionComment(code, carets, assertionType, contents);
    var i := |code|;
    var s := i + 2 + |middle|;
    var l := s + |assertionType|;
    assert line == code + "# " + middle + assertionType + ": " + contents;
    assert line[..i] == code && line[i..i + 2] == "# " && line[s..l] == assertionType && line[l + 2..] == contents;
    PiecesChars(line, code, "# ", middle, assertionType, ": ", contents, carets);
    MatchAtLayout(line, i, carets, s, l);
  }

  /** A comment written in that form reads back as written. */
  lemma AssertionCommentRoundTrip(code: string, carets: nat, assertionType: string, contents: string)
    requires '#' !in code
    requires |assertionType| >= 1 && forall k :: 0 <= k < |assertionType| ==> IsLabelChar(assertionType[k])
    requires NoLineTerminator(contents) && (contents == [] || contents[0] != ' ')
    ensures FirstMatch(AssertionComment(code, carets, assertionType, contents), 0) == Some(Match(code, "# ", carets, assertionType, contents))
  {
    var line := AssertionComment(code, carets, assertionType, contents);
    var i := |code|;
    AssertionCommentMatchesAtHash(code, carets, assertionType, contents);
    assert forall k :: 0 <= k < i ==> line[k] == code[k];
    forall j | 0 <= j < i
      ensures MatchAt(line, j).None?
    {
      assert line[j] == code[j];
      assert code[j] in code;
    }
    FirstMatchIs(line, 0, i);
  }

  lemma MatchAfterHashIs(line: string, i: nat, h: nat, c: nat, s: nat, l: nat, t: nat, carets: nat)
    requires i < |line| && line[i] == '#'
    requires i + 1 <= |line| && h == RunEnd(line, i + 1, ' ') && c == RunEnd(line, h, '^') && c == h + carets
    requires s == RunEnd(line, c, ' ') && l == LabelEnd(line, s) && s < l && l + 1 < |line|
    requires line[l] == ':' && line[l + 1] == ' ' && t == RunEnd(line, l + 1, ' ') && NoLineTerminator(line[t..])
    ensures MatchAt(line, i) == Some(Match(line[..i], line[i..h], carets, line[s..l], line[t..]))
  {
  }

  lemma FirstMatchIs(line: string, from: nat, i: nat)
    requires from <= i <= |line|
    requires forall j :: from <= j < i ==> MatchAt(line, j).None?
    requires MatchAt(line, i).Some?
    ensures FirstMatch(line, from) == MatchAt(line, i)
    decreases i - from
  {
    if from < i {
      FirstMatchIs(line, from + 1, i);
    }
  }

  // ---------------------------------------------------------------------
  // Assertions and their constructors

  datatype AssertionKind =
    | ErrorKind(message: string, matchesDuplicateErrors: bool)
    | UsageKind(symbol: string, version: int)
    | DefKind(symbol: string, version: int)
    | BooleanPropertyKind(assertionType: string, value: bool)
    | FastPathKind(expectedFiles: Option<seq<string>>)
    | HoverKind(message: string)
    | ApplyCodeActionKind(actionVersion: string, title: string)

  /** A `RangeAssertion`: the file, the range it points at, the line the
      comment is on, and what it asserts. */
  datatype RangeAssertion = RangeAssertion(filename: string, range: Range, assertionLine: int, kind: AssertionKind)

  /** The labels of `assertionConstructors`. */
  predicate IsConstructorLabel(assertionType: string) {
    assertionType in {"error", "error-with-dupes", "usage", "def", "disable-fast-path",
              "assert-fast-path", "assert-slow-path", "hover", "apply-code-action"}
  }

  /** `ignoredAssertionLabels`. */
  predicate IsIgnoredLabel(assertionType: string) {
    assertionType in {"typed", "TODO", "linearization", "commented-out-error"}
  }

  /** `RangeAssertion::makeRange`: a range on one line, by default the
      whole line. */
  function MakeRange(sourceLine: int, startChar: int := 0, endChar: int := EndOfLinePos): (r: Range)
    ensures SingleLine(r) && r.start.line == sourceLine
    ensures r.start.character == startChar && r.end.character == endChar
  {
    Range(Position(sourceLine, startChar), Position(sourceLine, endChar))
  }

  /** A label that is neither a constructor's nor an ignored one. */
  predicate IsUnrecognizedLabel(assertionType: string) {
    !IsConstructorLabel(assertionType) && !IsIgnoredLabel(assertionType)
  }

  /** A failure of the test reported while parsing, after which parsing
      goes on: an unrecognized label, with the file, the line it is
      reported at (the counter plus one) and the label; a caret comment
      before any code, with the file, the line and the comment's text;
      `usage`/`def` contents of more than two words; or `apply-code-action`
      contents not of the form `[version] title`, with the file and the
      line. */
  datatype ParseFailure =
    | UnrecognizedLabel(filename: string, line: int, assertionType: string)
    | CaretOnFirstLine(filename: string, line: int, text: string)
    | MultipleWords(contents: string)
    | MalformedCodeAction(filename: string, line: int)

  /** The outcome of looking up and running a constructor: an assertion;
      nothing, for an ignored label; a failure of the test, for an
      unrecognized label or a malformed `apply-code-action`; or an
      exception (`stoi` in `usage` and `def`). */
  datatype Made = Made(assertion: RangeAssertion) | NoAssertion | Unrecognized(assertionType: string) | Malformed | Raised

  /** `\w` of the ECMAScript grammar. */
  predicate IsWordChar(c: char) {
    'a' <= c <= 'z' || 'A' <= c <= 'Z' || '0' <= c <= '9' || c == '_'
  }

  /** The end of the run of word characters that starts at `from`. */
  function WordEnd(s: string, from: nat): (e: nat)
    requires from <= |s|
    ensures from <= e <= |s|
    ensures forall k :: from <= k < e ==> IsWordChar(s[k])
    ensures e == |s| || !IsWordChar(s[e])
    decreases |s| - from
  {
    if from == |s| || !IsWordChar(s[from]) then from else WordEnd(s, from + 1)
  }

  /** `ApplyCodeActionAssertion::make`'s pattern `^\[(\w+)\]\s+(.*?)$`: the
      version (group 1) and the title (group 2). The `\s+` is greedy and
      the title's `.` cannot cross a line terminator, so the title is what
      follows the whole run of white space, when that holds no line
      terminator. */
  function TitleVersion(contents: string): (r: Option<(string, string)>)
    ensures r.Some? ==> |r.value.0| >= 1 && forall k :: 0 <= k < |r.value.0| ==> IsWordChar(r.value.0[k])
    ensures r.Some? ==> NoLineTerminator(r.value.1) && (r.value.1 == [] || !IsCSpace(r.value.1[0]))
  {
    if |contents| == 0 || contents[0] != '[' then None
    else
      var w := WordEnd(contents, 1);
      if w == 1 || w == |contents| || contents[w] != ']' then None
      else
        var t := SkipSpaces(contents, w + 1);
        if t == w + 1 || !NoLineTerminator(contents[t..]) then None
        else Some((contents[1..w], contents[t..]))
  }

  /** A match reads the contents as `[`, the version, `]`, a non-empty run
      of white space, and the title. */
  lemma TitleVersionShape(contents: string)
    requires TitleVersion(contents).Some?
    ensures var (v, t) := TitleVersion(contents).value;
            var e := |contents| - |t|;
            && |v| + 2 < e && contents[..|v| + 2] == "[" + v + "]" && contents[e..] == t
            && forall k :: |v| + 2 <= k < e ==> IsCSpace(contents[k])
  {
    var w := WordEnd(contents, 1);
    assert contents[..w + 1] == "[" + contents[1..w] + "]";
  }

  /** The comment `ApplyCodeActionAssertion::toString` writes, `[version]
      title`, reads back as that version and title. */
  lemma TitleVersionRoundTrip(version: string, title: string)
    requires |version| >= 1 && forall k :: 0 <= k < |version| ==> IsWordChar(version[k])
    requires NoLineTerminator(title) && (title == [] || !IsCSpace(title[0]))
    ensures TitleVersion("[" + version + "] " + title) == Some((version, title))
  {
    var c := "[" + version + "] " + title;
    var w := |version| + 1;
    WordEndAt(c, 1, w);
    assert SkipSpaces(c, w + 1) == w + 2 by {
      assert c[w + 1] == ' ';
      assert w + 2 == |c| || c[w + 2] == title[0];
    }
    assert c[1..w] == version;
    assert c[w + 2..] == title;
  }

  /** Contents without the bracketed version, or without white space after
      it, are malformed. */
  lemma TitleVersionExamples()
    ensures TitleVersion("foo") == None
    ensures TitleVersion("[1]Fix") == None
    ensures TitleVersion("[1] Fix it") == Some(("1", "Fix it"))
  {
    TitleVersionRoundTrip("1", "Fix it");
    assert "[" + "1" + "] " + "Fix it" == "[1] Fix it";
  }

  lemma WordEndAt(s: string, from: nat, e: nat)
    requires from <= e <= |s|
    requires forall k :: from <= k < e ==> IsWordChar(s[k])
    requires e == |s| || !IsWordChar(s[e])
    ensures WordEnd(s, from) == e
    decreases e - from
  {
    if from < e {
      WordEndAt(s, from + 1, e);
    }
  }

  /** The constructor table applied to one comment. */
  function MakeAssertion(filename: string, range: Range, assertionLine: int, contents: string, assertionType: string): (r: Made)
    ensures r.NoAssertion? <==> IsIgnoredLabel(assertionType)
    ensures r.Unrecognized? <==> IsUnrecognizedLabel(assertionType)
    ensures r.Unrecognized? ==> r.assertionType == assertionType
    ensures r.Malformed? <==> assertionType == "apply-code-action" && TitleVersion(contents).None?
    ensures r.Raised? <==> (assertionType == "usage" || assertionType == "def") && GetSymbolAndVersion(contents).None?
    ensures r.Made? ==> r.assertion.filename == filename && r.assertion.range == range && r.assertion.assertionLine == assertionLine
    ensures r.Made? ==> (r.assertion.kind.ErrorKind? <==> assertionType == "error" || assertionType == "error-with-dupes")
    ensures r.Made? && r.assertion.kind.ErrorKind? ==>
              r.assertion.kind == ErrorKind(contents, assertionType == "error-with-dupes")
  {
    if assertionType == "error" || assertionType == "error-with-dupes" then
      Made(RangeAssertion(filename, range, assertionLine, ErrorKind(contents, assertionType == "error-with-dupes")))
    else if assertionType == "usage" || assertionType == "def" then
      match GetSymbolAndVersion(contents)
      case None => Raised
      case Some(sv) =>
        Made(RangeAssertion(filename, range, assertionLine, if assertionType == "usage" then UsageKind(sv.0, sv.1) else DefKind(sv.0, sv.1)))
    else if assertionType == "disable-fast-path" || assertionType == "assert-slow-path" then
      Made(RangeAssertion(filename, range, assertionLine, BooleanPropertyKind(assertionType, contents == "true")))
    else if assertionType == "assert-fast-path" then
      Made(RangeAssertion(filename, range, assertionLine, FastPathKind(FastPathExpectedFiles(contents))))
    else if assertionType == "hover" then
      Made(RangeAssertion(filename, range, assertionLine, HoverKind(contents)))
    else if assertionType == "apply-code-action" then
      match TitleVersion(contents)
      case None => Malformed
      case Some(vt) => Made(RangeAssertion(filename, range, assertionLine, ApplyCodeActionKind(vt.0, vt.1)))
    else if IsIgnoredLabel(assertionType) then NoAssertion
    else Unrecognized(assertionType)
  }

  /** What each constructor makes of the contents. */
  lemma MakeAssertionKinds(filename: string, range: Range, assertionLine: int, contents: string, assertionType: string)
    ensures var r := MakeAssertion(filename, range, assertionLine, contents, assertionType);
            && (r.Made? && (assertionType == "usage" || assertionType == "def") ==>
                  var sv := GetSymbolAndVersion(contents).value;
                  r.assertion.kind == (if assertionType == "usage" then UsageKind(sv.0, sv.1) else DefKind(sv.0, sv.1)))
            && ((assertionType == "disable-fast-path" || assertionType == "assert-slow-path") ==>
                  r == Made(RangeAssertion(filename, range, assertionLine, BooleanPropertyKind(assertionType, contents == "true"))))
            && (assertionType == "assert-fast-path" ==>
                  r == Made(RangeAssertion(filename, range, assertionLine, FastPathKind(FastPathExpectedFiles(contents)))))
            && (assertionType == "hover" ==> r == Made(RangeAssertion(filename, range, assertionLine, HoverKind(contents))))
            && (assertionType == "apply-code-action" && TitleVersion(contents).Some? ==>
                  var (v, t) := TitleVersion(contents).value;
                  r == Made(RangeAssertion(filename, range, assertionLine, ApplyCodeActionKind(v, t))))
  {
  }

  // ---------------------------------------------------------------------
  // parseAssertionsForFile

  /** The loop state: the number of the line being read, and the last line
      holding code, which a caret comment points at. */
  datatype ParseState = ParseState(lineNum: int, lastSourceLineNum: int)

  /** The column where the carets of a match begin. */
  function CaretColumn(m: Match): nat {
    |m.prefix| + |m.hashGroup|
  }

  /** What a constructor's outcome adds to the loop's state. */
  function MadeStep(made: Made, next: ParseState): Option<(ParseState, seq<RangeAssertion>)> {
    match made
    case Made(a) => Some((next, [a]))
    case NoAssertion => Some((next, []))
    case Unrecognized(_) => Some((next, []))
    case Malformed => Some((next, []))
    case Raised => None
  }

  /** The line's effect once the pattern has matched `m`. A caret comment
      on line 0 is skipped by a `continue` that also skips the line
      counter; `countDropped` chooses whether the counter still advances
      there (the source: it does not). */
  function ParseMatchedLine(filename: string, st: ParseState, m: Match, countDropped: bool): Option<(ParseState, seq<RangeAssertion>)>
  {
    var lineHasCode := !AllSpaces(m.prefix);
    if m.carets != 0 && st.lineNum == 0 then
      Some((if countDropped then ParseState(1, st.lastSourceLineNum) else st, []))
    else
      var last1 := if m.carets == 0 && lineHasCode then st.lineNum else st.lastSourceLineNum;
      var range := if m.carets > 0 then MakeRange(last1, CaretColumn(m), CaretColumn(m) + m.carets) else MakeRange(last1);
      var last2 := if m.carets != 0 && lineHasCode then st.lineNum else last1;
      MadeStep(MakeAssertion(filename, range, st.lineNum, m.contents, m.assertionType), ParseState(st.lineNum + 1, last2))
  }

  /** A caret comment on line 0 yields nothing; a caret comment points at
      the last line with code, starting after the `#` and its spaces and
      spanning one column per caret; a comment without carets covers the
      whole of its own line when that line has code, else the last line
      with code; every assertion records the line its comment is on. */
  lemma ParseMatchedLineFacts(filename: string, st: ParseState, m: Match, countDropped: bool)
    ensures var r := ParseMatchedLine(filename, st, m, countDropped);
            && (m.carets > 0 && st.lineNum == 0 ==>
                  r == Some((ParseState(if countDropped then 1 else 0, st.lastSourceLineNum), [])))
            && (r.Some? ==> |r.value.1| <= 1)
            && (r.Some? && !(m.carets > 0 && st.lineNum == 0) ==> r.value.0.lineNum == st.lineNum + 1)
            && (IsIgnoredLabel(m.assertionType) ==> r.Some? && r.value.1 == [])
            && (r.Some? && r.value.1 != [] ==>
                  var a := r.value.1[0];
                  && IsConstructorLabel(m.assertionType)
                  && a.filename == filename && a.assertionLine == st.lineNum
                  && (m.carets > 0 ==>
                        a.range == MakeRange(st.lastSourceLineNum, CaretColumn(m), CaretColumn(m) + m.carets))
                  && (m.carets == 0 ==>
                        a.range == MakeRange(if AllSpaces(m.prefix) then st.lastSourceLineNum else st.lineNum)))
            && (r.None? ==> m.assertionType in {"usage", "def"})
  {
  }

  /** A matched line that is not skipped, with its range and the new last
      code line computed step by step. */
  lemma ParseMatchedLineIs(filename: string, st: ParseState, m: Match, countDropped: bool, range: Range, last2: int)
    requires !(m.carets != 0 && st.lineNum == 0)
    requires var last1 := if m.carets == 0 && !AllSpaces(m.prefix) then st.lineNum else st.lastSourceLineNum;
             && range == (if m.carets > 0 then MakeRange(last1, CaretColumn(m), CaretColumn(m) + m.carets) else MakeRange(last1))
             && last2 == (if m.carets != 0 && !AllSpaces(m.prefix) then st.lineNum else last1)
    ensures ParseMatchedLine(filename, st, m, countDropped)
            == MadeStep(MakeAssertion(filename, range, st.lineNum, m.contents, m.assertionType), ParseState(st.lineNum + 1, last2))
  {
  }

  /** One line of the loop. `None` is a constructor raising. A line the
      pattern does not match is code: the next caret comment points at it. */
  function ParseLine(filename: string, st: ParseState, line: string, countDropped: bool): (r: Option<(ParseState, seq<RangeAssertion>)>)
    ensures FirstMatch(line, 0).None? ==> r == Some((ParseState(st.lineNum + 1, st.lineNum), []))
    ensures FirstMatch(line, 0).Some? ==> r == ParseMatchedLine(filename, st, FirstMatch(line, 0).value, countDropped)
  {
    match FirstMatch(line, 0)
    case None => Some((ParseState(st.lineNum + 1, st.lineNum), []))
    case Some(m) => ParseMatchedLine(filename, st, m, countDropped)
  }

  /** The loop's effect on one more line. */
  function Step(filename: string, sofar: Option<(ParseState, seq<RangeAssertion>)>, line: string, countDropped: bool): Option<(ParseState, seq<RangeAssertion>)> {
    if sofar.None? then None
    else
      var r := ParseLine(filename, sofar.value.0, line, countDropped);
      if r.None? then None else Some((r.value.0, sofar.value.1 + r.value.1))
  }

  /** The loop over lines from `ParseState(0, 0)`. */
  function ParseLines(filename: string, lines: seq<string>, countDropped: bool): Option<(ParseState, seq<RangeAssertion>)> {
    if lines == [] then Some((ParseState(0, 0), []))
    else Step(filename, ParseLines(filename, lines[..|lines| - 1], countDropped), lines[|lines| - 1], countDropped)
  }

  lemma ParseLinesSnoc(filename: string, lines: seq<string>, line: string, countDropped: bool)
    ensures ParseLines(filename, lines + [line], countDropped) == Step(filename, ParseLines(filename, lines, countDropped), line, countDropped)
  {
    assert (lines + [line])[..|lines|] == lines;
  }

  /** The failures one line reports from the loop state `st`: a caret
      comment while the counter is 0 (position_assertions.cc:235-241), an
      unrecognized label (:274-282), or `usage`/`def` contents of three
      words or more (:319-322), or `apply-code-action` contents that are
      not `[version] title` (:869-871). */
  function LineFailures(filename: string, st: ParseState, line: string): seq<ParseFailure> {
    match FirstMatch(line, 0)
    case None => []
    case Some(m) =>
      if m.carets != 0 && st.lineNum == 0 then [CaretOnFirstLine(filename, st.lineNum + 1, line)]
      else if IsUnrecognizedLabel(m.assertionType) then [UnrecognizedLabel(filename, st.lineNum + 1, m.assertionType)]
      else if m.assertionType == "usage" || m.assertionType == "def" then GetSymbolAndVersionFailures(m.contents)
      else if m.assertionType == "apply-code-action" && TitleVersion(m.contents).None? then [MalformedCodeAction(filename, st.lineNum + 1)]
      else []
  }

  /** The failures the loop over `lines` reports, in order; none after a
      constructor raises. */
  function Failures(filename: string, lines: seq<string>, countDropped: bool): seq<ParseFailure>
    decreases |lines|
  {
    if lines == [] then []
    else
      var init := lines[..|lines| - 1];
      Failures(filename, init, countDropped)
        + match ParseLines(filename, init, countDropped)
          case None => []
          case Some(p) => LineFailures(filename, p.0, lines[|lines| - 1])
  }

  lemma FailuresSnoc(filename: string, lines: seq<string>, line: string, countDropped: bool)
    ensures Failures(filename, lines + [line], countDropped)
            == Failures(filename, lines, countDropped)
               + match ParseLines(filename, lines, countDropped)
                 case None => []
                 case Some(p) => LineFailures(filename, p.0, line)
  {
    assert (lines + [line])[..|lines|] == lines;
  }

  /** Once a line raises, no later line reports a failure. */
  lemma {:induction false} FailuresRaised(filename: string, lines: seq<string>, k: nat, countDropped: bool)
    requires k <= |lines|
    requires ParseLines(filename, lines[..k], countDropped).None?
    ensures Failures(filename, lines, countDropped) == Failures(filename, lines[..k], countDropped)
    decreases |lines| - k
  {
    if k < |lines| {
      ParseLinesSnoc(filename, lines[..k], lines[k], countDropped);
      FailuresSnoc(filename, lines[..k], lines[k], countDropped);
      TakeSnoc(lines, k + 1);
      assert Failures(filename, lines[..k + 1], countDropped) == Failures(filename, lines[..k], countDropped) + [];
      FailuresRaised(filename, lines, k + 1, countDropped);
    } else {
      assert lines[..k] == lines;
    }
  }

  /** Where each of six concatenated pieces lies. */
  lemma Layout<T>(a: seq<T>, b: seq<T>, c: seq<T>, d: seq<T>, e: seq<T>, f: seq<T>)
    ensures var s := a + b + c + d + e + f;
            var i1 := |a|;
            var i2 := i1 + |b|;
            var i3 := i2 + |c|;
            var i4 := i3 + |d|;
            var i5 := i4 + |e|;
            && s[..i1] == a && s[i1..i2] == b && s[i2..i3] == c
            && s[i3..i4] == d && s[i4..i5] == e && s[i5..] == f
  {
  }

  lemma SliceIs<T>(s: seq<T>, lo: nat, hi: nat, p: seq<T>)
    requires lo <= hi <= |s| && |p| == hi - lo
    requires forall k :: 0 <= k < |p| ==> s[lo + k] == p[k]
    ensures s[lo..hi] == p
  {
  }

  lemma HeadTail<T>(s: seq<T>)
    requires |s| >= 1
    ensures s == [s[0]] + s[1..]
    ensures multiset(s) == multiset{s[0]} + multiset(s[1..])
  {
  }

  lemma TakeAll<T>(s: seq<T>)
    ensures s[..|s|] == s
  {
  }

  lemma PrefixThenRest<T>(s: seq<T>, p: seq<T>)
    requires |p| <= |s| && s[..|p|] == p
    ensures s == p + s[|p|..]
  {
  }

  lemma TakeSnoc<T>(s: seq<T>, i: nat)
    requires 1 <= i <= |s|
    ensures s[..i] == s[..i - 1] + [s[i - 1]]
  {
  }

  /** Once a line raises, the whole file does. */
  lemma {:induction false} ParseLinesRaised(filename: string, lines: seq<string>, k: nat, countDropped: bool)
    requires k <= |lines|
    requires ParseLines(filename, lines[..k], countDropped).None?
    ensures ParseLines(filename, lines, countDropped).None?
    decreases |lines| - k
  {
    if k < |lines| {
      ParseLinesSnoc(filename, lines[..k], lines[k], countDropped);
      TakeSnoc(lines, k + 1);
      ParseLinesRaised(filename, lines, k + 1, countDropped);
    } else {
      assert lines[..k] == lines;
    }
  }

  /** The offsets of the newlines at or after `from`. */
  function NewlinesFrom(source: string, from: nat): (r: seq<int>)
    requires from <= |source|
    ensures forall k :: 0 <= k < |r| ==> from <= r[k] < |source| && source[r[k]] == '\n'
    ensures forall k :: 0 <= k < |r| - 1 ==> r[k] < r[k + 1]
    ensures forall k :: from <= k < |source| && source[k] == '\n' ==> k in r
    decreases |source| - from
  {
    if from == |source| then []
    else if source[from] == '\n' then [from] + NewlinesFrom(source, from + 1)
    else NewlinesFrom(source, from + 1)
  }

  /** `File::lineBreaks`: -1, the offset of every newline, and the length of
      the source. */
  function LineBreaks(source: string): (lb: seq<int>)
    ensures |lb| >= 2 && lb[0] == -1 && lb[|lb| - 1] == |source|
    ensures forall k :: 0 <= k < |lb| - 1 ==> lb[k] < lb[k + 1]
    ensures forall k :: 1 <= k < |lb| - 1 ==> 0 <= lb[k] < |source| && source[lb[k]] == '\n'
  {
    var nl := NewlinesFrom(source, 0);
    var lb := [-1] + nl + [|source|];
    assert forall k :: 1 <= k < |lb| - 1 ==> lb[k] == nl[k - 1];
    lb
  }

  /** The text between consecutive line breaks. */
  function SourceLines(source: string): (lines: seq<string>)
    ensures |lines| == |LineBreaks(source)| - 1
  {
    var lb := LineBreaks(source);
    seq(|lb| - 1, k requires 0 <= k < |lb| - 1 => source[lb[k] + 1..lb[k + 1]])
  }

  function ParsedAssertions(filename: string, lines: seq<string>, countDropped: bool): Option<seq<RangeAssertion>> {
    match ParseLines(filename, lines, countDropped)
    case None => None
    case Some(p) => Some(p.1)
  }

  /** Three lines: a caret comment on line 0, a code line, and a caret
      comment pointing at the code line. */
  function ShiftLines(code: string, first: string, last: string): seq<string> {
    [AssertionComment("", 1, "hover", first), code, AssertionComment("", 1, "hover", last)]
  }

  /** Hover contents the pattern reads back whole. */
  predicate HoverText(contents: string) {
    NoLineTerminator(contents) && (contents == [] || contents[0] != ' ')
  }

  /** A line without `#` never matches. */
  lemma {:induction false} NoHashNoMatch(line: string, from: nat)
    requires from <= |line| && '#' !in line
    ensures FirstMatch(line, from).None?
    decreases |line| - from
  {
    if from < |line| {
      assert line[from] in line;
      NoHashNoMatch(line, from + 1);
    }
  }

  lemma HoverCommentMatch(contents: string)
    requires HoverText(contents)
    ensures FirstMatch(AssertionComment("", 1, "hover", contents), 0) == Some(Match("", "# ", 1, "hover", contents))
  {
    AssertionCommentRoundTrip("", 1, "hover", contents);
  }

  /** Three lines read as a caret comment, a code line and a caret comment
      that makes `a`: only the third yields an assertion, on line `n + 1`
      and pointing at line `n`, where `n` is 0 as written and 1 counted. */
  lemma {:induction false} ThreeLineParse(filename: string, lines: seq<string>, countDropped: bool, n: nat, m0: Match, m2: Match, a: RangeAssertion)
    requires n == if countDropped then 1 else 0
    requires |lines| == 3
    requires FirstMatch(lines[0], 0) == Some(m0) && m0.carets > 0
    requires FirstMatch(lines[1], 0).None?
    requires FirstMatch(lines[2], 0) == Some(m2) && m2.carets > 0 && AllSpaces(m2.prefix)
    requires MakeAssertion(filename, MakeRange(n, CaretColumn(m2), CaretColumn(m2) + m2.carets), n + 1, m2.contents, m2.assertionType) == Made(a)
    ensures ParsedAssertions(filename, lines, countDropped) == Some([a])
  {
    SkippedFirstLine(filename, lines, countDropped, m0);
    CodeSecondLine(filename, lines, countDropped, n);
    PointingThirdLine(filename, lines, countDropped, n, m2, a);
    TakeAll(lines);
  }

  /** A caret comment on line 0 is skipped. */
  lemma SkippedFirstLine(filename: string, lines: seq<string>, countDropped: bool, m0: Match)
    requires |lines| >= 1 && FirstMatch(lines[0], 0) == Some(m0) && m0.carets > 0
    ensures ParseLines(filename, lines[..1], countDropped) == Some((ParseState(if countDropped then 1 else 0, 0), []))
  {
    var e: seq<RangeAssertion> := [];
    assert lines[..0] == [];
    assert e + e == e;
    ParseLinesStep(filename, lines, 0, countDropped, ParseState(0, 0), e, ParseState(if countDropped then 1 else 0, 0), e);
  }

  /** A code line advances the counter and becomes the last code line. */
  lemma CodeSecondLine(filename: string, lines: seq<string>, countDropped: bool, n: int)
    requires |lines| >= 2 && FirstMatch(lines[1], 0).None?
    requires ParseLines(filename, lines[..1], countDropped) == Some((ParseState(n, 0), []))
    ensures ParseLines(filename, lines[..2], countDropped) == Some((ParseState(n + 1, n), []))
  {
    var e: seq<RangeAssertion> := [];
    assert e + e == e;
    CodeLineStep(filename, ParseState(n, 0), lines[1], countDropped);
    ParseLinesStep(filename, lines, 1, countDropped, ParseState(n, 0), e, ParseState(n + 1, n), e);
  }

  /** A line the pattern does not match. */
  lemma CodeLineStep(filename: string, st: ParseState, line: string, countDropped: bool)
    requires FirstMatch(line, 0).None?
    ensures ParseLine(filename, st, line, countDropped) == Some((ParseState(st.lineNum + 1, st.lineNum), []))
  {
  }

  /** A caret comment on its own line points at the code line above it. */
  lemma PointingThirdLine(filename: string, lines: seq<string>, countDropped: bool, n: int, m2: Match, a: RangeAssertion)
    requires |lines| == 3 && n >= 0
    requires FirstMatch(lines[2], 0) == Some(m2) && m2.carets > 0 && AllSpaces(m2.prefix)
    requires MakeAssertion(filename, MakeRange(n, CaretColumn(m2), CaretColumn(m2) + m2.carets), n + 1, m2.contents, m2.assertionType) == Made(a)
    requires ParseLines(filename, lines[..2], countDropped) == Some((ParseState(n + 1, n), []))
    ensures ParseLines(filename, lines, countDropped) == Some((ParseState(n + 2, n), [a]))
  {
    var e: seq<RangeAssertion> := [];
    var st, next := ParseState(n + 1, n), ParseState(n + 2, n);
    assert ParseLine(filename, st, lines[2], countDropped) == Some((next, [a])) by {
      ParseMatchedLineIs(filename, st, m2, countDropped, MakeRange(n, CaretColumn(m2), CaretColumn(m2) + m2.carets), n);
    }
    assert ParseLines(filename, lines[..3], countDropped) == Some((next, [a])) by {
      assert e + [a] == [a];
      ParseLinesStep(filename, lines, 2, countDropped, st, e, next, [a]);
    }
    TakeAll(lines);
  }

  /** One more line of the loop, stated on prefixes of `lines`. */
  lemma ParseLinesStep(filename: string, lines: seq<string>, k: nat, countDropped: bool,
                       st: ParseState, found: seq<RangeAssertion>, st': ParseState, more: seq<RangeAssertion>)
    requires k < |lines|
    requires ParseLines(filename, lines[..k], countDropped) == Some((st, found))
    requires ParseLine(filename, st, lines[k], countDropped) == Some((st', more))
    ensures ParseLines(filename, lines[..k + 1], countDropped) == Some((st', found + more))
  {
    TakeSnoc(lines, k + 1);
    ParseLinesSnoc(filename, lines[..k], lines[k], countDropped);
  }

  /** Parsing the three lines: as written (`countDropped` false) the last
      comment is recorded on line 1 and points at line 0; counted, on line
      2 pointing at line 1. */
  lemma ShiftLinesParse(filename: string, code: string, first: string, last: string, countDropped: bool, n: nat)
    requires '#' !in code && HoverText(first) && HoverText(last)
    requires n == if countDropped then 1 else 0
    ensures ParsedAssertions(filename, ShiftLines(code, first, last), countDropped)
            == Some([RangeAssertion(filename, MakeRange(n, 2, 3), n + 1, HoverKind(last))])
  {
    var m2 := Match("", "# ", 1, "hover", last);
    var a := RangeAssertion(filename, MakeRange(n, 2, 3), n + 1, HoverKind(last));
    ShiftLinesFacts(filename, code, first, last, n, m2, a);
    ThreeLineParse(filename, ShiftLines(code, first, last), countDropped, n, Match("", "# ", 1, "hover", first), m2, a);
  }

  /** How the pattern reads the three lines, and the assertion the last
      one makes when it is recorded on line `n + 1`. */
  lemma ShiftLinesFacts(filename: string, code: string, first: string, last: string, n: nat, m2: Match, a: RangeAssertion)
    requires '#' !in code && HoverText(first) && HoverText(last)
    requires m2 == Match("", "# ", 1, "hover", last)
    requires a == RangeAssertion(filename, MakeRange(n, 2, 3), n + 1, HoverKind(last))
    ensures var lines := ShiftLines(code, first, last);
            && |lines| == 3
            && FirstMatch(lines[0], 0) == Some(Match("", "# ", 1, "hover", first))
            && FirstMatch(lines[1], 0).None?
            && FirstMatch(lines[2], 0) == Some(m2) && m2.carets > 0 && AllSpaces(m2.prefix)
            && MakeAssertion(filename, MakeRange(n, CaretColumn(m2), CaretColumn(m2) + m2.carets), n + 1, m2.contents, m2.assertionType) == Made(a)
  {
    HoverCommentMatch(first);
    HoverCommentMatch(last);
    NoHashNoMatch(code, 0);
    assert CaretColumn(m2) == 2;
    MakeAssertionKinds(filename, MakeRange(n, 2, 3), n + 1, last, "hover");
  }

  /** The line counter as written: the skipped line is not counted, so in
      `# ^ hover: x`, `a`, `# ^ hover: y` (or any file of that shape) the
      comment on line 2 is recorded as line 1 and points at line 0, the
      skipped comment, instead of the code line 1. */
  lemma SkippedLineShiftsNumbers(filename: string, code: string, first: string, last: string)
    requires '#' !in code && HoverText(first) && HoverText(last)
    ensures ParsedAssertions(filename, ShiftLines(code, first, last), false)
            == Some([RangeAssertion(filename, MakeRange(0, 2, 3), 1, HoverKind(last))])
  {
    ShiftLinesParse(filename, code, first, last, false, 0);
  }

  /** Counted, the same comment is recorded as line 2 and points at line 1,
      the code line above it. */
  lemma CountedLineNumbers(filename: string, code: string, first: string, last: string)
    requires '#' !in code && HoverText(first) && HoverText(last)
    ensures ParsedAssertions(filename, ShiftLines(code, first, last), true)
            == Some([RangeAssertion(filename, MakeRange(1, 2, 3), 2, HoverKind(last))])
  {
    ShiftLinesParse(filename, code, first, last, true, 1);
  }

  // ---------------------------------------------------------------------
  // The line counter once the skipped comment is counted

  /** A line that a later caret comment may point at: one the pattern does
      not match, or one whose comment follows code (a caret comment on line
      0 is skipped before it can count). */
  predicate IsCodeLine(line: string, k: nat) {
    match FirstMatch(line, 0)
    case None => true
    case Some(m) => !AllSpaces(m.prefix) && !(m.carets != 0 && k == 0)
  }

  /** The last code line among `lines`, or 0. */
  function LastCodeLine(lines: seq<string>): (r: nat)
    ensures lines != [] ==> r < |lines|
    ensures r > 0 ==> r < |lines| && IsCodeLine(lines[r], r)
  {
    if lines == [] then 0
    else if IsCodeLine(lines[|lines| - 1], |lines| - 1) then |lines| - 1
    else LastCodeLine(lines[..|lines| - 1])
  }

  /** With the skipped comment counted, the loop's state after `lines` is
      their number and their last code line. */
  lemma {:induction false} CountedParseState(filename: string, lines: seq<string>)
    ensures ParseLines(filename, lines, true).Some? ==>
              ParseLines(filename, lines, true).value.0 == ParseState(|lines|, LastCodeLine(lines))
  {
    if lines != [] {
      var init := lines[..|lines| - 1];
      var last := lines[|lines| - 1];
      CountedParseState(filename, init);
      CountedParseSnoc(filename, init, last);
      assert lines == init + [last];
    }
  }

  /** The step of `CountedParseState` from `init` to one more line. */
  lemma CountedParseSnoc(filename: string, init: seq<string>, last: string)
    requires ParseLines(filename, init, true).Some? ==>
               ParseLines(filename, init, true).value.0 == ParseState(|init|, LastCodeLine(init))
    ensures ParseLines(filename, init + [last], true).Some? ==>
              ParseLines(filename, init + [last], true).value.0 == ParseState(|init| + 1, LastCodeLine(init + [last]))
  {
    ParseLinesSnoc(filename, init, last, true);
    LastCodeLineSnoc(init, last);
    var p := ParseLines(filename, init, true);
    if p.Some? {
      CountedLineState(filename, p.value.0, last);
    }
  }

  /** With the skipped comment counted, one line advances the counter by
      one, and makes itself the last code line exactly when it is one. */
  lemma CountedLineState(filename: string, st: ParseState, line: string)
    requires st.lineNum >= 0
    ensures var r := ParseLine(filename, st, line, true);
            r.Some? ==>
              r.value.0 == ParseState(st.lineNum + 1, if IsCodeLine(line, st.lineNum) then st.lineNum else st.lastSourceLineNum)
  {
  }

  /** `a` records the index of `line`, the line after `lines`; a caret
      comment points at the last code line before it, and a comment
      without carets at the last code line up to and including its own. */
  predicate CountedAssertion(filename: string, lines: seq<string>, line: string, a: RangeAssertion) {
    && FirstMatch(line, 0).Some?
    && var m := FirstMatch(line, 0).value;
    && a.filename == filename && a.assertionLine == |lines|
    && (m.carets > 0 ==> a.range == MakeRange(LastCodeLine(lines), CaretColumn(m), CaretColumn(m) + m.carets))
    && (m.carets == 0 ==> a.range == MakeRange(LastCodeLine(lines + [line])))
  }

  /** With the skipped comment counted, the assertion read from one more
      line records that line's index, a caret comment points at the last
      code line before it, and a comment without carets covers the last
      code line up to and including its own. */
  lemma CountedLineAssertion(filename: string, lines: seq<string>, line: string)
    requires ParseLines(filename, lines, true).Some?
    ensures var before := ParseLines(filename, lines, true).value.1;
            var after := ParseLines(filename, lines + [line], true);
            after.Some? ==>
              (after.value.1 == before ||
               (exists a :: after.value.1 == before + [a] && CountedAssertion(filename, lines, line, a)))
  {
    CountedParseState(filename, lines);
    ParseLinesSnoc(filename, lines, line, true);
    var before := ParseLines(filename, lines, true).value.1;
    var st := ParseState(|lines|, LastCodeLine(lines));
    match FirstMatch(line, 0)
    case None =>
      assert before + [] == before;
    case Some(m) =>
      var r := ParseMatchedLine(filename, st, m, true);
      ParseMatchedLineFacts(filename, st, m, true);
      if r.Some? {
        if r.value.1 == [] {
          assert before + [] == before;
        } else {
          var a := r.value.1[0];
          assert r.value.1 == [a];
          LastCodeLineSnoc(lines, line);
          var after := ParseLines(filename, lines + [line], true);
          assert after.value.1 == before + [a];
          assert a.filename == filename && a.assertionLine == |lines|;
          assert m.carets == 0 ==> a.range == MakeRange(LastCodeLine(lines + [line]));
          assert CountedAssertion(filename, lines, line, a);
        }
      }
  }

  /** With the skipped comment counted, an unrecognized label or a
      malformed `apply-code-action` is reported at its own line, numbered
      from 1. */
  lemma CountedLineFailure(filename: string, lines: seq<string>, line: string)
    requires ParseLines(filename, lines, true).Some?
    ensures Failures(filename, lines + [line], true)
            == Failures(filename, lines, true)
               + match FirstMatch(line, 0)
                 case None => []
                 case Some(m) =>
                   if m.carets != 0 && |lines| == 0 then [CaretOnFirstLine(filename, 1, line)]
                   else if IsUnrecognizedLabel(m.assertionType) then [UnrecognizedLabel(filename, |lines| + 1, m.assertionType)]
                   else if m.assertionType == "usage" || m.assertionType == "def" then GetSymbolAndVersionFailures(m.contents)
                   else if m.assertionType == "apply-code-action" && TitleVersion(m.contents).None? then [MalformedCodeAction(filename, |lines| + 1)]
                   else []
  {
    CountedParseState(filename, lines);
    FailuresSnoc(filename, lines, line, true);
  }

  /** Unless line 0 is a caret comment, which is where the skipped
      increment happens, the parser as written agrees with the counted one:
      the same assertions and the same failures. So for such files the
      counted facts above hold of the source as written. */
  lemma {:induction false} AsWrittenEqualsCounted(filename: string, lines: seq<string>)
    requires lines == [] || !(FirstMatch(lines[0], 0).Some? && FirstMatch(lines[0], 0).value.carets > 0)
    ensures ParseLines(filename, lines, false) == ParseLines(filename, lines, true)
    ensures Failures(filename, lines, false) == Failures(filename, lines, true)
    decreases |lines|
  {
    if lines != [] {
      var init := lines[..|lines| - 1];
      var last := lines[|lines| - 1];
      assert lines == init + [last];
      ParseLinesSnoc(filename, init, last, false);
      ParseLinesSnoc(filename, init, last, true);
      FailuresSnoc(filename, init, last, false);
      FailuresSnoc(filename, init, last, true);
      if init == [] {
        assert ParseLines(filename, init, false) == Some((ParseState(0, 0), []));
        CountIrrelevant(filename, ParseState(0, 0), last);
      } else {
        assert init[0] == lines[0];
        AsWrittenEqualsCounted(filename, init);
        CountedParseState(filename, init);
        var p := ParseLines(filename, init, true);
        if p.Some? {
          CountIrrelevant(filename, p.value.0, last);
        }
      }
    }
  }

  /** Away from a caret comment on line 0, counting the skipped line or not
      makes no difference to one line. */
  lemma CountIrrelevant(filename: string, st: ParseState, line: string)
    requires st.lineNum != 0 || !(FirstMatch(line, 0).Some? && FirstMatch(line, 0).value.carets > 0)
    ensures ParseLine(filename, st, line, false) == ParseLine(filename, st, line, true)
  {
  }

  lemma LastCodeLineSnoc(lines: seq<string>, line: string)
    ensures LastCodeLine(lines + [line]) == if IsCodeLine(line, |lines|) then |lines| else LastCodeLine(lines)
  {
    assert (lines + [line])[..|lines|] == lines;
  }

  /** The body of the loop for one line, with its early `continue`. */
  method ReadAssertionLine(filename: string, line: string, lineNum: int, lastSourceLineNum: int)
    returns (made: Made, nextLineNum: int, nextLastSourceLineNum: int, failures: seq<ParseFailure>)
    ensures made.Raised? <==> ParseLine(filename, ParseState(lineNum, lastSourceLineNum), line, false).None?
    ensures !made.Raised? ==>
              ParseLine(filename, ParseState(lineNum, lastSourceLineNum), line, false)
              == Some((ParseState(nextLineNum, nextLastSourceLineNum), if made.Made? then [made.assertion] else []))
    ensures failures == LineFailures(filename, ParseState(lineNum, lastSourceLineNum), line)
    ensures made.Raised? ==> failures == []
  {
    nextLineNum, nextLastSourceLineNum, failures := lineNum, lastSourceLineNum, [];
    ghost var st := ParseState(lineNum, lastSourceLineNum);
    var m := FirstMatch(line, 0);
    if m.Some? {
      assert ParseLine(filename, st, line, false) == ParseMatchedLine(filename, st, m.value, false);
      var numCarets := m.value.carets;
      var lineHasCode := !AllSpaces(m.value.prefix);
      if numCarets != 0 && lineNum == 0 {
        // `ADD_FAILURE_AT` reports the comment, which is then skipped.
        return NoAssertion, nextLineNum, nextLastSourceLineNum, [CaretOnFirstLine(filename, lineNum + 1, line)];
      }
      if numCarets == 0 && lineHasCode {
        nextLastSourceLineNum := lineNum;
      }
      var range;
      if numCarets > 0 {
        var caretBeginPos := |m.value.prefix| + |m.value.hashGroup|;
        range := MakeRange(nextLastSourceLineNum, caretBeginPos, caretBeginPos + numCarets);
      } else {
        range := MakeRange(nextLastSourceLineNum);
      }
      if numCarets != 0 && lineHasCode {
        nextLastSourceLineNum := lineNum;
      }
      var assertionType := m.value.assertionType;
      made := MakeAssertion(filename, range, lineNum, m.value.contents, assertionType);
      ParseMatchedLineIs(filename, st, m.value, false, range, nextLastSourceLineNum);
      // `ADD_FAILURE_AT` reports the label and parsing goes on.
      if made.Unrecognized? {
        failures := [UnrecognizedLabel(filename, lineNum + 1, assertionType)];
      } else if assertionType == "usage" || assertionType == "def" {
        failures := GetSymbolAndVersionFailures(m.value.contents);
      } else if made.Malformed? {
        // `ADD_FAILURE_AT` reports the contents and no assertion is made.
        failures := [MalformedCodeAction(filename, lineNum + 1)];
      }
      if made.Raised? {
        return;
      }
    } else {
      made := NoAssertion;
      nextLastSourceLineNum := lineNum;
    }
    nextLineNum := lineNum + 1;
  }

  /** One turn of the loop: cut out the line ending at `lineBreaks[i]` and
      read it. `raised` means a constructor raised. */
  method ParseNextLine(filename: string, source: string, lineBreaks: seq<int>, i: nat, nextChar: int,
                       lineNum: int, lastSourceLineNum: int, found: seq<RangeAssertion>, failures: seq<ParseFailure>)
    returns (raised: bool, nextChar': int, lineNum': int, lastSourceLineNum': int, found': seq<RangeAssertion>,
             failures': seq<ParseFailure>)
    requires lineBreaks == LineBreaks(source) && 1 <= i < |lineBreaks| && nextChar == lineBreaks[i - 1] + 1
    ensures |found| <= |found'| && found'[..|found|] == found
    ensures failures' == failures + LineFailures(filename, ParseState(lineNum, lastSourceLineNum), SourceLines(source)[i - 1])
    ensures raised ==> failures' == failures
    ensures var r := ParseLine(filename, ParseState(lineNum, lastSourceLineNum), SourceLines(source)[i - 1], false);
            && (raised <==> r.None?)
            && (!raised ==> r == Some((ParseState(lineNum', lastSourceLineNum'), found'[|found|..])))
    ensures !raised ==> nextChar' == lineBreaks[i] + 1
  {
    SourceLineIs(source, i);
    var line := source[nextChar..lineBreaks[i]];
    nextChar' := lineBreaks[i] + 1;
    var made, lineFailures;
    made, lineNum', lastSourceLineNum', lineFailures := ReadAssertionLine(filename, line, lineNum, lastSourceLineNum);
    raised := made.Raised?;
    found' := if made.Made? then found + [made.assertion] else found;
    assert found'[|found|..] == if made.Made? then [made.assertion] else [];
    failures' := failures + lineFailures;
  }

  /** Line `i - 1` of the source lies between the line breaks `i - 1` and `i`. */
  lemma SourceLineIs(source: string, i: nat)
    requires 1 <= i < |LineBreaks(source)|
    ensures SourceLines(source)[i - 1] == source[LineBreaks(source)[i - 1] + 1..LineBreaks(source)[i]]
  {
  }

  /** `parseAssertionsForFile`, as written. `failures` are the
      unrecognized labels the test is failed for, reported even when a
      later constructor raises. */
  method ParseAssertionsForFile(filename: string, source: string)
    returns (assertions: Option<seq<RangeAssertion>>, failures: seq<ParseFailure>)
    ensures assertions == ParsedAssertions(filename, SourceLines(source), false)
    ensures failures == Failures(filename, SourceLines(source), false)
  {
    var lineBreaks := LineBreaks(source);
    ghost var lines := SourceLines(source);
    var found: seq<RangeAssertion> := [];
    failures := [];
    var nextChar := 0;
    var lineNum := 0;
    var lastSourceLineNum := 0;
    // The first entry, -1, only marks where line 0 begins.
    for i := 1 to |lineBreaks|
      invariant nextChar == lineBreaks[i - 1] + 1
      invariant ParseLines(filename, lines[..i - 1], false) == Some((ParseState(lineNum, lastSourceLineNum), found))
      invariant failures == Failures(filename, lines[..i - 1], false)
    {
      ghost var st := ParseState(lineNum, lastSourceLineNum);
      ghost var before := found;
      var raised;
      raised, nextChar, lineNum, lastSourceLineNum, found, failures :=
        ParseNextLine(filename, source, lineBreaks, i, nextChar, lineNum, lastSourceLineNum, found, failures);
      TakeSnoc(lines, i);
      ParseLinesSnoc(filename, lines[..i - 1], lines[i - 1], false);
      FailuresSnoc(filename, lines[..i - 1], lines[i - 1], false);
      if raised {
        ParseLinesRaised(filename, lines, i, false);
        FailuresRaised(filename, lines, i, false);
        return None, failures;
      }
      PrefixThenRest(found, before);
    }
    TakeAll(lines);
    return Some(found), failures;
  }

  // ---------------------------------------------------------------------
  // containsLine

  /** The `len` characters at `pos` run from the start of a line to its end. */
  predicate AtLineBoundaries(text: string, pos: nat, len: nat)
    requires pos + len <= |text|
  {
    (pos == 0 || text[pos - 1] == '\n') && (pos + len == |text| || text[pos + len] == '\n')
  }

  /** What `containsLine` is documented to decide: `line` is a whole line of `text`. */
  ghost predicate ContainsFullLine(text: string, line: string) {
    exists pos :: OccursAt(text, line, pos) && AtLineBoundaries(text, pos, |line|)
  }

  /** `containsLine` as written: only the first occurrence is examined. */
  function ContainsLine(text: string, line: string): bool {
    match Find(text, line)
    case None => false
    case Some(pos) => AtLineBoundaries(text, pos, |line|)
  }

  /** As written, a `true` answer is always right. */
  lemma ContainsLineSound(text: string, line: string)
    ensures ContainsLine(text, line) ==> ContainsFullLine(text, line)
  {
    if ContainsLine(text, line) {
      var pos := Find(text, line).value;
      assert OccursAt(text, line, pos) && AtLineBoundaries(text, pos, |line|);
    }
  }

  /** As written, a line that first occurs inside a longer line is missed
      even when it is also a line of its own. */
  lemma ContainsLineMissesLaterLine()
    ensures !ContainsLine("ab\nb", "b") && ContainsFullLine("ab\nb", "b")
  {
    var text, b := "ab\nb", "b";
    assert |text| == 4 && text[0] == 'a' && text[1] == 'b' && text[2] == '\n' && text[3] == 'b';
    assert |b| == 1 && b[0] == 'b';
    assert text[0..1][0] == 'a';
    assert text[1..2] == b by { assert text[1..2][0] == b[0]; }
    assert text[3..4] == b by { assert text[3..4][0] == b[0]; }
    assert !OccursAt(text, b, 0) && OccursAt(text, b, 1);
    assert Find(text, b) == Some(1);
    assert OccursAt(text, b, 3) && AtLineBoundaries(text, 3, 1);
  }

  /** Every occurrence at or after `from` is examined. */
  function ContainsLineFrom(text: string, line: string, from: nat): (r: bool)
    ensures r <==> exists pos :: from <= pos && OccursAt(text, line, pos) && AtLineBoundaries(text, pos, |line|)
    decreases |text| + 1 - from
  {
    match FindFrom(text, line, from)
    case None => false
    case Some(pos) =>
      if AtLineBoundaries(text, pos, |line|) then true
      else
        var r := ContainsLineFrom(text, line, pos + 1);
        assert forall q :: from <= q < pos ==> !OccursAt(text, line, q);
        r
  }

  /** `containsLine` corrected: true exactly when `line` is a line of `text`. */
  function ContainsLineCorrected(text: string, line: string): (r: bool)
    ensures r <==> ContainsFullLine(text, line)
  {
    ContainsLineFrom(text, line, 0)
  }
}
