/** The indexing driver of main/pipeline/pipeline.cc: choosing each file's
    strictness level, the parse-tree cache keyed by path and content hash,
    indexing one file through parser, desugarer, plugins, DSL passes and
    local-variable resolution with the short-circuits of `--stop-after`,
    reserving file ids, merging the per-thread results, and the single-
    threaded indexing of at most two files followed by the sort by file.

    The passes themselves (parser, desugarer, plugins, DSL, local
    variables), the content hash, the file system and the tree substitution
    between states are code this model cannot see: they are the fields of
    `Frontend` and parameters of the methods. A pass that raises a
    `SorbetException` is modelled by the pass returning `None`. */
module Pipeline {
  import opened Common
  import opened Ast

  // ---------------------------------------------------------------------
  // Strictness levels

  /** `core::StrictLevel`, in declaration order: the comparisons on levels
      follow `Rank`. */
  datatype StrictLevel =
    | NoSigil | Ignore | Internal | False | True | Strict | Strong | Max
    | Autogenerated | Stdlib

  function Rank(l: StrictLevel): nat {
    match l
    case NoSigil => 0
    case Ignore => 1
    case Internal => 2
    case False => 3
    case True => 4
    case Strict => 5
    case Strong => 6
    case Max => 7
    case Autogenerated => 8
    case Stdlib => 9
  }

  /** `std::min` on levels: the first argument unless the second is
      strictly smaller. */
  function MinLevel(a: StrictLevel, b: StrictLevel): (r: StrictLevel)
    ensures r == a || r == b
    ensures Rank(r) <= Rank(a) && Rank(r) <= Rank(b)
  {
    if Rank(b) < Rank(a) then b else a
  }

  /** `std::max` on levels: the first argument unless it is strictly
      smaller than the second. */
  function MaxLevel(a: StrictLevel, b: StrictLevel): (r: StrictLevel)
    ensures r == a || r == b
    ensures Rank(a) <= Rank(r) && Rank(b) <= Rank(r)
  {
    if Rank(a) < Rank(b) then b else a
  }

  /** The levels the `--typed` bounds apply to: above `Ignore`, up to `Max`. */
  predicate Clampable(l: StrictLevel) {
    Rank(Ignore) < Rank(l) <= Rank(Max)
  }

  /** The clamping step of `decideStrictLevel`. */
  function ClampLevel(level: StrictLevel, minStrict: StrictLevel, maxStrict: StrictLevel): (r: StrictLevel)
    ensures !Clampable(level) ==> r == level
    ensures Clampable(level) ==> r == level || r == minStrict || r == maxStrict
    ensures Clampable(level) && Rank(minStrict) <= Rank(maxStrict) ==>
              Rank(minStrict) <= Rank(r) <= Rank(maxStrict)
    ensures Clampable(level) && Rank(minStrict) <= Rank(level) <= Rank(maxStrict) ==> r == level
    ensures Clampable(level) && Rank(maxStrict) < Rank(level) && Rank(minStrict) <= Rank(maxStrict) ==> r == maxStrict
    ensures Clampable(level) && Rank(level) < Rank(minStrict) ==> r == minStrict
  {
    if Clampable(level) then MaxLevel(MinLevel(level, maxStrict), minStrict) else level
  }

  /** Clamping twice with bounds that are themselves clampable is clamping
      once. */
  lemma ClampLevelIdempotent(level: StrictLevel, minStrict: StrictLevel, maxStrict: StrictLevel)
    requires Clampable(minStrict) && Clampable(maxStrict) && Rank(minStrict) <= Rank(maxStrict)
    ensures ClampLevel(ClampLevel(level, minStrict, maxStrict), minStrict, maxStrict)
            == ClampLevel(level, minStrict, maxStrict)
  {
    var once := ClampLevel(level, minStrict, maxStrict);
    if Clampable(level) {
      assert Clampable(once);
    }
  }

  /** The key a file's path is looked up under in the strictness
      overrides: a path starting with neither `/` nor `./` gets `./` in
      front. */
  function NormalizedPath(path: string): (r: string)
    ensures StartsWith(r, "/") || StartsWith(r, "./")
    ensures StartsWith(path, "/") || StartsWith(path, "./") ==> r == path
    ensures !(StartsWith(path, "/") || StartsWith(path, "./")) ==> r == "./" + path
  {
    if StartsWith(path, "/") || StartsWith(path, "./") then path else "./" + path
  }

  lemma NormalizedPathIdempotent(path: string)
    ensures NormalizedPath(NormalizedPath(path)) == NormalizedPath(path)
  {
  }

  // ---------------------------------------------------------------------
  // Files, options and the passes the driver calls

  /** `core::File::Type`, the values the driver distinguishes. */
  datatype SourceType = Normal | NotYetRead | PayloadGeneration

  /** A file of the file table. */
  datatype File = File(
    path: string, source: string, sourceType: SourceType,
    originalSigil: StrictLevel, strictLevel: StrictLevel,
    cachedParseTree: bool)

  /** The phases `--stop-after` can name, in pipeline order. */
  datatype Phase = Init | Parser | Desugarer | DSL | LocalVars | Namer | Resolver | CFG | Inferencer

  /** The options the driver reads. */
  datatype Options = Options(
    strictnessOverrides: map<string, StrictLevel>,
    forceMinStrict: StrictLevel, forceMaxStrict: StrictLevel,
    stopAfterPhase: Phase, skipDSLPasses: bool, storeState: string)

  /** An 8-byte content hash, `crypto_hashing::hash64`. */
  type Hash64 = s: seq<byte> | |s| == 8 witness [0, 0, 0, 0, 0, 0, 0, 0]

  /** The code the driver calls and this model does not contain. A pass
      result `None` is the pass raising `SorbetException`; `readFile`
      returning `None` is `FileNotFoundException`; `sigilOf` is the sigil
      parsing of a new file's source. */
  datatype Frontend = Frontend(
    hash64: string -> Hash64,
    parse: (nat, string) -> Option<Expr>,
    desugar: (nat, Expr) -> Option<Expr>,
    plugins: (nat, Expr) -> Option<(Expr, seq<File>)>,
    dsl: (nat, Expr) -> Option<Expr>,
    localVars: (nat, Expr) -> Option<Expr>,
    readFile: string -> Option<string>,
    sigilOf: string -> StrictLevel)

  /** A file as `core::File`'s constructor makes it: its strictness starts
      at the sigil of its source. */
  function NewFile(path: string, source: string, sourceType: SourceType, sigilOf: string -> StrictLevel): (f: File)
    ensures f.path == path && f.source == source && f.sourceType == sourceType
    ensures f.originalSigil == f.strictLevel == sigilOf(source) && !f.cachedParseTree
  {
    File(path, source, sourceType, sigilOf(source), sigilOf(source), false)
  }

  /** `ast::ParsedFile`. */
  datatype ParsedFile = ParsedFile(tree: Expr, file: nat)

  // ---------------------------------------------------------------------
  // decideStrictLevel

  /** The strictness level a file is checked at, and the "Useless override"
      diagnostic when the override names the level the sigil already
      says. `autogen` is `runningUnderAutogen`. */
  function DecideStrictLevel(file: nat, data: File, opts: Options, autogen: bool): (r: (StrictLevel, seq<Diagnostic>))
    ensures autogen ==> r.0 == False
    ensures !autogen && NormalizedPath(data.path) in opts.strictnessOverrides ==>
              r.0 == ClampLevel(opts.strictnessOverrides[NormalizedPath(data.path)], opts.forceMinStrict, opts.forceMaxStrict)
    ensures !autogen && NormalizedPath(data.path) !in opts.strictnessOverrides && data.originalSigil == NoSigil ==>
              r.0 == ClampLevel(False, opts.forceMinStrict, opts.forceMaxStrict)
    ensures !autogen && NormalizedPath(data.path) !in opts.strictnessOverrides && data.originalSigil != NoSigil ==>
              r.0 == ClampLevel(data.originalSigil, opts.forceMinStrict, opts.forceMaxStrict)
    ensures |r.1| <= 1
    ensures r.1 != [] <==> NormalizedPath(data.path) in opts.strictnessOverrides
                           && opts.strictnessOverrides[NormalizedPath(data.path)] == data.originalSigil
    ensures r.1 != [] ==> r.1[0] == Error(NoLoc(file), ParserError)
  {
    var key := NormalizedPath(data.path);
    var useless := key in opts.strictnessOverrides && opts.strictnessOverrides[key] == data.originalSigil;
    var level :=
      if key in opts.strictnessOverrides then opts.strictnessOverrides[key]
      else if data.originalSigil == NoSigil then False
      else data.originalSigil;
    var clamped := ClampLevel(level, opts.forceMinStrict, opts.forceMaxStrict);
    (if autogen then False else clamped,
     if useless then [Error(NoLoc(file), ParserError)] else [])
  }

  // ---------------------------------------------------------------------
  // Cache keys

  predicate IsHexDigit(c: char) {
    '0' <= c <= '9' || 'a' <= c <= 'f'
  }

  function HexValue(c: char): (v: nat)
    requires IsHexDigit(c)
    ensures v < 16
  {
    if c <= '9' then (c as int) - ('0' as int) else (c as int) - ('a' as int) + 10
  }

  function HexDigit(d: nat): (c: char)
    requires d < 16
    ensures IsHexDigit(c) && HexValue(c) == d
  {
    if d < 10 then (('0' as int) + d) as char else (('a' as int) + d - 10) as char
  }

  /** `absl::BytesToHexString`: two lower-case hex digits per byte, the
      high nibble first. */
  function BytesToHex(bs: seq<byte>): (r: string)
    ensures |r| == 2 * |bs|
    ensures forall i :: 0 <= i < |r| ==> IsHexDigit(r[i])
  {
    if bs == [] then [] else [HexDigit(bs[0] / 16), HexDigit(bs[0] % 16)] + BytesToHex(bs[1..])
  }

  /** The bytes a string of hex digit pairs spells. */
  function HexToBytes(s: string): seq<byte>
    requires |s| % 2 == 0
    requires forall i :: 0 <= i < |s| ==> IsHexDigit(s[i])
    decreases |s|
  {
    if s == [] then [] else [HexValue(s[0]) * 16 + HexValue(s[1])] + HexToBytes(s[2..])
  }

  lemma {:induction false} HexRoundTrip(bs: seq<byte>)
    ensures HexToBytes(BytesToHex(bs)) == bs
  {
    if bs != [] {
      var r := BytesToHex(bs);
      assert r[2..] == BytesToHex(bs[1..]);
      HexRoundTrip(bs[1..]);
    }
  }

  /** `fileKey`: the path, `//`, and the 16 hex digits of the source's
      hash. */
  function FileKey(path: string, source: string, hash64: string -> Hash64): (key: string)
    ensures |key| == |path| + 18
    ensures key[..|path|] == path && key[|path|..|path| + 2] == "//"
    ensures forall i :: |path| + 2 <= i < |key| ==> IsHexDigit(key[i])
  {
    path + "//" + BytesToHex(hash64(source))
  }

  /** The path a cache key was made from: the key without its fixed-width
      suffix. */
  function KeyPath(key: string): string
    requires |key| >= 18
  {
    key[..|key| - 18]
  }

  /** The content hash a cache key was made from. */
  function KeyHash(key: string): seq<byte>
    requires |key| >= 18
    requires forall i :: |key| - 16 <= i < |key| ==> IsHexDigit(key[i])
  {
    HexToBytes(key[|key| - 16..])
  }

  lemma FileKeyRoundTrip(path: string, source: string, hash64: string -> Hash64)
    ensures KeyPath(FileKey(path, source, hash64)) == path
    ensures KeyHash(FileKey(path, source, hash64)) == hash64(source)
  {
    var key := FileKey(path, source, hash64);
    assert key[|key| - 16..] == BytesToHex(hash64(source));
    HexRoundTrip(hash64(source));
  }

  /** Two files share a cache key exactly when they share the path and
      the content hash. */
  lemma FileKeyInjective(path1: string, source1: string, path2: string, source2: string, hash64: string -> Hash64)
    ensures FileKey(path1, source1, hash64) == FileKey(path2, source2, hash64)
            <==> path1 == path2 && hash64(source1) == hash64(source2)
  {
    if FileKey(path1, source1, hash64) == FileKey(path2, source2, hash64) {
      FileKeyRoundTrip(path1, source1, hash64);
      FileKeyRoundTrip(path2, source2, hash64);
    }
  }

  // ---------------------------------------------------------------------
  // The file table and the key-value store

  /** The part of `core::GlobalState` the driver uses: the file table,
      where id 0 is the file that does not exist, and the error queue. */
  class FileTable {
    var files: seq<File>
    var errors: seq<Diagnostic>
    const runningUnderAutogen: bool

    ghost predicate Valid()
      reads this
    {
      |files| >= 1
    }

    method Report(loc: Loc, c: ErrorClass)
      modifies this`errors
      ensures errors == old(errors) + [Error(loc, c)]
    {
      errors := errors + [Error(loc, c)];
    }

    method ReportAll(ds: seq<Diagnostic>)
      modifies this`errors
      ensures errors == old(errors) + ds
    {
      errors := errors + ds;
    }

    /** `findFileByPath`: the first existing file with that path, or 0. */
    function FindFileByPath(path: string): (r: nat)
      reads this
      requires Valid()
      ensures r < |files|
      ensures r != 0 ==> files[r].path == path
      ensures forall j :: 0 < j < |files| && (r == 0 || j < r) ==> files[j].path != path
    {
      FirstWithPath(files, path, 1)
    }

    /** `enterFile`: a new id at the end of the table. */
    method EnterFile(f: File) returns (r: nat)
      modifies this`files
      ensures r == |old(files)| && files == old(files) + [f]
    {
      r := |files|;
      files := files + [f];
    }

    /** `reserveFileRef`: a new id for a file whose source is yet to be
        read. */
    method ReserveFileRef(path: string, sigilOf: string -> StrictLevel) returns (r: nat)
      modifies this`files
      ensures r == |old(files)| && files == old(files) + [NewFile(path, "", NotYetRead, sigilOf)]
    {
      r := EnterFile(NewFile(path, "", NotYetRead, sigilOf));
    }

    /** `enterNewFileAt`: replaces the file at an existing id. */
    method EnterNewFileAt(f: File, id: nat)
      requires id < |files|
      modifies this`files
      ensures files == old(files)[id := f]
    {
      files := files[id := f];
    }

    method SetStrictLevel(id: nat, level: StrictLevel)
      requires id < |files|
      modifies this`files
      ensures files == old(files)[id := old(files[id]).(strictLevel := level)]
    {
      files := files[id := files[id].(strictLevel := level)];
    }

    method SetSourceType(id: nat, t: SourceType)
      requires id < |files|
      modifies this`files
      ensures files == old(files)[id := old(files[id]).(sourceType := t)]
    {
      files := files[id := files[id].(sourceType := t)];
    }

    method MarkCachedParseTree(id: nat)
      requires id < |files|
      modifies this`files
      ensures files == old(files)[id := old(files[id]).(cachedParseTree := true)]
    {
      files := files[id := files[id].(cachedParseTree := true)];
    }
  }

  function FirstWithPath(files: seq<File>, path: string, from: nat): (r: nat)
    requires 1 <= from
    ensures r < |files| || r == 0
    ensures r != 0 ==> from <= r < |files| && files[r].path == path
    ensures forall j :: from <= j < |files| && (r == 0 || j < r) ==> files[j].path != path
    decreases |files| - from
  {
    if from >= |files| then 0
    else if files[from].path == path then from
    else FirstWithPath(files, path, from + 1)
  }

  /** The cache. The serialised form of a tree is not modelled: the store
      holds the trees themselves, so reading back what was written gives
      the tree that was written. */
  class KeyValueStore {
    var entries: map<string, Expr>

    method Read(key: string) returns (r: Option<Expr>)
      ensures key in entries ==> r == Some(entries[key])
      ensures key !in entries ==> r == None
    {
      r := if key in entries then Some(entries[key]) else None;
    }

    method Write(key: string, value: Expr)
      modifies this
      ensures entries == old(entries)[key := value]
    {
      entries := entries[key := value];
    }
  }

  // ---------------------------------------------------------------------
  // The cache protocol

  /** The key of a file of the table. */
  function KeyOf(files: seq<File>, file: nat, hash64: string -> Hash64): string
    requires file < |files|
  {
    FileKey(files[file].path, files[file].source, hash64)
  }

  /** What `fetchTreeFromCache` finds: nothing without a store or for an
      id beyond the table, else the entry under the file's key. */
  function CacheEntry(files: seq<File>, file: nat, kv: KeyValueStore?, hash64: string -> Hash64): (r: Option<Expr>)
    reads kv
    ensures r.Some? <==> kv != null && file < |files| && KeyOf(files, file, hash64) in kv.entries
    ensures r.Some? ==> r.value == kv.entries[KeyOf(files, file, hash64)]
  {
    if kv != null && file < |files| && KeyOf(files, file, hash64) in kv.entries
    then Some(kv.entries[KeyOf(files, file, hash64)])
    else None
  }

  /** `fetchTreeFromCache`: reads the store only when there is one and the
      id is in the table; a hit marks the file as parsed from the cache. */
  method FetchTreeFromCache(gs: FileTable, file: nat, kv: KeyValueStore?, hash64: string -> Hash64) returns (tree: Option<Expr>)
    modifies gs`files
    ensures tree == old(CacheEntry(gs.files, file, kv, hash64))
    ensures tree.Some? ==> gs.files == old(gs.files)[file := old(gs.files[file]).(cachedParseTree := true)]
    ensures tree.None? ==> gs.files == old(gs.files)
  {
    tree := None;
    if kv != null && file < |gs.files| {
      var key := FileKey(gs.files[file].path, gs.files[file].source, hash64);
      tree := kv.Read(key);
      if tree.Some? {
        gs.MarkCachedParseTree(file);
      }
    }
  }

  /** What a store holds for a file: nothing without a store, else the
      entry under the file's key. */
  function StoreEntry(f: File, hasStore: bool, store: map<string, Expr>, hash64: string -> Hash64): (r: Option<Expr>)
    ensures r.Some? <==> hasStore && FileKey(f.path, f.source, hash64) in store
    ensures r.Some? ==> r.value == store[FileKey(f.path, f.source, hash64)]
  {
    if hasStore && FileKey(f.path, f.source, hash64) in store then Some(store[FileKey(f.path, f.source, hash64)]) else None
  }

  /** The entries of a store, none when there is no store. */
  function StoreOf(kv: KeyValueStore?): map<string, Expr>
    reads kv
  {
    if kv == null then map[] else kv.entries
  }

  /** A lookup depends only on the file's entry. */
  lemma CacheEntryIsStoreEntry(files: seq<File>, file: nat, kv: KeyValueStore?, hash64: string -> Hash64)
    requires file < |files|
    ensures CacheEntry(files, file, kv, hash64) == StoreEntry(files[file], kv != null, StoreOf(kv), hash64)
  {
  }

  /** The store after `cacheTrees` has written `trees`: every tree whose
      file was not itself read from the cache is written under its file's
      key, in order. */
  function CacheWrites(entries: map<string, Expr>, files: seq<File>, trees: seq<ParsedFile>, hash64: string -> Hash64): map<string, Expr>
    requires forall i :: 0 <= i < |trees| ==> trees[i].file < |files|
    decreases |trees|
  {
    if trees == [] then entries
    else
      var last := trees[|trees| - 1];
      var before := CacheWrites(entries, files, trees[..|trees| - 1], hash64);
      if files[last.file].cachedParseTree then before
      else before[KeyOf(files, last.file, hash64) := last.tree]
  }

  /** A tree that `cacheTrees` writes. */
  predicate Written(files: seq<File>, t: ParsedFile) {
    t.file < |files| && !files[t.file].cachedParseTree
  }

  /** `t` is written under `key`. */
  predicate WritesKey(files: seq<File>, t: ParsedFile, hash64: string -> Hash64, key: string) {
    Written(files, t) && KeyOf(files, t.file, hash64) == key
  }

  /** The keys after the writes are the keys before and the keys of the
      written trees. */
  lemma {:induction false} CacheWritesDomain(entries: map<string, Expr>, files: seq<File>, trees: seq<ParsedFile>, hash64: string -> Hash64, key: string)
    requires forall i :: 0 <= i < |trees| ==> trees[i].file < |files|
    ensures key in CacheWrites(entries, files, trees, hash64) <==>
              key in entries || exists i :: 0 <= i < |trees| && WritesKey(files, trees[i], hash64, key)
    decreases |trees|
  {
    if trees != [] {
      var init := trees[..|trees| - 1];
      assert forall i :: 0 <= i < |init| ==> init[i] == trees[i];
      CacheWritesDomain(entries, files, init, hash64, key);
      if !WritesKey(files, trees[|trees| - 1], hash64, key) {
        assert (exists i :: 0 <= i < |trees| && WritesKey(files, trees[i], hash64, key))
               ==> exists i :: 0 <= i < |init| && WritesKey(files, init[i], hash64, key);
      }
    }
  }

  /** A key that no written tree has keeps its entry. */
  lemma {:induction false} CacheWritesUntouched(entries: map<string, Expr>, files: seq<File>, trees: seq<ParsedFile>, hash64: string -> Hash64, key: string)
    requires forall i :: 0 <= i < |trees| ==> trees[i].file < |files|
    requires key in entries
    requires forall i :: 0 <= i < |trees| && Written(files, trees[i]) ==> KeyOf(files, trees[i].file, hash64) != key
    ensures key in CacheWrites(entries, files, trees, hash64)
    ensures CacheWrites(entries, files, trees, hash64)[key] == entries[key]
    decreases |trees|
  {
    if trees != [] {
      var init := trees[..|trees| - 1];
      assert forall i :: 0 <= i < |init| ==> init[i] == trees[i];
      CacheWritesUntouched(entries, files, init, hash64, key);
    }
  }

  /** A written tree that no later written tree overwrites is what the
      store holds under its key. */
  lemma {:induction false} CacheWritesLastWins(entries: map<string, Expr>, files: seq<File>, trees: seq<ParsedFile>, hash64: string -> Hash64, i: nat)
    requires forall j :: 0 <= j < |trees| ==> trees[j].file < |files|
    requires i < |trees| && Written(files, trees[i])
    requires forall j :: i < j < |trees| && Written(files, trees[j]) ==>
               KeyOf(files, trees[j].file, hash64) != KeyOf(files, trees[i].file, hash64)
    ensures KeyOf(files, trees[i].file, hash64) in CacheWrites(entries, files, trees, hash64)
    ensures CacheWrites(entries, files, trees, hash64)[KeyOf(files, trees[i].file, hash64)] == trees[i].tree
    decreases |trees|
  {
    var init := trees[..|trees| - 1];
    if i < |trees| - 1 {
      assert forall j :: 0 <= j < |init| ==> init[j] == trees[j];
      CacheWritesLastWins(entries, files, init, hash64, i);
    }
  }

  /** Writing two lists one after the other is writing their
      concatenation. */
  lemma {:induction false} CacheWritesAppend(entries: map<string, Expr>, files: seq<File>, a: seq<ParsedFile>, b: seq<ParsedFile>, hash64: string -> Hash64)
    requires forall i :: 0 <= i < |a| ==> a[i].file < |files|
    requires forall i :: 0 <= i < |b| ==> b[i].file < |files|
    ensures forall i :: 0 <= i < |a + b| ==> (a + b)[i].file < |files|
    ensures CacheWrites(CacheWrites(entries, files, a, hash64), files, b, hash64) == CacheWrites(entries, files, a + b, hash64)
    decreases |b|
  {
    assert forall i :: 0 <= i < |a + b| ==> (a + b)[i] == if i < |a| then a[i] else b[i - |a|];
    if b == [] {
      assert a + b == a;
    } else {
      var init := b[..|b| - 1];
      assert (a + b)[..|a + b| - 1] == a + init;
      assert (a + b)[|a + b| - 1] == b[|b| - 1];
      CacheWritesAppend(entries, files, a, init, hash64);
    }
  }

  /** The writes override the entries before them. */
  lemma {:induction false} CacheWritesOver(entries: map<string, Expr>, files: seq<File>, trees: seq<ParsedFile>, hash64: string -> Hash64)
    requires forall i :: 0 <= i < |trees| ==> trees[i].file < |files|
    ensures CacheWrites(entries, files, trees, hash64) == entries + CacheWrites(map[], files, trees, hash64)
    decreases |trees|
  {
    if trees == [] {
      assert entries + map[] == entries;
    } else {
      var init := trees[..|trees| - 1];
      var last := trees[|trees| - 1];
      assert forall i :: 0 <= i < |init| ==> init[i] == trees[i];
      CacheWritesOver(entries, files, init, hash64);
      if !files[last.file].cachedParseTree {
        var k := KeyOf(files, last.file, hash64);
        var w := CacheWrites(map[], files, init, hash64);
        assert (entries + w)[k := last.tree] == entries + w[k := last.tree];
      }
    }
  }

  /** Writing the same trees twice is writing them once. */
  lemma CacheWritesTwice(entries: map<string, Expr>, files: seq<File>, trees: seq<ParsedFile>, hash64: string -> Hash64)
    requires forall i :: 0 <= i < |trees| ==> trees[i].file < |files|
    ensures CacheWrites(CacheWrites(entries, files, trees, hash64), files, trees, hash64) == CacheWrites(entries, files, trees, hash64)
  {
    var w := CacheWrites(map[], files, trees, hash64);
    CacheWritesOver(entries, files, trees, hash64);
    CacheWritesOver(entries + w, files, trees, hash64);
    assert (entries + w) + w == entries + w;
  }

  /** The writes depend only on the entries of the trees' files. */
  lemma {:induction false} CacheWritesFrame(entries: map<string, Expr>, files1: seq<File>, files2: seq<File>, trees: seq<ParsedFile>, hash64: string -> Hash64)
    requires forall i :: 0 <= i < |trees| ==>
               trees[i].file < |files1| && trees[i].file < |files2| && files1[trees[i].file] == files2[trees[i].file]
    ensures CacheWrites(entries, files1, trees, hash64) == CacheWrites(entries, files2, trees, hash64)
    decreases |trees|
  {
    if trees != [] {
      var init := trees[..|trees| - 1];
      assert forall i :: 0 <= i < |init| ==> init[i] == trees[i];
      CacheWritesFrame(entries, files1, files2, init, hash64);
    }
  }

  /** `cacheTrees`: nothing without a store; otherwise writes every tree
      not itself read from the cache under its file's key. */
  method CacheTrees(gs: FileTable, kv: KeyValueStore?, trees: seq<ParsedFile>, hash64: string -> Hash64)
    requires forall i :: 0 <= i < |trees| ==> trees[i].file < |gs.files|
    modifies kv
    ensures kv != null ==> kv.entries == CacheWrites(old(kv.entries), gs.files, trees, hash64)
  {
    if kv == null {
      return;
    }
    var i := 0;
    while i < |trees|
      invariant 0 <= i <= |trees|
      invariant kv.entries == CacheWrites(old(kv.entries), gs.files, trees[..i], hash64)
    {
      assert trees[..i + 1][..i] == trees[..i];
      var t := trees[i];
      if !gs.files[t.file].cachedParseTree {
        kv.Write(FileKey(gs.files[t.file].path, gs.files[t.file].source, hash64), t.tree);
      }
      i := i + 1;
    }
    assert trees[..i] == trees;
  }

  // ---------------------------------------------------------------------
  // indexOne and indexOneWithPlugins

  /** How indexing a file that was not in the cache ends: with a tree (and
      the files a plugin generated), stopped early by the strictness level
      or by `--stop-after`, or with a pass raising. */
  datatype Outcome = Indexed(tree: Expr, pluginFiles: seq<File>) | Stopped | Threw

  /** The passes run on a file that was not in the cache. */
  function RunPasses(opts: Options, fe: Frontend, file: nat, data: File, withPlugins: bool): (r: Outcome)
    ensures data.strictLevel == Ignore ==> r == Stopped
    ensures r.Indexed? ==> opts.stopAfterPhase != Parser && opts.stopAfterPhase != Desugarer
                           && opts.stopAfterPhase != LocalVars
    ensures r.Indexed? && !withPlugins ==> r.pluginFiles == []
    ensures opts.stopAfterPhase == Parser && data.strictLevel != Ignore && fe.parse(file, data.source).Some? ==> r == Stopped
  {
    if data.strictLevel == Ignore then Stopped
    else match fe.parse(file, data.source)
      case None => Threw
      case Some(nodes) =>
        if opts.stopAfterPhase == Parser then Stopped
        else match fe.desugar(file, nodes)
          case None => Threw
          case Some(desugared) =>
            if opts.stopAfterPhase == Desugarer then Stopped
            else match (if withPlugins then fe.plugins(file, desugared) else Some((desugared, [])))
              case None => Threw
              case Some(withPluginFiles) =>
                match (if opts.skipDSLPasses then Some(withPluginFiles.0) else fe.dsl(file, withPluginFiles.0))
                case None => Threw
                case Some(expanded) =>
                  match fe.localVars(file, expanded)
                  case None => Threw
                  case Some(resolved) =>
                    if opts.stopAfterPhase == LocalVars then Stopped
                    else Indexed(resolved, withPluginFiles.1)
  }

  /** The outcome of indexing: a cached tree, or the passes. */
  function IndexOutcome(opts: Options, fe: Frontend, file: nat, data: File, cached: Option<Expr>, withPlugins: bool): Outcome {
    if cached.Some? then Indexed(cached.value, []) else RunPasses(opts, fe, file, data, withPlugins)
  }

  /** The tree indexing returns: empty unless the file was indexed and
      `--stop-after` does not name the DSL phase. */
  function IndexedTree(opts: Options, fe: Frontend, file: nat, data: File, cached: Option<Expr>, withPlugins: bool): (t: Expr)
    ensures cached.None? && data.strictLevel == Ignore ==> t == EmptyTree
    ensures cached.None? && opts.stopAfterPhase in {Parser, Desugarer, LocalVars} ==> t == EmptyTree
    ensures opts.stopAfterPhase == DSL ==> t == EmptyTree
    ensures IndexOutcome(opts, fe, file, data, cached, withPlugins).Threw? ==> t == EmptyTree
    ensures cached.Some? && opts.stopAfterPhase != DSL ==> t == cached.value
  {
    var o := IndexOutcome(opts, fe, file, data, cached, withPlugins);
    if o.Indexed? && opts.stopAfterPhase != DSL then o.tree else EmptyTree
  }

  /** The plugin-generated files indexing returns: none unless the tree
      is returned too. */
  function IndexedPluginFiles(opts: Options, fe: Frontend, file: nat, data: File, cached: Option<Expr>): (fs: seq<File>)
    ensures cached.Some? ==> fs == []
    ensures fs != [] ==> opts.stopAfterPhase != DSL && RunPasses(opts, fe, file, data, true).Indexed?
                         && fs == RunPasses(opts, fe, file, data, true).pluginFiles
  {
    var o := IndexOutcome(opts, fe, file, data, cached, true);
    if o.Indexed? && opts.stopAfterPhase != DSL then o.pluginFiles else []
  }

  /** The errors indexing adds: one internal error when a pass raises. */
  function IndexErrors(opts: Options, fe: Frontend, file: nat, data: File, cached: Option<Expr>, withPlugins: bool): (ds: seq<Diagnostic>)
    ensures cached.Some? ==> ds == []
    ensures ds != [] <==> IndexOutcome(opts, fe, file, data, cached, withPlugins).Threw?
    ensures ds != [] ==> ds == [Error(NoLoc(file), InternalError)]
  {
    if IndexOutcome(opts, fe, file, data, cached, withPlugins).Threw? then [Error(NoLoc(file), InternalError)] else []
  }

  /** A file's entry after indexing: marked when its tree came from the
      cache. */
  function MarkedIfCached(d: File, cached: Option<Expr>): File {
    if cached.Some? then d.(cachedParseTree := true) else d
  }

  /** Shared by `indexOne` and `indexOneWithPlugins`. */
  method IndexFile(opts: Options, gs: FileTable, file: nat, kv: KeyValueStore?, fe: Frontend, withPlugins: bool)
    returns (pf: ParsedFile, pluginFiles: seq<File>)
    requires 0 < file < |gs.files|
    modifies gs`files, gs`errors
    ensures pf.file == file
    ensures pf.tree == IndexedTree(opts, fe, file, old(gs.files[file]), old(CacheEntry(gs.files, file, kv, fe.hash64)), withPlugins)
    ensures withPlugins ==> pluginFiles == IndexedPluginFiles(opts, fe, file, old(gs.files[file]), old(CacheEntry(gs.files, file, kv, fe.hash64)))
    ensures gs.errors == old(gs.errors) + IndexErrors(opts, fe, file, old(gs.files[file]), old(CacheEntry(gs.files, file, kv, fe.hash64)), withPlugins)
    ensures old(CacheEntry(gs.files, file, kv, fe.hash64)).Some? ==>
              gs.files == old(gs.files)[file := old(gs.files[file]).(cachedParseTree := true)]
    ensures old(CacheEntry(gs.files, file, kv, fe.hash64)).None? ==> gs.files == old(gs.files)
  {
    var data := gs.files[file];
    var cached := FetchTreeFromCache(gs, file, kv, fe.hash64);
    var outcome := if cached.Some? then Indexed(cached.value, []) else RunPasses(opts, fe, file, data, withPlugins);
    pf, pluginFiles := ParsedFile(EmptyTree, file), [];
    if outcome.Threw? {
      gs.Report(NoLoc(file), InternalError);
    } else if outcome.Indexed? && opts.stopAfterPhase != DSL {
      pf, pluginFiles := ParsedFile(outcome.tree, file), outcome.pluginFiles;
    }
  }

  /** `indexOne`: always a parsed file for the requested file. */
  method IndexOne(opts: Options, gs: FileTable, file: nat, kv: KeyValueStore?, fe: Frontend) returns (pf: ParsedFile)
    requires 0 < file < |gs.files|
    modifies gs`files, gs`errors
    ensures pf.file == file
    ensures pf.tree == IndexedTree(opts, fe, file, old(gs.files[file]), old(CacheEntry(gs.files, file, kv, fe.hash64)), false)
    ensures gs.errors == old(gs.errors) + IndexErrors(opts, fe, file, old(gs.files[file]), old(CacheEntry(gs.files, file, kv, fe.hash64)), false)
    ensures old(CacheEntry(gs.files, file, kv, fe.hash64)).Some? ==>
              gs.files == old(gs.files)[file := old(gs.files[file]).(cachedParseTree := true)]
    ensures old(CacheEntry(gs.files, file, kv, fe.hash64)).None? ==> gs.files == old(gs.files)
  {
    var pluginFiles;
    pf, pluginFiles := IndexFile(opts, gs, file, kv, fe, false);
  }

  /** `indexOneWithPlugins`: as `indexOne`, with the text plugins run
      after desugaring; the files they generate come back beside the
      tree. */
  method IndexOneWithPlugins(opts: Options, gs: FileTable, file: nat, kv: KeyValueStore?, fe: Frontend)
    returns (pf: ParsedFile, pluginFiles: seq<File>)
    requires 0 < file < |gs.files|
    modifies gs`files, gs`errors
    ensures pf.file == file
    ensures pf.tree == IndexedTree(opts, fe, file, old(gs.files[file]), old(CacheEntry(gs.files, file, kv, fe.hash64)), true)
    ensures pluginFiles == IndexedPluginFiles(opts, fe, file, old(gs.files[file]), old(CacheEntry(gs.files, file, kv, fe.hash64)))
    ensures gs.errors == old(gs.errors) + IndexErrors(opts, fe, file, old(gs.files[file]), old(CacheEntry(gs.files, file, kv, fe.hash64)), true)
    ensures old(CacheEntry(gs.files, file, kv, fe.hash64)).Some? ==>
              gs.files == old(gs.files)[file := old(gs.files[file]).(cachedParseTree := true)]
    ensures old(CacheEntry(gs.files, file, kv, fe.hash64)).None? ==> gs.files == old(gs.files)
  {
    pf, pluginFiles := IndexFile(opts, gs, file, kv, fe, true);
  }

  // ---------------------------------------------------------------------
  // reserveFiles and readFileWithStrictnessOverrides

  /** The table `reserveFiles` leaves: every path that no file of `files`
      has is reserved once, not yet read, in the order of its first
      occurrence in `paths`. */
  function Reserved(files: seq<File>, paths: seq<string>, sigilOf: string -> StrictLevel): (r: seq<File>)
    requires |files| >= 1
    ensures |files| <= |r| && r[..|files|] == files
    decreases |paths|
  {
    if paths == [] then files
    else ReserveOne(Reserved(files, paths[..|paths| - 1], sigilOf), paths[|paths| - 1], sigilOf)
  }

  /** The table after one more path: unchanged when it has a file of that
      path, else with a new unread file of that path at its end. */
  function ReserveOne(files: seq<File>, p: string, sigilOf: string -> StrictLevel): (r: seq<File>)
    requires |files| >= 1
    ensures |files| <= |r| && r[..|files|] == files
  {
    if FirstWithPath(files, p, 1) != 0 then files
    else files + [NewFile(p, "", NotYetRead, sigilOf)]
  }

  /** `reserveFiles`: an id per path, the existing file's when the table
      has one, else a new id for a file not yet read; a path repeated
      later in `paths` finds the file reserved for its first occurrence. */
  method ReserveFiles(gs: FileTable, paths: seq<string>, sigilOf: string -> StrictLevel) returns (ret: seq<nat>)
    requires gs.Valid()
    modifies gs`files
    ensures gs.Valid()
    ensures gs.files == Reserved(old(gs.files), paths, sigilOf)
    ensures |ret| == |paths|
    ensures forall i :: 0 <= i < |ret| ==> ret[i] == FirstWithPath(gs.files, paths[i], 1) && 0 < ret[i] < |gs.files|
    ensures forall i :: 0 <= i < |ret| && old(gs.FindFileByPath(paths[i])) != 0 ==> ret[i] == old(gs.FindFileByPath(paths[i]))
  {
    ret := [];
    var i := 0;
    while i < |paths|
      invariant 0 <= i <= |paths| && gs.Valid()
      invariant gs.files == Reserved(old(gs.files), paths[..i], sigilOf)
      invariant ReservedSoFar(gs.files, paths, i, ret)
    {
      ghost var before := gs.files;
      ReservedSnoc(old(gs.files), paths, i, sigilOf);
      var fileRef := gs.FindFileByPath(paths[i]);
      if fileRef == 0 {
        fileRef := gs.ReserveFileRef(paths[i], sigilOf);
      }
      ReservedStep(before, gs.files, paths, i, ret, fileRef, sigilOf);
      ret := ret + [fileRef];
      i := i + 1;
    }
    assert paths[..|paths|] == paths;
    forall k | 0 <= k < |ret| && old(gs.FindFileByPath(paths[k])) != 0
      ensures ret[k] == old(gs.FindFileByPath(paths[k]))
    {
      PrefixFindsFirst(old(gs.files), gs.files, paths[k]);
    }
  }

  /** The ids of the loop of `reserveFiles` after `i` paths: each is the
      first file of its path. */
  ghost predicate ReservedSoFar(files: seq<File>, paths: seq<string>, i: nat, ret: seq<nat>)
  {
    && |files| >= 1 && i <= |paths| && |ret| == i
    && forall k :: 0 <= k < i ==> ret[k] == FirstWithPath(files, paths[k], 1) && 0 < ret[k] < |files|
  }

  /** One turn of the loop of `reserveFiles`. */
  lemma ReservedStep(before: seq<File>, after: seq<File>, paths: seq<string>, i: nat, ret: seq<nat>,
                     fileRef: nat, sigilOf: string -> StrictLevel)
    requires ReservedSoFar(before, paths, i, ret) && i < |paths|
    requires FirstWithPath(before, paths[i], 1) != 0 ==> after == before && fileRef == FirstWithPath(before, paths[i], 1)
    requires FirstWithPath(before, paths[i], 1) == 0 ==>
               after == before + [NewFile(paths[i], "", NotYetRead, sigilOf)] && fileRef == |before|
    ensures ReservedSoFar(after, paths, i + 1, ret + [fileRef])
  {
    if FirstWithPath(before, paths[i], 1) == 0 {
      ReservedAppendStep(before, after, paths, i, ret);
    } else {
      assert (ret + [fileRef])[..i] == ret;
    }
  }

  /** The turn of the loop of `reserveFiles` that reserves a new file. */
  lemma ReservedAppendStep(before: seq<File>, after: seq<File>, paths: seq<string>, i: nat, ret: seq<nat>)
    requires ReservedSoFar(before, paths, i, ret) && i < |paths|
    requires |after| == |before| + 1 && after[..|before|] == before && after[|before|].path == paths[i]
    requires FirstWithPath(before, paths[i], 1) == 0
    ensures ReservedSoFar(after, paths, i + 1, ret + [|before|])
  {
    AppendFindsNew(before, after, paths[i]);
    forall k | 0 <= k < i ensures ret[k] == FirstWithPath(after, paths[k], 1) {
      PrefixFindsFirst(before, after, paths[k]);
    }
  }

  lemma ReservedSnoc(files0: seq<File>, paths: seq<string>, i: nat, sigilOf: string -> StrictLevel)
    requires |files0| >= 1 && i < |paths|
    ensures Reserved(files0, paths[..i + 1], sigilOf) == ReserveOne(Reserved(files0, paths[..i], sigilOf), paths[i], sigilOf)
  {
    var q := paths[..i + 1];
    assert q[..|q| - 1] == paths[..i];
  }

  /** Every file `Reserved` adds is new, not yet read and of a path in
      `paths` that `files` does not have, no two of them share a path, and
      afterwards every path of `paths` has a file. */
  lemma ReservedEntries(files: seq<File>, paths: seq<string>, sigilOf: string -> StrictLevel)
    requires |files| >= 1
    ensures var r := Reserved(files, paths, sigilOf);
            && (forall j :: |files| <= j < |r| ==>
                  && r[j] == NewFile(r[j].path, "", NotYetRead, sigilOf)
                  && r[j].path in paths && FirstWithPath(files, r[j].path, 1) == 0)
            && (forall j, j' :: |files| <= j < j' < |r| ==> r[j].path != r[j'].path)
            && (forall p :: p in paths ==> FirstWithPath(r, p, 1) != 0)
  {
    ReservedEntriesHold(files, paths, sigilOf);
  }

  /** The clauses of `ReservedEntries` about a table `r` grown from `files`. */
  ghost predicate NewEntries(files: seq<File>, r: seq<File>, paths: seq<string>, sigilOf: string -> StrictLevel)
    requires 1 <= |files| <= |r|
  {
    NewUnread(files, r, paths, sigilOf) && NewDistinct(files, r) && AllFound(r, paths)
  }

  ghost predicate NewUnread(files: seq<File>, r: seq<File>, paths: seq<string>, sigilOf: string -> StrictLevel)
    requires 1 <= |files| <= |r|
  {
    forall j :: |files| <= j < |r| ==>
      && r[j] == NewFile(r[j].path, "", NotYetRead, sigilOf)
      && r[j].path in paths && FirstWithPath(files, r[j].path, 1) == 0
  }

  ghost predicate NewDistinct(files: seq<File>, r: seq<File>)
    requires 1 <= |files| <= |r|
  {
    forall j, j' :: |files| <= j < j' < |r| ==> r[j].path != r[j'].path
  }

  ghost predicate AllFound(r: seq<File>, paths: seq<string>)
    requires 1 <= |r|
  {
    forall p :: p in paths ==> FirstWithPath(r, p, 1) != 0
  }

  lemma {:induction false} ReservedEntriesHold(files: seq<File>, paths: seq<string>, sigilOf: string -> StrictLevel)
    requires |files| >= 1
    ensures NewEntries(files, Reserved(files, paths, sigilOf), paths, sigilOf)
    decreases |paths|
  {
    if paths != [] {
      var init := paths[..|paths| - 1];
      var p := paths[|paths| - 1];
      assert paths == init + [p];
      ReservedEntriesHold(files, init, sigilOf);
      var before := Reserved(files, init, sigilOf);
      if FirstWithPath(before, p, 1) == 0 {
        ReservedAppendEntries(files, before, init, p, sigilOf);
      } else {
        ReservedKeepEntries(files, before, init, p, sigilOf);
      }
    }
  }

  /** `NewEntries` for a path the table already has. */
  lemma ReservedKeepEntries(files: seq<File>, r: seq<File>, init: seq<string>, p: string, sigilOf: string -> StrictLevel)
    requires 1 <= |files| <= |r| && NewEntries(files, r, init, sigilOf)
    requires FirstWithPath(r, p, 1) != 0
    ensures NewEntries(files, r, init + [p], sigilOf)
  {
  }

  /** `NewEntries` for a path the table does not have yet. */
  lemma ReservedAppendEntries(files: seq<File>, before: seq<File>, init: seq<string>, p: string, sigilOf: string -> StrictLevel)
    requires 1 <= |files| <= |before| && before[..|files|] == files
    requires NewEntries(files, before, init, sigilOf)
    requires FirstWithPath(before, p, 1) == 0
    ensures NewEntries(files, before + [NewFile(p, "", NotYetRead, sigilOf)], init + [p], sigilOf)
  {
    var r := before + [NewFile(p, "", NotYetRead, sigilOf)];
    AppendUnread(files, before, init, p, sigilOf);
    AppendDistinct(files, before, r, p);
    AppendFindsNew(before, r, p);
    forall q | q in init ensures FirstWithPath(r, q, 1) != 0 {
      PrefixFindsFirst(before, r, q);
    }
  }

  lemma AppendUnread(files: seq<File>, before: seq<File>, init: seq<string>, p: string, sigilOf: string -> StrictLevel)
    requires 1 <= |files| <= |before| && before[..|files|] == files
    requires NewUnread(files, before, init, sigilOf)
    requires FirstWithPath(before, p, 1) == 0
    ensures NewUnread(files, before + [NewFile(p, "", NotYetRead, sigilOf)], init + [p], sigilOf)
  {
    var r := before + [NewFile(p, "", NotYetRead, sigilOf)];
    PrefixMissesMissing(files, before, p);
    forall j | |files| <= j < |r|
      ensures r[j] == NewFile(r[j].path, "", NotYetRead, sigilOf)
      ensures r[j].path in init + [p] && FirstWithPath(files, r[j].path, 1) == 0
    {
      if j < |before| {
        assert r[j] == before[j];
      }
    }
  }

  lemma AppendDistinct(files: seq<File>, before: seq<File>, r: seq<File>, p: string)
    requires 1 <= |files| <= |before| && NewDistinct(files, before)
    requires |r| == |before| + 1 && r[..|before|] == before && r[|before|].path == p
    requires FirstWithPath(before, p, 1) == 0
    ensures NewDistinct(files, r)
  {
    forall j, j' | |files| <= j < j' < |r| ensures r[j].path != r[j'].path {
      assert r[j] == before[j];
      if j' < |before| {
        assert r[j'] == before[j'];
      }
    }
  }

  /** A path no file of a table has is not in any prefix of it either. */
  lemma PrefixMissesMissing(files: seq<File>, before: seq<File>, p: string)
    requires 1 <= |files| <= |before| && before[..|files|] == files
    requires FirstWithPath(before, p, 1) == 0
    ensures FirstWithPath(files, p, 1) == 0
  {
    assert forall j :: 0 <= j < |files| ==> files[j] == before[j];
  }

  /** A file appended with a path the table did not have is the one a
      search for that path finds. */
  lemma AppendFindsNew(before: seq<File>, after: seq<File>, path: string)
    requires 1 <= |before| && |after| == |before| + 1 && after[..|before|] == before
    requires FirstWithPath(before, path, 1) == 0 && after[|before|].path == path
    ensures FirstWithPath(after, path, 1) == |before|
  {
    assert forall j :: 0 < j < |before| ==> after[j] == before[j];
  }

  /** Appending files does not change which existing file a search finds
      first. */
  lemma PrefixFindsFirst(before: seq<File>, after: seq<File>, path: string)
    requires 1 <= |before| <= |after| && after[..|before|] == before
    ensures FirstWithPath(before, path, 1) != 0 ==> FirstWithPath(after, path, 1) == FirstWithPath(before, path, 1)
  {
    var r := FirstWithPath(before, path, 1);
    if r != 0 {
      assert after[r] == before[r];
      assert forall j :: 0 < j < r ==> after[j] == before[j];
    }
  }

  /** The file `readFileWithStrictnessOverrides` enters: the source read,
      or empty when there is no such file. */
  function ReadSource(fe: Frontend, path: string): string {
    match fe.readFile(path)
    case Some(src) => src
    case None => ""
  }

  /** The entry `readFileWithStrictnessOverrides` leaves at `file` when it
      finds `f` there. */
  function ReadData(f: File, file: nat, opts: Options, fe: Frontend, autogen: bool): (d: File)
    ensures f.sourceType != NotYetRead ==> d == f
    ensures d.path == f.path
    ensures f.sourceType == NotYetRead ==>
              d.source == ReadSource(fe, f.path) && d.sourceType != NotYetRead && !d.cachedParseTree
  {
    if f.sourceType != NotYetRead then f
    else
      var entered := NewFile(f.path, ReadSource(fe, f.path), Normal, fe.sigilOf);
      entered.(sourceType := if opts.storeState != "" then PayloadGeneration else Normal,
               strictLevel := DecideStrictLevel(file, entered, opts, autogen).0)
  }

  /** The errors it reports then: a missing file, and a useless override. */
  function ReadErrors(f: File, file: nat, opts: Options, fe: Frontend, autogen: bool): (ds: seq<Diagnostic>)
    ensures f.sourceType != NotYetRead ==> ds == []
  {
    if f.sourceType != NotYetRead then []
    else
      var entered := NewFile(f.path, ReadSource(fe, f.path), Normal, fe.sigilOf);
      (if fe.readFile(f.path).None? then [Error(NoLoc(file), FileNotFound)] else []) + DecideStrictLevel(file, entered, opts, autogen).1
  }

  /** `ReadData`, `ReadErrors` and `ReadRaises` of a file not yet read,
      spelled out. */
  lemma ReadIs(f: File, file: nat, opts: Options, fe: Frontend, autogen: bool)
    requires f.sourceType == NotYetRead
    ensures var entered := NewFile(f.path, ReadSource(fe, f.path), Normal, fe.sigilOf);
            var decided := DecideStrictLevel(file, entered, opts, autogen);
            && ReadData(f, file, opts, fe, autogen)
                 == entered.(sourceType := if opts.storeState != "" then PayloadGeneration else Normal, strictLevel := decided.0)
            && ReadErrors(f, file, opts, fe, autogen)
                 == (if fe.readFile(f.path).None? then [Error(NoLoc(file), FileNotFound)] else []) + decided.1
            && ReadRaises(f, file, opts, fe, autogen) == Uncounted(decided.0)
  {
  }

  /** The levels `incrementStrictLevelCounter` has no counter for and
      raises on. */
  predicate Uncounted(l: StrictLevel) {
    l == NoSigil || l == Internal || l == Max
  }

  /** Whether `readFileWithStrictnessOverrides` raises when it finds `f`
      at `file`: it reads a file not yet read and decides a level the
      counter step raises on. */
  function ReadRaises(f: File, file: nat, opts: Options, fe: Frontend, autogen: bool): bool {
    f.sourceType == NotYetRead && Uncounted(ReadData(f, file, opts, fe, autogen).strictLevel)
  }

  /** A file already read never raises, nor does any file under autogen;
      with `--typed` bounds from `false` to `strong`, a file raises exactly
      when it is not yet read and its override is `None`. */
  lemma ReadRaisesWhen(f: File, file: nat, opts: Options, fe: Frontend, autogen: bool)
    ensures f.sourceType != NotYetRead ==> !ReadRaises(f, file, opts, fe, autogen)
    ensures autogen ==> !ReadRaises(f, file, opts, fe, autogen)
    ensures Rank(False) <= Rank(opts.forceMinStrict) <= Rank(opts.forceMaxStrict) <= Rank(Strong) && !autogen ==>
              (ReadRaises(f, file, opts, fe, autogen) <==>
                 var key := NormalizedPath(f.path);
                 f.sourceType == NotYetRead && key in opts.strictnessOverrides && opts.strictnessOverrides[key] == NoSigil)
  {
    if f.sourceType == NotYetRead && !autogen {
      var entered := NewFile(f.path, ReadSource(fe, f.path), Normal, fe.sigilOf);
      var level := DecideStrictLevel(file, entered, opts, autogen).0;
      assert ReadData(f, file, opts, fe, autogen).strictLevel == level;
    }
  }

  /** A `--typed` lower bound of `max` makes every file read with a sigil
      above `ignore` and no override raise. */
  lemma ReadRaisesForcedMax(f: File, file: nat, opts: Options, fe: Frontend)
    requires f.sourceType == NotYetRead && opts.forceMinStrict == Max
    requires NormalizedPath(f.path) !in opts.strictnessOverrides
    requires Clampable(fe.sigilOf(ReadSource(fe, f.path)))
    ensures ReadRaises(f, file, opts, fe, false)
  {
    var entered := NewFile(f.path, ReadSource(fe, f.path), Normal, fe.sigilOf);
    assert DecideStrictLevel(file, entered, opts, false).0 == Max;
  }

  /** The first steps of `readFileWithStrictnessOverrides`: the file's
      source is read and entered at its id, a missing file is reported,
      and the source type is set. */
  method EnterReadFile(gs: FileTable, file: nat, opts: Options, fe: Frontend)
    requires 0 < file < |gs.files|
    modifies gs`files, gs`errors
    ensures var path := old(gs.files[file].path);
            && gs.files == old(gs.files)[file := NewFile(path, ReadSource(fe, path), Normal, fe.sigilOf)
                                                   .(sourceType := if opts.storeState != "" then PayloadGeneration else Normal)]
            && gs.errors == old(gs.errors) + (if fe.readFile(path).None? then [Error(NoLoc(file), FileNotFound)] else [])
  {
    var path := gs.files[file].path;
    var src := ReadSource(fe, path);
    gs.EnterNewFileAt(NewFile(path, src, Normal, fe.sigilOf), file);
    if fe.readFile(path).None? {
      gs.Report(NoLoc(file), FileNotFound);
    }
    if opts.storeState != "" {
      gs.SetSourceType(file, PayloadGeneration);
    }
  }

  /** `readFileWithStrictnessOverrides`: a file not yet read gets its
      source, its source type and its strictness level; files already read
      are left alone. After setting the level it counts it, which raises
      (`raised`) for a level without a counter. */
  method ReadFileWithStrictnessOverrides(gs: FileTable, file: nat, opts: Options, fe: Frontend) returns (raised: bool)
    requires 0 < file < |gs.files|
    modifies gs`files, gs`errors
    ensures |gs.files| == |old(gs.files)|
    ensures forall j :: 0 <= j < |gs.files| && j != file ==> gs.files[j] == old(gs.files[j])
    ensures old(gs.files[file].sourceType) != NotYetRead ==> gs.files == old(gs.files) && gs.errors == old(gs.errors)
    ensures old(gs.files[file].sourceType) == NotYetRead ==>
              var path := old(gs.files[file].path);
              var entered := NewFile(path, ReadSource(fe, path), Normal, fe.sigilOf);
              var decided := DecideStrictLevel(file, entered, opts, gs.runningUnderAutogen);
              && gs.files[file] == entered.(sourceType := if opts.storeState != "" then PayloadGeneration else Normal,
                                            strictLevel := decided.0)
              && gs.errors == old(gs.errors) + (if fe.readFile(path).None? then [Error(NoLoc(file), FileNotFound)] else [])
                                             + decided.1
    ensures gs.files == old(gs.files)[file := ReadData(old(gs.files[file]), file, opts, fe, gs.runningUnderAutogen)]
    ensures gs.errors == old(gs.errors) + ReadErrors(old(gs.files[file]), file, opts, fe, gs.runningUnderAutogen)
    ensures raised <==> old(gs.files[file].sourceType) == NotYetRead && Uncounted(gs.files[file].strictLevel)
  {
    if gs.files[file].sourceType != NotYetRead {
      return false;
    }
    ghost var f0 := gs.files[file];
    EnterReadFile(gs, file, opts, fe);
    var decided := DecideStrictLevel(file, gs.files[file], opts, gs.runningUnderAutogen);
    gs.ReportAll(decided.1);
    gs.SetStrictLevel(file, decided.0);
    ReadIs(f0, file, opts, fe, gs.runningUnderAutogen);
    // `incrementStrictLevelCounter`: `Exception::raise` for these levels.
    raised := Uncounted(decided.0);
  }

  // ---------------------------------------------------------------------
  // mergeIndexResults

  /** What one indexing thread hands back: its state, its trees and the
      files its plugins generated. */
  datatype Batch = Batch(gs: FileTable, trees: seq<ParsedFile>, pluginFiles: seq<File>)

  /** `IndexResult`; `gs` is `None` when there was nothing to merge. */
  datatype IndexResult = IndexResult(gs: Option<FileTable>, trees: seq<ParsedFile>, pluginFiles: seq<File>)

  /** A later batch's trees moved into the first batch's state:
      `substitute(b, t)` stands for `ast::Substitute::run` with the
      substitution from batch `b`'s state. Trees read from the cache are
      kept as they are. */
  function SubstituteBatch(files: seq<File>, trees: seq<ParsedFile>, substitute: (nat, Expr) -> Expr, b: nat): (r: seq<ParsedFile>)
    requires forall i :: 0 <= i < |trees| ==> trees[i].file < |files|
    ensures |r| == |trees|
    ensures forall i :: 0 <= i < |r| ==> r[i].file == trees[i].file
    ensures forall i :: 0 <= i < |r| && files[trees[i].file].cachedParseTree ==> r[i] == trees[i]
    ensures forall i :: 0 <= i < |r| && !files[trees[i].file].cachedParseTree ==> r[i].tree == substitute(b, trees[i].tree)
  {
    if trees == [] then []
    else
      var t := trees[|trees| - 1];
      SubstituteBatch(files, trees[..|trees| - 1], substitute, b)
      + [if files[t.file].cachedParseTree then t else t.(tree := substitute(b, t.tree))]
  }

  /** All trees of the batches name files of the state `files`. */
  ghost predicate BatchesIn(files: seq<File>, batches: seq<Batch>) {
    forall b, i :: 0 <= b < |batches| && 0 <= i < |batches[b].trees| ==> batches[b].trees[i].file < |files|
  }

  /** The trees of the first `n` batches once merged: the first batch's
      as they are, each later batch's substituted, appended in order. */
  function MergedTrees(files: seq<File>, batches: seq<Batch>, substitute: (nat, Expr) -> Expr, n: nat): seq<ParsedFile>
    requires n <= |batches| && BatchesIn(files, batches)
  {
    if n == 0 then []
    else if n == 1 then batches[0].trees
    else MergedTrees(files, batches, substitute, n - 1) + SubstituteBatch(files, batches[n - 1].trees, substitute, n - 1)
  }

  function MergedPluginFiles(batches: seq<Batch>, n: nat): seq<File>
    requires n <= |batches|
  {
    if n == 0 then []
    else if n == 1 then batches[0].pluginFiles
    else MergedPluginFiles(batches, n - 1) + batches[n - 1].pluginFiles
  }

  /** The number of trees in the first `n` batches. */
  function TreeCount(batches: seq<Batch>, n: nat): nat
    requires n <= |batches|
  {
    if n == 0 then 0 else TreeCount(batches, n - 1) + |batches[n - 1].trees|
  }

  lemma {:induction false} MergedTreesCount(files: seq<File>, batches: seq<Batch>, substitute: (nat, Expr) -> Expr, n: nat)
    requires n <= |batches| && BatchesIn(files, batches)
    ensures |MergedTrees(files, batches, substitute, n)| == TreeCount(batches, n)
  {
    if n > 1 {
      MergedTreesCount(files, batches, substitute, n - 1);
      assert TreeCount(batches, 1) == |batches[0].trees|;
    }
  }

  /** The first batch's trees lead the merge unchanged. */
  lemma {:induction false} MergedTreesFirst(files: seq<File>, batches: seq<Batch>, substitute: (nat, Expr) -> Expr, n: nat)
    requires 1 <= n <= |batches| && BatchesIn(files, batches)
    ensures |batches[0].trees| <= |MergedTrees(files, batches, substitute, n)|
    ensures MergedTrees(files, batches, substitute, n)[..|batches[0].trees|] == batches[0].trees
  {
    if n > 1 {
      MergedTreesFirst(files, batches, substitute, n - 1);
      var before := MergedTrees(files, batches, substitute, n - 1);
      var added := SubstituteBatch(files, batches[n - 1].trees, substitute, n - 1);
      assert (before + added)[..|batches[0].trees|] == before[..|batches[0].trees|];
    }
  }

  /** Every merged tree names a file of the first batch's state. */
  lemma {:induction false} MergedTreesIn(files: seq<File>, batches: seq<Batch>, substitute: (nat, Expr) -> Expr, n: nat)
    requires n <= |batches| && BatchesIn(files, batches)
    ensures forall i :: 0 <= i < |MergedTrees(files, batches, substitute, n)| ==>
              MergedTrees(files, batches, substitute, n)[i].file < |files|
  {
    if n > 1 {
      MergedTreesIn(files, batches, substitute, n - 1);
    }
  }

  /** The substitution loop of `mergeIndexResults` over one batch. */
  method SubstituteTrees(gs: FileTable, trees: seq<ParsedFile>, substitute: (nat, Expr) -> Expr, b: nat) returns (r: seq<ParsedFile>)
    requires forall i :: 0 <= i < |trees| ==> trees[i].file < |gs.files|
    ensures r == SubstituteBatch(gs.files, trees, substitute, b)
  {
    r := [];
    var i := 0;
    while i < |trees|
      invariant 0 <= i <= |trees|
      invariant r == SubstituteBatch(gs.files, trees[..i], substitute, b)
    {
      assert trees[..i + 1][..i] == trees[..i];
      var t := trees[i];
      if !gs.files[t.file].cachedParseTree {
        t := t.(tree := substitute(b, t.tree));
      }
      r := r + [t];
      i := i + 1;
    }
    assert trees[..i] == trees;
  }

  /** One later batch merged into the trees of the batches before it: its
      trees are substituted, cached and appended. */
  method MergeLaterBatch(canonical: FileTable, kv: KeyValueStore?, merged: seq<ParsedFile>, batches: seq<Batch>, b: nat,
                         substitute: (nat, Expr) -> Expr, hash64: string -> Hash64, ghost entries0: map<string, Expr>)
    returns (r: seq<ParsedFile>)
    requires 1 <= b < |batches| && BatchesIn(canonical.files, batches)
    requires merged == MergedTrees(canonical.files, batches, substitute, b)
    requires forall i :: 0 <= i < |merged| ==> merged[i].file < |canonical.files|
    requires kv != null ==> kv.entries == CacheWrites(entries0, canonical.files, merged, hash64)
    modifies kv
    ensures r == MergedTrees(canonical.files, batches, substitute, b + 1)
    ensures forall i :: 0 <= i < |r| ==> r[i].file < |canonical.files|
    ensures kv != null ==> kv.entries == CacheWrites(entries0, canonical.files, r, hash64)
  {
    var batch := batches[b];
    assert forall i :: 0 <= i < |batch.trees| ==> batch.trees[i].file < |canonical.files|;
    var trees := SubstituteTrees(canonical, batch.trees, substitute, b);
    CacheTrees(canonical, kv, trees, hash64);
    if kv != null {
      CacheWritesAppend(entries0, canonical.files, merged, trees, hash64);
    }
    r := merged + trees;
  }

  /** `mergeIndexResults` as a fold over the batches in the order the
      queue hands them out: the first batch's state is adopted, each
      batch's trees are cached as they are merged. */
  method MergeIndexResults(batches: seq<Batch>, kv: KeyValueStore?, substitute: (nat, Expr) -> Expr, hash64: string -> Hash64)
    returns (ret: IndexResult)
    requires |batches| > 0 ==> BatchesIn(batches[0].gs.files, batches)
    modifies kv
    ensures |batches| == 0 ==> ret == IndexResult(None, [], [])
    ensures |batches| > 0 ==>
              && ret.gs == Some(batches[0].gs)
              && BatchesIn(batches[0].gs.files, batches)
              && ret.trees == MergedTrees(batches[0].gs.files, batches, substitute, |batches|)
              && ret.pluginFiles == MergedPluginFiles(batches, |batches|)
    ensures |batches| > 0 && kv != null ==>
              && (forall i :: 0 <= i < |ret.trees| ==> ret.trees[i].file < |batches[0].gs.files|)
              && kv.entries == CacheWrites(old(kv.entries), batches[0].gs.files, ret.trees, hash64)
  {
    if |batches| == 0 {
      return IndexResult(None, [], []);
    }
    var canonical := batches[0].gs;
    ghost var files := canonical.files;
    ghost var entries0 := if kv != null then kv.entries else map[];
    // The first batch popped: its state becomes the result's.
    var trees := batches[0].trees;
    var pluginFiles := batches[0].pluginFiles;
    CacheTrees(canonical, kv, trees, hash64);
    var b := 1;
    while b < |batches|
      invariant 1 <= b <= |batches|
      invariant canonical.files == files
      invariant trees == MergedTrees(files, batches, substitute, b)
      invariant pluginFiles == MergedPluginFiles(batches, b)
      invariant forall i :: 0 <= i < |trees| ==> trees[i].file < |files|
      invariant kv != null ==> kv.entries == CacheWrites(entries0, files, trees, hash64)
    {
      trees := MergeLaterBatch(canonical, kv, trees, batches, b, substitute, hash64, entries0);
      pluginFiles := pluginFiles + batches[b].pluginFiles;
      assert MergedPluginFiles(batches, b + 1) == MergedPluginFiles(batches, b) + batches[b].pluginFiles;
      b := b + 1;
    }
    ret := IndexResult(Some(canonical), trees, pluginFiles);
  }

  // ---------------------------------------------------------------------
  // index

  predicate SortedByFile(s: seq<ParsedFile>) {
    forall i, j :: 0 <= i < j < |s| ==> s[i].file <= s[j].file
  }

  /** Exchanges two neighbouring elements. */
  method SwapDown(a: array<ParsedFile>, j: nat)
    requires 0 < j < a.Length
    modifies a
    ensures a[..] == old(a[..])[j - 1 := old(a[j])][j := old(a[j - 1])]
    ensures multiset(a[..]) == multiset(old(a[..]))
  {
    a[j - 1], a[j] := a[j], a[j - 1];
  }

  /** One step of the insertion sort: moves `a[i]` down into the sorted
      prefix `a[..i]`. */
  method InsertDown(a: array<ParsedFile>, i: nat)
    requires i < a.Length
    requires forall k, l :: 0 <= k < l < i ==> a[k].file <= a[l].file
    modifies a
    ensures forall k, l :: 0 <= k < l <= i ==> a[k].file <= a[l].file
    ensures a[i + 1..] == old(a[i + 1..])
    ensures multiset(a[..]) == multiset(old(a[..]))
  {
    var j := i;
    while j >= 1 && a[j - 1].file > a[j].file
      invariant 0 <= j <= i
      invariant forall k, l :: 0 <= k < l <= i && l != j ==> a[k].file <= a[l].file
      invariant forall k, l :: 0 <= k < j < l <= i ==> a[k].file <= a[l].file
      invariant a[i + 1..] == old(a[i + 1..])
      invariant multiset(a[..]) == multiset(old(a[..]))
    {
      SwapDown(a, j);
      j := j - 1;
    }
  }

  /** The trees of `unsorted`, sorted by file in a fresh array. */
  method SortedByFileCopy(unsorted: seq<ParsedFile>) returns (ret: seq<ParsedFile>)
    ensures SortedByFile(ret)
    ensures multiset(ret) == multiset(unsorted)
  {
    var a := new ParsedFile[|unsorted|](i requires 0 <= i < |unsorted| => unsorted[i]);
    assert a[..] == unsorted;
    SortByFile(a);
    ret := a[..];
  }

  /** `fast_sort` by file id, in place; equal ids come out in no promised
      order. */
  method SortByFile(a: array<ParsedFile>)
    modifies a
    ensures SortedByFile(a[..])
    ensures multiset(a[..]) == multiset(old(a[..]))
  {
    var i := 0;
    while i < a.Length
      invariant 0 <= i <= a.Length
      invariant forall k, l :: 0 <= k < l < i ==> a[k].file <= a[l].file
      invariant multiset(a[..]) == multiset(old(a[..]))
    {
      InsertDown(a, i);
      i := i + 1;
    }
  }

  /** A plugin-generated file as the inner loop of `index` enters it at
      `id`: at the strictness level decided for it. */
  function GeneratedData(f: File, id: nat, opts: Options, autogen: bool): (d: File)
    ensures d.path == f.path && d.source == f.source && d.cachedParseTree == f.cachedParseTree
  {
    f.(strictLevel := DecideStrictLevel(id, f, opts, autogen).0)
  }

  /** What the inner loop makes of plugin-generated files: the entries it
      adds to the table, the trees it indexes and the errors it reports. */
  datatype Generated = Generated(entries: seq<File>, trees: seq<ParsedFile>, errors: seq<Diagnostic>)

  /** One generated file, entered at `id`: its entry, marked when the store
      has its tree; its tree indexed from that entry; and the errors of
      deciding its level and indexing it. */
  function GeneratedStep(f: File, id: nat, opts: Options, fe: Frontend, autogen: bool,
                         hasStore: bool, store: map<string, Expr>): (g: Generated)
    ensures |g.entries| == 1 && |g.trees| == 1
    ensures g.trees[0].file == id && g.entries[0].path == f.path
  {
    var d := GeneratedData(f, id, opts, autogen);
    var c := StoreEntry(d, hasStore, store, fe.hash64);
    Generated([MarkedIfCached(d, c)], [ParsedFile(IndexedTree(opts, fe, id, d, c, false), id)],
              DecideStrictLevel(id, f, opts, autogen).1 + IndexErrors(opts, fe, id, d, c, false))
  }

  function Join(a: Generated, b: Generated): Generated {
    Generated(a.entries + b.entries, a.trees + b.trees, a.errors + b.errors)
  }

  /** The effects of a sequence of steps, one after the other. */
  function JoinAll(steps: seq<Generated>): Generated
    decreases |steps|
  {
    if steps == [] then Generated([], [], []) else Join(JoinAll(steps[..|steps| - 1]), steps[|steps| - 1])
  }

  lemma JoinAllSnoc(steps: seq<Generated>, n: nat)
    requires n < |steps|
    ensures JoinAll(steps[..n + 1]) == Join(JoinAll(steps[..n]), steps[n])
  {
    assert steps[..n + 1][..n] == steps[..n];
  }

  /** The steps of the inner loop over `pfs`, entered from id `base` on,
      with the store `store` (when `hasStore`) read and not written. */
  function GeneratedSteps(pfs: seq<File>, base: nat, opts: Options, fe: Frontend, autogen: bool,
                          hasStore: bool, store: map<string, Expr>): seq<Generated>
  {
    seq(|pfs|, i requires 0 <= i < |pfs| => GeneratedStep(pfs[i], base + i, opts, fe, autogen, hasStore, store))
  }

  /** What the inner loop over `pfs` does in all. */
  function IndexedGenerated(pfs: seq<File>, base: nat, opts: Options, fe: Frontend, autogen: bool,
                            hasStore: bool, store: map<string, Expr>): Generated
  {
    JoinAll(GeneratedSteps(pfs, base, opts, fe, autogen, hasStore, store))
  }

  /** Each step adds one entry and one tree. */
  lemma {:induction false} JoinAllSizes(steps: seq<Generated>)
    requires forall i :: 0 <= i < |steps| ==> |steps[i].entries| == 1 && |steps[i].trees| == 1
    ensures |JoinAll(steps).entries| == |steps| && |JoinAll(steps).trees| == |steps|
    ensures forall i :: 0 <= i < |steps| ==>
              JoinAll(steps).entries[i] == steps[i].entries[0] && JoinAll(steps).trees[i] == steps[i].trees[0]
    decreases |steps|
  {
    if steps != [] {
      var n := |steps| - 1;
      assert forall i :: 0 <= i < n ==> steps[..n][i] == steps[i];
      JoinAllSizes(steps[..n]);
    }
  }

  /** The `i`th generated file is entered at `base + i` under the path
      of the `i`th plugin file. */
  lemma IndexedGeneratedAt(pfs: seq<File>, base: nat, opts: Options, fe: Frontend, autogen: bool,
                           hasStore: bool, store: map<string, Expr>)
    ensures GeneratedPlaced(IndexedGenerated(pfs, base, opts, fe, autogen, hasStore, store), pfs, base)
  {
    var steps := GeneratedSteps(pfs, base, opts, fe, autogen, hasStore, store);
    forall i | 0 <= i < |steps|
      ensures |steps[i].entries| == 1 && |steps[i].trees| == 1
      ensures steps[i].trees[0].file == base + i && steps[i].entries[0].path == pfs[i].path
    {
      GeneratedStepsAt(pfs, base, opts, fe, autogen, hasStore, store, i);
    }
    JoinAllSizes(steps);
  }

  /** `g` holds one entry and one tree per plugin file of `pfs`, the `i`th
      tree for `base + i` and the `i`th entry under the `i`th path. */
  ghost predicate GeneratedPlaced(g: Generated, pfs: seq<File>, base: nat) {
    && |g.entries| == |pfs| && |g.trees| == |pfs|
    && forall i :: 0 <= i < |pfs| ==> g.trees[i].file == base + i && g.entries[i].path == pfs[i].path
  }

  /** The `i`th step is the one for the `i`th plugin file, at `base + i`. */
  lemma GeneratedStepsAt(pfs: seq<File>, base: nat, opts: Options, fe: Frontend, autogen: bool,
                         hasStore: bool, store: map<string, Expr>, i: nat)
    requires i < |pfs|
    ensures |GeneratedSteps(pfs, base, opts, fe, autogen, hasStore, store)| == |pfs|
    ensures GeneratedSteps(pfs, base, opts, fe, autogen, hasStore, store)[i] == GeneratedStep(pfs[i], base + i, opts, fe, autogen, hasStore, store)
  {
  }

  /** Entering the generated files after `before` puts the `i`th of them
      at `|before| + i`, with its own path, and indexes it there. */
  lemma IndexedGeneratedPlaces(before: seq<File>, pfs: seq<File>, opts: Options, fe: Frontend, autogen: bool,
                               hasStore: bool, store: map<string, Expr>, after: seq<File>, parsed: seq<ParsedFile>)
    requires var g := IndexedGenerated(pfs, |before|, opts, fe, autogen, hasStore, store);
             after == before + g.entries && parsed == g.trees
    ensures |before| + |pfs| == |after| && after[..|before|] == before
    ensures |parsed| == |pfs|
    ensures forall i :: 0 <= i < |parsed| ==> parsed[i].file == |before| + i
    ensures forall i :: 0 <= i < |parsed| ==> after[parsed[i].file].path == pfs[i].path
  {
    IndexedGeneratedAt(pfs, |before|, opts, fe, autogen, hasStore, store);
    EntriesPlaced(before, pfs, IndexedGenerated(pfs, |before|, opts, fe, autogen, hasStore, store), after, parsed);
  }

  /** `IndexedGeneratedPlaces` for any `g` placed after `before`. */
  lemma EntriesPlaced(before: seq<File>, pfs: seq<File>, g: Generated, after: seq<File>, parsed: seq<ParsedFile>)
    requires GeneratedPlaced(g, pfs, |before|) && after == before + g.entries && parsed == g.trees
    ensures |before| + |pfs| == |after| && after[..|before|] == before
    ensures |parsed| == |pfs|
    ensures forall i :: 0 <= i < |parsed| ==> parsed[i].file == |before| + i
    ensures forall i :: 0 <= i < |parsed| ==> after[parsed[i].file].path == pfs[i].path
  {
    assert after[..|before|] == before;
  }

  /** One turn of the inner loop of `index`: the generated file is
      entered at the next id, given its strictness level and indexed. */
  method IndexGeneratedFile(gs: FileTable, f: File, opts: Options, kv: KeyValueStore?, fe: Frontend,
                            ghost step: Generated) returns (p: ParsedFile)
    requires gs.Valid()
    requires step == GeneratedStep(f, |gs.files|, opts, fe, gs.runningUnderAutogen, kv != null, StoreOf(kv))
    modifies gs`files, gs`errors
    ensures gs.Valid()
    ensures gs.files == old(gs.files) + step.entries && [p] == step.trees && gs.errors == old(gs.errors) + step.errors
  {
    ghost var fs, errors0 := gs.files, gs.errors;
    var pluginFileRef := gs.EnterFile(f);
    var decided := DecideStrictLevel(pluginFileRef, gs.files[pluginFileRef], opts, gs.runningUnderAutogen);
    gs.ReportAll(decided.1);
    gs.SetStrictLevel(pluginFileRef, decided.0);
    CacheEntryIsStoreEntry(gs.files, pluginFileRef, kv, fe.hash64);
    ghost var leveled, cached := gs.files, CacheEntry(gs.files, pluginFileRef, kv, fe.hash64);
    p := IndexOne(opts, gs, pluginFileRef, kv, fe);
    GeneratedStepIs(fs, f, opts, fe, gs.runningUnderAutogen, kv != null, StoreOf(kv), leveled, cached,
                    p, gs.files, errors0, gs.errors);
  }

  /** What the steps of one turn of the inner loop leave, one after the
      other, is that turn's `GeneratedStep`. */
  lemma GeneratedStepIs(fs: seq<File>, f: File, opts: Options, fe: Frontend, autogen: bool,
                        hasStore: bool, store: map<string, Expr>, leveled: seq<File>, cached: Option<Expr>,
                        p: ParsedFile, files: seq<File>, errors0: seq<Diagnostic>, errors: seq<Diagnostic>)
    requires leveled == fs + [GeneratedData(f, |fs|, opts, autogen)]
    requires cached == StoreEntry(leveled[|fs|], hasStore, store, fe.hash64)
    requires p.file == |fs| && p.tree == IndexedTree(opts, fe, |fs|, leveled[|fs|], cached, false)
    requires errors == errors0 + DecideStrictLevel(|fs|, f, opts, autogen).1 + IndexErrors(opts, fe, |fs|, leveled[|fs|], cached, false)
    requires cached.Some? ==> files == leveled[|fs| := leveled[|fs|].(cachedParseTree := true)]
    requires cached.None? ==> files == leveled
    ensures var step := GeneratedStep(f, |fs|, opts, fe, autogen, hasStore, store);
            files == fs + step.entries && [p] == step.trees && errors == errors0 + step.errors
  {
    var d := GeneratedData(f, |fs|, opts, autogen);
    assert leveled[|fs|] == d;
    if cached.Some? {
      assert files == fs + [d.(cachedParseTree := true)];
    }
  }

  /** The first `j` of `steps` have been taken after `before` and
      `beforeErrors`. */
  ghost predicate JoinedSoFar(before: seq<File>, beforeErrors: seq<Diagnostic>, steps: seq<Generated>, j: nat,
                              files: seq<File>, errors: seq<Diagnostic>, parsed: seq<ParsedFile>)
    requires j <= |steps|
  {
    var g := JoinAll(steps[..j]);
    files == before + g.entries && parsed == g.trees && errors == beforeErrors + g.errors
  }

  /** Taking one more step extends what the steps so far have done. */
  lemma JoinedStep(before: seq<File>, beforeErrors: seq<Diagnostic>, steps: seq<Generated>, j: nat,
                   files: seq<File>, errors: seq<Diagnostic>, parsed: seq<ParsedFile>,
                   files': seq<File>, errors': seq<Diagnostic>, p: ParsedFile)
    requires j < |steps|
    requires JoinedSoFar(before, beforeErrors, steps, j, files, errors, parsed)
    requires files' == files + steps[j].entries && [p] == steps[j].trees && errors' == errors + steps[j].errors
    ensures JoinedSoFar(before, beforeErrors, steps, j + 1, files', errors', parsed + [p])
  {
    JoinAllSnoc(steps, j);
  }

  /** Once every step is taken, the inner loop has done all it does. */
  lemma JoinedAll(before: seq<File>, beforeErrors: seq<Diagnostic>, pfs: seq<File>,
                  opts: Options, fe: Frontend, autogen: bool, hasStore: bool, store: map<string, Expr>,
                  files: seq<File>, errors: seq<Diagnostic>, parsed: seq<ParsedFile>)
    requires JoinedSoFar(before, beforeErrors, GeneratedSteps(pfs, |before|, opts, fe, autogen, hasStore, store), |pfs|,
                         files, errors, parsed)
    ensures |before| + |pfs| == |files| && files[..|before|] == before
    ensures |parsed| == |pfs|
    ensures forall i :: 0 <= i < |parsed| ==> parsed[i].file == |before| + i
    ensures forall i :: 0 <= i < |parsed| ==> files[parsed[i].file].path == pfs[i].path
    ensures var g := IndexedGenerated(pfs, |before|, opts, fe, autogen, hasStore, store);
            && files == before + g.entries && parsed == g.trees && errors == beforeErrors + g.errors
  {
    var steps := GeneratedSteps(pfs, |before|, opts, fe, autogen, hasStore, store);
    assert steps[..|pfs|] == steps;
    IndexedGeneratedPlaces(before, pfs, opts, fe, autogen, hasStore, store, files, parsed);
  }

  /** The inner loop of `index`: each plugin-generated file is entered,
      given its strictness level and indexed. */
  method IndexGeneratedFiles(gs: FileTable, pluginFiles: seq<File>, opts: Options, kv: KeyValueStore?, fe: Frontend)
    returns (parsed: seq<ParsedFile>)
    requires gs.Valid()
    modifies gs`files, gs`errors
    ensures gs.Valid()
    ensures |old(gs.files)| + |pluginFiles| == |gs.files| && gs.files[..|old(gs.files)|] == old(gs.files)
    ensures |parsed| == |pluginFiles|
    ensures forall i :: 0 <= i < |parsed| ==> parsed[i].file == |old(gs.files)| + i
    ensures forall i :: 0 <= i < |parsed| ==> gs.files[parsed[i].file].path == pluginFiles[i].path
    ensures var g := IndexedGenerated(pluginFiles, |old(gs.files)|, opts, fe, gs.runningUnderAutogen, kv != null, StoreOf(kv));
            && gs.files == old(gs.files) + g.entries
            && parsed == g.trees
            && gs.errors == old(gs.errors) + g.errors
  {
    parsed := [];
    ghost var before, beforeErrors := gs.files, gs.errors;
    ghost var store := StoreOf(kv);
    ghost var steps := GeneratedSteps(pluginFiles, |before|, opts, fe, gs.runningUnderAutogen, kv != null, store);
    var j := 0;
    while j < |pluginFiles|
      invariant 0 <= j <= |pluginFiles|
      invariant gs.Valid() && StoreOf(kv) == store
      invariant |gs.files| == |before| + j
      invariant JoinedSoFar(before, beforeErrors, steps, j, gs.files, gs.errors, parsed)
    {
      ghost var files, errors := gs.files, gs.errors;
      GeneratedStepsAt(pluginFiles, |before|, opts, fe, gs.runningUnderAutogen, kv != null, store, j);
      var p := IndexGeneratedFile(gs, pluginFiles[j], opts, kv, fe, steps[j]);
      JoinedStep(before, beforeErrors, steps, j, files, errors, parsed, gs.files, gs.errors, p);
      parsed := parsed + [p];
      j := j + 1;
    }
    JoinedAll(before, beforeErrors, pluginFiles, opts, fe, gs.runningUnderAutogen, kv != null, store, gs.files, gs.errors, parsed);
  }

  /** Each of the first `n` files has a tree among `trees`. */
  ghost predicate IndexedFiles(trees: seq<ParsedFile>, files: seq<nat>, n: nat)
    requires n <= |files|
  {
    forall m :: 0 <= m < n ==> HasTree(trees, files[m])
  }

  /** Some tree among `trees` is for `file`. */
  ghost predicate HasTree(trees: seq<ParsedFile>, file: nat) {
    exists j :: 0 <= j < |trees| && trees[j].file == file
  }

  /** Appending the next file's tree and its generated files keeps every
      earlier file covered and covers the next one. */
  lemma CoverageStep(files: seq<nat>, k: nat, before: seq<ParsedFile>, parsed: ParsedFile, generated: seq<ParsedFile>)
    requires k < |files| && parsed.file == files[k]
    requires IndexedFiles(before, files, k)
    ensures IndexedFiles(before + [parsed] + generated, files, k + 1)
  {
    var after := before + [parsed] + generated;
    forall m | 0 <= m < k + 1
      ensures HasTree(after, files[m])
    {
      if m == k {
        assert after[|before|] == parsed;
      } else {
        assert HasTree(before, files[m]);
        var j :| 0 <= j < |before| && before[j].file == files[m];
        assert after[j] == before[j];
      }
    }
  }

  /** Reordering the trees keeps every file covered. */
  lemma CoveragePermuted(trees: seq<ParsedFile>, reordered: seq<ParsedFile>, files: seq<nat>, n: nat)
    requires n <= |files| && multiset(trees) == multiset(reordered)
    requires IndexedFiles(trees, files, n)
    ensures IndexedFiles(reordered, files, n)
  {
    forall m | 0 <= m < n
      ensures HasTree(reordered, files[m])
    {
      assert HasTree(trees, files[m]);
      var j :| 0 <= j < |trees| && trees[j].file == files[m];
      assert trees[j] in multiset(reordered);
      var i :| 0 <= i < |reordered| && reordered[i] == trees[j];
    }
  }

  /** The elements of each sequence in turn. */
  function Flatten<T>(xss: seq<seq<T>>): (r: seq<T>)
    decreases |xss|
  {
    if xss == [] then [] else Flatten(xss[..|xss| - 1]) + xss[|xss| - 1]
  }

  lemma FlattenSnoc<T>(xss: seq<seq<T>>, xs: seq<T>)
    ensures Flatten(xss + [xs]) == Flatten(xss) + xs
  {
    assert (xss + [xs])[..|xss|] == xss;
  }

  /** The order the single-threaded `index` emits trees in: each input
      file's tree followed by the trees of the files its plugins
      generated. */
  function Batches(trees: seq<ParsedFile>, generated: seq<seq<ParsedFile>>): (r: seq<ParsedFile>)
    requires |trees| == |generated|
    decreases |trees|
  {
    if trees == [] then []
    else Batches(trees[..|trees| - 1], generated[..|generated| - 1]) + [trees[|trees| - 1]] + generated[|generated| - 1]
  }

  lemma BatchesSnoc(trees: seq<ParsedFile>, generated: seq<seq<ParsedFile>>, t: ParsedFile, g: seq<ParsedFile>)
    requires |trees| == |generated|
    ensures Batches(trees + [t], generated + [g]) == Batches(trees, generated) + [t] + g
  {
    assert (trees + [t])[..|trees|] == trees;
    assert (generated + [g])[..|generated|] == generated;
  }

  /** One turn of the loop of `index` on a table `fs`: the entry the read
      leaves at `file`, what the store has for it, its tree and the files
      its plugins generate, those files entered and indexed, the table
      after the turn and the errors the turn reports. */
  datatype Turn = Turn(data: File, cached: Option<Expr>, parsed: ParsedFile, pluginFiles: seq<File>,
                       generated: Generated, files: seq<File>, errors: seq<Diagnostic>)

  /** The turn for `file` on `fs`, with the store `store` when `hasStore`. */
  function InputTurn(fs: seq<File>, file: nat, opts: Options, fe: Frontend, autogen: bool,
                     hasStore: bool, store: map<string, Expr>): (t: Turn)
    requires 0 < file < |fs|
    ensures t.data == ReadData(fs[file], file, opts, fe, autogen)
    ensures t.cached == StoreEntry(t.data, hasStore, store, fe.hash64)
    ensures t.parsed == ParsedFile(IndexedTree(opts, fe, file, t.data, t.cached, true), file)
    ensures |t.files| == |fs| + |t.pluginFiles| && |t.generated.trees| == |t.pluginFiles|
    ensures forall j :: 0 <= j < |fs| && j != file ==> t.files[j] == fs[j]
    ensures forall i :: 0 <= i < |t.generated.trees| ==>
              t.generated.trees[i].file == |fs| + i && t.files[|fs| + i].path == t.pluginFiles[i].path
  {
    var d := ReadData(fs[file], file, opts, fe, autogen);
    var c := StoreEntry(d, hasStore, store, fe.hash64);
    var pfs := IndexedPluginFiles(opts, fe, file, d, c);
    var g := IndexedGenerated(pfs, |fs|, opts, fe, autogen, hasStore, store);
    var files := fs[file := MarkedIfCached(d, c)] + g.entries;
    IndexedGeneratedPlaces(fs[file := MarkedIfCached(d, c)], pfs, opts, fe, autogen, hasStore, store, files, g.trees);
    Turn(d, c, ParsedFile(IndexedTree(opts, fe, file, d, c, true), file), pfs, g, files,
         ReadErrors(fs[file], file, opts, fe, autogen) + IndexErrors(opts, fe, file, d, c, true) + g.errors)
  }

  /** One turn of the loop of `index` for `file`: the file is read and
      indexed with its plugins, and the files they generate are entered
      and indexed after it; `data` is the entry indexed and `cached` what
      the store had for it. When reading the file raises (`raised`), the
      turn ends there, with the file read. */
  method IndexInput(gs: FileTable, file: nat, opts: Options, kv: KeyValueStore?, fe: Frontend)
    returns (raised: bool, parsed: ParsedFile, pluginFiles: seq<File>, generated: seq<ParsedFile>,
             ghost data: File, ghost cached: Option<Expr>, ghost turn: Turn)
    requires gs.Valid() && 0 < file < |gs.files|
    modifies gs`files, gs`errors
    ensures gs.Valid()
    ensures raised == ReadRaises(old(gs.files[file]), file, opts, fe, gs.runningUnderAutogen)
    ensures data == ReadData(old(gs.files[file]), file, opts, fe, gs.runningUnderAutogen)
    ensures raised ==> gs.files == old(gs.files)[file := data]
                       && gs.errors == old(gs.errors) + ReadErrors(old(gs.files[file]), file, opts, fe, gs.runningUnderAutogen)
    ensures cached == CacheEntry(old(gs.files)[file := data], file, kv, fe.hash64)
    ensures turn == InputTurn(old(gs.files), file, opts, fe, gs.runningUnderAutogen, kv != null, StoreOf(kv))
    ensures !raised ==>
            && data == turn.data && cached == turn.cached
            && parsed == turn.parsed && pluginFiles == turn.pluginFiles && generated == turn.generated.trees
            && gs.files == turn.files && gs.errors == old(gs.errors) + turn.errors
  {
    ghost var fs, errors0 := gs.files, gs.errors;
    raised := ReadFileWithStrictnessOverrides(gs, file, opts, fe);
    data := gs.files[file];
    assert raised == ReadRaises(fs[file], file, opts, fe, gs.runningUnderAutogen);
    cached := CacheEntry(gs.files, file, kv, fe.hash64);
    if raised {
      parsed, pluginFiles, generated := ParsedFile(EmptyTree, file), [], [];
      turn := InputTurn(fs, file, opts, fe, gs.runningUnderAutogen, kv != null, StoreOf(kv));
      return;
    }
    CacheEntryIsStoreEntry(gs.files, file, kv, fe.hash64);
    ghost var read, errors1 := gs.files, gs.errors;
    parsed, pluginFiles := IndexOneWithPlugins(opts, gs, file, kv, fe);
    ghost var indexed, errors2 := gs.files, gs.errors;
    generated := IndexGeneratedFiles(gs, pluginFiles, opts, kv, fe);
    turn := InputTurn(fs, file, opts, fe, gs.runningUnderAutogen, kv != null, StoreOf(kv));
    InputTurnIs(fs, file, opts, fe, gs.runningUnderAutogen, kv != null, StoreOf(kv), data, cached,
                parsed, pluginFiles, indexed, generated, gs.files, errors0, errors1, errors2, gs.errors);
  }

  /** Concatenation regrouped. */
  lemma AppendFour<T>(a: seq<T>, b: seq<T>, c: seq<T>, d: seq<T>)
    ensures a + b + c + d == a + (b + c + d)
  {
  }

  /** What the steps of a turn leave, one after the other, is the turn. */
  lemma InputTurnIs(fs: seq<File>, file: nat, opts: Options, fe: Frontend, autogen: bool,
                    hasStore: bool, store: map<string, Expr>, data: File, cached: Option<Expr>,
                    parsed: ParsedFile, pluginFiles: seq<File>, indexed: seq<File>, generated: seq<ParsedFile>,
                    files: seq<File>, errors0: seq<Diagnostic>, errors1: seq<Diagnostic>, errors2: seq<Diagnostic>,
                    errors: seq<Diagnostic>)
    requires 0 < file < |fs|
    requires data == ReadData(fs[file], file, opts, fe, autogen)
    requires errors1 == errors0 + ReadErrors(fs[file], file, opts, fe, autogen)
    requires cached == StoreEntry(data, hasStore, store, fe.hash64)
    requires parsed == ParsedFile(IndexedTree(opts, fe, file, data, cached, true), file)
    requires pluginFiles == IndexedPluginFiles(opts, fe, file, data, cached)
    requires errors2 == errors1 + IndexErrors(opts, fe, file, data, cached, true)
    requires cached.Some? ==> indexed == fs[file := data][file := data.(cachedParseTree := true)]
    requires cached.None? ==> indexed == fs[file := data]
    requires var g := IndexedGenerated(pluginFiles, |indexed|, opts, fe, autogen, hasStore, store);
             files == indexed + g.entries && generated == g.trees && errors == errors2 + g.errors
    ensures var t := InputTurn(fs, file, opts, fe, autogen, hasStore, store);
            && data == t.data && cached == t.cached
            && parsed == t.parsed && pluginFiles == t.pluginFiles && generated == t.generated.trees
            && files == t.files && errors == errors0 + t.errors
  {
    assert indexed == fs[file := MarkedIfCached(data, cached)];
    assert |indexed| == |fs|;
    var g := IndexedGenerated(pluginFiles, |fs|, opts, fe, autogen, hasStore, store);
    assert errors == errors2 + g.errors;
    AppendFour(errors0, ReadErrors(fs[file], file, opts, fe, autogen), IndexErrors(opts, fe, file, data, cached, true), g.errors);
  }

  /** The state the loop of `index` on this thread works on: the file
      table, the errors, the entries of the store, the trees so far and
      the number of files the plugins generated. */
  datatype Indexing = Indexing(files: seq<File>, errors: seq<Diagnostic>, store: map<string, Expr>,
                               unsorted: seq<ParsedFile>, count: nat)

  /** Every tree so far is for a file of the table. */
  predicate InRange(s: Indexing) {
    forall i :: 0 <= i < |s.unsorted| ==> s.unsorted[i].file < |s.files|
  }

  /** The turn for `file` in state `s`. */
  function TurnOf(s: Indexing, file: nat, opts: Options, fe: Frontend, autogen: bool, hasStore: bool): Turn
    requires 0 < file < |s.files|
  {
    InputTurn(s.files, file, opts, fe, autogen, hasStore, s.store)
  }

  /** What every turn on a table `fs` does to it: its tree is for a file
      of the table, which is the only entry it may change, and the files
      it generates are entered after the table, in order. */
  predicate Shaped(fs: seq<File>, t: Turn) {
    && 0 < t.parsed.file < |fs|
    && |t.files| == |fs| + |t.generated.trees|
    && (forall j :: 0 <= j < |fs| && j != t.parsed.file ==> t.files[j] == fs[j])
    && (forall i :: 0 <= i < |t.generated.trees| ==> t.generated.trees[i].file == |fs| + i)
  }

  /** The state after turn `t`: the turn's table and errors, its tree and
      the generated trees after the trees so far, all of them written to
      the store when there is one, and the count grown by the files
      generated. */
  function Advance(s: Indexing, t: Turn, hasStore: bool, hash64: string -> Hash64): (r: Indexing)
    requires InRange(s) && Shaped(s.files, t)
    ensures InRange(r) && |s.files| <= |r.files|
    ensures |r.unsorted| == |s.unsorted| + 1 + |t.generated.trees| && r.unsorted[..|s.unsorted|] == s.unsorted
  {
    var unsorted := s.unsorted + [t.parsed] + t.generated.trees;
    assert unsorted[..|s.unsorted|] == s.unsorted;
    assert forall i :: 0 <= i < |unsorted| ==> unsorted[i].file < |t.files| by {
      forall i | 0 <= i < |unsorted| ensures unsorted[i].file < |t.files| {
        if i > |s.unsorted| {
          assert unsorted[i] == t.generated.trees[i - |s.unsorted| - 1];
        }
      }
    }
    Indexing(t.files, s.errors + t.errors,
             if hasStore then CacheWrites(s.store, t.files, unsorted, hash64) else s.store,
             unsorted, s.count + |t.pluginFiles|)
  }

  /** The first `n` turns went from `states[k]` to `states[k + 1]`. */
  ghost predicate Steps(states: seq<Indexing>, turns: seq<Turn>, n: nat, hasStore: bool, hash64: string -> Hash64) {
    && n < |states| && n <= |turns|
    && forall k :: 0 <= k < n ==>
         && InRange(states[k]) && Shaped(states[k].files, turns[k])
         && states[k + 1] == Advance(states[k], turns[k], hasStore, hash64)
  }

  lemma StepsStep(states: seq<Indexing>, turns: seq<Turn>, n: nat, hasStore: bool, hash64: string -> Hash64,
                  t: Turn, next: Indexing)
    requires Steps(states, turns, n, hasStore, hash64) && |states| == n + 1 && |turns| == n
    requires InRange(states[n]) && Shaped(states[n].files, t)
    requires next == Advance(states[n], t, hasStore, hash64)
    ensures Steps(states + [next], turns + [t], n + 1, hasStore, hash64)
  {
    var states', turns' := states + [next], turns + [t];
    forall k | 0 <= k < n + 1
      ensures && InRange(states'[k]) && Shaped(states'[k].files, turns'[k])
              && states'[k + 1] == Advance(states'[k], turns'[k], hasStore, hash64)
    {
      assert states'[k] == states[k];
      if k < n {
        assert turns'[k] == turns[k];
      }
    }
  }

  /** A file no turn so far was for keeps its entry. */
  lemma {:induction false} StepsUnvisited(states: seq<Indexing>, turns: seq<Turn>, n: nat, hasStore: bool,
                                          hash64: string -> Hash64, file: nat)
    requires Steps(states, turns, n, hasStore, hash64)
    requires file < |states[0].files| && forall k :: 0 <= k < n ==> turns[k].parsed.file != file
    ensures file < |states[n].files| && states[n].files[file] == states[0].files[file]
  {
    if n > 0 {
      assert Steps(states, turns, n - 1, hasStore, hash64);
      StepsUnvisited(states, turns, n - 1, hasStore, hash64, file);
    }
  }

  /** The table only grows, and every tree so far is the tree of an
      earlier turn or is for a file the plugins generated. */
  lemma {:induction false} StepsTreeFiles(states: seq<Indexing>, turns: seq<Turn>, n: nat, hasStore: bool, hash64: string -> Hash64)
    requires Steps(states, turns, n, hasStore, hash64) && states[0].unsorted == []
    ensures |states[0].files| <= |states[n].files|
    ensures forall i :: 0 <= i < |states[n].unsorted| ==>
              (exists m :: 0 <= m < n && turns[m].parsed.file == states[n].unsorted[i].file)
              || |states[0].files| <= states[n].unsorted[i].file
  {
    if n > 0 {
      var s, t := states[n - 1], turns[n - 1];
      assert Steps(states, turns, n - 1, hasStore, hash64);
      StepsTreeFiles(states, turns, n - 1, hasStore, hash64);
      var u := states[n].unsorted;
      assert u == s.unsorted + [t.parsed] + t.generated.trees;
      forall i | 0 <= i < |u|
        ensures (exists m :: 0 <= m < n && turns[m].parsed.file == u[i].file) || |states[0].files| <= u[i].file
      {
        if i < |s.unsorted| {
          assert u[i] == s.unsorted[i];
        } else if i == |s.unsorted| {
          assert u[i] == t.parsed;
        } else {
          assert u[i] == t.generated.trees[i - |s.unsorted| - 1];
        }
      }
    }
  }

  /** Writing the trees so far again, on a table that agrees with the
      old one at their files, and then more trees, is writing all of them
      once. */
  lemma CacheWritesRewritten(entries: map<string, Expr>, files1: seq<File>, files2: seq<File>,
                             trees: seq<ParsedFile>, more: seq<ParsedFile>, hash64: string -> Hash64)
    requires forall i :: 0 <= i < |trees| ==>
               trees[i].file < |files1| && trees[i].file < |files2| && files1[trees[i].file] == files2[trees[i].file]
    requires forall i :: 0 <= i < |more| ==> more[i].file < |files2|
    ensures forall i :: 0 <= i < |trees + more| ==> (trees + more)[i].file < |files2|
    ensures CacheWrites(CacheWrites(entries, files1, trees, hash64), files2, trees + more, hash64)
            == CacheWrites(entries, files2, trees + more, hash64)
  {
    CacheWritesFrame(entries, files1, files2, trees, hash64);
    CacheWritesTwice(entries, files2, trees, hash64);
    CacheWritesAppend(CacheWrites(entries, files2, trees, hash64), files2, trees, more, hash64);
    CacheWritesAppend(entries, files2, trees, more, hash64);
  }

  /** With a store, and no file turned twice, the store after `n` turns
      holds what writing the trees so far, in order, over the entries
      the loop started with leaves. */
  lemma {:induction false} StepsStore(states: seq<Indexing>, turns: seq<Turn>, n: nat, hash64: string -> Hash64)
    requires Steps(states, turns, n, true, hash64) && states[0].unsorted == []
    requires forall k :: 0 <= k < n ==> turns[k].parsed.file < |states[0].files|
    requires forall i, j :: 0 <= i < j < n ==> turns[i].parsed.file != turns[j].parsed.file
    ensures InRange(states[n])
    ensures states[n].store == CacheWrites(states[0].store, states[n].files, states[n].unsorted, hash64)
  {
    if n > 0 {
      var s0, s, t := states[0], states[n - 1], turns[n - 1];
      assert Steps(states, turns, n - 1, true, hash64);
      StepsStore(states, turns, n - 1, hash64);
      StepsLastFrame(states, turns, n - 1, hash64);
      AdvanceParts(s, t, true, hash64);
      CacheWritesRewritten(s0.store, s.files, t.files, s.unsorted, [t.parsed] + t.generated.trees, hash64);
    }
  }

  /** The last turn of `n` leaves the entries of the trees before it as
      they were, when no file has two turns. */
  lemma StepsLastFrame(states: seq<Indexing>, turns: seq<Turn>, n: nat, hash64: string -> Hash64)
    requires Steps(states, turns, n + 1, true, hash64) && states[0].unsorted == []
    requires forall k :: 0 <= k < n + 1 ==> turns[k].parsed.file < |states[0].files|
    requires forall i, j :: 0 <= i < j < n + 1 ==> turns[i].parsed.file != turns[j].parsed.file
    ensures forall i :: 0 <= i < |states[n].unsorted| ==>
              && states[n].unsorted[i].file < |states[n].files|
              && states[n].unsorted[i].file < |turns[n].files|
              && states[n].files[states[n].unsorted[i].file] == turns[n].files[states[n].unsorted[i].file]
  {
    var s, t := states[n], turns[n];
    assert Steps(states, turns, n, true, hash64);
    StepsTreeFiles(states, turns, n, true, hash64);
    forall i | 0 <= i < |s.unsorted|
      ensures s.unsorted[i].file < |s.files| && s.unsorted[i].file < |t.files|
              && s.files[s.unsorted[i].file] == t.files[s.unsorted[i].file]
    {
      var f := s.unsorted[i].file;
      if exists m :: 0 <= m < n && turns[m].parsed.file == f {
        var m :| 0 <= m < n && turns[m].parsed.file == f;
        assert turns[m].parsed.file != turns[n].parsed.file;
      }
    }
  }


  /** The parts of the state a turn leaves. */
  lemma AdvanceParts(s: Indexing, t: Turn, hasStore: bool, hash64: string -> Hash64)
    requires InRange(s) && Shaped(s.files, t)
    ensures var r := Advance(s, t, hasStore, hash64);
            && r.files == t.files
            && r.unsorted == s.unsorted + ([t.parsed] + t.generated.trees)
            && (forall i :: 0 <= i < |[t.parsed] + t.generated.trees| ==> ([t.parsed] + t.generated.trees)[i].file < |t.files|)
            && (hasStore ==> r.store == CacheWrites(s.store, t.files, r.unsorted, hash64))
  {
    var more := [t.parsed] + t.generated.trees;
    assert s.unsorted + [t.parsed] + t.generated.trees == s.unsorted + more;
    forall i | 0 <= i < |more| ensures more[i].file < |t.files| {
      if i > 0 {
        assert more[i] == t.generated.trees[i - 1];
      }
    }
  }


  /** `rel` holds of the first `n` elements of `xs`, `ys` and `zs` taken
      together. */
  ghost predicate Pointwise<X, Y, Z>(xs: seq<X>, ys: seq<Y>, zs: seq<Z>, n: nat, rel: (X, Y, Z) -> bool)
    requires n <= |xs| && n <= |ys| && n <= |zs|
  {
    forall k :: 0 <= k < n ==> rel(xs[k], ys[k], zs[k])
  }

  lemma PointwiseSnoc<X, Y, Z>(xs: seq<X>, ys: seq<Y>, zs: seq<Z>, n: nat, rel: (X, Y, Z) -> bool, x: X, z: Z)
    requires |xs| == n + 1 && n < |ys| && |zs| == n
    requires Pointwise(xs, ys, zs, n, rel) && rel(xs[n], ys[n], z)
    ensures Pointwise(xs + [x], ys, zs + [z], n + 1, rel)
  {
    forall k | 0 <= k < n + 1 ensures rel((xs + [x])[k], ys[k], (zs + [z])[k]) {
      assert (xs + [x])[k] == xs[k];
      if k < n {
        assert (zs + [z])[k] == zs[k];
      }
    }
  }

  /** `t` is the turn for `file` in state `s`. */
  function IsTurnFor(opts: Options, fe: Frontend, autogen: bool, hasStore: bool): (Indexing, nat, Turn) -> bool {
    (s: Indexing, file: nat, t: Turn) => 0 < file < |s.files| && t == TurnOf(s, file, opts, fe, autogen, hasStore)
  }

  /** The first `n` turns of the loop over `files`: the turns for those
      files, each taken in the state the one before left, and going from
      `states[k]` to `states[k + 1]`. */
  ghost predicate Ran(files: seq<nat>, states: seq<Indexing>, turns: seq<Turn>, n: nat,
                      opts: Options, fe: Frontend, autogen: bool, hasStore: bool) {
    RanWith(files, states, turns, n, hasStore, fe.hash64, IsTurnFor(opts, fe, autogen, hasStore))
  }

  /** The first `n` turns over `files`, each going from `states[k]` to
      `states[k + 1]`, with turn `k` related by `rel` to the state it is
      taken in and to `files[k]`. */
  ghost predicate RanWith(files: seq<nat>, states: seq<Indexing>, turns: seq<Turn>, n: nat,
                          hasStore: bool, hash64: string -> Hash64, rel: (Indexing, nat, Turn) -> bool) {
    && n <= |files| && Steps(states, turns, n, hasStore, hash64)
    && Pointwise(states, files, turns, n, rel)
  }

  /** Turn `k` of the first `n` is the turn for `files[k]`. */
  lemma RanTurn(files: seq<nat>, states: seq<Indexing>, turns: seq<Turn>, n: nat,
                opts: Options, fe: Frontend, autogen: bool, hasStore: bool, k: nat)
    requires Ran(files, states, turns, n, opts, fe, autogen, hasStore) && k < n
    ensures 0 < files[k] < |states[k].files| && turns[k] == TurnOf(states[k], files[k], opts, fe, autogen, hasStore)
  {
    assert IsTurnFor(opts, fe, autogen, hasStore)(states[k], files[k], turns[k]);
  }

  /** Each of the first `n` turns is for its file. */
  lemma RanTurnFiles(files: seq<nat>, states: seq<Indexing>, turns: seq<Turn>, n: nat,
                     opts: Options, fe: Frontend, autogen: bool, hasStore: bool)
    requires Ran(files, states, turns, n, opts, fe, autogen, hasStore)
    ensures forall k :: 0 <= k < n ==> turns[k].parsed.file == files[k]
  {
    forall k | 0 <= k < n ensures turns[k].parsed.file == files[k] {
      RanTurn(files, states, turns, n, opts, fe, autogen, hasStore, k);
    }
  }

  lemma RanStep(files: seq<nat>, states: seq<Indexing>, turns: seq<Turn>, n: nat,
                hasStore: bool, hash64: string -> Hash64, rel: (Indexing, nat, Turn) -> bool, t: Turn, next: Indexing)
    requires RanWith(files, states, turns, n, hasStore, hash64, rel)
    requires |states| == n + 1 && |turns| == n && n < |files|
    requires InRange(states[n]) && rel(states[n], files[n], t) && Shaped(states[n].files, t)
    requires next == Advance(states[n], t, hasStore, hash64)
    ensures RanWith(files, states + [next], turns + [t], n + 1, hasStore, hash64, rel)
  {
    StepsStep(states, turns, n, hasStore, hash64, t, next);
    PointwiseSnoc(states, files, turns, n, rel, next, t);
  }

  /** The turn for a file given for the first time reads the entry the
      loop started with. */
  lemma FirstTurnReads(files: seq<nat>, states: seq<Indexing>, turns: seq<Turn>,
                       opts: Options, fe: Frontend, autogen: bool, hasStore: bool, k: nat)
    requires Ran(files, states, turns, |files|, opts, fe, autogen, hasStore) && k < |files|
    requires files[k] < |states[0].files| && files[k] !in files[..k]
    ensures turns[k].data == ReadData(states[0].files[files[k]], files[k], opts, fe, autogen)
  {
    assert Steps(states, turns, k, hasStore, fe.hash64);
    RanTurnFiles(files, states, turns, |files|, opts, fe, autogen, hasStore);
    forall m | 0 <= m < k ensures turns[m].parsed.file != files[k] {
      assert files[m] in files[..k];
    }
    StepsUnvisited(states, turns, k, hasStore, fe.hash64, files[k]);
    RanTurn(files, states, turns, |files|, opts, fe, autogen, hasStore, k);
  }

  /** With a store, and no file given twice, the loop leaves in the store
      what writing all its trees, in order, over the entries it started
      with leaves. */
  lemma RanStore(files: seq<nat>, states: seq<Indexing>, turns: seq<Turn>, opts: Options, fe: Frontend, autogen: bool)
    requires Ran(files, states, turns, |files|, opts, fe, autogen, true) && states[0].unsorted == []
    requires forall k :: 0 <= k < |files| ==> files[k] < |states[0].files|
    requires forall i, j :: 0 <= i < j < |files| ==> files[i] != files[j]
    ensures InRange(states[|files|])
    ensures states[|files|].store == CacheWrites(states[0].store, states[|files|].files, states[|files|].unsorted, fe.hash64)
  {
    RanTurnFiles(files, states, turns, |files|, opts, fe, autogen, true);
    StepsStore(states, turns, |files|, fe.hash64);
  }

  /** What one turn of the loop leaves, written down piece by piece, is
      the state `Advance` gives. */
  lemma AdvanceIs(s: Indexing, t: Turn, hasStore: bool, hash64: string -> Hash64,
                  files: seq<File>, errors: seq<Diagnostic>, store: map<string, Expr>, unsorted: seq<ParsedFile>, count: nat)
    requires InRange(s) && Shaped(s.files, t)
    requires files == t.files && errors == s.errors + t.errors
    requires unsorted == s.unsorted + [t.parsed] + t.generated.trees && count == s.count + |t.pluginFiles|
    requires forall i :: 0 <= i < |unsorted| ==> unsorted[i].file < |files|
    requires hasStore ==> store == CacheWrites(s.store, files, unsorted, hash64)
    requires !hasStore ==> store == s.store
    ensures Indexing(files, errors, store, unsorted, count) == Advance(s, t, hasStore, hash64)
  {
  }

  /** Every turn indexes the entry it read, with what the store had for
      it. */
  lemma RanTrees(files: seq<nat>, states: seq<Indexing>, turns: seq<Turn>,
                 opts: Options, fe: Frontend, autogen: bool, hasStore: bool)
    requires Ran(files, states, turns, |files|, opts, fe, autogen, hasStore)
    ensures forall k :: 0 <= k < |files| ==>
              && turns[k].parsed == ParsedFile(IndexedTree(opts, fe, files[k], turns[k].data, turns[k].cached, true), files[k])
              && turns[k].cached == StoreEntry(turns[k].data, hasStore, states[k].store, fe.hash64)
  {
    forall k | 0 <= k < |files|
      ensures && turns[k].parsed == ParsedFile(IndexedTree(opts, fe, files[k], turns[k].data, turns[k].cached, true), files[k])
              && turns[k].cached == StoreEntry(turns[k].data, hasStore, states[k].store, fe.hash64)
    {
      RanTurn(files, states, turns, |files|, opts, fe, autogen, hasStore, k);
    }
  }

  /** The turn for a file given for the first time reads the entry the
      loop started with, for every such file. */
  lemma RanFirstReads(files: seq<nat>, states: seq<Indexing>, turns: seq<Turn>,
                      opts: Options, fe: Frontend, autogen: bool, hasStore: bool)
    requires Ran(files, states, turns, |files|, opts, fe, autogen, hasStore)
    requires forall k :: 0 <= k < |files| ==> files[k] < |states[0].files|
    ensures forall k :: 0 <= k < |files| && files[k] !in files[..k] ==>
              turns[k].data == ReadData(states[0].files[files[k]], files[k], opts, fe, autogen)
  {
    forall k | 0 <= k < |files| && files[k] !in files[..k]
      ensures turns[k].data == ReadData(states[0].files[files[k]], files[k], opts, fe, autogen)
    {
      FirstTurnReads(files, states, turns, opts, fe, autogen, hasStore, k);
    }
  }

  /** The loop of `index` on this thread: each file is read, indexed
      with its plugins, followed by the files the plugins generate, and
      the trees so far are cached. `trees[k]`, `generated[k]` and
      `pluginFilesOf[k]` are what the turn for `files[k]` produced; the
      count is the number of files the plugins generated, each of them
      entered into the table. `states` are the states between the turns,
      from the one the loop starts in to the one it ends in, and
      `turns[k]` is the turn for `files[k]`, with the entry it indexed
      and what the store had for it. */
  method IndexSequentially(gs: FileTable, files: seq<nat>, opts: Options, kv: KeyValueStore?, fe: Frontend)
    returns (raised: bool, unsorted: seq<ParsedFile>, pluginFileCount: nat,
             ghost trees: seq<ParsedFile>, ghost generated: seq<seq<ParsedFile>>, ghost pluginFilesOf: seq<seq<File>>,
             ghost states: seq<Indexing>, ghost turns: seq<Turn>)
    requires gs.Valid()
    requires forall k :: 0 <= k < |files| ==> 0 < files[k] < |gs.files|
    modifies gs`files, gs`errors, kv
    ensures !raised ==> SequentialSoFar(old(gs.files), old(gs.errors), old(StoreOf(kv)), gs.files, gs.errors, StoreOf(kv),
                            files, |files|, unsorted, pluginFileCount, trees, generated, pluginFilesOf, states, turns,
                            opts, fe, gs.runningUnderAutogen, kv != null)
    ensures !raised ==> |trees| == |files| && |generated| == |files| && |pluginFilesOf| == |files|
    ensures !raised ==> forall k :: 0 <= k < |files| ==> trees[k].file == files[k] && |generated[k]| == |pluginFilesOf[k]|
    ensures !raised ==> unsorted == Batches(trees, generated)
    ensures !raised ==> pluginFileCount == |Flatten(pluginFilesOf)| == |Flatten(generated)|
    ensures !raised ==> |gs.files| == |old(gs.files)| + pluginFileCount
    ensures !raised ==> forall i :: 0 <= i < pluginFileCount ==>
              && Flatten(generated)[i].file == |old(gs.files)| + i
              && gs.files[|old(gs.files)| + i].path == Flatten(pluginFilesOf)[i].path
    ensures !raised ==> |unsorted| == |files| + pluginFileCount
    ensures !raised ==> forall i :: 0 <= i < |unsorted| ==> unsorted[i].file < |gs.files|
    ensures !raised ==> IndexedFiles(unsorted, files, |files|)
    ensures !raised ==> |states| == |files| + 1 && |turns| == |files|
    ensures !raised ==> Ran(files, states, turns, |files|, opts, fe, gs.runningUnderAutogen, kv != null)
    ensures !raised ==> states[0] == Indexing(old(gs.files), old(gs.errors), old(StoreOf(kv)), [], 0)
    ensures !raised ==> states[|files|] == Indexing(gs.files, gs.errors, StoreOf(kv), unsorted, pluginFileCount)
    ensures !raised ==> forall k :: 0 <= k < |files| ==>
              trees[k] == turns[k].parsed && generated[k] == turns[k].generated.trees && pluginFilesOf[k] == turns[k].pluginFiles
    ensures !raised ==> forall k :: 0 <= k < |files| ==>
              trees[k].tree == IndexedTree(opts, fe, files[k], turns[k].data, turns[k].cached, true)
    ensures !raised ==> forall k :: 0 <= k < |files| && files[k] !in files[..k] ==>
              turns[k].data == ReadData(old(gs.files)[files[k]], files[k], opts, fe, gs.runningUnderAutogen)
    ensures !raised ==> kv != null && (forall i, j :: 0 <= i < j < |files| ==> files[i] != files[j]) ==>
              kv.entries == CacheWrites(old(kv.entries), gs.files, unsorted, fe.hash64)
    ensures raised ==> SequentialRaised(old(gs.files), old(gs.errors), old(StoreOf(kv)), gs.files, gs.errors, StoreOf(kv),
                                        files, states, turns, opts, fe, gs.runningUnderAutogen, kv != null)
    ensures NoneRaised(files, states, |turns|, opts, fe, gs.runningUnderAutogen)
  {
    unsorted, pluginFileCount := [], 0;
    trees, generated, pluginFilesOf := [], [], [];
    states, turns := [Indexing(gs.files, gs.errors, StoreOf(kv), [], 0)], [];
    raised := false;
    var k := 0;
    while k < |files|
      invariant 0 <= k <= |files| && gs.Valid()
      invariant SequentialSoFar(old(gs.files), old(gs.errors), old(StoreOf(kv)), gs.files, gs.errors, StoreOf(kv),
                                files, k, unsorted, pluginFileCount, trees, generated, pluginFilesOf, states, turns,
                                opts, fe, gs.runningUnderAutogen, kv != null)
      invariant NoneRaised(files, states, k, opts, fe, gs.runningUnderAutogen) && !raised
    {
      ghost var before := states;
      raised, unsorted, pluginFileCount, trees, generated, pluginFilesOf, states, turns :=
        IndexTurn(gs, files, k, opts, kv, fe, old(gs.files), old(gs.errors), old(StoreOf(kv)),
                  unsorted, pluginFileCount, trees, generated, pluginFilesOf, states, turns);
      if raised {
        // The exception leaves `index`; nothing after the read happens.
        return;
      }
      NoneRaisedSnoc(files, before, states, k, opts, fe, gs.runningUnderAutogen);
      k := k + 1;
    }
    SequentialDone(old(gs.files), old(gs.errors), old(StoreOf(kv)), gs.files, gs.errors, StoreOf(kv),
                   files, unsorted, pluginFileCount, trees, generated, pluginFilesOf, states, turns,
                   opts, fe, gs.runningUnderAutogen, kv != null);
  }

  /** One turn of the loop of `IndexSequentially`: the input `files[k]`,
      indexed with its plugins and the files they generate, and then the
      trees so far written to the store. */
  method IndexTurn(gs: FileTable, files: seq<nat>, k: nat, opts: Options, kv: KeyValueStore?, fe: Frontend,
                   ghost fs0: seq<File>, ghost errors0: seq<Diagnostic>, ghost store0: map<string, Expr>,
                   unsorted: seq<ParsedFile>, count: nat,
                   ghost trees: seq<ParsedFile>, ghost generated: seq<seq<ParsedFile>>, ghost pluginFilesOf: seq<seq<File>>,
                   ghost states: seq<Indexing>, ghost turns: seq<Turn>)
    returns (raised: bool, unsorted': seq<ParsedFile>, count': nat,
             ghost trees': seq<ParsedFile>, ghost generated': seq<seq<ParsedFile>>, ghost pluginFilesOf': seq<seq<File>>,
             ghost states': seq<Indexing>, ghost turns': seq<Turn>)
    requires gs.Valid() && k < |files|
    requires SequentialSoFar(fs0, errors0, store0, gs.files, gs.errors, StoreOf(kv), files, k, unsorted, count,
                             trees, generated, pluginFilesOf, states, turns, opts, fe, gs.runningUnderAutogen, kv != null)
    modifies gs`files, gs`errors, kv
    ensures gs.Valid()
    ensures raised ==> && SequentialRaised(fs0, errors0, store0, gs.files, gs.errors, StoreOf(kv), files, states', turns',
                                           opts, fe, gs.runningUnderAutogen, kv != null)
                       && states' == states && turns' == turns
    ensures !raised ==> && 0 < files[k] < |states[k].files|
                        && !ReadRaises(states[k].files[files[k]], files[k], opts, fe, gs.runningUnderAutogen)
                        && |states'| == k + 2 && states'[..k + 1] == states
    ensures !raised ==>
              SequentialSoFar(fs0, errors0, store0, gs.files, gs.errors, StoreOf(kv), files, k + 1, unsorted', count',
                              trees', generated', pluginFilesOf', states', turns', opts, fe, gs.runningUnderAutogen, kv != null)
  {
    ghost var before, errors, store := gs.files, gs.errors, StoreOf(kv);
    var r, parsed, pluginFiles, more, _, _, t := IndexInput(gs, files[k], opts, kv, fe);
    raised := r;
    if raised {
      return raised, unsorted, count, trees, generated, pluginFilesOf, states, turns;
    }
    unsorted', count', trees', generated', pluginFilesOf', states', turns' :=
      FinishTurn(gs, files, k, opts, kv, fe, fs0, errors0, store0, unsorted, count, trees, generated, pluginFilesOf,
                 states, turns, before, errors, store, parsed, pluginFiles, more, t);
  }

  /** The rest of a turn once the input was read without raising: the
      trees so far are written to the store, and the loop invariant
      holds for one more input. */
  method FinishTurn(gs: FileTable, files: seq<nat>, k: nat, opts: Options, kv: KeyValueStore?, fe: Frontend,
                    ghost fs0: seq<File>, ghost errors0: seq<Diagnostic>, ghost store0: map<string, Expr>,
                    unsorted: seq<ParsedFile>, count: nat,
                    ghost trees: seq<ParsedFile>, ghost generated: seq<seq<ParsedFile>>, ghost pluginFilesOf: seq<seq<File>>,
                    ghost states: seq<Indexing>, ghost turns: seq<Turn>,
                    ghost before: seq<File>, ghost errors: seq<Diagnostic>, ghost store: map<string, Expr>,
                    parsed: ParsedFile, pluginFiles: seq<File>, more: seq<ParsedFile>, ghost t: Turn)
    returns (unsorted': seq<ParsedFile>, count': nat,
             ghost trees': seq<ParsedFile>, ghost generated': seq<seq<ParsedFile>>, ghost pluginFilesOf': seq<seq<File>>,
             ghost states': seq<Indexing>, ghost turns': seq<Turn>)
    requires gs.Valid() && k < |files|
    requires SequentialSoFar(fs0, errors0, store0, before, errors, store, files, k, unsorted, count,
                             trees, generated, pluginFilesOf, states, turns, opts, fe, gs.runningUnderAutogen, kv != null)
    requires 0 < files[k] < |before| && StoreOf(kv) == store
    requires t == InputTurn(before, files[k], opts, fe, gs.runningUnderAutogen, kv != null, store)
    requires parsed == t.parsed && pluginFiles == t.pluginFiles && more == t.generated.trees
    requires gs.files == t.files && gs.errors == errors + t.errors
    modifies kv
    ensures |states'| == k + 2 && states'[..k + 1] == states
    ensures SequentialSoFar(fs0, errors0, store0, gs.files, gs.errors, StoreOf(kv), files, k + 1, unsorted', count',
                            trees', generated', pluginFilesOf', states', turns', opts, fe, gs.runningUnderAutogen, kv != null)
  {
    TurnOfPlaced(states[k], files[k], opts, fe, gs.runningUnderAutogen, kv != null);
    unsorted', count' := unsorted + [parsed] + more, count + |pluginFiles|;
    trees', generated', pluginFilesOf' := trees + [parsed], generated + [more], pluginFilesOf + [pluginFiles];
    SequentialTurn(fs0, errors0, store0, before, errors, store, files, k, unsorted, count, trees, generated, pluginFilesOf,
                   states, turns, kv != null, fe.hash64, IsTurnFor(opts, fe, gs.runningUnderAutogen, kv != null), t, gs.files, unsorted');
    CacheTrees(gs, kv, unsorted', fe.hash64);
    SequentialStep(fs0, errors0, store0, before, errors, store, files, k, unsorted, count, trees, generated, pluginFilesOf,
                   states, turns, kv != null, fe.hash64, IsTurnFor(opts, fe, gs.runningUnderAutogen, kv != null), t,
                   gs.files, gs.errors, StoreOf(kv), unsorted', count', trees', generated', pluginFilesOf');
    states', turns' := states + [Indexing(gs.files, gs.errors, StoreOf(kv), unsorted', count')], turns + [t];
    assert states'[..k + 1] == states;
  }


  /** Reading `file` in state `s` raised, leaving table `fs`, errors
      `errors` and store `store`: the file was read and its level set,
      and the store is as it was. */
  ghost predicate RaisedReading(s: Indexing, file: nat, fs: seq<File>, errors: seq<Diagnostic>, store: map<string, Expr>,
                                opts: Options, fe: Frontend, autogen: bool) {
    && 0 < file < |s.files| && ReadRaises(s.files[file], file, opts, fe, autogen)
    && fs == s.files[file := ReadData(s.files[file], file, opts, fe, autogen)]
    && errors == s.errors + ReadErrors(s.files[file], file, opts, fe, autogen)
    && store == s.store
  }

  /** No input among the first `n` raised when it was read. */
  ghost predicate NoneRaised(files: seq<nat>, states: seq<Indexing>, n: nat, opts: Options, fe: Frontend, autogen: bool) {
    && n <= |files| && n <= |states|
    && forall k :: 0 <= k < n ==>
         0 < files[k] < |states[k].files| && !ReadRaises(states[k].files[files[k]], files[k], opts, fe, autogen)
  }

  lemma NoneRaisedSnoc(files: seq<nat>, states: seq<Indexing>, states': seq<Indexing>, n: nat,
                       opts: Options, fe: Frontend, autogen: bool)
    requires NoneRaised(files, states, n, opts, fe, autogen) && n < |files| && |states| == n + 1
    requires 0 < files[n] < |states[n].files| && !ReadRaises(states[n].files[files[n]], files[n], opts, fe, autogen)
    requires |states'| == n + 2 && states'[..n + 1] == states
    ensures NoneRaised(files, states', n + 1, opts, fe, autogen)
  {
    forall k | 0 <= k < n + 1
      ensures 0 < files[k] < |states'[k].files| && !ReadRaises(states'[k].files[files[k]], files[k], opts, fe, autogen)
    {
      assert states'[k] == states[k];
    }
  }

  /** The loop of `index` stopped at the `|turns|`th input, whose reading
      raised: the turns before it ran from the table, errors and store
      before the loop, as in `SequentialSoFar`, and the read left table
      `fs`, errors `errors` and store `store`. */
  ghost predicate SequentialRaised(fs0: seq<File>, errors0: seq<Diagnostic>, store0: map<string, Expr>,
                                   fs: seq<File>, errors: seq<Diagnostic>, store: map<string, Expr>,
                                   files: seq<nat>, states: seq<Indexing>, turns: seq<Turn>,
                                   opts: Options, fe: Frontend, autogen: bool, hasStore: bool) {
    && |turns| < |files| && |states| == |turns| + 1
    && Ran(files, states, turns, |turns|, opts, fe, autogen, hasStore)
    && states[0] == Indexing(fs0, errors0, store0, [], 0)
    && RaisedReading(states[|turns|], files[|turns|], fs, errors, store, opts, fe, autogen)
  }

  /** The invariant of the loop of `IndexSequentially` after `k` turns:
      the loop started with table `fs0`, errors `errors0` and store
      `store0`, and is now at table `fs`, errors `errors` and store
      `store`. */
  ghost predicate SequentialSoFar(fs0: seq<File>, errors0: seq<Diagnostic>, store0: map<string, Expr>,
                                  fs: seq<File>, errors: seq<Diagnostic>, store: map<string, Expr>,
                                  files: seq<nat>, k: nat, unsorted: seq<ParsedFile>, count: nat,
                                  trees: seq<ParsedFile>, generated: seq<seq<ParsedFile>>, pluginFilesOf: seq<seq<File>>,
                                  states: seq<Indexing>, turns: seq<Turn>,
                                  opts: Options, fe: Frontend, autogen: bool, hasStore: bool)
  {
    SoFarWith(fs0, errors0, store0, fs, errors, store, files, k, unsorted, count, trees, generated, pluginFilesOf,
              states, turns, hasStore, fe.hash64, IsTurnFor(opts, fe, autogen, hasStore))
  }

  /** `SequentialSoFar` for turns related to their states by `rel`. */
  ghost predicate SoFarWith(fs0: seq<File>, errors0: seq<Diagnostic>, store0: map<string, Expr>,
                            fs: seq<File>, errors: seq<Diagnostic>, store: map<string, Expr>,
                            files: seq<nat>, k: nat, unsorted: seq<ParsedFile>, count: nat,
                            trees: seq<ParsedFile>, generated: seq<seq<ParsedFile>>, pluginFilesOf: seq<seq<File>>,
                            states: seq<Indexing>, turns: seq<Turn>,
                            hasStore: bool, hash64: string -> Hash64, rel: (Indexing, nat, Turn) -> bool)
  {
    && IndexedSoFar(fs, files, k, |fs0|, unsorted, count, trees, generated, pluginFilesOf)
    && |states| == k + 1 && |turns| == k
    && RanWith(files, states, turns, k, hasStore, hash64, rel)
    && states[0] == Indexing(fs0, errors0, store0, [], 0)
    && states[k] == Indexing(fs, errors, store, unsorted, count)
    && (forall m :: 0 <= m < k ==>
          trees[m] == turns[m].parsed && generated[m] == turns[m].generated.trees && pluginFilesOf[m] == turns[m].pluginFiles)
  }

  /** Turn `t` is shaped for `file` in table `fs`, with each generated
      file entered under its plugin path. */
  ghost predicate TurnPlaced(fs: seq<File>, file: nat, t: Turn) {
    && Shaped(fs, t)
    && t.parsed.file == file
    && |t.generated.trees| == |t.pluginFiles|
    && (forall i :: 0 <= i < |t.generated.trees| ==> t.files[|fs| + i].path == t.pluginFiles[i].path)
  }

  /** The turn for `file` in state `s` is placed in its table. */
  lemma TurnOfPlaced(s: Indexing, file: nat, opts: Options, fe: Frontend, autogen: bool, hasStore: bool)
    requires 0 < file < |s.files|
    ensures TurnPlaced(s.files, file, TurnOf(s, file, opts, fe, autogen, hasStore))
    ensures IsTurnFor(opts, fe, autogen, hasStore)(s, file, TurnOf(s, file, opts, fe, autogen, hasStore))
  {
  }

  /** After the turn for the next file, every tree so far is for an
      entry of the table. */
  lemma SequentialTurn(fs0: seq<File>, errors0: seq<Diagnostic>, store0: map<string, Expr>,
                       fs: seq<File>, errors: seq<Diagnostic>, store: map<string, Expr>,
                       files: seq<nat>, k: nat, unsorted: seq<ParsedFile>, count: nat,
                       trees: seq<ParsedFile>, generated: seq<seq<ParsedFile>>, pluginFilesOf: seq<seq<File>>,
                       states: seq<Indexing>, turns: seq<Turn>,
                       hasStore: bool, hash64: string -> Hash64, rel: (Indexing, nat, Turn) -> bool, t: Turn,
                       fs': seq<File>, unsorted': seq<ParsedFile>)
    requires k < |files|
    requires SoFarWith(fs0, errors0, store0, fs, errors, store, files, k, unsorted, count,
                       trees, generated, pluginFilesOf, states, turns, hasStore, hash64, rel)
    requires TurnPlaced(fs, files[k], t)
    requires fs' == t.files && unsorted' == unsorted + [t.parsed] + t.generated.trees
    ensures forall i :: 0 <= i < |unsorted'| ==> unsorted'[i].file < |fs'|
  {
    TurnIndexedSoFar(fs, files, k, |fs0|, unsorted, count, trees, generated, pluginFilesOf, t);
  }

  /** The turn for the next file, followed by caching the trees so far,
      keeps the invariant. */
  lemma SequentialStep(fs0: seq<File>, errors0: seq<Diagnostic>, store0: map<string, Expr>,
                       fs: seq<File>, errors: seq<Diagnostic>, store: map<string, Expr>,
                       files: seq<nat>, k: nat, unsorted: seq<ParsedFile>, count: nat,
                       trees: seq<ParsedFile>, generated: seq<seq<ParsedFile>>, pluginFilesOf: seq<seq<File>>,
                       states: seq<Indexing>, turns: seq<Turn>,
                       hasStore: bool, hash64: string -> Hash64, rel: (Indexing, nat, Turn) -> bool, t: Turn,
                       fs': seq<File>, errors': seq<Diagnostic>, store': map<string, Expr>,
                       unsorted': seq<ParsedFile>, count': nat,
                       trees': seq<ParsedFile>, generated': seq<seq<ParsedFile>>, pluginFilesOf': seq<seq<File>>)
    requires k < |files|
    requires SoFarWith(fs0, errors0, store0, fs, errors, store, files, k, unsorted, count,
                       trees, generated, pluginFilesOf, states, turns, hasStore, hash64, rel)
    requires TurnPlaced(fs, files[k], t) && rel(states[k], files[k], t)
    requires fs' == t.files && errors' == errors + t.errors
    requires unsorted' == unsorted + [t.parsed] + t.generated.trees && count' == count + |t.pluginFiles|
    requires trees' == trees + [t.parsed] && generated' == generated + [t.generated.trees]
    requires pluginFilesOf' == pluginFilesOf + [t.pluginFiles]
    requires forall i :: 0 <= i < |unsorted'| ==> unsorted'[i].file < |fs'|
    requires hasStore ==> store' == CacheWrites(store, fs', unsorted', hash64)
    requires !hasStore ==> store' == store
    ensures SoFarWith(fs0, errors0, store0, fs', errors', store', files, k + 1, unsorted', count',
                      trees', generated', pluginFilesOf', states + [Indexing(fs', errors', store', unsorted', count')],
                      turns + [t], hasStore, hash64, rel)
  {
    var next := Indexing(fs', errors', store', unsorted', count');
    TurnIndexedSoFar(fs, files, k, |fs0|, unsorted, count, trees, generated, pluginFilesOf, t);
    AdvanceIs(states[k], t, hasStore, hash64, fs', errors', store', unsorted', count');
    RanStep(files, states, turns, k, hasStore, hash64, rel, t, next);
    TurnsRecordedSnoc(k, trees, generated, pluginFilesOf, turns, t);
    assert (states + [next])[0] == states[0] && (states + [next])[k + 1] == next;
  }

  /** The trees, generated trees and plugin files recorded so far stay
      those of the turns after one more turn. */
  lemma TurnsRecordedSnoc(k: nat, trees: seq<ParsedFile>, generated: seq<seq<ParsedFile>>, pluginFilesOf: seq<seq<File>>,
                          turns: seq<Turn>, t: Turn)
    requires |turns| == k && |trees| == k && |generated| == k && |pluginFilesOf| == k
    requires forall m :: 0 <= m < k ==>
               trees[m] == turns[m].parsed && generated[m] == turns[m].generated.trees && pluginFilesOf[m] == turns[m].pluginFiles
    ensures forall m :: 0 <= m < k + 1 ==>
              && (trees + [t.parsed])[m] == (turns + [t])[m].parsed
              && (generated + [t.generated.trees])[m] == (turns + [t])[m].generated.trees
              && (pluginFilesOf + [t.pluginFiles])[m] == (turns + [t])[m].pluginFiles
  {
  }

  /** One turn shaped for the next file keeps the invariant on the trees
      and the table. */
  lemma TurnIndexedSoFar(fs: seq<File>, files: seq<nat>, k: nat, base: nat, unsorted: seq<ParsedFile>, count: nat,
                         trees: seq<ParsedFile>, generated: seq<seq<ParsedFile>>, pluginFilesOf: seq<seq<File>>, t: Turn)
    requires k < |files| && IndexedSoFar(fs, files, k, base, unsorted, count, trees, generated, pluginFilesOf)
    requires TurnPlaced(fs, files[k], t)
    ensures IndexedSoFar(t.files, files, k + 1, base, unsorted + [t.parsed] + t.generated.trees, count + |t.pluginFiles|,
                         trees + [t.parsed], generated + [t.generated.trees], pluginFilesOf + [t.pluginFiles])
  {
    IndexedSoFarStep(fs, t.files, files, k, base, unsorted, count, trees, generated, pluginFilesOf,
                     t.parsed, t.generated.trees, t.pluginFiles);
  }

  /** What the loop of `IndexSequentially` has done once every file had
      its turn. */
  lemma SequentialDone(fs0: seq<File>, errors0: seq<Diagnostic>, store0: map<string, Expr>,
                       fs: seq<File>, errors: seq<Diagnostic>, store: map<string, Expr>,
                       files: seq<nat>, unsorted: seq<ParsedFile>, count: nat,
                       trees: seq<ParsedFile>, generated: seq<seq<ParsedFile>>, pluginFilesOf: seq<seq<File>>,
                       states: seq<Indexing>, turns: seq<Turn>,
                       opts: Options, fe: Frontend, autogen: bool, hasStore: bool)
    requires SequentialSoFar(fs0, errors0, store0, fs, errors, store, files, |files|, unsorted, count,
                             trees, generated, pluginFilesOf, states, turns, opts, fe, autogen, hasStore)
    ensures |trees| == |files| && |generated| == |files| && |pluginFilesOf| == |files|
    ensures forall k :: 0 <= k < |files| ==> trees[k].file == files[k] && |generated[k]| == |pluginFilesOf[k]|
    ensures unsorted == Batches(trees, generated)
    ensures count == |Flatten(pluginFilesOf)| == |Flatten(generated)|
    ensures |fs| == |fs0| + count
    ensures forall i :: 0 <= i < count ==>
              && Flatten(generated)[i].file == |fs0| + i
              && fs[|fs0| + i].path == Flatten(pluginFilesOf)[i].path
    ensures |unsorted| == |files| + count
    ensures forall i :: 0 <= i < |unsorted| ==> unsorted[i].file < |fs|
    ensures IndexedFiles(unsorted, files, |files|)
    ensures |states| == |files| + 1 && |turns| == |files|
    ensures Ran(files, states, turns, |files|, opts, fe, autogen, hasStore)
    ensures states[0] == Indexing(fs0, errors0, store0, [], 0)
    ensures states[|files|] == Indexing(fs, errors, store, unsorted, count)
    ensures forall k :: 0 <= k < |files| ==>
              trees[k] == turns[k].parsed && generated[k] == turns[k].generated.trees && pluginFilesOf[k] == turns[k].pluginFiles
    ensures forall k :: 0 <= k < |files| ==>
              trees[k].tree == IndexedTree(opts, fe, files[k], turns[k].data, turns[k].cached, true)
    ensures forall k :: 0 <= k < |files| && files[k] !in files[..k] ==>
              turns[k].data == ReadData(fs0[files[k]], files[k], opts, fe, autogen)
    ensures hasStore && (forall i, j :: 0 <= i < j < |files| ==> files[i] != files[j]) ==>
              store == CacheWrites(store0, fs, unsorted, fe.hash64)
  {
    RanTrees(files, states, turns, opts, fe, autogen, hasStore);
    RanFirstReads(files, states, turns, opts, fe, autogen, hasStore);
    if hasStore && (forall i, j :: 0 <= i < j < |files| ==> files[i] != files[j]) {
      RanStore(files, states, turns, opts, fe, autogen);
    }
  }

  /** The loop invariant of `IndexSequentially` after `k` turns, with `fs`
      the file table and `base` its size before the loop. */
  ghost predicate IndexedSoFar(fs: seq<File>, files: seq<nat>, k: nat, base: nat, unsorted: seq<ParsedFile>, count: nat,
                               trees: seq<ParsedFile>, generated: seq<seq<ParsedFile>>, pluginFilesOf: seq<seq<File>>)
  {
    && k <= |files|
    && (forall m :: 0 <= m < |files| ==> 0 < files[m] < base)
    && |trees| == k && |generated| == k && |pluginFilesOf| == k
    && (forall m :: 0 <= m < k ==> trees[m].file == files[m] && |generated[m]| == |pluginFilesOf[m]|)
    && unsorted == Batches(trees, generated)
    && count == |Flatten(pluginFilesOf)| == |Flatten(generated)|
    && |fs| == base + count
    && (forall i :: 0 <= i < count ==>
          Flatten(generated)[i].file == base + i && fs[base + i].path == Flatten(pluginFilesOf)[i].path)
    && |unsorted| == k + count
    && (forall i :: 0 <= i < |unsorted| ==> unsorted[i].file < |fs|)
    && IndexedFiles(unsorted, files, k)
  }

  /** One turn of the loop keeps its invariant. */
  lemma IndexedSoFarStep(before: seq<File>, after: seq<File>, files: seq<nat>, k: nat, base: nat,
                         unsorted: seq<ParsedFile>, count: nat,
                         trees: seq<ParsedFile>, generated: seq<seq<ParsedFile>>, pluginFilesOf: seq<seq<File>>,
                         parsed: ParsedFile, more: seq<ParsedFile>, pluginFiles: seq<File>)
    requires k < |files| && IndexedSoFar(before, files, k, base, unsorted, count, trees, generated, pluginFilesOf)
    requires |after| == |before| + |pluginFiles| && |more| == |pluginFiles|
    requires forall j :: 0 <= j < |before| && j != files[k] ==> after[j] == before[j]
    requires parsed.file == files[k]
    requires forall i :: 0 <= i < |more| ==> more[i].file == |before| + i && after[more[i].file].path == pluginFiles[i].path
    ensures IndexedSoFar(after, files, k + 1, base, unsorted + [parsed] + more, count + |pluginFiles|,
                         trees + [parsed], generated + [more], pluginFilesOf + [pluginFiles])
  {
    EnteredStep(before, after, base, files[k], Flatten(generated), Flatten(pluginFilesOf), more, pluginFiles);
    CoverageStep(files, k, unsorted, parsed, more);
    BatchesSnoc(trees, generated, parsed, more);
    FlattenSnoc(generated, more);
    FlattenSnoc(pluginFilesOf, pluginFiles);
    var next := unsorted + [parsed] + more;
    forall i | 0 <= i < |next| ensures next[i].file < |after| {
      if i < |unsorted| {
        assert next[i] == unsorted[i];
      } else if i == |unsorted| {
        assert next[i] == parsed;
      } else {
        assert next[i] == more[i - |unsorted| - 1];
      }
    }
  }

  /** After one turn, the files entered so far are followed by the ones
      this turn entered, and the generated trees name them in order. */
  lemma EnteredStep(before: seq<File>, after: seq<File>, base: nat, file: nat,
                    gen: seq<ParsedFile>, fs: seq<File>, more: seq<ParsedFile>, pluginFiles: seq<File>)
    requires file < base && |gen| == |fs| && |before| == base + |gen|
    requires |after| == |before| + |pluginFiles| && |more| == |pluginFiles|
    requires forall j :: 0 <= j < |before| && j != file ==> after[j] == before[j]
    requires forall i :: 0 <= i < |gen| ==> gen[i].file == base + i && before[base + i].path == fs[i].path
    requires forall i :: 0 <= i < |more| ==> more[i].file == |before| + i && after[more[i].file].path == pluginFiles[i].path
    ensures forall i :: 0 <= i < |gen| + |more| ==>
              && (gen + more)[i].file == base + i
              && after[base + i].path == (fs + pluginFiles)[i].path
  {
    forall i | 0 <= i < |gen| + |more|
      ensures (gen + more)[i].file == base + i && after[base + i].path == (fs + pluginFiles)[i].path
    {
      if i < |gen| {
        assert (gen + more)[i] == gen[i] && (fs + pluginFiles)[i] == fs[i];
        assert after[base + i] == before[base + i];
      } else {
        assert (gen + more)[i] == more[i - |gen|] && (fs + pluginFiles)[i] == pluginFiles[i - |gen|];
      }
    }
  }

  /** `index` for at most two files, run on this thread, or the trees the
      worker pool produced for more (`pooled`, computed by code not
      modelled here), then sorted by file. Run on this thread, the trees
      are those of the loop above, reordered, and the count is the number
      of files the plugins generated. */
  method Index(gs: FileTable, files: seq<nat>, opts: Options, kv: KeyValueStore?, fe: Frontend, pooled: seq<ParsedFile>)
    returns (raised: bool, ret: seq<ParsedFile>, pluginFileCount: nat, ghost indexed: seq<ParsedFile>,
             ghost trees: seq<ParsedFile>, ghost generated: seq<seq<ParsedFile>>, ghost pluginFilesOf: seq<seq<File>>,
             ghost states: seq<Indexing>, ghost turns: seq<Turn>)
    requires gs.Valid()
    requires forall k :: 0 <= k < |files| ==> 0 < files[k] < |gs.files|
    modifies gs`files, gs`errors, kv
    ensures opts.stopAfterPhase == Init ==>
              ret == [] && pluginFileCount == 0 && gs.files == old(gs.files) && gs.errors == old(gs.errors)
    ensures SortedByFile(ret)
    ensures multiset(ret) == multiset(indexed)
    ensures !raised && opts.stopAfterPhase != Init && |files| < 3 ==>
              SequentialSoFar(old(gs.files), old(gs.errors), old(StoreOf(kv)), gs.files, gs.errors, StoreOf(kv),
                              files, |files|, indexed, pluginFileCount, trees, generated, pluginFilesOf, states, turns,
                              opts, fe, gs.runningUnderAutogen, kv != null)
    ensures !raised && opts.stopAfterPhase != Init && |files| < 3 ==>
              && indexed == Batches(trees, generated)
              && |ret| == |files| + pluginFileCount
              && IndexedFiles(ret, files, |files|)
    ensures opts.stopAfterPhase != Init && |files| >= 3 ==> indexed == pooled && pluginFileCount == 0
    ensures raised ==> && opts.stopAfterPhase != Init && |files| < 3
                       && SequentialRaised(old(gs.files), old(gs.errors), old(StoreOf(kv)), gs.files, gs.errors, StoreOf(kv),
                                           files, states, turns, opts, fe, gs.runningUnderAutogen, kv != null)
    ensures NoneRaised(files, states, |turns|, opts, fe, gs.runningUnderAutogen)
  {
    pluginFileCount := 0;
    indexed, trees, generated, pluginFilesOf, states, turns := [], [], [], [], [], [];
    raised := false;
    if opts.stopAfterPhase == Init {
      return false, [], 0, [], [], [], [], [], [];
    }
    var unsorted: seq<ParsedFile>;
    if |files| < 3 {
      raised, unsorted, pluginFileCount, trees, generated, pluginFilesOf, states, turns := IndexSequentially(gs, files, opts, kv, fe);
      if raised {
        return raised, [], pluginFileCount, [], trees, generated, pluginFilesOf, states, turns;
      }
    } else {
      unsorted := pooled;
    }
    indexed := unsorted;
    ret := SortedByFileCopy(unsorted);
    if |files| < 3 {
      assert |ret| == |multiset(ret)| == |multiset(unsorted)| == |unsorted|;
      CoveragePermuted(unsorted, ret, files, |files|);
    }
  }

}
