/** Where an extraction ends up (dtrx/dtrx.py:122-160, 944-1050, 1485-1494):
    the collision-safe name checkers, the ordered table of placement
    handlers, the destination the single-entry handler picks, and the path
    rewrite of the flat handler.  The filesystem is a set of names already
    taken. */
module Placement {

  import opened Wrappers
  import opened Strings
  import opened Formats
  import Contents
  import Policy
  import Pipeline

  // ---------------------------------------------------------------------------
  // Name checkers

  /** `FilenameChecker` creates files, `DirectoryChecker` directories; both
      probe names the same way. */
  datatype Checker = FileChecker | DirChecker

  /** `name_checker`: the compressed-file classes write a single file. */
  function NameChecker(v: Variant): (c: Checker)
    ensures c == FileChecker <==> v in {CompressionExtractor, GemMetadataExtractor}
  {
    if v in {CompressionExtractor, GemMetadataExtractor} then FileChecker else DirChecker
  }

  /** The names `check` probes in order: the name itself, then `.1` to `.9`. */
  function Probe(original: string, i: nat): string
    requires i < 10
  {
    if i == 0 then original else original + "." + Pipeline.Decimal(i)
  }

  /** A name longer than every taken name, so certainly free: the model's
      stand-in for the random suffix of `mkstemp`/`mkdtemp`, which likewise
      starts with the original name and a dot. */
  method FreshName(original: string, taken: set<string>) returns (r: string)
    ensures r !in taken
    ensures StartsWith(r, original + ".")
  {
    var n: nat := 0;
    var rest := taken;
    while rest != {}
      invariant rest <= taken
      invariant forall t :: t in taken - rest ==> |t| <= n
      decreases |rest|
    {
      var t :| t in rest;
      if |t| > n {
        n := |t|;
      }
      rest := rest - {t};
    }
    r := original + "." + seq(n + 1, _ => 'x');
    assert r[..|original + "."|] == original + ".";
  }

  /** `FilenameChecker.check`: the first probe not yet taken, reserving it,
      and a fresh name when all ten are taken.  The returned name was never
      taken before, and the set of taken names grows by exactly that name. */
  method Check(original: string, taken: set<string>) returns (name: string, taken': set<string>)
    ensures name !in taken
    ensures taken' == taken + {name}
    ensures original !in taken ==> name == original
    ensures (exists i :: 0 <= i < 10 && Probe(original, i) == name && forall j :: 0 <= j < i ==> Probe(original, j) in taken)
         || ((forall j :: 0 <= j < 10 ==> Probe(original, j) in taken) && StartsWith(name, original + "."))
  {
    var i := 0;
    while i < 10
      invariant 0 <= i <= 10
      invariant forall j :: 0 <= j < i ==> Probe(original, j) in taken
      invariant i > 0 ==> original in taken
    {
      var candidate := Probe(original, i);
      if candidate !in taken {
        return candidate, taken + {candidate};
      }
      i := i + 1;
    }
    name := FreshName(original, taken);
    taken' := taken + {name};
  }

  /** With the name and `.1` taken, the checker picks `.2`. */
  lemma SecondSuffix(original: string)
    ensures Probe(original, 2) == original + ".2"
  {
    assert Pipeline.Decimal(2) == "2";
  }

  // ---------------------------------------------------------------------------
  // Handlers

  /** The flags that steer placement. */
  datatype Options = Options(flat: bool, overwrite: bool)

  datatype Handler = FlatHandler | OverwriteHandler | MatchHandler | EmptyHandler | BombHandler

  /** The handlers in the order `get_handler` tries them. */
  const Handlers: seq<Handler> := [FlatHandler, OverwriteHandler, MatchHandler, EmptyHandler, BombHandler]

  /** The `can_handle` predicates.  `okForMatch` is the one-entry policy's
      `ok_for_match()`. */
  predicate CanHandle(h: Handler, c: Contents.ContentType, o: Options, okForMatch: bool) {
    match h
    case FlatHandler => (o.flat && c != Contents.OneEntryKnown) || (o.overwrite && c == Contents.MatchingDirectory)
    case OverwriteHandler => (o.flat && c == Contents.OneEntryKnown) || (o.overwrite && c != Contents.MatchingDirectory)
    case MatchHandler => c == Contents.MatchingDirectory || (Contents.OneEntryUnknown(c) && okForMatch)
    case EmptyHandler => c == Contents.Empty
    case BombHandler => true
  }

  /** The first handler of the table that accepts the contents; the bomb
      handler accepts everything, so there always is one. */
  function SelectHandler(c: Contents.ContentType, o: Options, okForMatch: bool): (h: Handler)
    ensures CanHandle(h, c, o, okForMatch)
    ensures exists i :: (0 <= i < |Handlers| && Handlers[i] == h
      && forall j :: 0 <= j < i ==> !CanHandle(Handlers[j], c, o, okForMatch))
  {
    if CanHandle(FlatHandler, c, o, okForMatch) then
      assert Handlers[0] == FlatHandler;
      FlatHandler
    else if CanHandle(OverwriteHandler, c, o, okForMatch) then
      assert Handlers[1] == OverwriteHandler;
      OverwriteHandler
    else if CanHandle(MatchHandler, c, o, okForMatch) then
      assert Handlers[2] == MatchHandler;
      MatchHandler
    else if CanHandle(EmptyHandler, c, o, okForMatch) then
      assert Handlers[3] == EmptyHandler;
      EmptyHandler
    else
      assert Handlers[4] == BombHandler;
      BombHandler
  }

  /** The dispatch examples: a matching directory goes to the match handler
      unless overwriting, where the flat handler takes it; a compressed file
      under `--flat` is overwritten in place; empty output is removed; a
      single unexpected entry goes to the match handler only when the
      policy allows. */
  lemma HandlerExamples(ok: bool)
    ensures SelectHandler(Contents.MatchingDirectory, Options(false, false), ok) == MatchHandler
    ensures SelectHandler(Contents.MatchingDirectory, Options(false, true), ok) == FlatHandler
    ensures SelectHandler(Contents.OneEntryKnown, Options(true, false), ok) == OverwriteHandler
    ensures SelectHandler(Contents.Empty, Options(false, false), ok) == EmptyHandler
    ensures SelectHandler(Contents.OneEntryFile, Options(false, false), ok) == (if ok then MatchHandler else BombHandler)
  {
  }

  /** The cells of the placement table in the comment above the handlers. */
  datatype Row = FileRow | MatchRow | BombRow
  datatype Column = FlatColumn | OverwriteColumn | NoneColumn
  datatype Destination = IntoBasename | IntoHere | TempdirChecked | Checked(checker: Checker)

  /** The table as the comment states it. */
  function TableCell(r: Row, col: Column): Destination {
    match (r, col)
    case (FileRow, FlatColumn) => IntoBasename
    case (FileRow, OverwriteColumn) => IntoBasename
    case (FileRow, NoneColumn) => Checked(FileChecker)
    case (MatchRow, NoneColumn) => TempdirChecked
    case (MatchRow, _) => IntoHere
    case (BombRow, FlatColumn) => IntoHere
    case (BombRow, OverwriteColumn) => IntoBasename
    case (BombRow, NoneColumn) => Checked(DirChecker)
  }

  /** Where each handler puts the output of an extractor of class `v`. */
  function HandlerDestination(h: Handler, v: Variant): Option<Destination> {
    match h
    case FlatHandler => Some(IntoHere)
    case OverwriteHandler => Some(IntoBasename)
    case MatchHandler => Some(TempdirChecked)
    case EmptyHandler => None
    case BombHandler => Some(Checked(NameChecker(v)))
  }

  function RowContent(r: Row): Contents.ContentType {
    match r
    case FileRow => Contents.OneEntryKnown
    case MatchRow => Contents.MatchingDirectory
    case BombRow => Contents.Bomb
  }

  function ColumnOptions(col: Column): Options {
    match col
    case FlatColumn => Options(true, false)
    case OverwriteColumn => Options(false, true)
    case NoneColumn => Options(false, false)
  }

  /** The handler table agrees with the comment: for every extractor class
      whose contents land in a row, the handler chosen for a column puts them
      where the cell says. */
  lemma TableAgrees(v: Variant, contents: seq<Contents.TopEntry>, basename: string, col: Column, ok: bool)
    requires Contents.ContentsAfterExtract(v, contents, basename).ctype in {Contents.OneEntryKnown, Contents.MatchingDirectory, Contents.Bomb}
    ensures var c := Contents.ContentsAfterExtract(v, contents, basename).ctype;
      var r := if c == Contents.OneEntryKnown then FileRow else if c == Contents.MatchingDirectory then MatchRow else BombRow;
      HandlerDestination(SelectHandler(c, ColumnOptions(col), ok), v) == Some(TableCell(r, col))
  {
    var c := Contents.ContentsAfterExtract(v, contents, basename).ctype;
    if c == Contents.OneEntryKnown {
      assert v in {CompressionExtractor, GemMetadataExtractor};
    } else if c == Contents.Bomb {
      assert v !in {CompressionExtractor, GemMetadataExtractor};
    }
  }

  // ---------------------------------------------------------------------------
  // Getting the handler

  /** `get_handler`: a single entry of unknown fit first consults the
      one-entry policy (which may read input), then the table decides.
      Returns the handler, the policy state and the lines read. */
  function GetHandler(c: Contents.ContentType, o: Options, p: Policy.State<Policy.OneEntryChoice>, input: seq<string>)
    : (r: (Handler, Policy.State<Policy.OneEntryChoice>, nat))
    ensures r.2 <= |input|
    ensures !Contents.OneEntryUnknown(c) ==> r.1 == p && r.2 == 0
    ensures r.0 == SelectHandler(c, o, Policy.OkForMatch(r.1))
    ensures Contents.OneEntryUnknown(c) ==> r.1.current.Some? && r.1.permanent == p.permanent
  {
    if Contents.OneEntryUnknown(c) then
      var (q, k) := Policy.OneEntryPrep(p, input);
      (SelectHandler(c, o, Policy.OkForMatch(q)), q, k)
    else (SelectHandler(c, o, Policy.OkForMatch(p)), p, 0)
  }

  /** In batch mode a single unexpected entry is never moved out: the policy
      wraps, so the bomb handler puts the output in a checked directory. */
  lemma BatchWrapsOneEntry(c: Contents.ContentType, input: seq<string>)
    requires Contents.OneEntryUnknown(c)
    ensures GetHandler(c, Options(false, false), Policy.State(None, Some(Policy.Wrap)), input).0 == BombHandler
  {
  }

  // ---------------------------------------------------------------------------
  // The match handler's destination

  /** `MatchHandler.organize`: with the "here" policy the entry keeps its own
      name, without the trailing slash; otherwise it takes the archive's base
      name.  The chosen name then goes through the checker. */
  function MatchDestination(policy: Option<Policy.OneEntryChoice>, contentName: string, basename: string): (r: string)
    ensures policy == Some(Policy.Here) ==>
      && StartsWith(contentName, r) && (|r| > 0 ==> r[|r| - 1] != '/')
      && forall i :: |r| <= i < |contentName| ==> contentName[i] == '/'
    ensures policy != Some(Policy.Here) ==> r == basename
  {
    if policy == Some(Policy.Here) then RStripChar(contentName, '/') else basename
  }

  /** Extracting a single entry here puts it under its own name, directory
      or file alike. */
  lemma HereKeepsEntryName(e: Contents.TopEntry, basename: string)
    requires !EndsWith(e.name, "/")
    ensures MatchDestination(Some(Policy.Here), Contents.CheckContents([e], basename).name.value, basename) == e.name
  {
    Contents.ContentNameRoundTrip(e, basename);
  }

  /** A matching single entry goes to the archive's base name, whatever the
      one-entry policy left over from an earlier archive says. */
  lemma MatchingGoesToBasename(policy: Option<Policy.OneEntryChoice>, e: Contents.TopEntry, basename: string)
    requires !EndsWith(e.name, "/")
    requires Contents.CheckContents([e], basename).ctype == Contents.MatchingDirectory
    ensures MatchDestination(policy, Contents.CheckContents([e], basename).name.value, basename) == basename
  {
    Contents.ContentNameRoundTrip(e, basename);
  }

  // ---------------------------------------------------------------------------
  // The flat handler's path rewrite

  /** `os.path.join(*parts)`. */
  function JoinParts(parts: seq<string>): (r: string)
    requires |parts| >= 1
    decreases |parts|
  {
    if |parts| == 1 then parts[0]
    else
      var head := JoinParts(parts[..|parts| - 1]);
      var b := Last(parts);
      if StartsWith(b, "/") then b
      else if head == "" || EndsWith(head, "/") then head + b
      else head + "/" + b
  }

  /** Without empty parts or slashes, `os.path.join` is a join with `/`. */
  lemma {:induction false} JoinPartsPlain(parts: seq<string>)
    requires |parts| >= 1
    requires forall i :: 0 <= i < |parts| ==> |parts[i]| > 0 && '/' !in parts[i]
    ensures JoinParts(parts) == Join(parts, '/')
    decreases |parts|
  {
    if |parts| > 1 {
      var init := parts[..|parts| - 1];
      JoinPartsPlain(init);
      var head := Join(init, '/');
      assert |head| > 0 && !EndsWith(head, "/") by {
        if |init| == 1 {
          assert head == init[0];
        } else {
          JoinPrefix(init, '/', |init| - 1);
          assert init[|init| - 1..] == [init[|init| - 1]];
        }
        assert Last(init) == init[|init| - 1];
        LastCharOf(head, init);
      }
      assert !StartsWith(Last(parts), "/") by {
        assert Last(parts)[0] != '/';
      }
      JoinPrefix(parts, '/', |parts| - 1);
      assert parts[|parts| - 1..] == [Last(parts)];
    }
  }

  /** Joining ends with the last part. */
  lemma LastCharOf(head: string, init: seq<string>)
    requires |init| >= 1 && head == Join(init, '/')
    requires forall i :: 0 <= i < |init| ==> |init[i]| > 0 && '/' !in init[i]
    ensures |head| > 0 && !EndsWith(head, "/")
  {
    var l := init[|init| - 1];
    if |init| == 1 {
      assert head == l;
    } else {
      JoinPrefix(init, '/', |init| - 1);
      assert init[|init| - 1..] == [l];
      assert head == Join(init[..|init| - 1], '/') + "/" + l;
    }
    assert EndsWith(head, l) by {
      assert head[|head| - |l|..] == l;
    }
    assert head[|head| - 1] == l[|l| - 1];
    assert l[|l| - 1] in l;
  }

  /** `FlatHandler.organize` rewrites each walked directory by dropping the
      scratch directory's component: the one after a leading `.`, or the
      first one otherwise.  A one-component path has no result: for `.` the
      `del` is an IndexError, and for any other name `os.path.join()` is then
      called with nothing and raises a TypeError. */
  function FlatRewrite(curdir: string): (r: Option<string>)
    ensures r.Some? <==> |Split(curdir, '/')| >= 2
    ensures r.Some? ==>
      var parts := Split(curdir, '/');
      var k := ScratchIndex(parts);
      k < |parts| && r.value == JoinParts(parts[..k] + parts[k + 1..])
  {
    var parts := Split(curdir, '/');
    if parts[0] == "." then
      if |parts| < 2 then None
      else Some(JoinParts([parts[0]] + parts[2..]))
    else if |parts| < 2 then None
    else
      assert parts[..0] + parts[1..] == parts[1..];
      Some(JoinParts(parts[1..]))
  }

  /** Which component of a walked path is the scratch directory's. */
  function ScratchIndex(parts: seq<string>): (k: nat)
    requires |parts| >= 1
  {
    if parts[0] == "." then 1 else 0
  }

  /** The scratch directory `./T` itself maps to the current directory, and
      `./T/sub/dir` to `./sub/dir`: exactly one component is dropped. */
  lemma FlatRewriteDropsScratch(t: string, sub: seq<string>)
    requires |t| > 0 && '/' !in t
    requires forall i :: 0 <= i < |sub| ==> |sub[i]| > 0 && '/' !in sub[i]
    ensures FlatRewrite(Join(["."] + [t] + sub, '/')) == Some(Join(["."] + sub, '/'))
  {
    var parts := ["."] + [t] + sub;
    SplitJoin(parts, '/');
    assert Split(Join(parts, '/'), '/') == parts;
    assert [parts[0]] + parts[2..] == ["."] + sub;
    JoinPartsPlain(["."] + sub);
  }
}
