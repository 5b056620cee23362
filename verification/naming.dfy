/** How an archive's name becomes the name of what is extracted from it: the
    `basename()` rules of every extractor class (dtrx/dtrx.py:367-390, 468-473,
    533-544, 574-581, 615-616, 820-824) and the command line the no-pipe
    classes assemble, with its `{OUTPUT_FILE}` expansion (dtrx/dtrx.py:636-651,
    659-666, 722-729, 773-777, 833-840, 875-882, 898-905).

    Names here are the last path component of the archive, which is what
    every `basename()` starts from.  Python's `mimetypes` tables are the
    parameter `MimeTables`. */
module Naming {

  import opened Wrappers
  import opened Strings
  import opened Formats

  /** The suffixes `mimetypes` knows, each with its leading dot:
      `encodings` is `encodings_map`, `types` is the union of `types_map`,
      `common_types` and `suffix_map`. */
  datatype MimeTables = MimeTables(encodings: set<string>, types: set<string>)

  /** `os.path.basename(path)`: what follows the last `/`. */
  function PathBase(path: string): (r: string)
    ensures '/' !in r
    ensures EndsWith(path, r)
    ensures '/' in path ==> path[|path| - |r| - 1] == '/'
    ensures '/' !in path ==> r == path
  {
    match LastIndexOf(path, '/')
    case None => path
    case Some(i) =>
      assert path[i + 1..] == path[|path| - |path[i + 1..]|..];
      path[i + 1..]
  }

  // ---------------------------------------------------------------------------
  // The base rule

  /** How many dot-pieces `BaseExtractor.basename` keeps.  The rules, in order:
      a trailing encoding suffix is dropped; then a trailing known type suffix;
      and if neither fired and there is more than one piece, a last piece
      shorter than five characters is dropped.  The encoding rule applies only
      when there is more than one piece (see README, "Findings"). */
  function BaseKept(pieces: seq<string>, t: MimeTables): (k: nat)
    requires |pieces| >= 1
    ensures |pieces| - 2 <= k <= |pieces|
    ensures |pieces| > 1 && "." + Last(pieces) in t.encodings ==> k < |pieces|
    ensures k == |pieces| <==>
      && !(|pieces| > 1 && "." + Last(pieces) in t.encodings)
      && "." + Last(pieces) !in t.types
      && (|pieces| == 1 || |Last(pieces)| >= 5)
    ensures k == |pieces| - 2 <==>
      && |pieces| >= 2
      && "." + Last(pieces) in t.encodings
      && "." + pieces[|pieces| - 2] in t.types
  {
    var n := |pieces|;
    var enc := n > 1 && "." + pieces[n - 1] in t.encodings;
    var m := if enc then n - 1 else n;
    var m2 := if "." + pieces[m - 1] in t.types then m - 1 else m;
    if m2 == n && n > 1 && |pieces[n - 1]| < 5 then n - 1 else m2
  }

  /** `BaseExtractor.basename` as written: the encoding rule also fires on a
      name that is a single piece, after which reading the new last piece
      raises IndexError (None here). */
  function BaseKeptAsWritten(pieces: seq<string>, t: MimeTables): (k: Option<nat>)
    requires |pieces| >= 1
    ensures k.None? <==> |pieces| == 1 && "." + pieces[0] in t.encodings
    ensures k.Some? ==> k.value <= |pieces|
  {
    var n := |pieces|;
    var m := if "." + pieces[n - 1] in t.encodings then n - 1 else n;
    if m == 0 then None
    else
      var m2 := if "." + pieces[m - 1] in t.types then m - 1 else m;
      Some(if m2 == n && n > 1 && |pieces[n - 1]| < 5 then n - 1 else m2)
  }

  /** The two versions agree everywhere the written one does not crash. */
  lemma BaseKeptAgrees(pieces: seq<string>, t: MimeTables)
    requires |pieces| >= 1
    requires BaseKeptAsWritten(pieces, t).Some?
    ensures BaseKeptAsWritten(pieces, t) == Some(BaseKept(pieces, t))
  {
  }

  /** The dot-join of the first `k` pieces: it splits back into exactly those
      pieces, unless it is empty. */
  function JoinFirst(pieces: seq<string>, k: nat): (r: string)
    requires 1 <= |pieces| && k <= |pieces|
    requires forall i :: 0 <= i < |pieces| ==> '.' !in pieces[i]
    ensures k == |pieces| ==> r == Join(pieces, '.')
    ensures k > 0 ==> Split(r, '.') == pieces[..k]
    ensures 0 < k < |pieces| ==> Join(pieces, '.') == r + "." + Join(pieces[k..], '.')
    ensures k == 0 ==> r == ""
  {
    JoinFirstFacts(pieces, k);
    Join(pieces[..k], '.')
  }

  lemma JoinFirstFacts(pieces: seq<string>, k: nat)
    requires 1 <= |pieces| && k <= |pieces|
    requires forall i :: 0 <= i < |pieces| ==> '.' !in pieces[i]
    ensures k > 0 ==> Split(Join(pieces[..k], '.'), '.') == pieces[..k]
    ensures 0 < k < |pieces| ==> Join(pieces, '.') == Join(pieces[..k], '.') + "." + Join(pieces[k..], '.')
    ensures k == |pieces| ==> Join(pieces[..k], '.') == Join(pieces, '.')
  {
    assert pieces[..|pieces|] == pieces;
    if k > 0 {
      SplitJoin(pieces[..k], '.');
    }
    if 0 < k < |pieces| {
      JoinPrefix(pieces, '.', k);
    }
  }

  /** `BaseExtractor.basename`, with the encoding rule confined to names of
      more than one piece.  The result is the name with zero, one or two
      trailing dot-pieces removed. */
  function BaseBasename(name: string, t: MimeTables): (r: string)
    ensures var pieces := Split(name, '.');
      && (BaseKept(pieces, t) == |pieces| ==> r == name)
      && (r == name ==> BaseKept(pieces, t) == |pieces| || name == "")
      && (r == "" || (|pieces| - 2 <= |Split(r, '.')| <= |pieces| && Split(r, '.') == pieces[..|Split(r, '.')|]))
      && (r == name || r == "" || StartsWith(name, r + "."))
  {
    var pieces := Split(name, '.');
    var k := BaseKept(pieces, t);
    var r := JoinFirst(pieces, k);
    BaseBasenameShape(name, pieces, k, r);
    r
  }

  lemma BaseBasenameShape(name: string, pieces: seq<string>, k: nat, r: string)
    requires pieces == Split(name, '.') && k <= |pieces| && r == JoinFirst(pieces, k)
    ensures k == |pieces| ==> r == name
    ensures r == name ==> k == |pieces| || name == ""
    ensures 0 < k < |pieces| ==> StartsWith(name, r + ".")
  {
    if 0 < k < |pieces| {
      assert name == r + "." + Join(pieces[k..], '.');
      assert name[..|r + "."|] == r + ".";
      assert r != name;
    }
  }

  /** As written, the basename rule crashes exactly on a one-piece name that
      is itself an encoding suffix, such as `gz`; elsewhere it agrees with
      `BaseBasename`. */
  function BaseBasenameAsWritten(name: string, t: MimeTables): (r: Option<string>)
    ensures r.None? <==> '.' !in name && "." + name in t.encodings
    ensures r.Some? ==> r.value == BaseBasename(name, t)
  {
    var pieces := Split(name, '.');
    OnePieceIffDotless(name, '.');
    match BaseKeptAsWritten(pieces, t)
    case None => None
    case Some(k) =>
      BaseKeptAgrees(pieces, t);
      Some(JoinFirst(pieces, k))
  }

  /** The finding: an archive named `gz` makes the written rule raise. */
  lemma BareEncodingNameCrashes(t: MimeTables)
    requires ".gz" in t.encodings && ".gz" !in t.types
    ensures BaseBasenameAsWritten("gz", t).None?
    ensures BaseBasename("gz", t) == "gz"
  {
    assert "." + "gz" == ".gz";
    assert '.' !in "gz";
    SplitNoSep("gz", '.');
  }

  // ---------------------------------------------------------------------------
  // Per-class rules

  /** `CompressionExtractor.basename`: only a trailing encoding suffix is
      dropped. */
  function CompressionBasename(name: string, t: MimeTables): (r: string)
    ensures var pieces := Split(name, '.');
      && ("." + Last(pieces) !in t.encodings ==> r == name)
      && ("." + Last(pieces) in t.encodings && |pieces| > 1 ==> name == r + "." + Last(pieces))
      && ("." + Last(pieces) in t.encodings && |pieces| == 1 ==> r == "")
  {
    var pieces := Split(name, '.');
    var n := |pieces|;
    if "." + pieces[n - 1] in t.encodings then
      var r := JoinFirst(pieces, n - 1);
      assert n > 1 ==> pieces[n - 1..] == [pieces[n - 1]];
      r
    else name
  }

  /** `RPMExtractor.basename`: a name ending in `.rpm` loses that suffix and,
      when a further piece of fewer than eight characters remains behind a
      first piece, that piece too (the architecture); any other name follows
      the base rule. */
  function RpmBasename(name: string, t: MimeTables): (r: string)
    ensures '.' !in name ==> r == name
    ensures var pieces := Split(name, '.');
      && (|pieces| > 1 && Last(pieces) != "rpm" ==> r == BaseBasename(name, t))
      && (|pieces| > 1 && Last(pieces) == "rpm" ==>
            if |pieces| > 2 && |pieces[|pieces| - 2]| < 8 then name == r + "." + pieces[|pieces| - 2] + "." + Last(pieces)
            else name == r + "." + Last(pieces))
  {
    var pieces := Split(name, '.');
    var n := |pieces|;
    OnePieceIffDotless(name, '.');
    if n == 1 then pieces[0]
    else if pieces[n - 1] != "rpm" then BaseBasename(name, t)
    else
      var k := if n > 2 && |pieces[n - 2]| < 8 then n - 2 else n - 1;
      RpmTail(pieces);
      JoinFirst(pieces, k)
  }

  /** How a dotted name rejoins around its last one or two pieces. */
  lemma RpmTail(pieces: seq<string>)
    requires |pieces| > 1
    requires forall i :: 0 <= i < |pieces| ==> '.' !in pieces[i]
    ensures var n := |pieces|;
      && (n > 2 ==> Join(pieces, '.') == JoinFirst(pieces, n - 2) + "." + pieces[n - 2] + "." + pieces[n - 1])
      && Join(pieces, '.') == JoinFirst(pieces, n - 1) + "." + pieces[n - 1]
  {
    var n := |pieces|;
    assert Join(pieces, '.') == JoinFirst(pieces, n - 1) + "." + pieces[n - 1] by {
      JoinTail(pieces, '.');
    }
    if n > 2 {
      var h := JoinFirst(pieces, n - 2);
      assert Join(pieces, '.') == h + "." + Join(pieces[n - 2..], '.');
      assert Join(pieces[n - 2..], '.') == pieces[n - 2] + "." + pieces[n - 1] by {
        JoinTail(pieces, '.');
      }
      DotAssoc(h, pieces[n - 2], pieces[n - 1]);
    }
  }

  lemma DotAssoc(h: string, p: string, x: string)
    ensures h + "." + (p + "." + x) == h + "." + p + "." + x
  {
  }

  /** `DebExtractor.basename`: the last underscore-piece (the architecture)
      is dropped when it ends in `.deb` and has at most ten characters;
      otherwise the base rule applies. */
  function DebBasename(name: string, t: MimeTables): (r: string)
    ensures '_' !in name ==> r == name
    ensures var pieces := Split(name, '_');
      && (|pieces| > 1 && |Last(pieces)| <= 10 && EndsWith(Last(pieces), ".deb") ==>
            name == r + "_" + Last(pieces))
      && (|pieces| > 1 && !(|Last(pieces)| <= 10 && EndsWith(Last(pieces), ".deb")) ==>
            r == BaseBasename(name, t))
  {
    var pieces := Split(name, '_');
    var n := |pieces|;
    OnePieceIffDotless(name, '_');
    if n == 1 then pieces[0]
    else if |pieces[n - 1]| > 10 || !EndsWith(pieces[n - 1], ".deb") then BaseBasename(name, t)
    else
      JoinPrefix(pieces, '_', n - 1);
      JoinTail(pieces, '_');
      Join(pieces[..n - 1], '_')
  }

  /** `ShieldExtractor.basename`: the base rule, then a trailing `.hdr` is
      removed. */
  function ShieldBasename(name: string, t: MimeTables): (r: string)
    ensures var b := BaseBasename(name, t);
      && (EndsWith(b, ".hdr") ==> b == r + ".hdr")
      && (!EndsWith(b, ".hdr") ==> r == b)
  {
    var b := BaseBasename(name, t);
    if EndsWith(b, ".hdr") then
      assert b == b[..|b| - 4] + b[|b| - 4..];
      b[..|b| - 4]
    else b
  }

  /** `GemMetadataExtractor.basename`: the whole name plus `-metadata.txt`. */
  function GemMetadataBasename(name: string): (r: string)
    ensures StartsWith(r, name) && EndsWith(r, "-metadata.txt")
    ensures |r| == |name| + 13
  {
    var r := name + "-metadata.txt";
    assert r[..|name|] == name;
    assert r[|r| - 13..] == "-metadata.txt";
    r
  }

  /** `basename()` dispatched on the class, following the class hierarchy:
      Deb metadata inherits the Deb rule; gem metadata overrides the
      compressed-file rule; every other class inherits the base rule. */
  function Basename(v: Variant, name: string, t: MimeTables): string {
    match v
    case CompressionExtractor => CompressionBasename(name, t)
    case GemMetadataExtractor => GemMetadataBasename(name)
    case RpmExtractor => RpmBasename(name, t)
    case DebExtractor => DebBasename(name, t)
    case DebMetadataExtractor => DebBasename(name, t)
    case ShieldExtractor => ShieldBasename(name, t)
    case _ => BaseBasename(name, t)
  }

  // ---------------------------------------------------------------------------
  // Worked names

  /** A `mimetypes` configuration with the usual entries the examples need. */
  const UsualTables: MimeTables := MimeTables({".gz", ".bz2", ".xz", ".Z"}, {".tar", ".txt", ".deb", ".rpm"})

  /** A tarball compressed with gzip loses both suffixes. */
  lemma TarGzBasename(stem: string)
    requires '.' !in stem
    ensures BaseBasename(stem + ".tar.gz", UsualTables) == stem
  {
    assert stem + ".tar.gz" == stem + ['.'] + ("tar" + ['.'] + "gz");
    SplitThree(stem, "tar", "gz", '.');
    var pieces := [stem, "tar", "gz"];
    assert "." + pieces[2] == ".gz" && "." + pieces[1] == ".tar";
    assert BaseKept(pieces, UsualTables) == 1;
    assert pieces[..1] == [stem];
  }

  /** A compressed file keeps everything but the encoding suffix. */
  lemma TxtGzBasename(stem: string)
    requires '.' !in stem
    ensures CompressionBasename(stem + ".txt.gz", UsualTables) == stem + ".txt"
  {
    assert stem + ".txt.gz" == stem + ['.'] + ("txt" + ['.'] + "gz");
    SplitThree(stem, "txt", "gz", '.');
    var pieces := [stem, "txt", "gz"];
    assert "." + pieces[2] == ".gz";
    assert pieces[..2] == [stem, "txt"];
    assert Join([stem, "txt"], '.') == stem + ".txt";
  }

  /** An RPM named `<name>.<release>.<arch>.rpm` loses `.rpm` and its
      architecture. */
  lemma RpmArchBasename(name: string, release: string)
    requires '.' !in name && '.' !in release
    ensures RpmBasename(name + "." + release + ".x86_64.rpm", UsualTables) == name + "." + release
  {
    assert name + "." + release + ".x86_64.rpm" == name + ['.'] + (release + ['.'] + ("x86_64" + ['.'] + "rpm"));
    SplitFour(name, release, "x86_64", "rpm", '.');
    var pieces := [name, release, "x86_64", "rpm"];
    assert pieces[..2] == [name, release];
    assert Join([name, release], '.') == name + "." + release;
  }

  /** A Debian package named `<pkg>_<version>_amd64.deb` loses its
      architecture piece. */
  lemma DebArchBasename(pkg: string, version: string)
    requires '_' !in pkg && '_' !in version
    ensures DebBasename(pkg + "_" + version + "_amd64.deb", UsualTables) == pkg + "_" + version
  {
    var name := pkg + "_" + version + "_amd64.deb";
    DebArchPieces(pkg, version);
    AmdDebSuffix();
    var r := DebBasename(name, UsualTables);
    assert name == r + "_" + "amd64.deb";
    assert name == (pkg + "_" + version) + "_" + "amd64.deb";
    CancelSuffix(r, pkg + "_" + version, "_", "amd64.deb");
  }

  lemma DebArchPieces(pkg: string, version: string)
    requires '_' !in pkg && '_' !in version
    ensures Split(pkg + "_" + version + "_amd64.deb", '_') == [pkg, version, "amd64.deb"]
  {
    assert pkg + "_" + version + "_amd64.deb" == pkg + ['_'] + (version + ['_'] + "amd64.deb");
    SplitThree(pkg, version, "amd64.deb", '_');
  }

  lemma AmdDebSuffix()
    ensures |"amd64.deb"| <= 10 && EndsWith("amd64.deb", ".deb")
  {
    assert "amd64.deb"[5..] == ".deb";
  }

  lemma CancelSuffix(a: string, b: string, c: string, x: string)
    requires a + c + x == b + c + x
    ensures a == b
  {
    assert a == (a + c + x)[..|a|];
    assert b == (b + c + x)[..|b|];
  }

  // ---------------------------------------------------------------------------
  // No-pipe command lines

  /** `os.path.splitext(name)[0]` for a name without `/`: everything before
      the last dot, unless only dots precede it. */
  function SplitExtRoot(name: string): (r: string)
    ensures StartsWith(name, r)
    ensures r != name ==> name[|r|] == '.' && '.' !in name[|r| + 1..]
    ensures r != name ==> exists i :: 0 <= i < |r| && r[i] != '.'
    ensures '.' !in name ==> r == name
  {
    match LastIndexOf(name, '.')
    case None => name
    case Some(d) =>
      if exists i :: 0 <= i < d && name[i] != '.' then
        assert name[..d][..d] == name[..d];
        name[..d]
      else name
  }

  /** Why `str.format` rejected a template. */
  datatype FormatError =
    | UnknownField(field: string)   // KeyError for a name other than OUTPUT_FILE
    | Unbalanced                    // ValueError for a stray or unclosed brace

  /** `template.format(OUTPUT_FILE=value)`: `{{` and `}}` stand for single
      braces, `{OUTPUT_FILE}` for the value, and any other replacement field
      is an error. */
  function Format(template: string, value: string): (r: Result<string, FormatError>)
    ensures '{' !in template && '}' !in template ==> r == Ok(template)
    decreases |template|
  {
    if |template| == 0 then Ok("")
    else if template[0] == '{' then
      if |template| >= 2 && template[1] == '{' then
        match Format(template[2..], value)
        case Ok(rest) => Ok("{" + rest)
        case Err(e) => Err(e)
      else
        match IndexOf(template[1..], '}')
        case None => Err(Unbalanced)
        case Some(j) =>
          var field := template[1..][..j];
          if field == "OUTPUT_FILE" then
            match Format(template[1..][j + 1..], value)
            case Ok(rest) => Ok(value + rest)
            case Err(e) => Err(e)
          else if '{' in field then Err(Unbalanced)
          else Err(UnknownField(field))
    else if template[0] == '}' then
      if |template| >= 2 && template[1] == '}' then
        match Format(template[2..], value)
        case Ok(rest) => Ok("}" + rest)
        case Err(e) => Err(e)
      else Err(Unbalanced)
    else
      assert template == [template[0]] + template[1..];
      match Format(template[1..], value)
      case Ok(rest) => Ok([template[0]] + rest)
      case Err(e) => Err(e)
  }

  /** Doubling every brace makes any text survive `Format` unchanged: the
      escaping a caller would need to pass literal text through. */
  function EscapeBraces(s: string): (r: string)
    ensures '{' !in s && '}' !in s ==> r == s
    decreases |s|
  {
    if |s| == 0 then ""
    else if s[0] == '{' then "{{" + EscapeBraces(s[1..])
    else if s[0] == '}' then "}}" + EscapeBraces(s[1..])
    else [s[0]] + EscapeBraces(s[1..])
  }

  lemma {:induction false} FormatEscaped(s: string, value: string)
    ensures Format(EscapeBraces(s), value) == Ok(s)
    decreases |s|
  {
    if |s| > 0 {
      FormatEscaped(s[1..], value);
      var e := EscapeBraces(s);
      if s[0] == '{' {
        assert e[2..] == EscapeBraces(s[1..]);
      } else if s[0] == '}' {
        assert e[2..] == EscapeBraces(s[1..]);
      } else {
        assert e[1..] == EscapeBraces(s[1..]);
      }
      assert s == [s[0]] + s[1..];
    }
  }

  /** The fixed part of each no-pipe class's extraction command. */
  function ExtractTemplate(v: Variant): seq<string>
    requires IsNoPipe(v)
  {
    match v
    case ZipExtractor => ["unzip", "-q"]
    case LzhExtractor => ["lha", "xq"]
    case SevenExtractor => ["7z", "x"]
    case ZstandardExtractor => ["zstd", "-d"]
    case BrotliExtractor => ["brotli", "--decompress", OutputArg]
    case CabExtractor => ["cabextract", "-q"]
    case ShieldExtractor => ["unshield", "x"]
    case RarExtractor => ["unrar", "x"]
    case UnarchiverExtractor => ["unar", "-D"]
    case ArjExtractor => ["arj", "x", "-y"]
  }

  /** The password argument a class appends when a non-empty password was
      given; LZH keeps Zip's password-free command of its own. */
  function PasswordArg(v: Variant, password: Option<string>): (r: seq<string>)
    requires IsNoPipe(v)
    ensures |r| <= 1
    ensures (password.None? || password.value == "") ==> r == []
    ensures |r| == 1 ==> EndsWith(r[0], password.value)
  {
    match password
    case None => []
    case Some(p) =>
      if p == "" then []
      else
        var flag :=
          match v
          case ZipExtractor => "-P "
          case SevenExtractor => "-p"
          case RarExtractor => "-p"
          case UnarchiverExtractor => "-p "
          case ArjExtractor => "-g"
          case _ => "";
        if flag == "" then []
        else
          EndsWithConcat(flag, p);
          [flag + p]
  }

  /** Formats every argument in turn; the first failure wins. */
  function FormatAll(args: seq<string>, value: string): (r: Result<seq<string>, FormatError>)
    ensures r.Ok? <==> forall i :: 0 <= i < |args| ==> Format(args[i], value).Ok?
    ensures r.Ok? ==> |r.value| == |args|
    ensures r.Ok? ==> forall i :: 0 <= i < |args| ==> Format(args[i], value) == Ok(r.value[i])
    decreases |args|
  {
    if |args| == 0 then Ok([])
    else
      match Format(args[0], value)
      case Err(e) => Err(e)
      case Ok(a) =>
        match FormatAll(args[1..], value)
        case Err(e) => Err(e)
        case Ok(rest) => Ok([a] + rest)
  }

  /** The one template argument with a replacement field. */
  const OutputArg: string := "--output=" + "{OUTPUT_FILE}"

  /** An argument `Format` leaves alone, or the output argument. */
  predicate Fillable(a: string) {
    ('{' !in a && '}' !in a) || a == OutputArg
  }

  /** What formatting makes of a fillable argument. */
  function Fill(a: string, root: string): string {
    if a == OutputArg then "--output=" + root else a
  }

  /** `NoPipeExtractor.extract_archive`'s command line as written: the
      password is appended before formatting, so a brace in it is taken as
      format syntax. */
  function ExtractArgvAsWritten(v: Variant, password: Option<string>, path: string): (r: Result<seq<string>, FormatError>)
    requires IsNoPipe(v)
    ensures r.Ok? ==> |r.value| == |ExtractTemplate(v)| + |PasswordArg(v, password)| + 1
    ensures r.Ok? ==> Last(r.value) == path
    ensures r.Ok? ==> forall i :: 0 <= i < |ExtractTemplate(v)| ==>
      Format(ExtractTemplate(v)[i], SplitExtRoot(PathBase(path))) == Ok(r.value[i])
    ensures r.Ok? ==> forall i :: 0 <= i < |PasswordArg(v, password)| ==>
      Format(PasswordArg(v, password)[i], SplitExtRoot(PathBase(path))) == Ok(r.value[|ExtractTemplate(v)| + i])
  {
    match FormatAll(ExtractTemplate(v) + PasswordArg(v, password), SplitExtRoot(PathBase(path)))
    case Err(e) => Err(e)
    case Ok(args) => Ok(args + [path])
  }

  /** The command line with only the class's fixed template formatted; the
      password reaches the tool exactly as given. */
  function ExtractArgv(v: Variant, password: Option<string>, path: string): (r: seq<string>)
    requires IsNoPipe(v)
    ensures |r| == |ExtractTemplate(v)| + |PasswordArg(v, password)| + 1
    ensures Last(r) == path
    ensures r[|ExtractTemplate(v)|..|r| - 1] == PasswordArg(v, password)
    ensures forall i :: 0 <= i < |ExtractTemplate(v)| ==> r[i] == Fill(ExtractTemplate(v)[i], SplitExtRoot(PathBase(path)))
  {
    var fixed := ExtractTemplate(v);
    var r := FillAll(fixed, SplitExtRoot(PathBase(path))) + PasswordArg(v, password) + [path];
    assert r[|fixed|..|r| - 1] == PasswordArg(v, password);
    r
  }

  /** Each argument filled in turn. */
  function FillAll(args: seq<string>, root: string): (r: seq<string>)
    ensures |r| == |args|
    ensures forall i :: 0 <= i < |args| ==> r[i] == Fill(args[i], root)
    decreases |args|
  {
    if |args| == 0 then [] else [Fill(args[0], root)] + FillAll(args[1..], root)
  }

  /** Wherever the password holds no brace, the written command line is the
      corrected one. */
  lemma ExtractArgvAgrees(v: Variant, password: Option<string>, path: string)
    requires IsNoPipe(v)
    requires password.Some? ==> '{' !in password.value && '}' !in password.value
    ensures ExtractArgvAsWritten(v, password, path) == Ok(ExtractArgv(v, password, path))
  {
    TemplateFillable(v);
    PasswordArgBraces(v, password);
    FormatTemplatePlus(ExtractTemplate(v), PasswordArg(v, password), SplitExtRoot(PathBase(path)));
  }

  /** A fillable template followed by brace-free arguments formats to the
      filled template followed by those arguments unchanged. */
  lemma FormatTemplatePlus(fixed: seq<string>, pw: seq<string>, root: string)
    requires forall i :: 0 <= i < |fixed| ==> Fillable(fixed[i])
    requires forall i :: 0 <= i < |pw| ==> '{' !in pw[i] && '}' !in pw[i]
    ensures FormatAll(fixed + pw, root) == Ok(FillAll(fixed, root) + pw)
  {
    var args := fixed + pw;
    assert forall i :: 0 <= i < |args| ==> Fillable(args[i]);
    FormatAllFill(args, root);
    assert FillAll(args, root) == FillAll(fixed, root) + pw;
  }

  lemma TemplateFillable(v: Variant)
    requires IsNoPipe(v)
    ensures forall i :: 0 <= i < |ExtractTemplate(v)| ==> Fillable(ExtractTemplate(v)[i])
  {
  }

  lemma OutputFileField(root: string)
    ensures Format(OutputArg, root) == Ok("--output=" + root)
  {
    FormatPlainPrefix("--output=", "{OUTPUT_FILE}", root);
    FieldOnly(root);
  }

  lemma FieldOnly(root: string)
    ensures Format("{OUTPUT_FILE}", root) == Ok(root)
  {
    assert "{OUTPUT_FILE}" == "{" + "OUTPUT_FILE" + "}" + "";
    FormatField("OUTPUT_FILE", "", root);
    assert root + "" == root;
  }

  /** The first occurrence of `c` in `f + [c] + rest` is right after `f`. */
  lemma IndexAfter(f: string, c: char, rest: string)
    requires c !in f
    ensures IndexOf(f + [c] + rest, c) == Some(|f|)
  {
    var s := f + [c] + rest;
    assert s[|f|] == c;
  }

  /** A replacement field `{f}` followed by `rest`. */
  lemma FormatField(f: string, rest: string, value: string)
    requires '}' !in f && (|f| == 0 || f[0] != '{')
    ensures Format("{" + f + "}" + rest, value) ==
      if f == "OUTPUT_FILE" then PrependOk(value, Format(rest, value))
      else if '{' in f then Err(Unbalanced)
      else Err(UnknownField(f))
  {
    var t := "{" + f + "}" + rest;
    assert t[1..] == f + ['}'] + rest;
    IndexAfter(f, '}', rest);
    assert t[1..][..|f|] == f;
    assert t[1..][|f| + 1..] == rest;
  }

  /** A formatted result with `p` in front of it. */
  function PrependOk(p: string, r: Result<string, FormatError>): Result<string, FormatError> {
    if r.Ok? then Ok(p + r.value) else r
  }

  /** Brace-free text in front passes through `Format` unchanged. */
  lemma {:induction false} FormatPlainPrefix(p: string, s: string, value: string)
    requires '{' !in p && '}' !in p
    ensures Format(p + s, value) == PrependOk(p, Format(s, value))
    decreases |p|
  {
    if |p| > 0 {
      var t := p + s;
      assert t[1..] == p[1..] + s;
      FormatPlainHead(t, value);
      FormatPlainPrefix(p[1..], s, value);
      PrependTwice([p[0]], p[1..], Format(s, value));
      assert [p[0]] + p[1..] == p;
    } else {
      assert p + s == s;
      PrependEmpty(Format(s, value));
    }
  }

  /** A template that starts with an ordinary character keeps it. */
  lemma FormatPlainHead(t: string, value: string)
    requires |t| > 0 && t[0] != '{' && t[0] != '}'
    ensures Format(t, value) == PrependOk([t[0]], Format(t[1..], value))
  {
  }

  lemma PrependTwice(a: string, b: string, r: Result<string, FormatError>)
    ensures PrependOk(a, PrependOk(b, r)) == PrependOk(a + b, r)
  {
    if r.Ok? {
      assert a + (b + r.value) == a + b + r.value;
    }
  }

  lemma PrependEmpty(r: Result<string, FormatError>)
    ensures PrependOk("", r) == r
  {
    if r.Ok? {
      assert "" + r.value == r.value;
    }
  }

  lemma PasswordArgBraces(v: Variant, password: Option<string>)
    requires IsNoPipe(v)
    requires password.Some? ==> '{' !in password.value && '}' !in password.value
    ensures forall i :: 0 <= i < |PasswordArg(v, password)| ==> '{' !in PasswordArg(v, password)[i] && '}' !in PasswordArg(v, password)[i]
  {
  }

  /** Formatting fillable arguments fills each of them. */
  lemma {:induction false} FormatAllFill(args: seq<string>, root: string)
    requires forall i :: 0 <= i < |args| ==> Fillable(args[i])
    ensures FormatAll(args, root) == Ok(FillAll(args, root))
    decreases |args|
  {
    if |args| > 0 {
      FormatAllFill(args[1..], root);
      if args[0] == OutputArg {
        OutputFileField(root);
      }
      assert Format(args[0], root) == Ok(Fill(args[0], root));
    }
  }

  /** The finding: a Zip password `{x}` makes the written command line raise
      KeyError, while the corrected one passes it through. */
  lemma BracedPasswordCrashes(path: string)
    ensures ExtractArgvAsWritten(ZipExtractor, Some("{x}"), path).Err?
    ensures ExtractArgv(ZipExtractor, Some("{x}"), path)[2] == "-P {x}"
  {
    var root := SplitExtRoot(PathBase(path));
    ZipBracedArg();
    BracedArgFails(root);
    var args := ExtractTemplate(ZipExtractor) + ["-P {x}"];
    assert args[2] == "-P {x}";
  }

  lemma ZipBracedArg()
    ensures PasswordArg(ZipExtractor, Some("{x}")) == ["-P {x}"]
  {
    assert "-P " + "{x}" == "-P {x}";
  }

  lemma BracedArgFails(root: string)
    ensures Format("-P {x}", root) == Err(UnknownField("x"))
  {
    assert "{x}" == "{" + "x" + "}" + "";
    FormatField("x", "", root);
    FormatPlainPrefix("-P ", "{x}", root);
    assert "-P {x}" == "-P " + "{x}";
  }

  /** The other half of the finding: a doubled brace in a password reaches the
      tool as a single one. */
  lemma DoubledBracePasswordAltered(path: string)
    ensures ExtractArgvAsWritten(SevenExtractor, Some("a{{b"), path) == Ok(["7z", "x", "-pa{b", path])
  {
    var root := SplitExtRoot(PathBase(path));
    var args := ExtractTemplate(SevenExtractor) + PasswordArg(SevenExtractor, Some("a{{b"));
    assert args == ["7z", "x", "-pa{{b"] by {
      SevenDoubledArg();
    }
    assert FormatAll(args, root) == Ok(["7z", "x", "-pa{b"]) by {
      SevenFormatAll(root);
    }
    ConcatFour("7z", "x", "-pa{b", path);
  }

  lemma ConcatFour(a: string, b: string, c: string, d: string)
    ensures [a, b] + [c] + [d] == [a, b, c] + [d] == [a, b, c, d]
  {
  }

  lemma OutputArgStart()
    ensures |OutputArg| > 0 && OutputArg[0] == '-'
  {
  }

  /** The corrected command line keeps the doubled brace. */
  lemma DoubledBracePasswordKept(path: string)
    ensures ExtractArgv(SevenExtractor, Some("a{{b"), path) == ["7z", "x", "-pa{{b", path]
  {
    assert ExtractArgv(SevenExtractor, Some("a{{b"), path) == ["7z", "x"] + ["-pa{{b"] + [path] by {
      SevenDoubledArg();
      SevenArgv(Some("a{{b"), path);
    }
    ConcatFour("7z", "x", "-pa{{b", path);
  }

  lemma SevenArgv(password: Option<string>, path: string)
    ensures ExtractArgv(SevenExtractor, password, path) == ["7z", "x"] + PasswordArg(SevenExtractor, password) + [path]
  {
    var root := SplitExtRoot(PathBase(path));
    assert FillAll(["7z", "x"], root) == ["7z", "x"] by {
      OutputArgStart();
      assert "7z"[0] == '7' && "x"[0] == 'x';
    }
  }

  lemma SevenFormatAll(root: string)
    ensures FormatAll(["7z", "x", "-pa{{b"], root) == Ok(["7z", "x", "-pa{b"])
  {
    var args := ["7z", "x", "-pa{{b"];
    DoubledArgFormats(root);
    assert Format(args[0], root) == Ok("7z");
    assert Format(args[1], root) == Ok("x");
    assert Format(args[2], root) == Ok("-pa{b");
    assert FormatAll(args, root).Ok?;
    var r := FormatAll(args, root).value;
    assert |r| == 3;
    assert r[0] == "7z" && r[1] == "x" && r[2] == "-pa{b";
    assert r == ["7z", "x", "-pa{b"];
  }

  lemma SevenDoubledArg()
    ensures PasswordArg(SevenExtractor, Some("a{{b")) == ["-pa{{b"]
  {
    assert "-p" + "a{{b" == "-pa{{b";
  }

  lemma DoubledArgFormats(root: string)
    ensures Format("-pa{{b", root) == Ok("-pa{b")
  {
    FormatPlainPrefix("-pa", "{{b", root);
    assert "-pa{{b" == "-pa" + "{{b";
    assert "{{b"[2..] == "b";
    assert Format("b", root) == Ok("b");
    assert "{" + "b" == "{b";
    assert Format("{{b", root) == Ok("{b");
    assert "-pa" + "{b" == "-pa{b";
  }
}
