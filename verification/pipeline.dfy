/** The commands an extractor chains together, and how their exit codes are
    judged (dtrx/dtrx.py:234-258, 392-418, 529-531, 553-570, 589-593,
    599-601, 611-613, 636-651, 668-669).

    Each stage is a command with the desc that failure messages use.  The
    processes themselves are not modelled: their exit codes are an input. */
module Pipeline {

  import opened Wrappers
  import opened Strings
  import opened Formats
  import Naming

  /** One process of the pipeline: its argument vector and its description. */
  datatype Stage = Stage(argv: seq<string>, desc: string)

  // ---------------------------------------------------------------------------
  // Exit codes

  /** `first_bad_exit_code`: the index of the first strictly positive exit
      code, so that a negative code (a process killed by a signal) counts as
      success. */
  function FirstBadExitCode(codes: seq<int>): (r: Option<nat>)
    ensures r.None? <==> forall i :: 0 <= i < |codes| ==> codes[i] <= 0
    ensures r.Some? ==> r.value < |codes| && codes[r.value] > 0
    ensures r.Some? ==> forall i :: 0 <= i < r.value ==> codes[i] <= 0
    decreases |codes|
  {
    if |codes| == 0 then None
    else if codes[0] > 0 then Some(0)
    else match FirstBadExitCode(codes[1..])
      case None => None
      case Some(i) => Some(i + 1)
  }

  /** `is_fatal_error`: only Zip, and LZH which inherits from it, treat an
      exit status as fatal on its own, and only a status above 1 (unzip
      exits with 1 for warnings). */
  predicate IsFatal(v: Variant, code: Option<int>) {
    v in {ZipExtractor, LzhExtractor} && code.GetOr(0) > 1
  }

  function DigitChar(d: nat): char
    requires d < 10
  {
    "0123456789"[d]
  }

  /** `str(n)` for a natural number. */
  function Decimal(n: nat): (r: string)
    ensures |r| >= 1
    ensures forall i :: 0 <= i < |r| ==> IsDigit(r[i])
    ensures n > 0 ==> r[0] != '0'
    decreases n
  {
    if n < 10 then [DigitChar(n)]
    else Decimal(n / 10) + [DigitChar(n % 10)]
  }

  /** The number a string of decimal digits denotes. */
  function DecimalValue(s: string): nat
    requires forall i :: 0 <= i < |s| ==> IsDigit(s[i])
    decreases |s|
  {
    if |s| == 0 then 0
    else
      assert IsDigit(s[|s| - 1]);
      DecimalValue(s[..|s| - 1]) * 10 + (s[|s| - 1] as int - '0' as int)
  }

  /** Reading back what `Decimal` wrote gives the number. */
  lemma {:induction false} DecimalRoundTrip(n: nat)
    ensures DecimalValue(Decimal(n)) == n
    decreases n
  {
    if n >= 10 {
      DecimalRoundTrip(n / 10);
      var s := Decimal(n);
      assert s[..|s| - 1] == Decimal(n / 10);
    }
  }

  /** The message of the ExtractorError `check_success` raises. */
  function FailureMessage(s: Stage, code: nat): string {
    s.desc + " error: '" + Join(s.argv, ' ') + "' returned status code " + Decimal(code)
  }

  /** `check_success`: the run fails when the first bad exit code is fatal
      for the class, or when no files came out and some exit code was bad.
      The message names the stage of the first bad code. */
  function CheckSuccess(v: Variant, stages: seq<Stage>, codes: seq<int>, gotFiles: bool): (r: Result<(), string>)
    requires |codes| == |stages|
    ensures (forall i :: 0 <= i < |codes| ==> codes[i] <= 0) ==> r.Ok?
    ensures (exists i :: 0 <= i < |codes| && codes[i] > 0) && !gotFiles ==> r.Err?
    ensures gotFiles && v !in {ZipExtractor, LzhExtractor} ==> r.Ok?
    ensures gotFiles && v in {ZipExtractor, LzhExtractor} ==>
      (r.Err? <==> exists i :: 0 <= i < |codes| && codes[i] > 1 && forall j :: 0 <= j < i ==> codes[j] <= 0)
    ensures r.Err? ==> exists i :: (0 <= i < |codes| && codes[i] > 0
      && (forall j :: 0 <= j < i ==> codes[j] <= 0)
      && r.error == FailureMessage(stages[i], codes[i]))
  {
    match FirstBadExitCode(codes)
    case None => Ok(())
    case Some(i) =>
      if IsFatal(v, Some(codes[i])) || !gotFiles then Err(FailureMessage(stages[i], codes[i]))
      else Ok(())
  }

  /** The zip rule: with files on disk, a first bad code of 1 is a warning
      and passes, a first bad code of 2 fails. */
  lemma ZipWarningPasses(stages: seq<Stage>)
    requires |stages| == 2
    ensures CheckSuccess(ZipExtractor, stages, [0, 1], true).Ok?
    ensures CheckSuccess(ZipExtractor, stages, [0, 2], true).Err?
    ensures CheckSuccess(TarExtractor, stages, [0, 2], true).Ok?
    ensures CheckSuccess(TarExtractor, stages, [0, 2], false).Err?
  {
    assert [0, 2][1] > 0;
  }

  // ---------------------------------------------------------------------------
  // Building the stage list

  /** The Debian `data.tar.*` member pattern `^data\.tar\.[a-z0-9]+$`. */
  predicate IsDataTar(member: string) {
    && StartsWith(member, "data.tar.")
    && |member| > 9
    && forall i :: 9 <= i < |member| ==> ('a' <= member[i] <= 'z' || IsDigit(member[i]))
  }

  /** The first archive member that matches the pattern. */
  function DebDataMember(members: seq<string>): (r: Option<nat>)
    ensures r.None? <==> forall i :: 0 <= i < |members| ==> !IsDataTar(members[i])
    ensures r.Some? ==> r.value < |members| && IsDataTar(members[r.value])
    ensures r.Some? ==> forall i :: 0 <= i < r.value ==> !IsDataTar(members[i])
    decreases |members|
  {
    if |members| == 0 then None
    else if IsDataTar(members[0]) then Some(0)
    else match DebDataMember(members[1..])
      case None => None
      case Some(i) => Some(i + 1)
  }

  /** What the program learns about a Debian package before extracting it:
      the member names `ar t` lists, and the encoding `mimetypes` guesses
      from a member name. */
  datatype DebListing = DebListing(members: seq<string>, guessEncoding: string -> Option<Encoding>)

  /** The Debian `prepare`: pick the data member, then read it out and decode
      it.  A member whose encoding has no decoder in the shared table is a
      KeyError: `lz` never has one, and `lrzip`/`lrz` have one only once an
      extractor built with them has registered it (`lrz` is that entry). */
  function DebPrepare(path: string, deb: DebListing, lrz: Option<seq<string>>): (r: Result<seq<Stage>, string>)
    ensures r.Err? <==>
      || DebDataMember(deb.members).None?
      || deb.guessEncoding(deb.members[DebDataMember(deb.members).value]).None?
      || Decoder(deb.guessEncoding(deb.members[DebDataMember(deb.members).value]).value, lrz).None?
    ensures r.Ok? ==>
      var member := deb.members[DebDataMember(deb.members).value];
      && |r.value| == 2
      && r.value[0].argv == ["ar", "p", path, member]
      && Some(r.value[1].argv) == Decoder(deb.guessEncoding(member).value, lrz)
  {
    match DebDataMember(deb.members)
    case None => Err(".deb contains no data.tar file")
    case Some(i) =>
      var member := deb.members[i];
      match deb.guessEncoding(member)
      case None => Err("data.tar file has unrecognized encoding")
      case Some(e) =>
        match Decoder(e, lrz)
        case None => Err("KeyError: " + EncodingName(e))
        case Some(cmd) =>
          Ok([Stage(["ar", "p", path, member], "extracting data.tar from .deb"),
              Stage(cmd, "decoding data.tar")])
  }

  /** The stages `prepare` adds for each class. */
  function PrepareStages(v: Variant, path: string, deb: DebListing, lrz: Option<seq<string>>): (r: Result<seq<Stage>, string>)
    ensures v != DebExtractor ==> r.Ok? && |r.value| <= 2
    ensures v == DebExtractor ==> r == DebPrepare(path, deb, lrz)
    ensures v == RpmExtractor ==> r.Ok? && |r.value| == 1 && r.value[0].argv == ["rpm2cpio", "-"]
    ensures v in {DebMetadataExtractor, GemExtractor, GemMetadataExtractor} ==>
      r.Ok? && |r.value| == 2 && r.value[1].argv == ["zcat"]
    ensures v == DebMetadataExtractor ==> r.value[0].argv == ["ar", "p", path, "control.tar.gz"]
    ensures v == GemExtractor ==> r.value[0].argv == ["tar", "-xO", "data.tar.gz"]
    ensures v == GemMetadataExtractor ==> r.value[0].argv == ["tar", "-xO", "metadata.gz"]
    ensures v !in {RpmExtractor, DebExtractor, DebMetadataExtractor, GemExtractor, GemMetadataExtractor} ==> r == Ok([])
  {
    match v
    case RpmExtractor => Ok([Stage(["rpm2cpio", "-"], "rpm2cpio")])
    case DebExtractor =>
      DebPrepare(path, deb, lrz)
    case DebMetadataExtractor =>
      Ok([Stage(["ar", "p", path, "control.tar.gz"], "control.tar.gz extraction"),
          Stage(["zcat"], "control.tar.gz decompression")])
    case GemExtractor =>
      Ok([Stage(["tar", "-xO", "data.tar.gz"], "data.tar.gz extraction"),
          Stage(["zcat"], "data.tar.gz decompression")])
    case GemMetadataExtractor =>
      Ok([Stage(["tar", "-xO", "metadata.gz"], "metadata.gz extraction"),
          Stage(["zcat"], "metadata.gz decompression")])
    case _ => Ok([])
  }

  /** The `extract_pipe` of the classes that stream the archive on standard
      input; the compressed-file classes write the decoded stream straight to
      a file and add no extraction stage. */
  function StreamExtractPipe(v: Variant): Option<seq<string>> {
    match v
    case TarExtractor => Some(["tar", "-x"])
    case DebExtractor => Some(["tar", "-x"])
    case DebMetadataExtractor => Some(["tar", "-x"])
    case GemExtractor => Some(["tar", "-x"])
    case CpioExtractor => Some(["cpio", "-i", "--make-directories", "--quiet", "--no-absolute-filenames"])
    case RpmExtractor => Some(["cpio", "-i", "--make-directories", "--quiet", "--no-absolute-filenames"])
    case _ => None
  }

  /** An extractor the constructor can produce, with the shared table `lrz`
      as it stands once it is built: its encoding has a decoder, and a no-pipe
      class records none. */
  predicate WellFormed(x: Extractor, lrz: Option<seq<string>>) {
    (x.encoding.Some? ==> Decoder(x.encoding.value, lrz).Some?) && (IsNoPipe(x.variant) ==> x.encoding.None?)
  }

  lemma ConstructWellFormed(v: Variant, enc: Option<Encoding>, lrz: Option<seq<string>>, lrzipHasQ: bool)
    requires Construct(v, enc).Ok?
    ensures WellFormed(Construct(v, enc).value, TableAfter(v, enc, lrz, lrzipHasQ))
  {
  }

  /** The full stage list of an extraction: the decoder for the archive's
      encoding, then what `prepare` adds, then the extraction command.  A
      no-pipe class has no decoder and no preparation, and runs its own
      command line on the archive path. */
  function ExtractionStages(x: Extractor, path: string, password: Option<string>, deb: DebListing, lrz: Option<seq<string>>): (r: Result<seq<Stage>, string>)
    requires WellFormed(x, lrz)
    ensures IsNoPipe(x.variant) ==>
      r.Ok? && r.value == [Stage(Naming.ExtractArgv(x.variant, password, path), "extraction")]
    ensures r.Ok? && x.encoding.Some? ==>
      |r.value| >= 1 && r.value[0].desc == "decoding" && Some(r.value[0].argv) == Decoder(x.encoding.value, lrz)
    ensures r.Ok? && x.variant in {CompressionExtractor, GemMetadataExtractor} ==>
      forall i :: 0 <= i < |r.value| ==> r.value[i].desc != "extraction"
    ensures r.Ok? && x.variant !in {CompressionExtractor, GemMetadataExtractor} ==>
      |r.value| >= 1 && Last(r.value).desc == "extraction"
    ensures r.Err? <==> x.variant == DebExtractor && DebPrepare(path, deb, lrz).Err?
    ensures r.Ok? && !IsNoPipe(x.variant) ==>
      var d := if x.encoding.Some? then 1 else 0;
      var prep := PrepareStages(x.variant, path, deb, lrz);
      var tail := if StreamExtractPipe(x.variant).Some? then 1 else 0;
      && prep.Ok? && |r.value| == d + |prep.value| + tail
      && r.value[d..d + |prep.value|] == prep.value
      && (StreamExtractPipe(x.variant).Some? ==> Last(r.value).argv == StreamExtractPipe(x.variant).value)
  {
    if IsNoPipe(x.variant) then
      Ok([Stage(Naming.ExtractArgv(x.variant, password, path), "extraction")])
    else
      var decode := match x.encoding
        case None => []
        case Some(e) => [Stage(Decoder(e, lrz).value, "decoding")];
      match PrepareStages(x.variant, path, deb, lrz)
      case Err(msg) => Err(msg)
      case Ok(prep) =>
        match StreamExtractPipe(x.variant)
        case None => Ok(decode + prep)
        case Some(cmd) => Ok(decode + prep + [Stage(cmd, "extraction")])
  }

  /** A gzip-compressed tar file decodes and then extracts. */
  lemma TarGzStages(path: string, deb: DebListing, q: Option<seq<string>>)
    ensures ExtractionStages(Extractor(TarExtractor, Some(Gzip)), path, None, deb, q)
      == Ok([Stage(["zcat"], "decoding"), Stage(["tar", "-x"], "extraction")])
  {
    assert Decoder(Gzip, q) == Some(["zcat"]);
    assert PrepareStages(TarExtractor, path, deb, q) == Ok([]);
    assert !IsNoPipe(TarExtractor);
    assert StreamExtractPipe(TarExtractor) == Some(["tar", "-x"]);
    var zcat := Stage(["zcat"], "decoding");
    var tar := Stage(["tar", "-x"], "extraction");
    assert [zcat] + [] + [tar] == [zcat, tar];
  }

  lemma DebMembers(members: seq<string>)
    requires members == ["debian-binary", "control.tar.gz", "data.tar.xz"]
    ensures DebDataMember(members) == Some(2)
  {
    assert members[0][1] != "data.tar."[1];
    assert members[1][0] != "data.tar."[0];
    assert members[2][..9] == "data.tar.";
  }

  /** A Debian package reads the chosen data member out with `ar p`, decodes
      it, and extracts it with tar. */
  lemma DebStages(path: string, deb: DebListing, q: Option<seq<string>>)
    requires deb.members == ["debian-binary", "control.tar.gz", "data.tar.xz"]
    requires deb.guessEncoding("data.tar.xz") == Some(Xz)
    ensures ExtractionStages(Extractor(DebExtractor, None), path, None, deb, q)
      == Ok([Stage(["ar", "p", path, "data.tar.xz"], "extracting data.tar from .deb"),
             Stage(["xzcat"], "decoding data.tar"),
             Stage(["tar", "-x"], "extraction")])
  {
    DebMembers(deb.members);
    assert Decoder(Xz, q) == Some(["xzcat"]);
    var ar := Stage(["ar", "p", path, "data.tar.xz"], "extracting data.tar from .deb");
    var xz := Stage(["xzcat"], "decoding data.tar");
    var tar := Stage(["tar", "-x"], "extraction");
    assert PrepareStages(DebExtractor, path, deb, q) == Ok([ar, xz]);
    assert StreamExtractPipe(DebExtractor) == Some(["tar", "-x"]);
    assert [] + [ar, xz] + [tar] == [ar, xz, tar];
  }
}
