/** The static tables of `ExtractorBuilder` and `BaseExtractor`: archive kinds,
    compression encodings, the extractor variants that handle each kind, the
    MIME-type, extension and magic tables, and the decoder table with the
    constructor's encoding check (dtrx/dtrx.py:208-236, 1224-1371).

    All tables are immutable values.  Every `seq` below lists its entries in the
    order the Python dictionaries were filled, because lookups that collect
    several hits return them in that order. */
module Formats {

  import opened Wrappers
  import opened Strings

  /** The keys of `ExtractorBuilder.extractor_map`. */
  datatype Kind =
    | Tar | Zip | Lzh | Rpm | Deb | Cpio | Gem | SevenZip | Cab | Rar | Arj
    | Shield | Msi | Dmg | Zst | Brotli | Compressed

  /** The compression encodings the program names anywhere: the keys of
      `decoders`, the encodings of the extension table and of the magic
      encoding table, and those `mimetypes.guess_type` can report. */
  datatype Encoding =
    | Bzip2 | Gzip | LzwCompress | Lzma | Xz | Lzip | Zstd | Br | Lrzip | Lrz | Lz

  /** An (archive kind, encoding) pair: one candidate format to try. */
  datatype Candidate = Candidate(kind: Kind, encoding: Option<Encoding>)

  /** The concrete extractor classes. */
  datatype Variant =
    | TarExtractor | CpioExtractor | RpmExtractor | DebExtractor | DebMetadataExtractor
    | GemExtractor | GemMetadataExtractor | CompressionExtractor
    | ZipExtractor | LzhExtractor | SevenExtractor | ZstandardExtractor | BrotliExtractor
    | CabExtractor | ShieldExtractor | RarExtractor | UnarchiverExtractor | ArjExtractor

  function KindName(k: Kind): string {
    match k
    case Tar => "tar"
    case Zip => "zip"
    case Lzh => "lzh"
    case Rpm => "rpm"
    case Deb => "deb"
    case Cpio => "cpio"
    case Gem => "gem"
    case SevenZip => "7z"
    case Cab => "cab"
    case Rar => "rar"
    case Arj => "arj"
    case Shield => "shield"
    case Msi => "msi"
    case Dmg => "dmg"
    case Zst => "zst"
    case Brotli => "brotli"
    case Compressed => "compress"
  }

  /** The inverse of `KindName`: the kind a table key names, if any. */
  function ParseKind(s: string): (r: Option<Kind>)
    ensures r.Some? ==> KindName(r.value) == s
  {
    if s == "tar" then Some(Tar)
    else if s == "zip" then Some(Zip)
    else if s == "lzh" then Some(Lzh)
    else if s == "rpm" then Some(Rpm)
    else if s == "deb" then Some(Deb)
    else if s == "cpio" then Some(Cpio)
    else if s == "gem" then Some(Gem)
    else if s == "7z" then Some(SevenZip)
    else if s == "cab" then Some(Cab)
    else if s == "rar" then Some(Rar)
    else if s == "arj" then Some(Arj)
    else if s == "shield" then Some(Shield)
    else if s == "msi" then Some(Msi)
    else if s == "dmg" then Some(Dmg)
    else if s == "zst" then Some(Zst)
    else if s == "brotli" then Some(Brotli)
    else if s == "compress" then Some(Compressed)
    else None
  }

  /** Every kind's table key reads back as that kind. */
  lemma KindNameRoundTrip(k: Kind)
    ensures ParseKind(KindName(k)) == Some(k)
  {
    match k
    case Tar =>
    case Zip =>
    case Lzh =>
    case Rpm =>
    case Deb =>
    case Cpio =>
    case Gem =>
    case SevenZip =>
    case Cab =>
    case Rar =>
    case Arj =>
    case Shield =>
    case Msi =>
    case Dmg =>
    case Zst =>
    case Brotli =>
    case Compressed =>
  }

  function EncodingName(e: Encoding): string {
    match e
    case Bzip2 => "bzip2"
    case Gzip => "gzip"
    case LzwCompress => "compress"
    case Lzma => "lzma"
    case Xz => "xz"
    case Lzip => "lzip"
    case Zstd => "zstd"
    case Br => "br"
    case Lrzip => "lrzip"
    case Lrz => "lrz"
    case Lz => "lz"
  }

  /** The inverse of `EncodingName`. */
  function ParseEncoding(s: string): (r: Option<Encoding>)
    ensures r.Some? ==> EncodingName(r.value) == s
  {
    if s == "bzip2" then Some(Bzip2)
    else if s == "gzip" then Some(Gzip)
    else if s == "compress" then Some(LzwCompress)
    else if s == "lzma" then Some(Lzma)
    else if s == "xz" then Some(Xz)
    else if s == "lzip" then Some(Lzip)
    else if s == "zstd" then Some(Zstd)
    else if s == "br" then Some(Br)
    else if s == "lrzip" then Some(Lrzip)
    else if s == "lrz" then Some(Lrz)
    else if s == "lz" then Some(Lz)
    else None
  }

  lemma EncodingNameRoundTrip(e: Encoding)
    ensures ParseEncoding(EncodingName(e)) == Some(e)
  {
  }

  // ---------------------------------------------------------------------------
  // Extractor variants

  /** The subclasses of `NoPipeExtractor`: tools that must be given the archive
      by name instead of on standard input. */
  predicate IsNoPipe(v: Variant) {
    v in {ZipExtractor, LzhExtractor, SevenExtractor, ZstandardExtractor, BrotliExtractor,
          CabExtractor, ShieldExtractor, RarExtractor, UnarchiverExtractor, ArjExtractor}
  }

  /** The `file_type` label each class reports in failure messages. */
  function FileType(v: Variant): string {
    match v
    case TarExtractor => "tar file"
    case CpioExtractor => "cpio file"
    case RpmExtractor => "RPM"
    case DebExtractor => "Debian package"
    case DebMetadataExtractor => "Debian package"
    case GemExtractor => "Ruby gem"
    case GemMetadataExtractor => "Ruby gem"
    case CompressionExtractor => "compressed file"
    case ZipExtractor => "Zip file"
    case LzhExtractor => "LZH file"
    case SevenExtractor => "7z file"
    case ZstandardExtractor => "zstd file"
    case BrotliExtractor => "brotli file"
    case CabExtractor => "CAB archive"
    case ShieldExtractor => "InstallShield archive"
    case RarExtractor => "RAR archive"
    case UnarchiverExtractor => "RAR archive"
    case ArjExtractor => "ARJ archive"
  }

  /** The `"extractors"` entry of each kind. */
  function Extractors(k: Kind): seq<Variant> {
    match k
    case Tar => [TarExtractor]
    case Zip => [ZipExtractor, SevenExtractor]
    case Lzh => [LzhExtractor]
    case Rpm => [RpmExtractor]
    case Deb => [DebExtractor]
    case Cpio => [CpioExtractor]
    case Gem => [GemExtractor]
    case SevenZip => [SevenExtractor]
    case Cab => [CabExtractor]
    case Rar => [RarExtractor, UnarchiverExtractor]
    case Arj => [ArjExtractor]
    case Shield => [ShieldExtractor]
    case Msi => [SevenExtractor]
    case Dmg => [SevenExtractor]
    case Zst => [ZstandardExtractor]
    case Brotli => [BrotliExtractor]
    case Compressed => [CompressionExtractor]
  }

  /** The optional `"metadata"` entry: only Debian packages and Ruby gems have one. */
  function MetadataExtractors(k: Kind): Option<seq<Variant>> {
    match k
    case Deb => Some([DebMetadataExtractor])
    case Gem => Some([GemMetadataExtractor])
    case _ => None
  }

  /** `build_extractor`'s choice of classes: the metadata classes when metadata
      was asked for and the kind has them, the ordinary classes otherwise. */
  function BuildVariants(k: Kind, metadata: bool): (r: seq<Variant>)
    ensures 1 <= |r| <= 2
    ensures metadata && k in {Deb, Gem} ==> r == MetadataExtractors(k).value
    ensures !(metadata && k in {Deb, Gem}) ==> r == Extractors(k)
    ensures forall i :: 0 <= i < |r| ==> (r[i] in {DebMetadataExtractor, GemMetadataExtractor} <==> metadata && k in {Deb, Gem})
  {
    match MetadataExtractors(k)
    case Some(vs) => if metadata then vs else Extractors(k)
    case None => Extractors(k)
  }

  // ---------------------------------------------------------------------------
  // Decoders and the constructor's encoding check

  /** The class-level `decoders` dictionary as written (dtrx/dtrx.py:208-217). */
  function StaticDecoder(e: Encoding): Option<seq<string>> {
    match e
    case Bzip2 => Some(["bzcat"])
    case Gzip => Some(["zcat"])
    case LzwCompress => Some(["zcat"])
    case Lzma => Some(["lzcat"])
    case Xz => Some(["xzcat"])
    case Lzip => Some(["lzip", "-cd"])
    case Zstd => Some(["zstd", "-d"])
    case Br => Some(["br", "--decompress"])
    case _ => None
  }

  /** The command an lrzip or lrz extractor adds to the table, with `-Q` or
      `-q` depending on what `lrzip --help` prints; that probe is the
      parameter `lrzipHasQ`. */
  function LrzipDecoder(lrzipHasQ: bool): seq<string> {
    ["lrzcat", if lrzipHasQ then "-Q" else "-q"]
  }

  /** The class-level `decoders` dictionary is shared by every extractor of
      the process.  Its `lrz`/`lrzip` entry is missing until an extractor is
      built with one of those encodings; `lrz` is that entry, if present. */
  function Decoder(e: Encoding, lrz: Option<seq<string>>): (r: Option<seq<string>>)
    ensures e in {Lrzip, Lrz} ==> r == lrz
    ensures r.None? <==> e == Lz || (e in {Lrzip, Lrz} && lrz.None?)
    ensures r.Some? && e !in {Lrzip, Lrz} ==> |r.value| >= 1 && r.value[0] != "lrzcat"
  {
    if e in {Lrzip, Lrz} then lrz
    else StaticDecoder(e)
  }

  /** The constructor registers the lrzip decoder before anything else, but
      only for a class that hands its encoding to the base constructor. */
  predicate Registers(v: Variant, enc: Option<Encoding>) {
    !IsNoPipe(v) && enc in {Some(Lrzip), Some(Lrz)}
  }

  /** The `lrz` entry of the shared table once an extractor of class `v` with
      encoding `enc` has been built. */
  function TableAfter(v: Variant, enc: Option<Encoding>, lrz: Option<seq<string>>, lrzipHasQ: bool): (r: Option<seq<string>>)
    ensures Registers(v, enc) ==> r == Some(LrzipDecoder(lrzipHasQ))
    ensures !Registers(v, enc) ==> r == lrz
  {
    if Registers(v, enc) then Some(LrzipDecoder(lrzipHasQ)) else lrz
  }

  /** Building an extractor with an lrzip encoding makes that encoding
      decodable, for this extractor and every later one. */
  lemma RegisteredDecodes(v: Variant, e: Encoding, lrz: Option<seq<string>>, lrzipHasQ: bool)
    requires !IsNoPipe(v) && e in {Lrzip, Lrz}
    ensures Decoder(e, TableAfter(v, Some(e), lrz, lrzipHasQ)) == Some(LrzipDecoder(lrzipHasQ))
    ensures forall e' :: e' in {Lrzip, Lrz} ==> Decoder(e', TableAfter(v, Some(e), lrz, lrzipHasQ)).Some?
  {
  }

  /** An extractor instance as far as the model needs it: its class and the
      encoding it records. */
  datatype Extractor = Extractor(variant: Variant, encoding: Option<Encoding>)

  /** The constructor's encoding check (dtrx/dtrx.py:235-236).  A no-pipe class
      hands its base constructor no encoding at all, so the check never fires
      for it and the built extractor records none. */
  function Construct(v: Variant, enc: Option<Encoding>): (r: Result<Extractor, string>)
    ensures r.Err? <==> !IsNoPipe(v) && enc == Some(Lz)
    ensures r.Err? ==> r.error == "unrecognized encoding lz"
    ensures r.Ok? ==> r.value.variant == v
    ensures r.Ok? && IsNoPipe(v) ==> r.value.encoding.None?
    ensures r.Ok? && !IsNoPipe(v) ==> r.value.encoding == enc
  {
    if IsNoPipe(v) then Ok(Extractor(v, None))
    else match enc
      case None => Ok(Extractor(v, None))
      case Some(e) =>
        if e in {Lrzip, Lrz} || StaticDecoder(e).Some? then Ok(Extractor(v, enc))
        else Err("unrecognized encoding " + EncodingName(e))
  }

  // ---------------------------------------------------------------------------
  // MIME-type table

  datatype MimeEntry = MimeEntry(mime: string, kind: Kind)

  /** `mimetype_map` in insertion order, each `"mimetypes"` entry of the kind
      table with the `application/` prefix the builder adds to a type that has
      no `/`.  A later entry for the same type overwrites an earlier one. */
  const MimeEntries: seq<MimeEntry> := [
    MimeEntry("application/x-tar", Tar),
    MimeEntry("application/zip", Zip),
    MimeEntry("application/x-lzh", Lzh),
    MimeEntry("application/x-lzh-compressed", Lzh),
    MimeEntry("application/x-redhat-package-manager", Rpm),
    MimeEntry("application/x-rpm", Rpm),
    MimeEntry("application/x-debian-package", Deb),
    MimeEntry("application/x-cpio", Cpio),
    MimeEntry("application/x-ruby-gem", Gem),
    MimeEntry("application/x-7z-compressed", SevenZip),
    MimeEntry("application/x-cab", Cab),
    MimeEntry("application/rar", Rar),
    MimeEntry("application/arj", Arj),
    MimeEntry("application/x-cab", Shield),
    MimeEntry("application/x-msi", Msi),
    MimeEntry("application/x-ole-storage", Msi),
    MimeEntry("application/x-apple-diskimage", Dmg),
    MimeEntry("application/zstd", Zst)
  ]

  /** The last entry of `entries` for `mime`, which is what a dictionary filled
      in this order holds. */
  function LastMimeHit(entries: seq<MimeEntry>, mime: string): (r: Option<Kind>)
    ensures r.None? <==> forall i :: 0 <= i < |entries| ==> entries[i].mime != mime
    ensures r.Some? ==> exists i :: 0 <= i < |entries| && entries[i] == MimeEntry(mime, r.value)
                                    && forall j :: i < j < |entries| ==> entries[j].mime != mime
  {
    LastMimeBelow(entries, mime, |entries|)
  }

  /** The search of `LastMimeHit` among the first `n` entries. */
  function LastMimeBelow(entries: seq<MimeEntry>, mime: string, n: nat): (r: Option<Kind>)
    requires n <= |entries|
    ensures r.None? <==> forall i :: 0 <= i < n ==> entries[i].mime != mime
    ensures r.Some? ==> exists i :: 0 <= i < n && entries[i] == MimeEntry(mime, r.value)
                                    && forall j :: i < j < n ==> entries[j].mime != mime
    decreases n
  {
    if n == 0 then None
    else if entries[n - 1].mime == mime then Some(entries[n - 1].kind)
    else LastMimeBelow(entries, mime, n - 1)
  }

  /** `mimetype_map[mime]`, None for a missing key. */
  function MimeKind(mime: string): Option<Kind> {
    LastMimeHit(MimeEntries, mime)
  }

  /** Two kinds claim `application/x-cab`; the later one, InstallShield, wins. */
  lemma CabMimeBelongsToShield()
    ensures MimeKind("application/x-cab") == Some(Shield)
  {
    var e := MimeEntries;
    assert e[13] == MimeEntry("application/x-cab", Shield);
    assert forall j :: 13 < j < |e| ==> e[j].mime != "application/x-cab";
    assert forall j :: 0 <= j < |e| && j != 10 && j != 13 ==> e[j].mime != "application/x-cab";
  }

  /** The tar type is registered once, by the first entry. */
  lemma TarMime()
    ensures MimeKind("application/x-tar") == Some(Tar)
  {
    var e := MimeEntries;
    assert e[0] == MimeEntry("application/x-tar", Tar);
    assert forall j :: 0 < j < |e| ==> e[j].mime != "application/x-tar";
  }

  // ---------------------------------------------------------------------------
  // Extension table

  datatype ExtEntry = ExtEntry(ext: string, cand: Candidate)

  /** The first loop that fills `extension_map`: each `"extensions"` entry of
      the kind table, paired with no encoding, in table order. */
  const KindExtEntries: seq<ExtEntry> := [
    ExtEntry("tar", Candidate(Tar, None)),
    ExtEntry("zip", Candidate(Zip, None)),
    ExtEntry("jar", Candidate(Zip, None)),
    ExtEntry("epub", Candidate(Zip, None)),
    ExtEntry("xpi", Candidate(Zip, None)),
    ExtEntry("crx", Candidate(Zip, None)),
    ExtEntry("lzh", Candidate(Lzh, None)),
    ExtEntry("lha", Candidate(Lzh, None)),
    ExtEntry("rpm", Candidate(Rpm, None)),
    ExtEntry("deb", Candidate(Deb, None)),
    ExtEntry("cpio", Candidate(Cpio, None)),
    ExtEntry("gem", Candidate(Gem, None)),
    ExtEntry("7z", Candidate(SevenZip, None)),
    ExtEntry("cab", Candidate(Cab, None)),
    ExtEntry("rar", Candidate(Rar, None)),
    ExtEntry("arj", Candidate(Arj, None)),
    ExtEntry("cab", Candidate(Shield, None)),
    ExtEntry("hdr", Candidate(Shield, None)),
    ExtEntry("msi", Candidate(Msi, None)),
    ExtEntry("dmg", Candidate(Dmg, None)),
    ExtEntry("zst", Candidate(Zst, None)),
    ExtEntry("zstd", Candidate(Zst, None)),
    ExtEntry("br", Candidate(Brotli, None))
  ]

  /** The second loop that fills `extension_map` (dtrx/dtrx.py:1342-1358): each
      row names a kind, an encoding and the suffixes for the pair; here one entry
      per suffix, in row order.  Entry 10 comes from the row that pairs `tar.lz`
      with the encoding name `lz`, which no decoder handles. */
  const EncodedExtEntriesAsWritten: seq<ExtEntry> := [
    ExtEntry("tar.bz2", Candidate(Tar, Some(Bzip2))),
    ExtEntry("tbz2", Candidate(Tar, Some(Bzip2))),
    ExtEntry("tb2", Candidate(Tar, Some(Bzip2))),
    ExtEntry("tbz", Candidate(Tar, Some(Bzip2))),
    ExtEntry("tar.gz", Candidate(Tar, Some(Gzip))),
    ExtEntry("tgz", Candidate(Tar, Some(Gzip))),
    ExtEntry("tar.lzma", Candidate(Tar, Some(Lzma))),
    ExtEntry("tlz", Candidate(Tar, Some(Lzma))),
    ExtEntry("tar.xz", Candidate(Tar, Some(Xz))),
    ExtEntry("txz", Candidate(Tar, Some(Xz))),
    ExtEntry("tar.lz", Candidate(Tar, Some(Lz))),
    ExtEntry("tar.Z", Candidate(Tar, Some(LzwCompress))),
    ExtEntry("taz", Candidate(Tar, Some(LzwCompress))),
    ExtEntry("tar.lrz", Candidate(Tar, Some(Lrz))),
    ExtEntry("tar.zst", Candidate(Tar, Some(Zstd))),
    ExtEntry("Z", Candidate(Compressed, Some(Gzip))),
    ExtEntry("gz", Candidate(Compressed, Some(Gzip))),
    ExtEntry("bz2", Candidate(Compressed, Some(Bzip2))),
    ExtEntry("lzma", Candidate(Compressed, Some(Lzma))),
    ExtEntry("xz", Candidate(Compressed, Some(Xz))),
    ExtEntry("lrz", Candidate(Compressed, Some(Lrzip)))
  ]

  /** The same entries with `tar.lz` paired with `lzip`, the name the decoder
      table and the `.lz` MIME encoding both use.  This is what the model uses. */
  const EncodedExtEntries: seq<ExtEntry> :=
    EncodedExtEntriesAsWritten[10 := ExtEntry("tar.lz", Candidate(Tar, Some(Lzip)))]

  /** `extension_map` as written, in insertion order. */
  const ExtEntriesAsWritten: seq<ExtEntry> := KindExtEntries + EncodedExtEntriesAsWritten

  /** `extension_map` with the corrected `tar.lz` entry. */
  const ExtEntries: seq<ExtEntry> := KindExtEntries + EncodedExtEntries

  /** `extension_map.get(key, [])`: every candidate filed under `key`, in the
      order they were appended. */
  function ExtLookup(entries: seq<ExtEntry>, key: string): (r: seq<Candidate>)
    ensures |r| <= |entries|
    ensures forall c :: c in r <==> ExtEntry(key, c) in entries
    ensures forall i :: (0 <= i < |entries| && entries[i].ext == key
                         && forall j :: 0 <= j < i ==> entries[j].ext != key)
                        ==> |r| > 0 && r[0] == entries[i].cand
    decreases |entries|
  {
    if |entries| == 0 then []
    else
      var rest := ExtLookup(entries[1..], key);
      assert forall e :: e in entries <==> e == entries[0] || e in entries[1..];
      if entries[0].ext == key then [entries[0].cand] + rest
      else
        forall i | 0 < i < |entries| && entries[i].ext == key && forall j :: 0 <= j < i ==> entries[j].ext != key
          ensures |rest| > 0 && rest[0] == entries[i].cand
        {
          assert entries[1..][i - 1] == entries[i];
          assert forall j :: 0 <= j < i - 1 ==> entries[1..][j] == entries[j + 1];
        }
        rest
  }

  /** Looking up a key in two tables laid end to end is looking it up in each. */
  lemma {:induction false} ExtLookupAppend(a: seq<ExtEntry>, b: seq<ExtEntry>, key: string)
    ensures ExtLookup(a + b, key) == ExtLookup(a, key) + ExtLookup(b, key)
    decreases |a|
  {
    if |a| == 0 {
      assert a + b == b;
    } else {
      assert (a + b)[1..] == a[1..] + b;
      ExtLookupAppend(a[1..], b, key);
    }
  }

  /** A key no entry carries finds nothing. */
  lemma {:induction false} ExtLookupMiss(entries: seq<ExtEntry>, key: string)
    requires forall j :: 0 <= j < |entries| ==> entries[j].ext != key
    ensures ExtLookup(entries, key) == []
    decreases |entries|
  {
    if |entries| > 0 {
      ExtLookupMiss(entries[1..], key);
    }
  }

  /** A suffix that no kind claims is answered by the encoded entries alone. */
  lemma EncodedOnly(encoded: seq<ExtEntry>, key: string)
    requires forall j :: 0 <= j < |KindExtEntries| ==> KindExtEntries[j].ext != key
    ensures ExtLookup(KindExtEntries + encoded, key) == ExtLookup(encoded, key)
  {
    ExtLookupAppend(KindExtEntries, encoded, key);
    ExtLookupMiss(KindExtEntries, key);
  }

  /** Where `key` is first filed among the encoded entries, no kind claims it. */
  predicate FirstEncodedAt(encoded: seq<ExtEntry>, key: string, i: nat) {
    && (forall j :: 0 <= j < |KindExtEntries| ==> KindExtEntries[j].ext != key)
    && i < |encoded| && encoded[i].ext == key
    && (forall j :: 0 <= j < i ==> encoded[j].ext != key)
  }

  lemma FirstEncodedLookup(encoded: seq<ExtEntry>, key: string, i: nat)
    requires FirstEncodedAt(encoded, key, i)
    ensures var r := ExtLookup(KindExtEntries + encoded, key); |r| > 0 && r[0] == encoded[i].cand
  {
    EncodedOnly(encoded, key);
  }

  lemma TarGzAt()
    ensures FirstEncodedAt(EncodedExtEntries, "tar.gz", 4)
    ensures EncodedExtEntries[4].cand == Candidate(Tar, Some(Gzip))
  {
    assert EncodedExtEntries[..10] == EncodedExtEntriesAsWritten[..10];
  }

  lemma TarLzAtAsWritten()
    ensures FirstEncodedAt(EncodedExtEntriesAsWritten, "tar.lz", 10)
    ensures EncodedExtEntriesAsWritten[10].cand == Candidate(Tar, Some(Lz))
  {
  }

  lemma TarLzAt()
    ensures FirstEncodedAt(EncodedExtEntries, "tar.lz", 10)
    ensures EncodedExtEntries[10].cand == Candidate(Tar, Some(Lzip))
  {
    assert EncodedExtEntries[..10] == EncodedExtEntriesAsWritten[..10];
  }

  /** `tar.gz` is filed first under tar with gzip. */
  lemma TarGzLookup()
    ensures var r := ExtLookup(ExtEntries, "tar.gz"); |r| > 0 && r[0] == Candidate(Tar, Some(Gzip))
  {
    TarGzAt();
    FirstEncodedLookup(EncodedExtEntries, "tar.gz", 4);
  }

  /** `tar.lz` is filed first under tar with the encoding name `lz` as written. */
  lemma TarLzLookupAsWritten()
    ensures var r := ExtLookup(ExtEntriesAsWritten, "tar.lz"); |r| > 0 && r[0] == Candidate(Tar, Some(Lz))
  {
    TarLzAtAsWritten();
    FirstEncodedLookup(EncodedExtEntriesAsWritten, "tar.lz", 10);
  }

  /** With the correction, `tar.lz` is filed first under tar with lzip. */
  lemma TarLzLookup()
    ensures var r := ExtLookup(ExtEntries, "tar.lz"); |r| > 0 && r[0] == Candidate(Tar, Some(Lzip))
  {
    TarLzAt();
    FirstEncodedLookup(EncodedExtEntries, "tar.lz", 10);
  }

  /** `gz` is filed under the plain gzip stream. */
  lemma GzLookup()
    ensures Candidate(Compressed, Some(Gzip)) in ExtLookup(ExtEntries, "gz")
  {
    assert ExtEntries[|KindExtEntries| + 16] == ExtEntry("gz", Candidate(Compressed, Some(Gzip)));
  }

  /** No entry is filed under `setup.cab`. */
  lemma SetupCabMiss()
    ensures ExtLookup(ExtEntries, "setup.cab") == []
  {
    assert forall j :: 0 <= j < |ExtEntries| ==> |ExtEntries[j].ext| != |"setup.cab"|;
    ExtLookupMiss(ExtEntries, "setup.cab");
  }

  /** `cab` is filed first under the cabinet kind, and also under InstallShield. */
  lemma CabLookup()
    ensures var r := ExtLookup(ExtEntries, "cab");
      |r| > 0 && r[0] == Candidate(Cab, None) && Candidate(Shield, None) in r
  {
    assert ExtEntries[13] == ExtEntry("cab", Candidate(Cab, None));
    assert ExtEntries[16] == ExtEntry("cab", Candidate(Shield, None));
    assert forall i :: 0 <= i < 13 ==> ExtEntries[i].ext != "cab";
  }

  // ---------------------------------------------------------------------------
  // Magic tables

  /** The regular expressions matched against the output of `file`, written as
      hand predicates. */
  datatype MagicPattern =
    | Literal(text: string)   // a pattern with no special characters
    | ZipArchive              // (Zip|ZIP self-extracting) archive
    | LhaArchive              // LHa [\d\.\?]+ archive

  predicate LhaVersionChar(c: char) {
    IsDigit(c) || c == '.' || c == '?'
  }

  /** The end of the run of version characters that starts at `i`. */
  function VersionRunEnd(s: string, i: nat): (j: nat)
    requires i <= |s|
    ensures i <= j <= |s|
    ensures forall k :: i <= k < j ==> LhaVersionChar(s[k])
    ensures j < |s| ==> !LhaVersionChar(s[j])
    decreases |s| - i
  {
    if i < |s| && LhaVersionChar(s[i]) then VersionRunEnd(s, i + 1) else i
  }

  /** `LHa [\d\.\?]+ archive` matches at `i`.  A space is not a version
      character, so the run before ` archive` is necessarily the whole run. */
  predicate LhaAt(s: string, i: int) {
    && OccursAt(s, "LHa ", i)
    && var j := VersionRunEnd(s, i + 4);
       j > i + 4 && OccursAt(s, " archive", j)
  }

  /** `regexp.search(output)` for each pattern. */
  predicate PatternMatches(p: MagicPattern, output: string) {
    match p
    case Literal(t) => Contains(output, t)
    case ZipArchive => Contains(output, "Zip archive") || Contains(output, "ZIP self-extracting archive")
    case LhaArchive => exists i :: 0 <= i <= |output| && LhaAt(output, i)
  }

  datatype MagicKindEntry = MagicKindEntry(pattern: MagicPattern, kind: Kind)

  /** `magic_mime_map` in insertion order: each `"magic"` entry of the kind
      table.  Disk images have two patterns; Ruby gems, Brotli streams and
      plain compressed streams have none. */
  const MagicKindEntries: seq<MagicKindEntry> := [
    MagicKindEntry(Literal("POSIX tar archive"), Tar),
    MagicKindEntry(ZipArchive, Zip),
    MagicKindEntry(LhaArchive, Lzh),
    MagicKindEntry(Literal("RPM"), Rpm),
    MagicKindEntry(Literal("Debian binary package"), Deb),
    MagicKindEntry(Literal("cpio archive"), Cpio),
    MagicKindEntry(Literal("7-zip archive"), SevenZip),
    MagicKindEntry(Literal("Microsoft Cabinet Archive"), Cab),
    MagicKindEntry(Literal("RAR archive"), Rar),
    MagicKindEntry(Literal("ARJ archive"), Arj),
    MagicKindEntry(Literal("InstallShield CAB"), Shield),
    MagicKindEntry(Literal("Application: Windows Installer"), Msi),
    MagicKindEntry(Literal("ISO 9660 CD-ROM filesystem data"), Dmg),
    MagicKindEntry(Literal("zlib compressed data"), Dmg),
    MagicKindEntry(Literal("Zstandard compressed data"), Zst)
  ]

  datatype MagicEncodingEntry = MagicEncodingEntry(text: string, encoding: Encoding)

  /** `magic_encoding_map` in insertion order; every pattern is a plain string. */
  const MagicEncodingEntries: seq<MagicEncodingEntry> := [
    MagicEncodingEntry("bzip2 compressed", Bzip2),
    MagicEncodingEntry("gzip compressed", Gzip),
    MagicEncodingEntry("LZMA compressed", Lzma),
    MagicEncodingEntry("lzip compressed", Lzip),
    MagicEncodingEntry("LRZIP compressed", Lrzip),
    MagicEncodingEntry("Zstandard compressed", Zstd),
    MagicEncodingEntry("xz compressed", Xz)
  ]
}
