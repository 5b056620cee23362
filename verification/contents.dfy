/** What an extraction left behind in its scratch directory, as the program
    classifies it (dtrx/dtrx.py:91-98, 335-365, 488-506, 546-548, 583-585,
    603-605): how many top-level entries there are and whether the single one
    is named like the archive, and which extracted files look like archives
    themselves. */
module Contents {

  import opened Wrappers
  import opened Strings
  import opened Formats
  import Classifier

  /** The content-type constants.  `OneEntryFile` and `OneEntryDirectory` are
      the two "one entry, unknown" values. */
  datatype ContentType = Empty | MatchingDirectory | OneEntryKnown | OneEntryFile | OneEntryDirectory | Bomb

  predicate OneEntryUnknown(c: ContentType) {
    c == OneEntryFile || c == OneEntryDirectory
  }

  /** A top-level entry of the scratch directory, as `os.listdir` names it. */
  datatype TopEntry = TopEntry(name: string, isDir: bool)

  /** The content type, and the content name when there is exactly one entry. */
  datatype Checked = Checked(ctype: ContentType, name: Option<string>)

  /** The base `check_contents`: no entries is empty, two or more is a bomb,
      and a single entry matches when it carries the archive's base name; the
      content name of a single directory gets a trailing slash. */
  function CheckContents(contents: seq<TopEntry>, basename: string): (r: Checked)
    ensures r.ctype == Empty <==> |contents| == 0
    ensures r.ctype == Bomb <==> |contents| >= 2
    ensures r.name.Some? <==> |contents| == 1
    ensures |contents| == 1 ==> (r.ctype == MatchingDirectory <==> contents[0].name == basename)
    ensures |contents| == 1 && contents[0].name != basename ==>
      (r.ctype == OneEntryDirectory <==> contents[0].isDir) && OneEntryUnknown(r.ctype)
    ensures r.name.Some? ==>
      && StartsWith(r.name.value, contents[0].name)
      && (EndsWith(r.name.value, "/") <==> contents[0].isDir || EndsWith(contents[0].name, "/"))
    ensures r.ctype != OneEntryKnown
  {
    if |contents| == 0 then Checked(Empty, None)
    else if |contents| == 1 then
      var e := contents[0];
      var t := if basename == e.name then MatchingDirectory
               else if e.isDir then OneEntryDirectory
               else OneEntryFile;
      Checked(t, Some(if e.isDir then e.name + "/" else e.name))
    else Checked(Bomb, None)
  }

  /** Stripping the trailing slash off a single entry's content name gives the
      entry's own name back; `os.listdir` names never end in a slash. */
  lemma ContentNameRoundTrip(e: TopEntry, basename: string)
    requires !EndsWith(e.name, "/")
    ensures RStripChar(CheckContents([e], basename).name.value, '/') == e.name
  {
    var n := CheckContents([e], basename).name.value;
    if e.isDir {
      assert n == e.name + "/";
      assert n[..|n| - 1] == e.name;
      if |e.name| > 0 {
        assert e.name[|e.name| - 1] != '/' by {
          assert e.name[|e.name| - 1..] == [e.name[|e.name| - 1]];
        }
      }
      RStripNoSlash(e.name);
    } else {
      RStripNoSlash(e.name);
    }
  }

  lemma RStripNoSlash(s: string)
    requires !EndsWith(s, "/")
    ensures RStripChar(s, '/') == s
  {
    if |s| > 0 {
      assert s[|s| - 1..] == [s[|s| - 1]];
    }
  }

  /** After an extraction: the compressed-file classes (and gem metadata,
      which inherits from them) never list a directory and report one known
      entry named by their base name; RPM, Debian and gem packages are always
      bombs and keep no content name; every other class uses the base rule. */
  function ContentsAfterExtract(v: Variant, contents: seq<TopEntry>, basename: string): (r: Checked)
    ensures v in {CompressionExtractor, GemMetadataExtractor} ==> r == Checked(OneEntryKnown, Some(basename))
    ensures v in {RpmExtractor, DebExtractor, DebMetadataExtractor, GemExtractor} ==> r == Checked(Bomb, None)
    ensures r.ctype == OneEntryKnown <==> v in {CompressionExtractor, GemMetadataExtractor}
    ensures v !in {CompressionExtractor, GemMetadataExtractor, RpmExtractor, DebExtractor, DebMetadataExtractor, GemExtractor} ==>
      (r.ctype == Empty <==> |contents| == 0)
  {
    match v
    case CompressionExtractor => Checked(OneEntryKnown, Some(basename))
    case GemMetadataExtractor => Checked(OneEntryKnown, Some(basename))
    case RpmExtractor => Checked(Bomb, None)
    case DebExtractor => Checked(Bomb, None)
    case DebMetadataExtractor => Checked(Bomb, None)
    case GemExtractor => Checked(Bomb, None)
    case _ => CheckContents(contents, basename)
  }

  /** The `got_files` flag `extract` hands to `check_success`. */
  predicate GotFiles(c: Checked) {
    c.ctype != Empty
  }

  /** A package class reports files even when the scratch directory is
      empty, so a failing exit status is then not reported as an error. */
  lemma PackagesAlwaysGetFiles(v: Variant, contents: seq<TopEntry>, basename: string)
    requires v in {RpmExtractor, DebExtractor, DebMetadataExtractor, GemExtractor}
    ensures GotFiles(ContentsAfterExtract(v, contents, basename))
  {
  }

  // ---------------------------------------------------------------------------
  // Nested archives

  /** One step of `os.walk`: a directory path and the files directly in it. */
  datatype WalkDir = WalkDir(path: string, files: seq<string>)

  /** `included_root`: the single content directory when there is one, the
      scratch directory otherwise. */
  function IncludedRoot(contentName: Option<string>): (r: string)
    ensures r == "./" || (contentName == Some(r) && EndsWith(r, "/"))
    ensures contentName.Some? && EndsWith(contentName.value, "/") ==> r == contentName.value
  {
    if contentName.None? || !EndsWith(contentName.value, "/") then "./" else contentName.value
  }

  /** `os.path.join(dir, f)` for a plain file name. */
  function JoinPath(dir: string, f: string): (r: string)
    ensures EndsWith(r, f)
    ensures dir == "" ==> r == f
    ensures dir != "" ==> StartsWith(r, dir)
  {
    if dir == "" then f
    else if EndsWith(dir, "/") then dir + f
    else dir + "/" + f
  }

  /** What `check_included_archives` finds: the number of files walked and
      the paths, relative to the root, of those that look like archives. */
  datatype Included = Included(fileCount: nat, archives: seq<string>)

  /** The nested archives of one directory's files, in listing order. */
  function ArchivesIn(dir: string, files: seq<string>, looks: string -> bool): (r: seq<string>)
    ensures |r| <= |files|
    ensures forall p :: p in r <==> exists f :: f in files && looks(f) && p == JoinPath(dir, f)
    decreases |files|
  {
    if |files| == 0 then []
    else
      var rest := ArchivesIn(dir, files[1..], looks);
      assert forall f :: f in files <==> f == files[0] || f in files[1..];
      if looks(files[0]) then [JoinPath(dir, files[0])] + rest else rest
  }

  /** Whether `p` names a file of the walk that looks like an archive. */
  predicate FoundIn(walk: seq<WalkDir>, root: string, looks: string -> bool, p: string) {
    exists i, f :: 0 <= i < |walk| && f in walk[i].files && looks(f) && p == JoinPath(Drop(walk[i].path, |root|), f)
  }

  /** `check_included_archives` over an `os.walk` listing: every file counts
      toward the file count, and the files that look like archives are
      recorded, in walk order, by their path below the root.  `looks` is
      `try_by_mimetype(f) or try_by_extension(f)`. */
  function IncludedArchives(walk: seq<WalkDir>, root: string, looks: string -> bool): (r: Included)
    ensures |r.archives| <= r.fileCount
    ensures (forall i :: 0 <= i < |walk| ==> walk[i].files == []) ==> r == Included(0, [])
    decreases |walk|
  {
    if |walk| == 0 then Included(0, [])
    else
      var here := ArchivesIn(Drop(walk[0].path, |root|), walk[0].files, looks);
      var rest := IncludedArchives(walk[1..], root, looks);
      Included(|walk[0].files| + rest.fileCount, here + rest.archives)
  }

  /** Exactly the walked files that look like archives are recorded. */
  lemma {:induction false} IncludedArchivesFound(walk: seq<WalkDir>, root: string, looks: string -> bool)
    ensures forall p :: p in IncludedArchives(walk, root, looks).archives <==> FoundIn(walk, root, looks, p)
    decreases |walk|
  {
    if |walk| > 0 {
      var dir := Drop(walk[0].path, |root|);
      var here := ArchivesIn(dir, walk[0].files, looks);
      var rest := IncludedArchives(walk[1..], root, looks);
      IncludedArchivesFound(walk[1..], root, looks);
      assert IncludedArchives(walk, root, looks).archives == here + rest.archives;
      forall p
        ensures p in here + rest.archives <==> FoundIn(walk, root, looks, p)
      {
        FoundInFirst(walk, root, looks, p);
      }
    }
  }

  /** A file is found in a non-empty walk when it is in the first directory
      or in the rest of the walk. */
  lemma FoundInFirst(walk: seq<WalkDir>, root: string, looks: string -> bool, p: string)
    requires |walk| > 0
    ensures FoundIn(walk, root, looks, p) <==>
      (p in ArchivesIn(Drop(walk[0].path, |root|), walk[0].files, looks) || FoundIn(walk[1..], root, looks, p))
  {
    var dir := Drop(walk[0].path, |root|);
    if FoundIn(walk, root, looks, p) {
      var i, f :| 0 <= i < |walk| && f in walk[i].files && looks(f) && p == JoinPath(Drop(walk[i].path, |root|), f);
      if i > 0 {
        assert walk[1..][i - 1] == walk[i];
        assert FoundIn(walk[1..], root, looks, p);
      } else {
        assert p in ArchivesIn(dir, walk[0].files, looks);
      }
    }
    if FoundIn(walk[1..], root, looks, p) {
      var i, f :| 0 <= i < |walk[1..]| && f in walk[1..][i].files && looks(f) && p == JoinPath(Drop(walk[1..][i].path, |root|), f);
      assert walk[i + 1] == walk[1..][i];
      assert FoundIn(walk, root, looks, p);
    }
    if p in ArchivesIn(dir, walk[0].files, looks) {
      var f :| f in walk[0].files && looks(f) && p == JoinPath(dir, f);
      assert FoundIn(walk, root, looks, p);
    }
  }

  /** Walking two listings one after the other counts the files of both and
      records the archives of the first before those of the second. */
  lemma {:induction false} IncludedArchivesAppend(a: seq<WalkDir>, b: seq<WalkDir>, root: string, looks: string -> bool)
    ensures IncludedArchives(a + b, root, looks).fileCount
      == IncludedArchives(a, root, looks).fileCount + IncludedArchives(b, root, looks).fileCount
    ensures IncludedArchives(a + b, root, looks).archives
      == IncludedArchives(a, root, looks).archives + IncludedArchives(b, root, looks).archives
    decreases |a|
  {
    if |a| == 0 {
      assert a + b == b;
    } else {
      var ab := a + b;
      assert ab[1..] == a[1..] + b;
      assert ab[0] == a[0];
      IncludedArchivesAppend(a[1..], b, root, looks);
      var here := ArchivesIn(Drop(a[0].path, |root|), a[0].files, looks);
      var x := IncludedArchives(a[1..], root, looks).archives;
      var y := IncludedArchives(b, root, looks).archives;
      assert IncludedArchives(ab, root, looks).archives == here + (x + y);
      assert here + (x + y) == (here + x) + y;
    }
  }

  /** The test `check_included_archives` applies to each file name, given
      what `mimetypes` guesses for it. */
  predicate LooksLikeArchive(guess: string -> Classifier.MimeGuess, f: string) {
    Classifier.LooksLikeArchive(guess(f), f)
  }
}
