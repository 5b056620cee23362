/** The format-candidate cascade of `ExtractorBuilder` (dtrx/dtrx.py:1377-1454):
    three tiers of guesses — MIME type, filename extension, `file` magic — joined
    in that order with every (kind, encoding) pair tried at most once, and each
    pair expanded into the extractor classes that handle its kind.

    `mimetypes.guess_type` is a parameter (a `MimeGuess` value), and so is the
    first output line of `file -zL`, or its absence when the command is missing
    or exits non-zero. */
module Classifier {

  import opened Wrappers
  import opened Strings
  import opened Formats

  /** The pair `mimetypes.guess_type(filename)` returns. */
  datatype MimeGuess = MimeGuess(mime: Option<string>, encoding: Option<Encoding>)

  // ---------------------------------------------------------------------------
  // Tier 1: MIME type

  /** `try_by_mimetype`: the kind registered for the guessed MIME type, with the
      guessed encoding; failing that, a plain compressed stream when an
      encoding was guessed; otherwise nothing. */
  function TryByMimetype(g: MimeGuess): (r: seq<Candidate>)
    ensures |r| <= 1
    ensures r == [] <==> (g.mime.None? || MimeKind(g.mime.value).None?) && g.encoding.None?
    ensures forall c :: c in r ==> c.encoding == g.encoding
    ensures forall c :: c in r ==>
      if g.mime.Some? && MimeKind(g.mime.value).Some? then c.kind == MimeKind(g.mime.value).value
      else c.kind == Compressed
  {
    var known := if g.mime.Some? then MimeKind(g.mime.value) else None;
    match known
    case Some(k) => [Candidate(k, g.encoding)]
    case None => if g.encoding.Some? then [Candidate(Compressed, g.encoding)] else []
  }

  // ---------------------------------------------------------------------------
  // Tier 2: extension

  /** `try_by_extension` over a given extension table: the candidates filed
      under the last two dot-pieces joined, then those filed under the last
      piece alone; nothing for a name without a dot. */
  function TryByExtensionWith(entries: seq<ExtEntry>, filename: string): (r: seq<Candidate>)
    ensures '.' !in filename ==> r == []
    ensures forall c :: c in r ==> exists e :: e in entries && e.cand == c && EndsWith(filename, e.ext)
  {
    var pieces := Split(filename, '.');
    if |pieces| == 1 then
      assert Join(pieces, '.') == pieces[0];
      []
    else
      var n := |pieces|;
      var two := pieces[n - 2] + "." + pieces[n - 1];
      var one := pieces[n - 1];
      SuffixKeys(pieces);
      ExtLookup(entries, two) + ExtLookup(entries, one)
  }

  /** The last piece, and the last two pieces joined, are suffixes of the name. */
  lemma SuffixKeys(pieces: seq<string>)
    requires |pieces| >= 2
    ensures EndsWith(Join(pieces, '.'), pieces[|pieces| - 2] + "." + pieces[|pieces| - 1])
    ensures EndsWith(Join(pieces, '.'), pieces[|pieces| - 1])
  {
    var n := |pieces|;
    var two := pieces[n - 2] + "." + pieces[n - 1];
    var tail := pieces[n - 2..];
    assert tail[1..] == [pieces[n - 1]];
    assert Join(tail, '.') == two;
    if n > 2 {
      JoinPrefix(pieces, '.', n - 2);
      EndsWithConcat(Join(pieces[..n - 2], '.') + ".", two);
    } else {
      assert pieces == tail;
      assert EndsWith(two, two);
    }
    EndsWithConcat(pieces[n - 2] + ".", pieces[n - 1]);
    EndsWithTrans(Join(pieces, '.'), two, pieces[n - 1]);
  }

  /** `try_by_extension` over the table the model uses, with `tar.lz` paired
      with `lzip`. */
  function TryByExtension(filename: string): seq<Candidate> {
    TryByExtensionWith(ExtEntries, filename)
  }

  /** For a name with at least three dot-pieces the two keys are exactly the
      last two extensions: `stem.mid.ext` looks up `mid.ext`, then `ext`. */
  lemma {:induction false} TryByExtensionKeys(entries: seq<ExtEntry>, stem: string, mid: string, ext: string)
    requires '.' !in mid && '.' !in ext
    ensures TryByExtensionWith(entries, stem + "." + mid + "." + ext)
            == ExtLookup(entries, mid + "." + ext) + ExtLookup(entries, ext)
  {
    var f := stem + "." + mid + "." + ext;
    assert f == stem + ['.'] + (mid + ['.'] + ext);
    SplitAppend(stem, '.', mid + ['.'] + ext);
    SplitAppend(mid, '.', ext);
    SplitNoSep(mid, '.');
    SplitNoSep(ext, '.');
    var pieces := Split(f, '.');
    assert pieces == Split(stem, '.') + [mid, ext];
  }

  /** For a name with exactly two dot-pieces the keys are the whole name, then
      the extension. */
  lemma {:induction false} TryByExtensionTwoPieces(entries: seq<ExtEntry>, stem: string, ext: string)
    requires '.' !in stem && '.' !in ext
    ensures TryByExtensionWith(entries, stem + "." + ext)
            == ExtLookup(entries, stem + "." + ext) + ExtLookup(entries, ext)
  {
    SplitAppend(stem, '.', ext);
    SplitNoSep(stem, '.');
    SplitNoSep(ext, '.');
    assert Split(stem + "." + ext, '.') == [stem, ext];
  }

  /** Whatever is filed under the last extension is proposed. */
  lemma TryByExtensionHasLast(entries: seq<ExtEntry>, stem: string, mid: string, ext: string, c: Candidate)
    requires '.' !in mid && '.' !in ext
    requires c in ExtLookup(entries, ext)
    ensures c in TryByExtensionWith(entries, stem + "." + mid + "." + ext)
  {
    TryByExtensionKeys(entries, stem, mid, ext);
  }

  /** What is filed under the last two extensions comes first. */
  lemma TryByExtensionFirst(entries: seq<ExtEntry>, stem: string, key: string, mid: string, ext: string)
    requires '.' !in mid && '.' !in ext && key == mid + "." + ext
    requires ExtLookup(entries, key) != []
    ensures var r := TryByExtensionWith(entries, stem + "." + key);
      |r| > 0 && r[0] == ExtLookup(entries, key)[0]
  {
    assert stem + "." + key == stem + "." + mid + "." + ext;
    TryByExtensionKeys(entries, stem, mid, ext);
  }

  // ---------------------------------------------------------------------------
  // Tier 3: magic

  /** The leading `"<filename>: "` that `file` prints is removed when present. */
  function StripFilePrefix(output: string, filename: string): (r: string)
    ensures StartsWith(output, filename + ": ") ==> output == filename + ": " + r
    ensures !StartsWith(output, filename + ": ") ==> r == output
  {
    var prefix := filename + ": ";
    if StartsWith(output, prefix) then
      assert output == output[..|prefix|] + output[|prefix|..];
      output[|prefix|..]
    else output
  }

  /** `magic_map_matches` over the kind table: every kind one of whose
      patterns matches, in table order (a kind with two matching patterns
      appears twice). */
  function MagicKindsOf(entries: seq<MagicKindEntry>, output: string): (r: seq<Kind>)
    ensures |r| <= |entries|
    ensures forall k :: k in r <==> exists e :: e in entries && e.kind == k && PatternMatches(e.pattern, output)
    decreases |entries|
  {
    if |entries| == 0 then []
    else
      var rest := MagicKindsOf(entries[1..], output);
      assert forall e :: e in entries <==> e == entries[0] || e in entries[1..];
      if PatternMatches(entries[0].pattern, output) then [entries[0].kind] + rest else rest
  }

  /** `magic_map_matches` over the encoding table. */
  function MagicEncodingsOf(entries: seq<MagicEncodingEntry>, output: string): (r: seq<Encoding>)
    ensures |r| <= |entries|
    ensures forall e :: e in r <==> exists m :: m in entries && m.encoding == e && Contains(output, m.text)
    decreases |entries|
  {
    if |entries| == 0 then []
    else
      var rest := MagicEncodingsOf(entries[1..], output);
      assert forall m :: m in entries <==> m == entries[0] || m in entries[1..];
      if Contains(output, entries[0].text) then [entries[0].encoding] + rest else rest
  }

  /** The pairs `[(m, e) for m in kinds for e in encs]`. */
  function Product(kinds: seq<Kind>, encs: seq<Option<Encoding>>): (r: seq<Candidate>)
    ensures |r| == |kinds| * |encs|
    ensures forall c :: c in r <==> c.kind in kinds && c.encoding in encs
    decreases |kinds|
  {
    if |kinds| == 0 then []
    else
      var row := seq(|encs|, j requires 0 <= j < |encs| => Candidate(kinds[0], encs[j]));
      var rest := Product(kinds[1..], encs);
      forall c: Candidate | c.kind == kinds[0] && c.encoding in encs
        ensures c in row
      {
        var j :| 0 <= j < |encs| && encs[j] == c.encoding;
        assert row[j] == c;
      }
      assert forall k :: k in kinds <==> k == kinds[0] || k in kinds[1..];
      row + rest
  }

  function SomeEach(encs: seq<Encoding>): (r: seq<Option<Encoding>>)
    ensures |r| == |encs|
    ensures forall i :: 0 <= i < |encs| ==> r[i] == Some(encs[i])
  {
    seq(|encs|, i requires 0 <= i < |encs| => Some(encs[i]))
  }

  /** The pure part of `try_by_magic`.  `output` is the first line `file -zL`
      printed, or None when the command is missing or exits non-zero.  Kinds
      without a matching encoding pair with no encoding; encodings without a
      matching kind pair with the plain compressed stream; otherwise every
      kind pairs with every encoding. */
  function TryByMagic(filename: string, output: Option<string>): (r: seq<Candidate>)
    ensures output.None? ==> r == []
    ensures output.Some? ==>
      var text := StripFilePrefix(output.value, filename);
      var kinds := MagicKindsOf(MagicKindEntries, text);
      var encs := MagicEncodingsOf(MagicEncodingEntries, text);
      && (kinds == [] && encs == [] ==> r == [])
      && (forall c :: c in r <==>
            && (if kinds != [] then c.kind in kinds else encs != [] && c.kind == Compressed)
            && (if encs != [] then c.encoding.Some? && c.encoding.value in encs else c.encoding.None?))
  {
    match output
    case None => []
    case Some(line) =>
      var text := StripFilePrefix(line, filename);
      var kinds := MagicKindsOf(MagicKindEntries, text);
      var encs := MagicEncodingsOf(MagicEncodingEntries, text);
      if kinds != [] && encs == [] then Product(kinds, [None])
      else if encs != [] && kinds == [] then Product([Compressed], SomeEach(encs))
      else Product(kinds, SomeEach(encs))
  }

  // ---------------------------------------------------------------------------
  // The cascade

  predicate NoDuplicates<T(==)>(s: seq<T>) {
    forall i, j :: 0 <= i < j < |s| ==> s[i] != s[j]
  }

  /** The `tried_types` filter of `get_extractor`: keep the first occurrence of
      every candidate not tried before. */
  function Dedup(cands: seq<Candidate>, tried: set<Candidate>): (r: seq<Candidate>)
    ensures NoDuplicates(r)
    ensures forall c :: c in r <==> c in cands && c !in tried
    ensures |r| <= |cands|
    decreases |cands|
  {
    if |cands| == 0 then []
    else
      var c := cands[0];
      assert forall x :: x in cands <==> x == c || x in cands[1..];
      if c in tried then Dedup(cands[1..], tried)
      else [c] + Dedup(cands[1..], tried + {c})
  }

  lemma DedupKeeps(cands: seq<Candidate>, tried: set<Candidate>, c: Candidate)
    requires c in cands && c !in tried
    ensures c in Dedup(cands, tried)
  {
  }

  /** Where `c` first occurs in `s`. */
  function FirstIndex(s: seq<Candidate>, c: Candidate): (r: nat)
    requires c in s
    ensures r < |s| && s[r] == c && c !in s[..r]
  {
    if s[0] == c then 0
    else
      assert c in s[1..];
      var k := FirstIndex(s[1..], c);
      assert s[..k + 1] == [s[0]] + s[1..][..k];
      k + 1
  }

  lemma FirstIndexTail(s: seq<Candidate>, c: Candidate)
    requires c in s && s[0] != c
    ensures c in s[1..] && FirstIndex(s, c) == FirstIndex(s[1..], c) + 1
  {
  }

  /** Every element of `r` occurs in `s`, and earlier in `r` means first
      occurring earlier in `s`. */
  predicate InFirstOccurrenceOrder(r: seq<Candidate>, s: seq<Candidate>) {
    && (forall i :: 0 <= i < |r| ==> r[i] in s)
    && forall i, j :: 0 <= i < j < |r| ==> FirstIndex(s, r[i]) < FirstIndex(s, r[j])
  }

  /** The kept candidates come in the order of their first occurrences: with
      the membership and no-duplicate clauses of `Dedup`, that fixes the
      result to the subsequence of first untried occurrences. */
  lemma {:induction false} DedupFirstOccurrenceOrder(cands: seq<Candidate>, tried: set<Candidate>)
    ensures InFirstOccurrenceOrder(Dedup(cands, tried), cands)
    decreases |cands|
  {
    if |cands| > 0 {
      var c := cands[0];
      var tried' := if c in tried then tried else tried + {c};
      var rest := Dedup(cands[1..], tried');
      DedupFirstOccurrenceOrder(cands[1..], tried');
      assert c !in rest;
      OrderTail(rest, cands);
      if c !in tried {
        OrderCons(rest, cands);
      }
    }
  }

  /** Order by first occurrence survives putting back the head of `s`, as
      long as it is not in `r`. */
  lemma OrderTail(r: seq<Candidate>, s: seq<Candidate>)
    requires |s| > 0 && s[0] !in r
    requires InFirstOccurrenceOrder(r, s[1..])
    ensures InFirstOccurrenceOrder(r, s)
  {
    forall i | 0 <= i < |r|
      ensures r[i] in s && FirstIndex(s, r[i]) == FirstIndex(s[1..], r[i]) + 1
    {
      assert r[i] in s[1..];
      FirstIndexTail(s, r[i]);
    }
  }

  lemma ConsIndex(x: Candidate, r: seq<Candidate>, k: nat)
    requires 0 < k <= |r|
    ensures ([x] + r)[k] == r[k - 1]
  {
  }

  /** ... and the head of `s` may lead. */
  lemma OrderCons(r: seq<Candidate>, s: seq<Candidate>)
    requires |s| > 0 && InFirstOccurrenceOrder(r, s)
    requires forall i :: 0 <= i < |r| ==> FirstIndex(s, r[i]) > 0
    ensures InFirstOccurrenceOrder([s[0]] + r, s)
  {
    var r' := [s[0]] + r;
    assert FirstIndex(s, s[0]) == 0;
    forall i, j | 0 <= i < j < |r'|
      ensures FirstIndex(s, r'[i]) < FirstIndex(s, r'[j])
    {
      ConsIndex(s[0], r, j);
      if i > 0 {
        ConsIndex(s[0], r, i);
      }
    }
  }

  function Elements(s: seq<Candidate>): (r: set<Candidate>)
    ensures forall x :: x in r <==> x in s
  {
    set x | x in s
  }

  /** One shared `tried_types` set across tiers is the same as filtering each
      tier against everything the earlier tiers proposed. */
  lemma {:induction false} DedupAppend(a: seq<Candidate>, b: seq<Candidate>, tried: set<Candidate>)
    ensures Dedup(a + b, tried) == Dedup(a, tried) + Dedup(b, tried + Elements(a))
    decreases |a|
  {
    if |a| == 0 {
      assert a + b == b;
      assert tried + Elements(a) == tried;
    } else {
      var c := a[0];
      assert (a + b)[1..] == a[1..] + b;
      if c in tried {
        DedupAppend(a[1..], b, tried);
        assert tried + Elements(a[1..]) == tried + Elements(a);
      } else {
        DedupAppend(a[1..], b, tried + {c});
        assert tried + {c} + Elements(a[1..]) == tried + Elements(a);
      }
    }
  }

  /** `get_extractor`'s order of candidates over the extension table
      `entries`: MIME tier, then extension tier, then magic tier, each pair
      at most once.  The program as written runs it over
      `ExtEntriesAsWritten`; the rest of the model uses `ExtEntries`, whose
      `tar.lz` row is corrected. */
  function Candidates(entries: seq<ExtEntry>, g: MimeGuess, filename: string, magic: Option<string>): (r: seq<Candidate>)
    ensures NoDuplicates(r)
    ensures forall c :: c in r <==> c in TryByMimetype(g) || c in TryByExtensionWith(entries, filename) || c in TryByMagic(filename, magic)
  {
    Dedup(TryByMimetype(g) + TryByExtensionWith(entries, filename) + TryByMagic(filename, magic), {})
  }

  /** Tier order: the result is the MIME tier, then what the extension tier
      adds, then what the magic tier adds. */
  lemma CandidatesTierOrder(entries: seq<ExtEntry>, g: MimeGuess, filename: string, magic: Option<string>)
    ensures
      var m := TryByMimetype(g);
      var x := TryByExtensionWith(entries, filename);
      var y := TryByMagic(filename, magic);
      Candidates(entries, g, filename, magic) == m + Dedup(x, Elements(m)) + Dedup(y, Elements(m) + Elements(x))
  {
    ThreeTiers(TryByMimetype(g), TryByExtensionWith(entries, filename), TryByMagic(filename, magic));
  }

  lemma ThreeTiers(m: seq<Candidate>, x: seq<Candidate>, y: seq<Candidate>)
    requires |m| <= 1
    ensures Dedup(m + x + y, {}) == m + Dedup(x, Elements(m)) + Dedup(y, Elements(m) + Elements(x))
  {
    DedupAppend(m + x, y, {});
    DedupAppend(m, x, {});
    assert Dedup(m, {}) == m by {
      if |m| == 1 {
        assert m[1..] == [];
      }
    }
    assert Elements(m + x) == Elements(m) + Elements(x);
    assert {} + Elements(m + x) == Elements(m) + Elements(x);
    assert {} + Elements(m) == Elements(m);
  }

  /** One extractor to attempt: the candidate it came from and its class. */
  datatype Attempt = Attempt(cand: Candidate, variant: Variant)

  /** `build_extractor` applied to each candidate in turn: every class that
      handles the candidate's kind, in class-table order. */
  function Plan(cands: seq<Candidate>, metadata: bool): (r: seq<Attempt>)
    ensures |r| >= |cands|
    ensures forall a :: a in r ==> a.cand in cands && a.variant in BuildVariants(a.cand.kind, metadata)
    ensures forall c, v :: c in cands && v in BuildVariants(c.kind, metadata) ==> Attempt(c, v) in r
    ensures |cands| > 0 ==> r[0] == Attempt(cands[0], BuildVariants(cands[0].kind, metadata)[0])
    decreases |cands|
  {
    if |cands| == 0 then []
    else
      var head := Expand(cands[0], metadata);
      var rest := Plan(cands[1..], metadata);
      assert forall c :: c in cands <==> c == cands[0] || c in cands[1..];
      head + rest
  }

  /** `build_extractor` for one candidate. */
  function Expand(c: Candidate, metadata: bool): (r: seq<Attempt>)
    ensures |r| == |BuildVariants(c.kind, metadata)| > 0
    ensures forall a :: a in r <==> a.cand == c && a.variant in BuildVariants(c.kind, metadata)
  {
    var vs := BuildVariants(c.kind, metadata);
    var r := seq(|vs|, i requires 0 <= i < |vs| => Attempt(c, vs[i]));
    forall v | v in vs
      ensures Attempt(c, v) in r
    {
      var i :| 0 <= i < |vs| && vs[i] == v;
      assert r[i] == Attempt(c, v);
    }
    r
  }

  /** One candidate gives one attempt per class that handles its kind, in
      class-table order. */
  lemma PlanOne(c: Candidate, metadata: bool)
    ensures var vs := BuildVariants(c.kind, metadata);
      |Plan([c], metadata)| == |vs| && forall i :: 0 <= i < |vs| ==> Plan([c], metadata)[i] == Attempt(c, vs[i])
  {
    assert [c][1..] == [];
  }

  /** Candidates are expanded one after another, in candidate order. */
  lemma {:induction false} PlanAppend(a: seq<Candidate>, b: seq<Candidate>, metadata: bool)
    ensures Plan(a + b, metadata) == Plan(a, metadata) + Plan(b, metadata)
    decreases |a|
  {
    if |a| == 0 {
      assert a + b == b;
    } else {
      var h := Expand(a[0], metadata);
      assert Plan(a + b, metadata) == h + Plan(a[1..] + b, metadata) by {
        assert (a + b)[0] == a[0];
        assert (a + b)[1..] == a[1..] + b;
      }
      PlanAppend(a[1..], b, metadata);
      assert h + (Plan(a[1..], metadata) + Plan(b, metadata)) == (h + Plan(a[1..], metadata)) + Plan(b, metadata);
    }
  }

  /** `ExtractorBuilder.try_by_mimetype(f) or try_by_extension(f)`, the test
      that marks an extracted file as a nested archive. */
  predicate LooksLikeArchive(g: MimeGuess, filename: string) {
    TryByMimetype(g) != [] || TryByExtension(filename) != []
  }

  // ---------------------------------------------------------------------------
  // Worked cases

  /** `project.tar.gz` by extension: the tar+gzip pair first, and the plain
      gzip stream among the rest. */
  lemma TarGzByExtension()
    ensures
      var r := TryByExtension("project.tar.gz");
      |r| > 0 && r[0] == Candidate(Tar, Some(Gzip)) && Candidate(Compressed, Some(Gzip)) in r
  {
    ProjectTarGzName();
    TarGzLookup();
    TryByExtensionFirst(ExtEntries, "project", "tar.gz", "tar", "gz");
    GzLookup();
    TryByExtensionHasLast(ExtEntries, "project", "tar", "gz", Candidate(Compressed, Some(Gzip)));
  }

  lemma ProjectTarGzName()
    ensures "tar.gz" == "tar" + "." + "gz"
    ensures "project.tar.gz" == "project" + "." + "tar.gz"
    ensures "project.tar.gz" == "project" + "." + "tar" + "." + "gz"
  {
  }

  /** `.cab` is claimed by two kinds; the cabinet kind comes first and the
      InstallShield kind is proposed too. */
  lemma CabByExtension()
    ensures
      var r := TryByExtension("setup.cab");
      |r| > 0 && r[0] == Candidate(Cab, None) && Candidate(Shield, None) in r
  {
    assert "setup.cab" == "setup" + "." + "cab";
    TryByExtensionTwoPieces(ExtEntries, "setup", "cab");
    SetupCabMiss();
    CabLookup();
  }

  /** A name without a dot gets no extension candidates at all. */
  lemma DotlessHasNoExtensionCandidates(filename: string)
    requires '.' !in filename
    ensures TryByExtension(filename) == []
  {
  }

  /** The `tar.lz` row as written pairs tar with the encoding name `lz`; the
      extension tier proposes that pair first for any `*.tar.lz` name, and the
      constructor rejects it with a ValueError, which is not among the errors
      the driver recovers from. */
  lemma TarLzRowAsWritten(stem: string)
    ensures
      var r := TryByExtensionWith(ExtEntriesAsWritten, stem + ".tar.lz");
      |r| > 0 && r[0] == Candidate(Tar, Some(Lz)) && Construct(TarExtractor, r[0].encoding).Err?
  {
    TarLzName(stem);
    TarLzLookupAsWritten();
    TryByExtensionFirst(ExtEntriesAsWritten, stem, "tar.lz", "tar", "lz");
  }

  /** As written, `x.tar.lz` only reaches the `(tar, lz)` pair after the MIME
      tier: `mimetypes` reads `.lz` as the encoding `lzip` and `.tar` as a tar
      archive, so tar+lzip is tried first and the faulty pair raises only
      once that attempt has failed. */
  lemma TarLzAfterMimeTier(stem: string, magic: Option<string>)
    ensures
      var g := MimeGuess(Some("application/x-tar"), Some(Lzip));
      var name := stem + ".tar.lz";
      var r := Candidates(ExtEntriesAsWritten, g, name, magic);
      |r| >= 2 && r[0] == Candidate(Tar, Some(Lzip)) && Candidate(Tar, Some(Lz)) in r[1..]
  {
    var g := MimeGuess(Some("application/x-tar"), Some(Lzip));
    var name := stem + ".tar.lz";
    var m := TryByMimetype(g);
    assert m == [Candidate(Tar, Some(Lzip))] by {
      TarMime();
    }
    var x := TryByExtensionWith(ExtEntriesAsWritten, name);
    assert Candidate(Tar, Some(Lz)) in x by {
      TarLzRowAsWritten(stem);
    }
    SecondTierKept(m, x, TryByMagic(name, magic), Candidate(Tar, Some(Lz)));
  }

  /** A candidate of the second tier that the one-candidate first tier does
      not already hold is tried after that first candidate. */
  lemma SecondTierKept(m: seq<Candidate>, x: seq<Candidate>, y: seq<Candidate>, c: Candidate)
    requires |m| == 1 && c in x && c != m[0]
    ensures var r := Dedup(m + x + y, {}); |r| >= 2 && r[0] == m[0] && c in r[1..]
  {
    var mid := Dedup(x, Elements(m));
    var rest := Dedup(y, Elements(m) + Elements(x));
    assert Dedup(m + x + y, {}) == m + mid + rest by {
      ThreeTiers(m, x, y);
    }
    assert c !in Elements(m) by {
      assert m == [m[0]];
    }
    assert c in mid by {
      DedupKeeps(x, Elements(m), c);
    }
    AfterHead(m, mid, rest, c);
  }

  lemma AfterHead(m: seq<Candidate>, mid: seq<Candidate>, rest: seq<Candidate>, c: Candidate)
    requires |m| == 1 && c in mid
    ensures var r := m + mid + rest; |r| >= 2 && r[0] == m[0] && c in r[1..]
  {
    var r := m + mid + rest;
    assert r[1..] == mid + rest;
  }

  lemma TarLzName(stem: string)
    ensures stem + ".tar.lz" == stem + "." + "tar.lz"
    ensures "tar.lz" == "tar" + "." + "lz"
  {
  }

  /** With the corrected entry every encoded pair of the extension table can be
      built by every class its kind names. */
  lemma EncodedEntriesConstructible(e: ExtEntry, metadata: bool, v: Variant)
    requires e in EncodedExtEntries
    requires v in BuildVariants(e.cand.kind, metadata)
    ensures Construct(v, e.cand.encoding).Ok?
  {
  }

  /** The corrected table proposes tar+lzip first for `*.tar.lz`. */
  lemma TarLzRow(stem: string)
    ensures
      var r := TryByExtension(stem + ".tar.lz");
      |r| > 0 && r[0] == Candidate(Tar, Some(Lzip)) && Construct(TarExtractor, r[0].encoding).Ok?
  {
    TarLzName(stem);
    TarLzLookup();
    TryByExtensionFirst(ExtEntries, stem, "tar.lz", "tar", "lz");
  }
}
