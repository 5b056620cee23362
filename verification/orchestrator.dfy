/** The application loop (dtrx/dtrx.py:427-441, 1758-1771, 1785-1816,
    1832-1857): trying each extractor in turn, queueing nested archives by
    directory, and the exit status.  The extractions themselves, the file
    system and the user's answers are parameters. */
module Orchestrator {

  import opened Wrappers
  import opened Strings
  import opened Formats
  import Classifier
  import Policy
  import Placement
  import Contents
  import Pipeline
  import Listing

  // ---------------------------------------------------------------------------
  // extract: the scratch directory and the working directory

  /** The part of the file system `extract` touches: the working directory
      and the set of directories that exist. */
  datatype Fs = Fs(cwd: string, dirs: set<string>)

  /** The exceptions the extraction steps can raise.  Only the first four
      make up `EXTRACTION_ERRORS` (dtrx/dtrx.py:205); an IndexError from a
      bare encoding name or a KeyError from a braced password is another
      kind. */
  datatype ErrorKind = ExtractorError | ExtractorUnusable | OSError | IOError | IndexError | KeyError

  predicate IsExtractionError(k: ErrorKind) {
    k in {ExtractorError, ExtractorUnusable, OSError, IOError}
  }

  /** How the steps inside the scratch directory end. */
  datatype Steps = Finished | Raising(kind: ErrorKind, message: string)

  /** The steps end with an exception `extract` does not catch. */
  predicate Escapes(steps: Steps) {
    steps.Raising? && !IsExtractionError(steps.kind)
  }

  /** `BaseExtractor.extract`: make the scratch directory (`scratch` is what
      `mkdtemp` returns, or the reason it failed) and run the extraction
      steps inside it.  When a step raises one of `EXTRACTION_ERRORS`, the old
      working directory is restored, the scratch directory removed and the
      error raised again; any other exception passes straight through and
      leaves both behind. */
  function Extract(fs: Fs, scratch: Result<string, string>, steps: Steps): (r: (Steps, Fs))
    ensures scratch.Err? ==> r == (Raising(ExtractorError, "cannot extract here: " + scratch.error), fs)
    ensures scratch.Ok? ==> r.0 == steps
    ensures !(scratch.Ok? && Escapes(steps)) ==> r.1.cwd == fs.cwd
    ensures scratch.Ok? && Escapes(steps) ==> r.1.cwd == scratch.value
    ensures scratch.Ok? && !(steps.Raising? && IsExtractionError(steps.kind)) ==> r.1.dirs == fs.dirs + {scratch.value}
    ensures scratch.Ok? && steps.Raising? && IsExtractionError(steps.kind) ==> r.1.dirs == fs.dirs - {scratch.value}
  {
    match scratch
    case Err(why) => (Raising(ExtractorError, "cannot extract here: " + why), fs)
    case Ok(t) =>
      var inside := Fs(t, fs.dirs + {t});
      match steps
      case Finished => (Finished, Fs(fs.cwd, inside.dirs))
      case Raising(k, e) =>
        if IsExtractionError(k) then (steps, Fs(fs.cwd, inside.dirs - {t}))
        else (steps, inside)
  }

  /** For a fresh scratch directory: the working directory comes back unless
      the exception escapes, the scratch directory stays unless the error is
      caught, and no other directory changes.  A caught error is a complete
      rollback: the file system is as it was before. */
  lemma ExtractLeaves(fs: Fs, t: string, steps: Steps)
    requires t !in fs.dirs && fs.cwd != t
    ensures var r := Extract(fs, Ok(t), steps);
      && (r.1.cwd == fs.cwd <==> !Escapes(steps))
      && (t in r.1.dirs <==> !(steps.Raising? && IsExtractionError(steps.kind)))
      && (forall d :: d != t ==> (d in r.1.dirs <==> d in fs.dirs))
      && (steps.Raising? && IsExtractionError(steps.kind) ==> r.1 == fs)
  {
    if steps.Raising? && IsExtractionError(steps.kind) {
      assert fs.dirs + {t} - {t} == fs.dirs;
    }
  }

  // ---------------------------------------------------------------------------
  // try_extractors

  /** What the attempts at one file depend on besides their classes: the
      file's path, the reason opening it fails (none when it opens), what
      `ar t` lists when it is a Debian package, the `lrz` entry of the shared
      decoder table when the search starts, the `lrzip --help` probe, and the
      action, which runs a built extractor and returns its error message or
      nothing, or the message of an exception that `report` does not catch. */
  datatype Env = Env(path: string, openError: Option<string>, deb: Pipeline.DebListing, lrz: Option<seq<string>>, lrzipHasQ: bool,
                     run: Extractor -> Result<Option<string>, string>)

  /** The constructor's error for a file it cannot open: the OSError of the
      no-pipe classes' `os.open`, or the ExtractorError of the others'
      `open`. */
  function OpenFailure(v: Variant, path: string, why: string): string {
    if IsNoPipe(v) then "OSError: " + why else "could not open " + path + ": " + why
  }

  /** `BaseAction.report` around one step that ends as `steps`: nothing when
      it finished, the message of one of `EXTRACTION_ERRORS`, and any other
      exception passed on to the caller. */
  function Report(steps: Steps): (r: Result<Option<string>, string>)
    ensures r.Err? <==> Escapes(steps)
    ensures r == Ok(None) <==> steps.Finished?
    ensures steps.Raising? ==> (r.Ok? ==> r.value == Some(steps.message)) && (r.Err? ==> r.error == steps.message)
  {
    match steps
    case Finished => Ok(None)
    case Raising(k, e) => if IsExtractionError(k) then Ok(Some(e)) else Err(e)
  }

  /** The `lrz` entry of the shared decoder table once the first `n` attempts
      have been built: every constructor may register the lrzip decoder. */
  function TableBuilt(attempts: seq<Classifier.Attempt>, n: nat, env: Env): (r: Option<seq<string>>)
    requires n <= |attempts|
    ensures env.lrz.Some? ==> r.Some?
    ensures (exists j :: 0 <= j < n && Registers(attempts[j].variant, attempts[j].cand.encoding)) ==> r == Some(LrzipDecoder(env.lrzipHasQ))
    ensures (forall j :: 0 <= j < n ==> !Registers(attempts[j].variant, attempts[j].cand.encoding)) ==> r == env.lrz
    decreases n
  {
    if n == 0 then env.lrz
    else
      var a := attempts[n - 1];
      TableAfter(a.variant, a.cand.encoding, TableBuilt(attempts, n - 1, env), env.lrzipHasQ)
  }

  /** How a single attempt goes, with `lrz` the shared table once its
      extractor is built.  The constructor raises for an unknown encoding,
      then for a file it cannot open, and the Debian constructor also runs
      `prepare`, whose errors escape the same way; otherwise the action runs,
      and either reports an error or nothing, or raises an exception that
      escapes as well.  The constructor runs inside `get_extractor`, outside
      `report`, so even its ExtractorError is not caught. */
  function AttemptResult(a: Classifier.Attempt, env: Env, lrz: Option<seq<string>>): (r: Result<Option<string>, string>)
    ensures r.Err? <==> || Construct(a.variant, a.cand.encoding).Err?
                        || env.openError.Some?
                        || (a.variant == DebExtractor && Pipeline.DebPrepare(env.path, env.deb, lrz).Err?)
                        || env.run(Construct(a.variant, a.cand.encoding).value).Err?
    ensures Construct(a.variant, a.cand.encoding).Err? ==> r == Err(Construct(a.variant, a.cand.encoding).error)
    ensures Construct(a.variant, a.cand.encoding).Ok? && env.openError.Some?
      ==> r == Err(OpenFailure(a.variant, env.path, env.openError.value))
    ensures Construct(a.variant, a.cand.encoding).Ok? && env.openError.None?
            && !(a.variant == DebExtractor && Pipeline.DebPrepare(env.path, env.deb, lrz).Err?)
      ==> r == env.run(Construct(a.variant, a.cand.encoding).value)
  {
    match Construct(a.variant, a.cand.encoding)
    case Err(e) => Err(e)
    case Ok(x) =>
      if env.openError.Some? then Err(OpenFailure(x.variant, env.path, env.openError.value))
      else if x.variant == DebExtractor && Pipeline.DebPrepare(env.path, env.deb, lrz).Err? then
        Err(Pipeline.DebPrepare(env.path, env.deb, lrz).error)
      else env.run(x)
  }

  /** Attempt `i` of the search, built after every earlier one. */
  function AttemptAt(attempts: seq<Classifier.Attempt>, i: nat, env: Env): Result<Option<string>, string>
    requires i < |attempts|
  {
    AttemptResult(attempts[i], env, TableBuilt(attempts, i + 1, env))
  }

  /** Python's `if error:`: only a non-empty message counts as a failure, so
      an action that reports the empty string has succeeded. */
  predicate Failing(error: Option<string>) {
    error.Some? && error.value != ""
  }

  /** What `try_extractors` ends with: the index of the extractor that
      worked, every error when all failed, no candidate at all, or an
      exception a constructor or an action raised that nothing catches. */
  datatype Outcome = Extracted(index: nat) | AllFailed(errors: seq<string>) | NotKnown | Raised(error: string)

  /** Whether the attempts before `i` all ran and failed with `errors`. */
  predicate FailedBefore(attempts: seq<Classifier.Attempt>, env: Env, i: nat, errors: seq<string>)
    requires i <= |attempts|
  {
    |errors| == i && forall j :: 0 <= j < i ==> AttemptAt(attempts, j, env) == Ok(Some(errors[j])) && errors[j] != ""
  }

  /** Attempt `j` was constructed, ran, and reported an error. */
  predicate FailedAt(attempts: seq<Classifier.Attempt>, env: Env, j: nat)
    requires j < |attempts|
  {
    AttemptAt(attempts, j, env).Ok? && Failing(AttemptAt(attempts, j, env).value)
  }

  function TryFrom(attempts: seq<Classifier.Attempt>, env: Env, i: nat, errors: seq<string>): (r: Outcome)
    requires i <= |attempts|
    requires FailedBefore(attempts, env, i, errors)
    ensures r.NotKnown? <==> |attempts| == 0
    ensures r.Extracted? ==> (
      && i <= r.index < |attempts|
      && AttemptAt(attempts, r.index, env).Ok? && !Failing(AttemptAt(attempts, r.index, env).value)
      && forall j :: 0 <= j < r.index ==> FailedAt(attempts, env, j))
    ensures r.AllFailed? ==> FailedBefore(attempts, env, |attempts|, r.errors)
    ensures r.Raised? ==> exists k :: (
      && i <= k < |attempts|
      && AttemptAt(attempts, k, env) == Err(r.error)
      && forall j :: 0 <= j < k ==> FailedAt(attempts, env, j))
    decreases |attempts| - i
  {
    if i == |attempts| then
      if |errors| == 0 then NotKnown else AllFailed(errors)
    else match AttemptAt(attempts, i, env)
      case Err(e) => Raised(e)
      case Ok(e) =>
        if !Failing(e) then Extracted(i)
        else TryFrom(attempts, env, i + 1, errors + [e.value])
  }

  /** `try_extractors`: the attempts run in order and the first success ends
      the search. */
  function TryExtractors(attempts: seq<Classifier.Attempt>, env: Env): (r: Outcome)
    ensures r.NotKnown? <==> |attempts| == 0
    ensures r.Extracted? ==> (
      && r.index < |attempts|
      && AttemptAt(attempts, r.index, env).Ok? && !Failing(AttemptAt(attempts, r.index, env).value)
      && forall j :: 0 <= j < r.index ==> FailedAt(attempts, env, j))
    ensures r.AllFailed? ==> (
      && |r.errors| == |attempts| > 0
      && forall j :: 0 <= j < |attempts| ==> AttemptAt(attempts, j, env) == Ok(Some(r.errors[j])) && r.errors[j] != "")
  {
    TryFrom(attempts, env, 0, [])
  }

  /** Extra attempts after the first `|attempts|` change nothing about the
      table those see. */
  lemma {:induction false} TableBuiltPrefix(attempts: seq<Classifier.Attempt>, rest: seq<Classifier.Attempt>, n: nat, env: Env)
    requires n <= |attempts|
    ensures TableBuilt(attempts + rest, n, env) == TableBuilt(attempts, n, env)
    decreases n
  {
    if n > 0 {
      TableBuiltPrefix(attempts, rest, n - 1, env);
      assert (attempts + rest)[n - 1] == attempts[n - 1];
    }
  }

  lemma AttemptAtPrefix(attempts: seq<Classifier.Attempt>, rest: seq<Classifier.Attempt>, j: nat, env: Env)
    requires j < |attempts|
    ensures AttemptAt(attempts + rest, j, env) == AttemptAt(attempts, j, env)
  {
    TableBuiltPrefix(attempts, rest, j + 1, env);
    assert (attempts + rest)[j] == attempts[j];
  }

  /** Whatever comes after the first success is never tried. */
  lemma {:induction false} FirstSuccessStops(attempts: seq<Classifier.Attempt>, rest: seq<Classifier.Attempt>, env: Env, i: nat, errors: seq<string>)
    requires i <= |attempts|
    requires FailedBefore(attempts, env, i, errors)
    requires TryFrom(attempts, env, i, errors).Extracted?
    ensures FailedBefore(attempts + rest, env, i, errors)
    ensures TryFrom(attempts + rest, env, i, errors) == TryFrom(attempts, env, i, errors)
    decreases |attempts| - i
  {
    forall j | 0 <= j < i
      ensures AttemptAt(attempts + rest, j, env) == AttemptAt(attempts, j, env)
    {
      AttemptAtPrefix(attempts, rest, j, env);
    }
    if i < |attempts| {
      AttemptAtPrefix(attempts, rest, i, env);
      var e := AttemptAt(attempts, i, env);
      if e.Ok? && Failing(e.value) {
        FirstSuccessStops(attempts, rest, env, i + 1, errors + [e.value.value]);
      }
    }
  }

  /** The `("tar", "lz")` attempt is never run: its constructor raises, and
      the exception leaves `try_extractors`. */
  lemma TarLzRaises(env: Env, rest: seq<Classifier.Attempt>)
    ensures TryExtractors([Classifier.Attempt(Candidate(Tar, Some(Lz)), TarExtractor)] + rest, env)
      == Raised("unrecognized encoding lz")
  {
    var a := [Classifier.Attempt(Candidate(Tar, Some(Lz)), TarExtractor)] + rest;
    assert a[0].variant == TarExtractor;
    assert AttemptAt(a, 0, env) == Err("unrecognized encoding lz");
  }

  /** A file that passes `check_file` but cannot be opened (one without read
      permission) ends the search at its first constructible candidate, with
      the constructor's error. */
  lemma UnopenableRaises(env: Env, c: Candidate, v: Variant, rest: seq<Classifier.Attempt>)
    requires Construct(v, c.encoding).Ok?
    requires env.openError.Some?
    ensures TryExtractors([Classifier.Attempt(c, v)] + rest, env) == Raised(OpenFailure(v, env.path, env.openError.value))
  {
    var a := [Classifier.Attempt(c, v)] + rest;
    assert a[0] == Classifier.Attempt(c, v);
    assert AttemptAt(a, 0, env) == Err(OpenFailure(v, env.path, env.openError.value));
  }

  /** A Debian package without a `data.tar.*` member: the constructor's
      `prepare` raises, and the search ends there. */
  lemma DebWithoutDataRaises(env: Env, rest: seq<Classifier.Attempt>)
    requires env.openError.None?
    requires Pipeline.DebDataMember(env.deb.members).None?
    ensures TryExtractors([Classifier.Attempt(Candidate(Deb, None), DebExtractor)] + rest, env)
      == Raised(".deb contains no data.tar file")
  {
    var a := [Classifier.Attempt(Candidate(Deb, None), DebExtractor)] + rest;
    assert a[0].variant == DebExtractor;
    assert AttemptAt(a, 0, env) == Err(".deb contains no data.tar file");
  }

  /** A Debian package whose data member is lrzip-compressed, looked at before
      any lrzip extractor was built: the decoder lookup in `prepare` is a
      KeyError, which escapes the search. */
  lemma DebLrzipRaises(env: Env, rest: seq<Classifier.Attempt>)
    requires env.openError.None?
    requires env.lrz.None?
    requires Pipeline.DebDataMember(env.deb.members).Some?
    requires env.deb.guessEncoding(env.deb.members[Pipeline.DebDataMember(env.deb.members).value]) == Some(Lrzip)
    ensures TryExtractors([Classifier.Attempt(Candidate(Deb, None), DebExtractor)] + rest, env)
      == Raised("KeyError: " + EncodingName(Lrzip))
  {
    var a := [Classifier.Attempt(Candidate(Deb, None), DebExtractor)] + rest;
    assert a[0].variant == DebExtractor;
    assert TableBuilt(a, 1, env) == None;
    assert AttemptAt(a, 0, env) == Err("KeyError: " + EncodingName(Lrzip));
  }

  /** An action that reports the empty string ends the search as a success:
      the list action does so for a Brotli file, whose lister raises an error
      without a message, so `dtrx -l` lists nothing and reports no failure. */
  lemma EmptyErrorSucceeds(env: Env, rest: seq<Classifier.Attempt>)
    requires env.openError.None?
    requires env.run(Extractor(BrotliExtractor, None)) == Ok(Listing.ListReport(Listing.BrotliNames()))
    ensures TryExtractors([Classifier.Attempt(Candidate(Brotli, None), BrotliExtractor)] + rest, env) == Extracted(0)
  {
    var a := [Classifier.Attempt(Candidate(Brotli, None), BrotliExtractor)] + rest;
    assert a[0].variant == BrotliExtractor;
    assert AttemptAt(a, 0, env) == Ok(Some(""));
  }

  /** An extraction whose steps raise an exception outside
      `EXTRACTION_ERRORS` (the IndexError of a bare encoding name, the
      KeyError of a braced password) passes `extract`, `report` and
      `try_extractors`: the search ends with it, whatever comes after. */
  lemma EscapeEndsSearch(env: Env, a: Classifier.Attempt, rest: seq<Classifier.Attempt>, fs: Fs, t: string, steps: Steps)
    requires env.openError.None?
    requires Construct(a.variant, a.cand.encoding).Ok? && a.variant != DebExtractor
    requires env.run(Construct(a.variant, a.cand.encoding).value) == Report(Extract(fs, Ok(t), steps).0)
    requires Escapes(steps)
    ensures TryExtractors([a] + rest, env) == Raised(steps.message)
  {
    var attempts := [a] + rest;
    assert attempts[0] == a;
    assert AttemptAt(attempts, 0, env) == Err(steps.message);
  }

  /** An extraction whose steps raise one of `EXTRACTION_ERRORS` with a
      message is a failed attempt, and the search goes on. */
  lemma CaughtErrorFails(env: Env, a: Classifier.Attempt, rest: seq<Classifier.Attempt>, fs: Fs, t: string, steps: Steps)
    requires env.openError.None?
    requires Construct(a.variant, a.cand.encoding).Ok? && a.variant != DebExtractor
    requires env.run(Construct(a.variant, a.cand.encoding).value) == Report(Extract(fs, Ok(t), steps).0)
    requires steps.Raising? && IsExtractionError(steps.kind) && steps.message != ""
    ensures TryExtractors([a] + rest, env) == TryFrom([a] + rest, env, 1, [steps.message])
  {
    var attempts := [a] + rest;
    assert attempts[0] == a;
    assert AttemptAt(attempts, 0, env) == Ok(Some(steps.message));
    assert [] + [steps.message] == [steps.message];
  }

  // ---------------------------------------------------------------------------
  // The queue of archives, by directory

  /** The files to handle in one directory. */
  datatype Batch = Batch(dir: string, files: seq<string>)

  /** No directory is queued twice: the queue is a dictionary. */
  predicate DistinctDirs(queue: seq<Batch>) {
    forall i, j :: 0 <= i < j < |queue| ==> queue[i].dir != queue[j].dir
  }

  function DirIndex(queue: seq<Batch>, dir: string): (r: Option<nat>)
    ensures r.None? <==> forall i :: 0 <= i < |queue| ==> queue[i].dir != dir
    ensures r.Some? ==> r.value < |queue| && queue[r.value].dir == dir
    decreases |queue|
  {
    if |queue| == 0 then None
    else if Last(queue).dir == dir then Some(|queue| - 1)
    else DirIndex(queue[..|queue| - 1], dir)
  }

  /** `archives.setdefault(dir, []).append(name)`: a directory already in the
      queue keeps its place and gains the name; a new one goes last. */
  function Enqueue(queue: seq<Batch>, dir: string, name: string): (r: seq<Batch>)
    requires DistinctDirs(queue)
    ensures DistinctDirs(r)
    ensures |r| == |queue| || r == queue + [Batch(dir, [name])]
    ensures exists i :: 0 <= i < |r| && r[i].dir == dir && EndsWithName(r[i].files, name)
    ensures forall i :: 0 <= i < |queue| && queue[i].dir != dir ==> r[i] == queue[i]
  {
    match DirIndex(queue, dir)
    case None =>
      var r := queue + [Batch(dir, [name])];
      assert r[|queue|].dir == dir && EndsWithName(r[|queue|].files, name);
      r
    case Some(i) =>
      var r := queue[i := Batch(dir, queue[i].files + [name])];
      assert EndsWithName(r[i].files, name);
      r
  }

  /** The list ends with `name`. */
  predicate EndsWithName(files: seq<string>, name: string) {
    |files| > 0 && files[|files| - 1] == name
  }

  /** `name` waits in the queue under `dir`. */
  predicate Queued(queue: seq<Batch>, dir: string, name: string) {
    exists i :: 0 <= i < |queue| && queue[i].dir == dir && name in queue[i].files
  }

  /** Queue several (directory, name) pairs in order. */
  function EnqueueAll(queue: seq<Batch>, found: seq<(string, string)>): (r: seq<Batch>)
    requires DistinctDirs(queue)
    ensures DistinctDirs(r)
    ensures |queue| <= |r| <= |queue| + |found|
    decreases |found|
  {
    if |found| == 0 then queue
    else EnqueueAll(Enqueue(queue, found[0].0, found[0].1), found[1..])
  }

  /** A name, once queued under a directory, stays queued there. */
  lemma {:induction false} EnqueueAllKeeps(queue: seq<Batch>, found: seq<(string, string)>, dir: string, name: string)
    requires DistinctDirs(queue)
    requires Queued(queue, dir, name)
    ensures Queued(EnqueueAll(queue, found), dir, name)
    decreases |found|
  {
    if |found| > 0 {
      var q := Enqueue(queue, found[0].0, found[0].1);
      var i :| 0 <= i < |queue| && queue[i].dir == dir && name in queue[i].files;
      assert q[i].dir == dir && name in q[i].files by {
        if queue[i].dir == found[0].0 {
          var k := DirIndex(queue, found[0].0).value;
          assert k == i;
          assert q[i].files == queue[i].files + [found[0].1];
        }
      }
      EnqueueAllKeeps(q, found[1..], dir, name);
    }
  }

  /** Every pair handed to `EnqueueAll` ends up queued under its directory. */
  lemma {:induction false} EnqueueAllQueues(queue: seq<Batch>, found: seq<(string, string)>, k: nat)
    requires DistinctDirs(queue)
    requires k < |found|
    ensures Queued(EnqueueAll(queue, found), found[k].0, found[k].1)
    decreases |found|
  {
    var q := Enqueue(queue, found[0].0, found[0].1);
    assert EnqueueAll(queue, found) == EnqueueAll(q, found[1..]);
    if k == 0 {
      EnqueueQueued(queue, found[0].0, found[0].1);
      EnqueueAllKeeps(q, found[1..], found[0].0, found[0].1);
    } else {
      EnqueueAllQueues(q, found[1..], k - 1);
      assert found[1..][k - 1] == found[k];
    }
  }

  lemma EnqueueQueued(queue: seq<Batch>, dir: string, name: string)
    requires DistinctDirs(queue)
    ensures Queued(Enqueue(queue, dir, name), dir, name)
  {
    var q := Enqueue(queue, dir, name);
    var i :| 0 <= i < |q| && q[i].dir == dir && EndsWithName(q[i].files, name);
    assert name in q[i].files;
  }

  // ---------------------------------------------------------------------------
  // recurse

  /** `os.path.split`: the directory part, without its trailing slashes
      unless it is made of nothing else, and the last component. */
  function PathSplit(p: string): (r: (string, string))
    ensures '/' !in r.1
    ensures '/' !in p ==> r == ("", p)
  {
    match LastIndexOf(p, '/')
    case None => ("", p)
    case Some(i) =>
      var head := p[..i + 1];
      var trimmed := RStripChar(head, '/');
      (if trimmed == "" then head else trimmed, p[i + 1..])
  }

  /** Splitting the path `check_included_archives` made from a directory
      without a trailing slash and a file name gives both back. */
  lemma SplitJoinPath(dir: string, f: string)
    requires '/' !in f
    requires dir != "" ==> !EndsWith(dir, "/")
    ensures PathSplit(Contents.JoinPath(dir, f)) == (dir, f)
  {
    var p := Contents.JoinPath(dir, f);
    if dir != "" {
      assert p == dir + "/" + f;
      var i := |dir|;
      assert p[i] == '/';
      assert p[i + 1..] == f;
      assert LastIndexOf(p, '/') == Some(i);
      assert p[..i + 1] == dir + "/";
      RStripOneSlash(dir);
    }
  }

  lemma RStripOneSlash(dir: string)
    requires dir != "" && !EndsWith(dir, "/")
    ensures RStripChar(dir + "/", '/') == dir
  {
    assert (dir + "/")[..|dir|] == dir;
    assert dir[|dir| - 1..] == [dir[|dir| - 1]];
  }

  /** The directory `recurse` queues a nested archive under: the current
      directory, the action's target when that is a directory, the included
      root, and the archive's own directory part. */
  function QueueDir(curdir: string, target: string, targetIsDir: bool, includedRoot: string, archive: string): (r: string)
    ensures StartsWith(curdir, "/") && (targetIsDir ==> !StartsWith(target, "/"))
            && !StartsWith(includedRoot, "/") && !StartsWith(PathSplit(archive).0, "/")
      ==> StartsWith(r, "/")
  {
    var tail := PathSplit(archive).0;
    var prefix := if targetIsDir then [curdir, target] else [curdir];
    var parts := prefix + [includedRoot, tail];
    assert parts[0] == curdir;
    assert targetIsDir ==> parts[1] == target;
    JoinAbsolute(parts);
    Placement.JoinParts(parts)
  }

  /** `os.path.join` keeps an absolute first part when no later part is
      absolute. */
  lemma {:induction false} JoinAbsolute(parts: seq<string>)
    requires |parts| >= 1
    ensures StartsWith(parts[0], "/") && (forall i :: 1 <= i < |parts| ==> !StartsWith(parts[i], "/"))
      ==> StartsWith(Placement.JoinParts(parts), "/")
    decreases |parts|
  {
    if |parts| > 1 {
      var init := parts[..|parts| - 1];
      JoinAbsolute(init);
      assert init[0] == parts[0];
      assert forall i :: 1 <= i < |init| ==> init[i] == parts[i];
      assert Last(parts) == parts[|parts| - 1];
    }
  }

  /** `recurse`: when the recursion policy allows it, every included archive
      is queued, by its base name, under its directory. */
  function Recurse(ok: bool, curdir: string, target: string, targetIsDir: bool, includedRoot: string, archives: seq<string>): (r: seq<(string, string)>)
    ensures !ok ==> r == []
    ensures ok ==> |r| == |archives|
    ensures ok ==> forall i :: 0 <= i < |archives| ==>
      var prefix := if targetIsDir then [curdir, target] else [curdir];
      r[i] == (Placement.JoinParts(prefix + [includedRoot, PathSplit(archives[i]).0]), PathSplit(archives[i]).1)
  {
    if !ok then []
    else
      seq(|archives|, i requires 0 <= i < |archives| =>
        (QueueDir(curdir, target, targetIsDir, includedRoot, archives[i]), PathSplit(archives[i]).1))
  }

  /** A nested archive `check_included_archives` recorded as `dir/f` is
      queued by its file name `f` under the join of the current directory,
      the action's target when that is a directory, the included root and
      `dir`. */
  lemma RecurseQueuesFound(curdir: string, target: string, targetIsDir: bool, includedRoot: string,
                           archives: seq<string>, i: nat, dir: string, f: string)
    requires i < |archives| && archives[i] == Contents.JoinPath(dir, f)
    requires '/' !in f && (dir != "" ==> !EndsWith(dir, "/"))
    ensures var r := Recurse(true, curdir, target, targetIsDir, includedRoot, archives);
      var prefix := if targetIsDir then [curdir, target] else [curdir];
      r[i] == (Placement.JoinParts(prefix + [includedRoot, dir]), f)
  {
    SplitJoinPath(dir, f);
    var prefix := if targetIsDir then [curdir, target] else [curdir];
    assert targetIsDir ==> prefix + [includedRoot, dir] == [curdir, target, includedRoot, dir];
    assert !targetIsDir ==> prefix + [includedRoot, dir] == [curdir, includedRoot, dir];
  }

  // ---------------------------------------------------------------------------
  // run

  /** What handling one file yields: whether it succeeded, the nested
      archives it queued and the one-entry policy afterwards; or the message
      of an exception that escaped, which ends the program. */
  datatype FileResult =
    | Handled(ok: bool, found: seq<(string, string)>, policy: Policy.State<Policy.OneEntryChoice>)
    | Crashed(error: string)

  type Handle = (string, string, Policy.State<Policy.OneEntryChoice>) -> FileResult

  /** How `run` reads the result of `try_extractors` for one file: nothing
      returned is a success, `True` a failure, and an exception is not caught
      by anything. */
  function FileOutcome(o: Outcome, found: seq<(string, string)>, policy: Policy.State<Policy.OneEntryChoice>): (r: FileResult)
    ensures r.Crashed? <==> o.Raised?
    ensures r.Crashed? ==> r.error == o.error
    ensures r.Handled? ==> (r.ok <==> o.Extracted?)
  {
    match o
    case Raised(e) => Crashed(e)
    case Extracted(_) => Handled(true, found, policy)
    case _ => Handled(false, [], policy)
  }

  /** No file's handling raises. */
  ghost predicate NeverCrashes(handle: Handle) {
    forall dir, name, p :: handle(dir, name, p).Handled?
  }

  /** The loop's state; `raised` holds the exception that ended the program. */
  datatype RunState = RunState(queue: seq<Batch>, policy: Policy.State<Policy.OneEntryChoice>, successes: seq<string>, failures: seq<string>, raised: Option<string>)

  predicate ValidRun(s: RunState) {
    DistinctDirs(s.queue)
  }

  predicate IsPrefix(a: seq<string>, b: seq<string>) {
    |a| <= |b| && b[..|a|] == a
  }

  lemma PrefixTrans(a: seq<string>, b: seq<string>, c: seq<string>)
    requires IsPrefix(a, b) && IsPrefix(b, c)
    ensures IsPrefix(a, c)
  {
    assert c[..|a|] == c[..|b|][..|a|];
  }

  /** The files of one directory, in order, until one of them raises. */
  function HandleFiles(dir: string, files: seq<string>, handle: Handle, s: RunState): (r: RunState)
    requires ValidRun(s) && s.raised.None?
    ensures ValidRun(r)
    ensures r.raised.None? ==> |r.successes| + |r.failures| == |s.successes| + |s.failures| + |files|
    ensures r.raised.Some? ==> |r.successes| + |r.failures| < |s.successes| + |s.failures| + |files|
    ensures NeverCrashes(handle) ==> r.raised.None?
    ensures IsPrefix(s.successes, r.successes) && IsPrefix(s.failures, r.failures)
    decreases |files|
  {
    if |files| == 0 then s
    else match handle(dir, files[0], s.policy)
      case Crashed(e) => s.(raised := Some(e))
      case Handled(ok, found, policy) =>
        var q := EnqueueAll(s.queue, found);
        var s' := if ok then RunState(q, policy, s.successes + [files[0]], s.failures, None)
                  else RunState(q, policy, s.successes, s.failures + [files[0]], None);
        var r := HandleFiles(dir, files[1..], handle, s');
        PrefixTrans(s.successes, s'.successes, r.successes);
        PrefixTrans(s.failures, s'.failures, r.failures);
        r
  }

  /** One turn of the loop: pop the most recently queued directory, handle
      its files, then make wrapping the permanent one-entry policy.  An
      exception leaves the loop before that last step. */
  function RunBatch(s: RunState, handle: Handle): (r: RunState)
    requires ValidRun(s) && |s.queue| > 0 && s.raised.None?
    ensures ValidRun(r)
    ensures r.raised.None? ==> r.policy.permanent == Some(Policy.Wrap)
    ensures r.raised.None? ==> |r.successes| + |r.failures| == |s.successes| + |s.failures| + |Last(s.queue).files|
    ensures NeverCrashes(handle) ==> r.raised.None?
    ensures IsPrefix(s.failures, r.failures)
  {
    var b := Last(s.queue);
    var rest := s.queue[..|s.queue| - 1];
    var t := HandleFiles(b.dir, b.files, handle, RunState(rest, s.policy, s.successes, s.failures, None));
    if t.raised.Some? then t
    else t.(policy := Policy.State(t.policy.current, Some(Policy.Wrap)))
  }

  /** `run`, for at most `fuel` batches: the exit status once the queue is
      empty or an exception ended the program, or nothing when the fuel ran
      out first.  An uncaught exception makes the interpreter exit with
      status 1.  A failure is never forgotten, so one failing file makes the
      exit status 1; after any batch the one-entry policy is wrap, so the
      files of nested archives are not asked about again unless the user's
      answers change it; and every file waiting in the queue is counted by
      the end, as a success or a failure. */
  function Run(s: RunState, handle: Handle, fuel: nat): (r: Option<(int, RunState)>)
    requires ValidRun(s) && s.raised.None?
    ensures r.Some? ==> (r.value.0 == 0 <==> r.value.1.raised.None? && |r.value.1.failures| == 0)
    ensures r.Some? ==> r.value.0 == 0 || r.value.0 == 1
    ensures r.Some? && r.value.1.raised.None? ==> r.value.1.queue == []
    ensures r.Some? ==> IsPrefix(s.failures, r.value.1.failures)
    ensures r.Some? && |s.failures| > 0 ==> r.value.0 == 1
    ensures r.Some? && NeverCrashes(handle) ==> r.value.1.raised.None?
    ensures r.Some? && r.value.1.raised.None? && |s.queue| > 0 ==> r.value.1.policy.permanent == Some(Policy.Wrap)
    ensures r.Some? && r.value.1.raised.None? ==>
      |r.value.1.successes| + |r.value.1.failures| >= |s.successes| + |s.failures| + Pending(s.queue)
    decreases fuel
  {
    if |s.queue| == 0 then Some((if |s.failures| > 0 then 1 else 0, s))
    else if fuel == 0 then None
    else
      var t := RunBatch(s, handle);
      if t.raised.Some? then Some((1, t))
      else
        var r := Run(t, handle, fuel - 1);
        if r.None? then r
        else
          PrefixTrans(s.failures, t.failures, r.value.1.failures);
          PendingLast(s.queue);
          PendingGrows(s, handle);
          r
  }

  /** A file whose search raised ends the program: the status is 1, the
      exception is the search's, and neither that file nor any later one is
      counted. */
  lemma RaisedEndsRun(s: RunState, handle: Handle, fuel: nat, o: Outcome, found: seq<(string, string)>, p: Policy.State<Policy.OneEntryChoice>)
    requires ValidRun(s) && s.raised.None? && |s.queue| > 0 && fuel > 0
    requires |Last(s.queue).files| > 0
    requires handle(Last(s.queue).dir, Last(s.queue).files[0], s.policy) == FileOutcome(o, found, p)
    requires o.Raised?
    ensures var r := Run(s, handle, fuel);
      && r.Some? && r.value.0 == 1 && r.value.1.raised == Some(o.error)
      && r.value.1.successes == s.successes && r.value.1.failures == s.failures
  {
    var b := Last(s.queue);
    var s0 := RunState(s.queue[..|s.queue| - 1], s.policy, s.successes, s.failures, None);
    assert HandleFiles(b.dir, b.files, handle, s0) == s0.(raised := Some(o.error));
  }

  /** The number of files waiting in the queue. */
  function Pending(queue: seq<Batch>): nat
    decreases |queue|
  {
    if |queue| == 0 then 0 else Pending(queue[..|queue| - 1]) + |Last(queue).files|
  }

  lemma PendingLast(queue: seq<Batch>)
    requires |queue| > 0
    ensures Pending(queue) == Pending(queue[..|queue| - 1]) + |Last(queue).files|
  {
  }

  /** Handling files only adds to the queue: nothing queued is lost. */
  lemma PendingGrows(s: RunState, handle: Handle)
    requires ValidRun(s) && |s.queue| > 0 && s.raised.None?
    ensures Pending(RunBatch(s, handle).queue) >= Pending(s.queue[..|s.queue| - 1])
  {
    var b := Last(s.queue);
    var rest := s.queue[..|s.queue| - 1];
    HandleFilesPending(b.dir, b.files, handle, RunState(rest, s.policy, s.successes, s.failures, None));
  }

  lemma {:induction false} HandleFilesPending(dir: string, files: seq<string>, handle: Handle, s: RunState)
    requires ValidRun(s) && s.raised.None?
    ensures Pending(HandleFiles(dir, files, handle, s).queue) >= Pending(s.queue)
    decreases |files|
  {
    if |files| > 0 {
      match handle(dir, files[0], s.policy)
      case Crashed(_) =>
      case Handled(ok, found, policy) =>
        EnqueueAllPending(s.queue, found);
        var q := EnqueueAll(s.queue, found);
        var s' := if ok then RunState(q, policy, s.successes + [files[0]], s.failures, None)
                  else RunState(q, policy, s.successes, s.failures + [files[0]], None);
        HandleFilesPending(dir, files[1..], handle, s');
    }
  }

  lemma {:induction false} EnqueueAllPending(queue: seq<Batch>, found: seq<(string, string)>)
    requires DistinctDirs(queue)
    ensures Pending(EnqueueAll(queue, found)) == Pending(queue) + |found|
    decreases |found|
  {
    if |found| > 0 {
      EnqueuePending(queue, found[0].0, found[0].1);
      EnqueueAllPending(Enqueue(queue, found[0].0, found[0].1), found[1..]);
    }
  }

  /** Queueing a name adds one pending file. */
  lemma EnqueuePending(queue: seq<Batch>, dir: string, name: string)
    requires DistinctDirs(queue)
    ensures Pending(Enqueue(queue, dir, name)) == Pending(queue) + 1
  {
    match DirIndex(queue, dir)
    case None =>
      var r := queue + [Batch(dir, [name])];
      assert r[..|r| - 1] == queue;
    case Some(i) =>
      PendingUpdate(queue, i, Batch(dir, queue[i].files + [name]));
  }

  lemma {:induction false} PendingUpdate(queue: seq<Batch>, i: nat, b: Batch)
    requires i < |queue|
    ensures Pending(queue[i := b]) == Pending(queue) - |queue[i].files| + |b.files|
    decreases |queue|
  {
    var q := queue[i := b];
    if i < |queue| - 1 {
      assert q[..|q| - 1] == queue[..|queue| - 1][i := b];
      PendingUpdate(queue[..|queue| - 1], i, b);
    } else {
      assert q[..|q| - 1] == queue[..|queue| - 1];
    }
  }
}
