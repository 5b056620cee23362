/** The two interactive policies (dtrx/dtrx.py:100-107, 1053-1220): what to
    do with an archive holding one entry whose name does not match, and
    whether to extract archives found inside an archive.  A policy asks the
    user only when nothing already decides; the user's replies are a
    sequence of input lines, and running out of lines is end of file. */
module Policy {

  import opened Wrappers
  import opened Strings

  // ---------------------------------------------------------------------------
  // Asking

  /** `ask_question`: read lines until one, lower-cased, is a known answer;
      at end of file the answer to the empty reply is used.  Returns the
      choice and how many lines were read. */
  function Ask<T(==)>(answer: string -> Option<T>, input: seq<string>): (r: (T, nat))
    requires answer("").Some?
    ensures r.1 <= |input|
    ensures Asked(answer, input, r.0, r.1)
    decreases |input|
  {
    if |input| == 0 then (answer("").value, 0)
    else match answer(Lower(input[0]))
      case Some(c) => (c, 1)
      case None =>
        var (c, k) := Ask(answer, input[1..]);
        assert forall i :: 1 <= i < |input| ==> input[i] == input[1..][i - 1];
        (c, k + 1)
  }

  /** Reading `k` lines of `input` gave `c`: the lines before the `k`-th are
      not known answers, and either the `k`-th is the known answer `c`, or
      no line is known, all are read, and `c` answers end of file. */
  ghost predicate Asked<T>(answer: string -> Option<T>, input: seq<string>, c: T, k: nat)
    requires answer("").Some?
  {
    && k <= |input|
    && (forall i :: 0 <= i < k - 1 ==> answer(Lower(input[i])).None?)
    && (|| (k > 0 && answer(Lower(input[k - 1])) == Some(c))
        || (k == |input| && c == answer("").value && forall i :: 0 <= i < |input| ==> answer(Lower(input[i])).None?))
  }

  // ---------------------------------------------------------------------------
  // One entry

  /** EXTRACT_HERE, EXTRACT_WRAP and EXTRACT_RENAME. */
  datatype OneEntryChoice = Here | Wrap | Rename

  /** The command-line options the policies read. */
  datatype PolicyOptions = PolicyOptions(
    batch: bool, flat: bool, oneEntryDefault: Option<string>, showList: bool, recursive: bool)

  /** A policy's state: the choice in force for the current archive, and the
      choice that answers every later question without asking. */
  datatype State<T> = State(current: Option<T>, permanent: Option<T>)

  /** `OneEntryPolicy.answers`. */
  function OneEntryAnswer(reply: string): (r: Option<OneEntryChoice>)
    ensures r.Some? <==> reply in {"h", "i", "r", ""}
    ensures reply == "" ==> r == Some(Wrap)
  {
    if reply == "h" then Some(Here)
    else if reply == "i" || reply == "" then Some(Wrap)
    else if reply == "r" then Some(Rename)
    else None
  }

  /** How a default name selects a choice: as a prefix of `here`, then
      `rename`, then `inside`. */
  function DefaultChoice(d: string): (r: Option<OneEntryChoice>)
    ensures r == Some(Here) <==> StartsWith("here", d)
    ensures r == Some(Rename) <==> !StartsWith("here", d) && StartsWith("rename", d)
    ensures r == Some(Wrap) <==> !StartsWith("here", d) && !StartsWith("rename", d) && StartsWith("inside", d)
  {
    if StartsWith("here", d) then Some(Here)
    else if StartsWith("rename", d) then Some(Rename)
    else if StartsWith("inside", d) then Some(Wrap)
    else None
  }

  /** `OneEntryPolicy.__init__`: batch mode answers with the default reply;
      `--flat` means "here" and takes precedence over `--one-entry`; a
      `--one-entry` value that names no choice is an error. */
  function OneEntryInit(o: PolicyOptions): (r: Result<State<OneEntryChoice>, string>)
    ensures r.Ok? ==> r.value.current.None?
    ensures o.flat ==> r == Ok(State(None, Some(Here)))
    ensures !o.flat && o.oneEntryDefault.None? ==> r == Ok(State(None, if o.batch then Some(Wrap) else None))
    ensures !o.flat && o.oneEntryDefault.Some? ==>
      (r.Err? <==> DefaultChoice(Lower(o.oneEntryDefault.value)).None?)
    ensures !o.flat && o.oneEntryDefault.Some? && r.Ok? ==>
      r.value.permanent == DefaultChoice(Lower(o.oneEntryDefault.value))
  {
    var base := if o.batch then Some(Wrap) else None;
    if o.flat then
      assert StartsWith("here", "h");
      Ok(State(None, DefaultChoice("h")))
    else match o.oneEntryDefault
      case None => Ok(State(None, base))
      case Some(d) =>
        match DefaultChoice(Lower(d))
        case None => Err("bad value " + Lower(d) + " for default policy")
        case Some(c) => Ok(State(None, Some(c)))
  }

  /** `OneEntryPolicy.prep`: the permanent choice if there is one, otherwise
      the user's answer.  Returns the new state and how many lines were read. */
  function OneEntryPrep(p: State<OneEntryChoice>, input: seq<string>): (r: (State<OneEntryChoice>, nat))
    ensures r.0.permanent == p.permanent
    ensures r.0.current.Some?
    ensures p.permanent.Some? ==> r == (State(p.permanent, p.permanent), 0)
    ensures p.permanent.None? ==> r.1 <= |input| && r.0.current == Some(Ask(OneEntryAnswer, input).0)
  {
    match p.permanent
    case Some(c) => (State(Some(c), Some(c)), 0)
    case None =>
      var (c, k) := Ask(OneEntryAnswer, input);
      (State(Some(c), None), k)
  }

  /** `ok_for_match`. */
  predicate OkForMatch(p: State<OneEntryChoice>) {
    p.current == Some(Rename) || p.current == Some(Here)
  }

  /** An empty `--one-entry` value is a prefix of every word and selects
      "here"; "i" selects wrapping, and "x" is refused. */
  lemma OneEntryDefaults()
    ensures OneEntryInit(PolicyOptions(false, false, Some(""), false, false)) == Ok(State(None, Some(Here)))
    ensures OneEntryInit(PolicyOptions(true, false, Some("I"), false, false)) == Ok(State(None, Some(Wrap)))
    ensures OneEntryInit(PolicyOptions(false, false, Some("x"), false, false)).Err?
  {
    assert StartsWith("here", "");
    assert Lower("I") == "i";
    assert Lower("x") == "x";
    assert !StartsWith("here", "i") && !StartsWith("rename", "i") && StartsWith("inside", "i");
    assert !StartsWith("here", "x") && !StartsWith("rename", "x") && !StartsWith("inside", "x");
  }

  /** In batch mode with no other option, nothing is ever asked: every
      archive is wrapped in a directory, whatever the input holds. */
  lemma BatchNeverAsks(input: seq<string>)
    ensures OneEntryInit(PolicyOptions(true, false, None, false, false)).Ok?
    ensures OneEntryPrep(OneEntryInit(PolicyOptions(true, false, None, false, false)).value, input)
      == (State(Some(Wrap), Some(Wrap)), 0)
  {
  }

  /** End of file answers "wrap", and an unknown reply is asked again. */
  lemma OneEntryReplies()
    ensures OneEntryPrep(State(None, None), []).0.current == Some(Wrap)
    ensures OneEntryPrep(State(None, None), ["what", "R"]) == (State(Some(Rename), None), 2)
  {
    assert Lower("R") == "r";
    assert Lower("what") == "what";
    assert ["what", "R"][1..] == ["R"];
  }

  // ---------------------------------------------------------------------------
  // Recursion

  /** RECURSE_ALWAYS, RECURSE_ONCE, RECURSE_NOT_NOW, RECURSE_NEVER and
      RECURSE_LIST. */
  datatype RecurseChoice = Always | Once | NotNow | Never | List

  /** `RecursionPolicy.answers`. */
  function RecurseAnswer(reply: string): (r: Option<RecurseChoice>)
    ensures r.Some? <==> reply in {"o", "a", "n", "v", "l", ""}
    ensures reply == "" ==> r == Some(NotNow)
    ensures r == Some(List) <==> reply == "l"
  {
    if reply == "o" then Some(Once)
    else if reply == "a" then Some(Always)
    else if reply == "n" || reply == "" then Some(NotNow)
    else if reply == "v" then Some(Never)
    else if reply == "l" then Some(List)
    else None
  }

  /** A recursion state never holds "list": that reply only re-asks. */
  predicate RecursionValid(p: State<RecurseChoice>) {
    p.current != Some(List) && p.permanent != Some(List)
  }

  /** `RecursionPolicy.__init__`: batch mode answers "not now", and
      `--list` ("never") or else `--recursive` ("always") take precedence. */
  function RecursionInit(o: PolicyOptions): (r: State<RecurseChoice>)
    ensures r.current.None? && RecursionValid(r)
    ensures o.showList ==> r.permanent == Some(Never)
    ensures !o.showList && o.recursive ==> r.permanent == Some(Always)
    ensures !o.showList && !o.recursive ==> r.permanent == (if o.batch then Some(NotNow) else None)
  {
    var base := if o.batch then Some(NotNow) else None;
    State(None, if o.showList then Some(Never) else if o.recursive then Some(Always) else base)
  }

  /** A reply that ends the recursion question: known, and not "list". */
  predicate Decisive(line: string) {
    DecidesOtherwise(RecurseAnswer, line, List)
  }

  /** `line` is a known answer other than `stop`. */
  predicate DecidesOtherwise<T(==)>(answer: string -> Option<T>, line: string, stop: T) {
    answer(Lower(line)).Some? && answer(Lower(line)) != Some(stop)
  }

  /** Reading `n` lines of `input` settles on `c`: the `n`-th line is the
      first decisive one and gives `c`, or there is none, all lines are read
      and end of file gives "not now". */
  predicate SettledAfter(input: seq<string>, c: RecurseChoice, n: nat) {
    && n <= |input|
    && (forall i :: 0 <= i < n - 1 ==> !Decisive(input[i]))
    && (|| (n > 0 && Decisive(input[n - 1]) && RecurseAnswer(Lower(input[n - 1])) == Some(c))
        || (n == |input| && c == NotNow && forall i :: 0 <= i < |input| ==> !Decisive(input[i])))
  }

  /** The question loop of `RecursionPolicy.prep`: a "list" reply prints the
      archives and asks again. */
  function AskUntilNotList(input: seq<string>): (r: (RecurseChoice, nat))
    ensures r.0 != List
    ensures SettledAfter(input, r.0, r.1)
    decreases |input|
  {
    var (c, k) := Ask(RecurseAnswer, input);
    if c == List then
      ListUndecided(input, k);
      var (c2, k2) := AskUntilNotList(input[k..]);
      SettledAfterSkip(input, k, c2, k2);
      (c2, k + k2)
    else
      OtherAnswerSettles(input, c, k);
      (c, k)
  }

  /** A "list" reply decides nothing, and neither did the lines before it. */
  lemma ListUndecided(input: seq<string>, k: nat)
    requires Asked(RecurseAnswer, input, List, k)
    ensures 0 < k <= |input| && forall i :: 0 <= i < k ==> !Decisive(input[i])
  {
    StopsOnlyAt(RecurseAnswer, input, List, k);
  }

  /** Any other reply settles the question. */
  lemma OtherAnswerSettles(input: seq<string>, c: RecurseChoice, k: nat)
    requires c != List && Asked(RecurseAnswer, input, c, k)
    ensures SettledAfter(input, c, k)
  {
  }

  /** When the answer to end of file is not `stop` but a question returned
      `stop` after `k` lines, the `k`-th line said `stop` and no line up to
      it decided otherwise. */
  lemma StopsOnlyAt<T>(answer: string -> Option<T>, input: seq<string>, stop: T, k: nat)
    requires answer("").Some? && answer("") != Some(stop)
    requires Asked(answer, input, stop, k)
    ensures 0 < k && forall i :: 0 <= i < k ==> !DecidesOtherwise(answer, input[i], stop)
  {
  }

  /** Lines that decide nothing can be put in front of a settled input. */
  lemma SettledAfterSkip(input: seq<string>, k: nat, c: RecurseChoice, n: nat)
    requires k <= |input|
    requires forall i :: 0 <= i < k ==> !Decisive(input[i])
    requires SettledAfter(input[k..], c, n)
    ensures SettledAfter(input, c, k + n)
  {
    assert forall i :: k <= i < |input| ==> input[i] == input[k..][i - k];
  }

  /** `RecursionPolicy.prep`: with a permanent choice, or when at most one
      file in ten is an archive, nothing is asked and the permanent choice or
      "not now" applies; otherwise the user's answer does, and "always" or
      "never" becomes permanent. */
  function RecursionPrep(p: State<RecurseChoice>, archiveCount: nat, fileCount: nat, input: seq<string>): (r: (State<RecurseChoice>, nat))
    requires RecursionValid(p)
    ensures r.1 <= |input|
    ensures r.0.current.Some? && RecursionValid(r.0)
    ensures p.permanent.Some? || archiveCount * 10 <= fileCount ==>
      r == (State(Some(p.permanent.GetOr(NotNow)), p.permanent), 0)
    ensures p.permanent.Some? ==> r.0.permanent == p.permanent
    ensures r.0.permanent.Some? && p.permanent.None? ==>
      r.0.permanent == r.0.current && r.0.current.value in {Always, Never}
    ensures r.0.current.value in {Always, Never} ==> r.0.permanent.Some?
    ensures p.permanent.None? && archiveCount * 10 > fileCount ==>
      (r.0.current.value, r.1) == AskUntilNotList(input)
  {
    if p.permanent.Some? || archiveCount * 10 <= fileCount then
      (State(Some(p.permanent.GetOr(NotNow)), p.permanent), 0)
    else
      var (c, k) := AskUntilNotList(input);
      (State(Some(c), if c in {Always, Never} then Some(c) else None), k)
  }

  /** `ok_to_recurse`. */
  predicate OkToRecurse(p: State<RecurseChoice>) {
    p.current == Some(Always) || p.current == Some(Once)
  }

  /** Once "always" is answered it sticks: every later archive recurses
      without a question. */
  lemma AlwaysSticks(p: State<RecurseChoice>, n1: nat, f1: nat, in1: seq<string>, n2: nat, f2: nat, in2: seq<string>)
    requires RecursionValid(p)
    requires RecursionPrep(p, n1, f1, in1).0.current == Some(Always)
    ensures var q := RecursionPrep(p, n1, f1, in1).0;
      RecursionPrep(q, n2, f2, in2) == (State(Some(Always), Some(Always)), 0) && OkToRecurse(RecursionPrep(q, n2, f2, in2).0)
  {
  }

  /** "list" asks again; end of file then means "not now". */
  lemma ListAsksAgain()
    ensures RecursionPrep(State(None, None), 1, 2, ["L", "o"]) == (State(Some(Once), None), 2)
    ensures RecursionPrep(State(None, None), 1, 2, ["l"]) == (State(Some(NotNow), None), 1)
    ensures RecursionPrep(State(None, None), 1, 10, ["a"]) == (State(Some(NotNow), None), 0)
  {
    assert Lower("L") == "l";
    assert Lower("o") == "o";
    assert ["L", "o"][1..] == ["o"];
    assert Lower("l") == "l";
    assert ["l"][1..] == [];
  }

  // ---------------------------------------------------------------------------
  // Question text

  /** `str.split()` with no separator: the maximal runs of non-whitespace. */
  function Words(s: string): (r: seq<string>)
    ensures forall i :: 0 <= i < |r| ==> IsWord(r[i])
    decreases |s|
  {
    var t := StripLeft(s);
    if |t| == 0 then []
    else
      var n := WordLength(t);
      var w := t[..n];
      assert IsWord(w);
      [w] + Words(t[n..])
  }

  /** A non-empty run of non-whitespace characters. */
  predicate IsWord(w: string) {
    |w| > 0 && forall j :: 0 <= j < |w| ==> !IsSpace(w[j])
  }

  /** The length of the word `s` starts with. */
  function WordLength(s: string): (n: nat)
    requires |s| > 0 && !IsSpace(s[0])
    ensures 1 <= n <= |s|
    ensures forall j :: 0 <= j < n ==> !IsSpace(s[j])
    ensures n < |s| ==> IsSpace(s[n])
  {
    WordEnd(s, 1)
  }

  function WordEnd(s: string, i: nat): (n: nat)
    requires 1 <= i <= |s|
    requires forall j :: 0 <= j < i ==> !IsSpace(s[j])
    ensures i <= n <= |s|
    ensures forall j :: 0 <= j < n ==> !IsSpace(s[j])
    ensures n < |s| ==> IsSpace(s[n])
    decreases |s| - i
  {
    if i == |s| || IsSpace(s[i]) then i else WordEnd(s, i + 1)
  }

  /** The position of the first `%s` word. */
  function PlaceholderAt(words: seq<string>): (r: Option<nat>)
    ensures r.None? <==> "%s" !in words
    ensures r.Some? ==> r.value < |words| && words[r.value] == "%s" && "%s" !in words[..r.value]
  {
    match IndexOfWord(words, "%s", 0)
    case None => None
    case Some(i) => Some(i)
  }

  function IndexOfWord(words: seq<string>, w: string, from: nat): (r: Option<nat>)
    requires from <= |words|
    requires w !in words[..from]
    ensures r.None? <==> w !in words
    ensures r.Some? ==> from <= r.value < |words| && words[r.value] == w && w !in words[..r.value]
    decreases |words| - from
  {
    if from == |words| then
      assert words[..from] == words;
      None
    else if words[from] == w then Some(from)
    else
      assert words[..from + 1] == words[..from] + [words[from]];
      IndexOfWord(words, w, from + 1)
  }

  /** The substitution step of `wrap` as written: each argument replaces the
      first word that is `%s` at that moment, so an argument that is itself
      `%s` is overwritten by the next one.  A missing placeholder is the
      ValueError of `list.index`. */
  function FillAsWritten(words: seq<string>, args: seq<string>): (r: Option<seq<string>>)
    ensures r.Some? ==> |r.value| == |words|
    decreases |args|
  {
    if |args| == 0 then Some(words)
    else match PlaceholderAt(words)
      case None => None
      case Some(i) => FillAsWritten(words[i := args[0]], args[1..])
  }

  /** The placeholders of the template itself, in order. */
  function Placeholders(words: seq<string>): (r: seq<nat>)
    ensures forall k :: 0 <= k < |r| ==> r[k] < |words| && words[r[k]] == "%s"
    ensures forall i :: 0 <= i < |words| && words[i] == "%s" ==> i in r
    ensures forall k, l :: 0 <= k < l < |r| ==> r[k] < r[l]
    decreases |words|
  {
    if |words| == 0 then []
    else
      var rest := Placeholders(words[..|words| - 1]);
      if Last(words) == "%s" then
        assert forall k :: 0 <= k < |rest| ==> rest[k] < |words| - 1;
        rest + [|words| - 1]
      else rest
  }

  /** The intended substitution: the k-th argument fills the template's k-th
      placeholder, whatever the arguments contain. */
  function Fill(words: seq<string>, args: seq<string>): (r: Option<seq<string>>)
    ensures r.Some? <==> |args| <= |Placeholders(words)|
    ensures r.Some? ==> |r.value| == |words|
    ensures r.Some? ==> forall k :: 0 <= k < |args| ==> r.value[Placeholders(words)[k]] == args[k]
    ensures r.Some? ==> forall i :: 0 <= i < |words| && words[i] != "%s" ==> r.value[i] == words[i]
  {
    var ph := Placeholders(words);
    if |args| > |ph| then None else Some(FillAt(words, ph, args))
  }

  /** Put `args[k]` at position `ph[k]`, for each argument in turn. */
  function FillAt(words: seq<string>, ph: seq<nat>, args: seq<string>): (r: seq<string>)
    requires |args| <= |ph|
    requires forall k :: 0 <= k < |ph| ==> ph[k] < |words|
    requires forall k, l :: 0 <= k < l < |ph| ==> ph[k] < ph[l]
    ensures |r| == |words|
    ensures forall k :: 0 <= k < |args| ==> r[ph[k]] == args[k]
    ensures forall i :: 0 <= i < |words| && i !in ph ==> r[i] == words[i]
    decreases |args|
  {
    if |args| == 0 then words
    else
      var r := FillAt(words[ph[0] := args[0]], ph[1..], args[1..]);
      assert forall k :: 1 <= k < |args| ==> ph[k] == ph[1..][k - 1] && args[k] == args[1..][k - 1];
      assert ph[0] !in ph[1..];
      r
  }

  /** An archive named `%s` loses its name from the one-entry question: the
      content type lands in its place and the second placeholder is left
      unfilled. */
  lemma PercentNameOverwritten()
    ensures FillAsWritten(["%s", "contains", "one", "%s"], ["%s", "file"]) == Some(["file", "contains", "one", "%s"])
  {
    var w := ["%s", "contains", "one", "%s"];
    FirstPlaceholder(w);
    assert w[0 := "%s"] == w;
    var w2 := w[0 := "file"];
    PlaceholderAtThree(w2);
    assert w2[3 := "%s"] == w2;
    assert FillAsWritten(w, ["%s", "file"]) == FillAsWritten(w, ["file"]);
    assert FillAsWritten(w, ["file"]) == FillAsWritten(w2, []);
  }

  lemma FirstPlaceholder(w: seq<string>)
    requires |w| >= 1 && w[0] == "%s"
    ensures PlaceholderAt(w) == Some(0)
  {
  }

  lemma PlaceholderAtThree(w: seq<string>)
    requires w == ["file", "contains", "one", "%s"]
    ensures PlaceholderAt(w) == Some(3)
  {
    assert "%s" !in w[..3];
  }

  /** The intended substitution keeps both arguments of that question. */
  lemma PercentNameKept()
    ensures Fill(["%s", "contains", "one", "%s"], ["%s", "file"]) == Some(["%s", "contains", "one", "file"])
  {
    var w := ["%s", "contains", "one", "%s"];
    TemplatePlaceholders(w);
    var r := Fill(w, ["%s", "file"]).value;
    assert |r| == 4;
    assert r[0] == "%s" && r[3] == "file";
    assert r[1] == w[1] && r[2] == w[2];
    assert r == ["%s", "contains", "one", "file"];
  }

  lemma TemplatePlaceholders(w: seq<string>)
    requires w == ["%s", "contains", "one", "%s"]
    ensures Placeholders(w) == [0, 3]
  {
    PlaceholdersExactly(w, [0, 3]);
  }

  /** As long as no argument is itself `%s`, the substitution as written
      and the intended one agree, failures included. */
  lemma {:induction false} FillAgrees(words: seq<string>, args: seq<string>)
    requires forall k :: 0 <= k < |args| ==> args[k] != "%s"
    ensures FillAsWritten(words, args) == Fill(words, args)
    decreases |args|
  {
    var ph := Placeholders(words);
    PlaceholderAtFirst(words);
    if |args| > 0 && |ph| > 0 {
      var w' := words[ph[0] := args[0]];
      PlaceholdersAfterFill(words, args[0]);
      FillAgrees(w', args[1..]);
    }
  }

  predicate Increasing(s: seq<nat>) {
    forall k, l :: 0 <= k < l < |s| ==> s[k] < s[l]
  }

  lemma EmptyHasNothing<T>(s: seq<T>)
    ensures s == [] <==> forall x :: x !in s
  {
    if s != [] {
      assert s[0] in s;
    }
  }

  /** Two increasing sequences with the same elements are equal. */
  lemma {:induction false} IncreasingUnique(s: seq<nat>, t: seq<nat>)
    requires Increasing(s) && Increasing(t)
    requires forall x :: x in s <==> x in t
    ensures s == t
    decreases |s|
  {
    EmptyHasNothing(s);
    EmptyHasNothing(t);
    if |s| > 0 && |t| > 0 {
      assert s[0] == t[0] by {
        assert s[0] in t && t[0] in s;
      }
      forall x
        ensures x in s[1..] <==> x in t[1..]
      {
        if x in s[1..] {
          var k :| 0 <= k < |s[1..]| && s[1..][k] == x;
          assert s[k + 1] == x;
          assert x in t;
        }
        if x in t[1..] {
          var k :| 0 <= k < |t[1..]| && t[1..][k] == x;
          assert t[k + 1] == x;
          assert x in s;
        }
      }
      IncreasingUnique(s[1..], t[1..]);
    }
  }

  /** `Placeholders` is the one increasing sequence of exactly the `%s`
      positions. */
  lemma PlaceholdersExactly(words: seq<string>, s: seq<nat>)
    requires Increasing(s)
    requires forall k :: 0 <= k < |s| ==> s[k] < |words| && words[s[k]] == "%s"
    requires forall i :: 0 <= i < |words| && words[i] == "%s" ==> i in s
    ensures s == Placeholders(words)
  {
    var ph := Placeholders(words);
    forall x
      ensures x in s <==> x in ph
    {
      if x in s {
        var k :| 0 <= k < |s| && s[k] == x;
      }
      if x in ph {
        var k :| 0 <= k < |ph| && ph[k] == x;
      }
    }
    IncreasingUnique(s, ph);
  }

  /** `words.index("%s")` is the first placeholder. */
  lemma PlaceholderAtFirst(words: seq<string>)
    ensures Placeholders(words) == [] <==> PlaceholderAt(words).None?
    ensures Placeholders(words) != [] ==> PlaceholderAt(words) == Some(Placeholders(words)[0])
  {
    var ph := Placeholders(words);
    match PlaceholderAt(words)
    case None =>
    case Some(p) =>
      assert p in ph;
      var k :| 0 <= k < |ph| && ph[k] == p;
  }

  /** Filling the first placeholder with a word that is not `%s` leaves the
      other placeholders. */
  lemma PlaceholdersAfterFill(words: seq<string>, a: string)
    requires Placeholders(words) != [] && a != "%s"
    ensures Placeholders(words[Placeholders(words)[0] := a]) == Placeholders(words)[1..]
  {
    var ph := Placeholders(words);
    var w' := words[ph[0] := a];
    var s := ph[1..];
    forall i | 0 <= i < |w'| && w'[i] == "%s"
      ensures i in s
    {
      assert i != ph[0];
      assert i in ph;
      var k :| 0 <= k < |ph| && ph[k] == i;
      assert k != 0;
      assert s[k - 1] == i;
    }
    forall k | 0 <= k < |s|
      ensures s[k] < |w'| && w'[s[k]] == "%s"
    {
      assert s[k] == ph[k + 1] && ph[0] < ph[k + 1];
    }
    PlaceholdersExactly(w', s);
  }

  /** The packing rules, line by line: no empty line, a line of several
      words fits the width, and the first word of each line would not have
      fitted on the line before. */
  predicate Packed(lines: seq<seq<string>>, width: int)
    decreases |lines|
  {
    |lines| == 0 ||
    (var n := |lines|;
     && Packed(lines[..n - 1], width)
     && |lines[n - 1]| >= 1
     && (|lines[n - 1]| > 1 ==> |Join(lines[n - 1], ' ')| <= width)
     && (n > 1 ==> |Join(lines[n - 2], ' ')| + 1 + |lines[n - 1][0]| > width))
  }

  /** One step of the packing: the word extends the last line if the result
      fits, and starts a new line otherwise. */
  function PackWord(lines: seq<seq<string>>, w: string, width: int): (r: seq<seq<string>>)
    requires |lines| >= 1
  {
    var lastLine := Last(lines);
    if |Join(lastLine, ' ') + " " + w| > width then lines + [[w]]
    else lines[..|lines| - 1] + [lastLine + [w]]
  }

  /** A packing step keeps the rules and appends the word. */
  lemma PackWordKeeps(lines: seq<seq<string>>, w: string, width: int)
    requires |lines| >= 1 && Packed(lines, width)
    ensures |PackWord(lines, w, width)| >= 1
    ensures Packed(PackWord(lines, w, width), width)
    ensures Flatten(PackWord(lines, w, width)) == Flatten(lines) + [w]
  {
    if |Join(Last(lines), ' ') + " " + w| > width {
      PackWordNewLine(lines, w, width);
    } else {
      PackWordExtends(lines, w, width);
    }
  }

  lemma PackWordNewLine(lines: seq<seq<string>>, w: string, width: int)
    requires |lines| >= 1 && Packed(lines, width)
    requires |Join(Last(lines), ' ') + " " + w| > width
    ensures Packed(lines + [[w]], width)
    ensures Flatten(lines + [[w]]) == Flatten(lines) + [w]
  {
    var r := lines + [[w]];
    FlattenAppend(lines, [w]);
    assert r[..|lines|] == lines;
    assert r[|lines| - 1] == Last(lines);
  }

  lemma PackWordExtends(lines: seq<seq<string>>, w: string, width: int)
    requires |lines| >= 1 && Packed(lines, width)
    requires |Join(Last(lines), ' ') + " " + w| <= width
    ensures Packed(lines[..|lines| - 1] + [Last(lines) + [w]], width)
    ensures Flatten(lines[..|lines| - 1] + [Last(lines) + [w]]) == Flatten(lines) + [w]
  {
    var lastLine := Last(lines);
    FlattenReplaceLast(lines, lastLine + [w]);
    JoinSnoc(lastLine, w);
    PackedReplaceLast(lines, lastLine + [w], width);
  }

  /** Replacing the last line by a longer line with the same first word that
      still fits keeps the packing rules. */
  lemma PackedReplaceLast(lines: seq<seq<string>>, line: seq<string>, width: int)
    requires |lines| >= 1 && Packed(lines, width)
    requires |line| >= 1 && line[0] == Last(lines)[0]
    requires |Join(line, ' ')| <= width
    ensures Packed(lines[..|lines| - 1] + [line], width)
  {
    var n := |lines|;
    var r := lines[..n - 1] + [line];
    assert r[..n - 1] == lines[..n - 1];
    assert r[n - 1] == line;
    assert n > 1 ==> r[n - 2] == lines[n - 2];
  }

  /** The greedy packing of `wrap`: each word joins the current line unless
      that would make it longer than `width`, in which case it starts a new
      line.  The lines come back as groups of words. */
  function PackAll(words: seq<string>, width: int): (r: seq<seq<string>>)
    requires |words| >= 1
    ensures |r| >= 1
    decreases |words|
  {
    if |words| == 1 then [[words[0]]]
    else PackWord(PackAll(words[..|words| - 1], width), Last(words), width)
  }

  /** The packing keeps every word, in order, and obeys the packing rules. */
  lemma {:induction false} PackAllKeeps(words: seq<string>, width: int)
    requires |words| >= 1
    ensures Flatten(PackAll(words, width)) == words
    ensures Packed(PackAll(words, width), width)
    decreases |words|
  {
    if |words| == 1 {
      PackStart(words, width);
      assert words[..1] == words;
    } else {
      PackAllKeeps(words[..|words| - 1], width);
      PackAllStep(words, width);
    }
  }

  lemma PackAllStep(words: seq<string>, width: int)
    requires |words| > 1
    requires Flatten(PackAll(words[..|words| - 1], width)) == words[..|words| - 1]
    requires Packed(PackAll(words[..|words| - 1], width), width)
    ensures Flatten(PackAll(words, width)) == words
    ensures Packed(PackAll(words, width), width)
  {
    var init := words[..|words| - 1];
    var lines := PackAll(init, width);
    assert PackAll(words, width) == PackWord(lines, Last(words), width);
    PackWordKeeps(lines, Last(words), width);
    assert init + [Last(words)] == words;
  }

  /** The packing starts with the first word on a line of its own. */
  lemma PackStart(words: seq<string>, width: int)
    requires |words| >= 1
    ensures Flatten([[words[0]]]) == words[..1]
    ensures Packed([[words[0]]], width)
  {
    assert Flatten([[words[0]]]) == Flatten([]) + [words[0]];
  }

  /** The packing, one word at a time. */
  method Pack(words: seq<string>, width: int) returns (lines: seq<seq<string>>)
    requires |words| >= 1
    ensures |lines| >= 1
    ensures Flatten(lines) == words
    ensures Packed(lines, width)
    ensures lines == PackAll(words, width)
  {
    lines := [[words[0]]];
    var k := 1;
    while k < |words|
      invariant 1 <= k <= |words|
      invariant lines == PackAll(words[..k], width)
    {
      assert words[..k + 1][..k] == words[..k];
      lines := PackWord(lines, words[k], width);
      k := k + 1;
    }
    assert words[..k] == words;
    PackAllKeeps(words, width);
  }

  /** `wrap(question, *args)` with the intended substitution: the template's
      words, the arguments in their placeholders, packed greedily into lines
      of at most `width` characters (a single long word gets a line of its
      own, see `Pack`).  Read back with single spaces, the lines give the
      filled words. */
  method WrapQuestion(template: string, args: seq<string>, width: int) returns (r: Option<seq<string>>)
    ensures r.None? <==> |Words(template)| == 0 || |args| > |Placeholders(Words(template))|
    ensures r.Some? ==> |r.value| >= 1
    ensures r.Some? ==> Join(r.value, ' ') == Join(Fill(Words(template), args).value, ' ')
    ensures r.Some? ==>
      var filled := Fill(Words(template), args).value;
      && r.value == JoinEach(PackAll(filled, width))
      && Packed(PackAll(filled, width), width)
      && Flatten(PackAll(filled, width)) == filled
  {
    var words := Words(template);
    if |words| == 0 {
      return None;
    }
    var filled := Fill(words, args);
    if filled.None? {
      return None;
    }
    var lines := Pack(filled.value, width);
    PackedLinesNonEmpty(lines, width);
    JoinLines(lines);
    return Some(JoinEach(lines));
  }

  /** Each line read back with single spaces. */
  function JoinEach(lines: seq<seq<string>>): (r: seq<string>)
    ensures |r| == |lines|
    ensures forall i :: 0 <= i < |lines| ==> r[i] == Join(lines[i], ' ')
  {
    seq(|lines|, i requires 0 <= i < |lines| => Join(lines[i], ' '))
  }

  /** Every line of a packed layout holds at least one word. */
  lemma {:induction false} PackedLinesNonEmpty(lines: seq<seq<string>>, width: int)
    requires Packed(lines, width)
    ensures forall i :: 0 <= i < |lines| ==> |lines[i]| >= 1
    decreases |lines|
  {
    if |lines| > 0 {
      var init := lines[..|lines| - 1];
      PackedLinesNonEmpty(init, width);
      forall i | 0 <= i < |lines|
        ensures |lines[i]| >= 1
      {
        if i < |lines| - 1 {
          assert lines[i] == init[i];
        }
      }
    }
  }

  /** Joining each line and then the lines gives the words joined. */
  lemma {:induction false} JoinLines(lines: seq<seq<string>>)
    requires |lines| >= 1
    requires forall i :: 0 <= i < |lines| ==> |lines[i]| >= 1
    ensures Join(JoinEach(lines), ' ') == Join(Flatten(lines), ' ')
    decreases |lines|
  {
    var text := JoinEach(lines);
    if |lines| == 1 {
      assert Flatten(lines) == lines[0] by {
        assert lines[..0] == [];
      }
    } else {
      var init := lines[..|lines| - 1];
      JoinLines(init);
      var initText := JoinEach(init);
      assert text == initText + [Join(Last(lines), ' ')];
      JoinSnoc(initText, Join(Last(lines), ' '));
      var a, b := Flatten(init), Last(lines);
      assert |a| >= 1 by { FlattenNonEmpty(init); }
      JoinPrefix(a + b, ' ', |a|);
      assert (a + b)[..|a|] == a;
      assert (a + b)[|a|..] == b;
    }
  }

  lemma FlattenNonEmpty(lines: seq<seq<string>>)
    requires |lines| >= 1
    requires forall i :: 0 <= i < |lines| ==> |lines[i]| >= 1
    ensures |Flatten(lines)| >= 1
  {
  }

  /** The words of the lines, in order. */
  function Flatten(lines: seq<seq<string>>): seq<string>
    decreases |lines|
  {
    if |lines| == 0 then [] else Flatten(lines[..|lines| - 1]) + Last(lines)
  }

  lemma FlattenAppend(lines: seq<seq<string>>, line: seq<string>)
    ensures Flatten(lines + [line]) == Flatten(lines) + line
  {
    assert (lines + [line])[..|lines|] == lines;
  }

  lemma FlattenReplaceLast(lines: seq<seq<string>>, line: seq<string>)
    requires |lines| >= 1
    ensures Flatten(lines[..|lines| - 1] + [line]) == Flatten(lines[..|lines| - 1]) + line
    ensures Flatten(lines) == Flatten(lines[..|lines| - 1]) + Last(lines)
  {
    FlattenAppend(lines[..|lines| - 1], line);
  }

  lemma {:induction false} JoinSnoc(ws: seq<string>, w: string)
    requires |ws| >= 1
    ensures Join(ws + [w], ' ') == Join(ws, ' ') + " " + w
    decreases |ws|
  {
    if |ws| == 1 {
      assert (ws + [w])[1..] == [w];
    } else {
      assert (ws + [w])[1..] == ws[1..] + [w];
      JoinSnoc(ws[1..], w);
    }
  }
}
