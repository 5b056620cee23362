/** The listing parsers of the no-pipe extractors (dtrx/dtrx.py:689-711,
    731-736, 790-800, 807-818, 842-855, 884-889, 895-912): each turns the
    lines a listing tool prints into the names of the archive's members.
    Two listers read no listing at all (dtrx/dtrx.py:475-482, 779-781).
    The regular expressions of the source are written out as predicates on
    ASCII characters. */
module Listing {

  import opened Wrappers
  import opened Strings
  import opened Formats
  import Classifier

  // ---------------------------------------------------------------------------
  // Line combinators

  /** Keep the name `f` finds in each line, skipping lines where it finds none. */
  function MapLines(lines: seq<string>, f: string -> Option<string>): (r: seq<string>)
    ensures |r| <= |lines|
    ensures forall n :: n in r ==> exists i :: 0 <= i < |lines| && f(lines[i]) == Some(n)
    decreases |lines|
  {
    if |lines| == 0 then []
    else
      var rest := MapLines(lines[1..], f);
      assert forall n :: n in rest ==> exists i :: 1 <= i < |lines| && f(lines[i]) == Some(n) by {
        forall n | n in rest
          ensures exists i :: 1 <= i < |lines| && f(lines[i]) == Some(n)
        {
          var i :| 0 <= i < |lines[1..]| && f(lines[1..][i]) == Some(n);
          assert lines[i + 1] == lines[1..][i];
        }
      }
      match f(lines[0])
      case Some(n) => [n] + rest
      case None => rest
  }

  /** When `f` finds a name in every line, those names come back in order. */
  lemma {:induction false} MapLinesEvery(lines: seq<string>, names: seq<string>, f: string -> Option<string>)
    requires |lines| == |names|
    requires forall i :: 0 <= i < |lines| ==> f(lines[i]) == Some(names[i])
    ensures MapLines(lines, f) == names
    decreases |lines|
  {
    if |lines| > 0 {
      assert f(lines[0]) == Some(names[0]);
      MapLinesEvery(lines[1..], names[1..], f);
      assert names == [names[0]] + names[1..];
    }
  }

  /** Listings concatenate. */
  lemma {:induction false} MapLinesAppend(a: seq<string>, b: seq<string>, f: string -> Option<string>)
    ensures MapLines(a + b, f) == MapLines(a, f) + MapLines(b, f)
    decreases |a|
  {
    if |a| == 0 {
      assert a + b == b;
    } else {
      assert (a + b)[1..] == a[1..] + b;
      MapLinesAppend(a[1..], b, f);
    }
  }

  /** Like `MapLines`, but the first line where `stop` holds ends the listing. */
  function MapUntil(lines: seq<string>, stop: string -> bool, f: string -> Option<string>): (r: seq<string>)
    ensures |r| <= |lines|
    decreases |lines|
  {
    if |lines| == 0 || stop(lines[0]) then []
    else match f(lines[0])
      case Some(n) => [n] + MapUntil(lines[1..], stop, f)
      case None => MapUntil(lines[1..], stop, f)
  }

  /** Up to the first stopping line, `MapUntil` is `MapLines`; nothing after
      it counts. */
  lemma {:induction false} MapUntilStops(a: seq<string>, s: string, b: seq<string>, stop: string -> bool, f: string -> Option<string>)
    requires forall i :: 0 <= i < |a| ==> !stop(a[i])
    requires stop(s)
    ensures MapUntil(a + [s] + b, stop, f) == MapLines(a, f)
    decreases |a|
  {
    if |a| == 0 {
      assert (a + [s] + b)[0] == s;
    } else {
      assert (a + [s] + b)[1..] == a[1..] + [s] + b;
      MapUntilStops(a[1..], s, b, stop, f);
    }
  }

  /** Without a stopping line `MapUntil` reads everything. */
  lemma {:induction false} MapUntilAll(a: seq<string>, stop: string -> bool, f: string -> Option<string>)
    requires forall i :: 0 <= i < |a| ==> !stop(a[i])
    ensures MapUntil(a, stop, f) == MapLines(a, f)
    decreases |a|
  {
    if |a| > 0 {
      MapUntilAll(a[1..], stop, f);
    }
  }

  /** The index of the first line where `p` holds. */
  function FirstWhere(lines: seq<string>, p: string -> bool): (r: Option<nat>)
    ensures r.None? <==> forall i :: 0 <= i < |lines| ==> !p(lines[i])
    ensures r.Some? ==> r.value < |lines| && p(lines[r.value]) && forall i :: 0 <= i < r.value ==> !p(lines[i])
    decreases |lines|
  {
    if |lines| == 0 then None
    else if p(lines[0]) then Some(0)
    else match FirstWhere(lines[1..], p)
      case None => None
      case Some(i) => Some(i + 1)
  }

  lemma FirstWhereAfter(a: seq<string>, s: string, b: seq<string>, p: string -> bool)
    requires forall i :: 0 <= i < |a| ==> !p(a[i])
    requires p(s)
    ensures FirstWhere(a + [s] + b, p) == Some(|a|)
  {
    var l := a + [s] + b;
    assert l[|a|] == s;
    assert forall i :: 0 <= i < |a| ==> l[i] == a[i];
  }

  // ---------------------------------------------------------------------------
  // 7z: the text after the last space

  function SevenField(line: string): (r: Option<string>)
    ensures r.Some? <==> ' ' in line
    ensures r.Some? ==> ' ' !in r.value && EndsWith(line, " " + r.value)
  {
    match LastIndexOf(line, ' ')
    case None => None
    case Some(i) =>
      assert line[i..] == " " + line[i + 1..];
      Some(line[i + 1..])
  }

  /** `SevenExtractor.get_filenames`. */
  function SevenNames(lines: seq<string>): seq<string> {
    MapLines(lines, SevenField)
  }

  /** The `7z l -ba` line of a member: its columns, a space, its name. */
  function SevenLine(columns: string, name: string): string {
    columns + " " + name
  }

  lemma SevenFieldOfLine(columns: string, name: string)
    requires ' ' !in name
    ensures SevenField(SevenLine(columns, name)) == Some(name)
  {
    var line := SevenLine(columns, name);
    var i := |columns|;
    assert line[i] == ' ';
    assert line[i + 1..] == name;
  }

  /** Names without spaces come back from their listing. */
  lemma SevenRoundTrip(columns: seq<string>, names: seq<string>)
    requires |columns| == |names|
    requires forall i :: 0 <= i < |names| ==> ' ' !in names[i]
    ensures SevenNames(seq(|names|, i requires 0 <= i < |names| => SevenLine(columns[i], names[i]))) == names
  {
    var lines := seq(|names|, i requires 0 <= i < |names| => SevenLine(columns[i], names[i]));
    forall i | 0 <= i < |lines|
      ensures SevenField(lines[i]) == Some(names[i])
    {
      SevenFieldOfLine(columns[i], names[i]);
    }
    MapLinesEvery(lines, names, SevenField);
  }

  // ---------------------------------------------------------------------------
  // ARJ: `^\d+\)\s+` before the name

  /** The end of a run of characters satisfying `p`, from `i`. */
  function RunEnd(s: string, i: nat, p: char -> bool): (j: nat)
    requires i <= |s|
    ensures i <= j <= |s|
    ensures forall k :: i <= k < j ==> p(s[k])
    ensures j < |s| ==> !p(s[j])
    decreases |s| - i
  {
    if i < |s| && p(s[i]) then RunEnd(s, i + 1, p) else i
  }

  /** Where the greedy match of `^\d+\)\s+` ends, if it matches. */
  function ArjPrefixEnd(line: string): (r: Option<nat>)
    ensures r.Some? ==> r.value <= |line|
  {
    var d := RunEnd(line, 0, IsDigit);
    if d == 0 || d == |line| || line[d] != ')' then None
    else
      var e := RunEnd(line, d + 1, IsSpace);
      if e == d + 1 then None else Some(e)
  }

  function ArjField(line: string): Option<string> {
    match ArjPrefixEnd(line)
    case None => None
    case Some(e) => Some(line[e..])
  }

  /** `ArjExtractor.get_filenames`. */
  function ArjNames(lines: seq<string>): seq<string> {
    MapLines(lines, ArjField)
  }

  /** The `arj v` line of a member: its number, a parenthesis, a space, its name. */
  function ArjLine(n: nat, name: string): string {
    DecimalDigits(n) + ") " + name
  }

  /** `str(n)`, written here so that the module stands alone. */
  function DecimalDigits(n: nat): (r: string)
    ensures |r| >= 1 && forall i :: 0 <= i < |r| ==> IsDigit(r[i])
    decreases n
  {
    if n < 10 then ["0123456789"[n]] else DecimalDigits(n / 10) + ["0123456789"[n % 10]]
  }

  lemma ArjFieldOfLine(n: nat, name: string)
    requires |name| > 0 && !IsSpace(name[0])
    ensures ArjField(ArjLine(n, name)) == Some(name)
  {
    var ds := DecimalDigits(n);
    var line := ArjLine(n, name);
    assert line[|ds|] == ')';
    assert line[|ds| + 1] == ' ';
    assert line[|ds| + 2] == name[0];
    RunEndAt(line, 0, IsDigit, |ds|);
    RunEndAt(line, |ds| + 1, IsSpace, |ds| + 2);
    assert line[|ds| + 2..] == name;
  }

  /** A run that ends where the predicate first fails. */
  lemma RunEndAt(s: string, i: nat, p: char -> bool, j: nat)
    requires i <= j <= |s|
    requires forall k :: i <= k < j ==> p(s[k])
    requires j < |s| ==> !p(s[j])
    ensures RunEnd(s, i, p) == j
    decreases j - i
  {
    if i < j {
      RunEndAt(s, i + 1, p, j);
    }
  }

  /** Names that do not start with whitespace come back from their listing;
      the other lines of the listing (headers, details) carry no numbered
      prefix and add nothing. */
  lemma ArjRoundTrip(numbers: seq<nat>, names: seq<string>)
    requires |numbers| == |names|
    requires forall i :: 0 <= i < |names| ==> |names[i]| > 0 && !IsSpace(names[i][0])
    ensures ArjNames(seq(|names|, i requires 0 <= i < |names| => ArjLine(numbers[i], names[i]))) == names
  {
    var lines := seq(|names|, i requires 0 <= i < |names| => ArjLine(numbers[i], names[i]));
    forall i | 0 <= i < |lines|
      ensures ArjField(lines[i]) == Some(names[i])
    {
      ArjFieldOfLine(numbers[i], names[i]);
    }
    MapLinesEvery(lines, names, ArjField);
  }

  // ---------------------------------------------------------------------------
  // InstallShield: `^\s+\d+\s+` before the name, up to `^\s+-+\s+-+\s*$`

  function ShieldPrefixEnd(line: string): (r: Option<nat>)
    ensures r.Some? ==> r.value <= |line|
  {
    var a := RunEnd(line, 0, IsSpace);
    var d := RunEnd(line, a, IsDigit);
    var e := RunEnd(line, d, IsSpace);
    if a == 0 || d == a || e == d then None else Some(e)
  }

  function IsDash(c: char): bool {
    c == '-'
  }

  /** The closing line `^\s+-+\s+-+\s*$`. */
  predicate ShieldEnd(line: string) {
    var a := RunEnd(line, 0, IsSpace);
    var b := RunEnd(line, a, IsDash);
    var c := RunEnd(line, b, IsSpace);
    var d := RunEnd(line, c, IsDash);
    var e := RunEnd(line, d, IsSpace);
    0 < a < b < c < d && e == |line|
  }

  function ShieldField(line: string): Option<string> {
    match ShieldPrefixEnd(line)
    case None => None
    case Some(e) => Some(line[e..])
  }

  /** `ShieldExtractor.get_filenames`. */
  function ShieldNames(lines: seq<string>): seq<string> {
    MapUntil(lines, ShieldEnd, ShieldField)
  }

  /** The dashed line under the listing closes it. */
  lemma ShieldEndLine()
    ensures ShieldEnd(" --- ---")
  {
    var l := " --- ---";
    assert l[0] == ' ' && l[1] == '-' && l[2] == '-' && l[3] == '-';
    assert l[4] == ' ' && l[5] == '-' && l[6] == '-' && l[7] == '-';
    RunEndAt(l, 0, IsSpace, 1);
    RunEndAt(l, 1, IsDash, 4);
    RunEndAt(l, 4, IsSpace, 5);
    RunEndAt(l, 5, IsDash, 8);
    RunEndAt(l, 8, IsSpace, 8);
  }

  /** The closing line ends the listing: a member line after it is ignored. */
  lemma ShieldStopsAtEnd(body: seq<string>, after: seq<string>)
    requires forall i :: 0 <= i < |body| ==> !ShieldEnd(body[i])
    ensures ShieldNames(body + [" --- ---"] + after) == MapLines(body, ShieldField)
  {
    ShieldEndLine();
    MapUntilStops(body, " --- ---", after, ShieldEnd, ShieldField);
  }

  /** An `unshield l` member line: indentation, size, spacing, name. */
  lemma ShieldFieldOfLine(size: nat, name: string)
    requires |name| > 0 && !IsSpace(name[0])
    ensures ShieldField(" " + DecimalDigits(size) + " " + name) == Some(name)
  {
    var ds := DecimalDigits(size);
    var line := " " + DecimalDigits(size) + " " + name;
    assert line[1..1 + |ds|] == ds;
    assert line[1 + |ds|] == ' ';
    assert line[|ds| + 2] == name[0];
    RunEndAt(line, 0, IsSpace, 1);
    RunEndAt(line, 1, IsDigit, 1 + |ds|);
    RunEndAt(line, 1 + |ds|, IsSpace, |ds| + 2);
    assert line[|ds| + 2..] == name;
  }

  // ---------------------------------------------------------------------------
  // CAB: the third ` | ` field after the `^[-+]+$` border

  predicate IsCabBorder(line: string) {
    |line| > 0 && forall i :: 0 <= i < |line| ==> line[i] == '-' || line[i] == '+'
  }

  /** The first occurrence of `pat` at or after `from`. */
  function Find(s: string, pat: string, from: nat): (r: Option<nat>)
    requires from <= |s|
    ensures r.Some? ==> from <= r.value && OccursAt(s, pat, r.value)
    ensures r.Some? ==> forall k :: from <= k < r.value ==> !OccursAt(s, pat, k)
    ensures r.None? ==> forall k :: from <= k <= |s| ==> !OccursAt(s, pat, k)
    decreases |s| - from
  {
    if OccursAt(s, pat, from) then Some(from)
    else if from == |s| then None
    else Find(s, pat, from + 1)
  }

  /** `line.split(" | ", 2)[2]`: what follows the second separator, or the
      IndexError when there are fewer than two. */
  function CabField(line: string): Option<string> {
    match Find(line, " | ", 0)
    case None => None
    case Some(i) =>
      match Find(line, " | ", i + 3)
      case None => None
      case Some(j) => Some(line[j + 3..])
  }

  /** `CABExtractor.get_filenames`: skip to the border, then read fields
      until the first line without one. */
  function CabNames(lines: seq<string>): seq<string> {
    match FirstWhere(lines, IsCabBorder)
    case None => []
    case Some(b) => MapUntil(lines[b + 1..], l => CabField(l).None?, CabField)
  }

  /** A `cabextract -l` member line: size, date, name. */
  lemma CabFieldOfLine(size: string, date: string, name: string)
    requires '|' !in size && '|' !in date
    ensures CabField(size + " | " + date + " | " + name) == Some(name)
  {
    var line := size + " | " + date + " | " + name;
    var i := |size|;
    var j := |size| + 3 + |date|;
    assert OccursAt(line, " | ", i) by {
      assert line[i..i + 3] == " | ";
    }
    assert forall k :: 0 <= k < i ==> !OccursAt(line, " | ", k) by {
      forall k | 0 <= k < i
        ensures !OccursAt(line, " | ", k)
      {
        if k + 3 <= |line| {
          assert line[k..k + 3][1] == line[k + 1];
        }
        if k + 1 < i {
          assert line[k + 1] == size[k + 1];
        } else {
          assert line[k + 1] == ' ';
        }
      }
    }
    assert Find(line, " | ", 0) == Some(i) by {
      FindFirst(line, " | ", 0, i);
    }
    assert OccursAt(line, " | ", j) by {
      assert line[j..j + 3] == " | ";
    }
    assert forall k :: i + 3 <= k < j ==> !OccursAt(line, " | ", k) by {
      forall k | i + 3 <= k < j
        ensures !OccursAt(line, " | ", k)
      {
        assert line[k..k + 3][1] == line[k + 1];
        if k + 1 < j {
          assert line[k + 1] == date[k + 1 - i - 3];
        } else {
          assert line[k + 1] == ' ';
        }
      }
    }
    FindFirst(line, " | ", i + 3, j);
    assert line[j + 3..] == name;
  }

  /** `Find` stops at the first occurrence. */
  lemma FindFirst(s: string, pat: string, from: nat, at: nat)
    requires from <= at <= |s|
    requires OccursAt(s, pat, at)
    requires forall k :: from <= k < at ==> !OccursAt(s, pat, k)
    ensures Find(s, pat, from) == Some(at)
    decreases at - from
  {
    if from < at {
      FindFirst(s, pat, from + 1, at);
    }
  }

  /** A CAB listing: a header without a border, the border, the member
      lines; the totals line after them has no second separator. */
  lemma {:induction false} CabListing(header: seq<string>, border: string, members: seq<string>, after: string, rest: seq<string>)
    requires forall i :: 0 <= i < |header| ==> !IsCabBorder(header[i])
    requires IsCabBorder(border)
    requires forall i :: 0 <= i < |members| ==> CabField(members[i]).Some?
    requires CabField(after).None?
    ensures CabNames(header + [border] + (members + [after] + rest)) == MapLines(members, CabField)
  {
    var lines := header + [border] + (members + [after] + rest);
    FirstWhereAfter(header, border, members + [after] + rest, IsCabBorder);
    assert lines[|header| + 1..] == members + [after] + rest;
    MapUntilStops(members, after, rest, l => CabField(l).None?, CabField);
  }

  // ---------------------------------------------------------------------------
  // RAR: every other line between two `^-+$` borders

  predicate IsRarBorder(line: string) {
    |line| > 0 && forall i :: 0 <= i < |line| ==> line[i] == '-'
  }

  /** The lines after the first border: a name line, then a detail line, and
      so on, up to the next border. */
  function RarBody(lines: seq<string>, isFile: bool): (r: seq<string>)
    decreases |lines|
  {
    if |lines| == 0 || IsRarBorder(lines[0]) then []
    else if isFile then [Strip(lines[0])] + RarBody(lines[1..], false)
    else RarBody(lines[1..], true)
  }

  /** `RarExtractor.get_filenames`. */
  function RarNames(lines: seq<string>): seq<string> {
    match FirstWhere(lines, IsRarBorder)
    case None => []
    case Some(b) => RarBody(lines[b + 1..], true)
  }

  /** Name lines and detail lines, alternating. */
  function Interleave(names: seq<string>, details: seq<string>): (r: seq<string>)
    requires |names| == |details|
    ensures |r| == 2 * |names|
  {
    if |names| == 0 then [] else [names[0], details[0]] + Interleave(names[1..], details[1..])
  }

  /** The body of an `unrar v` listing gives the stripped name lines back. */
  lemma {:induction false} RarBodyOfListing(names: seq<string>, details: seq<string>, border: string, rest: seq<string>)
    requires |names| == |details|
    requires forall i :: 0 <= i < |names| ==> !IsRarBorder(names[i]) && !IsRarBorder(details[i])
    requires IsRarBorder(border)
    ensures RarBody(Interleave(names, details) + [border] + rest, true)
      == seq(|names|, i requires 0 <= i < |names| => Strip(names[i]))
    decreases |names|
  {
    var l := Interleave(names, details) + [border] + rest;
    if |names| == 0 {
      assert l[0] == border;
    } else {
      var tail := Interleave(names[1..], details[1..]) + [border] + rest;
      assert l == [names[0], details[0]] + tail;
      assert l[1..][1..] == tail;
      RarBodyOfListing(names[1..], details[1..], border, rest);
    }
  }

  /** A whole `unrar v` listing: header, border, alternating lines, border. */
  lemma RarListing(header: seq<string>, names: seq<string>, details: seq<string>, border: string, rest: seq<string>)
    requires |names| == |details|
    requires forall i :: 0 <= i < |header| ==> !IsRarBorder(header[i])
    requires forall i :: 0 <= i < |names| ==> !IsRarBorder(names[i]) && !IsRarBorder(details[i])
    requires IsRarBorder(border)
    ensures RarNames(header + [border] + (Interleave(names, details) + [border] + rest))
      == seq(|names|, i requires 0 <= i < |names| => Strip(names[i]))
  {
    var body := Interleave(names, details) + [border] + rest;
    FirstWhereAfter(header, border, body, IsRarBorder);
    assert (header + [border] + body)[|header| + 1..] == body;
    RarBodyOfListing(names, details, border, rest);
  }

  // ---------------------------------------------------------------------------
  // LZH: the column the border line marks

  /** `border_line_file_index`: for a line of only dashes and spaces with at
      least one space, the index after the last space. */
  function BorderIndex(line: string): (r: Option<nat>)
    ensures r.Some? <==> ' ' in line && forall i :: 0 <= i < |line| ==> line[i] == ' ' || line[i] == '-'
    ensures r.Some? ==> 1 <= r.value <= |line| && line[r.value - 1] == ' ' && ' ' !in line[r.value..]
  {
    if forall i :: 0 <= i < |line| ==> line[i] == ' ' || line[i] == '-' then
      match LastIndexOf(line, ' ')
      case None => None
      case Some(k) => Some(k + 1)
    else None
  }

  predicate IsLzhBorder(line: string) {
    BorderIndex(line).Some?
  }

  function LzhColumn(k: nat): string -> Option<string> {
    line => Some(Drop(line, k))
  }

  /** `LZHExtractor.get_filenames`: find the first border, then take each
      line from the border's column until the next border. */
  function LzhNames(lines: seq<string>): seq<string> {
    match FirstWhere(lines, IsLzhBorder)
    case None => []
    case Some(b) => MapUntil(lines[b + 1..], IsLzhBorder, LzhColumn(BorderIndex(lines[b]).value))
  }

  /** Every line takes its column. */
  lemma {:induction false} MapColumn(lines: seq<string>, k: nat)
    ensures MapLines(lines, LzhColumn(k)) == seq(|lines|, i requires 0 <= i < |lines| => Drop(lines[i], k))
    decreases |lines|
  {
    if |lines| > 0 {
      MapColumn(lines[1..], k);
    }
  }

  /** An `lha l` listing: header, border, member lines, border. */
  lemma LzhListing(header: seq<string>, border: string, members: seq<string>, closing: string, rest: seq<string>)
    requires forall i :: 0 <= i < |header| ==> !IsLzhBorder(header[i])
    requires IsLzhBorder(border) && IsLzhBorder(closing)
    requires forall i :: 0 <= i < |members| ==> !IsLzhBorder(members[i])
    ensures var k := BorderIndex(border).value;
      LzhNames(header + [border] + (members + [closing] + rest))
        == seq(|members|, i requires 0 <= i < |members| => Drop(members[i], k))
  {
    var lines := header + [border] + (members + [closing] + rest);
    var k := BorderIndex(border).value;
    FirstWhereAfter(header, border, members + [closing] + rest, IsLzhBorder);
    assert lines[|header|] == border;
    assert lines[|header| + 1..] == members + [closing] + rest;
    MapUntilStops(members, closing, rest, IsLzhBorder, LzhColumn(k));
    MapColumn(members, k);
  }

  // ---------------------------------------------------------------------------
  // unar: skip the first line, cut at the last `(`

  /** `line[:line.rfind("(")].strip()`; without a `(` the index is -1 and the
      slice drops the last character. */
  function UnarField(line: string): string {
    match LastIndexOf(line, '(')
    case Some(k) => Strip(line[..k])
    case None => Strip(if |line| == 0 then "" else line[..|line| - 1])
  }

  /** `UnarchiverExtractor.get_filenames`.  The first line is skipped with
      `next`; on an empty listing that raises StopIteration inside the
      generator, which Python turns into a RuntimeError: `None` here. */
  function UnarNames(lines: seq<string>): (r: Option<seq<string>>)
    ensures r.None? <==> |lines| == 0
    ensures r.Some? ==> |r.value| == |lines| - 1
  {
    if |lines| == 0 then None
    else Some(seq(|lines| - 1, i requires 0 <= i < |lines| - 1 => UnarField(lines[i + 1])))
  }

  /** An `lsar` member line: the name, a space, the details in parentheses. */
  lemma UnarFieldOfLine(name: string, details: string)
    requires '(' !in details
    requires |name| > 0 && !IsSpace(name[0]) && !IsSpace(name[|name| - 1])
    ensures UnarField(name + " (" + details + ")") == name
  {
    var line := name + " (" + details + ")";
    var padded := name + " ";
    assert line == padded + ['('] + (details + ")");
    LastIndexOfSplit(padded, '(', details + ")");
    assert line[..|padded|] == padded;
    StripPadded(name);
  }

  /** Stripping a name with one space after it gives the name. */
  lemma StripPadded(name: string)
    requires |name| > 0 && !IsSpace(name[0]) && !IsSpace(name[|name| - 1])
    ensures Strip(name + " ") == name
  {
    var p := name + " ";
    assert StripLeft(p) == p;
    assert p[..|p| - 1] == name;
    assert StripRight(p) == StripRight(name);
    assert StripRight(name) == name;
  }

  /** A line without a `(` loses its last character. */
  lemma UnarFieldDropsLast()
    ensures UnarField("ab") == "a"
  {
    assert LastIndexOf("ab", '(').None? by {
      assert "ab"[0] == 'a' && "ab"[1] == 'b';
      assert '(' !in "ab";
    }
    assert "ab"[..1] == "a";
    assert Strip("a") == "a" by {
      StripSingle('a');
    }
  }

  /** A single non-space character is its own strip. */
  lemma StripSingle(c: char)
    requires !IsSpace(c)
    ensures Strip([c]) == [c]
  {
    assert StripLeft([c]) == [c];
    assert StripRight([c]) == [c];
  }

  // ---------------------------------------------------------------------------
  // Listers without a listing, and what the list action reports

  /** `BrotliExtractor.get_filenames`: listing is not supported, and the
      error it raises carries no message. */
  function BrotliNames(): Result<seq<string>, string> {
    Err("")
  }

  /** The compressed-file lister: the base name is the one member, but only
      when the magic test proposes the plain compressed stream among its
      candidates. */
  function CompressedNames(magic: seq<Candidate>, basename: string): (r: Result<seq<string>, string>)
    ensures r.Ok? <==> exists i :: 0 <= i < |magic| && magic[i].kind == Compressed
    ensures r.Ok? ==> r.value == [basename]
    ensures r.Err? ==> r.error == "doesn't look like a compressed file"
  {
    if exists i :: 0 <= i < |magic| && magic[i].kind == Compressed then Ok([basename])
    else Err("doesn't look like a compressed file")
  }

  /** A stream that `file` recognises by its compression only is listed as
      its base name. */
  lemma CompressionOnlyLists(filename: string, output: string, basename: string)
    requires var text := Classifier.StripFilePrefix(output, filename);
      && Classifier.MagicKindsOf(MagicKindEntries, text) == []
      && Classifier.MagicEncodingsOf(MagicEncodingEntries, text) != []
    ensures CompressedNames(Classifier.TryByMagic(filename, Some(output)), basename) == Ok([basename])
  {
    var text := Classifier.StripFilePrefix(output, filename);
    var encs := Classifier.MagicEncodingsOf(MagicEncodingEntries, text);
    var magic := Classifier.TryByMagic(filename, Some(output));
    CompressedCandidateFound(magic, encs);
  }

  lemma CompressedCandidateFound(magic: seq<Candidate>, encs: seq<Encoding>)
    requires encs != []
    requires forall c :: c in magic <==> c.kind == Compressed && c.encoding.Some? && c.encoding.value in encs
    ensures exists i :: 0 <= i < |magic| && magic[i].kind == Compressed
  {
    var c := Candidate(Compressed, Some(encs[0]));
    assert c in magic;
    var i :| 0 <= i < |magic| && magic[i] == c;
    assert magic[i].kind == Compressed;
  }

  /** A file `file` cannot read is never listed as a compressed stream. */
  lemma NoMagicNoListing(filename: string, basename: string)
    ensures CompressedNames(Classifier.TryByMagic(filename, None), basename).Err?
  {
  }

  /** `ListAction.run`: the message of the error the lister raised, or
      nothing when it listed. */
  function ListReport(listing: Result<seq<string>, string>): (r: Option<string>)
    ensures r.None? <==> listing.Ok?
    ensures listing.Err? ==> r == Some(listing.error)
  {
    match listing
    case Ok(_) => None
    case Err(e) => Some(e)
  }
}
