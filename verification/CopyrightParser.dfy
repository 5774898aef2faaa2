/**
 Reading copyright headers: the authors of a file with their years, line by line.
 */
module CopyrightParser {
  import opened CopyrightRegex
  import opened CopyrightYears
  import opened Prelude

  // ----- reading the years

  function Split(s: string, c: char): (r: seq<string>)
    ensures r != []
  {
    if s == [] then [[]]
    else if s[0] == c then [[]] + Split(s[1..], c)
    else var r := Split(s[1..], c); [[s[0]] + r[0]] + r[1..]
  }

  /** What str.isspace and str.splitlines take for white space and line boundaries. */
  predicate IsSpace(c: char) {
    var n := c as int;
    || 9 <= n <= 13 || 28 <= n <= 32 || n == 0x85 || n == 0xa0 || n == 0x1680 || 0x2000 <= n <= 0x200a
    || n == 0x2028 || n == 0x2029 || n == 0x202f || n == 0x205f || n == 0x3000
  }

  predicate IsBreak(c: char) {
    var n := c as int;
    10 <= n <= 13 || 28 <= n <= 30 || n == 0x85 || n == 0x2028 || n == 0x2029
  }

  function StripLeft(s: string): string { if s != [] && IsSpace(s[0]) then StripLeft(s[1..]) else s }

  function StripRight(s: string): string { if s != [] && IsSpace(s[|s| - 1]) then StripRight(s[..|s| - 1]) else s }

  predicate AllDigits(s: string) { forall i :: 0 <= i < |s| ==> IsDigit(s[i]) }

  function Number(s: string): nat
    requires AllDigits(s)
  {
    if s == [] then 0 else Number(s[..|s| - 1]) * 10 + (s[|s| - 1] as int - '0' as int)
  }

  /** int(s), for texts without a sign. None is the ValueError. */
  function IntOf(s: string): Option<int> {
    var t := StripRight(StripLeft(s));
    if t != [] && AllDigits(t) then Some(Number(t)) else None
  }

  function Ints(parts: seq<string>): (r: Option<seq<int>>)
    ensures r.Some? ==> |r.value| == |parts|
  {
    if parts == [] then Some([]) else
    var first, rest := IntOf(parts[0]), Ints(parts[1..]);
    if first.Some? && rest.Some? then Some([first.value] + rest.value) else None
  }

  /** One piece between commas: a year, or the first and last year of a range. */
  function PieceYears(piece: string): Option<seq<int>> {
    if '-' in piece then
      var ns := Ints(Split(piece, '-'));
      if ns.Some? && |ns.value| > 1 then Some(Span(ns.value[0], ns.value[1])) else None
    else Ints([piece])
  }

  function PiecesYears(pieces: seq<string>): Option<seq<int>> {
    if pieces == [] then Some([])
    else if pieces[0] == [] then PiecesYears(pieces[1..])
    else
      var first, rest := PieceYears(pieces[0]), PiecesYears(pieces[1..]);
      if first.Some? && rest.Some? then Some(first.value + rest.value) else None
  }

  function GroupYears(group: string): Option<seq<int>> { PiecesYears(Split(group, ',')) }

  // ----- reading printed years

  lemma {:induction false} SplitWhole(a: string, c: char)
    requires c !in a
    ensures Split(a, c) == [a]
  {
    if a != [] {
      SplitWhole(a[1..], c);
      assert [a[0]] + a[1..] == a;
    }
  }

  lemma {:induction false} SplitAt(a: string, b: string, c: char)
    requires c !in a
    ensures Split(a + [c] + b, c) == [a] + Split(b, c)
  {
    var t := a + [c] + b;
    if a == [] {
      assert t[1..] == b;
    } else {
      SplitAt(a[1..], b, c);
      assert t[1..] == a[1..] + [c] + b;
      assert [a[0]] + a[1..] == a;
      assert ([a[1..]] + Split(b, c))[1..] == Split(b, c);
    }
  }

  lemma LastDigit(y: nat)
    ensures y / 10 * 10 + y % 10 == y
  {
  }

  lemma TenthOf(y: nat)
    ensures y / 10 / 10 == y / 100 && y / 100 / 10 == y / 1000
  {
  }

  lemma YearDigits(y: Year)
    ensures ((y / 1000 * 10 + y / 100 % 10) * 10 + y / 10 % 10) * 10 + y % 10 == y
  {
    TenthOf(y);
    LastDigit(y / 100);
    LastDigit(y / 10);
    LastDigit(y);
  }

  lemma NumberOfFour(a: char, b: char, c: char, d: char)
    requires IsDigit(a) && IsDigit(b) && IsDigit(c) && IsDigit(d)
    ensures AllDigits([a, b, c, d])
    ensures Number([a, b, c, d])
         == (((a as int - 48) * 10 + (b as int - 48)) * 10 + (c as int - 48)) * 10 + (d as int - 48)
  {
    assert [a, b, c, d][..3] == [a, b, c] && [a, b, c][..2] == [a, b] && [a, b][..1] == [a] && [a][..0] == [];
    assert Number([a]) == a as int - 48;
    assert Number([a, b]) == (a as int - 48) * 10 + (b as int - 48);
    assert Number([a, b, c]) == Number([a, b]) * 10 + (c as int - 48);
  }

  lemma NumberOfYear(y: Year)
    ensures AllDigits(YearText(y)) && Number(YearText(y)) == y
  {
    var t := YearText(y);
    YearDigits(y);
    YearIsDigits(y);
    NumberOfFour(t[0], t[1], t[2], t[3]);
    assert t == [t[0], t[1], t[2], t[3]];
  }

  lemma DigitIsNoSpace(c: char)
    requires IsDigit(c)
    ensures !IsSpace(c)
  {
  }

  lemma IntOfYear(y: Year)
    ensures IntOf(YearText(y)) == Some(y) && IntOf(" " + YearText(y)) == Some(y)
  {
    var t := YearText(y);
    YearIsDigits(y);
    DigitIsNoSpace(t[0]);
    DigitIsNoSpace(t[3]);
    NumberOfYear(y);
    assert (" " + t)[1..] == t;
  }

  lemma RangeHasNoComma(r: Range)
    ensures ',' !in RangeText(r) && RangeText(r) != []
  {
    YearIsDigits(r.first);
    YearIsDigits(r.last);
  }

  lemma YearHasNoDash(y: Year)
    ensures '-' !in YearText(y) && '-' !in " " + YearText(y)
  {
    YearIsDigits(y);
  }

  lemma IntsOfMore(s: string, rest: seq<string>, m: int, ns: seq<int>)
    requires IntOf(s) == Some(m) && Ints(rest) == Some(ns)
    ensures Ints([s] + rest) == Some([m] + ns)
  {
    assert ([s] + rest)[1..] == rest;
  }

  lemma IntsOfTwo(s: string, t: string, m: int, n: int)
    requires IntOf(s) == Some(m) && IntOf(t) == Some(n)
    ensures Ints([t]) == Some([n]) && Ints([s, t]) == Some([m, n])
  {
    IntsOfMore(t, [], n, []);
    assert [t] + [] == [t] && [n] + [] == [n];
    IntsOfMore(s, [t], m, [n]);
    assert [s] + [t] == [s, t] && [m] + [n] == [m, n];
  }

  lemma PieceOfYear(y: Year, piece: string)
    requires piece == YearText(y) || piece == " " + YearText(y)
    ensures PieceYears(piece) == Some([y as int])
  {
    YearHasNoDash(y);
    IntOfYear(y);
    IntsOfTwo(piece, piece, y, y);
  }

  lemma PieceOfSpan(a: string, b: string, piece: string, first: int, last: int)
    requires '-' !in a && '-' !in b && IntOf(a) == Some(first) && IntOf(b) == Some(last)
    requires piece == a + ['-'] + b
    ensures PieceYears(piece) == Some(Span(first, last))
  {
    assert piece[|a|] == '-';
    SplitAt(a, b, '-');
    SplitWhole(b, '-');
    IntsOfTwo(a, b, first, last);
  }

  /** A printed range, behind a space or not, reads as its years. */
  lemma PieceOfRange(r: Range, lead: string)
    requires lead in {"", " "} && r.first <= r.last
    ensures PieceYears(lead + RangeText(r)) == Some(Span(r.first, r.last))
  {
    var a := YearText(r.first);
    assert "" + a == a;
    if r.first != r.last {
      assert lead + RangeText(r) == (lead + a) + ['-'] + YearText(r.last);
      YearHasNoDash(r.first);
      YearHasNoDash(r.last);
      IntOfYear(r.first);
      IntOfYear(r.last);
      PieceOfSpan(lead + a, YearText(r.last), lead + RangeText(r), r.first, r.last);
    } else {
      PieceOfYear(r.first, lead + a);
      assert Span(r.first, r.first) == [r.first];
    }
  }

  /** All years named by the ranges, in order. */
  function Years(rs: seq<Range>): seq<int> {
    if rs == [] then [] else Span(rs[0].first, rs[0].last) + Years(rs[1..])
  }

  lemma {:induction false} YearsExpand(rs: seq<Range>)
    ensures Years(rs) == Expand(rs)
  {
    if rs != [] {
      var n := |rs| - 1;
      YearsAppend(rs[..n], rs[n]);
      YearsExpand(rs[..n]);
      assert rs == rs[..n] + [rs[n]];
    }
  }

  lemma {:induction false} YearsAppend(rs: seq<Range>, r: Range)
    ensures Years(rs + [r]) == Years(rs) + Span(r.first, r.last)
  {
    if rs == [] {
      assert [r][1..] == [] && Years([r]) == Span(r.first, r.last) + Years([]);
    } else {
      YearsAppend(rs[1..], r);
      assert (rs + [r])[1..] == rs[1..] + [r];
    }
  }

  /** The pieces between the commas, the first behind lead. */
  function Pieces(rs: seq<Range>, lead: string): seq<string> {
    if rs == [] then [""] else [lead + RangeText(rs[0])] + Pieces(rs[1..], if |rs| == 1 then "" else " ")
  }

  /** What stands behind the first comma of a group. */
  function GroupRest(rs: seq<Range>): string
    requires rs != []
  {
    if |rs| == 1 then "" else " " + Group(rs[1..])
  }

  lemma GroupHead(rs: seq<Range>, lead: string, tail: string, piece: string)
    requires rs != [] && piece == lead + RangeText(rs[0])
    ensures lead + Group(rs) + tail == piece + [','] + (GroupRest(rs) + tail)
  {
    Around(lead, RangeText(rs[0]), GroupRest(rs), tail);
  }

  lemma Around(lead: string, a: string, rest: string, tail: string)
    ensures lead + (a + "," + rest) + tail == lead + a + [','] + (rest + tail)
  {
  }

  lemma {:induction false} GroupSplits(rs: seq<Range>, lead: string, text: string)
    requires rs != [] && lead in {"", " "} && text == lead + Group(rs)
    ensures Split(text, ',') == Pieces(rs, lead)
  {
    var piece, rest := lead + RangeText(rs[0]), GroupRest(rs);
    RangeHasNoComma(rs[0]);
    GroupHead(rs, lead, "", piece);
    assert text + "" == text && rest + "" == rest;
    SplitAt(piece, rest, ',');
    if |rs| > 1 {
      GroupSplits(rs[1..], " ", rest);
    }
  }

  lemma {:induction false} PiecesRead(rs: seq<Range>, lead: string)
    requires lead in {"", " "} && Forward(rs)
    ensures PiecesYears(Pieces(rs, lead)) == Some(Years(rs))
  {
    var pieces := Pieces(rs, lead);
    if rs == [] {
      assert pieces[1..] == [];
    } else {
      var next := if |rs| == 1 then "" else " ";
      RangeHasNoComma(rs[0]);
      PieceOfRange(rs[0], lead);
      PiecesRead(rs[1..], next);
      assert pieces[0] == lead + RangeText(rs[0]) && pieces[1..] == Pieces(rs[1..], next);
    }
  }

  /** The years group of a printed line reads as the years of its ranges. */
  lemma GroupReads(rs: seq<Range>)
    requires rs != [] && Forward(rs)
    ensures GroupYears(Group(rs)) == Some(Expand(rs))
  {
    assert "" + Group(rs) == Group(rs);
    GroupSplits(rs, "", Group(rs));
    PiecesRead(rs, "");
    YearsExpand(rs);
  }

  lemma PiecesFail(piece: string, rest: seq<string>)
    requires piece != [] && PiecesYears(rest) == None
    ensures PiecesYears([piece] + rest) == None
  {
    assert ([piece] + rest)[1..] == rest;
  }

  lemma SpaceIsNoYear()
    ensures PiecesYears(Split(" ", ',')) == None
  {
    SplitWhole(" ", ',');
    assert " "[1..] == "" && StripLeft(" ") == "";
    assert IntOf(" ") == None && Ints([" "]) == None;
    assert PieceYears(" ") == None;
  }

  lemma {:induction false} SpacedPiecesFail(rs: seq<Range>, lead: string, text: string)
    requires rs != [] && lead in {"", " "} && text == lead + Group(rs) + " "
    ensures PiecesYears(Split(text, ',')) == None
  {
    var piece, rest := lead + RangeText(rs[0]), GroupRest(rs) + " ";
    if |rs| > 1 {
      SpacedPiecesFail(rs[1..], " ", rest);
    } else {
      assert rest == " ";
      SpaceIsNoYear();
    }
    RangeHasNoComma(rs[0]);
    GroupHead(rs, lead, " ", piece);
    SplitAt(piece, rest, ',');
    PiecesFail(piece, Split(rest, ','));
  }

  /** With a space behind the last comma the years group cannot be read. */
  lemma SpacedGroupFails(rs: seq<Range>)
    requires rs != []
    ensures GroupYears(Group(rs) + " ") == None
  {
    assert "" + Group(rs) + " " == Group(rs) + " ";
    SpacedPiecesFail(rs, "", Group(rs) + " ");
  }

  // ----- sorting the years

  predicate Ascending(s: seq<int>) { forall i, j :: 0 <= i < j < |s| ==> s[i] <= s[j] }

  function Insert(x: int, s: seq<int>): (r: seq<int>)
    ensures multiset(r) == multiset{x} + multiset(s)
  {
    if s == [] || x <= s[0] then [x] + s else
    assert s == [s[0]] + s[1..];
    [s[0]] + Insert(x, s[1..])
  }

  function Sorted(s: seq<int>): (r: seq<int>)
    ensures multiset(r) == multiset(s)
  {
    if s == [] then [] else
    assert s == [s[0]] + s[1..];
    Insert(s[0], Sorted(s[1..]))
  }

  lemma ConsAscends(x: int, s: seq<int>)
    requires Ascending(s) && forall y :: y in s ==> x <= y
    ensures Ascending([x] + s)
  {
    var t := [x] + s;
    forall i, j | 0 <= i < j < |t| ensures t[i] <= t[j] {
      assert t[j] == s[j - 1] && t[j] in s;
      if i > 0 {
        assert s[i - 1] <= s[j - 1];
      }
    }
  }

  lemma TailAscends(s: seq<int>)
    requires s != [] && Ascending(s)
    ensures Ascending(s[1..]) && forall y :: y in s ==> s[0] <= y
  {
  }

  lemma {:induction false} InsertAscends(x: int, s: seq<int>)
    requires Ascending(s)
    ensures Ascending(Insert(x, s))
  {
    if s == [] {
    } else if x <= s[0] {
      TailAscends(s);
      ConsAscends(x, s);
    } else {
      TailAscends(s);
      InsertAscends(x, s[1..]);
      var r := Insert(x, s[1..]);
      forall y | y in r ensures s[0] <= y {
        assert y in multiset(r);
        assert y in multiset{x} + multiset(s[1..]);
      }
      ConsAscends(s[0], r);
    }
  }

  lemma {:induction false} SortedAscends(s: seq<int>)
    ensures Ascending(Sorted(s))
  {
    if s != [] {
      SortedAscends(s[1..]);
      InsertAscends(s[0], Sorted(s[1..]));
    }
  }

  lemma {:induction false} AscendingIsSorted(s: seq<int>)
    requires Ascending(s)
    ensures Sorted(s) == s
  {
    if s != [] {
      TailAscends(s);
      AscendingIsSorted(s[1..]);
      assert s == [s[0]] + s[1..];
    }
  }

  /** Sorting changes nothing exactly when the list is ascending. */
  lemma SortedFixes(s: seq<int>)
    ensures Sorted(s) == s <==> Ascending(s)
  {
    SortedAscends(s);
    if Ascending(s) {
      AscendingIsSorted(s);
    }
  }

  // ----- reading the lines

  /** The pieces between line boundaries; unlike str.splitlines, empty pieces are kept, which never match. */
  function SplitLines(s: string): (r: seq<string>)
    ensures r != []
  {
    if s == [] then [[]]
    else if IsBreak(s[0]) then [[]] + SplitLines(s[1..])
    else var r := SplitLines(s[1..]); [[s[0]] + r[0]] + r[1..]
  }

  type Authors = map<string, seq<int>>

  /** One more line; its author replaces an earlier one of the same name. None is the ValueError. */
  function Extended(before: Option<Authors>, line: string): Option<Authors> {
    if before.None? || Search(line).None? then before else
    var m := Search(line).value;
    var years := GroupYears(m.years);
    if years.None? then None else Some(before.value[m.author := Sorted(years.value)])
  }

  /** The authors of some lines. */
  function ParseLines(lines: seq<string>): Option<Authors> {
    if lines == [] then Some(map[]) else Extended(ParseLines(lines[..|lines| - 1]), lines[|lines| - 1])
  }

  /** One year or range after the other; the first that cannot be read ends it. */
  method ParseGroup(group: string) returns (r: Option<seq<int>>)
    ensures r == GroupYears(group)
  {
    var pieces := Split(group, ',');
    var years: seq<int> := [];
    var i := 0;
    assert pieces[0..] == pieces;
    PrependNone(PiecesYears(pieces));
    while i < |pieces|
      invariant i <= |pieces|
      invariant PiecesYears(pieces) == Prepended(years, PiecesYears(pieces[i..]))
    {
      var piece := pieces[i];
      assert pieces[i..][1..] == pieces[i + 1..];
      if piece != "" {
        var more := PieceYears(piece);
        if more.None? {
          return None;
        }
        PrependTwice(years, more.value, PiecesYears(pieces[i + 1..]));
        years := years + more.value;
      }
      i := i + 1;
    }
    assert pieces[i..] == [] && years + [] == years;
    r := Some(years);
  }

  lemma PrependNone(rest: Option<seq<int>>)
    ensures Prepended([], rest) == rest
  {
    if rest.Some? {
      assert [] + rest.value == rest.value;
    }
  }

  function Prepended(years: seq<int>, rest: Option<seq<int>>): Option<seq<int>> {
    if rest.Some? then Some(years + rest.value) else None
  }

  lemma PrependTwice(a: seq<int>, b: seq<int>, rest: Option<seq<int>>)
    ensures Prepended(a, Prepended(b, rest)) == Prepended(a + b, rest)
  {
    if rest.Some? {
      assert a + (b + rest.value) == a + b + rest.value;
    }
  }

  lemma {:induction false} ParseStaysNone(lines: seq<string>, n: nat)
    requires n <= |lines| && ParseLines(lines[..n]).None?
    ensures ParseLines(lines).None?
  {
    if n < |lines| {
      assert lines[..|lines| - 1][..n] == lines[..n];
      ParseStaysNone(lines[..|lines| - 1], n);
    } else {
      assert lines[..n] == lines;
    }
  }

  /** parse_copyright_authors. Without a header there are no authors. */
  method ParseCopyrightAuthors(header: Option<string>) returns (r: Option<Authors>)
    ensures r == if header.None? then Some(map[]) else ParseLines(SplitLines(header.value))
  {
    var authors: Authors := map[];
    if header.None? {
      return Some(authors);
    }
    var lines := SplitLines(header.value);
    for i := 0 to |lines|
      invariant ParseLines(lines[..i]) == Some(authors)
    {
      assert lines[..i + 1][..i] == lines[..i];
      var m := Search(lines[i]);
      if m.Some? {
        var years := ParseGroup(m.value.years);
        if years.None? {
          ParseStaysNone(lines, i + 1);
          return None;
        }
        authors := authors[m.value.author := Sorted(years.value)];
      }
    }
    assert lines[..|lines|] == lines;
    r := Some(authors);
  }
}
