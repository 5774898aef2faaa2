/**
 The printed header as text: what stands in each of its lines, and that it is one comment.
 */
module CopyrightText {
  import opened CopyrightHeader
  import opened CopyrightParser
  import opened CopyrightRegex
  import opened CopyrightRoundTrip
  import opened CopyrightYears
  import opened Prelude

  /** Lines one below the other. */
  function Stacked(lines: seq<string>): string
    requires lines != []
  {
    if |lines| == 1 then lines[0] else lines[0] + "\n" + Stacked(lines[1..])
  }

  lemma {:induction false} JoinStacks(lines: seq<string>)
    requires lines != []
    ensures Join(lines, "\n") == Stacked(lines)
  {
    if |lines| > 1 {
      JoinStacks(lines[1..]);
    }
  }

  /** Stripping takes away all white space at the end, and only that. */
  lemma {:induction false} StripsExactly(s: string) returns (tail: string)
    ensures s == StripRight(s) + tail && forall i :: 0 <= i < |tail| ==> IsSpace(tail[i])
    ensures StripRight(s) != [] ==> !IsSpace(StripRight(s)[|StripRight(s)| - 1])
  {
    if s != [] && IsSpace(s[|s| - 1]) {
      var front, last := s[..|s| - 1], s[|s| - 1];
      var t := StripsExactly(front);
      tail := t + [last];
      assert s == front + [last];
    } else {
      tail := [];
    }
  }

  /** The years of an author as printed: the texts of the ranges between commas and spaces. */
  function YearsText(rs: seq<Range>): string
    requires rs != []
  {
    if |rs| == 1 then RangeText(rs[0]) else RangeText(rs[0]) + ", " + YearsText(rs[1..])
  }

  lemma {:induction false} JoinIsYears(rs: seq<Range>)
    requires rs != []
    ensures Join(Texts(rs), ", ") == YearsText(rs)
  {
    if |rs| > 1 {
      JoinIsYears(rs[1..]);
      assert Texts(rs)[1..] == Texts(rs[1..]);
    }
  }

  /** Four digits whose value is the year. */
  predicate SpellsYear(t: string, y: Year) {
    && |t| == 4
    && (forall i :: 0 <= i < 4 ==> '0' <= t[i] <= '9')
    && y as int == 1000 * (t[0] as int - 48) + 100 * (t[1] as int - 48) + 10 * (t[2] as int - 48) + (t[3] as int - 48)
  }

  lemma DigitValue(d: nat)
    requires d < 10
    ensures '0' <= DigitChar(d) <= '9' && DigitChar(d) as int - 48 == d
  {
  }

  lemma TenthOfTenth(y: int)
    ensures y / 10 / 10 == y / 100
  {
  }

  lemma TenthOfHundredth(y: int)
    ensures y / 100 / 10 == y / 1000
  {
  }

  lemma LastDigit(y: int)
    ensures y == 10 * (y / 10) + y % 10
  {
  }

  lemma DigitsOfYear(y: int)
    ensures y == 1000 * (y / 1000) + 100 * (y / 100 % 10) + 10 * (y / 10 % 10) + y % 10
  {
    TenthOfTenth(y);
    TenthOfHundredth(y);
    LastDigit(y);
    LastDigit(y / 10);
    LastDigit(y / 100);
  }

  lemma YearSpelled(y: Year)
    ensures SpellsYear(YearText(y), y)
  {
    DigitValue(y / 1000);
    DigitValue(y / 100 % 10);
    DigitValue(y / 10 % 10);
    DigitValue(y % 10);
    DigitsOfYear(y);
  }

  /** A range is printed as its first year and, if there are more, a dash and its last one. */
  lemma RangeSpelled(r: Range) returns (first: string, last: string)
    ensures SpellsYear(first, r.first) && SpellsYear(last, r.last)
    ensures RangeText(r) == if r.first == r.last then first else first + "-" + last
  {
    first, last := YearText(r.first), YearText(r.last);
    YearSpelled(r.first);
    YearSpelled(r.last);
  }

  const COPYRIGHT_TEXT: string := "Copyright (c) "
  const FILE_TEXT: string := "This file is part of the modm project."
  const FORM_TEXT: string := "This Source Code Form is subject to"
  const TERMS_TEXT: string := " the terms of the Mozilla Public"
  const VERSION_TEXT: string := "License, v. 2.0. If a copy of the "
  const COPY_TEXT: string := "MPL was not distributed with this"
  const OBTAIN_TEXT: string := "file, You can obtain one at "
  const LINK_TEXT: string := "http://mozilla.org/MPL/2.0/."

  /** The lines of the license. */
  function LicenseText(k: nat): string
    requires k < 5
  {
    match k
    case 0 => FILE_TEXT
    case 1 => ""
    case 2 => FORM_TEXT + TERMS_TEXT
    case 3 => VERSION_TEXT + COPY_TEXT
    case _ => OBTAIN_TEXT + LINK_TEXT
  }

  lemma LicenseSpelled(k: nat)
    requires k < 5
    ensures |LICENSE| == 5 && LICENSE[k] == LicenseText(k)
  {
  }

  /** What stands in front of line i. */
  function LineStart(style: Style, i: nat): string { if i == 0 then style.first else style.next }

  function AuthorText(author: string, years: seq<Year>): string
    requires years != []
  {
    COPYRIGHT_TEXT + YearsText(Runs(years)) + ", " + author
  }

  lemma AuthorSpelled(author: string, years: seq<Year>)
    requires years != []
    ensures AuthorLine(author, years) == AuthorText(author, years)
  {
    JoinIsYears(Runs(years));
    var k := KEYWORD + " (c) ";
    assert k == "Copyright (c) ";
  }

  /** The lines of the authors, behind the beginning of the comment or of its lines. */
  ghost predicate AuthorsStand(order: seq<string>, authors: Sources, style: Style, lines: seq<string>)
    requires InOrder(order, authors)
  {
    && |order| <= |lines|
    && forall i :: 0 <= i < |order| ==>
         && order[i] in authors
         && lines[i] == StripRight(LineStart(style, i) + AuthorText(order[i], authors[order[i]]))
  }

  /** Behind n lines, an empty one and the lines of the license, with the end of the comment. */
  ghost predicate LicenseStands(n: nat, style: Style, lines: seq<string>) {
    && |lines| == n + 6
    && lines[n] == StripRight(LineStart(style, n))
    && (forall k: nat :: k < 4 ==> lines[n + 1 + k] == StripRight(style.next + LicenseText(k)))
    && lines[n + 5] == StripRight(style.next + LicenseText(4) + style.last)
  }

  /**
   The text line by line: the authors behind the beginning of the comment or of its lines, an
   empty line, the five lines of the license, and the end of the comment behind the last one,
   all without white space at the end.
   */
  ghost predicate Spelled(order: seq<string>, authors: Sources, style: Style, lines: seq<string>)
    requires InOrder(order, authors)
  {
    && AuthorsStand(order, authors, style, lines)
    && LicenseStands(|order|, style, lines)
  }

  lemma ContentSpelled(order: seq<string>, authors: Sources, content: seq<string>)
    requires InOrder(order, authors) && content == HeaderLines(order, authors)
    ensures |content| == |order| + 6 && content[|order|] == ""
    ensures forall i :: 0 <= i < |order| ==>
              order[i] in authors && content[i] == AuthorText(order[i], authors[order[i]])
    ensures forall k: nat :: k < 5 ==> content[|order| + 1 + k] == LicenseText(k)
  {
    LicenseSpelled(0);
    forall i | 0 <= i < |order| ensures order[i] in authors && content[i] == AuthorText(order[i], authors[order[i]]) {
      assert order[i] in order;
      AuthorSpelled(order[i], authors[order[i]]);
    }
    forall k: nat | k < 5 ensures content[|order| + 1 + k] == LicenseText(k) {
      LicenseSpelled(k);
    }
  }

  lemma LineAt(content: seq<string>, style: Style, lines: seq<string>, i: nat, text: string)
    requires lines == Wrapped(content, style) && i < |content| && content[i] == text
    ensures i == 0 ==> lines[i] == StripRight(style.first + text)
    ensures 0 < i < |content| - 1 ==> lines[i] == StripRight(style.next + text)
    ensures 0 < i == |content| - 1 ==> lines[i] == StripRight(style.next + text + style.last)
  {
  }

  lemma AuthorLinesSpelled(order: seq<string>, authors: Sources, style: Style, content: seq<string>, lines: seq<string>)
    requires InOrder(order, authors) && |content| == |order| + 6 && lines == Wrapped(content, style)
    requires forall i :: 0 <= i < |order| ==>
               order[i] in authors && content[i] == AuthorText(order[i], authors[order[i]])
    ensures AuthorsStand(order, authors, style, lines)
  {
    forall i | 0 <= i < |order|
      ensures order[i] in authors
      ensures lines[i] == StripRight(LineStart(style, i) + AuthorText(order[i], authors[order[i]]))
    {
      LineAt(content, style, lines, i, AuthorText(order[i], authors[order[i]]));
    }
  }

  lemma LicenseLinesSpelled(n: nat, license: seq<string>, style: Style, content: seq<string>, lines: seq<string>)
    requires |content| == n + 6 && content[n] == "" && content[n + 1..] == license
    requires lines == Wrapped(content, style)
    ensures lines[n] == StripRight(LineStart(style, n))
    ensures forall k: nat :: k < 4 ==> lines[n + 1 + k] == StripRight(style.next + license[k])
    ensures lines[n + 5] == StripRight(style.next + license[4] + style.last)
  {
    LineAt(content, style, lines, n, "");
    assert LineStart(style, n) + "" == LineStart(style, n);
    forall k: nat | k < 4 ensures lines[n + 1 + k] == StripRight(style.next + license[k]) {
      assert content[n + 1 + k] == license[k];
      LineAt(content, style, lines, n + 1 + k, license[k]);
    }
    assert content[n + 1 + 4] == license[4];
    LineAt(content, style, lines, n + 1 + 4, license[4]);
  }

  lemma LicenseTexts(content: seq<string>, n: nat)
    requires |content| == n + 6 && forall k: nat :: k < 5 ==> content[n + 1 + k] == LicenseText(k)
    ensures forall k: nat :: k < 5 ==> content[n + 1..][k] == LicenseText(k)
  {
  }

  lemma LicenseStandsThere(n: nat, license: seq<string>, style: Style, lines: seq<string>)
    requires |license| == 5 && |lines| == n + 6 && lines[n] == StripRight(LineStart(style, n))
    requires forall k: nat :: k < 4 ==> lines[n + 1 + k] == StripRight(style.next + license[k])
    requires lines[n + 5] == StripRight(style.next + license[4] + style.last)
    requires forall k: nat :: k < 5 ==> license[k] == LicenseText(k)
    ensures LicenseStands(n, style, lines)
  {
    assert license[4] == LicenseText(4);
  }

  lemma TextSpelled(order: seq<string>, authors: Sources, style: Style) returns (lines: seq<string>)
    requires InOrder(order, authors)
    ensures Spelled(order, authors, style, lines) && HeaderText(order, authors, style) == Stacked(lines)
  {
    var content := HeaderLines(order, authors);
    lines := Wrapped(content, style);
    JoinStacks(lines);
    LinesSpelled(order, authors, style, content, lines);
  }

  lemma LinesSpelled(order: seq<string>, authors: Sources, style: Style, content: seq<string>, lines: seq<string>)
    requires InOrder(order, authors) && content == HeaderLines(order, authors) && lines == Wrapped(content, style)
    ensures Spelled(order, authors, style, lines)
  {
    ContentSpelled(order, authors, content);
    AuthorLinesSpelled(order, authors, style, content, lines);
    LicenseLinesSpelled(|order|, content[|order| + 1..], style, content, lines);
    LicenseTexts(content, |order|);
    LicenseStandsThere(|order|, content[|order| + 1..], style, lines);
  }

  // ----- the order of the authors' lines

  /** Text a comes before text b: where they differ first, a ends or has the smaller character. */
  predicate DiffersAt(a: string, b: string, k: nat) {
    && k <= |a| && k < |b| && a[..k] == b[..k]
    && (k == |a| || a[k] < b[k])
  }

  lemma {:induction false} TextBeforeDiffers(a: string, b: string, k: nat)
    requires DiffersAt(a, b, k)
    ensures !TextBefore(b, a) && a != b
  {
    if k > 0 {
      assert a[0] == a[..k][0] == b[..k][0];
      assert a[1..][..k - 1] == a[..k][1..] && b[1..][..k - 1] == b[..k][1..];
      TextBeforeDiffers(a[1..], b[1..], k - 1);
    }
  }

  /** Years that begin with the same year, or end with the same one. */
  ghost predicate SameFirst(s: seq<Year>, t: seq<Year>) {
    exists y :: y in s && y in t && (forall z :: z in s || z in t ==> y <= z)
  }

  ghost predicate SameLast(s: seq<Year>, t: seq<Year>) {
    exists y :: y in s && y in t && (forall z :: z in s || z in t ==> z <= y)
  }

  lemma AboveIsBefore(order: seq<string>, authors: Sources, i: nat, j: nat)
    requires NonEmpty(authors) && IsOrder(order, authors) && i < |order| && j < |order|
    requires order[i] in authors && order[j] in authors
    ensures i < j ==> Before(authors, order[i], order[j])
  {
  }

  /** An author with an earlier first year is printed above. */
  lemma EarlierIsAbove(order: seq<string>, authors: Sources, i: nat, j: nat, y: Year)
    requires NonEmpty(authors) && IsOrder(order, authors) && i < |order| && j < |order|
    requires order[i] in authors && order[j] in authors
    requires y in authors[order[i]] && forall z :: z in authors[order[j]] ==> y < z
    ensures i < j
  {
    AboveIsBefore(order, authors, j, i);
  }

  /** Among authors with the same first year, one with an earlier last year is printed above. */
  lemma EarlierEndIsAbove(order: seq<string>, authors: Sources, i: nat, j: nat, y: Year)
    requires NonEmpty(authors) && IsOrder(order, authors) && i < |order| && j < |order|
    requires order[i] in authors && order[j] in authors && SameFirst(authors[order[i]], authors[order[j]])
    requires y in authors[order[j]] && forall z :: z in authors[order[i]] ==> z < y
    ensures i < j
  {
    AboveIsBefore(order, authors, j, i);
  }

  /** Among authors with the same first and last year, the one whose name comes first is printed above. */
  lemma NameDecidesLast(order: seq<string>, authors: Sources, i: nat, j: nat, k: nat)
    requires NonEmpty(authors) && IsOrder(order, authors) && i < |order| && j < |order|
    requires order[i] in authors && order[j] in authors
    requires SameFirst(authors[order[i]], authors[order[j]]) && SameLast(authors[order[i]], authors[order[j]])
    requires DiffersAt(order[i], order[j], k)
    ensures i < j
  {
    TextBeforeDiffers(order[i], order[j], k);
    AboveIsBefore(order, authors, j, i);
  }

  // ----- where the text begins and ends

  lemma StripBehind(x: string, t: string)
    requires t != [] && !IsSpace(t[0])
    ensures StripRight(t) != [] && StripRight(t)[0] == t[0] && StripRight(x + t) == x + StripRight(t)
  {
    var tail := StripsExactly(t);
    assert StripRight(t) + tail == t;
    StripRightAppend(x, t);
  }

  lemma {:induction false} StackedEnds(lines: seq<string>)
    requires |lines| > 1
    ensures Stacked(lines) == Stacked(lines[..|lines| - 1]) + "\n" + lines[|lines| - 1]
    ensures lines[0] <= Stacked(lines[..|lines| - 1])
  {
    var front := lines[..|lines| - 1];
    if |lines| > 2 {
      StackedEnds(lines[1..]);
      assert front[1..] == lines[1..][..|lines| - 2];
    }
  }

  lemma StyleEnds(style: Style)
    requires style in STYLES
    ensures StripRight(style.next + LicenseText(4) + style.last) == style.next + LicenseText(4) + style.last
  {
    StripRightWithin(style.next + LicenseText(4) + style.last);
  }

  lemma AuthorTextStarts(author: string, years: seq<Year>)
    requires years != []
    ensures AuthorText(author, years) != [] && AuthorText(author, years)[0] == 'C'
  {
  }

  /** The text begins like the comment, and ends with the last line of the license and the end of the comment. */
  lemma TextFramed(order: seq<string>, authors: Sources, style: Style) returns (front: string, lines: seq<string>)
    requires InOrder(order, authors) && style in STYLES
    ensures Spelled(order, authors, style, lines) && front == Stacked(lines[..|order| + 5])
    ensures HeaderText(order, authors, style) == front + "\n" + (style.next + LicenseText(4) + style.last)
    ensures (if order == [] then StripRight(style.first) else style.first) <= front
  {
    lines := TextSpelled(order, authors, style);
    StackedEnds(lines);
    front := Stacked(lines[..|order| + 5]);
    StyleEnds(style);
    if order != [] {
      assert order[0] in order;
      AuthorTextStarts(order[0], authors[order[0]]);
      StripBehind(style.first, AuthorText(order[0], authors[order[0]]));
    }
  }

  // ----- one comment

  /** The end of a comment in the style of C. */
  predicate EndsAt(s: string, i: int) { 0 <= i < |s| - 1 && s[i] == '*' && s[i + 1] == '/' }

  ghost predicate Closes(s: string) { exists i :: EndsAt(s, i) }

  lemma ClosesJoin(x: string, y: string)
    requires x == [] || y == [] || x[|x| - 1] != '*' || y[0] != '/'
    ensures Closes(x + y) <==> Closes(x) || Closes(y)
  {
    if i :| EndsAt(x + y, i) {
      if i < |x| {
        assert EndsAt(x, i);
      } else {
        assert EndsAt(y, i - |x|);
      }
    }
    if i :| EndsAt(x, i) {
      assert EndsAt(x + y, i);
    }
    if i :| EndsAt(y, i) {
      assert EndsAt(x + y, |x| + i);
    }
  }

  lemma NoStarNoEnd(s: string)
    requires '*' !in s
    ensures !Closes(s)
  {
  }

  lemma StripKeepsEnds(s: string)
    ensures Closes(StripRight(s)) <==> Closes(s)
  {
    var tail := StripsExactly(s);
    NoStarNoEnd(tail);
    ClosesJoin(StripRight(s), tail);
  }

  lemma {:induction false} StackedCloses(lines: seq<string>)
    requires lines != []
    ensures Closes(Stacked(lines)) <==> exists i :: 0 <= i < |lines| && Closes(lines[i])
  {
    if |lines| > 1 {
      var rest := lines[1..];
      StackedCloses(rest);
      NoStarNoEnd("\n");
      ClosesJoin(lines[0], "\n");
      ClosesJoin(lines[0] + "\n", Stacked(rest));
      if i :| 0 <= i < |rest| && Closes(rest[i]) {
        assert Closes(lines[i + 1]);
      }
      if i :| 0 <= i < |lines| && Closes(lines[i]) {
        assert i > 0 ==> Closes(rest[i - 1]);
      }
    }
  }

  lemma {:induction false} YearsHaveNoStar(rs: seq<Range>)
    requires rs != []
    ensures '*' !in YearsText(rs)
  {
    YearIsDigits(rs[0].first);
    YearIsDigits(rs[0].last);
    if |rs| > 1 {
      YearsHaveNoStar(rs[1..]);
    }
  }

  lemma CopyrightHasNoStar()
    ensures '*' !in COPYRIGHT_TEXT
  {
  }

  lemma FrontHasNoStar(k: string, years: string)
    requires '*' !in k && '*' !in years
    ensures '*' !in k + years + ", "
  {
  }

  lemma BehindCloses(lead: string, front: string, author: string)
    requires '*' !in front && front != [] && !Closes(lead) && (lead == [] || lead[|lead| - 1] != '*')
    ensures Closes(StripRight(lead + (front + author))) <==> Closes(author)
  {
    NoStarNoEnd(front);
    ClosesJoin(front, author);
    ClosesJoin(lead, front + author);
    StripKeepsEnds(lead + (front + author));
  }

  lemma AuthorCloses(lead: string, author: string, years: seq<Year>)
    requires years != [] && !Closes(lead) && (lead == [] || lead[|lead| - 1] != '*')
    ensures Closes(StripRight(lead + AuthorText(author, years))) <==> Closes(author)
  {
    var y := YearsText(Runs(years));
    YearsHaveNoStar(Runs(years));
    CopyrightHasNoStar();
    FrontHasNoStar(COPYRIGHT_TEXT, y);
    BehindCloses(lead, COPYRIGHT_TEXT + y + ", ", author);
  }

  const C_STYLE: Style := Style("/*\n * ", " * ", "\n */")

  lemma LeadsStayOpen()
    ensures C_STYLE in STYLES
    ensures !Closes(C_STYLE.first) && !Closes(C_STYLE.next)
  {
    assert STYLES[0] == C_STYLE;
  }

  lemma FileHasNoStar()
    ensures '*' !in FILE_TEXT
  {
  }

  lemma FormHasNoStar()
    ensures '*' !in FORM_TEXT
  {
  }

  lemma TermsHasNoStar()
    ensures '*' !in TERMS_TEXT
  {
  }

  lemma VersionHasNoStar()
    ensures '*' !in VERSION_TEXT
  {
  }

  lemma CopyHasNoStar()
    ensures '*' !in COPY_TEXT
  {
  }

  lemma ObtainHasNoStar()
    ensures '*' !in OBTAIN_TEXT
  {
  }

  lemma LinkHasNoStar()
    ensures '*' !in LINK_TEXT
  {
  }

  lemma BothNoStar(x: string, y: string)
    requires '*' !in x && '*' !in y
    ensures '*' !in x + y
  {
  }

  lemma LicenseStaysOpen(k: nat)
    requires k < 5
    ensures '*' !in LicenseText(k)
  {
    if k == 0 {
      FileHasNoStar();
    } else if k == 2 {
      FormHasNoStar();
      TermsHasNoStar();
      BothNoStar(FORM_TEXT, TERMS_TEXT);
    } else if k == 3 {
      VersionHasNoStar();
      CopyHasNoStar();
      BothNoStar(VERSION_TEXT, COPY_TEXT);
    } else if k == 4 {
      ObtainHasNoStar();
      LinkHasNoStar();
      BothNoStar(OBTAIN_TEXT, LINK_TEXT);
    }
  }

  /** The lines of the license, with the last one up to the end of the comment. */
  lemma LicenseLineOpen(k: nat)
    requires k < 5
    ensures !Closes(C_STYLE.next + LicenseText(k))
  {
    LeadsStayOpen();
    LicenseStaysOpen(k);
    NoStarNoEnd(LicenseText(k));
    ClosesJoin(C_STYLE.next, LicenseText(k));
  }

  lemma LicenseLineStaysOpen(k: nat)
    requires k < 5
    ensures !Closes(StripRight(C_STYLE.next + LicenseText(k)))
  {
    LicenseLineOpen(k);
    StripKeepsEnds(C_STYLE.next + LicenseText(k));
  }

  lemma AuthorLineCloses(order: seq<string>, authors: Sources, lines: seq<string>, i: nat)
    requires InOrder(order, authors) && AuthorsStand(order, authors, C_STYLE, lines) && i < |order|
    ensures Closes(lines[i]) <==> Closes(order[i])
  {
    LeadsStayOpen();
    AuthorCloses(LineStart(C_STYLE, i), order[i], authors[order[i]]);
  }

  lemma LicenseLineCloses(n: nat, lines: seq<string>, i: nat)
    requires LicenseStands(n, C_STYLE, lines) && n <= i < n + 5
    ensures !Closes(lines[i])
  {
    if i == n {
      LeadsStayOpen();
      StripKeepsEnds(LineStart(C_STYLE, i));
    } else {
      LicenseLineStaysOpen(i - n - 1);
      assert lines[n + 1 + (i - n - 1)] == lines[i];
    }
  }

  lemma EarlierLineCloses(order: seq<string>, authors: Sources, lines: seq<string>, i: nat)
    requires InOrder(order, authors) && Spelled(order, authors, C_STYLE, lines) && i < |order| + 5
    ensures Closes(lines[i]) <==> i < |order| && Closes(order[i])
  {
    if i < |order| {
      AuthorLineCloses(order, authors, lines, i);
    } else {
      LicenseLineCloses(|order|, lines, i);
    }
  }

  lemma EarlierLinesClose(order: seq<string>, authors: Sources, lines: seq<string>)
    requires InOrder(order, authors) && Spelled(order, authors, C_STYLE, lines)
    ensures Closes(Stacked(lines[..|order| + 5])) <==> exists a :: a in authors && Closes(a)
  {
    var front := lines[..|order| + 5];
    StackedCloses(front);
    forall i | 0 <= i < |front| ensures Closes(front[i]) <==> i < |order| && Closes(order[i]) {
      EarlierLineCloses(order, authors, lines, i);
    }
    if i :| 0 <= i < |front| && Closes(front[i]) {
      assert order[i] in order;
    }
    if a :| a in authors && Closes(a) {
      var i :| 0 <= i < |order| && order[i] == a;
      assert Closes(front[i]);
    }
  }

  lemma LastLineOpen()
    ensures !Closes(C_STYLE.next + LicenseText(4) + "\n ")
  {
    LicenseLineOpen(4);
    NoStarNoEnd("\n ");
    ClosesJoin(C_STYLE.next + LicenseText(4), "\n ");
  }

  lemma SpaceBehind(s: string, tail: string, first: string, k: nat)
    requires s + tail == first && k < |first| && forall i :: 0 <= i < |tail| ==> IsSpace(tail[i])
    ensures k < |s| || IsSpace(first[k])
  {
    if k >= |s| {
      assert first[k] == tail[k - |s|];
    }
  }

  lemma OpensWith(first: string, front: string)
    requires |first| >= 2 && first[0] == '/' && first[1] == '*' && StripRight(first) <= front
    ensures "/*" <= front
  {
    var tail := StripsExactly(first);
    SpaceBehind(StripRight(first), tail, first, 0);
    SpaceBehind(StripRight(first), tail, first, 1);
  }

  lemma Enclosed(front: string, last: string)
    requires !Closes(last) && last != [] && last[0] != '/'
    ensures Closes(front + ("\n" + last)) <==> Closes(front)
  {
    NoStarNoEnd("\n");
    ClosesJoin("\n", last);
    ClosesJoin(front, "\n" + last);
  }

  lemma SplitsEnd(front: string, l: string, next: string)
    ensures front + "\n" + (next + l + "\n */") == front + ("\n" + (next + l + "\n ")) + "*/"
  {
  }

  lemma Inside(order: seq<string>, front: string) returns (inside: string)
    requires (if order == [] then StripRight(C_STYLE.first) else C_STYLE.first) <= front
    ensures inside == front + ("\n" + (C_STYLE.next + LicenseText(4) + "\n "))
    ensures "/*" <= inside && (Closes(inside) <==> Closes(front))
  {
    var last := C_STYLE.next + LicenseText(4) + "\n ";
    inside := front + ("\n" + last);
    LastLineOpen();
    Enclosed(front, last);
    StripRightWithin(C_STYLE.first);
    OpensWith(C_STYLE.first, front);
    Starts(inside, front, "\n" + last);
  }

  lemma Starts(s: string, front: string, rest: string)
    requires s == front + rest && "/*" <= front
    ensures "/*" <= s
  {
  }

  /**
   In the style of C the text is one comment: it begins with the two characters that open one
   and ends with the two that close one, and it is closed nowhere before exactly if no name
   closes a comment.
   */
  lemma OneComment(order: seq<string>, authors: Sources) returns (inside: string)
    requires InOrder(order, authors)
    ensures HeaderText(order, authors, C_STYLE) == inside + "*/" && "/*" <= inside
    ensures Closes(inside) <==> exists a :: a in authors && Closes(a)
  {
    LeadsStayOpen();
    var front, lines := TextFramed(order, authors, C_STYLE);
    SplitsEnd(front, LicenseText(4), C_STYLE.next);
    EarlierLinesClose(order, authors, lines);
    inside := Inside(order, front);
  }
}
