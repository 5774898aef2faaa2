/**
 Printing a header and reading it back gives the same authors and years, exactly when the
 names survive: when none begins with a digit or with a space that no digit follows, none
 is empty or ends in white space, and none contains a line boundary. A name that begins
 with such a space makes the reading fail altogether.
 */
module CopyrightRoundTrip {
  import opened CopyrightHeader
  import opened CopyrightParser
  import opened CopyrightRegex
  import opened CopyrightYears
  import opened Prelude

  // ----- lines of a text

  predicate NoBreaks(s: string) { forall i :: 0 <= i < |s| ==> !IsBreak(s[i]) }

  lemma {:induction false} OneLine(s: string)
    requires NoBreaks(s)
    ensures SplitLines(s) == [s]
  {
    if s != [] {
      OneLine(s[1..]);
      assert [s[0]] + s[1..] == s;
    }
  }

  /** The last line of one text and the first of the next become one. */
  function Glue(x: seq<string>, y: seq<string>): seq<string>
    requires x != [] && y != []
  {
    x[..|x| - 1] + [x[|x| - 1] + y[0]] + y[1..]
  }

  lemma GlueBreak(x: seq<string>, y: seq<string>)
    requires x != [] && y != []
    ensures Glue([[]] + x, y) == [[]] + Glue(x, y)
  {
    assert ([[]] + x)[..|x|] == [[]] + x[..|x| - 1];
  }

  lemma GlueEmpty(x: seq<string>, y: seq<string>)
    requires x != []
    ensures Glue(x, [[]] + y) == x + y
  {
    assert x[|x| - 1] + [] == x[|x| - 1];
  }

  lemma GlueHead(c: char, x: seq<string>, y: seq<string>)
    requires x != [] && y != []
    ensures Glue([[c] + x[0]] + x[1..], y) == [[c] + Glue(x, y)[0]] + Glue(x, y)[1..]
  {
    var z := [[c] + x[0]] + x[1..];
    if |x| == 1 {
      assert z == [[c] + x[0]];
      assert [c] + x[0] + y[0] == [c] + (x[0] + y[0]);
      assert Glue(x, y) == [x[0] + y[0]] + y[1..];
    } else {
      assert z[..|z| - 1] == [[c] + x[0]] + x[1..|x| - 1];
      assert z[|z| - 1] == x[|x| - 1];
      assert Glue(x, y)[1..] == x[1..|x| - 1] + [x[|x| - 1] + y[0]] + y[1..];
    }
  }

  lemma {:induction false} SplitLinesGlue(a: string, b: string)
    ensures SplitLines(a + b) == Glue(SplitLines(a), SplitLines(b))
  {
    if a == [] {
      var y := SplitLines(b);
      assert a + b == b && [] + y[0] == y[0];
      assert Glue([[]], y) == y;
    } else {
      SplitLinesGlue(a[1..], b);
      assert (a + b)[1..] == a[1..] + b;
      if IsBreak(a[0]) {
        GlueBreak(SplitLines(a[1..]), SplitLines(b));
      } else {
        GlueHead(a[0], SplitLines(a[1..]), SplitLines(b));
      }
    }
  }

  lemma SplitLinesJoin(a: string, b: string)
    ensures SplitLines(a + "\n" + b) == SplitLines(a) + SplitLines(b)
  {
    var c := "\n" + b;
    assert a + "\n" + b == a + c && c[1..] == b;
    SplitLinesGlue(a, c);
    assert SplitLines(c) == [[]] + SplitLines(b);
    GlueEmpty(SplitLines(a), SplitLines(b));
  }

  /** Lines hold only characters of the text, and are shorter when there are several. */
  lemma {:induction false} LinesWithin(s: string)
    ensures forall l :: l in SplitLines(s) ==> NoBreaks(l) && |l| <= |s| && forall c :: c in l ==> c in s
    ensures |SplitLines(s)| > 1 ==> forall l :: l in SplitLines(s) ==> |l| < |s|
  {
    if s != [] {
      LinesWithin(s[1..]);
      assert forall c :: c in s[1..] ==> c in s;
    }
  }

  // ----- reading a text

  function ParseText(s: string): Option<Authors> { ParseLines(SplitLines(s)) }

  function Merged(m: Option<Authors>, n: Option<Authors>): Option<Authors> {
    if m.Some? && n.Some? then Some(m.value + n.value) else None
  }

  lemma MergedExtends(m: Option<Authors>, n: Option<Authors>, line: string)
    ensures Extended(Merged(m, n), line) == Merged(m, Extended(n, line))
  {
    if m.Some? && n.Some? && Search(line).Some? {
      var found := Search(line).value;
      var years := GroupYears(found.years);
      if years.Some? {
        UpdateMerged(m.value, n.value, found.author, Sorted(years.value));
      }
    }
  }

  lemma UpdateMerged(m: Authors, n: Authors, a: string, years: seq<int>)
    ensures (m + n)[a := years] == m + n[a := years]
  {
  }

  lemma MergedEmpty(m: Option<Authors>)
    ensures Merged(m, Some(map[])) == m
  {
    if m.Some? {
      assert m.value + map[] == m.value;
    }
  }

  lemma {:induction false} ParseAppend(x: seq<string>, y: seq<string>, xy: seq<string>)
    requires xy == x + y
    ensures ParseLines(xy) == Merged(ParseLines(x), ParseLines(y))
  {
    if y == [] {
      assert xy == x;
      MergedEmpty(ParseLines(x));
    } else {
      var z, l := y[..|y| - 1], y[|y| - 1];
      ParseAppend(x, z, x + z);
      assert xy[..|xy| - 1] == x + z && xy[|xy| - 1] == l;
      MergedExtends(ParseLines(x), ParseLines(z), l);
    }
  }

  lemma ParseJoin(a: string, b: string)
    ensures ParseText(a + "\n" + b) == Merged(ParseText(a), ParseText(b))
  {
    SplitLinesJoin(a, b);
    ParseAppend(SplitLines(a), SplitLines(b), SplitLines(a) + SplitLines(b));
  }

  lemma {:induction false} ParseNothing(lines: seq<string>)
    requires forall l :: l in lines ==> Search(l).None?
    ensures ParseLines(lines) == Some(map[])
  {
    if lines != [] {
      ParseNothing(lines[..|lines| - 1]);
    }
  }

  /** A text without the letters of the keyword has no authors. */
  lemma ParsePlain(s: string)
    requires 'C' !in s || 'y' !in s
    ensures ParseText(s) == Some(map[])
  {
    LinesWithin(s);
    forall l | l in SplitLines(s) ensures Search(l).None? {
      if Search(l).Some? {
        SearchNeedsKeyword(l);
      }
    }
    ParseNothing(SplitLines(s));
  }

  /** An author found comes from a line. */
  lemma {:induction false} KeyFromLine(lines: seq<string>, a: string) returns (l: string)
    requires ParseLines(lines).Some? && a in ParseLines(lines).value
    ensures l in lines && Search(l).Some? && Search(l).value.author == a
  {
    var n := |lines| - 1;
    if Search(lines[n]).Some? && Search(lines[n]).value.author == a {
      l := lines[n];
    } else {
      l := KeyFromLine(lines[..n], a);
    }
  }

  // ----- lines of the header that name nobody

  lemma {:induction false} StripRightWithin(s: string)
    ensures StripRight(s) <= s && (StripRight(s) != [] ==> !IsSpace(StripRight(s)[|StripRight(s)| - 1]))
    ensures s != [] && !IsSpace(s[|s| - 1]) ==> StripRight(s) == s
  {
    if s != [] && IsSpace(s[|s| - 1]) {
      StripRightWithin(s[..|s| - 1]);
    }
  }

  lemma {:induction false} StripRightAppend(x: string, t: string)
    ensures StripRight(x + t) == if StripRight(t) == [] then StripRight(x) else x + StripRight(t)
  {
    if t == [] {
      assert x + t == x;
    } else {
      var u := t[..|t| - 1];
      assert (x + t)[..|x + t| - 1] == x + u;
      if IsSpace(t[|t| - 1]) {
        StripRightAppend(x, u);
      }
    }
  }

  predicate PlainStyle(style: Style) {
    && 'C' !in style.first && 'C' !in style.next && 'C' !in style.last
    && 'y' !in style.first && 'y' !in style.next && 'y' !in style.last
  }

  lemma StylesArePlain(style: Style)
    requires style in STYLES
    ensures PlainStyle(style)
  {
  }

  lemma NoKeywordInFile()
    ensures 'C' !in FILE_LINE
  {
  }

  lemma NoKeywordInForm()
    ensures 'y' !in FORM_START && 'y' !in FORM_END
  {
  }

  lemma NoKeywordInCopy()
    ensures 'C' !in COPY_START && 'C' !in COPY_END
  {
  }

  lemma NoKeywordInLink()
    ensures 'C' !in LINK_START && 'C' !in LINK_END
  {
  }

  lemma LicenseIsPlain(i: nat)
    requires i < |LICENSE|
    ensures 'C' !in LICENSE[i] || 'y' !in LICENSE[i]
  {
    if i == 0 {
      NoKeywordInFile();
    } else if i == 2 {
      NoKeywordInForm();
    } else if i == 3 {
      NoKeywordInCopy();
    } else if i == 4 {
      NoKeywordInLink();
    }
  }

  lemma {:induction false} JoinIsListing(rs: seq<Range>, author: string)
    requires rs != []
    ensures Join(Texts(rs), ", ") + ", " + author == Listing(rs, author)
  {
    var texts := Texts(rs);
    if |rs| > 1 {
      JoinIsListing(rs[1..], author);
      assert texts[1..] == Texts(rs[1..]);
      JoinHead(texts[0], Join(Texts(rs[1..]), ", "), author);
    } else {
      assert Listing(rs[1..], author) == author;
    }
  }

  lemma JoinHead(a: string, rest: string, author: string)
    ensures (a + ", " + rest) + ", " + author == a + ", " + (rest + ", " + author)
  {
  }

  // ----- the line of an author

  /** The names that come back. */
  predicate Survives(a: string) {
    a != [] && !IsSpace(a[|a| - 1]) && AuthorBegins(a) && !Stops(a) && NoBreaks(a)
  }

  /** The line of an author behind a lead, before white space is stripped. */
  function LineOf(lead: string, rs: seq<Range>, author: string): string
    requires rs != []
  {
    lead + (KEYWORD + (" (c) " + (Group(rs) + " " + author)))
  }

  /** The fixed part of the line, up to the space before the author. */
  function Fixed(rs: seq<Range>): string
    requires rs != []
  {
    KEYWORD + (" (c) " + Group(rs))
  }

  lemma KeywordPlain()
    ensures NoBreaks(KEYWORD) && NoBreaks(" (c) ") && NoBreaks(" ")
  {
  }

  lemma FixedPlain(rs: seq<Range>)
    requires rs != []
    ensures NoBreaks(Fixed(rs)) && NoBreaks(Fixed(rs) + " ") && Fixed(rs)[|Fixed(rs)| - 1] == ','
  {
    GroupIsTight(rs);
    GroupHasNoBreaks(rs);
    KeywordPlain();
    NoBreaksJoin(" (c) ", Group(rs));
    NoBreaksJoin(KEYWORD, " (c) " + Group(rs));
    NoBreaksJoin(Fixed(rs), " ");
  }

  lemma {:induction false} GroupHasNoBreaks(rs: seq<Range>)
    requires rs != []
    ensures NoBreaks(Group(rs))
  {
    RangeTextIsPlain(rs[0]);
    var head := RangeText(rs[0]) + ",";
    forall i | 0 <= i < |head| ensures !IsBreak(head[i]) {
      assert IsDigit(head[i]) || head[i] == '-' || head[i] == ',';
    }
    if |rs| > 1 {
      GroupHasNoBreaks(rs[1..]);
      assert Group(rs) == head + (" " + Group(rs[1..]));
    } else {
      assert Group(rs) == head;
    }
  }

  lemma Concat(lead: string, k: string, c: string, g: string, author: string)
    ensures lead + (k + (c + (g + " " + author))) == lead + (k + (c + g)) + " " + author
    ensures lead + (k + (c + g)) + " " + author == lead + (k + (c + g) + " ") + author
    ensures lead + (k + (c + g)) + " " + author == lead + (k + (c + g) + " " + author)
  {
  }

  lemma LineParts(lead: string, rs: seq<Range>, author: string)
    requires rs != []
    ensures LineOf(lead, rs, author) == lead + Fixed(rs) + " " + author
    ensures lead + Fixed(rs) + " " + author == lead + (Fixed(rs) + " ") + author
    ensures lead + Fixed(rs) + " " + author == lead + (Fixed(rs) + " " + author)
  {
    Concat(lead, KEYWORD, " (c) ", Group(rs), author);
  }

  lemma NoBreaksJoin(x: string, y: string)
    requires NoBreaks(x) && NoBreaks(y)
    ensures NoBreaks(x + y)
  {
  }

  /** A text without line boundaries ends the last line of what stands before it. */
  lemma SplitsBefore(lead: string, k: string) returns (front: seq<string>, last: string)
    requires 'C' !in lead && NoBreaks(k)
    ensures SplitLines(lead + k) == front + [last + k] && 'C' !in last && forall l :: l in front ==> 'C' !in l
  {
    OneLine(k);
    SplitLinesGlue(lead, k);
    var x := SplitLines(lead);
    LinesWithin(lead);
    front, last := x[..|x| - 1], x[|x| - 1];
    assert last in x;
  }

  lemma SurvivorFound(last: string, years: seq<Year>, a: string, line: string)
    requires 'C' !in last && years != [] && Survives(a) && line == LineOf(last, Runs(years), a)
    ensures Extended(Some(map[]), line) == Some(map[a := Sorted(years)])
  {
    var rs := Runs(years);
    ListingIsGroup(rs, a);
    SearchFinds(last, rs, a, line);
    RunsExpand(years);
    GroupReads(rs);
  }

  lemma StripAfterSpace(x: string, a: string)
    requires x != [] && !IsSpace(x[|x| - 1])
    ensures StripRight(x + " " + a) == if StripRight(a) == [] then x else x + " " + StripRight(a)
  {
    StripRightWithin(x);
    StripRightAppend(x, " ");
    assert " "[..0] == [] && StripRight(" ") == [];
    StripRightAppend(x + " ", a);
  }

  lemma StripOfAny(lead: string, rs: seq<Range>, a: string)
    requires rs != []
    ensures StripRight(LineOf(lead, rs, a)) ==
            if StripRight(a) == [] then lead + Fixed(rs) else lead + Fixed(rs) + " " + StripRight(a)
  {
    LineParts(lead, rs, a);
    FixedPlain(rs);
    StripAfterSpace(lead + Fixed(rs), a);
  }

  lemma SurvivorUnstripped(lead: string, rs: seq<Range>, a: string)
    requires rs != [] && Survives(a)
    ensures StripRight(LineOf(lead, rs, a)) == LineOf(lead, rs, a) && NoBreaks(Fixed(rs) + " " + a)
    ensures LineOf(lead, rs, a) == lead + (Fixed(rs) + " " + a)
  {
    StripOfAny(lead, rs, a);
    StripRightWithin(a);
    LineParts(lead, rs, a);
    FixedPlain(rs);
    NoBreaksJoin(Fixed(rs) + " ", a);
  }

  /** A name that survives is the one author of its line, with the years sorted. */
  lemma SurvivorReads(lead: string, years: seq<Year>, a: string, w: string)
    requires 'C' !in lead && years != [] && Survives(a) && w == StripRight(LineOf(lead, Runs(years), a))
    ensures ParseText(w) == Some(map[a := Sorted(years)])
  {
    var rs := Runs(years);
    SurvivorUnstripped(lead, rs, a);
    var k := Fixed(rs) + " " + a;
    var front, last := SplitsBefore(lead, k);
    SilentLines(front);
    SurvivorUnstripped(last, rs, a);
    SurvivorFound(last, years, a, last + k);
    ParseLast(front, last + k);
  }

  lemma ParseLast(lines: seq<string>, line: string)
    ensures ParseLines(lines + [line]) == Extended(ParseLines(lines), line)
  {
    assert (lines + [line])[..|lines|] == lines;
  }

  lemma SilentLines(lines: seq<string>)
    requires forall l :: l in lines ==> 'C' !in l
    ensures ParseLines(lines) == Some(map[])
  {
    forall l | l in lines ensures Search(l).None? {
      if Search(l).Some? {
        SearchNeedsKeyword(l);
      }
    }
    ParseNothing(lines);
  }

  // ----- what the line of any author can give

  /** What is found in a line of an author is shorter, or the author, who survives. */
  ghost predicate Shrinks(line: string, a: string) {
    Search(line).Some? ==>
      var found := Search(line).value.author;
      |found| < |a| || (found == a && Survives(a))
  }

  /** The line itself. */
  lemma LineShrinks(last: string, rs: seq<Range>, first: string, a: string, line: string)
    requires 'C' !in last && rs != [] && line == LineOf(last, rs, first)
    requires |first| <= |a| && (|first| == |a| ==> first == a && NoBreaks(a) && a != [] && !IsSpace(a[|a| - 1]))
    ensures Shrinks(line, a)
  {
    SearchFits(last, rs, first, line);
    if Search(line).Some? && |Search(line).value.author| == |a| {
      WholeNameFound(last, rs, a, line);
    }
  }

  /** Only a name that is not cut is found whole. */
  lemma WholeNameFound(last: string, rs: seq<Range>, a: string, line: string)
    requires 'C' !in last && rs != [] && line == LineOf(last, rs, a)
    requires NoBreaks(a) && a != [] && !IsSpace(a[|a| - 1])
    requires Search(line).Some? && |Search(line).value.author| == |a|
    ensures Search(line).value.author == a && Survives(a)
  {
    SearchEnds(line);
    LineParts(last, rs, a);
    assert line[|line| - |a|..] == a;
    ListingIsGroup(rs, a);
    SearchFinds(last, rs, a, line);
  }

  lemma NoLineShrinks(l: string, a: string)
    requires 'C' !in l
    ensures Shrinks(l, a)
  {
    if Search(l).Some? {
      SearchNeedsKeyword(l);
    }
  }

  /** All lines that come from the line of an author, whatever the name contains. */
  lemma AllShrink(lead: string, rs: seq<Range>, a: string, w: string)
    requires 'C' !in lead && rs != [] && w == StripRight(LineOf(lead, rs, a))
    ensures forall l :: l in SplitLines(w) ==> Shrinks(l, a)
  {
    StripOfAny(lead, rs, a);
    FixedPlain(rs);
    var b := StripRight(a);
    StripRightWithin(a);
    if b == [] {
      var front, last := SplitsBefore(lead, Fixed(rs));
      SearchOfNone(last, rs, last + Fixed(rs));
      forall l | l in SplitLines(w) ensures Shrinks(l, a) {
        if l in front {
          NoLineShrinks(l, a);
        }
      }
    } else {
      AllOfSeveral(lead, rs, a, b, w);
    }
  }

  /** The lines of a text behind a lead and the fixed part. */
  lemma LinesBehind(lead: string, rs: seq<Range>, b: string)
    returns (front: seq<string>, line: string, y: seq<string>, last: string)
    requires 'C' !in lead && rs != []
    ensures y == SplitLines(b) && SplitLines(lead + Fixed(rs) + " " + b) == front + [line] + y[1..]
    ensures 'C' !in last && line == LineOf(last, rs, y[0]) && forall l :: l in front ==> 'C' !in l
  {
    FixedPlain(rs);
    var k := Fixed(rs) + " ";
    LineParts(lead, rs, b);
    front, last := SplitsBefore(lead, k);
    y := SplitLines(b);
    SplitLinesGlue(lead + k, b);
    line := last + k + y[0];
    LineParts(last, rs, y[0]);
  }

  /** The first of several lines can only be the whole name if it is the only one. */
  lemma FirstOfSeveral(a: string, b: string, y: seq<string>)
    requires b != [] && b == StripRight(a) && y == SplitLines(b)
    ensures |y[0]| <= |a| && (|y[0]| == |a| ==> y[0] == a && NoBreaks(a) && !IsSpace(a[|a| - 1]))
  {
    StripRightWithin(a);
    LinesWithin(b);
    assert y[0] in y;
    if |y[0]| == |a| {
      OnlyLine(b);
    }
  }

  lemma AllOfSeveral(lead: string, rs: seq<Range>, a: string, b: string, w: string)
    requires 'C' !in lead && rs != [] && b != [] && b == StripRight(a) && w == lead + Fixed(rs) + " " + b
    ensures forall l :: l in SplitLines(w) ==> Shrinks(l, a)
  {
    var front, line, y, last := LinesBehind(lead, rs, b);
    FirstOfSeveral(a, b, y);
    LineShrinks(last, rs, y[0], a, line);
    forall l | l in SplitLines(w) ensures Shrinks(l, a) {
      if l in front {
        NoLineShrinks(l, a);
      } else if l in y[1..] {
        LaterLineShrinks(a, b, y, l);
      }
    }
  }

  lemma LaterLineShrinks(a: string, b: string, y: seq<string>, l: string)
    requires b == StripRight(a) && y == SplitLines(b) && l in y[1..]
    ensures Shrinks(l, a)
  {
    StripRightWithin(a);
    LinesWithin(b);
    assert l in y && |y| > 1;
    if Search(l).Some? {
      SearchEnds(l);
    }
  }

  lemma {:induction false} OnlyLine(s: string)
    requires |SplitLines(s)| == 1
    ensures SplitLines(s)[0] == s
  {
    if s != [] {
      OnlyLine(s[1..]);
      assert [s[0]] + s[1..] == s;
    }
  }

  // ----- the whole header

  ghost predicate InOrder(order: seq<string>, authors: Sources) {
    NonEmpty(authors) && forall a :: a in order <==> a in authors
  }

  function Lead(style: Style, i: nat): string { if i == 0 then style.first else style.next }

  lemma AuthorLineIs(author: string, years: seq<Year>, lead: string)
    requires years != []
    ensures lead + AuthorLine(author, years) == LineOf(lead, Runs(years), author)
  {
    var rs := Runs(years);
    var j := Join(Texts(rs), ", ");
    JoinIsListing(rs, author);
    ListingIsGroup(rs, author);
    Reassociate(lead, KEYWORD, " (c) ", j, ", ", author);
  }

  lemma Reassociate(a: string, b: string, c: string, d: string, e: string, f: string)
    ensures a + (b + c + d + e + f) == a + (b + (c + (d + e + f)))
  {
  }

  lemma WrappedAuthor(order: seq<string>, authors: Sources, style: Style, i: nat)
    requires InOrder(order, authors) && i < |order|
    ensures Wrapped(HeaderLines(order, authors), style)[i] ==
            StripRight(LineOf(Lead(style, i), Runs(authors[order[i]]), order[i]))
  {
    AuthorLineIs(order[i], authors[order[i]], Lead(style, i));
  }

  lemma RestIsPlain(order: seq<string>, authors: Sources, style: Style, i: nat)
    requires InOrder(order, authors) && |order| <= i < |HeaderLines(order, authors)| && PlainStyle(style)
    ensures var s := Styled(HeaderLines(order, authors), style, i); 'C' !in s || 'y' !in s
  {
    var lines := HeaderLines(order, authors);
    if i == |order| {
      assert lines[i] == "";
    } else {
      LicenseIsPlain(i - |order| - 1);
      assert lines[i] == LICENSE[i - |order| - 1];
    }
  }

  lemma WrappedRest(order: seq<string>, authors: Sources, style: Style, i: nat)
    requires InOrder(order, authors) && |order| <= i < |HeaderLines(order, authors)| && PlainStyle(style)
    ensures ParseText(Wrapped(HeaderLines(order, authors), style)[i]) == Some(map[])
  {
    var s := Styled(HeaderLines(order, authors), style, i);
    RestIsPlain(order, authors, style, i);
    StripRightWithin(s);
    PrefixWithin(StripRight(s), s);
    ParsePlain(StripRight(s));
  }

  lemma PrefixWithin(p: string, s: string)
    requires p <= s
    ensures forall c :: c in p ==> c in s
  {
  }

  /** The texts one after the other. */
  function Folded(ws: seq<string>): Option<Authors>
    requires ws != []
  {
    if |ws| == 1 then ParseText(ws[0]) else Merged(ParseText(ws[0]), Folded(ws[1..]))
  }

  lemma {:induction false} ParseJoined(ws: seq<string>)
    requires ws != []
    ensures ParseText(Join(ws, "\n")) == Folded(ws)
  {
    if |ws| > 1 {
      ParseJoin(ws[0], Join(ws[1..], "\n"));
      ParseJoined(ws[1..]);
    }
  }

  /** Everything found comes from one of the texts, and nothing is lost. */
  lemma {:induction false} FoldedFrom(ws: seq<string>, a: string) returns (i: nat)
    requires ws != [] && Folded(ws).Some? && a in Folded(ws).value
    ensures i < |ws| && ParseText(ws[i]).Some? && a in ParseText(ws[i]).value
    ensures ParseText(ws[i]).value[a] == Folded(ws).value[a]
  {
    if |ws| == 1 || a !in Folded(ws[1..]).value {
      i := 0;
    } else {
      var k := FoldedFrom(ws[1..], a);
      i := k + 1;
    }
  }

  lemma {:induction false} FoldedHas(ws: seq<string>, i: nat, a: string)
    requires i < |ws| && Folded(ws).Some? && ParseText(ws[i]).Some? && a in ParseText(ws[i]).value
    ensures a in Folded(ws).value
  {
    if i > 0 {
      FoldedHas(ws[1..], i - 1, a);
    }
  }

  lemma {:induction false} FoldedSome(ws: seq<string>)
    requires ws != [] && forall i :: 0 <= i < |ws| ==> ParseText(ws[i]).Some?
    ensures Folded(ws).Some?
  {
    if |ws| > 1 {
      FoldedSome(ws[1..]);
    }
  }

  function SortedYears(authors: Sources): Authors { map a | a in authors :: Sorted(authors[a]) }

  ghost predicate AllSurvive(authors: Sources) { forall a :: a in authors ==> Survives(a) }

  lemma SurvivorIn(order: seq<string>, authors: Sources, style: Style, i: nat)
    requires InOrder(order, authors) && i < |order| && PlainStyle(style) && Survives(order[i])
    ensures ParseText(Wrapped(HeaderLines(order, authors), style)[i])
         == Some(map[order[i] := Sorted(authors[order[i]])])
  {
    WrappedAuthor(order, authors, style, i);
    SurvivorReads(Lead(style, i), authors[order[i]], order[i], Wrapped(HeaderLines(order, authors), style)[i]);
  }

  /** What text i of a header of surviving names gives. */
  ghost function Share(order: seq<string>, authors: Sources, i: nat): Authors
    requires InOrder(order, authors)
  {
    if i < |order| then map[order[i] := Sorted(authors[order[i]])] else map[]
  }

  ghost predicate GivesShares(ws: seq<string>, order: seq<string>, authors: Sources)
    requires InOrder(order, authors)
  {
    ws != [] && |order| <= |ws| && forall i :: 0 <= i < |ws| ==> ParseText(ws[i]) == Some(Share(order, authors, i))
  }

  lemma ShareFound(ws: seq<string>, order: seq<string>, authors: Sources, a: string)
    requires InOrder(order, authors) && GivesShares(ws, order, authors)
    requires Folded(ws).Some? && a in Folded(ws).value
    ensures a in authors && Folded(ws).value[a] == Sorted(authors[a])
  {
    var i := FoldedFrom(ws, a);
    assert a in Share(order, authors, i);
    if i < |order| {
      assert order[i] in order;
    }
  }

  lemma ShareKept(ws: seq<string>, order: seq<string>, authors: Sources, a: string)
    requires InOrder(order, authors) && GivesShares(ws, order, authors)
    requires Folded(ws).Some? && a in authors
    ensures a in Folded(ws).value
  {
    var i :| 0 <= i < |order| && order[i] == a;
    assert a in Share(order, authors, i);
    FoldedHas(ws, i, a);
  }

  lemma SharesMakeAll(ws: seq<string>, order: seq<string>, authors: Sources)
    requires InOrder(order, authors) && GivesShares(ws, order, authors)
    ensures Folded(ws) == Some(SortedYears(authors))
  {
    FoldedSome(ws);
    var m := Folded(ws).value;
    forall a | a in m ensures a in authors && m[a] == Sorted(authors[a]) {
      ShareFound(ws, order, authors, a);
    }
    forall a | a in authors ensures a in m {
      ShareKept(ws, order, authors, a);
    }
    assert m == SortedYears(authors);
  }

  /** Names that survive come back, with their years sorted. */
  lemma SurvivorsReturn(order: seq<string>, authors: Sources, style: Style)
    requires InOrder(order, authors) && PlainStyle(style) && AllSurvive(authors)
    ensures ParseText(HeaderText(order, authors, style)) == Some(SortedYears(authors))
  {
    var ws := Wrapped(HeaderLines(order, authors), style);
    forall i | 0 <= i < |ws| ensures ParseText(ws[i]) == Some(Share(order, authors, i)) {
      if i < |order| {
        assert order[i] in order;
        SurvivorIn(order, authors, style, i);
      } else {
        WrappedRest(order, authors, style, i);
      }
    }
    ParseJoined(ws);
    SharesMakeAll(ws, order, authors);
  }

  /** A longest of some names. */
  lemma {:induction false} Longest(names: set<string>) returns (a: string)
    requires names != {}
    ensures a in names && forall b :: b in names ==> |b| <= |a|
    decreases names
  {
    a :| a in names;
    if names != {a} {
      var b := Longest(names - {a});
      a := if |a| < |b| then b else a;
    }
  }

  /** Where an author that does not survive could come from: only from a longer one that does not survive either. */
  lemma OnlyFromLonger(order: seq<string>, authors: Sources, style: Style, i: nat, a: string)
    requires InOrder(order, authors) && PlainStyle(style) && i < |HeaderLines(order, authors)| && !Survives(a)
    requires var r := ParseText(Wrapped(HeaderLines(order, authors), style)[i]); r.Some? && a in r.value
    ensures i < |order| && |a| < |order[i]| && order[i] in authors && !Survives(order[i])
  {
    var w := Wrapped(HeaderLines(order, authors), style)[i];
    if i >= |order| {
      WrappedRest(order, authors, style, i);
    } else {
      var b := order[i];
      assert b in order;
      if Survives(b) {
        SurvivorIn(order, authors, style, i);
      } else {
        WrappedAuthor(order, authors, style, i);
        AllShrink(Lead(style, i), Runs(authors[b]), b, w);
        var l := KeyFromLine(SplitLines(w), a);
        assert Shrinks(l, b);
      }
    }
  }

  /** A name that does not survive is missing from what is read. */
  lemma LostName(order: seq<string>, authors: Sources, style: Style) returns (a: string)
    requires InOrder(order, authors) && PlainStyle(style) && !AllSurvive(authors)
    ensures a in authors
    ensures var r := ParseText(HeaderText(order, authors, style)); r.Some? ==> a !in r.value
  {
    var lost := set b | b in authors && !Survives(b);
    var b :| b in authors && !Survives(b);
    assert b in lost;
    a := Longest(lost);
    var ws := Wrapped(HeaderLines(order, authors), style);
    ParseJoined(ws);
    if Folded(ws).Some? && a in Folded(ws).value {
      var i := FoldedFrom(ws, a);
      OnlyFromLonger(order, authors, style, i, a);
    }
  }

  /** Sorting the years changes nothing exactly when they all ascend. */
  lemma SortedYearsFix(authors: Sources)
    ensures SortedYears(authors) == authors <==> forall a :: a in authors ==> Ascending(authors[a])
  {
    forall a | a in authors ensures SortedYears(authors)[a] == authors[a] <==> Ascending(authors[a]) {
      SortedFixes(authors[a]);
    }
  }

  /**
   A header reads back as the authors and years it was printed from exactly when every name
   survives and every list of years is ascending.
   */
  lemma HeaderRoundTrip(order: seq<string>, authors: Sources, style: Style)
    requires NonEmpty(authors) && IsOrder(order, authors) && style in STYLES
    ensures ParseText(HeaderText(order, authors, style)) == Some(authors)
            <==> forall a :: a in authors ==> Survives(a) && Ascending(authors[a])
  {
    StylesArePlain(style);
    assert InOrder(order, authors);
    if AllSurvive(authors) {
      SurvivorsReturn(order, authors, style);
      SortedYearsFix(authors);
    } else {
      var a := LostName(order, authors, style);
    }
  }

  // ----- headers that cannot be read at all

  /** A line that is matched but whose years cannot be read. */
  predicate Unreadable(line: string) { Search(line).Some? && GroupYears(Search(line).value.years).None? }

  lemma {:induction false} FailsExactly(lines: seq<string>)
    ensures ParseLines(lines) == None <==> exists l :: l in lines && Unreadable(l)
  {
    if lines != [] {
      var front, last := lines[..|lines| - 1], lines[|lines| - 1];
      FailsExactly(front);
      assert lines == front + [last];
      assert Unreadable(last) ==> last in lines;
    }
  }

  /** What stands before the keyword does not matter. */
  lemma LeadIsIgnored(lead: string, rs: seq<Range>, first: string)
    requires 'C' !in lead && rs != []
    ensures Unreadable(LineOf(lead, rs, first)) <==> Unreadable(LineOf("", rs, first))
  {
    var t := KEYWORD + (" (c) " + (Group(rs) + " " + first));
    SearchSkipsPlain(lead, t);
    assert "" + t == t;
  }

  /** Behind the years, a text that begins with no digit is unreadable exactly if it stops. */
  lemma FirstLineFails(rs: seq<Range>, first: string)
    requires rs != [] && Forward(rs) && AuthorBegins(first)
    ensures Unreadable(LineOf("", rs, first)) <==> Stops(first)
  {
    ListingIsGroup(rs, first);
    SearchFinds("", rs, first, LineOf("", rs, first));
    if Stops(first) {
      SpacedGroupFails(rs);
    } else {
      GroupReads(rs);
    }
  }

  /**
   A name whose printed line makes the reading fail. Its first line fails if it begins with a
   space that no digit follows; if it begins with a digit, the years may run on into it, and
   it is searched together with them. Any further line is searched on its own.
   */
  predicate BadName(a: string, years: seq<Year>)
    requires years != []
  {
    var y := SplitLines(StripRight(a));
    || (if AuthorBegins(y[0]) then Stops(y[0]) else Unreadable(LineOf("", Runs(years), y[0])))
    || exists i :: 1 <= i < |y| && Unreadable(y[i])
  }

  lemma SilentIsReadable(l: string)
    requires 'C' !in l
    ensures !Unreadable(l)
  {
    if Search(l).Some? {
      SearchNeedsKeyword(l);
    }
  }

  /** A name of which nothing is left. */
  lemma EmptyNameReads(lead: string, rs: seq<Range>, w: string)
    requires 'C' !in lead && rs != [] && w == lead + Fixed(rs)
    ensures ParseText(w) != None
  {
    FixedPlain(rs);
    var front, last := SplitsBefore(lead, Fixed(rs));
    SilentLines(front);
    SearchOfNone(last, rs, last + Fixed(rs));
    ParseLast(front, last + Fixed(rs));
  }

  lemma SplitFails(front: seq<string>, line: string, y: seq<string>, lines: seq<string>)
    requires y != [] && lines == front + [line] + y[1..] && forall l :: l in front ==> 'C' !in l
    ensures ParseLines(lines) == None <==> Unreadable(line) || exists i :: 1 <= i < |y| && Unreadable(y[i])
  {
    FailsExactly(lines);
    forall l | l in front ensures !Unreadable(l) {
      SilentIsReadable(l);
    }
    if i :| 1 <= i < |y| && Unreadable(y[i]) {
      assert y[1..][i - 1] == y[i] && y[i] in lines;
    }
    if Unreadable(line) {
      assert line in lines;
    }
  }

  /** The printed line of an author, whatever the name contains. */
  lemma TextFailsExactly(lead: string, years: seq<Year>, a: string, w: string)
    requires 'C' !in lead && years != [] && w == StripRight(LineOf(lead, Runs(years), a))
    ensures ParseText(w) == None <==> BadName(a, years)
  {
    var rs, b := Runs(years), StripRight(a);
    StripOfAny(lead, rs, a);
    RunsExpand(years);
    if b == [] {
      EmptyNameReads(lead, rs, w);
    } else {
      var front, line, y, last := LinesBehind(lead, rs, b);
      SplitFails(front, line, y, SplitLines(w));
      LeadIsIgnored(last, rs, y[0]);
      if AuthorBegins(y[0]) {
        FirstLineFails(rs, y[0]);
      }
    }
  }

  lemma {:induction false} FoldedFailsExactly(ws: seq<string>)
    requires ws != []
    ensures Folded(ws) == None <==> exists i :: 0 <= i < |ws| && ParseText(ws[i]) == None
  {
    if |ws| > 1 {
      var rest := ws[1..];
      FoldedFailsExactly(rest);
      if i :| 0 <= i < |ws| && ParseText(ws[i]) == None {
        assert i > 0 ==> ParseText(rest[i - 1]) == None;
      }
      if i :| 0 <= i < |rest| && ParseText(rest[i]) == None {
        assert ParseText(ws[i + 1]) == None;
      }
    } else if i :| 0 <= i < |ws| && ParseText(ws[i]) == None {
      assert i == 0;
    }
  }

  lemma AuthorTextFails(order: seq<string>, authors: Sources, style: Style, i: nat)
    requires InOrder(order, authors) && PlainStyle(style) && i < |order|
    ensures ParseText(Wrapped(HeaderLines(order, authors), style)[i]) == None <==> BadName(order[i], authors[order[i]])
  {
    WrappedAuthor(order, authors, style, i);
    TextFailsExactly(Lead(style, i), authors[order[i]], order[i], Wrapped(HeaderLines(order, authors), style)[i]);
  }

  lemma NamesFail(order: seq<string>, authors: Sources, style: Style)
    requires InOrder(order, authors) && PlainStyle(style)
    ensures ParseText(HeaderText(order, authors, style)) == None
            <==> exists a :: a in authors && BadName(a, authors[a])
  {
    var ws := Wrapped(HeaderLines(order, authors), style);
    ParseJoined(ws);
    FoldedFailsExactly(ws);
    if i :| 0 <= i < |ws| && ParseText(ws[i]) == None {
      if i < |order| {
        AuthorTextFails(order, authors, style, i);
        assert order[i] in order;
      } else {
        WrappedRest(order, authors, style, i);
      }
    }
    if a :| a in authors && BadName(a, authors[a]) {
      var i :| 0 <= i < |order| && order[i] == a;
      AuthorTextFails(order, authors, style, i);
      assert ParseText(ws[i]) == None;
    }
  }

  /**
   For all authors, reading their printed header ends in an exception exactly when one of the
   names is bad with its years.
   */
  lemma UnreadableExactly(order: seq<string>, authors: Sources, style: Style)
    requires NonEmpty(authors) && IsOrder(order, authors) && style in STYLES
    ensures ParseText(HeaderText(order, authors, style)) == None
            <==> exists a :: a in authors && BadName(a, authors[a])
  {
    StylesArePlain(style);
    NamesFail(order, authors, style);
  }

  /** What the end of the line leaves of the first line of a name. */
  function FirstLine(a: string): string { SplitLines(StripRight(a))[0] }

  /** A name whose first line begins with a space that no digit follows makes the whole header unreadable. */
  lemma StoppingNameFails(order: seq<string>, authors: Sources, style: Style, a: string)
    requires InOrder(order, authors) && PlainStyle(style) && a in authors && Stops(FirstLine(a))
    ensures ParseText(HeaderText(order, authors, style)) == None
  {
    assert BadName(a, authors[a]);
    NamesFail(order, authors, style);
  }

  /** A name on one line without a leading digit is bad exactly if it stops once its end is stripped. */
  lemma PlainNameIsBad(a: string, years: seq<Year>)
    requires years != [] && NoBreaks(a) && AuthorBegins(a)
    ensures BadName(a, years) <==> Stops(StripRight(a))
  {
    StripRightWithin(a);
    OneLine(StripRight(a));
  }

  /** The smallest case: the header of the one author " A" is printed but cannot be read. */
  lemma LeadingSpaceIsUnreadable(years: seq<Year>, style: Style)
    requires years != [] && style in STYLES
    ensures ParseText(HeaderText([" A"], map[" A" := years], style)) == None
  {
    var authors: Sources := map[" A" := years];
    StripRightWithin(" A");
    PlainNameIsBad(" A", years);
    assert BadName(" A", authors[" A"]);
    UnreadableExactly([" A"], authors, style);
  }
}
