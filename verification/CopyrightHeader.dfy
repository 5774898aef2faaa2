/**
 Copyright headers: authors and years printed in a comment, and read back.
 */
module CopyrightHeader {
  import opened CopyrightParser
  import opened CopyrightRegex
  import opened CopyrightYears
  import opened Prelude

  /** A comment style: what stands before the first line, before the others, and after the last. */
  datatype Style = Style(first: string, next: string, last: string)

  const STYLES: seq<Style> := [
    Style("/*\n * ", " * ", "\n */"), Style("# ", "# ", ""), Style("%# ", "%# ", ""),
    Style("// ", "// ", ""), Style("<!--\n", "", "\n-->"), Style(".. ", "   ", "")]

  const FILE_LINE: string := "This file is part of the modm project."
  const FORM_START: string := "This Source Code Form is subject to"
  const FORM_END: string := " the terms of the Mozilla Public"
  const COPY_START: string := "License, v. 2.0. If a copy of the "
  const COPY_END: string := "MPL was not distributed with this"
  const LINK_START: string := "file, You can obtain one at "
  const LINK_END: string := "http://mozilla.org/MPL/2.0/."

  const LICENSE: seq<string> := [
    FILE_LINE, "", FORM_START + FORM_END, COPY_START + COPY_END, LINK_START + LINK_END]

  type Sources = map<string, seq<Year>>

  // ----- the order of the authors

  /** Comparison by code points, as between texts in Python. */
  predicate TextBefore(a: string, b: string) {
    b != [] && (a == [] || a[0] < b[0] || (a[0] == b[0] && TextBefore(a[1..], b[1..])))
  }

  function Min(s: seq<int>): (m: int)
    requires s != []
    ensures m in s && forall x :: x in s ==> m <= x
  {
    if |s| == 1 then s[0] else
    assert s == [s[0]] + s[1..];
    if s[0] <= Min(s[1..]) then s[0] else Min(s[1..])
  }

  function Max(s: seq<int>): (m: int)
    requires s != []
    ensures m in s && forall x :: x in s ==> x <= m
  {
    if |s| == 1 then s[0] else
    assert s == [s[0]] + s[1..];
    if s[0] >= Max(s[1..]) then s[0] else Max(s[1..])
  }

  predicate NonEmpty(authors: Sources) { forall a :: a in authors ==> authors[a] != [] }

  /** By first year, then last year, then name. */
  predicate Before(authors: Sources, a: string, b: string)
    requires NonEmpty(authors) && a in authors && b in authors
  {
    var (p, q, r, s) := (Min(authors[a]), Min(authors[b]), Max(authors[a]), Max(authors[b]));
    p < q || (p == q && (r < s || (r == s && TextBefore(a, b))))
  }

  lemma {:induction false} TextTotal(a: string, b: string)
    ensures TextBefore(a, b) || TextBefore(b, a) || a == b
  {
    if a != [] && b != [] && a[0] == b[0] {
      TextTotal(a[1..], b[1..]);
      assert a == [a[0]] + a[1..] && b == [b[0]] + b[1..];
    }
  }

  lemma {:induction false} TextTransitive(a: string, b: string, c: string)
    requires TextBefore(a, b) && TextBefore(b, c)
    ensures TextBefore(a, c)
  {
    if a != [] && a[0] == b[0] == c[0] {
      TextTransitive(a[1..], b[1..], c[1..]);
    }
  }

  /** The authors in the order of the header. */
  ghost predicate IsOrder(order: seq<string>, authors: Sources)
    requires NonEmpty(authors)
  {
    && (forall a :: a in order <==> a in authors)
    && forall i, j :: 0 <= i < j < |order| ==> Before(authors, order[i], order[j])
  }

  /** The first of some authors. */
  method First(authors: Sources, rest: set<string>) returns (a: string)
    requires NonEmpty(authors) && rest != {} && rest <= authors.Keys
    ensures a in rest && forall b :: b in rest && b != a ==> Before(authors, a, b)
  {
    a :| a in rest;
    var left := rest - {a};
    while left != {}
      invariant a in rest && left <= rest
      invariant forall b :: b in rest - left && b != a ==> Before(authors, a, b)
      decreases left
    {
      var b :| b in left;
      TextTotal(a, b);
      if Before(authors, b, a) {
        forall c | c in rest - left && c != a ensures Before(authors, b, c) {
          BeforeTransitive(authors, b, a, c);
        }
        a := b;
      }
      left := left - {b};
    }
  }

  lemma BeforeTransitive(authors: Sources, a: string, b: string, c: string)
    requires NonEmpty(authors) && a in authors && b in authors && c in authors
    requires Before(authors, a, b) && Before(authors, b, c)
    ensures Before(authors, a, c)
  {
    if TextBefore(a, b) && TextBefore(b, c) {
      TextTransitive(a, b, c);
    }
  }

  /** sorted(authors.keys(), key=...) */
  method SortedAuthors(authors: Sources) returns (order: seq<string>)
    requires NonEmpty(authors)
    ensures IsOrder(order, authors)
  {
    order := [];
    var rest := authors.Keys;
    while rest != {}
      invariant rest <= authors.Keys
      invariant forall a :: a in authors <==> a in order || a in rest
      invariant forall a, b :: a in order && b in rest ==> Before(authors, a, b)
      invariant forall i, j :: 0 <= i < j < |order| ==> Before(authors, order[i], order[j])
      decreases rest
    {
      var a := First(authors, rest);
      order := order + [a];
      rest := rest - {a};
    }
  }

  // ----- the text

  function Join(parts: seq<string>, sep: string): string {
    if parts == [] then "" else if |parts| == 1 then parts[0] else parts[0] + sep + Join(parts[1..], sep)
  }

  /** Copyright (c) {years}, {author} */
  function AuthorLine(author: string, years: seq<Year>): string
    requires years != []
  {
    KEYWORD + " (c) " + Join(Texts(Runs(years)), ", ") + ", " + author
  }

  function AuthorLines(order: seq<string>, authors: Sources): (r: seq<string>)
    requires NonEmpty(authors) && forall a :: a in order ==> a in authors
    ensures |r| == |order|
  {
    seq(|order|, i requires 0 <= i < |order| => AuthorLine(order[i], authors[order[i]]))
  }

  function HeaderLines(order: seq<string>, authors: Sources): seq<string>
    requires NonEmpty(authors) && forall a :: a in order ==> a in authors
  {
    AuthorLines(order, authors) + [""] + LICENSE
  }

  /** Line i in the comment style, before white space is stripped. */
  function Styled(lines: seq<string>, style: Style, i: nat): string
    requires i < |lines|
  {
    if i == 0 then style.first + lines[i]
    else if i == |lines| - 1 then style.next + lines[i] + style.last
    else style.next + lines[i]
  }

  function Wrapped(lines: seq<string>, style: Style): (r: seq<string>)
    ensures |r| == |lines|
  {
    seq(|lines|, i requires 0 <= i < |lines| => StripRight(Styled(lines, style, i)))
  }

  function HeaderText(order: seq<string>, authors: Sources, style: Style): string
    requires NonEmpty(authors) && forall a :: a in order ==> a in authors
  {
    Join(Wrapped(HeaderLines(order, authors), style), "\n")
  }

  method BuildLines(order: seq<string>, authors: Sources) returns (lines: seq<string>)
    requires NonEmpty(authors) && forall a :: a in order ==> a in authors
    ensures lines == HeaderLines(order, authors)
  {
    lines := [];
    for i := 0 to |order|
      invariant lines == AuthorLines(order, authors)[..i]
    {
      var years := CompactifyYears(authors[order[i]]);
      lines := lines + [KEYWORD + " (c) " + Join(years.value, ", ") + ", " + order[i]];
    }
    lines := lines + [""];
    lines := lines + LICENSE;
  }

  method WrapLines(lines: seq<string>, style: Style) returns (stripped: seq<string>)
    ensures stripped == Wrapped(lines, style)
  {
    var slines: seq<string> := [];
    for i := 0 to |lines|
      invariant |slines| == i && forall k :: 0 <= k < i ==> slines[k] == Styled(lines, style, k)
    {
      if i == 0 {
        slines := slines + [style.first + lines[i]];
      } else if i == |lines| - 1 {
        slines := slines + [style.next + lines[i] + style.last];
      } else {
        slines := slines + [style.next + lines[i]];
      }
    }
    stripped := [];
    for i := 0 to |slines|
      invariant stripped == Wrapped(lines, style)[..i]
    {
      stripped := stripped + [StripRight(slines[i])];
    }
  }

  /** format_copyright_header. None is the ValueError of min for an author without years. */
  method FormatCopyrightHeader(authors: Sources, style: Option<Style>)
    returns (r: Option<string>, ghost order: seq<string>)
    ensures style.None? ==> r == Some("")
    ensures style.Some? && !NonEmpty(authors) ==> r == None
    ensures style.Some? && NonEmpty(authors) ==>
              IsOrder(order, authors) && r == Some(HeaderText(order, authors, style.value))
  {
    order := [];
    if style.None? { return Some(""), []; }
    if !NonEmpty(authors) { return None, []; }
    var sorted := SortedAuthors(authors);
    var lines := BuildLines(sorted, authors);
    var stripped := WrapLines(lines, style.value);
    r, order := Some(Join(stripped, "\n")), sorted;
  }
}
