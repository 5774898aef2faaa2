/**
 The parser's regular expression, by backtracking in the order of its greedy and lazy parts:
 Copyright.*?(?P<years>([0-9]{4}[\-,]? ?)+) (?![0-9])(?P<author>.*)
 */
module CopyrightRegex {
  import opened CopyrightYears
  import opened Prelude

  predicate IsDigit(c: char) { '0' <= c <= '9' }

  predicate FourDigits(s: string) { |s| >= 4 && IsDigit(s[0]) && IsDigit(s[1]) && IsDigit(s[2]) && IsDigit(s[3]) }

  /** After the years: a space that no digit follows. */
  predicate Stops(s: string) { |s| >= 1 && s[0] == ' ' && (|s| == 1 || !IsDigit(s[1])) }

  /** The length of the years at the head of s, one to many items, such that the rest stops. */
  function Items(s: string): (r: Option<nat>)
    ensures r.Some? ==> 4 <= r.value < |s| && Stops(s[r.value..])
    decreases |s|, 1
  {
    if !FourDigits(s) then None
    else if |s| > 4 && (s[4] == '-' || s[4] == ',') then
      var spaced := if |s| > 5 && s[5] == ' ' then After(s, 6) else None;
      if spaced.Some? then spaced else
      var separated := After(s, 5);
      if separated.Some? then separated else After(s, 4)
    else
      var spaced := if |s| > 4 && s[4] == ' ' then After(s, 5) else None;
      if spaced.Some? then spaced else After(s, 4)
  }

  /** An item of length n, then more items if possible. */
  function After(s: string, n: nat): (r: Option<nat>)
    requires 4 <= n <= |s|
    ensures r.Some? ==> n <= r.value < |s| && Stops(s[r.value..])
    decreases |s|, 0
  {
    var more := Items(s[n..]);
    if more.Some? then Some(n + more.value)
    else if Stops(s[n..]) then Some(n)
    else None
  }

  datatype Match = Match(years: string, author: string)

  /** The lazy part: the first place from which the years match. */
  function Lazy(s: string): Option<Match>
  {
    var n := Items(s);
    if n.Some? then Some(Match(s[..n.value], s[n.value + 1..]))
    else if s == [] then None
    else Lazy(s[1..])
  }

  predicate AuthorBegins(author: string) { author == [] || !IsDigit(author[0]) }

  /** The author is what follows a space at the end of s. */
  predicate Ends(s: string, author: string) {
    |author| < |s| && s[|s| - |author|..] == author && s[|s| - |author| - 1] == ' ' && AuthorBegins(author)
  }

  const KEYWORD: string := "Copyright"

  /** The search: the first keyword from which a match exists. */
  function Search(s: string): Option<Match>
  {
    var here := if KEYWORD <= s then Lazy(s[9..]) else None;
    if here.Some? then here
    else if s == [] then None
    else Search(s[1..])
  }

  lemma EndsOfTail(s: string, k: nat, author: string)
    requires k <= |s| && Ends(s[k..], author)
    ensures Ends(s, author)
  {
    assert s[k..][|s| - k - |author|..] == s[|s| - |author|..];
  }

  lemma {:induction false} LazyEnds(s: string)
    requires Lazy(s).Some?
    ensures Ends(s, Lazy(s).value.author)
  {
    var n := Items(s);
    if n.None? {
      LazyEnds(s[1..]);
      EndsOfTail(s, 1, Lazy(s).value.author);
    }
  }

  /** Whatever is found as author stands at the end of the line, after a space, without a leading digit. */
  lemma {:induction false} SearchEnds(s: string)
    requires Search(s).Some?
    ensures Ends(s, Search(s).value.author)
  {
    if KEYWORD <= s && Lazy(s[9..]).Some? {
      LazyEnds(s[9..]);
      EndsOfTail(s, 9, Search(s).value.author);
    } else {
      SearchEnds(s[1..]);
      EndsOfTail(s, 1, Search(s).value.author);
    }
  }

  // ----- matching a printed line

  /** Ranges, each with a comma and a space, then the author. */
  function Listing(rs: seq<Range>, author: string): string {
    if rs == [] then author else RangeText(rs[0]) + ", " + Listing(rs[1..], author)
  }

  lemma YearIsDigits(y: Year)
    ensures |YearText(y)| == 4 && FourDigits(YearText(y))
  {
  }

  lemma AuthorHasNoItems(author: string)
    requires AuthorBegins(author)
    ensures Items(author) == None && Items(" " + author) == None
  {
  }

  /** A single year, a comma, a space and a text that has no items. */
  lemma LastYear(y: Year, t: string, author: string)
    requires AuthorBegins(author) && t == YearText(y) + ", " + author
    ensures Items(t) == Some(if Stops(author) then 6 else 5)
  {
    YearIsDigits(y);
    AuthorHasNoItems(author);
    assert t[6..] == author && t[5..] == " " + author;
  }

  /** A single year before more items. */
  lemma NextYear(y: Year, t: string, rest: string)
    requires t == YearText(y) + ", " + rest && Items(rest).Some?
    ensures Items(t) == Some(6 + Items(rest).value)
  {
    YearIsDigits(y);
    assert t[6..] == rest;
  }

  /** The first year of a range before its last. */
  lemma RangeStart(y: Year, t: string, rest: string)
    requires t == YearText(y) + "-" + rest && rest != [] && rest[0] != ' ' && Items(rest).Some?
    ensures Items(t) == Some(5 + Items(rest).value)
  {
    YearIsDigits(y);
    assert t[5..] == rest;
  }

  /** The ranges as the years group: a comma after each, a space between. */
  function Group(rs: seq<Range>): string
    requires rs != []
  {
    RangeText(rs[0]) + "," + if |rs| == 1 then "" else " " + Group(rs[1..])
  }

  lemma Regroup(a: string, g: string, author: string)
    ensures a + ", " + (g + " " + author) == a + "," + (" " + g) + " " + author
    ensures a + ", " + author == a + "," + "" + " " + author
  {
  }

  lemma {:induction false} ListingIsGroup(rs: seq<Range>, author: string)
    requires rs != []
    ensures Listing(rs, author) == Group(rs) + " " + author
  {
    var rest := rs[1..];
    if |rs| > 1 {
      ListingIsGroup(rest, author);
      Regroup(RangeText(rs[0]), Group(rest), author);
    } else {
      Regroup(RangeText(rs[0]), "", author);
      assert Listing(rest, author) == author;
    }
  }

  lemma ItemsOfRange(r: Range, t: string, n: nat)
    requires Items(YearText(r.last) + ", " + t) == Some(n)
    ensures |RangeText(r)| >= 4 && Items(RangeText(r) + ", " + t) == Some(n + |RangeText(r)| - 4)
  {
    YearIsDigits(r.first);
    YearIsDigits(r.last);
    if r.first != r.last {
      var y := YearText(r.last) + ", " + t;
      assert RangeText(r) + ", " + t == YearText(r.first) + "-" + y;
      RangeStart(r.first, RangeText(r) + ", " + t, y);
    }
  }

  /** How much of the listing the years group takes: all ranges, and a space more if the author then stops. */
  ghost predicate Takes(rs: seq<Range>, author: string, n: nat)
    requires rs != []
  {
    n == |Group(rs)| + if Stops(author) then 1 else 0
  }

  lemma TakesMore(rs: seq<Range>, author: string, n: nat, m: nat)
    requires rs != [] && Takes(rs, author, n)
    requires if |rs| == 1 then m == (if Stops(author) then 6 else 5) else m >= 6 && Takes(rs[1..], author, m - 6)
    ensures |RangeText(rs[0])| >= 4 && n == m + |RangeText(rs[0])| - 4
  {
    YearIsDigits(rs[0].first);
    YearIsDigits(rs[0].last);
  }

  lemma ListingHead(rs: seq<Range>, author: string, line: string, t: string, n: nat, m: nat)
    requires rs != [] && line == Listing(rs, author) && t == Listing(rs[1..], author)
    requires Items(YearText(rs[0].last) + ", " + t) == Some(m)
    requires |RangeText(rs[0])| >= 4 && n == m + |RangeText(rs[0])| - 4
    ensures Items(line) == Some(n)
  {
    ItemsOfRange(rs[0], t, m);
  }

  lemma ListingOfOne(rs: seq<Range>, author: string, line: string, n: nat)
    requires |rs| == 1 && AuthorBegins(author) && line == Listing(rs, author) && Takes(rs, author, n)
    ensures Items(line) == Some(n)
  {
    var y := YearText(rs[0].last) + ", " + author;
    var m := if Stops(author) then 6 else 5;
    LastYear(rs[0].last, y, author);
    TakesMore(rs, author, n, m);
    ListingHead(rs, author, line, author, n, m);
  }

  lemma ListingOfMore(rs: seq<Range>, author: string, line: string, n: nat, t: string, k: nat)
    requires |rs| > 1 && line == Listing(rs, author) && Takes(rs, author, n)
    requires t == Listing(rs[1..], author) && Takes(rs[1..], author, k) && Items(t) == Some(k)
    ensures Items(line) == Some(n)
  {
    NextYear(rs[0].last, YearText(rs[0].last) + ", " + t, t);
    TakesMore(rs, author, n, 6 + k);
    ListingHead(rs, author, line, t, n, 6 + k);
  }

  lemma {:induction false} ListingItems(rs: seq<Range>, author: string, line: string, n: nat)
    requires rs != [] && AuthorBegins(author) && line == Listing(rs, author) && Takes(rs, author, n)
    ensures Items(line) == Some(n)
  {
    if |rs| == 1 {
      ListingOfOne(rs, author, line, n);
    } else {
      var rest := rs[1..];
      var t, k := Listing(rest, author), |Group(rest)| + if Stops(author) then 1 else 0;
      ListingItems(rest, author, t, k);
      ListingOfMore(rs, author, line, n, t, k);
    }
  }

  lemma {:induction false} LazySkips(pre: string, s: string)
    requires forall i :: 0 <= i < |pre| ==> !IsDigit(pre[i])
    ensures Lazy(pre + s) == Lazy(s)
  {
    if pre == [] {
      assert pre + s == s;
    } else {
      LazySkips(pre[1..], s);
      assert (pre + s)[1..] == pre[1..] + s;
    }
  }

  lemma NoKeyword(t: string)
    requires t != [] && t[0] != 'C'
    ensures Search(t) == Search(t[1..])
  {
  }

  lemma LazyStops(g: string, author: string, t: string)
    requires Stops(author) && t == g + " " + author && Items(t) == Some(|g| + 1)
    ensures Lazy(t) == Some(Match(g + " ", author[1..]))
  {
    Cut(g, author, t);
    LazyCuts(t, |g| + 1);
  }

  lemma LazyTakesAll(g: string, author: string, t: string)
    requires t == g + " " + author && Items(t) == Some(|g|)
    ensures Lazy(t) == Some(Match(g, author))
  {
    Cut(g, author, t);
    LazyCuts(t, |g|);
  }

  lemma LazyFinds(rs: seq<Range>, author: string)
    requires rs != [] && AuthorBegins(author)
    ensures Lazy(Listing(rs, author)) ==
            Some(if Stops(author) then Match(Group(rs) + " ", author[1..]) else Match(Group(rs), author))
  {
    var t, g := Listing(rs, author), Group(rs);
    ListingItems(rs, author, t, |g| + if Stops(author) then 1 else 0);
    ListingIsGroup(rs, author);
    if Stops(author) {
      LazyStops(g, author, t);
    } else {
      LazyTakesAll(g, author, t);
    }
  }

  lemma LazyCuts(t: string, n: nat)
    requires n < |t| && Items(t) == Some(n)
    ensures Lazy(t) == Some(Match(t[..n], t[n + 1..]))
  {
  }

  lemma Cut(g: string, author: string, t: string)
    requires t == g + " " + author
    ensures t[..|g|] == g && t[|g| + 1..] == author
    ensures author != [] ==> t[..|g| + 1] == g + " " && t[|g| + 2..] == author[1..]
  {
  }

  lemma {:induction false} SearchNeedsKeyword(s: string)
    requires Search(s).Some?
    ensures 'C' in s && 'y' in s
  {
    if KEYWORD <= s {
      assert s[0] == 'C' && s[3] == 'y';
    } else {
      SearchNeedsKeyword(s[1..]);
    }
  }

  // ----- lines with a keyword

  lemma {:induction false} SearchSkipsPlain(pre: string, s: string)
    requires 'C' !in pre
    ensures Search(pre + s) == Search(s)
  {
    if pre == [] {
      assert pre + s == s;
    } else {
      var t := pre + s;
      assert t[1..] == pre[1..] + s;
      NoKeyword(t);
      SearchSkipsPlain(pre[1..], s);
    }
  }

  lemma SearchAtKeyword(s: string)
    ensures Search(KEYWORD + s) == if Lazy(s).Some? then Lazy(s) else Search(s)
  {
    var t := KEYWORD + s;
    assert t[9..] == s;
    if Lazy(s).None? {
      assert t[1..] == "opyright" + s;
      SearchSkipsPlain("opyright", s);
    }
  }

  lemma SearchOfLine(pre: string, t: string)
    requires 'C' !in pre
    ensures Search(pre + (KEYWORD + (" (c) " + t))) == if Lazy(t).Some? then Lazy(t) else Search(t)
  {
    SearchSkipsPlain(pre, KEYWORD + (" (c) " + t));
    SearchAtKeyword(" (c) " + t);
    LazySkips(" (c) ", t);
    SearchSkipsPlain(" (c) ", t);
  }

  /** A printed line is matched: all ranges are found, and the author unless a space is lost. */
  lemma SearchFinds(pre: string, rs: seq<Range>, author: string, line: string)
    requires 'C' !in pre && rs != [] && AuthorBegins(author)
    requires line == pre + (KEYWORD + (" (c) " + Listing(rs, author)))
    ensures Search(line) ==
            Some(if Stops(author) then Match(Group(rs) + " ", author[1..]) else Match(Group(rs), author))
  {
    LazyFinds(rs, author);
    SearchOfLine(pre, Listing(rs, author));
  }

  // ----- no match reaches back into the years

  /** Every space is followed by a digit. */
  predicate Tight(g: string) { forall i :: 0 <= i < |g| && g[i] == ' ' ==> i + 1 < |g| && IsDigit(g[i + 1]) }

  predicate Plain(t: string) { forall i :: 0 <= i < |t| ==> IsDigit(t[i]) || t[i] == '-' || t[i] == ',' }

  lemma RangeTextIsPlain(r: Range)
    ensures Plain(RangeText(r) + ",") && |RangeText(r)| >= 4 && IsDigit(RangeText(r)[0])
  {
    YearIsDigits(r.first);
    YearIsDigits(r.last);
    forall i | 0 <= i < |RangeText(r)| ensures IsDigit(RangeText(r)[i]) || RangeText(r)[i] == '-' {
      if i < 4 {
        assert RangeText(r)[i] == YearText(r.first)[i];
      } else if i > 4 {
        assert RangeText(r)[i] == YearText(r.last)[i - 5];
      }
    }
  }

  lemma TightJoin(head: string, rest: string)
    requires Plain(head) && Tight(rest) && rest != [] && IsDigit(rest[0]) && 'C' !in rest
    ensures Tight(head + " " + rest) && 'C' !in head + " " + rest
  {
    var g := head + " " + rest;
    forall i | 0 <= i < |g| && g[i] == ' ' ensures i + 1 < |g| && IsDigit(g[i + 1]) {
      if i > |head| {
        assert rest[i - |head| - 1] == ' ';
      }
    }
  }

  lemma {:induction false} GroupIsTight(rs: seq<Range>)
    requires rs != []
    ensures Tight(Group(rs)) && 'C' !in Group(rs)
    ensures Group(rs) != [] && IsDigit(Group(rs)[0]) && Group(rs)[|Group(rs)| - 1] == ','
  {
    RangeTextIsPlain(rs[0]);
    var head := RangeText(rs[0]) + ",";
    if |rs| > 1 {
      var rest := Group(rs[1..]);
      GroupIsTight(rs[1..]);
      assert Group(rs) == head + " " + rest;
      TightJoin(head, rest);
    } else {
      assert Group(rs) == head;
    }
  }

  /** No stop begins inside a tight text. */
  lemma StopsOutside(g: string, s: string, n: nat)
    requires Tight(g) && g <= s && n <= |s| && Stops(s[n..])
    ensures n >= |g|
  {
  }

  lemma {:induction false} LazyFits(g: string, s: string, author: string)
    requires Tight(g) && s == g + " " + author && Lazy(s).Some?
    ensures |Lazy(s).value.author| <= |author|
  {
    var n := Items(s);
    if n.Some? {
      StopsOutside(g, s, n.value);
    } else if g == [] {
      assert s[1..] == author;
      LazyEnds(author);
    } else {
      assert s[1..] == g[1..] + " " + author;
      LazyFits(g[1..], s[1..], author);
    }
  }

  lemma {:induction false} LazyOfTight(g: string)
    requires Tight(g)
    ensures Lazy(g).None?
  {
    var n := Items(g);
    if n.Some? {
      StopsOutside(g, g, n.value);
    } else if g != [] {
      LazyOfTight(g[1..]);
    }
  }

  /** Whatever follows the years, what is found as author is no longer. */
  lemma SearchFits(pre: string, rs: seq<Range>, author: string, line: string)
    requires 'C' !in pre && rs != [] && line == pre + (KEYWORD + (" (c) " + (Group(rs) + " " + author)))
    ensures Search(line).Some? ==> |Search(line).value.author| <= |author|
  {
    var s := Group(rs) + " " + author;
    GroupIsTight(rs);
    SearchOfLine(pre, s);
    if Lazy(s).Some? {
      LazyFits(Group(rs), s, author);
    } else {
      SearchSkipsPlain(Group(rs) + " ", author);
      if Search(author).Some? {
        SearchEnds(author);
      }
    }
  }

  /** Without an author nothing is found. */
  lemma SearchOfNone(pre: string, rs: seq<Range>, line: string)
    requires 'C' !in pre && rs != [] && line == pre + (KEYWORD + (" (c) " + Group(rs)))
    ensures Search(line).None?
  {
    GroupIsTight(rs);
    SearchOfLine(pre, Group(rs));
    LazyOfTight(Group(rs));
    if Search(Group(rs)).Some? {
      SearchNeedsKeyword(Group(rs));
    }
  }
}
