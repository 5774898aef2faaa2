/**
 What is read from any lines, printed by the tool or not: which authors, from which of their
 lines, and when it fails.
 */
module CopyrightReading {
  import opened CopyrightParser
  import opened CopyrightRegex
  import opened CopyrightYears
  import opened Prelude

  /** The line holds a copyright of this author. */
  predicate Names(line: string, author: string) { Search(line).Some? && Search(line).value.author == author }

  /** The line holds a copyright whose years are not all numbers. */
  predicate Unreadable(line: string) { Search(line).Some? && GroupYears(Search(line).value.years).None? }

  /** Years in ascending order, each as often as the line holds it. */
  ghost predicate YearsOf(line: string, years: seq<int>) {
    && Search(line).Some?
    && var g := GroupYears(Search(line).value.years);
       g.Some? && Ascending(years) && multiset(years) == multiset(g.value)
  }

  /** Line i is the last one with a copyright of this author. */
  ghost predicate LastNames(lines: seq<string>, i: nat, author: string) {
    i < |lines| && Names(lines[i], author) && forall j :: i < j < |lines| ==> !Names(lines[j], author)
  }

  lemma ExtendedExactly(before: Option<Authors>, line: string)
    ensures Extended(before, line).None? <==> before.None? || Unreadable(line)
    ensures Extended(before, line).Some? ==>
              && (forall a :: Names(line, a) ==>
                    a in Extended(before, line).value && YearsOf(line, Extended(before, line).value[a]))
              && (forall a :: !Names(line, a) ==>
                    && (a in Extended(before, line).value <==> a in before.value)
                    && (a in before.value ==> Extended(before, line).value[a] == before.value[a]))
  {
    if before.Some? && Search(line).Some? && !Unreadable(line) {
      SortedAscends(GroupYears(Search(line).value.years).value);
    }
  }

  lemma {:induction false} FailsExactly(lines: seq<string>)
    ensures ParseLines(lines).None? <==> exists i :: 0 <= i < |lines| && Unreadable(lines[i])
  {
    if lines != [] {
      var front, last := lines[..|lines| - 1], lines[|lines| - 1];
      FailsExactly(front);
      ExtendedExactly(ParseLines(front), last);
      if i :| 0 <= i < |front| && Unreadable(front[i]) {
        assert Unreadable(lines[i]);
      }
      if i :| 0 <= i < |lines| && Unreadable(lines[i]) {
        assert i < |front| ==> Unreadable(front[i]);
      }
    }
  }

  lemma {:induction false} NamedExactly(lines: seq<string>, a: string)
    requires ParseLines(lines).Some?
    ensures a in ParseLines(lines).value <==> exists i :: 0 <= i < |lines| && Names(lines[i], a)
  {
    if lines != [] {
      var front, last := lines[..|lines| - 1], lines[|lines| - 1];
      ExtendedExactly(ParseLines(front), last);
      NamedExactly(front, a);
      if i :| 0 <= i < |lines| && Names(lines[i], a) {
        assert i < |front| ==> Names(front[i], a);
      }
      if i :| 0 <= i < |front| && Names(front[i], a) {
        assert Names(lines[i], a);
      }
    }
  }

  lemma {:induction false} LastDecides(lines: seq<string>, a: string, i: nat)
    requires ParseLines(lines).Some? && LastNames(lines, i, a)
    ensures a in ParseLines(lines).value && YearsOf(lines[i], ParseLines(lines).value[a])
  {
    var front, last := lines[..|lines| - 1], lines[|lines| - 1];
    ExtendedExactly(ParseLines(front), last);
    if i < |front| {
      assert !Names(last, a);
      LastDecides(front, a, i);
    }
  }

  /**
   Reading any lines fails exactly if some line holds a copyright whose years are not all
   numbers. Otherwise it gives the authors of all copyrights in them, each with the years of
   the last line that names it, in ascending order.
   */
  lemma ReadsExactly(lines: seq<string>)
    ensures ParseLines(lines).None? <==> exists i :: 0 <= i < |lines| && Unreadable(lines[i])
    ensures ParseLines(lines).Some? ==>
              var authors := ParseLines(lines).value;
              && (forall a :: a in authors <==> exists i :: 0 <= i < |lines| && Names(lines[i], a))
              && (forall a, i: nat :: LastNames(lines, i, a) ==> a in authors && YearsOf(lines[i], authors[a]))
  {
    FailsExactly(lines);
    if ParseLines(lines).Some? {
      forall a
        ensures a in ParseLines(lines).value <==> exists i :: 0 <= i < |lines| && Names(lines[i], a)
      {
        NamedExactly(lines, a);
      }
      forall a, i: nat | LastNames(lines, i, a)
        ensures a in ParseLines(lines).value && YearsOf(lines[i], ParseLines(lines).value[a])
      {
        LastDecides(lines, a, i);
      }
    }
  }

  lemma {:induction false} SpanHolds(a: int, b: int)
    ensures |Span(a, b)| == if a <= b then b - a + 1 else 0
    ensures forall i :: 0 <= i < |Span(a, b)| ==> Span(a, b)[i] == a + i
    decreases b - a
  {
    if a <= b {
      SpanHolds(a + 1, b);
    }
  }

  /** A piece with dashes stands for the years from its first number to its second, whatever numbers follow. */
  lemma PieceSpans(first: string, second: string, more: string, piece: string, a: int, b: int) returns (years: seq<int>)
    requires '-' !in first && '-' !in second && IntOf(first) == Some(a) && IntOf(second) == Some(b)
    requires more == "" || (more[0] == '-' && Ints(Split(more[1..], '-')).Some?)
    requires piece == first + "-" + second + more
    ensures PieceYears(piece) == Some(years)
    ensures |years| == (if a <= b then b - a + 1 else 0) && forall i :: 0 <= i < |years| ==> years[i] == a + i
  {
    years := Span(a, b);
    SpanHolds(a, b);
    assert piece == first + ['-'] + (second + more);
    assert piece[|first|] == '-';
    SplitAt(first, second + more, '-');
    RestSplits(second, more);
    TwoInts(first, second, if more == "" then [] else Split(more[1..], '-'), a, b);
  }

  lemma RestSplits(second: string, more: string)
    requires '-' !in second && (more == "" || more[0] == '-')
    ensures Split(second + more, '-') == [second] + if more == "" then [] else Split(more[1..], '-')
  {
    if more == "" {
      assert second + more == second;
      SplitWhole(second, '-');
    } else {
      assert second + more == second + ['-'] + more[1..];
      SplitAt(second, more[1..], '-');
    }
  }

  lemma TwoInts(first: string, second: string, rest: seq<string>, a: int, b: int)
    requires IntOf(first) == Some(a) && IntOf(second) == Some(b) && Ints(rest).Some?
    ensures Ints([first] + ([second] + rest)).Some?
    ensures Ints([first] + ([second] + rest)).value[..2] == [a, b]
  {
    assert ([second] + rest)[1..] == rest;
    assert ([first] + ([second] + rest))[1..] == [second] + rest;
  }
}
