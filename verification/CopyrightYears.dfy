/**
 Copyright years: a list of years is printed as ranges of consecutive years.
 */
module CopyrightYears {
  import opened Prelude

  type Year = y: int | 1000 <= y <= 9999 witness 1000

  datatype Range = Range(first: Year, last: Year)

  function DigitChar(d: nat): char
    requires d < 10
  {
    (48 + d) as char
  }

  function YearText(y: Year): string {
    [DigitChar(y / 1000), DigitChar(y / 100 % 10), DigitChar(y / 10 % 10), DigitChar(y % 10)]
  }

  function RangeText(r: Range): string {
    if r.first != r.last then YearText(r.first) + "-" + YearText(r.last) else YearText(r.first)
  }

  function Texts(rs: seq<Range>): (t: seq<string>)
    ensures |t| == |rs|
  {
    seq(|rs|, i requires 0 <= i < |rs| => RangeText(rs[i]))
  }

  /** A year lengthens the last range or starts a new one. */
  function AddYear(rs: seq<Range>, y: Year): (r: seq<Range>)
    requires rs != []
    ensures r != [] && r[|r| - 1].last == y
  {
    var n := |rs| - 1;
    if y as int == rs[n].last as int + 1 then rs[..n] + [Range(rs[n].first, y)] else rs + [Range(y, y)]
  }

  /** The runs of consecutive years of a non-empty list. */
  function Runs(years: seq<Year>): (rs: seq<Range>)
    requires years != []
    ensures rs != [] && rs[|rs| - 1].last == years[|years| - 1]
  {
    var n := |years| - 1;
    if n == 0 then [Range(years[0], years[0])] else AddYear(Runs(years[..n]), years[n])
  }

  function Ends(streak: seq<Year>): Range
    requires streak != []
  {
    Range(streak[0], streak[|streak| - 1])
  }

  function AllEnds(streaks: seq<seq<Year>>): (rs: seq<Range>)
    requires forall i :: 0 <= i < |streaks| ==> streaks[i] != []
    ensures |rs| == |streaks|
  {
    seq(|streaks|, i requires 0 <= i < |streaks| => Ends(streaks[i]))
  }

  /** One more year, in the loop: it goes on the streak or starts another. */
  lemma RunsGoOn(years: seq<Year>, i: nat, done: seq<Range>, streak: seq<Year>)
    requires 0 < i < |years| && streak != [] && Runs(years[..i]) == done + [Ends(streak)]
    ensures years[i] as int == streak[|streak| - 1] as int + 1 ==>
              Runs(years[..i + 1]) == done + [Ends(streak + [years[i]])]
    ensures years[i] as int != streak[|streak| - 1] as int + 1 ==>
              Runs(years[..i + 1]) == (done + [Ends(streak)]) + [Ends([years[i]])]
  {
    assert years[..i + 1][..i] == years[..i];
    assert (done + [Ends(streak)])[..|done|] == done;
  }

  lemma AllEndsAppend(streaks: seq<seq<Year>>, streak: seq<Year>)
    requires (forall i :: 0 <= i < |streaks| ==> streaks[i] != []) && streak != []
    ensures AllEnds(streaks + [streak]) == AllEnds(streaks) + [Ends(streak)]
  {
  }

  /** The first loop: the streaks of consecutive years. Without years the only streak is empty. */
  method Streaks(years: seq<Year>) returns (streaks: seq<seq<Year>>)
    ensures years == [] ==> streaks == [[]]
    ensures years != [] ==> (forall k :: 0 <= k < |streaks| ==> streaks[k] != []) && AllEnds(streaks) == Runs(years)
  {
    var streak: seq<Year> := [];
    streaks := [];
    for i := 0 to |years|
      invariant forall k :: 0 <= k < |streaks| ==> streaks[k] != []
      invariant i == 0 ==> streaks == [] && streak == []
      invariant i > 0 ==> streak != [] && Runs(years[..i]) == AllEnds(streaks) + [Ends(streak)]
    {
      var year := years[i];
      if i > 0 {
        RunsGoOn(years, i, AllEnds(streaks), streak);
        AllEndsAppend(streaks, streak);
      }
      if |streak| == 0 || year as int == streak[|streak| - 1] as int + 1 {
        streak := streak + [year];
      } else {
        streaks := streaks + [streak];
        streak := [year];
      }
    }
    assert years[..|years|] == years;
    if years != [] {
      AllEndsAppend(streaks, streak);
    }
    streaks := streaks + [streak];
  }

  /** compactify_years. The empty streak has no first element: None is the IndexError. */
  method CompactifyYears(years: seq<Year>) returns (r: Option<seq<string>>)
    ensures r.None? <==> years == []
    ensures r.Some? ==> r.value == Texts(Runs(years))
  {
    var streaks := Streaks(years);
    if streaks[0] == [] {
      return None;
    }
    var pairs: seq<Range> := [];
    for i := 0 to |streaks|
      invariant pairs == AllEnds(streaks)[..i]
    {
      pairs := pairs + [Ends(streaks[i])];
    }
    r := Some(Texts(pairs));
  }

  // ----- what the ranges mean

  function Span(a: int, b: int): (s: seq<int>)
    decreases b - a
  {
    if a > b then [] else [a] + Span(a + 1, b)
  }

  function Expand(rs: seq<Range>): seq<int> {
    if rs == [] then [] else Expand(rs[..|rs| - 1]) + Span(rs[|rs| - 1].first, rs[|rs| - 1].last)
  }

  lemma {:induction false} SpanGrows(a: int, b: int)
    requires a <= b + 1
    ensures Span(a, b + 1) == Span(a, b) + [b + 1]
    decreases b - a
  {
    if a <= b {
      SpanGrows(a + 1, b);
    }
  }

  predicate Forward(rs: seq<Range>) { forall i :: 0 <= i < |rs| ==> rs[i].first <= rs[i].last }

  lemma ExpandAppend(rs: seq<Range>, r: Range)
    requires Forward(rs) && r.first <= r.last
    ensures Forward(rs + [r]) && Expand(rs + [r]) == Expand(rs) + Span(r.first, r.last)
  {
    assert (rs + [r])[..|rs|] == rs;
  }

  lemma ExpandGrows(rs: seq<Range>, r: Range, y: Year)
    requires Forward(rs) && r.first <= r.last && y as int == r.last as int + 1
    ensures Forward(rs + [Range(r.first, y)]) && Expand(rs + [Range(r.first, y)]) == Expand(rs + [r]) + [y]
  {
    SpanGrows(r.first, r.last);
    ExpandAppend(rs, r);
    ExpandAppend(rs, Range(r.first, y));
  }

  lemma AddYearExpands(rs: seq<Range>, y: Year)
    requires rs != [] && Forward(rs)
    ensures Forward(AddYear(rs, y)) && Expand(AddYear(rs, y)) == Expand(rs) + [y]
  {
    var n := |rs| - 1;
    if y as int == rs[n].last as int + 1 {
      assert rs == rs[..n] + [rs[n]];
      ExpandGrows(rs[..n], rs[n], y);
    } else {
      ExpandAppend(rs, Range(y, y));
      assert Span(y, y) == [y];
    }
  }

  lemma RunOfOne(y: Year)
    ensures Forward([Range(y, y)]) && Expand([Range(y, y)]) == [y]
  {
    ExpandAppend([], Range(y, y));
    assert [] + [Range(y, y)] == [Range(y, y)];
    assert Span(y, y) == [y];
  }

  /** Reading the ranges back gives the list, whatever its order. */
  lemma {:induction false} RunsExpand(years: seq<Year>)
    requires years != []
    ensures Forward(Runs(years)) && Expand(Runs(years)) == years
  {
    var n := |years| - 1;
    assert years == years[..n] + [years[n]];
    if n > 0 {
      RunsExpand(years[..n]);
      AddYearExpands(Runs(years[..n]), years[n]);
    } else {
      RunOfOne(years[0]);
    }
  }

  // ----- no shorter list of ranges

  predicate Increasing(s: seq<int>) { forall i, j :: 0 <= i < j < |s| ==> s[i] < s[j] }

  predicate Covers(r: Range, y: int) { r.first <= y <= r.last }

  /** Ranges in any order that name exactly the given years. */
  ghost predicate Names(rs: seq<Range>, years: seq<int>) {
    forall y: int :: y in years <==> exists r :: r in rs && Covers(r, y)
  }

  /** The first years of the ranges are increasing, and no year precedes them. */
  predicate Starts(rs: seq<Range>, years: seq<int>) {
    && (forall i :: 0 <= i < |rs| ==> rs[i].first in years && rs[i].first - 1 !in years)
    && (forall i, j :: 0 <= i < j < |rs| ==> rs[i].first < rs[j].first)
  }

  lemma AddYearStarts(rs: seq<Range>, years: seq<int>, y: Year, last: int)
    requires rs != [] && Starts(rs, years) && rs[|rs| - 1].last == last && last < y
    requires forall z :: z in years ==> z <= last
    ensures Starts(AddYear(rs, y), years + [y])
  {
    var t, n := AddYear(rs, y), |rs|;
    forall i | 0 <= i < |t| ensures t[i].first in years + [y] && t[i].first - 1 !in years + [y] {
      if i < n {
        assert t[i].first == rs[i].first;
      }
    }
    forall i, j | 0 <= i < j < |t| ensures t[i].first < t[j].first {
      assert t[i].first == rs[i].first;
    }
  }

  lemma IncreasingPrefix(years: seq<int>, n: nat)
    requires Increasing(years) && 0 < n < |years|
    ensures Increasing(years[..n]) && years[n - 1] < years[n] && forall z :: z in years[..n] ==> z <= years[n - 1]
  {
    forall z | z in years[..n] ensures z <= years[n - 1] {
      var i :| 0 <= i < n && years[..n][i] == z;
    }
  }

  lemma {:induction false} RunsStart(years: seq<Year>)
    requires years != [] && Increasing(years)
    ensures Starts(Runs(years), years)
  {
    var n := |years| - 1;
    if n > 0 {
      var before := years[..n];
      IncreasingPrefix(years, n);
      RunsStart(before);
      AddYearStarts(Runs(before), before, years[n], years[n - 1]);
      assert years == before + [years[n]];
    } else {
      assert Runs(years) == [Range(years[0], years[0])] && years == [years[0]];
    }
  }

  lemma CoversPrevious(q: Range, y: int)
    requires Covers(q, y) && q.first < y
    ensures Covers(q, y - 1)
  {
  }

  /** A range over one start does not begin at another. */
  lemma ApartFromStart(q: Range, start: int, other: int, years: seq<int>)
    requires Covers(q, other) && other != start && other - 1 !in years
    requires forall y: int :: Covers(q, y) ==> y in years
    ensures q.first != start
  {
    if q.first < other {
      CoversPrevious(q, other);
    }
  }

  /** Each start needs a range of its own. */
  lemma {:induction false} StartsNeedRanges(starts: seq<int>, rs: seq<Range>, years: seq<int>)
    requires forall i :: 0 <= i < |starts| ==> starts[i] - 1 !in years && exists r :: r in rs && Covers(r, starts[i])
    requires forall i, j :: 0 <= i < j < |starts| ==> starts[i] != starts[j]
    requires forall r, y: int :: r in rs && Covers(r, y) ==> y in years
    ensures |starts| <= |rs|
  {
    if starts != [] {
      var n := |starts| - 1;
      var r :| r in rs && Covers(r, starts[n]);
      assert r.first == starts[n] by {
        if r.first < starts[n] {
          assert Covers(r, starts[n] - 1);
        }
      }
      var k :| 0 <= k < |rs| && rs[k] == r;
      var rest := rs[..k] + rs[k + 1..];
      forall i | 0 <= i < n ensures exists q :: q in rest && Covers(q, starts[i]) {
        var q :| q in rs && Covers(q, starts[i]);
        ApartFromStart(q, starts[n], starts[i], years);
        var l :| 0 <= l < |rs| && rs[l] == q;
        assert q == if l < k then rest[l] else rest[l - 1];
      }
      StartsNeedRanges(starts[..n], rest, years);
    }
  }

  /** The printed ranges are as few as can be: no list of ranges naming the same years is shorter. */
  lemma RunsAreFewest(years: seq<Year>, rs: seq<Range>)
    requires years != [] && Increasing(years) && Names(rs, years)
    ensures |Runs(years)| <= |rs|
  {
    RunsStart(years);
    var runs := Runs(years);
    var starts: seq<int> := seq(|runs|, i requires 0 <= i < |runs| => runs[i].first);
    StartsNeedRanges(starts, rs, years);
  }
}
