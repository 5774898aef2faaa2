/** Small shared vocabulary: optional values, and the multiset of things a sequence of slots holds. */
module Prelude {

  datatype Option<+T> = None | Some(value: T)

  function AsBag<T>(o: Option<T>): multiset<T> {
    if o.Some? then multiset{o.value} else multiset{}
  }

  lemma Cancel<T>(a: multiset<T>, b: multiset<T>, c: multiset<T>)
    requires a + c == b + c
    ensures a == b
  {
    assert a == (a + c) - c;
    assert b == (b + c) - c;
  }

  /** A transfer between four heaps that balances locally balances in total. */
  lemma Transfer<T>(p: multiset<T>, h: multiset<T>, x: multiset<T>, y: multiset<T>, x': multiset<T>,
                    g: multiset<T>, f: multiset<T>, r: multiset<T>)
    requires g <= h && x' + f + r == x + g
    ensures (p + f) + (h - g + r) + x' + y == p + h + x + y
  {
    var a, b := (p + f) + (h - g + r) + x' + y, p + h + x + y;
    forall e ensures a[e] == b[e] {
      assert (x' + f + r)[e] == (x + g)[e];
    }
  }

  /** Taking m out of p and adding it to another heap. */
  lemma MoveOut<T>(p: multiset<T>, h: multiset<T>, x: multiset<T>, y: multiset<T>, m: multiset<T>)
    requires m <= p
    ensures (p - m) + (h + m) + x + y == p + h + x + y
    ensures (p - m) + h + x + (y + m) == p + h + x + y
    ensures (h + m) + (p - m) + x + y == h + p + x + y
  {
    var a, b := (p - m) + (h + m) + x + y, p + h + x + y;
    forall e ensures a[e] == b[e] {}
    var c := (p - m) + h + x + (y + m);
    forall e ensures c[e] == b[e] {}
    var d, d' := (h + m) + (p - m) + x + y, h + p + x + y;
    forall e ensures d[e] == d'[e] {}
  }

  /** Adding m to one heap or to another makes the same total. */
  lemma MoveIn<T>(p: multiset<T>, h: multiset<T>, x: multiset<T>, y: multiset<T>, m: multiset<T>)
    ensures (p + m) + h + x + y == p + h + x + (y + m)
    ensures p + (h + m) + x + y == p + h + x + (y + m)
  {
    var a, b, c := (p + m) + h + x + y, p + (h + m) + x + y, p + h + x + (y + m);
    forall e ensures a[e] == c[e] && b[e] == c[e] {}
  }

  lemma Exchange<T>(rest: multiset<T>, y': multiset<T>, y: multiset<T>, c: multiset<T>, n: multiset<T>)
    requires y' + c == y + n
    ensures (rest + y') + c == (rest + y) + n
  {
    assert (rest + y') + c == rest + (y' + c);
    assert (rest + y) + n == rest + (y + n);
  }

  /** Everything held by the slots of a table, counted with multiplicity. */
  function Gather<S, T>(slots: seq<S>, holds: S -> multiset<T>): multiset<T> {
    if slots == [] then multiset{}
    else Gather(slots[..|slots| - 1], holds) + holds(slots[|slots| - 1])
  }

  /** Overwriting one slot exchanges exactly what that slot held. */
  lemma {:induction false} GatherUpdate<S, T>(slots: seq<S>, holds: S -> multiset<T>, i: nat, s: S)
    requires i < |slots|
    ensures Gather(slots[i := s], holds) + holds(slots[i]) == Gather(slots, holds) + holds(s)
  {
    var n := |slots| - 1;
    if i == n {
      assert slots[i := s][..n] == slots[..n];
    } else {
      assert slots[i := s][..n] == slots[..n][i := s];
      GatherUpdate(slots[..n], holds, i, s);
      var rest, rest' := Gather(slots[..n], holds), Gather(slots[..n][i := s], holds);
      var last := holds(slots[n]);
      assert (rest' + last) + holds(slots[i]) == (rest' + holds(slots[i])) + last;
      assert (rest + last) + holds(s) == (rest + holds(s)) + last;
    }
  }

  lemma {:induction false} GatherMember<S, T>(slots: seq<S>, holds: S -> multiset<T>, i: nat)
    requires i < |slots|
    ensures holds(slots[i]) <= Gather(slots, holds)
  {
    if i < |slots| - 1 {
      GatherMember(slots[..|slots| - 1], holds, i);
    }
  }

  /** Something held by two different slots is counted at least twice. */
  lemma {:induction false} GatherTwice<S, T>(slots: seq<S>, holds: S -> multiset<T>, i: nat, j: nat, x: T)
    requires i < j < |slots|
    requires x in holds(slots[i]) && x in holds(slots[j])
    ensures Gather(slots, holds)[x] >= 2
  {
    var n := |slots| - 1;
    if j == n {
      GatherMember(slots[..n], holds, i);
      assert holds(slots[i]) <= Gather(slots[..n], holds);
    } else {
      GatherTwice(slots[..n], holds, i, j, x);
    }
  }

  // ----- counting

  lemma Interval(n: nat) returns (s: set<nat>)
    ensures |s| == n && forall x: nat :: x in s <==> x < n
  {
    if n == 0 {
      s := {};
    } else {
      var t := Interval(n - 1);
      s := t + {n - 1};
    }
  }

  /** Distinct numbers below n are at most n. */
  lemma {:induction false} DistinctBelow(s: seq<nat>, bound: set<nat>)
    requires forall i :: 0 <= i < |s| ==> s[i] in bound
    requires forall i, j :: 0 <= i < j < |s| ==> s[i] != s[j]
    ensures |s| <= |bound|
  {
    if s != [] {
      var n := |s| - 1;
      DistinctBelow(s[..n], bound - {s[n]});
    }
  }

  lemma {:induction false} SubsetSize<T>(s: set<T>, t: set<T>)
    requires s <= t
    ensures |s| <= |t|
  {
    if s != {} {
      var x :| x in s;
      SubsetSize(s - {x}, t - {x});
    }
  }

  /** A subset of the same size is the whole set. */
  lemma SameSizeSubset<T>(s: set<T>, t: set<T>)
    requires s <= t && |s| == |t|
    ensures s == t
  {
    if s != t {
      var x :| x in t && x !in s;
      SubsetSize(s, t - {x});
    }
  }

  ghost function Mapped<S, T>(s: set<S>, f: S -> T): set<T> { set a | a in s :: f(a) }

  /** A map without collisions keeps the size. */
  lemma {:induction false} MappedSize<S, T>(s: set<S>, f: S -> T)
    requires forall a, b | a in s && b in s && f(a) == f(b) :: a == b
    ensures |Mapped(s, f)| == |s|
  {
    if s == {} {
      assert Mapped(s, f) == {};
    } else {
      var a :| a in s;
      MappedSize(s - {a}, f);
      assert Mapped(s, f) == Mapped(s - {a}, f) + {f(a)};
    }
  }

  // ----- multiples

  lemma Multiple(d: nat, q: nat)
    requires d > 0
    ensures (d * q) % d == 0
  {
    var h, r := d * q / d, d * q % d;
    assert d * (q - h) == r;
    NoMultipleBetween(d, q - h);
  }

  lemma NoMultipleBetween(d: int, q: int)
    ensures d > 0 ==> d * q >= d || d * q <= -d || q == 0
  {
  }
}
