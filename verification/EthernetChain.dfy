/**
 A singly linked list to whose tail buffers are appended, some perhaps more than once: each
 appended buffer first gets a null link and then becomes the link of the one appended before.
 */
module EthernetChain {
  import opened Prelude
  import opened Ring

  predicate Distinct(s: seq<Buf>) { forall i, j :: 0 <= i < j < |s| ==> s[i] != s[j] }

  /** The link of b after the buffers of chain were appended in this order. */
  function NextIn(chain: seq<Buf>, b: Buf): Option<Buf> {
    if chain == [] then None
    else
      var n := |chain| - 1;
      if n > 0 && b == chain[n - 1] then Some(chain[n]) else if b == chain[n] then None else NextIn(chain[..n], b)
  }

  function IndexOf(s: seq<Buf>, b: Buf): (i: nat)
    requires b in s
    ensures i < |s| && s[i] == b
  {
    if s[0] == b then 0 else 1 + IndexOf(s[1..], b)
  }

  /** The buffers on the list in its order: appending one again cuts the list back to it. */
  function OnList(chain: seq<Buf>): (l: seq<Buf>)
    ensures Distinct(l) && (l == [] <==> chain == [])
    ensures chain != [] ==> l[0] == chain[0] && l[|l| - 1] == chain[|chain| - 1]
    ensures forall b :: b in l ==> b in chain
  {
    if chain == [] then []
    else
      var n := |chain| - 1;
      assert chain == chain[..n] + [chain[n]];
      var l := OnList(chain[..n]);
      if chain[n] in l then l[..IndexOf(l, chain[n]) + 1] else l + [chain[n]]
  }

  /** The two buffers appended last are the same: the last link then leads to itself. */
  predicate Circular(chain: seq<Buf>) { |chain| >= 2 && chain[|chain| - 2] == chain[|chain| - 1] }

  /** From each buffer on the list its link leads to the next one, and from the last one nowhere or to itself. */
  ghost predicate Follows(chain: seq<Buf>) {
    var l := OnList(chain);
    && (forall i :: 0 <= i < |l| - 1 ==> NextIn(chain, l[i]) == Some(l[i + 1]))
    && (l != [] ==> NextIn(chain, l[|l| - 1]) == if Circular(chain) then Some(l[|l| - 1]) else None)
  }

  lemma AppendNew(chain: seq<Buf>, front: seq<Buf>, c: Buf)
    requires chain == front + [c] && Follows(front) && c !in OnList(front)
    ensures Follows(chain)
  {
    assert chain[..|front|] == front;
  }

  lemma AppendAgain(chain: seq<Buf>, front: seq<Buf>, c: Buf)
    requires chain == front + [c] && Follows(front) && c in OnList(front)
    ensures Follows(chain)
  {
    assert chain[..|front|] == front;
  }

  lemma {:induction false} ChainFollows(chain: seq<Buf>)
    ensures Follows(chain)
  {
    if chain != [] {
      var front, c := chain[..|chain| - 1], chain[|chain| - 1];
      assert chain == front + [c];
      ChainFollows(front);
      if c in OnList(front) {
        AppendAgain(chain, front, c);
      } else {
        AppendNew(chain, front, c);
      }
    }
  }

  lemma {:induction false} DistinctIsWhole(chain: seq<Buf>)
    requires Distinct(chain)
    ensures OnList(chain) == chain
  {
    if chain != [] {
      var front, c := chain[..|chain| - 1], chain[|chain| - 1];
      assert Distinct(front) && c !in front && chain == front + [c];
      DistinctIsWhole(front);
    }
  }

  /** All appended buffers are on the list, in their order, exactly when they are distinct. */
  lemma WholeIffDistinct(chain: seq<Buf>)
    ensures OnList(chain) == chain <==> Distinct(chain)
  {
    if Distinct(chain) {
      DistinctIsWhole(chain);
    }
  }

  // ----- walking the list

  /** Where a walk stands after k links, None when it has ended. */
  function Where(chain: seq<Buf>, k: nat): Option<Buf> {
    var l := OnList(chain);
    if k < |l| then Some(l[k]) else if Circular(chain) then Some(l[|l| - 1]) else None
  }

  /** The buffers a walk has left behind after k links. */
  function Walk(chain: seq<Buf>, k: nat): seq<Buf> {
    var l := OnList(chain);
    if k <= |l| then l[..k]
    else if Circular(chain) then l + seq(k - |l|, _ => l[|l| - 1])
    else l
  }

  lemma WalkOn(chain: seq<Buf>, k: nat)
    requires Where(chain, k).Some?
    ensures Where(chain, k).value in chain
    ensures Walk(chain, k + 1) == Walk(chain, k) + [Where(chain, k).value]
    ensures NextIn(chain, Where(chain, k).value) == Where(chain, k + 1)
  {
    ChainFollows(chain);
  }

  /** A walk ends after some number of links exactly when the two buffers appended last differ. */
  lemma WalkEnds(chain: seq<Buf>)
    ensures (exists k: nat :: Where(chain, k).None?) <==> !Circular(chain)
    ensures !Circular(chain) ==> forall k: nat :: Where(chain, k).None? <==> |OnList(chain)| <= k
    ensures forall k: nat :: Where(chain, k).None? ==> Walk(chain, k) == OnList(chain)
  {
    if !Circular(chain) {
      assert Where(chain, |OnList(chain)|).None?;
    }
  }
}
