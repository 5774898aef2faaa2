/** How elf2uf2 resolves a target name to a UF2 family: the first table entry that is a prefix of it. */
module Uf2Families {
  import opened Prelude

  /** The keys of the family table, in table order. */
  const FAMILIES: seq<string> := [
    "rp2040", "samd21", "samd51", "same5", "saml21", "stm32f0", "stm32f1", "stm32f2", "stm32f3",
    "stm32f407vg", "stm32f407", "stm32f4", "stm32f7", "stm32g0", "stm32g4", "stm32h7", "stm32l0",
    "stm32l1", "stm32l4", "stm32l5", "stm32wb", "stm32wl"]

  function FirstMatch(names: seq<string>, target: string): Option<string> {
    if names == [] then None
    else if names[0] <= target then Some(names[0])
    else FirstMatch(names[1..], target)
  }

  /** check_target with the keys of a family table; None stands for the exception. */
  method CheckTarget(names: seq<string>, target: string) returns (r: Option<string>)
    ensures r == FirstMatch(names, target)
  {
    var i := 0;
    while i < |names|
      invariant i <= |names| && FirstMatch(names, target) == FirstMatch(names[i..], target)
    {
      if names[i] <= target {
        return Some(names[i]);
      }
      i := i + 1;
    }
    r := None;
  }

  /** The chosen entry matches and no matching entry is longer. */
  ghost predicate LongestMatch(names: seq<string>, target: string) {
    match FirstMatch(names, target)
    case None => forall e :: e in names ==> !(e <= target)
    case Some(f) => f in names && f <= target && forall e :: e in names && e <= target ==> |e| <= |f|
  }

  /** No entry is a proper prefix of a later one. */
  ghost predicate WellOrdered(names: seq<string>) {
    forall i, j :: 0 <= i < j < |names| ==> !(names[i] < names[j])
  }

  lemma PrefixesNest(a: string, b: string, t: string)
    requires a <= t && b <= t && |a| < |b|
    ensures a < b
  {
    assert a == t[..|a|] && b == t[..|b|];
  }

  lemma {:induction false} WellOrderedIsEnough(names: seq<string>, target: string)
    requires WellOrdered(names)
    ensures LongestMatch(names, target)
  {
    if names != [] {
      var rest := names[1..];
      assert names == [names[0]] + rest;
      if names[0] <= target {
        forall e | e in names && e <= target ensures |e| <= |names[0]| {
          if |names[0]| < |e| {
            PrefixesNest(names[0], e, target);
          }
        }
      } else {
        WellOrderedIsEnough(rest, target);
      }
    }
  }

  lemma {:induction false} FirstMatchIsEarliest(names: seq<string>, target: string, i: nat)
    requires i < |names| && names[i] <= target
    ensures exists k :: 0 <= k <= i && FirstMatch(names, target) == Some(names[k]) && names[k] <= target
  {
    if !(names[0] <= target) {
      FirstMatchIsEarliest(names[1..], target, i - 1);
      var k :| 0 <= k <= i - 1 && FirstMatch(names[1..], target) == Some(names[1..][k]) && names[1..][k] <= target;
      assert names[k + 1] == names[1..][k];
    }
  }

  /** Dictionary keys are pairwise different. */
  ghost predicate Distinct(names: seq<string>) {
    forall i, j :: 0 <= i < j < |names| ==> names[i] != names[j]
  }

  lemma ProperPrefixIsShorter(a: string, t: string)
    requires a <= t && a != t
    ensures |a| < |t|
  {
    assert a == t[..|a|];
  }

  /** An entry before one of its extensions hides that extension. */
  lemma ShorterHides(names: seq<string>, i: nat, j: nat)
    requires Distinct(names) && i < j < |names| && names[i] < names[j]
    ensures !LongestMatch(names, names[j])
  {
    var target := names[j];
    FirstMatchIsEarliest(names, target, i);
    var k :| 0 <= k <= i && FirstMatch(names, target) == Some(names[k]) && names[k] <= target;
    ProperPrefixIsShorter(names[k], target);
    assert names[j] in names;
  }

  /** For any table: the first match is the longest for every target exactly when the table is well ordered. */
  lemma FirstIsLongestIffWellOrdered(names: seq<string>)
    requires Distinct(names)
    ensures (forall target :: LongestMatch(names, target)) <==> WellOrdered(names)
  {
    if WellOrdered(names) {
      forall target ensures LongestMatch(names, target) {
        WellOrderedIsEnough(names, target);
      }
    } else {
      var i, j :| 0 <= i < j < |names| && names[i] < names[j];
      ShorterHides(names, i, j);
    }
  }

  /** The lengths of the entries, and the characters that tell apart a shorter entry and a later longer one. */
  lemma FamilyShapes(i: nat)
    requires i < |FAMILIES|
    ensures |FAMILIES| == 22
    ensures |FAMILIES[i]| == if i == 3 then 5 else if i < 5 then 6 else if i == 9 then 11 else if i == 10 then 9 else 7
    ensures i < 5 ==> FAMILIES[i][1] != 't'
    ensures i >= 5 ==> FAMILIES[i][1] == 't'
    ensures 5 <= i < 9 ==> FAMILIES[i][6] != '4'
    ensures 9 <= i < 11 ==> FAMILIES[i][6] == '4'
    ensures i == 3 ==> FAMILIES[i][3] == 'e'
    ensures i == 4 ==> FAMILIES[i][3] == 'l'
  {
  }

  /** Table order puts the three entries that extend each other in the right order; no others do. */
  lemma FamiliesWellOrdered()
    ensures WellOrdered(FAMILIES)
  {
    forall i, j | 0 <= i < j < |FAMILIES| ensures !(FAMILIES[i] < FAMILIES[j]) {
      FamilyShapes(i);
      FamilyShapes(j);
    }
  }

  /** So every target gets its most specific family. */
  lemma TargetsGetLongestFamily(target: string)
    ensures LongestMatch(FAMILIES, target)
  {
    FamiliesWellOrdered();
    WellOrderedIsEnough(FAMILIES, target);
  }
}
