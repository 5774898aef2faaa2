/** Network buffers, and positions on a ring of n descriptors. */
module Ring {

  type Buf = nat

  function Succ(i: nat, n: nat): nat { if i + 1 < n then i + 1 else 0 }

  function Pred(i: nat, n: nat): int { if i > 0 then i - 1 else n - 1 }

  /** How many links lie between descriptor i and descriptor j. */
  function Rel(i: nat, j: nat, n: nat): int { if i <= j then j - i else j - i + n }

  /** The descriptor k links after i. */
  function Idx(i: nat, k: nat, n: nat): int { if i + k < n then i + k else i + k - n }
}
