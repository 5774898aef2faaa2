/**
 The in-place firmware update of the USB mass-storage example: the new image is staged in
 the upper half of the flash, then the lower pages are erased and reprogrammed from it.
 Addresses are offsets from the flash origin; address 0 is an alias of the origin.
 */
module Firmware {
  import opened Prelude

  type Byte = b: int | 0 <= b < 0x100

  /** 32-bit words of the checksum. */
  type Word = x: nat | x < 0x1_0000_0000

  const ERASED: Byte := 0xFF

  /** Page starts in ascending order; word is the size of Flash::MaxWordType. */
  datatype Geometry = Geometry(starts: seq<nat>, size: nat, word: nat)

  function Half(g: Geometry): nat { g.size / 2 }

  ghost predicate WellFormed(g: Geometry) {
    && g.word > 0 && 0 < |g.starts| <= 256 && g.starts[0] == 0
    && (forall p, q :: 0 <= p < q < |g.starts| ==> g.starts[p] < g.starts[q])
    && (forall p :: 0 <= p < |g.starts| ==> g.starts[p] < g.size && Aligned(g, g.starts[p]))
    && g.size % 2 == 0 && Aligned(g, g.size)
    && Half(g) in g.starts
  }

  predicate Aligned(g: Geometry, a: nat) { g.word > 0 && a % g.word == 0 }

  /** End of page p. */
  function PageEnd(g: Geometry, p: nat): nat
    requires p < |g.starts|
  {
    if p + 1 < |g.starts| then g.starts[p + 1] else g.size
  }

  /** Flash::getPage: the last page that starts at or before a. */
  function PageFrom(g: Geometry, a: nat, p: nat): (q: nat)
    requires p < |g.starts|
    ensures q <= p
  {
    if p == 0 || g.starts[p] <= a then p else PageFrom(g, a, p - 1)
  }

  function GetPage(g: Geometry, a: nat): (p: nat)
    requires |g.starts| > 0
    ensures p < |g.starts|
  {
    PageFrom(g, a, |g.starts| - 1)
  }

  lemma {:induction false} PageFromHolds(g: Geometry, a: nat, p: nat)
    requires WellFormed(g) && p < |g.starts| && a < PageEnd(g, p)
    ensures var q := PageFrom(g, a, p); q <= p && g.starts[q] <= a < PageEnd(g, q)
  {
    if !(p == 0 || g.starts[p] <= a) {
      PageFromHolds(g, a, p - 1);
    }
  }

  /** The page of an address contains it. */
  lemma PageHolds(g: Geometry, a: nat)
    requires WellFormed(g) && a < g.size
    ensures GetPage(g, a) < |g.starts| && g.starts[GetPage(g, a)] <= a < PageEnd(g, GetPage(g, a))
  {
    PageFromHolds(g, a, |g.starts| - 1);
  }

  lemma PageEndsBefore(g: Geometry, p: nat, q: nat)
    requires WellFormed(g) && p < q < |g.starts|
    ensures PageEnd(g, p) <= g.starts[q]
  {
  }

  lemma StartsMonotone(g: Geometry, p: nat, q: nat)
    requires WellFormed(g) && p <= q < |g.starts|
    ensures g.starts[p] <= g.starts[q]
  {
  }

  /** Pages in address order. */
  lemma PagesMonotone(g: Geometry, a: nat, b: nat)
    requires WellFormed(g) && a <= b < g.size
    ensures GetPage(g, a) <= GetPage(g, b)
  {
    PageHolds(g, a);
    PageHolds(g, b);
    if GetPage(g, b) < GetPage(g, a) {
      PageEndsBefore(g, GetPage(g, b), GetPage(g, a));
    }
  }

  /** Erasing from page 0 up to the page of n spares the staged image exactly when n lies in the lower half. */
  lemma EraseSparesImageIff(g: Geometry, n: nat)
    requires WellFormed(g) && n < g.size
    ensures PageEnd(g, GetPage(g, n)) <= Half(g) <==> n < Half(g)
  {
    PageHolds(g, n);
    var h :| 0 <= h < |g.starts| && g.starts[h] == Half(g);
    var p := GetPage(g, n);
    if n < Half(g) {
      if h <= p { StartsMonotone(g, h, p); }
      PageEndsBefore(g, p, h);
    }
  }

  /** A word that starts before an aligned bound ends before it too. */
  lemma WordFits(g: Geometry, a: nat, bound: nat)
    requires Aligned(g, a) && Aligned(g, bound) && a < bound
    ensures a + g.word <= bound
  {
    var i, j := a / g.word, bound / g.word;
    assert a == g.word * i && bound == g.word * j;
    assert g.word * (j - i) == bound - a;
    NoMultipleBetween(g.word, j - i);
  }

  lemma AlignedNext(g: Geometry, a: nat)
    requires Aligned(g, a)
    ensures Aligned(g, a + g.word)
  {
    var i := a / g.word;
    assert a + g.word == g.word * i + g.word == g.word * (i + 1);
    Multiple(g.word, i + 1);
  }

  // ----- the flash

  /** The bits that two numbers of n bits have in common. */
  function Common(n: nat, a: nat, b: nat): (c: nat)
    ensures c <= b
  {
    if n == 0 then 0 else 2 * Common(n - 1, a / 2, b / 2) + if a % 2 == 1 && b % 2 == 1 then 1 else 0
  }

  /** What programming data over old contents leaves: bits only go from one to zero. */
  function Programmed(old': Byte, data: Byte): Byte { Common(8, old', data) }

  function Ones(n: nat): nat { if n == 0 then 0 else 2 * Ones(n - 1) + 1 }

  lemma {:induction false} CommonWithOnes(n: nat, b: nat)
    requires b <= Ones(n)
    ensures Common(n, Ones(n), b) == b
  {
    if n > 0 {
      CommonWithOnes(n - 1, b / 2);
    }
  }

  lemma ProgramErased(data: Byte)
    ensures Programmed(ERASED, data) == data
  {
    assert Ones(8) == 0xFF;
    CommonWithOnes(8, data);
  }

  class Flash {
    const g: Geometry
    const mem: array<Byte>
    ghost var blind: nat  // words programmed so far over bytes that were not erased

    ghost predicate Valid()
      reads this, mem
    {
      WellFormed(g) && mem.Length == g.size
    }

    constructor (g: Geometry)
      requires WellFormed(g)
      ensures this.g == g && Valid() && blind == 0 && fresh(mem)
    {
      this.g := g;
      mem := new Byte[g.size];
      blind := 0;
    }

    method Erase(page: nat)
      requires Valid() && page < |g.starts|
      modifies mem
      ensures Valid()
      ensures forall i :: 0 <= i < g.size ==>
                mem[i] == if g.starts[page] <= i < PageEnd(g, page) then ERASED else old(mem[i])
    {
      var a, end := g.starts[page], PageEnd(g, page);
      var i := a;
      while i < end
        invariant a <= i <= end
        invariant forall j :: 0 <= j < g.size ==> mem[j] == if a <= j < i then ERASED else old(mem[j])
      {
        mem[i] := ERASED;
        i := i + 1;
      }
    }

    method Program(addr: nat, data: seq<Byte>)
      requires Valid() && |data| == g.word && addr + g.word <= g.size
      modifies mem, `blind
      ensures Valid()
      ensures forall i :: 0 <= i < g.size ==>
                mem[i] == if addr <= i < addr + g.word then Programmed(old(mem[i]), data[i - addr]) else old(mem[i])
      ensures blind == old(blind) + (if AllErased(old(mem[..]), addr, g.word) then 0 else 1)
    {
      if !AllErased(mem[..], addr, g.word) {
        blind := blind + 1;
      }
      var k := 0;
      while k < g.word
        modifies mem
        invariant k <= g.word
        invariant forall i :: 0 <= i < g.size ==>
                    mem[i] == if addr <= i < addr + k then Programmed(old(mem[i]), data[i - addr]) else old(mem[i])
      {
        mem[addr + k] := Programmed(mem[addr + k], data[k]);
        k := k + 1;
      }
    }

    /** Erases the pages of two addresses and all pages between them. */
    method EraseRange(first: nat, last: nat)
      requires Valid() && first <= last < |g.starts|
      modifies mem
      ensures Valid()
      ensures forall i :: 0 <= i < g.size ==>
                mem[i] == if g.starts[first] <= i < PageEnd(g, last) then ERASED else old(mem[i])
    {
      var page := first;
      while page <= last
        invariant first <= page <= last + 1 && Valid()
        invariant forall i :: 0 <= i < g.size ==>
                    mem[i] == if g.starts[first] <= i < Reached(g, page) then ERASED else old(mem[i])
      {
        StartsMonotone(g, first, page);
        Erase(page);
        page := page + 1;
      }
    }

    /** f_read of one word into an uninitialised buffer: past the end of the file its bytes are arbitrary. */
    method ReadWord(file: seq<Byte>, offset: nat) returns (w: seq<Byte>)
      requires Valid()
      ensures |w| == g.word
      ensures forall k :: 0 <= k < g.word && offset + k < |file| ==> w[k] == file[offset + k]
    {
      w := [];
      while |w| < g.word
        invariant |w| <= g.word
        invariant forall k :: 0 <= k < |w| && offset + k < |file| ==> w[k] == file[offset + k]
      {
        var b: Byte;
        if offset + |w| < |file| {
          b := file[offset + |w|];
        } else {
          b := *;
        }
        w := w + [b];
      }
    }

    /** The word loop of the staging part; `end` bounds the erased pages. */
    method ProgramFile(file: seq<Byte>, base: nat, ghost end: nat)
      requires Valid() && Aligned(g, base) && Aligned(g, end) && base + |file| < end <= g.size
      requires forall i :: base <= i < end ==> mem[i] == ERASED
      modifies mem, `blind
      ensures Valid() && blind == old(blind)
      ensures forall i :: 0 <= i < |file| ==> mem[base + i] == file[i]
      ensures forall i :: 0 <= i < base ==> mem[i] == old(mem[i])
    {
      var dst, offset := base, 0;
      while offset < |file|
        modifies mem, `blind
        invariant dst == base + offset && Aligned(g, dst) && dst <= end && blind == old(blind)
        invariant forall i :: 0 <= i < base ==> mem[i] == old(mem[i])
        invariant forall i :: 0 <= i < offset && i < |file| ==> mem[base + i] == file[i]
        invariant forall i :: dst <= i < end ==> mem[i] == ERASED
        decreases |file| - offset
      {
        WordFits(g, dst, end);
        var buffer := ReadWord(file, offset);
        Program(dst, buffer);
        forall i | dst <= i < dst + g.word ensures mem[i] == buffer[i - dst] {
          ProgramErased(buffer[i - dst]);
        }
        AlignedNext(g, dst);
        offset, dst := offset + g.word, dst + g.word;
      }
    }

    /** The staging part of check_for_update: the file lands at the middle of the flash, the lower half is untouched. */
    method Stage(file: seq<Byte>)
      requires Valid() && |file| < g.size / 2
      modifies mem, `blind
      ensures Valid() && blind == old(blind)
      ensures forall i :: 0 <= i < |file| ==> mem[g.size / 2 + i] == file[i]
      ensures forall i :: 0 <= i < g.size / 2 ==> mem[i] == old(mem[i])
    {
      var base := g.size / 2;
      var last := GetPage(g, base + |file|);
      HalfStartsPage(g);
      PagesMonotone(g, base, base + |file|);
      PageHolds(g, base + |file|);
      PageEndAligned(g, last);
      EraseRange(GetPage(g, base), last);
      ProgramFile(file, base, PageEnd(g, last));
    }

    /** ram_apply: the staged image replaces the running one; no word is programmed over anything but erased flash. */
    method RamApply(pages: nat, image: nat, length: nat)
      requires Valid() && image == Half(g) && length < Half(g) && pages == GetPage(g, length)
      modifies mem, `blind
      ensures Valid() && blind == old(blind)
      ensures forall i :: 0 <= i < length ==> mem[i] == old(mem[image + i])
      ensures forall i :: image <= i < g.size ==> mem[i] == old(mem[i])
    {
      PageHolds(g, length);
      EraseSparesImageIff(g, length);
      PageEndAligned(g, pages);
      EraseRange(0, pages);
      HalfStartsPage(g);
      AlignedZero(g);
      var ptr := 0;
      while ptr < length
        modifies mem, `blind
        invariant Aligned(g, ptr) && ptr <= PageEnd(g, pages) && blind == old(blind)
        invariant forall i :: image <= i < g.size ==> mem[i] == old(mem[i])
        invariant forall i :: 0 <= i < ptr ==> mem[i] == old(mem[image + i])
        invariant forall i :: ptr <= i < PageEnd(g, pages) ==> mem[i] == ERASED
        decreases length - ptr
      {
        WordFits(g, ptr, PageEnd(g, pages));
        var word := mem[image + ptr..image + ptr + g.word];
        Program(ptr, word);
        forall i | ptr <= i < ptr + g.word ensures mem[i] == word[i - ptr] {
          ProgramErased(word[i - ptr]);
        }
        AlignedNext(g, ptr);
        ptr := ptr + g.word;
      }
    }

    /** check_for_update on a valid file: afterwards the running image is the file. */
    method CheckForUpdate(file: seq<Byte>, crcUpdate: (Word, Byte) -> Word, crcInit: Word) returns (updated: bool)
      requires Valid() && 8 <= |file| < Half(g)
      modifies mem, `blind
      ensures Valid() && blind == old(blind)
      ensures updated <==>
                var n, c := |file|, Crc(file[..|file| - 4], crcUpdate, crcInit);
                && file[n - 8..n - 4] == [0x46, 0x34, 0x32, 0x39]
                && Spells(0xFFFF_FFFF - c, file[n - 4], file[n - 3], file[n - 2], file[n - 1])
      ensures updated ==> forall i :: 0 <= i < |file| ==> mem[i] == file[i]
      ensures !updated ==> forall i :: 0 <= i < g.size ==> mem[i] == old(mem[i])
    {
      updated := IsValid(file, crcUpdate, crcInit);
      if updated {
        Stage(file);
        RamApply(GetPage(g, |file|), g.size / 2, |file|);
      }
    }
  }

  ghost predicate AllErased(m: seq<Byte>, addr: nat, n: nat)
    requires addr + n <= |m|
  {
    forall i :: addr <= i < addr + n ==> m[i] == ERASED
  }

  lemma HalfStartsPage(g: Geometry)
    requires WellFormed(g)
    ensures g.starts[GetPage(g, Half(g))] == Half(g) && Aligned(g, Half(g)) && Half(g) < g.size
  {
    var h :| 0 <= h < |g.starts| && g.starts[h] == Half(g);
    var p := GetPage(g, Half(g));
    PageHolds(g, Half(g));
    if p < h { PageEndsBefore(g, p, h); }
  }

  lemma PageEndAligned(g: Geometry, p: nat)
    requires WellFormed(g) && p < |g.starts|
    ensures Aligned(g, PageEnd(g, p)) && PageEnd(g, p) <= g.size
  {
  }

  lemma AlignedZero(g: Geometry)
    requires g.word > 0
    ensures Aligned(g, 0)
  {
  }

  // ----- the sanity check

  function Crc(data: seq<Byte>, update: (Word, Byte) -> Word, init: Word): Word {
    if data == [] then init else update(Crc(data[..|data| - 1], update, init), data[|data| - 1])
  }

  /** The checksum starts with the initial value and takes up one byte after the other. */
  lemma CrcFolds(data: seq<Byte>, b: Byte, update: (Word, Byte) -> Word, init: Word)
    ensures Crc([], update, init) == init
    ensures Crc(data + [b], update, init) == update(Crc(data, update, init), b)
  {
    assert (data + [b])[..|data|] == data;
  }

  /** The four bytes after the checksummed part, most significant first, as modm::swap delivers them. */
  function FileCrc(bytes: seq<Byte>): nat
    requires |bytes| == 4
  {
    0x100_0000 * (bytes[0] as nat) + 0x1_0000 * (bytes[1] as nat) + 0x100 * (bytes[2] as nat) + bytes[3] as nat
  }

  /** The bytes of a word, from the most significant one on. */
  predicate Spells(c: nat, b3: Byte, b2: Byte, b1: Byte, b0: Byte) {
    b3 as int == c / 0x100_0000 && b2 == c / 0x1_0000 % 0x100 && b1 == c / 0x100 % 0x100 && b0 == c % 0x100
  }

  lemma DigitsOf(c: nat, d3: nat, d2: nat, d1: nat, d0: nat)
    requires d3 < 0x100 && d2 < 0x100 && d1 < 0x100 && d0 < 0x100
    ensures c == 0x100_0000 * d3 + 0x1_0000 * d2 + 0x100 * d1 + d0 <==>
              d3 == c / 0x100_0000 && d2 == c / 0x1_0000 % 0x100 && d1 == c / 0x100 % 0x100 && d0 == c % 0x100
  {
    assert c / 0x1_0000 == 0x100 * (c / 0x100_0000) + c / 0x1_0000 % 0x100;
    assert c / 0x100 == 0x100 * (c / 0x1_0000) + c / 0x100 % 0x100;
    assert c == 0x100 * (c / 0x100) + c % 0x100;
  }

  lemma CrcSpelled(c: nat, t: seq<Byte>)
    requires |t| == 4
    ensures FileCrc(t) == c <==> Spells(c, t[0], t[1], t[2], t[3])
  {
    DigitsOf(c, t[0], t[1], t[2], t[3]);
  }

  const PROCESSOR: seq<Byte> := [0x46, 0x34, 0x32, 0x39]  // "F429"

  /** The file ends in the processor type and the inverted checksum of everything before the checksum. */
  predicate Genuine(file: seq<Byte>, update: (Word, Byte) -> Word, init: Word)
    requires |file| >= 8
  {
    var n := |file|;
    file[n - 8..n - 4] == PROCESSOR && 0xFFFF_FFFF - Crc(file[..n - 4], update, init) == FileCrc(file[n - 4..])
  }

  /**
   Of all files with the same bytes before the checksum exactly one is genuine if those end
   in the processor type, and none otherwise: that with the complement of the checksum of
   these bytes, most significant byte first.
   */
  lemma TrailerExactly(body: seq<Byte>, t: seq<Byte>, update: (Word, Byte) -> Word, init: Word)
    requires |body| >= 4 && |t| == 4
    ensures Genuine(body + t, update, init) <==>
              var n := |body|;
              && body[n - 4] == 0x46 && body[n - 3] == 0x34 && body[n - 2] == 0x32 && body[n - 1] == 0x39
              && Spells(0xFFFF_FFFF - Crc(body, update, init), t[0], t[1], t[2], t[3])
  {
    var file, n := body + t, |body|;
    assert file[..n] == body && file[n..] == t;
    assert file[n - 4..n] == [body[n - 4], body[n - 3], body[n - 2], body[n - 1]];
    CrcSpelled(0xFFFF_FFFF - Crc(body, update, init), t);
  }

  lemma SameTrailer(c: nat, u: seq<Byte>, t: seq<Byte>)
    requires |u| == |t| == 4 && Spells(c, u[0], u[1], u[2], u[3]) && Spells(c, t[0], t[1], t[2], t[3])
    ensures u == t
  {
    assert u == [u[0], u[1], u[2], u[3]] && t == [t[0], t[1], t[2], t[3]];
  }

  lemma EndsInProcessor(body: seq<Byte>)
    requires |body| >= 4
    ensures var n := |body|;
            body[n - 4..] == [0x46, 0x34, 0x32, 0x39] <==>
              body[n - 4] == 0x46 && body[n - 3] == 0x34 && body[n - 2] == 0x32 && body[n - 1] == 0x39
  {
    var n := |body|;
    assert body[n - 4..] == [body[n - 4], body[n - 3], body[n - 2], body[n - 1]];
  }

  /** Behind a body that ends in the processor type exactly one trailer is accepted, and none behind another. */
  lemma OneTrailer(body: seq<Byte>, update: (Word, Byte) -> Word, init: Word) returns (t: seq<Byte>)
    requires |body| >= 4
    ensures |t| == 4 && (Genuine(body + t, update, init) <==> body[|body| - 4..] == [0x46, 0x34, 0x32, 0x39])
    ensures forall u: seq<Byte> :: |u| == 4 && Genuine(body + u, update, init) ==> u == t
  {
    var c := 0xFFFF_FFFF - Crc(body, update, init);
    t := [c / 0x100_0000, c / 0x1_0000 % 0x100, c / 0x100 % 0x100, c % 0x100];
    TrailerExactly(body, t, update, init);
    EndsInProcessor(body);
    forall u: seq<Byte> | |u| == 4 && Genuine(body + u, update, init) ensures u == t {
      TrailerExactly(body, u, update, init);
      SameTrailer(c, u, t);
    }
  }

  /** The loop that reads the file byte by byte. */
  method ComputeCrc(data: seq<Byte>, update: (Word, Byte) -> Word, init: Word) returns (crc: Word)
    ensures crc == Crc(data, update, init)
  {
    var offset := 0;
    crc := init;
    while offset < |data|
      invariant offset <= |data| && crc == Crc(data[..offset], update, init)
    {
      assert data[..offset + 1][..offset] == data[..offset];
      crc := update(crc, data[offset]);
      offset := offset + 1;
    }
    assert data[..offset] == data;
  }

  method IsValid(file: seq<Byte>, update: (Word, Byte) -> Word, init: Word) returns (valid: bool)
    requires |file| >= 8
    ensures valid <==>
              var n, c := |file|, Crc(file[..|file| - 4], update, init);
              && file[n - 8..n - 4] == [0x46, 0x34, 0x32, 0x39]
              && Spells(0xFFFF_FFFF - c, file[n - 4], file[n - 3], file[n - 2], file[n - 1])
    ensures valid <==> Genuine(file, update, init)
  {
    var n := |file|;
    if file[n - 8..n - 4] != PROCESSOR {
      return false;
    }
    var fileCrc := FileCrc(file[n - 4..]);
    var crc := ComputeCrc(file[..n - 4], update, init);
    CrcSpelled(0xFFFF_FFFF - crc, file[n - 4..]);
    valid := 0xFFFF_FFFF - crc == fileCrc;
  }

  function Reached(g: Geometry, page: nat): nat
    requires page <= |g.starts|
  {
    if page < |g.starts| then g.starts[page] else g.size
  }
}
