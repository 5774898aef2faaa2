/**
 The conversion stated over the bytes of the input and of the output file alone.
 */
module Uf2Bytes {
  import opened Prelude
  import opened Uf2Pages
  import opened Uf2Blocks
  import opened Uf2Convert

  /** The number that four bytes spell, least significant byte first. */
  function Number(s: seq<Byte>, at: nat): nat
    requires at + 4 <= |s|
  {
    s[at] as int + 0x100 * s[at + 1] as int + 0x1_0000 * s[at + 2] as int + 0x100_0000 * s[at + 3] as int
  }

  predicate Spells(s: seq<Byte>, at: nat, v: nat) { at + 4 <= |s| && Number(s, at) == v }

  /**
   The i-th program header entry puts the file's byte at position from at address a: its type
   at byte 0 is 1, its size in memory at byte 20 is not zero, and a lies as far behind the
   physical address at byte 12, and within the file size at byte 16, as from lies behind the
   offset at byte 4.
   */
  predicate Loads(buffer: seq<Byte>, phOffset: nat, i: nat, a: nat, from: nat) {
    var at := phOffset + 32 * i;
    && at + 32 <= |buffer| && Number(buffer, at) == 1 && Number(buffer, at + 20) != 0
    && Number(buffer, at + 12) <= a < Number(buffer, at + 12) + Number(buffer, at + 16)
    && from == Number(buffer, at + 4) + (a - Number(buffer, at + 12))
  }

  /** Every header read is what its bytes spell, and the only unreadable ones do not lie in the file. */
  lemma HeaderReads(buffer: seq<Byte>, phOffset: nat, phNum: nat, i: nat)
    requires i < phNum
    ensures var at, h := phOffset + 32 * i, Headers(buffer, phOffset, phNum)[i];
            && (h == None <==> at + 32 > |buffer|)
            && (h.Some? ==>
                  && h.value.kind == Number(buffer, at) && h.value.offset == Number(buffer, at + 4)
                  && h.value.vaddr == Number(buffer, at + 8) && h.value.paddr == Number(buffer, at + 12)
                  && h.value.filesz == Number(buffer, at + 16) && h.value.memsz == Number(buffer, at + 20))
  {
  }

  lemma LoadsIsBacks(buffer: seq<Byte>, phOffset: nat, phNum: nat, i: nat, a: nat, from: nat)
    requires i < phNum
    ensures var segs := Headers(buffer, phOffset, phNum);
            Loads(buffer, phOffset, i, a, from) <==> Backs(segs, i, a) && FileIndex(segs, i, a) == from
  {
    HeaderReads(buffer, phOffset, phNum, i);
  }

  // ----- the output file

  /** Byte o of the data of block n. */
  function DataByte(file: seq<Byte>, n: nat, o: nat): Byte
    requires 512 * n + 32 + o < |file|
  {
    file[512 * n + 32 + o]
  }

  /** Block n of a file of total blocks, as bytes: 32 of header, 476 of data, 4 of magic; target is its address. */
  ghost predicate BlockBytes(file: seq<Byte>, n: nat, total: nat, family: nat, target: nat) {
    var at := 512 * n;
    && at + 512 <= |file|
    && file[at..at + 4] == [0x55, 0x46, 0x32, 0x0A]
    && file[at + 4..at + 8] == [0x57, 0x51, 0x5D, 0x9E]
    && file[at + 8..at + 12] == [0x00, 0x20, 0x00, 0x00]
    && Spells(file, at + 12, target)
    && file[at + 16..at + 20] == [0x00, 0x01, 0x00, 0x00]
    && Spells(file, at + 20, n) && Spells(file, at + 24, total) && Spells(file, at + 28, family)
    && file[at + 508..at + 512] == [0x30, 0x6F, 0xB1, 0x0A]
  }

  lemma PackSpells(v: nat, s: seq<Byte>, at: nat)
    requires v < WORD && at + 4 <= |s| && s[at..at + 4] == Pack32(v)
    ensures Spells(s, at, v)
  {
    WordRoundTrip(v, [], []);
    assert [] + Pack32(v) + [] == Pack32(v);
    assert s[at] == Pack32(v)[0] && s[at + 1] == Pack32(v)[1] && s[at + 2] == Pack32(v)[2] && s[at + 3] == Pack32(v)[3];
  }

  lemma Constants()
    ensures Pack32(MAGIC_START0) == [0x55, 0x46, 0x32, 0x0A] && Pack32(MAGIC_START1) == [0x57, 0x51, 0x5D, 0x9E]
    ensures Pack32(FLAG_FAMILY_ID) == [0x00, 0x20, 0x00, 0x00] && Pack32(PAGE_SIZE) == [0x00, 0x01, 0x00, 0x00]
    ensures Pack32(MAGIC_END) == [0x30, 0x6F, 0xB1, 0x0A]
  {
  }

  /** Where the parts of a block stand. */
  lemma BlockParts(target: nat, no: nat, total: nat, family: nat, data: seq<Byte>)
    requires target < WORD && no < WORD && total < WORD && family < WORD && |data| == DATA_SIZE
    ensures var b := Block(target, no, total, family, data);
            && b[0..4] == Pack32(MAGIC_START0) && b[4..8] == Pack32(MAGIC_START1) && b[8..12] == Pack32(FLAG_FAMILY_ID)
            && b[12..16] == Pack32(target) && b[16..20] == Pack32(PAGE_SIZE) && b[20..24] == Pack32(no)
            && b[24..28] == Pack32(total) && b[28..32] == Pack32(family) && b[32..508] == data
            && b[508..512] == Pack32(MAGIC_END)
  {
  }

  lemma Inside(file: seq<Byte>, at: nat, b: seq<Byte>, i: nat, j: nat)
    requires at + |b| <= |file| && file[at..at + |b|] == b && i <= j <= |b|
    ensures file[at + i..at + j] == b[i..j]
  {
    forall k | 0 <= k < j - i ensures file[at + i..at + j][k] == b[i..j][k] {
      assert file[at..at + |b|][i + k] == file[at + (i + k)];
    }
  }

  /** Block n of the output: its header, the page's bytes in front of the data and zeros behind them. */
  lemma BlockSpelled(buffer: seq<Byte>, p: Pages, family: nat, file: seq<Byte>, n: nat)
    requires n < |p.order| && |file| == BLOCK_SIZE * |p.order| && BlockOk(buffer, p, family, file, n)
    ensures BlockBytes(file, n, |p.order|, family, p.order[n])
    ensures file[512 * n + 32..512 * n + 508] == Realized(buffer, FragsAt(p, p.order[n]))
  {
    var data := Realized(buffer, FragsAt(p, p.order[n]));
    var b, at := Block(p.order[n], n, |p.order|, family, data), 512 * n;
    assert file[at..at + |b|] == BlockAt(file, n) == b;
    BlockParts(p.order[n], n, |p.order|, family, data);
    Constants();
    Inside(file, at, b, 0, 4);
    Inside(file, at, b, 4, 8);
    Inside(file, at, b, 8, 12);
    Inside(file, at, b, 12, 16);
    Inside(file, at, b, 16, 20);
    Inside(file, at, b, 20, 24);
    Inside(file, at, b, 24, 28);
    Inside(file, at, b, 28, 32);
    Inside(file, at, b, 32, 508);
    Inside(file, at, b, 508, 512);
    PackSpells(p.order[n], file, at + 12);
    PackSpells(n, file, at + 20);
    PackSpells(|p.order|, file, at + 24);
    PackSpells(family, file, at + 28);
  }

  // ----- the conversion

  /** The byte for address a, if there is an entry that loads it, and zero if there is none. */
  ghost predicate Carries(buffer: seq<Byte>, phOffset: nat, phNum: nat, a: nat, b: Byte) {
    && (forall i: nat, from: nat :: i < phNum && Loads(buffer, phOffset, i, a, from) ==>
          from < |buffer| && b == buffer[from])
    && ((forall i: nat, from: nat :: i < phNum ==> !Loads(buffer, phOffset, i, a, from)) ==> b == 0)
  }

  /** Some entry loads a byte of the page. */
  ghost predicate PageLoaded(buffer: seq<Byte>, phOffset: nat, phNum: nat, page: nat) {
    exists i: nat, a: nat, from: nat :: i < phNum && Loads(buffer, phOffset, i, a, from) && page <= a < page + 256
  }

  /** The pages hold the image that the entries define. */
  ghost predicate Placed(buffer: seq<Byte>, phOffset: nat, phNum: nat, p: Pages) {
    var segs := Headers(buffer, phOffset, phNum);
    PagesOk(p) && !Overlapping(segs) && forall a: nat :: Image(p, a) == SegmentImage(segs, a)
  }

  lemma PageByteCarries(buffer: seq<Byte>, phOffset: nat, phNum: nat, p: Pages, key: nat, o: nat)
    requires Placed(buffer, phOffset, phNum, p) && key in p.frags && Extractable(buffer, p.frags[key]) && o < 256
    ensures Carries(buffer, phOffset, phNum, key + o, PageByte(buffer, p.frags[key], o))
  {
    var segs, a := Headers(buffer, phOffset, phNum), key + o;
    SamePage(key, a);
    assert Image(p, a) == SegmentImage(segs, a) == Source(p.frags[key], o);
    SegmentImageBacked(segs, a);
    if Source(p.frags[key], o).Some? {
      ExtractableSource(buffer, p.frags[key], o);
    }
    forall i: nat, from: nat | i < phNum && Loads(buffer, phOffset, i, a, from)
      ensures from < |buffer| && PageByte(buffer, p.frags[key], o) == buffer[from]
    {
      LoadsIsBacks(buffer, phOffset, phNum, i, a, from);
      SegmentImageUnique(segs, i, a);
    }
    if j :| Backs(segs, j, a) {
      LoadsIsBacks(buffer, phOffset, phNum, j, a, FileIndex(segs, j, a));
    }
  }

  lemma BeyondPageIsZero(buffer: seq<Byte>, page: seq<Fragment>, o: nat)
    requires FragsOk(page) && o >= 256
    ensures PageByte(buffer, page, o) == 0
  {
    SourceCovered(page, o);
  }

  lemma TouchedIsLoaded(buffer: seq<Byte>, phOffset: nat, phNum: nat, page: nat)
    requires page % 256 == 0
    ensures Touched(Headers(buffer, phOffset, phNum), page) <==> PageLoaded(buffer, phOffset, phNum, page)
  {
    var segs := Headers(buffer, phOffset, phNum);
    if i, a: nat :| Backs(segs, i, a) && PageOf(a) == page {
      LoadsIsBacks(buffer, phOffset, phNum, i, a, FileIndex(segs, i, a));
    }
    if i: nat, a: nat, from: nat :| i < phNum && Loads(buffer, phOffset, i, a, from) && page <= a < page + 256 {
      LoadsIsBacks(buffer, phOffset, phNum, i, a, from);
      SamePage(page, a);
    }
  }

  /** The data of block n: the bytes of the page, then zeros. */
  ghost predicate DataBytes(buffer: seq<Byte>, phOffset: nat, phNum: nat, file: seq<Byte>, n: nat, target: nat) {
    && 512 * n + 512 <= |file|
    && (forall o: nat :: o < 256 ==> Carries(buffer, phOffset, phNum, target + o, DataByte(file, n, o)))
    && (forall o: nat :: 256 <= o < 476 ==> DataByte(file, n, o) == 0)
  }

  lemma ByteOfBlock(buffer: seq<Byte>, p: Pages, family: nat, file: seq<Byte>, n: nat, o: nat)
    requires PagesOk(p) && n < |p.order| && |file| == BLOCK_SIZE * |p.order| && BlockOk(buffer, p, family, file, n)
    requires o < 476
    ensures p.order[n] in p.frags && DataByte(file, n, o) == PageByte(buffer, p.frags[p.order[n]], o)
  {
    assert p.order[n] in p.frags;
    BlockSpelled(buffer, p, family, file, n);
    assert file[512 * n + 32..512 * n + 508][o] == DataByte(file, n, o);
  }

  lemma ByteCarries(buffer: seq<Byte>, phOffset: nat, phNum: nat, p: Pages, family: nat, file: seq<Byte>,
                    n: nat, o: nat, target: nat)
    requires Placed(buffer, phOffset, phNum, p)
    requires n < |p.order| && |file| == BLOCK_SIZE * |p.order| && BlockOk(buffer, p, family, file, n)
    requires o < 476 && target == p.order[n]
    ensures o < 256 ==> Carries(buffer, phOffset, phNum, target + o, DataByte(file, n, o))
    ensures o >= 256 ==> DataByte(file, n, o) == 0
  {
    ByteOfBlock(buffer, p, family, file, n, o);
    if o < 256 {
      PageByteCarries(buffer, phOffset, phNum, p, target, o);
    } else {
      BeyondPageIsZero(buffer, p.frags[target], o);
    }
  }

  lemma BlockData(buffer: seq<Byte>, phOffset: nat, phNum: nat, p: Pages, family: nat, file: seq<Byte>, n: nat,
                  target: nat)
    requires Placed(buffer, phOffset, phNum, p)
    requires n < |p.order| && |file| == BLOCK_SIZE * |p.order| && BlockOk(buffer, p, family, file, n)
    requires target == p.order[n]
    ensures DataBytes(buffer, phOffset, phNum, file, n, target)
  {
    forall o: nat | o < 256 ensures Carries(buffer, phOffset, phNum, target + o, DataByte(file, n, o)) {
      ByteCarries(buffer, phOffset, phNum, p, family, file, n, o, target);
    }
    forall o: nat | 256 <= o < 476 ensures DataByte(file, n, o) == 0 {
      ByteCarries(buffer, phOffset, phNum, p, family, file, n, o, target);
    }
  }

  /**
   The whole output, byte by byte: one block for each page of 256 addresses that an entry
   loads something on, in some order, with the addresses' bytes and zeros.
   */
  lemma OutputBytes(buffer: seq<Byte>, phOffset: nat, phNum: nat, ranges: seq<Range>, family: nat, file: seq<Byte>)
    returns (targets: seq<nat>)
    requires Convert(buffer, phOffset, phNum, ranges, family) == Ok(file)
    ensures |file| == 512 * |targets| && |targets| > 0
    ensures forall n, m :: 0 <= n < m < |targets| ==> targets[n] != targets[m]
    ensures forall page: nat :: page in targets <==> page % 256 == 0 && PageLoaded(buffer, phOffset, phNum, page)
    ensures forall n :: 0 <= n < |targets| ==> BlockBytes(file, n, |targets|, family, targets[n])
    ensures forall n :: 0 <= n < |targets| ==> DataBytes(buffer, phOffset, phNum, file, n, targets[n])
  {
    var segs := Headers(buffer, phOffset, phNum);
    var p := ConvertedBlocks(buffer, phOffset, phNum, ranges, family, file);
    PlacedPages(segs, ranges, p);
    targets := p.order;
    forall page: nat ensures page in targets <==> page % 256 == 0 && PageLoaded(buffer, phOffset, phNum, page) {
      if page % 256 == 0 {
        TouchedIsLoaded(buffer, phOffset, phNum, page);
      }
    }
    forall n | 0 <= n < |targets|
      ensures BlockBytes(file, n, |targets|, family, targets[n])
      ensures DataBytes(buffer, phOffset, phNum, file, n, targets[n])
    {
      assert BlockOk(buffer, p, family, file, n);
      BlockSpelled(buffer, p, family, file, n);
      BlockData(buffer, phOffset, phNum, p, family, file, n, targets[n]);
    }
  }

  lemma LoadedByteDecodes(buffer: seq<Byte>, phOffset: nat, phNum: nat, ranges: seq<Range>, family: nat,
                          file: seq<Byte>, i: nat, a: nat, from: nat)
    requires Convert(buffer, phOffset, phNum, ranges, family) == Ok(file)
    requires i < phNum && Loads(buffer, phOffset, i, a, from)
    ensures from < |buffer| && Decode(file, a) == Some(buffer[from])
  {
    LoadsIsBacks(buffer, phOffset, phNum, i, a, from);
    ConvertPreservesImage(buffer, phOffset, phNum, ranges, family, file, a);
  }

  /** A byte of a loadable entry is found at its physical address, in a block that says so. */
  lemma LoadedByteArrives(buffer: seq<Byte>, phOffset: nat, phNum: nat, ranges: seq<Range>, family: nat,
                          file: seq<Byte>, i: nat, a: nat, from: nat)
    returns (n: nat, target: nat)
    requires Convert(buffer, phOffset, phNum, ranges, family) == Ok(file)
    requires i < phNum && Loads(buffer, phOffset, i, a, from)
    ensures from < |buffer| && Decode(file, a) == Some(buffer[from])
    ensures target <= a < target + 256 && BlockBytes(file, n, |file| / 512, family, target)
    ensures DataByte(file, n, a - target) == buffer[from]
  {
    LoadedByteDecodes(buffer, phOffset, phNum, ranges, family, file, i, a, from);
    n, target := BlockOfByte(buffer, phOffset, phNum, ranges, family, file, i, a, from);
    FoundInBlock(buffer, phOffset, phNum, file, n, i, a, from, target);
  }

  lemma BlockOfByte(buffer: seq<Byte>, phOffset: nat, phNum: nat, ranges: seq<Range>, family: nat,
                    file: seq<Byte>, i: nat, a: nat, from: nat)
    returns (n: nat, target: nat)
    requires Convert(buffer, phOffset, phNum, ranges, family) == Ok(file)
    requires i < phNum && Loads(buffer, phOffset, i, a, from)
    ensures target <= a < target + 256 && BlockBytes(file, n, |file| / 512, family, target)
    ensures DataBytes(buffer, phOffset, phNum, file, n, target)
  {
    var targets := OutputBytes(buffer, phOffset, phNum, ranges, family, file);
    target := a - a % 256;
    PageStart(a, target);
    assert PageLoaded(buffer, phOffset, phNum, target);
    n :| 0 <= n < |targets| && targets[n] == target;
  }

  lemma PageStart(a: nat, page: nat)
    requires page == a - a % 256
    ensures page % 256 == 0 && page <= a < page + 256
  {
  }

  lemma FoundInBlock(buffer: seq<Byte>, phOffset: nat, phNum: nat, file: seq<Byte>, n: nat, i: nat, a: nat, from: nat,
                     target: nat)
    requires DataBytes(buffer, phOffset, phNum, file, n, target) && i < phNum && Loads(buffer, phOffset, i, a, from)
    requires target <= a < target + 256
    ensures from < |buffer| && DataByte(file, n, a - target) == buffer[from]
  {
    var o := a - target;
    assert Carries(buffer, phOffset, phNum, target + o, DataByte(file, n, o));
  }
}
