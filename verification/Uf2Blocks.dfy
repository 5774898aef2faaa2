/**
 How elf2uf2 turns pages into UF2 blocks, and an independent reading of such a file by
 the rules of the Microsoft UF2 specification ("File format").
 */
module Uf2Blocks {
  import opened Prelude
  import opened Uf2Pages

  type Byte = b: int | 0 <= b < 256

  const DATA_SIZE: nat := 476
  const BLOCK_SIZE: nat := 512
  const MAGIC_START0: nat := 0x0A324655  // the bytes 'U' 'F' '2' '\n'
  const MAGIC_START1: nat := 0x9E5D5157
  const MAGIC_END: nat := 0x0AB16F30
  const FLAG_FAMILY_ID: nat := 0x2000
  const WORD: nat := 0x1_0000_0000

  // ----- little-endian words

  function Pack32(v: nat): (s: seq<Byte>)
    requires v < WORD
    ensures |s| == 4
  {
    [v % 256, v / 256 % 256, v / 65536 % 256, v / 16777216]
  }

  function Word32(s: seq<Byte>, at: nat): nat
    requires at + 4 <= |s|
  {
    s[at] as int + 256 * s[at + 1] as int + 65536 * s[at + 2] as int + 16777216 * s[at + 3] as int
  }

  lemma WordRoundTrip(v: nat, before: seq<Byte>, after: seq<Byte>)
    requires v < WORD
    ensures Word32(before + Pack32(v) + after, |before|) == v
  {
    var s := before + Pack32(v) + after;
    assert s[|before|] == v % 256;
    assert s[|before| + 1] == v / 256 % 256;
    assert s[|before| + 2] == v / 65536 % 256;
    assert s[|before| + 3] == v / 16777216;
    assert v / 256 == v / 256 % 256 + 256 * (v / 65536);
    assert v / 65536 == v / 65536 % 256 + 256 * (v / 16777216);
  }

  // ----- program headers

  /** One 32-byte program header entry; None if it does not lie in the file. */
  function Header(buffer: seq<Byte>, at: nat): Option<Segment> {
    if at + 32 > |buffer| then None
    else Some(Segment(Word32(buffer, at), Word32(buffer, at + 4), Word32(buffer, at + 8),
                      Word32(buffer, at + 12), Word32(buffer, at + 16), Word32(buffer, at + 20)))
  }

  function Headers(buffer: seq<Byte>, phOffset: nat, phNum: nat): seq<Option<Segment>> {
    seq(phNum, i requires i >= 0 => Header(buffer, phOffset + 32 * i))
  }

  // ----- pages

  function PageByte(buffer: seq<Byte>, page: seq<Fragment>, o: nat): Byte {
    var f := Source(page, o);
    if f.Some? && f.value < |buffer| then buffer[f.value] else 0
  }

  predicate Extractable(buffer: seq<Byte>, page: seq<Fragment>) {
    forall i :: 0 <= i < |page| ==> page[i].fileOffset + page[i].byteCount <= |buffer|
  }

  function Realized(buffer: seq<Byte>, page: seq<Fragment>): (r: seq<Byte>)
    ensures |r| == DATA_SIZE
  {
    seq(DATA_SIZE, o requires o >= 0 => PageByte(buffer, page, o))
  }

  /** A fragment covering o decides byte o, wherever it stands in the list. */
  lemma {:induction false} SourceOfAny(page: seq<Fragment>, i: nat, o: nat)
    requires FragsOk(page) && i < |page| && Covers(page[i], o)
    ensures Source(page, o) == Some(page[i].fileOffset + (o - page[i].pageOffset))
  {
    var n := |page| - 1;
    if i < n {
      assert Apart(page[i], page[n]);
      assert FragsOk(page[..n]);
      SourceOfAny(page[..n], i, o);
    }
  }

  lemma AlsoIn(page: seq<Fragment>, other: seq<Fragment>, f: Fragment)
    requires multiset(page) == multiset(other) && f in page
    ensures f in other
  {
    assert f in multiset(page);
  }

  lemma SourceOfFragment(page: seq<Fragment>, f: Fragment, o: nat)
    requires FragsOk(page) && f in page && Covers(f, o)
    ensures Source(page, o) == Some(f.fileOffset + (o - f.pageOffset))
  {
    var i :| 0 <= i < |page| && page[i] == f;
    SourceOfAny(page, i, o);
  }

  lemma CoveringFragment(page: seq<Fragment>, o: nat) returns (f: Fragment)
    requires Source(page, o).Some?
    ensures f in page && Covers(f, o)
  {
    SourceCovered(page, o);
    var i :| 0 <= i < |page| && Covers(page[i], o);
    f := page[i];
  }

  lemma SourceTransfers(page: seq<Fragment>, other: seq<Fragment>, o: nat)
    requires FragsOk(page) && FragsOk(other) && multiset(page) == multiset(other) && Source(page, o).Some?
    ensures Source(other, o) == Source(page, o)
  {
    var f := CoveringFragment(page, o);
    AlsoIn(page, other, f);
    SourceOfFragment(page, f, o);
    SourceOfFragment(other, f, o);
  }

  /** The content of a page does not depend on the order of its fragments. */
  lemma PageOrderIrrelevant(buffer: seq<Byte>, page: seq<Fragment>, other: seq<Fragment>)
    requires FragsOk(page) && FragsOk(other) && multiset(page) == multiset(other)
    ensures Realized(buffer, page) == Realized(buffer, other)
  {
    forall o | 0 <= o < DATA_SIZE
      ensures Source(page, o) == Source(other, o)
    {
      if Source(page, o).Some? {
        SourceTransfers(page, other, o);
      } else if Source(other, o).Some? {
        SourceTransfers(other, page, o);
      }
    }
  }

  // ----- blocks

  function Head(target: nat, no: nat, total: nat, family: nat): (h: seq<Byte>)
    requires target < WORD && no < WORD && total < WORD && family < WORD
    ensures |h| == 32
  {
    Pack32(MAGIC_START0) + Pack32(MAGIC_START1) + Pack32(FLAG_FAMILY_ID) + Pack32(target)
    + Pack32(PAGE_SIZE) + Pack32(no) + Pack32(total) + Pack32(family)
  }

  function Block(target: nat, no: nat, total: nat, family: nat, data: seq<Byte>): (b: seq<Byte>)
    requires target < WORD && no < WORD && total < WORD && family < WORD && |data| == DATA_SIZE
    ensures |b| == BLOCK_SIZE
  {
    Head(target, no, total, family) + data + Pack32(MAGIC_END)
  }

  /** The first n blocks; struct.pack refuses a field that does not fit 32 bits. */
  function Emit(buffer: seq<Byte>, p: Pages, family: nat, n: nat): Result<seq<Byte>>
    requires n <= |p.order|
  {
    if n == 0 then Ok([])
    else
      var r := Emit(buffer, p, family, n - 1);
      var key := p.order[n - 1];
      if r.Err? then r
      else if !Extractable(buffer, FragsAt(p, key)) then Err(FailedExtract)
      else if key >= WORD || |p.order| >= WORD || family >= WORD then Err(FieldTooWide)
      else Ok(r.value + Block(key, n - 1, |p.order|, family, Realized(buffer, FragsAt(p, key))))
  }

  function Convert(buffer: seq<Byte>, phOffset: nat, phNum: nat, ranges: seq<Range>, family: nat): Result<seq<Byte>> {
    var r := Place(NO_PAGES, Headers(buffer, phOffset, phNum), ranges);
    if r.Err? then Err(r.error)
    else if |r.value.order| == 0 then Err(NoPages)
    else Emit(buffer, r.value, family, |r.value.order|)
  }

  // ----- reading a UF2 file

  datatype BlockView = BlockView(target: nat, size: nat, no: nat, total: nat, flags: nat, family: nat)

  function BlockAt(file: seq<Byte>, i: nat): seq<Byte>
    requires BLOCK_SIZE * (i + 1) <= |file|
  {
    file[BLOCK_SIZE * i..BLOCK_SIZE * (i + 1)]
  }

  /** Magic numbers in place and a payload that fits the data field. */
  predicate IsBlock(b: seq<Byte>) {
    && |b| == BLOCK_SIZE
    && Word32(b, 0) == MAGIC_START0 && Word32(b, 4) == MAGIC_START1 && Word32(b, 508) == MAGIC_END
    && Word32(b, 16) <= DATA_SIZE
  }

  function View(b: seq<Byte>): BlockView
    requires |b| == BLOCK_SIZE
  {
    BlockView(Word32(b, 12), Word32(b, 16), Word32(b, 20), Word32(b, 24), Word32(b, 8), Word32(b, 28))
  }

  /** The byte a bootloader finds for address a in the first block from i on that carries it. */
  function DecodeFrom(file: seq<Byte>, i: nat, a: nat): Option<Byte>
    decreases |file| - BLOCK_SIZE * i
  {
    if BLOCK_SIZE * (i + 1) > |file| then None
    else
      var b := BlockAt(file, i);
      if IsBlock(b) && View(b).target <= a < View(b).target + View(b).size then Some(b[32 + (a - View(b).target)])
      else DecodeFrom(file, i + 1, a)
  }

  function Decode(file: seq<Byte>, a: nat): Option<Byte> { DecodeFrom(file, 0, a) }

  // ----- what the blocks say

  lemma HeadWords(target: nat, no: nat, total: nat, family: nat)
    requires target < WORD && no < WORD && total < WORD && family < WORD
    ensures var h := Head(target, no, total, family);
            && Word32(h, 0) == MAGIC_START0 && Word32(h, 4) == MAGIC_START1 && Word32(h, 8) == FLAG_FAMILY_ID
            && Word32(h, 12) == target && Word32(h, 16) == PAGE_SIZE && Word32(h, 20) == no
            && Word32(h, 24) == total && Word32(h, 28) == family
  {
    WordRoundTrip(MAGIC_START0, [], []);
    WordRoundTrip(MAGIC_START1, [], []);
    WordRoundTrip(FLAG_FAMILY_ID, [], []);
    WordRoundTrip(target, [], []);
    WordRoundTrip(PAGE_SIZE, [], []);
    WordRoundTrip(no, [], []);
    WordRoundTrip(total, [], []);
    WordRoundTrip(family, [], []);
  }

  /** A block read back gives the fields and the data it was packed from. */
  lemma BlockRoundTrip(target: nat, no: nat, total: nat, family: nat, data: seq<Byte>)
    requires target < WORD && no < WORD && total < WORD && family < WORD && |data| == DATA_SIZE
    ensures var b := Block(target, no, total, family, data);
            && IsBlock(b) && View(b) == BlockView(target, PAGE_SIZE, no, total, FLAG_FAMILY_ID, family)
            && b[32..32 + DATA_SIZE] == data
  {
    HeadWords(target, no, total, family);
    var h := Head(target, no, total, family);
    var b := Block(target, no, total, family, data);
    assert forall k :: 0 <= k < 32 ==> b[k] == h[k];
    WordRoundTrip(MAGIC_END, h + data, []);
    assert (h + data) + Pack32(MAGIC_END) + [] == b;
  }

  ghost predicate BlockOk(buffer: seq<Byte>, p: Pages, family: nat, file: seq<Byte>, i: nat)
    requires i < |p.order| && BLOCK_SIZE * (i + 1) <= |file|
  {
    var key := p.order[i];
    && key < WORD && |p.order| < WORD && family < WORD && Extractable(buffer, FragsAt(p, key))
    && BlockAt(file, i) == Block(key, i, |p.order|, family, Realized(buffer, FragsAt(p, key)))
  }

  lemma BlockAtFront(front: seq<Byte>, last: seq<Byte>, i: nat)
    requires BLOCK_SIZE * (i + 1) <= |front|
    ensures BlockAt(front + last, i) == BlockAt(front, i)
  {
  }

  lemma BlockAtEnd(front: seq<Byte>, last: seq<Byte>, i: nat)
    requires |front| == BLOCK_SIZE * i && |last| == BLOCK_SIZE
    ensures BlockAt(front + last, i) == last
  {
  }

  lemma {:induction false} EmitBlocks(buffer: seq<Byte>, p: Pages, family: nat, n: nat, file: seq<Byte>)
    requires n <= |p.order| && Emit(buffer, p, family, n) == Ok(file)
    ensures |file| == BLOCK_SIZE * n
    ensures forall i :: 0 <= i < n ==> BlockOk(buffer, p, family, file, i)
  {
    if n > 0 {
      var front := Emit(buffer, p, family, n - 1).value;
      var key := p.order[n - 1];
      var last := Block(key, n - 1, |p.order|, family, Realized(buffer, FragsAt(p, key)));
      EmitBlocks(buffer, p, family, n - 1, front);
      BlockAtEnd(front, last, n - 1);
      assert file == front + last && |file| == BLOCK_SIZE * n;
      forall i | 0 <= i < n ensures BlockOk(buffer, p, family, file, i) {
        if i < n - 1 {
          assert BlockOk(buffer, p, family, front, i);
          BlockAtFront(front, last, i);
        }
      }
    }
  }

  predicate Emittable(buffer: seq<Byte>, p: Pages, family: nat, i: nat)
    requires i < |p.order|
  {
    Extractable(buffer, FragsAt(p, p.order[i])) && p.order[i] < WORD && |p.order| < WORD && family < WORD
  }

  lemma {:induction false} EmitSucceeds(buffer: seq<Byte>, p: Pages, family: nat, n: nat)
    requires n <= |p.order|
    ensures Emit(buffer, p, family, n).Ok? <==> forall i :: 0 <= i < n ==> Emittable(buffer, p, family, i)
  {
    if n > 0 {
      EmitSucceeds(buffer, p, family, n - 1);
      assert Emit(buffer, p, family, n).Ok? <==>
               Emit(buffer, p, family, n - 1).Ok? && Emittable(buffer, p, family, n - 1);
      assert forall i {:trigger Emittable(buffer, p, family, i)} ::
               0 <= i < n ==> (0 <= i < n - 1 || i == n - 1);
    }
  }

  /** Block i carries the bytes of its page and no others. */
  lemma BlockCarries(buffer: seq<Byte>, p: Pages, family: nat, file: seq<Byte>, i: nat, a: nat)
    requires PagesOk(p) && i < |p.order| && BLOCK_SIZE * (i + 1) <= |file| && BlockOk(buffer, p, family, file, i)
    ensures var b := BlockAt(file, i);
            && IsBlock(b) && View(b).target == p.order[i] && View(b).size == PAGE_SIZE
            && (PageOf(a) == p.order[i] <==> View(b).target <= a < View(b).target + PAGE_SIZE)
            && (PageOf(a) == p.order[i] ==>
                  b[32 + (a - p.order[i])] == PageByte(buffer, FragsAt(p, PageOf(a)), a % PAGE_SIZE))
  {
    var key := p.order[i];
    var data := Realized(buffer, FragsAt(p, key));
    BlockRoundTrip(key, i, |p.order|, family, data);
    var b := BlockAt(file, i);
    assert key in p.frags && key % PAGE_SIZE == 0;
    if key <= a < key + PAGE_SIZE {
      SamePage(key, a);
      assert b[32 + (a - key)] == b[32..32 + DATA_SIZE][a - key] == data[a - key];
    }
  }

  /** Reading from block i on finds page i.. entries of the order only. */
  lemma {:induction false} DecodeFinds(buffer: seq<Byte>, p: Pages, family: nat, file: seq<Byte>, i: nat, a: nat)
    requires PagesOk(p) && |file| == BLOCK_SIZE * |p.order| && i <= |p.order|
    requires forall k :: 0 <= k < |p.order| ==> BlockOk(buffer, p, family, file, k)
    ensures DecodeFrom(file, i, a) ==
            if PageOf(a) in p.order[i..] then Some(PageByte(buffer, FragsAt(p, PageOf(a)), a % PAGE_SIZE)) else None
    decreases |p.order| - i
  {
    if i < |p.order| {
      assert p.order[i..] == [p.order[i]] + p.order[i + 1..];
      BlockCarries(buffer, p, family, file, i, a);
      if PageOf(a) != p.order[i] {
        DecodeFinds(buffer, p, family, file, i + 1, a);
      }
    }
  }
}
