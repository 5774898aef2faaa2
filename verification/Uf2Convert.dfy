/** The promises of the conversion as a whole. */
module Uf2Convert {
  import opened Prelude
  import opened Uf2Pages
  import opened Uf2Blocks

  /** Some segment has a byte on this page. */
  ghost predicate Touched(segs: seq<Option<Segment>>, key: nat) {
    exists i, a: nat :: Backs(segs, i, a) && PageOf(a) == key
  }

  /** A page exists exactly for the addresses that have a source on it. */
  lemma PageHasByte(p: Pages, key: nat) returns (a: nat)
    requires PagesOk(p) && key in p.frags
    ensures PageOf(a) == key && Image(p, a).Some?
  {
    var f := p.frags[key][0];
    a := key + f.pageOffset;
    SamePage(key, a);
    assert Covers(f, f.pageOffset);
    SourceCovered(p.frags[key], f.pageOffset);
  }

  /** What placing all segments of a file leaves. */
  lemma PlacedPages(segs: seq<Option<Segment>>, ranges: seq<Range>, p: Pages)
    requires Place(NO_PAGES, segs, ranges) == Ok(p)
    ensures PagesOk(p) && Admissible(segs, ranges) && !Overlapping(segs)
    ensures forall a: nat :: Image(p, a) == SegmentImage(segs, a)
    ensures forall key: nat :: key in p.frags <==> Touched(segs, key)
  {
    PlacePlaces(NO_PAGES, segs, ranges, 0, p);
    OverlapExactly(segs, ranges);
    forall a: nat ensures Image(p, a) == SegmentImage(segs, a) {
      PlacePlaces(NO_PAGES, segs, ranges, a, p);
    }
    forall key: nat ensures key in p.frags <==> Touched(segs, key) {
      if key in p.frags {
        var a := PageHasByte(p, key);
        SegmentImageBacked(segs, a);
      }
      if i, a: nat :| Backs(segs, i, a) && PageOf(a) == key {
        SegmentImageBacked(segs, a);
        assert Image(p, a).Some?;
      }
    }
  }

  lemma ExtractableSource(buffer: seq<Byte>, page: seq<Fragment>, o: nat)
    requires Extractable(buffer, page) && Source(page, o).Some?
    ensures Source(page, o).value < |buffer|
  {
    if !Covers(page[|page| - 1], o) {
      ExtractableSource(buffer, page[..|page| - 1], o);
    }
  }

  /** What a successful conversion wrote, page by page. */
  lemma ConvertedBlocks(buffer: seq<Byte>, phOffset: nat, phNum: nat, ranges: seq<Range>, family: nat, file: seq<Byte>)
    returns (p: Pages)
    requires Convert(buffer, phOffset, phNum, ranges, family) == Ok(file)
    ensures Place(NO_PAGES, Headers(buffer, phOffset, phNum), ranges) == Ok(p)
    ensures |p.order| > 0 && |file| == BLOCK_SIZE * |p.order|
    ensures forall i :: 0 <= i < |p.order| ==> BlockOk(buffer, p, family, file, i)
  {
    p := Place(NO_PAGES, Headers(buffer, phOffset, phNum), ranges).value;
    EmitBlocks(buffer, p, family, |p.order|, file);
  }

  /**
   The conversion preserves the memory image: at every address a file-backed byte of a
   loadable segment is read back from the UF2 file, whichever segment has it; the other
   bytes of touched pages read as zero, and all other addresses are absent.
   */
  lemma ConvertPreservesImage(buffer: seq<Byte>, phOffset: nat, phNum: nat, ranges: seq<Range>, family: nat,
                              file: seq<Byte>, a: nat)
    requires Convert(buffer, phOffset, phNum, ranges, family) == Ok(file)
    ensures var segs := Headers(buffer, phOffset, phNum);
            && (forall i :: Backs(segs, i, a) ==>
                  FileIndex(segs, i, a) < |buffer| && Decode(file, a) == Some(buffer[FileIndex(segs, i, a)]))
            && ((forall i :: !Backs(segs, i, a)) ==>
                  Decode(file, a) == if Touched(segs, PageOf(a)) then Some(0) else None)
  {
    var segs := Headers(buffer, phOffset, phNum);
    var p := ConvertedBlocks(buffer, phOffset, phNum, ranges, family, file);
    PlacedPages(segs, ranges, p);
    DecodeFinds(buffer, p, family, file, 0, a);
    assert p.order[0..] == p.order;
    var key := PageOf(a);
    SegmentImageBacked(segs, a);
    assert Image(p, a) == SegmentImage(segs, a);
    forall i | Backs(segs, i, a)
      ensures FileIndex(segs, i, a) < |buffer| && Decode(file, a) == Some(buffer[FileIndex(segs, i, a)])
    {
      SegmentImageUnique(segs, i, a);
      assert key in p.frags && key in p.order;
      var k :| 0 <= k < |p.order| && p.order[k] == key;
      assert BlockOk(buffer, p, family, file, k);
      ExtractableSource(buffer, FragsAt(p, key), a % PAGE_SIZE);
    }
  }

  /**
   The container is well formed: one 512-byte block per touched page, numbered from zero
   with the right total, page-aligned pairwise distinct targets, full 256-byte payloads.
   */
  lemma ConvertIsWellFormed(buffer: seq<Byte>, phOffset: nat, phNum: nat, ranges: seq<Range>, family: nat,
                            file: seq<Byte>)
    returns (targets: seq<nat>)
    requires Convert(buffer, phOffset, phNum, ranges, family) == Ok(file)
    ensures |file| == BLOCK_SIZE * |targets| && |targets| > 0
    ensures forall key: nat :: key in targets <==> Touched(Headers(buffer, phOffset, phNum), key)
    ensures forall i, j :: 0 <= i < j < |targets| ==> targets[i] != targets[j]
    ensures forall i :: 0 <= i < |targets| ==>
              && targets[i] % PAGE_SIZE == 0
              && IsBlock(BlockAt(file, i))
              && View(BlockAt(file, i)) == BlockView(targets[i], PAGE_SIZE, i, |targets|, FLAG_FAMILY_ID, family)
  {
    var p := ConvertedBlocks(buffer, phOffset, phNum, ranges, family, file);
    PlacedPages(Headers(buffer, phOffset, phNum), ranges, p);
    targets := p.order;
    forall i | 0 <= i < |targets|
      ensures targets[i] % PAGE_SIZE == 0 && IsBlock(BlockAt(file, i))
      ensures View(BlockAt(file, i)) == BlockView(targets[i], PAGE_SIZE, i, |targets|, FLAG_FAMILY_ID, family)
    {
      assert BlockOk(buffer, p, family, file, i);
      assert targets[i] in p.frags;
      BlockRoundTrip(targets[i], i, |targets|, family, Realized(buffer, FragsAt(p, targets[i])));
    }
  }

  // ----- when the conversion succeeds

  /** The segment's contents lie in the file and below the end of the 32-bit address space. */
  predicate Readable(buffer: seq<Byte>, s: Segment) {
    Loadable(s) && s.filesz > 0 ==> s.offset + s.filesz <= |buffer| && s.paddr + s.filesz <= WORD
  }

  predicate AllReadable(buffer: seq<Byte>, segs: seq<Option<Segment>>) {
    forall i :: 0 <= i < |segs| && segs[i].Some? ==> Readable(buffer, segs[i].value)
  }

  lemma PagesFit(order: seq<nat>)
    requires forall i :: 0 <= i < |order| ==> order[i] % PAGE_SIZE == 0 && order[i] < WORD
    requires forall i, j :: 0 <= i < j < |order| ==> order[i] != order[j]
    ensures |order| < WORD
  {
    var numbers := seq(|order|, i requires 0 <= i < |order| => order[i] / PAGE_SIZE);
    var bound := Interval(0x100_0000);
    forall i | 0 <= i < |order| ensures numbers[i] in bound {
      assert order[i] == PAGE_SIZE * (order[i] / PAGE_SIZE);
    }
    forall i, j | 0 <= i < j < |order| ensures numbers[i] != numbers[j] {
      assert order[i] == PAGE_SIZE * numbers[i] && order[j] == PAGE_SIZE * numbers[j];
    }
    DistinctBelow(numbers, bound);
  }

  /** The file position that backs the last byte of a fragment. */
  lemma FragmentLastByte(p: Pages, key: nat, j: nat) returns (a: nat)
    requires PagesOk(p) && key in p.frags && j < |p.frags[key]|
    ensures var f := p.frags[key][j];
            key <= a && PageOf(a) == key && Image(p, a) == Some(f.fileOffset + f.byteCount - 1)
  {
    var f := p.frags[key][j];
    var o := f.pageOffset + f.byteCount - 1;
    a := key + o;
    assert Covers(f, o);
    SourceOfAny(p.frags[key], j, o);
    SamePage(key, a);
  }

  lemma ReadableByte(buffer: seq<Byte>, segs: seq<Option<Segment>>, a: nat)
    requires AllReadable(buffer, segs) && !Overlapping(segs) && SegmentImage(segs, a).Some?
    ensures SegmentImage(segs, a).value < |buffer| && a < WORD
  {
    SegmentImageBacked(segs, a);
    var k :| Backs(segs, k, a);
    SegmentImageUnique(segs, k, a);
    assert Readable(buffer, segs[k].value);
  }

  /** When all segments are readable, every page can be written. */
  lemma ReadableEmits(buffer: seq<Byte>, segs: seq<Option<Segment>>, p: Pages, key: nat)
    requires PagesOk(p) && AllReadable(buffer, segs) && !Overlapping(segs) && key in p.frags
    requires forall a: nat :: Image(p, a) == SegmentImage(segs, a)
    ensures Extractable(buffer, FragsAt(p, key)) && key < WORD
  {
    var a := FragmentLastByte(p, key, 0);
    ReadableByte(buffer, segs, a);
    forall j | 0 <= j < |p.frags[key]|
      ensures p.frags[key][j].fileOffset + p.frags[key][j].byteCount <= |buffer|
    {
      var b := FragmentLastByte(p, key, j);
      ReadableByte(buffer, segs, b);
    }
  }

  lemma PageBelowWord(a: nat)
    requires PageOf(a) < WORD
    ensures a < WORD
  {
    assert PageOf(a) % PAGE_SIZE == 0;
  }

  /** When every page can be written, all segments are readable. */
  lemma EmittedReadable(buffer: seq<Byte>, segs: seq<Option<Segment>>, p: Pages, i: nat)
    requires i < |segs| && segs[i].Some? && Loadable(segs[i].value) && segs[i].value.filesz > 0
    requires forall a: nat :: Image(p, a) == SegmentImage(segs, a)
    requires !Overlapping(segs)
    requires forall key :: key in p.frags ==> Extractable(buffer, FragsAt(p, key)) && key < WORD
    ensures Readable(buffer, segs[i].value)
  {
    var s := segs[i].value;
    var a := s.paddr + s.filesz - 1;
    assert Backs(segs, i, a);
    SegmentImageUnique(segs, i, a);
    assert Image(p, a) == Some(s.offset + s.filesz - 1);
    ExtractableSource(buffer, FragsAt(p, PageOf(a)), a % PAGE_SIZE);
    PageBelowWord(a);
  }

  lemma AllEmittable(buffer: seq<Byte>, segs: seq<Option<Segment>>, p: Pages, family: nat)
    requires PagesOk(p) && !Overlapping(segs)
    requires forall a: nat :: Image(p, a) == SegmentImage(segs, a)
    ensures |p.order| > 0 && Emit(buffer, p, family, |p.order|).Ok? <==>
              |p.order| > 0 && family < WORD && AllReadable(buffer, segs)
  {
    EmitSucceeds(buffer, p, family, |p.order|);
    if |p.order| > 0 && (forall i :: 0 <= i < |p.order| ==> Emittable(buffer, p, family, i)) {
      assert Emittable(buffer, p, family, 0);
      forall key | key in p.frags ensures Extractable(buffer, FragsAt(p, key)) && key < WORD {
        assert key in p.order;
        var k :| 0 <= k < |p.order| && p.order[k] == key;
        assert Emittable(buffer, p, family, k);
      }
      forall i | 0 <= i < |segs| && segs[i].Some? ensures Readable(buffer, segs[i].value) {
        if Loadable(segs[i].value) && segs[i].value.filesz > 0 {
          EmittedReadable(buffer, segs, p, i);
        }
      }
    }
    if family < WORD && AllReadable(buffer, segs) {
      forall i | 0 <= i < |p.order|
        ensures Extractable(buffer, FragsAt(p, p.order[i])) && p.order[i] < WORD && p.order[i] % PAGE_SIZE == 0
      {
        assert p.order[i] in p.frags;
        ReadableEmits(buffer, segs, p, p.order[i]);
      }
      PagesFit(p.order);
    }
  }

  /**
   The conversion succeeds exactly when all program headers are readable, every loadable
   segment passes the range check, no two of them claim a byte, at least one has contents,
   and all contents lie in the file and in the 32-bit address space.
   */
  lemma ConvertSucceedsExactly(buffer: seq<Byte>, phOffset: nat, phNum: nat, ranges: seq<Range>, family: nat)
    requires family < WORD
    ensures var segs := Headers(buffer, phOffset, phNum);
            Convert(buffer, phOffset, phNum, ranges, family).Ok? <==>
              && Admissible(segs, ranges) && !Overlapping(segs)
              && (exists i, a: nat :: Backs(segs, i, a)) && AllReadable(buffer, segs)
  {
    var segs := Headers(buffer, phOffset, phNum);
    var r := Place(NO_PAGES, segs, ranges);
    if r.Ok? {
      var p := r.value;
      PlacedPages(segs, ranges, p);
      AllEmittable(buffer, segs, p, family);
      if i, a: nat :| Backs(segs, i, a) {
        assert Touched(segs, PageOf(a)) && PageOf(a) in p.order;
      }
      if |p.order| > 0 {
        assert p.order[0] in p.frags && Touched(segs, p.order[0]);
      }
    } else if Admissible(segs, ranges) {
      OverlapExactly(segs, ranges);
    }
  }
}
