/**
 How elf2uf2 distributes the file-backed segments of an ELF32 image over 256-byte
 pages: each segment is cut at page boundaries, each piece is checked against what its
 page already holds, and recorded as a fragment.
 */
module Uf2Pages {
  import opened Prelude

  const PAGE_SIZE: nat := 256
  const PT_LOAD: nat := 1

  datatype Error =
    | ShortHeader       // a program header lies outside the file
    | Uninitialized     // contents for a NO_CONTENTS range
    | OutsideRanges     // contents outside every supplied range
    | Overlap           // two segments claim the same byte
    | FailedExtract     // a fragment lies outside the file
    | FieldTooWide      // a block field does not fit 32 bits
    | NoPages

  datatype Result<+T> = Ok(value: T) | Err(error: Error)

  datatype RangeType = Contents | NoContents | Ignore

  datatype Range = Range(start: nat, end: nat, kind: RangeType)

  datatype Segment = Segment(kind: nat, offset: nat, vaddr: nat, paddr: nat, filesz: nat, memsz: nat)

  /** byteCount bytes of the file from fileOffset on, at pageOffset in a page. */
  datatype Fragment = Fragment(fileOffset: nat, pageOffset: nat, byteCount: nat)

  /** A dictionary from page address to fragments; `order` is its insertion order. */
  datatype Pages = Pages(order: seq<nat>, frags: map<nat, seq<Fragment>>)

  // ----- address ranges

  predicate Contains(r: Range, addr: nat, size: nat) {
    r.start <= addr && r.end >= addr + size
  }

  /** The first supplied range that contains the memory decides. */
  function CheckAddressRange(ranges: seq<Range>, addr: nat, size: nat, isPhys: bool): Option<Error> {
    if ranges == [] then
      if size != 0 && isPhys then Some(OutsideRanges) else None
    else if Contains(ranges[0], addr, size) then
      if isPhys && ranges[0].kind.NoContents? && size != 0 then Some(Uninitialized) else None
    else CheckAddressRange(ranges[1..], addr, size, isPhys)
  }

  /**
   Warnings aside, only physical addresses with contents can be refused: when no range
   contains them, and when the first one that does, number k, has no contents.
   */
  lemma {:induction false} AddressRangeVerdict(ranges: seq<Range>, addr: nat, size: nat, isPhys: bool) returns (k: nat)
    ensures k <= |ranges| && forall j :: 0 <= j < k ==> addr < ranges[j].start || ranges[j].end < addr + size
    ensures k < |ranges| ==> ranges[k].start <= addr && addr + size <= ranges[k].end
    ensures CheckAddressRange(ranges, addr, size, isPhys) ==
            if !isPhys || size == 0 then None
            else if k == |ranges| then Some(OutsideRanges)
            else if ranges[k].kind == NoContents then Some(Uninitialized)
            else None
  {
    k := 0;
    if ranges != [] && !Contains(ranges[0], addr, size) {
      var i := AddressRangeVerdict(ranges[1..], addr, size, isPhys);
      k := i + 1;
    }
  }

  // ----- placing segments

  predicate Loadable(s: Segment) { s.kind == PT_LOAD && s.memsz != 0 }

  /** The overlap test of the source, for one recorded fragment. */
  predicate ClashesWith(f: Fragment, off: nat, len: nat) {
    (off < f.pageOffset + f.byteCount) != (off + len <= f.pageOffset)
  }

  predicate Clashes(frags: seq<Fragment>, off: nat, len: nat) {
    exists i :: 0 <= i < |frags| && ClashesWith(frags[i], off, len)
  }

  function FragsAt(p: Pages, key: nat): seq<Fragment> {
    if key in p.frags then p.frags[key] else []
  }

  function Record(p: Pages, key: nat, f: Fragment): Pages {
    Pages(if key in p.frags then p.order else p.order + [key], p.frags[key := FragsAt(p, key) + [f]])
  }

  function Min(a: nat, b: nat): nat { if a < b then a else b }

  function PageOf(a: nat): nat { a - a % PAGE_SIZE }

  /** The piece the inner loop is about to record: up to the end of the page. */
  function PieceLength(addr: nat, remaining: nat): (len: nat)
    ensures remaining > 0 ==> 0 < len <= remaining
  {
    Min(remaining, PAGE_SIZE - addr % PAGE_SIZE)
  }

  predicate PieceClashes(p: Pages, addr: nat, remaining: nat) {
    Clashes(FragsAt(p, PageOf(addr)), addr % PAGE_SIZE, PieceLength(addr, remaining))
  }

  function AfterPiece(p: Pages, addr: nat, remaining: nat, fileOffset: nat): Pages {
    Record(p, PageOf(addr), Fragment(fileOffset, addr % PAGE_SIZE, PieceLength(addr, remaining)))
  }

  /** The inner loop: cut the segment at page boundaries. */
  function Split(p: Pages, addr: nat, remaining: nat, fileOffset: nat): Result<Pages>
    decreases remaining
  {
    if remaining == 0 then Ok(p)
    else if PieceClashes(p, addr, remaining) then Err(Overlap)
    else
      var len := PieceLength(addr, remaining);
      Split(AfterPiece(p, addr, remaining, fileOffset), addr + len, remaining - len, fileOffset + len)
  }

  /** One round of the outer loop. */
  function PlaceOne(p: Pages, s: Segment, ranges: seq<Range>): Result<Pages> {
    if !Loadable(s) then Ok(p)
    else
      var e := CheckAddressRange(ranges, s.paddr, s.filesz, true);
      if e.Some? then Err(e.value) else Split(p, s.paddr, s.filesz, s.offset)
  }

  /** The outer loop; None stands for a program header outside the file. */
  function Place(p: Pages, segs: seq<Option<Segment>>, ranges: seq<Range>): Result<Pages>
    decreases |segs|
  {
    if segs == [] then Ok(p)
    else if segs[0].None? then Err(ShortHeader)
    else
      var r := PlaceOne(p, segs[0].value, ranges);
      if r.Err? then r else Place(r.value, segs[1..], ranges)
  }

  // ----- the memory image, as the segments define it

  /** Segment i puts a byte of the file at address a. */
  predicate Backs(segs: seq<Option<Segment>>, i: int, a: int) {
    && 0 <= i < |segs| && segs[i].Some? && Loadable(segs[i].value)
    && segs[i].value.paddr <= a < segs[i].value.paddr + segs[i].value.filesz
  }

  /** The file position of that byte. */
  function FileIndex(segs: seq<Option<Segment>>, i: int, a: int): nat
    requires Backs(segs, i, a)
  {
    segs[i].value.offset + (a - segs[i].value.paddr)
  }

  /** Every program header is readable and every loadable segment passes the range check. */
  predicate Admissible(segs: seq<Option<Segment>>, ranges: seq<Range>) {
    forall i :: 0 <= i < |segs| ==>
      && segs[i].Some?
      && (Loadable(segs[i].value) ==>
            CheckAddressRange(ranges, segs[i].value.paddr, segs[i].value.filesz, true) == None)
  }

  // ----- the memory image, as the pages hold it

  predicate Covers(f: Fragment, o: nat) { f.pageOffset <= o < f.pageOffset + f.byteCount }

  /** The file position of page byte o: later fragments win, as in realize_page. */
  function Source(frags: seq<Fragment>, o: nat): Option<nat> {
    if frags == [] then None
    else
      var f := frags[|frags| - 1];
      if Covers(f, o) then Some(f.fileOffset + (o - f.pageOffset)) else Source(frags[..|frags| - 1], o)
  }

  function Image(p: Pages, a: nat): Option<nat> { Source(FragsAt(p, PageOf(a)), a % PAGE_SIZE) }

  /** Fragments are non-empty, inside the page and pairwise disjoint. */
  ghost predicate FragsOk(frags: seq<Fragment>) {
    && (forall i :: 0 <= i < |frags| ==>
          0 < frags[i].byteCount && frags[i].pageOffset + frags[i].byteCount <= PAGE_SIZE)
    && (forall i, j :: 0 <= i < j < |frags| ==> Apart(frags[i], frags[j]))
  }

  predicate Apart(f: Fragment, g: Fragment) {
    f.pageOffset + f.byteCount <= g.pageOffset || g.pageOffset + g.byteCount <= f.pageOffset
  }

  ghost predicate PagesOk(p: Pages) {
    && (forall k :: k in p.frags ==> k % PAGE_SIZE == 0 && p.frags[k] != [] && FragsOk(p.frags[k]))
    && (forall k :: k in p.order <==> k in p.frags)
    && (forall i, j :: 0 <= i < j < |p.order| ==> p.order[i] != p.order[j])
  }

  // ----- one fragment

  lemma {:induction false} SourceCovered(frags: seq<Fragment>, o: nat)
    ensures Source(frags, o).Some? <==> exists i :: 0 <= i < |frags| && Covers(frags[i], o)
  {
    if frags != [] {
      var init := frags[..|frags| - 1];
      SourceCovered(init, o);
      if i :| 0 <= i < |init| && Covers(init[i], o) {
        assert Covers(frags[i], o);
      }
    }
  }

  /** The test of the source is exact: it fires when some byte of the new piece is already taken. */
  lemma ClashesExactly(frags: seq<Fragment>, off: nat, len: nat)
    requires FragsOk(frags) && len > 0
    ensures Clashes(frags, off, len) <==> exists o :: off <= o < off + len && Source(frags, o).Some?
  {
    if i :| 0 <= i < |frags| && ClashesWith(frags[i], off, len) {
      var f := frags[i];
      var o := if off < f.pageOffset then f.pageOffset else off;
      assert Covers(f, o);
      SourceCovered(frags, o);
      assert Source(frags, o).Some?;
    }
    if o :| off <= o < off + len && Source(frags, o).Some? {
      SourceCovered(frags, o);
      var i :| 0 <= i < |frags| && Covers(frags[i], o);
      assert ClashesWith(frags[i], off, len);
    }
  }

  lemma RecordKeepsPagesOk(p: Pages, key: nat, f: Fragment)
    requires PagesOk(p) && key % PAGE_SIZE == 0
    requires 0 < f.byteCount && f.pageOffset + f.byteCount <= PAGE_SIZE
    requires !Clashes(FragsAt(p, key), f.pageOffset, f.byteCount)
    ensures PagesOk(Record(p, key, f))
  {
    var old' := FragsAt(p, key);
    var new' := old' + [f];
    forall i | 0 <= i < |old'| ensures Apart(new'[i], f) {
      assert !ClashesWith(old'[i], f.pageOffset, f.byteCount);
    }
    assert FragsOk(new');
    assert forall k :: k in Record(p, key, f).frags ==> k == key || p.frags[k] == Record(p, key, f).frags[k];
  }

  lemma RecordImage(p: Pages, key: nat, f: Fragment, a: nat)
    requires key % PAGE_SIZE == 0 && f.pageOffset + f.byteCount <= PAGE_SIZE
    ensures Image(Record(p, key, f), a) ==
            if key + f.pageOffset <= a < key + f.pageOffset + f.byteCount
            then Some(f.fileOffset + (a - key - f.pageOffset)) else Image(p, a)
  {
    var old' := FragsAt(p, key);
    assert (old' + [f])[..|old'|] == old';
    if key <= a < key + PAGE_SIZE {
      SamePage(key, a);
    }
  }

  lemma SamePage(key: nat, a: nat)
    requires key % PAGE_SIZE == 0 && key <= a < key + PAGE_SIZE
    ensures PageOf(a) == key && a % PAGE_SIZE == a - key
  {
  }

  // ----- one segment

  predicate Within(addr: nat, size: nat, a: int) { addr <= a < addr + size }

  lemma PieceFits(addr: nat, remaining: nat)
    requires remaining > 0
    ensures PageOf(addr) % PAGE_SIZE == 0 && addr == PageOf(addr) + addr % PAGE_SIZE
    ensures 0 < PieceLength(addr, remaining) <= remaining
    ensures addr % PAGE_SIZE + PieceLength(addr, remaining) <= PAGE_SIZE
  {
  }

  /** Bytes of the piece lie on its page. */
  lemma InPiece(addr: nat, len: nat, a: nat)
    requires addr % PAGE_SIZE + len <= PAGE_SIZE && Within(addr, len, a)
    ensures PageOf(a) == PageOf(addr) && a % PAGE_SIZE == addr % PAGE_SIZE + (a - addr)
  {
    SamePage(PageOf(addr), a);
  }

  predicate Taken(p: Pages, addr: nat, len: nat, a: nat) { Within(addr, len, a) && Image(p, a).Some? }

  lemma ClashTakes(frags: seq<Fragment>, p: Pages, addr: nat, len: nat) returns (a: nat)
    requires FragsOk(frags) && frags == FragsAt(p, PageOf(addr))
    requires len > 0 && addr % PAGE_SIZE + len <= PAGE_SIZE && Clashes(frags, addr % PAGE_SIZE, len)
    ensures Taken(p, addr, len, a)
  {
    var off := addr % PAGE_SIZE;
    ClashesExactly(frags, off, len);
    var o :| off <= o < off + len && Source(frags, o).Some?;
    a := addr + (o - off);
    InPiece(addr, len, a);
  }

  lemma TakenClashes(frags: seq<Fragment>, p: Pages, addr: nat, len: nat, a: nat)
    requires FragsOk(frags) && frags == FragsAt(p, PageOf(addr))
    requires len > 0 && addr % PAGE_SIZE + len <= PAGE_SIZE && Taken(p, addr, len, a)
    ensures Clashes(frags, addr % PAGE_SIZE, len)
  {
    var off := addr % PAGE_SIZE;
    InPiece(addr, len, a);
    assert Source(frags, off + (a - addr)).Some?;
    ClashesExactly(frags, off, len);
  }

  lemma FragsAtOk(p: Pages, key: nat)
    requires PagesOk(p)
    ensures FragsOk(FragsAt(p, key))
  {
  }

  lemma PieceClashTakes(p: Pages, addr: nat, remaining: nat) returns (a: nat)
    requires PagesOk(p) && remaining > 0 && PieceClashes(p, addr, remaining)
    ensures Taken(p, addr, PieceLength(addr, remaining), a) && Within(addr, remaining, a)
  {
    PieceFits(addr, remaining);
    FragsAtOk(p, PageOf(addr));
    a := ClashTakes(FragsAt(p, PageOf(addr)), p, addr, PieceLength(addr, remaining));
  }

  lemma PieceTakenClashes(p: Pages, addr: nat, remaining: nat, a: nat)
    requires PagesOk(p) && remaining > 0 && Taken(p, addr, PieceLength(addr, remaining), a)
    ensures PieceClashes(p, addr, remaining)
  {
    PieceFits(addr, remaining);
    FragsAtOk(p, PageOf(addr));
    TakenClashes(FragsAt(p, PageOf(addr)), p, addr, PieceLength(addr, remaining), a);
  }

  lemma PieceKeepsPagesOk(p: Pages, addr: nat, remaining: nat, fileOffset: nat)
    requires PagesOk(p) && remaining > 0 && !PieceClashes(p, addr, remaining)
    ensures PagesOk(AfterPiece(p, addr, remaining, fileOffset))
  {
    PieceFits(addr, remaining);
    RecordKeepsPagesOk(p, PageOf(addr), Fragment(fileOffset, addr % PAGE_SIZE, PieceLength(addr, remaining)));
  }

  lemma SplitStep(p: Pages, addr: nat, remaining: nat, fileOffset: nat, r: Result<Pages>,
                  q: Pages, len: nat, next: nat, rest: nat, position: nat)
    requires remaining > 0 && !PieceClashes(p, addr, remaining) && r == Split(p, addr, remaining, fileOffset)
    requires q == AfterPiece(p, addr, remaining, fileOffset) && len == PieceLength(addr, remaining)
    requires next == addr + len && len + rest == remaining && position == fileOffset + len
    ensures Split(q, next, rest, position) == r
  {
  }

  lemma PieceImage(p: Pages, addr: nat, remaining: nat, fileOffset: nat, a: nat)
    requires remaining > 0
    ensures Image(AfterPiece(p, addr, remaining, fileOffset), a) ==
            if Within(addr, PieceLength(addr, remaining), a) then Some(fileOffset + (a - addr)) else Image(p, a)
  {
    RecordImage(p, PageOf(addr), Fragment(fileOffset, addr % PAGE_SIZE, PieceLength(addr, remaining)), a);
  }

  lemma PieceWasFree(p: Pages, addr: nat, remaining: nat, a: nat)
    requires PagesOk(p) && remaining > 0 && !PieceClashes(p, addr, remaining)
    ensures Within(addr, PieceLength(addr, remaining), a) ==> Image(p, a).None?
  {
    if Taken(p, addr, PieceLength(addr, remaining), a) { PieceTakenClashes(p, addr, remaining, a); }
  }

  /** Seen from address a, q is p with size bytes of the file at addr, where nothing was before. */
  ghost predicate Adds(p: Pages, q: Pages, addr: nat, size: nat, fileOffset: nat, a: nat) {
    && Image(q, a) == (if Within(addr, size, a) then Some(fileOffset + (a - addr)) else Image(p, a))
    && (Within(addr, size, a) ==> Image(p, a).None?)
  }

  lemma AddsNothing(p: Pages, addr: nat, fileOffset: nat, a: nat)
    ensures Adds(p, p, addr, 0, fileOffset, a)
  {
  }

  /** A piece and the rest of a segment. */
  lemma AddsBoth(p: Pages, q: Pages, r: Pages, addr: nat, len: nat, remaining: nat, fileOffset: nat, a: nat,
                 next: nat, rest: nat, position: nat)
    requires next == addr + len && len + rest == remaining && position == fileOffset + len
    requires Adds(p, q, addr, len, fileOffset, a) && Adds(q, r, next, rest, position, a)
    ensures Adds(p, r, addr, remaining, fileOffset, a)
  {
    assert position + (a - next) == fileOffset + (a - addr);
  }

  /** One round of the inner loop. */
  lemma SplitPeel(p: Pages, addr: nat, remaining: nat, fileOffset: nat, r: Result<Pages>, a: nat)
    returns (q: Pages, len: nat, next: nat, rest: nat, position: nat)
    requires PagesOk(p) && remaining > 0 && !PieceClashes(p, addr, remaining)
    requires Split(p, addr, remaining, fileOffset) == r
    ensures next == addr + len && len + rest == remaining && position == fileOffset + len
    ensures PagesOk(q) && 0 < len && Adds(p, q, addr, len, fileOffset, a)
    ensures Split(q, next, rest, position) == r
  {
    q, len := AfterPiece(p, addr, remaining, fileOffset), PieceLength(addr, remaining);
    PieceFits(addr, remaining);
    next, rest, position := addr + len, remaining - len, fileOffset + len;
    SplitStep(p, addr, remaining, fileOffset, r, q, len, next, rest, position);
    PieceKeepsPagesOk(p, addr, remaining, fileOffset);
    PieceAdds(p, addr, remaining, fileOffset, a, q, len);
  }

  lemma PieceAdds(p: Pages, addr: nat, remaining: nat, fileOffset: nat, a: nat, q: Pages, len: nat)
    requires PagesOk(p) && remaining > 0 && !PieceClashes(p, addr, remaining)
    requires q == AfterPiece(p, addr, remaining, fileOffset) && len == PieceLength(addr, remaining)
    ensures Adds(p, q, addr, len, fileOffset, a)
  {
    PieceImage(p, addr, remaining, fileOffset, a);
    PieceWasFree(p, addr, remaining, a);
  }

  lemma SplitOkPieceFree(p: Pages, addr: nat, remaining: nat, fileOffset: nat)
    requires remaining > 0 && Split(p, addr, remaining, fileOffset).Ok?
    ensures !PieceClashes(p, addr, remaining)
  {
  }

  /** A segment that is placed adds exactly its own bytes, none of which was taken. */
  lemma {:induction false} SplitPlaces(p: Pages, addr: nat, remaining: nat, fileOffset: nat, r: Pages, a: nat)
    requires PagesOk(p) && Split(p, addr, remaining, fileOffset) == Ok(r)
    ensures PagesOk(r) && Adds(p, r, addr, remaining, fileOffset, a)
    decreases remaining
  {
    if remaining > 0 {
      SplitOkPieceFree(p, addr, remaining, fileOffset);
      var q, len, next, rest, position := SplitPeel(p, addr, remaining, fileOffset, Ok(r), a);
      SplitPlaces(q, next, rest, position, r, a);
      AddsBoth(p, q, r, addr, len, remaining, fileOffset, a, next, rest, position);
    } else {
      AddsNothing(p, addr, fileOffset, a);
    }
  }

  ghost predicate Free(p: Pages, addr: nat, size: nat) {
    forall a: nat :: Within(addr, size, a) ==> Image(p, a).None?
  }

  lemma FreePieceFits(p: Pages, addr: nat, remaining: nat)
    requires PagesOk(p) && remaining > 0 && Free(p, addr, remaining)
    ensures !PieceClashes(p, addr, remaining)
  {
    if PieceClashes(p, addr, remaining) {
      var a := PieceClashTakes(p, addr, remaining);
    }
  }

  lemma FreeAfterPiece(p: Pages, addr: nat, remaining: nat, fileOffset: nat,
                       q: Pages, len: nat, next: nat, rest: nat)
    requires remaining > 0 && Free(p, addr, remaining)
    requires q == AfterPiece(p, addr, remaining, fileOffset) && len == PieceLength(addr, remaining)
    requires next == addr + len && len + rest == remaining
    ensures Free(q, next, rest)
  {
    forall a: nat | Within(next, rest, a) ensures Image(q, a).None? {
      PieceImage(p, addr, remaining, fileOffset, a);
    }
  }

  /** A segment none of whose bytes is taken is placed. */
  lemma {:induction false} SplitAccepts(p: Pages, addr: nat, remaining: nat, fileOffset: nat, r: Result<Pages>)
    requires PagesOk(p) && Free(p, addr, remaining) && r == Split(p, addr, remaining, fileOffset)
    ensures r.Ok?
    decreases remaining
  {
    if remaining > 0 {
      var q, len := AfterPiece(p, addr, remaining, fileOffset), PieceLength(addr, remaining);
      PieceFits(addr, remaining);
      var next, rest, position := addr + len, remaining - len, fileOffset + len;
      FreePieceFits(p, addr, remaining);
      FreeAfterPiece(p, addr, remaining, fileOffset, q, len, next, rest);
      PieceKeepsPagesOk(p, addr, remaining, fileOffset);
      SplitStep(p, addr, remaining, fileOffset, r, q, len, next, rest, position);
      SplitAccepts(q, next, rest, position, r);
    }
  }

  lemma {:induction false} SplitError(p: Pages, addr: nat, remaining: nat, fileOffset: nat)
    ensures Split(p, addr, remaining, fileOffset).Err? ==> Split(p, addr, remaining, fileOffset).error == Overlap
    decreases remaining
  {
    if remaining > 0 {
      var len := PieceLength(addr, remaining);
      SplitError(AfterPiece(p, addr, remaining, fileOffset), addr + len, remaining - len, fileOffset + len);
    }
  }

  /** A refused segment has a taken byte. */
  lemma SplitRefuses(p: Pages, addr: nat, remaining: nat, fileOffset: nat, e: Error) returns (a: nat)
    requires PagesOk(p) && Split(p, addr, remaining, fileOffset) == Err(e)
    ensures e == Overlap && Within(addr, remaining, a) && Image(p, a).Some?
  {
    SplitError(p, addr, remaining, fileOffset);
    if Free(p, addr, remaining) {
      SplitAccepts(p, addr, remaining, fileOffset, Err(e));
    }
    a :| Within(addr, remaining, a) && Image(p, a).Some?;
  }

  // ----- all segments

  /** The file position of the byte at a, by the last segment that has one. */
  function SegmentImage(segs: seq<Option<Segment>>, a: nat): Option<nat>
    decreases |segs|
  {
    if segs == [] then None
    else
      var later := SegmentImage(segs[1..], a);
      if later.Some? then later
      else if Backs(segs, 0, a) then Some(FileIndex(segs, 0, a)) else None
  }

  lemma BacksTail(segs: seq<Option<Segment>>, i: int, a: int)
    requires segs != [] && i >= 0
    ensures Backs(segs[1..], i, a) <==> Backs(segs, i + 1, a)
    ensures Backs(segs, i + 1, a) ==> FileIndex(segs[1..], i, a) == FileIndex(segs, i + 1, a)
  {
  }

  lemma {:induction false} SegmentImageBacked(segs: seq<Option<Segment>>, a: nat)
    ensures SegmentImage(segs, a).Some? <==> exists i :: Backs(segs, i, a)
    decreases |segs|
  {
    if segs != [] {
      var rest := segs[1..];
      SegmentImageBacked(rest, a);
      if i :| Backs(rest, i, a) {
        BacksTail(segs, i, a);
        assert Backs(segs, i + 1, a);
      }
      if i :| Backs(segs, i, a) {
        if i > 0 {
          BacksTail(segs, i - 1, a);
          assert Backs(rest, i - 1, a);
        }
      }
    }
  }

  /** Two different segments put a byte at the same address. */
  ghost predicate Overlapping(segs: seq<Option<Segment>>) {
    exists i, j, a :: i < j && Backs(segs, i, a) && Backs(segs, j, a)
  }

  lemma OverlapTail(segs: seq<Option<Segment>>)
    requires segs != [] && Overlapping(segs[1..])
    ensures Overlapping(segs)
  {
    var i, j, a :| i < j && Backs(segs[1..], i, a) && Backs(segs[1..], j, a);
    BacksTail(segs, i, a);
    BacksTail(segs, j, a);
    assert Backs(segs, i + 1, a) && Backs(segs, j + 1, a);
  }

  lemma OverlapHead(segs: seq<Option<Segment>>, j: int, a: int)
    requires segs != [] && Backs(segs, 0, a) && Backs(segs[1..], j, a)
    ensures Overlapping(segs)
  {
    BacksTail(segs, j, a);
    assert Backs(segs, j + 1, a);
  }

  /** Without overlap it does not matter which segment is asked. */
  lemma {:induction false} SegmentImageUnique(segs: seq<Option<Segment>>, i: int, a: nat)
    requires !Overlapping(segs) && Backs(segs, i, a)
    ensures SegmentImage(segs, a) == Some(FileIndex(segs, i, a))
    decreases |segs|
  {
    var rest := segs[1..];
    SegmentImageBacked(rest, a);
    if i == 0 {
      if j :| Backs(rest, j, a) { OverlapHead(segs, j, a); }
    } else {
      BacksTail(segs, i - 1, a);
      if Overlapping(rest) { OverlapTail(segs); }
      SegmentImageUnique(rest, i - 1, a);
    }
  }

  lemma BacksHead(segs: seq<Option<Segment>>, s: Segment, a: nat)
    requires segs != [] && segs[0] == Some(s)
    ensures Backs(segs, 0, a) <==> Loadable(s) && Within(s.paddr, s.filesz, a)
    ensures Backs(segs, 0, a) ==> FileIndex(segs, 0, a) == s.offset + (a - s.paddr)
  {
  }

  /** Placing one segment: seen from a, the pages change only if the segment backs a. */
  lemma PlaceOneAdds(p: Pages, s: Segment, ranges: seq<Range>, q: Pages, a: nat)
    requires PagesOk(p) && PlaceOne(p, s, ranges) == Ok(q)
    ensures PagesOk(q) && Adds(p, q, s.paddr, if Loadable(s) then s.filesz else 0, s.offset, a)
    ensures Loadable(s) ==> CheckAddressRange(ranges, s.paddr, s.filesz, true) == None
  {
    if Loadable(s) {
      SplitPlaces(p, s.paddr, s.filesz, s.offset, q, a);
    } else {
      AddsNothing(p, s.paddr, s.offset, a);
    }
  }

  /** What a segment list does to its first byte at a: taken from the file, from a place free before. */
  ghost predicate HeadAdds(p: Pages, q: Pages, segs: seq<Option<Segment>>, a: nat) {
    && Image(q, a) == (if Backs(segs, 0, a) then Some(FileIndex(segs, 0, a)) else Image(p, a))
    && (Backs(segs, 0, a) ==> Image(p, a).None?)
  }

  lemma HeadPlaces(p: Pages, segs: seq<Option<Segment>>, ranges: seq<Range>, a: nat, s: Segment, q: Pages)
    requires PagesOk(p) && segs != [] && segs[0] == Some(s) && PlaceOne(p, s, ranges) == Ok(q)
    ensures PagesOk(q) && HeadAdds(p, q, segs, a)
    ensures Loadable(s) ==> CheckAddressRange(ranges, s.paddr, s.filesz, true) == None
  {
    PlaceOneAdds(p, s, ranges, q, a);
    BacksHead(segs, s, a);
  }

  lemma AdmissibleTail(segs: seq<Option<Segment>>, ranges: seq<Range>)
    requires segs != [] && segs[0].Some?
    requires Loadable(segs[0].value) ==>
               CheckAddressRange(ranges, segs[0].value.paddr, segs[0].value.filesz, true) == None
    ensures Admissible(segs, ranges) <==> Admissible(segs[1..], ranges)
  {
    assert forall i :: 0 < i < |segs| ==> segs[i] == segs[1..][i - 1];
    assert forall i :: 0 <= i < |segs[1..]| ==> segs[1..][i] == segs[i + 1];
  }

  /** A successful placing, after its first round. */
  lemma PlaceTail(p: Pages, segs: seq<Option<Segment>>, ranges: seq<Range>, r: Pages) returns (s: Segment, q: Pages)
    requires segs != [] && Place(p, segs, ranges) == Ok(r)
    ensures segs[0] == Some(s) && PlaceOne(p, s, ranges) == Ok(q) && Place(q, segs[1..], ranges) == Ok(r)
  {
    s := segs[0].value;
    q := PlaceOne(p, s, ranges).value;
  }

  /** Placing succeeds: the pages hold the segments' image on top of what they held, and nothing was taken before. */
  lemma {:induction false} PlacePlaces(p: Pages, segs: seq<Option<Segment>>, ranges: seq<Range>, a: nat, r: Pages)
    requires PagesOk(p) && Place(p, segs, ranges) == Ok(r)
    ensures Admissible(segs, ranges) && PagesOk(r)
    ensures var s := SegmentImage(segs, a);
            && Image(r, a) == (if s.Some? then s else Image(p, a))
            && (s.Some? ==> Image(p, a).None?)
    decreases |segs|
  {
    if segs != [] {
      var s, q := PlaceTail(p, segs, ranges, r);
      HeadPlaces(p, segs, ranges, a, s, q);
      PlacePlaces(q, segs[1..], ranges, a, r);
      AdmissibleTail(segs, ranges);
    }
  }

  /** No later segment claims a byte of the first. */
  lemma HeadClaimsOnce(p: Pages, segs: seq<Option<Segment>>, ranges: seq<Range>, j: int, a: nat, r: Pages)
    requires PagesOk(p) && Place(p, segs, ranges) == Ok(r) && Backs(segs, 0, a)
    ensures !Backs(segs[1..], j, a)
  {
    var s, q := PlaceTail(p, segs, ranges, r);
    HeadPlaces(p, segs, ranges, a, s, q);
    PlacePlaces(q, segs[1..], ranges, a, r);
    SegmentImageBacked(segs[1..], a);
  }

  /** Nothing is claimed twice. */
  lemma {:induction false} PlaceClaimsOnce(p: Pages, segs: seq<Option<Segment>>, ranges: seq<Range>,
                                           i: int, j: int, a: nat, r: Pages)
    requires PagesOk(p) && Place(p, segs, ranges) == Ok(r) && i < j && Backs(segs, i, a)
    ensures !Backs(segs, j, a)
    decreases |segs|
  {
    BacksTail(segs, j - 1, a);
    if i == 0 {
      HeadClaimsOnce(p, segs, ranges, j - 1, a, r);
    } else {
      BacksTail(segs, i - 1, a);
      var s, q := PlaceTail(p, segs, ranges, r);
      HeadPlaces(p, segs, ranges, a, s, q);
      PlaceClaimsOnce(q, segs[1..], ranges, i - 1, j - 1, a, r);
    }
  }

  /** A byte that stops the placing: of segment j, and taken before. */
  ghost predicate Stops(p: Pages, segs: seq<Option<Segment>>, j: nat, a: nat) {
    Backs(segs, j, a) && (Image(p, a).Some? || exists i :: i < j && Backs(segs, i, a))
  }

  lemma HeadStops(p: Pages, segs: seq<Option<Segment>>, ranges: seq<Range>, s: Segment, e: Error) returns (a: nat)
    requires PagesOk(p) && segs != [] && segs[0] == Some(s) && PlaceOne(p, s, ranges) == Err(e)
    requires Loadable(s) ==> CheckAddressRange(ranges, s.paddr, s.filesz, true) == None
    ensures e == Overlap && Stops(p, segs, 0, a)
  {
    a := SplitRefuses(p, s.paddr, s.filesz, s.offset, e);
    BacksHead(segs, s, a);
  }

  lemma LaterStops(p: Pages, segs: seq<Option<Segment>>, ranges: seq<Range>, s: Segment, q: Pages, k: nat, a: nat)
    requires PagesOk(p) && segs != [] && segs[0] == Some(s) && PlaceOne(p, s, ranges) == Ok(q)
    requires Stops(q, segs[1..], k, a)
    ensures Stops(p, segs, k + 1, a)
  {
    HeadPlaces(p, segs, ranges, a, s, q);
    ClaimedBefore(segs, k, a);
    if Backs(segs, 0, a) {
      assert exists i :: i < k + 1 && Backs(segs, i, a);
    }
  }

  /** Placing admissible segments fails only with an overlap, and then there is a doubly claimed byte. */
  lemma {:induction false} PlaceRefuses(p: Pages, segs: seq<Option<Segment>>, ranges: seq<Range>, e: Error)
    returns (j: nat, a: nat)
    requires PagesOk(p) && Admissible(segs, ranges) && Place(p, segs, ranges) == Err(e)
    ensures e == Overlap && Stops(p, segs, j, a)
    decreases |segs|
  {
    var s := segs[0].value;
    var r := PlaceOne(p, s, ranges);
    if r.Err? {
      j := 0;
      a := HeadStops(p, segs, ranges, s, e);
    } else {
      HeadPlaces(p, segs, ranges, 0, s, r.value);
      AdmissibleTail(segs, ranges);
      j, a := PlaceRefuses(r.value, segs[1..], ranges, e);
      LaterStops(p, segs, ranges, s, r.value, j, a);
      j := j + 1;
    }
  }

  lemma ClaimedBefore(segs: seq<Option<Segment>>, j: nat, a: nat)
    requires segs != [] && Backs(segs[1..], j, a)
    ensures Backs(segs, j + 1, a)
    ensures (exists i :: i < j && Backs(segs[1..], i, a)) ==> exists i :: i < j + 1 && Backs(segs, i, a)
  {
    BacksTail(segs, j, a);
    if i :| i < j && Backs(segs[1..], i, a) {
      BacksTail(segs, i, a);
      assert Backs(segs, i + 1, a);
    }
  }

  const NO_PAGES := Pages([], map[])

  /** Among admissible inputs the overlap error is raised exactly when two segments claim a byte. */
  lemma OverlapExactly(segs: seq<Option<Segment>>, ranges: seq<Range>)
    requires Admissible(segs, ranges)
    ensures Place(NO_PAGES, segs, ranges) == Err(Overlap) <==> Overlapping(segs)
    ensures Place(NO_PAGES, segs, ranges).Ok? <==> !Overlapping(segs)
  {
    var r := Place(NO_PAGES, segs, ranges);
    if r.Err? {
      var j, a := PlaceRefuses(NO_PAGES, segs, ranges, r.error);
      var i :| i < j && Backs(segs, i, a);
    } else if i, j, a :| i < j && Backs(segs, i, a) && Backs(segs, j, a) {
      PlaceClaimsOnce(NO_PAGES, segs, ranges, i, j, a, r.value);
    }
  }
}
