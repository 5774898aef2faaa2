/** The converter's own loops, over a page dictionary that is filled in place. */
module Uf2Program {
  import opened Prelude
  import opened Uf2Pages
  import opened Uf2Blocks

  /** check_address_range: the first containing range decides; warnings are not modelled. */
  method FindRange(ranges: seq<Range>, addr: nat, size: nat, isPhys: bool) returns (error: Option<Error>)
    ensures error == CheckAddressRange(ranges, addr, size, isPhys)
  {
    var i := 0;
    while i < |ranges|
      invariant i <= |ranges|
      invariant CheckAddressRange(ranges, addr, size, isPhys) == CheckAddressRange(ranges[i..], addr, size, isPhys)
    {
      var r := ranges[i];
      if r.start <= addr && r.end >= addr + size {
        if isPhys && r.kind.NoContents? && size != 0 {
          return Some(Uninitialized);
        }
        return None;
      }
      i := i + 1;
    }
    if size != 0 && isPhys {
      return Some(OutsideRanges);
    }
    return None;
  }

  class PageTable {
    var order: seq<nat>
    var frags: map<nat, seq<Fragment>>

    function View(): Pages
      reads this
    {
      Pages(order, frags)
    }

    constructor ()
      ensures View() == NO_PAGES
    {
      order, frags := [], map[];
    }

    /** Appends one fragment to its page unless it clashes with what the page holds. */
    method Add(key: nat, off: nat, len: nat, fileOffset: nat) returns (clash: bool)
      modifies this
      ensures clash == Clashes(FragsAt(old(View()), key), off, len)
      ensures View() == if clash then old(View()) else Record(old(View()), key, Fragment(fileOffset, off, len))
    {
      var fragments := if key in frags then frags[key] else [];
      var i := 0;
      while i < |fragments|
        invariant i <= |fragments|
        invariant forall j :: 0 <= j < i ==> !ClashesWith(fragments[j], off, len)
      {
        var pageOffset, byteCount := fragments[i].pageOffset, fragments[i].byteCount;
        if (off < pageOffset + byteCount) != (off + len <= pageOffset) {
          assert ClashesWith(fragments[i], off, len);
          return true;
        }
        i := i + 1;
      }
      clash := false;
      if key !in frags {
        order := order + [key];
      }
      frags := frags[key := fragments + [Fragment(fileOffset, off, len)]];
    }

    /** One round of the inner loop: cuts a piece at the page boundary and adds it. */
    method AddPiece(addr: nat, remaining: nat, fileOffset: nat, ghost target: Result<Pages>)
      returns (len: nat, clash: bool)
      requires remaining > 0 && target == Split(View(), addr, remaining, fileOffset)
      modifies this
      ensures 0 < len <= remaining
      ensures target == if clash then Err(Overlap) else Split(View(), addr + len, remaining - len, fileOffset + len)
    {
      var off := addr % PAGE_SIZE;
      len := if remaining < PAGE_SIZE - off then remaining else PAGE_SIZE - off;
      ghost var p := View();
      clash := Add(addr - off, off, len, fileOffset);
      PieceRound(p, addr, remaining, fileOffset, off, len, clash, View());
      if !clash {
        SplitStep(p, addr, remaining, fileOffset, target, View(), len, addr + len, remaining - len, fileOffset + len);
      }
    }

    /** The inner loop: cuts one segment at page boundaries. */
    method AddSegment(s: Segment) returns (error: Option<Error>)
      modifies this
      ensures Split(old(View()), s.paddr, s.filesz, s.offset)
           == if error.Some? then Err(error.value) else Ok(View())
    {
      var addr: nat, remaining: nat, fileOffset: nat := s.paddr, s.filesz, s.offset;
      ghost var target := Split(View(), addr, remaining, fileOffset);
      while remaining > 0
        invariant target == Split(View(), addr, remaining, fileOffset)
      {
        var len, clash := AddPiece(addr, remaining, fileOffset, target);
        if clash {
          return Some(Overlap);
        }
        addr, fileOffset, remaining := addr + len, fileOffset + len, remaining - len;
      }
      error := None;
    }

    /** One round of the outer loop, for a program header that could be read. */
    method PlaceSegment(s: Segment, ranges: seq<Range>) returns (error: Option<Error>)
      modifies this
      ensures PlaceOne(old(View()), s, ranges) == if error.Some? then Err(error.value) else Ok(View())
    {
      error := None;
      if s.kind == PT_LOAD && s.memsz != 0 {
        error := FindRange(ranges, s.paddr, s.filesz, true);
        if error.Some? {
          return;
        }
        error := FindRange(ranges, s.vaddr, s.memsz, false);
        ghost var k := AddressRangeVerdict(ranges, s.vaddr, s.memsz, false);
        error := AddSegment(s);
      }
    }

    /** read_and_check_elf32_ph_entries. */
    method ReadAndCheck(buffer: seq<Byte>, phOffset: nat, phNum: nat, ranges: seq<Range>) returns (error: Option<Error>)
      modifies this
      ensures Place(old(View()), Headers(buffer, phOffset, phNum), ranges)
           == if error.Some? then Err(error.value) else Ok(View())
    {
      ghost var segs := Headers(buffer, phOffset, phNum);
      ghost var target := Place(View(), segs, ranges);
      var ph := 0;
      while ph < phNum
        invariant ph <= phNum
        invariant target == Place(View(), segs[ph..], ranges)
      {
        var header := Header(buffer, phOffset + 32 * ph);
        assert segs[ph..][0] == header && segs[ph..][1..] == segs[ph + 1..];
        if header.None? {
          return Some(ShortHeader);
        }
        error := PlaceSegment(header.value, ranges);
        if error.Some? {
          return;
        }
        ph := ph + 1;
      }
      error := None;
    }
  }

  lemma PieceRound(p: Pages, addr: nat, remaining: nat, fileOffset: nat, off: nat, len: nat, clash: bool, q: Pages)
    requires remaining > 0 && off == addr % PAGE_SIZE && len == Min(remaining, PAGE_SIZE - off)
    requires clash == Clashes(FragsAt(p, addr - off), off, len)
    requires !clash ==> q == Record(p, addr - off, Fragment(fileOffset, off, len))
    ensures 0 < len <= remaining && len == PieceLength(addr, remaining) && clash == PieceClashes(p, addr, remaining)
    ensures !clash ==> q == AfterPiece(p, addr, remaining, fileOffset)
  {
  }

  /** realize_page: the fragments are copied over a zeroed data field, one after the other. */
  method RealizePage(buffer: seq<Byte>, page: seq<Fragment>) returns (r: Result<seq<Byte>>)
    requires forall i :: 0 <= i < |page| ==> page[i].pageOffset + page[i].byteCount <= PAGE_SIZE
    ensures r == if Extractable(buffer, page) then Ok(Realized(buffer, page)) else Err(FailedExtract)
  {
    var result: seq<Byte> := seq(DATA_SIZE, _ => 0);
    var i := 0;
    while i < |page|
      invariant i <= |page| && |result| == DATA_SIZE
      invariant Extractable(buffer, page[..i])
      invariant forall o :: 0 <= o < DATA_SIZE ==> result[o] == PageByte(buffer, page[..i], o)
    {
      var f := page[i];
      if f.fileOffset + f.byteCount > |buffer| {
        return Err(FailedExtract);
      }
      var data := buffer[f.fileOffset..f.fileOffset + f.byteCount];
      ghost var before := result;
      if f.pageOffset == 0 {
        result := data + result[f.byteCount..];
      } else {
        result := result[..f.pageOffset] + data + result[f.pageOffset + f.byteCount..];
      }
      assert page[..i + 1][..i] == page[..i];
      forall o | 0 <= o < DATA_SIZE ensures result[o] == PageByte(buffer, page[..i + 1], o) {
        assert result[o] == if Covers(f, o) then buffer[f.fileOffset + (o - f.pageOffset)] else before[o];
      }
      i := i + 1;
    }
    assert page[..i] == page && result == Realized(buffer, page);
    r := Ok(result);
  }

  /** The block loop of convert_data over the items of the page dictionary. */
  method WriteBlocks(buffer: seq<Byte>, p: Pages, family: nat) returns (r: Result<seq<Byte>>)
    requires forall key :: key in p.order ==> key in p.frags
    requires forall key :: key in p.frags ==> FragsOk(p.frags[key])
    ensures r == Emit(buffer, p, family, |p.order|)
  {
    var content: seq<Byte> := [];
    var pageNum := 0;
    while pageNum < |p.order|
      invariant pageNum <= |p.order|
      invariant Emit(buffer, p, family, pageNum) == Ok(content)
    {
      var key := p.order[pageNum];
      var data := RealizePage(buffer, p.frags[key]);
      if data.Err? || key >= WORD || |p.order| >= WORD || family >= WORD {
        EmitStops(buffer, p, family, pageNum + 1, |p.order|);
        return if data.Err? then data else Err(FieldTooWide);
      }
      content := content + Block(key, pageNum, |p.order|, family, data.value);
      assert Emit(buffer, p, family, pageNum + 1) == Ok(content);
      pageNum := pageNum + 1;
    }
    r := Ok(content);
  }

  /** convert_data, after the ELF header has been read. */
  method ConvertData(buffer: seq<Byte>, phOffset: nat, phNum: nat, ranges: seq<Range>, family: nat)
    returns (r: Result<seq<Byte>>)
    ensures r == Convert(buffer, phOffset, phNum, ranges, family)
  {
    var table := new PageTable();
    var error := table.ReadAndCheck(buffer, phOffset, phNum, ranges);
    if error.Some? {
      return Err(error.value);
    }
    if |table.order| == 0 {
      return Err(NoPages);
    }
    PlacePlaces(NO_PAGES, Headers(buffer, phOffset, phNum), ranges, 0, table.View());
    r := WriteBlocks(buffer, table.View(), family);
  }

  /** The first page that cannot be written ends the conversion. */
  lemma {:induction false} EmitStops(buffer: seq<Byte>, p: Pages, family: nat, m: nat, n: nat)
    requires m <= n <= |p.order| && Emit(buffer, p, family, m).Err?
    ensures Emit(buffer, p, family, n) == Emit(buffer, p, family, m)
  {
    if m < n {
      EmitStops(buffer, p, family, m, n - 1);
    }
  }
}
