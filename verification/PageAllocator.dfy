/**
 * PageAllocator of memory.h: blocks carved out of pages that come straight from the kernel. The
 * kernel's answer to a request for pages is a parameter.
 */
module PageAllocators {
  import opened Addresses
  import opened Options

  /** sizeof(PageHeader). */
  const HEADER := 16

  /** PageHeader, at the start of pages mapped together; a null pointer is zero. */
  datatype Header = Header(next: Address, pages: nat)

  /** Pages mapped together. */
  datatype Chunk = Chunk(start: Address, pages: nat)

  /** Memory handed out. */
  datatype Block = Block(start: Address, size: nat)

  /** getpagesize() returns an int. */
  predicate PageSize(page: int) {
    HEADER < page <= 0x7FFF_FFFF
  }

  function Size(pages: int, page: int): int {
    pages * page
  }

  // ---------------------------------------------------------------------------------------
  // Counting pages
  // ---------------------------------------------------------------------------------------

  /** The pages that Alloc asks for, in 64-bit arithmetic. */
  function PagesFor(bytes: Address, page: Address): nat
    requires page > 0
  {
    Quotient(Minus(Plus(Plus(bytes, HEADER), page), 1), page)
  }

  function Quotient(a: nat, b: nat): nat
    requires b > 0
  {
    a / b
  }

  /** The computation of the number of pages does not wrap around. */
  predicate Fits(bytes: Address, page: Address) {
    bytes + HEADER + page - 1 < SPACE
  }

  /** As many pages as the bytes and the header need, and no more. */
  lemma PagesExact(bytes: Address, page: Address)
    requires PageSize(page) && Fits(bytes, page)
    ensures var n := PagesFor(bytes, page); n >= 1 && Size(n - 1, page) < bytes + HEADER <= Size(n, page)
  {
    var need := bytes + HEADER + page - 1;
    assert Minus(Plus(Plus(bytes, HEADER), page), 1) == need;
    var n := need / page;
    assert need == n * page + need % page;
    assert Size(n - 1, page) == n * page - page;
  }

  lemma WrappedPages(bytes: Address, page: Address)
    requires PageSize(page) && !Fits(bytes, page)
    ensures Size(PagesFor(bytes, page), page) < HEADER + bytes
  {
    var need := Minus(Plus(Plus(bytes, HEADER), page), 1);
    assert need == bytes + HEADER + page - 1 - SPACE;
    assert need / page * page <= need;
  }

  /** A block of the requested size fits behind the header of the pages asked for exactly when nothing wraps. */
  lemma RoomExactlyIfFits(bytes: Address, page: Address)
    requires PageSize(page)
    ensures Fits(bytes, page) <==> HEADER + bytes <= Size(PagesFor(bytes, page), page)
  {
    if Fits(bytes, page) {
      PagesExact(bytes, page);
    } else {
      WrappedPages(bytes, page);
    }
  }

  /** The pages asked for never exceed the address space. */
  lemma PagesBounded(bytes: Address, page: Address)
    requires page > 0
    ensures 0 <= Size(PagesFor(bytes, page), page) < SPACE
  {
    var need := Minus(Plus(Plus(bytes, HEADER), page), 1);
    assert need / page * page <= need;
  }

  /** The offset that Alloc leaves in the last page, in 64-bit arithmetic. */
  function OffsetAfter(bytes: Address, page: Address): Address
    requires page > 0
  {
    PagesBounded(bytes, page);
    Minus(page, Minus(Size(PagesFor(bytes, page), page), Plus(bytes, HEADER))) % page
  }

  /** The last page is used up to the end of the block; a full page leaves offset zero. */
  lemma OffsetExact(bytes: Address, page: Address)
    requires PageSize(page) && Fits(bytes, page)
    ensures var n, off := PagesFor(bytes, page), OffsetAfter(bytes, page);
            && off < page && (off != 0 ==> Size(n - 1, page) + off == bytes + HEADER)
            && (off == 0 <==> bytes + HEADER == Size(n, page))
  {
    var n := PagesFor(bytes, page);
    PagesExact(bytes, page);
    PagesBounded(bytes, page);
    assert Size(n, page) == Size(n - 1, page) + page;
    OffsetOf(Size(n, page), bytes + HEADER, page);
  }

  lemma OffsetOf(size: Address, need: Address, page: Address)
    requires 0 < page && size - page < need <= size
    ensures var off := Minus(page, Minus(size, need)) % page;
            (off != 0 ==> size - page + off == need) && (off == 0 <==> need == size)
  {
    var slack := size - need;
    assert Minus(size, need) == slack && Minus(page, slack) == page - slack;
  }

  /** Asking for all of the address space yields one page. */
  lemma WrapExample()
    ensures PagesFor(0xFFFF_FFFF_FFFF_FFFF, 4096) == 1
  {
  }

  // ---------------------------------------------------------------------------------------
  // Chunks and blocks
  // ---------------------------------------------------------------------------------------

  ghost function End(c: Chunk, page: int): int {
    c.start + Size(c.pages, page)
  }

  /** The block lies in the chunk behind its header. */
  ghost predicate Inside(b: Block, c: Chunk, page: int) {
    c.start + HEADER <= b.start && b.start + b.size <= End(c, page)
  }

  ghost predicate ChunksApart(c: Chunk, d: Chunk, page: int) {
    End(c, page) <= d.start || End(d, page) <= c.start
  }

  ghost predicate BlocksApart(a: Block, b: Block) {
    a.start + a.size <= b.start || b.start + b.size <= a.start
  }

  /** Chunks lie apart in the address space. */
  ghost predicate Mapped(cs: seq<Chunk>, page: int) {
    && (forall i :: 0 <= i < |cs| ==> cs[i].start < End(cs[i], page) <= SPACE)
    && (forall i, j :: 0 <= i < j < |cs| ==> ChunksApart(cs[i], cs[j], page))
  }

  ghost predicate Housed(b: Block, cs: seq<Chunk>, page: int) {
    b.size > 0 && exists k :: 0 <= k < |cs| && Inside(b, cs[k], page)
  }

  /** Where the last block ends. */
  ghost function LastEnd(bs: seq<Block>): int {
    if bs == [] then 0 else bs[|bs| - 1].start + bs[|bs| - 1].size
  }

  /** Blocks lie apart, each in one chunk behind its header. */
  ghost predicate Carved(bs: seq<Block>, cs: seq<Chunk>, page: int) {
    && (forall i :: 0 <= i < |bs| ==> Housed(bs[i], cs, page))
    && (forall i, j :: 0 <= i < j < |bs| ==> BlocksApart(bs[i], bs[j]))
  }

  /** The blocks of chunk `c` end before `mark`, which is behind its header. */
  ghost predicate UsedUpTo(bs: seq<Block>, c: Chunk, mark: int, page: int) {
    && c.start + HEADER <= mark <= End(c, page)
    && forall i :: 0 <= i < |bs| && Inside(bs[i], c, page) ==> bs[i].start + bs[i].size <= mark
  }

  /** A block in one chunk is apart from the chunks before it. */
  lemma ElsewhereApart(bs: seq<Block>, cs: seq<Chunk>, page: int, i: nat, b: Block)
    requires cs != [] && Mapped(cs, page) && Carved(bs, cs, page) && i < |bs| && Inside(b, cs[0], page)
    ensures Inside(bs[i], cs[0], page) || BlocksApart(bs[i], b)
  {
    assert Housed(bs[i], cs, page);
    var k :| 0 <= k < |cs| && Inside(bs[i], cs[k], page);
    if k > 0 {
      assert ChunksApart(cs[0], cs[k], page);
    }
  }

  /** A block behind the mark of the first chunk is apart from all others. */
  lemma CarveMore(bs: seq<Block>, cs: seq<Chunk>, page: int, mark: int, b: Block)
    requires cs != [] && Mapped(cs, page) && Carved(bs, cs, page) && UsedUpTo(bs, cs[0], mark, page)
    requires b.start == mark && b.size > 0 && b.start + b.size <= End(cs[0], page)
    ensures Carved(bs + [b], cs, page) && UsedUpTo(bs + [b], cs[0], mark + b.size, page)
  {
    assert Inside(b, cs[0], page);
    assert Housed(b, cs, page);
    var all := bs + [b];
    forall i | 0 <= i < |all| ensures Housed(all[i], cs, page) {
      if i < |bs| {
        assert Housed(bs[i], cs, page);
      }
    }
    forall i, j | 0 <= i < j < |all| ensures BlocksApart(all[i], all[j]) {
      if j < |bs| {
        assert BlocksApart(bs[i], bs[j]);
      } else {
        ElsewhereApart(bs, cs, page, i, b);
      }
    }
  }

  /** A chunk that the kernel puts apart from the others holds no blocks yet. */
  lemma NewChunk(bs: seq<Block>, cs: seq<Chunk>, page: int, c: Chunk)
    requires Mapped(cs, page) && Carved(bs, cs, page) && c.start + HEADER <= End(c, page) <= SPACE
    requires forall i :: 0 <= i < |cs| ==> ChunksApart(c, cs[i], page)
    ensures Mapped([c] + cs, page) && Carved(bs, [c] + cs, page) && UsedUpTo(bs, c, c.start + HEADER, page)
  {
    var all := [c] + cs;
    forall i, j | 0 <= i < j < |all| ensures ChunksApart(all[i], all[j], page) {
      if i > 0 {
        assert ChunksApart(cs[i - 1], cs[j - 1], page);
      }
    }
    forall i | 0 <= i < |bs| ensures Housed(bs[i], all, page) && !Inside(bs[i], c, page) {
      assert Housed(bs[i], cs, page);
      var k :| 0 <= k < |cs| && Inside(bs[i], cs[k], page);
      assert all[k + 1] == cs[k] && ChunksApart(c, cs[k], page);
    }
  }

  // ---------------------------------------------------------------------------------------
  // The list of headers
  // ---------------------------------------------------------------------------------------

  /** From `head` the headers in memory lead through the chunks, in order, to a null pointer. */
  ghost predicate Linked(memory: map<Address, Header>, head: Address, cs: seq<Chunk>)
    decreases |cs|
  {
    if cs == [] then head == 0
    else
      && head != 0 && head == cs[0].start && head in memory && memory[head].pages == cs[0].pages
      && Linked(memory, memory[head].next, cs[1..])
  }

  ghost predicate Elsewhere(cs: seq<Chunk>, a: Address) {
    forall i :: 0 <= i < |cs| ==> cs[i].start != a
  }

  /** What happens to memory at an address that is not the start of a chunk does not matter to the list. */
  lemma {:induction false} LinkedElsewhere(m: map<Address, Header>, m': map<Address, Header>, head: Address,
                                           cs: seq<Chunk>, a: Address)
    requires Linked(m, head, cs) && Elsewhere(cs, a)
    requires forall b: Address :: b != a && b in m ==> b in m' && m'[b] == m[b]
    ensures Linked(m', head, cs)
    decreases |cs|
  {
    if cs != [] {
      assert cs[0].start != a;
      LinkedElsewhere(m, m', m[head].next, cs[1..], a);
    }
  }

  lemma ApartElsewhere(cs: seq<Chunk>, c: Chunk, page: int)
    requires Mapped(cs, page) && c.start < End(c, page)
    requires forall i :: 0 <= i < |cs| ==> ChunksApart(c, cs[i], page)
    ensures Elsewhere(cs, c.start)
  {
  }

  lemma FirstElsewhere(cs: seq<Chunk>, page: int)
    requires Mapped(cs, page) && cs != []
    ensures Elsewhere(cs[1..], cs[0].start) && Mapped(cs[1..], page)
  {
    forall i | 0 <= i < |cs[1..]| ensures cs[1..][i].start != cs[0].start {
      assert ChunksApart(cs[0], cs[i + 1], page);
    }
  }

  lemma FirstBound(cs: seq<Chunk>, page: int)
    requires Mapped(cs, page) && cs != []
    ensures End(cs[0], page) <= SPACE
  {
  }

  /** Memory without the headers of the chunks. */
  ghost function Without(memory: map<Address, Header>, cs: seq<Chunk>): map<Address, Header> {
    map a | a in memory && Elsewhere(cs, a) :: memory[a]
  }

  lemma WithoutFirst(memory: map<Address, Header>, cs: seq<Chunk>)
    requires cs != []
    ensures Without(memory - {cs[0].start}, cs[1..]) == Without(memory, cs)
  {
    forall a: Address ensures Elsewhere(cs, a) <==> a != cs[0].start && Elsewhere(cs[1..], a) {
      assert cs == [cs[0]] + cs[1..];
    }
  }

  // ---------------------------------------------------------------------------------------
  // The allocator
  // ---------------------------------------------------------------------------------------

  class PageAllocator {
    const page: Address
    /** The headers that can be read: those at the start of pages that are mapped. */
    var memory: map<Address, Header>
    var last: Address
    var current: Option<Address>
    var offset: Address
    /** The pages obtained so far, the last first, and the blocks handed out. */
    ghost var chunks: seq<Chunk>
    ghost var blocks: seq<Block>

    ghost predicate Valid()
      reads this
    {
      && PageSize(page) && Linked(memory, last, chunks) && Mapped(chunks, page) && Carved(blocks, chunks, page)
      && (current.Some? ==>
            && chunks != [] && 0 < offset < page
            && current.value == chunks[0].start + Size(chunks[0].pages - 1, page)
            && UsedUpTo(blocks, chunks[0], current.value + offset, page))
      && (chunks == [] <==> blocks == [])
      && (chunks != [] ==>
            LastEnd(blocks) == if current.Some? then current.value + offset else End(chunks[0], page))
    }

    constructor (pageSize: Address)
      requires PageSize(pageSize)
      ensures Valid() && page == pageSize && chunks == [] && blocks == []
    {
      page := pageSize;
      memory, last, current, offset := map[], 0, None, 0;
      chunks, blocks := [], [];
    }

    /** The kernel may map `pages` pages at `a`. */
    ghost predicate Mappable(a: Address, pages: nat)
      reads this
    {
      && a != 0 && pages >= 1 && a + Size(pages, page) <= SPACE
      && forall i :: 0 <= i < |chunks| ==> ChunksApart(Chunk(a, pages), chunks[i], page)
    }

    /**
     * GetNPages; `answer` is where mmap puts the pages, or None when it fails. The list leads through
     * the new pages too.
     */
    method GetNPages(pages: nat, answer: Option<Address>) returns (r: Option<Address>)
      requires Linked(memory, last, chunks) && Mapped(chunks, page) && PageSize(page)
      requires answer.Some? ==> Mappable(answer.value, pages)
      modifies this`memory, this`last, this`chunks
      ensures r == answer && (r.None? ==> unchanged(this))
      ensures Linked(memory, last, chunks) && Mapped(chunks, page)
      ensures r.Some? ==> chunks == [Chunk(r.value, pages)] + old(chunks)
    {
      if answer.None? {
        return None;
      }
      var a := answer.value;
      ghost var c := Chunk(a, pages);
      FullPages(pages, page);
      NewChunk([], chunks, page, c);
      ApartElsewhere(chunks, c, page);
      hide Size, Mapped;
      LinkedElsewhere(memory, memory[a := Header(last, pages)], last, chunks, a);
      memory := memory[a := Header(last, pages)];
      last, chunks := a, [c] + chunks;
      return answer;
    }

    /** There is room in the current page. */
    predicate RoomNow(bytes: Address)
      reads this
    {
      current.Some? && bytes <= Minus(page, offset)
    }

    /** There is room exactly if the request fits behind the last block in the chunk obtained last. */
    lemma RoomBehind(bytes: Address)
      requires Valid() && bytes > 0
      ensures RoomNow(bytes) <==> chunks != [] && LastEnd(blocks) + bytes <= End(chunks[0], page)
    {
      hide Linked, Mapped, Carved, UsedUpTo, Size, LastEnd;
      if chunks != [] {
        LastPage(chunks[0], page);
      }
    }

    /**
     * Hand out `bytes` bytes. `answer` is what mmap answers if it is asked, which is for pages apart
     * from those in use. Nothing is handed out, and nothing changes, for an empty request or when
     * mmap fails. Otherwise the block is apart from all blocks before and lies in one chunk behind
     * its header, provided that the number of pages was computed without wrapping.
     */
    method Alloc(bytes: Address, answer: Option<Address>) returns (r: Option<Address>)
      requires Valid() && (answer.Some? ==> Mappable(answer.value, PagesFor(bytes, page)))
      modifies this
      ensures r.None? <==> bytes == 0 || (!old(RoomNow(bytes)) && answer.None?)
      ensures r.None? ==> unchanged(this)
      ensures r.Some? && (old(RoomNow(bytes)) || Fits(bytes, page)) ==>
                Valid() && blocks == old(blocks) + [Block(r.value, bytes)]
      ensures r.Some? ==> chunks == if old(RoomNow(bytes)) then old(chunks)
                                    else [Chunk(answer.value, PagesFor(bytes, page))] + old(chunks)
      ensures r.Some? && !old(RoomNow(bytes)) && !Fits(bytes, page) ==> !Inside(Block(r.value, bytes), chunks[0], page)
      ensures r.Some? ==> r.value == if old(RoomNow(bytes)) then old(LastEnd(blocks)) else answer.value + HEADER
    {
      hide Linked, Mapped, Carved, UsedUpTo, ChunksApart, PagesFor, Size, Fits, Inside;
      if bytes == 0 {
        return None;
      }
      if current.Some? && Minus(page, offset) >= bytes {
        ghost var mark := current.value + offset;
        LastPage(chunks[0], page);
        FirstBound(chunks, page);
        CarveMore(blocks, chunks, page, mark, Block(mark, bytes));
        r := Some(current.value + offset);
        blocks := blocks + [Block(r.value, bytes)];
        offset := offset + bytes;
        if offset == page {
          offset, current := 0, None;
        }
        return;
      }
      r := Fresh(bytes, answer);
    }

    /** The part of Alloc that asks for pages. */
    method Fresh(bytes: Address, answer: Option<Address>) returns (r: Option<Address>)
      requires Valid() && bytes > 0 && (answer.Some? ==> Mappable(answer.value, PagesFor(bytes, page)))
      modifies this
      ensures r.None? <==> answer.None?
      ensures r.None? ==> unchanged(this)
      ensures r.Some? ==> chunks == [Chunk(answer.value, PagesFor(bytes, page))] + old(chunks)
      ensures r.Some? && Fits(bytes, page) ==> Valid() && blocks == old(blocks) + [Block(r.value, bytes)]
      ensures r.Some? && !Fits(bytes, page) ==> !Inside(Block(r.value, bytes), chunks[0], page)
      ensures r.Some? ==> r.value == answer.value + HEADER
    {
      var pages := PagesFor(bytes, page);
      var ret := GetNPages(pages, answer);
      if ret.None? {
        return None;
      }
      FreshState(blocks, old(chunks), page, ret.value, bytes);
      hide Linked;
      hide OffsetAfter, PagesFor, Size, Mapped, Carved, UsedUpTo, Fits, Inside, ChunksApart;
      offset := OffsetAfter(bytes, page);
      current := if offset != 0 then Some(ret.value + Size(pages - 1, page)) else None;
      r := Some(ret.value + HEADER);
      if Fits(bytes, page) {
        blocks := blocks + [Block(ret.value + HEADER, bytes)];
      }
    }

    /** Whether the address is in a chunk. */
    method OwnsPointer(p: Address) returns (owns: bool)
      requires Linked(memory, last, chunks)
      ensures owns <==> exists i :: 0 <= i < |chunks| && chunks[i].start <= p < End(chunks[i], page)
    {
      var header: Address := last;
      ghost var i := 0;
      while header != 0
        invariant 0 <= i <= |chunks| && Linked(memory, header, chunks[i..])
        invariant forall j :: 0 <= j < i ==> !(chunks[j].start <= p < End(chunks[j], page))
        decreases |chunks| - i
      {
        if header <= p < header + memory[header].pages * page {
          assert chunks[i].start <= p < End(chunks[i], page);
          return true;
        }
        assert chunks[i..][1..] == chunks[i + 1..];
        header, i := memory[header].next, i + 1;
      }
      return false;
    }

    /** Every byte of every block is owned. */
    lemma OwnsBlocks(i: nat, p: Address)
      requires Valid() && i < |blocks| && blocks[i].start <= p < blocks[i].start + blocks[i].size
      ensures exists k :: 0 <= k < |chunks| && chunks[k].start <= p < End(chunks[k], page)
    {
      assert Housed(blocks[i], chunks, page);
      var k :| 0 <= k < |chunks| && Inside(blocks[i], chunks[k], page);
      assert chunks[k].start <= p < End(chunks[k], page);
    }

    /**
     * Each chunk is given back to the kernel once, with its size, and nothing else is. A header cannot
     * be read once its pages are unmapped.
     */
    method FreeAll() returns (unmapped: seq<Chunk>)
      requires Linked(memory, last, chunks) && Mapped(chunks, page)
      modifies this`memory
      ensures unmapped == chunks && memory == Without(old(memory), chunks)
    {
      hide Mapped, Elsewhere, Without;
      unmapped := [];
      var cur: Address := last;
      ghost var rest := chunks;
      while cur != 0
        invariant unmapped + rest == chunks && Linked(memory, cur, rest) && Mapped(rest, page)
        invariant Without(memory, rest) == Without(old(memory), chunks)
        decreases |rest|
      {
        var next := memory[cur].next;
        unmapped := unmapped + [Chunk(cur, memory[cur].pages)];
        FirstElsewhere(rest, page);
        WithoutFirst(memory, rest);
        LinkedElsewhere(memory, memory - {cur}, next, rest[1..], cur);
        assert rest == [rest[0]] + rest[1..];
        memory := memory - {cur};
        rest := rest[1..];
        cur := next;
      }
      WithoutNone(memory);
    }
  }

  lemma WithoutNone(memory: map<Address, Header>)
    ensures Without(memory, []) == memory
  {
  }

  /** The last page of a chunk ends where the chunk does. */
  lemma LastPage(c: Chunk, page: int)
    ensures c.start + Size(c.pages - 1, page) + page == End(c, page)
  {
    assert (c.pages - 1) * page + page == c.pages * page;
  }

  /** The block at the start of new pages, and the rest of the last page behind it. */
  lemma FreshBlock(bs: seq<Block>, cs: seq<Chunk>, page: Address, a: Address, bytes: Address)
    requires PageSize(page) && bytes > 0 && Fits(bytes, page) && Mapped(cs, page) && Carved(bs, cs, page)
    requires End(Chunk(a, PagesFor(bytes, page)), page) <= SPACE
    requires forall i :: 0 <= i < |cs| ==> ChunksApart(Chunk(a, PagesFor(bytes, page)), cs[i], page)
    ensures a + HEADER < SPACE
    ensures var c, b := Chunk(a, PagesFor(bytes, page)), Block(a + HEADER, bytes);
            && Mapped([c] + cs, page) && Carved(bs + [b], [c] + cs, page)
            && UsedUpTo(bs + [b], c, a + HEADER + bytes, page)
  {
    PagesExact(bytes, page);
    hide PagesFor, Size, Mapped, Carved, UsedUpTo, Fits, ChunksApart;
    var c := Chunk(a, PagesFor(bytes, page));
    NewChunk(bs, cs, page, c);
    CarveMore(bs, [c] + cs, page, a + HEADER, Block(a + HEADER, bytes));
  }

  /** What Alloc makes of pages mapped at `a`. */
  lemma FreshState(bs: seq<Block>, cs: seq<Chunk>, page: Address, a: Address, bytes: Address)
    requires PageSize(page) && bytes > 0 && Mapped(cs, page) && Carved(bs, cs, page)
    requires PagesFor(bytes, page) >= 1 && a + Size(PagesFor(bytes, page), page) <= SPACE
    requires forall i :: 0 <= i < |cs| ==> ChunksApart(Chunk(a, PagesFor(bytes, page)), cs[i], page)
    ensures a + HEADER < SPACE && 0 <= a + Size(PagesFor(bytes, page) - 1, page) < SPACE
    ensures OffsetAfter(bytes, page) < page
    ensures var c, b, off := Chunk(a, PagesFor(bytes, page)), Block(a + HEADER, bytes), OffsetAfter(bytes, page);
            if Fits(bytes, page) then
              && Mapped([c] + cs, page) && Carved(bs + [b], [c] + cs, page)
              && (off != 0 ==> UsedUpTo(bs + [b], c, a + Size(PagesFor(bytes, page) - 1, page) + off, page))
              && a + HEADER + bytes
                 == (if off != 0 then a + Size(PagesFor(bytes, page) - 1, page) + off else End(c, page))
            else !Inside(b, c, page)
  {
    var c := Chunk(a, PagesFor(bytes, page));
    LastPage(c, page);
    FullPages(c.pages, page);
    RoomExactlyIfFits(bytes, page);
    hide PagesFor, Size, OffsetAfter, Mapped, Carved, UsedUpTo, Fits, ChunksApart;
    if Fits(bytes, page) {
      OffsetExact(bytes, page);
      FreshBlock(bs, cs, page, a, bytes);
    }
  }

  lemma FullPages(pages: nat, page: nat)
    requires pages >= 1
    ensures Size(pages - 1, page) >= 0 && Size(pages, page) >= page
  {
    assert (pages - 1) * page >= 0;
    assert pages * page == (pages - 1) * page + page;
  }
}
