/** The borrower's write-through page cache over one lease of a provider's memory. */
module WriteThrough {
  import opened Bytes
  import opened Lru
  import opened PageCacheSpec
  import opened PageCacheOps
  import opened CacheRuns
  import opened OrderedPages
  import opened PageCaches

  /** Where a page starts in the lease. */
  function At(page: nat): nat {
    page * PAGE_SIZE
  }

  /** Every cached page is a whole page of the lease, with the bytes of the lease. */
  predicate Mirrors(pages: map<nat, bytes>, lease: bytes) {
    forall p :: p in pages ==> At(p) + PAGE_SIZE <= |lease| && pages[p] == Slice(lease, At(p), PAGE_SIZE)
  }

  /** Overwriting part of a slice and writing the whole slice back changes that part only. */
  lemma WriteBack(s: bytes, at: nat, len: nat, inside: nat, data: bytes)
    requires at + len <= |s| && inside + |data| <= len
    ensures Splice(s, at, Splice(Slice(s, at, len), inside, data)) == Splice(s, at + inside, data)
  {
  }

  lemma MirrorsMore(pages: map<nat, bytes>, lease: bytes, page: nat, data: bytes)
    requires Mirrors(pages, lease) && At(page) + PAGE_SIZE <= |lease| && data == Slice(lease, At(page), PAGE_SIZE)
    ensures Mirrors(pages[page := data], lease)
  {
  }

  lemma MirrorsFewer(pages: map<nat, bytes>, lease: bytes)
    requires Mirrors(pages, lease)
    ensures forall fewer: map<nat, bytes> ::
              (forall p :: p in fewer ==> p in pages && fewer[p] == pages[p]) ==> Mirrors(fewer, lease)
  {
  }

  lemma MirrorsAfterWrite(pages: map<nat, bytes>, lease: bytes, page: nat, content: bytes)
    requires Mirrors(pages, lease) && At(page) + PAGE_SIZE <= |lease| && |content| == PAGE_SIZE
    ensures Mirrors(pages[page := content], Splice(lease, At(page), content))
  {
    var after := Splice(lease, At(page), content);
    forall p | p in pages && p != page
      ensures Slice(after, At(p), PAGE_SIZE) == Slice(lease, At(p), PAGE_SIZE)
    {
    }
    assert Slice(after, At(page), PAGE_SIZE) == content;
  }

  lemma WholePages(mb: nat)
    ensures mb * MIB % PAGE_SIZE == 0
  {
    var g := Geometry(PAGE_SIZE, 0, 1);
    assert g.Base(16 * mb) + 0 == mb * MIB;
    InPage(g, 16 * mb, 0);
  }

  lemma WholePage(g: Geometry, at: nat, left: nat)
    requires g.pageSize == PAGE_SIZE && g.size % PAGE_SIZE == 0 && 0 < left && at + left <= g.size
    ensures var page := at / PAGE_SIZE; At(page) + PAGE_SIZE <= g.size && At(page) + at % PAGE_SIZE == at
    ensures Chunk(g, at, left) == Min(left, PAGE_SIZE - at % PAGE_SIZE)
  {
  }

  lemma MirroredBytes(pages: map<nat, bytes>, lease: bytes, page: nat, inside: nat, n: nat)
    requires Mirrors(pages, lease) && page in pages && inside + n <= PAGE_SIZE
    ensures |pages[page]| == PAGE_SIZE && At(page) + PAGE_SIZE <= |lease|
    ensures pages[page][inside..inside + n] == Slice(lease, At(page) + inside, n)
  {
    SliceOfSlice(lease, At(page), PAGE_SIZE, inside, n);
  }

  lemma MirroredPage(pages: map<nat, bytes>, memory: bytes, base: nat, size: nat, page: nat)
    requires base + size <= |memory| && Mirrors(pages, Slice(memory, base, size)) && page in pages
    ensures At(page) + PAGE_SIZE <= size
    ensures |pages[page]| == PAGE_SIZE && pages[page] == Slice(memory, base + At(page), PAGE_SIZE)
  {
    SliceOfSlice(memory, base, size, At(page), PAGE_SIZE);
  }

  /** Changing part of a mirrored page and writing the page back: only that part of the memory
      changes, and the pages still mirror the lease. */
  lemma PageWritten(pages: map<nat, bytes>, memory: bytes, base: nat, size: nat, page: nat, inside: nat, chunk: bytes)
    requires base + size <= |memory| && Mirrors(pages, Slice(memory, base, size)) && page in pages
    requires inside + |chunk| <= PAGE_SIZE
    ensures At(page) + PAGE_SIZE <= size && |pages[page]| == PAGE_SIZE
    ensures var content := Splice(pages[page], inside, chunk);
            var after := Splice(memory, base + At(page), content);
            && after == Splice(memory, base + At(page) + inside, chunk)
            && Mirrors(pages[page := content], Slice(after, base, size))
  {
    hide Splice, Slice, Mirrors;
    MirroredPage(pages, memory, base, size, page);
    var content := Splice(pages[page], inside, chunk);
    MirrorsAfterWrite(pages, Slice(memory, base, size), page, content);
    LeaseSplice(memory, base, size, At(page), content);
    WriteBack(memory, base + At(page), PAGE_SIZE, inside, chunk);
  }

  lemma NoSlice(s: bytes, at: nat)
    requires at <= |s|
    ensures Slice(s, at, 0) == []
  {
  }

  lemma TouchedLast(order: seq<nat>, page: nat, cap: nat)
    requires cap > 0 && Fits(order, cap)
    ensures MoveToEnd(Touch(order, page, cap), page) == Touch(order, page, cap)
  {
    hide Touch;
    TouchFits(order, page, cap);
    WithoutAt(Touch(order, page, cap), |Touch(order, page, cap)| - 1);
  }

  lemma LeaseSplice(memory: bytes, base: nat, size: nat, at: nat, data: bytes)
    requires base + size <= |memory| && at + |data| <= size
    ensures Slice(Splice(memory, base + at, data), base, size) == Splice(Slice(memory, base, size), at, data)
  {
  }

  lemma TailElems(order: seq<nat>)
    requires Distinct(order) && order != []
    ensures Elems(order[1..]) == Elems(order) - {order[0]} && Distinct(order[1..])
  {
    assert order == [order[0]] + order[1..];
  }

  lemma OneMoreKey(order: seq<nat>, page: nat)
    ensures Elems(order + [page]) == Elems(order) + {page}
  {
  }

  lemma PageStarts(offset: nat)
    ensures At(offset / PAGE_SIZE) + offset % PAGE_SIZE == offset
    ensures At(offset / PAGE_SIZE) == offset / PAGE_SIZE * PAGE_SIZE
  {
  }

  /** The dictionary has the pages of the recency order, and no more than it may. */
  predicate Kept(order: seq<nat>, pages: map<nat, bytes>, cap: pos) {
    Fits(order, cap) && pages.Keys == Elems(order)
  }

  /** Inserting a page, moving it to the end, where it is, and trimming. */
  lemma LoadOrder(order: seq<nat>, page: nat, cap: nat)
    requires cap > 0 && Fits(order, cap) && page !in order
    ensures Distinct(order + [page]) && MoveToEnd(order + [page], page) == order + [page]
    ensures Trim(order + [page], cap) == TouchThenTrim(order, page, cap) == Touch(order, page, cap)
    ensures Fits(Touch(order, page, cap), cap) && page in Elems(Touch(order, page, cap))
  {
    WithoutAt(order + [page], |order|);
    TrimmingIsTouching(order, page, cap);
    TouchFits(order, page, cap);
  }

  // ---- Slices with negative bounds ----

  /** Where a slice bound of Python points in a sequence of `n` elements. */
  function Bound(i: int, n: nat): (k: nat)
    ensures k <= n
  {
    if i < 0 then Max(0, i + n) else Min(i, n)
  }

  /** The slice `s[low:high]` of Python, for any bounds. */
  function PySlice(s: bytes, low: int, high: int): bytes {
    var from, to := Bound(low, |s|), Bound(high, |s|);
    if from < to then s[from..to] else []
  }

  lemma InnerSlice(s: bytes, inside: nat, n: nat)
    requires inside + n <= |s|
    ensures PySlice(s, inside, inside + n) == s[inside..inside + n]
  {
  }

  /** The end of a slice from `inside` on lies before the page, but less than a page before it. */
  predicate WrapsAround(inside: nat, length: int) {
    inside + length < 0 < length + PAGE_SIZE
  }

  /** A read of a negative length that passes the range check takes one slice of one page. Exactly when
      it returns bytes: when the end lies before the page but less than a page before it. Then it returns
      the page from the offset on up to as far before its end. */
  lemma NegativeSlice(pages: map<nat, bytes>, lease: bytes, page: nat, inside: nat, length: int)
    requires Mirrors(pages, lease) && page in pages && inside < PAGE_SIZE && length < 0
    ensures |pages[page]| == PAGE_SIZE && At(page) + PAGE_SIZE <= |lease|
    ensures var out := PySlice(pages[page], inside, inside + length);
            && (out != [] <==> WrapsAround(inside, length))
            && (out != [] ==> inside + (PAGE_SIZE + length) <= PAGE_SIZE
                              && out == Slice(lease, At(page) + inside, PAGE_SIZE + length))
  {
    if WrapsAround(inside, length) {
      MirroredBytes(pages, lease, page, inside, PAGE_SIZE + length);
    }
  }

  class RemoteCache {
    const remote: PageCaches.Remote
    const base: nat
    const remoteSize: nat
    const capacity: pos
    const table: PageDict
    var hits: nat
    var misses: nat

    /** `base` and `remoteMb` MiB are what the provider granted. */
    constructor (remote: PageCaches.Remote, base: nat, remoteMb: nat, cacheMb: int)
      requires base + remoteMb * MIB <= |remote.memory|
      ensures this.remote == remote && this.base == base && remoteSize == remoteMb * MIB && fresh(table)
      ensures capacity == Max(1, cacheMb * MIB / PAGE_SIZE)
      ensures Valid() && Counted() == Tally([], 0, 0) && table.repr == {}
    {
      this.remote, this.base, remoteSize := remote, base, remoteMb * MIB;
      capacity := Max(1, cacheMb * MIB / PAGE_SIZE);
      hits, misses := 0, 0;
      table := new PageDict();
      new;
      WholePages(remoteMb);
    }

    ghost function Lease(): bytes
      requires base + remoteSize <= |remote.memory|
      reads remote
    {
      Slice(remote.memory, base, remoteSize)
    }

    ghost predicate Valid()
      reads this, table, table.repr, remote
    {
      && remoteSize % PAGE_SIZE == 0
      && base + remoteSize <= |remote.memory|
      && Kept(table.order, table.pages, capacity)
      && table.Stored()
      && Mirrors(table.pages, Lease())
    }

    ghost function Shape(): Geometry {
      Geometry(PAGE_SIZE, remoteSize, capacity)
    }

    ghost function Counted(): Tally
      reads this, table
    {
      Tally(table.order, hits, misses)
    }

    method RemoteRead(offset: nat, length: nat) returns (out: bytes)
      requires base + offset + length <= |remote.memory|
      ensures out == Slice(remote.memory, base + offset, length)
    {
      hide Slice;
      out := [];
      var pos := 0;
      NoSlice(remote.memory, base + offset);
      while pos < length
        invariant 0 <= pos
        invariant out == Slice(remote.memory, base + offset, Min(pos, length))
      {
        var n := Min(MAX_TRANSFER, length - pos);
        var part := remote.Read(base + offset + pos, n);
        SliceInTwo(remote.memory, base + offset, pos, n);
        out := out + part;
        pos := pos + MAX_TRANSFER;
      }
    }

    method RemoteWrite(offset: nat, data: bytes)
      requires base + offset + |data| <= |remote.memory|
      modifies remote
      ensures remote.memory == Splice(old(remote.memory), base + offset, data)
    {
      hide Splice;
      ghost var memory := remote.memory;
      SpliceNothing(memory, base + offset);
      assert data[..0] == [] && data[..|data|] == data;
      var pos := 0;
      while pos < |data|
        invariant 0 <= pos && |remote.memory| == |memory|
        invariant remote.memory == Splice(memory, base + offset, data[..Min(pos, |data|)])
      {
        var end := Min(pos + MAX_TRANSFER, |data|);
        var chunk := data[pos..end];
        remote.Write(base + offset + pos, chunk);
        assert data[..end][..pos] == data[..pos] && data[..end][pos..] == chunk;
        SpliceInTwo(memory, base + offset, data[..end], pos);
        pos := pos + MAX_TRANSFER;
      }
    }

    /** Drops the oldest pages while there are too many. */
    method TrimPages()
      requires table.Stored() && Distinct(table.order) && table.pages.Keys == Elems(table.order)
      modifies table
      ensures table.Stored() && table.repr == old(table.repr)
      ensures table.order == Trim(old(table.order), capacity) && table.pages.Keys == Elems(table.order)
      ensures forall p :: p in table.pages ==> p in old(table.pages) && table.pages[p] == old(table.pages)[p]
    {
      while |table.order| > capacity
        invariant table.Stored() && table.repr == old(table.repr)
        invariant Distinct(table.order) && table.pages.Keys == Elems(table.order)
        invariant Trim(table.order, capacity) == Trim(old(table.order), capacity)
        invariant forall p :: p in table.pages ==> p in old(table.pages) && table.pages[p] == old(table.pages)[p]
      {
        TailElems(table.order);
        var _ := table.PopItem();
      }
    }

    method LoadPage(page: nat)
      requires Valid() && page !in table.pages && At(page) + PAGE_SIZE <= remoteSize
      modifies table
      ensures Valid() && fresh(table.repr - old(table.repr))
      ensures table.order == TouchThenTrim(old(table.order), page, capacity) && page in table.pages
    {
      hide MoveToEnd, Trim, Touch, Slice, At, Mirrors, Distinct, PageDict.Stored;
      LoadOrder(table.order, page, capacity);
      OneMoreKey(table.order, page);
      var data := RemoteRead(At(page), PAGE_SIZE);
      SliceOfSlice(remote.memory, base, remoteSize, At(page), PAGE_SIZE);
      MirrorsMore(table.pages, Lease(), page, data);
      table.Insert(page, data);
      table.ToEnd(page);
      MirrorsFewer(table.pages, Lease());
      TrimPages();
    }

    /** Hit or miss: afterwards the page is cached and most recent. */
    method TouchPage(page: nat)
      requires Valid() && At(page) + PAGE_SIZE <= remoteSize
      modifies this, table
      ensures Valid() && fresh(table.repr - old(table.repr)) && page in table.pages
      ensures Counted() == TouchOne(old(Counted()), page, capacity)
    {
      hide MoveToEnd, Trim, Mirrors, Distinct, Slice, At, PageDict.Stored;
      assert page in table.pages <==> page in Elems(table.order);
      TouchFits(table.order, page, capacity);
      if table.Has(page) {
        hits := hits + 1;
        table.ToEnd(page);
        return;
      }
      TrimmingIsTouching(table.order, page, capacity);
      misses := misses + 1;
      LoadPage(page);
    }

    function BytesOf(page: nat, low: int, high: int): (out: bytes)
      requires table.Stored() && page in table.pages
      reads this, table, table.repr
      ensures out == PySlice(table.pages[page], low, high)
    {
      PySlice(table.Get(page), low, high)
    }

    /** The read loop for a length of at least 0. */
    method ReadForward(offset: nat, length: nat) returns (out: bytes)
      requires Valid() && offset + length <= remoteSize
      modifies this, table
      ensures Valid() && fresh(table.repr - old(table.repr))
      ensures out == Slice(Lease(), offset, length)
      ensures Counted() == TouchAll(old(Counted()), Span(Shape(), offset, length), capacity)
    {
      hide TouchOne, Span, Chunk, Mirrors, Slice, PySlice, PageDict.Stored;
      var at, left := offset, length;
      out := [];
      NoSlice(Lease(), offset);
      while left > 0
        invariant Valid() && fresh(table.repr - old(table.repr))
        invariant 0 <= left && 0 <= at && at + left == offset + length
        invariant out == Slice(Lease(), offset, at - offset)
        invariant TouchAll(Counted(), Span(Shape(), at, left), capacity)
                  == TouchAll(old(Counted()), Span(Shape(), offset, length), capacity)
      {
        var page, inside := at / PAGE_SIZE, at % PAGE_SIZE;
        var n := Min(left, PAGE_SIZE - inside);
        WholePage(Shape(), at, left);
        SpanTouched(Shape(), Counted(), at, left);
        TouchPage(page);
        MirroredBytes(table.pages, Lease(), page, inside, n);
        InnerSlice(table.pages[page], inside, n);
        SliceInTwo(Lease(), offset, at - offset, n);
        out := out + BytesOf(page, inside, inside + n);
        at, left := at + n, left - n;
      }
      NothingTouched(Shape(), Fresh([]), at);
    }

    /** The one turn of the read loop for a negative length. */
    method ReadBackwards(offset: nat, length: int) returns (reply: Reply)
      requires Valid() && length < 0
      modifies this, table
      ensures Valid() && fresh(table.repr - old(table.repr))
      ensures
        if At(offset / PAGE_SIZE) + PAGE_SIZE <= remoteSize then
          && (WrapsAround(offset % PAGE_SIZE, length) ==> offset + PAGE_SIZE + length <= remoteSize)
          && reply == Data(if WrapsAround(offset % PAGE_SIZE, length) then Slice(Lease(), offset, PAGE_SIZE + length)
                           else [])
          && Counted() == TouchOne(old(Counted()), offset / PAGE_SIZE, capacity)
        else reply.Refused? && Counted() == old(Counted().(misses := Counted().misses + 1))
    {
      hide TouchOne, Mirrors, PageDict.Stored, Slice, PySlice;
      var page, inside := offset / PAGE_SIZE, offset % PAGE_SIZE;
      PageStarts(offset);
      if page * PAGE_SIZE + PAGE_SIZE > remoteSize {
        misses := misses + 1;
        return Refused;
      }
      TouchPage(page);
      NegativeSlice(table.pages, Lease(), page, inside, length);
      reply := Data(BytesOf(page, inside, inside + length));
    }

    /** A read of a length of at least 0 returns the bytes of the lease and changes none of them, at any
        capacity. The check lets a negative length through: then one page is touched, and what comes back
        is a slice of it; a page outside the lease is refused once the miss is counted. */
    method Read(offset: int, length: int) returns (reply: Reply)
      requires Valid()
      modifies this, table
      ensures Valid() && fresh(table.repr - old(table.repr))
      ensures offset < 0 || offset + length > remoteSize ==> reply.Refused? && Counted() == old(Counted())
      ensures 0 <= offset && 0 <= length && offset + length <= remoteSize ==>
        && reply == Data(Slice(Lease(), offset, length))
        && Counted() == TouchAll(old(Counted()), Span(Shape(), offset, length), capacity)
      ensures 0 <= offset && length < 0 && offset + length <= remoteSize ==>
        if At(offset / PAGE_SIZE) + PAGE_SIZE <= remoteSize then
          && reply == Data(if WrapsAround(offset % PAGE_SIZE, length) then Slice(Lease(), offset, PAGE_SIZE + length)
                           else [])
          && Counted() == TouchOne(old(Counted()), offset / PAGE_SIZE, capacity)
        else reply.Refused? && Counted() == old(Counted().(misses := Counted().misses + 1))
    {
      hide TouchOne, Span, Mirrors, Slice, At, PageDict.Stored;
      if offset < 0 || offset + length > remoteSize {
        return Refused;
      }
      if length < 0 {
        reply := ReadBackwards(offset, length);
        return;
      }
      var out := ReadForward(offset, length);
      reply := Data(out);
    }

    /** Changes the buffer of the most recent page in place and writes the whole page back. */
    method StorePage(page: nat, inside: nat, chunk: bytes)
      requires Valid() && page in table.pages && MoveToEnd(table.order, page) == table.order
      requires At(page) + PAGE_SIZE <= remoteSize && inside + |chunk| <= PAGE_SIZE
      modifies table, table.repr, remote
      ensures Valid() && table.order == old(table.order) && table.repr == old(table.repr)
      ensures remote.memory == Splice(old(remote.memory), base + At(page) + inside, chunk)
    {
      hide MoveToEnd, Mirrors, Splice, Slice, Fits, Elems, At, PageDict.Stored;
      PageWritten(table.pages, remote.memory, base, remoteSize, page, inside, chunk);
      table.Overwrite(page, inside, chunk);
      RemoteWrite(At(page), table.Get(page));
      table.ToEnd(page);
    }

    /** One turn of the write loop. */
    method WriteOnePage(page: nat, inside: nat, chunk: bytes)
      requires Valid() && At(page) + PAGE_SIZE <= remoteSize && inside + |chunk| <= PAGE_SIZE
      modifies this, table, table.repr, remote
      ensures Valid() && fresh(table.repr - old(table.repr))
      ensures Counted() == TouchOne(old(Counted()), page, capacity)
      ensures remote.memory == Splice(old(remote.memory), base + At(page) + inside, chunk)
    {
      hide MoveToEnd, Touch, Mirrors, Splice, Slice, Distinct, Elems, At, PageDict.Stored;
      TouchedLast(table.order, page, capacity);
      TouchPage(page);
      StorePage(page, inside, chunk);
    }

    /** A write replaces exactly the written bytes of the lease, at any capacity. */
    method Write(offset: int, data: bytes) returns (reply: Reply)
      requires Valid()
      modifies this, table, table.repr, remote
      ensures Valid() && fresh(table.repr - old(table.repr))
      ensures reply.Refused? <==> offset < 0 || offset + |data| > remoteSize
      ensures reply.Refused? ==> Counted() == old(Counted()) && remote.memory == old(remote.memory)
      ensures !reply.Refused? ==>
        && reply == Done
        && remote.memory == Splice(old(remote.memory), base + offset, data)
        && Lease() == Splice(old(Lease()), offset, data)
        && Counted() == TouchAll(old(Counted()), Span(Shape(), offset, |data|), capacity)
    {
      hide TouchOne, Span, Chunk, Mirrors, Splice, PageDict.Stored;
      if offset < 0 || offset + |data| > remoteSize {
        return Refused;
      }
      var pos := 0;
      ghost var memory := remote.memory;
      SpliceNothing(memory, base + offset);
      assert data[..0] == [];
      while pos < |data|
        invariant Valid() && fresh(table.repr - old(table.repr))
        invariant 0 <= pos <= |data| && |remote.memory| == |memory|
        invariant remote.memory == Splice(memory, base + offset, data[..pos])
        invariant TouchAll(Counted(), Span(Shape(), offset + pos, |data| - pos), capacity)
                  == TouchAll(old(Counted()), Span(Shape(), offset, |data|), capacity)
      {
        var page, inside := (offset + pos) / PAGE_SIZE, (offset + pos) % PAGE_SIZE;
        var n := Min(|data| - pos, PAGE_SIZE - inside);
        WholePage(Shape(), offset + pos, |data| - pos);
        SpanTouched(Shape(), Counted(), offset + pos, |data| - pos);
        WriteOnePage(page, inside, data[pos..pos + n]);
        SpliceInTwo(memory, base + offset, data[..pos + n], pos);
        assert data[..pos + n][..pos] == data[..pos] && data[..pos + n][pos..] == data[pos..pos + n];
        pos := pos + n;
      }
      assert data[..pos] == data;
      NothingTouched(Shape(), Fresh([]), offset + pos);
      LeaseSplice(memory, base, remoteSize, offset, data);
      reply := Done;
    }
  }
}
