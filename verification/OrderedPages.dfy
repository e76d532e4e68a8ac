/** An ordered dictionary of page buffers: its keys, least recent first, and a buffer for each. */
module OrderedPages {
  import opened Bytes
  import opened Lru

  class PageDict {
    var order: seq<nat>
    var buffers: map<nat, array<byte>>
    // The bytes in the buffers, and every buffer allocated so far.
    ghost var pages: map<nat, bytes>
    ghost var repr: set<array<byte>>

    constructor ()
      ensures Stored() && order == [] && pages == map[] && repr == {}
    {
      order, buffers, pages, repr := [], map[], map[], {};
    }

    /** Each page has a buffer of its own with the bytes of `pages`. */
    ghost predicate Stored()
      reads this, repr
    {
      && buffers.Keys == pages.Keys
      && (forall p :: p in buffers ==> buffers[p] in repr && buffers[p][..] == pages[p])
      && (forall p, q :: p in buffers && q in buffers && p != q ==> buffers[p] != buffers[q])
    }

    /** A new page at the end, in a buffer of its own. */
    method Insert(page: nat, data: bytes)
      requires Stored() && page !in pages
      modifies this
      ensures Stored() && fresh(repr - old(repr))
      ensures order == old(order) + [page] && pages == old(pages)[page := data]
    {
      var a := new byte[|data|](i requires 0 <= i < |data| => data[i]);
      assert a[..] == data;
      order, buffers := order + [page], buffers[page := a];
      pages, repr := pages[page := data], repr + {a};
    }

    /** Takes the oldest page out. */
    method PopItem() returns (oldest: nat)
      requires Stored() && order != []
      modifies this`order, this`buffers, this`pages
      ensures Stored() && oldest == old(order[0])
      ensures order == old(order)[1..] && pages == old(pages) - {oldest}
    {
      oldest := order[0];
      order, buffers, pages := order[1..], buffers - {oldest}, pages - {oldest};
    }

    method ToEnd(page: nat)
      modifies this`order
      ensures order == MoveToEnd(old(order), page) && (old(Stored()) ==> Stored())
    {
      order := MoveToEnd(order, page);
    }

    /** Changes part of a page in place. */
    method Overwrite(page: nat, inside: nat, data: bytes)
      requires Stored() && page in pages && inside + |data| <= |pages[page]|
      modifies this`pages, repr
      ensures Stored()
      ensures pages == old(pages)[page := Splice(old(pages)[page], inside, data)]
    {
      Store(buffers[page], inside, data);
      pages := pages[page := Splice(pages[page], inside, data)];
    }

    function Has(page: nat): (b: bool)
      requires Stored()
      reads this, repr
      ensures b <==> page in pages
    {
      page in buffers
    }

    /** The bytes of a page. */
    function Get(page: nat): (data: bytes)
      requires Stored() && page in pages
      reads this, repr
      ensures data == pages[page]
    {
      buffers[page][..]
    }
  }
}
