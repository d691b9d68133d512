/**
 The direct-mapped table of mapped overflow pages (`SubgraphStorageType::Overflow`), as a value.
 A page is named by the number of its first block; mapping a page is recorded by the page it maps.
 */
module OverflowTable {
  import opened BlockFormat

  datatype Mapping = Unmapped | Mapped(page: nat)
  datatype Entry = Entry(overflowBlkno: nat, mapping: Mapping)

  /** `blkno & OVERFLOW_BLOCKNO_MASK`: the position of a block in its page. */
  function Offset(g: Geometry, b: nat): (o: nat)
    requires g.Valid()
    ensures o < g.page && o <= b
  {
    Mod(b, g.page)
  }

  /** `blkno & ~OVERFLOW_BLOCKNO_MASK`: the page of a block. */
  function PageOf(g: Geometry, b: nat): nat
    requires g.Valid()
  {
    b - Offset(g, b)
  }

  /** `Overflow::mapping`: the slot of a page. */
  function Slot(g: Geometry, page: nat): (s: nat)
    requires g.Valid() && g.volume <= page
    ensures s < g.slots
  {
    Mod(Div(page - g.volume, g.page), g.slots)
  }

  function EmptyTable(g: Geometry): seq<Entry> {
    seq(g.slots, _ => Entry(INVALID_BLOCKNO, Unmapped))
  }

  /** Every mapped entry maps the page it is labelled with and sits in that page's slot. */
  ghost predicate TableOk(g: Geometry, table: seq<Entry>)
    requires g.Valid()
  {
    && |table| == g.slots
    && forall i :: 0 <= i < |table| && table[i].mapping.Mapped? ==>
         && g.volume <= table[i].mapping.page
         && table[i].mapping.page == table[i].overflowBlkno
         && Slot(g, table[i].overflowBlkno) == i
  }

  /** `Overflow::get`. */
  function Lookup(g: Geometry, table: seq<Entry>, page: nat): Mapping
    requires g.Valid() && g.volume <= page && |table| == g.slots
  {
    var e := table[Slot(g, page)];
    if e.overflowBlkno == page then e.mapping else Unmapped
  }

  /** `Overflow::set`: the page that held the slot is unmapped. */
  function Install(g: Geometry, table: seq<Entry>, page: nat): seq<Entry>
    requires g.Valid() && g.volume <= page && |table| == g.slots
  {
    table[Slot(g, page) := Entry(page, Mapped(page))]
  }

  /** What one `getBlock` on an overflow page does to the table. */
  function Access(g: Geometry, table: seq<Entry>, page: nat): seq<Entry>
    requires g.Valid() && g.volume <= page && |table| == g.slots
  {
    if Lookup(g, table, page) == Unmapped then Install(g, table, page) else table
  }

  function AccessAll(g: Geometry, table: seq<Entry>, pages: seq<nat>): (t: seq<Entry>)
    requires g.Valid() && |table| == g.slots
    requires forall i :: 0 <= i < |pages| ==> g.volume <= pages[i]
    ensures |t| == g.slots
  {
    if pages == [] then table
    else Access(g, AccessAll(g, table, pages[..|pages| - 1]), pages[|pages| - 1])
  }

  lemma AccessMaps(g: Geometry, table: seq<Entry>, page: nat)
    requires g.Valid() && g.volume <= page && TableOk(g, table)
    ensures TableOk(g, Access(g, table, page))
    ensures Lookup(g, Access(g, table, page), page) == Mapped(page)
  {
  }

  /** Whatever was accessed before, accessing a page yields a mapping of that very page. */
  lemma {:induction false} HistoryTransparent(g: Geometry, table: seq<Entry>, pages: seq<nat>, page: nat)
    requires g.Valid() && g.volume <= page && TableOk(g, table)
    requires forall i :: 0 <= i < |pages| ==> g.volume <= pages[i]
    ensures TableOk(g, AccessAll(g, table, pages))
    ensures Lookup(g, Access(g, AccessAll(g, table, pages), page), page) == Mapped(page)
  {
    if pages != [] {
      HistoryTransparent(g, table, pages[..|pages| - 1], pages[|pages| - 1]);
      AccessMaps(g, AccessAll(g, table, pages[..|pages| - 1]), pages[|pages| - 1]);
    }
    AccessMaps(g, AccessAll(g, table, pages), page);
  }

  /**
   A pointer into page `p` obtained just before another page `q` is looked up stays mapped exactly when
   the two pages are the same or do not share a slot.  `releaseRaw` holds such a pointer.
   */
  lemma PointerSurvives(g: Geometry, table: seq<Entry>, p: nat, q: nat)
    requires g.Valid() && g.volume <= p && g.volume <= q && TableOk(g, table)
    ensures Lookup(g, Access(g, Access(g, table, p), q), p) == Mapped(p) <==> p == q || Slot(g, p) != Slot(g, q)
  {
    AccessMaps(g, table, p);
  }

  /** Looking up block `c` unmaps the page of block `b`: two overflow pages that share a slot. */
  predicate Displaced(g: Geometry, b: nat, c: nat)
    requires g.Valid()
  {
    && g.volume <= PageOf(g, b) && g.volume <= PageOf(g, c)
    && PageOf(g, b) != PageOf(g, c) && Slot(g, PageOf(g, b)) == Slot(g, PageOf(g, c))
  }

  /** The distance of an overflow page from the volume, in pages. */
  lemma WholePages(g: Geometry, b: nat)
    requires g.Valid() && g.volume <= PageOf(g, b)
    ensures PageOf(g, b) == g.volume + Div(PageOf(g, b) - g.volume, g.page) * g.page
  {
    var p, d := PageOf(g, b), PageOf(g, b) - g.volume;
    DivModAgree(b, g.page);
    DivModExact(Div(b, g.page), g.page);
    assert Mod(p, g.page) == 0;
    DivModAgree(d, g.page);
    ModAdd(g.volume, Mod(d, g.page), g.page);
    ModMultiple(g.volume + Mod(d, g.page), Div(d, g.page), g.page);
  }

  /** As long as the table has a slot for every overflow page, no page unmaps another. */
  lemma NoneDisplaced(g: Geometry, sup: nat, b: nat, c: nat)
    requires g.Valid() && b < sup && c < sup && sup <= g.volume + g.slots * g.page
    ensures !Displaced(g, b, c)
  {
    if g.volume <= PageOf(g, b) && g.volume <= PageOf(g, c) {
      WholePages(g, b);
      WholePages(g, c);
      DivBound(PageOf(g, b) - g.volume, g.slots, g.page);
      DivBound(PageOf(g, c) - g.volume, g.slots, g.page);
    }
  }

  /** In machine arithmetic: the position of a block in its page, the page, and its slot in the table. */
  lemma MappingIs(g: Geometry, b: nat)
    requires g.Valid()
    ensures Offset(g, b) == b % g.page && PageOf(g, b) == b - b % g.page
    ensures g.volume <= PageOf(g, b) ==> Slot(g, PageOf(g, b)) == (b - b % g.page - g.volume) / g.page % g.slots
  {
    DivModAgree(b, g.page);
    if g.volume <= PageOf(g, b) {
      DivModAgree(PageOf(g, b) - g.volume, g.page);
      DivModAgree(Div(PageOf(g, b) - g.volume, g.page), g.slots);
    }
  }

  /** Some page can unmap another exactly when there are more overflow pages than slots. */
  lemma DisplacedIff(g: Geometry, sup: nat)
    requires g.Valid()
    ensures (exists b: nat, c: nat :: b < sup && c < sup && Displaced(g, b, c)) <==> g.volume + g.slots * g.page < sup
  {
    if g.volume + g.slots * g.page < sup {
      var b, c := g.volume, g.volume + g.slots * g.page;
      ModMultiple(g.volume, g.slots, g.page);
      DivModExact(g.slots, g.page);
      DivModExact(1, g.slots);
      assert Displaced(g, b, c);
    } else {
      forall b: nat, c: nat | b < sup && c < sup ensures !Displaced(g, b, c) {
        NoneDisplaced(g, sup, b, c);
      }
    }
  }

  /** Different block numbers lie in different pages or at different offsets. */
  lemma HomeInjective(g: Geometry, b: nat, c: nat)
    requires g.Valid() && PageOf(g, b) == PageOf(g, c) && Offset(g, b) == Offset(g, c)
    ensures b == c
  {
  }

  /** The blocks of the page that starts at a multiple of the page size. */
  lemma PageBlocks(g: Geometry, page: nat, b: nat)
    requires g.Valid() && Mod(page, g.page) == 0 && page <= b < page + g.page
    ensures PageOf(g, b) == page && Offset(g, b) == b - page
    ensures Mod(page + g.page, g.page) == 0
  {
    ModAdd(page, b - page, g.page);
  }
}
