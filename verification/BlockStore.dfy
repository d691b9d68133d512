/**
 The block store of a subgraph: the volume, the overflow pages on disk and the table of mapped pages,
 with the flat view `blocks` that every other part of the model reasons about.
 */
module BlockStore {
  import opened BlockFormat
  import opened OverflowTable
  import opened FreeList

  /** Where `getBlock` points. */
  datatype Location = Nowhere | InVolume(index: nat) | InPage(page: nat, offset: nat)

  /** Overflow block `b` is found at its offset in the file of its page. */
  ghost predicate Stored(g: Geometry, files: map<nat, seq<Block>>, b: nat, blk: Block)
    requires g.Valid()
  {
    && g.volume <= PageOf(g, b)
    && PageOf(g, b) in files
    && |files[PageOf(g, b)]| == g.page
    && files[PageOf(g, b)][Offset(g, b)] == blk
  }

  class BlockMemory {
    const g: Geometry
    var supBlkno: Word
    var volume: seq<Block>
    var files: map<nat, seq<Block>>   // overflow files, by the number of their first block
    var table: seq<Entry>
    ghost var blocks: seq<Block>

    ghost predicate Valid()
      reads this
    {
      && g.Valid()
      && supBlkno as int == |blocks|
      && |volume| == g.volume <= |blocks| <= g.blknoMax
      && Mod(|blocks|, g.page) == 0
      && AllSized(blocks, g.words)
      && TableOk(g, table)
      && (forall b {:trigger volume[b]} :: 0 <= b < g.volume ==> volume[b] == blocks[b])
      && (forall b {:trigger Stored(g, files, b, blocks[b])} ::
            g.volume <= b < |blocks| ==> Stored(g, files, b, blocks[b]))
      && (forall p :: p in files ==> p < |blocks|)
    }

    lemma Facts()
      requires Valid()
      ensures g.Valid() && AllSized(blocks, g.words) && |blocks| == supBlkno as int <= g.blknoMax && 8 <= g.words
    {
    }

    constructor (g: Geometry)
      requires g.Valid()
      ensures Valid() && this.g == g && fresh(this)
      ensures blocks == seq(g.volume, _ => ZeroBlock(g.words))
    {
      this.g := g;
      supBlkno := g.volume;
      volume := seq(g.volume, _ => ZeroBlock(g.words));
      files := map[];
      table := EmptyTable(g);
      blocks := seq(g.volume, _ => ZeroBlock(g.words));
    }

    /** The place a block number names, whatever the table holds. */
    ghost function Home(b: nat): Location
      requires g.Valid()
    {
      if b < g.volume then InVolume(b) else InPage(PageOf(g, b), Offset(g, b))
    }

    /** `getBlock`: may replace a mapped page, and fails exactly on numbers outside the store. */
    method GetBlock(b: Word) returns (loc: Location)
      requires Valid()
      modifies `table
      ensures Valid()
      ensures if b < supBlkno then loc == Home(b) else loc == Nowhere
      ensures loc.InPage? ==> g.volume <= loc.page
      ensures table == TableAfter(old(table), b)
    {
      if b < g.volume {
        return InVolume(b);
      } else if g.volume <= b < g.blknoMax && b < supBlkno {
        assert Stored(g, files, b, blocks[b]);
        var page := PageOf(g, b);
        var found := Lookup(g, table, page);
        AccessMaps(g, table, page);
        if found == Unmapped {
          table := Install(g, table, page);
          found := Lookup(g, table, page);
        }
        return InPage(found.page, Offset(g, b));
      } else {
        return Nowhere;
      }
    }

    /** The table after `getBlock` was asked for block `b`. */
    ghost function TableAfter(t: seq<Entry>, b: Word): seq<Entry>
      requires g.Valid() && |t| == g.slots
      reads `supBlkno
    {
      if g.volume <= b < supBlkno && g.volume <= PageOf(g, b) then Access(g, t, PageOf(g, b)) else t
    }

    /** A location `getBlock` gave earlier can still be written through. */
    predicate StillMapped(loc: Location)
      requires g.Valid() && |table| == g.slots
      requires loc.InPage? ==> g.volume <= loc.page
      reads `table
    {
      match loc
      case Nowhere => false
      case InVolume(_) => true
      case InPage(page, _) => Lookup(g, table, page) == Mapped(page)
    }

    /** A page pointer held while another block is looked up stays good exactly when that page is not displaced. */
    lemma HeldPage(t: seq<Entry>, b: Word, c: Word)
      requires Valid() && TableOk(g, t) && g.volume <= b < supBlkno && c < supBlkno
      ensures g.volume <= PageOf(g, b)
      ensures Lookup(g, TableAfter(t, b), PageOf(g, b)) == Mapped(PageOf(g, b))
      ensures Lookup(g, TableAfter(TableAfter(t, b), c), PageOf(g, b)) == Mapped(PageOf(g, b))
        <==> !Displaced(g, b, c)
    {
      assert Stored(g, files, b, blocks[b]);
      AccessMaps(g, t, PageOf(g, b));
      if g.volume <= c {
        assert Stored(g, files, c, blocks[c]);
        PointerSurvives(g, t, PageOf(g, b), PageOf(g, c));
      }
    }

    method LoadBlock(b: Word) returns (blk: Block)
      requires Valid() && b < supBlkno
      modifies `table
      ensures Valid() && blk == blocks[b]
      ensures table == TableAfter(old(table), b)
    {
      var loc := GetBlock(b);
      assert b >= g.volume ==> Stored(g, files, b, blocks[b]);
      blk := if loc.InVolume? then volume[loc.index] else files[loc.page][loc.offset];
    }

    method StoreBlock(b: Word, blk: Block)
      requires Valid() && b < supBlkno && |blk| == g.words
      modifies `table, `volume, `files, `blocks
      ensures Valid() && blocks == old(blocks)[b := blk]
    {
      var loc := GetBlock(b);
      assert b >= g.volume ==> Stored(g, files, b, blocks[b]);
      if loc.InVolume? {
        volume := volume[loc.index := blk];
      } else {
        files := files[loc.page := files[loc.page][loc.offset := blk]];
      }
      blocks := blocks[b := blk];
      forall c | g.volume <= c < |blocks| ensures Stored(g, files, c, blocks[c]) {
        assert Stored(g, old(files), c, old(blocks)[c]);
        if PageOf(g, c) == PageOf(g, b) && Offset(g, c) == Offset(g, b) {
          HomeInjective(g, b, c);
        }
      }
    }

    method LoadWord(b: Word, i: nat) returns (w: Word)
      requires Valid() && b < supBlkno && i < g.words
      modifies `table
      ensures Valid() && w == blocks[b][i]
      ensures table == TableAfter(old(table), b)
    {
      var blk := LoadBlock(b);
      w := blk[i];
    }

    method StoreWord(b: Word, i: nat, w: Word)
      requires Valid() && b < supBlkno && i < g.words
      modifies `table, `volume, `files, `blocks
      ensures Valid() && blocks == SetWord(old(blocks), b, i, w)
    {
      var blk := LoadBlock(b);
      blk := blk[i := w];
      StoreBlock(b, blk);
    }

    // ------------------------------------------------------------ index block operations, in place

    method InitIndexBlock(b: Word)
      requires Valid() && b < supBlkno
      modifies `table, `volume, `files, `blocks
      ensures Valid() && blocks == SetWord(old(blocks), b, COUNT, 0)
    {
      StoreWord(b, COUNT, 0);
    }

    method IsAtBottom(b: Word) returns (yes: bool)
      requires Valid() && b < supBlkno
      modifies `table
      ensures Valid() && (yes <==> blocks[b][COUNT] == 1)
    {
      var count := LoadWord(b, COUNT);
      yes := count == 1;
    }

    method IsAtTop(b: Word) returns (yes: bool)
      requires Valid() && b < supBlkno
      modifies `table
      ensures Valid() && (yes <==> Full(blocks, b))
      ensures table == TableAfter(old(table), b)
    {
      var count := LoadWord(b, COUNT);
      yes := count as int == g.words - 1;
    }

    method PushIndex(b: Word, blkno: Word)
      requires Valid() && b < supBlkno && blocks[b][COUNT] as int + 1 < g.words
      modifies `table, `volume, `files, `blocks
      ensures Valid()
      ensures var count := AddWord(old(blocks[b][COUNT]), 1);
              blocks == SetWord(SetWord(old(blocks), b, COUNT, count), b, count, blkno)
    {
      var count := LoadWord(b, COUNT);
      count := AddWord(count, 1);
      StoreWord(b, COUNT, count);
      StoreWord(b, count, blkno);
    }

    method PopIndex(b: Word) returns (blkno: Word)
      requires Valid() && b < supBlkno && 1 <= blocks[b][COUNT] as int < g.words
      modifies `table, `volume, `files, `blocks
      ensures Valid()
      ensures blkno == old(blocks[b][blocks[b][COUNT]])
      ensures blocks == SetWord(old(blocks), b, COUNT, SubWord(old(blocks[b][COUNT]), 1))
    {
      var count := LoadWord(b, COUNT);
      blkno := LoadWord(b, count);
      StoreWord(b, COUNT, SubWord(count, 1));
    }

    /**
     The page added by `requireUnallocated`: a new zero-filled file is mapped and the bound moves up, also
     when that takes it past the largest block number.
     */
    method AddPage()
      requires Valid() && supBlkno < g.blknoMax
      modifies `table, `files, `blocks, `supBlkno
      ensures supBlkno == AddWord(old(supBlkno), g.page)
      ensures blocks == old(blocks) + seq(g.page, _ => ZeroBlock(g.words))
      ensures Valid() <==> old(supBlkno) + g.page <= g.blknoMax
    {
      var page := PageOf(g, supBlkno);
      forall b: nat | supBlkno <= b < supBlkno + g.page
        ensures PageOf(g, b) == supBlkno && Offset(g, b) == b - supBlkno
      {
        PageBlocks(g, supBlkno, b);
      }
      assert page == supBlkno;
      files := files[page := seq(g.page, _ => ZeroBlock(g.words))];
      table := Install(g, table, page);
      blocks := blocks + seq(g.page, _ => ZeroBlock(g.words));
      supBlkno := AddWord(supBlkno, g.page);
      if old(supBlkno) + g.page <= g.blknoMax {
        assert supBlkno as int == old(supBlkno) as int + g.page;
        PageBlocks(g, old(supBlkno), old(supBlkno));
        forall b | g.volume <= b < |blocks| ensures Stored(g, files, b, blocks[b]) {
          if b < old(supBlkno) {
            assert Stored(g, old(files), b, old(blocks)[b]);
          }
        }
      }
    }
  }
}
