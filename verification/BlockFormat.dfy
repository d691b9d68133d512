/**
 The words of a block and of a superblock, as `nynn_mm_types.h` lays them out.

 A block is a union: the same words are either the index words of a free-list block (a count, the next
 head and free block numbers) or the header and content of a live block.  The model keeps that overlay:
 a block is a sequence of 32-bit words and both views read the same positions.
 */
module BlockFormat {

  type Word = w: int | 0 <= w < 0x1_0000_0000

  const INVALID_BLOCKNO: Word := 0xFFFF_FFFF

  type Block = seq<Word>

  // View 1: an index block of the free list.
  const COUNT := 0
  const LINK := 1

  // View 2: a live block.
  const SOURCE := 0
  const PREV := 1
  const NEXT := 2
  const BODY := 3   // timestamps, content size and content: everything the list operations do not write

  datatype Vertex = Vertex(source: Word, data: Word, size: Word, head: Word, tail: Word)

  /** A vertex as its constructor leaves it. */
  function NewVertex(source: Word): Vertex {
    Vertex(source, 0, 0, INVALID_BLOCKNO, INVALID_BLOCKNO)
  }

  /** A vertex of a superblock file that is all zero. */
  function ZeroVertex(): Vertex {
    Vertex(0, 0, 0, 0, 0)
  }

  /** The template parameters of a subgraph, kept symbolic.  `page` is OVERFLOW_BLOCKNO_MASK + 1. */
  datatype Geometry = Geometry(words: nat, volume: nat, page: nat, blknoMax: nat, slots: nat, width: nat) {
    ghost predicate Valid() {
      && 8 <= words <= 0x4000_0000
      && 1 <= page <= 0x4000_0000
      && Mod(volume, page) == 0
      && volume <= blknoMax <= INVALID_BLOCKNO
      && 1 <= slots
      && 1 <= width < 0x1_0000_0000
    }
  }

  /** Remainder and quotient by repeated subtraction, which keeps the arithmetic linear. */
  function Mod(x: nat, m: nat): (r: nat)
    requires 1 <= m
    ensures r < m && r <= x
  {
    if x < m then x else Mod(x - m, m)
  }

  function Div(x: nat, m: nat): nat
    requires 1 <= m
  {
    if x < m then 0 else 1 + Div(x - m, m)
  }

  /** They are the machine's `/` and `%` on unsigned numbers. */
  lemma {:induction false} DivModAgree(x: nat, m: nat)
    requires 1 <= m
    ensures x == Div(x, m) * m + Mod(x, m)
    ensures Div(x, m) == x / m && Mod(x, m) == x % m
    decreases x
  {
    if x >= m {
      DivModAgree(x - m, m);
      assert Div(x, m) * m == Div(x - m, m) * m + m;
    }
    QuotientUnique(x, m, Div(x, m), Mod(x, m));
  }

  lemma QuotientUnique(x: nat, m: nat, q: nat, r: nat)
    requires 1 <= m && r < m && x == q * m + r
    ensures q == x / m && r == x % m
  {
    var d := x / m - q;
    assert x == (x / m) * m + x % m;
    assert d * m == r - x % m;
    MulGap(d, m);
  }

  lemma MulGap(d: int, m: int)
    requires 0 < m
    ensures 1 <= d ==> m <= d * m
    ensures d <= -1 ==> d * m <= -m
  {
  }

  lemma {:induction false} ModAdd(x: nat, r: nat, m: nat)
    requires r < m && Mod(x, m) == 0
    ensures Mod(x + r, m) == r
    decreases x
  {
    if m <= x {
      ModAdd(x - m, r, m);
    }
  }

  lemma {:induction false} DivBound(x: nat, n: nat, m: nat)
    requires 1 <= m && x < n * m
    ensures Div(x, m) < n
    decreases x
  {
    if m <= x {
      assert (n - 1) * m == n * m - m;
      assert n > 1;
      DivBound(x - m, n - 1, m);
    }
  }

  lemma {:induction false} DivModExact(n: nat, m: nat)
    requires 1 <= m
    ensures Div(n * m, m) == n && Mod(n * m, m) == 0
  {
    if n > 0 {
      assert n * m == (n - 1) * m + m;
      DivModExact(n - 1, m);
    }
  }

  lemma {:induction false} ModMultiple(x: nat, n: nat, m: nat)
    requires 1 <= m
    ensures Mod(x + n * m, m) == Mod(x, m)
  {
    if n > 0 {
      assert x + n * m == (x + (n - 1) * m) + m;
      ModMultiple(x, n - 1, m);
    }
  }

  function AddWord(a: int, b: int): Word {
    (a + b) % 0x1_0000_0000
  }

  function SubWord(a: int, b: int): Word {
    (a - b) % 0x1_0000_0000
  }

  /** The 16-bit content size, which sits in the low half of the word after the 28-byte header. */
  function ContentSize(body: seq<Word>): Word {
    if 5 <= |body| then body[4] % 0x1_0000 else 0
  }

  /** The size field is a 16-bit number `n`; the other half of its word belongs to the content. */
  lemma SizeField(body: seq<Word>, n: nat, hi: nat)
    requires 5 <= |body| && n < 0x1_0000 && body[4] as int == n + 0x1_0000 * hi
    ensures ContentSize(body) as int == n
  {
  }

  /** A size that grew by the 16-bit number in the low half of a word, in 32 bits. */
  ghost predicate SizeGrew(size: Word, size': Word, w: Word) {
    size' as int == (size + w % 0x1_0000) % 0x1_0000_0000
  }

  ghost predicate SizeShrank(size: Word, size': Word, w: Word) {
    size' as int == (size - w % 0x1_0000) % 0x1_0000_0000
  }

  lemma SizeMoves(size: Word, body: seq<Word>)
    requires 5 <= |body|
    ensures SizeGrew(size, AddWord(size, ContentSize(body)), body[4])
    ensures SizeShrank(size, SubWord(size, ContentSize(body)), body[4])
  {
  }

  /** Growing and shrinking by a size field are moving by the number it holds, whatever the other half of its word. */
  lemma SizeMovesBy(size: Word, size': Word, w: Word, n: nat, hi: nat)
    requires n < 0x1_0000 && w as int == n + 0x1_0000 * hi
    ensures SizeGrew(size, size', w) <==> size' as int == (size + n) % 0x1_0000_0000
    ensures SizeShrank(size, size', w) <==> size' as int == (size - n) % 0x1_0000_0000
  {
    assert w % 0x1_0000 == n;
  }

  /** The memory after one word of one block is overwritten. */
  function SetWord(mem: seq<Block>, b: nat, i: nat, w: Word): seq<Block>
    requires b < |mem| && i < |mem[b]|
  {
    var blk: Block := mem[b][i := w];
    mem[b := blk]
  }

  function ZeroBlock(words: nat): Block {
    seq(words, _ => 0)
  }
}
