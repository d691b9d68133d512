/**
 The free list of a subgraph: an unrolled linked list of index blocks kept inside the free blocks, and the
 stack of block numbers it stands for (bottom first, so the top is the last element).
 */
module FreeList {
  import opened BlockFormat
  import opened Ownership

  ghost predicate AllSized(mem: seq<Block>, words: nat) {
    forall b :: 0 <= b < |mem| ==> |mem[b]| == words
  }

  /** An index block filled to capacity. */
  ghost predicate Full(mem: seq<Block>, b: nat) {
    b < |mem| && 2 <= |mem[b]| && mem[b][COUNT] == |mem[b]| - 1
  }

  /**
   `head` starts a chain that stores exactly the stack `stack`: the head holds the top
   `mem[head][COUNT]` entries, its own number lowest among them, and every block below it is full.
   */
  ghost predicate Chain(mem: seq<Block>, head: Word, stack: seq<nat>)
    decreases |stack|
  {
    if stack == [] then
      head == INVALID_BLOCKNO
    else
      && head < |mem|
      && HoldsTop(mem[head], head, stack)
      && var base := |stack| - mem[head][COUNT];
      && (base > 0 ==> Full(mem, mem[head][LINK]))
      && Chain(mem, mem[head][LINK], stack[..base])
  }

  /** The index words of block number `head` hold the top of the stack, its own number lowest. */
  ghost predicate HoldsTop(block: Block, head: Word, stack: seq<nat>) {
    && 2 <= |block|
    && 1 <= block[COUNT] < |block|
    && var base := |stack| - block[COUNT];
    && 0 <= base
    && stack[base] == head
    && (forall i {:trigger block[i]} :: 2 <= i <= block[COUNT] ==> block[i] == stack[base + i - 1])
  }

  /** How many entries of the stack lie below the head's own number. */
  ghost function Base(mem: seq<Block>, head: Word, stack: seq<nat>): (base: nat)
    requires Chain(mem, head, stack) && stack != []
    ensures base < |stack| && stack[base] == head
  {
    |stack| - mem[head][COUNT]
  }

  /**
   The words of the head: in word 0 the number of its entries, in word 1 the next head, which lies as many entries
   below as a block holds, and from word 2 on the entries above its own.
   */
  ghost predicate HeadWords(block: Block, stack: seq<nat>, words: nat)
    requires 2 <= words && stack != []
  {
    var n := Mod(|stack| - 1, words - 1) + 1;
    && |block| == words && n <= |stack| && block[0] as int == n
    && (if n < |stack| then words - 1 <= |stack| - n && block[1] as nat == stack[|stack| - n - (words - 1)]
        else block[1] == INVALID_BLOCKNO)
    && forall i {:trigger block[i]} :: 2 <= i <= n ==> block[i] as nat == stack[|stack| - n + i - 1]
  }

  lemma {:induction false} ModNext(x: nat, m: nat)
    requires 1 <= m && Mod(x, m) == m - 1
    ensures Mod(x + 1, m) == 0
  {
    if m <= x {
      ModNext(x - m, m);
    }
  }

  /** The number of entries alone says how many of them the head holds, so it says which entry is the head. */
  lemma {:induction false} HeadCount(mem: seq<Block>, head: Word, stack: seq<nat>, words: nat)
    requires Chain(mem, head, stack) && stack != [] && AllSized(mem, words)
    ensures 2 <= words && mem[head][COUNT] as int == Mod(|stack| - 1, words - 1) + 1 <= |stack|
    ensures head as nat == stack[|stack| - 1 - Mod(|stack| - 1, words - 1)]
    ensures Full(mem, head) <==> Mod(|stack|, words - 1) == 0
    ensures Full(mem, head) ==> words - 1 <= |stack| && head as nat == stack[|stack| - (words - 1)]
    ensures HeadWords(mem[head], stack, words)
    decreases |stack|
  {
    var m, count := words - 1, mem[head][COUNT];
    var base := Base(mem, head, stack);
    if base > 0 {
      HeadCount(mem, mem[head][LINK], stack[..base], words);
      ModNext(base - 1, m);
    }
    ModAdd(base, count - 1, m);
    if count as int == m {
      assert Mod(base + m, m) == Mod(base, m);
    } else {
      ModAdd(base, count, m);
    }
  }

  /** `mem'` agrees with `mem` on every block but `x`. */
  ghost predicate AgreeBut(mem: seq<Block>, mem': seq<Block>, x: nat) {
    && |mem| <= |mem'|
    && forall b {:trigger mem'[b]} :: 0 <= b < |mem| && b != x ==> mem'[b] == mem[b]
  }

  ghost predicate InRange(mem: seq<Block>, stack: seq<nat>) {
    forall i :: 0 <= i < |stack| ==> stack[i] < |mem|
  }

  /** Blocks outside the stack are free to change. */
  lemma {:induction false} ChainFrame(mem: seq<Block>, mem': seq<Block>, head: Word, stack: seq<nat>)
    requires Chain(mem, head, stack) && |mem| <= |mem'|
    requires forall i :: 0 <= i < |stack| ==> stack[i] < |mem| && mem'[stack[i]] == mem[stack[i]]
    ensures Chain(mem', head, stack)
    decreases |stack|
  {
    if stack != [] {
      var base := Base(mem, head, stack);
      var link, below := mem[head][LINK], stack[..base];
      if base > 0 {
        assert link == below[Base(mem, link, below)];
      }
      ChainFrame(mem, mem', link, below);
    }
  }

  /** A chain determines its stack: no two stacks are stored by the same words. */
  lemma {:induction false} ChainUnique(mem: seq<Block>, head: Word, s: seq<nat>, t: seq<nat>)
    requires Chain(mem, head, s) && Chain(mem, head, t) && |mem| <= INVALID_BLOCKNO
    ensures s == t
    decreases |s|
  {
    if s != [] && t != [] {
      var count := mem[head][COUNT];
      var a, b := |s| - count, |t| - count;
      ChainUnique(mem, mem[head][LINK], s[..a], t[..b]);
      forall i | 0 <= i < |s| ensures s[i] == t[i] {
        if i < a {
          assert s[..a][i] == t[..b][i];
        } else if i > a {
          assert mem[head][i - a + 1] == s[a + (i - a + 1) - 1];
          assert mem[head][i - a + 1] == t[b + (i - a + 1) - 1];
        }
      }
    }
  }

  /** What lies below the head does not depend on the head's own words. */
  lemma BelowHead(mem: seq<Block>, mem': seq<Block>, head: Word, stack: seq<nat>)
    requires Chain(mem, head, stack) && stack != []
    requires NoDup(stack) && InRange(mem, stack) && AgreeBut(mem, mem', head)
    ensures Chain(mem', mem[head][LINK], stack[..Base(mem, head, stack)])
    ensures Base(mem, head, stack) > 0 ==> Full(mem', mem[head][LINK])
  {
    var base := Base(mem, head, stack);
    var link, below := mem[head][LINK], stack[..base];
    assert forall i :: 0 <= i < base ==> below[i] == stack[i] && stack[i] != stack[base];
    if base > 0 {
      assert link == below[Base(mem, link, below)];
    }
    ChainFrame(mem, mem', link, below);
  }

  /** releaseRaw on an empty list or a full head: the released block becomes the new head. */
  lemma PushNewHead(mem: seq<Block>, mem': seq<Block>, head: Word, stack: seq<nat>, b: Word)
    requires Chain(mem, head, stack)
    requires stack == [] || Full(mem, head)
    requires b < |mem| && b !in stack && InRange(mem, stack) && AgreeBut(mem, mem', b)
    requires 2 <= |mem'[b]| && mem'[b][COUNT] == 1 && mem'[b][LINK] == head
    ensures Chain(mem', b, stack + [b])
  {
    assert forall i :: 0 <= i < |stack| ==> stack[i] in stack;
    ChainFrame(mem, mem', head, stack);
    assert (stack + [b])[..|stack|] == stack;
    if stack != [] {
      assert head == stack[Base(mem, head, stack)];
    }
  }

  /** releaseRaw on a head with room: the number goes into the next index word. */
  lemma PushIntoHead(mem: seq<Block>, mem': seq<Block>, head: Word, stack: seq<nat>, b: Word, count: Word)
    requires Chain(mem, head, stack) && stack != [] && !Full(mem, head)
    requires NoDup(stack) && InRange(mem, stack)
    requires count as int == (mem[head][COUNT] as int) + 1
    requires mem' == SetWord(SetWord(mem, head, COUNT, count), head, count, b)
    ensures Chain(mem', head, stack + [b])
  {
    var base := Base(mem, head, stack);
    BelowHead(mem, mem', head, stack);
    assert (stack + [b])[..base] == stack[..base];
    assert HoldsTop(mem'[head], head, stack + [b]);
  }

  /** requireAllocated with the head at its bottom: the head block itself is handed out. */
  lemma PopHead(mem: seq<Block>, mem': seq<Block>, head: Word, stack: seq<nat>)
    requires Chain(mem, head, stack) && stack != [] && mem[head][COUNT] == 1
    requires NoDup(stack) && InRange(mem, stack) && AgreeBut(mem, mem', head)
    ensures head == Last(stack)
    ensures Chain(mem', mem[head][LINK], Front(stack))
  {
    BelowHead(mem, mem', head, stack);
  }

  /** requireAllocated otherwise: the last index word is handed out. */
  lemma PopIndexWord(mem: seq<Block>, mem': seq<Block>, head: Word, stack: seq<nat>, count: Word)
    requires Chain(mem, head, stack) && stack != [] && mem[head][COUNT] > 1
    requires NoDup(stack) && InRange(mem, stack)
    requires count == mem[head][COUNT] - 1
    requires mem' == SetWord(mem, head, COUNT, count)
    ensures mem[head][mem[head][COUNT]] == Last(stack)
    ensures Chain(mem', head, Front(stack))
  {
    var base := Base(mem, head, stack);
    BelowHead(mem, mem', head, stack);
    assert Front(stack)[..base] == stack[..base];
    assert HoldsTop(mem'[head], head, Front(stack));
  }

  // ---------------------------------------------------------------- stray writes

  /** The other way around for a new head: what the chain stores is the new number on what the old chain stored. */
  lemma NewHeadOnly(mem: seq<Block>, mem': seq<Block>, head: Word, b: Word, t: seq<nat>)
    requires Chain(mem', b, t) && NoDup(t) && InRange(mem', t) && b != INVALID_BLOCKNO
    requires |mem| == |mem'| && AgreeBut(mem, mem', b) && mem'[b][COUNT] == 1 && mem'[b][LINK] == head
    ensures t != [] && Last(t) == b && Chain(mem, head, Front(t))
  {
    BelowHead(mem', mem, b, t);
  }

  lemma TopWithout(blk: Block, blk': Block, head: Word, b: Word, count: Word, t: seq<nat>)
    requires 2 <= count as int < |blk| && blk[COUNT] == count - 1 && blk' == blk[COUNT := count][count := b]
    requires HoldsTop(blk', head, t)
    ensures Last(t) == b && HoldsTop(blk, head, Front(t))
  {
    var base := |t| - count;
    assert blk'[count] == t[base + count - 1];
    forall i {:trigger blk[i]} | 2 <= i <= blk[COUNT] ensures blk[i] == Front(t)[base + i - 1] {
      assert blk'[i] == t[base + i - 1];
    }
  }

  /** And for a number put into the head. */
  lemma IntoHeadOnly(mem: seq<Block>, mem': seq<Block>, head: Word, b: Word, count: Word, t: seq<nat>)
    requires Chain(mem', head, t) && NoDup(t) && InRange(mem', t) && head as int < |mem| <= INVALID_BLOCKNO
    requires 2 <= count as int < |mem[head]| && mem[head][COUNT] == count - 1
    requires mem' == SetWord(SetWord(mem, head, COUNT, count), head, count, b)
    ensures t != [] && Last(t) == b && Chain(mem, head, Front(t))
  {
    var base := Base(mem', head, t);
    TopWithout(mem[head], mem'[head], head, b, count, t);
    BelowHead(mem', mem, head, t);
    assert Front(t)[..base] == t[..base];
  }

  /**
   Writes into two blocks cannot lose both: a chain from the same head that differs in `x` and `y` alone still
   stores one of them, if it stored `y`.
   */
  lemma {:induction false} Stays(mem: seq<Block>, mem': seq<Block>, head: Word, s: seq<nat>, t: seq<nat>,
                                 x: nat, y: nat)
    requires Chain(mem, head, s) && Chain(mem', head, t) && |mem| == |mem'| <= INVALID_BLOCKNO && InRange(mem, s)
    requires forall i :: 0 <= i < |s| && s[i] != x && s[i] != y ==> mem'[s[i]] == mem[s[i]]
    requires y in s
    ensures x in t || y in t
    decreases |s|
  {
    var a := Base(mem, head, s);
    var b := Base(mem', head, t);
    assert t[b] == head && s[a] == head;
    if head as nat != x && head as nat != y {
      assert mem'[head] == mem[head];
      var k := IndexOf(s, y);
      if a <= k {
        assert k == a || mem[head][k - a + 1] == s[k];
        assert k == a || mem'[head][k - a + 1] == t[b + (k - a + 1) - 1];
        assert t[b + (k - a)] == y;
      } else {
        assert s[..a][k] == y;
        Stays(mem, mem', mem[head][LINK], s[..a], t[..b], x, y);
      }
    }
  }
}
