/**
 The doubly linked block list of one vertex: what the words of its blocks must say for the list to stand
 for a sequence of block numbers, and what an insertion or deletion of links does to it.
 */
module BlockLists {
  import opened BlockFormat
  import opened Ownership
  import opened SubgraphModel

  /** Block `list[i]` names the vertex, links to both neighbours and carries its body. */
  ghost predicate Carries(mem: seq<Block>, source: Word, list: seq<nat>, i: nat, body: map<nat, Body>)
    requires i < |list|
  {
    && list[i] < |mem|
    && list[i] in body
    && Holds(mem[list[i]], source, Before(list, i, INVALID_BLOCKNO), After(list, i, INVALID_BLOCKNO), body[list[i]])
  }

  ghost predicate Holds(blk: Block, source: Word, prev: nat, next: nat, content: Body) {
    && BODY < |blk|
    && blk[SOURCE] == source
    && blk[PREV] == prev
    && blk[NEXT] == next
    && blk[BODY..] == content
  }

  function HeadOf(list: seq<nat>): nat {
    if list == [] then INVALID_BLOCKNO else list[0]
  }

  function TailOf(list: seq<nat>): nat {
    if list == [] then INVALID_BLOCKNO else list[|list| - 1]
  }

  ghost predicate Linked(mem: seq<Block>, vtx: Vertex, list: seq<nat>, body: map<nat, Body>) {
    && vtx.head == HeadOf(list)
    && vtx.tail == TailOf(list)
    && forall i :: 0 <= i < |list| ==> Carries(mem, vtx.source, list, i, body)
  }

  /** Changes to other blocks and to their bodies do not matter. */
  lemma LinkedFrame(mem: seq<Block>, mem': seq<Block>, vtx: Vertex, vtx': Vertex, list: seq<nat>,
                    body: map<nat, Body>, body': map<nat, Body>)
    requires Linked(mem, vtx, list, body) && |mem| <= |mem'|
    requires vtx'.head == vtx.head && vtx'.tail == vtx.tail && vtx'.source == vtx.source
    requires forall i :: 0 <= i < |list| && list[i] < |mem| ==> mem'[list[i]] == mem[list[i]]
    requires forall i :: 0 <= i < |list| && list[i] in body ==> list[i] in body' && body'[list[i]] == body[list[i]]
    ensures Linked(mem', vtx', list, body')
  {
    forall i | 0 <= i < |list| ensures Carries(mem', vtx'.source, list, i, body') {
      assert Carries(mem, vtx.source, list, i, body);
    }
  }

  /** The words written around position `k` when block `b` is linked in there. */
  ghost predicate LinkedIn(mem: seq<Block>, mem': seq<Block>, source: Word, list: seq<nat>, k: nat, b: Word,
                           content: Body)
    requires k <= |list|
  {
    && |mem| <= |mem'|
    && b < |mem'|
    && Holds(mem'[b], source, Before(list, k, INVALID_BLOCKNO),
             if k == |list| then INVALID_BLOCKNO else list[k], content)
    && forall i {:trigger list[i]} :: 0 <= i < |list| && list[i] < |mem| && BODY < |mem[list[i]]| ==>
         mem'[list[i]] ==
           if i == k - 1 then Relink(mem[list[i]], NEXT, b)
           else if i == k then Relink(mem[list[i]], PREV, b)
           else mem[list[i]]
  }

  /** The words written around position `k` when the block there is unlinked. */
  ghost predicate LinkedOut(mem: seq<Block>, mem': seq<Block>, list: seq<nat>, k: nat)
    requires k < |list|
  {
    && |mem| <= |mem'|
    && forall i {:trigger list[i]} :: 0 <= i < |list| && i != k && list[i] < |mem| && BODY < |mem[list[i]]| ==>
         if i == k - 1 then Relinked(mem[list[i]], mem'[list[i]], NEXT, After(list, k, INVALID_BLOCKNO))
         else if i == k + 1 then Relinked(mem[list[i]], mem'[list[i]], PREV, Before(list, k, INVALID_BLOCKNO))
         else mem'[list[i]] == mem[list[i]]
  }

  function Relink(blk: Block, field: nat, w: Word): Block
    requires field < |blk|
  {
    blk[field := w]
  }

  /** Like `Relink`, for a link value known only to be a block number. */
  ghost predicate Relinked(blk: Block, blk': Block, field: nat, n: nat)
    requires field < |blk|
  {
    n < 0x1_0000_0000 && blk' == Relink(blk, field, n)
  }

  lemma InsertLinks(mem: seq<Block>, mem': seq<Block>, vtx: Vertex, vtx': Vertex, list: seq<nat>,
                    body: map<nat, Body>, k: nat, b: Word, content: Body)
    requires Linked(mem, vtx, list, body) && k <= |list| && b as nat !in list
    requires LinkedIn(mem, mem', vtx.source, list, k, b, content)
    requires vtx'.source == vtx.source
    requires vtx'.head == (if k == 0 then b else vtx.head)
    requires vtx'.tail == (if k == |list| then b else vtx.tail)
    ensures Linked(mem', vtx', Insert(list, k, b), body[b as nat := content])
  {
    var list' := Insert(list, k, b);
    var body' := body[b as nat := content];
    forall i | 0 <= i < |list'| ensures Carries(mem', vtx'.source, list', i, body') {
      if i < k {
        assert list'[i] == list[i];
        assert list[i] in list;
        assert Carries(mem, vtx.source, list, i, body);
      } else if i > k {
        assert list'[i] == list[i - 1];
        assert list[i - 1] in list;
        assert Carries(mem, vtx.source, list, i - 1, body);
      }
    }
  }

  /** What each block that stays says after the removal. */
  lemma DeleteCarries(mem: seq<Block>, mem': seq<Block>, source: Word, list: seq<nat>, body: map<nat, Body>,
                      k: nat, i: nat)
    requires k < |list| && NoDup(list) && i < |list| - 1 && LinkedOut(mem, mem', list, k)
    requires forall j :: 0 <= j < |list| ==> Carries(mem, source, list, j, body)
    ensures Carries(mem', source, Delete(list, k), i, body - {list[k]})
  {
    var list' := Delete(list, k);
    var j := if i < k then i else i + 1;
    assert list'[i] == list[j] && list[j] != list[k];
    assert Carries(mem, source, list, j, body);
    hide NoDup;
    assert i > 0 ==> list'[i - 1] == list[if i - 1 < k then i - 1 else i];
    assert i + 1 < |list'| ==> list'[i + 1] == list[if i + 1 < k then i + 1 else i + 2];
  }

  lemma DeleteLinks(mem: seq<Block>, mem': seq<Block>, vtx: Vertex, vtx': Vertex, list: seq<nat>,
                    body: map<nat, Body>, k: nat)
    requires Linked(mem, vtx, list, body) && k < |list| && NoDup(list)
    requires LinkedOut(mem, mem', list, k)
    requires vtx'.source == vtx.source
    requires vtx'.head == (if k == 0 then After(list, 0, INVALID_BLOCKNO) else vtx.head as nat)
    requires vtx'.tail == (if k == |list| - 1 then Before(list, k, INVALID_BLOCKNO) else vtx.tail as nat)
    ensures Linked(mem', vtx', Delete(list, k), body - {list[k]})
  {
    var list' := Delete(list, k);
    forall i | 0 <= i < |list'| ensures Carries(mem', vtx'.source, list', i, body - {list[k]}) {
      DeleteCarries(mem, mem', vtx.source, list, body, k, i);
    }
  }
}
