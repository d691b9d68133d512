/**
 What a bucket holds after a run of different blocks was written to a cache one after the other.
 */
module CachedRun {
  import opened BlockFormat
  import opened Ownership
  import opened LruModel

  /** The items of a run that fall into bucket `h`, the latest first. */
  ghost function Latest(run: seq<Item>, h: nat, hash: (Word, Word) -> nat): seq<Item> {
    if run == [] then []
    else
      (if hash(Last(run).key.vtxno, Last(run).key.blkno) == h then [Last(run)] else []) + Latest(Front(run), h, hash)
  }

  ghost function First(s: seq<Item>, n: nat): seq<Item> {
    if |s| <= n then s else s[..n]
  }

  /** The bucket starts with the latest items, up to its window. */
  ghost predicate Held(b: Bucket, latest: seq<Item>, window: nat) {
    First(latest, window) <= b
  }

  /** A write of an item that is not among the first `n` puts it before them. */
  lemma WritePushesDown(b: Bucket, window: nat, item: Item, n: nat)
    requires 0 < window && |b| <= window && n <= |b|
    requires forall i :: 0 <= i < n ==> b[i].key != item.key
    ensures var b' := AfterWrite(b, window, item.key, item.data);
            && |b'| >= (if n < window then n + 1 else window) && b'[0] == item
            && forall i :: 0 <= i < n && i + 1 < window ==> b'[i + 1] == b[i]
  {
    assert n <= Position(b, item.key);
  }

  /** A new item pushes the others down by one. */
  lemma HeldAfterWrite(b: Bucket, latest: seq<Item>, window: nat, item: Item)
    requires 0 < window && |b| <= window && Held(b, latest, window)
    requires forall i :: 0 <= i < |latest| ==> latest[i].key != item.key
    ensures Held(AfterWrite(b, window, item.key, item.data), [item] + latest, window)
  {
    var first, first' := First(latest, window), First([item] + latest, window);
    assert forall i :: 0 <= i < |first| ==> b[i] == first[i] == latest[i];
    WritePushesDown(b, window, item, |first|);
    hide AfterWrite;
    var b' := AfterWrite(b, window, item.key, item.data);
    forall i | 0 <= i < |first'| ensures first'[i] == b'[i] {
      assert i > 0 ==> first'[i] == latest[i - 1] && b'[i] == b[i - 1];
    }
    assert first' == b'[..|first'|];
  }

  lemma {:induction false} LatestMembers(run: seq<Item>, h: nat, hash: (Word, Word) -> nat)
    ensures forall x :: x in Latest(run, h, hash) ==> x in run && hash(x.key.vtxno, x.key.blkno) == h
  {
    if run != [] {
      LatestMembers(Front(run), h, hash);
    }
  }

  lemma {:induction false} LatestAppend(a: seq<Item>, b: seq<Item>, h: nat, hash: (Word, Word) -> nat)
    ensures Latest(a + b, h, hash) == Latest(b, h, hash) + Latest(a, h, hash)
  {
    if b == [] {
      assert a + b == a;
    } else {
      LatestAppend(a, Front(b), h, hash);
      assert Last(a + b) == Last(b) && Front(a + b) == a + Front(b);
      var last := if hash(Last(b).key.vtxno, Last(b).key.blkno) == h then [Last(b)] else [];
      var x, y := Latest(Front(b), h, hash), Latest(a, h, hash);
      assert Latest(a + b, h, hash) == last + (x + y);
      assert last + (x + y) == (last + x) + y;
    }
  }

  lemma {:induction false} LatestDistinct(run: seq<Item>, h: nat, hash: (Word, Word) -> nat)
    requires DistinctKeys(run)
    ensures DistinctKeys(Latest(run, h, hash))
  {
    if run != [] {
      LatestDistinct(Front(run), h, hash);
      LatestMembers(Front(run), h, hash);
    }
  }

  /** An item is found exactly when it is among the first of the latest ones. */
  lemma HeldFound(b: Bucket, latest: seq<Item>, window: nat, i: nat)
    requires |b| <= window && Held(b, latest, window) && DistinctKeys(b) && DistinctKeys(latest) && i < |latest|
    ensures Found(b, latest[i].key) == if i < window then Hit(latest[i].data) else Miss
  {
    var first, p := First(latest, window), Position(b, latest[i].key);
    assert forall j :: 0 <= j < |first| ==> b[j] == first[j] == latest[j];
    assert i < window ==> b[i] == latest[i];
  }

  /** Item `i` of a run is found exactly when fewer than a window of later ones fell into its bucket. */
  lemma RunFound(b: Bucket, run: seq<Item>, window: nat, i: nat, hash: (Word, Word) -> nat)
    requires DistinctKeys(run) && i < |run|
    requires var h := hash(run[i].key.vtxno, run[i].key.blkno);
             |b| <= window && DistinctKeys(b) && Held(b, Latest(run, h, hash), window)
    ensures var h := hash(run[i].key.vtxno, run[i].key.blkno);
            Found(b, run[i].key) == if |Latest(run[i + 1..], h, hash)| < window then Hit(run[i].data) else Miss
  {
    var h := hash(run[i].key.vtxno, run[i].key.blkno);
    var older, later := run[..i + 1], run[i + 1..];
    assert run == older + later;
    LatestAppend(older, later, h, hash);
    LatestDistinct(run, h, hash);
    assert Latest(older, h, hash)[0] == run[i];
    HeldFound(b, Latest(run, h, hash), window, |Latest(later, h, hash)|);
  }
}
