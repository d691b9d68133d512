/**
 The block cache seen by its callers: one least-recently-used list of blocks per bucket, most recent first,
 and what it holds after any history of reads and writes.
 */
module LruModel {
  import opened BlockFormat
  import opened Ownership

  datatype Key = Key(vtxno: Word, blkno: Word)
  datatype Item = Item(key: Key, data: Block)
  datatype Lookup = Miss | Hit(data: Block)

  type Bucket = seq<Item>

  ghost predicate DistinctKeys(b: Bucket) {
    forall i, j :: 0 <= i < j < |b| ==> b[i].key != b[j].key
  }

  /** The position of a key, or the length when it is absent. */
  function Position(b: Bucket, k: Key): (i: nat)
    ensures i <= |b|
    ensures i < |b| ==> b[i].key == k
    ensures forall j :: 0 <= j < i ==> b[j].key != k
  {
    if b == [] || b[0].key == k then 0 else 1 + Position(b[1..], k)
  }

  function ToFront(b: Bucket, i: nat, item: Item): Bucket
    requires i < |b|
  {
    [item] + Delete(b, i)
  }

  function AfterRead(b: Bucket, k: Key): Bucket {
    var i := Position(b, k);
    if i < |b| then ToFront(b, i, b[i]) else b
  }

  function Found(b: Bucket, k: Key): Lookup {
    var i := Position(b, k);
    if i < |b| then Hit(b[i].data) else Miss
  }

  function AfterWrite(b: Bucket, window: nat, k: Key, data: Block): Bucket
    requires 0 < window
  {
    var i := Position(b, k);
    if i < |b| then ToFront(b, i, Item(k, data))
    else if |b| < window then [Item(k, data)] + b
    else [Item(k, data)] + Front(b)
  }

  // ---------------------------------------------------------------- histories of one bucket

  datatype Event = Reading(key: Key) | Writing(key: Key, data: Block)

  function Apply(b: Bucket, window: nat, e: Event): Bucket
    requires 0 < window
  {
    match e
    case Reading(k) => AfterRead(b, k)
    case Writing(k, data) => AfterWrite(b, window, k, data)
  }

  /** A write touches its key; a read does when it hits. */
  predicate Touched(b: Bucket, e: Event) {
    e.Writing? || Found(b, e.key).Hit?
  }

  /** The bucket after a history, starting empty. */
  ghost function Replay(window: nat, events: seq<Event>): Bucket
    requires 0 < window
  {
    if events == [] then [] else Apply(Replay(window, Front(events)), window, Last(events))
  }

  /** The keys touched, in order. */
  ghost function Touches(window: nat, events: seq<Event>): seq<Key>
    requires 0 < window
  {
    if events == [] then []
    else
      Touches(window, Front(events)) +
      (if Touched(Replay(window, Front(events)), Last(events)) then [Last(events).key] else [])
  }

  /** The distinct keys of a history of touches, last touched first. */
  ghost function Recency(touches: seq<Key>): seq<Key> {
    if touches == [] then [] else [Last(touches)] + Without(Recency(Front(touches)), Last(touches))
  }

  ghost function Without(keys: seq<Key>, k: Key): seq<Key> {
    if keys == [] then []
    else Without(Front(keys), k) + if Last(keys) == k then [] else [Last(keys)]
  }

  ghost function Keys(b: Bucket): seq<Key> {
    seq(|b|, i requires 0 <= i < |b| => b[i].key)
  }

  ghost function Take(keys: seq<Key>, n: nat): seq<Key> {
    if |keys| <= n then keys else keys[..n]
  }

  ghost predicate Distinct(keys: seq<Key>) {
    forall i, j :: 0 <= i < j < |keys| ==> keys[i] != keys[j]
  }

  ghost function KeySet(keys: seq<Key>): set<Key> {
    set k | k in keys
  }

  lemma AppendDistinct(keys: seq<Key>, k: Key)
    requires Distinct(keys) && k !in keys
    ensures Distinct(keys + [k]) && Distinct([k] + keys)
  {
  }

  lemma {:induction false} WithoutMembers(keys: seq<Key>, k: Key)
    requires Distinct(keys)
    ensures forall x :: x in Without(keys, k) <==> x in keys && x != k
    ensures Distinct(Without(keys, k))
  {
    if keys != [] {
      WithoutMembers(Front(keys), k);
      assert keys == Front(keys) + [Last(keys)];
      assert Last(keys) !in Front(keys);
      AppendDistinct(Without(Front(keys), k), Last(keys));
    }
  }

  lemma {:induction false} WithoutAbsent(keys: seq<Key>, k: Key)
    requires k !in keys
    ensures Without(keys, k) == keys
  {
    if keys != [] {
      assert keys == Front(keys) + [Last(keys)];
      WithoutAbsent(Front(keys), k);
    }
  }

  lemma {:induction false} WithoutAt(keys: seq<Key>, i: nat)
    requires Distinct(keys) && i < |keys|
    ensures Without(keys, keys[i]) == Delete(keys, i)
  {
    if i == |keys| - 1 {
      assert keys[i] !in Front(keys);
      WithoutAbsent(Front(keys), keys[i]);
      assert Delete(keys, i) == Front(keys);
    } else {
      WithoutAt(Front(keys), i);
      assert Delete(keys, i) == Delete(Front(keys), i) + [Last(keys)];
    }
  }

  lemma {:induction false} RecencyMembers(touches: seq<Key>)
    ensures Distinct(Recency(touches))
    ensures forall k :: k in Recency(touches) <==> k in touches
  {
    if touches != [] {
      RecencyMembers(Front(touches));
      var older := Without(Recency(Front(touches)), Last(touches));
      WithoutMembers(Recency(Front(touches)), Last(touches));
      assert touches == Front(touches) + [Last(touches)];
      AppendDistinct(older, Last(touches));
    }
  }

  lemma InTake(keys: seq<Key>, n: nat, i: nat)
    requires i < |keys|
    ensures i < n ==> keys[i] in Take(keys, n)
    ensures Distinct(keys) && keys[i] in Take(keys, n) ==> i < n
  {
    if i < n {
      assert Take(keys, n)[i] == keys[i];
    }
  }

  /** Touching a key moves it to the front of the first `n` keys, or pushes the last of them out. */
  lemma TakeTouched(keys: seq<Key>, k: Key, n: nat)
    requires Distinct(keys) && 0 < n
    ensures var t := Take(keys, n);
            Take([k] + Without(keys, k), n) ==
              if k in t then [k] + Without(t, k)
              else if |t| < n then [k] + t
              else [k] + Front(t)
  {
    if k in keys {
      var i :| 0 <= i < |keys| && keys[i] == k;
      InTake(keys, n, i);
      WithoutAt(keys, i);
      TakeOfMoved(keys, i, n);
      if i < n {
        TakeDistinct(keys, n);
        WithoutAt(Take(keys, n), i);
      }
    } else {
      WithoutAbsent(keys, k);
      TakeMembers(keys, n);
    }
  }

  lemma TakeMembers(keys: seq<Key>, n: nat)
    ensures forall x :: x in Take(keys, n) ==> x in keys
  {
  }

  lemma TakeOfMoved(keys: seq<Key>, i: nat, n: nat)
    requires i < |keys| && 0 < n
    ensures var t := Take(keys, n);
            Take([keys[i]] + Delete(keys, i), n) ==
              if i < n then [keys[i]] + Delete(t, i) else [keys[i]] + Front(t)
  {
  }

  lemma PositionOfKey(b: Bucket, k: Key)
    ensures Position(b, k) < |b| <==> k in Keys(b)
  {
    var i := Position(b, k);
    if i < |b| {
      assert Keys(b)[i] == k;
    }
  }

  lemma DistinctKeysAsKeys(b: Bucket)
    ensures DistinctKeys(b) <==> Distinct(Keys(b))
  {
    if DistinctKeys(b) {
      forall i, j | 0 <= i < j < |b| ensures Keys(b)[i] != Keys(b)[j] {
        assert b[i].key != b[j].key;
      }
    }
    if Distinct(Keys(b)) {
      forall i, j | 0 <= i < j < |b| ensures b[i].key != b[j].key {
        assert Keys(b)[i] != Keys(b)[j];
      }
    }
  }

  lemma ToFrontKeys(b: Bucket, i: nat, item: Item)
    requires i < |b| && item.key == b[i].key && Distinct(Keys(b))
    ensures Keys(ToFront(b, i, item)) == [item.key] + Without(Keys(b), item.key)
  {
    WithoutAt(Keys(b), i);
    assert Keys(b)[i] == item.key;
  }

  /** One event on a bucket is one touch, or none, on its keys. */
  lemma EventTouches(b: Bucket, window: nat, e: Event)
    requires 0 < window && |b| <= window && Distinct(Keys(b))
    ensures var b' := Apply(b, window, e);
            && |b'| <= window
            && Keys(b') ==
                 if e.key in Keys(b) then [e.key] + Without(Keys(b), e.key)
                 else if e.Reading? then Keys(b)
                 else if |b| < window then [e.key] + Keys(b)
                 else [e.key] + Front(Keys(b))
  {
    var i := Position(b, e.key);
    PositionOfKey(b, e.key);
    if i < |b| {
      ToFrontKeys(b, i, if e.Reading? then b[i] else Item(e.key, e.data));
    } else if e.Writing? {
      KeysPrepend(Item(e.key, e.data), b);
      if b != [] {
        KeysFront(b);
        KeysPrepend(Item(e.key, e.data), Front(b));
      }
    }
    hide Keys;
  }

  lemma KeysPrepend(item: Item, b: Bucket)
    ensures Keys([item] + b) == [item.key] + Keys(b)
  {
  }

  lemma KeysFront(b: Bucket)
    requires b != []
    ensures Keys(Front(b)) == Front(Keys(b)) && |Keys(b)| == |b|
  {
  }

  /** A bucket that holds the most recent keys still does after one event. */
  lemma StepMostRecent(window: nat, b: Bucket, touches: seq<Key>, e: Event)
    requires 0 < window && |b| <= window && Distinct(Keys(b)) && Keys(b) == Take(Recency(touches), window)
    ensures var b' := Apply(b, window, e);
            var touches' := touches + if Touched(b, e) then [e.key] else [];
            Keys(b') == Take(Recency(touches'), window) && Distinct(Keys(b')) && |b'| <= window
  {
    RecencyMembers(touches);
    RecencyMembers(touches + [e.key]);
    TakeDistinct(Recency(touches + [e.key]), window);
    hide Distinct, Without, Recency, Apply, Position, Found;
    EventTouches(b, window, e);
    TakeTouched(Recency(touches), e.key, window);
    FoundKey(b, e.key);
    TouchedAgain(touches, e.key);
    assert touches + [] == touches;
    assert |Keys(b)| == |b|;
  }

  /**
   After any history the bucket holds exactly the first `window` keys in order of last touch.
   */
  lemma {:induction false} HoldsMostRecent(window: nat, events: seq<Event>)
    requires 0 < window
    ensures Keys(Replay(window, events)) == Take(Recency(Touches(window, events)), window)
    ensures Distinct(Keys(Replay(window, events))) && |Replay(window, events)| <= window
  {
    if events != [] {
      hide Distinct, Without, Recency, Apply, Touched, Take;
      HoldsMostRecent(window, Front(events));
      StepMostRecent(window, Replay(window, Front(events)), Touches(window, Front(events)), Last(events));
    }
  }

  lemma FoundKey(b: Bucket, k: Key)
    ensures Found(b, k).Hit? <==> k in Keys(b)
  {
    PositionOfKey(b, k);
  }

  lemma TouchedAgain(touches: seq<Key>, k: Key)
    ensures Recency(touches + [k]) == [k] + Without(Recency(touches), k)
  {
    assert Front(touches + [k]) == touches;
  }

  lemma TakeDistinct(keys: seq<Key>, n: nat)
    requires Distinct(keys)
    ensures Distinct(Take(keys, n))
  {
  }

  // ---------------------------------------------------------------- survival

  /** The other keys touched since `k` was last touched. */
  ghost function OthersSince(touches: seq<Key>, k: Key): set<Key> {
    if touches == [] || Last(touches) == k then {}
    else OthersSince(Front(touches), k) + {Last(touches)}
  }

  /** The keys before `k` in order of last touch are the others touched since. */
  lemma {:induction false} RecencyRank(touches: seq<Key>, k: Key, i: nat)
    requires i < |Recency(touches)| && Recency(touches)[i] == k
    ensures OthersSince(touches, k) == KeySet(Recency(touches)[..i])
  {
    var r := Recency(touches);
    var last, older := Last(touches), Recency(Front(touches));
    RecencyMembers(touches);
    if last == k {
      assert r[0] == k;
    } else {
      RecencyMembers(Front(touches));
      WithoutMembers(older, last);
      assert k in older;
      var j :| 0 <= j < |older| && older[j] == k;
      RecencyRank(Front(touches), k, j);
      PrefixWithout(older, last, j, i);
      assert r[..i] == [last] + Without(older, last)[..i - 1];
    }
  }

  /** Dropping a key does not change which other keys stand before `keys[j]`. */
  lemma PrefixWithout(keys: seq<Key>, drop: Key, j: nat, i: nat)
    requires Distinct(keys) && j < |keys| && keys[j] != drop
    requires 1 <= i <= |Without(keys, drop)| && Without(keys, drop)[i - 1] == keys[j]
    ensures KeySet(keys[..j]) + {drop} == KeySet(Without(keys, drop)[..i - 1]) + {drop}
  {
    if drop in keys {
      var d :| 0 <= d < |keys| && keys[d] == drop;
      WithoutAt(keys, d);
      PrefixDelete(keys, d, j, i - 1);
    } else {
      WithoutAbsent(keys, drop);
    }
  }

  lemma PrefixDelete(keys: seq<Key>, d: nat, j: nat, p: nat)
    requires Distinct(keys) && j < |keys| && d < |keys| && d != j
    requires p < |keys| - 1 && Delete(keys, d)[p] == keys[j]
    ensures KeySet(keys[..j]) + {keys[d]} == KeySet(Delete(keys, d)[..p]) + {keys[d]}
  {
    var w := Delete(keys, d);
    assert w[p] == keys[if p < d then p else p + 1];
    assert j == if p < d then p else p + 1;
    if j < d {
      assert w[..p] == keys[..j];
    } else {
      assert keys[..j] == (keys[..d] + [keys[d]]) + keys[d + 1..j];
      assert w[..p] == keys[..d] + keys[d + 1..j];
    }
  }

  /**
   A key is in the bucket exactly when it was touched and fewer than `window` other keys of the bucket were
   touched since.
   */
  lemma SurvivesIff(window: nat, events: seq<Event>, k: Key)
    requires 0 < window
    ensures var t := Touches(window, events);
            Found(Replay(window, events), k).Hit? <==> k in t && |OthersSince(t, k)| < window
  {
    var t := Touches(window, events);
    var r := Recency(t);
    var b := Replay(window, events);
    HoldsMostRecent(window, events);
    RecencyMembers(t);
    PositionOfKey(b, k);
    if k in t {
      var i :| 0 <= i < |r| && r[i] == k;
      RecencyRank(t, k, i);
      SetOfDistinct(r[..i]);
      InTake(r, window, i);
    }
  }

  lemma {:induction false} SetOfDistinct(keys: seq<Key>)
    requires Distinct(keys)
    ensures |KeySet(keys)| == |keys|
  {
    if keys != [] {
      SetOfDistinct(Front(keys));
      assert keys == Front(keys) + [Last(keys)];
      assert KeySet(keys) == KeySet(Front(keys)) + {Last(keys)};
    }
  }

  // ---------------------------------------------------------------- data

  /** The data of the latest write of a key. */
  ghost function LatestWrite(events: seq<Event>, k: Key): Lookup {
    if events == [] then Miss
    else if Last(events).Writing? && Last(events).key == k then Hit(Last(events).data)
    else LatestWrite(Front(events), k)
  }

  /** After an event an item is one that was there, under a key not just written, or the one just written. */
  lemma ItemOrigin(b: Bucket, window: nat, e: Event, i: nat)
    requires 0 < window && Distinct(Keys(b)) && i < |Apply(b, window, e)|
    ensures var item := Apply(b, window, e)[i];
            (item in b && (e.Writing? ==> item.key != e.key)) || (e.Writing? && item == Item(e.key, e.data))
  {
    var p := Position(b, e.key);
    var b' := Apply(b, window, e);
    if p < |b| {
      if i > 0 {
        var j := if i - 1 < p then i - 1 else i;
        assert b'[i] == b[j] && Keys(b)[j] != Keys(b)[p];
      }
    } else if e.Writing? && i > 0 {
      assert b'[i] == b[i - 1];
    }
  }

  /** Whatever the bucket holds is the data of the latest write of its key. */
  lemma {:induction false} HoldsLatest(window: nat, events: seq<Event>)
    requires 0 < window
    ensures forall item :: item in Replay(window, events) ==> LatestWrite(events, item.key) == Hit(item.data)
  {
    if events != [] {
      var before, b := Replay(window, Front(events)), Replay(window, events);
      HoldsLatest(window, Front(events));
      HoldsMostRecent(window, Front(events));
      forall item | item in b ensures LatestWrite(events, item.key) == Hit(item.data) {
        var i :| 0 <= i < |b| && b[i] == item;
        ItemOrigin(before, window, Last(events), i);
      }
    }
  }

  /** Every hit returns the data of the latest write of that key. */
  lemma HitsAreLatest(window: nat, events: seq<Event>, k: Key)
    requires 0 < window && Found(Replay(window, events), k).Hit?
    ensures Found(Replay(window, events), k) == LatestWrite(events, k)
  {
    HoldsLatest(window, events);
  }
}
