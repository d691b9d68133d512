/**
 Who owns a numbered slot: one stack of free numbers and a family of lists.  Subgraph blocks and cache
 entries are both managed this way.
 */
module Ownership {

  ghost predicate NoDup(s: seq<nat>) {
    forall i, j :: 0 <= i < j < |s| ==> s[i] != s[j]
  }

  function Insert<T>(s: seq<T>, k: nat, x: T): seq<T>
    requires k <= |s|
  {
    s[..k] + [x] + s[k..]
  }

  function Delete<T>(s: seq<T>, k: nat): seq<T>
    requires k < |s|
  {
    s[..k] + s[k + 1..]
  }

  function Last<T>(s: seq<T>): T
    requires s != []
  {
    s[|s| - 1]
  }

  function Front<T>(s: seq<T>): seq<T>
    requires s != []
  {
    s[..|s| - 1]
  }

  /** The neighbours of position `k`, with `none` off either end. */
  function Before(s: seq<nat>, k: int, none: nat): nat
    requires 0 <= k <= |s|
  {
    if k == 0 then none else s[k - 1]
  }

  function After(s: seq<nat>, k: int, none: nat): nat
    requires 0 <= k < |s|
  {
    if k + 1 == |s| then none else s[k + 1]
  }

  function IndexOf(s: seq<nat>, x: nat): (k: nat)
    requires x in s
    ensures k < |s| && s[k] == x
  {
    if s[0] == x then 0 else 1 + IndexOf(s[1..], x)
  }

  /** Every number below `n` is on the free stack or in one list, and nowhere twice. */
  ghost predicate Partition(free: seq<nat>, lists: seq<seq<nat>>, n: nat) {
    && NoDup(free)
    && (forall v :: 0 <= v < |lists| ==> NoDup(lists[v]))
    && (forall x :: x in free ==> x < n)
    && (forall v, x {:trigger x in lists[v]} :: 0 <= v < |lists| && x in lists[v] ==> x < n && x !in free)
    && (forall v, w, x {:trigger x in lists[v], x in lists[w]} ::
          0 <= v < |lists| && 0 <= w < |lists| && x in lists[v] && x in lists[w] ==> v == w)
    && (forall x :: 0 <= x < n ==> x in free || Listed(lists, x))
  }

  ghost predicate Listed(lists: seq<seq<nat>>, x: nat) {
    exists v :: 0 <= v < |lists| && x in lists[v]
  }

  /** The list that has a number, or none of them. */
  ghost function Owner(lists: seq<seq<nat>>, x: nat): (w: nat)
    ensures w <= |lists|
    ensures if w < |lists| then x in lists[w] else !Listed(lists, x)
  {
    if lists == [] then 0
    else if x in Last(lists) then |lists| - 1
    else var w := Owner(Front(lists), x); if w < |lists| - 1 then w else |lists|
  }

  function Concat<T>(lists: seq<seq<T>>): seq<T> {
    if lists == [] then [] else Concat(Front(lists)) + Last(lists)
  }

  function TotalLength<T>(lists: seq<seq<T>>): nat {
    if lists == [] then 0 else TotalLength(Front(lists)) + |Last(lists)|
  }

  // ---------------------------------------------------------------- sequences

  lemma InsertMembers<T>(s: seq<T>, k: nat, x: T)
    requires k <= |s|
    ensures forall y :: y in Insert(s, k, x) <==> y == x || y in s
  {
    assert s == s[..k] + s[k..];
  }

  /** Inserting and deleting at one place undo each other. */
  lemma DeleteInsert<T>(s: seq<T>, k: nat, x: T)
    requires k <= |s|
    ensures Delete(Insert(s, k, x), k) == s
  {
  }

  lemma InsertDelete<T>(s: seq<T>, k: nat)
    requires k < |s|
    ensures Insert(Delete(s, k), k, s[k]) == s
  {
  }

  lemma DeleteMembers(s: seq<nat>, k: nat)
    requires k < |s| && NoDup(s)
    ensures forall y :: y in Delete(s, k) <==> y != s[k] && y in s
    ensures NoDup(Delete(s, k))
  {
    assert s == s[..k] + [s[k]] + s[k + 1..];
  }

  lemma NoDupAppend(a: seq<nat>, b: seq<nat>)
    requires NoDup(a) && NoDup(b) && forall x :: x in a ==> x !in b
    ensures NoDup(a + b)
  {
    var s := a + b;
    forall i, j | 0 <= i < j < |s| ensures s[i] != s[j] {
      if i < |a| <= j {
        assert s[i] in a && s[j] == b[j - |a|];
      }
    }
  }

  lemma InsertNoDup(s: seq<nat>, k: nat, x: nat)
    requires k <= |s| && NoDup(s) && x !in s
    ensures NoDup(Insert(s, k, x))
  {
    var s' := Insert(s, k, x);
    forall i, j | 0 <= i < j < |s'| ensures s'[i] != s'[j] {
      assert s'[i] == if i < k then s[i] else if i == k then x else s[i - 1];
      assert s'[j] == if j < k then s[j] else if j == k then x else s[j - 1];
    }
  }

  lemma TakeMembers(s: seq<nat>, k: nat)
    requires k <= |s| && NoDup(s)
    ensures forall x :: x in s[..k] ==> x in s
    ensures k < |s| ==> s[k] !in s[..k]
    ensures NoDup(s[..k])
  {
    forall x | x in s[..k] ensures x in s {
      var i :| 0 <= i < k && s[..k][i] == x;
      assert s[i] == x;
    }
  }

  lemma IndexUnique(s: seq<nat>, k: nat)
    requires k < |s| && NoDup(s)
    ensures IndexOf(s, s[k]) == k
  {
  }

  lemma FrontMembers(s: seq<nat>)
    requires s != [] && NoDup(s)
    ensures NoDup(Front(s))
    ensures forall y :: y in Front(s) <==> y != Last(s) && y in s
  {
    assert s == Front(s) + [Last(s)];
  }

  // ---------------------------------------------------------------- moving one number

  lemma TakeKeepsPartition(free: seq<nat>, lists: seq<seq<nat>>, n: nat, v: nat, k: nat)
    requires Partition(free, lists, n) && free != []
    requires v < |lists| && k <= |lists[v]|
    ensures Partition(Front(free), lists[v := Insert(lists[v], k, Last(free))], n)
  {
    var x := Last(free);
    var lists' := lists[v := Insert(lists[v], k, x)];
    FrontMembers(free);
    assert x in free;
    InsertNoDup(lists[v], k, x);
    InsertMembers(lists[v], k, x);
    forall y | 0 <= y < n ensures y in Front(free) || Listed(lists', y) {
      if y == x {
        assert y in lists'[v];
      } else if y !in free {
        var w :| 0 <= w < |lists| && y in lists[w];
        assert y in lists'[w];
      }
    }
  }

  lemma GiveKeepsPartition(free: seq<nat>, lists: seq<seq<nat>>, n: nat, v: nat, k: nat)
    requires Partition(free, lists, n)
    requires v < |lists| && k < |lists[v]|
    ensures Partition(free + [lists[v][k]], lists[v := Delete(lists[v], k)], n)
  {
    var x := lists[v][k];
    var lists' := lists[v := Delete(lists[v], k)];
    DeleteMembers(lists[v], k);
    assert x in lists[v];
    forall y | 0 <= y < n ensures y in free + [x] || Listed(lists', y) {
      if y != x && y !in free {
        var w :| 0 <= w < |lists| && y in lists[w];
        assert y in lists'[w];
      }
    }
  }

  /** A page of fresh numbers joins an empty stack. */
  lemma GrowKeepsPartition(lists: seq<seq<nat>>, n: nat, fresh': seq<nat>, m: nat)
    requires Partition([], lists, n) && n <= m
    requires NoDup(fresh') && forall x :: x in fresh' <==> n <= x < m
    ensures Partition(fresh', lists, m)
  {
    forall y | 0 <= y < m ensures y in fresh' || Listed(lists, y) {
      if y < n {
        assert y in [] || Listed(lists, y);
      }
    }
  }

  // ---------------------------------------------------------------- counting

  lemma {:induction false} ConcatMembers(lists: seq<seq<nat>>)
    ensures forall x :: x in Concat(lists) <==> Listed(lists, x)
    ensures |Concat(lists)| == TotalLength(lists)
  {
    if lists != [] {
      var init := Front(lists);
      ConcatMembers(init);
      forall x ensures x in Concat(lists) <==> Listed(lists, x) {
        if Listed(lists, x) {
          var v :| 0 <= v < |lists| && x in lists[v];
          assert v == |lists| - 1 || x in init[v];
        }
        if x in Concat(init) {
          var v :| 0 <= v < |init| && x in init[v];
          assert x in lists[v];
        }
        if x in Last(lists) {
          assert x in lists[|lists| - 1];
        }
      }
    }
  }

  lemma {:induction false} ConcatNoDup(lists: seq<seq<nat>>)
    requires forall v :: 0 <= v < |lists| ==> NoDup(lists[v])
    requires forall v, w, x {:trigger x in lists[v], x in lists[w]} ::
      0 <= v < |lists| && 0 <= w < |lists| && x in lists[v] && x in lists[w] ==> v == w
    ensures NoDup(Concat(lists))
  {
    if lists != [] {
      var init := Front(lists);
      assert forall v :: 0 <= v < |init| ==> init[v] == lists[v];
      ConcatNoDup(init);
      ConcatMembers(init);
      forall x | x in Concat(init) ensures x !in Last(lists) {
        var v :| 0 <= v < |init| && x in init[v];
        assert x in lists[v];
      }
      NoDupAppend(Concat(init), Last(lists));
    }
  }

  lemma SomeMember(s: seq<nat>)
    ensures s == [] || exists x :: x in s
  {
    assert s == [] || s[0] in s;
  }

  lemma {:induction false} NoDupCovers(s: seq<nat>, n: nat)
    requires NoDup(s) && forall x: nat :: x in s <==> x < n
    ensures |s| == n
  {
    if n == 0 {
      SomeMember(s);
    } else {
      assert n - 1 in s;
      var k :| 0 <= k < |s| && s[k] == n - 1;
      DeleteMembers(s, k);
      NoDupCovers(Delete(s, k), n - 1);
    }
  }

  /** Distinct numbers below `n` are at most `n` many. */
  lemma {:induction false} NoDupBound(s: seq<nat>, n: nat)
    requires NoDup(s) && forall x :: x in s ==> x < n
    ensures |s| <= n
  {
    if n > 0 {
      if n - 1 in s {
        var k :| 0 <= k < |s| && s[k] == n - 1;
        DeleteMembers(s, k);
        NoDupBound(Delete(s, k), n - 1);
      } else {
        NoDupBound(s, n - 1);
      }
    } else {
      SomeMember(s);
    }
  }

  function Occurrences(s: seq<nat>, x: nat): nat {
    multiset(s)[x]
  }

  lemma {:induction false} NoDupOccursOnce(s: seq<nat>, x: nat)
    requires NoDup(s) && x in s
    ensures Occurrences(s, x) == 1
  {
    var k :| 0 <= k < |s| && s[k] == x;
    assert s == s[..k] + [x] + s[k + 1..];
    assert x !in s[..k] && x !in s[k + 1..];
    assert multiset(s) == multiset(s[..k]) + multiset{x} + multiset(s[k + 1..]);
  }

  /** In a partition every number occurs exactly once, and the lengths add up. */
  lemma PartitionExact(free: seq<nat>, lists: seq<seq<nat>>, n: nat)
    requires Partition(free, lists, n)
    ensures forall x: nat :: x < n ==> Occurrences(free + Concat(lists), x) == 1
    ensures |free| + TotalLength(lists) == n
  {
    var all := free + Concat(lists);
    ConcatMembers(lists);
    ConcatNoDup(lists);
    assert forall x :: x in free ==> !Listed(lists, x);
    NoDupAppend(free, Concat(lists));
    NoDupCovers(all, n);
    forall x: nat | x < n ensures Occurrences(all, x) == 1 {
      NoDupOccursOnce(all, x);
    }
  }
}
