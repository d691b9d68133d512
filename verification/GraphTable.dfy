/**
 `GraphTable`: which hosts store a subgraph, which one serves it, and the load counters behind both choices.
 Every operation is specified on any table, by how far it makes the counters drift from what they count.
 */
module GraphTable {
  import opened BlockFormat
  import opened Ownership
  import opened LoadAccounting

  function InsertHost(d: Distribution, k: SgKey, h: Host): Distribution {
    d[k := HostsOf(d, k) + {h}]
  }

  function EraseHost(d: Distribution, k: SgKey, h: Host): Distribution {
    var hosts := HostsOf(d, k) - {h};
    if hosts == {} then d - {k} else d[k := hosts]
  }

  lemma EntryInserted(d: Distribution, k: SgKey, h: Host)
    ensures EntryAdded(d, InsertHost(d, k, h), k, h)
  {
  }

  lemma EntryErased(d: Distribution, k: SgKey, h: Host)
    ensures EntryTaken(d, EraseHost(d, k, h), k, h)
  {
  }

  /** The hosts of several keys after one host was entered for each. */
  function InsertKeys(d: Distribution, host: Host, keys: seq<SgKey>): Distribution {
    if keys == [] then d else InsertHost(InsertKeys(d, host, Front(keys)), Last(keys), host)
  }

  /** How many of the entries were new. */
  function NewPairs(d: Distribution, host: Host, keys: seq<SgKey>): (n: nat)
    ensures n <= |keys|
  {
    if keys == [] then 0
    else
      NewPairs(d, host, Front(keys)) +
      (if host in HostsOf(InsertKeys(d, host, Front(keys)), Last(keys)) then 0 else 1)
  }

  lemma OneReport(d: Distribution, host: Host, keys: seq<SgKey>, i: nat)
    requires i < |keys|
    ensures InsertKeys(d, host, keys[..i + 1]) == InsertHost(InsertKeys(d, host, keys[..i]), keys[i], host)
    ensures NewPairs(d, host, keys[..i + 1]) == NewPairs(d, host, keys[..i]) +
      (if host in HostsOf(InsertKeys(d, host, keys[..i]), keys[i]) then 0 else 1)
  {
    assert Front(keys[..i + 1]) == keys[..i] && Last(keys[..i + 1]) == keys[i];
  }

  lemma {:induction false} InsertKeysHosts(d: Distribution, host: Host, keys: seq<SgKey>, k: SgKey)
    ensures HostsOf(InsertKeys(d, host, keys), k) == HostsOf(d, k) + if k in keys then {host} else {}
  {
    if keys != [] {
      InsertKeysHosts(d, host, Front(keys), k);
      assert keys == Front(keys) + [Last(keys)];
    }
  }

  ghost predicate AllNew(d: Distribution, host: Host, keys: seq<SgKey>) {
    && (forall i :: 0 <= i < |keys| ==> host !in HostsOf(d, keys[i]))
    && (forall i, j :: 0 <= i < j < |keys| ==> keys[i] != keys[j])
  }

  lemma AllNewMore(d: Distribution, host: Host, init: seq<SgKey>, last: SgKey)
    ensures AllNew(d, host, init + [last]) <==> AllNew(d, host, init) && host !in HostsOf(d, last) && last !in init
  {
    hide HostsOf;
    var keys := init + [last];
    if AllNew(d, host, keys) {
      forall i | 0 <= i < |init| ensures host !in HostsOf(d, init[i]) && init[i] != last {
        assert keys[i] == init[i] && keys[|init|] == last;
      }
      forall i, j | 0 <= i < j < |init| ensures init[i] != init[j] {
        assert keys[i] == init[i] && keys[j] == init[j];
      }
      assert keys[|init|] == last;
    }
  }

  /** Every entry is new exactly when no key is reported twice or was known already. */
  lemma {:induction false} NewPairsIff(d: Distribution, host: Host, keys: seq<SgKey>)
    ensures NewPairs(d, host, keys) == |keys| <==> AllNew(d, host, keys)
  {
    if keys != [] {
      var init, last := Front(keys), Last(keys);
      NewPairsIff(d, host, init);
      InsertKeysHosts(d, host, init, last);
      hide InsertKeys, HostsOf;
      assert keys == init + [last];
      assert AllNew(d, host, keys) <==> AllNew(d, host, init) && host !in HostsOf(d, last) && last !in init by {
        AllNewMore(d, host, init, last);
      }
    }
  }

  class Table {
    var dist: Distribution
    var corrupted: Distribution
    var sLoad: LoadMap
    var aLoad: LoadMap
    var partition: Partition
    const replica: nat

    /** Every key is served by one of its storing hosts, and no storage counter is kept for the name of no host. */
    ghost predicate Valid()
      reads this
    {
      Placed(dist, partition) && Unknown !in sLoad
    }

    /** Both counters count what they should as well. */
    ghost predicate Accounted()
      reads this
    {
      Valid() && Exact(State())
    }

    function State(): Books
      reads this
    {
      Books(dist, partition, sLoad, aLoad)
    }

    /** How many hosts a key is given: the selection loop runs at least once. */
    function Copies(): nat {
      if replica == 0 then 1 else replica
    }

    constructor (hosts: set<Host>, replica: nat)
      requires Unknown !in hosts
      ensures Accounted() && dist == map[] && corrupted == map[] && partition == map[] && this.replica == replica
      ensures sLoad == map h | h in hosts :: 0
    {
      dist, corrupted, partition := map[], map[], map[];
      sLoad := map h | h in hosts :: 0;
      aLoad := map h | h in hosts :: 0;
      this.replica := replica;
    }

    /** `m_sgDist.getHosts`, which leaves an empty entry behind for an unknown key. */
    method LookUp(k: SgKey) returns (hosts: set<Host>)
      modifies `dist
      ensures hosts == HostsOf(old(dist), k) && dist == old(dist)[k := hosts]
    {
      if k !in dist {
        dist := dist[k := {}];
      }
      hosts := dist[k];
    }

    /**
     `selectReplicHosts`: the least loaded hosts one after another, counted at once.  Among equally loaded ones
     any may be at the front of the heap.
     */
    method SelectReplicHosts() returns (chosen: seq<Host>)
      requires |sLoad| >= Copies()
      modifies `sLoad
      ensures |chosen| == Copies() && forall i, j :: 0 <= i < j < |chosen| ==> chosen[i] != chosen[j]
      ensures (1 <= replica ==> |chosen| == replica) && (replica == 0 ==> |chosen| == 1)
      ensures Greedy(old(sLoad), Picked(chosen)) && sLoad == Bumped(old(sLoad), Picked(chosen))
    {
      hide Choice, Bumped, LoadOf, Plus;
      var load := sLoad;   // the heap's copy of the counters
      var rest := load.Keys;
      chosen := [];
      NoneChosen(load);
      var more := true;
      while more
        invariant Choice(load, chosen, rest) && sLoad == Bumped(load, Picked(chosen))
        invariant |chosen| <= Copies() && (more <==> chosen == [] || |chosen| < replica)
        decreases |rest|, more
      {
        RestLeft(load, chosen, rest);
        SomeLeast(load, rest);
        var host :| host in rest && forall x :: x in rest ==> LoadOf(load, host) <= LoadOf(load, x);
        OneMore(load, chosen, rest, host);
        chosen := chosen + [host];
        sLoad := Plus(sLoad, host, 1);
        rest := rest - {host};
        more := |chosen| < replica;
      }
      ChoiceDone(load, chosen, rest);
    }

    /** `selectHost`: the least loaded of the given hosts, counted at once. */
    method SelectHost(hosts: set<Host>) returns (host: Host)
      requires hosts != {}
      modifies `aLoad
      ensures host == LeastLoaded(old(aLoad), hosts) && LeastServer(old(aLoad), Unknown, hosts, host)
      ensures forall h: Host ::
        LoadOf(aLoad, h) == if h == host then AddWord(LoadOf(old(aLoad), h), 1) else LoadOf(old(aLoad), h)
    {
      aLoad := (map h | h in hosts :: LoadOf(aLoad, h)) + aLoad;
      SameLoads(old(aLoad), aLoad, hosts);
      LeastLoadedServes(old(aLoad), Unknown, hosts);
      host := LeastLoaded(aLoad, hosts);
      aLoad := Plus(aLoad, host, 1);
    }

    /** `getHost`. */
    method GetHost(k: SgKey) returns (h: Host)
      ensures h == ServerOf(partition, k)
    {
      h := if k in partition then partition[k] else Unknown;
    }

    /** `refresh`: the key is served by the least loaded of its hosts, and its previous server is relieved. */
    method Refresh(k: SgKey)
      requires HostsOf(dist, k) != {}
      modifies `aLoad, `partition
      ensures Reassigned(old(State()), k, State()) && ServerOf(partition, k) in HostsOf(dist, k)
      ensures SameDrift(old(State()), State())
    {
      hide LeastLoaded, LeastServer;
      ghost var b := State();
      LeastLoadedServes(aLoad, ServerOf(partition, k), HostsOf(dist, k));
      var oldHost := GetHost(k);
      if oldHost != Unknown {
        aLoad := Minus(aLoad, oldHost, 1);
      }
      ghost var relieved := aLoad;
      hide Minus, AddWord, LoadOf, SameDrift;
      var host := SelectHost(dist[k]);
      partition := partition[k := host];
      RefreshLoads(b.aLoad, relieved, aLoad, oldHost, host);
      ServerMoves(b, State(), k, host);
    }

    /** The chosen hosts are entered for the key one by one. */
    method InsertAll(k: SgKey, hosts: seq<Host>)
      requires hosts != []
      modifies `dist
      ensures dist == old(dist)[k := HostsOf(old(dist), k) + Picked(hosts)]
    {
      var i := 0;
      while i < |hosts|
        invariant 0 <= i <= |hosts| && HostsOf(dist, k) == HostsOf(old(dist), k) + Picked(hosts[..i])
        invariant dist == if i == 0 then old(dist) else old(dist)[k := HostsOf(dist, k)]
      {
        dist := InsertHost(dist, k, hosts[i]);
        assert hosts[..i + 1] == hosts[..i] + [hosts[i]];
        i := i + 1;
      }
      assert hosts[..|hosts|] == hosts;
    }

    /**
     `create`, for any key: the hosts chosen are counted once more even if they store it already, so the counters
     stay exact exactly when none of them does.
     */
    method Create(k: SgKey) returns (ghost chosen: set<Host>)
      requires Valid() && |sLoad| >= Copies()
      modifies `dist, `sLoad, `aLoad, `partition
      ensures Valid() && dist == old(dist)[k := HostsOf(old(dist), k) + chosen]
      ensures |chosen| == Copies() && Greedy(old(sLoad), chosen) && sLoad == Bumped(old(sLoad), chosen)
      ensures (1 <= replica ==> |chosen| == replica) && (replica == 0 ==> |chosen| == 1)
      ensures Reassigned(old(State()), k, State())
      ensures AheadBy(old(State()), State(), chosen * HostsOf(old(dist), k))
      ensures old(Accounted()) ==> (Accounted() <==> chosen * HostsOf(old(dist), k) == {})
    {
      hide AddWord, LoadOf, Placed, LeastServer, Greedy, Bumped, AheadBy, SameDrift, Exact;
      PlacedFacts(dist, partition, k);
      ghost var b := State();
      var hosts := SelectReplicHosts();
      chosen := Picked(hosts);
      PickedSize(hosts);
      InsertAll(k, hosts);
      GreedyKnown(b.sLoad, chosen);
      BumpedLoads(b.sLoad, chosen);
      ghost var b1 := State();
      HostsCounted(b, b1, k, chosen);
      Refresh(k);
      AheadThenSame(b, b1, State(), chosen * HostsOf(b.dist, k));
      PlacedSet(b.dist, b.partition, k, HostsOf(dist, k), ServerOf(partition, k));
      if old(Accounted()) {
        ExactIfNoneAhead(b, State(), chosen * HostsOf(b.dist, k));
      }
    }

    /** `deselectReplicHosts`: each of the hosts is counted down. */
    method DeselectReplicHosts(hosts: set<Host>)
      requires Unknown !in hosts
      modifies `sLoad
      ensures Unknown in sLoad <==> Unknown in old(sLoad)
      ensures forall h: Host ::
        LoadOf(sLoad, h) == (LoadOf(old(sLoad), h) - (if h in hosts then 1 else 0)) % 0x1_0000_0000
    {
      var rest := hosts;
      while rest != {}
        invariant rest <= hosts && (Unknown in sLoad <==> Unknown in old(sLoad))
        invariant forall h: Host ::
          LoadOf(sLoad, h) == (LoadOf(old(sLoad), h) - (if h in hosts - rest then 1 else 0)) % 0x1_0000_0000
        decreases |rest|
      {
        var h :| h in rest;
        sLoad := Minus(sLoad, h, 1);
        rest := rest - {h};
      }
    }

    /** The producer's `getHosts`: the hosts of a key, which is created on first use. */
    method EnsureHosts(k: SgKey) returns (hosts: set<Host>)
      requires Valid() && |sLoad| >= Copies()
      modifies `dist, `sLoad, `aLoad, `partition
      ensures Valid() && SameDrift(old(State()), State())
      ensures old(Accounted()) ==> Accounted()
      ensures hosts == HostsOf(dist, k) && hosts != {} && Unknown !in hosts
      ensures HostsOf(old(dist), k) != {} ==>
        hosts == HostsOf(old(dist), k) && sLoad == old(sLoad) && aLoad == old(aLoad)
      ensures HostsOf(old(dist), k) != {} ==> partition == old(partition)
      ensures HostsOf(old(dist), k) == {} ==>
        && Greedy(old(sLoad), hosts) && sLoad == Bumped(old(sLoad), hosts)
        && (1 <= replica ==> |hosts| == replica) && (replica == 0 ==> |hosts| == 1)
        && ServedAnew(old(State()), k, State())
    {
      hide AddWord, Placed, LeastLoaded, Greedy, Bumped, SameDrift, AheadBy, Exact;
      ghost var b := State();
      PlacedFacts(dist, partition, k);
      LookedUp(b, k);
      hosts := LookUp(k);
      ghost var b1 := State();
      if hosts != {} {
        assert b1 == b;
        SameDriftExact(b, b);
        return;
      }
      ghost var chosen := Create(k);
      PlacedFacts(dist, partition, k);
      NoneAhead(b, b1, State(), chosen * {});
      ghost var created := dist;
      hosts := LookUp(k);
      assert dist == created;
      assert {} + chosen == chosen;
    }

    /** `destroy`, for any key: one that is not placed only touches the counter of the name of no host. */
    method Destroy(k: SgKey)
      requires Valid()
      modifies `dist, `sLoad, `aLoad, `partition
      ensures Valid() && SameDrift(old(State()), State())
      ensures dist == old(dist) - {k} && partition == old(partition) - {k}
      ensures old(Accounted()) ==> Accounted()
    {
      hide AddWord, Placed, StorageDriftOf, AccessDriftOf;
      PlacedFacts(dist, partition, k);
      ghost var b := State();
      var hosts := LookUp(k);
      DeselectReplicHosts(hosts);
      var server := GetHost(k);
      CounterMoves(aLoad, server, 1);
      aLoad := Minus(aLoad, server, 1);
      dist := dist - {k};
      partition := partition - {k};
      assert b.dist[k := hosts] - {k} == b.dist - {k};
      PlacedErase(b.dist, b.partition, k);
      hide LoadOf, Minus;
      KeyGone(b, State(), k);
    }

    /** The part of `recycle` before its test: the host gives the key up. */
    method GiveUp(k: SgKey, host: Host)
      requires Valid() && host != Unknown
      modifies `dist, `sLoad, `corrupted
      ensures dist == EraseHost(old(dist), k, host) && EntryTaken(old(dist), dist, k, host)
      ensures EntryAdded(old(corrupted), corrupted, k, host) && Unknown !in sLoad
      ensures DriftsAt(old(State()), State(), host, if host in HostsOf(old(dist), k) then 0 else -1, 0)
    {
      ghost var b := State();
      EntryErased(dist, k, host);
      EntryInserted(corrupted, k, host);
      hide EntryTaken, EntryAdded;
      dist := EraseHost(dist, k, host);
      corrupted := InsertHost(corrupted, k, host);
      CounterMoves(sLoad, host, 1);
      sLoad := Minus(sLoad, host, 1);
      hide LoadOf, Minus, DriftsAt;
      OneHostMoves(b, State(), k, HostsOf(b.dist, k) - {host}, host, -1);
    }

    /**
     `recycle` as written, for any host but the only one of the key.  A host that does not store the key is
     counted down for it all the same; one that serves it is counted down here and once more by `refresh`.
     */
    method Recycle(k: SgKey, host: Host)
      requires Valid() && host != Unknown && HostsOf(dist, k) != {host}
      modifies `dist, `sLoad, `corrupted, `aLoad, `partition
      ensures Valid() && dist == EraseHost(old(dist), k, host) && EntryTaken(old(dist), dist, k, host)
      ensures EntryAdded(old(corrupted), corrupted, k, host)
      ensures if host == ServerOf(old(partition), k) then ServedAnew(old(State()), k, State())
              else partition == old(partition) && aLoad == old(aLoad)
      ensures DriftsAt(old(State()), State(), host, if host in HostsOf(old(dist), k) then 0 else -1,
                       if host == ServerOf(old(partition), k) then -1 else 0)
      ensures old(Accounted()) ==>
        (Accounted() <==> host in HostsOf(old(dist), k) && host != ServerOf(old(partition), k))
    {
      hide AddWord, Placed, LeastServer, EntryAdded, DriftsAt, Exact;
      PlacedFacts(dist, partition, k);
      ghost var b, sd := State(), if host in HostsOf(dist, k) then 0 else -1;
      GiveUp(k, host);
      ghost var b1 := State();
      var server := GetHost(k);
      if host == server {
        CounterMoves(aLoad, host, 1);
        aLoad := Minus(aLoad, host, 1);
        ghost var b2 := State();
        AccessCounterMoves(b1, b2, host, -1);
        Refresh(k);
        ServedElsewhere(b, b2, k, State());
        SameDriftsAt(b2, State(), host);
        DriftsCompose(b1, b2, State(), host, 0, -1, 0, 0);
        DriftsCompose(b, b1, State(), host, sd, 0, 0, -1);
        PlacedSet(b.dist, b.partition, k, HostsOf(dist, k), ServerOf(partition, k));
      } else {
        StillServed(b.dist, dist, partition, k, HostsOf(b.dist, k) - {host});
      }
      if old(Accounted()) {
        ExactIff(b, State(), host, sd, if host == server then -1 else 0);
      }
    }

    /** `recycle` without the first of the two decrements. */
    method RecycleRepaired(k: SgKey, host: Host)
      requires Valid() && host != Unknown && HostsOf(dist, k) != {host}
      modifies `dist, `sLoad, `corrupted, `aLoad, `partition
      ensures Valid() && dist == EraseHost(old(dist), k, host) && EntryTaken(old(dist), dist, k, host)
      ensures EntryAdded(old(corrupted), corrupted, k, host)
      ensures if host == ServerOf(old(partition), k) then ServedAnew(old(State()), k, State())
              else partition == old(partition) && aLoad == old(aLoad)
      ensures DriftsAt(old(State()), State(), host, if host in HostsOf(old(dist), k) then 0 else -1, 0)
      ensures old(Accounted()) ==> (Accounted() <==> host in HostsOf(old(dist), k))
    {
      hide AddWord, Placed, LeastServer, EntryAdded, DriftsAt, Exact;
      PlacedFacts(dist, partition, k);
      ghost var b, sd := State(), if host in HostsOf(dist, k) then 0 else -1;
      GiveUp(k, host);
      ghost var b1 := State();
      var server := GetHost(k);
      if host == server {
        Refresh(k);
        SameDriftsAt(b1, State(), host);
        DriftsCompose(b, b1, State(), host, sd, 0, 0, 0);
        PlacedSet(b.dist, b.partition, k, HostsOf(dist, k), ServerOf(partition, k));
      } else {
        StillServed(b.dist, dist, partition, k, HostsOf(b.dist, k) - {host});
      }
      if old(Accounted()) {
        ExactIff(b, State(), host, sd, 0);
      }
    }

    /** A host takes a key, and its storage counter is left as it is. */
    method TakeUp(k: SgKey, host: Host)
      requires Valid() && host != Unknown
      modifies `dist, `aLoad, `partition
      ensures Valid() && dist == InsertHost(old(dist), k, host) && Reassigned(old(State()), k, State())
      ensures DriftsAt(old(State()), State(), host, if host in HostsOf(old(dist), k) then 0 else -1, 0)
    {
      hide AddWord, Placed, LeastServer, DriftsAt;
      PlacedFacts(dist, partition, k);
      ghost var b, sd := State(), if host in HostsOf(dist, k) then 0 else -1;
      dist := InsertHost(dist, k, host);
      ghost var b1 := State();
      OneHostMoves(b, b1, k, HostsOf(b.dist, k) + {host}, host, 0);
      Refresh(k);
      SameDriftsAt(b1, State(), host);
      DriftsCompose(b, b1, State(), host, sd, 0, 0, 0);
      PlacedSet(b.dist, b.partition, k, HostsOf(dist, k), ServerOf(partition, k));
    }

    /** A host is counted for `n` keys. */
    method CountUp(host: Host, n: nat)
      requires Valid() && host != Unknown
      modifies `sLoad
      ensures Valid() && DriftsAt(old(State()), State(), host, n, 0)
    {
      ghost var b := State();
      CounterMoves(sLoad, host, n);
      sLoad := Plus(sLoad, host, n);
      hide DriftsAt, LoadOf, Plus;
      StorageCounterMoves(b, State(), host, n);
    }

    /** `restore`, for any host: one that stores the key already is counted for it once more. */
    method Restore(k: SgKey, host: Host)
      requires Valid() && host != Unknown
      modifies `dist, `sLoad, `corrupted, `aLoad, `partition
      ensures Valid() && dist == InsertHost(old(dist), k, host) && EntryAdded(old(dist), dist, k, host)
      ensures EntryTaken(old(corrupted), corrupted, k, host) && Reassigned(old(State()), k, State())
      ensures DriftsAt(old(State()), State(), host, if host in HostsOf(old(dist), k) then 1 else 0, 0)
      ensures old(Accounted()) ==> (Accounted() <==> host !in HostsOf(old(dist), k))
    {
      hide AddWord, Placed, LeastServer, DriftsAt, Exact;
      ghost var b := State();
      EntryErased(corrupted, k, host);
      EntryInserted(dist, k, host);
      hide EntryTaken, EntryAdded;
      corrupted := EraseHost(corrupted, k, host);
      CountUp(host, 1);
      ghost var b1 := State();
      TakeUp(k, host);
      DriftsCompose(b, b1, State(), host, 1, 0, if host in HostsOf(b.dist, k) then 0 else -1, 0);
      if old(Accounted()) {
        ExactIff(b, State(), host, if host in HostsOf(b.dist, k) then 1 else 0, 0);
      }
    }

    /**
     `setAllSgkeys`, for any list of keys: the host is counted once for every key reported, so the counters stay
     exact exactly when all of them are new to it and none is reported twice.  Every report in turn gives its key
     the least loaded of its hosts as server.
     */
    method SetAllSgkeys(host: Host, keys: seq<SgKey>) returns (ghost states: seq<Books>)
      requires Valid() && host != Unknown
      modifies `dist, `sLoad, `aLoad, `partition
      ensures Valid() && dist == InsertKeys(old(dist), host, keys)
      ensures Reports(old(State()), host, keys, states, State())
      ensures DriftsAt(old(State()), State(), host, |keys| - NewPairs(old(dist), host, keys), 0)
      ensures old(Accounted()) && |keys| < 0x1_0000_0000 ==> (Accounted() <==> AllNew(old(dist), host, keys))
    {
      hide AddWord, Placed, DriftsAt, Exact, HostsOf, TakenUp, Reports, InsertKeys, NewPairs, AllNew;
      ghost var b := State();
      CountUp(host, |keys|);
      NoneTakenUp(b, host, keys, State());
      states := [State()];
      var i := 0;
      while i < |keys|
        invariant 0 <= i <= |keys| && Valid() && TakenUp(b, host, keys, i, states, State())
      {
        states := TakeReport(host, keys, i, b, states);
        i := i + 1;
      }
      AllTakenUp(b, host, keys, states, State());
      NewPairsIff(b.dist, host, keys);
      if old(Accounted()) {
        ExactIff(b, State(), host, |keys| - NewPairs(b.dist, host, keys), 0);
      }
    }

    /** One report of the list. */
    method TakeReport(host: Host, keys: seq<SgKey>, n: nat, ghost b: Books, ghost states: seq<Books>)
      returns (ghost states': seq<Books>)
      requires Valid() && host != Unknown && n < |keys| && TakenUp(b, host, keys, n, states, State())
      modifies `dist, `aLoad, `partition
      ensures Valid() && TakenUp(b, host, keys, n + 1, states', State())
    {
      hide AddWord, Placed, DriftsAt, InsertHost, HostsOf, Reassigned, Reports, InsertKeys, NewPairs;
      ghost var b1 := State();
      OneReport(b.dist, host, keys, n);
      TakeUp(keys[n], host);
      ReportsMore(b, host, keys, n, states, b1, State());
      states' := states + [State()];
      DriftsCompose(b, b1, State(), host, |keys| - NewPairs(b.dist, host, keys[..n]), 0,
                    if host in HostsOf(b1.dist, keys[n]) then 0 else -1, 0);
    }
  }

  /** The first `n` reports of a list were taken up, whose hosts were counted for all of it. */
  ghost predicate TakenUp(b: Books, host: Host, keys: seq<SgKey>, n: nat, states: seq<Books>, b': Books)
    requires n <= |keys|
  {
    && b'.dist == InsertKeys(b.dist, host, keys[..n])
    && Reports(b, host, keys[..n], states, b')
    && DriftsAt(b, b', host, |keys| - NewPairs(b.dist, host, keys[..n]), 0)
  }

  lemma AllTakenUp(b: Books, host: Host, keys: seq<SgKey>, states: seq<Books>, b': Books)
    requires TakenUp(b, host, keys, |keys|, states, b')
    ensures b'.dist == InsertKeys(b.dist, host, keys) && Reports(b, host, keys, states, b')
    ensures DriftsAt(b, b', host, |keys| - NewPairs(b.dist, host, keys), 0)
  {
    hide Reports, DriftsAt, InsertKeys, NewPairs;
    assert keys[..|keys|] == keys;
  }

  lemma NoneTakenUp(b: Books, host: Host, keys: seq<SgKey>, b': Books)
    requires b' == b.(sLoad := b'.sLoad) && DriftsAt(b, b', host, |keys|, 0)
    ensures TakenUp(b, host, keys, 0, [b'], b')
  {
    hide DriftsAt;
    assert keys[..0] == [];
  }

  /** The states a list of reports goes through: each enters the host for its key, which gets a new server. */
  ghost predicate Reports(b: Books, host: Host, keys: seq<SgKey>, states: seq<Books>, b': Books) {
    && |states| == |keys| + 1
    && states[0] == b.(sLoad := b'.sLoad) && Last(states) == b'
    && forall i :: 0 <= i < |keys| ==> Reported(states[i], host, keys[i], states[i + 1])
  }

  ghost predicate Reported(b: Books, host: Host, k: SgKey, b': Books) {
    b'.dist == InsertHost(b.dist, k, host) && Reassigned(b, k, b') && b'.sLoad == b.sLoad
  }

  lemma ReportsMore(b: Books, host: Host, keys: seq<SgKey>, n: nat, states: seq<Books>, b1: Books, b': Books)
    requires n < |keys| && Reports(b, host, keys[..n], states, b1) && Reported(b1, host, keys[n], b')
    ensures Reports(b, host, keys[..n + 1], states + [b'], b')
  {
    assert b'.sLoad == b1.sLoad;
    hide Reported;
    var more, states' := keys[..n + 1], states + [b'];
    assert states'[0] == states[0];
    forall i | 0 <= i < |more| ensures Reported(states'[i], host, more[i], states'[i + 1]) {
      if i < n {
        assert more[i] == keys[..n][i] && states'[i + 1] == states[i + 1];
      }
    }
  }

  // ---------------------------------------------------------------- runs of any operations

  datatype TableOp =
    | CreateKey(k: SgKey)
    | DestroyKey(k: SgKey)
    | RecycleKey(k: SgKey, host: Host)
    | RestoreKey(k: SgKey, host: Host)
    | ReportKeys(host: Host, keys: seq<SgKey>)

  /** Calls that select a host only where there is one to select. */
  predicate Defined(b: Books, copies: nat, op: TableOp) {
    match op
    case CreateKey(_) => |b.sLoad| >= copies
    case DestroyKey(_) => true
    case RecycleKey(k, host) => host != Unknown && HostsOf(b.dist, k) != {host}
    case RestoreKey(_, host) => host != Unknown
    case ReportKeys(host, _) => host != Unknown
  }

  /** A call, with the hosts that were chosen for the key if it was a creation. */
  datatype Call = Call(op: TableOp, chosen: set<Host>)

  /** The choice may be any greedy one. */
  ghost predicate Chosen(b: Books, copies: nat, call: Call) {
    call.op.CreateKey? ==> |call.chosen| == copies && Greedy(b.sLoad, call.chosen)
  }

  ghost function DistAfter(b: Books, call: Call): Distribution {
    match call.op
    case CreateKey(k) => b.dist[k := HostsOf(b.dist, k) + call.chosen]
    case DestroyKey(k) => b.dist - {k}
    case RecycleKey(k, host) => EraseHost(b.dist, k, host)
    case RestoreKey(k, host) => InsertHost(b.dist, k, host)
    case ReportKeys(host, keys) => InsertKeys(b.dist, host, keys)
  }

  /** By how much a call makes the storage counter of a host drift. */
  ghost function StorageCharge(b: Books, call: Call, h: Host): int {
    match call.op
    case CreateKey(k) => if h in call.chosen && h in HostsOf(b.dist, k) then 1 else 0
    case DestroyKey(_) => 0
    case RecycleKey(k, host) => if h == host && host !in HostsOf(b.dist, k) then -1 else 0
    case RestoreKey(k, host) => if h == host && host in HostsOf(b.dist, k) then 1 else 0
    case ReportKeys(host, keys) => if h == host then |keys| - NewPairs(b.dist, host, keys) else 0
  }

  /** By how much it makes the access counter drift. */
  ghost function AccessCharge(b: Books, call: Call, h: Host): int {
    if call.op.RecycleKey? && h == call.op.host == ServerOf(b.partition, call.op.k) then -1 else 0
  }

  /** A call moved every drift by its charge. */
  ghost predicate Charged(b: Books, b': Books, call: Call) {
    forall h: Host :: h != Unknown ==>
      && StorageDriftOf(b', h) == AddWord(StorageDriftOf(b, h), StorageCharge(b, call, h))
      && AccessDriftOf(b', h) == AddWord(AccessDriftOf(b, h), AccessCharge(b, call, h))
  }

  /** What a call makes of the table. */
  ghost predicate Makes(b: Books, copies: nat, call: Call, b': Books) {
    && Defined(b, copies, call.op) && Chosen(b, copies, call)
    && b'.dist == DistAfter(b, call) && Charged(b, b', call) && Serving(b, call, b')
  }

  /** Which host serves which key after a call. */
  ghost predicate Serving(b: Books, call: Call, b': Books) {
    match call.op
    case CreateKey(k) => ServedAnew(b, k, b')
    case DestroyKey(k) => b'.partition == b.partition - {k}
    case RecycleKey(k, host) =>
      if host == ServerOf(b.partition, k) then ServedAnew(b, k, b') else b'.partition == b.partition
    case RestoreKey(k, _) => ServedAnew(b, k, b')
    case ReportKeys(host, keys) => exists states :: Reports(b, host, keys, states, b')
  }

  method Perform(t: Table, op: TableOp) returns (ghost call: Call)
    requires t.Valid() && Defined(t.State(), t.Copies(), op)
    modifies t
    ensures t.Valid() && call.op == op && Makes(old(t.State()), t.Copies(), call, t.State())
  {
    hide Exact, Greedy, Bumped, Placed, AheadBy, SameDrift, DriftsAt, NewPairs, InsertKeys, ServedAnew, Makes;
    ghost var b := t.State();
    call := Call(op, {});
    match op
    case CreateKey(k) =>
      ghost var chosen := t.Create(k);
      call := Call(op, chosen);
      MadeAhead(b, t.Copies(), call, t.State());
    case DestroyKey(k) =>
      t.Destroy(k);
      MadeAlike(b, t.Copies(), call, t.State());
    case RecycleKey(k, host) =>
      t.Recycle(k, host);
      MadeAt(b, t.Copies(), call, t.State(), host, StorageCharge(b, call, host), AccessCharge(b, call, host));
    case RestoreKey(k, host) =>
      t.Restore(k, host);
      MadeAt(b, t.Copies(), call, t.State(), host, StorageCharge(b, call, host), 0);
    case ReportKeys(host, keys) =>
      ghost var states := t.SetAllSgkeys(host, keys);
      MadeAt(b, t.Copies(), call, t.State(), host, StorageCharge(b, call, host), 0);
  }

  lemma MadeAhead(b: Books, copies: nat, call: Call, b': Books)
    requires call.op.CreateKey? && Defined(b, copies, call.op) && Chosen(b, copies, call)
    requires b'.dist == DistAfter(b, call) && AheadBy(b, b', call.chosen * HostsOf(b.dist, call.op.k))
    requires Serving(b, call, b')
    ensures Makes(b, copies, call, b')
  {
    hide StorageDriftOf, AccessDriftOf, AddWord, Defined, Chosen, HostsOf;
    forall h: Host | h != Unknown ensures AddWord(AccessDriftOf(b, h), 0) == AccessDriftOf(b, h) {
      DriftsAdd(AccessDriftOf(b, h), 0, 0);
    }
  }

  lemma MadeAlike(b: Books, copies: nat, call: Call, b': Books)
    requires call.op.DestroyKey? && b'.dist == DistAfter(b, call) && SameDrift(b, b') && Serving(b, call, b')
    ensures Makes(b, copies, call, b')
  {
    hide StorageDriftOf, AccessDriftOf;
  }

  lemma MadeAt(b: Books, copies: nat, call: Call, b': Books, host: Host, sd: int, ad: int)
    requires call.op.RecycleKey? || call.op.RestoreKey? || call.op.ReportKeys?
    requires Defined(b, copies, call.op) && b'.dist == DistAfter(b, call)
    requires host == call.op.host && sd == StorageCharge(b, call, host) && ad == AccessCharge(b, call, host)
    requires DriftsAt(b, b', host, sd, ad) && Serving(b, call, b')
    ensures Makes(b, copies, call, b')
  {
    hide StorageDriftOf, AccessDriftOf, NewPairs, DistAfter, AddWord, Defined, Serving;
    forall h: Host | h != host
      ensures StorageCharge(b, call, h) == 0 && AccessCharge(b, call, h) == 0
    {
    }
  }

  /** What a run charged to a host's storage counter, given the states it went through. */
  ghost function StorageTotal(states: seq<Books>, calls: seq<Call>, h: Host): int
    requires |calls| <= |states|
  {
    if calls == [] then 0
    else StorageTotal(states, Front(calls), h) + StorageCharge(states[|calls| - 1], Last(calls), h)
  }

  ghost function AccessTotal(states: seq<Books>, calls: seq<Call>, h: Host): int
    requires |calls| <= |states|
  {
    if calls == [] then 0 else AccessTotal(states, Front(calls), h) + AccessCharge(states[|calls| - 1], Last(calls), h)
  }

  /** The states of a run: each is what the call before it made of the one before. */
  ghost predicate Trace(states: seq<Books>, copies: nat, calls: seq<Call>) {
    && |states| == |calls| + 1
    && forall i :: 0 <= i < |calls| ==> Makes(states[i], copies, calls[i], states[i + 1])
  }

  lemma TraceLength(states: seq<Books>, copies: nat, calls: seq<Call>)
    requires Trace(states, copies, calls)
    ensures |states| == |calls| + 1
  {
  }

  lemma TraceGrows(states: seq<Books>, copies: nat, calls: seq<Call>, call: Call, b': Books)
    requires Trace(states, copies, calls) && Makes(Last(states), copies, call, b')
    ensures Trace(states + [b'], copies, calls + [call])
  {
    hide Makes;
    var states', calls' := states + [b'], calls + [call];
    forall i | 0 <= i < |calls'| ensures Makes(states'[i], copies, calls'[i], states'[i + 1]) {
      if i < |calls| {
        assert states'[i + 1] == states[i + 1];
      }
    }
  }

  /** Over any run each counter drifts by exactly what the calls charge it. */
  lemma {:induction false} RunDrift(states: seq<Books>, copies: nat, calls: seq<Call>, h: Host)
    requires Trace(states, copies, calls) && h != Unknown
    ensures StorageDriftOf(Last(states), h) == AddWord(StorageDriftOf(states[0], h), StorageTotal(states, calls, h))
    ensures AccessDriftOf(Last(states), h) == AddWord(AccessDriftOf(states[0], h), AccessTotal(states, calls, h))
    decreases |calls|
  {
    hide StorageDriftOf, AccessDriftOf, StorageCharge, AccessCharge, DistAfter, Defined, Chosen, Serving, AddWord;
    if calls == [] {
      DriftsAdd(StorageDriftOf(states[0], h), 0, 0);
      DriftsAdd(AccessDriftOf(states[0], h), 0, 0);
    } else {
      var n, init, b := |calls| - 1, Front(states), states[|calls| - 1];
      assert Makes(states[n], copies, calls[n], states[n + 1]);
      RunDrift(init, copies, Front(calls), h);
      SameTotals(init, states, Front(calls), h);
      DriftsAdd(StorageDriftOf(states[0], h), StorageTotal(states, Front(calls), h), StorageCharge(b, calls[n], h));
      DriftsAdd(AccessDriftOf(states[0], h), AccessTotal(states, Front(calls), h), AccessCharge(b, calls[n], h));
    }
  }

  /** A total depends on no state after the last call. */
  lemma {:induction false} SameTotals(states: seq<Books>, states': seq<Books>, calls: seq<Call>, h: Host)
    requires |calls| <= |states| && states <= states'
    ensures StorageTotal(states, calls, h) == StorageTotal(states', calls, h)
    ensures AccessTotal(states, calls, h) == AccessTotal(states', calls, h)
    decreases |calls|
  {
    hide StorageCharge, AccessCharge;
    if calls != [] {
      SameTotals(states, states', Front(calls), h);
    }
  }

  /** What a run charged to each host adds up to nothing, in 32 bits. */
  ghost predicate Settled(states: seq<Books>, calls: seq<Call>)
    requires |calls| <= |states|
  {
    forall h: Host :: h != Unknown ==> SettledAt(states, calls, h)
  }

  ghost predicate SettledAt(states: seq<Books>, calls: seq<Call>, h: Host)
    requires |calls| <= |states|
  {
    StorageTotal(states, calls, h) % 0x1_0000_0000 == 0 && AccessTotal(states, calls, h) % 0x1_0000_0000 == 0
  }

  lemma SettledHost(states: seq<Books>, copies: nat, calls: seq<Call>, h: Host)
    requires Trace(states, copies, calls) && Exact(states[0]) && h != Unknown
    ensures StorageDriftOf(Last(states), h) == 0 && AccessDriftOf(Last(states), h) == 0
      <==> SettledAt(states, calls, h)
  {
    assert StorageDriftOf(states[0], h) == 0 && AccessDriftOf(states[0], h) == 0;
    TraceLength(states, copies, calls);
    hide Trace, StorageDriftOf, AccessDriftOf, StorageTotal, AccessTotal, Exact, AddWord;
    RunDrift(states, copies, calls, h);
    FromZero(StorageTotal(states, calls, h));
    FromZero(AccessTotal(states, calls, h));
  }

  /** Load accounting over any run: exact counters end exact if and only if the run is settled. */
  lemma RunExactIff(states: seq<Books>, copies: nat, calls: seq<Call>)
    requires Trace(states, copies, calls) && Exact(states[0])
    ensures Exact(Last(states)) <==> Settled(states, calls)
  {
    assert |states| == |calls| + 1;
    var b := Last(states);
    forall h: Host | h != Unknown
      ensures StorageDriftOf(b, h) == 0 && AccessDriftOf(b, h) == 0 <==> SettledAt(states, calls, h)
    {
      SettledHost(states, copies, calls, h);
    }
    hide StorageDriftOf, AccessDriftOf, SettledAt, Trace;
  }

  /** Calls that say what is so: new keys and reports, and hosts that store or do not store the key as assumed. */
  ghost predicate Proper(b: Books, call: Call) {
    match call.op
    case CreateKey(k) => HostsOf(b.dist, k) == {}
    case DestroyKey(_) => true
    case RecycleKey(k, host) => host in HostsOf(b.dist, k) && host != ServerOf(b.partition, k)
    case RestoreKey(k, host) => host !in HostsOf(b.dist, k)
    case ReportKeys(host, keys) => AllNew(b.dist, host, keys)
  }

  /** A proper call charges nothing. */
  lemma ProperUncharged(b: Books, call: Call, h: Host)
    requires Proper(b, call)
    ensures StorageCharge(b, call, h) == 0 && AccessCharge(b, call, h) == 0
  {
    if call.op.ReportKeys? {
      NewPairsIff(b.dist, call.op.host, call.op.keys);
    }
  }

  lemma {:induction false} ProperTotals(states: seq<Books>, calls: seq<Call>, h: Host)
    requires |calls| <= |states| && forall i :: 0 <= i < |calls| ==> Proper(states[i], calls[i])
    ensures StorageTotal(states, calls, h) == 0 && AccessTotal(states, calls, h) == 0
    decreases |calls|
  {
    hide StorageCharge, AccessCharge, Proper;
    if calls != [] {
      ProperTotals(states, Front(calls), h);
      ProperUncharged(states[|calls| - 1], Last(calls), h);
    }
  }

  /** A run of proper calls keeps exact counters exact: each is the number of keys of its host, in 32 bits. */
  lemma ProperRunExact(states: seq<Books>, copies: nat, calls: seq<Call>)
    requires Trace(states, copies, calls) && Exact(states[0])
    requires forall i :: 0 <= i < |calls| ==> Proper(states[i], calls[i])
    ensures Exact(Last(states))
    ensures forall h: Host :: h != Unknown ==>
      && LoadOf(Last(states).sLoad, h) as int == |Stored(Last(states).dist, h)| % 0x1_0000_0000
      && LoadOf(Last(states).aLoad, h) as int == |Served(Last(states).partition, h)| % 0x1_0000_0000
  {
    TraceLength(states, copies, calls);
    hide Trace, Exact, Proper, StorageTotal, AccessTotal;
    forall h: Host | h != Unknown ensures SettledAt(states, calls, h) {
      ProperTotals(states, calls, h);
    }
    hide SettledAt;
    RunExactIff(states, copies, calls);
    ExactMeans(Last(states));
  }

  /** Any run of calls on a table, up to the first that has no host to select. */
  method Serve(t: Table, ops: seq<TableOp>) returns (n: nat, ghost states: seq<Books>, ghost calls: seq<Call>)
    requires t.Valid()
    modifies t
    ensures t.Valid() && Trace(states, if t.replica == 0 then 1 else t.replica, calls)
    ensures n == |calls| <= |ops| && forall i :: 0 <= i < n ==> calls[i].op == ops[i]
    ensures states[0] == old(t.State()) && Last(states) == t.State()
    ensures n < |ops| ==> !Defined(t.State(), t.Copies(), ops[n])
    ensures old(t.Accounted()) ==> (t.Accounted() <==> Settled(states, calls))
  {
    n := 0;
    states, calls := [t.State()], [];
    assert Trace(states, t.Copies(), calls);
    hide Makes, Exact, Settled, Trace, Defined, Placed;
    while n < |ops| && Defined(t.State(), t.Copies(), ops[n])
      invariant 0 <= n <= |ops| && t.Valid() && Trace(states, t.Copies(), calls)
      invariant n == |calls| && forall i :: 0 <= i < n ==> calls[i].op == ops[i]
      invariant states != [] && states[0] == old(t.State()) && Last(states) == t.State()
    {
      ghost var call := Perform(t, ops[n]);
      TraceGrows(states, t.Copies(), calls, call, t.State());
      states, calls := states + [t.State()], calls + [call];
      n := n + 1;
    }
    TraceLength(states, t.Copies(), calls);
    if old(t.Accounted()) {
      RunExactIff(states, t.Copies(), calls);
    }
  }

  // ---------------------------------------------------------------- balance over runs

  ghost predicate FreshKeys(dist: Distribution, keys: seq<SgKey>) {
    && (forall i :: 0 <= i < |keys| ==> HostsOf(dist, keys[i]) == {})
    && (forall i, j :: 0 <= i < j < |keys| ==> keys[i] != keys[j])
  }

  /**
   Any number of `create` calls, from equal storage loads: the loads of all hosts end within one of each
   other.  For fresh keys the counters stay exact and every key has its number of hosts.
   */
  method CreateAll(t: Table, keys: seq<SgKey>, ghost equal: nat) returns (ghost m: nat)
    requires t.Valid() && |t.sLoad| >= t.Copies()
    requires forall h :: h in t.sLoad ==> t.sLoad[h] as int == equal
    requires equal + |keys| + 2 < 0x1_0000_0000
    modifies t
    ensures t.Valid() && t.sLoad.Keys == old(t.sLoad).Keys && equal <= m <= equal + |keys| && Balanced(t.sLoad, m)
    ensures FreshKeys(old(t.dist), keys) ==>
      forall i :: 0 <= i < |keys| ==> |HostsOf(t.dist, keys[i])| == if t.replica == 0 then 1 else t.replica
    ensures FreshKeys(old(t.dist), keys) && old(t.Accounted()) ==> t.Accounted()
  {
    hide AddWord, LeastLoaded, Greedy, Bumped, Exact, AheadBy, Placed;
    m := equal;
    ghost var freshKeys, exact := FreshKeys(t.dist, keys), t.Accounted();
    var i := 0;
    while i < |keys|
      invariant 0 <= i <= |keys| && equal <= m <= equal + i
      invariant t.Valid() && t.sLoad.Keys == old(t.sLoad).Keys && Balanced(t.sLoad, m)
      invariant freshKeys ==> forall j :: i <= j < |keys| ==> HostsOf(t.dist, keys[j]) == {}
      invariant freshKeys ==> forall j :: 0 <= j < i ==> |HostsOf(t.dist, keys[j])| == t.Copies()
      invariant freshKeys && exact ==> t.Accounted()
    {
      ghost var load, dist := t.sLoad, t.dist;
      SameSize(t.sLoad, old(t.sLoad));
      ghost var chosen := t.Create(keys[i]);
      GreedyKnown(load, chosen);
      GreedyKeepsBalance(load, chosen, m);
      m := if Balanced(t.sLoad, m) then m else m + 1;
      assert HostsOf(dist, keys[i]) == {} ==> HostsOf(t.dist, keys[i]) == chosen;
      i := i + 1;
    }
  }

  lemma SameSize(a: LoadMap, b: LoadMap)
    requires a.Keys == b.Keys
    ensures |a| == |b|
  {
    assert |a| == |a.Keys| && |b| == |b.Keys|;
  }
}
