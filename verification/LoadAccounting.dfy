/**
 The load counters of `GraphTable` and what they should count, as values: which host is least loaded, which
 hosts a greedy choice takes, and how far a counter has drifted from the number of keys it stands for.
 */
module LoadAccounting {
  import opened BlockFormat

  /** A host by name; names are ordered as their numbers are.  `Unknown` is the name of no host. */
  datatype Host = Unknown | Named(id: nat)

  type SgKey = Word
  type LoadMap = map<Host, Word>
  type Distribution = map<SgKey, set<Host>>
  type Partition = map<SgKey, Host>

  // ---------------------------------------------------------------- loads

  function LoadOf(load: LoadMap, h: Host): Word {
    if h in load then load[h] else 0
  }

  function Plus(load: LoadMap, h: Host, n: nat): LoadMap {
    load[h := AddWord(LoadOf(load, h), n)]
  }

  function Minus(load: LoadMap, h: Host, n: nat): LoadMap {
    load[h := SubWord(LoadOf(load, h), n)]
  }

  /** `h` comes no later than `x` by load, then by name. */
  predicate NoLater(load: LoadMap, h: Host, x: Host) {
    LoadOf(load, h) < LoadOf(load, x) || (LoadOf(load, h) == LoadOf(load, x) && NameLe(h, x))
  }

  predicate NameLe(h: Host, x: Host) {
    h == Unknown || (x != Unknown && h.id <= x.id)
  }

  lemma NoLaterOrder(load: LoadMap, a: Host, b: Host, c: Host)
    ensures NoLater(load, a, b) || NoLater(load, b, a)
    ensures NoLater(load, a, a)
    ensures NoLater(load, a, b) && NoLater(load, b, c) ==> NoLater(load, a, c)
  {
  }

  lemma {:induction false} LeastLoadedExists(load: LoadMap, hosts: set<Host>) returns (m: Host)
    requires hosts != {}
    ensures m in hosts && forall x :: x in hosts ==> NoLater(load, m, x)
    decreases |hosts|
  {
    hide NoLater;
    var a :| a in hosts;
    var rest := hosts - {a};
    NoLaterOrder(load, a, a, a);
    if rest == {} {
      assert hosts == {a};
      m := a;
    } else {
      var b := LeastLoadedExists(load, rest);
      NoLaterOrder(load, a, b, a);
      m := if NoLater(load, a, b) then a else b;
      forall x | x in hosts ensures NoLater(load, m, x) {
        NoLaterOrder(load, a, b, x);
        assert x == a || x in rest;
      }
    }
  }

  /** The host `min_element` finds: least loaded, first by name. */
  function LeastLoaded(load: LoadMap, hosts: set<Host>): (h: Host)
    requires hosts != {}
    ensures h in hosts && forall x :: x in hosts ==> NoLater(load, h, x)
  {
    assert exists h :: h in hosts && forall x :: x in hosts ==> NoLater(load, h, x) by {
      var m := LeastLoadedExists(load, hosts);
    }
    var h :| h in hosts && forall x :: x in hosts ==> NoLater(load, h, x);
    h
  }

  /** The load of a host once `server` is relieved of a key. */
  ghost function LoadWithout(load: LoadMap, server: Host, h: Host): int {
    if h == server && h != Unknown then (LoadOf(load, h) - 1) % 0x1_0000_0000 else LoadOf(load, h)
  }

  /** None of the hosts has a smaller load once `server` is relieved, nor an equal one and an earlier name. */
  ghost predicate LeastServer(load: LoadMap, server: Host, hosts: set<Host>, host: Host) {
    && host in hosts
    && forall x :: x in hosts ==>
         && LoadWithout(load, server, host) <= LoadWithout(load, server, x)
         && (LoadWithout(load, server, host) == LoadWithout(load, server, x) ==>
              host == Unknown || (x != Unknown && host.id <= x.id))
  }

  /** It is what `min_element` finds. */
  lemma LeastLoadedServes(load: LoadMap, server: Host, hosts: set<Host>)
    requires hosts != {}
    ensures LeastServer(load, server, hosts, LeastLoaded(Relieved(load, server), hosts))
  {
    var h := LeastLoaded(Relieved(load, server), hosts);
    forall x | x in hosts ensures LoadOf(Relieved(load, server), x) == LoadWithout(load, server, x) {
    }
    assert forall x :: x in hosts ==> NoLater(Relieved(load, server), h, x);
  }

  // ---------------------------------------------------------------- what the counters count

  function HostsOf(dist: Distribution, k: SgKey): set<Host> {
    if k in dist then dist[k] else {}
  }

  function ServerOf(partition: Partition, k: SgKey): Host {
    if k in partition then partition[k] else Unknown
  }

  /** The keys a host stores. */
  ghost function Stored(dist: Distribution, h: Host): set<SgKey> {
    set k | k in dist && h in dist[k]
  }

  /** The keys a host serves. */
  ghost function Served(partition: Partition, h: Host): set<SgKey> {
    set k | k in partition && partition[k] == h
  }

  /** How far a storage counter is ahead of the keys the host stores, in 32 bits. */
  ghost function StorageDrift(sLoad: LoadMap, dist: Distribution, h: Host): Word {
    SubWord(LoadOf(sLoad, h), |Stored(dist, h)|)
  }

  /** How far an access counter is ahead of the keys the host serves, in 32 bits. */
  ghost function AccessDrift(aLoad: LoadMap, partition: Partition, h: Host): Word {
    SubWord(LoadOf(aLoad, h), |Served(partition, h)|)
  }

  /** Keys are served by a host that stores them, and every key that is stored somewhere is served. */
  ghost predicate Placed(dist: Distribution, partition: Partition) {
    && (forall k :: k in partition ==> partition[k] != Unknown && partition[k] in HostsOf(dist, k))
    && (forall k :: k in dist && dist[k] != {} ==> k in partition)
    && (forall k :: k in dist ==> Unknown !in dist[k])
  }

  lemma PlacedFacts(dist: Distribution, partition: Partition, k: SgKey)
    requires Placed(dist, partition)
    ensures Unknown !in HostsOf(dist, k)
    ensures HostsOf(dist, k) != {} <==> k in partition
    ensures k in partition ==> partition[k] != Unknown && partition[k] in HostsOf(dist, k)
  {
  }

  lemma PlacedErase(dist: Distribution, partition: Partition, k: SgKey)
    requires Placed(dist, partition)
    ensures Placed(dist - {k}, partition - {k})
  {
    forall j | j in partition - {k} ensures partition[j] in HostsOf(dist - {k}, j) {
      assert partition[j] in HostsOf(dist, j);
    }
  }

  /** A key gets new hosts, one of which serves it. */
  lemma PlacedSet(dist: Distribution, partition: Partition, k: SgKey, hosts: set<Host>, s: Host)
    requires Placed(dist, partition) && s in hosts && Unknown !in hosts
    ensures Placed(dist[k := hosts], partition[k := s])
  {
    var p := partition[k := s];
    forall j | j in p ensures p[j] in HostsOf(dist[k := hosts], j) {
      assert j != k ==> partition[j] in HostsOf(dist, j);
    }
  }

  /** A key that keeps its server may lose other hosts. */
  lemma StillServed(dist: Distribution, dist': Distribution, partition: Partition, k: SgKey, hosts: set<Host>)
    requires Placed(dist, partition) && hosts <= HostsOf(dist, k)
    requires if k in partition then partition[k] in hosts else hosts == {}
    requires dist' == dist[k := hosts] || (dist' == dist - {k} && hosts == {})
    ensures Placed(dist', partition)
  {
    forall j | j in partition ensures partition[j] in HostsOf(dist', j) {
      assert j != k ==> partition[j] in HostsOf(dist, j);
    }
  }

  // ---------------------------------------------------------------- how updates move the counts

  /** What an update of one key's hosts does to a host's keys. */
  lemma StoredMember(dist: Distribution, k: SgKey, hosts: set<Host>, h: Host, x: SgKey)
    ensures x in Stored(dist[k := hosts], h) <==> if x == k then h in hosts else x in Stored(dist, h)
    ensures k in Stored(dist, h) <==> h in HostsOf(dist, k)
  {
  }

  lemma StoredUpdate(dist: Distribution, k: SgKey, hosts: set<Host>, h: Host)
    ensures |Stored(dist[k := hosts], h)|
         == |Stored(dist, h)| + (if h in hosts then 1 else 0) - (if h in HostsOf(dist, k) then 1 else 0)
  {
    hide Stored, HostsOf;
    StoredMember(dist, k, hosts, h, k);
    forall x | x != k ensures x in Stored(dist[k := hosts], h) <==> x in Stored(dist, h) {
      StoredMember(dist, k, hosts, h, x);
    }
    Toggled(Stored(dist, h), Stored(dist[k := hosts], h), k);
  }

  /** Sets that differ at most in one key. */
  lemma Toggled(s: set<SgKey>, t: set<SgKey>, k: SgKey)
    requires forall x :: x != k ==> (x in s <==> x in t)
    ensures |t| == |s| + (if k in t then 1 else 0) - (if k in s then 1 else 0)
  {
    assert s - {k} == t - {k};
    assert |s - {k}| == |s| - (if k in s then 1 else 0);
    assert |t - {k}| == |t| - (if k in t then 1 else 0);
  }

  lemma StoredErase(dist: Distribution, k: SgKey, h: Host)
    ensures |Stored(dist - {k}, h)| == |Stored(dist, h)| - (if h in HostsOf(dist, k) then 1 else 0)
  {
    assert k in Stored(dist, h) <==> h in HostsOf(dist, k);
    Toggled(Stored(dist, h), Stored(dist - {k}, h), k);
  }

  lemma ServedUpdate(partition: Partition, k: SgKey, s: Host, h: Host)
    requires h != Unknown
    ensures |Served(partition[k := s], h)|
         == |Served(partition, h)| + (if h == s then 1 else 0) - (if h == ServerOf(partition, k) then 1 else 0)
  {
    var before, after := Served(partition, h), Served(partition[k := s], h);
    assert forall x :: x != k ==> (x in before <==> x in after);
    assert k in before <==> h == ServerOf(partition, k);
    assert k in after <==> h == s;
    hide Served, ServerOf;
    Toggled(before, after, k);
  }

  lemma ServedErase(partition: Partition, k: SgKey, h: Host)
    requires h != Unknown
    ensures |Served(partition - {k}, h)| == |Served(partition, h)| - (if h == ServerOf(partition, k) then 1 else 0)
  {
    assert k in Served(partition, h) <==> h == ServerOf(partition, k);
    Toggled(Served(partition, h), Served(partition - {k}, h), k);
  }

  /** The drift of a counter that moved by `d` while its count moved by `n`. */
  lemma DriftArithmetic(x: int, d: int, count: int, n: int)
    ensures ((x + d) % 0x1_0000_0000 - (count + n)) % 0x1_0000_0000
         == ((x - count) % 0x1_0000_0000 + (d - n)) % 0x1_0000_0000
  {
  }

  /** A key gets other hosts, or none, while a storage counter moves by `d`. */
  lemma StorageMoves(sLoad: LoadMap, sLoad': LoadMap, dist: Distribution, dist': Distribution, k: SgKey,
                     hosts: set<Host>, h: Host, d: int)
    requires dist' == dist[k := hosts] || (dist' == dist - {k} && hosts == {})
    requires LoadOf(sLoad', h) == (LoadOf(sLoad, h) + d) % 0x1_0000_0000
    ensures StorageDrift(sLoad', dist', h) ==
      AddWord(StorageDrift(sLoad, dist, h),
              d + (if h in HostsOf(dist, k) then 1 else 0) - (if h in hosts then 1 else 0))
  {
    StoredUpdate(dist, k, hosts, h);
    StoredErase(dist, k, h);
    var n := (if h in hosts then 1 else 0) - (if h in HostsOf(dist, k) then 1 else 0);
    assert |Stored(dist', h)| == |Stored(dist, h)| + n;
    hide Stored, HostsOf, LoadOf;
    DriftArithmetic(LoadOf(sLoad, h), d, |Stored(dist, h)|, n);
  }

  /** A key gets another server, or none, while an access counter moves by `d`. */
  lemma AccessMoves(aLoad: LoadMap, aLoad': LoadMap, partition: Partition, partition': Partition, k: SgKey,
                    s: Host, h: Host, d: int)
    requires h != Unknown
    requires partition' == partition[k := s] || (partition' == partition - {k} && s == Unknown)
    requires LoadOf(aLoad', h) == (LoadOf(aLoad, h) + d) % 0x1_0000_0000
    ensures AccessDrift(aLoad', partition', h) ==
      AddWord(AccessDrift(aLoad, partition, h),
              d + (if h == ServerOf(partition, k) then 1 else 0) - (if h == s then 1 else 0))
  {
    ServedUpdate(partition, k, s, h);
    ServedErase(partition, k, h);
    var n := (if h == s then 1 else 0) - (if h == ServerOf(partition, k) then 1 else 0);
    assert |Served(partition', h)| == |Served(partition, h)| + n;
    hide Served, ServerOf, LoadOf;
    DriftArithmetic(LoadOf(aLoad, h), d, |Served(partition, h)|, n);
  }

  /** A counter moves alone. */
  lemma StorageCounterMoved(sLoad: LoadMap, sLoad': LoadMap, dist: Distribution, h: Host, d: int)
    requires LoadOf(sLoad', h) == (LoadOf(sLoad, h) + d) % 0x1_0000_0000
    ensures StorageDrift(sLoad', dist, h) == AddWord(StorageDrift(sLoad, dist, h), d)
  {
    hide Stored, LoadOf;
    DriftArithmetic(LoadOf(sLoad, h), d, |Stored(dist, h)|, 0);
  }

  lemma AccessCounterMoved(aLoad: LoadMap, aLoad': LoadMap, partition: Partition, h: Host, d: int)
    requires LoadOf(aLoad', h) == (LoadOf(aLoad, h) + d) % 0x1_0000_0000
    ensures AccessDrift(aLoad', partition, h) == AddWord(AccessDrift(aLoad, partition, h), d)
  {
    hide Served, LoadOf;
    DriftArithmetic(LoadOf(aLoad, h), d, |Served(partition, h)|, 0);
  }

  /** Drifts add up. */
  lemma DriftsAdd(x: Word, a: int, b: int)
    ensures AddWord(AddWord(x, a), b) == AddWord(x, a + b)
    ensures AddWord(x, 0) == x
  {
  }

  /** A counter that has not drifted. */
  lemma FromZero(total: int)
    ensures AddWord(0, total) == 0 <==> total % 0x1_0000_0000 == 0
  {
  }

  /** The table's hosts and servers by key, and its counters. */
  datatype Books = Books(dist: Distribution, partition: Partition, sLoad: LoadMap, aLoad: LoadMap)

  /** The key has a new server: the least loaded of its hosts once the old one is relieved. */
  ghost predicate ServedAnew(b: Books, k: SgKey, b': Books) {
    && b'.partition == b.partition[k := ServerOf(b'.partition, k)]
    && LeastServer(b.aLoad, ServerOf(b.partition, k), HostsOf(b'.dist, k), ServerOf(b'.partition, k))
  }

  /** And the access loads moved with it. */
  ghost predicate Reassigned(b: Books, k: SgKey, b': Books) {
    && ServedAnew(b, k, b')
    && forall h: Host :: h != Unknown ==>
         LoadOf(b'.aLoad, h) ==
           (LoadOf(b.aLoad, h) + (if h == ServerOf(b'.partition, k) then 1 else 0)
              - (if h == ServerOf(b.partition, k) then 1 else 0)) % 0x1_0000_0000
  }

  /** A load that moved at the old server alone, which is no host of the key any more, makes no difference. */
  lemma ServedElsewhere(b: Books, b1: Books, k: SgKey, b': Books)
    requires ServedAnew(b1, k, b') && b1.partition == b.partition
    requires ServerOf(b.partition, k) !in HostsOf(b'.dist, k)
    requires forall h: Host :: h != ServerOf(b.partition, k) ==> LoadOf(b1.aLoad, h) == LoadOf(b.aLoad, h)
    ensures ServedAnew(b, k, b')
  {
    var server, s := ServerOf(b.partition, k), ServerOf(b'.partition, k);
    forall x | x in HostsOf(b'.dist, k)
      ensures LoadWithout(b.aLoad, server, x) == LoadWithout(b1.aLoad, server, x)
    {
    }
  }

  /** The hosts of every key are as they were, with `host` added to those of `k`. */
  ghost predicate EntryAdded(d: Distribution, d': Distribution, k: SgKey, host: Host) {
    forall j :: HostsOf(d', j) == HostsOf(d, j) + if j == k then {host} else {}
  }

  ghost predicate EntryTaken(d: Distribution, d': Distribution, k: SgKey, host: Host) {
    forall j :: HostsOf(d', j) == HostsOf(d, j) - if j == k then {host} else {}
  }

  ghost function StorageDriftOf(b: Books, h: Host): Word {
    StorageDrift(b.sLoad, b.dist, h)
  }

  ghost function AccessDriftOf(b: Books, h: Host): Word {
    AccessDrift(b.aLoad, b.partition, h)
  }

  ghost predicate Exact(b: Books) {
    forall h: Host :: h != Unknown ==> StorageDriftOf(b, h) == 0 && AccessDriftOf(b, h) == 0
  }

  /** What exact counters mean: each is the number of keys its host stores or serves, in 32 bits. */
  lemma ExactMeans(b: Books)
    ensures Exact(b) <==>
      forall h: Host :: h != Unknown ==>
        && LoadOf(b.sLoad, h) as int == |Stored(b.dist, h)| % 0x1_0000_0000
        && LoadOf(b.aLoad, h) as int == |Served(b.partition, h)| % 0x1_0000_0000
  {
    hide LoadOf, Stored, Served;
    forall h: Host
      ensures StorageDriftOf(b, h) == 0 <==> LoadOf(b.sLoad, h) as int == |Stored(b.dist, h)| % 0x1_0000_0000
      ensures AccessDriftOf(b, h) == 0 <==> LoadOf(b.aLoad, h) as int == |Served(b.partition, h)| % 0x1_0000_0000
    {
      NoDriftIff(LoadOf(b.sLoad, h), |Stored(b.dist, h)|);
      NoDriftIff(LoadOf(b.aLoad, h), |Served(b.partition, h)|);
    }
    hide StorageDriftOf, AccessDriftOf;
  }

  lemma NoDriftIff(load: Word, n: nat)
    ensures SubWord(load, n) == 0 <==> load as int == n % 0x1_0000_0000
  {
  }

  /** No counter drifted. */
  ghost predicate SameDrift(b: Books, b': Books) {
    forall h: Host :: h != Unknown ==>
      StorageDriftOf(b', h) == StorageDriftOf(b, h) && AccessDriftOf(b', h) == AccessDriftOf(b, h)
  }

  /** The counters of `host` drifted by `sd` and `ad` from what they count, and no others. */
  ghost predicate DriftsAt(b: Books, b': Books, host: Host, sd: int, ad: int) {
    forall h: Host :: h != Unknown ==>
      && StorageDriftOf(b', h) == AddWord(StorageDriftOf(b, h), if h == host then sd else 0)
      && AccessDriftOf(b', h) == AddWord(AccessDriftOf(b, h), if h == host then ad else 0)
  }

  /** The storage counters of `hosts` are one more ahead, and no others. */
  ghost predicate AheadBy(b: Books, b': Books, hosts: set<Host>) {
    forall h: Host :: h != Unknown ==>
      && StorageDriftOf(b', h) == AddWord(StorageDriftOf(b, h), if h in hosts then 1 else 0)
      && AccessDriftOf(b', h) == AccessDriftOf(b, h)
  }

  /** Exact counters stay exact exactly when nothing drifts. */
  lemma ExactIff(b: Books, b': Books, host: Host, sd: int, ad: int)
    requires Exact(b) && DriftsAt(b, b', host, sd, ad) && host != Unknown
    ensures Exact(b') <==> sd % 0x1_0000_0000 == 0 && ad % 0x1_0000_0000 == 0
  {
    hide StorageDriftOf, AccessDriftOf, AddWord;
    FromZero(sd);
    FromZero(ad);
    FromZero(0);
    assert StorageDriftOf(b', host) == AddWord(0, sd) && AccessDriftOf(b', host) == AddWord(0, ad);
  }

  lemma ExactIfNoneAhead(b: Books, b': Books, hosts: set<Host>)
    requires Exact(b) && AheadBy(b, b', hosts) && Unknown !in hosts
    ensures Exact(b') <==> hosts == {}
  {
    hide StorageDriftOf, AccessDriftOf, AddWord;
    FromZero(0);
    FromZero(1);
    if hosts != {} {
      var h :| h in hosts;
      assert StorageDriftOf(b', h) == AddWord(0, 1);
    }
  }

  lemma SameDriftExact(b: Books, b': Books)
    requires SameDrift(b, b') || b == b'
    ensures SameDrift(b, b') && (Exact(b) ==> Exact(b'))
  {
  }

  lemma AheadThenSame(b: Books, b1: Books, b': Books, hosts: set<Host>)
    requires AheadBy(b, b1, hosts) && SameDrift(b1, b')
    ensures AheadBy(b, b', hosts)
  {
    hide StorageDriftOf, AccessDriftOf;
  }

  lemma NoneAhead(b: Books, b1: Books, b': Books, hosts: set<Host>)
    requires SameDrift(b, b1) && AheadBy(b1, b', hosts) && hosts == {}
    ensures SameDrift(b, b') && (Exact(b) ==> Exact(b'))
  {
    hide StorageDriftOf, AccessDriftOf;
    forall h: Host | h != Unknown ensures StorageDriftOf(b', h) == StorageDriftOf(b1, h) {
    }
  }

  lemma DriftsCompose(b: Books, b1: Books, b2: Books, host: Host, sd1: int, ad1: int, sd2: int, ad2: int)
    requires DriftsAt(b, b1, host, sd1, ad1) && DriftsAt(b1, b2, host, sd2, ad2)
    ensures DriftsAt(b, b2, host, sd1 + sd2, ad1 + ad2)
  {
    hide StorageDriftOf, AccessDriftOf, AddWord;
    forall h: Host | h != Unknown
      ensures StorageDriftOf(b2, h) == AddWord(StorageDriftOf(b, h), if h == host then sd1 + sd2 else 0)
      ensures AccessDriftOf(b2, h) == AddWord(AccessDriftOf(b, h), if h == host then ad1 + ad2 else 0)
    {
      assert StorageDriftOf(b1, h) == AddWord(StorageDriftOf(b, h), if h == host then sd1 else 0);
      assert AccessDriftOf(b1, h) == AddWord(AccessDriftOf(b, h), if h == host then ad1 else 0);
      DriftsAdd(StorageDriftOf(b, h), if h == host then sd1 else 0, if h == host then sd2 else 0);
      DriftsAdd(AccessDriftOf(b, h), if h == host then ad1 else 0, if h == host then ad2 else 0);
    }
  }

  /** Nothing drifting is a drift by nothing. */
  lemma SameDriftsAt(b: Books, b': Books, host: Host)
    ensures SameDrift(b, b') <==> DriftsAt(b, b', host, 0, 0)
  {
    hide StorageDriftOf, AccessDriftOf, AddWord;
    forall h: Host | h != Unknown
      ensures AddWord(StorageDriftOf(b, h), 0) == StorageDriftOf(b, h)
      ensures AddWord(AccessDriftOf(b, h), 0) == AccessDriftOf(b, h)
    {
      DriftsAdd(StorageDriftOf(b, h), 0, 0);
      DriftsAdd(AccessDriftOf(b, h), 0, 0);
    }
    if DriftsAt(b, b', host, 0, 0) {
      forall h: Host | h != Unknown
        ensures StorageDriftOf(b', h) == StorageDriftOf(b, h) && AccessDriftOf(b', h) == AccessDriftOf(b, h)
      {
        assert AddWord(StorageDriftOf(b, h), 0) == StorageDriftOf(b, h);
        assert AddWord(AccessDriftOf(b, h), 0) == AccessDriftOf(b, h);
      }
    }
  }

  // ---------------------------------------------------------------- how the operations make them drift

  /** One host's counter moves by `d`, and it alone may join or leave the hosts of a key. */
  lemma OneHostMoves(b: Books, b': Books, k: SgKey, hosts: set<Host>, host: Host, d: int)
    requires b'.partition == b.partition && b'.aLoad == b.aLoad
    requires b'.dist == b.dist[k := hosts] || (b'.dist == b.dist - {k} && hosts == {})
    requires forall h: Host :: h != host ==> (h in hosts <==> h in HostsOf(b.dist, k))
    requires forall h: Host ::
      LoadOf(b'.sLoad, h) == (LoadOf(b.sLoad, h) + (if h == host then d else 0)) % 0x1_0000_0000
    ensures DriftsAt(b, b', host,
              d + (if host in HostsOf(b.dist, k) then 1 else 0) - (if host in hosts then 1 else 0), 0)
  {
    var sd := d + (if host in HostsOf(b.dist, k) then 1 else 0) - (if host in hosts then 1 else 0);
    hide StorageDrift, AccessDrift, LoadOf;
    forall h: Host | h != Unknown
      ensures StorageDriftOf(b', h) == AddWord(StorageDriftOf(b, h), if h == host then sd else 0)
      ensures AccessDriftOf(b', h) == AddWord(AccessDriftOf(b, h), 0)
    {
      StorageMoves(b.sLoad, b'.sLoad, b.dist, b'.dist, k, hosts, h, if h == host then d else 0);
    }
  }

  /** One host's storage counter moves by `d` and nothing else. */
  lemma StorageCounterMoves(b: Books, b': Books, host: Host, d: int)
    requires b' == b.(sLoad := b'.sLoad)
    requires forall h: Host ::
      LoadOf(b'.sLoad, h) == (LoadOf(b.sLoad, h) + (if h == host then d else 0)) % 0x1_0000_0000
    ensures DriftsAt(b, b', host, d, 0)
  {
    hide StorageDrift, AccessDrift, LoadOf;
    forall h: Host | h != Unknown
      ensures StorageDriftOf(b', h) == AddWord(StorageDriftOf(b, h), if h == host then d else 0)
      ensures AccessDriftOf(b', h) == AddWord(AccessDriftOf(b, h), 0)
    {
      StorageCounterMoved(b.sLoad, b'.sLoad, b.dist, h, if h == host then d else 0);
    }
  }

  /** One host's access counter moves by `d` and nothing else. */
  lemma AccessCounterMoves(b: Books, b': Books, host: Host, d: int)
    requires b' == b.(aLoad := b'.aLoad)
    requires forall h: Host ::
      LoadOf(b'.aLoad, h) == (LoadOf(b.aLoad, h) + (if h == host then d else 0)) % 0x1_0000_0000
    ensures DriftsAt(b, b', host, 0, d)
  {
    hide StorageDrift, AccessDrift, LoadOf;
    forall h: Host | h != Unknown
      ensures StorageDriftOf(b', h) == AddWord(StorageDriftOf(b, h), 0)
      ensures AccessDriftOf(b', h) == AddWord(AccessDriftOf(b, h), if h == host then d else 0)
    {
      AccessCounterMoved(b.aLoad, b'.aLoad, b.partition, h, if h == host then d else 0);
    }
  }

  /** Counting one host up or down, in 32 bits. */
  lemma CounterMoves(load: LoadMap, host: Host, n: nat)
    ensures forall h: Host ::
      LoadOf(Plus(load, host, n), h) == (LoadOf(load, h) + (if h == host then n else 0)) % 0x1_0000_0000
    ensures forall h: Host ::
      LoadOf(Minus(load, host, n), h) == (LoadOf(load, h) + (if h == host then 0 - n else 0)) % 0x1_0000_0000
  {
  }

  /** The server of a key is relieved and the next one counted. */
  lemma ServerMoves(b: Books, b': Books, k: SgKey, host: Host)
    requires b' == b.(partition := b.partition[k := host], aLoad := b'.aLoad)
    requires forall h: Host :: h != Unknown ==>
      LoadOf(b'.aLoad, h) ==
        (LoadOf(b.aLoad, h) + (if h == host then 1 else 0) - (if h == ServerOf(b.partition, k) then 1 else 0))
          % 0x1_0000_0000
    ensures SameDrift(b, b')
  {
    hide StorageDrift, AccessDrift, LoadOf, ServerOf;
    forall h: Host | h != Unknown ensures AccessDriftOf(b', h) == AccessDriftOf(b, h) {
      AccessMoves(b.aLoad, b'.aLoad, b.partition, b'.partition, k, host, h,
                  (if h == host then 1 else 0) - (if h == ServerOf(b.partition, k) then 1 else 0));
    }
  }

  /** Hosts are counted for a key, whether they store it already or not. */
  lemma HostsCounted(b: Books, b': Books, k: SgKey, hosts: set<Host>)
    requires b'.partition == b.partition && b'.aLoad == b.aLoad && b'.dist == b.dist[k := HostsOf(b.dist, k) + hosts]
    requires forall h: Host ::
      LoadOf(b'.sLoad, h) == (LoadOf(b.sLoad, h) + (if h in hosts then 1 else 0)) % 0x1_0000_0000
    ensures AheadBy(b, b', hosts * HostsOf(b.dist, k))
  {
    hide StorageDrift, AccessDrift, LoadOf;
    forall h: Host | h != Unknown
      ensures StorageDriftOf(b', h) ==
        AddWord(StorageDriftOf(b, h), if h in hosts * HostsOf(b.dist, k) then 1 else 0)
    {
      StorageMoves(b.sLoad, b'.sLoad, b.dist, b'.dist, k, HostsOf(b.dist, k) + hosts, h, if h in hosts then 1 else 0);
    }
  }

  /** All hosts of a key and its server are counted down, and the key is gone. */
  lemma KeyGone(b: Books, b': Books, k: SgKey)
    requires b'.dist == b.dist - {k} && b'.partition == b.partition - {k}
    requires forall h: Host ::
      LoadOf(b'.sLoad, h) == (LoadOf(b.sLoad, h) - (if h in HostsOf(b.dist, k) then 1 else 0)) % 0x1_0000_0000
    requires forall h: Host ::
      LoadOf(b'.aLoad, h) == (LoadOf(b.aLoad, h) + (if h == ServerOf(b.partition, k) then -1 else 0)) % 0x1_0000_0000
    ensures SameDrift(b, b')
  {
    hide StorageDrift, AccessDrift, LoadOf, ServerOf, HostsOf;
    forall h: Host | h != Unknown
      ensures StorageDriftOf(b', h) == StorageDriftOf(b, h) && AccessDriftOf(b', h) == AccessDriftOf(b, h)
    {
      StorageMoves(b.sLoad, b'.sLoad, b.dist, b'.dist, k, {}, h, if h in HostsOf(b.dist, k) then -1 else 0);
      AccessMoves(b.aLoad, b'.aLoad, b.partition, b'.partition, k, Unknown, h,
                  if h == ServerOf(b.partition, k) then -1 else 0);
    }
  }

  /** The empty entry a look-up leaves behind changes nothing. */
  lemma LookedUp(b: Books, k: SgKey)
    ensures SameDrift(b, b.(dist := b.dist[k := HostsOf(b.dist, k)]))
    ensures Placed(b.dist, b.partition) ==> Placed(b.dist[k := HostsOf(b.dist, k)], b.partition)
  {
    var dist' := b.dist[k := HostsOf(b.dist, k)];
    forall h: Host ensures Stored(dist', h) == Stored(b.dist, h) {
    }
    assert forall j :: HostsOf(dist', j) == HostsOf(b.dist, j);
  }

  // ---------------------------------------------------------------- balance

  /** All loads are `m` or `m + 1`. */
  ghost predicate Balanced(load: LoadMap, m: nat) {
    forall h :: h in load ==> m <= load[h] <= m + 1
  }

  /** None of the chosen hosts is more loaded than one that was not chosen. */
  ghost predicate Greedy(load: LoadMap, chosen: set<Host>) {
    chosen <= load.Keys && forall c, u :: c in chosen && u in load && u !in chosen ==> load[c] <= load[u]
  }

  ghost function Bumped(load: LoadMap, chosen: set<Host>): LoadMap {
    map h | h in load :: if h in chosen then AddWord(load[h], 1) else load[h]
  }

  /** A greedy choice keeps loads within one of each other. */
  lemma GreedyKeepsBalance(load: LoadMap, chosen: set<Host>, m: nat)
    requires Balanced(load, m) && Greedy(load, chosen) && m + 2 < 0x1_0000_0000
    ensures Balanced(Bumped(load, chosen), m) || Balanced(Bumped(load, chosen), m + 1)
  {
    if exists c :: c in chosen && load[c] == m + 1 {
      assert Balanced(Bumped(load, chosen), m + 1);
    }
  }

  // ---------------------------------------------------------------- the greedy choice

  ghost function Picked(chosen: seq<Host>): set<Host> {
    set h | h in chosen
  }

  /** The hosts chosen so far are distinct, none is more loaded than one that remains, and `rest` remains. */
  ghost predicate Choice(load: LoadMap, chosen: seq<Host>, rest: set<Host>) {
    && (forall i, j :: 0 <= i < j < |chosen| ==> chosen[i] != chosen[j])
    && Greedy(load, Picked(chosen))
    && rest == load.Keys - Picked(chosen)
    && |rest| + |chosen| == |load|
  }

  lemma NoneChosen(load: LoadMap)
    ensures Choice(load, [], load.Keys) && Bumped(load, Picked([])) == load
  {
  }

  lemma RestLeft(load: LoadMap, chosen: seq<Host>, rest: set<Host>)
    requires Choice(load, chosen, rest) && |chosen| < |load|
    ensures rest != {}
  {
  }

  lemma GreedyMore(load: LoadMap, picked: set<Host>, h: Host)
    requires Greedy(load, picked) && h in load && h !in picked
    requires forall x :: x in load && x !in picked ==> LoadOf(load, h) <= LoadOf(load, x)
    ensures Greedy(load, picked + {h})
  {
  }

  lemma BumpMore(load: LoadMap, picked: set<Host>, h: Host)
    requires h in load && h !in picked
    ensures Plus(Bumped(load, picked), h, 1) == Bumped(load, picked + {h})
  {
  }

  /** Adding any least loaded one of the remaining hosts keeps the choice greedy and the counters right. */
  lemma OneMore(load: LoadMap, chosen: seq<Host>, rest: set<Host>, h: Host)
    requires Choice(load, chosen, rest) && h in rest
    requires forall x :: x in rest ==> LoadOf(load, h) <= LoadOf(load, x)
    ensures Choice(load, chosen + [h], rest - {h}) && |rest - {h}| < |rest|
    ensures Plus(Bumped(load, Picked(chosen)), h, 1) == Bumped(load, Picked(chosen + [h]))
  {
    var picked := Picked(chosen);
    GreedyMore(load, picked, h);
    BumpMore(load, picked, h);
    hide Greedy, Bumped, LoadOf, Plus;
    assert Picked(chosen + [h]) == picked + {h};
    assert forall i :: 0 <= i < |chosen| ==> chosen[i] in picked;
    hide Picked;
    assert |rest - {h}| == |rest| - 1;
    assert rest - {h} == load.Keys - (picked + {h});
  }

  lemma ChoiceDone(load: LoadMap, chosen: seq<Host>, rest: set<Host>)
    requires Choice(load, chosen, rest)
    ensures forall i, j :: 0 <= i < j < |chosen| ==> chosen[i] != chosen[j]
    ensures Greedy(load, Picked(chosen))
  {
  }

  /** One of the hosts has no greater load than the others. */
  lemma SomeLeast(load: LoadMap, hosts: set<Host>)
    requires hosts != {}
    ensures exists h :: h in hosts && forall x :: x in hosts ==> LoadOf(load, h) <= LoadOf(load, x)
  {
    var h := LeastLoaded(load, hosts);
    assert forall x :: x in hosts ==> NoLater(load, h, x);
  }

  lemma {:induction false} PickedSize(chosen: seq<Host>)
    requires forall i, j :: 0 <= i < j < |chosen| ==> chosen[i] != chosen[j]
    ensures |Picked(chosen)| == |chosen|
  {
    if chosen != [] {
      var init := chosen[..|chosen| - 1];
      PickedSize(init);
      assert chosen == init + [chosen[|chosen| - 1]];
      assert Picked(chosen) == Picked(init) + {chosen[|chosen| - 1]};
    }
  }

  lemma GreedyKnown(load: LoadMap, chosen: set<Host>)
    requires Greedy(load, chosen)
    ensures chosen <= load.Keys
    ensures Bumped(load, chosen).Keys == load.Keys
  {
  }

  lemma BumpedLoads(load: LoadMap, chosen: set<Host>)
    requires chosen <= load.Keys
    ensures forall h: Host ::
      LoadOf(Bumped(load, chosen), h) == (LoadOf(load, h) + (if h in chosen then 1 else 0)) % 0x1_0000_0000
  {
  }

  /** Looking counters up may add zero entries; the least loaded host is the same. */
  lemma SameLoads(load: LoadMap, load': LoadMap, hosts: set<Host>)
    requires hosts != {} && forall h: Host :: LoadOf(load', h) == LoadOf(load, h)
    ensures LeastLoaded(load', hosts) == LeastLoaded(load, hosts)
  {
    var a, b := LeastLoaded(load, hosts), LeastLoaded(load', hosts);
    assert NoLater(load, a, b) && NoLater(load', b, a);
  }

  /** Relieving one host and counting another, wherever they meet. */
  lemma RefreshLoads(before: LoadMap, relieved: LoadMap, after: LoadMap, oldHost: Host, host: Host)
    requires relieved == Relieved(before, oldHost)
    requires forall h: Host ::
      LoadOf(after, h) == if h == host then AddWord(LoadOf(relieved, h), 1) else LoadOf(relieved, h)
    ensures forall h: Host :: h != Unknown ==>
      LoadOf(after, h) ==
        (LoadOf(before, h) + (if h == host then 1 else 0) - (if h == oldHost then 1 else 0)) % 0x1_0000_0000
  {
    hide AddWord, SubWord;
    forall h: Host | h != Unknown
      ensures LoadOf(after, h) ==
        (LoadOf(before, h) + (if h == host then 1 else 0) - (if h == oldHost then 1 else 0)) % 0x1_0000_0000
    {
      assert LoadOf(relieved, h) == if h == oldHost then SubWord(LoadOf(before, h), 1) else LoadOf(before, h);
      hide LoadOf, Relieved;
      RefreshedCounter(LoadOf(before, h), LoadOf(relieved, h), LoadOf(after, h), h == oldHost, h == host);
    }
  }

  lemma RefreshedCounter(before: Word, relieved: Word, after: Word, served: bool, serves: bool)
    requires relieved == if served then SubWord(before, 1) else before
    requires after == if serves then AddWord(relieved, 1) else relieved
    ensures after == (before + (if serves then 1 else 0) - (if served then 1 else 0)) % 0x1_0000_0000
  {
  }

  function Relieved(load: LoadMap, server: Host): LoadMap {
    if server == Unknown then load else Minus(load, server, 1)
  }
}
