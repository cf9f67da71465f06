/** The client's pool of idle connections: bounded, evicting the least recently used, swept by age. */
module ConnectionPool {
  import opened Bytes

  const MAX_RESOURCES: nat := 100

  /// An instant is a number of ticks of a monotonic clock.
  type Instant = nat

  datatype Resource<T> = Resource(resource: T, lastUsed: Instant)

  /// `now - earlier`: an interval is never negative.
  function Since(now: Instant, earlier: Instant): nat {
    if now >= earlier then now - earlier else 0
  }

  /// No entry of `m` was used before the one at `key`.
  ghost predicate LeastRecent<T(!new)>(m: map<Text, Resource<T>>, key: Text) {
    key in m && forall k :: k in m ==> m[key].lastUsed <= m[k].lastUsed
  }

  /// `list` is the entries of `m`, in some order, each once.
  ghost predicate Lists<T>(m: map<Text, Resource<T>>, list: seq<(Text, Resource<T>)>) {
    && (forall i :: 0 <= i < |list| ==> list[i].0 in m && m[list[i].0] == list[i].1)
    && (forall i, j :: 0 <= i < j < |list| ==> list[i].0 != list[j].0)
    && (forall k :: k in m ==> exists i :: 0 <= i < |list| && list[i].0 == k)
  }

  class Pool<T(!new)> {
    var resources: map<Text, Resource<T>>

    ghost predicate Valid()
      reads this
    {
      |resources| <= MAX_RESOURCES
    }

    constructor ()
      ensures Valid() && resources == map[]
    {
      resources := map[];
    }

    /// Empties the map into a list, in an order of the map's choosing.
    method DrainMap() returns (list: seq<(Text, Resource<T>)>)
      modifies this
      ensures resources == map[] && Lists(old(resources), list)
    {
      list := [];
      var left := resources;
      while left != map[]
        invariant left.Keys <= resources.Keys && forall k :: k in left ==> left[k] == resources[k]
        invariant forall i :: 0 <= i < |list| ==> list[i].0 in resources && resources[list[i].0] == list[i].1
        invariant forall i :: 0 <= i < |list| ==> list[i].0 !in left
        invariant forall i, j :: 0 <= i < j < |list| ==> list[i].0 != list[j].0
        invariant forall k :: k in resources && k !in left ==> exists i :: 0 <= i < |list| && list[i].0 == k
        decreases left.Keys
      {
        assert left.Keys != {};
        var key: Text :| key in left;
        ghost var before := list;
        list := list + [(key, left[key])];
        assert list[|before|].0 == key;
        assert forall k :: k in resources && k !in left ==>
                 exists i :: 0 <= i < |before| && before[i].0 == k && list[i].0 == k;
        left := left - {key};
      }
      resources := map[];
    }

    /// `get` takes the connection out of the pool.
    method Get(key: Text) returns (r: Option<Resource<T>>)
      requires Valid()
      modifies this
      ensures Valid() && resources == old(resources) - {key}
      ensures r == if key in old(resources) then Some(old(resources)[key]) else None
    {
      r := if key in resources then Some(resources[key]) else None;
      Fewer(resources, key);
      resources := resources - {key};
    }

    /// `insert`: a full pool evicts an entry and does not store the newcomer.
    method Insert(key: Text, connection: Resource<T>)
      requires Valid()
      modifies this
      ensures Valid()
      ensures |old(resources)| < MAX_RESOURCES ==> resources == old(resources)[key := connection]
      ensures |old(resources)| == MAX_RESOURCES ==>
                exists k :: LeastRecent(old(resources), k) && resources == old(resources) - {k}
    {
      if |resources| == MAX_RESOURCES {
        RemoveLru();
      } else {
        OneMore(resources, key, connection);
        resources := resources[key := connection];
      }
    }

    /// `remove_lru`: whatever the order in which the map is emptied and filled again, one entry of the oldest use is
    /// gone and all others are kept; there always is one.
    method RemoveLru()
      requires Valid() && resources != map[]
      modifies this
      ensures Valid()
      ensures exists k :: LeastRecent(old(resources), k) && resources == old(resources) - {k}
    {
      var conns := DrainMap();
      var leastUsedAddr: Text := [];
      var leastUsedTime: Option<Instant> := None;
      for i := 0 to |conns|
        invariant Refilled(old(resources), conns, i, resources)
        invariant if i == 0 then resources == map[] else LeastRecent(resources, leastUsedAddr)
        invariant i > 0 ==> leastUsedTime == Some(resources[leastUsedAddr].lastUsed)
        invariant i == 0 ==> leastUsedTime.None?
      {
        var (addr, conn) := conns[i];
        RefillMore(old(resources), conns, i, resources);
        NewLeast(resources, leastUsedAddr, addr, conn);
        match leastUsedTime {
          case Some(lastUsed) =>
            if conn.lastUsed < lastUsed {
              leastUsedAddr := addr;
              leastUsedTime := Some(conn.lastUsed);
            }
          case None =>
            leastUsedAddr := addr;
            leastUsedTime := Some(conn.lastUsed);
        }
        resources := resources[addr := conn];
      }
      RefillAll(old(resources), conns, resources);
      Fewer(resources, leastUsedAddr);
      resources := resources - {leastUsedAddr};
      assert LeastRecent(old(resources), leastUsedAddr);
    }

    /// `drain`
    method Drain() returns (all: seq<Resource<T>>)
      requires Valid()
      modifies this
      ensures Valid() && resources == map[]
      ensures exists list: seq<(Text, Resource<T>)> ::
                && Lists(old(resources), list) && |all| == |list|
                && forall i :: 0 <= i < |list| ==> all[i] == list[i].1
    {
      var list := DrainMap();
      all := seq(|list|, i requires 0 <= i < |list| => list[i].1);
    }

    /// One round of `expire_connections`: exactly the entries idle for less than the timeout are kept.
    method Sweep(now: Instant, idleTimeout: nat)
      requires Valid()
      modifies this
      ensures Valid()
      ensures resources == Young(old(resources), now, idleTimeout)
    {
      var conns := DrainMap();
      ghost var kept := Young(old(resources), now, idleTimeout);
      for i := 0 to |conns|
        invariant forall k :: k in resources ==> k in kept && resources[k] == kept[k]
        invariant forall j :: 0 <= j < i && conns[j].0 in kept ==> conns[j].0 in resources
      {
        var (addr, conn) := conns[i];
        if Since(now, conn.lastUsed) < idleTimeout {
          resources := resources[addr := conn];
        }
      }
      AllKept(old(resources), conns, resources, kept);
    }
  }

  /// Connections number 0 to `n - 1`, each used later than the one before it.
  ghost function FirstOnes(n: nat): map<Text, Resource<nat>>
    requires n <= MAX_RESOURCES
  {
    if n == 0 then map[] else FirstOnes(n - 1)[[(n - 1) as byte] := Resource(n - 1, n - 1)]
  }

  lemma {:induction false} FirstOnesAre(n: nat)
    requires n <= MAX_RESOURCES
    ensures |FirstOnes(n)| == n && (n > 0 ==> [0] in FirstOnes(n))
    ensures forall k :: k in FirstOnes(n) ==>
                          |k| == 1 && k[0] as nat < n && FirstOnes(n)[k].lastUsed == k[0] as nat
  {
    if n == 0 {
    } else {
      FirstOnesAre(n - 1);
      assert [(n - 1) as byte][0] == (n - 1) as byte;
      OneMore(FirstOnes(n - 1), [(n - 1) as byte], Resource(n - 1, n - 1));
    }
  }

  lemma FirstIsLeastRecent(n: nat, k: Text)
    requires n <= MAX_RESOURCES && LeastRecent(FirstOnes(n), k)
    ensures k == [0]
  {
    FirstOnesAre(n);
    assert FirstOnes(n)[[0]].lastUsed == 0;
  }

  /// For example: with a hundred connections in the pool a newcomer is not stored, but the first is gone for it.
  method NewcomerIsLost(size: nat) returns (pool: Pool<nat>)
    requires size == 100
    ensures pool.resources == FirstOnes(size) - {[0]}
    ensures [100] !in pool.resources && |pool.resources| == size - 1
  {
    pool := new Pool();
    for i := 0 to size
      invariant fresh(pool) && pool.Valid() && pool.resources == FirstOnes(i)
    {
      FirstOnesAre(i);
      pool.Insert([i as byte], Resource(i, i));
    }
    FirstOnesAre(size);
    pool.Insert([100], Resource(100, 100));
    forall k | LeastRecent(FirstOnes(size), k) ensures k == [0] {
      FirstIsLeastRecent(size, k);
    }
    Fewer(FirstOnes(size), [0]);
  }

  /// The entries that were used less than the timeout ago, or later than `now`.
  ghost function Young<T>(m: map<Text, Resource<T>>, now: Instant, idleTimeout: nat): map<Text, Resource<T>> {
    map k | k in m && idleTimeout > 0 && now < m[k].lastUsed + idleTimeout :: m[k]
  }

  lemma AllKept<T>(all: map<Text, Resource<T>>, list: seq<(Text, Resource<T>)>, m: map<Text, Resource<T>>,
                   kept: map<Text, Resource<T>>)
    requires Lists(all, list) && kept.Keys <= all.Keys
    requires forall k :: k in m ==> k in kept && m[k] == kept[k]
    requires forall j :: 0 <= j < |list| && list[j].0 in kept ==> list[j].0 in m
    ensures m == kept && |m| <= |all|
  {
    KeysWithin(m, all);
  }

  /// `m` is the first `n` entries of the list `all` was emptied into.
  ghost predicate Refilled<T>(all: map<Text, Resource<T>>, list: seq<(Text, Resource<T>)>, n: nat,
                              m: map<Text, Resource<T>>) {
    && (forall k :: k in m ==> k in all && m[k] == all[k])
    && (forall j :: 0 <= j < |list| ==> (list[j].0 in m <==> j < n))
  }

  lemma RefillMore<T>(all: map<Text, Resource<T>>, list: seq<(Text, Resource<T>)>, n: nat,
                      m: map<Text, Resource<T>>)
    requires Lists(all, list) && n < |list| && Refilled(all, list, n, m)
    ensures list[n].0 !in m && Refilled(all, list, n + 1, m[list[n].0 := list[n].1])
  {}

  lemma RefillAll<T>(all: map<Text, Resource<T>>, list: seq<(Text, Resource<T>)>, m: map<Text, Resource<T>>)
    requires Lists(all, list) && Refilled(all, list, |list|, m)
    ensures m == all && (list == [] ==> all == map[])
  {}

  /// The least recent entry once another one is added.
  lemma NewLeast<T(!new)>(m: map<Text, Resource<T>>, key: Text, addr: Text, conn: Resource<T>)
    requires addr !in m
    ensures m == map[] ==> LeastRecent(m[addr := conn], addr)
    ensures LeastRecent(m, key) ==>
              LeastRecent(m[addr := conn], if conn.lastUsed < m[key].lastUsed then addr else key)
  {}

  lemma KeysWithin<T>(a: map<Text, T>, b: map<Text, T>)
    requires a.Keys <= b.Keys
    ensures |a| <= |b|
  {
    var rest := b.Keys - a.Keys;
    assert b.Keys == a.Keys + rest;
    assert |b.Keys| == |a.Keys| + |rest|;
    assert |a| == |a.Keys| && |b| == |b.Keys|;
  }

  lemma Fewer<T>(m: map<Text, T>, key: Text)
    ensures |m - {key}| <= |m| && (key in m ==> |m - {key}| == |m| - 1)
  {
    KeysWithin(m - {key}, m);
    if key in m {
      assert m.Keys == (m - {key}).Keys + {key};
      assert |m| == |m.Keys| && |m - {key}| == |(m - {key}).Keys|;
    }
  }

  lemma OneMore<T>(m: map<Text, T>, key: Text, value: T)
    ensures |m[key := value]| <= |m| + 1 && (key !in m ==> |m[key := value]| == |m| + 1)
  {
    assert m[key := value].Keys == m.Keys + {key};
    assert |m[key := value]| == |m[key := value].Keys| && |m| == |m.Keys|;
  }
}
