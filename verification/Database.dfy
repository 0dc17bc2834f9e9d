/** The sixteen databases of a shard. A table is the map that the hash table in it represents. */
module Database {
  import opened Options
  import opened Decimal
  import opened Expiry
  import DashTable

  const NUM_DBS: nat := 16

  ghost function KeysOf<K>(keys: seq<K>): set<K> {
    set k | k in keys
  }

  /** The due keys among the first `limit` that a traversal of the deadlines visits. */
  ghost function DueAmong<K>(listing: seq<(K, int)>, limit: nat, now: int): set<K> {
    set a | 0 <= a < |listing| && a < limit && listing[a].1 <= now :: listing[a].0
  }

  method CollectExpired<K(==, !new)>(listing: seq<(K, int)>, limit: nat, now: Time) returns (keys: seq<K>)
    ensures KeysOf(keys) == DueAmong(listing, limit, now)
  {
    keys := [];
    var scanned := 0;
    for i := 0 to |listing|
      invariant scanned == if i <= limit then i else limit
      invariant KeysOf(keys) == DueAmong(listing[..i], limit, now)
    {
      ghost var before := keys;
      assert listing[..i + 1][..i] == listing[..i];
      DueAmongNext(listing, limit, now, i);
      if scanned < limit {
        scanned := scanned + 1;
        if listing[i].1 <= now {
          keys := keys + [listing[i].0];
          assert KeysOf(keys) == KeysOf(before) + {listing[i].0};
        }
      }
    }
    assert listing[..|listing|] == listing;
  }

  lemma DueAmongNext<K>(listing: seq<(K, int)>, limit: nat, now: int, i: nat)
    requires i < |listing|
    ensures DueAmong(listing[..i + 1], limit, now)
         == DueAmong(listing[..i], limit, now) + if i < limit && listing[i].1 <= now then {listing[i].0} else {}
  {
    var one, next := listing[..i], listing[..i + 1];
    forall k | k in DueAmong(next, limit, now)
      ensures k in DueAmong(one, limit, now) || (i < limit && listing[i].1 <= now && k == listing[i].0)
    {
      var a :| 0 <= a < |next| && a < limit && next[a].1 <= now && next[a].0 == k;
      if a < i { assert one[a] == next[a]; }
    }
    forall k | k in DueAmong(one, limit, now) ensures k in DueAmong(next, limit, now) {
      var a :| 0 <= a < |one| && a < limit && one[a].1 <= now && one[a].0 == k;
      assert next[a] == one[a];
    }
    if i < limit && listing[i].1 <= now { assert next[i] == listing[i]; }
  }

  /** Without a limit these are all the due keys; with one, those among the keys scanned. */
  lemma DueAmongIsDue<K(!new), V>(s: Store<K, V>, listing: seq<(K, int)>, limit: nat, now: int)
    requires DashTable.Enumerates(listing, s.expire)
    ensures DueAmong(listing, limit, now) == DueKeys(s, now) * Scanned(listing, limit)
    ensures limit >= |listing| ==> DueAmong(listing, limit, now) == DueKeys(s, now)
  {
    var due := DueAmong(listing, limit, now);
    forall k | k in DueKeys(s, now) && (k in Scanned(listing, limit) || limit >= |listing|) ensures k in due {
      assert (k, s.expire[k]) in listing;
    }
  }

  ghost function Scanned<K>(listing: seq<(K, int)>, limit: nat): set<K> {
    set a | 0 <= a < |listing| && a < limit :: listing[a].0
  }

  class Database<K(==, !new), V(!new)> {
    var tables: seq<map<K, V>>
    var expireTables: seq<map<K, int>>
    var currentDb: nat

    ghost predicate Valid()
      reads this
    {
      |tables| == |expireTables| == NUM_DBS && currentDb < NUM_DBS &&
      forall i :: 0 <= i < NUM_DBS ==> Ok(Store(tables[i], expireTables[i]))
    }

    ghost function At(i: nat): Store<K, V>
      reads this
      requires i < |tables| == |expireTables|
    {
      Store(tables[i], expireTables[i])
    }

    /** Only database `i` has changed, and it has become `s`. */
    twostate predicate Becomes(i: nat, s: Store<K, V>)
      reads this
      requires old(|tables| == |expireTables|)
    {
      |tables| == |expireTables| == old(|tables|) && currentDb == old(currentDb) && i < |tables| &&
      tables == old(tables)[i := s.data] && expireTables == old(expireTables)[i := s.expire]
    }

    constructor ()
      ensures Valid() && currentDb == 0
      ensures forall i :: 0 <= i < NUM_DBS ==> At(i) == Store(map[], map[])
    {
      tables := seq(NUM_DBS, _ => map[]);
      expireTables := seq(NUM_DBS, _ => map[]);
      currentDb := 0;
    }

    /** Removal from both tables, as every caller does it; whether the main table had the key. */
    method EraseBoth(i: nat, key: K) returns (erased: bool)
      requires Valid() && i < NUM_DBS
      modifies this`tables, this`expireTables
      ensures Valid() && Becomes(i, Drop(old(At(i)), {key}))
      ensures |tables[i]| == old(|tables[i]|) - if erased then 1 else 0
    {
      erased := key in tables[i];
      SubtractOne(tables[i], key);
      tables := tables[i := tables[i] - {key}];
      expireTables := expireTables[i := expireTables[i] - {key}];
    }

    method PruneExpiredInDB(i: nat, key: K, now: Time)
      requires Valid() && i < NUM_DBS
      modifies this`tables, this`expireTables
      ensures Valid() && Becomes(i, Prune(old(At(i)), key, now))
    {
      if key in expireTables[i] && expireTables[i][key] <= now {
        var _ := EraseBoth(i, key);
      }
    }

    method Find(key: K, now: Time) returns (r: Option<V>)
      requires Valid()
      modifies this`tables, this`expireTables
      ensures var step := Step(old(At(currentDb)), Op.Find(key), now);
              Valid() && Becomes(currentDb, step.0) && step.1 == Value(r)
      ensures Serves(old(At(currentDb)), Op.Find(key), now, At(currentDb), Value(r))
    {
      StepServes(At(currentDb), Op.Find(key), now);
      PruneExpiredInDB(currentDb, key, now);
      return if key in tables[currentDb] then Some(tables[currentDb][key]) else None;
    }

    method Exists(key: K, now: Time) returns (r: bool)
      requires Valid()
      modifies this`tables, this`expireTables
      ensures var step := Step(old(At(currentDb)), Op.Exists(key), now);
              Valid() && Becomes(currentDb, step.0) && step.1 == Yes(r)
      ensures Serves(old(At(currentDb)), Op.Exists(key), now, At(currentDb), Yes(r))
    {
      StepServes(At(currentDb), Op.Exists(key), now);
      PruneExpiredInDB(currentDb, key, now);
      return key in tables[currentDb];
    }

    method Set(key: K, value: V)
      requires Valid()
      modifies this`tables
      ensures Valid() && Becomes(currentDb, Put(old(At(currentDb)), key, value))
      ensures forall now: Time :: !Due(old(At(currentDb)), key, now) ==>
                Serves(old(At(currentDb)), Op.Set(key, value), now, At(currentDb), Nothing)
    {
      forall now: Time | !Due(At(currentDb), key, now)
        ensures Serves(At(currentDb), Op.Set(key, value), now, Put(At(currentDb), key, value), Nothing)
      {
        StepServes(At(currentDb), Op.Set(key, value), now);
      }
      tables := tables[currentDb := tables[currentDb][key := value]];
    }

    method Del(key: K, now: Time) returns (deleted: bool)
      requires Valid()
      modifies this`tables, this`expireTables
      ensures var step := Step(old(At(currentDb)), Op.Del(key), now);
              Valid() && Becomes(currentDb, step.0) && step.1 == Yes(deleted)
      ensures Serves(old(At(currentDb)), Op.Del(key), now, At(currentDb), Yes(deleted))
    {
      StepServes(At(currentDb), Op.Del(key), now);
      PruneExpiredInDB(currentDb, key, now);
      deleted := key in tables[currentDb];
      if deleted {
        var _ := EraseBoth(currentDb, key);
      }
    }

    method Expire(key: K, ttl: Int64, now: Time) returns (r: bool)
      requires Valid()
      modifies this`tables, this`expireTables
      ensures var step := Step(old(At(currentDb)), Op.Expire(key, ttl), now);
              Valid() && Becomes(currentDb, step.0) && step.1 == Yes(r)
      ensures Serves(old(At(currentDb)), Op.Expire(key, ttl), now, At(currentDb), Yes(r))
    {
      StepServes(At(currentDb), Op.Expire(key, ttl), now);
      PruneExpiredInDB(currentDb, key, now);
      if key !in tables[currentDb] {
        return false;
      }
      if ttl <= 0 {
        var _ := EraseBoth(currentDb, key);
        return true;
      }
      var expireAt := now;
      if ttl >= INT64_MAX - now {
        expireAt := INT64_MAX;
      } else {
        expireAt := expireAt + ttl;
      }
      expireTables := expireTables[currentDb := expireTables[currentDb][key := expireAt]];
      return true;
    }

    method Persist(key: K, now: Time) returns (r: bool)
      requires Valid()
      modifies this`tables, this`expireTables
      ensures var step := Step(old(At(currentDb)), Op.Persist(key), now);
              Valid() && Becomes(currentDb, step.0) && step.1 == Yes(r)
      ensures Serves(old(At(currentDb)), Op.Persist(key), now, At(currentDb), Yes(r))
    {
      StepServes(At(currentDb), Op.Persist(key), now);
      PruneExpiredInDB(currentDb, key, now);
      if key !in tables[currentDb] {
        return false;
      }
      r := key in expireTables[currentDb];
      expireTables := expireTables[currentDb := expireTables[currentDb] - {key}];
    }

    /** The second look at the deadline never finds it due. */
    method TTL(key: K, now: Time) returns (seconds: int)
      requires Valid()
      modifies this`tables, this`expireTables
      ensures var step := Step(old(At(currentDb)), Ttl(key), now);
              Valid() && Becomes(currentDb, step.0) && step.1 == Number(seconds)
      ensures Serves(old(At(currentDb)), Ttl(key), now, At(currentDb), Number(seconds))
    {
      StepServes(At(currentDb), Ttl(key), now);
      PruneExpiredInDB(currentDb, key, now);
      if key !in tables[currentDb] {
        return -2;
      }
      if key !in expireTables[currentDb] {
        return -1;
      }
      var expireAt := expireTables[currentDb][key];
      assert expireAt > now;
      return (expireAt - now) / 1000;
    }

    /** Erases the collected keys and counts those that were in the main table. */
    method EraseAll(i: nat, keys: seq<K>) returns (deleted: nat)
      requires Valid() && i < NUM_DBS
      modifies this`tables, this`expireTables
      ensures Valid() && Becomes(i, Drop(old(At(i)), KeysOf(keys)))
      ensures deleted == old(|tables[i]|) - |tables[i]|
    {
      deleted := 0;
      ghost var s := At(i);
      DropNone(s, keys[..0]);
      for j := 0 to |keys|
        invariant Valid() && Becomes(i, Drop(s, KeysOf(keys[..j])))
        invariant deleted == |s.data| - |tables[i]|
      {
        DropMore(s, keys, j);
        UpdateTwice(old(tables), i, tables[i], tables[i] - {keys[j]});
        UpdateTwice(old(expireTables), i, expireTables[i], expireTables[i] - {keys[j]});
        var erased := EraseBoth(i, keys[j]);
        if erased {
          deleted := deleted + 1;
        }
      }
      assert keys[..|keys|] == keys;
    }

    /** Drops everything due from the current database. */
    method Sweep(now: Time)
      requires Valid()
      modifies this`tables, this`expireTables
      ensures Valid() && Becomes(currentDb, Drop(old(At(currentDb)), DueKeys(old(At(currentDb)), now)))
    {
      var listing := DashTable.Entries(expireTables[currentDb]);
      DueAmongIsDue(At(currentDb), listing, |listing|, now);
      var keys := CollectExpired(listing, |listing|, now);
      var _ := EraseAll(currentDb, keys);
    }

    method KeyCount(now: Time) returns (n: nat)
      requires Valid()
      modifies this`tables, this`expireTables
      ensures var step := Step(old(At(currentDb)), Op.KeyCount, now);
              Valid() && Becomes(currentDb, step.0) && step.1 == Number(n)
      ensures Serves(old(At(currentDb)), Op.KeyCount, now, At(currentDb), Number(n))
    {
      StepServes(At(currentDb), Op.KeyCount, now);
      Sweep(now);
      return |tables[currentDb]|;
    }

    /** Each key once, in some order. */
    method Keys(now: Time) returns (keys: seq<K>)
      requires Valid()
      modifies this`tables, this`expireTables
      ensures var step := Step(old(At(currentDb)), Op.Keys, now);
              Valid() && Becomes(currentDb, step.0) && step.1 == KeySet(KeysOf(keys))
      ensures Serves(old(At(currentDb)), Op.Keys, now, At(currentDb), KeySet(KeysOf(keys)))
      ensures forall i, j :: 0 <= i < j < |keys| ==> keys[i] != keys[j]
    {
      StepServes(At(currentDb), Op.Keys, now);
      Sweep(now);
      var listing := DashTable.Entries(tables[currentDb]);
      keys := [];
      for i := 0 to |listing|
        invariant |keys| == i && forall j :: 0 <= j < i ==> keys[j] == listing[j].0
      {
        keys := keys + [listing[i].0];
      }
      KeysListed(listing, tables[currentDb], keys);
    }

    /** One database of the cycle: the due keys among the first `limit` that are visited. */
    method ExpireSome(i: nat, limit: nat, now: Time) returns (deleted: nat, ghost scanned: set<K>)
      requires Valid() && i < NUM_DBS
      modifies this`tables, this`expireTables
      ensures Valid() && Becomes(i, At(i)) && Cycled(old(At(i)), At(i), scanned, limit, now)
      ensures deleted == old(|tables[i]|) - |tables[i]|
    {
      var listing := DashTable.Entries(expireTables[i]);
      scanned := Scanned(listing, limit);
      var keys := CollectExpired(listing, limit, now);
      ScanCycles(listing, At(i), limit, now);
      deleted := EraseAll(i, keys);
    }

    /** The count is exactly the number of entries that are gone. */
    method ActiveExpireCycle(limit: nat, now: Time) returns (deleted: nat, ghost scans: seq<set<K>>)
      requires Valid()
      modifies this`tables, this`expireTables
      ensures Valid() && currentDb == old(currentDb) && |scans| == NUM_DBS
      ensures forall i :: 0 <= i < NUM_DBS ==> Cycled(old(At(i)), At(i), scans[i], limit, now)
      ensures deleted == Total(old(tables)) - Total(tables)
    {
      if limit == 0 {
        scans := seq(NUM_DBS, _ => {});
        forall i | 0 <= i < NUM_DBS ensures Cycled(At(i), At(i), {}, limit, now) {
          NothingCycled(At(i), now);
        }
        return 0, scans;
      }
      deleted, scans := 0, [];
      for i := 0 to NUM_DBS
        invariant Valid() && currentDb == old(currentDb) && |scans| == i
        invariant forall j :: 0 <= j < i ==> Cycled(old(At(j)), At(j), scans[j], limit, now)
        invariant forall j :: i <= j < NUM_DBS ==> At(j) == old(At(j))
        invariant deleted == Total(old(tables)) - Total(tables)
      {
        ghost var before := tables;
        var n, scanned := ExpireSome(i, limit, now);
        TotalUpdate(before, i, tables[i]);
        deleted, scans := deleted + n, scans + [scanned];
      }
    }

    /** The writing part of the SET command: the value, then its deadline or none. */
    method SetWithTtl(key: K, value: V, ttl: Option<Int64>, now: Time)
      requires Valid()
      modifies this`tables, this`expireTables
      ensures Valid() && Becomes(currentDb, SetCommand(old(At(currentDb)), key, value, ttl, now))
    {
      Set(key, value);
      if ttl.Some? {
        var _ := Expire(key, ttl.value, now);
      } else {
        var _ := Persist(key, now);
      }
    }
  }

  /** A scan stops only at its limit. */
  ghost predicate ScanOk<K, V>(scanned: set<K>, s: Store<K, V>, limit: nat) {
    scanned <= s.expire.Keys && |scanned| <= limit && (|scanned| < limit ==> scanned == s.expire.Keys)
  }

  /** One database before and after a cycle. */
  ghost predicate Cycled<K, V>(before: Store<K, V>, after: Store<K, V>, scanned: set<K>, limit: nat, now: Time) {
    ScanOk(scanned, before, limit) && after == Step(before, Cycle(scanned), now).0
  }

  lemma NothingCycled<K, V>(s: Store<K, V>, now: Time)
    ensures Cycled(s, s, {}, 0, now)
  {
    assert s.data - {} == s.data && s.expire - {} == s.expire;
  }

  lemma DropNone<K, V>(s: Store<K, V>, keys: seq<K>)
    requires keys == []
    ensures Drop(s, KeysOf(keys)) == s
  {
    assert KeysOf(keys) == {} && s.data - {} == s.data && s.expire - {} == s.expire;
  }

  lemma UpdateTwice<T>(s: seq<T>, i: nat, x: T, y: T)
    requires i < |s|
    ensures s[i := x][i := y] == s[i := y]
  {
  }

  lemma DropMore<K, V>(s: Store<K, V>, keys: seq<K>, j: nat)
    requires j < |keys|
    ensures Drop(Drop(s, KeysOf(keys[..j])), {keys[j]}) == Drop(s, KeysOf(keys[..j + 1]))
  {
    assert keys[..j + 1] == keys[..j] + [keys[j]];
    assert KeysOf(keys[..j + 1]) == KeysOf(keys[..j]) + {keys[j]};
    SubtractTwice(s.data, KeysOf(keys[..j]), {keys[j]});
    SubtractTwice(s.expire, KeysOf(keys[..j]), {keys[j]});
  }

  lemma {:induction false} ScannedSize<K>(listing: seq<(K, int)>, limit: nat)
    requires forall a, b :: 0 <= a < b < |listing| ==> listing[a].0 != listing[b].0
    ensures |Scanned(listing, limit)| == if limit <= |listing| then limit else |listing|
  {
    if limit > |listing| {
      assert Scanned(listing, limit) == Scanned(listing, |listing|);
      ScannedSize(listing, |listing|);
    } else if limit > 0 {
      ScannedSize(listing, limit - 1);
      assert Scanned(listing, limit) == Scanned(listing, limit - 1) + {listing[limit - 1].0};
    }
  }

  lemma ScannedIsOk<K(!new), V>(listing: seq<(K, int)>, s: Store<K, V>, limit: nat)
    requires DashTable.Enumerates(listing, s.expire)
    ensures ScanOk(Scanned(listing, limit), s, limit)
  {
    ScannedSize(listing, limit);
    if limit > |listing| {
      forall k | k in s.expire ensures k in Scanned(listing, limit) {
        assert (k, s.expire[k]) in listing;
      }
    }
  }

  lemma ScanCycles<K(!new), V>(listing: seq<(K, int)>, s: Store<K, V>, limit: nat, now: Time)
    requires DashTable.Enumerates(listing, s.expire)
    ensures Cycled(s, Drop(s, DueAmong(listing, limit, now)), Scanned(listing, limit), limit, now)
  {
    ScannedIsOk(listing, s, limit);
    DueAmongIsDue(s, listing, limit, now);
  }

  /** The entries of all main tables together. */
  ghost function Total<K, V>(tables: seq<map<K, V>>): nat {
    if tables == [] then 0 else |tables[0]| + Total(tables[1..])
  }

  lemma {:induction false} TotalUpdate<K, V>(tables: seq<map<K, V>>, i: nat, m: map<K, V>)
    requires i < |tables|
    ensures Total(tables[i := m]) == Total(tables) - |tables[i]| + |m|
  {
    if i > 0 {
      assert tables[i := m][1..] == tables[1..][i - 1 := m];
      TotalUpdate(tables[1..], i - 1, m);
    } else {
      assert tables[0 := m][1..] == tables[1..];
    }
  }

  lemma SubtractOne<K, V>(m: map<K, V>, k: K)
    ensures |m - {k}| == if k in m then |m| - 1 else |m|
  {
    assert (m - {k}).Keys == m.Keys - {k};
    assert |m.Keys - {k}| == if k in m then |m.Keys| - 1 else |m.Keys|;
    assert |m| == |m.Keys| && |m - {k}| == |(m - {k}).Keys|;
  }

  lemma KeysListed<K(!new), V>(listing: seq<(K, V)>, m: map<K, V>, keys: seq<K>)
    requires DashTable.Enumerates(listing, m)
    requires |keys| == |listing| && forall j :: 0 <= j < |keys| ==> keys[j] == listing[j].0
    ensures KeysOf(keys) == m.Keys
  {
    forall k | k in m ensures k in keys {
      assert (k, m[k]) in listing;
      var a :| 0 <= a < |listing| && listing[a] == (k, m[k]);
      assert keys[a] == k;
    }
  }
}
