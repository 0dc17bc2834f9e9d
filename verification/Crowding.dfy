/**
 When the directory of one shard can take one more key. The keys of its main table are the stored
 objects and the entries made under a null key: a null is equal to nothing, so each of these is a
 key of its own, and all of them hash to 0.
 */
module Crowding {
  import opened Powers
  import opened NanoObj
  import opened Expiry
  import opened Scatter
  import D = Directory

  datatype Held = Named(key: Obj) | Nameless(number: nat)

  function Place(place: Obj -> Hash64): Held -> Hash64 {
    (x: Held) => if x.Named? then place(x.key) else 0
  }

  ghost function Names(keys: set<Obj>): set<Held> {
    set k | k in keys :: Named(k)
  }

  ghost function Nulls(n: nat): set<Held> {
    set i | 0 <= i < n :: Nameless(i)
  }

  ghost function Entries(s: Table, nulls: nat): set<Held> {
    Names(s.data.Keys) + Nulls(nulls)
  }

  /** The key under which a write stores its value. */
  function Target(key: Obj, nulls: nat): Held {
    if key.Null? then Nameless(nulls) else Named(Norm(key))
  }

  /** The stored keys that no prefix of 31 bits separates from a hash. */
  function Neighbours(place: Obj -> Hash64, s: Table, h: Hash64): set<Obj> {
    set k | k in s.data && Prefix(place(k), D.MAX_DEPTH) == Prefix(h, D.MAX_DEPTH)
  }

  /** Fewer than `threshold` keys, the written one among them, cannot be separated. */
  predicate Fits(place: Obj -> Hash64, threshold: nat, s: Table, nulls: nat, key: Obj) {
    if key.Null? then |Neighbours(place, s, 0)| + nulls + 1 < threshold
    else
      var h := place(Norm(key));
      |Neighbours(place, s, h) + {Norm(key)}| + (if Prefix(h, D.MAX_DEPTH) == 0 then nulls else 0) < threshold
  }

  lemma {:induction false} NamesSize(keys: set<Obj>)
    ensures |Names(keys)| == |keys|
  {
    if keys != {} {
      var k :| k in keys;
      NamesSize(keys - {k});
      assert Names(keys) == Names(keys - {k}) + {Named(k)};
    }
  }

  lemma {:induction false} NullsSize(n: nat)
    ensures |Nulls(n)| == n
  {
    if n > 0 {
      NullsSize(n - 1);
      assert Nulls(n) == Nulls(n - 1) + {Nameless(n - 1)};
    }
  }

  lemma ApartSize(keys: set<Obj>, n: nat)
    ensures |Names(keys) + Nulls(n)| == |keys| + n
  {
    NamesSize(keys);
    NullsSize(n);
    assert Names(keys) !! Nulls(n);
  }

  lemma {:induction false} ZeroPrefix(k: nat)
    ensures ShiftRight(0, k) == 0
  {
    if k > 0 { ZeroPrefix(k - 1); }
  }

  /** The keys that share the 31 bits of a null: its neighbours and all nulls. */
  lemma SharingOfNull(place: Obj -> Hash64, s: Table, nulls: nat)
    ensures D.Sharing(Place(place), Entries(s, nulls) + {Nameless(nulls)}, Nameless(nulls), D.MAX_DEPTH) ==
            Names(Neighbours(place, s, 0)) + Nulls(nulls + 1)
  {
  }

  lemma SharingOfName(place: Obj -> Hash64, s: Table, nulls: nat, k: Obj)
    ensures D.Sharing(Place(place), Entries(s, nulls) + {Named(k)}, Named(k), D.MAX_DEPTH) ==
            Names(Neighbours(place, s, place(k)) + {k}) + Nulls(if Prefix(place(k), D.MAX_DEPTH) == 0 then nulls else 0)
  {
    ZeroPrefix(64 - D.MAX_DEPTH);
  }

  lemma NullCounts(place: Obj -> Hash64, s: Table, nulls: nat)
    ensures |D.Sharing(Place(place), Entries(s, nulls) + {Nameless(nulls)}, Nameless(nulls), D.MAX_DEPTH)| ==
            |Neighbours(place, s, 0)| + nulls + 1
  {
    SharingOfNull(place, s, nulls);
    ApartSize(Neighbours(place, s, 0), nulls + 1);
  }

  lemma NameCounts(place: Obj -> Hash64, s: Table, nulls: nat, k: Obj)
    ensures |D.Sharing(Place(place), Entries(s, nulls) + {Named(k)}, Named(k), D.MAX_DEPTH)| ==
            |Neighbours(place, s, place(k)) + {k}| + if Prefix(place(k), D.MAX_DEPTH) == 0 then nulls else 0
  {
    SharingOfName(place, s, nulls, k);
    ApartSize(Neighbours(place, s, place(k)) + {k}, if Prefix(place(k), D.MAX_DEPTH) == 0 then nulls else 0);
  }

  /** The keys that cannot be separated from the written one, counted. */
  lemma FitsCounts(place: Obj -> Hash64, threshold: nat, s: Table, nulls: nat, key: Obj)
    ensures var x := Target(key, nulls);
            Fits(place, threshold, s, nulls, key) <==>
            |D.Sharing(Place(place), Entries(s, nulls) + {x}, x, D.MAX_DEPTH)| < threshold
  {
    if key.Null? {
      NullCounts(place, s, nulls);
    } else {
      NameCounts(place, s, nulls, Norm(key));
    }
  }

  /** `Fits` is the condition under which the split loop of the directory's `Insert` ends, on every directory with these keys. */
  lemma FitsIffRoom<V>(place: Obj -> Hash64, threshold: nat, s: Table, nulls: nat, key: Obj, d: D.Dir<Held, V>)
    requires D.Valid(Place(place), d) && D.Contents(Place(place), d).Keys == Entries(s, nulls)
    ensures Fits(place, threshold, s, nulls, key) <==> D.HasRoomFor(Place(place), threshold, d, Target(key, nulls))
  {
    FitsCounts(place, threshold, s, nulls, key);
    D.SeparableIff(Place(place), threshold, Entries(s, nulls) + {Target(key, nulls)}, Target(key, nulls));
  }

  /** With `threshold` nulls no prefix of any length separates them: the source's loop has no end at all. */
  lemma NullsNeverPart(place: Obj -> Hash64, keys: set<Held>, n: nat, depth: nat)
    requires depth <= 64 && n > 0 && Nulls(n) <= keys
    ensures |D.Sharing(Place(place), keys, Nameless(n - 1), depth)| >= n
  {
    NullsSize(n);
    D.SetSize(Nulls(n), D.Sharing(Place(place), keys, Nameless(n - 1), depth));
  }

  // ----- a list of writes over shards -----

  ghost function NullCount(rs: seq<Request>): nat {
    if rs == [] then 0 else NullCount(rs[..|rs| - 1]) + if rs[|rs| - 1].key.Null? then 1 else 0
  }

  /** Write `i` finds no room in its shard after the earlier writes to that shard. */
  ghost predicate CrowdedAt(f: Handler, place: Obj -> Hash64, threshold: nat, shards: seq<Table>, nulls: seq<nat>,
                            route: Obj -> nat, rs: seq<Request>, i: nat)
    requires i < |rs| && |nulls| == |shards| && route(rs[i].key) < |shards|
  {
    var j := route(rs[i].key);
    var before := Picked(rs[..i], route, j);
    !Fits(place, threshold, ServeAll(f, shards[j], before), nulls[j] + NullCount(before), rs[i].key)
  }

  ghost predicate Routed(rs: seq<Request>, route: Obj -> nat, n: nat) {
    forall i :: 0 <= i < |rs| ==> route(rs[i].key) < n
  }

  /** Some write never returns, whatever the order in which the shards are visited. */
  ghost predicate Stalls(f: Handler, place: Obj -> Hash64, threshold: nat, shards: seq<Table>, nulls: seq<nat>,
                         route: Obj -> nat, rs: seq<Request>)
    requires |nulls| == |shards| && Routed(rs, route, |shards|)
  {
    exists i :: 0 <= i < |rs| && CrowdedAt(f, place, threshold, shards, nulls, route, rs, i)
  }

  /** Shard `j` after its part of the first `i` writes. */
  ghost predicate At(f: Handler, shards: seq<Table>, nulls: seq<nat>, route: Obj -> nat, rs: seq<Request>,
                     tables: seq<Table>, counts: seq<nat>, j: nat)
    requires j < |shards| == |nulls| == |tables| == |counts|
  {
    var before := Picked(rs, route, j);
    tables[j] == ServeAll(f, shards[j], before) && counts[j] == nulls[j] + NullCount(before)
  }

  lemma AtNext(f: Handler, shards: seq<Table>, nulls: seq<nat>, route: Obj -> nat, rs: seq<Request>, r: Request,
               tables: seq<Table>, counts: seq<nat>, j: nat)
    requires j < |shards| == |nulls| == |tables| == |counts| && route(r.key) < |shards|
    requires At(f, shards, nulls, route, rs, tables, counts, j)
    ensures var home := route(r.key);
            At(f, shards, nulls, route, rs + [r], tables[home := f(tables[home], r).0],
               counts[home := counts[home] + if r.key.Null? then 1 else 0], j)
  {
    assert (rs + [r])[..|rs|] == rs;
    var before := Picked(rs, route, j);
    if route(r.key) == j {
      assert (before + [r])[..|before|] == before;
    } else {
      assert before + [] == before;
    }
  }

  /** Every shard after its part of the writes. */
  ghost predicate Followed(f: Handler, shards: seq<Table>, nulls: seq<nat>, route: Obj -> nat, rs: seq<Request>,
                           tables: seq<Table>, counts: seq<nat>) {
    && |shards| == |nulls| == |tables| == |counts|
    && forall j :: 0 <= j < |shards| ==> At(f, shards, nulls, route, rs, tables, counts, j)
  }

  lemma FollowedNext(f: Handler, shards: seq<Table>, nulls: seq<nat>, route: Obj -> nat, rs: seq<Request>, i: nat,
                     tables: seq<Table>, counts: seq<nat>)
    requires i < |rs| && route(rs[i].key) < |shards| && Followed(f, shards, nulls, route, rs[..i], tables, counts)
    ensures var home := route(rs[i].key);
            Followed(f, shards, nulls, route, rs[..i + 1], tables[home := f(tables[home], rs[i]).0],
                     counts[home := counts[home] + if rs[i].key.Null? then 1 else 0])
  {
    assert rs[..i + 1] == rs[..i] + [rs[i]];
    var home := route(rs[i].key);
    var tables' := tables[home := f(tables[home], rs[i]).0];
    var counts' := counts[home := counts[home] + if rs[i].key.Null? then 1 else 0];
    forall j | 0 <= j < |shards| ensures At(f, shards, nulls, route, rs[..i] + [rs[i]], tables', counts', j) {
      AtNext(f, shards, nulls, route, rs[..i], rs[i], tables, counts, j);
    }
  }

  lemma CrowdedNow(f: Handler, place: Obj -> Hash64, threshold: nat, shards: seq<Table>, nulls: seq<nat>,
                   route: Obj -> nat, rs: seq<Request>, i: nat, tables: seq<Table>, counts: seq<nat>)
    requires i < |rs| && route(rs[i].key) < |shards| && Followed(f, shards, nulls, route, rs[..i], tables, counts)
    ensures var home := route(rs[i].key);
            Fits(place, threshold, tables[home], counts[home], rs[i].key) <==>
            !CrowdedAt(f, place, threshold, shards, nulls, route, rs, i)
  {
    assert At(f, shards, nulls, route, rs[..i], tables, counts, route(rs[i].key));
  }

  /** The first `n` writes find room. */
  ghost predicate NoneCrowded(f: Handler, place: Obj -> Hash64, threshold: nat, shards: seq<Table>, nulls: seq<nat>,
                              route: Obj -> nat, rs: seq<Request>, n: nat)
    requires n <= |rs| && |nulls| == |shards| && Routed(rs, route, |shards|)
  {
    forall i :: 0 <= i < n ==> !CrowdedAt(f, place, threshold, shards, nulls, route, rs, i)
  }

  lemma NextOfNone(f: Handler, place: Obj -> Hash64, threshold: nat, shards: seq<Table>, nulls: seq<nat>,
                   route: Obj -> nat, rs: seq<Request>, n: nat)
    requires n < |rs| && |nulls| == |shards| && Routed(rs, route, |shards|)
    requires NoneCrowded(f, place, threshold, shards, nulls, route, rs, n)
    ensures if CrowdedAt(f, place, threshold, shards, nulls, route, rs, n)
            then Stalls(f, place, threshold, shards, nulls, route, rs)
            else NoneCrowded(f, place, threshold, shards, nulls, route, rs, n + 1)
  {
  }

  /** Write `i`, if it finds room. */
  method FollowOne(f: Handler, place: Obj -> Hash64, threshold: nat, ghost shards: seq<Table>, ghost nulls: seq<nat>,
                   route: Obj -> nat, rs: seq<Request>, i: nat, tables: seq<Table>, counts: seq<nat>)
    returns (stalls: bool, tables': seq<Table>, counts': seq<nat>)
    requires i < |rs| && Routed(rs, route, |shards|) && Followed(f, shards, nulls, route, rs[..i], tables, counts)
    requires NoneCrowded(f, place, threshold, shards, nulls, route, rs, i)
    ensures stalls ==> Stalls(f, place, threshold, shards, nulls, route, rs)
    ensures !stalls ==> Followed(f, shards, nulls, route, rs[..i + 1], tables', counts')
    ensures !stalls ==> NoneCrowded(f, place, threshold, shards, nulls, route, rs, i + 1)
  {
    CrowdedNow(f, place, threshold, shards, nulls, route, rs, i, tables, counts);
    NextOfNone(f, place, threshold, shards, nulls, route, rs, i);
    FollowedNext(f, shards, nulls, route, rs, i, tables, counts);
    var r := rs[i];
    var home := route(r.key);
    if !Fits(place, threshold, tables[home], counts[home], r.key) {
      return true, tables, counts;
    }
    return false, tables[home := f(tables[home], r).0], counts[home := counts[home] + if r.key.Null? then 1 else 0];
  }

  /** Follows the writes through their shards, in the order of the command, up to one that finds no room. */
  method FindStall(f: Handler, place: Obj -> Hash64, threshold: nat, shards: seq<Table>, nulls: seq<nat>,
                   route: Obj -> nat, rs: seq<Request>)
    returns (stalls: bool)
    requires |nulls| == |shards| && Routed(rs, route, |shards|)
    ensures stalls == Stalls(f, place, threshold, shards, nulls, route, rs)
  {
    var tables, counts := shards, nulls;
    for i := 0 to |rs|
      invariant Followed(f, shards, nulls, route, rs[..i], tables, counts)
      invariant NoneCrowded(f, place, threshold, shards, nulls, route, rs, i)
    {
      stalls, tables, counts := FollowOne(f, place, threshold, shards, nulls, route, rs, i, tables, counts);
      if stalls {
        return true;
      }
    }
    return false;
  }
}
