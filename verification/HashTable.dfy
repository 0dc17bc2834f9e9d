/**
 The dense hash table that stores a segment, a Redis hash or a Redis set: a
 vector of key/value pairs without holes, indexed by Robin Hood buckets. Every
 operation is proved against the finite map the vector stands for.
 */
module HashTable {
  import opened Powers
  import opened Options
  import opened BucketIndex
  import Decimal
  import NanoObj

  /** Initial shift of 62 gives four buckets; below 41 the 24-bit distance field could wrap. */
  const INITIAL_SHIFTS: nat := 62
  const MIN_SHIFTS: nat := 41

  // ----- the map a vector of pairs stands for -----

  ghost predicate DistinctKeys<K, V>(values: seq<(K, V)>) {
    forall i, j :: 0 <= i < j < |values| ==> values[i].0 != values[j].0
  }

  ghost function ToMap<K, V>(values: seq<(K, V)>): map<K, V> {
    if values == [] then map[]
    else ToMap(values[..|values| - 1])[values[|values| - 1].0 := values[|values| - 1].1]
  }

  lemma {:induction false} ToMapKeys<K, V>(values: seq<(K, V)>, k: K)
    ensures k in ToMap(values) <==> exists i :: 0 <= i < |values| && values[i].0 == k
  {
    if values != [] {
      var last := |values| - 1;
      ToMapKeys(values[..last], k);
      if k in ToMap(values[..last]) {
        var i :| 0 <= i < last && values[..last][i].0 == k;
        assert values[i].0 == k;
      } else if exists i :: 0 <= i < |values| && values[i].0 == k {
        var i :| 0 <= i < |values| && values[i].0 == k;
        assert i < last ==> values[..last][i].0 == k;
      }
    }
  }

  lemma {:induction false} ToMapValue<K, V>(values: seq<(K, V)>, i: nat)
    requires DistinctKeys(values) && i < |values|
    ensures values[i].0 in ToMap(values) && ToMap(values)[values[i].0] == values[i].1
  {
    var last := |values| - 1;
    if i < last {
      ToMapValue(values[..last], i);
      assert values[..last][i] == values[i];
    }
  }

  lemma ToMapLookup<K, V>(values: seq<(K, V)>)
    requires DistinctKeys(values)
    ensures forall k :: k in ToMap(values) ==> exists i :: 0 <= i < |values| && values[i].0 == k
    ensures forall i :: 0 <= i < |values| ==> values[i].0 in ToMap(values) && ToMap(values)[values[i].0] == values[i].1
  {
    forall k | k in ToMap(values) ensures exists i :: 0 <= i < |values| && values[i].0 == k {
      ToMapKeys(values, k);
    }
    forall i | 0 <= i < |values|
      ensures values[i].0 in ToMap(values) && ToMap(values)[values[i].0] == values[i].1
    {
      ToMapValue(values, i);
    }
  }

  lemma ToMapAssign<K, V>(values: seq<(K, V)>, i: nat, v: V)
    requires DistinctKeys(values) && i < |values|
    ensures DistinctKeys(values[i := (values[i].0, v)])
    ensures ToMap(values[i := (values[i].0, v)]) == ToMap(values)[values[i].0 := v]
  {
    var values' := values[i := (values[i].0, v)];
    ToMapLookup(values);
    ToMapLookup(values');
    var m, m' := ToMap(values)[values[i].0 := v], ToMap(values');
    forall k | k in m ensures k in m' && m'[k] == m[k] {
      var j :| 0 <= j < |values| && values[j].0 == k;
      assert values'[j].0 == k;
    }
    forall k | k in m' ensures k in m {
      var j :| 0 <= j < |values'| && values'[j].0 == k;
      assert values[j].0 == k;
    }
  }

  /** Moving the last pair over the removed one and dropping the last removes exactly one key. */
  lemma ToMapSwapRemove<K, V>(values: seq<(K, V)>, i: nat)
    requires DistinctKeys(values) && i < |values|
    ensures var values' := values[i := values[|values| - 1]][..|values| - 1];
            DistinctKeys(values') && ToMap(values') == ToMap(values) - {values[i].0}
  {
    var last := |values| - 1;
    var values' := values[i := values[last]][..last];
    ToMapLookup(values);
    ToMapLookup(values');
    var m, m' := ToMap(values) - {values[i].0}, ToMap(values');
    forall k | k in m ensures k in m' && m'[k] == m[k] {
      var j :| 0 <= j < |values| && values[j].0 == k;
      assert values'[if j == last then i else j] == values[j];
    }
    forall k | k in m' ensures k in m {
      var j :| 0 <= j < |values'| && values'[j].0 == k;
      assert values'[j] == values[if j == i then last else j];
    }
  }

  // ----- probing -----

  function TagOf(hash: Hash64, shifts: nat): (t: Tag)
    requires shifts <= 64
    ensures t.home < Pow2(64 - shifts) && t.fp < FINGERPRINTS
  {
    Pow2Constants();
    ShiftBound(hash, shifts, 64 - shifts);
    Tag(ShiftRight(hash, shifts), hash % FINGERPRINTS)
  }

  /** The 32-bit addition of one distance unit. */
  function DistInc(x: nat): nat {
    (x + DIST_INC) % TWO_32
  }

  /** How many pairs `n` buckets take before the table grows; exact in binary floating point for a power of two. */
  function CapacityFor(n: nat, maxLoad: real): (c: nat)
    requires 0.0 <= maxLoad <= 1.0
    ensures c <= n
  {
    assert 0.0 <= n as real * maxLoad <= n as real;
    (n as real * maxLoad).Floor
  }

  /** The first `s` probed buckets were all at least as rich as the probe. */
  ghost predicate Passed(b: seq<Bucket>, tag: Tag, s: nat)
    requires tag.home < |b| && s <= |b|
  {
    forall t :: 0 <= t < s ==> b[At(|b|, tag.home, t)].distFp >= DIST_INC * (1 + t) + tag.fp
  }

  /** A probe that passed only richer buckets and then met a poorer one may insert there. */
  lemma ProbeFits(b: seq<Bucket>, tags: seq<Tag>, v: nat, s: nat, e: nat)
    requires Shape(b, tags) && v < |tags| && s <= |b|
    requires e < |b| && b[e].distFp == 0
    requires Passed(b, tags[v], s)
    requires b[At(|b|, tags[v].home, s)].distFp <= DIST_INC * (1 + s) + tags[v].fp
    ensures Fits(b, tags, Bucket(DIST_INC * (1 + s) + tags[v].fp, v), At(|b|, tags[v].home, s))
  {
    var n, h := |b|, tags[v].home;
    if s > Dist(n, h, e) {
      var _ := At(n, h, Dist(n, h, e));
      assert false;
    }
    if s > 0 {
      assert Prev(n, At(n, h, s)) == At(n, h, s - 1);
    }
  }

  // ----- searching by value index -----

  /** `p` is the first bucket at or after `start` that carries value index `v`. */
  ghost predicate FirstWithIndex(b: seq<Bucket>, start: nat, v: nat, p: nat) {
    && start < |b| && p < |b| && b[p].valueIdx == v
    && forall t :: 0 <= t < Dist(|b|, start, p) ==> b[At(|b|, start, t)].valueIdx != v
  }

  /** Every bucket from `start` up to `p` is occupied. */
  ghost predicate NoGap(b: seq<Bucket>, start: nat, p: nat)
    requires start < |b| && p < |b|
  {
    forall t :: 0 <= t < Dist(|b|, start, p) ==> b[At(|b|, start, t)].distFp != 0
  }

  /**
   Empty buckets carry index 0. So the search by index from an arbitrary start finds the
   entry's own bucket exactly when the index is positive or no empty bucket comes first.
   */
  lemma SearchByIndex(b: seq<Bucket>, tags: seq<Tag>, pos: seq<nat>, out: int, start: nat, v: nat, p: nat)
    requires Shape(b, tags) && |pos| == |tags| && Linked(b, pos, out, -1)
    requires v < |tags| && v != out && FirstWithIndex(b, start, v, p)
    ensures p == pos[v] && b[p].distFp != 0 <==> v > 0 || NoGap(b, start, pos[v])
  {
    var n := |b|;
    assert ValueLinked(b, pos, v, -1);
    assert BucketOk(n, tags, b[p], p);
    assert BucketLinked(b, pos, p, out);
    assert At(n, start, Dist(n, start, p)) == p && At(n, start, Dist(n, start, pos[v])) == pos[v];
    if p == pos[v] && v == 0 {
      forall t | 0 <= t < Dist(n, start, p) ensures b[At(n, start, t)].distFp != 0 {
        assert BucketOk(n, tags, b[At(n, start, t)], At(n, start, t));
      }
    }
  }

  /** A search that starts at the entry's own home always finds it. */
  lemma HomeHasNoGap(b: seq<Bucket>, tags: seq<Tag>, pos: seq<nat>, v: nat)
    requires Indexed(b, tags, pos) && v < |tags|
    ensures NoGap(b, tags[v].home, pos[v])
  {
    forall t | 0 <= t < Dist(|b|, tags[v].home, pos[v]) ensures b[At(|b|, tags[v].home, t)].distFp != 0 {
      ProbeNeverEarly(b, tags, pos, v, t);
    }
  }

  /** A moved-from key is a null object; it hashes to 0, so a search with it starts at bucket 0. */
  lemma NullStartsAtZero(ofBytes: Decimal.Bytes -> nat, ofInt: int -> nat, shifts: nat)
    requires shifts <= 64
    ensures NanoObj.Hash(NanoObj.Null, ofBytes, ofInt) == 0 && TagOf(0, shifts).home == 0
  {
    ZeroShifted(shifts);
  }

  lemma {:induction false} ZeroShifted(k: nat)
    ensures ShiftRight(0, k) == 0
  {
    if k > 0 { ZeroShifted(k - 1); }
  }

  /** A table of one entry in which the search that starts at bucket 0 stops at an empty bucket. */
  lemma MovedFromKeyMisleadsErase()
    ensures exists b: seq<Bucket>, tags: seq<Tag>, pos: seq<nat> ::
              Indexed(b, tags, pos) && |tags| == 1 && |b| == 4 && !NoGap(b, 0, pos[0]) &&
              FirstWithIndex(b, 0, 0, 0) && b[0] == EMPTY
  {
    var b := [EMPTY, Bucket(DIST_INC, 0), EMPTY, EMPTY];
    var tags, pos: seq<nat> := [Tag(1, 0)], [1];
    assert ValueLinked(b, pos, 0, -1);
    forall i | 0 <= i < 4 ensures BucketOk(4, tags, b[i], i) && OrderedAt(b, i) && BucketLinked(b, pos, i, -1) {
    }
    assert !NoGap(b, 0, 1) by { assert At(4, 0, 0) == 0; }
    assert Indexed(b, tags, pos) && FirstWithIndex(b, 0, 0, 0);
  }

  /** No assignment of buckets makes this an index. */
  ghost predicate Unindexed(b: seq<Bucket>, tags: seq<Tag>) {
    forall pos :: !Indexed(b, tags, pos)
  }

  /** Relabelling the last entry to 0 while bucket `pos[0]` is still there leaves two buckets with index 0. */
  lemma MisledByEmpty(b: seq<Bucket>, tags: seq<Tag>, pos: seq<nat>, held: int, last: nat, p: nat)
    requires Shape(b, tags) && |pos| == |tags| == last + 1 && last > 0 && Linked(b, pos, held, -1)
    requires p < |b| && b[p].distFp != 0 && b[p].valueIdx == last
    ensures held == -1 ==> Unindexed(b[p := b[p].(valueIdx := 0)], tags[0 := tags[last]][..last])
  {
    if held == -1 {
      assert ValueLinked(b, pos, 0, -1);
      var b', tags' := b[p := b[p].(valueIdx := 0)], tags[0 := tags[last]][..last];
      forall q ensures !Indexed(b', tags', q) {
        if Indexed(b', tags', q) { OneBucketEach(b', tags', q, p, pos[0]); }
      }
    }
  }

  /** The bucket of a table's only entry, left behind. */
  lemma StaysOccupied(b: seq<Bucket>, tags: seq<Tag>, pos: seq<nat>)
    requires Shape(b, tags) && |pos| == |tags| == 1 && Linked(b, pos, -1, -1)
    ensures Unindexed(b, tags[..0])
  {
    assert ValueLinked(b, pos, 0, -1);
    forall q ensures !Indexed(b, tags[..0], q) {
      if Indexed(b, tags[..0], q) { OneBucketEach(b, tags[..0], q, pos[0], pos[0]); }
    }
  }

  // ----- what an erase leaves, as a function of what was there -----

  /** The buckets when value `removed` is unlinked and the last value takes its place. */
  ghost function Refilled<K, V>(hash: K -> Hash64, shifts: nat, values: seq<(K, V)>, b: seq<Bucket>, removed: nat): (r: seq<Bucket>)
    requires shifts <= 64 && |b| == Pow2(64 - shifts) && values != []
    ensures |r| == |b|
  {
    var last := |values| - 1;
    if removed == last then b
    else
      var p := Located(b, TagOf(hash(values[last].0), shifts).home, last, 0);
      b[p := b[p].(valueIdx := removed)]
  }

  /** The buckets after `do_erase` of bucket `i`. */
  ghost function Without<K, V>(hash: K -> Hash64, shifts: nat, values: seq<(K, V)>, b: seq<Bucket>, i: nat): (r: seq<Bucket>)
    requires shifts < 64 && |b| == Pow2(64 - shifts) && values != [] && i < |b|
    ensures |r| == |b|
  {
    Refilled(hash, shifts, values, Shifted(b, i), b[i].valueIdx)
  }

  // ----- dividing a map between two tables -----

  /** Where a key stands in the list of pairs, or its length. */
  ghost function Position<K, V>(values: seq<(K, V)>, key: K): (v: nat)
    ensures v <= |values| && (v < |values| ==> values[v].0 == key)
    ensures forall i :: 0 <= i < v ==> values[i].0 != key
  {
    if values == [] then 0
    else
      var v := Position(values[..|values| - 1], key);
      if v == |values| - 1 && values[v].0 != key then |values| else v
  }

  lemma PositionIs<K, V>(values: seq<(K, V)>, v: nat)
    requires DistinctKeys(values) && v < |values|
    ensures Position(values, values[v].0) == v
  {
    assert Position(values, values[v].0) <= v;
  }

  lemma PositionAbsent<K, V>(values: seq<(K, V)>, key: K)
    requires key !in ToMap(values)
    ensures Position(values, key) == |values|
  {
    ToMapKeys(values, key);
  }

  ghost predicate Divided<K, V>(all: map<K, V>, upper: K -> bool, low: map<K, V>, high: map<K, V>) {
    low == (map k | k in all && !upper(k) :: all[k]) && high == (map k | k in all && upper(k) :: all[k])
  }

  ghost predicate Lists<K, V>(items: seq<K>, all: map<K, V>) {
    && (forall k :: k in items ==> k in all) && (forall k :: k in all ==> k in items)
    && (forall i, j :: 0 <= i < j < |items| ==> items[i] != items[j])
  }

  lemma KeysList<K, V>(values: seq<(K, V)>, items: seq<K>)
    requires DistinctKeys(values) && |items| == |values| && forall i :: 0 <= i < |items| ==> items[i] == values[i].0
    ensures Lists(items, ToMap(values))
  {
    ToMapLookup(values);
    forall k | k in items ensures k in ToMap(values) {
      var i :| 0 <= i < |items| && items[i] == k;
      assert values[i].0 == k;
    }
    forall k | k in ToMap(values) ensures k in items {
      var i :| 0 <= i < |values| && values[i].0 == k;
      assert items[i] == k;
    }
  }

  /** The upper keys among `done` have changed over. */
  ghost predicate Moved<K, V>(all: map<K, V>, upper: K -> bool, done: seq<K>, low: map<K, V>, high: map<K, V>) {
    && low == (map k | k in all && !(upper(k) && k in done) :: all[k])
    && high == (map k | k in all && upper(k) && k in done :: all[k])
  }

  lemma MovedNext<K, V>(all: map<K, V>, upper: K -> bool, items: seq<K>, i: nat, low: map<K, V>, high: map<K, V>)
    requires i < |items| && Lists(items, all) && Moved(all, upper, items[..i], low, high) && upper(items[i])
    ensures items[i] in low && low[items[i]] == all[items[i]] && items[i] !in high
    ensures Moved(all, upper, items[..i + 1], low - {items[i]}, high[items[i] := all[items[i]]])
  {
    assert items[..i + 1] == items[..i] + [items[i]];
  }

  lemma NotMoved<K, V>(all: map<K, V>, upper: K -> bool, items: seq<K>, i: nat, low: map<K, V>, high: map<K, V>)
    requires i < |items| && Moved(all, upper, items[..i], low, high) && !upper(items[i])
    ensures Moved(all, upper, items[..i + 1], low, high)
  {
    assert items[..i + 1] == items[..i] + [items[i]];
  }

  lemma MovedAll<K, V>(all: map<K, V>, upper: K -> bool, items: seq<K>, low: map<K, V>, high: map<K, V>)
    requires Lists(items, all) && Moved(all, upper, items[..|items|], low, high)
    ensures Divided(all, upper, low, high)
  {
    assert items[..|items|] == items;
  }

  /** Erasing the moved entry `key`, which then hashes to 0, leaves a table. */
  ghost predicate TurnOk<K, V>(values: seq<(K, V)>, b: seq<Bucket>, key: K)
    requires b != []
  {
    Position(values, key) == 0 && values != [] ==> b[Located(b, 0, 0, 0)].distFp != 0
  }

  ghost function TurnValues<K, V>(values: seq<(K, V)>, key: K): seq<(K, V)> {
    var v := Position(values, key);
    if v == |values| then values else values[v := values[|values| - 1]][..|values| - 1]
  }

  ghost function TurnBuckets<K, V>(hash: K -> Hash64, shifts: nat, values: seq<(K, V)>, b: seq<Bucket>, key: K): (r: seq<Bucket>)
    requires shifts < 64 && |b| == Pow2(64 - shifts)
    ensures |r| == |b|
  {
    var v := Position(values, key);
    if v == |values| then b else Without(hash, shifts, values, b, Located(b, 0, v, 0))
  }

  /**
   Seen from before: erasing the moved entries one after the other, each with a key that hashes to 0,
   leaves a table every time. An entry at index 0 at its turn must not have an empty bucket before
   its own, from bucket 0 on.
   */
  ghost predicate Survives<K, V>(hash: K -> Hash64, shifts: nat, values: seq<(K, V)>, b: seq<Bucket>, items: seq<K>, upper: K -> bool)
    requires shifts < 64 && |b| == Pow2(64 - shifts)
    decreases |items|
  {
    items == [] ||
    (if !upper(items[0]) then Survives(hash, shifts, values, b, items[1..], upper)
     else
       && TurnOk(values, b, items[0])
       && Survives(hash, shifts, TurnValues(values, items[0]), TurnBuckets(hash, shifts, values, b, items[0]), items[1..], upper))
  }

  lemma SurvivesNext<K, V>(hash: K -> Hash64, shifts: nat, values: seq<(K, V)>, b: seq<Bucket>, items: seq<K>, i: nat, upper: K -> bool)
    requires shifts < 64 && |b| == Pow2(64 - shifts) && i < |items|
    ensures Survives(hash, shifts, values, b, items[i..], upper) <==>
            if !upper(items[i]) then Survives(hash, shifts, values, b, items[i + 1..], upper)
            else
              && TurnOk(values, b, items[i])
              && Survives(hash, shifts, TurnValues(values, items[i]), TurnBuckets(hash, shifts, values, b, items[i]), items[i + 1..], upper)
  {
    assert items[i..][0] == items[i] && items[i..][1..] == items[i + 1..];
  }

  class Table<K(==), V> {
    const hash: K -> Hash64
    var values: seq<(K, V)>
    var buckets: seq<Bucket>
    var shifts: nat
    var maxLoad: real
    var capacity: nat
    /** Bucket of each value index. */
    ghost var pos: seq<nat>

    ghost function Tags(): (r: seq<Tag>)
      requires shifts <= 64
      reads this
    {
      seq(|values|, i requires 0 <= i < |values| && shifts <= 64 reads this => TagOf(hash(values[i].0), shifts))
    }

    ghost predicate Sized()
      reads this
    {
      && MIN_SHIFTS <= shifts <= INITIAL_SHIFTS
      && |buckets| == Pow2(64 - shifts)
      && 0.0 <= maxLoad <= 1.0
      && capacity <= |buckets|
    }

    ghost predicate Valid()
      reads this
    {
      && Sized()
      && |values| <= |buckets|
      && DistinctKeys(values)
      && Indexed(buckets, Tags(), pos)
    }

    /** The capacity is that of the buckets. */
    ghost predicate CapacityIsRight()
      reads this
    {
      0.0 <= maxLoad <= 1.0 && capacity == CapacityFor(|buckets|, maxLoad)
    }

    /** The finite map the table stands for. */
    ghost function Contents(): map<K, V>
      reads this
    {
      ToMap(values)
    }

    lemma SizeBounds()
      requires Sized()
      ensures 4 <= |buckets| <= MAX_BUCKETS
    {
      Pow2Constants();
      Pow2Mono(2, 64 - shifts);
      Pow2Mono(64 - shifts, 23);
      assert Pow2(2) == 4;
    }

    lemma AbsentKey(key: K)
      requires Valid() && forall v :: 0 <= v < |values| ==> values[v].0 != key
      ensures key !in Contents()
    {
      ToMapLookup(values);
    }

    lemma PresentKey(v: nat)
      requires Valid() && v < |values|
      ensures values[v].0 in Contents() && Contents()[values[v].0] == values[v].1
    {
      ToMapLookup(values);
    }

    constructor (hash: K -> Hash64, shifts: nat, maxLoad: real)
      requires MIN_SHIFTS <= shifts <= INITIAL_SHIFTS && 0.0 <= maxLoad <= 1.0
      ensures Valid() && Contents() == map[]
      ensures this.hash == hash && this.shifts == shifts && this.maxLoad == maxLoad
    {
      this.hash := hash;
      values := [];
      this.shifts := shifts;
      this.maxLoad := maxLoad;
      buckets := seq(Pow2(64 - shifts), _ => EMPTY);
      capacity := CapacityFor(Pow2(64 - shifts), maxLoad);
      pos := [];
      new;
      SizeBounds();
      EmptyIndexed(buckets);
      assert Tags() == [];
    }

    static lemma EmptyIndexed(b: seq<Bucket>)
      requires 2 <= |b| <= MAX_BUCKETS && forall i :: 0 <= i < |b| ==> b[i] == EMPTY
      ensures Indexed(b, [], [])
    {
      forall i | 0 <= i < |b| ensures BucketOk(|b|, [], b[i], i) && OrderedAt(b, i) {
      }
    }

    method MaxLoadFactor(ml: real)
      requires Valid() && 0.0 <= ml <= 1.0
      modifies this`maxLoad, this`capacity
      ensures Valid() && maxLoad == ml && capacity == CapacityFor(|buckets|, ml)
      ensures Contents() == old(Contents())
    {
      maxLoad := ml;
      capacity := CapacityFor(|buckets|, ml);
      SizeBounds();
      assert Tags() == old(Tags());
    }

    method Clear()
      requires Valid()
      modifies this`values, this`buckets, this`pos
      ensures Valid() && Contents() == map[]
    {
      SizeBounds();
      values := [];
      buckets := seq(|buckets|, _ => EMPTY);
      pos := [];
      EmptyIndexed(buckets);
      assert Tags() == [];
    }

    /** The probe field after `s` steps from the key's home. */
    ghost predicate ProbeAt(key: K, s: nat, d: nat, i: nat)
      requires Sized()
      reads this
    {
      var tag := TagOf(hash(key), shifts);
      s <= |buckets| && i == At(|buckets|, tag.home, s) && d == DIST_INC * (1 + s) + tag.fp
    }

    /** If the key is stored at all, its bucket is at least `s` steps from its home. */
    ghost predicate Beyond(key: K, s: nat)
      requires Valid()
      reads this
    {
      forall v :: 0 <= v < |values| && values[v].0 == key ==>
        s <= Dist(|buckets|, TagOf(hash(key), shifts).home, pos[v])
    }

    /** The probed bucket carries the probed field and the probed key. */
    predicate Hit(key: K, d: nat, i: nat)
      requires Valid() && i < |buckets|
      reads this
    {
      d == buckets[i].distFp && d != 0 && (HitIndex(i); key == values[buckets[i].valueIdx].0)
    }

    lemma HitIndex(i: nat)
      requires Valid() && i < |buckets| && buckets[i].distFp != 0
      ensures buckets[i].valueIdx < |values| && pos[buckets[i].valueIdx] == i
    {
      assert BucketOk(|buckets|, Tags(), buckets[i], i);
      assert BucketLinked(buckets, pos, i, -1);
    }

    /** A miss that is not an early exit moves the probe on by one bucket, without wrap-around. */
    lemma Miss(key: K, s: nat, d: nat, i: nat)
      requires Valid() && ProbeAt(key, s, d, i) && Beyond(key, s) && !Hit(key, d, i)
      requires s < 2 || d <= buckets[i].distFp
      ensures s < |buckets| && ProbeAt(key, s + 1, DistInc(d), Next(|buckets|, i)) && Beyond(key, s + 1)
    {
      SizeBounds();
      ProbeEnds(buckets, Tags(), i);
      forall v | 0 <= v < |values| && values[v].0 == key
        ensures s != Dist(|buckets|, TagOf(hash(key), shifts).home, pos[v])
      {
        assert ValueLinked(buckets, pos, v, -1);
        assert BucketOk(|buckets|, Tags(), buckets[pos[v]], pos[v]);
      }
    }

    /** Meeting a poorer bucket means the key is not stored. */
    lemma EarlyExit(key: K, s: nat, d: nat, i: nat)
      requires Valid() && ProbeAt(key, s, d, i) && Beyond(key, s)
      requires d > buckets[i].distFp
      ensures key !in Contents()
    {
      forall v | 0 <= v < |values| ensures values[v].0 != key {
        if values[v].0 == key {
          ProbeNeverEarly(buckets, Tags(), pos, v, s);
          assert false;
        }
      }
      AbsentKey(key);
    }

    /** `do_find`: two unrolled probes, then the loop with the early exit. */
    method Find(key: K) returns (r: Option<nat>)
      requires Valid()
      ensures r.Some? <==> key in Contents()
      ensures r.Some? ==> r.value < |values| && values[r.value] == (key, Contents()[key])
    {
      if values == [] {
        return None;
      }
      SizeBounds();
      var tag := TagOf(hash(key), shifts);
      var n: nat, d: nat, i: nat := |buckets|, DIST_INC + tag.fp, tag.home;
      if Hit(key, d, i) {
        r := Report(i);
        return;
      }
      Miss(key, 0, d, i);
      d, i := DistInc(d), Next(n, i);
      if Hit(key, d, i) {
        r := Report(i);
        return;
      }
      Miss(key, 1, d, i);
      d, i := DistInc(d), Next(n, i);
      ghost var s := 2;
      while true
        invariant s <= n && ProbeAt(key, s, d, i) && Beyond(key, s)
        decreases n - s
      {
        if d == buckets[i].distFp {
          if Hit(key, d, i) {
            r := Report(i);
            return;
          }
        } else if d > buckets[i].distFp {
          EarlyExit(key, s, d, i);
          return None;
        }
        Miss(key, s, d, i);
        d, i, s := DistInc(d), Next(n, i), s + 1;
      }
    }

    method Report(i: nat) returns (r: Option<nat>)
      requires Valid() && i < |buckets| && buckets[i].distFp != 0
      ensures r.Some? && r.value == buckets[i].valueIdx < |values|
      ensures values[r.value].0 in Contents() && Contents()[values[r.value].0] == values[r.value].1
    {
      HitIndex(i);
      PresentKey(buckets[i].valueIdx);
      r := Some(buckets[i].valueIdx);
    }

    // ----- insertion -----

    /** `next_while_less`: the first bucket from the key's home that is not richer than the probe. */
    method NextWhileLess(key: K, ghost tags: seq<Tag>) returns (d: nat, i: nat, ghost s: nat)
      requires Sized() && Shape(buckets, tags)
      ensures ProbeAt(key, s, d, i) && buckets[i].distFp <= d
      ensures forall t :: 0 <= t < s ==>
                var tag := TagOf(hash(key), shifts);
                buckets[At(|buckets|, tag.home, t)].distFp > DIST_INC * (1 + t) + tag.fp
    {
      var tag := TagOf(hash(key), shifts);
      d, i, s := DIST_INC + tag.fp, tag.home, 0;
      while d < buckets[i].distFp
        invariant ProbeAt(key, s, d, i)
        invariant forall t :: 0 <= t < s ==> buckets[At(|buckets|, tag.home, t)].distFp > DIST_INC * (1 + t) + tag.fp
        decreases |buckets| - s
      {
        ProbeEnds(buckets, tags, i);
        d, i, s := DistInc(d), Next(|buckets|, i), s + 1;
      }
    }

    /** `place_and_shift_up`: the displacement loop. */
    method PlaceAndShiftUp(x: Bucket, p: nat, ghost tags: seq<Tag>)
      requires Shape(buckets, tags) && Fits(buckets, tags, x, p)
      requires |pos| == |tags| && Linked(buckets, pos, x.valueIdx, -1)
      requires exists e :: 0 <= e < |buckets| && buckets[e].distFp == 0
      modifies this`buckets, this`pos
      ensures Indexed(buckets, tags, pos) && |buckets| == old(|buckets|)
    {
      var bucket, place := x, p;
      ghost var e :| 0 <= e < |buckets| && buckets[e].distFp == 0;
      while buckets[place].distFp != 0
        invariant |buckets| == old(|buckets|) && e < |buckets| && buckets[e].distFp == 0
        invariant Shape(buckets, tags) && Fits(buckets, tags, bucket, place)
        invariant |pos| == |tags| && Linked(buckets, pos, bucket.valueIdx, -1)
        decreases Dist(|buckets|, place, e)
      {
        Displace(buckets, tags, pos, bucket, place, e);
        ProbeEnds(buckets, tags, place);
        var displaced := buckets[place];
        pos := pos[bucket.valueIdx := place];
        buckets := buckets[place := bucket];
        bucket := Bucket(DistInc(displaced.distFp), displaced.valueIdx);
        place := Next(|buckets|, place);
      }
      Settle(buckets, tags, pos, bucket, place);
      pos := pos[bucket.valueIdx := place];
      buckets := buckets[place := bucket];
    }

    /** Link value `v`, given the tags of the values before it, at the bucket a probe stopped at. */
    method PlaceNew(v: nat, d: nat, i: nat, ghost s: nat, ghost tags: seq<Tag>, ghost tag: Tag)
      requires Indexed(buckets, tags, pos) && |tags| == v < |buckets|
      requires tag.home < |buckets| && tag.fp < FINGERPRINTS && s <= |buckets| && Passed(buckets, tag, s)
      requires i == At(|buckets|, tag.home, s) && d == DIST_INC * (1 + s) + tag.fp && buckets[i].distFp <= d
      modifies this`buckets, this`pos
      ensures Indexed(buckets, tags + [tag], pos) && |buckets| == old(|buckets|)
    {
      EmptyExists(buckets, pos, -1);
      ghost var e :| 0 <= e < |buckets| && buckets[e].distFp == 0;
      AppendTag(buckets, tags, pos, tag, 0);
      pos := pos + [0];
      ProbeFits(buckets, tags + [tag], v, s, e);
      PlaceAndShiftUp(Bucket(d, v), i, tags + [tag]);
    }

    /** `clear_and_fill_buckets_from_values`: a rehash of every stored pair. */
    method ClearAndFill()
      requires Sized() && |values| <= |buckets| && DistinctKeys(values)
      modifies this`buckets, this`pos
      ensures Valid()
    {
      SizeBounds();
      buckets, pos := seq(|buckets|, _ => EMPTY), [];
      EmptyIndexed(buckets);
      ghost var tags := Tags();
      assert tags[..0] == [];
      for v := 0 to |values|
        invariant |buckets| == old(|buckets|) && tags == Tags()
        invariant Indexed(buckets, tags[..v], pos)
      {
        var d, i, s := NextWhileLess(values[v].0, tags[..v]);
        PlaceNew(v, d, i, s, tags[..v], tags[v]);
        assert tags[..v] + [tags[v]] == tags[..v + 1];
      }
      assert tags[..|values|] == tags;
    }

    /** `increase_size`: twice the buckets, refilled. */
    method IncreaseSize()
      requires Sized() && shifts > MIN_SHIFTS && |values| <= 2 * |buckets| && DistinctKeys(values)
      modifies this`shifts, this`buckets, this`capacity, this`pos
      ensures Valid() && shifts == old(shifts) - 1 && capacity == CapacityFor(|buckets|, maxLoad)
    {
      shifts := shifts - 1;
      buckets := seq(Pow2(64 - shifts), _ => EMPTY);
      capacity := CapacityFor(|buckets|, maxLoad);
      ClearAndFill();
    }

    lemma AbsentIsDistinct(key: K, value: V)
      requires Valid() && key !in Contents()
      ensures DistinctKeys(values + [(key, value)])
      ensures ToMap(values + [(key, value)]) == Contents()[key := value]
    {
      ToMapLookup(values);
      assert (values + [(key, value)])[..|values|] == values;
    }

    /** `do_place_element`: append the pair, then grow or displace. */
    method PlaceElement(key: K, value: V, d: nat, i: nat, ghost s: nat)
      requires Valid() && key !in Contents()
      requires |values| < capacity || shifts > MIN_SHIFTS
      requires ProbeAt(key, s, d, i) && Passed(buckets, TagOf(hash(key), shifts), s) && buckets[i].distFp <= d
      modifies this
      ensures Valid() && Contents() == old(Contents())[key := value]
      ensures values == old(values) + [(key, value)] && maxLoad == old(maxLoad)
      ensures old(CapacityIsRight()) ==> CapacityIsRight()
    {
      SizeBounds();
      AbsentIsDistinct(key, value);
      ghost var tags, tag := Tags(), TagOf(hash(key), shifts);
      values := values + [(key, value)];
      assert Tags() == tags + [tag];
      if |values| > capacity {
        IncreaseSize();
      } else {
        PlaceNew(|values| - 1, d, i, s, tags, tag);
        assert Tags() == tags + [tag];
      }
    }

    /** `do_try_emplace`: find the key or the bucket where it belongs. */
    method TryEmplace(key: K, value: V) returns (idx: nat, inserted: bool)
      requires Valid()
      requires |values| < capacity || shifts > MIN_SHIFTS
      modifies this
      ensures Valid() && maxLoad == old(maxLoad)
      ensures inserted <==> key !in old(Contents())
      ensures Contents() == if inserted then old(Contents())[key := value] else old(Contents())
      ensures idx < |values| && values[idx].0 == key
      ensures if inserted then values == old(values) + [(key, value)] else values == old(values)
      ensures old(CapacityIsRight()) ==> CapacityIsRight()
    {
      SizeBounds();
      var tag := TagOf(hash(key), shifts);
      var d: nat, i: nat := DIST_INC + tag.fp, tag.home;
      ghost var s := 0;
      while true
        invariant unchanged(this) && tag.home < |buckets|
        invariant s <= |buckets| && ProbeAt(key, s, d, i) && Beyond(key, s) && Passed(buckets, tag, s)
        decreases |buckets| - s
      {
        if d == buckets[i].distFp {
          if Hit(key, d, i) {
            var r := Report(i);
            return r.value, false;
          }
        } else if d > buckets[i].distFp {
          EarlyExit(key, s, d, i);
          PlaceElement(key, value, d, i, s);
          return |values| - 1, true;
        }
        Miss(key, s, d, i);
        d, i, s := DistInc(d), Next(|buckets|, i), s + 1;
      }
    }

    method InsertOrAssign(key: K, value: V)
      requires Valid()
      requires |values| < capacity || shifts > MIN_SHIFTS
      modifies this
      ensures Valid() && maxLoad == old(maxLoad)
      ensures Contents() == old(Contents())[key := value]
    {
      var idx, inserted := TryEmplace(key, value);
      if !inserted {
        ToMapAssign(values, idx, value);
        ghost var tags := Tags();
        values := values[idx := (values[idx].0, value)];
        assert Tags() == tags;
      }
    }

    // ----- erasure -----

    /** The entry a bucket holds, or -1. */
    static ghost function Held(x: Bucket): int {
      if x.distFp == 0 then -1 else x.valueIdx
    }

    /** `erase_and_shift_down`: the backward shift; it ends even when every bucket is occupied. From an empty bucket it changes nothing. */
    method EraseAndShiftDown(i: nat, ghost tags: seq<Tag>)
      requires Indexed(buckets, tags, pos) && i < |buckets|
      modifies this`buckets, this`pos
      ensures buckets == Shifted(old(buckets), i)
      ensures |pos| == |tags| && Shape(buckets, tags) && Linked(buckets, pos, old(Held(buckets[i])), -1)
      ensures old(buckets[i].distFp) == 0 ==> buckets == old(buckets) && pos == old(pos)
    {
      Vacate(buckets, tags, pos, i);
      ghost var linked := ShiftedOk(buckets, tags, pos, Held(buckets[i]), i);
      var hole: nat := i;
      var next: nat := Next(|buckets|, hole);
      FieldSumUpdate(buckets, hole, EMPTY);
      while buckets[next].distFp >= 2 * DIST_INC
        invariant |buckets| == old(|buckets|) && hole < |buckets| && next == Next(|buckets|, hole)
        invariant Shifted(buckets, hole) == Shifted(old(buckets), i)
        invariant FieldSum(buckets) >= buckets[hole].distFp
        decreases FieldSum(buckets) - buckets[hole].distFp
      {
        ShiftDownMeasure(buckets, hole);
        buckets := buckets[hole := Bucket(buckets[next].distFp - DIST_INC, buckets[next].valueIdx)];
        hole, next := next, Next(|buckets|, next);
      }
      buckets := buckets[hole := EMPTY];
      pos := linked;
    }

    static lemma Vacate(b: seq<Bucket>, tags: seq<Tag>, pos: seq<nat>, i: nat)
      requires Indexed(b, tags, pos) && i < |b|
      ensures Held(b[i]) < |tags| && Linked(b, pos, Held(b[i]), i)
    {
      assert BucketLinked(b, pos, i, -1);
      forall v | 0 <= v < |pos| && v != Held(b[i]) ensures ValueLinked(b, pos, v, i) {
        assert ValueLinked(b, pos, v, -1);
      }
      forall j | 0 <= j < |b| && j != i ensures BucketLinked(b, pos, j, Held(b[i])) {
        assert BucketLinked(b, pos, j, -1);
      }
    }

    /**
     `do_erase`: unlink the entry of bucket `i`, then let the last pair take its place. From an empty
     bucket, which carries index 0, the pair 0 goes but its bucket stays, and no index fits any more.
     */
    method DoErase(i: nat)
      requires Valid() && i < |buckets| && values != []
      modifies this`values, this`buckets, this`pos
      ensures old(buckets[i].valueIdx) < old(|values|)
      ensures values == old(values[buckets[i].valueIdx := values[|values| - 1]][..|values| - 1])
      ensures old(buckets[i].distFp) != 0 ==> Valid()
      ensures old(buckets[i].distFp) == 0 ==> Unindexed(buckets, Tags())
      ensures Contents() == old(Contents()) - {old(values[buckets[i].valueIdx].0)}
      ensures buckets == old(Without(hash, shifts, values, buckets, i))
    {
      assert BucketOk(|buckets|, Tags(), buckets[i], i);
      var removed := buckets[i].valueIdx;
      ghost var held := Held(buckets[i]);
      ToMapSwapRemove(values, removed);
      ghost var tags := Tags();
      EraseAndShiftDown(i, tags);
      assert Tags() == tags;
      FillGap(removed, held);
    }

    method FillGap(removed: nat, ghost held: int)
      requires shifts <= 64 && removed < |values| == |pos|
      requires Shape(buckets, Tags()) && Linked(buckets, pos, held, -1)
      requires held == removed || (held == -1 && removed == 0)
      requires |buckets| == Pow2(64 - shifts)
      modifies this`values, this`buckets, this`pos
      ensures |buckets| == old(|buckets|)
      ensures if held == removed then Indexed(buckets, Tags(), pos) else Unindexed(buckets, Tags())
      ensures values == old(values[removed := values[|values| - 1]][..|values| - 1])
      ensures buckets == old(Refilled(hash, shifts, values, buckets, removed))
    {
      if removed != |values| - 1 {
        MoveLast(removed, held);
      } else {
        PopLast(held);
      }
    }

    /** The last value takes over the index that has become free. */
    method MoveLast(removed: nat, ghost held: int)
      requires shifts <= 64 && removed < |values| - 1 && |values| == |pos|
      requires Shape(buckets, Tags()) && Linked(buckets, pos, held, -1)
      requires held == removed || (held == -1 && removed == 0)
      requires |buckets| == Pow2(64 - shifts)
      modifies this`values, this`buckets, this`pos
      ensures if held == removed then Indexed(buckets, Tags(), pos) else Unindexed(buckets, Tags())
      ensures values == old(values[removed := values[|values| - 1]][..|values| - 1])
      ensures buckets == old(Refilled(hash, shifts, values, buckets, removed))
    {
      ghost var tags := Tags();
      var last: nat := |values| - 1;
      values := values[removed := values[last]];
      var p := FindIndex(TagOf(hash(values[removed].0), shifts).home, last, tags, held);
      if held == removed { Relabel(buckets, tags, pos, removed, p); }
      MisledByEmpty(buckets, tags, pos, held, last, p);
      buckets := buckets[p := buckets[p].(valueIdx := removed)];
      pos := pos[removed := p][..last];
      values := values[..last];
      assert Tags() == tags[removed := tags[last]][..last];
    }

    method PopLast(ghost held: int)
      requires shifts <= 64 && 0 < |values| == |pos|
      requires Shape(buckets, Tags()) && Linked(buckets, pos, held, -1)
      requires held == |values| - 1 || (held == -1 && |values| == 1)
      modifies this`values, this`pos
      ensures if held == old(|values|) - 1 then Indexed(buckets, Tags(), pos) else Unindexed(buckets, Tags())
      ensures values == old(values[..|values| - 1])
    {
      ghost var tags := Tags();
      var last: nat := |values| - 1;
      if held == last { DropLast(buckets, tags, pos); } else { StaysOccupied(buckets, tags, pos); }
      pos := pos[..last];
      values := values[..last];
      assert Tags() == tags[..last];
    }

    /** The search for a bucket by value index alone, as `do_erase` and `erase(iterator)` do it. */
    method FindIndex(start: nat, v: nat, ghost tags: seq<Tag>, ghost out: int) returns (p: nat)
      requires Shape(buckets, tags) && |pos| == |tags| && Linked(buckets, pos, out, -1)
      requires v < |tags| && v != out && start < |buckets|
      ensures FirstWithIndex(buckets, start, v, p) && p == Located(buckets, start, v, 0)
      ensures p == pos[v] && buckets[p].distFp != 0 <==> v > 0 || NoGap(buckets, start, pos[v])
    {
      p := start;
      assert ValueLinked(buckets, pos, v, -1);
      ghost var s := 0;
      while buckets[p].valueIdx != v
        invariant s <= Dist(|buckets|, start, pos[v]) && p == At(|buckets|, start, s)
        invariant forall t :: 0 <= t < s ==> buckets[At(|buckets|, start, t)].valueIdx != v
        invariant Located(buckets, start, v, s) == Located(buckets, start, v, 0)
        decreases Dist(|buckets|, start, pos[v]) - s
      {
        if s == Dist(|buckets|, start, pos[v]) {
          assert false;
        }
        p, s := Next(|buckets|, p), s + 1;
      }
      SearchByIndex(buckets, tags, pos, out, start, v, p);
    }

    /** The search of `do_erase_key`. */
    method FindToErase(key: K) returns (i: nat, found: bool)
      requires Valid()
      ensures found == (key in Contents())
      ensures found ==> i < |buckets| && buckets[i].distFp != 0
      ensures found ==> buckets[i].valueIdx < |values| && values[buckets[i].valueIdx].0 == key
    {
      SizeBounds();
      ghost var s: nat;
      var d: nat;
      d, i, s := NextWhileLess(key, Tags());
      RicherIsBeyond(key, s);
      while d == buckets[i].distFp && !Hit(key, d, i)
        invariant s <= |buckets| && ProbeAt(key, s, d, i) && Beyond(key, s) && buckets[i].distFp <= d
        decreases |buckets| - s
      {
        assert OrderedAt(buckets, Next(|buckets|, i));
        Miss(key, s, d, i);
        d, i, s := DistInc(d), Next(|buckets|, i), s + 1;
      }
      if d != buckets[i].distFp {
        EarlyExit(key, s, d, i);
        return i, false;
      }
      HitIndex(i);
      PresentKey(buckets[i].valueIdx);
      return i, true;
    }

    /** `do_erase_key`. */
    method Erase(key: K) returns (count: nat)
      requires Valid()
      modifies this`values, this`buckets, this`pos
      ensures Valid() && Contents() == old(Contents()) - {key}
      ensures count == if key in old(Contents()) then 1 else 0
    {
      if values == [] {
        return 0;
      }
      var i, found := FindToErase(key);
      if !found {
        return 0;
      }
      DoErase(i);
      return 1;
    }

    lemma RicherIsBeyond(key: K, s: nat)
      requires Valid() && s <= |buckets|
      requires var tag := TagOf(hash(key), shifts);
               forall t :: 0 <= t < s ==> buckets[At(|buckets|, tag.home, t)].distFp > DIST_INC * (1 + t) + tag.fp
      ensures Beyond(key, s)
    {
      var h := TagOf(hash(key), shifts).home;
      forall v | 0 <= v < |values| && values[v].0 == key ensures s <= Dist(|buckets|, h, pos[v]) {
        assert ValueLinked(buckets, pos, v, -1);
        assert BucketOk(|buckets|, Tags(), buckets[pos[v]], pos[v]);
        assert At(|buckets|, h, Dist(|buckets|, h, pos[v])) == pos[v];
      }
    }

    /**
     `erase(iterator)` when the key at the iterator hashes to bucket `start`, as it is or as a move has
     left it. The pair goes; the rest stays a table exactly when the search met no empty bucket for index 0.
     */
    method EraseFrom(start: nat, v: nat)
      requires Valid() && v < |values| && start < |buckets|
      modifies this`values, this`buckets, this`pos
      ensures values == old(values[v := values[|values| - 1]][..|values| - 1])
      ensures Contents() == old(Contents()) - {old(values[v].0)}
      ensures !Unindexed(buckets, Tags()) <==> old(v > 0 || NoGap(buckets, start, pos[v]))
      ensures old(v > 0 || NoGap(buckets, start, pos[v])) ==> Valid()
      ensures old(buckets[Located(buckets, start, v, 0)].distFp != 0) == old(v > 0 || NoGap(buckets, start, pos[v]))
      ensures buckets == old(Without(hash, shifts, values, buckets, Located(buckets, start, v, 0)))
    {
      var p := FindIndex(start, v, Tags(), -1);
      ghost var found := p == pos[v] && buckets[p].distFp != 0;
      assert BucketLinked(buckets, pos, p, -1);
      DoErase(p);
      assert found ==> Indexed(buckets, Tags(), pos);
    }

    /** With an intact key at the iterator exactly that key goes. */
    method EraseAt(v: nat)
      requires Valid() && v < |values|
      modifies this`values, this`buckets, this`pos
      ensures Valid() && Contents() == old(Contents()) - {old(values[v].0)}
    {
      HomeHasNoGap(buckets, Tags(), pos, v);
      EraseFrom(TagOf(hash(values[v].0), shifts).home, v);
    }

    // ----- moving entries to another table -----

    /** One turn of the transfer: the entry is inserted by move into `made` and erased here. */
    method MoveOne(made: Table<K, V>, key: K) returns (ok: bool)
      requires Valid() && made.Valid() && made != this && made.CapacityIsRight() && key !in made.Contents()
      requires |made.values| < made.capacity || made.shifts > MIN_SHIFTS
      modifies this`values, this`buckets, this`pos, made
      ensures made.Valid() && made.CapacityIsRight() && made.maxLoad == old(made.maxLoad)
      ensures |made.values| <= old(|made.values|) + 1
      ensures if ok then Valid() else Unindexed(buckets, Tags())
      ensures Contents() == old(Contents()) - {key}
      ensures made.Contents() ==
              if key in old(Contents()) then old(made.Contents())[key := old(Contents()[key])] else old(made.Contents())
      ensures ok == old(TurnOk(values, buckets, key)) && values == old(TurnValues(values, key))
      ensures buckets == old(TurnBuckets(hash, shifts, values, buckets, key))
    {
      SizeBounds();
      var it := Find(key);
      if it.None? {
        PositionAbsent(values, key);
        return true;
      }
      var v := it.value;
      PositionIs(values, v);
      var _, _ := made.TryEmplace(key, values[v].1);
      ok := EraseMoved(v);
    }

    /** `erase(iterator)` when the key at the iterator has been moved away and hashes to 0. */
    method EraseMoved(v: nat) returns (ok: bool)
      requires Valid() && v < |values| && Position(values, values[v].0) == v
      modifies this`values, this`buckets, this`pos
      ensures if ok then Valid() else Unindexed(buckets, Tags())
      ensures Contents() == old(Contents()) - {old(values[v].0)}
      ensures ok == old(TurnOk(values, buckets, values[v].0)) && values == old(TurnValues(values, values[v].0))
      ensures buckets == old(TurnBuckets(hash, shifts, values, buckets, values[v].0))
    {
      SizeBounds();
      var p := FindIndex(0, v, Tags(), -1);
      ok := buckets[p].distFp != 0;
      EraseFrom(0, v);
    }

    /** The transfer is before item `i`. */
    ghost predicate Between(made: Table<K, V>, items: seq<K>, i: nat, upper: K -> bool, all: map<K, V>)
      reads this, made
    {
      && Valid() && made.Valid() && made != this && made.CapacityIsRight() && Lists(items, all)
      && |made.values| <= i <= |items| <= CapacityFor(Pow2(64 - MIN_SHIFTS), made.maxLoad)
      && Moved(all, upper, items[..i], Contents(), made.Contents())
    }

    lemma BetweenSkips(made: Table<K, V>, items: seq<K>, i: nat, upper: K -> bool, all: map<K, V>)
      requires Between(made, items, i, upper, all) && i < |items| && !upper(items[i])
      ensures Between(made, items, i + 1, upper, all)
    {
      NotMoved(all, upper, items, i, Contents(), made.Contents());
    }

    /** The turn of an upper key. */
    method MoveNext(made: Table<K, V>, items: seq<K>, i: nat, upper: K -> bool, ghost all: map<K, V>) returns (ok: bool)
      requires Between(made, items, i, upper, all) && i < |items| && upper(items[i])
      modifies this`values, this`buckets, this`pos, made
      ensures ok ==> Between(made, items, i + 1, upper, all)
      ensures ok == old(TurnOk(values, buckets, items[i])) && values == old(TurnValues(values, items[i]))
      ensures buckets == old(TurnBuckets(hash, shifts, values, buckets, items[i]))
      ensures !ok ==> Unindexed(buckets, Tags())
    {
      MovedNext(all, upper, items, i, Contents(), made.Contents());
      made.StillRoom(|items|);
      ok := MoveOne(made, items[i]);
    }

    /** One turn of the loop. */
    method MoveTurn(made: Table<K, V>, items: seq<K>, i: nat, upper: K -> bool, ghost all: map<K, V>, ghost survives: bool)
      returns (ok: bool)
      requires Between(made, items, i, upper, all) && i < |items|
      requires survives == Survives(hash, shifts, values, buckets, items[i..], upper)
      modifies this`values, this`buckets, this`pos, made
      ensures ok ==> Between(made, items, i + 1, upper, all)
      ensures ok ==> survives == Survives(hash, shifts, values, buckets, items[i + 1..], upper)
      ensures !ok ==> !survives && Unindexed(buckets, Tags())
    {
      SurvivesNext(hash, shifts, values, buckets, items, i, upper);
      if upper(items[i]) {
        ok := MoveNext(made, items, i, upper, all);
      } else {
        BetweenSkips(made, items, i, upper, all);
        ok := true;
      }
    }

    /**
     The transfer loop of `SplitSegment` on the table of a segment; `items` are its keys. Every turn
     leaves a table exactly when the state before the loop says so, and then the entries are divided.
     At the first turn that does not, the loop is left: from there on the source reads stale buckets.
     */
    method MoveUpper(made: Table<K, V>, items: seq<K>, upper: K -> bool) returns (ok: bool)
      requires Valid() && made.Valid() && made != this && made.CapacityIsRight() && made.values == []
      requires |items| == |values| && forall i :: 0 <= i < |items| ==> items[i] == values[i].0
      requires |values| <= CapacityFor(Pow2(64 - MIN_SHIFTS), made.maxLoad)
      modifies this`values, this`buckets, this`pos, made
      ensures ok <==> old(Survives(hash, shifts, values, buckets, items, upper))
      ensures if ok then Valid() else Unindexed(buckets, Tags())
      ensures ok ==> made.Valid() && Divided(old(Contents()), upper, Contents(), made.Contents())
    {
      ghost var all, survives := Contents(), Survives(hash, shifts, values, buckets, items, upper);
      KeysList(values, items);
      assert items[0..] == items;
      for i := 0 to |items|
        invariant Between(made, items, i, upper, all)
        invariant survives == Survives(hash, shifts, values, buckets, items[i..], upper)
      {
        ok := MoveTurn(made, items, i, upper, all, survives);
        if !ok {
          return false;
        }
      }
      MovedAll(all, upper, items, Contents(), made.Contents());
      return true;
    }

    lemma StillRoom(n: nat)
      requires Valid() && CapacityIsRight() && |values| < n <= CapacityFor(Pow2(64 - MIN_SHIFTS), maxLoad)
      ensures |values| < capacity || shifts > MIN_SHIFTS
    {
    }
  }
}
