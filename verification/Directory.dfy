/**
 The extendible-hashing directory as a value: what each slot shows. Slots that
 share a segment object show equal segments; a segment is known by its id, the
 first slot of the aligned run it owns.
 */
module Directory {
  import opened Powers

  /** 32-bit slot numbers allow prefixes of up to 31 bits. */
  const MAX_DEPTH: nat := 31

  datatype Seg<K, V> = Seg(table: map<K, V>, depth: nat, id: nat, version: nat)

  datatype Dir<K, V> = Dir(depth: nat, slots: seq<Seg<K, V>>)

  function Index<K>(hash: K -> Hash64, depth: nat, key: K): (i: nat)
    requires depth <= 64
    ensures i < Pow2(depth)
  {
    Prefix(hash(key), depth)
  }

  // ----- the directory invariant -----

  /** The slot's segment has a prefix length the directory covers, and its id is the start of its aligned run. */
  ghost predicate IdOk<K, V>(d: Dir<K, V>, i: nat)
    requires i < |d.slots|
  {
    d.slots[i].depth <= d.depth && d.slots[i].id == AlignDown(i, d.depth - d.slots[i].depth)
  }

  /** All slots of the run show the same segment. */
  ghost predicate RunOk<K, V>(d: Dir<K, V>, i: nat)
    requires i < |d.slots| && d.slots[i].depth <= d.depth
  {
    forall j :: d.slots[i].id <= j < d.slots[i].id + Pow2(d.depth - d.slots[i].depth) && j < |d.slots| ==>
      d.slots[j] == d.slots[i]
  }

  /** The segment's keys are addressed within the run. */
  ghost predicate KeysOk<K(!new), V>(hash: K -> Hash64, d: Dir<K, V>, i: nat)
    requires d.depth <= 64 && i < |d.slots| && d.slots[i].depth <= d.depth
  {
    forall k :: k in d.slots[i].table ==>
      d.slots[i].id <= Index(hash, d.depth, k) < d.slots[i].id + Pow2(d.depth - d.slots[i].depth)
  }

  ghost predicate SlotOk<K(!new), V>(hash: K -> Hash64, d: Dir<K, V>, i: nat)
    requires d.depth <= 64 && i < |d.slots|
  {
    IdOk(d, i) && RunOk(d, i) && KeysOk(hash, d, i)
  }

  ghost predicate Valid<K(!new), V>(hash: K -> Hash64, d: Dir<K, V>) {
    && d.depth <= MAX_DEPTH
    && |d.slots| == Pow2(d.depth)
    && (forall i {:trigger SlotOk(hash, d, i)} :: 0 <= i < |d.slots| ==> SlotOk(hash, d, i))
  }

  /** Two slots of one id are in one run. */
  lemma SameRun<K(!new), V>(hash: K -> Hash64, d: Dir<K, V>, i: nat, j: nat)
    requires Valid(hash, d) && i < |d.slots| && j < |d.slots|
    ensures d.slots[i].depth <= d.depth
    ensures d.slots[i].id <= i < d.slots[i].id + Pow2(d.depth - d.slots[i].depth) <= |d.slots|
    ensures d.slots[j].id == d.slots[i].id <==>
            d.slots[i].id <= j < d.slots[i].id + Pow2(d.depth - d.slots[i].depth)
    ensures d.slots[j].id == d.slots[i].id ==> d.slots[j] == d.slots[i]
  {
    assert SlotOk(hash, d, i) && SlotOk(hash, d, j);
    var k, m := d.depth - d.slots[i].depth, d.depth - d.slots[j].depth;
    AlignFits(i, k, d.depth);
    AlignBlock(i, i, k);
    AlignBlock(j, j, m);
    if d.slots[j].id == d.slots[i].id {
      assert d.slots[d.slots[i].id] == d.slots[i];
      assert d.slots[d.slots[j].id] == d.slots[j];
    }
  }

  // ----- the map it stands for -----

  ghost function KeySet<K, V>(d: Dir<K, V>): set<K> {
    set i, k | 0 <= i < |d.slots| && k in d.slots[i].table :: k
  }

  /** `m` holds exactly what looking up each key in its segment finds. */
  ghost predicate Represents<K(!new), V>(hash: K -> Hash64, d: Dir<K, V>, m: map<K, V>)
    requires d.depth <= 64 && |d.slots| == Pow2(d.depth)
  {
    forall k {:trigger k in m} ::
      && (k in m <==> k in d.slots[Index(hash, d.depth, k)].table)
      && (k in m ==> m[k] == d.slots[Index(hash, d.depth, k)].table[k])
  }

  lemma SomethingRepresents<K(!new), V>(hash: K -> Hash64, d: Dir<K, V>)
    requires Valid(hash, d)
    ensures exists m :: Represents(hash, d, m)
  {
    KeysAtHome(hash, d);
    var m := map k | k in KeySet(d) :: d.slots[Index(hash, d.depth, k)].table[k];
    assert Represents(hash, d, m);
  }

  /** The finite map the directory stands for. */
  ghost function Contents<K(!new), V>(hash: K -> Hash64, d: Dir<K, V>): (m: map<K, V>)
    requires Valid(hash, d)
    ensures Represents(hash, d, m)
  {
    SomethingRepresents(hash, d);
    var m :| Represents(hash, d, m);
    m
  }

  /** Every stored key is in the segment its hash prefix selects. */
  lemma KeysAtHome<K(!new), V>(hash: K -> Hash64, d: Dir<K, V>)
    requires Valid(hash, d)
    ensures forall i, k :: 0 <= i < |d.slots| && k in d.slots[i].table ==> d.slots[Index(hash, d.depth, k)] == d.slots[i]
  {
    forall i, k | 0 <= i < |d.slots| && k in d.slots[i].table
      ensures d.slots[Index(hash, d.depth, k)] == d.slots[i]
    {
      assert SlotOk(hash, d, i);
    }
  }

  // ----- changing one segment in place -----

  /** Every slot that shows segment `id` now shows `s`. */
  function Replace<K, V>(d: Dir<K, V>, id: nat, s: Seg<K, V>): (d': Dir<K, V>) {
    d.(slots := seq(|d.slots|, i requires 0 <= i < |d.slots| => if d.slots[i].id == id then s else d.slots[i]))
  }

  /** A new table and version for the segment at slot `i`, with keys that belong there. */
  lemma ReplaceOk<K(!new), V>(hash: K -> Hash64, d: Dir<K, V>, i: nat, table: map<K, V>, version: nat)
    requires Valid(hash, d) && i < |d.slots|
    requires forall k :: k in table ==> k in d.slots[i].table || d.slots[Index(hash, d.depth, k)].id == d.slots[i].id
    ensures Valid(hash, Replace(d, d.slots[i].id, d.slots[i].(table := table, version := version)))
  {
    var s := d.slots[i].(table := table, version := version);
    var d' := Replace(d, d.slots[i].id, s);
    forall j | 0 <= j < |d.slots| ensures SlotOk(hash, d', j) {
      assert SlotOk(hash, d, j);
      ReplaceSlot(hash, d, i, table, version, j);
    }
  }

  lemma ReplaceSlot<K(!new), V>(hash: K -> Hash64, d: Dir<K, V>, i: nat, table: map<K, V>, version: nat, j: nat)
    requires Valid(hash, d) && i < |d.slots| && j < |d.slots| && SlotOk(hash, d, j)
    requires forall k :: k in table ==> k in d.slots[i].table || d.slots[Index(hash, d.depth, k)].id == d.slots[i].id
    ensures SlotOk(hash, Replace(d, d.slots[i].id, d.slots[i].(table := table, version := version)), j)
  {
    var d' := Replace(d, d.slots[i].id, d.slots[i].(table := table, version := version));
    assert SlotOk(hash, d, i);
    SameRun(hash, d, i, j);
    assert IdOk(d', j);
    forall k | k in d'.slots[j].table
      ensures d.slots[j].id <= Index(hash, d.depth, k) < d.slots[j].id + Pow2(d.depth - d.slots[j].depth)
    {
      if k !in d.slots[j].table { SameRun(hash, d, j, Index(hash, d.depth, k)); }
    }
  }

  function Put<K, V>(hash: K -> Hash64, d: Dir<K, V>, key: K, value: V): (d': Dir<K, V>)
    requires d.depth <= 64 && |d.slots| == Pow2(d.depth)
  {
    var s := d.slots[Index(hash, d.depth, key)];
    Replace(d, s.id, s.(table := s.table[key := value]))
  }

  function Remove<K, V>(hash: K -> Hash64, d: Dir<K, V>, key: K): (d': Dir<K, V>)
    requires d.depth <= 64 && |d.slots| == Pow2(d.depth)
  {
    var s := d.slots[Index(hash, d.depth, key)];
    Replace(d, s.id, s.(table := s.table - {key}))
  }

  function SetVersion<K, V>(d: Dir<K, V>, i: nat, version: nat): (d': Dir<K, V>)
    requires i < |d.slots|
  {
    Replace(d, d.slots[i].id, d.slots[i].(version := version))
  }

  lemma PutOk<K(!new), V>(hash: K -> Hash64, d: Dir<K, V>, key: K, value: V)
    requires Valid(hash, d)
    ensures Valid(hash, Put(hash, d, key, value))
    ensures Contents(hash, Put(hash, d, key, value)) == Contents(hash, d)[key := value]
  {
    var i := Index(hash, d.depth, key);
    ReplaceOk(hash, d, i, d.slots[i].table[key := value], d.slots[i].version);
    var d' := Put(hash, d, key, value);
    var m, m' := Contents(hash, d)[key := value], Contents(hash, d');
    forall k ensures (k in m <==> k in m') && (k in m ==> m[k] == m'[k]) {
      SameRun(hash, d, i, Index(hash, d.depth, k));
    }
  }

  lemma RemoveOk<K(!new), V>(hash: K -> Hash64, d: Dir<K, V>, key: K)
    requires Valid(hash, d)
    ensures Valid(hash, Remove(hash, d, key))
    ensures Contents(hash, Remove(hash, d, key)) == Contents(hash, d) - {key}
  {
    var i := Index(hash, d.depth, key);
    ReplaceOk(hash, d, i, d.slots[i].table - {key}, d.slots[i].version);
    var m, m' := Contents(hash, d), Contents(hash, Remove(hash, d, key));
    forall k ensures k in m' <==> k in m && k != key
      ensures k in m' ==> m'[k] == m[k]
    {
      SameRun(hash, d, i, Index(hash, d.depth, k));
    }
    assert m' == m - {key};
  }

  lemma SetVersionOk<K(!new), V>(hash: K -> Hash64, d: Dir<K, V>, i: nat, version: nat)
    requires Valid(hash, d) && i < |d.slots|
    ensures Valid(hash, SetVersion(d, i, version))
    ensures Contents(hash, SetVersion(d, i, version)) == Contents(hash, d)
  {
    ReplaceOk(hash, d, i, d.slots[i].table, version);
    var d' := SetVersion(d, i, version);
    var m, m' := Contents(hash, d), Contents(hash, d');
    forall k ensures (k in m <==> k in m') && (k in m ==> m[k] == m'[k]) {
      SameRun(hash, d, i, Index(hash, d.depth, k));
    }
  }

  /** Every segment emptied. */
  function Cleared<K, V>(d: Dir<K, V>): (d': Dir<K, V>) {
    d.(slots := seq(|d.slots|, i requires 0 <= i < |d.slots| => d.slots[i].(table := map[])))
  }

  lemma ClearedOk<K(!new), V>(hash: K -> Hash64, d: Dir<K, V>)
    requires Valid(hash, d)
    ensures Valid(hash, Cleared(d)) && Contents(hash, Cleared(d)) == map[]
  {
    var d' := Cleared(d);
    forall i | 0 <= i < |d.slots| ensures SlotOk(hash, d', i) {
      assert SlotOk(hash, d, i);
      assert RunOk(d', i);
    }
    assert forall k :: k !in Contents(hash, d');
  }

  // ----- doubling -----

  /** Every slot becomes two; a segment's run is now twice as long and starts at twice its id. */
  function Double<K, V>(d: Dir<K, V>): (d': Dir<K, V>) {
    Dir(d.depth + 1, seq(2 * |d.slots|, j requires 0 <= j < 2 * |d.slots| =>
                           d.slots[j / 2].(id := 2 * d.slots[j / 2].id)))
  }

  lemma IndexDoubles<K>(hash: K -> Hash64, depth: nat, key: K)
    requires depth < 64
    ensures Index(hash, depth + 1, key) / 2 == Index(hash, depth, key)
  {
    ShiftHalf(hash(key), 63 - depth);
  }

  lemma DoubleSlot<K(!new), V>(hash: K -> Hash64, d: Dir<K, V>, j: nat)
    requires d.depth < MAX_DEPTH && j < 2 * |d.slots| && SlotOk(hash, d, j / 2)
    ensures SlotOk(hash, Double(d), j)
  {
    var d', i := Double(d), j / 2;
    var k := d.depth - d.slots[i].depth;
    assert Pow2(k + 1) == 2 * Pow2(k);
    assert IdOk(d', j) by {
      assert AlignDown(j, k + 1) == 2 * AlignDown(j / 2, k);
    }
    forall l | d'.slots[j].id <= l < d'.slots[j].id + Pow2(k + 1) && l < |d'.slots|
      ensures d'.slots[l] == d'.slots[j]
    {
      assert d.slots[l / 2] == d.slots[i];
    }
    forall key | key in d'.slots[j].table
      ensures d'.slots[j].id <= Index(hash, d'.depth, key) < d'.slots[j].id + Pow2(k + 1)
    {
      IndexDoubles(hash, d.depth, key);
    }
  }

  lemma DoubleOk<K(!new), V>(hash: K -> Hash64, d: Dir<K, V>)
    requires Valid(hash, d) && d.depth < MAX_DEPTH
    ensures Valid(hash, Double(d)) && Contents(hash, Double(d)) == Contents(hash, d)
  {
    var d' := Double(d);
    forall j | 0 <= j < |d'.slots| ensures SlotOk(hash, d', j) {
      assert SlotOk(hash, d, j / 2);
      DoubleSlot(hash, d, j);
    }
    var m, m' := Contents(hash, d), Contents(hash, d');
    forall k ensures (k in m <==> k in m') && (k in m ==> m[k] == m'[k]) {
      IndexDoubles(hash, d.depth, k);
    }
  }

  // ----- splitting a segment whose run has at least two slots -----

  function Lower<K(!new), V>(hash: K -> Hash64, depth: nat, s: Seg<K, V>, mid: nat): (r: Seg<K, V>)
    requires depth <= 64
  {
    s.(depth := s.depth + 1, table := map k | k in s.table && Index(hash, depth, k) < mid :: s.table[k])
  }

  function Upper<K(!new), V>(hash: K -> Hash64, depth: nat, s: Seg<K, V>, mid: nat): (r: Seg<K, V>)
    requires depth <= 64
  {
    Seg(map k | k in s.table && Index(hash, depth, k) >= mid :: s.table[k], s.depth + 1, mid, s.version)
  }

  function Mid<K, V>(d: Dir<K, V>, s: Seg<K, V>): nat
    requires s.depth < d.depth
  {
    s.id + Pow2(d.depth - s.depth - 1)
  }

  function Split<K(!new), V>(hash: K -> Hash64, d: Dir<K, V>, i: nat): (d': Dir<K, V>)
    requires d.depth <= 64 && i < |d.slots| && d.slots[i].depth < d.depth
  {
    var s := d.slots[i];
    var mid := Mid(d, s);
    d.(slots := seq(|d.slots|, j requires 0 <= j < |d.slots| =>
                      if d.slots[j].id != s.id then d.slots[j]
                      else if j < mid then Lower(hash, d.depth, s, mid)
                      else Upper(hash, d.depth, s, mid)))
  }

  lemma SplitIds<K(!new), V>(hash: K -> Hash64, d: Dir<K, V>, i: nat, j: nat)
    requires Valid(hash, d) && i < |d.slots| && j < |d.slots| && d.slots[i].depth < d.depth
    requires d.slots[j].id == d.slots[i].id
    ensures IdOk(Split(hash, d, i), j)
  {
    assert SlotOk(hash, d, j);
    SameRun(hash, d, i, j);
    AlignHalf(j, d.depth - d.slots[i].depth);
  }

  lemma SplitKeys<K(!new), V>(hash: K -> Hash64, d: Dir<K, V>, i: nat, j: nat)
    requires Valid(hash, d) && i < |d.slots| && j < |d.slots| && d.slots[i].depth < d.depth
    requires d.slots[j].id == d.slots[i].id && IdOk(Split(hash, d, i), j)
    ensures KeysOk(hash, Split(hash, d, i), j)
  {
    assert SlotOk(hash, d, i);
    SameRun(hash, d, i, j);
  }

  lemma SplitInRun<K(!new), V>(hash: K -> Hash64, d: Dir<K, V>, i: nat, j: nat)
    requires Valid(hash, d) && i < |d.slots| && j < |d.slots| && d.slots[i].depth < d.depth
    requires d.slots[j].id == d.slots[i].id
    ensures SlotOk(hash, Split(hash, d, i), j)
  {
    var d', k := Split(hash, d, i), d.depth - d.slots[i].depth;
    SplitIds(hash, d, i, j);
    SplitKeys(hash, d, i, j);
    SameRun(hash, d, i, j);
    AlignHalf(j, k);
    var from := d'.slots[j].id;
    forall l | from <= l < from + Pow2(k - 1) && l < |d.slots| ensures d'.slots[l] == d'.slots[j] {
      SameRun(hash, d, i, l);
    }
  }

  lemma SplitOtherRun<K(!new), V>(hash: K -> Hash64, d: Dir<K, V>, i: nat, j: nat)
    requires Valid(hash, d) && i < |d.slots| && j < |d.slots| && d.slots[i].depth < d.depth
    requires d.slots[j].id != d.slots[i].id
    ensures SlotOk(hash, Split(hash, d, i), j)
  {
    var d' := Split(hash, d, i);
    assert SlotOk(hash, d, j);
    assert IdOk(d', j);
    forall l | d.slots[j].id <= l < d.slots[j].id + Pow2(d.depth - d.slots[j].depth) && l < |d.slots|
      ensures d'.slots[l] == d'.slots[j]
    {
      assert d.slots[l] == d.slots[j];
    }
    assert KeysOk(hash, d', j);
  }

  /** Splitting neither loses nor duplicates an entry: the map is the same. */
  lemma SplitOk<K(!new), V>(hash: K -> Hash64, d: Dir<K, V>, i: nat)
    requires Valid(hash, d) && i < |d.slots| && d.slots[i].depth < d.depth
    ensures Valid(hash, Split(hash, d, i)) && Contents(hash, Split(hash, d, i)) == Contents(hash, d)
  {
    var d' := Split(hash, d, i);
    forall j | 0 <= j < |d.slots| ensures SlotOk(hash, d', j) {
      if d.slots[j].id == d.slots[i].id { SplitInRun(hash, d, i, j); } else { SplitOtherRun(hash, d, i, j); }
    }
    var m, m' := Contents(hash, d), Contents(hash, d');
    forall k ensures (k in m <==> k in m') && (k in m ==> m[k] == m'[k]) {
      SameRun(hash, d, i, Index(hash, d.depth, k));
    }
  }

  // ----- insertion: put, then split while the key's segment is full -----

  /** `SplitSegment`: double first when the segment has the whole prefix to itself. */
  function SplitOnce<K(!new), V>(hash: K -> Hash64, d: Dir<K, V>, i: nat): (d': Dir<K, V>)
    requires Valid(hash, d) && i < |d.slots| && d.slots[i].depth < MAX_DEPTH
  {
    SameRun(hash, d, i, i);
    if d.slots[i].depth == d.depth then Split(hash, Double(d), 2 * d.slots[i].id) else Split(hash, d, i)
  }

  /** Slot `j` of `d'` shows a part of what its ancestor slot in `d` showed: same version, no shorter prefix. */
  ghost predicate SlotDescends<K, V>(d: Dir<K, V>, d': Dir<K, V>, j: nat)
    requires d.depth <= d'.depth && j < |d'.slots|
  {
    var i := ShiftRight(j, d'.depth - d.depth);
    i < |d.slots| && d'.slots[j].version == d.slots[i].version && d'.slots[j].depth >= d.slots[i].depth
  }

  ghost predicate Descends<K, V>(d: Dir<K, V>, d': Dir<K, V>) {
    && d.depth <= d'.depth
    && forall j {:trigger SlotDescends(d, d', j)} :: 0 <= j < |d'.slots| ==> SlotDescends(d, d', j)
  }

  lemma DescendsTransitive<K, V>(a: Dir<K, V>, b: Dir<K, V>, c: Dir<K, V>)
    requires Descends(a, b) && Descends(b, c)
    ensures Descends(a, c)
  {
    forall j | 0 <= j < |c.slots| ensures SlotDescends(a, c, j) {
      assert SlotDescends(b, c, j);
      var m := ShiftRight(j, c.depth - b.depth);
      assert SlotDescends(a, b, m);
      ShiftTwice(j, c.depth - b.depth, b.depth - a.depth);
    }
  }

  lemma DoubleDescends<K, V>(d: Dir<K, V>)
    ensures Descends(d, Double(d))
  {
    forall j | 0 <= j < 2 * |d.slots| ensures SlotDescends(d, Double(d), j) {
      assert ShiftRight(j, 1) == ShiftRight(j / 2, 0);
    }
  }

  lemma SplitOnceOk<K(!new), V>(hash: K -> Hash64, d: Dir<K, V>, key: K)
    requires Valid(hash, d) && d.slots[Index(hash, d.depth, key)].depth < MAX_DEPTH
    ensures var i := Index(hash, d.depth, key);
            var d' := SplitOnce(hash, d, i);
            && Valid(hash, d') && Contents(hash, d') == Contents(hash, d) && Descends(d, d')
            && d'.slots[Index(hash, d'.depth, key)].depth == d.slots[i].depth + 1
  {
    var i := Index(hash, d.depth, key);
    SameRun(hash, d, i, i);
    if d.slots[i].depth == d.depth {
      DoubleOk(hash, d);
      var dd := Double(d);
      DoubleDescends(d);
      IndexDoubles(hash, d.depth, key);
      SplitPart(hash, dd, 2 * d.slots[i].id, Index(hash, dd.depth, key));
      DescendsTransitive(d, dd, Split(hash, dd, 2 * d.slots[i].id));
    } else {
      SplitPart(hash, d, i, i);
    }
  }

  lemma SplitPart<K(!new), V>(hash: K -> Hash64, d: Dir<K, V>, i: nat, j: nat)
    requires Valid(hash, d) && i < |d.slots| && j < |d.slots| && d.slots[i].depth < d.depth
    requires d.slots[j].id == d.slots[i].id
    ensures var d' := Split(hash, d, i);
            && Valid(hash, d') && Contents(hash, d') == Contents(hash, d) && Descends(d, d')
            && d'.slots[j].depth == d.slots[i].depth + 1
  {
    SplitOk(hash, d, i);
    forall l | 0 <= l < |d.slots| ensures SlotDescends(d, Split(hash, d, i), l) {
      SameRun(hash, d, i, l);
    }
  }

  /** The loop of `Insert`: it would go on past 31 bits only if the segment were still full there. */
  function SplitWhileFull<K(!new), V>(hash: K -> Hash64, threshold: nat, d: Dir<K, V>, key: K): (d': Dir<K, V>)
    requires Valid(hash, d)
    ensures Valid(hash, d') && Contents(hash, d') == Contents(hash, d) && Descends(d, d')
    decreases MAX_DEPTH - d.slots[Index(hash, d.depth, key)].depth
  {
    var i := Index(hash, d.depth, key);
    if |d.slots[i].table| >= threshold && d.slots[i].depth < MAX_DEPTH then
      SplitOnceOk(hash, d, key);
      var next := SplitOnce(hash, d, i);
      var d' := SplitWhileFull(hash, threshold, next, key);
      DescendsTransitive(d, next, d');
      d'
    else d
  }

  function Insert<K(!new), V>(hash: K -> Hash64, threshold: nat, d: Dir<K, V>, key: K, value: V): (d': Dir<K, V>)
    requires Valid(hash, d)
    ensures Valid(hash, d') && Contents(hash, d') == Contents(hash, d)[key := value] && Descends(d, d')
  {
    PutOk(hash, d, key, value);
    PutDescends(hash, d, key, value);
    var p := Put(hash, d, key, value);
    DescendsTransitive(d, p, SplitWhileFull(hash, threshold, p, key));
    SplitWhileFull(hash, threshold, p, key)
  }

  lemma PutDescends<K(!new), V>(hash: K -> Hash64, d: Dir<K, V>, key: K, value: V)
    requires Valid(hash, d)
    ensures Descends(d, Put(hash, d, key, value))
  {
    forall j | 0 <= j < |d.slots| ensures SlotDescends(d, Put(hash, d, key, value), j) {
      SameRun(hash, d, Index(hash, d.depth, key), j);
    }
  }

  // ----- how far the splitting goes -----

  ghost function Sharing<K(!new)>(hash: K -> Hash64, keys: set<K>, key: K, depth: nat): set<K>
    requires depth <= 64
  {
    set k | k in keys && Prefix(hash(k), depth) == Prefix(hash(key), depth)
  }

  lemma PrefixOfPrefix(h: Hash64, g: Hash64, shorter: nat, longer: nat)
    requires shorter <= longer <= 64 && Prefix(h, longer) == Prefix(g, longer)
    ensures Prefix(h, shorter) == Prefix(g, shorter)
  {
    ShiftTwice(h, 64 - longer, longer - shorter);
    ShiftTwice(g, 64 - longer, longer - shorter);
  }

  /** A key's segment holds exactly the stored keys that share its leading `depth` bits. */
  lemma SegmentIsPrefixClass<K(!new), V>(hash: K -> Hash64, d: Dir<K, V>, key: K)
    requires Valid(hash, d)
    ensures var s := d.slots[Index(hash, d.depth, key)];
            s.depth <= d.depth && s.table.Keys == Sharing(hash, Contents(hash, d).Keys, key, s.depth)
  {
    var i := Index(hash, d.depth, key);
    var s := d.slots[i];
    SameRun(hash, d, i, i);
    forall k ensures k in s.table <==> k in Contents(hash, d) && Prefix(hash(k), s.depth) == Prefix(hash(key), s.depth) {
      var j := Index(hash, d.depth, k);
      KeysAtHome(hash, d);
      SameRun(hash, d, i, j);
      assert SlotOk(hash, d, i);
      AlignBlock(i, j, d.depth - s.depth);
      ShiftTwice(hash(k), 64 - d.depth, d.depth - s.depth);
      ShiftTwice(hash(key), 64 - d.depth, d.depth - s.depth);
    }
  }

  /** Every segment is below the split threshold. */
  ghost predicate Balanced<K, V>(threshold: nat, d: Dir<K, V>) {
    forall i :: 0 <= i < |d.slots| ==> |d.slots[i].table| < threshold
  }

  /** Only the key's own segment may have reached the threshold, by one entry. */
  ghost predicate NearlyBalanced<K(!new), V>(hash: K -> Hash64, threshold: nat, d: Dir<K, V>, key: K)
    requires Valid(hash, d)
  {
    var s := d.slots[Index(hash, d.depth, key)];
    && key in s.table && |s.table| <= threshold
    && forall i :: 0 <= i < |d.slots| && d.slots[i].id != s.id ==> |d.slots[i].table| < threshold
  }

  lemma PutNearlyBalanced<K(!new), V>(hash: K -> Hash64, threshold: nat, d: Dir<K, V>, key: K, value: V)
    requires Valid(hash, d) && Balanced(threshold, d)
    ensures Valid(hash, Put(hash, d, key, value))
    ensures NearlyBalanced(hash, threshold, Put(hash, d, key, value), key)
  {
    PutOk(hash, d, key, value);
    var s := d.slots[Index(hash, d.depth, key)];
    assert s.table[key := value].Keys == s.table.Keys + {key};
  }

  lemma SmallerPart<K, V>(whole: map<K, V>, part: map<K, V>)
    requires part.Keys <= whole.Keys
    ensures |part| <= |whole|
    ensures part.Keys != whole.Keys ==> |part| < |whole|
  {
    SetSize(part.Keys, whole.Keys);
  }

  lemma {:induction false} SetSize<K>(a: set<K>, b: set<K>)
    requires a <= b
    ensures |a| <= |b| && (a != b ==> |a| < |b|)
  {
    assert |b| == |a| + |b - a| by { assert b == a + (b - a); }
  }

  lemma RemoveBalanced<K(!new), V>(hash: K -> Hash64, threshold: nat, d: Dir<K, V>, key: K)
    requires Valid(hash, d)
    ensures Balanced(threshold, d) ==> Balanced(threshold, Remove(hash, d, key))
  {
    var s := d.slots[Index(hash, d.depth, key)];
    SmallerPart(s.table, s.table - {key});
  }

  /** After a split, the half without the key has lost at least the key. */
  lemma OtherHalfSmaller<K(!new), V>(hash: K -> Hash64, d: Dir<K, V>, key: K, j: nat)
    requires Valid(hash, d) && d.slots[Index(hash, d.depth, key)].depth < d.depth
    requires key in d.slots[Index(hash, d.depth, key)].table && j < |d.slots|
    requires d.slots[j].id == d.slots[Index(hash, d.depth, key)].id
    requires var d' := Split(hash, d, Index(hash, d.depth, key));
             d'.slots[j].id != d'.slots[Index(hash, d.depth, key)].id
    ensures |Split(hash, d, Index(hash, d.depth, key)).slots[j].table| < |d.slots[Index(hash, d.depth, key)].table|
  {
    var i := Index(hash, d.depth, key);
    var d' := Split(hash, d, i);
    assert key !in d'.slots[j].table;
    SmallerPart(d.slots[i].table, d'.slots[j].table);
  }

  lemma SplitNearlyBalanced<K(!new), V>(hash: K -> Hash64, threshold: nat, d: Dir<K, V>, key: K)
    requires Valid(hash, d) && NearlyBalanced(hash, threshold, d, key)
    requires d.slots[Index(hash, d.depth, key)].depth < d.depth
    ensures var d' := Split(hash, d, Index(hash, d.depth, key));
            Valid(hash, d') && NearlyBalanced(hash, threshold, d', key)
  {
    var i := Index(hash, d.depth, key);
    var s, d' := d.slots[i], Split(hash, d, i);
    SplitOk(hash, d, i);
    SmallerPart(s.table, d'.slots[i].table);
    forall j | 0 <= j < |d.slots| && d'.slots[j].id != d'.slots[i].id ensures |d'.slots[j].table| < threshold {
      if d.slots[j].id == s.id { OtherHalfSmaller(hash, d, key, j); }
    }
  }

  lemma DoubleNearlyBalanced<K(!new), V>(hash: K -> Hash64, threshold: nat, d: Dir<K, V>, key: K)
    requires Valid(hash, d) && NearlyBalanced(hash, threshold, d, key) && d.depth < MAX_DEPTH
    ensures Valid(hash, Double(d)) && NearlyBalanced(hash, threshold, Double(d), key)
  {
    DoubleOk(hash, d);
    IndexDoubles(hash, d.depth, key);
  }

  /** `Split` depends on the slot only through the segment it shows. */
  lemma SplitByRun<K(!new), V>(hash: K -> Hash64, d: Dir<K, V>, i: nat, j: nat)
    requires Valid(hash, d) && i < |d.slots| && j < |d.slots| && d.slots[j] == d.slots[i]
    requires d.slots[i].depth < d.depth
    ensures Split(hash, d, i) == Split(hash, d, j)
  {
  }

  lemma SplitOnceNearlyBalanced<K(!new), V>(hash: K -> Hash64, threshold: nat, d: Dir<K, V>, key: K)
    requires Valid(hash, d) && NearlyBalanced(hash, threshold, d, key)
    requires d.slots[Index(hash, d.depth, key)].depth < MAX_DEPTH
    ensures var d' := SplitOnce(hash, d, Index(hash, d.depth, key));
            Valid(hash, d') && NearlyBalanced(hash, threshold, d', key)
  {
    var i := Index(hash, d.depth, key);
    SameRun(hash, d, i, i);
    if d.slots[i].depth == d.depth {
      DoubleNearlyBalanced(hash, threshold, d, key);
      var dd := Double(d);
      var j := Index(hash, dd.depth, key);
      IndexDoubles(hash, d.depth, key);
      SameRun(hash, dd, j, 2 * d.slots[i].id);
      SplitByRun(hash, dd, j, 2 * d.slots[i].id);
      SplitNearlyBalanced(hash, threshold, dd, key);
    } else {
      SplitNearlyBalanced(hash, threshold, d, key);
    }
  }

  /** Some allowed prefix length leaves fewer than `threshold` of the keys together with `key`. */
  ghost predicate Separable<K(!new)>(hash: K -> Hash64, threshold: nat, keys: set<K>, key: K) {
    exists depth :: 0 <= depth <= MAX_DEPTH && |Sharing(hash, keys, key, depth)| < threshold
  }

  /** The stored keys can be split apart around `key`. */
  ghost predicate SplitsApart<K(!new), V>(hash: K -> Hash64, threshold: nat, d: Dir<K, V>, key: K)
    requires Valid(hash, d)
  {
    Separable(hash, threshold, Contents(hash, d).Keys, key)
  }

  /** The same once `key` is stored. */
  ghost predicate HasRoomFor<K(!new), V>(hash: K -> Hash64, threshold: nat, d: Dir<K, V>, key: K)
    requires Valid(hash, d)
  {
    Separable(hash, threshold, Contents(hash, d).Keys + {key}, key)
  }

  lemma SharingShrinks<K(!new)>(hash: K -> Hash64, keys: set<K>, key: K, shorter: nat, longer: nat)
    requires shorter <= longer <= 64
    ensures |Sharing(hash, keys, key, longer)| <= |Sharing(hash, keys, key, shorter)|
  {
    forall k | k in Sharing(hash, keys, key, longer) ensures k in Sharing(hash, keys, key, shorter) {
      PrefixOfPrefix(hash(k), hash(key), shorter, longer);
    }
    SetSize(Sharing(hash, keys, key, longer), Sharing(hash, keys, key, shorter));
  }

  /** It is enough to look at the longest prefix. */
  lemma SeparableIff<K(!new)>(hash: K -> Hash64, threshold: nat, keys: set<K>, key: K)
    ensures Separable(hash, threshold, keys, key) <==> |Sharing(hash, keys, key, MAX_DEPTH)| < threshold
  {
    if Separable(hash, threshold, keys, key) {
      var depth :| 0 <= depth <= MAX_DEPTH && |Sharing(hash, keys, key, depth)| < threshold;
      SharingShrinks(hash, keys, key, depth, MAX_DEPTH);
    }
  }

  /** Otherwise the test of the split loop holds on every directory with these contents, however often it was split. */
  lemma InseparableStaysFull<K(!new), V>(hash: K -> Hash64, threshold: nat, d: Dir<K, V>, key: K)
    requires Valid(hash, d) && !SplitsApart(hash, threshold, d, key)
    ensures |d.slots[Index(hash, d.depth, key)].table| >= threshold
  {
    var s := d.slots[Index(hash, d.depth, key)];
    SegmentIsPrefixClass(hash, d, key);
    assert |s.table| == |s.table.Keys|;
  }

  /** A full segment of a separable key can still be split. */
  lemma FullIsShallow<K(!new), V>(hash: K -> Hash64, threshold: nat, d: Dir<K, V>, key: K)
    requires Valid(hash, d) && SplitsApart(hash, threshold, d, key)
    requires |d.slots[Index(hash, d.depth, key)].table| >= threshold
    ensures d.slots[Index(hash, d.depth, key)].depth < MAX_DEPTH
  {
    var s, keys := d.slots[Index(hash, d.depth, key)], Contents(hash, d).Keys;
    SegmentIsPrefixClass(hash, d, key);
    assert |s.table| == |s.table.Keys|;
    var depth :| 0 <= depth <= MAX_DEPTH && |Sharing(hash, keys, key, depth)| < threshold;
    if depth <= s.depth { SharingShrinks(hash, keys, key, depth, s.depth); }
  }

  /** The split loop leaves every segment below the threshold exactly when some allowed prefix separates the keys. */
  lemma {:induction false} SplittingStops<K(!new), V>(hash: K -> Hash64, threshold: nat, d: Dir<K, V>, key: K)
    requires Valid(hash, d) && NearlyBalanced(hash, threshold, d, key)
    ensures Balanced(threshold, SplitWhileFull(hash, threshold, d, key)) <==>
            SplitsApart(hash, threshold, d, key)
    decreases MAX_DEPTH - d.slots[Index(hash, d.depth, key)].depth
  {
    var i := Index(hash, d.depth, key);
    var s, keys := d.slots[i], Contents(hash, d).Keys;
    SegmentIsPrefixClass(hash, d, key);
    assert |s.table| == |Sharing(hash, keys, key, s.depth)|;
    if |s.table| < threshold {
      forall j | 0 <= j < |d.slots| ensures |d.slots[j].table| < threshold {
        SameRun(hash, d, i, j);
      }
    } else if s.depth < MAX_DEPTH {
      SplitOnceOk(hash, d, key);
      SplitOnceNearlyBalanced(hash, threshold, d, key);
      SplittingStops(hash, threshold, SplitOnce(hash, d, i), key);
    } else {
      assert !Balanced(threshold, d);
      forall depth | 0 <= depth <= MAX_DEPTH ensures |Sharing(hash, keys, key, depth)| >= threshold {
        SharingShrinks(hash, keys, key, depth, s.depth);
      }
    }
  }

  lemma PutKeys<K(!new), V>(hash: K -> Hash64, d: Dir<K, V>, key: K, value: V)
    requires Valid(hash, d)
    ensures Valid(hash, Put(hash, d, key, value))
    ensures Contents(hash, Put(hash, d, key, value)).Keys == Contents(hash, d).Keys + {key}
  {
    PutOk(hash, d, key, value);
  }

  lemma PutSplitsApart<K(!new), V>(hash: K -> Hash64, threshold: nat, d: Dir<K, V>, key: K, value: V)
    requires Valid(hash, d) && HasRoomFor(hash, threshold, d, key)
    ensures Valid(hash, Put(hash, d, key, value)) && SplitsApart(hash, threshold, Put(hash, d, key, value), key)
  {
    PutKeys(hash, d, key, value);
  }

  /** From a balanced table, `Insert` ends balanced exactly when the new key can be separated from its neighbours. */
  lemma InsertBalances<K(!new), V>(hash: K -> Hash64, threshold: nat, d: Dir<K, V>, key: K, value: V)
    requires Valid(hash, d) && Balanced(threshold, d)
    ensures Balanced(threshold, Insert(hash, threshold, d, key, value)) <==>
            HasRoomFor(hash, threshold, d, key)
  {
    var p := Put(hash, d, key, value);
    PutNearlyBalanced(hash, threshold, d, key, value);
    SplittingStops(hash, threshold, p, key);
    PutKeys(hash, d, key, value);
  }

  // ----- traversal -----

  /** `NextSeg`: the slot after the run of slot `i`. */
  function NextSeg<K, V>(d: Dir<K, V>, i: nat): (j: nat)
    requires i < |d.slots| ==> d.slots[i].depth <= d.depth
  {
    if i >= |d.slots| then i else i + Pow2(d.depth - d.slots[i].depth)
  }

  /** The traversal is between runs, or done. */
  ghost predicate AtStart<K, V>(d: Dir<K, V>, i: nat) {
    i == |d.slots| || (i < |d.slots| && d.slots[i].id == i)
  }

  lemma NextSegStart<K(!new), V>(hash: K -> Hash64, d: Dir<K, V>, i: nat)
    requires Valid(hash, d) && i < |d.slots| && AtStart(d, i)
    ensures d.slots[i].depth <= d.depth
    ensures i < NextSeg(d, i) <= |d.slots| && AtStart(d, NextSeg(d, i))
    ensures forall j :: i <= j < NextSeg(d, i) ==> d.slots[j] == d.slots[i]
  {
    SameRun(hash, d, i, i);
    assert SlotOk(hash, d, i);
    var e := NextSeg(d, i);
    if e < |d.slots| {
      SameRun(hash, d, i, e);
      SameRun(hash, d, e, e - 1);
    }
  }

  /** The tables the traversal still meets from slot `i` on, merged. */
  ghost function TablesFrom<K, V>(d: Dir<K, V>, i: nat): (m: map<K, V>)
    requires DepthsOk(d)
    decreases |d.slots| - i
  {
    if i >= |d.slots| then map[] else d.slots[i].table + TablesFrom(d, NextSeg(d, i))
  }

  ghost predicate DepthsOk<K, V>(d: Dir<K, V>) {
    forall j :: 0 <= j < |d.slots| ==> d.slots[j].depth <= d.depth
  }

  lemma DepthsAreOk<K(!new), V>(hash: K -> Hash64, d: Dir<K, V>)
    requires Valid(hash, d)
    ensures DepthsOk(d)
  {
    forall j | 0 <= j < |d.slots| ensures d.slots[j].depth <= d.depth {
      SameRun(hash, d, j, j);
    }
  }

  /** From the start of a run on, the traversal meets exactly the entries with a later index. */
  lemma {:induction false} TablesFromKeys<K(!new), V>(hash: K -> Hash64, d: Dir<K, V>, i: nat, k: K)
    requires Valid(hash, d) && DepthsOk(d) && i <= |d.slots| && AtStart(d, i)
    ensures k in TablesFrom(d, i) <==> k in Contents(hash, d) && Index(hash, d.depth, k) >= i
    ensures k in TablesFrom(d, i) ==> TablesFrom(d, i)[k] == Contents(hash, d)[k]
    decreases |d.slots| - i
  {
    if i < |d.slots| {
      NextSegStart(hash, d, i);
      TablesFromKeys(hash, d, NextSeg(d, i), k);
      KeysAtHome(hash, d);
      assert SlotOk(hash, d, i);
    }
  }

  /** A step of the traversal from a run start: the next start, and entries not met again later. */
  lemma TraversalStep<K(!new), V>(hash: K -> Hash64, d: Dir<K, V>, i: nat)
    requires Valid(hash, d) && DepthsOk(d) && i < |d.slots| && AtStart(d, i)
    ensures i < NextSeg(d, i) <= |d.slots| && AtStart(d, NextSeg(d, i))
    ensures d.slots[i].table.Keys !! TablesFrom(d, NextSeg(d, i)).Keys
  {
    NextSegStart(hash, d, i);
    var t, rest := d.slots[i].table, TablesFrom(d, NextSeg(d, i));
    forall k | k in t ensures k !in rest {
      TablesFromKeys(hash, d, NextSeg(d, i), k);
      assert SlotOk(hash, d, i);
    }
  }

  /** The sizes the traversal still adds from slot `i` on. */
  ghost function SizeFrom<K, V>(d: Dir<K, V>, i: nat): nat
    requires DepthsOk(d)
    decreases |d.slots| - i
  {
    if i >= |d.slots| then 0 else |d.slots[i].table| + SizeFrom(d, NextSeg(d, i))
  }

  lemma {:induction false} SizeFromTables<K(!new), V>(hash: K -> Hash64, d: Dir<K, V>, i: nat)
    requires Valid(hash, d) && DepthsOk(d) && i <= |d.slots| && AtStart(d, i)
    ensures SizeFrom(d, i) == |TablesFrom(d, i)|
    decreases |d.slots| - i
  {
    if i < |d.slots| {
      TraversalStep(hash, d, i);
      SizeFromTables(hash, d, NextSeg(d, i));
      DisjointMerge(d.slots[i].table, TablesFrom(d, NextSeg(d, i)));
    }
  }

  lemma DisjointMerge<K, V>(a: map<K, V>, b: map<K, V>)
    requires a.Keys !! b.Keys
    ensures |a + b| == |a| + |b|
  {
    assert (a + b).Keys == a.Keys + b.Keys;
    assert |a + b| == |(a + b).Keys| && |a| == |a.Keys| && |b| == |b.Keys|;
  }

  /** From slot 0 the traversal meets the whole map. */
  lemma TraversalCoversAll<K(!new), V>(hash: K -> Hash64, d: Dir<K, V>)
    requires Valid(hash, d)
    ensures DepthsOk(d) && AtStart(d, 0) && TablesFrom(d, 0) == Contents(hash, d)
  {
    DepthsAreOk(hash, d);
    SameRun(hash, d, 0, 0);
    forall k ensures k in TablesFrom(d, 0) <==> k in Contents(hash, d)
      ensures k in TablesFrom(d, 0) ==> TablesFrom(d, 0)[k] == Contents(hash, d)[k]
    {
      TablesFromKeys(hash, d, 0, k);
    }
  }

  /** The traversal's sum of segment sizes is the size of the map. */
  lemma SizeIsExact<K(!new), V>(hash: K -> Hash64, d: Dir<K, V>)
    requires Valid(hash, d)
    ensures DepthsOk(d) && AtStart(d, 0) && SizeFrom(d, 0) == |Contents(hash, d)|
  {
    TraversalCoversAll(hash, d);
    SizeFromTables(hash, d, 0);
  }
}
