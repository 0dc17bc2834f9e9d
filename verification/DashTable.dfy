/**
 `DashTable`: segments as objects that several directory slots may share, changed in
 place. Each method is proved against the value operations of `Directory`.
 */
module DashTable {
  import opened Powers
  import opened Options
  import D = Directory

  /** Entries are a finite map here; `HashTable.Table` is the data structure that holds them. */
  class Segment<K(==), V> {
    var table: map<K, V>
    var depth: nat
    var id: nat
    var version: nat

    constructor (depth: nat, id: nat, version: nat)
      ensures table == map[] && this.depth == depth && this.id == id && this.version == version
    {
      this.table, this.depth, this.id, this.version := map[], depth, id, version;
    }

    ghost function View(): D.Seg<K, V>
      reads this
    {
      D.Seg(table, depth, id, version)
    }
  }

  /** The directory while it is being doubled: slots from `2 * i` on are done, those below `i` untouched. */
  ghost function Spread<T>(was: seq<T>, i: nat): (r: seq<T>)
    requires was != [] && i <= |was|
  {
    seq(2 * |was|, j requires 0 <= j < 2 * |was| =>
      if j >= 2 * i then was[j / 2] else if j < |was| then was[j] else was[0])
  }

  lemma SpreadStep<T>(was: seq<T>, i: nat)
    requires i < |was|
    ensures Spread(was, i + 1)[i] == was[i]
    ensures Spread(was, i + 1)[2 * i := was[i]][2 * i + 1 := was[i]] == Spread(was, i)
  {
  }

  /** The transfer with `items` still to come: of the others, those from index `mid` on are in `high`. */
  ghost predicate Halfway<K(!new), V>(hash: K -> Hash64, depth: nat, mid: nat, all: map<K, V>, items: set<K>,
                                      low: map<K, V>, high: map<K, V>)
    requires depth <= 64
  {
    && low == (map k | k in all && (k in items || D.Index(hash, depth, k) < mid) :: all[k])
    && high == (map k | k in all && k !in items && D.Index(hash, depth, k) >= mid :: all[k])
  }

  lemma HalfwayNext<K(!new), V>(hash: K -> Hash64, depth: nat, mid: nat, all: map<K, V>, items: set<K>,
                                low: map<K, V>, high: map<K, V>, key: K)
    requires depth <= 64 && key in items && key in all && Halfway(hash, depth, mid, all, items, low, high)
    ensures key in low && low[key] == all[key]
    ensures if D.Index(hash, depth, key) >= mid
            then Halfway(hash, depth, mid, all, items - {key}, low - {key}, high[key := all[key]])
            else Halfway(hash, depth, mid, all, items - {key}, low, high)
  {
  }

  class Dash<K(==, !new), V(!new)> {
    const hash: K -> Hash64
    /** A segment with this many entries is split: the least integer not below 0.8 * max_segment_size. */
    const threshold: nat
    var dir: seq<Segment<K, V>>
    var globalDepth: nat

    /** What each slot shows. */
    ghost function View(): (d: D.Dir<K, V>)
      reads this, dir
      ensures d.depth == globalDepth && |d.slots| == |dir|
      ensures forall i :: 0 <= i < |dir| ==> d.slots[i] == dir[i].View()
    {
      D.Dir(globalDepth, seq(|dir|, i requires 0 <= i < |dir| reads this, dir => dir[i].View()))
    }

    /** Slots share an object exactly when they show the same id. */
    ghost predicate Shared()
      reads this, dir
    {
      forall i, j :: 0 <= i < |dir| && 0 <= j < |dir| ==> (dir[i] == dir[j] <==> dir[i].id == dir[j].id)
    }

    ghost predicate Valid()
      reads this, dir
    {
      D.Valid(hash, View()) && Shared()
    }

    ghost function Contents(): map<K, V>
      requires Valid()
      reads this, dir
    {
      D.Contents(hash, View())
    }

    function Index(key: K): (i: nat)
      requires globalDepth <= 64
      reads this
      ensures i < Pow2(globalDepth)
    {
      D.Index(hash, globalDepth, key)
    }

    constructor (hash: K -> Hash64, initialDepth: nat, threshold: nat)
      requires initialDepth <= D.MAX_DEPTH && threshold >= 1
      ensures Valid() && fresh(dir) && Contents() == map[] && D.Balanced(threshold, View())
      ensures this.hash == hash && this.threshold == threshold && globalDepth == initialDepth
    {
      this.hash, this.threshold, globalDepth, dir := hash, threshold, initialDepth, [];
      new;
      for i := 0 to Pow2(initialDepth)
        invariant |dir| == i && fresh(dir)
        invariant forall j :: 0 <= j < i ==> dir[j].View() == D.Seg(map[], initialDepth, j, 0)
        invariant forall j, l :: 0 <= j < l < i ==> dir[j] != dir[l]
        modifies this`dir
      {
        var s := new Segment<K, V>(initialDepth, i, 0);
        dir := dir + [s];
      }
      forall i | 0 <= i < |dir| ensures D.SlotOk(hash, View(), i) {
      }
    }

    method Find(key: K) returns (r: Option<V>)
      requires Valid()
      ensures r == if key in Contents() then Some(Contents()[key]) else None
    {
      var s := dir[Index(key)];
      r := if key in s.table then Some(s.table[key]) else None;
    }

    method Erase(key: K) returns (erased: bool)
      requires Valid()
      modifies dir
      ensures Valid() && View() == D.Remove(hash, old(View()), key)
      ensures Contents() == old(Contents()) - {key} && erased == (key in old(Contents()))
      ensures old(D.Balanced(threshold, View())) ==> D.Balanced(threshold, View())
    {
      ghost var v := View();
      D.RemoveOk(hash, v, key);
      D.RemoveBalanced(hash, threshold, v, key);
      var s := dir[Index(key)];
      erased := key in s.table;
      s.table := s.table - {key};
      assert View() == D.Remove(hash, v, key);
    }

    method SetSegVersion(i: nat, version: nat)
      requires Valid() && i < |dir|
      modifies dir
      ensures Valid() && View() == D.SetVersion(old(View()), i, version) && Contents() == old(Contents())
      ensures old(D.Balanced(threshold, View())) ==> D.Balanced(threshold, View())
    {
      D.SetVersionOk(hash, View(), i, version);
      dir[i].version := version;
      assert View() == D.SetVersion(old(View()), i, version);
    }

    method Put(key: K, value: V)
      requires Valid()
      modifies dir
      ensures Valid() && View() == D.Put(hash, old(View()), key, value)
    {
      D.PutOk(hash, View(), key, value);
      var s := dir[Index(key)];
      s.table := s.table[key := value];
      assert View() == D.Put(hash, old(View()), key, value);
    }

    /**
     The in-place doubling loop, from the last slot down. The new slots of the resized vector are
     null until the loop fills them; here they start as copies of slot 0.
     */
    method SpreadSlots()
      requires dir != []
      requires forall j :: 0 <= j < |dir| ==> dir[j].id <= j
      requires forall i, j :: 0 <= i < j < |dir| ==> (dir[j] == dir[i] <==> dir[j].id <= i)
      modifies this`dir, dir
      ensures dir == Spread(old(dir), 0)
      ensures forall s :: s in old(dir) ==> s.View() == old(s.View()).(id := 2 * old(s.id))
    {
      var n, first := |dir|, dir[0];
      ghost var was := dir;
      ghost var ids := seq(n, j requires 0 <= j < n reads was => was[j].id);
      dir := dir + seq(n, _ => first);
      var i := n;
      assert dir == Spread(was, n);
      while i > 0
        invariant 0 <= i <= n && dir == Spread(was, i) && Rebased(was, ids, i)
        modifies this`dir, was`id
      {
        i := i - 1;
        SpreadOne(i, was, ids);
      }
    }

    /** The ids of the segments the loop has met, down to slot `i`. */
    ghost predicate Rebased(was: seq<Segment<K, V>>, ids: seq<nat>, i: nat)
      reads was
    {
      |ids| == |was| && forall j :: i <= j < |was| ==> was[j].id == 2 * if ids[j] < i then i else ids[j]
    }

    /** One turn of the doubling loop. */
    method SpreadOne(i: nat, ghost was: seq<Segment<K, V>>, ghost ids: seq<nat>)
      requires i < |was| && dir == Spread(was, i + 1) && Rebased(was, ids, i + 1) && ids[i] <= i
      requires forall j :: i < j < |was| ==> (was[j] == was[i] <==> ids[j] <= i)
      modifies this`dir, was`id
      ensures dir == Spread(was, i) && Rebased(was, ids, i)
    {
      var offs := 2 * i;
      SpreadStep(was, i);
      var s := dir[i];
      dir := dir[offs := s];
      dir := dir[offs + 1 := s];
      s.id := offs;
    }

    method DoubleDirectory()
      requires Valid() && globalDepth < D.MAX_DEPTH
      modifies this, dir
      ensures Valid() && View() == D.Double(old(View()))
      ensures |dir| == 2 * old(|dir|) && forall j :: 0 <= j < |dir| ==> dir[j] == old(dir[j / 2])
    {
      ghost var v := View();
      D.DoubleOk(hash, v);
      forall j | 0 <= j < |dir| ensures dir[j].id <= j {
        D.SameRun(hash, v, j, j);
      }
      forall i, j | 0 <= i < j < |dir| ensures dir[j] == dir[i] <==> dir[j].id <= i {
        RunDown(v, i, j);
      }
      SpreadSlots();
      globalDepth := globalDepth + 1;
      forall j | 0 <= j < |dir| ensures dir[j] == old(dir)[j / 2] && dir[j].View() == D.Double(v).slots[j] {
        assert old(dir)[j / 2] in old(dir);
      }
      assert View() == D.Double(v);
    }

    lemma RunDown(v: D.Dir<K, V>, i: nat, j: nat)
      requires D.Valid(hash, v) && i < j < |v.slots|
      ensures v.slots[j].id == v.slots[i].id <==> v.slots[j].id <= i
    {
      D.SameRun(hash, v, i, i);
      D.SameRun(hash, v, j, i);
    }

    /** The transfer loop: every key whose index lies in the upper half moves to the new segment. */
    method MoveUpper(source: Segment<K, V>, made: Segment<K, V>, mid: nat, end: nat)
      requires globalDepth <= 64 && source != made && made.table == map[]
      requires forall k :: k in source.table ==> Index(k) < end
      modifies source`table, made`table
      ensures source.table == map k | k in old(source.table) && Index(k) < mid :: old(source.table)[k]
      ensures made.table == map k | k in old(source.table) && Index(k) >= mid :: old(source.table)[k]
    {
      ghost var all := source.table;
      var items := source.table.Keys;
      while items != {}
        invariant items <= all.Keys && Halfway(hash, globalDepth, mid, all, items, source.table, made.table)
        decreases |items|
      {
        var key :| key in items;
        HalfwayNext(hash, globalDepth, mid, all, items, source.table, made.table, key);
        items := items - {key};
        if mid <= Index(key) < end {
          made.table := made.table[key := source.table[key]];
          source.table := source.table - {key};
        }
      }
    }

    /** The last loop of `SplitSegment`: the upper half of the run shows the new segment. */
    method Redirect(mid: nat, end: nat, made: Segment<K, V>)
      requires mid <= end
      modifies this`dir
      ensures |dir| == old(|dir|)
      ensures forall l :: 0 <= l < |dir| ==> dir[l] == if mid <= l < end then made else old(dir)[l]
    {
      for j := mid to end
        invariant |dir| == old(|dir|)
        invariant forall l :: 0 <= l < |dir| ==> dir[l] == if mid <= l < j then made else old(dir)[l]
      {
        if j < |dir| {
          dir := dir[j := made];
        }
      }
    }

    /** The split as changes of objects: `source` keeps the lower half of its run, a new segment takes the upper. */
    method SplitObjects(i: nat, ghost start: nat, ghost mid: nat, ghost end: nat) returns (source: Segment<K, V>, made: Segment<K, V>)
      requires globalDepth <= 64 && i < |dir| && dir[i].depth < globalDepth
      requires start == AlignDown(i, globalDepth - dir[i].depth)
      requires mid == start + Pow2(globalDepth - dir[i].depth - 1) && end == start + Pow2(globalDepth - dir[i].depth)
      requires forall k :: k in dir[i].table ==> Index(k) < end
      modifies this`dir, dir[i]
      ensures source == old(dir[i]) && fresh(made) && made !in old(dir) && |dir| == old(|dir|)
      ensures forall l :: 0 <= l < |dir| ==> dir[l] == if mid <= l < end then made else old(dir)[l]
      ensures source.View() == D.Lower(hash, globalDepth, old(dir[i].View()), mid).(id := start)
      ensures made.View() == D.Upper(hash, globalDepth, old(dir[i].View()), mid)
    {
      source := dir[i];
      var chunk := Pow2(globalDepth - source.depth);
      var from := AlignDown(i, globalDepth - source.depth);
      var middle := from + chunk / 2;
      made := new Segment<K, V>(source.depth + 1, middle, source.version);
      source.id := from;
      source.depth := source.depth + 1;
      MoveUpper(source, made, middle, from + chunk);
      Redirect(middle, from + chunk, made);
    }

    /** `SplitSegment` once the run of slot `i` has at least two slots. */
    method SplitRun(i: nat)
      requires Valid() && i < |dir| && dir[i].depth < globalDepth
      modifies this`dir, dir
      ensures Valid() && View() == D.Split(hash, old(View()), i)
      ensures forall j :: 0 <= j < |dir| ==> dir[j] in old(dir) || fresh(dir[j])
    {
      ghost var v := View();
      D.SplitOk(hash, v, i);
      D.SameRun(hash, v, i, i);
      assert D.SlotOk(hash, v, i);
      ghost var start, mid := v.slots[i].id, D.Mid(v, v.slots[i]);
      ghost var end := start + Pow2(globalDepth - dir[i].depth);
      var source, made := SplitObjects(i, start, mid, end);
      RunOfSource(v, i, start, end - start);
      forall l | 0 <= l < |dir| ensures dir[l].View() == D.Split(hash, v, i).slots[l] {
        assert old(dir)[l] == source <==> start <= l < end;
      }
      assert View() == D.Split(hash, v, i);
      SplitShared(v, i, old(dir), source, made, start, mid, end);
    }

    /** The new segment is seen through the upper half of the old run, and the sharing stays right. */
    lemma SplitShared(v: D.Dir<K, V>, i: nat, was: seq<Segment<K, V>>, source: Segment<K, V>, made: Segment<K, V>,
                      start: nat, mid: nat, end: nat)
      requires D.Valid(hash, View()) && |dir| == |was| == |v.slots| && i < |was|
      requires v.depth <= 64 && v.slots[i].depth < v.depth && View() == D.Split(hash, v, i)
      requires start == v.slots[i].id && mid == D.Mid(v, v.slots[i]) && end == start + Pow2(v.depth - v.slots[i].depth)
      requires forall l :: 0 <= l < |was| ==> (v.slots[l].id == v.slots[i].id <==> start <= l < end)
      requires forall j, l :: 0 <= j < |was| && 0 <= l < |was| ==> (was[j] == was[l] <==> v.slots[j].id == v.slots[l].id)
      requires forall l :: 0 <= l < |dir| ==> dir[l] == if mid <= l < end then made else was[l]
      requires made !in was && source == was[i]
      ensures Shared()
    {
      forall j, l | 0 <= j < |dir| && 0 <= l < |dir| && dir[j].id == dir[l].id ensures dir[j] == dir[l] {
        D.SameRun(hash, View(), j, l);
      }
    }

    lemma RunOfSource(v: D.Dir<K, V>, i: nat, start: nat, chunk: nat)
      requires D.Valid(hash, v) && i < |v.slots|
      requires v.slots[i].depth <= v.depth && chunk == Pow2(v.depth - v.slots[i].depth) && start == v.slots[i].id
      ensures forall l :: 0 <= l < |v.slots| ==> (v.slots[l].id == v.slots[i].id <==> start <= l < start + chunk)
    {
      forall l | 0 <= l < |v.slots| ensures v.slots[l].id == v.slots[i].id <==> start <= l < start + chunk {
        D.SameRun(hash, v, i, l);
      }
    }

    /** `SplitSegment` of a segment as deep as the directory: the directory doubles first. */
    method DoubleAndSplit(i: nat)
      requires Valid() && i < |dir| && dir[i].depth == globalDepth < D.MAX_DEPTH
      modifies this, dir
      ensures Valid() && View() == D.SplitOnce(hash, old(View()), i)
      ensures forall j :: 0 <= j < |dir| ==> dir[j] in old(dir) || fresh(dir[j])
    {
      ghost var v := View();
      D.SameRun(hash, v, i, i);
      var source := dir[i];
      DoubleDirectory();
      assert source == dir[2 * i] && source.id == 2 * v.slots[i].id;
      assert forall s :: s in dir ==> s in old(dir);
      SplitRun(source.id);
    }

    method SplitSegment(i: nat)
      requires Valid() && i < |dir| && dir[i].depth < D.MAX_DEPTH
      modifies this, dir
      ensures Valid() && View() == D.SplitOnce(hash, old(View()), i)
      ensures forall j :: 0 <= j < |dir| ==> dir[j] in old(dir) || fresh(dir[j])
    {
      D.SameRun(hash, View(), i, i);
      if dir[i].depth == globalDepth {
        DoubleAndSplit(i);
      } else {
        SplitRun(i);
      }
    }

    predicate NeedSplit(i: nat)
      requires i < |dir|
      reads this, dir
    {
      |dir[i].table| >= threshold
    }

    /** The loop of `Insert`: it ends because some prefix of at most 31 bits separates the key. */
    method SplitWhileFull(key: K)
      requires Valid() && D.SplitsApart(hash, threshold, View(), key)
      modifies this, dir
      ensures Valid() && View() == D.SplitWhileFull(hash, threshold, old(View()), key)
      ensures forall j :: 0 <= j < |dir| ==> dir[j] in old(dir) || fresh(dir[j])
    {
      ghost var v := View();
      var i := Index(key);
      while NeedSplit(i)
        invariant Valid() && i == Index(key) && D.SplitsApart(hash, threshold, View(), key)
        invariant D.SplitWhileFull(hash, threshold, View(), key) == D.SplitWhileFull(hash, threshold, v, key)
        invariant forall j :: 0 <= j < |dir| ==> dir[j] in old(dir) || fresh(dir[j])
        decreases D.MAX_DEPTH - View().slots[i].depth
      {
        D.FullIsShallow(hash, threshold, View(), key);
        D.SplitOnceOk(hash, View(), key);
        SplitSegment(i);
        i := Index(key);
      }
    }

    /**
     `Insert`. Without a prefix of at most 31 bits that leaves fewer than `threshold` keys together
     with the new one, the loop would not end there; with one, a balanced table stays balanced.
     */
    method Insert(key: K, value: V)
      requires Valid() && D.HasRoomFor(hash, threshold, View(), key)
      modifies this, dir
      ensures Valid() && View() == D.Insert(hash, threshold, old(View()), key, value)
      ensures Contents() == old(Contents())[key := value]
      ensures old(D.Balanced(threshold, View())) ==> D.Balanced(threshold, View())
      ensures forall j :: 0 <= j < |dir| ==> dir[j] in old(dir) || fresh(dir[j])
    {
      if D.Balanced(threshold, View()) { D.InsertBalances(hash, threshold, View(), key, value); }
      D.PutSplitsApart(hash, threshold, View(), key, value);
      Put(key, value);
      SplitWhileFull(key);
    }

    method Clear()
      requires Valid()
      modifies dir
      ensures Valid() && View() == D.Cleared(old(View())) && Contents() == map[]
      ensures threshold >= 1 ==> D.Balanced(threshold, View())
    {
      D.ClearedOk(hash, View());
      for i := 0 to |dir|
        invariant forall s :: s in dir ==> s.View() == old(s.View()).(table := s.table)
        invariant forall j :: 0 <= j < i ==> dir[j].table == map[]
        invariant forall s :: s in dir ==> s.table == old(s.table) || s.table == map[]
      {
        dir[i].table := map[];
      }
      assert View() == D.Cleared(old(View()));
    }

    // ----- traversal -----

    function NextSeg(i: nat): nat
      requires i < |dir| ==> dir[i].depth <= globalDepth
      reads this, dir
    {
      if i >= |dir| then i else i + Pow2(globalDepth - dir[i].depth)
    }

    /** `Size` adds the sizes of the distinct segments, which is the size of the map. */
    method Size() returns (size: nat)
      requires Valid()
      ensures size == |Contents()|
    {
      D.SizeIsExact(hash, View());
      size := SumSizes(View());
    }

    method SumSizes(ghost v: D.Dir<K, V>) returns (size: nat)
      requires v == View() && D.Valid(hash, v) && D.DepthsOk(v) && D.AtStart(v, 0)
      ensures size == D.SizeFrom(v, 0)
    {
      size := 0;
      var i: nat := 0;
      while i < |dir|
        invariant i <= |dir| && D.AtStart(v, i) && size + D.SizeFrom(v, i) == D.SizeFrom(v, 0)
        decreases |dir| - i
      {
        assert globalDepth == v.depth && dir[i].depth == v.slots[i].depth;
        D.NextSegStart(hash, v, i);
        size := size + |dir[i].table|;
        i := NextSeg(i);
      }
    }

    /** `ForEachInSeg`: the entries of one segment, each once, in the order the segment stores them. */
    method ForEachInSeg(i: nat) returns (entries: seq<(K, V)>)
      requires Valid()
      ensures i < |dir| ==> Enumerates(entries, dir[i].table)
      ensures i >= |dir| ==> entries == []
    {
      if i >= |dir| {
        return [];
      }
      entries := Entries(dir[i].table);
    }

    /** `ForEach`: every entry of the table exactly once. */
    method ForEach() returns (entries: seq<(K, V)>)
      requires Valid()
      ensures Enumerates(entries, Contents())
    {
      D.TraversalCoversAll(hash, View());
      entries := ListAll(View());
    }

    method ListAll(ghost v: D.Dir<K, V>) returns (entries: seq<(K, V)>)
      requires v == View() && D.Valid(hash, v) && D.DepthsOk(v) && D.AtStart(v, 0)
      ensures Enumerates(entries, D.TablesFrom(v, 0))
    {
      entries := [];
      var i: nat := 0;
      NothingSeen(D.TablesFrom(v, 0));
      while i < |dir|
        invariant v == View()
        invariant i <= |dir| && D.AtStart(v, i) && Completes(entries, D.TablesFrom(v, i), D.TablesFrom(v, 0))
        decreases |dir| - i
      {
        var t := dir[i].table;
        assert globalDepth == v.depth && dir[i].depth == v.slots[i].depth;
        D.TraversalStep(hash, v, i);
        var more := Entries(t);
        CompletesStep(entries, more, t, D.TablesFrom(v, D.NextSeg(v, i)), D.TablesFrom(v, 0));
        entries := entries + more;
        i := NextSeg(i);
      }
      EverythingSeen(entries, D.TablesFrom(v, 0));
    }
  }

  // ----- enumerating a map -----

  /** `entries` lists each pair of `m` exactly once. */
  ghost predicate Enumerates<K, V>(entries: seq<(K, V)>, m: map<K, V>) {
    && (forall a :: 0 <= a < |entries| ==> entries[a].0 in m && m[entries[a].0] == entries[a].1)
    && (forall a, b :: 0 <= a < b < |entries| ==> entries[a].0 != entries[b].0)
    && (forall k :: k in m ==> (k, m[k]) in entries)
  }

  ghost function Part<K, V>(m: map<K, V>, keys: set<K>): map<K, V> {
    map k | k in m && k in keys :: m[k]
  }

  /** The listed pairs and the pairs of `rest` are, without overlap, the pairs of `all`. */
  ghost predicate Completes<K(!new), V(!new)>(entries: seq<(K, V)>, rest: map<K, V>, all: map<K, V>) {
    exists seen: map<K, V> :: Enumerates(entries, seen) && seen.Keys !! rest.Keys && seen + rest == all
  }

  lemma NothingSeen<K(!new), V(!new)>(all: map<K, V>)
    ensures Completes([], all, all)
  {
    var seen: map<K, V> := map[];
    assert Enumerates([], seen) && seen + all == all;
  }

  lemma EverythingSeen<K(!new), V(!new)>(entries: seq<(K, V)>, all: map<K, V>)
    requires Completes(entries, map[], all)
    ensures Enumerates(entries, all)
  {
    var seen: map<K, V> :| Enumerates(entries, seen) && seen + map[] == all;
    assert seen + map[] == seen;
  }

  lemma CompletesStep<K(!new), V(!new)>(entries: seq<(K, V)>, more: seq<(K, V)>, t: map<K, V>, rest: map<K, V>, all: map<K, V>)
    requires Completes(entries, t + rest, all) && Enumerates(more, t) && t.Keys !! rest.Keys
    ensures Completes(entries + more, rest, all)
  {
    var seen: map<K, V> :| Enumerates(entries, seen) && seen.Keys !! (t + rest).Keys && seen + (t + rest) == all;
    MergeStep(seen, t, rest);
    EnumerateBoth(entries, seen, more, t);
  }

  lemma MergeStep<K, V>(seen: map<K, V>, t: map<K, V>, rest: map<K, V>)
    requires seen.Keys !! (t + rest).Keys && t.Keys !! rest.Keys
    ensures seen.Keys !! t.Keys && (seen + t).Keys !! rest.Keys && (seen + t) + rest == seen + (t + rest)
  {
    assert (t + rest).Keys == t.Keys + rest.Keys;
  }

  lemma EnumerateBoth<K, V>(a: seq<(K, V)>, m: map<K, V>, b: seq<(K, V)>, n: map<K, V>)
    requires Enumerates(a, m) && Enumerates(b, n) && m.Keys !! n.Keys
    ensures Enumerates(a + b, m + n)
  {
    var c := a + b;
    forall x, y | 0 <= x < y < |c| ensures c[x].0 != c[y].0 {
      if x < |a| <= y {
        assert c[x].0 in m && c[y] == b[y - |a|];
      }
    }
    forall k | k in m + n ensures (k, (m + n)[k]) in c {
      if k in m { assert (k, m[k]) in a; } else { assert (k, n[k]) in b; }
    }
  }

  /** Any order of visiting is allowed: a hash table promises none. */
  method Entries<K(==), V>(m: map<K, V>) returns (entries: seq<(K, V)>)
    ensures Enumerates(entries, m)
  {
    entries := [];
    var rest := m.Keys;
    while rest != {}
      invariant rest <= m.Keys
      invariant Enumerates(entries, Part(m, m.Keys - rest))
      decreases |rest|
    {
      var k :| k in rest;
      EnumerateBoth(entries, Part(m, m.Keys - rest), [(k, m[k])], map[k := m[k]]);
      rest := rest - {k};
      entries := entries + [(k, m[k])];
      assert Part(m, m.Keys - (rest + {k})) + map[k := m[k]] == Part(m, m.Keys - rest);
    }
    assert Part(m, m.Keys - rest) == m;
  }
}
