/**
 `SliceSnapshot` on a `DashTable` object: the serializing loop and the callback that writers
 trigger, proved against the steps of `Snapshot`.
 */
module SliceSnapshot {
  import D = Directory
  import T = DashTable
  import S = Snapshot
  import H = HashTable

  class Slice<K(==, !new), V(==, !new)> {
    const table: T.Dash<K, V>
    const epoch: nat
    /** The expire table; a snapshot assumes it does not change. */
    const expires: map<K, int>
    /** What the serializer has received, in order. */
    var written: seq<S.Entry<K, V>>

    constructor (table: T.Dash<K, V>, epoch: nat, expires: map<K, int>)
      ensures this.table == table && this.epoch == epoch && this.expires == expires && written == []
    {
      this.table, this.epoch, this.expires, written := table, epoch, expires, [];
    }

    ghost function Config(): S.Config<K, V> {
      S.Config(table.hash, table.threshold, epoch, expires)
    }

    ghost function State(cursor: nat): S.State<K, V>
      reads this, table, table.dir
    {
      S.State(table.View(), cursor, multiset(written))
    }

    /** `SerializeSegment`: hands over the unexpired entries of one segment, each once. */
    method SerializeSegment(i: nat, now: int)
      requires table.Valid() && i < |table.dir|
      modifies this`written
      ensures multiset(written) == old(multiset(written)) + S.Written(Config(), table.dir[i].table, now)
    {
      var entries := table.ForEachInSeg(i);
      AppendLive(entries, table.dir[i].table, now);
    }

    method AppendLive(entries: seq<(K, V)>, ghost m: map<K, V>, now: int)
      requires T.Enumerates(entries, m)
      modifies this`written
      ensures multiset(written) == old(multiset(written)) + S.Written(Config(), m, now)
    {
      ghost var c, was := Config(), multiset(written);
      for a := 0 to |entries|
        invariant multiset(written) == was + S.Written(c, H.ToMap(entries[..a]), now)
      {
        var (key, value) := entries[a];
        ListedStep(entries, m, a);
        OneMore(c, H.ToMap(entries[..a]), key, value, now);
        if !(key in expires && expires[key] <= now) {
          written := written + [S.Entry(key, value, if key in expires then expires[key] else 0)];
        }
      }
      ListedAll(entries, m);
    }

    /** The callback `OnPreModify`, and the same test in the serializing loop. */
    method OnPreModify(i: nat, now: int, ghost cursor: nat)
      requires table.Valid() && i < |table.dir|
      modifies this`written, table.dir
      ensures table.Valid() && table.Contents() == old(table.Contents())
      ensures State(cursor) == S.Mark(Config(), old(State(cursor)), i, now)
    {
      if table.dir[i].version < epoch {
        SerializeSegment(i, now);
        table.SetSegVersion(i, epoch);
      }
    }

    /** The callback for the segment of a key; the key has as much room as before. */
    method BeforeChange(key: K, now: int, ghost cursor: nat)
      requires table.Valid()
      modifies this`written, table.dir
      ensures table.Valid() && State(cursor) == S.Mark(Config(), old(State(cursor)), old(D.Index(table.hash, table.View().depth, key)), now)
      ensures old(D.HasRoomFor(table.hash, table.threshold, table.View(), key)) ==>
              D.HasRoomFor(table.hash, table.threshold, table.View(), key)
    {
      OnPreModify(table.Index(key), now, cursor);
    }

    method InsertAlone(key: K, value: V, ghost cursor: nat)
      requires table.Valid() && D.HasRoomFor(table.hash, table.threshold, table.View(), key)
      modifies table, table.dir
      ensures table.Valid() && State(cursor) ==
              old(State(cursor)).(dir := D.Insert(table.hash, table.threshold, old(table.View()), key, value))
    {
      table.Insert(key, value);
    }

    /** A write while the snapshot is under way at `cursor`: the callback first, then the change. */
    method Insert(key: K, value: V, now: int, ghost cursor: nat)
      requires table.Valid() && D.HasRoomFor(table.hash, table.threshold, table.View(), key)
      modifies this`written, table, table.dir
      ensures table.Valid() && State(cursor) == S.Step(Config(), old(State(cursor)), S.Insert(key, value, now))
    {
      ghost var c, s := Config(), State(cursor);
      BeforeChange(key, now, cursor);
      S.InsertStep(c, s, key, value, now, State(cursor));
      InsertAlone(key, value, cursor);
    }

    method Erase(key: K, now: int, ghost cursor: nat)
      requires table.Valid()
      modifies this`written, table.dir
      ensures table.Valid() && State(cursor) == S.Step(Config(), old(State(cursor)), S.Erase(key, now))
    {
      OnPreModify(table.Index(key), now, cursor);
      var _ := table.Erase(key);
    }

    /**
     `SerializeDB` without interruption, into a serializer that may hold other databases already;
     `clock` gives the time each segment is serialized at.
     */
    method SerializeDB(clock: nat -> int, at: int)
      requires table.Valid()
      requires forall i :: 0 <= i < |table.dir| ==> table.dir[i].version < epoch
      requires forall n :: S.Steady(Config(), at, clock(n))
      modifies this`written, table.dir
      ensures table.Valid() && table.Contents() == old(table.Contents())
      ensures multiset(written) == old(multiset(written)) + S.Written(Config(), table.Contents(), at)
    {
      ghost var base := multiset(written);
      var size := table.Size();
      if size == 0 {
        assert table.Contents() == map[];
        return;
      }
      S.FreshInv(Config(), at, S.Since(State(0), base));
      S.TurnsWriteAll(Config(), table.Contents(), at, State(0), clock, base);
      WriteAll(clock);
    }

    /** One turn of the serializing loop, up to the cursor's next position. */
    method WriteOne(i: nat, now: int) returns (next: nat)
      requires table.Valid() && i < |table.dir|
      modifies this`written, table.dir
      ensures table.Valid() && table.Contents() == old(table.Contents())
      ensures State(next) == S.Turn(Config(), old(State(i)), now)
    {
      OnPreModify(i, now, i);
      D.DepthsAreOk(table.hash, table.View());
      assert table.dir[i].depth == table.View().slots[i].depth;
      next := table.NextSeg(i);
    }

    method WriteAll(clock: nat -> int)
      requires table.Valid()
      modifies this`written, table.dir
      ensures table.Valid() && table.Contents() == old(table.Contents())
      ensures multiset(written) == S.Turns(Config(), old(State(0)), clock).emitted
    {
      var i: nat := 0;
      ghost var c, end := Config(), S.Turns(Config(), State(0), clock);
      while i < |table.dir|
        invariant unchanged(table) && table.Valid() && table.Contents() == old(table.Contents())
        invariant S.Turns(c, State(i), clock) == end
        decreases |table.dir| - i
      {
        S.TurnOk(c, State(i), clock(i));
        i := WriteOne(i, clock(i));
      }
    }
  }

  // ----- listing a map one pair at a time -----

  lemma ListedStep<K, V>(entries: seq<(K, V)>, m: map<K, V>, a: nat)
    requires T.Enumerates(entries, m) && a < |entries|
    ensures entries[a].0 !in H.ToMap(entries[..a])
    ensures H.ToMap(entries[..a + 1]) == H.ToMap(entries[..a])[entries[a].0 := entries[a].1]
  {
    H.ToMapKeys(entries[..a], entries[a].0);
    assert entries[..a + 1][..a] == entries[..a];
  }

  lemma ListedAll<K(!new), V>(entries: seq<(K, V)>, m: map<K, V>)
    requires T.Enumerates(entries, m)
    ensures H.ToMap(entries[..|entries|]) == m
  {
    assert entries[..|entries|] == entries;
    H.ToMapLookup(entries);
    var listed := H.ToMap(entries);
    forall k ensures k in listed <==> k in m
      ensures k in m ==> listed[k] == m[k]
    {
      if k in m {
        var a :| 0 <= a < |entries| && entries[a] == (k, m[k]);
        assert entries[a].0 == k;
      }
    }
  }

  lemma OneMore<K(!new), V(!new)>(c: S.Config<K, V>, m: map<K, V>, key: K, value: V, now: int)
    requires key !in m
    ensures S.Written(c, m[key := value], now) ==
            if S.Live(c, key, now) then S.Written(c, m, now) + multiset{S.Entry(key, value, S.ExpireMs(c, key))}
            else S.Written(c, m, now)
  {
  }
}
