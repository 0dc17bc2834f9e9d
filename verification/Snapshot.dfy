/**
 The versioned snapshot of one table: a cursor walks the directory and writes each
 segment whose version is below the epoch; a writer first has the segment it is
 about to change written. Runs are arbitrary interleavings of writes and cursor steps.
 */
module Snapshot {
  import opened Powers
  import opened Directory
  import opened Growth

  /** What the serializer receives; `expireMs` is 0 for a key without a TTL. */
  datatype Entry<K, V> = Entry(key: K, value: V, expireMs: int)

  /** What stays fixed during a snapshot. */
  datatype Config<!K, V> = Config(hash: K -> Hash64, threshold: nat, epoch: nat, expires: map<K, int>)

  datatype State<K(==), V(==)> = State(dir: Dir<K, V>, cursor: nat, emitted: multiset<Entry<K, V>>)

  datatype Op<K, V> =
    | Insert(key: K, value: V, now: int)
    | Erase(key: K, now: int)
    | Visit(now: int)
    | Advance

  predicate Live<K(==), V>(c: Config<K, V>, key: K, now: int) {
    key in c.expires ==> c.expires[key] > now
  }

  function ExpireMs<K(==), V>(c: Config<K, V>, key: K): int {
    if key in c.expires then c.expires[key] else 0
  }

  /** `e` is how an unexpired pair of `m` is written. */
  predicate Writes<K(==), V(==)>(c: Config<K, V>, m: map<K, V>, now: int, e: Entry<K, V>) {
    e.key in m && m[e.key] == e.value && Live(c, e.key, now) && e.expireMs == ExpireMs(c, e.key)
  }

  /** Every unexpired pair of `m`, once. */
  ghost function Written<K(!new), V(!new)>(c: Config<K, V>, m: map<K, V>, now: int): (r: multiset<Entry<K, V>>)
    ensures forall e :: r[e] == if Writes(c, m, now, e) then 1 else 0
  {
    var entries := set k | k in m && Live(c, k, now) :: Entry(k, m[k], ExpireMs(c, k));
    forall e: Entry<K, V> ensures multiset(entries)[e] == if Writes(c, m, now, e) then 1 else 0 {
      if Writes(c, m, now, e) { assert e == Entry(e.key, m[e.key], ExpireMs(c, e.key)); }
    }
    multiset(entries)
  }

  /** `SerializeSegment` and the new version, unless the segment is already in the snapshot. */
  ghost function Mark<K(!new), V(!new)>(c: Config<K, V>, s: State<K, V>, i: nat, now: int): State<K, V>
    requires i < |s.dir.slots|
  {
    if s.dir.slots[i].version < c.epoch
    then s.(emitted := s.emitted + Written(c, s.dir.slots[i].table, now), dir := SetVersion(s.dir, i, c.epoch))
    else s
  }

  ghost function Step<K(!new), V(!new)>(c: Config<K, V>, s: State<K, V>, op: Op<K, V>): State<K, V>
    requires Valid(c.hash, s.dir)
  {
    match op
    case Insert(key, value, now) =>
      var i := Index(c.hash, s.dir.depth, key);
      SetVersionOk(c.hash, s.dir, i, c.epoch);
      var m := Mark(c, s, i, now);
      m.(dir := Directory.Insert(c.hash, c.threshold, m.dir, key, value))
    case Erase(key, now) =>
      var m := Mark(c, s, Index(c.hash, s.dir.depth, key), now);
      m.(dir := Remove(c.hash, m.dir, key))
    case Visit(now) => if s.cursor < |s.dir.slots| then Mark(c, s, s.cursor, now) else s
    case Advance =>
      DepthsAreOk(c.hash, s.dir);
      if s.cursor < |s.dir.slots| && s.dir.slots[s.cursor].version >= c.epoch
      then s.(cursor := NextSeg(s.dir, s.cursor)) else s
  }

  // ----- the invariant -----

  /** The key's segment has not been written yet. */
  predicate Pending<K, V>(c: Config<K, V>, d: Dir<K, V>, key: K)
    requires d.depth <= 64 && |d.slots| == Pow2(d.depth)
  {
    d.slots[Index(c.hash, d.depth, key)].version < c.epoch
  }

  /** Pending keys are as they were at the start; the others are written, as they were, exactly once. */
  ghost predicate PointInTime<K(!new), V(!new)>(c: Config<K, V>, start: map<K, V>, now: int, s: State<K, V>)
    requires Valid(c.hash, s.dir)
  {
    && (forall k {:trigger k in start} :: Pending(c, s.dir, k) ==>
          (k in start <==> k in Contents(c.hash, s.dir)) &&
          (k in start ==> start[k] == Contents(c.hash, s.dir)[k]))
    && (forall e {:trigger s.emitted[e]} ::
          s.emitted[e] == if Writes(c, start, now, e) && !Pending(c, s.dir, e.key) then 1 else 0)
  }

  /** Everything before the cursor is written, and the cursor is between runs. */
  ghost predicate CursorOk<K, V>(c: Config<K, V>, s: State<K, V>) {
    && AtStart(s.dir, s.cursor)
    && forall i :: 0 <= i < s.cursor ==> s.dir.slots[i].version >= c.epoch
  }

  /** The snapshot holds the unexpired entries of `start`, each once, and nothing else. */
  ghost predicate Complete<K(!new), V(!new)>(c: Config<K, V>, start: map<K, V>, now: int, s: State<K, V>) {
    s.emitted == Written(c, start, now)
  }

  /** No entry that was live at the start is left in a segment that has not been written. */
  ghost predicate NothingPending<K(!new), V(!new)>(c: Config<K, V>, start: map<K, V>, now: int, d: Dir<K, V>)
    requires Valid(c.hash, d)
  {
    forall k :: k in start && Live(c, k, now) ==> !Pending(c, d, k)
  }

  /** Nothing wrong and nothing twice is ever written: the snapshot is complete exactly when nothing is pending. */
  lemma CompleteIffNothingPending<K(!new), V(!new)>(c: Config<K, V>, start: map<K, V>, now: int, s: State<K, V>)
    requires Valid(c.hash, s.dir) && PointInTime(c, start, now, s)
    ensures Complete(c, start, now, s) <==> NothingPending(c, start, now, s.dir)
  {
    var w := Written(c, start, now);
    if NothingPending(c, start, now, s.dir) {
      forall e: Entry<K, V> ensures s.emitted[e] == w[e] {
      }
    }
    if Complete(c, start, now, s) {
      forall k | k in start && Live(c, k, now) ensures !Pending(c, s.dir, k) {
        assert w[Entry(k, start[k], ExpireMs(c, k))] == 1;
      }
    }
  }

  lemma DoneIsComplete<K(!new), V(!new)>(c: Config<K, V>, start: map<K, V>, now: int, s: State<K, V>)
    requires Valid(c.hash, s.dir) && PointInTime(c, start, now, s) && CursorOk(c, s)
    requires s.cursor == |s.dir.slots|
    ensures Complete(c, start, now, s)
  {
    CompleteIffNothingPending(c, start, now, s);
  }

  /** No expiry falls due between the start of the snapshot and `now`. */
  ghost predicate Steady<K, V>(c: Config<K, V>, start: int, now: int) {
    forall k :: k in c.expires ==> (c.expires[k] <= start <==> c.expires[k] <= now)
  }

  lemma MarkOk<K(!new), V(!new)>(c: Config<K, V>, start: map<K, V>, at: int, s: State<K, V>, i: nat, now: int)
    requires Valid(c.hash, s.dir) && PointInTime(c, start, at, s) && i < |s.dir.slots| && Steady(c, at, now)
    ensures var s' := Mark(c, s, i, now);
            && Valid(c.hash, s'.dir) && Contents(c.hash, s'.dir) == Contents(c.hash, s.dir)
            && s'.dir.slots[i].version >= c.epoch && |s'.dir.slots| == |s.dir.slots| && s'.dir.depth == s.dir.depth
            && (forall k :: Pending(c, s'.dir, k) <==>
                  Pending(c, s.dir, k) && s.dir.slots[Index(c.hash, s.dir.depth, k)].id != s.dir.slots[i].id)
  {
    SetVersionOk(c.hash, s.dir, i, c.epoch);
    forall k ensures Pending(c, Mark(c, s, i, now).dir, k) <==>
                     Pending(c, s.dir, k) && s.dir.slots[Index(c.hash, s.dir.depth, k)].id != s.dir.slots[i].id
    {
      SameRun(c.hash, s.dir, i, Index(c.hash, s.dir.depth, k));
    }
  }

  lemma PendingIsAsAtStart<K(!new), V(!new)>(c: Config<K, V>, start: map<K, V>, at: int, s: State<K, V>, k: K)
    requires Valid(c.hash, s.dir) && PointInTime(c, start, at, s) && Pending(c, s.dir, k)
    ensures k in start <==> k in s.dir.slots[Index(c.hash, s.dir.depth, k)].table
    ensures k in start ==> start[k] == s.dir.slots[Index(c.hash, s.dir.depth, k)].table[k]
  {
    var m := Contents(c.hash, s.dir);
    assert k in start <==> k in m;
  }

  lemma MarkEntry<K(!new), V(!new)>(c: Config<K, V>, start: map<K, V>, at: int, s: State<K, V>, i: nat, now: int, e: Entry<K, V>)
    requires Valid(c.hash, s.dir) && PointInTime(c, start, at, s) && i < |s.dir.slots| && Steady(c, at, now)
    requires s.dir.slots[i].version < c.epoch
    ensures Written(c, s.dir.slots[i].table, now)[e] ==
            if Writes(c, start, at, e) && Pending(c, s.dir, e.key) &&
               s.dir.slots[Index(c.hash, s.dir.depth, e.key)].id == s.dir.slots[i].id then 1 else 0
  {
    var j := Index(c.hash, s.dir.depth, e.key);
    SameRun(c.hash, s.dir, i, j);
    KeysAtHome(c.hash, s.dir);
    if Pending(c, s.dir, e.key) { PendingIsAsAtStart(c, start, at, s, e.key); }
    assert Live(c, e.key, now) <==> Live(c, e.key, at);
  }

  lemma MarkKeeps<K(!new), V(!new)>(c: Config<K, V>, start: map<K, V>, at: int, s: State<K, V>, i: nat, now: int)
    requires Valid(c.hash, s.dir) && PointInTime(c, start, at, s) && i < |s.dir.slots| && Steady(c, at, now)
    ensures Valid(c.hash, Mark(c, s, i, now).dir) && PointInTime(c, start, at, Mark(c, s, i, now))
  {
    MarkOk(c, start, at, s, i, now);
    var s' := Mark(c, s, i, now);
    if s.dir.slots[i].version < c.epoch {
      forall e: Entry<K, V>
        ensures s'.emitted[e] == if Writes(c, start, at, e) && !Pending(c, s'.dir, e.key) then 1 else 0
      {
        MarkEntry(c, start, at, s, i, now, e);
        assert s.emitted[e] == if Writes(c, start, at, e) && !Pending(c, s.dir, e.key) then 1 else 0;
        SameRun(c.hash, s.dir, i, Index(c.hash, s.dir.depth, e.key));
      }
    }
  }

  /** Counting only what was written after `base`. */
  ghost function Since<K, V>(s: State<K, V>, base: multiset<Entry<K, V>>): State<K, V> {
    s.(emitted := s.emitted - base)
  }

  /** Marking does not look at what was written before. */
  lemma MarkSince<K(!new), V(!new)>(c: Config<K, V>, s: State<K, V>, i: nat, now: int, base: multiset<Entry<K, V>>)
    requires i < |s.dir.slots| && base <= s.emitted
    ensures base <= Mark(c, s, i, now).emitted
    ensures Mark(c, Since(s, base), i, now) == Since(Mark(c, s, i, now), base)
  {
    var w := Written(c, s.dir.slots[i].table, now);
    assert s.emitted - base + w == s.emitted + w - base;
  }

  lemma MarkKeepsCursor<K(!new), V(!new)>(c: Config<K, V>, s: State<K, V>, i: nat, now: int)
    requires Valid(c.hash, s.dir) && CursorOk(c, s) && i < |s.dir.slots|
    ensures CursorOk(c, Mark(c, s, i, now))
  {
    forall j | 0 <= j < |s.dir.slots| ensures s.dir.slots[j].id == s.dir.slots[i].id ==> s.dir.slots[j] == s.dir.slots[i] {
      SameRun(c.hash, s.dir, i, j);
    }
  }

  // ----- writes -----

  lemma IndexAncestor<K>(hash: K -> Hash64, shorter: nat, longer: nat, key: K)
    requires shorter <= longer <= 64
    ensures ShiftRight(Index(hash, longer, key), longer - shorter) == Index(hash, shorter, key)
  {
    ShiftTwice(hash(key), 64 - longer, longer - shorter);
  }

  lemma {:induction false} ShiftLe(j: nat, k: nat)
    ensures ShiftRight(j, k) <= j
    decreases k
  {
    if k > 0 { ShiftLe(j / 2, k - 1); }
  }

  /** A write leaves every segment pending that was, even across doublings. */
  lemma InsertPending<K(!new), V(!new)>(c: Config<K, V>, d: Dir<K, V>, d': Dir<K, V>, k: K)
    requires Valid(c.hash, d) && Valid(c.hash, d') && Descends(d, d')
    ensures Pending(c, d', k) <==> Pending(c, d, k)
  {
    assert SlotDescends(d, d', Index(c.hash, d'.depth, k));
    IndexAncestor(c.hash, d.depth, d'.depth, k);
  }

  /** A change of one key that is not pending, with the pending segments as before. */
  lemma ChangeKeeps<K(!new), V(!new)>(c: Config<K, V>, start: map<K, V>, at: int, s: State<K, V>, d': Dir<K, V>, key: K)
    requires Valid(c.hash, s.dir) && Valid(c.hash, d') && PointInTime(c, start, at, s) && !Pending(c, s.dir, key)
    requires forall k :: Pending(c, d', k) <==> Pending(c, s.dir, k)
    requires forall k :: k != key ==> (k in Contents(c.hash, d') <==> k in Contents(c.hash, s.dir))
    requires forall k :: k != key && k in Contents(c.hash, d') ==> Contents(c.hash, d')[k] == Contents(c.hash, s.dir)[k]
    ensures PointInTime(c, start, at, s.(dir := d'))
  {
  }

  /** A write to a key that is not pending keeps the snapshot a point-in-time picture, even across doublings. */
  lemma InsertKeeps<K(!new), V(!new)>(c: Config<K, V>, start: map<K, V>, at: int, s: State<K, V>, key: K, value: V)
    requires Valid(c.hash, s.dir) && PointInTime(c, start, at, s) && !Pending(c, s.dir, key)
    ensures PointInTime(c, start, at, s.(dir := Directory.Insert(c.hash, c.threshold, s.dir, key, value)))
  {
    var d' := Directory.Insert(c.hash, c.threshold, s.dir, key, value);
    forall k ensures Pending(c, d', k) <==> Pending(c, s.dir, k) {
      InsertPending(c, s.dir, d', k);
    }
    ChangeKeeps(c, start, at, s, d', key);
  }

  /** What lies before the cursor descends from what lay before it, so it is still written. */
  lemma BeforeCursor<K(!new), V(!new)>(c: Config<K, V>, d: Dir<K, V>, d': Dir<K, V>, cursor: nat, j: nat)
    requires Valid(c.hash, d) && Valid(c.hash, d') && Descends(d, d')
    requires j < cursor <= |d.slots| && forall i :: 0 <= i < cursor ==> d.slots[i].version >= c.epoch
    ensures j < |d'.slots| && d'.slots[j].version >= c.epoch
  {
    Pow2Mono(d.depth, d'.depth);
    assert SlotDescends(d, d', j);
    ShiftLe(j, d'.depth - d.depth);
  }

  /** After an insertion everything before the cursor is still written; only its place between runs may be lost. */
  lemma InsertCursor<K(!new), V(!new)>(c: Config<K, V>, s: State<K, V>, d': Dir<K, V>)
    requires Valid(c.hash, s.dir) && CursorOk(c, s) && Valid(c.hash, d') && Descends(s.dir, d')
    ensures CursorOk(c, s.(dir := d')) <==> AtStart(d', s.cursor)
  {
    forall j | 0 <= j < s.cursor ensures j < |d'.slots| && d'.slots[j].version >= c.epoch {
      BeforeCursor(c, s.dir, d', s.cursor, j);
    }
  }

  /** Told before the call: inserting `key` will leave the cursor between runs. */
  ghost predicate CursorSafe<K(!new), V(!new)>(c: Config<K, V>, s: State<K, V>, key: K)
    requires Valid(c.hash, s.dir)
  {
    StartAfter(c.hash, c.threshold, s.dir, key, s.cursor)
  }

  /** Marking a segment does not change what an insertion will do to the cursor. */
  lemma MarkKeepsSafety<K(!new), V(!new)>(c: Config<K, V>, s: State<K, V>, i: nat, now: int, key: K)
    requires Valid(c.hash, s.dir) && i < |s.dir.slots|
    ensures Valid(c.hash, Mark(c, s, i, now).dir)
    ensures CursorSafe(c, Mark(c, s, i, now), key) <==> CursorSafe(c, s, key)
  {
    SetVersionOk(c.hash, s.dir, i, c.epoch);
    var d' := Mark(c, s, i, now).dir;
    forall j | 0 <= j < |s.dir.slots| ensures d'.slots[j].depth == s.dir.slots[j].depth && d'.slots[j].id == s.dir.slots[j].id {
      SameRun(c.hash, s.dir, i, j);
    }
    SameShape(c.hash, c.threshold, s.dir, d', key, s.cursor);
  }

  /** Exact: an insertion keeps the cursor's invariant if and only if the cursor was safe for it. */
  lemma InsertCursorExact<K(!new), V(!new)>(c: Config<K, V>, s: State<K, V>, key: K, value: V, now: int)
    requires Valid(c.hash, s.dir) && CursorOk(c, s)
    ensures CursorOk(c, Step(c, s, Insert(key, value, now))) <==> CursorSafe(c, s, key)
  {
    var i := Index(c.hash, s.dir.depth, key);
    MarkKeepsSafety(c, s, i, now, key);
    MarkKeepsCursor(c, s, i, now);
    var m := Mark(c, s, i, now);
    StartAfterInsert(c.hash, c.threshold, m.dir, key, value, s.cursor);
    InsertCursor(c, m, Directory.Insert(c.hash, c.threshold, m.dir, key, value));
  }

  /** No cursor is unsafe for an insertion that does not double, and cursor 0 is safe for every insertion. */
  lemma SafeCursors<K(!new), V(!new)>(c: Config<K, V>, s: State<K, V>, key: K)
    requires Valid(c.hash, s.dir) && CursorOk(c, s)
    ensures InsertDepth(c.hash, c.threshold, s.dir, key) <= s.dir.depth ==> CursorSafe(c, s, key)
    ensures s.cursor == 0 ==> CursorSafe(c, s, key)
  {
    if InsertDepth(c.hash, c.threshold, s.dir, key) <= s.dir.depth {
      NoDoublingIsSafe(c.hash, c.threshold, s.dir, key, s.cursor);
    }
    ZeroIsSafe(c.hash, c.threshold, s.dir, key);
  }

  /** From inside a run, the next step of the cursor goes past the end of that run: it enters a later one unseen. */
  lemma OffStartSkips<K(!new), V(!new)>(hash: K -> Hash64, d: Dir<K, V>, cursor: nat)
    requires Valid(hash, d) && cursor < |d.slots| && !AtStart(d, cursor)
    ensures d.slots[cursor].depth <= d.depth
    ensures var end := d.slots[cursor].id + Pow2(d.depth - d.slots[cursor].depth);
            end < NextSeg(d, cursor) && (end < |d.slots| ==> AtStart(d, end) && d.slots[end].id != d.slots[cursor].id)
  {
    SameRun(hash, d, cursor, cursor);
    var start := d.slots[cursor].id;
    SameRun(hash, d, cursor, start);
    NextSegStart(hash, d, start);
    var end := start + Pow2(d.depth - d.slots[cursor].depth);
    if end < |d.slots| { SameRun(hash, d, cursor, end); }
  }

  lemma EraseKeeps<K(!new), V(!new)>(c: Config<K, V>, start: map<K, V>, at: int, s: State<K, V>, key: K)
    requires Valid(c.hash, s.dir) && PointInTime(c, start, at, s) && !Pending(c, s.dir, key)
    ensures var s' := s.(dir := Remove(c.hash, s.dir, key));
            Valid(c.hash, s'.dir) && PointInTime(c, start, at, s') && (CursorOk(c, s) ==> CursorOk(c, s'))
  {
    RemoveOk(c.hash, s.dir, key);
    var d' := Remove(c.hash, s.dir, key);
    forall j | 0 <= j < |s.dir.slots| ensures d'.slots[j].version == s.dir.slots[j].version && d'.slots[j].id == s.dir.slots[j].id {
      SameRun(c.hash, s.dir, Index(c.hash, s.dir.depth, key), j);
    }
  }

  lemma AdvanceKeeps<K(!new), V(!new)>(c: Config<K, V>, s: State<K, V>)
    requires Valid(c.hash, s.dir) && CursorOk(c, s) && s.cursor < |s.dir.slots|
    requires s.dir.slots[s.cursor].version >= c.epoch
    ensures s.dir.slots[s.cursor].depth <= s.dir.depth
    ensures CursorOk(c, s.(cursor := NextSeg(s.dir, s.cursor)))
    ensures NextSeg(s.dir, s.cursor) > s.cursor
  {
    NextSegStart(c.hash, s.dir, s.cursor);
  }

  /** One turn of the serializing loop: write the segment under the cursor, go to the next. */
  ghost function Turn<K(!new), V(!new)>(c: Config<K, V>, s: State<K, V>, now: int): State<K, V>
    requires Valid(c.hash, s.dir) && s.cursor < |s.dir.slots|
  {
    SetVersionOk(c.hash, s.dir, s.cursor, c.epoch);
    var m := Mark(c, s, s.cursor, now);
    DepthsAreOk(c.hash, m.dir);
    m.(cursor := NextSeg(m.dir, s.cursor))
  }

  lemma TurnKeeps<K(!new), V(!new)>(
    c: Config<K, V>, start: map<K, V>, at: int, s: State<K, V>, now: int, base: multiset<Entry<K, V>>)
    requires Inv(c, start, at, Since(s, base)) && base <= s.emitted
    requires s.cursor < |s.dir.slots| && Steady(c, at, now)
    ensures Inv(c, start, at, Since(Turn(c, s, now), base))
    ensures base <= Turn(c, s, now).emitted && s.cursor < Turn(c, s, now).cursor
  {
    var t := Since(s, base);
    MarkSince(c, s, s.cursor, now, base);
    MarkOk(c, start, at, t, s.cursor, now);
    MarkKeeps(c, start, at, t, s.cursor, now);
    MarkKeepsCursor(c, t, s.cursor, now);
    AdvanceKeeps(c, Mark(c, t, s.cursor, now));
  }

  lemma DoneSince<K(!new), V(!new)>(c: Config<K, V>, start: map<K, V>, at: int, s: State<K, V>, base: multiset<Entry<K, V>>)
    requires Inv(c, start, at, Since(s, base)) && base <= s.emitted && s.cursor >= |s.dir.slots|
    ensures s.emitted == base + Written(c, start, at)
  {
    DoneIsComplete(c, start, at, Since(s, base));
  }

  lemma TurnOk<K(!new), V(!new)>(c: Config<K, V>, s: State<K, V>, now: int)
    requires Valid(c.hash, s.dir) && s.cursor < |s.dir.slots|
    ensures Valid(c.hash, Turn(c, s, now).dir) && |Turn(c, s, now).dir.slots| == |s.dir.slots|
    ensures s.cursor < Turn(c, s, now).cursor
  {
    SetVersionOk(c.hash, s.dir, s.cursor, c.epoch);
  }

  /** The serializing loop without a writer. */
  ghost function Turns<K(!new), V(!new)>(c: Config<K, V>, s: State<K, V>, clock: nat -> int): State<K, V>
    requires Valid(c.hash, s.dir)
    decreases |s.dir.slots| - s.cursor
  {
    if s.cursor >= |s.dir.slots| then s
    else
      TurnOk(c, s, clock(s.cursor));
      Turns(c, Turn(c, s, clock(s.cursor)), clock)
  }

  /** It adds exactly the content at its start. */
  lemma {:induction false} TurnsWriteAll<K(!new), V(!new)>(
    c: Config<K, V>, start: map<K, V>, at: int, s: State<K, V>, clock: nat -> int, base: multiset<Entry<K, V>>)
    requires Inv(c, start, at, Since(s, base)) && base <= s.emitted && forall n :: Steady(c, at, clock(n))
    ensures Turns(c, s, clock).emitted == base + Written(c, start, at)
    decreases |s.dir.slots| - s.cursor
  {
    if s.cursor >= |s.dir.slots| {
      DoneSince(c, start, at, s, base);
    } else {
      TurnOk(c, s, clock(s.cursor));
      TurnKeeps(c, start, at, s, clock(s.cursor), base);
      TurnsWriteAll(c, start, at, Turn(c, s, clock(s.cursor)), clock, base);
    }
  }

  /** The writer's step: callback, then the change. */
  lemma InsertStep<K(!new), V(!new)>(c: Config<K, V>, s: State<K, V>, key: K, value: V, now: int, m: State<K, V>)
    requires Valid(c.hash, s.dir) && Valid(c.hash, m.dir)
    requires m == Mark(c, s, Index(c.hash, s.dir.depth, key), now)
    ensures Step(c, s, Insert(key, value, now)) == m.(dir := Directory.Insert(c.hash, c.threshold, m.dir, key, value))
  {
  }

  // ----- every interleaving -----

  ghost predicate Inv<K(!new), V(!new)>(c: Config<K, V>, start: map<K, V>, at: int, s: State<K, V>) {
    Valid(c.hash, s.dir) && PointInTime(c, start, at, s) && CursorOk(c, s)
  }

  ghost predicate OnTime<K, V>(c: Config<K, V>, at: int, op: Op<K, V>) {
    op.Advance? || Steady(c, at, op.now)
  }

  lemma StepValid<K(!new), V(!new)>(c: Config<K, V>, s: State<K, V>, op: Op<K, V>)
    requires Valid(c.hash, s.dir)
    ensures Valid(c.hash, Step(c, s, op).dir) && s.dir.depth <= Step(c, s, op).dir.depth
  {
    match op
    case Insert(key, _, _) => SetVersionOk(c.hash, s.dir, Index(c.hash, s.dir.depth, key), c.epoch);
    case Erase(key, now) =>
      var i := Index(c.hash, s.dir.depth, key);
      SetVersionOk(c.hash, s.dir, i, c.epoch);
      RemoveOk(c.hash, Mark(c, s, i, now).dir, key);
    case Visit(_) => if s.cursor < |s.dir.slots| { SetVersionOk(c.hash, s.dir, s.cursor, c.epoch); }
    case Advance =>
  }

  /** Each step, of any kind and with any cursor, keeps the snapshot a picture of the start. */
  lemma StepPoint<K(!new), V(!new)>(c: Config<K, V>, start: map<K, V>, at: int, s: State<K, V>, op: Op<K, V>)
    requires Valid(c.hash, s.dir) && PointInTime(c, start, at, s) && OnTime(c, at, op)
    ensures Valid(c.hash, Step(c, s, op).dir) && PointInTime(c, start, at, Step(c, s, op))
  {
    match op
    case Insert(key, value, now) =>
      var i := Index(c.hash, s.dir.depth, key);
      MarkOk(c, start, at, s, i, now);
      MarkKeeps(c, start, at, s, i, now);
      InsertKeeps(c, start, at, Mark(c, s, i, now), key, value);
    case Erase(key, now) =>
      var i := Index(c.hash, s.dir.depth, key);
      MarkOk(c, start, at, s, i, now);
      MarkKeeps(c, start, at, s, i, now);
      EraseKeeps(c, start, at, Mark(c, s, i, now), key);
    case Visit(now) => if s.cursor < |s.dir.slots| { MarkKeeps(c, start, at, s, s.cursor, now); }
    case Advance =>
  }

  /** An insertion is unsafe when it doubles the directory so that the cursor ends inside a run. */
  ghost predicate SafeOp<K(!new), V(!new)>(c: Config<K, V>, s: State<K, V>, op: Op<K, V>)
    requires Valid(c.hash, s.dir)
  {
    op.Insert? ==> CursorSafe(c, s, op.key)
  }

  /** A step keeps the invariant exactly when it is safe. */
  lemma StepKeeps<K(!new), V(!new)>(c: Config<K, V>, start: map<K, V>, at: int, s: State<K, V>, op: Op<K, V>)
    requires Inv(c, start, at, s) && OnTime(c, at, op)
    ensures Inv(c, start, at, Step(c, s, op)) <==> SafeOp(c, s, op)
  {
    StepPoint(c, start, at, s, op);
    match op
    case Insert(key, value, now) => InsertCursorExact(c, s, key, value, now);
    case Erase(key, now) =>
      var i := Index(c.hash, s.dir.depth, key);
      MarkOk(c, start, at, s, i, now);
      MarkKeeps(c, start, at, s, i, now);
      MarkKeepsCursor(c, s, i, now);
      EraseKeeps(c, start, at, Mark(c, s, i, now), key);
    case Visit(now) => if s.cursor < |s.dir.slots| { MarkKeepsCursor(c, s, s.cursor, now); }
    case Advance =>
      if s.cursor < |s.dir.slots| && s.dir.slots[s.cursor].version >= c.epoch { AdvanceKeeps(c, s); }
  }

  ghost function Run<K(!new), V(!new)>(c: Config<K, V>, s: State<K, V>, ops: seq<Op<K, V>>): (s': State<K, V>)
    requires Valid(c.hash, s.dir)
    ensures Valid(c.hash, s'.dir) && s.dir.depth <= s'.dir.depth
    decreases |ops|
  {
    if ops == [] then s
    else
      StepValid(c, s, ops[0]);
      Run(c, Step(c, s, ops[0]), ops[1..])
  }

  /** Every run, doubling or not, keeps the snapshot a picture of the start. */
  lemma {:induction false} RunPoint<K(!new), V(!new)>(c: Config<K, V>, start: map<K, V>, at: int, s: State<K, V>, ops: seq<Op<K, V>>)
    requires Valid(c.hash, s.dir) && PointInTime(c, start, at, s) && (forall i :: 0 <= i < |ops| ==> OnTime(c, at, ops[i]))
    ensures PointInTime(c, start, at, Run(c, s, ops))
    decreases |ops|
  {
    if ops != [] {
      StepPoint(c, start, at, s, ops[0]);
      RunPoint(c, start, at, Step(c, s, ops[0]), ops[1..]);
    }
  }

  /** Every insertion of the run finds a cursor that is safe for it. */
  ghost predicate SafeRun<K(!new), V(!new)>(c: Config<K, V>, s: State<K, V>, ops: seq<Op<K, V>>)
    requires Valid(c.hash, s.dir)
    decreases |ops|
  {
    ops == [] || (SafeOp(c, s, ops[0]) && (StepValid(c, s, ops[0]); SafeRun(c, Step(c, s, ops[0]), ops[1..])))
  }

  lemma {:induction false} RunKeeps<K(!new), V(!new)>(c: Config<K, V>, start: map<K, V>, at: int, s: State<K, V>, ops: seq<Op<K, V>>)
    requires Inv(c, start, at, s) && (forall i :: 0 <= i < |ops| ==> OnTime(c, at, ops[i])) && SafeRun(c, s, ops)
    ensures Inv(c, start, at, Run(c, s, ops))
    decreases |ops|
  {
    if ops != [] {
      StepKeeps(c, start, at, s, ops[0]);
      RunKeeps(c, start, at, Step(c, s, ops[0]), ops[1..]);
    }
  }

  /** The depth an insertion reaches is the one told beforehand. */
  lemma StepDepth<K(!new), V(!new)>(c: Config<K, V>, s: State<K, V>, key: K, value: V, now: int)
    requires Valid(c.hash, s.dir)
    ensures Step(c, s, Insert(key, value, now)).dir.depth == s.dir.depth ==>
            InsertDepth(c.hash, c.threshold, s.dir, key) <= s.dir.depth
  {
    var i := Index(c.hash, s.dir.depth, key);
    var m := Mark(c, s, i, now);
    SetVersionOk(c.hash, s.dir, i, c.epoch);
    SameRun(c.hash, s.dir, i, i);
    InsertGrows(c.hash, c.threshold, m.dir, key, value, 0);
  }

  /** A run that never doubles the directory is safe. */
  lemma {:induction false} FixedDepthIsSafe<K(!new), V(!new)>(c: Config<K, V>, start: map<K, V>, at: int, s: State<K, V>, ops: seq<Op<K, V>>)
    requires Inv(c, start, at, s) && (forall i :: 0 <= i < |ops| ==> OnTime(c, at, ops[i]))
    requires Run(c, s, ops).dir.depth == s.dir.depth
    ensures SafeRun(c, s, ops)
    decreases |ops|
  {
    if ops != [] {
      var op := ops[0];
      StepValid(c, s, op);
      if op.Insert? {
        StepDepth(c, s, op.key, op.value, op.now);
        SafeCursors(c, s, op.key);
      }
      StepKeeps(c, start, at, s, op);
      FixedDepthIsSafe(c, start, at, Step(c, s, op), ops[1..]);
    }
  }

  /** The start of `SerializeDB`: nothing written, every segment below the epoch. */
  ghost predicate Fresh<K(!new), V(!new)>(c: Config<K, V>, s: State<K, V>) {
    && Valid(c.hash, s.dir) && s.cursor == 0 && s.emitted == multiset{}
    && forall i :: 0 <= i < |s.dir.slots| ==> s.dir.slots[i].version < c.epoch
  }

  lemma FreshInv<K(!new), V(!new)>(c: Config<K, V>, at: int, s: State<K, V>)
    requires Fresh(c, s)
    ensures Inv(c, Contents(c.hash, s.dir), at, s)
  {
    SameRun(c.hash, s.dir, 0, 0);
  }

  /**
   For every interleaving of insertions, erasures and cursor steps, at every moment: what has been
   written is exactly the unexpired content of the table at the start, each entry once, but for the
   entries of the segments still pending. So it is complete exactly when nothing is pending.
   */
  lemma EveryRunIsPointInTime<K(!new), V(!new)>(c: Config<K, V>, at: int, s: State<K, V>, ops: seq<Op<K, V>>)
    requires Fresh(c, s) && (forall i :: 0 <= i < |ops| ==> OnTime(c, at, ops[i]))
    ensures PointInTime(c, Contents(c.hash, s.dir), at, Run(c, s, ops))
    ensures Complete(c, Contents(c.hash, s.dir), at, Run(c, s, ops)) <==>
            NothingPending(c, Contents(c.hash, s.dir), at, Run(c, s, ops).dir)
  {
    FreshInv(c, at, s);
    RunPoint(c, Contents(c.hash, s.dir), at, s, ops);
    CompleteIffNothingPending(c, Contents(c.hash, s.dir), at, Run(c, s, ops));
  }

  /** If every insertion found a safe cursor, the snapshot is complete once the cursor has reached the end. */
  lemma SafeSnapshotIsComplete<K(!new), V(!new)>(c: Config<K, V>, at: int, s: State<K, V>, ops: seq<Op<K, V>>)
    requires Fresh(c, s) && (forall i :: 0 <= i < |ops| ==> OnTime(c, at, ops[i])) && SafeRun(c, s, ops)
    requires Run(c, s, ops).cursor == |Run(c, s, ops).dir.slots|
    ensures Complete(c, Contents(c.hash, s.dir), at, Run(c, s, ops))
  {
    FreshInv(c, at, s);
    RunKeeps(c, Contents(c.hash, s.dir), at, s, ops);
    DoneIsComplete(c, Contents(c.hash, s.dir), at, Run(c, s, ops));
  }

  /** In particular if the directory never doubled. */
  lemma SnapshotIsPointInTime<K(!new), V(!new)>(c: Config<K, V>, at: int, s: State<K, V>, ops: seq<Op<K, V>>)
    requires Fresh(c, s) && (forall i :: 0 <= i < |ops| ==> OnTime(c, at, ops[i]))
    requires Run(c, s, ops).dir.depth == s.dir.depth
    requires Run(c, s, ops).cursor == |Run(c, s, ops).dir.slots|
    ensures Complete(c, Contents(c.hash, s.dir), at, Run(c, s, ops))
  {
    FreshInv(c, at, s);
    FixedDepthIsSafe(c, Contents(c.hash, s.dir), at, s, ops);
    SafeSnapshotIsComplete(c, at, s, ops);
  }

  // ----- the defect: a doubling under the cursor -----

  /** A hash that puts the three low bits of the key in front. */
  function OctHash(k: int): Hash64 {
    Pow2Constants();
    ShiftLeftPow(3, 61);
    ShiftLeftFacts(k % 8, 0, 8, 61);
    ShiftLeft(k % 8, 61)
  }

  /** `hash` selects slots by the three low bits of the key. */
  ghost predicate Oct(hash: int -> Hash64) {
    forall k {:trigger hash(k)} :: Index(hash, 3, k) == k % 8 && Index(hash, 2, k) == k % 8 / 2
  }

  lemma OctExists()
    ensures Oct(OctHash)
  {
    forall k ensures Index(OctHash, 3, k) == k % 8 && Index(OctHash, 2, k) == k % 8 / 2 {
      ShiftLeftFacts(k % 8, 0, 0, 61);
      ShiftHalf(OctHash(k), 61);
    }
  }

  const SEG_A: Seg<int, int> := Seg(map[], 1, 0, 1)
  const SEG_B: Seg<int, int> := Seg(map[4 := 40], 2, 2, 0)
  const SEG_C: Seg<int, int> := Seg(map[6 := 60], 2, 3, 0)

  /** Segment A is written, B is under the cursor, C has one key and splits at two. */
  const BEFORE: Dir<int, int> := Dir(2, [SEG_A, SEG_A, SEG_B, SEG_C])

  /** The same before the snapshot: nothing written. */
  const AT_START: Dir<int, int> := Dir(2, [SEG_A.(version := 0), SEG_A.(version := 0), SEG_B, SEG_C])

  const AFTER: Dir<int, int> :=
    Dir(3, [SEG_A, SEG_A, SEG_A, SEG_A, Seg(map[4 := 40], 2, 4, 0), Seg(map[4 := 40], 2, 4, 0),
            Seg(map[6 := 60], 3, 6, 1), Seg(map[7 := 70], 3, 7, 1)])

  lemma BeforeIsValid(hash: int -> Hash64)
    requires Oct(hash)
    ensures Valid(hash, BEFORE) && Contents(hash, BEFORE) == map[4 := 40, 6 := 60]
  {
    assert Pow2(2) == 4;
    forall i | 0 <= i < 4 ensures SlotOk(hash, BEFORE, i) {
      BeforeSlot(hash, i);
    }
    var m := Contents(hash, BEFORE);
    forall k ensures k in m <==> k == 4 || k == 6 {
      var _ := hash(k);
    }
  }

  lemma BeforeSlot(hash: int -> Hash64, i: nat)
    requires Oct(hash) && i < 4
    ensures SlotOk(hash, BEFORE, i)
  {
    assert AlignDown(i, 1) == 2 * AlignDown(i / 2, 0);
    assert IdOk(BEFORE, i) && RunOk(BEFORE, i);
    forall k | k in BEFORE.slots[i].table
      ensures BEFORE.slots[i].id <= Index(hash, 2, k) < BEFORE.slots[i].id + Pow2(2 - BEFORE.slots[i].depth)
    {
      var _ := hash(k);
    }
  }

  const FULL: Seg<int, int> := Seg(map[6 := 60, 7 := 70], 2, 3, 1)

  /** Inserting key 7 fills C. */
  lemma PutSeven(hash: int -> Hash64)
    requires Oct(hash)
    ensures SetVersion(BEFORE, 3, 1) == Dir(2, [SEG_A, SEG_A, SEG_B, SEG_C.(version := 1)])
    ensures |BEFORE.slots| == Pow2(2)
    ensures Put(hash, SetVersion(BEFORE, 3, 1), 7, 70) == WITH_SEVEN
  {
    assert Pow2(2) == 4;
    var _ := hash(7);
    assert SetVersion(BEFORE, 3, 1) == Dir(2, [SEG_A, SEG_A, SEG_B, SEG_C.(version := 1)]);
  }

  /** The keys of `t` are those below the middle. */
  ghost predicate Takes<K(!new), V>(hash: K -> Hash64, depth: nat, s: Seg<K, V>, mid: nat, t: map<K, V>, below: bool)
    requires depth <= 64
  {
    && (forall k :: k in t ==> k in s.table && s.table[k] == t[k])
    && (forall k :: k in s.table ==> (k in t <==> (Index(hash, depth, k) < mid) == below))
  }

  lemma LowerIs<K(!new), V>(hash: K -> Hash64, depth: nat, s: Seg<K, V>, mid: nat, t: map<K, V>)
    requires depth <= 64 && Takes(hash, depth, s, mid, t, true)
    ensures Lower(hash, depth, s, mid) == s.(depth := s.depth + 1, table := t)
  {
    assert Lower(hash, depth, s, mid).table == t;
  }

  lemma UpperIs<K(!new), V>(hash: K -> Hash64, depth: nat, s: Seg<K, V>, mid: nat, t: map<K, V>)
    requires depth <= 64 && Takes(hash, depth, s, mid, t, false)
    ensures Upper(hash, depth, s, mid) == Seg(t, s.depth + 1, mid, s.version)
  {
    assert Upper(hash, depth, s, mid).table == t;
  }

  /** Doubling four slots whose last segment is full, and splitting that. */
  lemma SplitLast<K(!new), V>(hash: K -> Hash64, a: Seg<K, V>, b: Seg<K, V>, s: Seg<K, V>, low: map<K, V>, high: map<K, V>)
    requires a.id == 0 && b.id == 2 && s.id == 3 && s.depth == 2
    requires Takes(hash, 3, s, 7, low, true) && Takes(hash, 3, s, 7, high, false)
    ensures var dd, b' := Double(Dir(2, [a, a, b, s])), b.(id := 4);
            && |dd.slots| == 8 && dd.slots[6] == s.(id := 6) && dd.depth == 3
            && Split(hash, dd, 6) == Dir(3, [a, a, a, a, b', b', Seg(low, 3, 6, s.version), Seg(high, 3, 7, s.version)])
  {
    var dd, b', s' := Double(Dir(2, [a, a, b, s])), b.(id := 4), s.(id := 6);
    assert dd == Dir(3, [a, a, a, a, b', b', s', s']) && Mid(dd, s') == 7;
    LowerIs(hash, 3, s', 7, low);
    UpperIs(hash, 3, s', 7, high);
    assert Split(hash, dd, 6).slots == [a, a, a, a, b', b', Seg(low, 3, 6, s.version), Seg(high, 3, 7, s.version)];
  }

  /** So the directory doubles and C splits. */
  lemma SplitSeven(hash: int -> Hash64)
    requires Oct(hash)
    ensures var dd := Double(Dir(2, [SEG_A, SEG_A, SEG_B, FULL]));
            dd.slots[6] == FULL.(id := 6) && dd.depth == 3 && Split(hash, dd, 6) == AFTER
  {
    var _, _ := hash(6), hash(7);
    SplitLast(hash, SEG_A, SEG_B, FULL, map[6 := 60], map[7 := 70]);
  }

  lemma StopsAt<K(!new), V>(hash: K -> Hash64, threshold: nat, d: Dir<K, V>, key: K)
    requires Valid(hash, d) && |d.slots[Index(hash, d.depth, key)].table| < threshold
    ensures SplitWhileFull(hash, threshold, d, key) == d
  {
  }

  lemma GoesOnFrom<K(!new), V>(hash: K -> Hash64, threshold: nat, d: Dir<K, V>, next: Dir<K, V>, end: Dir<K, V>, key: K)
    requires Valid(hash, d) && Valid(hash, next) && SplitWhileFull(hash, threshold, next, key) == end
    requires var s := d.slots[Index(hash, d.depth, key)]; |s.table| >= threshold && s.depth < MAX_DEPTH
    requires SplitOnce(hash, d, Index(hash, d.depth, key)) == next
    ensures SplitWhileFull(hash, threshold, d, key) == end
  {
  }

  const WITH_SEVEN: Dir<int, int> := Dir(2, [SEG_A, SEG_A, SEG_B, FULL])

  lemma StepSeven(hash: int -> Hash64)
    requires Oct(hash) && Valid(hash, WITH_SEVEN)
    ensures Index(hash, 2, 7) == 3 && SplitOnce(hash, WITH_SEVEN, 3) == AFTER && Valid(hash, AFTER)
  {
    var _ := hash(7);
    SplitSeven(hash);
    SplitOnceOk(hash, WITH_SEVEN, 7);
  }

  lemma LoopSeven(hash: int -> Hash64)
    requires Oct(hash) && Valid(hash, WITH_SEVEN)
    ensures SplitWhileFull(hash, 2, WITH_SEVEN, 7) == AFTER
  {
    StepSeven(hash);
    var _ := hash(7);
    assert |FULL.table| == 2 && |AFTER.slots[7].table| == 1;
    StopsAt(hash, 2, AFTER, 7);
    GoesOnFrom(hash, 2, WITH_SEVEN, AFTER, AFTER, 7);
  }

  lemma InsertSeven(hash: int -> Hash64)
    requires Oct(hash)
    ensures var d := SetVersion(BEFORE, 3, 1);
            Valid(hash, d) && Directory.Insert(hash, 2, d, 7, 70) == AFTER
  {
    BeforeIsValid(hash);
    SetVersionOk(hash, BEFORE, 3, 1);
    PutSeven(hash);
    PutOk(hash, SetVersion(BEFORE, 3, 1), 7, 70);
    LoopSeven(hash);
  }

  /** Over a written segment, a visit and an advance only move the cursor. */
  lemma PassWritten<K(!new), V(!new)>(c: Config<K, V>, s: State<K, V>, ops: seq<Op<K, V>>)
    requires Valid(c.hash, s.dir) && s.cursor < |s.dir.slots| && s.dir.slots[s.cursor].version >= c.epoch
    requires |ops| >= 2 && ops[0].Visit? && ops[1].Advance?
    ensures s.dir.slots[s.cursor].depth <= s.dir.depth
    ensures Run(c, s, ops) == Run(c, s.(cursor := NextSeg(s.dir, s.cursor)), ops[2..])
  {
    DepthsAreOk(c.hash, s.dir);
    var rest := ops[2..];
    assert ops == [ops[0]] + ([ops[1]] + rest);
    RunCons(c, s, ops[0], [ops[1]] + rest);
    assert Step(c, s, ops[0]) == s;
    RunCons(c, s, ops[1], rest);
    assert Step(c, s, ops[1]) == s.(cursor := NextSeg(s.dir, s.cursor));
  }

  /**
   From the start of a snapshot of a table without expiries: the cursor writes A and moves to slot 2, an
   insertion doubles the directory, slot 2 is now inside A's run, and the next step jumps over B.
   */
  lemma DoublingSkipsASegment(hash: int -> Hash64)
    requires Oct(hash)
    ensures var c: Config<int, int> := Config(hash, 2, 1, map[]);
            var s: State<int, int> := State(AT_START, 0, multiset{});
            && Fresh(c, s) && Contents(hash, AT_START) == map[4 := 40, 6 := 60]
            && exists ops :: EndsWithout(c, s, ops, Entry(4, 40, 0))
  {
    var c: Config<int, int> := Config(hash, 2, 1, map[]);
    var s: State<int, int> := State(AT_START, 0, multiset{});
    var mid: State<int, int> := State(BEFORE, 2, multiset{});
    StartIsFresh(c, s);
    BeforeIsValid(hash);
    var rest := SkipsB(c, mid);
    ReachesB(c, s, rest);
    assert EndsWithout(c, s, [Visit(0)] + ([Advance] + rest), Entry(4, 40, 0));
  }

  lemma StartIsFresh(c: Config<int, int>, s: State<int, int>)
    requires Oct(c.hash) && c == Config(c.hash, 2, 1, map[]) && s == State(AT_START, 0, multiset{})
    ensures Fresh(c, s) && Contents(c.hash, AT_START) == map[4 := 40, 6 := 60]
  {
    BeforeIsValid(c.hash);
    SetVersionOk(c.hash, BEFORE, 0, 0);
    assert SetVersion(BEFORE, 0, 0) == AT_START;
  }

  // ----- that start is reached from an empty table -----

  const EMPTY_TABLE: Dir<int, int> := Dir(0, [Seg(map[], 0, 0, 0)])
  const ONE_KEY: Dir<int, int> := Dir(0, [Seg(map[4 := 40], 0, 0, 0)])
  const BOTH: Seg<int, int> := Seg(map[4 := 40, 6 := 60], 0, 0, 0)
  const UPPER: Seg<int, int> := Seg(map[4 := 40, 6 := 60], 1, 1, 0)
  const HALVED: Dir<int, int> := Dir(1, [SEG_A.(version := 0), UPPER])

  lemma OctPlaces(hash: int -> Hash64)
    requires Oct(hash)
    ensures Index(hash, 0, 4) == Index(hash, 0, 6) == 0 && Index(hash, 1, 4) == Index(hash, 1, 6) == 1
    ensures Index(hash, 2, 4) == 2 && Index(hash, 2, 6) == 3
  {
    var _, _ := hash(4), hash(6);
    IndexDoubles(hash, 1, 4);
    IndexDoubles(hash, 1, 6);
  }

  lemma EmptyTableIsValid(hash: int -> Hash64)
    ensures Valid(hash, EMPTY_TABLE) && Contents(hash, EMPTY_TABLE) == map[]
  {
    assert Pow2(0) == 1 && SlotOk(hash, EMPTY_TABLE, 0);
    assert forall k :: k !in Contents(hash, EMPTY_TABLE);
  }

  lemma InsertFour(hash: int -> Hash64)
    requires Oct(hash) && Valid(hash, EMPTY_TABLE)
    ensures Directory.Insert(hash, 2, EMPTY_TABLE, 4, 40) == ONE_KEY && Valid(hash, ONE_KEY)
  {
    OctPlaces(hash);
    PutOk(hash, EMPTY_TABLE, 4, 40);
    assert Put(hash, EMPTY_TABLE, 4, 40) == ONE_KEY;
    assert |ONE_KEY.slots[0].table| == 1;
  }

  lemma SplitOnly<K(!new), V>(hash: K -> Hash64, s: Seg<K, V>, low: map<K, V>, high: map<K, V>)
    requires s.id == 0 && s.depth == 0 && Takes(hash, 1, s, 1, low, true) && Takes(hash, 1, s, 1, high, false)
    ensures var dd := Double(Dir(0, [s]));
            && |dd.slots| == 2 && dd.slots[0] == s && dd.depth == 1
            && Split(hash, dd, 0) == Dir(1, [Seg(low, 1, 0, s.version), Seg(high, 1, 1, s.version)])
  {
    var dd := Double(Dir(0, [s]));
    assert dd == Dir(1, [s, s]) && Mid(dd, s) == 1;
    LowerIs(hash, 1, s, 1, low);
    UpperIs(hash, 1, s, 1, high);
    assert Split(hash, dd, 0).slots == [Seg(low, 1, 0, s.version), Seg(high, 1, 1, s.version)];
  }

  lemma SplitUpper<K(!new), V>(hash: K -> Hash64, a: Seg<K, V>, s: Seg<K, V>, low: map<K, V>, high: map<K, V>)
    requires a.id == 0 && s.id == 1 && s.depth == 1 && Takes(hash, 2, s, 3, low, true) && Takes(hash, 2, s, 3, high, false)
    ensures var dd := Double(Dir(1, [a, s]));
            && |dd.slots| == 4 && dd.slots[2] == s.(id := 2) && dd.depth == 2
            && Split(hash, dd, 2) == Dir(2, [a, a, Seg(low, 2, 2, s.version), Seg(high, 2, 3, s.version)])
  {
    var dd, s' := Double(Dir(1, [a, s])), s.(id := 2);
    assert dd == Dir(2, [a, a, s', s']) && Mid(dd, s') == 3;
    LowerIs(hash, 2, s', 3, low);
    UpperIs(hash, 2, s', 3, high);
    assert Split(hash, dd, 2).slots == [a, a, Seg(low, 2, 2, s.version), Seg(high, 2, 3, s.version)];
  }

  /** The first split moves both keys to the upper half. */
  lemma FirstSplit(hash: int -> Hash64)
    requires Oct(hash)
    ensures var dd := Double(Dir(0, [BOTH]));
            dd.slots[0] == BOTH && dd.depth == 1 && Split(hash, dd, 0) == HALVED
  {
    OctPlaces(hash);
    SplitOnly(hash, BOTH, map[], BOTH.table);
  }

  /** The second separates them. */
  lemma SecondSplit(hash: int -> Hash64)
    requires Oct(hash)
    ensures var dd := Double(HALVED);
            dd.slots[2] == UPPER.(id := 2) && dd.depth == 2 && Split(hash, dd, 2) == AT_START
  {
    OctPlaces(hash);
    SplitUpper(hash, SEG_A.(version := 0), UPPER, map[4 := 40], map[6 := 60]);
  }

  const ONE_FULL: Dir<int, int> := Dir(0, [BOTH])

  lemma PutSix(hash: int -> Hash64)
    requires Oct(hash) && Valid(hash, ONE_KEY)
    ensures Put(hash, ONE_KEY, 6, 60) == ONE_FULL && Valid(hash, ONE_FULL)
  {
    OctPlaces(hash);
    PutOk(hash, ONE_KEY, 6, 60);
    assert Put(hash, ONE_KEY, 6, 60) == ONE_FULL;
  }

  lemma FirstStep(hash: int -> Hash64)
    requires Oct(hash) && Valid(hash, ONE_FULL)
    ensures Index(hash, 0, 6) == 0 && SplitOnce(hash, ONE_FULL, 0) == HALVED && Valid(hash, HALVED)
  {
    OctPlaces(hash);
    FirstSplit(hash);
    SplitOnceOk(hash, ONE_FULL, 6);
  }

  lemma SecondStep(hash: int -> Hash64)
    requires Oct(hash) && Valid(hash, HALVED)
    ensures Index(hash, 1, 6) == 1 && SplitOnce(hash, HALVED, 1) == AT_START && Valid(hash, AT_START)
  {
    OctPlaces(hash);
    SecondSplit(hash);
    SplitOnceOk(hash, HALVED, 6);
  }

  lemma SplitSix(hash: int -> Hash64)
    requires Oct(hash) && Valid(hash, ONE_FULL)
    ensures SplitWhileFull(hash, 2, ONE_FULL, 6) == AT_START
  {
    FirstStep(hash);
    SecondStep(hash);
    OctPlaces(hash);
    assert |BOTH.table| == 2 && |UPPER.table| == 2 && |SEG_C.table| == 1;
    StopsAt(hash, 2, AT_START, 6);
    GoesOnFrom(hash, 2, HALVED, AT_START, AT_START, 6);
    GoesOnFrom(hash, 2, ONE_FULL, HALVED, AT_START, 6);
  }

  lemma InsertSix(hash: int -> Hash64)
    requires Oct(hash) && Valid(hash, ONE_KEY)
    ensures Directory.Insert(hash, 2, ONE_KEY, 6, 60) == AT_START
  {
    PutSix(hash);
    SplitSix(hash);
  }

  /** The start of the counterexample is what two insertions make of an empty table. */
  lemma StartIsReached(hash: int -> Hash64)
    requires Oct(hash)
    ensures Valid(hash, EMPTY_TABLE) && Contents(hash, EMPTY_TABLE) == map[]
    ensures Directory.Insert(hash, 2, Directory.Insert(hash, 2, EMPTY_TABLE, 4, 40), 6, 60) == AT_START
  {
    EmptyTableIsValid(hash);
    InsertFour(hash);
    InsertSix(hash);
  }

  /** The cursor writes A, which is empty, and moves to B. */
  lemma ReachesB(c: Config<int, int>, s: State<int, int>, rest: seq<Op<int, int>>)
    requires Oct(c.hash) && c == Config(c.hash, 2, 1, map[]) && s == State(AT_START, 0, multiset{})
    requires Valid(c.hash, AT_START) && Valid(c.hash, BEFORE)
    ensures Run(c, s, [Visit(0)] + ([Advance] + rest)) == Run(c, State(BEFORE, 2, multiset{}), rest)
  {
    assert SetVersion(AT_START, 0, 1) == BEFORE;
    assert Written(c, SEG_A.table, 0) == multiset{};
    var m: State<int, int> := State(BEFORE, 0, multiset{});
    assert Step(c, s, Visit(0)) == m;
    RunCons(c, s, Visit(0), [Advance] + rest);
    assert Pow2(1) == 2;
    assert Step(c, m, Advance) == State(BEFORE, 2, multiset{});
    RunCons(c, m, Advance, rest);
  }

  lemma SkipsB(c: Config<int, int>, s: State<int, int>) returns (ops: seq<Op<int, int>>)
    requires Oct(c.hash) && c == Config(c.hash, 2, 1, map[]) && s == State(BEFORE, 2, multiset{})
    requires Valid(c.hash, s.dir)
    ensures EndsWithout(c, s, ops, Entry(4, 40, 0))
  {
    var s1 := AfterInsert(c, s);
    var tail: seq<Op<int, int>> := [Visit(0), Advance, Visit(0), Advance, Visit(0), Advance];
    WalkOver(c, s1, tail);
    RunCons(c, s, Insert(7, 70, 0), tail);
    ops := [Insert(7, 70, 0)] + tail;
  }

  /** The snapshot finishes and never writes `e`. */
  ghost predicate EndsWithout<K(!new), V(!new)>(c: Config<K, V>, s: State<K, V>, ops: seq<Op<K, V>>, e: Entry<K, V>)
    requires Valid(c.hash, s.dir)
  {
    var r := Run(c, s, ops);
    r.cursor == |r.dir.slots| && r.emitted[e] == 0
  }

  lemma RunCons<K(!new), V(!new)>(c: Config<K, V>, s: State<K, V>, op: Op<K, V>, ops: seq<Op<K, V>>)
    requires Valid(c.hash, s.dir)
    ensures Valid(c.hash, Step(c, s, op).dir) && Run(c, s, [op] + ops) == Run(c, Step(c, s, op), ops)
  {
    StepValid(c, s, op);
    assert ([op] + ops)[0] == op && ([op] + ops)[1..] == ops;
  }

  lemma WriteFirst<K(!new), V(!new)>(c: Config<K, V>, s: State<K, V>, key: K, value: V, now: int, i: nat)
    requires Valid(c.hash, s.dir) && i == Index(c.hash, s.dir.depth, key) && s.dir.slots[i].version < c.epoch
    ensures Valid(c.hash, SetVersion(s.dir, i, c.epoch))
    ensures Step(c, s, Insert(key, value, now)) ==
            State(Directory.Insert(c.hash, c.threshold, SetVersion(s.dir, i, c.epoch), key, value),
                  s.cursor, s.emitted + Written(c, s.dir.slots[i].table, now))
  {
    SetVersionOk(c.hash, s.dir, i, c.epoch);
  }

  lemma SlotOfSeven(hash: int -> Hash64)
    requires Oct(hash)
    ensures Index(hash, 2, 7) == 3
  {
    var _ := hash(7);
  }

  lemma AfterInsert(c: Config<int, int>, s: State<int, int>) returns (s1: State<int, int>)
    requires Oct(c.hash) && c == Config(c.hash, 2, 1, map[]) && s == State(BEFORE, 2, multiset{})
    ensures Valid(c.hash, BEFORE) && s1 == Step(c, s, Insert(7, 70, 0)) && Valid(c.hash, AFTER)
    ensures s1.dir == AFTER && s1.cursor == 2 && s1.emitted[Entry(4, 40, 0)] == 0
  {
    BeforeIsValid(c.hash);
    InsertSeven(c.hash);
    SlotOfSeven(c.hash);
    assert s.dir.depth == 2 && s.dir.slots[3] == SEG_C;
    WriteFirst(c, s, 7, 70, 0, 3);
    s1 := Step(c, s, Insert(7, 70, 0));
    assert s1.emitted == multiset{} + Written(c, SEG_C.table, 0);
  }

  lemma WalkOver(c: Config<int, int>, s: State<int, int>, ops: seq<Op<int, int>>)
    requires Valid(c.hash, s.dir) && s.dir == AFTER && s.cursor == 2 && c.epoch == 1
    requires ops == [Visit(0), Advance, Visit(0), Advance, Visit(0), Advance]
    ensures Run(c, s, ops) == s.(cursor := 8)
  {
    assert Pow2(2) == 4 && Pow2(0) == 1;
    PassWritten(c, s, ops);
    PassWritten(c, s.(cursor := 6), ops[2..]);
    PassWritten(c, s.(cursor := 7), ops[2..][2..]);
    assert ops[2..][2..][2..] == [];
  }
}
