/**
 What an insertion makes of the directory's shape, told from the directory before it: how deep the
 key's segment ends, how deep the directory, and how deep the segment that each slot then shows.
 */
module Growth {
  import opened Powers
  import opened Directory

  /** The first depth from `m` on that leaves fewer than `threshold` of the keys together with `key`. */
  ghost function SplitDepth<K(!new)>(hash: K -> Hash64, threshold: nat, keys: set<K>, key: K, m: nat): (l: nat)
    requires m <= MAX_DEPTH
    ensures m <= l <= MAX_DEPTH
    decreases MAX_DEPTH - m
  {
    if |Sharing(hash, keys, key, m)| < threshold || m == MAX_DEPTH then m
    else SplitDepth(hash, threshold, keys, key, m + 1)
  }

  function Max(a: nat, b: nat): nat { if a < b then b else a }

  /** The depth of the segment that slot `j` of `2^depth` ends in when the segment of `h` is split from depth `m` to `l`. */
  ghost function ForkDepth(h: Hash64, depth: nat, j: nat, m: nat, l: nat): (r: nat)
    requires m <= l <= depth <= 64
    ensures m <= r <= l
    decreases l - m
  {
    if m == l then l
    else if ShiftRight(j, depth - (m + 1)) != Prefix(h, m + 1) then m + 1
    else ForkDepth(h, depth, j, m + 1, l)
  }

  /** The depth at slot `j` of the grown directory. */
  ghost function GrownDepth<K(!new), V>(hash: K -> Hash64, d: Dir<K, V>, key: K, l: nat, depth: nat, j: nat): (r: nat)
    requires Valid(hash, d) && j < Pow2(depth)
    requires d.slots[Index(hash, d.depth, key)].depth <= l <= depth <= MAX_DEPTH && d.depth <= depth
    ensures r <= depth
  {
    ShiftBound(j, depth - d.depth, d.depth);
    var i, at := ShiftRight(j, depth - d.depth), Index(hash, d.depth, key);
    SameRun(hash, d, i, i);
    if d.slots[i].id != d.slots[at].id then d.slots[i].depth
    else ForkDepth(hash(key), depth, j, d.slots[at].depth, l)
  }

  // ----- one split -----

  /** Two slots show the same segment exactly when they agree on its prefix. */
  lemma SameSegment<K(!new), V>(hash: K -> Hash64, d: Dir<K, V>, i: nat, key: K)
    requires Valid(hash, d) && i < |d.slots|
    ensures var at := Index(hash, d.depth, key);
            d.slots[at].depth <= d.depth &&
            (d.slots[i].id == d.slots[at].id <==>
             ShiftRight(i, d.depth - d.slots[at].depth) == Prefix(hash(key), d.slots[at].depth))
  {
    var at := Index(hash, d.depth, key);
    var n := d.depth - d.slots[at].depth;
    assert SlotOk(hash, d, at) && SlotOk(hash, d, i);
    SameRun(hash, d, at, i);
    ShiftTwice(hash(key), 64 - d.depth, n);
    AlignBlock(at, i, n);
  }

  /** One split: the key's segment is one deeper, in both halves; the others keep their depth. */
  lemma SplitOnceSlot<K(!new), V>(hash: K -> Hash64, d: Dir<K, V>, key: K, j: nat)
    requires Valid(hash, d) && d.slots[Index(hash, d.depth, key)].depth < MAX_DEPTH
    requires j < |SplitOnce(hash, d, Index(hash, d.depth, key)).slots|
    ensures var at := Index(hash, d.depth, key);
            var next := SplitOnce(hash, d, at);
            next.depth == Max(d.depth, d.slots[at].depth + 1) &&
            var i := ShiftRight(j, next.depth - d.depth);
            i < |d.slots| &&
            next.slots[j].depth == if d.slots[i].id == d.slots[at].id then d.slots[at].depth + 1 else d.slots[i].depth
  {
    var at := Index(hash, d.depth, key);
    SameRun(hash, d, at, at);
    if d.slots[at].depth == d.depth {
      assert ShiftRight(j, 1) == ShiftRight(j / 2, 0) == j / 2;
      SameRun(hash, d, at, j / 2);
      SameRun(hash, d, at, d.slots[at].id);
    } else {
      SameRun(hash, d, at, j);
    }
  }

  /** When the key's segment has become one deeper, only slots of its old segment show it. */
  lemma OnlyOldSlots<K(!new), V>(hash: K -> Hash64, d: Dir<K, V>, next: Dir<K, V>, key: K, j: nat)
    requires Valid(hash, d) && Valid(hash, next) && d.depth <= next.depth && j < |next.slots|
    requires next.slots[Index(hash, next.depth, key)].depth == d.slots[Index(hash, d.depth, key)].depth + 1
    ensures ShiftRight(j, next.depth - d.depth) < |d.slots|
    ensures next.slots[j].id == next.slots[Index(hash, next.depth, key)].id ==>
            d.slots[ShiftRight(j, next.depth - d.depth)].id == d.slots[Index(hash, d.depth, key)].id
  {
    var m := d.slots[Index(hash, d.depth, key)].depth;
    SameRun(hash, d, Index(hash, d.depth, key), 0);
    ShiftBound(j, next.depth - d.depth, d.depth);
    SameSegment(hash, next, j, key);
    SameSegment(hash, d, ShiftRight(j, next.depth - d.depth), key);
    ShiftTwice(j, next.depth - d.depth, d.depth - m);
    ShiftTwice(j, next.depth - (m + 1), 1);
    ShiftTwice(hash(key), 64 - (m + 1), 1);
  }

  // ----- the split loop -----

  /** Slot `j` of `next` against its ancestor in `d`. */
  ghost predicate SplitsAt<K(!new), V>(hash: K -> Hash64, d: Dir<K, V>, next: Dir<K, V>, key: K, j: nat)
    requires Valid(hash, d) && Valid(hash, next) && d.depth <= next.depth && j < |next.slots|
  {
    var i, at := ShiftRight(j, next.depth - d.depth), Index(hash, d.depth, key);
    i < |d.slots| &&
    next.slots[j].depth == (if d.slots[i].id == d.slots[at].id then d.slots[at].depth + 1 else d.slots[i].depth) &&
    (next.slots[j].id == next.slots[Index(hash, next.depth, key)].id ==> d.slots[i].id == d.slots[at].id)
  }

  /** `next` is `d` with the key's segment split once. */
  ghost predicate Splits<K(!new), V>(hash: K -> Hash64, d: Dir<K, V>, next: Dir<K, V>, key: K) {
    Valid(hash, d) && Valid(hash, next) && Contents(hash, next) == Contents(hash, d) &&
    var m := d.slots[Index(hash, d.depth, key)].depth;
    m <= d.depth && next.depth == Max(d.depth, m + 1) && next.slots[Index(hash, next.depth, key)].depth == m + 1 &&
    forall j {:trigger SplitsAt(hash, d, next, key, j)} :: 0 <= j < |next.slots| ==> SplitsAt(hash, d, next, key, j)
  }

  lemma SplitOnceSplits<K(!new), V>(hash: K -> Hash64, d: Dir<K, V>, key: K)
    requires Valid(hash, d) && d.slots[Index(hash, d.depth, key)].depth < MAX_DEPTH
    ensures Splits(hash, d, SplitOnce(hash, d, Index(hash, d.depth, key)), key)
  {
    var at := Index(hash, d.depth, key);
    SameRun(hash, d, at, at);
    SplitOnceOk(hash, d, key);
    SplitOnceSlot(hash, d, key, 0);
    var next := SplitOnce(hash, d, at);
    forall j | 0 <= j < |next.slots| ensures SplitsAt(hash, d, next, key, j) {
      SplitOnceSlot(hash, d, key, j);
      OnlyOldSlots(hash, d, next, key, j);
    }
  }

  /** How deep the key's segment ends. */
  ghost function KeyDepth<K(!new), V>(hash: K -> Hash64, threshold: nat, d: Dir<K, V>, key: K): (l: nat)
    requires Valid(hash, d)
    ensures d.slots[Index(hash, d.depth, key)].depth <= l <= MAX_DEPTH
  {
    SameRun(hash, d, Index(hash, d.depth, key), 0);
    SplitDepth(hash, threshold, Contents(hash, d).Keys, key, d.slots[Index(hash, d.depth, key)].depth)
  }

  lemma GrownStepAt<K(!new), V>(hash: K -> Hash64, d: Dir<K, V>, next: Dir<K, V>, key: K, l: nat, depth: nat, j: nat)
    requires Valid(hash, d) && Valid(hash, next) && j < Pow2(depth) && d.depth <= next.depth <= depth <= MAX_DEPTH
    requires d.slots[Index(hash, d.depth, key)].depth < l <= depth
    requires next.slots[Index(hash, next.depth, key)].depth == d.slots[Index(hash, d.depth, key)].depth + 1
    requires var i' := ShiftRight(j, depth - next.depth);
             var m := d.slots[Index(hash, d.depth, key)].depth;
             i' < |next.slots| && SplitsAt(hash, d, next, key, i') &&
             ShiftRight(i', next.depth - d.depth) == ShiftRight(j, depth - d.depth) &&
             (next.slots[i'].id == next.slots[Index(hash, next.depth, key)].id <==>
              ShiftRight(j, depth - (m + 1)) == Prefix(hash(key), m + 1))
    ensures GrownDepth(hash, next, key, l, depth, j) == GrownDepth(hash, d, key, l, depth, j)
  {
  }

  /** The bits of a slot number seen through a shallower one. */
  lemma ShiftThrough(j: nat, depth: nat, mid: nat, top: nat)
    requires top <= mid <= depth && j < Pow2(depth)
    ensures ShiftRight(j, depth - mid) < Pow2(mid)
    ensures ShiftRight(ShiftRight(j, depth - mid), mid - top) == ShiftRight(j, depth - top)
  {
    ShiftBound(j, depth - mid, mid);
    ShiftTwice(j, depth - mid, mid - top);
  }

  /** A split does not change what is foretold. */
  lemma GrownStep<K(!new), V>(hash: K -> Hash64, d: Dir<K, V>, next: Dir<K, V>, key: K, l: nat, depth: nat, j: nat)
    requires Splits(hash, d, next, key) && j < Pow2(depth)
    requires d.slots[Index(hash, d.depth, key)].depth < l <= MAX_DEPTH && depth == Max(d.depth, l)
    ensures GrownDepth(hash, next, key, l, depth, j) == GrownDepth(hash, d, key, l, depth, j)
  {
    var m := d.slots[Index(hash, d.depth, key)].depth;
    ShiftThrough(j, depth, next.depth, d.depth);
    ShiftThrough(j, depth, next.depth, m + 1);
    var i' := ShiftRight(j, depth - next.depth);
    assert SplitsAt(hash, d, next, key, i');
    SameSegment(hash, next, i', key);
    GrownStepAt(hash, d, next, key, l, depth, j);
  }

  lemma TableSize<K(!new), V>(hash: K -> Hash64, d: Dir<K, V>, key: K)
    requires Valid(hash, d)
    ensures var s := d.slots[Index(hash, d.depth, key)];
            s.depth <= d.depth && |s.table| == |Sharing(hash, Contents(hash, d).Keys, key, s.depth)|
  {
    SegmentIsPrefixClass(hash, d, key);
    var s := d.slots[Index(hash, d.depth, key)];
    assert |s.table| == |s.table.Keys|;
  }

  lemma KeyDepthStep<K(!new), V>(hash: K -> Hash64, threshold: nat, d: Dir<K, V>, next: Dir<K, V>, key: K)
    requires Splits(hash, d, next, key) && |d.slots[Index(hash, d.depth, key)].table| >= threshold
    requires d.slots[Index(hash, d.depth, key)].depth < MAX_DEPTH
    ensures KeyDepth(hash, threshold, next, key) == KeyDepth(hash, threshold, d, key) > d.slots[Index(hash, d.depth, key)].depth
  {
    TableSize(hash, d, key);
  }

  lemma LoopStep<K(!new), V>(hash: K -> Hash64, threshold: nat, d: Dir<K, V>, key: K)
    requires Valid(hash, d) && |d.slots[Index(hash, d.depth, key)].table| >= threshold
    requires d.slots[Index(hash, d.depth, key)].depth < MAX_DEPTH
    ensures Valid(hash, SplitOnce(hash, d, Index(hash, d.depth, key)))
    ensures SplitWhileFull(hash, threshold, d, key) ==
            SplitWhileFull(hash, threshold, SplitOnce(hash, d, Index(hash, d.depth, key)), key)
  {
    SplitOnceOk(hash, d, key);
  }

  lemma LoopEnds<K(!new), V>(hash: K -> Hash64, threshold: nat, d: Dir<K, V>, key: K)
    requires Valid(hash, d)
    requires |d.slots[Index(hash, d.depth, key)].table| < threshold || d.slots[Index(hash, d.depth, key)].depth >= MAX_DEPTH
    ensures SplitWhileFull(hash, threshold, d, key) == d
    ensures KeyDepth(hash, threshold, d, key) == d.slots[Index(hash, d.depth, key)].depth <= d.depth
  {
    TableSize(hash, d, key);
  }

  /** Every slot ends in a segment of the depth told beforehand, and so does the directory. */
  lemma {:induction false} GrownSlot<K(!new), V>(hash: K -> Hash64, threshold: nat, d: Dir<K, V>, key: K, j: nat)
    requires Valid(hash, d) && j < Pow2(Max(d.depth, KeyDepth(hash, threshold, d, key)))
    ensures var l := KeyDepth(hash, threshold, d, key);
            var d' := SplitWhileFull(hash, threshold, d, key);
            d'.depth == Max(d.depth, l) && d'.slots[j].depth == GrownDepth(hash, d, key, l, Max(d.depth, l), j)
    decreases MAX_DEPTH - d.slots[Index(hash, d.depth, key)].depth
  {
    var at := Index(hash, d.depth, key);
    var l := KeyDepth(hash, threshold, d, key);
    if |d.slots[at].table| >= threshold && d.slots[at].depth < MAX_DEPTH {
      LoopStep(hash, threshold, d, key);
      var next := SplitOnce(hash, d, at);
      SplitOnceSplits(hash, d, key);
      KeyDepthStep(hash, threshold, d, next, key);
      GrownStep(hash, d, next, key, l, Max(d.depth, l), j);
      GrownSlot(hash, threshold, next, key, j);
    } else {
      LoopEnds(hash, threshold, d, key);
      SameRun(hash, d, at, j);
    }
  }

  // ----- a whole insertion -----

  /** How deep the key's segment is after the key has been inserted. */
  ghost function InsertDepth<K(!new), V>(hash: K -> Hash64, threshold: nat, d: Dir<K, V>, key: K): (l: nat)
    requires Valid(hash, d)
    ensures d.slots[Index(hash, d.depth, key)].depth <= l <= MAX_DEPTH
  {
    SameRun(hash, d, Index(hash, d.depth, key), 0);
    SplitDepth(hash, threshold, Contents(hash, d).Keys + {key}, key, d.slots[Index(hash, d.depth, key)].depth)
  }

  lemma PutKeepsShape<K(!new), V>(hash: K -> Hash64, d: Dir<K, V>, key: K, value: V, i: nat)
    requires Valid(hash, d) && i < |d.slots|
    ensures var p := Put(hash, d, key, value);
            p.depth == d.depth && |p.slots| == |d.slots| && p.slots[i].depth == d.slots[i].depth && p.slots[i].id == d.slots[i].id
  {
    SameRun(hash, d, Index(hash, d.depth, key), i);
  }

  lemma PutKeepsKeyDepth<K(!new), V>(hash: K -> Hash64, threshold: nat, d: Dir<K, V>, key: K, value: V)
    requires Valid(hash, d)
    ensures var p := Put(hash, d, key, value);
            Valid(hash, p) && KeyDepth(hash, threshold, p, key) == InsertDepth(hash, threshold, d, key)
  {
    PutKeys(hash, d, key, value);
    PutKeepsShape(hash, d, key, value, Index(hash, d.depth, key));
  }

  lemma PutKeepsDepths<K(!new), V>(hash: K -> Hash64, d: Dir<K, V>, key: K, value: V, l: nat, j: nat)
    requires Valid(hash, d) && Valid(hash, Put(hash, d, key, value))
    requires d.slots[Index(hash, d.depth, key)].depth <= l <= MAX_DEPTH && j < Pow2(Max(d.depth, l))
    ensures var p := Put(hash, d, key, value);
            p.depth == d.depth && p.slots[Index(hash, p.depth, key)].depth <= l &&
            GrownDepth(hash, p, key, l, Max(d.depth, l), j) == GrownDepth(hash, d, key, l, Max(d.depth, l), j)
  {
    PutKeepsShape(hash, d, key, value, Index(hash, d.depth, key));
    ShiftBound(j, Max(d.depth, l) - d.depth, d.depth);
    PutKeepsShape(hash, d, key, value, ShiftRight(j, Max(d.depth, l) - d.depth));
  }

  /** The depth of the directory and of every slot's segment after an insertion. */
  lemma InsertGrows<K(!new), V>(hash: K -> Hash64, threshold: nat, d: Dir<K, V>, key: K, value: V, j: nat)
    requires Valid(hash, d) && j < Pow2(Max(d.depth, InsertDepth(hash, threshold, d, key)))
    ensures var l := InsertDepth(hash, threshold, d, key);
            var d' := Insert(hash, threshold, d, key, value);
            d'.depth == Max(d.depth, l) && d'.slots[j].depth == GrownDepth(hash, d, key, l, Max(d.depth, l), j)
  {
    PutKeepsKeyDepth(hash, threshold, d, key, value);
    PutKeepsDepths(hash, d, key, value, InsertDepth(hash, threshold, d, key), j);
    GrownSlot(hash, threshold, Put(hash, d, key, value), key, j);
  }

  /**
   Told before the insertion: `cursor` will be the start of a run. The run that will contain it is the
   grown run of its old segment, or, within the key's old segment, the part that forks off the key's
   path where the cursor does.
   */
  ghost predicate StartAfter<K(!new), V>(hash: K -> Hash64, threshold: nat, d: Dir<K, V>, key: K, cursor: nat)
    requires Valid(hash, d)
  {
    var l := InsertDepth(hash, threshold, d, key);
    var depth := Max(d.depth, l);
    cursor == Pow2(depth) ||
    (cursor < Pow2(depth) && AlignDown(cursor, depth - GrownDepth(hash, d, key, l, depth, cursor)) == cursor)
  }

  lemma AtStartByDepth<K(!new), V>(hash: K -> Hash64, d: Dir<K, V>, cursor: nat)
    requires Valid(hash, d)
    ensures cursor < |d.slots| ==> d.slots[cursor].depth <= d.depth
    ensures AtStart(d, cursor) <==>
            cursor == |d.slots| || (cursor < |d.slots| && AlignDown(cursor, d.depth - d.slots[cursor].depth) == cursor)
  {
    if cursor < |d.slots| { assert SlotOk(hash, d, cursor); }
  }

  lemma StartByDepths<K(!new), V>(hash: K -> Hash64, threshold: nat, d: Dir<K, V>, key: K, d': Dir<K, V>, cursor: nat)
    requires Valid(hash, d) && Valid(hash, d') && d'.depth == Max(d.depth, InsertDepth(hash, threshold, d, key))
    requires cursor < |d'.slots| ==>
             d'.slots[cursor].depth == GrownDepth(hash, d, key, InsertDepth(hash, threshold, d, key), d'.depth, cursor)
    ensures AtStart(d', cursor) <==> StartAfter(hash, threshold, d, key, cursor)
  {
    AtStartByDepth(hash, d', cursor);
  }

  /** Exact: the cursor starts a run after the insertion if and only if the old directory said so. */
  lemma StartAfterInsert<K(!new), V>(hash: K -> Hash64, threshold: nat, d: Dir<K, V>, key: K, value: V, cursor: nat)
    requires Valid(hash, d)
    ensures AtStart(Insert(hash, threshold, d, key, value), cursor) <==> StartAfter(hash, threshold, d, key, cursor)
  {
    InsertGrows(hash, threshold, d, key, value, 0);
    var d' := Insert(hash, threshold, d, key, value);
    if cursor < |d'.slots| { InsertGrows(hash, threshold, d, key, value, cursor); }
    StartByDepths(hash, threshold, d, key, d', cursor);
  }

  lemma {:induction false} AlignZero(n: nat)
    ensures AlignDown(0, n) == 0
  {
    if n > 0 { AlignZero(n - 1); }
  }

  /** Slot 0 always starts a run. */
  lemma ZeroIsSafe<K(!new), V>(hash: K -> Hash64, threshold: nat, d: Dir<K, V>, key: K)
    requires Valid(hash, d)
    ensures StartAfter(hash, threshold, d, key, 0)
  {
    var l := InsertDepth(hash, threshold, d, key);
    AlignZero(Max(d.depth, l) - GrownDepth(hash, d, key, l, Max(d.depth, l), 0));
  }

  /** If the directory does not double, a start of a run stays one. */
  lemma NoDoublingIsSafe<K(!new), V>(hash: K -> Hash64, threshold: nat, d: Dir<K, V>, key: K, cursor: nat)
    requires Valid(hash, d) && AtStart(d, cursor) && InsertDepth(hash, threshold, d, key) <= d.depth
    ensures StartAfter(hash, threshold, d, key, cursor)
  {
    var l := InsertDepth(hash, threshold, d, key);
    if cursor < |d.slots| {
      assert SlotOk(hash, d, cursor);
      SameRun(hash, d, Index(hash, d.depth, key), cursor);
      AlignSmaller(cursor, d.depth - d.slots[cursor].depth, d.depth - GrownDepth(hash, d, key, l, d.depth, cursor));
    }
  }

  /** The prediction depends on ids, depths and keys only. */
  lemma SameShape<K(!new), V>(hash: K -> Hash64, threshold: nat, d: Dir<K, V>, d': Dir<K, V>, key: K, cursor: nat)
    requires Valid(hash, d) && Valid(hash, d') && d'.depth == d.depth && |d'.slots| == |d.slots|
    requires forall i :: 0 <= i < |d.slots| ==> d'.slots[i].depth == d.slots[i].depth && d'.slots[i].id == d.slots[i].id
    requires Contents(hash, d') == Contents(hash, d)
    ensures StartAfter(hash, threshold, d', key, cursor) <==> StartAfter(hash, threshold, d, key, cursor)
  {
    var l := InsertDepth(hash, threshold, d, key);
    assert InsertDepth(hash, threshold, d', key) == l;
    if cursor < Pow2(Max(d.depth, l)) { ShiftBound(cursor, Max(d.depth, l) - d.depth, d.depth); }
  }
}
