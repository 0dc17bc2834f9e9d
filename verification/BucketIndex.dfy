/**
 The bucket array of the dense hash table, as a value: a cyclic array of
 (distance + fingerprint, value index) pairs and the invariants that make
 Robin Hood probing correct. The shift loops of `HashTable.Table` move through
 this state one bucket at a time; each lemma here is one such move.
 */
module BucketIndex {

  const DIST_INC: nat := 256
  const FINGERPRINTS: nat := 256
  const MAX_BUCKETS: nat := 0x80_0000

  /** `distFp` packs (1 + distance from home) * 256 + fingerprint; 0 means empty. */
  datatype Bucket = Bucket(distFp: nat, valueIdx: nat)

  const EMPTY := Bucket(0, 0)

  /** What the hash of a stored key determines: its home bucket and its fingerprint. */
  datatype Tag = Tag(home: nat, fp: nat)

  function Next(n: nat, i: nat): (j: nat)
    requires i < n
    ensures j < n
  {
    if i + 1 == n then 0 else i + 1
  }

  function Prev(n: nat, i: nat): (j: nat)
    requires i < n
    ensures j < n && Next(n, j) == i
  {
    if i == 0 then n - 1 else i - 1
  }

  /** Number of forward steps from `h` to `i` around the cycle. */
  function Dist(n: nat, h: nat, i: nat): (d: nat)
    requires h < n && i < n
    ensures d < n
  {
    if h <= i then i - h else i + n - h
  }

  /** The bucket `s` steps after `h`; a probe makes at most `n` steps. */
  function At(n: nat, h: nat, s: nat): (i: nat)
    requires h < n && s <= n
    ensures i < n
    ensures s < n ==> Dist(n, h, i) == s
  {
    if h + s < n then h + s else h + s - n
  }

  ghost predicate TagsOk(n: nat, tags: seq<Tag>) {
    forall v :: 0 <= v < |tags| ==> tags[v].home < n && tags[v].fp < FINGERPRINTS
  }

  /** The field an entry with this tag must carry when it sits in bucket `i`. */
  function FieldAt(n: nat, tag: Tag, i: nat): (f: nat)
    requires tag.home < n && i < n
  {
    DIST_INC * (1 + Dist(n, tag.home, i)) + tag.fp
  }

  /** A bucket is empty with index 0, or carries the true cyclic distance of its entry. */
  ghost predicate BucketOk(n: nat, tags: seq<Tag>, x: Bucket, i: nat)
    requires TagsOk(n, tags) && i < n
  {
    if x.distFp == 0 then x.valueIdx == 0
    else x.valueIdx < |tags| && x.distFp == FieldAt(n, tags[x.valueIdx], i)
  }

  /** No bucket is more than one step poorer than its predecessor. */
  ghost predicate OrderedAt(b: seq<Bucket>, i: nat)
    requires i < |b|
  {
    b[i].distFp >= 2 * DIST_INC ==> b[Prev(|b|, i)].distFp >= b[i].distFp - DIST_INC
  }

  ghost predicate Shape(b: seq<Bucket>, tags: seq<Tag>) {
    && 2 <= |b| <= MAX_BUCKETS
    && TagsOk(|b|, tags)
    && (forall i {:trigger BucketOk(|b|, tags, b[i], i)} :: 0 <= i < |b| ==> BucketOk(|b|, tags, b[i], i))
    && (forall i {:trigger OrderedAt(b, i)} :: 0 <= i < |b| ==> OrderedAt(b, i))
  }

  /** Value index `v` sits in bucket `pos[v]`, outside the hole. */
  ghost predicate ValueLinked(b: seq<Bucket>, pos: seq<nat>, v: nat, hole: int)
    requires v < |pos|
  {
    pos[v] < |b| && pos[v] != hole && b[pos[v]].distFp != 0 && b[pos[v]].valueIdx == v
  }

  /** An occupied bucket is the one its value index is recorded at. */
  ghost predicate BucketLinked(b: seq<Bucket>, pos: seq<nat>, i: nat, out: int)
    requires i < |b|
  {
    b[i].distFp != 0 ==> b[i].valueIdx != out && b[i].valueIdx < |pos| && pos[b[i].valueIdx] == i
  }

  /**
   `pos` is the inverse of the value indices in the buckets. While an entry is
   being carried (`out`) or a bucket is being vacated (`hole`) these are
   exempt; -1 exempts nothing.
   */
  ghost predicate Linked(b: seq<Bucket>, pos: seq<nat>, out: int, hole: int) {
    && (forall v :: 0 <= v < |pos| ==> pos[v] < |b|)
    && (forall v {:trigger ValueLinked(b, pos, v, hole)} ::
          0 <= v < |pos| && v != out ==> ValueLinked(b, pos, v, hole))
    && (forall i {:trigger BucketLinked(b, pos, i, out)} ::
          0 <= i < |b| && i != hole ==> BucketLinked(b, pos, i, out))
  }

  /** The full invariant: every value index sits in exactly one bucket, at its true distance. */
  ghost predicate Indexed(b: seq<Bucket>, tags: seq<Tag>, pos: seq<nat>) {
    Shape(b, tags) && |pos| == |tags| && Linked(b, pos, -1, -1)
  }

  // ----- probing -----

  /** Walking back from a bucket, the field drops by at most one distance unit per step. */
  lemma {:induction false} ChainBack(b: seq<Bucket>, tags: seq<Tag>, h: nat, i: nat, s: nat)
    requires Shape(b, tags) && h < |b| && i < |b|
    requires s <= Dist(|b|, h, i)
    requires b[i].distFp >= DIST_INC * (1 + Dist(|b|, h, i))
    ensures b[At(|b|, h, s)].distFp >= b[i].distFp - DIST_INC * (Dist(|b|, h, i) - s)
    decreases Dist(|b|, h, i) - s
  {
    var n, d := |b|, Dist(|b|, h, i);
    if s == d {
      assert At(n, h, s) == i;
    } else {
      ChainBack(b, tags, h, i, s + 1);
      var j := At(n, h, s + 1);
      assert OrderedAt(b, j);
      assert Prev(n, j) == At(n, h, s);
    }
  }

  /**
   A probe for a stored entry never meets a poorer bucket before it reaches the
   entry: the early exit of a lookup is sound.
   */
  lemma ProbeNeverEarly(b: seq<Bucket>, tags: seq<Tag>, pos: seq<nat>, v: nat, s: nat)
    requires Indexed(b, tags, pos) && v < |tags|
    requires s <= Dist(|b|, tags[v].home, pos[v])
    ensures b[At(|b|, tags[v].home, s)].distFp >= DIST_INC * (1 + s) + tags[v].fp
  {
    assert ValueLinked(b, pos, v, -1);
    assert BucketOk(|b|, tags, b[pos[v]], pos[v]);
    ChainBack(b, tags, tags[v].home, pos[v], s);
  }

  /** After a full turn the probe's field exceeds every stored one, so a lookup ends even in a full table. */
  lemma ProbeEnds(b: seq<Bucket>, tags: seq<Tag>, i: nat)
    requires Shape(b, tags) && i < |b|
    ensures b[i].distFp < DIST_INC * (1 + |b|)
  {
    assert BucketOk(|b|, tags, b[i], i);
  }

  /** An empty bucket is never inside the stretch between an entry's home and the entry. */
  lemma EmptyBounds(b: seq<Bucket>, tags: seq<Tag>, e: nat, i: nat)
    requires Shape(b, tags) && e < |b| && i < |b|
    requires b[e].distFp == 0 && b[i].distFp != 0
    ensures b[i].valueIdx < |tags|
    ensures Dist(|b|, tags[b[i].valueIdx].home, i) < Dist(|b|, tags[b[i].valueIdx].home, e)
  {
    assert BucketOk(|b|, tags, b[i], i);
    var n, h := |b|, tags[b[i].valueIdx].home;
    var s := Dist(n, h, e);
    if s <= Dist(n, h, i) {
      ChainBack(b, tags, h, i, s);
      assert false;
    }
  }

  // ----- an empty bucket exists -----

  ghost function Below(n: nat): (r: set<nat>)
    ensures forall v: nat :: v in r <==> v < n
    ensures |r| == n
  {
    if n == 0 then {} else Below(n - 1) + {n - 1}
  }

  /** Fewer entries than buckets leave some bucket empty: the buckets' indices are distinct. */
  lemma EmptyExists(b: seq<Bucket>, pos: seq<nat>, out: int)
    requires Linked(b, pos, out, -1)
    requires |pos| < |b| || (|pos| == |b| && 0 <= out < |pos|)
    ensures exists e :: 0 <= e < |b| && b[e].distFp == 0
  {
    if forall e :: 0 <= e < |b| ==> b[e].distFp != 0 {
      forall i | 0 <= i < |b|
        ensures b[i].valueIdx != out && b[i].valueIdx < |pos| && pos[b[i].valueIdx] == i
      {
        assert BucketLinked(b, pos, i, out);
      }
      IndicesFit(b, |b|, pos, if 0 <= out then Below(|pos|) - {out} else Below(|pos|));
      assert false;
    }
  }

  lemma {:induction false} IndicesFit(b: seq<Bucket>, k: nat, pos: seq<nat>, room: set<nat>)
    requires k <= |b|
    requires forall i :: 0 <= i < k ==> b[i].valueIdx in room && b[i].valueIdx < |pos| && pos[b[i].valueIdx] == i
    ensures k <= |room|
  {
    if k > 0 {
      IndicesFit(b, k - 1, pos, room - {b[k - 1].valueIdx});
    }
  }

  // ----- insertion: carry an entry forward, displacing poorer ones -----

  /** The carried entry may be put down at `p` without breaking the order. */
  ghost predicate Fits(b: seq<Bucket>, tags: seq<Tag>, x: Bucket, p: nat)
    requires Shape(b, tags)
  {
    && p < |b|
    && x.distFp != 0 && BucketOk(|b|, tags, x, p)
    && x.distFp >= b[p].distFp
    && (x.distFp >= 2 * DIST_INC ==> b[Prev(|b|, p)].distFp >= x.distFp - DIST_INC)
  }

  lemma PutKeepsShape(b: seq<Bucket>, tags: seq<Tag>, x: Bucket, p: nat)
    requires Shape(b, tags) && Fits(b, tags, x, p)
    ensures Shape(b[p := x], tags)
  {
    var b', n := b[p := x], |b|;
    forall i | 0 <= i < n ensures BucketOk(n, tags, b'[i], i) {
      assert BucketOk(n, tags, b[i], i);
    }
    forall i | 0 <= i < n ensures OrderedAt(b', i) {
      assert OrderedAt(b, i);
    }
  }

  /** One turn of the displacement loop: put `x` down, pick up the previous occupant. */
  lemma Displace(b: seq<Bucket>, tags: seq<Tag>, pos: seq<nat>, x: Bucket, p: nat, e: nat)
    requires Shape(b, tags) && Fits(b, tags, x, p) && |pos| == |tags| && Linked(b, pos, x.valueIdx, -1)
    requires e < |b| && b[e].distFp == 0 && b[p].distFp != 0
    ensures var (b', x', p') := (b[p := x], Bucket(b[p].distFp + DIST_INC, b[p].valueIdx), Next(|b|, p));
            && Shape(b', tags) && Fits(b', tags, x', p')
            && Linked(b', pos[x.valueIdx := p], x'.valueIdx, -1)
            && b'[e].distFp == 0
            && Dist(|b|, p', e) < Dist(|b|, p, e)
  {
    var n := |b|;
    PutKeepsShape(b, tags, x, p);
    EmptyBounds(b, tags, e, p);
    assert BucketOk(n, tags, b[p], p);
    assert OrderedAt(b, Next(n, p));
    assert BucketOk(n, tags, b[Next(n, p)], Next(n, p));
    assert BucketLinked(b, pos, p, x.valueIdx);
    PutLinks(b, pos, x, p, b[p].valueIdx);
  }

  lemma PutLinks(b: seq<Bucket>, pos: seq<nat>, x: Bucket, p: nat, out: int)
    requires p < |b| && x.valueIdx < |pos| && x.distFp != 0 && Linked(b, pos, x.valueIdx, -1)
    requires if b[p].distFp != 0 then out == b[p].valueIdx else out == -1
    ensures Linked(b[p := x], pos[x.valueIdx := p], out, -1)
  {
    var b', pos' := b[p := x], pos[x.valueIdx := p];
    assert BucketLinked(b, pos, p, x.valueIdx);
    forall v | 0 <= v < |pos| && v != out ensures ValueLinked(b', pos', v, -1) {
      assert v != x.valueIdx ==> ValueLinked(b, pos, v, -1);
    }
    forall i | 0 <= i < |b| ensures BucketLinked(b', pos', i, out) {
      assert BucketLinked(b, pos, i, x.valueIdx);
    }
  }

  /** The last turn: an empty bucket takes the carried entry. */
  lemma Settle(b: seq<Bucket>, tags: seq<Tag>, pos: seq<nat>, x: Bucket, p: nat)
    requires Shape(b, tags) && Fits(b, tags, x, p) && |pos| == |tags| && Linked(b, pos, x.valueIdx, -1)
    requires b[p].distFp == 0
    ensures Indexed(b[p := x], tags, pos[x.valueIdx := p])
  {
    PutKeepsShape(b, tags, x, p);
    PutLinks(b, pos, x, p, -1);
  }

  /** Appending a tag keeps the index; the new entry is simply not linked yet. */
  lemma AppendTag(b: seq<Bucket>, tags: seq<Tag>, pos: seq<nat>, tag: Tag, at: nat)
    requires Indexed(b, tags, pos) && at < |b| && tag.home < |b| && tag.fp < FINGERPRINTS
    ensures Shape(b, tags + [tag]) && Linked(b, pos + [at], |tags|, -1)
  {
    forall i | 0 <= i < |b| ensures BucketOk(|b|, tags + [tag], b[i], i) {
      assert BucketOk(|b|, tags, b[i], i);
    }
    forall v | 0 <= v < |pos| ensures ValueLinked(b, pos + [at], v, -1) {
      assert ValueLinked(b, pos, v, -1);
    }
    forall i | 0 <= i < |b| ensures BucketLinked(b, pos + [at], i, |tags|) {
      assert BucketLinked(b, pos, i, -1);
    }
  }

  // ----- erasure: shift the run after the vacated bucket down -----

  /** One turn of the backward shift: the successor moves into the hole, one step nearer home. */
  lemma ShiftDown(b: seq<Bucket>, tags: seq<Tag>, pos: seq<nat>, out: int, hole: nat)
    requires Shape(b, tags) && |pos| == |tags| && hole < |b| && Linked(b, pos, out, hole)
    requires b[Next(|b|, hole)].distFp >= 2 * DIST_INC
    ensures var nx := Next(|b|, hole);
            var b' := b[hole := Bucket(b[nx].distFp - DIST_INC, b[nx].valueIdx)];
            && b[nx].valueIdx < |pos|
            && Shape(b', tags)
            && Linked(b', pos[b[nx].valueIdx := hole], out, nx)
  {
    var n, nx := |b|, Next(|b|, hole);
    var b' := b[hole := Bucket(b[nx].distFp - DIST_INC, b[nx].valueIdx)];
    assert BucketOk(n, tags, b[nx], nx);
    forall i | 0 <= i < n ensures BucketOk(n, tags, b'[i], i) {
      assert BucketOk(n, tags, b[i], i);
    }
    forall i | 0 <= i < n ensures OrderedAt(b', i) {
      assert OrderedAt(b, i);
      assert OrderedAt(b, nx);
      assert Prev(n, nx) == hole;
    }
    var pos' := pos[b[nx].valueIdx := hole];
    assert BucketLinked(b, pos, nx, out);
    forall v | 0 <= v < |pos| && v != out ensures ValueLinked(b', pos', v, nx) {
      assert ValueLinked(b, pos, v, hole);
    }
    forall i | 0 <= i < n && i != nx ensures BucketLinked(b', pos', i, out) {
      assert i != hole ==> BucketLinked(b, pos, i, out);
    }
  }

  /** The last turn: the hole is cleared, since its successor is at home or empty. */
  lemma ClearHole(b: seq<Bucket>, tags: seq<Tag>, pos: seq<nat>, out: int, hole: nat)
    requires Shape(b, tags) && |pos| == |tags| && hole < |b| && Linked(b, pos, out, hole)
    requires b[Next(|b|, hole)].distFp < 2 * DIST_INC
    ensures Shape(b[hole := EMPTY], tags) && Linked(b[hole := EMPTY], pos, out, -1)
  {
    var b', n := b[hole := EMPTY], |b|;
    forall i | 0 <= i < n ensures BucketOk(n, tags, b'[i], i) {
      assert BucketOk(n, tags, b[i], i);
    }
    forall i | 0 <= i < n ensures OrderedAt(b', i) {
      assert OrderedAt(b, i);
      assert Prev(n, i) == hole ==> i == Next(n, hole);
    }
    forall v | 0 <= v < |pos| && v != out ensures ValueLinked(b', pos, v, -1) {
      assert ValueLinked(b, pos, v, hole);
    }
    forall i | 0 <= i < n ensures BucketLinked(b', pos, i, out) {
      assert i != hole ==> BucketLinked(b, pos, i, out);
    }
  }

  /** After an empty bucket nothing is more than at home: there is nothing to shift. */
  lemma EmptyStops(b: seq<Bucket>, tags: seq<Tag>, i: nat)
    requires Shape(b, tags) && i < |b| && b[i].distFp == 0
    ensures b[i] == EMPTY && b[Next(|b|, i)].distFp < 2 * DIST_INC
  {
    assert BucketOk(|b|, tags, b[i], i);
    assert OrderedAt(b, Next(|b|, i)) && Prev(|b|, Next(|b|, i)) == i;
  }

  /** Sum of the stored fields: the measure of the backward shift. */
  ghost function FieldSum(b: seq<Bucket>): nat {
    if b == [] then 0 else b[0].distFp + FieldSum(b[1..])
  }

  lemma {:induction false} FieldSumUpdate(b: seq<Bucket>, i: nat, x: Bucket)
    requires i < |b|
    ensures FieldSum(b[i := x]) + b[i].distFp == FieldSum(b) + x.distFp
    ensures b[i].distFp <= FieldSum(b)
  {
    if i == 0 {
      assert b[i := x][1..] == b[1..];
    } else {
      FieldSumUpdate(b[1..], i - 1, x);
      assert b[i := x][1..] == b[1..][i - 1 := x];
    }
  }

  /** Every turn of the backward shift lowers the sum taken outside the hole. */
  lemma ShiftDownMeasure(b: seq<Bucket>, hole: nat)
    requires 2 <= |b| && hole < |b|
    requires b[Next(|b|, hole)].distFp >= DIST_INC
    ensures var nx := Next(|b|, hole);
            var b' := b[hole := Bucket(b[nx].distFp - DIST_INC, b[nx].valueIdx)];
            && 0 <= FieldSum(b') - b'[nx].distFp < FieldSum(b) - b[hole].distFp
  {
    var nx := Next(|b|, hole);
    var x := Bucket(b[nx].distFp - DIST_INC, b[nx].valueIdx);
    FieldSumUpdate(b, hole, x);
    FieldSumUpdate(b[hole := x], nx, EMPTY);
  }

  /** What the backward shift makes of the buckets. */
  ghost function Shifted(b: seq<Bucket>, hole: nat): (r: seq<Bucket>)
    requires 2 <= |b| && hole < |b|
    ensures |r| == |b|
    decreases FieldSum(b) - b[hole].distFp
  {
    var nx := Next(|b|, hole);
    if b[nx].distFp >= 2 * DIST_INC then
      ShiftDownMeasure(b, hole);
      Shifted(b[hole := Bucket(b[nx].distFp - DIST_INC, b[nx].valueIdx)], nx)
    else b[hole := EMPTY]
  }

  /** It closes the hole and links every other entry. */
  lemma {:induction false} ShiftedOk(b: seq<Bucket>, tags: seq<Tag>, pos: seq<nat>, out: int, hole: nat) returns (pos': seq<nat>)
    requires Shape(b, tags) && |pos| == |tags| && hole < |b| && Linked(b, pos, out, hole)
    ensures Shape(Shifted(b, hole), tags) && |pos'| == |tags| && Linked(Shifted(b, hole), pos', out, -1)
    ensures b[hole].distFp == 0 ==> Shifted(b, hole) == b && pos' == pos
    decreases FieldSum(b) - b[hole].distFp
  {
    if b[hole].distFp == 0 { EmptyStops(b, tags, hole); }
    var nx := Next(|b|, hole);
    if b[nx].distFp >= 2 * DIST_INC {
      ShiftDown(b, tags, pos, out, hole);
      ShiftDownMeasure(b, hole);
      pos' := ShiftedOk(b[hole := Bucket(b[nx].distFp - DIST_INC, b[nx].valueIdx)], tags, pos[b[nx].valueIdx := hole], out, nx);
    } else {
      ClearHole(b, tags, pos, out, hole);
      pos' := pos;
    }
  }

  /** The first bucket with index `v`, from `s` steps after `start` on. */
  ghost function Located(b: seq<Bucket>, start: nat, v: nat, s: nat): (p: nat)
    requires start < |b| && s <= |b|
    ensures p < |b|
    decreases |b| - s
  {
    var p := At(|b|, start, s);
    if s == |b| || b[p].valueIdx == v then p else Located(b, start, v, s + 1)
  }

  // ----- removal of the last value after the swap -----

  /**
   With entry `out` unlinked, the last entry takes over its index: dropping the
   last tag (after moving it to `out`) restores the full invariant.
   */
  lemma Relabel(b: seq<Bucket>, tags: seq<Tag>, pos: seq<nat>, out: nat, p: nat)
    requires Shape(b, tags) && |pos| == |tags| && out < |tags| - 1 && Linked(b, pos, out, -1)
    requires p < |b| && b[p].distFp != 0 && b[p].valueIdx == |tags| - 1
    ensures var last := |tags| - 1;
            Indexed(b[p := b[p].(valueIdx := out)], tags[out := tags[last]][..last], pos[out := p][..last])
  {
    var n, last := |b|, |tags| - 1;
    var b', tags', pos' := b[p := b[p].(valueIdx := out)], tags[out := tags[last]][..last], pos[out := p][..last];
    assert BucketLinked(b, pos, p, out);
    forall i | 0 <= i < n ensures BucketOk(n, tags', b'[i], i) {
      assert BucketOk(n, tags, b[i], i);
      assert BucketLinked(b, pos, i, out);
    }
    forall i | 0 <= i < n ensures OrderedAt(b', i) {
      assert OrderedAt(b, i);
    }
    forall v | 0 <= v < last ensures ValueLinked(b', pos', v, -1) {
      assert v != out ==> ValueLinked(b, pos, v, -1);
    }
    forall i | 0 <= i < n ensures BucketLinked(b', pos', i, -1) {
      assert BucketLinked(b, pos, i, out);
    }
  }

  /** Occupied buckets carry different indices, all in use. */
  lemma OneBucketEach(b: seq<Bucket>, tags: seq<Tag>, pos: seq<nat>, i: nat, j: nat)
    requires Indexed(b, tags, pos) && i < |b| && j < |b| && b[i].distFp != 0 && b[j].distFp != 0
    ensures b[i].valueIdx < |tags| && (b[i].valueIdx == b[j].valueIdx ==> i == j)
  {
    assert BucketLinked(b, pos, i, -1) && BucketLinked(b, pos, j, -1);
  }

  /** Erasing the last entry needs no relabelling. */
  lemma DropLast(b: seq<Bucket>, tags: seq<Tag>, pos: seq<nat>)
    requires Shape(b, tags) && |pos| == |tags| > 0 && Linked(b, pos, |tags| - 1, -1)
    ensures Indexed(b, tags[..|tags| - 1], pos[..|tags| - 1])
  {
    var n, tags' := |b|, tags[..|tags| - 1];
    forall i | 0 <= i < n ensures BucketOk(n, tags', b[i], i) {
      assert BucketOk(n, tags, b[i], i);
      assert BucketLinked(b, pos, i, |tags| - 1);
    }
    var pos' := pos[..|tags| - 1];
    forall v | 0 <= v < |pos'| ensures ValueLinked(b, pos', v, -1) {
      assert ValueLinked(b, pos, v, -1);
    }
    forall i | 0 <= i < n ensures BucketLinked(b, pos', i, -1) {
      assert BucketLinked(b, pos, i, |tags| - 1);
    }
  }
}
