/**
 One database as a pair of tables, and the simple meaning of expiry it must keep: an entry is
 there until its deadline and gone from then on, whoever prunes it and when.
 */
module Expiry {
  import opened Options
  import opened Decimal

  /** Milliseconds of the steady clock. */
  type Time = t: int | 0 <= t <= INT64_MAX

  /** The main table and the deadlines, in milliseconds. */
  datatype Store<K, V> = Store(data: map<K, V>, expire: map<K, int>)

  /** A deadline only for keys that are there. */
  ghost predicate Ok<K, V>(s: Store<K, V>) {
    s.expire.Keys <= s.data.Keys
  }

  predicate Due<K(==), V>(s: Store<K, V>, k: K, t: int) {
    k in s.expire && s.expire[k] <= t
  }

  datatype Live<V> = Live(value: V, deadline: Option<int>)

  /** What can be seen at time `t`. */
  ghost function Seen<K, V>(s: Store<K, V>, t: int): map<K, Live<V>> {
    map k | k in s.data && !Due(s, k, t) :: Live(s.data[k], if k in s.expire then Some(s.expire[k]) else None)
  }

  // ----- the operations on the two tables -----

  function Drop<K, V>(s: Store<K, V>, ks: set<K>): Store<K, V> {
    Store(s.data - ks, s.expire - ks)
  }

  function Prune<K(==), V>(s: Store<K, V>, k: K, now: int): Store<K, V> {
    if Due(s, k, now) then Drop(s, {k}) else s
  }

  function DueKeys<K(==), V>(s: Store<K, V>, now: int): set<K> {
    set k | k in s.expire && s.expire[k] <= now
  }

  function Put<K(==), V>(s: Store<K, V>, k: K, v: V): Store<K, V> {
    s.(data := s.data[k := v])
  }

  lemma SubtractTwice<K, V>(m: map<K, V>, a: set<K>, b: set<K>)
    ensures m - a - b == m - (a + b)
  {
  }

  /** Never beyond the largest 64-bit time. */
  function Deadline(now: Time, ttl: Int64): (d: Time)
    requires 0 < ttl
    ensures d == if now + ttl <= INT64_MAX then now + ttl else INT64_MAX
    ensures now <= d
  {
    if ttl >= INT64_MAX - now then INT64_MAX else now + ttl
  }

  datatype Op<K, V> =
    | Find(key: K)
    | Exists(key: K)
    | Set(key: K, value: V)
    | Del(key: K)
    | Expire(key: K, ttl: Int64)
    | Persist(key: K)
    | Ttl(key: K)
    | KeyCount
    | Keys
    | Cycle(scanned: set<K>)

  datatype Reply<K, V> = Nothing | Value(found: Option<V>) | Yes(yes: bool) | Number(n: int) | KeySet(ks: set<K>)

  /** What the code does to the tables and what it answers. */
  function Step<K(==), V>(s: Store<K, V>, op: Op<K, V>, now: Time): (Store<K, V>, Reply<K, V>) {
    match op
    case Find(k) =>
      var p := Prune(s, k, now);
      (p, Value(if k in p.data then Some(p.data[k]) else None))
    case Exists(k) =>
      var p := Prune(s, k, now);
      (p, Yes(k in p.data))
    case Set(k, v) => (Put(s, k, v), Nothing)
    case Del(k) =>
      var p := Prune(s, k, now);
      if k in p.data then (Drop(p, {k}), Yes(true)) else (p, Yes(false))
    case Expire(k, ttl) =>
      var p := Prune(s, k, now);
      if k !in p.data then (p, Yes(false))
      else if ttl <= 0 then (Drop(p, {k}), Yes(true))
      else (p.(expire := p.expire[k := Deadline(now, ttl)]), Yes(true))
    case Persist(k) =>
      var p := Prune(s, k, now);
      if k !in p.data then (p, Yes(false)) else (p.(expire := p.expire - {k}), Yes(k in p.expire))
    case Ttl(k) =>
      var p := Prune(s, k, now);
      (p, Number(if k !in p.data then -2 else if k !in p.expire then -1 else (p.expire[k] - now) / 1000))
    case KeyCount =>
      var p := Drop(s, DueKeys(s, now));
      (p, Number(|p.data|))
    case Keys =>
      var p := Drop(s, DueKeys(s, now));
      (p, KeySet(p.data.Keys))
    case Cycle(scanned) => (Drop(s, DueKeys(s, now) * scanned), Nothing)
  }

  // ----- the simple meaning -----

  /** What is left of a view at time `t`. */
  ghost function After<K, V>(m: map<K, Live<V>>, t: int): map<K, Live<V>> {
    map k | k in m && !(m[k].deadline.Some? && m[k].deadline.value <= t) :: m[k]
  }

  /** The operations on a view in which nothing is due. */
  ghost function Ideal<K, V>(m: map<K, Live<V>>, op: Op<K, V>, now: Time): (map<K, Live<V>>, Reply<K, V>) {
    match op
    case Find(k) => (m, Value(if k in m then Some(m[k].value) else None))
    case Exists(k) => (m, Yes(k in m))
    case Set(k, v) => (m[k := Live(v, if k in m then m[k].deadline else None)], Nothing)
    case Del(k) => (m - {k}, Yes(k in m))
    case Expire(k, ttl) =>
      if k !in m then (m, Yes(false))
      else if ttl <= 0 then (m - {k}, Yes(true))
      else (m[k := Live(m[k].value, Some(Deadline(now, ttl)))], Yes(true))
    case Persist(k) =>
      if k !in m then (m, Yes(false)) else (m[k := Live(m[k].value, None)], Yes(m[k].deadline.Some?))
    case Ttl(k) =>
      (m, Number(if k !in m then -2 else if m[k].deadline.None? then -1 else (m[k].deadline.value - now) / 1000))
    case KeyCount => (m, Number(|m|))
    case Keys => (m, KeySet(m.Keys))
    case Cycle(_) => (m, Nothing)
  }

  /** The one operation that does not prune before it writes. */
  ghost predicate Fresh<K, V>(s: Store<K, V>, op: Op<K, V>, now: int) {
    op.Set? ==> !Due(s, op.key, now)
  }

  // ----- pruning is invisible -----

  lemma SeenAfter<K, V>(s: Store<K, V>, now: int, t: int)
    requires now <= t
    ensures After(Seen(s, now), t) == Seen(s, t)
  {
  }

  lemma DropDue<K(!new), V>(s: Store<K, V>, ks: set<K>, now: int, t: int)
    requires Ok(s) && now <= t && forall k :: k in ks ==> Due(s, k, now)
    ensures Ok(Drop(s, ks)) && Seen(Drop(s, ks), t) == Seen(s, t)
  {
  }

  lemma PruneIsInvisible<K(!new), V>(s: Store<K, V>, k: K, now: int, t: int)
    requires Ok(s) && now <= t
    ensures Ok(Prune(s, k, now)) && Seen(Prune(s, k, now), t) == Seen(s, t)
    ensures !Due(Prune(s, k, now), k, now) && (k in Prune(s, k, now).data <==> k in Seen(s, now))
  {
    if Due(s, k, now) { DropDue(s, {k}, now, t); }
  }

  /** With everything due dropped, the main table holds exactly what can be seen. */
  lemma PruneAllIsSeen<K(!new), V>(s: Store<K, V>, now: int)
    requires Ok(s)
    ensures Drop(s, DueKeys(s, now)).data.Keys == Seen(s, now).Keys
    ensures |Drop(s, DueKeys(s, now)).data| == |Seen(s, now)|
  {
    var p := Drop(s, DueKeys(s, now));
    assert forall k :: k in p.data <==> k in Seen(s, now);
    assert p.data.Keys == Seen(s, now).Keys;
    assert |p.data| == |p.data.Keys| && |Seen(s, now)| == |Seen(s, now).Keys|;
  }

  // ----- every operation means what the simple one does -----

  /** The same answer, and the same view from now on. */
  ghost predicate Refines<K, V>(s: Store<K, V>, op: Op<K, V>, now: Time, t: int) {
    var step, ideal := Step(s, op, now), Ideal(Seen(s, now), op, now);
    Ok(step.0) && step.1 == ideal.1 && Seen(step.0, t) == After(ideal.0, t)
  }

  lemma ReadsRefine<K(!new), V>(s: Store<K, V>, op: Op<K, V>, now: Time, t: int)
    requires Ok(s) && now <= t && (op.Find? || op.Exists? || op.Ttl?)
    ensures Refines(s, op, now, t)
  {
    PruneIsInvisible(s, op.key, now, now);
    PruneIsInvisible(s, op.key, now, t);
    SeenAfter(s, now, t);
    var k, p := op.key, Prune(s, op.key, now);
    if k in p.data {
      assert Seen(p, now)[k] == Seen(s, now)[k];
    }
  }

  /** On a key that is not due a removal shows nothing but the key missing. */
  lemma RemovalSeen<K(!new), V>(p: Store<K, V>, k: K, now: int, t: int)
    requires Ok(p) && now <= t
    ensures Ok(Drop(p, {k})) && Seen(Drop(p, {k}), t) == After(Seen(p, now) - {k}, t)
  {
  }

  lemma DelRefines<K(!new), V>(s: Store<K, V>, k: K, now: Time, t: int)
    requires Ok(s) && now <= t
    ensures Refines(s, Del(k), now, t)
  {
    PruneIsInvisible(s, k, now, now);
    PruneIsInvisible(s, k, now, t);
    SeenAfter(s, now, t);
    if k in Seen(s, now) {
      RemovalSeen(Prune(s, k, now), k, now, t);
    } else {
      assert Seen(s, now) - {k} == Seen(s, now);
    }
  }

  lemma SetRefines<K(!new), V>(s: Store<K, V>, k: K, v: V, now: Time, t: int)
    requires Ok(s) && now <= t && !Due(s, k, now)
    ensures Refines(s, Set(k, v), now, t)
  {
  }

  lemma DeadlineSeen<K(!new), V>(p: Store<K, V>, k: K, d: int, now: int, t: int)
    requires Ok(p) && now <= t && k in Seen(p, now)
    ensures Seen(p.(expire := p.expire[k := d]), t) == After(Seen(p, now)[k := Live(p.data[k], Some(d))], t)
  {
  }

  lemma ExpireRefines<K(!new), V>(s: Store<K, V>, k: K, ttl: Int64, now: Time, t: int)
    requires Ok(s) && now <= t
    ensures Refines(s, Expire(k, ttl), now, t)
  {
    PruneIsInvisible(s, k, now, now);
    PruneIsInvisible(s, k, now, t);
    SeenAfter(s, now, t);
    var p := Prune(s, k, now);
    if k in p.data {
      assert Seen(p, now)[k] == Seen(s, now)[k];
      if ttl <= 0 {
        RemovalSeen(p, k, now, t);
      } else {
        DeadlineSeen(p, k, Deadline(now, ttl), now, t);
      }
    }
  }

  lemma PersistRefines<K(!new), V>(s: Store<K, V>, k: K, now: Time, t: int)
    requires Ok(s) && now <= t
    ensures Refines(s, Persist(k), now, t)
  {
    PruneIsInvisible(s, k, now, now);
    PruneIsInvisible(s, k, now, t);
    SeenAfter(s, now, t);
    var p := Prune(s, k, now);
    if k in p.data {
      assert Seen(p, now)[k] == Seen(s, now)[k];
      assert Seen(p.(expire := p.expire - {k}), t) == After(Seen(p, now)[k := Live(p.data[k], None)], t);
    }
  }

  lemma SweepsRefine<K(!new), V>(s: Store<K, V>, op: Op<K, V>, now: Time, t: int)
    requires Ok(s) && now <= t && (op.KeyCount? || op.Keys? || op.Cycle?)
    ensures Refines(s, op, now, t)
  {
    SeenAfter(s, now, t);
    PruneAllIsSeen(s, now);
    if op.Cycle? {
      DropDue(s, DueKeys(s, now) * op.scanned, now, t);
    } else {
      DropDue(s, DueKeys(s, now), now, t);
    }
  }

  lemma StepRefines<K(!new), V>(s: Store<K, V>, op: Op<K, V>, now: Time, t: int)
    requires Ok(s) && now <= t && Fresh(s, op, now)
    ensures Refines(s, op, now, t)
  {
    match op
    case Set(k, v) => SetRefines(s, k, v, now, t);
    case Del(k) => DelRefines(s, k, now, t);
    case Expire(k, ttl) => ExpireRefines(s, k, ttl, now, t);
    case Persist(k) => PersistRefines(s, k, now, t);
    case Find(_) => ReadsRefine(s, op, now, t);
    case Exists(_) => ReadsRefine(s, op, now, t);
    case Ttl(_) => ReadsRefine(s, op, now, t);
    case _ => SweepsRefine(s, op, now, t);
  }

  /** What a caller sees: the answer of the simple table, and its view from now on. */
  ghost predicate Serves<K, V>(s: Store<K, V>, op: Op<K, V>, now: Time, s': Store<K, V>, reply: Reply<K, V>) {
    var ideal := Ideal(Seen(s, now), op, now);
    reply == ideal.1 && forall t {:trigger Seen(s', t)} :: now <= t ==> Seen(s', t) == After(ideal.0, t)
  }

  lemma StepServes<K(!new), V>(s: Store<K, V>, op: Op<K, V>, now: Time)
    requires Ok(s) && Fresh(s, op, now)
    ensures Serves(s, op, now, Step(s, op, now).0, Step(s, op, now).1)
  {
    StepRefines(s, op, now, now);
    forall t | now <= t ensures Seen(Step(s, op, now).0, t) == After(Ideal(Seen(s, now), op, now).0, t) {
      StepRefines(s, op, now, t);
    }
  }

  /** The condition is exact: a `Set` that meets a due entry leaves a value nobody sees. */
  lemma RefinesNeedsFresh<K(!new), V>(s: Store<K, V>, op: Op<K, V>, now: Time)
    requires Ok(s)
    ensures Refines(s, op, now, now) <==> Fresh(s, op, now)
  {
    if Fresh(s, op, now) {
      StepRefines(s, op, now, now);
    } else {
      assert op.key in After(Ideal(Seen(s, now), op, now).0, now);
      assert op.key !in Seen(Step(s, op, now).0, now);
    }
  }

  /** Every operation keeps the tables in order, also a `Set` on a key that is due. */
  lemma StepOk<K(!new), V>(s: Store<K, V>, op: Op<K, V>, now: Time)
    requires Ok(s)
    ensures Ok(Step(s, op, now).0)
  {
    if !op.Set? { StepRefines(s, op, now, now); }
  }

  // ----- whole runs -----

  datatype Event<K, V> = At(now: Time, op: Op<K, V>)

  /** Times do not go back. */
  ghost predicate Forward<K, V>(run: seq<Event<K, V>>, from: int) {
    run != [] ==> from <= run[0].now && Forward(run[1..], run[0].now)
  }

  /** No `Set` of the run meets a key that is due and still stored. */
  ghost predicate FreshRun<K, V>(s: Store<K, V>, run: seq<Event<K, V>>)
    decreases |run|
  {
    run != [] ==> Fresh(s, run[0].op, run[0].now) && FreshRun(Step(s, run[0].op, run[0].now).0, run[1..])
  }

  ghost function Replies<K, V>(s: Store<K, V>, run: seq<Event<K, V>>): seq<Reply<K, V>>
    decreases |run|
  {
    if run == [] then []
    else var step := Step(s, run[0].op, run[0].now); [step.1] + Replies(step.0, run[1..])
  }

  ghost function IdealReplies<K, V>(m: map<K, Live<V>>, run: seq<Event<K, V>>): seq<Reply<K, V>>
    decreases |run|
  {
    if run == [] then []
    else
      var ideal := Ideal(After(m, run[0].now), run[0].op, run[0].now);
      [ideal.1] + IdealReplies(ideal.0, run[1..])
  }

  /** The tables show what the simple table `m` shows, from then on. */
  ghost predicate Agree<K, V>(s: Store<K, V>, m: map<K, Live<V>>, from: int) {
    Ok(s) && forall t {:trigger Seen(s, t)} :: from <= t ==> Seen(s, t) == After(m, t)
  }

  lemma StepAgrees<K(!new), V>(s: Store<K, V>, m: map<K, Live<V>>, op: Op<K, V>, from: int, now: Time)
    requires Agree(s, m, from) && from <= now && Fresh(s, op, now)
    ensures Step(s, op, now).1 == Ideal(After(m, now), op, now).1
    ensures Agree(Step(s, op, now).0, Ideal(After(m, now), op, now).0, now)
  {
    assert Seen(s, now) == After(m, now);
    StepRefines(s, op, now, now);
    var step, ideal := Step(s, op, now), Ideal(Seen(s, now), op, now);
    forall t | now <= t ensures Seen(step.0, t) == After(ideal.0, t) {
      StepRefines(s, op, now, t);
    }
  }

  /**
   Pruning cannot be told from the answers: in any order of operations, with expiry cycles anywhere
   between them, they are those of a table in which entries vanish at their deadline.
   */
  lemma {:induction false} RunRefines<K(!new), V>(s: Store<K, V>, m: map<K, Live<V>>, run: seq<Event<K, V>>, from: int)
    requires Agree(s, m, from) && Forward(run, from) && FreshRun(s, run)
    ensures Replies(s, run) == IdealReplies(m, run)
    decreases |run|
  {
    if run != [] {
      var now, op := run[0].now, run[0].op;
      StepAgrees(s, m, op, from, now);
      RunRefines(Step(s, op, now).0, Ideal(After(m, now), op, now).0, run[1..], now);
    }
  }

  // ----- the SET command -----

  /** `Set`, then a deadline or none. */
  function SetCommand<K(==), V>(s: Store<K, V>, k: K, v: V, ttl: Option<Int64>, now: Time): Store<K, V> {
    var written := Step(s, Set(k, v), now).0;
    Step(written, if ttl.Some? then Expire(k, ttl.value) else Persist(k), now).0
  }

  /** The new value is there afterwards exactly when the old entry was not due: otherwise it is pruned as if it were the old one. */
  lemma SetCommandTakesEffect<K(!new), V>(s: Store<K, V>, k: K, v: V, ttl: Option<Int64>, now: Time)
    requires Ok(s) && now < INT64_MAX && (ttl.Some? ==> ttl.value > 0)
    ensures Due(s, k, now) ==> Seen(SetCommand(s, k, v, ttl, now), now) == Seen(s, now)
    ensures !Due(s, k, now) ==>
      var deadline := if ttl.Some? then Some(Deadline(now, ttl.value)) else None;
      Seen(SetCommand(s, k, v, ttl, now), now) == Seen(s, now)[k := Live(v, deadline)]
  {
    var written := Put(s, k, v);
    if Due(s, k, now) {
      assert Prune(written, k, now) == Prune(s, k, now);
      PruneIsInvisible(s, k, now, now);
    } else {
      assert Prune(written, k, now) == written;
    }
  }

  /** A key one millisecond late: `SET` answers and leaves no entry at all. */
  lemma SetCommandCanLoseTheValue()
    ensures var s := Store(map["k" := 1], map["k" := 9]);
            Ok(s) && "k" !in SetCommand(s, "k", 2, None, 10).data
  {
    var s := Store(map["k" := 1], map["k" := 9]);
    assert Due(Put(s, "k", 2), "k", 10);
  }
}
