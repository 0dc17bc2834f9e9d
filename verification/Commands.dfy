/**
 DEL, EXISTS, MSET and MGET on one shard and on several, what they mean for the entries that can be
 seen, and when both branches agree. All steps of one command read the same time.
 */
module Commands {
  import opened Options
  import opened Powers
  import opened Decimal
  import opened NanoObj
  import opened Expiry
  import opened Scatter
  import opened Crowding

  // ----- what is done for one key -----

  /** Which stored key an argument means, if any. */
  type Finder = Obj -> Option<Obj>

  /** In the single-shard branch: the class of the argument under `operator==`; a null means no key. */
  function ByClass(o: Obj): Option<Obj> {
    if o.Null? then None else Some(Norm(o))
  }

  /** On a shard, which has just rebuilt the key from its text. */
  function AsIs(o: Obj): Option<Obj> {
    Some(o)
  }

  function DelKey(find: Finder, now: Time): Handler {
    (s: Table, r: Request) =>
      match find(r.key) case None => (s, Yes(false)) case Some(k) => Step(s, Del(k), now)
  }

  function ExistsKey(find: Finder, now: Time): Handler {
    (s: Table, r: Request) =>
      match find(r.key) case None => (s, Yes(false)) case Some(k) => Step(s, Exists(k), now)
  }

  function GetKey(find: Finder, now: Time): Handler {
    (s: Table, r: Request) =>
      match find(r.key) case None => (s, Value(None)) case Some(k) => Step(s, Find(k), now)
  }

  function SetPair(find: Finder, now: Time): Handler {
    (s: Table, r: Request) =>
      match find(r.key) case None => (s, Nothing) case Some(k) => (SetCommand(s, k, r.value, None, now), Nothing)
  }

  /** An operation on one key sees and changes the two tables at that key only. */
  lemma StepElsewhere(s: Table, op: Op<Obj, Obj>, now: Time, k: Obj)
    requires !op.KeyCount? && !op.Keys? && !op.Cycle? && k != op.key
    ensures SameAt(s, Step(s, op, now).0, k)
  {
  }

  lemma StepAlike(s: Table, t: Table, op: Op<Obj, Obj>, now: Time)
    requires !op.KeyCount? && !op.Keys? && !op.Cycle? && SameAt(s, t, op.key)
    ensures Step(s, op, now).1 == Step(t, op, now).1
    ensures SameAt(Step(s, op, now).0, Step(t, op, now).0, op.key)
  {
  }

  lemma ReadsAreLocal(now: Time)
    ensures Local(ExistsKey(AsIs, now)) && Local(GetKey(AsIs, now))
  {
    var e, g := ExistsKey(AsIs, now), GetKey(AsIs, now);
    forall s, r, k ensures Elsewhere(e, s, r, k) && Elsewhere(g, s, r, k) {
      if k != r.key {
        StepElsewhere(s, Exists(r.key), now, k);
        StepElsewhere(s, Find(r.key), now, k);
      }
    }
    forall s, t, r ensures Alike(e, s, t, r) && Alike(g, s, t, r) {
      if SameAt(s, t, r.key) {
        StepAlike(s, t, Exists(r.key), now);
        StepAlike(s, t, Find(r.key), now);
      }
    }
  }

  lemma DelIsLocal(now: Time)
    ensures Local(DelKey(AsIs, now))
  {
    var d := DelKey(AsIs, now);
    forall s, r, k ensures Elsewhere(d, s, r, k) {
      if k != r.key { StepElsewhere(s, Del(r.key), now, k); }
    }
    forall s, t, r ensures Alike(d, s, t, r) {
      if SameAt(s, t, r.key) { StepAlike(s, t, Del(r.key), now); }
    }
  }

  lemma SetElsewhere(s: Table, k: Obj, v: Obj, now: Time, other: Obj)
    requires other != k
    ensures SameAt(s, SetCommand(s, k, v, None, now), other)
  {
    StepElsewhere(s, Set(k, v), now, other);
    StepElsewhere(Put(s, k, v), Persist(k), now, other);
  }

  lemma SetAlike(s: Table, t: Table, k: Obj, v: Obj, now: Time)
    requires SameAt(s, t, k)
    ensures SameAt(SetCommand(s, k, v, None, now), SetCommand(t, k, v, None, now), k)
  {
    StepAlike(s, t, Set(k, v), now);
    StepAlike(Put(s, k, v), Put(t, k, v), Persist(k), now);
  }

  lemma SetIsLocal(now: Time)
    ensures Local(SetPair(AsIs, now))
  {
    var f := SetPair(AsIs, now);
    forall s, r, k ensures Elsewhere(f, s, r, k) {
      if k != r.key { SetElsewhere(s, r.key, r.value, now, k); }
    }
    forall s, t, r ensures Alike(f, s, t, r) {
      if SameAt(s, t, r.key) { SetAlike(s, t, r.key, r.value, now); }
    }
  }

  // ----- the commands -----

  function KeyRequests(keys: seq<Obj>): (rs: seq<Request>)
    ensures |rs| == |keys| && forall i :: 0 <= i < |rs| ==> rs[i] == Request(i, keys[i], keys[i])
  {
    seq(|keys|, i requires 0 <= i < |keys| => Request(i, keys[i], keys[i]))
  }

  /** The pairs of MSET: key, value, key, value. */
  function PairRequests(args: seq<Obj>): (rs: seq<Request>)
    requires |args| % 2 == 0
    ensures |rs| == |args| / 2 && forall i :: 0 <= i < |rs| ==> rs[i] == Request(i, args[2 * i], args[2 * i + 1])
  {
    seq(|args| / 2, i requires 0 <= i < |args| / 2 => Request(i, args[2 * i], args[2 * i + 1]))
  }

  /** Any objects; `args[0]` is the name of the command. */
  ghost predicate ArgsOk(args: seq<Obj>) {
    forall i :: 0 <= i < |args| ==> ObjOk(args[i])
  }

  method DelCommand(engines: ShardSet, args: seq<Obj>, now: Time, ghost whole: Table) returns (count: Option<nat>)
    requires ArgsOk(args) && |engines.shards| > 0 && AreParts(whole, engines.shards, engines.hash)
    modifies engines`shards
    ensures |args| < 2 ==> count == None && engines.shards == old(engines.shards)
    ensures |args| >= 2 ==>
      var rs, n := KeyRequests(args[1..]), old(|engines.shards|);
      count == Some(YesCount(AnswersFrom(DelKey(ByClass, now), DelKey(AsIs, now), n, whole, rs))) &&
      AreParts(TableAfter(DelKey(ByClass, now), DelKey(AsIs, now), n, whole, rs), engines.shards, engines.hash)
  {
    if |args| < 2 {
      return None;
    }
    DelIsLocal(now);
    var _, yes := engines.Run(DelKey(ByClass, now), DelKey(AsIs, now), KeyRequests(args[1..]), whole);
    return Some(yes);
  }

  method ExistsCommand(engines: ShardSet, args: seq<Obj>, now: Time, ghost whole: Table) returns (count: Option<nat>)
    requires ArgsOk(args) && |engines.shards| > 0 && AreParts(whole, engines.shards, engines.hash)
    modifies engines`shards
    ensures |args| < 2 ==> count == None && engines.shards == old(engines.shards)
    ensures |args| >= 2 ==>
      var rs, n := KeyRequests(args[1..]), old(|engines.shards|);
      count == Some(YesCount(AnswersFrom(ExistsKey(ByClass, now), ExistsKey(AsIs, now), n, whole, rs))) &&
      AreParts(TableAfter(ExistsKey(ByClass, now), ExistsKey(AsIs, now), n, whole, rs), engines.shards, engines.hash)
  {
    if |args| < 2 {
      return None;
    }
    ReadsAreLocal(now);
    var _, yes := engines.Run(ExistsKey(ByClass, now), ExistsKey(AsIs, now), KeyRequests(args[1..]), whole);
    return Some(yes);
  }

  method MGetCommand(engines: ShardSet, args: seq<Obj>, now: Time, ghost whole: Table)
    returns (values: Option<seq<Option<Answer>>>)
    requires ArgsOk(args) && |engines.shards| > 0 && AreParts(whole, engines.shards, engines.hash)
    modifies engines`shards
    ensures |args| < 2 ==> values == None && engines.shards == old(engines.shards)
    ensures |args| >= 2 ==>
      var rs, n := KeyRequests(args[1..]), old(|engines.shards|);
      values == Some(AnswersFrom(GetKey(ByClass, now), GetKey(AsIs, now), n, whole, rs)) &&
      AreParts(TableAfter(GetKey(ByClass, now), GetKey(AsIs, now), n, whole, rs), engines.shards, engines.hash)
  {
    if |args| < 2 {
      return None;
    }
    ReadsAreLocal(now);
    var answers, _ := engines.Run(GetKey(ByClass, now), GetKey(AsIs, now), KeyRequests(args[1..]), whole);
    return Some(answers);
  }

  /** The values that the pairs with a null key leave behind, each as an entry of its own. */
  function NullValues(rs: seq<Request>): seq<Obj> {
    if rs == [] then []
    else
      var last := rs[|rs| - 1];
      NullValues(rs[..|rs| - 1]) + if last.key.Null? then [last.value] else []
  }

  /** How MSET ends: with an error, with its reply, or not at all. */
  datatype Outcome = Refused | Done | Stuck

  function Sizes(nulls: seq<seq<Obj>>): (r: seq<nat>)
    ensures |r| == |nulls| && forall j :: 0 <= j < |r| ==> r[j] == |nulls[j]|
  {
    seq(|nulls|, j requires 0 <= j < |nulls| => |nulls[j]|)
  }

  /** Some pair finds no room in the directory of its shard, whose split loop then has no end. */
  ghost predicate MSetStalls(hash: Bytes -> nat, place: Obj -> Hash64, threshold: nat,
                             shards: seq<Table>, nulls: seq<nat>, rs: seq<Request>, now: Time)
    requires |nulls| == |shards| > 0
  {
    if |shards| == 1 then Stalls(SetPair(ByClass, now), place, threshold, shards, nulls, Route(hash, 1), rs)
    else Stalls(SetPair(AsIs, now), place, threshold, shards, nulls, Route(hash, |shards|), RebuildAll(rs))
  }

  method FindMSetStall(engines: ShardSet, rs: seq<Request>, now: Time) returns (stalls: bool)
    requires RequestsOk(rs) && |engines.nulls| == |engines.shards| > 0
    ensures stalls == MSetStalls(engines.hash, engines.place, engines.threshold, engines.shards, Sizes(engines.nulls), rs, now)
  {
    var shards, nulls := engines.shards, Sizes(engines.nulls);
    if |shards| == 1 {
      stalls := FindStall(SetPair(ByClass, now), engines.place, engines.threshold, shards, nulls, Route(engines.hash, 1), rs);
    } else {
      var sent := ReceiveAll(rs);
      stalls := FindStall(SetPair(AsIs, now), engines.place, engines.threshold, shards, nulls, Route(engines.hash, |shards|), sent);
    }
  }

  /** What a command that is stuck has written before is not told. */
  method MSetCommand(engines: ShardSet, args: seq<Obj>, now: Time, ghost whole: Table) returns (r: Outcome)
    requires ArgsOk(args) && |engines.nulls| == |engines.shards| > 0 && AreParts(whole, engines.shards, engines.hash)
    modifies engines`shards, engines`nulls
    ensures r == Refused <==> !(|args| >= 3 && |args| % 2 == 1)
    ensures r == Refused ==> engines.shards == old(engines.shards) && engines.nulls == old(engines.nulls)
    ensures r != Refused ==>
      (r == Stuck <==> MSetStalls(engines.hash, engines.place, engines.threshold,
                                  old(engines.shards), old(Sizes(engines.nulls)), PairRequests(args[1..]), now))
    ensures r == Done ==>
      var rs, n := PairRequests(args[1..]), old(|engines.shards|);
      engines.nulls == (if n == 1 then [old(engines.nulls[0]) + NullValues(rs)] else old(engines.nulls)) &&
      AreParts(TableAfter(SetPair(ByClass, now), SetPair(AsIs, now), n, whole, rs), engines.shards, engines.hash)
  {
    if |args| < 3 || (|args| - 1) % 2 != 0 {
      return Refused;
    }
    SetIsLocal(now);
    PairsOk(args);
    var rs := PairRequests(args[1..]);
    var stalls := FindMSetStall(engines, rs, now);
    if stalls {
      return Stuck;
    }
    if |engines.shards| == 1 {
      engines.nulls := [engines.nulls[0] + NullValues(rs)];
    }
    var _, _ := engines.Run(SetPair(ByClass, now), SetPair(AsIs, now), rs, whole);
    return Done;
  }

  lemma PairsOk(args: seq<Obj>)
    requires ArgsOk(args) && |args| % 2 == 1
    ensures RequestsOk(PairRequests(args[1..]))
  {
    var pairs := args[1..];
    forall i | 0 <= i < |pairs| ensures ObjOk(pairs[i]) {
      assert pairs[i] == args[i + 1];
    }
  }

  // ----- what they mean -----

  /** The stored keys that a request, or a list of them, means. */
  ghost function Found(find: Finder, r: Request): set<Obj> {
    match find(r.key) case None => {} case Some(k) => {k}
  }

  ghost function KeysIn(find: Finder, rs: seq<Request>): set<Obj> {
    if rs == [] then {} else KeysIn(find, rs[..|rs| - 1]) + Found(find, rs[|rs| - 1])
  }

  /** A handler that takes exactly the key it finds out of what can be seen, and answers whether it was there. */
  ghost predicate Deletes(f: Handler, find: Finder, now: Time) {
    forall s, r {:trigger f(s, r)} :: Ok(s) ==>
      Ok(f(s, r).0) && Seen(f(s, r).0, now) == Seen(s, now) - Found(find, r) &&
      f(s, r).1 == Yes(Found(find, r) != {} && Found(find, r) <= Seen(s, now).Keys)
  }

  lemma DelKeyDeletes(find: Finder, now: Time)
    ensures Deletes(DelKey(find, now), find, now)
  {
    var f := DelKey(find, now);
    forall s: Table, r: Request | Ok(s)
      ensures Ok(f(s, r).0) && Seen(f(s, r).0, now) == Seen(s, now) - Found(find, r)
      ensures f(s, r).1 == Yes(Found(find, r) != {} && Found(find, r) <= Seen(s, now).Keys)
    {
      match find(r.key)
      case None => assert Seen(s, now) - {} == Seen(s, now);
      case Some(k) => DelSeen(s, k, now);
    }
  }

  lemma {:induction false} DelLeaves(f: Handler, find: Finder, s: Table, rs: seq<Request>, now: Time)
    requires Ok(s) && Deletes(f, find, now)
    ensures Ok(ServeAll(f, s, rs)) && Seen(ServeAll(f, s, rs), now) == Seen(s, now) - KeysIn(find, rs)
    decreases |rs|
  {
    if rs == [] {
      assert Seen(s, now) - {} == Seen(s, now);
    } else {
      var front := rs[..|rs| - 1];
      DelLeaves(f, find, s, front, now);
      SubtractTwice(Seen(s, now), KeysIn(find, front), Found(find, rs[|rs| - 1]));
    }
  }

  /** A request counts if its key can be seen and was not named before. */
  lemma DelAnswer(f: Handler, find: Finder, s: Table, rs: seq<Request>, now: Time)
    requires Ok(s) && Deletes(f, find, now) && rs != []
    ensures var found := Found(find, rs[|rs| - 1]);
            AnswerTo(f, s, rs, |rs| - 1) ==
            Yes(found != {} && found <= Seen(s, now).Keys - KeysIn(find, rs[..|rs| - 1]))
  {
    DelLeaves(f, find, s, rs[..|rs| - 1], now);
  }

  lemma {:induction false} DelCounts(f: Handler, find: Finder, s: Table, rs: seq<Request>, now: Time)
    requires Ok(s) && Deletes(f, find, now)
    ensures YesCount(AnswersOf(f, s, rs)) == |Seen(s, now).Keys * KeysIn(find, rs)|
    decreases |rs|
  {
    var keys := Seen(s, now).Keys;
    if rs == [] {
      assert keys * {} == {};
    } else {
      var front, found := rs[..|rs| - 1], Found(find, rs[|rs| - 1]);
      DelCounts(f, find, s, front, now);
      DelAnswer(f, find, s, rs, now);
      YesOneMore(f, s, rs, found != {} && found <= keys - KeysIn(find, front));
      CountFound(keys, KeysIn(find, front), find, rs[|rs| - 1]);
    }
  }

  /** DEL counts every key that can be seen once, however often it is named, and exactly those keys are gone. */
  lemma DelMeans(find: Finder, s: Table, rs: seq<Request>, now: Time)
    requires Ok(s)
    ensures var t := ServeAll(DelKey(find, now), s, rs); Ok(t) && Seen(t, now) == Seen(s, now) - KeysIn(find, rs)
    ensures YesCount(AnswersOf(DelKey(find, now), s, rs)) == |Seen(s, now).Keys * KeysIn(find, rs)|
  {
    DelKeyDeletes(find, now);
    DelLeaves(DelKey(find, now), find, s, rs, now);
    DelCounts(DelKey(find, now), find, s, rs, now);
  }

  lemma CountFound(all: set<Obj>, some: set<Obj>, find: Finder, r: Request)
    ensures var found := Found(find, r);
            |all * (some + found)| == |all * some| + if found != {} && found <= all - some then 1 else 0
  {
    match find(r.key)
    case None => assert some + {} == some;
    case Some(k) => CountOneMore(all, some, k);
  }

  lemma YesOneMore(f: Handler, s: Table, rs: seq<Request>, yes: bool)
    requires rs != [] && AnswerTo(f, s, rs, |rs| - 1) == Yes(yes)
    ensures YesCount(AnswersOf(f, s, rs)) == YesCount(AnswersOf(f, s, rs[..|rs| - 1])) + if yes then 1 else 0
  {
    AnswersOfFront(f, s, rs);
    YesCountMore(AnswersOf(f, s, rs[..|rs| - 1]), Yes(yes));
  }

  lemma DelSeen(s: Table, k: Obj, now: Time)
    requires Ok(s)
    ensures var step := Step(s, Del(k), now);
            Ok(step.0) && Seen(step.0, now) == Seen(s, now) - {k} && step.1 == Yes(k in Seen(s, now))
  {
    DelRefines(s, k, now, now);
    assert After(Seen(s, now) - {k}, now) == Seen(s, now) - {k};
  }

  lemma CountOneMore<T>(all: set<T>, some: set<T>, k: T)
    ensures |all * (some + {k})| == |all * some| + if k in all - some then 1 else 0
  {
    if k in all - some {
      assert all * (some + {k}) == all * some + {k};
    } else {
      assert all * (some + {k}) == all * some;
    }
  }

  /** The key of a request is there to be seen. */
  ghost predicate Shows(find: Finder, s: Table, r: Request, now: Time) {
    find(r.key).Some? && find(r.key).value in Seen(s, now)
  }

  /** EXISTS shows nothing new and answers position by position from what can be seen. */
  lemma {:induction false} ExistsMeans(find: Finder, s: Table, rs: seq<Request>, i: nat, now: Time)
    requires Ok(s) && i <= |rs|
    ensures var t := ServeAll(ExistsKey(find, now), s, rs[..i]); Ok(t) && Seen(t, now) == Seen(s, now)
    ensures i < |rs| ==> AnswerTo(ExistsKey(find, now), s, rs, i) == Yes(Shows(find, s, rs[i], now))
    decreases i
  {
    if i > 0 {
      ExistsMeans(find, s, rs, i - 1, now);
      assert rs[..i][..i - 1] == rs[..i - 1];
      ReadSeen(find, ServeAll(ExistsKey(find, now), s, rs[..i - 1]), rs[i - 1], now);
    }
    if i < |rs| { ReadSeen(find, ServeAll(ExistsKey(find, now), s, rs[..i]), rs[i], now); }
  }

  /** So does MGET, with the values. */
  lemma {:induction false} MGetMeans(find: Finder, s: Table, rs: seq<Request>, i: nat, now: Time)
    requires Ok(s) && i <= |rs|
    ensures var t := ServeAll(GetKey(find, now), s, rs[..i]); Ok(t) && Seen(t, now) == Seen(s, now)
    ensures i < |rs| ==>
      AnswerTo(GetKey(find, now), s, rs, i) ==
      Value(if Shows(find, s, rs[i], now) then Some(Seen(s, now)[find(rs[i].key).value].value) else None)
    decreases i
  {
    if i > 0 {
      MGetMeans(find, s, rs, i - 1, now);
      assert rs[..i][..i - 1] == rs[..i - 1];
      ReadSeen(find, ServeAll(GetKey(find, now), s, rs[..i - 1]), rs[i - 1], now);
    }
    if i < |rs| { ReadSeen(find, ServeAll(GetKey(find, now), s, rs[..i]), rs[i], now); }
  }

  lemma ReadSeen(find: Finder, s: Table, r: Request, now: Time)
    requires Ok(s)
    ensures var e := ExistsKey(find, now)(s, r);
            Ok(e.0) && Seen(e.0, now) == Seen(s, now) && e.1 == Yes(Shows(find, s, r, now))
    ensures var g := GetKey(find, now)(s, r);
            Ok(g.0) && Seen(g.0, now) == Seen(s, now) &&
            g.1 == Value(if Shows(find, s, r, now) then Some(Seen(s, now)[find(r.key).value].value) else None)
  {
    if find(r.key).Some? {
      var k := find(r.key).value;
      ReadsRefine(s, Exists(k), now, now);
      ReadsRefine(s, Find(k), now, now);
      SeenAfter(s, now, now);
    }
  }

  /** How many of the requests mean key `k`. */
  ghost function Times(find: Finder, rs: seq<Request>, k: Obj): nat {
    if rs == [] then 0
    else Times(find, rs[..|rs| - 1], k) + if find(rs[|rs| - 1].key) == Some(k) then 1 else 0
  }

  /** The value of the last of them. */
  ghost function LastValue(find: Finder, rs: seq<Request>, k: Obj): Obj
    requires Times(find, rs, k) > 0
  {
    var last := rs[|rs| - 1];
    if find(last.key) == Some(k) then last.value else LastValue(find, rs[..|rs| - 1], k)
  }

  /** What a key is in both tables after it was set `times` times: the first time a due key is lost with its new value. */
  ghost predicate SetTo(s: Table, t: Table, k: Obj, times: nat, now: Time, last: Obj) {
    if times == 0 then SameAt(s, t, k)
    else if times == 1 && Due(s, k, now) then k !in t.data && k !in t.expire
    else k in t.data && t.data[k] == last && k !in t.expire
  }

  lemma SetHere(s: Table, k: Obj, v: Obj, now: Time)
    ensures var t := SetCommand(s, k, v, None, now);
            k !in t.expire && (if Due(s, k, now) then k !in t.data else k in t.data && t.data[k] == v)
  {
  }

  lemma {:induction false} MSetAt(find: Finder, s: Table, rs: seq<Request>, k: Obj, now: Time)
    ensures var n := Times(find, rs, k);
            SetTo(s, ServeAll(SetPair(find, now), s, rs), k, n, now, if n > 0 then LastValue(find, rs, k) else Null)
    decreases |rs|
  {
    if rs != [] {
      var front, r := rs[..|rs| - 1], rs[|rs| - 1];
      MSetAt(find, s, front, k, now);
      var t := ServeAll(SetPair(find, now), s, front);
      match find(r.key)
      case None =>
      case Some(key) =>
        if key == k { SetHere(t, k, r.value, now); } else { SetElsewhere(t, key, r.value, now, k); }
    }
  }

  /**
   MSET, for every key and every table: a named key shows its last value without deadline if it was
   not due or is named at least twice, and nothing if it was due and is named once; other keys show
   what they did.
   */
  lemma MSetMeans(find: Finder, s: Table, rs: seq<Request>, k: Obj, now: Time)
    ensures var t, n := ServeAll(SetPair(find, now), s, rs), Times(find, rs, k);
            if n == 0 then
              (k in Seen(t, now) <==> k in Seen(s, now)) && (k in Seen(t, now) ==> Seen(t, now)[k] == Seen(s, now)[k])
            else if !Due(s, k, now) || n >= 2 then
              k in Seen(t, now) && Seen(t, now)[k] == Live(LastValue(find, rs, k), None)
            else k !in Seen(t, now)
  {
    MSetAt(find, s, rs, k, now);
  }

  // ----- when one shard and several agree -----

  /** The key that a null is rebuilt to. */
  const EMPTY: Obj := Inline([])

  /** `NullCount` counts what it says: it is positive exactly when some key is null. */
  lemma {:induction false} NullIsNamed(rs: seq<Request>)
    ensures NullCount(rs) > 0 <==> exists i :: 0 <= i < |rs| && rs[i].key.Null?
    decreases |rs|
  {
    if rs != [] {
      var front := rs[..|rs| - 1];
      NullIsNamed(front);
      if NullCount(front) > 0 {
        var i :| 0 <= i < |front| && front[i].key.Null?;
        assert rs[i].key.Null?;
      }
    }
  }

  ghost predicate Arguments(rs: seq<Request>) {
    forall i :: 0 <= i < |rs| ==> rs[i].index == i && IsArg(rs[i].key) && IsArg(rs[i].value)
  }

  /** What a shard looks up for an argument. */
  lemma FoundRebuilt(r: Request)
    requires IsArg(r.key)
    ensures AsIs(Rebuild(r).key) == if r.key.Null? then Some(EMPTY) else ByClass(r.key)
  {
    RebuiltArg(r.key);
  }

  lemma RebuildFront(rs: seq<Request>)
    requires rs != []
    ensures RebuildAll(rs)[..|rs| - 1] == RebuildAll(rs[..|rs| - 1]) && RebuildAll(rs)[|rs| - 1] == Rebuild(rs[|rs| - 1])
  {
  }

  lemma {:induction false} KeysRebuilt(rs: seq<Request>)
    requires Arguments(rs)
    ensures KeysIn(AsIs, RebuildAll(rs)) == KeysIn(ByClass, rs) + if NullCount(rs) > 0 then {EMPTY} else {}
    decreases |rs|
  {
    if rs != [] {
      KeysRebuilt(rs[..|rs| - 1]);
      RebuildFront(rs);
      FoundRebuilt(rs[|rs| - 1]);
    }
  }

  /** Taking one more key out of a map shows exactly if the key is there and was not taken out before. */
  lemma OneMoreGone<K, V>(m: map<K, V>, a: set<K>, k: K)
    ensures |m.Keys * a| == |m.Keys * (a + {k})| && m - a == m - (a + {k}) <==> k !in m || k in a
  {
    CountOneMore(m.Keys, a, k);
    if k in m && k !in a {
      assert k in m - a && k !in m - (a + {k});
    } else {
      assert m - a == m - (a + {k});
    }
  }

  /**
   DEL: the same count and the same entries to be seen, exactly when no key is null, or the empty
   key cannot be seen, or it is named as well.
   */
  lemma DelAgrees(s: Table, rs: seq<Request>, now: Time)
    requires Ok(s) && Arguments(rs)
    ensures YesCount(AnswersOf(DelKey(ByClass, now), s, rs)) == YesCount(AnswersOf(DelKey(AsIs, now), s, RebuildAll(rs))) &&
            Seen(ServeAll(DelKey(ByClass, now), s, rs), now) == Seen(ServeAll(DelKey(AsIs, now), s, RebuildAll(rs)), now)
            <==> NullCount(rs) == 0 || EMPTY !in Seen(s, now) || EMPTY in KeysIn(ByClass, rs)
  {
    DelKeyDeletes(ByClass, now);
    DelKeyDeletes(AsIs, now);
    KeysRebuilt(rs);
    DeletersAgree(DelKey(ByClass, now), ByClass, rs, DelKey(AsIs, now), AsIs, RebuildAll(rs), s, now, NullCount(rs) > 0, EMPTY);
  }

  lemma MoreGone<K, V>(m: map<K, V>, a: set<K>, b: set<K>, more: bool, k: K)
    requires b == a + if more then {k} else {}
    ensures |m.Keys * a| == |m.Keys * b| && m - a == m - b <==> !more || k !in m || k in a
  {
    if more {
      OneMoreGone(m, a, k);
    } else {
      assert a + {} == a;
    }
  }

  lemma DelEffect(f: Handler, find: Finder, s: Table, rs: seq<Request>, now: Time)
    requires Ok(s) && Deletes(f, find, now)
    ensures YesCount(AnswersOf(f, s, rs)) == |Seen(s, now).Keys * KeysIn(find, rs)|
    ensures Seen(ServeAll(f, s, rs), now) == Seen(s, now) - KeysIn(find, rs)
  {
    DelLeaves(f, find, s, rs, now);
    DelCounts(f, find, s, rs, now);
  }

  /** Two handlers that delete, one of them perhaps one key more. */
  lemma DeletersAgree(f: Handler, find: Finder, rs: seq<Request>, g: Handler, other: Finder, ss: seq<Request>,
                      s: Table, now: Time, more: bool, k: Obj)
    requires Ok(s) && Deletes(f, find, now) && Deletes(g, other, now)
    requires KeysIn(other, ss) == KeysIn(find, rs) + if more then {k} else {}
    ensures YesCount(AnswersOf(f, s, rs)) == YesCount(AnswersOf(g, s, ss)) &&
            Seen(ServeAll(f, s, rs), now) == Seen(ServeAll(g, s, ss), now)
            <==> !more || k !in Seen(s, now) || k in KeysIn(find, rs)
  {
    DelEffect(f, find, s, rs, now);
    DelEffect(g, other, s, ss, now);
    MoreGone(Seen(s, now), KeysIn(find, rs), KeysIn(other, ss), more, k);
  }

  /** Two lists of answers that differ at most at the nulls. */
  lemma {:induction false} CountsDiffer(one: seq<Option<Answer>>, many: seq<Option<Answer>>, rs: seq<Request>, extra: bool)
    requires |one| == |many| == |rs|
    requires forall i :: 0 <= i < |rs| ==>
      one[i].Some? && many[i].Some? && one[i].value.Yes? &&
      many[i].value == if rs[i].key.Null? then Yes(extra) else one[i].value
    requires forall i :: 0 <= i < |rs| && rs[i].key.Null? ==> one[i] == Some(Yes(false))
    ensures YesCount(many) == YesCount(one) + if extra then NullCount(rs) else 0
    decreases |rs|
  {
    if rs != [] {
      var n := |rs| - 1;
      CountsDiffer(one[..n], many[..n], rs[..n], extra);
      assert one == one[..n] + [one[n]] && many == many[..n] + [many[n]];
      YesCountMore(one[..n], one[n].value);
      YesCountMore(many[..n], many[n].value);
    }
  }

  lemma ExistsAt(s: Table, rs: seq<Request>, i: nat, now: Time)
    requires Ok(s) && Arguments(rs) && i < |rs|
    ensures AnswerTo(ExistsKey(ByClass, now), s, rs, i) == Yes(Shows(ByClass, s, rs[i], now))
    ensures AnswerTo(ExistsKey(AsIs, now), s, RebuildAll(rs), i) ==
            Yes(if rs[i].key.Null? then EMPTY in Seen(s, now) else Shows(ByClass, s, rs[i], now))
  {
    ExistsMeans(ByClass, s, rs, i, now);
    ExistsMeans(AsIs, s, RebuildAll(rs), i, now);
    FoundRebuilt(rs[i]);
  }

  /** EXISTS on several shards also counts the nulls, if the empty key can be seen. */
  lemma ExistsCounts(s: Table, rs: seq<Request>, now: Time)
    requires Ok(s) && Arguments(rs)
    ensures YesCount(AnswersOf(ExistsKey(AsIs, now), s, RebuildAll(rs))) ==
            YesCount(AnswersOf(ExistsKey(ByClass, now), s, rs)) + if EMPTY in Seen(s, now) then NullCount(rs) else 0
  {
    var one, many := AnswersOf(ExistsKey(ByClass, now), s, rs), AnswersOf(ExistsKey(AsIs, now), s, RebuildAll(rs));
    var extra := EMPTY in Seen(s, now);
    forall i | 0 <= i < |rs|
      ensures one[i] == Some(Yes(Shows(ByClass, s, rs[i], now)))
      ensures many[i] == if rs[i].key.Null? then Some(Yes(extra)) else one[i]
    {
      ExistsAt(s, rs, i, now);
    }
    CountsDiffer(one, many, rs, extra);
  }

  /** What can be seen stays the same in both branches; the counts agree exactly when no key is null or the empty key cannot be seen. */
  lemma ExistsAgrees(s: Table, rs: seq<Request>, now: Time)
    requires Ok(s) && Arguments(rs)
    ensures Seen(ServeAll(ExistsKey(ByClass, now), s, rs), now) == Seen(s, now)
    ensures Seen(ServeAll(ExistsKey(AsIs, now), s, RebuildAll(rs)), now) == Seen(s, now)
    ensures YesCount(AnswersOf(ExistsKey(ByClass, now), s, rs)) == YesCount(AnswersOf(ExistsKey(AsIs, now), s, RebuildAll(rs)))
            <==> NullCount(rs) == 0 || EMPTY !in Seen(s, now)
  {
    ExistsMeans(ByClass, s, rs, |rs|, now);
    ExistsMeans(AsIs, s, RebuildAll(rs), |rs|, now);
    assert rs[..|rs|] == rs && RebuildAll(rs)[..|rs|] == RebuildAll(rs);
    ExistsCounts(s, rs, now);
  }

  lemma MGetAt(s: Table, rs: seq<Request>, i: nat, now: Time)
    requires Ok(s) && Arguments(rs) && i < |rs|
    ensures AnswerTo(GetKey(ByClass, now), s, rs, i) == AnswerTo(GetKey(AsIs, now), s, RebuildAll(rs), i)
            <==> !rs[i].key.Null? || EMPTY !in Seen(s, now)
  {
    MGetMeans(ByClass, s, rs, i, now);
    MGetMeans(AsIs, s, RebuildAll(rs), i, now);
    FoundRebuilt(rs[i]);
  }

  /** MGET: the same values exactly when no key is null or the empty key cannot be seen. */
  lemma MGetAgrees(s: Table, rs: seq<Request>, now: Time)
    requires Ok(s) && Arguments(rs)
    ensures Seen(ServeAll(GetKey(ByClass, now), s, rs), now) == Seen(s, now)
    ensures Seen(ServeAll(GetKey(AsIs, now), s, RebuildAll(rs)), now) == Seen(s, now)
    ensures AnswersOf(GetKey(ByClass, now), s, rs) == AnswersOf(GetKey(AsIs, now), s, RebuildAll(rs))
            <==> NullCount(rs) == 0 || EMPTY !in Seen(s, now)
  {
    MGetMeans(ByClass, s, rs, |rs|, now);
    MGetMeans(AsIs, s, RebuildAll(rs), |rs|, now);
    assert rs[..|rs|] == rs && RebuildAll(rs)[..|rs|] == RebuildAll(rs);
    NullIsNamed(rs);
    var one, many := AnswersOf(GetKey(ByClass, now), s, rs), AnswersOf(GetKey(AsIs, now), s, RebuildAll(rs));
    forall i | 0 <= i < |rs| ensures one[i] == many[i] <==> !rs[i].key.Null? || EMPTY !in Seen(s, now) {
      MGetAt(s, rs, i, now);
    }
  }

  lemma {:induction false} NullValuesCount(rs: seq<Request>)
    ensures |NullValues(rs)| == NullCount(rs)
    decreases |rs|
  {
    if rs != [] { NullValuesCount(rs[..|rs| - 1]); }
  }

  /** The same keys with the same deadlines and the same texts as values. */
  ghost predicate SameTexts(m: map<Obj, Live<Obj>>, n: map<Obj, Live<Obj>>) {
    m.Keys == n.Keys &&
    forall k :: k in m && k in n ==> m[k].deadline == n[k].deadline && ToString(m[k].value) == ToString(n[k].value)
  }

  lemma {:induction false} TimesAlike(find: Finder, rs: seq<Request>, other: Finder, ss: seq<Request>, k: Obj)
    requires |rs| == |ss|
    requires forall i :: 0 <= i < |rs| ==> other(ss[i].key) == find(rs[i].key) && ToString(ss[i].value) == ToString(rs[i].value)
    ensures Times(other, ss, k) == Times(find, rs, k)
    ensures Times(find, rs, k) > 0 ==> ToString(LastValue(other, ss, k)) == ToString(LastValue(find, rs, k))
    decreases |rs|
  {
    if rs != [] { TimesAlike(find, rs[..|rs| - 1], other, ss[..|ss| - 1], k); }
  }

  /** What a shard takes an argument for. */
  function ByText(o: Obj): Option<Obj> {
    Some(if o.Null? then EMPTY else Norm(o))
  }

  lemma TimesRebuilt(rs: seq<Request>, k: Obj)
    requires Arguments(rs)
    ensures Times(AsIs, RebuildAll(rs), k) == Times(ByText, rs, k)
    ensures Times(ByText, rs, k) > 0 ==>
      ToString(LastValue(AsIs, RebuildAll(rs), k)) == ToString(LastValue(ByText, rs, k))
  {
    forall i | 0 <= i < |rs|
      ensures AsIs(RebuildAll(rs)[i].key) == ByText(rs[i].key)
      ensures ToString(RebuildAll(rs)[i].value) == ToString(rs[i].value)
    {
      FoundRebuilt(rs[i]);
      RebuiltIsKey(rs[i].value);
    }
    TimesAlike(ByText, rs, AsIs, RebuildAll(rs), k);
  }

  /** Only the empty key is meant more often by text: once more for each null. */
  lemma {:induction false} TimesByText(rs: seq<Request>, k: Obj)
    ensures Times(ByText, rs, k) == Times(ByClass, rs, k) + if k == EMPTY then NullCount(rs) else 0
    ensures k != EMPTY && Times(ByClass, rs, k) > 0 ==> LastValue(ByText, rs, k) == LastValue(ByClass, rs, k)
    ensures k == EMPTY && NullCount(rs) == 0 && Times(ByClass, rs, k) > 0 ==> LastValue(ByText, rs, k) == LastValue(ByClass, rs, k)
    decreases |rs|
  {
    if rs != [] { TimesByText(rs[..|rs| - 1], k); }
  }

  /** The same deadline and text for `k`, or no `k` in both. */
  ghost predicate SameTextAt(m: map<Obj, Live<Obj>>, n: map<Obj, Live<Obj>>, k: Obj) {
    (k in m <==> k in n) && (k in m ==> m[k].deadline == n[k].deadline && ToString(m[k].value) == ToString(n[k].value))
  }

  /** What a key shows after MSET, by how often and with what it was named. */
  ghost function MSetShows(s: Table, k: Obj, n: nat, last: Obj, now: Time): Option<Live<Obj>> {
    if n == 0 then (if k in Seen(s, now) then Some(Seen(s, now)[k]) else None)
    else if !Due(s, k, now) || n >= 2 then Some(Live(last, None))
    else None
  }

  lemma MSetView(find: Finder, s: Table, rs: seq<Request>, k: Obj, now: Time)
    ensures var m, n := Seen(ServeAll(SetPair(find, now), s, rs), now), Times(find, rs, k);
            var shows := MSetShows(s, k, n, if n > 0 then LastValue(find, rs, k) else Null, now);
            if k in m then shows == Some(m[k]) else shows == None
  {
    MSetMeans(find, s, rs, k, now);
  }

  /**
   Seen from before: the two branches will show the same for the empty key. Without a null they do. With
   one, the empty key is written on several shards: it must have been written last with the same text on
   one shard too, or have shown that text without deadline, or have been due and stay lost in both.
   */
  ghost predicate EmptyAgrees(s: Table, rs: seq<Request>, now: Time) {
    var n, m := Times(ByClass, rs, EMPTY), NullCount(rs);
    m == 0 ||
    (TimesByText(rs, EMPTY);
     var text := ToString(LastValue(ByText, rs, EMPTY));
     if n == 0 then
       if Due(s, EMPTY, now) then m == 1
       else EMPTY in s.data && EMPTY !in s.expire && ToString(s.data[EMPTY]) == text
     else (!Due(s, EMPTY, now) || n >= 2) && ToString(LastValue(ByClass, rs, EMPTY)) == text)
  }

  lemma MSetAgreesAt(s: Table, rs: seq<Request>, k: Obj, now: Time)
    requires Arguments(rs)
    ensures SameTextAt(Seen(ServeAll(SetPair(ByClass, now), s, rs), now),
                       Seen(ServeAll(SetPair(AsIs, now), s, RebuildAll(rs)), now), k)
            <==> k != EMPTY || EmptyAgrees(s, rs, now)
  {
    MSetView(ByClass, s, rs, k, now);
    MSetView(AsIs, s, RebuildAll(rs), k, now);
    TimesRebuilt(rs, k);
    TimesByText(rs, k);
  }

  /**
   MSET, if it ends: the two branches leave the same keys, deadlines and texts to be seen exactly when
   they will show the same for the empty key, and no entry that no key finds exactly when no key is null.
   */
  lemma MSetAgrees(s: Table, rs: seq<Request>, now: Time)
    requires Arguments(rs)
    ensures SameTexts(Seen(ServeAll(SetPair(ByClass, now), s, rs), now), Seen(ServeAll(SetPair(AsIs, now), s, RebuildAll(rs)), now))
            <==> EmptyAgrees(s, rs, now)
    ensures NullValues(rs) == [] <==> NullCount(rs) == 0
  {
    NullValuesCount(rs);
    var m, n := Seen(ServeAll(SetPair(ByClass, now), s, rs), now), Seen(ServeAll(SetPair(AsIs, now), s, RebuildAll(rs)), now);
    forall k ensures SameTextAt(m, n, k) <==> k != EMPTY || EmptyAgrees(s, rs, now) {
      MSetAgreesAt(s, rs, k, now);
    }
    SameButFor(m, n, EMPTY, EmptyAgrees(s, rs, now));
  }

  lemma SameButFor(m: map<Obj, Live<Obj>>, n: map<Obj, Live<Obj>>, x: Obj, same: bool)
    requires forall k {:trigger SameTextAt(m, n, k)} :: SameTextAt(m, n, k) <==> k != x || same
    ensures SameTexts(m, n) <==> same
  {
    assert SameTextAt(m, n, x) <==> same;
    if same {
      forall k ensures k in m <==> k in n { assert SameTextAt(m, n, k); }
      forall k | k in m && k in n
        ensures m[k].deadline == n[k].deadline && ToString(m[k].value) == ToString(n[k].value)
      {
        assert SameTextAt(m, n, k);
      }
    }
  }

  // ----- null keys on one shard -----

  lemma {:induction false} PickedAll(rs: seq<Request>, route: Obj -> nat)
    requires forall i :: 0 <= i < |rs| ==> route(rs[i].key) == 0
    ensures Picked(rs, route, 0) == rs
    decreases |rs|
  {
    if rs != [] {
      PickedAll(rs[..|rs| - 1], route);
      assert rs == rs[..|rs| - 1] + [rs[|rs| - 1]];
    }
  }

  /**
   On one shard a null key finds room exactly while the nulls, it included, and the keys it cannot be
   separated from are fewer than the threshold.
   */
  lemma NullStallsAt(hash: Bytes -> nat, place: Obj -> Hash64, threshold: nat, s: Table, nulls: nat, rs: seq<Request>, i: nat, now: Time)
    requires i < |rs| && rs[i].key.Null?
    ensures var f := SetPair(ByClass, now);
            CrowdedAt(f, place, threshold, [s], [nulls], Route(hash, 1), rs, i) <==>
            |Neighbours(place, ServeAll(f, s, rs[..i]), 0)| + nulls + NullCount(rs[..i]) + 1 >= threshold
  {
    PickedAll(rs[..i], Route(hash, 1));
  }

  lemma {:induction false} LastNull(rs: seq<Request>) returns (i: nat)
    requires NullCount(rs) > 0
    ensures i < |rs| && rs[i].key.Null? && NullCount(rs[..i]) + 1 == NullCount(rs)
    decreases |rs|
  {
    var last := |rs| - 1;
    if rs[last].key.Null? {
      i := last;
    } else {
      i := LastNull(rs[..last]);
      assert rs[..last][..i] == rs[..i];
    }
  }

  /** With as many nulls as the threshold MSET on one shard never ends, whatever else is stored or named. */
  lemma NullsStall(hash: Bytes -> nat, place: Obj -> Hash64, threshold: nat, s: Table, nulls: nat, rs: seq<Request>, now: Time)
    requires 0 < threshold <= NullCount(rs)
    ensures MSetStalls(hash, place, threshold, [s], [nulls], rs, now)
  {
    var i := LastNull(rs);
    NullStallsAt(hash, place, threshold, s, nulls, rs, i, now);
  }

  lemma {:induction false} NullsChangeNothing(s: Table, rs: seq<Request>, now: Time)
    requires forall i :: 0 <= i < |rs| ==> rs[i].key.Null?
    ensures ServeAll(SetPair(ByClass, now), s, rs) == s && NullCount(rs) == |rs|
    decreases |rs|
  {
    if rs != [] {
      var last := rs[|rs| - 1];
      NullsChangeNothing(s, rs[..|rs| - 1], now);
      assert last.key.Null? && SetPair(ByClass, now)(s, last).0 == s;
    }
  }

  /**
   And with nothing but nulls it ends exactly while they are fewer, the ones stored before and the keys
   that cannot be told from them counted.
   */
  lemma OnlyNullsStall(hash: Bytes -> nat, place: Obj -> Hash64, threshold: nat, s: Table, nulls: nat, rs: seq<Request>, now: Time)
    requires rs != [] && forall i :: 0 <= i < |rs| ==> rs[i].key.Null?
    ensures MSetStalls(hash, place, threshold, [s], [nulls], rs, now) <==> |Neighbours(place, s, 0)| + nulls + |rs| >= threshold
  {
    forall i | 0 <= i < |rs|
      ensures CrowdedAt(SetPair(ByClass, now), place, threshold, [s], [nulls], Route(hash, 1), rs, i) <==>
              |Neighbours(place, s, 0)| + nulls + i + 1 >= threshold
    {
      NullStallsAt(hash, place, threshold, s, nulls, rs, i, now);
      NullsChangeNothing(s, rs[..i], now);
    }
    assert CrowdedAt(SetPair(ByClass, now), place, threshold, [s], [nulls], Route(hash, 1), rs, |rs| - 1) <==>
           |Neighbours(place, s, 0)| + nulls + |rs| >= threshold;
  }

  /** DEL of a null, wherever the empty key can be seen: one shard finds nothing, several delete the empty key. */
  lemma NullDeletesTheEmptyKey(s: Table, now: Time)
    requires Ok(s) && EMPTY in Seen(s, now)
    ensures var rs := [Request(0, Null, Null)];
            Arguments(rs) &&
            YesCount(AnswersOf(DelKey(ByClass, now), s, rs)) == 0 &&
            YesCount(AnswersOf(DelKey(AsIs, now), s, RebuildAll(rs))) == 1 &&
            EMPTY !in Seen(ServeAll(DelKey(AsIs, now), s, RebuildAll(rs)), now)
  {
    var rs := [Request(0, Null, Null)];
    assert rs[..0] == [];
    assert KeysIn(ByClass, rs) == {} && NullCount(rs) == 1;
    KeysRebuilt(rs);
    DelKeyDeletes(ByClass, now);
    DelKeyDeletes(AsIs, now);
    DeletesThese(DelKey(ByClass, now), ByClass, s, rs, now, {});
    DeletesThese(DelKey(AsIs, now), AsIs, s, RebuildAll(rs), now, {EMPTY});
  }

  lemma DeletesThese(f: Handler, find: Finder, s: Table, rs: seq<Request>, now: Time, keys: set<Obj>)
    requires Ok(s) && Deletes(f, find, now) && KeysIn(find, rs) == keys <= Seen(s, now).Keys
    ensures YesCount(AnswersOf(f, s, rs)) == |keys|
    ensures forall k :: k in keys ==> k !in Seen(ServeAll(f, s, rs), now)
  {
    DelLeaves(f, find, s, rs, now);
    DelCounts(f, find, s, rs, now);
    assert Seen(s, now).Keys * keys == keys;
  }

  /** There is such a table. */
  lemma EmptyKeyCanBeSeen(now: Time)
    ensures var s: Table := Store(map[EMPTY := Int(1)], map[]); Ok(s) && EMPTY in Seen(s, now)
  {
  }
}
