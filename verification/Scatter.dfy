/**
 A command with several keys over several shards: the requests are grouped by shard and the groups
 visited in any order. A shard is the pair of tables of its selected database.
 */
module Scatter {
  import opened Options
  import opened Powers
  import opened Decimal
  import opened NanoObj
  import opened Expiry

  /** One key of a command, or one pair of MSET, and where it stands in the command. */
  datatype Request = Request(index: nat, key: Obj, value: Obj)

  type Table = Store<Obj, Obj>
  type Answer = Reply<Obj, Obj>

  /** What a shard does for one request. */
  type Handler = (Table, Request) -> (Table, Answer)

  /** The table after serving all requests in turn: the single-shard branch. */
  ghost function ServeAll(f: Handler, s: Table, rs: seq<Request>): Table {
    if rs == [] then s else f(ServeAll(f, s, rs[..|rs| - 1]), rs[|rs| - 1]).0
  }

  /** The answer to request `i`. */
  ghost function AnswerTo(f: Handler, s: Table, rs: seq<Request>, i: nat): Answer
    requires i < |rs|
  {
    f(ServeAll(f, s, rs[..i]), rs[i]).1
  }

  /** All answers of the single-shard branch. */
  ghost function AnswersOf(f: Handler, s: Table, rs: seq<Request>): (answers: seq<Option<Answer>>)
    ensures |answers| == |rs| && forall i :: 0 <= i < |rs| ==> answers[i] == Some(AnswerTo(f, s, rs, i))
  {
    seq(|rs|, i requires 0 <= i < |rs| => Some(AnswerTo(f, s, rs, i)))
  }

  // ----- a request sees and changes its own key only -----

  ghost predicate SameAt(s: Table, t: Table, k: Obj) {
    && (k in s.data <==> k in t.data) && (k in s.data ==> s.data[k] == t.data[k])
    && (k in s.expire <==> k in t.expire) && (k in s.expire ==> s.expire[k] == t.expire[k])
  }

  ghost predicate Elsewhere(f: Handler, s: Table, r: Request, k: Obj) {
    k != r.key ==> SameAt(s, f(s, r).0, k)
  }

  ghost predicate Alike(f: Handler, s: Table, t: Table, r: Request) {
    SameAt(s, t, r.key) ==> f(s, r).1 == f(t, r).1 && SameAt(f(s, r).0, f(t, r).0, r.key)
  }

  ghost predicate Local(f: Handler) {
    (forall s, r, k :: Elsewhere(f, s, r, k)) && (forall s, t, r :: Alike(f, s, t, r))
  }

  // ----- one shard's part of the whole -----

  /** `part` is what `whole` has for the keys of shard `j`, and nothing else. */
  ghost predicate IsPart(whole: Table, part: Table, route: Obj -> nat, j: nat) {
    && (forall k {:trigger SameAt(whole, part, k)} :: route(k) == j ==> SameAt(whole, part, k))
    && (forall k :: k in part.data || k in part.expire ==> route(k) == j)
  }

  lemma ServePart(f: Handler, whole: Table, part: Table, route: Obj -> nat, j: nat, r: Request)
    requires Local(f) && IsPart(whole, part, route, j)
    ensures if route(r.key) == j
            then IsPart(f(whole, r).0, f(part, r).0, route, j) && f(whole, r).1 == f(part, r).1
            else IsPart(f(whole, r).0, part, route, j)
  {
    var after, mine := f(whole, r).0, if route(r.key) == j then f(part, r).0 else part;
    forall k | route(k) == j ensures SameAt(after, mine, k) {
      assert SameAt(whole, part, k);
      if k == r.key {
        assert Alike(f, whole, part, r);
      } else {
        assert Elsewhere(f, whole, r, k) && Elsewhere(f, part, r, k);
      }
    }
    if route(r.key) == j {
      assert SameAt(whole, part, r.key) && Alike(f, whole, part, r);
      forall k | k in mine.data || k in mine.expire ensures route(k) == j {
        if k != r.key { assert Elsewhere(f, part, r, k); }
      }
    }
  }

  /** The requests for shard `j`, in their order. */
  ghost function Picked(rs: seq<Request>, route: Obj -> nat, j: nat): seq<Request> {
    if rs == [] then []
    else
      var last := rs[|rs| - 1];
      Picked(rs[..|rs| - 1], route, j) + if route(last.key) == j then [last] else []
  }

  /** Serving its own requests keeps a shard the right part of the whole. */
  lemma {:induction false} PartFollows(f: Handler, whole: Table, part: Table, route: Obj -> nat, j: nat, rs: seq<Request>)
    requires Local(f) && IsPart(whole, part, route, j)
    ensures IsPart(ServeAll(f, whole, rs), ServeAll(f, part, Picked(rs, route, j)), route, j)
    decreases |rs|
  {
    if rs != [] {
      var front, last := rs[..|rs| - 1], rs[|rs| - 1];
      PartFollows(f, whole, part, route, j, front);
      var mine := Picked(front, route, j);
      ServePart(f, ServeAll(f, whole, front), ServeAll(f, part, mine), route, j, last);
      if route(last.key) == j {
        assert (mine + [last])[..|mine + [last]| - 1] == mine;
      } else {
        assert mine + [] == mine;
      }
    }
  }

  /** Request `a` of a shard's group comes after exactly the earlier requests of the group. */
  lemma {:induction false} PickedAt(rs: seq<Request>, route: Obj -> nat, j: nat, a: nat)
    requires a < |Picked(rs, route, j)| && forall i :: 0 <= i < |rs| ==> rs[i].index == i
    ensures var r := Picked(rs, route, j)[a];
            r.index < |rs| && r == rs[r.index] && route(r.key) == j &&
            Picked(rs[..r.index], route, j) == Picked(rs, route, j)[..a]
    decreases |rs|
  {
    var front, last := rs[..|rs| - 1], rs[|rs| - 1];
    var mine := Picked(front, route, j);
    if a < |mine| {
      PickedAt(front, route, j, a);
      var r := mine[a];
      assert rs[..r.index] == front[..r.index];
    }
  }

  /** The answer given on the shard is the one the single-shard branch gives. */
  lemma ShardAnswers(f: Handler, whole: Table, part: Table, route: Obj -> nat, j: nat, rs: seq<Request>, a: nat)
    requires Local(f) && IsPart(whole, part, route, j)
    requires a < |Picked(rs, route, j)| && forall i :: 0 <= i < |rs| ==> rs[i].index == i
    ensures var r := Picked(rs, route, j)[a];
            r.index < |rs| &&
            AnswerTo(f, part, Picked(rs, route, j), a) == AnswerTo(f, whole, rs, r.index)
  {
    PickedAt(rs, route, j, a);
    var r := Picked(rs, route, j)[a];
    PartFollows(f, whole, part, route, j, rs[..r.index]);
    ServePart(f, ServeAll(f, whole, rs[..r.index]),
      ServeAll(f, part, Picked(rs[..r.index], route, j)), route, j, r);
  }

  /** Every request for the shard is in its group, behind the earlier ones. */
  lemma {:induction false} PickedHas(rs: seq<Request>, route: Obj -> nat, i: nat)
    requires i < |rs|
    ensures var j := route(rs[i].key);
            |Picked(rs[..i], route, j)| < |Picked(rs, route, j)| &&
            Picked(rs, route, j)[|Picked(rs[..i], route, j)|] == rs[i]
    decreases |rs|
  {
    var front := rs[..|rs| - 1];
    if i < |front| {
      PickedHas(front, route, i);
      assert front[..i] == rs[..i];
    }
  }

  /** Requests of the same group have different positions. */
  lemma PickedDistinct(rs: seq<Request>, route: Obj -> nat, j: nat, a: nat, b: nat)
    requires a < b < |Picked(rs, route, j)| && forall i :: 0 <= i < |rs| ==> rs[i].index == i
    ensures Picked(rs, route, j)[a].index != Picked(rs, route, j)[b].index
  {
    PickedAt(rs, route, j, a);
    PickedAt(rs, route, j, b);
  }

  // ----- answers as they come in -----

  ghost function YesCount(answers: seq<Option<Answer>>): nat {
    if answers == [] then 0 else (if answers[0] == Some(Yes(true)) then 1 else 0) + YesCount(answers[1..])
  }

  lemma {:induction false} YesCountUpdate(answers: seq<Option<Answer>>, i: nat, x: Answer)
    requires i < |answers| && answers[i] == None
    ensures YesCount(answers[i := Some(x)]) == YesCount(answers) + if x == Yes(true) then 1 else 0
  {
    if i == 0 {
      assert answers[0 := Some(x)][1..] == answers[1..];
    } else {
      assert answers[i := Some(x)][1..] == answers[1..][i - 1 := Some(x)];
      YesCountUpdate(answers[1..], i - 1, x);
    }
  }

  // ----- the commands -----

  /** A request as it travels to its shard: keys and values as text. */
  datatype Message = Message(index: nat, key: Bytes, value: Bytes)

  function ToMessage(r: Request): Message {
    Message(r.index, ToString(r.key), ToString(r.value))
  }

  ghost predicate IsMessages(ms: seq<Message>, rs: seq<Request>) {
    |ms| == |rs| && forall i :: 0 <= i < |ms| ==> ms[i] == ToMessage(rs[i])
  }

  /** `Shard`: any hash of the text, reduced to the number of shards. */
  function Shard(hash: Bytes -> nat, key: Bytes, shards: nat): (j: nat)
    ensures shards > 0 ==> j < shards
  {
    if shards <= 1 then 0 else hash(key) % shards
  }

  function Route(hash: Bytes -> nat, shards: nat): Obj -> nat {
    (k: Obj) => Shard(hash, ToString(k), shards)
  }

  /** Requests for any objects, nulls among them, numbered by their place in the command. */
  ghost predicate RequestsOk(rs: seq<Request>) {
    forall i :: 0 <= i < |rs| ==> rs[i].index == i && ObjOk(rs[i].key) && ObjOk(rs[i].value)
  }

  ghost function Rebuild(r: Request): Request {
    Request(r.index, Rebuilt(r.key), Rebuilt(r.value))
  }

  function Each(g: Request -> Request, rs: seq<Request>): (r: seq<Request>)
    ensures |r| == |rs| && forall i :: 0 <= i < |r| ==> r[i] == g(rs[i])
  {
    seq(|rs|, i requires 0 <= i < |rs| => g(rs[i]))
  }

  /** The requests as the shards see them. */
  ghost function RebuildAll(rs: seq<Request>): (r: seq<Request>)
    ensures |r| == |rs| && forall i :: 0 <= i < |r| ==> r[i] == Rebuild(rs[i])
  {
    Each(Rebuild, rs)
  }

  ghost predicate Canonical(rs: seq<Request>) {
    forall i :: 0 <= i < |rs| ==> rs[i].index == i && IsKey(rs[i].key) && IsKey(rs[i].value)
  }

  lemma RebuildIsCanonical(rs: seq<Request>)
    requires RequestsOk(rs)
    ensures Canonical(RebuildAll(rs))
  {
    forall i | 0 <= i < |rs| ensures IsKey(Rebuilt(rs[i].key)) && IsKey(Rebuilt(rs[i].value)) {
      RebuiltIsKey(rs[i].key);
      RebuiltIsKey(rs[i].value);
    }
  }

  lemma RebuildKeepsMessage(r: Request)
    requires ObjOk(r.key) && ObjOk(r.value)
    ensures ToMessage(Rebuild(r)) == ToMessage(r)
  {
    RebuiltIsKey(r.key);
    RebuiltIsKey(r.value);
  }

  lemma EachMore(g: Request -> Request, rs: seq<Request>, r: Request)
    ensures Each(g, rs + [r]) == Each(g, rs) + [g(r)] && Each(g, rs + []) == Each(g, rs)
  {
    assert rs + [] == rs;
  }

  /** Groups follow a change of the requests that does not change their shards. */
  lemma {:induction false} PickedEach(g: Request -> Request, rs: seq<Request>, route: Obj -> nat, j: nat)
    requires forall i :: 0 <= i < |rs| ==> route(g(rs[i]).key) == route(rs[i].key)
    ensures Picked(Each(g, rs), route, j) == Each(g, Picked(rs, route, j))
    decreases |rs|
  {
    if rs != [] {
      var front, last := rs[..|rs| - 1], rs[|rs| - 1];
      PickedEach(g, front, route, j);
      assert rs == front + [last];
      EachMore(g, front, last);
      assert Each(g, rs)[..|rs| - 1] == Each(g, front);
      EachMore(g, Picked(front, route, j), last);
    }
  }

  lemma {:induction false} PickedFits(rs: seq<Request>, route: Obj -> nat, j: nat)
    requires forall i :: 0 <= i < |rs| ==> ObjOk(rs[i].key) && ObjOk(rs[i].value)
    ensures forall i :: 0 <= i < |Picked(rs, route, j)| ==>
      ObjOk(Picked(rs, route, j)[i].key) && ObjOk(Picked(rs, route, j)[i].value)
    decreases |rs|
  {
    if rs != [] { PickedFits(rs[..|rs| - 1], route, j); }
  }

  ghost predicate IsGroup(groups: map<nat, seq<Message>>, rs: seq<Request>, route: Obj -> nat, j: nat) {
    if j in groups then IsMessages(groups[j], Picked(rs, route, j)) else Picked(rs, route, j) == []
  }

  lemma GroupsMore(groups: map<nat, seq<Message>>, rs: seq<Request>, r: Request, route: Obj -> nat, j: nat)
    requires IsGroup(groups, rs, route, j)
    ensures var home := route(r.key);
            IsGroup(groups[home := (if home in groups then groups[home] else []) + [ToMessage(r)]], rs + [r], route, j)
  {
    assert (rs + [r])[..|rs|] == rs;
  }

  method GroupByShard(rs: seq<Request>, hash: Bytes -> nat, shards: nat) returns (groups: map<nat, seq<Message>>)
    requires shards > 0
    ensures forall j :: IsGroup(groups, rs, Route(hash, shards), j)
    ensures forall j :: j in groups ==> j < shards
  {
    groups := map[];
    ghost var route, sent := Route(hash, shards), [];
    for i := 0 to |rs|
      invariant forall j :: j in groups ==> j < shards
      invariant sent == rs[..i] && forall j :: IsGroup(groups, sent, route, j)
    {
      var m := ToMessage(rs[i]);
      var home := Shard(hash, m.key, shards);
      var next := groups[home := (if home in groups then groups[home] else []) + [m]];
      ghost var more := sent + [rs[i]];
      forall j ensures IsGroup(next, more, route, j) {
        GroupsMore(groups, sent, rs[i], route, j);
      }
      groups, sent := next, more;
    }
    assert rs[..|rs|] == rs;
  }

  lemma GroupsRebuilt(groups: map<nat, seq<Message>>, rs: seq<Request>, hash: Bytes -> nat, shards: nat, j: nat)
    requires RequestsOk(rs) && IsGroup(groups, rs, Route(hash, shards), j)
    ensures IsGroup(groups, RebuildAll(rs), Route(hash, shards), j)
  {
    var route := Route(hash, shards);
    forall i | 0 <= i < |rs| ensures route(Rebuild(rs[i]).key) == route(rs[i].key) {
      RebuiltIsKey(rs[i].key);
    }
    PickedEach(Rebuild, rs, route, j);
    PickedFits(rs, route, j);
    var picked := Picked(rs, route, j);
    forall i | 0 <= i < |picked| ensures ToMessage(Rebuild(picked[i])) == ToMessage(picked[i]) {
      RebuildKeepsMessage(picked[i]);
    }
  }

  /** The shards hold, each for its own keys, what `whole` holds. */
  ghost predicate AreParts(whole: Table, shards: seq<Table>, hash: Bytes -> nat) {
    forall j :: 0 <= j < |shards| ==> IsPart(whole, shards[j], Route(hash, |shards|), j)
  }

  /** Position `i` has its answer unless its shard is still to be visited. */
  ghost predicate AnsweredExcept(f: Handler, whole: Table, rs: seq<Request>, route: Obj -> nat,
                                 answers: seq<Option<Answer>>, todo: set<nat>) {
    |answers| == |rs| &&
    forall i :: 0 <= i < |rs| ==>
      answers[i] == if route(rs[i].key) in todo then None else Some(AnswerTo(f, whole, rs, i))
  }

  /** Place `i` belongs to none of the first `n` requests. */
  ghost predicate Unfiled(picked: seq<Request>, n: nat, i: nat)
    requires n <= |picked|
  {
    forall b :: 0 <= b < n ==> picked[b].index != i
  }

  /** The first `n` replies to a group have been filed, the rest of `answers` is as before. */
  ghost predicate Filed(picked: seq<Request>, replies: seq<Option<Answer>>, n: nat,
                        before: seq<Option<Answer>>, answers: seq<Option<Answer>>)
    requires n <= |picked| == |replies|
  {
    |answers| == |before| &&
    (forall b :: 0 <= b < n && picked[b].index < |answers| ==> answers[picked[b].index] == replies[b]) &&
    (forall i {:trigger Unfiled(picked, n, i)} :: 0 <= i < |answers| && Unfiled(picked, n, i) ==> answers[i] == before[i])
  }

  lemma GroupDone(f: Handler, whole: Table, part: Table, rs: seq<Request>, route: Obj -> nat, j: nat,
                  before: seq<Option<Answer>>, answers: seq<Option<Answer>>, todo: set<nat>)
    requires Local(f) && IsPart(whole, part, route, j) && Canonical(rs) && j in todo
    requires AnsweredExcept(f, whole, rs, route, before, todo)
    requires var picked := Picked(rs, route, j);
             Filed(picked, AnswersOf(f, part, picked), |picked|, before, answers)
    ensures AnsweredExcept(f, whole, rs, route, answers, todo - {j})
  {
    var picked := Picked(rs, route, j);
    forall i | 0 <= i < |rs|
      ensures answers[i] == if route(rs[i].key) in todo - {j} then None else Some(AnswerTo(f, whole, rs, i))
    {
      if route(rs[i].key) == j {
        var b := |Picked(rs[..i], route, j)|;
        PickedHas(rs, route, i);
        ShardAnswers(f, whole, part, route, j, rs, b);
      } else {
        forall b | 0 <= b < |picked| ensures picked[b].index != i {
          PickedAt(rs, route, j, b);
        }
        assert Unfiled(picked, |picked|, i);
      }
    }
  }

  /** The group can be served: rebuildable keys, and an empty place of its own for each answer. */
  ghost predicate GroupOk(picked: seq<Request>, before: seq<Option<Answer>>) {
    (forall b :: 0 <= b < |picked| ==>
      IsKey(picked[b].key) && IsKey(picked[b].value) && picked[b].index < |before| && before[picked[b].index] == None) &&
    (forall a, b :: 0 <= a < b < |picked| ==> picked[a].index != picked[b].index)
  }

  /** Filing one more reply leaves the filed ones in place. */
  lemma FiledStay(picked: seq<Request>, replies: seq<Option<Answer>>, n: nat, answers: seq<Option<Answer>>, b: nat)
    requires b <= n < |picked| == |replies| && picked[b].index < |answers| && picked[n].index < |answers|
    requires b < n ==> answers[picked[b].index] == replies[b] && picked[b].index != picked[n].index
    ensures answers[picked[n].index := replies[n]][picked[b].index] == replies[b]
  {
  }

  /** A place that no filed request has is as before. */
  lemma OthersStay(picked: seq<Request>, replies: seq<Option<Answer>>, n: nat,
                   before: seq<Option<Answer>>, answers: seq<Option<Answer>>, i: nat)
    requires n < |picked| == |replies| && Filed(picked, replies, n, before, answers) && i < |answers|
    requires picked[n].index < |answers| && Unfiled(picked, n + 1, i)
    ensures answers[picked[n].index := replies[n]][i] == before[i]
  {
    assert picked[n].index != i && Unfiled(picked, n, i);
  }

  lemma NextIsEmpty(picked: seq<Request>, replies: seq<Option<Answer>>, n: nat,
                    before: seq<Option<Answer>>, answers: seq<Option<Answer>>)
    requires n < |picked| == |replies| && GroupOk(picked, before) && Filed(picked, replies, n, before, answers)
    ensures picked[n].index < |answers| && answers[picked[n].index] == None
  {
    assert Unfiled(picked, n, picked[n].index);
  }

  lemma FileNext(picked: seq<Request>, replies: seq<Option<Answer>>, n: nat,
                 before: seq<Option<Answer>>, answers: seq<Option<Answer>>)
    requires n < |picked| == |replies| && GroupOk(picked, before) && Filed(picked, replies, n, before, answers)
    ensures picked[n].index < |answers| && answers[picked[n].index] == None
    ensures Filed(picked, replies, n + 1, before, answers[picked[n].index := replies[n]])
  {
    NextIsEmpty(picked, replies, n, before, answers);
    var next := answers[picked[n].index := replies[n]];
    forall b | 0 <= b < n + 1 && picked[b].index < |next| ensures next[picked[b].index] == replies[b] {
      FiledStay(picked, replies, n, answers, b);
    }
    forall i | 0 <= i < |next| && Unfiled(picked, n + 1, i) ensures next[i] == before[i] {
      OthersStay(picked, replies, n, before, answers, i);
    }
  }

  /** A message turned back into the request it was made from. */
  method Receive(m: Message, ghost sent: Request) returns (r: Request)
    requires m == ToMessage(sent) && IsKey(sent.key) && IsKey(sent.value)
    ensures r == sent
  {
    KeyFromText(sent.key);
    KeyFromText(sent.value);
    var key := SetStringKey(m.key);
    var value := SetStringKey(m.value);
    return Request(m.index, key, value);
  }

  /** The requests as their shards rebuild them. */
  method ReceiveAll(rs: seq<Request>) returns (sent: seq<Request>)
    requires RequestsOk(rs)
    ensures sent == RebuildAll(rs)
  {
    sent := [];
    for i := 0 to |rs|
      invariant |sent| == i && forall k :: 0 <= k < i ==> sent[k] == Rebuild(rs[k])
    {
      var r := ReceiveOne(rs[i]);
      sent := sent + [r];
    }
    SameEach(sent, RebuildAll(rs));
  }

  lemma SameEach<T>(a: seq<T>, b: seq<T>)
    requires |a| == |b| && forall i :: 0 <= i < |a| ==> a[i] == b[i]
    ensures a == b
  {
  }

  method ReceiveOne(r: Request) returns (sent: Request)
    requires ObjOk(r.key) && ObjOk(r.value)
    ensures sent == Rebuild(r)
  {
    RebuildKeepsMessage(r);
    RebuiltIsKey(r.key);
    RebuiltIsKey(r.value);
    sent := Receive(ToMessage(r), Rebuild(r));
  }

  /** The next request: what it makes of the table, and where its answer is. */
  lemma ServeNext(f: Handler, part: Table, picked: seq<Request>, a: nat, served: Table)
    requires a < |picked| && served == ServeAll(f, part, picked[..a])
    ensures f(served, picked[a]).0 == ServeAll(f, part, picked[..a + 1])
    ensures AnswersOf(f, part, picked)[a] == Some(f(served, picked[a]).1)
  {
    assert picked[..a + 1][..a] == picked[..a];
  }

  /** What runs on one shard: its requests in their order. */
  method ServeGroup(f: Handler, part: Table, group: seq<Message>, ghost picked: seq<Request>, before: seq<Option<Answer>>)
    returns (served: Table, answers: seq<Option<Answer>>, yes: nat)
    requires IsMessages(group, picked) && GroupOk(picked, before)
    ensures served == ServeAll(f, part, picked)
    ensures Filed(picked, AnswersOf(f, part, picked), |picked|, before, answers)
    ensures YesCount(answers) == YesCount(before) + yes
  {
    served, answers, yes := part, before, 0;
    ghost var replies := AnswersOf(f, part, picked);
    for a := 0 to |group|
      invariant served == ServeAll(f, part, picked[..a])
      invariant Filed(picked, replies, a, before, answers)
      invariant YesCount(answers) == YesCount(before) + yes
    {
      var r := Receive(group[a], picked[a]);
      FileNext(picked, replies, a, before, answers);
      ServeNext(f, part, picked, a, served);
      var step := f(served, r);
      YesCountUpdate(answers, r.index, step.1);
      answers := answers[r.index := Some(step.1)];
      if step.1 == Yes(true) {
        yes := yes + 1;
      }
      served := step.0;
    }
    assert picked[..|group|] == picked;
  }

  /** The shards whose group has been served are past it, the others untouched. */
  ghost predicate ServedExcept(f: Handler, rs: seq<Request>, route: Obj -> nat,
                               before: seq<Table>, shards: seq<Table>, todo: set<nat>) {
    |shards| == |before| &&
    forall j :: 0 <= j < |shards| ==>
      shards[j] == if j in todo then before[j] else ServeAll(f, before[j], Picked(rs, route, j))
  }

  lemma GroupFits(f: Handler, whole: Table, rs: seq<Request>, route: Obj -> nat, j: nat,
                  answers: seq<Option<Answer>>, todo: set<nat>)
    requires Canonical(rs) && j in todo && AnsweredExcept(f, whole, rs, route, answers, todo)
    ensures GroupOk(Picked(rs, route, j), answers)
  {
    var picked := Picked(rs, route, j);
    forall b | 0 <= b < |picked|
      ensures IsKey(picked[b].key) && IsKey(picked[b].value) && picked[b].index < |answers| && answers[picked[b].index] == None
    {
      PickedAt(rs, route, j, b);
    }
    forall a, b | 0 <= a < b < |picked| ensures picked[a].index != picked[b].index {
      PickedDistinct(rs, route, j, a, b);
    }
  }

  lemma NothingAnswered(f: Handler, whole: Table, rs: seq<Request>, route: Obj -> nat, groups: map<nat, seq<Message>>)
    requires forall j :: IsGroup(groups, rs, route, j)
    ensures AnsweredExcept(f, whole, rs, route, seq(|rs|, _ => None), groups.Keys)
    ensures YesCount(seq(|rs|, _ => None)) == 0
  {
    forall i | 0 <= i < |rs| ensures route(rs[i].key) in groups {
      PickedHas(rs, route, i);
      assert IsGroup(groups, rs, route, route(rs[i].key));
    }
    NoneCountsNothing(|rs|);
  }

  lemma {:induction false} NoneCountsNothing(n: nat)
    ensures YesCount(seq(n, _ => None)) == 0
  {
    if n > 0 {
      NoneCountsNothing(n - 1);
      assert seq<Option<Answer>>(n, _ => None)[1..] == seq<Option<Answer>>(n - 1, _ => None);
    }
  }

  lemma UntouchedShards(f: Handler, rs: seq<Request>, route: Obj -> nat, shards: seq<Table>, groups: map<nat, seq<Message>>)
    requires forall j :: IsGroup(groups, rs, route, j)
    ensures ServedExcept(f, rs, route, shards, shards, groups.Keys)
  {
    forall j | 0 <= j < |shards| && j !in groups ensures shards[j] == ServeAll(f, shards[j], Picked(rs, route, j)) {
      assert IsGroup(groups, rs, route, j);
    }
  }

  lemma PartsAfter(f: Handler, whole: Table, rs: seq<Request>, hash: Bytes -> nat, before: seq<Table>, shards: seq<Table>)
    requires Local(f) && AreParts(whole, before, hash) && ServedExcept(f, rs, Route(hash, |before|), before, shards, {})
    ensures AreParts(ServeAll(f, whole, rs), shards, hash)
  {
    forall j | 0 <= j < |shards|
      ensures IsPart(ServeAll(f, whole, rs), shards[j], Route(hash, |shards|), j)
    {
      PartFollows(f, whole, before[j], Route(hash, |before|), j, rs);
    }
  }

  lemma AllAnswered(f: Handler, whole: Table, rs: seq<Request>, route: Obj -> nat, answers: seq<Option<Answer>>)
    requires AnsweredExcept(f, whole, rs, route, answers, {})
    ensures answers == AnswersOf(f, whole, rs)
  {
  }

  /** The only shard holds everything. */
  lemma OneShardIsAll(whole: Table, part: Table, hash: Bytes -> nat)
    requires IsPart(whole, part, Route(hash, 1), 0)
    ensures whole == part
  {
    assert whole.data == part.data by {
      forall k ensures (k in whole.data <==> k in part.data) && (k in whole.data ==> whole.data[k] == part.data[k]) {
        assert SameAt(whole, part, k);
      }
    }
    assert whole.expire == part.expire by {
      forall k ensures (k in whole.expire <==> k in part.expire) && (k in whole.expire ==> whole.expire[k] == part.expire[k]) {
        assert SameAt(whole, part, k);
      }
    }
  }

  lemma AllIsOneShard(whole: Table, hash: Bytes -> nat)
    ensures AreParts(whole, [whole], hash)
  {
  }

  lemma {:induction false} YesCountMore(answers: seq<Option<Answer>>, x: Answer)
    ensures YesCount(answers + [Some(x)]) == YesCount(answers) + if x == Yes(true) then 1 else 0
  {
    if answers != [] {
      assert (answers + [Some(x)])[1..] == answers[1..] + [Some(x)];
      YesCountMore(answers[1..], x);
    }
  }

  /** The loop of the single-shard branch. */
  method ServeInTurn(f: Handler, part: Table, rs: seq<Request>)
    returns (served: Table, answers: seq<Option<Answer>>, yes: nat)
    ensures served == ServeAll(f, part, rs) && answers == AnswersOf(f, part, rs)
    ensures yes == YesCount(answers)
  {
    served, answers, yes := part, [], 0;
    for i := 0 to |rs|
      invariant served == ServeAll(f, part, rs[..i]) && yes == YesCount(answers)
      invariant |answers| == i && forall k :: 0 <= k < i ==> answers[k] == Some(AnswerTo(f, part, rs, k))
    {
      var step := f(served, rs[i]);
      YesCountMore(answers, step.1);
      answers := answers + [Some(step.1)];
      if step.1 == Yes(true) {
        yes := yes + 1;
      }
      assert rs[..i + 1][..i] == rs[..i];
      served := step.0;
    }
    assert rs[..|rs|] == rs;
  }

  /** One visit: the group's shard moves past it and its answers are filed. */
  method VisitGroup(f: Handler, ghost rs: seq<Request>, j: nat, group: seq<Message>, served: seq<Table>, answers: seq<Option<Answer>>,
                    ghost shards: seq<Table>, ghost whole: Table, ghost route: Obj -> nat, ghost todo: set<nat>)
    returns (served': seq<Table>, answers': seq<Option<Answer>>, yes: nat)
    requires Local(f) && Canonical(rs) && j in todo && j < |shards| && IsPart(whole, shards[j], route, j)
    requires IsMessages(group, Picked(rs, route, j))
    requires ServedExcept(f, rs, route, shards, served, todo) && AnsweredExcept(f, whole, rs, route, answers, todo)
    ensures ServedExcept(f, rs, route, shards, served', todo - {j})
    ensures AnsweredExcept(f, whole, rs, route, answers', todo - {j}) && YesCount(answers') == YesCount(answers) + yes
  {
    GroupFits(f, whole, rs, route, j, answers, todo);
    var part;
    part, answers', yes := ServeGroup(f, served[j], group, Picked(rs, route, j), answers);
    GroupDone(f, whole, shards[j], rs, route, j, answers, answers', todo);
    served' := served[j := part];
  }

  /** The groups are visited in any order. */
  method VisitGroups(f: Handler, count: nat, groups: map<nat, seq<Message>>, shards: seq<Table>,
                     ghost rs: seq<Request>, ghost whole: Table, ghost route: Obj -> nat)
    returns (served: seq<Table>, answers: seq<Option<Answer>>, yes: nat)
    requires Local(f) && Canonical(rs) && count == |rs|
    requires forall j :: 0 <= j < |shards| ==> IsPart(whole, shards[j], route, j)
    requires forall j :: IsGroup(groups, rs, route, j)
    requires forall j :: j in groups ==> j < |shards|
    ensures ServedExcept(f, rs, route, shards, served, {})
    ensures AnsweredExcept(f, whole, rs, route, answers, {}) && yes == YesCount(answers)
  {
    NothingAnswered(f, whole, rs, route, groups);
    UntouchedShards(f, rs, route, shards, groups);
    served, answers, yes := shards, seq(count, _ => None), 0;
    var todo := groups.Keys;
    while todo != {}
      invariant todo <= groups.Keys
      invariant ServedExcept(f, rs, route, shards, served, todo)
      invariant AnsweredExcept(f, whole, rs, route, answers, todo) && yes == YesCount(answers)
      decreases |todo|
    {
      var j :| j in todo;
      assert IsGroup(groups, rs, route, j);
      var n;
      served, answers, n := VisitGroup(f, rs, j, groups[j], served, answers, shards, whole, route, todo);
      yes, todo := yes + n, todo - {j};
    }
  }

  lemma AnswersOfFront(f: Handler, s: Table, rs: seq<Request>)
    requires rs != []
    ensures var front := rs[..|rs| - 1];
            AnswersOf(f, s, rs) == AnswersOf(f, s, front) + [Some(AnswerTo(f, s, rs, |rs| - 1))]
  {
    var front := rs[..|rs| - 1];
    forall i | 0 <= i < |front| ensures AnswerTo(f, s, rs, i) == AnswerTo(f, s, front, i) {
      assert rs[..i] == front[..i];
    }
  }

  /** What a command leaves of `whole` on `n` shards: one shard serves the requests as they are, several rebuild them. */
  ghost function TableAfter(one: Handler, f: Handler, n: nat, whole: Table, rs: seq<Request>): Table {
    if n == 1 then ServeAll(one, whole, rs) else ServeAll(f, whole, RebuildAll(rs))
  }

  ghost function AnswersFrom(one: Handler, f: Handler, n: nat, whole: Table, rs: seq<Request>): seq<Option<Answer>> {
    if n == 1 then AnswersOf(one, whole, rs) else AnswersOf(f, whole, RebuildAll(rs))
  }

  class ShardSet {
    /** Of a key's text, to select the shard. */
    const hash: Bytes -> nat
    /** Of a key, to select the segment within the shard, and the size at which a segment is split. */
    const place: Obj -> Hash64
    const threshold: nat
    var shards: seq<Table>
    /** For each shard the values stored under a null key, which no lookup finds again. */
    var nulls: seq<seq<Obj>>

    constructor (hash: Bytes -> nat, place: Obj -> Hash64, threshold: nat, shards: nat)
      requires shards > 0
      ensures this.hash == hash && this.place == place && this.threshold == threshold
      ensures |this.shards| == shards && AreParts(Store(map[], map[]), this.shards, hash)
      ensures nulls == seq(shards, _ => [])
    {
      this.hash, this.place, this.threshold := hash, place, threshold;
      this.shards, nulls := seq(shards, _ => Store(map[], map[])), seq(shards, _ => []);
    }

    /** The sharded branch: what one shard holding everything would do for the rebuilt requests. */
    method Sharded(f: Handler, rs: seq<Request>, ghost whole: Table)
      returns (answers: seq<Option<Answer>>, yes: nat)
      requires Local(f) && RequestsOk(rs) && |shards| > 0 && AreParts(whole, shards, hash)
      modifies this`shards
      ensures AreParts(ServeAll(f, whole, RebuildAll(rs)), shards, hash) && |shards| == |old(shards)|
      ensures answers == AnswersOf(f, whole, RebuildAll(rs)) && yes == YesCount(answers)
    {
      var groups := GroupByShard(rs, hash, |shards|);
      ghost var sent, n := RebuildAll(rs), |shards|;
      RebuildIsCanonical(rs);
      forall j ensures IsGroup(groups, sent, Route(hash, n), j) {
        GroupsRebuilt(groups, rs, hash, n, j);
      }
      var served;
      served, answers, yes := VisitGroups(f, |rs|, groups, shards, sent, whole, Route(hash, |shards|));
      PartsAfter(f, whole, sent, hash, shards, served);
      AllAnswered(f, whole, sent, Route(hash, |shards|), answers);
      shards := served;
    }

    /** The single-shard branch: the requests as they are. */
    method Single(one: Handler, rs: seq<Request>, ghost whole: Table)
      returns (answers: seq<Option<Answer>>, yes: nat)
      requires |shards| == 1 && AreParts(whole, shards, hash)
      modifies this`shards
      ensures AreParts(ServeAll(one, whole, rs), shards, hash) && |shards| == 1
      ensures answers == AnswersOf(one, whole, rs) && yes == YesCount(answers)
    {
      OneShardIsAll(whole, shards[0], hash);
      var served;
      served, answers, yes := ServeInTurn(one, shards[0], rs);
      AllIsOneShard(served, hash);
      shards := [served];
    }

    /** Which branch a command takes. */
    method Run(one: Handler, f: Handler, rs: seq<Request>, ghost whole: Table)
      returns (answers: seq<Option<Answer>>, yes: nat)
      requires Local(f) && RequestsOk(rs) && |shards| > 0 && AreParts(whole, shards, hash)
      modifies this`shards
      ensures |shards| == |old(shards)| && AreParts(TableAfter(one, f, |shards|, whole, rs), shards, hash)
      ensures answers == AnswersFrom(one, f, |shards|, whole, rs) && yes == YesCount(answers)
    {
      if |shards| == 1 {
        answers, yes := Single(one, rs, whole);
      } else {
        answers, yes := Sharded(f, rs, whole);
      }
    }
  }
}
