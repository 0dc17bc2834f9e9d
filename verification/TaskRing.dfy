/**
 The bounded multi-producer multi-consumer ring of `TaskQueue`: sequence-numbered
 cells, tickets claimed by compare-and-swap. Any number of threads take atomic
 steps in any order; a schedule is a sequence of (thread, action) pairs.
 */
module TaskRing {
  import opened Options
  import opened Powers

  datatype Cell<T> = Cell(sequence: nat, storage: Option<T>)

  /** Where a thread stands inside `TryEnqueue` or `TryDequeue`. */
  datatype Thread<T> =
    | Idle
    | EnqStart(task: T)                        // about to load enqueue_pos
    | EnqLoaded(task: T, pos: nat)             // about to load the cell's sequence
    | EnqSeen(task: T, pos: nat, seen: nat)    // about to compare, and swap if equal
    | EnqClaimed(task: T, pos: nat)            // owns the ticket, about to fill the cell
    | EnqWritten(pos: nat)                     // about to publish
    | DeqStart
    | DeqLoaded(pos: nat)
    | DeqSeen(pos: nat, seen: nat)
    | DeqClaimed(pos: nat)                     // owns the ticket, about to empty the cell
    | DeqRead(pos: nat)                        // about to release

  datatype Receipt<T> = Receipt(ticket: nat, task: T)

  /**
   `claims[t]` records who won enqueue ticket `t` and with which task, `takers[t]` who won
   dequeue ticket `t`, and `log` what consumers took out of cells, in time order.
   */
  datatype State<T> = State(
    cells: seq<Cell<T>>,
    enq: nat,
    deq: nat,
    threads: seq<Thread<T>>,
    claims: seq<(nat, T)>,
    takers: seq<nat>,
    log: seq<Receipt<T>>)

  /** `WeakFail` is the spurious failure `compare_exchange_weak` allows. */
  datatype Action<T> = Enqueue(task: T) | Dequeue | Go | WeakFail

  /** `pos & buffer_mask`, that is `pos` modulo the capacity, as repeated subtraction. */
  function Slot(pos: nat, capacity: nat): (i: nat)
    requires capacity >= 1
    ensures i < capacity
  {
    if pos < capacity then pos else Slot(pos - capacity, capacity)
  }

  function Initial<T>(capacity: nat, threads: nat): State<T>
    requires capacity >= 2
  {
    State(seq(capacity, i requires 0 <= i < capacity => Cell(i, None)), 0, 0, seq(threads, _ => Idle), [], [], [])
  }

  /** One atomic step of thread `tid`; an action that does not apply changes nothing. */
  function Step<T>(s: State<T>, tid: nat, a: Action<T>): (s': State<T>)
    requires tid < |s.threads| && |s.cells| >= 2
    ensures |s'.cells| == |s.cells| && |s'.threads| == |s.threads|
  {
    match (s.threads[tid], a)
    case (Idle, Enqueue(task)) => Moved(s, tid, EnqStart(task))
    case (Idle, Dequeue) => Moved(s, tid, DeqStart)
    case (EnqStart(task), Go) => Moved(s, tid, EnqLoaded(task, s.enq))
    case (EnqLoaded(task, pos), Go) => Moved(s, tid, EnqSeen(task, pos, s.cells[Slot(pos, |s.cells|)].sequence))
    case (EnqSeen(task, pos, seen), Go) =>
      if seen == pos then
        if s.enq == pos
        then AfterClaimEnq(s, tid)
        else Moved(s, tid, EnqStart(task))
      else if seen < pos then Moved(s, tid, Idle)
      else Moved(s, tid, EnqStart(task))
    case (EnqSeen(task, pos, seen), WeakFail) => if seen == pos then Moved(s, tid, EnqStart(task)) else s
    case (EnqClaimed(_, _), Go) => AfterWrite(s, tid)
    case (EnqWritten(_), Go) => AfterPublish(s, tid)
    case (DeqStart, Go) => Moved(s, tid, DeqLoaded(s.deq))
    case (DeqLoaded(pos), Go) => Moved(s, tid, DeqSeen(pos, s.cells[Slot(pos, |s.cells|)].sequence))
    case (DeqSeen(pos, seen), Go) =>
      if seen == pos + 1 then
        if s.deq == pos
        then AfterClaimDeq(s, tid)
        else Moved(s, tid, DeqStart)
      else if seen < pos + 1 then Moved(s, tid, Idle)
      else Moved(s, tid, DeqStart)
    case (DeqSeen(pos, seen), WeakFail) => if seen == pos + 1 then Moved(s, tid, DeqStart) else s
    case (DeqClaimed(_), Go) => AfterRead(s, tid)
    case (DeqRead(_), Go) => AfterRelease(s, tid)
    case _ => s
  }

  function AfterClaimEnq<T>(s: State<T>, tid: nat): State<T>
    requires tid < |s.threads| && s.threads[tid].EnqSeen?
  {
    var EnqSeen(task, pos, _) := s.threads[tid];
    Moved(s, tid, EnqClaimed(task, pos)).(enq := pos + 1, claims := s.claims + [(tid, task)])
  }

  function AfterWrite<T>(s: State<T>, tid: nat): State<T>
    requires |s.cells| >= 2 && tid < |s.threads| && s.threads[tid].EnqClaimed?
  {
    var EnqClaimed(task, pos) := s.threads[tid];
    Stored(Moved(s, tid, EnqWritten(pos)), pos, Cell(s.cells[Slot(pos, |s.cells|)].sequence, Some(task)))
  }

  function AfterPublish<T>(s: State<T>, tid: nat): State<T>
    requires |s.cells| >= 2 && tid < |s.threads| && s.threads[tid].EnqWritten?
  {
    var pos := s.threads[tid].pos;
    Stored(Moved(s, tid, Idle), pos, Cell(pos + 1, s.cells[Slot(pos, |s.cells|)].storage))
  }

  function AfterClaimDeq<T>(s: State<T>, tid: nat): State<T>
    requires tid < |s.threads| && s.threads[tid].DeqSeen?
  {
    var pos := s.threads[tid].pos;
    Moved(s, tid, DeqClaimed(pos)).(deq := pos + 1, takers := s.takers + [tid])
  }

  /** Moves the task out and destroys it in the cell; an empty cell would leave the thread stuck. */
  function AfterRead<T>(s: State<T>, tid: nat): State<T>
    requires |s.cells| >= 2 && tid < |s.threads| && s.threads[tid].DeqClaimed?
  {
    var pos := s.threads[tid].pos;
    var cell := s.cells[Slot(pos, |s.cells|)];
    if cell.storage.None? then s
    else Stored(Moved(s, tid, DeqRead(pos)), pos, Cell(cell.sequence, None))
         .(log := s.log + [Receipt(pos, cell.storage.value)])
  }

  function AfterRelease<T>(s: State<T>, tid: nat): State<T>
    requires |s.cells| >= 2 && tid < |s.threads| && s.threads[tid].DeqRead?
  {
    var pos := s.threads[tid].pos;
    Stored(Moved(s, tid, Idle), pos, Cell(pos + |s.cells|, s.cells[Slot(pos, |s.cells|)].storage))
  }

  function Moved<T>(s: State<T>, tid: nat, th: Thread<T>): State<T>
    requires tid < |s.threads|
  {
    s.(threads := s.threads[tid := th])
  }

  function Stored<T>(s: State<T>, pos: nat, cell: Cell<T>): State<T>
    requires |s.cells| >= 1
  {
    s.(cells := s.cells[Slot(pos, |s.cells|) := cell])
  }

  // ----- slots -----

  lemma {:induction false} SlotNextLap(a: nat, capacity: nat)
    requires capacity >= 1
    ensures Slot(a + capacity, capacity) == Slot(a, capacity)
  {
  }

  /** Two tickets of one cell are a whole number of laps apart. */
  lemma {:induction false} SlotApart(a: nat, b: nat, capacity: nat)
    requires capacity >= 1 && a < b && Slot(a, capacity) == Slot(b, capacity)
    ensures a + capacity <= b
  {
    if b >= capacity && a >= capacity { SlotApart(a - capacity, b - capacity, capacity); }
  }

  lemma SlotNeighbour(t: nat, capacity: nat)
    requires capacity >= 2
    ensures Slot(t + 1, capacity) != Slot(t, capacity)
  {
    if Slot(t + 1, capacity) == Slot(t, capacity) { SlotApart(t, t + 1, capacity); }
  }

  // ----- the invariant -----

  predicate HoldsEnq<T>(th: Thread<T>, t: nat) {
    (th.EnqClaimed? || th.EnqWritten?) && th.pos == t
  }

  predicate HoldsDeq<T>(th: Thread<T>, t: nat) {
    (th.DeqClaimed? || th.DeqRead?) && th.pos == t
  }

  /** The ticket a cell is serving: the one it waits for, or the one it holds. */
  function TicketOf<T>(s: State<T>, i: nat): nat
    requires i < |s.cells| && |s.cells| >= 2
  {
    var q := s.cells[i].sequence;
    if Slot(q, |s.cells|) == i || q == 0 then q else q - 1
  }

  ghost predicate Sizes<T>(s: State<T>) {
    && |s.cells| >= 2
    && |s.claims| == s.enq && |s.takers| == s.deq
    && (forall t :: 0 <= t < s.enq ==> s.claims[t].0 < |s.threads|)
    && (forall t :: 0 <= t < s.deq ==> s.takers[t] < |s.threads|)
    && s.deq <= s.enq <= s.deq + |s.cells|
  }

  ghost predicate CellOk<T>(s: State<T>, i: nat)
    requires Sizes(s) && i < |s.cells|
  {
    var capacity, cell, t := |s.cells|, s.cells[i], TicketOf(s, i);
    && Slot(t, capacity) == i
    && (t >= capacity ==> t - capacity < s.deq)
    && s.enq <= t + capacity
    && if cell.sequence == t then
         && t >= s.deq
         && if t < s.enq then
              && HoldsEnq(s.threads[s.claims[t].0], t)
              && cell.storage == (if s.threads[s.claims[t].0].EnqWritten? then Some(s.claims[t].1) else None)
            else cell.storage == None
       else
         && cell.sequence == t + 1 && t < s.enq
         && if t < s.deq then
              && HoldsDeq(s.threads[s.takers[t]], t)
              && cell.storage == (if s.threads[s.takers[t]].DeqClaimed? then Some(s.claims[t].1) else None)
            else cell.storage == Some(s.claims[t].1)
  }

  ghost predicate ThreadOk<T>(s: State<T>, tid: nat)
    requires Sizes(s) && tid < |s.threads|
  {
    match s.threads[tid]
    case EnqLoaded(_, pos) => pos <= s.enq
    case EnqSeen(_, pos, seen) =>
      pos <= s.enq && (seen == pos == s.enq ==> s.cells[Slot(pos, |s.cells|)].sequence == pos)
    case EnqClaimed(task, pos) =>
      pos < s.enq && s.claims[pos] == (tid, task) && s.cells[Slot(pos, |s.cells|)].sequence == pos
    case EnqWritten(pos) =>
      pos < s.enq && s.claims[pos].0 == tid && s.cells[Slot(pos, |s.cells|)].sequence == pos
    case DeqLoaded(pos) => pos <= s.deq
    case DeqSeen(pos, seen) =>
      pos <= s.deq && (seen == pos + 1 && pos == s.deq ==> s.cells[Slot(pos, |s.cells|)].sequence == pos + 1)
    case DeqClaimed(pos) =>
      pos < s.deq && s.takers[pos] == tid && s.cells[Slot(pos, |s.cells|)].sequence == pos + 1
    case DeqRead(pos) =>
      pos < s.deq && s.takers[pos] == tid && s.cells[Slot(pos, |s.cells|)].sequence == pos + 1
    case _ => true
  }

  /** Every receipt is for a taken ticket, with the task its producer put in, and for no other's ticket. */
  ghost predicate LogOk<T>(s: State<T>)
    requires Sizes(s)
  {
    && (forall j :: 0 <= j < |s.log| ==>
          s.log[j].ticket < s.deq && s.log[j].task == s.claims[s.log[j].ticket].1 &&
          s.threads[s.takers[s.log[j].ticket]] != DeqClaimed(s.log[j].ticket))
    && (forall j, k :: 0 <= j < k < |s.log| ==> s.log[j].ticket != s.log[k].ticket)
    && (forall t :: 0 <= t < s.deq && s.threads[s.takers[t]] != DeqClaimed(t) ==>
          Logged(s.log, t))
  }

  ghost predicate Logged<T>(log: seq<Receipt<T>>, t: nat) {
    exists j :: 0 <= j < |log| && log[j].ticket == t
  }

  lemma LoggedAppend<T>(log: seq<Receipt<T>>, r: Receipt<T>, t: nat)
    requires Logged(log, t) || r.ticket == t
    ensures Logged(log + [r], t)
  {
    if r.ticket == t {
      assert (log + [r])[|log|].ticket == t;
    } else {
      var j :| 0 <= j < |log| && log[j].ticket == t;
      assert (log + [r])[j].ticket == t;
    }
  }

  ghost predicate Inv<T>(s: State<T>) {
    && Sizes(s)
    && (forall i {:trigger CellOk(s, i)} :: 0 <= i < |s.cells| ==> CellOk(s, i))
    && (forall tid {:trigger ThreadOk(s, tid)} :: 0 <= tid < |s.threads| ==> ThreadOk(s, tid))
    && LogOk(s)
  }

  lemma InitialInv<T>(capacity: nat, threads: nat)
    requires capacity >= 2
    ensures Inv(Initial<T>(capacity, threads))
  {
    var s := Initial<T>(capacity, threads);
    forall i | 0 <= i < capacity ensures CellOk(s, i) {
    }
  }

  /** The thread owns no ticket. */
  predicate Free<T>(th: Thread<T>) {
    !(th.EnqClaimed? || th.EnqWritten? || th.DeqClaimed? || th.DeqRead?)
  }

  // ----- steps that only move a program counter -----

  lemma MoveCell<T>(s: State<T>, tid: nat, th: Thread<T>, i: nat)
    requires Sizes(s) && tid < |s.threads| && Free(s.threads[tid]) && Free(th)
    requires i < |s.cells| && CellOk(s, i)
    ensures CellOk(Moved(s, tid, th), i)
  {
  }

  lemma MoveThread<T>(s: State<T>, tid: nat, th: Thread<T>, k: nat)
    requires Sizes(s) && tid < |s.threads| && k != tid
    requires k < |s.threads| && ThreadOk(s, k)
    ensures ThreadOk(Moved(s, tid, th), k)
  {
  }

  lemma MoveLog<T>(s: State<T>, tid: nat, th: Thread<T>)
    requires Sizes(s) && tid < |s.threads| && Free(s.threads[tid]) && Free(th) && LogOk(s)
    ensures LogOk(Moved(s, tid, th))
  {
  }

  lemma MoveInv<T>(s: State<T>, tid: nat, th: Thread<T>)
    requires Inv(s) && tid < |s.threads| && Free(s.threads[tid]) && Free(th)
    requires ThreadOk(Moved(s, tid, th), tid)
    ensures Inv(Moved(s, tid, th))
  {
    var s' := Moved(s, tid, th);
    forall i | 0 <= i < |s.cells| ensures CellOk(s', i) {
      assert CellOk(s, i);
      MoveCell(s, tid, th, i);
    }
    forall k | 0 <= k < |s.threads| ensures ThreadOk(s', k) {
      assert ThreadOk(s, k);
      if k != tid { MoveThread(s, tid, th, k); }
    }
    MoveLog(s, tid, th);
  }

  // ----- a producer wins a ticket -----

  ghost predicate ClaimEnqAt<T>(s: State<T>, tid: nat) {
    && Sizes(s) && tid < |s.threads| && s.threads[tid].EnqSeen? && s.threads[tid].seen == s.threads[tid].pos == s.enq
    && ThreadOk(s, tid) && CellOk(s, Slot(s.threads[tid].pos, |s.cells|))
  }

  lemma ClaimEnqCell<T>(s: State<T>, tid: nat, i: nat)
    requires ClaimEnqAt(s, tid) && i < |s.cells| && CellOk(s, i)
    ensures Sizes(AfterClaimEnq(s, tid)) && CellOk(AfterClaimEnq(s, tid), i)
  {
    var s', capacity, pos := AfterClaimEnq(s, tid), |s.cells|, s.threads[tid].pos;
    var t := TicketOf(s, i);
    SlotNextLap(t, capacity);
  }

  lemma ClaimEnqThread<T>(s: State<T>, tid: nat, k: nat)
    requires ClaimEnqAt(s, tid) && k < |s.threads| && ThreadOk(s, k)
    ensures Sizes(AfterClaimEnq(s, tid)) && ThreadOk(AfterClaimEnq(s, tid), k)
  {
    var s', capacity, pos := AfterClaimEnq(s, tid), |s.cells|, s.threads[tid].pos;
  }

  lemma ClaimEnqLog<T>(s: State<T>, tid: nat)
    requires ClaimEnqAt(s, tid) && LogOk(s)
    ensures Sizes(AfterClaimEnq(s, tid)) && LogOk(AfterClaimEnq(s, tid))
  {
    var s', capacity, pos := AfterClaimEnq(s, tid), |s.cells|, s.threads[tid].pos;
  }

  lemma ClaimEnqInv<T>(s: State<T>, tid: nat)
    requires Inv(s) && tid < |s.threads| && s.threads[tid].EnqSeen? && s.threads[tid].seen == s.threads[tid].pos == s.enq
    ensures Inv(AfterClaimEnq(s, tid))
  {
    assert ThreadOk(s, tid) && CellOk(s, Slot(s.threads[tid].pos, |s.cells|));
    ClaimEnqLog(s, tid);
    forall i | 0 <= i < |s.cells| ensures CellOk(AfterClaimEnq(s, tid), i) {
      assert CellOk(s, i);
      ClaimEnqCell(s, tid, i);
    }
    forall k | 0 <= k < |s.threads| ensures ThreadOk(AfterClaimEnq(s, tid), k) {
      assert ThreadOk(s, k);
      ClaimEnqThread(s, tid, k);
    }
  }

  // ----- the producer fills its cell -----

  ghost predicate WriteAt<T>(s: State<T>, tid: nat) {
    && Sizes(s) && tid < |s.threads| && s.threads[tid].EnqClaimed?
    && ThreadOk(s, tid) && CellOk(s, Slot(s.threads[tid].pos, |s.cells|))
  }

  lemma WriteCell<T>(s: State<T>, tid: nat, i: nat)
    requires WriteAt(s, tid) && i < |s.cells| && CellOk(s, i)
    ensures Sizes(AfterWrite(s, tid)) && CellOk(AfterWrite(s, tid), i)
  {
    var s', capacity, pos := AfterWrite(s, tid), |s.cells|, s.threads[tid].pos;
  }

  lemma WriteThread<T>(s: State<T>, tid: nat, k: nat)
    requires WriteAt(s, tid) && k < |s.threads| && ThreadOk(s, k)
    ensures Sizes(AfterWrite(s, tid)) && ThreadOk(AfterWrite(s, tid), k)
  {
    var s', capacity, pos := AfterWrite(s, tid), |s.cells|, s.threads[tid].pos;
  }

  lemma WriteLog<T>(s: State<T>, tid: nat)
    requires WriteAt(s, tid) && LogOk(s)
    ensures Sizes(AfterWrite(s, tid)) && LogOk(AfterWrite(s, tid))
  {
    var s', capacity, pos := AfterWrite(s, tid), |s.cells|, s.threads[tid].pos;
  }

  lemma WriteInv<T>(s: State<T>, tid: nat)
    requires Inv(s) && tid < |s.threads| && s.threads[tid].EnqClaimed?
    ensures Inv(AfterWrite(s, tid))
  {
    assert ThreadOk(s, tid) && CellOk(s, Slot(s.threads[tid].pos, |s.cells|));
    WriteLog(s, tid);
    forall i | 0 <= i < |s.cells| ensures CellOk(AfterWrite(s, tid), i) {
      assert CellOk(s, i);
      WriteCell(s, tid, i);
    }
    forall k | 0 <= k < |s.threads| ensures ThreadOk(AfterWrite(s, tid), k) {
      assert ThreadOk(s, k);
      WriteThread(s, tid, k);
    }
  }

  // ----- the producer publishes -----

  ghost predicate PublishAt<T>(s: State<T>, tid: nat) {
    && Sizes(s) && tid < |s.threads| && s.threads[tid].EnqWritten?
    && ThreadOk(s, tid) && CellOk(s, Slot(s.threads[tid].pos, |s.cells|))
  }

  lemma PublishCell<T>(s: State<T>, tid: nat, i: nat)
    requires PublishAt(s, tid) && i < |s.cells| && CellOk(s, i)
    ensures Sizes(AfterPublish(s, tid)) && CellOk(AfterPublish(s, tid), i)
  {
    var s', capacity, pos := AfterPublish(s, tid), |s.cells|, s.threads[tid].pos;
    SlotNeighbour(pos, capacity);
    if i == Slot(pos, capacity) {
      assert TicketOf(s, i) == pos == TicketOf(s', i);
    } else {
      assert s'.cells[i] == s.cells[i] && TicketOf(s', i) == TicketOf(s, i) != pos;
    }
  }

  lemma PublishThread<T>(s: State<T>, tid: nat, k: nat)
    requires PublishAt(s, tid) && k < |s.threads| && ThreadOk(s, k)
    ensures Sizes(AfterPublish(s, tid)) && ThreadOk(AfterPublish(s, tid), k)
  {
    var s', capacity, pos := AfterPublish(s, tid), |s.cells|, s.threads[tid].pos;
    var th := s.threads[k];
    SlotNeighbour(pos, capacity);
    if k != tid && (th.DeqSeen? || th.DeqClaimed? || th.DeqRead?) { SlotNeighbour(th.pos, capacity); }
  }

  lemma PublishLog<T>(s: State<T>, tid: nat)
    requires PublishAt(s, tid) && LogOk(s)
    ensures Sizes(AfterPublish(s, tid)) && LogOk(AfterPublish(s, tid))
  {
    var s', capacity, pos := AfterPublish(s, tid), |s.cells|, s.threads[tid].pos;
    SlotNeighbour(pos, capacity);
  }

  lemma PublishInv<T>(s: State<T>, tid: nat)
    requires Inv(s) && tid < |s.threads| && s.threads[tid].EnqWritten?
    ensures Inv(AfterPublish(s, tid))
  {
    assert ThreadOk(s, tid) && CellOk(s, Slot(s.threads[tid].pos, |s.cells|));
    PublishLog(s, tid);
    forall i | 0 <= i < |s.cells| ensures CellOk(AfterPublish(s, tid), i) {
      assert CellOk(s, i);
      PublishCell(s, tid, i);
    }
    forall k | 0 <= k < |s.threads| ensures ThreadOk(AfterPublish(s, tid), k) {
      assert ThreadOk(s, k);
      PublishThread(s, tid, k);
    }
  }

  // ----- a consumer wins a ticket -----

  ghost predicate ClaimDeqAt<T>(s: State<T>, tid: nat) {
    && Sizes(s) && tid < |s.threads| && s.threads[tid].DeqSeen? && s.threads[tid].seen == s.threads[tid].pos + 1 && s.threads[tid].pos == s.deq
    && ThreadOk(s, tid) && CellOk(s, Slot(s.threads[tid].pos, |s.cells|))
  }

  lemma ClaimDeqCell<T>(s: State<T>, tid: nat, i: nat)
    requires ClaimDeqAt(s, tid) && i < |s.cells| && CellOk(s, i)
    ensures Sizes(AfterClaimDeq(s, tid)) && CellOk(AfterClaimDeq(s, tid), i)
  {
    var s', capacity, pos := AfterClaimDeq(s, tid), |s.cells|, s.threads[tid].pos;
    SlotNeighbour(pos, capacity);
    if i == Slot(pos, capacity) {
      assert TicketOf(s, i) == pos == TicketOf(s', i);
    } else {
      assert TicketOf(s', i) == TicketOf(s, i) != pos;
    }
  }

  lemma ClaimDeqThread<T>(s: State<T>, tid: nat, k: nat)
    requires ClaimDeqAt(s, tid) && k < |s.threads| && ThreadOk(s, k)
    ensures Sizes(AfterClaimDeq(s, tid)) && ThreadOk(AfterClaimDeq(s, tid), k)
  {
    var s', capacity, pos := AfterClaimDeq(s, tid), |s.cells|, s.threads[tid].pos;
    SlotNeighbour(pos, capacity);
  }

  lemma ClaimDeqLog<T>(s: State<T>, tid: nat)
    requires ClaimDeqAt(s, tid) && LogOk(s)
    ensures Sizes(AfterClaimDeq(s, tid)) && LogOk(AfterClaimDeq(s, tid))
  {
    var s', capacity, pos := AfterClaimDeq(s, tid), |s.cells|, s.threads[tid].pos;
    SlotNeighbour(pos, capacity);
  }

  lemma ClaimDeqInv<T>(s: State<T>, tid: nat)
    requires Inv(s) && tid < |s.threads| && s.threads[tid].DeqSeen? && s.threads[tid].seen == s.threads[tid].pos + 1 && s.threads[tid].pos == s.deq
    ensures Inv(AfterClaimDeq(s, tid))
  {
    assert ThreadOk(s, tid) && CellOk(s, Slot(s.threads[tid].pos, |s.cells|));
    ClaimDeqLog(s, tid);
    forall i | 0 <= i < |s.cells| ensures CellOk(AfterClaimDeq(s, tid), i) {
      assert CellOk(s, i);
      ClaimDeqCell(s, tid, i);
    }
    forall k | 0 <= k < |s.threads| ensures ThreadOk(AfterClaimDeq(s, tid), k) {
      assert ThreadOk(s, k);
      ClaimDeqThread(s, tid, k);
    }
  }

  // ----- the consumer empties its cell -----

  ghost predicate ReadAt<T>(s: State<T>, tid: nat) {
    && Sizes(s) && tid < |s.threads| && s.threads[tid].DeqClaimed?
    && ThreadOk(s, tid) && CellOk(s, Slot(s.threads[tid].pos, |s.cells|))
  }

  lemma ReadOwnCell<T>(s: State<T>, tid: nat)
    requires ReadAt(s, tid)
    ensures Sizes(AfterRead(s, tid)) && CellOk(AfterRead(s, tid), Slot(s.threads[tid].pos, |s.cells|))
  {
    var pos, capacity := s.threads[tid].pos, |s.cells|;
    SlotNeighbour(pos, capacity);
    assert TicketOf(s, Slot(pos, capacity)) == pos == TicketOf(AfterRead(s, tid), Slot(pos, capacity));
  }

  lemma ReadCell<T>(s: State<T>, tid: nat, i: nat)
    requires ReadAt(s, tid) && i < |s.cells| && CellOk(s, i)
    ensures Sizes(AfterRead(s, tid)) && CellOk(AfterRead(s, tid), i)
  {
    var s', capacity, pos := AfterRead(s, tid), |s.cells|, s.threads[tid].pos;
    if i == Slot(pos, capacity) {
      ReadOwnCell(s, tid);
    } else {
      assert s'.cells[i] == s.cells[i] && TicketOf(s', i) == TicketOf(s, i) != pos;
    }
  }

  lemma ReadThread<T>(s: State<T>, tid: nat, k: nat)
    requires ReadAt(s, tid) && k < |s.threads| && ThreadOk(s, k)
    ensures Sizes(AfterRead(s, tid)) && ThreadOk(AfterRead(s, tid), k)
  {
    var s', capacity, pos := AfterRead(s, tid), |s.cells|, s.threads[tid].pos;
    SlotNeighbour(pos, capacity);
  }

  /** What the read changes besides the cell. */
  ghost predicate ReadOut<T>(s: State<T>, s': State<T>, tid: nat, pos: nat) {
    && Sizes(s) && Sizes(s') && tid < |s.threads| && s.threads[tid] == DeqClaimed(pos)
    && pos < s.deq && s.takers[pos] == tid
    && s'.threads == s.threads[tid := DeqRead(pos)] && s'.log == s.log + [Receipt(pos, s.claims[pos].1)]
    && s'.deq == s.deq && s'.takers == s.takers && s'.claims == s.claims
  }

  lemma ReadChanges<T>(s: State<T>, tid: nat)
    requires ReadAt(s, tid)
    ensures ReadOut(s, AfterRead(s, tid), tid, s.threads[tid].pos)
  {
    SlotNeighbour(s.threads[tid].pos, |s.cells|);
  }

  lemma ReadLog<T>(s: State<T>, s': State<T>, tid: nat, pos: nat)
    requires ReadOut(s, s', tid, pos) && LogOk(s)
    ensures LogOk(s')
  {
    forall t | 0 <= t < s'.deq && s'.threads[s'.takers[t]] != DeqClaimed(t) ensures Logged(s'.log, t) {
      LoggedAppend(s.log, Receipt(pos, s.claims[pos].1), t);
    }
  }

  lemma ReadInv<T>(s: State<T>, tid: nat)
    requires Inv(s) && tid < |s.threads| && s.threads[tid].DeqClaimed?
    ensures Inv(AfterRead(s, tid))
  {
    assert ThreadOk(s, tid) && CellOk(s, Slot(s.threads[tid].pos, |s.cells|));
    ReadChanges(s, tid);
    ReadLog(s, AfterRead(s, tid), tid, s.threads[tid].pos);
    forall i | 0 <= i < |s.cells| ensures CellOk(AfterRead(s, tid), i) {
      assert CellOk(s, i);
      ReadCell(s, tid, i);
    }
    forall k | 0 <= k < |s.threads| ensures ThreadOk(AfterRead(s, tid), k) {
      assert ThreadOk(s, k);
      ReadThread(s, tid, k);
    }
  }

  // ----- the consumer releases the cell -----

  ghost predicate ReleaseAt<T>(s: State<T>, tid: nat) {
    && Sizes(s) && tid < |s.threads| && s.threads[tid].DeqRead?
    && ThreadOk(s, tid) && CellOk(s, Slot(s.threads[tid].pos, |s.cells|))
  }

  lemma ReleaseCell<T>(s: State<T>, tid: nat, i: nat)
    requires ReleaseAt(s, tid) && i < |s.cells| && CellOk(s, i)
    ensures Sizes(AfterRelease(s, tid)) && CellOk(AfterRelease(s, tid), i)
  {
    var s', capacity, pos := AfterRelease(s, tid), |s.cells|, s.threads[tid].pos;
    SlotNeighbour(pos, capacity);
    SlotNextLap(pos, capacity);
    var at := Slot(pos, capacity);
    assert TicketOf(s, at) == pos;
    if i == at {
      assert s'.cells[i] == Cell(pos + capacity, None);
      assert TicketOf(s', i) == pos + capacity;
    } else {
      assert s'.cells[i] == s.cells[i];
      assert TicketOf(s', i) == TicketOf(s, i) != pos;
    }
  }

  lemma ReleaseThread<T>(s: State<T>, tid: nat, k: nat)
    requires ReleaseAt(s, tid) && k < |s.threads| && ThreadOk(s, k)
    ensures Sizes(AfterRelease(s, tid)) && ThreadOk(AfterRelease(s, tid), k)
  {
    var s', capacity, pos := AfterRelease(s, tid), |s.cells|, s.threads[tid].pos;
    var th := s.threads[k];
    SlotNeighbour(pos, capacity);
    if k != tid && (th.DeqSeen? || th.DeqClaimed? || th.DeqRead?) { SlotNeighbour(th.pos, capacity); }
  }

  lemma ReleaseLog<T>(s: State<T>, tid: nat)
    requires ReleaseAt(s, tid) && LogOk(s)
    ensures Sizes(AfterRelease(s, tid)) && LogOk(AfterRelease(s, tid))
  {
    var s', capacity, pos := AfterRelease(s, tid), |s.cells|, s.threads[tid].pos;
    SlotNeighbour(pos, capacity);
  }

  lemma ReleaseInv<T>(s: State<T>, tid: nat)
    requires Inv(s) && tid < |s.threads| && s.threads[tid].DeqRead?
    ensures Inv(AfterRelease(s, tid))
  {
    assert ThreadOk(s, tid) && CellOk(s, Slot(s.threads[tid].pos, |s.cells|));
    ReleaseLog(s, tid);
    forall i | 0 <= i < |s.cells| ensures CellOk(AfterRelease(s, tid), i) {
      assert CellOk(s, i);
      ReleaseCell(s, tid, i);
    }
    forall k | 0 <= k < |s.threads| ensures ThreadOk(AfterRelease(s, tid), k) {
      assert ThreadOk(s, k);
      ReleaseThread(s, tid, k);
    }
  }

  // ----- every run -----

  lemma EnqueueStepInv<T>(s: State<T>, tid: nat, a: Action<T>)
    requires Inv(s) && tid < |s.threads|
    requires s.threads[tid].EnqStart? || s.threads[tid].EnqLoaded? || s.threads[tid].EnqSeen?
             || s.threads[tid].EnqClaimed? || s.threads[tid].EnqWritten?
    ensures Inv(Step(s, tid, a))
  {
    assert ThreadOk(s, tid);
    match (s.threads[tid], a)
    case (EnqStart(task), Go) => MoveInv(s, tid, EnqLoaded(task, s.enq));
    case (EnqLoaded(task, pos), Go) => MoveInv(s, tid, EnqSeen(task, pos, s.cells[Slot(pos, |s.cells|)].sequence));
    case (EnqSeen(task, pos, seen), Go) =>
      if seen == pos == s.enq { ClaimEnqInv(s, tid); }
      else if seen < pos { MoveInv(s, tid, Idle); }
      else { MoveInv(s, tid, EnqStart(task)); }
    case (EnqSeen(task, pos, seen), WeakFail) => MoveInv(s, tid, EnqStart(task));
    case (EnqClaimed(_, _), Go) => WriteInv(s, tid);
    case (EnqWritten(_), Go) => PublishInv(s, tid);
    case _ =>
  }

  lemma DequeueStepInv<T>(s: State<T>, tid: nat, a: Action<T>)
    requires Inv(s) && tid < |s.threads|
    requires s.threads[tid].DeqStart? || s.threads[tid].DeqLoaded? || s.threads[tid].DeqSeen?
             || s.threads[tid].DeqClaimed? || s.threads[tid].DeqRead?
    ensures Inv(Step(s, tid, a))
  {
    assert ThreadOk(s, tid);
    match (s.threads[tid], a)
    case (DeqStart, Go) => MoveInv(s, tid, DeqLoaded(s.deq));
    case (DeqLoaded(pos), Go) => MoveInv(s, tid, DeqSeen(pos, s.cells[Slot(pos, |s.cells|)].sequence));
    case (DeqSeen(pos, seen), Go) =>
      if seen == pos + 1 && pos == s.deq { ClaimDeqInv(s, tid); }
      else if seen < pos + 1 { MoveInv(s, tid, Idle); }
      else { MoveInv(s, tid, DeqStart); }
    case (DeqSeen(pos, seen), WeakFail) => MoveInv(s, tid, DeqStart);
    case (DeqClaimed(_), Go) => ReadInv(s, tid);
    case (DeqRead(_), Go) => ReleaseInv(s, tid);
    case _ =>
  }

  lemma StepInv<T>(s: State<T>, tid: nat, a: Action<T>)
    requires Inv(s) && tid < |s.threads|
    ensures Inv(Step(s, tid, a))
  {
    if s.threads[tid].Idle? {
      match a
      case Enqueue(task) => MoveInv(s, tid, EnqStart(task));
      case Dequeue => MoveInv(s, tid, DeqStart);
      case _ =>
    } else if s.threads[tid].EnqStart? || s.threads[tid].EnqLoaded? || s.threads[tid].EnqSeen?
              || s.threads[tid].EnqClaimed? || s.threads[tid].EnqWritten? {
      EnqueueStepInv(s, tid, a);
    } else {
      DequeueStepInv(s, tid, a);
    }
  }

  /** The state after a schedule; choices of threads that do not exist are skipped. */
  function Run<T>(s: State<T>, schedule: seq<(nat, Action<T>)>): (s': State<T>)
    requires |s.cells| >= 2
    ensures |s'.cells| == |s.cells| && |s'.threads| == |s.threads|
    decreases |schedule|
  {
    if schedule == [] then s
    else
      var (tid, a) := schedule[0];
      Run(if tid < |s.threads| then Step(s, tid, a) else s, schedule[1..])
  }

  lemma {:induction false} RunInv<T>(s: State<T>, schedule: seq<(nat, Action<T>)>)
    requires Inv(s)
    ensures Inv(Run(s, schedule))
    decreases |schedule|
  {
    if schedule != [] {
      var (tid, a) := schedule[0];
      if tid < |s.threads| { StepInv(s, tid, a); }
      RunInv(if tid < |s.threads| then Step(s, tid, a) else s, schedule[1..]);
    }
  }

  /** What every interleaving guarantees. */
  ghost predicate Safe<T>(s: State<T>) {
    && |s.cells| >= 2
    // at most `capacity` tickets are claimed by producers and not yet by consumers
    && s.deq <= s.enq <= s.deq + |s.cells|
    && |s.claims| == s.enq
    // a ticket's task is handed out at most once, and is what that ticket's producer enqueued
    && (forall j :: 0 <= j < |s.log| ==>
          s.log[j].ticket < s.deq && s.log[j].task == s.claims[s.log[j].ticket].1)
    && (forall j, k :: 0 <= j < k < |s.log| ==> s.log[j].ticket != s.log[k].ticket)
    // no two threads are inside the same cell
    && (forall a, b :: 0 <= a < b < |s.threads| && !Free(s.threads[a]) && !Free(s.threads[b]) ==>
          Slot(s.threads[a].pos, |s.cells|) != Slot(s.threads[b].pos, |s.cells|))
    // a producer fills only an empty cell, a consumer empties only the cell with its ticket's task
    && (forall a :: 0 <= a < |s.threads| && s.threads[a].EnqClaimed? ==>
          s.cells[Slot(s.threads[a].pos, |s.cells|)].storage == None)
    && (forall a :: 0 <= a < |s.threads| && s.threads[a].DeqClaimed? ==>
          s.threads[a].pos < s.enq &&
          s.cells[Slot(s.threads[a].pos, |s.cells|)].storage == Some(s.claims[s.threads[a].pos].1))
  }

  lemma InsideCell<T>(s: State<T>, a: nat)
    requires Inv(s) && a < |s.threads| && !Free(s.threads[a])
    ensures var pos := s.threads[a].pos;
            var i := Slot(pos, |s.cells|);
            && TicketOf(s, i) == pos && pos < s.enq
            && (if s.threads[a].EnqClaimed? || s.threads[a].EnqWritten?
                then s.cells[i].sequence == pos && s.claims[pos].0 == a
                else s.cells[i].sequence == pos + 1 && pos < s.deq && s.takers[pos] == a)
            && (s.threads[a].EnqClaimed? ==> s.cells[i].storage == None)
            && (s.threads[a].DeqClaimed? ==> s.cells[i].storage == Some(s.claims[pos].1))
  {
    var pos := s.threads[a].pos;
    assert ThreadOk(s, a);
    SlotNeighbour(pos, |s.cells|);
    assert CellOk(s, Slot(pos, |s.cells|));
  }

  lemma InvSafe<T>(s: State<T>)
    requires Inv(s)
    ensures Safe(s)
  {
    forall a, b | 0 <= a < b < |s.threads| && !Free(s.threads[a]) && !Free(s.threads[b])
      ensures Slot(s.threads[a].pos, |s.cells|) != Slot(s.threads[b].pos, |s.cells|)
    {
      InsideCell(s, a);
      InsideCell(s, b);
    }
    forall a | 0 <= a < |s.threads| && !Free(s.threads[a])
      ensures s.threads[a].pos < s.enq
      ensures s.threads[a].EnqClaimed? ==> s.cells[Slot(s.threads[a].pos, |s.cells|)].storage == None
      ensures s.threads[a].DeqClaimed? ==>
                s.cells[Slot(s.threads[a].pos, |s.cells|)].storage == Some(s.claims[s.threads[a].pos].1)
    {
      InsideCell(s, a);
    }
  }

  /** For every capacity, every number of threads and every interleaving. */
  lemma EveryRunSafe<T>(capacity: nat, threads: nat, schedule: seq<(nat, Action<T>)>)
    requires capacity >= 2
    ensures Safe(Run(Initial(capacity, threads), schedule))
    ensures Inv(Run(Initial(capacity, threads), schedule))
  {
    InitialInv<T>(capacity, threads);
    RunInv(Initial(capacity, threads), schedule);
    InvSafe(Run(Initial(capacity, threads), schedule));
  }

  // ----- a false result -----

  /** A consumer has released ticket `t`, so its cell is free for the next lap. */
  ghost predicate Released<T>(s: State<T>, t: nat)
    requires Inv(s)
  {
    t < s.deq && !HoldsDeq(s.threads[s.takers[t]], t)
  }

  /** The producer of ticket `t` has published its task. */
  ghost predicate Published<T>(s: State<T>, t: nat)
    requires Inv(s)
  {
    t < s.enq && !HoldsEnq(s.threads[s.claims[t].0], t)
  }

  /** A task has left its cell exactly when the cell has gone on to a later ticket. */
  lemma ReleasedIff<T>(s: State<T>, t: nat)
    requires Inv(s) && t <= TicketOf(s, Slot(t, |s.cells|))
    ensures Released(s, t) <==> t < TicketOf(s, Slot(t, |s.cells|))
  {
    var i := Slot(t, |s.cells|);
    assert CellOk(s, i);
    if t < TicketOf(s, i) {
      SlotApart(t, TicketOf(s, i), |s.cells|);
      if HoldsDeq(s.threads[s.takers[t]], t) { InsideCell(s, s.takers[t]); }
    }
  }

  /** The cell a producer looks at is a lap behind its ticket, or has come that far. */
  lemma LoadedCell<T>(s: State<T>, tid: nat)
    requires Inv(s) && tid < |s.threads| && s.threads[tid].EnqLoaded?
    ensures var (pos, capacity) := (s.threads[tid].pos, |s.cells|);
            var i := Slot(pos, capacity);
            CellOk(s, i) && (TicketOf(s, i) >= pos || TicketOf(s, i) + capacity == pos)
  {
    var pos, capacity := s.threads[tid].pos, |s.cells|;
    assert ThreadOk(s, tid);
    var t := TicketOf(s, Slot(pos, capacity));
    assert CellOk(s, Slot(pos, capacity));
    if t < pos { SlotApart(t, pos, capacity); }
  }

  /**
   When the sequence read makes `TryEnqueue` return false, the previous lap's task of that
   cell is not released at that moment; and when it makes it proceed, that task is.
   */
  lemma EnqueueFalseIsSound<T>(s: State<T>, tid: nat)
    requires Inv(s) && tid < |s.threads| && s.threads[tid].EnqLoaded?
    ensures var (pos, capacity) := (s.threads[tid].pos, |s.cells|);
            s.cells[Slot(pos, capacity)].sequence < pos <==>
              pos >= capacity && !Released(s, pos - capacity)
  {
    var pos, capacity := s.threads[tid].pos, |s.cells|;
    LoadedCell(s, tid);
    if pos >= capacity {
      SlotNextLap(pos - capacity, capacity);
      ReleasedIff(s, pos - capacity);
    }
  }

  /** The sequence test of a consumer, on a position read at any earlier time, tells whether that ticket is published. */
  lemma SequenceTells<T>(s: State<T>, pos: nat)
    requires Inv(s) && pos <= s.deq
    ensures s.cells[Slot(pos, |s.cells|)].sequence < pos + 1 <==> !Published(s, pos)
  {
    var capacity := |s.cells|;
    var i := Slot(pos, capacity);
    assert CellOk(s, i);
    var t := TicketOf(s, i);
    if t < pos { SlotApart(t, pos, capacity); }
    if pos < t { SlotApart(pos, t, capacity); }
    if pos < s.enq && HoldsEnq(s.threads[s.claims[pos].0], pos) {
      InsideCell(s, s.claims[pos].0);
    }
  }

  /** When the sequence read makes `TryDequeue` return false, the task of that ticket is not published. */
  lemma DequeueFalseIsSound<T>(s: State<T>, tid: nat)
    requires Inv(s) && tid < |s.threads| && s.threads[tid].DeqLoaded?
    ensures var pos := s.threads[tid].pos;
            s.cells[Slot(pos, |s.cells|)].sequence < pos + 1 <==> !Published(s, pos)
  {
    assert ThreadOk(s, tid);
    SequenceTells(s, s.threads[tid].pos);
  }

  // ----- tickets and history -----

  lemma StepGrows<T>(s: State<T>, tid: nat, a: Action<T>)
    requires tid < |s.threads| && |s.cells| >= 2
    ensures s.claims <= Step(s, tid, a).claims && s.takers <= Step(s, tid, a).takers
    ensures s.log <= Step(s, tid, a).log
  {
  }

  /** Tickets go out in order: who won a ticket, and what was taken out, is never revised. */
  lemma {:induction false} HistoryGrows<T>(s: State<T>, schedule: seq<(nat, Action<T>)>)
    requires |s.cells| >= 2
    ensures s.claims <= Run(s, schedule).claims
    ensures s.takers <= Run(s, schedule).takers
    ensures s.log <= Run(s, schedule).log
    decreases |schedule|
  {
    if schedule != [] {
      var (tid, a) := schedule[0];
      if tid < |s.threads| { StepGrows(s, tid, a); }
      HistoryGrows(if tid < |s.threads| then Step(s, tid, a) else s, schedule[1..]);
    }
  }

  // ----- the destructor -----

  ghost predicate Quiescent<T>(s: State<T>) {
    forall tid :: 0 <= tid < |s.threads| ==> s.threads[tid].Idle?
  }

  lemma QuiescentCell<T>(s: State<T>, pos: nat)
    requires Inv(s) && Quiescent(s) && s.deq <= pos <= s.enq
    ensures pos < s.enq ==> s.cells[Slot(pos, |s.cells|)] == Cell(pos + 1, Some(s.claims[pos].1))
    ensures pos == s.enq ==> s.cells[Slot(pos, |s.cells|)].sequence < pos + 1
  {
    var capacity := |s.cells|;
    var i := Slot(pos, capacity);
    assert CellOk(s, i);
    var t := TicketOf(s, i);
    if t < pos { SlotApart(t, pos, capacity); }
    if pos < t { SlotApart(pos, t, capacity); }
  }

  /**
   `Empty()` reads the head and later a sequence; in between other threads may run. It says so exactly
   when the task of that head is not published at the second read, and, at rest, when no task is left.
   */
  lemma EmptyIsExact<T>(s: State<T>, schedule: seq<(nat, Action<T>)>)
    requires Inv(s)
    ensures var (head, later) := (s.deq, Run(s, schedule));
            && Inv(later) && head <= later.deq
            && (later.cells[Slot(head, |later.cells|)].sequence < head + 1 <==> !Published(later, head))
            && (later == s && Quiescent(s) ==> (Published(s, head) <==> s.deq < s.enq))
  {
    RunInv(s, schedule);
    HistoryGrows(s, schedule);
    SequenceTells(Run(s, schedule), s.deq);
  }

  /**
   The destructor's loop: it takes tickets until a cell has not caught up. Every task still
   in the ring is destroyed exactly once, in ticket order, and nothing else is.
   */
  method Drain<T>(s: State<T>) returns (destroyed: seq<Receipt<T>>, finalDeq: nat)
    requires Inv(s) && Quiescent(s)
    ensures |destroyed| == s.enq - s.deq
    ensures forall k :: 0 <= k < |destroyed| ==>
              destroyed[k] == Receipt(s.deq + k, s.claims[s.deq + k].1) &&
              s.cells[Slot(s.deq + k, |s.cells|)].storage == Some(destroyed[k].task)
    ensures finalDeq == s.enq + 1
  {
    destroyed, finalDeq := [], s.deq;
    while true
      invariant s.deq <= finalDeq <= s.enq && |destroyed| == finalDeq - s.deq
      invariant forall k :: 0 <= k < |destroyed| ==>
                  destroyed[k] == Receipt(s.deq + k, s.claims[s.deq + k].1) &&
                  s.cells[Slot(s.deq + k, |s.cells|)].storage == Some(destroyed[k].task)
      decreases s.enq - finalDeq
    {
      var pos := finalDeq;
      QuiescentCell(s, pos);
      finalDeq := pos + 1;
      var cell := s.cells[Slot(pos, |s.cells|)];
      if cell.sequence as int - (pos + 1) as int < 0 {
        break;
      }
      destroyed := destroyed + [Receipt(pos, cell.storage.value)];
    }
  }

  /** In a quiescent queue the tasks consumers took and the tasks left for the destructor are all the tasks. */
  lemma NothingLost<T>(s: State<T>, t: nat)
    requires Inv(s) && Quiescent(s) && t < s.enq
    ensures t < s.deq <==> Logged(s.log, t)
  {
    if t < s.deq {
      assert s.threads[s.takers[t]].Idle?;
    }
  }

  // ----- construction -----

  lemma LeastPower(k: nat, m: nat, x: nat)
    requires Pow2(m) >= x && (k > 0 ==> Pow2(k - 1) < x)
    ensures Pow2(k) <= Pow2(m)
  {
    if m < k { Pow2Mono(m, k - 1); } else { Pow2Mono(k, m); }
  }

  /** `p << 1` in words that hold the numbers below `top`. */
  function Twice(p: nat, top: nat): nat
    requires top > 0
  {
    2 * p % top
  }

  lemma SmallMod(a: nat, n: nat)
    requires a < n
    ensures a % n == a
  {
  }

  lemma SelfMod(n: nat)
    requires n > 0
    ensures n % n == 0
  {
  }

  lemma TwiceIs(p: nat, half: nat)
    requires p <= half && half > 0
    ensures Twice(p, 2 * half) == if p < half then 2 * p else 0
  {
    if p < half { SmallMod(2 * p, 2 * half); } else { SelfMod(2 * half); }
  }

  /** What `k` turns of the doubling loop make of 1 in words of `bits` bits. */
  function Doubled(bits: nat, k: nat): nat {
    if k == 0 then 1 else Twice(Doubled(bits, k - 1), Pow2(bits))
  }

  lemma {:induction false} DoubledIs(bits: nat, k: nat)
    requires bits > 0
    ensures Doubled(bits, k) == if k < bits then Pow2(k) else 0
    decreases k
  {
    if k > 0 {
      DoubledIs(bits, k - 1);
      if k - 1 < bits { Pow2Mono(k - 1, bits - 1); }
      if k < bits { Pow2Mono(k, bits - 1); }
      TwiceIs(Doubled(bits, k - 1), Pow2(bits - 1));
    }
  }

  /** Above the largest power the loop never ends: no number of turns reaches the size. */
  lemma DoublingNeverReaches(bits: nat, x: nat, k: nat)
    requires bits > 0 && x > Pow2(bits - 1)
    ensures Doubled(bits, k) < x
  {
    DoubledIs(bits, k);
    if k < bits { Pow2Mono(k, bits - 1); }
  }

  /** `RoundUpPowerOfTwo`: the least power of two that is at least 2 and at least `x`. */
  method RoundUpPowerOfTwo(x: nat) returns (p: nat)
    requires x <= Pow2(63)
    ensures exists k: nat :: p == Pow2(k)
    ensures p >= 2 && p >= x
    ensures forall k: nat :: Pow2(k) >= 2 && Pow2(k) >= x ==> p <= Pow2(k)
    ensures p < TWO_64
  {
    Pow2Constants();
    Pow2Mono(63, 64);
    if x < 2 {
      assert 2 == Pow2(1);
      return 2;
    }
    p := 1;
    ghost var k := 0;
    while p < x
      invariant p == Pow2(k) && k <= 63
      invariant k > 0 ==> Pow2(k - 1) < x
      decreases 63 - k
    {
      if k == 63 { assert false; }
      p, k := Twice(p, TWO_64), k + 1;
      Pow2Mono(k, 63);
    }
    forall m: nat | Pow2(m) >= x ensures p <= Pow2(m) {
      LeastPower(k, m, x);
    }
  }
}
