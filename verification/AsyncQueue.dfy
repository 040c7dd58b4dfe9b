/**
 The asynchronous job queue (ioctl.c) as a state machine. Every critical section under one of the
 three list mutexes is one step; between steps any number of submitting and fetching threads and the
 one work item interleave freely. The work item may be queued again while it runs, but two instances
 of it never run at once.
 */
module AsyncQueue {
  import opened Bytes

  const DEF_COP_RINGSIZE := 16
  const MAX_COP_RINGSIZE := 64

  /** What an item carries: a job, whether its request has NO_ZC set, and the value crypto_run returned. */
  datatype Cell = Cell(job: nat, noZc: bool, result: int)

  /** Where a thread is inside crypto_async_run or crypto_async_fetch. */
  datatype Pc =
    | Idle
    | Growing(newJob: nat)                                  // itemcount raised, allocation under way
    | Holding(empty: nat, toFill: nat)                      // an item unlinked or allocated, not yet filled
    | Filled(full: nat)                                     // the job copied in
    | Queueing                                              // appended to todo, queue_work still to come
    | Taken(out: nat, turn: nat)                            // unlinked from done
    | Returning(back: nat, order: nat, value: Cell)         // copied out, item to be put back

  datatype Worker = Asleep | Awake | Running(handled: nat)

  /** `submitted`, `executed` and `delivered` record the history: jobs in todo-lock order, jobs run with
      their results, and what was in the items taken from done, in done-lock order. `fetched` counts
      the latter, `failed` the allocations that failed. */
  datatype State = State(
    free: seq<nat>, todo: seq<nat>, local: seq<nat>, done: seq<nat>,
    cells: map<nat, Cell>, itemcount: nat, pending: bool, worker: Worker, pcs: map<nat, Pc>,
    submitted: seq<nat>, executed: seq<Cell>, delivered: seq<Cell>, fetched: nat, failed: nat) {

    /** Items between submission and fetch, oldest first. */
    function Pipeline(): seq<nat> { done + local + todo }

    function Load(x: nat): Cell { if x in cells then cells[x] else Cell(0, false, 0) }
  }

  datatype Act =
    | Submit(t: nat, job: nat, noZc: bool)
    | Allocate(t: nat, item: nat)
    | AllocateFails(t: nat)
    | Fill(t: nat)
    | Enqueue(t: nat)
    | QueueWork(t: nat)
    | WorkStart
    | Cut
    | RunOne(result: int, noZc: bool)
    | Publish
    | FetchStart(t: nat)
    | CopyOut(t: nat)
    | GiveBack(t: nat)

  predicate Can(s: State, a: Act) {
    match a
    case Submit(t, _, _) => (t in s.pcs && s.pcs[t].Idle?)
    case Allocate(t, x) => (t in s.pcs && s.pcs[t].Growing?) && x !in s.cells
    case AllocateFails(t) => (t in s.pcs && s.pcs[t].Growing?)
    case Fill(t) => (t in s.pcs && s.pcs[t].Holding?)
    case Enqueue(t) => (t in s.pcs && s.pcs[t].Filled?)
    case QueueWork(t) => (t in s.pcs && s.pcs[t].Queueing?)
    case WorkStart => s.worker.Asleep? && s.pending
    case Cut => s.worker.Awake?
    case RunOne(_, noZc) =>
      s.worker.Running? && s.worker.handled < |s.local| && (s.Load(s.local[s.worker.handled]).noZc ==> noZc)
    case Publish => s.worker.Running? && s.worker.handled == |s.local|
    case FetchStart(t) => (t in s.pcs && s.pcs[t].Idle?)
    case CopyOut(t) => (t in s.pcs && s.pcs[t].Taken?)
    case GiveBack(t) => (t in s.pcs && s.pcs[t].Returning?)
  }

  function Move(s: State, t: nat, pc: Pc): State { s.(pcs := s.pcs[t := pc]) }

  function Do(s: State, a: Act): State
    requires Can(s, a)
  {
    match a
    case Submit(t, job, noZc) =>
      if noZc then s                                                  // -EINVAL
      else if s.free != [] then Move(s.(free := s.free[1..]), t, Holding(s.free[0], job))
      else if s.itemcount < MAX_COP_RINGSIZE then Move(s.(itemcount := s.itemcount + 1), t, Growing(job))
      else s                                                          // -EBUSY
    case Allocate(t, x) => Move(s.(cells := s.cells[x := Cell(0, false, 0)]), t, Holding(x, s.pcs[t].newJob))
    case AllocateFails(t) => Move(s.(failed := s.failed + 1), t, Idle) // -EFAULT
    case Fill(t) => Move(s.(cells := s.cells[s.pcs[t].empty := Cell(s.pcs[t].toFill, false, 0)]), t, Filled(s.pcs[t].empty))
    case Enqueue(t) =>
      var x := s.pcs[t].full;
      Move(s.(todo := s.todo + [x], submitted := s.submitted + [s.Load(x).job]), t, Queueing)
    case QueueWork(t) => Move(s.(pending := true), t, Idle)
    case WorkStart => s.(pending := false, worker := Awake)
    case Cut => s.(local := s.todo, todo := [], worker := Running(0))
    case RunOne(result, noZc) =>
      var x := s.local[s.worker.handled];
      var c := s.Load(x).(result := result, noZc := noZc);
      s.(cells := s.cells[x := c], executed := s.executed + [c], worker := Running(s.worker.handled + 1))
    case Publish => s.(done := s.done + s.local, local := [], worker := Asleep)
    case FetchStart(t) =>
      if s.done == [] then s                                          // -EBUSY
      else Move(s.(done := s.done[1..], fetched := s.fetched + 1, delivered := s.delivered + [s.Load(s.done[0])]), t,
                Taken(s.done[0], s.fetched))
    case CopyOut(t) => Move(s, t, Returning(s.pcs[t].out, s.pcs[t].turn, s.Load(s.pcs[t].out)))
    case GiveBack(t) => Move(s.(free := s.free + [s.pcs[t].back]), t, Idle)
  }

  /** How a submission is answered before anything is allocated for it. */
  function SubmitAnswer(s: State, noZc: bool): Status {
    if noZc then EINVAL else if s.free == [] && s.itemcount >= MAX_COP_RINGSIZE then EBUSY else Ok
  }

  /** cryptodev_open: sixteen items, all free, nothing queued, every thread outside. */
  ghost predicate Init(s: State) {
    && |s.free| == DEF_COP_RINGSIZE && NoDup(s.free) && (forall x :: x in s.cells <==> x in s.free)
    && s.todo == s.local == s.done == [] && s.itemcount == DEF_COP_RINGSIZE && !s.pending && s.worker.Asleep?
    && (forall t :: t in s.pcs ==> s.pcs[t].Idle?)
    && s.submitted == [] && s.executed == s.delivered == [] && s.fetched == 0 && s.failed == 0
  }

  ghost predicate IsRun(states: seq<State>, acts: seq<Act>) {
    && |states| == |acts| + 1 && Init(states[0])
    && forall i :: 0 <= i < |acts| ==> Can(states[i], acts[i]) && states[i + 1] == Do(states[i], acts[i])
  }

  // ---- What every step keeps ----

  ghost predicate NoDup(s: seq<nat>) { forall i, j :: 0 <= i < j < |s| ==> s[i] != s[j] }

  /** The item a thread has in its hands. */
  function Hand(p: Pc): Option<nat> {
    match p
    case Holding(x, _) => Some(x)
    case Filled(x) => Some(x)
    case Taken(x, _) => Some(x)
    case Returning(x, _, _) => Some(x)
    case _ => None
  }

  ghost predicate InHand(s: State, x: nat) { exists t :: t in s.pcs && Hand(s.pcs[t]) == Some(x) }

  /** Every item is in exactly one place. */
  ghost predicate Owned(s: State) {
    && NoDup(s.free) && NoDup(s.Pipeline())
    && (forall x :: x in s.free ==> x in s.cells && x !in s.Pipeline())
    && (forall x :: x in s.Pipeline() ==> x in s.cells)
    && (forall t :: t in s.pcs && Hand(s.pcs[t]).Some? ==>
          var x := Hand(s.pcs[t]).value; x in s.cells && x !in s.free && x !in s.Pipeline())
    && (forall t, u :: t in s.pcs && u in s.pcs && t != u && Hand(s.pcs[t]).Some? ==> Hand(s.pcs[t]) != Hand(s.pcs[u]))
    && (forall x :: x in s.cells ==> x in s.free || x in s.Pipeline() || InHand(s, x))
  }

  function GrowingThreads(s: State): set<nat> { set t | t in s.pcs && s.pcs[t].Growing? }

  /** Items, allocations under way and failed allocations add up to the counted items. */
  ghost predicate Counted(s: State) {
    && |s.cells| + |GrowingThreads(s)| + s.failed == s.itemcount
    && s.itemcount <= MAX_COP_RINGSIZE
  }

  function Handled(s: State): nat { if s.worker.Running? then s.worker.handled else 0 }

  /** Fetched, done, local and todo jobs in order are the submissions; what has run is a prefix of
      them, its results still carried by its items. */
  ghost predicate Ordered(s: State) {
    && (!s.worker.Running? ==> s.local == []) && Handled(s) <= |s.local|
    && |s.submitted| == s.fetched + |s.Pipeline()|
    && |s.executed| == s.fetched + |s.done| + Handled(s) && s.delivered == s.executed[..s.fetched]
    && (forall i :: 0 <= i < |s.executed| ==> s.executed[i].job == s.submitted[i])
    && (forall i :: 0 <= i < |s.Pipeline()| ==> s.Load(s.Pipeline()[i]).job == s.submitted[s.fetched + i])
    && (forall i :: 0 <= i < |s.done| + Handled(s) ==> s.Load(s.Pipeline()[i]) == s.executed[s.fetched + i])
  }

  /** What a fetching thread holds is the outcome of the job whose turn it took. */
  ghost predicate PcAgrees(s: State, p: Pc) {
    && (p.Taken? ==> p.turn < s.fetched && s.fetched <= |s.executed| && s.Load(p.out) == s.executed[p.turn])
    && (p.Returning? ==> p.order < s.fetched && s.fetched <= |s.executed| && p.value == s.executed[p.order])
  }

  /** The turn of a fetching thread. */
  function Turn(p: Pc): Option<nat> { if p.Taken? then Some(p.turn) else if p.Returning? then Some(p.order) else None }

  /** No two threads fetch the same result. */
  ghost predicate TurnsDiffer(s: State) {
    forall t, u :: t in s.pcs && u in s.pcs && t != u && Turn(s.pcs[t]).Some? ==> Turn(s.pcs[t]) != Turn(s.pcs[u])
  }

  ghost predicate Fifo(s: State) {
    Ordered(s) && TurnsDiffer(s) && forall t :: t in s.pcs ==> PcAgrees(s, s.pcs[t])
  }

  /** A job waiting in todo is not forgotten: the work item is pending, or a worker has yet to cut the
      list, or some submitter is about to queue the work. */
  ghost predicate NotStranded(s: State) {
    s.todo != [] ==> s.pending || s.worker.Awake? || exists t :: t in s.pcs && s.pcs[t].Queueing?
  }

  ghost predicate Inv(s: State) { Owned(s) && Counted(s) && Fifo(s) && NotStranded(s) }

  lemma InitInv(s: State)
    requires Init(s)
    ensures Inv(s)
  {
    assert GrowingThreads(s) == {};
    assert s.cells.Keys == Elements(s.free);
    NoDupSize(s.free);
  }

  function Elements(s: seq<nat>): set<nat> { set x | x in s }

  lemma {:induction false} NoDupSize(s: seq<nat>)
    requires NoDup(s)
    ensures |Elements(s)| == |s|
  {
    if s == [] {
      assert Elements(s) == {};
    } else {
      var n := |s| - 1;
      NoDupSize(s[..n]);
      assert s == s[..n] + [s[n]] && s[n] !in Elements(s[..n]);
      assert Elements(s) == Elements(s[..n]) + {s[n]};
    }
  }

  lemma NoDupTail(s: seq<nat>)
    requires NoDup(s) && s != []
    ensures NoDup(s[1..]) && s[0] !in s[1..] && forall x :: x in s <==> x == s[0] || x in s[1..]
  {
  }

  lemma NoDupAppend(s: seq<nat>, x: nat)
    requires NoDup(s) && x !in s
    ensures NoDup(s + [x])
  {
  }

  /** The threads under allocation after one thread moves on. */
  lemma GrowingMoves(s: State, s': State, t: nat, pc: Pc)
    requires t in s.pcs && s'.pcs == s.pcs[t := pc]
    ensures pc.Growing? ==> GrowingThreads(s') == GrowingThreads(s) + {t}
    ensures !pc.Growing? ==> GrowingThreads(s') == GrowingThreads(s) - {t}
    ensures t in GrowingThreads(s) <==> s.pcs[t].Growing?
  {
  }

  lemma GrowingStays(s: State, s': State, t: nat, pc: Pc)
    requires t in s.pcs && s'.pcs == s.pcs[t := pc] && !pc.Growing? && !s.pcs[t].Growing?
    ensures GrowingThreads(s') == GrowingThreads(s)
  {
  }

  lemma CountedSubmit(s: State, t: nat, job: nat, noZc: bool)
    requires Can(s, Submit(t, job, noZc)) && Counted(s)
    ensures Counted(Do(s, Submit(t, job, noZc)))
  {
    var s' := Do(s, Submit(t, job, noZc));
    if noZc {
    } else if s.free != [] {
      GrowingStays(s, s', t, Holding(s.free[0], job));
    } else if s.itemcount < MAX_COP_RINGSIZE {
      GrowingMoves(s, s', t, Growing(job));
    }
  }

  lemma CountedAllocate(s: State, t: nat, x: nat)
    requires Can(s, Allocate(t, x)) && Counted(s)
    ensures Counted(Do(s, Allocate(t, x)))
  {
    var s' := Do(s, Allocate(t, x));
    GrowingMoves(s, s', t, Holding(x, s.pcs[t].newJob));
    assert s'.cells.Keys == s.cells.Keys + {x};
  }

  lemma CountedStays(s: State, s': State)
    requires Counted(s) && s'.cells.Keys == s.cells.Keys && GrowingThreads(s') == GrowingThreads(s)
    requires s'.itemcount == s.itemcount && s'.failed == s.failed
    ensures Counted(s')
  {
    assert |s'.cells| == |s'.cells.Keys| == |s.cells|;
  }

  lemma CountedFails(s: State, t: nat)
    requires Can(s, AllocateFails(t)) && Counted(s)
    ensures Counted(Do(s, AllocateFails(t)))
  {
    GrowingMoves(s, Do(s, AllocateFails(t)), t, Idle);
  }

  lemma CountedKept(s: State, a: Act)
    requires Can(s, a) && Owned(s) && Counted(s)
    ensures Counted(Do(s, a))
  {
    hide Owned, State.Load, Counted, GrowingThreads;
    var s' := Do(s, a);
    match a
    case Submit(t, job, noZc) => CountedSubmit(s, t, job, noZc);
    case Allocate(t, x) => CountedAllocate(s, t, x);
    case AllocateFails(t) => CountedFails(s, t);
    case Fill(t) =>
      FillOwned(s, t);
      assert s'.cells.Keys == s.cells.Keys;
      GrowingStays(s, s', t, Filled(s.pcs[t].empty));
      CountedStays(s, s');
    case RunOne(_, _) =>
      LocalOwned(s);
      assert s'.cells.Keys == s.cells.Keys;
      SamePcs(s, s');
      CountedStays(s, s');
    case Enqueue(t) => GrowingStays(s, s', t, Queueing); CountedStays(s, s');
    case QueueWork(t) => GrowingStays(s, s', t, Idle); CountedStays(s, s');
    case FetchStart(t) => if s.done != [] { GrowingStays(s, s', t, Taken(s.done[0], s.fetched)); CountedStays(s, s'); }
    case CopyOut(t) => GrowingStays(s, s', t, s'.pcs[t]); CountedStays(s, s');
    case GiveBack(t) => GrowingStays(s, s', t, Idle); CountedStays(s, s');
    case _ => SamePcs(s, s'); CountedStays(s, s');
  }

  lemma SamePcs(s: State, s': State)
    requires s'.pcs == s.pcs
    ensures GrowingThreads(s') == GrowingThreads(s)
  {
  }

  lemma LocalOwned(s: State)
    requires Owned(s)
    ensures forall i :: 0 <= i < |s.local| ==> s.local[i] in s.cells
  {
  }

  lemma FillOwned(s: State, t: nat)
    requires Owned(s) && (t in s.pcs && s.pcs[t].Holding?)
    ensures s.pcs[t].empty in s.cells
  {
  }

  // ---- Ownership, by kind of move ----

  /** One thread moves on and keeps what it holds. */
  lemma KeepsHand(s: State, s': State, t: nat, pc: Pc)
    requires Owned(s) && t in s.pcs && s'.pcs == s.pcs[t := pc] && Hand(pc) == Hand(s.pcs[t])
    requires s'.free == s.free && s'.Pipeline() == s.Pipeline() && s'.cells.Keys == s.cells.Keys
    ensures Owned(s')
  {
    forall x | x in s'.cells && x !in s'.free && x !in s'.Pipeline() ensures InHand(s', x) {
      assert InHand(s, x);
      var u :| u in s.pcs && Hand(s.pcs[u]) == Some(x);
      assert u in s'.pcs && Hand(s'.pcs[u]) == Some(x);
    }
  }

  /** An empty-handed thread takes an item out of `free`. */
  lemma TakesFree(s: State, s': State, t: nat, pc: Pc)
    requires Owned(s) && t in s.pcs && s'.pcs == s.pcs[t := pc] && Hand(s.pcs[t]).None?
    requires s.free != [] && Hand(pc) == Some(s.free[0])
    requires s'.free == s.free[1..] && s'.Pipeline() == s.Pipeline() && s'.cells.Keys == s.cells.Keys
    ensures Owned(s')
  {
    NoDupTail(s.free);
    OthersHold(s, s', t, pc, s.free[0]);
  }

  /** An empty-handed thread gets a newly allocated item. */
  lemma TakesFresh(s: State, s': State, t: nat, pc: Pc, x: nat)
    requires Owned(s) && t in s.pcs && s'.pcs == s.pcs[t := pc] && Hand(s.pcs[t]).None?
    requires x !in s.cells && Hand(pc) == Some(x)
    requires s'.free == s.free && s'.Pipeline() == s.Pipeline() && s'.cells.Keys == s.cells.Keys + {x}
    ensures Owned(s')
  {
    OthersHold(s, s', t, pc, x);
  }

  /** An empty-handed thread takes the oldest item out of the pipeline. */
  lemma TakesOldest(s: State, s': State, t: nat, pc: Pc)
    requires Owned(s) && t in s.pcs && s'.pcs == s.pcs[t := pc] && Hand(s.pcs[t]).None?
    requires s.Pipeline() != [] && Hand(pc) == Some(s.Pipeline()[0])
    requires s'.free == s.free && s'.Pipeline() == s.Pipeline()[1..] && s'.cells.Keys == s.cells.Keys
    ensures Owned(s')
  {
    NoDupTail(s.Pipeline());
    OthersHold(s, s', t, pc, s.Pipeline()[0]);
  }

  /** What was in hand stays in hand when an empty-handed thread picks something up. */
  lemma OthersHold(s: State, s': State, t: nat, pc: Pc, x: nat)
    requires t in s.pcs && s'.pcs == s.pcs[t := pc] && Hand(s.pcs[t]).None? && Hand(pc) == Some(x)
    ensures InHand(s', x) && forall y :: InHand(s, y) ==> InHand(s', y)
  {
    assert t in s'.pcs && Hand(s'.pcs[t]) == Some(x);
    forall y: nat | InHand(s, y) ensures InHand(s', y) {
      var u :| u in s.pcs && Hand(s.pcs[u]) == Some(y);
      assert u in s'.pcs && Hand(s'.pcs[u]) == Some(y);
    }
  }

  /** A thread puts its item at the end of `free` or of the pipeline. */
  lemma PutsDown(s: State, s': State, t: nat, pc: Pc, x: nat)
    requires Owned(s) && t in s.pcs && s'.pcs == s.pcs[t := pc] && Hand(s.pcs[t]) == Some(x) && Hand(pc).None?
    requires s'.cells.Keys == s.cells.Keys
    requires (s'.free == s.free + [x] && s'.Pipeline() == s.Pipeline())
          || (s'.free == s.free && s'.Pipeline() == s.Pipeline() + [x])
    ensures Owned(s')
  {
    if s'.free == s.free + [x] { NoDupAppend(s.free, x); } else { NoDupAppend(s.Pipeline(), x); }
    forall y | y in s'.cells && y !in s'.free && y !in s'.Pipeline() ensures InHand(s', y) {
      assert InHand(s, y);
      var u :| u in s.pcs && Hand(s.pcs[u]) == Some(y);
      assert u in s'.pcs && Hand(s'.pcs[u]) == Some(y);
    }
  }

  /** A step of the worker moves no item in or out of the pipeline. */
  lemma WorkerMoves(s: State, s': State)
    requires Owned(s) && s'.pcs == s.pcs && s'.free == s.free
    requires s'.Pipeline() == s.Pipeline() && s'.cells.Keys == s.cells.Keys
    ensures Owned(s')
  {
    forall x: nat | InHand(s, x) ensures InHand(s', x) {
      var u :| u in s.pcs && Hand(s.pcs[u]) == Some(x);
      assert u in s'.pcs && Hand(s'.pcs[u]) == Some(x);
    }
  }

  /** What a step does to the pipeline. */
  lemma PipelineMoves(s: State, a: Act)
    requires Can(s, a) && Fifo(s)
    ensures var p, p' := s.Pipeline(), Do(s, a).Pipeline();
            match a
            case Enqueue(t) => p' == p + [s.pcs[t].full]
            case FetchStart(t) => if s.done == [] then p' == p else p != [] && p[0] == s.done[0] && p' == p[1..]
            case _ => p' == p
  {
    hide Fifo;
    match a
    case Enqueue(t) => assert s.done + s.local + (s.todo + [s.pcs[t].full]) == s.done + s.local + s.todo + [s.pcs[t].full];
    case FetchStart(t) => if s.done != [] { assert s.Pipeline()[1..] == s.done[1..] + s.local + s.todo; }
    case Cut => IdleWorkerHoldsNothing(s); assert s.done + [] + s.todo == s.done + s.todo + [];
    case Publish => assert s.done + s.local + [] + s.todo == s.done + s.local + s.todo;
    case _ =>
  }

  lemma IdleWorkerHoldsNothing(s: State)
    requires Fifo(s)
    ensures !s.worker.Running? ==> s.local == []
  {
  }

  lemma OwnedKept(s: State, a: Act)
    requires Can(s, a) && Owned(s) && Fifo(s)
    ensures Owned(Do(s, a))
  {
    hide Owned, Fifo, State.Load;
    var s' := Do(s, a);
    PipelineMoves(s, a);
    hide State.Pipeline;
    match a
    case Submit(t, job, noZc) =>
      if noZc {
        WorkerMoves(s, s');
      } else if s.free != [] {
        TakesFree(s, s', t, Holding(s.free[0], job));
      } else if s.itemcount < MAX_COP_RINGSIZE {
        KeepsHand(s, s', t, Growing(job));
      }
    case Allocate(t, x) => TakesFresh(s, s', t, s'.pcs[t], x);
    case AllocateFails(t) => KeepsHand(s, s', t, Idle);
    case Fill(t) => FillOwned(s, t); assert s'.cells.Keys == s.cells.Keys; KeepsHand(s, s', t, s'.pcs[t]);
    case Enqueue(t) => PutsDown(s, s', t, Queueing, s.pcs[t].full);
    case QueueWork(t) => KeepsHand(s, s', t, Idle);
    case RunOne(_, _) => LocalOwned(s); assert s'.cells.Keys == s.cells.Keys; WorkerMoves(s, s');
    case FetchStart(t) => if s.done != [] { TakesOldest(s, s', t, s'.pcs[t]); }
    case CopyOut(t) => KeepsHand(s, s', t, s'.pcs[t]);
    case GiveBack(t) => PutsDown(s, s', t, Idle, s.pcs[t].back);
    case _ => WorkerMoves(s, s');
  }

  // ---- Order and results, by kind of move ----

  /** A step that leaves the lists, the history and the contents of items in flight alone. */
  lemma OrderedStays(s: State, s': State)
    requires Ordered(s)
    requires s'.todo == s.todo && s'.local == s.local && s'.done == s.done && Handled(s') == Handled(s)
    requires !s'.worker.Running? ==> s.local == []
    requires s'.submitted == s.submitted && s'.executed == s.executed && s'.delivered == s.delivered && s'.fetched == s.fetched
    requires forall x :: x in s.Pipeline() ==> s'.Load(x) == s.Load(x)
    ensures Ordered(s')
  {
  }

  /** History only grows, and items that are taken are not written: positions go on agreeing. */
  lemma AgreeingStays(s: State, s': State, t: nat, pc: Pc)
    requires Fifo(s) && t in s.pcs && s'.pcs == s.pcs[t := pc] && PcAgrees(s', pc)
    requires Turn(pc).None? || Turn(pc) == Turn(s.pcs[t]) || Turn(pc).value == s.fetched
    requires s.executed <= s'.executed && s.fetched <= s'.fetched <= |s'.executed| && s.fetched <= |s.executed|
    requires forall u :: u in s.pcs && u != t && s.pcs[u].Taken? ==> s'.Load(s.pcs[u].out) == s.Load(s.pcs[u].out)
    ensures TurnsDiffer(s') && forall u :: u in s'.pcs ==> PcAgrees(s', s'.pcs[u])
  {
    hide Ordered, State.Load;
    forall u | u in s'.pcs ensures PcAgrees(s', s'.pcs[u]) {
      if u != t { assert PcAgrees(s, s.pcs[u]); }
    }
    forall u | u in s.pcs && u != t ensures Turn(s.pcs[u]).None? || Turn(s.pcs[u]).value < s.fetched {
      assert PcAgrees(s, s.pcs[u]);
    }
  }

  lemma AgreeingWorker(s: State, s': State)
    requires Fifo(s) && s'.pcs == s.pcs
    requires s.executed <= s'.executed && s'.fetched == s.fetched <= |s.executed|
    requires forall u :: u in s.pcs && s.pcs[u].Taken? ==> s'.Load(s.pcs[u].out) == s.Load(s.pcs[u].out)
    ensures forall u :: u in s'.pcs ==> PcAgrees(s', s'.pcs[u])
  {
  }

  lemma FetchedExecuted(s: State)
    requires Ordered(s)
    ensures s.fetched <= |s.executed| && Handled(s) <= |s.local| && (!s.worker.Running? ==> s.local == [])
  {
  }

  /** Writing an item that is neither in the pipeline nor taken by anybody. */
  lemma FifoFill(s: State, s': State, t: nat, pc: Pc, x: nat, c: Cell)
    requires Fifo(s) && Owned(s) && t in s.pcs && s'.pcs == s.pcs[t := pc] && !pc.Taken? && !pc.Returning?
    requires s' == s.(cells := s.cells[x := c], pcs := s'.pcs)
    requires x in s.cells ==> Hand(s.pcs[t]) == Some(x)
    ensures Fifo(s')
  {
    hide Ordered;
    FetchedExecuted(s);
    forall u | u in s.pcs && u != t && s.pcs[u].Taken? ensures s'.Load(s.pcs[u].out) == s.Load(s.pcs[u].out) {
      assert Hand(s.pcs[u]) == Some(s.pcs[u].out);
    }
    AgreeingStays(s, s', t, pc);
    OrderedStays(s, s');
  }

  lemma FifoMove(s: State, s': State, t: nat, pc: Pc)
    requires Fifo(s) && t in s.pcs && s'.pcs == s.pcs[t := pc] && PcAgrees(s', pc)
    requires Turn(pc).None? || Turn(pc) == Turn(s.pcs[t])
    requires s' == s.(pcs := s'.pcs, free := s'.free, itemcount := s'.itemcount, pending := s'.pending, failed := s'.failed)
    ensures Fifo(s')
  {
    FetchedExecuted(s);
    AgreeingStays(s, s', t, pc);
    OrderedStays(s, s');
  }

  lemma FifoEnqueue(s: State, t: nat)
    requires Fifo(s) && Can(s, Enqueue(t))
    ensures Fifo(Do(s, Enqueue(t)))
  {
    var s', x := Do(s, Enqueue(t)), s.pcs[t].full;
    AgreeingStays(s, s', t, Queueing);
    OrderedEnqueue(s, s', x);
  }

  lemma OrderedEnqueue(s: State, s': State, x: nat)
    requires Ordered(s)
    requires s' == s.(todo := s.todo + [x], submitted := s.submitted + [s.Load(x).job], pcs := s'.pcs)
    ensures Ordered(s')
  {
    assert s'.Pipeline() == s.Pipeline() + [x];
  }

  lemma FifoCut(s: State)
    requires Fifo(s) && Can(s, Cut)
    ensures Fifo(Do(s, Cut))
  {
    AgreeingWorker(s, Do(s, Cut));
    assert Do(s, Cut).Pipeline() == s.Pipeline();
  }

  lemma FifoPublish(s: State)
    requires Fifo(s) && Can(s, Publish)
    ensures Fifo(Do(s, Publish))
  {
    AgreeingWorker(s, Do(s, Publish));
    assert Do(s, Publish).Pipeline() == s.Pipeline();
  }

  lemma FifoRunOne(s: State, result: int, noZc: bool)
    requires Fifo(s) && Owned(s) && Can(s, RunOne(result, noZc))
    ensures Fifo(Do(s, RunOne(result, noZc)))
  {
    hide Ordered;
    var s' := Do(s, RunOne(result, noZc));
    var x := s.local[s.worker.handled];
    assert s.Pipeline()[|s.done| + s.worker.handled] == x;
    forall u | u in s.pcs && s.pcs[u].Taken? ensures s.pcs[u].out != x {
      assert Hand(s.pcs[u]) == Some(s.pcs[u].out);
    }
    FetchedExecuted(s);
    AgreeingWorker(s, s');
    OrderedRunOne(s, s', x, s.Load(x).(result := result, noZc := noZc));
  }

  lemma OrderedRunOne(s: State, s': State, x: nat, c: Cell)
    requires Ordered(s) && NoDup(s.Pipeline())
    requires s.worker.Running? && s.worker.handled < |s.local| && x == s.local[s.worker.handled]
    requires c.job == s.Load(x).job
    requires s' == s.(cells := s.cells[x := c], executed := s.executed + [c], worker := Running(s.worker.handled + 1))
    ensures Ordered(s')
  {
    var p, k := s.Pipeline(), |s.done| + s.worker.handled;
    assert p[k] == x && s'.Pipeline() == p;
    forall i | 0 <= i < |p| ensures s'.Load(p[i]) == if i == k then c else s.Load(p[i]) {
    }
  }

  lemma FifoFetch(s: State, t: nat)
    requires Fifo(s) && Can(s, FetchStart(t)) && s.done != []
    ensures Fifo(Do(s, FetchStart(t)))
  {
    var s' := Do(s, FetchStart(t));
    assert s.Pipeline()[0] == s.done[0];
    AgreeingStays(s, s', t, s'.pcs[t]);
    OrderedFetch(s, s');
  }

  lemma OrderedFetch(s: State, s': State)
    requires Ordered(s) && s.done != []
    requires s' == s.(done := s.done[1..], fetched := s.fetched + 1, delivered := s.delivered + [s.Load(s.done[0])], pcs := s'.pcs)
    ensures Ordered(s')
  {
    var p := s.Pipeline();
    assert p[0] == s.done[0] && s'.Pipeline() == p[1..];
    assert forall i :: 0 <= i < |p| - 1 ==> s'.Pipeline()[i] == p[i + 1];
  }

  lemma FifoStart(s: State)
    requires Fifo(s) && Can(s, WorkStart)
    ensures Fifo(Do(s, WorkStart))
  {
    FetchedExecuted(s);
    AgreeingWorker(s, Do(s, WorkStart));
    OrderedStays(s, Do(s, WorkStart));
  }

  lemma ThreadAgrees(s: State, t: nat)
    requires Fifo(s) && t in s.pcs
    ensures PcAgrees(s, s.pcs[t])
  {
  }

  lemma FifoKept(s: State, a: Act)
    requires Can(s, a) && Owned(s) && Fifo(s)
    ensures Fifo(Do(s, a))
  {
    hide Owned, Fifo, State.Pipeline;
    var s' := Do(s, a);
    match a
    case Submit(t, job, noZc) =>
      if s' != s { FifoMove(s, s', t, s'.pcs[t]); }
    case Allocate(t, x) => FifoFill(s, s', t, s'.pcs[t], x, Cell(0, false, 0));
    case AllocateFails(t) => FifoMove(s, s', t, Idle);
    case Fill(t) => FifoFill(s, s', t, s'.pcs[t], s.pcs[t].empty, Cell(s.pcs[t].toFill, false, 0));
    case Enqueue(t) => FifoEnqueue(s, t);
    case QueueWork(t) => FifoMove(s, s', t, Idle);
    case WorkStart => FifoStart(s);
    case Cut => FifoCut(s);
    case RunOne(result, noZc) => FifoRunOne(s, result, noZc);
    case Publish => FifoPublish(s);
    case FetchStart(t) => if s.done != [] { FifoFetch(s, t); }
    case CopyOut(t) => ThreadAgrees(s, t); FifoMove(s, s', t, s'.pcs[t]);
    case GiveBack(t) => FifoMove(s, s', t, Idle);
  }

  lemma StrandedKept(s: State, a: Act)
    requires Can(s, a) && Inv(s)
    ensures NotStranded(Do(s, a))
  {
    hide Owned, Fifo, Counted;
    var s' := Do(s, a);
    if s.todo != [] && !s.pending && !s.worker.Awake? {
      var u :| u in s.pcs && s.pcs[u].Queueing?;
      assert u in s'.pcs && (s'.pcs[u].Queueing? || s'.pending);
    }
    if a.Enqueue? { assert s'.pcs[a.t].Queueing?; }
  }

  /** Every reachable state, in every interleaving. */
  lemma {:induction false} RunKeepsInv(states: seq<State>, acts: seq<Act>, i: nat)
    requires IsRun(states, acts) && i <= |acts|
    ensures Inv(states[i])
    decreases i
  {
    hide Owned, Counted, Fifo, NotStranded, Do, Can, Init;
    if i == 0 {
      InitInv(states[0]);
    } else {
      RunKeepsInv(states, acts, i - 1);
      OwnedKept(states[i - 1], acts[i - 1]);
      CountedKept(states[i - 1], acts[i - 1]);
      FifoKept(states[i - 1], acts[i - 1]);
      StrandedKept(states[i - 1], acts[i - 1]);
    }
  }

  // ---- The history, read off the actions ----

  /** The job of the last submission that thread `t` made. */
  function LastJob(acts: seq<Act>, t: nat): Option<nat> {
    if acts == [] then None
    else
      var n := |acts| - 1;
      if acts[n].Submit? && acts[n].t == t then Some(acts[n].job) else LastJob(acts[..n], t)
  }

  /** The jobs in the order in which threads put them into todo, each as its thread submitted it. */
  function Submissions(acts: seq<Act>): seq<nat> {
    if acts == [] then []
    else
      var n := |acts| - 1;
      var past := Submissions(acts[..n]);
      if acts[n].Enqueue? && LastJob(acts[..n], acts[n].t).Some? then past + [LastJob(acts[..n], acts[n].t).value] else past
  }

  /** What crypto_run made of a job: the value it returned and the NO_ZC flag it left. */
  datatype Outcome = Outcome(result: int, noZc: bool)

  function Outcomes(acts: seq<Act>): seq<Outcome> {
    if acts == [] then []
    else
      var n := |acts| - 1;
      var past := Outcomes(acts[..n]);
      if acts[n].RunOne? then past + [Outcome(acts[n].result, acts[n].noZc)] else past
  }

  lemma OneMoreAct(past: seq<Act>, a: Act)
    ensures forall t :: LastJob(past + [a], t) == if a.Submit? && a.t == t then Some(a.job) else LastJob(past, t)
    ensures Submissions(past + [a]) ==
            Submissions(past) + if a.Enqueue? && LastJob(past, a.t).Some? then [LastJob(past, a.t).value] else []
    ensures Outcomes(past + [a]) == Outcomes(past) + if a.RunOne? then [Outcome(a.result, a.noZc)] else []
  {
    assert (past + [a])[..|past|] == past;
  }

  /** The job a submitting thread carries, or has put into its item, is the one it submitted. */
  ghost predicate Carries(s: State, p: Pc, job: Option<nat>) {
    && (p.Growing? ==> job == Some(p.newJob))
    && (p.Holding? ==> job == Some(p.toFill))
    && (p.Filled? ==> job == Some(s.Load(p.full).job))
  }

  ghost predicate Recorded(s: State, past: seq<Act>) {
    && s.submitted == Submissions(past)
    && |s.executed| == |Outcomes(past)|
    && (forall k :: 0 <= k < |s.executed| ==> Outcomes(past)[k] == Outcome(s.executed[k].result, s.executed[k].noZc))
    && (forall t :: t in s.pcs ==> Carries(s, s.pcs[t], LastJob(past, t)))
  }

  /** An item that a submitting thread has filled is written by nobody else. */
  lemma FilledStays(s: State, a: Act, u: nat)
    requires Can(s, a) && Owned(s) && u in s.pcs && s.pcs[u].Filled?
    ensures u in Do(s, a).pcs && (Do(s, a).pcs[u] == s.pcs[u] || (a.Enqueue? && a.t == u))
    ensures Do(s, a).Load(s.pcs[u].full) == s.Load(s.pcs[u].full)
  {
    assert Hand(s.pcs[u]) == Some(s.pcs[u].full);
    if a.RunOne? { assert s.local[s.worker.handled] in s.Pipeline(); }
  }

  /** A thread that does not step carries what it carried. */
  lemma OtherCarries(s: State, a: Act, u: nat, job: Option<nat>)
    requires Can(s, a) && Owned(s) && u in s.pcs && Carries(s, s.pcs[u], job) && Mover(a) != Some(u)
    ensures Carries(Do(s, a), s.pcs[u], job)
  {
    if s.pcs[u].Filled? { FilledStays(s, a, u); }
    hide Owned, Do, Can;
  }

  /** Whose step it is. */
  function Mover(a: Act): Option<nat> {
    match a
    case Submit(t, _, _) => Some(t)
    case Allocate(t, _) => Some(t)
    case AllocateFails(t) => Some(t)
    case Fill(t) => Some(t)
    case Enqueue(t) => Some(t)
    case QueueWork(t) => Some(t)
    case FetchStart(t) => Some(t)
    case CopyOut(t) => Some(t)
    case GiveBack(t) => Some(t)
    case _ => None
  }

  lemma OthersStay(s: State, a: Act, u: nat)
    requires Can(s, a) && u in s.pcs && Mover(a) != Some(u)
    ensures u in Do(s, a).pcs && Do(s, a).pcs[u] == s.pcs[u] && !(a.Submit? && a.t == u)
  {
    hide State.Load;
  }

  /** A thread that steps carries on with the job it submitted last. */
  lemma MoverCarries(s: State, a: Act, t: nat, job: Option<nat>)
    requires Can(s, a) && Mover(a) == Some(t) && t in s.pcs && Carries(s, s.pcs[t], job)
    ensures t in Do(s, a).pcs && Carries(Do(s, a), Do(s, a).pcs[t], if a.Submit? then Some(a.job) else job)
  {
    hide State.Pipeline;
  }

  lemma CarriesKept(s: State, a: Act, past: seq<Act>, u: nat)
    requires Can(s, a) && Owned(s) && u in s.pcs && Carries(s, s.pcs[u], LastJob(past, u))
    ensures u in Do(s, a).pcs && Carries(Do(s, a), Do(s, a).pcs[u], LastJob(past + [a], u))
  {
    OneMoreAct(past, a);
    hide Owned, Do, Can, Carries, LastJob;
    if Mover(a) == Some(u) {
      MoverCarries(s, a, u, LastJob(past, u));
      SubmitMoves(a, u);
    } else {
      OthersStay(s, a, u);
      OtherCarries(s, a, u, LastJob(past, u));
    }
  }

  lemma SubmitMoves(a: Act, u: nat)
    ensures Mover(a) == Some(u) && a.Submit? ==> a.t == u
  {
  }

  lemma HistoryKept(s: State, a: Act, past: seq<Act>)
    requires Can(s, a) && Recorded(s, past)
    ensures var s', now := Do(s, a), past + [a];
            && s'.submitted == Submissions(now) && |s'.executed| == |Outcomes(now)|
            && forall k :: 0 <= k < |s'.executed| ==> Outcomes(now)[k] == Outcome(s'.executed[k].result, s'.executed[k].noZc)
  {
    hide LastJob, Submissions, Outcomes, State.Load;
    OneMoreAct(past, a);
    if a.Enqueue? { assert Carries(s, s.pcs[a.t], LastJob(past, a.t)); }
    hide Carries;
  }

  lemma RecordedKept(s: State, a: Act, past: seq<Act>)
    requires Can(s, a) && Owned(s) && Recorded(s, past)
    ensures Recorded(Do(s, a), past + [a])
  {
    HistoryKept(s, a, past);
    var s' := Do(s, a);
    assert s'.pcs.Keys == s.pcs.Keys;
    hide LastJob, Submissions, Outcomes, Carries, Owned, Do, Can;
    forall u | u in s'.pcs ensures Carries(s', s'.pcs[u], LastJob(past + [a], u)) {
      assert Carries(s, s.pcs[u], LastJob(past, u));
      CarriesKept(s, a, past, u);
    }
  }

  /** The history a run has recorded is that of its actions. */
  lemma {:induction false} RunRecords(states: seq<State>, acts: seq<Act>, i: nat)
    requires IsRun(states, acts) && i <= |acts|
    ensures Recorded(states[i], acts[..i])
    decreases i
  {
    hide Owned, Counted, Fifo, NotStranded, Do, Can;
    if i > 0 {
      hide Init, Recorded;
      RunRecords(states, acts, i - 1);
      RunKeepsInv(states, acts, i - 1);
      RecordedKept(states[i - 1], acts[i - 1], acts[..i - 1]);
      assert acts[..i - 1] + [acts[i - 1]] == acts[..i];
    }
  }

  // ---- What that means ----

  function Jobs(s: State, items: seq<nat>): (r: seq<nat>)
    ensures |r| == |items|
  {
    seq(|items|, i requires 0 <= i < |items| => s.Load(items[i]).job)
  }

  function CellJobs(cells: seq<Cell>): (r: seq<nat>)
    ensures |r| == |cells|
  {
    seq(|cells|, i requires 0 <= i < |cells| => cells[i].job)
  }

  /** FIFO and exactly once, against the actions themselves: the jobs delivered to fetchers, then those
      in done, in the worker's hands and in todo are what threads submitted, in todo-lock order; the
      k-th job run is the k-th submitted, with the value and the flag of the k-th run of crypto_run;
      the k-th delivery is that; whoever took the k-th result holds that delivery, and no two threads
      hold the same. */
  lemma FifoExactlyOnce(states: seq<State>, acts: seq<Act>, i: nat)
    requires IsRun(states, acts) && i <= |acts|
    ensures var s, jobs, outcomes := states[i], Submissions(acts[..i]), Outcomes(acts[..i]);
            && CellJobs(s.delivered) + Jobs(s, s.done) + Jobs(s, s.local) + Jobs(s, s.todo) == jobs
            && |s.executed| == |outcomes| <= |jobs|
            && (forall k :: 0 <= k < |outcomes| ==> s.executed[k] == Cell(jobs[k], outcomes[k].noZc, outcomes[k].result))
            && s.delivered <= s.executed
            && (forall t :: t in s.pcs && s.pcs[t].Returning? ==>
                  s.pcs[t].order < |s.delivered| && s.pcs[t].value == s.delivered[s.pcs[t].order])
            && (forall t, u :: t in s.pcs && u in s.pcs && t != u && Turn(s.pcs[t]).Some? ==> Turn(s.pcs[t]) != Turn(s.pcs[u]))
  {
    RunKeepsInv(states, acts, i);
    RunRecords(states, acts, i);
    hide IsRun, Owned, Counted, NotStranded;
    var s := states[i];
    JobsInOrder(s);
    forall t | t in s.pcs && s.pcs[t].Returning? ensures s.pcs[t].order < |s.delivered| && s.pcs[t].value == s.delivered[s.pcs[t].order] {
      ThreadAgrees(s, t);
    }
  }

  lemma JobsInOrder(s: State)
    requires Fifo(s)
    ensures s.fetched <= |s.executed| <= |s.submitted|
    ensures CellJobs(s.delivered) + Jobs(s, s.done) + Jobs(s, s.local) + Jobs(s, s.todo) == s.submitted
  {
    var p := s.Pipeline();
    assert Jobs(s, p) == Jobs(s, s.done) + Jobs(s, s.local) + Jobs(s, s.todo);
    assert s.submitted[s.fetched..] == Jobs(s, p);
    assert s.submitted[..s.fetched] == CellJobs(s.delivered);
  }

  /** No stranded job, in every reachable state: while a job waits in todo the work is pending, about to
      cut the list, or about to be queued; and while one waits in todo or in the worker's hands, some
      step that brings it on is possible. */
  lemma NoStrandedJob(states: seq<State>, acts: seq<Act>, i: nat)
    requires IsRun(states, acts) && i <= |acts|
    ensures var s := states[i];
            && (s.todo != [] ==> s.pending || s.worker.Awake? || exists t :: t in s.pcs && s.pcs[t].Queueing?)
            && (s.todo + s.local != [] ==>
                  || Can(s, WorkStart) || Can(s, Cut) || Can(s, Publish) || Can(s, RunOne(0, true))
                  || exists t :: Can(s, QueueWork(t)))
  {
    RunKeepsInv(states, acts, i);
    hide IsRun, Owned, Counted;
    FetchedExecuted(states[i]);
    hide Fifo, Can;
    if states[i].todo + states[i].local != [] { WorkGoesOn(states[i]); }
  }

  lemma WorkGoesOn(s: State)
    requires NotStranded(s) && Handled(s) <= |s.local| && (!s.worker.Running? ==> s.local == []) && s.todo + s.local != []
    ensures || Can(s, WorkStart) || Can(s, Cut) || Can(s, Publish) || Can(s, RunOne(0, true))
            || exists t :: Can(s, QueueWork(t))
  {
    if s.worker.Asleep? && !s.pending {
      var t :| t in s.pcs && s.pcs[t].Queueing?;
      assert Can(s, QueueWork(t));
    }
  }

  /** Conservation, from sixteen items on: counted items are the existing ones, those being allocated and those whose
      allocation failed; there are never more than 64; and submission is refused, leaving everything as
      it was, exactly when the request has NO_ZC set, or none is free and the limit is reached. */
  lemma ItemsConserved(states: seq<State>, acts: seq<Act>, i: nat, t: nat, job: nat, noZc: bool)
    requires IsRun(states, acts) && i <= |acts|
    ensures var s := states[i];
            && |states[0].free| == 16 && |s.cells| + |GrowingThreads(s)| + s.failed == s.itemcount <= 64
            && Owned(s)
            && (!SubmitAnswer(s, noZc).Ok? <==> noZc || (s.free == [] && s.itemcount == 64))
            && (Can(s, Submit(t, job, noZc)) ==>
                  (Do(s, Submit(t, job, noZc)) == s <==> !SubmitAnswer(s, noZc).Ok?))
  {
    RunKeepsInv(states, acts, i);
    var s := states[i];
    if Can(s, Submit(t, job, noZc)) && SubmitAnswer(s, noZc).Ok? {
      assert Do(s, Submit(t, job, noZc)).pcs[t] != s.pcs[t];
    }
  }

  /** The order in which cryptodev_release frees items, the work having been cancelled. */
  function ReleaseOrder(s: State): seq<nat> { s.free + s.todo + s.done }

  /** With every thread outside and the worker stopped, release frees every item exactly once, and
      the number it frees falls short of the counted items by exactly the failed allocations. */
  lemma ReleaseFreesEachOnce(states: seq<State>, acts: seq<Act>, i: nat)
    requires IsRun(states, acts) && i <= |acts|
    requires states[i].worker.Asleep? && forall t :: t in states[i].pcs ==> states[i].pcs[t].Idle?
    ensures var s := states[i];
            && NoDup(ReleaseOrder(s)) && (forall x :: x in ReleaseOrder(s) <==> x in s.cells)
            && |ReleaseOrder(s)| + s.failed == s.itemcount
  {
    RunKeepsInv(states, acts, i);
    hide IsRun, NotStranded;
    var s := states[i];
    ReleaseOwned(s);
    hide Owned, Fifo, NoDup;
    NoDupSize(ReleaseOrder(s));
    assert Elements(ReleaseOrder(s)) == s.cells.Keys;
    assert GrowingThreads(s) == {};
  }

  lemma ReleaseOwned(s: State)
    requires Owned(s) && s.local == [] && forall t :: t in s.pcs ==> s.pcs[t].Idle?
    ensures NoDup(ReleaseOrder(s)) && forall x :: x in ReleaseOrder(s) <==> x in s.cells
  {
    var r, p := ReleaseOrder(s), s.Pipeline();
    assert p == s.done + s.todo;
    forall j, k | 0 <= j < k < |r| ensures r[j] != r[k] {
      PlaceOf(s, j);
      PlaceOf(s, k);
      assert j < |s.free| ==> r[j] in s.free;
      assert k >= |s.free| ==> r[k] in p;
    }
    forall x | x in s.cells ensures x in r {
      assert !InHand(s, x);
    }
    forall x | x in r ensures x in s.cells {}
  }

  /** Where the j-th item to be freed was. */
  lemma PlaceOf(s: State, j: nat)
    requires s.local == [] && j < |ReleaseOrder(s)|
    ensures var r, p, f := ReleaseOrder(s), s.Pipeline(), |s.free|;
            && |p| == |s.done| + |s.todo|
            && (j < f ==> r[j] == s.free[j])
            && (f <= j < f + |s.todo| ==> r[j] == p[|s.done| + (j - f)])
            && (f + |s.todo| <= j ==> r[j] == p[j - f - |s.todo|])
  {
  }
}
