/**
 The session table and its locks (ioctl.c): a list of sessions under one mutex, a mutex in every
 session, and the three queue mutexes. Each acquisition and each release is a step of its own, so
 threads interleave at every point where they hold or wait for anything. Looking a session up locks
 it before the table is unlocked; finishing one unlinks it, waits for its mutex, and frees it.
 */
module SessionTable {
  import opened Bytes

  datatype Queue = FreeList | TodoList | DoneList

  /** What a thread does, one call after the other. `Touch` is a critical section of the job queue.
      Destroying all sessions is no call: it happens once, when the last call has returned. */
  datatype Call =
    | Create
    | Use(sid: nat)
    | Finish(sid: nat)
    | CopyHash(dstSid: nat, srcSid: nat)
    | Touch(queue: Queue)

  /** What a looked-up session is wanted for; a copy looks up its source and then its destination. */
  datatype Goal = ForUse | ForSource(dstSid: nat) | ForDestination(src: nat, srcSid: nat)

  datatype Pc =
    | Between
    | CreateWait(newSid: nat)
    | CreateIn(newSid: nat)
    | CreateOut
    | FindWait(sid: nat, goal: Goal)
    | FindIn(sid: nat, goal: Goal)
    | FindLock(obj: nat, sid: nat, goal: Goal)
    | FindOut(obj: nat, sid: nat, goal: Goal)
    | MissOut(goal: Goal)
    | Inside(ses: nat, sesSid: nat)
    | InsideBoth(dst: nat, dstSid: nat, src: nat)
    | FinWait(which: Option<nat>)
    | FinIn(which: Option<nat>)
    | FinLock(victim: nat, which: Option<nat>)
    | FinFree(victim: nat, which: Option<nat>)
    | FinOut
    | QueueWait(queue: Queue)
    | QueueIn(queue: Queue)

  datatype Thread = Thread(pc: Pc, program: seq<Call>)

  /** `locks` has an entry for every session that is allocated; `broken` records a step that touched
      one that is not, and `released` that the file is closed. */
  datatype State = State(
    table: Option<nat>, locks: map<nat, Option<nat>>, queues: map<Queue, Option<nat>>,
    list: seq<nat>, sids: map<nat, nat>, threads: map<nat, Thread>, released: bool, broken: bool)

  function SidOf(s: State, o: nat): nat { if o in s.sids then s.sids[o] else 0 }

  /** The first session in the list with this sid. */
  function Lookup(s: State, list: seq<nat>, sid: nat): (r: Option<nat>)
    ensures r.Some? ==> r.value in list && SidOf(s, r.value) == sid
    ensures r.None? ==> forall o :: o in list ==> SidOf(s, o) != sid
  {
    if list == [] then None
    else if SidOf(s, list[0]) == sid then Some(list[0])
    else Lookup(s, list[1..], sid)
  }

  function Without(list: seq<nat>, o: nat): (r: seq<nat>)
    ensures forall x :: x in r <==> x in list && x != o
  {
    if list == [] then []
    else if list[0] == o then Without(list[1..], o)
    else [list[0]] + Without(list[1..], o)
  }

  predicate Free(s: State, o: nat) { o !in s.locks || s.locks[o].None? }

  predicate QueueFree(s: State, q: Queue) { q !in s.queues || s.queues[q].None? }

  predicate Finished(th: Thread) { th.pc.Between? && th.program == [] }

  /** No call is under way or to come, so the last reference to the file can go. */
  predicate AllFinished(s: State) { forall t :: t in s.threads ==> Finished(s.threads[t]) }

  predicate CanStep(s: State, t: nat) {
    t in s.threads &&
    match s.threads[t].pc
    case Between => s.threads[t].program != [] || (!s.released && AllFinished(s))
    case CreateWait(_) => s.table.None?
    case FindWait(_, _) => s.table.None?
    case FinWait(_) => s.table.None?
    case FindLock(o, _, _) => Free(s, o)
    case FinLock(o, _) => Free(s, o)
    case QueueWait(q) => QueueFree(s, q)
    case _ => true
  }

  function Goto(s: State, t: nat, pc: Pc): State
    requires t in s.threads
  {
    s.(threads := s.threads[t := s.threads[t].(pc := pc)])
  }

  function Acquire(s: State, o: nat, t: nat): State {
    if o in s.locks then s.(locks := s.locks[o := Some(t)]) else s.(broken := true)
  }

  function Release(s: State, o: nat): State {
    if o in s.locks then s.(locks := s.locks[o := None]) else s.(broken := true)
  }

  function Destroy(s: State, o: nat): State {
    if o in s.locks then s.(locks := s.locks - {o}) else s.(broken := true)
  }

  function Linked(s: State, o: nat, sid: nat): State {
    s.(list := [o] + s.list, sids := s.sids[o := sid], locks := s.locks[o := None])
  }

  /** Where a lookup that found and locked `o` leads. */
  function Found(o: nat, sid: nat, goal: Goal): Pc {
    match goal
    case ForUse => Inside(o, sid)
    case ForSource(dstSid) => FindWait(dstSid, ForDestination(o, sid))
    case ForDestination(src, _) => InsideBoth(o, sid, src)
  }

  function Begin(call: Call, choice: nat): Pc {
    match call
    case Create => CreateWait(choice)
    case Use(sid) => FindWait(sid, ForUse)
    case Finish(sid) => FinWait(Some(sid))
    case CopyHash(dst, src) => FindWait(src, ForSource(dst))
    case Touch(q) => QueueWait(q)
  }

  /** What thread `t` does in one step: the new locks and table, and where the thread goes next.
      `choice` is its random number, also used to name a new session. */
  function Act(s: State, t: nat, choice: nat): (State, Pc)
    requires CanStep(s, t)
  {
    match s.threads[t].pc
    case Between =>
      if s.threads[t].program != [] then (s, Begin(s.threads[t].program[0], choice))
      else (s.(released := true), FinWait(None))                           // cryptodev_release
    case CreateWait(sid) => (s.(table := Some(t)), CreateIn(sid))
    case CreateIn(sid) =>
      if Lookup(s, s.list, sid).Some? then (s, CreateIn(choice))           // duplicate: draw again
      else if choice in s.locks then (s, CreateIn(sid))                    // not a fresh name: try another
      else (Linked(s, choice, sid), CreateOut)
    case CreateOut => (s.(table := None), Between)
    case FindWait(sid, goal) => (s.(table := Some(t)), FindIn(sid, goal))
    case FindIn(sid, goal) =>
      var r := Lookup(s, s.list, sid);
      (s, if r.Some? then FindLock(r.value, sid, goal) else MissOut(goal))
    case FindLock(o, sid, goal) => (Acquire(s, o, t), FindOut(o, sid, goal))
    case FindOut(o, sid, goal) => (s.(table := None), Found(o, sid, goal))
    case MissOut(goal) =>
      (s.(table := None), if goal.ForDestination? then Inside(goal.src, goal.srcSid) else Between)
    case Inside(o, _) => (Release(s, o), Between)
    case InsideBoth(dst, dstSid, src) => (Release(s, src), Inside(dst, dstSid))
    case FinWait(which) => (s.(table := Some(t)), FinIn(which))
    case FinIn(which) =>
      var r := if which.None? then (if s.list == [] then None else Some(s.list[0])) else Lookup(s, s.list, which.value);
      if r.None? then (s, FinOut) else (s.(list := Without(s.list, r.value)), FinLock(r.value, which))
    case FinLock(o, which) => (Acquire(s, o, t), FinFree(o, which))
    case FinFree(o, which) => (Destroy(s, o), if which.None? then FinIn(None) else FinOut)
    case FinOut => (s.(table := None), Between)
    case QueueWait(q) => (s.(queues := s.queues[q := Some(t)]), QueueIn(q))
    case QueueIn(q) => (s.(queues := s.queues[q := None]), Between)
  }

  function Step(s: State, t: nat, choice: nat): State
    requires CanStep(s, t)
  {
    var th := s.threads[t];
    var (s', pc) := Act(s, t, choice);
    s'.(threads := s.threads[t := Thread(pc, if th.pc.Between? && th.program != [] then th.program[1..] else th.program)])
  }

  /** Any number of threads with any programs, none of them started. */
  ghost predicate Init(s: State) {
    && s.table.None? && s.locks == map[] && s.list == [] && !s.released && !s.broken
    && (forall q :: q in s.queues ==> s.queues[q].None?)
    && (forall t :: t in s.threads ==> s.threads[t].pc.Between?)
  }

  /** Who steps, and with what random choice. */
  datatype Turn = Turn(t: nat, choice: nat)

  ghost predicate IsRun(states: seq<State>, turns: seq<Turn>) {
    && |states| == |turns| + 1 && Init(states[0])
    && forall i :: 0 <= i < |turns| ==>
         CanStep(states[i], turns[i].t) && states[i + 1] == Step(states[i], turns[i].t, turns[i].choice)
  }

  // ---- What each program counter implies ----

  predicate HoldsTable(p: Pc) {
    p.CreateIn? || p.CreateOut? || p.FindIn? || p.FindLock? || p.FindOut? || p.MissOut?
    || p.FinIn? || p.FinLock? || p.FinFree? || p.FinOut?
  }

  function GoalHeld(g: Goal): set<nat> { if g.ForDestination? then {g.src} else {} }

  /** The sessions whose mutex a thread holds. */
  function Held(p: Pc): set<nat> {
    match p
    case FindWait(_, g) => GoalHeld(g)
    case FindIn(_, g) => GoalHeld(g)
    case FindLock(_, _, g) => GoalHeld(g)
    case FindOut(o, _, g) => {o} + GoalHeld(g)
    case MissOut(g) => GoalHeld(g)
    case Inside(o, _) => {o}
    case InsideBoth(dst, _, src) => {dst, src}
    case FinFree(o, _) => {o}
    case _ => {}
  }

  /** The session whose mutex a thread is waiting for. */
  function Awaits(p: Pc): Option<nat> {
    match p
    case FindLock(o, _, _) => Some(o)
    case FinLock(o, _) => Some(o)
    case _ => None
  }

  /** The session a thread has unlinked and is about to free. */
  function Victim(p: Pc): Option<nat> {
    match p
    case FinLock(o, _) => Some(o)
    case FinFree(o, _) => Some(o)
    case _ => None
  }

  /** Sessions a thread has found under a sid really have it. */
  predicate SidsRight(s: State, p: Pc) {
    match p
    case FindLock(o, sid, g) => SidOf(s, o) == sid && GoalSid(s, g)
    case FindOut(o, sid, g) => SidOf(s, o) == sid && GoalSid(s, g)
    case FindWait(_, g) => GoalSid(s, g)
    case FindIn(_, g) => GoalSid(s, g)
    case MissOut(g) => GoalSid(s, g)
    case Inside(o, sid) => SidOf(s, o) == sid
    case InsideBoth(o, sid, _) => SidOf(s, o) == sid
    case FinLock(o, which) => which.Some? ==> SidOf(s, o) == which.value
    case _ => true
  }

  predicate GoalSid(s: State, g: Goal) { g.ForDestination? ==> SidOf(s, g.src) == g.srcSid }

  ghost predicate ThreadOk(s: State, t: nat)
    requires t in s.threads
  {
    var p := s.threads[t].pc;
    && (HoldsTable(p) <==> s.table == Some(t))
    && (forall o :: o in Held(p) ==> o in s.locks && s.locks[o] == Some(t))
    && (Awaits(p).Some? ==> Awaits(p).value in s.locks)
    && (Victim(p).Some? ==> Victim(p).value !in s.list)
    && (p.InsideBoth? ==> p.dst != p.src)
    && (p.FindOut? && p.goal.ForDestination? ==> p.obj != p.goal.src)
    && SidsRight(s, p)
    && (p.QueueIn? ==> p.queue in s.queues && s.queues[p.queue] == Some(t))
  }

  ghost predicate LocksOk(s: State) {
    && (s.table.Some? ==> s.table.value in s.threads)
    && (forall o :: o in s.locks && s.locks[o].Some? ==>
          s.locks[o].value in s.threads && o in Held(s.threads[s.locks[o].value].pc))
    && (forall q :: q in s.queues && s.queues[q].Some? ==>
          s.queues[q].value in s.threads && s.threads[s.queues[q].value].pc == QueueIn(q))
  }

  ghost predicate DistinctSids(s: State, list: seq<nat>) {
    forall i, j :: 0 <= i < j < |list| ==> SidOf(s, list[i]) != SidOf(s, list[j])
  }

  ghost predicate TableOk(s: State) {
    && DistinctSids(s, s.list)
    && (forall o :: o in s.list ==> o in s.locks)
    && !s.broken
  }

  ghost predicate Inv(s: State) {
    LocksOk(s) && TableOk(s) && forall t :: t in s.threads ==> ThreadOk(s, t)
  }

  // ---- One step keeps it ----

  /** Only thread `t` has moved, and it has left alone what other threads hold: the table mutex goes
      from free to `t` or back, session mutexes of others keep their owner, and sessions disappear or
      are relinked only while `t` holds the table. */
  ghost predicate OnlyMoves(s: State, s': State, t: nat) {
    && t in s.threads && s'.threads.Keys == s.threads.Keys
    && (forall u :: u in s.threads && u != t ==> s'.threads[u] == s.threads[u])
    && (s'.table == s.table || (s.table in {None, Some(t)} && s'.table in {None, Some(t)}))
    && (forall o :: o in s.locks && s.locks[o].Some? && s.locks[o] != Some(t) ==> o in s'.locks && s'.locks[o] == s.locks[o])
    && (forall o :: o in s.locks ==> o in s'.locks || s.table == Some(t))
    && (s'.list == s.list || s.table == Some(t))
    && (forall o :: o in s.locks ==> SidOf(s', o) == SidOf(s, o))
    && (forall q :: q in s.queues && s.queues[q].Some? && s.queues[q] != Some(t) ==> q in s'.queues && s'.queues[q] == s.queues[q])
  }

  lemma OtherThreadOk(s: State, s': State, t: nat, u: nat)
    requires OnlyMoves(s, s', t) && u in s.threads && u != t && ThreadOk(s, u)
    ensures ThreadOk(s', u)
  {
    var p := s.threads[u].pc;
    assert s'.threads[u].pc == p;
    assert Awaits(p).Some? || Victim(p).Some? ==> HoldsTable(p);
  }

  /** Every mutex taken in `s'` is one `t` now holds, or has the owner it had. */
  ghost predicate LocksMove(s: State, s': State, t: nat)
    requires t in s'.threads
  {
    && (forall o :: o in s'.locks && s'.locks[o].Some? ==>
          if s'.locks[o] == Some(t) then o in Held(s'.threads[t].pc) else o in s.locks && s.locks[o] == s'.locks[o])
    && (forall q :: q in s'.queues && s'.queues[q].Some? ==>
          if s'.queues[q] == Some(t) then s'.threads[t].pc == QueueIn(q) else q in s.queues && s.queues[q] == s'.queues[q])
  }

  lemma Assemble(s: State, s': State, t: nat)
    requires Inv(s) && OnlyMoves(s, s', t) && LocksMove(s, s', t) && TableOk(s') && ThreadOk(s', t)
    requires s'.table.Some? ==> s'.table.value in s'.threads
    ensures Inv(s')
  {
    forall u | u in s'.threads ensures ThreadOk(s', u) {
      if u != t { OtherThreadOk(s, s', t, u); }
    }
  }

  lemma ThreadIsOk(s: State, t: nat)
    requires Inv(s) && t in s.threads
    ensures ThreadOk(s, t) && TableOk(s) && (s.table.Some? ==> s.table.value in s.threads)
    ensures forall o :: o in s.locks && s.locks[o] == Some(t) ==> o in Held(s.threads[t].pc)
    ensures forall q :: q in s.queues && s.queues[q] == Some(t) ==> s.threads[t].pc == QueueIn(q)
  {}

  /** The list is as it was and its sessions are still allocated. */
  lemma TableStays(s: State, s': State)
    requires TableOk(s) && s'.list == s.list && s'.sids == s.sids && s'.broken == s.broken
    requires forall o :: o in s.list && o in s.locks ==> o in s'.locks
    ensures TableOk(s')
  {
  }

  /** The sessions named by a program counter keep their sids. */
  lemma SidsStay(s: State, s': State, p: Pc)
    requires SidsRight(s, p) && s'.sids == s.sids
    ensures SidsRight(s', p)
  {
  }

  /** All mutexes keep their owners. */
  lemma OwnersStay(s: State, s': State, t: nat)
    requires t in s'.threads && s'.locks == s.locks && s'.queues == s.queues
    requires forall o :: o in s.locks && s.locks[o] == Some(t) ==> o in Held(s'.threads[t].pc)
    requires forall q :: q in s.queues ==> s.queues[q] != Some(t)
    ensures LocksMove(s, s', t)
  {}

  lemma HoldsNothing(s: State, p: Pc)
    requires p.QueueWait? || p.QueueIn? || p.Between? || p.CreateIn? || p.CreateOut? || p.FinIn? || p.FinOut?
    ensures Held(p) == {} && Awaits(p).None? && Victim(p).None? && SidsRight(s, p)
    ensures HoldsTable(p) <==> !p.QueueWait? && !p.QueueIn? && !p.Between?
  {}

  predicate NoQueue(p: Pc) { !p.QueueWait? && !p.QueueIn? }

  /** A move that changes nothing but the thread and perhaps who holds the table mutex. */
  lemma PlainMove(s: State, t: nat, table: Option<nat>, th: Thread, released: bool)
    requires Inv(s) && t in s.threads
    requires table == s.table || (s.table in {None, Some(t)} && table in {None, Some(t)})
    requires HoldsTable(th.pc) <==> table == Some(t)
    requires Held(th.pc) == Held(s.threads[t].pc) && Victim(th.pc).None? && !th.pc.FindOut?
    requires Awaits(th.pc).Some? ==> Awaits(th.pc).value in s.locks
    requires !th.pc.QueueIn? && !s.threads[t].pc.QueueIn?
    requires th.pc.InsideBoth? ==> th.pc.dst != th.pc.src
    requires SidsRight(s, th.pc)
    ensures Inv(s.(table := table, threads := s.threads[t := th], released := released))
  {
    var s' := s.(table := table, threads := s.threads[t := th], released := released);
    ThreadIsOk(s, t);
    SidsStay(s, s', th.pc);
    TableStays(s, s');
    OwnersStay(s, s', t);
    hide Inv, TableOk, LocksOk, LocksMove, SidsRight, Held, Awaits, Victim, HoldsTable;
    PlainFrame(s, t, table, th, released);
    hide OnlyMoves;
    assert ThreadOk(s', t);
    hide ThreadOk;
    Assemble(s, s', t);
  }

  lemma PlainFrame(s: State, t: nat, table: Option<nat>, th: Thread, released: bool)
    requires t in s.threads && (table == s.table || (s.table in {None, Some(t)} && table in {None, Some(t)}))
    ensures OnlyMoves(s, s.(table := table, threads := s.threads[t := th], released := released), t)
  {
  }

  lemma StepBetween(s: State, t: nat, choice: nat)
    requires Inv(s) && CanStep(s, t) && s.threads[t].pc.Between?
    ensures Inv(Step(s, t, choice))
  {
    ThreadIsOk(s, t);
    hide Inv;
    var s' := Step(s, t, choice);
    PlainMove(s, t, s'.table, s'.threads[t], s'.released);
  }

  /** Taking the table mutex. */
  lemma StepTake(s: State, t: nat, choice: nat)
    requires Inv(s) && CanStep(s, t) && (s.threads[t].pc.CreateWait? || s.threads[t].pc.FindWait? || s.threads[t].pc.FinWait?)
    ensures Inv(Step(s, t, choice))
  {
    ThreadIsOk(s, t);
    hide Inv, TableOk, Lookup, Without;
    var s' := Step(s, t, choice);
    assert s' == s.(table := Some(t), threads := s.threads[t := s'.threads[t]]);
    PlainMove(s, t, s'.table, s'.threads[t], s'.released);
  }

  /** Giving the table mutex back. */
  lemma StepDrop(s: State, t: nat, choice: nat)
    requires Inv(s) && CanStep(s, t) && (s.threads[t].pc.CreateOut? || s.threads[t].pc.MissOut? || s.threads[t].pc.FinOut?)
    ensures Inv(Step(s, t, choice))
  {
    ThreadIsOk(s, t);
    hide Inv, TableOk, Lookup, Without;
    var s' := Step(s, t, choice);
    assert s' == s.(table := None, threads := s.threads[t := s'.threads[t]]);
    PlainMove(s, t, s'.table, s'.threads[t], s'.released);
  }

  /** Giving the table mutex back with a session locked. */
  lemma StepFindOut(s: State, t: nat, choice: nat)
    requires Inv(s) && CanStep(s, t) && s.threads[t].pc.FindOut?
    ensures Inv(Step(s, t, choice))
  {
    ThreadIsOk(s, t);
    hide Inv, TableOk, Lookup, Without;
    var s' := Step(s, t, choice);
    assert s' == s.(table := None, threads := s.threads[t := s'.threads[t]]);
    assert Held(s'.threads[t].pc) == Held(s.threads[t].pc);
    PlainMove(s, t, s'.table, s'.threads[t], s'.released);
  }

  /** A lookup under the table mutex: the session found is linked, so it is allocated. */
  lemma StepFindIn(s: State, t: nat, choice: nat)
    requires Inv(s) && CanStep(s, t) && s.threads[t].pc.FindIn?
    ensures Inv(Step(s, t, choice))
  {
    ThreadIsOk(s, t);
    hide Inv, Lookup, Without;
    var s' := Step(s, t, choice);
    assert s' == s.(threads := s.threads[t := s'.threads[t]]);
    assert Held(s'.threads[t].pc) == Held(s.threads[t].pc);
    PlainMove(s, t, s'.table, s'.threads[t], s'.released);
  }

  /** A move that takes or gives back the mutex of session `o`. */
  lemma LockMove(s: State, t: nat, o: nat, owner: Option<nat>, pc: Pc)
    requires Inv(s) && t in s.threads && o in s.locks
    requires s.locks[o] in {None, Some(t)} && owner in {None, Some(t)}
    requires HoldsTable(pc) <==> s.table == Some(t)
    requires Held(pc) == if owner.Some? then Held(s.threads[t].pc) + {o} else Held(s.threads[t].pc) - {o}
    requires Awaits(pc).None? && (Victim(pc).Some? ==> Victim(pc).value !in s.list)
    requires NoQueue(pc) && NoQueue(s.threads[t].pc)
    requires pc.InsideBoth? ==> pc.dst != pc.src
    requires pc.FindOut? && pc.goal.ForDestination? ==> pc.obj != pc.goal.src
    requires SidsRight(s, pc)
    ensures Inv(Goto(s.(locks := s.locks[o := owner]), t, pc))
  {
    hide TableOk, SidsRight, Awaits, Victim, Held, HoldsTable;
    var s' := Goto(s.(locks := s.locks[o := owner]), t, pc);
    ThreadIsOk(s, t);
    hide Inv;
    SidsStay(s, s', pc);
    TableStays(s, s');
    LockOwners(s, t, o, owner, pc);
    LockFrame(s, t, o, owner, pc);
    hide LocksMove, OnlyMoves;
    assert ThreadOk(s', t);
    hide ThreadOk;
    Assemble(s, s', t);
  }

  lemma LockFrame(s: State, t: nat, o: nat, owner: Option<nat>, pc: Pc)
    requires t in s.threads && o in s.locks && s.locks[o] in {None, Some(t)}
    ensures OnlyMoves(s, Goto(s.(locks := s.locks[o := owner]), t, pc), t)
  {}

  lemma LockOwners(s: State, t: nat, o: nat, owner: Option<nat>, pc: Pc)
    requires t in s.threads && o in s.locks && owner in {None, Some(t)}
    requires Held(pc) == if owner.Some? then Held(s.threads[t].pc) + {o} else Held(s.threads[t].pc) - {o}
    requires forall x :: x in s.locks && s.locks[x] == Some(t) ==> x in Held(s.threads[t].pc)
    requires forall q :: q in s.queues ==> s.queues[q] != Some(t)
    ensures LocksMove(s, Goto(s.(locks := s.locks[o := owner]), t, pc), t)
  {
  }

  /** Taking a session's mutex to use the session. */
  lemma StepFindLock(s: State, t: nat, choice: nat)
    requires Inv(s) && CanStep(s, t) && s.threads[t].pc.FindLock?
    ensures Inv(Step(s, t, choice))
  {
    ThreadIsOk(s, t);
    hide Inv, TableOk, Lookup, Without;
    var p := s.threads[t].pc;
    var next := FindOut(p.obj, p.sid, p.goal);
    assert Step(s, t, choice) == Goto(s.(locks := s.locks[p.obj := Some(t)]), t, next);
    assert Held(next) == Held(p) + {p.obj};
    LockMove(s, t, p.obj, Some(t), next);
  }

  /** Taking a session's mutex to free the session. */
  lemma StepFinLock(s: State, t: nat, choice: nat)
    requires Inv(s) && CanStep(s, t) && s.threads[t].pc.FinLock?
    ensures Inv(Step(s, t, choice))
  {
    ThreadIsOk(s, t);
    hide Inv, TableOk, Lookup, Without;
    var p := s.threads[t].pc;
    var next := FinFree(p.victim, p.which);
    assert Step(s, t, choice) == Goto(s.(locks := s.locks[p.victim := Some(t)]), t, next);
    LockMove(s, t, p.victim, Some(t), next);
  }

  /** Putting a session back. */
  lemma StepPut(s: State, t: nat, choice: nat)
    requires Inv(s) && CanStep(s, t) && s.threads[t].pc.Inside?
    ensures Inv(Step(s, t, choice))
  {
    ThreadIsOk(s, t);
    hide Inv, TableOk, Lookup, Without;
    var p := s.threads[t].pc;
    assert Step(s, t, choice) == Goto(s.(locks := s.locks[p.ses := None]), t, Between);
    LockMove(s, t, p.ses, None, Between);
  }

  lemma StepPutSource(s: State, t: nat, choice: nat)
    requires Inv(s) && CanStep(s, t) && s.threads[t].pc.InsideBoth?
    ensures Inv(Step(s, t, choice))
  {
    ThreadIsOk(s, t);
    hide Inv, TableOk, Lookup, Without;
    var p := s.threads[t].pc;
    var next := Inside(p.dst, p.dstSid);
    assert Step(s, t, choice) == Goto(s.(locks := s.locks[p.src := None]), t, next);
    assert Held(next) == Held(p) - {p.src};
    LockMove(s, t, p.src, None, next);
  }

  /** Adding a session whose sid no linked session has. */
  lemma StepCreateIn(s: State, t: nat, choice: nat)
    requires Inv(s) && CanStep(s, t) && s.threads[t].pc.CreateIn?
    ensures Inv(Step(s, t, choice))
  {
    ThreadIsOk(s, t);
    hide Inv, Without;
    var sid := s.threads[t].pc.newSid;
    var s' := Step(s, t, choice);
    if Lookup(s, s.list, sid).Some? {
      assert s' == Goto(s, t, CreateIn(choice));
      PlainMove(s, t, s.table, s'.threads[t], s'.released);
    } else if choice !in s.locks {
      assert s' == Goto(Linked(s, choice, sid), t, CreateOut);
      hide Lookup, Step;
      LinkMove(s, t, choice, sid);
    }
  }

  lemma LinkedTable(s: State, o: nat, sid: nat)
    requires TableOk(s) && o !in s.locks && forall x :: x in s.list ==> SidOf(s, x) != sid
    ensures TableOk(Linked(s, o, sid))
  {
    var s' := Linked(s, o, sid);
    forall i, j | 0 <= i < j < |s'.list| ensures SidOf(s', s'.list[i]) != SidOf(s', s'.list[j]) {
      assert s'.list[j] == s.list[j - 1] && s.list[j - 1] in s.list;
      if i > 0 { assert s'.list[i] == s.list[i - 1] && s.list[i - 1] in s.list; }
    }
  }

  lemma LinkMove(s: State, t: nat, o: nat, sid: nat)
    requires Inv(s) && t in s.threads && s.threads[t].pc.CreateIn? && o !in s.locks
    requires forall x :: x in s.list ==> SidOf(s, x) != sid
    ensures Inv(Goto(Linked(s, o, sid), t, CreateOut))
  {
    var s' := Goto(Linked(s, o, sid), t, CreateOut);
    ThreadIsOk(s, t);
    LinkedTable(s, o, sid);
    HoldsNothing(s, s.threads[t].pc);
    HoldsNothing(s', CreateOut);
    LinkFrame(s, t, o, sid);
    assert TableOk(s');
    hide Inv, TableOk, SidsRight, Held, Victim, Awaits, HoldsTable, OnlyMoves;
    assert ThreadOk(s', t);
    assert LocksMove(s, s', t);
    hide LocksMove, ThreadOk;
    Assemble(s, s', t);
  }

  lemma LinkFrame(s: State, t: nat, o: nat, sid: nat)
    requires t in s.threads && s.table == Some(t) && o !in s.locks
    ensures OnlyMoves(s, Goto(Linked(s, o, sid), t, CreateOut), t)
  {}

  /** Unlinking keeps the remaining sids distinct. */
  lemma {:induction false} WithoutKeepsDistinct(s: State, list: seq<nat>, o: nat)
    requires DistinctSids(s, list)
    ensures DistinctSids(s, Without(list, o))
  {
    if list != [] {
      var tail := list[1..];
      assert forall k :: 0 <= k < |tail| ==> tail[k] == list[k + 1];
      assert DistinctSids(s, tail);
      WithoutKeepsDistinct(s, tail, o);
      var r, r' := Without(tail, o), Without(list, o);
      if list[0] == o {
        assert r' == r;
      } else {
        assert r' == [list[0]] + r;
        forall i, j | 0 <= i < j < |r'| ensures SidOf(s, r'[i]) != SidOf(s, r'[j]) {
          assert r'[j] == r[j - 1] && r[j - 1] in r;
          var k :| 0 <= k < |tail| && tail[k] == r[j - 1];
          assert SidOf(s, list[0]) != SidOf(s, list[k + 1]);
        }
      }
    }
  }

  lemma StepFinIn(s: State, t: nat, choice: nat)
    requires Inv(s) && CanStep(s, t) && s.threads[t].pc.FinIn?
    ensures Inv(Step(s, t, choice))
  {
    ThreadIsOk(s, t);
    hide Inv, Without;
    var s' := Step(s, t, choice);
    var which := s.threads[t].pc.which;
    if s'.threads[t].pc.FinLock? {
      var o := s'.threads[t].pc.victim;
      assert s' == Goto(s.(list := Without(s.list, o)), t, FinLock(o, which));
      hide Step, Lookup;
      UnlinkMove(s, t, o, which);
    } else {
      PlainMove(s, t, s.table, s'.threads[t], s'.released);
    }
  }

  lemma UnlinkMove(s: State, t: nat, o: nat, which: Option<nat>)
    requires Inv(s) && t in s.threads && s.threads[t].pc.FinIn? && o in s.list
    requires which.Some? ==> SidOf(s, o) == which.value
    ensures Inv(Goto(s.(list := Without(s.list, o)), t, FinLock(o, which)))
  {
    var s' := Goto(s.(list := Without(s.list, o)), t, FinLock(o, which));
    ThreadIsOk(s, t);
    HoldsNothing(s, s.threads[t].pc);
    UnlinkedTable(s, s', o);
    UnlinkFrame(s, t, o, which);
    UnlinkThread(s, t, o, which);
    hide Inv, TableOk, Held, OnlyMoves, Without, ThreadOk, SidsRight, LocksMove, HoldsTable, Awaits, Victim;
    OwnersStay(s, s', t);
    Assemble(s, s', t);
  }

  lemma UnlinkThread(s: State, t: nat, o: nat, which: Option<nat>)
    requires t in s.threads && s.table == Some(t) && o in s.locks && (which.Some? ==> SidOf(s, o) == which.value)
    ensures ThreadOk(Goto(s.(list := Without(s.list, o)), t, FinLock(o, which)), t)
    ensures Held(FinLock(o, which)) == {}
  {
  }

  lemma UnlinkedTable(s: State, s': State, o: nat)
    requires TableOk(s) && s' == s.(list := Without(s.list, o), threads := s'.threads)
    ensures TableOk(s')
  {
    WithoutKeepsDistinct(s, s.list, o);
    hide Without;
  }

  lemma UnlinkFrame(s: State, t: nat, o: nat, which: Option<nat>)
    requires t in s.threads && s.table == Some(t)
    ensures OnlyMoves(s, Goto(s.(list := Without(s.list, o)), t, FinLock(o, which)), t)
  {
    hide Without;
  }

  /** Freeing an unlinked session whose mutex is held: nobody else holds it or waits for it. */
  lemma StepFinFree(s: State, t: nat, choice: nat)
    requires Inv(s) && CanStep(s, t) && s.threads[t].pc.FinFree?
    ensures Inv(Step(s, t, choice))
  {
    ThreadIsOk(s, t);
    var p := s.threads[t].pc;
    hide Inv, Lookup, Without, TableOk, SidsRight;
    var next := if p.which.None? then FinIn(None) else FinOut;
    assert Step(s, t, choice) == Goto(s.(locks := s.locks - {p.victim}), t, next);
    hide Step;
    FreeMove(s, t, p.victim, next);
  }

  lemma FreeMove(s: State, t: nat, o: nat, pc: Pc)
    requires Inv(s) && t in s.threads && s.threads[t].pc.FinFree? && s.threads[t].pc.victim == o
    requires pc.FinIn? || pc.FinOut?
    ensures Inv(Goto(s.(locks := s.locks - {o}), t, pc))
  {
    var s' := Goto(s.(locks := s.locks - {o}), t, pc);
    ThreadIsOk(s, t);
    HoldsNothing(s', pc);
    assert Held(s.threads[t].pc) == {o} && o !in s.list && s.table == Some(t);
    hide Inv, SidsRight, Held, Victim, Awaits, HoldsTable;
    TableStays(s, s');
    hide TableOk;
    assert ThreadOk(s', t);
    assert LocksMove(s, s', t);
    assert OnlyMoves(s, s', t);
    hide OnlyMoves, LocksMove, ThreadOk;
    Assemble(s, s', t);
  }

  /** Entering or leaving a critical section of the job queue. */
  lemma StepQueue(s: State, t: nat, choice: nat)
    requires Inv(s) && CanStep(s, t) && (s.threads[t].pc.QueueWait? || s.threads[t].pc.QueueIn?)
    ensures Inv(Step(s, t, choice))
  {
    ThreadIsOk(s, t);
    hide Inv, Lookup, Without, TableOk, LocksOk, SidsRight;
    var p := s.threads[t].pc;
    if p.QueueWait? {
      assert Step(s, t, choice) == Goto(s.(queues := s.queues[p.queue := Some(t)]), t, QueueIn(p.queue));
      hide Step;
      QueueMove(s, t, p.queue, Some(t), QueueIn(p.queue));
    } else {
      assert Step(s, t, choice) == Goto(s.(queues := s.queues[p.queue := None]), t, Between);
      hide Step;
      QueueMove(s, t, p.queue, None, Between);
    }
  }

  lemma QueueMove(s: State, t: nat, q: Queue, owner: Option<nat>, pc: Pc)
    requires Inv(s) && t in s.threads && (s.threads[t].pc.QueueWait? || s.threads[t].pc == QueueIn(q))
    requires q in s.queues ==> s.queues[q] in {None, Some(t)}
    requires if owner == Some(t) then pc == QueueIn(q) else owner.None? && pc.Between?
    ensures Inv(Goto(s.(queues := s.queues[q := owner]), t, pc))
  {
    var s' := Goto(s.(queues := s.queues[q := owner]), t, pc);
    ThreadIsOk(s, t);
    TableStays(s, s');
    QueueFrame(s, t, q, owner, pc);
    HoldsNothing(s', pc);
    HoldsNothing(s, s.threads[t].pc);
    hide Inv, TableOk, LocksOk, OnlyMoves, SidsRight, Held, HoldsTable, Victim, Awaits;
    assert ThreadOk(s', t);
    hide ThreadOk;
    assert LocksMove(s, s', t);
    hide LocksMove;
    Assemble(s, s', t);
  }

  lemma QueueFrame(s: State, t: nat, q: Queue, owner: Option<nat>, pc: Pc)
    requires t in s.threads && (q in s.queues ==> s.queues[q] in {None, Some(t)})
    ensures OnlyMoves(s, Goto(s.(queues := s.queues[q := owner]), t, pc), t)
  {}

  lemma InvKept(s: State, t: nat, choice: nat)
    requires Inv(s) && CanStep(s, t)
    ensures Inv(Step(s, t, choice))
  {
    hide Inv, Step;
    match s.threads[t].pc
    case Between => StepBetween(s, t, choice);
    case CreateWait(_) => StepTake(s, t, choice);
    case CreateIn(_) => StepCreateIn(s, t, choice);
    case CreateOut => StepDrop(s, t, choice);
    case FindWait(_, _) => StepTake(s, t, choice);
    case FindIn(_, _) => StepFindIn(s, t, choice);
    case FindLock(_, _, _) => StepFindLock(s, t, choice);
    case FindOut(_, _, _) => StepFindOut(s, t, choice);
    case MissOut(_) => StepDrop(s, t, choice);
    case Inside(_, _) => StepPut(s, t, choice);
    case InsideBoth(_, _, _) => StepPutSource(s, t, choice);
    case FinWait(_) => StepTake(s, t, choice);
    case FinIn(_) => StepFinIn(s, t, choice);
    case FinLock(_, _) => StepFinLock(s, t, choice);
    case FinFree(_, _) => StepFinFree(s, t, choice);
    case FinOut => StepDrop(s, t, choice);
    case QueueWait(_) => StepQueue(s, t, choice);
    case QueueIn(_) => StepQueue(s, t, choice);
  }

  /** Every reachable state, in every interleaving. */
  lemma {:induction false} RunKeepsInv(states: seq<State>, turns: seq<Turn>, i: nat)
    requires IsRun(states, turns) && i <= |turns|
    ensures Inv(states[i])
    decreases i
  {
    hide Step, CanStep;
    if i == 0 {
      assert LocksOk(states[0]);
      forall t | t in states[0].threads ensures ThreadOk(states[0], t) {}
    } else {
      hide Inv, Init;
      RunKeepsInv(states, turns, i - 1);
      InvKept(states[i - 1], turns[i - 1].t, turns[i - 1].choice);
    }
  }

  // ---- What that means ----

  /** A session returned locked is never freed while it is held or awaited: nothing freed is ever
      touched; every session a thread is inside of, holds or waits for is allocated; at most one
      thread is inside a session, and it is the session it asked for; linked sids are distinct. */
  lemma HeldSessionsAreSafe(states: seq<State>, turns: seq<Turn>, i: nat)
    requires IsRun(states, turns) && i <= |turns|
    ensures var s := states[i];
            && !s.broken
            && (forall t, o :: t in s.threads && (o in Held(s.threads[t].pc) || Awaits(s.threads[t].pc) == Some(o)) ==> o in s.locks)
            && (forall t, u, o :: t in s.threads && u in s.threads && o in Held(s.threads[t].pc) && o in Held(s.threads[u].pc) ==> t == u)
            && (forall t :: t in s.threads && s.threads[t].pc.Inside? ==> SidOf(s, s.threads[t].pc.ses) == s.threads[t].pc.sesSid)
            && DistinctSids(s, s.list)
  {
    RunKeepsInv(states, turns, i);
    hide IsRun;
    var s := states[i];
    forall t, o | t in s.threads && (o in Held(s.threads[t].pc) || Awaits(s.threads[t].pc) == Some(o)) ensures o in s.locks {
      assert ThreadOk(s, t);
    }
    forall t, u, o | t in s.threads && u in s.threads && o in Held(s.threads[t].pc) && o in Held(s.threads[u].pc) ensures t == u {
      assert ThreadOk(s, t) && ThreadOk(s, u);
    }
    forall t | t in s.threads && s.threads[t].pc.Inside? ensures SidOf(s, s.threads[t].pc.ses) == s.threads[t].pc.sesSid {
      assert ThreadOk(s, t);
    }
  }

  /** Finishing a sid unlinks the one session that has it and no other; when there is none the table
      and the locks stay as they are, and the call returns as after a success. */
  lemma FinishRemovesOnlyItsSid(s: State, t: nat, choice: nat)
    requires Inv(s) && CanStep(s, t) && s.threads[t].pc.FinIn? && s.threads[t].pc.which.Some?
    ensures var s', sid := Step(s, t, choice), s.threads[t].pc.which.value;
            && (forall o :: o in s'.list <==> o in s.list && SidOf(s, o) != sid)
            && ((forall o :: o in s.list ==> SidOf(s, o) != sid) ==> s' == Goto(s, t, FinOut))
  {
    ThreadIsOk(s, t);
    hide Inv, Without, Lookup;
    var sid := s.threads[t].pc.which.value;
    var r := Lookup(s, s.list, sid);
    forall o | o in s.list && SidOf(s, o) == sid ensures r == Some(o) {
      var i :| 0 <= i < |s.list| && s.list[i] == o;
      var j :| 0 <= j < |s.list| && s.list[j] == r.value;
    }
  }

  /** Who does not step stays where it is. */
  lemma UnmovedThread(s: State, t: nat, choice: nat, u: nat)
    requires CanStep(s, t) && u != t
    ensures var s' := Step(s, t, choice); u in s'.threads <==> u in s.threads
    ensures var s' := Step(s, t, choice); u in s.threads ==> s'.threads[u] == s.threads[u]
  {
  }
}
