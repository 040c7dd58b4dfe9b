/**
 When the locks of the session table deadlock. Copying a hash state is the one call that holds a
 session while it waits for the table, so a deadlock is always the same knot: whoever has the table
 waits for a session that a copy holds, and the copy waits for the table.
 */
module Deadlock {
  import opened Bytes
  import opened SessionTable

  /** A thread in the second lookup of a copy, holding the session it copies from. */
  predicate CopyingSecond(p: Pc) { (p.FindWait? || p.FindLock?) && p.goal.ForDestination? }

  predicate WaitsForTable(p: Pc) { p.CreateWait? || p.FindWait? || p.FinWait? }

  /** `h` has the table and waits for a session that `u` holds in its second lookup. Both may be one
      thread, which then copies a session onto itself. */
  ghost predicate Knotted(s: State, h: nat, u: nat) {
    && h in s.threads && u in s.threads && s.table == Some(h)
    && Awaits(s.threads[h].pc).Some? && Awaits(s.threads[h].pc).value in Held(s.threads[u].pc)
    && CopyingSecond(s.threads[u].pc)
  }

  /** A knot, and nobody else has anything left to do without the table. */
  ghost predicate Jammed(s: State, h: nat, u: nat) {
    Knotted(s, h, u) && forall v :: v in s.threads && v != h ==> Finished(s.threads[v]) || WaitsForTable(s.threads[v].pc)
  }

  // ---- Deadlock is exactly a jam ----

  /** Whoever has a queue mutex wants nothing else, so it can step. */
  lemma QueueHolderSteps(s: State, t: nat)
    requires Inv(s) && t in s.threads && s.threads[t].pc.QueueWait?
    ensures exists u :: CanStep(s, u)
  {
    var q := s.threads[t].pc.queue;
    if QueueFree(s, q) {
      assert CanStep(s, t);
    } else {
      assert CanStep(s, s.queues[q].value);
    }
  }

  /** A thread that cannot step is finished, waits for the table, or has it and waits for a session. */
  lemma BlockedThread(s: State, t: nat)
    requires Inv(s) && t in s.threads && forall v :: !CanStep(s, v)
    ensures Finished(s.threads[t]) || (s.table.Some? && WaitsForTable(s.threads[t].pc))
         || (s.table == Some(t) && Awaits(s.threads[t].pc).Some?)
  {
    ThreadIsOk(s, t);
    if s.threads[t].pc.QueueWait? { QueueHolderSteps(s, t); }
    assert !CanStep(s, t);
  }

  /** Whoever holds the session that a blocked thread waits for is copying. */
  lemma BlockingThread(s: State, h: nat)
    requires Inv(s) && h in s.threads && s.table == Some(h) && Awaits(s.threads[h].pc).Some? && !CanStep(s, h)
    ensures exists u :: u in s.threads && Awaits(s.threads[h].pc).value in Held(s.threads[u].pc) && (CanStep(s, u) || Knotted(s, h, u))
  {
    ThreadIsOk(s, h);
    var o := Awaits(s.threads[h].pc).value;
    var u := s.locks[o].value;
    assert u in s.threads && o in Held(s.threads[u].pc);
    ThreadIsOk(s, u);
    assert CanStep(s, u) || CopyingSecond(s.threads[u].pc);
  }

  lemma StuckIsJammed(s: State, t: nat)
    requires Inv(s) && t in s.threads && !Finished(s.threads[t]) && forall v :: !CanStep(s, v)
    ensures exists h, u :: Jammed(s, h, u)
  {
    BlockedThread(s, t);
    var h := s.table.value;
    assert h in s.threads;
    ThreadIsOk(s, h);
    BlockedThread(s, h);
    BlockingThread(s, h);
    var u :| Knotted(s, h, u);
    forall v | v in s.threads && v != h ensures Finished(s.threads[v]) || WaitsForTable(s.threads[v].pc) {
      BlockedThread(s, v);
    }
    assert Jammed(s, h, u);
  }

  lemma KnottedIsBlocked(s: State, h: nat, u: nat)
    requires Inv(s) && Knotted(s, h, u)
    ensures !CanStep(s, h) && !CanStep(s, u) && (u != h ==> WaitsForTable(s.threads[u].pc))
  {
    ThreadIsOk(s, h);
    ThreadIsOk(s, u);
  }

  /** Exactly when nobody can step: the holder of the table awaits a session held by a thread in the
      second lookup of a copy, and every other thread is finished or waits for the table. */
  lemma StuckIffJammed(s: State)
    requires Inv(s) && exists t :: t in s.threads && !Finished(s.threads[t])
    ensures (forall v :: !CanStep(s, v)) <==> (exists h, u :: Jammed(s, h, u))
  {
    if forall v :: !CanStep(s, v) {
      var t :| t in s.threads && !Finished(s.threads[t]);
      StuckIsJammed(s, t);
    }
    if h, u :| Jammed(s, h, u) {
      KnottedIsBlocked(s, h, u);
      forall v ensures !CanStep(s, v) {}
    }
  }

  /** A knot is never untied, whatever the other threads do: both threads stay where they are, and the
      table stays locked. */
  lemma {:induction false} KnotNeverUntied(states: seq<State>, turns: seq<Turn>, i: nat, j: nat, h: nat, u: nat)
    requires IsRun(states, turns) && i <= j <= |turns| && Knotted(states[i], h, u)
    ensures Knotted(states[j], h, u) && !CanStep(states[j], h) && !CanStep(states[j], u)
    ensures states[j].threads[h] == states[i].threads[h] && states[j].threads[u] == states[i].threads[u]
    decreases j
  {
    if j > i {
      KnotNeverUntied(states, turns, i, j - 1, h, u);
      UnmovedThread(states[j - 1], turns[j - 1].t, turns[j - 1].choice, h);
      UnmovedThread(states[j - 1], turns[j - 1].t, turns[j - 1].choice, u);
      RunKeepsInv(states, turns, j);
      hide IsRun, Step, CanStep;
      ThreadIsOk(states[j], h);
    }
    RunKeepsInv(states, turns, j);
    hide IsRun, Step, Inv, CanStep;
    KnottedIsBlocked(states[j], h, u);
  }

  // ---- Which programs are safe ----

  /** The call looks for a session with this sid. */
  predicate Names(c: Call, sid: nat) {
    match c
    case Use(x) => x == sid
    case Finish(x) => x == sid
    case CopyHash(d, x) => d == sid || x == sid
    case _ => false
  }

  /** Nobody copies a session onto itself, and nobody copies from a session that another thread's
      program names. */
  ghost predicate Safe(threads: map<nat, Thread>) {
    forall u, d, x :: u in threads && CopyHash(d, x) in threads[u].program ==>
      d != x && forall h, c :: h in threads && h != u && c in threads[h].program ==> !Names(c, x)
  }

  predicate LookupFrom(sid: nat, goal: Goal, program: seq<Call>) {
    match goal
    case ForUse => Use(sid) in program
    case ForSource(d) => CopyHash(d, sid) in program
    case ForDestination(_, x) => CopyHash(sid, x) in program
  }

  predicate FinishFrom(which: Option<nat>, program: seq<Call>) { which.Some? ==> Finish(which.value) in program }

  /** The call that a thread is in is one of its program's. */
  predicate From(p: Pc, program: seq<Call>) {
    match p
    case FindWait(sid, goal) => LookupFrom(sid, goal, program)
    case FindIn(sid, goal) => LookupFrom(sid, goal, program)
    case FindLock(_, sid, goal) => LookupFrom(sid, goal, program)
    case FindOut(_, sid, goal) => LookupFrom(sid, goal, program)
    case FinWait(which) => FinishFrom(which, program)
    case FinIn(which) => FinishFrom(which, program)
    case FinLock(_, which) => FinishFrom(which, program)
    case FinFree(_, which) => FinishFrom(which, program)
    case _ => true
  }

  ghost predicate ThreadFollows(th: Thread, program: seq<Call>) {
    From(th.pc, program) && forall c :: c in th.program ==> c in program
  }

  /** Every thread is somewhere in the program it started with. */
  ghost predicate Follows(s0: State, s: State) {
    && s.threads.Keys == s0.threads.Keys
    && forall t :: t in s.threads ==> ThreadFollows(s.threads[t], s0.threads[t].program)
  }

  lemma MoverFollows(s: State, t: nat, choice: nat, program: seq<Call>)
    requires CanStep(s, t) && ThreadFollows(s.threads[t], program)
    ensures var s' := Step(s, t, choice); t in s'.threads && ThreadFollows(s'.threads[t], program)
  {
    hide Lookup, Without, Acquire, Release, Destroy, Linked;
    if s.threads[t].pc.Between? && s.threads[t].program != [] {
      var p := s.threads[t].program;
      assert p[0] in p && forall c :: c in p[1..] ==> c in p;
    }
  }

  lemma StepFollows(s0: State, s: State, t: nat, choice: nat)
    requires Follows(s0, s) && CanStep(s, t)
    ensures Follows(s0, Step(s, t, choice))
  {
    assert t in s.threads;
    hide ThreadFollows, Step, CanStep;
    var s' := Step(s, t, choice);
    MoverFollows(s, t, choice, s0.threads[t].program);
    forall u ensures u in s'.threads <==> u in s.threads { if u != t { UnmovedThread(s, t, choice, u); } }
    forall u | u in s'.threads ensures ThreadFollows(s'.threads[u], s0.threads[u].program) {
      if u != t { UnmovedThread(s, t, choice, u); }
    }
  }

  lemma {:induction false} RunFollows(states: seq<State>, turns: seq<Turn>, i: nat)
    requires IsRun(states, turns) && i <= |turns|
    ensures Follows(states[0], states[i])
    decreases i
  {
    if i > 0 {
      RunFollows(states, turns, i - 1);
      hide Follows, Step;
      StepFollows(states[0], states[i - 1], turns[i - 1].t, turns[i - 1].choice);
    }
  }

  /** A thread that destroys the sessions of a closed file. */
  predicate Closes(p: Pc) {
    match p
    case FinWait(which) => which.None?
    case FinIn(which) => which.None?
    case FinLock(_, which) => which.None?
    case FinFree(_, which) => which.None?
    case _ => false
  }

  /** When the sessions are destroyed every other thread is finished. */
  ghost predicate ClosesAlone(s: State) {
    forall t :: t in s.threads && Closes(s.threads[t].pc) ==>
      s.released && forall v :: v in s.threads && v != t ==> Finished(s.threads[v])
  }

  lemma ActReleases(s: State, t: nat, choice: nat)
    requires CanStep(s, t)
    ensures Act(s, t, choice).0.released == (s.released || Finished(s.threads[t]))
  {
    hide Lookup, Without, Begin, Found, AllFinished;
  }

  /** The file is closed by the step of a finished thread, and by no other. */
  lemma StepReleases(s: State, t: nat, choice: nat)
    requires CanStep(s, t)
    ensures Step(s, t, choice).released == (s.released || Finished(s.threads[t]))
    ensures s.released ==> !Finished(s.threads[t])
  {
    ActReleases(s, t, choice);
    hide Act, AllFinished;
  }

  /** A step leads to destroying all sessions only from there, or from a file that everybody has left. */
  lemma MoverCloses(s: State, t: nat, choice: nat)
    requires CanStep(s, t) && Closes(Step(s, t, choice).threads[t].pc)
    ensures Closes(s.threads[t].pc) || (Finished(s.threads[t]) && AllFinished(s))
  {
    hide Lookup, Without, Acquire, Release, Destroy, Linked;
  }

  lemma StepClosesAlone(s: State, t: nat, choice: nat)
    requires ClosesAlone(s) && CanStep(s, t)
    ensures ClosesAlone(Step(s, t, choice))
  {
    var s' := Step(s, t, choice);
    StepReleases(s, t, choice);
    if t in s'.threads && Closes(s'.threads[t].pc) { MoverCloses(s, t, choice); }
    assert t in s.threads;
    hide Step, CanStep, Closes;
    forall v ensures v in s'.threads ==> v in s.threads || v == t { if v != t { UnmovedThread(s, t, choice, v); } }
    forall v | v in s'.threads && v != t ensures s'.threads[v] == s.threads[v] { UnmovedThread(s, t, choice, v); }
  }

  lemma {:induction false} RunClosesAlone(states: seq<State>, turns: seq<Turn>, i: nat)
    requires IsRun(states, turns) && i <= |turns|
    ensures ClosesAlone(states[i])
    decreases i
  {
    if i > 0 {
      RunClosesAlone(states, turns, i - 1);
      hide ClosesAlone, Step;
      StepClosesAlone(states[i - 1], turns[i - 1].t, turns[i - 1].choice);
    }
  }

  /** In a reachable knot the other thread is in a copy of its own program, and the table holder's
      program names the session copied from; a single thread copies that session onto itself. */
  lemma KnotNamesSource(s0: State, s: State, h: nat, u: nat) returns (c: Call)
    requires Inv(s) && Follows(s0, s) && ClosesAlone(s) && Knotted(s, h, u)
    ensures h in s0.threads && u in s0.threads
    ensures var q := s.threads[u].pc;
            && CopyHash(q.sid, q.goal.srcSid) in s0.threads[u].program
            && c in s0.threads[h].program && Names(c, q.goal.srcSid)
            && (h == u ==> q.sid == q.goal.srcSid)
  {
    ThreadIsOk(s, h);
    ThreadIsOk(s, u);
    var p, q := s.threads[h].pc, s.threads[u].pc;
    assert ThreadFollows(s.threads[u], s0.threads[u].program);
    assert ThreadFollows(s.threads[h], s0.threads[h].program);
    assert !Closes(p);
    c := if p.FinLock? then Finish(p.which.value)
         else match p.goal
              case ForUse => Use(p.sid)
              case ForSource(d) => CopyHash(d, p.sid)
              case ForDestination(_, x) => CopyHash(p.sid, x);
  }

  lemma KnotIsUnsafe(s0: State, s: State, h: nat, u: nat)
    requires Inv(s) && Follows(s0, s) && ClosesAlone(s) && Knotted(s, h, u)
    ensures !Safe(s0.threads)
  {
    var c := KnotNamesSource(s0, s, h, u);
  }

  /** For any number of threads with safe programs, every reachable state with an unfinished thread
      has a thread that can step. */
  lemma DeadlockFree(states: seq<State>, turns: seq<Turn>, i: nat)
    requires IsRun(states, turns) && i <= |turns| && Safe(states[0].threads)
    requires exists t :: t in states[i].threads && !Finished(states[i].threads[t])
    ensures exists t :: CanStep(states[i], t)
  {
    RunKeepsInv(states, turns, i);
    RunFollows(states, turns, i);
    RunClosesAlone(states, turns, i);
    hide IsRun, Inv, CanStep, Knotted, Safe, Follows, ClosesAlone;
    StuckIffJammed(states[i]);
    if h, u :| Jammed(states[i], h, u) {
      KnotIsUnsafe(states[0], states[i], h, u);
    }
  }

  // ---- Unsafe programs do deadlock ----

  ghost predicate Reachable(s0: State, s: State) {
    exists states, turns :: IsRun(states, turns) && states[0] == s0 && states[|turns|] == s
  }

  lemma ReachableStart(s0: State)
    requires Init(s0)
    ensures Reachable(s0, s0)
  {
    hide Init;
    var states, turns := [s0], [];
    assert IsRun(states, turns) && states[|turns|] == s0;
  }

  lemma Move(s0: State, s: State, t: nat, choice: nat) returns (s': State)
    requires Reachable(s0, s) && CanStep(s, t)
    ensures s' == Step(s, t, choice) && Reachable(s0, s')
  {
    hide CanStep, Step, Init;
    var states, turns :| IsRun(states, turns) && states[0] == s0 && states[|turns|] == s;
    s' := Step(s, t, choice);
    var states', turns' := states + [s'], turns + [Turn(t, choice)];
    assert IsRun(states', turns') && states'[0] == s0 && states'[|turns'|] == s';
  }

  lemma ReachableInv(s0: State, s: State)
    requires Reachable(s0, s)
    ensures Inv(s)
  {
    hide Inv;
    var states, turns :| IsRun(states, turns) && states[0] == s0 && states[|turns|] == s;
    RunKeepsInv(states, turns, |turns|);
  }

  /** `s'` is `s` with thread `t` moved on; whatever else may differ is not a thread. */
  predicate Moved(s: State, s': State, t: nat, pc: Pc, program: seq<Call>) {
    s'.threads == s.threads[t := Thread(pc, program)]
  }

  lemma {:induction false} Above(names: set<nat>) returns (b: nat)
    ensures forall x :: x in names ==> x < b
  {
    if names == {} {
      b := 0;
    } else {
      var x :| x in names;
      b := Above(names - {x});
      assert forall y :: y in names && y != x ==> y in names - {x};
      b := if b <= x then x + 1 else b;
    }
  }

  lemma LookupFinds(s: State, o: nat)
    requires Inv(s) && o in s.list
    ensures Lookup(s, s.list, SidOf(s, o)) == Some(o)
  {
    var r := Lookup(s, s.list, SidOf(s, o));
    hide Lookup;
    var i :| 0 <= i < |s.list| && s.list[i] == o;
    var j :| 0 <= j < |s.list| && s.list[j] == r.value;
  }

  /** The table is free, and so are all the other mutexes. */
  ghost predicate Quiet(s: State) {
    && s.table.None?
    && (forall o :: o in s.locks ==> s.locks[o].None?)
    && (forall q :: q in s.queues ==> s.queues[q].None?)
  }

  /** A thread creates a session with a sid that no linked session has. */
  lemma CreateCall(s0: State, s: State, t: nat, sid: nat) returns (s': State, o: nat)
    requires Reachable(s0, s) && s.table.None? && t in s.threads && s.threads[t].pc.Between?
    requires s.threads[t].program != [] && s.threads[t].program[0] == Create
    requires forall x :: x in s.list ==> SidOf(s, x) != sid
    ensures Reachable(s0, s') && o !in s.locks && Moved(s, s', t, Between, s.threads[t].program[1..])
    ensures s' == Linked(s, o, sid).(threads := s'.threads)
  {
    hide Reachable, Without;
    o := Above(s.locks.Keys);
    var s1 := Move(s0, s, t, sid);
    var s2 := Move(s0, s1, t, 0);
    assert s2.threads[t].pc == CreateIn(sid) && Lookup(s2, s2.list, sid) == Lookup(s, s.list, sid) by { LookupSame(s, s2, s.list, sid); }
    hide Lookup;
    var s3 := Move(s0, s2, t, o);
    assert s3 == Linked(s, o, sid).(table := Some(t), threads := s3.threads);
    s' := Move(s0, s3, t, 0);
    assert s' == Linked(s, o, sid).(threads := s'.threads);
    assert s'.threads == s.threads[t := Thread(Between, s.threads[t].program[1..])];
  }

  lemma {:induction false} LookupSame(s: State, s': State, list: seq<nat>, sid: nat)
    requires s'.sids == s.sids
    ensures Lookup(s', list, sid) == Lookup(s, list, sid)
  {
    if list != [] { LookupSame(s, s', list[1..], sid); }
  }

  /** A lookup under way, with the table free, finds session `o` and stops before locking it. */
  lemma LooksUp(s0: State, s: State, t: nat, o: nat) returns (s': State)
    requires Reachable(s0, s) && s.table.None? && t in s.threads && s.threads[t].pc.FindWait?
    requires o in s.list && SidOf(s, o) == s.threads[t].pc.sid
    ensures Reachable(s0, s')
    ensures var p := s.threads[t].pc; Moved(s, s', t, FindLock(o, p.sid, p.goal), s.threads[t].program)
    ensures s' == s.(table := Some(t), threads := s'.threads)
  {
    hide Reachable, Without, Inv;
    var s1 := Move(s0, s, t, 0);
    ReachableInv(s0, s);
    LookupFinds(s, o);
    LookupSame(s, s1, s.list, SidOf(s, o));
    hide Lookup;
    s' := Move(s0, s1, t, 0);
    var p := s.threads[t].pc;
    assert s'.threads == s.threads[t := Thread(FindLock(o, p.sid, p.goal), s.threads[t].program)];
  }

  /** A copy gets as far as holding its source and wanting the table again. */
  lemma CopiesFrom(s0: State, s: State, t: nat, o: nat) returns (s': State)
    requires Reachable(s0, s) && s.table.None? && t in s.threads && s.threads[t].pc.Between?
    requires s.threads[t].program != [] && s.threads[t].program[0].CopyHash?
    requires o in s.list && SidOf(s, o) == s.threads[t].program[0].srcSid && Free(s, o)
    ensures Reachable(s0, s')
    ensures var c := s.threads[t].program[0];
            Moved(s, s', t, FindWait(c.dstSid, ForDestination(o, c.srcSid)), s.threads[t].program[1..])
    ensures s' == s.(locks := s.locks[o := Some(t)], threads := s'.threads)
  {
    hide Reachable, Without, Lookup, Inv;
    var c := s.threads[t].program[0];
    ReachableInv(s0, s);
    assert o in s.locks by { hide Reachable; LinkedIsAllocated(s, o); }
    var s1 := Move(s0, s, t, 0);
    var s2 := LooksUp(s0, s1, t, o);
    var s3 := Move(s0, s2, t, 0);
    s' := Move(s0, s3, t, 0);
    assert s'.threads == s.threads[t := Thread(FindWait(c.dstSid, ForDestination(o, c.srcSid)), s.threads[t].program[1..])];
  }

  lemma LinkedIsAllocated(s: State, o: nat)
    requires Inv(s) && o in s.list
    ensures o in s.locks
  {
  }

  /** A call that names a session gets as far as wanting its mutex, with the table locked. A copy onto
      the session needs its own source first. */
  lemma Approaches(s0: State, s: State, h: nat, o: nat) returns (s': State)
    requires Reachable(s0, s) && s.table.None? && h in s.threads && s.threads[h].pc.Between?
    requires s.list != [] && s.list[0] == o && s.threads[h].program != []
    requires var c := s.threads[h].program[0];
             Names(c, SidOf(s, o)) && (c.CopyHash? && c.srcSid != SidOf(s, o) ==>
               exists y :: y in s.list && SidOf(s, y) == c.srcSid && Free(s, y))
    ensures Reachable(s0, s') && s'.table == Some(h)
    ensures s'.threads.Keys == s.threads.Keys && Awaits(s'.threads[h].pc) == Some(o)
    ensures forall v :: v != h && v in s.threads ==> s'.threads[v] == s.threads[v]
  {
    hide Reachable, Without, Inv, Lookup, Step, CanStep;
    var c := s.threads[h].program[0];
    if c.Use? || (c.CopyHash? && c.srcSid == SidOf(s, o)) {
      s' := LookupApproaches(s0, s, h, o);
    } else if c.CopyHash? {
      var y :| y in s.list && SidOf(s, y) == c.srcSid && Free(s, y);
      var s1 := CopiesFrom(s0, s, h, y);
      s' := LooksUp(s0, s1, h, o);
    } else {
      s' := FinishApproaches(s0, s, h, o);
    }
  }

  lemma LookupApproaches(s0: State, s: State, h: nat, o: nat) returns (s': State)
    requires Reachable(s0, s) && s.table.None? && h in s.threads && s.threads[h].pc.Between?
    requires o in s.list && s.threads[h].program != []
    requires var c := s.threads[h].program[0]; (c.Use? && c.sid == SidOf(s, o)) || (c.CopyHash? && c.srcSid == SidOf(s, o))
    ensures Reachable(s0, s') && s'.table == Some(h)
    ensures s'.threads.Keys == s.threads.Keys && Awaits(s'.threads[h].pc) == Some(o)
    ensures forall v :: v != h && v in s.threads ==> s'.threads[v] == s.threads[v]
  {
    hide Reachable, Without, Lookup, Inv;
    var s1 := Move(s0, s, h, 0);
    hide Step, CanStep;
    s' := LooksUp(s0, s1, h, o);
  }

  /** A call that destroys a session starts by locking the table. */
  lemma StartsFinish(s0: State, s: State, t: nat, sid: nat) returns (s': State)
    requires Reachable(s0, s) && s.table.None? && t in s.threads && s.threads[t].pc.Between?
    requires s.threads[t].program != []
    requires s.threads[t].program[0] == Finish(sid)
    ensures Reachable(s0, s')
    ensures s' == s.(table := Some(t), threads := s.threads[t := Thread(FinIn(Some(sid)), s.threads[t].program[1..])])
  {
    hide Reachable, Without, Lookup;
    var s1 := Move(s0, s, t, 0);
    s' := Move(s0, s1, t, 0);
    assert s'.threads == s.threads[t := Thread(FinIn(Some(sid)), s.threads[t].program[1..])];
  }

  lemma FinishApproaches(s0: State, s: State, h: nat, o: nat) returns (s': State)
    requires Reachable(s0, s) && s.table.None? && h in s.threads && s.threads[h].pc.Between?
    requires s.list != [] && s.list[0] == o && s.threads[h].program != []
    requires s.threads[h].program[0] == Finish(SidOf(s, o))
    ensures Reachable(s0, s') && s'.table == Some(h)
    ensures s'.threads.Keys == s.threads.Keys && Awaits(s'.threads[h].pc) == Some(o)
    ensures forall v :: v != h && v in s.threads ==> s'.threads[v] == s.threads[v]
  {
    hide Reachable, Without, Inv;
    var s1 := StartsFinish(s0, s, h, SidOf(s, o));
    s' := Move(s0, s1, h, 0);
  }

  // ---- Threads that run alone ----

  /** No linked session has a sid below `b`. */
  ghost predicate Unnamed(s: State, b: nat) { forall o :: o in s.list ==> SidOf(s, o) >= b }

  /** The sids that a call names are below `b`. */
  predicate Below(c: Call, b: nat) {
    match c
    case Use(x) => x < b
    case Finish(x) => x < b
    case CopyHash(d, x) => d < b && x < b
    case _ => true
  }

  /** Where a call by thread `t`, alone, leads: to its next call, with nothing held. */
  ghost predicate Ran(s: State, s': State, t: nat, program: seq<Call>, b: nat) {
    Moved(s, s', t, Between, program) && Quiet(s') && Unnamed(s', b)
  }

  /** A call that looks a session up starts by locking the table. */
  lemma StartsLookup(s0: State, s: State, t: nat, sid: nat, goal: Goal) returns (s': State)
    requires Reachable(s0, s) && s.table.None? && t in s.threads && s.threads[t].pc.Between?
    requires s.threads[t].program != [] && Begin(s.threads[t].program[0], 0) == FindWait(sid, goal)
    ensures Reachable(s0, s')
    ensures s' == s.(table := Some(t), threads := s.threads[t := Thread(FindIn(sid, goal), s.threads[t].program[1..])])
  {
    hide Reachable, Without, Lookup, Begin, Found;
    var s1 := Move(s0, s, t, 0);
    s' := Move(s0, s1, t, 0);
    assert s'.threads == s.threads[t := Thread(FindIn(sid, goal), s.threads[t].program[1..])];
  }

  /** A call that looks for a session that does not exist. */
  lemma MissesAlone(s0: State, s: State, t: nat, b: nat) returns (s': State)
    requires Reachable(s0, s) && Quiet(s) && Unnamed(s, b) && t in s.threads && s.threads[t].pc.Between?
    requires s.threads[t].program != []
    requires var c := s.threads[t].program[0]; Below(c, b) && (c.Use? || c.CopyHash?)
    ensures Reachable(s0, s') && Ran(s, s', t, s.threads[t].program[1..], b)
  {
    hide Reachable, Step, CanStep;
    var c := s.threads[t].program[0];
    var sid, goal := if c.Use? then c.sid else c.srcSid, if c.Use? then ForUse else ForSource(c.dstSid);
    var s1 := StartsLookup(s0, s, t, sid, goal);
    assert Lookup(s1, s1.list, sid).None?;
    s' := ReturnsEmpty(s0, s1, t);
    assert s'.threads == s.threads[t := Thread(Between, s.threads[t].program[1..])];
  }

  lemma ReturnsEmpty(s0: State, s: State, t: nat) returns (s': State)
    requires Reachable(s0, s) && t in s.threads && s.threads[t].pc.FindIn? && !s.threads[t].pc.goal.ForDestination?
    requires Lookup(s, s.list, s.threads[t].pc.sid).None?
    ensures Reachable(s0, s') && s' == s.(table := None, threads := s.threads[t := Thread(Between, s.threads[t].program)])
  {
    hide Reachable, Without, Lookup, Begin, Found;
    var s1 := Move(s0, s, t, 0);
    s' := Move(s0, s1, t, 0);
    assert s'.threads == s.threads[t := Thread(Between, s.threads[t].program)];
  }

  /** Finishing a session that does not exist. */
  lemma FinishesAlone(s0: State, s: State, t: nat, b: nat) returns (s': State)
    requires Reachable(s0, s) && Quiet(s) && Unnamed(s, b) && t in s.threads && s.threads[t].pc.Between?
    requires s.threads[t].program != []
    requires var c := s.threads[t].program[0]; Below(c, b) && c.Finish?
    ensures Reachable(s0, s') && Ran(s, s', t, s.threads[t].program[1..], b)
  {
    hide Reachable, Without;
    var c := s.threads[t].program[0];
    var s1 := StartsFinish(s0, s, t, c.sid);
    assert Lookup(s1, s1.list, c.sid).None?;
    hide Lookup;
    var s2 := Move(s0, s1, t, 0);
    s' := Move(s0, s2, t, 0);
    assert s'.threads == s.threads[t := Thread(Between, s.threads[t].program[1..])];
  }

  lemma StartsTouch(s0: State, s: State, t: nat) returns (s': State)
    requires Reachable(s0, s) && Quiet(s) && t in s.threads && s.threads[t].pc.Between?
    requires s.threads[t].program != [] && s.threads[t].program[0].Touch?
    ensures Reachable(s0, s')
    ensures var q := s.threads[t].program[0].queue;
            s' == s.(queues := s.queues[q := Some(t)], threads := s.threads[t := Thread(QueueIn(q), s.threads[t].program[1..])])
  {
    hide Reachable, Without, Lookup;
    var s1 := Move(s0, s, t, 0);
    s' := Move(s0, s1, t, 0);
    assert s'.threads == s.threads[t := Thread(QueueIn(s.threads[t].program[0].queue), s.threads[t].program[1..])];
  }

  /** A critical section of the job queue. */
  lemma TouchesAlone(s0: State, s: State, t: nat, b: nat) returns (s': State)
    requires Reachable(s0, s) && Quiet(s) && Unnamed(s, b) && t in s.threads && s.threads[t].pc.Between?
    requires s.threads[t].program != [] && s.threads[t].program[0].Touch?
    ensures Reachable(s0, s') && Ran(s, s', t, s.threads[t].program[1..], b)
  {
    hide Reachable, Without, Lookup;
    var s1 := StartsTouch(s0, s, t);
    s' := Move(s0, s1, t, 0);
    assert s'.threads == s.threads[t := Thread(Between, s.threads[t].program[1..])];
  }

  /** Any call whose sids are all below those that exist. */
  lemma CallsAlone(s0: State, s: State, t: nat, b: nat) returns (s': State)
    requires Reachable(s0, s) && Quiet(s) && Unnamed(s, b) && t in s.threads && s.threads[t].pc.Between?
    requires s.threads[t].program != [] && Below(s.threads[t].program[0], b)
    ensures Reachable(s0, s') && Ran(s, s', t, s.threads[t].program[1..], b)
  {
    match s.threads[t].program[0]
    case Create => hide *; s' := CreatesAlone(s0, s, t, b);
    case Touch(q) => hide *; s' := TouchesAlone(s0, s, t, b);
    case Finish(_) => hide *; s' := FinishesAlone(s0, s, t, b);
    case _ => hide *; s' := MissesAlone(s0, s, t, b);
  }

  lemma FreshSid(s: State, b: nat) returns (sid: nat)
    ensures b <= sid && forall o :: o in s.list ==> SidOf(s, o) != sid
  {
    var names := set o | o in s.list :: SidOf(s, o);
    sid := Above(names);
    forall o | o in s.list ensures SidOf(s, o) in names {}
    assert forall o :: o in s.list ==> SidOf(s, o) < sid;
    if sid < b { sid := b; }
  }

  lemma CreatesAlone(s0: State, s: State, t: nat, b: nat) returns (s': State)
    requires Reachable(s0, s) && Quiet(s) && Unnamed(s, b) && t in s.threads && s.threads[t].pc.Between?
    requires s.threads[t].program != [] && s.threads[t].program[0] == Create
    ensures Reachable(s0, s') && Ran(s, s', t, s.threads[t].program[1..], b)
  {
    hide Reachable, Inv;
    var sid := FreshSid(s, b);
    var o;
    s', o := CreateCall(s0, s, t, sid);
    ReachableInv(s0, s);
    forall x | x in s'.list ensures SidOf(s', x) >= b {
      if x != o { LinkedIsAllocated(s, x); }
    }
  }

  /** The first `n` calls of a program. */
  lemma {:induction false} RunsAlone(s0: State, s: State, t: nat, n: nat, b: nat) returns (s': State)
    requires Reachable(s0, s) && Quiet(s) && Unnamed(s, b) && t in s.threads && s.threads[t].pc.Between?
    requires n <= |s.threads[t].program| && forall i :: 0 <= i < n ==> Below(s.threads[t].program[i], b)
    ensures Reachable(s0, s') && Ran(s, s', t, s.threads[t].program[n..], b)
    decreases n
  {
    hide Reachable, Quiet, Unnamed, Below;
    var program := s.threads[t].program;
    if n == 0 {
      s' := s;
      assert s.threads[t := Thread(Between, program[0..])] == s.threads;
    } else {
      var s1 := CallsAlone(s0, s, t, b);
      assert program[1..][n - 1..] == program[n..];
      s' := RunsAlone(s0, s1, t, n - 1, b);
      assert s'.threads == s.threads[t := Thread(Between, program[n..])];
    }
  }

  lemma {:induction false} BelowAll(program: seq<Call>) returns (b: nat)
    ensures forall i :: 0 <= i < |program| ==> Below(program[i], b)
  {
    if program == [] {
      b := 0;
    } else {
      var b' := BelowAll(program[1..]);
      var names := match program[0]
        case Use(x) => {x}
        case Finish(x) => {x}
        case CopyHash(d, x) => {d, x}
        case _ => {};
      b := Above(names + {b'});
      assert b' in names + {b'};
      forall i | 0 <= i < |program| ensures Below(program[i], b) {
        if i > 0 { assert program[i] == program[1..][i - 1]; }
      }
    }
  }

  /** A copy of session `o` onto itself ties the knot alone. */
  lemma SelfCopyKnots(s0: State, s: State, u: nat, o: nat) returns (s': State)
    requires Reachable(s0, s) && s.table.None? && u in s.threads && s.threads[u].pc.Between?
    requires s.threads[u].program != [] && s.threads[u].program[0] == CopyHash(SidOf(s, o), SidOf(s, o))
    requires o in s.list && Free(s, o)
    ensures Reachable(s0, s') && Knotted(s', u, u)
  {
    hide Reachable;
    var s1 := CopiesFrom(s0, s, u, o);
    s' := LooksUp(s0, s1, u, o);
  }

  /** A copy from session `o` and another thread that names it tie it together. */
  lemma CopyAndNameKnot(s0: State, s: State, u: nat, h: nat, o: nat) returns (s': State)
    requires Reachable(s0, s) && s.table.None? && h != u
    requires h in s.threads && s.threads[h].pc.Between? && s.threads[h].program != []
    requires u in s.threads && s.threads[u].pc.Between? && s.threads[u].program != []
    requires s.list != [] && s.list[0] == o && Free(s, o)
    requires var c := s.threads[u].program[0]; c.CopyHash? && c.srcSid == SidOf(s, o)
    requires var c := s.threads[h].program[0];
             Names(c, SidOf(s, o)) && (c.CopyHash? && c.srcSid != SidOf(s, o) ==>
               exists y :: y in s.list && y != o && SidOf(s, y) == c.srcSid && Free(s, y))
    ensures Reachable(s0, s') && Knotted(s', h, u) && s'.threads.Keys == s.threads.Keys
  {
    hide Reachable, Names;
    var s1 := CopiesFrom(s0, s, u, o);
    assert forall y :: SidOf(s1, y) == SidOf(s, y);
    s' := Approaches(s0, s1, h, o);
    assert s'.threads[u] == s1.threads[u];
  }

  /** A thread about to create makes session `x` when there is none; it is then the first in the list. */
  lemma CreatesNamed(s0: State, s: State, c: nat, x: nat) returns (s': State, o: nat)
    requires Reachable(s0, s) && Quiet(s) && c in s.threads && s.threads[c].pc.Between?
    requires s.threads[c].program != [] && s.threads[c].program[0] == Create
    requires forall y :: y in s.list ==> SidOf(s, y) != x
    ensures Reachable(s0, s') && Quiet(s') && Moved(s, s', c, Between, s.threads[c].program[1..])
    ensures s'.list == [o] + s.list && o !in s.list && SidOf(s', o) == x
    ensures forall y :: y in s.list ==> SidOf(s', y) == SidOf(s, y)
    ensures forall y :: y in s'.list ==> Free(s', y)
  {
    hide Reachable;
    s', o := CreateCall(s0, s, c, x);
    ReachableInv(s0, s);
    forall y | y in s.list ensures y != o { LinkedIsAllocated(s, y); }
  }

  ghost predicate CanKnot(s0: State) { exists s, h, u :: Reachable(s0, s) && Knotted(s, h, u) }

  /** Threads `u` and `h`, or one thread, have run up to the calls that matter, and thread `c` has not
      started: no session has a sid that these calls name. */
  lemma Prepared(s0: State, c: nat, u: nat, i: nat, h: nat, j: nat) returns (s: State)
    requires Init(s0) && c in s0.threads && c != u && c != h && (h == u ==> j == i)
    requires u in s0.threads && i < |s0.threads[u].program| && h in s0.threads && j < |s0.threads[h].program|
    ensures Reachable(s0, s) && Quiet(s)
    ensures u in s.threads && s.threads[u] == Thread(Between, s0.threads[u].program[i..])
    ensures h in s.threads && s.threads[h] == Thread(Between, s0.threads[h].program[j..])
    ensures c in s.threads && s.threads[c] == Thread(Between, s0.threads[c].program)
    ensures forall y :: y in s.list ==> !Names(s0.threads[u].program[i], SidOf(s, y)) && !Names(s0.threads[h].program[j], SidOf(s, y))
  {
    var p, q := s0.threads[u].program, s0.threads[h].program;
    var b := BelowBoth(p, q);
    ReachableStart(s0);
    assert s0.threads[u].pc.Between? && s0.threads[h].pc.Between? && s0.threads[c].pc.Between? && Unnamed(s0, b) && Quiet(s0);
    hide Reachable, Init, Quiet, Below, Names;
    s := RunsAlone(s0, s0, u, i, b);
    if h != u { s := RunsAlone(s0, s, h, j, b); }
    forall y | y in s.list ensures !Names(p[i], SidOf(s, y)) && !Names(q[j], SidOf(s, y)) {
      BelowIsNotLooked(p[i], b, SidOf(s, y));
      BelowIsNotLooked(q[j], b, SidOf(s, y));
    }
  }

  lemma BelowBoth(p: seq<Call>, q: seq<Call>) returns (b: nat)
    ensures forall i :: 0 <= i < |p| ==> Below(p[i], b)
    ensures forall i :: 0 <= i < |q| ==> Below(q[i], b)
  {
    hide Below;
    b := BelowAll(p + q);
    forall i | 0 <= i < |p| ensures Below(p[i], b) { assert p[i] == (p + q)[i]; }
    forall i | 0 <= i < |q| ensures Below(q[i], b) { assert q[i] == (p + q)[|p| + i]; }
  }

  lemma BelowIsNotLooked(c: Call, b: nat, sid: nat)
    requires Below(c, b) && b <= sid
    ensures !Names(c, sid)
  {
  }

  lemma SelfCopyReaches(s0: State, c: nat, u: nat, i: nat)
    requires Init(s0) && c in s0.threads && c != u && CreatesTwo(s0.threads[c].program)
    requires u in s0.threads && i < |s0.threads[u].program|
    requires var a := s0.threads[u].program[i]; a.CopyHash? && a.dstSid == a.srcSid
    ensures CanKnot(s0)
  {
    hide Reachable, Init, Knotted, Quiet;
    var s1 := Prepared(s0, c, u, i, u, i);
    var a := s0.threads[u].program[i];
    var s2, o := CreatesNamed(s0, s1, c, a.srcSid);
    assert s2.threads[u] == s1.threads[u];
    QuietTable(s2);
    var s3 := SelfCopyKnots(s0, s2, u, o);
  }

  lemma QuietTable(s: State)
    requires Quiet(s)
    ensures s.table.None?
  {
  }

  lemma NamedCopyReaches(s0: State, c: nat, u: nat, i: nat, h: nat, j: nat)
    requires Init(s0) && c in s0.threads && c != u && c != h && CreatesTwo(s0.threads[c].program)
    requires u in s0.threads && i < |s0.threads[u].program| && h in s0.threads && j < |s0.threads[h].program| && h != u
    requires var a := s0.threads[u].program[i]; a.CopyHash? && Names(s0.threads[h].program[j], a.srcSid)
    ensures CanKnot(s0)
  {
    var a, n := s0.threads[u].program[i], s0.threads[h].program[j];
    hide Reachable, Init, Knotted, Quiet;
    var s1 := Prepared(s0, c, u, i, h, j);
    var s2, y := s1, 0;
    if n.CopyHash? && n.srcSid != a.srcSid {
      s2, y := CreatesNamed(s0, s1, c, n.srcSid);
    }
    var s3, o := CreatesNamed(s0, s2, c, a.srcSid);
    assert s3.threads[u] == s1.threads[u] && s3.threads[h] == s1.threads[h];
    if n.CopyHash? && n.srcSid != a.srcSid {
      assert y in s3.list && y != o && SidOf(s3, y) == n.srcSid && Free(s3, y);
    }
    QuietTable(s3);
    var s4 := CopyAndNameKnot(s0, s3, u, h, o);
  }

  /** The company: a thread that starts by creating two sessions. */
  predicate CreatesTwo(program: seq<Call>) { |program| >= 2 && program[0] == program[1] == Create }

  /** Beside such a thread, others whose programs are unsafe can reach a knot, whatever it does later. */
  lemma UnsafeKnots(s0: State, c: nat)
    requires Init(s0) && c in s0.threads && CreatesTwo(s0.threads[c].program) && !Safe(s0.threads - {c})
    ensures CanKnot(s0)
  {
    var others := s0.threads - {c};
    var u, d, x :| u in others && CopyHash(d, x) in others[u].program &&
      !(d != x && forall h, n :: h in others && h != u && n in others[h].program ==> !Names(n, x));
    var i :| 0 <= i < |s0.threads[u].program| && s0.threads[u].program[i] == CopyHash(d, x);
    if d == x {
      SelfCopyReaches(s0, c, u, i);
    } else {
      var h, n :| h in others && h != u && n in others[h].program && Names(n, x);
      var j :| 0 <= j < |s0.threads[h].program| && s0.threads[h].program[j] == n;
      NamedCopyReaches(s0, c, u, i, h, j);
    }
  }

  /** Beside a thread that starts by creating two sessions and never names one, threads can reach a knot
      exactly when their programs are not safe. */
  lemma KnotsIffUnsafe(s0: State, c: nat)
    requires Init(s0) && c in s0.threads && CreatesTwo(s0.threads[c].program)
    requires forall n :: n in s0.threads[c].program ==> n.Create? || n.Touch?
    ensures CanKnot(s0) <==> !Safe(s0.threads)
  {
    hide Init;
    if CanKnot(s0) {
      var s, h, u :| Reachable(s0, s) && Knotted(s, h, u);
      var states, turns :| IsRun(states, turns) && states[0] == s0 && states[|turns|] == s;
      RunKeepsInv(states, turns, |turns|);
      RunFollows(states, turns, |turns|);
      RunClosesAlone(states, turns, |turns|);
      KnotIsUnsafe(s0, s, h, u);
    }
    if !Safe(s0.threads) {
      SilentCompany(s0.threads, c);
      UnsafeKnots(s0, c);
    }
  }

  /** A thread that names no session neither breaks the rule nor helps others break it. */
  lemma SilentCompany(threads: map<nat, Thread>, c: nat)
    requires c in threads && forall n :: n in threads[c].program ==> n.Create? || n.Touch?
    ensures Safe(threads) <==> Safe(threads - {c})
  {
    var others := threads - {c};
    if Safe(others) {
      forall u, d, x | u in threads && CopyHash(d, x) in threads[u].program
        ensures d != x && forall h, n :: h in threads && h != u && n in threads[h].program ==> !Names(n, x)
      {
        assert u in others && CopyHash(d, x) in others[u].program;
        forall h, n | h in threads && h != u && n in threads[h].program ensures !Names(n, x) {
          if h != c { assert h in others && n in others[h].program; }
        }
      }
    }
    if Safe(threads) {
      forall u, d, x | u in others && CopyHash(d, x) in others[u].program
        ensures d != x && forall h, n :: h in others && h != u && n in others[h].program ==> !Names(n, x)
      {
        assert u in threads && CopyHash(d, x) in threads[u].program;
      }
    }
  }

  // ---- Two deadlocks ----

  function Fresh(threads: map<nat, Thread>): State { State(None, map[], map[], [], map[], threads, false, false) }

  /** One thread: it creates session 5 and copies its hash state onto itself. */
  lemma SelfCopyDeadlocks() returns (s0: State, s: State)
    ensures s0.threads == map[0 := Thread(Between, [Create, CopyHash(5, 5)])]
    ensures Reachable(s0, s) && 0 in s.threads && !Finished(s.threads[0]) && forall t :: !CanStep(s, t)
  {
    s0 := Fresh(map[0 := Thread(Between, [Create, CopyHash(5, 5)])]);
    ReachableStart(s0);
    hide Reachable, Init;
    var s1, o := CreatesNamed(s0, s0, 0, 5);
    var s2 := CopiesFrom(s0, s1, 0, o);
    s := LooksUp(s0, s2, 0, o);
    assert Jammed(s, 0, 0);
    ReachableInv(s0, s);
    hide Inv, CanStep;
    StuckIffJammed(s);
  }

  /** Two threads and no copy onto itself: thread 0 creates session 5 and copies from it onto a session
      6 that need not exist, while thread 1 looks session 5 up. */
  lemma CopyAndUseDeadlock() returns (s0: State, s: State)
    ensures s0.threads == map[0 := Thread(Between, [Create, CopyHash(6, 5)]), 1 := Thread(Between, [Use(5)])]
    ensures Reachable(s0, s) && 0 in s.threads && !Finished(s.threads[0]) && forall t :: !CanStep(s, t)
  {
    s0 := Fresh(map[0 := Thread(Between, [Create, CopyHash(6, 5)]), 1 := Thread(Between, [Use(5)])]);
    ReachableStart(s0);
    hide Reachable, Init;
    var s1, o := CreatesNamed(s0, s0, 0, 5);
    assert s1.threads[0] == Thread(Between, [CopyHash(6, 5)]) && s1.threads[1] == s0.threads[1];
    s := CopyThenNamed(s0, s1, 0, 1, o);
  }

  /** Two threads tie the knot with their last calls, and there are no others: nobody can step. */
  lemma CopyThenNamed(s0: State, s: State, u: nat, h: nat, o: nat) returns (s': State)
    requires Reachable(s0, s) && Quiet(s) && h != u && s.threads.Keys == {u, h} && s.list == [o] && Free(s, o)
    requires s.threads[u] == Thread(Between, [CopyHash(SidOf(s, o) + 1, SidOf(s, o))])
    requires s.threads[h] == Thread(Between, [Use(SidOf(s, o))])
    ensures Reachable(s0, s') && u in s'.threads && !Finished(s'.threads[u]) && forall t :: !CanStep(s', t)
  {
    hide Reachable;
    s' := CopyAndNameKnot(s0, s, u, h, o);
    ReachableInv(s0, s');
    KnottedIsBlocked(s', h, u);
    hide Inv, CanStep;
    assert Jammed(s', h, u);
    StuckIffJammed(s');
  }
}
