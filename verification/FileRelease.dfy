/**
 Closing the file (ioctl.c): once every call has returned, the release walks the session list and frees
 what is linked. Nothing allocated is left when it is done, in every run, and it does get done.
 */
module FileRelease {
  import opened Bytes
  import opened SessionTable
  import opened Deadlock

  // ---- Where every allocated session is ----

  ghost predicate BeingFreed(s: State, o: nat) { exists t :: t in s.threads && Victim(s.threads[t].pc) == Some(o) }

  /** Every allocated session is linked, or a thread has unlinked it and is about to free it. */
  ghost predicate Accounted(s: State) { forall o :: o in s.locks ==> o in s.list || BeingFreed(s, o) }

  /** A session that thread `u` is about to free stays that way while others step. */
  lemma StillBeingFreed(s: State, t: nat, choice: nat, o: nat)
    requires CanStep(s, t) && BeingFreed(s, o)
    requires Victim(s.threads[t].pc) != Some(o) || Victim(Step(s, t, choice).threads[t].pc) == Some(o)
    ensures BeingFreed(Step(s, t, choice), o)
  {
    var u :| u in s.threads && Victim(s.threads[u].pc) == Some(o);
    var s' := Step(s, t, choice);
    if u != t { UnmovedThread(s, t, choice, u); }
    hide Step, CanStep;
    if Victim(s.threads[t].pc) == Some(o) {
      assert t in s'.threads && Victim(s'.threads[t].pc) == Some(o);
    } else {
      assert u in s'.threads && Victim(s'.threads[u].pc) == Some(o);
    }
  }

  /** Only creating a session and unlinking one change the list. */
  lemma ActKeepsList(s: State, t: nat, choice: nat)
    requires CanStep(s, t) && !s.threads[t].pc.CreateIn? && !s.threads[t].pc.FinIn?
    ensures Act(s, t, choice).0.list == s.list
  {
    hide Lookup, Without, Begin, Found, AllFinished;
  }

  /** Only creating a session allocates one. */
  lemma ActKeepsLocks(s: State, t: nat, choice: nat)
    requires CanStep(s, t) && !s.threads[t].pc.CreateIn?
    ensures Act(s, t, choice).0.locks.Keys <= s.locks.Keys
  {
    hide Lookup, Without, Begin, Found, AllFinished;
  }

  /** What one thread does allocates no session without linking it, and unlinks none that it is not
      about to free. */
  lemma ActAccounts(s: State, t: nat, choice: nat)
    requires CanStep(s, t)
    ensures var (s', pc) := Act(s, t, choice);
            && (forall o :: o in s'.locks ==> o in s.locks || o in s'.list)
            && (forall o :: o in s.list ==> o in s'.list || Victim(pc) == Some(o))
  {
    var p := s.threads[t].pc;
    if !p.CreateIn? { ActKeepsLocks(s, t, choice); }
    if !p.CreateIn? && !p.FinIn? {
      ActKeepsList(s, t, choice);
      hide Act, Victim;
    }
    hide Lookup, Without, CanStep;
  }

  lemma StepAccounts(s: State, t: nat, choice: nat)
    requires CanStep(s, t)
    ensures var s' := Step(s, t, choice);
            && t in s'.threads
            && (forall o :: o in s'.locks ==> o in s.locks || o in s'.list)
            && (forall o :: o in s.list ==> o in s'.list || Victim(s'.threads[t].pc) == Some(o))
  {
    ActAccounts(s, t, choice);
    hide Act, Victim;
  }

  /** A session about to be freed stays that until it is. */
  lemma VictimIsFreed(s: State, t: nat, choice: nat)
    requires CanStep(s, t) && Victim(s.threads[t].pc).Some?
    ensures var s', v := Step(s, t, choice), Victim(s.threads[t].pc);
            t in s'.threads && (Victim(s'.threads[t].pc) == v || v.value !in s'.locks)
  {
    hide Lookup, Without, Begin, Found, AllFinished;
  }

  lemma AccountedKept(s: State, t: nat, choice: nat)
    requires CanStep(s, t) && Accounted(s)
    ensures Accounted(Step(s, t, choice))
  {
    var s' := Step(s, t, choice);
    StepAccounts(s, t, choice);
    if Victim(s.threads[t].pc).Some? { VictimIsFreed(s, t, choice); }
    hide Step, CanStep, Victim;
    forall o | o in s'.locks && o !in s'.list ensures BeingFreed(s', o) {
      if o in s.list {
        assert t in s'.threads && Victim(s'.threads[t].pc) == Some(o);
      } else {
        StillBeingFreed(s, t, choice, o);
      }
    }
  }

  // ---- Who is left when the file is closed ----

  /** A thread of a closed file: finished, freeing the sessions, or done with an empty list. */
  predicate Leaving(th: Thread, list: seq<nat>) {
    Finished(th) || (th.program == [] && (Closes(th.pc) || (th.pc.FinOut? && list == [])))
  }

  ghost predicate Freeing(s: State) { exists t :: t in s.threads && Closes(s.threads[t].pc) }

  ghost predicate Closing(s: State) {
    s.released ==> (forall t :: t in s.threads ==> Leaving(s.threads[t], s.list)) && (s.list != [] ==> Freeing(s))
  }

  /** The step of a thread that is leaving; a thread that takes the step of closing the file is one. */
  lemma LeavingStep(s: State, t: nat, choice: nat)
    requires CanStep(s, t) && Leaving(s.threads[t], s.list) && (s.released ==> !Finished(s.threads[t]))
    ensures var s' := Step(s, t, choice);
            && t in s'.threads && Leaving(s'.threads[t], s'.list) && (s.list == [] ==> s'.list == [])
            && (s'.list != [] ==> Closes(s'.threads[t].pc))
  {
    var p := s.threads[t].pc;
    assert s.threads[t].program == [];
    hide Lookup, Without, Begin, Found, AllFinished;
    if p.FinIn? {
      if s.list == [] { assert Act(s, t, choice) == (s, FinOut); }
    } else {
      ActKeepsList(s, t, choice);
    }
  }

  lemma ClosingKept(s: State, t: nat, choice: nat)
    requires CanStep(s, t) && Closing(s)
    ensures Closing(Step(s, t, choice))
  {
    StepReleases(s, t, choice);
    var s' := Step(s, t, choice);
    if s'.released {
      assert Leaving(s.threads[t], s.list);
      LeavingStep(s, t, choice);
      assert !s.released ==> AllFinished(s);
      assert s'.threads.Keys == s.threads.Keys;
      hide Step, CanStep;
      forall u | u in s'.threads ensures Leaving(s'.threads[u], s'.list) {
        if u != t { UnmovedThread(s, t, choice, u); }
      }
    }
  }

  lemma {:induction false} RunReleases(states: seq<State>, turns: seq<Turn>, i: nat)
    requires IsRun(states, turns) && i <= |turns|
    ensures Accounted(states[i]) && Closing(states[i])
    decreases i
  {
    hide Accounted, Closing, Step, CanStep;
    if i > 0 {
      hide Init;
      RunReleases(states, turns, i - 1);
      AccountedKept(states[i - 1], turns[i - 1].t, turns[i - 1].choice);
      ClosingKept(states[i - 1], turns[i - 1].t, turns[i - 1].choice);
    } else {
      StartAccounted(states[0]);
    }
  }

  lemma StartAccounted(s: State)
    requires Init(s)
    ensures Accounted(s) && Closing(s)
  {
  }

  // ---- What that means ----

  /** When the release has returned no session is linked and none is allocated: every session that was
      ever created has been freed. In every state before, what is allocated is linked or about to be freed. */
  lemma ReleaseLeavesNothing(states: seq<State>, turns: seq<Turn>, i: nat)
    requires IsRun(states, turns) && i <= |turns|
    ensures var s := states[i];
            && (s.released && (forall t :: t in s.threads ==> s.threads[t].pc.Between?) ==> s.list == [] && s.locks == map[])
            && (forall o :: o in s.locks ==> o in s.list || BeingFreed(s, o))
  {
    RunReleases(states, turns, i);
    hide IsRun;
    var s := states[i];
    if s.released && forall t :: t in s.threads ==> s.threads[t].pc.Between? {
      assert !Freeing(s);
      forall o ensures o !in s.locks { assert !BeingFreed(s, o); }
    }
  }

  // ---- Closing comes to an end ----

  lemma {:induction false} WithoutShorter(list: seq<nat>, o: nat)
    ensures |Without(list, o)| <= |list| && (o in list ==> |Without(list, o)| < |list|)
  {
    if list != [] { WithoutShorter(list[1..], o); }
  }

  /** How many steps a leaving thread has left at most. */
  function StepsLeft(p: Pc, list: seq<nat>): nat {
    match p
    case FinWait(_) => 3 * |list| + 3
    case FinIn(_) => 3 * |list| + 2
    case FinLock(_, _) => 3 * |list| + 4
    case FinFree(_, _) => 3 * |list| + 3
    case FinOut => 1
    case _ => 0
  }

  lemma LeavingProgress(s: State, t: nat, choice: nat)
    requires CanStep(s, t) && s.released && Leaving(s.threads[t], s.list)
    ensures var s' := Step(s, t, choice);
            t in s'.threads && StepsLeft(s'.threads[t].pc, s'.list) < StepsLeft(s.threads[t].pc, s.list)
  {
    if s.threads[t].pc.FinIn? && s.list != [] { WithoutShorter(s.list, s.list[0]); }
    hide Lookup, Without, Begin, Found;
  }

  /** In a closed file one thread at most has anything left to do; it can always go on, since nobody
      holds what it needs, and every step brings it nearer to its end, three steps for each session. */
  lemma ReleaseTerminates(states: seq<State>, turns: seq<Turn>, i: nat, t: nat, choice: nat)
    requires IsRun(states, turns) && i <= |turns| && states[i].released && t in states[i].threads
    requires !states[i].threads[t].pc.Between?
    ensures CanStep(states[i], t)
    ensures forall u :: u in states[i].threads && u != t ==> Finished(states[i].threads[u])
    ensures var s, s' := states[i], Step(states[i], t, choice);
            t in s'.threads && StepsLeft(s'.threads[t].pc, s'.list) < StepsLeft(s.threads[t].pc, s.list)
  {
    RunReleases(states, turns, i);
    RunKeepsInv(states, turns, i);
    RunClosesAlone(states, turns, i);
    hide IsRun;
    var s := states[i];
    OthersFinished(s, t);
    AloneCanStep(s, t);
    LeavingProgress(s, t, choice);
  }

  lemma OthersFinished(s: State, t: nat)
    requires Inv(s) && ClosesAlone(s) && Closing(s) && s.released && t in s.threads && !s.threads[t].pc.Between?
    ensures forall u :: u in s.threads && u != t ==> Finished(s.threads[u])
  {
    ThreadIsOk(s, t);
    forall u | u in s.threads && u != t ensures Finished(s.threads[u]) { ThreadIsOk(s, u); }
  }

  lemma AloneCanStep(s: State, t: nat)
    requires Inv(s) && Closing(s) && s.released && t in s.threads && !s.threads[t].pc.Between?
    requires forall u :: u in s.threads && u != t ==> Finished(s.threads[u])
    ensures CanStep(s, t)
  {
    ThreadIsOk(s, t);
    assert Leaving(s.threads[t], s.list);
    if s.table.Some? { ThreadIsOk(s, s.table.value); }
    hide TableOk, SidsRight;
  }
}
