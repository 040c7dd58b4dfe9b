/**
 The handshake between the cipher and hash wrappers and an asynchronous backend (cryptlib.c). The
 requests of one transform, a session's cipher or its hash, share one result record: a completion
 counter and a status. The backend may
 answer at once, accept the request, or put it in its backlog; its callbacks run at any moment,
 also before the wrapper starts to wait, and store the status and raise the counter in two steps.
 */
module Completion {
  const EINPROGRESS: int := -115
  const EBUSY: int := -16

  /** The counter and the status that all requests of a transform share. */
  datatype Record = Record(done: nat, err: int)

  /** Where the wrapper is in its call. */
  datatype Pc = Idle | Ready | Judging(ret: int) | Waiting | Woken

  /** How far the backend is with a request that it accepted. */
  datatype Stage = Accepted | Stored(status: int)

  /** Requests are numbered in order. `answers`, `finals` and `returned` record what the backend answered when a request was handed
      over, the status of its final callback, and what the wrapper returned, by request number;
      `resets` are the requests that were hash resets. */
  datatype State = State(
    result: Record, pc: Pc, next: nat, pending: map<nat, Stage>,
    answers: map<nat, int>, finals: map<nat, int>, returned: seq<int>, resets: set<nat>)

  /** What happens next: a step of the wrapper, or one of the backend's callback for a request. `Reset`
      is cryptodev_hash_reset as a whole: it hands a request over and returns the answer, without
      preparing the record and without waiting. */
  datatype Event =
    | Begin
    | Submit(answer: int)
    | Judge
    | Wake
    | ReadStatus
    | Reset(reply: int)
    | Notice(id: nat)
    | Store(id: nat, status: int)
    | Signal(id: nat)

  /** The answers after which the wrapper waits. */
  predicate Async(ret: int) { ret == EINPROGRESS || ret == EBUSY }

  predicate IsCallback(e: Event) { e.Notice? || e.Store? || e.Signal? }

  /** The callback: a backlog notice is dropped, anything else is stored and then signalled. */
  function StoreStatus(r: Record, status: int): Record { if status == EINPROGRESS then r else r.(err := status) }

  function SignalDone(r: Record, status: int): Record { if status == EINPROGRESS then r else r.(done := r.done + 1) }

  /** The request in progress is the last one begun. */
  function Current(s: State): int { s.next - 1 }

  predicate Enabled(s: State, e: Event) {
    match e
    case Begin => s.pc.Idle?
    case Submit(_) => s.pc.Ready? && s.next > 0
    case Judge => s.pc.Judging?
    case Wake => s.pc.Waiting? && s.result.done > 0
    case ReadStatus => s.pc.Woken?
    case Reset(_) => s.pc.Idle?
    case Notice(id) => id in s.pending && s.pending[id].Accepted?
    case Store(id, status) => id in s.pending && s.pending[id].Accepted? && status != EINPROGRESS
    case Signal(id) => id in s.pending && s.pending[id].Stored?
  }

  function Return(s: State, code: int): State { s.(pc := Idle, returned := s.returned + [code]) }

  function Step(s: State, e: Event): State
    requires Enabled(s, e)
  {
    match e
    case Begin => s.(pc := Ready, next := s.next + 1, result := s.result.(done := 0))
    case Submit(answer) =>
      s.(pc := Judging(answer), answers := s.answers[s.next - 1 := answer],
         pending := if answer == -115 || answer == -16 then s.pending[s.next - 1 := Accepted] else s.pending)
    case Judge =>
      if s.pc.ret == 0 then Return(s, 0) else if Async(s.pc.ret) then s.(pc := Waiting) else Return(s, s.pc.ret)
    case Wake => s.(pc := Woken, result := s.result.(done := s.result.done - 1))
    case ReadStatus => Return(s, if s.result.err != 0 then s.result.err else 0)
    case Reset(reply) =>
      s.(next := s.next + 1, returned := s.returned + [reply], resets := s.resets + {s.next}, answers := s.answers[s.next := reply],
         pending := if reply == -115 || reply == -16 then s.pending[s.next := Accepted] else s.pending)
    case Notice(id) => s.(result := SignalDone(StoreStatus(s.result, EINPROGRESS), EINPROGRESS))
    case Store(id, status) => s.(result := StoreStatus(s.result, status), pending := s.pending[id := Stored(status)])
    case Signal(id) =>
      s.(result := SignalDone(s.result, s.pending[id].status), pending := s.pending - {id},
         finals := s.finals[id := s.pending[id].status])
  }

  /** No request was made yet; what an earlier user left in the record is arbitrary. */
  predicate Init(s: State) {
    s.pc.Idle? && s.next == 0 && s.pending == map[] && s.answers == map[] && s.finals == map[] && s.returned == [] && s.resets == {}
  }

  ghost predicate IsRun(states: seq<State>, events: seq<Event>) {
    && |states| == |events| + 1 && Init(states[0])
    && forall i :: 0 <= i < |events| ==> Enabled(states[i], events[i]) && states[i + 1] == Step(states[i], events[i])
  }

  /** The backend answers every hash reset at once. */
  ghost predicate ResetsAtOnce(events: seq<Event>, n: nat) {
    forall i :: 0 <= i < n && i < |events| && events[i].Reset? ==> events[i].reply != -115 && events[i].reply != -16
  }

  // ---- The invariant ----

  /** The current request was accepted: either its final callback is still to come and the counter is
      down, or it came, the counter is up once and the record holds its status. */
  predicate InFlight(s: State, id: int) {
    if id in s.pending then
      && s.pending.Keys == {id} && id !in s.finals && s.result.done == 0
      && (s.pending[id].Stored? ==> s.result.err == s.pending[id].status && s.result.err != EINPROGRESS)
    else
      && s.pending == map[] && s.result.done == 1 && id in s.finals && s.result.err == s.finals[id]
  }

  predicate PcOk(s: State) {
    var id := Current(s);
    match s.pc
    case Idle => s.pending == map[]
    case Ready => s.pending == map[] && s.result.done == 0 && id !in s.finals
    case Judging(ret) => id in s.answers && s.answers[id] == ret && if Async(ret) then InFlight(s, id) else s.pending == map[]
    case Waiting => id in s.answers && Async(s.answers[id]) && InFlight(s, id)
    case Woken => id in s.answers && Async(s.answers[id]) && s.pending == map[] && id in s.finals && s.result.err == s.finals[id]
  }

  /** What the wrapper has to return for request `k`. */
  predicate RightReturn(s: State, k: nat)
    requires k < |s.returned|
  {
    k in s.answers &&
    if Async(s.answers[k]) then k in s.finals && s.returned[k] == s.finals[k] else s.returned[k] == s.answers[k]
  }

  ghost predicate Inv(s: State) {
    && |s.returned| == (if s.pc.Idle? then s.next else s.next - 1)
    && PcOk(s)
    && (forall k :: k in s.finals || k in s.answers || k in s.resets ==> k < s.next)
    && forall k :: 0 <= k < |s.returned| ==> RightReturn(s, k)
  }

  /** A step leaves what was returned alone, and its reasons. */
  ghost predicate PastKept(s: State, s': State) {
    && |s.returned| <= |s'.returned| && s'.returned[..|s.returned|] == s.returned
    && (forall k :: 0 <= k < |s.returned| && k in s.answers ==> k in s'.answers && s'.answers[k] == s.answers[k])
    && (forall k :: 0 <= k < |s.returned| && k in s.finals ==> k in s'.finals && s'.finals[k] == s.finals[k])
  }

  lemma PastKeepsReturns(s: State, s': State)
    requires PastKept(s, s') && forall k :: 0 <= k < |s.returned| ==> RightReturn(s, k)
    ensures forall k :: 0 <= k < |s.returned| ==> RightReturn(s', k)
  {
    forall k | 0 <= k < |s.returned| ensures RightReturn(s', k) {
      assert RightReturn(s, k) && s'.returned[..|s.returned|][k] == s'.returned[k];
    }
  }

  lemma WrapperStep(s: State, e: Event)
    requires Inv(s) && Enabled(s, e) && !IsCallback(e) && (e.Reset? ==> e.reply != -115 && e.reply != -16)
    ensures Inv(Step(s, e))
  {
    PastKeepsReturns(s, Step(s, e));
  }

  lemma CallbackStep(s: State, e: Event)
    requires Inv(s) && Enabled(s, e) && IsCallback(e)
    ensures Inv(Step(s, e))
  {
    PastKeepsReturns(s, Step(s, e));
  }

  lemma {:induction false} RunKeepsInv(states: seq<State>, events: seq<Event>, i: nat)
    requires IsRun(states, events) && i <= |events| && ResetsAtOnce(events, i)
    ensures Inv(states[i])
    decreases i
  {
    hide Step, Enabled;
    if i > 0 {
      hide Inv, Init;
      RunKeepsInv(states, events, i - 1);
      if IsCallback(events[i - 1]) { CallbackStep(states[i - 1], events[i - 1]); } else { WrapperStep(states[i - 1], events[i - 1]); }
    }
  }

  // ---- What that means ----

  /** A recorded status comes from one final callback of that very request. */
  lemma {:induction false} FinalsAreSignalled(states: seq<State>, events: seq<Event>, i: nat, k: nat) returns (j: nat)
    requires IsRun(states, events) && i <= |events| && k in states[i].finals
    ensures j < i && events[j] == Signal(k) && states[j].pending[k] == Stored(states[i].finals[k])
    decreases i
  {
    if i > 0 {
      if events[i - 1] == Signal(k) {
        j := i - 1;
      } else {
        j := FinalsAreSignalled(states, events, i - 1, k);
      }
    }
  }

  /** A recorded answer is the one the backend gave when that very request was handed over. */
  lemma {:induction false} AnswersAreGiven(states: seq<State>, events: seq<Event>, i: nat, k: nat) returns (j: nat)
    requires IsRun(states, events) && i <= |events| && k in states[i].answers
    ensures j < i
    ensures (events[j] == Submit(states[i].answers[k]) && states[j].next == k + 1)
         || (events[j] == Reset(states[i].answers[k]) && states[j].next == k)
    decreases i
  {
    hide Async, StoreStatus, SignalDone;
    if i > 0 {
      var s, e := states[i - 1], events[i - 1];
      if (e.Submit? && s.next == k + 1) || (e.Reset? && s.next == k) {
        j := i - 1;
      } else {
        j := AnswersAreGiven(states, events, i - 1, k);
      }
    }
  }

  /** Each wrapper whose request was answered with -EINPROGRESS or -EBUSY returns the status of the final
      callback of that request, which came before; after any other answer it returns the answer. */
  lemma ReturnsOwnStatus(states: seq<State>, events: seq<Event>, i: nat, k: nat)
    requires IsRun(states, events) && i <= |events| && k < |states[i].returned| && ResetsAtOnce(events, i)
    ensures k in states[i].answers
    ensures states[i].answers[k] != -115 && states[i].answers[k] != -16 ==> states[i].returned[k] == states[i].answers[k]
    ensures states[i].answers[k] == -115 || states[i].answers[k] == -16 ==>
              exists j :: 0 <= j < i && events[j] == Signal(k) && states[j].pending[k] == Stored(states[i].returned[k])
  {
    RunKeepsInv(states, events, i);
    assert RightReturn(states[i], k);
    if states[i].answers[k] == -115 || states[i].answers[k] == -16 {
      var j := FinalsAreSignalled(states, events, i, k);
      assert events[j] == Signal(k);
    }
  }

  /** The backend calls back only for the request whose wrapper has not returned, so no callback
      is outstanding once a wrapper has returned. */
  lemma CallbacksAreOwn(states: seq<State>, events: seq<Event>, i: nat)
    requires IsRun(states, events) && i < |events| && ResetsAtOnce(events, i)
    ensures IsCallback(events[i]) ==> !states[i].pc.Idle? && events[i].id == |states[i].returned|
    ensures states[i].pc.Idle? ==> states[i].pending == map[]
  {
    RunKeepsInv(states, events, i);
    hide IsRun;
  }

  /** The counter is up for a waiting wrapper exactly when its own request has had its final
      callback: notices and earlier requests never wake it, and no wake-up is lost. */
  lemma WakesExactlyWhenFinal(states: seq<State>, events: seq<Event>, i: nat)
    requires IsRun(states, events) && i <= |events| && states[i].pc.Waiting? && ResetsAtOnce(events, i)
    ensures var s := states[i];
            && (Enabled(s, Wake) <==> |s.returned| in s.finals)
            && (Enabled(s, Wake) <==> |s.returned| !in s.pending)
  {
    RunKeepsInv(states, events, i);
    hide IsRun;
  }

  /** A request is signalled once at most: its callback never runs again. */
  lemma SignalledOnce(states: seq<State>, events: seq<Event>, i: nat, j: nat)
    requires IsRun(states, events) && i < j < |events| && events[i].Signal? && events[j].Signal? && ResetsAtOnce(events, j)
    ensures events[i].id != events[j].id
  {
    FinalStays(states, events, i + 1, j, events[i].id);
    RunKeepsInv(states, events, j);
    hide IsRun;
  }

  lemma {:induction false} FinalStays(states: seq<State>, events: seq<Event>, i: nat, j: nat, k: nat)
    requires IsRun(states, events) && i <= j <= |events| && k in states[i].finals
    ensures k in states[j].finals
    decreases j
  {
    if i < j { FinalStays(states, events, i, j - 1, k); }
  }

  // ---- The condition is needed ----

  /** A wrapper has returned although its own request has not had its final callback. */
  ghost predicate TooEarly(s: State) {
    exists k :: 0 <= k < |s.returned| && k in s.answers && (s.answers[k] == -115 || s.answers[k] == -16) && k !in s.resets && k !in s.finals
  }

  /** A run that goes on with a reset and then anything, later resets being answered at once. */
  ghost predicate GoesOn(states: seq<State>, events: seq<Event>, reply: int, states': seq<State>, events': seq<Event>)
    requires IsRun(states, events)
  {
    && IsRun(states', events') && states'[0] == states[0]
    && |events| < |events'| && events'[..|events| + 1] == events + [Reset(reply)]
    && forall i :: |events| < i < |events'| && events'[i].Reset? ==> events'[i].reply != -115 && events'[i].reply != -16
  }

  lemma Extend(states: seq<State>, events: seq<Event>, e: Event) returns (states': seq<State>, events': seq<Event>)
    requires IsRun(states, events) && Enabled(states[|events|], e)
    ensures IsRun(states', events') && states'[0] == states[0] && events' == events + [e]
    ensures states'[|events'|] == Step(states[|events|], e)
  {
    hide Enabled, Step, Init;
    states', events' := states + [Step(states[|events|], e)], events + [e];
  }

  /** A request after such a reset, its wrapper waiting while neither callback has run. */
  lemma LateReset(states: seq<State>, events: seq<Event>, reply: int) returns (states': seq<State>, events': seq<Event>)
    requires IsRun(states, events) && ResetsAtOnce(events, |events|) && states[|events|].pc.Idle? && (reply == -115 || reply == -16)
    ensures IsRun(states', events') && states'[0] == states[0]
    ensures events' == events + [Reset(reply), Begin, Submit(EINPROGRESS), Judge]
    ensures var s, r := states'[|events'|], states[|events|].next;
            && s.pc.Waiting? && s.result.done == 0 && r in s.pending && s.pending[r].Accepted?
            && |s.returned| == r + 1 && r + 1 in s.answers && s.answers[r + 1] == -115 && r + 1 !in s.resets && r + 1 !in s.finals
  {
    RunKeepsInv(states, events, |events|);
    hide IsRun;
    states', events' := Extend(states, events, Reset(reply));
    states', events' := Extend(states', events', Begin);
    states', events' := Extend(states', events', Submit(EINPROGRESS));
    states', events' := Extend(states', events', Judge);
  }

  /** The callback of request `r` reaches a wrapper that waits for the request after it. */
  lemma Disturbed(states: seq<State>, events: seq<Event>, r: nat) returns (states': seq<State>, events': seq<Event>)
    requires IsRun(states, events)
    requires var s := states[|events|];
             s.pc.Waiting? && s.result.done == 0 && r in s.pending && s.pending[r].Accepted? && |s.returned| == r + 1
    ensures IsRun(states', events') && states'[0] == states[0]
    ensures events' == events + [Store(r, 0), Signal(r), Wake, ReadStatus]
    ensures var s, s' := states[|events|], states'[|events'|];
            && |s'.returned| == r + 2 && s'.answers == s.answers && s'.resets == s.resets
            && (r + 1 in s'.finals <==> r + 1 in s.finals)
  {
    hide IsRun, Inv, Init;
    states', events' := Extend(states, events, Store(r, 0));
    states', events' := Extend(states', events', Signal(r));
    states', events' := Extend(states', events', Wake);
    states', events' := Extend(states', events', ReadStatus);
  }

  /** The late callback of a reset that was answered asynchronously wakes the next wrapper. */
  lemma LateResetWakes(states: seq<State>, events: seq<Event>, reply: int) returns (states': seq<State>, events': seq<Event>)
    requires IsRun(states, events) && ResetsAtOnce(events, |events|) && states[|events|].pc.Idle? && (reply == -115 || reply == -16)
    ensures GoesOn(states, events, reply, states', events') && TooEarly(states'[|events'|])
  {
    var r := states[|events|].next;
    hide IsRun, Inv;
    states', events' := LateReset(states, events, reply);
    states', events' := Disturbed(states', events', r);
    var s := states'[|events'|];
    assert s.answers[r + 1] == -115 && r + 1 !in s.finals && r + 1 !in s.resets;
  }

  lemma PromptResetIsSafe(states: seq<State>, events: seq<Event>)
    requires IsRun(states, events) && ResetsAtOnce(events, |events|)
    ensures !TooEarly(states[|events|])
  {
    RunKeepsInv(states, events, |events|);
    var s := states[|events|];
    forall k | 0 <= k < |s.returned| && k in s.answers && (s.answers[k] == -115 || s.answers[k] == -16) ensures k in s.finals {
      assert RightReturn(s, k);
    }
  }

  /** A hash reset leaves the handshake of later requests intact exactly when the backend answers it
      at once: only then does no way of going on have a wrapper return too early. */
  lemma ResetMustBeAnsweredAtOnce(states: seq<State>, events: seq<Event>, reply: int)
    requires IsRun(states, events) && ResetsAtOnce(events, |events|) && states[|events|].pc.Idle?
    ensures reply != -115 && reply != -16 <==>
              forall states', events' :: GoesOn(states, events, reply, states', events') ==> !TooEarly(states'[|events'|])
  {
    hide TooEarly;
    if reply == -115 || reply == -16 {
      var states', events' := LateResetWakes(states, events, reply);
    } else {
      forall states': seq<State>, events': seq<Event> | GoesOn(states, events, reply, states', events') ensures !TooEarly(states'[|events'|]) {
        var n := |events|;
        forall i | 0 <= i < |events'| && events'[i].Reset?
          ensures events'[i].reply != -115 && events'[i].reply != -16
        {
          if i <= n { assert events'[i] == events'[..n + 1][i]; }
        }
        PromptResetIsSafe(states', events');
      }
    }
  }
}
