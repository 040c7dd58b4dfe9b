/**
 Hash sessions as a pure log. The system is any number of sessions over one user memory; its history
 is a sequence of requests, hash-state copies and writes by the program. `Message` reads a session's
 logical message off the history alone, and every digest delivered is the hash of that message.
 */
module HashLog {
  import opened Bytes
  import opened BlockModes
  import opened HashCore
  import opened RunEngine
  import opened RequestTheorems

  datatype Session = Session(cfg: Config, st: State)

  datatype System = System(ses: map<nat, Session>, mem: Bytes) {
    ghost predicate Valid() { forall s :: s in ses ==> ses[s].cfg.Valid() && ses[s].st.Valid() }
  }

  datatype Event =
    | Call(sid: nat, cop: CryptOp, iv: Bytes, pinned: bool)
    | Copy(dst: nat, src: nat)
    | Write(mem: Bytes)

  datatype Outcome = Outcome(sys: System, digest: Option<Bytes>)

  /** What the driver needs of each event; unknown sessions are allowed and refused by the driver. */
  ghost predicate Legal(sys: System, ev: Event) {
    match ev
    case Call(sid, cop, iv, _) => sid in sys.ses ==> Callable(sys.ses[sid].cfg, sys.ses[sid].st, cop, iv)
    case Copy(dst, src) =>
      src in sys.ses && dst in sys.ses ==> src != dst && sys.ses[src].cfg.hash.Some? && sys.ses[dst].cfg.hash.Some?
    case Write(_) => true
  }

  /** The state `target` has after importing the exported state of `source`: meaningful only between
      sessions of the same algorithm and key. */
  ghost function Imported(target: Config, source: Config, h: HashState): HashState {
    if target.hash == source.hash then h else HashState(Foreign(h), [])
  }

  ghost function Step(sys: System, ev: Event): (o: Outcome)
    requires sys.Valid() && Legal(sys, ev)
    ensures o.sys.Valid() && o.sys.ses.Keys == sys.ses.Keys
    ensures forall s :: s in sys.ses ==> o.sys.ses[s].cfg == sys.ses[s].cfg
  {
    match ev
    case Call(sid, cop, iv, pinned) =>
      if sid !in sys.ses then Outcome(sys, None)
      else
        var s := sys.ses[sid];
        var r := RunReply(s.cfg, s.st, sys.mem, cop, iv, pinned);
        Outcome(System(sys.ses[sid := Session(s.cfg, r.st)], r.mem), r.digest)
    case Copy(dst, src) =>
      if src !in sys.ses || dst !in sys.ses then Outcome(sys, None)
      else
        var d, s := sys.ses[dst], sys.ses[src];
        var st := d.st.(hash := Imported(d.cfg, s.cfg, s.st.hash));
        Outcome(System(sys.ses[dst := Session(d.cfg, st)], sys.mem), None)
    case Write(mem) => Outcome(sys.(mem := mem), None)
  }

  /** A run: each state is the outcome of the event before it, from sessions freshly created. */
  ghost predicate IsRun(states: seq<System>, evs: seq<Event>) {
    && |states| == |evs| + 1
    && states[0].Valid()
    && (forall s :: s in states[0].ses ==> states[0].ses[s].st.hash == Fresh)
    && (forall i :: 0 <= i < |evs| ==> states[i].Valid() && Legal(states[i], evs[i]))
    && (forall i :: 0 <= i < |evs| ==> states[i + 1] == Step(states[i], evs[i]).sys)
  }

  /** The plaintext a successful call hashes: its input, or what a decryption put in place. */
  function Plaintext(before: Bytes, after: Bytes, cfg: Config, cop: CryptOp): Bytes
    requires cop.len > 0 ==> InPlace(cfg, before, cop)
    requires |after| == |before|
  {
    if cop.len == 0 then []
    else if cop.op.Encrypt? || cfg.cipher.None? then before[cop.src..cop.src + cop.len]
    else after[cop.dst..cop.dst + cop.len]
  }

  /** The message a call has in hand once its data is in: a request with RESET or without any flag starts
      a message. None when the log is broken. */
  ghost function Consumed(before: Bytes, after: Bytes, cfg: Config, cop: CryptOp, prev: Option<Bytes>): Option<Bytes>
    requires cfg.Valid() && |after| == |before|
  {
    var f := cop.flags;
    var anew := f.reset || !(f.update || f.final || f.writeIv || f.noZc || f.tls || f.srtp || f.other);
    var base := if anew then Some([]) else prev;
    if !cfg.Accepts(cop.len) then base
    else if cop.len > 0 && !InPlace(cfg, before, cop) then None
    else if base.None? then None
    else Some(base.value + Plaintext(before, after, cfg, cop))
  }

  /** The logical message of session `s` after the first `i` events: bytes fed since the last reset,
      carried over by copies, and nothing once a digest has been taken or a call has failed midway. */
  ghost function Message(states: seq<System>, evs: seq<Event>, i: nat, s: nat): Option<Bytes>
    requires IsRun(states, evs) && i <= |evs| && s in states[0].ses
    decreases i
  {
    if i == 0 then Some([])
    else
      KeysStay(states, evs, i - 1);
      var prev := Message(states, evs, i - 1, s);
      var sys := states[i - 1];
      match evs[i - 1]
      case Call(sid, cop, _, _) =>
        if sid != s || cop.op.OtherOp? then prev
        else if sys.ses[s].cfg.Accepts(cop.len) && (cop.flags.final || !cop.flags.update || cop.len == 0) then None
        else Consumed(sys.mem, states[i].mem, sys.ses[s].cfg, cop, prev)
      case Copy(dst, src) =>
        if dst != s || src !in sys.ses then prev
        else if sys.ses[src].cfg.hash != sys.ses[s].cfg.hash then None
        else Message(states, evs, i - 1, src)
      case Write(_) => prev
  }

  lemma {:induction false} KeysStay(states: seq<System>, evs: seq<Event>, i: nat)
    requires IsRun(states, evs) && i <= |evs|
    ensures states[i].Valid() && states[i].ses.Keys == states[0].ses.Keys
    ensures forall s :: s in states[0].ses ==> states[i].ses[s].cfg == states[0].ses[s].cfg
    ensures i < |evs| && (evs[i].Call? || evs[i].Copy?) ==> |states[i + 1].mem| == |states[i].mem|
    decreases i
  {
    if i > 0 { KeysStay(states, evs, i - 1); }
  }

  lemma RunStart(states: seq<System>, evs: seq<Event>, s: nat)
    requires IsRun(states, evs) && s in states[0].ses
    ensures states[0].ses[s].st.hash == Fresh
  {
  }

  lemma RunStep(states: seq<System>, evs: seq<Event>, i: nat)
    requires IsRun(states, evs) && i < |evs|
    ensures |states| == |evs| + 1 && states[i].Valid() && Legal(states[i], evs[i])
    ensures states[i + 1] == Step(states[i], evs[i]).sys
  {
  }

  /** One call on one session keeps the state at the logged message and delivers its hash. */
  lemma CallKeepsLog(cfg: Config, st: State, mem: Bytes, cop: CryptOp, iv: Bytes, pinned: bool, prev: Option<Bytes>)
    requires Callable(cfg, st, cop, iv) && cfg.hash.Some? && !cop.op.OtherOp?
    requires prev.Some? ==> st.hash == HashState(Reset, prev.value)
    ensures var r := RunReply(cfg, st, mem, cop, iv, pinned);
            var m := Consumed(mem, r.mem, cfg, cop, prev);
            m.Some? ==>
              if cfg.Accepts(cop.len) && (cop.flags.final || !cop.flags.update || cop.len == 0) then r.digest == Some(cfg.hash.value.Of(m.value))
              else r.digest.None? && r.st.hash == HashState(Reset, m.value)
  {
    hide RunReply, Cipher.Valid, Hash.Valid;
    if !cfg.Accepts(cop.len) {
      AcceptsIsMod(cfg, cop.len);
      RequestStatus(cfg, st, mem, cop, iv, pinned, true);
      RequestRefused(cfg, st, mem, cop, iv, pinned, true);
    } else if cop.len > 0 ==> InPlace(cfg, mem, cop) {
      AcceptedKeepsLog(cfg, st, mem, cop, iv, pinned, prev);
    }
  }

  lemma AcceptedKeepsLog(cfg: Config, st: State, mem: Bytes, cop: CryptOp, iv: Bytes, pinned: bool, prev: Option<Bytes>)
    requires Callable(cfg, st, cop, iv) && cfg.hash.Some? && !cop.op.OtherOp?
    requires cfg.Accepts(cop.len) && (cop.len > 0 ==> InPlace(cfg, mem, cop))
    requires prev.Some? ==> st.hash == HashState(Reset, prev.value)
    ensures var r := RunReply(cfg, st, mem, cop, iv, pinned);
            var m := Consumed(mem, r.mem, cfg, cop, prev);
            m.Some? ==>
              if cop.flags.final || !cop.flags.update || cop.len == 0 then r.digest == Some(cfg.hash.value.Of(m.value))
              else r.digest.None? && r.st.hash == HashState(Reset, m.value)
  {
    AcceptsIsMod(cfg, cop.len);
    hide RunReply, Multiple, Cipher.Valid, Hash.Valid;
    RequestHashes(cfg, st, mem, cop, iv, pinned);
  }

  /** The invariant of every run: an intact log is what the session has absorbed since its reset. */
  lemma {:induction false} LogIsState(states: seq<System>, evs: seq<Event>, i: nat, s: nat)
    requires IsRun(states, evs) && i <= |evs| && s in states[0].ses && states[0].ses[s].cfg.hash.Some?
    ensures states[i].ses.Keys == states[0].ses.Keys
    ensures var m := Message(states, evs, i, s);
            m.Some? ==> states[i].ses[s].st.hash == HashState(Reset, m.value)
    decreases i
  {
    hide RunReply, Consumed, Callable, IsRun, Cipher.Valid, Hash.Valid;
    KeysStay(states, evs, i);
    if i == 0 {
      RunStart(states, evs, s);
    } else {
      RunStep(states, evs, i - 1);
      KeysStay(states, evs, i - 1);
      LogIsState(states, evs, i - 1, s);
      var sys, ev := states[i - 1], evs[i - 1];
      match ev
      case Call(sid, cop, iv, pinned) =>
        if sid == s {
          OtherOpChangesNothing(sys.ses[s].cfg, sys.ses[s].st, sys.mem, cop, iv, pinned);
          if !cop.op.OtherOp? {
            CallKeepsLog(sys.ses[s].cfg, sys.ses[s].st, sys.mem, cop, iv, pinned, Message(states, evs, i - 1, s));
          }
        }
      case Copy(dst, src) =>
        if dst == s && src in sys.ses { LogIsState(states, evs, i - 1, src); }
      case Write(_) =>
    }
  }

  lemma OtherOpChangesNothing(cfg: Config, st: State, mem: Bytes, cop: CryptOp, iv: Bytes, pinned: bool)
    requires Callable(cfg, st, cop, iv)
    ensures cop.op.OtherOp? ==> RunReply(cfg, st, mem, cop, iv, pinned).st.hash == st.hash
  {
  }

  /** Every digest a run delivers is the hash of the session's logical message, whatever other
      sessions, copies and writes came in between. */
  lemma DigestsMatchLog(states: seq<System>, evs: seq<Event>, i: nat)
    requires IsRun(states, evs) && i < |evs| && evs[i].Call? && evs[i].sid in states[0].ses
    ensures states[i].ses.Keys == states[0].ses.Keys && |states[i + 1].mem| == |states[i].mem|
    ensures var s := evs[i].sid;
            var cfg := states[i].ses[s].cfg;
            cfg.Valid() &&
            var m := Consumed(states[i].mem, states[i + 1].mem, cfg, evs[i].cop, Message(states, evs, i, s));
            Step(states[i], evs[i]).digest.Some? && m.Some? ==>
              cfg.hash.Some? && Step(states[i], evs[i]).digest == Some(cfg.hash.value.Of(m.value))
  {
    KeysStay(states, evs, i);
    var s, sys := evs[i].sid, states[i];
    var cop, iv, pinned := evs[i].cop, evs[i].iv, evs[i].pinned;
    DigestNeedsFinal(sys.ses[s].cfg, sys.ses[s].st, sys.mem, cop, iv, pinned);
    hide RunReply, Consumed;
    if Step(sys, evs[i]).digest.Some? {
      LogIsState(states, evs, i, s);
      CallKeepsLog(sys.ses[s].cfg, sys.ses[s].st, sys.mem, cop, iv, pinned, Message(states, evs, i, s));
    }
  }

  /** A digest comes only from a final on a session with a hash. */
  lemma DigestNeedsFinal(cfg: Config, st: State, mem: Bytes, cop: CryptOp, iv: Bytes, pinned: bool)
    requires Callable(cfg, st, cop, iv)
    ensures RunReply(cfg, st, mem, cop, iv, pinned).digest.Some? ==>
              cfg.hash.Some? && !cop.op.OtherOp? && cfg.Accepts(cop.len) && (cop.flags.final || !cop.flags.update || cop.len == 0)
  {
  }

  /** The sessions an event can change. */
  predicate Changes(ev: Event, s: nat) {
    match ev
    case Call(sid, _, _, _) => sid == s
    case Copy(dst, _) => dst == s
    case Write(_) => false
  }

  lemma StepFrame(sys: System, ev: Event, s: nat)
    requires sys.Valid() && Legal(sys, ev) && s in sys.ses && !Changes(ev, s)
    ensures Step(sys, ev).sys.ses[s] == sys.ses[s]
  {
  }

  /** Events that do not name a session leave its state and its log alone, however many there are:
      what is copied out of it later, or was copied into another before, makes no difference. */
  lemma {:induction false} CopiesEvolveIndependently(states: seq<System>, evs: seq<Event>, i: nat, j: nat, s: nat)
    requires IsRun(states, evs) && i <= j <= |evs| && s in states[0].ses
    requires forall k :: i <= k < j ==> !Changes(evs[k], s)
    ensures Message(states, evs, j, s) == Message(states, evs, i, s)
    ensures states[i].ses.Keys == states[j].ses.Keys == states[0].ses.Keys
    ensures states[j].ses[s] == states[i].ses[s]
    decreases j
  {
    hide RunReply, Consumed, Legal, IsRun, Step, Cipher.Valid, Hash.Valid;
    KeysStay(states, evs, i);
    KeysStay(states, evs, j);
    if i < j {
      RunStep(states, evs, j - 1);
      KeysStay(states, evs, j - 1);
      assert !Changes(evs[j - 1], s);
      StepFrame(states[j - 1], evs[j - 1], s);
      assert states[j].ses[s] == states[j - 1].ses[s];
      CopiesEvolveIndependently(states, evs, i, j - 1, s);
    }
  }

  /** A copy moves the hash state and nothing else: the destination keeps its IV, and every other
      session, the source with them, and the memory are as before. */
  lemma CopyMovesHashOnly(states: seq<System>, evs: seq<Event>, i: nat, s: nat)
    requires IsRun(states, evs) && i < |evs| && evs[i].Copy? && s in states[0].ses
    requires evs[i].src in states[0].ses && evs[i].dst in states[0].ses
    ensures states[i].ses.Keys == states[i + 1].ses.Keys == states[0].ses.Keys && states[i + 1].mem == states[i].mem
    ensures states[i + 1].ses[s].cfg == states[i].ses[s].cfg && states[i + 1].ses[s].st.iv == states[i].ses[s].st.iv
    ensures s != evs[i].dst ==> states[i + 1].ses[s].st.hash == states[i].ses[s].st.hash
    ensures s == evs[i].dst && states[i].ses[s].cfg.hash == states[i].ses[evs[i].src].cfg.hash ==>
              states[i + 1].ses[s].st.hash == states[i].ses[evs[i].src].st.hash
  {
    KeysStay(states, evs, i);
    RunStep(states, evs, i);
  }

  /** After a copy between sessions of one algorithm and key, both have the log of the source. */
  lemma CopyForksLog(states: seq<System>, evs: seq<Event>, i: nat)
    requires IsRun(states, evs) && i < |evs| && evs[i].Copy?
    requires evs[i].src in states[0].ses && evs[i].dst in states[0].ses
    requires states[0].ses[evs[i].src].cfg.hash == states[0].ses[evs[i].dst].cfg.hash
    ensures Message(states, evs, i + 1, evs[i].dst) == Message(states, evs, i, evs[i].src)
    ensures Message(states, evs, i + 1, evs[i].src) == Message(states, evs, i, evs[i].src)
  {
    KeysStay(states, evs, i);
  }
}
