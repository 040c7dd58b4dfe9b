/** Requests that come back from the asynchronous interface and are submitted again (ioctl.c, main.c). */
module AsyncReuse {
  import opened Bytes
  import opened RunEngine
  import AsyncQueue

  /** A fetched request is answered, when submitted again and whatever the queue then holds, as the
      original would be, exactly when it had NO_ZC set, or failed and so was not copied back, or
      carried no data, or both its buffers are aligned. A misaligned request that succeeded comes back
      with NO_ZC, which the queue refuses. */
  lemma ResubmittedAsOriginal(cfg: Config, st: State, mem: Bytes, cop: CryptOp, iv: Bytes, pinned: bool, queue: AsyncQueue.State)
    requires Callable(cfg, st, cop, iv)
    ensures var r := RunReply(cfg, st, mem, cop, iv, pinned);
            var again := CopiedBack(cop, r);
            var same := cop.flags.noZc || !r.ret.Ok? || cop.len == 0 || (cop.src % (cfg.alignmask + 1) == 0 && cop.dst % (cfg.alignmask + 1) == 0);
            && (AsyncQueue.SubmitAnswer(queue, again.flags.noZc) == AsyncQueue.SubmitAnswer(queue, cop.flags.noZc) <==> same)
            && (again == cop <==> same)
            && (!same ==> AsyncQueue.SubmitAnswer(queue, again.flags.noZc) == EINVAL)
  {
    hide Transfer, Prepared, Overlay, Finalizes;
    var r := RunReply(cfg, st, mem, cop, iv, pinned);
    if r.ret.Ok? { assert r.flags == FlagsAfter(cfg, cop); }
  }

  /** The outcome of a job is that of crypto_run on its request: zero exactly for success, and the flag
      as crypto_run left it. */
  predicate RanAs(cell: AsyncQueue.Cell, r: Reply) { (cell.result == 0 <==> r.ret.Ok?) && cell.noZc == r.flags.noZc }

  /** The program's request once a fetch has returned: copied back unless the fetch reports an error. */
  function Fetched(cop: CryptOp, cell: AsyncQueue.Cell): CryptOp {
    if cell.result == 0 then cop.(flags := cop.flags.(noZc := cell.noZc)) else cop
  }

  /** In every reachable state of the queue: a thread that fetches the result of a job that ran as
      crypto_run on `cop`, whatever was queued and run besides, has what crypto_run copies back; so
      submitting it again is answered as above. */
  lemma FetchedAndResubmitted(states: seq<AsyncQueue.State>, acts: seq<AsyncQueue.Act>, i: nat, t: nat,
                              cfg: Config, st: State, mem: Bytes, cop: CryptOp, iv: Bytes, pinned: bool)
    requires AsyncQueue.IsRun(states, acts) && i <= |acts| && t in states[i].pcs && states[i].pcs[t].Returning?
    requires Callable(cfg, st, cop, iv) && states[i].pcs[t].order < |states[i].executed|
    requires RanAs(states[i].executed[states[i].pcs[t].order], RunReply(cfg, st, mem, cop, iv, pinned))
    ensures var r, s := RunReply(cfg, st, mem, cop, iv, pinned), states[i];
            var again := Fetched(cop, s.pcs[t].value);
            var same := cop.flags.noZc || !r.ret.Ok? || cop.len == 0 || (cop.src % (cfg.alignmask + 1) == 0 && cop.dst % (cfg.alignmask + 1) == 0);
            && again == CopiedBack(cop, r)
            && (AsyncQueue.SubmitAnswer(s, again.flags.noZc) == AsyncQueue.SubmitAnswer(s, cop.flags.noZc) <==> same)
  {
    AsyncQueue.FifoExactlyOnce(states, acts, i);
    ResubmittedAsOriginal(cfg, st, mem, cop, iv, pinned, states[i]);
    hide AsyncQueue.IsRun, Transfer, Prepared, Overlay, Finalizes;
    var r, s := RunReply(cfg, st, mem, cop, iv, pinned), states[i];
    assert s.pcs[t].value == s.executed[s.pcs[t].order];
    if r.ret.Ok? { assert r.flags == FlagsAfter(cfg, cop); }
  }
}
