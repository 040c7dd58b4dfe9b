/** What the two paths of main.c and its IV chaining promise, for every request. */
module RunTheorems {
  import opened Bytes
  import opened BlockModes
  import opened HashCore
  import opened RunEngine

  /** Writing the destination front to back never reaches source bytes still to be read. */
  predicate Separate(src: nat, dst: nat, n: nat) { dst <= src || src + n <= dst }

  /** Every address the copying path touches is mapped. */
  predicate Mapped(cfg: Config, mem: Bytes, src: nat, dst: nat, n: nat) {
    src + n <= |mem| && (cfg.cipher.Some? ==> dst + n <= |mem| && Separate(src, dst, n))
  }

  // ---- Chunking ----

  /** Cutting a buffer at a multiple of the cipher's unit and making two passes is one pass. */
  lemma PassSplit(cfg: Config, st: State, op: Op, a: Bytes, b: Bytes, p: Bytes, q: Bytes)
    requires cfg.Valid() && st.Valid() && cfg.Accepts(|a|) && cfg.Accepts(|b|) && cfg.Accepts(|a + b|)
    requires cfg.cipher.Some? ==> Multiple(|a|, cfg.cipher.value.unit)
    ensures var first := PassOf(cfg, st, op, a, p);
            var second := PassOf(cfg, first.st, op, b, q);
            PassOf(cfg, st, op, a + b, p + q) == Pass(first.data + second.data, second.st)
  {
    var first := PassOf(cfg, st, op, a, p);
    var second := PassOf(cfg, first.st, op, b, q);
    if cfg.cipher.Some? {
      var c := cfg.cipher.value;
      var n := c.IvSize();
      CryptSplit(c, op, st.iv[..n], a, b);
      CryptLength(c, op, st.iv[..n], a);
      assert first.st.iv[..n] == Crypt(c, op, st.iv[..n], a).iv;
      assert first.st.iv[n..] == st.iv[n..];
    }
    if op.Encrypt? {
      AbsorbTwice(st.hash, a, b);
    } else {
      AbsorbTwice(st.hash, first.data, second.data);
    }
  }

  lemma AcceptsSum(cfg: Config, k: nat, m: nat)
    requires cfg.Valid() && cfg.Accepts(k) && cfg.Accepts(m)
    ensures cfg.Accepts(k + m)
  {
    if cfg.cipher.Some? { MultipleSum(k, m, cfg.cipher.value.BlockSize()); }
  }

  /** One pass over k + m bytes of memory is a pass over k of them followed by one over the rest. */
  lemma StdPageSplit(cfg: Config, st: State, mem: Bytes, op: Op, src: nat, dst: nat, k: nat, m: nat)
    requires cfg.Valid() && st.Valid() && cfg.Accepts(k) && cfg.Accepts(m) && cfg.Accepts(k + m)
    requires cfg.cipher.Some? ==> Multiple(k, cfg.cipher.value.unit)
    requires Mapped(cfg, mem, src, dst, k + m)
    ensures var r := StdPage(cfg, st, mem, op, src, dst, k);
            r.ret.Ok? && Mapped(cfg, r.mem, src + k, dst + k, m) &&
            StdPage(cfg, st, mem, op, src, dst, k + m) == StdPage(cfg, r.st, r.mem, op, src + k, dst + k, m)
  {
    hide PassOf, Splice, Multiple, Cipher.Valid, Hash.Valid;
    var a, b := mem[src..src + k], mem[src + k..src + k + m];
    assert mem[src..src + (k + m)] == a + b;
    var first := PassOf(cfg, st, op, a, a);
    var second := PassOf(cfg, first.st, op, b, b);
    PassSplit(cfg, st, op, a, b, a, b);
    if cfg.cipher.Some? {
      var mem' := Splice(mem, dst, first.data);
      assert mem'[src + k..src + k + m] == b by { SpliceFrame(mem, dst, first.data, src + k, src + k + m); }
      assert Splice(mem', dst + k, second.data) == Splice(mem, dst, first.data + second.data) by {
        SpliceJoin(mem, dst, first.data, second.data);
      }
      assert StdPage(cfg, st, mem, op, src, dst, k) == Moved(Ok, first.st, mem');
      assert StdPage(cfg, first.st, mem', op, src + k, dst + k, m)
          == Moved(Ok, second.st, Splice(mem', dst + k, second.data));
    } else {
      assert StdPage(cfg, st, mem, op, src, dst, k) == Moved(Ok, first.st, mem);
    }
  }

  /** The page-by-page loop gives the bytes, IV and hash state of one whole-buffer pass. */
  lemma {:induction false} StdIsOnePass(cfg: Config, st: State, mem: Bytes, op: Op, src: nat, dst: nat, n: nat)
    requires cfg.Valid() && st.Valid() && cfg.Accepts(n) && Mapped(cfg, mem, src, dst, n)
    ensures StdTransfer(cfg, st, mem, op, src, dst, n) == StdPage(cfg, st, mem, op, src, dst, n)
    decreases n
  {
    hide StdPage, Multiple;
    if n == 0 {
      EmptyPass(cfg, st, mem, op, src, dst);
    } else {
      AcceptsPage(cfg, n);
      var k := Min(PAGE_SIZE, n);
      if k < n {
        StdPageSplit(cfg, st, mem, op, src, dst, k, n - k);
      } else {
        var r := StdPage(cfg, st, mem, op, src, dst, k);
        EmptyPass(cfg, r.st, r.mem, op, src + k, dst + k);
        assert StdTransfer(cfg, r.st, r.mem, op, src + k, dst + k, 0) == Moved(Ok, r.st, r.mem);
      }
      if k < n {
        var r := StdPage(cfg, st, mem, op, src, dst, k);
        StdIsOnePass(cfg, r.st, r.mem, op, src + k, dst + k, n - k);
      }
    }
  }

  lemma EmptyPass(cfg: Config, st: State, mem: Bytes, op: Op, src: nat, dst: nat)
    requires cfg.Valid() && st.Valid() && cfg.Accepts(0) && Mapped(cfg, mem, src, dst, 0)
    ensures StdPage(cfg, st, mem, op, src, dst, 0) == Moved(Ok, st, mem)
  {
    assert st.hash.msg + [] == st.hash.msg;
    assert mem[src..src + 0] == [];
    if cfg.cipher.Some? {
      var c := cfg.cipher.value;
      assert st.iv[..c.IvSize()] + st.iv[c.IvSize()..] == st.iv;
      SpliceSame(mem, dst, 0);
      assert mem[dst..dst + 0] == [];
    }
  }

  // ---- The two paths agree ----

  /** The source and destination hold the same bytes, or hashing does not look at the destination. */
  predicate SameHashedBytes(cfg: Config, mem: Bytes, op: Op, src: nat, dst: nat, n: nat)
    requires src + n <= |mem|
    requires NeedsDst(cfg, op) ==> dst + n <= |mem|
  {
    cfg.cipher.Some? || op.Encrypt? || cfg.hash.None? || mem[src..src + n] == mem[dst..dst + n]
  }

  /** Zero-copy and copying give the same outcome exactly when a cipher is attached, the request
      encrypts, nothing is hashed, or source and destination already hold the same bytes. */
  lemma PathsAgree(cfg: Config, st: State, mem: Bytes, op: Op, src: nat, dst: nat, n: nat)
    requires cfg.Valid() && st.Valid() && cfg.Accepts(n) && Mapped(cfg, mem, src, dst, n)
    requires Pinnable(mem, src, dst, n) && (NeedsDst(cfg, op) ==> dst != 0)
    ensures ZcTransfer(cfg, st, mem, op, src, dst, n) == StdTransfer(cfg, st, mem, op, src, dst, n)
       <==> SameHashedBytes(cfg, mem, op, src, dst, n)
  {
    hide StdTransfer, Splice, Multiple, CipherPass, Cipher.Valid, Hash.Valid;
    StdIsOnePass(cfg, st, mem, op, src, dst, n);
    if cfg.cipher.None? && dst != 0 { SpliceSame(mem, dst, n); }
    if !SameHashedBytes(cfg, mem, op, src, dst, n) {
      AbsorbTells(st.hash, mem[src..src + n], mem[dst..dst + n]);
    }
  }

  /** Different data of equal length leave different hash states. */
  lemma AbsorbTells(s: HashState, x: Bytes, y: Bytes)
    requires |x| == |y| && x != y
    ensures Absorb(s, x) != Absorb(s, y)
  {
    var k :| 0 <= k < |x| && x[k] != y[k];
    assert (s.msg + x)[|s.msg| + k] != (s.msg + y)[|s.msg| + k];
  }

  /** A request for which the choice of path cannot matter. */
  predicate Settled(cfg: Config, mem: Bytes, cop: CryptOp) {
    && Mapped(cfg, mem, cop.src, cop.dst, cop.len)
    && (NeedsDst(cfg, cop.op) ==> cop.dst != 0 && cop.dst + cop.len <= |mem|)
    && SameHashedBytes(cfg, mem, cop.op, cop.src, cop.dst, cop.len)
  }

  /** NO_ZC, misalignment and failure to pin are invisible: every transfer is the one pass. */
  lemma TransferIsOnePass(cfg: Config, st: State, mem: Bytes, cop: CryptOp, pinned: bool)
    requires cfg.Valid() && st.Valid() && cfg.Accepts(cop.len) && Settled(cfg, mem, cop)
    ensures Transfer(cfg, st, mem, cop, pinned) == StdPage(cfg, st, mem, cop.op, cop.src, cop.dst, cop.len)
  {
    StdIsOnePass(cfg, st, mem, cop.op, cop.src, cop.dst, cop.len);
    if Pinnable(mem, cop.src, cop.dst, cop.len) {
      PathsAgree(cfg, st, mem, cop.op, cop.src, cop.dst, cop.len);
    }
  }

  // ---- The flag NO_ZC ----

  const NoFlags := Flags(false, false, false, false, false, false, false, false)

  /** Two replies that a program cannot tell apart. */
  predicate SameToProgram(a: Reply, b: Reply) {
    a.ret == b.ret && a.mem == b.mem && a.iv == b.iv && a.digest == b.digest
  }

  /** The session with another hash algorithm or key, if it has a hash at all. */
  function WithHash(cfg: Config, h: Hash): Config { if cfg.hash.None? then cfg else cfg.(hash := Some(h)) }

  /** Both requests get replies that a program cannot tell apart, whatever the hash computes. */
  ghost predicate Indistinguishable(cfg: Config, st: State, mem: Bytes, a: CryptOp, b: CryptOp, iv: Bytes, pinned: bool)
    requires Callable(cfg, st, a, iv) && Callable(cfg, st, b, iv)
  {
    forall h: Hash :: h.Valid() ==>
      SameToProgram(RunReply(WithHash(cfg, h), st, mem, a, iv, pinned), RunReply(WithHash(cfg, h), st, mem, b, iv, pinned))
  }

  /** A hash that tells one state from all others. */
  function Detector(a: HashState): (h: Hash)
    ensures h.Valid()
  {
    Hash(1, (s: HashState) => if s == a then [1] else [0])
  }

  /** The reply to a request that transfers data, in terms of one pass. */
  lemma ReplyOfPass(cfg: Config, st: State, mem: Bytes, cop: CryptOp, iv: Bytes, pinned: bool)
    requires Callable(cfg, st, cop, iv) && !cop.op.OtherOp? && cop.len > 0 && cfg.Accepts(cop.len) && Settled(cfg, mem, cop)
    ensures var t := StdPage(cfg, Prepared(cfg, st, cop.flags, iv), mem, cop.op, cop.src, cop.dst, cop.len);
            var r := RunReply(cfg, st, mem, cop, iv, pinned);
            && r.ret.Ok? && r.mem == t.mem && r.iv == Overlay(iv, t.st.iv, IvBytes(cfg, iv)) && r.flags == FlagsAfter(cfg, cop)
            && r.st == (if Finalizes(cfg, cop) then t.st.(hash := AfterFinal(t.st.hash)) else t.st)
            && r.digest == (if Finalizes(cfg, cop) then Some(cfg.hash.value.digest(t.st.hash)) else None)
  {
    hide Transfer, PassOf, Multiple, Cipher.Valid, Hash.Valid;
    TransferIsOnePass(cfg, Prepared(cfg, st, cop.flags, iv), mem, cop, pinned);
  }

  /** One pass from states that differ only in what was hashed before: equal outputs, and hash states
      that are equal only if they were. */
  lemma PassFromOther(cfg: Config, a: State, b: State, mem: Bytes, cop: CryptOp)
    requires cfg.Valid() && a.Valid() && b.Valid() && cfg.Accepts(cop.len) && Settled(cfg, mem, cop) && a.iv == b.iv
    ensures var s := StdPage(cfg, a, mem, cop.op, cop.src, cop.dst, cop.len);
            var t := StdPage(cfg, b, mem, cop.op, cop.src, cop.dst, cop.len);
            && s.mem == t.mem && s.st.iv == t.st.iv
            && (cfg.hash.Some? && a.hash == Fresh != b.hash ==> s.st.hash != t.st.hash)
  {
    hide CipherPass, Splice, Multiple, Cipher.Valid, Hash.Valid;
    var input := mem[cop.src..cop.src + cop.len];
    if cfg.hash.Some? && a.hash == Fresh != b.hash {
      OnePassHash(cfg, a, b, cop.op, input);
    }
  }

  /** Two states that differ only in their hash still differ there after absorbing the same data. */
  lemma OnePassHash(cfg: Config, st1: State, st2: State, op: Op, input: Bytes)
    requires cfg.Valid() && st1.Valid() && st2.Valid() && cfg.Accepts(|input|) && cfg.hash.Some?
    requires st1.iv == st2.iv && st1.hash == Fresh && st2.hash != Fresh
    ensures PassOf(cfg, st1, op, input, input).st.hash != PassOf(cfg, st2, op, input, input).st.hash
  {
    var p := PassOf(cfg, st1, op, input, input);
    var hashed := if op.Encrypt? then input else p.data;
    assert |st1.hash.msg + hashed| == |hashed|;
    if st2.hash.msg != [] { assert |st2.hash.msg + hashed| > |hashed|; }
  }

  /** Another hash in place of the session's changes nothing that a request needs. */
  lemma OtherHash(cfg: Config, st: State, mem: Bytes, cop: CryptOp, iv: Bytes, h: Hash)
    requires Callable(cfg, st, cop, iv) && cfg.Accepts(cop.len) && Settled(cfg, mem, cop) && h.Valid()
    ensures var c := WithHash(cfg, h);
            && Callable(c, st, cop, iv) && c.Accepts(cop.len) && Settled(c, mem, cop)
            && Finalizes(c, cop) == Finalizes(cfg, cop) && Prepared(c, st, cop.flags, iv) == Prepared(cfg, st, cop.flags, iv)
  {
  }

  /** Asking for NO_ZC, in a request that does not, makes no difference that a program can see exactly
      when no hash is attached, or another flag is set, or the hash state happens to be freshly reset:
      the reset is keyed to the flags being entirely zero, so asking for NO_ZC alone suppresses it. */
  lemma NoZcFlagInvisible(cfg: Config, st: State, mem: Bytes, cop: CryptOp, iv: Bytes, pinned: bool)
    requires Callable(cfg, st, cop, iv) && !cop.op.OtherOp? && !cop.flags.noZc && cfg.Accepts(cop.len)
    requires cop.len > 0 && Settled(cfg, mem, cop)
    ensures var noZc := cop.(flags := cop.flags.(noZc := true));
            Indistinguishable(cfg, st, mem, noZc, cop, iv, pinned)
            <==> cfg.hash.None? || !cop.flags.IsZero() || st.hash == Fresh
  {
    var noZc := cop.(flags := cop.flags.(noZc := true));
    if cfg.hash.None? || !cop.flags.IsZero() || st.hash == Fresh {
      forall h: Hash | h.Valid()
        ensures SameToProgram(RunReply(WithHash(cfg, h), st, mem, noZc, iv, pinned), RunReply(WithHash(cfg, h), st, mem, cop, iv, pinned))
      {
        SameReply(WithHash(cfg, h), st, mem, cop, iv, pinned);
      }
    } else {
      NoZcFlagDetected(cfg, st, mem, cop, iv, pinned);
    }
  }

  lemma SameReply(cfg: Config, st: State, mem: Bytes, cop: CryptOp, iv: Bytes, pinned: bool)
    requires Callable(cfg, st, cop, iv) && !cop.op.OtherOp? && !cop.flags.noZc && cfg.Accepts(cop.len)
    requires cop.len > 0 && Settled(cfg, mem, cop)
    requires cfg.hash.None? || !cop.flags.IsZero() || st.hash == Fresh
    ensures var noZc := cop.(flags := cop.flags.(noZc := true));
            SameToProgram(RunReply(cfg, st, mem, noZc, iv, pinned), RunReply(cfg, st, mem, cop, iv, pinned))
  {
    hide RunReply, StdPage, Overlay, Multiple, Cipher.Valid, Hash.Valid;
    var noZc := cop.(flags := cop.flags.(noZc := true));
    ReplyOfPass(cfg, st, mem, cop, iv, pinned);
    ReplyOfPass(cfg, st, mem, noZc, iv, pinned);
  }

  /** Some hash delivers a digest that differs. */
  lemma NoZcFlagDetected(cfg: Config, st: State, mem: Bytes, cop: CryptOp, iv: Bytes, pinned: bool)
    requires Callable(cfg, st, cop, iv) && !cop.op.OtherOp? && cfg.Accepts(cop.len) && cop.len > 0 && Settled(cfg, mem, cop)
    requires cfg.hash.Some? && cop.flags.IsZero() && st.hash != Fresh
    ensures !Indistinguishable(cfg, st, mem, cop.(flags := cop.flags.(noZc := true)), cop, iv, pinned)
  {
    hide RunReply, StdPage, Overlay, Multiple, Cipher.Valid, Hash.Valid;
    var noZc := cop.(flags := cop.flags.(noZc := true));
    var st1, st2 := Prepared(cfg, st, cop.flags, iv), Prepared(cfg, st, noZc.flags, iv);
    PassFromOther(cfg, st1, st2, mem, cop);
    var h := Detector(StdPage(cfg, st1, mem, cop.op, cop.src, cop.dst, cop.len).st.hash);
    OtherHash(cfg, st, mem, cop, iv, h);
    OtherHash(cfg, st, mem, noZc, iv, h);
    ReplyOfPass(WithHash(cfg, h), st, mem, cop, iv, pinned);
    ReplyOfPass(WithHash(cfg, h), st, mem, noZc, iv, pinned);
    PassOtherHash(cfg, st1, mem, cop, h);
    PassOtherHash(cfg, st2, mem, cop, h);
  }

  /** What a pass does depends on whether there is a hash, not on what it computes. */
  lemma PassOtherHash(cfg: Config, st: State, mem: Bytes, cop: CryptOp, h: Hash)
    requires cfg.Valid() && st.Valid() && cfg.Accepts(cop.len) && h.Valid()
    ensures WithHash(cfg, h).Valid() && WithHash(cfg, h).Accepts(cop.len)
    ensures StdPage(WithHash(cfg, h), st, mem, cop.op, cop.src, cop.dst, cop.len)
         == StdPage(cfg, st, mem, cop.op, cop.src, cop.dst, cop.len)
  {
    hide Crypt, Splice, Multiple;
  }

  /** The family is inhabited: after an unfinished UPDATE of one byte, a one-shot request delivers the
      digest of its own byte, and with NO_ZC alone the digest of both; here the digest is the length. */
  lemma NoZcFlagVisible(cfg: Config, st: State, cop: CryptOp, pinned: bool) returns (h: Hash)
    requires cfg.cipher.None? && cfg.hash.Some? && st.Valid()
    requires cop == CryptOp(Encrypt, NoFlags, 1, 1, 0) && st.hash == HashState(Reset, [7])
    ensures h.Valid()
    ensures var c := WithHash(cfg, h);
            var noZc := cop.(flags := cop.flags.(noZc := true));
            && RunReply(c, st, [0, 7], cop, [], pinned).digest == Some([1])
            && RunReply(c, st, [0, 7], noZc, [], pinned).digest == Some([2])
  {
    h := Hash(1, (s: HashState) => [|s.msg| % 256]);
    var c := WithHash(cfg, h);
    var noZc := cop.(flags := cop.flags.(noZc := true));
    ReplyOfPass(c, st, [0, 7], cop, [], pinned);
    ReplyOfPass(c, st, [0, 7], noZc, [], pinned);
  }

  /** A request with misaligned buffers comes back with NO_ZC set. A program that makes it again, on
      whatever is then in memory, sees no difference from making the original again exactly when no
      hash is attached, or a flag was set, or both buffers are aligned after all. */
  lemma MisalignedReuse(cfg: Config, st: State, mem: Bytes, cop: CryptOp, iv: Bytes, pinned: bool,
                        mem': Bytes, iv': Bytes, pinned': bool)
    requires Callable(cfg, st, cop, iv) && !cop.op.OtherOp? && cfg.Accepts(cop.len) && cop.len > 0
    requires Settled(cfg, mem, cop) && Settled(cfg, mem', cop) && |iv'| <= EALG_MAX_BLOCK_LEN
    ensures var r := RunReply(cfg, st, mem, cop, iv, pinned);
            Indistinguishable(cfg, r.st, mem', CopiedBack(cop, r), cop, iv', pinned')
            <==> cfg.hash.None? || !cop.flags.IsZero() || (cop.src % (cfg.alignmask + 1) == 0 && cop.dst % (cfg.alignmask + 1) == 0)
  {
    hide RunReply, StdPage, Overlay, Multiple, Cipher.Valid, Hash.Valid;
    ReplyOfPass(cfg, st, mem, cop, iv, pinned);
    var r := RunReply(cfg, st, mem, cop, iv, pinned);
    if CopiedBack(cop, r) != cop {
      NoZcFlagInvisible(cfg, r.st, mem', cop, iv', pinned');
    }
  }

  // ---- Streaming ----

  /** How one call of a stream is made. */
  datatype Piece = Piece(len: nat, flags: Flags, pinned: bool)

  /** The flags of a call inside a stream: with a hash attached it is an UPDATE that neither resets nor
      finishes the hash, without one the flags do not matter. */
  predicate Chains(cfg: Config, flags: Flags) {
    cfg.hash.Some? ==> flags.update && !flags.final && !flags.reset
  }

  function PieceOp(op: Op, p: Piece, src: nat, dst: nat): CryptOp {
    CryptOp(op, p.flags, p.len, src, dst)
  }

  function Total(pieces: seq<Piece>): nat {
    if pieces == [] then 0 else pieces[0].len + Total(pieces[1..])
  }

  /** Pieces that cut at cipher-block boundaries; only the last may be ragged (counter mode). */
  ghost predicate Cuts(cfg: Config, pieces: seq<Piece>)
    requires cfg.Valid()
  {
    && (forall i :: 0 <= i < |pieces| ==> pieces[i].len > 0 && cfg.Accepts(pieces[i].len) && Chains(cfg, pieces[i].flags))
    && (forall i :: 0 <= i < |pieces| - 1 ==> cfg.cipher.Some? ==> Multiple(pieces[i].len, cfg.cipher.value.unit))
  }

  /** A program working through adjacent pieces, one call each. The first call passes the IV buffer
      `iv`; later calls pass that buffer again (`feed`), which WRITE_IV has updated, or none at all. */
  function Stream(cfg: Config, st: State, mem: Bytes, op: Op, src: nat, dst: nat, iv: Bytes,
                  pieces: seq<Piece>, feed: bool): Reply
    requires cfg.Valid() && st.Valid() && |iv| <= EALG_MAX_BLOCK_LEN && src != 0 && dst != 0
    requires forall i :: 0 <= i < |pieces| ==> pieces[i].len > 0
    decreases |pieces|
  {
    if pieces == [] then Reply(Ok, st, mem, iv, NoFlags, None)
    else
      var p := pieces[0];
      var r := RunReply(cfg, st, mem, PieceOp(op, p, src, dst), iv, p.pinned);
      if !r.ret.Ok? || |pieces| == 1 then r
      else Stream(cfg, r.st, r.mem, op, src + p.len, dst + p.len,
                  if !feed then [] else if p.flags.writeIv then r.iv else iv, pieces[1..], feed)
  }

  /** A call inside a stream is one pass from the prepared state, with the IV written back. */
  lemma UpdateCall(cfg: Config, st: State, mem: Bytes, op: Op, p: Piece, src: nat, dst: nat, iv: Bytes)
    requires cfg.Valid() && st.Valid() && |iv| <= EALG_MAX_BLOCK_LEN && src != 0 && dst != 0 && !op.OtherOp?
    requires cfg.cipher.Some? && p.len > 0 && cfg.Accepts(p.len) && Mapped(cfg, mem, src, dst, p.len)
    requires Chains(cfg, p.flags)
    ensures var cop := PieceOp(op, p, src, dst);
            var r := StdPage(cfg, Prepared(cfg, st, cop.flags, iv), mem, op, src, dst, p.len);
            RunReply(cfg, st, mem, cop, iv, p.pinned) == Reply(Ok, r.st, r.mem, Overlay(iv, r.st.iv, IvBytes(cfg, iv)), FlagsAfter(cfg, cop), None)
  {
    var cop := PieceOp(op, p, src, dst);
    TransferIsOnePass(cfg, Prepared(cfg, st, cop.flags, iv), mem, cop, p.pinned);
  }

  /** Passing back the IV just written out, or none, leaves the stored IV as it is. */
  lemma IvContinues(cfg: Config, st: State, flags: Flags, iv: Bytes)
    requires cfg.Valid() && st.Valid() && |iv| <= EALG_MAX_BLOCK_LEN
    requires Chains(cfg, flags)
    requires iv[..IvBytes(cfg, iv)] == st.iv[..IvBytes(cfg, iv)]
    ensures Prepared(cfg, st, flags, iv) == st
  {
  }

  /** Without a reset the prepared state depends on the flags no further. */
  lemma PreparedUpdate(cfg: Config, st: State, op: Op, p: Piece, q: Piece, iv: Bytes)
    requires cfg.Valid() && st.Valid() && |iv| <= EALG_MAX_BLOCK_LEN && Chains(cfg, p.flags) && Chains(cfg, q.flags)
    ensures Prepared(cfg, st, PieceOp(op, p, 0, 0).flags, iv) == Prepared(cfg, st, PieceOp(op, q, 0, 0).flags, iv)
  {
  }

  /** The IV passed to the next call agrees with the stored one, and writing back over it or over
      the original IV is the same. */
  lemma FeedBack(cfg: Config, iv: Bytes, stored: Bytes, last: Bytes, feed: bool)
    requires cfg.Valid() && |iv| <= EALG_MAX_BLOCK_LEN && |stored| == |last| == EALG_MAX_BLOCK_LEN
    ensures var next := if feed then Overlay(iv, stored, IvBytes(cfg, iv)) else [];
            && |next| <= EALG_MAX_BLOCK_LEN
            && next[..IvBytes(cfg, next)] == stored[..IvBytes(cfg, next)]
            && (feed ==> Overlay(next, last, IvBytes(cfg, next)) == Overlay(iv, last, IvBytes(cfg, iv)))
  {
  }

  /** Streaming equals one shot: any cut at block boundaries, over any mixture of paths, with the IV
      fed back or left out, ends with the memory, stored IV and hash state of a single call. */
  lemma {:induction false} StreamIsOneShot(cfg: Config, st: State, mem: Bytes, op: Op, src: nat, dst: nat,
                                           iv: Bytes, pieces: seq<Piece>, feed: bool, whole: Piece)
    requires cfg.Valid() && st.Valid() && |iv| <= EALG_MAX_BLOCK_LEN && src != 0 && dst != 0 && !op.OtherOp?
    requires cfg.cipher.Some? && pieces != [] && Cuts(cfg, pieces) && whole.len == Total(pieces)
    requires Mapped(cfg, mem, src, dst, whole.len) && Chains(cfg, whole.flags)
    requires feed ==> forall i :: 0 <= i < |pieces| ==> pieces[i].flags.writeIv
    ensures whole.len > 0 && cfg.Accepts(whole.len)
    ensures var s := Stream(cfg, st, mem, op, src, dst, iv, pieces, feed);
            var r := RunReply(cfg, st, mem, PieceOp(op, whole, src, dst), iv, whole.pinned);
            s.ret.Ok? && s.st == r.st && s.mem == r.mem && (feed ==> s.iv == r.iv)
    decreases |pieces|
  {
    hide StdPage, RunReply, Multiple, Prepared, Overlay, Cipher.Valid, Hash.Valid;
    var p, rest := pieces[0], pieces[1..];
    if |pieces| == 1 {
      assert Total(rest) == 0;
      UpdateCall(cfg, st, mem, op, p, src, dst, iv);
      UpdateCall(cfg, st, mem, op, whole, src, dst, iv);
      PreparedUpdate(cfg, st, op, p, whole, iv);
    } else {
      var m := Total(rest);
      var cop := PieceOp(op, p, src, dst);
      var st' := Prepared(cfg, st, cop.flags, iv);
      assert Mapped(cfg, mem, src, dst, p.len);
      UpdateCall(cfg, st, mem, op, p, src, dst, iv);
      var r := StdPage(cfg, st', mem, op, src, dst, p.len);
      var next := if feed then Overlay(iv, r.st.iv, IvBytes(cfg, iv)) else [];
      CutsTail(cfg, pieces);
      TotalAccepted(cfg, rest);
      AcceptsSum(cfg, p.len, m);
      StdPageSplit(cfg, st', mem, op, src, dst, p.len, m);
      var tail := Piece(m, whole.flags, whole.pinned);
      StreamIsOneShot(cfg, r.st, r.mem, op, src + p.len, dst + p.len, next, rest, feed, tail);
      UpdateCall(cfg, st, mem, op, whole, src, dst, iv);
      UpdateCall(cfg, r.st, r.mem, op, tail, src + p.len, dst + p.len, next);
      FeedBack(cfg, iv, r.st.iv, StdPage(cfg, r.st, r.mem, op, src + p.len, dst + p.len, m).st.iv, feed);
      IvContinues(cfg, r.st, PieceOp(op, tail, src, dst).flags, next);
      PreparedUpdate(cfg, st, op, p, whole, iv);
    }
  }

  lemma CutsTail(cfg: Config, pieces: seq<Piece>)
    requires cfg.Valid() && |pieces| > 1 && Cuts(cfg, pieces)
    ensures Cuts(cfg, pieces[1..])
    ensures cfg.cipher.Some? ==> Multiple(pieces[0].len, cfg.cipher.value.unit)
  {
  }

  lemma {:induction false} TotalAccepted(cfg: Config, pieces: seq<Piece>)
    requires cfg.Valid() && pieces != [] && Cuts(cfg, pieces)
    ensures Total(pieces) > 0 && cfg.Accepts(Total(pieces))
    decreases |pieces|
  {
    if |pieces| == 1 {
      assert Total(pieces[1..]) == 0;
    } else {
      CutsTail(cfg, pieces);
      TotalAccepted(cfg, pieces[1..]);
      AcceptsSum(cfg, pieces[0].len, Total(pieces[1..]));
    }
  }

  // ---- Hash and encrypt, decrypt and hash ----

  /** A call that starts its hash afresh and delivers the digest. */
  predicate OneShot(cfg: Config, cop: CryptOp) { Resets(cfg, cop.flags) && Finalizes(cfg, cop) }

  /** A one-shot call on a session with cipher and hash, in terms of its input bytes. */
  lemma OneShotCall(cfg: Config, st: State, mem: Bytes, cop: CryptOp, iv: Bytes, pinned: bool)
    requires Callable(cfg, st, cop, iv) && !cop.op.OtherOp? && cop.len > 0
    requires cfg.cipher.Some? && |iv| == cfg.cipher.value.IvSize() && cfg.Accepts(cop.len)
    requires cfg.hash.Some? ==> OneShot(cfg, cop)
    requires Settled(cfg, mem, cop)
    ensures var input := mem[cop.src..cop.src + cop.len];
            var c := Crypt(cfg.cipher.value, cop.op, iv, input);
            var plain := if cop.op.Encrypt? then input else c.data;
            var r := RunReply(cfg, st, mem, cop, iv, pinned);
            && |c.data| == cop.len && |c.iv| == |iv|
            && r.ret.Ok? && r.mem == Splice(mem, cop.dst, c.data) && r.iv == c.iv
            && r.digest == if cfg.hash.Some? then Some(cfg.hash.value.Of(plain)) else None
  {
    hide Crypt, Splice, Multiple, Transfer, PassOf, Cipher.Valid, Hash.Valid;
    var st' := Prepared(cfg, st, cop.flags, iv);
    var input := mem[cop.src..cop.src + cop.len];
    TransferIsOnePass(cfg, st', mem, cop, pinned);
    assert st'.iv[..|iv|] == iv;
    OneShotPass(cfg, st', cop.op, iv, input);
  }

  /** The pass of such a call: its output, its IV and the message it hashes. */
  lemma OneShotPass(cfg: Config, st: State, op: Op, iv: Bytes, input: Bytes)
    requires cfg.Valid() && st.Valid() && cfg.cipher.Some? && cfg.Accepts(|input|)
    requires |iv| == cfg.cipher.value.IvSize() && st.iv[..|iv|] == iv
    ensures var c := Crypt(cfg.cipher.value, op, iv, input);
            var plain := if op.Encrypt? then input else c.data;
            var p := PassOf(cfg, st, op, input, input);
            && |c.data| == |input| && |c.iv| == |iv| && p.data == c.data
            && Overlay(iv, p.st.iv, |iv|) == c.iv
            && (cfg.hash.Some? && st.hash == Fresh ==> p.st.hash == HashState(Reset, plain))
  {
    hide Crypt;
    CryptLength(cfg.cipher.value, op, iv, input);
    var c := Crypt(cfg.cipher.value, op, iv, input);
    var plain := if op.Encrypt? then input else c.data;
    assert [] + plain == plain;
  }

  /** A request that may be made before a call on a session with a cipher may be made after it. */
  lemma NextCall(cfg: Config, st: State, st': State, mem: Bytes, mem': Bytes, enc: CryptOp, dec: CryptOp, iv: Bytes)
    requires Callable(cfg, st, enc, iv) && st'.Valid() && |mem'| == |mem| && cfg.cipher.Some?
    requires enc.len > 0 && dec.len == enc.len && dec.src == enc.dst && dec.dst != 0 && Settled(cfg, mem, dec)
    ensures Callable(cfg, st', dec, iv) && Settled(cfg, mem', dec)
  {
  }

  /** Decrypting a range that holds the encryption of `input`. */
  lemma DecryptCall(cfg: Config, st: State, mem: Bytes, dec: CryptOp, iv: Bytes, input: Bytes, pinned: bool)
    requires Callable(cfg, st, dec, iv) && dec.op.Decrypt? && dec.len == |input| > 0
    requires cfg.cipher.Some? && |iv| == cfg.cipher.value.IvSize() && cfg.Accepts(dec.len)
    requires cfg.hash.Some? ==> OneShot(cfg, dec)
    requires Settled(cfg, mem, dec) && dec.dst != 0
    requires mem[dec.src..dec.src + dec.len] == Crypt(cfg.cipher.value, Encrypt, iv, input).data
    ensures var r := RunReply(cfg, st, mem, dec, iv, pinned);
            && r.ret.Ok? && r.mem == Splice(mem, dec.dst, input)
            && r.iv == Crypt(cfg.cipher.value, Encrypt, iv, input).iv
            && r.digest == if cfg.hash.Some? then Some(cfg.hash.value.Of(input)) else None
  {
    hide Crypt, RunReply, Multiple, Splice, OneShot, Hash.Valid;
    OneShotCall(cfg, st, mem, dec, iv, pinned);
    CryptInverse(cfg.cipher.value, iv, input);
  }

  /** The state of affairs after the encryption. */
  lemma EncryptCall(cfg: Config, st: State, mem: Bytes, enc: CryptOp, dec: CryptOp, iv: Bytes, pinned: bool)
    requires Callable(cfg, st, enc, iv) && enc.op.Encrypt? && enc.len > 0
    requires cfg.cipher.Some? && |iv| == cfg.cipher.value.IvSize() && cfg.Accepts(enc.len)
    requires cfg.hash.Some? ==> OneShot(cfg, enc)
    requires dec.len == enc.len && dec.src == enc.dst && dec.dst != 0
    requires Settled(cfg, mem, enc) && Settled(cfg, mem, dec)
    ensures cfg.cipher.value.unit > 0 && enc.src + enc.len <= |mem| && enc.dst + enc.len <= |mem| && dec.dst + dec.len <= |mem|
    ensures var input := mem[enc.src..enc.src + enc.len];
            var c := Crypt(cfg.cipher.value, Encrypt, iv, input);
            var r := RunReply(cfg, st, mem, enc, iv, pinned);
            && Callable(cfg, r.st, dec, iv) && Settled(cfg, r.mem, dec)
            && r.ret.Ok? && |c.data| == enc.len && r.mem == Splice(mem, enc.dst, c.data) && r.iv == c.iv
            && r.digest == if cfg.hash.Some? then Some(cfg.hash.value.Of(input)) else None
  {
    hide Crypt, RunReply, Multiple, Splice, OneShot, Hash.Valid;
    OneShotCall(cfg, st, mem, enc, iv, pinned);
    var r := RunReply(cfg, st, mem, enc, iv, pinned);
    NextCall(cfg, st, r.st, mem, r.mem, enc, dec, iv);
  }

  /** Decrypting what was encrypted, under the same IV, restores the plaintext, delivers the same
      digest and ends with the same IV, whichever path each call takes. */
  lemma DecryptInvertsEncrypt(cfg: Config, st: State, mem: Bytes, enc: CryptOp, dec: CryptOp, iv: Bytes,
                              pinned: bool, pinned': bool)
    requires Callable(cfg, st, enc, iv) && enc.op.Encrypt? && dec.op.Decrypt? && enc.len > 0
    requires cfg.cipher.Some? && |iv| == cfg.cipher.value.IvSize() && cfg.Accepts(enc.len)
    requires cfg.hash.Some? ==> OneShot(cfg, enc) && OneShot(cfg, dec)
    requires dec.len == enc.len && dec.src == enc.dst && dec.dst != 0
    requires Settled(cfg, mem, enc) && Settled(cfg, mem, dec)
    ensures var r := RunReply(cfg, st, mem, enc, iv, pinned);
            Callable(cfg, r.st, dec, iv) &&
            var r' := RunReply(cfg, r.st, r.mem, dec, iv, pinned');
            && r.ret.Ok? && r'.ret.Ok?
            && r'.mem[dec.dst..dec.dst + dec.len] == mem[enc.src..enc.src + enc.len]
            && r'.digest == r.digest && r'.iv == r.iv
            && (dec.dst == enc.src == enc.dst ==> r'.mem == mem)
  {
    hide Crypt, RunReply, Multiple, Splice, OneShot, Hash.Valid, Callable, Settled;
    EncryptCall(cfg, st, mem, enc, dec, iv, pinned);
    var input := mem[enc.src..enc.src + enc.len];
    var r := RunReply(cfg, st, mem, enc, iv, pinned);
    DecryptCall(cfg, r.st, r.mem, dec, iv, input, pinned');
    WrittenBack(mem, enc.dst, Crypt(cfg.cipher.value, Encrypt, iv, input).data, input);
  }

  /** Writing the plaintext over its own ciphertext restores the memory it came from. */
  lemma WrittenBack(mem: Bytes, at: nat, y: Bytes, input: Bytes)
    requires at + |y| <= |mem| && |input| == |y|
    ensures mem[at..at + |y|] == input ==> Splice(Splice(mem, at, y), at, input) == mem
  {
  }
}
