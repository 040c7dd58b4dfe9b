/**
 A request to crypto_run (main.c), flag by flag: which status it returns, what it writes and what it
 hashes, for every session, earlier state and memory. These statements are written over the request's
 own fields, the cipher's `Crypt` and nothing else of the model's vocabulary.
 */
module RequestTheorems {
  import opened Bytes
  import opened BlockModes
  import opened HashCore
  import opened RunEngine
  import opened RunTheorems

  // ---- Status ----

  /** The page loop fails exactly when an address it needs is unmapped, whatever overlaps. */
  lemma {:induction false} StdFaults(cfg: Config, st: State, mem: Bytes, op: Op, src: nat, dst: nat, n: nat)
    requires cfg.Valid() && st.Valid() && cfg.Accepts(n) && n > 0
    ensures StdTransfer(cfg, st, mem, op, src, dst, n).ret ==
            if src + n > |mem| || (cfg.cipher.Some? && dst + n > |mem|) then EFAULT else Ok
    decreases n
  {
    hide PassOf, Splice, Multiple, Cipher.Valid, Hash.Valid;
    AcceptsPage(cfg, n);
    var k := Min(PAGE_SIZE, n);
    var r := StdPage(cfg, st, mem, op, src, dst, k);
    if k < n {
      StdFaults(cfg, r.st, r.mem, op, src + k, dst + k, n - k);
    }
  }

  /** The length is one the session's cipher takes. */
  lemma AcceptsIsMod(cfg: Config, n: nat)
    requires cfg.Valid()
    ensures cfg.Accepts(n) <==> (cfg.cipher.None? || cfg.cipher.value.mode.Ctr? || n % cfg.cipher.value.unit == 0)
  {
    if cfg.cipher.Some? {
      if cfg.cipher.value.mode.Ctr? { MultipleOfOne(n); } else { MultipleIsMod(n, cfg.cipher.value.unit); }
    }
  }

  /** The status of every request: EINVAL for an unknown operation or a ragged length, ENOMEM for want
      of a page where the data has to be copied, EFAULT for an unmapped address, and otherwise success;
      a misaligned buffer comes back with NO_ZC and no other flag is touched. */
  lemma RequestStatus(cfg: Config, st: State, mem: Bytes, cop: CryptOp, iv: Bytes, pinned: bool, page: bool)
    requires Callable(cfg, st, cop, iv)
    ensures var r := RunReplyIn(cfg, st, mem, cop, iv, pinned, page);
            var n := cop.len;
            var ragged := cfg.cipher.Some? && !cfg.cipher.value.mode.Ctr? && n % cfg.cipher.value.unit != 0;
            var crooked := cop.src % (cfg.alignmask + 1) != 0 || cop.dst % (cfg.alignmask + 1) != 0;
            var copied := cop.flags.noZc || crooked || !pinned || cop.src + n > |mem| || (cop.dst != 0 && cop.dst + n > |mem|);
            var unmapped := cop.src + n > |mem| || (cfg.cipher.Some? && cop.dst + n > |mem|);
            && r.ret == (if cop.op.OtherOp? || ragged then EINVAL
                         else if n == 0 then Ok
                         else if copied && !page then ENOMEM
                         else if unmapped then EFAULT else Ok)
            && r.flags == (if !r.ret.EINVAL? && n > 0 && crooked then cop.flags.(noZc := true) else cop.flags)
            && (!r.ret.Ok? ==> r.digest.None? && r.iv == iv)
            && (r.ret.EINVAL? || r.ret.ENOMEM? ==> r.mem == mem)
  {
    AcceptsIsMod(cfg, cop.len);
    hide StdTransfer, PassOf, Splice, Multiple, Cipher.Valid, Hash.Valid, Prepared, Overlay;
    if cop.len > 0 && cfg.Accepts(cop.len) {
      StdFaults(cfg, Prepared(cfg, st, cop.flags, iv), mem, cop.op, cop.src, cop.dst, cop.len);
    }
  }

  // ---- Effect ----

  /** The data of a request is where it can be read and written without the choice of path mattering. */
  predicate InPlace(cfg: Config, mem: Bytes, cop: CryptOp) {
    && cop.src + cop.len <= |mem|
    && (cfg.cipher.Some? ==> cop.dst + cop.len <= |mem| && (cop.dst <= cop.src || cop.src + cop.len <= cop.dst))
    && (cfg.cipher.None? && cfg.hash.Some? && !cop.op.Encrypt? ==>
          cop.dst + cop.len <= |mem| && mem[cop.src..cop.src + cop.len] == mem[cop.dst..cop.dst + cop.len])
  }

  /** The IV a request is processed under: as many bytes of its own as the cipher takes, then the stored ones. */
  lemma IvLoads(cfg: Config, st: State, flags: Flags, iv: Bytes, n: nat, k: nat)
    requires cfg.Valid() && st.Valid() && |iv| <= EALG_MAX_BLOCK_LEN
    requires n == if cfg.cipher.None? || cfg.cipher.value.mode.Ecb? then 0 else cfg.cipher.value.unit
    requires k == if |iv| < n then |iv| else n
    ensures k <= n <= EALG_MAX_BLOCK_LEN && IvBytes(cfg, iv) == k
    ensures Prepared(cfg, st, flags, iv).iv == iv[..k] + st.iv[k..]
    ensures Prepared(cfg, st, flags, iv).iv[..n] == iv[..k] + st.iv[k..n]
    ensures Prepared(cfg, st, flags, iv).iv[n..] == st.iv[n..]
  {
  }

  lemma NotLoaded(cfg: Config, st: State, flags: Flags)
    requires cfg.Valid() && st.Valid()
    ensures Prepared(cfg, st, flags, []).iv == st.iv
  {
  }

  lemma LoadsNothing(cfg: Config, st: State, flags: Flags, iv: Bytes)
    requires cfg.Valid() && st.Valid() && |iv| <= EALG_MAX_BLOCK_LEN && cfg.cipher.None?
    ensures Prepared(cfg, st, flags, iv).iv == st.iv && Overlay(iv, st.iv, IvBytes(cfg, iv)) == iv
  {
  }

  lemma HashPrepared(cfg: Config, st: State, f: Flags, iv: Bytes)
    requires cfg.Valid() && st.Valid() && |iv| <= EALG_MAX_BLOCK_LEN
    ensures var anew := f.reset || !(f.update || f.final || f.writeIv || f.noZc || f.tls || f.srtp || f.other);
            Prepared(cfg, st, f, iv).hash == if cfg.hash.Some? && anew then HashState(Reset, []) else st.hash
  {
  }

  /** Without data the IV that was loaded is given back as it is. */
  lemma NoData(cfg: Config, st: State, cop: CryptOp, iv: Bytes)
    requires cfg.Valid() && st.Valid() && |iv| <= EALG_MAX_BLOCK_LEN
    ensures Overlay(iv, Prepared(cfg, st, cop.flags, iv).iv, IvBytes(cfg, iv)) == iv
  {
  }

  /** One pass of a cipher over data in memory. */
  lemma PassCiphers(cfg: Config, st: State, mem: Bytes, cop: CryptOp, n: nat)
    requires cfg.Valid() && st.Valid() && cfg.cipher.Some? && cfg.Accepts(cop.len) && n == cfg.cipher.value.IvSize()
    requires cop.src + cop.len <= |mem| && cop.dst + cop.len <= |mem|
    ensures var t := StdPage(cfg, st, mem, cop.op, cop.src, cop.dst, cop.len);
            var out := Crypt(cfg.cipher.value, cop.op, st.iv[..n], mem[cop.src..cop.src + cop.len]);
            && |out.data| == cop.len && |out.iv| == n
            && t.mem == Splice(mem, cop.dst, out.data) && t.st.iv == out.iv + st.iv[n..]
  {
    CryptLength(cfg.cipher.value, cop.op, st.iv[..n], mem[cop.src..cop.src + cop.len]);
    hide Crypt, Multiple, Splice, Cipher.Valid, Hash.Valid;
  }

  /** What a request enciphers: its data under the first bytes of its own IV and, where that is shorter
      than the cipher's, the rest of the stored one. The chaining value is stored and given back. */
  lemma RequestCiphers(cfg: Config, st: State, mem: Bytes, cop: CryptOp, iv: Bytes, pinned: bool)
    requires Callable(cfg, st, cop, iv) && cfg.cipher.Some? && !cop.op.OtherOp? && cop.len > 0 && InPlace(cfg, mem, cop)
    requires cfg.cipher.value.mode.Ctr? || cop.len % cfg.cipher.value.unit == 0
    ensures var r := RunReply(cfg, st, mem, cop, iv, pinned);
            var c := cfg.cipher.value;
            var n := if c.mode.Ecb? then 0 else c.unit;
            var k := if |iv| < n then |iv| else n;
            var out := Crypt(c, cop.op, iv[..k] + st.iv[k..n], mem[cop.src..cop.src + cop.len]);
            && r.ret.Ok? && |r.mem| == |mem| && |out.data| == cop.len && |out.iv| == n
            && r.mem[cop.dst..cop.dst + cop.len] == out.data
            && r.mem[..cop.dst] == mem[..cop.dst] && r.mem[cop.dst + cop.len..] == mem[cop.dst + cop.len..]
            && r.st.iv == out.iv + st.iv[n..] && r.iv == out.iv[..k] + iv[k..]
  {
    var n := cfg.cipher.value.IvSize();
    var k := IvBytes(cfg, iv);
    assert k <= n <= EALG_MAX_BLOCK_LEN == |st.iv| && cfg.cipher.value.unit > 0;
    hide RunReply, Crypt, Multiple, Cipher.Valid, Hash.Valid;
    CiphersAt(cfg, st, mem, cop, iv, pinned, n, k, iv[..k] + st.iv[k..n]);
  }

  lemma CiphersAt(cfg: Config, st: State, mem: Bytes, cop: CryptOp, iv: Bytes, pinned: bool, n: nat, k: nat, start: Bytes)
    requires Callable(cfg, st, cop, iv) && cfg.cipher.Some? && !cop.op.OtherOp? && cop.len > 0 && InPlace(cfg, mem, cop)
    requires cfg.cipher.value.mode.Ctr? || cop.len % cfg.cipher.value.unit == 0
    requires n == if cfg.cipher.value.mode.Ecb? then 0 else cfg.cipher.value.unit
    requires k == (if |iv| < n then |iv| else n) && k <= n <= EALG_MAX_BLOCK_LEN && start == iv[..k] + st.iv[k..n]
    ensures var r := RunReply(cfg, st, mem, cop, iv, pinned);
            var out := Crypt(cfg.cipher.value, cop.op, start, mem[cop.src..cop.src + cop.len]);
            && r.ret.Ok? && |r.mem| == |mem| && |out.data| == cop.len && |out.iv| == n
            && r.mem[cop.dst..cop.dst + cop.len] == out.data
            && r.mem[..cop.dst] == mem[..cop.dst] && r.mem[cop.dst + cop.len..] == mem[cop.dst + cop.len..]
            && r.st.iv == out.iv + st.iv[n..] && r.iv == out.iv[..k] + iv[k..]
  {
    AcceptsIsMod(cfg, cop.len);
    assert cfg.cipher.value.unit > 0;
    hide RunReply, StdPage, Crypt, Multiple, Splice, Cipher.Valid, Hash.Valid, Prepared;
    ReplyOfPass(cfg, st, mem, cop, iv, pinned);
    IvLoads(cfg, st, cop.flags, iv, n, k);
    var st' := Prepared(cfg, st, cop.flags, iv);
    PassCiphers(cfg, st', mem, cop, n);
    var out := Crypt(cfg.cipher.value, cop.op, start, mem[cop.src..cop.src + cop.len]);
    hide Overlay, Callable;
    SpliceParts(mem, cop.dst, out.data);
    OverlayParts(iv, out.iv, st'.iv[n..], k);
  }

  lemma SpliceParts(mem: Bytes, at: nat, s: Bytes)
    requires at + |s| <= |mem|
    ensures var r := Splice(mem, at, s);
            |r| == |mem| && r[at..at + |s|] == s && r[..at] == mem[..at] && r[at + |s|..] == mem[at + |s|..]
  {
  }

  lemma OverlayParts(iv: Bytes, out: Bytes, rest: Bytes, k: nat)
    requires k <= |iv| && k <= |out|
    ensures Overlay(iv, out + rest, k) == out[..k] + iv[k..]
  {
  }

  /** What a request hashes: its plaintext, after nothing if it has the flag RESET or no flag at all,
      and otherwise after what the state already held. The digest is delivered, and the state spent, at
      a FINAL, without UPDATE, or without data. */
  lemma RequestHashes(cfg: Config, st: State, mem: Bytes, cop: CryptOp, iv: Bytes, pinned: bool)
    requires Callable(cfg, st, cop, iv) && cfg.hash.Some? && !cop.op.OtherOp?
    requires cop.len > 0 ==> InPlace(cfg, mem, cop)
    requires cfg.cipher.Some? ==> cfg.cipher.value.mode.Ctr? || cop.len % cfg.cipher.value.unit == 0
    ensures var r := RunReply(cfg, st, mem, cop, iv, pinned);
            var f := cop.flags;
            var anew := f.reset || !(f.update || f.final || f.writeIv || f.noZc || f.tls || f.srtp || f.other);
            var before := if anew then HashState(Reset, []) else st.hash;
            |r.mem| == |mem| &&
            var plain := if cop.len == 0 then []
                         else if cop.op.Encrypt? || cfg.cipher.None? then mem[cop.src..cop.src + cop.len]
                         else r.mem[cop.dst..cop.dst + cop.len];
            var after := HashState(before.base, before.msg + plain);
            if f.final || !f.update || cop.len == 0
            then r.digest == Some(cfg.hash.value.digest(after)) && r.st.hash == HashState(Spent(after), [])
            else r.digest.None? && r.st.hash == after
  {
    AcceptsIsMod(cfg, cop.len);
    HashPrepared(cfg, st, cop.flags, iv);
    var st' := Prepared(cfg, st, cop.flags, iv);
    hide Prepared, Multiple, Cipher.Valid, Hash.Valid;
    if cop.len > 0 {
      ReplyOfPass(cfg, st, mem, cop, iv, pinned);
      PassHashes(cfg, st', mem, cop);
      hide RunReply, StdPage;
    } else {
      assert Absorb(st'.hash, []) == st'.hash;
    }
  }

  /** One pass absorbs what it enciphers or what it has deciphered. */
  lemma PassHashes(cfg: Config, st: State, mem: Bytes, cop: CryptOp)
    requires cfg.Valid() && st.Valid() && cfg.hash.Some? && cfg.Accepts(cop.len) && InPlace(cfg, mem, cop)
    ensures var t := StdPage(cfg, st, mem, cop.op, cop.src, cop.dst, cop.len);
            var plain := if cop.op.Encrypt? || cfg.cipher.None? then mem[cop.src..cop.src + cop.len]
                         else t.mem[cop.dst..cop.dst + cop.len];
            t.st.hash == HashState(st.hash.base, st.hash.msg + plain)
  {
    hide CipherPass, Splice, Multiple, Cipher.Valid, Hash.Valid;
  }

  /** Neither path touches what the session has no algorithm for. */
  lemma {:induction false} StdKeeps(cfg: Config, st: State, mem: Bytes, op: Op, src: nat, dst: nat, n: nat)
    requires cfg.Valid() && st.Valid() && cfg.Accepts(n)
    ensures var r := StdTransfer(cfg, st, mem, op, src, dst, n);
            && (cfg.cipher.None? ==> r.mem == mem && r.st.iv == st.iv)
            && (cfg.hash.None? ==> r.st.hash == st.hash)
    decreases n
  {
    hide CipherPass, Splice, Multiple, Cipher.Valid, Hash.Valid;
    if n > 0 {
      AcceptsPage(cfg, n);
      var k := Min(PAGE_SIZE, n);
      var r := StdPage(cfg, st, mem, op, src, dst, k);
      StdKeeps(cfg, r.st, r.mem, op, src + k, dst + k, n - k);
    }
  }

  lemma ZcKeeps(cfg: Config, st: State, mem: Bytes, op: Op, src: nat, dst: nat, n: nat)
    requires cfg.Valid() && st.Valid() && cfg.Accepts(n)
    requires Pinnable(mem, src, dst, n) && (NeedsDst(cfg, op) ==> dst != 0)
    ensures var r := ZcTransfer(cfg, st, mem, op, src, dst, n);
            && (cfg.cipher.None? ==> r.mem == mem && r.st.iv == st.iv)
            && (cfg.hash.None? ==> r.st.hash == st.hash)
  {
    hide CipherPass, Splice, Multiple, Cipher.Valid, Hash.Valid;
    if dst != 0 { SpliceSame(mem, dst, n); }
  }

  lemma TransferKeeps(cfg: Config, st: State, mem: Bytes, cop: CryptOp, pinned: bool)
    requires cfg.Valid() && st.Valid() && cfg.Accepts(cop.len) && (NeedsDst(cfg, cop.op) ==> cop.dst != 0)
    ensures var r := Transfer(cfg, st, mem, cop, pinned);
            && (cfg.cipher.None? ==> r.mem == mem && r.st.iv == st.iv)
            && (cfg.hash.None? ==> r.st.hash == st.hash)
  {
    StdKeeps(cfg, st, mem, cop.op, cop.src, cop.dst, cop.len);
    if Pinnable(mem, cop.src, cop.dst, cop.len) { ZcKeeps(cfg, st, mem, cop.op, cop.src, cop.dst, cop.len); }
    hide StdTransfer, ZcTransfer, Multiple, Cipher.Valid, Hash.Valid;
  }

  /** What a request leaves alone, however it ends: a session without a cipher keeps its IV and the
      memory, one without a hash its hash state and delivers no digest. */
  lemma RequestKeeps(cfg: Config, st: State, mem: Bytes, cop: CryptOp, iv: Bytes, pinned: bool, page: bool)
    requires Callable(cfg, st, cop, iv)
    ensures var r := RunReplyIn(cfg, st, mem, cop, iv, pinned, page);
            && (cfg.cipher.None? ==> r.mem == mem && r.iv == iv && r.st.iv == st.iv)
            && (cfg.hash.None? ==> r.st.hash == st.hash && r.digest.None?)
  {
    if cop.len > 0 && cfg.Accepts(cop.len) {
      TransferKeeps(cfg, Prepared(cfg, st, cop.flags, iv), mem, cop, pinned);
    }
    hide Transfer, Copies, Multiple, Cipher.Valid, Hash.Valid;
    if cfg.cipher.None? {
      LoadsNothing(cfg, st, cop.flags, iv);
      LoadsNothing(cfg, st, cop.flags, []);
    }
    HashPrepared(cfg, st, cop.flags, iv);
    HashPrepared(cfg, st, cop.flags, []);
    hide Prepared, Overlay, IvBytes;
  }

  lemma EarlyReply(cfg: Config, st: State, mem: Bytes, cop: CryptOp, iv: Bytes, pinned: bool, page: bool)
    requires Callable(cfg, st, cop, iv)
    ensures var r := RunReplyIn(cfg, st, mem, cop, iv, pinned, page);
            && (r.ret.EINVAL? ==> r.st == if cop.op.OtherOp? then st else Prepared(cfg, st, cop.flags, []))
            && (r.ret.ENOMEM? ==> r.st == Prepared(cfg, st, cop.flags, iv))
            && (r.ret.Ok? && cop.len == 0 ==>
                  r.mem == mem && r.iv == Overlay(iv, Prepared(cfg, st, cop.flags, iv).iv, IvBytes(cfg, iv))
                  && r.st.iv == Prepared(cfg, st, cop.flags, iv).iv)
  {
    RequestStatus(cfg, st, mem, cop, iv, pinned, page);
    hide Prepared, Overlay, Multiple, Cipher.Valid, Hash.Valid;
    if cop.len > 0 && cfg.Accepts(cop.len) {
      hide StdTransfer, ZcTransfer;
      StdFaults(cfg, Prepared(cfg, st, cop.flags, iv), mem, cop.op, cop.src, cop.dst, cop.len);
      assert !Transfer(cfg, Prepared(cfg, st, cop.flags, iv), mem, cop, pinned).ret.EINVAL?;
    }
    hide Transfer, Copies;
  }

  /** What a request leaves behind that transfers nothing: a ragged length is refused after the hash has
      been reset and before the IV is loaded, a missing page after both, and a request without data
      loads its IV. */
  lemma RequestRefused(cfg: Config, st: State, mem: Bytes, cop: CryptOp, iv: Bytes, pinned: bool, page: bool)
    requires Callable(cfg, st, cop, iv)
    ensures var r := RunReplyIn(cfg, st, mem, cop, iv, pinned, page);
            var f := cop.flags;
            var anew := f.reset || !(f.update || f.final || f.writeIv || f.noZc || f.tls || f.srtp || f.other);
            var before := if cfg.hash.Some? && anew then HashState(Reset, []) else st.hash;
            var n := if cfg.cipher.None? || cfg.cipher.value.mode.Ecb? then 0 else cfg.cipher.value.unit;
            var k := if |iv| < n then |iv| else n;
            && (r.ret.EINVAL? ==> r.st == State(st.iv, if cop.op.OtherOp? then st.hash else before))
            && (r.ret.ENOMEM? ==> r.st == State(iv[..k] + st.iv[k..], before))
            && (r.ret.Ok? && cop.len == 0 ==> r.mem == mem && r.iv == iv && r.st.iv == iv[..k] + st.iv[k..])
  {
    RequestStatus(cfg, st, mem, cop, iv, pinned, page);
    var n := if cfg.cipher.None? || cfg.cipher.value.mode.Ecb? then 0 else cfg.cipher.value.unit;
    IvLoads(cfg, st, cop.flags, iv, n, if |iv| < n then |iv| else n);
    NotLoaded(cfg, st, cop.flags);
    HashPrepared(cfg, st, cop.flags, iv);
    HashPrepared(cfg, st, cop.flags, []);
    NoData(cfg, st, cop, iv);
    EarlyReply(cfg, st, mem, cop, iv, pinned, page);
    hide RunReplyIn, Prepared, Overlay, Multiple, Cipher.Valid, Hash.Valid;
  }
}
