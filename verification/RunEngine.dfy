/**
 What one request does to a session and to user memory (main.c), as functions on values. User memory
 is a byte sequence indexed by address: address 0 is the null pointer and an address past the end is
 unmapped. `RunSession` proves the driver's imperative code against these functions.
 */
module RunEngine {
  import opened Bytes
  import opened BlockModes
  import opened HashCore

  /** The parts of a session that never change after creation. */
  datatype Config = Config(cipher: Option<Cipher>, hash: Option<Hash>, alignmask: nat) {
    ghost predicate Valid() {
      && (cipher.Some? ==> cipher.value.Valid())
      && (hash.Some? ==> hash.value.Valid())
    }

    /** Lengths the attached cipher takes; without a cipher every length is taken. */
    ghost predicate Accepts(n: nat)
      requires Valid()
    {
      cipher.Some? ==> cipher.value.Accepts(n)
    }
  }

  /** The parts of a session a request updates: the stored IV and the hash state. */
  datatype State = State(iv: Bytes, hash: HashState) {
    predicate Valid() { |iv| == EALG_MAX_BLOCK_LEN }
  }

  datatype Flags = Flags(update: bool, final: bool, writeIv: bool, noZc: bool,
                         tls: bool, srtp: bool, reset: bool, other: bool) {
    predicate IsZero() { !update && !final && !writeIv && !noZc && !tls && !srtp && !reset && !other }
  }

  datatype CryptOp = CryptOp(op: Op, flags: Flags, len: nat, src: nat, dst: nat)

  // ---- One pass over a buffer ----

  datatype Pass = Pass(data: Bytes, st: State)

  /** The cipher on the stored IV, of which it uses the first `IvSize` bytes. */
  function CipherPass(c: Cipher, iv: Bytes, op: Op, data: Bytes): (r: Output)
    requires c.Valid() && c.Accepts(|data|) && |iv| == EALG_MAX_BLOCK_LEN
    ensures |r.data| == |data| && |r.iv| == |iv|
  {
    var n := c.IvSize();
    CryptLength(c, op, iv[..n], data);
    var r := Crypt(c, op, iv[..n], data);
    Output(r.data, r.iv + iv[n..])
  }

  /** Hash before encryption and after decryption. Without a cipher the destination, whose contents
      are `prior`, is left alone. */
  function PassOf(cfg: Config, st: State, op: Op, input: Bytes, prior: Bytes): (p: Pass)
    requires cfg.Valid() && st.Valid() && cfg.Accepts(|input|)
    ensures p.st.Valid() && |p.data| == if cfg.cipher.Some? then |input| else |prior|
  {
    var r := if cfg.cipher.Some? then CipherPass(cfg.cipher.value, st.iv, op, input) else Output(prior, st.iv);
    var hashed := if op.Encrypt? then input else r.data;
    Pass(r.data, State(r.iv, if cfg.hash.Some? then Absorb(st.hash, hashed) else st.hash))
  }

  // ---- The two transfer paths ----

  datatype Moved = Moved(ret: Status, st: State, mem: Bytes)

  /** Both ranges can be pinned; a null destination has none. */
  predicate Pinnable(mem: Bytes, src: nat, dst: nat, n: nat) {
    src + n <= |mem| && (dst == 0 || dst + n <= |mem|)
  }

  /** A destination is needed by a cipher, and by a hash that digests it after decryption. */
  predicate NeedsDst(cfg: Config, op: Op) { cfg.cipher.Some? || (cfg.hash.Some? && !op.Encrypt?) }

  /** The zero-copy path: one pass over the whole of both ranges. */
  function ZcTransfer(cfg: Config, st: State, mem: Bytes, op: Op, src: nat, dst: nat, n: nat): (r: Moved)
    requires cfg.Valid() && st.Valid() && cfg.Accepts(n)
    requires Pinnable(mem, src, dst, n) && (NeedsDst(cfg, op) ==> dst != 0)
    ensures r.st.Valid() && |r.mem| == |mem|
  {
    var prior := if dst != 0 then mem[dst..dst + n] else [];
    var p := PassOf(cfg, st, op, mem[src..src + n], prior);
    Moved(Ok, p.st, if dst != 0 then Splice(mem, dst, p.data) else mem)
  }

  lemma AcceptsPage(cfg: Config, n: nat)
    requires cfg.Valid() && cfg.Accepts(n)
    ensures cfg.Accepts(Min(PAGE_SIZE, n)) && cfg.Accepts(n - Min(PAGE_SIZE, n))
    ensures cfg.cipher.Some? && PAGE_SIZE <= n ==> Multiple(Min(PAGE_SIZE, n), cfg.cipher.value.unit)
  {
    if cfg.cipher.Some? && PAGE_SIZE <= n {
      if cfg.cipher.value.mode.Ctr? {
        MultipleOfOne(PAGE_SIZE);
        MultipleOfOne(n - PAGE_SIZE);
      } else {
        MultipleDiff(n, PAGE_SIZE, cfg.cipher.value.unit);
      }
    }
  }

  /** One page of the copying path; only a cipher's output is copied back. */
  function StdPage(cfg: Config, st: State, mem: Bytes, op: Op, src: nat, dst: nat, k: nat): (r: Moved)
    requires cfg.Valid() && st.Valid() && cfg.Accepts(k)
    ensures r.st.Valid() && |r.mem| == |mem|
  {
    if src + k > |mem| then Moved(EFAULT, st, mem)
    else
      var p := PassOf(cfg, st, op, mem[src..src + k], mem[src..src + k]);
      if cfg.cipher.None? then Moved(Ok, p.st, mem)
      else if dst + k > |mem| then Moved(EFAULT, p.st, mem)
      else Moved(Ok, p.st, Splice(mem, dst, p.data))
  }

  /** The copying path: page after page through a kernel buffer, stopping at an unmapped address. */
  function StdTransfer(cfg: Config, st: State, mem: Bytes, op: Op, src: nat, dst: nat, n: nat): (r: Moved)
    requires cfg.Valid() && st.Valid() && cfg.Accepts(n)
    ensures r.st.Valid() && |r.mem| == |mem|
    decreases n
  {
    if n == 0 then Moved(Ok, st, mem)
    else
      var k := Min(PAGE_SIZE, n);
      AcceptsPage(cfg, n);
      var r := StdPage(cfg, st, mem, op, src, dst, k);
      if r.ret.Ok? then StdTransfer(cfg, r.st, r.mem, op, src + k, dst + k, n - k) else r
  }

  /** The copying path is taken, for which a page buffer is needed. */
  predicate Copies(cfg: Config, mem: Bytes, cop: CryptOp, pinned: bool) {
    cop.flags.noZc || !Aligned(cfg, cop.src) || !Aligned(cfg, cop.dst) || !pinned || !Pinnable(mem, cop.src, cop.dst, cop.len)
  }

  // ---- A whole request ----

  /** `flags` are those of the kernel's copy of the request afterwards. */
  datatype Reply = Reply(ret: Status, st: State, mem: Bytes, iv: Bytes, flags: Flags, digest: Option<Bytes>)

  /** The first `n` bytes of `from` over those of `to`. */
  function Overlay(to: Bytes, from: Bytes, n: nat): (r: Bytes)
    requires n <= |to| && n <= |from|
    ensures |r| == |to|
  {
    from[..n] + to[n..]
  }

  function IvBytes(cfg: Config, iv: Bytes): nat {
    if cfg.cipher.Some? then Min(cfg.cipher.value.IvSize(), |iv|) else 0
  }

  predicate Aligned(cfg: Config, addr: nat) { addr % (cfg.alignmask + 1) == 0 }

  /** A misaligned buffer turns zero-copy off in the request itself. */
  function FlagsAfter(cfg: Config, cop: CryptOp): Flags {
    if cop.len > 0 && !(Aligned(cfg, cop.src) && Aligned(cfg, cop.dst)) then cop.flags.(noZc := true) else cop.flags
  }

  /** The program's request after the call: a success copies the kernel's copy back over it. */
  function CopiedBack(cop: CryptOp, r: Reply): CryptOp { if r.ret.Ok? then cop.(flags := r.flags) else cop }

  /** A hash state is reset by a request without flags and by one that asks for it. */
  predicate Resets(cfg: Config, flags: Flags) { cfg.hash.Some? && (flags.IsZero() || flags.reset) }

  predicate Finalizes(cfg: Config, cop: CryptOp) {
    cfg.hash.Some? && (cop.flags.final || !cop.flags.update || cop.len == 0)
  }

  /** What the code needs of its caller: data to name a return value, and non-null buffers. */
  ghost predicate Callable(cfg: Config, st: State, cop: CryptOp, iv: Bytes) {
    && cfg.Valid() && st.Valid() && |iv| <= EALG_MAX_BLOCK_LEN
    && (cop.len > 0 || cfg.hash.Some?)
    && (cop.len > 0 ==> cop.src != 0 && (NeedsDst(cfg, cop.op) ==> cop.dst != 0))
  }

  function Transfer(cfg: Config, st: State, mem: Bytes, cop: CryptOp, pinned: bool): (r: Moved)
    requires cfg.Valid() && st.Valid() && cfg.Accepts(cop.len)
    requires NeedsDst(cfg, cop.op) ==> cop.dst != 0
    ensures r.st.Valid() && |r.mem| == |mem|
  {
    if Copies(cfg, mem, cop, pinned)
    then StdTransfer(cfg, st, mem, cop.op, cop.src, cop.dst, cop.len)
    else ZcTransfer(cfg, st, mem, cop.op, cop.src, cop.dst, cop.len)
  }

  /** The state in which the data is processed: hash possibly reset, IV loaded from the request. */
  function Prepared(cfg: Config, st: State, flags: Flags, iv: Bytes): (r: State)
    requires cfg.Valid() && st.Valid() && |iv| <= EALG_MAX_BLOCK_LEN
    ensures r.Valid()
  {
    State(Overlay(st.iv, iv, IvBytes(cfg, iv)), if Resets(cfg, flags) then Fresh else st.hash)
  }

  /** The request: `pinned` says whether the kernel manages to pin pages that are mapped. */
  function RunReply(cfg: Config, st: State, mem: Bytes, cop: CryptOp, iv: Bytes, pinned: bool): (r: Reply)
    requires Callable(cfg, st, cop, iv)
    ensures r.st.Valid() && |r.iv| == |iv| && |r.mem| == |mem|
  {
    if cop.op.OtherOp? then Reply(EINVAL, st, mem, iv, cop.flags, None)
    else if cfg.cipher.Some? && !cfg.cipher.value.Accepts(cop.len) then
      Reply(EINVAL, Prepared(cfg, st, cop.flags, []), mem, iv, cop.flags, None)
    else
      var st' := Prepared(cfg, st, cop.flags, iv);
      var r := if cop.len > 0 then Transfer(cfg, st', mem, cop, pinned) else Moved(Ok, st', mem);
      if !r.ret.Ok? then Reply(r.ret, r.st, r.mem, iv, FlagsAfter(cfg, cop), None)
      else
        var iv' := Overlay(iv, r.st.iv, IvBytes(cfg, iv));
        if Finalizes(cfg, cop) then
          Reply(Ok, r.st.(hash := AfterFinal(r.st.hash)), r.mem, iv', FlagsAfter(cfg, cop), Some(cfg.hash.value.digest(r.st.hash)))
        else
          Reply(Ok, r.st, r.mem, iv', FlagsAfter(cfg, cop), None)
  }

  /** The same where the page buffer of the copying path may be refused (`page` says that it is not): the
      request has then been prepared, and nothing transferred. */
  function RunReplyIn(cfg: Config, st: State, mem: Bytes, cop: CryptOp, iv: Bytes, pinned: bool, page: bool): (r: Reply)
    requires Callable(cfg, st, cop, iv)
    ensures page ==> r == RunReply(cfg, st, mem, cop, iv, pinned)
  {
    if !page && !cop.op.OtherOp? && (cfg.cipher.Some? ==> cfg.cipher.value.Accepts(cop.len)) && cop.len > 0
       && Copies(cfg, mem, cop, pinned)
    then Reply(ENOMEM, Prepared(cfg, st, cop.flags, iv), mem, iv, FlagsAfter(cfg, cop), None)
    else RunReply(cfg, st, mem, cop, iv, pinned)
  }
}
