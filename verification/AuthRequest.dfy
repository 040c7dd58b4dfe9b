/**
 Authenticated requests (authenc.c) end to end on values: filling in lengths, TLS records, SRTP
 packets (section 3.3 of RFC 3711), and what the program sees afterwards.
 */
module AuthRequest {
  import opened Bytes
  import opened BlockModes
  import opened HashCore
  import opened RunEngine
  import opened Tls

  const MAX_SRTP_AUTH_DATA_DIFF := 256

  datatype AuthOp = AuthOp(op: Op, tls: bool, srtp: bool, writeIv: bool, len: nat, authLen: nat, authSrc: nat,
                           src: nat, dst: nat, tag: nat, tagLen: nat)

  /** What the kernel manages: a page for the authenticated data, larger page arrays, and pinning. */
  datatype Env = Env(page: bool, arrays: bool, pinned: bool)

  const Granted := Env(true, true, true)

  /** A C `int` from a wider difference. */
  function ToInt32(x: int): int {
    var m := x % 0x1_0000_0000;
    if m < 0x8000_0000 then m else m - 0x1_0000_0000
  }

  /** A tag length of zero asks for the digest size. */
  function EffectiveTagLen(cfg: Config, caop: AuthOp): nat {
    if caop.tagLen != 0 then caop.tagLen
    else if cfg.hash.Some? then cfg.hash.value.digestSize
    else 0
  }

  /** cryptodev_get_dst_len */
  function DstLen(cfg: Config, caop: AuthOp): nat
    requires caop.tls && !caop.op.Decrypt? ==> cfg.cipher.Some? && cfg.cipher.value.BlockSize() > 0
  {
    var tagLen := EffectiveTagLen(cfg, caop);
    if caop.tls then ReservedLen(if caop.op.Decrypt? then Decrypt else Encrypt, caop.len, tagLen,
                                 if caop.op.Decrypt? then 1 else cfg.cipher.value.BlockSize())
    else if caop.op.Decrypt? then caop.len
    else caop.len + tagLen
  }

  /** The outcome inside the session: status, session and memory, and the resulting length. */
  datatype Sealed = Sealed(ret: Status, st: State, mem: Bytes, len: nat)

  predicate UserRange(mem: Bytes, at: nat, n: nat) { at != 0 && at + n <= |mem| }

  /** The hash state after absorbing `msg` from a reset and taking the digest. */
  function Hashed(msg: Bytes): HashState
  {
    AfterFinal(HashState(Reset, msg))
  }

  function CipherOver(cfg: Config, st: State, op: Op, data: Bytes): (r: Output)
    requires cfg.Valid() && st.Valid() && cfg.cipher.Some? && cfg.Accepts(|data|)
    ensures |r.data| == |data| && |r.iv| == EALG_MAX_BLOCK_LEN
  {
    CipherPass(cfg.cipher.value, st.iv, op, data)
  }

  // ---- TLS ----

  /** The private copy of the authenticated data. */
  function AuthBytes(mem: Bytes, caop: AuthOp): Bytes
    requires caop.authSrc != 0 ==> caop.authSrc + caop.authLen <= |mem|
  {
    if caop.authSrc != 0 then mem[caop.authSrc..caop.authSrc + caop.authLen] else []
  }

  /** tls_auth_n_crypt, encrypting in the pinned range at `dst`. */
  function TlsSeal(cfg: Config, st: State, mem: Bytes, auth: Bytes, dst: nat, len: nat, tagLen: nat): (r: Sealed)
    requires cfg.Valid() && st.Valid() && cfg.cipher.Some?
    requires cfg.hash.Some? ==> tagLen <= cfg.hash.value.digestSize
    requires dst + ReservedLen(Encrypt, len, tagLen, cfg.cipher.value.BlockSize()) <= |mem|
    ensures r.st.Valid() && |r.mem| == |mem|
  {
    RecordFitsReserved(cfg, len, tagLen);
    var data := mem[dst..dst + len];
    var p := PlainRecord(cfg, auth, data, tagLen);
    var y := CipherOver(cfg, st, Encrypt, p);
    Sealed(Ok, State(y.iv, if cfg.hash.Some? then Hashed(auth + data) else st.hash),
           Splice(mem, dst, y.data), |p|)
  }

  /** tls_auth_n_crypt, decrypting. The decrypted text stays in memory whatever the verdict. */
  function TlsOpen(cfg: Config, st: State, mem: Bytes, auth: Bytes, dst: nat, len: nat, tagLen: nat, stale: Bytes): (r: Sealed)
    requires cfg.Valid() && st.Valid() && cfg.cipher.Some? && |stale| == AALG_MAX_RESULT_LEN
    requires dst + len <= |mem| && len > 0
    ensures r.st.Valid() && |r.mem| == |mem|
  {
    if !cfg.cipher.value.Accepts(len) then Sealed(EINVAL, st, mem, 0)
    else
      var y := CipherOver(cfg, st, Decrypt, mem[dst..dst + len]);
      var v := Verdict(cfg, auth, y.data, tagLen, stale);
      var n := Unpadded(cfg, y.data);
      var h := if cfg.hash.None? || v.ret.EINVAL? || tagLen > n then st.hash
               else Hashed(auth + y.data[..n - tagLen]);
      Sealed(v.ret, State(y.iv, h), Splice(mem, dst, y.data), v.len)
  }

  /** crypto_auth_zc_tls */
  function TlsRequest(cfg: Config, st: State, mem: Bytes, caop: AuthOp, tagLen: nat, dstLen: nat, env: Env, stale: Bytes): (r: Sealed)
    requires cfg.Valid() && st.Valid() && cfg.cipher.Some? && |stale| == AALG_MAX_RESULT_LEN
    requires caop.op.Encrypt? && cfg.hash.Some? ==> tagLen <= cfg.hash.value.digestSize
    requires dstLen == if caop.op.Encrypt? then ReservedLen(Encrypt, caop.len, tagLen, cfg.cipher.value.BlockSize()) else caop.len
    ensures r.st.Valid() && |r.mem| == |mem|
  {
    if caop.authLen > PAGE_SIZE then Sealed(EINVAL, st, mem, 0)
    else if !env.page then Sealed(ENOMEM, st, mem, 0)
    else if caop.authSrc != 0 && caop.authLen > 0 && caop.authSrc + caop.authLen > |mem| then Sealed(EFAULT, st, mem, 0)
    else if caop.dst == 0 || dstLen == 0 then Sealed(EINVAL, st, mem, 0)
    else if !env.arrays then Sealed(ENOMEM, st, mem, 0)
    else if !env.pinned || !UserRange(mem, caop.dst, dstLen) then Sealed(EINVAL, st, mem, 0)
    else
      var auth := if caop.authLen > 0 then AuthBytes(mem, caop) else [];
      if caop.op.Encrypt? then TlsSeal(cfg, st, mem, auth, caop.dst, caop.len, tagLen)
      else TlsOpen(cfg, st, mem, auth, caop.dst, caop.len, tagLen, stale)
  }

  // ---- SRTP ----

  /** Where the destination view starts inside the authenticated buffer. */
  function Diff(caop: AuthOp): int { ToInt32(caop.src - caop.authSrc) }

  predicate SrtpArguments(caop: AuthOp, dstLen: nat) {
    caop.authLen > 0 && dstLen > 0 && 0 <= Diff(caop) <= MAX_SRTP_AUTH_DATA_DIFF
  }

  /** Both views of the buffer can be made. */
  predicate SrtpViews(mem: Bytes, caop: AuthOp, env: Env) {
    env.pinned && UserRange(mem, caop.authSrc, caop.authLen) && Diff(caop) < caop.authLen
  }

  /** srtp_auth_n_crypt, encrypting: the view at `base` is encrypted, then the whole buffer hashed. */
  function SrtpSeal(cfg: Config, st: State, mem: Bytes, caop: AuthOp, tagLen: nat): (r: Sealed)
    requires cfg.Valid() && st.Valid() && cfg.cipher.Some? && cfg.Accepts(caop.len)
    requires cfg.hash.Some? ==> tagLen <= cfg.hash.value.digestSize
    requires caop.authSrc + caop.authLen <= |mem| && 0 <= Diff(caop) && Diff(caop) + caop.len <= caop.authLen
    ensures r.st.Valid() && |r.mem| == |mem|
  {
    var base := caop.authSrc + Diff(caop);
    var y := CipherOver(cfg, st, Encrypt, mem[base..base + caop.len]);
    var mem' := Splice(mem, base, y.data);
    if cfg.hash.None? then Sealed(Ok, State(y.iv, st.hash), mem', caop.len)
    else
      var msg := mem'[caop.authSrc..caop.authSrc + caop.authLen];
      var st' := State(y.iv, Hashed(msg));
      if !UserRange(mem, caop.tag, tagLen) then Sealed(EFAULT, st', mem', caop.len)
      else Sealed(Ok, st', Splice(mem', caop.tag, cfg.hash.value.Of(msg)[..tagLen]), caop.len)
  }

  /** srtp_auth_n_crypt, decrypting: nothing is written before the tag has been verified. */
  function SrtpOpen(cfg: Config, st: State, mem: Bytes, caop: AuthOp, tagLen: nat, stale: Bytes): (r: Sealed)
    requires cfg.Valid() && st.Valid() && cfg.cipher.Some? && cfg.Accepts(caop.len) && |stale| == AALG_MAX_RESULT_LEN
    requires caop.authSrc + caop.authLen <= |mem| && 0 <= Diff(caop) && Diff(caop) + caop.len <= caop.authLen
    ensures r.st.Valid() && |r.mem| == |mem|
  {
    var base := caop.authSrc + Diff(caop);
    var msg := mem[caop.authSrc..caop.authSrc + caop.authLen];
    if cfg.hash.Some? && (tagLen > AALG_MAX_RESULT_LEN || tagLen > caop.len) then Sealed(EINVAL, st, mem, 0)
    else if cfg.hash.Some? && !UserRange(mem, caop.tag, tagLen) then Sealed(EFAULT, st, mem, 0)
    else
      var st' := if cfg.hash.Some? then st.(hash := Hashed(msg)) else st;
      if cfg.hash.Some?
         && mem[caop.tag..caop.tag + tagLen] != DigestBuffer(cfg.hash.value, HashState(Reset, msg), stale)[..tagLen]
      then Sealed(EBADMSG, st', mem, 0)
      else
        var y := CipherOver(cfg, st', Decrypt, mem[base..base + caop.len]);
        Sealed(Ok, st'.(iv := y.iv), Splice(mem, base, y.data), caop.len)
  }

  /** crypto_auth_zc_srtp */
  function SrtpRequest(cfg: Config, st: State, mem: Bytes, caop: AuthOp, tagLen: nat, dstLen: nat, env: Env, stale: Bytes): (r: Sealed)
    requires cfg.Valid() && st.Valid() && cfg.cipher.Some? && |stale| == AALG_MAX_RESULT_LEN
    requires caop.op.Encrypt? && cfg.hash.Some? ==> tagLen <= cfg.hash.value.digestSize
    requires caop.authSrc != 0 && Diff(caop) + caop.len <= caop.authLen
    ensures r.st.Valid() && |r.mem| == |mem|
  {
    if !cfg.cipher.value.stream || !SrtpArguments(caop, dstLen) then Sealed(EINVAL, st, mem, 0)
    else if !env.arrays then Sealed(ENOMEM, st, mem, 0)
    else if !SrtpViews(mem, caop, env) then Sealed(EINVAL, st, mem, 0)
    else
      MultipleOfOne(caop.len);
      if caop.op.Encrypt? then SrtpSeal(cfg, st, mem, caop, tagLen)
      else SrtpOpen(cfg, st, mem, caop, tagLen, stale)
  }

  // ---- The whole call ----

  /** The program's IV buffer after a success: the kernel's copy is written to it only on request. */
  function IvBack(caop: AuthOp, iv: Bytes, kiv: Bytes): Bytes { if caop.writeIv then kiv else iv }

  datatype AuthReply = AuthReply(ret: Status, st: State, mem: Bytes, iv: Bytes, len: nat, tagLen: nat)

  /** What the code needs of its caller. */
  ghost predicate AuthCallable(cfg: Config, st: State, caop: AuthOp, iv: Bytes, stale: Bytes) {
    && cfg.Valid() && st.Valid() && |iv| <= EALG_MAX_BLOCK_LEN && |stale| == AALG_MAX_RESULT_LEN
    && (caop.tls && !caop.op.Decrypt? ==> cfg.cipher.Some?)
    && (caop.op.Encrypt? && cfg.hash.Some? ==> caop.tagLen <= cfg.hash.value.digestSize)
    && (caop.authSrc == 0 && cfg.hash.Some? ==> caop.authLen == 0)
    && (caop.srtp ==> caop.authSrc != 0 && Diff(caop) + caop.len <= caop.authLen)
  }

  /** The session as a request finds it: hash reset, IV loaded. */
  function AuthPrepared(cfg: Config, st: State, iv: Bytes): (r: State)
    requires cfg.Valid() && st.Valid() && |iv| <= EALG_MAX_BLOCK_LEN
    ensures r.Valid()
  {
    State(Overlay(st.iv, iv, IvBytes(cfg, iv)), if cfg.hash.Some? then Fresh else st.hash)
  }

  /** The processing behind the checks that are common to both modes. */
  function AuthDispatch(cfg: Config, st: State, mem: Bytes, caop: AuthOp, env: Env, stale: Bytes): (r: Sealed)
    requires cfg.Valid() && st.Valid() && cfg.cipher.Some? && |stale| == AALG_MAX_RESULT_LEN && !caop.op.OtherOp?
    requires caop.op.Encrypt? && cfg.hash.Some? ==> caop.tagLen <= cfg.hash.value.digestSize
    requires caop.srtp ==> caop.authSrc != 0 && Diff(caop) + caop.len <= caop.authLen
    ensures r.st.Valid() && |r.mem| == |mem|
  {
    var tagLen := EffectiveTagLen(cfg, caop);
    if caop.srtp then SrtpRequest(cfg, st, mem, caop, tagLen, DstLen(cfg, caop), env, stale)
    else if caop.tls then TlsRequest(cfg, st, mem, caop, tagLen, DstLen(cfg, caop), env, stale)
    else Sealed(EINVAL, st, mem, 0)
  }

  /** fill_kcaop_from_caop, crypto_auth_run and fill_caop_from_kcaop for a cipher that is not AEAD. */
  function AuthRun(cfg: Config, st: State, mem: Bytes, caop: AuthOp, iv: Bytes, env: Env, stale: Bytes): (r: AuthReply)
    requires AuthCallable(cfg, st, caop, iv, stale)
    ensures r.st.Valid() && |r.iv| == |iv| && |r.mem| == |mem|
  {
    if ((caop.tls || caop.srtp) && caop.src != caop.dst) || caop.op.OtherOp? || cfg.cipher.None? then
      AuthReply(EINVAL, st, mem, iv, caop.len, caop.tagLen)
    else
      var st' := AuthPrepared(cfg, st, iv);
      var r := AuthDispatch(cfg, st', mem, caop, env, stale);
      if !r.ret.Ok? then AuthReply(r.ret, r.st, r.mem, iv, caop.len, caop.tagLen)
      else AuthReply(Ok, r.st, r.mem, IvBack(caop, iv, Overlay(iv, r.st.iv, IvBytes(cfg, iv))), r.len, EffectiveTagLen(cfg, caop))
  }
}
