/**
 What an authenticated request (authenc.c) does, field by field: its status, the bytes it writes, the
 MAC over data named by address, and the IV it gives back. These statements are written over the
 request's own fields, user memory, the keyed digest and the cipher's `Crypt`.
 */
module AuthEffects {
  import opened Bytes
  import opened BlockModes
  import opened HashCore
  import opened RunEngine
  import opened Tls
  import opened AuthRequest

  // ---- Status ----

  /** The request is answered with an error and everything is as it was for the program. */
  predicate RefusedWith(r: AuthReply, ret: Status, mem: Bytes, iv: Bytes) { r.ret == ret && r.mem == mem && r.iv == iv }

  /** What a TLS request is refused with before anything is written, if it is; `reserved` is the space
      it needs at dst. */
  function Refusal(mem: Bytes, caop: AuthOp, env: Env, bs: nat, reserved: nat): Status
    requires bs > 0
  {
    if caop.authLen > 4096 then EINVAL
    else if !env.page then ENOMEM
    else if caop.authSrc != 0 && caop.authLen > 0 && caop.authSrc + caop.authLen > |mem| then EFAULT
    else if caop.dst == 0 || reserved == 0 then EINVAL
    else if !env.arrays then ENOMEM
    else if !env.pinned || caop.dst + reserved > |mem| then EINVAL
    else if caop.op.Decrypt? && caop.len % bs != 0 then EINVAL
    else Ok
  }

  /** The tag length of a request, of which zero asks for the whole digest. */
  lemma TagLenIs(cfg: Config, caop: AuthOp)
    ensures EffectiveTagLen(cfg, caop) ==
            if caop.tagLen != 0 then caop.tagLen else if cfg.hash.Some? then cfg.hash.value.digestSize else 0
  {
  }

  /** The space a request needs: payload and tag, padded. */
  lemma ReservedIs(c: Cipher, caop: AuthOp, tagLen: nat, bs: nat)
    requires bs == (if c.mode.Ctr? then 1 else c.unit) && bs > 0 && !caop.op.OtherOp?
    ensures bs == c.BlockSize()
    ensures ReservedLen(caop.op, caop.len, tagLen, bs) ==
            if caop.op.Decrypt? then caop.len else caop.len + tagLen + (bs - (caop.len + tagLen) % bs)
  {
    PadSizeIsMod(caop.len + tagLen, bs);
  }

  lemma AcceptsIs(c: Cipher, n: nat, bs: nat)
    requires bs == (if c.mode.Ctr? then 1 else c.unit) && bs > 0 && c.unit > 0
    ensures c.Accepts(n) <==> n % bs == 0
  {
    MultipleIsMod(n, bs);
  }

  /** A TLS request is handed to crypto_auth_zc_tls with its tag length and the space it needs. */
  lemma TlsDispatch(cfg: Config, st: State, mem: Bytes, caop: AuthOp, iv: Bytes, env: Env, stale: Bytes, tagLen: nat, reserved: nat)
    requires AuthCallable(cfg, st, caop, iv, stale) && caop.tls && !caop.srtp && !caop.op.OtherOp? && cfg.cipher.Some?
    requires caop.src == caop.dst && tagLen == EffectiveTagLen(cfg, caop)
    requires cfg.cipher.value.BlockSize() > 0 && reserved == ReservedLen(caop.op, caop.len, tagLen, cfg.cipher.value.BlockSize())
    ensures caop.op.Encrypt? && cfg.hash.Some? ==> tagLen <= cfg.hash.value.digestSize
    ensures caop.op.Decrypt? ==> reserved == caop.len
    ensures var r := AuthRun(cfg, st, mem, caop, iv, env, stale);
            var s := TlsRequest(cfg, AuthPrepared(cfg, st, iv), mem, caop, tagLen, reserved, env, stale);
            && r.ret == s.ret && r.mem == s.mem
            && (!s.ret.Ok? && s.mem == mem ==> RefusedWith(r, s.ret, mem, iv))
            && (s.ret.Ok? ==> r.len == s.len && r.tagLen == tagLen)
            && (s.ret.Ok? ==> r.iv == if caop.writeIv then Overlay(iv, s.st.iv, IvBytes(cfg, iv)) else iv)
  {
    hide TlsRequest, SrtpRequest, PadSize, Multiple, AuthPrepared, Cipher.Valid, Hash.Valid, Overlay, IvBytes;
  }

  lemma RequestRefusal(cfg: Config, st: State, mem: Bytes, caop: AuthOp, tagLen: nat, reserved: nat, env: Env, stale: Bytes, bs: nat)
    requires cfg.Valid() && st.Valid() && cfg.cipher.Some? && |stale| == AALG_MAX_RESULT_LEN && !caop.op.OtherOp?
    requires caop.op.Encrypt? && cfg.hash.Some? ==> tagLen <= cfg.hash.value.digestSize
    requires bs == (if cfg.cipher.value.mode.Ctr? then 1 else cfg.cipher.value.unit) && bs > 0
    requires reserved == ReservedLen(caop.op, caop.len, tagLen, bs)
    ensures var s, early := TlsRequest(cfg, st, mem, caop, tagLen, reserved, env, stale), Refusal(mem, caop, env, bs, reserved);
            (early != Ok ==> s.ret == early && s.mem == mem) && (early == Ok && caop.op.Encrypt? ==> s.ret.Ok?)
  {
    AcceptsIs(cfg.cipher.value, caop.len, bs);
    hide Multiple, PadSize, PlainRecord, Verdict, CipherOver, Splice, Unpadded, Cipher.Valid, Hash.Valid, AuthBytes, Hashed, Cipher.Accepts;
  }

  /** The status of every TLS request: which are refused before anything is written, and how; every
      other encryption succeeds. The space an encryption needs is that of payload and tag, padded. */
  lemma TlsStatus(cfg: Config, st: State, mem: Bytes, caop: AuthOp, iv: Bytes, env: Env, stale: Bytes)
    requires AuthCallable(cfg, st, caop, iv, stale) && caop.tls && !caop.srtp && !caop.op.OtherOp? && cfg.cipher.Some?
    ensures cfg.cipher.value.unit > 0
    ensures var r := AuthRun(cfg, st, mem, caop, iv, env, stale);
            var bs := if cfg.cipher.value.mode.Ctr? then 1 else cfg.cipher.value.unit;
            var tagLen := if caop.tagLen != 0 then caop.tagLen else if cfg.hash.Some? then cfg.hash.value.digestSize else 0;
            var n := caop.len + tagLen;
            var early := if caop.src != caop.dst then EINVAL
                         else Refusal(mem, caop, env, bs, if caop.op.Decrypt? then caop.len else n + (bs - n % bs));
            && (early != Ok ==> RefusedWith(r, early, mem, iv))
            && (early == Ok && caop.op.Encrypt? ==> r.ret.Ok?)
  {
    if caop.src == caop.dst {
      hide TlsRequest, AuthRun, Refusal, Multiple, PadSize, ReservedLen, EffectiveTagLen, AuthPrepared, Hash.Valid, Overlay, IvBytes;
      TagLenIs(cfg, caop);
      var tagLen := EffectiveTagLen(cfg, caop);
      var bs := if cfg.cipher.value.mode.Ctr? then 1 else cfg.cipher.value.unit;
      ReservedIs(cfg.cipher.value, caop, tagLen, bs);
      var reserved := ReservedLen(caop.op, caop.len, tagLen, bs);
      TlsDispatch(cfg, st, mem, caop, iv, env, stale, tagLen, reserved);
      hide RefusedWith, Cipher.Valid, Config.Valid;
      RequestRefusal(cfg, AuthPrepared(cfg, st, iv), mem, caop, tagLen, reserved, env, stale, bs);
    } else {
      hide AuthDispatch, AuthPrepared;
    }
  }

  /** A request for an unknown operation, in neither mode, or on a session without a cipher is refused. */
  lemma NotServed(cfg: Config, st: State, mem: Bytes, caop: AuthOp, iv: Bytes, env: Env, stale: Bytes)
    requires AuthCallable(cfg, st, caop, iv, stale)
    requires caop.op.OtherOp? || cfg.cipher.None? || (!caop.tls && !caop.srtp)
    ensures RefusedWith(AuthRun(cfg, st, mem, caop, iv, env, stale), EINVAL, mem, iv)
  {
    hide TlsRequest, SrtpRequest, AuthPrepared, Diff;
  }

  // ---- TLS records ----

  /** The authenticated data of a TLS request: what is at auth_src, and nothing if that is null. */
  function Authenticated(mem: Bytes, caop: AuthOp): Bytes {
    if caop.authSrc != 0 && caop.authLen > 0 && caop.authSrc + caop.authLen <= |mem|
    then mem[caop.authSrc..caop.authSrc + caop.authLen] else []
  }

  /** A TLS request that is not refused is processed with its authenticated data. */
  lemma RequestProcessed(cfg: Config, st: State, mem: Bytes, caop: AuthOp, tagLen: nat, reserved: nat, env: Env, stale: Bytes, bs: nat)
    requires cfg.Valid() && st.Valid() && cfg.cipher.Some? && |stale| == AALG_MAX_RESULT_LEN && !caop.op.OtherOp?
    requires caop.op.Encrypt? && cfg.hash.Some? ==> tagLen <= cfg.hash.value.digestSize
    requires bs == cfg.cipher.value.BlockSize() && bs > 0 && reserved == ReservedLen(caop.op, caop.len, tagLen, bs)
    requires Refusal(mem, caop, env, bs, reserved) == Ok
    ensures caop.dst + reserved <= |mem| && caop.dst + caop.len <= |mem| && (caop.op.Decrypt? ==> reserved == caop.len > 0)
    ensures caop.authSrc != 0 && caop.authLen > 0 ==> caop.authSrc + caop.authLen <= |mem|
    ensures caop.op.Encrypt? ==> TlsRequest(cfg, st, mem, caop, tagLen, reserved, env, stale) ==
                                 TlsSeal(cfg, st, mem, Authenticated(mem, caop), caop.dst, caop.len, tagLen)
    ensures caop.op.Decrypt? ==> TlsRequest(cfg, st, mem, caop, tagLen, reserved, env, stale) ==
                                 TlsOpen(cfg, st, mem, Authenticated(mem, caop), caop.dst, caop.len, tagLen, stale)
  {
    hide Multiple, PadSize, TlsSeal, TlsOpen, Cipher.Valid, Hash.Valid;
  }

  /** What a program gets back when its record was processed with these results. */
  predicate Returned(cfg: Config, caop: AuthOp, iv: Bytes, tagLen: nat, r: AuthReply, ret: Status, mem: Bytes, len: nat, stored: Bytes)
    requires |iv| <= EALG_MAX_BLOCK_LEN == |stored|
  {
    && r.ret == ret && r.mem == mem
    && (ret.Ok? ==> r.len == len && r.tagLen == tagLen && r.iv == if caop.writeIv then Overlay(iv, stored, IvBytes(cfg, iv)) else iv)
  }

  lemma TlsSealed(cfg: Config, st: State, mem: Bytes, enc: AuthOp, iv: Bytes, env: Env, stale: Bytes, tagLen: nat, reserved: nat)
    requires AuthCallable(cfg, st, enc, iv, stale) && enc.tls && !enc.srtp && enc.op.Encrypt? && cfg.cipher.Some?
    requires enc.src == enc.dst && tagLen == EffectiveTagLen(cfg, enc) && cfg.cipher.value.BlockSize() > 0
    requires reserved == ReservedLen(Encrypt, enc.len, tagLen, cfg.cipher.value.BlockSize())
    requires Refusal(mem, enc, env, cfg.cipher.value.BlockSize(), reserved) == Ok
    ensures cfg.hash.Some? ==> tagLen <= cfg.hash.value.digestSize
    ensures enc.dst + reserved <= |mem| && enc.dst + enc.len <= |mem|
    ensures enc.authSrc != 0 && enc.authLen > 0 ==> enc.authSrc + enc.authLen <= |mem|
    ensures var s := TlsSeal(cfg, AuthPrepared(cfg, st, iv), mem, Authenticated(mem, enc), enc.dst, enc.len, tagLen);
            Returned(cfg, enc, iv, tagLen, AuthRun(cfg, st, mem, enc, iv, env, stale), s.ret, s.mem, s.len, s.st.iv)
  {
    hide AuthRun, TlsRequest, TlsSeal, TlsOpen, Multiple, AuthPrepared, Refusal, ReservedLen, Authenticated, Cipher.Valid, Hash.Valid,
         EffectiveTagLen, Overlay, IvBytes;
    TlsDispatch(cfg, st, mem, enc, iv, env, stale, tagLen, reserved);
    RequestProcessed(cfg, AuthPrepared(cfg, st, iv), mem, enc, tagLen, reserved, env, stale, cfg.cipher.value.BlockSize());
  }

  lemma TlsOpened(cfg: Config, st: State, mem: Bytes, dec: AuthOp, iv: Bytes, env: Env, stale: Bytes, tagLen: nat)
    requires AuthCallable(cfg, st, dec, iv, stale) && dec.tls && !dec.srtp && dec.op.Decrypt? && cfg.cipher.Some?
    requires dec.src == dec.dst && tagLen == EffectiveTagLen(cfg, dec) && cfg.cipher.value.BlockSize() > 0
    requires Refusal(mem, dec, env, cfg.cipher.value.BlockSize(), dec.len) == Ok
    ensures dec.dst + dec.len <= |mem| && dec.len > 0
    ensures dec.authSrc != 0 && dec.authLen > 0 ==> dec.authSrc + dec.authLen <= |mem|
    ensures var s := TlsOpen(cfg, AuthPrepared(cfg, st, iv), mem, Authenticated(mem, dec), dec.dst, dec.len, tagLen, stale);
            Returned(cfg, dec, iv, tagLen, AuthRun(cfg, st, mem, dec, iv, env, stale), s.ret, s.mem, s.len, s.st.iv)
  {
    hide AuthRun, TlsRequest, TlsSeal, TlsOpen, Multiple, AuthPrepared, Refusal, Authenticated, Cipher.Valid, Hash.Valid,
         EffectiveTagLen, Overlay, IvBytes;
    TlsDispatch(cfg, st, mem, dec, iv, env, stale, tagLen, dec.len);
    RequestProcessed(cfg, AuthPrepared(cfg, st, iv), mem, dec, tagLen, dec.len, env, stale, cfg.cipher.value.BlockSize());
  }

  /** The length of a cipher's IV. */
  function IvLen(c: Cipher): nat { if c.mode.Ecb? then 0 else c.unit }

  /** The IV a request is processed under: as many bytes of its own as the cipher takes, then the stored ones. */
  function FirstIv(c: Cipher, own: Bytes, stored: Bytes): Bytes
    requires |stored| == 16 && c.unit <= 16
  {
    if |own| >= IvLen(c) then own[..IvLen(c)] else own + stored[|own|..IvLen(c)]
  }

  /** A chaining value over the first bytes of the program's IV buffer. */
  function Updated(own: Bytes, iv: Bytes): Bytes {
    if |own| >= |iv| then iv + own[|iv|..] else iv[..|own|]
  }

  lemma StartIv(cfg: Config, st: State, iv: Bytes, n: nat)
    requires cfg.Valid() && st.Valid() && |iv| <= EALG_MAX_BLOCK_LEN && cfg.cipher.Some? && n == IvLen(cfg.cipher.value)
    ensures n <= EALG_MAX_BLOCK_LEN && IvBytes(cfg, iv) == Min(n, |iv|)
    ensures AuthPrepared(cfg, st, iv).iv[..n] == FirstIv(cfg.cipher.value, iv, st.iv)
    ensures AuthPrepared(cfg, st, iv).iv[n..] == st.iv[n..]
  {
  }

  lemma FirstIvPrepared(cfg: Config, st: State, iv: Bytes)
    requires cfg.Valid() && st.Valid() && |iv| <= EALG_MAX_BLOCK_LEN && cfg.cipher.Some?
    ensures var n, st' := IvLen(cfg.cipher.value), AuthPrepared(cfg, st, iv);
            st'.Valid() && n <= |st'.iv| && FirstIv(cfg.cipher.value, iv, st.iv) == st'.iv[..n]
  {
    StartIv(cfg, st, iv, IvLen(cfg.cipher.value));
  }

  /** One pass of the cipher, and the IV it gives back. */
  lemma CipherIs(cfg: Config, st: State, op: Op, data: Bytes, n: nat, start: Bytes)
    requires cfg.Valid() && st.Valid() && cfg.cipher.Some? && cfg.Accepts(|data|)
    requires n == cfg.cipher.value.IvSize() && start == st.iv[..n]
    ensures var out := Crypt(cfg.cipher.value, op, start, data);
            && |out.data| == |data| && |out.iv| == n
            && CipherOver(cfg, st, op, data) == Output(out.data, out.iv + st.iv[n..])
  {
    CryptLength(cfg.cipher.value, op, start, data);
    hide Crypt, Multiple, Cipher.Valid, Hash.Valid;
  }

  lemma ReturnedStatus(cfg: Config, caop: AuthOp, iv: Bytes, tagLen: nat, r: AuthReply, ret: Status, mem: Bytes, len: nat, stored: Bytes)
    requires |iv| <= EALG_MAX_BLOCK_LEN == |stored| && Returned(cfg, caop, iv, tagLen, r, ret, mem, len, stored)
    ensures r.ret == ret && r.mem == mem && (ret.Ok? ==> r.len == len)
  {
  }

  /** The IV a program gets back, from the chaining value that the session stored. */
  lemma IvReturned(cfg: Config, caop: AuthOp, iv: Bytes, tagLen: nat, r: AuthReply, ret: Status, mem: Bytes, len: nat, stored: Bytes, last: Bytes)
    requires |iv| <= EALG_MAX_BLOCK_LEN == |stored| && cfg.cipher.Some? && |last| == IvLen(cfg.cipher.value) <= EALG_MAX_BLOCK_LEN
    requires Returned(cfg, caop, iv, tagLen, r, ret, mem, len, stored) && stored[..|last|] == last
    ensures r.ret == ret && r.mem == mem
    ensures ret.Ok? ==> r.len == len && r.tagLen == tagLen && r.iv == if caop.writeIv then Updated(iv, last) else iv
  {
    assert Overlay(iv, stored, Min(|last|, |iv|)) == Updated(iv, last);
  }

  /** `text` is the payload, the truncated MAC of the authenticated data followed by the payload, and,
      under a block cipher, as many bytes as fill the last block, each one less than their number. */
  ghost predicate Composed(cfg: Config, auth: Bytes, data: Bytes, tagLen: nat, text: Bytes)
    requires cfg.Valid() && cfg.cipher.Some? && (cfg.hash.Some? ==> tagLen <= cfg.hash.value.digestSize)
  {
    var bs := if cfg.cipher.value.mode.Ctr? then 1 else cfg.cipher.value.unit;
    var body := |data| + if cfg.hash.Some? then tagLen else 0;
    && |text| == body + (if bs > 1 then bs - body % bs else 0)
    && text[..|data|] == data
    && (cfg.hash.Some? ==> text[|data|..body] == cfg.hash.value.digest(HashState(Reset, auth + data))[..tagLen])
    && forall i :: body <= i < |text| ==> text[i] == |text| - body - 1
  }

  lemma RecordComposed(cfg: Config, auth: Bytes, data: Bytes, tagLen: nat)
    requires cfg.Valid() && cfg.cipher.Some? && (cfg.hash.Some? ==> tagLen <= cfg.hash.value.digestSize)
    ensures Composed(cfg, auth, data, tagLen, PlainRecord(cfg, auth, data, tagLen))
  {
    var body := |data| + if cfg.hash.Some? then tagLen else 0;
    PadSizeIsMod(body, cfg.cipher.value.BlockSize());
    hide PadSize, Multiple;
  }

  /** `mem'` is `mem` with `s` at `at`. */
  ghost predicate Written(mem: Bytes, mem': Bytes, at: nat, s: Bytes) {
    && at + |s| <= |mem| == |mem'|
    && mem'[..at] == mem[..at] && mem'[at..at + |s|] == s && mem'[at + |s|..] == mem[at + |s|..]
  }

  lemma SpliceWritten(mem: Bytes, at: nat, s: Bytes)
    requires at + |s| <= |mem|
    ensures Written(mem, Splice(mem, at, s), at, s)
  {
  }

  /** `mem'` has `data` enciphered (or deciphered) under `first` at `at`, and `last` is the chaining value left. */
  ghost predicate Crypted(c: Cipher, op: Op, first: Bytes, data: Bytes, mem: Bytes, mem': Bytes, at: nat, last: Bytes) {
    c.unit > 0 && |data| == |Crypt(c, op, first, data).data| && last == Crypt(c, op, first, data).iv
    && Written(mem, mem', at, Crypt(c, op, first, data).data)
  }

  /** What a successful TLS encryption leaves: a text of the payload, the truncated MAC of the bytes at
      auth_src followed by the payload, and the pad; the record at dst is that text enciphered, and
      nothing else is written. The MAC covers no authenticated data when auth_src is null; a tag length
      of zero asks for the whole digest; the program's IV is updated on request only. */
  lemma TlsEncrypts(cfg: Config, st: State, mem: Bytes, enc: AuthOp, iv: Bytes, env: Env, stale: Bytes)
    returns (text: Bytes, last: Bytes)
    requires AuthCallable(cfg, st, enc, iv, stale) && enc.tls && !enc.srtp && enc.op.Encrypt? && cfg.cipher.Some?
    requires AuthRun(cfg, st, mem, enc, iv, env, stale).ret.Ok?
    ensures enc.dst + enc.len <= |mem| && (enc.authSrc != 0 && enc.authLen > 0 ==> enc.authSrc + enc.authLen <= |mem|)
    ensures var auth := if enc.authSrc != 0 && enc.authLen > 0 then mem[enc.authSrc..enc.authSrc + enc.authLen] else [];
            var tagLen := if enc.tagLen != 0 then enc.tagLen else if cfg.hash.Some? then cfg.hash.value.digestSize else 0;
            Composed(cfg, auth, mem[enc.dst..enc.dst + enc.len], tagLen, text)
    ensures var r := AuthRun(cfg, st, mem, enc, iv, env, stale);
            && Crypted(cfg.cipher.value, Encrypt, FirstIv(cfg.cipher.value, iv, st.iv), text, mem, r.mem, enc.dst, last)
            && r.len == |text| && r.iv == (if enc.writeIv then Updated(iv, last) else iv)
            && r.tagLen == if enc.tagLen != 0 then enc.tagLen else if cfg.hash.Some? then cfg.hash.value.digestSize else 0
  {
    hide AuthRun, Crypted, Multiple, Composed, FirstIv, Updated, EffectiveTagLen, ReservedLen, Refusal, Hash.Valid;
    TlsStatus(cfg, st, mem, enc, iv, env, stale);
    TagLenIs(cfg, enc);
    var tagLen := EffectiveTagLen(cfg, enc);
    ReservedIs(cfg.cipher.value, enc, tagLen, cfg.cipher.value.BlockSize());
    text, last := TlsEncryptsAs(cfg, st, mem, enc, iv, env, stale, tagLen,
                                ReservedLen(Encrypt, enc.len, tagLen, cfg.cipher.value.BlockSize()));
  }

  lemma TlsEncryptsAs(cfg: Config, st: State, mem: Bytes, enc: AuthOp, iv: Bytes, env: Env, stale: Bytes, tagLen: nat, reserved: nat)
    returns (text: Bytes, last: Bytes)
    requires AuthCallable(cfg, st, enc, iv, stale) && enc.tls && !enc.srtp && enc.op.Encrypt? && cfg.cipher.Some?
    requires enc.src == enc.dst && tagLen == EffectiveTagLen(cfg, enc) && cfg.cipher.value.BlockSize() > 0
    requires reserved == ReservedLen(Encrypt, enc.len, tagLen, cfg.cipher.value.BlockSize())
    requires Refusal(mem, enc, env, cfg.cipher.value.BlockSize(), reserved) == Ok
    ensures cfg.hash.Some? ==> tagLen <= cfg.hash.value.digestSize
    ensures cfg.cipher.value.unit <= 16 == |st.iv|
    ensures enc.dst + enc.len <= |mem| && (enc.authSrc != 0 && enc.authLen > 0 ==> enc.authSrc + enc.authLen <= |mem|)
    ensures Composed(cfg, Authenticated(mem, enc), mem[enc.dst..enc.dst + enc.len], tagLen, text)
    ensures var r := AuthRun(cfg, st, mem, enc, iv, env, stale);
            && Crypted(cfg.cipher.value, Encrypt, FirstIv(cfg.cipher.value, iv, st.iv), text, mem, r.mem, enc.dst, last)
            && r.ret.Ok? && r.len == |text| && r.tagLen == tagLen && r.iv == if enc.writeIv then Updated(iv, last) else iv
  {
    var c := cfg.cipher.value;
    assert cfg.Valid() && st.Valid() && |iv| <= 16 && 0 < c.unit <= 16 == |st.iv|;
    hide AuthCallable, AuthRun, TlsSeal, Crypted, Multiple, Composed, FirstIv, Updated, AuthPrepared, EffectiveTagLen, ReservedLen,
         Refusal, Authenticated, Overlay, Config.Valid, Cipher.Valid, Hash.Valid, IvLen, IvBytes;
    TlsSealed(cfg, st, mem, enc, iv, env, stale, tagLen, reserved);
    FirstIvPrepared(cfg, st, iv);
    text, last := SealIs(cfg, AuthPrepared(cfg, st, iv), mem, Authenticated(mem, enc), enc.dst, enc.len, tagLen, FirstIv(c, iv, st.iv));
    var s := TlsSeal(cfg, AuthPrepared(cfg, st, iv), mem, Authenticated(mem, enc), enc.dst, enc.len, tagLen);
    IvReturned(cfg, enc, iv, tagLen, AuthRun(cfg, st, mem, enc, iv, env, stale), s.ret, s.mem, s.len, s.st.iv, last);
  }

  lemma SealIs(cfg: Config, st: State, mem: Bytes, auth: Bytes, dst: nat, len: nat, tagLen: nat, start: Bytes)
    returns (text: Bytes, last: Bytes)
    requires cfg.Valid() && st.Valid() && cfg.cipher.Some?
    requires cfg.hash.Some? ==> tagLen <= cfg.hash.value.digestSize
    requires dst + ReservedLen(Encrypt, len, tagLen, cfg.cipher.value.BlockSize()) <= |mem|
    requires IvLen(cfg.cipher.value) <= |st.iv| && start == st.iv[..IvLen(cfg.cipher.value)]
    ensures dst + len <= |mem| && Composed(cfg, auth, mem[dst..dst + len], tagLen, text) && |last| == |start|
    ensures var s := TlsSeal(cfg, st, mem, auth, dst, len, tagLen);
            && s.ret.Ok? && Crypted(cfg.cipher.value, Encrypt, start, text, mem, s.mem, dst, last)
            && s.len == |text| && |s.st.iv| == 16 && |last| <= 16 && s.st.iv[..|last|] == last
  {
    text := SealedText(cfg, st, mem, auth, dst, len, tagLen);
    assert cfg.cipher.value.unit > 0;
    hide TlsSeal, Composed, Crypted, Multiple, CipherOver, Splice, PadSize, Cipher.Valid, Hash.Valid;
    last := PassIs(cfg, st, Encrypt, text, mem, dst, start);
  }

  lemma SealedText(cfg: Config, st: State, mem: Bytes, auth: Bytes, dst: nat, len: nat, tagLen: nat) returns (text: Bytes)
    requires cfg.Valid() && st.Valid() && cfg.cipher.Some?
    requires cfg.hash.Some? ==> tagLen <= cfg.hash.value.digestSize
    requires dst + ReservedLen(Encrypt, len, tagLen, cfg.cipher.value.BlockSize()) <= |mem|
    ensures dst + len <= dst + |text| <= |mem| && Composed(cfg, auth, mem[dst..dst + len], tagLen, text) && cfg.Accepts(|text|)
    ensures var s := TlsSeal(cfg, st, mem, auth, dst, len, tagLen);
            var y := CipherOver(cfg, st, Encrypt, text);
            s.ret.Ok? && s.mem == Splice(mem, dst, y.data) && s.st.iv == y.iv && s.len == |text|
  {
    hide Multiple, CipherOver, Splice, PlainRecord, PadSize, ReservedLen, RecordLen, Cipher.Valid, Hash.Valid, Cipher.Accepts, Hashed, Composed;
    RecordFitsReserved(cfg, len, tagLen);
    text := PlainRecord(cfg, auth, mem[dst..dst + len], tagLen);
    RecordComposed(cfg, auth, mem[dst..dst + len], tagLen);
    assert cfg.Accepts(|text|) && dst + |text| <= |mem|;
    SealUnfolds(cfg, st, mem, auth, dst, len, tagLen, text);
    hide TlsSeal, Config.Valid;
  }

  lemma SealUnfolds(cfg: Config, st: State, mem: Bytes, auth: Bytes, dst: nat, len: nat, tagLen: nat, text: Bytes)
    requires cfg.Valid() && st.Valid() && cfg.cipher.Some?
    requires cfg.hash.Some? ==> tagLen <= cfg.hash.value.digestSize
    requires dst + ReservedLen(Encrypt, len, tagLen, cfg.cipher.value.BlockSize()) <= |mem|
    requires dst + len <= dst + |text| <= |mem| && cfg.Accepts(|text|)
    requires text == PlainRecord(cfg, auth, mem[dst..dst + len], tagLen)
    ensures var s, y := TlsSeal(cfg, st, mem, auth, dst, len, tagLen), CipherOver(cfg, st, Encrypt, text);
            s.ret.Ok? && s.mem == Splice(mem, dst, y.data) && s.st.iv == y.iv && s.len == |text|
  {
    hide Multiple, CipherOver, Splice, PlainRecord, PadSize, ReservedLen, RecordLen, Config.Valid, Cipher.Valid, Hash.Valid, Cipher.Accepts, Hashed;
  }

  /** A pass of the cipher over `data`, written at `at`. */
  lemma PassIs(cfg: Config, st: State, op: Op, data: Bytes, mem: Bytes, at: nat, start: Bytes) returns (last: Bytes)
    requires cfg.Valid() && st.Valid() && cfg.cipher.Some? && cfg.Accepts(|data|) && at + |data| <= |mem|
    requires IvLen(cfg.cipher.value) <= |st.iv| && start == st.iv[..IvLen(cfg.cipher.value)]
    ensures |last| == |start|
    ensures var y := CipherOver(cfg, st, op, data);
            && Crypted(cfg.cipher.value, op, start, data, mem, Splice(mem, at, y.data), at, last)
            && |y.iv| == 16 && |last| <= 16 && y.iv[..|last|] == last
  {
    assert cfg.cipher.value.unit > 0;
    CipherIs(cfg, st, op, data, IvLen(cfg.cipher.value), start);
    last := Crypt(cfg.cipher.value, op, start, data).iv;
    SpliceWritten(mem, at, Crypt(cfg.cipher.value, op, start, data).data);
    hide Crypt, Multiple, CipherOver, Splice, Written, Cipher.Valid, Hash.Valid;
  }

  lemma TlsDecryptsAs(cfg: Config, st: State, mem: Bytes, dec: AuthOp, iv: Bytes, env: Env, stale: Bytes, tagLen: nat)
    returns (last: Bytes)
    requires AuthCallable(cfg, st, dec, iv, stale) && dec.tls && !dec.srtp && dec.op.Decrypt? && cfg.cipher.Some?
    requires dec.src == dec.dst && tagLen == EffectiveTagLen(cfg, dec) && cfg.cipher.value.BlockSize() > 0
    requires Refusal(mem, dec, env, cfg.cipher.value.BlockSize(), dec.len) == Ok
    ensures cfg.cipher.value.unit <= 16 == |st.iv| && dec.dst + dec.len <= |mem|
    ensures var r := AuthRun(cfg, st, mem, dec, iv, env, stale);
            && Crypted(cfg.cipher.value, Decrypt, FirstIv(cfg.cipher.value, iv, st.iv), mem[dec.dst..dec.dst + dec.len],
                       mem, r.mem, dec.dst, last)
            && (r.ret.Ok? ==> r.tagLen == tagLen && r.iv == if dec.writeIv then Updated(iv, last) else iv)
  {
    var c := cfg.cipher.value;
    assert cfg.Valid() && st.Valid() && |iv| <= 16 && |stale| == AALG_MAX_RESULT_LEN && 0 < c.unit <= 16 == |st.iv|;
    hide AuthCallable, AuthRun, TlsOpen, Crypted, Crypt, Multiple, Verdict, FirstIv, Updated, AuthPrepared, EffectiveTagLen, Refusal,
         Authenticated, Overlay, Config.Valid, Cipher.Valid, Hash.Valid, Cipher.Accepts, IvLen, IvBytes;
    TlsOpened(cfg, st, mem, dec, iv, env, stale, tagLen);
    BlockMultiple(c, mem, dec, env);
    FirstIvPrepared(cfg, st, iv);
    last := OpenIs(cfg, AuthPrepared(cfg, st, iv), mem, Authenticated(mem, dec), dec.dst, dec.len, tagLen, stale, FirstIv(c, iv, st.iv));
    var s := TlsOpen(cfg, AuthPrepared(cfg, st, iv), mem, Authenticated(mem, dec), dec.dst, dec.len, tagLen, stale);
    IvReturned(cfg, dec, iv, tagLen, AuthRun(cfg, st, mem, dec, iv, env, stale), s.ret, s.mem, s.len, s.st.iv, last);
  }

  /** `text` is `data` deciphered. */
  ghost predicate Deciphered(c: Cipher, first: Bytes, data: Bytes, text: Bytes) {
    c.unit > 0 && text == Crypt(c, Decrypt, first, data).data
  }

  /** `v` is the verdict on `text`. */
  ghost predicate Judged(cfg: Config, auth: Bytes, text: Bytes, tagLen: nat, stale: Bytes, v: Opened) {
    cfg.Valid() && cfg.cipher.Some? && text != [] && |stale| == AALG_MAX_RESULT_LEN && v == Verdict(cfg, auth, text, tagLen, stale)
  }

  /** The verdict is on the deciphered text. */
  lemma TlsJudges(cfg: Config, st: State, mem: Bytes, dec: AuthOp, iv: Bytes, env: Env, stale: Bytes, tagLen: nat)
    returns (text: Bytes, v: Opened)
    requires AuthCallable(cfg, st, dec, iv, stale) && dec.tls && !dec.srtp && dec.op.Decrypt? && cfg.cipher.Some?
    requires dec.src == dec.dst && tagLen == EffectiveTagLen(cfg, dec) && cfg.cipher.value.BlockSize() > 0
    requires Refusal(mem, dec, env, cfg.cipher.value.BlockSize(), dec.len) == Ok
    ensures cfg.Valid() && 0 < cfg.cipher.value.unit <= 16 == |st.iv| && dec.dst + dec.len <= |mem| && |text| == dec.len > 0
    ensures dec.authSrc != 0 && dec.authLen > 0 ==> dec.authSrc + dec.authLen <= |mem|
    ensures Deciphered(cfg.cipher.value, FirstIv(cfg.cipher.value, iv, st.iv), mem[dec.dst..dec.dst + dec.len], text)
    ensures Judged(cfg, Authenticated(mem, dec), text, tagLen, stale, v)
    ensures var r := AuthRun(cfg, st, mem, dec, iv, env, stale); r.ret == v.ret && (r.ret.Ok? ==> r.len == v.len)
  {
    var c := cfg.cipher.value;
    assert cfg.Valid() && st.Valid() && |iv| <= 16 && |stale| == AALG_MAX_RESULT_LEN && 0 < c.unit <= 16 == |st.iv|;
    hide Returned, Judged, Deciphered, AuthCallable, AuthRun, TlsOpen, Crypt, Multiple, Verdict, FirstIv, AuthPrepared,
         EffectiveTagLen, Refusal, Authenticated,
         Config.Valid, Cipher.Valid, Hash.Valid, Cipher.Accepts, IvLen, IvBytes, Overlay;
    TlsOpened(cfg, st, mem, dec, iv, env, stale, tagLen);
    BlockMultiple(c, mem, dec, env);
    FirstIvPrepared(cfg, st, iv);
    text, v := OpenedText(cfg, AuthPrepared(cfg, st, iv), mem, Authenticated(mem, dec), dec.dst, dec.len, tagLen, stale, FirstIv(c, iv, st.iv));
    var s := TlsOpen(cfg, AuthPrepared(cfg, st, iv), mem, Authenticated(mem, dec), dec.dst, dec.len, tagLen, stale);
    ReturnedStatus(cfg, dec, iv, tagLen, AuthRun(cfg, st, mem, dec, iv, env, stale), s.ret, s.mem, s.len, s.st.iv);
  }

  lemma DecipheredIs(c: Cipher, first: Bytes, data: Bytes, text: Bytes)
    requires Deciphered(c, first, data, text)
    ensures c.unit > 0 && text == Crypt(c, Decrypt, first, data).data
  {
  }

  lemma BlockMultiple(c: Cipher, mem: Bytes, dec: AuthOp, env: Env)
    requires c.unit > 0 && dec.op.Decrypt? && Refusal(mem, dec, env, c.BlockSize(), dec.len) == Ok
    ensures c.Accepts(dec.len)
  {
    AcceptsIs(c, dec.len, c.BlockSize());
  }

  lemma OpenIs(cfg: Config, st: State, mem: Bytes, auth: Bytes, dst: nat, len: nat, tagLen: nat, stale: Bytes, start: Bytes)
    returns (last: Bytes)
    requires cfg.Valid() && st.Valid() && cfg.cipher.Some? && |stale| == AALG_MAX_RESULT_LEN
    requires dst + len <= |mem| && len > 0 && cfg.cipher.value.Accepts(len)
    requires IvLen(cfg.cipher.value) <= |st.iv| && start == st.iv[..IvLen(cfg.cipher.value)]
    ensures |last| == |start|
    ensures var s := TlsOpen(cfg, st, mem, auth, dst, len, tagLen, stale);
            && Crypted(cfg.cipher.value, Decrypt, start, mem[dst..dst + len], mem, s.mem, dst, last)
            && |s.st.iv| == 16 && |last| <= 16 && s.st.iv[..|last|] == last
  {
    hide Crypt, Crypted, Multiple, Verdict, CipherOver, Splice, Cipher.Valid, Hash.Valid, Hashed, Unpadded;
    last := PassIs(cfg, st, Decrypt, mem[dst..dst + len], mem, dst, start);
  }

  lemma OpenedText(cfg: Config, st: State, mem: Bytes, auth: Bytes, dst: nat, len: nat, tagLen: nat, stale: Bytes, start: Bytes)
    returns (text: Bytes, v: Opened)
    requires cfg.Valid() && st.Valid() && cfg.cipher.Some? && |stale| == AALG_MAX_RESULT_LEN
    requires dst + len <= |mem| && len > 0 && cfg.cipher.value.Accepts(len)
    requires IvLen(cfg.cipher.value) <= |st.iv| && start == st.iv[..IvLen(cfg.cipher.value)]
    ensures |text| == len && Deciphered(cfg.cipher.value, start, mem[dst..dst + len], text)
    ensures Judged(cfg, auth, text, tagLen, stale, v)
    ensures var s := TlsOpen(cfg, st, mem, auth, dst, len, tagLen, stale); s.ret == v.ret && s.len == v.len
  {
    assert cfg.cipher.value.unit > 0;
    hide Crypt, Multiple, Verdict, TlsOpen, CipherOver, Cipher.Valid, Hash.Valid;
    text := CipherOver(cfg, st, Decrypt, mem[dst..dst + len]).data;
    v := Verdict(cfg, auth, text, tagLen, stale);
    OpenVerdict(cfg, st, mem, auth, dst, len, tagLen, stale, text);
    CipherIs(cfg, st, Decrypt, mem[dst..dst + len], IvLen(cfg.cipher.value), start);
  }

  lemma OpenVerdict(cfg: Config, st: State, mem: Bytes, auth: Bytes, dst: nat, len: nat, tagLen: nat, stale: Bytes, text: Bytes)
    requires cfg.Valid() && st.Valid() && cfg.cipher.Some? && |stale| == AALG_MAX_RESULT_LEN
    requires dst + len <= |mem| && len > 0 && cfg.cipher.value.Accepts(len)
    requires text == CipherOver(cfg, st, Decrypt, mem[dst..dst + len]).data
    ensures var s, v := TlsOpen(cfg, st, mem, auth, dst, len, tagLen, stale), Verdict(cfg, auth, text, tagLen, stale);
            s.ret == v.ret && s.len == v.len
  {
    hide Multiple, Verdict, Unpadded, CipherOver, Splice, Cipher.Valid, Hash.Valid, Hashed;
  }

  /** What a TLS decryption that is not refused does to memory, whatever the verdict: the record is
      deciphered in place. A success gives the IV back on request. */
  lemma TlsDecrypts(cfg: Config, st: State, mem: Bytes, dec: AuthOp, iv: Bytes, env: Env, stale: Bytes) returns (last: Bytes)
    requires AuthCallable(cfg, st, dec, iv, stale) && dec.tls && !dec.srtp && dec.op.Decrypt? && cfg.cipher.Some?
    requires dec.src == dec.dst && cfg.cipher.value.unit > 0
    requires Refusal(mem, dec, env, if cfg.cipher.value.mode.Ctr? then 1 else cfg.cipher.value.unit, dec.len) == Ok
    ensures dec.dst + dec.len <= |mem|
    ensures var r := AuthRun(cfg, st, mem, dec, iv, env, stale);
            && Crypted(cfg.cipher.value, Decrypt, FirstIv(cfg.cipher.value, iv, st.iv), mem[dec.dst..dec.dst + dec.len],
                       mem, r.mem, dec.dst, last)
            && (r.ret.Ok? ==> r.iv == if dec.writeIv then Updated(iv, last) else iv)
  {
    hide AuthRun, Crypted, Multiple, Verdict, FirstIv, Updated, EffectiveTagLen, Refusal, Authenticated, Hash.Valid;
    last := TlsDecryptsAs(cfg, st, mem, dec, iv, env, stale, EffectiveTagLen(cfg, dec));
  }

  /** Which records a TLS decryption with a hash accepts: the call succeeds with length n exactly when the
      deciphered text is n bytes of data, the truncated MAC of the bytes at auth_src (none if that is
      null) followed by the data, and, under a block cipher, some legal pad. */
  lemma TlsAccepts(cfg: Config, st: State, mem: Bytes, dec: AuthOp, iv: Bytes, env: Env, stale: Bytes, n: nat)
    requires AuthCallable(cfg, st, dec, iv, stale) && dec.tls && !dec.srtp && dec.op.Decrypt? && cfg.cipher.Some?
    requires dec.src == dec.dst && cfg.cipher.value.unit > 0 && cfg.hash.Some? && dec.tagLen <= cfg.hash.value.digestSize
    requires Refusal(mem, dec, env, if cfg.cipher.value.mode.Ctr? then 1 else cfg.cipher.value.unit, dec.len) == Ok
    ensures dec.dst + dec.len <= |mem| && (dec.authSrc != 0 && dec.authLen > 0 ==> dec.authSrc + dec.authLen <= |mem|)
    ensures cfg.cipher.value.unit <= 16 == |st.iv|
    ensures var r := AuthRun(cfg, st, mem, dec, iv, env, stale);
            var c := cfg.cipher.value;
            var text := Crypt(c, Decrypt, FirstIv(c, iv, st.iv), mem[dec.dst..dec.dst + dec.len]).data;
            var auth := if dec.authSrc != 0 && dec.authLen > 0 then mem[dec.authSrc..dec.authSrc + dec.authLen] else [];
            var tagLen := if dec.tagLen != 0 then dec.tagLen else cfg.hash.value.digestSize;
            r.ret.Ok? && r.len == n <==>
            if c.mode.Ctr? || c.unit == 1 then Tagged(cfg, auth, text, tagLen, n)
            else exists k: Byte :: Splits(cfg, auth, text, tagLen, n, k)
  {
    hide AuthRun, Multiple, Verdict, FirstIv, EffectiveTagLen, Refusal, Splits, Tagged, Written, Crypt;
    TagLenIs(cfg, dec);
    var c := cfg.cipher.value;
    var tagLen := EffectiveTagLen(cfg, dec);
    var text, v := TlsJudges(cfg, st, mem, dec, iv, env, stale, tagLen);
    DecipheredIs(c, FirstIv(c, iv, st.iv), mem[dec.dst..dec.dst + dec.len], text);
    if c.BlockSize() > 1 {
      AcceptedIffSplits(cfg, Authenticated(mem, dec), text, tagLen, stale, n);
    } else {
      AcceptedIffTagged(cfg, Authenticated(mem, dec), text, tagLen, stale, n);
    }
  }

  /** Without a hash every TLS decryption that is not refused succeeds, and what a legal pad leaves is its
      length; with one, no record is accepted whose pad is not legal. */
  lemma TlsPads(cfg: Config, st: State, mem: Bytes, dec: AuthOp, iv: Bytes, env: Env, stale: Bytes)
    requires AuthCallable(cfg, st, dec, iv, stale) && dec.tls && !dec.srtp && dec.op.Decrypt? && cfg.cipher.Some?
    requires dec.src == dec.dst && !cfg.cipher.value.mode.Ctr? && cfg.cipher.value.unit > 1
    requires Refusal(mem, dec, env, cfg.cipher.value.unit, dec.len) == Ok
    ensures dec.dst + dec.len <= |mem| && cfg.cipher.value.unit <= 16 == |st.iv|
    ensures var r := AuthRun(cfg, st, mem, dec, iv, env, stale);
            var text := Crypt(cfg.cipher.value, Decrypt, FirstIv(cfg.cipher.value, iv, st.iv), mem[dec.dst..dec.dst + dec.len]).data;
            && (cfg.hash.None? ==> r.ret.Ok?)
            && (cfg.hash.None? ==> forall k: Byte :: LegalPad(text, k) ==> r.len == dec.len - k - 1)
            && ((forall k: Byte :: !LegalPad(text, k)) ==> (r.ret.Ok? <==> cfg.hash.None?) && (r.ret.Ok? ==> r.len == dec.len))
  {
    hide AuthRun, Multiple, FirstIv, EffectiveTagLen, Refusal, LegalPad, Written, Crypt, CheckedPad, Authenticated, DigestBuffer;
    var c := cfg.cipher.value;
    var tagLen := EffectiveTagLen(cfg, dec);
    var text, v := TlsJudges(cfg, st, mem, dec, iv, env, stale, tagLen);
    DecipheredIs(c, FirstIv(c, iv, st.iv), mem[dec.dst..dec.dst + dec.len], text);
    forall k: Byte ensures CheckedPad(text).Some? && CheckedPad(text).value - 1 == k <==> LegalPad(text, k) { CheckedIffLegal(text, k); }
    CheckedLast(text);
    assert CheckedPad(text).Some? ==> LegalPad(text, text[|text| - 1]);
  }

  // ---- SRTP packets ----

  /** Where the payload of an SRTP request starts: the distance of src from auth_src is cut to 32 bits. */
  function Base(caop: AuthOp): nat { caop.authSrc + (caop.src - caop.authSrc) % 0x1_0000_0000 }

  /** What an SRTP request is refused with before anything is read or written, if it is. */
  function SrtpRefusal(c: Cipher, mem: Bytes, caop: AuthOp, env: Env, tagLen: nat): Status {
    if !c.stream || caop.authLen == 0 then EINVAL
    else if caop.len == 0 && (caop.op.Decrypt? || (tagLen == 0 && !caop.tls)) then EINVAL
    else if Base(caop) > caop.authSrc + 256 then EINVAL
    else if !env.arrays then ENOMEM
    else if !env.pinned || caop.authSrc == 0 || caop.authSrc + caop.authLen > |mem| then EINVAL
    else if Base(caop) >= caop.authSrc + caop.authLen then EINVAL
    else Ok
  }

  lemma BaseIs(caop: AuthOp)
    ensures 0 <= Diff(caop) <= MAX_SRTP_AUTH_DATA_DIFF <==> Base(caop) <= caop.authSrc + 256
    ensures 0 <= Diff(caop) <= MAX_SRTP_AUTH_DATA_DIFF ==> Base(caop) == caop.authSrc + Diff(caop)
  {
  }

  lemma DstLenIs(cfg: Config, caop: AuthOp, tagLen: nat)
    requires tagLen == EffectiveTagLen(cfg, caop) && !caop.op.OtherOp? && cfg.cipher.Some? && cfg.cipher.value.BlockSize() > 0
    ensures DstLen(cfg, caop) == 0 <==> caop.len == 0 && (caop.op.Decrypt? || (tagLen == 0 && !caop.tls))
  {
  }

  /** An SRTP request is handed to crypto_auth_zc_srtp, which refuses it or processes both views. */
  lemma SrtpDispatch(cfg: Config, st: State, mem: Bytes, caop: AuthOp, iv: Bytes, env: Env, stale: Bytes, tagLen: nat)
    requires AuthCallable(cfg, st, caop, iv, stale) && caop.srtp && !caop.op.OtherOp? && cfg.cipher.Some?
    requires caop.src == caop.dst && tagLen == EffectiveTagLen(cfg, caop)
    ensures caop.op.Encrypt? && cfg.hash.Some? ==> tagLen <= cfg.hash.value.digestSize
    ensures caop.op.Encrypt? || caop.op.Decrypt? ==> caop.authSrc != 0 && Diff(caop) + caop.len <= caop.authLen
    ensures var s := SrtpRequest(cfg, AuthPrepared(cfg, st, iv), mem, caop, tagLen, DstLen(cfg, caop), env, stale);
            && (!s.ret.Ok? && s.mem == mem ==> RefusedWith(AuthRun(cfg, st, mem, caop, iv, env, stale), s.ret, mem, iv))
            && Returned(cfg, caop, iv, tagLen, AuthRun(cfg, st, mem, caop, iv, env, stale), s.ret, s.mem, s.len, s.st.iv)
  {
    hide TlsRequest, SrtpRequest, Diff, PadSize, Multiple, AuthPrepared, Cipher.Valid, Hash.Valid, Overlay, IvBytes;
  }

  lemma SrtpUnfolds(cfg: Config, st: State, mem: Bytes, caop: AuthOp, tagLen: nat, dstLen: nat, env: Env, stale: Bytes)
    requires cfg.Valid() && st.Valid() && cfg.cipher.Some? && |stale| == AALG_MAX_RESULT_LEN && !caop.op.OtherOp?
    requires caop.op.Encrypt? && cfg.hash.Some? ==> tagLen <= cfg.hash.value.digestSize
    requires caop.authSrc != 0 && Diff(caop) + caop.len <= caop.authLen
    requires dstLen == 0 <==> caop.len == 0 && (caop.op.Decrypt? || (tagLen == 0 && !caop.tls))
    ensures var early, s := SrtpRefusal(cfg.cipher.value, mem, caop, env, tagLen), SrtpRequest(cfg, st, mem, caop, tagLen, dstLen, env, stale);
            && (early != Ok ==> s.ret == early && s.mem == mem)
            && (early == Ok ==>
                  && cfg.Accepts(caop.len) && caop.authSrc + caop.authLen <= |mem| && 0 <= Diff(caop) && Base(caop) == caop.authSrc + Diff(caop)
                  && var t := if caop.op.Encrypt? then SrtpSeal(cfg, st, mem, caop, tagLen) else SrtpOpen(cfg, st, mem, caop, tagLen, stale);
                  s.ret == t.ret && s.mem == t.mem && s.len == t.len && s.st.iv == t.st.iv)
  {
    BaseIs(caop);
    MultipleOfOne(caop.len);
    hide Diff, Base, SrtpSeal, SrtpOpen, Multiple, Hash.Valid;
  }

  /** The status of every SRTP request: which are refused, leaving memory alone, and how; every other
      encryption succeeds unless there is a tag to deliver and nowhere to put it. */
  lemma SrtpStatus(cfg: Config, st: State, mem: Bytes, caop: AuthOp, iv: Bytes, env: Env, stale: Bytes)
    requires AuthCallable(cfg, st, caop, iv, stale) && caop.srtp && !caop.op.OtherOp? && cfg.cipher.Some?
    ensures var r := AuthRun(cfg, st, mem, caop, iv, env, stale);
            var tagLen := if caop.tagLen != 0 then caop.tagLen else if cfg.hash.Some? then cfg.hash.value.digestSize else 0;
            var early := if caop.src != caop.dst then EINVAL else SrtpRefusal(cfg.cipher.value, mem, caop, env, tagLen);
            && (early != Ok ==> RefusedWith(r, early, mem, iv))
            && (early == Ok && caop.op.Encrypt? ==>
                  r.ret == if cfg.hash.Some? && (caop.tag == 0 || caop.tag + tagLen > |mem|) then EFAULT else Ok)
  {
    if caop.src == caop.dst {
      TagLenIs(cfg, caop);
      var tagLen := EffectiveTagLen(cfg, caop);
      assert cfg.cipher.value.BlockSize() > 0;
      hide AuthRun, SrtpRequest, SrtpRefusal, EffectiveTagLen, DstLen, Diff, Base, AuthPrepared, CipherOver, Splice, Hashed,
           Multiple, Cipher.Valid, Hash.Valid, Overlay, IvBytes;
      DstLenIs(cfg, caop, tagLen);
      SrtpDispatch(cfg, st, mem, caop, iv, env, stale, tagLen);
      hide RefusedWith;
      SrtpUnfolds(cfg, AuthPrepared(cfg, st, iv), mem, caop, tagLen, DstLen(cfg, caop), env, stale);
    } else {
      hide AuthDispatch, AuthPrepared;
    }
  }

  /** What an SRTP encryption that is not refused leaves: `mid` is the memory with the payload enciphered
      in place, and the tag is the truncated MAC of the authenticated buffer as it is there. */
  lemma SrtpEncrypts(cfg: Config, st: State, mem: Bytes, enc: AuthOp, iv: Bytes, env: Env, stale: Bytes)
    returns (mid: Bytes, last: Bytes)
    requires AuthCallable(cfg, st, enc, iv, stale) && enc.srtp && enc.op.Encrypt? && cfg.cipher.Some? && enc.src == enc.dst
    requires var tagLen := if enc.tagLen != 0 then enc.tagLen else if cfg.hash.Some? then cfg.hash.value.digestSize else 0;
             SrtpRefusal(cfg.cipher.value, mem, enc, env, tagLen) == Ok
    ensures cfg.cipher.value.unit <= 16 == |st.iv| && enc.authSrc <= Base(enc)
    ensures Base(enc) + enc.len <= enc.authSrc + enc.authLen <= |mem| == |mid|
    ensures Crypted(cfg.cipher.value, Encrypt, FirstIv(cfg.cipher.value, iv, st.iv), mem[Base(enc)..Base(enc) + enc.len],
                    mem, mid, Base(enc), last)
    ensures var r := AuthRun(cfg, st, mem, enc, iv, env, stale);
            var tagLen := if enc.tagLen != 0 then enc.tagLen else if cfg.hash.Some? then cfg.hash.value.digestSize else 0;
            && (cfg.hash.None? || !r.ret.Ok? ==> r.mem == mid)
            && (cfg.hash.Some? ==> tagLen <= cfg.hash.value.digestSize)
            && (cfg.hash.Some? && r.ret.Ok? ==>
                  Written(mid, r.mem, enc.tag, cfg.hash.value.digest(HashState(Reset, mid[enc.authSrc..enc.authSrc + enc.authLen]))[..tagLen]))
            && (r.ret.Ok? ==> r.len == enc.len && r.tagLen == tagLen && r.iv == if enc.writeIv then Updated(iv, last) else iv)
  {
    TagLenIs(cfg, enc);
    var c := cfg.cipher.value;
    var tagLen := EffectiveTagLen(cfg, enc);
    assert c.BlockSize() > 0 && 0 < c.unit <= 16 == |st.iv|;
    hide AuthRun, SrtpRequest, SrtpRefusal, SrtpSeal, EffectiveTagLen, DstLen, Diff, Base, AuthPrepared, FirstIv, Updated, Crypted, Written,
         Multiple, Config.Valid, Cipher.Valid, Hash.Valid, Overlay;
    DstLenIs(cfg, enc, tagLen);
    SrtpDispatch(cfg, st, mem, enc, iv, env, stale, tagLen);
    SrtpUnfolds(cfg, AuthPrepared(cfg, st, iv), mem, enc, tagLen, DstLen(cfg, enc), env, stale);
    FirstIvPrepared(cfg, st, iv);
    hide AuthCallable, IvLen, IvBytes, Returned;
    mid, last := SrtpSealIs(cfg, AuthPrepared(cfg, st, iv), mem, enc, tagLen, FirstIv(c, iv, st.iv), Base(enc));
    var s := SrtpRequest(cfg, AuthPrepared(cfg, st, iv), mem, enc, tagLen, DstLen(cfg, enc), env, stale);
    IvReturned(cfg, enc, iv, tagLen, AuthRun(cfg, st, mem, enc, iv, env, stale), s.ret, s.mem, s.len, s.st.iv, last);
  }

  lemma SrtpSealIs(cfg: Config, st: State, mem: Bytes, enc: AuthOp, tagLen: nat, start: Bytes, base: nat)
    returns (mid: Bytes, last: Bytes)
    requires cfg.Valid() && st.Valid() && cfg.cipher.Some? && cfg.Accepts(enc.len)
    requires cfg.hash.Some? ==> tagLen <= cfg.hash.value.digestSize
    requires enc.authSrc + enc.authLen <= |mem| && 0 <= Diff(enc) && Diff(enc) + enc.len <= enc.authLen && base == enc.authSrc + Diff(enc)
    requires IvLen(cfg.cipher.value) <= |st.iv| && start == st.iv[..IvLen(cfg.cipher.value)]
    ensures |mid| == |mem| && |last| == |start|
    ensures Crypted(cfg.cipher.value, Encrypt, start, mem[base..base + enc.len], mem, mid, base, last)
    ensures var s := SrtpSeal(cfg, st, mem, enc, tagLen);
            && s.len == enc.len && |s.st.iv| == 16 && |last| <= 16 && s.st.iv[..|last|] == last
            && (cfg.hash.None? || !s.ret.Ok? ==> s.mem == mid)
            && (cfg.hash.Some? && s.ret.Ok? ==>
                  Written(mid, s.mem, enc.tag, cfg.hash.value.digest(HashState(Reset, mid[enc.authSrc..enc.authSrc + enc.authLen]))[..tagLen]))
  {
    var data := mem[base..base + enc.len];
    hide Crypted, Crypt, Multiple, CipherOver, Splice, Written, Diff, Cipher.Valid, Hash.Valid, Hashed;
    mid := Splice(mem, base, CipherOver(cfg, st, Encrypt, data).data);
    last := PassIs(cfg, st, Encrypt, data, mem, base, start);
    if cfg.hash.Some? && UserRange(mem, enc.tag, tagLen) {
      TagWritten(cfg.hash.value, mid, enc, tagLen);
    }
  }

  lemma TagWritten(h: Hash, mid: Bytes, enc: AuthOp, tagLen: nat)
    requires h.Valid() && tagLen <= h.digestSize && enc.tag + tagLen <= |mid| && enc.authSrc + enc.authLen <= |mid|
    ensures var tag := h.digest(HashState(Reset, mid[enc.authSrc..enc.authSrc + enc.authLen]))[..tagLen];
            tag == h.Of(mid[enc.authSrc..enc.authSrc + enc.authLen])[..tagLen] && Written(mid, Splice(mid, enc.tag, tag), enc.tag, tag)
  {
    var tag := h.digest(HashState(Reset, mid[enc.authSrc..enc.authSrc + enc.authLen]))[..tagLen];
    SpliceWritten(mid, enc.tag, tag);
  }

  /** The tag of a packet, no longer than its payload, is the truncated MAC of the authenticated buffer. */
  ghost predicate TagAgrees(h: Hash, mem: Bytes, dec: AuthOp, tagLen: nat)
    requires h.Valid() && dec.authSrc + dec.authLen <= |mem|
  {
    && tagLen <= dec.len && tagLen <= h.digestSize && dec.tag != 0 && dec.tag + tagLen <= |mem|
    && mem[dec.tag..dec.tag + tagLen] == h.digest(HashState(Reset, mem[dec.authSrc..dec.authSrc + dec.authLen]))[..tagLen]
  }

  /** Which SRTP packets are accepted, and what that does: a packet that is not refused is accepted exactly
      when no hash is attached or its tag, no longer than the payload, is the truncated MAC of the
      buffer; then the payload is deciphered in place, and otherwise memory is left alone. */
  lemma SrtpDecrypts(cfg: Config, st: State, mem: Bytes, dec: AuthOp, iv: Bytes, env: Env, stale: Bytes) returns (last: Bytes)
    requires AuthCallable(cfg, st, dec, iv, stale) && dec.srtp && dec.op.Decrypt? && cfg.cipher.Some? && dec.src == dec.dst
    requires cfg.hash.Some? ==> dec.tagLen <= cfg.hash.value.digestSize
    requires var tagLen := if dec.tagLen != 0 then dec.tagLen else if cfg.hash.Some? then cfg.hash.value.digestSize else 0;
             SrtpRefusal(cfg.cipher.value, mem, dec, env, tagLen) == Ok
    ensures cfg.cipher.value.unit <= 16 == |st.iv| && dec.authSrc <= Base(dec)
    ensures Base(dec) + dec.len <= dec.authSrc + dec.authLen <= |mem|
    ensures var r := AuthRun(cfg, st, mem, dec, iv, env, stale);
            var tagLen := if dec.tagLen != 0 then dec.tagLen else if cfg.hash.Some? then cfg.hash.value.digestSize else 0;
            && (r.ret.Ok? <==> (cfg.hash.Some? ==> TagAgrees(cfg.hash.value, mem, dec, tagLen)))
            && (!r.ret.Ok? ==> r.mem == mem)
            && (r.ret.Ok? ==> r.len == dec.len && r.iv == if dec.writeIv then Updated(iv, last) else iv)
            && (r.ret.Ok? ==> Crypted(cfg.cipher.value, Decrypt, FirstIv(cfg.cipher.value, iv, st.iv),
                                      mem[Base(dec)..Base(dec) + dec.len], mem, r.mem, Base(dec), last))
  {
    TagLenIs(cfg, dec);
    var c := cfg.cipher.value;
    var tagLen := EffectiveTagLen(cfg, dec);
    assert c.BlockSize() > 0 && 0 < c.unit <= 16 == |st.iv|;
    assert cfg.hash.Some? ==> tagLen <= cfg.hash.value.digestSize <= AALG_MAX_RESULT_LEN;
    hide AuthRun, SrtpRequest, SrtpRefusal, SrtpOpen, EffectiveTagLen, DstLen, Diff, Base, AuthPrepared, FirstIv, Updated, Crypted,
         Multiple, Config.Valid, Cipher.Valid, Hash.Valid, Overlay;
    DstLenIs(cfg, dec, tagLen);
    SrtpDispatch(cfg, st, mem, dec, iv, env, stale, tagLen);
    SrtpUnfolds(cfg, AuthPrepared(cfg, st, iv), mem, dec, tagLen, DstLen(cfg, dec), env, stale);
    FirstIvPrepared(cfg, st, iv);
    hide AuthCallable, IvLen, IvBytes, Returned, TagAgrees;
    last := SrtpOpenIs(cfg, AuthPrepared(cfg, st, iv), mem, dec, tagLen, stale, FirstIv(c, iv, st.iv), Base(dec));
    var s := SrtpRequest(cfg, AuthPrepared(cfg, st, iv), mem, dec, tagLen, DstLen(cfg, dec), env, stale);
    if s.ret.Ok? { IvReturned(cfg, dec, iv, tagLen, AuthRun(cfg, st, mem, dec, iv, env, stale), s.ret, s.mem, s.len, s.st.iv, last); }
    ReturnedStatus(cfg, dec, iv, tagLen, AuthRun(cfg, st, mem, dec, iv, env, stale), s.ret, s.mem, s.len, s.st.iv);
  }

  lemma SrtpOpenIs(cfg: Config, st: State, mem: Bytes, dec: AuthOp, tagLen: nat, stale: Bytes, start: Bytes, base: nat)
    returns (last: Bytes)
    requires cfg.Valid() && st.Valid() && cfg.cipher.Some? && cfg.Accepts(dec.len) && |stale| == AALG_MAX_RESULT_LEN
    requires cfg.hash.Some? ==> tagLen <= cfg.hash.value.digestSize
    requires dec.authSrc + dec.authLen <= |mem| && 0 <= Diff(dec) && Diff(dec) + dec.len <= dec.authLen && base == dec.authSrc + Diff(dec)
    requires IvLen(cfg.cipher.value) <= |st.iv| && start == st.iv[..IvLen(cfg.cipher.value)]
    ensures |last| == |start|
    ensures var s := SrtpOpen(cfg, st, mem, dec, tagLen, stale);
            && (s.ret.Ok? <==> (cfg.hash.Some? ==> TagAgrees(cfg.hash.value, mem, dec, tagLen)))
            && (!s.ret.Ok? ==> s.mem == mem)
            && (s.ret.Ok? ==> s.len == dec.len && |s.st.iv| == 16 && |last| <= 16 && s.st.iv[..|last|] == last)
            && (s.ret.Ok? ==> Crypted(cfg.cipher.value, Decrypt, start, mem[base..base + dec.len], mem, s.mem, base, last))
  {
    var data := mem[base..base + dec.len];
    if cfg.hash.Some? {
      var h := cfg.hash.value;
      var buf := DigestBuffer(h, HashState(Reset, mem[dec.authSrc..dec.authSrc + dec.authLen]), stale);
      assert buf[..tagLen] == buf[..h.digestSize][..tagLen];
    }
    SameCipher(cfg, st, Hashed(mem[dec.authSrc..dec.authSrc + dec.authLen]), data);
    hide Crypted, Crypt, Multiple, CipherOver, Splice, Diff, Cipher.Valid, Hash.Valid, Hashed, DigestBuffer;
    last := PassIs(cfg, st, Decrypt, data, mem, base, start);
  }

  /** The cipher does not look at the hash state. */
  lemma SameCipher(cfg: Config, st: State, h: HashState, data: Bytes)
    requires cfg.Valid() && st.Valid() && cfg.cipher.Some? && cfg.Accepts(|data|)
    ensures CipherOver(cfg, st.(hash := h), Decrypt, data) == CipherOver(cfg, st, Decrypt, data)
  {
  }
}
