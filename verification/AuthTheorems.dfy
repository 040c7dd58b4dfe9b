/** Round trips and frames of authenticated requests. */
module AuthTheorems {
  import opened Bytes
  import opened BlockModes
  import opened HashCore
  import opened RunEngine
  import opened Tls
  import opened AuthRequest

  /** The request that undoes `enc`, with the length and tag length it returned. */
  function Undo(enc: AuthOp, r: AuthReply): AuthOp { enc.(op := Decrypt, len := r.len, tagLen := r.tagLen) }

  /** Nothing outside [a, a + n) and [b, b + m) differs. */
  ghost predicate ChangedOnlyIn(mem: Bytes, mem': Bytes, a: nat, n: nat, b: nat, m: nat) {
    && |mem'| == |mem|
    && forall i :: 0 <= i < |mem| && !(a <= i < a + n) && !(b <= i < b + m) ==> mem'[i] == mem[i]
  }

  predicate Disjoint(a: nat, n: nat, b: nat, m: nat) { a + n <= b || b + m <= a }

  /** A cipher pass undone under the same IV. */
  lemma CipherOverInverse(cfg: Config, st: State, st': State, iv: Bytes, data: Bytes)
    requires cfg.Valid() && st.Valid() && st'.Valid() && cfg.cipher.Some? && cfg.Accepts(|data|)
    requires |iv| == cfg.cipher.value.IvSize() && st.iv[..|iv|] == iv == st'.iv[..|iv|]
    ensures var y := CipherOver(cfg, st, Encrypt, data);
            CipherOver(cfg, st', Decrypt, y.data).data == data
    ensures CipherOver(cfg, st, Encrypt, data).iv[..|iv|]
         == CipherOver(cfg, st', Decrypt, CipherOver(cfg, st, Encrypt, data).data).iv[..|iv|]
  {
    hide Crypt, Multiple;
    CryptLength(cfg.cipher.value, Encrypt, iv, data);
    CryptLength(cfg.cipher.value, Decrypt, iv, Crypt(cfg.cipher.value, Encrypt, iv, data).data);
    CryptInverse(cfg.cipher.value, iv, data);
  }

  // ---- TLS ----

  /** A TLS encryption the driver carries out: in place, everything mapped and pinned, and the
      authenticated data outside the range that is overwritten. */
  ghost predicate TlsReady(cfg: Config, st: State, mem: Bytes, enc: AuthOp, iv: Bytes, stale: Bytes) {
    && AuthCallable(cfg, st, enc, iv, stale) && cfg.cipher.Some? && |iv| == cfg.cipher.value.IvSize()
    && enc.op.Encrypt? && enc.tls && !enc.srtp && enc.src == enc.dst
    && UserRange(mem, enc.dst, DstLen(cfg, enc))
    && enc.authLen <= PAGE_SIZE
    && (enc.authSrc != 0 ==> enc.authSrc + enc.authLen <= |mem| && Disjoint(enc.authSrc, enc.authLen, enc.dst, DstLen(cfg, enc)))
  }

  function TlsAuth(mem: Bytes, caop: AuthOp): Bytes
    requires caop.authSrc != 0 ==> caop.authSrc + caop.authLen <= |mem|
  {
    if caop.authLen > 0 then AuthBytes(mem, caop) else []
  }

  /** What an encryption comes to, in terms of the plain record. */
  lemma TlsSeals(cfg: Config, st: State, mem: Bytes, enc: AuthOp, iv: Bytes, stale: Bytes)
    requires TlsReady(cfg, st, mem, enc, iv, stale)
    ensures enc.dst + enc.len <= |mem|
    ensures var tagLen := EffectiveTagLen(cfg, enc);
            var p := PlainRecord(cfg, TlsAuth(mem, enc), mem[enc.dst..enc.dst + enc.len], tagLen);
            && |p| <= DstLen(cfg, enc) && cfg.Accepts(|p|)
            && var y := CipherOver(cfg, AuthPrepared(cfg, st, iv), Encrypt, p);
            var r := AuthRun(cfg, st, mem, enc, iv, Granted, stale);
            && r.ret.Ok? && r.len == |p| && r.tagLen == tagLen && r.mem == Splice(mem, enc.dst, y.data)
            && r.iv == IvBack(enc, iv, y.iv[..|iv|])
  {
    hide Multiple, PlainRecord, CipherOver, Splice, PadSize, Cipher.Valid, Hash.Valid;
    RecordFitsReserved(cfg, enc.len, EffectiveTagLen(cfg, enc));
  }

  /** What a decryption comes to: it is refused if empty or ragged, and otherwise the verdict decides. */
  lemma TlsOpens(cfg: Config, st: State, mem: Bytes, dec: AuthOp, iv: Bytes, stale: Bytes)
    requires AuthCallable(cfg, st, dec, iv, stale) && cfg.cipher.Some? && |iv| == cfg.cipher.value.IvSize()
    requires dec.op.Decrypt? && dec.tls && !dec.srtp && dec.src == dec.dst && dec.authLen <= PAGE_SIZE
    requires UserRange(mem, dec.dst, dec.len) && (dec.authSrc != 0 ==> dec.authSrc + dec.authLen <= |mem|)
    ensures var r := AuthRun(cfg, st, mem, dec, iv, Granted, stale);
            if dec.len == 0 || !cfg.Accepts(dec.len) then r.ret.EINVAL? && r.mem == mem
            else
              var y := CipherOver(cfg, AuthPrepared(cfg, st, iv), Decrypt, mem[dec.dst..dec.dst + dec.len]);
              var v := Verdict(cfg, TlsAuth(mem, dec), y.data, EffectiveTagLen(cfg, dec), stale);
              && r.ret == v.ret && r.mem == Splice(mem, dec.dst, y.data)
              && (v.ret.Ok? ==> r.len == v.len && r.iv == IvBack(dec, iv, y.iv[..|iv|]))
  {
    hide Multiple, Verdict, CipherOver, Splice, Unpadded, Cipher.Valid, Hash.Valid;
  }

  /** Encrypting and then decrypting with the returned length and the same IV restores the payload
      and its length, and touches nothing outside the record, whenever the record is not empty; an
      empty one (stream cipher, no payload, no hash) is refused on the way back. */
  lemma TlsRoundTrip(cfg: Config, st: State, mem: Bytes, enc: AuthOp, iv: Bytes, stale: Bytes)
    requires TlsReady(cfg, st, mem, enc, iv, stale)
    ensures var r := AuthRun(cfg, st, mem, enc, iv, Granted, stale);
            var dec := Undo(enc, r);
            && r.ret.Ok? && AuthCallable(cfg, r.st, dec, iv, stale) && r.len <= DstLen(cfg, enc)
            && var r' := AuthRun(cfg, r.st, r.mem, dec, iv, Granted, stale);
            && (r'.ret.Ok? <==> !(enc.len == 0 && cfg.hash.None? && cfg.cipher.value.BlockSize() == 1))
            && (r'.ret.Ok? ==>
                  && r'.len == enc.len && r'.iv == r.iv
                  && r'.mem[enc.dst..enc.dst + enc.len] == mem[enc.dst..enc.dst + enc.len]
                  && ChangedOnlyIn(mem, r'.mem, enc.dst, r.len, 0, 0))
  {
    hide Multiple, AuthRun, CipherOver, Splice, PlainRecord, AuthPrepared, PadSize, RecordLen, EffectiveTagLen, Cipher.Valid, Hash.Valid;
    TlsFirstHalf(cfg, st, mem, enc, iv, stale);
    var r := AuthRun(cfg, st, mem, enc, iv, Granted, stale);
    if r.len > 0 {
      var data, auth := mem[enc.dst..enc.dst + enc.len], TlsAuth(mem, enc);
      var tagLen := EffectiveTagLen(cfg, enc);
      var p := PlainRecord(cfg, auth, data, tagLen);
      var y := CipherOver(cfg, AuthPrepared(cfg, st, iv), Encrypt, p);
      TlsOpensSealed(cfg, st, r.st, r.mem, Undo(enc, r), auth, data, tagLen, iv, stale);
      RecordRestored(mem, enc.dst, y.data, p, enc.len);
    } else {
      TlsOpens(cfg, r.st, r.mem, Undo(enc, r), iv, stale);
    }
  }

  /** The state of affairs between the two calls. */
  lemma TlsFirstHalf(cfg: Config, st: State, mem: Bytes, enc: AuthOp, iv: Bytes, stale: Bytes)
    requires TlsReady(cfg, st, mem, enc, iv, stale)
    ensures cfg.Valid() && st.Valid() && cfg.cipher.Some? && |iv| == cfg.cipher.value.IvSize()
    ensures enc.tls && !enc.srtp && enc.src == enc.dst && enc.authLen <= PAGE_SIZE
    ensures cfg.hash.Some? ==> EffectiveTagLen(cfg, enc) <= cfg.hash.value.digestSize
    ensures enc.authSrc != 0 ==> enc.authSrc + enc.authLen <= |mem|
    ensures enc.dst + enc.len <= |mem|
    ensures var r := AuthRun(cfg, st, mem, enc, iv, Granted, stale);
            var dec := Undo(enc, r);
            var tagLen := EffectiveTagLen(cfg, enc);
            var p := PlainRecord(cfg, TlsAuth(mem, enc), mem[enc.dst..enc.dst + enc.len], tagLen);
            && r.ret.Ok? && AuthCallable(cfg, r.st, dec, iv, stale)
            && enc.len <= r.len <= DstLen(cfg, enc) && r.len == |p| && cfg.Accepts(|p|)
            && UserRange(mem, enc.dst, r.len) && |r.mem| == |mem|
            && (r.len == 0 <==> enc.len == 0 && cfg.hash.None? && cfg.cipher.value.BlockSize() == 1)
            && var y := CipherOver(cfg, AuthPrepared(cfg, st, iv), Encrypt, p);
            && r.mem == Splice(mem, enc.dst, y.data) && r.mem[enc.dst..enc.dst + r.len] == y.data && r.iv == IvBack(enc, iv, y.iv[..|iv|])
            && TlsAuth(r.mem, dec) == TlsAuth(mem, enc) && EffectiveTagLen(cfg, dec) == tagLen
  {
    hide Multiple, AuthRun, CipherOver, Splice, PlainRecord, AuthPrepared, PadSize, RecordLen, Cipher.Valid;
    TlsSeals(cfg, st, mem, enc, iv, stale);
    var r := AuthRun(cfg, st, mem, enc, iv, Granted, stale);
    var tagLen := EffectiveTagLen(cfg, enc);
    var p := PlainRecord(cfg, TlsAuth(mem, enc), mem[enc.dst..enc.dst + enc.len], tagLen);
    RecordEmpty(cfg, enc.len, tagLen);
    RecordFitsReserved(cfg, enc.len, tagLen);
    AuthUntouched(mem, enc, CipherOver(cfg, AuthPrepared(cfg, st, iv), Encrypt, p).data);
  }

  /** Decryption of an enciphered plain record finds the record, accepts it and reports its payload. */
  lemma TlsOpensSealed(cfg: Config, st: State, st': State, mem: Bytes, dec: AuthOp, auth: Bytes, data: Bytes,
                       tagLen: nat, iv: Bytes, stale: Bytes)
    requires st.Valid() && AuthCallable(cfg, st', dec, iv, stale) && cfg.cipher.Some? && |iv| == cfg.cipher.value.IvSize()
    requires dec.op.Decrypt? && dec.tls && !dec.srtp && dec.src == dec.dst && dec.authLen <= PAGE_SIZE
    requires UserRange(mem, dec.dst, dec.len) && (dec.authSrc != 0 ==> dec.authSrc + dec.authLen <= |mem|)
    requires tagLen == EffectiveTagLen(cfg, dec) && (cfg.hash.Some? ==> tagLen <= cfg.hash.value.digestSize)
    requires TlsAuth(mem, dec) == auth
    requires var p := PlainRecord(cfg, auth, data, tagLen);
             && p != [] && dec.len == |p| && cfg.Accepts(|p|)
             && mem[dec.dst..dec.dst + dec.len] == CipherOver(cfg, AuthPrepared(cfg, st, iv), Encrypt, p).data
    ensures var p := PlainRecord(cfg, auth, data, tagLen);
            var r := AuthRun(cfg, st', mem, dec, iv, Granted, stale);
            && r.ret.Ok? && r.len == |data| && r.mem == Splice(mem, dec.dst, p)
            && r.iv == IvBack(dec, iv, CipherOver(cfg, AuthPrepared(cfg, st, iv), Encrypt, p).iv[..|iv|])
  {
    hide Multiple, AuthRun, CipherOver, Verdict, Splice, PlainRecord, AuthPrepared;
    var p := PlainRecord(cfg, auth, data, tagLen);
    TlsOpens(cfg, st', mem, dec, iv, stale);
    PreparedIv(cfg, st, iv);
    PreparedIv(cfg, st', iv);
    CipherOverInverse(cfg, AuthPrepared(cfg, st, iv), AuthPrepared(cfg, st', iv), iv, p);
    SealedIsAccepted(cfg, auth, data, tagLen, stale);
  }

  /** Writing the plain record over the enciphered one brings its first bytes back. */
  lemma RecordRestored(mem: Bytes, dst: nat, y: Bytes, p: Bytes, len: nat)
    requires dst + |p| <= |mem| && |y| == |p| && len <= |p| && p[..len] == mem[dst..dst + len]
    ensures Splice(mem, dst, y)[dst..dst + |p|] == y
    ensures var mem' := Splice(Splice(mem, dst, y), dst, p);
            mem'[dst..dst + len] == mem[dst..dst + len] && ChangedOnlyIn(mem, mem', dst, |p|, 0, 0)
  {
  }

  lemma RecordEmpty(cfg: Config, len: nat, tagLen: nat)
    requires cfg.Valid() && cfg.cipher.Some? && (cfg.hash.Some? ==> tagLen > 0)
    ensures RecordLen(cfg, len, tagLen) == 0 <==> len == 0 && cfg.hash.None? && cfg.cipher.value.BlockSize() == 1
  {
  }

  lemma AuthUntouched(mem: Bytes, enc: AuthOp, y: Bytes)
    requires enc.dst + |y| <= |mem|
    requires enc.authSrc != 0 ==> enc.authSrc + enc.authLen <= |mem| && Disjoint(enc.authSrc, enc.authLen, enc.dst, |y|)
    ensures TlsAuth(Splice(mem, enc.dst, y), enc) == TlsAuth(mem, enc)
  {
  }

  lemma PreparedIv(cfg: Config, st: State, iv: Bytes)
    requires cfg.Valid() && st.Valid() && cfg.cipher.Some? && |iv| == cfg.cipher.value.IvSize()
    ensures AuthPrepared(cfg, st, iv).iv[..|iv|] == iv
  {
  }

  // ---- SRTP ----

  /** The destination view starts at `src` exactly when the pointer difference is within the bound
      before it is cut to 32 bits, and not merely after. */
  lemma SrtpViewIsSrc(caop: AuthOp)
    requires 0 <= Diff(caop) <= MAX_SRTP_AUTH_DATA_DIFF
    ensures caop.authSrc + Diff(caop) == caop.src <==> 0 <= caop.src - caop.authSrc <= MAX_SRTP_AUTH_DATA_DIFF
  {
  }

  /** Such a wrapped difference exists: four gigabytes apart passes the check as zero apart. */
  lemma SrtpViewWraps(caop: AuthOp)
    requires caop.src == caop.authSrc + 0x1_0000_0000
    ensures Diff(caop) == 0 && caop.authSrc + Diff(caop) != caop.src
  {
  }

  /** An SRTP request the driver gets as far as processing. */
  ghost predicate SrtpReady(cfg: Config, st: State, mem: Bytes, caop: AuthOp, iv: Bytes, stale: Bytes) {
    && AuthCallable(cfg, st, caop, iv, stale) && cfg.cipher.Some? && |iv| == cfg.cipher.value.IvSize()
    && !caop.op.OtherOp? && caop.srtp && !caop.tls && caop.src == caop.dst && cfg.cipher.value.stream
    && SrtpArguments(caop, DstLen(cfg, caop)) && SrtpViews(mem, caop, Granted)
  }

  /** Encryption changes only the payload and the tag, and the tag is the MAC of the buffer as it is
      afterwards. */
  lemma SrtpEncryptFrame(cfg: Config, st: State, mem: Bytes, enc: AuthOp, iv: Bytes, stale: Bytes)
    requires SrtpReady(cfg, st, mem, enc, iv, stale) && enc.op.Encrypt?
    ensures var r := AuthRun(cfg, st, mem, enc, iv, Granted, stale);
            var tagLen := EffectiveTagLen(cfg, enc);
            && (r.ret.Ok? <==> cfg.hash.None? || UserRange(mem, enc.tag, tagLen))
            && (r.ret.Ok? ==> r.len == enc.len)
            && ChangedOnlyIn(mem, r.mem, enc.authSrc + Diff(enc), enc.len, enc.tag, if cfg.hash.Some? then tagLen else 0)
            && (r.ret.Ok? && cfg.hash.Some? && Disjoint(enc.tag, tagLen, enc.authSrc, enc.authLen) ==>
                  r.mem[enc.tag..enc.tag + tagLen]
                  == cfg.hash.value.Of(r.mem[enc.authSrc..enc.authSrc + enc.authLen])[..tagLen])
  {
    hide ToInt32, Multiple, AuthRun, SrtpSeal;
    SrtpSeals(cfg, st, mem, enc, iv, stale);
    SealFrame(cfg, AuthPrepared(cfg, st, iv), mem, enc, EffectiveTagLen(cfg, enc));
  }

  lemma SealFrame(cfg: Config, st: State, mem: Bytes, enc: AuthOp, tagLen: nat)
    requires cfg.Valid() && st.Valid() && cfg.cipher.Some? && cfg.Accepts(enc.len)
    requires cfg.hash.Some? ==> tagLen <= cfg.hash.value.digestSize
    requires enc.authSrc + enc.authLen <= |mem| && 0 <= Diff(enc) && Diff(enc) + enc.len <= enc.authLen
    ensures var r := SrtpSeal(cfg, st, mem, enc, tagLen);
            && (r.ret.Ok? <==> cfg.hash.None? || UserRange(mem, enc.tag, tagLen))
            && r.len == enc.len
            && ChangedOnlyIn(mem, r.mem, enc.authSrc + Diff(enc), enc.len, enc.tag, if cfg.hash.Some? then tagLen else 0)
            && (r.ret.Ok? && cfg.hash.Some? && Disjoint(enc.tag, tagLen, enc.authSrc, enc.authLen) ==>
                  r.mem[enc.tag..enc.tag + tagLen]
                  == cfg.hash.value.Of(r.mem[enc.authSrc..enc.authSrc + enc.authLen])[..tagLen])
  {
    hide ToInt32, Multiple, CipherPass, Cipher.Valid;
    var base := enc.authSrc + Diff(enc);
    var y := CipherOver(cfg, st, Encrypt, mem[base..base + enc.len]);
    var mem' := Splice(mem, base, y.data);
    if cfg.hash.Some? && UserRange(mem, enc.tag, tagLen) {
      var msg := mem'[enc.authSrc..enc.authSrc + enc.authLen];
      var tag := cfg.hash.value.Of(msg)[..tagLen];
      if Disjoint(enc.tag, tagLen, enc.authSrc, enc.authLen) {
        SpliceFrame(mem', enc.tag, tag, enc.authSrc, enc.authSrc + enc.authLen);
      }
    }
  }

  lemma SrtpSeals(cfg: Config, st: State, mem: Bytes, enc: AuthOp, iv: Bytes, stale: Bytes)
    requires SrtpReady(cfg, st, mem, enc, iv, stale) && enc.op.Encrypt?
    ensures cfg.Accepts(enc.len) && enc.authSrc + Diff(enc) + enc.len <= |mem|
    ensures var r := AuthRun(cfg, st, mem, enc, iv, Granted, stale);
            var s := SrtpSeal(cfg, AuthPrepared(cfg, st, iv), mem, enc, EffectiveTagLen(cfg, enc));
            && r.ret == s.ret && r.mem == s.mem && r.st == s.st
            && (r.ret.Ok? ==> r.len == s.len && r.tagLen == EffectiveTagLen(cfg, enc) && r.iv == IvBack(enc, iv, s.st.iv[..|iv|]))
  {
    hide ToInt32, Multiple, SrtpSeal, Hash.Valid;
    MultipleOfOne(enc.len);
  }

  lemma SrtpOpens(cfg: Config, st: State, mem: Bytes, dec: AuthOp, iv: Bytes, stale: Bytes)
    requires SrtpReady(cfg, st, mem, dec, iv, stale) && dec.op.Decrypt?
    ensures cfg.Accepts(dec.len) && dec.authSrc + Diff(dec) + dec.len <= |mem|
    ensures var r := AuthRun(cfg, st, mem, dec, iv, Granted, stale);
            var s := SrtpOpen(cfg, AuthPrepared(cfg, st, iv), mem, dec, EffectiveTagLen(cfg, dec), stale);
            && r.ret == s.ret && r.mem == s.mem
            && (r.ret.Ok? ==> r.len == s.len && r.iv == IvBack(dec, iv, s.st.iv[..|iv|]))
  {
    hide ToInt32, Multiple, SrtpOpen, Hash.Valid;
    MultipleOfOne(dec.len);
  }

  /** The tag is mapped, no longer than the payload, and the truncated MAC of the buffer. */
  predicate TagMatches(cfg: Config, mem: Bytes, dec: AuthOp, tagLen: nat)
    requires cfg.Valid() && cfg.hash.Some? && tagLen <= cfg.hash.value.digestSize
    requires dec.authSrc + dec.authLen <= |mem|
  {
    && tagLen <= dec.len && UserRange(mem, dec.tag, tagLen)
    && mem[dec.tag..dec.tag + tagLen] == cfg.hash.value.Of(mem[dec.authSrc..dec.authSrc + dec.authLen])[..tagLen]
  }

  /** A packet is accepted exactly when its tag, no longer than the payload, is the truncated MAC of
      the buffer; a refusal of any kind leaves all of user memory as it was. */
  lemma SrtpAcceptsOrLeavesMemory(cfg: Config, st: State, mem: Bytes, dec: AuthOp, iv: Bytes, stale: Bytes)
    requires SrtpReady(cfg, st, mem, dec, iv, stale) && dec.op.Decrypt?
    requires cfg.hash.Some? ==> EffectiveTagLen(cfg, dec) <= cfg.hash.value.digestSize
    ensures var r := AuthRun(cfg, st, mem, dec, iv, Granted, stale);
            var tagLen := EffectiveTagLen(cfg, dec);
            && (!r.ret.Ok? ==> r.mem == mem)
            && (r.ret.Ok? <==> cfg.hash.None? || TagMatches(cfg, mem, dec, tagLen))
  {
    hide ToInt32, Multiple, AuthRun, CipherOver, AuthPrepared, Cipher.Valid;
    SrtpOpens(cfg, st, mem, dec, iv, stale);
    if cfg.hash.Some? {
      var h := cfg.hash.value;
      var buf := DigestBuffer(h, HashState(Reset, mem[dec.authSrc..dec.authSrc + dec.authLen]), stale);
      assert buf[..EffectiveTagLen(cfg, dec)] == buf[..h.digestSize][..EffectiveTagLen(cfg, dec)];
    }
  }

  /** Decrypting an encrypted packet restores it, exactly when it has a payload and, with a hash, one
      no shorter than the tag. */
  lemma SrtpRoundTrip(cfg: Config, st: State, mem: Bytes, enc: AuthOp, iv: Bytes, stale: Bytes)
    requires SrtpReady(cfg, st, mem, enc, iv, stale) && enc.op.Encrypt?
    requires var tagLen := EffectiveTagLen(cfg, enc);
             cfg.hash.Some? ==> UserRange(mem, enc.tag, tagLen) && Disjoint(enc.tag, tagLen, enc.authSrc, enc.authLen)
    ensures var r := AuthRun(cfg, st, mem, enc, iv, Granted, stale);
            var dec := Undo(enc, r);
            && r.ret.Ok? && AuthCallable(cfg, r.st, dec, iv, stale)
            && var r' := AuthRun(cfg, r.st, r.mem, dec, iv, Granted, stale);
            && (r'.ret.Ok? <==> enc.len > 0 && (cfg.hash.Some? ==> EffectiveTagLen(cfg, enc) <= enc.len))
            && (r'.ret.Ok? ==>
                  && r'.len == enc.len && r'.iv == r.iv
                  && r'.mem[enc.authSrc..enc.authSrc + enc.authLen] == mem[enc.authSrc..enc.authSrc + enc.authLen])
  {
    hide ToInt32, Multiple, AuthRun, CipherOver, AuthPrepared, SrtpOpen, SrtpSeal, ChangedOnlyIn, Splice, Cipher.Valid, Hash.Valid;
    SrtpEncryptFrame(cfg, st, mem, enc, iv, stale);
    SrtpSeals(cfg, st, mem, enc, iv, stale);
    var r := AuthRun(cfg, st, mem, enc, iv, Granted, stale);
    var dec := Undo(enc, r);
    if enc.len == 0 {
      SrtpEmptyRefused(cfg, r.st, r.mem, dec, iv, stale);
    } else {
      SrtpAcceptsOrLeavesMemory(cfg, r.st, r.mem, dec, iv, stale);
      if AuthRun(cfg, r.st, r.mem, dec, iv, Granted, stale).ret.Ok? {
        SrtpRestores(cfg, st, mem, enc, iv, stale);
      }
    }
  }

  lemma SrtpEmptyRefused(cfg: Config, st: State, mem: Bytes, dec: AuthOp, iv: Bytes, stale: Bytes)
    requires AuthCallable(cfg, st, dec, iv, stale) && dec.op.Decrypt? && dec.srtp && !dec.tls && dec.len == 0
    ensures !AuthRun(cfg, st, mem, dec, iv, Granted, stale).ret.Ok?
  {
  }

  /** The payload comes back and the rest of the buffer never changed. */
  lemma SrtpRestores(cfg: Config, st: State, mem: Bytes, enc: AuthOp, iv: Bytes, stale: Bytes)
    requires SrtpReady(cfg, st, mem, enc, iv, stale) && enc.op.Encrypt? && enc.len > 0
    requires var tagLen := EffectiveTagLen(cfg, enc);
             cfg.hash.Some? ==> UserRange(mem, enc.tag, tagLen) && Disjoint(enc.tag, tagLen, enc.authSrc, enc.authLen)
    requires var r := AuthRun(cfg, st, mem, enc, iv, Granted, stale);
             && r.ret.Ok? && SrtpReady(cfg, r.st, r.mem, Undo(enc, r), iv, stale)
             && AuthRun(cfg, r.st, r.mem, Undo(enc, r), iv, Granted, stale).ret.Ok?
    ensures var r := AuthRun(cfg, st, mem, enc, iv, Granted, stale);
            var r' := AuthRun(cfg, r.st, r.mem, Undo(enc, r), iv, Granted, stale);
            && r'.len == enc.len && r'.iv == r.iv
            && r'.mem[enc.authSrc..enc.authSrc + enc.authLen] == mem[enc.authSrc..enc.authSrc + enc.authLen]
  {
    hide ToInt32, Multiple, AuthRun, AuthPrepared, SrtpSeal, SrtpOpen;
    SrtpSeals(cfg, st, mem, enc, iv, stale);
    var r := AuthRun(cfg, st, mem, enc, iv, Granted, stale);
    SealLength(cfg, AuthPrepared(cfg, st, iv), mem, enc, EffectiveTagLen(cfg, enc));
    var dec := Undo(enc, r);
    SrtpOpens(cfg, r.st, r.mem, dec, iv, stale);
    PreparedIv(cfg, st, iv);
    PreparedIv(cfg, r.st, iv);
    SealThenOpen(cfg, AuthPrepared(cfg, st, iv), AuthPrepared(cfg, r.st, iv), mem, enc, dec,
                 EffectiveTagLen(cfg, enc), iv, stale);
  }

  lemma SealLength(cfg: Config, st: State, mem: Bytes, enc: AuthOp, tagLen: nat)
    requires cfg.Valid() && st.Valid() && cfg.cipher.Some? && cfg.Accepts(enc.len)
    requires cfg.hash.Some? ==> tagLen <= cfg.hash.value.digestSize
    requires enc.authSrc + enc.authLen <= |mem| && 0 <= Diff(enc) && Diff(enc) + enc.len <= enc.authLen
    ensures SrtpSeal(cfg, st, mem, enc, tagLen).len == enc.len
  {
  }

  lemma SealThenOpen(cfg: Config, st: State, st': State, mem: Bytes, enc: AuthOp, dec: AuthOp, tagLen: nat,
                     iv: Bytes, stale: Bytes)
    requires cfg.Valid() && st.Valid() && st'.Valid() && cfg.cipher.Some? && cfg.Accepts(enc.len)
    requires |stale| == AALG_MAX_RESULT_LEN
    requires cfg.hash.Some? ==> tagLen <= cfg.hash.value.digestSize
    requires enc.authSrc + enc.authLen <= |mem| && 0 <= Diff(enc) && Diff(enc) + enc.len <= enc.authLen
    requires |iv| == cfg.cipher.value.IvSize() && st.iv[..|iv|] == iv == st'.iv[..|iv|]
    requires dec.len == enc.len && dec.authSrc == enc.authSrc && dec.authLen == enc.authLen && Diff(dec) == Diff(enc)
    requires cfg.hash.Some? ==> UserRange(mem, enc.tag, tagLen) && Disjoint(enc.tag, tagLen, enc.authSrc, enc.authLen)
    ensures var s := SrtpSeal(cfg, st, mem, enc, tagLen);
            var o := SrtpOpen(cfg, st', s.mem, dec, tagLen, stale);
            o.ret.Ok? ==>
              && o.len == enc.len && o.st.iv[..|iv|] == s.st.iv[..|iv|]
              && o.mem[enc.authSrc..enc.authSrc + enc.authLen] == mem[enc.authSrc..enc.authSrc + enc.authLen]
  {
    hide Diff, Multiple, CipherOver, Splice, SrtpSeal, SrtpOpen, Cipher.Valid, Hash.Valid, Cipher.Accepts, Hash.Of;
    var base, a, n := enc.authSrc + Diff(enc), enc.authSrc, enc.authLen;
    var data := mem[base..base + enc.len];
    CipherOverInverse(cfg, st, st', iv, data);
    var y := CipherOver(cfg, st, Encrypt, data);
    SealLeaves(cfg, st, mem, enc, tagLen, base, y);
    var mem2 := SrtpSeal(cfg, st, mem, enc, tagLen).mem;
    WindowRestored(mem, mem2, base, y.data, data, a, n);
    OpenLeaves(cfg, st', mem2, dec, tagLen, stale);
  }

  /** What sealing leaves in the buffer when the tag goes elsewhere. */
  lemma SealLeaves(cfg: Config, st: State, mem: Bytes, enc: AuthOp, tagLen: nat, base: nat, y: Output)
    requires cfg.Valid() && st.Valid() && cfg.cipher.Some? && cfg.Accepts(enc.len)
    requires cfg.hash.Some? ==> tagLen <= cfg.hash.value.digestSize
    requires base == enc.authSrc + Diff(enc) && enc.authSrc <= base && base + enc.len <= enc.authSrc + enc.authLen <= |mem|
    requires cfg.hash.Some? ==> UserRange(mem, enc.tag, tagLen) && Disjoint(enc.tag, tagLen, enc.authSrc, enc.authLen)
    requires y == CipherOver(cfg, st, Encrypt, mem[base..base + enc.len]) && |y.data| == enc.len
    ensures var s, a, n := SrtpSeal(cfg, st, mem, enc, tagLen), enc.authSrc, enc.authLen;
            s.mem[a..a + n] == Splice(mem, base, y.data)[a..a + n] && s.st.iv == y.iv
  {
    hide Diff, Multiple, CipherOver, Splice, Cipher.Valid;
    var a, n := enc.authSrc, enc.authLen;
    var mem1 := Splice(mem, base, y.data);
    if cfg.hash.Some? {
      SpliceFrame(mem1, enc.tag, cfg.hash.value.Of(mem1[a..a + n])[..tagLen], a, a + n);
    }
  }

  /** What opening leaves when it succeeds. */
  lemma OpenLeaves(cfg: Config, st: State, mem: Bytes, dec: AuthOp, tagLen: nat, stale: Bytes)
    requires cfg.Valid() && st.Valid() && cfg.cipher.Some? && cfg.Accepts(dec.len) && |stale| == AALG_MAX_RESULT_LEN
    requires dec.authSrc + dec.authLen <= |mem| && 0 <= Diff(dec) && Diff(dec) + dec.len <= dec.authLen
    ensures var o := SrtpOpen(cfg, st, mem, dec, tagLen, stale);
            var base := dec.authSrc + Diff(dec);
            var y := CipherOver(cfg, st, Decrypt, mem[base..base + dec.len]);
            o.ret.Ok? ==> o.mem == Splice(mem, base, y.data) && o.st.iv == y.iv && o.len == dec.len
  {
    hide ToInt32, Multiple, CipherPass, Splice;
  }

  /** Undoing a change inside a window that otherwise stayed as it was restores the window. */
  lemma WindowRestored(mem: Bytes, mem': Bytes, base: nat, y: Bytes, data: Bytes, a: nat, n: nat)
    requires |mem'| == |mem| && a <= base && base + |y| <= a + n <= |mem| && |data| == |y|
    requires data == mem[base..base + |y|]
    requires mem'[a..a + n] == Splice(mem, base, y)[a..a + n]
    ensures mem'[base..base + |y|] == y
    ensures Splice(mem', base, data)[a..a + n] == mem[a..a + n]
  {
    var spliced, back := Splice(mem, base, y), Splice(mem', base, data);
    forall i | a <= i < a + n ensures mem'[i] == spliced[i] {
      assert mem'[a..a + n][i - a] == spliced[a..a + n][i - a];
    }
    forall i | 0 <= i < |y| ensures mem'[base..base + |y|][i] == y[i] {
      assert spliced[base + i] == y[i];
    }
    forall i | a <= i < a + n ensures back[i] == mem[i] {
      if base <= i < base + |y| { assert back[i] == data[i - base]; } else { assert back[i] == mem'[i]; }
    }
  }
}
