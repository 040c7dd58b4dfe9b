/**
 Authenticated requests over real lists (authenc.c over zc.c): what a record or a packet becomes when it
 is read and written through the lists of get_userbuf_tls and get_userbuf_srtp is what `AuthRequest`
 says of the memory itself.
 */
module PinnedAuth {
  import opened Bytes
  import opened BlockModes
  import opened HashCore
  import opened RunEngine
  import opened Tls
  import opened AuthRequest
  import opened Scatterlist
  import opened PinnedRun

  // ---- TLS: one list over the record ----

  /** tls_auth_n_crypt, encrypting: payload, tag and pad lie at the first addresses of the list. */
  ghost function SealThroughList(cfg: Config, st: State, mem: Bytes, auth: Bytes, addrs: seq<nat>, len: nat, tagLen: nat): Sealed
    requires cfg.Valid() && st.Valid() && cfg.cipher.Some? && Addresses(mem, addrs)
    requires cfg.hash.Some? ==> tagLen <= cfg.hash.value.digestSize
    requires ReservedLen(Encrypt, len, tagLen, cfg.cipher.value.BlockSize()) <= |addrs|
  {
    RecordFitsReserved(cfg, len, tagLen);
    var data := Gather(mem, addrs[..len]);
    var p := PlainRecord(cfg, auth, data, tagLen);
    var y := CipherOver(cfg, st, Encrypt, p);
    Sealed(Ok, State(y.iv, if cfg.hash.Some? then Hashed(auth + data) else st.hash), Scatter(mem, addrs[..|p|], y.data), |p|)
  }

  /** tls_auth_n_crypt, decrypting the first `len` addresses. */
  ghost function OpenThroughList(cfg: Config, st: State, mem: Bytes, auth: Bytes, addrs: seq<nat>, len: nat, tagLen: nat, stale: Bytes): Sealed
    requires cfg.Valid() && st.Valid() && cfg.cipher.Some? && |stale| == AALG_MAX_RESULT_LEN
    requires Addresses(mem, addrs) && 0 < len <= |addrs|
  {
    if !cfg.cipher.value.Accepts(len) then Sealed(EINVAL, st, mem, 0)
    else
      var y := CipherOver(cfg, st, Decrypt, Gather(mem, addrs[..len]));
      var v := Verdict(cfg, auth, y.data, tagLen, stale);
      var n := Unpadded(cfg, y.data);
      var h := if cfg.hash.None? || v.ret.EINVAL? || tagLen > n then st.hash else Hashed(auth + y.data[..n - tagLen]);
      Sealed(v.ret, State(y.iv, h), Scatter(mem, addrs[..len], y.data), v.len)
  }

  /** The first addresses of a list that covers a range are the first of the range, and they are mapped. */
  lemma FirstOf(mem: Bytes, a: nat, n: nat, m: nat)
    requires a + n <= |mem| && m <= n
    ensures Addresses(mem, Range(a, n)) && Range(a, n)[..m] == Range(a, m)
    ensures Addresses(mem, Range(a, m)) && Gather(mem, Range(a, m)) == mem[a..a + m]
  {
    GatherRange(mem, a, n);
    GatherRange(mem, a, m);
    RangeDrop(a, n, m);
  }

  /** The list of get_userbuf_tls covers the reserved range, so sealing the record through it is sealing
      it in the range. */
  lemma TlsSealsOverList(cfg: Config, st: State, mem: Bytes, auth: Bytes, sg: seq<Entry>, dst: nat, reserved: nat, len: nat, tagLen: nat)
    requires cfg.Valid() && st.Valid() && cfg.cipher.Some? && dst + reserved <= |mem|
    requires Terminated(sg, 0) && Covers(sg, 0) == Range(dst, reserved)
    requires cfg.hash.Some? ==> tagLen <= cfg.hash.value.digestSize
    requires ReservedLen(Encrypt, len, tagLen, cfg.cipher.value.BlockSize()) <= reserved
    ensures Addresses(mem, Covers(sg, 0))
    ensures SealThroughList(cfg, st, mem, auth, Covers(sg, 0), len, tagLen) == TlsSeal(cfg, st, mem, auth, dst, len, tagLen)
  {
    hide Gather, Scatter, Splice, PlainRecord, CipherOver, ReservedLen, RecordLen, Multiple, Range, Covers, Cipher.Valid, Hash.Valid;
    RecordFitsReserved(cfg, len, tagLen);
    FirstOf(mem, dst, reserved, len);
    var p := PlainRecord(cfg, auth, mem[dst..dst + len], tagLen);
    FirstOf(mem, dst, reserved, |p|);
    ScatterRange(mem, dst, CipherOver(cfg, st, Encrypt, p).data);
  }

  /** And opening it through the list is opening it in the range. */
  lemma TlsOpensOverList(cfg: Config, st: State, mem: Bytes, auth: Bytes, sg: seq<Entry>, dst: nat, reserved: nat,
                         len: nat, tagLen: nat, stale: Bytes)
    requires cfg.Valid() && st.Valid() && cfg.cipher.Some? && |stale| == AALG_MAX_RESULT_LEN && dst + reserved <= |mem|
    requires Terminated(sg, 0) && Covers(sg, 0) == Range(dst, reserved) && 0 < len <= reserved
    ensures Addresses(mem, Covers(sg, 0))
    ensures OpenThroughList(cfg, st, mem, auth, Covers(sg, 0), len, tagLen, stale) == TlsOpen(cfg, st, mem, auth, dst, len, tagLen, stale)
  {
    hide Gather, Scatter, Splice, CipherOver, Verdict, Unpadded, Multiple, Range, Covers, Hash.Valid;
    assert cfg.cipher.value.unit > 0;
    hide Cipher.Valid;
    FirstOf(mem, dst, reserved, len);
    if cfg.cipher.value.Accepts(len) {
      ScatterRange(mem, dst, CipherOver(cfg, st, Decrypt, mem[dst..dst + len]).data);
    }
  }

  // ---- SRTP: one list over the buffer, another over its payload ----

  /** srtp_auth_n_crypt, encrypting: through the second list, and then hashing through the first. */
  ghost function SrtpSealThroughLists(cfg: Config, st: State, mem: Bytes, caop: AuthOp, tagLen: nat, auth: seq<nat>, view: seq<nat>): Sealed
    requires cfg.Valid() && st.Valid() && cfg.cipher.Some? && cfg.Accepts(caop.len)
    requires cfg.hash.Some? ==> tagLen <= cfg.hash.value.digestSize
    requires Addresses(mem, auth) && Addresses(mem, view) && caop.len <= |view|
  {
    var y := CipherOver(cfg, st, Encrypt, Gather(mem, view[..caop.len]));
    var mem' := Scatter(mem, view[..caop.len], y.data);
    if cfg.hash.None? then Sealed(Ok, State(y.iv, st.hash), mem', caop.len)
    else
      var msg := Gather(mem', auth);
      var st' := State(y.iv, Hashed(msg));
      if !UserRange(mem, caop.tag, tagLen) then Sealed(EFAULT, st', mem', caop.len)
      else Sealed(Ok, st', Splice(mem', caop.tag, cfg.hash.value.Of(msg)[..tagLen]), caop.len)
  }

  /** srtp_auth_n_crypt, decrypting: hashing through the first list, and then through the second. */
  ghost function SrtpOpenThroughLists(cfg: Config, st: State, mem: Bytes, caop: AuthOp, tagLen: nat, stale: Bytes,
                                      auth: seq<nat>, view: seq<nat>): Sealed
    requires cfg.Valid() && st.Valid() && cfg.cipher.Some? && cfg.Accepts(caop.len) && |stale| == AALG_MAX_RESULT_LEN
    requires Addresses(mem, auth) && Addresses(mem, view) && caop.len <= |view|
  {
    var msg := Gather(mem, auth);
    if cfg.hash.Some? && (tagLen > AALG_MAX_RESULT_LEN || tagLen > caop.len) then Sealed(EINVAL, st, mem, 0)
    else if cfg.hash.Some? && !UserRange(mem, caop.tag, tagLen) then Sealed(EFAULT, st, mem, 0)
    else
      var st' := if cfg.hash.Some? then st.(hash := Hashed(msg)) else st;
      if cfg.hash.Some?
         && mem[caop.tag..caop.tag + tagLen] != DigestBuffer(cfg.hash.value, HashState(Reset, msg), stale)[..tagLen]
      then Sealed(EBADMSG, st', mem, 0)
      else
        var y := CipherOver(cfg, st', Decrypt, Gather(mem, view[..caop.len]));
        Sealed(Ok, st'.(iv := y.iv), Scatter(mem, view[..caop.len], y.data), caop.len)
  }

  /** The lists of get_userbuf_srtp cover the buffer and its part from the payload on, so processing the
      packet through them is processing the memory. */
  lemma SrtpOverLists(cfg: Config, st: State, mem: Bytes, caop: AuthOp, tagLen: nat, stale: Bytes, sg: seq<Entry>, j: nat)
    requires cfg.Valid() && st.Valid() && cfg.cipher.Some? && cfg.Accepts(caop.len) && |stale| == AALG_MAX_RESULT_LEN
    requires caop.authSrc + caop.authLen <= |mem| && 0 <= Diff(caop) && Diff(caop) + caop.len <= caop.authLen
    requires Terminated(sg, 0) && Covers(sg, 0) == Range(caop.authSrc, caop.authLen)
    requires Terminated(sg, j) && Covers(sg, j) == Range(caop.authSrc + Diff(caop), caop.authLen - Diff(caop))
    ensures Addresses(mem, Covers(sg, 0)) && Addresses(mem, Covers(sg, j)) && caop.len <= |Covers(sg, j)|
    ensures (cfg.hash.Some? ==> tagLen <= cfg.hash.value.digestSize) ==>
              SrtpSealThroughLists(cfg, st, mem, caop, tagLen, Covers(sg, 0), Covers(sg, j)) == SrtpSeal(cfg, st, mem, caop, tagLen)
    ensures SrtpOpenThroughLists(cfg, st, mem, caop, tagLen, stale, Covers(sg, 0), Covers(sg, j)) == SrtpOpen(cfg, st, mem, caop, tagLen, stale)
  {
    hide Gather, Scatter, Splice, CipherOver, Diff, Multiple, Range, Covers, DigestBuffer, Cipher.Valid, Hash.Valid;
    var base := caop.authSrc + Diff(caop);
    FirstOf(mem, caop.authSrc, caop.authLen, 0);
    GatherRange(mem, caop.authSrc, caop.authLen);
    FirstOf(mem, base, caop.authLen - Diff(caop), caop.len);
    var y := CipherOver(cfg, st, Encrypt, mem[base..base + caop.len]);
    ScatterRange(mem, base, y.data);
    GatherRange(Splice(mem, base, y.data), caop.authSrc, caop.authLen);
    var st' := if cfg.hash.Some? then st.(hash := Hashed(mem[caop.authSrc..caop.authSrc + caop.authLen])) else st;
    ScatterRange(mem, base, CipherOver(cfg, st', Decrypt, mem[base..base + caop.len]).data);
  }
}
