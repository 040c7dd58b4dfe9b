/** The imperative code of authenc.c, working in place on user memory. */
module AuthSession {
  import opened Bytes
  import opened BlockModes
  import opened HashCore
  import opened RunEngine
  import opened RunSession
  import opened Tls
  import opened AuthRequest
  import opened Scatterlist
  import opened ZeroCopy

  /** pad_record: the padding is written after the first `len` bytes of the record. */
  method PadRecord(buf: array<Byte>, dst: nat, len: nat, blockSize: nat) returns (padSize: nat)
    requires 0 < blockSize <= 256 && dst + len + PadSize(len, blockSize) <= buf.Length
    modifies buf
    ensures padSize == PadSize(len, blockSize)
    ensures buf[..] == Splice(old(buf[..]), dst + len, PadBytes(len, blockSize))
  {
    padSize := blockSize - len % blockSize;
    PadSizeIsMod(len, blockSize);
    WriteBytes(buf, dst + len, Repeat(padSize - 1, padSize));
  }

  /** verify_tls_record_pad on the `len` bytes at `dst`. */
  method VerifyTlsRecordPad(buf: array<Byte>, dst: nat, len: nat) returns (r: Option<nat>)
    requires len > 0 && dst + len <= buf.Length
    ensures r == CheckedPad(buf[dst..dst + len])
  {
    ghost var p := buf[dst..dst + len];
    var padSize: nat := buf[dst + len - 1];
    assert p[|p| - 1] == padSize;
    if padSize + 1 > len {
      return None;
    }
    var pad := buf[dst + len - padSize - 1..dst + len];
    assert pad == p[|p| - padSize - 1..];
    for i := 0 to padSize
      invariant forall j :: 0 <= j < i ==> pad[j] == padSize
    {
      if pad[i] != padSize {
        assert Repeat(padSize, padSize + 1)[i] == padSize;
        return None;
      }
    }
    assert pad[padSize] == p[|p| - 1];
    assert pad == Repeat(padSize, padSize + 1);
    return Some(padSize + 1);
  }

  /** cryptodev_hash_update for each non-empty part, then cryptodev_hash_final. */
  method HashParts(ses: Session, a: Bytes, b: Bytes) returns (digest: Bytes)
    requires ses.Valid() && ses.cfg.hash.Some? && ses.hash == Fresh
    modifies ses`hash
    ensures ses.Valid() && ses.hash == Hashed(a + b)
    ensures digest == ses.cfg.hash.value.Of(a + b)
  {
    if |a| > 0 {
      ses.hash := Absorb(ses.hash, a);
    }
    if |b| > 0 {
      ses.hash := Absorb(ses.hash, b);
    }
    assert ses.hash == HashState(Reset, a + b);
    digest := ses.cfg.hash.value.digest(ses.hash);
    ses.hash := AfterFinal(ses.hash);
  }

  /** A tail written behind the first `len` bytes, and then the whole overwritten. */
  lemma TailThenWhole(mem: Bytes, dst: nat, len: nat, t: Bytes, y: Bytes)
    requires |y| == len + |t| && dst + |y| <= |mem|
    ensures Splice(mem, dst + len, t)[dst..dst + |y|] == mem[dst..dst + len] + t
    ensures Splice(Splice(mem, dst + len, t), dst, y) == Splice(mem, dst, y)
  {
    var s := Splice(mem, dst + len, t)[dst..dst + |y|];
    forall i | 0 <= i < |y| ensures s[i] == (mem[dst..dst + len] + t)[i] {
    }
  }

  /** The MAC of the authenticated data and the payload, copied behind the payload. */
  method AppendTag(ses: Session, mem: array<Byte>, auth: Bytes, dst: nat, len: nat, tagLen: nat) returns (n: nat)
    requires ses.Valid() && (ses.cfg.hash.Some? ==> ses.hash == Fresh && tagLen <= ses.cfg.hash.value.digestSize)
    requires dst + len <= mem.Length && (ses.cfg.hash.Some? ==> dst + len + tagLen <= mem.Length)
    modifies ses`hash, mem
    ensures ses.Valid()
    ensures var data := old(mem[..])[dst..dst + len];
            var tag := TlsTag(ses.cfg, auth, data, tagLen);
            && n == len + |tag| && mem[..] == Splice(old(mem[..]), dst + len, tag)
            && ses.hash == if ses.cfg.hash.Some? then Hashed(auth + data) else old(ses.hash)
  {
    hide Cipher.Valid, Splice;
    n := len;
    if ses.cfg.hash.Some? {
      assert mem[dst..dst + len] == mem[..][dst..dst + len];
      var digest := HashParts(ses, auth, mem[dst..dst + len]);
      WriteBytes(mem, dst + len, digest[..tagLen]);
      n := n + tagLen;
    } else {
      SpliceSame(mem[..], dst + len, 0);
    }
  }

  /** The plaintext record is assembled behind the payload: first the tag, then the padding. */
  method AssembleRecord(ses: Session, mem: array<Byte>, auth: Bytes, dst: nat, len: nat, tagLen: nat) returns (n: nat)
    requires ses.Valid() && ses.cfg.cipher.Some?
    requires ses.cfg.hash.Some? ==> ses.hash == Fresh && tagLen <= ses.cfg.hash.value.digestSize
    requires dst + ReservedLen(Encrypt, len, tagLen, ses.cfg.cipher.value.BlockSize()) <= mem.Length
    modifies ses`hash, mem
    ensures ses.Valid() && dst + len <= mem.Length
    ensures var data := old(mem[..])[dst..dst + len];
            var p := PlainRecord(ses.cfg, auth, data, tagLen);
            && n == |p| && dst + n <= mem.Length && len <= n
            && mem[..] == Splice(old(mem[..]), dst + len, p[len..])
            && ses.hash == if ses.cfg.hash.Some? then Hashed(auth + data) else old(ses.hash)
  {
    hide Cipher.Valid, Hash.Valid, Config.Valid, Multiple, PadSize, Splice, PlainRecord, PadBytes, TlsTag, ReservedLen, RecordLen;
    RecordWritten(ses.cfg, auth, mem[..], dst, len, tagLen);
    n := AppendTag(ses, mem, auth, dst, len, tagLen);
    var bs := ses.cfg.cipher.value.BlockSize();
    if bs > 1 {
      var padSize := PadRecord(mem, dst, n, bs);
      n := n + padSize;
    }
  }

  /** The tag and the padding, written one behind the other, are the tail of the record, and fit. */
  lemma RecordWritten(cfg: Config, auth: Bytes, mem: Bytes, dst: nat, len: nat, tagLen: nat)
    requires cfg.Valid() && cfg.cipher.Some? && (cfg.hash.Some? ==> tagLen <= cfg.hash.value.digestSize)
    requires dst + ReservedLen(Encrypt, len, tagLen, cfg.cipher.value.BlockSize()) <= |mem|
    ensures 0 < cfg.cipher.value.BlockSize() <= 256 && dst + len <= |mem|
    ensures var data, bs := mem[dst..dst + len], cfg.cipher.value.BlockSize();
            var tag, p := TlsTag(cfg, auth, data, tagLen), PlainRecord(cfg, auth, data, tagLen);
            && len + |tag| <= |p| && dst + |p| <= |mem|
            && |p| == len + |tag| + (if bs > 1 then PadSize(len + |tag|, bs) else 0)
            && Splice(mem, dst + len, p[len..])
               == if bs > 1 then Splice(Splice(mem, dst + len, tag), dst + (len + |tag|), PadBytes(len + |tag|, bs))
                  else Splice(mem, dst + len, tag)
  {
    hide Cipher.Valid, Hash.Valid, Multiple, PadSize, Splice, PlainRecord, PadBytes, TlsTag, ReservedLen, RecordLen;
    CipherBounds(cfg.cipher.value);
    RecordFitsReserved(cfg, len, tagLen);
    var data, bs := mem[dst..dst + len], cfg.cipher.value.BlockSize();
    var tag := TlsTag(cfg, auth, data, tagLen);
    RecordTail(cfg, auth, data, tagLen);
    if bs > 1 { SpliceJoin(mem, dst + len, tag, PadBytes(len + |tag|, bs)); }
  }

  lemma CipherBounds(c: Cipher)
    requires c.Valid()
    ensures 0 < c.BlockSize() <= 256 && c.unit > 0
  {
  }

  /** What follows the payload in a plaintext record. */
  lemma RecordTail(cfg: Config, auth: Bytes, data: Bytes, tagLen: nat)
    requires cfg.Valid() && cfg.cipher.Some? && (cfg.hash.Some? ==> tagLen <= cfg.hash.value.digestSize)
    ensures var tag := TlsTag(cfg, auth, data, tagLen);
            var bs := cfg.cipher.value.BlockSize();
            PlainRecord(cfg, auth, data, tagLen)[|data|..]
            == if bs > 1 then CipherBounds(cfg.cipher.value); tag + PadBytes(|data| + |tag|, bs) else tag
  {
  }

  /** tls_auth_n_crypt, encrypting. */
  method TlsEncrypt(ses: Session, mem: array<Byte>, auth: Bytes, dst: nat, len: nat, tagLen: nat) returns (dstLen: nat)
    requires ses.Valid() && ses.cfg.cipher.Some?
    requires ses.cfg.hash.Some? ==> ses.hash == Fresh && tagLen <= ses.cfg.hash.value.digestSize
    requires dst + ReservedLen(Encrypt, len, tagLen, ses.cfg.cipher.value.BlockSize()) <= mem.Length
    modifies ses, mem
    ensures ses.Valid()
    ensures Sealed(Ok, ses.St(), mem[..], dstLen) == TlsSeal(ses.cfg, old(ses.St()), old(mem[..]), auth, dst, len, tagLen)
  {
    hide Cipher.Valid, Multiple, PadSize, PlainRecord, CipherPass, Splice;
    RecordFitsReserved(ses.cfg, len, tagLen);
    ghost var was := mem[..];
    dstLen := AssembleRecord(ses, mem, auth, dst, len, tagLen);
    ghost var p := PlainRecord(ses.cfg, auth, was[dst..dst + len], tagLen);
    TailThenWhole(was, dst, len, p[len..], p);
    assert p == p[..len] + p[len..];
    assert mem[..][dst..dst + dstLen] == p;
    ses.CipherRun(Encrypt, mem, dst, dst, dstLen);
    TailThenWhole(was, dst, len, p[len..], CipherOver(ses.cfg, old(ses.St()), Encrypt, p).data);
  }

  lemma SubSlice(s: Bytes, d: nat, n: nat, a: nat, b: nat)
    requires d + n <= |s| && a <= b <= n
    ensures s[d..d + n][a..b] == s[d + a..d + b]
  {
    var t := s[d..d + n];
    assert |t[a..b]| == |s[d + a..d + b]|;
    forall i | 0 <= i < b - a ensures t[a..b][i] == s[d + a..d + b][i] {
      assert t[a + i] == s[d + (a + i)];
    }
  }

  /** The pad comes off the decrypted text; a failure is only noted. */
  method StripPad(ses: Session, mem: array<Byte>, dst: nat, length: nat) returns (len: nat, fail: bool)
    requires ses.Valid() && ses.cfg.cipher.Some? && dst + length <= mem.Length && length > 0
    ensures var p := mem[dst..dst + length]; len == Unpadded(ses.cfg, p) && fail == PadBroken(ses.cfg, p)
  {
    hide Cipher.Valid, Multiple, CheckedPad;
    len, fail := length, false;
    if ses.cfg.cipher.value.BlockSize() > 1 {
      var pad := VerifyTlsRecordPad(mem, dst, length);
      if pad.None? {
        fail := true;
      } else {
        len := len - pad.value;
      }
    }
  }

  /** The checks of tls_auth_n_crypt on decrypted text: a pad failure is only remembered until the
      tag has been compared. */
  method TlsVerify(ses: Session, mem: array<Byte>, auth: Bytes, dst: nat, length: nat, tagLen: nat, stale: Bytes)
    returns (ret: Status, dstLen: nat)
    requires ses.Valid() && ses.cfg.cipher.Some? && |stale| == AALG_MAX_RESULT_LEN
    requires ses.cfg.hash.Some? ==> ses.hash == Fresh
    requires dst + length <= mem.Length && length > 0
    modifies ses`hash
    ensures ses.Valid()
    ensures var p := mem[dst..dst + length];
            var n := Unpadded(ses.cfg, p);
            && Opened(ret, dstLen) == Verdict(ses.cfg, auth, p, tagLen, stale)
            && ses.hash == if ses.cfg.hash.None? || ret.EINVAL? || tagLen > n then old(ses.hash)
                           else Hashed(auth + p[..n - tagLen])
  {
    hide Cipher.Valid, Multiple, Unpadded, PadBroken;
    ghost var p := mem[dst..dst + length];
    var len, fail := StripPad(ses, mem, dst, length);
    if ses.cfg.hash.Some? {
      if tagLen > AALG_MAX_RESULT_LEN || tagLen > len {
        return EINVAL, 0;
      }
      var vhash := mem[dst + len - tagLen..dst + len];
      SubSlice(mem[..], dst, length, len - tagLen, len);
      assert vhash == p[len - tagLen..len];
      len := len - tagLen;
      assert mem[dst..dst + len] == p[..len];
      var digest := HashParts(ses, auth, mem[dst..dst + len]);
      var output := digest + stale[ses.cfg.hash.value.digestSize..];
      if vhash != output[..tagLen] || fail {
        return EBADMSG, 0;
      }
    }
    return Ok, len;
  }

  /** tls_auth_n_crypt, decrypting: the cipher refuses a ragged length. */
  method TlsDecrypt(ses: Session, mem: array<Byte>, auth: Bytes, dst: nat, length: nat, tagLen: nat, stale: Bytes)
    returns (ret: Status, dstLen: nat)
    requires ses.Valid() && ses.cfg.cipher.Some? && |stale| == AALG_MAX_RESULT_LEN
    requires ses.cfg.hash.Some? ==> ses.hash == Fresh
    requires dst + length <= mem.Length && length > 0
    modifies ses, mem
    ensures ses.Valid()
    ensures Sealed(ret, ses.St(), mem[..], dstLen)
         == TlsOpen(ses.cfg, old(ses.St()), old(mem[..]), auth, dst, length, tagLen, stale)
  {
    hide Cipher.Valid, CipherPass, Unpadded, Verdict, Splice;
    CipherBounds(ses.cfg.cipher.value);
    MultipleIsMod(length, ses.cfg.cipher.value.BlockSize());
    if length % ses.cfg.cipher.value.BlockSize() != 0 {
      return EINVAL, 0;
    }
    ses.CipherRun(Decrypt, mem, dst, dst, length);
    assert mem[..][dst..dst + length] == mem[dst..dst + length];
    ret, dstLen := TlsVerify(ses, mem, auth, dst, length, tagLen, stale);
  }

  /** srtp_auth_n_crypt, encrypting the view at `base` of the authenticated buffer. */
  method SrtpEncrypt(ses: Session, mem: array<Byte>, caop: AuthOp, tagLen: nat) returns (ret: Status, dstLen: nat)
    requires ses.Valid() && ses.cfg.cipher.Some? && ses.cfg.Accepts(caop.len)
    requires ses.cfg.hash.Some? ==> ses.hash == Fresh && tagLen <= ses.cfg.hash.value.digestSize
    requires caop.authSrc + caop.authLen <= mem.Length && 0 <= Diff(caop) && Diff(caop) + caop.len <= caop.authLen
    modifies ses, mem
    ensures ses.Valid()
    ensures Sealed(ret, ses.St(), mem[..], dstLen) == SrtpSeal(ses.cfg, old(ses.St()), old(mem[..]), caop, tagLen)
  {
    hide Cipher.Valid, Multiple, CipherPass, Splice, ToInt32;
    var base := caop.authSrc + Diff(caop);
    ses.CipherRun(Encrypt, mem, base, base, caop.len);
    if ses.cfg.hash.Some? {
      assert mem[..][caop.authSrc..caop.authSrc + caop.authLen] == mem[caop.authSrc..caop.authSrc + caop.authLen];
      var digest := HashParts(ses, mem[caop.authSrc..caop.authSrc + caop.authLen], []);
      assert mem[caop.authSrc..caop.authSrc + caop.authLen] + [] == mem[caop.authSrc..caop.authSrc + caop.authLen];
      if caop.tag == 0 || caop.tag + tagLen > mem.Length {
        return EFAULT, caop.len;
      }
      WriteBytes(mem, caop.tag, digest[..tagLen]);
    }
    return Ok, caop.len;
  }

  /** srtp_auth_n_crypt, decrypting: the tag is verified before anything is written. */
  method SrtpDecrypt(ses: Session, mem: array<Byte>, caop: AuthOp, tagLen: nat, stale: Bytes)
    returns (ret: Status, dstLen: nat)
    requires ses.Valid() && ses.cfg.cipher.Some? && ses.cfg.Accepts(caop.len) && |stale| == AALG_MAX_RESULT_LEN
    requires ses.cfg.hash.Some? ==> ses.hash == Fresh
    requires caop.authSrc + caop.authLen <= mem.Length && 0 <= Diff(caop) && Diff(caop) + caop.len <= caop.authLen
    modifies ses, mem
    ensures ses.Valid()
    ensures Sealed(ret, ses.St(), mem[..], dstLen) == SrtpOpen(ses.cfg, old(ses.St()), old(mem[..]), caop, tagLen, stale)
  {
    hide Cipher.Valid, Multiple, CipherPass, Splice, ToInt32;
    if ses.cfg.hash.Some? {
      if tagLen > AALG_MAX_RESULT_LEN || tagLen > caop.len {
        return EINVAL, 0;
      }
      if caop.tag == 0 || caop.tag + tagLen > mem.Length {
        return EFAULT, 0;
      }
      var vhash := mem[caop.tag..caop.tag + tagLen];
      assert mem[..][caop.tag..caop.tag + tagLen] == vhash;
      var msg := mem[caop.authSrc..caop.authSrc + caop.authLen];
      assert mem[..][caop.authSrc..caop.authSrc + caop.authLen] == msg;
      var digest := HashParts(ses, msg, []);
      assert msg + [] == msg;
      var output := digest + stale[ses.cfg.hash.value.digestSize..];
      if vhash != output[..tagLen] {
        return EBADMSG, 0;
      }
    }
    var base := caop.authSrc + Diff(caop);
    ses.CipherRun(Decrypt, mem, base, base, caop.len);
    return Ok, caop.len;
  }

  /** What the kernel manages for an authenticated request: a page for the authenticated data, larger
      arrays, and pinning `got` pages. */
  datatype Supply = Supply(page: bool, grow: (bool, bool), got: nat)

  /** The same as far as the outcome depends on it, for a range of `n` bytes at `addr`. */
  function EnvOf(supply: Supply, addr: nat, n: nat): Env {
    Env(supply.page, supply.grow.0 && supply.grow.1, supply.got >= PageCount(addr, n))
  }

  /** Only mapped pages can be pinned. */
  ghost predicate PinsMapped(size: nat, supply: Supply, addr: nat, n: nat) {
    supply.got >= PageCount(addr, n) ==> addr + n <= size
  }

  /** crypto_auth_zc_tls: the authenticated data is copied aside before anything is overwritten. The
      record is pinned, processed and given back; `back` are the pages given back, `left` those that a
      partial pin leaves pinned. */
  method CryptoAuthZcTls(ses: Session, table: PageTable, mem: array<Byte>, caop: AuthOp, tagLen: nat, reserved: nat,
                         supply: Supply, stale: Bytes)
    returns (ret: Status, dstLen: nat, ghost back: multiset<nat>, ghost left: multiset<nat>)
    requires ses.Valid() && table.Valid() && ses.cfg.cipher.Some? && |stale| == AALG_MAX_RESULT_LEN
    requires ses as object != table && mem as object != table.pages && mem as object != table.sg
    requires ses.cfg.hash.Some? ==> ses.hash == Fresh
    requires caop.op.Encrypt? && ses.cfg.hash.Some? ==> tagLen <= ses.cfg.hash.value.digestSize
    requires reserved == if caop.op.Encrypt? then ReservedLen(Encrypt, caop.len, tagLen, ses.cfg.cipher.value.BlockSize()) else caop.len
    requires PinsMapped(mem.Length, supply, caop.dst, reserved)
    modifies ses, mem, table, table.pages, table.sg
    ensures ses.Valid() && table.Valid()
    ensures Sealed(ret, ses.St(), mem[..], dstLen)
         == TlsRequest(ses.cfg, old(ses.St()), old(mem[..]), caop, tagLen, reserved, EnvOf(supply, caop.dst, reserved), stale)
    ensures table.pins == old(table.pins) + back + left && table.released == old(table.released) + back
    ensures supply.got >= PageCount(caop.dst, reserved) ==> left == multiset{}
  {
    hide Cipher.Valid, Multiple, PadSize, TlsSeal, TlsOpen, ReservedLen, PageCount, Terminated, Covers, End, Range, PageTable.Slots, PageTable.PagesOf;
    ret, dstLen, back, left := EINVAL, 0, multiset{}, multiset{};
    if caop.authLen > PAGE_SIZE {
      return;
    }
    if !supply.page {
      ret := ENOMEM;
      return;
    }
    var auth := [];
    if caop.authSrc != 0 && caop.authLen > 0 {
      if caop.authSrc + caop.authLen > mem.Length {
        ret := EFAULT;
        return;
      }
      auth := mem[caop.authSrc..caop.authSrc + caop.authLen];
      assert auth == mem[..][caop.authSrc..caop.authSrc + caop.authLen];
    }
    ghost var held := table.pins;
    ret := table.GetUserbufTls(caop.dst, reserved, supply.grow, supply.got);
    if !ret.Ok? {
      left := table.pins - held;
      return;
    }
    back := PageTable.Slots(table.pages[..], 0, table.usedPages);
    if caop.op.Encrypt? {
      dstLen := TlsEncrypt(ses, mem, auth, caop.dst, caop.len, tagLen);
    } else {
      ret, dstLen := TlsDecrypt(ses, mem, auth, caop.dst, caop.len, tagLen, stale);
    }
    table.ReleaseUserPages();
  }

  /** crypto_auth_zc_srtp, with the checks of get_userbuf_srtp. */
  method CryptoAuthZcSrtp(ses: Session, table: PageTable, mem: array<Byte>, caop: AuthOp, tagLen: nat, dstLen0: nat,
                          supply: Supply, stale: Bytes)
    returns (ret: Status, dstLen: nat, ghost back: multiset<nat>, ghost left: multiset<nat>)
    requires ses.Valid() && table.Valid() && ses.cfg.cipher.Some? && |stale| == AALG_MAX_RESULT_LEN
    requires ses as object != table && mem as object != table.pages && mem as object != table.sg
    requires ses.cfg.hash.Some? ==> ses.hash == Fresh
    requires caop.op.Encrypt? && ses.cfg.hash.Some? ==> tagLen <= ses.cfg.hash.value.digestSize
    requires caop.authSrc != 0 && Diff(caop) + caop.len <= caop.authLen
    requires PinsMapped(mem.Length, supply, caop.authSrc, caop.authLen)
    modifies ses, mem, table, table.pages, table.sg
    ensures ses.Valid() && table.Valid()
    ensures Sealed(ret, ses.St(), mem[..], dstLen)
         == SrtpRequest(ses.cfg, old(ses.St()), old(mem[..]), caop, tagLen, dstLen0, EnvOf(supply, caop.authSrc, caop.authLen), stale)
    ensures table.pins == old(table.pins) + back + left && table.released == old(table.released) + back
    ensures supply.got >= PageCount(caop.authSrc, caop.authLen) ==> left == multiset{}
  {
    hide Multiple, SrtpSeal, SrtpOpen, ToInt32, PageCount, Terminated, Covers, End, Range, PageTable.Slots, PageTable.PagesOf;
    ret, dstLen, back, left := EINVAL, 0, multiset{}, multiset{};
    if !ses.cfg.cipher.value.stream {
      return;
    }
    if dstLen0 == 0 || caop.authLen == 0 {
      return;
    }
    var diff := Diff(caop);
    if diff > MAX_SRTP_AUTH_DATA_DIFF || diff < 0 {
      return;
    }
    ret, back, left := PinViews(table, caop.authSrc, caop.authLen, diff, supply);
    if !ret.Ok? {
      return;
    }
    MultipleOfOne(caop.len);
    if caop.op.Encrypt? {
      ret, dstLen := SrtpEncrypt(ses, mem, caop, tagLen);
    } else {
      ret, dstLen := SrtpDecrypt(ses, mem, caop, tagLen, stale);
    }
    table.ReleaseUserPages();
  }

  /** Both views of an SRTP buffer. After a success `back` are the pages that are still to be given
      back; after a failure they have been, and `left` are those of a partial pin. */
  method PinViews(table: PageTable, authSrc: nat, authLen: nat, diff: nat, supply: Supply)
    returns (ret: Status, ghost back: multiset<nat>, ghost left: multiset<nat>)
    requires table.Valid() && authSrc != 0 && authLen > 0
    modifies table, table.pages, table.sg
    ensures table.Valid() && (table.pages == old(table.pages) || fresh(table.pages)) && (table.sg == old(table.sg) || fresh(table.sg))
    ensures ret == if !(supply.grow.0 && supply.grow.1) then ENOMEM
                   else if supply.got >= PageCount(authSrc, authLen) && diff < authLen then Ok else EINVAL
    ensures table.pins == old(table.pins) + back + left
    ensures table.released == if ret.Ok? then old(table.released) else old(table.released) + back
    ensures ret.Ok? ==> table.usedPages <= table.arraySize && back == PageTable.Slots(table.pages[..], 0, table.usedPages)
    ensures supply.got >= PageCount(authSrc, authLen) ==> left == multiset{}
  {
    hide PageCount, Terminated, Covers, End, Range, PageTable.Slots, PageTable.PagesOf;
    back, left := multiset{}, multiset{};
    var dstSg;
    ret, dstSg := table.GetUserbufSrtp(authSrc, authLen, diff, supply.grow, supply.got);
    if !ret.ENOMEM? {
      if supply.got >= PageCount(authSrc, authLen) {
        back := PageTable.Slots(table.pages[..], 0, PageCount(authSrc, authLen));
      } else {
        left := PageTable.Slots(table.pages[..], 0, supply.got);
      }
    }
  }

  /** The range that a request has pinned: the authenticated buffer for SRTP, the record for TLS. */
  function PinnedRange(cfg: Config, caop: AuthOp): (nat, nat)
    requires caop.tls && !caop.op.Decrypt? ==> cfg.cipher.Some? && cfg.cipher.value.BlockSize() > 0
  {
    if caop.srtp then (caop.authSrc, caop.authLen) else (caop.dst, DstLen(cfg, caop))
  }

  /** fill_kcaop_from_caop, crypto_auth_run and fill_caop_from_kcaop on the locked session. */
  method CryptoAuthRun(ses: Session, table: PageTable, mem: array<Byte>, caop: AuthOp, kiv: Bytes, supply: Supply, stale: Bytes)
    returns (ret: Status, kiv': Bytes, len: nat, tagLen: nat, ghost back: multiset<nat>, ghost left: multiset<nat>)
    requires AuthCallable(ses.cfg, ses.St(), caop, kiv, stale) && table.Valid()
    requires ses as object != table && mem as object != table.pages && mem as object != table.sg
    requires var range := PinnedRange(ses.cfg, caop); PinsMapped(mem.Length, supply, range.0, range.1)
    modifies ses, mem, table, table.pages, table.sg
    ensures ses.Valid() && table.Valid()
    ensures var range := PinnedRange(ses.cfg, caop);
            AuthReply(ret, ses.St(), mem[..], kiv', len, tagLen)
            == AuthRun(ses.cfg, old(ses.St()), old(mem[..]), caop, kiv, EnvOf(supply, range.0, range.1), stale)
    ensures table.pins == old(table.pins) + back + left && table.released == old(table.released) + back
    ensures var range := PinnedRange(ses.cfg, caop); supply.got >= PageCount(range.0, range.1) ==> left == multiset{}
  {
    hide Multiple, SrtpRequest, TlsRequest, ToInt32, PadSize, Cipher.Valid, PageCount;
    ret, kiv', len, tagLen, back, left := EINVAL, kiv, caop.len, caop.tagLen, multiset{}, multiset{};
    if (caop.tls || caop.srtp) && caop.src != caop.dst {
      return;
    }
    var effective := EffectiveTagLen(ses.cfg, caop);
    if caop.op.OtherOp? || ses.cfg.cipher.None? {
      return;
    }
    CipherBounds(ses.cfg.cipher.value);
    var reserved := DstLen(ses.cfg, caop);
    if ses.cfg.hash.Some? {
      ses.hash := Fresh;
    }
    var n := Min(ses.cfg.cipher.value.IvSize(), |kiv|);
    IvFits(ses.cfg.cipher.value);
    ses.iv := Overlay(ses.iv, kiv, n);
    assert ses.St() == AuthPrepared(ses.cfg, old(ses.St()), kiv);
    var dstLen := 0;
    if caop.srtp {
      ret, dstLen, back, left := CryptoAuthZcSrtp(ses, table, mem, caop, effective, reserved, supply, stale);
    } else if caop.tls {
      ret, dstLen, back, left := CryptoAuthZcTls(ses, table, mem, caop, effective, reserved, supply, stale);
    }
    if !ret.Ok? {
      return;
    }
    len, tagLen := dstLen, effective;
    if caop.writeIv {
      kiv' := Overlay(kiv, ses.iv, n);
    }
  }

  lemma IvFits(c: Cipher)
    requires c.Valid()
    ensures c.IvSize() <= EALG_MAX_BLOCK_LEN
  {
  }
}
