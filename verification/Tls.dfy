/**
 TLS records (authenc.c; section 6.2.3.2 of RFC 5246): MAC, then pad, then encrypt, all in place.
 Functions on values and the theorems about them; `AuthSession` proves the driver's code against them.
 */
module Tls {
  import opened Bytes
  import opened BlockModes
  import opened HashCore
  import opened RunEngine

  // ---- Lengths ----

  /** pad_record: what fills the last block, counted off rather than divided (see `PadSizeIsMod`). */
  function PadSize(len: nat, bs: nat): (r: nat)
    requires bs > 0
    ensures 1 <= r <= bs
    decreases len
  {
    if len < bs then bs - len else PadSize(len - bs, bs)
  }

  lemma {:induction false} PadSizeIsMod(len: nat, bs: nat)
    requires bs > 0
    ensures PadSize(len, bs) == bs - len % bs
    decreases len
  {
    if len >= bs {
      PadSizeIsMod(len - bs, bs);
      ModStep(len - bs, bs);
    } else {
      ModSmall(len, bs);
    }
  }

  lemma {:induction false} PadFills(len: nat, bs: nat)
    requires bs > 0
    ensures Multiple(len + PadSize(len, bs), bs)
    decreases len
  {
    if len >= bs {
      PadFills(len - bs, bs);
      assert len + PadSize(len, bs) - bs == len - bs + PadSize(len - bs, bs);
    } else {
      assert Multiple(0, bs) && len + PadSize(len, bs) - bs == 0;
    }
  }

  /** A longer text is padded to at least as much. */
  lemma {:induction false} PadMonotone(a: nat, b: nat, bs: nat)
    requires a <= b && bs > 0
    ensures a + PadSize(a, bs) <= b + PadSize(b, bs)
    decreases a
  {
    if a >= bs { PadMonotone(a - bs, b - bs, bs); }
  }

  /** cryptodev_get_dst_len in TLS mode: the space reserved before anything is written. */
  function ReservedLen(op: Op, len: nat, tagLen: nat, bs: nat): nat
    requires bs > 0
  {
    if op.Decrypt? then len else len + tagLen + PadSize(len + tagLen, bs)
  }

  /** The length of the record an encryption leaves behind. */
  function RecordLen(cfg: Config, len: nat, tagLen: nat): nat
    requires cfg.cipher.Some? && cfg.cipher.value.unit > 0
  {
    var body := if cfg.hash.Some? then len + tagLen else len;
    var bs := cfg.cipher.value.BlockSize();
    if bs > 1 then body + PadSize(body, bs) else body
  }

  /** The record never outgrows the space reserved for it; with a hash and real blocks it fills that
      space exactly and is block aligned. */
  lemma RecordFitsReserved(cfg: Config, len: nat, tagLen: nat)
    requires cfg.Valid() && cfg.cipher.Some?
    ensures var bs := cfg.cipher.value.BlockSize();
            var n := RecordLen(cfg, len, tagLen);
            && len <= n <= ReservedLen(Encrypt, len, tagLen, bs)
            && cfg.Accepts(n)
            && (bs > 1 && cfg.hash.Some? ==> n == ReservedLen(Encrypt, len, tagLen, bs))
  {
    var bs := cfg.cipher.value.BlockSize();
    PadMonotone(len, len + tagLen, bs);
    if bs > 1 {
      PadFills(len, bs);
      PadFills(len + tagLen, bs);
    } else {
      MultipleOfOne(RecordLen(cfg, len, tagLen));
    }
  }

  // ---- Sealing ----

  function Repeat(b: Byte, n: nat): (r: Bytes)
    ensures |r| == n
  {
    seq(n, _ => b)
  }

  function PadBytes(len: nat, bs: nat): (r: Bytes)
    requires 0 < bs <= 256
    ensures |r| == PadSize(len, bs)
  {
    Repeat(PadSize(len, bs) - 1, PadSize(len, bs))
  }

  /** The truncated MAC of the authenticated data followed by the payload. */
  function TlsTag(cfg: Config, auth: Bytes, data: Bytes, tagLen: nat): (r: Bytes)
    requires cfg.Valid() && (cfg.hash.Some? ==> tagLen <= cfg.hash.value.digestSize)
    ensures |r| == if cfg.hash.Some? then tagLen else 0
  {
    if cfg.hash.Some? then cfg.hash.value.Of(auth + data)[..tagLen] else []
  }

  /** The plaintext record: payload, tag, and padding unless the cipher takes any length. */
  function PlainRecord(cfg: Config, auth: Bytes, data: Bytes, tagLen: nat): (r: Bytes)
    requires cfg.Valid() && cfg.cipher.Some? && (cfg.hash.Some? ==> tagLen <= cfg.hash.value.digestSize)
    ensures |r| == RecordLen(cfg, |data|, tagLen)
    ensures r[..|data|] == data
  {
    var body := data + TlsTag(cfg, auth, data, tagLen);
    var bs := cfg.cipher.value.BlockSize();
    if bs > 1 then body + PadBytes(|body|, bs) else body
  }

  // ---- Opening ----

  /** verify_tls_record_pad: the number of padding bytes, unless the padding is malformed. */
  function CheckedPad(p: Bytes): (r: Option<nat>)
    requires p != []
    ensures r.Some? ==> 1 <= r.value <= |p|
  {
    var k := p[|p| - 1];
    if k + 1 > |p| then None
    else if p[|p| - k - 1..] == Repeat(k, k + 1) then Some(k + 1)
    else None
  }

  datatype Opened = Opened(ret: Status, len: nat)

  /** The digest buffer after `final`: the digest over the buffer's `stale` contents. */
  function DigestBuffer(h: Hash, s: HashState, stale: Bytes): (r: Bytes)
    requires h.Valid() && |stale| == AALG_MAX_RESULT_LEN
    ensures |r| == AALG_MAX_RESULT_LEN && r[..h.digestSize] == h.digest(s)
  {
    h.digest(s) + stale[h.digestSize..]
  }

  /** What remains of a decrypted text once a well-formed pad is taken off; a malformed pad is only
      remembered. */
  function Unpadded(cfg: Config, p: Bytes): (r: nat)
    requires cfg.cipher.Some? && p != []
    ensures r <= |p|
  {
    if cfg.cipher.value.BlockSize() > 1 && CheckedPad(p).Some? then |p| - CheckedPad(p).value else |p|
  }

  predicate PadBroken(cfg: Config, p: Bytes)
    requires cfg.cipher.Some? && p != []
  {
    cfg.cipher.value.BlockSize() > 1 && CheckedPad(p).None?
  }

  /** The verdict on a decrypted text `p`. */
  function Verdict(cfg: Config, auth: Bytes, p: Bytes, tagLen: nat, stale: Bytes): (r: Opened)
    requires cfg.Valid() && cfg.cipher.Some? && p != [] && |stale| == AALG_MAX_RESULT_LEN
    ensures r.len <= |p|
  {
    var n := Unpadded(cfg, p);
    if cfg.hash.None? then Opened(Ok, n)
    else if tagLen > AALG_MAX_RESULT_LEN || tagLen > n then Opened(EINVAL, 0)
    else
      var m := n - tagLen;
      var mac := DigestBuffer(cfg.hash.value, HashState(Reset, auth + p[..m]), stale);
      if p[m..n] != mac[..tagLen] || PadBroken(cfg, p) then Opened(EBADMSG, 0) else Opened(Ok, m)
  }

  /** `p` is `n` bytes of data, their tag, and k + 1 bytes that all equal k. */
  ghost predicate Splits(cfg: Config, auth: Bytes, p: Bytes, tagLen: nat, n: nat, k: Byte)
    requires cfg.Valid() && cfg.hash.Some? && tagLen <= cfg.hash.value.digestSize
  {
    && |p| == n + tagLen + k + 1
    && p[n..n + tagLen] == cfg.hash.value.digest(HashState(Reset, auth + p[..n]))[..tagLen]
    && (forall i :: n + tagLen <= i < |p| ==> p[i] == k)
  }

  /** With a hash and a block cipher a record is accepted, with reported length n, exactly when its
      text splits as n bytes of data, their tag and some legal pad, minimal or not. */
  lemma AcceptedIffSplits(cfg: Config, auth: Bytes, p: Bytes, tagLen: nat, stale: Bytes, n: nat)
    requires cfg.Valid() && cfg.cipher.Some? && cfg.cipher.value.BlockSize() > 1 && cfg.hash.Some?
    requires p != [] && tagLen <= cfg.hash.value.digestSize && |stale| == AALG_MAX_RESULT_LEN
    ensures Verdict(cfg, auth, p, tagLen, stale) == Opened(Ok, n)
       <==> exists k: Byte :: Splits(cfg, auth, p, tagLen, n, k)
  {
    if Verdict(cfg, auth, p, tagLen, stale) == Opened(Ok, n) {
      VerdictSplits(cfg, auth, p, tagLen, stale, n);
    }
    if k' : Byte :| Splits(cfg, auth, p, tagLen, n, k') {
      SplitsVerdict(cfg, auth, p, tagLen, stale, n, k');
    }
  }

  lemma VerdictSplits(cfg: Config, auth: Bytes, p: Bytes, tagLen: nat, stale: Bytes, n: nat)
    requires cfg.Valid() && cfg.cipher.Some? && cfg.cipher.value.BlockSize() > 1 && cfg.hash.Some?
    requires p != [] && tagLen <= cfg.hash.value.digestSize && |stale| == AALG_MAX_RESULT_LEN
    requires Verdict(cfg, auth, p, tagLen, stale) == Opened(Ok, n)
    ensures Splits(cfg, auth, p, tagLen, n, p[|p| - 1])
  {
    var h := cfg.hash.value;
    var k: nat := p[|p| - 1];
    var pad := p[|p| - k - 1..];
    assert pad == Repeat(k, k + 1);
    forall i | n + tagLen <= i < |p| ensures p[i] == k {
      assert p[i] == pad[i - (n + tagLen)];
    }
    var mac := DigestBuffer(h, HashState(Reset, auth + p[..n]), stale);
    assert mac[..tagLen] == mac[..h.digestSize][..tagLen];
  }

  lemma SplitsVerdict(cfg: Config, auth: Bytes, p: Bytes, tagLen: nat, stale: Bytes, n: nat, k: Byte)
    requires cfg.Valid() && cfg.cipher.Some? && cfg.cipher.value.BlockSize() > 1 && cfg.hash.Some?
    requires p != [] && tagLen <= cfg.hash.value.digestSize && |stale| == AALG_MAX_RESULT_LEN
    requires Splits(cfg, auth, p, tagLen, n, k)
    ensures Verdict(cfg, auth, p, tagLen, stale) == Opened(Ok, n)
  {
    var h := cfg.hash.value;
    assert p[|p| - 1] == k;
    assert p[|p| - k - 1..] == Repeat(k, k + 1);
    var mac := DigestBuffer(h, HashState(Reset, auth + p[..n]), stale);
    assert mac[..tagLen] == mac[..h.digestSize][..tagLen];
  }

  /** `p` is `n` bytes of data and their tag. */
  ghost predicate Tagged(cfg: Config, auth: Bytes, p: Bytes, tagLen: nat, n: nat)
    requires cfg.Valid() && cfg.hash.Some? && tagLen <= cfg.hash.value.digestSize
  {
    |p| == n + tagLen && p[n..] == cfg.hash.value.digest(HashState(Reset, auth + p[..n]))[..tagLen]
  }

  /** With a cipher that takes any length there is no pad, and the tag alone decides. */
  lemma AcceptedIffTagged(cfg: Config, auth: Bytes, p: Bytes, tagLen: nat, stale: Bytes, n: nat)
    requires cfg.Valid() && cfg.cipher.Some? && cfg.cipher.value.BlockSize() == 1 && cfg.hash.Some?
    requires p != [] && tagLen <= cfg.hash.value.digestSize && |stale| == AALG_MAX_RESULT_LEN
    ensures Verdict(cfg, auth, p, tagLen, stale) == Opened(Ok, n) <==> Tagged(cfg, auth, p, tagLen, n)
  {
    var h := cfg.hash.value;
    if tagLen <= |p| {
      var m := |p| - tagLen;
      var mac := DigestBuffer(h, HashState(Reset, auth + p[..m]), stale);
      assert mac[..tagLen] == mac[..h.digestSize][..tagLen];
      assert p[m..|p|] == p[m..];
    }
  }

  /** A legal pad: k + 1 bytes at the end that all equal k. */
  ghost predicate LegalPad(p: Bytes, k: Byte) {
    k + 1 <= |p| && forall i :: |p| - k - 1 <= i < |p| ==> p[i] == k
  }

  lemma CheckedLast(p: Bytes)
    requires p != []
    ensures CheckedPad(p).Some? ==> CheckedPad(p).value - 1 == p[|p| - 1]
  {
  }

  /** A pad is well-formed exactly when it is legal, and its length is read off its last byte. */
  lemma CheckedIffLegal(p: Bytes, k: Byte)
    requires p != []
    ensures CheckedPad(p).Some? && CheckedPad(p).value - 1 == k <==> LegalPad(p, k)
  {
    if LegalPad(p, k) {
      assert p[|p| - 1] == k;
      assert p[|p| - k - 1..] == Repeat(k, k + 1);
    }
    if CheckedPad(p).Some? && CheckedPad(p).value - 1 == k {
      var pad := p[|p| - k - 1..];
      assert pad == Repeat(k, k + 1);
      forall i | |p| - k - 1 <= i < |p| ensures p[i] == k {
        assert p[i] == pad[i - (|p| - k - 1)];
      }
    }
  }

  /** A malformed pad is refused exactly when a hash is attached; without one nothing ever is, and the
      whole text is then the result. */
  lemma BrokenPadVerdict(cfg: Config, auth: Bytes, p: Bytes, tagLen: nat, stale: Bytes)
    requires cfg.Valid() && cfg.cipher.Some? && p != [] && |stale| == AALG_MAX_RESULT_LEN
    ensures cfg.hash.None? ==> Verdict(cfg, auth, p, tagLen, stale).ret.Ok?
    ensures PadBroken(cfg, p) ==> (Verdict(cfg, auth, p, tagLen, stale).ret.Ok? <==> cfg.hash.None?)
    ensures PadBroken(cfg, p) && cfg.hash.None? ==> Verdict(cfg, auth, p, tagLen, stale).len == |p|
  {
  }

  /** The padding put on a text is what is checked off it. */
  lemma PadChecked(body: Bytes, bs: nat)
    requires 0 < bs <= 256
    ensures CheckedPad(body + PadBytes(|body|, bs)) == Some(PadSize(|body|, bs))
  {
  }

  /** A sealed text is judged to be what was sealed. */
  lemma SealedIsAccepted(cfg: Config, auth: Bytes, data: Bytes, tagLen: nat, stale: Bytes)
    requires cfg.Valid() && cfg.cipher.Some? && (cfg.hash.Some? ==> tagLen <= cfg.hash.value.digestSize)
    requires |stale| == AALG_MAX_RESULT_LEN
    requires PlainRecord(cfg, auth, data, tagLen) != []
    ensures Verdict(cfg, auth, PlainRecord(cfg, auth, data, tagLen), tagLen, stale) == Opened(Ok, |data|)
  {
    hide PadSize, CheckedPad, Multiple;
    var p := PlainRecord(cfg, auth, data, tagLen);
    var tag := TlsTag(cfg, auth, data, tagLen);
    var bs := cfg.cipher.value.BlockSize();
    var body := data + tag;
    if bs > 1 { PadChecked(body, bs); }
    assert Unpadded(cfg, p) == |body|;
    if cfg.hash.Some? {
      var h := cfg.hash.value;
      assert p[..|data|] == data;
      assert p[|data|..|body|] == tag;
      var mac := DigestBuffer(h, HashState(Reset, auth + data), stale);
      assert mac[..tagLen] == mac[..h.digestSize][..tagLen];
    }
  }
}
