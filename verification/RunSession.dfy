/** The imperative code of main.c: a session whose fields are updated and buffers written in place. */
module RunSession {
  import opened Bytes
  import opened BlockModes
  import opened HashCore
  import opened RunEngine

  /** Writes `s` into `a` from index `at` on. */
  method WriteBytes(a: array<Byte>, at: nat, s: Bytes)
    requires at + |s| <= a.Length
    modifies a
    ensures a[..] == Splice(old(a[..]), at, s)
  {
    for i := 0 to |s|
      invariant a[..] == Splice(old(a[..]), at, s[..i])
    {
      SpliceJoin(old(a[..]), at, s[..i], [s[i]]);
      assert s[..i + 1] == s[..i] + [s[i]];
      a[at + i] := s[i];
    }
    assert s[..|s|] == s;
  }

  /** copy_from_user and copy_to_user fail on an unmapped address and otherwise copy everything. */
  method CopyBytes(to: array<Byte>, at: nat, from: array<Byte>, start: nat, n: nat) returns (ok: bool)
    requires to != from
    modifies to
    ensures ok <==> at + n <= to.Length && start + n <= from.Length
    ensures ok ==> to[..] == Splice(old(to[..]), at, from[start..start + n])
    ensures !ok ==> to[..] == old(to[..])
  {
    ok := at + n <= to.Length && start + n <= from.Length;
    if ok { WriteBytes(to, at, from[start..start + n]); }
  }

  class Session {
    const cfg: Config
    var iv: Bytes
    var hash: HashState

    ghost predicate Valid()
      reads this
    {
      cfg.Valid() && |iv| == EALG_MAX_BLOCK_LEN
    }

    ghost function St(): State
      reads this
    {
      State(iv, hash)
    }

    constructor (cfg: Config)
      requires cfg.Valid()
      ensures Valid() && this.cfg == cfg && hash == Fresh
    {
      this.cfg, iv, hash := cfg, seq(EALG_MAX_BLOCK_LEN, i => 0), Fresh;
    }

    method CipherRun(op: Op, buf: array<Byte>, src: nat, dst: nat, n: nat)
      requires Valid() && cfg.cipher.Some? && cfg.cipher.value.Accepts(n)
      requires src + n <= buf.Length && dst + n <= buf.Length
      modifies this`iv, buf
      ensures Valid()
      ensures var was := old(buf[..]);
              var r := CipherPass(cfg.cipher.value, old(iv), op, was[src..src + n]);
              iv == r.iv && buf[..] == Splice(was, dst, r.data)
    {
      assert buf[..][src..src + n] == buf[src..src + n];
      var r := CipherPass(cfg.cipher.value, iv, op, buf[src..src + n]);
      iv := r.iv;
      WriteBytes(buf, dst, r.data);
    }

    /** hash_n_crypt; `dst` None is a destination without a scatterlist. */
    method HashNCrypt(op: Op, buf: array<Byte>, src: nat, dst: Option<nat>, n: nat)
      requires Valid() && cfg.Accepts(n) && src + n <= buf.Length
      requires NeedsDst(cfg, op) ==> dst.Some?
      requires dst.Some? ==> dst.value + n <= buf.Length
      modifies this, buf
      ensures Valid()
      ensures var was := old(buf[..]);
              var prior := if dst.Some? then was[dst.value..dst.value + n] else [];
              var p := PassOf(cfg, old(St()), op, was[src..src + n], prior);
              St() == p.st && buf[..] == if dst.Some? then Splice(was, dst.value, p.data) else was
    {
      hide CipherPass, Splice, Multiple, Cipher.Valid, Hash.Valid;
      assert buf[..][src..src + n] == buf[src..src + n];
      if dst.Some? { SpliceSame(buf[..], dst.value, n); }
      if op.Encrypt? {
        if cfg.hash.Some? {
          hash := Absorb(hash, buf[src..src + n]);
        }
        if cfg.cipher.Some? {
          CipherRun(op, buf, src, dst.value, n);
        }
      } else {
        if cfg.cipher.Some? {
          CipherRun(op, buf, src, dst.value, n);
        }
        if cfg.hash.Some? {
          hash := Absorb(hash, buf[dst.value..dst.value + n]);
        }
      }
    }

    /** One iteration of __crypto_run_std: copy in, process in the page buffer, copy out. */
    method RunStdPage(mem: array<Byte>, data: array<Byte>, op: Op, src: nat, dst: nat, current: nat)
      returns (ret: Status)
      requires Valid() && cfg.Accepts(current) && current <= data.Length && mem != data
      modifies this, mem, data
      ensures Valid()
      ensures Moved(ret, St(), mem[..]) == StdPage(cfg, old(St()), old(mem[..]), op, src, dst, current)
    {
      hide PassOf, Multiple;
      var ok := CopyBytes(data, 0, mem, src, current);
      if !ok {
        return EFAULT;
      }
      HashNCrypt(op, data, 0, Some(0), current);
      if cfg.cipher.Some? {
        ok := CopyBytes(mem, dst, data, 0, current);
        if !ok {
          return EFAULT;
        }
      }
      ret := Ok;
    }

    /** __crypto_run_std */
    method RunStd(mem: array<Byte>, cop: CryptOp, page: bool) returns (ret: Status)
      requires Valid() && cfg.Accepts(cop.len)
      modifies this, mem
      ensures Valid()
      ensures Moved(ret, St(), mem[..]) ==
              if page then StdTransfer(cfg, old(St()), old(mem[..]), cop.op, cop.src, cop.dst, cop.len)
              else Moved(ENOMEM, old(St()), old(mem[..]))
    {
      if !page {
        return ENOMEM;
      }
      hide StdPage, Multiple, Cipher.Valid, Hash.Valid;
      ret := Ok;
      var data := new Byte[PAGE_SIZE];
      var nbytes, src, dst := cop.len, cop.src, cop.dst;
      var bufsize := Min(PAGE_SIZE, nbytes);
      while nbytes > 0
        invariant Valid() && cfg.Accepts(nbytes) && ret.Ok? && fresh(data)
        invariant Min(nbytes, bufsize) == Min(PAGE_SIZE, nbytes)
        invariant StdTransfer(cfg, St(), mem[..], cop.op, src, dst, nbytes)
               == StdTransfer(cfg, old(St()), old(mem[..]), cop.op, cop.src, cop.dst, cop.len)
      {
        var current := Min(nbytes, bufsize);
        AcceptsPage(cfg, nbytes);
        ret := RunStdPage(mem, data, cop.op, src, dst, current);
        if !ret.Ok? {
          break;
        }
        dst, nbytes, src := dst + current, nbytes - current, src + current;
      }
    }

    /** The pinned case of __crypto_run_zc. */
    method RunPinned(mem: array<Byte>, cop: CryptOp)
      requires Valid() && cfg.Accepts(cop.len) && Pinnable(mem[..], cop.src, cop.dst, cop.len)
      requires NeedsDst(cfg, cop.op) ==> cop.dst != 0
      modifies this, mem
      ensures Valid()
      ensures Moved(Ok, St(), mem[..]) == ZcTransfer(cfg, old(St()), old(mem[..]), cop.op, cop.src, cop.dst, cop.len)
    {
      hide PassOf, Splice, Multiple, Cipher.Valid, Hash.Valid;
      HashNCrypt(cop.op, mem, cop.src, if cop.dst == 0 then None else Some(cop.dst), cop.len);
    }

    /** __crypto_run_zc: falls back to copying when the pages cannot be pinned. */
    method RunZc(mem: array<Byte>, cop: CryptOp, pinned: bool, page: bool) returns (ret: Status)
      requires Valid() && cfg.Accepts(cop.len)
      requires NeedsDst(cfg, cop.op) ==> cop.dst != 0
      modifies this, mem
      ensures Valid()
      ensures Moved(ret, St(), mem[..]) ==
              if pinned && Pinnable(old(mem[..]), cop.src, cop.dst, cop.len)
              then ZcTransfer(cfg, old(St()), old(mem[..]), cop.op, cop.src, cop.dst, cop.len)
              else if page then StdTransfer(cfg, old(St()), old(mem[..]), cop.op, cop.src, cop.dst, cop.len)
              else Moved(ENOMEM, old(St()), old(mem[..]))
    {
      if !pinned || cop.src + cop.len > mem.Length || (cop.dst != 0 && cop.dst + cop.len > mem.Length) {
        ret := RunStd(mem, cop, page);
        return;
      }
      RunPinned(mem, cop);
      ret := Ok;
    }

    static lemma NoMask(cfg: Config, addr: nat)
      ensures cfg.alignmask == 0 ==> Aligned(cfg, addr)
    {
    }

    /** Misaligned buffers set NO_ZC in the request. */
    method MarkMisaligned(request: CryptOp) returns (flags: Flags)
      requires request.len > 0
      ensures flags == FlagsAfter(cfg, request)
    {
      NoMask(cfg, request.src);
      NoMask(cfg, request.dst);
      hide Aligned;
      flags := request.flags;
      if !flags.noZc {
        if cfg.alignmask != 0 && !Aligned(cfg, request.src) {
          flags := flags.(noZc := true);
        }
        if cfg.alignmask != 0 && !Aligned(cfg, request.dst) {
          flags := flags.(noZc := true);
        }
      }
    }

    /** The path selection of crypto_run, by the flags of the request as they then are. */
    method Dispatch(mem: array<Byte>, request: CryptOp, pinned: bool, page: bool) returns (ret: Status, flags: Flags)
      requires Valid() && cfg.Accepts(request.len) && request.len > 0
      requires NeedsDst(cfg, request.op) ==> request.dst != 0
      modifies this, mem
      ensures Valid() && flags == FlagsAfter(cfg, request)
      ensures Moved(ret, St(), mem[..]) ==
              if page || !Copies(cfg, old(mem[..]), request, pinned) then Transfer(cfg, old(St()), old(mem[..]), request, pinned)
              else Moved(ENOMEM, old(St()), old(mem[..]))
    {
      hide Aligned, ZcTransfer, StdTransfer, Multiple, Cipher.Valid, Hash.Valid;
      flags := MarkMisaligned(request);
      if flags.noZc {
        ret := RunStd(mem, request, page);
      } else {
        ret := RunZc(mem, request, pinned, page);
      }
    }

    /** The hash is reset if asked for, the length checked, and the IV loaded. */
    method Load(cop: CryptOp, kiv: Bytes) returns (ok: bool)
      requires Valid() && |kiv| <= EALG_MAX_BLOCK_LEN
      modifies this
      ensures Valid() && (ok <==> cfg.cipher.Some? ==> cfg.cipher.value.Accepts(cop.len))
      ensures St() == Prepared(cfg, old(St()), cop.flags, if ok then kiv else [])
    {
      assert Overlay(iv, kiv, 0) == iv && Overlay(iv, [], 0) == iv;
      if Resets(cfg, cop.flags) {
        hash := Fresh;
      }
      if cfg.cipher.Some? {
        MultipleIsMod(cop.len, cfg.cipher.value.BlockSize());
        hide Multiple, Cipher.Valid;
        if cop.len % cfg.cipher.value.BlockSize() != 0 {
          return false;
        }
        iv := Overlay(iv, kiv, Min(cfg.cipher.value.IvSize(), |kiv|));
      }
      ok := true;
    }

    /** The IV is given back and, at the end of a message, the digest. */
    method Deliver(cop: CryptOp, kiv: Bytes) returns (kiv': Bytes, digest: Option<Bytes>)
      requires Valid() && |kiv| <= EALG_MAX_BLOCK_LEN
      modifies this`hash
      ensures Valid() && kiv' == Overlay(kiv, iv, IvBytes(cfg, kiv))
      ensures digest == if Finalizes(cfg, cop) then Some(cfg.hash.value.digest(old(hash))) else None
      ensures hash == if Finalizes(cfg, cop) then AfterFinal(old(hash)) else old(hash)
    {
      kiv', digest := kiv, None;
      assert Overlay(kiv, iv, 0) == kiv;
      if cfg.cipher.Some? {
        kiv' := Overlay(kiv, iv, Min(cfg.cipher.value.IvSize(), |kiv|));
      }
      if cfg.hash.Some? && (cop.flags.final || (!cop.flags.update || cop.len == 0)) {
        digest := Some(cfg.hash.value.digest(hash));
        hash := AfterFinal(hash);
      }
    }

    /** crypto_run on the locked session; `kiv` is the kernel's copy of the request's IV and `flags` its
        copy of the request's flags. */
    method CryptoRun(mem: array<Byte>, cop: CryptOp, kiv: Bytes, pinned: bool, page: bool)
      returns (ret: Status, kiv': Bytes, flags: Flags, digest: Option<Bytes>)
      requires Callable(cfg, St(), cop, kiv)
      modifies this, mem
      ensures Valid()
      ensures Reply(ret, St(), mem[..], kiv', flags, digest) == RunReplyIn(cfg, old(St()), old(mem[..]), cop, kiv, pinned, page)
    {
      hide Transfer, Copies, Aligned, Multiple, Cipher.Valid, Hash.Valid, Prepared, Overlay, Finalizes;
      ret, kiv', flags, digest := Ok, kiv, cop.flags, None;
      if cop.op.OtherOp? {
        return EINVAL, kiv, cop.flags, None;
      }
      var ok := Load(cop, kiv);
      if !ok {
        return EINVAL, kiv, cop.flags, None;
      }
      if cop.len > 0 {
        ret, flags := Dispatch(mem, cop, pinned, page);
        if !ret.Ok? {
          return;
        }
      }
      kiv', digest := Deliver(cop, kiv);
    }
  }
}
