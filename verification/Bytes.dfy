/** Bytes, user memory as a byte sequence indexed by address, and the arithmetic the driver relies on. */
module Bytes {

  type Byte = n: int | 0 <= n < 256
  type Bytes = seq<Byte>

  datatype Option<+T> = None | Some(value: T)

  /** Status codes the driver returns (0 and the negated errno values it uses). */
  datatype Status = Ok | EINVAL | EFAULT | EBADMSG | ENOMEM | EBUSY

  const PAGE_SIZE := 4096

  function Min(a: nat, b: nat): nat { if a < b then a else b }

  /** Memory `mem` with the bytes at addresses [at, at + |s|) replaced by `s`. */
  function Splice(mem: Bytes, at: nat, s: Bytes): (r: Bytes)
    requires at + |s| <= |mem|
    ensures |r| == |mem|
    ensures r[at..at + |s|] == s
  {
    seq(|mem|, i requires 0 <= i < |mem| => if at <= i < at + |s| then s[i - at] else mem[i])
  }

  /** A range of addresses that a splice does not touch keeps its contents. */
  lemma SpliceFrame(mem: Bytes, at: nat, s: Bytes, lo: nat, hi: nat)
    requires at + |s| <= |mem| && lo <= hi <= |mem|
    requires hi <= at || at + |s| <= lo
    ensures Splice(mem, at, s)[lo..hi] == mem[lo..hi]
  {
  }

  /** Two adjacent splices are one. */
  lemma SpliceJoin(mem: Bytes, at: nat, s: Bytes, t: Bytes)
    requires at + |s| + |t| <= |mem|
    ensures Splice(Splice(mem, at, s), at + |s|, t) == Splice(mem, at, s + t)
  {
  }

  /** Writing back what is already there changes nothing. */
  lemma SpliceSame(mem: Bytes, at: nat, n: nat)
    requires at + n <= |mem|
    ensures Splice(mem, at, mem[at..at + n]) == mem
  {
  }

  // ---- Exclusive or ----

  function XorNat(a: nat, b: nat): nat
    decreases a + b
  {
    if a == 0 && b == 0 then 0 else (a % 2 + b % 2) % 2 + 2 * XorNat(a / 2, b / 2)
  }

  function Pow2(k: nat): (r: nat)
    ensures r > 0
  {
    if k == 0 then 1 else 2 * Pow2(k - 1)
  }

  lemma {:induction false} XorBound(a: nat, b: nat, k: nat)
    requires a < Pow2(k) && b < Pow2(k)
    ensures XorNat(a, b) < Pow2(k)
  {
    if k != 0 { XorBound(a / 2, b / 2, k - 1); }
  }

  lemma {:induction false} XorNatTwice(a: nat, b: nat)
    ensures XorNat(XorNat(a, b), b) == a
    decreases a + b
  {
    if a != 0 || b != 0 {
      XorNatTwice(a / 2, b / 2);
      XorParts(a, b);
      XorParts(XorNat(a, b), b);
      BitXorTwice(a % 2, b % 2);
    }
  }

  lemma XorParts(a: nat, b: nat)
    ensures XorNat(a, b) % 2 == (a % 2 + b % 2) % 2
    ensures XorNat(a, b) / 2 == XorNat(a / 2, b / 2)
  {
  }

  lemma BitXorTwice(p: nat, q: nat)
    requires p < 2 && q < 2
    ensures ((p + q) % 2 + q) % 2 == p
  {
  }

  function XorByte(a: Byte, b: Byte): Byte {
    assert Pow2(8) == 256 by {
      assert Pow2(4) == 16;
    }
    XorBound(a, b, 8);
    XorNat(a, b)
  }

  lemma {:induction false} XorBits(a: nat, b: nat, k: nat)
    ensures (XorNat(a, b) / Pow2(k)) % 2 == (a / Pow2(k) + b / Pow2(k)) % 2
  {
    XorParts(a, b);
    if k == 0 {
      BitsAdd(a, b);
    } else {
      HalveFirst(a, k);
      HalveFirst(b, k);
      HalveFirst(XorNat(a, b), k);
      XorBits(a / 2, b / 2, k - 1);
      hide XorNat, Pow2;
    }
  }

  lemma BitsAdd(a: nat, b: nat)
    ensures (a % 2 + b % 2) % 2 == (a + b) % 2
  {
  }

  lemma HalveFirst(n: nat, k: nat)
    requires k > 0
    ensures n / Pow2(k) == (n / 2) / Pow2(k - 1)
  {
    var p := Pow2(k - 1);
    var q, r := (n / 2) / p, (n / 2) % p;
    assert n / 2 == p * q + r && n == 2 * (n / 2) + n % 2;
    assert n == (2 * p) * q + (2 * r + n % 2) by { assert 2 * (p * q) == (2 * p) * q; }
    DivUnique(2 * p, q, 2 * r + n % 2, n);
  }

  lemma DivUnique(u: nat, q: nat, r: nat, x: nat)
    requires r < u && x == u * q + r
    ensures x / u == q
  {
    assert x == u * (x / u) + x % u;
    assert u * (x / u - q) == u * (x / u) - u * q;
    MultipleAway(u, x / u - q);
  }

  /** Byte-wise exclusive or, as long as the shorter operand. */
  function Xor(a: Bytes, b: Bytes): (r: Bytes)
    ensures |r| == Min(|a|, |b|)
  {
    seq(Min(|a|, |b|), i requires 0 <= i < Min(|a|, |b|) => XorByte(a[i], b[i]))
  }

  /** Bit by bit: every bit of the exclusive or is set exactly when it is set in one of the two. */
  lemma XorIsBitwise(a: Bytes, b: Bytes, i: nat, k: nat)
    requires i < |a| && i < |b|
    ensures (Xor(a, b)[i] / Pow2(k)) % 2 == (a[i] / Pow2(k) + b[i] / Pow2(k)) % 2
  {
    XorBits(a[i], b[i], k);
  }

  lemma XorTwice(a: Bytes, b: Bytes)
    requires |a| <= |b|
    ensures Xor(Xor(a, b), b) == a
  {
    forall i | 0 <= i < |a| ensures Xor(Xor(a, b), b)[i] == a[i] {
      XorNatTwice(a[i], b[i]);
    }
  }

  // ---- Multiples ----

  /** `n` is a multiple of `u`, counted off rather than divided (see `MultipleIsMod`). */
  predicate Multiple(n: nat, u: nat)
    requires u > 0
    decreases n
  {
    n == 0 || (n >= u && Multiple(n - u, u))
  }

  lemma {:induction false} MultipleIsMod(n: nat, u: nat)
    requires u > 0
    ensures Multiple(n, u) <==> n % u == 0
    decreases n
  {
    if n >= u {
      MultipleIsMod(n - u, u);
      ModStep(n - u, u);
    } else {
      ModSmall(n, u);
    }
  }

  lemma ModSmall(r: nat, u: nat)
    requires r < u
    ensures r % u == r
  {
  }

  lemma ModStep(n: nat, u: nat)
    requires u > 0
    ensures (n + u) % u == n % u && (n + u) / u == n / u + 1
  {
    var q, r := n / u, n % u;
    assert n == u * q + r;
    assert u * (q + 1) == u * q + u;
    var q', r' := (n + u) / u, (n + u) % u;
    assert n + u == u * q' + r';
    assert u * (q' - (q + 1)) == u * q' - u * (q + 1);
    MultipleAway(u, q' - (q + 1));
  }

  lemma MultipleAway(u: nat, k: int)
    ensures k >= 1 ==> u * k >= u
    ensures k <= -1 ==> u * k + u <= 0
  {
  }

  lemma {:induction false} MultipleOfOne(n: nat)
    ensures Multiple(n, 1)
  {
    if n > 0 { MultipleOfOne(n - 1); }
  }

  lemma {:induction false} MultipleSum(a: nat, b: nat, u: nat)
    requires u > 0 && Multiple(a, u) && Multiple(b, u)
    ensures Multiple(a + b, u)
    decreases a
  {
    if a > 0 {
      MultipleSum(a - u, b, u);
      assert a + b - u == a - u + b;
    }
  }

  lemma {:induction false} MultipleDiff(a: nat, b: nat, u: nat)
    requires u > 0 && b <= a && Multiple(a, u) && Multiple(b, u)
    ensures Multiple(a - b, u)
    decreases b
  {
    if b > 0 {
      MultipleDiff(a - u, b - u, u);
    }
  }
}
