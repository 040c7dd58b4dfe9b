/**
 Cipher modes as the kernel presents them to the driver: a block permutation turned into ECB, CBC
 (section 6.2 of NIST SP 800-38A) or CTR (section 6.5 of NIST SP 800-38A), with the chaining value
 as explicit state. Splitting and inversion are theorems about these definitions.
 */
module BlockModes {
  import opened Bytes

  const EALG_MAX_BLOCK_LEN := 16

  /** The operation code of a request; anything but the two known codes is refused by the driver. */
  datatype Op = Encrypt | Decrypt | OtherOp

  datatype Mode = Ecb | Cbc | Ctr

  /** A keyed cipher: `unit` is the width of the permutation `enc` with inverse `dec`. */
  datatype Cipher = Cipher(mode: Mode, unit: nat, stream: bool, enc: Bytes -> Bytes, dec: Bytes -> Bytes) {

    /** The block size reported to the driver: counter mode accepts any length. */
    function BlockSize(): nat { if mode.Ctr? then 1 else unit }

    function IvSize(): nat { if mode.Ecb? then 0 else unit }

    ghost predicate Valid() {
      && 0 < unit <= EALG_MAX_BLOCK_LEN
      && Multiple(PAGE_SIZE, unit)
      && (stream ==> BlockSize() == 1)
      && (forall b: Bytes {:trigger enc(b)} :: |b| == unit ==> |enc(b)| == unit)
      && (forall b: Bytes {:trigger dec(b)} :: |b| == unit ==> |dec(b)| == unit)
      && (forall b: Bytes {:trigger enc(b)} :: |b| == unit ==> dec(enc(b)) == b)
    }

    predicate Accepts(n: nat)
      requires unit > 0
    {
      Multiple(n, BlockSize())
    }
  }

  datatype Output = Output(data: Bytes, iv: Bytes)

  /** Big-endian increment of a counter block. */
  function Increment(b: Bytes): (r: Bytes)
    ensures |r| == |b|
  {
    if b == [] then []
    else
      var n := |b| - 1;
      if b[n] == 255 then Increment(b[..n]) + [0] else b[..n] + [b[n] + 1]
  }

  /** One block (for CTR possibly a short last one) under chaining value `iv`. */
  function CryptBlock(c: Cipher, op: Op, iv: Bytes, b: Bytes): Output {
    match c.mode
    case Ecb => Output(if op.Encrypt? then c.enc(b) else c.dec(b), iv)
    case Cbc =>
      if op.Encrypt? then
        var y := c.enc(Xor(b, iv));
        Output(y, y)
      else
        Output(Xor(c.dec(b), iv), b)
    case Ctr => Output(Xor(b, c.enc(iv)), Increment(iv))
  }

  /** A whole request: blocks in order, the chaining value handed from each to the next. */
  function Crypt(c: Cipher, op: Op, iv: Bytes, data: Bytes): Output
    requires c.unit > 0
    decreases |data|
  {
    if data == [] then Output([], iv)
    else if |data| <= c.unit then CryptBlock(c, op, iv, data)
    else
      var head := CryptBlock(c, op, iv, data[..c.unit]);
      var tail := Crypt(c, op, head.iv, data[c.unit..]);
      Output(head.data + tail.data, tail.iv)
  }

  lemma CryptBlockLength(c: Cipher, op: Op, iv: Bytes, b: Bytes)
    requires c.Valid() && |b| <= c.unit
    requires !c.mode.Ctr? ==> |b| == c.unit
    requires !c.mode.Ecb? ==> |iv| == c.unit
    ensures |CryptBlock(c, op, iv, b).data| == |b|
    ensures |CryptBlock(c, op, iv, b).iv| == |iv|
  {
  }

  /** What follows the first block of an acceptable request is an acceptable request. */
  lemma AcceptsTail(c: Cipher, n: nat)
    requires c.unit > 0 && n > 0 && c.Accepts(n)
    ensures !c.mode.Ctr? ==> n >= c.unit
    ensures n >= c.unit ==> c.Accepts(n - c.unit)
  {
    if c.mode.Ctr? && n >= c.unit { MultipleOfOne(n - c.unit); }
  }

  /** Output and input have equal length, and the chaining value keeps its size. */
  lemma {:induction false} CryptLength(c: Cipher, op: Op, iv: Bytes, data: Bytes)
    requires c.Valid() && c.Accepts(|data|) && |iv| == c.IvSize()
    ensures |Crypt(c, op, iv, data).data| == |data|
    ensures |Crypt(c, op, iv, data).iv| == c.IvSize()
    decreases |data|
  {
    if data != [] {
      AcceptsTail(c, |data|);
      if |data| <= c.unit {
        CryptBlockLength(c, op, iv, data);
      } else {
        CryptBlockLength(c, op, iv, data[..c.unit]);
        CryptLength(c, op, CryptBlock(c, op, iv, data[..c.unit]).iv, data[c.unit..]);
      }
    }
  }

  /** Cutting a request at a multiple of the unit and chaining the IV gives the same output. */
  lemma {:induction false} CryptSplit(c: Cipher, op: Op, iv: Bytes, a: Bytes, b: Bytes)
    requires c.unit > 0 && Multiple(|a|, c.unit)
    ensures var first := Crypt(c, op, iv, a);
            var second := Crypt(c, op, first.iv, b);
            Crypt(c, op, iv, a + b) == Output(first.data + second.data, second.iv)
    decreases |a|
  {
    if a == [] {
      assert a + b == b;
      assert [] + Crypt(c, op, iv, b).data == Crypt(c, op, iv, b).data;
    } else if b == [] {
      assert a + b == a;
      assert Crypt(c, op, iv, a).data + [] == Crypt(c, op, iv, a).data;
    } else {
      var u := c.unit;
      assert (a + b)[..u] == a[..u] && (a + b)[u..] == a[u..] + b;
      var head := CryptBlock(c, op, iv, a[..u]);
      CryptSplit(c, op, head.iv, a[u..], b);
      var mid := Crypt(c, op, head.iv, a[u..]);
      var last := Crypt(c, op, mid.iv, b);
      assert head.data + (mid.data + last.data) == (head.data + mid.data) + last.data;
      if |a| == u {
        assert a[..u] == a && a[u..] == [];
        assert head.data + mid.data == head.data;
      }
    }
  }

  lemma CryptBlockInverse(c: Cipher, iv: Bytes, b: Bytes)
    requires c.Valid() && |b| <= c.unit
    requires !c.mode.Ctr? ==> |b| == c.unit
    requires !c.mode.Ecb? ==> |iv| == c.unit
    ensures var e := CryptBlock(c, Encrypt, iv, b);
            CryptBlock(c, Decrypt, iv, e.data) == Output(b, e.iv)
  {
    match c.mode
    case Ecb =>
    case Cbc => XorTwice(b, iv);
    case Ctr => XorTwice(b, c.enc(iv));
  }

  /** Decrypting an encryption under the same IV restores the input and ends with the same IV. */
  lemma {:induction false} CryptInverse(c: Cipher, iv: Bytes, data: Bytes)
    requires c.Valid() && c.Accepts(|data|) && |iv| == c.IvSize()
    ensures var e := Crypt(c, Encrypt, iv, data);
            Crypt(c, Decrypt, iv, e.data) == Output(data, e.iv)
    decreases |data|
  {
    hide CryptBlock;
    if data != [] {
      AcceptsTail(c, |data|);
      var u := c.unit;
      if |data| <= u {
        CryptBlockInverse(c, iv, data);
        CryptBlockLength(c, Encrypt, iv, data);
      } else {
        var head := CryptBlock(c, Encrypt, iv, data[..u]);
        CryptBlockInverse(c, iv, data[..u]);
        CryptBlockLength(c, Encrypt, iv, data[..u]);
        var tail := Crypt(c, Encrypt, head.iv, data[u..]);
        CryptInverse(c, head.iv, data[u..]);
        CryptLength(c, Encrypt, head.iv, data[u..]);
        var y := head.data + tail.data;
        assert y[..u] == head.data && y[u..] == tail.data;
        assert data[..u] + data[u..] == data;
      }
    }
  }

  // ---- What the modes compute, block by block ----

  /** The blocks of a text; the last may be short. */
  function Blocks(data: Bytes, u: nat): (r: seq<Bytes>)
    requires u > 0
    ensures forall i :: 0 <= i < |r| ==> 0 < |r[i]| <= u && (i < |r| - 1 ==> |r[i]| == u)
    ensures Join(r) == data
    decreases |data|
  {
    if data == [] then []
    else if |data| <= u then
      assert Join([data][1..]) == [] && data + [] == data;
      [data]
    else
      var r := [data[..u]] + Blocks(data[u..], u);
      assert r[1..] == Blocks(data[u..], u) && data[..u] + data[u..] == data;
      r
  }

  function Join(blocks: seq<Bytes>): Bytes { if blocks == [] then [] else blocks[0] + Join(blocks[1..]) }

  /** A block more in front. */
  lemma BlocksOfSum(a: Bytes, b: Bytes, u: nat)
    requires u > 0 && |a| == u
    ensures Blocks(a + b, u) == [a] + Blocks(b, u)
  {
    if b == [] {
      assert a + b == a;
    } else {
      assert (a + b)[..u] == a && (a + b)[u..] == b;
    }
  }

  /** The first block of a request and what is left of it, in its blocks and in its output. */
  lemma CryptStep(c: Cipher, op: Op, iv: Bytes, data: Bytes)
    requires c.Valid() && |data| >= c.unit && (!c.mode.Ecb? ==> |iv| == c.unit)
    ensures var u := c.unit;
            var head := CryptBlock(c, op, iv, data[..u]);
            var tail := Crypt(c, op, head.iv, data[u..]);
            && Crypt(c, op, iv, data) == Output(head.data + tail.data, tail.iv)
            && Blocks(data, u) == [data[..u]] + Blocks(data[u..], u)
            && Blocks(head.data + tail.data, u) == [head.data] + Blocks(tail.data, u)
  {
    hide Blocks;
    var u := c.unit;
    CryptBlockLength(c, op, iv, data[..u]);
    hide CryptBlock, Cipher.Valid;
    var head := CryptBlock(c, op, iv, data[..u]);
    BlocksOfSum(data[..u], data[u..], u);
    assert data[..u] + data[u..] == data;
    BlocksOfSum(head.data, Crypt(c, op, head.iv, data[u..]).data, u);
    if |data| == u {
      assert data[..u] == data && head.data + [] == head.data;
    }
  }

  /** The block before block `i`, or the IV. */
  function Before(iv: Bytes, blocks: seq<Bytes>, i: nat): Bytes
    requires i <= |blocks|
  {
    if i == 0 then iv else blocks[i - 1]
  }

  lemma FirstBefore(iv: Bytes, blocks: seq<Bytes>)
    ensures Before(iv, blocks, 0) == iv
  {
  }

  lemma BeforeShifts(iv: Bytes, head: Bytes, tail: seq<Bytes>, i: nat)
    requires i <= |tail|
    ensures Before(iv, [head] + tail, i + 1) == Before(head, tail, i)
  {
  }

  /** ECB: every block by itself, the chaining value untouched. */
  lemma {:induction false} EcbBlocks(c: Cipher, op: Op, iv: Bytes, data: Bytes)
    requires c.Valid() && c.mode.Ecb? && c.Accepts(|data|)
    ensures var x, r := Blocks(data, c.unit), Crypt(c, op, iv, data);
            var y := Blocks(r.data, c.unit);
            && |y| == |x| && r.iv == iv
            && forall i :: 0 <= i < |x| ==> y[i] == if op.Encrypt? then c.enc(x[i]) else c.dec(x[i])
    decreases |data|
  {
    if data != [] {
      hide Blocks;
      AcceptsTail(c, |data|);
      var u := c.unit;
      CryptStep(c, op, iv, data);
      var head := CryptBlock(c, op, iv, data[..u]);
      assert head == Output(if op.Encrypt? then c.enc(data[..u]) else c.dec(data[..u]), iv);
      EcbBlocks(c, op, iv, data[u..]);
      hide Crypt, CryptBlock, Cipher.Valid, Multiple;
      var x, y := Blocks(data[u..], u), Blocks(Crypt(c, op, iv, data[u..]).data, u);
      SeparateBlocks(if op.Encrypt? then c.enc else c.dec, data[..u], head.data, x, y);
    }
  }

  /** A block in front of blocks that are transformed one by one. */
  lemma SeparateBlocks(f: Bytes -> Bytes, first: Bytes, head: Bytes, x: seq<Bytes>, y: seq<Bytes>)
    requires head == f(first) && |x| == |y|
    requires forall i :: 0 <= i < |x| ==> y[i] == f(x[i])
    ensures var x', y' := [first] + x, [head] + y; forall i :: 0 <= i < |x'| ==> y'[i] == f(x'[i])
  {
    var x', y' := [first] + x, [head] + y;
    forall i | 0 <= i < |x'| ensures y'[i] == f(x'[i]) {
      if i > 0 { assert y'[i] == y[i - 1] && x'[i] == x[i - 1]; }
    }
  }

  /** CBC encryption (section 6.2 of NIST SP 800-38A): each block is combined with the ciphertext block
      before it, the first with the IV; the last ciphertext block is the chaining value left behind. */
  lemma {:induction false} CbcEncrypts(c: Cipher, iv: Bytes, data: Bytes)
    requires c.Valid() && c.mode.Cbc? && c.Accepts(|data|) && |iv| == c.unit
    ensures var x, r := Blocks(data, c.unit), Crypt(c, Encrypt, iv, data);
            var y := Blocks(r.data, c.unit);
            && |y| == |x| && r.iv == Before(iv, y, |y|)
            && forall i :: 0 <= i < |x| ==> y[i] == c.enc(Xor(x[i], Before(iv, y, i)))
    decreases |data|
  {
    if data != [] {
      hide Blocks;
      AcceptsTail(c, |data|);
      var u := c.unit;
      CryptBlockLength(c, Encrypt, iv, data[..u]);
      CryptStep(c, Encrypt, iv, data);
      var head := CryptBlock(c, Encrypt, iv, data[..u]);
      assert head == Output(c.enc(Xor(data[..u], iv)), c.enc(Xor(data[..u], iv)));
      CbcEncrypts(c, head.iv, data[u..]);
      hide Crypt, CryptBlock, Xor, Cipher.Valid, Multiple;
      EncryptedChain(c, iv, data[..u], head.data, Blocks(data[u..], u), Blocks(Crypt(c, Encrypt, head.iv, data[u..]).data, u));
    }
  }

  /** A block in front of a chain of ciphertext blocks. */
  lemma EncryptedChain(c: Cipher, iv: Bytes, first: Bytes, head: Bytes, x: seq<Bytes>, y: seq<Bytes>)
    requires head == c.enc(Xor(first, iv)) && |x| == |y|
    requires forall i :: 0 <= i < |x| ==> y[i] == c.enc(Xor(x[i], Before(head, y, i)))
    ensures var x', y' := [first] + x, [head] + y;
            && Before(iv, y', |y'|) == Before(head, y, |y|)
            && forall i :: 0 <= i < |x'| ==> y'[i] == c.enc(Xor(x'[i], Before(iv, y', i)))
  {
    hide Xor, Before;
    FirstBefore(iv, [head] + y);
    BeforeShifts(iv, head, y, |y|);
    var x', y' := [first] + x, [head] + y;
    forall i | 0 <= i < |x'| ensures y'[i] == c.enc(Xor(x'[i], Before(iv, y', i))) {
      if i > 0 {
        BeforeShifts(iv, head, y, i - 1);
        assert y'[i] == y[i - 1] && x'[i] == x[i - 1];
      }
    }
  }

  /** CBC decryption: the mirror image, over the ciphertext blocks as they came in. */
  lemma {:induction false} CbcDecrypts(c: Cipher, iv: Bytes, data: Bytes)
    requires c.Valid() && c.mode.Cbc? && c.Accepts(|data|) && |iv| == c.unit
    ensures var x, r := Blocks(data, c.unit), Crypt(c, Decrypt, iv, data);
            var y := Blocks(r.data, c.unit);
            && |y| == |x| && r.iv == Before(iv, x, |x|)
            && forall i :: 0 <= i < |x| ==> y[i] == Xor(c.dec(x[i]), Before(iv, x, i))
    decreases |data|
  {
    if data != [] {
      hide Blocks;
      AcceptsTail(c, |data|);
      var u := c.unit;
      CryptBlockLength(c, Decrypt, iv, data[..u]);
      CryptStep(c, Decrypt, iv, data);
      var head := CryptBlock(c, Decrypt, iv, data[..u]);
      assert head == Output(Xor(c.dec(data[..u]), iv), data[..u]);
      CbcDecrypts(c, head.iv, data[u..]);
      hide Crypt, CryptBlock, Xor, Cipher.Valid, Multiple;
      DecryptedChain(c, iv, data[..u], head.data, Blocks(data[u..], u), Blocks(Crypt(c, Decrypt, head.iv, data[u..]).data, u));
    }
  }

  /** A block in front of a chain of plaintext blocks. */
  lemma DecryptedChain(c: Cipher, iv: Bytes, first: Bytes, head: Bytes, x: seq<Bytes>, y: seq<Bytes>)
    requires head == Xor(c.dec(first), iv) && |x| == |y|
    requires forall i :: 0 <= i < |x| ==> y[i] == Xor(c.dec(x[i]), Before(first, x, i))
    ensures var x', y' := [first] + x, [head] + y;
            && Before(iv, x', |x'|) == Before(first, x, |x|)
            && forall i :: 0 <= i < |x'| ==> y'[i] == Xor(c.dec(x'[i]), Before(iv, x', i))
  {
    hide Xor, Before;
    FirstBefore(iv, [first] + x);
    BeforeShifts(iv, first, x, |x|);
    var x', y' := [first] + x, [head] + y;
    forall i | 0 <= i < |x'| ensures y'[i] == Xor(c.dec(x'[i]), Before(iv, x', i)) {
      if i > 0 {
        BeforeShifts(iv, first, x, i - 1);
        assert y'[i] == y[i - 1] && x'[i] == x[i - 1];
      }
    }
  }

  // ---- Counters ----

  function Pow256(k: nat): nat { if k == 0 then 1 else 256 * Pow256(k - 1) }

  /** The number that a string of bytes is, most significant byte first. */
  function Number(b: Bytes): nat { if b == [] then 0 else 256 * Number(b[..|b| - 1]) + b[|b| - 1] }

  /** The `k` bytes of a number. */
  function Digits(n: nat, k: nat): (r: Bytes)
    ensures |r| == k
  {
    if k == 0 then [] else Digits(n / 256, k - 1) + [n % 256]
  }

  lemma {:induction false} DigitsOfNumber(b: Bytes)
    ensures Number(b) < Pow256(|b|) && Digits(Number(b), |b|) == b
  {
    if b != [] {
      var n := |b| - 1;
      DigitsOfNumber(b[..n]);
      assert Number(b) / 256 == Number(b[..n]) && Number(b) % 256 == b[n];
      assert b == b[..n] + [b[n]];
    }
  }

  /** Incrementing counts, and wraps around at the width. */
  lemma {:induction false} IncrementCounts(b: Bytes)
    ensures Number(Increment(b)) == if Number(b) + 1 == Pow256(|b|) then 0 else Number(b) + 1
  {
    if b != [] {
      var n := |b| - 1;
      DigitsOfNumber(b[..n]);
      var r := Increment(b);
      if b[n] == 255 {
        IncrementCounts(b[..n]);
        assert r[..|r| - 1] == Increment(b[..n]);
      } else {
        assert r[..|r| - 1] == b[..n];
      }
    }
  }

  /** The counter block that is `i` further than `iv`. */
  function Counter(iv: Bytes, i: nat): Bytes {
    PowPositive(|iv|);
    Digits((Number(iv) + i) % Pow256(|iv|), |iv|)
  }

  lemma PowPositive(k: nat)
    ensures Pow256(k) > 0
  {
  }

  lemma CounterSteps(iv: Bytes, i: nat)
    ensures Counter(iv, 0) == iv && Counter(Increment(iv), i) == Counter(iv, i + 1)
  {
    var p, n := Pow256(|iv|), Number(iv);
    PowPositive(|iv|);
    DigitsOfNumber(iv);
    ModSmall(n, p);
    IncrementCounts(iv);
    if n + 1 == p { ModStep(i, p); }
  }

  /** CTR (section 6.5 of NIST SP 800-38A), in both directions: each block is combined with the
      encipherment of a counter, which starts at the IV and is a big-endian number that wraps around. */
  lemma {:induction false} CtrCounts(c: Cipher, op: Op, iv: Bytes, data: Bytes)
    requires c.Valid() && c.mode.Ctr? && |iv| == c.unit
    ensures var x, r := Blocks(data, c.unit), Crypt(c, op, iv, data);
            var y := Blocks(r.data, c.unit);
            && |y| == |x| && r.iv == Counter(iv, |x|)
            && forall i :: 0 <= i < |x| ==> y[i] == Xor(x[i], c.enc(Counter(iv, i)))
    decreases |data|
  {
    hide Counter, Xor;
    CounterSteps(iv, 0);
    CounterSteps(Increment(iv), 0);
    var u := c.unit;
    if |data| > u {
      hide Blocks;
      CryptStep(c, op, iv, data);
      var head := CryptBlock(c, op, iv, data[..u]);
      assert head == Output(Xor(data[..u], c.enc(iv)), Increment(iv));
      CtrCounts(c, op, head.iv, data[u..]);
      hide Crypt, CryptBlock, Increment, Cipher.Valid, Multiple;
      CountedChain(c, iv, data[..u], head.data, Blocks(data[u..], u), Blocks(Crypt(c, op, head.iv, data[u..]).data, u));
    } else if data != [] {
      CryptBlockLength(c, op, iv, data);
    }
  }

  /** A block in front of blocks that are combined with counters. */
  lemma CountedChain(c: Cipher, iv: Bytes, first: Bytes, head: Bytes, x: seq<Bytes>, y: seq<Bytes>)
    requires head == Xor(first, c.enc(iv)) && |x| == |y|
    requires forall i :: 0 <= i < |x| ==> y[i] == Xor(x[i], c.enc(Counter(Increment(iv), i)))
    ensures var x', y' := [first] + x, [head] + y;
            && Counter(iv, |x'|) == Counter(Increment(iv), |x|)
            && forall i :: 0 <= i < |x'| ==> y'[i] == Xor(x'[i], c.enc(Counter(iv, i)))
  {
    hide Xor, Counter;
    CounterSteps(iv, |x|);
    var x', y' := [first] + x, [head] + y;
    forall i | 0 <= i < |x'| ensures y'[i] == Xor(x'[i], c.enc(Counter(iv, i))) {
      if i > 0 {
        CounterSteps(iv, i - 1);
        assert y'[i] == y[i - 1] && x'[i] == x[i - 1];
      }
    }
  }
}
