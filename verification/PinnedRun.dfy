/**
 The zero-copy path as a whole (main.c over zc.c): pages are pinned, lists built over them, the data
 processed through the lists, and the pages given back. Reading memory through a list that covers a
 range reads the range, and writing through it writes the range, so the path is the one pass that
 `RunEngine` says it is.
 */
module PinnedRun {
  import opened Bytes
  import opened BlockModes
  import opened HashCore
  import opened RunEngine
  import opened RunSession
  import opened Scatterlist
  import opened ZeroCopy

  ghost predicate Addresses(mem: Bytes, addrs: seq<nat>) { forall i :: 0 <= i < |addrs| ==> addrs[i] < |mem| }

  /** The bytes at these addresses, in order. */
  ghost function Gather(mem: Bytes, addrs: seq<nat>): (r: Bytes)
    requires Addresses(mem, addrs)
    ensures |r| == |addrs|
  {
    seq(|addrs|, i requires 0 <= i < |addrs| => mem[addrs[i]])
  }

  /** Memory with `data` written at these addresses, one byte after the other. */
  ghost function Scatter(mem: Bytes, addrs: seq<nat>, data: Bytes): (r: Bytes)
    requires Addresses(mem, addrs) && |data| == |addrs|
    ensures |r| == |mem|
    decreases |addrs|
  {
    if addrs == [] then mem
    else
      var n := |addrs| - 1;
      Scatter(mem, addrs[..n], data[..n])[addrs[n] := data[n]]
  }

  lemma GatherRange(mem: Bytes, a: nat, n: nat)
    requires a + n <= |mem|
    ensures Addresses(mem, Range(a, n)) && Gather(mem, Range(a, n)) == mem[a..a + n]
  {
  }

  lemma {:induction false} ScatterRange(mem: Bytes, a: nat, data: Bytes)
    requires a + |data| <= |mem|
    ensures Addresses(mem, Range(a, |data|)) && Scatter(mem, Range(a, |data|), data) == Splice(mem, a, data)
    decreases |data|
  {
    if data != [] {
      var n := |data| - 1;
      RangeDrop(a, |data|, n);
      ScatterRange(mem, a, data[..n]);
      SpliceJoin(mem, a, data[..n], [data[n]]);
      assert data[..n] + [data[n]] == data;
    } else {
      assert Range(a, 0) == [] && mem[a..a + 0] == data;
      SpliceSame(mem, a, 0);
    }
  }

  /** The list at `i` covers `n` addresses from `a` on, all of them mapped. */
  ghost predicate Lists(mem: Bytes, sg: seq<Entry>, i: nat, a: nat, n: nat) {
    Terminated(sg, i) && Covers(sg, i) == Range(a, n) && Addresses(mem, Covers(sg, i))
  }

  /** What a pass leaves when its input is read through the list at `i` and its output written through
      the list at `j`, if there is one. */
  ghost function ThroughLists(cfg: Config, st: State, mem: Bytes, op: Op, sg: seq<Entry>, i: nat, j: Option<nat>): (r: Moved)
    requires cfg.Valid() && st.Valid() && (NeedsDst(cfg, op) ==> j.Some?)
    requires Terminated(sg, i) && Addresses(mem, Covers(sg, i)) && cfg.Accepts(|Covers(sg, i)|)
    requires j.Some? ==> Terminated(sg, j.value) && Addresses(mem, Covers(sg, j.value)) && |Covers(sg, i)| == |Covers(sg, j.value)|
  {
    var prior := if j.Some? then Gather(mem, Covers(sg, j.value)) else [];
    var p := PassOf(cfg, st, op, Gather(mem, Covers(sg, i)), prior);
    Moved(Ok, p.st, if j.Some? then Scatter(mem, Covers(sg, j.value), p.data) else mem)
  }

  /** Lists that cover the source and the destination make the pass the zero-copy transfer. */
  lemma ListsMakeTransfer(cfg: Config, st: State, mem: Bytes, op: Op, src: nat, dst: nat, n: nat,
                          sg: seq<Entry>, i: nat, j: Option<nat>)
    requires cfg.Valid() && st.Valid() && cfg.Accepts(n) && Pinnable(mem, src, dst, n) && (NeedsDst(cfg, op) ==> dst != 0)
    requires (j.Some? <==> dst != 0) && Terminated(sg, i) && Covers(sg, i) == Range(src, n)
    requires j.Some? ==> Terminated(sg, j.value) && Covers(sg, j.value) == Range(dst, n)
    ensures Lists(mem, sg, i, src, n) && (j.Some? ==> Lists(mem, sg, j.value, dst, n))
    ensures ThroughLists(cfg, st, mem, op, sg, i, j) == ZcTransfer(cfg, st, mem, op, src, dst, n)
  {
    hide PassOf, Covers, Gather, Scatter, Splice, Terminated, Cipher.Valid, Hash.Valid;
    GatherRange(mem, src, n);
    if j.Some? {
      GatherRange(mem, dst, n);
      ScatterRange(mem, dst, PassOf(cfg, st, op, mem[src..src + n], mem[dst..dst + n]).data);
    }
  }

  /** The pages that the ranges of a request touch. */
  function PagesUsed(cop: CryptOp): nat {
    PageTable.RangePages(cop.src, cop.len) + if cop.src == cop.dst then 0 else PageTable.RangePages(cop.dst, cop.len)
  }

  /** get_userbuf gets its arrays and pins every page of both ranges. */
  predicate AllPinned(arraySize: nat, cop: CryptOp, grow: (bool, bool), srcGot: nat, dstGot: nat) {
    && (PagesUsed(cop) <= arraySize || (grow.0 && grow.1))
    && srcGot >= PageTable.RangePages(cop.src, cop.len)
    && (cop.src != cop.dst ==> dstGot >= PageTable.RangePages(cop.dst, cop.len))
  }

  /** __crypto_run_zc over real lists: the outcome of processing the data through the lists that
      get_userbuf made, after which every page pinned has been given back once; or, when get_userbuf fails, the
      outcome of the copying path. */
  method RunZeroCopy(ses: Session, table: PageTable, mem: array<Byte>, cop: CryptOp,
                     grow: (bool, bool), srcGot: nat, dstGot: nat, page: bool)
    returns (ret: Status, ghost lists: seq<Entry>, ghost srcSg: nat, ghost dstSg: Option<nat>)
    requires ses.Valid() && table.Valid() && ses.cfg.Accepts(cop.len) && cop.len > 0 && cop.src != 0
    requires NeedsDst(ses.cfg, cop.op) ==> cop.dst != 0
    requires ses as object != table && mem as object != table.pages && mem as object != table.sg
    // the kernel pins what is mapped
    requires srcGot >= PageCount(cop.src, cop.len) ==> cop.src + cop.len <= mem.Length
    requires cop.dst != 0 && cop.src != cop.dst && dstGot >= PageCount(cop.dst, cop.len) ==> cop.dst + cop.len <= mem.Length
    modifies ses, mem, table, table.pages, table.sg
    ensures ses.Valid() && table.Valid()
    ensures var n, was := cop.len, old(mem[..]);
            if AllPinned(old(table.arraySize), cop, grow, srcGot, dstGot) then
              && Pinnable(was, cop.src, cop.dst, n)
              && Lists(was, lists, srcSg, cop.src, n) && (dstSg.Some? <==> cop.dst != 0)
              && (dstSg.Some? ==> Lists(was, lists, dstSg.value, cop.dst, n))
              && Moved(ret, ses.St(), mem[..]) == ThroughLists(ses.cfg, old(ses.St()), was, cop.op, lists, srcSg, dstSg)
                                               == ZcTransfer(ses.cfg, old(ses.St()), was, cop.op, cop.src, cop.dst, n)
              && table.pins == old(table.pins) + PageTable.Slots(table.pages[..], 0, PagesUsed(cop))
              && table.released == old(table.released) + PageTable.Slots(table.pages[..], 0, PagesUsed(cop))
              && table.usedPages == 0
            else
              Moved(ret, ses.St(), mem[..]) ==
              if page then StdTransfer(ses.cfg, old(ses.St()), was, cop.op, cop.src, cop.dst, n)
              else Moved(ENOMEM, old(ses.St()), was)
  {
    hide ZcTransfer, StdTransfer, ThroughLists, Covers, Terminated, Range, PageCount, PageTable.Slots, Config.Valid;
    lists, srcSg, dstSg := [], 0, None;
    var got, i, j, past := table.GetUserbuf(cop.src, cop.len, cop.dst, cop.len, grow, srcGot, dstGot);
    if !got.Ok? {
      ret := ses.RunStd(mem, cop, page);
      return;
    }
    lists, srcSg, dstSg := table.sg[..], i.value, j;
    ListsMakeTransfer(ses.cfg, ses.St(), mem[..], cop.op, cop.src, cop.dst, cop.len, lists, srcSg, dstSg);
    ses.RunPinned(mem, cop);
    table.ReleaseUserPages();
    ret := Ok;
  }
}
