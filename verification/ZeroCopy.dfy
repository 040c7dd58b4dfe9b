/**
 Pinned user buffers (zc.c, zc.h) and the SRTP views built on them (authenc.c). A session owns two
 growing arrays, page slots and scatterlist entries; requests fill slices of them.
 */
module ZeroCopy {
  import opened Bytes
  import opened Scatterlist

  const DEFAULT_PREALLOC_PAGES := 32

  /** The number of pages that the range [buf, buf + len) touches. */
  function PageCount(buf: nat, len: nat): nat {
    if len == 0 then 0 else (buf + len - 1) / PAGE_SIZE - buf / PAGE_SIZE + 1
  }

  /** Reading more of the same buffer touches at least as many pages: the larger of two page counts
      is the count of the longer range. */
  lemma PageCountOfLonger(buf: nat, a: nat, b: nat)
    ensures (if PageCount(buf, a) < PageCount(buf, b) then PageCount(buf, b) else PageCount(buf, a))
            == PageCount(buf, if a < b then b else a)
  {
  }

  /** Where page `i` of a range begins, relative to the range: the tiles are page-aligned inside. */
  lemma TileBounds(addr: nat, len: nat, i: nat, done: nat)
    requires 0 < i && 0 < len && done <= len && addr + done <= (addr / PAGE_SIZE + i) * PAGE_SIZE
    requires done < len ==> addr + done == (addr / PAGE_SIZE + i) * PAGE_SIZE
    requires done == len ==> (addr / PAGE_SIZE + i - 1) * PAGE_SIZE < addr + done
    ensures done < len ==> i < PageCount(addr, len)
    ensures done == len ==> i == PageCount(addr, len)
  {
  }

  class PageTable {
    var pages: array<nat>
    var sg: array<Entry>
    var arraySize: nat
    var usedPages: nat
    var readonlyPages: nat
    // pages pinned and pages given back so far; the difference is what is held
    ghost var pins: multiset<nat>
    ghost var released: multiset<nat>

    ghost predicate Valid()
      reads this
    {
      0 < arraySize <= pages.Length && arraySize <= sg.Length
    }

    constructor ()
      ensures Valid() && arraySize == DEFAULT_PREALLOC_PAGES && usedPages == 0 && pins == released == multiset{}
      ensures fresh(pages) && fresh(sg)
    {
      pages := new nat[DEFAULT_PREALLOC_PAGES](_ => 0);
      sg := new Entry[DEFAULT_PREALLOC_PAGES](_ => Entry(0, 0, 0, false));
      arraySize, usedPages, readonlyPages, pins, released := DEFAULT_PREALLOC_PAGES, 0, 0, multiset{}, multiset{};
    }

    /** adjust_sg_array: doubles the size until `pagecount` fits and reallocates both arrays. Whichever
        allocation fails, every slot below the recorded size stays valid in both. */
    method AdjustSgArray(pagecount: nat, pagesOk: bool, sgOk: bool) returns (ret: Status)
      requires Valid()
      modifies this`pages, this`sg, this`arraySize
      ensures Valid()
      ensures pages == old(pages) || fresh(pages)
      ensures sg == old(sg) || fresh(sg)
      ensures ret.Ok? || ret.ENOMEM?
      ensures ret.Ok? <==> pagesOk && sgOk
      ensures ret.Ok? ==> pagecount <= arraySize
      ensures if ret.Ok? && old(arraySize) < pagecount then arraySize < 2 * pagecount else arraySize == old(arraySize)
      ensures pages[..old(arraySize)] == old(pages[..arraySize])
      ensures sg[..old(arraySize)] == old(sg[..arraySize])
    {
      var size := arraySize;
      while size < pagecount
        invariant arraySize <= size && (size == arraySize || (arraySize < pagecount && size < 2 * pagecount))
        decreases pagecount - size
      {
        size := 2 * size;
      }
      if !pagesOk {
        return ENOMEM;
      }
      var p := new nat[size](i requires 0 <= i reads this, pages => if i < pages.Length then pages[i] else 0);
      assert p[..arraySize] == pages[..arraySize];
      pages := p;
      if !sgOk {
        return ENOMEM;
      }
      var s := new Entry[size](i requires 0 <= i reads this, sg => if i < sg.Length then sg[i] else Entry(0, 0, 0, false));
      assert s[..arraySize] == sg[..arraySize];
      sg := s;
      arraySize := size;
      ret := Ok;
    }

    /** The pages named by the slots [lo, hi). */
    static ghost function Slots(pages: seq<nat>, lo: nat, hi: nat): multiset<nat> {
      if lo <= hi <= |pages| then multiset(pages[lo..hi]) else multiset{}
    }

    /** The slots from `at` on hold the first `n` pages that a range at `addr` touches. */
    static ghost predicate PagesOf(pages: seq<nat>, at: nat, addr: nat, n: nat) {
      at + n <= |pages| && forall i :: at <= i < at + n ==> pages[i] == addr / PAGE_SIZE + (i - at)
    }

    static lemma PagesFrame(was: seq<nat>, now: seq<nat>, at: nat, addr: nat, n: nat, r: nat)
      requires PagesOf(was, at, addr, n) && |now| == |was| && at + n <= r && forall i :: 0 <= i < r && i < |was| ==> now[i] == was[i]
      ensures PagesOf(now, at, addr, n)
    {
    }

    /** get_user_pages: pins the pages of the range one by one, as many as the kernel manages (`got`),
        and returns their number. Those stay pinned also when some are missing. */
    method PinPages(at: nat, addr: nat, count: nat, got: nat) returns (n: nat)
      requires Valid() && at + count <= arraySize
      modifies pages, this`pins
      ensures n == Min(got, count)
      ensures forall i :: at <= i < at + n ==> pages[i] == addr / PAGE_SIZE + (i - at)
      ensures forall i :: 0 <= i < pages.Length && !(at <= i < at + n) ==> pages[i] == old(pages[i])
      ensures pins == old(pins) + Slots(pages[..], at, at + n)
    {
      hide Slots;
      n := 0;
      ghost var held := pins;
      NoSlots(held, pages[..], at);
      while n < count && n < got
        invariant n <= count && n <= got
        invariant pins == held + Slots(pages[..], at, at + n)
        invariant forall j :: at <= j < at + n ==> pages[j] == addr / PAGE_SIZE + (j - at)
        invariant forall j :: 0 <= j < pages.Length && !(at <= j < at + n) ==> pages[j] == old(pages[j])
      {
        ghost var before, page := pages[..], addr / PAGE_SIZE + n;
        pages[at + n] := addr / PAGE_SIZE + n;
        assert pages[..] == before[at + n := page];
        SlotsGrow(held, before, at, n, page);
        pins := pins + multiset{page};
        n := n + 1;
      }
    }

    /** sg_init_table on the slice of `count` entries at `at`. */
    method InitTable(at: nat, count: nat)
      requires Valid() && at + count <= arraySize
      modifies sg
      ensures forall i :: at <= i < at + count ==> sg[i] == Entry(0, 0, 0, i == at + count - 1)
      ensures forall i :: 0 <= i < sg.Length && !(at <= i < at + count) ==> sg[i] == old(sg[i])
    {
      for i := 0 to count
        invariant forall j :: at <= j < at + i ==> sg[j] == Entry(0, 0, 0, j == at + count - 1)
        invariant forall j :: 0 <= j < sg.Length && !(at <= j < at + i) ==> sg[j] == old(sg[j])
      {
        sg[at + i] := Entry(0, 0, 0, i == count - 1);
      }
    }

    /** One fragment more: the entry at `to` continues the range. */
    method SetEntry(at: nat, to: nat, addr: nat, done: nat, page: nat, offset: nat, pglen: nat)
      requires at <= to < sg.Length && Flat(sg[..], at, to) == Range(addr, done)
      requires page * PAGE_SIZE + offset == addr + done
      modifies sg
      ensures sg[to] == Entry(page, offset, pglen, old(sg[to].last))
      ensures forall i :: 0 <= i < sg.Length && i != to ==> sg[i] == old(sg[i])
      ensures Flat(sg[..], at, to + 1) == Range(addr, done + pglen)
    {
      ghost var before := sg[..];
      sg[to] := Entry(page, offset, pglen, sg[to].last);
      FlatFrame(before, sg[..], at, to);
      RangeJoin(addr, done, pglen);
    }

    /** An entry for a part of one page, which starts at the page's start unless it is the first. */
    static predicate Fragment(e: Entry, page: nat, first: bool) {
      e.page == page && (first || e.offset == 0) && e.offset + e.length <= PAGE_SIZE
    }

    /** The scatterlist part of __get_userbuf: the page slots from `at` on become entries whose
        fragments tile the range exactly. */
    method FillEntries(at: nat, addr: nat, len0: nat, count: nat)
      requires Valid() && at + count <= arraySize
      requires len0 > 0 && count == PageCount(addr, len0)
      requires forall i :: at <= i < at + count ==> pages[i] == addr / PAGE_SIZE + (i - at)
      modifies sg
      ensures forall i :: 0 <= i < sg.Length && !(at <= i < at + count) ==> sg[i] == old(sg[i])
      ensures count > 0 && Terminated(sg[..], at) && End(sg[..], at) == at + count - 1
      ensures Covers(sg[..], at) == Range(addr, len0)
      ensures forall i :: at <= i < at + count ==> Fragment(sg[i], pages[i], i == at)
    {
      hide Flat, Covers, Terminated, End, Range;
      InitTable(at, count);
      var pglen := Min(PAGE_SIZE - addr % PAGE_SIZE, len0);
      EmptyFlat(sg[..], at, addr);
      SetEntry(at, at, addr, 0, pages[at], addr % PAGE_SIZE, pglen);
      var i, len := 1, len0 - pglen;
      TileBounds(addr, len0, i, pglen);
      while len > 0
        invariant 1 <= i <= count && 0 <= len < len0
        invariant len > 0 ==> addr + (len0 - len) == (addr / PAGE_SIZE + i) * PAGE_SIZE && i < count
        invariant len == 0 ==> i == count
        invariant forall j :: at <= j < at + count ==> sg[j].last == (j == at + count - 1)
        invariant forall j :: 0 <= j < sg.Length && !(at <= j < at + count) ==> sg[j] == old(sg[j])
        invariant forall j :: at <= j < at + i ==> Fragment(sg[j], pages[j], j == at)
        invariant Flat(sg[..], at, at + i) == Range(addr, len0 - len)
        decreases len
      {
        pglen := Min(PAGE_SIZE, len);
        SetEntry(at, at + i, addr, len0 - len, pages[at + i], 0, pglen);
        i, len := i + 1, len - pglen;
        TileBounds(addr, len0, i, len0 - len);
      }
      CoversFlat(sg[..], at, at + count - 1);
    }

    static lemma EmptyFlat(s: seq<Entry>, at: nat, addr: nat)
      requires at <= |s|
      ensures Flat(s, at, at) == Range(addr, 0)
    {
    }

    /** __get_userbuf into the slice of both arrays that starts at `at`. Too few pages are an error, and
        those that were pinned stay pinned. An empty range has the entry at `at` marked; `past` says that
        there is no such entry. */
    method GetUserPages(at: nat, addr: nat, len: nat, count: nat, got: nat) returns (ret: Status, past: bool)
      requires Valid() && at + count <= arraySize
      requires count == PageCount(addr, len) && (addr == 0 ==> len == 0)
      modifies sg, pages, this`pins
      ensures forall i :: 0 <= i < sg.Length && !(at <= i < at + (if count == 0 then 1 else count)) ==> sg[i] == old(sg[i])
      ensures forall i :: 0 <= i < pages.Length && !(at <= i < at + count) ==> pages[i] == old(pages[i])
      ensures ret.Ok? || ret.EINVAL?
      ensures ret.Ok? <==> len == 0 || got >= count
      ensures past <==> len == 0 && at == arraySize
      ensures pins == old(pins) + Slots(pages[..], at, at + Min(got, count)) && PagesOf(pages[..], at, addr, Min(got, count))
      ensures ret.Ok? && len > 0 ==>
                Terminated(sg[..], at) && End(sg[..], at) == at + count - 1 && Covers(sg[..], at) == Range(addr, len)
    {
      CountPositive(addr, len);
      NoSlots(pins, pages[..], at);
      hide Covers, Terminated, End, Range, Slots, PageCount;
      if count == 0 || len == 0 || addr == 0 {
        if at == arraySize {
          return Ok, true;
        }
        sg[at] := sg[at].(last := true);
        return Ok, false;
      }
      past := false;
      ret := PinAndFill(at, addr, len, count, got);
    }

    /** The same for a range that is not empty. */
    method PinAndFill(at: nat, addr: nat, len: nat, count: nat, got: nat) returns (ret: Status)
      requires Valid() && at + count <= arraySize && count == PageCount(addr, len) && len > 0
      modifies sg, pages, this`pins
      ensures forall i :: 0 <= i < sg.Length && !(at <= i < at + count) ==> sg[i] == old(sg[i])
      ensures forall i :: 0 <= i < pages.Length && !(at <= i < at + count) ==> pages[i] == old(pages[i])
      ensures ret == if got >= count then Ok else EINVAL
      ensures pins == old(pins) + Slots(pages[..], at, at + Min(got, count)) && PagesOf(pages[..], at, addr, Min(got, count))
      ensures ret.Ok? ==> Terminated(sg[..], at) && End(sg[..], at) == at + count - 1 && Covers(sg[..], at) == Range(addr, len)
    {
      hide Covers, Terminated, End, Range, Slots, PageCount;
      var n := PinPages(at, addr, count, got);
      if n != count {
        return EINVAL;
      }
      FillEntries(at, addr, len, count);
      ret := Ok;
    }

    /** release_user_pages: every slot in use is given back once. */
    method ReleaseUserPages()
      requires Valid() && usedPages <= arraySize
      modifies this`usedPages, this`readonlyPages, this`released
      ensures usedPages == 0 && released == old(released) + Slots(pages[..], 0, old(usedPages))
    {
      ghost var slots, given: multiset<nat> := pages[..][..usedPages], multiset{};
      for i := 0 to usedPages
        invariant given == multiset(slots[..i])
        invariant usedPages == old(usedPages) && released == old(released)
      {
        assert slots[..i + 1] == slots[..i] + [slots[i]];
        if readonlyPages != 0 {
          readonlyPages := readonlyPages - 1;
        }
        given := given + multiset{pages[i]};
      }
      assert slots[..|slots|] == slots;
      released := released + given;
      usedPages := 0;
    }

    static lemma SlotsGrow(held: multiset<nat>, pages: seq<nat>, at: nat, n: nat, page: nat)
      requires at + n < |pages|
      ensures held + Slots(pages[at + n := page], at, at + n + 1) == held + Slots(pages, at, at + n) + multiset{page}
    {
      var now := pages[at + n := page];
      assert now[at..at + n + 1] == pages[at..at + n] + [page];
    }

    static lemma NoSlots(held: multiset<nat>, pages: seq<nat>, k: nat)
      ensures held + Slots(pages, k, k) == held
    {
    }

    static lemma SlotsJoin(held: multiset<nat>, was: seq<nat>, now: seq<nat>, r: nat, n: nat)
      requires r <= n <= |now| == |was| && forall i :: 0 <= i < r ==> now[i] == was[i]
      ensures held + Slots(was, 0, r) + Slots(now, r, n) == held + Slots(now, 0, n)
    {
      assert now[0..n] == was[0..r] + now[r..n];
    }

    /** The destination part of an out-of-place get_userbuf, behind the source's slots. When it fails,
        all slots that were to be used are released, whether or not their pages were pinned. */
    method AddDestination(dst: nat, dstLen: nat, got: nat) returns (ret: Status, past: bool)
      requires Valid() && dst != 0 && readonlyPages <= usedPages <= arraySize
      requires usedPages - readonlyPages == PageCount(dst, dstLen)
      modifies this`usedPages, this`readonlyPages, this`pins, this`released, pages, sg
      ensures forall i :: 0 <= i < old(readonlyPages) ==> sg[i] == old(sg[i])
      ensures forall i :: 0 <= i < old(readonlyPages) ==> pages[i] == old(pages[i])
      ensures ret.Ok? || ret.EINVAL?
      ensures ret.Ok? <==> dstLen == 0 || got >= PageCount(dst, dstLen)
      ensures past <==> dstLen == 0 && old(readonlyPages) == arraySize
      ensures ret.Ok? ==> usedPages == old(usedPages) && readonlyPages == old(readonlyPages)
      ensures var n := Min(got, PageCount(dst, dstLen));
              pins == old(pins) + Slots(pages[..], old(readonlyPages), old(readonlyPages) + n)
              && PagesOf(pages[..], old(readonlyPages), dst, n)
      ensures released == if ret.Ok? then old(released) else old(released) + Slots(pages[..], 0, old(usedPages))
      ensures ret.Ok? && dstLen > 0 ==> Terminated(sg[..], readonlyPages) && Covers(sg[..], readonlyPages) == Range(dst, dstLen)
    {
      hide Covers, Terminated, End, Range, PageCount, Slots, PagesOf;
      CountPositive(dst, dstLen);
      ret, past := GetUserPages(readonlyPages, dst, dstLen, usedPages - readonlyPages, got);
      if !ret.Ok? {
        ReleaseUserPages();
      }
    }

    /** The slots hold, from the first on, the pages pinned of the source and, if those are all, the
        pages pinned of the destination. */
    static ghost predicate PinnedSlots(pages: seq<nat>, src: nat, a: nat, srcGot: nat, dst: nat, b: nat, dstGot: nat) {
      PagesOf(pages, 0, src, Min(srcGot, a)) && (srcGot >= a ==> PagesOf(pages, a, dst, Min(dstGot, b)))
    }

    /** How many slots that is. */
    static function PinnedCount(a: nat, srcGot: nat, b: nat, dstGot: nat): nat {
      if srcGot < a then srcGot else a + Min(dstGot, b)
    }

    static lemma JoinPinned(held: multiset<nat>, was: seq<nat>, now: seq<nat>, src: nat, a: nat, srcGot: nat, dst: nat, b: nat, dstGot: nat)
      requires |now| == |was| && a + Min(dstGot, b) <= |now| && srcGot >= a && forall i :: 0 <= i < a ==> now[i] == was[i]
      requires PagesOf(was, 0, src, a) && PagesOf(now, a, dst, Min(dstGot, b))
      ensures PinnedSlots(now, src, a, srcGot, dst, b, dstGot)
      ensures held + Slots(was, 0, a) + Slots(now, a, a + Min(dstGot, b)) == held + Slots(now, 0, PinnedCount(a, srcGot, b, dstGot))
    {
      SlotsJoin(held, was, now, a, a + Min(dstGot, b));
      PagesFrame(was, now, 0, src, a, a);
    }

    /** The out-of-place part of get_userbuf: source pages first, destination pages behind them. */
    method GetSeparate(src: nat, srcLen: nat, dst: nat, dstLen: nat, srcGot: nat, dstGot: nat)
      returns (ret: Status, srcSg: Option<nat>, dstSg: Option<nat>, past: bool)
      requires Valid() && (src == 0 ==> srcLen == 0) && (dst == 0 ==> dstLen == 0)
      requires readonlyPages == PageCount(src, srcLen) && usedPages == readonlyPages + PageCount(dst, dstLen) <= arraySize
      modifies this`usedPages, this`readonlyPages, this`pins, this`released, pages, sg
      ensures Valid() && (ret.Ok? || ret.EINVAL?)
      ensures ret.Ok? <==> srcGot >= PageCount(src, srcLen) && dstGot >= PageCount(dst, dstLen)
      ensures past <==> dst != 0 && dstLen == 0 && srcGot >= PageCount(src, srcLen) == arraySize
      ensures ret.Ok? ==> srcSg == (if src == 0 then None else Some(0)) && dstSg == (if dst == 0 then None else Some(readonlyPages))
      ensures ret.Ok? ==> usedPages == old(usedPages) && readonlyPages == old(readonlyPages)
      ensures var a, b := PageCount(src, srcLen), PageCount(dst, dstLen);
              && PinnedSlots(pages[..], src, a, srcGot, dst, b, dstGot)
              && pins == old(pins) + Slots(pages[..], 0, PinnedCount(a, srcGot, b, dstGot))
              && released == if srcGot >= a && dstGot < b then old(released) + Slots(pages[..], 0, a + b) else old(released)
      ensures ret.Ok? && srcLen > 0 ==>
                Terminated(sg[..], 0) && Covers(sg[..], 0) == Range(src, srcLen) && End(sg[..], 0) == readonlyPages - 1
      ensures ret.Ok? && dstLen > 0 ==>
                Terminated(sg[..], readonlyPages) && Covers(sg[..], readonlyPages) == Range(dst, dstLen)
    {
      hide Covers, Terminated, End, Range, PageCount, Slots, PagesOf, PinnedSlots, PinnedCount;
      CountPositive(src, srcLen);
      CountPositive(dst, dstLen);
      dstSg, past := None, false;
      ghost var held := pins;
      ret, srcSg := AddFirst(src, srcLen, srcGot);
      if !ret.Ok? {
        SourceOnly(pages[..], src, readonlyPages, srcGot, dst, PageCount(dst, dstLen), dstGot);
        return;
      }
      ghost var before, was := sg[..], pages[..];
      ret, dstSg, past := AddSecond(dst, dstLen, dstGot);
      JoinPinned(held, was, pages[..], src, old(readonlyPages), srcGot, dst, PageCount(dst, dstLen), dstGot);
      if ret.Ok? && srcLen > 0 {
        CoversFrame(before, sg[..], 0);
      }
    }

    /** The source, if there is one. */
    method AddFirst(src: nat, srcLen: nat, got: nat) returns (ret: Status, srcSg: Option<nat>)
      requires Valid() && (src == 0 ==> srcLen == 0) && readonlyPages == PageCount(src, srcLen) <= arraySize
      modifies this`pins, pages, sg
      ensures ret == if got >= readonlyPages then Ok else EINVAL
      ensures ret.Ok? ==> srcSg == if src == 0 then None else Some(0)
      ensures pins == old(pins) + Slots(pages[..], 0, Min(got, readonlyPages)) && PagesOf(pages[..], 0, src, Min(got, readonlyPages))
      ensures ret.Ok? && srcLen > 0 ==>
                Terminated(sg[..], 0) && Covers(sg[..], 0) == Range(src, srcLen) && End(sg[..], 0) == readonlyPages - 1
    {
      hide Covers, Terminated, End, Range, PageCount, Slots, PagesOf;
      CountPositive(src, srcLen);
      NoPages(pins, pages[..], src);
      ret, srcSg := Ok, None;
      if src != 0 {
        var past;
        ret, past := GetUserPages(0, src, srcLen, readonlyPages, got);
        srcSg := Some(0);
      }
    }

    /** The destination, if there is one. */
    method AddSecond(dst: nat, dstLen: nat, got: nat) returns (ret: Status, dstSg: Option<nat>, past: bool)
      requires Valid() && (dst == 0 ==> dstLen == 0) && readonlyPages <= usedPages <= arraySize
      requires usedPages - readonlyPages == PageCount(dst, dstLen)
      modifies this`usedPages, this`readonlyPages, this`pins, this`released, pages, sg
      ensures forall i :: 0 <= i < old(readonlyPages) ==> sg[i] == old(sg[i])
      ensures forall i :: 0 <= i < old(readonlyPages) ==> pages[i] == old(pages[i])
      ensures ret.Ok? || ret.EINVAL?
      ensures ret.Ok? <==> got >= PageCount(dst, dstLen)
      ensures past <==> dst != 0 && dstLen == 0 && old(readonlyPages) == arraySize
      ensures dstSg == if dst == 0 then None else Some(old(readonlyPages))
      ensures ret.Ok? ==> usedPages == old(usedPages) && readonlyPages == old(readonlyPages)
      ensures var n := Min(got, PageCount(dst, dstLen));
              pins == old(pins) + Slots(pages[..], old(readonlyPages), old(readonlyPages) + n)
              && PagesOf(pages[..], old(readonlyPages), dst, n)
      ensures released == if ret.Ok? then old(released) else old(released) + Slots(pages[..], 0, old(usedPages))
      ensures ret.Ok? && dstLen > 0 ==> Terminated(sg[..], readonlyPages) && Covers(sg[..], readonlyPages) == Range(dst, dstLen)
    {
      hide Covers, Terminated, End, Range, PageCount, Slots, PagesOf;
      CountPositive(dst, dstLen);
      NoSlots(pins, pages[..], readonlyPages);
      EmptyPagesOf(pages[..], readonlyPages, dst);
      ret, dstSg, past := Ok, None, false;
      if dst != 0 {
        dstSg := Some(readonlyPages);
        ret, past := AddDestination(dst, dstLen, got);
      }
    }

    static lemma SourceOnly(pages: seq<nat>, src: nat, a: nat, srcGot: nat, dst: nat, b: nat, dstGot: nat)
      requires PagesOf(pages, 0, src, Min(srcGot, a))
      ensures srcGot < a ==> PinnedSlots(pages, src, a, srcGot, dst, b, dstGot) && PinnedCount(a, srcGot, b, dstGot) == srcGot
    {
    }

    static lemma EmptyPagesOf(pages: seq<nat>, at: nat, addr: nat)
      ensures at <= |pages| ==> PagesOf(pages, at, addr, 0)
    {
    }

    static lemma NoPages(held: multiset<nat>, pages: seq<nat>, addr: nat)
      ensures held + Slots(pages, 0, 0) == held && PagesOf(pages, 0, addr, 0)
    {
    }

    /** The in-place part of get_userbuf: one list over the longer of the two lengths. */
    method GetInPlace(src: nat, srcLen0: nat, dstLen: nat, got: nat) returns (ret: Status)
      requires Valid() && usedPages <= arraySize && (src == 0 ==> srcLen0 == dstLen == 0)
      requires usedPages == if PageCount(src, srcLen0) < PageCount(src, dstLen) then PageCount(src, dstLen) else PageCount(src, srcLen0)
      modifies this`pins, pages, sg
      ensures ret.Ok? || ret.EINVAL?
      ensures ret.Ok? <==> got >= usedPages
      ensures pins == old(pins) + Slots(pages[..], 0, Min(got, usedPages)) && PagesOf(pages[..], 0, src, Min(got, usedPages))
      ensures ret.Ok? && (srcLen0 > 0 || dstLen > 0) ==>
                Terminated(sg[..], 0) && Covers(sg[..], 0) == Range(src, if srcLen0 < dstLen then dstLen else srcLen0)
    {
      hide PageCount, Covers, Terminated, End, Range, Slots, PagesOf;
      PageCountOfLonger(src, srcLen0, dstLen);
      var srcLen := srcLen0;
      if srcLen < dstLen {
        srcLen := dstLen;
      }
      CountPositive(src, srcLen);
      var past;
      ret, past := GetUserPages(0, src, srcLen, usedPages, got);
    }

    /** The arrays are grown only if they are too small. */
    method GrowTo(used: nat, grow: (bool, bool)) returns (ret: Status)
      requires Valid()
      modifies this`pages, this`sg, this`arraySize
      ensures Valid()
      ensures pages == old(pages) || fresh(pages)
      ensures sg == old(sg) || fresh(sg)
      ensures ret.Ok? || ret.ENOMEM?
      ensures ret.ENOMEM? <==> used > old(arraySize) && !(grow.0 && grow.1)
      ensures ret.Ok? ==> used <= arraySize && old(arraySize) <= arraySize
    {
      ret := Ok;
      if used > arraySize {
        ret := AdjustSgArray(used, grow.0, grow.1);
      }
    }

    /** The in-place case of get_userbuf, with the arrays grown first. */
    method UserbufInPlace(src: nat, srcLen: nat, dstLen: nat, grow: (bool, bool), got: nat) returns (ret: Status)
      requires Valid() && (src == 0 ==> srcLen == dstLen == 0)
      modifies this, pages, sg
      ensures Valid() && (ret.Ok? || ret.EINVAL? || ret.ENOMEM?)
      ensures var used := PageCount(src, if srcLen < dstLen then dstLen else srcLen);
              && (ret.ENOMEM? <==> used > old(arraySize) && !(grow.0 && grow.1))
              && (ret.Ok? <==> !ret.ENOMEM? && got >= used)
              && (ret.Ok? ==> usedPages == used <= arraySize)
              && (if ret.ENOMEM? then pins == old(pins)
                  else pins == old(pins) + Slots(pages[..], 0, Min(got, used)) && PagesOf(pages[..], 0, src, Min(got, used)))
              && released == old(released)
      ensures ret.Ok? && (srcLen > 0 || dstLen > 0) ==>
                Terminated(sg[..], 0) && Covers(sg[..], 0) == Range(src, if srcLen < dstLen then dstLen else srcLen)
    {
      PageCountOfLonger(src, srcLen, dstLen);
      hide PageCount, Covers, Terminated, End, Range, Slots, PagesOf;
      var srcCount, dstCount := PageCount(src, srcLen), PageCount(src, dstLen);
      usedPages, readonlyPages := if srcCount < dstCount then dstCount else srcCount, 0;
      ret := GrowTo(usedPages, grow);
      if !ret.Ok? {
        return;
      }
      ret := GetInPlace(src, srcLen, dstLen, got);
    }

    /** The case of get_userbuf with two ranges, with the arrays grown first. */
    method UserbufSeparate(src: nat, srcLen: nat, dst: nat, dstLen: nat, grow: (bool, bool), srcGot: nat, dstGot: nat)
      returns (ret: Status, srcSg: Option<nat>, dstSg: Option<nat>, past: bool)
      requires Valid() && (src == 0 ==> srcLen == 0) && (dst == 0 ==> dstLen == 0)
      modifies this, pages, sg
      ensures Valid() && (ret.Ok? || ret.EINVAL? || ret.ENOMEM?)
      ensures var a, b := PageCount(src, srcLen), PageCount(dst, dstLen);
              && (ret.ENOMEM? <==> a + b > old(arraySize) && !(grow.0 && grow.1))
              && (ret.Ok? <==> !ret.ENOMEM? && srcGot >= a && dstGot >= b)
              && (past <==> !ret.ENOMEM? && dst != 0 && dstLen == 0 && srcGot >= a == arraySize)
              && (ret.Ok? ==> usedPages == a + b <= arraySize)
              && (ret.Ok? ==> srcSg == (if src == 0 then None else Some(0)) && dstSg == (if dst == 0 then None else Some(a)))
              && (if ret.ENOMEM? then pins == old(pins)
                  else pins == old(pins) + Slots(pages[..], 0, PinnedCount(a, srcGot, b, dstGot))
                       && PinnedSlots(pages[..], src, a, srcGot, dst, b, dstGot))
              && (released == if ret.EINVAL? && srcGot >= a then old(released) + Slots(pages[..], 0, a + b) else old(released))
      ensures ret.Ok? && srcLen > 0 ==>
                Terminated(sg[..], 0) && Covers(sg[..], 0) == Range(src, srcLen) && End(sg[..], 0) == PageCount(src, srcLen) - 1
      ensures ret.Ok? && dstLen > 0 ==>
                dstSg.Some? && Terminated(sg[..], dstSg.value) && Covers(sg[..], dstSg.value) == Range(dst, dstLen)
    {
      hide PageCount, Covers, Terminated, End, Range, Slots, PagesOf;
      srcSg, dstSg, past := None, None, false;
      usedPages, readonlyPages := PageCount(src, srcLen) + PageCount(dst, dstLen), PageCount(src, srcLen);
      ret := GrowTo(usedPages, grow);
      if !ret.Ok? {
        return;
      }
      ret, srcSg, dstSg, past := GetSeparate(src, srcLen, dst, dstLen, srcGot, dstGot);
    }

    /** get_userbuf: the source list covers exactly the source range, the destination list exactly the
        destination range, in disjoint slices of arrays that were grown to hold both; in place, one
        list covers the longer of the two. A success has pinned every page of the ranges once, and the
        slots hold them. A failure to pin leaves pinned what was pinned, except that one at the
        destination gives back all slots, those never pinned included. */
    method GetUserbuf(src: nat, srcLen0: nat, dst: nat, dstLen0: nat, grow: (bool, bool), srcGot: nat, dstGot: nat)
      returns (ret: Status, srcSg: Option<nat>, dstSg: Option<nat>, past: bool)
      requires Valid()
      modifies this, pages, sg
      ensures Valid() && (ret.Ok? || ret.EINVAL? || ret.ENOMEM?)
      ensures var a, b := RangePages(src, srcLen0), RangePages(dst, dstLen0);
              var used := if src == dst then (if a < b then b else a) else a + b;
              && (ret.ENOMEM? <==> used > old(arraySize) && !(grow.0 && grow.1))
              && (ret.Ok? <==> !ret.ENOMEM? && srcGot >= (if src == dst then used else a) && (src != dst ==> dstGot >= b))
              && (past <==> !ret.ENOMEM? && src != dst && dst != 0 && dstLen0 == 0 && srcGot >= a == arraySize)
              && (ret.Ok? ==> usedPages == used <= arraySize)
              && (src != dst && src != 0 && ret.Ok? ==> srcSg == Some(0))
              && (src != dst && ret.Ok? ==> dstSg == if dst == 0 then None else Some(a))
              && (if ret.ENOMEM? then pins == old(pins)
                  else if src == dst then
                    pins == old(pins) + Slots(pages[..], 0, Min(srcGot, used)) && PagesOf(pages[..], 0, src, Min(srcGot, used))
                  else
                    && pins == old(pins) + Slots(pages[..], 0, PinnedCount(a, srcGot, b, dstGot))
                    && PinnedSlots(pages[..], src, a, srcGot, dst, b, dstGot))
              && (released == if ret.EINVAL? && src != dst && srcGot >= a then old(released) + Slots(pages[..], 0, used)
                              else old(released))
      ensures ret.Ok? && src == dst ==> srcSg == dstSg == Some(0)
      ensures ret.Ok? && src == dst && src != 0 && (srcLen0 > 0 || dstLen0 > 0) ==>
                Terminated(sg[..], 0) && Covers(sg[..], 0) == Range(src, if srcLen0 < dstLen0 then dstLen0 else srcLen0)
      ensures ret.Ok? && src != dst && src != 0 && srcLen0 > 0 ==>
                Terminated(sg[..], 0) && Covers(sg[..], 0) == Range(src, srcLen0)
      ensures ret.Ok? && src != dst && dst != 0 && dstLen0 > 0 ==>
                && dstSg.Some? && Terminated(sg[..], dstSg.value) && Covers(sg[..], dstSg.value) == Range(dst, dstLen0)
                && (src != 0 && srcLen0 > 0 ==> Terminated(sg[..], 0) && End(sg[..], 0) < dstSg.value)
    {
      hide PageCount, Covers, Terminated, End, Range, Slots, RangePages, PagesOf, PinnedSlots, PinnedCount;
      var srcLen := if src == 0 then 0 else srcLen0;
      var dstLen := if dst == 0 then 0 else dstLen0;
      NullIsEmpty(src, srcLen0);
      NullIsEmpty(dst, dstLen0);
      PageCountOfLonger(src, srcLen, dstLen);
      if src == dst {
        ret := UserbufInPlace(src, srcLen, dstLen, grow, srcGot);
        return ret, Some(0), Some(0), false;
      }
      ret, srcSg, dstSg, past := UserbufSeparate(src, srcLen, dst, dstLen, grow, srcGot, dstGot);
    }

    /** The pages of a range; a null range has none. */
    static function RangePages(buf: nat, len: nat): nat { if buf == 0 then 0 else PageCount(buf, len) }

    /** Room for `slots` entries, and one list over all of a range at their start. */
    method PinRange(addr: nat, len: nat, slots: nat, grow: (bool, bool), got: nat) returns (ret: Status)
      requires Valid() && addr != 0 && len > 0 && slots >= PageCount(addr, len)
      modifies this`arraySize, this`pages, this`sg, this`pins, pages, sg
      ensures Valid()
      ensures ret.Ok? || ret.EINVAL? || ret.ENOMEM?
      ensures ret.ENOMEM? <==> !(grow.0 && grow.1)
      ensures ret.Ok? <==> grow.0 && grow.1 && got >= PageCount(addr, len)
      ensures pages == old(pages) || fresh(pages)
      ensures sg == old(sg) || fresh(sg)
      ensures !ret.ENOMEM? ==> var n := Min(got, PageCount(addr, len));
                slots <= arraySize && pins == old(pins) + Slots(pages[..], 0, n) && PagesOf(pages[..], 0, addr, n)
      ensures ret.ENOMEM? ==> pins == old(pins)
      ensures ret.Ok? ==>
                Terminated(sg[..], 0) && End(sg[..], 0) == PageCount(addr, len) - 1 && Covers(sg[..], 0) == Range(addr, len)
    {
      hide Covers, Terminated, End, Range, PageCount, Slots, PagesOf;
      CountPositive(addr, len);
      ret := AdjustSgArray(slots, grow.0, grow.1);
      if !ret.Ok? {
        return;
      }
      var past;
      ret, past := GetUserPages(0, addr, len, PageCount(addr, len), got);
    }

    /** get_userbuf_tls: one list that covers exactly the destination range. */
    method GetUserbufTls(dst: nat, dstLen: nat, grow: (bool, bool), got: nat) returns (ret: Status)
      requires Valid()
      modifies this, pages, sg
      ensures Valid()
      ensures ret.EINVAL? || ret.ENOMEM? || ret.Ok?
      ensures ret.ENOMEM? <==> dst != 0 && dstLen > 0 && !(grow.0 && grow.1)
      ensures ret.Ok? <==> dst != 0 && dstLen > 0 && grow.0 && grow.1 && got >= PageCount(dst, dstLen)
      ensures ret.Ok? ==> Terminated(sg[..], 0) && Covers(sg[..], 0) == Range(dst, dstLen)
      ensures ret.Ok? ==> usedPages == PageCount(dst, dstLen) <= arraySize && pins == old(pins) + Slots(pages[..], 0, usedPages)
      ensures ret.Ok? ==> PagesOf(pages[..], 0, dst, usedPages)
      ensures !ret.Ok? ==> pins == if dst != 0 && dstLen > 0 && ret.EINVAL? then old(pins) + Slots(pages[..], 0, got) else old(pins)
      ensures released == old(released)
    {
      hide Covers, Terminated, End, Range, PageCount, Slots, PagesOf;
      if dst == 0 {
        return EINVAL;
      }
      if dstLen == 0 {
        return EINVAL;
      }
      usedPages, readonlyPages := PageCount(dst, dstLen), 0;
      ret := PinRange(dst, dstLen, usedPages, grow, got);
    }

    /** get_userbuf_srtp behind its argument checks: the first list covers the authenticated buffer, a
        second list over the same pages covers it from `diff` on. It fails exactly when memory or
        pages are refused or when nothing remains beyond `diff`; then no page stays pinned, except
        that when the kernel pins some of the pages and not all, those stay pinned. */
    method GetUserbufSrtp(authSrc: nat, authLen: nat, diff: nat, grow: (bool, bool), got: nat)
      returns (ret: Status, dstSg: nat)
      requires Valid() && authSrc != 0 && authLen > 0
      modifies this, pages, sg
      ensures Valid() && (pages == old(pages) || fresh(pages)) && (sg == old(sg) || fresh(sg))
      ensures ret.Ok? || ret.EINVAL? || ret.ENOMEM?
      ensures ret.ENOMEM? <==> !(grow.0 && grow.1)
      ensures ret.Ok? <==> grow.0 && grow.1 && got >= PageCount(authSrc, authLen) && diff < authLen
      ensures ret.Ok? ==>
                && Terminated(sg[..], 0) && Covers(sg[..], 0) == Range(authSrc, authLen)
                && Terminated(sg[..], dstSg) && Covers(sg[..], dstSg) == Range(authSrc + diff, authLen - diff)
                && End(sg[..], 0) < dstSg
      ensures ret.Ok? ==> usedPages == PageCount(authSrc, authLen) <= arraySize && pins == old(pins) + Slots(pages[..], 0, usedPages)
      ensures ret.Ok? ==> PagesOf(pages[..], 0, authSrc, usedPages)
      ensures pins == if ret.ENOMEM? then old(pins) else old(pins) + Slots(pages[..], 0, Min(got, PageCount(authSrc, authLen)))
      ensures released == if ret.EINVAL? && got >= PageCount(authSrc, authLen)
                          then old(released) + Slots(pages[..], 0, PageCount(authSrc, authLen)) else old(released)
    {
      CountPositive(authSrc, authLen);
      hide Covers, Terminated, End, Range, PageCount, Slots, PagesOf;
      dstSg := 0;
      var count := PageCount(authSrc, authLen);
      ret := PinRange(authSrc, authLen, 2 * count, grow, got);
      if !ret.Ok? {
        return;
      }
      usedPages, readonlyPages := count, 0;
      ret, dstSg := ViewOrRelease(authSrc, authLen, diff, count);
    }

    /** The second list, or else nothing: the pages just pinned are given back. */
    method ViewOrRelease(authSrc: nat, authLen: nat, diff: nat, count: nat) returns (ret: Status, dstSg: nat)
      requires Valid() && 2 * count <= arraySize && count > 0 && authLen > 0 && usedPages == count
      requires Terminated(sg[..], 0) && End(sg[..], 0) == count - 1 && Covers(sg[..], 0) == Range(authSrc, authLen)
      modifies this`usedPages, this`readonlyPages, this`released, sg
      ensures ret.Ok? || ret.EINVAL?
      ensures ret.Ok? <==> diff < authLen
      ensures ret.Ok? ==>
                && Terminated(sg[..], 0) && Covers(sg[..], 0) == Range(authSrc, authLen) && End(sg[..], 0) == count - 1
                && dstSg >= count && Terminated(sg[..], dstSg) && Covers(sg[..], dstSg) == Range(authSrc + diff, authLen - diff)
      ensures ret.Ok? ==> usedPages == count
      ensures released == if ret.Ok? then old(released) else old(released) + Slots(pages[..], 0, count)
    {
      hide Covers, Terminated, End, Range, Slots;
      ret, dstSg := SecondView(authSrc, authLen, diff, count);
      if !ret.Ok? {
        ReleaseUserPages();
      }
    }

    /** The second list of an SRTP request, in the slots behind the first. */
    method SecondView(authSrc: nat, authLen: nat, diff: nat, count: nat) returns (ret: Status, dstSg: nat)
      requires Valid() && 2 * count <= arraySize && count > 0 && authLen > 0
      requires Terminated(sg[..], 0) && End(sg[..], 0) == count - 1 && Covers(sg[..], 0) == Range(authSrc, authLen)
      modifies sg
      ensures ret.Ok? || ret.EINVAL?
      ensures ret.Ok? <==> diff < authLen
      ensures Terminated(sg[..], 0) && End(sg[..], 0) == count - 1 && Covers(sg[..], 0) == Range(authSrc, authLen)
      ensures ret.Ok? ==> dstSg >= count && Terminated(sg[..], dstSg)
                          && Covers(sg[..], dstSg) == Range(authSrc + diff, authLen - diff)
    {
      hide Covers, Terminated, End, Range, PageCount, Needed, Slots;
      ghost var s0 := sg[..];
      InitTable(count, count);
      ghost var s1 := sg[..];
      CoversFrame(s0, s1, 0);
      CoversFlat(s1, count, 2 * count - 1);
      NeededBound(s1, 0, authLen);
      var copied := SgCopy(sg, 0, count, authLen);
      ghost var s2 := sg[..];
      CoversFrame(s1, s2, 0);
      RangeDrop(authSrc, authLen, authLen);
      var r := SgAdvance(sg, count, diff);
      CoversFrame(s2, sg[..], 0);
      if r.None? {
        return EINVAL, 0;
      }
      RangeDrop(authSrc, authLen, diff);
      return Ok, r.value;
    }

    static lemma NullIsEmpty(buf: nat, len: nat)
      ensures PageCount(buf, if buf == 0 then 0 else len) == RangePages(buf, len)
    {
    }

    static lemma CountPositive(buf: nat, len: nat)
      ensures PageCount(buf, len) == 0 <==> len == 0
    {
    }
  }
}
