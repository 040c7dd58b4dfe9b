/**
 Scatterlists and the two list walks of util.c. A list starts at an index of an array of entries and
 runs to the first entry marked last; its meaning is the sequence of user addresses it covers. A page
 is named by the number of the user page it backs.
 */
module Scatterlist {
  import opened Bytes

  datatype Entry = Entry(page: nat, offset: nat, length: nat, last: bool) {
    function Base(): nat { page * PAGE_SIZE + offset }
  }

  /** The `n` addresses from `a` on. */
  function Range(a: nat, n: nat): (r: seq<nat>)
    ensures |r| == n
  {
    seq(n, i requires 0 <= i < n => a + i)
  }

  lemma RangeJoin(a: nat, n: nat, m: nat)
    ensures Range(a, n) + Range(a + n, m) == Range(a, n + m)
  {
  }

  lemma RangeDrop(a: nat, n: nat, k: nat)
    requires k <= n
    ensures Range(a, n)[k..] == Range(a + k, n - k)
    ensures Range(a, n)[..k] == Range(a, k)
  {
  }

  function Addrs(e: Entry): seq<nat> { Range(e.Base(), e.length) }

  /** The list from index `k` reaches an entry marked last. */
  predicate Terminated(s: seq<Entry>, k: nat)
    decreases |s| - k
  {
    k < |s| && (s[k].last || Terminated(s, k + 1))
  }

  /** The index of the last entry of the list from `k`. */
  function End(s: seq<Entry>, k: nat): (r: nat)
    requires Terminated(s, k)
    ensures k <= r < |s| && s[r].last
    ensures forall i :: k <= i < r ==> !s[i].last
    decreases |s| - k
  {
    if s[k].last then k else End(s, k + 1)
  }

  /** The addresses covered by the list from `k`, in order. */
  function Covers(s: seq<Entry>, k: nat): seq<nat>
    requires Terminated(s, k)
    decreases |s| - k
  {
    if s[k].last then Addrs(s[k]) else Addrs(s[k]) + Covers(s, k + 1)
  }

  /** The addresses of the entries [a, b), whatever their marks. */
  function Flat(s: seq<Entry>, a: nat, b: nat): seq<nat>
    requires a <= b <= |s|
    decreases b - a
  {
    if a == b then [] else Flat(s, a, b - 1) + Addrs(s[b - 1])
  }

  /** Entries outside [a, b) have no influence on the addresses of [a, b). */
  lemma {:induction false} FlatFrame(s: seq<Entry>, s': seq<Entry>, a: nat, b: nat)
    requires a <= b <= |s| && b <= |s'|
    requires forall i :: a <= i < b ==> s[i] == s'[i]
    ensures Flat(s, a, b) == Flat(s', a, b)
    decreases b - a
  {
    if a < b { FlatFrame(s, s', a, b - 1); }
  }

  lemma {:induction false} FlatHead(s: seq<Entry>, a: nat, b: nat)
    requires a < b <= |s|
    ensures Flat(s, a, b) == Addrs(s[a]) + Flat(s, a + 1, b)
    decreases b
  {
    if a + 1 < b {
      FlatHead(s, a, b - 1);
      assert Addrs(s[a]) + (Flat(s, a + 1, b - 1) + Addrs(s[b - 1])) == (Addrs(s[a]) + Flat(s, a + 1, b - 1)) + Addrs(s[b - 1]);
    } else {
      assert Flat(s, a, a) == [] && Flat(s, b, b) == [];
      assert [] + Addrs(s[a]) == Addrs(s[a]) == Addrs(s[a]) + [];
    }
  }

  /** A list covers what its entries cover, and is terminated when an entry is marked. */
  lemma {:induction false} CoversFlat(s: seq<Entry>, a: nat, b: nat)
    requires a <= b < |s| && s[b].last && forall i :: a <= i < b ==> !s[i].last
    ensures Terminated(s, a) && End(s, a) == b && Covers(s, a) == Flat(s, a, b + 1)
    decreases b - a
  {
    FlatHead(s, a, b + 1);
    if a < b {
      CoversFlat(s, a + 1, b);
    } else {
      assert Flat(s, b + 1, b + 1) == [];
      assert Addrs(s[a]) + [] == Addrs(s[a]);
    }
  }

  /** A list whose entries agree with those of another covers the same. */
  lemma {:induction false} CoversFrame(s: seq<Entry>, s': seq<Entry>, k: nat)
    requires Terminated(s, k) && End(s, k) < |s'| && forall i :: k <= i <= End(s, k) ==> s'[i] == s[i]
    ensures Terminated(s', k) && End(s', k) == End(s, k) && Covers(s', k) == Covers(s, k)
    decreases |s| - k
  {
    if !s[k].last { CoversFrame(s, s', k + 1); }
  }

  /** Moving the offset within its page, or into a later page, drops that many addresses. */
  function Advanced(e: Entry, consumed: nat): (r: Entry)
    requires consumed <= e.length
    ensures r.last == e.last && Addrs(r) == Addrs(e)[consumed..]
  {
    var offset := e.offset + consumed;
    RangeDrop(e.Base(), e.length, consumed);
    if offset >= PAGE_SIZE then Entry(e.page + offset / PAGE_SIZE, offset % PAGE_SIZE, e.length - consumed, e.last)
    else Entry(e.page, offset, e.length - consumed, e.last)
  }

  /** sg_advance: drops `consumed` addresses from the front of the list, by moving to the entry they
      end in and shortening it; None is returned, and nothing changed, exactly when nothing remains. */
  method SgAdvance(sg: array<Entry>, start: nat, consumed0: nat) returns (r: Option<nat>)
    requires Terminated(sg[..], start)
    modifies sg
    ensures r.None? <==> consumed0 >= |Covers(old(sg[..]), start)|
    ensures r.None? ==> sg[..] == old(sg[..])
    ensures r.Some? ==>
              && start <= r.value <= End(old(sg[..]), start)
              && Terminated(sg[..], r.value) && End(sg[..], r.value) == End(old(sg[..]), start)
              && Covers(sg[..], r.value) == Covers(old(sg[..]), start)[consumed0..]
              && forall i :: 0 <= i < sg.Length && i != r.value ==> sg[i] == old(sg[i])
  {
    ghost var s := sg[..];
    var k: nat, consumed: nat := start, consumed0;
    while consumed >= sg[k].length
      invariant sg[..] == s && Terminated(s, k) && start <= k <= End(s, k) == End(s, start)
      invariant consumed0 == |Flat(s, start, k)| + consumed
      decreases sg.Length - k
    {
      consumed := consumed - sg[k].length;
      CoversSplit(s, start, k);
      if sg[k].last {
        return None;
      }
      k := k + 1;
    }
    CoversSplit(s, start, k);
    HeadFits(s, k);
    assert Covers(s, start)[consumed0..] == Covers(s, k)[consumed..];
    sg[k] := Advanced(sg[k], consumed);
    ShortenHead(s, sg[..], k, consumed);
    r := Some(k);
  }

  /** A list covers its first entries and then what the list from there covers. */
  lemma {:induction false} CoversSplit(s: seq<Entry>, a: nat, b: nat)
    requires Terminated(s, a) && a <= b <= End(s, a)
    ensures Terminated(s, b) && End(s, b) == End(s, a)
    ensures Covers(s, a) == Flat(s, a, b) + Covers(s, b)
    decreases b - a
  {
    if a == b {
      assert [] + Covers(s, a) == Covers(s, a);
    } else {
      CoversSplit(s, a + 1, b);
      FlatHead(s, a, b);
      assert Addrs(s[a]) + (Flat(s, a + 1, b) + Covers(s, b)) == Addrs(s[a]) + Flat(s, a + 1, b) + Covers(s, b);
    }
  }

  /** Shortening the first entry of a list drops addresses from its front. */
  lemma ShortenHead(s: seq<Entry>, s': seq<Entry>, k: nat, consumed: nat)
    requires Terminated(s, k) && |s'| == |s| && consumed <= s[k].length
    requires s' == s[k := Advanced(s[k], consumed)]
    ensures Terminated(s', k) && End(s', k) == End(s, k)
    ensures consumed <= |Covers(s, k)| && Covers(s', k) == Covers(s, k)[consumed..]
  {
    if !s[k].last {
      CoversFrame(s, s', k + 1);
      var head, tail := Addrs(s[k]), Covers(s, k + 1);
      assert (head + tail)[consumed..] == head[consumed..] + tail;
    }
  }

  /** The number of entries it takes to cover the first `len` addresses. */
  function Needed(s: seq<Entry>, k: nat, len: nat): nat
    requires Terminated(s, k)
    decreases |s| - k
  {
    if len <= s[k].length || s[k].last then 1 else 1 + Needed(s, k + 1, len - s[k].length)
  }

  /** The state of a copy that has passed whole entries from `from0` to `from`. */
  ghost predicate Copying(s: seq<Entry>, s': seq<Entry>, from0: nat, from: nat, to0: nat, to: nat, len0: nat, len: nat) {
    && |s'| == |s| && from0 <= from && to0 <= to && from - from0 == to - to0
    && Terminated(s, from0) && Terminated(s, from) && from <= End(s, from) == End(s, from0) < to0
    && Terminated(s, to0) && Terminated(s, to) && to <= End(s, to) == End(s, to0)
    && (forall i :: 0 <= i < to0 || to <= i < |s| ==> s'[i] == s[i])
    && (forall i :: to0 <= i < to ==> s'[i] == s[from0 + (i - to0)].(last := false))
    && (len > 0 || len == len0) && len0 == |Flat(s, from0, from)| + len
    && Needed(s, from0, len0) == from - from0 + Needed(s, from, len)
  }

  /** One more entry copied: either an end is reached, and the copy cannot succeed, or it goes on. */
  lemma CopyStep(s: seq<Entry>, s': seq<Entry>, from0: nat, from: nat, to0: nat, to: nat, len0: nat, len: nat)
    requires Copying(s, s', from0, from, to0, to, len0, len)
    ensures from < to < |s| && s'[from] == s[from] && s'[to] == s[to]
    ensures len > s[from].length ==>
              var e := Entry(s[from].page, s[from].offset, s[from].length, s[to].last);
              if s[to].last || s[from].last then
                len0 > |Covers(s, from0)| || Needed(s, from0, len0) > End(s, to0) - to0 + 1
              else
                Copying(s, s'[to := e], from0, from + 1, to0, to + 1, len0, len - s[from].length)
  {
    hide Flat, Covers, Addrs, Range, End, Terminated, Needed;
    FlatGrows(s, from0, from);
    HeadFits(s, from);
    ListStep(s, from, len);
    ListStep(s, to, len);
    CoversSplit(s, from0, from);
  }

  /** The loop of sg_copy. */
  method CopyWholeEntries(sg: array<Entry>, from0: nat, to0: nat, len0: nat) returns (ok: bool, from: nat, to: nat, len: nat)
    requires Terminated(sg[..], from0) && Terminated(sg[..], to0) && End(sg[..], from0) < to0
    modifies sg
    ensures ok ==> Copying(old(sg[..]), sg[..], from0, from, to0, to, len0, len) && from < |sg[..]| && len <= sg[..][from].length
    ensures !ok ==> len0 > |Covers(old(sg[..]), from0)|
                    || Needed(old(sg[..]), from0, len0) > End(old(sg[..]), to0) - to0 + 1
    ensures forall i :: 0 <= i < to0 || End(old(sg[..]), to0) < i < sg.Length ==> sg[i] == old(sg[..])[i]
    ensures len0 == 0 ==> to == to0 && len == 0 && sg[..] == old(sg[..])
  {
    hide Flat, Covers, Addrs, Range, End, Terminated, Needed;
    ghost var s := sg[..];
    from, to, len := from0, to0, len0;
    FlatGrows(s, from0, from);
    ListStep(s, from, len);
    CopyStep(s, sg[..], from0, from, to0, to, len0, len);
    while len > sg[from].length
      invariant Copying(s, sg[..], from0, from, to0, to, len0, len)
      invariant from < to < sg.Length
      invariant len0 == 0 ==> to == to0 && len == 0 && sg[..] == s
      decreases sg.Length - from
    {
      CopyStep(s, sg[..], from0, from, to0, to, len0, len);
      len := len - sg[from].length;
      sg[to] := Entry(sg[from].page, sg[from].offset, sg[from].length, sg[to].last);
      if sg[to].last || sg[from].last {
        return false, from, to, len;
      }
      to, from := to + 1, from + 1;
      CopyStep(s, sg[..], from0, from, to0, to, len0, len);
    }
    ok := true;
  }

  /** sg_copy: makes the list at `to` cover the first `len` addresses of the list at `from`, which it
      leaves alone. It fails exactly when `from` covers fewer or `to` has too few entries. A copy of
      nothing cuts the list at `to` to its first entry, which keeps what it covered. */
  method SgCopy(sg: array<Entry>, from0: nat, to0: nat, len0: nat) returns (ret: Status)
    requires Terminated(sg[..], from0) && Terminated(sg[..], to0) && End(sg[..], from0) < to0
    modifies sg
    ensures ret.Ok? || ret.ENOMEM?
    ensures ret.Ok? <==> (len0 <= |Covers(old(sg[..]), from0)|
                          && Needed(old(sg[..]), from0, len0) <= End(old(sg[..]), to0) - to0 + 1)
    ensures forall i :: 0 <= i < to0 || End(old(sg[..]), to0) < i < sg.Length ==> sg[i] == old(sg[..])[i]
    ensures ret.Ok? && len0 > 0 ==>
              && Terminated(sg[..], to0) && End(sg[..], to0) <= End(old(sg[..]), to0)
              && Covers(sg[..], to0) == Covers(old(sg[..]), from0)[..len0]
    ensures ret.Ok? && len0 == 0 ==>
              && Terminated(sg[..], to0) && End(sg[..], to0) == to0 && Covers(sg[..], to0) == Addrs(old(sg[..])[to0])
              && forall i :: 0 <= i < sg.Length && i != to0 ==> sg[i] == old(sg[..])[i]
  {
    hide Flat, Covers, Addrs, Range, End, Terminated, Needed;
    ghost var s := sg[..];
    var ok, from, to, len := CopyWholeEntries(sg, from0, to0, len0);
    if !ok {
      return ENOMEM;
    }
    CoversSplit(s, from0, from);
    HeadFits(s, from);
    ListStep(s, from, len);
    CloseCopy(sg, from, to, len);
    if len > 0 {
      CopiedCovers(s, sg[..], from0, from, to0, to, len);
    } else {
      CutList(s, sg[..], to);
    }
    ret := Ok;
  }

  /** A list whose first entry is marked covers what that entry does. */
  lemma CutList(s: seq<Entry>, s': seq<Entry>, to: nat)
    requires to < |s| == |s'| && s'[to] == s[to].(last := true)
    ensures Terminated(s', to) && End(s', to) == to && Covers(s', to) == Addrs(s[to])
  {
  }

  /** The last entry of a copy: cut to what is left, and marked. */
  method CloseCopy(sg: array<Entry>, from: nat, to: nat, len: nat)
    requires from < to < sg.Length
    modifies sg
    ensures sg[..] == old(sg[..])[to := if len > 0 then Entry(old(sg[from].page), old(sg[from].offset), len, true)
                                        else old(sg[to]).(last := true)]
  {
    if len > 0 {
      sg[to] := Entry(sg[from].page, sg[from].offset, len, sg[to].last);
    }
    sg[to] := sg[to].(last := true);
  }

  /** Entries copied one by one, the last cut to `len`, cover a prefix of the original list. */
  lemma CopiedCovers(s: seq<Entry>, s': seq<Entry>, from0: nat, from: nat, to0: nat, to: nat, len: nat)
    requires Terminated(s, from0) && from0 <= from <= End(s, from0) && from - from0 == to - to0 && to0 <= to < |s'|
    requires forall i :: to0 <= i < to ==> s'[i] == s[from0 + (i - to0)].(last := false)
    requires len <= s[from].length && s'[to] == Entry(s[from].page, s[from].offset, len, true)
    ensures Terminated(s', to0) && End(s', to0) == to
    ensures |Flat(s, from0, from)| + len <= |Covers(s, from0)|
    ensures Covers(s', to0) == Covers(s, from0)[..|Flat(s, from0, from)| + len]
  {
    CoversSplit(s, from0, from);
    TakeHead(s, from, len);
    CoversFlat(s', to0, to);
    FlatShift(s, s', from0, from, to0, to);
    var done := Flat(s, from0, from);
    assert (done + Covers(s, from))[..|done| + len] == done + Covers(s, from)[..len];
  }

  lemma {:induction false} FlatShift(s: seq<Entry>, s': seq<Entry>, a: nat, b: nat, a': nat, b': nat)
    requires a <= b <= |s| && a' <= b' <= |s'| && b - a == b' - a'
    requires forall i :: a' <= i < b' ==> s'[i] == s[a + (i - a')].(last := false)
    ensures Flat(s', a', b') == Flat(s, a, b)
    decreases b - a
  {
    if a < b {
      FlatShift(s, s', a, b - 1, a', b' - 1);
      assert s'[b' - 1] == s[b - 1].(last := false);
    }
  }

  /** No more entries are needed than the list has. */
  lemma {:induction false} NeededBound(s: seq<Entry>, k: nat, len: nat)
    requires Terminated(s, k)
    ensures Needed(s, k, len) <= End(s, k) - k + 1
    decreases |s| - k
  {
    if !s[k].last && len > s[k].length { NeededBound(s, k + 1, len - s[k].length); }
  }

  lemma HeadFits(s: seq<Entry>, k: nat)
    requires Terminated(s, k)
    ensures |Covers(s, k)| >= s[k].length && (s[k].last ==> |Covers(s, k)| == s[k].length)
  {
  }

  /** One step along a list. */
  lemma ListStep(s: seq<Entry>, k: nat, len: nat)
    requires Terminated(s, k)
    ensures k < |s| && Needed(s, k, len) >= 1
    ensures s[k].last ==> End(s, k) == k
    ensures !s[k].last ==> k < End(s, k) && Terminated(s, k + 1) && End(s, k + 1) == End(s, k)
    ensures len <= s[k].length ==> Needed(s, k, len) == 1
    ensures len > s[k].length && !s[k].last ==>
              Needed(s, k, len) == 1 + Needed(s, k + 1, len - s[k].length) && Needed(s, k + 1, len - s[k].length) >= 1
  {
  }

  lemma FlatGrows(s: seq<Entry>, a: nat, b: nat)
    requires a <= b < |s|
    ensures Flat(s, a, a) == []
    ensures |Flat(s, a, b + 1)| == |Flat(s, a, b)| + s[b].length
  {
  }

  lemma TakeHead(s: seq<Entry>, k: nat, len: nat)
    requires Terminated(s, k) && len <= s[k].length
    ensures |Covers(s, k)| >= len && Covers(s, k)[..len] == Range(s[k].Base(), len)
  {
  }
}
