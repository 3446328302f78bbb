/** The Apple ANS NVMe driver's mapping of one request: PRP construction, the failure path that
    gives partial lists back, and the unmap that walks the chain the builder wrote. */
module NvmeRequest {
  import opened Wrappers
  import opened PrpFormat
  import opened Seqs

  datatype Status = Ok | Resource | IoError

  /** The two DMA pools, by outstanding allocation: DMA address to CPU buffer. Pool membership
      shows in the buffer's length, 32 entries in the small pool and 512 in the page pool. */
  class DmaPools {
    var live: map<nat, array<nat>>

    constructor ()
      ensures live == map[]
    {
      live := map[];
    }

    /** What the device reads at each allocated DMA address. */
    ghost function View(): Memory
      reads this, live.Values
    {
      map d | d in live :: live[d][..]
    }

    /** A successful allocation; `dma` is the pool's choice, the contents are arbitrary. */
    method Alloc(entries: nat, dma: nat) returns (buf: array<nat>)
      requires dma !in live
      modifies this
      ensures fresh(buf) && buf.Length == entries
      ensures live == old(live)[dma := buf]
    {
      buf := new nat[entries];
      live := live[dma := buf];
    }

    /** Freeing demands the buffer, its own DMA address and its own pool. */
    method Free(entries: nat, buf: array<nat>, dma: nat)
      requires dma in live && live[dma] == buf && buf.Length == entries
      modifies this
      ensures live == old(live) - {dma}
    {
      live := live - {dma};
    }
  }

  /** DMA addresses the pools would hand out: at most one small element, and page elements until
      the page pool runs dry. */
  predicate Grants(live: set<nat>, small: Option<nat>, pages: seq<nat>) {
    && (small.Some? ==> small.value !in live && small.value % 256 == 0)
    && (forall k :: 0 <= k < |pages| ==> pages[k] !in live && pages[k] % PAGE == 0)
    && (forall k, l :: 0 <= k < l < |pages| ==> pages[k] != pages[l])
  }

  lemma RemoveNext<T>(m: map<nat, T>, s: seq<nat>, i: nat)
    requires i < |s|
    ensures m - Elems(s[..i]) - {s[i]} == m - Elems(s[..i + 1])
  {
    assert s[..i + 1] == s[..i] + [s[i]];
  }

  /** List pages needed for n entries. */
  function ListPages(n: nat): (m: nat)
    ensures m >= 1
  {
    if n <= PAGE_ENTRIES then 1 else 1 + ListPages(n - LINK)
  }

  /** The layout of the builder uses exactly that many, and a dry pool means more were needed. */
  lemma {:induction false} ListPagesOf(n: nat, m: nat, i: nat)
    requires m >= 1 && n == LINK * (m - 1) + i && i >= 1
    ensures i <= PAGE_ENTRIES && (m > 1 ==> i >= 2) ==> ListPages(n) == m
    ensures i > PAGE_ENTRIES ==> ListPages(n) > m
    decreases m
  {
    if m > 1 && (i >= 2 || i > PAGE_ENTRIES) { ListPagesOf(n - LINK, m - 1, i); }
  }

  /** Allocations the pools must grant for a scatter list of n page pieces. */
  predicate Granted(n: nat, small: Option<nat>, pages: seq<nat>) {
    n <= 2 || (if n - 1 <= SMALL_ENTRIES then small.Some? else |pages| >= ListPages(n - 1))
  }

  /** The addresses such a list then takes: those of the first buffers the pools grant. */
  function Taken(n: nat, small: Option<nat>, pages: seq<nat>): seq<nat> {
    if n <= 2 || !Granted(n, small, pages) then []
    else if n - 1 <= SMALL_ENTRIES then [small.value]
    else pages[..ListPages(n - 1)]
  }

  function EntriesOf(npages: int): nat {
    if npages == 0 then SMALL_ENTRIES else PAGE_ENTRIES
  }

  /** `base` with the list buffers of one request added. */
  ghost function Grow(base: map<nat, array<nat>>, dmas: seq<nat>, list: seq<array<nat>>): map<nat, array<nat>>
    requires |dmas| == |list|
  {
    if dmas == [] then base
    else
      var n := |dmas| - 1;
      Grow(base, dmas[..n], list[..n])[dmas[n] := list[n]]
  }

  ghost predicate Distinct(base: map<nat, array<nat>>, dmas: seq<nat>) {
    && (forall j :: 0 <= j < |dmas| ==> dmas[j] !in base)
    && (forall j, k :: 0 <= j < k < |dmas| ==> dmas[j] != dmas[k])
  }

  /** `live` is `base` plus the list buffers of one request. */
  ghost predicate Holding(live: map<nat, array<nat>>, base: map<nat, array<nat>>,
                          list: seq<array<nat>>, dmas: seq<nat>, firstDma: nat, npages: int)
  {
    && |list| == |dmas| == (if npages < 0 then 0 else if npages == 0 then 1 else npages)
    && live == Grow(base, dmas, list)
    && Distinct(base, dmas)
    && (list != [] ==> firstDma == dmas[0])
    && (forall j :: 0 <= j < |list| ==> list[j].Length == EntriesOf(npages))
  }

  lemma {:induction false} GrowFacts(base: map<nat, array<nat>>, dmas: seq<nat>, list: seq<array<nat>>)
    requires |dmas| == |list| && Distinct(base, dmas)
    ensures Grow(base, dmas, list).Keys == base.Keys + Elems(dmas)
    ensures forall j :: 0 <= j < |dmas| ==>
              dmas[j] in Grow(base, dmas, list) && Grow(base, dmas, list)[dmas[j]] == list[j]
    ensures Grow(base, dmas, list) - Elems(dmas) == base
  {
    if dmas != [] {
      var n := |dmas| - 1;
      GrowFacts(base, dmas[..n], list[..n]);
      assert Elems(dmas) == Elems(dmas[..n]) + {dmas[n]};
      assert dmas[n] !in Elems(dmas[..n]);
      var g, h := Grow(base, dmas[..n], list[..n]), Grow(base, dmas, list);
      forall j | 0 <= j < |dmas|
        ensures dmas[j] in h && h[dmas[j]] == list[j]
      {
        if j < n { assert dmas[j] == dmas[..n][j] && list[j] == list[..n][j] && dmas[j] != dmas[n]; }
      }
      assert h - Elems(dmas) == g - Elems(dmas[..n]);
    }
  }

  /** Whatever else has come and gone in between: buffers that are all still there are what `live`
      has on top of the rest. */
  lemma Regrow(live: map<nat, array<nat>>, dmas: seq<nat>, list: seq<array<nat>>)
    requires |dmas| == |list| && (forall j, k :: 0 <= j < k < |dmas| ==> dmas[j] != dmas[k])
    requires forall j :: 0 <= j < |dmas| ==> dmas[j] in live && live[dmas[j]] == list[j]
    ensures live == Grow(live - Elems(dmas), dmas, list) && Distinct(live - Elems(dmas), dmas)
  {
    hide Grow;
    var rest := live - Elems(dmas);
    GrowFacts(rest, dmas, list);
    var g := Grow(rest, dmas, list);
    forall d | d in live ensures d in g && g[d] == live[d] {
      if d in Elems(dmas) {
        var j :| 0 <= j < |dmas| && dmas[j] == d;
      } else {
        assert d in g - Elems(dmas);
      }
    }
  }

  /** One more buffer at an address not in use. */
  lemma GrowMore(base: map<nat, array<nat>>, dmas: seq<nat>, list: seq<array<nat>>, dma: nat)
    requires |dmas| == |list| && Distinct(base, dmas + [dma])
    ensures dma !in Grow(base, dmas, list)
    ensures forall buf :: Grow(base, dmas + [dma], list + [buf]) == Grow(base, dmas, list)[dma := buf]
  {
    var more := dmas + [dma];
    assert more[|dmas|] == dma;
    assert forall j :: 0 <= j < |dmas| ==> dmas[j] == more[j];
    GrowFacts(base, dmas, list);
    assert more[..|dmas|] == dmas;
    assert forall buf :: (list + [buf])[..|list|] == list;
  }

  /** The list buffers are distinct and hold `view`. */
  ghost predicate Shows(list: seq<array<nat>>, view: seq<seq<nat>>)
    reads list
  {
    && |view| == |list| > 0
    && (forall j :: 0 <= j < |list| ==> view[j] == list[j][..])
    && (forall j, k :: 0 <= j < k < |list| ==> list[j] != list[k])
  }

  /** Stores one entry in the current list buffer. */
  method PutEntry(list: seq<array<nat>>, prpList: array<nat>, i: nat, x: nat, ghost view: seq<seq<nat>>)
    returns (ghost view': seq<seq<nat>>)
    requires Shows(list, view) && prpList == list[|list| - 1] && i < prpList.Length
    modifies prpList
    ensures var page: seq<nat> := view[|view| - 1][i := x];
            view' == view[|view| - 1 := page]
    ensures Shows(list, view')
  {
    ghost var page: seq<nat> := view[|view| - 1][i := x];
    view' := view[|view| - 1 := page];
    prpList[i] := x;
  }

  /** Links a fresh page to a full one: the last entry moves over and the link replaces it. */
  method MoveLast(list: seq<array<nat>>, prpList: array<nat>, oldPrpList: array<nat>, dma: nat,
                  ghost view: seq<seq<nat>>, ghost page: seq<nat>)
    returns (ghost view': seq<seq<nat>>)
    requires Shows(list, view) && oldPrpList == list[|list| - 1] && prpList !in list
    requires prpList.Length == oldPrpList.Length == PAGE_ENTRIES && page == prpList[..]
    modifies prpList, oldPrpList
    ensures var m := |view| - 1;
            var full: seq<nat> := view[m][LINK := dma];
            var more: seq<nat> := page[0 := view[m][LINK]];
            view' == view[m := full] + [more]
    ensures Shows(list + [prpList], view')
  {
    ghost var m := |view| - 1;
    ghost var full: seq<nat> := view[m][LINK := dma];
    ghost var more: seq<nat> := page[0 := view[m][LINK]];
    prpList[0] := oldPrpList[LINK];
    oldPrpList[LINK] := dma;
    view' := view[m := full] + [more];
    assert oldPrpList[..] == full && prpList[..] == more;
    assert forall j :: 0 <= j < m ==> list[j][..] == view[j];
  }

  class Iod {
    var npages: int               // -1: no list, 0: one small element, else list pages
    var firstDma: nat
    var dmaLen: nat               // nonzero: the single-segment shortcut was taken
    var list: seq<array<nat>>     // the pointers kept behind the scatterlist
    var prp1: nat
    var prp2: nat
    var sgHeld: bool              // a scatterlist from the mempool
    var sgMapped: bool            // the scatterlist is DMA-mapped
    var pageMapped: bool          // the single segment is DMA-mapped
    ghost var dmas: seq<nat>      // the DMA address of each list buffer

    /** The state queue_rq leaves before mapping. */
    constructor ()
      ensures Idle()
    {
      npages, firstDma, dmaLen, list, prp1, prp2, dmas := -1, 0, 0, [], 0, 0, [];
      sgHeld, sgMapped, pageMapped := false, false, false;
    }

    /** What queue_rq resets before mapping. */
    method Begin()
      requires Free()
      modifies this`npages, this`list, this`dmas
      ensures Idle()
    {
      npages, list, dmas := -1, [], [];
    }

    /** Nothing is held, though the fields may still show the last request. */
    ghost predicate Free()
      reads this`sgHeld, this`sgMapped, this`pageMapped
    {
      !sgHeld && !sgMapped && !pageMapped
    }

    ghost predicate Idle()
      reads this
    {
      npages == -1 && list == [] && dmas == [] && !sgHeld && !sgMapped && !pageMapped
    }

    ghost predicate Holds(live: map<nat, array<nat>>, base: map<nat, array<nat>>)
      reads this`npages, this`firstDma, this`list, this`dmas
    {
      Holding(live, base, list, dmas, firstDma, npages)
    }

    ghost function Entries(): nat
      reads this`npages
    {
      EntriesOf(npages)
    }

    /** Each list page links to the next through slot LINK. */
    ghost predicate Linked()
      reads this`npages, this`firstDma, this`list, this`dmas, list
    {
      npages > 0 && |list| == |dmas| ==>
        forall j :: 0 <= j < |list| - 1 ==> list[j].Length == PAGE_ENTRIES && list[j][LINK] == dmas[j + 1]
    }

    /** Walks the chain: each page is freed with the address the previous page links to. */
    method FreePrps(pools: DmaPools, ghost base: map<nat, array<nat>>)
      requires Holds(pools.live, base) && Linked() && npages != 0
      modifies pools
      ensures pools.live == base
    {
      GrowFacts(base, dmas, list);
      var dma := firstDma;
      var i := 0;
      while i < npages
        invariant 0 <= i <= |list|
        invariant i < npages ==> dma == dmas[i]
        invariant pools.live == old(pools.live) - Elems(dmas[..i])
      {
        var prpList := list[i];
        assert dmas[i] !in Elems(dmas[..i]);
        var next := prpList[LINK];
        pools.Free(PAGE_ENTRIES, prpList, dma);
        RemoveNext(old(pools.live), dmas, i);
        dma := next;
        i := i + 1;
      }
      assert dmas[..i] == dmas;
    }

    /** Allocates and links one more list page. */
    method LinkPage(pools: DmaPools, oldPrpList: array<nat>, dma: nat,
                    ghost view: seq<seq<nat>>, ghost data: seq<nat>, ghost base: map<nat, array<nat>>)
      returns (prpList: array<nat>, ghost view': seq<seq<nat>>)
      requires Holds(pools.live, base) && npages > 0 && Distinct(base, dmas + [dma])
      requires Shows(list, view) && oldPrpList == list[|list| - 1]
      requires Chained(PAGE_ENTRIES, view, dmas, PAGE_ENTRIES, data)
      modifies pools, this`list, this`npages, this`dmas, oldPrpList
      ensures Holds(pools.live, base) && npages == old(npages) + 1
      ensures fresh(prpList) && list == old(list) + [prpList] && dmas == old(dmas) + [dma]
      ensures Shows(list, view') && Chained(PAGE_ENTRIES, view', dmas, 1, data)
    {
      GrowMore(base, dmas, list, dma);
      prpList := pools.Alloc(PAGE_ENTRIES, dma);
      ghost var page: seq<nat> := prpList[..];
      ChainedLink(view, dmas, data, page, dma);
      view' := MoveLast(list, prpList, oldPrpList, dma, view, page);
      list, npages, dmas := list + [prpList], npages + 1, dmas + [dma];
    }

    /** The state of the entry loop: the buffers are held, are the first ones the page pool
        granted, and lay out `data` with `i` entries in the current one. */
    ghost predicate Storing(live: map<nat, array<nat>>, base: map<nat, array<nat>>, pages: seq<nat>,
                            view: seq<seq<nat>>, i: nat, data: seq<nat>)
      reads this`npages, this`firstDma, this`list, this`dmas, list
    {
      && Holds(live, base)
      && npages >= 0
      && (npages > 0 ==> npages <= |pages| && dmas == pages[..npages])
      && Shows(list, view)
      && Chained(Entries(), view, dmas, i, data)
      && (|list| > 1 ==> i >= 2)
    }

    /** Stores one entry, first linking a new page if the current one is full. When the pool is
        dry the pages written so far are given back. */
    method StoreEntry(pools: DmaPools, prpList0: array<nat>, i0: nat, x: nat, pages: seq<nat>,
                      ghost view0: seq<seq<nat>>, ghost data: seq<nat>, ghost base: map<nat, array<nat>>)
      returns (ok: bool, prpList: array<nat>, i: nat, ghost view: seq<seq<nat>>)
      requires Storing(pools.live, base, pages, view0, i0, data) && Distinct(base, pages)
      requires prpList0 == list[|list| - 1]
      requires npages == 0 ==> i0 < SMALL_ENTRIES
      modifies pools, this`list, this`npages, this`dmas, prpList0
      ensures !ok ==> pools.live == base
      ensures ok ==>
                && Storing(pools.live, base, pages, view, i, data + [x])
                && list != [] && prpList == list[|list| - 1] && 1 <= i && (npages == 0 ==> i == |data| + 1)
                && (list == old(list) || (list == old(list) + [prpList] && fresh(prpList)))
                && (npages == 0 <==> old(npages) == 0)
      ensures !ok ==> 0 < old(npages) == |pages| && |data| == LINK * |pages| + 1
    {
      prpList, i, view := prpList0, i0, view0;
      if i == PAGE / SLOT {
        var oldPrpList := prpList;
        if npages == |pages| {
          FreePrps(pools, base);
          return false, prpList, i, view;
        }
        assert dmas + [pages[npages]] == pages[..npages + 1];
        prpList, view := LinkPage(pools, oldPrpList, pages[npages], view, data, base);
        i := 1;
      }
      ChainedWrite(Entries(), view, dmas, i, data, x);
      view := PutEntry(list, prpList, i, x, view);
      i := i + 1;
      ok := true;
    }

    /** Allocates the first list buffer, from the small pool when all entries fit there. */
    method FirstBuffer(pools: DmaPools, nprps: nat, small: Option<nat>, pages: seq<nat>)
      returns (ok: bool, ghost view: seq<seq<nat>>)
      requires npages == -1 && list == [] && dmas == []
      requires Distinct(pools.live, pages) && (small.Some? ==> small.value !in pools.live)
      modifies pools, this`list, this`npages, this`dmas, this`firstDma
      ensures ok <==> (if nprps <= SMALL_ENTRIES then small.Some? else pages != [])
      ensures !ok ==> pools.live == old(pools.live) && npages == -1
      ensures ok ==>
                && |list| == 1 && fresh(list[0]) && npages == (if nprps <= SMALL_ENTRIES then 0 else 1)
                && firstDma == (if nprps <= SMALL_ENTRIES then small.value else pages[0])
                && Storing(pools.live, old(pools.live), pages, view, 0, [])
    {
      view := [];
      var prpList;
      if nprps <= 256 / 8 {
        npages := 0;
        if small.None? {
          npages := -1;
          return false, view;
        }
        firstDma := small.value;
        prpList := pools.Alloc(SMALL_ENTRIES, firstDma);
      } else {
        npages := 1;
        if pages == [] {
          npages := -1;
          return false, view;
        }
        firstDma := pages[0];
        prpList := pools.Alloc(PAGE_ENTRIES, firstDma);
      }
      list, dmas := [prpList], [firstDma];
      view := [prpList[..]];
      ok := true;
    }

    /** The entry loop: writes the entries from the cursor on into the one empty list buffer and
        the pages linked to it. It fails exactly when the page pool is too small. */
    method WriteList(pools: DmaPools, sgl: seq<Segment>, s0: nat, addr0: nat, len0: nat, length0: int,
                     pages: seq<nat>, ghost base: map<nat, array<nat>>, ghost view0: seq<seq<nat>>)
      returns (r: Status, ghost last: nat, ghost view: seq<seq<nat>>)
      requires WellFormed(sgl) && Cursor(sgl, s0, addr0, len0, length0) && Distinct(base, pages)
      requires npages in {0, 1} && |list| == 1 && Storing(pools.live, base, pages, view0, 0, [])
      requires npages == 0 ==> |Rest(sgl, s0, addr0, len0)| <= SMALL_ENTRIES
      modifies pools, this`list, this`npages, this`dmas, list
      ensures r == Ok || r == Resource
      ensures r == Resource ==> pools.live == base
      ensures r == Resource ==> old(npages) == 1 && |Rest(sgl, s0, addr0, len0)| > LINK * |pages| + 1
      ensures r == Ok ==>
                && Storing(pools.live, base, pages, view, last, Rest(sgl, s0, addr0, len0)) && last >= 1
                && (npages == 0 <==> old(npages) == 0)
    {
      hide Storing;
      var s: nat, dmaAddr: nat, len: int, length := s0, addr0, len0, length0;
      var prpList := list[0];
      var i: nat := 0;
      ghost var all := Rest(sgl, s0, addr0, len0);
      ghost var data: seq<nat> := [];
      view := view0;
      while true
        invariant Cursor(sgl, s, dmaAddr, len, length)
        invariant data + Rest(sgl, s, dmaAddr, len) == all
        invariant Storing(pools.live, base, pages, view, i, data)
        invariant npages == 0 <==> old(npages) == 0
        invariant list != [] && prpList == list[|list| - 1] && (npages == 0 ==> i == |data|)
        invariant prpList == old(list[0]) || fresh(prpList)
        decreases length
      {
        WritePage(sgl, s, dmaAddr, len, length, data, all);
        var ok;
        ok, prpList, i, view := StoreEntry(pools, prpList, i, dmaAddr, pages, view, data, base);
        if !ok { return Resource, 0, []; }
        data := data + [dmaAddr];
        len := len - PAGE;
        dmaAddr := dmaAddr + PAGE;
        length := length - PAGE;
        if length <= 0 {
          return Ok, i, view;
        }
        if len <= 0 {
          if len < 0 { assert false; }  // bad_sgl
          s := s + 1;
          dmaAddr := sgl[s].addr;
          len := sgl[s].len;
        }
      }
    }

    /** A memory in which the device finds this request's list buffers. */
    ghost predicate Covers(mem: Memory)
      reads this`list, this`dmas, list
    {
      && |list| == |dmas|
      && forall k :: 0 <= k < |dmas| ==> dmas[k] in mem && mem[dmas[k]] == list[k][..]
    }

    /** The pools' memory is one. */
    lemma ViewCovers(pools: DmaPools, base: map<nat, array<nat>>)
      requires Holds(pools.live, base)
      ensures Covers(pools.View())
    {
      GrowFacts(base, dmas, list);
    }

    /** What the device sees at the list buffers' addresses. */
    lemma StoredView(mem: Memory, live: map<nat, array<nat>>, base: map<nat, array<nat>>, view: seq<seq<nat>>)
      requires Holds(live, base) && Shows(list, view) && Covers(mem)
      ensures |list| == |dmas| == |view| > 0 && firstDma == dmas[0] && (npages == 0 ==> dmas == [firstDma])
      ensures forall k :: 0 <= k < |dmas| ==> dmas[k] in mem && mem[dmas[k]] == view[k]
    {
    }

    lemma StoredFits(base: map<nat, array<nat>>, small: Option<nat>, pages: seq<nat>)
      requires Grants(base.Keys, small, pages)
      requires if npages == 0 then small.Some? && dmas == [small.value]
               else 0 < npages <= |pages| && dmas == pages[..npages]
      ensures forall k :: 0 <= k < |dmas| ==> Fits(dmas[k], Entries())
    {
      forall k | 0 <= k < |dmas| ensures Fits(dmas[k], Entries()) {
        AlignedFits(dmas[k]);
      }
    }

    lemma StoredLinks(live: map<nat, array<nat>>, base: map<nat, array<nat>>, pages: seq<nat>,
                      view: seq<seq<nat>>, i: nat, data: seq<nat>)
      requires Storing(live, base, pages, view, i, data)
      ensures Holds(live, base) && Linked()
      ensures if npages == 0 then dmas == [firstDma] else npages <= |pages| && dmas == pages[..npages]
    {
      forall j | 0 <= j < |list| - 1
        ensures npages > 0 ==> list[j].Length == PAGE_ENTRIES && list[j][LINK] == dmas[j + 1]
      {
        assert list[j][..] == view[j];
      }
    }

    /** The device reads the written list back. */
    lemma StoredList(mem: Memory, live: map<nat, array<nat>>, base: map<nat, array<nat>>, small: Option<nat>,
                     pages: seq<nat>, view: seq<seq<nat>>, i: nat, data: seq<nat>)
      requires Storing(live, base, pages, view, i, data) && i >= 1 && Grants(base.Keys, small, pages)
      requires npages == 0 ==> small.Some? && firstDma == small.value
      requires Covers(mem)
      ensures DecodeList(mem, firstDma, |data|) == Some(data)
      ensures npages >= 0 && (npages > 0 ==> ListPages(|data|) == npages <= |pages|)
    {
      hide Shows;
      hide Holds;
      hide Grants;
      hide Chained;
      hide DecodeList;
      hide Covers;
      StoredView(mem, live, base, view);
      StoredFits(base, small, pages);
      ChainedCount(Entries(), view, dmas, i, data);
      DecodeChained(mem, Entries(), view, dmas, i, data, 0);
      assert data[0..] == data;
      if npages > 0 { ListPagesOf(|data|, npages, i); }
    }

    /** Allocates and writes the list of the entries from the cursor on, at least two of them. */
    method BuildList(pools: DmaPools, sgl: seq<Segment>, s: nat, dmaAddr: nat, len: nat, length: int,
                     small: Option<nat>, pages: seq<nat>)
      returns (r: Status)
      requires WellFormed(sgl) && Cursor(sgl, s, dmaAddr, len, length) && length > PAGE
      requires npages == -1 && list == [] && dmas == [] && Grants(pools.live.Keys, small, pages)
      modifies pools, this`list, this`npages, this`dmas, this`firstDma
      ensures r == Ok || r == Resource
      ensures r == Ok <==> Granted(1 + |Rest(sgl, s, dmaAddr, len)|, small, pages)
      ensures r == Resource ==> pools.live == old(pools.live)
      ensures r == Ok ==> Holds(pools.live, old(pools.live)) && Linked()
      ensures r == Ok ==> dmas == Taken(1 + |Rest(sgl, s, dmaAddr, len)|, small, pages)
      ensures r == Ok ==>
                var data := Rest(sgl, s, dmaAddr, len);
                forall mem :: Covers(mem) ==> DecodeList(mem, firstDma, |data|) == Some(data)
    {
      hide Storing;
      hide Covers;
      hide Linked;
      hide WellFormed;
      hide Holds;
      ghost var base := pools.live;
      ghost var data := Rest(sgl, s, dmaAddr, len);
      RestCount(sgl, s, dmaAddr, len, length);
      var nprps := (length + PAGE - 1) / PAGE;
      var ok;
      ghost var view;
      ghost var last;
      ok, view := FirstBuffer(pools, nprps, small, pages);
      if !ok {
        firstDma := dmaAddr;
        return Resource;
      }
      r, last, view := WriteList(pools, sgl, s, dmaAddr, len, length, pages, base, view);
      if r == Ok {
        StoredLinks(pools.live, base, pages, view, last, data);
        ViewCovers(pools, base);
        StoredList(pools.View(), pools.live, base, small, pages, view, last, data);
        forall mem | Covers(mem)
          ensures DecodeList(mem, firstDma, |data|) == Some(data)
        {
          StoredList(mem, pools.live, base, small, pages, view, last, data);
        }
      } else {
        ListPagesOf(nprps, |pages|, nprps - LINK * (|pages| - 1));
      }
    }

    /** Builds prp1, prp2 and the list pages. It succeeds exactly when the pools grant the buffers
        the page count calls for; what it builds decodes to the scatter list's pages; a failure
        leaves the pools as they were. */
    method SetupPrps(pools: DmaPools, sgl: seq<Segment>, small: Option<nat>, pages: seq<nat>) returns (r: Status)
      requires WellFormed(sgl) && Grants(pools.live.Keys, small, pages)
      requires npages == -1 && list == [] && dmas == []
      modifies pools, this`list, this`npages, this`dmas, this`firstDma, this`prp1, this`prp2
      ensures r == Ok || r == Resource
      ensures r == Ok <==> Granted(|Pages(sgl)|, small, pages)
      ensures r == Resource ==> pools.live == old(pools.live)
      ensures r == Ok ==> Holds(pools.live, old(pools.live)) && Linked()
      ensures r == Ok ==> dmas == Taken(|Pages(sgl)|, small, pages)
      ensures r == Ok ==> Decode(pools.View(), prp1, prp2, Total(sgl)) == Some(Pages(sgl))
      ensures r == Ok ==> Denotes(sgl) && (|Pages(sgl)| == 1 ==> prp2 == 0)
    {
      hide Linked;
      hide Holds;
      hide Grants;
      hide Decode;
      hide Covers;
      hide DmaPools.View;
      hide Pages;
      hide SegmentPages;
      hide Total;
      AfterFirstPage(sgl);
      var s: nat, dmaAddr: nat, len: int, length: int := 0, sgl[0].addr, sgl[0].len, Total(sgl);
      var left := PageLeft(dmaAddr);
      length := length - left;
      if length <= 0 {
        firstDma, prp1, prp2 := 0, sgl[0].addr, 0;
        NoList(pools.live);
        ViewCovers(pools, pools.live);
        DecodeAll(sgl, []);
        return Ok;
      }
      len := len - left;
      if len != 0 {
        dmaAddr := dmaAddr + left;
      } else {
        s := s + 1;
        dmaAddr := sgl[s].addr;
        len := sgl[s].len;
      }
      ghost var data := Rest(sgl, s, dmaAddr, len);
      assert Pages(sgl) == [sgl[0].addr] + data && Cursor(sgl, s, dmaAddr, len, length);
      RestCount(sgl, s, dmaAddr, len, length);
      if length <= PAGE {
        AfterPage(sgl, s, dmaAddr, len, length);
        firstDma, prp1, prp2 := dmaAddr, sgl[0].addr, dmaAddr;
        NoList(pools.live);
        ViewCovers(pools, pools.live);
        DecodeAll(sgl, data);
        return Ok;
      }
      r := BuildList(pools, sgl, s, dmaAddr, len, length, small, pages);
      if r == Ok {
        prp1, prp2 := sgl[0].addr, firstDma;
        ViewCovers(pools, old(pools.live));
        DecodeAll(sgl, data);
      }
    }

    /** The command denotes these segments to a device that finds the request's list buffers,
        whatever else is in memory. */
    ghost predicate Denotes(sgl: seq<Segment>)
      reads this`list, this`dmas, this`prp1, this`prp2, list
    {
      forall mem :: Covers(mem) ==> Decode(mem, prp1, prp2, Total(sgl)) == Some(Pages(sgl))
    }

    lemma DecodeAll(sgl: seq<Segment>, rest: seq<nat>)
      requires WellFormed(sgl) && Pages(sgl) == [sgl[0].addr] + rest && prp1 == sgl[0].addr
      requires |rest| == 1 ==> prp2 == rest[0]
      requires |rest| > 1 ==> forall mem :: Covers(mem) ==> DecodeList(mem, prp2, |rest|) == Some(rest)
      ensures Denotes(sgl)
    {
      hide Covers;
      hide Decode;
      hide Pages;
      hide Total;
      forall mem | Covers(mem) ensures Decode(mem, prp1, prp2, Total(sgl)) == Some(Pages(sgl)) {
        DecodeWhole(mem, sgl, prp2, rest);
      }
    }

    lemma NoList(live: map<nat, array<nat>>)
      requires npages == -1 && list == [] && dmas == []
      ensures Linked() && Holds(live, live)
    {
    }

    /** Everything mapping a request took: list buffers, scatterlist, DMA mappings. */
    ghost predicate Mapped(live: map<nat, array<nat>>, base: map<nat, array<nat>>)
      reads this, list
    {
      if dmaLen != 0 then
        npages == -1 && list == [] && dmas == [] && live == base && pageMapped && !sgHeld && !sgMapped
      else
        Holds(live, base) && Linked() && sgHeld && sgMapped && !pageMapped
    }

    /** The shortcut for one physical segment that spans at most two pages. */
    method SetupPrpSimple(pools: DmaPools, bv: Bvec) returns (r: Status)
      requires Idle() && 0 < bv.len && bv.offset + bv.len <= 2 * PAGE && bv.Preserving()
      modifies this`firstDma, this`dmaLen, this`prp1, this`prp2, this`pageMapped
      ensures r == (if bv.dma.Some? then Ok else Resource)
      ensures r == Resource ==> Idle()
      ensures r == Ok ==> dmaLen == bv.len && firstDma == bv.dma.value && Mapped(pools.live, pools.live)
      ensures r == Ok ==> Denotes([Segment(bv.dma.value, bv.len)])
    {
      var offset := bv.offset % PAGE;
      var firstPrpLen := PAGE - offset;
      if bv.dma.None? { return Resource; }
      firstDma := bv.dma.value;
      pageMapped := true;
      dmaLen := bv.len;
      prp1 := firstDma;
      if bv.len > firstPrpLen {
        prp2 := firstDma + firstPrpLen;
      }
      TwoPages(bv);
      return Ok;
    }

    /** Maps a request. `bv` is its physical segment when it has just one, `sgAlloc` whether the
        mempool had a scatterlist, `sgl` the mapped list (empty if mapping failed). Success
        leaves a PRP structure that decodes to the request's pages; failure leaves nothing held. */
    method MapData(pools: DmaPools, bv: Option<Bvec>, sgAlloc: bool, sgl: seq<Segment>,
                   small: Option<nat>, pages: seq<nat>) returns (r: Status)
      requires Idle() && Grants(pools.live.Keys, small, pages)
      requires bv.Some? ==> bv.value.len > 0 && bv.value.Preserving()
      requires sgl == [] || WellFormed(sgl)
      modifies pools, this
      ensures r == Ok || r == Resource
      ensures r == Ok <==> if bv.Some? && bv.value.offset + bv.value.len <= PAGE * 2 then bv.value.dma.Some?
                           else sgAlloc && sgl != [] && Granted(|Pages(sgl)|, small, pages)
      ensures r == Resource ==> pools.live == old(pools.live) && !sgHeld && !sgMapped && !pageMapped
      ensures r == Ok ==> Mapped(pools.live, old(pools.live)) && Covers(pools.View())
      ensures r == Ok ==>
                if bv.Some? && bv.value.offset + bv.value.len <= PAGE * 2 then
                  dmas == [] && Denotes([Segment(bv.value.dma.value, bv.value.len)])
                else
                  dmas == Taken(|Pages(sgl)|, small, pages) && Denotes(sgl)
    {
      hide Linked;
      hide Holds;
      hide Grants;
      hide Covers;
      hide Denotes;
      if bv.Some? && bv.value.offset + bv.value.len <= PAGE * 2 {
        r := SetupPrpSimple(pools, bv.value);
        if r == Ok {
          NoList(pools.live);
          ViewCovers(pools, pools.live);
        }
        return;
      }
      dmaLen := 0;
      if !sgAlloc { return Resource; }
      sgHeld := true;
      if sgl == [] {
        sgHeld := false;
        return Resource;
      }
      sgMapped := true;
      r := SetupPrps(pools, sgl, small, pages);
      if r != Ok {
        sgMapped := false;
        sgHeld := false;
      } else {
        ViewCovers(pools, old(pools.live));
      }
    }

    /** Undoes MapData: the pools are exactly what they were before the request. */
    method UnmapData(pools: DmaPools, ghost base: map<nat, array<nat>>)
      requires Mapped(pools.live, base)
      modifies pools, this`sgHeld, this`sgMapped, this`pageMapped
      ensures pools.live == base && !sgHeld && !sgMapped && !pageMapped
    {
      if dmaLen != 0 {
        pageMapped := false;
        return;
      }
      sgMapped := false;
      if npages == 0 {
        GrowFacts(base, dmas, list);
        assert dmas[0] == firstDma;
        pools.Free(SMALL_ENTRIES, list[0], firstDma);
        assert Elems(dmas) == {firstDma};
      } else {
        FreePrps(pools, base);
      }
      sgHeld := false;
    }
  }

  /** A physical segment, and the DMA address mapping it would give (None: mapping fails). */
  datatype Bvec = Bvec(offset: nat, len: nat, dma: Option<nat>) {
    /** DMA mapping keeps the offset within a page. */
    predicate Preserving() {
      dma.Some? ==> dma.value % PAGE == offset % PAGE
    }
  }

  lemma TwoPages(bv: Bvec)
    requires 0 < bv.len && bv.offset + bv.len <= 2 * PAGE && bv.dma.Some? && bv.Preserving()
    ensures var dma, left := bv.dma.value, PAGE - bv.offset % PAGE;
            && left == PageLeft(dma)
            && (bv.len <= left ==> PageCount(dma, bv.len) == 1 && Pages([Segment(dma, bv.len)]) == [dma])
            && (bv.len > left ==> PageCount(dma, bv.len) == 2 && Pages([Segment(dma, bv.len)]) == [dma, dma + left])
  {
    var dma, left := bv.dma.value, PageLeft(bv.dma.value);
    assert Pages([Segment(dma, bv.len)]) == SegmentPages(dma, bv.len);
    if bv.len > left {
      assert bv.len - left <= PAGE;
      assert SegmentPages(dma, bv.len) == [dma] + SegmentPages(dma + left, bv.len - left);
      assert SegmentPages(dma + left, bv.len - left) == [dma + left];
    }
  }
}
