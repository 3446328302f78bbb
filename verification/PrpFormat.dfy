/** What an NVMe PRP structure means, and the page arithmetic of a scatter list.

    A command points at its data with PRP entries (section 4.3 of NVM Express 1.4): the first
    entry may start inside a page, every later one is a page start, and when more than two are
    needed the second pointer names a list whose last slot links to a further list when the rest
    does not fit before the page boundary. */
module PrpFormat {
  import opened Wrappers

  const PAGE := 4096
  const SLOT := 8                  // bytes per list entry
  const SMALL_ENTRIES := 32        // one element of the 256-byte pool
  const PAGE_ENTRIES := 512        // one element of the page pool
  const LINK := 511               // the slot that holds the link of a full list page

  /** One DMA-mapped segment. */
  datatype Segment = Segment(addr: nat, len: nat)

  /** Bytes from an address to the end of its page. */
  function PageLeft(addr: nat): (r: nat)
    ensures 0 < r <= PAGE && (addr + r) % PAGE == 0
  {
    PAGE - addr % PAGE
  }

  function Total(sgl: seq<Segment>): nat {
    if sgl == [] then 0 else sgl[0].len + Total(sgl[1..])
  }

  /** The block layer's virtual-boundary rule: only the first segment may start inside a page,
      only the last may end inside one. */
  predicate WellFormed(sgl: seq<Segment>) {
    && sgl != []
    && (forall i :: 0 <= i < |sgl| ==> sgl[i].len > 0)
    && (forall i :: 0 < i < |sgl| ==> sgl[i].addr % PAGE == 0)
    && (forall i :: 0 <= i < |sgl| - 1 ==> (sgl[i].addr + sgl[i].len) % PAGE == 0)
  }

  /** The page pieces of one segment, by start address. */
  function SegmentPages(addr: nat, len: nat): seq<nat>
    decreases len
  {
    if len == 0 then []
    else if len <= PageLeft(addr) then [addr]
    else [addr] + SegmentPages(addr + PageLeft(addr), len - PageLeft(addr))
  }

  /** The page pieces of a scatter list, in order. */
  function Pages(sgl: seq<Segment>): seq<nat> {
    if sgl == [] then [] else SegmentPages(sgl[0].addr, sgl[0].len) + Pages(sgl[1..])
  }

  // --------------------------------------------------------------------------
  // The device's reading of a PRP structure

  /** What the device sees at each DMA address that holds a list buffer. */
  type Memory = map<nat, seq<nat>>

  function PageCount(prp1: nat, len: nat): nat {
    (prp1 % PAGE + len + PAGE - 1) / PAGE
  }

  /** Reads `k` entries of the list at `dma`. The list runs to the page boundary; if `k` entries
      do not fit, the last slot before the boundary is a link. None: the device would read
      memory that is no list buffer. */
  function DecodeList(mem: Memory, dma: nat, k: nat): Option<seq<nat>>
    decreases k
  {
    var cap := PageLeft(dma) / SLOT;
    if dma !in mem then None
    else if k <= cap then
      if k <= |mem[dma]| then Some(mem[dma][..k]) else None
    else if cap < 2 || |mem[dma]| < cap then None
    else
      var rest :- DecodeList(mem, mem[dma][cap - 1], k - (cap - 1));
      Some(mem[dma][..cap - 1] + rest)
  }

  function Decode(mem: Memory, prp1: nat, prp2: nat, len: nat): Option<seq<nat>> {
    var n := PageCount(prp1, len);
    if n <= 1 then Some([prp1])
    else if n == 2 then Some([prp1, prp2])
    else
      var rest :- DecodeList(mem, prp2, n - 1);
      Some([prp1] + rest)
  }

  // --------------------------------------------------------------------------
  // The byte each side means by "byte k of the transfer"

  function PrpByte(prps: seq<nat>, k: nat): Option<nat>
    decreases |prps|
  {
    if prps == [] then None
    else if k < PageLeft(prps[0]) then Some(prps[0] + k)
    else PrpByte(prps[1..], k - PageLeft(prps[0]))
  }

  function SglByte(sgl: seq<Segment>, k: nat): Option<nat>
    decreases |sgl|
  {
    if sgl == [] then None
    else if k < sgl[0].len then Some(sgl[0].addr + k)
    else SglByte(sgl[1..], k - sgl[0].len)
  }

  /** Pieces of a segment followed by other pieces: the segment's bytes come first. */
  lemma {:induction false} SegmentByte(addr: nat, len: nat, more: seq<nat>, k: nat)
    requires 0 < len
    requires k >= len ==> (addr + len) % PAGE == 0
    ensures PrpByte(SegmentPages(addr, len) + more, k)
         == if k < len then Some(addr + k) else PrpByte(more, k - len)
    decreases len
  {
    var left := PageLeft(addr);
    var ps := SegmentPages(addr, len) + more;
    if len <= left {
      assert ps == [addr] + more && ps[1..] == more;
      if k >= len { SegmentEnds(addr, len); }
    } else {
      assert ps == [addr] + (SegmentPages(addr + left, len - left) + more);
      assert ps[1..] == SegmentPages(addr + left, len - left) + more;
      if k >= left { SegmentByte(addr + left, len - left, more, k - left); }
    }
  }

  lemma SegmentEnds(addr: nat, len: nat)
    requires 0 < len <= PageLeft(addr) && (addr + len) % PAGE == 0
    ensures len == PageLeft(addr)
  {
  }

  lemma TailWellFormed(sgl: seq<Segment>)
    requires WellFormed(sgl) && |sgl| > 1
    ensures WellFormed(sgl[1..]) && sgl[1].addr % PAGE == 0
  {
    var t := sgl[1..];
    assert forall i :: 0 <= i < |t| ==> t[i] == sgl[i + 1];
  }

  /** The page sequence denotes exactly the scatter list's bytes, in order. */
  lemma {:induction false} PagesDenoteBytes(sgl: seq<Segment>, k: nat)
    requires WellFormed(sgl) && k < Total(sgl)
    ensures PrpByte(Pages(sgl), k) == SglByte(sgl, k)
    decreases |sgl|
  {
    SegmentByte(sgl[0].addr, sgl[0].len, Pages(sgl[1..]), k);
    if k >= sgl[0].len {
      assert |sgl| > 1;
      TailWellFormed(sgl);
      PagesDenoteBytes(sgl[1..], k - sgl[0].len);
    }
  }

  // --------------------------------------------------------------------------
  // A cursor into the scatter list: segment s, with `len` bytes of it left from `addr`

  ghost predicate Cursor(sgl: seq<Segment>, s: nat, addr: nat, len: int, length: int) {
    && s < |sgl|
    && addr % PAGE == 0
    && len > 0
    && (s < |sgl| - 1 ==> (addr + len) % PAGE == 0)
    && length == len + Total(sgl[s + 1..])
  }

  function Rest(sgl: seq<Segment>, s: nat, addr: nat, len: nat): seq<nat>
    requires s < |sgl|
  {
    SegmentPages(addr, len) + Pages(sgl[s + 1..])
  }

  lemma {:induction false} TotalPositive(sgl: seq<Segment>, s: nat)
    requires WellFormed(sgl) && s < |sgl|
    ensures Total(sgl[s..]) == sgl[s].len + Total(sgl[s + 1..])
    ensures Pages(sgl[s..]) == Rest(sgl, s, sgl[s].addr, sgl[s].len)
  {
    assert sgl[s..][1..] == sgl[s + 1..];
  }

  /** After the first page: either the data is all in it, or the cursor moves as the driver
      moves it, to the rest of the first segment or to the second one. */
  lemma {:induction false} AfterFirstPage(sgl: seq<Segment>)
    requires WellFormed(sgl)
    ensures var left := PageLeft(sgl[0].addr); var len := sgl[0].len as int - left;
            var length := Total(sgl) as int - left;
            if length <= 0 then Pages(sgl) == [sgl[0].addr]
            else if len != 0 then
              && Cursor(sgl, 0, sgl[0].addr + left, len, length)
              && Pages(sgl) == [sgl[0].addr] + Rest(sgl, 0, sgl[0].addr + left, len)
            else
              && |sgl| > 1
              && Cursor(sgl, 1, sgl[1].addr, sgl[1].len, length)
              && Pages(sgl) == [sgl[0].addr] + Rest(sgl, 1, sgl[1].addr, sgl[1].len)
  {
    TotalPositive(sgl, 0);
    assert sgl[0..] == sgl;
    if |sgl| > 1 { TotalPositive(sgl, 1); } else { assert sgl[1..] == []; }
    if sgl[0].len <= PageLeft(sgl[0].addr) { assert SegmentPages(sgl[0].addr, sgl[0].len) == [sgl[0].addr]; }
  }

  /** One page later: the data ends, or the segment goes on, or it ends exactly here and the
      next one starts. In particular a segment never ends inside a page while data remains. */
  lemma {:induction false} AfterPage(sgl: seq<Segment>, s: nat, addr: nat, len: int, length: int)
    requires WellFormed(sgl) && Cursor(sgl, s, addr, len, length)
    ensures if length <= PAGE then Rest(sgl, s, addr, len) == [addr]
            else if len > PAGE then
              && Cursor(sgl, s, addr + PAGE, len - PAGE, length - PAGE)
              && Rest(sgl, s, addr, len) == [addr] + Rest(sgl, s, addr + PAGE, len - PAGE)
            else
              && len == PAGE && s + 1 < |sgl|
              && Cursor(sgl, s + 1, sgl[s + 1].addr, sgl[s + 1].len, length - PAGE)
              && Rest(sgl, s, addr, len) == [addr] + Rest(sgl, s + 1, sgl[s + 1].addr, sgl[s + 1].len)
  {
    if s + 1 < |sgl| { TotalPositive(sgl, s + 1); } else { assert sgl[s + 1..] == []; }
    if len <= PAGE { assert SegmentPages(addr, len) == [addr]; }
  }

  /** Writing the cursor's page keeps "written so far, then the rest" equal to the whole. */
  lemma {:induction false} WritePage(sgl: seq<Segment>, s: nat, addr: nat, len: int, length: int,
                                     data: seq<nat>, all: seq<nat>)
    requires WellFormed(sgl) && Cursor(sgl, s, addr, len, length)
    requires data + Rest(sgl, s, addr, len) == all
    ensures |data| < |all|
    ensures if length <= PAGE then data + [addr] == all
            else if len > PAGE then
              && Cursor(sgl, s, addr + PAGE, len - PAGE, length - PAGE)
              && (data + [addr]) + Rest(sgl, s, addr + PAGE, len - PAGE) == all
            else
              && len == PAGE && s + 1 < |sgl|
              && Cursor(sgl, s + 1, sgl[s + 1].addr, sgl[s + 1].len, length - PAGE)
              && (data + [addr]) + Rest(sgl, s + 1, sgl[s + 1].addr, sgl[s + 1].len) == all
  {
    AfterPage(sgl, s, addr, len, length);
    var rest := Rest(sgl, s, addr, len);
    assert data + rest == (data + [addr]) + rest[1..];
  }

  /** The driver's entry count, DIV_ROUND_UP(length, PAGE), is the number of entries left. */
  lemma {:induction false} RestCount(sgl: seq<Segment>, s: nat, addr: nat, len: int, length: int)
    requires WellFormed(sgl) && Cursor(sgl, s, addr, len, length)
    ensures |Rest(sgl, s, addr, len)| == (length + PAGE - 1) / PAGE
    decreases length
  {
    AfterPage(sgl, s, addr, len, length);
    if length > PAGE {
      if len > PAGE {
        RestCount(sgl, s, addr + PAGE, len - PAGE, length - PAGE);
      } else {
        RestCount(sgl, s + 1, sgl[s + 1].addr, sgl[s + 1].len, length - PAGE);
      }
    }
  }

  /** The device counts as many pages as the scatter list has. */
  lemma {:induction false} PageCountOfSgl(sgl: seq<Segment>)
    requires WellFormed(sgl)
    ensures PageCount(sgl[0].addr, Total(sgl)) == |Pages(sgl)|
  {
    var left := PageLeft(sgl[0].addr);
    AfterFirstPage(sgl);
    if Total(sgl) > left {
      if sgl[0].len > left {
        RestCount(sgl, 0, sgl[0].addr + left, sgl[0].len - left, Total(sgl) - left);
      } else {
        RestCount(sgl, 1, sgl[1].addr, sgl[1].len, Total(sgl) - left);
      }
    } else {
      TotalPositive(sgl, 0);
      assert sgl[0..] == sgl;
    }
  }

  // --------------------------------------------------------------------------
  // A chain of list pages

  /** `data` laid out over list buffers of `entries` slots: every page but the last holds LINK entries and a link to the
      next, the last holds `i` entries. */
  ghost predicate Chained(entries: nat, pages: seq<seq<nat>>, dmas: seq<nat>, i: nat, data: seq<nat>) {
    && |pages| == |dmas| > 0
    && (|pages| > 1 ==> entries == PAGE_ENTRIES)
    && (forall j :: 0 <= j < |pages| ==> |pages[j]| == entries)
    && i <= entries
    && |data| == LINK * (|pages| - 1) + i
    && (forall j, k {:trigger pages[j][k]} :: 0 <= j < |pages| && 0 <= k < (if j < |pages| - 1 then LINK else i) ==>
          pages[j][k] == data[LINK * j + k])
    && (forall j :: 0 <= j < |pages| - 1 ==> pages[j][LINK] == dmas[j + 1])
  }

  lemma ChainedCount(entries: nat, pages: seq<seq<nat>>, dmas: seq<nat>, i: nat, data: seq<nat>)
    requires Chained(entries, pages, dmas, i, data)
    ensures |data| == LINK * (|pages| - 1) + i && i <= entries && (|pages| > 1 ==> entries == PAGE_ENTRIES)
  {
  }

  /** Writing one entry. */
  lemma ChainedWrite(entries: nat, pages: seq<seq<nat>>, dmas: seq<nat>, i: nat, data: seq<nat>, x: nat)
    requires Chained(entries, pages, dmas, i, data) && i < entries
    ensures var m := |pages| - 1; var page: seq<nat> := pages[m][i := x];
            Chained(entries, pages[m := page], dmas, i + 1, data + [x])
  {
  }

  /** Linking a new page: the last entry of the full page moves to slot 0 of the new one and the
      link takes its place. No entry is lost or duplicated. */
  lemma ChainedLink(pages: seq<seq<nat>>, dmas: seq<nat>, data: seq<nat>, page: seq<nat>, dma: nat)
    requires Chained(PAGE_ENTRIES, pages, dmas, PAGE_ENTRIES, data) && |page| == PAGE_ENTRIES
    ensures var m := |pages| - 1;
            var full: seq<nat> := pages[m][LINK := dma];
            var more: seq<nat> := page[0 := pages[m][LINK]];
            Chained(PAGE_ENTRIES, pages[m := full] + [more], dmas + [dma], 1, data)
  {
  }

  /** A list buffer that does not cross a page boundary. */
  ghost predicate Fits(dma: nat, entries: nat) {
    SLOT * entries <= PageLeft(dma)
  }

  /** Both pools align their elements to their size, so no element crosses a page boundary. */
  lemma AlignedFits(dma: nat)
    ensures dma % 256 == 0 ==> Fits(dma, SMALL_ENTRIES)
    ensures dma % PAGE == 0 ==> Fits(dma, PAGE_ENTRIES)
  {
    if dma % 256 == 0 {
      assert dma % PAGE == 256 * ((dma / 256) % 16);
    }
  }

  /** The device, started at page j, reads the entries from page j on. */
  lemma {:induction false} DecodeChained(mem: Memory, entries: nat, pages: seq<seq<nat>>, dmas: seq<nat>, i: nat,
                                         data: seq<nat>, j: nat)
    requires Chained(entries, pages, dmas, i, data) && j < |pages|
    requires if |pages| > 1 then i >= 2 else i >= 1
    requires forall k :: 0 <= k < |dmas| ==> dmas[k] in mem && mem[dmas[k]] == pages[k]
    requires forall k :: 0 <= k < |dmas| ==> Fits(dmas[k], entries)
    ensures DecodeList(mem, dmas[j], |data| - LINK * j) == Some(data[LINK * j..])
    decreases |pages| - j
  {
    hide DecodeList;
    if j < |pages| - 1 {
      DecodeChained(mem, entries, pages, dmas, i, data, j + 1);
      ReadFullPage(mem, dmas[j], |data| - LINK * j, data[LINK * (j + 1)..]);
      PageSlice(pages[j], data, LINK * j, LINK);
    } else {
      ReadLastPage(mem, dmas[j], i);
      PageSlice(pages[j], data, LINK * j, i);
      assert |data| - LINK * j == i && pages[j][..i] + data[LINK * j + i..] == pages[j][..i];
    }
  }

  lemma PageSlice(page: seq<nat>, data: seq<nat>, at: nat, n: nat)
    requires n <= |page| && at + n <= |data|
    requires forall k :: 0 <= k < n ==> page[k] == data[at + k]
    ensures page[..n] + data[at + n..] == data[at..]
  {
  }

  lemma ReadLastPage(mem: Memory, dma: nat, k: nat)
    requires dma in mem && k <= |mem[dma]| && Fits(dma, k)
    ensures DecodeList(mem, dma, k) == Some(mem[dma][..k])
  {
  }

  lemma ReadFullPage(mem: Memory, dma: nat, k: nat, rest: seq<nat>)
    requires dma in mem && |mem[dma]| == PAGE_ENTRIES && Fits(dma, PAGE_ENTRIES) && k > PAGE_ENTRIES
    requires DecodeList(mem, mem[dma][LINK], k - LINK) == Some(rest)
    ensures DecodeList(mem, dma, k) == Some(mem[dma][..LINK] + rest)
  {
    assert PageLeft(dma) / SLOT == PAGE_ENTRIES;
  }

  /** prp1 and prp2 as the driver sets them decode to the whole page sequence. */
  lemma DecodeWhole(mem: Memory, sgl: seq<Segment>, prp2: nat, rest: seq<nat>)
    requires WellFormed(sgl) && Pages(sgl) == [sgl[0].addr] + rest
    requires |rest| == 1 ==> prp2 == rest[0]
    requires |rest| > 1 ==> DecodeList(mem, prp2, |rest|) == Some(rest)
    ensures Decode(mem, sgl[0].addr, prp2, Total(sgl)) == Some(Pages(sgl))
  {
    PageCountOfSgl(sgl);
    assert |Pages(sgl)| == 1 + |rest|;
    var n := PageCount(sgl[0].addr, Total(sgl));
    if n == 1 {
      assert Pages(sgl) == [sgl[0].addr];
    } else if n == 2 {
      assert Pages(sgl) == [sgl[0].addr, prp2];
    } else {
      assert DecodeList(mem, prp2, n - 1) == Some(rest);
    }
  }
}
