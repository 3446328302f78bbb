/** Many requests at once: mapped and unmapped in any order, sharing the two DMA pools. */
module NvmeTraffic {
  import opened Wrappers
  import opened Seqs
  import opened PrpFormat
  import opened NvmeRequest

  /** What one request brings with it, and what the pools would grant it. */
  datatype Load = Load(bv: Option<Bvec>, sgAlloc: bool, sgl: seq<Segment>, small: Option<nat>, pages: seq<nat>) {
    predicate Valid() {
      && (bv.Some? ==> bv.value.len > 0 && bv.value.Preserving())
      && (sgl == [] || WellFormed(sgl))
    }
    /** The segments the device is to see: the one physical segment if the shortcut is taken. */
    function Segments(): seq<Segment> {
      if Short() then
        (if bv.value.dma.Some? then [Segment(bv.value.dma.value, bv.value.len)] else [])
      else sgl
    }
    predicate Short() {
      bv.Some? && bv.value.offset + bv.value.len <= PAGE * 2
    }
    /** Whether everything mapping needs is granted. */
    predicate Succeeds() {
      if Short() then bv.value.dma.Some? else sgAlloc && sgl != [] && Granted(|Pages(sgl)|, small, pages)
    }
    /** The addresses of the list buffers it then takes. */
    function Takes(): set<nat> {
      if Short() then {} else Elems(Taken(|Pages(sgl)|, small, pages))
    }
  }

  datatype Op = Map(i: nat, load: Load) | Unmap(i: nat)

  /** The request holds its list buffers in `live`, whatever else is in there. */
  ghost predicate Owns(iod: Iod, live: map<nat, array<nat>>)
    reads iod, iod.list
  {
    && |iod.list| == |iod.dmas|
    && (forall j, k :: 0 <= j < k < |iod.dmas| ==> iod.dmas[j] != iod.dmas[k])
    && (forall j :: 0 <= j < |iod.dmas| ==> iod.dmas[j] in live && live[iod.dmas[j]] == iod.list[j])
    && iod.Mapped(live, live - Elems(iod.dmas))
  }

  /** A mapped request owns its buffers, at these addresses, and its command denotes its segments. */
  ghost predicate InFlight(iod: Iod, live: map<nat, array<nat>>, owned: set<nat>, sgl: seq<Segment>)
    reads iod, iod.list
  {
    Owns(iod, live) && owned == Elems(iod.dmas) && iod.Denotes(sgl)
  }

  /** A freshly mapped request owns exactly what it added. */
  lemma MappedOwns(iod: Iod, live: map<nat, array<nat>>, base: map<nat, array<nat>>)
    requires iod.Mapped(live, base)
    ensures Owns(iod, live) && live - Elems(iod.dmas) == base
    ensures Elems(iod.dmas) !! base.Keys && Elems(iod.dmas) <= live.Keys
    ensures forall d :: d in base ==> d in live && live[d] == base[d]
  {
    if iod.dmaLen == 0 {
      GrowFacts(base, iod.dmas, iod.list);
      assert live - Elems(iod.dmas) == base;
    } else {
      assert Elems(iod.dmas) == {};
      assert live - {} == live;
    }
    forall d | d in base ensures d in live && live[d] == base[d] {
      assert d in live - Elems(iod.dmas);
    }
  }

  lemma InFlightMapped(iod: Iod, live: map<nat, array<nat>>, owned: set<nat>, sgl: seq<Segment>)
    requires InFlight(iod, live, owned, sgl)
    ensures iod.Mapped(live, live - owned)
  {
  }

  lemma OwnsCovers(iod: Iod, pools: DmaPools)
    requires Owns(iod, pools.live)
    ensures iod.Covers(pools.View())
  {
  }

  /** Other requests' comings and goings do not matter to one in flight. */
  lemma Undisturbed(iod: Iod, live: map<nat, array<nat>>, live': map<nat, array<nat>>, owned: set<nat>,
                    sgl: seq<Segment>)
    requires InFlight(iod, live, owned, sgl)
    requires forall d :: d in owned && d in live ==> d in live' && live'[d] == live[d]
    ensures InFlight(iod, live', owned, sgl)
  {
    hide Iod.Denotes;
    forall j | 0 <= j < |iod.dmas| ensures iod.dmas[j] in live' && live'[iod.dmas[j]] == iod.list[j] {
      assert iod.dmas[j] in Elems(iod.dmas);
    }
    Regrow(live', iod.dmas, iod.list);
    if iod.dmaLen != 0 { assert live' - Elems(iod.dmas) == live'; }
  }

  /** Maps one request among others: exactly if all it needs is granted. */
  method Attach(pools: DmaPools, iod: Iod, load: Load) returns (r: Status)
    requires iod.Free() && load.Valid() && Grants(pools.live.Keys, load.small, load.pages)
    modifies pools, iod
    ensures r == Ok || r == Resource
    ensures r == Ok <==> load.Succeeds()
    ensures r == Resource ==> iod.Free() && pools.live == old(pools.live)
    ensures r == Ok ==>
              var mine := load.Takes();
              && InFlight(iod, pools.live, mine, load.Segments())
              && pools.live - mine == old(pools.live) && mine !! old(pools.live).Keys && mine <= pools.live.Keys
    ensures forall d :: d in old(pools.live) ==> d in pools.live && pools.live[d] == old(pools.live)[d]
  {
    hide Owns;
    hide Grants;
    hide Granted;
    hide Taken;
    hide WellFormed;
    hide Iod.Mapped;
    hide Iod.Covers;
    hide Iod.Denotes;
    iod.Begin();
    r := iod.MapData(pools, load.bv, load.sgAlloc, load.sgl, load.small, load.pages);
    if r == Ok {
      MappedOwns(iod, pools.live, old(pools.live));
      assert Elems(iod.dmas) == load.Takes();
    }
  }

  // --------------------------------------------------------------------------
  // The ledger: what a script of operations leaves mapped, by the script alone

  /** A mapped request: the addresses it holds and the segments it is for. */
  datatype Entry = Entry(addresses: set<nat>, segments: seq<Segment>)

  type Ledger = map<nat, Entry>

  function Addresses(l: Ledger): set<nat> {
    set i, d | i in l && d in l[i].addresses :: d
  }

  /** Whether an operation can happen: `keys` are the addresses in use by others, `n` the number of
      requests there are. A map needs a request that is not mapped and pools that would grant
      addresses not in use. */
  predicate Able(l: Ledger, keys: set<nat>, n: nat, op: Op) {
    match op
    case Map(i, load) => i < n && i !in l && load.Valid() && Grants(keys + Addresses(l), load.small, load.pages)
    case Unmap(i) => i in l
  }

  function Entered(l: Ledger, i: nat, load: Load): Ledger {
    if load.Succeeds() then l[i := Entry(load.Takes(), load.Segments())] else l
  }

  function Next(l: Ledger, keys: set<nat>, n: nat, op: Op): Ledger {
    if !Able(l, keys, n, op) then l
    else
      match op
      case Map(i, load) => Entered(l, i, load)
      case Unmap(i) => l - {i}
  }

  function After(l: Ledger, keys: set<nat>, n: nat, script: seq<Op>): Ledger
    decreases |script|
  {
    if script == [] then l
    else Next(After(l, keys, n, script[..|script| - 1]), keys, n, script[|script| - 1])
  }

  /** Operation k of the script maps request i, and nothing after it unmaps it. */
  ghost predicate MapsLast(keys: set<nat>, n: nat, script: seq<Op>, i: nat, k: nat) {
    && k < |script| && script[k].Map? && script[k].i == i && script[k].load.Succeeds()
    && Able(After(map[], keys, n, script[..k]), keys, n, script[k])
    && forall m :: k < m < |script| ==> script[m] != Unmap(i)
  }

  /** Whatever the script: a request is mapped in the end exactly if some operation mapped it and
      none after that unmapped it, and it then holds what that operation took. */
  lemma {:induction false} LastMapHolds(keys: set<nat>, n: nat, script: seq<Op>, i: nat)
    ensures var l := After(map[], keys, n, script);
            && (i in l <==> exists k: nat :: MapsLast(keys, n, script, i, k))
            && (forall k: nat :: MapsLast(keys, n, script, i, k) ==>
                  i in l && l[i] == Entry(script[k].load.Takes(), script[k].load.Segments()))
    decreases |script|
  {
    hide Grants;
    hide Load.Valid;
    hide Load.Succeeds;
    hide Load.Takes;
    hide Load.Segments;
    if script != [] {
      var m := |script| - 1;
      var init, op := script[..m], script[m];
      var l := After(map[], keys, n, init);
      LastMapHolds(keys, n, init, i);
      forall k: nat | k < m
        ensures MapsLast(keys, n, script, i, k) <==> MapsLast(keys, n, init, i, k) && op != Unmap(i)
      {
        assert init[..k] == script[..k];
      }
      assert script[..m] == init;
      if i in After(map[], keys, n, script) {
        if op.Map? && op.i == i && i !in l {
          assert MapsLast(keys, n, script, i, m);
        } else {
          var k: nat :| MapsLast(keys, n, init, i, k);
          assert MapsLast(keys, n, script, i, k);
        }
      }
      forall k: nat | MapsLast(keys, n, script, i, k)
        ensures After(map[], keys, n, script) == Next(l, keys, n, op)
        ensures i in Next(l, keys, n, op)
        ensures Next(l, keys, n, op)[i] == Entry(script[k].load.Takes(), script[k].load.Segments())
      {
        if k < m { assert MapsLast(keys, n, init, i, k); }
      }
    }
  }

  // --------------------------------------------------------------------------
  // The books: the pools against the ledger

  /** `live` is `base` plus, disjointly, what the mapped requests hold. */
  ghost predicate Books(live: map<nat, array<nat>>, base: map<nat, array<nat>>, l: Ledger) {
    && (forall i, j :: i in l && j in l && i != j ==> l[i].addresses !! l[j].addresses)
    && (forall i :: i in l ==> l[i].addresses <= live.Keys && l[i].addresses !! base.Keys)
    && live - Addresses(l) == base
  }

  lemma BooksKeys(live: map<nat, array<nat>>, base: map<nat, array<nat>>, l: Ledger)
    requires Books(live, base, l)
    ensures live.Keys == base.Keys + Addresses(l) && base.Keys !! Addresses(l)
  {
    forall d ensures d in live.Keys <==> d in base.Keys + Addresses(l) {
      if d in live && d !in Addresses(l) { assert d in live - Addresses(l); }
      if d in base { assert d in live - Addresses(l); }
    }
  }

  lemma BooksMap(live: map<nat, array<nat>>, live': map<nat, array<nat>>, base: map<nat, array<nat>>, l: Ledger,
                 i: nat, e: Entry)
    requires Books(live, base, l) && i !in l
    requires live' - e.addresses == live && e.addresses !! live.Keys && e.addresses <= live'.Keys
    ensures Books(live', base, l[i := e])
  {
    var l' := l[i := e];
    forall d ensures d in Addresses(l') <==> d in Addresses(l) + e.addresses {
      if d in e.addresses { assert l'[i] == e; }
      if d in Addresses(l) {
        var j :| j in l && d in l[j].addresses;
        assert l'[j] == l[j];
      }
    }
    assert Addresses(l') == Addresses(l) + e.addresses;
    BooksKeys(live, base, l);
    assert live' - (Addresses(l) + e.addresses) == (live' - e.addresses) - Addresses(l);
  }

  lemma BooksUnmap(live: map<nat, array<nat>>, base: map<nat, array<nat>>, l: Ledger, i: nat)
    requires Books(live, base, l) && i in l
    ensures Books(live - l[i].addresses, base, l - {i})
    ensures forall j :: j in l && j != i ==> l[j].addresses !! l[i].addresses
  {
    var l', mine := l - {i}, l[i].addresses;
    forall d ensures d in Addresses(l) <==> d in Addresses(l') + mine {
      if d in Addresses(l) {
        var j :| j in l && d in l[j].addresses;
        if j != i { assert j in l' && l'[j] == l[j]; }
      }
    }
    assert Addresses(l) == Addresses(l') + mine;
    assert (live - mine) - Addresses(l') == live - Addresses(l);
  }

  lemma BooksEmpty(live: map<nat, array<nat>>, base: map<nat, array<nat>>)
    ensures Books(live, base, map[]) <==> live == base
  {
    assert Addresses(map[]) == {};
    assert live - {} == live;
  }

  class Driver {
    const pools: DmaPools
    const iods: seq<Iod>
    var mapped: set<nat>
    ghost var ledger: Ledger
    ghost const base: map<nat, array<nat>>

    /** Each mapped request owns what the ledger says and its command denotes its segments, the
        others hold nothing, and the books balance. */
    ghost predicate Valid()
      reads *
    {
      && mapped == ledger.Keys && (forall i :: i in mapped ==> i < |iods|)
      && (forall i, j :: 0 <= i < j < |iods| ==> iods[i] != iods[j])
      && (forall i :: 0 <= i < |iods| ==>
            if i in ledger then InFlight(iods[i], pools.live, ledger[i].addresses, ledger[i].segments)
            else iods[i].Free())
      && Books(pools.live, base, ledger)
    }

    constructor (p: DmaPools, requests: seq<Iod>)
      requires forall i, j :: 0 <= i < j < |requests| ==> requests[i] != requests[j]
      requires forall i :: 0 <= i < |requests| ==> requests[i].Free()
      ensures Valid() && pools == p && iods == requests && base == p.live && ledger == map[]
    {
      pools, iods, mapped := p, requests, {};
      base, ledger := p.live, map[];
      new;
      BooksEmpty(pools.live, base);
    }

    /** Queues one request: it is mapped, exactly if all it needs is granted, or holds nothing. */
    method MapRequest(i: nat, load: Load) returns (r: Status)
      requires Valid() && i < |iods| && i !in mapped
      requires load.Valid() && Grants(pools.live.Keys, load.small, load.pages)
      modifies pools, iods[i], this`mapped, this`ledger
      ensures Valid() && (r == Ok <==> load.Succeeds())
      ensures ledger == Entered(old(ledger), i, load)
      ensures r != Ok ==> r == Resource && pools.live == old(pools.live)
    {
      hide InFlight;
      hide Grants;
      hide Books;
      hide Load.Valid;
      hide Load.Segments;
      hide Load.Succeeds;
      hide Load.Takes;
      ghost var live, e := pools.live, Entry(load.Takes(), load.Segments());
      r := Attach(pools, iods[i], load);
      if r != Ok { return; }
      forall j | 0 <= j < |iods| && j in ledger
        ensures InFlight(iods[j], pools.live, ledger[j].addresses, ledger[j].segments)
      {
        Undisturbed(iods[j], live, pools.live, ledger[j].addresses, ledger[j].segments);
      }
      BooksMap(live, pools.live, base, ledger, i, e);
      mapped := mapped + {i};
      ledger := ledger[i := e];
    }

    /** Completes one request, in whatever order. */
    method UnmapRequest(i: nat)
      requires Valid() && i in mapped
      modifies pools, iods[i], this`mapped, this`ledger
      ensures Valid() && ledger == old(ledger) - {i}
    {
      hide InFlight;
      hide Books;
      hide Iod.Mapped;
      ghost var live, mine := pools.live, ledger[i].addresses;
      InFlightMapped(iods[i], live, mine, ledger[i].segments);
      iods[i].UnmapData(pools, live - mine);
      BooksUnmap(live, base, ledger, i);
      forall j | 0 <= j < |iods| && j in ledger && j != i
        ensures InFlight(iods[j], pools.live, ledger[j].addresses, ledger[j].segments)
      {
        Undisturbed(iods[j], live, pools.live, ledger[j].addresses, ledger[j].segments);
      }
      mapped := mapped - {i};
      ledger := ledger - {i};
    }

    /** Whether an operation can happen now, by the driver's own state. */
    predicate Possible(op: Op)
      reads this, pools
    {
      match op
      case Map(i, load) =>
        i < |iods| && i !in mapped && load.Valid() && Grants(pools.live.Keys, load.small, load.pages)
      case Unmap(i) => i in mapped
    }

    lemma PossibleIsAble(op: Op)
      requires Valid()
      ensures Possible(op) <==> Able(ledger, base.Keys, |iods|, op)
      ensures op.Unmap? && Possible(op) ==> op.i < |iods|
    {
      hide InFlight;
      hide Grants;
      hide Books;
      hide Load.Valid;
      BooksKeys(pools.live, base, ledger);
    }

    /** One operation of a script, if it can happen. */
    method Perform(op: Op)
      requires Valid()
      modifies this`mapped, this`ledger, pools, iods
      ensures Valid() && ledger == Next(old(ledger), base.Keys, |iods|, op)
    {
      hide Valid;
      hide Grants;
      hide Load.Valid;
      hide Able;
      hide Entered;
      PossibleIsAble(op);
      if Possible(op) {
        match op {
          case Map(i, load) => var _ := MapRequest(i, load);
          case Unmap(i) => UnmapRequest(i);
        }
      }
    }

    /** Any run of maps and unmaps, with allocations and mappings failing as the loads say. What is
        mapped in the end, and at which addresses, is what the script says; the pools hold what they
        held before plus exactly that; and the command of every mapped request decodes to its pages,
        whatever came and went since it was built. */
    method Serve(script: seq<Op>)
      requires Valid()
      modifies this`mapped, this`ledger, pools, iods
      ensures Valid() && ledger == After(old(ledger), base.Keys, |iods|, script)
      ensures mapped == ledger.Keys && pools.live - Addresses(ledger) == base
      ensures pools.live.Keys == base.Keys + Addresses(ledger)
      ensures forall i :: 0 <= i < |iods| && i in ledger ==>
                Decode(pools.View(), iods[i].prp1, iods[i].prp2, Total(ledger[i].segments))
                == Some(Pages(ledger[i].segments))
    {
      for k := 0 to |script|
        invariant Valid() && ledger == After(old(ledger), base.Keys, |iods|, script[..k])
      {
        hide Valid;
        hide Next;
        assert script[..k + 1][..k] == script[..k];
        Perform(script[k]);
      }
      assert script[..|script|] == script;
      BooksKeys(pools.live, base, ledger);
      forall i | 0 <= i < |iods| && i in ledger
        ensures Decode(pools.View(), iods[i].prp1, iods[i].prp2, Total(ledger[i].segments))
             == Some(Pages(ledger[i].segments))
      {
        StillDecodes(i);
      }
    }

    lemma StillDecodes(i: nat)
      requires Valid() && i < |iods| && i in ledger
      ensures Decode(pools.View(), iods[i].prp1, iods[i].prp2, Total(ledger[i].segments))
           == Some(Pages(ledger[i].segments))
    {
      hide Decode;
      hide Books;
      OwnsCovers(iods[i], pools);
    }
  }
}
