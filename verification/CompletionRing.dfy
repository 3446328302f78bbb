/** The phase-tagged completion ring between the host and the ANS controller.

    The device posts entries in ring order and flips the phase bit on every lap; the host takes
    the entry at its head as new exactly when the phase bit matches its own (sections 4.1.2 and
    4.6 of NVM Express 1.4). Nothing in the driver checks that the device has room: the tag sets
    are one smaller than the ring. The machine below interleaves submissions, device posts and
    the two halves of the host's loop body freely. */
module CompletionRing {
  import opened Seqs

  datatype Cqe = Cqe(commandId: nat, phase: bool)

  /** A place in the ring and the phase bit of the lap. */
  datatype Place = Place(slot: nat, phase: bool)

  /** The successor of a place, as both sides compute it. */
  function Next(p: Place, depth: nat): Place {
    if p.slot + 1 == depth then Place(0, !p.phase) else Place(p.slot + 1, p.phase)
  }

  /** The place of the n-th completion since queue initialisation. */
  function PlaceOf(n: nat, depth: nat): Place {
    if n == 0 then Place(0, true) else Next(PlaceOf(n - 1, depth), depth)
  }

  lemma {:induction false} PlaceInRing(n: nat, depth: nat)
    requires depth > 0
    ensures PlaceOf(n, depth).slot < depth
  {
    if n > 0 { PlaceInRing(n - 1, depth); }
  }

  lemma PlaceNext(n: nat, depth: nat)
    ensures PlaceOf(n + 1, depth) == Next(PlaceOf(n, depth), depth)
  {
  }

  /** k places on, still on the same lap or on the next one. */
  lemma {:induction false} PlaceAhead(n: nat, k: nat, depth: nat)
    requires k <= depth && depth > 0
    ensures var p, q := PlaceOf(n, depth), PlaceOf(n + k, depth);
            if p.slot + k < depth then q == Place(p.slot + k, p.phase)
            else q == Place(p.slot + k - depth, !p.phase)
    decreases k
  {
    PlaceInRing(n, depth);
    if k > 0 { PlaceAhead(n, k - 1, depth); }
  }

  /** One queue with its device and its block-layer tags. Requests are numbered as they are
      submitted, so that "the same request twice" can be told from "the same tag twice". */
  datatype Ring = Ring(
    depth: nat,
    cqes: seq<Cqe>,
    cqHead: nat, cqPhase: bool,        // host
    advancing: bool,                   // host: entry handled, head not yet moved
    tail: Place,                       // device
    inflight: set<nat>,                // tags the device has not completed
    owner: map<nat, nat>,              // allocated tags and the request holding each
    next: nat,                         // number of the next request
    unseen: seq<nat>,                  // tags of posted, unhandled entries, oldest first
    posted: seq<nat>,                  // requests in posting order
    handled: seq<nat>,                 // requests in handling order
    bogus: nat)                        // completions for no known request

  function Init(depth: nat): Ring {
    Ring(depth, seq(depth, _ => Cqe(0, false)), 0, true, false, Place(0, true), {}, map[], 0, [], [], [], 0)
  }

  datatype Event = Submit(tag: nat) | Post(tag: nat) | Handle | Advance

  /** The host's test of the entry at its head. */
  predicate Pending(s: Ring)
    requires s.cqHead < |s.cqes|
  {
    s.cqes[s.cqHead].phase == s.cqPhase
  }

  predicate Enabled(s: Ring, e: Event) {
    match e
    case Submit(tag) => tag < s.depth - 1 && tag !in s.owner   // queue_depth of the tag set
    case Post(tag) => tag in s.inflight && tag in s.owner && s.tail.slot < |s.cqes|
    case Handle => !s.advancing && s.cqHead < |s.cqes| && Pending(s)
    case Advance => s.advancing
  }

  function Step(s: Ring, e: Event): Ring
    requires Enabled(s, e)
  {
    match e
    case Submit(tag) =>
      s.(inflight := s.inflight + {tag}, owner := s.owner[tag := s.next], next := s.next + 1)
    case Post(tag) =>
      s.(cqes := s.cqes[s.tail.slot := Cqe(tag, s.tail.phase)], tail := Next(s.tail, s.depth),
         inflight := s.inflight - {tag}, unseen := s.unseen + [tag], posted := s.posted + [s.owner[tag]])
    case Handle =>
      var cid := s.cqes[s.cqHead].commandId;
      if cid in s.owner then
        s.(advancing := true, handled := s.handled + [s.owner[cid]], owner := s.owner - {cid},
           unseen := if s.unseen == [] then [] else s.unseen[1..])
      else
        s.(advancing := true, bogus := s.bogus + 1)
    case Advance =>
      var p := Next(Place(s.cqHead, s.cqPhase), s.depth);
      s.(advancing := false, cqHead := p.slot, cqPhase := p.phase)
  }

  /** A run: events that are not enabled do nothing. */
  function Run(s: Ring, es: seq<Event>): Ring
    decreases |es|
  {
    if es == [] then s
    else
      var s' := Run(s, es[..|es| - 1]);
      var e := es[|es| - 1];
      if Enabled(s', e) then Step(s', e) else s'
  }

  // --------------------------------------------------------------------------
  // The invariant

  ghost predicate NoRepeat(xs: seq<nat>) {
    forall i, j :: 0 <= i < j < |xs| ==> xs[i] != xs[j]
  }

  /** Entries the host has passed: its head as a completion number. */
  function Passed(s: Ring): int {
    |s.handled| - (if s.advancing then 1 else 0)
  }

  ghost predicate Tags(s: Ring) {
    && s.owner.Keys == s.inflight + Elems(s.unseen)
    && s.inflight !! Elems(s.unseen)
    && NoRepeat(s.unseen)
    && (forall t :: t in s.owner ==> t < s.depth - 1 && s.owner[t] < s.next)
  }

  /** The unseen entries' commands are still held by the requests posted for them. */
  ghost predicate Matched(owner: map<nat, nat>, unseen: seq<nat>, requests: seq<nat>) {
    && |unseen| == |requests|
    && (forall i :: 0 <= i < |unseen| ==> unseen[i] in owner && requests[i] == owner[unseen[i]])
  }

  ghost predicate Requests(s: Ring) {
    && s.handled <= s.posted
    && Matched(s.owner, s.unseen, s.posted[|s.handled|..])
    && NoRepeat(s.posted)
    && (forall i :: 0 <= i < |s.posted| ==> s.posted[i] < s.next)
    && (forall t :: t in s.inflight && t in s.owner ==> s.owner[t] !in s.posted)
    && (forall t, u :: t in s.inflight && u in s.inflight && t != u && t in s.owner && u in s.owner ==>
        s.owner[t] != s.owner[u])
  }

  /** Completions lo..hi-1 stand in the ring with the phase of their lap (`current`), or with
      the other one. */
  ghost predicate PhaseIs(current: bool, depth: nat, cqes: seq<Cqe>, lo: int, hi: int) {
    forall n: nat :: lo <= n < hi ==>
      var p := PlaceOf(n, depth); p.slot < |cqes| && (cqes[p.slot].phase == p.phase <==> current)
  }

  /** The entries from completion number `from` on name these commands. */
  ghost predicate Named(depth: nat, cqes: seq<Cqe>, from: nat, tags: seq<nat>) {
    forall i {:trigger tags[i]} :: 0 <= i < |tags| ==> NamedAt(depth, cqes, from + i, tags[i])
  }

  ghost predicate NamedAt(depth: nat, cqes: seq<Cqe>, n: nat, tag: nat) {
    var p := PlaceOf(n, depth);
    p.slot < |cqes| && cqes[p.slot].commandId == tag
  }

  ghost predicate Slots(s: Ring) {
    && |s.cqes| == s.depth >= 2
    && Passed(s) >= 0
    && Place(s.cqHead, s.cqPhase) == PlaceOf(Passed(s), s.depth)
    && s.tail == PlaceOf(|s.posted|, s.depth)
    && |s.posted| <= Passed(s) + s.depth
    && PhaseIs(true, s.depth, s.cqes, Passed(s), |s.posted|)
    && PhaseIs(false, s.depth, s.cqes, |s.posted|, Passed(s) + s.depth)   // what the device writes next
    && Named(s.depth, s.cqes, |s.handled|, s.unseen)
  }

  ghost predicate Inv(s: Ring) {
    s.depth >= 2 && s.bogus == 0 && Tags(s) && Requests(s) && Slots(s)
  }

  lemma {:induction false} BoundedSet(xs: set<nat>, n: nat)
    requires forall x :: x in xs ==> x < n
    ensures |xs| <= n
  {
    if n > 0 {
      BoundedSet(xs - {n - 1}, n - 1);
    } else {
      assert xs == {};
    }
  }

  lemma {:induction false} DistinctCount(xs: seq<nat>)
    requires NoRepeat(xs)
    ensures |Elems(xs)| == |xs|
  {
    if xs != [] {
      var n := |xs| - 1;
      DistinctCount(xs[..n]);
      assert Elems(xs) == Elems(xs[..n]) + {xs[n]} && xs[n] !in Elems(xs[..n]);
    }
  }

  /** The tag limit keeps a slot free: unseen entries and commands in flight together never reach
      the ring depth. */
  lemma {:induction false} TagLimit(s: Ring)
    requires s.depth >= 2 && Tags(s)
    ensures |s.unseen| + |s.inflight| <= s.depth - 1
  {
    DistinctCount(s.unseen);
    BoundedSet(s.owner.Keys, s.depth - 1);
  }

  // --------------------------------------------------------------------------
  // Every step keeps it

  lemma InitInv(depth: nat)
    requires depth >= 2
    ensures Inv(Init(depth))
  {
    forall n | 0 <= n < depth
      ensures PlaceOf(n, depth).slot < depth && PlaceOf(n, depth).phase
    {
      PlaceAhead(0, n, depth);
    }
  }

  lemma SubmitInv(s: Ring, tag: nat)
    requires Inv(s) && Enabled(s, Submit(tag))
    ensures Inv(Step(s, Submit(tag)))
  {
    hide PlaceOf;
    var s' := Step(s, Submit(tag));
    assert Slots(s') by { assert s'.cqes == s.cqes && s'.unseen == s.unseen; }
    assert Tags(s') by { assert tag !in Elems(s.unseen); }
  }

  /** Two completions less than a lap apart are in different slots. */
  lemma PlacesApart(m: nat, n: nat, depth: nat)
    requires m < n < m + depth
    ensures PlaceOf(m, depth).slot != PlaceOf(n, depth).slot
  {
    PlaceInRing(m, depth);
    PlaceAhead(m, n - m, depth);
  }

  lemma PostPhase(depth: nat, cqes: seq<Cqe>, lo: nat, at: nat, cqe: Cqe)
    requires lo <= at < lo + depth && |cqes| == depth
    requires PhaseIs(true, depth, cqes, lo, at) && PhaseIs(false, depth, cqes, at, lo + depth)
    requires cqe.phase == PlaceOf(at, depth).phase
    ensures PlaceOf(at, depth).slot < depth
    ensures forall n: nat :: lo <= n < lo + depth && n != at ==> PlaceOf(n, depth).slot != PlaceOf(at, depth).slot
    ensures var cqes' := cqes[PlaceOf(at, depth).slot := cqe];
            PhaseIs(true, depth, cqes', lo, at + 1) && PhaseIs(false, depth, cqes', at + 1, lo + depth)
  {
    hide PlaceOf;
    PlaceInRing(at, depth);
    forall n: nat | lo <= n < lo + depth && n != at
      ensures PlaceOf(n, depth).slot != PlaceOf(at, depth).slot
    {
      if n < at { PlacesApart(n, at, depth); } else { PlacesApart(at, n, depth); }
    }
  }

  lemma PostSlots(s: Ring, tag: nat)
    requires Inv(s) && Enabled(s, Post(tag))
    ensures Slots(Step(s, Post(tag)))
  {
    hide PlaceOf;
    hide Requests;
    hide Named;
    hide PhaseIs;
    hide NoRepeat;
    TagLimit(s);
    Counts(s);
    hide Tags;
    assert |s.inflight| >= 1 by { assert |s.inflight - {tag}| == |s.inflight| - 1; }
    var at, cqe := |s.posted|, Cqe(tag, s.tail.phase);
    PlaceNext(at, s.depth);
    PostPhase(s.depth, s.cqes, Passed(s), at, cqe);
    PostNamed(s.depth, s.cqes, |s.handled|, s.unseen, s.tail.slot, cqe);
  }

  lemma PostNamed(depth: nat, cqes: seq<Cqe>, from: nat, tags: seq<nat>, slot: nat, cqe: Cqe)
    requires Named(depth, cqes, from, tags)
    requires slot < |cqes| && slot == PlaceOf(from + |tags|, depth).slot
    requires forall n: nat :: from <= n < from + |tags| ==> PlaceOf(n, depth).slot != slot
    ensures Named(depth, cqes[slot := cqe], from, tags + [cqe.commandId])
  {
    hide PlaceOf;
  }

  lemma Counts(s: Ring)
    requires Requests(s)
    ensures |s.posted| == |s.handled| + |s.unseen|
  {
  }

  lemma PostInv(s: Ring, tag: nat)
    requires Inv(s) && Enabled(s, Post(tag))
    ensures Inv(Step(s, Post(tag)))
  {
    hide PlaceOf;
    hide Slots;
    var s' := Step(s, Post(tag));
    PostSlots(s, tag);
    assert Tags(s') by { assert Elems(s'.unseen) == Elems(s.unseen) + {tag}; }
    assert Requests(s');
  }

  /** The entry at the head is new exactly when some posted entry is unhandled, and then it is the
      oldest one: the host never takes a stale slot for a new entry, nor overlooks one. */
  lemma HeadIsOldest(s: Ring)
    requires Inv(s) && !s.advancing
    ensures s.cqHead < |s.cqes|
    ensures Pending(s) <==> s.unseen != []
    ensures s.unseen != [] ==> s.cqes[s.cqHead].commandId == s.unseen[0]
  {
    hide PlaceOf;
    PlaceInRing(Passed(s), s.depth);
    assert |s.posted| <= Passed(s) < Passed(s) + s.depth || Passed(s) < |s.posted|;
    if s.unseen != [] {
      assert PlaceOf(|s.handled| + 0, s.depth) == Place(s.cqHead, s.cqPhase);
    }
  }

  lemma HandleTags(s: Ring)
    requires Tags(s) && s.unseen != []
    ensures s.unseen[0] in s.owner
    ensures Tags(s.(owner := s.owner - {s.unseen[0]}, unseen := s.unseen[1..]))
  {
    var cid, rest := s.unseen[0], s.unseen[1..];
    assert s.unseen == [cid] + rest;
    assert cid in Elems(s.unseen);
    assert Elems(s.unseen) == {cid} + Elems(rest) && cid !in Elems(rest);
  }

  lemma HandleMatched(owner: map<nat, nat>, unseen: seq<nat>, requests: seq<nat>)
    requires Matched(owner, unseen, requests) && NoRepeat(unseen) && unseen != []
    ensures requests[0] == owner[unseen[0]]
    ensures Matched(owner - {unseen[0]}, unseen[1..], requests[1..])
  {
  }

  lemma HandleRequests(s: Ring)
    requires Tags(s) && Requests(s) && s.unseen != [] && s.unseen[0] in s.owner
    ensures |s.handled| < |s.posted| && s.owner[s.unseen[0]] == s.posted[|s.handled|]
    ensures Requests(s.(owner := s.owner - {s.unseen[0]}, unseen := s.unseen[1..],
                        handled := s.handled + [s.owner[s.unseen[0]]]))
  {
    var rest := s.posted[|s.handled|..];
    HandleMatched(s.owner, s.unseen, rest);
    assert rest[1..] == s.posted[|s.handled| + 1..];
    assert s.unseen[0] !in s.inflight by { assert s.unseen[0] in Elems(s.unseen); }
    hide Matched;
    hide NoRepeat;
  }

  lemma HandleNamed(depth: nat, cqes: seq<Cqe>, from: nat, tags: seq<nat>)
    requires Named(depth, cqes, from, tags) && tags != []
    ensures Named(depth, cqes, from + 1, tags[1..])
  {
    hide NamedAt;
    var rest := tags[1..];
    forall i | 0 <= i < |rest| ensures NamedAt(depth, cqes, from + 1 + i, rest[i]) {
      assert rest[i] == tags[i + 1] && from + 1 + i == from + (i + 1);
    }
  }

  /** Handling takes the oldest posted request off the ring and no other. */
  lemma HandleInv(s: Ring)
    requires Inv(s) && Enabled(s, Handle)
    ensures Inv(Step(s, Handle))
    ensures |s.handled| < |s.posted| && Step(s, Handle).handled == s.handled + [s.posted[|s.handled|]]
  {
    hide PlaceOf;
    HeadIsOldest(s);
    Counts(s);
    HandleTags(s);
    HandleRequests(s);
    HandleSlots(s);
    hide Requests;
    hide Tags;
    hide Slots;
    var s' := Step(s, Handle);
    TagsFrame(s.(owner := s.owner - {s.unseen[0]}, unseen := s.unseen[1..]), s');
    RequestsFrame(s.(owner := s.owner - {s.unseen[0]}, unseen := s.unseen[1..],
                     handled := s.handled + [s.owner[s.unseen[0]]]), s');
    assert s' == s.(advancing := true, owner := s.owner - {s.unseen[0]}, unseen := s.unseen[1..],
                    handled := s.handled + [s.owner[s.unseen[0]]]);
  }

  lemma HandleSlots(s: Ring)
    requires Slots(s) && !s.advancing && s.unseen != []
    ensures forall owner, request :: Slots(s.(advancing := true, owner := owner, unseen := s.unseen[1..],
                                              handled := s.handled + [request]))
  {
    hide PlaceOf;
    HandleNamed(s.depth, s.cqes, |s.handled|, s.unseen);
    hide Named;
    hide PhaseIs;
  }

  lemma TagsFrame(s: Ring, s': Ring)
    requires Tags(s) && s'.owner == s.owner && s'.inflight == s.inflight && s'.unseen == s.unseen
    requires s'.depth == s.depth && s'.next == s.next
    ensures Tags(s')
  {
  }

  lemma RequestsFrame(s: Ring, s': Ring)
    requires Requests(s) && s'.owner == s.owner && s'.inflight == s.inflight && s'.unseen == s.unseen
    requires s'.posted == s.posted && s'.handled == s.handled && s'.next == s.next
    ensures Requests(s')
  {
  }

  lemma AdvanceInv(s: Ring)
    requires Inv(s) && Enabled(s, Advance)
    ensures Inv(Step(s, Advance))
  {
    hide PlaceOf;
    var p, s' := Passed(s), Step(s, Advance);
    TagLimit(s);
    Counts(s);
    TagsFrame(s, s');
    RequestsFrame(s, s');
    hide Requests;
    hide Tags;
    hide Named;
    PlaceInRing(p, s.depth);
    PlaceAhead(p, s.depth, s.depth);
    PlaceNext(p, s.depth);
    assert PhaseIs(false, s.depth, s.cqes, |s.posted|, p + 1 + s.depth) by {
      assert s.cqes[PlaceOf(p, s.depth).slot].phase == PlaceOf(p, s.depth).phase;
    }
  }

  lemma StepInv(s: Ring, e: Event)
    requires Inv(s) && Enabled(s, e)
    ensures Inv(Step(s, e))
  {
    match e
    case Submit(tag) => SubmitInv(s, tag);
    case Post(tag) => PostInv(s, tag);
    case Handle => HandleInv(s);
    case Advance => AdvanceInv(s);
  }

  // --------------------------------------------------------------------------
  // All runs

  lemma {:induction false} RunInv(depth: nat, es: seq<Event>)
    requires depth >= 2
    ensures Inv(Run(Init(depth), es))
    decreases |es|
  {
    if es == [] {
      InitInv(depth);
    } else {
      RunInv(depth, es[..|es| - 1]);
      var s, e := Run(Init(depth), es[..|es| - 1]), es[|es| - 1];
      if Enabled(s, e) { StepInv(s, e); }
    }
  }

  /** In every interleaving, across any number of ring wraps: requests are handled in posting
      order, none twice, none by mistake; what is posted and not handled fits below the ring
      depth; and when the head shows nothing new, everything posted has been handled. */
  lemma {:induction false} ExactlyOnceInOrder(depth: nat, es: seq<Event>)
    requires depth >= 2
    ensures var s := Run(Init(depth), es);
            && s.handled <= s.posted
            && NoRepeat(s.posted) && NoRepeat(s.handled)
            && s.bogus == 0
            && |s.posted| - |s.handled| <= depth - 1
            && s.cqHead < |s.cqes|
            && (!s.advancing ==> (Pending(s) <==> s.handled != s.posted))
  {
    RunInv(depth, es);
    var s := Run(Init(depth), es);
    TagLimit(s);
    Counts(s);
    PlaceInRing(Passed(s), s.depth);
    RunDepth(depth, es);
    if !s.advancing { HeadIsOldest(s); }
    assert s.handled == s.posted[..|s.handled|];
  }

  function Submits(n: nat): seq<Event> {
    if n == 0 then [] else Submits(n - 1) + [Submit(n - 1)]
  }

  /** All tags but one of the depth can be in use at once. */
  lemma {:induction false} TagsUsable(depth: nat, n: nat)
    requires n < depth
    ensures forall t: nat :: t in Run(Init(depth), Submits(n)).owner <==> t < n
    ensures forall t: nat :: t in Run(Init(depth), Submits(n)).inflight <==> t < n
  {
    RunDepth(depth, Submits(n));
    if n > 0 {
      TagsUsable(depth, n - 1);
      RunDepth(depth, Submits(n - 1));
      var es := Submits(n);
      assert es[..|es| - 1] == Submits(n - 1) && es[|es| - 1] == Submit(n - 1);
    }
  }

  lemma {:induction false} RunDepth(depth: nat, es: seq<Event>)
    ensures Run(Init(depth), es).depth == depth
    decreases |es|
  {
    if es != [] { RunDepth(depth, es[..|es| - 1]); }
  }

  /** Longer runs only append to the histories. */
  lemma {:induction false} HistoryGrows(s: Ring, es: seq<Event>)
    ensures s.handled <= Run(s, es).handled && s.posted <= Run(s, es).posted
    decreases |es|
  {
    if es != [] { HistoryGrows(s, es[..|es| - 1]); }
  }

  // --------------------------------------------------------------------------
  // The driver

  /** The driver's queue, the block layer's table of requests by tag, and the device at the other
      end. `env` is the machine they all run in. */
  class Queue {
    var cqes: array<Cqe>
    var cqHead: nat
    var cqPhase: bool
    var cqDoorbell: nat
    var requests: map<nat, nat>      // request by tag
    var completed: seq<nat>          // requests completed, in order
    var warnings: nat                // entries with an id of no request
    var deviceTail: Place
    var deviceBusy: set<nat>         // tags the device works on
    ghost var env: Ring

    ghost predicate Valid()
      reads this, cqes
    {
      && Inv(env)
      && env.cqes == cqes[..] && env.cqHead == cqHead && env.cqPhase == cqPhase
      && env.owner == requests && env.handled == completed && env.bogus == warnings
      && env.tail == deviceTail && env.inflight == deviceBusy
    }

    /** Queue initialisation: cleared ring, head 0, phase 1. */
    constructor (depth: nat)
      requires depth >= 2
      ensures Valid() && env == Init(depth) && fresh(cqes)
    {
      cqes := new Cqe[depth](_ => Cqe(0, false));
      cqHead, cqPhase, cqDoorbell := 0, true, 0;
      requests, completed, warnings := map[], [], 0;
      deviceTail, deviceBusy := Place(0, true), {};
      env := Init(depth);
      new;
      InitInv(depth);
      assert cqes[..] == env.cqes;
    }

    /** The block layer starting a request under a free tag. */
    method SubmitRequest(tag: nat, request: nat)
      requires Valid() && Enabled(env, Submit(tag)) && request == env.next
      modifies this`env, this`requests, this`deviceBusy
      ensures Valid() && env == Step(old(env), Submit(tag))
    {
      StepInv(env, Submit(tag));
      requests := requests[tag := request];
      deviceBusy := deviceBusy + {tag};
      env := Step(env, Submit(tag));
    }

    /** The device completing a command, if it is working on it. */
    method DevicePost(tag: nat)
      requires Valid()
      modifies this`env, this`deviceTail, this`deviceBusy, cqes
      ensures Valid() && cqes == old(cqes)
      ensures env == (if Enabled(old(env), Post(tag)) then Step(old(env), Post(tag)) else old(env))
    {
      hide Inv;
      PostRoom(env, tag);
      if tag in deviceBusy {
        StepInv(env, Post(tag));
        cqes[deviceTail.slot] := Cqe(tag, deviceTail.phase);
        deviceBusy := deviceBusy - {tag};
        deviceTail := if deviceTail.slot + 1 == cqes.Length then Place(0, !deviceTail.phase)
                      else Place(deviceTail.slot + 1, deviceTail.phase);
        env := Step(env, Post(tag));
      }
    }

    method CqePending() returns (pending: bool)
      requires Valid() && !env.advancing
      ensures pending <==> env.unseen != []
    {
      HeadIsOldest(env);
      pending := cqes[cqHead].phase == cqPhase;
    }

    /** Reads the entry's command id, looks its request up by tag, and completes it; an id of no
        request is only warned about. In a reachable state the request is found, and it is the
        oldest one posted. */
    method HandleCqe(idx: nat)
      requires Valid() && idx == cqHead && Enabled(env, Handle)
      modifies this`env, this`requests, this`completed, this`warnings
      ensures Valid() && env == Step(old(env), Handle)
      ensures warnings == old(warnings)
      ensures |old(completed)| < |env.posted| && completed == old(completed) + [env.posted[|old(completed)|]]
    {
      hide Inv;
      var commandId := cqes[idx].commandId;
      if commandId !in requests {
        warnings := warnings + 1;
      } else {
        completed := completed + [requests[commandId]];
        requests := requests - {commandId};
      }
      HandleInv(env);
      NoBogus(env);
      env := Step(env, Handle);
      NoBogus(env);
    }

    method UpdateCqHead()
      requires Valid() && env.advancing
      modifies this`cqHead, this`cqPhase, this`env
      ensures Valid() && env == Step(old(env), Advance)
    {
      AdvanceInv(env);
      var tmp := cqHead + 1;
      if tmp == cqes.Length {
        cqHead := 0;
        cqPhase := !cqPhase;
      } else {
        cqHead := tmp;
      }
      env := Step(env, Advance);
    }

    /** The poll loop, under the lock that keeps submissions out; the device may post `posts[k]`
        before the k-th look at the head. It ends, it handles a run of requests in posting order,
        leaves none behind, and rings the doorbell with the new head if it found any. */
    method PollCq(posts: seq<seq<nat>>) returns (found: bool)
      requires Valid() && !env.advancing
      modifies this, cqes
      ensures Valid() && !env.advancing && cqes == old(cqes)
      ensures old(completed) <= completed && old(env.posted) <= env.posted
      ensures completed == env.posted && warnings == old(warnings)
      ensures found <==> completed != old(completed)
      ensures cqDoorbell == if found then cqHead else old(cqDoorbell)
    {
      hide Inv;
      found := false;
      var k := 0;
      while true
        invariant Valid() && !env.advancing && cqes == old(cqes)
        invariant old(completed) <= completed && old(env.posted) <= env.posted
        invariant found <==> |completed| > |old(completed)|
        invariant cqDoorbell == old(cqDoorbell) && warnings == old(warnings)
        decreases |requests|
      {
        DevicePosts(if k < |posts| then posts[k] else []);
        k := k + 1;
        var pending := CqePending();
        if !pending { break; }
        found := true;
        TakeOne();
      }
      NothingUnseen(env);
      if found { cqDoorbell := cqHead; }
    }

    /** The loop's body: handles the entry at the head and moves on. */
    method TakeOne()
      requires Valid() && !env.advancing && env.unseen != []
      modifies this`env, this`requests, this`completed, this`warnings, this`cqHead, this`cqPhase
      ensures Valid() && !env.advancing && warnings == old(warnings) && |requests| < |old(requests)|
      ensures env.posted == old(env.posted)
      ensures |old(completed)| < |env.posted| && completed == old(completed) + [env.posted[|old(completed)|]]
    {
      hide Inv;
      HeadIsOldest(env);
      HandleTakesOldest(env);
      HandleCqe(cqHead);
      UpdateCqHead();
    }

    method DevicePosts(tags: seq<nat>)
      requires Valid()
      modifies this`env, this`deviceTail, this`deviceBusy, cqes
      ensures Valid() && cqes == old(cqes)
      ensures env.handled == old(env.handled) && old(env.posted) <= env.posted
      ensures env.owner == old(env.owner) && env.advancing == old(env.advancing)
    {
      hide Inv;
      for i := 0 to |tags|
        invariant Valid() && cqes == old(cqes)
        invariant env.handled == old(env.handled) && old(env.posted) <= env.posted
        invariant env.owner == old(env.owner) && env.advancing == old(env.advancing)
      {
        DevicePost(tags[i]);
      }
    }
  }

  /** A command the device works on can be posted: its tag is held and the tail is in the ring. */
  lemma PostRoom(s: Ring, tag: nat)
    requires Inv(s)
    ensures tag in s.inflight <==> Enabled(s, Post(tag))
    ensures s.depth == |s.cqes|
  {
    hide PlaceOf;
    PlaceInRing(|s.posted|, s.depth);
  }

  lemma NoBogus(s: Ring)
    requires Inv(s)
    ensures s.bogus == 0
  {
  }

  lemma HandleTakesOldest(s: Ring)
    requires Inv(s) && Enabled(s, Handle)
    ensures var s' := Step(s, Handle);
            s.handled < s'.handled && |s'.handled| == |s.handled| + 1 && |s'.owner| < |s.owner| && s'.posted == s.posted
  {
    HandleInv(s);
    HeadIsOldest(s);
    var cid := s.cqes[s.cqHead].commandId;
    assert cid in Elems(s.unseen);
    assert (s.owner - {cid}).Keys == s.owner.Keys - {cid};
  }

  lemma NothingUnseen(s: Ring)
    requires Inv(s) && s.unseen == []
    ensures s.handled == s.posted
  {
  }
}
