/** The one-outstanding-command protocol of a DockChannel HID interface.

    A command is recognised in its ACK by three things: flags, an eight-bit sequence number and the
    report id. Commands can time out, and their ACKs can still come in later. */
module DchidAck {
  import opened Bytes

  const SUBHDR := 8
  const NO_REPORT := -1

  /** A command as the caller gave it, flags already packed into one byte. */
  datatype Command = Command(report: Byte, flags: Byte)

  function Flags(group: nat, req: nat): Byte {
    (group % 4) * 64 + req % 64
  }

  /** The group is in the top two bits of the flags, the request in the six below. */
  lemma FlagsMean(group: nat, req: nat)
    ensures Flags(group, req) / 64 == group % 4 && Flags(group, req) % 64 == req % 64
    ensures group < 4 && req < 64 ==> Flags(group, req) / 64 == group && Flags(group, req) % 64 == req
  {
  }

  /** An ACK packet: the fields the handler looks at. `cause` is the command the device meant; no
      field of the packet carries it. */
  datatype Ack = Ack(hdrLength: nat, seqno: Byte, flags: Byte, length: nat, report: Byte, retcode: nat, cause: nat)

  datatype Accepted = Accepted(command: nat, ack: Ack)

  datatype Iface = Iface(
    txSeq: Byte,
    outReport: int,
    outFlags: Byte,
    respSize: nat,
    retcode: nat,
    completed: bool,
    busy: bool,                      // a command holds the mutex
    commands: seq<Command>,          // every command begun so far
    accepted: seq<Accepted>)         // every ACK accepted, with the command it was accepted for

  const IDLE := Iface(0, NO_REPORT, 0, 0, 0, false, false, [], [])

  datatype Event =
    | Begin(command: Command, respSize: nat)
    | Deliver(ack: Ack)
    | Finish                         // completed, timed out or failed to send: the same bookkeeping

  function BeginStep(s: Iface, c: Command, respSize: nat): Iface {
    s.(outReport := c.report, outFlags := c.flags, respSize := respSize, completed := false, busy := true,
       commands := s.commands + [c])
  }

  /** The tests of dchid_handle_ack. */
  predicate Accepts(s: Iface, a: Ack) {
    && a.length + SUBHDR <= a.hdrLength
    && a.flags == s.outFlags
    && a.length >= 1
    && s.txSeq == a.seqno
    && s.outReport == a.report
  }

  function AckStep(s: Iface, a: Ack): Iface {
    if Accepts(s, a) then
      s.(respSize := a.length, outReport := NO_REPORT, retcode := a.retcode, completed := true,
         accepted := s.accepted + [Accepted(Current(s), a)])
    else s
  }

  function FinishStep(s: Iface): Iface {
    s.(txSeq := (s.txSeq + 1) % 256, outReport := NO_REPORT, outFlags := 0, respSize := 0, busy := false)
  }

  predicate Enabled(s: Iface, e: Event) {
    match e
    case Begin(_, _) => !s.busy
    case Deliver(_) => true
    case Finish => s.busy
  }

  function Step(s: Iface, e: Event): Iface
    requires Enabled(s, e)
  {
    match e
    case Begin(c, respSize) => BeginStep(s, c, respSize)
    case Deliver(a) => AckStep(s, a)
    case Finish => FinishStep(s)
  }

  function Run(s: Iface, es: seq<Event>): Iface
    decreases |es|
  {
    if es == [] then s
    else
      var s', e := Run(s, es[..|es| - 1]), es[|es| - 1];
      if Enabled(s', e) then Step(s', e) else s'
  }

  /** The number of the command in progress, or of the next one. */
  function Current(s: Iface): nat {
    if s.busy && |s.commands| > 0 then |s.commands| - 1 else |s.commands|
  }

  // --------------------------------------------------------------------------
  // The invariant

  /** The ACK carries the command's flags, report id and sequence number, and its payload is not empty
      and within its packet. */
  ghost predicate Matches(s: Iface, x: Accepted) {
    && x.command < |s.commands|
    && x.ack.flags == s.commands[x.command].flags
    && x.ack.report == s.commands[x.command].report
    && x.ack.seqno == x.command % 256
    && 1 <= x.ack.length && x.ack.length + 8 <= x.ack.hdrLength
  }

  ghost predicate Inv(s: Iface) {
    && (s.busy ==> s.commands != [])
    && s.txSeq == Current(s) % 256
    && (!s.busy ==> s.outReport == NO_REPORT && s.outFlags == 0 && s.respSize == 0)
    && (s.outReport == NO_REPORT || (s.busy && s.outReport == s.commands[Current(s)].report))
    && (s.busy ==> s.outFlags == s.commands[Current(s)].flags)
    && (forall i :: 0 <= i < |s.accepted| ==> Matches(s, s.accepted[i]))
    // strictly increasing command numbers: at most one ACK each
    && (forall i, j :: 0 <= i < j < |s.accepted| ==> s.accepted[i].command < s.accepted[j].command)
    // the current command still waits only if none was accepted for it
    && (s.outReport != NO_REPORT ==> forall i :: 0 <= i < |s.accepted| ==> s.accepted[i].command < Current(s))
    && (forall i :: 0 <= i < |s.accepted| && !s.busy ==> s.accepted[i].command < Current(s))
    && (s.busy && s.completed ==>
          s.accepted != [] && var x := s.accepted[|s.accepted| - 1];
                              x.command == Current(s) && s.respSize == x.ack.length && s.retcode == x.ack.retcode)
    && (s.busy && !s.completed ==> forall i :: 0 <= i < |s.accepted| ==> s.accepted[i].command < Current(s))
  }

  lemma StepInv(s: Iface, e: Event)
    requires Inv(s) && Enabled(s, e)
    ensures Inv(Step(s, e))
  {
    var s' := Step(s, e);
    assert forall i :: 0 <= i < |s.commands| ==> s'.commands[i] == s.commands[i];
  }

  lemma {:induction false} RunInv(es: seq<Event>)
    ensures Inv(Run(IDLE, es))
    decreases |es|
  {
    if es != [] {
      RunInv(es[..|es| - 1]);
      var s, e := Run(IDLE, es[..|es| - 1]), es[|es| - 1];
      if Enabled(s, e) { StepInv(s, e); }
    }
  }

  // --------------------------------------------------------------------------
  // All runs

  /** The device answers only commands it was sent, and echoes their sequence number. */
  ghost predicate Truthful(es: seq<Event>) {
    forall k :: 0 <= k < |es| && es[k].Deliver? ==>
      var a := es[k].ack; a.cause < |Run(IDLE, es[..k]).commands| && a.seqno == a.cause % 256
  }

  /** In every run: no command gets two ACKs, each accepted ACK carries its command's flags, report
      id and sequence number, and a command that completes does so with the length and return code
      of the ACK accepted for it. */
  lemma {:induction false} OneAckPerCommand(es: seq<Event>)
    ensures var s := Run(IDLE, es);
            && (forall i :: 0 <= i < |s.accepted| ==> Matches(s, s.accepted[i]))
            && (forall i, j :: 0 <= i < j < |s.accepted| ==> s.accepted[i].command != s.accepted[j].command)
            && (s.busy && s.completed ==>
                  s.accepted != [] && var x := s.accepted[|s.accepted| - 1];
                                      x.command == |s.commands| - 1 && s.respSize == x.ack.length
                                          && s.retcode == x.ack.retcode)
  {
    RunInv(es);
  }

  /** With a truthful device, the ACK of command c is accepted for command c itself or for one at
      least 256 commands later; never for any in between. */
  lemma {:induction false} LateAckNeverMistaken(es: seq<Event>, i: nat)
    requires Truthful(es) && i < |Run(IDLE, es).accepted|
    ensures var x := Run(IDLE, es).accepted[i];
            x.command == x.ack.cause || x.command >= x.ack.cause + 256
    decreases |es|
  {
    var n := |es| - 1;
    var init := es[..n];
    assert forall k :: 0 <= k < n ==> init[..k] == es[..k];
    var s := Run(IDLE, init);
    RunInv(init);
    if i < |s.accepted| {
      LateAckNeverMistaken(init, i);
    } else {
      var a := es[n].ack;
      assert es[..n] == init;
      assert a.cause <= Current(s);
      SameResidue(a.cause, Current(s));
    }
  }

  lemma SameResidue(a: nat, b: nat)
    requires a <= b && a % 256 == b % 256
    ensures a == b || b >= a + 256
  {
  }

  /** And the wrap is real: during a later command that still waits, with the same flags and report
      id, the late ACK of command c is taken exactly when the sequence has come round. */
  lemma WrapExactly(s: Iface, a: Ack)
    requires Inv(s) && s.busy && !s.completed && s.outReport != NO_REPORT
    requires a.cause <= Current(s) && a.seqno == a.cause % 256 && 1 <= a.length <= a.hdrLength - SUBHDR
    requires a.flags == s.commands[Current(s)].flags && a.report == s.commands[Current(s)].report
    ensures Accepts(s, a) <==> (Current(s) - a.cause) % 256 == 0
  {
    var c, k := a.cause, Current(s);
    if (k - c) % 256 == 0 { assert k == c + 256 * ((k - c) / 256); }
  }

  // --------------------------------------------------------------------------
  // The driver

  class Interface {
    var txSeq: Byte
    var outReport: int
    var outFlags: Byte
    var respSize: nat
    var retcode: nat
    var completed: bool
    ghost var busy: bool
    ghost var commands: seq<Command>
    ghost var accepted: seq<Accepted>

    ghost function St(): Iface
      reads this
    {
      Iface(txSeq, outReport, outFlags, respSize, retcode, completed, busy, commands, accepted)
    }

    constructor ()
      ensures St() == IDLE
    {
      txSeq, outReport, outFlags, respSize, retcode, completed := 0, NO_REPORT, 0, 0, 0, false;
      busy, commands, accepted := false, [], [];
    }

    /** The first half of dchid_cmd, under the mutex. */
    method BeginCommand(group: nat, req: nat, data: seq<Byte>, size: nat)
      requires Inv(St()) && !busy && data != []
      modifies this
      ensures Inv(St()) && St() == BeginStep(old(St()), Command(data[0], Flags(group, req)), size)
    {
      ghost var c := Command(data[0], Flags(group, req));
      StepInv(St(), Begin(c, size));
      outReport := data[0];
      outFlags := Flags(group, req);
      respSize := size;
      completed := false;
      busy, commands := true, commands + [c];
    }

    method HandleAck(a: Ack)
      requires Inv(St())
      modifies this
      ensures Inv(St()) && St() == AckStep(old(St()), a)
    {
      StepInv(St(), Deliver(a));
      if a.length + SUBHDR > a.hdrLength { return; }
      if a.flags != outFlags { return; }
      if a.length < 1 { return; }
      if txSeq != a.seqno { return; }
      if outReport != a.report { return; }
      accepted := accepted + [Accepted(Current(St()), a)];
      respSize := a.length;
      outReport := NO_REPORT;
      retcode := a.retcode;
      completed := true;
    }

    /** The second half: `ret` is what sending returned, `waited` whether the wait ended before its
        timeout. The result is the response length or a negative error; the clean-up is the same on
        every path. A length is that of the ACK accepted for this very command. */
    method FinishCommand(ret: int, waited: bool) returns (result: int)
      requires Inv(St()) && busy && ret <= 0
      modifies this
      ensures Inv(St()) && St() == FinishStep(old(St()))
      ensures result >= 0 <==> ret == 0 && waited && old(completed) && old(retcode) == 0
      ensures result < 0 ==> result == (if ret < 0 then ret else if waited && old(completed) then -5 else -110)
      ensures result >= 0 ==>
                && old(accepted) != []
                && var x := old(accepted)[|old(accepted)| - 1];
                   x.command == |commands| - 1 && x.ack.retcode == 0 && result == x.ack.length
    {
      StepInv(St(), Finish);
      if ret < 0 {
        result := ret;
      } else if !(waited && completed) {
        result := -110;
      } else {
        result := respSize;
        if retcode != 0 { result := -5; }
      }
      txSeq := (txSeq + 1) % 256;
      outReport, outFlags, respSize := NO_REPORT, 0, 0;
      busy := false;
    }
  }
}
