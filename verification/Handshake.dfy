/** The connection handshake in the kernel module, as far as it settles the read depths: ORD, the
    READs a side may have outstanding, and IRD, the READs it is ready to serve. */
module Handshake {
  import opened Endpoint
  import opened System

  type u8 = x: int | 0 <= x < 0x100
  type u16 = x: int | 0 <= x < 0x1_0000
  type u32 = x: int | 0 <= x < 0x1_0000_0000

  const SIW_MAX_ORD: u16 := 128
  const SIW_MAX_IRD: u16 := 128

  datatype EpState =
    Idle | Connecting | AwaitMpaReq | RecvdMpaReq | AwaitMpaRep | RecvdMpaRep | Accepting | RdmaMode | Closed

  datatype QpState = QpIdle | Rtr | Rts | Closing | Terminate | Error | Moribund | Undef

  datatype Attr = State | LlpHandle | Ord | Ird | AccessFlags

  const INIT_TO_RTS_MASK: set<Attr> := {LlpHandle, Ord, Ird}

  datatype Result = Success | Einval | EconnReset | EconnAborted | Eproto

  datatype Opcode = TrpReq | TrpAccept | TrpReject

  /** A connection request or reply. */
  datatype Rr = Rr(opcode: Opcode, ird: u16, ord: u16)

  datatype Params = Params(ird: u32, ord: u32)

  /** What the kernel module tells urdmad about an established connection. */
  datatype Event = Event(ordMax: u8, irdMax: u8)

  function Min(a: u16, b: u16): (m: u16)
    ensures m <= a && m <= b && (m == a || m == b)
  {
    if a < b then a else b
  }

  function Max(a: u16, b: u16): (m: u16)
    ensures a <= m && b <= m && (m == a || m == b)
  {
    if a < b then b else a
  }

  /** A stored depth is never zero. */
  function AtLeastOne(x: u16): (d: u16)
    ensures 1 <= d <= Max(x, 1) && x <= d
  {
    if x != 0 then x else 1
  }

  /** The request enters RTS with everything it needs. */
  predicate EntersRts(state: QpState, target: QpState, mask: set<Attr>) {
    (state == QpIdle || state == Rtr) && target == Rts && State in mask && INIT_TO_RTS_MASK <= mask
  }

  /** The transitions that are defined. */
  predicate Defined(from: QpState, to: QpState) {
    || (from in {QpIdle, Rtr} && to in {Rts, Rtr, Error})
    || (from == Rts && to in {Closing, Terminate, Error})
    || (from == Terminate && to == Error)
    || (from == Closing && to in {QpIdle, Error})
  }

  class Qp {
    var state: QpState
    var irq: u16
    var orq: u16

    constructor ()
      ensures state == QpIdle
    {
      state, irq, orq := QpIdle, 0, 0;
    }

    /** siw_qp_modify, its state machine. The depths change only on the way into RTS, which takes
        the socket and both depths. */
    method Modify(target: QpState, irqSize: u16, orqSize: u16, mask: set<Attr>) returns (rv: Result)
      modifies this
      ensures EntersRts(old(state), target, mask) ==>
        rv == Success && state == Rts && irq == AtLeastOne(irqSize) && orq == AtLeastOne(orqSize)
      ensures !EntersRts(old(state), target, mask) ==>
        irq == old(irq) && orq == old(orq) && (state == Rts ==> old(state) == Rts)
      ensures state == if State in mask && Defined(old(state), target) && (target == Rts ==> INIT_TO_RTS_MASK <= mask)
                       then target else old(state)
      ensures rv == Einval <==>
        State in mask && old(state) in {QpIdle, Rtr} && target == Rts && !(INIT_TO_RTS_MASK <= mask)
      ensures rv == EconnAborted <==> State in mask && old(state) == Closing && target !in {QpIdle, Closing, Error}
      ensures rv in {Success, Einval, EconnAborted}
    {
      rv := Success;
      if State !in mask {
        return;
      }
      match state
      case QpIdle | Rtr =>
        match target {
          case Rts =>
            if !(INIT_TO_RTS_MASK <= mask) {
              return Einval;
            }
            state := Rts;
            irq := if irqSize != 0 then irqSize else 1;
            orq := if orqSize != 0 then orqSize else 1;
          case Error => state := Error;
          case Rtr => state := Rtr;
          case _ =>
        }
      case Rts =>
        if target == Closing || target == Terminate || target == Error {
          state := target;
        }
      case Terminate =>
        if target == Error {
          state := Error;
        }
      case Closing =>
        match target {
          case QpIdle => state := QpIdle;
          case Closing =>
          case Error => state := Error;
          case _ => rv := EconnAborted;
        }
      case _ =>
    }

    /** The event built when the connection is established: the depths become single bytes. */
    method Notify() returns (e: Event)
      ensures e.ordMax == orq % 0x100 && e.irdMax == irq % 0x100
      ensures (e.ordMax == orq <==> orq < 0x100) && (e.irdMax == irq <==> irq < 0x100)
    {
      e := Event(orq % 0x100, irq % 0x100);
    }
  }

  /** A connection endpoint. */
  class Cep {
    const qp: Qp
    var state: EpState
    var ird: u16
    var ord: u16

    constructor (q: Qp)
      ensures qp == q && state == Idle && ird == SIW_MAX_IRD && ord == SIW_MAX_ORD
    {
      qp, state, ird, ord := q, Idle, SIW_MAX_IRD, SIW_MAX_ORD;
    }

    /** siw_connect: the caller's depths, cut to 16 bits, go out with the request. */
    method Connect(params: Params) returns (req: Rr)
      modifies this
      ensures state == AwaitMpaRep && ird == params.ird % 0x1_0000 && ord == params.ord % 0x1_0000
      ensures req == Rr(TrpReq, ird, ord)
    {
      ird := params.ird % 0x1_0000;
      ord := params.ord % 0x1_0000;
      state := AwaitMpaRep;
      req := Rr(TrpReq, ird, ord);
    }

    /** siw_proc_trpreq: the peer's ORD is this side's IRD and the other way round; what the device
        cannot serve is rejected. */
    method ProcTrpReq(req: Rr) returns (rv: Result)
      modifies this
      ensures rv == Success || rv == Eproto
      ensures rv == Success <==> req.opcode == TrpReq && req.ord <= SIW_MAX_IRD && req.ird <= SIW_MAX_ORD
      ensures rv == Success ==> state == RecvdMpaReq && ird == req.ord && ord == req.ird
      ensures if req.opcode == TrpReq then state == RecvdMpaReq else unchanged(this)
    {
      if req.opcode != TrpReq {
        return Eproto;
      }
      state := RecvdMpaReq;
      ird := req.ord;
      ord := req.ird;
      if ird > SIW_MAX_IRD || ord > SIW_MAX_ORD {
        ird := Min(ird, SIW_MAX_IRD);
        ord := Min(ord, SIW_MAX_ORD);
        return Eproto;
      }
      rv := Success;
    }

    /** siw_accept: the caller's ORD may not exceed the peer's IRD. Its IRD need not reach the peer's
        ORD: the peer adjusts. */
    method Accept(params: Params) returns (rv: Result)
      modifies this, qp
      ensures rv == Success <==>
        old(state) != Closed && old(qp.state) in {QpIdle, Rtr} && params.ord <= old(ord) && params.ird <= SIW_MAX_IRD
      ensures rv == Success ==>
        state == Accepting && qp.state == Rts && qp.irq == AtLeastOne(params.ird) && qp.orq == AtLeastOne(params.ord)
      ensures rv != Success ==> state == Closed && unchanged(qp)
      ensures (rv == EconnReset <==> old(state) == Closed) && rv in {Success, EconnReset, Einval}
      ensures ird == old(ird) && ord == old(ord)
    {
      if state == Closed {
        return EconnReset;
      }
      if qp.state != QpIdle && qp.state != Rtr {
        state := Closed;
        return Einval;
      }
      if params.ord > ord || params.ird > SIW_MAX_IRD {
        state := Closed;
        return Einval;
      }
      rv := qp.Modify(Rts, params.ird, params.ord, {State} + INIT_TO_RTS_MASK);
      state := Accepting;
    }

    /** siw_qp_rtr: the accepting side now replies, with the depths of its queue pair; the other side
        has its reply already. */
    method QpRtr() returns (rv: Result, reply: seq<Rr>)
      modifies this
      ensures rv == Success <==> old(state) in {Accepting, RecvdMpaRep}
      ensures state == if rv == Success then RdmaMode else old(state)
      ensures reply == if old(state) == Accepting then [Rr(TrpAccept, qp.irq, qp.orq)] else []
      ensures ird == old(ird) && ord == old(ord)
    {
      rv, reply := Success, [];
      match state
      case Accepting =>
        reply := [Rr(TrpAccept, qp.irq, qp.orq)];
        state := RdmaMode;
      case RecvdMpaRep =>
        state := RdmaMode;
      case _ =>
        rv := Einval;
    }

    /** siw_proc_trpreply: this side's IRD covers the peer's ORD, and its ORD is cut to the peer's
        IRD. */
    method ProcTrpReply(rep: Rr) returns (rv: Result)
      modifies this, qp
      ensures rv == Success <==>
        rep.opcode == TrpAccept && rep.ord <= SIW_MAX_IRD && rep.ird <= SIW_MAX_ORD && old(qp.state) in {QpIdle, Rtr}
      ensures rv == Success ==>
        && state == RecvdMpaRep && qp.state == Rts
        && qp.irq == AtLeastOne(Max(rep.ord, old(ird))) && qp.orq == AtLeastOne(Min(rep.ird, old(ord)))
      ensures rv != Success ==> unchanged(qp) && state == old(state)
      ensures rv == EconnReset <==> rep.opcode != TrpAccept || rep.ord > SIW_MAX_IRD || rep.ird > SIW_MAX_ORD
      ensures rv in {Success, EconnReset, Einval} && ird == old(ird) && ord == old(ord)
    {
      if rep.opcode != TrpAccept {
        return EconnReset;
      }
      if rep.ord > SIW_MAX_IRD || rep.ird > SIW_MAX_ORD {
        return EconnReset;
      }
      if qp.state != QpIdle && qp.state != Rtr {
        return Einval;
      }
      rv := qp.Modify(Rts, Max(rep.ord, ird), Min(rep.ird, ord), {State} + INIT_TO_RTS_MASK);
      state := RecvdMpaRep;
    }
  }

  /** The depths agree: each side's ORD is at most the other's IRD, no depth is zero, and all of
      them fit a byte. */
  ghost predicate Agree(a: Qp, b: Qp)
    reads a, b
  {
    && 1 <= a.orq <= b.irq <= SIW_MAX_IRD && 1 <= b.orq <= a.irq <= SIW_MAX_IRD
  }

  /** The exact condition for a connection: the initiator asks for no more than the device limits,
      and the responder asks for no more ORD than the initiator's IRD. */
  predicate Acceptable(active: Params, passive: Params) {
    && active.ird % 0x1_0000 <= SIW_MAX_ORD && active.ord % 0x1_0000 <= SIW_MAX_IRD
    && passive.ord <= active.ird % 0x1_0000 && passive.ird <= SIW_MAX_IRD
  }

  /** The handshake from one side's request to the other's reply, for any parameters of either
      caller. It succeeds exactly if the parameters are acceptable. Then the depths agree, the
      daemons learn them unchanged, and the data path may start with them, whatever the window and
      segment sizes. */
  method Establish(a: Cep, b: Cep, active: Params, passive: Params) returns (ok: bool, ea: Event, eb: Event)
    requires a != b && a.qp != b.qp && a.qp.state in {QpIdle, Rtr} && b.qp.state in {QpIdle, Rtr}
    modifies a, b, a.qp, b.qp
    ensures ok <==> Acceptable(active, passive)
    ensures ok ==> a.state == b.state == RdmaMode && a.qp.state == b.qp.state == Rts && Agree(a.qp, b.qp)
    ensures ok ==> ea == Event(a.qp.orq, a.qp.irq) && eb == Event(b.qp.orq, b.qp.irq)
    ensures ok ==> forall size: nat, mtu: nat, size': nat, mtu': nat ::
      size > 0 && mtu > 0 && size' > 0 && mtu' > 0 ==>
        IsStart(Sys(Fresh(Config(size, mtu, ea.ordMax, ea.irdMax)), Fresh(Config(size', mtu', eb.ordMax, eb.irdMax))))
  {
    ok, ea, eb := false, Event(0, 0), Event(0, 0);
    var req := a.Connect(active);
    var rv := b.ProcTrpReq(req);
    if rv != Success {
      return;
    }
    rv := b.Accept(passive);
    if rv != Success {
      return;
    }
    var reply;
    rv, reply := b.QpRtr();
    rv := a.ProcTrpReply(reply[0]);
    if rv != Success {
      return;
    }
    rv, reply := a.QpRtr();
    ea := a.qp.Notify();
    eb := b.qp.Notify();
    ok := true;
  }
}
