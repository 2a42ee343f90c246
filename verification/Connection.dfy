/** Two `Kcp` objects joined by the bytes they output: any calls on either, any datagram of one fed to the
    other, are a run of the two-endpoint system, so its guarantees hold of the objects. */
module Connection {
  import opened Serial
  import opened Wire
  import opened Control
  import opened Structure
  import opened System
  import opened Protocol
  import opened Refinement
  import E = Endpoint

  /** The request a call of the system makes; a delivery of nothing makes none. */
  predicate Calls(peer: End, c: Call) { c.Deliver? ==> c.i < |peer.out| }

  function RequestOf(peer: End, c: Call): Request
    requires Calls(peer, c)
  {
    match c
    case SendCall(data) => SendRequest(data)
    case RecvCall(len) => RecvRequest(len)
    case UpdateCall(now) => UpdateRequest(now)
    case FlushCall => FlushRequest
    case Deliver(i) => InputRequest(DatagramBytes(peer.out[i]))
  }

  /** The history of accepted and delivered data after a call that replied `reply`. */
  function Accepted(acc: seq<Bytes>, c: Call, reply: Reply): seq<Bytes> {
    if c.SendCall? && 0 <= reply.ret <= |c.data| then acc + [c.data[..reply.ret]] else acc
  }

  function HandedOut(dlv: seq<Bytes>, c: Call, reply: Reply): seq<Bytes> {
    if c.RecvCall? && c.len >= 0 && reply.ret >= 0 then dlv + [reply.data] else dlv
  }

  /** A call of the system is the request, its output and its reply. */
  lemma ActIsExec(me: End, peer: End, c: Call)
    requires Calls(peer, c)
    ensures var r := RequestOf(peer, c); var me' := Act(true, me, peer, c); var reply := ExecReply(me.k, r);
            && me'.k == Exec(me.k, r) && me'.out == me.out + ExecOut(me.k, r)
            && me'.acc == Accepted(me.acc, c, reply) && me'.dlv == HandedOut(me.dlv, c, reply)
  {
    assert me.out + [] == me.out;
  }

  /** Object `me` stands for endpoint `e`. */
  ghost predicate Stands(k: Kcb, sent: seq<Bytes>, acc: seq<Bytes>, dlv: seq<Bytes>, e: End) {
    k == e.k && KcbOk(k) && k.cfg.wrap && sent == EncodeEach(e.out) && acc == e.acc && dlv == e.dlv
  }

  lemma StandsOn(e: End, peer: End, c: Call, sent: seq<Bytes>, k': Kcb, sent': seq<Bytes>, reply: Reply)
    requires Stands(e.k, sent, e.acc, e.dlv, e) && Calls(peer, c)
    requires E.Performed(e.k, RequestOf(peer, c), k', sent, sent', reply)
    ensures Stands(k', sent', Accepted(e.acc, c, reply), HandedOut(e.dlv, c, reply), Act(true, e, peer, c))
  {
    ActIsExec(e, peer, c);
    ExecKeeps(e.k, RequestOf(peer, c));
    E.EncodeAppend(e.out, ExecOut(e.k, RequestOf(peer, c)));
  }

  /** One call on `me`; a delivery feeds it a datagram that `peer` output. */
  method Turn(me: E.Kcp, peerSent: seq<Bytes>, c: Call, acc: seq<Bytes>, dlv: seq<Bytes>, ghost e: End, ghost p: End)
    returns (acc': seq<Bytes>, dlv': seq<Bytes>)
    requires me.Shape() && Stands(me.State(), me.sent, acc, dlv, e) && peerSent == EncodeEach(p.out)
    modifies me, me.acklist, me.buffer
    ensures me.Shape() && Stands(me.State(), me.sent, acc', dlv', Act(true, e, p, c))
    ensures me.buffer == old(me.buffer) && (me.acklist == old(me.acklist) || fresh(me.acklist))
  {
    if c.Deliver? && c.i >= |peerSent| {
      return acc, dlv;
    }
    var r :=
      match c
      case SendCall(data) => SendRequest(data)
      case RecvCall(len) => RecvRequest(len)
      case UpdateCall(now) => UpdateRequest(now)
      case FlushCall => FlushRequest
      case Deliver(i) => InputRequest(peerSent[i]);
    ghost var sent := me.sent;
    var reply := me.Perform(r);
    StandsOn(e, p, c, sent, me.State(), me.sent, reply);
    acc', dlv' := Accepted(acc, c, reply), HandedOut(dlv, c, reply);
  }

  /** The objects share nothing. */
  ghost predicate Apart(a: E.Kcp, b: E.Kcp)
    reads a, b
  {
    && a != b
    && a.buffer as object !in {b.buffer as object, b.acklist as object}
    && a.acklist as object !in {b.buffer as object, b.acklist as object}
  }

  ghost predicate Side(me: E.Kcp, acc: seq<Bytes>, dlv: seq<Bytes>, e: End)
    reads me, me.acklist
  {
    me.Shape() && Stands(me.State(), me.sent, acc, dlv, e)
  }

  /** One call on `me` leaves the other object alone. */
  method TurnOf(me: E.Kcp, other: E.Kcp, c: Call, acc: seq<Bytes>, dlv: seq<Bytes>,
                ghost oacc: seq<Bytes>, ghost odlv: seq<Bytes>, ghost e: End, ghost p: End)
    returns (acc': seq<Bytes>, dlv': seq<Bytes>)
    requires Apart(me, other) && Side(me, acc, dlv, e) && Side(other, oacc, odlv, p)
    modifies me, me.acklist, me.buffer
    ensures Apart(me, other) && Side(me, acc', dlv', Act(true, e, p, c)) && Side(other, oacc, odlv, p)
    ensures me.buffer == old(me.buffer) && (me.acklist == old(me.acklist) || fresh(me.acklist))
  {
    acc', dlv' := Turn(me, other.sent, c, acc, dlv, e, p);
  }

  /** What the two applications have been given and handed. */
  datatype Ledger = Ledger(accA: seq<Bytes>, dlvA: seq<Bytes>, accB: seq<Bytes>, dlvB: seq<Bytes>)

  /** The objects stand for the system. */
  ghost predicate Mirrors(a: E.Kcp, b: E.Kcp, l: Ledger, s: Sys)
    reads a, a.acklist, b, b.acklist
  {
    Apart(a, b) && Side(a, l.accA, l.dlvA, s.a) && Side(b, l.accB, l.dlvB, s.b)
  }

  /** One event. */
  method Happen(a: E.Kcp, b: E.Kcp, e: Event, l: Ledger, ghost s: Sys) returns (l': Ledger)
    requires Mirrors(a, b, l, s)
    modifies a, a.acklist, a.buffer, b, b.acklist, b.buffer
    ensures Mirrors(a, b, l', Step(true, s, e))
    ensures a.buffer == old(a.buffer) && (a.acklist == old(a.acklist) || fresh(a.acklist))
    ensures b.buffer == old(b.buffer) && (b.acklist == old(b.acklist) || fresh(b.acklist))
  {
    if e.AtA? {
      var acc, dlv := TurnOf(a, b, e.call, l.accA, l.dlvA, l.accB, l.dlvB, s.a, s.b);
      l' := l.(accA := acc, dlvA := dlv);
    } else {
      var acc, dlv := TurnOf(b, a, e.call, l.accB, l.dlvB, l.accA, l.dlvA, s.b, s.a);
      l' := l.(accB := acc, dlvB := dlv);
    }
  }

  lemma RunNext(s: Sys, es: seq<Event>, i: nat)
    requires i < |es|
    ensures Run(true, s, es[..i + 1]) == Step(true, Run(true, s, es[..i]), es[i])
  {
    assert es[..i + 1][..i] == es[..i];
  }

  /** Whole conversations: after any events, each object's state, output, accepted and delivered data are
      those of the run of the system. */
  method Converse(a: E.Kcp, b: E.Kcp, es: seq<Event>) returns (l: Ledger)
    requires Mirrors(a, b, Ledger([], [], [], []), Init(a.cfg, b.cfg))
    modifies a, a.acklist, a.buffer, b, b.acklist, b.buffer
    ensures Mirrors(a, b, l, Run(true, Init(a.cfg, b.cfg), es))
  {
    l := Ledger([], [], [], []);
    ghost var s0 := Init(a.cfg, b.cfg);
    for i := 0 to |es|
      invariant a.buffer == old(a.buffer) && (a.acklist == old(a.acklist) || fresh(a.acklist))
      invariant b.buffer == old(b.buffer) && (b.acklist == old(b.acklist) || fresh(b.acklist))
      invariant Mirrors(a, b, l, Run(true, s0, es[..i]))
    {
      RunNext(s0, es, i);
      l := Happen(a, b, es[i], l, Run(true, s0, es[..i]));
    }
    WholePrefix(es);
  }

  /** Two new objects, any events: what each hands out is a prefix of what the other accepted, whole
      messages or bytes in stream mode, as long as no datagram arrives half the number circle late, which
      holds of every run that is short enough. */
  method SafeConversation(ca: Config, cb: Config, es: seq<Event>) returns (l: Ledger)
    requires Compatible(ca, cb)
    ensures FreshRun(Init(ca, cb), es) || ShortRun(ca, cb, es) ==>
              && (if ca.stream then Concat(l.dlvB) <= Concat(l.accA) else l.dlvB <= l.accA)
              && (if cb.stream then Concat(l.dlvA) <= Concat(l.accB) else l.dlvA <= l.accB)
  {
    var a := new E.Kcp(ca.(wrap := true));
    var b := new E.Kcp(cb.(wrap := true));
    l := Converse(a, b, es);
    if FreshRun(Init(ca, cb), es) || ShortRun(ca, cb, es) {
      if ShortRun(ca, cb, es) { ShortRunIsFresh(ca, cb, es); }
      WrappedEndToEndSafety(ca, cb, es);
      WrappingRefinesUnbounded(ca, cb, es);
      RunConfig(Init(ca, cb), es);
    }
  }
}
