/** No dead end for the 32-bit endpoints over raw bytes. */
module Delivery {
  import opened Serial
  import opened Wire
  import opened Control
  import opened Structure
  import opened System
  import opened Protocol
  import opened Refinement
  import R = Recovery

  /** A run of the unbounded endpoints in which neither side has numbered that many segments is fresh. */
  lemma {:induction false} FreshByCount(ca: Config, cb: Config, es: seq<Event>)
    requires Compatible(ca, cb)
    requires var s := Run(false, Init(ca, cb), es); |s.a.log| + cb.rcvWnd <= HALF && |s.b.log| + ca.rcvWnd <= HALF
    ensures FreshRun(Init(ca, cb), es)
    decreases |es|
  {
    if es != [] {
      var front, e := es[..|es| - 1], es[|es| - 1];
      var t := Run(false, Init(ca, cb), front);
      LogGrows(false, t, e);
      FreshByCount(ca, cb, front);
      RunKeeps(ca, cb, front);
      RunConfig(Init(ca, cb), front);
      match e
      case AtA(c) => FreshCallByCount(t.a, t.b, c);
      case AtB(c) => FreshCallByCount(t.b, t.a, c);
    }
  }

  /** The fragments an endpoint has numbered or queued. */
  function Taken(x: End): nat { |x.log| + |x.k.snd.queue| }

  lemma FlushTakesNone(me: End, f: Flushed)
    requires |f.k.snd.queue| <= |me.k.snd.queue|
    ensures Taken(AfterFlush(me, f)) == Taken(me)
  {
  }

  lemma FlushQueue(k: Kcb)
    ensures |Flush(k).k.snd.queue| <= |k.snd.queue|
  {
    AdmitQueue(k.cfg, k.snd, SendWindow(k), k.clock.current, k.rtt.rto);
  }

  /** Only a send takes in fragments. */
  lemma CallTakesNone(me: End, peer: End, c: Call)
    requires Linked(me, peer) && EndOk(peer) && !c.SendCall?
    ensures Taken(Act(false, me, peer, c)) == Taken(me)
  {
    match c
    case RecvCall(len) =>
    case UpdateCall(now) =>
      FlushQueue(me.k.(clock := TickClock(me.k.cfg, me.k.clock, now).clock));
      FlushTakesNone(me, Update(me.k, now));
    case FlushCall =>
      FlushQueue(me.k);
      FlushTakesNone(me, Flush(me.k));
    case Deliver(i) =>
      if i < |peer.out| {
        R.OutIsLegible(me.k.cfg, peer);
        R.HearAct(me, peer, i);
      }
  }

  lemma {:induction false} RunTakesNone(s: Sys, es: seq<Event>)
    requires SysOk(s) && R.NoSends(es)
    ensures SysOk(Run(false, s, es))
    ensures Taken(Run(false, s, es).a) == Taken(s.a) && Taken(Run(false, s, es).b) == Taken(s.b)
    decreases |es|
  {
    if es != [] {
      var front, e := es[..|es| - 1], es[|es| - 1];
      RunTakesNone(s, front);
      var t := Run(false, s, front);
      StepKeeps(t, e);
      R.SysSides(t);
      match e
      case AtA(c) => CallTakesNone(t.a, t.b, c);
      case AtB(c) => CallTakesNone(t.b, t.a, c);
    }
  }

  /** What each side has taken in, with the other's receive window, stays within half the circle. */
  ghost predicate FewTaken(ca: Config, cb: Config, s: Sys) {
    Taken(s.a) + cb.rcvWnd <= HALF && Taken(s.b) + ca.rcvWnd <= HALF
  }

  lemma FewTakenAgrees(ca: Config, cb: Config, es: seq<Event>)
    requires Compatible(ca, cb) && FewTaken(ca, cb, Run(true, Init(Wrapping(ca), Wrapping(cb)), es))
    ensures FewTaken(ca, cb, Run(false, Init(ca, cb), es))
    ensures Run(true, Init(Wrapping(ca), Wrapping(cb)), es) == WSys(Run(false, Init(ca, cb), es))
  {
    ShortRunIsFresh(ca, cb, es);
    WrappingRefinesUnbounded(ca, cb, es);
  }

  lemma DeliveredAgrees(x: End, y: End)
    requires R.AllDelivered(x, y)
    ensures R.AllDelivered(WEnd(x), WEnd(y))
  {
  }

  /** No dead end for the real endpoints: from every state that two 32-bit endpoints can reach over raw bytes
      and a faulty network, having taken in less than 2^31 segments less the other's receive window, there
      are calls and deliveries after which all that was accepted has been delivered on both sides. */
  lemma WrappedNoDeadEnd(ca: Config, cb: Config, es: seq<Event>) returns (more: seq<Event>)
    requires Compatible(ca, cb) && ca.rcvWnd < 65536 && cb.rcvWnd < 65536
    requires FewTaken(ca, cb, Run(true, Init(Wrapping(ca), Wrapping(cb)), es))
    ensures R.NoSends(more)
    ensures var s := Run(true, Init(Wrapping(ca), Wrapping(cb)), es);
            var t := Run(true, Init(Wrapping(ca), Wrapping(cb)), es + more);
            && t.a.acc == s.a.acc && t.b.acc == s.b.acc
            && R.AllDelivered(t.a, t.b) && R.AllDelivered(t.b, t.a)
  {
    var s := Run(false, Init(ca, cb), es);
    FewTakenAgrees(ca, cb, es);
    more := R.NoDeadEnd(ca, cb, es);
    RunKeeps(ca, cb, es);
    RunTakesNone(s, more);
    R.RunAppend(false, Init(ca, cb), es, more);
    var t := Run(false, Init(ca, cb), es + more);
    FreshByCount(ca, cb, es + more);
    WrappingRefinesUnbounded(ca, cb, es + more);
    DeliveredAgrees(t.a, t.b);
    DeliveredAgrees(t.b, t.a);
  }
}
