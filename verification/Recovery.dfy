/** No state is a dead end: from every reachable state of two endpoints, whatever the network has done so
    far, there are calls and deliveries after which everything accepted has been delivered. */
module Recovery {
  import opened Serial
  import opened Wire
  import opened Control
  import opened Structure
  import opened Acking
  import opened Flushing
  import opened System
  import opened Protocol

  // ----- what reading a datagram achieves -----

  ghost predicate HasAck(acks: seq<Ack>, sn: int) { exists i :: 0 <= i < |acks| && acks[i].sn == sn }

  lemma {:induction false} ReadyOn(cfg: Config, rcv: Rcv)
    requires !cfg.wrap
    ensures var r := MoveReady(cfg, rcv); r.nxt >= rcv.nxt && r.acks == rcv.acks
    decreases |rcv.buf|
  {
    if rcv.buf != [] && rcv.buf[0].sn == rcv.nxt && |rcv.queue| < cfg.rcvWnd {
      ReadyOn(cfg, rcv.(nxt := Plus(cfg.wrap, rcv.nxt, 1), buf := rcv.buf[1..], queue := rcv.queue + [rcv.buf[0]]));
    }
  }

  lemma RcvOn(cfg: Config, rcv: Rcv, p: Packet)
    requires !cfg.wrap
    ensures var r := InputRcv(cfg, rcv, p);
            && r.nxt >= rcv.nxt && rcv.acks <= r.acks
            && (p.cmd == CMD_PUSH && p.sn < rcv.nxt + cfg.rcvWnd ==> HasAck(r.acks, p.sn))
  {
    if p.cmd == CMD_PUSH && BelowWindowEnd(cfg, rcv, p.sn) {
      var rcv1 := rcv.(acks := rcv.acks + [Ack(p.sn, p.ts)]);
      assert rcv1.acks[|rcv.acks|].sn == p.sn;
      ReadyOn(cfg, rcv1.(buf := Insert(cfg, rcv1.buf, RcvSeg(p.sn, Frag(p.frg, p.data)))));
    }
  }

  lemma SndOn(cfg: Config, snd: Snd, p: Packet)
    requires cfg.Valid() && SndOk(cfg, snd)
    ensures var snd' := InputSnd(cfg, snd, p);
            && (forall n :: Buffered(snd'.buf, n) ==> Buffered(snd.buf, n))
            && (p.cmd == CMD_ACK ==> !Buffered(snd'.buf, p.sn))
  {
    AcksFree(cfg, snd, p);
    var buf' := InputSnd(cfg, snd, p).buf;
    forall n | Buffered(buf', n) ensures Buffered(snd.buf, n) && (p.cmd == CMD_ACK ==> n != p.sn) {
      var j :| 0 <= j < |buf'| && buf'[j].sn == n;
      assert buf'[j] in buf';
    }
  }

  /** Reading changes a control block from `k` to `k'`: acknowledgements queue up, segments are only freed,
      the receiver only moves on. */
  ghost predicate Heard(k: Kcb, k': Kcb) {
    && k'.cfg == k.cfg && k'.clock == k.clock
    && k'.rcv.nxt >= k.rcv.nxt && k.rcv.acks <= k'.rcv.acks
    && (forall n :: Buffered(k'.snd.buf, n) ==> Buffered(k.snd.buf, n))
    && (k.probe.tell ==> k'.probe.tell) && k'.probe == k.probe.(tell := k'.probe.tell)
  }

  /** What one segment of a datagram has brought about by the end. */
  ghost predicate Effect(k: Kcb, p: Packet, k': Kcb) {
    && (p.cmd == CMD_PUSH && p.sn < k.rcv.nxt + k.cfg.rcvWnd ==> HasAck(k'.rcv.acks, p.sn))
    && (p.cmd == CMD_ACK ==> !Buffered(k'.snd.buf, p.sn))
    && (p.cmd == CMD_WASK ==> k'.probe.tell)
  }

  /** What the segments of a datagram have brought about. */
  ghost predicate Effects(k: Kcb, d: Datagram, k': Kcb) {
    forall j :: 0 <= j < |d| ==> Effect(k, d[j], k')
  }

  lemma HasAckOn(a: seq<Ack>, b: seq<Ack>)
    requires a <= b
    ensures forall sn :: HasAck(a, sn) ==> HasAck(b, sn)
  {
    forall sn | HasAck(a, sn) ensures HasAck(b, sn) {
      var i :| 0 <= i < |a| && a[i].sn == sn;
      assert b[i].sn == sn;
    }
  }

  lemma HeardOn(a: Kcb, b: Kcb, c: Kcb)
    requires Heard(a, b) && Heard(b, c)
    ensures Heard(a, c)
    ensures forall p :: Effect(a, p, b) ==> Effect(a, p, c)
    ensures forall p :: Effect(b, p, c) ==> Effect(a, p, c)
    ensures forall d :: Effects(a, d, b) ==> Effects(a, d, c)
    ensures forall d :: Effects(b, d, c) ==> Effects(a, d, c)
  {
    HasAckOn(b.rcv.acks, c.rcv.acks);
  }

  lemma HearOne(x: Progress, p: Packet)
    requires KcbOk(x.k) && !x.k.cfg.wrap
    ensures Heard(x.k, InputPacket(x, p).k) && Effect(x.k, p, InputPacket(x, p).k)
  {
    RcvOn(x.k.cfg, x.k.rcv, p);
    SndOn(x.k.cfg, x.k.snd, p);
  }

  lemma {:induction false} HearPackets(x: Progress, ps: seq<Packet>)
    requires KcbOk(x.k) && !x.k.cfg.wrap && forall i :: 0 <= i < |ps| ==> PacketOk(x.k.cfg, ps[i])
    ensures Heard(x.k, InputPackets(x, ps).k)
    ensures forall i :: 0 <= i < |ps| ==> Effect(x.k, ps[i], InputPackets(x, ps).k)
    decreases |ps|
  {
    if ps != [] {
      var x1 := InputPacket(x, ps[0]);
      HearOne(x, ps[0]);
      InputPacketKeeps(x, ps[0]);
      HearPackets(x1, ps[1..]);
      HeardOn(x.k, x1.k, InputPackets(x, ps).k);
      forall i | 0 <= i < |ps| ensures Effect(x.k, ps[i], InputPackets(x, ps).k) {
        if i > 0 { assert Effect(x1.k, ps[1..][i - 1], InputPackets(x, ps).k); }
      }
    }
  }

  lemma SameBuffered(a: seq<SndSeg>, b: seq<SndSeg>)
    requires SameSegs(a, b)
    ensures forall n :: Buffered(a, n) <==> Buffered(b, n)
  {
    forall n ensures Buffered(a, n) <==> Buffered(b, n) {
      if j :| 0 <= j < |a| && a[j].sn == n { assert b[j].sn == n; }
      if j :| 0 <= j < |b| && b[j].sn == n { assert a[j].sn == n; }
    }
  }

  lemma HearDatagram(k: Kcb, d: Datagram)
    requires KcbOk(k) && !k.cfg.wrap && forall i :: 0 <= i < |d| ==> PacketOk(k.cfg, d[i])
    ensures var k' := Input(k, Parsed(d, 0));
            Heard(k, k') && Effects(k, d, k')
  {
    var x0 := StartInput(k);
    var x := InputPackets(x0, d);
    HearPackets(x0, d);
    InputPacketsKeeps(x0, d);
    FinishInputKeeps(k.snd.una, x);
    SameBuffered(FinishInput(k.snd.una, x).snd.buf, x.k.snd.buf);
  }

  // ----- hearing everything said since -----

  /** `me` after the peer's datagrams from `lo` up to `hi` have arrived in order. */
  function HearFrom(me: End, peer: End, lo: nat, hi: nat): End
    decreases hi - lo
  {
    if hi <= lo then me else Act(false, HearFrom(me, peer, lo, hi - 1), peer, Deliver(hi - 1))
  }

  /** What an endpoint keeps while it only hears. */
  ghost predicate OnlyHeard(me: End, me': End) {
    && me' == me.(k := me'.k) && Heard(me.k, me'.k)
    && me'.k.snd.queue == me.k.snd.queue && me'.k.snd.nxt == me.k.snd.nxt && me'.k.snd.una >= me.k.snd.una
  }

  /** Every datagram of the peer can be read by `cfg`. */
  ghost predicate Legible(cfg: Config, peer: End) {
    forall i :: 0 <= i < |peer.out| ==> PacketsOk(cfg, peer.out[i])
  }

  ghost predicate PacketsOk(cfg: Config, d: Datagram) { forall j :: 0 <= j < |d| ==> PacketOk(cfg, d[j]) }

  lemma OutIsLegible(cfg: Config, peer: End)
    requires EndOk(peer) && !cfg.wrap
    ensures Legible(cfg, peer)
  {
    forall i, j | 0 <= i < |peer.out| && 0 <= j < |peer.out[i]| ensures PacketOk(cfg, peer.out[i][j]) {
      assert InTransit(peer.k.cfg, peer.out[i][j]);
    }
  }

  lemma HearAct(me: End, peer: End, i: nat)
    requires KcbOk(me.k) && !me.k.cfg.wrap && Legible(me.k.cfg, peer) && i < |peer.out|
    ensures var me' := Act(false, me, peer, Deliver(i));
            KcbOk(me'.k) && OnlyHeard(me, me') && Effects(me.k, peer.out[i], me'.k)
  {
    assert PacketsOk(me.k.cfg, peer.out[i]);
    HearDatagram(me.k, peer.out[i]);
    InputKeeps(me.k, Parsed(peer.out[i], 0));
  }

  ghost predicate AllEffects(me: End, peer: End, lo: nat, hi: nat, me': End)
    requires hi <= |peer.out|
  {
    forall i :: lo <= i < hi ==> Effects(me.k, peer.out[i], me'.k)
  }

  lemma OnlyHeardOn(a: End, b: End, c: End)
    requires OnlyHeard(a, b) && OnlyHeard(b, c)
    ensures OnlyHeard(a, c)
  {
    HeardOn(a.k, b.k, c.k);
  }

  lemma EffectsOn(me: End, mid: End, peer: End, lo: nat, hi: nat, me': End)
    requires lo < hi <= |peer.out| && AllEffects(me, peer, lo, hi - 1, mid) && Heard(me.k, mid.k) && Heard(mid.k, me'.k)
    requires Effects(mid.k, peer.out[hi - 1], me'.k)
    ensures AllEffects(me, peer, lo, hi, me')
  {
    HeardOn(me.k, mid.k, me'.k);
    forall i | lo <= i < hi ensures Effects(me.k, peer.out[i], me'.k) {
      if i < hi - 1 { assert Effects(me.k, peer.out[i], mid.k); }
    }
  }

  lemma {:induction false} HearsAll(me: End, peer: End, lo: nat, hi: nat)
    requires KcbOk(me.k) && !me.k.cfg.wrap && Legible(me.k.cfg, peer) && lo <= hi <= |peer.out|
    ensures var me' := HearFrom(me, peer, lo, hi);
            KcbOk(me'.k) && OnlyHeard(me, me') && AllEffects(me, peer, lo, hi, me')
    decreases hi - lo
  {
    if lo < hi {
      var mid := HearFrom(me, peer, lo, hi - 1);
      HearsAll(me, peer, lo, hi - 1);
      HearAct(mid, peer, hi - 1);
      var me' := Act(false, mid, peer, Deliver(hi - 1));
      OnlyHeardOn(me, mid, me');
      EffectsOn(me, mid, peer, lo, hi, me');
    }
  }

  lemma {:induction false} HearsLinked(me: End, peer: End, lo: nat, hi: nat)
    requires Linked(me, peer) && EndOk(peer) && lo <= hi
    ensures Linked(HearFrom(me, peer, lo, hi), peer)
    decreases hi - lo
  {
    if lo < hi {
      HearsLinked(me, peer, lo, hi - 1);
      ActKeeps(HearFrom(me, peer, lo, hi - 1), peer, Deliver(hi - 1));
    }
  }

  // ----- making an endpoint speak -----

  /** An update at `t`, and a flush if the update made none. */
  function Kick(me: End, peer: End, t: Time): End {
    var me1 := Act(false, me, peer, UpdateCall(t));
    if TickClock(me.k.cfg, me.k.clock, t).flush then me1 else Act(false, me1, peer, FlushCall)
  }

  /** The control block a kick flushes. */
  function Kicked(me: End, t: Time): Kcb { me.k.(clock := TickClock(me.k.cfg, me.k.clock, t).clock) }

  lemma NothingSaid(me: End, k1: Kcb)
    requires k1.snd.queue == me.k.snd.queue
    ensures AfterFlush(me, Flushed(k1, [])) == me.(k := k1)
  {
    assert me.out + [] == me.out && me.log + [] == me.log;
  }

  lemma KickIs(me: End, peer: End, t: Time)
    ensures Kick(me, peer, t) == AfterFlush(me, Flush(Kicked(me, t)))
    ensures Kicked(me, t).clock.updated && Kicked(me, t).clock.current == t
  {
    var k1 := Kicked(me, t);
    if !TickClock(me.k.cfg, me.k.clock, t).flush {
      assert Update(me.k, t) == Flushed(k1, []);
      NothingSaid(me, k1);
      assert Act(false, me.(k := k1), peer, FlushCall) == AfterFlush(me.(k := k1), Flush(k1));
    }
  }

  lemma KickKeeps(me: End, peer: End, t: Time)
    requires Linked(me, peer)
    ensures Linked(Kick(me, peer, t), peer) && KcbOk(Kicked(me, t))
  {
    UpdateCallStep(me, peer, t);
    FlushCallStep(Act(false, me, peer, UpdateCall(t)), peer);
    TickOk(me.k, t);
  }

  lemma TickOk(k: Kcb, t: Time)
    requires KcbOk(k)
    ensures KcbOk(k.(clock := TickClock(k.cfg, k.clock, t).clock))
  {
  }

  // ----- what was said -----

  /** Some segment in `ds` says `it`. */
  ghost predicate Says(ds: seq<Datagram>, it: Item) {
    exists i, j :: 0 <= i < |ds| && 0 <= j < |ds[i]| && ItemOf(ds[i][j]) == it
  }

  lemma {:induction false} SaidSomewhere(ds: seq<Datagram>, n: nat)
    requires n < |Concat(ds)|
    ensures Says(ds, ItemOf(Concat(ds)[n]))
  {
    var it := ItemOf(Concat(ds)[n]);
    if n < |ds[0]| {
      assert ItemOf(ds[0][n]) == it;
    } else {
      assert Concat(ds)[n] == Concat(ds[1..])[n - |ds[0]|];
      SaidSomewhere(ds[1..], n - |ds[0]|);
      var i, j :| 0 <= i < |ds[1..]| && 0 <= j < |ds[1..][i]| && ItemOf(ds[1..][i][j]) == it;
      assert ItemOf(ds[i + 1][j]) == it;
    }
  }

  lemma AgendaIsSaid(k: Kcb, it: Item)
    requires KcbOk(k) && k.clock.updated && it in Agenda(k)
    ensures Says(Flush(k).out, it)
  {
    FlushSaysAgenda(k);
    var n :| 0 <= n < |Agenda(k)| && Agenda(k)[n] == it;
    SaidSomewhere(Flush(k).out, n);
  }

  lemma {:induction false} DueIsListed(cfg: Config, now: int, buf: seq<SndSeg>, j: nat)
    requires j < |buf| && Due(cfg, now, buf[j])
    ensures DataItem(buf[j].sn, buf[j].frag) in DueItems(cfg, now, buf)
  {
    if j < |buf| - 1 { DueIsListed(cfg, now, buf[..|buf| - 1], j); }
  }

  /** The datagrams an endpoint added when it went from `me` to `me'`. */
  ghost predicate Spoke(me: End, me': End, k1: Kcb) {
    && me' == AfterFlush(me, Flush(k1)) && KcbOk(k1) && k1.clock.updated && !k1.cfg.wrap
    && k1 == me.k.(clock := k1.clock)
  }

  /** What was said since can be heard. */
  lemma SaidIsThere(me: End, me': End, k1: Kcb, it: Item) returns (i: nat, j: nat)
    requires Spoke(me, me', k1) && it in Agenda(k1) && EndOk(me')
    ensures |me.out| <= i < |me'.out| && j < |me'.out[i]| && ItemOf(me'.out[i][j]) == it && KnownCmd(me'.out[i][j].cmd)
  {
    AgendaIsSaid(k1, it);
    var out := Flush(k1).out;
    var a, b :| 0 <= a < |out| && 0 <= b < |out[a]| && ItemOf(out[a][b]) == it;
    i, j := |me.out| + a, b;
    assert me'.out[i] == out[a];
    assert InTransit(me'.k.cfg, me'.out[i][j]);
  }

  // ----- one exchange -----

  /** `me` has spoken, `peer` has heard it all. */
  ghost predicate HeardNew(me: End, me': End, peer: End, peer': End) {
    |me.out| <= |me'.out| && Heard(peer.k, peer'.k) && AllEffects(peer, me', |me.out|, |me'.out|, peer')
  }

  /** A segment that is due and fits the peer's window is acknowledged by the peer that hears it. */
  lemma DueIsAcked(me: End, me': End, k1: Kcb, peer: End, peer': End, n: nat)
    requires Spoke(me, me', k1) && EndOk(me') && HeardNew(me, me', peer, peer')
    requires var buf := Admitted(k1).buf;
             n < |buf| && Due(k1.cfg, k1.clock.current, buf[n]) && buf[n].sn < peer.k.rcv.nxt + peer.k.cfg.rcvWnd
    ensures HasAck(peer'.k.rcv.acks, Admitted(k1).buf[n].sn)
  {
    var s := Admitted(k1).buf[n];
    DueIsListed(k1.cfg, k1.clock.current, Admitted(k1).buf, n);
    var i, j := SaidIsThere(me, me', k1, DataItem(s.sn, s.frag));
    assert Effects(peer.k, me'.out[i], peer'.k);
    assert Effect(peer.k, me'.out[i][j], peer'.k);
  }

  /** A pending acknowledgement frees its segment at the peer that hears the next flush. */
  lemma AckFrees(me: End, me': End, k1: Kcb, peer: End, peer': End, sn: int)
    requires Spoke(me, me', k1) && EndOk(me') && HeardNew(me, me', peer, peer') && HasAck(k1.rcv.acks, sn)
    ensures !Buffered(peer'.k.snd.buf, sn)
  {
    var n :| 0 <= n < |k1.rcv.acks| && k1.rcv.acks[n].sn == sn;
    assert AckItems(k1.rcv.acks)[n] == AckItem(sn, k1.rcv.acks[n].ts);
    assert Agenda(k1)[n] == AckItem(sn, k1.rcv.acks[n].ts);
    var i, j := SaidIsThere(me, me', k1, AckItem(sn, k1.rcv.acks[n].ts));
    assert Effects(peer.k, me'.out[i], peer'.k);
    assert Effect(peer.k, me'.out[i][j], peer'.k);
  }

  /** What a flush leaves of the sender. */
  lemma SpokeSnd(me: End, me': End, k1: Kcb)
    requires Spoke(me, me', k1)
    ensures |me.out| <= |me'.out| && me.out <= me'.out && me'.acc == me.acc && me'.dlv == me.dlv && me'.k.cfg == me.k.cfg
    ensures me'.k.snd.una == me.k.snd.una && me'.k.cc.cwnd >= 1
    ensures me'.k.snd.nxt + |me'.k.snd.queue| == me.k.snd.nxt + |me.k.snd.queue|
    ensures forall n :: Buffered(me'.k.snd.buf, n) <==> Buffered(Admitted(k1).buf, n)
    ensures me'.k.rcv == me.k.rcv.(acks := [])
  {
    FlushKeeps(k1);
    FlushSndKeepsAt(k1);
    var more := FlushNumbers(k1);
    SameBuffered(Flush(k1).k.snd.buf, Admitted(k1).buf);
    SettleKeeps(k1.cfg, k1.cc, U32(Admitted(k1).nxt - Admitted(k1).una), SendPass(k1, Admitted(k1).buf, |Admitted(k1).buf|).fasts > 0, SendPass(k1, Admitted(k1).buf, |Admitted(k1).buf|).timeouts > 0);
  }

  lemma FlushSndKeepsAt(k: Kcb)
    requires KcbOk(k) && k.clock.updated
    ensures SameSegs(Flush(k).k.snd.buf, Admitted(k).buf)
  {
    AdmittedOk(k);
    FlushSndKeeps(k);
  }

  /** `a` speaks and `b` hears it. */
  function Tell(s: Sys, t: Time): Sys {
    var a1 := Kick(s.a, s.b, t);
    Sys(a1, HearFrom(s.b, a1, |s.a.out|, |a1.out|))
  }

  /** The exchange: `a` speaks, `b` hears it, `b` speaks, `a` hears it. */
  function Exchange(s: Sys, t: Time, u: Time): Sys {
    Swap(Tell(Swap(Tell(s, t)), u))
  }

  function Swap(s: Sys): Sys { Sys(s.b, s.a) }

  lemma SysSides(s: Sys)
    requires SysOk(s)
    ensures Linked(s.a, s.b) && EndOk(s.b) && Linked(s.b, s.a) && EndOk(s.a)
  {
  }

  lemma SidesSys(a: End, b: End)
    requires Linked(b, a) && EndOk(a)
    ensures SysOk(Sys(a, b))
  {
  }

  /** What telling achieves. */
  ghost predicate Told(s: Sys, t: Time, s1: Sys) {
    && s1 == Tell(s, t) && SysOk(s1)
    && Spoke(s.a, s1.a, Kicked(s.a, t)) && EndOk(s1.a) && OnlyHeard(s.b, s1.b) && HeardNew(s.a, s1.a, s.b, s1.b)
    && Kicked(s.a, t).clock.current == t
  }

  lemma Tells(s: Sys, t: Time)
    requires SysOk(s)
    ensures Told(s, t, Tell(s, t))
  {
    var a1 := Kick(s.a, s.b, t);
    SpeaksUp(s, t);
    OutIsLegible(s.b.k.cfg, a1);
    HearsAll(s.b, a1, |s.a.out|, |a1.out|);
    HearsLinked(s.b, a1, |s.a.out|, |a1.out|);
    SidesSys(a1, HearFrom(s.b, a1, |s.a.out|, |a1.out|));
  }

  lemma SpeaksUp(s: Sys, t: Time)
    requires SysOk(s)
    ensures var a1 := Kick(s.a, s.b, t);
            && Spoke(s.a, a1, Kicked(s.a, t)) && EndOk(a1) && Linked(s.b, a1) && |s.a.out| <= |a1.out|
            && Kicked(s.a, t).clock.current == t && KcbOk(s.b.k) && !s.b.k.cfg.wrap
  {
    KickIs(s.a, s.b, t);
    KickKeeps(s.a, s.b, t);
    SpokeSnd(s.a, Kick(s.a, s.b, t), Kicked(s.a, t));
    SysSides(Sys(Kick(s.a, s.b, t), s.b));
  }

  /** One clean exchange frees everything it could: of the segments buffered when `a` speaks, none is left
      that was due and fits the window of `b`. */
  lemma ExchangeFrees(s: Sys, t: Time, u: Time)
    requires SysOk(s)
    ensures SysOk(Exchange(s, t, u))
    ensures var buf := Admitted(Kicked(s.a, t)).buf; var buf' := Exchange(s, t, u).a.k.snd.buf;
            forall n :: 0 <= n < |buf| && Due(s.a.k.cfg, t, buf[n]) && buf[n].sn < s.b.k.rcv.nxt + s.b.k.cfg.rcvWnd
                        ==> !Buffered(buf', buf[n].sn)
    ensures forall sn :: Buffered(Exchange(s, t, u).a.k.snd.buf, sn) ==> Buffered(Admitted(Kicked(s.a, t)).buf, sn)
  {
    var s1 := Tell(s, t);
    var s2 := Tell(Swap(s1), u);
    Tells(s, t);
    SysSides(s1);
    Tells(Swap(s1), u);
    SysSides(s2);
    var k1 := Kicked(s.a, t);
    var buf := Admitted(k1).buf;
    SpokeSnd(s.a, s1.a, k1);
    forall n | 0 <= n < |buf| && Due(s.a.k.cfg, t, buf[n]) && buf[n].sn < s.b.k.rcv.nxt + s.b.k.cfg.rcvWnd
      ensures !Buffered(s2.b.k.snd.buf, buf[n].sn)
    {
      DueIsAcked(s.a, s1.a, k1, s.b, s1.b, n);
      AckFrees(s1.b, s2.a, Kicked(s1.b, u), s1.a, s2.b, buf[n].sn);
    }
  }

  // ----- reachability -----

  predicate NoSends(es: seq<Event>) {
    forall i :: 0 <= i < |es| ==> !es[i].call.SendCall?
  }

  /** Some calls and deliveries, none of them a send, lead from `s` to `t`. */
  ghost predicate Leads(s: Sys, t: Sys) {
    exists es :: NoSends(es) && Run(false, s, es) == t
  }

  lemma {:induction false} RunAppend(bytes: bool, s: Sys, es: seq<Event>, fs: seq<Event>)
    ensures Run(bytes, s, es + fs) == Run(bytes, Run(bytes, s, es), fs)
    decreases |fs|
  {
    if fs == [] {
      assert es + fs == es;
    } else {
      assert (es + fs)[..|es + fs| - 1] == es + fs[..|fs| - 1];
      RunAppend(bytes, s, es, fs[..|fs| - 1]);
    }
  }

  lemma Stays(s: Sys)
    ensures Leads(s, s)
  {
    var none: seq<Event> := [];
    assert NoSends(none) && Run(false, s, none) == s;
  }

  lemma LeadsOn(s: Sys, t: Sys, e: Event)
    requires Leads(s, t) && !e.call.SendCall?
    ensures Leads(s, Step(false, t, e))
  {
    var es :| NoSends(es) && Run(false, s, es) == t;
    assert (es + [e])[..|es|] == es;
    assert NoSends(es + [e]) && Run(false, s, es + [e]) == Step(false, t, e);
  }

  lemma LeadsTrans(s: Sys, t: Sys, u: Sys)
    requires Leads(s, t) && Leads(t, u)
    ensures Leads(s, u)
  {
    var es :| NoSends(es) && Run(false, s, es) == t;
    var fs :| NoSends(fs) && Run(false, t, fs) == u;
    RunAppend(false, s, es, fs);
    assert NoSends(es + fs) && Run(false, s, es + fs) == u;
  }

  function SwapEvent(e: Event): Event {
    match e case AtA(c) => AtB(c) case AtB(c) => AtA(c)
  }

  function SwapEvents(es: seq<Event>): (r: seq<Event>)
    ensures |r| == |es| && forall i :: 0 <= i < |r| ==> r[i] == SwapEvent(es[i])
  {
    seq(|es|, i requires 0 <= i < |es| => SwapEvent(es[i]))
  }

  lemma {:induction false} RunSwap(s: Sys, es: seq<Event>)
    ensures Run(false, Swap(s), SwapEvents(es)) == Swap(Run(false, s, es))
    decreases |es|
  {
    if es != [] {
      var front := es[..|es| - 1];
      RunSwap(s, front);
      assert SwapEvents(es)[..|es| - 1] == SwapEvents(front);
    }
  }

  lemma SwapNoSends(es: seq<Event>)
    requires NoSends(es)
    ensures NoSends(SwapEvents(es))
  {
    var fs: seq<Event> := SwapEvents(es);
    forall i | 0 <= i < |fs| ensures !fs[i].call.SendCall? {
      assert fs[i] == SwapEvent(es[i]) && !es[i].call.SendCall?;
    }
  }

  lemma LeadsSwap(s: Sys, t: Sys)
    requires Leads(s, t)
    ensures Leads(Swap(s), Swap(t))
  {
    var es :| NoSends(es) && Run(false, s, es) == t;
    RunSwap(s, es);
    SwapNoSends(es);
  }

  lemma KickLeads(s: Sys, t: Time)
    ensures Leads(s, s.(a := Kick(s.a, s.b, t)))
  {
    Stays(s);
    LeadsOn(s, s, AtA(UpdateCall(t)));
    var s1 := Step(false, s, AtA(UpdateCall(t)));
    if !TickClock(s.a.k.cfg, s.a.k.clock, t).flush { LeadsOn(s, s1, AtA(FlushCall)); }
  }

  lemma {:induction false} HearLeads(s: Sys, lo: nat, hi: nat)
    requires lo <= hi
    ensures Leads(s, s.(a := HearFrom(s.a, s.b, lo, hi)))
    decreases hi - lo
  {
    if lo < hi {
      var s1 := s.(a := HearFrom(s.a, s.b, lo, hi - 1));
      HearLeads(s, lo, hi - 1);
      LeadsOn(s, s1, AtA(Deliver(hi - 1)));
      assert Step(false, s1, AtA(Deliver(hi - 1))) == s.(a := HearFrom(s.a, s.b, lo, hi));
    } else {
      Stays(s);
    }
  }

  lemma TellLeads(s: Sys, t: Time)
    requires SysOk(s)
    ensures Leads(s, Tell(s, t))
  {
    var a1 := Kick(s.a, s.b, t);
    SpeaksUp(s, t);
    KickLeads(s, t);
    HearLeads(Sys(s.b, a1), |s.a.out|, |a1.out|);
    LeadsSwap(Sys(s.b, a1), Swap(Tell(s, t)));
    LeadsTrans(s, Sys(a1, s.b), Tell(s, t));
  }

  /** An exchange is a run. */
  lemma ExchangeLeads(s: Sys, t: Time, u: Time)
    requires SysOk(s)
    ensures Leads(s, Exchange(s, t, u))
  {
    Tells(s, t);
    TellLeads(s, t);
    SysSides(Tell(s, t));
    TellLeads(Swap(Tell(s, t)), u);
    LeadsSwap(Swap(Tell(s, t)), Tell(Swap(Tell(s, t)), u));
    LeadsTrans(s, Tell(s, t), Exchange(s, t, u));
  }

  // ----- reading everything there is -----

  lemma {:induction false} ReadyCount(cfg: Config, rcv: Rcv)
    ensures var r := MoveReady(cfg, rcv); |r.queue| + |r.buf| == |rcv.queue| + |rcv.buf|
    decreases |rcv.buf|
  {
    if rcv.buf != [] && rcv.buf[0].sn == rcv.nxt && |rcv.queue| < cfg.rcvWnd {
      ReadyCount(cfg, rcv.(nxt := Plus(cfg.wrap, rcv.nxt, 1), buf := rcv.buf[1..], queue := rcv.queue + [rcv.buf[0]]));
    }
  }

  /** Reading changes what has been received and delivered, and may ask for a report. */
  ghost predicate OnlyRead(me: End, me': End) {
    && me' == me.(k := me'.k, dlv := me'.dlv) && me.dlv <= me'.dlv
    && me'.k == me.k.(rcv := me'.k.rcv, probe := me'.k.probe) && me'.k.probe == me.k.probe.(tell := me'.k.probe.tell)
    && (me.k.probe.tell ==> me'.k.probe.tell)
  }

  lemma ReadOne(me: End, peer: End)
    requires PeekSize(me.k.rcv.queue) >= 0
    ensures var me' := Act(false, me, peer, RecvCall(PeekSize(me.k.rcv.queue)));
            OnlyRead(me, me') && |me'.k.rcv.queue| + |me'.k.rcv.buf| < |me.k.rcv.queue| + |me.k.rcv.buf|
  {
    var q := me.k.rcv.queue;
    var len := PeekSize(q);
    PeekIsMerge(q);
    RecvEffect(me, peer, len);
    ReadyCount(me.k.cfg, me.k.rcv.(queue := q[MessageSpan(q)..]));
  }

  /** Read until nothing more can be read. */
  lemma {:induction false} ReadAll(s: Sys) returns (t: Sys)
    requires SysOk(s)
    ensures Leads(s, t) && SysOk(t) && t.b == s.b && OnlyRead(s.a, t.a) && PeekSize(t.a.k.rcv.queue) < 0
    decreases |s.a.k.rcv.queue| + |s.a.k.rcv.buf|
  {
    Stays(s);
    t := s;
    var size := PeekSize(s.a.k.rcv.queue);
    if size >= 0 {
      ReadOne(s.a, s.b);
      StepKeeps(s, AtA(RecvCall(size)));
      LeadsOn(s, s, AtA(RecvCall(size)));
      var s1 := Step(false, s, AtA(RecvCall(size)));
      t := ReadAll(s1);
      LeadsTrans(s, s1, t);
    }
  }

  /** The same at the other end. */
  lemma PeerReadsAll(s: Sys) returns (t: Sys)
    requires SysOk(s)
    ensures Leads(s, t) && SysOk(t) && t.a == s.a && OnlyRead(s.b, t.b) && PeekSize(t.b.k.rcv.queue) < 0
  {
    SysSides(s);
    var u := ReadAll(Swap(s));
    t := Swap(u);
    LeadsSwap(Swap(s), u);
    SysSides(u);
  }

  lemma StreamReadable(x: End, y: End)
    requires Flow(x, y) && x.k.cfg.stream && y.k.rcv.queue != []
    ensures PeekSize(y.k.rcv.queue) >= 0
  {
    var c := Consumed(y.k.rcv);
    assert y.k.rcv.queue[0].frag == x.log[c] == (x.log + x.k.snd.queue)[c];
  }

  /** A queue from which nothing can be read has room. */
  lemma HasRoom(x: End, y: End)
    requires EndOk(x) && EndOk(y) && Flow(x, y) && PeekSize(y.k.rcv.queue) < 0
    ensures |y.k.rcv.queue| < y.k.cfg.rcvWnd && (x.k.cfg.stream ==> y.k.rcv.queue == [])
  {
    if x.k.cfg.stream {
      if y.k.rcv.queue != [] { StreamReadable(x, y); }
    } else {
      FlowIsReadable(x, y);
    }
  }

  /** A receiver with room has in line everything before the sender's oldest segment. */
  lemma CaughtUp(x: End, y: End)
    requires EndOk(x) && EndOk(y) && Flow(x, y) && |y.k.rcv.queue| < y.k.cfg.rcvWnd
    ensures x.k.snd.una <= y.k.rcv.nxt
  {
    var n := y.k.rcv.nxt;
    if x.k.snd.una > n {
      NothingBefore(x.k, n);
      assert Held(y.k.rcv, n);
      NextIsMissing(y.k, n);
    }
  }

  lemma NothingBefore(k: Kcb, n: int)
    requires KcbOk(k) && !k.cfg.wrap && n < k.snd.una
    ensures !Buffered(k.snd.buf, n) && k.snd.una <= k.snd.nxt
  {
  }

  lemma NextIsMissing(k: Kcb, n: int)
    requires KcbOk(k) && !k.cfg.wrap && n == k.rcv.nxt && |k.rcv.queue| < k.cfg.rcvWnd
    ensures !Held(k.rcv, n)
  {
    if k.rcv.buf != [] {
      assert k.rcv.buf[0].sn > n;
      assert forall j :: 0 < j < |k.rcv.buf| ==> Off(false, k.rcv.buf[0].sn, n) < Off(false, k.rcv.buf[j].sn, n);
    }
  }

  // ----- everything delivered -----

  /** All that `x` accepted has been delivered at `y`. */
  ghost predicate AllDelivered(x: End, y: End) {
    if x.k.cfg.stream then Concat(y.dlv) == Concat(x.acc) else y.dlv == x.acc
  }

  lemma {:induction false} FragmentsNonempty(mss: int, ms: seq<Bytes>)
    requires mss > 0 && FragmentAll(mss, ms) == []
    ensures ms == []
  {
    if ms != [] { FragmentsShape(mss, ms[0]); }
  }

  lemma TailIsRest<T>(log: seq<T>, a: seq<T>, b: seq<T>)
    requires log == a + b
    ensures log[|a|..] == b
  {
  }

  /** What `x` has accepted is what `y` has delivered and the messages whose fragments follow. */
  lemma Remaining(x: End, y: End) returns (later: seq<Bytes>)
    requires EndOk(x) && EndOk(y) && Flow(x, y) && !x.k.cfg.stream && x.k.snd.queue == []
    ensures x.acc == y.dlv + later && x.log[Consumed(y.k.rcv)..] == FragmentAll(x.k.cfg.Mss(), later)
  {
    assert x.log + [] == x.log;
    later := RestOf(x.k.cfg.Mss(), x.log, x.acc, y.dlv, Consumed(y.k.rcv));
  }

  lemma RestOf(mss: int, log: seq<Frag>, acc: seq<Bytes>, dlv: seq<Bytes>, c: nat) returns (later: seq<Bytes>)
    requires mss > 0 && c <= |log| && log == FragmentAll(mss, acc) && dlv <= acc && log[..c] == FragmentAll(mss, dlv)
    ensures acc == dlv + later && log[c..] == FragmentAll(mss, later)
  {
    later := acc[|dlv|..];
    assert acc == dlv + later;
    FragmentAllAppend(mss, dlv, later);
    TailIsRest(log, FragmentAll(mss, dlv), FragmentAll(mss, later));
  }

  /** When everything numbered is in line, a message that has not been delivered can be read. */
  lemma LastReadable(x: End, y: End)
    requires EndOk(x) && EndOk(y) && Flow(x, y) && !x.k.cfg.stream && x.k.snd.queue == []
    requires y.k.rcv.nxt == |x.log| && y.k.rcv.queue != []
    ensures PeekSize(y.k.rcv.queue) >= 0
  {
    var mss, rcv := x.k.cfg.Mss(), y.k.rcv;
    var later := Remaining(x, y);
    NextMessage(x.k.cfg, x.log, x.k.snd.queue, x.acc, rcv, y.dlv);
    assert later != [] && later[0] == x.acc[|y.dlv|];
    assert FragmentAll(mss, later) == Fragments(mss, later[0]) + FragmentAll(mss, later[1..]);
  }

  lemma MessagesDelivered(x: End, y: End)
    requires EndOk(x) && EndOk(y) && Flow(x, y) && !x.k.cfg.stream && x.k.snd.queue == []
    requires y.k.rcv.nxt == |x.log| && PeekSize(y.k.rcv.queue) < 0
    ensures y.dlv == x.acc
  {
    if y.k.rcv.queue != [] { LastReadable(x, y); }
    var later := Remaining(x, y);
    FragmentsNonempty(x.k.cfg.Mss(), later);
  }

  lemma Finished(x: End, y: End)
    requires EndOk(x) && EndOk(y) && Flow(x, y) && PeekSize(y.k.rcv.queue) < 0
    requires x.k.snd.buf == [] && x.k.snd.queue == []
    ensures AllDelivered(x, y)
  {
    HasRoom(x, y);
    CaughtUp(x, y);
    assert y.k.rcv.nxt == |x.log|;
    if x.k.cfg.stream {
      assert x.log + [] == x.log && x.log[..|x.log|] == x.log;
    } else {
      MessagesDelivered(x, y);
    }
  }

  // ----- one round -----

  /** How many accepted fragments are not known to have arrived. */
  function Owed(me: End): int { me.k.snd.nxt - me.k.snd.una + |me.k.snd.queue| }

  /** Calls that accept nothing and take nothing back. */
  ghost predicate Onward(s: Sys, t: Sys) {
    && Leads(s, t) && SysOk(t) && t.a.acc == s.a.acc && t.b.acc == s.b.acc && s.a.dlv <= t.a.dlv && s.b.dlv <= t.b.dlv
    && t.a.k.cfg == s.a.k.cfg && t.b.k.cfg == s.b.k.cfg
  }

  lemma OnwardTrans(s: Sys, t: Sys, u: Sys)
    requires Onward(s, t) && Onward(t, u)
    ensures Onward(s, u)
  {
    LeadsTrans(s, t, u);
  }

  lemma OnwardSwap(s: Sys, t: Sys)
    requires Onward(s, t)
    ensures Onward(Swap(s), Swap(t))
  {
    LeadsSwap(s, t);
    SysSides(t);
  }

  /** What telling leaves of the teller. */
  lemma TellOnward(s: Sys, t: Time)
    requires SysOk(s)
    ensures Onward(s, Tell(s, t)) && Told(s, t, Tell(s, t))
    ensures var k, k' := s.a.k.snd, Tell(s, t).a.k.snd;
            k'.una == k.una && k'.nxt + |k'.queue| == k.nxt + |k.queue| && k'.nxt >= k.nxt
  {
    Tells(s, t);
    TellLeads(s, t);
    SpokeSnd(s.a, Tell(s, t).a, Kicked(s.a, t));
    SpokeNumbers(s.a, Tell(s, t).a, Kicked(s.a, t));
  }

  lemma SpokeNumbers(me: End, me': End, k1: Kcb)
    requires Spoke(me, me', k1)
    ensures me'.k.snd.nxt >= me.k.snd.nxt
  {
    var more := FlushNumbers(k1);
  }

  lemma ExchangeOnward(s: Sys, t: Time, u: Time)
    requires SysOk(s)
    ensures Onward(s, Exchange(s, t, u))
    ensures var k, k' := s.a.k.snd, Exchange(s, t, u).a.k.snd;
            k'.una >= k.una && k'.nxt + |k'.queue| == k.nxt + |k.queue| && k'.nxt >= k.nxt
  {
    var s1 := Tell(s, t);
    TellOnward(s, t);
    SysSides(s1);
    TellOnward(Swap(s1), u);
    OnwardSwap(Swap(s1), Tell(Swap(s1), u));
    OnwardTrans(s, s1, Exchange(s, t, u));
  }

  lemma ReadOnward(s: Sys) returns (t: Sys)
    requires SysOk(s)
    ensures Onward(s, t) && t.a == s.a && OnlyRead(s.b, t.b) && PeekSize(t.b.k.rcv.queue) < 0
  {
    t := PeerReadsAll(s);
  }

  /** The oldest segment heads the buffer also after new ones have been numbered. */
  lemma HeadStays(k: Kcb)
    requires KcbOk(k) && k.snd.buf != []
    ensures Admitted(k).buf != [] && Admitted(k).buf[0] == k.snd.buf[0] && k.snd.buf[0].sn == k.snd.una
  {
    var more := FlushNumbers(k);
    assert k.snd.buf <= Admitted(k).buf;
  }

  lemma HeadGone(k: Kcb, una: int)
    requires KcbOk(k) && una < k.snd.nxt && !Buffered(k.snd.buf, una)
    ensures k.snd.una != una
  {
    if k.snd.buf != [] { assert Buffered(k.snd.buf, k.snd.buf[0].sn); }
  }

  lemma TimeReached(r: int)
    ensures TimeDiff(U32(r), r) == 0
  {
    I32Same(U32(r) - r, 0);
    U32Shift(0, -(r / M32));
  }

  /** While something is buffered, one round frees the oldest segment: the peer reads all it can, the oldest
      segment is sent when its timeout runs out, and the acknowledgement comes back. */
  lemma Round(s: Sys) returns (t: Sys)
    requires SysOk(s) && s.a.k.snd.buf != []
    ensures Onward(s, t) && Owed(t.a) < Owed(s.a)
  {
    var s1 := ReadOnward(s);
    var head := s.a.k.snd.buf[0];
    var now: Time := U32(head.resendts);
    t := Exchange(s1, now, 0);
    ExchangeOnward(s1, now, 0);
    OnwardTrans(s, s1, t);
    HeadFreed(s1, now);
    SysSides(s1);
    SysSides(t);
    HeadGone(t.a.k, s.a.k.snd.una);
  }

  lemma HeadFreed(s: Sys, now: Time)
    requires SysOk(s) && s.a.k.snd.buf != [] && now == U32(s.a.k.snd.buf[0].resendts) && PeekSize(s.b.k.rcv.queue) < 0
    ensures !Buffered(Exchange(s, now, 0).a.k.snd.buf, s.a.k.snd.una) && s.a.k.snd.una < s.a.k.snd.nxt
  {
    var head := s.a.k.snd.buf[0];
    SysSides(s);
    HasRoom(s.a, s.b);
    CaughtUp(s.a, s.b);
    TimeReached(head.resendts);
    KickKeeps(s.a, s.b, now);
    HeadStays(Kicked(s.a, now));
    assert Due(s.a.k.cfg, now, head);
    assert head.sn == s.a.k.snd.una < s.b.k.rcv.nxt + s.b.k.cfg.rcvWnd;
    ExchangeFrees(s, now, 0);
  }

  // ----- opening the window -----

  lemma NothingBuffered(k: Kcb)
    requires KcbOk(k) && !k.cfg.wrap
    ensures k.snd.buf == [] <==> k.snd.una == k.snd.nxt
    ensures k.snd.buf == [] <==> forall n :: !Buffered(k.snd.buf, n)
  {
    if k.snd.buf != [] { assert Buffered(k.snd.buf, k.snd.buf[0].sn); }
  }

  /** With every window open, a flush numbers something if anything is queued. */
  lemma OpenNumbers(me: End, me': End, k1: Kcb)
    requires Spoke(me, me', k1) && KcbOk(me'.k) && me.k.snd.buf == [] && me.k.snd.queue != []
    requires me.k.cc.rmtWnd > 0 && (me.k.cfg.nocwnd || me.k.cc.cwnd > 0)
    ensures me'.k.snd.buf != []
  {
    NothingBuffered(k1);
    var more := FlushNumbers(k1);
    assert FitsWindows(k1, 1);
    SpokeSnd(me, me', k1);
    NothingBuffered(me'.k);
  }

  /** A closed window numbers nothing, and a flush does not open it. */
  lemma ClosedNumbers(me: End, me': End, k1: Kcb)
    requires Spoke(me, me', k1) && KcbOk(me'.k) && me.k.cc.rmtWnd == 0 && me.k.snd.buf == []
    ensures me'.k.snd.buf == [] && me'.k.snd.queue == me.k.snd.queue
    ensures me'.k.probe == ProbeTick(me.k.probe, 0, k1.clock.current).(ask := false, tell := false)
  {
    NothingBuffered(k1);
    var more := FlushNumbers(k1);
    SpokeSnd(me, me', k1);
    NothingBuffered(me'.k);
  }

  lemma SpokeWindow(me: End, me': End, k1: Kcb)
    requires Spoke(me, me', k1)
    ensures me'.k.cc.rmtWnd == me.k.cc.rmtWnd
  {
  }

  /** Hearing anything new sets the window to what the last segment heard says. */
  lemma {:induction false} LastSays(x: Progress, ps: seq<Packet>)
    ensures ps != [] ==> InputPackets(x, ps).k.cc.rmtWnd == ps[|ps| - 1].wnd
    decreases |ps|
  {
    if |ps| > 1 {
      LastSays(InputPacket(x, ps[0]), ps[1..]);
    } else if |ps| == 1 {
      assert InputPackets(x, ps) == InputPackets(InputPacket(x, ps[0]), []);
    }
  }

  /** A datagram with segments, all of which tell the window `wnd`. */
  ghost predicate TellsWindow(d: Datagram, wnd: int) {
    d != [] && forall j :: 0 <= j < |d| ==> d[j].wnd == wnd
  }

  lemma HearsWindow(me: End, peer: End, lo: nat, hi: nat, wnd: int)
    requires lo < hi <= |peer.out| && TellsWindow(peer.out[hi - 1], wnd)
    ensures HearFrom(me, peer, lo, hi).k.cc.rmtWnd == wnd
  {
    LastHeard(HearFrom(me, peer, lo, hi - 1).k, peer.out[hi - 1], wnd);
  }

  lemma LastHeard(k: Kcb, d: Datagram, wnd: int)
    requires TellsWindow(d, wnd)
    ensures Input(k, Parsed(d, 0)).cc.rmtWnd == wnd
  {
    LastSays(StartInput(k), d);
  }

  /** Every segment of a flush tells the free space. */
  lemma SaysFree(me: End, me': End, k1: Kcb, i: int)
    requires Spoke(me, me', k1) && EndOk(me') && |me.out| <= i < |me'.out|
    ensures TellsWindow(me'.out[i], FreeSpace(k1) % 65536)
  {
    var out := Flush(k1).out;
    assert me'.out[i] == out[i - |me.out|];
    forall j | 0 <= j < |me'.out[i]| ensures me'.out[i][j].wnd == FreeSpace(k1) % 65536 {
      OutEmitted(k1, i - |me.out|, j);
    }
  }

  lemma ReportIsSaid(me: End, me': End, k1: Kcb)
    requires Spoke(me, me', k1) && EndOk(me') && k1.probe.tell
    ensures |me.out| < |me'.out| && TellsWindow(me'.out[|me'.out| - 1], FreeSpace(k1) % 65536)
  {
    assert TellItem in Agenda(k1);
    var i, j := SaidIsThere(me, me', k1, TellItem);
    SaysFree(me, me', k1, |me'.out| - 1);
  }

  lemma ReportHeard(me: End, me': End, k1: Kcb, other: End)
    requires Spoke(me, me', k1) && EndOk(me') && k1.probe.tell
    ensures HearFrom(other, me', |me.out|, |me'.out|).k.cc.rmtWnd == FreeSpace(k1) % 65536
  {
    ReportIsSaid(me, me', k1);
    HearsWindow(other, me', |me.out|, |me'.out|, FreeSpace(k1) % 65536);
  }

  /** A peer with a report to send tells its free space. */
  lemma ReportTells(s: Sys, t: Time)
    requires SysOk(s) && s.a.k.probe.tell
    ensures Tell(s, t).b.k.cc.rmtWnd == FreeSpace(s.a.k) % 65536
  {
    var a1 := Kick(s.a, s.b, t);
    SpeaksUp(s, t);
    ReportHeard(s.a, a1, Kicked(s.a, t), s.b);
    assert FreeSpace(Kicked(s.a, t)) == FreeSpace(s.a.k);
    assert Tell(s, t).b == HearFrom(s.b, a1, |s.a.out|, |a1.out|);
  }

  /** A probe that is due is heard. */
  lemma ProbeIsHeardBy(s: Sys, t: Time)
    requires SysOk(s) && s.a.k.cc.rmtWnd == 0 && s.a.k.probe.wait != 0 && TimeDiff(t, s.a.k.probe.ts) >= 0
    ensures Tell(s, t).b.k.probe.tell
  {
    var k1 := Kicked(s.a, t);
    SpeaksUp(s, t);
    Tells(s, t);
    var a1 := Kick(s.a, s.b, t);
    assert AskItem in Agenda(k1);
    var i, j := SaidIsThere(s.a, a1, k1, AskItem);
    var b1 := Tell(s, t).b;
    assert Effects(s.b.k, a1.out[i], b1.k);
    assert Effect(s.b.k, a1.out[i][j], b1.k);
  }

  /** Idle at the sender: nothing buffered, and the same accepted and queued data. */
  ghost predicate Idle(s: Sys, t: Sys) {
    Onward(s, t) && t.a.k.snd.buf == [] && t.a.k.snd.queue == s.a.k.snd.queue && Owed(t.a) == Owed(s.a)
  }

  lemma IdleTrans(s: Sys, t: Sys, u: Sys)
    requires Idle(s, t) && Idle(t, u)
    ensures Idle(s, u)
  {
    OnwardTrans(s, t, u);
  }

  lemma TellWhileClosed(s: Sys, t: Time)
    requires SysOk(s) && s.a.k.snd.buf == [] && s.a.k.cc.rmtWnd == 0
    ensures Idle(s, Tell(s, t)) && Tell(s, t).a.k.cc.rmtWnd == 0
    ensures Tell(s, t).a.k.probe == ProbeTick(s.a.k.probe, 0, t).(ask := false, tell := false)
  {
    TellOnward(s, t);
    var s1 := Tell(s, t);
    ClosedNumbers(s.a, s1.a, Kicked(s.a, t));
    SpokeWindow(s.a, s1.a, Kicked(s.a, t));
  }

  /** While the window is closed and nothing is buffered: the probe timer is started, and when it runs out the
      peer hears of it. */
  lemma Asked(s: Sys) returns (t: Sys)
    requires SysOk(s) && s.a.k.snd.buf == [] && s.a.k.cc.rmtWnd == 0
    ensures Idle(s, t) && t.a.k.cc.rmtWnd == 0 && t.b.k.probe.tell
  {
    var s1 := s;
    if s.a.k.probe.wait == 0 {
      s1 := Tell(s, 0);
      TellWhileClosed(s, 0);
    } else {
      Stays(s);
    }
    var now: Time := U32(s1.a.k.probe.ts);
    TimeReached(s1.a.k.probe.ts);
    t := Tell(s1, now);
    TellWhileClosed(s1, now);
    ProbeIsHeardBy(s1, now);
    IdleTrans(s, s1, t);
  }

  /** The peer makes room and reports it: the window is open. */
  lemma Reopened(s: Sys) returns (t: Sys)
    requires SysOk(s) && s.a.k.snd.buf == [] && s.b.k.probe.tell && s.b.k.cfg.rcvWnd < 65536
    ensures Idle(s, t) && t.a.k.cc.rmtWnd > 0
  {
    var s1 := ReadOnward(s);
    t := Answered(s1);
    OnwardTrans(s, s1, t);
  }

  lemma Answered(s: Sys) returns (t: Sys)
    requires SysOk(s) && s.a.k.snd.buf == [] && s.b.k.probe.tell && s.b.k.cfg.rcvWnd < 65536
    requires PeekSize(s.b.k.rcv.queue) < 0
    ensures Idle(s, t) && t.a.k.cc.rmtWnd > 0
  {
    SysSides(s);
    HasRoom(s.a, s.b);
    assert FreeSpace(s.b.k) % 65536 > 0;
    ReportTells(Swap(s), 0);
    TellOnward(Swap(s), 0);
    t := Swap(Tell(Swap(s), 0));
    OnwardSwap(Swap(s), Swap(t));
    StillNothing(s.a, t.a);
  }

  lemma HeadIsBuffered(buf: seq<SndSeg>)
    requires buf != []
    ensures Buffered(buf, buf[0].sn)
  {
  }

  lemma StillNothing(me: End, me': End)
    requires OnlyHeard(me, me') && me.k.snd.buf == []
    ensures me'.k.snd.buf == []
  {
    if me'.k.snd.buf != [] { HeadIsBuffered(me'.k.snd.buf); }
  }

  lemma SideOk(s: Sys)
    requires SysOk(s)
    ensures KcbOk(s.a.k) && !s.a.k.cfg.wrap
  {
  }

  lemma TellKeepsOwed(s: Sys, t: Time)
    requires SysOk(s)
    ensures var a1 := Tell(s, t).a;
            && Onward(s, Tell(s, t)) && Owed(a1) == Owed(s.a) && a1.k.cc.rmtWnd == s.a.k.cc.rmtWnd && a1.k.cc.cwnd >= 1
            && Spoke(s.a, a1, Kicked(s.a, t))
  {
    TellOnward(s, t);
    SpokeSnd(s.a, Tell(s, t).a, Kicked(s.a, t));
    SpokeWindow(s.a, Tell(s, t).a, Kicked(s.a, t));
  }

  lemma StillQueued(k: Kcb, k': Kcb)
    requires KcbOk(k) && KcbOk(k') && !k.cfg.wrap && !k'.cfg.wrap && k.snd.buf == [] && k.snd.queue != [] && k'.snd.buf == []
    requires k'.snd.nxt - k'.snd.una + |k'.snd.queue| == k.snd.nxt - k.snd.una + |k.snd.queue|
    ensures k'.snd.queue != []
  {
    NothingBuffered(k);
    NothingBuffered(k');
  }

  /** With the window open, at most two flushes number something: the first makes the congestion window at
      least one segment. */
  lemma Numbers2(s: Sys) returns (t: Sys)
    requires SysOk(s) && s.a.k.snd.buf == [] && s.a.k.snd.queue != [] && s.a.k.cc.rmtWnd > 0
    ensures Onward(s, t) && Owed(t.a) == Owed(s.a) && t.a.k.snd.buf != []
  {
    t := Tell(s, 0);
    TellKeepsOwed(s, 0);
    if t.a.k.snd.buf == [] {
      var s1 := t;
      SideOk(s);
      SideOk(s1);
      StillQueued(s.a.k, s1.a.k);
      TellKeepsOwed(s1, 0);
      t := Tell(s1, 0);
      OnwardTrans(s, s1, t);
      SideOk(t);
      OpenNumbers(s1.a, t.a, Kicked(s1.a, 0));
    }
  }

  /** When nothing is buffered but something is queued, something can be numbered. */
  lemma Open(s: Sys) returns (t: Sys)
    requires SysOk(s) && s.a.k.snd.buf == [] && s.a.k.snd.queue != [] && s.b.k.cfg.rcvWnd < 65536
    ensures Onward(s, t) && Owed(t.a) == Owed(s.a) && t.a.k.snd.buf != []
  {
    var s1 := s;
    Stays(s);
    SysSides(s);
    if s.a.k.cc.rmtWnd == 0 {
      var s0 := Asked(s);
      s1 := Reopened(s0);
      IdleTrans(s, s0, s1);
    }
    t := Numbers2(s1);
    OnwardTrans(s, s1, t);
  }

  // ----- all of it -----

  lemma OwedNonNegative(k: Kcb)
    requires KcbOk(k) && !k.cfg.wrap
    ensures k.snd.nxt - k.snd.una >= 0
  {
  }

  /** Everything `a` has accepted gets delivered. */
  lemma {:induction false} Drain(s: Sys) returns (t: Sys)
    requires SysOk(s) && s.b.k.cfg.rcvWnd < 65536 && 0 <= Owed(s.a)
    ensures Onward(s, t) && AllDelivered(t.a, t.b)
    decreases Owed(s.a), if s.a.k.snd.buf == [] then 1 else 0
  {
    SysSides(s);
    if s.a.k.snd.buf != [] {
      var s1 := Round(s);
      SysSides(s1);
      OwedNonNegative(s1.a.k);
      t := Drain(s1);
      OnwardTrans(s, s1, t);
    } else if s.a.k.snd.queue != [] {
      var s1 := Open(s);
      t := Drain(s1);
      OnwardTrans(s, s1, t);
    } else {
      t := ReadOnward(s);
      SysSides(t);
      Finished(t.a, t.b);
    }
  }

  lemma ConcatPrefix<T>(a: seq<seq<T>>, b: seq<seq<T>>)
    requires a <= b
    ensures Concat(a) <= Concat(b)
  {
    assert b == a + b[|a|..];
    ConcatAppend(a, b[|a|..]);
  }

  /** What has all been delivered stays so while nothing more is accepted. */
  lemma StaysDelivered(s: Sys, t: Sys)
    requires Onward(s, t) && AllDelivered(s.a, s.b)
    ensures AllDelivered(t.a, t.b)
  {
    SysSides(t);
    FlowIsSafe(t.a, t.b);
    ConcatPrefix(s.b.dlv, t.b.dlv);
  }

  /** No dead end: from every reachable state, after any losses, duplications, delays and reorderings, with any
      data half sent, windows closed and timers running, there are further calls and deliveries, none of them
      a send, after which both applications have received all that was accepted for them. */
  lemma NoDeadEnd(ca: Config, cb: Config, es: seq<Event>) returns (more: seq<Event>)
    requires ca.Valid() && cb.Valid() && !ca.wrap && !cb.wrap && ca.rcvWnd < 65536 && cb.rcvWnd < 65536
    ensures NoSends(more)
    ensures var s, t := Run(false, Init(ca, cb), es), Run(false, Init(ca, cb), es + more);
            && t.a.acc == s.a.acc && t.b.acc == s.b.acc
            && AllDelivered(t.a, t.b) && AllDelivered(t.b, t.a)
  {
    var s := Run(false, Init(ca, cb), es);
    RunKeeps(ca, cb, es);
    RunConfig(Init(ca, cb), es);
    var t := BothDrain(s);
    more :| NoSends(more) && Run(false, s, more) == t;
    RunAppend(false, Init(ca, cb), es, more);
  }

  lemma BothDrain(s: Sys) returns (t: Sys)
    requires SysOk(s) && s.a.k.cfg.rcvWnd < 65536 && s.b.k.cfg.rcvWnd < 65536
    ensures Onward(s, t) && AllDelivered(t.a, t.b) && AllDelivered(t.b, t.a)
  {
    SysSides(s);
    OwedNonNegative(s.a.k);
    var s1 := Drain(s);
    SysSides(s1);
    OwedNonNegative(s1.b.k);
    var u := Drain(Swap(s1));
    t := Swap(u);
    OnwardSwap(Swap(s1), u);
    StaysDelivered(s1, t);
    OnwardTrans(s, s1, t);
  }
}
