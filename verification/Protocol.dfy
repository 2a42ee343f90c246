/** End-to-end safety of two KCP endpoints with unbounded serial numbers: an invariant over
    both control blocks, both histories and everything in flight. */
module Protocol {
  import opened Serial
  import opened Wire
  import opened Control
  import opened Structure
  import opened System

  // ----- what one direction of the connection promises -----

  /** The receiver has the segment numbered `i`, delivered or buffered. */
  ghost predicate Held(rcv: Rcv, i: int) {
    i < rcv.nxt || exists j :: 0 <= j < |rcv.buf| && rcv.buf[j].sn == i
  }

  ghost predicate Buffered(buf: seq<SndSeg>, i: int) {
    exists j :: 0 <= j < |buf| && buf[j].sn == i
  }

  /** Every buffered segment still carries the fragment its number was given. */
  ghost predicate SndLog(log: seq<Frag>, snd: Snd) {
    && |log| == snd.nxt
    && forall j :: 0 <= j < |snd.buf| ==> 0 <= snd.buf[j].sn < |log| && snd.buf[j].frag == log[snd.buf[j].sn]
  }

  /** No loss: a number given out is buffered here or held there. */
  ghost predicate NoLoss(snd: Snd, rcv: Rcv) {
    forall i :: 0 <= i < snd.nxt ==> Buffered(snd.buf, i) || Held(rcv, i)
  }

  /** The receiver's segments are the sender's; the queue is the stretch just before `rcv_nxt`. */
  ghost predicate RcvLog(log: seq<Frag>, rcv: Rcv) {
    && |rcv.queue| <= rcv.nxt <= |log|
    && (forall j :: 0 <= j < |rcv.buf| ==> 0 <= rcv.buf[j].sn < |log| && rcv.buf[j].frag == log[rcv.buf[j].sn])
    && (forall j :: 0 <= j < |rcv.queue| ==> rcv.queue[j].frag == log[rcv.nxt - |rcv.queue| + j])
  }

  ghost predicate PushOk(log: seq<Frag>, p: Packet) {
    p.cmd == CMD_PUSH ==> 0 <= p.sn < |log| && log[p.sn] == Frag(p.frg, p.data)
  }

  /** Acknowledged implies held: neither `una` nor an ACK names a segment the receiver lacks. */
  ghost predicate AckOk(rcv: Rcv, p: Packet) {
    && 0 <= p.una <= rcv.nxt
    && (p.cmd == CMD_ACK ==> 0 <= p.sn && Held(rcv, p.sn))
  }

  ghost predicate AcksHeld(rcv: Rcv) {
    forall i :: 0 <= i < |rcv.acks| ==> 0 <= rcv.acks[i].sn && Held(rcv, rcv.acks[i].sn)
  }

  ghost predicate PushesOk(log: seq<Frag>, out: seq<Datagram>) {
    forall i, j :: 0 <= i < |out| && 0 <= j < |out[i]| ==> PushOk(log, out[i][j])
  }

  ghost predicate AcksOk(rcv: Rcv, out: seq<Datagram>) {
    forall i, j :: 0 <= i < |out| && 0 <= j < |out[i]| ==> AckOk(rcv, out[i][j])
  }

  // ----- messages and fragments -----

  function Flatten(fs: seq<Frag>): Bytes {
    if fs == [] then [] else fs[0].data + Flatten(fs[1..])
  }

  function Fragments(mss: int, m: Bytes): seq<Frag>
    requires mss > 0
  {
    Cut(mss, false, m, FragCount(mss, |m|))
  }

  function FragmentAll(mss: int, ms: seq<Bytes>): seq<Frag>
    requires mss > 0
  {
    if ms == [] then [] else Fragments(mss, ms[0]) + FragmentAll(mss, ms[1..])
  }

  /** How many fragments the receiving application has consumed. */
  function Consumed(rcv: Rcv): int { rcv.nxt - |rcv.queue| }

  /** The data promise: in message mode the numbered and queued fragments are those of the accepted
      messages, and the consumed ones those of the delivered messages, a prefix of the accepted.
      In stream mode the same of the byte stream. */
  ghost predicate DataOk(cfg: Config, log: seq<Frag>, queue: seq<Frag>, acc: seq<Bytes>, consumed: int, dlv: seq<Bytes>)
    requires 0 <= consumed <= |log|
  {
    if cfg.stream then
      && (forall i :: 0 <= i < |log + queue| ==> (log + queue)[i].frg == 0)
      && Flatten(log + queue) == Concat(acc)
      && Flatten(log[..consumed]) == Concat(dlv)
    else
      && log + queue == FragmentAll(cfg.Mss(), acc)
      && dlv <= acc
      && log[..consumed] == FragmentAll(cfg.Mss(), dlv)
  }

  ghost predicate Flow(x: End, y: End) {
    && SndLog(x.log, x.k.snd)
    && NoLoss(x.k.snd, y.k.rcv)
    && RcvLog(x.log, y.k.rcv)
    && PushesOk(x.log, x.out)
    && AcksOk(y.k.rcv, y.out)
    && AcksHeld(y.k.rcv)
    && DataOk(x.k.cfg, x.log, x.k.snd.queue, x.acc, Consumed(y.k.rcv), y.dlv)
  }

  /** A segment in flight: its fields fit the wire format once its numbers are wrapped. */
  ghost predicate InTransit(cfg: Config, p: Packet) {
    PacketOk(cfg, p) && p.conv == cfg.conv && KnownCmd(p.cmd) && |p.data| < HALF
  }

  ghost predicate EndOk(x: End) {
    && KcbOk(x.k) && !x.k.cfg.wrap
    && (forall i :: 0 <= i < |x.log| ==> x.log[i].frg < WND_RCV)
    && (forall i :: 0 <= i < |x.out| ==> x.out[i] != [])
    && (forall i, j :: 0 <= i < |x.out| && 0 <= j < |x.out[i]| ==> InTransit(x.k.cfg, x.out[i][j]))
  }

  /** One endpoint is sound and both directions of its connection keep their promise. */
  ghost predicate Linked(me: End, peer: End) {
    EndOk(me) && Flow(me, peer) && Flow(peer, me)
  }

  ghost predicate SysOk(s: Sys) {
    Linked(s.a, s.b) && EndOk(s.b)
  }

  // ----- receiving one segment -----

  lemma {:induction false} MoveReadyLog(cfg: Config, log: seq<Frag>, rcv: Rcv)
    requires !cfg.wrap && RcvLog(log, rcv)
    ensures var r := MoveReady(cfg, rcv);
            && RcvLog(log, r)
            && Consumed(r) == Consumed(rcv)
            && r.acks == rcv.acks && r.nxt >= rcv.nxt
            && forall i :: Held(rcv, i) ==> Held(r, i)
    decreases |rcv.buf|
  {
    if rcv.buf != [] && rcv.buf[0].sn == rcv.nxt && |rcv.queue| < cfg.rcvWnd {
      var rcv1 := rcv.(nxt := rcv.nxt + 1, buf := rcv.buf[1..], queue := rcv.queue + [rcv.buf[0]]);
      forall i | Held(rcv, i) ensures Held(rcv1, i) {
        if i > rcv.nxt {
          var j :| 0 <= j < |rcv.buf| && rcv.buf[j].sn == i;
          assert rcv1.buf[j - 1].sn == i;
        }
      }
      MoveReadyLog(cfg, log, rcv1);
    }
  }

  lemma InsertLog(cfg: Config, log: seq<Frag>, rcv: Rcv, s: RcvSeg)
    requires RcvLog(log, rcv) && 0 <= s.sn < |log| && log[s.sn] == s.frag
    ensures var rcv1 := rcv.(buf := Insert(cfg, rcv.buf, s));
            RcvLog(log, rcv1) && forall i :: Held(rcv, i) || i == s.sn ==> Held(rcv1, i)
  {
    var rcv1 := rcv.(buf := Insert(cfg, rcv.buf, s));
    InsertMembers(cfg, rcv.buf, s);
    forall j | 0 <= j < |rcv1.buf|
      ensures 0 <= rcv1.buf[j].sn < |log| && rcv1.buf[j].frag == log[rcv1.buf[j].sn]
    {
      assert rcv1.buf[j] in rcv1.buf;
    }
    forall i | Held(rcv, i) || i == s.sn ensures Held(rcv1, i) {
      if i >= rcv.nxt {
        var x :| x in rcv1.buf && x.sn == i;
        var j :| 0 <= j < |rcv1.buf| && rcv1.buf[j] == x;
      }
    }
  }

  lemma InputRcvLog(cfg: Config, log: seq<Frag>, rcv: Rcv, p: Packet)
    requires !cfg.wrap && 0 <= p.sn
    requires RcvLog(log, rcv) && AcksHeld(rcv) && PushOk(log, p)
    ensures var r := InputRcv(cfg, rcv, p);
            && RcvLog(log, r) && AcksHeld(r)
            && Consumed(r) == Consumed(rcv)
            && r.nxt >= rcv.nxt
            && forall i :: Held(rcv, i) ==> Held(r, i)
  {
    if p.cmd == CMD_PUSH && BelowWindowEnd(cfg, rcv, p.sn) {
      var rcv1 := rcv.(acks := rcv.acks + [Ack(p.sn, p.ts)]);
      assert forall i :: Held(rcv, i) ==> Held(rcv1, i);
      if p.sn >= rcv.nxt {
        var s := RcvSeg(p.sn, Frag(p.frg, p.data));
        InsertLog(cfg, log, rcv1, s);
        MoveReadyLog(cfg, log, rcv1.(buf := Insert(cfg, rcv.buf, s)));
      }
    }
  }

  // ----- acknowledging -----

  lemma UnaLog(cfg: Config, log: seq<Frag>, snd: Snd, una: int, rcv: Rcv)
    requires !cfg.wrap && SndLog(log, snd) && NoLoss(snd, rcv) && una <= rcv.nxt
    ensures SndLog(log, ParseUna(cfg, snd, una)) && NoLoss(ParseUna(cfg, snd, una), rcv)
  {
    var n := ParseUnaDrops(cfg, snd, una);
    var snd1 := ParseUna(cfg, snd, una);
    forall i | 0 <= i < snd.nxt ensures Buffered(snd1.buf, i) || Held(rcv, i) {
      if Buffered(snd.buf, i) {
        var j :| 0 <= j < |snd.buf| && snd.buf[j].sn == i;
        if j >= n { assert snd1.buf[j - n].sn == i; }
      }
    }
  }

  lemma AckLog(cfg: Config, log: seq<Frag>, snd: Snd, sn: int, rcv: Rcv)
    requires !cfg.wrap && SndLog(log, snd) && NoLoss(snd, rcv) && Held(rcv, sn)
    ensures SndLog(log, ParseAck(cfg, snd, sn)) && NoLoss(ParseAck(cfg, snd, sn), rcv)
  {
    var snd1 := ParseAck(cfg, snd, sn);
    if snd1 != snd {
      var n := FindSn(cfg, snd.buf, sn);
      assert forall j :: 0 <= j < |snd1.buf| ==> snd1.buf[j] == snd.buf[if j < n then j else j + 1];
      forall i | 0 <= i < snd.nxt ensures Buffered(snd1.buf, i) || Held(rcv, i) {
        if Buffered(snd.buf, i) {
          var j :| 0 <= j < |snd.buf| && snd.buf[j].sn == i;
          if j < n { assert snd1.buf[j].sn == i; }
          if j > n { assert snd1.buf[j - 1].sn == i; }
        }
      }
    }
  }

  lemma InputSndLog(cfg: Config, log: seq<Frag>, snd: Snd, p: Packet, rcv: Rcv)
    requires !cfg.wrap && SndLog(log, snd) && NoLoss(snd, rcv) && AckOk(rcv, p)
    ensures SndLog(log, InputSnd(cfg, snd, p)) && NoLoss(InputSnd(cfg, snd, p), rcv)
  {
    UnaLog(cfg, log, snd, p.una, rcv);
    var snd1 := ShrinkBuf(ParseUna(cfg, snd, p.una));
    if p.cmd == CMD_ACK {
      AckLog(cfg, log, snd1, p.sn, rcv);
    }
  }

  // ----- one datagram -----

  /** The part of the invariant that concerns one endpoint's control block while it reads a datagram. */
  ghost predicate Reading(k: Kcb, log: seq<Frag>, peerLog: seq<Frag>, peerRcv: Rcv) {
    && KcbOk(k) && !k.cfg.wrap
    && SndLog(log, k.snd) && NoLoss(k.snd, peerRcv)
    && RcvLog(peerLog, k.rcv) && AcksHeld(k.rcv)
  }

  /** What reading leaves alone, and how far the receiver may have moved. */
  ghost predicate ReadOn(before: Kcb, after: Kcb) {
    && after.cfg == before.cfg && after.snd.queue == before.snd.queue && after.snd.nxt == before.snd.nxt
    && Consumed(after.rcv) == Consumed(before.rcv) && after.rcv.nxt >= before.rcv.nxt
    && forall i :: Held(before.rcv, i) ==> Held(after.rcv, i)
  }

  lemma {:induction false} ReadPackets(x: Progress, ps: seq<Packet>, log: seq<Frag>, peerLog: seq<Frag>, peerRcv: Rcv)
    requires Reading(x.k, log, peerLog, peerRcv)
    requires forall i :: 0 <= i < |ps| ==> PacketOk(x.k.cfg, ps[i]) && PushOk(peerLog, ps[i]) && AckOk(peerRcv, ps[i])
    ensures Reading(InputPackets(x, ps).k, log, peerLog, peerRcv)
    ensures ReadOn(x.k, InputPackets(x, ps).k)
    decreases |ps|
  {
    if ps != [] {
      InputPacketKeeps(x, ps[0]);
      InputSndLog(x.k.cfg, log, x.k.snd, ps[0], peerRcv);
      InputRcvLog(x.k.cfg, peerLog, x.k.rcv, ps[0]);
      var x1 := InputPacket(x, ps[0]);
      InputSndKeeps(x.k.cfg, x.k.snd, ps[0]);
      ReadPackets(x1, ps[1..], log, peerLog, peerRcv);
    }
  }

  lemma ReadDatagram(k: Kcb, d: Datagram, log: seq<Frag>, peerLog: seq<Frag>, peerRcv: Rcv)
    requires Reading(k, log, peerLog, peerRcv)
    requires forall i :: 0 <= i < |d| ==> PacketOk(k.cfg, d[i]) && PushOk(peerLog, d[i]) && AckOk(peerRcv, d[i])
    ensures Reading(Input(k, Parsed(d, 0)), log, peerLog, peerRcv)
    ensures ReadOn(k, Input(k, Parsed(d, 0)))
  {
    ReadPackets(StartInput(k), d, log, peerLog, peerRcv);
    var x := InputPackets(StartInput(k), d);
    FinishInputKeeps(k.snd.una, x);
    SameSegsLog(log, x.k.snd, FinishInput(k.snd.una, x).snd.buf, peerRcv);
  }

  lemma SameSegsLog(log: seq<Frag>, snd: Snd, buf: seq<SndSeg>, rcv: Rcv)
    requires SndLog(log, snd) && NoLoss(snd, rcv) && SameSegs(buf, snd.buf)
    ensures SndLog(log, snd.(buf := buf)) && NoLoss(snd.(buf := buf), rcv)
  {
    forall i | Buffered(snd.buf, i) ensures Buffered(buf, i) {
      var j :| 0 <= j < |snd.buf| && snd.buf[j].sn == i;
      assert buf[j].sn == i;
    }
  }

  // ----- flushing -----

  lemma {:induction false} AdmitLog(cfg: Config, log: seq<Frag>, snd: Snd, window: int, now: int, rto: int, rcv: Rcv)
    requires !cfg.wrap && SndLog(log, snd) && NoLoss(snd, rcv)
    ensures var snd' := Admit(cfg, snd, window, now, rto);
            var log' := log + Numbered(snd.queue, snd'.queue);
            SndLog(log', snd') && NoLoss(snd', rcv) && log' + snd'.queue == log + snd.queue
    decreases |snd.queue|
  {
    if Diff(cfg.wrap, snd.nxt, Plus(cfg.wrap, snd.una, window)) < 0 && snd.queue != [] {
      var snd1 := snd.(nxt := snd.nxt + 1, queue := snd.queue[1..],
                       buf := snd.buf + [SndSeg(snd.nxt, snd.queue[0], now, now, rto, 0, 0)]);
      var log1 := log + [snd.queue[0]];
      forall i | 0 <= i < snd1.nxt ensures Buffered(snd1.buf, i) || Held(rcv, i) {
        if i == snd.nxt {
          assert snd1.buf[|snd.buf|].sn == i;
        } else if Buffered(snd.buf, i) {
          var j :| 0 <= j < |snd.buf| && snd.buf[j].sn == i;
          assert snd1.buf[j].sn == i;
        }
      }
      AdmitLog(cfg, log1, snd1, window, now, rto, rcv);
      AdmitQueue(cfg, snd1, window, now, rto);
      var snd' := Admit(cfg, snd, window, now, rto);
      assert log1 + Numbered(snd1.queue, snd'.queue) == log + Numbered(snd.queue, snd'.queue);
      assert log1 + snd1.queue == log + snd.queue;
    }
  }

  lemma {:induction false} AdmitQueue(cfg: Config, snd: Snd, window: int, now: int, rto: int)
    ensures |Admit(cfg, snd, window, now, rto).queue| <= |snd.queue|
    decreases |snd.queue|
  {
    if Diff(cfg.wrap, snd.nxt, Plus(cfg.wrap, snd.una, window)) < 0 && snd.queue != [] {
      AdmitQueue(cfg, snd.(nxt := Plus(cfg.wrap, snd.nxt, 1), queue := snd.queue[1..],
                           buf := snd.buf + [SndSeg(snd.nxt, snd.queue[0], now, now, rto, 0, 0)]),
                 window, now, rto);
    }
  }

  lemma PushesLogged(log: seq<Frag>, k: Kcb)
    requires KcbOk(k) && SndLog(log, Admitted(k)) && AcksHeld(k.rcv) && !k.cfg.wrap
    ensures forall i, j :: 0 <= i < |Flush(k).out| && 0 <= j < |Flush(k).out[i]| ==>
              && PushOk(log, Flush(k).out[i][j]) && AckOk(k.rcv, Flush(k).out[i][j])
              && PacketOk(k.cfg, Flush(k).out[i][j])
  {
    forall i, j | 0 <= i < |Flush(k).out| && 0 <= j < |Flush(k).out[i]|
      ensures PushOk(log, Flush(k).out[i][j]) && AckOk(k.rcv, Flush(k).out[i][j])
              && PacketOk(k.cfg, Flush(k).out[i][j])
    {
      OutEmitted(k, i, j);
      EmittedOk(k, Flush(k).out[i][j]);
    }
  }

  lemma PushesGrow(log: seq<Frag>, more: seq<Frag>, out: seq<Datagram>)
    requires PushesOk(log, out)
    ensures PushesOk(log + more, out)
  {
  }

  /** A flush seen from the data it sends. */
  lemma FlushForward(me: End, peer: End)
    requires EndOk(me) && Flow(me, peer) && AcksHeld(me.k.rcv)
    ensures Flow(AfterFlush(me, Flush(me.k)), peer)
  {
    var k := me.k;
    if k.clock.updated {
      AdmitLog(k.cfg, me.log, k.snd, SendWindow(k), k.clock.current, k.rtt.rto, peer.k.rcv);
      var moved := Numbered(k.snd.queue, Admitted(k).queue);
      PushesLogged(me.log + moved, k);
      PushesGrow(me.log, moved, me.out);
      FlushBufLog(me, peer);
      assert (me.log + moved)[..Consumed(peer.k.rcv)] == me.log[..Consumed(peer.k.rcv)];
    } else {
      assert AfterFlush(me, Flush(k)) == me;
    }
  }

  /** A receiver that moved on without giving anything up keeps the other direction's promises. */
  lemma ReceiverStep(x: End, y: End, y': End)
    requires Flow(x, y)
    requires RcvLog(x.log, y'.k.rcv) && AcksHeld(y'.k.rcv)
    requires y'.k.rcv.nxt >= y.k.rcv.nxt
    requires forall i :: Held(y.k.rcv, i) ==> Held(y'.k.rcv, i)
    requires y.out <= y'.out
    requires forall i, j :: |y.out| <= i < |y'.out| && 0 <= j < |y'.out[i]| ==> AckOk(y'.k.rcv, y'.out[i][j])
    requires DataOk(x.k.cfg, x.log, x.k.snd.queue, x.acc, Consumed(y'.k.rcv), y'.dlv)
    ensures Flow(x, y')
  {
    forall i, j | 0 <= i < |y'.out| && 0 <= j < |y'.out[i]| ensures AckOk(y'.k.rcv, y'.out[i][j]) {
      if i < |y.out| {
        assert y'.out[i] == y.out[i];
        assert AckOk(y.k.rcv, y.out[i][j]);
      }
    }
    forall i | 0 <= i < x.k.snd.nxt ensures Buffered(x.k.snd.buf, i) || Held(y'.k.rcv, i) {
      assert Buffered(x.k.snd.buf, i) || Held(y.k.rcv, i);
    }
  }

  lemma SameHeld(rcv: Rcv, rcv': Rcv)
    requires rcv' == rcv.(acks := [])
    ensures forall i :: Held(rcv, i) ==> Held(rcv', i)
    ensures forall p :: AckOk(rcv, p) ==> AckOk(rcv', p)
  {
    assert forall i :: Held(rcv, i) ==> Held(rcv', i);
  }

  /** A receiver that only forgot its pending acknowledgements, and said nothing untrue. */
  lemma ReceiverSpoke(x: End, y: End, y': End, more: seq<Datagram>)
    requires Flow(x, y) && AcksOk(y.k.rcv, more)
    requires y'.k.rcv == y.k.rcv.(acks := []) && y'.out == y.out + more && y'.dlv == y.dlv
    ensures Flow(x, y')
  {
    SameHeld(y.k.rcv, y'.k.rcv);
    ReceiverStep(x, y, y');
  }

  /** What a flush says is true. */
  lemma FlushIsTrue(me: End, peer: End)
    requires EndOk(me) && AcksHeld(me.k.rcv) && SndLog(me.log, me.k.snd) && NoLoss(me.k.snd, peer.k.rcv)
    ensures AcksOk(me.k.rcv, Flush(me.k).out)
  {
    var k := me.k;
    AdmitLog(k.cfg, me.log, k.snd, SendWindow(k), k.clock.current, k.rtt.rto, peer.k.rcv);
    PushesLogged(me.log + Numbered(k.snd.queue, Admitted(k).queue), k);
  }

  /** A flush seen from the data it acknowledges. */
  lemma FlushBackward(me: End, peer: End)
    requires EndOk(me) && Flow(peer, me) && SndLog(me.log, me.k.snd) && NoLoss(me.k.snd, peer.k.rcv)
    ensures Flow(peer, AfterFlush(me, Flush(me.k)))
  {
    var me' := AfterFlush(me, Flush(me.k));
    if me.k.clock.updated {
      FlushIsTrue(me, peer);
      ReceiverSpoke(peer, me, me', Flush(me.k).out);
    } else {
      assert me' == me;
    }
  }

  lemma FlushOut(me: End)
    requires EndOk(me)
    ensures var out := Flush(me.k).out;
            && (forall i :: 0 <= i < |out| ==> out[i] != [])
            && forall i, j :: 0 <= i < |out| && 0 <= j < |out[i]| ==> InTransit(me.k.cfg, out[i][j])
  {
    var out := Flush(me.k).out;
    forall i, j | 0 <= i < |out| && 0 <= j < |out[i]| ensures InTransit(me.k.cfg, out[i][j]) {
      OutEmitted(me.k, i, j);
      EmittedOk(me.k, out[i][j]);
    }
    if me.k.clock.updated {
      FlushRoundTrip(me.k);
      forall i | 0 <= i < |out| ensures out[i] != [] {
        assert |DatagramBytes(out[i])| >= 1;
      }
    }
  }

  lemma AfterFlushOk(me: End, f: Flushed)
    requires EndOk(me) && KcbOk(f.k) && f.k.cfg == me.k.cfg
    requires forall i :: 0 <= i < |f.out| ==> f.out[i] != []
    requires forall i, j :: 0 <= i < |f.out| && 0 <= j < |f.out[i]| ==> InTransit(me.k.cfg, f.out[i][j])
    ensures EndOk(AfterFlush(me, f))
  {
  }

  lemma FlushEnd(me: End)
    requires EndOk(me)
    ensures EndOk(AfterFlush(me, Flush(me.k)))
  {
    FlushKeeps(me.k);
    FlushOut(me);
    AfterFlushOk(me, Flush(me.k));
  }

  lemma FlushBufLog(me: End, peer: End)
    requires EndOk(me) && me.k.clock.updated
    requires var log' := me.log + Numbered(me.k.snd.queue, Admitted(me.k).queue);
             SndLog(log', Admitted(me.k)) && NoLoss(Admitted(me.k), peer.k.rcv)
    ensures var me' := AfterFlush(me, Flush(me.k));
            SndLog(me'.log, me'.k.snd) && NoLoss(me'.k.snd, peer.k.rcv)
  {
    var k := me.k;
    var snd := Admitted(k);
    AdmittedOk(k);
    FlushSndKeeps(k);
    SameSegsLog(me.log + Numbered(k.snd.queue, snd.queue), snd, SendPass(k, snd.buf, |snd.buf|).segs, peer.k.rcv);
  }

  // ----- sending -----

  lemma {:induction false} FlattenAppend(a: seq<Frag>, b: seq<Frag>)
    ensures Flatten(a + b) == Flatten(a) + Flatten(b)
  {
    if a == [] {
      assert a + b == b;
    } else {
      assert (a + b)[1..] == a[1..] + b;
      FlattenAppend(a[1..], b);
    }
  }

  lemma {:induction false} FragmentAllAppend(mss: int, a: seq<Bytes>, b: seq<Bytes>)
    requires mss > 0
    ensures FragmentAll(mss, a + b) == FragmentAll(mss, a) + FragmentAll(mss, b)
  {
    if a == [] {
      assert a + b == b;
    } else {
      assert (a + b)[1..] == a[1..] + b;
      FragmentAllAppend(mss, a[1..], b);
    }
  }

  /** Enough fragments carry all the data. */
  lemma {:induction false} CutWhole(mss: int, stream: bool, data: Bytes, count: nat)
    requires mss > 0 && |data| <= Room(mss, count)
    ensures Flatten(Cut(mss, stream, data, count)) == data
    decreases count
  {
    if count > 0 {
      var size := Min(|data|, mss);
      CutWhole(mss, stream, data[size..], count - 1);
      assert data == data[..size] + data[size..];
    }
  }

  /** Send conservation: a non-negative return is the number of leading bytes appended to the queued
      stream; a negative one leaves the queue unchanged. */
  lemma SendConserves(cfg: Config, queue: seq<Frag>, data: Bytes)
    ensures var r := Send(cfg, queue, data);
            && (r.ret >= 0 ==> Flatten(r.queue) == Flatten(queue) + data[..r.ret])
            && (r.ret < 0 ==> r.queue == queue && r.ret == -2)
  {
    var ext := Extension(cfg, queue, |data|);
    var queue1 := Extended(cfg, queue, data);
    var rest := data[ext..];
    var count := FragCount(cfg.Mss(), |rest|);
    ExtendedBytes(cfg, queue, data);
    SplitAt(data, ext);
    if cfg.stream && rest == [] {
    } else if count >= WND_RCV {
      if ext == 0 { NotExtended(cfg, queue, data); }
    } else {
      CutBytes(cfg, queue1, rest);
      Assoc(Flatten(queue), data[..ext], rest);
      WholePrefix(data);
    }
  }

  /** The bytes the last queued segment can still take, in stream mode. */
  function TailRoom(cfg: Config, queue: seq<Frag>): nat {
    if cfg.stream && queue != [] && |queue[|queue| - 1].data| < cfg.Mss() then cfg.Mss() - |queue[|queue| - 1].data| else 0
  }

  /** How much a send takes: everything, if it fits the last queued segment and 127 more; otherwise what the
      last segment can take, and if that is nothing the send is refused. */
  lemma SendTakes(cfg: Config, queue: seq<Frag>, data: Bytes)
    ensures Send(cfg, queue, data).ret
            == if |data| <= TailRoom(cfg, queue) + 127 * cfg.Mss() then |data|
               else if TailRoom(cfg, queue) > 0 then TailRoom(cfg, queue)
               else -2
  {
    var ext := Extension(cfg, queue, |data|);
    var mss, len := cfg.Mss(), |data| - ext;
    if len > mss { CountIsCeiling(mss, len, 127); }
  }

  lemma CountIsCeiling(mss: nat, len: nat, m: nat)
    requires 0 < mss < len
    ensures FragCount(mss, len) <= m <==> len <= m * mss
  {
    var q := FragCount(mss, len);
    Quotient(mss, len, q);
    if q <= m { Monotone(q, m, mss); } else { Monotone(m, q - 1, mss); }
  }

  lemma Monotone(a: nat, b: nat, m: nat)
    requires a <= b
    ensures a * m <= b * m
  {
  }

  lemma SplitAt<T>(s: seq<T>, n: nat)
    requires n <= |s|
    ensures s[..n] + s[n..] == s
  {
  }

  /** Queueing the fragments of `rest` queues its bytes. */
  lemma CutBytes(cfg: Config, queue: seq<Frag>, rest: Bytes)
    ensures var n := FragCount(cfg.Mss(), |rest|);
            Flatten(queue + Cut(cfg.Mss(), cfg.stream, rest, n)) == Flatten(queue) + rest
  {
    var n := FragCount(cfg.Mss(), |rest|);
    FragCountEnough(cfg.Mss(), |rest|);
    CutWhole(cfg.Mss(), cfg.stream, rest, n);
    FlattenAppend(queue, Cut(cfg.Mss(), cfg.stream, rest, n));
  }

  lemma NotExtended(cfg: Config, queue: seq<Frag>, data: Bytes)
    requires Extension(cfg, queue, |data|) == 0 && data != []
    ensures Extended(cfg, queue, data) == queue
  {
  }

  lemma ExtendedBytes(cfg: Config, queue: seq<Frag>, data: Bytes)
    ensures Flatten(Extended(cfg, queue, data)) == Flatten(queue) + data[..Extension(cfg, queue, |data|)]
  {
    var ext := Extension(cfg, queue, |data|);
    if cfg.stream && queue != [] && |queue[|queue| - 1].data| < cfg.Mss() {
      var n := |queue| - 1;
      var last := queue[n];
      FlattenAppend(queue[..n], [last]);
      FlattenAppend(queue[..n], [Frag(0, last.data + data[..ext])]);
      assert queue == queue[..n] + [last];
      FlattenOne(last);
      FlattenOne(Frag(0, last.data + data[..ext]));
      Assoc(Flatten(queue[..n]), last.data, data[..ext]);
    } else {
      assert data[..ext] == [];
    }
  }

  lemma FlattenOne(f: Frag)
    ensures Flatten([f]) == f.data
  {
    assert Flatten([f]) == f.data + Flatten([]);
  }

  /** In stream mode every queued segment but the last is exactly `mss` long. */
  ghost predicate Packed(cfg: Config, queue: seq<Frag>) {
    forall i :: 0 <= i < |queue| - 1 ==> |queue[i].data| == cfg.Mss()
  }

  lemma {:induction false} CutPacked(mss: int, data: Bytes, count: nat)
    requires mss > 0 && count > 0 && Room(mss, count - 1) <= |data|
    ensures |Cut(mss, true, data, count)| == count
    ensures forall i :: 0 <= i < count - 1 ==> |Cut(mss, true, data, count)[i].data| == mss
    decreases count
  {
    CutShape(mss, true, data, count);
    if count > 1 {
      CutPacked(mss, data[mss..], count - 1);
    }
  }

  /** Appending full segments and a last one behind a full last segment keeps the queue packed. */
  lemma PackedAppend(cfg: Config, queue: seq<Frag>, more: seq<Frag>)
    requires Packed(cfg, queue) && Packed(cfg, more)
    requires queue != [] ==> |queue[|queue| - 1].data| == cfg.Mss()
    ensures Packed(cfg, queue + more)
  {
  }

  lemma ExtendedPacked(cfg: Config, queue: seq<Frag>, data: Bytes)
    requires cfg.stream && Packed(cfg, queue)
    requires forall i :: 0 <= i < |queue| ==> |queue[i].data| <= cfg.Mss()
    ensures var q := Extended(cfg, queue, data);
            Packed(cfg, q) && (q != [] && Extension(cfg, queue, |data|) < |data| ==> |q[|q| - 1].data| == cfg.Mss())
  {
  }

  lemma SendPacks(cfg: Config, queue: seq<Frag>, data: Bytes)
    requires cfg.stream && Packed(cfg, queue)
    requires forall i :: 0 <= i < |queue| ==> |queue[i].data| <= cfg.Mss()
    ensures Packed(cfg, Send(cfg, queue, data).queue)
  {
    var rest := data[Extension(cfg, queue, |data|)..];
    var count := FragCount(cfg.Mss(), |rest|);
    ExtendedPacked(cfg, queue, data);
    if rest != [] {
      FragCountEnough(cfg.Mss(), |rest|);
      CutPacked(cfg.Mss(), rest, count);
      PackedAppend(cfg, Extended(cfg, queue, data), Cut(cfg.Mss(), cfg.stream, rest, count));
    }
  }

  lemma FlushPacked(k: Kcb)
    requires KcbOk(k) && Packed(k.cfg, k.snd.queue)
    ensures Packed(k.cfg, Flush(k).k.snd.queue)
  {
    AdmitKeeps(k.cfg, k.snd, SendWindow(k), k.clock.current, k.rtt.rto);
  }

  lemma ExecPacked(k: Kcb, r: Request)
    requires KcbOk(k) && k.cfg.wrap && k.cfg.stream && Packed(k.cfg, k.snd.queue)
    ensures Packed(k.cfg, Exec(k, r).snd.queue)
  {
    match r
    case SendRequest(data) => SendPacks(k.cfg, k.snd.queue, data);
    case RecvRequest(len) =>
    case InputRequest(bytes) => InputBytesKeeps(k, bytes);
    case FlushRequest => FlushPacked(k);
    case UpdateRequest(now) => FlushPacked(Tuned(k, now));
  }

  /** In stream mode, after any calls and any bytes, every queued segment but the last is exactly `mss` long. */
  lemma {:induction false} AnyCallsKeepPacked(cfg: Config, rs: seq<Request>)
    requires cfg.Valid() && cfg.wrap && cfg.stream
    ensures Packed(cfg, ExecAll(Create(cfg), rs).snd.queue)
    decreases |rs|
  {
    if rs != [] {
      AnyCallsKeepPacked(cfg, rs[..|rs| - 1]);
      AnyCallsKeep(cfg, rs[..|rs| - 1]);
      ExecPacked(ExecAll(Create(cfg), rs[..|rs| - 1]), rs[|rs| - 1]);
    }
  }

  lemma SendData(cfg: Config, log: seq<Frag>, queue: seq<Frag>, data: Bytes, acc: seq<Bytes>, consumed: int, dlv: seq<Bytes>)
    requires 0 <= consumed <= |log| && DataOk(cfg, log, queue, acc, consumed, dlv)
    ensures var r := Send(cfg, queue, data);
            DataOk(cfg, log, r.queue, if r.ret >= 0 then acc + [data[..r.ret]] else acc, consumed, dlv)
  {
    var r := Send(cfg, queue, data);
    SendConserves(cfg, queue, data);
    if r.ret >= 0 {
      var part := data[..r.ret];
      if cfg.stream {
        ConcatSnoc(acc, part);
        FlattenAppend(log, queue);
        FlattenAppend(log, r.queue);
        Assoc(Flatten(log), Flatten(queue), part);
        SendZeros(cfg, queue, data, log);
      } else {
        assert data[0..] == data && part == data;
        FragmentAllAppend(cfg.Mss(), acc, [data]);
        assert FragmentAll(cfg.Mss(), [data]) == Fragments(cfg.Mss(), data) + FragmentAll(cfg.Mss(), []);
        Assoc(log, queue, Fragments(cfg.Mss(), data));
      }
    }
  }

  lemma SendZeros(cfg: Config, queue: seq<Frag>, data: Bytes, log: seq<Frag>)
    requires cfg.stream && forall i :: 0 <= i < |log + queue| ==> (log + queue)[i].frg == 0
    ensures var q := Send(cfg, queue, data).queue; forall i :: 0 <= i < |log + q| ==> (log + q)[i].frg == 0
  {
    var rest := data[Extension(cfg, queue, |data|)..];
    CutShape(cfg.Mss(), true, rest, FragCount(cfg.Mss(), |rest|));
    assert forall i :: 0 <= i < |queue| ==> queue[i] == (log + queue)[|log| + i];
    assert forall i :: 0 <= i < |log| ==> log[i] == (log + queue)[i];
  }

  lemma SendStep(me: End, peer: End, data: Bytes)
    requires Linked(me, peer)
    ensures Linked(Act(false, me, peer, SendCall(data)), peer)
  {
    var me' := Act(false, me, peer, SendCall(data));
    SendKeeps(me.k, data);
    SendData(me.k.cfg, me.log, me.k.snd.queue, data, me.acc, Consumed(peer.k.rcv), peer.dlv);
    assert forall i :: Buffered(me.k.snd.buf, i) <==> Buffered(me'.k.snd.buf, i);
  }

  // ----- delivering to the application -----

  lemma {:induction false} SpanOfMessage(q: seq<RcvSeg>, n: nat)
    requires 1 <= n <= |q|
    requires forall i :: 0 <= i < n ==> q[i].frag.frg == n - 1 - i
    ensures MessageSpan(q) == n
    decreases n
  {
    if n > 1 {
      SpanOfMessage(q[1..], n - 1);
    }
  }

  lemma {:induction false} MergeIsFlatten(q: seq<RcvSeg>, fs: seq<Frag>)
    requires |q| == |fs| && forall i :: 0 <= i < |q| ==> q[i].frag == fs[i]
    ensures Merge(q) == Flatten(fs)
  {
    if q != [] {
      MergeIsFlatten(q[1..], fs[1..]);
    }
  }

  /** In message mode what is not yet consumed starts with the next message. */
  lemma NextTail(cfg: Config, log: seq<Frag>, queue: seq<Frag>, acc: seq<Bytes>, c: nat, dlv: seq<Bytes>) returns (tail: seq<Frag>)
    requires c <= |log| && DataOk(cfg, log, queue, acc, c, dlv) && !cfg.stream
    ensures log[c..] <= tail && (c < |log| ==> |dlv| < |acc|)
    ensures |dlv| < |acc| ==> Fragments(cfg.Mss(), acc[|dlv|]) <= tail
  {
    var later := acc[|dlv|..];
    assert acc == dlv + later;
    FragmentAllAppend(cfg.Mss(), dlv, later);
    tail := FragmentAll(cfg.Mss(), later);
    Stretch(log, queue, log[..c], tail);
  }

  /** A message is cut into at least one fragment, numbered down to 0. */
  lemma FragmentsShape(mss: int, m: Bytes)
    requires mss > 0
    ensures var f := Fragments(mss, m);
            |f| >= 1 && Flatten(f) == m && forall i :: 0 <= i < |f| ==> f[i].frg == |f| - 1 - i
  {
    var n := FragCount(mss, |m|);
    CutShape(mss, false, m, n);
    FragCountEnough(mss, |m|);
    CutWhole(mss, false, m, n);
  }

  /** In message mode the queue starts at a message, and a readable queue holds all of it. */
  lemma NextMessage(cfg: Config, log: seq<Frag>, queue: seq<Frag>, acc: seq<Bytes>, rcv: Rcv, dlv: seq<Bytes>)
    requires RcvLog(log, rcv) && DataOk(cfg, log, queue, acc, Consumed(rcv), dlv) && !cfg.stream && rcv.queue != []
    ensures |dlv| < |acc|
    ensures var f := Fragments(cfg.Mss(), acc[|dlv|]);
            && |f| >= 1
            && rcv.queue[0].frag == f[0] && f[0].frg == |f| - 1
            && (forall i :: 0 <= i < |f| && i < |rcv.queue| ==> rcv.queue[i].frag == f[i])
            && (|rcv.queue| >= |f| ==> log[..Consumed(rcv) + |f|] == FragmentAll(cfg.Mss(), dlv) + f)
  {
    var c := Consumed(rcv);
    var tail := NextTail(cfg, log, queue, acc, c, dlv);
    QueueIsTail(log, rcv, tail);
    FragmentsShape(cfg.Mss(), acc[|dlv|]);
    var f := Fragments(cfg.Mss(), acc[|dlv|]);
    if |rcv.queue| >= |f| {
      PrefixGrows(log, c, tail, f);
    }
  }

  lemma PrefixGrows<T>(log: seq<T>, c: nat, tail: seq<T>, f: seq<T>)
    requires c + |f| <= |log| && log[c..] <= tail && f <= tail
    ensures log[..c + |f|] == log[..c] + f
  {
    assert log[c..][..|f|] == f;
  }

  lemma QueueIsTail(log: seq<Frag>, rcv: Rcv, tail: seq<Frag>)
    requires RcvLog(log, rcv) && log[Consumed(rcv)..] <= tail
    ensures |rcv.queue| <= |tail|
    ensures forall i :: 0 <= i < |rcv.queue| ==> rcv.queue[i].frag == tail[i]
  {
    forall i | 0 <= i < |rcv.queue| ensures rcv.queue[i].frag == tail[i] {
      assert rcv.queue[i].frag == log[Consumed(rcv)..][i];
    }
  }

  lemma Stretch<T>(log: seq<T>, queue: seq<T>, a: seq<T>, b: seq<T>)
    requires log + queue == a + b && a <= log
    ensures log[|a|..] <= b
  {
    assert b == (log + queue)[|a|..];
  }

  /** What a successful read hands out keeps the delivered data a prefix of the accepted data. */
  lemma RecvData(cfg: Config, log: seq<Frag>, queue: seq<Frag>, acc: seq<Bytes>, rcv: Rcv, dlv: seq<Bytes>)
    requires RcvLog(log, rcv) && DataOk(cfg, log, queue, acc, Consumed(rcv), dlv)
    requires rcv.queue != [] && PeekSize(rcv.queue) >= 0
    ensures var n := MessageSpan(rcv.queue);
            DataOk(cfg, log, queue, acc, Consumed(rcv) + n, dlv + [Merge(rcv.queue[..n])])
  {
    if cfg.stream {
      RecvBytes(cfg, log, queue, rcv, dlv);
    } else {
      RecvMessage(cfg, log, queue, acc, rcv, dlv);
    }
  }

  lemma RecvBytes(cfg: Config, log: seq<Frag>, queue: seq<Frag>, rcv: Rcv, dlv: seq<Bytes>)
    requires RcvLog(log, rcv) && rcv.queue != []
    requires forall i :: 0 <= i < |log + queue| ==> (log + queue)[i].frg == 0
    requires Flatten(log[..Consumed(rcv)]) == Concat(dlv)
    ensures MessageSpan(rcv.queue) == 1
    ensures Flatten(log[..Consumed(rcv) + 1]) == Concat(dlv + [Merge(rcv.queue[..1])])
  {
    var q := rcv.queue;
    var c := Consumed(rcv);
    assert q[0].frag == log[c] == (log + queue)[c];
    MergeIsFlatten(q[..1], [log[c]]);
    FlattenAppend(log[..c], [log[c]]);
    assert log[..c + 1] == log[..c] + [log[c]];
    ConcatSnoc(dlv, Merge(q[..1]));
  }

  lemma RecvMessage(cfg: Config, log: seq<Frag>, queue: seq<Frag>, acc: seq<Bytes>, rcv: Rcv, dlv: seq<Bytes>)
    requires RcvLog(log, rcv) && DataOk(cfg, log, queue, acc, Consumed(rcv), dlv) && !cfg.stream
    requires rcv.queue != [] && PeekSize(rcv.queue) >= 0
    ensures |dlv| < |acc|
    ensures MessageSpan(rcv.queue) == |Fragments(cfg.Mss(), acc[|dlv|])|
    ensures Merge(rcv.queue[..MessageSpan(rcv.queue)]) == acc[|dlv|]
    ensures Consumed(rcv) + MessageSpan(rcv.queue) <= |log|
    ensures log[..Consumed(rcv) + MessageSpan(rcv.queue)] == FragmentAll(cfg.Mss(), dlv + [acc[|dlv|]])
  {
    var q := rcv.queue;
    NextMessage(cfg, log, queue, acc, rcv, dlv);
    var m := acc[|dlv|];
    FragmentsShape(cfg.Mss(), m);
    ReadsMessage(q, Fragments(cfg.Mss(), m));
    FragmentAllAppend(cfg.Mss(), dlv, [m]);
    assert FragmentAll(cfg.Mss(), [m]) == Fragments(cfg.Mss(), m) + FragmentAll(cfg.Mss(), []);
  }

  /** A readable queue that starts with a message's fragments reads as that message. */
  lemma ReadsMessage(q: seq<RcvSeg>, f: seq<Frag>)
    requires q != [] && f != [] && PeekSize(q) >= 0
    requires forall i :: 0 <= i < |f| ==> f[i].frg == |f| - 1 - i
    requires forall i :: 0 <= i < |f| && i < |q| ==> q[i].frag == f[i]
    ensures |q| >= |f| == MessageSpan(q) && Merge(q[..|f|]) == Flatten(f)
  {
    assert q[0].frag == f[0];
    SpanOfMessage(q, |f|);
    MergeIsFlatten(q[..|f|], f);
  }

  /** Nothing the sending side owns has changed. */
  lemma SenderIdle(me: End, me': End, peer: End)
    requires Flow(me, peer)
    requires me'.k.cfg == me.k.cfg && me'.k.snd == me.k.snd
    requires me'.log == me.log && me'.out == me.out && me'.acc == me.acc
    ensures Flow(me', peer)
  {
  }

  lemma DropQueueLog(log: seq<Frag>, rcv: Rcv, n: nat)
    requires RcvLog(log, rcv) && n <= |rcv.queue|
    ensures var rcv1 := rcv.(queue := rcv.queue[n..]);
            && RcvLog(log, rcv1) && Consumed(rcv1) == Consumed(rcv) + n
            && forall i :: Held(rcv, i) ==> Held(rcv1, i)
  {
    var q := rcv.queue[n..];
    assert forall j :: 0 <= j < |q| ==> q[j] == rcv.queue[j + n];
  }

  lemma TakeLog(cfg: Config, log: seq<Frag>, rcv: Rcv, n: nat)
    requires !cfg.wrap && RcvLog(log, rcv) && AcksHeld(rcv) && n <= |rcv.queue|
    ensures var r := MoveReady(cfg, rcv.(queue := rcv.queue[n..]));
            && RcvLog(log, r) && AcksHeld(r)
            && Consumed(r) == Consumed(rcv) + n && r.nxt >= rcv.nxt
            && forall i :: Held(rcv, i) ==> Held(r, i)
  {
    DropQueueLog(log, rcv, n);
    MoveReadyLog(cfg, log, rcv.(queue := rcv.queue[n..]));
  }

  /** The effect of a successful read on the receiving side. */
  lemma RecvEffect(me: End, peer: End, len: int)
    requires Recv(me.k, len).ret >= 0
    ensures var me' := Act(false, me, peer, RecvCall(len)); var q := me.k.rcv.queue; var n := MessageSpan(q);
            && q != [] && PeekSize(q) >= 0 && me'.out == me.out
            && me'.k.rcv == MoveReady(me.k.cfg, me.k.rcv.(queue := q[(if len < 0 then 0 else n)..]))
            && me'.dlv == if len < 0 then me.dlv else me.dlv + [Merge(q[..n])]
  {
    assert me.k.rcv.queue[0..] == me.k.rcv.queue;
  }

  lemma ReadBackward(peer: End, me: End, me': End, n: nat)
    requires !me.k.cfg.wrap && Flow(peer, me) && n <= |me.k.rcv.queue|
    requires me'.k.rcv == MoveReady(me.k.cfg, me.k.rcv.(queue := me.k.rcv.queue[n..])) && me'.out == me.out
    requires 0 <= Consumed(me.k.rcv) + n <= |peer.log|
    requires DataOk(peer.k.cfg, peer.log, peer.k.snd.queue, peer.acc, Consumed(me.k.rcv) + n, me'.dlv)
    ensures Flow(peer, me')
  {
    TakeLog(me.k.cfg, peer.log, me.k.rcv, n);
    ReceiverStep(peer, me, me');
  }

  lemma RecvBackward(me: End, peer: End, len: int)
    requires !me.k.cfg.wrap && Flow(peer, me) && Recv(me.k, len).ret >= 0
    ensures Flow(peer, Act(false, me, peer, RecvCall(len)))
  {
    RecvEffect(me, peer, len);
    if len < 0 {
      ReadBackward(peer, me, Act(false, me, peer, RecvCall(len)), 0);
    } else {
      RecvData(peer.k.cfg, peer.log, peer.k.snd.queue, peer.acc, me.k.rcv, me.dlv);
      ReadBackward(peer, me, Act(false, me, peer, RecvCall(len)), MessageSpan(me.k.rcv.queue));
    }
  }

  lemma RecvStep(me: End, peer: End, len: int)
    requires Linked(me, peer)
    ensures Linked(Act(false, me, peer, RecvCall(len)), peer)
  {
    RecvKeeps(me.k, len);
    if Recv(me.k, len).ret >= 0 {
      RecvBackward(me, peer, len);
      SenderIdle(me, Act(false, me, peer, RecvCall(len)), peer);
    } else {
      assert Act(false, me, peer, RecvCall(len)) == me;
    }
  }

  // ----- the theorems -----

  lemma DeliverStep(me: End, peer: End, i: nat)
    requires Linked(me, peer) && EndOk(peer)
    ensures Linked(Act(false, me, peer, Deliver(i)), peer)
  {
    var me' := Act(false, me, peer, Deliver(i));
    if i < |peer.out| {
      var d := peer.out[i];
      forall j | 0 <= j < |d| ensures PacketOk(me.k.cfg, d[j]) && PushOk(peer.log, d[j]) && AckOk(peer.k.rcv, d[j]) {
        assert InTransit(peer.k.cfg, peer.out[i][j]);
      }
      ReadDatagram(me.k, d, me.log, peer.log, peer.k.rcv);
      ReceiverStep(peer, me, me');
    }
  }

  lemma FlushStep(me: End, peer: End)
    requires Linked(me, peer)
    ensures Linked(AfterFlush(me, Flush(me.k)), peer)
  {
    FlushEnd(me);
    FlushForward(me, peer);
    FlushBackward(me, peer);
  }

  lemma ClockStep(me: End, peer: End, c: Clock)
    requires Linked(me, peer) && ClockOk(c)
    ensures Linked(me.(k := me.k.(clock := c)), peer)
  {
  }

  lemma UpdateStep(me: End, peer: End, now: Time)
    requires Linked(me, peer)
    ensures Linked(AfterFlush(me, Update(me.k, now)), peer)
  {
    var t := TickClock(me.k.cfg, me.k.clock, now);
    ClockStep(me, peer, t.clock);
    var me1 := me.(k := me.k.(clock := t.clock));
    if t.flush {
      FlushStep(me1, peer);
      assert AfterFlush(me, Update(me.k, now)) == AfterFlush(me1, Flush(me1.k));
    } else {
      assert AfterFlush(me, Update(me.k, now)) == me1;
    }
  }

  lemma FlushCallStep(me: End, peer: End)
    requires Linked(me, peer)
    ensures Linked(Act(false, me, peer, FlushCall), peer)
  {
    FlushStep(me, peer);
    assert Act(false, me, peer, FlushCall) == AfterFlush(me, Flush(me.k));
  }

  lemma UpdateCallStep(me: End, peer: End, now: Time)
    requires Linked(me, peer)
    ensures Linked(Act(false, me, peer, UpdateCall(now)), peer)
  {
    UpdateStep(me, peer, now);
    assert Act(false, me, peer, UpdateCall(now)) == AfterFlush(me, Update(me.k, now));
  }

  lemma ActKeeps(me: End, peer: End, c: Call)
    requires Linked(me, peer) && EndOk(peer)
    ensures Linked(Act(false, me, peer, c), peer)
  {
    match c
    case SendCall(data) => SendStep(me, peer, data);
    case RecvCall(len) => RecvStep(me, peer, len);
    case FlushCall => FlushCallStep(me, peer);
    case UpdateCall(now) => UpdateCallStep(me, peer, now);
    case Deliver(i) => DeliverStep(me, peer, i);
  }

  lemma StepKeeps(s: Sys, e: Event)
    requires SysOk(s)
    ensures SysOk(Step(false, s, e))
  {
    match e
    case AtA(c) => ActKeeps(s.a, s.b, c);
    case AtB(c) => ActKeeps(s.b, s.a, c);
  }

  lemma InitOk(ca: Config, cb: Config)
    requires ca.Valid() && cb.Valid() && !ca.wrap && !cb.wrap
    ensures SysOk(Init(ca, cb))
  {
    CreateOk(ca);
    CreateOk(cb);
    InitFlow(ca, cb);
    InitFlow(cb, ca);
  }

  lemma InitFlow(ca: Config, cb: Config)
    ensures Flow(Init(ca, cb).a, Init(ca, cb).b)
  {
    EmptyFlow(Create(ca), Create(cb));
  }

  lemma EmptyFlow(k: Kcb, m: Kcb)
    requires k.snd.nxt == 0 && k.snd.buf == [] && k.snd.queue == [] && m.rcv == Rcv(0, [], [], [])
    ensures Flow(End(k, [], [], [], []), End(m, [], [], [], []))
  {
    EmptyLogs(k.snd, m.rcv);
    NoData(k.cfg);
  }

  lemma EmptyLogs(snd: Snd, rcv: Rcv)
    requires snd.nxt == 0 && snd.buf == [] && rcv == Rcv(0, [], [], [])
    ensures SndLog([], snd) && NoLoss(snd, rcv) && RcvLog([], rcv) && AcksHeld(rcv)
  {
  }

  lemma NoData(cfg: Config)
    ensures DataOk(cfg, [], [], [], 0, [])
  {
    var none: seq<Frag> := [];
    assert none[..0] == none && none + none == none;
  }

  /** The invariant holds in every reachable state. */
  lemma {:induction false} RunKeeps(ca: Config, cb: Config, es: seq<Event>)
    requires ca.Valid() && cb.Valid() && !ca.wrap && !cb.wrap
    ensures SysOk(Run(false, Init(ca, cb), es))
    decreases |es|
  {
    if es == [] {
      InitOk(ca, cb);
    } else {
      RunKeeps(ca, cb, es[..|es| - 1]);
      StepKeeps(Run(false, Init(ca, cb), es[..|es| - 1]), es[|es| - 1]);
    }
  }

  /** What `y` handed out is a prefix of what `x` accepted: whole messages, or bytes in stream mode. */
  ghost predicate PrefixDelivered(x: End, y: End) {
    if x.k.cfg.stream then Concat(y.dlv) <= Concat(x.acc) else y.dlv <= x.acc
  }

  lemma FlowIsSafe(x: End, y: End)
    requires Flow(x, y)
    ensures PrefixDelivered(x, y)
  {
    if x.k.cfg.stream {
      var c := Consumed(y.k.rcv);
      FlattenAppend(x.log[..c], x.log[c..] + x.k.snd.queue);
      assert x.log + x.k.snd.queue == x.log[..c] + (x.log[c..] + x.k.snd.queue);
    }
  }

  /** End-to-end safety, in every run and in both directions. */
  lemma EndToEndSafety(ca: Config, cb: Config, es: seq<Event>)
    requires ca.Valid() && cb.Valid() && !ca.wrap && !cb.wrap
    ensures var s := Run(false, Init(ca, cb), es);
            PrefixDelivered(s.a, s.b) && PrefixDelivered(s.b, s.a)
  {
    RunKeeps(ca, cb, es);
    var s := Run(false, Init(ca, cb), es);
    FlowIsSafe(s.a, s.b);
    FlowIsSafe(s.b, s.a);
  }

  /** No loss, in every run: a number given out is buffered by its sender or held by the receiver. */
  lemma NothingLost(ca: Config, cb: Config, es: seq<Event>, i: int)
    requires ca.Valid() && cb.Valid() && !ca.wrap && !cb.wrap
    ensures var s := Run(false, Init(ca, cb), es);
            && (0 <= i < s.a.k.snd.nxt ==> Buffered(s.a.k.snd.buf, i) || Held(s.b.k.rcv, i))
            && (0 <= i < s.b.k.snd.nxt ==> Buffered(s.b.k.snd.buf, i) || Held(s.a.k.rcv, i))
  {
    RunKeeps(ca, cb, es);
  }

  /** Acknowledged implies held, in every run, for everything still in flight either way. */
  lemma AckedIsHeld(ca: Config, cb: Config, es: seq<Event>, d: Datagram, p: Packet)
    requires ca.Valid() && cb.Valid() && !ca.wrap && !cb.wrap && p in d
    ensures var s := Run(false, Init(ca, cb), es);
            && (d in s.a.out ==> AckOk(s.a.k.rcv, p))
            && (d in s.b.out ==> AckOk(s.b.k.rcv, p))
  {
    RunKeeps(ca, cb, es);
    var s := Run(false, Init(ca, cb), es);
    var j :| 0 <= j < |d| && d[j] == p;
    if d in s.a.out {
      var i :| 0 <= i < |s.a.out| && s.a.out[i] == d;
      assert AckOk(s.a.k.rcv, s.a.out[i][j]);
    }
    if d in s.b.out {
      var i :| 0 <= i < |s.b.out| && s.b.out[i] == d;
      assert AckOk(s.b.k.rcv, s.b.out[i][j]);
    }
  }

  lemma {:induction false} InputConfig(x: Progress, ps: seq<Packet>)
    ensures InputPackets(x, ps).k.cfg == x.k.cfg
    decreases |ps|
  {
    if ps != [] {
      InputConfig(InputPacket(x, ps[0]), ps[1..]);
    }
  }

  lemma ActConfig(me: End, peer: End, c: Call)
    ensures Act(false, me, peer, c).k.cfg == me.k.cfg
  {
    if c.Deliver? && c.i < |peer.out| {
      InputConfig(StartInput(me.k), peer.out[c.i]);
    }
  }

  /** Settings never change in a run. */
  lemma {:induction false} RunConfig(s: Sys, es: seq<Event>)
    ensures Run(false, s, es).a.k.cfg == s.a.k.cfg && Run(false, s, es).b.k.cfg == s.b.k.cfg
    decreases |es|
  {
    if es != [] {
      RunConfig(s, es[..|es| - 1]);
      var t := Run(false, s, es[..|es| - 1]);
      ActConfig(t.a, t.b, es[|es| - 1].call);
      ActConfig(t.b, t.a, es[|es| - 1].call);
    }
  }

  /** The receive queue of `y` starts with the next message of `x` that has not been delivered, and when
      it is full it can be read. */
  ghost predicate Readable(x: End, y: End) {
    var q := y.k.rcv.queue;
    && (q != [] ==> |y.dlv| < |x.acc| && q[0].frag == Fragments(x.k.cfg.Mss(), x.acc[|y.dlv|])[0])
    && (|q| == y.k.cfg.rcvWnd ==> PeekSize(q) >= 0)
  }

  lemma FlowIsReadable(x: End, y: End)
    requires EndOk(x) && EndOk(y) && Flow(x, y) && !x.k.cfg.stream
    ensures Readable(x, y)
  {
    var rcv := y.k.rcv;
    if rcv.queue != [] {
      NextMessage(x.k.cfg, x.log, x.k.snd.queue, x.acc, rcv, y.dlv);
      assert rcv.queue[0].frag == x.log[rcv.nxt - |rcv.queue|];
    }
  }

  /** Reassembly never sticks, in every run: from a peer in message mode, the receive queue always starts
      with the next undelivered message, and a full queue can be read. */
  lemma ReassemblyNeverSticks(ca: Config, cb: Config, es: seq<Event>)
    requires ca.Valid() && cb.Valid() && !ca.wrap && !cb.wrap
    ensures var s := Run(false, Init(ca, cb), es);
            (!ca.stream ==> Readable(s.a, s.b)) && (!cb.stream ==> Readable(s.b, s.a))
  {
    RunKeeps(ca, cb, es);
    var s := Run(false, Init(ca, cb), es);
    RunConfig(Init(ca, cb), es);
    if !ca.stream { FlowIsReadable(s.a, s.b); }
    if !cb.stream { FlowIsReadable(s.b, s.a); }
  }
}
