/** Endpoints with 32-bit serial numbers, exchanging bytes, simulate step for step the same
    endpoints with unbounded numbers, as long as no datagram arrives half the number circle late. */
module Refinement {
  import opened Serial
  import opened Wire
  import opened Control
  import opened Structure
  import opened System
  import opened Protocol

  // ----- the abstraction: reduce every serial number modulo 2^32 -----

  function WSeg(s: SndSeg): SndSeg { s.(sn := U32(s.sn)) }

  function WSegs(buf: seq<SndSeg>): (r: seq<SndSeg>)
    ensures |r| == |buf| && forall i :: 0 <= i < |r| ==> r[i] == WSeg(buf[i])
  {
    seq(|buf|, i requires 0 <= i < |buf| => WSeg(buf[i]))
  }

  function WRSeg(s: RcvSeg): RcvSeg { s.(sn := U32(s.sn)) }

  function WRSegs(buf: seq<RcvSeg>): (r: seq<RcvSeg>)
    ensures |r| == |buf| && forall i :: 0 <= i < |r| ==> r[i] == WRSeg(buf[i])
  {
    seq(|buf|, i requires 0 <= i < |buf| => WRSeg(buf[i]))
  }

  function WAcks(acks: seq<Ack>): (r: seq<Ack>)
    ensures |r| == |acks| && forall i :: 0 <= i < |r| ==> r[i] == Ack(U32(acks[i].sn), acks[i].ts)
  {
    seq(|acks|, i requires 0 <= i < |acks| => Ack(U32(acks[i].sn), acks[i].ts))
  }

  function WPacket(p: Packet): Packet { p.(sn := U32(p.sn), una := U32(p.una)) }

  function WPackets(d: seq<Packet>): (r: seq<Packet>)
    ensures |r| == |d| && forall i :: 0 <= i < |r| ==> r[i] == WPacket(d[i])
  {
    seq(|d|, i requires 0 <= i < |d| => WPacket(d[i]))
  }

  function WOut(out: seq<Datagram>): (r: seq<Datagram>)
    ensures |r| == |out| && forall i :: 0 <= i < |r| ==> r[i] == WPackets(out[i])
  {
    seq(|out|, i requires 0 <= i < |out| => WPackets(out[i]))
  }

  function WSnd(snd: Snd): Snd {
    snd.(una := U32(snd.una), nxt := U32(snd.nxt), buf := WSegs(snd.buf))
  }

  function WRcv(rcv: Rcv): Rcv {
    rcv.(nxt := U32(rcv.nxt), buf := WRSegs(rcv.buf), queue := WRSegs(rcv.queue), acks := WAcks(rcv.acks))
  }

  function WMark(m: Mark): Mark {
    if m.NoAck? then m else Newest(U32(m.sn), m.ts)
  }

  function WKcb(k: Kcb): Kcb {
    k.(cfg := Wrapping(k.cfg), snd := WSnd(k.snd), rcv := WRcv(k.rcv))
  }

  function WProgress(x: Progress): Progress { Progress(WKcb(x.k), WMark(x.mark)) }

  function WEnd(e: End): End { e.(k := WKcb(e.k), out := WOut(e.out)) }

  function WSys(s: Sys): Sys { Sys(WEnd(s.a), WEnd(s.b)) }

  // ----- comparisons -----

  ghost predicate Near(x: int, y: int) { -HALF <= x - y < HALF }

  lemma DiffAgrees(x: int, y: int)
    requires Near(x, y)
    ensures Diff(true, U32(x), U32(y)) == Diff(false, x, y)
    ensures U32(x) == U32(y) <==> x == y
  {
    WrappedDiff(x, y);
    U32Injective(x, y);
  }

  lemma PlusAgrees(x: int, n: int)
    ensures Plus(true, U32(x), n) == U32(Plus(false, x, n))
  {
    U32Add(x, n);
  }

  // ----- sender -----

  lemma {:induction false} ParseUnaAgrees(cfg: Config, snd: Snd, una: int)
    requires !cfg.wrap && forall i :: 0 <= i < |snd.buf| ==> Near(una, snd.buf[i].sn)
    ensures ParseUna(Wrapping(cfg), WSnd(snd), U32(una)) == WSnd(ParseUna(cfg, snd, una))
    decreases |snd.buf|
  {
    if snd.buf != [] {
      DiffAgrees(una, snd.buf[0].sn);
      var snd1 := snd.(buf := snd.buf[1..], ackedLen := snd.ackedLen + |snd.buf[0].frag.data|);
      assert WSegs(snd.buf)[1..] == WSegs(snd.buf[1..]);
      ParseUnaAgrees(cfg, snd1, una);
    }
  }

  lemma {:induction false} FindSnAgrees(cfg: Config, buf: seq<SndSeg>, sn: int)
    requires !cfg.wrap && forall i :: 0 <= i < |buf| ==> Near(sn, buf[i].sn)
    ensures FindSn(Wrapping(cfg), WSegs(buf), U32(sn)) == FindSn(cfg, buf, sn)
  {
    if buf != [] {
      DiffAgrees(sn, buf[0].sn);
      assert WSegs(buf)[1..] == WSegs(buf[1..]);
      FindSnAgrees(cfg, buf[1..], sn);
    }
  }

  /** Numbers an acknowledgement may carry without being misread. */
  ghost predicate NearWindow(snd: Snd, sn: int) { snd.nxt - HALF <= sn <= snd.nxt }

  ghost predicate NearAck(snd: Snd, sn: int) { snd.nxt - HALF <= sn < snd.nxt }

  lemma NearBuffer(cfg: Config, snd: Snd, sn: int)
    requires cfg.Valid() && !cfg.wrap && SndSorted(cfg, snd) && NearWindow(snd, sn)
    ensures Near(sn, snd.una) && Near(sn, snd.nxt)
    ensures forall i :: 0 <= i < |snd.buf| ==> Near(sn, snd.buf[i].sn)
  {
  }

  lemma InFlightAgrees(cfg: Config, snd: Snd, sn: int)
    requires !cfg.wrap && Near(sn, snd.una) && Near(sn, snd.nxt)
    ensures InFlight(Wrapping(cfg), WSnd(snd), U32(sn)) == InFlight(cfg, snd, sn)
  {
    DiffAgrees(sn, snd.una);
    DiffAgrees(sn, snd.nxt);
  }

  lemma ParseAckAgrees(cfg: Config, snd: Snd, sn: int)
    requires cfg.Valid() && !cfg.wrap && SndSorted(cfg, snd) && NearWindow(snd, sn)
    ensures ParseAck(Wrapping(cfg), WSnd(snd), U32(sn)) == WSnd(ParseAck(cfg, snd, sn))
  {
    NearBuffer(cfg, snd, sn);
    InFlightAgrees(cfg, snd, sn);
    FindSnAgrees(cfg, snd.buf, sn);
    var i := FindSn(cfg, snd.buf, sn);
    if i >= 0 {
      RemoveAgrees(snd.buf, i);
    }
  }

  lemma RemoveAgrees(buf: seq<SndSeg>, i: nat)
    requires i < |buf|
    ensures WSegs(buf)[..i] + WSegs(buf)[i + 1..] == WSegs(buf[..i] + buf[i + 1..])
    ensures WSegs(buf)[i].frag == buf[i].frag
  {
  }

  lemma ShrinkAgrees(snd: Snd)
    ensures ShrinkBuf(WSnd(snd)) == WSnd(ShrinkBuf(snd))
  {
  }

  lemma InputSndAgrees(cfg: Config, snd: Snd, p: Packet)
    requires cfg.Valid() && !cfg.wrap && SndOk(cfg, snd)
    requires NearWindow(snd, p.una) && (p.cmd == CMD_ACK ==> NearAck(snd, p.sn))
    ensures InputSnd(Wrapping(cfg), WSnd(snd), WPacket(p)) == WSnd(InputSnd(cfg, snd, p))
  {
    NearBuffer(cfg, snd, p.una);
    ParseUnaAgrees(cfg, snd, p.una);
    ShrinkAgrees(ParseUna(cfg, snd, p.una));
    var snd1 := ShrinkBuf(ParseUna(cfg, snd, p.una));
    if p.cmd == CMD_ACK {
      UnaStepKeeps(cfg, snd, p.una);
      ParseAckAgrees(cfg, snd1, p.sn);
      ShrinkAgrees(ParseAck(cfg, snd1, p.sn));
    }
  }

  lemma ConsAgrees(s: SndSeg, r: seq<SndSeg>)
    ensures WSegs([s] + r) == [WSeg(s)] + WSegs(r)
  {
  }

  lemma {:induction false} BumpAgrees(cfg: Config, buf: seq<SndSeg>, sn: int, ts: int)
    requires !cfg.wrap && forall i :: 0 <= i < |buf| ==> Near(sn, buf[i].sn)
    ensures BumpSkipped(Wrapping(cfg), WSegs(buf), U32(sn), ts) == WSegs(BumpSkipped(cfg, buf, sn, ts))
  {
    if buf != [] {
      DiffAgrees(sn, buf[0].sn);
      assert WSegs(buf)[1..] == WSegs(buf[1..]);
      BumpAgrees(cfg, buf[1..], sn, ts);
      var s := buf[0];
      ConsAgrees(if sn != s.sn && TimeDiff(ts, s.ts) >= 0 then s.(fastack := U32(s.fastack + 1)) else s,
                 BumpSkipped(cfg, buf[1..], sn, ts));
    }
  }

  lemma FastackAgrees(cfg: Config, snd: Snd, sn: int, ts: int)
    requires cfg.Valid() && !cfg.wrap && SndSorted(cfg, snd) && NearWindow(snd, sn)
    ensures ParseFastack(Wrapping(cfg), WSnd(snd), U32(sn), ts) == WSnd(ParseFastack(cfg, snd, sn, ts))
  {
    NearBuffer(cfg, snd, sn);
    InFlightAgrees(cfg, snd, sn);
    BumpAgrees(cfg, snd.buf, sn, ts);
  }

  // ----- receiver -----

  lemma {:induction false} MoveReadyAgrees(cfg: Config, rcv: Rcv)
    requires cfg.Valid() && !cfg.wrap && RcvSorted(cfg, rcv.buf, rcv.nxt)
    ensures MoveReady(Wrapping(cfg), WRcv(rcv)) == WRcv(MoveReady(cfg, rcv))
    decreases |rcv.buf|
  {
    if rcv.buf != [] {
      U32Injective(rcv.buf[0].sn, rcv.nxt);
      assert WRSegs(rcv.buf)[0] == WRSeg(rcv.buf[0]);
      if rcv.buf[0].sn == rcv.nxt && |rcv.queue| < cfg.rcvWnd {
        var rcv1 := rcv.(nxt := rcv.nxt + 1, buf := rcv.buf[1..], queue := rcv.queue + [rcv.buf[0]]);
        PlusAgrees(rcv.nxt, 1);
        assert WRSegs(rcv.buf)[1..] == WRSegs(rcv.buf[1..]);
        assert WRSegs(rcv.queue) + [WRSeg(rcv.buf[0])] == WRSegs(rcv.queue + [rcv.buf[0]]);
        assert RcvSorted(cfg, rcv1.buf, rcv1.nxt) by {
          assert forall i :: 0 <= i < |rcv1.buf| ==> rcv1.buf[i] == rcv.buf[i + 1];
        }
        MoveReadyAgrees(cfg, rcv1);
      }
    }
  }

  lemma RSnocAgrees(r: seq<RcvSeg>, s: RcvSeg)
    ensures WRSegs(r + [s]) == WRSegs(r) + [WRSeg(s)]
  {
  }

  lemma {:induction false} InsertAgrees(cfg: Config, buf: seq<RcvSeg>, s: RcvSeg)
    requires !cfg.wrap && forall i :: 0 <= i < |buf| ==> Near(s.sn, buf[i].sn)
    ensures Insert(Wrapping(cfg), WRSegs(buf), WRSeg(s)) == WRSegs(Insert(cfg, buf, s))
  {
    if buf == [] {
      assert WRSegs([s]) == [WRSeg(s)];
    } else {
      var n := |buf| - 1;
      DiffAgrees(s.sn, buf[n].sn);
      assert WRSegs(buf)[..n] == WRSegs(buf[..n]);
      InsertAgrees(cfg, buf[..n], s);
      RSnocAgrees(buf, s);
      RSnocAgrees(Insert(cfg, buf[..n], s), buf[n]);
    }
  }

  /** Numbers a data segment may carry without being misread. */
  ghost predicate NearReceive(cfg: Config, rcv: Rcv, sn: int) {
    rcv.nxt + cfg.rcvWnd - HALF <= sn < rcv.nxt + HALF
  }

  lemma ParseDataAgrees(cfg: Config, rcv: Rcv, s: RcvSeg)
    requires cfg.Valid() && !cfg.wrap && RcvSorted(cfg, rcv.buf, rcv.nxt) && rcv.nxt >= 0 && NearReceive(cfg, rcv, s.sn)
    ensures ParseData(Wrapping(cfg), WRcv(rcv), WRSeg(s)) == WRcv(ParseData(cfg, rcv, s))
    ensures BelowWindowEnd(Wrapping(cfg), WRcv(rcv), U32(s.sn)) == BelowWindowEnd(cfg, rcv, s.sn)
  {
    PushTestsAgree(cfg, rcv, s.sn);
    if BelowWindowEnd(cfg, rcv, s.sn) && s.sn >= rcv.nxt {
      TakeInAgrees(cfg, rcv, s);
    }
  }

  /** Both tests of the push path. */
  lemma PushTestsAgree(cfg: Config, rcv: Rcv, sn: int)
    requires cfg.Valid() && !cfg.wrap && NearReceive(cfg, rcv, sn)
    ensures BelowWindowEnd(Wrapping(cfg), WRcv(rcv), U32(sn)) == BelowWindowEnd(cfg, rcv, sn)
    ensures Diff(true, U32(sn), U32(rcv.nxt)) == sn - rcv.nxt
  {
    PlusAgrees(rcv.nxt, cfg.rcvWnd);
    DiffAgrees(sn, rcv.nxt + cfg.rcvWnd);
    DiffAgrees(sn, rcv.nxt);
  }

  /** Insertion and delivery of a number in the window. */
  lemma TakeInAgrees(cfg: Config, rcv: Rcv, s: RcvSeg)
    requires cfg.Valid() && !cfg.wrap && RcvSorted(cfg, rcv.buf, rcv.nxt) && 0 <= rcv.nxt <= s.sn < rcv.nxt + cfg.rcvWnd
    ensures MoveReady(Wrapping(cfg), WRcv(rcv).(buf := Insert(Wrapping(cfg), WRSegs(rcv.buf), WRSeg(s))))
         == WRcv(MoveReady(cfg, rcv.(buf := Insert(cfg, rcv.buf, s))))
  {
    InsertAgrees(cfg, rcv.buf, s);
    InsertSorted(cfg, rcv.buf, s, rcv.nxt);
    MoveReadyAgrees(cfg, rcv.(buf := Insert(cfg, rcv.buf, s)));
  }

  lemma AckPushAgrees(rcv: Rcv, sn: int, ts: int)
    ensures WRcv(rcv).(acks := WRcv(rcv).acks + [Ack(U32(sn), ts)]) == WRcv(rcv.(acks := rcv.acks + [Ack(sn, ts)]))
  {
    assert WAcks(rcv.acks) + [Ack(U32(sn), ts)] == WAcks(rcv.acks + [Ack(sn, ts)]);
  }

  lemma InputRcvAgrees(cfg: Config, rcv: Rcv, p: Packet)
    requires cfg.Valid() && !cfg.wrap && RcvOk(cfg, rcv)
    requires p.cmd == CMD_PUSH ==> NearReceive(cfg, rcv, p.sn)
    ensures InputRcv(Wrapping(cfg), WRcv(rcv), WPacket(p)) == WRcv(InputRcv(cfg, rcv, p))
  {
    if p.cmd == CMD_PUSH {
      var s := RcvSeg(p.sn, Frag(p.frg, p.data));
      DiffAgrees(p.sn, rcv.nxt);
      AckPushAgrees(rcv, p.sn, p.ts);
      ParseDataAgrees(cfg, rcv, s);
      ParseDataAgrees(cfg, rcv.(acks := rcv.acks + [Ack(p.sn, p.ts)]), s);
    }
  }

  // ----- input -----

  /** Everything a segment says is within reach of 32-bit comparison. */
  ghost predicate NearPacket(k: Kcb, p: Packet) {
    && NearWindow(k.snd, p.una)
    && (p.cmd == CMD_ACK ==> NearAck(k.snd, p.sn))
    && (p.cmd == CMD_PUSH ==> NearReceive(k.cfg, k.rcv, p.sn))
  }

  ghost predicate NearMark(k: Kcb, m: Mark) { m.Newest? ==> NearAck(k.snd, m.sn) }

  lemma NoteAgrees(cfg: Config, snd: Snd, m: Mark, sn: int, ts: int)
    requires !cfg.wrap && NearAck(snd, sn) && (m.Newest? ==> NearAck(snd, m.sn))
    ensures Note(Wrapping(cfg), WMark(m), U32(sn), ts) == WMark(Note(cfg, m, sn, ts))
  {
    if m.Newest? {
      DiffAgrees(sn, m.sn);
    }
  }

  lemma ReadPacketAgrees(k: Kcb, p: Packet)
    requires KcbOk(k) && !k.cfg.wrap && NearPacket(k, p)
    ensures ReadPacket(WKcb(k), WPacket(p)) == WKcb(ReadPacket(k, p))
  {
    InputSndAgrees(k.cfg, k.snd, p);
    InputRcvAgrees(k.cfg, k.rcv, p);
    assert InputRtt(Wrapping(k.cfg), k.rtt, k.clock.current, WPacket(p)) == InputRtt(k.cfg, k.rtt, k.clock.current, p);
  }

  lemma InputPacketAgrees(x: Progress, p: Packet)
    requires KcbOk(x.k) && !x.k.cfg.wrap && PacketOk(x.k.cfg, p)
    requires NearPacket(x.k, p) && NearMark(x.k, x.mark)
    ensures InputPacket(WProgress(x), WPacket(p)) == WProgress(InputPacket(x, p))
    ensures NearMark(InputPacket(x, p).k, InputPacket(x, p).mark)
  {
    ReadPacketAgrees(x.k, p);
    InputSndKeeps(x.k.cfg, x.k.snd, p);
    if p.cmd == CMD_ACK {
      NoteAgrees(x.k.cfg, x.k.snd, x.mark, p.sn, p.ts);
    }
  }

  lemma CountSkipsAgrees(k: Kcb, m: Mark)
    requires KcbOk(k) && !k.cfg.wrap && m.Newest? && NearAck(k.snd, m.sn)
    ensures WKcb(k).(snd := ParseFastack(Wrapping(k.cfg), WSnd(k.snd), U32(m.sn), m.ts))
         == WKcb(k.(snd := ParseFastack(k.cfg, k.snd, m.sn, m.ts)))
  {
    FastackAgrees(k.cfg, k.snd, m.sn, m.ts);
  }

  lemma GrowAgrees(cfg: Config, c: Cc)
    ensures Grow(Wrapping(cfg), c) == Grow(cfg, c)
  {
  }

  lemma FinishAgrees(k: Kcb, x: Progress)
    requires k.cfg.Valid() && KcbOk(x.k) && !x.k.cfg.wrap && x.k.cfg == k.cfg && NearMark(x.k, x.mark)
    requires Near(x.k.snd.una, k.snd.una)
    ensures FinishInput(U32(k.snd.una), WProgress(x)) == WKcb(FinishInput(k.snd.una, x))
  {
    if x.mark.Newest? {
      CountSkipsAgrees(x.k, x.mark);
    }
    GrowAgrees(x.k.cfg, x.k.cc);
    DiffAgrees(x.k.snd.una, k.snd.una);
  }

  /** A segment is stale when it names a number half the circle or more behind what the endpoint
      has reached. This is the only premise: nothing can arrive from too far ahead. */
  ghost predicate NotStale(k: Kcb, p: Packet) {
    && k.snd.nxt - HALF <= p.una
    && (p.cmd == CMD_ACK ==> k.snd.nxt - HALF <= p.sn)
    && (p.cmd == CMD_PUSH ==> k.rcv.nxt + k.cfg.rcvWnd - HALF <= p.sn)
  }

  ghost predicate NoneStale(x: Progress, ps: seq<Packet>)
    decreases |ps|
  {
    ps == [] || (NotStale(x.k, ps[0]) && NoneStale(InputPacket(x, ps[0]), ps[1..]))
  }

  /** The sender runs at most its window ahead of the receiver's. */
  lemma NotTooFarAhead(cfg: Config, snd: Snd, rcvCfg: Config, rcv: Rcv)
    requires !cfg.wrap && !rcvCfg.wrap && SndOk(cfg, snd) && RcvOk(rcvCfg, rcv) && NoLoss(snd, rcv)
    ensures snd.nxt <= rcv.nxt + rcvCfg.rcvWnd + cfg.sndWnd
  {
    var i := snd.una - 1;
    if i >= 0 {
      assert Buffered(snd.buf, i) || Held(rcv, i);
      assert !Buffered(snd.buf, i);
    }
  }

  /** What the peer's side of the invariant says about the segments of one datagram. */
  ghost predicate Genuine(k: Kcb, p: Packet, peerLog: seq<Frag>, peerRcv: Rcv) {
    PacketOk(k.cfg, p) && PushOk(peerLog, p) && AckOk(peerRcv, p)
  }

  lemma GenuineIsNear(k: Kcb, p: Packet, log: seq<Frag>, peerLog: seq<Frag>, peerRcv: Rcv)
    requires Reading(k, log, peerLog, peerRcv) && Genuine(k, p, peerLog, peerRcv) && NotStale(k, p)
    requires RcvLog(log, peerRcv) && |peerLog| <= k.rcv.nxt + HALF
    ensures NearPacket(k, p)
  {
  }

  lemma {:induction false} InputPacketsAgree(x: Progress, ps: seq<Packet>, log: seq<Frag>, peerLog: seq<Frag>, peerRcv: Rcv)
    requires Reading(x.k, log, peerLog, peerRcv) && NearMark(x.k, x.mark)
    requires forall i :: 0 <= i < |ps| ==> Genuine(x.k, ps[i], peerLog, peerRcv)
    requires RcvLog(log, peerRcv) && |peerLog| <= x.k.rcv.nxt + HALF
    requires NoneStale(x, ps)
    ensures InputPackets(WProgress(x), WPackets(ps)) == WProgress(InputPackets(x, ps))
    ensures NearMark(InputPackets(x, ps).k, InputPackets(x, ps).mark)
    decreases |ps|
  {
    if ps == [] {
      assert WPackets(ps) == [];
    } else {
      GenuineIsNear(x.k, ps[0], log, peerLog, peerRcv);
      InputPacketAgrees(x, ps[0]);
      ReadPackets(x, [ps[0]], log, peerLog, peerRcv);
      var x1 := InputPacket(x, ps[0]);
      assert InputPackets(x, [ps[0]]) == InputPackets(x1, []);
      InputPacketsAgree(x1, ps[1..], log, peerLog, peerRcv);
      assert WPackets(ps)[1..] == WPackets(ps[1..]);
    }
  }

  lemma StartAgrees(k: Kcb, log: seq<Frag>, peerLog: seq<Frag>, peerRcv: Rcv)
    requires Reading(k, log, peerLog, peerRcv)
    ensures Reading(StartInput(k).k, log, peerLog, peerRcv)
    ensures StartInput(WKcb(k)) == WProgress(StartInput(k))
  {
  }

  lemma InputAgrees(k: Kcb, d: Datagram, log: seq<Frag>, peerLog: seq<Frag>, peerRcv: Rcv)
    requires Reading(k, log, peerLog, peerRcv) && RcvLog(log, peerRcv) && |peerLog| <= k.rcv.nxt + HALF
    requires forall i :: 0 <= i < |d| ==> Genuine(k, d[i], peerLog, peerRcv)
    requires NoneStale(StartInput(k), d)
    ensures Input(WKcb(k), Parsed(WPackets(d), 0)) == WKcb(Input(k, Parsed(d, 0)))
  {
    var x0 := StartInput(k);
    StartAgrees(k, log, peerLog, peerRcv);
    ReadPackets(x0, d, log, peerLog, peerRcv);
    InputPacketsKeeps(x0, d);
    InputPacketsAgree(x0, d, log, peerLog, peerRcv);
    FinishAgrees(k, InputPackets(x0, d));
  }

  /** Going through the wire format changes nothing. */
  lemma BytesAgree(k: Kcb, d: Datagram)
    requires d != [] && forall i :: 0 <= i < |d| ==> Encodable(d[i]) && d[i].conv == k.cfg.conv
    ensures InputBytes(k, DatagramBytes(d)).k == Input(k, Parsed(d, 0))
  {
    ParseOfEncode(k.cfg.conv, d);
  }

  // ----- recv -----

  lemma {:induction false} SpanAgrees(q: seq<RcvSeg>)
    ensures MessageSpan(WRSegs(q)) == MessageSpan(q) && Merge(WRSegs(q)) == Merge(q) && PeekLength(WRSegs(q)) == PeekLength(q)
  {
    if q != [] {
      assert WRSegs(q)[1..] == WRSegs(q[1..]);
      SpanAgrees(q[1..]);
    }
  }

  lemma PeekAgrees(q: seq<RcvSeg>)
    ensures PeekSize(WRSegs(q)) == PeekSize(q)
    ensures Merge(WRSegs(q)[..MessageSpan(q)]) == Merge(q[..MessageSpan(q)])
  {
    var n := MessageSpan(q);
    SpanAgrees(q);
    SpanAgrees(q[..n]);
    assert WRSegs(q)[..n] == WRSegs(q[..n]);
  }

  lemma RecvAgrees(k: Kcb, len: int)
    requires KcbOk(k) && !k.cfg.wrap
    ensures var r := Recv(k, len); Recv(WKcb(k), len) == r.(k := WKcb(r.k))
  {
    var q := k.rcv.queue;
    PeekAgrees(q);
    SpanAgrees(q);
    var n := MessageSpan(q);
    assert WRSegs(q)[n..] == WRSegs(q[n..]);
    MoveReadyAgrees(k.cfg, k.rcv.(queue := if len < 0 then q else q[n..]));
  }

  // ----- flush -----

  lemma SnocAgrees(r: seq<SndSeg>, s: SndSeg)
    ensures WSegs(r + [s]) == WSegs(r) + [WSeg(s)]
  {
  }

  lemma {:induction false} AdmitAgrees(cfg: Config, snd: Snd, window: int, now: int, rto: int)
    requires cfg.Valid() && !cfg.wrap && 0 <= window <= cfg.sndWnd && 0 <= snd.nxt - snd.una <= cfg.sndWnd
    ensures Admit(Wrapping(cfg), WSnd(snd), window, now, rto) == WSnd(Admit(cfg, snd, window, now, rto))
    decreases |snd.queue|
  {
    WindowTestAgrees(snd, window);
    if snd.nxt - (snd.una + window) < 0 && snd.queue != [] {
      AdmitOneAgrees(cfg, snd, now, rto);
      AdmitAgrees(cfg, AdmitOne(cfg, snd, now, rto), window, now, rto);
    }
  }

  lemma WindowTestAgrees(snd: Snd, window: int)
    requires Near(snd.nxt, snd.una + window)
    ensures Diff(true, U32(snd.nxt), Plus(true, U32(snd.una), window)) == snd.nxt - (snd.una + window)
  {
    PlusAgrees(snd.una, window);
    DiffAgrees(snd.nxt, snd.una + window);
  }

  lemma AdmitOneAgrees(cfg: Config, snd: Snd, now: int, rto: int)
    requires !cfg.wrap && snd.queue != []
    ensures AdmitOne(Wrapping(cfg), WSnd(snd), now, rto) == WSnd(AdmitOne(cfg, snd, now, rto))
  {
    PlusAgrees(snd.nxt, 1);
    SnocAgrees(snd.buf, SndSeg(snd.nxt, snd.queue[0], now, now, rto, 0, 0));
  }

  lemma TransmitAgrees(cfg: Config, rto: int, now: int, s: SndSeg)
    ensures var t := Transmit(cfg, rto, now, s);
            Transmit(Wrapping(cfg), rto, now, WSeg(s)) == t.(seg := WSeg(t.seg))
  {
  }

  lemma StampAgrees(k: Kcb, cmd: int, sn: int, ts: int, f: Frag)
    ensures Stamp(WKcb(k), cmd, U32(sn), ts, f) == WPacket(Stamp(k, cmd, sn, ts, f))
  {
  }

  lemma {:induction false} SendPassAgrees(k: Kcb, buf: seq<SndSeg>, n: nat)
    requires n <= |buf|
    ensures var r := SendPass(k, buf, n);
            SendPass(WKcb(k), WSegs(buf), n) == r.(pushes := WPackets(r.pushes), segs := WSegs(r.segs))
  {
    if n == 0 {
      assert WPackets([]) == [] && WSegs([]) == [];
    } else {
      SendPassAgrees(k, buf, n - 1);
      var r := SendPass(k, buf, n - 1);
      var t := Transmit(k.cfg, k.rtt.rto, k.clock.current, buf[n - 1]);
      TransmitAgrees(k.cfg, k.rtt.rto, k.clock.current, buf[n - 1]);
      StampAgrees(k, CMD_PUSH, t.seg.sn, t.seg.ts, t.seg.frag);
      assert WSegs(r.segs + [t.seg]) == WSegs(r.segs) + [WSeg(t.seg)];
      var p := Stamp(k, CMD_PUSH, t.seg.sn, t.seg.ts, t.seg.frag);
      assert WPackets(r.pushes + [p]) == WPackets(r.pushes) + [WPacket(p)];
    }
  }

  lemma ControlAgrees(k: Kcb)
    ensures ControlPackets(WKcb(k)) == WPackets(ControlPackets(k))
  {
    assert AckPackets(WKcb(k)) == WPackets(AckPackets(k));
    var p := ProbeTick(k.probe, k.cc.rmtWnd, k.clock.current);
    assert forall cmd :: ProbePacket(WKcb(k), cmd) == WPacket(ProbePacket(k, cmd));
  }

  lemma {:induction false} SizeAgrees(d: Datagram)
    ensures DatagramSize(WPackets(d)) == DatagramSize(d)
  {
    if d != [] {
      assert WPackets(d)[1..] == WPackets(d[1..]);
      SizeAgrees(d[1..]);
    }
  }

  lemma DrainAgrees(s: Staging)
    ensures Drain(Staging(WOut(s.done), WPackets(s.cur))) == WOut(Drain(s))
  {
    assert WOut(s.done + [s.cur]) == WOut(s.done) + [WPackets(s.cur)];
  }

  lemma {:induction false} StageAllAgrees(mtu: int, s: Staging, ps: seq<Packet>)
    ensures var r := StageAll(mtu, s, ps);
            StageAll(mtu, Staging(WOut(s.done), WPackets(s.cur)), WPackets(ps)) == Staging(WOut(r.done), WPackets(r.cur))
    decreases |ps|
  {
    if ps == [] {
      assert WPackets(ps) == [];
    } else {
      var p := ps[0];
      var s1 := Stage(mtu, s, p);
      SizeAgrees(s.cur);
      DrainAgrees(s);
      assert WPackets([p]) == [WPacket(p)];
      assert WPackets(s.cur + [p]) == WPackets(s.cur) + [WPacket(p)];
      assert Stage(mtu, Staging(WOut(s.done), WPackets(s.cur)), WPacket(p)) == Staging(WOut(s1.done), WPackets(s1.cur));
      assert WPackets(ps)[1..] == WPackets(ps[1..]);
      StageAllAgrees(mtu, s1, ps[1..]);
    }
  }

  lemma PackAgrees(mtu: int, ps: seq<Packet>)
    ensures Pack(mtu, WPackets(ps)) == WOut(Pack(mtu, ps))
  {
    var none: Datagram := [];
    var nil: seq<Datagram> := [];
    assert WPackets(none) == none && WOut(nil) == nil;
    StageAllAgrees(mtu, Staging([], []), ps);
    DrainAgrees(StageAll(mtu, Staging([], []), ps));
  }

  lemma AdmittedAgrees(k: Kcb)
    requires KcbOk(k) && !k.cfg.wrap
    ensures Admitted(WKcb(k)) == WSnd(Admitted(k))
  {
    AdmitAgrees(k.cfg, k.snd, SendWindow(k), k.clock.current, k.rtt.rto);
  }

  lemma FlushSndAgrees(k: Kcb)
    requires KcbOk(k) && !k.cfg.wrap
    ensures FlushState(WKcb(k)).snd == WSnd(FlushState(k).snd)
  {
    AdmittedAgrees(k);
    var snd := Admitted(k);
    SendPassAgrees(k, snd.buf, |snd.buf|);
    SndFlushed(k, snd, SendPass(k, snd.buf, |snd.buf|));
    SndFlushed(WKcb(k), WSnd(snd), SendPass(WKcb(k), WSegs(snd.buf), |snd.buf|));
  }

  lemma SndFlushed(k: Kcb, snd: Snd, r: Pass)
    requires snd == Admitted(k) && r == SendPass(k, snd.buf, |snd.buf|)
    ensures FlushState(k).snd == snd.(buf := r.segs, xmit := U32(snd.xmit + r.timeouts), dead := snd.dead || r.dead)
  {
  }

  /** Flushes that find the same losses and as much in flight leave the same window. */
  lemma SameWindow(k: Kcb, w: Kcb, a: Snd, b: Snd)
    requires w.cfg == Wrapping(k.cfg) && w.cc == k.cc && a == Admitted(k) && b == Admitted(w)
    requires var r, q := SendPass(k, a.buf, |a.buf|), SendPass(w, b.buf, |b.buf|);
             q.fasts == r.fasts && q.timeouts == r.timeouts
    requires U32(b.nxt - b.una) == U32(a.nxt - a.una)
    ensures FlushState(w).cc == FlushState(k).cc
  {
    var r := SendPass(k, a.buf, |a.buf|);
    SettleAgrees(k.cfg, k.cc, U32(a.nxt - a.una), r.fasts > 0, r.timeouts > 0);
    CcFlushed(k, a, r);
    CcFlushed(w, b, SendPass(w, b.buf, |b.buf|));
  }

  lemma CcFlushed(k: Kcb, snd: Snd, r: Pass)
    requires snd == Admitted(k) && r == SendPass(k, snd.buf, |snd.buf|)
    ensures FlushState(k).cc == Settle(k.cfg, k.cc, U32(snd.nxt - snd.una), r.fasts > 0, r.timeouts > 0)
  {
  }

  lemma InflightAgrees(snd: Snd)
    ensures U32(WSnd(snd).nxt - WSnd(snd).una) == U32(snd.nxt - snd.una)
  {
    U32Sub(snd.nxt, snd.una);
  }

  lemma FlushCcAgrees(k: Kcb)
    requires KcbOk(k) && !k.cfg.wrap
    ensures FlushState(WKcb(k)).cc == FlushState(k).cc
  {
    AdmittedAgrees(k);
    var snd := Admitted(k);
    SendPassAgrees(k, snd.buf, |snd.buf|);
    InflightAgrees(snd);
    SameWindow(k, WKcb(k), snd, WSnd(snd));
  }

  lemma FlushStateAgrees(k: Kcb)
    requires KcbOk(k) && !k.cfg.wrap
    ensures FlushState(WKcb(k)) == WKcb(FlushState(k))
  {
    FlushSndAgrees(k);
    FlushCcAgrees(k);
    assert WAcks([]) == [];
  }

  lemma SettleAgrees(cfg: Config, c: Cc, inflight: int, fast: bool, lost: bool)
    ensures Settle(Wrapping(cfg), c, inflight, fast, lost) == Settle(cfg, c, inflight, fast, lost)
  {
  }

  lemma FlushPacketsAgree(k: Kcb)
    requires KcbOk(k) && !k.cfg.wrap
    ensures FlushPackets(WKcb(k)) == WPackets(FlushPackets(k))
  {
    AdmittedAgrees(k);
    var buf := Admitted(k).buf;
    SendPassAgrees(k, buf, |buf|);
    ControlAgrees(k);
    AppendAgrees(ControlPackets(k), SendPass(k, buf, |buf|).pushes);
  }

  lemma AppendAgrees(a: seq<Packet>, b: seq<Packet>)
    ensures WPackets(a + b) == WPackets(a) + WPackets(b)
  {
  }

  lemma FlushAgrees(k: Kcb)
    requires KcbOk(k) && !k.cfg.wrap
    ensures Flush(WKcb(k)) == Flushed(WKcb(Flush(k).k), WOut(Flush(k).out))
  {
    FlushStateAgrees(k);
    FlushPacketsAgree(k);
    PackAgrees(k.cfg.mtu, FlushPackets(k));
  }

  // ----- whole runs -----

  lemma AfterFlushAgrees(me: End, f: Flushed)
    ensures AfterFlush(WEnd(me), Flushed(WKcb(f.k), WOut(f.out))) == WEnd(AfterFlush(me, f))
  {
    assert WOut(me.out + f.out) == WOut(me.out) + WOut(f.out);
  }

  lemma DeliverAgrees(me: End, peer: End, i: nat)
    requires EndOk(me) && EndOk(peer) && Flow(me, peer) && Flow(peer, me)
    requires me.k.cfg.conv == peer.k.cfg.conv && me.k.cfg.rcvWnd + peer.k.cfg.sndWnd <= HALF
    requires i < |peer.out| && NoneStale(StartInput(me.k), peer.out[i])
    ensures Act(true, WEnd(me), WEnd(peer), Deliver(i)) == WEnd(Act(false, me, peer, Deliver(i)))
  {
    var d := peer.out[i];
    DeliveredIsGenuine(me, peer, i);
    NotTooFarAhead(peer.k.cfg, peer.k.snd, me.k.cfg, me.k.rcv);
    InputAgrees(me.k, d, me.log, peer.log, peer.k.rcv);
    BytesAgree(WKcb(me.k), WPackets(d));
    DeliverActs(me, peer, i);
  }

  lemma DeliverActs(me: End, peer: End, i: nat)
    requires i < |peer.out|
    requires InputBytes(WKcb(me.k), DatagramBytes(WPackets(peer.out[i]))).k == WKcb(Input(me.k, Parsed(peer.out[i], 0)))
    ensures Act(true, WEnd(me), WEnd(peer), Deliver(i)) == WEnd(Act(false, me, peer, Deliver(i)))
  {
    assert WEnd(peer).out[i] == WPackets(peer.out[i]);
  }

  /** What a datagram in flight can be relied on for, and that it fits the wire format once wrapped. */
  lemma DeliveredIsGenuine(me: End, peer: End, i: nat)
    requires EndOk(peer) && Flow(me, peer) && Flow(peer, me) && !me.k.cfg.wrap
    requires me.k.cfg.conv == peer.k.cfg.conv && i < |peer.out|
    ensures var d := peer.out[i];
            && d != [] && (forall j :: 0 <= j < |d| ==> Genuine(me.k, d[j], peer.log, peer.k.rcv))
            && forall j :: 0 <= j < |d| ==> Encodable(WPackets(d)[j]) && WPackets(d)[j].conv == me.k.cfg.conv
  {
    var d := peer.out[i];
    forall j | 0 <= j < |d|
      ensures Genuine(me.k, d[j], peer.log, peer.k.rcv) && Encodable(WPackets(d)[j]) && WPackets(d)[j].conv == me.k.cfg.conv
    {
      assert InTransit(peer.k.cfg, peer.out[i][j]);
    }
  }

  ghost predicate FreshCall(me: End, peer: End, c: Call) {
    c.Deliver? && c.i < |peer.out| ==> NoneStale(StartInput(me.k), peer.out[c.i])
  }

  lemma RecvCallAgrees(me: End, peer: End, len: int)
    requires EndOk(me)
    ensures Act(true, WEnd(me), WEnd(peer), RecvCall(len)) == WEnd(Act(false, me, peer, RecvCall(len)))
  {
    RecvAgrees(me.k, len);
  }

  lemma FlushCallAgrees(me: End, peer: End)
    requires EndOk(me)
    ensures Act(true, WEnd(me), WEnd(peer), FlushCall) == WEnd(Act(false, me, peer, FlushCall))
  {
    FlushAgrees(me.k);
    AfterFlushAgrees(me, Flush(me.k));
  }

  lemma UpdateCallAgrees(me: End, peer: End, now: Time)
    requires EndOk(me)
    ensures Act(true, WEnd(me), WEnd(peer), UpdateCall(now)) == WEnd(Act(false, me, peer, UpdateCall(now)))
  {
    UpdateAgrees(me.k, now);
    AfterFlushAgrees(me, Update(me.k, now));
  }

  lemma ActAgrees(me: End, peer: End, c: Call)
    requires EndOk(me) && EndOk(peer) && Flow(me, peer) && Flow(peer, me)
    requires me.k.cfg.conv == peer.k.cfg.conv && me.k.cfg.rcvWnd + peer.k.cfg.sndWnd <= HALF
    requires FreshCall(me, peer, c)
    ensures Act(true, WEnd(me), WEnd(peer), c) == WEnd(Act(false, me, peer, c))
  {
    match c
    case SendCall(data) => SendAgrees(me, peer, data);
    case RecvCall(len) => RecvCallAgrees(me, peer, len);
    case FlushCall => FlushCallAgrees(me, peer);
    case UpdateCall(now) => UpdateCallAgrees(me, peer, now);
    case Deliver(i) =>
      if i < |peer.out| {
        DeliverAgrees(me, peer, i);
      }
  }

  lemma SendAgrees(me: End, peer: End, data: Bytes)
    ensures Act(true, WEnd(me), WEnd(peer), SendCall(data)) == WEnd(Act(false, me, peer, SendCall(data)))
  {
    assert Send(Wrapping(me.k.cfg), me.k.snd.queue, data) == Send(me.k.cfg, me.k.snd.queue, data);
  }

  lemma UpdateAgrees(k: Kcb, now: Time)
    requires KcbOk(k) && !k.cfg.wrap
    ensures Update(WKcb(k), now) == Flushed(WKcb(Update(k, now).k), WOut(Update(k, now).out))
  {
    var t := TickClock(k.cfg, k.clock, now);
    assert TickClock(Wrapping(k.cfg), k.clock, now) == t;
    var k1 := k.(clock := t.clock);
    assert WKcb(k).(clock := t.clock) == WKcb(k1);
    FlushAgrees(k1);
    var nil: seq<Datagram> := [];
    assert WOut(nil) == nil;
  }

  /** No delivery in the run is stale, judged by the unbounded numbers. */
  ghost predicate FreshRun(s: Sys, es: seq<Event>)
    decreases |es|
  {
    es == [] ||
    (var t := Run(false, s, es[..|es| - 1]);
     && FreshRun(s, es[..|es| - 1])
     && match es[|es| - 1]
        case AtA(c) => FreshCall(t.a, t.b, c)
        case AtB(c) => FreshCall(t.b, t.a, c))
  }

  ghost predicate Compatible(ca: Config, cb: Config) {
    && ca.Valid() && cb.Valid() && !ca.wrap && !cb.wrap && ca.conv == cb.conv
    && ca.rcvWnd + cb.sndWnd <= HALF && cb.rcvWnd + ca.sndWnd <= HALF
  }

  /** The 32-bit endpoints over raw bytes simulate the unbounded ones, step for step. */
  lemma {:induction false} WrappingRefinesUnbounded(ca: Config, cb: Config, es: seq<Event>)
    requires Compatible(ca, cb) && FreshRun(Init(ca, cb), es)
    ensures Run(true, Init(Wrapping(ca), Wrapping(cb)), es) == WSys(Run(false, Init(ca, cb), es))
    decreases |es|
  {
    if es == [] {
      assert WSegs([]) == [] && WRSegs([]) == [] && WAcks([]) == [];
      var nil: seq<Datagram> := [];
      assert WOut(nil) == nil;
    } else {
      var es1 := es[..|es| - 1];
      WrappingRefinesUnbounded(ca, cb, es1);
      RunKeeps(ca, cb, es1);
      RunConfig(Init(ca, cb), es1);
      var s := Run(false, Init(ca, cb), es1);
      match es[|es| - 1]
      case AtA(c) => ActAgrees(s.a, s.b, c);
      case AtB(c) => ActAgrees(s.b, s.a, c);
    }
  }

  /** End-to-end safety of the real endpoints: 32-bit numbers, raw bytes on the wire. */
  lemma WrappedEndToEndSafety(ca: Config, cb: Config, es: seq<Event>)
    requires Compatible(ca, cb) && FreshRun(Init(ca, cb), es)
    ensures var s := Run(true, Init(Wrapping(ca), Wrapping(cb)), es);
            PrefixDelivered(s.a, s.b) && PrefixDelivered(s.b, s.a)
  {
    WrappingRefinesUnbounded(ca, cb, es);
    EndToEndSafety(ca, cb, es);
  }

  // ----- a premise that can be counted -----

  /** While the numbers on either side stay within half the circle, nothing genuine can be stale. */
  lemma {:induction false} NeverStale(x: Progress, ps: seq<Packet>, log: seq<Frag>, peerLog: seq<Frag>, peerRcv: Rcv)
    requires Reading(x.k, log, peerLog, peerRcv) && forall i :: 0 <= i < |ps| ==> Genuine(x.k, ps[i], peerLog, peerRcv)
    requires |log| <= HALF && |peerLog| + x.k.cfg.rcvWnd <= HALF
    ensures NoneStale(x, ps)
    decreases |ps|
  {
    if ps != [] {
      ReadPackets(x, [ps[0]], log, peerLog, peerRcv);
      var x1 := InputPacket(x, ps[0]);
      assert InputPackets(x, [ps[0]]) == InputPackets(x1, []);
      NeverStale(x1, ps[1..], log, peerLog, peerRcv);
    }
  }

  lemma FreshCallByCount(me: End, peer: End, c: Call)
    requires Linked(me, peer) && EndOk(peer) && me.k.cfg.conv == peer.k.cfg.conv
    requires |me.log| <= HALF && |peer.log| + me.k.cfg.rcvWnd <= HALF
    ensures FreshCall(me, peer, c)
  {
    if c.Deliver? && c.i < |peer.out| {
      DeliveredIsGenuine(me, peer, c.i);
      StartAgrees(me.k, me.log, peer.log, peer.k.rcv);
      NeverStale(StartInput(me.k), peer.out[c.i], me.log, peer.log, peer.k.rcv);
    }
  }

  /** Numbers given out are never taken back. */
  lemma LogGrows(bytes: bool, s: Sys, e: Event)
    ensures |Step(bytes, s, e).a.log| >= |s.a.log| && |Step(bytes, s, e).b.log| >= |s.b.log|
  {
  }

  /** Neither side has numbered more than half the circle less the other's receive window. */
  ghost predicate ShortRun(ca: Config, cb: Config, es: seq<Event>) {
    var s := Run(true, Init(Wrapping(ca), Wrapping(cb)), es);
    |s.a.log| + cb.rcvWnd <= HALF && |s.b.log| + ca.rcvWnd <= HALF
  }

  /** A run of the 32-bit endpoints in which neither side has numbered that many segments is fresh, whatever
      the network does. */
  lemma {:induction false} ShortRunIsFresh(ca: Config, cb: Config, es: seq<Event>)
    requires Compatible(ca, cb) && ShortRun(ca, cb, es)
    ensures FreshRun(Init(ca, cb), es)
    decreases |es|
  {
    if es != [] {
      var front, e := es[..|es| - 1], es[|es| - 1];
      LogGrows(true, Run(true, Init(Wrapping(ca), Wrapping(cb)), front), e);
      ShortRunIsFresh(ca, cb, front);
      WrappingRefinesUnbounded(ca, cb, front);
      RunKeeps(ca, cb, front);
      RunConfig(Init(ca, cb), front);
      var t := Run(false, Init(ca, cb), front);
      match e
      case AtA(c) => FreshCallByCount(t.a, t.b, c);
      case AtB(c) => FreshCallByCount(t.b, t.a, c);
    }
  }

  /** End-to-end safety of the 32-bit endpoints with no assumption on the network, as long as neither side
      has numbered 2^31 segments less the other's receive window. */
  lemma ShortRunSafety(ca: Config, cb: Config, es: seq<Event>)
    requires Compatible(ca, cb) && ShortRun(ca, cb, es)
    ensures var s := Run(true, Init(Wrapping(ca), Wrapping(cb)), es);
            PrefixDelivered(s.a, s.b) && PrefixDelivered(s.b, s.a)
  {
    ShortRunIsFresh(ca, cb, es);
    WrappedEndToEndSafety(ca, cb, es);
  }

  // ----- the other guarantees, of the real endpoints -----

  /** `n` segments have come in line at `y`: its next number is `n` wrapped, and its queue is the end of
      the first `n` fragments `x` ever numbered. */
  ghost predicate InLine(x: End, y: End, n: int) {
    var q := y.k.rcv.queue;
    && |q| <= n <= |x.log| && y.k.rcv.nxt == U32(n)
    && forall j :: 0 <= j < |q| ==> q[j].frag == x.log[n - |q| + j]
  }

  /** Fragment `i` is buffered by its sender, or out of order at the receiver, or already in line. */
  ghost predicate Accounted(x: End, y: End, n: int, i: int)
    requires 0 <= i < |x.log|
  {
    || i < n
    || (exists j :: 0 <= j < |x.k.snd.buf| && x.k.snd.buf[j].sn == U32(i) && x.k.snd.buf[j].frag == x.log[i])
    || (exists j :: 0 <= j < |y.k.rcv.buf| && y.k.rcv.buf[j] == RcvSeg(U32(i), x.log[i]))
  }

  /** Nothing `x` ever numbered is lost on the way to `y`. */
  ghost predicate Safe(x: End, y: End, n: int) {
    InLine(x, y, n) && forall i :: 0 <= i < |x.log| ==> Accounted(x, y, n, i)
  }

  lemma FlowAccounts(x: End, y: End)
    requires Flow(x, y)
    ensures Safe(WEnd(x), WEnd(y), y.k.rcv.nxt)
  {
    var n := y.k.rcv.nxt;
    forall i | 0 <= i < |x.log| ensures Accounted(WEnd(x), WEnd(y), n, i) {
      assert Buffered(x.k.snd.buf, i) || Held(y.k.rcv, i);
      if j :| 0 <= j < |x.k.snd.buf| && x.k.snd.buf[j].sn == i {
        assert WEnd(x).k.snd.buf[j] == WSeg(x.k.snd.buf[j]);
      } else if i >= n {
        var j :| 0 <= j < |y.k.rcv.buf| && y.k.rcv.buf[j].sn == i;
        assert WEnd(y).k.rcv.buf[j] == WRSeg(y.k.rcv.buf[j]);
      }
    }
  }

  /** No loss, in every fresh run of the 32-bit endpoints, in both directions. */
  lemma WrappedNothingLost(ca: Config, cb: Config, es: seq<Event>)
    requires Compatible(ca, cb) && FreshRun(Init(ca, cb), es)
    ensures var s := Run(true, Init(Wrapping(ca), Wrapping(cb)), es);
            (exists n :: Safe(s.a, s.b, n)) && (exists n :: Safe(s.b, s.a, n))
  {
    WrappingRefinesUnbounded(ca, cb, es);
    RunKeeps(ca, cb, es);
    var s := Run(false, Init(ca, cb), es);
    FlowAccounts(s.a, s.b);
    FlowAccounts(s.b, s.a);
  }

  /** What `y` said in a segment is true of `y` by the comparison the code itself makes: its cumulative
      acknowledgement is not ahead of what is in line, and its ACK names a segment behind that or held. */
  ghost predicate Truthful(y: End, p: Packet) {
    && TimeDiff(p.una, y.k.rcv.nxt) <= 0
    && (p.cmd == CMD_ACK ==>
          TimeDiff(p.sn, y.k.rcv.nxt) < 0 || exists j :: 0 <= j < |y.k.rcv.buf| && y.k.rcv.buf[j].sn == p.sn)
  }

  lemma AckOkIsTruthful(x: End, y: End, p: Packet)
    requires SndLog(x.log, x.k.snd) && RcvLog(x.log, y.k.rcv) && AckOk(y.k.rcv, p) && NotStale(x.k, p)
    ensures Truthful(WEnd(y), WPacket(p))
  {
    DiffAgrees(p.una, y.k.rcv.nxt);
    if p.cmd == CMD_ACK {
      if p.sn < y.k.rcv.nxt {
        DiffAgrees(p.sn, y.k.rcv.nxt);
      } else {
        var j :| 0 <= j < |y.k.rcv.buf| && y.k.rcv.buf[j].sn == p.sn;
        assert WEnd(y).k.rcv.buf[j] == WRSeg(y.k.rcv.buf[j]);
      }
    }
  }

  /** Every segment `y` ever emitted that would not be stale at `x` now, as the wire carries it, is true. */
  ghost predicate AllTruthful(x: End, y: End, w: End) {
    forall i, j :: 0 <= i < |y.out| && 0 <= j < |y.out[i]| && NotStale(x.k, y.out[i][j]) ==>
      Truthful(w, WPacket(y.out[i][j]))
  }

  lemma FlowIsTruthful(x: End, y: End)
    requires Flow(x, y)
    ensures AllTruthful(x, y, WEnd(y))
  {
    forall i, j | 0 <= i < |y.out| && 0 <= j < |y.out[i]| && NotStale(x.k, y.out[i][j])
      ensures Truthful(WEnd(y), WPacket(y.out[i][j]))
    {
      assert AckOk(y.k.rcv, y.out[i][j]);
      AckOkIsTruthful(x, y, y.out[i][j]);
    }
  }

  /** Acknowledged implies held, in every fresh run `s` of the 32-bit endpoints beside the unbounded run `t`:
      what is in flight is what `t` has in flight, wrapped, and every segment of it that is not stale says,
      by 32-bit comparison, only what is true of the endpoint that sent it. */
  lemma WrappedAckedIsHeld(ca: Config, cb: Config, es: seq<Event>)
    requires Compatible(ca, cb) && FreshRun(Init(ca, cb), es)
    ensures var t := Run(false, Init(ca, cb), es); var s := Run(true, Init(Wrapping(ca), Wrapping(cb)), es);
            && s.a.out == WOut(t.a.out) && s.b.out == WOut(t.b.out)
            && AllTruthful(t.b, t.a, s.a) && AllTruthful(t.a, t.b, s.b)
  {
    WrappingRefinesUnbounded(ca, cb, es);
    RunKeeps(ca, cb, es);
    var t := Run(false, Init(ca, cb), es);
    FlowIsTruthful(t.b, t.a);
    FlowIsTruthful(t.a, t.b);
  }

  lemma ReadableAgrees(x: End, y: End)
    requires Readable(x, y)
    ensures Readable(WEnd(x), WEnd(y))
  {
    PeekAgrees(y.k.rcv.queue);
  }

  /** Reassembly never sticks in a fresh run of the 32-bit endpoints. */
  lemma WrappedReassembly(ca: Config, cb: Config, es: seq<Event>)
    requires Compatible(ca, cb) && FreshRun(Init(ca, cb), es)
    ensures var s := Run(true, Init(Wrapping(ca), Wrapping(cb)), es);
            (!ca.stream ==> Readable(s.a, s.b)) && (!cb.stream ==> Readable(s.b, s.a))
  {
    WrappingRefinesUnbounded(ca, cb, es);
    ReassemblyNeverSticks(ca, cb, es);
    var s := Run(false, Init(ca, cb), es);
    if !ca.stream { ReadableAgrees(s.a, s.b); }
    if !cb.stream { ReadableAgrees(s.b, s.a); }
  }

  // ----- staleness -----

  /** A cumulative acknowledgement frees the oldest segment exactly when it compares as newer. */
  lemma FreesHead(cfg: Config, snd: Snd, una: int)
    requires snd.buf != []
    ensures |ParseUna(cfg, snd, una).buf| < |snd.buf| <==> Diff(cfg.wrap, una, snd.buf[0].sn) > 0
  {
    var n := ParseUnaDrops(cfg, snd, una);
  }

  predicate FreesAny(cfg: Config, snd: Snd, una: int) { |ParseUna(cfg, snd, una).buf| < |snd.buf| }

  /** The signed comparison of wrapped numbers, at any distance. */
  lemma WrappedSign(x: int, y: int)
    ensures TimeDiff(U32(x), U32(y)) > 0 <==> 0 < U32(x - y) < HALF
    ensures TimeDiff(U32(x), U32(y)) < 0 <==> HALF <= U32(x - y)
  {
    U32Sub(x, y);
  }

  /** Why staleness matters: a 32-bit endpoint and an unbounded one agree on whether a cumulative
      acknowledgement frees anything exactly when it lies, modulo 2^32, on the side of the oldest segment
      it really is on. Less than a circle away that means less than half the circle away. */
  lemma AgreesUnlessStale(cfg: Config, snd: Snd, una: int)
    requires !cfg.wrap && snd.buf != []
    ensures var d := una - snd.buf[0].sn; var agree := FreesAny(Wrapping(cfg), WSnd(snd), U32(una)) == FreesAny(cfg, snd, una);
            && (agree <==> (d > 0 <==> 0 < U32(d) < HALF))
            && (-M32 < d < M32 ==> (agree <==> -HALF <= d < HALF))
  {
    WrappedSign(una, snd.buf[0].sn);
    FreesHead(cfg, snd, una);
    FreesHead(Wrapping(cfg), WSnd(snd), U32(una));
  }

  /** An acknowledgement more than half the circle late frees a segment that is still owed. */
  lemma StaleUnaFreesData(cfg: Config, snd: Snd, una: int)
    requires !cfg.wrap && snd.buf != []
    requires HALF < snd.buf[0].sn - una < M32
    ensures ParseUna(cfg, snd, una) == snd && FreesAny(Wrapping(cfg), WSnd(snd), U32(una))
  {
    FreesHead(cfg, snd, una);
    AgreesUnlessStale(cfg, snd, una);
  }

  /** The window-end test of the push path is judged alike exactly when the number lies, modulo 2^32, on the
      side of the window's end it really is on. Less than a circle away that means less than half of it. */
  lemma WindowEndAgreesIff(cfg: Config, rcv: Rcv, sn: int)
    requires !cfg.wrap
    ensures var d := sn - (rcv.nxt + cfg.rcvWnd);
            var agree := BelowWindowEnd(Wrapping(cfg), WRcv(rcv), U32(sn)) == BelowWindowEnd(cfg, rcv, sn);
            && (agree <==> (d < 0 <==> HALF <= U32(d)))
            && (-M32 < d < M32 ==> (agree <==> -HALF <= d < HALF))
  {
    PlusAgrees(rcv.nxt, cfg.rcvWnd);
    WrappedSign(sn, rcv.nxt + cfg.rcvWnd);
  }

  /** The range test in front of an ACK passes, with 32-bit numbers, exactly for the numbers congruent to
      one in flight. */
  lemma InFlightIsCongruent(cfg: Config, snd: Snd, sn: int)
    requires !cfg.wrap && 0 <= snd.nxt - snd.una < HALF
    ensures InFlight(Wrapping(cfg), WSnd(snd), U32(sn)) <==> U32(sn - snd.una) < snd.nxt - snd.una
  {
    U32Sub(sn, snd.una);
    U32Sub(sn, snd.nxt);
    U32Sub(sn - snd.una, snd.nxt - snd.una);
  }

  /** An ACK's range test is judged alike if and only if its number is in flight or congruent to none that is. */
  lemma InFlightAgreesIff(cfg: Config, snd: Snd, sn: int)
    requires !cfg.wrap && 0 <= snd.nxt - snd.una < HALF
    ensures InFlight(Wrapping(cfg), WSnd(snd), U32(sn)) == InFlight(cfg, snd, sn)
            <==> (snd.una <= sn < snd.nxt || U32(sn - snd.una) >= snd.nxt - snd.una)
  {
    InFlightIsCongruent(cfg, snd, sn);
  }

  /** A data segment one whole circle late is taken by the 32-bit receiver as the next in line, when its
      queue has room, and left alone by the unbounded one. */
  lemma StalePushIsTaken(cfg: Config, rcv: Rcv, p: Packet)
    requires cfg.Valid() && !cfg.wrap && RcvOk(cfg, rcv) && rcv.buf == [] && |rcv.queue| < cfg.rcvWnd
    requires p.cmd == CMD_PUSH && p.sn == rcv.nxt - M32
    ensures var r := InputRcv(cfg, rcv, p); r == rcv.(acks := r.acks)
    ensures var w := InputRcv(Wrapping(cfg), WRcv(rcv), WPacket(p));
            && w.nxt == U32(rcv.nxt + 1)
            && w.queue == WRSegs(rcv.queue) + [RcvSeg(U32(rcv.nxt), Frag(p.frg, p.data))]
  {
    var nxt := U32(rcv.nxt);
    U32Shift(rcv.nxt, 1);
    assert U32(p.sn) == nxt;
    TakesNext(Wrapping(cfg), WRcv(rcv), WPacket(p));
    U32Add(rcv.nxt, 1);
  }

  /** The segment next in line goes straight to an empty buffer's queue. */
  lemma TakesNext(cfg: Config, rcv: Rcv, p: Packet)
    requires cfg.Valid() && InRange(cfg.wrap, rcv.nxt) && rcv.buf == [] && |rcv.queue| < cfg.rcvWnd
    requires p.cmd == CMD_PUSH && p.sn == rcv.nxt
    ensures var s := RcvSeg(p.sn, Frag(p.frg, p.data));
            InputRcv(cfg, rcv, p) == Rcv(Plus(cfg.wrap, rcv.nxt, 1), [], rcv.queue + [s], rcv.acks + [Ack(p.sn, p.ts)])
  {
    WindowTests(cfg, rcv, p.sn);
    OffZero(cfg.wrap, rcv.nxt, rcv.nxt);
    var s := RcvSeg(p.sn, Frag(p.frg, p.data));
    var rcv1 := rcv.(acks := rcv.acks + [Ack(p.sn, p.ts)]);
    assert Insert(cfg, rcv1.buf, s) == [s];
    var rcv2 := Rcv(Plus(cfg.wrap, rcv.nxt, 1), [], rcv.queue + [s], rcv1.acks);
    assert [s][1..] == [];
    assert MoveReady(cfg, rcv2) == rcv2;
  }
}
