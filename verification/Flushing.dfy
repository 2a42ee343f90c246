/** What one flush says to the peer, told without the code that assembles it: the pending
    acknowledgements in order, then a window probe and a window report if called for, then every
    segment that is due, in buffer order. */
module Flushing {
  import opened Serial
  import opened Wire
  import opened Control
  import opened Structure

  datatype Item = AckItem(sn: int, ts: int) | AskItem | TellItem | DataItem(sn: int, frag: Frag)

  /** What the peer reads in a segment. */
  function ItemOf(p: Packet): Item {
    if p.cmd == CMD_ACK then AckItem(p.sn, p.ts)
    else if p.cmd == CMD_WASK then AskItem
    else if p.cmd == CMD_WINS then TellItem
    else DataItem(p.sn, Frag(p.frg, p.data))
  }

  function Items(ps: seq<Packet>): (r: seq<Item>)
    ensures |r| == |ps| && forall i :: 0 <= i < |r| ==> r[i] == ItemOf(ps[i])
  {
    seq(|ps|, i requires 0 <= i < |ps| => ItemOf(ps[i]))
  }

  lemma ItemsAppend(a: seq<Packet>, b: seq<Packet>)
    ensures Items(a + b) == Items(a) + Items(b)
  {
  }

  /** Never sent, timed out, or skipped often enough and not retransmitted too often. */
  predicate Due(cfg: Config, now: int, s: SndSeg) {
    || s.xmit == 0
    || TimeDiff(now, s.resendts) >= 0
    || (s.fastack >= ResendAfter(cfg) && (cfg.fastlimit <= 0 || I32(s.xmit) <= cfg.fastlimit))
  }

  /** The due segments of a buffer, in order. */
  function DueItems(cfg: Config, now: int, buf: seq<SndSeg>): seq<Item> {
    if buf == [] then []
    else
      var last := buf[|buf| - 1];
      DueItems(cfg, now, buf[..|buf| - 1]) + if Due(cfg, now, last) then [DataItem(last.sn, last.frag)] else []
  }

  /** A probe is called for on request, or when the peer's window has been closed up to the probe time. */
  predicate AskDue(k: Kcb) {
    k.probe.ask || (k.cc.rmtWnd == 0 && k.probe.wait != 0 && TimeDiff(k.clock.current, k.probe.ts) >= 0)
  }

  function AckItems(acks: seq<Ack>): (r: seq<Item>)
    ensures |r| == |acks| && forall i :: 0 <= i < |r| ==> r[i] == AckItem(acks[i].sn, acks[i].ts)
  {
    seq(|acks|, i requires 0 <= i < |acks| => AckItem(acks[i].sn, acks[i].ts))
  }

  /** Everything a flush should say, in order. */
  function Agenda(k: Kcb): seq<Item> {
    AckItems(k.rcv.acks)
    + (if AskDue(k) then [AskItem] else [])
    + (if k.probe.tell then [TellItem] else [])
    + DueItems(k.cfg, k.clock.current, Admitted(k).buf)
  }

  /** One segment is sent exactly when it is due, with the number and fragment it always had. */
  lemma SentIffDue(cfg: Config, rto: int, now: int, s: SndSeg)
    ensures var t := Transmit(cfg, rto, now, s);
            (t.send <==> Due(cfg, now, s)) && t.seg.sn == s.sn && t.seg.frag == s.frag
  {
  }

  lemma {:induction false} PassSendsDue(k: Kcb, buf: seq<SndSeg>, n: nat)
    requires n <= |buf|
    ensures Items(SendPass(k, buf, n).pushes) == DueItems(k.cfg, k.clock.current, buf[..n])
  {
    if n > 0 {
      PassSendsDue(k, buf, n - 1);
      SentIffDue(k.cfg, k.rtt.rto, k.clock.current, buf[n - 1]);
      assert buf[..n][..n - 1] == buf[..n - 1];
      var t := Transmit(k.cfg, k.rtt.rto, k.clock.current, buf[n - 1]);
      ItemsAppend(SendPass(k, buf, n - 1).pushes,
                  if t.send then [Stamp(k, CMD_PUSH, t.seg.sn, t.seg.ts, t.seg.frag)] else []);
    }
  }

  lemma ControlSays(k: Kcb)
    ensures Items(ControlPackets(k))
         == AckItems(k.rcv.acks) + (if AskDue(k) then [AskItem] else []) + (if k.probe.tell then [TellItem] else [])
  {
    var t := ProbeTick(k.probe, k.cc.rmtWnd, k.clock.current);
    var ask := if t.ask then [ProbePacket(k, CMD_WASK)] else [];
    var tell := if t.tell then [ProbePacket(k, CMD_WINS)] else [];
    ItemsAppend(AckPackets(k) + ask, tell);
    ItemsAppend(AckPackets(k), ask);
    assert Items(AckPackets(k)) == AckItems(k.rcv.acks);
    assert t.ask == AskDue(k) && t.tell == k.probe.tell;
  }

  /** A flush says exactly what is on its agenda, and the peer's decode loop, run over the bytes of its
      datagrams, reads exactly that. */
  lemma FlushSaysAgenda(k: Kcb)
    requires KcbOk(k) && k.clock.updated
    ensures Items(Concat(Flush(k).out)) == Agenda(k)
    ensures k.cfg.wrap ==> Items(ParseEach(k.cfg.conv, EncodeEach(Flush(k).out))) == Agenda(k)
  {
    var buf := Admitted(k).buf;
    FlushRoundTrip(k);
    ControlSays(k);
    PassSendsDue(k, buf, |buf|);
    assert buf[..|buf|] == buf;
    ItemsAppend(ControlPackets(k), SendPass(k, buf, |buf|).pushes);
  }

  // ----- which segments a flush numbers -----

  /** `n` segments in flight fit every window in force. */
  predicate FitsWindows(k: Kcb, n: int) {
    n <= k.cfg.sndWnd && n <= k.cc.rmtWnd && (k.cfg.nocwnd || n <= k.cc.cwnd)
  }

  /** A newly numbered segment: the fragment and the number `i` places on from `snd`. */
  ghost predicate NewSeg(cfg: Config, snd: Snd, s: SndSeg, i: int) {
    && 0 <= i < |snd.queue| && s.frag == snd.queue[i] && s.xmit == 0
    && Off(cfg.wrap, s.sn, snd.una) == Off(cfg.wrap, snd.nxt, snd.una) + i
  }

  /** `more` segments were numbered on from `snd`, the fragments at the front of its queue in order. */
  ghost predicate Numbers(cfg: Config, snd: Snd, snd': Snd, more: nat) {
    && more <= |snd.queue| && snd'.queue == snd.queue[more..] && snd'.una == snd.una
    && |snd'.buf| == |snd.buf| + more && snd.buf <= snd'.buf
    && Off(cfg.wrap, snd'.nxt, snd.una) == Off(cfg.wrap, snd.nxt, snd.una) + more
    && forall j :: |snd.buf| <= j < |snd'.buf| ==> NewSeg(cfg, snd, snd'.buf[j], j - |snd.buf|)
  }

  lemma {:induction false} AdmitNumbers(cfg: Config, snd: Snd, window: int, now: int, rto: int) returns (more: nat)
    requires cfg.Valid() && SndOk(cfg, snd) && 0 <= window <= cfg.sndWnd && 0 <= now < M32
    ensures Numbers(cfg, snd, Admit(cfg, snd, window, now, rto), more)
    ensures more > 0 ==> Off(cfg.wrap, snd.nxt, snd.una) + more <= window
    ensures more < |snd.queue| ==> Off(cfg.wrap, snd.nxt, snd.una) + more >= window
    decreases |snd.queue|
  {
    more := 0;
    RoomLeft(cfg, snd, window);
    if Diff(cfg.wrap, snd.nxt, Plus(cfg.wrap, snd.una, window)) < 0 && snd.queue != [] {
      var one := AdmitOne(cfg, snd, now, rto);
      AdmitOneKeeps(cfg, snd, now, rto);
      var m := AdmitNumbers(cfg, one, window, now, rto);
      more := m + 1;
      NumbersOn(cfg, snd, now, rto, Admit(cfg, snd, window, now, rto), m);
    }
  }

  lemma NumbersOn(cfg: Config, snd: Snd, now: int, rto: int, snd': Snd, m: nat)
    requires snd.queue != [] && Numbers(cfg, AdmitOne(cfg, snd, now, rto), snd', m)
    requires Off(cfg.wrap, AdmitOne(cfg, snd, now, rto).nxt, snd.una) == Off(cfg.wrap, snd.nxt, snd.una) + 1
    ensures Numbers(cfg, snd, snd', m + 1)
  {
    var one := AdmitOne(cfg, snd, now, rto);
    assert snd.buf <= one.buf;
    forall j | |snd.buf| <= j < |snd'.buf| ensures NewSeg(cfg, snd, snd'.buf[j], j - |snd.buf|) {
      if j == |snd.buf| {
        assert snd'.buf[j] == one.buf[j];
      } else {
        assert NewSeg(cfg, one, snd'.buf[j], j - |one.buf|);
      }
    }
  }

  /** A flush numbers as many queued segments as the send window, the peer's window and, unless it is turned
      off, the congestion window allow: none beyond, and none left behind while there is room. */
  lemma FlushNumbers(k: Kcb) returns (more: nat)
    requires KcbOk(k)
    ensures Numbers(k.cfg, k.snd, Admitted(k), more)
    ensures var n := Off(k.cfg.wrap, k.snd.nxt, k.snd.una) + more;
            (more > 0 ==> FitsWindows(k, n)) && (more < |k.snd.queue| ==> !FitsWindows(k, n + 1))
  {
    more := AdmitNumbers(k.cfg, k.snd, SendWindow(k), k.clock.current, k.rtt.rto);
  }

  // ----- what a flush does to each buffered segment -----

  predicate TimedOut(now: int, s: SndSeg) { s.xmit != 0 && TimeDiff(now, s.resendts) >= 0 }

  /** Skipped often enough to be sent again before its time. */
  predicate FastDue(cfg: Config, now: int, s: SndSeg) { s.xmit != 0 && !TimedOut(now, s) && Due(cfg, now, s) }

  /** How a timeout of `was` grows: by the larger of it and the estimate, by half, or by half the estimate. */
  ghost predicate BackedOff(cfg: Config, rto: int, was: int, rto': int) {
    if cfg.nodelay == 0 then rto' == was + if was > rto then was else rto
    else
      var base := if cfg.nodelay == 1 then was else rto;
      2 * (rto' - was) <= base < 2 * (rto' - was) + 2
  }

  /** The first transmission waits for the estimate, an eighth longer unless in fast mode. */
  ghost predicate SentFirst(cfg: Config, rto: int, now: int, s: SndSeg, s': SndSeg) {
    var extra := U32(s'.resendts - U32(now + rto));
    && s' == s.(xmit := 1, ts := now, rto := rto, resendts := s'.resendts) && 0 <= s'.resendts < M32
    && if cfg.nodelay == 0 then 8 * extra <= rto < 8 * extra + 8 else extra == 0
  }

  /** A timeout backs off. */
  ghost predicate SentLate(cfg: Config, rto: int, now: int, s: SndSeg, s': SndSeg) {
    && s' == s.(xmit := U32(s.xmit + 1), ts := now, rto := s'.rto, resendts := U32(now + s'.rto))
    && (0 <= s.rto < 0x4000_0000 ==> BackedOff(cfg, rto, s.rto, s'.rto))
  }

  /** A fast retransmission keeps its timeout and starts counting skips again. */
  ghost predicate SentFast(now: int, s: SndSeg, s': SndSeg) {
    s' == s.(xmit := U32(s.xmit + 1), ts := now, resendts := U32(now + s.rto), fastack := 0)
  }

  /** What becomes of a buffered segment: nothing unless it is due. */
  ghost predicate Resent(cfg: Config, rto: int, now: int, s: SndSeg, s': SndSeg) {
    if s.xmit == 0 then SentFirst(cfg, rto, now, s, s')
    else if TimedOut(now, s) then SentLate(cfg, rto, now, s, s')
    else if FastDue(cfg, now, s) then SentFast(now, s, s')
    else s' == s
  }

  lemma BacksOff(cfg: Config, rto: int, was: int)
    requires cfg.Valid() && 0 < rto <= RTO_MAX && 0 <= was < 0x4000_0000
    ensures BackedOff(cfg, rto, was, Backoff(cfg, rto, was))
  {
    assert I32(was) == was;
    assert Max(was, rto) < HALF;
  }

  lemma SendsFirst(cfg: Config, rto: int, now: Time, s: SndSeg)
    requires s.xmit == 0 && 0 < rto <= RTO_MAX
    ensures SentFirst(cfg, rto, now, s, Transmit(cfg, rto, now, s).seg)
  {
    var extra := if cfg.nodelay == 0 then rto / 8 else 0;
    U32Sub(now + rto + extra, now + rto);
  }

  lemma TransmitResends(cfg: Config, rto: int, now: Time, s: SndSeg)
    requires cfg.Valid() && 0 < rto <= RTO_MAX
    ensures Resent(cfg, rto, now, s, Transmit(cfg, rto, now, s).seg)
    ensures var t := Transmit(cfg, rto, now, s); t.timeout == TimedOut(now, s) && t.fast == FastDue(cfg, now, s)
    ensures Due(cfg, now, s) ==> Transmit(cfg, rto, now, s).seg.xmit == U32(s.xmit + 1)
  {
    if s.xmit == 0 {
      SendsFirst(cfg, rto, now, s);
    } else if TimedOut(now, s) && 0 <= s.rto < 0x4000_0000 {
      BacksOff(cfg, rto, s.rto);
    }
  }

  ghost predicate AnyOf(buf: seq<SndSeg>, n: nat, p: SndSeg -> bool)
    requires n <= |buf|
  {
    exists i :: 0 <= i < n && p(buf[i])
  }

  lemma AnyOfSnoc(buf: seq<SndSeg>, n: nat, p: SndSeg -> bool)
    requires 0 < n <= |buf|
    ensures AnyOf(buf, n, p) <==> AnyOf(buf, n - 1, p) || p(buf[n - 1])
  {
  }

  function CountOf(buf: seq<SndSeg>, n: nat, p: SndSeg -> bool): nat
    requires n <= |buf|
  {
    if n == 0 then 0 else CountOf(buf, n - 1, p) + if p(buf[n - 1]) then 1 else 0
  }

  function IsTimedOut(now: int): SndSeg -> bool { s => TimedOut(now, s) }

  function IsFastDue(cfg: Config, now: int): SndSeg -> bool { s => FastDue(cfg, now, s) }

  /** Transmitted now for at least the dead-link count's time. */
  function IsHopeless(cfg: Config, now: int): SndSeg -> bool {
    s => Due(cfg, now, s) && U32(s.xmit + 1) >= cfg.deadLink
  }

  ghost predicate AllResent(k: Kcb, buf: seq<SndSeg>, segs: seq<SndSeg>) {
    |segs| <= |buf| && forall i :: 0 <= i < |segs| ==> Resent(k.cfg, k.rtt.rto, k.clock.current, buf[i], segs[i])
  }

  /** What the transmit loop reports about the first `n` segments. */
  ghost predicate Reports(k: Kcb, buf: seq<SndSeg>, n: nat, r: Pass)
    requires n <= |buf|
  {
    && (r.timeouts > 0 <==> AnyOf(buf, n, IsTimedOut(k.clock.current)))
    && r.timeouts == CountOf(buf, n, IsTimedOut(k.clock.current))
    && (r.fasts > 0 <==> AnyOf(buf, n, IsFastDue(k.cfg, k.clock.current)))
    && (r.dead <==> AnyOf(buf, n, IsHopeless(k.cfg, k.clock.current)))
  }

  lemma {:induction false} PassReports(k: Kcb, buf: seq<SndSeg>, n: nat)
    requires KcbOk(k) && n <= |buf|
    ensures Reports(k, buf, n, SendPass(k, buf, n))
  {
    if n > 0 {
      PassReports(k, buf, n - 1);
      TransmitResends(k.cfg, k.rtt.rto, k.clock.current, buf[n - 1]);
      SentIffDue(k.cfg, k.rtt.rto, k.clock.current, buf[n - 1]);
      AnyOfSnoc(buf, n, IsTimedOut(k.clock.current));
      AnyOfSnoc(buf, n, IsFastDue(k.cfg, k.clock.current));
      AnyOfSnoc(buf, n, IsHopeless(k.cfg, k.clock.current));
      PassStep(k, buf, n);
    }
  }

  lemma PassStep(k: Kcb, buf: seq<SndSeg>, n: nat)
    requires 0 < n <= |buf|
    ensures var r, r1 := SendPass(k, buf, n - 1), SendPass(k, buf, n);
            var t := Transmit(k.cfg, k.rtt.rto, k.clock.current, buf[n - 1]);
            && r1.segs == r.segs + [t.seg]
            && r1.timeouts == r.timeouts + (if t.timeout then 1 else 0)
            && r1.fasts == r.fasts + (if t.fast then 1 else 0)
            && r1.dead == (r.dead || (t.send && t.seg.xmit >= k.cfg.deadLink))
  {
  }

  lemma {:induction false} PassResends(k: Kcb, buf: seq<SndSeg>, n: nat)
    requires KcbOk(k) && n <= |buf|
    ensures AllResent(k, buf, SendPass(k, buf, n).segs)
  {
    if n > 0 {
      PassResends(k, buf, n - 1);
      TransmitResends(k.cfg, k.rtt.rto, k.clock.current, buf[n - 1]);
      PassStep(k, buf, n);
    }
  }

  /** A flush resends, re-times and counts exactly the segments that are due, adds the timeouts to the total, and
      declares the link dead when a segment has been transmitted often enough. */
  lemma FlushResends(k: Kcb)
    requires KcbOk(k) && k.clock.updated
    ensures var buf := Admitted(k).buf; var snd := Flush(k).k.snd;
            && |snd.buf| == |buf| && AllResent(k, buf, snd.buf)
            && snd.xmit == U32(k.snd.xmit + CountOf(buf, |buf|, IsTimedOut(k.clock.current)))
            && (snd.dead <==> k.snd.dead || AnyOf(buf, |buf|, IsHopeless(k.cfg, k.clock.current)))
  {
    AdmitKeepsDead(k.cfg, k.snd, SendWindow(k), k.clock.current, k.rtt.rto);
    PassReports(k, Admitted(k).buf, |Admitted(k).buf|);
    PassResends(k, Admitted(k).buf, |Admitted(k).buf|);
  }

  lemma {:induction false} AdmitKeepsDead(cfg: Config, snd: Snd, window: int, now: int, rto: int)
    ensures Admit(cfg, snd, window, now, rto).dead == snd.dead && Admit(cfg, snd, window, now, rto).xmit == snd.xmit
    decreases |snd.queue|
  {
    if Diff(cfg.wrap, snd.nxt, Plus(cfg.wrap, snd.una, window)) < 0 && snd.queue != [] {
      AdmitKeepsDead(cfg, AdmitOne(cfg, snd, now, rto), window, now, rto);
    }
  }
}
