/** `ikcp.c` as it works: one object whose queues, counters, acknowledgement array and output
    buffer are updated in place. Every method is tied to the function of the same name in Control. */
module Endpoint {
  import opened Serial
  import opened Wire
  import C = Control
  import S = Structure

  type Config = C.Config
  type Frag = C.Frag
  type SndSeg = C.SndSeg
  type RcvSeg = C.RcvSeg

  /** The acknowledgement array read two cells at a time. */
  function Pairs(a: seq<int>, n: nat): (r: seq<C.Ack>)
    requires 2 * n <= |a|
    ensures |r| == n && forall i :: 0 <= i < n ==> r[i] == C.Ack(a[2 * i], a[2 * i + 1])
  {
    seq(n, i requires 0 <= i < n => C.Ack(a[2 * i], a[2 * i + 1]))
  }

  lemma NoPairs(a: seq<int>)
    ensures Pairs(a, 0) == []
  {
  }

  lemma PairsPrefix(a: seq<int>, b: seq<int>, n: nat)
    requires 2 * n <= |a| && 2 * n <= |b| && a[..2 * n] == b[..2 * n]
    ensures Pairs(a, n) == Pairs(b, n)
  {
    forall i | 0 <= i < n ensures Pairs(a, n)[i] == Pairs(b, n)[i] {
      assert a[2 * i] == a[..2 * n][2 * i] && b[2 * i] == b[..2 * n][2 * i];
      assert a[2 * i + 1] == a[..2 * n][2 * i + 1] && b[2 * i + 1] == b[..2 * n][2 * i + 1];
    }
  }

  function Bumped(s: SndSeg, sn: int, ts: int): SndSeg {
    if sn != s.sn && TimeDiff(ts, s.ts) >= 0 then s.(fastack := U32(s.fastack + 1)) else s
  }

  /** A walk that bumps in place and stops at `p` has computed the recursive form. */
  lemma {:induction false} BumpedUpTo(cfg: Config, buf: seq<SndSeg>, sn: int, ts: int, p: nat, r: seq<SndSeg>)
    requires cfg.wrap && p <= |buf| == |r|
    requires forall i :: 0 <= i < p ==> TimeDiff(sn, buf[i].sn) >= 0 && r[i] == Bumped(buf[i], sn, ts)
    requires forall i :: p <= i < |buf| ==> r[i] == buf[i]
    requires p < |buf| ==> TimeDiff(sn, buf[p].sn) < 0
    ensures C.BumpSkipped(cfg, buf, sn, ts) == r
  {
    if p > 0 {
      BumpedUpTo(cfg, buf[1..], sn, ts, p - 1, r[1..]);
      assert r == [r[0]] + r[1..];
    } else {
      assert r == buf;
    }
  }

  lemma Spliced(buf: seq<RcvSeg>, s: RcvSeg, p: nat)
    requires p < |buf|
    ensures var front := buf[..|buf| - 1];
            front[..p] + [s] + front[p..] + [buf[|buf| - 1]] == buf[..p] + [s] + buf[p..]
  {
    var front := buf[..|buf| - 1];
    assert front[..p] == buf[..p];
    assert front[p..] + [buf[|buf| - 1]] == buf[p..];
  }

  /** A search from the back that stops at `p` has found the recursive form's place. */
  lemma {:induction false} InsertedAt(cfg: Config, buf: seq<RcvSeg>, s: RcvSeg, p: nat)
    requires cfg.wrap && p <= |buf|
    requires forall i :: p <= i < |buf| ==> buf[i].sn != s.sn && TimeDiff(s.sn, buf[i].sn) <= 0
    requires p > 0 ==> buf[p - 1].sn == s.sn || TimeDiff(s.sn, buf[p - 1].sn) > 0
    ensures C.Insert(cfg, buf, s) == if p > 0 && buf[p - 1].sn == s.sn then buf else buf[..p] + [s] + buf[p..]
  {
    var n := |buf|;
    if p < n {
      var front, last := buf[..n - 1], buf[n - 1];
      InsertedAt(cfg, front, s, p);
      assert C.Insert(cfg, buf, s) == C.Insert(cfg, front, s) + [last];
      assert front + [last] == buf;
      Spliced(buf, s, p);
    } else {
      assert buf[..p] == buf && buf[p..] == [];
    }
  }

  lemma {:induction false} MergeSnoc(q: seq<RcvSeg>, s: RcvSeg)
    ensures C.Merge(q + [s]) == C.Merge(q) + s.frag.data
  {
    if q == [] {
      assert C.Merge([s]) == s.frag.data + C.Merge([]);
      assert q + [s] == [s];
    } else {
      assert (q + [s])[1..] == q[1..] + [s];
      MergeSnoc(q[1..], s);
      Assoc(q[0].frag.data, C.Merge(q[1..]), s.frag.data);
    }
  }

  /** How much of `len` bytes `count` segments leave over. */
  function Leftover(mss: int, len: nat, count: nat): nat
    requires mss > 0
  {
    if count == 0 then len else Leftover(mss, len - Min(len, mss), count - 1)
  }

  lemma {:induction false} NothingLeft(mss: int, len: nat, count: nat)
    requires mss > 0 && len <= S.Room(mss, count)
    ensures Leftover(mss, len, count) == 0
    decreases count
  {
    if count > 0 {
      NothingLeft(mss, len - Min(len, mss), count - 1);
    }
  }

  /** Where the decode loop stands: reading `rest` from here completes the reading of everything. */
  ghost predicate Decoding(k: C.Kcb, mark: C.Mark, rest: Bytes, goal: C.Progress, end: int) {
    && S.KcbOk(k) && k.cfg.wrap
    && C.InputPackets(C.Progress(k, mark), Parse(k.cfg.conv, rest).packets) == goal && Parse(k.cfg.conv, rest).status == end
  }

  lemma DecodesOn(k: C.Kcb, mark: C.Mark, rest: Bytes, goal: C.Progress, end: int)
    requires Decoding(k, mark, rest, goal, end)
    requires |rest| >= OVERHEAD && Dec32(rest, 0) == k.cfg.conv && KnownCmd(rest[4])
    requires LenField(rest) <= |rest| - OVERHEAD && LenField(rest) < HALF
    ensures var x := C.InputPacket(C.Progress(k, mark), DecodePacket(rest));
            Decoding(x.k, x.mark, rest[OVERHEAD + LenField(rest)..], goal, end)
    ensures S.PacketOk(k.cfg, DecodePacket(rest))
  {
    var x, p := C.Progress(k, mark), DecodePacket(rest);
    ParseRound(k.cfg.conv, rest);
    ParsedOk(k.cfg, rest);
    InputRound(x, p, Parse(k.cfg.conv, rest[OVERHEAD + LenField(rest)..]).packets);
    S.InputPacketKeeps(x, p);
  }

  /** One round of the decode loop on bytes that pass its tests. */
  lemma ParseRound(conv: int, b: Bytes)
    requires |b| >= OVERHEAD && Dec32(b, 0) == conv && KnownCmd(b[4])
    requires LenField(b) <= |b| - OVERHEAD && LenField(b) < HALF
    ensures var rest := Parse(conv, b[OVERHEAD + LenField(b)..]);
            Parse(conv, b) == Parsed([DecodePacket(b)] + rest.packets, rest.status)
  {
  }

  lemma InputRound(x: C.Progress, p: Packet, ps: seq<Packet>)
    ensures C.InputPackets(x, [p] + ps) == C.InputPackets(C.InputPacket(x, p), ps)
  {
    assert ([p] + ps)[1..] == ps;
  }

  lemma ParsedOk(cfg: Config, b: Bytes)
    requires cfg.wrap && Parse(cfg.conv, b).packets != []
    ensures S.PacketOk(cfg, Parse(cfg.conv, b).packets[0])
  {
  }

  lemma Chain4<T>(s: seq<T>, a: seq<T>, b: seq<T>, c: seq<T>, d: seq<T>)
    ensures s + a + b + c + d == s + (a + (b + c) + d)
  {
  }

  lemma Chain5<T>(s: seq<T>, a: seq<T>, b: seq<T>, c: seq<T>, d: seq<T>, e: seq<T>)
    ensures s + a + b + c + d + e == s + (a + b + c + d + e)
  {
  }

  lemma EncodeSnoc(ds: seq<Datagram>, d: Datagram)
    ensures EncodeEach(ds + [d]) == EncodeEach(ds) + [DatagramBytes(d)]
  {
  }

  lemma StagedBytes(cur: Datagram, p: Packet)
    ensures DatagramBytes(cur + [p]) == DatagramBytes(cur) + Header(p) + p.data
    ensures DatagramSize(cur + [p]) == DatagramSize(cur) + OVERHEAD + |p.data|
  {
    BytesAppend(cur, [p]);
    SizeAppend(cur, [p]);
    assert DatagramBytes([p]) == PacketBytes(p) + DatagramBytes([]);
    Assoc(DatagramBytes(cur), Header(p), p.data);
  }

  lemma StageSnoc(mtu: int, ps: seq<Packet>, i: int)
    requires 0 <= i < |ps|
    ensures StageAll(mtu, Staging([], []), ps[..i + 1])
         == Stage(mtu, StageAll(mtu, Staging([], []), ps[..i]), ps[i])
  {
    assert ps[..i + 1] == ps[..i] + [ps[i]];
    StageAllAppend(mtu, Staging([], []), ps[..i], [ps[i]]);
    var s := StageAll(mtu, Staging([], []), ps[..i]);
    assert StageAll(mtu, s, [ps[i]]) == StageAll(mtu, Stage(mtu, s, ps[i]), []);
  }

  lemma StageOne(mtu: int, s: Staging, p: Packet)
    ensures StageAll(mtu, s, [p]) == Stage(mtu, s, p)
  {
    assert StageAll(mtu, s, [p]) == StageAll(mtu, Stage(mtu, s, p), []);
  }

  /** Staging a probe and a report behind `s`, as the flags of `t` ask. */
  function ProbesStaged(mtu: int, s: Staging, t: C.Probe, wask: Packet): Staging {
    var s1 := if t.ask then Stage(mtu, s, wask) else s;
    if t.tell then Stage(mtu, s1, wask.(cmd := CMD_WINS)) else s1
  }

  /** The probe half of a flush: the timer, then the probes it or the peer asked for. */
  ghost predicate ProbesFlushed(mtu: int, p: C.Probe, rmtWnd: int, now: int, wask: Packet, st: Staging, p': C.Probe, st': Staging) {
    var t := C.ProbeTick(p, rmtWnd, now);
    p' == t.(ask := false, tell := false) && st' == ProbesStaged(mtu, st, t, wask)
  }

  /** Everything a flush stages before data, and the probe state it leaves. */
  ghost predicate ControlFlushed(k: C.Kcb, p': C.Probe, st': Staging) {
    && p' == C.ProbeTick(k.probe, k.cc.rmtWnd, k.clock.current).(ask := false, tell := false)
    && st' == StageAll(k.cfg.mtu, Staging([], []), C.ControlPackets(k))
  }

  lemma ControlFlushedBy(k: C.Kcb, sn: int, ts: int, s0: Staging, wnd: int, p': C.Probe, st': Staging)
    requires AcksStaged(k, |k.rcv.acks|, sn, ts, s0) && wnd == C.WndUnused(k) % 65536
    requires ProbesFlushed(k.cfg.mtu, k.probe, k.cc.rmtWnd, k.clock.current,
                           Packet(k.cfg.conv, CMD_WASK, 0, wnd, ts, sn, k.rcv.nxt, []), s0, p', st')
    ensures ControlFlushed(k, p', st')
  {
    StageControl(k, sn, ts, s0, wnd);
  }

  /** Staging the control segments one after the other. */
  lemma StageControl(k: C.Kcb, sn: int, ts: int, s0: Staging, wnd: int)
    requires AcksStaged(k, |k.rcv.acks|, sn, ts, s0) && wnd == C.WndUnused(k) % 65536
    ensures StageAll(k.cfg.mtu, Staging([], []), C.ControlPackets(k))
         == ProbesStaged(k.cfg.mtu, s0, C.ProbeTick(k.probe, k.cc.rmtWnd, k.clock.current),
                         Packet(k.cfg.conv, CMD_WASK, 0, wnd, ts, sn, k.rcv.nxt, []))
  {
    var mtu, e := k.cfg.mtu, Staging([], []);
    var t := C.ProbeTick(k.probe, k.cc.rmtWnd, k.clock.current);
    assert C.AckPackets(k)[..|k.rcv.acks|] == C.AckPackets(k);
    var ask := if t.ask then [C.ProbePacket(k, CMD_WASK)] else [];
    var tell := if t.tell then [C.ProbePacket(k, CMD_WINS)] else [];
    StageAllAppend(mtu, e, C.AckPackets(k) + ask, tell);
    StageAllAppend(mtu, e, C.AckPackets(k), ask);
    StageOne(mtu, s0, C.ProbePacket(k, CMD_WASK));
    StageOne(mtu, StageAll(mtu, s0, ask), C.ProbePacket(k, CMD_WINS));
  }

  /** The sending side when the transmit loop has passed `n` segments with outcome `r`. */
  function SndAfter(snd: C.Snd, r: C.Pass, n: nat): C.Snd
    requires n <= |snd.buf|
  {
    snd.(buf := r.segs + snd.buf[n..], xmit := U32(snd.xmit + r.timeouts), dead := snd.dead || r.dead)
  }

  /** What one round of the transmit loop writes back. */
  function WithSegment(cfg: Config, s: C.Snd, i: nat, t: C.Tx): C.Snd
    requires i < |s.buf|
  {
    s.(buf := s.buf[i := t.seg],
       xmit := if t.timeout then U32(s.xmit + 1) else s.xmit,
       dead := s.dead || (t.send && t.seg.xmit >= cfg.deadLink))
  }

  lemma SameFragment(cfg: Config, rto: int, now: int, s: SndSeg)
    ensures C.Transmit(cfg, rto, now, s).seg.frag == s.frag
  {
  }

  /** One round of the transmit loop. */
  lemma PassStep(k: C.Kcb, snd: C.Snd, i: int, t: C.Tx)
    requires 0 <= i < |snd.buf| && t == C.Transmit(k.cfg, k.rtt.rto, k.clock.current, snd.buf[i])
    ensures var r, r' := C.SendPass(k, snd.buf, i), C.SendPass(k, snd.buf, i + 1);
            var s := SndAfter(snd, r, i);
            && r'.pushes == r.pushes + (if t.send then [C.Stamp(k, CMD_PUSH, t.seg.sn, t.seg.ts, t.seg.frag)] else [])
            && r'.timeouts == r.timeouts + (if t.timeout then 1 else 0)
            && r'.fasts == r.fasts + (if t.fast then 1 else 0)
            && i < |s.buf|
            && SndAfter(snd, r', i + 1) == WithSegment(k.cfg, s, i, t)
  {
    var r := C.SendPass(k, snd.buf, i);
    U32Add(snd.xmit + r.timeouts, 1);
    assert (r.segs + snd.buf[i..])[i := t.seg] == (r.segs + [t.seg]) + snd.buf[i + 1..];
  }

  /** Where the transmit loop stands after `n` segments. */
  ghost predicate Passed(k: C.Kcb, snd0: C.Snd, st0: Staging, n: nat,
                         snd: C.Snd, r: C.Pass, st: Staging, lost: bool, change: bool)
  {
    && n <= |snd0.buf|
    && r == C.SendPass(k, snd0.buf, n)
    && snd == SndAfter(snd0, r, n)
    && st == StageAll(k.cfg.mtu, st0, r.pushes)
    && lost == (r.timeouts > 0) && change == (r.fasts > 0)
  }

  lemma PassedNone(k: C.Kcb, snd0: C.Snd, st0: Staging)
    requires 0 <= snd0.xmit < M32
    ensures Passed(k, snd0, st0, 0, snd0, C.SendPass(k, snd0.buf, 0), st0, false, false)
  {
    assert [] + snd0.buf[0..] == snd0.buf;
  }

  lemma PassedNext(k: C.Kcb, snd0: C.Snd, st0: Staging, i: nat,
                   s: C.Snd, r: C.Pass, st: Staging, lost: bool, change: bool)
    requires i < |snd0.buf| && Passed(k, snd0, st0, i, s, r, st, lost, change)
    ensures |s.buf| == |snd0.buf| && s.buf[i] == snd0.buf[i]
  {
  }

  lemma PassedStep(k: C.Kcb, snd0: C.Snd, st0: Staging, i: nat,
                   s: C.Snd, r: C.Pass, st: Staging, lost: bool, change: bool, t: C.Tx)
    requires i < |snd0.buf| && Passed(k, snd0, st0, i, s, r, st, lost, change) && i < |s.buf|
    requires t == C.Transmit(k.cfg, k.rtt.rto, k.clock.current, snd0.buf[i])
    ensures Passed(k, snd0, st0, i + 1, WithSegment(k.cfg, s, i, t), C.SendPass(k, snd0.buf, i + 1),
                   if t.send then Stage(k.cfg.mtu, st, C.Stamp(k, CMD_PUSH, t.seg.sn, t.seg.ts, t.seg.frag)) else st,
                   lost || t.timeout, change || t.fast)
  {
    PassStep(k, snd0, i, t);
    StagePush(k.cfg.mtu, st0, r.pushes, t.send, C.Stamp(k, CMD_PUSH, t.seg.sn, t.seg.ts, t.seg.frag));
  }

  lemma PassedAll(k: C.Kcb, snd0: C.Snd, st0: Staging, s: C.Snd, r: C.Pass, st: Staging, lost: bool, change: bool)
    requires Passed(k, snd0, st0, |snd0.buf|, s, r, st, lost, change)
    ensures s == snd0.(buf := r.segs, xmit := U32(snd0.xmit + r.timeouts), dead := snd0.dead || r.dead)
    ensures |s.buf| == |snd0.buf|
  {
    assert r.segs + snd0.buf[|snd0.buf|..] == r.segs;
  }

  /** The first `n` pending acknowledgements are staged and the header holds the last one's fields. */
  ghost predicate AcksStaged(k: C.Kcb, n: nat, sn: int, ts: int, st: Staging) {
    && n <= |k.rcv.acks|
    && st == StageAll(k.cfg.mtu, Staging([], []), C.AckPackets(k)[..n])
    && (if n == 0 then sn == ts == 0 else k.rcv.acks[n - 1] == C.Ack(sn, ts))
  }

  lemma AcksStagedStep(k: C.Kcb, i: nat, sn: int, ts: int, st: Staging)
    requires i < |k.rcv.acks| && AcksStaged(k, i, sn, ts, st)
    ensures var a := k.rcv.acks[i];
            AcksStaged(k, i + 1, a.sn, a.ts, Stage(k.cfg.mtu, st,
              Packet(k.cfg.conv, CMD_ACK, 0, C.WndUnused(k) % 65536, a.ts, a.sn, k.rcv.nxt, [])))
  {
    StageSnoc(k.cfg.mtu, C.AckPackets(k), i);
  }

  lemma StagePush(mtu: int, st0: Staging, ps: seq<Packet>, send: bool, p: Packet)
    ensures StageAll(mtu, st0, ps + if send then [p] else [])
         == if send then Stage(mtu, StageAll(mtu, st0, ps), p) else StageAll(mtu, st0, ps)
  {
    if send {
      StageAllAppend(mtu, st0, ps, [p]);
      StageOne(mtu, StageAll(mtu, st0, ps), p);
    } else {
      assert ps + [] == ps;
    }
  }

  lemma Drained(st: Staging)
    ensures EncodeEach(Drain(st)) == EncodeEach(st.done) + if st.cur == [] then [] else [DatagramBytes(st.cur)]
    ensures DatagramSize(st.cur) == 0 <==> st.cur == []
  {
    if st.cur != [] {
      EncodeSnoc(st.done, st.cur);
    }
  }

  /** Every segment a flush may transmit fits a datagram. */
  ghost predicate Transmittable(k: C.Kcb) {
    var snd := C.Admitted(k);
    0 <= snd.xmit < M32 && AllFit(k.cfg, snd.buf)
  }

  ghost predicate AllFit(cfg: Config, buf: seq<SndSeg>) {
    forall i :: 0 <= i < |buf| ==> |buf[i].frag.data| <= cfg.Mss()
  }

  lemma AdmittedFits(k: C.Kcb)
    requires S.KcbOk(k)
    ensures Transmittable(k)
  {
    S.AdmittedOk(k);
  }

  /** The window after a flush that found these losses. */
  ghost predicate Settled(cfg: Config, before: C.Cc, snd: C.Snd, change: bool, lost: bool, after: C.Cc) {
    after == C.Settle(cfg, before, U32(snd.nxt - snd.una), change, lost)
  }

  /** What the data half of a flush leaves behind. */
  datatype FlushOutcome = FlushOutcome(snd: C.Snd, cc: C.Cc, st: Staging)

  ghost predicate DataFlushed(k: C.Kcb, st: Staging, f: FlushOutcome) {
    var buf := C.Admitted(k).buf;
    && f.snd == C.FlushState(k).snd && f.cc == C.FlushState(k).cc
    && f.st == StageAll(k.cfg.mtu, st, C.SendPass(k, buf, |buf|).pushes)
  }

  lemma DataFlushedBy(k: C.Kcb, st: Staging, admitted: C.Snd, r: C.Pass, f: FlushOutcome, lost: bool, change: bool)
    requires admitted == C.Admitted(k) && Passed(k, admitted, st, |admitted.buf|, f.snd, r, f.st, lost, change)
    requires Settled(k.cfg, k.cc, f.snd, change, lost, f.cc)
    ensures DataFlushed(k, st, f)
  {
    PassedAll(k, admitted, st, f.snd, r, f.st, lost, change);
  }

  /** A flush of `k` leaves these parts behind and emits `ds`. */
  ghost predicate WholeFlush(k: C.Kcb, snd: C.Snd, rcv: C.Rcv, probe: C.Probe, cc: C.Cc, ds: seq<Datagram>) {
    C.FlushState(k) == k.(snd := snd, rcv := rcv, probe := probe, cc := cc) && Pack(k.cfg.mtu, C.FlushPackets(k)) == ds
  }

  lemma WholeIsFlush(k: C.Kcb, k': C.Kcb, ds: seq<Datagram>)
    requires k.clock.updated && WholeFlush(k, k'.snd, k'.rcv, k'.probe, k'.cc, ds)
    requires k'.cfg == k.cfg && k'.rtt == k.rtt && k'.clock == k.clock
    ensures C.Flush(k) == C.Flushed(k', ds)
  {
  }

  /** The two halves of a flush make up the whole. */
  lemma AssembleFlush(k: C.Kcb, probe: C.Probe, st: Staging, f: FlushOutcome)
    requires ControlFlushed(k, probe, st) && DataFlushed(k, st, f)
    ensures WholeFlush(k, f.snd, k.rcv.(acks := []), probe, f.cc, Drain(f.st))
  {
    var buf := C.Admitted(k).buf;
    StageAllAppend(k.cfg.mtu, Staging([], []), C.ControlPackets(k), C.SendPass(k, buf, |buf|).pushes);
  }

  /** The staging buffer holds `st`: finished datagrams have been output, the rest is in the buffer. */
  ghost predicate Staged(mtu: int, st: Staging, base: seq<Bytes>, ptr: int, sent: seq<Bytes>, buf: Bytes) {
    && |buf| == (mtu + OVERHEAD) * 3
    && ptr == DatagramSize(st.cur) && 0 <= ptr <= mtu
    && buf[..ptr] == DatagramBytes(st.cur)
    && sent == base + EncodeEach(st.done)
  }

  /** A walk that passed the first `p` segments has computed the recursive form. */
  lemma {:induction false} FoundAt(cfg: Config, buf: seq<SndSeg>, sn: int, p: nat)
    requires cfg.wrap && p <= |buf|
    requires forall i :: 0 <= i < p ==> buf[i].sn != sn && TimeDiff(sn, buf[i].sn) >= 0
    requires p < |buf| ==> buf[p].sn == sn || TimeDiff(sn, buf[p].sn) < 0
    ensures C.FindSn(cfg, buf, sn) == if p < |buf| && buf[p].sn == sn then p else -1
  {
    if p > 0 {
      FoundAt(cfg, buf[1..], sn, p - 1);
    }
  }

  lemma ClockKeeps(k: C.Kcb, c: C.Clock)
    requires S.KcbOk(k) && S.ClockOk(c)
    ensures S.KcbOk(k.(clock := c))
  {
  }

  lemma StartOk(k: C.Kcb)
    requires S.KcbOk(k)
    ensures S.KcbOk(C.StartInput(k).k)
  {
  }

  class Kcp {
    const cfg: Config
    /** Sending side: `snd_una`, `snd_nxt`, `snd_queue`, `snd_buf`, `ackedlen`, `xmit`, `state`. */
    var snd: C.Snd
    var nsndQue: int
    var nsndBuf: int
    /** Receiving side; the pending acknowledgements live in `acklist`, two cells each. */
    var rcvNxt: int
    var rcvBuf: seq<RcvSeg>
    var rcvQueue: seq<RcvSeg>
    var nrcvBuf: int
    var nrcvQue: int
    var acklist: array<int>
    var ackcount: int
    var ackblock: int
    var cc: C.Cc
    var rtt: C.Rtt
    var probe: C.Probe
    var clock: C.Clock
    var buffer: array<Byte>
    /** Every datagram handed to the output callback so far. */
    var sent: seq<Bytes>

    // ----- abstraction -----

    ghost predicate AcksOk()
      reads this`acklist, this`ackcount, this`ackblock
    {
      0 <= ackcount <= ackblock && acklist.Length == 2 * ackblock
    }

    ghost function Acks(): seq<C.Ack>
      requires AcksOk()
      reads this`acklist, this`ackcount, this`ackblock, acklist
    {
      Pairs(acklist[..], ackcount)
    }

    ghost function RcvView(): C.Rcv
      requires AcksOk()
      reads this`rcvNxt, this`rcvBuf, this`rcvQueue, this`acklist, this`ackcount, this`ackblock, acklist
    {
      C.Rcv(rcvNxt, rcvBuf, rcvQueue, Acks())
    }

    ghost function State(): C.Kcb
      requires AcksOk()
      reads this, acklist
    {
      C.Kcb(cfg, snd, RcvView(), cc, rtt, probe, clock)
    }

    ghost predicate SndCounters()
      reads this`snd, this`nsndQue, this`nsndBuf
    {
      nsndQue == |snd.queue| && nsndBuf == |snd.buf|
    }

    ghost predicate RcvCounters()
      reads this`rcvQueue, this`rcvBuf, this`nrcvQue, this`nrcvBuf
    {
      nrcvQue == |rcvQueue| && nrcvBuf == |rcvBuf|
    }

    ghost predicate Lists()
      reads this`snd, this`nsndQue, this`nsndBuf
      reads this`rcvQueue, this`rcvBuf, this`nrcvQue, this`nrcvBuf
      reads this`acklist, this`ackcount, this`ackblock, this`buffer
    {
      SndCounters() && RcvCounters() && AcksOk() && buffer as object != acklist as object
    }

    /** The counters equal the queue lengths and the arrays have the sizes allocated for them. */
    ghost predicate Shape()
      reads this
    {
      && cfg.Valid() && cfg.wrap
      && Lists()
      && buffer.Length == (cfg.mtu + OVERHEAD) * 3
    }

    /** Shape together with the structural invariant of the control block. */
    ghost predicate Valid()
      reads this, acklist
    {
      Shape() && S.KcbOk(State())
    }

    constructor (config: Config)
      requires config.Valid() && config.wrap
      ensures Valid() && fresh(acklist) && fresh(buffer)
      ensures cfg == config && State() == C.Create(config) && sent == []
    {
      cfg := config;
      snd := C.Snd(0, 0, [], [], 0, 0, false);
      nsndQue, nsndBuf, nrcvBuf, nrcvQue := 0, 0, 0, 0;
      rcvNxt, rcvBuf, rcvQueue := 0, [], [];
      acklist := new int[0];
      ackcount, ackblock := 0, 0;
      cc := C.Cc(0, 0, C.THRESH_INIT, C.WND_RCV);
      rtt := C.Rtt(0, 0, C.RTO_DEF);
      probe := C.Probe(false, false, 0, 0);
      clock := C.Clock(0, C.INTERVAL, false);
      buffer := new Byte[(config.mtu + OVERHEAD) * 3](_ => 0);
      sent := [];
      new;
      assert Acks() == [];
      S.CreateOk(config);
    }

    // ----- acknowledgement list -----

    /** The growth step of `ikcp_ack_push`: double the array until it holds one more pair. */
    method ReserveAck()
      requires Shape()
      modifies this`acklist, this`ackblock
      ensures Shape() && Acks() == old(Acks()) && ackcount < ackblock
      ensures acklist == old(acklist) || fresh(acklist)
    {
      var newsize := ackcount + 1;
      if newsize > ackblock {
        var newblock := 8;
        while newblock < newsize {
          newblock := newblock * 2;
        }
        var grown := new int[newblock * 2];
        for x := 0 to ackcount
          modifies grown
          invariant forall i :: 0 <= i < 2 * x ==> grown[i] == acklist[i]
        {
          grown[x * 2] := acklist[x * 2];
          grown[x * 2 + 1] := acklist[x * 2 + 1];
        }
        assert grown[..][..2 * ackcount] == acklist[..][..2 * ackcount];
        PairsPrefix(grown[..], acklist[..], ackcount);
        acklist := grown;
        ackblock := newblock;
      }
    }

    /** `ikcp_ack_push`. */
    method AckPush(sn: int, ts: int)
      requires Shape()
      modifies this`acklist, this`ackcount, this`ackblock, acklist
      ensures Shape() && Acks() == old(Acks()) + [C.Ack(sn, ts)]
      ensures acklist == old(acklist) || fresh(acklist)
    {
      ReserveAck();
      ghost var cells := acklist[..];
      acklist[ackcount * 2] := sn;
      acklist[ackcount * 2 + 1] := ts;
      assert acklist[..][..2 * ackcount] == cells[..2 * ackcount];
      PairsPrefix(acklist[..], cells, ackcount);
      ackcount := ackcount + 1;
      assert Acks() == Pairs(acklist[..], ackcount - 1) + [C.Ack(sn, ts)];
    }

    // ----- acknowledgement processing -----

    method UpdateAck(sample: int)
      requires 0 <= sample && 0 <= rtt.srtt && 0 <= rtt.rttval
      modifies this`rtt
      ensures rtt == C.UpdateAck(cfg, old(rtt), sample)
    {
      if rtt.srtt == 0 {
        rtt := rtt.(srtt := sample);
        rtt := rtt.(rttval := sample / 2);
      } else {
        var delta := sample - rtt.srtt;
        if delta < 0 { delta := -delta; }
        rtt := rtt.(rttval := (3 * rtt.rttval + delta) / 4);
        rtt := rtt.(srtt := (7 * rtt.srtt + sample) / 8);
        if rtt.srtt < 1 { rtt := rtt.(srtt := 1); }
      }
      var raw := U32(rtt.srtt + Max(cfg.interval, U32(4 * rtt.rttval)));
      rtt := rtt.(rto := Min(Max(cfg.minRto, raw), C.RTO_MAX));
    }

    method ShrinkBuf()
      modifies this`snd
      ensures snd == C.ShrinkBuf(old(snd))
    {
      if snd.buf != [] {
        snd := snd.(una := snd.buf[0].sn);
      } else {
        snd := snd.(una := snd.nxt);
      }
    }

    method ParseUna(una: int)
      requires cfg.wrap && SndCounters()
      modifies this`snd, this`nsndBuf
      ensures SndCounters() && snd == C.ParseUna(cfg, old(snd), una)
    {
      while snd.buf != []
        invariant SndCounters()
        invariant C.ParseUna(cfg, snd, una) == C.ParseUna(cfg, old(snd), una)
        decreases |snd.buf|
      {
        var seg := snd.buf[0];
        if TimeDiff(una, seg.sn) > 0 {
          snd := snd.(ackedLen := snd.ackedLen + |seg.frag.data|);
          snd := snd.(buf := snd.buf[1..]);
          nsndBuf := nsndBuf - 1;
        } else {
          break;
        }
      }
    }

    method ParseAck(sn: int)
      requires cfg.wrap && SndCounters()
      modifies this`snd, this`nsndBuf
      ensures SndCounters() && snd == C.ParseAck(cfg, old(snd), sn)
    {
      if TimeDiff(sn, snd.una) < 0 || TimeDiff(sn, snd.nxt) >= 0 {
        return;
      }
      var p := 0;
      while p < |snd.buf|
        invariant 0 <= p <= |snd.buf|
        invariant forall i :: 0 <= i < p ==> snd.buf[i].sn != sn && TimeDiff(sn, snd.buf[i].sn) >= 0
      {
        var seg := snd.buf[p];
        if sn == seg.sn {
          FoundAt(cfg, snd.buf, sn, p);
          snd := snd.(ackedLen := snd.ackedLen + |seg.frag.data|, buf := snd.buf[..p] + snd.buf[p + 1..]);
          nsndBuf := nsndBuf - 1;
          return;
        }
        if TimeDiff(sn, seg.sn) < 0 {
          break;
        }
        p := p + 1;
      }
      FoundAt(cfg, snd.buf, sn, p);
    }

    method ParseFastack(sn: int, ts: int)
      requires cfg.wrap && SndCounters()
      modifies this`snd
      ensures SndCounters() && snd == C.ParseFastack(cfg, old(snd), sn, ts)
    {
      if TimeDiff(sn, snd.una) < 0 || TimeDiff(sn, snd.nxt) >= 0 {
        return;
      }
      ghost var buf := snd.buf;
      var p := 0;
      while p < |snd.buf|
        invariant 0 <= p <= |snd.buf| == |buf| && snd == old(snd).(buf := snd.buf)
        invariant forall i :: 0 <= i < p ==> TimeDiff(sn, buf[i].sn) >= 0 && snd.buf[i] == Bumped(buf[i], sn, ts)
        invariant forall i :: p <= i < |buf| ==> snd.buf[i] == buf[i]
      {
        var seg := snd.buf[p];
        if TimeDiff(sn, seg.sn) < 0 {
          break;
        } else if sn != seg.sn {
          if TimeDiff(ts, seg.ts) >= 0 {
            snd := snd.(buf := snd.buf[p := seg.(fastack := U32(seg.fastack + 1))]);
          }
        }
        p := p + 1;
      }
      BumpedUpTo(cfg, buf, sn, ts, p, snd.buf);
    }

    // ----- receiving data -----

    method MoveReady()
      requires cfg.wrap && RcvCounters() && AcksOk()
      modifies this`rcvBuf, this`rcvQueue, this`nrcvBuf, this`nrcvQue, this`rcvNxt
      ensures RcvCounters() && RcvView() == C.MoveReady(cfg, old(RcvView()))
    {
      while rcvBuf != []
        invariant RcvCounters() && AcksOk()
        invariant C.MoveReady(cfg, RcvView()) == C.MoveReady(cfg, old(RcvView()))
        decreases |rcvBuf|
      {
        var seg := rcvBuf[0];
        if seg.sn == rcvNxt && nrcvQue < cfg.rcvWnd {
          rcvBuf := rcvBuf[1..];
          nrcvBuf := nrcvBuf - 1;
          rcvQueue := rcvQueue + [seg];
          nrcvQue := nrcvQue + 1;
          rcvNxt := U32(rcvNxt + 1);
        } else {
          break;
        }
      }
    }

    /** The search and insertion loop of `ikcp_parse_data`. */
    method InsertSegment(seg: RcvSeg)
      requires cfg.wrap && RcvCounters()
      modifies this`rcvBuf, this`nrcvBuf
      ensures RcvCounters() && rcvBuf == C.Insert(cfg, old(rcvBuf), seg)
    {
      var sn := seg.sn;
      var repeated := false;
      var p := |rcvBuf|;
      while p > 0
        invariant 0 <= p <= |rcvBuf| && !repeated
        invariant forall i :: p <= i < |rcvBuf| ==> rcvBuf[i].sn != sn && TimeDiff(sn, rcvBuf[i].sn) <= 0
      {
        var other := rcvBuf[p - 1];
        if other.sn == sn {
          repeated := true;
          break;
        }
        if TimeDiff(sn, other.sn) > 0 {
          break;
        }
        p := p - 1;
      }
      InsertedAt(cfg, rcvBuf, seg, p);
      if !repeated {
        rcvBuf := rcvBuf[..p] + [seg] + rcvBuf[p..];
        nrcvBuf := nrcvBuf + 1;
      }
    }

    method ParseData(seg: RcvSeg)
      requires cfg.wrap && RcvCounters() && AcksOk()
      modifies this`rcvBuf, this`rcvQueue, this`nrcvBuf, this`nrcvQue, this`rcvNxt
      ensures RcvCounters() && RcvView() == C.ParseData(cfg, old(RcvView()), seg)
    {
      if TimeDiff(seg.sn, U32(rcvNxt + cfg.rcvWnd)) >= 0 || TimeDiff(seg.sn, rcvNxt) < 0 {
        return;
      }
      InsertSegment(seg);
      MoveReady();
    }

    // ----- ikcp_send -----

    /** Stream mode: top up the last queued segment. */
    method AppendToLast(data: Bytes) returns (extend: nat)
      requires cfg.stream && SndCounters()
      modifies this`snd
      ensures SndCounters() && snd == old(snd).(queue := C.Extended(cfg, old(snd.queue), data))
      ensures extend == C.Extension(cfg, old(snd.queue), |data|)
    {
      extend := 0;
      if snd.queue != [] {
        var last := snd.queue[|snd.queue| - 1];
        if |last.data| < cfg.Mss() {
          var capacity := cfg.Mss() - |last.data|;
          extend := if |data| < capacity then |data| else capacity;
          snd := snd.(queue := snd.queue[..|snd.queue| - 1] + [C.Frag(0, last.data + data[..extend])]);
        }
      }
    }

    /** The fragment loop: queue `data` as `count` segments. */
    method QueueFragments(data: Bytes, count: nat) returns (queued: nat)
      requires SndCounters() && Leftover(cfg.Mss(), |data|, count) == 0
      modifies this`snd, this`nsndQue
      ensures SndCounters() && snd == old(snd).(queue := old(snd.queue) + C.Cut(cfg.Mss(), cfg.stream, data, count))
      ensures queued == |data|
    {
      var mss := cfg.Mss();
      var rest := data;
      queued := 0;
      for i := 0 to count
        invariant |rest| <= |data| && queued == |data| - |rest|
        invariant SndCounters() && snd == old(snd).(queue := snd.queue)
        invariant Leftover(mss, |rest|, count - i) == 0
        invariant old(snd.queue) + C.Cut(mss, cfg.stream, data, count)
               == snd.queue + C.Cut(mss, cfg.stream, rest, count - i)
      {
        var size := if |rest| > mss then mss else |rest|;
        var frag := C.Frag(if cfg.stream then 0 else count - i - 1, rest[..size]);
        Assoc(snd.queue, [frag], C.Cut(mss, cfg.stream, rest[size..], count - i - 1));
        snd := snd.(queue := snd.queue + [frag]);
        nsndQue := nsndQue + 1;
        rest := rest[size..];
        queued := queued + size;
      }
    }

    method Send(data: Bytes) returns (ret: int)
      requires SndCounters()
      modifies this`snd, this`nsndQue
      ensures SndCounters()
      ensures var r := C.Send(cfg, old(snd.queue), data); snd == old(snd).(queue := r.queue) && ret == r.ret
    {
      var appended := 0;
      if cfg.stream {
        appended := AppendToLast(data);
      }
      assert appended == C.Extension(cfg, old(snd.queue), |data|) && snd.queue == C.Extended(cfg, old(snd.queue), data);
      var rest := data[appended..];
      var count := if |rest| <= cfg.Mss() then 1 else (|rest| + cfg.Mss() - 1) / cfg.Mss();
      if cfg.stream && |rest| <= 0 {
        ret := appended;
      } else if count >= C.WND_RCV {
        ret := if cfg.stream && appended > 0 then appended else -2;
      } else {
        S.FragCountEnough(cfg.Mss(), |rest|);
        NothingLeft(cfg.Mss(), |rest|, count);
        var queued := QueueFragments(rest, count);
        ret := appended + queued;
      }
    }

    // ----- ikcp_peeksize, ikcp_recv -----

    method PeekSize() returns (size: int)
      requires RcvCounters()
      ensures size == C.PeekSize(rcvQueue)
    {
      if rcvQueue == [] { return -1; }
      if rcvQueue[0].frag.frg == 0 { return |rcvQueue[0].frag.data|; }
      if nrcvQue < rcvQueue[0].frag.frg + 1 { return -1; }
      size := 0;
      for p := 0 to |rcvQueue|
        invariant size + C.PeekLength(rcvQueue[p..]) == C.PeekLength(rcvQueue)
      {
        assert rcvQueue[p..][0] == rcvQueue[p] && rcvQueue[p..][1..] == rcvQueue[p + 1..];
        size := size + |rcvQueue[p].frag.data|;
        if rcvQueue[p].frag.frg == 0 { break; }
      }
    }

    /** The walk over the fragments of the first message. */
    method MergeFragments() returns (span: nat, data: Bytes)
      requires rcvQueue != []
      ensures span == C.MessageSpan(rcvQueue) && data == C.Merge(rcvQueue[..span])
    {
      span, data := 0, [];
      while span < |rcvQueue|
        invariant span <= |rcvQueue|
        invariant C.MessageSpan(rcvQueue) == span + C.MessageSpan(rcvQueue[span..])
        invariant data == C.Merge(rcvQueue[..span])
      {
        var seg := rcvQueue[span];
        assert rcvQueue[span..][0] == seg && rcvQueue[span..][1..] == rcvQueue[span + 1..];
        MergeSnoc(rcvQueue[..span], seg);
        assert rcvQueue[..span + 1] == rcvQueue[..span] + [seg];
        data := data + seg.frag.data;
        span := span + 1;
        if seg.frag.frg == 0 {
          break;
        }
      }
    }

    method Recv(len: int) returns (ret: int, data: Bytes)
      requires cfg.wrap && RcvCounters() && AcksOk()
      modifies this`rcvBuf, this`rcvQueue, this`nrcvBuf, this`nrcvQue, this`rcvNxt, this`probe
      ensures RcvCounters()
      ensures var r := C.Recv(old(State()), len); ret == r.ret && data == r.data
      ensures RcvView() == C.Recv(old(State()), len).k.rcv
      ensures probe == C.Recv(old(State()), len).k.probe
    {
      data := [];
      var room := if len < 0 then -len else len;
      if rcvQueue == [] {
        return -1, [];
      }
      var size := PeekSize();
      if size < 0 {
        return -2, [];
      }
      if size > room {
        return -3, [];
      }
      S.PeekIsMerge(rcvQueue);
      data := TakeMessage(len < 0);
      ret := |data|;
      assert ret == size;
    }

    /** The second half of `ikcp_recv`: merge, remove unless peeking, refill the queue. */
    method TakeMessage(peek: bool) returns (data: Bytes)
      requires cfg.wrap && RcvCounters() && AcksOk() && rcvQueue != []
      modifies this`rcvBuf, this`rcvQueue, this`nrcvBuf, this`nrcvQue, this`rcvNxt, this`probe
      ensures RcvCounters()
      ensures data == C.Take(old(State()), peek).data
      ensures RcvView() == C.Take(old(State()), peek).k.rcv
      ensures probe == C.Take(old(State()), peek).k.probe
    {
      var recover := nrcvQue >= cfg.rcvWnd;
      var span;
      span, data := MergeFragments();
      if !peek {
        rcvQueue := rcvQueue[span..];
        nrcvQue := nrcvQue - span;
      }
      MoveReady();
      if nrcvQue < cfg.rcvWnd && recover {
        probe := probe.(tell := true);
      }
    }

    // ----- ikcp_input -----

    /** What one incoming segment does to the sending side. */
    method ReadAcks(p: Packet)
      requires cfg.wrap && SndCounters() && 0 <= rtt.srtt && 0 <= rtt.rttval
      modifies this`snd, this`nsndBuf, this`rtt, this`cc
      ensures SndCounters() && cc == old(cc).(rmtWnd := p.wnd)
      ensures snd == C.InputSnd(cfg, old(snd), p)
      ensures rtt == C.InputRtt(cfg, old(rtt), clock.current, p)
    {
      cc := cc.(rmtWnd := p.wnd);
      ParseUna(p.una);
      ShrinkBuf();
      if p.cmd == CMD_ACK {
        if TimeDiff(clock.current, p.ts) >= 0 {
          UpdateAck(TimeDiff(clock.current, p.ts));
        }
        ParseAck(p.sn);
        ShrinkBuf();
      }
    }

    /** What one incoming segment does to the receiving side. */
    method ReadPush(p: Packet)
      requires Shape()
      modifies this`rcvBuf, this`rcvQueue, this`nrcvBuf, this`nrcvQue, this`rcvNxt
      modifies this`acklist, this`ackcount, this`ackblock, acklist
      ensures Lists()
      ensures RcvView() == C.InputRcv(cfg, old(RcvView()), p)
      ensures acklist == old(acklist) || fresh(acklist)
    {
      if p.cmd == CMD_PUSH {
        if TimeDiff(p.sn, U32(rcvNxt + cfg.rcvWnd)) < 0 {
          AckPush(p.sn, p.ts);
          if TimeDiff(p.sn, rcvNxt) >= 0 {
            ParseData(C.RcvSeg(p.sn, C.Frag(p.frg, p.data)));
          }
        }
      }
    }

    /** The body of the decode loop once the header has passed its tests. */
    method ReadSegment(p: Packet)
      requires Shape() && 0 <= rtt.srtt && 0 <= rtt.rttval
      modifies this`snd, this`nsndBuf, this`rtt, this`cc
      modifies this`rcvBuf, this`rcvQueue, this`nrcvBuf, this`nrcvQue, this`rcvNxt
      modifies this`acklist, this`ackcount, this`ackblock, acklist, this`probe
      ensures Lists()
      ensures State() == C.ReadPacket(old(State()), p)
      ensures acklist == old(acklist) || fresh(acklist)
    {
      ReadAcks(p);
      ReadPush(p);
      if p.cmd == CMD_WASK {
        probe := probe.(tell := true);
      }
    }

    /** Window growth after an advance of `snd_una`. */
    method GrowWindow()
      modifies this`cc
      ensures cc == C.Grow(cfg, old(cc))
    {
      if cc.cwnd < cc.rmtWnd {
        var mss := cfg.Mss();
        if cc.cwnd < cc.ssthresh {
          cc := cc.(cwnd := U32(cc.cwnd + 1));
          cc := cc.(incr := U32(cc.incr + mss));
        } else {
          if cc.incr < mss { cc := cc.(incr := mss); }
          cc := cc.(incr := U32(cc.incr + U32(mss * mss) / cc.incr + mss / 16));
          if U32(U32(cc.cwnd + 1) * mss) <= cc.incr {
            cc := cc.(cwnd := U32(cc.incr + mss - 1) / (if mss > 0 then mss else 1));
          }
        }
        if cc.cwnd > cc.rmtWnd {
          cc := cc.(cwnd := cc.rmtWnd);
          cc := cc.(incr := U32(cc.rmtWnd * mss));
        }
      }
    }

    /** Fast-ack counting and window growth after a complete datagram. */
    method FinishInput(prevUna: int, mark: C.Mark)
      requires cfg.wrap && SndCounters() && AcksOk()
      modifies this`snd, this`cc
      ensures SndCounters()
      ensures State() == C.FinishInput(prevUna, C.Progress(old(State()), mark))
    {
      if mark.Newest? {
        ParseFastack(mark.sn, mark.ts);
      }
      if TimeDiff(snd.una, prevUna) > 0 {
        GrowWindow();
      }
    }

    /** The decode loop: every segment in turn, until the bytes run out or a test fails. */
    method DecodeLoop(data: Bytes) returns (mark: C.Mark, status: int)
      requires Valid()
      modifies this`snd, this`nsndBuf, this`rtt, this`cc
      modifies this`rcvBuf, this`rcvQueue, this`nrcvBuf, this`nrcvQue, this`rcvNxt
      modifies this`acklist, this`ackcount, this`ackblock, acklist, this`probe
      ensures Lists()
      ensures C.Progress(State(), mark)
           == C.InputPackets(C.Progress(old(State()), C.NoAck), Parse(cfg.conv, data).packets)
      ensures status == Parse(cfg.conv, data).status
      ensures acklist == old(acklist) || fresh(acklist)
    {
      ghost var goal, end := C.InputPackets(C.Progress(State(), C.NoAck), Parse(cfg.conv, data).packets), Parse(cfg.conv, data).status;
      var rest := data;
      mark := C.NoAck;
      while |rest| >= OVERHEAD
        invariant Lists() && Decoding(State(), mark, rest, goal, end)
        invariant acklist == old(acklist) || fresh(acklist)
        decreases |rest|
      {
        if Dec32(rest, 0) != cfg.conv {
          return mark, -1;
        }
        var len := Dec32(rest, 20);
        if |rest| - OVERHEAD < len || len >= HALF {
          return mark, -2;
        }
        if !KnownCmd(rest[4]) {
          return mark, -3;
        }
        var p := DecodePacket(rest);
        DecodesOn(State(), mark, rest, goal, end);
        ghost var x := C.Progress(State(), mark);
        ReadSegment(p);
        if p.cmd == CMD_ACK {
          mark := NoteAck(mark, p.sn, p.ts);
        }
        assert C.Progress(State(), mark) == C.InputPacket(x, p);
        rest := rest[OVERHEAD + len..];
      }
      status := 0;
    }

    /** Remember the newest acknowledgement of the datagram, by number and by time. */
    method NoteAck(mark: C.Mark, sn: int, ts: int) returns (newest: C.Mark)
      requires cfg.wrap
      ensures newest == C.Note(cfg, mark, sn, ts)
    {
      newest := mark;
      if mark.NoAck? {
        newest := C.Newest(sn, ts);
      } else if TimeDiff(sn, mark.sn) > 0 {
        if TimeDiff(ts, mark.ts) > 0 {
          newest := C.Newest(sn, ts);
        }
      }
    }

    method Input(data: Bytes) returns (ret: int)
      requires Valid()
      modifies this`snd, this`nsndBuf, this`rtt, this`cc
      modifies this`rcvBuf, this`rcvQueue, this`nrcvBuf, this`nrcvQue, this`rcvNxt
      modifies this`acklist, this`ackcount, this`ackblock, acklist, this`probe, this`cc
      ensures Lists()
      ensures State() == C.InputBytes(old(State()), data).k && ret == C.InputBytes(old(State()), data).ret
      ensures acklist == old(acklist) || fresh(acklist)
    {
      var prevUna := snd.una;
      StartOk(State());
      snd := snd.(ackedLen := 0);
      assert State() == C.StartInput(old(State())).k;
      if |data| < OVERHEAD {
        return -1;
      }
      var mark, status := DecodeLoop(data);
      if status != 0 {
        return status;
      }
      FinishInput(prevUna, mark);
      ret := 0;
    }

    // ----- output staging -----

    /** `memcpy` into the staging buffer; the bounds check is the proof that it is never overrun. */
    method Copy(at: int, bs: Bytes) returns (end: int)
      requires 0 <= at && at + |bs| <= buffer.Length
      modifies buffer
      ensures end == at + |bs| && buffer[..end] == old(buffer[..at]) + bs
    {
      for i := 0 to |bs|
        invariant buffer[..at] == old(buffer[..at])
        invariant buffer[at..at + i] == bs[..i]
      {
        buffer[at + i] := bs[i];
      }
      end := at + |bs|;
      assert buffer[..end] == buffer[..at] + buffer[at..end];
    }

    /** `ikcp_encode_seg`, field by field. */
    method EncodeSegment(at: int, p: Packet) returns (end: int)
      requires 0 <= at && at + OVERHEAD <= buffer.Length
      modifies buffer
      ensures end == at + OVERHEAD && buffer[..end] == old(buffer[..at]) + Header(p)
    {
      end := EncodeLead(at, p);
      end := Copy(end, Enc32(p.ts));
      end := Copy(end, Enc32(p.sn));
      end := Copy(end, Enc32(p.una));
      end := Copy(end, Enc32(|p.data|));
      Chain5(old(buffer[..at]), Lead(p), Enc32(p.ts), Enc32(p.sn), Enc32(p.una), Enc32(|p.data|));
    }

    /** Conversation, command, fragment number and window. */
    method EncodeLead(at: int, p: Packet) returns (end: int)
      requires 0 <= at && at + OVERHEAD <= buffer.Length
      modifies buffer
      ensures end == at + 8 && buffer[..end] == old(buffer[..at]) + Lead(p)
    {
      end := Copy(at, Enc32(p.conv));
      end := Copy(end, [p.cmd % 256]);
      end := Copy(end, [p.frg % 256]);
      end := Copy(end, Enc16(p.wnd));
      Chain4(old(buffer[..at]), Enc32(p.conv), [p.cmd % 256], [p.frg % 256], Enc16(p.wnd));
    }

    /** `ikcp_output`: an empty buffer produces no datagram. */
    method Output(size: int)
      requires 0 <= size <= buffer.Length
      modifies this`sent
      ensures sent == if size == 0 then old(sent) else old(sent) + [buffer[..size]]
    {
      if size == 0 { return; }
      sent := sent + [buffer[..size]];
    }

    /** Make room if the segment would pass the mtu, then encode it behind what is staged. */
    method StagePacket(ptr: int, p: Packet, ghost st: Staging, ghost base: seq<Bytes>) returns (next: int)
      requires Staged(cfg.mtu, st, base, ptr, sent, buffer[..]) && OVERHEAD + |p.data| <= cfg.mtu
      modifies this`sent, buffer
      ensures Staged(cfg.mtu, Stage(cfg.mtu, st, p), base, next, sent, buffer[..])
    {
      next := ptr;
      ghost var cur := st.cur;
      if ptr + OVERHEAD + |p.data| > cfg.mtu {
        assert ptr == 0 ==> st.cur == [];
        Output(ptr);
        EncodeSnoc(st.done, st.cur);
        next := 0;
        cur := [];
      }
      assert buffer[..next] == DatagramBytes(cur);
      next := EncodeSegment(next, p);
      next := Copy(next, p.data);
      StagedBytes(cur, p);
    }

    // ----- ikcp_flush -----

    method WndUnused() returns (w: int)
      requires RcvCounters() && AcksOk()
      ensures w == C.WndUnused(State())
    {
      if nrcvQue < cfg.rcvWnd { return cfg.rcvWnd - nrcvQue; }
      return 0;
    }

    /** `ikcp_ack_get`. */
    method AckGet(p: int) returns (sn: int, ts: int)
      requires AcksOk() && 0 <= p < ackcount
      ensures C.Ack(sn, ts) == Acks()[p]
    {
      sn := acklist[p * 2];
      ts := acklist[p * 2 + 1];
    }

    /** Stage one ACK per pending acknowledgement; the header keeps the last one's number and time. */
    method StageAcks(wnd: int, ghost k: C.Kcb) returns (ptr: int, sn: int, ts: int, ghost st: Staging)
      requires AcksOk() && buffer as object != acklist as object && buffer.Length == (cfg.mtu + OVERHEAD) * 3
      requires k.cfg == cfg && k.rcv.nxt == rcvNxt && k.rcv.acks == Acks() && wnd == C.WndUnused(k) % 65536
      modifies this`sent, buffer
      ensures AcksStaged(k, |k.rcv.acks|, sn, ts, st)
      ensures Staged(cfg.mtu, st, old(sent), ptr, sent, buffer[..])
    {
      sn, ts, ptr, st := 0, 0, 0, Staging([], []);
      assert buffer[..][..0] == DatagramBytes([]);
      ptr, sn, ts, st := StageAllAcks(wnd, k, st, old(sent));
    }

    method StageAllAcks(wnd: int, ghost k: C.Kcb, ghost st0: Staging, ghost base: seq<Bytes>)
      returns (ptr: int, sn: int, ts: int, ghost st: Staging)
      requires AcksOk() && buffer as object != acklist as object
      requires k.cfg == cfg && k.rcv.nxt == rcvNxt && k.rcv.acks == Acks() && wnd == C.WndUnused(k) % 65536
      requires AcksStaged(k, 0, 0, 0, st0) && Staged(cfg.mtu, st0, base, 0, sent, buffer[..])
      modifies this`sent, buffer
      ensures AcksStaged(k, |k.rcv.acks|, sn, ts, st) && Staged(cfg.mtu, st, base, ptr, sent, buffer[..])
    {
      sn, ts, ptr, st := 0, 0, 0, st0;
      for i := 0 to ackcount
        invariant k.rcv.acks == Acks() && AcksStaged(k, i, sn, ts, st) && Staged(cfg.mtu, st, base, ptr, sent, buffer[..])
      {
        ptr, sn, ts, st := StageAck(i, ptr, wnd, k, sn, ts, st, base);
      }
    }

    method StageAck(i: int, ptr: int, wnd: int, ghost k: C.Kcb, ghost sn0: int, ghost ts0: int, ghost st: Staging, ghost base: seq<Bytes>)
      returns (next: int, sn: int, ts: int, ghost st': Staging)
      requires AcksOk() && buffer as object != acklist as object && 0 <= i < ackcount
      requires k.cfg == cfg && k.rcv.nxt == rcvNxt && k.rcv.acks == Acks() && wnd == C.WndUnused(k) % 65536
      requires AcksStaged(k, i, sn0, ts0, st) && Staged(cfg.mtu, st, base, ptr, sent, buffer[..])
      modifies this`sent, buffer
      ensures k.rcv.acks == Acks() && AcksStaged(k, i + 1, sn, ts, st')
      ensures Staged(cfg.mtu, st', base, next, sent, buffer[..])
    {
      AcksStagedStep(k, i, sn0, ts0, st);
      sn, ts := AckGet(i);
      var p := Packet(cfg.conv, CMD_ACK, 0, wnd, ts, sn, rcvNxt, []);
      next := StagePacket(ptr, p, st, base);
      st' := Stage(cfg.mtu, st, p);
    }

    /** Stage the pending acknowledgements and forget them. */
    method FlushAcks(wnd: int, ghost k: C.Kcb) returns (ptr: int, sn: int, ts: int, ghost st: Staging)
      requires AcksOk() && buffer as object != acklist as object && buffer.Length == (cfg.mtu + OVERHEAD) * 3
      requires k.cfg == cfg && k.rcv.nxt == rcvNxt && k.rcv.acks == Acks() && wnd == C.WndUnused(k) % 65536
      modifies this`sent, buffer, this`ackcount
      ensures AcksOk() && ackcount == 0 && AcksStaged(k, |k.rcv.acks|, sn, ts, st)
      ensures Staged(cfg.mtu, st, old(sent), ptr, sent, buffer[..])
    {
      ptr, sn, ts, st := StageAcks(wnd, k);
      ackcount := 0;
    }

    /** The zero-window probe timer. */
    method TickProbe()
      modifies this`probe
      ensures probe == C.ProbeTick(old(probe), cc.rmtWnd, clock.current)
    {
      if cc.rmtWnd == 0 {
        if probe.wait == 0 {
          probe := probe.(wait := C.PROBE_INIT);
          probe := probe.(ts := U32(clock.current + probe.wait));
        } else if TimeDiff(clock.current, probe.ts) >= 0 {
          if probe.wait < C.PROBE_INIT { probe := probe.(wait := C.PROBE_INIT); }
          probe := probe.(wait := U32(probe.wait + probe.wait / 2));
          if probe.wait > C.PROBE_LIMIT { probe := probe.(wait := C.PROBE_LIMIT); }
          probe := probe.(ts := U32(clock.current + probe.wait), ask := true);
        }
      } else {
        probe := probe.(ts := 0, wait := 0);
      }
    }

    /** Stage a probe segment when its flag is up. */
    method FlushProbe(ptr: int, flag: bool, p: Packet, ghost st: Staging, ghost base: seq<Bytes>)
      returns (next: int, ghost st': Staging)
      requires Staged(cfg.mtu, st, base, ptr, sent, buffer[..]) && p.data == []
      modifies this`sent, buffer
      ensures st' == if flag then Stage(cfg.mtu, st, p) else st
      ensures Staged(cfg.mtu, st', base, next, sent, buffer[..])
    {
      next, st' := ptr, st;
      if flag {
        next := StagePacket(ptr, p, st, base);
        st' := Stage(cfg.mtu, st, p);
      }
    }

    /** The probe timer, the probes it or the peer asked for, and the reset of the request flags. */
    method StageProbes(start: int, wask: Packet, ghost st: Staging, ghost base: seq<Bytes>)
      returns (ptr: int, ghost st': Staging)
      requires Staged(cfg.mtu, st, base, start, sent, buffer[..]) && wask.data == []
      modifies this`sent, buffer, this`probe
      ensures ProbesFlushed(cfg.mtu, old(probe), cc.rmtWnd, clock.current, wask, st, probe, st')
      ensures Staged(cfg.mtu, st', base, ptr, sent, buffer[..])
    {
      TickProbe();
      ptr, st' := FlushProbe(start, probe.ask, wask, st, base);
      ptr, st' := FlushProbe(ptr, probe.tell, wask.(cmd := CMD_WINS), st', base);
      probe := probe.(ask := false, tell := false);
    }

    /** The probe part of a flush, behind the acknowledgements. */
    method FlushProbes(start: int, wnd: int, sn: int, ts: int, ghost k: C.Kcb, ghost st: Staging, ghost base: seq<Bytes>)
      returns (ptr: int, ghost st': Staging)
      requires Staged(cfg.mtu, st, base, start, sent, buffer[..]) && AcksStaged(k, |k.rcv.acks|, sn, ts, st)
      requires k.cfg == cfg && k.rcv.nxt == rcvNxt && wnd == C.WndUnused(k) % 65536
      requires k.probe == probe && k.cc == cc && k.clock == clock
      modifies this`sent, buffer, this`probe
      ensures ControlFlushed(k, probe, st') && Staged(cfg.mtu, st', base, ptr, sent, buffer[..])
    {
      var wask := Packet(cfg.conv, CMD_WASK, 0, wnd, ts, sn, rcvNxt, []);
      ptr, st' := StageProbes(start, wask, st, base);
      ControlFlushedBy(k, sn, ts, st, wnd, probe, st');
    }

    /** Acknowledgements, then the window probe and the window report if asked for. */
    method FlushControl(wnd: int, ghost k: C.Kcb) returns (ptr: int, ghost st: Staging)
      requires AcksOk() && buffer as object != acklist as object && buffer.Length == (cfg.mtu + OVERHEAD) * 3
      requires k.cfg == cfg && k.rcv.nxt == rcvNxt && k.rcv.acks == Acks() && wnd == C.WndUnused(k) % 65536
      requires k.probe == probe && k.cc == cc && k.clock == clock
      modifies this`sent, buffer, this`ackcount, this`probe
      ensures AcksOk() && ackcount == 0 && ControlFlushed(k, probe, st)
      ensures Staged(cfg.mtu, st, old(sent), ptr, sent, buffer[..])
    {
      var sn, ts;
      ptr, sn, ts, st := FlushAcks(wnd, k);
      ptr, st := FlushProbes(ptr, wnd, sn, ts, k, st, old(sent));
    }

    /** Move queued segments into the send buffer while the window has room. */
    method Admit(window: int)
      requires cfg.wrap && SndCounters()
      modifies this`snd, this`nsndQue, this`nsndBuf
      ensures SndCounters() && snd == C.Admit(cfg, old(snd), window, clock.current, rtt.rto)
    {
      while TimeDiff(snd.nxt, U32(snd.una + window)) < 0
        invariant SndCounters()
        invariant C.Admit(cfg, snd, window, clock.current, rtt.rto) == C.Admit(cfg, old(snd), window, clock.current, rtt.rto)
        decreases |snd.queue|
      {
        if snd.queue == [] { break; }
        var seg := C.SndSeg(snd.nxt, snd.queue[0], clock.current, clock.current, rtt.rto, 0, 0);
        snd := snd.(queue := snd.queue[1..], buf := snd.buf + [seg], nxt := U32(snd.nxt + 1));
        nsndQue := nsndQue - 1;
        nsndBuf := nsndBuf + 1;
      }
    }

    /** One segment of the transmit loop: first send, timeout or fast retransmit. */
    method Transmit(segment: SndSeg) returns (seg: SndSeg, needsend: bool, lost: bool, change: bool)
      ensures C.Tx(seg, needsend, lost, change) == C.Transmit(cfg, rtt.rto, clock.current, segment)
    {
      var now := clock.current;
      var resent := if cfg.fastresend > 0 then cfg.fastresend else 0xffff_ffff;
      var rtomin := if cfg.nodelay == 0 then rtt.rto / 8 else 0;
      seg, needsend, lost, change := segment, false, false, false;
      if seg.xmit == 0 {
        needsend := true;
        seg := seg.(xmit := seg.xmit + 1, rto := rtt.rto);
        seg := seg.(resendts := U32(now + seg.rto + rtomin));
      } else if TimeDiff(now, seg.resendts) >= 0 {
        needsend := true;
        var rto := BackOff(seg.rto);
        seg := seg.(xmit := U32(seg.xmit + 1), rto := rto);
        seg := seg.(resendts := U32(now + seg.rto));
        lost := true;
      } else if seg.fastack >= resent {
        if I32(seg.xmit) <= cfg.fastlimit || cfg.fastlimit <= 0 {
          needsend := true;
          seg := seg.(xmit := U32(seg.xmit + 1), fastack := 0);
          seg := seg.(resendts := U32(now + seg.rto));
          change := true;
        }
      }
      if needsend {
        seg := seg.(ts := now);
      }
    }

    /** The next timeout of a segment that has timed out. */
    method BackOff(segRto: int) returns (rto: int)
      ensures rto == C.Backoff(cfg, rtt.rto, segRto)
    {
      if cfg.nodelay == 0 {
        rto := U32(segRto + Max(segRto, rtt.rto));
      } else {
        var step := if cfg.nodelay < 2 then I32(segRto) else rtt.rto;
        rto := U32(segRto + C.HalfTowardZero(step));
      }
    }

    /** Stage a data segment and note a dead link. */
    method SendSegment(ptr: int, wnd: int, seg: SndSeg, ghost k: C.Kcb, ghost st: Staging, ghost base: seq<Bytes>)
      returns (next: int)
      requires Staged(cfg.mtu, st, base, ptr, sent, buffer[..]) && |seg.frag.data| <= cfg.Mss()
      requires k.cfg == cfg && k.rcv.nxt == rcvNxt && wnd == C.WndUnused(k) % 65536
      modifies this`snd, this`sent, buffer
      ensures Staged(cfg.mtu, Stage(cfg.mtu, st, C.Stamp(k, CMD_PUSH, seg.sn, seg.ts, seg.frag)), base, next, sent, buffer[..])
      ensures snd == old(snd).(dead := old(snd.dead) || seg.xmit >= cfg.deadLink)
    {
      var p := Packet(cfg.conv, CMD_PUSH, seg.frag.frg, wnd, seg.ts, seg.sn, rcvNxt, seg.frag.data);
      next := StagePacket(ptr, p, st, base);
      if seg.xmit >= cfg.deadLink {
        snd := snd.(dead := true);
      }
    }

    /** Update the segment at `i` and count a timeout. */
    method TransmitAt(i: int) returns (seg: SndSeg, needsend: bool, lost: bool, change: bool)
      requires 0 <= i < |snd.buf|
      modifies this`snd
      ensures C.Tx(seg, needsend, lost, change) == C.Transmit(cfg, rtt.rto, clock.current, old(snd.buf[i]))
      ensures seg.frag == old(snd.buf[i].frag)
      ensures snd == old(snd).(buf := old(snd.buf)[i := seg], xmit := if lost then U32(old(snd.xmit) + 1) else old(snd.xmit))
    {
      seg, needsend, lost, change := Transmit(snd.buf[i]);
      SameFragment(cfg, rtt.rto, clock.current, snd.buf[i]);
      snd := snd.(buf := snd.buf[i := seg]);
      if lost {
        snd := snd.(xmit := U32(snd.xmit + 1));
      }
    }

    /** The body of the transmit loop for the segment at `i`. */
    method FlushSegment(i: int, ptr: int, wnd: int, ghost k: C.Kcb, ghost st: Staging, ghost base: seq<Bytes>)
      returns (next: int, ghost t: C.Tx, lost: bool, change: bool, ghost st': Staging)
      requires Staged(cfg.mtu, st, base, ptr, sent, buffer[..]) && 0 <= i < |snd.buf| && |snd.buf[i].frag.data| <= cfg.Mss()
      requires k.cfg == cfg && k.rtt == rtt && k.clock == clock && k.rcv.nxt == rcvNxt && wnd == C.WndUnused(k) % 65536
      modifies this`snd, this`sent, buffer
      ensures t == C.Transmit(cfg, rtt.rto, clock.current, old(snd.buf[i])) && lost == t.timeout && change == t.fast
      ensures st' == if t.send then Stage(cfg.mtu, st, C.Stamp(k, CMD_PUSH, t.seg.sn, t.seg.ts, t.seg.frag)) else st
      ensures Staged(cfg.mtu, st', base, next, sent, buffer[..])
      ensures snd == WithSegment(cfg, old(snd), i, t)
    {
      var seg, needsend;
      seg, needsend, lost, change := TransmitAt(i);
      t := C.Tx(seg, needsend, lost, change);
      next, st' := ptr, st;
      if needsend {
        next := SendSegment(ptr, wnd, seg, k, st, base);
        st' := Stage(cfg.mtu, st, C.Stamp(k, CMD_PUSH, seg.sn, seg.ts, seg.frag));
      }
    }

    /** Where the transmit loop stands, in the model and in the buffer. */
    ghost predicate AtSegment(k: C.Kcb, snd0: C.Snd, st0: Staging, base: seq<Bytes>, i: nat,
                              ptr: int, lost: bool, change: bool, r: C.Pass, st: Staging)
      reads this, buffer
    {
      Passed(k, snd0, st0, i, snd, r, st, lost, change) && Staged(cfg.mtu, st, base, ptr, sent, buffer[..])
    }

    /** One turn of the transmit loop, seen from its start. */
    method PassSegment(i: nat, ptr: int, wnd: int, lost: bool, change: bool,
                       ghost k: C.Kcb, ghost snd0: C.Snd, ghost st0: Staging, ghost r: C.Pass, ghost st: Staging, ghost base: seq<Bytes>)
      returns (next: int, lost': bool, change': bool, ghost r': C.Pass, ghost st': Staging)
      requires k.cfg == cfg && k.rtt == rtt && k.clock == clock && k.rcv.nxt == rcvNxt && wnd == C.WndUnused(k) % 65536
      requires i < |snd0.buf| && AllFit(cfg, snd0.buf) && AtSegment(k, snd0, st0, base, i, ptr, lost, change, r, st)
      modifies this`snd, this`sent, buffer
      ensures AtSegment(k, snd0, st0, base, i + 1, next, lost', change', r', st')
    {
      ghost var s, t := snd, C.Transmit(cfg, rtt.rto, clock.current, snd0.buf[i]);
      PassedNext(k, snd0, st0, i, s, r, st, lost, change);
      PassedStep(k, snd0, st0, i, s, r, st, lost, change, t);
      r' := C.SendPass(k, snd0.buf, i + 1);
      var timeout, fast;
      next, t, timeout, fast, st' := FlushSegment(i, ptr, wnd, k, st, base);
      lost', change' := lost || timeout, change || fast;
    }

    /** The turns of the transmit loop. */
    method PassAll(start: int, wnd: int, ghost k: C.Kcb, ghost snd0: C.Snd, ghost st0: Staging, ghost r0: C.Pass, ghost base: seq<Bytes>)
      returns (ptr: int, lost: bool, change: bool, ghost r: C.Pass, ghost st: Staging)
      requires k.cfg == cfg && k.rtt == rtt && k.clock == clock && k.rcv.nxt == rcvNxt && wnd == C.WndUnused(k) % 65536
      requires AllFit(cfg, snd0.buf) && |snd.buf| == |snd0.buf| && AtSegment(k, snd0, st0, base, 0, start, false, false, r0, st0)
      modifies this`snd, this`sent, buffer
      ensures AtSegment(k, snd0, st0, base, |snd0.buf|, ptr, lost, change, r, st)
    {
      ptr, lost, change, r, st := start, false, false, r0, st0;
      for i := 0 to |snd.buf|
        invariant AtSegment(k, snd0, st0, base, i, ptr, lost, change, r, st)
      {
        ptr, lost, change, r, st := PassSegment(i, ptr, wnd, lost, change, k, snd0, st0, r, st, base);
      }
    }

    /** The transmit loop over the send buffer. */
    method FlushSegments(start: int, wnd: int, ghost k: C.Kcb, ghost st0: Staging, ghost base: seq<Bytes>)
      returns (ptr: int, lost: bool, change: bool, ghost r: C.Pass, ghost st: Staging)
      requires Staged(cfg.mtu, st0, base, start, sent, buffer[..]) && 0 <= snd.xmit < M32
      requires k.cfg == cfg && k.rtt == rtt && k.clock == clock && k.rcv.nxt == rcvNxt && wnd == C.WndUnused(k) % 65536
      requires AllFit(cfg, snd.buf)
      modifies this`snd, this`sent, buffer
      ensures Passed(k, old(snd), st0, |old(snd.buf)|, snd, r, st, lost, change)
      ensures Staged(cfg.mtu, st, base, ptr, sent, buffer[..])
      ensures |snd.buf| == |old(snd.buf)| && snd.queue == old(snd.queue)
    {
      ghost var snd0 := snd;
      PassedNone(k, snd, st0);
      ptr, lost, change, r, st := PassAll(start, wnd, k, snd, st0, C.SendPass(k, snd.buf, 0), base);
      PassedAll(k, snd0, st0, snd, r, st, lost, change);
    }

    /** Window reduction at the end of a flush. */
    method Settle(lost: bool, change: bool)
      requires cfg.Valid()
      modifies this`cc
      ensures cc == C.Settle(cfg, old(cc), U32(snd.nxt - snd.una), change, lost)
    {
      var priorCwnd := cc.cwnd;
      if change {
        var inflight := U32(snd.nxt - snd.una);
        cc := cc.(ssthresh := inflight / 2);
        if cc.ssthresh < C.THRESH_MIN { cc := cc.(ssthresh := C.THRESH_MIN); }
        cc := cc.(cwnd := U32(cc.ssthresh + C.ResendAfter(cfg)));
        cc := cc.(incr := U32(cc.cwnd * cfg.Mss()));
      }
      if lost {
        cc := cc.(ssthresh := priorCwnd / 2);
        if cc.ssthresh < C.THRESH_MIN { cc := cc.(ssthresh := C.THRESH_MIN); }
        cc := cc.(cwnd := 1, incr := cfg.Mss());
      }
      if cc.cwnd < 1 {
        cc := cc.(cwnd := 1, incr := cfg.Mss());
      }
    }

    /** The window computation and the admission loop. */
    method AdmitQueued(ghost k: C.Kcb)
      requires cfg.wrap && SndCounters()
      requires k.cfg == cfg && k.snd == snd && k.cc == cc && k.rtt == rtt && k.clock == clock
      modifies this`snd, this`nsndQue, this`nsndBuf
      ensures SndCounters() && snd == C.Admitted(k)
    {
      var window := Min(cfg.sndWnd, cc.rmtWnd);
      if !cfg.nocwnd { window := Min(cc.cwnd, window); }
      Admit(window);
    }

    /** The last datagram and the window update. */
    method FinishFlush(ptr: int, lost: bool, change: bool, ghost st: Staging, ghost base: seq<Bytes>)
      requires cfg.Valid() && Staged(cfg.mtu, st, base, ptr, sent, buffer[..])
      modifies this`cc, this`sent
      ensures Settled(cfg, old(cc), snd, change, lost, cc)
      ensures sent == base + EncodeEach(Drain(st))
    {
      Drained(st);
      assert buffer[..ptr] == buffer[..][..ptr];
      Output(ptr);
      Settle(lost, change);
    }

    /** Admission, transmission, the last datagram, and the window update. */
    method FlushData(start: int, wnd: int, ghost k: C.Kcb, ghost st: Staging, ghost base: seq<Bytes>)
      returns (ghost f: FlushOutcome)
      requires cfg.Valid() && cfg.wrap && SndCounters() && wnd == C.WndUnused(k) % 65536
      requires k.cfg == cfg && k.snd == snd && k.cc == cc && k.rtt == rtt && k.clock == clock && k.rcv.nxt == rcvNxt
      requires Transmittable(k) && Staged(cfg.mtu, st, base, start, sent, buffer[..])
      modifies this`snd, this`nsndQue, this`nsndBuf, this`cc, this`sent, buffer
      ensures SndCounters() && DataFlushed(k, st, f) && snd == f.snd && cc == f.cc
      ensures sent == base + EncodeEach(Drain(f.st))
    {
      AdmitQueued(k);
      f := FlushAdmitted(start, wnd, k, st, base);
    }

    /** The same once the queue has been admitted. */
    method FlushAdmitted(start: int, wnd: int, ghost k: C.Kcb, ghost st: Staging, ghost base: seq<Bytes>)
      returns (ghost f: FlushOutcome)
      requires cfg.Valid() && SndCounters() && wnd == C.WndUnused(k) % 65536 && snd == C.Admitted(k)
      requires k.cfg == cfg && k.cc == cc && k.rtt == rtt && k.clock == clock && k.rcv.nxt == rcvNxt
      requires Transmittable(k) && Staged(cfg.mtu, st, base, start, sent, buffer[..])
      modifies this`snd, this`cc, this`sent, buffer
      ensures SndCounters() && DataFlushed(k, st, f) && snd == f.snd && cc == f.cc
      ensures sent == base + EncodeEach(Drain(f.st))
    {
      ghost var admitted := snd;
      ghost var r, st';
      var ptr, lost, change;
      ptr, lost, change, r, st' := FlushSegments(start, wnd, k, st, base);
      FinishFlush(ptr, lost, change, st', base);
      f := FlushOutcome(snd, cc, st');
      DataFlushedBy(k, st, admitted, r, f, lost, change);
    }

    /** A flush once `ikcp_update` has been called. */
    method FlushAll() returns (ghost ds: seq<Datagram>)
      requires Shape() && clock.updated && Transmittable(State())
      modifies this`snd, this`nsndQue, this`nsndBuf, this`ackcount, this`probe, this`cc, this`sent, buffer
      ensures SndCounters() && AcksOk() && ackcount == 0
      ensures WholeFlush(old(State()), snd, old(RcvView()).(acks := []), probe, cc, ds) && sent == old(sent) + EncodeEach(ds)
    {
      ghost var k := State();
      var wnd := WndUnused();
      var ptr;
      ghost var st, f;
      ptr, st := FlushControl(wnd % 65536, k);
      f := FlushData(ptr, wnd % 65536, k, st, old(sent));
      AssembleFlush(k, probe, st, f);
      ds := Drain(f.st);
    }

    method Flush()
      requires Valid()
      modifies this`snd, this`nsndQue, this`nsndBuf, this`ackcount, this`probe, this`cc, this`sent, buffer
      ensures SndCounters() && AcksOk()
      ensures State() == C.Flush(old(State())).k
      ensures sent == old(sent) + EncodeEach(C.Flush(old(State())).out)
    {
      if clock.updated {
        AdmittedFits(State());
        ghost var k := State();
        ghost var ds := FlushAll();
        NoPairs(acklist[..]);
        WholeIsFlush(k, State(), ds);
      }
    }

    // ----- ikcp_update, ikcp_check -----

    /** The clock half of `ikcp_update`. */
    method TickClock(now: int) returns (flush: bool)
      modifies this`clock
      ensures C.Tick(clock, flush) == C.TickClock(cfg, old(clock), now)
    {
      clock := clock.(current := now);
      if !clock.updated {
        clock := clock.(updated := true, tsFlush := clock.current);
      }
      var slap := TimeDiff(clock.current, clock.tsFlush);
      if slap >= 10000 || slap < -10000 {
        clock := clock.(tsFlush := clock.current);
        slap := 0;
      }
      flush := slap >= 0;
      if flush {
        clock := clock.(tsFlush := U32(clock.tsFlush + cfg.interval));
        if TimeDiff(clock.current, clock.tsFlush) >= 0 {
          clock := clock.(tsFlush := U32(clock.current + cfg.interval));
        }
      }
    }

    method Update(now: C.Time)
      requires Valid()
      modifies this`clock, this`snd, this`nsndQue, this`nsndBuf, this`ackcount, this`probe, this`cc, this`sent, buffer
      ensures SndCounters() && AcksOk()
      ensures State() == C.Update(old(State()), now).k
      ensures sent == old(sent) + EncodeEach(C.Update(old(State()), now).out)
    {
      var flush := TickClock(now);
      ClockKeeps(old(State()), clock);
      if flush {
        Flush();
      }
    }

    method Check(now: int) returns (at: int)
      requires AcksOk()
      ensures at == C.Check(State(), now)
    {
      var tsFlush := clock.tsFlush;
      if !clock.updated { return now; }
      if TimeDiff(now, tsFlush) >= 10000 || TimeDiff(now, tsFlush) < -10000 {
        tsFlush := now;
      }
      if TimeDiff(now, tsFlush) >= 0 { return now; }
      var tmFlush := TimeDiff(tsFlush, now);
      var tmPacket := 0x7fff_ffff;
      for p := 0 to |snd.buf|
        invariant 0 < tmPacket
        invariant C.NextDue(snd.buf, now, 0x7fff_ffff) == C.NextDue(snd.buf[p..], now, tmPacket)
      {
        assert snd.buf[p..][0] == snd.buf[p] && snd.buf[p..][1..] == snd.buf[p + 1..];
        var diff := TimeDiff(snd.buf[p].resendts, now);
        if diff <= 0 { return now; }
        if diff < tmPacket { tmPacket := diff; }
      }
      var minimal := if tmPacket < tmFlush then tmPacket else tmFlush;
      if minimal >= cfg.interval { minimal := cfg.interval; }
      at := U32(now + minimal);
    }

    // ----- any calls in any order -----

    method CallSend(data: Bytes) returns (reply: S.Reply)
      requires Valid()
      modifies this`snd, this`nsndQue
      ensures Shape() && Performed(old(State()), S.SendRequest(data), State(), old(sent), sent, reply)
    {
      var ret := Send(data);
      reply := S.Reply(ret, []);
      NoOutput(sent);
    }

    method CallRecv(len: int) returns (reply: S.Reply)
      requires Valid()
      modifies this`rcvBuf, this`rcvQueue, this`nrcvBuf, this`nrcvQue, this`rcvNxt, this`probe
      ensures Shape() && Performed(old(State()), S.RecvRequest(len), State(), old(sent), sent, reply)
    {
      var ret, data := Recv(len);
      reply := S.Reply(ret, data);
      NoOutput(sent);
    }

    method CallInput(bytes: Bytes) returns (reply: S.Reply)
      requires Valid()
      modifies this`snd, this`nsndBuf, this`rtt, this`cc
      modifies this`rcvBuf, this`rcvQueue, this`nrcvBuf, this`nrcvQue, this`rcvNxt
      modifies this`acklist, this`ackcount, this`ackblock, acklist, this`probe
      ensures Shape() && Performed(old(State()), S.InputRequest(bytes), State(), old(sent), sent, reply)
      ensures acklist == old(acklist) || fresh(acklist)
    {
      var ret := Input(bytes);
      reply := S.Reply(ret, []);
      NoOutput(sent);
    }

    method CallFlush() returns (reply: S.Reply)
      requires Valid()
      modifies this`snd, this`nsndQue, this`nsndBuf, this`ackcount, this`probe, this`cc, this`sent, buffer
      ensures Shape() && Performed(old(State()), S.FlushRequest, State(), old(sent), sent, reply)
    {
      Flush();
      reply := S.Reply(0, []);
    }

    method CallUpdate(now: C.Time) returns (reply: S.Reply)
      requires Valid()
      modifies this`clock, this`snd, this`nsndQue, this`nsndBuf, this`ackcount, this`probe, this`cc, this`sent, buffer
      ensures Shape() && Performed(old(State()), S.UpdateRequest(now), State(), old(sent), sent, reply)
    {
      Update(now);
      reply := S.Reply(0, []);
    }

    /** One call: the state it leaves, what it returns, and the bytes it outputs. */
    method Perform(r: S.Request) returns (reply: S.Reply)
      requires Valid()
      modifies this, acklist, buffer
      ensures Shape() && Performed(old(State()), r, State(), old(sent), sent, reply)
      ensures buffer == old(buffer) && (acklist == old(acklist) || fresh(acklist))
    {
      match r
      case SendRequest(data) => reply := CallSend(data);
      case RecvRequest(len) => reply := CallRecv(len);
      case InputRequest(bytes) => reply := CallInput(bytes);
      case FlushRequest => reply := CallFlush();
      case UpdateRequest(now) => reply := CallUpdate(now);
    }

    /** Every interleaving of calls keeps the object valid, computes the specified state and outputs the
        specified bytes. */
    method Serve(rs: seq<S.Request>)
      requires Valid()
      modifies this, acklist, buffer
      ensures Valid() && State() == S.ExecAll(old(State()), rs)
      ensures sent == old(sent) + EncodeEach(S.ExecOutAll(old(State()), rs))
      ensures buffer == old(buffer) && (acklist == old(acklist) || fresh(acklist))
    {
      NoOutput(sent);
      for i := 0 to |rs|
        invariant Shape() && Served(old(State()), rs[..i], State(), old(sent), sent)
        invariant buffer == old(buffer) && (acklist == old(acklist) || fresh(acklist))
      {
        ghost var k, base := State(), sent;
        S.ExecKeeps(k, rs[i]);
        var reply := Perform(rs[i]);
        ServedOn(old(State()), rs[..i], k, old(sent), base, rs[i], State(), sent, reply);
        PrefixSnoc(rs, i);
      }
      WholePrefix(rs);
    }
  }

  /** What one call did. */
  ghost predicate Performed(k: C.Kcb, r: S.Request, k': C.Kcb, base: seq<Bytes>, sent: seq<Bytes>, reply: S.Reply) {
    k' == S.Exec(k, r) && sent == base + EncodeEach(S.ExecOut(k, r)) && reply == S.ExecReply(k, r)
  }

  lemma NoOutput(sent: seq<Bytes>)
    ensures sent + EncodeEach([]) == sent
  {
  }

  /** Where a sequence of calls has led. */
  ghost predicate Served(k0: C.Kcb, rs: seq<S.Request>, k: C.Kcb, base: seq<Bytes>, sent: seq<Bytes>) {
    k == S.ExecAll(k0, rs) && S.KcbOk(k) && sent == base + EncodeEach(S.ExecOutAll(k0, rs))
  }

  lemma {:induction false} EncodeAppend(ds: seq<Datagram>, es: seq<Datagram>)
    ensures EncodeEach(ds + es) == EncodeEach(ds) + EncodeEach(es)
  {
  }

  lemma ServedOn(k0: C.Kcb, rs: seq<S.Request>, k: C.Kcb, base: seq<Bytes>, sent: seq<Bytes>, r: S.Request,
                 k': C.Kcb, sent': seq<Bytes>, reply: S.Reply)
    requires Served(k0, rs, k, base, sent) && Performed(k, r, k', sent, sent', reply) && S.KcbOk(S.Exec(k, r))
    ensures Served(k0, rs + [r], k', base, sent')
  {
    assert (rs + [r])[..|rs|] == rs;
    EncodeAppend(S.ExecOutAll(k0, rs), S.ExecOut(k, r));
    Assoc(base, EncodeEach(S.ExecOutAll(k0, rs)), EncodeEach(S.ExecOut(k, r)));
  }
}
