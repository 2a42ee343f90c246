/** The KCP control block and what each operation of `ikcp.c` does to it, as functions.
    `Config.wrap` selects 32-bit serial numbers (the C code) or unbounded ones (the
    reference the C code is compared with). Clock values are 32-bit in both. */
module Control {
  import opened Serial
  import opened Wire

  const RTO_NDL: int := 30
  const RTO_MIN: int := 100
  const RTO_DEF: int := 200
  const RTO_MAX: int := 60000
  const WND_SND: int := 32
  const WND_RCV: int := 128
  const MTU_DEF: int := 1400
  const INTERVAL: int := 100
  const DEADLINK: int := 20
  const THRESH_INIT: int := 2
  const THRESH_MIN: int := 2
  const PROBE_INIT: int := 5000
  const PROBE_LIMIT: int := 120000
  const FASTACK_LIMIT: int := 5

  /** What `ikcp_setmtu` accepts. */
  type Mtu = x: int | 50 <= x < HALF witness 1400

  type Time = x: int | 0 <= x < M32

  /** Settings fixed before traffic starts. */
  datatype Config = Config(
    wrap: bool, conv: int, mtu: Mtu, sndWnd: int, rcvWnd: int, stream: bool, nodelay: int,
    interval: int, fastresend: int, fastlimit: int, nocwnd: bool, minRto: int, deadLink: int)
  {
    function Mss(): (m: int) ensures m > 0 { mtu - OVERHEAD }

    /** What `ikcp_create`, `ikcp_setmtu`, `ikcp_nodelay` and `ikcp_wndsize` can leave behind. */
    ghost predicate Valid() {
      && 0 <= conv < M32
      && 0 < sndWnd < HALF
      && WND_RCV <= rcvWnd < HALF
      && 0 <= nodelay < HALF
      && 10 <= interval <= 5000
      && 0 <= fastresend < HALF
      && (minRto == RTO_NDL || minRto == RTO_MIN)
      && 0 <= deadLink < M32
    }
  }

  /** An unnumbered segment in `snd_queue`. */
  datatype Frag = Frag(frg: int, data: Bytes)

  /** A numbered segment in `snd_buf`. */
  datatype SndSeg = SndSeg(sn: int, frag: Frag, ts: int, resendts: int, rto: int, fastack: int, xmit: int)

  /** A segment in `rcv_buf` or `rcv_queue`. */
  datatype RcvSeg = RcvSeg(sn: int, frag: Frag)

  datatype Ack = Ack(sn: int, ts: int)

  datatype Snd = Snd(una: int, nxt: int, queue: seq<Frag>, buf: seq<SndSeg>, ackedLen: int, xmit: int, dead: bool)

  datatype Rcv = Rcv(nxt: int, buf: seq<RcvSeg>, queue: seq<RcvSeg>, acks: seq<Ack>)

  datatype Cc = Cc(cwnd: int, incr: int, ssthresh: int, rmtWnd: int)

  datatype Rtt = Rtt(srtt: int, rttval: int, rto: int)

  datatype Probe = Probe(ask: bool, tell: bool, ts: int, wait: int)

  datatype Clock = Clock(current: int, tsFlush: int, updated: bool)

  datatype Kcb = Kcb(cfg: Config, snd: Snd, rcv: Rcv, cc: Cc, rtt: Rtt, probe: Probe, clock: Clock)

  function Create(cfg: Config): Kcb {
    Kcb(cfg, Snd(0, 0, [], [], 0, 0, false), Rcv(0, [], [], []), Cc(0, 0, THRESH_INIT, WND_RCV),
        Rtt(0, 0, RTO_DEF), Probe(false, false, 0, 0), Clock(0, INTERVAL, false))
  }

  // ----- ikcp_send -----

  datatype Sent = Sent(queue: seq<Frag>, ret: int)

  /** `count` consecutive fragments of `data`; message mode numbers them down to 0. */
  function Cut(mss: int, stream: bool, data: Bytes, count: nat): seq<Frag>
    requires mss > 0
    decreases count
  {
    if count == 0 then []
    else
      var size := Min(|data|, mss);
      [Frag(if stream then 0 else count - 1, data[..size])] + Cut(mss, stream, data[size..], count - 1)
  }

  function FragCount(mss: int, len: nat): nat
    requires mss > 0
  {
    if len <= mss then 1 else (len + mss - 1) / mss
  }

  /** How many bytes a stream-mode send adds to the last queued segment. */
  function Extension(cfg: Config, queue: seq<Frag>, len: nat): (n: nat)
    ensures n <= len
  {
    if cfg.stream && queue != [] && |queue[|queue| - 1].data| < cfg.Mss()
    then Min(len, cfg.Mss() - |queue[|queue| - 1].data|) else 0
  }

  function Extended(cfg: Config, queue: seq<Frag>, data: Bytes): seq<Frag> {
    if cfg.stream && queue != [] && |queue[|queue| - 1].data| < cfg.Mss() then
      var last := queue[|queue| - 1];
      queue[..|queue| - 1] + [Frag(0, last.data + data[..Extension(cfg, queue, |data|)])]
    else queue
  }

  function Send(cfg: Config, queue: seq<Frag>, data: Bytes): (r: Sent)
    ensures r.ret <= |data|
  {
    var ext := Extension(cfg, queue, |data|);
    var queue1 := Extended(cfg, queue, data);
    var rest := data[ext..];
    if cfg.stream && rest == [] then Sent(queue1, ext)
    else
      var count := FragCount(cfg.Mss(), |rest|);
      if count >= WND_RCV then Sent(queue1, if cfg.stream && ext > 0 then ext else -2)
      else Sent(queue1 + Cut(cfg.Mss(), cfg.stream, rest, count), ext + |rest|)
  }

  // ----- ikcp_peeksize, ikcp_recv -----

  /** Segments up to and including the first with `frg` 0, or all of them. */
  function MessageSpan(q: seq<RcvSeg>): (n: nat)
    ensures n <= |q| && (q != [] ==> n > 0)
  {
    if q == [] then 0 else if q[0].frag.frg == 0 then 1 else 1 + MessageSpan(q[1..])
  }

  function Merge(q: seq<RcvSeg>): Bytes {
    if q == [] then [] else q[0].frag.data + Merge(q[1..])
  }

  /** Lengths added up to and including the first segment with `frg` 0, or over all of them. */
  function PeekLength(q: seq<RcvSeg>): nat {
    if q == [] then 0
    else |q[0].frag.data| + if q[0].frag.frg == 0 then 0 else PeekLength(q[1..])
  }

  function PeekSize(q: seq<RcvSeg>): int {
    if q == [] then -1
    else if q[0].frag.frg == 0 then |q[0].frag.data|
    else if |q| < q[0].frag.frg + 1 then -1
    else PeekLength(q)
  }

  /** Move segments that have become next in line from `rcv_buf` to `rcv_queue`. */
  function MoveReady(cfg: Config, rcv: Rcv): Rcv
    decreases |rcv.buf|
  {
    if rcv.buf != [] && rcv.buf[0].sn == rcv.nxt && |rcv.queue| < cfg.rcvWnd then
      MoveReady(cfg, rcv.(nxt := Plus(cfg.wrap, rcv.nxt, 1), buf := rcv.buf[1..], queue := rcv.queue + [rcv.buf[0]]))
    else rcv
  }

  datatype Received = Received(k: Kcb, ret: int, data: Bytes)

  /** Hand out the first message, remove it unless peeking, and refill the queue. */
  function Take(k: Kcb, peek: bool): Received {
    var q := k.rcv.queue;
    var n := MessageSpan(q);
    var data := Merge(q[..n]);
    var rcv := MoveReady(k.cfg, k.rcv.(queue := if peek then q else q[n..]));
    var recovered := |q| >= k.cfg.rcvWnd && |rcv.queue| < k.cfg.rcvWnd;
    Received(k.(rcv := rcv, probe := k.probe.(tell := k.probe.tell || recovered)), |data|, data)
  }

  /** A negative `len` peeks: nothing is removed. */
  function Recv(k: Kcb, len: int): Received {
    var size := PeekSize(k.rcv.queue);
    if k.rcv.queue == [] then Received(k, -1, [])
    else if size < 0 then Received(k, -2, [])
    else if size > (if len < 0 then -len else len) then Received(k, -3, [])
    else Take(k, len < 0)
  }

  // ----- acknowledgement processing -----

  function UpdateAck(cfg: Config, r: Rtt, sample: int): Rtt {
    var r1 :=
      if r.srtt == 0 then r.(srtt := sample, rttval := sample / 2)
      else
        var delta := if sample < r.srtt then r.srtt - sample else sample - r.srtt;
        r.(rttval := (3 * r.rttval + delta) / 4, srtt := Max((7 * r.srtt + sample) / 8, 1));
    var rto := U32(r1.srtt + Max(cfg.interval, U32(4 * r1.rttval)));
    r1.(rto := Min(Max(cfg.minRto, rto), RTO_MAX))
  }

  function ParseUna(cfg: Config, snd: Snd, una: int): Snd
    decreases |snd.buf|
  {
    if snd.buf != [] && Diff(cfg.wrap, una, snd.buf[0].sn) > 0 then
      ParseUna(cfg, snd.(buf := snd.buf[1..], ackedLen := snd.ackedLen + |snd.buf[0].frag.data|), una)
    else snd
  }

  function ShrinkBuf(snd: Snd): Snd {
    snd.(una := if snd.buf != [] then snd.buf[0].sn else snd.nxt)
  }

  /** Where the walk of `ikcp_parse_ack` finds `sn`, or -1. */
  function FindSn(cfg: Config, buf: seq<SndSeg>, sn: int): (i: int)
    ensures -1 <= i < |buf|
    ensures i >= 0 ==> buf[i].sn == sn
  {
    if buf == [] then -1
    else if sn == buf[0].sn then 0
    else if Diff(cfg.wrap, sn, buf[0].sn) < 0 then -1
    else
      var i := FindSn(cfg, buf[1..], sn);
      if i < 0 then -1 else i + 1
  }

  predicate InFlight(cfg: Config, snd: Snd, sn: int) {
    Diff(cfg.wrap, sn, snd.una) >= 0 && Diff(cfg.wrap, sn, snd.nxt) < 0
  }

  function ParseAck(cfg: Config, snd: Snd, sn: int): Snd {
    if !InFlight(cfg, snd, sn) then snd
    else
      var i := FindSn(cfg, snd.buf, sn);
      if i < 0 then snd
      else snd.(buf := snd.buf[..i] + snd.buf[i + 1..], ackedLen := snd.ackedLen + |snd.buf[i].frag.data|)
  }

  /** Count one skip for every segment before `sn` that was sent no later than `ts`. */
  function BumpSkipped(cfg: Config, buf: seq<SndSeg>, sn: int, ts: int): seq<SndSeg> {
    if buf == [] || Diff(cfg.wrap, sn, buf[0].sn) < 0 then buf
    else
      var s := buf[0];
      [if sn != s.sn && TimeDiff(ts, s.ts) >= 0 then s.(fastack := U32(s.fastack + 1)) else s]
      + BumpSkipped(cfg, buf[1..], sn, ts)
  }

  function ParseFastack(cfg: Config, snd: Snd, sn: int, ts: int): Snd {
    if !InFlight(cfg, snd, sn) then snd else snd.(buf := BumpSkipped(cfg, snd.buf, sn, ts))
  }

  // ----- ikcp_parse_data -----

  /** Sorted insertion, searching from the back; a repeated number changes nothing. */
  function Insert(cfg: Config, buf: seq<RcvSeg>, s: RcvSeg): seq<RcvSeg> {
    if buf == [] then [s]
    else
      var last := buf[|buf| - 1];
      if last.sn == s.sn then buf
      else if Diff(cfg.wrap, s.sn, last.sn) > 0 then buf + [s]
      else Insert(cfg, buf[..|buf| - 1], s) + [last]
  }

  predicate BelowWindowEnd(cfg: Config, rcv: Rcv, sn: int) {
    Diff(cfg.wrap, sn, Plus(cfg.wrap, rcv.nxt, cfg.rcvWnd)) < 0
  }

  function ParseData(cfg: Config, rcv: Rcv, s: RcvSeg): Rcv {
    if !BelowWindowEnd(cfg, rcv, s.sn) || Diff(cfg.wrap, s.sn, rcv.nxt) < 0 then rcv
    else MoveReady(cfg, rcv.(buf := Insert(cfg, rcv.buf, s)))
  }

  // ----- ikcp_input -----

  /** The newest acknowledgement seen in the current datagram. */
  datatype Mark = NoAck | Newest(sn: int, ts: int)

  function Note(cfg: Config, m: Mark, sn: int, ts: int): Mark {
    if m.NoAck? || (Diff(cfg.wrap, sn, m.sn) > 0 && TimeDiff(ts, m.ts) > 0) then Newest(sn, ts) else m
  }

  datatype Progress = Progress(k: Kcb, mark: Mark)

  function InputSnd(cfg: Config, snd: Snd, p: Packet): Snd {
    var snd1 := ShrinkBuf(ParseUna(cfg, snd, p.una));
    if p.cmd == CMD_ACK then ShrinkBuf(ParseAck(cfg, snd1, p.sn)) else snd1
  }

  function InputRcv(cfg: Config, rcv: Rcv, p: Packet): Rcv {
    if p.cmd == CMD_PUSH && BelowWindowEnd(cfg, rcv, p.sn) then
      var rcv1 := rcv.(acks := rcv.acks + [Ack(p.sn, p.ts)]);
      if Diff(cfg.wrap, p.sn, rcv.nxt) >= 0 then ParseData(cfg, rcv1, RcvSeg(p.sn, Frag(p.frg, p.data))) else rcv1
    else rcv
  }

  function InputRtt(cfg: Config, r: Rtt, current: int, p: Packet): Rtt {
    if p.cmd == CMD_ACK && TimeDiff(current, p.ts) >= 0 then UpdateAck(cfg, r, TimeDiff(current, p.ts)) else r
  }

  function ReadPacket(k: Kcb, p: Packet): Kcb {
    k.(snd := InputSnd(k.cfg, k.snd, p),
       rcv := InputRcv(k.cfg, k.rcv, p),
       rtt := InputRtt(k.cfg, k.rtt, k.clock.current, p),
       cc := k.cc.(rmtWnd := p.wnd),
       probe := k.probe.(tell := k.probe.tell || p.cmd == CMD_WASK))
  }

  function InputPacket(x: Progress, p: Packet): Progress {
    Progress(ReadPacket(x.k, p), if p.cmd == CMD_ACK then Note(x.k.cfg, x.mark, p.sn, p.ts) else x.mark)
  }

  function InputPackets(x: Progress, ps: seq<Packet>): Progress
    decreases |ps|
  {
    if ps == [] then x else InputPackets(InputPacket(x, ps[0]), ps[1..])
  }

  /** Window growth after `snd_una` advanced. */
  function Grow(cfg: Config, c: Cc): Cc {
    var mss := cfg.Mss();
    if c.cwnd >= c.rmtWnd then c
    else
      var c1 :=
        if c.cwnd < c.ssthresh then c.(cwnd := U32(c.cwnd + 1), incr := U32(c.incr + mss))
        else
          var base := Max(c.incr, mss);
          var incr := U32(base + U32(mss * mss) / base + mss / 16);
          if U32(U32(c.cwnd + 1) * mss) <= incr
          then c.(cwnd := U32(incr + mss - 1) / Max(mss, 1), incr := incr)
          else c.(incr := incr);
      if c1.cwnd > c1.rmtWnd then c1.(cwnd := c1.rmtWnd, incr := U32(c1.rmtWnd * mss)) else c1
  }

  /** After the last segment of a well-formed datagram: fast-ack counting and window growth. */
  function FinishInput(prevUna: int, x: Progress): Kcb {
    var k := x.k;
    var k1 := if x.mark.NoAck? then k else k.(snd := ParseFastack(k.cfg, k.snd, x.mark.sn, x.mark.ts));
    if Diff(k.cfg.wrap, k1.snd.una, prevUna) > 0 then k1.(cc := Grow(k.cfg, k1.cc)) else k1
  }

  function StartInput(k: Kcb): Progress {
    Progress(k.(snd := k.snd.(ackedLen := 0)), NoAck)
  }

  /** The effect of a datagram whose decode loop yields `d` and ends with `status`. */
  function Input(k: Kcb, d: Parsed): Kcb {
    var x := InputPackets(StartInput(k), d.packets);
    if d.status == 0 then FinishInput(k.snd.una, x) else x.k
  }

  datatype Inputted = Inputted(k: Kcb, ret: int)

  /** `ikcp_input` on raw bytes. */
  function InputBytes(k: Kcb, b: Bytes): Inputted {
    if |b| < OVERHEAD then Inputted(StartInput(k).k, -1)
    else
      var d := Parse(k.cfg.conv, b);
      Inputted(Input(k, d), d.status)
  }

  // ----- ikcp_flush -----

  function WndUnused(k: Kcb): int {
    if |k.rcv.queue| < k.cfg.rcvWnd then k.cfg.rcvWnd - |k.rcv.queue| else 0
  }

  /** A segment carrying this endpoint's window and cumulative acknowledgement. */
  function Stamp(k: Kcb, cmd: int, sn: int, ts: int, f: Frag): Packet {
    Packet(k.cfg.conv, cmd, f.frg, WndUnused(k) % 65536, ts, sn, k.rcv.nxt, f.data)
  }

  function AckPackets(k: Kcb): (ps: seq<Packet>) {
    seq(|k.rcv.acks|, i requires 0 <= i < |k.rcv.acks| =>
      Stamp(k, CMD_ACK, k.rcv.acks[i].sn, k.rcv.acks[i].ts, Frag(0, [])))
  }

  /** Probe segments reuse the number and time left in the header by the last acknowledgement. */
  function ProbePacket(k: Kcb, cmd: int): Packet {
    var n := |k.rcv.acks|;
    if n == 0 then Stamp(k, cmd, 0, 0, Frag(0, []))
    else Stamp(k, cmd, k.rcv.acks[n - 1].sn, k.rcv.acks[n - 1].ts, Frag(0, []))
  }

  /** Zero-window probing timer. */
  function ProbeTick(p: Probe, rmtWnd: int, now: int): Probe {
    if rmtWnd != 0 then p.(ts := 0, wait := 0)
    else if p.wait == 0 then p.(wait := PROBE_INIT, ts := U32(now + PROBE_INIT))
    else if TimeDiff(now, p.ts) >= 0 then
      var base := Max(p.wait, PROBE_INIT);
      var wait := Min(U32(base + base / 2), PROBE_LIMIT);
      p.(wait := wait, ts := U32(now + wait), ask := true)
    else p
  }

  function ControlPackets(k: Kcb): seq<Packet> {
    var p := ProbeTick(k.probe, k.cc.rmtWnd, k.clock.current);
    AckPackets(k)
    + (if p.ask then [ProbePacket(k, CMD_WASK)] else [])
    + (if p.tell then [ProbePacket(k, CMD_WINS)] else [])
  }

  function SendWindow(k: Kcb): int {
    var w := Min(k.cfg.sndWnd, k.cc.rmtWnd);
    if k.cfg.nocwnd then w else Min(k.cc.cwnd, w)
  }

  /** Number queued segments and move them to `snd_buf` while the window has room. */
  function Admit(cfg: Config, snd: Snd, window: int, now: int, rto: int): Snd
    decreases |snd.queue|
  {
    if Diff(cfg.wrap, snd.nxt, Plus(cfg.wrap, snd.una, window)) < 0 && snd.queue != [] then
      Admit(cfg, snd.(nxt := Plus(cfg.wrap, snd.nxt, 1), queue := snd.queue[1..],
                      buf := snd.buf + [SndSeg(snd.nxt, snd.queue[0], now, now, rto, 0, 0)]),
            window, now, rto)
    else snd
  }

  /** What one pass does with one buffered segment. */
  datatype Tx = Tx(seg: SndSeg, send: bool, timeout: bool, fast: bool)

  function HalfTowardZero(x: int): int {
    if x >= 0 then x / 2 else -((-x) / 2)
  }

  function Backoff(cfg: Config, rto: int, segRto: int): int {
    if cfg.nodelay == 0 then U32(segRto + Max(segRto, rto))
    else U32(segRto + HalfTowardZero(if cfg.nodelay < 2 then I32(segRto) else rto))
  }

  function ResendAfter(cfg: Config): int {
    if cfg.fastresend > 0 then cfg.fastresend else 0xffff_ffff
  }

  function Transmit(cfg: Config, rto: int, now: int, s: SndSeg): Tx {
    if s.xmit == 0 then
      var late := if cfg.nodelay == 0 then rto / 8 else 0;
      Tx(s.(xmit := 1, rto := rto, resendts := U32(now + rto + late), ts := now), true, false, false)
    else if TimeDiff(now, s.resendts) >= 0 then
      var rto1 := Backoff(cfg, rto, s.rto);
      Tx(s.(xmit := U32(s.xmit + 1), rto := rto1, resendts := U32(now + rto1), ts := now), true, true, false)
    else if s.fastack >= ResendAfter(cfg) && (I32(s.xmit) <= cfg.fastlimit || cfg.fastlimit <= 0) then
      Tx(s.(xmit := U32(s.xmit + 1), fastack := 0, resendts := U32(now + s.rto), ts := now), true, false, true)
    else Tx(s, false, false, false)
  }

  /** The outcome of the transmit loop over the first `n` buffered segments. */
  datatype Pass = Pass(pushes: seq<Packet>, segs: seq<SndSeg>, timeouts: nat, fasts: nat, dead: bool)

  function SendPass(k: Kcb, buf: seq<SndSeg>, n: nat): (r: Pass)
    requires n <= |buf|
    ensures |r.segs| == n
  {
    if n == 0 then Pass([], [], 0, 0, false)
    else
      var r := SendPass(k, buf, n - 1);
      var t := Transmit(k.cfg, k.rtt.rto, k.clock.current, buf[n - 1]);
      Pass(r.pushes + (if t.send then [Stamp(k, CMD_PUSH, t.seg.sn, t.seg.ts, t.seg.frag)] else []),
           r.segs + [t.seg],
           r.timeouts + (if t.timeout then 1 else 0),
           r.fasts + (if t.fast then 1 else 0),
           r.dead || (t.send && t.seg.xmit >= k.cfg.deadLink))
  }

  /** Window reduction at the end of a flush. */
  function Settle(cfg: Config, c: Cc, inflight: int, fast: bool, lost: bool): Cc {
    var mss := cfg.Mss();
    var c1 :=
      if fast then
        var thresh := Max(inflight / 2, THRESH_MIN);
        var cwnd := U32(thresh + ResendAfter(cfg));
        c.(ssthresh := thresh, cwnd := cwnd, incr := U32(cwnd * mss))
      else c;
    var c2 := if lost then c1.(ssthresh := Max(c.cwnd / 2, THRESH_MIN), cwnd := 1, incr := mss) else c1;
    if c2.cwnd < 1 then c2.(cwnd := 1, incr := mss) else c2
  }

  datatype Flushed = Flushed(k: Kcb, out: seq<Datagram>)

  /** `snd` after admission but before transmission. */
  function Admitted(k: Kcb): Snd {
    Admit(k.cfg, k.snd, SendWindow(k), k.clock.current, k.rtt.rto)
  }

  /** Every segment a flush puts on the wire, in order. */
  function FlushPackets(k: Kcb): seq<Packet> {
    var buf := Admitted(k).buf;
    ControlPackets(k) + SendPass(k, buf, |buf|).pushes
  }

  function FlushState(k: Kcb): Kcb {
    var snd := Admitted(k);
    var r := SendPass(k, snd.buf, |snd.buf|);
    k.(snd := snd.(buf := r.segs, xmit := U32(snd.xmit + r.timeouts), dead := snd.dead || r.dead),
       rcv := k.rcv.(acks := []),
       probe := ProbeTick(k.probe, k.cc.rmtWnd, k.clock.current).(ask := false, tell := false),
       cc := Settle(k.cfg, k.cc, U32(snd.nxt - snd.una), r.fasts > 0, r.timeouts > 0))
  }

  function Flush(k: Kcb): Flushed {
    if !k.clock.updated then Flushed(k, [])
    else Flushed(FlushState(k), Pack(k.cfg.mtu, FlushPackets(k)))
  }

  // ----- ikcp_update, ikcp_check -----

  /** The clock part of `ikcp_update`, and whether it goes on to flush. */
  datatype Tick = Tick(clock: Clock, flush: bool)

  /** One interval after the old deadline, or after `now` if that has passed too. */
  function NextDeadline(interval: int, ts: int, now: int): int {
    var next := U32(ts + interval);
    if TimeDiff(now, next) >= 0 then U32(now + interval) else next
  }

  function TickClock(cfg: Config, c: Clock, now: int): Tick {
    var ts0 := if c.updated then c.tsFlush else now;
    var slap0 := TimeDiff(now, ts0);
    var stray := slap0 >= 10000 || slap0 < -10000;
    var ts1 := if stray then now else ts0;
    var slap := if stray then 0 else slap0;
    if slap >= 0 then Tick(Clock(now, NextDeadline(cfg.interval, ts1, now), true), true)
    else Tick(Clock(now, ts1, true), false)
  }

  function Update(k: Kcb, now: int): Flushed {
    var t := TickClock(k.cfg, k.clock, now);
    var k1 := k.(clock := t.clock);
    if t.flush then Flush(k1) else Flushed(k1, [])
  }

  /** The nearest retransmission deadline among `buf`, at most `limit`; 0 if one is already due. */
  function NextDue(buf: seq<SndSeg>, now: int, limit: int): int {
    if buf == [] then limit
    else
      var diff := TimeDiff(buf[0].resendts, now);
      if diff <= 0 then 0 else NextDue(buf[1..], now, Min(diff, limit))
  }

  function Check(k: Kcb, now: int): int {
    var ts := k.clock.tsFlush;
    var slap := TimeDiff(now, ts);
    if !k.clock.updated || slap >= 0 || slap < -10000 then now
    else
      var packet := NextDue(k.snd.buf, now, 0x7fff_ffff);
      if packet == 0 then now
      else U32(now + Min(Min(packet, TimeDiff(ts, now)), k.cfg.interval))
  }
}
