/** Retransmission timers in every reachable state: how large a segment's timeout can have become after
    a number of transmissions, and exactly how many transmissions keep every new deadline ahead of the
    clock, in each `nodelay` mode. */
module Resending {
  import opened Serial
  import opened Wire
  import opened Control
  import opened Structure

  // ----- the largest timeout -----

  /** The largest timeout after `n` back-offs from the largest estimate. */
  function Cap(nodelay: int, n: nat): nat {
    if n == 0 then RTO_MAX
    else
      var c := Cap(nodelay, n - 1);
      if nodelay == 0 then 2 * c else if nodelay == 1 then c + c / 2 else c + RTO_MAX / 2
  }

  /** `n` transmissions of a segment cannot make its timeout too large for 32-bit comparison. */
  predicate Comfortable(nodelay: int, n: nat) {
    n == 0 || Cap(nodelay, n - 1) < HALF
  }

  lemma {:induction false} CapMono(nodelay: int, m: nat, n: nat)
    requires m <= n
    ensures Cap(nodelay, m) <= Cap(nodelay, n)
    decreases n - m
  {
    if m < n {
      CapMono(nodelay, m, n - 1);
    }
  }

  /** One back-off stays under the next cap, and does not wrap. */
  lemma BackoffUnderCap(cfg: Config, rto: int, segRto: int, n: nat)
    requires cfg.Valid() && 0 < rto <= RTO_MAX && 0 < segRto <= Cap(cfg.nodelay, n) && Cap(cfg.nodelay, n) < HALF
    ensures 0 < Backoff(cfg, rto, segRto) <= Cap(cfg.nodelay, n + 1)
    ensures segRto == Cap(cfg.nodelay, n) && rto == RTO_MAX ==> Backoff(cfg, rto, segRto) == Cap(cfg.nodelay, n + 1)
    ensures Cap(cfg.nodelay, n + 1) < M32
  {
    CapMono(cfg.nodelay, 0, n);
  }

  // ----- the invariant -----

  /** A buffered segment's timeout is within what its transmissions can have made of it. */
  ghost predicate TimerOk(cfg: Config, s: SndSeg) {
    && 0 <= s.xmit < M32
    && (1 <= s.xmit && Comfortable(cfg.nodelay, s.xmit) ==> 0 < s.rto <= Cap(cfg.nodelay, s.xmit - 1))
  }

  ghost predicate TimersOk(cfg: Config, buf: seq<SndSeg>) {
    forall i :: 0 <= i < |buf| ==> TimerOk(cfg, buf[i])
  }

  /** If a flush at `now` transmits the segment, and for at most the `n`-th time, its new deadline is
      ahead of the clock. */
  ghost predicate AheadUpTo(cfg: Config, rto: int, now: int, s: SndSeg, n: nat) {
    var t := Transmit(cfg, rto, now, s);
    t.send && 1 <= t.seg.xmit <= n ==> TimeDiff(t.seg.resendts, now) > 0
  }

  lemma SoonIsAhead(now: Time, d: int)
    requires 0 < d < HALF
    ensures TimeDiff(U32(now + d), now) > 0
  {
    U32Sub(now + d, now);
  }

  lemma ComfortableMono(nodelay: int, m: nat, n: nat)
    requires m <= n && Comfortable(nodelay, n)
    ensures Comfortable(nodelay, m)
  {
    if m > 0 { CapMono(nodelay, m - 1, n - 1); }
  }

  /** The first transmission. */
  lemma FirstSend(cfg: Config, rto: int, now: Time, s: SndSeg)
    requires cfg.Valid() && 0 < rto <= RTO_MAX && s.xmit == 0
    ensures var t := Transmit(cfg, rto, now, s).seg; TimerOk(cfg, t) && TimeDiff(t.resendts, now) > 0
  {
    SoonIsAhead(now, rto + if cfg.nodelay == 0 then rto / 8 else 0);
  }

  /** A timeout. */
  lemma TimedOut(cfg: Config, rto: int, now: Time, s: SndSeg)
    requires cfg.Valid() && 0 < rto <= RTO_MAX && s.xmit != 0 && TimeDiff(now, s.resendts) >= 0 && TimerOk(cfg, s)
    ensures var t := Transmit(cfg, rto, now, s).seg;
            TimerOk(cfg, t) && (1 <= t.xmit && Comfortable(cfg.nodelay, t.xmit) ==> TimeDiff(t.resendts, now) > 0)
  {
    var t := Transmit(cfg, rto, now, s).seg;
    if 1 <= t.xmit && Comfortable(cfg.nodelay, t.xmit) {
      ComfortableMono(cfg.nodelay, s.xmit, t.xmit);
      BackoffUnderCap(cfg, rto, s.rto, s.xmit - 1);
      SoonIsAhead(now, t.rto);
    }
  }

  /** A fast retransmission: one more transmission, the same timeout. */
  lemma Hurried(cfg: Config, rto: int, now: Time, s: SndSeg)
    requires cfg.Valid() && s.xmit != 0 && TimeDiff(now, s.resendts) < 0 && TimerOk(cfg, s)
    requires Transmit(cfg, rto, now, s).fast
    ensures var t := Transmit(cfg, rto, now, s).seg;
            TimerOk(cfg, t) && (1 <= t.xmit && Comfortable(cfg.nodelay, t.xmit) ==> TimeDiff(t.resendts, now) > 0)
  {
    var t := Transmit(cfg, rto, now, s).seg;
    if 1 <= t.xmit && Comfortable(cfg.nodelay, t.xmit) {
      ComfortableMono(cfg.nodelay, s.xmit, t.xmit);
      CapMono(cfg.nodelay, s.xmit - 1, t.xmit - 1);
      SoonIsAhead(now, s.rto);
    }
  }

  lemma TransmitKeeps(cfg: Config, rto: int, now: Time, s: SndSeg, n: nat)
    requires cfg.Valid() && 0 < rto <= RTO_MAX && TimerOk(cfg, s)
    ensures TimerOk(cfg, Transmit(cfg, rto, now, s).seg)
    ensures Comfortable(cfg.nodelay, n) ==> AheadUpTo(cfg, rto, now, s, n)
  {
    var t := Transmit(cfg, rto, now, s);
    if s.xmit == 0 {
      FirstSend(cfg, rto, now, s);
    } else if TimeDiff(now, s.resendts) >= 0 {
      TimedOut(cfg, rto, now, s);
    } else if t.fast {
      Hurried(cfg, rto, now, s);
    }
    if Comfortable(cfg.nodelay, n) && t.seg.xmit <= n { ComfortableMono(cfg.nodelay, t.seg.xmit, n); }
  }

  // ----- every run -----

  lemma {:induction false} UnaTimers(cfg: Config, snd: Snd, una: int)
    requires TimersOk(cfg, snd.buf)
    ensures TimersOk(cfg, ParseUna(cfg, snd, una).buf)
  {
    var n := ParseUnaDrops(cfg, snd, una);
  }

  lemma AckTimers(cfg: Config, snd: Snd, sn: int)
    requires TimersOk(cfg, snd.buf)
    ensures TimersOk(cfg, ParseAck(cfg, snd, sn).buf)
  {
  }

  lemma {:induction false} SkipTimers(cfg: Config, buf: seq<SndSeg>, sn: int, ts: int)
    requires TimersOk(cfg, buf)
    ensures TimersOk(cfg, BumpSkipped(cfg, buf, sn, ts))
  {
    if buf != [] && Diff(cfg.wrap, sn, buf[0].sn) >= 0 {
      SkipTimers(cfg, buf[1..], sn, ts);
      assert TimerOk(cfg, buf[0]);
    }
  }

  lemma {:induction false} PacketsTimers(x: Progress, ps: seq<Packet>)
    requires TimersOk(x.k.cfg, x.k.snd.buf)
    ensures TimersOk(x.k.cfg, InputPackets(x, ps).k.snd.buf) && InputPackets(x, ps).k.cfg == x.k.cfg
    decreases |ps|
  {
    if ps != [] {
      UnaTimers(x.k.cfg, x.k.snd, ps[0].una);
      AckTimers(x.k.cfg, ShrinkBuf(ParseUna(x.k.cfg, x.k.snd, ps[0].una)), ps[0].sn);
      PacketsTimers(InputPacket(x, ps[0]), ps[1..]);
    }
  }

  lemma InputTimers(k: Kcb, b: Bytes)
    requires TimersOk(k.cfg, k.snd.buf)
    ensures TimersOk(k.cfg, InputBytes(k, b).k.snd.buf)
  {
    if |b| >= OVERHEAD {
      var d := Parse(k.cfg.conv, b);
      PacketsTimers(StartInput(k), d.packets);
      var x := InputPackets(StartInput(k), d.packets);
      if x.mark.Newest? { SkipTimers(k.cfg, x.k.snd.buf, x.mark.sn, x.mark.ts); }
    }
  }

  lemma {:induction false} AdmitTimers(cfg: Config, snd: Snd, window: int, now: int, rto: int)
    requires TimersOk(cfg, snd.buf)
    ensures TimersOk(cfg, Admit(cfg, snd, window, now, rto).buf)
    decreases |snd.queue|
  {
    if Diff(cfg.wrap, snd.nxt, Plus(cfg.wrap, snd.una, window)) < 0 && snd.queue != [] {
      var seg := SndSeg(snd.nxt, snd.queue[0], now, now, rto, 0, 0);
      AdmitTimers(cfg, snd.(nxt := Plus(cfg.wrap, snd.nxt, 1), queue := snd.queue[1..], buf := snd.buf + [seg]), window, now, rto);
    }
  }

  lemma {:induction false} PassTimers(k: Kcb, buf: seq<SndSeg>, n: nat)
    requires k.cfg.Valid() && 0 < k.rtt.rto <= RTO_MAX && 0 <= k.clock.current < M32 && TimersOk(k.cfg, buf) && n <= |buf|
    ensures TimersOk(k.cfg, SendPass(k, buf, n).segs)
  {
    if n > 0 {
      PassTimers(k, buf, n - 1);
      TransmitKeeps(k.cfg, k.rtt.rto, k.clock.current, buf[n - 1], 0);
    }
  }

  lemma FlushTimers(k: Kcb)
    requires KcbOk(k) && TimersOk(k.cfg, k.snd.buf)
    ensures TimersOk(k.cfg, Flush(k).k.snd.buf)
  {
    AdmitTimers(k.cfg, k.snd, SendWindow(k), k.clock.current, k.rtt.rto);
    var buf := Admitted(k).buf;
    PassTimers(k, buf, |buf|);
  }

  lemma UpdateTimers(k: Kcb, now: Time)
    requires KcbOk(k) && TimersOk(k.cfg, k.snd.buf)
    ensures TimersOk(k.cfg, Update(k, now).k.snd.buf)
  {
    FlushTimers(Tuned(k, now));
  }

  lemma ExecTimers(k: Kcb, r: Request)
    requires KcbOk(k) && TimersOk(k.cfg, k.snd.buf)
    ensures TimersOk(k.cfg, Exec(k, r).snd.buf)
  {
    match r
    case SendRequest(data) =>
    case RecvRequest(len) =>
    case InputRequest(bytes) => InputTimers(k, bytes);
    case FlushRequest => FlushTimers(k);
    case UpdateRequest(now) => UpdateTimers(k, now);
  }

  /** In every reachable state, a segment transmitted x times has a timeout of at most Cap(x - 1). */
  lemma {:induction false} AnyCallsKeepTimers(cfg: Config, rs: seq<Request>)
    requires cfg.Valid() && cfg.wrap
    ensures TimersOk(cfg, ExecAll(Create(cfg), rs).snd.buf)
    decreases |rs|
  {
    if rs != [] {
      var k := ExecAll(Create(cfg), rs[..|rs| - 1]);
      AnyCallsKeepTimers(cfg, rs[..|rs| - 1]);
      AnyCallsKeep(cfg, rs[..|rs| - 1]);
      ExecTimers(k, rs[|rs| - 1]);
    }
  }

  // ----- how many transmissions are safe -----

  /** Every segment a flush transmits, for at most the `n`-th time, gets a deadline ahead of the clock. */
  ghost predicate FlushAhead(k: Kcb, n: nat) {
    var buf := Admitted(k).buf;
    forall i :: 0 <= i < |buf| ==> AheadUpTo(k.cfg, k.rtt.rto, k.clock.current, buf[i], n)
  }

  /** The same in every reachable state, whether `ikcp_flush` is called or an update at any time. */
  ghost predicate RunsAhead(cfg: Config, n: nat) {
    && (forall rs :: FlushAhead(ExecAll(Create(cfg), rs), n))
    && (forall rs, now: Time :: FlushAhead(Tuned(ExecAll(Create(cfg), rs), now), n))
  }

  lemma ComfortableIsAhead(k: Kcb, n: nat)
    requires KcbOk(k) && TimersOk(k.cfg, k.snd.buf) && Comfortable(k.cfg.nodelay, n)
    ensures FlushAhead(k, n)
  {
    AdmitTimers(k.cfg, k.snd, SendWindow(k), k.clock.current, k.rtt.rto);
    var buf := Admitted(k).buf;
    forall i | 0 <= i < |buf| ensures AheadUpTo(k.cfg, k.rtt.rto, k.clock.current, buf[i], n) {
      TransmitKeeps(k.cfg, k.rtt.rto, k.clock.current, buf[i], n);
    }
  }

  lemma ComfortableRunsAhead(cfg: Config, n: nat)
    requires cfg.Valid() && cfg.wrap && Comfortable(cfg.nodelay, n)
    ensures RunsAhead(cfg, n)
  {
    forall rs ensures FlushAhead(ExecAll(Create(cfg), rs), n) {
      AnyCallsKeep(cfg, rs);
      AnyCallsKeepTimers(cfg, rs);
      ComfortableIsAhead(ExecAll(Create(cfg), rs), n);
    }
    forall rs, now: Time ensures FlushAhead(Tuned(ExecAll(Create(cfg), rs), now), n) {
      AnyCallsKeep(cfg, rs);
      AnyCallsKeepTimers(cfg, rs);
      ComfortableIsAhead(Tuned(ExecAll(Create(cfg), rs), now), n);
    }
  }

  // ----- a run that backs off as fast as possible -----

  /** One segment is buffered, transmitted `x` times, with the largest timeout that allows, and the next
      flush is due well before its deadline. */
  ghost predicate Lone(cfg: Config, k: Kcb, x: nat) {
    && k.cfg == cfg && cfg.Valid() && cfg.wrap && k.clock.updated && 0 <= k.clock.tsFlush < M32 && k.rtt.rto == RTO_MAX
    && |k.snd.buf| == 1 && k.snd.queue == []
    && var s := k.snd.buf[0];
       1 <= x == s.xmit && s.rto == Cap(k.cfg.nodelay, x - 1) < HALF && 0 <= s.resendts < M32
       && TimeDiff(s.resendts, k.clock.tsFlush) >= 10000
  }

  ghost function LoneStates(cfg: Config, x: nat): iset<Kcb> {
    iset k | Lone(cfg, k, x)
  }

  lemma {:induction false} CapAtLeast(cfg: Config, n: nat)
    ensures Cap(cfg.nodelay, n) >= RTO_MAX + n
  {
    if n > 0 { CapAtLeast(cfg, n - 1); }
  }

  /** An update at the deadline flushes and times the segment out. */
  lemma LoneTick(cfg: Config, k: Kcb, x: nat)
    requires Lone(cfg, k, x)
    ensures var now := k.snd.buf[0].resendts;
            TickClock(k.cfg, k.clock, now) == Tick(Clock(now, U32(now + k.cfg.interval), true), true)
  {
    U32Sub(k.snd.buf[0].resendts + k.cfg.interval, k.snd.buf[0].resendts);
    U32Sub(k.snd.buf[0].resendts, k.snd.buf[0].resendts + k.cfg.interval);
  }

  /** One buffered segment and nothing queued: a flush leaves just that segment, transmitted. */
  lemma FlushOne(k: Kcb)
    requires k.clock.updated && |k.snd.buf| == 1 && k.snd.queue == []
    ensures Flush(k).k.snd.buf == [Transmit(k.cfg, k.rtt.rto, k.clock.current, k.snd.buf[0]).seg]
    ensures Flush(k).k.snd.queue == [] && Flush(k).k.cfg == k.cfg && Flush(k).k.clock == k.clock && Flush(k).k.rtt == k.rtt
    ensures Admitted(k) == k.snd
  {
    assert Admitted(k) == k.snd;
    assert SendPass(k, k.snd.buf, 1).segs == SendPass(k, k.snd.buf, 0).segs + [Transmit(k.cfg, k.rtt.rto, k.clock.current, k.snd.buf[0]).seg];
  }

  lemma LoneTimesOut(cfg: Config, k: Kcb, x: nat)
    requires Lone(cfg, k, x)
    ensures var now := k.snd.buf[0].resendts; var t := Transmit(k.cfg, k.rtt.rto, now, k.snd.buf[0]);
            && t.send && t.seg.xmit == x + 1 && t.seg.rto == Cap(k.cfg.nodelay, x) < M32
            && t.seg.resendts == U32(now + Cap(k.cfg.nodelay, x))
  {
    CapAtLeast(k.cfg, x - 1);
    BackoffUnderCap(k.cfg, RTO_MAX, k.snd.buf[0].rto, x - 1);
  }

  lemma FarAhead(now: Time, d: int, interval: int)
    requires 60000 <= d < HALF && 10 <= interval <= 5000
    ensures TimeDiff(U32(now + d), U32(now + interval)) >= 10000
  {
    U32Sub(now + d, now + interval);
  }

  /** What an update at the deadline does to a lone segment. */
  lemma LoneUpdate(cfg: Config, k: Kcb, x: nat)
    requires Lone(cfg, k, x)
    ensures var now := k.snd.buf[0].resendts; var k' := Exec(k, UpdateRequest(now));
            && k'.snd.buf == [Transmit(cfg, k.rtt.rto, now, k.snd.buf[0]).seg] && k'.snd.queue == []
            && k'.cfg == cfg && k'.rtt == k.rtt && k'.clock == Clock(now, U32(now + cfg.interval), true)
  {
    LoneTick(cfg, k, x);
    FlushOne(Tuned(k, k.snd.buf[0].resendts));
  }

  /** A lone segment that timed out at `now`, and the clock of the update that found it. */
  lemma LoneNext(cfg: Config, k: Kcb, x: nat, now: Time)
    requires cfg.Valid() && cfg.wrap && k.cfg == cfg && k.rtt.rto == RTO_MAX && |k.snd.buf| == 1 && k.snd.queue == []
    requires k.clock == Clock(now, U32(now + cfg.interval), true)
    requires k.snd.buf[0].xmit == x + 1 && k.snd.buf[0].rto == Cap(cfg.nodelay, x) < HALF
    requires k.snd.buf[0].resendts == U32(now + Cap(cfg.nodelay, x))
    ensures k in LoneStates(cfg, x + 1)
  {
    CapAtLeast(cfg, x);
    FarAhead(now, Cap(cfg.nodelay, x), cfg.interval);
  }

  lemma LoneStep(cfg: Config, k: Kcb, x: nat)
    requires Lone(cfg, k, x) && Cap(k.cfg.nodelay, x) < HALF
    ensures Exec(k, UpdateRequest(k.snd.buf[0].resendts)) in LoneStates(cfg, x + 1)
  {
    var now := k.snd.buf[0].resendts;
    LoneUpdate(cfg, k, x);
    LoneTimesOut(cfg, k, x);
    LoneNext(cfg, Exec(k, UpdateRequest(now)), x, now);
  }

  /** A segment whose new timeout is 2^31 or more gets a deadline in the past. */
  lemma TooLate(now: Time, d: int)
    requires HALF <= d < M32
    ensures TimeDiff(U32(now + d), now) < 0
  {
    U32Sub(now + d, now);
  }

  lemma LoneLate(cfg: Config, k: Kcb, x: nat, n: nat)
    requires Lone(cfg, k, x) && Cap(cfg.nodelay, x) >= HALF && x < n
    ensures !AheadUpTo(cfg, k.rtt.rto, k.snd.buf[0].resendts, k.snd.buf[0], n)
  {
    LoneTimesOut(cfg, k, x);
    TooLate(k.snd.buf[0].resendts, Cap(cfg.nodelay, x));
  }

  lemma LoneFails(cfg: Config, k: Kcb, x: nat, n: nat)
    requires Lone(cfg, k, x) && Cap(k.cfg.nodelay, x) >= HALF && x < n
    ensures !FlushAhead(Tuned(k, k.snd.buf[0].resendts), n)
  {
    var now := k.snd.buf[0].resendts;
    LoneTick(cfg, k, x);
    LoneLate(cfg, k, x, n);
    FlushOne(Tuned(k, now));
    assert Admitted(Tuned(k, now)).buf[0] == k.snd.buf[0];
  }

  /** An update at `now` after the run gives some segment, transmitted for at most the `n`-th time, a
      deadline that has passed. */
  ghost predicate FailsAt(cfg: Config, rs: seq<Request>, now: Time, n: nat) {
    !FlushAhead(Tuned(ExecAll(Create(cfg), rs), now), n)
  }

  /** The runs that end with one segment transmitted `x` times. */
  ghost function LoneRuns(cfg: Config, x: nat): iset<seq<Request>> {
    iset rs | ExecAll(Create(cfg), rs) in LoneStates(cfg, x)
  }

  /** The run, and then an update at the lone segment's deadline. */
  function TimeOutOnce(cfg: Config, rs: seq<Request>): seq<Request> {
    var buf := ExecAll(Create(cfg), rs).snd.buf;
    if buf != [] && 0 <= buf[0].resendts < M32 then rs + [UpdateRequest(buf[0].resendts)] else rs
  }

  lemma LoneRun(cfg: Config, rs: seq<Request>, x: nat)
    requires rs in LoneRuns(cfg, x) && Cap(cfg.nodelay, x) < HALF
    ensures TimeOutOnce(cfg, rs) in LoneRuns(cfg, x + 1)
  {
    var k := ExecAll(Create(cfg), rs);
    LoneStep(cfg, k, x);
    ExecSnoc(Create(cfg), rs, UpdateRequest(k.snd.buf[0].resendts));
  }

  /** Climbing stage by stage while the stage is low ends at a high one. */
  lemma {:induction false} Climb<T(!new)>(stage: nat -> iset<T>, next: T -> T, low: nat -> bool, t: T, x: nat, n: nat)
    returns (t': T, x': nat)
    requires t in stage(x) && x < n && !low(n - 1)
    requires forall y: nat, u: T {:trigger next(u), stage(y)} :: u in stage(y) && low(y) ==> next(u) in stage(y + 1)
    ensures x' < n && !low(x') && t' in stage(x')
    decreases n - x
  {
    t', x' := t, x;
    if low(x) {
      assert x != n - 1;
      t', x' := Climb(stage, next, low, next(t), x + 1, n);
    }
  }

  /** From one lone segment to the failure, one timeout at a time. */
  lemma BacksOff(cfg: Config, rs: seq<Request>, n: nat) returns (rs': seq<Request>, now: Time)
    requires rs in LoneRuns(cfg, 1) && 1 < n && Cap(cfg.nodelay, n - 1) >= HALF
    ensures FailsAt(cfg, rs', now, n)
  {
    forall y: nat, u | u in LoneRuns(cfg, y) && Cap(cfg.nodelay, y) < HALF
      ensures TimeOutOnce(cfg, u) in LoneRuns(cfg, y + 1)
    {
      LoneRun(cfg, u, y);
    }
    var x;
    rs', x := Climb((y: nat) => LoneRuns(cfg, y), u => TimeOutOnce(cfg, u), (y: nat) => Cap(cfg.nodelay, y) < HALF, rs, 1, n);
    var k := ExecAll(Create(cfg), rs');
    now := k.snd.buf[0].resendts;
    LoneFails(cfg, k, x, n);
  }

  // ----- how the run starts -----

  /** An acknowledgement whose time stamp is 100 seconds old at the time of the run. */
  function OldAck(cfg: Config): Packet { Packet(cfg.conv, CMD_ACK, 0, 1, 0, 0, 0, []) }

  const START: Time := 100000

  /** First update: nothing to send, the clock starts, the window opens to one segment. */
  lemma AfterUpdate(cfg: Config)
    requires cfg.Valid() && cfg.wrap
    ensures var k := Exec(Create(cfg), UpdateRequest(START));
            && k.cfg == cfg && k.snd == Create(cfg).snd && k.rtt == Create(cfg).rtt && k.cc.cwnd == 1
            && k.clock == Clock(START, START + cfg.interval, true)
  {
    var k0 := Create(cfg);
    assert TickClock(cfg, k0.clock, START) == Tick(Clock(START, START + cfg.interval, true), true);
    var k1 := k0.(clock := Clock(START, START + cfg.interval, true));
    assert Admitted(k1) == k1.snd;
    assert SendPass(k1, [], 0).segs == [];
  }

  /** Then the old acknowledgement: its sample drives the estimate to its maximum. */
  lemma AfterAck(k: Kcb)
    requires k.cfg.Valid() && k.cfg.wrap && k.snd == Create(k.cfg).snd && k.rtt == Create(k.cfg).rtt && k.clock.current == START
    ensures var k' := Exec(k, InputRequest(DatagramBytes([OldAck(k.cfg)])));
            && k'.cfg == k.cfg && k'.snd == k.snd && k'.rtt.rto == RTO_MAX && k'.clock == k.clock
            && k'.cc == k.cc.(rmtWnd := 1)
  {
    var p := OldAck(k.cfg);
    ParseOfEncode(k.cfg.conv, [p]);
    var x := StartInput(k);
    assert InputPackets(x, [p]) == InputPackets(InputPacket(x, p), []);
    AckOnly(k.cfg, k.snd, p);
  }

  lemma AckOnly(cfg: Config, snd: Snd, p: Packet)
    requires snd == Create(cfg).snd && cfg.wrap && p == OldAck(cfg)
    ensures InputSnd(cfg, snd, p) == snd && ParseFastack(cfg, snd, 0, 0) == snd
  {
  }

  /** Then one byte to send. */
  lemma AfterSend(k: Kcb)
    requires k.cfg.Valid() && k.snd.queue == []
    ensures Exec(k, SendRequest([0])) == k.(snd := k.snd.(queue := [Frag(0, [0])]))
  {
    var data: Bytes := [0];
    assert data[0..] == data && data[..1] == data;
    assert Cut(k.cfg.Mss(), k.cfg.stream, data, 1) == [Frag(0, data)];
  }

  /** Then a flush that transmits it for the first time. */
  lemma AfterFirstFlush(k: Kcb)
    requires k.cfg.Valid() && k.cfg.wrap && Loaded(k.cfg, k)
    ensures Lone(k.cfg, Exec(k, FlushRequest), 1)
  {
    var seg := SndSeg(0, Frag(0, [0]), START, START, RTO_MAX, 0, 0);
    var snd1 := k.snd.(nxt := 1, queue := [], buf := [seg]);
    assert SendWindow(k) == 1;
    assert Admit(k.cfg, snd1, 1, START, RTO_MAX) == snd1;
    assert Admitted(k) == snd1;
    var t := Transmit(k.cfg, RTO_MAX, START, seg).seg;
    assert SendPass(k, [seg], 1).segs == SendPass(k, [seg], 0).segs + [t];
  }

  /** The state before the first flush, told by its parts. */
  ghost predicate Loaded(cfg: Config, k: Kcb) {
    && k.cfg == cfg && k.snd == Create(cfg).snd.(queue := [Frag(0, [0])])
    && k.clock == Clock(START, START + cfg.interval, true) && k.rtt.rto == RTO_MAX && k.cc.rmtWnd == 1 && k.cc.cwnd == 1
  }

  ghost predicate Awake(cfg: Config, k: Kcb) {
    && k.cfg == cfg && k.snd == Create(cfg).snd && k.cc.cwnd == 1
    && k.clock == Clock(START, START + cfg.interval, true)
  }

  /** Runs of one, two and three calls on the way. */
  ghost function AwakeRuns(cfg: Config): iset<seq<Request>> {
    iset rs | Awake(cfg, ExecAll(Create(cfg), rs)) && ExecAll(Create(cfg), rs).rtt == Create(cfg).rtt
  }

  ghost function SampledRuns(cfg: Config): iset<seq<Request>> {
    iset rs | Awake(cfg, ExecAll(Create(cfg), rs)) && ExecAll(Create(cfg), rs).rtt.rto == RTO_MAX && ExecAll(Create(cfg), rs).cc.rmtWnd == 1
  }

  ghost function LoadedRuns(cfg: Config): iset<seq<Request>> {
    iset rs | Loaded(cfg, ExecAll(Create(cfg), rs))
  }

  lemma FirstCall(cfg: Config)
    requires cfg.Valid() && cfg.wrap
    ensures [UpdateRequest(START)] in AwakeRuns(cfg)
  {
    AfterUpdate(cfg);
    ExecSnoc(Create(cfg), [], UpdateRequest(START));
    assert [] + [UpdateRequest(START)] == [UpdateRequest(START)];
  }

  lemma SecondCall(cfg: Config, rs: seq<Request>)
    requires cfg.Valid() && cfg.wrap && rs in AwakeRuns(cfg)
    ensures rs + [InputRequest(DatagramBytes([OldAck(cfg)]))] in SampledRuns(cfg)
  {
    AfterAck(ExecAll(Create(cfg), rs));
    ExecSnoc(Create(cfg), rs, InputRequest(DatagramBytes([OldAck(cfg)])));
  }

  lemma ThirdCall(cfg: Config, rs: seq<Request>)
    requires cfg.Valid() && cfg.wrap && rs in SampledRuns(cfg)
    ensures rs + [SendRequest([0])] in LoadedRuns(cfg)
  {
    AfterSend(ExecAll(Create(cfg), rs));
    ExecSnoc(Create(cfg), rs, SendRequest([0]));
  }

  lemma FourthCall(cfg: Config, rs: seq<Request>)
    requires cfg.Valid() && cfg.wrap && rs in LoadedRuns(cfg)
    ensures rs + [FlushRequest] in LoneRuns(cfg, 1)
  {
    AfterFirstFlush(ExecAll(Create(cfg), rs));
    ExecSnoc(Create(cfg), rs, FlushRequest);
  }

  lemma Primed(cfg: Config) returns (rs: seq<Request>)
    requires cfg.Valid() && cfg.wrap
    ensures rs in LoneRuns(cfg, 1)
  {
    FirstCall(cfg);
    rs := [UpdateRequest(START)];
    SecondCall(cfg, rs);
    rs := rs + [InputRequest(DatagramBytes([OldAck(cfg)]))];
    ThirdCall(cfg, rs);
    rs := rs + [SendRequest([0])];
    FourthCall(cfg, rs);
    rs := rs + [FlushRequest];
  }

  /** Exactly how many transmissions of a segment keep every new deadline ahead of the clock: as many as
      leave the largest timeout below 2^31. */
  lemma AheadIff(cfg: Config, n: nat)
    requires cfg.Valid() && cfg.wrap
    ensures RunsAhead(cfg, n) <==> Comfortable(cfg.nodelay, n)
  {
    if Comfortable(cfg.nodelay, n) {
      ComfortableRunsAhead(cfg, n);
    } else {
      var rs := Primed(cfg);
      var rs', now := BacksOff(cfg, rs, n);
    }
  }

  // ----- the three modes -----

  lemma DoublingCaps(mode: int)
    requires mode == 0
    ensures Cap(mode, 15) == 1966080000 && Cap(mode, 16) == 3932160000
  {
    assert Cap(mode, 2) == 240000;
    assert Cap(mode, 4) == 960000;
    assert Cap(mode, 6) == 3840000;
    assert Cap(mode, 8) == 15360000;
    assert Cap(mode, 10) == 61440000;
    assert Cap(mode, 12) == 245760000;
    assert Cap(mode, 14) == 983040000;
  }

  lemma HalvesCaps(mode: int)
    requires mode == 1
    ensures Cap(mode, 25) == 1515067395 && Cap(mode, 26) == 2272601092
  {
    assert Cap(mode, 2) == 135000;
    assert Cap(mode, 4) == 303750;
    assert Cap(mode, 6) == 683437;
    assert Cap(mode, 8) == 1537732;
    assert Cap(mode, 10) == 3459897;
    assert Cap(mode, 12) == 7784767;
    assert Cap(mode, 14) == 17515725;
    assert Cap(mode, 16) == 39410380;
    assert Cap(mode, 18) == 88673355;
    assert Cap(mode, 20) == 199515048;
    assert Cap(mode, 22) == 448908858;
    assert Cap(mode, 24) == 1010044930;
  }

  /** A mode whose largest timeout is below 2^31 after `n` back-offs and no longer after one more. */
  lemma LimitIs(nodelay: int, n: nat, limit: nat)
    requires limit > 0 && Cap(nodelay, limit - 1) < HALF <= Cap(nodelay, limit)
    ensures Comfortable(nodelay, n) <==> n <= limit
  {
    if n <= limit { ComfortableMono(nodelay, n, limit); } else { CapMono(nodelay, limit, n - 1); }
  }

  lemma HalvesLimit(mode: int, n: nat)
    requires mode == 1
    ensures Comfortable(mode, n) <==> n <= 26
  {
    HalvesCaps(mode);
    LimitIs(mode, n, 26);
  }

  /** With `nodelay` 0 a segment may be transmitted 16 times, and the 17th transmission can get a deadline
      that has already passed, before the dead-link count of 20. */
  lemma DoublingSafeIff(cfg: Config, n: nat)
    requires cfg.Valid() && cfg.wrap && cfg.nodelay == 0
    ensures RunsAhead(cfg, n) <==> n <= 16
  {
    AheadIff(cfg, n);
    DoublingCaps(cfg.nodelay);
    LimitIs(cfg.nodelay, n, 16);
  }

  /** The run itself. */
  lemma DoublingOverflows(cfg: Config) returns (rs: seq<Request>, now: Time)
    requires cfg.Valid() && cfg.wrap && cfg.nodelay == 0
    ensures FailsAt(cfg, rs, now, 17)
  {
    DoublingCaps(cfg.nodelay);
    rs := Primed(cfg);
    rs, now := BacksOff(cfg, rs, 17);
  }

  /** With `nodelay` 1 the limit is 26, beyond the dead-link count. */
  lemma DeadlineInFuture(cfg: Config, n: nat)
    requires cfg.Valid() && cfg.wrap && cfg.nodelay == 1
    ensures RunsAhead(cfg, n) <==> n <= 26
  {
    AheadIff(cfg, n);
    HalvesLimit(cfg.nodelay, n);
  }

  function Power(b: nat, n: nat): nat {
    if n == 0 then 1 else b * Power(b, n - 1)
  }

  lemma {:induction false} CapRatio(mode: int, n: nat)
    requires mode == 1
    ensures Cap(mode, n) * Power(2, n) <= RTO_MAX * Power(3, n)
  {
    if n > 0 {
      CapRatio(mode, n - 1);
      Scale(Cap(mode, n - 1), Cap(mode, n), Power(2, n - 1), Power(3, n - 1));
    }
  }

  lemma Scale(r: int, r': int, p2: int, p3: int)
    requires 2 * r' <= 3 * r && 0 <= p2 && r * p2 <= RTO_MAX * p3
    ensures r' * (2 * p2) <= RTO_MAX * (3 * p3)
  {
    assert r' * (2 * p2) == (2 * r') * p2;
    assert (2 * r') * p2 <= (3 * r) * p2;
    assert (3 * r) * p2 == 3 * (r * p2);
  }

  lemma Under(rto: int, cap: int, p2: int, bound: int)
    requires rto <= cap && 0 <= p2 && cap * p2 <= bound
    ensures rto * p2 <= bound
  {
  }

  /** At most 60000 * (3/2)^n. */
  predicate WithinThreeHalves(rto: int, n: nat) { 0 < rto && rto * Power(2, n) <= RTO_MAX * Power(3, n) }

  lemma CapWithin(mode: int, rto: int, n: nat)
    requires mode == 1 && 0 < rto <= Cap(mode, n)
    ensures WithinThreeHalves(rto, n)
  {
    CapRatio(mode, n);
    Under(rto, Cap(mode, n), Power(2, n), RTO_MAX * Power(3, n));
  }

  lemma TimerWithin(cfg: Config, s: SndSeg)
    requires cfg.nodelay == 1 && TimerOk(cfg, s) && 1 <= s.xmit <= 26
    ensures WithinThreeHalves(s.rto, s.xmit - 1)
  {
    HalvesLimit(cfg.nodelay, s.xmit);
    CapWithin(cfg.nodelay, s.rto, s.xmit - 1);
  }

  /** With `nodelay` 1, in every reachable state, a segment transmitted x times, up to 26 of them, has a
      timeout of at most 60000 * (3/2)^(x - 1). */
  lemma BackoffBounded(cfg: Config, rs: seq<Request>, i: nat)
    requires cfg.Valid() && cfg.wrap && cfg.nodelay == 1 && i < |ExecAll(Create(cfg), rs).snd.buf|
    ensures var s := ExecAll(Create(cfg), rs).snd.buf[i];
            1 <= s.xmit <= 26 ==> WithinThreeHalves(s.rto, s.xmit - 1)
  {
    AnyCallsKeepTimers(cfg, rs);
    var s := ExecAll(Create(cfg), rs).snd.buf[i];
    if 1 <= s.xmit <= 26 {
      TimerWithin(cfg, s);
    }
  }
}
