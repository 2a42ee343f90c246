/** Timers: the round-trip estimator, one retransmission timeout, and flush scheduling. */
module Timing {
  import opened Serial
  import opened Wire
  import opened Control
  import opened Structure
  import opened Flushing

  // ----- round-trip estimator -----

  function Abs(x: int): nat { if x < 0 then -x else x }

  /** The estimator of section 2 of RFC 6298, as inequalities: the first sample is taken as it is with half of
      it as deviation; after that the smoothed value moves an eighth of the way and the deviation a quarter,
      rounded down, the smoothed value never below 1. The timeout is four deviations above the smoothed value,
      at least an interval, within its bounds. */
  ghost predicate Smoothed(cfg: Config, r: Rtt, sample: int, r': Rtt) {
    && (if r.srtt == 0 then r'.srtt == sample && 2 * r'.rttval <= sample < 2 * r'.rttval + 2
        else
          && 7 * r.srtt + sample < 8 * r'.srtt + 8
          && r'.srtt >= 1 && (r'.srtt > 1 ==> 8 * r'.srtt <= 7 * r.srtt + sample)
          && 4 * r'.rttval <= 3 * r.rttval + Abs(sample - r.srtt) < 4 * r'.rttval + 4)
    && cfg.minRto <= r'.rto <= RTO_MAX
    && (r'.srtt + cfg.interval < M32 && r'.srtt + 4 * r'.rttval < M32 ==>
          var wanted := if 4 * r'.rttval > cfg.interval then r'.srtt + 4 * r'.rttval else r'.srtt + cfg.interval;
          r'.rto == if wanted < cfg.minRto then cfg.minRto else if wanted > RTO_MAX then RTO_MAX else wanted)
  }

  lemma SampleSmooths(cfg: Config, r: Rtt, sample: int)
    requires cfg.Valid() && RttOk(cfg, r) && 0 <= sample
    ensures Smoothed(cfg, r, sample, UpdateAck(cfg, r, sample))
  {
  }

  /** An ACK stamped no later than now is a sample, the time since its stamp; no other segment is one. */
  ghost predicate Sampled(cfg: Config, current: int, p: Packet, r: Rtt, r': Rtt) {
    if p.cmd == CMD_ACK && TimeDiff(current, p.ts) >= 0 then Smoothed(cfg, r, TimeDiff(current, p.ts), r') else r' == r
  }

  lemma AckIsSampled(x: Progress, p: Packet)
    requires KcbOk(x.k)
    ensures Sampled(x.k.cfg, x.k.clock.current, p, x.k.rtt, InputPacket(x, p).k.rtt)
    ensures InputPacket(x, p).k.clock == x.k.clock
  {
    if TimeDiff(x.k.clock.current, p.ts) >= 0 {
      SampleSmooths(x.k.cfg, x.k.rtt, TimeDiff(x.k.clock.current, p.ts));
    }
  }

  /** Reading segments moves the estimate by one sample for each timely ACK among them, in order: there are
      intermediate estimates, from the old to the new, each one step from the one before. */
  lemma {:induction false} AcksAreSampled(x: Progress, ps: seq<Packet>) returns (rs: seq<Rtt>)
    requires KcbOk(x.k) && forall i :: 0 <= i < |ps| ==> PacketOk(x.k.cfg, ps[i])
    ensures |rs| == |ps| + 1 && rs[0] == x.k.rtt && rs[|ps|] == InputPackets(x, ps).k.rtt
    ensures forall i :: 0 <= i < |ps| ==> Sampled(x.k.cfg, x.k.clock.current, ps[i], rs[i], rs[i + 1])
    decreases |ps|
  {
    rs := [x.k.rtt];
    if ps != [] {
      var x1 := InputPacket(x, ps[0]);
      InputPacketKeeps(x, ps[0]);
      AckIsSampled(x, ps[0]);
      var tail := AcksAreSampled(x1, ps[1..]);
      rs := rs + tail;
      forall i | 0 <= i < |ps| ensures Sampled(x.k.cfg, x.k.clock.current, ps[i], rs[i], rs[i + 1]) {
        if i > 0 { assert ps[i] == ps[1..][i - 1] && rs[i] == tail[i - 1] && rs[i + 1] == tail[i]; }
      }
    }
  }

  /** The same of a whole datagram, any bytes: the estimate it leaves is reached by one sample for each timely
      ACK that decoding finds. */
  lemma DatagramIsSampled(k: Kcb, b: Bytes) returns (rs: seq<Rtt>)
    requires KcbOk(k) && k.cfg.wrap && |b| >= OVERHEAD
    ensures var ps := Parse(k.cfg.conv, b).packets;
            && |rs| == |ps| + 1 && rs[0] == k.rtt && rs[|ps|] == InputBytes(k, b).k.rtt
            && forall i :: 0 <= i < |ps| ==> Sampled(k.cfg, k.clock.current, ps[i], rs[i], rs[i + 1])
  {
    rs := AcksAreSampled(StartInput(k), Parse(k.cfg.conv, b).packets);
  }

  ghost predicate RttWithin(cfg: Config, r: Rtt, bound: int) {
    && 0 <= r.srtt <= bound && 0 <= r.rttval <= bound
    && RTO_NDL <= r.rto <= RTO_MAX
  }

  /** One sample: the estimates stay below the largest sample, every intermediate value fits a
      signed 32-bit integer, and the timeout is the clamped estimate, unaffected by wrap-around. */
  lemma SampleWithin(cfg: Config, r: Rtt, sample: int, bound: int)
    requires cfg.Valid() && 1 <= bound < 0x1000_0000 && 0 <= sample <= bound && RttWithin(cfg, r, bound)
    ensures var r' := UpdateAck(cfg, r, sample);
            && RttWithin(cfg, r', bound)
            && r'.rto == Min(Max(cfg.minRto, r'.srtt + Max(cfg.interval, 4 * r'.rttval)), RTO_MAX)
            && 4 * r'.rttval < HALF && r'.srtt + Max(cfg.interval, 4 * r'.rttval) < HALF
    ensures 7 * r.srtt + sample < HALF && 3 * r.rttval + sample + r.srtt < HALF
  {
  }

  /** The samples a call would take from the ACK segments it reads are at most `bound`. */
  ghost predicate SamplesWithin(k: Kcb, r: Request, bound: int) {
    r.InputRequest? && |r.bytes| >= OVERHEAD ==> AcksWithin(k.clock.current, Parse(k.cfg.conv, r.bytes).packets, bound)
  }

  ghost predicate AcksWithin(current: int, ps: seq<Packet>, bound: int) {
    forall i :: 0 <= i < |ps| && ps[i].cmd == CMD_ACK ==> TimeDiff(current, ps[i].ts) <= bound
  }

  /** So are those of every call of a run. */
  ghost predicate RunWithin(k: Kcb, rs: seq<Request>, bound: int)
    decreases |rs|
  {
    rs == [] || (RunWithin(k, rs[..|rs| - 1], bound) && SamplesWithin(ExecAll(k, rs[..|rs| - 1]), rs[|rs| - 1], bound))
  }

  lemma {:induction false} PacketsWithin(x: Progress, ps: seq<Packet>, bound: int)
    requires x.k.cfg.Valid() && 1 <= bound < 0x1000_0000 && RttWithin(x.k.cfg, x.k.rtt, bound)
    requires AcksWithin(x.k.clock.current, ps, bound)
    ensures RttWithin(x.k.cfg, InputPackets(x, ps).k.rtt, bound)
    decreases |ps|
  {
    if ps != [] {
      var sample := TimeDiff(x.k.clock.current, ps[0].ts);
      if ps[0].cmd == CMD_ACK && sample >= 0 {
        SampleWithin(x.k.cfg, x.k.rtt, sample, bound);
      }
      assert AcksWithin(x.k.clock.current, ps[1..], bound);
      PacketsWithin(InputPacket(x, ps[0]), ps[1..], bound);
    }
  }

  lemma CallWithin(k: Kcb, r: Request, bound: int)
    requires k.cfg.Valid() && 1 <= bound < 0x1000_0000 && RttWithin(k.cfg, k.rtt, bound) && SamplesWithin(k, r, bound)
    ensures RttWithin(k.cfg, Exec(k, r).rtt, bound)
  {
    if r.InputRequest? && |r.bytes| >= OVERHEAD {
      PacketsWithin(StartInput(k), Parse(k.cfg.conv, r.bytes).packets, bound);
    }
  }

  /** In every run of the endpoint whose ACK samples are at most `bound`, the estimator of section 2 of
      RFC 6298 stays at most `bound` and the timeout in [30, 60000]. */
  lemma {:induction false} EstimateWithin(cfg: Config, rs: seq<Request>, bound: int)
    requires cfg.Valid() && cfg.wrap && 1 <= bound < 0x1000_0000 && RunWithin(Create(cfg), rs, bound)
    ensures RttWithin(cfg, ExecAll(Create(cfg), rs).rtt, bound)
    decreases |rs|
  {
    if rs != [] {
      var front := rs[..|rs| - 1];
      EstimateWithin(cfg, front, bound);
      AnyCallsKeep(cfg, front);
      CallWithin(ExecAll(Create(cfg), front), rs[|rs| - 1], bound);
    }
  }

  // ----- retransmission back-off -----

  /** The largest segment timeout, exclusive, that can be backed off once more. */
  function BackoffLimit(cfg: Config, rto: int): int {
    if cfg.nodelay == 0 then 0x4000_0000 else if cfg.nodelay < 2 then 0x5555_5556 else HALF - rto / 2
  }

  /** Exactly when a timed-out segment's new deadline is ahead of the clock. */
  lemma TimeoutDeadline(cfg: Config, rto: int, now: Time, s: SndSeg)
    requires cfg.Valid() && 0 < rto <= RTO_MAX && 0 < s.rto < HALF
    requires s.xmit != 0 && TimeDiff(now, s.resendts) >= 0
    ensures TimeDiff(Transmit(cfg, rto, now, s).seg.resendts, now) > 0 <==> s.rto < BackoffLimit(cfg, rto)
  {
    var t := Transmit(cfg, rto, now, s).seg;
    assert t.resendts == U32(now + t.rto);
    U32Sub(now + t.rto, now);
  }

  // ----- flush scheduling -----

  lemma FlushDeadline(interval: int, ts: Time, now: Time)
    requires 10 <= interval <= 5000 && 0 <= TimeDiff(now, ts) <= 10000
    ensures 1 <= TimeDiff(NextDeadline(interval, ts, now), now) <= interval
  {
    ShiftedDiff(now, ts, interval);
    Antisymmetric(now, U32(ts + interval));
    U32Sub(now + interval, now);
  }

  /** An update flushes the first time, at and after its deadline, and when the clock has jumped. */
  predicate FlushDue(c: Clock, now: Time) {
    !c.updated || TimeDiff(now, c.tsFlush) >= 0 || TimeDiff(now, c.tsFlush) < -10000
  }

  /** How long after a flush at `now` the next one is due: the schedule is kept if the old deadline was missed
      by less than an interval, and starts afresh otherwise. */
  function Pause(cfg: Config, c: Clock, now: Time): int {
    var late := TimeDiff(now, c.tsFlush);
    if c.updated && 0 <= late < cfg.interval then cfg.interval - late else cfg.interval
  }

  /** The control block as a flush at `now` sees it. */
  function Woken(k: Kcb, now: Time): Kcb { k.(clock := Clock(now, k.clock.tsFlush, true)) }

  lemma NextIs(interval: int, ts: Time, now: Time)
    requires 10 <= interval <= 5000 && 0 <= TimeDiff(now, ts) < 10000
    ensures var late := TimeDiff(now, ts);
            TimeDiff(NextDeadline(interval, ts, now), now) == if late < interval then interval - late else interval
    ensures 0 <= NextDeadline(interval, ts, now) < M32
  {
    ShiftedDiff(now, ts, interval);
    Antisymmetric(now, U32(ts + interval));
    FreshDeadline(now, interval);
  }

  lemma FlushTick(cfg: Config, c: Clock, now: Time)
    requires cfg.Valid() && ClockOk(c) && FlushDue(c, now)
    ensures var t := TickClock(cfg, c, now);
            t.flush && t.clock.current == now && t.clock.updated && 0 <= t.clock.tsFlush < M32
            && TimeDiff(t.clock.tsFlush, now) == Pause(cfg, c, now)
  {
    var late := TimeDiff(now, c.tsFlush);
    if c.updated && 0 <= late < 10000 {
      NextIs(cfg.interval, c.tsFlush, now);
    } else {
      NextIs(cfg.interval, now, now);
      assert TickClock(cfg, c, now) == Tick(Clock(now, NextDeadline(cfg.interval, now, now), true), true);
    }
  }

  lemma FreshDeadline(now: Time, interval: int)
    requires 0 < interval <= 5000
    ensures TimeDiff(U32(now + interval), now) == interval
  {
    U32Sub(now + interval, now);
  }

  lemma AgendaAt(k: Kcb, k': Kcb)
    requires k' == k.(clock := k'.clock) && k'.clock.current == k.clock.current
    ensures Agenda(k') == Agenda(k)
  {
  }

  /** What one update does. When a flush is due, the bytes it outputs say exactly the agenda of this moment,
      nothing pending is forgotten or kept twice, and the next deadline lies `Pause` ahead. Otherwise only the
      clock reading changes. */
  lemma UpdateFlushesIff(k: Kcb, now: Time)
    requires KcbOk(k)
    ensures FlushDue(k.clock, now) ==>
              var f := Update(k, now);
              && Items(Concat(f.out)) == Agenda(Woken(k, now))
              && (k.cfg.wrap ==> Items(ParseEach(k.cfg.conv, EncodeEach(f.out))) == Agenda(Woken(k, now)))
              && f.k.rcv == k.rcv.(acks := []) && !f.k.probe.ask && !f.k.probe.tell
              && f.k.clock == Clock(now, f.k.clock.tsFlush, true) && TimeDiff(f.k.clock.tsFlush, now) == Pause(k.cfg, k.clock, now)
    ensures !FlushDue(k.clock, now) ==> Update(k, now) == Flushed(k.(clock := Clock(now, k.clock.tsFlush, true)), [])
  {
    if FlushDue(k.clock, now) {
      FlushTick(k.cfg, k.clock, now);
      var k1 := k.(clock := TickClock(k.cfg, k.clock, now).clock);
      FlushSaysAgenda(k1);
      AgendaAt(k1, Woken(k, now));
    }
  }

  /** A call that neither flushes nor reads the clock. */
  predicate Untimed(r: Request) { r.SendRequest? || r.RecvRequest? || r.InputRequest? }

  lemma {:induction false} InputKeepsClock(x: Progress, ps: seq<Packet>)
    ensures InputPackets(x, ps).k.clock == x.k.clock
    decreases |ps|
  {
    if ps != [] { InputKeepsClock(InputPacket(x, ps[0]), ps[1..]); }
  }

  lemma {:induction false} UntimedKeepClock(k: Kcb, rs: seq<Request>)
    requires forall i :: 0 <= i < |rs| ==> Untimed(rs[i])
    ensures ExecAll(k, rs).clock == k.clock
    decreases |rs|
  {
    if rs != [] {
      var k1 := ExecAll(k, rs[..|rs| - 1]);
      UntimedKeepClock(k, rs[..|rs| - 1]);
      match rs[|rs| - 1]
      case InputRequest(b) => if |b| >= OVERHEAD { InputKeepsClock(StartInput(k1), Parse(k1.cfg.conv, b).packets); }
      case _ =>
    }
  }

  /** The service promise: after a flush by an update at `t0`, whatever is sent, read or received in between,
      an update at least an interval later flushes again: every segment due by then goes out. */
  lemma FlushesEveryInterval(k: Kcb, t0: Time, rs: seq<Request>, t1: Time)
    requires KcbOk(k) && k.cfg.wrap && FlushDue(k.clock, t0) && forall i :: 0 <= i < |rs| ==> Untimed(rs[i])
    requires TimeDiff(t1, t0) >= k.cfg.interval
    ensures var k1 := ExecAll(Update(k, t0).k, rs);
            Items(Concat(Update(k1, t1).out)) == Agenda(Woken(k1, t1))
  {
    UpdateFlushesIff(k, t0);
    FlushedClock(k, t0);
    StillDue(Update(k, t0).k, t0, rs, t1);
    UpdateFlushesIff(ExecAll(Update(k, t0).k, rs), t1);
  }

  lemma FlushedClock(k: Kcb, t0: Time)
    requires KcbOk(k) && FlushDue(k.clock, t0)
    ensures var u := Update(k, t0).k;
            KcbOk(u) && u.cfg == k.cfg && u.clock.updated && 1 <= TimeDiff(u.clock.tsFlush, t0) <= k.cfg.interval
  {
    UpdateFlushesIff(k, t0);
    UpdateKeeps(k, t0);
  }

  lemma StillDue(u: Kcb, t0: Time, rs: seq<Request>, t1: Time)
    requires KcbOk(u) && u.cfg.wrap && u.clock.updated && 1 <= TimeDiff(u.clock.tsFlush, t0) <= u.cfg.interval
    requires (forall i :: 0 <= i < |rs| ==> Untimed(rs[i])) && TimeDiff(t1, t0) >= u.cfg.interval
    ensures KcbOk(ExecAll(u, rs)) && FlushDue(ExecAll(u, rs).clock, t1)
  {
    ExecAllKeeps(u, rs);
    UntimedKeepClock(u, rs);
    LaterIsDue(t1, t0, u.clock.tsFlush, u.cfg.interval);
  }

  lemma LaterIsDue(t1: Time, t0: Time, ts: Time, interval: int)
    requires 1 <= TimeDiff(ts, t0) <= interval <= TimeDiff(t1, t0)
    ensures TimeDiff(t1, ts) >= 0
  {
  }

  /** After every `ikcp_update` the next flush is due in 1 to 10000 ms. */
  lemma DeadlineAhead(cfg: Config, c: Clock, now: Time)
    requires cfg.Valid() && ClockOk(c)
    ensures 1 <= TimeDiff(TickClock(cfg, c, now).clock.tsFlush, now) <= 10000
  {
    var ts0 := if c.updated then c.tsFlush else now;
    var slap := TimeDiff(now, ts0);
    if slap >= 10000 || slap < -10000 {
      FlushDeadline(cfg.interval, now, now);
    } else if slap >= 0 {
      FlushDeadline(cfg.interval, ts0, now);
    } else {
      Antisymmetric(now, ts0);
      assert TickClock(cfg, c, now).clock.tsFlush == ts0;
    }
  }

  lemma Antisymmetric(x: Time, y: Time)
    ensures TimeDiff(x, y) != -HALF ==> TimeDiff(y, x) == -TimeDiff(x, y)
  {
  }

  lemma ShiftedDiff(now: Time, ts: Time, d: int)
    requires 0 <= d <= 10000 && -10000 <= TimeDiff(now, ts) <= 10000
    ensures TimeDiff(now, U32(ts + d)) == TimeDiff(now, ts) - d
  {
  }

  /** Steps at `from`, `from + 1`, ... for `n` milliseconds, with everything they output. */
  function Each(step: (Kcb, int) -> Flushed, k: Kcb, from: int, n: nat): Flushed {
    if n == 0 then Flushed(k, [])
    else
      var f := Each(step, k, from, n - 1);
      var g := step(f.k, U32(from + n - 1));
      Flushed(g.k, f.out + g.out)
  }

  function Ticked(k: Kcb, c: int): Kcb {
    k.(clock := k.clock.(current := c))
  }

  lemma IdleTick(cfg: Config, c: Clock, now: int)
    requires c.updated && -10000 <= TimeDiff(now, c.tsFlush) < 0
    ensures TickClock(cfg, c, now) == Tick(c.(current := now), false)
  {
  }

  /** Before the time `ikcp_check` returns, an update only moves the clock. */
  lemma IdleUpdate(k: Kcb, now: Time, j: nat, c: int)
    requires k.cfg.Valid() && ClockOk(k.clock) && k.clock.updated
    requires Check(k, now) != now && j < U32(Check(k, now) - now)
    ensures Update(Ticked(k, c), U32(now + j)) == Flushed(Ticked(k, U32(now + j)), [])
  {
    CheckWithin(k, now);
    Antisymmetric(now, k.clock.tsFlush);
    LaterDiff(now, k.clock.tsFlush, j);
    IdleTick(k.cfg, Ticked(k, c).clock, U32(now + j));
  }

  lemma IdleUpdates(k: Kcb, now: Time, j: nat)
    requires k.cfg.Valid() && ClockOk(k.clock) && k.clock.updated
    requires Check(k, now) != now && j < U32(Check(k, now) - now)
    ensures IdleAt(Update, k, now, j)
  {
    forall c: int ensures Update(Ticked(k, c), U32(now + j)) == Flushed(Ticked(k, U32(now + j)), []) {
      IdleUpdate(k, now, j, c);
    }
  }

  lemma CheckWithin(k: Kcb, now: Time)
    requires k.cfg.Valid() && Check(k, now) != now && 0 <= k.clock.tsFlush < M32
    ensures k.clock.updated && -10000 <= TimeDiff(now, k.clock.tsFlush) < 0
    ensures U32(Check(k, now) - now) <= TimeDiff(k.clock.tsFlush, now)
    ensures U32(Check(k, now) - now) <= k.cfg.interval
  {
    var packet := NextDue(k.snd.buf, now, 0x7fff_ffff);
    NextDueRange(k.snd.buf, now, 0x7fff_ffff);
    Antisymmetric(now, k.clock.tsFlush);
    var m := Min(Min(packet, TimeDiff(k.clock.tsFlush, now)), k.cfg.interval);
    U32Sub(now + m, now);
  }

  lemma {:induction false} NextDueRange(buf: seq<SndSeg>, now: int, limit: int)
    requires 0 < limit < HALF
    ensures 0 <= NextDue(buf, now, limit) <= limit
  {
    if buf != [] && TimeDiff(buf[0].resendts, now) > 0 {
      NextDueRange(buf[1..], now, Min(TimeDiff(buf[0].resendts, now), limit));
    }
  }

  /** The least of the segments' remaining times below `limit`. */
  lemma {:induction false} NextDueIsLeast(buf: seq<SndSeg>, now: int, limit: int)
    requires 0 < limit
    ensures var d := NextDue(buf, now, limit);
            && (d == 0 <==> exists i :: 0 <= i < |buf| && TimeDiff(buf[i].resendts, now) <= 0)
            && (d > 0 ==> d <= limit && forall i :: 0 <= i < |buf| ==> d <= TimeDiff(buf[i].resendts, now))
            && (d > 0 ==> d == limit || exists i :: 0 <= i < |buf| && d == TimeDiff(buf[i].resendts, now))
            && d >= 0
  {
    if buf != [] && TimeDiff(buf[0].resendts, now) > 0 {
      var diff := TimeDiff(buf[0].resendts, now);
      NextDueIsLeast(buf[1..], now, Min(diff, limit));
      var d := NextDue(buf, now, limit);
      if i :| 0 <= i < |buf| && TimeDiff(buf[i].resendts, now) <= 0 { assert buf[1..][i - 1] == buf[i]; }
      if j :| 0 <= j < |buf| - 1 && TimeDiff(buf[1..][j].resendts, now) <= 0 { assert buf[j + 1] == buf[1..][j]; }
      if d > 0 {
        forall i | 0 <= i < |buf| ensures d <= TimeDiff(buf[i].resendts, now) {
          if i > 0 { assert buf[1..][i - 1] == buf[i]; }
        }
        if j :| 0 <= j < |buf| - 1 && d == TimeDiff(buf[1..][j].resendts, now) { assert buf[j + 1] == buf[1..][j]; }
      }
    }
  }

  /** Something to do at `now`: a flush, or a segment whose timeout has run out. */
  predicate Busy(k: Kcb, now: Time) {
    FlushDue(k.clock, now) || exists i :: 0 <= i < |k.snd.buf| && TimeDiff(k.snd.buf[i].resendts, now) <= 0
  }

  /** `wait` does not pass the flush deadline, any segment's deadline or an interval, and reaches one of them. */
  ghost predicate Nearest(k: Kcb, now: Time, wait: int) {
    && wait <= TimeDiff(k.clock.tsFlush, now) && wait <= k.cfg.interval
    && (forall i :: 0 <= i < |k.snd.buf| ==> wait <= TimeDiff(k.snd.buf[i].resendts, now))
    && (|| wait == TimeDiff(k.clock.tsFlush, now) || wait == k.cfg.interval
        || exists i :: 0 <= i < |k.snd.buf| && wait == TimeDiff(k.snd.buf[i].resendts, now))
  }

  /** `ikcp_check` answers `now` exactly when there is something to do, and otherwise waits for the nearest
      deadline: neither beyond it nor short of it. */
  lemma CheckIsNearest(k: Kcb, now: Time)
    requires k.cfg.Valid() && ClockOk(k.clock)
    ensures Check(k, now) == now <==> Busy(k, now)
    ensures !Busy(k, now) ==> Nearest(k, now, U32(Check(k, now) - now))
  {
    var packet := NextDue(k.snd.buf, now, 0x7fff_ffff);
    NextDueIsLeast(k.snd.buf, now, 0x7fff_ffff);
    if !FlushDue(k.clock, now) {
      Antisymmetric(now, k.clock.tsFlush);
      if packet > 0 {
        var m := Min(Min(packet, TimeDiff(k.clock.tsFlush, now)), k.cfg.interval);
        U32Sub(now + m, now);
      }
    }
  }

  lemma LaterDiff(now: Time, ts: Time, j: nat)
    requires j < 10000 && -10000 <= TimeDiff(now, ts) < 0
    ensures TimeDiff(U32(now + j), ts) == TimeDiff(now, ts) + j
  {
  }

  /** The clock reading after `n` updates. */
  function LastTick(k: Kcb, now: int, n: nat): int {
    if n == 0 then k.clock.current else U32(now + n - 1)
  }

  /** The step `j` milliseconds after `now` only moves the clock, whatever it read before. */
  ghost predicate IdleAt(step: (Kcb, int) -> Flushed, k: Kcb, now: int, j: nat) {
    var t := U32(now + j);
    forall c: int :: step(Ticked(k, c), t) == Flushed(Ticked(k, t), [])
  }

  /** Steps that only move the clock leave only the clock moved. */
  lemma {:induction false} EachIdle(step: (Kcb, int) -> Flushed, k: Kcb, now: int, n: nat)
    requires forall j: nat :: j < n ==> IdleAt(step, k, now, j)
    ensures Each(step, k, now, n) == Flushed(Ticked(k, LastTick(k, now, n)), [])
  {
    if n > 0 {
      var m: nat := n - 1;
      EachIdle(step, k, now, m);
      assert IdleAt(step, k, now, m);
      var f := Each(step, k, now, m);
      assert f.k == Ticked(k, LastTick(k, now, m));
      assert step(Ticked(k, LastTick(k, now, m)), U32(now + m)) == Flushed(Ticked(k, U32(now + m)), []);
    }
  }

  lemma EachOnce(step: (Kcb, int) -> Flushed, k: Kcb, now: int, n: nat)
    requires Each(step, k, now, n).out == []
    ensures Each(step, k, now, n + 1) == step(Each(step, k, now, n).k, U32(now + n))
  {
    var g := step(Each(step, k, now, n).k, U32(now + n));
    assert [] + g.out == g.out;
  }

  lemma CurrentIsOverwritten(k: Kcb, c: int, now: int)
    ensures Update(Ticked(k, c), now) == Update(k, now)
  {
    assert TickClock(k.cfg, k.clock.(current := c), now) == TickClock(k.cfg, k.clock, now);
  }

  lemma IdleSpan(k: Kcb, now: Time, n: nat)
    requires k.cfg.Valid() && ClockOk(k.clock) && Check(k, now) != now && n <= U32(Check(k, now) - now)
    ensures forall j: nat :: j < n ==> IdleAt(Update, k, now, j)
  {
    CheckWithin(k, now);
    forall j: nat | j < n ensures IdleAt(Update, k, now, j) {
      IdleUpdates(k, now, j);
    }
  }

  ghost predicate IdleUntil(step: (Kcb, int) -> Flushed, k: Kcb, now: int, n: nat) {
    forall j: nat :: j < n ==> IdleAt(step, k, now, j)
  }

  /** A step at `t` does not depend on the earlier clock reading. */
  ghost predicate Overwrites(step: (Kcb, int) -> Flushed, k: Kcb, t: int) {
    forall c: int :: step(Ticked(k, c), t) == step(k, t)
  }

  /** Idle steps followed by one that overwrites the clock are that one step. */
  lemma EachThenStep(step: (Kcb, int) -> Flushed, k: Kcb, now: int, n: nat, at: int)
    requires IdleUntil(step, k, now, n) && Overwrites(step, k, at) && at == U32(now + n)
    ensures Each(step, k, now, n + 1) == step(k, at)
  {
    EachIdle(step, k, now, n);
    EachOnce(step, k, now, n);
    assert step(Ticked(k, LastTick(k, now, n)), at) == step(k, at);
  }

  /** Scheduling by `ikcp_check`: one update at the time it returns leaves the same state and output
      as an update every millisecond up to then, across clock wrap-around. */
  lemma CheckIsEnough(k: Kcb, now: Time, at: Time)
    requires k.cfg.Valid() && ClockOk(k.clock) && at == Check(k, now)
    ensures Each(Update, k, now, U32(at - now) + 1) == Update(k, at)
  {
    CheckSpan(k, now, at);
    OneUpdateIsEnough(k, now, U32(at - now), at);
  }

  lemma OneUpdateIsEnough(k: Kcb, now: int, n: nat, at: int)
    requires IdleUntil(Update, k, now, n) && at == U32(now + n)
    ensures Each(Update, k, now, n + 1) == Update(k, at)
  {
    ClockIsOverwritten(k, at);
    EachThenStep(Update, k, now, n, at);
  }

  lemma CheckSpan(k: Kcb, now: Time, at: Time)
    requires k.cfg.Valid() && ClockOk(k.clock) && at == Check(k, now)
    ensures at == U32(now + U32(at - now)) && IdleUntil(Update, k, now, U32(at - now))
  {
    if at != now {
      IdleSpan(k, now, U32(at - now));
      ReachesCheck(k, now);
    }
  }

  lemma ClockIsOverwritten(k: Kcb, t: int)
    ensures Overwrites(Update, k, t)
  {
    forall c: int ensures Update(Ticked(k, c), t) == Update(k, t) {
      CurrentIsOverwritten(k, c, t);
    }
  }

  lemma ReachesCheck(k: Kcb, now: Time)
    requires Check(k, now) != now
    ensures 0 < U32(Check(k, now) - now)
    ensures U32(now + U32(Check(k, now) - now)) == Check(k, now)
  {
    var at := Check(k, now);
    U32Add(at - now, now);
    assert U32(at) == at;
  }
}
