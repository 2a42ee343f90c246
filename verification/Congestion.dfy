/** The built-in congestion controller: `incr` stays within one segment of `cwnd * mss`. */
module Congestion {
  import opened Serial
  import opened Wire
  import opened Control
  import opened Structure
  import opened Flushing

  /** No window this configuration can reach exceeds this many segments. */
  function Peak(cfg: Config): int {
    Max(65535, cfg.sndWnd / 2 + 2 + cfg.fastresend)
  }

  /** The byte counter has room for the largest window. */
  ghost predicate Roomy(cfg: Config) {
    cfg.Valid() && (Peak(cfg) + 3) * cfg.Mss() < M32
  }

  ghost predicate CwndOk(cfg: Config, c: Cc) {
    && 0 <= c.cwnd <= Peak(cfg) && THRESH_MIN <= c.ssthresh
    && 0 <= c.incr && c.cwnd * cfg.Mss() - cfg.Mss() < c.incr < c.cwnd * cfg.Mss() + cfg.Mss()
    && 0 <= c.rmtWnd < 65536
  }

  lemma MulMono(a: int, b: int, m: int)
    requires a <= b && 0 <= m
    ensures a * m <= b * m
  {
  }

  lemma MulSucc(a: int, m: int)
    ensures (a + 1) * m == a * m + m && (a - 1) * m == a * m - m && (a + 3) * m == a * m + 3 * m
  {
  }

  lemma SmallMss(cfg: Config)
    requires Roomy(cfg)
    ensures cfg.Mss() < 65536 && cfg.Mss() * cfg.Mss() < M32
  {
    MulMono(65538, Peak(cfg) + 3, cfg.Mss());
    MulMono(cfg.Mss(), 65538, cfg.Mss());
  }

  /** In congestion avoidance the byte counter holds at least a segment: the repair of a small
      `incr` never fires. */
  lemma EnoughBytes(cfg: Config, c: Cc)
    requires CwndOk(cfg, c) && c.cwnd >= c.ssthresh
    ensures c.incr >= cfg.Mss()
  {
    MulMono(2, c.cwnd, cfg.Mss());
  }

  lemma QuotientBound(mss: int, incr: int)
    requires 0 < mss <= incr
    ensures 0 <= mss * mss / incr <= mss
  {
    var q := mss * mss / incr;
    assert mss * mss == q * incr + mss * mss % incr;
    if q > mss {
      MulMono(mss + 1, q, incr);
      MulSucc(mss, incr);
      MulMono(mss, incr, mss);
      assert false;
    }
    if q < 0 {
      MulMono(q, -1, incr);
      assert false;
    }
  }

  /** Rounding up to whole segments. */
  lemma CeilBound(incr: int, mss: int)
    requires 0 <= incr && 0 < mss
    ensures var n := (incr + mss - 1) / mss; n >= 0 && incr <= n * mss < incr + mss
  {
    var n := (incr + mss - 1) / mss;
    assert incr + mss - 1 == n * mss + (incr + mss - 1) % mss;
    if n < 0 {
      MulMono(n, -1, mss);
      assert false;
    }
  }

  lemma GrowSlow(cfg: Config, c: Cc)
    requires Roomy(cfg) && CwndOk(cfg, c) && c.cwnd < c.rmtWnd && c.cwnd < c.ssthresh
    ensures Grow(cfg, c) == c.(cwnd := c.cwnd + 1, incr := c.incr + cfg.Mss())
    ensures CwndOk(cfg, Grow(cfg, c))
  {
    MulSucc(c.cwnd, cfg.Mss());
    MulMono(c.cwnd + 3, Peak(cfg) + 3, cfg.Mss());
  }

  /** The value `incr` takes in congestion avoidance. */
  function Raised(mss: int, incr: int): int
    requires incr > 0
  {
    incr + mss * mss / incr + mss / 16
  }

  lemma RaisedBound(cfg: Config, c: Cc)
    requires Roomy(cfg) && CwndOk(cfg, c) && c.cwnd < c.rmtWnd && c.cwnd >= c.ssthresh
    ensures c.incr >= cfg.Mss() > 0
    ensures c.incr <= Raised(cfg.Mss(), c.incr) < M32 - cfg.Mss()
    ensures (c.cwnd + 1) * cfg.Mss() < M32
  {
    var mss := cfg.Mss();
    EnoughBytes(cfg, c);
    QuotientBound(mss, c.incr);
    MulSucc(c.cwnd, mss);
    MulMono(c.cwnd + 4, Peak(cfg) + 3, mss);
    assert (c.cwnd + 4) * mss == c.cwnd * mss + 4 * mss;
  }

  lemma GrowAvoidance(cfg: Config, c: Cc)
    requires Roomy(cfg) && CwndOk(cfg, c) && c.cwnd < c.rmtWnd && c.cwnd >= c.ssthresh
    ensures CwndOk(cfg, Grow(cfg, c))
  {
    var mss := cfg.Mss();
    RaisedBound(cfg, c);
    SmallMss(cfg);
    var incr := Raised(mss, c.incr);
    assert U32(c.incr + U32(mss * mss) / c.incr + mss / 16) == incr;
    MulNonNegative(c.cwnd + 1, mss);
    CeilBound(incr, mss);
    MulSucc(c.cwnd, mss);
    MulMono(c.rmtWnd + 3, Peak(cfg) + 3, mss);
    MulNonNegative(c.rmtWnd, mss);
    MulSucc(c.rmtWnd, mss);
  }

  lemma MulNonNegative(a: int, b: int)
    requires 0 <= a && 0 <= b
    ensures 0 <= a * b
  {
  }

  /** Growth keeps the invariant, and never leaves the window above the peer's. */
  lemma GrowOk(cfg: Config, c: Cc)
    requires Roomy(cfg) && CwndOk(cfg, c)
    ensures CwndOk(cfg, Grow(cfg, c))
    ensures Grow(cfg, c).cwnd > c.cwnd ==> Grow(cfg, c).cwnd <= c.rmtWnd
    ensures Grow(cfg, c).rmtWnd == c.rmtWnd
  {
    if c.cwnd < c.rmtWnd {
      if c.cwnd < c.ssthresh {
        GrowSlow(cfg, c);
      } else {
        GrowAvoidance(cfg, c);
      }
    }
  }

  lemma SettleOk(cfg: Config, c: Cc, inflight: int, fast: bool, lost: bool)
    requires Roomy(cfg) && CwndOk(cfg, c) && 0 <= inflight <= cfg.sndWnd
    ensures CwndOk(cfg, Settle(cfg, c, inflight, fast, lost))
    ensures Settle(cfg, c, inflight, fast, lost).cwnd >= 1
  {
    var mss := cfg.Mss();
    var thresh := Max(inflight / 2, THRESH_MIN);
    var cwnd := U32(thresh + ResendAfter(cfg));
    assert cwnd == if cfg.fastresend > 0 then thresh + cfg.fastresend else thresh - 1;
    MulMono(cwnd + 3, Peak(cfg) + 3, mss);
    MulNonNegative(cwnd, mss);
    MulSucc(cwnd, mss);
    MulSucc(1, mss);
  }

  // ----- every run -----

  lemma {:induction false} InputOnlyWindow(x: Progress, ps: seq<Packet>)
    requires forall i :: 0 <= i < |ps| ==> 0 <= ps[i].wnd < 65536
    requires 0 <= x.k.cc.rmtWnd < 65536
    ensures var c := InputPackets(x, ps).k.cc; c == x.k.cc.(rmtWnd := c.rmtWnd) && 0 <= c.rmtWnd < 65536
    decreases |ps|
  {
    if ps != [] {
      InputOnlyWindow(InputPacket(x, ps[0]), ps[1..]);
    }
  }

  lemma InputCwnd(k: Kcb, b: Bytes)
    requires Roomy(k.cfg) && CwndOk(k.cfg, k.cc) && KcbOk(k) && k.cfg.wrap
    ensures CwndOk(k.cfg, InputBytes(k, b).k.cc)
  {
    if |b| >= OVERHEAD {
      var d := Parse(k.cfg.conv, b);
      InputOnlyWindow(StartInput(k), d.packets);
      InputPacketsKeeps(StartInput(k), d.packets);
      GrowOk(k.cfg, InputPackets(StartInput(k), d.packets).k.cc);
    }
  }

  /** The window part of a flush is `Settle` on at most a window's worth in flight. */
  lemma FlushSettles(k: Kcb) returns (inflight: int, fast: bool, lost: bool)
    requires KcbOk(k) && k.cfg.wrap && k.clock.updated
    ensures 0 <= inflight <= k.cfg.sndWnd && Flush(k).k.cc == Settle(k.cfg, k.cc, inflight, fast, lost)
  {
    AdmittedOk(k);
    var snd := Admitted(k);
    var r := SendPass(k, snd.buf, |snd.buf|);
    inflight, fast, lost := U32(snd.nxt - snd.una), r.fasts > 0, r.timeouts > 0;
  }

  lemma FlushCwnd(k: Kcb)
    requires Roomy(k.cfg) && CwndOk(k.cfg, k.cc) && KcbOk(k) && k.cfg.wrap
    ensures CwndOk(k.cfg, Flush(k).k.cc)
    ensures k.clock.updated ==> Flush(k).k.cc.cwnd >= 1
  {
    if k.clock.updated {
      var inflight, fast, lost := FlushSettles(k);
      SettleOk(k.cfg, k.cc, inflight, fast, lost);
    }
  }

  lemma ExecCwnd(k: Kcb, r: Request)
    requires Roomy(k.cfg) && CwndOk(k.cfg, k.cc) && KcbOk(k) && k.cfg.wrap
    ensures CwndOk(k.cfg, Exec(k, r).cc)
  {
    match r
    case SendRequest(data) =>
    case RecvRequest(len) =>
    case InputRequest(bytes) => InputCwnd(k, bytes);
    case FlushRequest => FlushCwnd(k);
    case UpdateRequest(now) => UpdateCwnd(k, now);
  }

  lemma UpdateCwnd(k: Kcb, now: Time)
    requires Roomy(k.cfg) && CwndOk(k.cfg, k.cc) && KcbOk(k) && k.cfg.wrap
    ensures CwndOk(k.cfg, Update(k, now).k.cc)
  {
    var k1 := k.(clock := TickClock(k.cfg, k.clock, now).clock);
    assert KcbOk(k1);
    FlushCwnd(k1);
  }

  /** After any calls and any bytes, `incr` is within one segment of `cwnd * mss` and the slow-start
      threshold is at least 2. */
  lemma {:induction false} WindowMatchesBytes(cfg: Config, rs: seq<Request>)
    requires Roomy(cfg) && cfg.wrap
    ensures CwndOk(cfg, ExecAll(Create(cfg), rs).cc)
    decreases |rs|
  {
    if rs != [] {
      WindowMatchesBytes(cfg, rs[..|rs| - 1]);
      AnyCallsKeep(cfg, rs[..|rs| - 1]);
      ExecCwnd(ExecAll(Create(cfg), rs[..|rs| - 1]), rs[|rs| - 1]);
    }
  }

  // ----- what an incoming datagram can do to the window -----

  /** The window state when `ikcp_input` comes to grow it: only the peer's window has changed. */
  lemma SeenByGrowth(cfg: Config, rs: seq<Request>, b: Bytes)
    requires Roomy(cfg) && cfg.wrap
    ensures var k := ExecAll(Create(cfg), rs); var c := InputPackets(StartInput(k), Parse(cfg.conv, b).packets).k.cc;
            k.cfg == cfg && CwndOk(cfg, c) && c == k.cc.(rmtWnd := c.rmtWnd)
  {
    WindowMatchesBytes(cfg, rs);
    AnyCallsKeep(cfg, rs);
    InputOnlyWindow(StartInput(ExecAll(Create(cfg), rs)), Parse(cfg.conv, b).packets);
  }

  /** In every reachable state and for any bytes, the byte counter holds at least a segment when growth in
      congestion avoidance comes to use it: the repair of a small `incr` never fires. */
  lemma RepairNeverFires(cfg: Config, rs: seq<Request>, b: Bytes)
    requires Roomy(cfg) && cfg.wrap
    ensures var c := InputPackets(StartInput(ExecAll(Create(cfg), rs)), Parse(cfg.conv, b).packets).k.cc;
            c.cwnd >= c.ssthresh ==> c.incr >= cfg.Mss()
  {
    SeenByGrowth(cfg, rs, b);
    var c := InputPackets(StartInput(ExecAll(Create(cfg), rs)), Parse(cfg.conv, b).packets).k.cc;
    if c.cwnd >= c.ssthresh { EnoughBytes(cfg, c); }
  }

  /** In every reachable state and for any bytes, a window that reading them increased is at most the peer's. */
  lemma GrowthIsCapped(cfg: Config, rs: seq<Request>, b: Bytes)
    requires Roomy(cfg) && cfg.wrap
    ensures var k := ExecAll(Create(cfg), rs); var c := InputBytes(k, b).k.cc;
            c.cwnd > k.cc.cwnd ==> c.cwnd <= c.rmtWnd
  {
    var k := ExecAll(Create(cfg), rs);
    SeenByGrowth(cfg, rs, b);
    InputPacketsConfig(StartInput(k), Parse(cfg.conv, b).packets);
    GrowOk(cfg, InputPackets(StartInput(k), Parse(cfg.conv, b).packets).k.cc);
  }

  lemma {:induction false} InputPacketsConfig(x: Progress, ps: seq<Packet>)
    ensures InputPackets(x, ps).k.cfg == x.k.cfg
    decreases |ps|
  {
    if ps != [] { InputPacketsConfig(InputPacket(x, ps[0]), ps[1..]); }
  }

  // ----- how the window reacts -----

  /** Slow start adds a segment. In congestion avoidance the byte counter gains about a segment per window and
      a sixteenth; once it holds a segment more than the window, the window is the number of segments it
      fills, up to the peer's window. A window that is not smaller than the peer's stays. */
  ghost predicate Grown(cfg: Config, c: Cc, c': Cc) {
    var mss := cfg.Mss();
    && c'.ssthresh == c.ssthresh && c'.rmtWnd == c.rmtWnd
    && if c.cwnd >= c.rmtWnd then c' == c
       else if c.cwnd < c.ssthresh then c'.cwnd == c.cwnd + 1 && c'.incr == c.incr + mss
       else c.incr > 0 && GrownSlowly(mss, c, c', Raised(mss, c.incr))
  }

  ghost predicate GrownSlowly(mss: int, c: Cc, c': Cc, bytes: int) {
    if bytes < (c.cwnd + 1) * mss then c'.cwnd == c.cwnd && c'.incr == bytes
    else if (c.rmtWnd * mss) < bytes then c'.cwnd == c.rmtWnd && c'.incr == c.rmtWnd * mss
    else (c'.cwnd - 1) * mss < bytes <= c'.cwnd * mss && c'.incr == bytes
  }

  lemma AvoidanceGrows(cfg: Config, c: Cc)
    requires Roomy(cfg) && CwndOk(cfg, c) && c.cwnd < c.rmtWnd && c.cwnd >= c.ssthresh
    ensures c.incr > 0 && GrownSlowly(cfg.Mss(), c, Grow(cfg, c), Raised(cfg.Mss(), c.incr))
    ensures Grow(cfg, c).ssthresh == c.ssthresh && Grow(cfg, c).rmtWnd == c.rmtWnd
  {
    var mss := cfg.Mss();
    RaisedBound(cfg, c);
    SmallMss(cfg);
    var bytes := Raised(mss, c.incr);
    assert U32(c.incr + U32(mss * mss) / c.incr + mss / 16) == bytes;
    assert U32(U32(c.cwnd + 1) * mss) == (c.cwnd + 1) * mss by { MulNonNegative(c.cwnd + 1, mss); }
    if (c.cwnd + 1) * mss <= bytes {
      Ceiling(cfg, c, bytes);
    } else {
      MulMono(c.cwnd + 1, c.rmtWnd, mss);
    }
  }

  lemma Ceiling(cfg: Config, c: Cc, bytes: int)
    requires Roomy(cfg) && CwndOk(cfg, c) && c.cwnd < c.rmtWnd && c.cwnd >= c.ssthresh
    requires (c.cwnd + 1) * cfg.Mss() <= bytes < M32 - cfg.Mss()
    ensures var mss := cfg.Mss(); var n := U32(bytes + mss - 1) / Max(mss, 1);
            && (n - 1) * mss < bytes <= n * mss
            && (n > c.rmtWnd <==> c.rmtWnd * mss < bytes)
            && U32(c.rmtWnd * mss) == c.rmtWnd * mss
  {
    var mss := cfg.Mss();
    var n := (bytes + mss - 1) / mss;
    MulNonNegative(c.cwnd + 1, mss);
    CeilBound(bytes, mss);
    MulSucc(n, mss);
    MulNonNegative(c.rmtWnd, mss);
    MulMono(c.rmtWnd, Peak(cfg) + 3, mss);
    if n > c.rmtWnd { MulMono(c.rmtWnd, n - 1, mss); } else { MulMono(n, c.rmtWnd, mss); }
  }

  lemma GrowGrows(cfg: Config, c: Cc)
    requires Roomy(cfg) && CwndOk(cfg, c)
    ensures Grown(cfg, c, Grow(cfg, c))
  {
    if c.cwnd < c.rmtWnd {
      if c.cwnd < c.ssthresh { GrowSlow(cfg, c); } else { AvoidanceGrows(cfg, c); }
    }
  }

  /** What reading a datagram does to the window, in every reachable state: the peer's window is that of its
      last segment, and the own window grows, once, exactly when decoding was complete and `snd_una` moved. */
  lemma InputGrows(cfg: Config, rs: seq<Request>, b: Bytes)
    requires Roomy(cfg) && cfg.wrap && |b| >= OVERHEAD
    ensures var k := ExecAll(Create(cfg), rs); var d := Parse(cfg.conv, b); var k' := InputBytes(k, b).k;
            var c := k.cc.(rmtWnd := if d.packets == [] then k.cc.rmtWnd else d.packets[|d.packets| - 1].wnd);
            if d.status == 0 && k'.snd.una != k.snd.una then Grown(cfg, c, k'.cc) else k'.cc == c
  {
    var k := ExecAll(Create(cfg), rs);
    var d := Parse(cfg.conv, b);
    SeenByGrowth(cfg, rs, b);
    AnyCallsKeep(cfg, rs);
    LastWindow(StartInput(k), d.packets);
    ReadMoves(k, d.packets);
    FinishGrows(k.snd, InputPackets(StartInput(k), d.packets));
  }

  lemma ReadMoves(k: Kcb, ps: seq<Packet>)
    requires KcbOk(k) && k.cfg.wrap && forall i :: 0 <= i < |ps| ==> Encodable(ps[i])
    ensures var x := InputPackets(StartInput(k), ps);
            && x.k.cfg == k.cfg && SndOk(k.cfg, x.k.snd)
            && (Diff(k.cfg.wrap, x.k.snd.una, k.snd.una) > 0 <==> x.k.snd.una != k.snd.una)
  {
    InputPacketsKeeps(StartInput(k), ps);
    AheadIfMoved(k.cfg, k.snd, InputPackets(StartInput(k), ps).k.snd);
  }

  lemma FinishGrows(snd: Snd, x: Progress)
    requires Roomy(x.k.cfg) && CwndOk(x.k.cfg, x.k.cc)
    requires Diff(x.k.cfg.wrap, x.k.snd.una, snd.una) > 0 <==> x.k.snd.una != snd.una
    ensures var k' := FinishInput(snd.una, x);
            && k'.snd.una == x.k.snd.una
            && if k'.snd.una != snd.una then Grown(x.k.cfg, x.k.cc, k'.cc) else k'.cc == x.k.cc
  {
    GrowGrows(x.k.cfg, x.k.cc);
  }

  lemma {:induction false} LastWindow(x: Progress, ps: seq<Packet>)
    ensures ps != [] ==> InputPackets(x, ps).k.cc.rmtWnd == ps[|ps| - 1].wnd
    ensures ps == [] ==> InputPackets(x, ps).k.cc.rmtWnd == x.k.cc.rmtWnd
    decreases |ps|
  {
    if ps != [] { LastWindow(InputPacket(x, ps[0]), ps[1..]); }
  }

  lemma AheadIfMoved(cfg: Config, snd: Snd, snd': Snd)
    requires cfg.Valid() && SndOk(cfg, snd) && SndOk(cfg, snd') && Advanced(cfg, snd.(ackedLen := 0), snd')
    ensures Diff(cfg.wrap, snd'.una, snd.una) > 0 <==> snd'.una != snd.una
  {
    OffZero(cfg.wrap, snd.una, snd.una);
    OffZero(cfg.wrap, snd'.una, snd.una);
    DiffIsOffset(cfg.wrap, snd'.una, snd.una, snd.una);
  }

  /** What a flush does to the window: a timeout halves the threshold and starts over with one segment; failing
      that, a fast retransmission sets the threshold to half of what is in flight and the window to that and
      the resend count; otherwise the window only becomes at least 1. */
  ghost predicate Reacted(cfg: Config, c: Cc, inflight: int, fast: bool, lost: bool, c': Cc) {
    var half := (if lost then c.cwnd else inflight) / 2;
    && c'.rmtWnd == c.rmtWnd
    && (lost || fast ==> c'.ssthresh == if half < 2 then 2 else half)
    && (lost ==> c'.cwnd == 1 && c'.incr == cfg.Mss())
    && (!lost && fast && cfg.fastresend > 0 ==> c'.cwnd == c'.ssthresh + cfg.fastresend && c'.incr == c'.cwnd * cfg.Mss())
    && (!lost && !fast ==>
          c'.ssthresh == c.ssthresh && if c.cwnd >= 1 then c' == c else c'.cwnd == 1 && c'.incr == cfg.Mss())
  }

  lemma SettleReacts(cfg: Config, c: Cc, inflight: int, fast: bool, lost: bool)
    requires Roomy(cfg) && CwndOk(cfg, c) && 0 <= inflight <= cfg.sndWnd
    ensures Reacted(cfg, c, inflight, fast, lost, Settle(cfg, c, inflight, fast, lost))
  {
    var mss := cfg.Mss();
    var thresh := Max(inflight / 2, THRESH_MIN);
    var cwnd := U32(thresh + ResendAfter(cfg));
    if fast && cfg.fastresend > 0 {
      assert cwnd == thresh + cfg.fastresend;
      MulMono(cwnd + 3, Peak(cfg) + 3, mss);
      MulNonNegative(cwnd, mss);
      MulSucc(cwnd, mss);
    }
  }

  /** In every reachable state: the window reacts to whether any buffered segment has timed out and whether any
      is due for fast retransmission, with what is in flight after numbering. */
  lemma FlushReacts(k: Kcb)
    requires Roomy(k.cfg) && CwndOk(k.cfg, k.cc) && KcbOk(k) && k.cfg.wrap && k.clock.updated
    ensures var snd := Admitted(k);
            Reacted(k.cfg, k.cc, Off(true, snd.nxt, snd.una),
                    AnyOf(snd.buf, |snd.buf|, IsFastDue(k.cfg, k.clock.current)),
                    AnyOf(snd.buf, |snd.buf|, IsTimedOut(k.clock.current)), Flush(k).k.cc)
  {
    AdmittedOk(k);
    var snd := Admitted(k);
    PassReports(k, snd.buf, |snd.buf|);
    ReactsTo(k, snd, SendPass(k, snd.buf, |snd.buf|));
  }

  lemma ReactsTo(k: Kcb, snd: Snd, r: Pass)
    requires Roomy(k.cfg) && CwndOk(k.cfg, k.cc) && 0 <= Off(true, snd.nxt, snd.una) <= k.cfg.sndWnd
    requires Reports(k, snd.buf, |snd.buf|, r)
    ensures Reacted(k.cfg, k.cc, Off(true, snd.nxt, snd.una),
                    AnyOf(snd.buf, |snd.buf|, IsFastDue(k.cfg, k.clock.current)),
                    AnyOf(snd.buf, |snd.buf|, IsTimedOut(k.clock.current)),
                    Settle(k.cfg, k.cc, U32(snd.nxt - snd.una), r.fasts > 0, r.timeouts > 0))
  {
    SettleReacts(k.cfg, k.cc, U32(snd.nxt - snd.una), r.fasts > 0, r.timeouts > 0);
  }
}
