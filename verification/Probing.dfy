/** Zero-window probing: the probe interval in every reachable state, and the way from a due probe to
    the window the sender learns, through the bytes of both datagrams. */
module Probing {
  import opened Serial
  import opened Wire
  import opened Control
  import opened Structure
  import opened Flushing
  import opened Reading

  // ----- the probe interval -----

  ghost predicate ProbeOk(p: Probe) {
    p.wait == 0 || PROBE_INIT <= p.wait <= PROBE_LIMIT
  }

  lemma TickKeepsProbe(p: Probe, rmtWnd: int, now: int)
    requires ProbeOk(p)
    ensures ProbeOk(ProbeTick(p, rmtWnd, now))
    ensures rmtWnd == 0 ==> var w := ProbeTick(p, rmtWnd, now).wait; PROBE_INIT <= w <= PROBE_LIMIT && w >= p.wait
  {
  }

  /** Reading segments can only raise the request for a report; a window probe among them does. */
  lemma {:induction false} ProbeIsHeard(x: Progress, ps: seq<Packet>)
    ensures var p := InputPackets(x, ps).k.probe;
            && p == x.k.probe.(tell := p.tell)
            && (p.tell <==> x.k.probe.tell || exists i :: 0 <= i < |ps| && ps[i].cmd == CMD_WASK)
    decreases |ps|
  {
    if ps != [] {
      var x1 := InputPacket(x, ps[0]);
      ProbeIsHeard(x1, ps[1..]);
      if j :| 0 <= j < |ps[1..]| && ps[1..][j].cmd == CMD_WASK {
        assert ps[j + 1].cmd == CMD_WASK;
      }
      if i :| 0 <= i < |ps| && ps[i].cmd == CMD_WASK {
        assert i > 0 ==> ps[1..][i - 1].cmd == CMD_WASK;
      }
    }
  }

  lemma InputProbe(k: Kcb, b: Bytes)
    ensures var p := InputBytes(k, b).k.probe; p == k.probe.(tell := p.tell) && (k.probe.tell ==> p.tell)
  {
    if |b| >= OVERHEAD {
      ProbeIsHeard(StartInput(k), Parse(k.cfg.conv, b).packets);
    }
  }

  lemma ExecProbe(k: Kcb, r: Request)
    requires ProbeOk(k.probe)
    ensures ProbeOk(Exec(k, r).probe)
  {
    match r
    case InputRequest(bytes) => InputProbe(k, bytes);
    case FlushRequest => TickKeepsProbe(k.probe, k.cc.rmtWnd, k.clock.current);
    case UpdateRequest(now) => TickKeepsProbe(k.probe, k.cc.rmtWnd, now);
    case _ =>
  }

  /** The probe interval is 0 or in [5000, 120000] after any calls. */
  lemma {:induction false} AnyCallsKeepProbe(cfg: Config, rs: seq<Request>)
    ensures ProbeOk(ExecAll(Create(cfg), rs).probe)
    decreases |rs|
  {
    if rs != [] {
      AnyCallsKeepProbe(cfg, rs[..|rs| - 1]);
      ExecProbe(ExecAll(Create(cfg), rs[..|rs| - 1]), rs[|rs| - 1]);
    }
  }

  /** The probe timer: an open window stops it; a closed one starts it at 5 s, and each time it runs out asks for
      a probe and waits half as long again, rounded down, at most 120 s. */
  lemma ProbeTimer(p: Probe, rmtWnd: int, now: Time)
    requires ProbeOk(p)
    ensures var q := ProbeTick(p, rmtWnd, now);
            && q.tell == p.tell
            && (rmtWnd != 0 ==> q.wait == 0 && q.ask == p.ask)
            && (rmtWnd == 0 && p.wait == 0 ==> q.wait == 5000 && TimeDiff(q.ts, now) == 5000 && q.ask == p.ask)
            && (rmtWnd == 0 && p.wait != 0 && TimeDiff(now, p.ts) < 0 ==> q == p)
            && (rmtWnd == 0 && p.wait != 0 && TimeDiff(now, p.ts) >= 0 ==>
                  && q.ask && TimeDiff(q.ts, now) == q.wait
                  && q.wait <= 120000 && 2 * q.wait <= 3 * p.wait && (q.wait < 120000 ==> 3 * p.wait < 2 * q.wait + 2))
  {
    var q := ProbeTick(p, rmtWnd, now);
    U32Sub(now + q.wait, now);
  }

  /** The peer's window is closed and the time to probe has come. */
  predicate ProbeDue(k: Kcb) {
    k.cc.rmtWnd == 0 && k.probe.wait != 0 && TimeDiff(k.clock.current, k.probe.ts) >= 0
  }

  predicate Asks(ps: seq<Packet>) { exists i :: 0 <= i < |ps| && ps[i].cmd == CMD_WASK }

  lemma DueProbeIsSent(k: Kcb)
    requires ProbeDue(k)
    ensures Asks(FlushPackets(k))
  {
    assert FlushPackets(k)[|AckPackets(k)|] == ProbePacket(k, CMD_WASK);
  }

  lemma {:induction false} PassPushes(k: Kcb, buf: seq<SndSeg>, n: nat)
    requires n <= |buf|
    ensures forall p :: p in SendPass(k, buf, n).pushes ==> p.cmd == CMD_PUSH
  {
    if n > 0 { PassPushes(k, buf, n - 1); }
  }

  /** A flush runs the timer, probes exactly when a probe is called for, and leaves no request standing. */
  lemma FlushProbes(k: Kcb)
    requires k.clock.updated
    ensures var p := ProbeTick(k.probe, k.cc.rmtWnd, k.clock.current); Flush(k).k.probe == p.(ask := false, tell := false)
    ensures Asks(FlushPackets(k)) <==> AskDue(k)
  {
    var buf := Admitted(k).buf;
    PassPushes(k, buf, |buf|);
    var t := ProbeTick(k.probe, k.cc.rmtWnd, k.clock.current);
    if t.ask { assert FlushPackets(k)[|AckPackets(k)|] == ProbePacket(k, CMD_WASK); }
  }

  /** While the peer's window is closed, in every reachable state: a flush leaves the probe interval in
      [5000, 120000] and never smaller than before, and if the probe time has come it sends a probe. */
  lemma ClosedWindowProbes(cfg: Config, rs: seq<Request>, k: Kcb)
    requires AtFlush(ExecAll(Create(cfg), rs), k) && k.clock.updated && k.cc.rmtWnd == 0
    ensures var p := Flush(k).k.probe; PROBE_INIT <= p.wait <= PROBE_LIMIT && p.wait >= k.probe.wait
    ensures ProbeDue(k) ==> Asks(FlushPackets(k))
  {
    AnyCallsKeepProbe(cfg, rs);
    TickKeepsProbe(k.probe, k.cc.rmtWnd, k.clock.current);
    if ProbeDue(k) {
      DueProbeIsSent(k);
    }
  }

  // ----- the answer -----

  /** A call that does not flush. */
  predicate Quiet(k: Kcb, r: Request) {
    !r.FlushRequest? && (r.UpdateRequest? ==> !TickClock(k.cfg, k.clock, r.now).flush)
  }

  predicate AllQuiet(k: Kcb, rs: seq<Request>) {
    rs == [] || (AllQuiet(k, rs[..|rs| - 1]) && Quiet(ExecAll(k, rs[..|rs| - 1]), rs[|rs| - 1]))
  }

  lemma QuietCallStands(k: Kcb, r: Request)
    requires k.probe.tell && Quiet(k, r)
    ensures Exec(k, r).probe.tell
  {
    if r.InputRequest? {
      InputProbe(k, r.bytes);
    }
  }

  /** The request for a report survives any calls that do not flush. */
  lemma {:induction false} RequestStands(k: Kcb, rs: seq<Request>)
    requires k.probe.tell && AllQuiet(k, rs)
    ensures ExecAll(k, rs).probe.tell
    decreases |rs|
  {
    if rs != [] {
      RequestStands(k, rs[..|rs| - 1]);
      QuietCallStands(ExecAll(k, rs[..|rs| - 1]), rs[|rs| - 1]);
    }
  }

  /** The flush that answers sends a report, and every segment it sends carries the free space. */
  lemma ReportIsSent(k: Kcb)
    requires KcbOk(k) && k.clock.updated && k.probe.tell
    ensures exists p :: p in FlushPackets(k) && p.cmd == CMD_WINS
    ensures forall p :: p in FlushPackets(k) ==> p.wnd == FreeSpace(k) % 65536
  {
    FlushEmitted(k);
    var t := ProbeTick(k.probe, k.cc.rmtWnd, k.clock.current);
    var n := |AckPackets(k)| + if t.ask then 1 else 0;
    assert FlushPackets(k)[n] == ProbePacket(k, CMD_WINS);
  }

  lemma {:induction false} WindowIsLearnt(x: Progress, ps: seq<Packet>, wnd: int)
    requires ps != [] && forall i :: 0 <= i < |ps| ==> ps[i].wnd == wnd
    ensures InputPackets(x, ps).k.cc.rmtWnd == wnd
    decreases |ps|
  {
    if |ps| == 1 {
      assert InputPackets(x, ps) == InputPackets(InputPacket(x, ps[0]), []);
    } else {
      WindowIsLearnt(InputPacket(x, ps[0]), ps[1..], wnd);
    }
  }

  lemma FinishKeepsWindow(prevUna: int, x: Progress)
    ensures FinishInput(prevUna, x).cc.rmtWnd == x.k.cc.rmtWnd
  {
  }

  // ----- through bytes -----

  /** The bytes of a datagram of a flush read back as its segments. */
  lemma OutReadsBack(k: Kcb, i: int, conv: int)
    requires KcbOk(k) && k.cfg.wrap && k.clock.updated && 0 <= i < |Flush(k).out| && conv == k.cfg.conv
    ensures var d := Flush(k).out[i];
            && d != [] && Parse(conv, DatagramBytes(d)) == Parsed(d, 0) && |DatagramBytes(d)| >= OVERHEAD
            && forall j :: 0 <= j < |d| ==> d[j].wnd == FreeSpace(k) % 65536
  {
    var d := Flush(k).out[i];
    FlushRoundTrip(k);
    assert |DatagramBytes(d)| >= 1;
    forall j | 0 <= j < |d|
      ensures Encodable(d[j]) && d[j].conv == conv && d[j].wnd == FreeSpace(k) % 65536
    {
      OutEmitted(k, i, j);
      EmittedOk(k, d[j]);
    }
    ParseOfEncode(conv, d);
  }

  /** Whichever datagram of a flush arrives, its receiver learns the free space at that flush. */
  lemma ArrivalTellsWindow(k: Kcb, peer: Kcb, j: int)
    requires KcbOk(peer) && peer.cfg.wrap && peer.clock.updated && 0 <= j < |Flush(peer).out| && k.cfg.conv == peer.cfg.conv
    ensures InputBytes(k, DatagramBytes(Flush(peer).out[j])).k.cc.rmtWnd == FreeSpace(peer) % 65536
  {
    var d := Flush(peer).out[j];
    OutReadsBack(peer, j, k.cfg.conv);
    WindowIsLearnt(StartInput(k), d, FreeSpace(peer) % 65536);
    FinishKeepsWindow(k.snd.una, InputPackets(StartInput(k), d));
  }

  /** A probe that arrives asks for a report. */
  lemma ArrivalAsks(k: Kcb, peer: Kcb, i: int)
    requires KcbOk(k) && k.cfg.wrap && k.clock.updated && 0 <= i < |Flush(k).out| && k.cfg.conv == peer.cfg.conv
    requires Asks(Flush(k).out[i])
    ensures InputBytes(peer, DatagramBytes(Flush(k).out[i])).k.probe.tell
  {
    OutReadsBack(k, i, peer.cfg.conv);
    ProbeIsHeard(StartInput(peer), Flush(k).out[i]);
  }

  lemma {:induction false} SomeOneAsks(ds: seq<Datagram>)
    requires Asks(Concat(ds))
    ensures exists i :: 0 <= i < |ds| && Asks(ds[i])
  {
    var n :| 0 <= n < |Concat(ds)| && Concat(ds)[n].cmd == CMD_WASK;
    if n < |ds[0]| {
      assert ds[0][n].cmd == CMD_WASK;
    } else {
      assert Concat(ds[1..])[n - |ds[0]|].cmd == CMD_WASK;
      SomeOneAsks(ds[1..]);
      var i :| 0 <= i < |ds[1..]| && Asks(ds[1..][i]);
      assert Asks(ds[i + 1]);
    }
  }

  /** A flush with a probe due has a datagram that asks. */
  lemma SomeDatagramAsks(k: Kcb)
    requires KcbOk(k) && k.clock.updated && ProbeDue(k)
    ensures exists i :: 0 <= i < |Flush(k).out| && Asks(Flush(k).out[i])
  {
    DueProbeIsSent(k);
    FlushRoundTrip(k);
    SomeOneAsks(Flush(k).out);
  }

  /** The answer: `b` is the peer when it next flushes, after a datagram that asks has reached it and any
      calls that do not flush have been made on it. */
  ghost predicate Answers(ask: Bytes, peer: Kcb, rs: seq<Request>, b: Kcb) {
    var heard := InputBytes(peer, ask).k;
    AllQuiet(heard, rs) && AtFlush(ExecAll(heard, rs), b) && b.clock.updated
  }

  lemma AnswerIsReady(ask: Bytes, peer: Kcb, rs: seq<Request>, b: Kcb)
    requires KcbOk(peer) && peer.cfg.wrap && Answers(ask, peer, rs, b) && InputBytes(peer, ask).k.probe.tell
    ensures KcbOk(b) && b.cfg == peer.cfg && b.probe.tell
  {
    var heard := InputBytes(peer, ask).k;
    InputBytesKeeps(peer, ask);
    ExecAllKeeps(heard, rs);
    RequestStands(heard, rs);
    AtFlushKeeps(ExecAll(heard, rs), b);
  }

  /** Bounded response, in every reachable pair of states: when the probe time has come the flush has a
      datagram that asks; once it is delivered, and whatever else the peer is called with, the peer's
      next flush reports, and whichever of its datagrams comes back sets the sender's view of the window
      to the space that was free at that flush. */
  lemma ZeroWindowRecovers(ca: Config, cb: Config, ra: seq<Request>, a: Kcb, rb: seq<Request>)
    requires ca.Valid() && ca.wrap && cb.Valid() && cb.wrap && ca.conv == cb.conv
    requires AtFlush(ExecAll(Create(ca), ra), a) && a.clock.updated && ProbeDue(a)
    ensures exists i :: 0 <= i < |Flush(a).out| && Asks(Flush(a).out[i])
    ensures forall i, rs, b ::
              (0 <= i < |Flush(a).out| && Asks(Flush(a).out[i])
               && Answers(DatagramBytes(Flush(a).out[i]), ExecAll(Create(cb), rb), rs, b))
              ==> WindowComesBack(ca, b)
  {
    AnyCallsKeep(ca, ra);
    AtFlushKeeps(ExecAll(Create(ca), ra), a);
    SomeDatagramAsks(a);
    var peer := ExecAll(Create(cb), rb);
    AnyCallsKeep(cb, rb);
    forall i, rs, b | 0 <= i < |Flush(a).out| && Asks(Flush(a).out[i]) && Answers(DatagramBytes(Flush(a).out[i]), peer, rs, b)
      ensures WindowComesBack(ca, b)
    {
      ArrivalAsks(a, peer, i);
      AnswerIsReady(DatagramBytes(Flush(a).out[i]), peer, rs, b);
      AnswerTellsWindow(ca, b);
    }
  }

  /** The flush of `b` reports, and each of its datagrams tells any endpoint of the conversation the space
      free at `b`. */
  ghost predicate WindowComesBack(cfg: Config, b: Kcb) {
    && (exists p :: p in Concat(Flush(b).out) && p.cmd == CMD_WINS)
    && forall k: Kcb, j :: k.cfg.conv == cfg.conv && 0 <= j < |Flush(b).out| ==>
         InputBytes(k, DatagramBytes(Flush(b).out[j])).k.cc.rmtWnd == FreeSpace(b) % 65536
  }

  lemma AnswerTellsWindow(cfg: Config, b: Kcb)
    requires KcbOk(b) && b.cfg.wrap && b.clock.updated && b.probe.tell && b.cfg.conv == cfg.conv
    ensures WindowComesBack(cfg, b)
  {
    ReportIsSent(b);
    FlushRoundTrip(b);
    forall k: Kcb, j | k.cfg.conv == cfg.conv && 0 <= j < |Flush(b).out|
      ensures InputBytes(k, DatagramBytes(Flush(b).out[j])).k.cc.rmtWnd == FreeSpace(b) % 65536
    {
      ArrivalTellsWindow(k, b, j);
    }
  }

  // ----- a full receiver -----

  /** A closed window admits nothing. */
  lemma ClosedAdmitsNothing(k: Kcb)
    requires KcbOk(k) && k.cc.rmtWnd == 0
    ensures Admitted(k).nxt == k.snd.nxt && Admitted(k).queue == k.snd.queue
  {
    var more := FlushNumbers(k);
    SameOffSameNumber(k.cfg.wrap, Admitted(k).nxt, k.snd.nxt, k.snd.una);
  }

  lemma ReadingCloses(k: Kcb, b: Bytes)
    requires KcbOk(k) && k.cfg.wrap && InputBytes(k, b).k.cc.rmtWnd == 0
    ensures var k' := InputBytes(k, b).k; Admitted(k').nxt == k'.snd.nxt && Admitted(k').queue == k'.snd.queue
  {
    InputBytesKeeps(k, b);
    ClosedAdmitsNothing(InputBytes(k, b).k);
  }

  /** `b` closes the window of `k`, which then numbers no further segment. */
  ghost predicate Stops(k: Kcb, b: Bytes) {
    var k' := InputBytes(k, b).k;
    k'.cc.rmtWnd == 0 && Admitted(k').nxt == k'.snd.nxt && Admitted(k').queue == k'.snd.queue
  }

  /** What a datagram tells of a window that does not fit the 16-bit field: it is closed exactly when the free
      space is a multiple of 65536. So a full receiver stops its sender, whose next flush numbers no further
      segment; and so does an empty one whose receive window is 65536. */
  lemma ClosedIff(k: Kcb, peer: Kcb, j: int)
    requires KcbOk(k) && k.cfg.wrap && KcbOk(peer) && peer.cfg.wrap && k.cfg.conv == peer.cfg.conv
    requires peer.clock.updated && 0 <= j < |Flush(peer).out|
    ensures var b := DatagramBytes(Flush(peer).out[j]);
            && (InputBytes(k, b).k.cc.rmtWnd == 0 <==> FreeSpace(peer) % 65536 == 0)
            && (FreeSpace(peer) % 65536 == 0 ==> Stops(k, b))
  {
    ArrivalTellsWindow(k, peer, j);
    if FreeSpace(peer) % 65536 == 0 { ReadingCloses(k, DatagramBytes(Flush(peer).out[j])); }
  }

  lemma FullQueueStopsSender(k: Kcb, peer: Kcb, j: int)
    requires KcbOk(k) && k.cfg.wrap && KcbOk(peer) && peer.cfg.wrap && k.cfg.conv == peer.cfg.conv
    requires peer.clock.updated && |peer.rcv.queue| == peer.cfg.rcvWnd && 0 <= j < |Flush(peer).out|
    ensures Stops(k, DatagramBytes(Flush(peer).out[j]))
  {
    FullIsClosed(peer);
    ClosedIff(k, peer, j);
  }

  lemma FullIsClosed(peer: Kcb)
    requires |peer.rcv.queue| == peer.cfg.rcvWnd
    ensures FreeSpace(peer) % 65536 == 0
  {
  }

  /** Room made by a read is reported: after a read that opens a full queue, and any calls that do not flush,
      the next flush sends a report, and all it sends carries the room there then is. */
  lemma SpaceIsReported(k: Kcb, len: int, rs: seq<Request>, b: Kcb)
    requires KcbOk(k) && k.cfg.wrap && |k.rcv.queue| == k.cfg.rcvWnd
    requires Recv(k, len).ret >= 0 && |Recv(k, len).k.rcv.queue| < k.cfg.rcvWnd
    requires AllQuiet(Recv(k, len).k, rs) && AtFlush(ExecAll(Recv(k, len).k, rs), b) && b.clock.updated
    ensures exists p :: p in FlushPackets(b) && p.cmd == CMD_WINS
    ensures forall p :: p in FlushPackets(b) ==> p.wnd == (b.cfg.rcvWnd - |b.rcv.queue|) % 65536
  {
    ReadReports(k, len);
    RecvKeeps(k, len);
    assert Recv(k, len).k.cfg == k.cfg;
    StandingIsReported(Recv(k, len).k, rs, b);
  }

  lemma StandingIsReported(k: Kcb, rs: seq<Request>, b: Kcb)
    requires KcbOk(k) && k.cfg.wrap && k.probe.tell && AllQuiet(k, rs) && AtFlush(ExecAll(k, rs), b) && b.clock.updated
    ensures exists p :: p in FlushPackets(b) && p.cmd == CMD_WINS
    ensures forall p :: p in FlushPackets(b) ==> p.wnd == (b.cfg.rcvWnd - |b.rcv.queue|) % 65536
  {
    StillStanding(k, rs, b);
    ReportIsSent(b);
  }

  lemma StillStanding(k: Kcb, rs: seq<Request>, b: Kcb)
    requires KcbOk(k) && k.cfg.wrap && k.probe.tell && AllQuiet(k, rs) && AtFlush(ExecAll(k, rs), b)
    ensures KcbOk(b) && b.probe.tell
  {
    ExecAllKeeps(k, rs);
    RequestStands(k, rs);
    AtFlushKeeps(ExecAll(k, rs), b);
  }
}
