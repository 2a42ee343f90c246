/** What a datagram from half a circle or a whole circle ago does to real endpoints: two reachable runs,
    one that loses data and one that delivers data twice. Both are built from rounds in which one message
    is sent, delivered, read and acknowledged. */
module Staleness {
  import opened Serial
  import opened Wire
  import opened Control
  import opened Structure
  import opened System
  import opened Protocol
  import opened Refinement

  /** Settings under which the rounds are easy to follow; those of the transport are among them. */
  ghost predicate Plain(cfg: Config) {
    cfg.Valid() && cfg.wrap && cfg.nocwnd && cfg.rcvWnd < 65536
  }

  const WORD: Bytes := [7]

  // ----- the two ends between rounds -----

  /** No probing: the peer's window is open and nothing is asked for. */
  ghost predicate Calm(cfg: Config, k: Kcb) {
    && k.cfg == cfg && k.clock.updated && 0 <= k.clock.current < M32
    && 0 < k.cc.rmtWnd < 65536 && !k.probe.ask && !k.probe.tell
  }

  ghost predicate SenderAt(cfg: Config, k: Kcb, n: nat) {
    && Calm(cfg, k) && k.rcv == Rcv(0, [], [], [])
    && k.snd.una == k.snd.nxt == U32(n) && k.snd.buf == [] && k.snd.queue == []
  }

  ghost predicate ReceiverAt(cfg: Config, k: Kcb, n: nat) {
    && Calm(cfg, k) && k.rcv == Rcv(U32(n), [], [], [])
    && k.snd.una == k.snd.nxt && k.snd.buf == [] && k.snd.queue == []
  }

  ghost predicate Framed(cfg: Config, p: Packet) {
    p.conv == cfg.conv && p.frg == 0 && 0 < p.wnd < 65536 && 0 <= p.ts < M32
  }

  ghost predicate IsPush(cfg: Config, p: Packet, n: nat) {
    Framed(cfg, p) && p.cmd == CMD_PUSH && p.sn == U32(n) && p.una == 0 && p.data == WORD
  }

  ghost predicate IsAck(cfg: Config, p: Packet, n: nat) {
    Framed(cfg, p) && p.cmd == CMD_ACK && p.sn == U32(n) && p.una == U32(n + 1) && p.data == []
  }

  // ----- one call at a time -----

  lemma PackOne(mtu: int, p: Packet)
    ensures Pack(mtu, [p]) == [[p]]
  {
    assert StageAll(mtu, Staging([], []), [p]) == StageAll(mtu, Stage(mtu, Staging([], []), p), []);
    var none: seq<Datagram> := [];
    var nil: Datagram := [];
    assert none + [[p]] == [[p]] && nil + [p] == [p];
  }

  lemma ReadsOne(k: Kcb, p: Packet)
    requires Encodable(p) && p.conv == k.cfg.conv
    ensures InputBytes(k, DatagramBytes([p])).k == FinishInput(k.snd.una, InputPacket(StartInput(k), p))
  {
    ParseOfEncode(k.cfg.conv, [p]);
    assert InputPackets(StartInput(k), [p]) == InputPackets(InputPacket(StartInput(k), p), []);
  }

  /** `ikcp_send` of one word. */
  lemma SendsWord(cfg: Config, queue: seq<Frag>)
    requires cfg.Valid() && queue == []
    ensures Send(cfg, queue, WORD) == Sent([Frag(0, WORD)], 1)
  {
    assert WORD[0..] == WORD && WORD[..1] == WORD;
    assert Cut(cfg.Mss(), cfg.stream, WORD, 1) == [Frag(0, WORD)];
  }

  /** The sender with one segment in flight. */
  ghost predicate InFlightAt(cfg: Config, k: Kcb, n: nat) {
    && Calm(cfg, k) && k.rcv == Rcv(0, [], [], [])
    && k.snd.una == U32(n) && k.snd.nxt == U32(n + 1) && k.snd.queue == []
    && |k.snd.buf| == 1 && k.snd.buf[0].sn == U32(n) && k.snd.buf[0].frag == Frag(0, WORD)
  }

  lemma WindowOpen(n: nat, w: int)
    requires 0 < w < HALF
    ensures Diff(true, U32(n), Plus(true, U32(n), w)) < 0
    ensures Plus(true, U32(n), 1) == U32(n + 1)
  {
    U32Add(n, 1);
    U32Add(n, w);
    U32Sub(n, n + w);
  }

  lemma AdmitsWord(k: Kcb, n: nat)
    requires Plain(k.cfg) && Calm(k.cfg, k)
    requires k.snd.una == k.snd.nxt == U32(n) && k.snd.buf == [] && k.snd.queue == [Frag(0, WORD)]
    ensures var s := Admitted(k);
            s == k.snd.(nxt := U32(n + 1), queue := [],
                        buf := [SndSeg(U32(n), Frag(0, WORD), k.clock.current, k.clock.current, k.rtt.rto, 0, 0)])
  {
    WindowOpen(n, SendWindow(k));
    var seg := SndSeg(U32(n), Frag(0, WORD), k.clock.current, k.clock.current, k.rtt.rto, 0, 0);
    var snd1 := k.snd.(nxt := U32(n + 1), queue := [], buf := [seg]);
    assert k.snd.buf + [seg] == [seg] && k.snd.queue[1..] == [];
    assert Admit(k.cfg, snd1, SendWindow(k), k.clock.current, k.rtt.rto) == snd1;
  }

  /** A flush with one word queued puts it in flight. */
  lemma FlushesWord(k: Kcb, n: nat)
    requires Plain(k.cfg) && Calm(k.cfg, k) && k.rcv == Rcv(0, [], [], [])
    requires k.snd.una == k.snd.nxt == U32(n) && k.snd.buf == [] && k.snd.queue == [Frag(0, WORD)]
    ensures InFlightAt(k.cfg, Flush(k).k, n)
    ensures exists p :: IsPush(k.cfg, p, n) && Flush(k).out == [[p]]
  {
    AdmitsWord(k, n);
    var s := Admitted(k).buf[0];
    var t := Transmit(k.cfg, k.rtt.rto, k.clock.current, s).seg;
    var p := Stamp(k, CMD_PUSH, t.sn, t.ts, t.frag);
    var r0 := SendPass(k, [s], 0);
    assert SendPass(k, [s], 1).segs == r0.segs + [t] == [t];
    assert SendPass(k, [s], 1).pushes == r0.pushes + [p] == [p];
    assert AckPackets(k) == [] && ControlPackets(k) == [];
    assert ControlPackets(k) + [p] == [p];
    assert FlushPackets(k) == [p];
    PackOne(k.cfg.mtu, p);
    assert IsPush(k.cfg, p, n);
  }

  /** The receiver takes a word that is next in line. */
  lemma TakesWord(k: Kcb, n: nat, p: Packet)
    requires Plain(k.cfg) && ReceiverAt(k.cfg, k, n) && IsPush(k.cfg, p, n)
    ensures var k' := InputBytes(k, DatagramBytes([p])).k;
            && Calm(k.cfg, k')
            && k'.rcv == Rcv(U32(n + 1), [], [RcvSeg(U32(n), Frag(0, WORD))], [Ack(U32(n), p.ts)])
            && k'.snd.una == k'.snd.nxt && k'.snd.buf == [] && k'.snd.queue == []
  {
    ReadsOne(k, p);
    WordInLine(k.cfg, n, p);
    NothingBuffered(k.cfg, k.snd, p);
  }

  lemma WordInLine(cfg: Config, n: nat, p: Packet)
    requires Plain(cfg) && IsPush(cfg, p, n)
    ensures InputRcv(cfg, Rcv(U32(n), [], [], []), p)
         == Rcv(U32(n + 1), [], [RcvSeg(U32(n), Frag(0, WORD))], [Ack(U32(n), p.ts)])
  {
    TakesNext(cfg, Rcv(U32(n), [], [], []), p);
    U32Add(n, 1);
    var none: seq<RcvSeg> := [];
    assert none + [RcvSeg(p.sn, Frag(p.frg, p.data))] == [RcvSeg(U32(n), Frag(0, WORD))];
    var nil: seq<Ack> := [];
    assert nil + [Ack(p.sn, p.ts)] == [Ack(U32(n), p.ts)];
  }

  lemma NothingBuffered(cfg: Config, snd: Snd, p: Packet)
    requires snd.una == snd.nxt && snd.buf == [] && p.cmd == CMD_PUSH
    ensures InputSnd(cfg, snd.(ackedLen := 0), p) == snd.(ackedLen := 0)
  {
  }

  /** Reading the word. */
  lemma ReadsWord(k: Kcb, n: nat, a: Ack)
    requires Plain(k.cfg) && Calm(k.cfg, k)
    requires k.rcv == Rcv(U32(n + 1), [], [RcvSeg(U32(n), Frag(0, WORD))], [a])
    ensures Recv(k, 1) == Received(k.(rcv := Rcv(U32(n + 1), [], [], [a])), 1, WORD)
  {
    var q := k.rcv.queue;
    assert q[..1] == q && q[1..] == [];
    assert Merge(q) == WORD + Merge(q[1..]);
  }

  /** A flush with one acknowledgement pending sends it. */
  lemma FlushesAck(k: Kcb, n: nat, a: Ack)
    requires Plain(k.cfg) && Calm(k.cfg, k) && k.rcv == Rcv(U32(n + 1), [], [], [a]) && a.sn == U32(n) && 0 <= a.ts < M32
    requires k.snd.una == k.snd.nxt && k.snd.buf == [] && k.snd.queue == []
    ensures ReceiverAt(k.cfg, Flush(k).k, n + 1)
    ensures exists p :: IsAck(k.cfg, p, n) && Flush(k).out == [[p]]
  {
    var p := Stamp(k, CMD_ACK, a.sn, a.ts, Frag(0, []));
    assert Admitted(k) == k.snd;
    var r := SendPass(k, k.snd.buf, 0);
    assert r.segs == [] && r.pushes == [];
    assert AckPackets(k) == [p] && ControlPackets(k) == [p];
    assert [p] + r.pushes == [p];
    assert FlushPackets(k) == [p];
    PackOne(k.cfg.mtu, p);
    assert IsAck(k.cfg, p, n);
  }

  /** The acknowledgement frees the word. */
  lemma FreesWord(k: Kcb, n: nat, p: Packet)
    requires Plain(k.cfg) && InFlightAt(k.cfg, k, n) && IsAck(k.cfg, p, n)
    ensures SenderAt(k.cfg, InputBytes(k, DatagramBytes([p])).k, n + 1)
  {
    ReadsOne(k, p);
    UnaFrees(k.cfg, k.snd.(ackedLen := 0), n, p);
    GrowKeepsWindow(k.cfg, k.cc.(rmtWnd := p.wnd));
  }

  lemma GrowKeepsWindow(cfg: Config, c: Cc)
    ensures Grow(cfg, c).rmtWnd == c.rmtWnd
  {
  }

  lemma UnaFrees(cfg: Config, snd: Snd, n: nat, p: Packet)
    requires cfg.wrap && snd.una == U32(n) && snd.nxt == U32(n + 1) && |snd.buf| == 1 && snd.buf[0].sn == U32(n)
    requires p.cmd == CMD_ACK && p.una == U32(n + 1) && p.sn == U32(n)
    ensures var s := InputSnd(cfg, snd, p); s == snd.(una := snd.nxt, buf := [], ackedLen := s.ackedLen)
    ensures var s := InputSnd(cfg, snd, p); forall sn, ts :: ParseFastack(cfg, s, sn, ts) == s
  {
    U32Sub(n + 1, n);
    U32Sub(n, n + 1);
    var freed := snd.(buf := snd.buf[1..], ackedLen := snd.ackedLen + |snd.buf[0].frag.data|);
    assert snd.buf[1..] == [];
    assert ParseUna(cfg, snd, p.una) == ParseUna(cfg, freed, p.una) == freed;
  }

  // ----- rounds -----

  /** After `n` rounds: every word sent has been read, and both ends are idle. The first datagrams of
      either side are remembered. */
  ghost predicate Idle(cfg: Config, s: Sys, n: nat) {
    && SenderAt(cfg, s.a.k, n) && ReceiverAt(cfg, s.b.k, n)
    && |s.a.out| == |s.b.out| == n && s.a.acc == s.b.dlv && |s.a.acc| == n
    && (n > 0 ==> (exists p :: IsPush(cfg, p, 0) && s.a.out[0] == [p]) && (exists p :: IsAck(cfg, p, 0) && s.b.out[0] == [p]))
  }

  lemma RunSnoc(s: Sys, es: seq<Event>, e: Event)
    ensures Run(true, s, es + [e]) == Step(true, Run(true, s, es), e)
  {
    assert (es + [e])[..|es|] == es;
  }

  /** The sending half of a round. */
  lemma SendHalf(cfg: Config, me: End, peer: End, n: nat) returns (p: Packet)
    requires Plain(cfg) && SenderAt(cfg, me.k, n)
    ensures var me2 := Act(true, Act(true, me, peer, SendCall(WORD)), peer, FlushCall);
            && InFlightAt(cfg, me2.k, n) && IsPush(cfg, p, n)
            && me2.out == me.out + [[p]] && me2.acc == me.acc + [WORD] && me2.dlv == me.dlv
  {
    SendsWord(cfg, me.k.snd.queue);
    assert WORD[..1] == WORD;
    var me1 := Act(true, me, peer, SendCall(WORD));
    FlushesWord(me1.k, n);
    p :| IsPush(cfg, p, n) && Flush(me1.k).out == [[p]];
  }

  /** The receiving half of a round. */
  lemma ReceiveHalf(cfg: Config, me: End, peer: End, i: nat, p: Packet, n: nat) returns (q: Packet)
    requires Plain(cfg) && ReceiverAt(cfg, me.k, n) && i < |peer.out| && peer.out[i] == [p] && IsPush(cfg, p, n)
    ensures var me3 := Act(true, Act(true, Act(true, me, peer, Deliver(i)), peer, RecvCall(1)), peer, FlushCall);
            && ReceiverAt(cfg, me3.k, n + 1) && IsAck(cfg, q, n)
            && me3.out == me.out + [[q]] && me3.dlv == me.dlv + [WORD] && me3.acc == me.acc
  {
    TakesWord(me.k, n, p);
    var me1 := Act(true, me, peer, Deliver(i));
    ReadsWord(me1.k, n, Ack(U32(n), p.ts));
    var me2 := Act(true, me1, peer, RecvCall(1));
    FlushesAck(me2.k, n, Ack(U32(n), p.ts));
    q :| IsAck(cfg, q, n) && Flush(me2.k).out == [[q]];
  }

  lemma RunTwo(s: Sys, es: seq<Event>, e: Event, f: Event)
    ensures Run(true, s, es + [e, f]) == Step(true, Step(true, Run(true, s, es), e), f)
  {
    RunSnoc(s, es, e);
    RunSnoc(s, es + [e], f);
    assert es + [e] + [f] == es + [e, f];
  }

  lemma RunThree(s: Sys, es: seq<Event>, e: Event, f: Event, g: Event)
    ensures Run(true, s, es + [e, f, g]) == Step(true, Step(true, Step(true, Run(true, s, es), e), f), g)
  {
    RunTwo(s, es, e, f);
    RunSnoc(s, es + [e, f], g);
    assert es + [e, f] + [g] == es + [e, f, g];
  }

  /** After the sending half of round `n`. */
  ghost predicate Sending(cfg: Config, s: Sys, n: nat) {
    && InFlightAt(cfg, s.a.k, n) && ReceiverAt(cfg, s.b.k, n)
    && |s.a.out| == n + 1 && |s.b.out| == n && s.a.acc == s.b.dlv + [WORD] && |s.b.dlv| == n
    && (exists p :: IsPush(cfg, p, n) && s.a.out[n] == [p])
    && (exists p :: IsPush(cfg, p, 0) && s.a.out[0] == [p])
    && (n > 0 ==> exists p :: IsAck(cfg, p, 0) && s.b.out[0] == [p])
  }

  /** After the receiving half. */
  ghost predicate Answered(cfg: Config, s: Sys, n: nat) {
    && InFlightAt(cfg, s.a.k, n) && ReceiverAt(cfg, s.b.k, n + 1)
    && |s.a.out| == |s.b.out| == n + 1 && s.a.acc == s.b.dlv && |s.b.dlv| == n + 1
    && (exists p :: IsPush(cfg, p, 0) && s.a.out[0] == [p])
    && (exists p :: IsAck(cfg, p, n) && s.b.out[n] == [p])
    && (exists p :: IsAck(cfg, p, 0) && s.b.out[0] == [p])
  }

  lemma StartRound(cfg: Config, t: Sys, n: nat)
    requires Plain(cfg) && Idle(cfg, t, n)
    ensures Sending(cfg, Step(true, Step(true, t, AtA(SendCall(WORD))), AtA(FlushCall)), n)
  {
    var p := SendHalf(cfg, t.a, t.b, n);
    var t2 := Step(true, Step(true, t, AtA(SendCall(WORD))), AtA(FlushCall));
    assert t2.a.out[n] == [p];
  }

  lemma AnswerRound(cfg: Config, t: Sys, n: nat)
    requires Plain(cfg) && Sending(cfg, t, n)
    ensures Answered(cfg, Step(true, Step(true, Step(true, t, AtB(Deliver(n))), AtB(RecvCall(1))), AtB(FlushCall)), n)
  {
    var p :| IsPush(cfg, p, n) && t.a.out[n] == [p];
    var q := ReceiveHalf(cfg, t.b, t.a, n, p, n);
    var t3 := Step(true, Step(true, Step(true, t, AtB(Deliver(n))), AtB(RecvCall(1))), AtB(FlushCall));
    assert t3.b.out[n] == [q];
  }

  lemma EndRound(cfg: Config, t: Sys, n: nat)
    requires Plain(cfg) && Answered(cfg, t, n)
    ensures Idle(cfg, Step(true, t, AtA(Deliver(n))), n + 1)
  {
    var q :| IsAck(cfg, q, n) && t.b.out[n] == [q];
    FreesWord(t.a.k, n, q);
  }

  /** Runs of the two endpoints, both with settings `cfg`, that end idle after `n` rounds. */
  ghost function IdleRuns(cfg: Config, n: nat): iset<seq<Event>> {
    iset es | Idle(cfg, Run(true, Init(cfg, cfg), es), n)
  }

  ghost function SendingRuns(cfg: Config, n: nat): iset<seq<Event>> {
    iset es | Sending(cfg, Run(true, Init(cfg, cfg), es), n)
  }

  lemma SendingRun(cfg: Config, es: seq<Event>, n: nat)
    requires Plain(cfg) && es in IdleRuns(cfg, n)
    ensures es + [AtA(SendCall(WORD)), AtA(FlushCall)] in SendingRuns(cfg, n)
  {
    StartRound(cfg, Run(true, Init(cfg, cfg), es), n);
    RunTwo(Init(cfg, cfg), es, AtA(SendCall(WORD)), AtA(FlushCall));
  }

  lemma AnsweredRun(cfg: Config, es: seq<Event>, n: nat)
    requires Plain(cfg) && es in SendingRuns(cfg, n)
    ensures es + [AtB(Deliver(n)), AtB(RecvCall(1)), AtB(FlushCall)] + [AtA(Deliver(n))] in IdleRuns(cfg, n + 1)
  {
    var s := Init(cfg, cfg);
    var es3 := es + [AtB(Deliver(n)), AtB(RecvCall(1)), AtB(FlushCall)];
    AnswerRound(cfg, Run(true, s, es), n);
    RunThree(s, es, AtB(Deliver(n)), AtB(RecvCall(1)), AtB(FlushCall));
    EndRound(cfg, Run(true, s, es3), n);
    RunSnoc(s, es3, AtA(Deliver(n)));
  }

  /** Before the first round: both ends have been updated once. */
  lemma Opening(cfg: Config)
    requires Plain(cfg)
    ensures [AtA(UpdateCall(0)), AtB(UpdateCall(0))] in IdleRuns(cfg, 0)
  {
    var s := Init(cfg, cfg);
    Opened(cfg);
    RunTwo(s, [], AtA(UpdateCall(0)), AtB(UpdateCall(0)));
    var es: seq<Event> := [AtA(UpdateCall(0)), AtB(UpdateCall(0))];
    assert [] + es == es;
  }

  lemma Opened(cfg: Config)
    requires Plain(cfg)
    ensures var f := Update(Create(cfg), 0);
            SenderAt(cfg, f.k, 0) && ReceiverAt(cfg, f.k, 0) && f.out == []
  {
    var k := Create(cfg).(clock := Clock(0, cfg.interval, true));
    assert TickClock(cfg, Create(cfg).clock, 0) == Tick(k.clock, true);
    assert Admitted(k) == k.snd;
    var r := SendPass(k, k.snd.buf, 0);
    assert AckPackets(k) == [] && ControlPackets(k) == [];
    assert ControlPackets(k) + r.pushes == [];
    assert Pack(cfg.mtu, []) == [];
  }

  lemma {:induction false} Rounds(cfg: Config, n: nat) returns (es: seq<Event>)
    requires Plain(cfg)
    ensures es in IdleRuns(cfg, n)
  {
    if n == 0 {
      Opening(cfg);
      es := [AtA(UpdateCall(0)), AtB(UpdateCall(0))];
    } else {
      es := Rounds(cfg, n - 1);
      SendingRun(cfg, es, n - 1);
      es := es + [AtA(SendCall(WORD)), AtA(FlushCall)];
      AnsweredRun(cfg, es, n - 1);
      es := es + [AtB(Deliver(n - 1)), AtB(RecvCall(1)), AtB(FlushCall)] + [AtA(Deliver(n - 1))];
    }
  }

  // ----- data delivered twice -----

  lemma OneTooMany(x: End, y: End)
    requires y.dlv == x.acc + [WORD]
    ensures !PrefixDelivered(x, y)
  {
    ConcatSnoc(x.acc, WORD);
  }

  lemma FirstWordAgain(cfg: Config, t: Sys)
    requires Plain(cfg) && Idle(cfg, t, M32)
    ensures var t3 := Step(true, Step(true, Step(true, t, AtB(Deliver(0))), AtB(RecvCall(1))), AtB(FlushCall));
            t3.b.dlv == t3.a.acc + [WORD]
  {
    assert U32(M32) == U32(0);
    var p :| IsPush(cfg, p, 0) && t.a.out[0] == [p];
    assert IsPush(cfg, p, M32);
    var q := ReceiveHalf(cfg, t.b, t.a, 0, p, M32);
  }

  /** End-to-end safety fails in a run where the first datagram arrives once more after 2^32 messages: its
      word is delivered a second time. */
  lemma DeliversTwice(cfg: Config) returns (es: seq<Event>)
    requires Plain(cfg)
    ensures var s := Run(true, Init(cfg, cfg), es); !PrefixDelivered(s.a, s.b)
  {
    var s := Init(cfg, cfg);
    es := Rounds(cfg, M32);
    FirstWordAgain(cfg, Run(true, s, es));
    RunThree(s, es, AtB(Deliver(0)), AtB(RecvCall(1)), AtB(FlushCall));
    es := es + [AtB(Deliver(0)), AtB(RecvCall(1)), AtB(FlushCall)];
    OneTooMany(Run(true, s, es).a, Run(true, s, es).b);
  }

  // ----- data lost -----

  /** More than half a circle behind. */
  const LATE: nat := HALF + 2

  lemma OldAckFrees(cfg: Config, snd: Snd, p: Packet)
    requires cfg.wrap && |snd.buf| == 1 && snd.buf[0].sn == U32(LATE) && p.cmd == CMD_ACK && p.una == U32(1)
    ensures InputSnd(cfg, snd, p).buf == [] && InputSnd(cfg, snd, p).queue == snd.queue
    ensures var r := InputSnd(cfg, snd, p); forall sn, ts :: ParseFastack(cfg, r, sn, ts) == r
  {
    assert TimeDiff(U32(1), U32(LATE)) > 0;
    var freed := snd.(buf := snd.buf[1..], ackedLen := snd.ackedLen + |snd.buf[0].frag.data|);
    assert snd.buf[1..] == [];
    assert ParseUna(cfg, snd, p.una) == ParseUna(cfg, freed, p.una) == freed;
  }

  /** The word in flight is nowhere any more. */
  ghost predicate Lost(s: Sys) {
    && s.a.acc == s.b.dlv + [WORD] && s.a.k.snd.buf == [] && s.a.k.snd.queue == []
    && s.b.k.rcv.buf == [] && s.b.k.rcv.queue == []
  }

  lemma FirstAckAgain(cfg: Config, t: Sys)
    requires Plain(cfg) && Sending(cfg, t, LATE)
    ensures Lost(Step(true, t, AtA(Deliver(0))))
  {
    var q :| IsAck(cfg, q, 0) && t.b.out[0] == [q];
    OldAckClears(t.a.k, q);
  }

  lemma OldAckClears(k: Kcb, p: Packet)
    requires Plain(k.cfg) && InFlightAt(k.cfg, k, LATE) && IsAck(k.cfg, p, 0)
    ensures InputBytes(k, DatagramBytes([p])).k.snd.buf == [] && InputBytes(k, DatagramBytes([p])).k.snd.queue == []
  {
    ReadsOne(k, p);
    OldAckFrees(k.cfg, k.snd.(ackedLen := 0), p);
  }

  /** Data is lost in a run where the first acknowledgement arrives once more after 2^31 + 2 messages: the
      word then in flight is accepted, undelivered, and held by neither end. */
  lemma LosesData(cfg: Config) returns (es: seq<Event>)
    requires Plain(cfg)
    ensures Lost(Run(true, Init(cfg, cfg), es))
  {
    var s := Init(cfg, cfg);
    es := Rounds(cfg, LATE);
    SendingRun(cfg, es, LATE);
    es := es + [AtA(SendCall(WORD)), AtA(FlushCall)];
    FirstAckAgain(cfg, Run(true, s, es));
    RunSnoc(s, es, AtA(Deliver(0)));
    es := es + [AtA(Deliver(0))];
  }
}
