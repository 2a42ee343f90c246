/** What the two reading calls achieve: what `ikcp_recv` returns and announces, and what one incoming
    segment or datagram does to the receiver and to the sender's buffer. */
module Reading {
  import opened Serial
  import opened Wire
  import opened Control
  import opened Structure
  import opened Acking

  // ----- ikcp_recv -----

  /** A read takes the first `n` segments: up to the first one numbered 0, or all if there is none. */
  ghost predicate Taken(q: seq<RcvSeg>, n: nat) {
    && n <= |q| && (forall i :: 0 <= i < n - 1 ==> q[i].frag.frg != 0)
    && (n == |q| || (n > 0 && q[n - 1].frag.frg == 0))
  }

  lemma {:induction false} SpanIsTaken(q: seq<RcvSeg>)
    ensures Taken(q, MessageSpan(q))
  {
    if q != [] && q[0].frag.frg != 0 {
      SpanIsTaken(q[1..]);
      var n := MessageSpan(q);
      forall i | 0 <= i < n - 1 ensures q[i].frag.frg != 0 {
        if i > 0 { assert q[i] == q[1..][i - 1]; }
      }
      if n < |q| { assert q[n - 1] == q[1..][n - 2]; }
    }
  }

  /** What `ikcp_recv` returns: -1 when nothing is queued, -2 when fewer segments are queued than the first one
      announces, -3 when its message is longer than the buffer, and otherwise the length of the message, whose
      bytes are handed out and whose segments leave the queue unless the caller only peeks. */
  ghost predicate Returns(k: Kcb, len: int, r: Received) {
    var q := k.rcv.queue;
    var room := if len < 0 then -len else len;
    if q == [] then r.ret == -1
    else if |q| < q[0].frag.frg + 1 then r.ret == -2
    else exists n: nat :: Taken(q, n) && if |Merge(q[..n])| > room then r.ret == -3 else ReadsOut(k, len, r, n)
  }

  ghost predicate ReadsOut(k: Kcb, len: int, r: Received, n: nat)
    requires n <= |k.rcv.queue|
  {
    && r.data == Merge(k.rcv.queue[..n]) && r.ret == |r.data|
    && (if len < 0 then k.rcv.queue else k.rcv.queue[n..]) <= r.k.rcv.queue
  }

  lemma {:induction false} MoveReadyAppends(cfg: Config, rcv: Rcv)
    ensures rcv.queue <= MoveReady(cfg, rcv).queue
    decreases |rcv.buf|
  {
    if rcv.buf != [] && rcv.buf[0].sn == rcv.nxt && |rcv.queue| < cfg.rcvWnd {
      MoveReadyAppends(cfg, rcv.(nxt := Plus(cfg.wrap, rcv.nxt, 1), buf := rcv.buf[1..], queue := rcv.queue + [rcv.buf[0]]));
    }
  }

  lemma ReadReturns(k: Kcb, len: int)
    requires KcbOk(k)
    ensures Returns(k, len, Recv(k, len))
    ensures Recv(k, len).ret < 0 ==> Recv(k, len).k == k && Recv(k, len).data == []
  {
    var q := k.rcv.queue;
    if q != [] && q[0].frag.frg < |q| {
      var n := MessageSpan(q);
      SpanIsTaken(q);
      LengthIsMerge(q);
      if q[0].frag.frg == 0 { OneMerged(q[0]); assert q[..1] == [q[0]]; }
      MoveReadyAppends(k.cfg, k.rcv.(queue := if len < 0 then q else q[n..]));
    }
  }

  lemma OneMerged(s: RcvSeg)
    ensures Merge([s]) == s.frag.data
  {
    assert Merge([s]) == s.frag.data + Merge([s][1..]);
  }

  /** A peek, at any reachable state, changes nothing at all. */
  lemma PeekChangesNothing(k: Kcb, len: int)
    requires KcbOk(k) && len < 0
    ensures Recv(k, len).k == k
  {
    assert MoveReady(k.cfg, k.rcv) == k.rcv;
  }

  /** A read asks for a window report exactly when it opens a window that was closed: the queue was full and
      has room afterwards. */
  lemma ReadReports(k: Kcb, len: int)
    ensures var r := Recv(k, len);
            r.k.probe.tell <==>
              k.probe.tell
              || (r.ret >= 0 && |k.rcv.queue| >= k.cfg.rcvWnd && |r.k.rcv.queue| < k.cfg.rcvWnd)
    ensures Recv(k, len).k.probe == k.probe.(tell := Recv(k, len).k.probe.tell)
  {
  }

  // ----- a data segment at the receiver -----

  /** `n` segments moved from the front of `rcv_buf` to the end of `rcv_queue`: the numbers next in line, as far
      as they go and the queue has room. */
  ghost predicate Moves(cfg: Config, rcv: Rcv, rcv': Rcv, n: nat) {
    && n <= |rcv.buf| && rcv'.queue == rcv.queue + rcv.buf[..n] && rcv'.buf == rcv.buf[n..] && rcv'.acks == rcv.acks
    && InRange(cfg.wrap, rcv'.nxt) && Off(cfg.wrap, rcv'.nxt, rcv.nxt) == n
    && (forall i :: 0 <= i < n ==> Off(cfg.wrap, rcv.buf[i].sn, rcv.nxt) == i)
    && (n < |rcv.buf| && |rcv'.queue| < cfg.rcvWnd ==> Off(cfg.wrap, rcv.buf[n].sn, rcv.nxt) > n)
  }

  lemma {:induction false} ReadyMoves(cfg: Config, rcv: Rcv) returns (n: nat)
    requires cfg.Valid() && RcvShape(cfg, rcv)
    ensures Moves(cfg, rcv, MoveReady(cfg, rcv), n)
    decreases |rcv.buf|
  {
    n := 0;
    OffZero(cfg.wrap, rcv.nxt, rcv.nxt);
    if rcv.buf != [] { OffZero(cfg.wrap, rcv.buf[0].sn, rcv.nxt); }
    if rcv.buf != [] && rcv.buf[0].sn == rcv.nxt && |rcv.queue| < cfg.rcvWnd {
      var one := rcv.(nxt := Plus(cfg.wrap, rcv.nxt, 1), buf := rcv.buf[1..], queue := rcv.queue + [rcv.buf[0]]);
      MoveOneKeeps(cfg, rcv);
      var m := ReadyMoves(cfg, one);
      n := m + 1;
      MovesOn(cfg, rcv, one, MoveReady(cfg, rcv), m);
    }
  }

  /** Seen from one number further on, every offset is one less. */
  lemma OneFurther(cfg: Config, rcv: Rcv, nxt: int)
    requires cfg.Valid() && RcvShape(cfg, rcv) && rcv.buf != [] && rcv.buf[0].sn == rcv.nxt && nxt == Plus(cfg.wrap, rcv.nxt, 1)
    ensures Off(cfg.wrap, nxt, rcv.nxt) == 1
    ensures forall i :: 0 <= i < |rcv.buf| - 1 ==> Off(cfg.wrap, rcv.buf[1..][i].sn, nxt) == Off(cfg.wrap, rcv.buf[i + 1].sn, rcv.nxt) - 1
  {
    OffZero(cfg.wrap, rcv.nxt, rcv.nxt);
    OffPlus(cfg.wrap, rcv.nxt, 1, rcv.nxt);
    forall i | 0 <= i < |rcv.buf| - 1
      ensures Off(cfg.wrap, rcv.buf[1..][i].sn, nxt) == Off(cfg.wrap, rcv.buf[i + 1].sn, rcv.nxt) - 1
    {
      assert Off(cfg.wrap, rcv.buf[0].sn, rcv.nxt) < Off(cfg.wrap, rcv.buf[i + 1].sn, rcv.nxt);
      Rebase(cfg.wrap, rcv.buf[i + 1].sn, rcv.nxt, nxt);
    }
  }

  lemma MovesOn(cfg: Config, rcv: Rcv, one: Rcv, rcv': Rcv, m: nat)
    requires cfg.Valid() && RcvShape(cfg, rcv) && rcv.buf != [] && rcv.buf[0].sn == rcv.nxt
    requires one == rcv.(nxt := Plus(cfg.wrap, rcv.nxt, 1), buf := rcv.buf[1..], queue := rcv.queue + [rcv.buf[0]])
    requires Moves(cfg, one, rcv', m)
    ensures Moves(cfg, rcv, rcv', m + 1)
  {
    OneFurther(cfg, rcv, one.nxt);
    OffZero(cfg.wrap, rcv.nxt, rcv.nxt);
    forall i | 0 <= i < m + 1 ensures Off(cfg.wrap, rcv.buf[i].sn, rcv.nxt) == i {
      if i > 0 { assert Off(cfg.wrap, one.buf[i - 1].sn, one.nxt) == i - 1; }
    }
    assert Off(cfg.wrap, rcv.buf[m].sn, rcv.nxt) == m;
    FarEnd(cfg.wrap, rcv.nxt, one.nxt, rcv'.nxt, m);
    TakeOneMore(rcv.queue, rcv.buf, m);
  }

  lemma TakeOneMore(q: seq<RcvSeg>, buf: seq<RcvSeg>, m: nat)
    requires m < |buf|
    ensures q + [buf[0]] + buf[1..][..m] == q + buf[..m + 1] && buf[1..][m..] == buf[m + 1..]
  {
  }

  lemma FarEnd(wrap: bool, x: int, y: int, z: int, m: nat)
    requires Off(wrap, y, x) == 1 && Off(wrap, z, y) == m < HALF
    ensures Off(wrap, z, x) == m + 1
  {
    if wrap {
      U32Sub(z - x, y - x);
      assert U32(z - x) == U32(m + 1) by { U32Add(z - y, y - x); }
    }
  }

  /** `buf'` is `buf` with `s` added, unless a segment of that number was there. */
  ghost predicate Joined(buf: seq<RcvSeg>, s: RcvSeg, buf': seq<RcvSeg>) {
    && (forall x :: x in buf' <==> x in buf || (x == s && forall y :: y in buf ==> y.sn != s.sn))
  }

  lemma {:induction false} InsertJoins(cfg: Config, buf: seq<RcvSeg>, s: RcvSeg, base: int)
    requires cfg.Valid() && RcvSorted(cfg, buf, base)
    requires InRange(cfg.wrap, s.sn) && 0 <= Off(cfg.wrap, s.sn, base) < cfg.rcvWnd
    ensures Joined(buf, s, Insert(cfg, buf, s))
  {
    if buf != [] {
      var n := |buf| - 1;
      var front, last := buf[..n], buf[n];
      assert buf == front + [last];
      InsertStep(cfg, buf, s, base);
      LastIsLargest(cfg, buf, base);
      SameOffSameNumber(cfg.wrap, s.sn, last.sn, base);
      if Off(cfg.wrap, s.sn, base) < Off(cfg.wrap, last.sn, base) {
        InsertJoins(cfg, front, s, base);
      }
    }
  }

  /** The receiver's answer to one segment. A data segment that lies before the window's end, a repeated one
      included, is acknowledged with its own number and stamp; nothing else is. One inside the window joins the
      buffer unless its number is there, and whatever is then next in line moves to the queue, in order. */
  ghost predicate Answered(cfg: Config, rcv: Rcv, p: Packet, rcv': Rcv) {
    if p.cmd != CMD_PUSH || Diff(cfg.wrap, p.sn, Plus(cfg.wrap, rcv.nxt, cfg.rcvWnd)) >= 0 then rcv' == rcv
    else
      var acked := rcv.(acks := rcv.acks + [Ack(p.sn, p.ts)]);
      if Off(cfg.wrap, p.sn, rcv.nxt) < 0 || Off(cfg.wrap, p.sn, rcv.nxt) >= cfg.rcvWnd then rcv' == acked
      else exists buf: seq<RcvSeg>, n: nat ::
             && Joined(rcv.buf, RcvSeg(p.sn, Frag(p.frg, p.data)), buf) && RcvSorted(cfg, buf, rcv.nxt)
             && Moves(cfg, acked.(buf := buf), rcv', n)
  }

  lemma PushIsAnswered(cfg: Config, rcv: Rcv, p: Packet)
    requires cfg.Valid() && RcvOk(cfg, rcv) && PacketOk(cfg, p)
    ensures Answered(cfg, rcv, p, InputRcv(cfg, rcv, p))
  {
    var s := RcvSeg(p.sn, Frag(p.frg, p.data));
    WindowTests(cfg, rcv, p.sn);
    if p.cmd == CMD_PUSH && 0 <= Off(cfg.wrap, p.sn, rcv.nxt) < cfg.rcvWnd {
      var rcv2 := rcv.(acks := rcv.acks + [Ack(p.sn, p.ts)], buf := Insert(cfg, rcv.buf, s));
      InsertJoins(cfg, rcv.buf, s, rcv.nxt);
      InsertSorted(cfg, rcv.buf, s, rcv.nxt);
      InsertedShape(cfg, rcv, s, rcv2);
      var n := ReadyMoves(cfg, rcv2);
    }
  }

  lemma InsertedShape(cfg: Config, rcv: Rcv, s: RcvSeg, rcv2: Rcv)
    requires RcvShape(cfg, rcv) && 0 <= s.frag.frg < 256
    requires Joined(rcv.buf, s, rcv2.buf) && RcvSorted(cfg, rcv2.buf, rcv.nxt)
    requires rcv2.nxt == rcv.nxt && rcv2.queue == rcv.queue
    requires forall i :: 0 <= i < |rcv2.acks| ==> InRange(cfg.wrap, rcv2.acks[i].sn) && 0 <= rcv2.acks[i].ts < M32
    ensures RcvShape(cfg, rcv2)
  {
    forall i | 0 <= i < |rcv2.buf| ensures 0 <= rcv2.buf[i].frag.frg < 256 { assert rcv2.buf[i] in rcv2.buf; }
  }

  // ----- acknowledgements counted at the end of a datagram -----

  /** Later both in number and in time stamp. */
  predicate Overtakes(cfg: Config, p: Packet, q: Packet) {
    Diff(cfg.wrap, p.sn, q.sn) > 0 && TimeDiff(p.ts, q.ts) > 0
  }

  predicate IsAck(p: Packet) { p.cmd == CMD_ACK }

  /** The ACK at `i` has been the newest so far: it is the first one, or the first to overtake the newest before. */
  ghost predicate Newer(cfg: Config, ps: seq<Packet>, i: nat)
    decreases i
  {
    && i < |ps| && IsAck(ps[i])
    && ((forall j :: 0 <= j < i ==> !IsAck(ps[j]))
        || exists j: nat :: j < i && Newer(cfg, ps, j) && Overtakes(cfg, ps[i], ps[j]) && Unchallenged(cfg, ps, j, i))
  }

  /** No ACK strictly between `j` and `n` overtakes the one at `j`. */
  predicate Unchallenged(cfg: Config, ps: seq<Packet>, j: nat, n: nat)
    requires j < |ps| && n <= |ps|
  {
    forall l :: j < l < n && IsAck(ps[l]) ==> !Overtakes(cfg, ps[l], ps[j])
  }

  /** The newest acknowledgement of a datagram, if it has any. */
  ghost predicate Marks(cfg: Config, ps: seq<Packet>, m: Mark) {
    if m.NoAck? then forall i :: 0 <= i < |ps| ==> !IsAck(ps[i])
    else exists i: nat :: Newer(cfg, ps, i) && m == Newest(ps[i].sn, ps[i].ts) && Unchallenged(cfg, ps, i, |ps|)
  }

  lemma {:induction false} NewerOn(cfg: Config, ps: seq<Packet>, p: Packet, i: nat)
    requires Newer(cfg, ps, i)
    ensures Newer(cfg, ps + [p], i)
    decreases i
  {
    if j: nat :| j < i && Newer(cfg, ps, j) && Overtakes(cfg, ps[i], ps[j]) && Unchallenged(cfg, ps, j, i) {
      NewerOn(cfg, ps, p, j);
      assert Unchallenged(cfg, ps + [p], j, i);
    }
  }

  lemma MarksOn(cfg: Config, ps: seq<Packet>, p: Packet, m: Mark)
    requires Marks(cfg, ps, m)
    ensures Marks(cfg, ps + [p], if IsAck(p) then Note(cfg, m, p.sn, p.ts) else m)
  {
    var n := |ps|;
    var qs := ps + [p];
    if m.NoAck? {
      if IsAck(p) { assert Newer(cfg, qs, n); }
    } else {
      var i: nat :| Newer(cfg, ps, i) && m == Newest(ps[i].sn, ps[i].ts) && Unchallenged(cfg, ps, i, n);
      NewerOn(cfg, ps, p, i);
      assert Unchallenged(cfg, qs, i, n);
      if IsAck(p) && Overtakes(cfg, p, ps[i]) {
        assert Newer(cfg, qs, n);
      } else {
        assert Unchallenged(cfg, qs, i, n + 1);
      }
    }
  }

  lemma {:induction false} ReadingMarks(x: Progress, ps: seq<Packet>, qs: seq<Packet>)
    requires Marks(x.k.cfg, ps, x.mark)
    ensures Marks(x.k.cfg, ps + qs, InputPackets(x, qs).mark) && InputPackets(x, qs).k.cfg == x.k.cfg
    decreases |qs|
  {
    if qs == [] {
      assert ps + qs == ps;
    } else {
      MarksOn(x.k.cfg, ps, qs[0], x.mark);
      ReadingMarks(InputPacket(x, qs[0]), ps + [qs[0]], qs[1..]);
      assert ps + [qs[0]] + qs[1..] == ps + qs;
    }
  }

  /** A buffer in which the ACK `m` has counted its skips: exactly the segments numbered before it and sent no
      later than it says, and only if its number is in flight. */
  ghost predicate Counted(cfg: Config, snd: Snd, m: Mark, snd': Snd) {
    if m.NoAck? || !(0 <= Off(cfg.wrap, m.sn, snd.una) < Off(cfg.wrap, snd.nxt, snd.una)) then snd' == snd
    else
      && snd' == snd.(buf := snd'.buf) && |snd'.buf| == |snd.buf|
      && forall i :: 0 <= i < |snd.buf| ==> snd'.buf[i] == Bumped(cfg.wrap, snd.una, snd.buf[i], m.sn, m.ts)
  }

  lemma InFlightIsOffset(cfg: Config, snd: Snd, sn: int)
    requires cfg.Valid() && SndSorted(cfg, snd) && InRange(cfg.wrap, sn)
    ensures InFlight(cfg, snd, sn) <==> 0 <= Off(cfg.wrap, sn, snd.una) < Off(cfg.wrap, snd.nxt, snd.una)
  {
    OffZero(cfg.wrap, snd.una, snd.una);
    if cfg.wrap && Off(true, sn, snd.una) < HALF {
      DiffIsOffset(true, sn, snd.nxt, snd.una);
      DiffIsOffset(true, sn, snd.una, snd.una);
    }
  }

  lemma MarkCounts(cfg: Config, snd: Snd, m: Mark)
    requires cfg.Valid() && SndOk(cfg, snd) && (m.Newest? ==> InRange(cfg.wrap, m.sn))
    ensures Counted(cfg, snd, m, if m.NoAck? then snd else ParseFastack(cfg, snd, m.sn, m.ts))
  {
    if m.Newest? {
      InFlightIsOffset(cfg, snd, m.sn);
      BufferRises(cfg, snd);
      if InFlight(cfg, snd, m.sn) { CountsSkipped(cfg, snd.buf, snd.una, m.sn, m.ts); }
    }
  }

  /** The end of a datagram, any bytes: after a complete pass, the newest of its ACKs counts one skip for every
      earlier segment that is still unacknowledged; after a refused one, or without an ACK, none is counted. */
  lemma NewestAckCounts(k: Kcb, b: Bytes) returns (m: Mark)
    requires KcbOk(k) && k.cfg.wrap && |b| >= OVERHEAD
    ensures var d := Parse(k.cfg.conv, b);
            && Marks(k.cfg, d.packets, m)
            && Counted(k.cfg, InputPackets(StartInput(k), d.packets).k.snd, if d.status == 0 then m else NoAck,
                       InputBytes(k, b).k.snd)
  {
    var d := Parse(k.cfg.conv, b);
    var x := InputPackets(StartInput(k), d.packets);
    ReadingMarks(StartInput(k), [], d.packets);
    assert [] + d.packets == d.packets;
    m := x.mark;
    MarkInRange(k.cfg, d.packets, m);
    ReadsToSound(k, d.packets);
    FinishCounts(k.snd.una, x);
  }

  lemma ReadsToSound(k: Kcb, ps: seq<Packet>)
    requires KcbOk(k) && k.cfg.wrap && forall i :: 0 <= i < |ps| ==> Encodable(ps[i])
    ensures var x := InputPackets(StartInput(k), ps); x.k.cfg == k.cfg && SndOk(k.cfg, x.k.snd)
  {
    InputPacketsKeeps(StartInput(k), ps);
  }

  lemma MarkInRange(cfg: Config, ps: seq<Packet>, m: Mark)
    requires Marks(cfg, ps, m) && forall i :: 0 <= i < |ps| ==> Encodable(ps[i])
    ensures m.Newest? ==> 0 <= m.sn < M32
  {
  }

  lemma FinishCounts(prevUna: int, x: Progress)
    requires x.k.cfg.Valid() && SndOk(x.k.cfg, x.k.snd) && (x.mark.Newest? ==> InRange(x.k.cfg.wrap, x.mark.sn))
    ensures Counted(x.k.cfg, x.k.snd, x.mark, FinishInput(prevUna, x).snd)
  {
    MarkCounts(x.k.cfg, x.k.snd, x.mark);
  }

  // ----- what ikcp_input returns -----

  /** The reason why decoding stops at `rest`. */
  ghost predicate Stops(conv: int, rest: Bytes, status: int) {
    if |rest| < OVERHEAD then status == 0
    else if Dec32(rest, 0) != conv then status == -1
    else if LenField(rest) > |rest| - OVERHEAD || LenField(rest) >= HALF then status == -2
    else !KnownCmd(rest[4]) && status == -3
  }

  lemma {:induction false} ParseStops(conv: int, b: Bytes)
    ensures var d := Parse(conv, b); DatagramSize(d.packets) <= |b| && Stops(conv, b[DatagramSize(d.packets)..], d.status)
    decreases |b|
  {
    var d := Parse(conv, b);
    if d.packets != [] {
      var n := OVERHEAD + LenField(b);
      var rest := Parse(conv, b[n..]);
      ParseStops(conv, b[n..]);
      assert d.packets[1..] == rest.packets && d.status == rest.status;
      assert DatagramSize(d.packets) == n + DatagramSize(rest.packets);
      assert b[n..][DatagramSize(rest.packets)..] == b[DatagramSize(d.packets)..];
    }
  }

  /** `ikcp_input` returns -1 for fewer than 24 bytes and changes nothing but the count of acknowledged bytes;
      otherwise its status says why decoding stopped where it did. */
  lemma InputReturns(k: Kcb, b: Bytes)
    ensures |b| < OVERHEAD ==> InputBytes(k, b) == Inputted(k.(snd := k.snd.(ackedLen := 0)), -1)
    ensures |b| >= OVERHEAD ==>
              var ps := Parse(k.cfg.conv, b).packets;
              DatagramSize(ps) <= |b| && DatagramBytes(ps) <= b && Stops(k.cfg.conv, b[DatagramSize(ps)..], InputBytes(k, b).ret)
  {
    ParseStops(k.cfg.conv, b);
    EncodeOfParse(k.cfg.conv, b);
  }
}
