/** What every operation keeps true of one control block, whatever bytes arrive and in
    whichever arithmetic the serial numbers live. Positions are offsets from `snd_una` and
    `rcv_nxt`, so the statements read the same with and without wrap-around. */
module Structure {
  import opened Serial
  import opened Wire
  import opened Control

  // ----- sender -----

  ghost predicate FragOk(cfg: Config, f: Frag) {
    0 <= f.frg < WND_RCV && |f.data| <= cfg.Mss()
  }

  /** `snd_buf` is strictly increasing inside [una, nxt). */
  ghost predicate SndSorted(cfg: Config, snd: Snd) {
    && InRange(cfg.wrap, snd.una) && InRange(cfg.wrap, snd.nxt)
    && 0 <= Off(cfg.wrap, snd.nxt, snd.una) <= cfg.sndWnd
    && (forall i :: 0 <= i < |snd.buf| ==>
          && InRange(cfg.wrap, snd.buf[i].sn)
          && 0 <= Off(cfg.wrap, snd.buf[i].sn, snd.una) < Off(cfg.wrap, snd.nxt, snd.una))
    && (forall i, j :: 0 <= i < j < |snd.buf| ==>
          Off(cfg.wrap, snd.buf[i].sn, snd.una) < Off(cfg.wrap, snd.buf[j].sn, snd.una))
  }

  ghost predicate SndHead(snd: Snd) {
    snd.una == if snd.buf != [] then snd.buf[0].sn else snd.nxt
  }

  ghost predicate SndContent(cfg: Config, snd: Snd) {
    && 0 <= snd.xmit < M32
    && (forall i :: 0 <= i < |snd.buf| ==> FragOk(cfg, snd.buf[i].frag) && 0 <= snd.buf[i].ts < M32)
    && (forall i :: 0 <= i < |snd.queue| ==> FragOk(cfg, snd.queue[i]))
  }

  ghost predicate SndOk(cfg: Config, snd: Snd) {
    SndSorted(cfg, snd) && SndHead(snd) && SndContent(cfg, snd)
  }

  function TotalLen(buf: seq<SndSeg>): nat {
    if buf == [] then 0 else |buf[0].frag.data| + TotalLen(buf[1..])
  }

  lemma {:induction false} TotalLenAppend(a: seq<SndSeg>, b: seq<SndSeg>)
    ensures TotalLen(a + b) == TotalLen(a) + TotalLen(b)
  {
    if a == [] {
      assert a + b == b;
    } else {
      assert (a + b)[1..] == a[1..] + b;
      TotalLenAppend(a[1..], b);
    }
  }

  /** `ikcp_parse_una` removes exactly the leading segments before `una`. */
  lemma {:induction false} ParseUnaDrops(cfg: Config, snd: Snd, una: int) returns (n: nat)
    ensures n <= |snd.buf|
    ensures ParseUna(cfg, snd, una) == snd.(buf := snd.buf[n..], ackedLen := snd.ackedLen + TotalLen(snd.buf[..n]))
    ensures forall i :: 0 <= i < n ==> Diff(cfg.wrap, una, snd.buf[i].sn) > 0
    ensures n < |snd.buf| ==> Diff(cfg.wrap, una, snd.buf[n].sn) <= 0
    decreases |snd.buf|
  {
    n := 0;
    if snd.buf != [] && Diff(cfg.wrap, una, snd.buf[0].sn) > 0 {
      var snd1 := snd.(buf := snd.buf[1..], ackedLen := snd.ackedLen + |snd.buf[0].frag.data|);
      var m := ParseUnaDrops(cfg, snd1, una);
      n := m + 1;
      assert snd.buf[..n][1..] == snd1.buf[..m];
      assert snd.buf[n..] == snd1.buf[m..];
      forall i | 0 <= i < n ensures Diff(cfg.wrap, una, snd.buf[i].sn) > 0 {
        if i > 0 { assert snd.buf[i] == snd1.buf[i - 1]; }
      }
    } else {
      assert snd.buf[..0] == [] && snd.buf[0..] == snd.buf;
    }
  }

  /** After segments have left, `ikcp_shrink_buf` restores the head condition. */
  lemma ShrinkKeeps(cfg: Config, snd: Snd)
    requires SndSorted(cfg, snd) && SndContent(cfg, snd)
    ensures SndOk(cfg, ShrinkBuf(snd))
    ensures 0 <= Off(cfg.wrap, ShrinkBuf(snd).una, snd.una) <= Off(cfg.wrap, snd.nxt, snd.una)
  {
    var una := ShrinkBuf(snd).una;
    Rebase(cfg.wrap, snd.nxt, snd.una, una);
    forall i | 0 <= i < |snd.buf|
      ensures Off(cfg.wrap, snd.buf[i].sn, una) == Off(cfg.wrap, snd.buf[i].sn, snd.una) - Off(cfg.wrap, una, snd.una)
    {
      Rebase(cfg.wrap, snd.buf[i].sn, snd.una, una);
    }
  }

  lemma RemoveKeeps(cfg: Config, snd: Snd, i: int)
    requires SndSorted(cfg, snd) && SndContent(cfg, snd) && 0 <= i < |snd.buf|
    ensures var snd1 := snd.(buf := snd.buf[..i] + snd.buf[i + 1..]);
            SndSorted(cfg, snd1) && SndContent(cfg, snd1)
  {
    var buf := snd.buf[..i] + snd.buf[i + 1..];
    assert forall j :: 0 <= j < |buf| ==> buf[j] == snd.buf[if j < i then j else j + 1];
  }

  lemma RemoveLen(buf: seq<SndSeg>, i: int)
    requires 0 <= i < |buf|
    ensures TotalLen(buf[..i] + buf[i + 1..]) + |buf[i].frag.data| == TotalLen(buf)
  {
    TotalLenAppend(buf[..i], buf[i + 1..]);
    TotalLenAppend(buf[..i], buf[i..]);
    assert buf == buf[..i] + buf[i..];
    assert buf[i..][1..] == buf[i + 1..];
  }

  /** How far one call moved the sender: `snd_una` only forward, and no further than `snd_nxt`;
      the bytes counted as acknowledged are those of the segments that left. */
  ghost predicate Advanced(cfg: Config, before: Snd, after: Snd) {
    && after.nxt == before.nxt && after.queue == before.queue
    && 0 <= Off(cfg.wrap, after.una, before.una) <= Off(cfg.wrap, before.nxt, before.una)
    && after.ackedLen + TotalLen(after.buf) == before.ackedLen + TotalLen(before.buf)
  }

  lemma UnaStepKeeps(cfg: Config, snd: Snd, una: int)
    requires SndOk(cfg, snd)
    ensures SndOk(cfg, ShrinkBuf(ParseUna(cfg, snd, una)))
    ensures Advanced(cfg, snd, ShrinkBuf(ParseUna(cfg, snd, una)))
  {
    var n := ParseUnaDrops(cfg, snd, una);
    TotalLenSplit(snd.buf, n);
    DropKeeps(cfg, snd, n, snd.ackedLen + TotalLen(snd.buf[..n]));
    ShrinkKeeps(cfg, ParseUna(cfg, snd, una));
  }

  lemma TotalLenSplit(buf: seq<SndSeg>, n: nat)
    requires n <= |buf|
    ensures TotalLen(buf[..n]) + TotalLen(buf[n..]) == TotalLen(buf)
  {
    var a, b := buf[..n], buf[n..];
    assert buf == a + b;
    TotalLenAppend(a, b);
  }

  /** Dropping leading segments keeps the rest in order. */
  lemma DropKeeps(cfg: Config, snd: Snd, n: nat, acked: int)
    requires SndSorted(cfg, snd) && SndContent(cfg, snd) && n <= |snd.buf|
    ensures var snd1 := snd.(buf := snd.buf[n..], ackedLen := acked); SndSorted(cfg, snd1) && SndContent(cfg, snd1)
  {
    var buf := snd.buf[n..];
    assert forall i :: 0 <= i < |buf| ==> buf[i] == snd.buf[i + n];
  }

  lemma AckStepKeeps(cfg: Config, snd: Snd, sn: int)
    requires SndOk(cfg, snd)
    ensures SndOk(cfg, ShrinkBuf(ParseAck(cfg, snd, sn)))
    ensures Advanced(cfg, snd, ShrinkBuf(ParseAck(cfg, snd, sn)))
  {
    var snd1 := ParseAck(cfg, snd, sn);
    if snd1 != snd {
      RemoveKeeps(cfg, snd, FindSn(cfg, snd.buf, sn));
      RemoveLen(snd.buf, FindSn(cfg, snd.buf, sn));
    }
    ShrinkKeeps(cfg, snd1);
  }

  lemma AdvancedTrans(cfg: Config, a: Snd, b: Snd, c: Snd)
    requires Advanced(cfg, a, b) && Advanced(cfg, b, c)
    ensures Advanced(cfg, a, c)
  {
    UnaChain(cfg.wrap, a.una, b.una, c.una, a.nxt);
  }

  /** The sender half of one incoming segment. */
  lemma InputSndKeeps(cfg: Config, snd: Snd, p: Packet)
    requires SndOk(cfg, snd)
    ensures SndOk(cfg, InputSnd(cfg, snd, p))
    ensures Advanced(cfg, snd, InputSnd(cfg, snd, p))
  {
    UnaStepKeeps(cfg, snd, p.una);
    var snd1 := ShrinkBuf(ParseUna(cfg, snd, p.una));
    if p.cmd == CMD_ACK {
      AckStepKeeps(cfg, snd1, p.sn);
      AdvancedTrans(cfg, snd, snd1, ShrinkBuf(ParseAck(cfg, snd1, p.sn)));
    }
  }

  lemma UnaChain(wrap: bool, a: int, b: int, c: int, nxt: int)
    requires 0 <= Off(wrap, b, a) <= Off(wrap, nxt, a)
    requires 0 <= Off(wrap, c, b) <= Off(wrap, nxt, b)
    ensures 0 <= Off(wrap, c, a) <= Off(wrap, nxt, a)
  {
    if wrap {
      U32Sub(nxt - a, b - a);
      U32Sub(c - a, b - a);
      U32Add(c - b, b - a);
    }
  }

  lemma {:induction false} BumpShape(cfg: Config, buf: seq<SndSeg>, sn: int, ts: int)
    ensures var r := BumpSkipped(cfg, buf, sn, ts);
            && |r| == |buf| && TotalLen(r) == TotalLen(buf)
            && forall i :: 0 <= i < |r| ==> r[i] == buf[i].(fastack := r[i].fastack)
  {
    if buf != [] && Diff(cfg.wrap, sn, buf[0].sn) >= 0 {
      BumpShape(cfg, buf[1..], sn, ts);
      var r := BumpSkipped(cfg, buf, sn, ts);
      assert r[1..] == BumpSkipped(cfg, buf[1..], sn, ts);
      forall i | 0 <= i < |r| ensures r[i] == buf[i].(fastack := r[i].fastack) {
        if i > 0 { assert r[i] == r[1..][i - 1] && buf[i] == buf[1..][i - 1]; }
      }
    }
  }

  /** Segments that agree except in their retransmission bookkeeping. */
  ghost predicate SameSegs(a: seq<SndSeg>, b: seq<SndSeg>) {
    |a| == |b| && forall i :: 0 <= i < |a| ==> a[i].sn == b[i].sn && a[i].frag == b[i].frag
  }

  lemma SameSegsKeeps(cfg: Config, snd: Snd, buf: seq<SndSeg>)
    requires SndOk(cfg, snd) && SameSegs(buf, snd.buf)
    requires forall i :: 0 <= i < |buf| ==> 0 <= buf[i].ts < M32
    ensures SndOk(cfg, snd.(buf := buf))
  {
  }

  // ----- receiver -----

  /** `rcv_buf` is strictly increasing inside [base, base + rcv_wnd). */
  ghost predicate RcvSorted(cfg: Config, buf: seq<RcvSeg>, base: int) {
    && (forall i :: 0 <= i < |buf| ==>
          InRange(cfg.wrap, buf[i].sn) && 0 <= Off(cfg.wrap, buf[i].sn, base) < cfg.rcvWnd)
    && (forall i, j :: 0 <= i < j < |buf| ==>
          Off(cfg.wrap, buf[i].sn, base) < Off(cfg.wrap, buf[j].sn, base))
  }

  ghost predicate RcvContent(cfg: Config, rcv: Rcv) {
    && (forall i :: 0 <= i < |rcv.buf| ==> 0 <= rcv.buf[i].frag.frg < 256)
    && (forall i :: 0 <= i < |rcv.queue| ==> 0 <= rcv.queue[i].frag.frg < 256)
    && (forall i :: 0 <= i < |rcv.acks| ==> InRange(cfg.wrap, rcv.acks[i].sn) && 0 <= rcv.acks[i].ts < M32)
  }

  /** Everything but the promise that no deliverable segment waits in `rcv_buf`. */
  ghost predicate RcvShape(cfg: Config, rcv: Rcv) {
    && InRange(cfg.wrap, rcv.nxt)
    && RcvSorted(cfg, rcv.buf, rcv.nxt)
    && |rcv.queue| <= cfg.rcvWnd
    && RcvContent(cfg, rcv)
  }

  /** A segment that is next in line waits in `rcv_buf` only behind a full `rcv_queue`. */
  ghost predicate Drained(cfg: Config, rcv: Rcv) {
    rcv.buf != [] && rcv.buf[0].sn == rcv.nxt ==> |rcv.queue| >= cfg.rcvWnd
  }

  ghost predicate RcvOk(cfg: Config, rcv: Rcv) {
    RcvShape(cfg, rcv) && Drained(cfg, rcv)
  }

  lemma MoveOneKeeps(cfg: Config, rcv: Rcv)
    requires cfg.Valid() && RcvShape(cfg, rcv)
    requires rcv.buf != [] && rcv.buf[0].sn == rcv.nxt && |rcv.queue| < cfg.rcvWnd
    ensures RcvShape(cfg, rcv.(nxt := Plus(cfg.wrap, rcv.nxt, 1), buf := rcv.buf[1..], queue := rcv.queue + [rcv.buf[0]]))
  {
    var nxt := Plus(cfg.wrap, rcv.nxt, 1);
    OffPlus(cfg.wrap, rcv.nxt, 1, rcv.nxt);
    forall i | 1 <= i < |rcv.buf|
      ensures 0 <= Off(cfg.wrap, rcv.buf[i].sn, nxt) == Off(cfg.wrap, rcv.buf[i].sn, rcv.nxt) - 1
    {
      assert Off(cfg.wrap, rcv.buf[0].sn, rcv.nxt) < Off(cfg.wrap, rcv.buf[i].sn, rcv.nxt);
      Rebase(cfg.wrap, rcv.buf[i].sn, rcv.nxt, nxt);
    }
  }

  lemma {:induction false} MoveReadyKeeps(cfg: Config, rcv: Rcv)
    requires cfg.Valid() && RcvShape(cfg, rcv)
    ensures RcvOk(cfg, MoveReady(cfg, rcv))
    decreases |rcv.buf|
  {
    if rcv.buf != [] && rcv.buf[0].sn == rcv.nxt && |rcv.queue| < cfg.rcvWnd {
      MoveOneKeeps(cfg, rcv);
      MoveReadyKeeps(cfg, rcv.(nxt := Plus(cfg.wrap, rcv.nxt, 1), buf := rcv.buf[1..], queue := rcv.queue + [rcv.buf[0]]));
    }
  }

  /** Insertion keeps the old segments and adds at most the new one. */
  lemma {:induction false} InsertMembers(cfg: Config, buf: seq<RcvSeg>, s: RcvSeg)
    ensures var r := Insert(cfg, buf, s);
            && (forall x :: x in buf ==> x in r)
            && (forall x :: x in r ==> x in buf || x == s)
            && (exists x :: x in r && x.sn == s.sn)
  {
    if buf == [] {
      assert s in [s];
    } else {
      var n := |buf| - 1;
      var last := buf[n];
      if last.sn == s.sn {
        assert last in buf;
      } else if Diff(cfg.wrap, s.sn, last.sn) > 0 {
        assert s in buf + [s];
      } else {
        InsertMembers(cfg, buf[..n], s);
        assert buf == buf[..n] + [last];
        var x :| x in Insert(cfg, buf[..n], s) && x.sn == s.sn;
        assert x in Insert(cfg, buf, s);
      }
    }
  }

  lemma SnocSorted(cfg: Config, buf: seq<RcvSeg>, x: RcvSeg, base: int)
    requires RcvSorted(cfg, buf, base)
    requires InRange(cfg.wrap, x.sn) && 0 <= Off(cfg.wrap, x.sn, base) < cfg.rcvWnd
    requires forall y :: y in buf ==> Off(cfg.wrap, y.sn, base) < Off(cfg.wrap, x.sn, base)
    ensures RcvSorted(cfg, buf + [x], base)
  {
    assert forall i :: 0 <= i < |buf| ==> buf[i] in buf;
  }

  lemma LastIsLargest(cfg: Config, buf: seq<RcvSeg>, base: int)
    requires RcvSorted(cfg, buf, base) && buf != []
    ensures forall y :: y in buf ==> Off(cfg.wrap, y.sn, base) <= Off(cfg.wrap, buf[|buf| - 1].sn, base)
    ensures forall y :: y in buf[..|buf| - 1] ==> Off(cfg.wrap, y.sn, base) < Off(cfg.wrap, buf[|buf| - 1].sn, base)
    ensures RcvSorted(cfg, buf[..|buf| - 1], base)
  {
  }

  /** What the backward walk does next, in terms of offsets. */
  lemma InsertStep(cfg: Config, buf: seq<RcvSeg>, s: RcvSeg, base: int)
    requires cfg.Valid() && RcvSorted(cfg, buf, base) && buf != []
    requires InRange(cfg.wrap, s.sn) && 0 <= Off(cfg.wrap, s.sn, base) < cfg.rcvWnd
    ensures var last := buf[|buf| - 1]; var d := Off(cfg.wrap, s.sn, base) - Off(cfg.wrap, last.sn, base);
            Insert(cfg, buf, s) == if d == 0 then buf else if d > 0 then buf + [s] else Insert(cfg, buf[..|buf| - 1], s) + [last]
  {
    var last := buf[|buf| - 1];
    DiffIsOffset(cfg.wrap, s.sn, last.sn, base);
    SameOffSameNumber(cfg.wrap, s.sn, last.sn, base);
  }

  /** Insertion keeps the buffer sorted and inside the window. */
  lemma {:induction false} InsertSorted(cfg: Config, buf: seq<RcvSeg>, s: RcvSeg, base: int)
    requires cfg.Valid() && RcvSorted(cfg, buf, base)
    requires InRange(cfg.wrap, s.sn) && 0 <= Off(cfg.wrap, s.sn, base) < cfg.rcvWnd
    ensures RcvSorted(cfg, Insert(cfg, buf, s), base)
  {
    if buf != [] {
      var n := |buf| - 1;
      InsertStep(cfg, buf, s, base);
      LastIsLargest(cfg, buf, base);
      if Off(cfg.wrap, s.sn, base) > Off(cfg.wrap, buf[n].sn, base) {
        SnocSorted(cfg, buf, s, base);
      } else if Off(cfg.wrap, s.sn, base) < Off(cfg.wrap, buf[n].sn, base) {
        InsertSorted(cfg, buf[..n], s, base);
        InsertMembers(cfg, buf[..n], s);
        SnocSorted(cfg, Insert(cfg, buf[..n], s), buf[n], base);
      }
    }
  }

  lemma SameOffSameNumber(wrap: bool, x: int, y: int, base: int)
    requires InRange(wrap, x) && InRange(wrap, y)
    ensures Off(wrap, x, base) == Off(wrap, y, base) <==> x == y
  {
    if wrap && Off(wrap, x, base) == Off(wrap, y, base) {
      U32Sub(x - base, y - base);
    }
  }

  /** The two window tests of the push path accept exactly the numbers in the window. */
  lemma WindowTests(cfg: Config, rcv: Rcv, sn: int)
    requires cfg.Valid() && InRange(cfg.wrap, rcv.nxt) && InRange(cfg.wrap, sn)
    ensures BelowWindowEnd(cfg, rcv, sn) && Diff(cfg.wrap, sn, rcv.nxt) >= 0
            <==> 0 <= Off(cfg.wrap, sn, rcv.nxt) < cfg.rcvWnd
  {
    if cfg.wrap {
      EndDiff(rcv.nxt, sn, cfg.rcvWnd);
    }
  }

  /** The distance to the window's end is the offset less the window. */
  lemma EndDiff(nxt: int, sn: int, wnd: int)
    requires 0 <= sn < M32
    ensures TimeDiff(sn, U32(nxt + wnd)) == I32(U32(sn - nxt) - wnd)
  {
    U32Small(sn);
    U32Sub(sn, nxt + wnd);
    U32Add(sn - nxt, -wnd);
    I32Same(sn - U32(nxt + wnd), U32(sn - nxt) - wnd);
  }

  ghost predicate PacketOk(cfg: Config, p: Packet) {
    && InRange(cfg.wrap, p.sn) && InRange(cfg.wrap, p.una)
    && 0 <= p.frg < 256 && 0 <= p.wnd < 65536 && 0 <= p.ts < M32
  }

  lemma InputRcvKeeps(cfg: Config, rcv: Rcv, p: Packet)
    requires cfg.Valid() && RcvOk(cfg, rcv) && PacketOk(cfg, p)
    ensures RcvOk(cfg, InputRcv(cfg, rcv, p))
  {
    if p.cmd == CMD_PUSH && BelowWindowEnd(cfg, rcv, p.sn) {
      var rcv1 := rcv.(acks := rcv.acks + [Ack(p.sn, p.ts)]);
      assert RcvOk(cfg, rcv1);
      if Diff(cfg.wrap, p.sn, rcv.nxt) >= 0 {
        var s := RcvSeg(p.sn, Frag(p.frg, p.data));
        WindowTests(cfg, rcv, p.sn);
        InsertSorted(cfg, rcv.buf, s, rcv.nxt);
        InsertMembers(cfg, rcv.buf, s);
        var rcv2 := rcv1.(buf := Insert(cfg, rcv.buf, s));
        forall i | 0 <= i < |rcv2.buf| ensures 0 <= rcv2.buf[i].frag.frg < 256 {
          assert rcv2.buf[i] in rcv2.buf;
        }
        MoveReadyKeeps(cfg, rcv2);
      }
    }
  }

  // ----- the whole control block -----

  ghost predicate ClockOk(c: Clock) {
    0 <= c.current < M32 && 0 <= c.tsFlush < M32
  }

  ghost predicate RttOk(cfg: Config, r: Rtt) {
    0 <= r.srtt && 0 <= r.rttval && cfg.minRto <= r.rto <= RTO_MAX
  }

  ghost predicate CcOk(c: Cc) {
    0 <= c.cwnd < M32 && 0 <= c.incr < M32 && THRESH_MIN <= c.ssthresh < M32 && 0 <= c.rmtWnd < 65536
  }

  ghost predicate KcbOk(k: Kcb) {
    && k.cfg.Valid()
    && SndOk(k.cfg, k.snd)
    && RcvOk(k.cfg, k.rcv)
    && ClockOk(k.clock) && RttOk(k.cfg, k.rtt) && CcOk(k.cc)
  }

  lemma CreateOk(cfg: Config)
    requires cfg.Valid()
    ensures KcbOk(Create(cfg))
    ensures Create(cfg).rtt == Rtt(0, 0, 200) && Create(cfg).cc == Cc(0, 0, 2, 128) && Create(cfg).clock == Clock(0, 100, false)
  {
  }

  // send

  lemma {:induction false} CutShape(mss: int, stream: bool, data: Bytes, count: nat)
    requires mss > 0
    ensures var fs := Cut(mss, stream, data, count);
            && |fs| == count
            && forall i :: 0 <= i < count ==>
                 |fs[i].data| <= mss && fs[i].frg == (if stream then 0 else count - 1 - i)
    decreases count
  {
    if count > 0 {
      var size := Min(|data|, mss);
      CutShape(mss, stream, data[size..], count - 1);
    }
  }

  /** The bytes `count` full segments hold. */
  function Room(mss: nat, count: nat): nat {
    if count == 0 then 0 else mss + Room(mss, count - 1)
  }

  lemma {:induction false} RoomIs(mss: nat, count: nat)
    ensures Room(mss, count) == count * mss
  {
    if count > 0 {
      RoomIs(mss, count - 1);
      OneMore(mss, count);
    }
  }

  lemma OneMore(mss: nat, count: nat)
    requires count > 0
    ensures count * mss == mss + (count - 1) * mss
  {
  }

  lemma Quotient(mss: nat, len: nat, q: int)
    requires 0 < mss < len && q == (len + mss - 1) / mss
    ensures q >= 1 && len <= q * mss && (q - 1) * mss < len
  {
    assert len + mss - 1 == q * mss + (len + mss - 1) % mss;
    assert (q - 1) * mss == q * mss - mss;
  }

  /** The fragments hold all the data, and one fewer would not. */
  lemma FragCountEnough(mss: int, len: nat)
    requires mss > 0
    ensures FragCount(mss, len) >= 1 && len <= Room(mss, FragCount(mss, len))
    ensures Room(mss, FragCount(mss, len) - 1) <= len
  {
    if len > mss {
      Quotient(mss, len, FragCount(mss, len));
      RoomIs(mss, FragCount(mss, len));
      RoomIs(mss, FragCount(mss, len) - 1);
    }
  }

  /** Sending keeps every queued fragment within the segment size and the fragment count. */
  lemma SendFits(cfg: Config, queue: seq<Frag>, data: Bytes)
    requires forall i :: 0 <= i < |queue| ==> FragOk(cfg, queue[i])
    ensures var q := Send(cfg, queue, data).queue; forall i :: 0 <= i < |q| ==> FragOk(cfg, q[i])
  {
    var rest := data[Extension(cfg, queue, |data|)..];
    CutShape(cfg.Mss(), cfg.stream, rest, FragCount(cfg.Mss(), |rest|));
    var q := Extended(cfg, queue, data);
    assert forall i :: 0 <= i < |q| ==> FragOk(cfg, q[i]);
  }

  lemma SendKeeps(k: Kcb, data: Bytes)
    requires KcbOk(k)
    ensures KcbOk(k.(snd := k.snd.(queue := Send(k.cfg, k.snd.queue, data).queue)))
  {
    SendFits(k.cfg, k.snd.queue, data);
  }

  // recv

  /** The walk that adds lengths and the walk that merges data stop at the same segment. */
  lemma {:induction false} LengthIsMerge(q: seq<RcvSeg>)
    ensures PeekLength(q) == |Merge(q[..MessageSpan(q)])|
  {
    if q != [] {
      var n := MessageSpan(q);
      assert q[..n][1..] == q[1..n];
      if q[0].frag.frg != 0 {
        LengthIsMerge(q[1..]);
        assert q[1..][..n - 1] == q[1..n];
      }
    }
  }

  /** The bytes `ikcp_recv` merges are as many as `ikcp_peeksize` announced. */
  lemma PeekIsMerge(q: seq<RcvSeg>)
    requires PeekSize(q) >= 0
    ensures PeekSize(q) == |Merge(q[..MessageSpan(q)])|
  {
    LengthIsMerge(q);
  }

  lemma RecvKeeps(k: Kcb, len: int)
    requires KcbOk(k)
    ensures KcbOk(Recv(k, len).k)
  {
    var q := k.rcv.queue;
    var r := Recv(k, len);
    if r.ret >= 0 {
      MoveReadyKeeps(k.cfg, k.rcv.(queue := if len < 0 then q else q[MessageSpan(q)..]));
    }
  }

  // input

  lemma UpdateAckKeeps(cfg: Config, r: Rtt, sample: int)
    requires cfg.Valid() && RttOk(cfg, r) && 0 <= sample
    ensures RttOk(cfg, UpdateAck(cfg, r, sample))
  {
  }

  lemma InputPacketKeeps(x: Progress, p: Packet)
    requires KcbOk(x.k) && PacketOk(x.k.cfg, p)
    ensures KcbOk(InputPacket(x, p).k)
    ensures InputPacket(x, p).k.cfg == x.k.cfg
  {
    InputSndKeeps(x.k.cfg, x.k.snd, p);
    InputRcvKeeps(x.k.cfg, x.k.rcv, p);
    if TimeDiff(x.k.clock.current, p.ts) >= 0 {
      UpdateAckKeeps(x.k.cfg, x.k.rtt, TimeDiff(x.k.clock.current, p.ts));
    }
  }

  lemma {:induction false} InputPacketsKeeps(x: Progress, ps: seq<Packet>)
    requires KcbOk(x.k) && forall i :: 0 <= i < |ps| ==> PacketOk(x.k.cfg, ps[i])
    ensures KcbOk(InputPackets(x, ps).k)
    ensures InputPackets(x, ps).k.cfg == x.k.cfg
    ensures Advanced(x.k.cfg, x.k.snd, InputPackets(x, ps).k.snd)
    decreases |ps|
  {
    if ps != [] {
      InputPacketKeeps(x, ps[0]);
      InputSndKeeps(x.k.cfg, x.k.snd, ps[0]);
      var x1 := InputPacket(x, ps[0]);
      InputPacketsKeeps(x1, ps[1..]);
      AdvancedTrans(x.k.cfg, x.k.snd, x1.k.snd, InputPackets(x, ps).k.snd);
    } else {
      OffZero(x.k.cfg.wrap, x.k.snd.una, x.k.snd.una);
    }
  }

  lemma GrowKeeps(cfg: Config, c: Cc)
    requires cfg.Valid() && CcOk(c)
    ensures CcOk(Grow(cfg, c))
  {
    var mss := cfg.Mss();
    var incr := U32(Max(c.incr, mss) + U32(mss * mss) / Max(c.incr, mss) + mss / 16);
    QuotientSmaller(U32(incr + mss - 1), mss);
  }

  lemma QuotientSmaller(x: int, d: int)
    requires 0 <= x && 0 < d
    ensures 0 <= x / d <= x
  {
    assert x / d * d <= x;
    if x / d > x {
      MulAtLeast(x / d, d);
      assert false;
    }
  }

  lemma MulAtLeast(x: int, d: int)
    requires 0 <= x && 0 < d
    ensures x <= x * d
  {
  }

  lemma FinishInputKeeps(prevUna: int, x: Progress)
    requires KcbOk(x.k)
    ensures KcbOk(FinishInput(prevUna, x))
    ensures var snd' := FinishInput(prevUna, x).snd;
            && snd' == x.k.snd.(buf := snd'.buf)
            && SameSegs(snd'.buf, x.k.snd.buf) && TotalLen(snd'.buf) == TotalLen(x.k.snd.buf)
  {
    var k := x.k;
    if x.mark.Newest? {
      BumpShape(k.cfg, k.snd.buf, x.mark.sn, x.mark.ts);
      if InFlight(k.cfg, k.snd, x.mark.sn) {
        SameSegsKeeps(k.cfg, k.snd, BumpSkipped(k.cfg, k.snd.buf, x.mark.sn, x.mark.ts));
      }
    }
    GrowKeeps(k.cfg, k.cc);
  }

  /** Any packets, any status: the invariant holds, `snd_una` never goes back, and `ackedlen`
      is the total length of the segments the call removed. */
  lemma InputKeeps(k: Kcb, d: Parsed)
    requires KcbOk(k) && forall i :: 0 <= i < |d.packets| ==> PacketOk(k.cfg, d.packets[i])
    ensures KcbOk(Input(k, d))
    ensures Input(k, d).cfg == k.cfg
    ensures Advanced(k.cfg, k.snd.(ackedLen := 0), Input(k, d).snd)
  {
    var x := InputPackets(StartInput(k), d.packets);
    InputPacketsKeeps(StartInput(k), d.packets);
    FinishInputKeeps(k.snd.una, x);
  }

  /** The same for raw bytes of any shape, on every return path. */
  lemma InputBytesKeeps(k: Kcb, b: Bytes)
    requires KcbOk(k) && k.cfg.wrap
    ensures KcbOk(InputBytes(k, b).k)
    ensures InputBytes(k, b).k.cfg == k.cfg
    ensures Advanced(k.cfg, k.snd.(ackedLen := 0), InputBytes(k, b).k.snd)
  {
    if |b| >= OVERHEAD {
      InputKeeps(k, Parse(k.cfg.conv, b));
    } else {
      OffZero(true, k.snd.una, k.snd.una);
    }
  }

  // flush

  lemma {:induction false} AdmitKeeps(cfg: Config, snd: Snd, window: int, now: int, rto: int)
    requires cfg.Valid() && SndOk(cfg, snd) && 0 <= window <= cfg.sndWnd && 0 <= now < M32
    ensures var snd' := Admit(cfg, snd, window, now, rto);
            && SndOk(cfg, snd')
            && snd'.una == snd.una
            && |snd'.queue| <= |snd.queue| && snd'.queue == snd.queue[|snd.queue| - |snd'.queue|..]
            && Off(cfg.wrap, snd'.nxt, snd.una) == Off(cfg.wrap, snd.nxt, snd.una) + |snd.queue| - |snd'.queue|
            && (snd'.queue != [] ==> Off(cfg.wrap, snd'.nxt, snd.una) >= window)
    decreases |snd.queue|
  {
    RoomLeft(cfg, snd, window);
    if Diff(cfg.wrap, snd.nxt, Plus(cfg.wrap, snd.una, window)) < 0 && snd.queue != [] {
      AdmitOneKeeps(cfg, snd, now, rto);
      AdmitKeeps(cfg, AdmitOne(cfg, snd, now, rto), window, now, rto);
    }
  }

  /** The window test compares how much is in flight with the window. */
  lemma RoomLeft(cfg: Config, snd: Snd, window: int)
    requires cfg.Valid() && SndSorted(cfg, snd) && 0 <= window <= cfg.sndWnd
    ensures Diff(cfg.wrap, snd.nxt, Plus(cfg.wrap, snd.una, window)) < 0 <==> Off(cfg.wrap, snd.nxt, snd.una) < window
  {
    OffPlus(cfg.wrap, snd.una, window, snd.una);
    OffZero(cfg.wrap, snd.una, snd.una);
    DiffIsOffset(cfg.wrap, snd.nxt, Plus(cfg.wrap, snd.una, window), snd.una);
  }

  /** One segment numbered and moved. */
  function AdmitOne(cfg: Config, snd: Snd, now: int, rto: int): Snd
    requires snd.queue != []
  {
    snd.(nxt := Plus(cfg.wrap, snd.nxt, 1), queue := snd.queue[1..],
         buf := snd.buf + [SndSeg(snd.nxt, snd.queue[0], now, now, rto, 0, 0)])
  }

  lemma AdmitOneKeeps(cfg: Config, snd: Snd, now: int, rto: int)
    requires cfg.Valid() && SndOk(cfg, snd) && snd.queue != [] && Off(cfg.wrap, snd.nxt, snd.una) < cfg.sndWnd && 0 <= now < M32
    ensures var s := AdmitOne(cfg, snd, now, rto);
            SndOk(cfg, s) && s.una == snd.una && Off(cfg.wrap, s.nxt, snd.una) == Off(cfg.wrap, snd.nxt, snd.una) + 1
  {
    OffPlus(cfg.wrap, snd.nxt, 1, snd.una);
    OffZero(cfg.wrap, snd.nxt, snd.una);
    assert SndHead(AdmitOne(cfg, snd, now, rto));
  }

  lemma {:induction false} SendPassShape(k: Kcb, buf: seq<SndSeg>, n: nat)
    requires n <= |buf| && ClockOk(k.clock)
    requires forall i :: 0 <= i < n ==> 0 <= buf[i].ts < M32
    ensures var r := SendPass(k, buf, n);
            && SameSegs(r.segs, buf[..n])
            && forall i :: 0 <= i < n ==> 0 <= r.segs[i].ts < M32
  {
    if n > 0 {
      SendPassShape(k, buf, n - 1);
    }
  }

  lemma SettleKeeps(cfg: Config, c: Cc, inflight: int, fast: bool, lost: bool)
    requires cfg.Valid() && CcOk(c) && 0 <= inflight < M32
    ensures CcOk(Settle(cfg, c, inflight, fast, lost))
    ensures Settle(cfg, c, inflight, fast, lost).cwnd >= 1
  {
  }

  lemma AdmittedOk(k: Kcb)
    requires KcbOk(k)
    ensures SndOk(k.cfg, Admitted(k)) && Admitted(k).una == k.snd.una
  {
    AdmitKeeps(k.cfg, k.snd, SendWindow(k), k.clock.current, k.rtt.rto);
  }

  lemma FlushSndKeeps(k: Kcb)
    requires ClockOk(k.clock) && SndOk(k.cfg, Admitted(k))
    ensures var snd := Admitted(k);
            && SameSegs(SendPass(k, snd.buf, |snd.buf|).segs, snd.buf)
            && SndOk(k.cfg, snd.(buf := SendPass(k, snd.buf, |snd.buf|).segs))
  {
    var snd := Admitted(k);
    SendPassShape(k, snd.buf, |snd.buf|);
    assert snd.buf[..|snd.buf|] == snd.buf;
    SameSegsKeeps(k.cfg, snd, SendPass(k, snd.buf, |snd.buf|).segs);
  }

  lemma SndOkFields(cfg: Config, snd: Snd, xmit: int, dead: bool)
    requires SndOk(cfg, snd) && 0 <= xmit < M32
    ensures SndOk(cfg, snd.(xmit := xmit, dead := dead))
  {
  }

  lemma RcvOkNoAcks(cfg: Config, rcv: Rcv)
    requires RcvOk(cfg, rcv)
    ensures RcvOk(cfg, rcv.(acks := []))
  {
  }

  lemma FlushKeeps(k: Kcb)
    requires KcbOk(k)
    ensures KcbOk(Flush(k).k)
    ensures Flush(k).k.snd.una == k.snd.una
  {
    AdmittedOk(k);
    FlushSndKeeps(k);
    var snd := Admitted(k);
    var r := SendPass(k, snd.buf, |snd.buf|);
    SndOkFields(k.cfg, snd.(buf := r.segs), U32(snd.xmit + r.timeouts), snd.dead || r.dead);
    RcvOkNoAcks(k.cfg, k.rcv);
    SettleKeeps(k.cfg, k.cc, U32(snd.nxt - snd.una), r.fasts > 0, r.timeouts > 0);
    if k.clock.updated { Assembled(k, FlushState(k)); }
  }

  /** A control block is sound when its parts are. */
  lemma Assembled(k: Kcb, k': Kcb)
    requires KcbOk(k) && k'.cfg == k.cfg && k'.clock == k.clock && k'.rtt == k.rtt
    requires SndOk(k.cfg, k'.snd) && RcvOk(k.cfg, k'.rcv) && CcOk(k'.cc)
    ensures KcbOk(k')
  {
  }

  lemma UpdateKeeps(k: Kcb, now: int)
    requires KcbOk(k) && 0 <= now < M32
    ensures KcbOk(Update(k, now).k)
  {
    FlushKeeps(k.(clock := TickClock(k.cfg, k.clock, now).clock));
  }

  // ----- what a flush puts on the wire -----

  /** The free places in the receive queue, which never holds more than the receive window. */
  function FreeSpace(k: Kcb): int { k.cfg.rcvWnd - |k.rcv.queue| }

  /** A segment emitted by `k` with `buf` as its send buffer: the free space, this end's `una`, and a pending
      acknowledgement as it was received, a buffered segment stamped with the time, or a probe with what the
      last acknowledgement left in the header. */
  ghost predicate Emitted(k: Kcb, buf: seq<SndSeg>, p: Packet) {
    && p.conv == k.cfg.conv && p.una == k.rcv.nxt && p.wnd == FreeSpace(k) % 65536
    && KnownCmd(p.cmd)
    && InRange(k.cfg.wrap, p.sn) && 0 <= p.ts < M32
    && (p.cmd == CMD_PUSH ==>
          p.ts == k.clock.current && exists j :: 0 <= j < |buf| && buf[j].sn == p.sn && buf[j].frag == Frag(p.frg, p.data))
    && (p.cmd != CMD_PUSH ==> p.frg == 0 && p.data == [])
    && (p.cmd == CMD_ACK ==> exists i :: 0 <= i < |k.rcv.acks| && k.rcv.acks[i] == Ack(p.sn, p.ts))
    && (p.cmd == CMD_WASK || p.cmd == CMD_WINS ==>
          var acks := k.rcv.acks; Ack(p.sn, p.ts) == if acks == [] then Ack(0, 0) else acks[|acks| - 1])
  }

  lemma ControlEmitted(k: Kcb, buf: seq<SndSeg>, i: int)
    requires KcbOk(k) && 0 <= i < |ControlPackets(k)|
    ensures Emitted(k, buf, ControlPackets(k)[i])
  {
    var n := |k.rcv.acks|;
    assert |AckPackets(k)| == n;
    if i < n {
      assert ControlPackets(k)[i] == Stamp(k, CMD_ACK, k.rcv.acks[i].sn, k.rcv.acks[i].ts, Frag(0, []));
    } else {
      assert ControlPackets(k)[i] in [ProbePacket(k, CMD_WASK), ProbePacket(k, CMD_WINS)];
    }
  }

  lemma {:induction false} PushesEmitted(k: Kcb, buf: seq<SndSeg>, n: nat)
    requires KcbOk(k) && n <= |buf|
    requires forall i :: 0 <= i < |buf| ==> InRange(k.cfg.wrap, buf[i].sn)
    ensures forall i :: 0 <= i < |SendPass(k, buf, n).pushes| ==> Emitted(k, buf, SendPass(k, buf, n).pushes[i])
  {
    if n > 0 {
      PushesEmitted(k, buf, n - 1);
      var t := Transmit(k.cfg, k.rtt.rto, k.clock.current, buf[n - 1]);
      assert t.seg.sn == buf[n - 1].sn && t.seg.frag == buf[n - 1].frag;
    }
  }

  lemma FlushEmitted(k: Kcb)
    requires KcbOk(k)
    ensures forall p :: p in FlushPackets(k) ==> Emitted(k, Admitted(k).buf, p)
  {
    AdmitKeeps(k.cfg, k.snd, SendWindow(k), k.clock.current, k.rtt.rto);
    var buf := Admitted(k).buf;
    PushesEmitted(k, buf, |buf|);
    forall i | 0 <= i < |ControlPackets(k)| ensures Emitted(k, buf, ControlPackets(k)[i]) {
      ControlEmitted(k, buf, i);
    }
  }

  lemma EmittedOk(k: Kcb, p: Packet)
    requires KcbOk(k) && Emitted(k, Admitted(k).buf, p)
    ensures PacketOk(k.cfg, p)
    ensures OVERHEAD + |p.data| <= k.cfg.mtu
    ensures k.cfg.wrap ==> Encodable(p)
  {
    AdmitKeeps(k.cfg, k.snd, SendWindow(k), k.clock.current, k.rtt.rto);
  }

  lemma {:induction false} InConcat<T>(ss: seq<seq<T>>, i: int, j: int)
    requires 0 <= i < |ss| && 0 <= j < |ss[i]|
    ensures ss[i][j] in Concat(ss)
  {
    if i > 0 {
      InConcat(ss[1..], i - 1, j);
    }
  }

  /** Packing and parsing undo each other: every datagram of a flush has 1 to mtu bytes, and the
      decode loop run over them finds exactly the flushed segments in order. */
  lemma FlushRoundTrip(k: Kcb)
    requires KcbOk(k) && k.clock.updated
    ensures SizesOk(k.cfg.mtu, Flush(k).out) && Full(k.cfg.mtu, Flush(k).out)
    ensures Concat(Flush(k).out) == FlushPackets(k)
    ensures k.cfg.wrap ==> ParseEach(k.cfg.conv, EncodeEach(Flush(k).out)) == FlushPackets(k)
  {
    FlushEmitted(k);
    var ps := FlushPackets(k);
    forall p | p in ps ensures OVERHEAD + |p.data| <= k.cfg.mtu && (k.cfg.wrap ==> Encodable(p)) {
      EmittedOk(k, p);
    }
    PackIsFaithful(k.cfg.mtu, ps);
    PackIsGreedy(k.cfg.mtu, ps);
    if k.cfg.wrap {
      ParseEachOfEncode(k.cfg.conv, Flush(k).out);
    }
  }

  /** Every segment of every datagram of a flush is one of the flushed segments. */
  lemma OutEmitted(k: Kcb, i: int, j: int)
    requires KcbOk(k) && 0 <= i < |Flush(k).out| && 0 <= j < |Flush(k).out[i]|
    ensures Emitted(k, Admitted(k).buf, Flush(k).out[i][j])
  {
    FlushRoundTrip(k);
    FlushEmitted(k);
    InConcat(Flush(k).out, i, j);
  }

  // ----- any calls in any order -----

  datatype Request =
    | SendRequest(data: Bytes)
    | RecvRequest(len: int)
    | InputRequest(bytes: Bytes)
    | FlushRequest
    | UpdateRequest(now: Time)

  function Exec(k: Kcb, r: Request): Kcb {
    match r
    case SendRequest(data) => k.(snd := k.snd.(queue := Send(k.cfg, k.snd.queue, data).queue))
    case RecvRequest(len) => Recv(k, len).k
    case InputRequest(bytes) => InputBytes(k, bytes).k
    case FlushRequest => Flush(k).k
    case UpdateRequest(now) => Update(k, now).k
  }

  /** The datagrams a call hands to the output callback. */
  function ExecOut(k: Kcb, r: Request): seq<Datagram> {
    match r
    case FlushRequest => Flush(k).out
    case UpdateRequest(now) => Update(k, now).out
    case _ => []
  }

  /** What a call returns, and the data it hands out. */
  datatype Reply = Reply(ret: int, data: Bytes)

  function ExecReply(k: Kcb, r: Request): Reply {
    match r
    case SendRequest(data) => Reply(Send(k.cfg, k.snd.queue, data).ret, [])
    case RecvRequest(len) => Reply(Recv(k, len).ret, Recv(k, len).data)
    case InputRequest(bytes) => Reply(InputBytes(k, bytes).ret, [])
    case _ => Reply(0, [])
  }

  function ExecOutAll(k: Kcb, rs: seq<Request>): seq<Datagram> {
    if rs == [] then [] else ExecOutAll(k, rs[..|rs| - 1]) + ExecOut(ExecAll(k, rs[..|rs| - 1]), rs[|rs| - 1])
  }

  function ExecAll(k: Kcb, rs: seq<Request>): Kcb {
    if rs == [] then k else Exec(ExecAll(k, rs[..|rs| - 1]), rs[|rs| - 1])
  }

  /** The control block as an update at `now` sees it when it comes to flush. */
  function Tuned(k: Kcb, now: Time): Kcb { k.(clock := TickClock(k.cfg, k.clock, now).clock) }

  /** Where a flush can find the control block: after any calls, or inside an update. */
  ghost predicate AtFlush(k: Kcb, k': Kcb) {
    k' == k || exists now: Time :: k' == Tuned(k, now)
  }

  lemma ExecKeeps(k: Kcb, r: Request)
    requires KcbOk(k) && k.cfg.wrap
    ensures KcbOk(Exec(k, r)) && Exec(k, r).cfg == k.cfg
  {
    match r
    case SendRequest(data) => SendKeeps(k, data);
    case RecvRequest(len) => RecvKeeps(k, len);
    case InputRequest(bytes) => InputBytesKeeps(k, bytes);
    case FlushRequest => FlushKeeps(k);
    case UpdateRequest(now) => UpdateKeeps(k, now);
  }

  lemma ExecSnoc(k: Kcb, rs: seq<Request>, r: Request)
    ensures ExecAll(k, rs + [r]) == Exec(ExecAll(k, rs), r)
    ensures ExecOutAll(k, rs + [r]) == ExecOutAll(k, rs) + ExecOut(ExecAll(k, rs), r)
  {
    assert (rs + [r])[..|rs|] == rs;
  }

  lemma {:induction false} ExecAllKeeps(k: Kcb, rs: seq<Request>)
    requires KcbOk(k) && k.cfg.wrap
    ensures KcbOk(ExecAll(k, rs)) && ExecAll(k, rs).cfg == k.cfg
    decreases |rs|
  {
    if rs != [] {
      ExecAllKeeps(k, rs[..|rs| - 1]);
      ExecKeeps(ExecAll(k, rs[..|rs| - 1]), rs[|rs| - 1]);
    }
  }

  lemma AtFlushKeeps(k: Kcb, k': Kcb)
    requires KcbOk(k) && AtFlush(k, k')
    ensures KcbOk(k') && k'.cfg == k.cfg && k'.probe == k.probe
  {
  }

  /** The structural invariant holds after any sequence of calls, whatever bytes are fed in. */
  lemma AnyCallsKeep(cfg: Config, rs: seq<Request>)
    requires cfg.Valid() && cfg.wrap
    ensures KcbOk(ExecAll(Create(cfg), rs)) && ExecAll(Create(cfg), rs).cfg == cfg
  {
    CreateOk(cfg);
    ExecAllKeeps(Create(cfg), rs);
  }
}
