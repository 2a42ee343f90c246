/** What the acknowledgement walks of the sender achieve, told without the walks: which segments an
    ACK removes and which segments it counts as skipped. */
module Acking {
  import opened Serial
  import opened Wire
  import opened Control
  import opened Structure

  /** Strictly increasing inside half the circle from `base`. */
  ghost predicate Rising(wrap: bool, buf: seq<SndSeg>, base: int) {
    && (forall i :: 0 <= i < |buf| ==> InRange(wrap, buf[i].sn) && 0 <= Off(wrap, buf[i].sn, base) < HALF)
    && (forall i, j :: 0 <= i < j < |buf| ==> Off(wrap, buf[i].sn, base) < Off(wrap, buf[j].sn, base))
  }

  lemma BufferRises(cfg: Config, snd: Snd)
    requires cfg.Valid() && SndOk(cfg, snd)
    ensures Rising(cfg.wrap, snd.buf, snd.una)
  {
  }

  lemma RisingTail(wrap: bool, buf: seq<SndSeg>, base: int)
    requires Rising(wrap, buf, base) && buf != []
    ensures Rising(wrap, buf[1..], base)
  {
  }

  /** The walk of `ikcp_parse_ack` finds every buffered number. */
  lemma {:induction false} FindsBuffered(cfg: Config, buf: seq<SndSeg>, base: int, i: nat)
    requires Rising(cfg.wrap, buf, base) && i < |buf|
    ensures FindSn(cfg, buf, buf[i].sn) == i
    decreases |buf|
  {
    if i > 0 {
      assert Off(cfg.wrap, buf[0].sn, base) < Off(cfg.wrap, buf[i].sn, base);
      DiffIsOffset(cfg.wrap, buf[i].sn, buf[0].sn, base);
      RisingTail(cfg.wrap, buf, base);
      FindsBuffered(cfg, buf[1..], base, i - 1);
    }
  }

  /** A buffered number passes the range test in front of the walk. */
  lemma BufferedIsInFlight(cfg: Config, snd: Snd, i: nat)
    requires cfg.Valid() && SndOk(cfg, snd) && i < |snd.buf|
    ensures InFlight(cfg, snd, snd.buf[i].sn)
  {
    OffZero(cfg.wrap, snd.una, snd.una);
    DiffIsOffset(cfg.wrap, snd.buf[i].sn, snd.una, snd.una);
    DiffIsOffset(cfg.wrap, snd.buf[i].sn, snd.nxt, snd.una);
  }

  /** An ACK removes exactly the segment it names: no other, and that one wherever it stands. */
  lemma AckRemovesExactly(cfg: Config, snd: Snd, sn: int)
    requires cfg.Valid() && SndOk(cfg, snd)
    ensures forall s :: s in ParseAck(cfg, snd, sn).buf <==> s in snd.buf && s.sn != sn
  {
    var buf' := ParseAck(cfg, snd, sn).buf;
    BufferRises(cfg, snd);
    if j :| 0 <= j < |snd.buf| && snd.buf[j].sn == sn {
      BufferedIsInFlight(cfg, snd, j);
      FindsBuffered(cfg, snd.buf, snd.una, j);
      OnlyOnce(cfg.wrap, snd.buf, snd.una, j);
      assert buf' == snd.buf[..j] + snd.buf[j + 1..];
      WithoutOne(snd.buf, j);
    } else {
      assert buf' == snd.buf;
    }
  }

  lemma OnlyOnce(wrap: bool, buf: seq<SndSeg>, base: int, j: nat)
    requires Rising(wrap, buf, base) && j < |buf|
    ensures forall i :: 0 <= i < |buf| && buf[i].sn == buf[j].sn ==> i == j
  {
  }

  lemma WithoutOne(buf: seq<SndSeg>, j: nat)
    requires j < |buf| && forall i :: 0 <= i < |buf| && buf[i].sn == buf[j].sn ==> i == j
    ensures forall s :: s in buf[..j] + buf[j + 1..] <==> s in buf && s.sn != buf[j].sn
  {
    var r := buf[..j] + buf[j + 1..];
    forall s | s in buf && s.sn != buf[j].sn ensures s in r {
      var i :| 0 <= i < |buf| && buf[i] == s;
      assert r[if i < j then i else i - 1] == s;
    }
    forall s | s in r ensures s in buf && s.sn != buf[j].sn {
      var i :| 0 <= i < |r| && r[i] == s;
      assert buf[if i < j then i else i + 1] == s;
    }
  }

  /** What one incoming segment frees: the leading segments before its `una`, and the one an ACK names. The
      oldest that is left, or the next number if none is, becomes `snd_una`. */
  ghost predicate Freed(cfg: Config, snd: Snd, p: Packet, snd': Snd) {
    && snd'.una == (if snd'.buf == [] then snd.nxt else snd'.buf[0].sn)
    && exists n: nat ::
         && n <= |snd.buf|
         && (forall i :: 0 <= i < n ==> Diff(cfg.wrap, p.una, snd.buf[i].sn) > 0)
         && (n < |snd.buf| ==> Diff(cfg.wrap, p.una, snd.buf[n].sn) <= 0)
         && forall s :: s in snd'.buf <==> s in snd.buf[n..] && !(p.cmd == CMD_ACK && s.sn == p.sn)
  }

  lemma AcksFree(cfg: Config, snd: Snd, p: Packet)
    requires cfg.Valid() && SndOk(cfg, snd)
    ensures Freed(cfg, snd, p, InputSnd(cfg, snd, p))
  {
    var n := ParseUnaDrops(cfg, snd, p.una);
    UnaStepKeeps(cfg, snd, p.una);
    if p.cmd == CMD_ACK { AckRemovesExactly(cfg, ShrinkBuf(ParseUna(cfg, snd, p.una)), p.sn); }
  }

  /** Sent before `sn`, and no later than `ts`. */
  predicate Skipped(wrap: bool, base: int, s: SndSeg, sn: int, ts: int) {
    Off(wrap, s.sn, base) < Off(wrap, sn, base) && TimeDiff(ts, s.ts) >= 0
  }

  function Bumped(wrap: bool, base: int, s: SndSeg, sn: int, ts: int): SndSeg {
    if Skipped(wrap, base, s, sn, ts) then s.(fastack := U32(s.fastack + 1)) else s
  }

  /** Fast-acknowledgement counting touches exactly the skipped segments, wherever the walk stops. */
  lemma {:induction false} CountsSkipped(cfg: Config, buf: seq<SndSeg>, base: int, sn: int, ts: int)
    requires Rising(cfg.wrap, buf, base) && InRange(cfg.wrap, sn) && 0 <= Off(cfg.wrap, sn, base) < HALF
    ensures var r := BumpSkipped(cfg, buf, sn, ts);
            |r| == |buf| && forall i :: 0 <= i < |buf| ==> r[i] == Bumped(cfg.wrap, base, buf[i], sn, ts)
    decreases |buf|
  {
    if buf != [] {
      DiffIsOffset(cfg.wrap, sn, buf[0].sn, base);
      SameOffSameNumber(cfg.wrap, sn, buf[0].sn, base);
      RisingTail(cfg.wrap, buf, base);
      CountsSkipped(cfg, buf[1..], base, sn, ts);
    }
  }
}
