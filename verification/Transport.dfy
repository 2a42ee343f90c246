/** Length-prefixed frames over stream-mode KCP: the splitting writer, the incremental reader, and
    what the two promise end to end. */
module Transport {
  import opened Serial
  import opened Wire
  import opened Control
  import opened Structure
  import opened System
  import opened Protocol
  import opened Refinement
  import E = Endpoint

  // ----- frames -----

  /** A payload behind its length, least significant byte first. */
  function Frame(p: Bytes): Bytes {
    Enc32(|p|) + p
  }

  function Frames(ps: seq<Bytes>): Bytes {
    if ps == [] then [] else Frame(ps[0]) + Frames(ps[1..])
  }

  ghost predicate Framable(ps: seq<Bytes>) {
    forall i :: 0 <= i < |ps| ==> |ps[i]| < M32 - 4
  }

  // ----- the writer -----

  const MAX_WRITE: int := 131072

  /** The write loop of `sendChunk`: at most 128 KB to a call, stopping at a refusal. */
  function WriteAll(cfg: Config, queue: seq<Frag>, bytes: Bytes): seq<Frag>
    decreases |bytes|
  {
    if bytes == [] then queue
    else
      var n := Min(MAX_WRITE, |bytes|);
      var r := Send(cfg, queue, bytes[..n]);
      if r.ret < 0 then r.queue else WriteAll(cfg, r.queue, bytes[n..])
  }

  /** A configuration under which one write never needs 128 fragments. */
  ghost predicate Ample(cfg: Config) {
    cfg.stream && MAX_WRITE <= 127 * cfg.Mss()
  }

  /** A write of at most 128 KB is never refused and never cut short. */
  lemma WholeWrite(cfg: Config, queue: seq<Frag>, data: Bytes)
    requires Ample(cfg) && |data| <= MAX_WRITE
    ensures Send(cfg, queue, data).ret == |data|
  {
    var rest := data[Extension(cfg, queue, |data|)..];
    FewFragments(cfg.Mss(), |rest|);
  }

  lemma FewFragments(mss: int, len: nat)
    requires mss > 0 && len <= 127 * mss
    ensures FragCount(mss, len) < WND_RCV
  {
    var q := (len + mss - 1) / mss;
    assert len + mss - 1 == q * mss + (len + mss - 1) % mss;
    assert (q - 127) * mss <= mss - 1;
  }

  /** The loop queues exactly the bytes it was given. */
  lemma {:induction false} WriteAllQueues(cfg: Config, queue: seq<Frag>, bytes: Bytes)
    requires Ample(cfg)
    ensures Flatten(WriteAll(cfg, queue, bytes)) == Flatten(queue) + bytes
    decreases |bytes|
  {
    if bytes != [] {
      var n := Min(MAX_WRITE, |bytes|);
      var part := bytes[..n];
      WholeWrite(cfg, queue, part);
      SendConserves(cfg, queue, part);
      assert part[..n] == part;
      WriteAllQueues(cfg, Send(cfg, queue, part).queue, bytes[n..]);
      assert bytes == part + bytes[n..];
      Assoc(Flatten(queue), part, bytes[n..]);
    }
  }

  /** How many of `n` bytes the loop counts: the size is converted to a signed 32-bit integer, and a
      negative one ends the loop at once. */
  function Counted(n: nat): (m: nat)
    ensures m <= n
  {
    Max(I32(U32(n)), 0)
  }

  /** The whole frame is written exactly when it is shorter than 2^31 bytes. */
  lemma WholeFrameIff(payload: Bytes)
    ensures Frame(payload)[..Counted(|Frame(payload)|)] == Frame(payload) <==> |payload| < HALF - 4
  {
  }

  // ----- the writes as calls -----

  /** The calls `sendChunk` makes for `bytes`: 128 KB at a time. */
  function Pieces(bytes: Bytes): seq<Bytes>
    decreases |bytes|
  {
    if bytes == [] then []
    else
      var n := Min(MAX_WRITE, |bytes|);
      [bytes[..n]] + Pieces(bytes[n..])
  }

  /** The pieces are the bytes in order, 131072 to each but the last, which has at least one. */
  lemma {:induction false} PieceSizes(bytes: Bytes)
    ensures Concat(Pieces(bytes)) == bytes
    ensures var ps := Pieces(bytes);
            (forall i :: 0 <= i < |ps| - 1 ==> |ps[i]| == 131072) && (ps != [] ==> 1 <= |ps[|ps| - 1]| <= 131072)
    decreases |bytes|
  {
    if bytes != [] {
      var n := Min(MAX_WRITE, |bytes|);
      PieceSizes(bytes[n..]);
      assert Pieces(bytes)[1..] == Pieces(bytes[n..]);
      assert bytes[..n] + bytes[n..] == bytes;
      if n == |bytes| { assert Pieces(bytes[n..]) == []; }
    }
  }

  /** One `ikcp_send` after the other. */
  function SendEach(cfg: Config, queue: seq<Frag>, parts: seq<Bytes>): seq<Frag>
    decreases |parts|
  {
    if parts == [] then queue else SendEach(cfg, Send(cfg, queue, parts[0]).queue, parts[1..])
  }

  /** The write loop is the sends of its pieces. */
  lemma {:induction false} WritesPieces(cfg: Config, queue: seq<Frag>, bytes: Bytes)
    requires Ample(cfg)
    ensures WriteAll(cfg, queue, bytes) == SendEach(cfg, queue, Pieces(bytes))
    decreases |bytes|
  {
    if bytes != [] {
      var n := Min(MAX_WRITE, |bytes|);
      WriteStep(cfg, queue, bytes);
      WritesPieces(cfg, Send(cfg, queue, bytes[..n]).queue, bytes[n..]);
      assert Pieces(bytes)[1..] == Pieces(bytes[n..]);
    }
  }

  lemma {:induction false} SendEachSnoc(cfg: Config, queue: seq<Frag>, parts: seq<Bytes>, p: Bytes)
    ensures SendEach(cfg, queue, parts + [p]) == Send(cfg, SendEach(cfg, queue, parts), p).queue
    decreases |parts|
  {
    if parts == [] {
      assert (parts + [p])[1..] == [];
    } else {
      assert (parts + [p])[1..] == parts[1..] + [p];
      SendEachSnoc(cfg, Send(cfg, queue, parts[0]).queue, parts[1..], p);
    }
  }

  function SendRequests(parts: seq<Bytes>): (rs: seq<Request>)
    ensures |rs| == |parts| && forall i :: 0 <= i < |rs| ==> rs[i] == SendRequest(parts[i])
  {
    seq(|parts|, i requires 0 <= i < |parts| => SendRequest(parts[i]))
  }

  /** The calls `sendChunk` makes for `raw`: its pieces, then a flush. */
  function ChunkRequests(raw: Bytes): seq<Request> { SendRequests(Pieces(raw)) + [FlushRequest] }

  function WithQueue(k: Kcb, queue: seq<Frag>): Kcb { k.(snd := k.snd.(queue := queue)) }

  lemma SendRuns(k: Kcb, queue: seq<Frag>, p: Bytes)
    ensures Exec(WithQueue(k, queue), SendRequest(p)) == WithQueue(k, Send(k.cfg, queue, p).queue)
    ensures ExecOut(WithQueue(k, queue), SendRequest(p)) == []
  {
  }

  lemma RequestsSnoc(parts: seq<Bytes>, p: Bytes)
    ensures SendRequests(parts + [p]) == SendRequests(parts) + [SendRequest(p)]
  {
  }

  lemma {:induction false} SendsRun(k: Kcb, parts: seq<Bytes>)
    ensures ExecAll(k, SendRequests(parts)) == WithQueue(k, SendEach(k.cfg, k.snd.queue, parts))
    ensures ExecOutAll(k, SendRequests(parts)) == []
    decreases |parts|
  {
    if parts != [] {
      var front, p := parts[..|parts| - 1], parts[|parts| - 1];
      PrefixSnoc(parts, |parts| - 1);
      WholePrefix(parts);
      SendsRun(k, front);
      SendEachSnoc(k.cfg, k.snd.queue, front, p);
      RequestsSnoc(front, p);
      ExecSnoc(k, SendRequests(front), SendRequest(p));
      SendRuns(k, SendEach(k.cfg, k.snd.queue, front), p);
    }
  }

  /** With the transport's settings, writing and flushing is those calls. */
  lemma ChunkRuns(k: Kcb, raw: Bytes)
    requires Ample(k.cfg)
    ensures var f := Flush(WithQueue(k, WriteAll(k.cfg, k.snd.queue, raw)));
            ExecAll(k, ChunkRequests(raw)) == f.k && ExecOutAll(k, ChunkRequests(raw)) == f.out
  {
    SendsRun(k, Pieces(raw));
    WritesPieces(k.cfg, k.snd.queue, raw);
    ExecSnoc(k, SendRequests(Pieces(raw)), FlushRequest);
    NoneBefore(Flush(WithQueue(k, WriteAll(k.cfg, k.snd.queue, raw))).out);
  }

  lemma NoneBefore<T>(s: seq<T>)
    ensures [] + s == s
  {
  }

  /** What writing `raw` and flushing does to a connection: its state and output are those of the flush, and
      with the transport's settings those of the `ikcp_send` calls and the flush, all bytes queued. */
  ghost predicate ChunkSent(k: Kcb, raw: Bytes, k': Kcb, base: seq<Bytes>, sent: seq<Bytes>) {
    var queue := WriteAll(k.cfg, k.snd.queue, raw);
    var f := Flush(WithQueue(k, queue));
    && k' == f.k && sent == base + EncodeEach(f.out)
    && (Ample(k.cfg) ==>
          Flatten(queue) == Flatten(k.snd.queue) + raw && E.Served(k, ChunkRequests(raw), k', base, sent))
  }

  lemma ChunkSentBy(k: Kcb, raw: Bytes, base: seq<Bytes>)
    requires KcbOk(WithQueue(k, WriteAll(k.cfg, k.snd.queue, raw)))
    ensures var f := Flush(WithQueue(k, WriteAll(k.cfg, k.snd.queue, raw)));
            KcbOk(f.k) && ChunkSent(k, raw, f.k, base, base + EncodeEach(f.out))
  {
    FlushKeeps(WithQueue(k, WriteAll(k.cfg, k.snd.queue, raw)));
    if Ample(k.cfg) {
      WriteAllQueues(k.cfg, k.snd.queue, raw);
      ChunkRuns(k, raw);
    }
  }

  /** Write `raw` and flush: the object stays valid and keeps its buffers. */
  method SendRaw(kcp: E.Kcp, raw: Bytes)
    requires kcp.Valid()
    modifies kcp`snd, kcp`nsndQue, kcp`nsndBuf, kcp`ackcount, kcp`probe, kcp`cc, kcp`sent, kcp.buffer
    ensures kcp.Valid() && ChunkSent(old(kcp.State()), raw, kcp.State(), old(kcp.sent), kcp.sent)
  {
    ghost var k := kcp.State();
    QueueRaw(kcp, raw);
    ChunkSentBy(k, raw, kcp.sent);
    kcp.Flush();
  }

  /** The writes alone. */
  method QueueRaw(kcp: E.Kcp, raw: Bytes)
    requires kcp.Valid()
    modifies kcp`snd, kcp`nsndQue
    ensures kcp.Valid() && kcp.State() == WithQueue(old(kcp.State()), WriteAll(kcp.cfg, old(kcp.snd.queue), raw))
  {
    WriteFrame(kcp, raw);
    QueueKeeps(old(kcp.State()), kcp.snd.queue);
  }

  /** `sendChunk` on one stream: prefix the length, write what the count reaches, flush. */
  method SendChunk(kcp: E.Kcp, payload: Bytes)
    requires kcp.Valid()
    modifies kcp, kcp.buffer
    ensures kcp.Valid() && kcp.buffer == old(kcp.buffer) && kcp.acklist == old(kcp.acklist)
    ensures ChunkSent(old(kcp.State()), Frame(payload)[..Counted(|Frame(payload)|)], kcp.State(), old(kcp.sent), kcp.sent)
  {
    var framed := Enc32(|payload|) + payload;
    SendRaw(kcp, framed[..Counted(|framed|)]);
  }

  /** `sent` bytes of `raw` have been passed on and the rest would complete the write. */
  ghost predicate Writing(cfg: Config, start: seq<Frag>, queue: seq<Frag>, raw: Bytes, sent: int) {
    && 0 <= sent <= |raw| && (forall i :: 0 <= i < |queue| ==> FragOk(cfg, queue[i]))
    && WriteAll(cfg, queue, raw[sent..]) == WriteAll(cfg, start, raw)
  }

  /** One more write: after a refusal the loop is over, otherwise it goes on behind the bytes it passed. */
  lemma WritesOn(cfg: Config, start: seq<Frag>, queue: seq<Frag>, raw: Bytes, sent: int)
    requires Writing(cfg, start, queue, raw, sent) && sent < |raw|
    ensures var n := Min(MAX_WRITE, |raw| - sent); var r := Send(cfg, queue, raw[sent..sent + n]);
            && (forall i :: 0 <= i < |r.queue| ==> FragOk(cfg, r.queue[i]))
            && (if r.ret < 0 then r.queue == WriteAll(cfg, start, raw) else Writing(cfg, start, r.queue, raw, sent + n))
  {
    var n := Min(MAX_WRITE, |raw| - sent);
    SliceAgain(raw, sent, n);
    SendFits(cfg, queue, raw[sent..sent + n]);
    WriteTurn(cfg, queue, raw[sent..], raw[sent..sent + n], raw[sent + n..]);
  }

  /** One turn of the loop as a step of the function. */
  lemma WriteTurn(cfg: Config, queue: seq<Frag>, bytes: Bytes, head: Bytes, tail: Bytes)
    requires bytes != [] && head == bytes[..Min(MAX_WRITE, |bytes|)] && tail == bytes[Min(MAX_WRITE, |bytes|)..]
    ensures var r := Send(cfg, queue, head);
            WriteAll(cfg, queue, bytes) == if r.ret < 0 then r.queue else WriteAll(cfg, r.queue, tail)
  {
  }

  lemma SliceAgain<T>(s: seq<T>, i: nat, n: nat)
    requires i + n <= |s|
    ensures s[i..][..n] == s[i..i + n] && s[i..][n..] == s[i + n..]
  {
  }

  lemma WriteStep(cfg: Config, queue: seq<Frag>, bytes: Bytes)
    requires Ample(cfg) && bytes != []
    ensures var n := Min(MAX_WRITE, |bytes|); var r := Send(cfg, queue, bytes[..n]);
            r.ret == n && WriteAll(cfg, queue, bytes) == WriteAll(cfg, r.queue, bytes[n..])
  {
    WholeWrite(cfg, queue, bytes[..Min(MAX_WRITE, |bytes|)]);
  }

  /** A queue of fragments that fit keeps the control block sound. */
  lemma QueueKeeps(k: Kcb, queue: seq<Frag>)
    requires KcbOk(k) && forall i :: 0 <= i < |queue| ==> FragOk(k.cfg, queue[i])
    ensures KcbOk(k.(snd := k.snd.(queue := queue)))
  {
  }

  /** The write loop. */
  method WriteFrame(kcp: E.Kcp, raw: Bytes)
    requires kcp.SndCounters()
    requires forall i :: 0 <= i < |kcp.snd.queue| ==> FragOk(kcp.cfg, kcp.snd.queue[i])
    modifies kcp`snd, kcp`nsndQue
    ensures kcp.SndCounters() && kcp.snd == old(kcp.snd).(queue := WriteAll(kcp.cfg, old(kcp.snd.queue), raw))
    ensures forall i :: 0 <= i < |kcp.snd.queue| ==> FragOk(kcp.cfg, kcp.snd.queue[i])
  {
    var sent := 0;
    while sent < |raw|
      invariant kcp.SndCounters() && kcp.snd == old(kcp.snd).(queue := kcp.snd.queue)
      invariant Writing(kcp.cfg, old(kcp.snd.queue), kcp.snd.queue, raw, sent)
    {
      var toSend := Min(MAX_WRITE, |raw| - sent);
      WritesOn(kcp.cfg, old(kcp.snd.queue), kcp.snd.queue, raw, sent);
      var ret := kcp.Send(raw[sent..sent + toSend]);
      if ret < 0 {
        return;
      }
      sent := sent + toSend;
    }
  }

  // ----- the reader -----

  /** What the front of the buffer holds: no complete frame yet, a frame, or a length so large that the
      test for completeness, which adds 4 to it in 32 bits, passes too soon and the copy reads past the
      buffer. */
  datatype Front = Wait | Whole(payload: Bytes, rest: Bytes) | Overread

  function FrontOf(b: Bytes): (f: Front)
    ensures f.Whole? ==> |f.rest| < |b|
  {
    if |b| < 4 then Wait
    else
      var len := Dec32(b, 0);
      if |b| < U32(4 + len) then Wait
      else if |b| < 4 + len then Overread
      else Whole(b[4..4 + len], b[4 + len..])
  }

  /** Complete frames at the front of `b`, and what is left. */
  datatype Split = Split(frames: seq<Bytes>, rest: Bytes, overrun: bool)

  function TakeFrames(b: Bytes): Split
    decreases |b|
  {
    match FrontOf(b)
    case Wait => Split([], b, false)
    case Overread => Split([], b, true)
    case Whole(p, rest) =>
      var s := TakeFrames(rest);
      s.(frames := [p] + s.frames)
  }

  lemma NoLarger(n: nat)
    ensures U32(n) <= n
  {
  }

  /** Copy `n` bytes from offset `at`; false at the first byte that is not there. */
  method CopyOut(b: Bytes, at: nat, n: nat) returns (ok: bool, data: Bytes)
    requires at <= |b|
    ensures ok <==> at + n <= |b|
    ensures ok ==> data == b[at..at + n]
  {
    data := [];
    for i := 0 to n
      invariant at + i <= |b| && data == b[at..at + i]
    {
      if at + i >= |b| { return false, data; }
      data := data + [b[at + i]];
    }
    ok := true;
  }

  /** The tests and the copy of one turn of the loop. */
  method ReadFront(b: Bytes) returns (f: Front)
    ensures f == FrontOf(b)
  {
    if |b| < 4 { return Wait; }
    var len := Dec32(b, 0);
    if |b| < U32(4 + len) { return Wait; }
    var ok, payload := CopyOut(b, 4, len);
    if !ok { return Overread; }
    f := Whole(payload, b[4 + len..]);
  }

  /** With `done` taken, splitting `b` completes `all`. */
  ghost predicate Splitting(all: Split, done: seq<Bytes>, b: Bytes) {
    TakeFrames(b).(frames := done + TakeFrames(b).frames) == all
  }

  lemma SplitsOn(all: Split, done: seq<Bytes>, b: Bytes)
    requires Splitting(all, done, b)
    ensures FrontOf(b).Whole? ==> Splitting(all, done + [FrontOf(b).payload], FrontOf(b).rest)
    ensures !FrontOf(b).Whole? ==> all == Split(done, b, FrontOf(b).Overread?)
  {
    if FrontOf(b).Whole? {
      Assoc(done, [FrontOf(b).payload], TakeFrames(FrontOf(b).rest).frames);
    }
  }

  /** The reassembly buffer of one stream and the payloads handed to the callback. */
  class FrameReader {
    var buffer: Bytes
    var received: seq<Bytes>

    constructor ()
      ensures buffer == [] && received == []
    {
      buffer, received := [], [];
    }

    /** Hand over the complete frames at the front of the buffer. */
    method TakeComplete() returns (ok: bool)
      modifies this
      ensures var s := TakeFrames(old(buffer));
              && ok == !s.overrun
              && buffer == s.rest && received == old(received) + s.frames
    {
      ghost var all := TakeFrames(buffer);
      ghost var done: seq<Bytes> := [];
      var f := ReadFront(buffer);
      while f.Whole?
        invariant received == old(received) + done && Splitting(all, done, buffer) && f == FrontOf(buffer)
        decreases |buffer|
      {
        SplitsOn(all, done, buffer);
        Assoc(old(received), done, [f.payload]);
        received := received + [f.payload];
        done := done + [f.payload];
        buffer := f.rest;
        f := ReadFront(buffer);
      }
      SplitsOn(all, done, buffer);
      ok := !f.Overread?;
    }

    /** What the loop does with the bytes one `ikcp_recv` returned. */
    method OnData(chunk: Bytes) returns (ok: bool)
      modifies this
      ensures var s := TakeFrames(old(buffer) + chunk);
              && ok == !s.overrun
              && buffer == s.rest && received == old(received) + s.frames
    {
      buffer := buffer + chunk;
      ok := TakeComplete();
    }
  }

  // ----- reading what was written -----

  lemma FrameRead(p: Bytes, tail: Bytes)
    requires |p| < M32 - 4
    ensures var b := Frame(p) + tail;
            && Dec32(b, 0) == |p| && |b| >= 4 + |p|
            && b[4..4 + |p|] == p && b[4 + |p|..] == tail
  {
    var b := Frame(p) + tail;
    assert b[0..4] == Enc32(|p|);
    Dec32OfEnc32(b, 0, |p|);
  }

  lemma FrameCut(p: Bytes, b: Bytes)
    requires |p| < M32 - 4 && b <= Frame(p) && 4 <= |b|
    ensures Dec32(b, 0) == |p|
  {
    assert b[0..4] == Frame(p)[0..4] == Enc32(|p|);
    Dec32OfEnc32(b, 0, |p|);
  }

  /** What is left of a stream is the beginning of the next frame, never all of it. */
  ghost predicate IsLeftover(ps: seq<Bytes>, m: int, rest: Bytes) {
    && 0 <= m <= |ps|
    && (m < |ps| ==> rest < Frame(ps[m]))
    && (m == |ps| ==> rest == [])
  }

  lemma TakeOne(p: Bytes, tail: Bytes)
    requires |p| < M32 - 4
    ensures TakeFrames(Frame(p) + tail) == TakeFrames(tail).(frames := [p] + TakeFrames(tail).frames)
  {
    FrameRead(p, tail);
  }

  lemma TakeNone(p: Bytes, b: Bytes)
    requires |p| < M32 - 4 && b < Frame(p)
    ensures TakeFrames(b) == Split([], b, false)
  {
    if |b| >= 4 {
      FrameCut(p, b);
    }
  }

  /** Any prefix of a stream of frames reads as a prefix of the payloads. */
  lemma {:induction false} ReadsPrefix(ps: seq<Bytes>, b: Bytes)
    requires Framable(ps) && b <= Frames(ps)
    ensures var s := TakeFrames(b); !s.overrun && s.frames <= ps && IsLeftover(ps, |s.frames|, s.rest)
    decreases |ps|
  {
    if ps != [] {
      var f := Frame(ps[0]);
      if |b| >= |f| {
        var tail := b[|f|..];
        assert b == f + tail;
        assert tail <= Frames(ps[1..]) by {
          assert Frames(ps)[|f|..] == Frames(ps[1..]);
        }
        TakeOne(ps[0], tail);
        ReadsPrefix(ps[1..], tail);
        assert ps == [ps[0]] + ps[1..];
      } else {
        assert b == Frames(ps)[..|b|] == f[..|b|];
        TakeNone(ps[0], b);
      }
    }
  }

  /** Reading `a + c` is reading `a` and then what was left of it with `c`. */
  ghost predicate Resumes(a: Bytes, c: Bytes) {
    var s := TakeFrames(a);
    var t := TakeFrames(s.rest + c);
    TakeFrames(a + c) == Split(s.frames + t.frames, t.rest, t.overrun)
  }

  lemma AppendFront(a: Bytes, c: Bytes)
    requires FrontOf(a).Whole?
    ensures FrontOf(a + c) == Whole(FrontOf(a).payload, FrontOf(a).rest + c)
  {
    var n := 4 + Dec32(a, 0);
    assert Dec32(a + c, 0) == Dec32(a, 0);
    assert (a + c)[4..n] == a[4..n] && (a + c)[n..] == a[n..] + c;
  }

  lemma ResumesFront(a: Bytes, c: Bytes)
    requires FrontOf(a).Whole? && Resumes(FrontOf(a).rest, c)
    ensures Resumes(a, c)
  {
    AppendFront(a, c);
    var s := TakeFrames(FrontOf(a).rest);
    Assoc([FrontOf(a).payload], s.frames, TakeFrames(s.rest + c).frames);
  }

  /** Reading can be interrupted anywhere. */
  lemma {:induction false} ReadsOn(a: Bytes, c: Bytes)
    requires !TakeFrames(a).overrun
    ensures Resumes(a, c)
    decreases |a|
  {
    if FrontOf(a).Whole? {
      ReadsOn(FrontOf(a).rest, c);
      ResumesFront(a, c);
    } else {
      assert [] + TakeFrames(a + c).frames == TakeFrames(a + c).frames;
    }
  }

  /** A reader fed chunk by chunk. */
  function ReadEach(chunks: seq<Bytes>): Split {
    if chunks == [] then Split([], [], false)
    else
      var s := ReadEach(chunks[..|chunks| - 1]);
      if s.overrun then s
      else
        var t := TakeFrames(s.rest + chunks[|chunks| - 1]);
        Split(s.frames + t.frames, t.rest, t.overrun)
  }

  lemma {:induction false} ReadEachIsWhole(chunks: seq<Bytes>, ps: seq<Bytes>)
    requires Framable(ps) && Concat(chunks) <= Frames(ps)
    ensures ReadEach(chunks) == TakeFrames(Concat(chunks)) && !ReadEach(chunks).overrun
    decreases |chunks|
  {
    if chunks != [] {
      var front, last := chunks[..|chunks| - 1], chunks[|chunks| - 1];
      assert chunks == front + [last];
      ConcatSnoc(front, last);
      assert Concat(front) <= Frames(ps);
      ReadEachIsWhole(front, ps);
      ReadsOn(Concat(front), last);
      ReadsPrefix(ps, Concat(chunks));
    }
  }

  /** Framing: however the bytes of a stream of frames come out, the callback sees a prefix of the
      payloads in order, and the leftover is a proper prefix of the next frame. */
  lemma FramesSurvive(ps: seq<Bytes>, chunks: seq<Bytes>)
    requires Framable(ps) && Concat(chunks) <= Frames(ps)
    ensures var s := ReadEach(chunks); !s.overrun && s.frames <= ps && IsLeftover(ps, |s.frames|, s.rest)
  {
    ReadEachIsWhole(chunks, ps);
    ReadsPrefix(ps, Concat(chunks));
  }

  /** However its frame is cut up on the way, the payload reads back. */
  ghost predicate AlwaysReadsBack(p: Bytes) {
    forall chunks: seq<Bytes> :: Concat(chunks) == Frame(p) ==> ReadEach(chunks) == Split([p], [], false)
  }

  lemma ReadsBack(p: Bytes, chunks: seq<Bytes>)
    requires |p| < M32 - 4 && Concat(chunks) == Frame(p)
    ensures ReadEach(chunks) == Split([p], [], false)
  {
    OneFrame(p);
    ReadEachIsWhole(chunks, [p]);
    TakeOne(p, []);
    assert Frame(p) + [] == Frame(p) && [p] + [] == [p];
  }

  lemma OneFrame(p: Bytes)
    ensures Frames([p]) == Frame(p)
  {
    assert Frames([p]) == Frame(p) + Frames([]);
  }

  /** A payload always reads back exactly when it is shorter than 2^32 - 4 bytes. */
  lemma FrameReadsBackIff(p: Bytes)
    ensures AlwaysReadsBack(p) <==> |p| < M32 - 4
  {
    if |p| < M32 - 4 {
      forall chunks: seq<Bytes> | Concat(chunks) == Frame(p) ensures ReadEach(chunks) == Split([p], [], false) {
        ReadsBack(p, chunks);
      }
    } else {
      var chunks := Spoilt(p);
    }
  }

  /** Too long a payload and a way to cut its frame up so that it does not read back. */
  lemma Spoilt(p: Bytes) returns (chunks: seq<Bytes>)
    requires |p| >= M32 - 4
    ensures Concat(chunks) == Frame(p) && ReadEach(chunks) != Split([p], [], false)
  {
    var b := Frame(p);
    if |p| < M32 {
      chunks := [b[..4], b[4..]];
      ConcatTwo(b[..4], b[4..]);
      assert b[..4] + b[4..] == b;
      var head := b[..4];
      assert head[0..4] == Enc32(|p|);
      Dec32OfEnc32(head, 0, |p|);
      ReadFirst(chunks);
    } else {
      chunks := [b];
      assert Concat(chunks) == b + Concat([]) == b;
      ReadSingle(b);
      NoLarger(4 + Dec32(b, 0));
      assert |TakeFrames(b).frames[0]| < M32;
    }
  }

  lemma ConcatTwo(x: Bytes, y: Bytes)
    ensures Concat([x, y]) == x + y
  {
    assert [x, y][1..] == [y];
    assert Concat([y]) == y + Concat([]) == y;
  }

  lemma ReadSingle(b: Bytes)
    ensures ReadEach([b]) == TakeFrames(b)
  {
    assert [b][..0] == [];
    assert ReadEach([]) == Split([], [], false);
    assert [] + b == b;
    var none: seq<Bytes> := [];
    assert none + TakeFrames(b).frames == TakeFrames(b).frames;
  }

  /** An overrun in the first chunk is final. */
  lemma ReadFirst(chunks: seq<Bytes>)
    requires |chunks| == 2 && TakeFrames(chunks[0]).overrun
    ensures ReadEach(chunks).overrun
  {
    assert chunks[..1] == [chunks[0]];
    ReadSingle(chunks[0]);
  }

  // ----- end to end -----

  lemma PiecesJoin(bytes: Bytes)
    ensures Concat(Pieces(bytes)) == bytes
    ensures forall i :: 0 <= i < |Pieces(bytes)| ==> |Pieces(bytes)[i]| <= MAX_WRITE
  {
    PieceSizes(bytes);
  }

  /** The sends of a list of payloads, one `sendChunk` each. */
  function Writes(ps: seq<Bytes>): seq<Bytes> {
    if ps == [] then [] else Pieces(Frame(ps[0])) + Writes(ps[1..])
  }

  lemma {:induction false} WritesJoin(ps: seq<Bytes>)
    ensures Concat(Writes(ps)) == Frames(ps)
    ensures forall i :: 0 <= i < |Writes(ps)| ==> |Writes(ps)[i]| <= MAX_WRITE
  {
    if ps != [] {
      WritesJoin(ps[1..]);
      PiecesJoin(Frame(ps[0]));
      ConcatAppend(Pieces(Frame(ps[0])), Writes(ps[1..]));
    }
  }

  /** The data of every `ikcp_send` at the first endpoint, in order. */
  function Sends(es: seq<Event>): seq<Bytes> {
    if es == [] then []
    else
      var e := es[|es| - 1];
      Sends(es[..|es| - 1]) + if e.AtA? && e.call.SendCall? then [e.call.data] else []
  }

  lemma AcceptsWhole(bytes: bool, me: End, peer: End, data: Bytes)
    requires Ample(me.k.cfg) && |data| <= MAX_WRITE
    ensures Act(bytes, me, peer, SendCall(data)).acc == me.acc + [data]
  {
    WholeWrite(me.k.cfg, me.k.snd.queue, data);
    assert data[..|data|] == data;
  }

  lemma AccOnlyBySend(me: End, peer: End, c: Call)
    requires !c.SendCall?
    ensures Act(false, me, peer, c).acc == me.acc
  {
  }

  /** With ample settings, what the endpoint has accepted is exactly what it was given. */
  lemma {:induction false} AcceptsAll(ca: Config, cb: Config, es: seq<Event>)
    requires Ample(ca) && forall i :: 0 <= i < |Sends(es)| ==> |Sends(es)[i]| <= MAX_WRITE
    ensures Run(false, Init(ca, cb), es).a.acc == Sends(es)
    decreases |es|
  {
    if es != [] {
      var front, e := es[..|es| - 1], es[|es| - 1];
      assert forall i :: 0 <= i < |Sends(front)| ==> Sends(front)[i] == Sends(es)[i];
      AcceptsAll(ca, cb, front);
      RunConfig(Init(ca, cb), front);
      var s := Run(false, Init(ca, cb), front);
      if e.AtA? {
        if e.call.SendCall? {
          assert Sends(es)[|Sends(front)|] == e.call.data;
          AcceptsWhole(false, s.a, s.b, e.call.data);
        } else {
          AccOnlyBySend(s.a, s.b, e.call);
        }
      }
    }
  }

  /** The events `sendChunk` makes at the first endpoint for `raw`. */
  function SendEvents(parts: seq<Bytes>): (es: seq<Event>)
    ensures |es| == |parts| && forall i :: 0 <= i < |es| ==> es[i] == AtA(SendCall(parts[i]))
  {
    seq(|parts|, i requires 0 <= i < |parts| => AtA(SendCall(parts[i])))
  }

  function ChunkEvents(raw: Bytes): seq<Event> { SendEvents(Pieces(raw)) + [AtA(FlushCall)] }

  lemma {:induction false} SendsAppend(es: seq<Event>, fs: seq<Event>)
    ensures Sends(es + fs) == Sends(es) + Sends(fs)
    decreases |fs|
  {
    if fs == [] {
      assert es + fs == es;
    } else {
      assert (es + fs)[..|es + fs| - 1] == es + fs[..|fs| - 1];
      SendsAppend(es, fs[..|fs| - 1]);
    }
  }

  lemma {:induction false} SendsOfEvents(parts: seq<Bytes>)
    ensures Sends(SendEvents(parts)) == parts
    decreases |parts|
  {
    if parts != [] {
      var n := |parts| - 1;
      SendsOfEvents(parts[..n]);
      assert SendEvents(parts)[..n] == SendEvents(parts[..n]);
    }
  }

  lemma ChunkSends(raw: Bytes)
    ensures Sends(ChunkEvents(raw)) == Pieces(raw)
  {
    SendsOfEvents(Pieces(raw));
    SendsAppend(SendEvents(Pieces(raw)), [AtA(FlushCall)]);
    var e: seq<Event> := [AtA(FlushCall)];
    assert e[..0] == [] && Sends(e) == [];
  }

  lemma PrefixConcat(xs: seq<Bytes>, ys: seq<Bytes>)
    requires xs <= ys
    ensures Concat(xs) <= Concat(ys)
  {
    ConcatAppend(xs, ys[|xs|..]);
    assert ys == xs + ys[|xs|..];
  }

  /** End to end: the sending side makes the `ikcp_send` calls of `sendChunk` for the payloads `ps`, as far
      as it got, among any other calls on both sides. Over a network that loses, duplicates, delays and
      reorders, with 32-bit serial numbers and raw bytes, the receiving callback sees a prefix of the
      payloads, and the leftover is a proper prefix of the next frame. (`WholeFrameIff` says when
      `sendChunk` makes exactly those calls.) */
  lemma PayloadsArriveInOrder(ca: Config, cb: Config, es: seq<Event>, ps: seq<Bytes>)
    requires Compatible(ca, cb) && FreshRun(Init(ca, cb), es) && Ample(ca) && Framable(ps) && Sends(es) <= Writes(ps)
    ensures var s := ReadEach(Run(true, Init(Wrapping(ca), Wrapping(cb)), es).b.dlv);
            !s.overrun && s.frames <= ps && IsLeftover(ps, |s.frames|, s.rest)
  {
    WritesJoin(ps);
    assert forall i :: 0 <= i < |Sends(es)| ==> Sends(es)[i] == Writes(ps)[i];
    AcceptsAll(ca, cb, es);
    PrefixConcat(Sends(es), Writes(ps));
    WrappedEndToEndSafety(ca, cb, es);
    WrappingRefinesUnbounded(ca, cb, es);
    RunConfig(Init(ca, cb), es);
    FramesSurvive(ps, Run(true, Init(Wrapping(ca), Wrapping(cb)), es).b.dlv);
  }
}
