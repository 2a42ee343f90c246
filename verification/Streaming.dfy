/** Payloads over two `Kcp` objects: `sendChunk` on one, the frame reader on the other, and any other calls
    and deliveries in between. */
module Streaming {
  import opened Serial
  import opened Wire
  import opened Control
  import opened Structure
  import opened System
  import opened Protocol
  import opened Refinement
  import opened Transport
  import opened Connection
  import E = Endpoint

  /** What happens on the connection: a payload is sent by the first side, or any other event. */
  datatype Doing = Chunk(payload: Bytes) | Other(event: Event)

  /** The first side sends through `sendChunk` only, and only payloads whose frames it writes whole. */
  predicate Proper(d: Doing) {
    match d
    case Chunk(p) => |p| < HALF - 4
    case Other(e) => !(e.AtA? && e.call.SendCall?)
  }

  function EventsOf(d: Doing): seq<Event> {
    match d
    case Chunk(p) => ChunkEvents(Frame(p))
    case Other(e) => [e]
  }

  function AllEvents(ds: seq<Doing>): seq<Event> {
    if ds == [] then [] else AllEvents(ds[..|ds| - 1]) + EventsOf(ds[|ds| - 1])
  }

  function Payloads(ds: seq<Doing>): seq<Bytes> {
    if ds == [] then []
    else Payloads(ds[..|ds| - 1]) + PayloadOf(ds[|ds| - 1])
  }

  lemma {:induction false} WritesAppend(ps: seq<Bytes>, qs: seq<Bytes>)
    ensures Writes(ps + qs) == Writes(ps) + Writes(qs)
  {
    if ps == [] {
      assert ps + qs == qs;
    } else {
      assert (ps + qs)[1..] == ps[1..] + qs;
      WritesAppend(ps[1..], qs);
    }
  }

  /** What is sent is what `sendChunk` sends for the payloads. */
  lemma {:induction false} SendsAreWrites(ds: seq<Doing>)
    requires forall i :: 0 <= i < |ds| ==> Proper(ds[i])
    ensures Sends(AllEvents(ds)) == Writes(Payloads(ds))
    decreases |ds|
  {
    if ds != [] {
      var front, d := ds[..|ds| - 1], ds[|ds| - 1];
      SendsAreWrites(front);
      SendsAppend(AllEvents(front), EventsOf(d));
      SendsOfOne(d);
      WritesAppend(Payloads(front), PayloadOf(d));
    }
  }

  function PayloadOf(d: Doing): seq<Bytes> { if d.Chunk? then [d.payload] else [] }

  lemma SendsOfOne(d: Doing)
    requires Proper(d)
    ensures Sends(EventsOf(d)) == Writes(PayloadOf(d))
  {
    match d
    case Chunk(p) =>
      ChunkSends(Frame(p));
      assert Writes([p]) == Pieces(Frame(p)) + Writes([]);
    case Other(e) =>
      assert [e][..0] == [] && Sends([e]) == [];
  }

  lemma {:induction false} PayloadsFit(ds: seq<Doing>)
    requires forall i :: 0 <= i < |ds| ==> Proper(ds[i])
    ensures Framable(Payloads(ds))
    decreases |ds|
  {
    if ds != [] { PayloadsFit(ds[..|ds| - 1]); }
  }

  // ----- one payload as events -----

  lemma {:induction false} RunAppend(s: Sys, es: seq<Event>, fs: seq<Event>)
    ensures Run(true, s, es + fs) == Run(true, Run(true, s, es), fs)
    decreases |fs|
  {
    if fs == [] {
      assert es + fs == es;
    } else {
      assert (es + fs)[..|es + fs| - 1] == es + fs[..|fs| - 1];
      RunAppend(s, es, fs[..|fs| - 1]);
    }
  }

  /** One write of `sendChunk` at an endpoint. */
  lemma WriteActs(me: End, peer: End, p: Bytes)
    requires Ample(me.k.cfg) && |p| <= MAX_WRITE
    ensures Act(true, me, peer, SendCall(p))
         == me.(k := WithQueue(me.k, Send(me.k.cfg, me.k.snd.queue, p).queue), acc := me.acc + [p])
  {
    AcceptsWhole(true, me, peer, p);
  }

  lemma {:induction false} WritesAct(s: Sys, parts: seq<Bytes>)
    requires Ample(s.a.k.cfg) && forall i :: 0 <= i < |parts| ==> |parts[i]| <= MAX_WRITE
    ensures Run(true, s, SendEvents(parts))
         == s.(a := s.a.(k := WithQueue(s.a.k, SendEach(s.a.k.cfg, s.a.k.snd.queue, parts)), acc := s.a.acc + parts))
    decreases |parts|
  {
    if parts != [] {
      var n := |parts| - 1;
      var front, p := parts[..n], parts[n];
      assert front + [p] == parts;
      WritesAct(s, front);
      assert SendEvents(parts)[..n] == SendEvents(front);
      var t := Run(true, s, SendEvents(front));
      WriteActs(t.a, t.b, p);
      SendEachSnoc(s.a.k.cfg, s.a.k.snd.queue, front, p);
      assert s.a.acc + front + [p] == s.a.acc + parts;
    }
  }

  /** The events of one payload: what `SendChunk` does to the object, and the pieces accepted. */
  lemma ChunkActs(s: Sys, raw: Bytes)
    requires Ample(s.a.k.cfg)
    ensures var t := Run(true, s, ChunkEvents(raw)); var f := Flush(WithQueue(s.a.k, WriteAll(s.a.k.cfg, s.a.k.snd.queue, raw)));
            && t.b == s.b && t.a.k == f.k && t.a.out == s.a.out + f.out
            && t.a.acc == s.a.acc + Pieces(raw) && t.a.dlv == s.a.dlv
  {
    PiecesJoin(raw);
    WritesAct(s, Pieces(raw));
    WritesPieces(s.a.k.cfg, s.a.k.snd.queue, raw);
    RunAppend(s, SendEvents(Pieces(raw)), [AtA(FlushCall)]);
    FlushActs(Run(true, s, SendEvents(Pieces(raw))));
  }

  lemma FlushActs(s: Sys)
    ensures var t := Run(true, s, [AtA(FlushCall)]); var f := Flush(s.a.k);
            t.b == s.b && t.a.k == f.k && t.a.out == s.a.out + f.out && t.a.acc == s.a.acc && t.a.dlv == s.a.dlv
  {
    RunOne(s, AtA(FlushCall));
  }

  // ----- the objects -----

  /** Send one payload on the first object. */
  method Say(a: E.Kcp, b: E.Kcp, payload: Bytes, l: Ledger, ghost s: Sys) returns (l': Ledger)
    requires Mirrors(a, b, l, s) && Ample(a.cfg) && |payload| < HALF - 4
    modifies a, a.acklist, a.buffer
    ensures Mirrors(a, b, l', Run(true, s, ChunkEvents(Frame(payload))))
    ensures a.buffer == old(a.buffer) && a.acklist == old(a.acklist)
  {
    WholeFrameIff(payload);
    ChunkActs(s, Frame(payload));
    SendChunk(a, payload);
    E.EncodeAppend(s.a.out, Flush(WithQueue(s.a.k, WriteAll(s.a.k.cfg, s.a.k.snd.queue, Frame(payload)))).out);
    l' := l.(accA := l.accA + Pieces(Frame(payload)));
  }

  /** One doing. */
  method Do(a: E.Kcp, b: E.Kcp, d: Doing, l: Ledger, ghost s: Sys) returns (l': Ledger)
    requires Mirrors(a, b, l, s) && Ample(a.cfg) && Proper(d)
    modifies a, a.acklist, a.buffer, b, b.acklist, b.buffer
    ensures Mirrors(a, b, l', Run(true, s, EventsOf(d)))
    ensures a.buffer == old(a.buffer) && (a.acklist == old(a.acklist) || fresh(a.acklist))
    ensures b.buffer == old(b.buffer) && (b.acklist == old(b.acklist) || fresh(b.acklist))
  {
    match d
    case Chunk(p) => l' := Say(a, b, p, l, s);
    case Other(e) =>
      RunOne(s, e);
      l' := Happen(a, b, e, l, s);
  }

  lemma RunOne(s: Sys, e: Event)
    ensures Run(true, s, [e]) == Step(true, s, e)
  {
    assert [e][..0] == [];
  }

  lemma RunDoing(s: Sys, ds: seq<Doing>, i: nat)
    requires i < |ds|
    ensures Run(true, s, AllEvents(ds[..i + 1])) == Run(true, Run(true, s, AllEvents(ds[..i])), EventsOf(ds[i]))
  {
    assert ds[..i + 1][..i] == ds[..i];
    RunAppend(s, AllEvents(ds[..i]), EventsOf(ds[i]));
  }

  /** Everything, one after the other. */
  method DoAll(a: E.Kcp, b: E.Kcp, ds: seq<Doing>) returns (l: Ledger)
    requires Mirrors(a, b, Ledger([], [], [], []), Init(a.cfg, b.cfg)) && Ample(a.cfg)
    requires forall i :: 0 <= i < |ds| ==> Proper(ds[i])
    modifies a, a.acklist, a.buffer, b, b.acklist, b.buffer
    ensures Mirrors(a, b, l, Run(true, Init(a.cfg, b.cfg), AllEvents(ds)))
  {
    l := Ledger([], [], [], []);
    ghost var s0 := Init(a.cfg, b.cfg);
    for i := 0 to |ds|
      invariant a.buffer == old(a.buffer) && (a.acklist == old(a.acklist) || fresh(a.acklist))
      invariant b.buffer == old(b.buffer) && (b.acklist == old(b.acklist) || fresh(b.acklist))
      invariant Mirrors(a, b, l, Run(true, s0, AllEvents(ds[..i])))
    {
      RunDoing(s0, ds, i);
      l := Do(a, b, ds[i], l, Run(true, s0, AllEvents(ds[..i])));
    }
    WholePrefix(ds);
  }

  /** The reader of the receiving side, fed everything `ikcp_recv` handed out. */
  method ReadAll(chunks: seq<Bytes>) returns (ok: bool, received: seq<Bytes>)
    ensures ok == !ReadEach(chunks).overrun && received == ReadEach(chunks).frames
  {
    var reader := new FrameReader();
    ok := true;
    for i := 0 to |chunks|
      invariant ok && ReadEach(chunks[..i]) == Split(reader.received, reader.buffer, false)
    {
      assert chunks[..i + 1][..i] == chunks[..i];
      ok := reader.OnData(chunks[i]);
      if !ok {
        OverrunStays(chunks, i + 1);
        return false, reader.received;
      }
    }
    WholePrefix(chunks);
    received := reader.received;
  }

  /** Nothing is read after an overrun. */
  lemma {:induction false} OverrunStays(chunks: seq<Bytes>, n: nat)
    requires n <= |chunks| && ReadEach(chunks[..n]).overrun
    ensures ReadEach(chunks) == ReadEach(chunks[..n])
    decreases |chunks| - n
  {
    if n < |chunks| {
      assert chunks[..n + 1][..n] == chunks[..n];
      OverrunStays(chunks, n + 1);
    } else {
      WholePrefix(chunks);
    }
  }

  /** Two new connections with the transport's kind of settings, any doings: the receiving callback sees a
      prefix of the payloads sent, as long as no datagram arrives half the number circle late. */
  method StreamPayloads(ca: Config, cb: Config, ds: seq<Doing>) returns (ok: bool, received: seq<Bytes>)
    requires Compatible(ca, cb) && Ample(ca) && forall i :: 0 <= i < |ds| ==> Proper(ds[i])
    ensures FreshRun(Init(ca, cb), AllEvents(ds)) || ShortRun(ca, cb, AllEvents(ds)) ==> ok && received <= Payloads(ds)
  {
    var a := new E.Kcp(ca.(wrap := true));
    var b := new E.Kcp(cb.(wrap := true));
    var l := DoAll(a, b, ds);
    ok, received := ReadAll(l.dlvB);
    ghost var es := AllEvents(ds);
    if FreshRun(Init(ca, cb), es) || ShortRun(ca, cb, es) {
      if ShortRun(ca, cb, es) { ShortRunIsFresh(ca, cb, es); }
      SendsAreWrites(ds);
      PayloadsFit(ds);
      PayloadsArriveInOrder(ca, cb, es, Payloads(ds));
    }
  }
}
