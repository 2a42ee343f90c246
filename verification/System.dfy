/** Two endpoints joined by a network that may lose, duplicate, delay and reorder datagrams,
    as a deterministic step function over the calls an application and the network make. */
module System {
  import opened Serial
  import opened Wire
  import opened Control

  /** An endpoint with its history: every datagram it ever emitted, the fragments it has
      numbered, the data `ikcp_send` accepted and the data `ikcp_recv` handed out. */
  datatype End = End(k: Kcb, out: seq<Datagram>, log: seq<Frag>, acc: seq<Bytes>, dlv: seq<Bytes>)

  datatype Call =
    | SendCall(data: Bytes)
    | RecvCall(len: int)
    | UpdateCall(now: Time)
    | FlushCall
    | Deliver(i: nat)

  /** The fragments that left the front of a queue. */
  function Numbered(before: seq<Frag>, after: seq<Frag>): seq<Frag> {
    if |after| <= |before| then before[..|before| - |after|] else []
  }

  function AfterFlush(me: End, f: Flushed): End {
    me.(k := f.k, out := me.out + f.out, log := me.log + Numbered(me.k.snd.queue, f.k.snd.queue))
  }

  /** One call at `me`. Delivery may pick any datagram the peer ever emitted, any number of
      times; with `bytes` it goes through the wire format. */
  function Act(bytes: bool, me: End, peer: End, c: Call): End {
    match c
    case SendCall(data) =>
      var r := Send(me.k.cfg, me.k.snd.queue, data);
      me.(k := me.k.(snd := me.k.snd.(queue := r.queue)),
          acc := if r.ret >= 0 then me.acc + [data[..r.ret]] else me.acc)
    case RecvCall(len) =>
      var r := Recv(me.k, len);
      me.(k := r.k, dlv := if r.ret >= 0 && len >= 0 then me.dlv + [r.data] else me.dlv)
    case UpdateCall(now) => AfterFlush(me, Update(me.k, now))
    case FlushCall => AfterFlush(me, Flush(me.k))
    case Deliver(i) =>
      if i >= |peer.out| then me
      else if bytes then me.(k := InputBytes(me.k, DatagramBytes(peer.out[i])).k)
      else me.(k := Input(me.k, Parsed(peer.out[i], 0)))
  }

  datatype Sys = Sys(a: End, b: End)

  datatype Event = AtA(call: Call) | AtB(call: Call)

  function Step(bytes: bool, s: Sys, e: Event): Sys {
    match e
    case AtA(c) => s.(a := Act(bytes, s.a, s.b, c))
    case AtB(c) => s.(b := Act(bytes, s.b, s.a, c))
  }

  function Run(bytes: bool, s: Sys, es: seq<Event>): Sys {
    if es == [] then s else Step(bytes, Run(bytes, s, es[..|es| - 1]), es[|es| - 1])
  }

  function Init(ca: Config, cb: Config): Sys {
    Sys(End(Create(ca), [], [], [], []), End(Create(cb), [], [], [], []))
  }

  function Wrapping(cfg: Config): Config { cfg.(wrap := true) }
}
