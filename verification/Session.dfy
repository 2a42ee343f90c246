/** A whole transfer over the protocol: chunk messages travel on four connections, each frame that comes out
    is handed to the pool once, and the transfer machine does the rest. */
module Session {
  import opened Serial
  import opened Wire
  import opened Control
  import opened System
  import opened Refinement
  import Transport
  import Transfer

  const STREAMS: nat := 4

  /** Chunk numbers are 32-bit. */
  type ChunkId = x: nat | x < M32

  /** What travels in a frame: the handshake, or the chunk with a number. */
  datatype Message = Hello | ChunkMessage(id: ChunkId)

  /** The bytes of a message tell which message it is, and `sendChunk` writes them whole. */
  ghost predicate Encoding(enc: Message -> Bytes) {
    && (forall m, n :: enc(m) == enc(n) ==> m == n)
    && (forall m :: |enc(m)| < HALF - 4)
  }

  /** There are such encodings. */
  function NumberOnly(m: Message): Bytes {
    match m
    case Hello => []
    case ChunkMessage(id) => Enc32(id)
  }

  lemma NumberOnlyEncodes()
    ensures Encoding(NumberOnly)
  {
    forall m, n | NumberOnly(m) == NumberOnly(n) ensures m == n {
      if m.ChunkMessage? && n.ChunkMessage? {
        Dec32OfEnc32(Enc32(m.id), 0, m.id);
        Dec32OfEnc32(Enc32(n.id), 0, n.id);
      }
    }
  }

  /** One connection from sender to receiver: its settings, what happens on it, and the messages given to
      `sendChunk` on it. */
  datatype Stream = Stream(ca: Config, cb: Config, es: seq<Event>, messages: seq<Message>)

  function Payloads(enc: Message -> Bytes, ms: seq<Message>): (ps: seq<Bytes>)
    ensures |ps| == |ms| && forall i :: 0 <= i < |ps| ==> ps[i] == enc(ms[i])
  {
    seq(|ms|, i requires 0 <= i < |ms| => enc(ms[i]))
  }

  /** The connection is one the transport makes, nothing on it is stale, and its sends are those of
      `sendChunk` for the messages, as far as it got. */
  ghost predicate Carries(enc: Message -> Bytes, st: Stream) {
    && Compatible(st.ca, st.cb) && Transport.Ample(st.ca)
    && (FreshRun(Init(st.ca, st.cb), st.es) || ShortRun(st.ca, st.cb, st.es))
    && Transport.Sends(st.es) <= Transport.Writes(Payloads(enc, st.messages))
  }

  /** The frames the receiving callback has seen. */
  function Frames(st: Stream): seq<Bytes> {
    Transport.ReadEach(Run(true, Init(Wrapping(st.ca), Wrapping(st.cb)), st.es).b.dlv).frames
  }

  /** Chunk `id` is sent on stream `id % 4`, and no chunk is sent twice. */
  ghost predicate SentOnce(streams: seq<Stream>) {
    && |streams| == STREAMS
    && (forall i, j :: 0 <= i < STREAMS && 0 <= j < |streams[i].messages| && streams[i].messages[j].ChunkMessage? ==>
          streams[i].messages[j].id % STREAMS == i)
    && (forall i, j, k :: 0 <= i < STREAMS && 0 <= j < k < |streams[i].messages| && streams[i].messages[j].ChunkMessage? ==>
          streams[i].messages[j] != streams[i].messages[k])
  }

  /** Where a job came from: the stream and the position of its frame. */
  datatype Origin = Origin(stream: nat, frame: nat)

  /** Every job is one of the frames that came out, and no frame makes two jobs. Jobs of different streams
      may come in any order. */
  ghost predicate HandedOver(enc: Message -> Bytes, streams: seq<Stream>, ids: seq<nat>, from: seq<Origin>) {
    && |streams| == STREAMS && |from| == |ids| && (forall j :: 0 <= j < |ids| ==> ids[j] < M32)
    && (forall j :: 0 <= j < |from| ==> from[j].stream < STREAMS && from[j].frame < |Frames(streams[from[j].stream])|)
    && (forall j :: 0 <= j < |from| ==> Frames(streams[from[j].stream])[from[j].frame] == enc(ChunkMessage(ids[j])))
    && (forall j, k :: 0 <= j < k < |from| ==> from[j] != from[k])
  }

  /** A frame that came out is a message that was sent, at the same position. */
  lemma FrameWasSent(enc: Message -> Bytes, st: Stream, n: nat)
    requires Encoding(enc) && Carries(enc, st) && n < |Frames(st)|
    ensures n < |st.messages| && Frames(st)[n] == enc(st.messages[n])
  {
    if ShortRun(st.ca, st.cb, st.es) { ShortRunIsFresh(st.ca, st.cb, st.es); }
    Transport.PayloadsArriveInOrder(st.ca, st.cb, st.es, Payloads(enc, st.messages));
  }

  lemma JobWasSent(enc: Message -> Bytes, streams: seq<Stream>, ids: seq<nat>, from: seq<Origin>, j: nat)
    requires Encoding(enc) && |streams| == STREAMS && (forall i :: 0 <= i < STREAMS ==> Carries(enc, streams[i]))
    requires HandedOver(enc, streams, ids, from) && j < |ids|
    ensures from[j].frame < |streams[from[j].stream].messages|
    ensures streams[from[j].stream].messages[from[j].frame] == ChunkMessage(ids[j])
  {
    FrameWasSent(enc, streams[from[j].stream], from[j].frame);
  }

  /** Over the protocol every chunk reaches the pool at most once. */
  lemma ChunksArriveOnce(enc: Message -> Bytes, streams: seq<Stream>, ids: seq<nat>, from: seq<Origin>)
    requires Encoding(enc) && SentOnce(streams) && (forall i :: 0 <= i < STREAMS ==> Carries(enc, streams[i]))
    requires HandedOver(enc, streams, ids, from)
    ensures Transfer.Distinct(ids)
  {
    forall j, k | 0 <= j < k < |ids| ensures ids[j] != ids[k] {
      JobWasSent(enc, streams, ids, from, j);
      JobWasSent(enc, streams, ids, from, k);
      if ids[j] == ids[k] {
        SameMessage(streams, from[j], from[k], ids[j]);
      }
    }
  }

  /** A chunk has one place among the messages sent. */
  lemma SameMessage(streams: seq<Stream>, a: Origin, b: Origin, id: ChunkId)
    requires SentOnce(streams) && a.stream < STREAMS && b.stream < STREAMS
    requires a.frame < |streams[a.stream].messages| && streams[a.stream].messages[a.frame] == ChunkMessage(id)
    requires b.frame < |streams[b.stream].messages| && streams[b.stream].messages[b.frame] == ChunkMessage(id)
    ensures a == b
  {
  }

  /** A completed transfer is a whole one: chunks sent once each over four connections, over a network that
      loses, duplicates, delays and reorders, with 32-bit serial numbers and raw bytes; frames handed to the
      pool as they come out and worked on in any interleaving. When the receiver's completion flag is up,
      every bit is set and its file equals the sender's. */
  lemma CompletedTransferIsWhole(enc: Message -> Bytes, streams: seq<Stream>, file: Transfer.Data, c: Transfer.Codec,
                                 s: Transfer.State, from: seq<Origin>)
    requires Encoding(enc) && SentOnce(streams) && (forall i :: 0 <= i < STREAMS ==> Carries(enc, streams[i]))
    requires Transfer.Inverse(c) && Transfer.Reachable(file, c, s) && HandedOver(enc, streams, Transfer.Ids(s.jobs), from)
    ensures s.complete ==> Transfer.Delivered(file, s)
  {
    ChunksArriveOnce(enc, streams, Transfer.Ids(s.jobs), from);
    if s.complete {
      Transfer.OnceOnlyIsTrustworthy(file, c, s);
    }
  }
}
