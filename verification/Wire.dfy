/** The KCP wire format: header codec, the decode loop of a datagram, and the greedy packer. */
module Wire {
  import opened Serial

  type Byte = x: int | 0 <= x < 256
  type Bytes = seq<Byte>

  const OVERHEAD: int := 24
  const CMD_PUSH: int := 81
  const CMD_ACK: int := 82
  const CMD_WASK: int := 83
  const CMD_WINS: int := 84

  /** One segment as it travels: the 24-byte header's fields and the payload. */
  datatype Packet = Packet(conv: int, cmd: int, frg: int, wnd: int, ts: int, sn: int, una: int, data: Bytes)

  type Datagram = seq<Packet>

  predicate KnownCmd(cmd: int) {
    cmd == CMD_PUSH || cmd == CMD_ACK || cmd == CMD_WASK || cmd == CMD_WINS
  }

  // ----- integers, least significant byte first -----

  function Enc16(x: int): Bytes {
    [x % 256, x / 256 % 256]
  }

  function Enc32(x: int): Bytes {
    [x % 256, x / 256 % 256, x / 65536 % 256, x / 16777216 % 256]
  }

  function Dec16(b: Bytes, at: nat): (x: int)
    requires at + 2 <= |b|
    ensures 0 <= x < 65536
  {
    b[at] as int + 256 * (b[at + 1] as int)
  }

  function Dec32(b: Bytes, at: nat): (x: int)
    requires at + 4 <= |b|
    ensures 0 <= x < M32
  {
    b[at] as int + 256 * (b[at + 1] as int + 256 * (b[at + 2] as int + 256 * (b[at + 3] as int)))
  }

  lemma Dec32OfEnc32(b: Bytes, at: nat, x: int)
    requires at + 4 <= |b| && 0 <= x < M32
    requires b[at..at + 4] == Enc32(x)
    ensures Dec32(b, at) == x
  {
    var e := b[at..at + 4];
    assert b[at] == e[0] && b[at + 1] == e[1] && b[at + 2] == e[2] && b[at + 3] == e[3];
    var q1 := x / 256;
    var q2 := q1 / 256;
    var q3 := q2 / 256;
    assert q2 == x / 65536 && q3 == x / 16777216;
    assert q3 % 256 == q3;
    assert q2 == 256 * q3 + q2 % 256 && q1 == 256 * q2 + q1 % 256 && x == 256 * q1 + x % 256;
  }

  lemma Dec16OfEnc16(b: Bytes, at: nat, x: int)
    requires at + 2 <= |b| && 0 <= x < 65536
    requires b[at..at + 2] == Enc16(x)
    ensures Dec16(b, at) == x
  {
    var e := b[at..at + 2];
    assert b[at] == e[0] && b[at + 1] == e[1];
  }

  lemma Enc32OfDec32(b: Bytes, at: nat)
    requires at + 4 <= |b|
    ensures Enc32(Dec32(b, at)) == b[at..at + 4]
  {
    var r3: int := b[at + 3];
    var r2 := b[at + 2] as int + 256 * r3;
    var r1 := b[at + 1] as int + 256 * r2;
    var x := Dec32(b, at);
    assert x == b[at] as int + 256 * r1;
    assert x / 256 == r1 && r1 / 256 == r2 && r2 / 256 == r3;
    assert x / 65536 == r2 && x / 16777216 == r3;
    assert r3 % 256 == r3;
  }

  lemma Enc16OfDec16(b: Bytes, at: nat)
    requires at + 2 <= |b|
    ensures Enc16(Dec16(b, at)) == b[at..at + 2]
  {
  }

  /** The number that `b` spells in base 256, its first byte counting least. */
  function Value(b: Bytes): nat {
    if b == [] then 0 else b[0] + 256 * Value(b[1..])
  }

  lemma Value2(b: Bytes)
    requires |b| == 2
    ensures Value(b) == b[0] as int + 256 * (b[1] as int)
  {
    assert b[1..][1..] == [];
    assert Value(b[1..]) == b[1] + 256 * Value([]);
  }

  lemma Value4(b: Bytes)
    requires |b| == 4
    ensures Value(b) == b[0] as int + 256 * (b[1] as int + 256 * (b[2] as int + 256 * (b[3] as int)))
  {
    Value2(b[2..]);
    assert b[1..][1..] == b[2..];
    assert Value(b[1..]) == b[1] + 256 * Value(b[2..]);
  }

  // ----- one segment -----

  /** A packet whose every field fits its header field. */
  ghost predicate Encodable(p: Packet) {
    && 0 <= p.conv < M32
    && KnownCmd(p.cmd)
    && 0 <= p.frg < 256
    && 0 <= p.wnd < 65536
    && 0 <= p.ts < M32
    && 0 <= p.sn < M32
    && 0 <= p.una < M32
    && |p.data| < HALF
  }

  /** The first eight header bytes: conversation, command, fragment number, window. */
  function Lead(p: Packet): (r: Bytes)
    ensures |r| == 8
  {
    Enc32(p.conv) + [p.cmd % 256, p.frg % 256] + Enc16(p.wnd)
  }

  /** The header `ikcp_encode_seg` writes. */
  function Header(p: Packet): (r: Bytes)
    ensures |r| == OVERHEAD
  {
    Lead(p) + Enc32(p.ts) + Enc32(p.sn) + Enc32(p.una) + Enc32(|p.data|)
  }

  function PacketBytes(p: Packet): (r: Bytes)
    ensures |r| == OVERHEAD + |p.data|
  {
    Header(p) + p.data
  }

  function DatagramBytes(d: Datagram): (r: Bytes)
    ensures |r| == DatagramSize(d)
  {
    if d == [] then [] else PacketBytes(d[0]) + DatagramBytes(d[1..])
  }

  function DatagramSize(d: Datagram): nat {
    if d == [] then 0 else OVERHEAD + |d[0].data| + DatagramSize(d[1..])
  }

  /** The payload length a header announces. */
  function LenField(b: Bytes): int
    requires |b| >= OVERHEAD
  {
    Dec32(b, 20)
  }

  function DecodePacket(b: Bytes): Packet
    requires |b| >= OVERHEAD && OVERHEAD + LenField(b) <= |b|
  {
    Packet(Dec32(b, 0), b[4], b[5], Dec16(b, 6), Dec32(b, 8), Dec32(b, 12), Dec32(b, 16),
           b[OVERHEAD..OVERHEAD + LenField(b)])
  }

  lemma HeaderLayout(p: Packet)
    ensures var h := Header(p);
            && h[0..4] == Enc32(p.conv)
            && h[4] == p.cmd % 256 && h[5] == p.frg % 256
            && h[6..8] == Enc16(p.wnd)
            && h[8..12] == Enc32(p.ts)
            && h[12..16] == Enc32(p.sn)
            && h[16..20] == Enc32(p.una)
            && h[20..24] == Enc32(|p.data|)
  {
  }

  /** The wire format of KCP: 24 bytes, every number least significant byte first. */
  lemma WireFormat(p: Packet)
    requires Encodable(p)
    ensures var h := PacketBytes(p);
            && Value(h[0..4]) == p.conv && h[4] == p.cmd && h[5] == p.frg && Value(h[6..8]) == p.wnd
            && Value(h[8..12]) == p.ts && Value(h[12..16]) == p.sn && Value(h[16..20]) == p.una
            && Value(h[20..24]) == |p.data| && h[24..] == p.data
  {
    var h := PacketBytes(p);
    HeaderFields(p, []);
    assert h + [] == h;
    Value4(h[0..4]);
    Value2(h[6..8]);
    Value4(h[8..12]);
    Value4(h[12..16]);
    Value4(h[16..20]);
    Value4(h[20..24]);
  }

  lemma HeaderFields(p: Packet, rest: Bytes)
    requires Encodable(p)
    ensures var b := PacketBytes(p) + rest;
            && LenField(b) == |p.data|
            && DecodePacket(b) == p
            && b[OVERHEAD + |p.data|..] == rest
  {
    var h := Header(p);
    var b := h + p.data + rest;
    HeaderLayout(p);
    assert b[..24] == h;
    SliceOfPrefix(b, h, 0, 4);
    Dec32OfEnc32(b, 0, p.conv);
    SliceOfPrefix(b, h, 6, 8);
    Dec16OfEnc16(b, 6, p.wnd);
    SliceOfPrefix(b, h, 8, 12);
    Dec32OfEnc32(b, 8, p.ts);
    SliceOfPrefix(b, h, 12, 16);
    Dec32OfEnc32(b, 12, p.sn);
    SliceOfPrefix(b, h, 16, 20);
    Dec32OfEnc32(b, 16, p.una);
    SliceOfPrefix(b, h, 20, 24);
    Dec32OfEnc32(b, 20, |p.data|);
    assert b[4] == h[4] && b[5] == h[5];
    assert b[OVERHEAD..OVERHEAD + |p.data|] == p.data;
  }

  lemma SliceOfPrefix(b: Bytes, h: Bytes, i: nat, j: nat)
    requires h <= b && i <= j <= |h|
    ensures b[i..j] == h[i..j]
  {
  }

  // ----- one datagram -----

  /** What the decode loop of `ikcp_input` yields: the segments it gets through and its status,
      0 for a complete pass or the negative code of the early return. */
  datatype Parsed = Parsed(packets: Datagram, status: int)

  function Parse(conv: int, b: Bytes): (r: Parsed)
    ensures forall i :: 0 <= i < |r.packets| ==> Encodable(r.packets[i]) && r.packets[i].conv == conv
    ensures r.status in {0, -1, -2, -3}
    decreases |b|
  {
    if |b| < OVERHEAD then Parsed([], 0)
    else if Dec32(b, 0) != conv then Parsed([], -1)
    else
      var len := LenField(b);
      if |b| - OVERHEAD < len || len >= HALF then Parsed([], -2)
      else if !KnownCmd(b[4]) then Parsed([], -3)
      else
        var rest := Parse(conv, b[OVERHEAD + len..]);
        Parsed([DecodePacket(b)] + rest.packets, rest.status)
  }

  /** The decode loop undoes the encoder. */
  lemma {:induction false} ParseOfEncode(conv: int, d: Datagram)
    requires forall i :: 0 <= i < |d| ==> Encodable(d[i]) && d[i].conv == conv
    ensures Parse(conv, DatagramBytes(d)) == Parsed(d, 0)
  {
    if d != [] {
      var rest := DatagramBytes(d[1..]);
      HeaderFields(d[0], rest);
      ParseOfEncode(conv, d[1..]);
      assert d == [d[0]] + d[1..];
      var b := DatagramBytes(d);
      assert Dec32(b, 0) == DecodePacket(b).conv;
      assert b[4] == DecodePacket(b).cmd;
    }
  }

  /** Conversely, whatever the loop yields re-encodes to the bytes it went through; a complete
      pass leaves fewer than 24 bytes unread. */
  lemma {:induction false} EncodeOfParse(conv: int, b: Bytes)
    ensures var r := Parse(conv, b);
            && DatagramBytes(r.packets) <= b
            && (r.status == 0 <==> |b| - DatagramSize(r.packets) < OVERHEAD)
    decreases |b|
  {
    var r := Parse(conv, b);
    if r.packets != [] {
      var len := LenField(b);
      var p := DecodePacket(b);
      EncodeOfParse(conv, b[OVERHEAD + len..]);
      HeaderOfDecode(b);
      assert r.packets[1..] == Parse(conv, b[OVERHEAD + len..]).packets;
      PrefixSplit(b, OVERHEAD + len, DatagramBytes(r.packets[1..]));
    }
  }

  lemma PrefixSplit(b: Bytes, n: nat, c: Bytes)
    requires n <= |b| && c <= b[n..]
    ensures b[..n] + c <= b
  {
    assert b == b[..n] + b[n..];
  }

  lemma HeaderOfDecode(b: Bytes)
    requires |b| >= OVERHEAD && OVERHEAD + LenField(b) <= |b|
    ensures PacketBytes(DecodePacket(b)) == b[..OVERHEAD + LenField(b)]
  {
    var h := Header(DecodePacket(b));
    HeaderLayout(DecodePacket(b));
    Enc32OfDec32(b, 0);
    Enc16OfDec16(b, 6);
    Enc32OfDec32(b, 8);
    Enc32OfDec32(b, 12);
    Enc32OfDec32(b, 16);
    Enc32OfDec32(b, 20);
    SameBySlices(h, b[..24]);
    assert b[..24] + b[24..24 + LenField(b)] == b[..24 + LenField(b)];
  }

  lemma SameBySlices(x: Bytes, y: Bytes)
    requires |x| == |y| == 24
    requires x[0..4] == y[0..4] && x[4] == y[4] && x[5] == y[5] && x[6..8] == y[6..8]
    requires x[8..12] == y[8..12] && x[12..16] == y[12..16] && x[16..20] == y[16..20] && x[20..24] == y[20..24]
    ensures x == y
  {
    forall i | 0 <= i < 24 ensures x[i] == y[i] {
      if i < 4 { assert x[i] == x[0..4][i]; }
      else if i == 4 || i == 5 {}
      else if i < 8 { assert x[i] == x[6..8][i - 6]; }
      else if i < 12 { assert x[i] == x[8..12][i - 8]; }
      else if i < 16 { assert x[i] == x[12..16][i - 12]; }
      else if i < 20 { assert x[i] == x[16..20][i - 16]; }
      else { assert x[i] == x[20..24][i - 20]; }
    }
  }

  // ----- packing -----

  /** The staging buffer of `ikcp_flush`: datagrams already handed to the output callback, and the
      segments staged since. */
  datatype Staging = Staging(done: seq<Datagram>, cur: Datagram)

  /** Hand the staged segments over; an empty buffer produces no output. */
  function Drain(s: Staging): seq<Datagram> {
    if s.cur == [] then s.done else s.done + [s.cur]
  }

  function Stage(mtu: int, s: Staging, p: Packet): Staging {
    if DatagramSize(s.cur) + OVERHEAD + |p.data| > mtu then Staging(Drain(s), [p])
    else Staging(s.done, s.cur + [p])
  }

  function StageAll(mtu: int, s: Staging, ps: seq<Packet>): Staging
    decreases |ps|
  {
    if ps == [] then s else StageAll(mtu, Stage(mtu, s, ps[0]), ps[1..])
  }

  function Pack(mtu: int, ps: seq<Packet>): seq<Datagram> {
    Drain(StageAll(mtu, Staging([], []), ps))
  }

  function Concat<T>(ss: seq<seq<T>>): seq<T> {
    if ss == [] then [] else ss[0] + Concat(ss[1..])
  }

  lemma Assoc<T>(a: seq<T>, b: seq<T>, c: seq<T>)
    ensures a + b + c == a + (b + c)
  {
  }

  lemma PrefixSnoc<T>(s: seq<T>, i: nat)
    requires i < |s|
    ensures s[..i] + [s[i]] == s[..i + 1]
  {
  }

  lemma WholePrefix<T>(s: seq<T>)
    ensures s[..|s|] == s
  {
  }

  lemma {:induction false} ConcatAppend<T>(ss: seq<seq<T>>, tt: seq<seq<T>>)
    ensures Concat(ss + tt) == Concat(ss) + Concat(tt)
  {
    if ss == [] {
      assert ss + tt == tt;
    } else {
      ConcatAppend(ss[1..], tt);
      assert (ss + tt)[1..] == ss[1..] + tt;
    }
  }

  lemma ConcatSnoc<T>(ss: seq<seq<T>>, t: seq<T>)
    ensures Concat(ss + [t]) == Concat(ss) + t
  {
    ConcatAppend(ss, [t]);
    assert Concat([t]) == t + Concat([]);
  }

  lemma {:induction false} SizeAppend(d: Datagram, e: Datagram)
    ensures DatagramSize(d + e) == DatagramSize(d) + DatagramSize(e)
  {
    if d == [] {
      assert d + e == e;
    } else {
      SizeAppend(d[1..], e);
      assert (d + e)[1..] == d[1..] + e;
    }
  }

  lemma {:induction false} BytesAppend(d: Datagram, e: Datagram)
    ensures DatagramBytes(d + e) == DatagramBytes(d) + DatagramBytes(e)
  {
    if d == [] {
      assert d + e == e;
    } else {
      var f := d + e;
      assert f[0] == d[0] && f[1..] == d[1..] + e;
      calc {
        DatagramBytes(f);
        PacketBytes(d[0]) + DatagramBytes(d[1..] + e);
        { BytesAppend(d[1..], e); }
        PacketBytes(d[0]) + (DatagramBytes(d[1..]) + DatagramBytes(e));
        { Assoc(PacketBytes(d[0]), DatagramBytes(d[1..]), DatagramBytes(e)); }
        DatagramBytes(d) + DatagramBytes(e);
      }
    }
  }

  ghost predicate Fits(mtu: int, ps: seq<Packet>) {
    forall i :: 0 <= i < |ps| ==> OVERHEAD + |ps[i].data| <= mtu
  }

  ghost predicate SizesOk(mtu: int, ds: seq<Datagram>) {
    forall i :: 0 <= i < |ds| ==> 1 <= |DatagramBytes(ds[i])| <= mtu
  }

  ghost predicate StagingOk(mtu: int, s: Staging) {
    SizesOk(mtu, s.done) && DatagramSize(s.cur) <= mtu
  }

  lemma StageKeeps(mtu: int, s: Staging, p: Packet)
    requires StagingOk(mtu, s) && OVERHEAD + |p.data| <= mtu
    ensures StagingOk(mtu, Stage(mtu, s, p))
    ensures Concat(Drain(Stage(mtu, s, p))) == Concat(Drain(s)) + [p]
  {
    SizeAppend(s.cur, [p]);
    assert DatagramSize([p]) == OVERHEAD + |p.data|;
    ConcatSnoc(s.done, s.cur);
    ConcatSnoc(s.done, s.cur + [p]);
    ConcatSnoc(Drain(s), [p]);
    Assoc(Concat(s.done), s.cur, [p]);
  }

  lemma {:induction false} StageAllKeeps(mtu: int, s: Staging, ps: seq<Packet>)
    requires StagingOk(mtu, s) && Fits(mtu, ps)
    ensures StagingOk(mtu, StageAll(mtu, s, ps))
    ensures Concat(Drain(StageAll(mtu, s, ps))) == Concat(Drain(s)) + ps
    decreases |ps|
  {
    if ps != [] {
      StageKeeps(mtu, s, ps[0]);
      StageAllKeeps(mtu, Stage(mtu, s, ps[0]), ps[1..]);
      assert ps == [ps[0]] + ps[1..];
      Assoc(Concat(Drain(s)), [ps[0]], ps[1..]);
    }
  }

  lemma {:induction false} StageAllAppend(mtu: int, s: Staging, ps: seq<Packet>, qs: seq<Packet>)
    ensures StageAll(mtu, s, ps + qs) == StageAll(mtu, StageAll(mtu, s, ps), qs)
    decreases |ps|
  {
    if ps == [] {
      assert ps + qs == qs;
    } else {
      assert (ps + qs)[1..] == ps[1..] + qs;
      StageAllAppend(mtu, Stage(mtu, s, ps[0]), ps[1..], qs);
    }
  }

  /** Packing loses, duplicates and reorders nothing, and respects the mtu. */
  lemma PackIsFaithful(mtu: int, ps: seq<Packet>)
    requires OVERHEAD <= mtu && Fits(mtu, ps)
    ensures SizesOk(mtu, Pack(mtu, ps))
    ensures Concat(Pack(mtu, ps)) == ps
  {
    StageAllKeeps(mtu, Staging([], []), ps);
    var s := StageAll(mtu, Staging([], []), ps);
    assert s.cur != [] ==> DatagramSize(s.cur) >= 1;
  }

  /** The segment that opens `e` does not fit behind `d`. */
  ghost predicate TooMuch(mtu: int, d: Datagram, e: Datagram) {
    e != [] && DatagramSize(d) + OVERHEAD + |e[0].data| > mtu
  }

  /** No datagram could have taken the first segment of the next one. */
  ghost predicate Full(mtu: int, ds: seq<Datagram>) {
    forall i, j :: 0 <= i && j == i + 1 < |ds| ==> TooMuch(mtu, ds[i], ds[j])
  }

  ghost predicate Greedy(mtu: int, s: Staging) {
    Full(mtu, Drain(s)) && (s.cur == [] ==> s.done == [])
  }

  lemma FullSnoc(mtu: int, ds: seq<Datagram>, d: Datagram)
    requires Full(mtu, ds) && (ds != [] ==> TooMuch(mtu, ds[|ds| - 1], d))
    ensures Full(mtu, ds + [d])
  {
  }

  /** Adding to the open datagram leaves its first segment first. */
  lemma FullGrows(mtu: int, ds: seq<Datagram>, d: Datagram, p: Packet)
    requires Full(mtu, ds + [d]) && d != []
    ensures Full(mtu, ds + [d + [p]])
  {
    var es, fs := ds + [d], ds + [d + [p]];
    forall i, j | 0 <= i && j == i + 1 < |fs| ensures TooMuch(mtu, fs[i], fs[j]) {
      assert TooMuch(mtu, es[i], es[j]);
    }
  }

  lemma StageGreedy(mtu: int, s: Staging, p: Packet)
    requires Greedy(mtu, s)
    ensures Greedy(mtu, Stage(mtu, s, p))
  {
    if DatagramSize(s.cur) + OVERHEAD + |p.data| > mtu {
      FullSnoc(mtu, Drain(s), [p]);
    } else if s.cur != [] {
      FullGrows(mtu, s.done, s.cur, p);
    }
  }

  lemma {:induction false} StageAllGreedy(mtu: int, s: Staging, ps: seq<Packet>)
    requires Greedy(mtu, s)
    ensures Greedy(mtu, StageAll(mtu, s, ps))
    decreases |ps|
  {
    if ps != [] {
      StageGreedy(mtu, s, ps[0]);
      StageAllGreedy(mtu, Stage(mtu, s, ps[0]), ps[1..]);
    }
  }

  /** Packing wastes nothing: a datagram is closed only when the next segment does not fit it. */
  lemma PackIsGreedy(mtu: int, ps: seq<Packet>)
    ensures Full(mtu, Pack(mtu, ps))
  {
    StageAllGreedy(mtu, Staging([], []), ps);
  }

  /** The packets the decode loop finds in a list of datagrams, in order. */
  function ParseEach(conv: int, bs: seq<Bytes>): seq<Packet> {
    if bs == [] then [] else Parse(conv, bs[0]).packets + ParseEach(conv, bs[1..])
  }

  function EncodeEach(ds: seq<Datagram>): (bs: seq<Bytes>)
    ensures |bs| == |ds|
    ensures forall i :: 0 <= i < |ds| ==> bs[i] == DatagramBytes(ds[i])
  {
    if ds == [] then [] else [DatagramBytes(ds[0])] + EncodeEach(ds[1..])
  }

  lemma {:induction false} ParseEachOfEncode(conv: int, ds: seq<Datagram>)
    requires forall p :: p in Concat(ds) ==> Encodable(p) && p.conv == conv
    ensures ParseEach(conv, EncodeEach(ds)) == Concat(ds)
  {
    if ds != [] {
      assert forall i :: 0 <= i < |ds[0]| ==> ds[0][i] in Concat(ds);
      ParseOfEncode(conv, ds[0]);
      assert forall p :: p in Concat(ds[1..]) ==> p in Concat(ds);
      ParseEachOfEncode(conv, ds[1..]);
      assert EncodeEach(ds)[1..] == EncodeEach(ds[1..]);
    }
  }
}
