/** The transfer manifest: its completion bitfield, packing, unpacking, and the decoder that reads a
    handshake acknowledgement. */
module Manifest {

  /** `1 << k`. */
  function Mask(k: int): bv8
    requires 0 <= k < 8
  {
    if k == 0 then 1 else if k == 1 then 2 else if k == 2 then 4 else if k == 3 then 8
    else if k == 4 then 16 else if k == 5 then 32 else if k == 6 then 64 else 128
  }

  function PowerOfTwo(k: nat): nat { if k == 0 then 1 else 2 * PowerOfTwo(k - 1) }

  /** The `k`-th mask is the number 2^k: bit 0 is the lowest. */
  lemma MaskIsPower(k: nat)
    requires k < 8
    ensures Mask(k) as int == PowerOfTwo(k)
  {
    assert PowerOfTwo(1) == 2 && PowerOfTwo(2) == 4 && PowerOfTwo(3) == 8;
    assert PowerOfTwo(4) == 16 && PowerOfTwo(5) == 32 && PowerOfTwo(6) == 64 && PowerOfTwo(7) == 128;
  }

  /** Whether bit `i` is set; positions beyond the field read as clear. */
  predicate BitAt(packed: seq<bv8>, i: nat) {
    i / 8 < |packed| && packed[i / 8] & Mask(i % 8) != 0
  }

  function FieldSize(n: nat): nat { (n + 7) / 8 }

  /** A field of the right size whose set bits are exactly the flags: padding bits are clear. */
  ghost predicate Packs(packed: seq<bv8>, flags: seq<bool>) {
    |packed| == FieldSize(|flags|) && forall i: nat :: BitAt(packed, i) <==> i < |flags| && flags[i]
  }

  /** A field determines the flags it packs. */
  lemma PackedOnce(packed: seq<bv8>, f: seq<bool>, g: seq<bool>)
    requires Packs(packed, f) && Packs(packed, g) && |f| == |g|
    ensures f == g
  {
    forall i: nat | i < |f| ensures f[i] == g[i] {
      assert BitAt(packed, i) <==> f[i];
    }
  }

  lemma SetBit(x: bv8, k: int, m: int)
    requires 0 <= k < 8 && 0 <= m < 8
    ensures (x | Mask(k)) & Mask(m) != 0 <==> k == m || x & Mask(m) != 0
  {
    MaskFacts(x, Mask(k), Mask(m));
  }

  /** Disjoint masks do not disturb each other. */
  lemma MaskFacts(x: bv8, a: bv8, b: bv8)
    requires a != 0 && b != 0
    ensures (x | a) & a != 0
    ensures a & b == 0 ==> ((x | a) & b == x & b)
  {
  }

  class TransferManifest {
    var totalChunks: nat
    var completedChunks: seq<bool>

    /** A fresh manifest: nothing received. */
    constructor (total: nat)
      ensures totalChunks == total && completedChunks == seq(total, i => false)
    {
      totalChunks := total;
      completedChunks := seq(total, i => false);
    }

    method PackBitfield() returns (packed: seq<bv8>)
      requires |completedChunks| == totalChunks
      ensures Packs(packed, completedChunks)
    {
      packed := seq(FieldSize(totalChunks), i => 0);
      for i := 0 to totalChunks
        invariant |packed| == FieldSize(totalChunks)
        invariant forall j: nat :: BitAt(packed, j) <==> j < i && completedChunks[j]
      {
        if completedChunks[i] {
          ghost var before := packed;
          packed := packed[i / 8 := packed[i / 8] | Mask(i % 8)];
          forall j: nat ensures BitAt(packed, j) <==> BitAt(before, j) || j == i {
            if j / 8 == i / 8 {
              SetBit(before[i / 8], i % 8, j % 8);
            }
          }
        }
      }
    }

    /** A field too short for the count is read past its end: `ok` is false at the first byte it lacks. */
    method UnpackBitfield(packed: seq<bv8>, expected: nat) returns (ok: bool)
      modifies this
      ensures totalChunks == expected == |completedChunks|
      ensures ok <==> FieldSize(expected) <= |packed|
      ensures ok ==> forall i :: 0 <= i < expected ==> completedChunks[i] == BitAt(packed, i)
    {
      totalChunks := expected;
      completedChunks := seq(expected, i => false);
      for i := 0 to expected
        invariant totalChunks == expected == |completedChunks|
        invariant FieldSize(i) <= |packed|
        invariant forall j :: 0 <= j < i ==> completedChunks[j] == BitAt(packed, j)
      {
        if i / 8 >= |packed| { return false; }
        completedChunks := completedChunks[i := packed[i / 8] & Mask(i % 8) != 0];
      }
      return true;
    }

    method IsComplete() returns (r: bool)
      ensures r <==> completedChunks != [] && forall i :: 0 <= i < |completedChunks| ==> completedChunks[i]
    {
      if completedChunks == [] { return false; }
      for i := 0 to |completedChunks|
        invariant forall j :: 0 <= j < i ==> completedChunks[j]
      {
        if !completedChunks[i] { return false; }
      }
      return true;
    }
  }

  /** What the sender makes of a handshake acknowledgement: five header bytes, then the field. A field
      shorter than the announced count makes the decoder read past it. */
  datatype AckOutcome = Ignored | Decoded(flags: seq<bool>) | Overrun

  const ACK_HEADER: nat := 5

  function FromLe32(b: seq<bv8>): nat
    requires |b| >= 4
  {
    (b[0] as int) + 256 * (b[1] as int) + 65536 * (b[2] as int) + 16777216 * (b[3] as int)
  }

  /** What a handshake acknowledgement means to a sender, given whether it has one already. */
  function AckMeaning(acked: bool, data: seq<bv8>): AckOutcome {
    if acked || |data| < ACK_HEADER then Ignored
    else
      var total := FromLe32(data[1..5]);
      if FieldSize(total) <= |data| - ACK_HEADER then Decoded(seq(total, (i: nat) => BitAt(data[5..], i))) else Overrun
  }

  /** The number that `b` spells in base 256, its first byte counting least. */
  function Value(b: seq<bv8>): nat {
    if b == [] then 0 else b[0] as int + 256 * Value(b[1..])
  }

  lemma CountField(b: seq<bv8>)
    requires |b| == 4
    ensures FromLe32(b) == Value(b)
  {
    assert b[1..][1..] == b[2..] && b[2..][1..] == b[3..] && b[3..][1..] == [];
    assert Value(b[3..]) == b[3] as int;
    assert Value(b[2..]) == b[2] as int + 256 * Value(b[3..]);
    assert Value(b[1..]) == b[1] as int + 256 * Value(b[2..]);
  }

  /** Exactly when an acknowledgement is ignored, is read past its end, or resumes the transfer: the count is
      the number in bytes 1 to 4, least significant first, and flag `i` is bit `i % 8` of byte `5 + i / 8`. */
  lemma AckMeans(acked: bool, data: seq<bv8>)
    ensures var r := AckMeaning(acked, data);
            && (r.Ignored? <==> acked || |data| < 5)
            && (r.Overrun? <==> !acked && |data| >= 5 && 8 * (|data| - 5) < Value(data[1..5]))
            && (r.Decoded? ==>
                  && |r.flags| == Value(data[1..5])
                  && forall i :: 0 <= i < |r.flags| ==>
                       5 + i / 8 < |data| && (r.flags[i] <==> data[5 + i / 8] & Mask(i % 8) != 0))
  {
    if |data| >= 5 {
      CountField(data[1..5]);
      assert forall i: nat :: 5 + i < |data| ==> data[5..][i] == data[5 + i];
    }
  }

  /** `processHandshakeACk`: the loop reads past the field exactly when it is too short for the count. */
  method DecodeAck(acked: bool, data: seq<bv8>) returns (r: AckOutcome)
    ensures r == AckMeaning(acked, data)
  {
    if acked || |data| < ACK_HEADER { return Ignored; }
    var total := FromLe32(data[1..5]);
    var ok, flags := DecodeField(data[5..], total);
    if ok { DecodedIs(data[5..], total, flags); }
    r := if ok then Decoded(flags) else Overrun;
  }

  lemma DecodedIs(field: seq<bv8>, total: nat, flags: seq<bool>)
    requires |flags| == total && forall i :: 0 <= i < total ==> flags[i] == BitAt(field, i)
    ensures flags == seq(total, (i: nat) => BitAt(field, i))
  {
  }

  /** The next bit is in the field exactly when the field is long enough for one flag more. */
  lemma NextBit(i: nat, n: nat)
    requires FieldSize(i) <= n
    ensures FieldSize(i + 1) <= n <==> i / 8 < n
  {
  }

  /** The bits of the field, one by one; false at the first byte it lacks. */
  method DecodeField(field: seq<bv8>, total: nat) returns (ok: bool, flags: seq<bool>)
    ensures ok <==> FieldSize(total) <= |field|
    ensures |flags| == total && (ok ==> forall i :: 0 <= i < total ==> flags[i] == BitAt(field, i))
  {
    flags := seq(total, i => false);
    for i := 0 to total
      invariant |flags| == total && FieldSize(i) <= |field|
      invariant forall j :: 0 <= j < i ==> flags[j] == BitAt(field, j)
    {
      NextBit(i, |field|);
      if i / 8 >= |field| {
        MoreBits(i + 1, total);
        return false, flags;
      }
      flags := flags[i := field[i / 8] & Mask(i % 8) != 0];
    }
    ok := true;
  }

  lemma MoreBits(m: nat, n: nat)
    requires m <= n
    ensures FieldSize(m) <= FieldSize(n)
  {
  }

  /** Packing, sending behind any header that announces the count, and decoding returns the receiver's
      flags; unpacking agrees with the decoder. */
  method ResumeStateArrives(m: TransferManifest, header: seq<bv8>, copy: TransferManifest) returns (r: AckOutcome)
    requires |m.completedChunks| == m.totalChunks && copy != m
    requires |header| == ACK_HEADER && FromLe32(header[1..5]) == m.totalChunks
    modifies copy
    ensures r == Decoded(m.completedChunks) && copy.completedChunks == m.completedChunks
  {
    var packed := m.PackBitfield();
    var msg := header + packed;
    assert msg[1..5] == header[1..5] && msg[5..] == packed;
    r := DecodeAck(false, msg);
    var ok := copy.UnpackBitfield(packed, m.totalChunks);
    assert forall i: nat :: i < m.totalChunks ==> (BitAt(packed, i) <==> m.completedChunks[i]);
  }
}
