/** CRC-32 as `hasher.cpp` computes it, from a 256-entry table, against the bit-by-bit shift
    register of section 8 of RFC 1952, and what the checksum detects. */
module Crc {

  /** `crc32_table`, sixteen entries to a row. */
  function Table(i: bv8): bv32 {
    match i >> 4
    case 0 => TableRow0(i & 0xF)
    case 1 => TableRow1(i & 0xF)
    case 2 => TableRow2(i & 0xF)
    case 3 => TableRow3(i & 0xF)
    case 4 => TableRow4(i & 0xF)
    case 5 => TableRow5(i & 0xF)
    case 6 => TableRow6(i & 0xF)
    case 7 => TableRow7(i & 0xF)
    case 8 => TableRow8(i & 0xF)
    case 9 => TableRow9(i & 0xF)
    case 10 => TableRow10(i & 0xF)
    case 11 => TableRow11(i & 0xF)
    case 12 => TableRow12(i & 0xF)
    case 13 => TableRow13(i & 0xF)
    case 14 => TableRow14(i & 0xF)
    case 15 => TableRow15(i & 0xF)
    case _ => 0
  }

  function TableRow0(j: bv8): bv32 {
    match j
    case 0 => 0x00000000 case 1 => 0x77073096 case 2 => 0xee0e612c case 3 => 0x990951ba
    case 4 => 0x076dc419 case 5 => 0x706af48f case 6 => 0xe963a535 case 7 => 0x9e6495a3
    case 8 => 0x0edb8832 case 9 => 0x79dcb8a4 case 10 => 0xe0d5e91e case 11 => 0x97d2d988
    case 12 => 0x09b64c2b case 13 => 0x7eb17cbd case 14 => 0xe7b82d07 case 15 => 0x90bf1d91
    case _ => 0
  }

  function TableRow1(j: bv8): bv32 {
    match j
    case 0 => 0x1db71064 case 1 => 0x6ab020f2 case 2 => 0xf3b97148 case 3 => 0x84be41de
    case 4 => 0x1adad47d case 5 => 0x6ddde4eb case 6 => 0xf4d4b551 case 7 => 0x83d385c7
    case 8 => 0x136c9856 case 9 => 0x646ba8c0 case 10 => 0xfd62f97a case 11 => 0x8a65c9ec
    case 12 => 0x14015c4f case 13 => 0x63066cd9 case 14 => 0xfa0f3d63 case 15 => 0x8d080df5
    case _ => 0
  }

  function TableRow2(j: bv8): bv32 {
    match j
    case 0 => 0x3b6e20c8 case 1 => 0x4c69105e case 2 => 0xd56041e4 case 3 => 0xa2677172
    case 4 => 0x3c03e4d1 case 5 => 0x4b04d447 case 6 => 0xd20d85fd case 7 => 0xa50ab56b
    case 8 => 0x35b5a8fa case 9 => 0x42b2986c case 10 => 0xdbbbc9d6 case 11 => 0xacbcf940
    case 12 => 0x32d86ce3 case 13 => 0x45df5c75 case 14 => 0xdcd60dcf case 15 => 0xabd13d59
    case _ => 0
  }

  function TableRow3(j: bv8): bv32 {
    match j
    case 0 => 0x26d930ac case 1 => 0x51de003a case 2 => 0xc8d75180 case 3 => 0xbfd06116
    case 4 => 0x21b4f4b5 case 5 => 0x56b3c423 case 6 => 0xcfba9599 case 7 => 0xb8bda50f
    case 8 => 0x2802b89e case 9 => 0x5f058808 case 10 => 0xc60cd9b2 case 11 => 0xb10be924
    case 12 => 0x2f6f7c87 case 13 => 0x58684c11 case 14 => 0xc1611dab case 15 => 0xb6662d3d
    case _ => 0
  }

  function TableRow4(j: bv8): bv32 {
    match j
    case 0 => 0x76dc4190 case 1 => 0x01db7106 case 2 => 0x98d220bc case 3 => 0xefd5102a
    case 4 => 0x71b18589 case 5 => 0x06b6b51f case 6 => 0x9fbfe4a5 case 7 => 0xe8b8d433
    case 8 => 0x7807c9a2 case 9 => 0x0f00f934 case 10 => 0x9609a88e case 11 => 0xe10e9818
    case 12 => 0x7f6a0dbb case 13 => 0x086d3d2d case 14 => 0x91646c97 case 15 => 0xe6635c01
    case _ => 0
  }

  function TableRow5(j: bv8): bv32 {
    match j
    case 0 => 0x6b6b51f4 case 1 => 0x1c6c6162 case 2 => 0x856530d8 case 3 => 0xf262004e
    case 4 => 0x6c0695ed case 5 => 0x1b01a57b case 6 => 0x8208f4c1 case 7 => 0xf50fc457
    case 8 => 0x65b0d9c6 case 9 => 0x12b7e950 case 10 => 0x8bbeb8ea case 11 => 0xfcb9887c
    case 12 => 0x62dd1ddf case 13 => 0x15da2d49 case 14 => 0x8cd37cf3 case 15 => 0xfbd44c65
    case _ => 0
  }

  function TableRow6(j: bv8): bv32 {
    match j
    case 0 => 0x4db26158 case 1 => 0x3ab551ce case 2 => 0xa3bc0074 case 3 => 0xd4bb30e2
    case 4 => 0x4adfa541 case 5 => 0x3dd895d7 case 6 => 0xa4d1c46d case 7 => 0xd3d6f4fb
    case 8 => 0x4369e96a case 9 => 0x346ed9fc case 10 => 0xad678846 case 11 => 0xda60b8d0
    case 12 => 0x44042d73 case 13 => 0x33031de5 case 14 => 0xaa0a4c5f case 15 => 0xdd0d7cc9
    case _ => 0
  }

  function TableRow7(j: bv8): bv32 {
    match j
    case 0 => 0x5005713c case 1 => 0x270241aa case 2 => 0xbe0b1010 case 3 => 0xc90c2086
    case 4 => 0x5768b525 case 5 => 0x206f85b3 case 6 => 0xb966d409 case 7 => 0xce61e49f
    case 8 => 0x5edef90e case 9 => 0x29d9c998 case 10 => 0xb0d09822 case 11 => 0xc7d7a8b4
    case 12 => 0x59b33d17 case 13 => 0x2eb40d81 case 14 => 0xb7bd5c3b case 15 => 0xc0ba6cad
    case _ => 0
  }

  function TableRow8(j: bv8): bv32 {
    match j
    case 0 => 0xedb88320 case 1 => 0x9abfb3b6 case 2 => 0x03b6e20c case 3 => 0x74b1d29a
    case 4 => 0xead54739 case 5 => 0x9dd277af case 6 => 0x04db2615 case 7 => 0x73dc1683
    case 8 => 0xe3630b12 case 9 => 0x94643b84 case 10 => 0x0d6d6a3e case 11 => 0x7a6a5aa8
    case 12 => 0xe40ecf0b case 13 => 0x9309ff9d case 14 => 0x0a00ae27 case 15 => 0x7d079eb1
    case _ => 0
  }

  function TableRow9(j: bv8): bv32 {
    match j
    case 0 => 0xf00f9344 case 1 => 0x8708a3d2 case 2 => 0x1e01f268 case 3 => 0x6906c2fe
    case 4 => 0xf762575d case 5 => 0x806567cb case 6 => 0x196c3671 case 7 => 0x6e6b06e7
    case 8 => 0xfed41b76 case 9 => 0x89d32be0 case 10 => 0x10da7a5a case 11 => 0x67dd4acc
    case 12 => 0xf9b9df6f case 13 => 0x8ebeeff9 case 14 => 0x17b7be43 case 15 => 0x60b08ed5
    case _ => 0
  }

  function TableRow10(j: bv8): bv32 {
    match j
    case 0 => 0xd6d6a3e8 case 1 => 0xa1d1937e case 2 => 0x38d8c2c4 case 3 => 0x4fdff252
    case 4 => 0xd1bb67f1 case 5 => 0xa6bc5767 case 6 => 0x3fb506dd case 7 => 0x48b2364b
    case 8 => 0xd80d2bda case 9 => 0xaf0a1b4c case 10 => 0x36034af6 case 11 => 0x41047a60
    case 12 => 0xdf60efc3 case 13 => 0xa867df55 case 14 => 0x316e8eef case 15 => 0x4669be79
    case _ => 0
  }

  function TableRow11(j: bv8): bv32 {
    match j
    case 0 => 0xcb61b38c case 1 => 0xbc66831a case 2 => 0x256fd2a0 case 3 => 0x5268e236
    case 4 => 0xcc0c7795 case 5 => 0xbb0b4703 case 6 => 0x220216b9 case 7 => 0x5505262f
    case 8 => 0xc5ba3bbe case 9 => 0xb2bd0b28 case 10 => 0x2bb45a92 case 11 => 0x5cb36a04
    case 12 => 0xc2d7ffa7 case 13 => 0xb5d0cf31 case 14 => 0x2cd99e8b case 15 => 0x5bdeae1d
    case _ => 0
  }

  function TableRow12(j: bv8): bv32 {
    match j
    case 0 => 0x9b64c2b0 case 1 => 0xec63f226 case 2 => 0x756aa39c case 3 => 0x026d930a
    case 4 => 0x9c0906a9 case 5 => 0xeb0e363f case 6 => 0x72076785 case 7 => 0x05005713
    case 8 => 0x95bf4a82 case 9 => 0xe2b87a14 case 10 => 0x7bb12bae case 11 => 0x0cb61b38
    case 12 => 0x92d28e9b case 13 => 0xe5d5be0d case 14 => 0x7cdcefb7 case 15 => 0x0bdbdf21
    case _ => 0
  }

  function TableRow13(j: bv8): bv32 {
    match j
    case 0 => 0x86d3d2d4 case 1 => 0xf1d4e242 case 2 => 0x68ddb3f8 case 3 => 0x1fda836e
    case 4 => 0x81be16cd case 5 => 0xf6b9265b case 6 => 0x6fb077e1 case 7 => 0x18b74777
    case 8 => 0x88085ae6 case 9 => 0xff0f6a70 case 10 => 0x66063bca case 11 => 0x11010b5c
    case 12 => 0x8f659eff case 13 => 0xf862ae69 case 14 => 0x616bffd3 case 15 => 0x166ccf45
    case _ => 0
  }

  function TableRow14(j: bv8): bv32 {
    match j
    case 0 => 0xa00ae278 case 1 => 0xd70dd2ee case 2 => 0x4e048354 case 3 => 0x3903b3c2
    case 4 => 0xa7672661 case 5 => 0xd06016f7 case 6 => 0x4969474d case 7 => 0x3e6e77db
    case 8 => 0xaed16a4a case 9 => 0xd9d65adc case 10 => 0x40df0b66 case 11 => 0x37d83bf0
    case 12 => 0xa9bcae53 case 13 => 0xdebb9ec5 case 14 => 0x47b2cf7f case 15 => 0x30b5ffe9
    case _ => 0
  }

  function TableRow15(j: bv8): bv32 {
    match j
    case 0 => 0xbdbdf21c case 1 => 0xcabac28a case 2 => 0x53b39330 case 3 => 0x24b4a3a6
    case 4 => 0xbad03605 case 5 => 0xcdd70693 case 6 => 0x54de5729 case 7 => 0x23d967bf
    case 8 => 0xb3667a2e case 9 => 0xc4614ab8 case 10 => 0x5d681b02 case 11 => 0x2a6f2b94
    case 12 => 0xb40bbe37 case 13 => 0xc30c8ea1 case 14 => 0x5a05df1b case 15 => 0x2d02ef8d
    case _ => 0
  }

  // ----- the shift register -----

  const POLY: bv32 := 0xEDB88320

  /** One bit of the reflected shift register. */
  function Bit(c: bv32): bv32 {
    if c & 1 == 1 then (c >> 1) ^ POLY else c >> 1
  }

  function Iter<T>(f: T -> T, n: nat, c: T): T {
    if n == 0 then c else Iter(f, n - 1, f(c))
  }

  const BYTE: nat := 8

  /** Eight bits of the register. */
  function Shift8(c: bv32): bv32 {
    Iter(Bit, BYTE, c)
  }

  /** The register after feeding one byte bit by bit. */
  function Feed(c: bv32, b: bv8): bv32 {
    Shift8(c ^ (b as bv32))
  }

  function FeedAll<T, B>(step: (T, B) -> T, c: T, data: seq<B>): T {
    if data == [] then c else step(FeedAll(step, c, data[..|data| - 1]), data[|data| - 1])
  }

  /** The checksum by definition. */
  function Checksum(data: seq<bv8>): bv32 {
    FeedAll(Feed, 0xFFFF_FFFF, data) ^ 0xFFFF_FFFF
  }

  // ----- the table is the register advanced by eight bits -----

  function EightBits(c: bv32): bv32 {
    Bit(Bit(Bit(Bit(Bit(Bit(Bit(Bit(c))))))))
  }

  /** Eight applications along a chain. */
  lemma IterChain<T>(f: T -> T, n: nat, c0: T, c1: T, c2: T, c3: T, c4: T, c5: T, c6: T, c7: T, c8: T)
    requires n == 8 && f(c0) == c1 && f(c1) == c2 && f(c2) == c3 && f(c3) == c4
    requires f(c4) == c5 && f(c5) == c6 && f(c6) == c7 && f(c7) == c8
    ensures Iter(f, n, c0) == c8
  {
    assert Iter(f, n, c0) == Iter(f, n - 1, c1);
    assert Iter(f, n - 1, c1) == Iter(f, n - 2, c2);
    assert Iter(f, n - 2, c2) == Iter(f, n - 3, c3);
    assert Iter(f, n - 3, c3) == Iter(f, n - 4, c4);
    assert Iter(f, n - 4, c4) == Iter(f, n - 5, c5);
    assert Iter(f, n - 5, c5) == Iter(f, n - 6, c6);
    assert Iter(f, n - 6, c6) == Iter(f, n - 7, c7);
    assert Iter(f, n - 7, c7) == Iter(f, n - 8, c8);
  }

  lemma Unroll(c: bv32)
    ensures Shift8(c) == EightBits(c)
  {
    var c1 := Bit(c);
    var c2 := Bit(c1);
    var c3 := Bit(c2);
    var c4 := Bit(c3);
    var c5 := Bit(c4);
    var c6 := Bit(c5);
    var c7 := Bit(c6);
    IterChain(Bit, BYTE, c, c1, c2, c3, c4, c5, c6, c7, Bit(c7));
  }

  lemma Row0(j: bv8)
    requires j < 16
    ensures TableRow0(j) == EightBits((0 | j) as bv32)
  {
  }

  lemma Row1(j: bv8)
    requires j < 16
    ensures TableRow1(j) == EightBits((16 | j) as bv32)
  {
  }

  lemma Row2(j: bv8)
    requires j < 16
    ensures TableRow2(j) == EightBits((32 | j) as bv32)
  {
  }

  lemma Row3(j: bv8)
    requires j < 16
    ensures TableRow3(j) == EightBits((48 | j) as bv32)
  {
  }

  lemma Row4(j: bv8)
    requires j < 16
    ensures TableRow4(j) == EightBits((64 | j) as bv32)
  {
  }

  lemma Row5(j: bv8)
    requires j < 16
    ensures TableRow5(j) == EightBits((80 | j) as bv32)
  {
  }

  lemma Row6(j: bv8)
    requires j < 16
    ensures TableRow6(j) == EightBits((96 | j) as bv32)
  {
  }

  lemma Row7(j: bv8)
    requires j < 16
    ensures TableRow7(j) == EightBits((112 | j) as bv32)
  {
  }

  lemma Row8(j: bv8)
    requires j < 16
    ensures TableRow8(j) == EightBits((128 | j) as bv32)
  {
  }

  lemma Row9(j: bv8)
    requires j < 16
    ensures TableRow9(j) == EightBits((144 | j) as bv32)
  {
  }

  lemma Row10(j: bv8)
    requires j < 16
    ensures TableRow10(j) == EightBits((160 | j) as bv32)
  {
  }

  lemma Row11(j: bv8)
    requires j < 16
    ensures TableRow11(j) == EightBits((176 | j) as bv32)
  {
  }

  lemma Row12(j: bv8)
    requires j < 16
    ensures TableRow12(j) == EightBits((192 | j) as bv32)
  {
  }

  lemma Row13(j: bv8)
    requires j < 16
    ensures TableRow13(j) == EightBits((208 | j) as bv32)
  {
  }

  lemma Row14(j: bv8)
    requires j < 16
    ensures TableRow14(j) == EightBits((224 | j) as bv32)
  {
  }

  lemma Row15(j: bv8)
    requires j < 16
    ensures TableRow15(j) == EightBits((240 | j) as bv32)
  {
  }

  lemma Nibbles(i: bv8)
    ensures i & 0xF < 16 && i >> 4 < 16 && i == ((i >> 4) << 4) | (i & 0xF)
  {
  }

  /** Every entry of the table is what eight steps of the register make of its index. */
  lemma TableIsShift(i: bv8)
    ensures Table(i) == Shift8(i as bv32)
  {
    Nibbles(i);
    Unroll(i as bv32);
    match i >> 4
    case 0 => Row0(i & 0xF);
    case 1 => Row1(i & 0xF);
    case 2 => Row2(i & 0xF);
    case 3 => Row3(i & 0xF);
    case 4 => Row4(i & 0xF);
    case 5 => Row5(i & 0xF);
    case 6 => Row6(i & 0xF);
    case 7 => Row7(i & 0xF);
    case 8 => Row8(i & 0xF);
    case 9 => Row9(i & 0xF);
    case 10 => Row10(i & 0xF);
    case 11 => Row11(i & 0xF);
    case 12 => Row12(i & 0xF);
    case 13 => Row13(i & 0xF);
    case 14 => Row14(i & 0xF);
    case 15 => Row15(i & 0xF);
  }

  // ----- the register is linear -----

  lemma ShiftXor(x: bv32, y: bv32)
    ensures (x ^ y) >> 1 == (x >> 1) ^ (y >> 1)
    ensures (x ^ y) & 1 == (x & 1) ^ (y & 1)
    ensures (x & 1 == 0 || x & 1 == 1) && (y & 1 == 0 || y & 1 == 1)
  {
  }

  lemma XorSwap(a: bv32, b: bv32, p: bv32)
    ensures (a ^ p) ^ (b ^ p) == a ^ b && (a ^ p) ^ b == (a ^ b) ^ p && a ^ (b ^ p) == (a ^ b) ^ p
  {
  }

  lemma BitLinear(x: bv32, y: bv32)
    ensures Bit(x ^ y) == Bit(x) ^ Bit(y)
  {
    ShiftXor(x, y);
    XorSwap(x >> 1, y >> 1, POLY);
    if x & 1 == 1 {
      if y & 1 == 1 {} else {}
    } else {
      if y & 1 == 1 {} else {}
    }
  }

  lemma BitInjective(x: bv32, y: bv32)
    requires Bit(x) == Bit(y)
    ensures x == y
  {
  }

  lemma DoubledBits(w: bv32)
    requires w < 0x8000_0000
    ensures (w << 1) & 1 == 0 && (w << 1) >> 1 == w
  {
  }

  /** A zero bit only shifts. */
  lemma BitOfDouble(w: bv32)
    requires w < 0x8000_0000
    ensures Bit(w << 1) == w
  {
    DoubledBits(w);
  }

  function Xor(x: bv32, y: bv32): bv32 { x ^ y }

  /** Iterating a homomorphism gives one. */
  lemma {:induction false} IterHom<T(!new)>(f: T -> T, op: (T, T) -> T, n: nat, x: T, y: T)
    requires forall a: T, b: T {:trigger f(op(a, b))} :: f(op(a, b)) == op(f(a), f(b))
    ensures Iter(f, n, op(x, y)) == op(Iter(f, n, x), Iter(f, n, y))
  {
    if n > 0 {
      assert f(op(x, y)) == op(f(x), f(y));
      IterHom(f, op, n - 1, f(x), f(y));
    }
  }

  lemma {:induction false} IterInjective<T(!new)>(f: T -> T, n: nat, x: T, y: T)
    requires forall a: T, b: T {:trigger f(a), f(b)} :: f(a) == f(b) ==> a == b
    requires Iter(f, n, x) == Iter(f, n, y)
    ensures x == y
  {
    if n > 0 {
      IterInjective(f, n - 1, f(x), f(y));
    }
  }

  ghost predicate IsHom(f: bv32 -> bv32) {
    forall a: bv32, b: bv32 {:trigger f(Xor(a, b))} :: f(Xor(a, b)) == Xor(f(a), f(b))
  }

  lemma BitHom()
    ensures IsHom(Bit)
  {
    forall a: bv32, b: bv32 {:trigger Bit(Xor(a, b))} ensures Bit(Xor(a, b)) == Xor(Bit(a), Bit(b)) {
      BitLinear(a, b);
    }
  }

  lemma IterIsHom(f: bv32 -> bv32, g: bv32 -> bv32, n: nat)
    requires IsHom(f) && forall c :: g(c) == Iter(f, n, c)
    ensures IsHom(g)
  {
    forall a: bv32, b: bv32 {:trigger g(Xor(a, b))} ensures g(Xor(a, b)) == Xor(g(a), g(b)) {
      IterHom(f, Xor, n, a, b);
    }
  }

  lemma Shift8Hom()
    ensures IsHom(Shift8)
  {
    BitHom();
    IterIsHom(Bit, Shift8, BYTE);
  }

  lemma Shift8Injective(x: bv32, y: bv32)
    requires Shift8(x) == Shift8(y)
    ensures x == y
  {
    forall a: bv32, b: bv32 | Bit(a) == Bit(b) ensures a == b {
      BitInjective(a, b);
    }
    IterInjective(Bit, BYTE, x, y);
  }

  ghost predicate Halves(f: bv32 -> bv32) {
    forall w: bv32 {:trigger f(w << 1)} :: w < 0x8000_0000 ==> f(w << 1) == w
  }

  lemma BitHalves()
    ensures Halves(Bit)
  {
    forall w: bv32 {:trigger Bit(w << 1)} | w < 0x8000_0000 ensures Bit(w << 1) == w {
      BitOfDouble(w);
    }
  }

  lemma Doublings(w: bv32)
    requires w < 0x0100_0000
    ensures w << 8 == (w << 7) << 1 && w << 7 == (w << 6) << 1 && w << 6 == (w << 5) << 1 && w << 5 == (w << 4) << 1
    ensures w << 4 == (w << 3) << 1 && w << 3 == (w << 2) << 1 && w << 2 == (w << 1) << 1
    ensures w << 7 < 0x8000_0000 && w << 6 < 0x8000_0000 && w << 5 < 0x8000_0000 && w << 4 < 0x8000_0000
    ensures w << 3 < 0x8000_0000 && w << 2 < 0x8000_0000 && w << 1 < 0x8000_0000
  {
  }

  lemma IterHalf(f: bv32 -> bv32, n: nat, w: bv32)
    requires Halves(f) && n > 0 && w < 0x8000_0000
    ensures Iter(f, n, w << 1) == Iter(f, n - 1, w)
  {
    assert f(w << 1) == w;
  }

  /** Eight zero bits only shift. */
  lemma IterOfHigh(f: bv32 -> bv32, n: nat, w: bv32)
    requires Halves(f) && n == 8 && w < 0x0100_0000
    ensures Iter(f, n, w << 8) == w
  {
    Doublings(w);
    IterHalf(f, n, w << 7);
    IterHalf(f, n - 1, w << 6);
    IterHalf(f, n - 2, w << 5);
    IterHalf(f, n - 3, w << 4);
    IterHalf(f, n - 4, w << 3);
    IterHalf(f, n - 5, w << 2);
    IterHalf(f, n - 6, w << 1);
    IterHalf(f, n - 7, w);
  }

  lemma Shift8OfHigh(w: bv32)
    requires w < 0x0100_0000
    ensures Shift8(w << 8) == w
  {
    BitHalves();
    IterOfHigh(Bit, BYTE, w);
  }

  // ----- the table loop -----

  lemma ByteParts(c: bv32, b: bv8)
    ensures var x := c ^ (b as bv32);
            && x == (x & 0xFF) ^ ((c >> 8) << 8)
            && c >> 8 < 0x0100_0000
            && ((x & 0xFF) as bv8) as bv32 == x & 0xFF
  {
  }

  /** The algebra of one step: a homomorphism of a sum is the sum of its parts. */
  lemma SumStep<T>(f: T -> T, op: (T, T) -> T, x: T, low: T, top: T, high: T, entry: T)
    requires x == op(low, top) && f(op(low, top)) == op(f(low), f(top)) && f(top) == high && entry == f(low)
    ensures f(x) == op(entry, high)
  {
  }

  /** A byte-at-a-time step through any table of the register's values is a step of the register. */
  lemma StepThrough(f: bv32 -> bv32, entry: bv32, c: bv32, b: bv8)
    requires f(Xor((c ^ (b as bv32)) & 0xFF, (c >> 8) << 8)) == Xor(f((c ^ (b as bv32)) & 0xFF), f((c >> 8) << 8))
    requires f((c >> 8) << 8) == c >> 8
    requires entry == f((c ^ (b as bv32)) & 0xFF)
    ensures f(c ^ (b as bv32)) == Xor(entry, c >> 8)
  {
    ByteParts(c, b);
    SumStep(f, Xor, c ^ (b as bv32), (c ^ (b as bv32)) & 0xFF, (c >> 8) << 8, c >> 8, entry);
  }

  lemma EntryIsShift(c: bv32, b: bv8)
    ensures Table(((c ^ (b as bv32)) & 0xFF) as bv8) == Shift8((c ^ (b as bv32)) & 0xFF)
  {
    ByteParts(c, b);
    TableIsShift(((c ^ (b as bv32)) & 0xFF) as bv8);
  }

  lemma Shift8Linear(x: bv32, y: bv32)
    ensures Shift8(Xor(x, y)) == Xor(Shift8(x), Shift8(y))
  {
    Shift8Hom();
  }

  lemma HighByte(c: bv32)
    ensures Shift8((c >> 8) << 8) == c >> 8
  {
    assert c >> 8 < 0x0100_0000;
    Shift8OfHigh(c >> 8);
  }

  /** One step of the table loop is eight steps of the register. */
  lemma TableStep(c: bv32, b: bv8)
    ensures Xor(Table(((c ^ (b as bv32)) & 0xFF) as bv8), c >> 8) == Feed(c, b)
  {
    HighByte(c);
    EntryIsShift(c, b);
    Shift8Linear((c ^ (b as bv32)) & 0xFF, (c >> 8) << 8);
    StepThrough(Shift8, Table(((c ^ (b as bv32)) & 0xFF) as bv8), c, b);
  }

  lemma XorCommutes(a: bv32, b: bv32)
    ensures a ^ b == b ^ a
  {
  }

  /** `Hasher::crc32`: the table loop computes the checksum by definition. */
  method Crc32(data: seq<bv8>) returns (crc: bv32)
    ensures crc == Checksum(data)
  {
    crc := 0xFFFF_FFFF;
    for i := 0 to |data|
      invariant crc == FeedAll(Feed, 0xFFFF_FFFF, data[..i])
    {
      var b := data[i];
      TableStep(crc, b);
      XorCommutes(crc >> 8, Table(((crc ^ (b as bv32)) & 0xFF) as bv8));
      assert data[..i + 1][..i] == data[..i];
      crc := (crc >> 8) ^ Table(((crc ^ (b as bv32)) & 0xFF) as bv8);
    }
    assert data[..|data|] == data;
    crc := crc ^ 0xFFFF_FFFF;
  }

  // ----- what the checksum detects -----

  lemma XorCancel(a: bv32, b: bv32, c: bv32)
    ensures a ^ c == b ^ c <==> a == b
    ensures c ^ a == c ^ b <==> a == b
  {
  }

  /** Feeding the same byte never makes two different states equal. */
  lemma FeedInjective(c: bv32, d: bv32, b: bv8)
    requires Feed(c, b) == Feed(d, b)
    ensures c == d
  {
    Shift8Injective(c ^ (b as bv32), d ^ (b as bv32));
    XorCancel(c, d, b as bv32);
  }

  lemma {:induction false} FeedAllInjective<T(!new), B(!new)>(step: (T, B) -> T, c: T, d: T, data: seq<B>)
    requires forall x: T, y: T, b: B {:trigger step(x, b), step(y, b)} :: step(x, b) == step(y, b) ==> x == y
    requires FeedAll(step, c, data) == FeedAll(step, d, data)
    ensures c == d
  {
    if data != [] {
      var front := data[..|data| - 1];
      assert FeedAll(step, c, front) == FeedAll(step, d, front);
      FeedAllInjective(step, c, d, front);
    }
  }

  lemma {:induction false} FeedAllAppend<T, B>(step: (T, B) -> T, c: T, a: seq<B>, b: seq<B>)
    ensures FeedAll(step, c, a + b) == FeedAll(step, FeedAll(step, c, a), b)
  {
    if b == [] {
      assert a + b == a;
    } else {
      var front := b[..|b| - 1];
      assert (a + b)[..|a + b| - 1] == a + front;
      FeedAllAppend(step, c, a, front);
    }
  }

  /** `b` below the word `v`. */
  function Join(b: bv8, v: bv32): bv32 { Xor(b as bv32, v << 8) }

  /** Up to four bytes as the number whose low byte comes first. */
  function Word(w: seq<bv8>): bv32 {
    if w == [] then 0 else Join(w[0], Word(w[1..]))
  }

  lemma XorAssoc(a: bv32, b: bv32, c: bv32)
    ensures Xor(a, Xor(b, c)) == Xor(Xor(a, b), c)
  {
    RawXorAssoc(a, b, c);
    calc {
      Xor(a, Xor(b, c));
      Xor(a, b ^ c);
      a ^ (b ^ c);
      (a ^ b) ^ c;
      Xor(a ^ b, c);
      Xor(Xor(a, b), c);
    }
  }

  lemma RawXorAssoc(a: bv32, b: bv32, c: bv32)
    ensures a ^ (b ^ c) == (a ^ b) ^ c
  {
  }

  /** Feeding `b` leaves the rest of the joined word. */
  lemma Absorb(c: bv32, b: bv8, v: bv32)
    requires v < 0x0100_0000
    ensures Shift8(Xor(c, Join(b, v))) == Xor(Feed(c, b), v)
  {
    XorAssoc(c, b as bv32, v << 8);
    Shift8OfHigh(v);
    Shift8Linear(c ^ (b as bv32), v << 8);
    SumStep(Shift8, Xor, Xor(c, Join(b, v)), c ^ (b as bv32), v << 8, v, Feed(c, b));
  }

  lemma JoinBounds(b: bv8, v: bv32)
    ensures v < 0x0001_0000 ==> Join(b, v) < 0x0100_0000
    ensures v < 0x0000_0100 ==> Join(b, v) < 0x0001_0000
    ensures v == 0 ==> Join(b, v) < 0x0000_0100
  {
  }

  lemma WordSmall(w: seq<bv8>)
    requires |w| <= 3
    ensures Word(w) < 0x0100_0000
    ensures |w| <= 2 ==> Word(w) < 0x0001_0000
    ensures |w| <= 1 ==> Word(w) < 0x0000_0100
    ensures |w| == 0 ==> Word(w) == 0
  {
    if w != [] {
      WordSmall(w[1..]);
      JoinBounds(w[0], Word(w[1..]));
    }
  }

  lemma JoinInjective(a: bv8, b: bv8, v: bv32, u: bv32)
    requires Join(a, v) == Join(b, u) && v < 0x0100_0000 && u < 0x0100_0000
    ensures a == b && v == u
  {
  }

  lemma {:induction false} WordInjective(v: seq<bv8>, w: seq<bv8>)
    requires |v| == |w| <= 4 && Word(v) == Word(w)
    ensures v == w
  {
    if v != [] {
      WordSmall(v[1..]);
      WordSmall(w[1..]);
      JoinInjective(v[0], w[0], Word(v[1..]), Word(w[1..]));
      WordInjective(v[1..], w[1..]);
      assert v == [v[0]] + v[1..] && w == [w[0]] + w[1..];
    }
  }

  /** Feeding up to four bytes is feeding their word at once. */
  lemma {:induction false} FeedWord(c: bv32, w: seq<bv8>)
    requires |w| <= 4
    ensures FeedAll(Feed, c, w) == Iter(Shift8, |w|, Xor(c, Word(w)))
    decreases |w|
  {
    if w == [] {
      assert c ^ 0 == c;
    } else {
      var rest := w[1..];
      FeedFirst(Feed, c, w);
      WordSmall(rest);
      Absorb(c, w[0], Word(rest));
      FeedWord(Feed(c, w[0]), rest);
    }
  }

  lemma FeedFirst<T, B>(step: (T, B) -> T, c: T, w: seq<B>)
    requires w != []
    ensures FeedAll(step, c, w) == FeedAll(step, step(c, w[0]), w[1..])
  {
    FeedAllAppend(step, c, [w[0]], w[1..]);
    assert w == [w[0]] + w[1..];
    assert FeedAll(step, c, [w[0]]) == step(FeedAll(step, c, []), w[0]);
  }

  /** Different words of the same length, up to four bytes, leave different states. */
  lemma BurstStates(c: bv32, v: seq<bv8>, w: seq<bv8>)
    requires |v| == |w| <= 4 && FeedAll(Feed, c, v) == FeedAll(Feed, c, w)
    ensures v == w
  {
    FeedWord(c, v);
    FeedWord(c, w);
    forall a: bv32, b: bv32 | Shift8(a) == Shift8(b) ensures a == b {
      Shift8Injective(a, b);
    }
    IterInjective(Shift8, |v|, Xor(c, Word(v)), Xor(c, Word(w)));
    XorCancel(Word(v), Word(w), c);
    WordInjective(v, w);
  }

  lemma StatesDiffer<T(!new), B(!new)>(step: (T, B) -> T, c: T, pre: seq<B>, v: seq<B>, w: seq<B>, post: seq<B>)
    requires forall x: T, y: T, b: B {:trigger step(x, b), step(y, b)} :: step(x, b) == step(y, b) ==> x == y
    requires FeedAll(step, c, pre + v + post) == FeedAll(step, c, pre + w + post)
    ensures FeedAll(step, FeedAll(step, c, pre), v) == FeedAll(step, FeedAll(step, c, pre), w)
  {
    FeedAllAppend(step, c, pre + v, post);
    FeedAllAppend(step, c, pre + w, post);
    FeedAllAppend(step, c, pre, v);
    FeedAllAppend(step, c, pre, w);
    FeedAllInjective(step, FeedAll(step, c, pre + v), FeedAll(step, c, pre + w), post);
  }

  /** Any change confined to four consecutive bytes changes the checksum. */
  lemma DetectsBurst(pre: seq<bv8>, v: seq<bv8>, w: seq<bv8>, post: seq<bv8>)
    requires |v| == |w| <= 4 && v != w
    ensures Checksum(pre + v + post) != Checksum(pre + w + post)
  {
    if Checksum(pre + v + post) == Checksum(pre + w + post) {
      XorCancel(FeedAll(Feed, 0xFFFF_FFFF, pre + v + post), FeedAll(Feed, 0xFFFF_FFFF, pre + w + post), 0xFFFF_FFFF);
      forall x: bv32, y: bv32, b: bv8 | Feed(x, b) == Feed(y, b) ensures x == y {
        FeedInjective(x, y, b);
      }
      StatesDiffer(Feed, 0xFFFF_FFFF, pre, v, w, post);
      BurstStates(FeedAll(Feed, 0xFFFF_FFFF, pre), v, w);
    }
  }

  // ----- known values -----

  lemma FeedsTo(c: bv32, b: bv8, d: bv32)
    requires EightBits(c ^ (b as bv32)) == d
    ensures Feed(c, b) == d
  {
    Unroll(c ^ (b as bv32));
  }

  lemma FeedsOn(data: seq<bv8>, i: nat, c: bv32, b: bv8, d: bv32)
    requires i < |data| && data[i] == b && FeedAll(Feed, 0xFFFF_FFFF, data[..i]) == c && EightBits(c ^ (b as bv32)) == d
    ensures FeedAll(Feed, 0xFFFF_FFFF, data[..i + 1]) == d
  {
    FeedsTo(c, b, d);
    assert data[..i + 1][..i] == data[..i];
  }

  const DIGITS: seq<bv8> := [0x31, 0x32, 0x33, 0x34, 0x35, 0x36, 0x37, 0x38, 0x39]

  lemma Digits0(data: seq<bv8>)
    requires data == DIGITS && FeedAll(Feed, 0xFFFF_FFFF, data[..0]) == 0xFFFF_FFFF
    ensures FeedAll(Feed, 0xFFFF_FFFF, data[..2]) == 0xB0AC_BB32
  {
    FeedsOn(data, 0, 0xFFFF_FFFF, 0x31, 0x7C23_1048);
    FeedsOn(data, 1, 0x7C23_1048, 0x32, 0xB0AC_BB32);
  }

  lemma Digits1(data: seq<bv8>)
    requires data == DIGITS && FeedAll(Feed, 0xFFFF_FFFF, data[..2]) == 0xB0AC_BB32
    ensures FeedAll(Feed, 0xFFFF_FFFF, data[..4]) == 0x641C_1F5C
  {
    FeedsOn(data, 2, 0xB0AC_BB32, 0x33, 0x77B7_9C2D);
    FeedsOn(data, 3, 0x77B7_9C2D, 0x34, 0x641C_1F5C);
  }

  lemma Digits2(data: seq<bv8>)
    requires data == DIGITS && FeedAll(Feed, 0xFFFF_FFFF, data[..4]) == 0x641C_1F5C
    ensures FeedAll(Feed, 0xFFFF_FFFF, data[..6]) == 0xF68D_2C9E
  {
    FeedsOn(data, 4, 0x641C_1F5C, 0x35, 0x340A_C5E3);
    FeedsOn(data, 5, 0x340A_C5E3, 0x36, 0xF68D_2C9E);
  }

  lemma Digits3(data: seq<bv8>)
    requires data == DIGITS && FeedAll(Feed, 0xFFFF_FFFF, data[..6]) == 0xF68D_2C9E
    ensures FeedAll(Feed, 0xFFFF_FFFF, data[..8]) == 0x651F_2550
  {
    FeedsOn(data, 6, 0xF68D_2C9E, 0x37, 0xAFFC_9660);
    FeedsOn(data, 7, 0xAFFC_9660, 0x38, 0x651F_2550);
  }

  lemma Digits4(data: seq<bv8>)
    requires data == DIGITS && FeedAll(Feed, 0xFFFF_FFFF, data[..8]) == 0x651F_2550
    ensures FeedAll(Feed, 0xFFFF_FFFF, data[..9]) == 0x340B_C6D9
  {
    FeedsOn(data, 8, 0x651F_2550, 0x39, 0x340B_C6D9);
  }

  /** The check value of CRC-32, of the nine digits "123456789"; of no bytes at all the checksum is 0. */
  lemma CheckValue()
    ensures Checksum([]) == 0
    ensures Checksum(DIGITS) == 0xCBF4_3926
  {
    var data := DIGITS;
    assert data[..0] == [];
    Digits0(data);
    Digits1(data);
    Digits2(data);
    Digits3(data);
    Digits4(data);
    assert data[..9] == data;
  }

  lemma ShiftsTo(c: bv32, d: bv32)
    requires EightBits(c) == d
    ensures Shift8(c) == d
  {
    Unroll(c);
  }

  lemma IterFour<T>(f: T -> T, n: nat, c0: T, c1: T, c2: T, c3: T, c4: T)
    requires n == 4 && f(c0) == c1 && f(c1) == c2 && f(c2) == c3 && f(c3) == c4
    ensures Iter(f, n, c0) == c4
  {
    assert Iter(f, n, c0) == Iter(f, n - 1, c1);
    assert Iter(f, n - 1, c1) == Iter(f, n - 2, c2);
    assert Iter(f, n - 2, c2) == Iter(f, n - 3, c3);
  }

  lemma Residual(c: bv32)
    ensures Xor(c, c ^ 0xFFFF_FFFF) == 0xFFFF_FFFF
  {
  }

  lemma IterResidue()
    ensures Iter(Shift8, 4, 0xFFFF_FFFF) == 0xDEBB_20E3
  {
    ShiftsTo(0xFFFF_FFFF, 0x2DFD_1072);
    ShiftsTo(0x2DFD_1072, 0xBE26_ED00);
    ShiftsTo(0xBE26_ED00, 0x00BE_26ED);
    ShiftsTo(0x00BE_26ED, 0xDEBB_20E3);
    IterFour(Shift8, 4, 0xFFFF_FFFF, 0x2DFD_1072, 0xBE26_ED00, 0x00BE_26ED, 0xDEBB_20E3);
  }

  /** Data followed by its checksum, low byte first, always has the same checksum, whatever the data. */
  lemma Residue(data: seq<bv8>, w: seq<bv8>)
    requires |w| == 4 && Word(w) == Checksum(data)
    ensures Checksum(data + w) == 0x2144_DF1C
  {
    var c := FeedAll(Feed, 0xFFFF_FFFF, data);
    FeedAllAppend(Feed, 0xFFFF_FFFF, data, w);
    FeedWord(c, w);
    Residual(c);
    IterResidue();
  }
}
