/**
 The table-driven CRC-32 of libo2cb/o2cb_crc32.c and the word-at-a-time one of
 libocfs2/blockcheck.c, both proved equal to the bit-at-a-time CRC-32 with the reflected
 polynomial 0xEDB88320 (section 8 of RFC 1952).
 */
module Crc32 {

  function Xor(a: bv32, b: bv32): bv32 { a ^ b }

  function Half(c: bv32): bv32 { c >> 1 }

  predicate Odd(c: bv32) { c & 1 == 1 }

  function Widen(b: bv8): bv32 { b as bv32 }

  function LowByte(x: bv32): bv8 { (x & 0xFF) as bv8 }

  function Down8(x: bv32): bv32 { x >> 8 }

  function Up8(x: bv32): bv32 { x << 8 }

  function Low24(x: bv32): bv32 { x & 0x00FFFFFF }

  lemma XorLaws(a: bv32, b: bv32, c: bv32)
    ensures Xor(Xor(a, b), c) == Xor(a, Xor(b, c))
    ensures Xor(a, b) == Xor(b, a)
    ensures Xor(Xor(a, b), b) == a
  {
  }

  // ---- the definition, one bit at a time ----------------------------------------------------

  /** One step of the shift register. */
  function Step(c: bv32): bv32 {
    if Odd(c) then Xor(Half(c), 0xEDB88320) else Half(c)
  }

  /** The register after `n` steps. */
  function Shift(c: bv32, n: nat): bv32
    decreases n
  {
    if n == 0 then c else Shift(Step(c), n - 1)
  }

  /** The register after one byte. */
  function ByteStep(crc: bv32, b: bv8): bv32 { Shift(Xor(crc, Widen(b)), 8) }

  /** The register after a string of bytes. */
  function BitCrc(crc: bv32, s: seq<bv8>): bv32 {
    if s == [] then crc else ByteStep(BitCrc(crc, s[..|s|-1]), s[|s|-1])
  }

  // ---- the register is linear ---------------------------------------------------------------

  lemma XorParts(a: bv32, b: bv32)
    ensures Half(Xor(a, b)) == Xor(Half(a), Half(b))
    ensures Odd(Xor(a, b)) <==> Odd(a) != Odd(b)
  {
  }

  lemma XorMoves(a: bv32, b: bv32, p: bv32)
    ensures Xor(Xor(a, p), b) == Xor(Xor(a, b), p)
    ensures Xor(a, Xor(b, p)) == Xor(Xor(a, b), p)
    ensures Xor(Xor(a, p), Xor(b, p)) == Xor(a, b)
  {
  }

  lemma StepLinear(a: bv32, b: bv32)
    ensures Step(Xor(a, b)) == Xor(Step(a), Step(b))
  {
    XorParts(a, b);
    XorMoves(Half(a), Half(b), 0xEDB88320);
  }

  lemma {:induction false} ShiftLinear(a: bv32, b: bv32, n: nat)
    ensures Shift(Xor(a, b), n) == Xor(Shift(a, n), Shift(b, n))
    decreases n
  {
    if n > 0 {
      StepLinear(a, b);
      ShiftLinear(Step(a), Step(b), n - 1);
    }
  }

  /** Different register contents stay different. */
  lemma {:induction false} ShiftInjective(a: bv32, b: bv32, n: nat)
    requires Shift(a, n) == Shift(b, n)
    ensures a == b
    decreases n
  {
    if n > 0 {
      ShiftInjective(Step(a), Step(b), n - 1);
      StepInjective(a, b);
    }
  }

  lemma StepInjective(a: bv32, b: bv32)
    requires Step(a) == Step(b)
    ensures a == b
  {
  }

  // ---- bits above the low byte just move down -----------------------------------------------

  function HalfTimes(y: bv32, n: nat): bv32
    decreases n
  {
    if n == 0 then y else HalfTimes(Half(y), n - 1)
  }

  predicate EvenTimes(y: bv32, n: nat)
    decreases n
  {
    n == 0 || (!Odd(y) && EvenTimes(Half(y), n - 1))
  }

  lemma {:induction false} ShiftEven(y: bv32, n: nat)
    requires EvenTimes(y, n)
    ensures Shift(y, n) == HalfTimes(y, n)
    decreases n
  {
    if n > 0 {
      ShiftEven(Half(y), n - 1);
    }
  }

  lemma EvenAboveByte(x: bv32)
    ensures EvenTimes(Up8(x), 8)
    ensures HalfTimes(Up8(x), 8) == Low24(x)
  {
  }

  // ---- the table ----------------------------------------------------------------------------

  datatype Row = Row(v0: bv32, v1: bv32, v2: bv32, v3: bv32, v4: bv32, v5: bv32, v6: bv32, v7: bv32,
                     v8: bv32, v9: bv32, v10: bv32, v11: bv32, v12: bv32, v13: bv32, v14: bv32, v15: bv32)

  function Pick(r: Row, lo: bv8): bv32 {
    if lo & 8 == 0 then
      if lo & 4 == 0 then PickOf4(lo, r.v0, r.v1, r.v2, r.v3) else PickOf4(lo, r.v4, r.v5, r.v6, r.v7)
    else
      if lo & 4 == 0 then PickOf4(lo, r.v8, r.v9, r.v10, r.v11) else PickOf4(lo, r.v12, r.v13, r.v14, r.v15)
  }

  function PickOf4(lo: bv8, x0: bv32, x1: bv32, x2: bv32, x3: bv32): bv32 {
    if lo & 2 == 0 then
      if lo & 1 == 0 then x0 else x1
    else
      if lo & 1 == 0 then x2 else x3
  }

  /** The 256 entries of the table, sixteen to a row. */
  function TableRow(hi: bv8): Row {
    match hi
    case 0 => Row(0x00000000, 0x77073096, 0xee0e612c, 0x990951ba, 0x076dc419, 0x706af48f, 0xe963a535, 0x9e6495a3,
                  0x0edb8832, 0x79dcb8a4, 0xe0d5e91e, 0x97d2d988, 0x09b64c2b, 0x7eb17cbd, 0xe7b82d07, 0x90bf1d91)
    case 1 => Row(0x1db71064, 0x6ab020f2, 0xf3b97148, 0x84be41de, 0x1adad47d, 0x6ddde4eb, 0xf4d4b551, 0x83d385c7,
                  0x136c9856, 0x646ba8c0, 0xfd62f97a, 0x8a65c9ec, 0x14015c4f, 0x63066cd9, 0xfa0f3d63, 0x8d080df5)
    case 2 => Row(0x3b6e20c8, 0x4c69105e, 0xd56041e4, 0xa2677172, 0x3c03e4d1, 0x4b04d447, 0xd20d85fd, 0xa50ab56b,
                  0x35b5a8fa, 0x42b2986c, 0xdbbbc9d6, 0xacbcf940, 0x32d86ce3, 0x45df5c75, 0xdcd60dcf, 0xabd13d59)
    case 3 => Row(0x26d930ac, 0x51de003a, 0xc8d75180, 0xbfd06116, 0x21b4f4b5, 0x56b3c423, 0xcfba9599, 0xb8bda50f,
                  0x2802b89e, 0x5f058808, 0xc60cd9b2, 0xb10be924, 0x2f6f7c87, 0x58684c11, 0xc1611dab, 0xb6662d3d)
    case 4 => Row(0x76dc4190, 0x01db7106, 0x98d220bc, 0xefd5102a, 0x71b18589, 0x06b6b51f, 0x9fbfe4a5, 0xe8b8d433,
                  0x7807c9a2, 0x0f00f934, 0x9609a88e, 0xe10e9818, 0x7f6a0dbb, 0x086d3d2d, 0x91646c97, 0xe6635c01)
    case 5 => Row(0x6b6b51f4, 0x1c6c6162, 0x856530d8, 0xf262004e, 0x6c0695ed, 0x1b01a57b, 0x8208f4c1, 0xf50fc457,
                  0x65b0d9c6, 0x12b7e950, 0x8bbeb8ea, 0xfcb9887c, 0x62dd1ddf, 0x15da2d49, 0x8cd37cf3, 0xfbd44c65)
    case 6 => Row(0x4db26158, 0x3ab551ce, 0xa3bc0074, 0xd4bb30e2, 0x4adfa541, 0x3dd895d7, 0xa4d1c46d, 0xd3d6f4fb,
                  0x4369e96a, 0x346ed9fc, 0xad678846, 0xda60b8d0, 0x44042d73, 0x33031de5, 0xaa0a4c5f, 0xdd0d7cc9)
    case 7 => Row(0x5005713c, 0x270241aa, 0xbe0b1010, 0xc90c2086, 0x5768b525, 0x206f85b3, 0xb966d409, 0xce61e49f,
                  0x5edef90e, 0x29d9c998, 0xb0d09822, 0xc7d7a8b4, 0x59b33d17, 0x2eb40d81, 0xb7bd5c3b, 0xc0ba6cad)
    case 8 => Row(0xedb88320, 0x9abfb3b6, 0x03b6e20c, 0x74b1d29a, 0xead54739, 0x9dd277af, 0x04db2615, 0x73dc1683,
                  0xe3630b12, 0x94643b84, 0x0d6d6a3e, 0x7a6a5aa8, 0xe40ecf0b, 0x9309ff9d, 0x0a00ae27, 0x7d079eb1)
    case 9 => Row(0xf00f9344, 0x8708a3d2, 0x1e01f268, 0x6906c2fe, 0xf762575d, 0x806567cb, 0x196c3671, 0x6e6b06e7,
                  0xfed41b76, 0x89d32be0, 0x10da7a5a, 0x67dd4acc, 0xf9b9df6f, 0x8ebeeff9, 0x17b7be43, 0x60b08ed5)
    case 10 => Row(0xd6d6a3e8, 0xa1d1937e, 0x38d8c2c4, 0x4fdff252, 0xd1bb67f1, 0xa6bc5767, 0x3fb506dd, 0x48b2364b,
                  0xd80d2bda, 0xaf0a1b4c, 0x36034af6, 0x41047a60, 0xdf60efc3, 0xa867df55, 0x316e8eef, 0x4669be79)
    case 11 => Row(0xcb61b38c, 0xbc66831a, 0x256fd2a0, 0x5268e236, 0xcc0c7795, 0xbb0b4703, 0x220216b9, 0x5505262f,
                  0xc5ba3bbe, 0xb2bd0b28, 0x2bb45a92, 0x5cb36a04, 0xc2d7ffa7, 0xb5d0cf31, 0x2cd99e8b, 0x5bdeae1d)
    case 12 => Row(0x9b64c2b0, 0xec63f226, 0x756aa39c, 0x026d930a, 0x9c0906a9, 0xeb0e363f, 0x72076785, 0x05005713,
                  0x95bf4a82, 0xe2b87a14, 0x7bb12bae, 0x0cb61b38, 0x92d28e9b, 0xe5d5be0d, 0x7cdcefb7, 0x0bdbdf21)
    case 13 => Row(0x86d3d2d4, 0xf1d4e242, 0x68ddb3f8, 0x1fda836e, 0x81be16cd, 0xf6b9265b, 0x6fb077e1, 0x18b74777,
                  0x88085ae6, 0xff0f6a70, 0x66063bca, 0x11010b5c, 0x8f659eff, 0xf862ae69, 0x616bffd3, 0x166ccf45)
    case 14 => Row(0xa00ae278, 0xd70dd2ee, 0x4e048354, 0x3903b3c2, 0xa7672661, 0xd06016f7, 0x4969474d, 0x3e6e77db,
                  0xaed16a4a, 0xd9d65adc, 0x40df0b66, 0x37d83bf0, 0xa9bcae53, 0xdebb9ec5, 0x47b2cf7f, 0x30b5ffe9)
    case _ => Row(0xbdbdf21c, 0xcabac28a, 0x53b39330, 0x24b4a3a6, 0xbad03605, 0xcdd70693, 0x54de5729, 0x23d967bf,
                  0xb3667a2e, 0xc4614ab8, 0x5d681b02, 0x2a6f2b94, 0xb40bbe37, 0xc30c8ea1, 0x5a05df1b, 0x2d02ef8d)
  }

  function Table(i: bv8): bv32 { Pick(TableRow(i >> 4), i & 15) }

  function AddToRow(x: bv32, z: Row): Row {
    Row(Xor(x, z.v0), Xor(x, z.v1), Xor(x, z.v2), Xor(x, z.v3), Xor(x, z.v4), Xor(x, z.v5),
        Xor(x, z.v6), Xor(x, z.v7), Xor(x, z.v8), Xor(x, z.v9), Xor(x, z.v10),
        Xor(x, z.v11), Xor(x, z.v12), Xor(x, z.v13), Xor(x, z.v14), Xor(x, z.v15))
  }

  function MapRow(f: bv32 -> bv32, z: Row): Row {
    Row(f(z.v0), f(z.v1), f(z.v2), f(z.v3), f(z.v4), f(z.v5), f(z.v6), f(z.v7),
        f(z.v8), f(z.v9), f(z.v10), f(z.v11), f(z.v12), f(z.v13), f(z.v14), f(z.v15))
  }

  lemma PickMap(f: bv32 -> bv32, z: Row, lo: bv8)
    ensures Pick(MapRow(f, z), lo) == f(Pick(z, lo))
  {
  }

  lemma PickAdd(x: bv32, z: Row, lo: bv8)
    ensures Pick(AddToRow(x, z), lo) == Xor(x, Pick(z, lo))
  {
    PickMap(y => Xor(x, y), z, lo);
    assert AddToRow(x, z) == MapRow(y => Xor(x, y), z);
  }

  /** Every row is the first row with the row's first entry added. */
  lemma RowsAreSums(hi: bv8)
    ensures TableRow(hi) == AddToRow(TableRow(hi).v0, TableRow(0))
  {
    match hi
    case 0 => case 1 => case 2 => case 3 => case 4 => case 5 => case 6 => case 7 =>
    case 8 => case 9 => case 10 => case 11 => case 12 => case 13 => case 14 => case _ =>
  }

  lemma FirstRow(lo: bv8)
    requires lo < 16
    ensures Pick(TableRow(0), lo) == Shift(lo as bv32, 8)
  {
    match lo
    case 0 => case 1 => case 2 => case 3 => case 4 => case 5 => case 6 => case 7 =>
    case 8 => case 9 => case 10 => case 11 => case 12 => case 13 => case 14 => case _ =>
  }

  lemma FirstColumn(hi: bv8)
    requires hi < 16
    ensures TableRow(hi).v0 == Shift((hi as bv32) << 4, 8)
  {
    match hi
    case 0 => case 1 => case 2 => case 3 => case 4 => case 5 => case 6 => case 7 =>
    case 8 => case 9 => case 10 => case 11 => case 12 => case 13 => case 14 => case _ =>
  }

  /** The table holds the register contents after each byte. */
  lemma TableIsShift(i: bv8)
    ensures Table(i) == Shift(Widen(i), 8)
  {
    var hi, lo := i >> 4, i & 15;
    RowsAreSums(hi);
    PickAdd(TableRow(hi).v0, TableRow(0), lo);
    FirstRow(lo);
    FirstColumn(hi);
    ShiftLinear((hi as bv32) << 4, lo as bv32, 8);
    assert Xor((hi as bv32) << 4, lo as bv32) == Widen(i);
  }

  // ---- the fast forms -----------------------------------------------------------------------

  /** A lookup table for whole bytes. */
  type ByteTable = bv8 -> bv32

  ghost predicate IsShiftTable(tab: ByteTable) {
    forall i: bv8 :: tab(i) == Shift(Widen(i), 8)
  }

  lemma TableIsShiftTable()
    ensures IsShiftTable(Table)
  {
    forall i: bv8
      ensures Table(i) == Shift(Widen(i), 8)
    {
      TableIsShift(i);
    }
  }

  /** One step of eight bits by table lookup. */
  function LookupStep(tab: ByteTable, crc: bv32): bv32 { Xor(tab(LowByte(crc)), Down8(crc)) }

  lemma ShiftByTable(tab: ByteTable, x: bv32)
    requires IsShiftTable(tab)
    ensures LookupStep(tab, x) == Shift(x, 8)
  {
    SplitLowByte(x);
    ShiftLinear(Widen(LowByte(x)), Up8(Down8(x)), 8);
    EvenAboveByte(Down8(x));
    ShiftEven(Up8(Down8(x)), 8);
  }

  lemma SplitLowByte(x: bv32)
    ensures x == Xor(Widen(LowByte(x)), Up8(Down8(x)))
    ensures Low24(Down8(x)) == Down8(x)
  {
  }

  /** One byte by table lookup. */
  function PartialCrc32One(tab: ByteTable, c: bv8, crc: bv32): bv32 {
    Xor(tab(LowByte(Xor(crc, Widen(c)))), Down8(crc))
  }

  lemma TableStep(tab: ByteTable, c: bv8, crc: bv32)
    requires IsShiftTable(tab)
    ensures PartialCrc32One(tab, c, crc) == ByteStep(crc, c)
  {
    ByteBelow(crc, c);
    ShiftByTable(tab, Xor(crc, Widen(c)));
  }

  lemma ByteBelow(crc: bv32, c: bv8)
    ensures Down8(Xor(crc, Widen(c))) == Down8(crc)
  {
  }

  /** The checksum of a NUL-terminated string. */
  method O2cbCrc32(s: seq<bv8>) returns (r: bv32)
    requires 0 in s
    ensures exists n | 0 <= n < |s| && s[n] == 0 && 0 !in s[..n] ::
              r == Xor(BitCrc(0xFFFFFFFF, s[..n]), 0xFFFFFFFF)
  {
    TableIsShiftTable();
    var crc := PartialCrc32(Table, s, 0xFFFFFFFF);
    r := Xor(crc, 0xFFFFFFFF);
  }

  /** The register after the characters before the terminating NUL. */
  method PartialCrc32(tab: ByteTable, s: seq<bv8>, seed: bv32) returns (crc: bv32)
    requires 0 in s && IsShiftTable(tab)
    ensures exists n | 0 <= n < |s| && s[n] == 0 && 0 !in s[..n] :: crc == BitCrc(seed, s[..n])
  {
    crc := seed;
    var i := 0;
    while s[i] != 0
      invariant 0 <= i < |s| && 0 !in s[..i]
      invariant crc == BitCrc(seed, s[..i])
      decreases |s| - i
    {
      assert s[..i+1][..i] == s[..i];
      assert 0 !in s[..i+1];
      assert 0 in s[i+1..];
      TableStep(tab, s[i], crc);
      crc := PartialCrc32One(tab, s[i], crc);
      i := i + 1;
    }
  }

  /** Two, three and four bytes as little-endian numbers. */
  function Word2(b2: bv8, b3: bv8): bv32 { Xor(Widen(b2), Up8(Widen(b3))) }

  function Word3(b1: bv8, b2: bv8, b3: bv8): bv32 { Xor(Widen(b1), Up8(Word2(b2, b3))) }

  function Word(b0: bv8, b1: bv8, b2: bv8, b3: bv8): bv32 { Xor(Widen(b0), Up8(Word3(b1, b2, b3))) }

  lemma WordsFit(b1: bv8, b2: bv8, b3: bv8)
    ensures Low24(Word3(b1, b2, b3)) == Word3(b1, b2, b3)
    ensures Low24(Word2(b2, b3)) == Word2(b2, b3)
    ensures Low24(Widen(b3)) == Widen(b3)
    ensures Widen(b3) == Xor(Widen(b3), Up8(0))
  {
  }

  /** Feeding a word eight bits at a time: one byte is consumed, the rest moves down. */
  lemma PeelStep(crc: bv32, w: bv32, b: bv8, rest: bv32)
    requires w == Xor(Widen(b), Up8(rest)) && Low24(rest) == rest
    ensures Shift(Xor(crc, w), 8) == Xor(ByteStep(crc, b), rest)
  {
    XorLaws(crc, Widen(b), Up8(rest));
    ShiftLinear(Xor(crc, Widen(b)), Up8(rest), 8);
    EvenAboveByte(rest);
    ShiftEven(Up8(rest), 8);
  }

  lemma WordStep(crc: bv32, b0: bv8, b1: bv8, b2: bv8, b3: bv8)
    ensures ShiftBytes(Xor(crc, Word(b0, b1, b2, b3)), 4)
         == ByteStep(ByteStep(ByteStep(ByteStep(crc, b0), b1), b2), b3)
  {
    WordsFit(b1, b2, b3);
    FourPeels(crc, Word(b0, b1, b2, b3), Word3(b1, b2, b3), Word2(b2, b3), Widen(b3), b0, b1, b2, b3);
  }

  lemma FourPeels(crc: bv32, w0: bv32, w1: bv32, w2: bv32, w3: bv32, b0: bv8, b1: bv8, b2: bv8, b3: bv8)
    requires w0 == Xor(Widen(b0), Up8(w1)) && Low24(w1) == w1
    requires w1 == Xor(Widen(b1), Up8(w2)) && Low24(w2) == w2
    requires w2 == Xor(Widen(b2), Up8(w3)) && Low24(w3) == w3
    requires w3 == Xor(Widen(b3), Up8(0))
    ensures ShiftBytes(Xor(crc, w0), 4) == ByteStep(ByteStep(ByteStep(ByteStep(crc, b0), b1), b2), b3)
  {
    var c2 := ByteStep(ByteStep(crc, b0), b1);
    TwoPeels(crc, w0, w1, w2, b0, b1);
    TwoPeels(c2, w2, w3, 0, b2, b3);
    XorZero(ByteStep(ByteStep(c2, b2), b3));
    FourIsTwoTwice(Xor(crc, w0));
  }

  lemma TwoPeels(crc: bv32, w0: bv32, w1: bv32, w2: bv32, b0: bv8, b1: bv8)
    requires w0 == Xor(Widen(b0), Up8(w1)) && Low24(w1) == w1
    requires w1 == Xor(Widen(b1), Up8(w2)) && Low24(w2) == w2
    ensures ShiftBytes(Xor(crc, w0), 2) == Xor(ByteStep(ByteStep(crc, b0), b1), w2)
  {
    var x := Xor(crc, w0);
    PeelStep(crc, w0, b0, w1);
    assert ShiftBytes(x, 1) == Xor(ByteStep(crc, b0), w1);
    PeelStep(ByteStep(crc, b0), w1, b1, w2);
  }

  lemma FourIsTwoTwice(c: bv32)
    ensures ShiftBytes(c, 4) == ShiftBytes(ShiftBytes(c, 2), 2)
  {
    assert ShiftBytes(c, 3) == ShiftBytes(ShiftBytes(c, 2), 1);
  }

  lemma XorZero(c: bv32)
    ensures Xor(c, 0) == c
  {
  }

  /** One round of the byte loops. */
  method ByteRound(tab: ByteTable, ghost seed: bv32, p: seq<bv8>, pos: nat, crc: bv32) returns (r: bv32)
    requires IsShiftTable(tab) && pos < |p| && crc == BitCrc(seed, p[..pos])
    ensures r == BitCrc(seed, p[..pos+1])
  {
    OneMoreByte(seed, p, pos);
    TableStep(tab, p[pos], crc);
    r := PartialCrc32One(tab, p[pos], crc);
  }

  /** One round of the word loop: a word is added, then four lookups with no new byte. */
  method WordRound(tab: ByteTable, ghost seed: bv32, p: seq<bv8>, pos: nat, crc: bv32) returns (r: bv32)
    requires IsShiftTable(tab) && pos + 4 <= |p| && crc == BitCrc(seed, p[..pos])
    ensures r == BitCrc(seed, p[..pos+4])
  {
    r := Xor(crc, Word(p[pos], p[pos+1], p[pos+2], p[pos+3]));
    ghost var w := r;
    for i := 0 to 4
      invariant r == ShiftBytes(w, i)
    {
      ShiftByTable(tab, r);
      r := LookupStep(tab, r);
    }
    FourBytes(seed, p, pos);
  }

  /** The register after `n` more bytes of zeros. */
  ghost function ShiftBytes(c: bv32, n: nat): bv32 {
    if n == 0 then c else Shift(ShiftBytes(c, n - 1), 8)
  }

  /** Byte rounds up to the next word boundary or the end of the buffer. */
  method BytesToBoundary(tab: ByteTable, ghost seed: bv32, p: seq<bv8>, start: nat, crc0: bv32, addr: nat)
    returns (crc: bv32, pos: nat)
    requires IsShiftTable(tab) && start <= |p| && crc0 == BitCrc(seed, p[..start])
    ensures start <= pos <= |p| && crc == BitCrc(seed, p[..pos])
    ensures pos == |p| || (addr + pos) % 4 == 0
  {
    crc, pos := crc0, start;
    while pos < |p| && (addr + pos) % 4 != 0
      invariant start <= pos <= |p| && crc == BitCrc(seed, p[..pos])
    {
      crc := ByteRound(tab, seed, p, pos, crc);
      pos := pos + 1;
    }
  }

  method WholeWords(tab: ByteTable, ghost seed: bv32, p: seq<bv8>, start: nat, crc0: bv32)
    returns (crc: bv32, pos: nat)
    requires IsShiftTable(tab) && start <= |p| && crc0 == BitCrc(seed, p[..start])
    ensures start <= pos <= |p| < pos + 4 && crc == BitCrc(seed, p[..pos])
  {
    crc, pos := crc0, start;
    while pos + 4 <= |p|
      invariant start <= pos <= |p| && crc == BitCrc(seed, p[..pos])
    {
      crc := WordRound(tab, seed, p, pos, crc);
      pos := pos + 4;
    }
  }

  method LastBytes(tab: ByteTable, ghost seed: bv32, p: seq<bv8>, start: nat, crc0: bv32) returns (crc: bv32)
    requires IsShiftTable(tab) && start <= |p| && crc0 == BitCrc(seed, p[..start])
    ensures crc == BitCrc(seed, p)
  {
    crc := crc0;
    var pos := start;
    while pos < |p|
      invariant start <= pos <= |p| && crc == BitCrc(seed, p[..pos])
    {
      crc := ByteRound(tab, seed, p, pos, crc);
      pos := pos + 1;
    }
    assert p[..pos] == p;
  }

  /**
   The checksum of a buffer that starts at address `addr`: single bytes up to a word boundary, then
   whole words, then the last bytes.
   */
  method Crc32Le(seed: bv32, p: seq<bv8>, addr: nat) returns (crc: bv32)
    ensures crc == BitCrc(seed, p)
  {
    TableIsShiftTable();
    crc := Crc32ByTable(Table, seed, p, addr);
  }

  method Crc32ByTable(tab: ByteTable, seed: bv32, p: seq<bv8>, addr: nat) returns (crc: bv32)
    requires IsShiftTable(tab)
    ensures crc == BitCrc(seed, p)
  {
    var pos;
    crc, pos := BytesToBoundary(tab, seed, p, 0, seed, addr);
    crc, pos := WholeWords(tab, seed, p, pos, crc);
    crc := LastBytes(tab, seed, p, pos, crc);
  }

  lemma FourBytes(seed: bv32, p: seq<bv8>, pos: nat)
    requires pos + 4 <= |p|
    ensures ShiftBytes(Xor(BitCrc(seed, p[..pos]), Word(p[pos], p[pos+1], p[pos+2], p[pos+3])), 4)
         == BitCrc(seed, p[..pos+4])
  {
    OneMoreByte(seed, p, pos);
    OneMoreByte(seed, p, pos + 1);
    OneMoreByte(seed, p, pos + 2);
    OneMoreByte(seed, p, pos + 3);
    WordStep(BitCrc(seed, p[..pos]), p[pos], p[pos+1], p[pos+2], p[pos+3]);
  }

  lemma OneMoreByte(seed: bv32, p: seq<bv8>, pos: nat)
    requires pos < |p|
    ensures BitCrc(seed, p[..pos+1]) == ByteStep(BitCrc(seed, p[..pos]), p[pos])
  {
    assert p[..pos+1][..pos] == p[..pos];
  }

  // ---- error detection ----------------------------------------------------------------------

  /** Two buffers that differ in exactly one byte have different checksums. */
  lemma {:induction false} OneByteDetected(seed: bv32, s: seq<bv8>, t: seq<bv8>, k: nat)
    requires |s| == |t| && k < |s| && s[k] != t[k]
    requires forall i | 0 <= i < |s| && i != k :: s[i] == t[i]
    ensures BitCrc(seed, s) != BitCrc(seed, t)
  {
    var n := |s| - 1;
    if k == n {
      assert s[..n] == t[..n];
      BytesDiffer(BitCrc(seed, s[..n]), s[n], t[n]);
    } else {
      OneByteDetected(seed, s[..n], t[..n], k);
      RegistersDiffer(BitCrc(seed, s[..n]), BitCrc(seed, t[..n]), s[n]);
    }
  }

  lemma RegistersDiffer(c: bv32, d: bv32, b: bv8)
    requires c != d
    ensures ByteStep(c, b) != ByteStep(d, b)
  {
    var x, y := Xor(c, Widen(b)), Xor(d, Widen(b));
    XorLaws(c, Widen(b), 0);
    XorLaws(d, Widen(b), 0);
    if Shift(x, 8) == Shift(y, 8) {
      ShiftInjective(x, y, 8);
    }
  }

  lemma BytesDiffer(c: bv32, a: bv8, b: bv8)
    requires a != b
    ensures ByteStep(c, a) != ByteStep(c, b)
  {
    var x, y := Xor(c, Widen(a)), Xor(c, Widen(b));
    assert x != y;
    if Shift(x, 8) == Shift(y, 8) {
      ShiftInjective(x, y, 8);
    }
  }
}
