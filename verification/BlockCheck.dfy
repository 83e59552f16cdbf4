/**
 Metadata block checking of libocfs2/blockcheck.c: a CRC-32 that detects damage and a Hamming code
 that locates it.  The main result is end to end: whichever single bit of a block is flipped, the
 check puts it back.
 */
module BlockCheck {
  import Crc32

  // ---- exclusive or of unsigned numbers -----------------------------------------------------

  function BitXor(a: nat, b: nat): nat
    decreases a + b
  {
    if a == 0 && b == 0 then 0 else 2 * BitXor(a / 2, b / 2) + (if a % 2 == b % 2 then 0 else 1)
  }

  lemma {:induction false} BitXorCommutes(a: nat, b: nat)
    ensures BitXor(a, b) == BitXor(b, a)
    decreases a + b
  {
    if a > 0 || b > 0 {
      BitXorCommutes(a / 2, b / 2);
    }
  }

  lemma BitXorParts(a: nat, b: nat)
    ensures BitXor(a, b) / 2 == BitXor(a / 2, b / 2)
    ensures BitXor(a, b) % 2 == if a % 2 == b % 2 then 0 else 1
  {
  }

  lemma {:induction false} BitXorAssociates(a: nat, b: nat, c: nat)
    ensures BitXor(BitXor(a, b), c) == BitXor(a, BitXor(b, c))
    decreases a + b + c
  {
    if a > 0 || b > 0 || c > 0 {
      var x, y := BitXor(a, b), BitXor(b, c);
      BitXorAssociates(a / 2, b / 2, c / 2);
      BitXorParts(a, b);
      BitXorParts(b, c);
      assert BitXor(x, c) / 2 == BitXor(a, y) / 2 by {
        BitXorParts(x, c);
        BitXorParts(a, y);
      }
      assert BitXor(x, c) % 2 == BitXor(a, y) % 2 by {
        BitXorParts(x, c);
        BitXorParts(a, y);
      }
      SameParts(BitXor(x, c), BitXor(a, y));
    }
  }

  lemma SameParts(x: nat, y: nat)
    requires x / 2 == y / 2 && x % 2 == y % 2
    ensures x == y
  {
  }

  lemma {:induction false} BitXorZero(a: nat)
    ensures BitXor(a, 0) == a
  {
    if a > 0 {
      BitXorZero(a / 2);
    }
  }

  lemma {:induction false} BitXorSelf(a: nat)
    ensures BitXor(a, a) == 0
  {
    if a > 0 {
      BitXorSelf(a / 2);
    }
  }

  /** Adding a term twice takes it out again. */
  lemma BitXorCancels(p: nat, c: nat)
    ensures BitXor(BitXor(p, c), p) == c
    ensures BitXor(BitXor(p, c), c) == p
  {
    BitXorCommutes(p, c);
    BitXorAssociates(c, p, p);
    BitXorSelf(p);
    BitXorZero(c);
    BitXorAssociates(p, c, c);
    BitXorSelf(c);
    BitXorZero(p);
  }

  lemma BitXorSwap(p: nat, c: nat, t: nat)
    ensures BitXor(BitXor(p, c), t) == BitXor(BitXor(p, t), c)
  {
    BitXorAssociates(p, c, t);
    BitXorCommutes(c, t);
    BitXorAssociates(p, t, c);
  }

  lemma {:induction false} BitXorBound(a: nat, b: nat, k: nat)
    requires a < Pow2(k) && b < Pow2(k)
    ensures BitXor(a, b) < Pow2(k)
    decreases k
  {
    if k > 0 {
      BitXorBound(a / 2, b / 2, k - 1);
    }
  }

  // ---- powers of two ------------------------------------------------------------------------

  function Pow2(p: nat): (r: nat)
    ensures r > 0
  {
    if p == 0 then 1 else 2 * Pow2(p - 1)
  }

  lemma {:induction false} Pow2Grows(p: nat, q: nat)
    requires p < q
    ensures Pow2(p) < Pow2(q)
    decreases q
  {
    if p + 1 < q {
      Pow2Grows(p, q - 1);
    }
  }

  /** The number of bits that are set. */
  function BitCount(n: nat): nat {
    if n == 0 then 0 else n % 2 + BitCount(n / 2)
  }

  lemma {:induction false} PowerHasOneBit(p: nat)
    ensures BitCount(Pow2(p)) == 1
  {
    if p > 0 {
      PowerHasOneBit(p - 1);
    }
  }

  lemma {:induction false} OneBitIsPower(n: nat) returns (p: nat)
    requires BitCount(n) == 1
    ensures n == Pow2(p)
  {
    if n % 2 == 1 {
      assert n / 2 == 0 by {
        if n / 2 > 0 {
          CountsPositive(n / 2);
        }
      }
      p := 0;
    } else {
      p := OneBitIsPower(n / 2);
      p := p + 1;
    }
  }

  lemma {:induction false} CountsPositive(n: nat)
    requires n > 0
    ensures BitCount(n) > 0
  {
    if n % 2 == 0 {
      CountsPositive(n / 2);
    }
  }

  /** The bit count as the source computes it, by adding neighbouring fields. */
  function Hweight32(w: bv32): bv32 {
    var r1 := (w & 0x55555555) + ((w >> 1) & 0x55555555);
    var r2 := (r1 & 0x33333333) + ((r1 >> 2) & 0x33333333);
    var r3 := (r2 & 0x0F0F0F0F) + ((r2 >> 4) & 0x0F0F0F0F);
    var r4 := (r3 & 0x00FF00FF) + ((r3 >> 8) & 0x00FF00FF);
    (r4 & 0x0000FFFF) + ((r4 >> 16) & 0x0000FFFF)
  }

  /** The 32-bit word for a number, built from its bits. */
  function Word(n: nat): bv32 { if n == 0 then 0 else Append(Word(n / 2), n % 2 == 1) }

  function Append(w: bv32, bit: bool): bv32 { (w << 1) | (if bit then 1 else 0) }

  /** One bit of the word is set. */
  predicate OneBit(w: bv32) { w != 0 && w & (w - 1) == 0 }

  lemma HweightIsOne(w: bv32)
    ensures Hweight32(w) == 1 <==> OneBit(w)
  {
  }

  lemma AppendOneBit(w: bv32, bit: bool)
    requires w < 0x8000_0000
    ensures OneBit(Append(w, bit)) <==> if bit then w == 0 else OneBit(w)
    ensures Append(w, bit) == 0 <==> w == 0 && !bit
  {
  }

  /** `t` is two to the power `k`. */
  predicate IsTop(k: nat, t: bv32) { if k == 0 then t == 1 else t & 1 == 0 && IsTop(k - 1, t >> 1) }

  lemma AppendBelow(w: bv32, bit: bool, t: bv32)
    requires w < (t >> 1) && t & 1 == 0
    ensures Append(w, bit) < t
  {
  }

  lemma {:induction false} WordBelow(n: nat, k: nat, t: bv32)
    requires n < Pow2(k) && IsTop(k, t)
    ensures Word(n) < t
    decreases k
  {
    if k > 0 {
      WordBelow(n / 2, k - 1, t >> 1);
      AppendBelow(Word(n / 2), n % 2 == 1, t);
      AppendBelow(0, false, t);
    }
  }

  lemma TopBit()
    ensures IsTop(31, 0x8000_0000)
  {
    assert IsTop(1, 0x2);
    assert IsTop(3, 0x8);
    assert IsTop(5, 0x20);
    assert IsTop(7, 0x80);
    assert IsTop(9, 0x200);
    assert IsTop(11, 0x800);
    assert IsTop(13, 0x2000);
    assert IsTop(15, 0x8000);
    assert IsTop(17, 0x20000);
    assert IsTop(19, 0x80000);
    assert IsTop(21, 0x200000);
    assert IsTop(23, 0x800000);
    assert IsTop(25, 0x2000000);
    assert IsTop(27, 0x8000000);
    assert IsTop(29, 0x20000000);
  }

  lemma {:induction false} WordOneBit(n: nat)
    requires n < Pow2(32)
    ensures OneBit(Word(n)) <==> BitCount(n) == 1
    ensures Word(n) == 0 <==> n == 0
  {
    if n > 0 {
      WordOneBit(n / 2);
      TopBit();
      WordBelow(n / 2, 31, 0x8000_0000);
      AppendOneBit(Word(n / 2), n % 2 == 1);
      if n / 2 > 0 {
        CountsPositive(n / 2);
      }
    }
  }

  /** The bit trick finds one bit in a word exactly when the number is a power of two. */
  lemma Hweight32IsOne(n: nat)
    requires n < Pow2(32)
    ensures Hweight32(Word(n)) == 1 <==> BitCount(n) == 1
  {
    HweightIsOne(Word(n));
    WordOneBit(n);
  }

  /** The test for a parity bit. */
  method HasOneBit(n: nat) returns (one: bool)
    requires n < Pow2(32)
    ensures one <==> BitCount(n) == 1
  {
    Hweight32IsOne(n);
    one := Hweight32(Word(n)) == 1;
  }

  // ---- code bits ----------------------------------------------------------------------------

  /** `p` parity bits leave room for data bit `i` and everything before it. */
  predicate Enough(i: nat, p: nat) { i + p + 2 <= Pow2(p) }

  lemma {:induction false} EnoughExists(i: nat)
    ensures Enough(i, i + 2)
  {
    if i > 0 {
      EnoughExists(i - 1);
    }
  }

  function ParityFrom(i: nat, p: nat): nat
    requires p <= i + 2
    decreases i + 2 - p
  {
    EnoughExists(i);
    if Enough(i, p) then p else ParityFrom(i, p + 1)
  }

  lemma {:induction false} ParityFromIsLeast(i: nat, p: nat)
    requires p <= i + 2
    ensures p <= ParityFrom(i, p) && Enough(i, ParityFrom(i, p))
    ensures forall q | p <= q < ParityFrom(i, p) :: !Enough(i, q)
    decreases i + 2 - p
  {
    EnoughExists(i);
    if !Enough(i, p) {
      ParityFromIsLeast(i, p + 1);
    }
  }

  /** The number of parity bits that precede data bit `i`. */
  function ParityBits(i: nat): nat { ParityFrom(i, 0) }

  /** The position of data bit `i` among all bits of the code, counted from one. */
  function CodeBit(i: nat): nat { i + 1 + ParityBits(i) }

  lemma ParityBitsIs(i: nat, p: nat)
    requires Enough(i, p) && forall q | 0 <= q < p :: !Enough(i, q)
    ensures ParityBits(i) == p
  {
    ParityFromIsLeast(i, 0);
  }

  /** A code bit lies strictly between two neighbouring powers of two. */
  lemma CodeBitBetween(i: nat)
    ensures ParityBits(i) >= 2 && Pow2(ParityBits(i) - 1) < CodeBit(i) < Pow2(ParityBits(i))
  {
    ParityFromIsLeast(i, 0);
    assert !Enough(i, 0) && !Enough(i, 1);
    assert !Enough(i, ParityBits(i) - 1);
  }

  lemma CodeBitIsNoPower(i: nat)
    ensures BitCount(CodeBit(i)) != 1
  {
    if BitCount(CodeBit(i)) == 1 {
      var p := OneBitIsPower(CodeBit(i));
      CodeBitBetween(i);
      var q := ParityBits(i);
      if p < q - 1 {
        Pow2Grows(p, q - 1);
      } else if q < p {
        Pow2Grows(q, p);
      }
    }
  }

  /** The next code bit is the next number, or the one after it when that is a power of two. */
  lemma NextCodeBit(i: nat)
    ensures if CodeBit(i) + 1 == Pow2(ParityBits(i))
            then CodeBit(i + 1) == CodeBit(i) + 2 && BitCount(CodeBit(i) + 1) == 1
            else CodeBit(i + 1) == CodeBit(i) + 1
    ensures ParityBits(i) <= ParityBits(i + 1)
  {
    var p := ParityBits(i);
    CodeBitBetween(i);
    ParityFromIsLeast(i, 0);
    var j := i + 1;
    forall q | 0 <= q < p
      ensures !Enough(j, q)
    {
      assert !Enough(i, q);
    }
    if CodeBit(i) + 1 == Pow2(p) {
      PowerHasOneBit(p);
      assert Pow2(p + 1) == 2 * Pow2(p);
      assert !Enough(j, p) && Enough(j, p + 1);
      ParityBitsIs(j, p + 1);
    } else {
      assert Enough(j, p);
      ParityBitsIs(j, p);
    }
  }

  lemma {:induction false} CodeBitAscends(i: nat, j: nat)
    requires i < j
    ensures CodeBit(i) < CodeBit(j) && ParityBits(i) <= ParityBits(j)
    decreases j
  {
    NextCodeBit(j - 1);
    if i + 1 < j {
      CodeBitAscends(i, j - 1);
    }
  }

  /** Computes a code bit, starting from the parity bits already known to precede it. */
  method CalcCodeBit(i: nat, cache: nat) returns (b: nat, p: nat)
    requires cache <= ParityBits(i)
    ensures b == CodeBit(i) && p == ParityBits(i)
  {
    ParityFromIsLeast(i, 0);
    p := cache;
    b := i + 1 + p;
    while Pow2(p) < b + 1
      invariant p <= ParityBits(i) && b == i + 1 + p
      decreases ParityBits(i) - p
    {
      assert !Enough(i, p);
      b := b + 1;
      p := p + 1;
    }
    assert Enough(i, p);
  }

  // ---- encoding -----------------------------------------------------------------------------

  /** The block as the bit operations see it. */
  type Bits = seq<bool>

  /** The parity of the first `k` bits of a hunk that starts at data bit `nr`. */
  function Parity(start: nat, data: Bits, nr: nat, k: nat): nat
    requires k <= |data|
  {
    if k == 0 then start
    else
      var p := Parity(start, data, nr, k - 1);
      if data[k - 1] then BitXor(p, CodeBit(nr + k - 1)) else p
  }

  lemma {:induction false} ParityOverClear(start: nat, data: Bits, nr: nat, i: nat, k: nat)
    requires i <= k <= |data| && forall j | i <= j < k :: !data[j]
    ensures Parity(start, data, nr, k) == Parity(start, data, nr, i)
    decreases k
  {
    if i < k {
      ParityOverClear(start, data, nr, i, k - 1);
    }
  }

  method FindNextBitSet(data: Bits, d: nat, from: nat) returns (i: nat)
    requires d <= |data| && from <= d
    ensures from <= i <= d && (i < d ==> data[i])
    ensures forall j | from <= j < i :: !data[j]
  {
    i := from;
    while i < d && !data[i]
      invariant from <= i <= d && forall j | from <= j < i :: !data[j]
    {
      i := i + 1;
    }
  }

  /** Adds the code bit of every set bit; the parity count carries over from bit to bit. */
  method HammingEncode(start: nat, data: Bits, d: nat, nr: nat) returns (parity: nat)
    requires d <= |data|
    ensures parity == Parity(start, data, nr, d)
  {
    parity := start;
    var p: nat := 0;
    var i := FindNextBitSet(data, d, 0);
    ParityOverClear(start, data, nr, 0, i);
    while i < d
      invariant i <= d && (i < d ==> data[i])
      invariant parity == Parity(start, data, nr, i)
      invariant p <= ParityBits(nr + i)
    {
      var b;
      b, p := CalcCodeBit(nr + i, p);
      parity := BitXor(parity, b);
      ghost var was := i;
      i := FindNextBitSet(data, d, i + 1);
      ParityOverClear(start, data, nr, was + 1, i);
      CodeBitAscends(nr + was, nr + i);
    }
  }

  /** Two hunks encoded one after the other give the parity of the whole. */
  lemma {:induction false} ParityOfHunks(start: nat, a: Bits, b: Bits, k: nat)
    requires k <= |b|
    ensures Parity(Parity(start, a, 0, |a|), b, |a|, k) == Parity(start, a + b, 0, |a| + k)
    decreases k
  {
    if k == 0 {
      ParityOfPrefix(start, a, b, |a|);
    } else {
      ParityOfHunks(start, a, b, k - 1);
      assert (a + b)[|a| + k - 1] == b[k - 1];
    }
  }

  lemma {:induction false} ParityOfPrefix(start: nat, a: Bits, b: Bits, k: nat)
    requires k <= |a|
    ensures Parity(start, a + b, 0, k) == Parity(start, a, 0, k)
    decreases k
  {
    if k > 0 {
      ParityOfPrefix(start, a, b, k - 1);
    }
  }

  function FlipBit(data: Bits, i: nat): Bits
    requires i < |data|
  {
    data[i := !data[i]]
  }

  /** Flipping a bit changes the parity by that bit's code bit: the syndrome names the bit. */
  lemma {:induction false} ParityOfFlip(start: nat, data: Bits, nr: nat, i: nat, k: nat)
    requires i < |data| && k <= |data|
    ensures Parity(start, FlipBit(data, i), nr, k)
         == if i < k then BitXor(Parity(start, data, nr, k), CodeBit(nr + i)) else Parity(start, data, nr, k)
    decreases k
  {
    if k > 0 {
      ParityOfFlip(start, data, nr, i, k - 1);
      var p := Parity(start, data, nr, k - 1);
      if k - 1 == i {
        BitXorCancels(p, CodeBit(nr + i));
      } else if i < k - 1 {
        BitXorSwap(p, CodeBit(nr + i), CodeBit(nr + k - 1));
      }
    }
  }

  /** The parity of a block of at most 4096 bytes fits in sixteen bits. */
  lemma {:induction false} ParityFits(data: Bits, k: nat)
    requires |data| <= 32768 && k <= |data|
    ensures Parity(0, data, 0, k) < 65536
    decreases k
  {
    if k > 0 {
      ParityFits(data, k - 1);
      CodeBitFits(k - 1);
      Sixteen();
      BitXorBound(Parity(0, data, 0, k - 1), CodeBit(k - 1), 16);
    }
  }

  lemma CodeBitFits(i: nat)
    requires i <= 32768
    ensures CodeBit(i) < 65536
  {
    Sixteen();
    ParityFromIsLeast(i, 0);
    assert Enough(i, 16);
  }

  lemma Sixteen()
    ensures Pow2(16) == 65536
  {
    assert Pow2(8) == 256;
  }

  /** Two 16-bit parities name a position in 32 bits, and so does the end of a block. */
  lemma FixFits(data: Bits, ecc: nat)
    requires |data| <= 32768 && ecc < 65536
    ensures BitXor(Parity(0, data, 0, |data|), ecc) < Pow2(32) && CodeBit(|data|) < Pow2(32)
  {
    ParityFits(data, |data|);
    Sixteen();
    BitXorBound(Parity(0, data, 0, |data|), ecc, 16);
    Pow2Grows(16, 32);
    CodeBitFits(|data|);
  }

  // ---- correcting ---------------------------------------------------------------------------

  /** Bit `i` of a hunk that starts at data bit `nr` has code bit `fix`. */
  predicate HasCode(nr: nat, i: nat, fix: nat) { CodeBit(nr + i) == fix }

  /** Flips the bit of the hunk whose code bit is `fix`; does nothing if there is none. */
  method HammingFix(data: array<bool>, d: nat, nr: nat, fix: nat)
    requires d <= data.Length && fix < Pow2(32) && CodeBit(nr + d) < Pow2(32)
    modifies data
    ensures forall i: nat | i < d && HasCode(nr, i, fix) :: data[..] == FlipBit(old(data[..]), i)
    ensures (forall i: nat | i < d :: !HasCode(nr, i, fix)) ==> data[..] == old(data[..])
  {
    var isParity := HasOneBit(fix);
    if isParity {
      forall i: nat | i < d
        ensures !HasCode(nr, i, fix)
      {
        CodeBitIsNoPower(nr + i);
      }
      return;
    }
    var limit, _ := CalcCodeBit(nr + d, 0);
    if fix >= limit {
      forall i: nat | i < d
        ensures !HasCode(nr, i, fix)
      {
        CodeBitAscends(nr + i, nr + d);
      }
      return;
    }
    var b, _ := CalcCodeBit(nr, 0);
    if fix < b {
      forall i: nat | i < d
        ensures !HasCode(nr, i, fix)
      {
        if 0 < i {
          CodeBitAscends(nr, nr + i);
        }
      }
      return;
    }
    FixInHunk(data, d, nr, fix, b);
  }

  /** The search: `b` runs through the code bits of the hunk, stepping over powers of two. */
  method FixInHunk(data: array<bool>, d: nat, nr: nat, fix: nat, first: nat)
    requires d <= data.Length && first == CodeBit(nr) && CodeBit(nr + d) < Pow2(32)
    modifies data
    ensures forall i: nat | i < d && HasCode(nr, i, fix) :: data[..] == FlipBit(old(data[..]), i)
    ensures (forall i: nat | i < d :: !HasCode(nr, i, fix)) ==> data[..] == old(data[..])
  {
    var b := first;
    for i := 0 to d
      invariant data[..] == old(data[..])
      invariant forall j: nat | j < i :: !HasCode(nr, j, fix)
      invariant if i == 0 then b == CodeBit(nr) else b == CodeBit(nr + i - 1) + 1
    {
      b := NextPosition(b, nr, i, d);
      if b == fix {
        data[i] := if data[i] then false else true;
        OnlyOneHasCode(nr, i, d, fix);
        assert HasCode(nr, i, fix);
        assert data[..] == FlipBit(old(data[..]), i);
        return;
      }
      b := b + 1;
    }
  }

  lemma OnlyOneHasCode(nr: nat, i: nat, d: nat, fix: nat)
    requires i < d && HasCode(nr, i, fix)
    ensures forall j: nat | j < d && HasCode(nr, j, fix) :: j == i
  {
    forall j: nat | j < d && HasCode(nr, j, fix)
      ensures j == i
    {
      if i < j {
        CodeBitAscends(nr + i, nr + j);
      } else if j < i {
        CodeBitAscends(nr + j, nr + i);
      }
    }
  }

  /** The position of bit `i` of the hunk, from that of the bit before it. */
  method NextPosition(b0: nat, nr: nat, i: nat, ghost d: nat) returns (b: nat)
    requires i < d && CodeBit(nr + d) < Pow2(32)
    requires if i == 0 then b0 == CodeBit(nr) else b0 == CodeBit(nr + i - 1) + 1
    ensures b == CodeBit(nr + i)
  {
    if i > 0 {
      NextCodeBit(nr + i - 1);
    }
    CodeBitAscends(nr + i, nr + d);
    b := SkipPowers(b0, nr + i);
  }

  /** Steps over the power of two that may precede code bit `i`. */
  method SkipPowers(b0: nat, i: nat) returns (b: nat)
    requires CodeBit(i) < Pow2(32) && (b0 == CodeBit(i) || (b0 + 1 == CodeBit(i) && BitCount(b0) == 1))
    ensures b == CodeBit(i)
  {
    b := b0;
    CodeBitIsNoPower(i);
    var isParity := HasOneBit(b);
    while isParity
      invariant b == CodeBit(i) || (b + 1 == CodeBit(i) && BitCount(b) == 1)
      invariant isParity <==> BitCount(b) == 1
      decreases CodeBit(i) - b
    {
      b := b + 1;
      isParity := HasOneBit(b);
    }
  }

  // ---- checking a block ---------------------------------------------------------------------

  function ByteOf(b0: bool, b1: bool, b2: bool, b3: bool, b4: bool, b5: bool, b6: bool, b7: bool): bv8 {
    (if b0 then 1 else 0) | (if b1 then 2 else 0) | (if b2 then 4 else 0) | (if b3 then 8 else 0)
    | (if b4 then 16 else 0) | (if b5 then 32 else 0) | (if b6 then 64 else 0) | (if b7 then 128 else 0)
  }

  function ByteAt(data: Bits, j: nat): bv8
    requires 8 * j + 8 <= |data|
  {
    ByteOf(data[8*j], data[8*j+1], data[8*j+2], data[8*j+3], data[8*j+4], data[8*j+5], data[8*j+6], data[8*j+7])
  }

  /** A block is a whole number of bytes, at least one and at most 4096. */
  predicate IsBlock(data: Bits) { |data| % 8 == 0 && 8 <= |data| <= 32768 }

  /** The block as the checksum sees it; bit 0 is the lowest bit of byte 0. */
  function Bytes(data: Bits): (r: seq<bv8>)
    requires |data| % 8 == 0
    ensures |r| == |data| / 8 && forall j | 0 <= j < |r| :: r[j] == ByteAt(data, j)
  {
    seq(|data| / 8, j requires 0 <= j < |data| / 8 => ByteAt(data, j))
  }

  lemma ByteChanges(b0: bool, b1: bool, b2: bool, b3: bool, b4: bool, b5: bool, b6: bool, b7: bool)
    ensures var b := ByteOf(b0, b1, b2, b3, b4, b5, b6, b7);
            && ByteOf(!b0, b1, b2, b3, b4, b5, b6, b7) != b && ByteOf(b0, !b1, b2, b3, b4, b5, b6, b7) != b
            && ByteOf(b0, b1, !b2, b3, b4, b5, b6, b7) != b && ByteOf(b0, b1, b2, !b3, b4, b5, b6, b7) != b
            && ByteOf(b0, b1, b2, b3, !b4, b5, b6, b7) != b && ByteOf(b0, b1, b2, b3, b4, !b5, b6, b7) != b
            && ByteOf(b0, b1, b2, b3, b4, b5, !b6, b7) != b && ByteOf(b0, b1, b2, b3, b4, b5, b6, !b7) != b
  {
  }

  lemma FlipChangesByte(data: Bits, i: nat)
    requires |data| % 8 == 0 && i < |data|
    ensures ByteAt(FlipBit(data, i), i / 8) != ByteAt(data, i / 8)
    ensures forall j: nat | 8 * j + 8 <= |data| && j != i / 8 :: ByteAt(FlipBit(data, i), j) == ByteAt(data, j)
  {
    var j := i / 8;
    ByteChanges(data[8*j], data[8*j+1], data[8*j+2], data[8*j+3], data[8*j+4], data[8*j+5], data[8*j+6], data[8*j+7]);
  }

  /** The stored checksum, and the stored parity. */
  datatype Check = Check(crc: bv32, ecc: nat)

  function Crc(data: Bits): bv32
    requires |data| % 8 == 0
  {
    Crc32.BitCrc(0xFFFFFFFF, Bytes(data))
  }

  function Ecc(data: Bits): nat { Parity(0, data, 0, |data|) }

  /** What is written beside a block. */
  function CheckOf(data: Bits): Check
    requires |data| % 8 == 0
  {
    Check(Crc(data), Ecc(data))
  }

  /** The single bit flip that `fix` asks for. */
  ghost function Fixed(data: Bits, fix: nat): Bits {
    if i: nat :| i < |data| && HasCode(0, i, fix) then FlipBit(data, i) else data
  }

  lemma FixedByCode(data: Bits, fix: nat, data': Bits)
    requires forall i: nat | i < |data| && HasCode(0, i, fix) :: data' == FlipBit(data, i)
    requires (forall i: nat | i < |data| :: !HasCode(0, i, fix)) ==> data' == data
    ensures data' == Fixed(data, fix)
  {
  }

  /** The block and the verdict that the check comes to. */
  ghost function Validated(data: Bits, bc: Check): (Bits, bool)
    requires |data| % 8 == 0
  {
    if Crc(data) == bc.crc then (data, true)
    else
      var data' := Fixed(data, BitXor(Ecc(data), bc.ecc));
      (data', Crc(data') == bc.crc)
  }

  method BlockCheckCompute(data: Bits, addr: nat) returns (bc: Check)
    requires IsBlock(data)
    ensures bc == CheckOf(data) && bc.ecc < 65536
  {
    var crc := Crc32.Crc32Le(0xFFFFFFFF, Bytes(data), addr);
    var ecc := HammingEncode(0, data, |data|, 0);
    ParityFits(data, |data|);
    bc := Check(crc, ecc % 65536);
  }

  method BlockCheckValidate(data: array<bool>, bc: Check, addr: nat) returns (ok: bool)
    requires IsBlock(data[..]) && bc.ecc < 65536
    modifies data
    ensures (data[..], ok) == Validated(old(data[..]), bc)
  {
    var crc := Crc32.Crc32Le(0xFFFFFFFF, Bytes(data[..]), addr);
    if crc == bc.crc {
      return true;
    }
    var ecc := HammingEncode(0, data[..], data.Length, 0);
    var fix := BitXor(ecc, bc.ecc);
    FixFits(data[..], bc.ecc);
    HammingFix(data, data.Length, 0, fix);
    FixedByCode(old(data[..]), fix, data[..]);
    crc := Crc32.Crc32Le(0xFFFFFFFF, Bytes(data[..]), addr);
    ok := crc == bc.crc;
  }

  // ---- one flipped bit ----------------------------------------------------------------------

  lemma FlipChangesCrc(data: Bits, i: nat)
    requires |data| % 8 == 0 && i < |data|
    ensures Crc(FlipBit(data, i)) != Crc(data)
  {
    FlipChangesByte(data, i);
    Crc32.OneByteDetected(0xFFFFFFFF, Bytes(FlipBit(data, i)), Bytes(data), i / 8);
  }

  /** Whichever bit of a block is flipped, the check finds it and puts it back. */
  lemma FlippedBitIsCorrected(data: Bits, i: nat)
    requires |data| % 8 == 0 && i < |data|
    ensures Validated(FlipBit(data, i), CheckOf(data)) == (data, true)
  {
    var bad := FlipBit(data, i);
    FlipChangesCrc(data, i);
    ParityOfFlip(0, data, 0, i, |data|);
    BitXorCancels(Ecc(data), CodeBit(i));
    assert HasCode(0, i, BitXor(Ecc(bad), Ecc(data)));
    OnlyOneHasCode(0, i, |data|, CodeBit(i));
    assert Fixed(bad, CodeBit(i)) == FlipBit(bad, i) == data;
  }

  /** Damage to the stored checksum is reported, and the good block is left alone. */
  lemma DamagedCrcIsReported(data: Bits, crc: bv32)
    requires |data| % 8 == 0 && crc != Crc(data)
    ensures Validated(data, CheckOf(data).(crc := crc)) == (data, false)
  {
    BitXorSelf(Ecc(data));
    forall i: nat | i < |data|
      ensures !HasCode(0, i, 0)
    {
    }
  }

  /** Damage in one place: a bit of the block, the stored parity, or the stored checksum. */
  datatype Damage = InData(i: nat) | InEcc(ecc: nat) | InCrc(crc: bv32)

  predicate Possible(data: Bits, d: Damage)
    requires |data| % 8 == 0
  {
    match d
    case InData(i) => i < |data|
    case InEcc(ecc) => ecc != Ecc(data)
    case InCrc(crc) => crc != Crc(data)
  }

  function DamagedBlock(data: Bits, d: Damage): Bits
    requires |data| % 8 == 0 && Possible(data, d)
  {
    if d.InData? then FlipBit(data, d.i) else data
  }

  function DamagedCheck(data: Bits, d: Damage): Check
    requires |data| % 8 == 0
  {
    match d
    case InData(_) => CheckOf(data)
    case InEcc(ecc) => CheckOf(data).(ecc := ecc)
    case InCrc(crc) => CheckOf(data).(crc := crc)
  }

  /** Wherever it is, the good block is what the check leaves; it is accepted unless the checksum was hit. */
  lemma OneDamage(data: Bits, d: Damage)
    requires |data| % 8 == 0 && Possible(data, d)
    ensures Validated(DamagedBlock(data, d), DamagedCheck(data, d)) == (data, !d.InCrc?)
  {
    match d
    case InData(i) => FlippedBitIsCorrected(data, i);
    case InEcc(_) =>
    case InCrc(crc) => DamagedCrcIsReported(data, crc);
  }
}
