/**
 The ones' complement checksum of the defragmenter's record file (defragfs.ocfs2/libdefrag.c, little-endian
 case).  The fast form reads aligned 32-bit words and defers carries; it computes the 16-bit ones' complement
 sum of section 1 of RFC 1071 wherever the buffer starts.
 */
module Checksum {
  import opened Common

  type Byte = b: nat | b < 256


  // ---- the sum ------------------------------------------------------------------------------

  /** The bytes `from..n` as 16-bit little-endian words, added up without any carry trouble. */
  function Sum(b: seq<Byte>, from: nat, n: nat): nat
    requires from <= n <= |b|
  {
    if n == from then 0
    else
      var last: nat := b[n-1];
      Sum(b, from, n - 1) + if (n - 1 - from) % 2 == 0 then last else 256 * last
  }

  /** The ones' complement value of a sum: its carries added back in until sixteen bits are left. */
  function Ones(n: nat): (r: nat)
    ensures r < 65536
  {
    if n == 0 then 0 else (n - 1) % 65535 + 1
  }

  /** The remainder by 65535, as repeated subtraction. */
  function Residue(x: nat): (r: nat)
    ensures r < 65535
  {
    if x < 65535 then x else Residue(x - 65535)
  }

  lemma {:induction false} ResidueIsRemainder(x: nat)
    ensures Residue(x) == x % 65535
  {
    if x >= 65535 {
      ResidueIsRemainder(x - 65535);
    }
  }

  lemma {:induction false} ResidueShift(x: nat, q: nat, y: nat)
    requires y == x + q * 65535
    ensures Residue(y) == Residue(x)
  {
    if q > 0 {
      ResidueShift(x, q - 1, y - 65535);
    }
  }

  lemma {:induction false} ResidueAdd(x: nat, z: nat)
    ensures Residue(x + z) == Residue(Residue(x) + z)
  {
    if x >= 65535 {
      ResidueAdd(x - 65535, z);
    }
  }

  /** Two sums that stand for the same ones' complement value. */
  predicate Same(x: nat, y: nat) { (x == 0 <==> y == 0) && Residue(x) == Residue(y) }

  lemma SameIsOnes(x: nat, y: nat)
    requires Same(x, y) && x < 65536
    ensures x == Ones(y)
  {
    ResidueIsRemainder(x);
    ResidueIsRemainder(y);
  }

  lemma SameAdd(x: nat, y: nat, z: nat)
    requires Same(x, y)
    ensures Same(x + z, y + z)
  {
    ResidueAdd(x, z);
    ResidueAdd(y, z);
  }

  lemma SameChain(x: nat, y: nat, z: nat)
    requires Same(x, y) && Same(y, z)
    ensures Same(x, z)
  {
  }

  /** A carry out of the upper half may be added in below. */
  lemma HalvesSame(x: nat)
    ensures Same(x % 65536 + x / 65536, x)
  {
    ResidueShift(x % 65536 + x / 65536, x / 65536, x);
  }

  /** A carry out of 32 bits counts one. */
  lemma CarrySame(x: nat)
    requires x >= UINT32_RANGE
    ensures Same(x - UINT32_RANGE + 1, x)
  {
    ResidueShift(x - UINT32_RANGE + 1, 65537, x);
  }

  function From32To16(x: nat): nat {
    var y := x % 65536 + x / 65536;
    y % 65536 + y / 65536
  }

  lemma FoldedSame(x: nat)
    requires x < UINT32_RANGE
    ensures From32To16(x) < 65536 && Same(From32To16(x), x)
  {
    var y := x % 65536 + x / 65536;
    HalvesSame(x);
    HalvesSame(y);
    SameChain(From32To16(x), y, x);
  }

  function Swapped(x: nat): nat { x / 256 % 256 + x % 256 * 256 }

  /** Swapping the two bytes multiplies by 256. */
  lemma SwappedSame(x: nat)
    requires x < 65536
    ensures Swapped(x) < 65536 && Same(Swapped(x), 256 * x)
  {
    var h, l := x / 256, x % 256;
    assert x == 256 * h + l && h % 256 == h;
    assert Swapped(x) == h + 256 * l;
    ResidueShift(Swapped(x), h, 256 * x);
  }

  // ---- the words of the buffer --------------------------------------------------------------

  function Word16(b: seq<Byte>, i: nat): (w: nat)
    requires i + 2 <= |b|
    ensures w < 65536
  {
    var low: nat, high: nat := b[i], b[i+1];
    low + 256 * high
  }

  function Word32(b: seq<Byte>, i: nat): (w: nat)
    requires i + 4 <= |b|
    ensures w < UINT32_RANGE
  {
    Word16(b, i) + 65536 * Word16(b, i + 2)
  }

  lemma SumTwo(b: seq<Byte>, from: nat, i: nat)
    requires from <= i && i + 2 <= |b| && (i - from) % 2 == 0
    ensures Sum(b, from, i + 2) == Sum(b, from, i) + Word16(b, i)
  {
  }

  lemma SumFour(b: seq<Byte>, from: nat, i: nat, x: nat, base: nat)
    requires from <= i && i + 4 <= |b| && (i - from) % 2 == 0 && Same(x, base + Sum(b, from, i))
    ensures Same(x + Word32(b, i), base + Sum(b, from, i + 4))
  {
    var u, v := Word16(b, i), Word16(b, i + 2);
    SumTwo(b, from, i);
    SumTwo(b, from, i + 2);
    SameAdd(x, base + Sum(b, from, i), u + v);
    ResidueShift(x + u + v, v, x + Word32(b, i));
  }

  /** Where an odd first byte is counted as a high one, the rest comes out swapped. */
  lemma {:induction false} SumShifted(b: seq<Byte>, n: nat)
    requires 1 <= n <= |b|
    ensures var first: nat := b[0]; Same(256 * (256 * first + Sum(b, 1, n)), Sum(b, 0, n))
    decreases n
  {
    var first: nat := b[0];
    if n == 1 {
      assert Sum(b, 0, 1) == first by { assert Sum(b, 0, 0) == 0; }
      ResidueShift(first, first, 256 * (256 * first));
    } else {
      SumShifted(b, n - 1);
      var last: nat := b[n-1];
      var x, y := 256 * (256 * first + Sum(b, 1, n - 1)), Sum(b, 0, n - 1);
      if (n - 1) % 2 == 1 {
        assert (n - 2) % 2 == 0;
        SameAdd(x, y, 256 * last);
      } else {
        assert (n - 2) % 2 == 1;
        SameAdd(x, y, last);
        ResidueShift(x + last, last, x + 65536 * last);
      }
    }
  }

  // ---- the fast form ------------------------------------------------------------------------

  /** Adds one word; the carry is remembered and added in the next round. */
  method AddWord(w: nat, result: nat, carry: nat) returns (result': nat, carry': nat)
    requires w < UINT32_RANGE && CarryFits(result, carry)
    ensures CarryFits(result', carry') && Same(result' + carry', result + carry + w)
  {
    result' := (result + carry) % UINT32_RANGE;
    ghost var exact := result' + w;
    if exact >= UINT32_RANGE {
      CarrySame(exact);
    }
    result' := (result' + w) % UINT32_RANGE;
    carry' := if w > result' then 1 else 0;
  }

  /** A pending carry never overflows when it is added. */
  predicate CarryFits(result: nat, carry: nat) {
    carry <= 1 && result + carry < UINT32_RANGE
  }

  /** Adds the 32-bit words from `start` up to `end`. */
  method AddWords(b: seq<Byte>, ghost from: nat, start: nat, end: nat, before: nat, ghost base: nat, ghost words: nat)
    returns (result: nat)
    requires from <= start < end <= |b| && (start - from) % 2 == 0 && end == start + 4 * words
    requires before < 0x4_0000 && Same(before, base + Sum(b, from, start))
    ensures result <= 0x1_fffe && Same(result, base + Sum(b, from, end)) && (end - from) % 2 == 0
  {
    var i: nat, carry := start, 0;
    ghost var left: nat := words;
    result := before;
    while i < end
      invariant start <= i <= end == i + 4 * left && (i - from) % 2 == 0
      invariant CarryFits(result, carry) && Same(result + carry, base + Sum(b, from, i))
    {
      var w := Word32(b, i);
      SumFour(b, from, i, result + carry, base);
      ghost var x := result + carry + w;
      result, carry := AddWord(w, result, carry);
      SameChain(result + carry, x, base + Sum(b, from, i + 4));
      i := i + 4;
      left := left - 1;
    }
    result := AddHalves(result + carry, base + Sum(b, from, end));
  }

  /** Adds the upper half of a word to the lower one. */
  method AddHalves(x: nat, ghost sum: nat) returns (r: nat)
    requires x < UINT32_RANGE && Same(x, sum)
    ensures r <= 0x1_fffe && Same(r, sum)
  {
    HalvesSame(x);
    r := x % 65536 + x / 65536;
  }

  /** Where the last whole 32-bit word ends. */
  method WordsEnd(start: nat, n: nat) returns (end: nat, ghost words: nat)
    requires start + 4 <= n
    ensures start < end <= n < end + 4 && end == start + 4 * words
  {
    words := (n - start) / 4;
    end := start + (n - start) / 4 * 4;
  }

  /** Adds the bytes from `from` on, by the largest aligned words that fit. */
  method AddAligned(b: seq<Byte>, from: nat, addr: nat, before: nat) returns (result: nat)
    requires from <= |b| && before < 0x1_0000
    ensures result < UINT32_RANGE && Same(result, before + Sum(b, from, |b|))
  {
    var i, len := from, |b| - from;
    result := before;
    if len >= 2 {
      if (addr + i) / 2 % 2 == 1 {
        SumTwo(b, from, i);
        result := result + Word16(b, i);
        i, len := i + 2, len - 2;
      }
      if len >= 4 {
        ghost var words;
        var end;
        end, words := WordsEnd(i, |b|);
        result := AddWords(b, from, i, end, result, before, words);
        i := end;
      }
    }
    result := AddRest(b, from, i, result, before);
  }

  /** Adds what is left behind the last 32-bit word. */
  method AddRest(b: seq<Byte>, ghost from: nat, start: nat, before: nat, ghost base: nat) returns (result: nat)
    requires from <= start <= |b| < start + 4 && (start - from) % 2 == 0
    requires before < 0x4_0000 && Same(before, base + Sum(b, from, start))
    ensures result < UINT32_RANGE && Same(result, base + Sum(b, from, |b|))
  {
    var i, len := start, |b| - start;
    result := before;
    if len >= 2 {
      SumTwo(b, from, i);
      SameAdd(result, base + Sum(b, from, i), Word16(b, i));
      result := result + Word16(b, i);
      i := i + 2;
    }
    if len % 2 == 1 {
      var last: nat := b[i];
      SameAdd(result, base + Sum(b, from, i), last);
      result := result + last;
    }
  }

  /** The checksum of a buffer that starts at address `addr`. */
  method DoCsum(b: seq<Byte>, addr: nat) returns (result: nat)
    ensures result == Ones(Sum(b, 0, |b|))
  {
    if |b| == 0 {
      return 0;
    }
    var odd := addr % 2 == 1;
    var i: nat, before: nat := 0, 0;
    if odd {
      var first: nat := b[0];
      before := 256 * first;
      i := 1;
    }
    result := AddAligned(b, i, addr, before);
    ghost var sum := before + Sum(b, i, |b|);
    FoldedSame(result);
    SameChain(From32To16(result), result, sum);
    result := From32To16(result);
    if odd {
      SwappedSame(result);
      SameTimes(result, sum);
      SumShifted(b, |b|);
      SameChain(Swapped(result), 256 * result, 256 * sum);
      SameChain(Swapped(result), 256 * sum, Sum(b, 0, |b|));
      result := Swapped(result);
    }
    SameIsOnes(result, Sum(b, 0, |b|));
  }

  lemma SameTimes(x: nat, y: nat)
    requires Same(x, y)
    ensures Same(256 * x, 256 * y)
  {
    var p := Quotient(x);
    var q := Quotient(y);
    ResidueShift(256 * Residue(x), 256 * p, 256 * x);
    ResidueShift(256 * Residue(y), 256 * q, 256 * y);
  }

  lemma {:induction false} Quotient(x: nat) returns (q: nat)
    ensures x == Residue(x) + q * 65535
  {
    q := 0;
    if x >= 65535 {
      var less := Quotient(x - 65535);
      q := less + 1;
    }
  }

  /** Buffers of whole words may be summed apart, in any order. */
  lemma {:induction false} SumConcat(a: seq<Byte>, b: seq<Byte>, n: nat)
    requires |a| % 2 == 0 && n <= |b|
    ensures Sum(a + b, 0, |a| + n) == Sum(a, 0, |a|) + Sum(b, 0, n)
    decreases n
  {
    if n == 0 {
      SumPrefix(a, b, |a|);
    } else {
      SumConcat(a, b, n - 1);
      assert (a + b)[|a| + n - 1] == b[n-1];
      assert (|a| + n - 1) % 2 == (n - 1) % 2;
    }
  }

  lemma {:induction false} SumPrefix(a: seq<Byte>, b: seq<Byte>, n: nat)
    requires n <= |a|
    ensures Sum(a + b, 0, n) == Sum(a, 0, n)
  {
    if n > 0 {
      SumPrefix(a, b, n - 1);
    }
  }
}
