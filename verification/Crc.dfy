/** The table-driven CRC-8 and the polynomial division it stands for. */
module Crc {
  // ---------------------------------------------------------------- the table

  /** Element k, for k below 16. */
  function Select(k: bv8, a0: bv8, a1: bv8, a2: bv8, a3: bv8, a4: bv8, a5: bv8, a6: bv8, a7: bv8,
                  a8: bv8, a9: bv8, a10: bv8, a11: bv8, a12: bv8, a13: bv8, a14: bv8, a15: bv8): bv8
  {
    if k == 0 then a0 else if k == 1 then a1 else if k == 2 then a2 else if k == 3 then a3
    else if k == 4 then a4 else if k == 5 then a5 else if k == 6 then a6 else if k == 7 then a7
    else if k == 8 then a8 else if k == 9 then a9 else if k == 10 then a10 else if k == 11 then a11
    else if k == 12 then a12 else if k == 13 then a13 else if k == 14 then a14 else a15
  }

  /** crc_lookup_table, sixteen entries to a row, in four quarters of four rows. */
  function Table(index: bv8): bv8 {
    var low := index & 0x0f;
    var row := (index >> 4) & 0x03;
    if index < 0x40 then Quarter0(row, low)
    else if index < 0x80 then Quarter1(row, low)
    else if index < 0xc0 then Quarter2(row, low)
    else Quarter3(row, low)
  }

  function Quarter0(row: bv8, low: bv8): bv8 {
    if row == 0 then
      Select(low, 0x00, 0x4d, 0x9a, 0xd7, 0x79, 0x34, 0xe3, 0xae,
                  0xf2, 0xbf, 0x68, 0x25, 0x8b, 0xc6, 0x11, 0x5c)
    else if row == 1 then
      Select(low, 0xa9, 0xe4, 0x33, 0x7e, 0xd0, 0x9d, 0x4a, 0x07,
                  0x5b, 0x16, 0xc1, 0x8c, 0x22, 0x6f, 0xb8, 0xf5)
    else if row == 2 then
      Select(low, 0x1f, 0x52, 0x85, 0xc8, 0x66, 0x2b, 0xfc, 0xb1,
                  0xed, 0xa0, 0x77, 0x3a, 0x94, 0xd9, 0x0e, 0x43)
    else
      Select(low, 0xb6, 0xfb, 0x2c, 0x61, 0xcf, 0x82, 0x55, 0x18,
                  0x44, 0x09, 0xde, 0x93, 0x3d, 0x70, 0xa7, 0xea)
  }

  function Quarter1(row: bv8, low: bv8): bv8 {
    if row == 0 then
      Select(low, 0x3e, 0x73, 0xa4, 0xe9, 0x47, 0x0a, 0xdd, 0x90,
                  0xcc, 0x81, 0x56, 0x1b, 0xb5, 0xf8, 0x2f, 0x62)
    else if row == 1 then
      Select(low, 0x97, 0xda, 0x0d, 0x40, 0xee, 0xa3, 0x74, 0x39,
                  0x65, 0x28, 0xff, 0xb2, 0x1c, 0x51, 0x86, 0xcb)
    else if row == 2 then
      Select(low, 0x21, 0x6c, 0xbb, 0xf6, 0x58, 0x15, 0xc2, 0x8f,
                  0xd3, 0x9e, 0x49, 0x04, 0xaa, 0xe7, 0x30, 0x7d)
    else
      Select(low, 0x88, 0xc5, 0x12, 0x5f, 0xf1, 0xbc, 0x6b, 0x26,
                  0x7a, 0x37, 0xe0, 0xad, 0x03, 0x4e, 0x99, 0xd4)
  }

  function Quarter2(row: bv8, low: bv8): bv8 {
    if row == 0 then
      Select(low, 0x7c, 0x31, 0xe6, 0xab, 0x05, 0x48, 0x9f, 0xd2,
                  0x8e, 0xc3, 0x14, 0x59, 0xf7, 0xba, 0x6d, 0x20)
    else if row == 1 then
      Select(low, 0xd5, 0x98, 0x4f, 0x02, 0xac, 0xe1, 0x36, 0x7b,
                  0x27, 0x6a, 0xbd, 0xf0, 0x5e, 0x13, 0xc4, 0x89)
    else if row == 2 then
      Select(low, 0x63, 0x2e, 0xf9, 0xb4, 0x1a, 0x57, 0x80, 0xcd,
                  0x91, 0xdc, 0x0b, 0x46, 0xe8, 0xa5, 0x72, 0x3f)
    else
      Select(low, 0xca, 0x87, 0x50, 0x1d, 0xb3, 0xfe, 0x29, 0x64,
                  0x38, 0x75, 0xa2, 0xef, 0x41, 0x0c, 0xdb, 0x96)
  }

  function Quarter3(row: bv8, low: bv8): bv8 {
    if row == 0 then
      Select(low, 0x42, 0x0f, 0xd8, 0x95, 0x3b, 0x76, 0xa1, 0xec,
                  0xb0, 0xfd, 0x2a, 0x67, 0xc9, 0x84, 0x53, 0x1e)
    else if row == 1 then
      Select(low, 0xeb, 0xa6, 0x71, 0x3c, 0x92, 0xdf, 0x08, 0x45,
                  0x19, 0x54, 0x83, 0xce, 0x60, 0x2d, 0xfa, 0xb7)
    else if row == 2 then
      Select(low, 0x5d, 0x10, 0xc7, 0x8a, 0x24, 0x69, 0xbe, 0xf3,
                  0xaf, 0xe2, 0x35, 0x78, 0xd6, 0x9b, 0x4c, 0x01)
    else
      Select(low, 0xf4, 0xb9, 0x6e, 0x23, 0x8d, 0xc0, 0x17, 0x5a,
                  0x06, 0x4b, 0x9c, 0xd1, 0x7f, 0x32, 0xe5, 0xa8)
  }

  /** The number of entries, which bounds the message length. */
  const TABLE_SIZE: nat := 256

  // ---------------------------------------------------------------- bit-serial division

  /** Eight bits, highest power first: a polynomial of degree below 8, or a byte of the message. */
  type Octet = bits: seq<bool> | |bits| == 8 witness seq(8, _ => false)

  const ZERO: Octet := [false, false, false, false, false, false, false, false]

  /** x^6 + x^3 + x^2 + 1: the divisor, without its leading x^8. */
  const DIVISOR: Octet := [false, true, false, false, true, true, false, true]

  /** Bit k of a byte, counted from the most significant. */
  predicate Bit(b: bv8, k: nat)
    decreases k
  {
    if k == 0 then b & 0x80 != 0 else Bit(b << 1, k - 1)
  }

  /** The bits of a byte. */
  function Of(b: bv8): Octet {
    seq(8, k requires 0 <= k < 8 => Bit(b, k))
  }

  /** The bits of a message, in the order they are divided. */
  function Bits(data: seq<bv8>): (bits: seq<bool>)
    ensures |bits| == 8 * |data|
  {
    if data == [] then [] else Bits(data[..|data| - 1]) + Of(data[|data| - 1])
  }

  /** Addition of polynomials over one bit, which is also subtraction. */
  function Plus(p: seq<bool>, q: seq<bool>): (sum: seq<bool>)
    requires |p| == |q|
    ensures |sum| == |p|
  {
    seq(|p|, k requires 0 <= k < |p| => p[k] != q[k])
  }

  /** Times x, with bit coming in at the bottom. */
  function Up(p: Octet, bit: bool): Octet {
    p[1..] + [bit]
  }

  /** One step of the division: the next message bit meets the top coefficient of the remainder. */
  function Divide(r: Octet, bit: bool): Octet {
    if r[0] != bit then Plus(Up(r, false), DIVISOR) else Up(r, false)
  }

  /** The remainder after dividing bits one at a time. */
  function Remainder(start: Octet, bits: seq<bool>): Octet {
    if bits == [] then start else Divide(Remainder(start, bits[..|bits| - 1]), bits[|bits| - 1])
  }

  // ---------------------------------------------------------------- division is linear

  lemma DivideAt(r: Octet, bit: bool, k: nat)
    requires k < 8
    ensures Divide(r, bit)[k] == ((k < 7 && r[k + 1]) != (DIVISOR[k] && r[0] != bit))
  {
  }

  /** The sum of two divisions is the division of the sum. */
  lemma DivideSum(r: Octet, s: Octet, x: bool, y: bool)
    ensures Plus(Divide(r, x), Divide(s, y)) == Divide(Plus(r, s), x != y)
  {
    var left, right := Plus(Divide(r, x), Divide(s, y)), Divide(Plus(r, s), x != y);
    forall k | 0 <= k < 8 ensures left[k] == right[k] {
      DivideAt(r, x, k);
      DivideAt(s, y, k);
      DivideAt(Plus(r, s), x != y, k);
    }
  }

  lemma SumIsZeroIff(p: Octet, q: Octet)
    ensures Plus(p, q) == ZERO <==> p == q
  {
    if Plus(p, q) == ZERO {
      forall k | 0 <= k < 8 ensures p[k] == q[k] {
        assert !ZERO[k];
        assert !Plus(p, q)[k];
      }
    }
  }

  /** Without message bits, a remainder of zero stays zero and any other stays other. */
  lemma NonzeroStays(r: Octet)
    ensures Divide(r, false) == ZERO <==> r == ZERO
  {
    if Divide(r, false) == ZERO {
      DivideAt(r, false, 7);
      assert !ZERO[7] && DIVISOR[7] && !r[0];
      forall k | 0 <= k < 8 ensures r[k] == ZERO[k] {
        if k > 0 { DivideAt(r, false, k - 1); }
      }
    }
  }

  /** The remainder of n message bits 0, that is r * x^n modulo the divisor. */
  function Steps(r: Octet, n: nat): Octet {
    if n == 0 then r else Divide(Steps(r, n - 1), false)
  }

  lemma {:induction false} StepsNonzero(r: Octet, n: nat)
    ensures Steps(r, n) == ZERO <==> r == ZERO
  {
    if n > 0 {
      StepsNonzero(r, n - 1);
      NonzeroStays(Steps(r, n - 1));
    }
  }

  /** w * x^n, without the powers from x^8 on. */
  function Raised(w: Octet, n: nat): Octet
    requires n <= 8
  {
    w[n..] + ZERO[..n]
  }

  /** Dividing by the top bit of w is adding w to the remainder first and taking the rest of w out again. */
  lemma AddFirst(r: Octet, w: Octet, n: nat)
    requires n < 8
    ensures Plus(Divide(r, w[n]), Raised(w, n + 1)) == Divide(Plus(r, Raised(w, n)), false)
  {
    var top := Raised(w, n);
    var left, right := Plus(Divide(r, w[n]), Raised(w, n + 1)), Divide(Plus(r, top), false);
    forall k | 0 <= k < 8 ensures left[k] == right[k] {
      DivideAt(r, w[n], k);
      DivideAt(Plus(r, top), false, k);
    }
  }

  lemma {:induction false} AddPrefixFirst(r: Octet, w: Octet, n: nat)
    requires n <= 8
    ensures Plus(Remainder(r, w[..n]), Raised(w, n)) == Steps(Plus(r, w), n)
  {
    if n == 0 {
      assert Raised(w, 0) == w;
    } else {
      AddPrefixFirst(r, w, n - 1);
      AddFirst(Remainder(r, w[..n - 1]), w, n - 1);
      assert w[..n][..n - 1] == w[..n - 1];
    }
  }

  /** Dividing eight bits is adding them to the remainder and multiplying by x^8. */
  lemma AddByteFirst(r: Octet, w: Octet)
    ensures Remainder(r, w) == Steps(Plus(r, w), 8)
  {
    AddPrefixFirst(r, w, 8);
    assert w[..8] == w;
    var sum := Plus(Remainder(r, w), Raised(w, 8));
    assert forall k :: 0 <= k < 8 ==> !Raised(w, 8)[k] && sum[k] == Remainder(r, w)[k];
  }

  lemma {:induction false} RemainderConcat(start: Octet, x: seq<bool>, y: seq<bool>)
    ensures Remainder(start, x + y) == Remainder(Remainder(start, x), y)
  {
    if y == [] {
      assert x + y == x;
    } else {
      var n := |y| - 1;
      RemainderConcat(start, x, y[..n]);
      assert (x + y)[..|x + y| - 1] == x + y[..n];
    }
  }

  // ---------------------------------------------------------------- the table holds eight steps

  /** A step on the bits of a byte. */
  function ByteStep(b: bv8): bv8 {
    if b & 0x80 != 0 then (b << 1) ^ 0x4d else b << 1
  }

  lemma TopOfSum(a: bv8, b: bv8)
    ensures Bit(a ^ b, 0) == (Bit(a, 0) != Bit(b, 0))
  {
  }

  lemma ShiftOfSum(a: bv8, b: bv8)
    ensures (a ^ b) << 1 == (a << 1) ^ (b << 1)
  {
  }

  lemma {:induction false} BitOfSum(a: bv8, b: bv8, k: nat)
    ensures Bit(a ^ b, k) == (Bit(a, k) != Bit(b, k))
    decreases k
  {
    if k == 0 {
      TopOfSum(a, b);
    } else {
      ShiftOfSum(a, b);
      BitOfSum(a << 1, b << 1, k - 1);
    }
  }

  /** The sum of two bytes is the sum of their polynomials. */
  lemma OfSum(a: bv8, b: bv8)
    ensures Of(a ^ b) == Plus(Of(a), Of(b))
  {
    forall k | 0 <= k < 8 ensures Of(a ^ b)[k] == Plus(Of(a), Of(b))[k] {
      BitOfSum(a, b, k);
    }
  }

  lemma FirstBits(b: bv8)
    ensures Bit(b, 0) == (b & 0x80 != 0) && Bit(b, 1) == (b & 0x40 != 0)
    ensures Bit(b, 2) == (b & 0x20 != 0) && Bit(b, 3) == (b & 0x10 != 0)
  {
    assert Bit(b, 1) == Bit(b << 1, 0) && Bit(b, 2) == Bit(b << 1, 1) == Bit(b << 2, 0);
    assert Bit(b, 3) == Bit(b << 1, 2) == Bit(b << 2, 1) == Bit(b << 3, 0);
  }

  lemma LowerBits(b: bv8, k: nat)
    requires 4 <= k
    ensures Bit(b, k) == Bit(b << 4, k - 4)
  {
    assert (b << 1) << 1 == b << 2 && (b << 2) << 1 == b << 3 && (b << 3) << 1 == b << 4;
    assert Bit(b, k) == Bit(b << 1, k - 1) == Bit(b << 2, k - 2) == Bit(b << 3, k - 3);
  }

  lemma BitsAreMasks(b: bv8)
    ensures Bit(b, 0) == (b & 0x80 != 0) && Bit(b, 1) == (b & 0x40 != 0)
    ensures Bit(b, 2) == (b & 0x20 != 0) && Bit(b, 3) == (b & 0x10 != 0)
    ensures Bit(b, 4) == (b & 0x08 != 0) && Bit(b, 5) == (b & 0x04 != 0)
    ensures Bit(b, 6) == (b & 0x02 != 0) && Bit(b, 7) == (b & 0x01 != 0)
  {
    FirstBits(b);
    FirstBits(b << 4);
    LowerBits(b, 4);
    LowerBits(b, 5);
    LowerBits(b, 6);
    LowerBits(b, 7);
  }

  lemma NoBitEight(b: bv8)
    ensures !Bit(b << 1, 7)
  {
    BitsAreMasks(b << 1);
  }

  lemma DivisorBits(k: nat)
    requires k < 8
    ensures Bit(0x4d, k) == DIVISOR[k]
  {
    BitsAreMasks(0x4d);
  }

  lemma StartBits()
    ensures Of(0xff) == START
  {
    BitsAreMasks(0xff);
  }

  lemma ByteStepDividesAt(b: bv8, k: nat)
    requires k < 8
    ensures Of(ByteStep(b))[k] == Divide(Of(b), false)[k]
  {
    DivideAt(Of(b), false, k);
    if k == 7 { NoBitEight(b); }
    if b & 0x80 != 0 {
      BitOfSum(b << 1, 0x4d, k);
      DivisorBits(k);
    }
  }

  lemma ByteStepDivides(b: bv8)
    ensures Of(ByteStep(b)) == Divide(Of(b), false)
  {
    forall k | 0 <= k < 8 ensures Of(ByteStep(b))[k] == Divide(Of(b), false)[k] {
      ByteStepDividesAt(b, k);
    }
  }

  function EightByteSteps(b: bv8): bv8 {
    ByteStep(ByteStep(ByteStep(ByteStep(ByteStep(ByteStep(ByteStep(ByteStep(b))))))))
  }

  /** The sum of x^(8+k) modulo the divisor over the set bits k of i. */
  function Shifted(i: bv8): bv8 {
    (if i & 0x01 != 0 then 0x4d else 0) ^ (if i & 0x02 != 0 then 0x9a else 0)
  ^ (if i & 0x04 != 0 then 0x79 else 0) ^ (if i & 0x08 != 0 then 0xf2 else 0)
  ^ (if i & 0x10 != 0 then 0xa9 else 0) ^ (if i & 0x20 != 0 then 0x1f else 0)
  ^ (if i & 0x40 != 0 then 0x3e else 0) ^ (if i & 0x80 != 0 then 0x7c else 0)
  }

  lemma Quarter0HoldsShifted(i: bv8)
    requires i < 0x40
    ensures Table(i) == Shifted(i)
  {
  }

  lemma Quarter1HoldsShifted(i: bv8)
    requires 0x40 <= i < 0x80
    ensures Table(i) == Shifted(i)
  {
  }

  lemma Quarter2HoldsShifted(i: bv8)
    requires 0x80 <= i < 0xc0
    ensures Table(i) == Shifted(i)
  {
  }

  lemma Quarter3HoldsShifted(i: bv8)
    requires 0xc0 <= i
    ensures Table(i) == Shifted(i)
  {
  }

  lemma TableHoldsShifted(i: bv8)
    ensures Table(i) == Shifted(i)
  {
    if i < 0x40 {
      Quarter0HoldsShifted(i);
    } else if i < 0x80 {
      Quarter1HoldsShifted(i);
    } else if i < 0xc0 {
      Quarter2HoldsShifted(i);
    } else {
      Quarter3HoldsShifted(i);
    }
  }

  lemma ShiftedIsEightSteps(i: bv8)
    ensures Shifted(i) == EightByteSteps(i)
  {
  }

  lemma EightStepsDivide(b: bv8)
    ensures Of(EightByteSteps(b)) == Steps(Of(b), 8)
  {
    var b1 := ByteStep(b);
    var b2 := ByteStep(b1);
    var b3 := ByteStep(b2);
    var b4 := ByteStep(b3);
    var b5 := ByteStep(b4);
    var b6 := ByteStep(b5);
    var b7 := ByteStep(b6);
    ByteStepDivides(b);
    ByteStepDivides(b1);
    ByteStepDivides(b2);
    ByteStepDivides(b3);
    ByteStepDivides(b4);
    ByteStepDivides(b5);
    ByteStepDivides(b6);
    ByteStepDivides(b7);
    assert Steps(Of(b), 1) == Of(b1);
    assert Steps(Of(b), 2) == Of(b2);
    assert Steps(Of(b), 3) == Of(b3);
    assert Steps(Of(b), 4) == Of(b4);
    assert Steps(Of(b), 5) == Of(b5);
    assert Steps(Of(b), 6) == Of(b6);
    assert Steps(Of(b), 7) == Of(b7);
  }

  /** Entry i of the table is i * x^8 modulo the divisor. */
  lemma TableDivides(i: bv8)
    ensures Of(Table(i)) == Steps(Of(i), 8)
  {
    TableHoldsShifted(i);
    ShiftedIsEightSteps(i);
    EightStepsDivide(i);
  }

  /** One lookup divides one byte. */
  lemma LookupDividesByte(crc: bv8, b: bv8)
    ensures Of(Table(b ^ crc)) == Remainder(Of(crc), Of(b))
  {
    TableDivides(b ^ crc);
    OfSum(b, crc);
    AddByteFirst(Of(crc), Of(b));
    assert Plus(Of(b), Of(crc)) == Plus(Of(crc), Of(b));
  }

  // ---------------------------------------------------------------- the checksum

  /** All eight coefficients set: the remainder the division starts from. */
  const START: Octet := [true, true, true, true, true, true, true, true]

  method CalculateCRC(data: seq<bv8>) returns (crc: bv8)
    requires |data| < TABLE_SIZE
    ensures Of(crc) == Remainder(START, Bits(data))
  {
    crc := 0xff;
    StartBits();
    var i := 0;
    while i < |data|
      invariant 0 <= i <= |data|
      invariant Of(crc) == Remainder(START, Bits(data[..i]))
    {
      LookupDividesByte(crc, data[i]);
      RemainderConcat(START, Bits(data[..i]), Of(data[i]));
      assert data[..i + 1][..i] == data[..i];
      var index := data[i] ^ crc;
      crc := Table(index);
      i := i + 1;
    }
    assert data[..i] == data;
  }

  // ---------------------------------------------------------------- which errors are detected

  /** The difference of two remainders is the remainder of the difference. */
  lemma {:induction false} RemainderSum(r: Octet, s: Octet, x: seq<bool>, y: seq<bool>)
    requires |x| == |y|
    ensures Plus(Remainder(r, x), Remainder(s, y)) == Remainder(Plus(r, s), Plus(x, y))
  {
    if x != [] {
      var n := |x| - 1;
      RemainderSum(r, s, x[..n], y[..n]);
      DivideSum(Remainder(r, x[..n]), Remainder(s, y[..n]), x[n], y[n]);
      assert Plus(x, y)[..n] == Plus(x[..n], y[..n]);
    }
  }

  /** Messages of one length have the same checksum iff the divisor divides their difference. */
  lemma SameChecksumIff(a: seq<bv8>, b: seq<bv8>)
    requires |a| == |b|
    ensures Remainder(START, Bits(a)) == Remainder(START, Bits(b))
       <==> Remainder(ZERO, Plus(Bits(a), Bits(b))) == ZERO
  {
    RemainderSum(START, START, Bits(a), Bits(b));
    SumIsZeroIff(START, START);
    SumIsZeroIff(Remainder(START, Bits(a)), Remainder(START, Bits(b)));
  }

  /** Zero bits only multiply the remainder. */
  lemma {:induction false} ZerosAreSteps(r: Octet, zeros: seq<bool>)
    requires forall i :: 0 <= i < |zeros| ==> !zeros[i]
    ensures Remainder(r, zeros) == Steps(r, |zeros|)
  {
    if zeros != [] {
      ZerosAreSteps(r, zeros[..|zeros| - 1]);
    }
  }

  lemma WindowRemains(w: Octet)
    ensures Remainder(ZERO, w) == ZERO <==> w == ZERO
  {
    AddByteFirst(ZERO, w);
    assert Plus(ZERO, w) == w by {
      assert forall k :: 0 <= k < 8 ==> !ZERO[k];
    }
    StepsNonzero(w, 8);
  }

  /** A difference with only zeros before and after eight bits that are not all zero. */
  lemma SurroundedIsSeen(head: seq<bool>, w: Octet, tail: seq<bool>)
    requires forall i :: 0 <= i < |head| ==> !head[i]
    requires forall i :: 0 <= i < |tail| ==> !tail[i]
    requires w != ZERO
    ensures Remainder(ZERO, head + (w + tail)) != ZERO
  {
    RemainderConcat(ZERO, head, w + tail);
    ZerosAreSteps(ZERO, head);
    StepsNonzero(ZERO, |head|);
    RemainderConcat(ZERO, w, tail);
    WindowRemains(w);
    ZerosAreSteps(Remainder(ZERO, w), tail);
    StepsNonzero(Remainder(ZERO, w), |tail|);
  }

  /** The divisor does not divide a difference confined to eight consecutive bits. */
  lemma WindowIsSeen(bits: seq<bool>, k: nat, i: nat)
    requires k + 8 <= |bits|
    requires forall i :: 0 <= i < |bits| && !(k <= i < k + 8) ==> !bits[i]
    requires k <= i < k + 8 && bits[i]
    ensures Remainder(ZERO, bits) != ZERO
  {
    var head, w, tail := bits[..k], bits[k..k + 8], bits[k + 8..];
    assert bits == head + (w + tail);
    assert w[i - k] && !ZERO[i - k];
    SurroundedIsSeen(head, w, tail);
  }

  lemma OfIsExact(a: bv8, b: bv8)
    requires Of(a) == Of(b)
    ensures a == b
  {
    BitsAreMasks(a);
    BitsAreMasks(b);
    assert forall k :: 0 <= k < 8 ==> Of(a)[k] == Bit(a, k) && Of(b)[k] == Bit(b, k);
    assert Bit(a, 0) == Bit(b, 0) && Bit(a, 1) == Bit(b, 1) && Bit(a, 2) == Bit(b, 2) && Bit(a, 3) == Bit(b, 3);
    assert Bit(a, 4) == Bit(b, 4) && Bit(a, 5) == Bit(b, 5) && Bit(a, 6) == Bit(b, 6) && Bit(a, 7) == Bit(b, 7);
  }

  /** A message can be read back from its bits. */
  lemma {:induction false} BitsAreExact(a: seq<bv8>, b: seq<bv8>)
    requires |a| == |b| && Bits(a) == Bits(b)
    ensures a == b
  {
    if a != [] {
      var n := |a| - 1;
      var x, y := Bits(a[..n]), Bits(b[..n]);
      assert Bits(a)[..|x|] == x && Bits(b)[..|x|] == y;
      assert Bits(a)[|x|..] == Of(a[n]) && Bits(b)[|x|..] == Of(b[n]);
      BitsAreExact(a[..n], b[..n]);
      OfIsExact(a[n], b[n]);
      assert a == a[..n] + [a[n]] && b == b[..n] + [b[n]];
    }
  }

  /** Everything outside the eight bits from k on agrees. */
  ghost predicate AgreeOutside(x: seq<bool>, y: seq<bool>, k: nat) {
    |x| == |y| && forall i :: 0 <= i < |x| && !(k <= i < k + 8) ==> x[i] == y[i]
  }

  /** Messages of one length whose difference lies within eight consecutive bits get different checksums. */
  lemma BurstsAreDetected(a: seq<bv8>, b: seq<bv8>, k: nat)
    requires |a| == |b| && a != b && AgreeOutside(Bits(a), Bits(b), k)
    ensures Remainder(START, Bits(a)) != Remainder(START, Bits(b))
  {
    var x, y := Bits(a), Bits(b);
    var difference := Plus(x, y);
    if x == y { BitsAreExact(a, b); }
    var i :| 0 <= i < |x| && x[i] != y[i];
    var from := if k + 8 <= |x| then k else |x| - 8;
    assert difference[i];
    WindowIsSeen(difference, from, i);
    SameChecksumIff(a, b);
  }

  /** Eight is the most: these two differ in a nine-bit burst, the divisor itself, and collide. */
  lemma NineBitsCanHide()
    ensures Remainder(START, Bits([0x00, 0x00])) == Remainder(START, Bits([0xa6, 0x80]))
  {
    TwoBytes(0x00, 0x00);
    TwoBytes(0xa6, 0x80);
  }

  /** The checksum of two bytes by lookups. */
  lemma TwoBytes(a: bv8, b: bv8)
    ensures Remainder(START, Bits([a, b])) == Of(Table(b ^ Table(a ^ 0xff)))
  {
    StartBits();
    assert Bits([a]) == Of(a) by { assert [a][..0] == []; }
    assert [a, b][..1] == [a];
    RemainderConcat(START, Bits([a]), Of(b));
    LookupDividesByte(0xff, a);
    LookupDividesByte(Table(a ^ 0xff), b);
  }
}
