/**
 What the CRC-32/ISO-HDLC checksum is, apart from the register that computes it: the complemented
 remainder of a division of polynomials over the two-element field.
 */
module Crc32Remainder {
  import opened Crc32

  /** The bits of a byte in the order they are sent, the lowest first. */
  function BitsOf(byte: bv8): (bits: seq<bool>)
    ensures |bits| == 8
  {
    [byte & 0x01 != 0, byte & 0x02 != 0, byte & 0x04 != 0, byte & 0x08 != 0,
     byte & 0x10 != 0, byte & 0x20 != 0, byte & 0x40 != 0, byte & 0x80 != 0]
  }

  /** The first `n` bytes as bits. */
  function Bits(bytes: seq<bv8>, n: nat): (bits: seq<bool>)
    requires n <= |bytes|
    ensures |bits| == 8 * n
  {
    if n == 0 then [] else Bits(bytes, n - 1) + BitsOf(bytes[n - 1])
  }

  /** The coefficient of the lowest power is kept in the highest bit. */
  function Coefficient(bit: bool): bv32 {
    if bit then 0x8000_0000 else 0
  }

  /**
   Long division: the remainder of the first `n` bits, as a polynomial, by the generator
   x^32 + x^26 + x^23 + x^22 + x^16 + x^12 + x^11 + x^10 + x^8 + x^7 + x^5 + x^4 + x^2 + x + 1. The next
   bit multiplies what is left by x and adds itself; where x^32 appears the generator is taken away.
   */
  function Remainder(bits: seq<bool>, n: nat): bv32
    requires n <= |bits|
  {
    if n == 0 then 0
    else
      var rest := Remainder(bits, n - 1);
      var shifted := Xor(Half(rest), Coefficient(bits[n - 1]));
      if rest & 1 == 1 then Xor(shifted, 0xedb8_8320) else shifted
  }

  /** The first 32 bits complemented, the others as they are. */
  function Flipped(bits: seq<bool>): (flipped: seq<bool>)
    ensures |flipped| == |bits|
    ensures forall i :: 0 <= i < |bits| ==> flipped[i] == if i < 32 then !bits[i] else bits[i]
  {
    seq(|bits|, i requires 0 <= i < |bits| => if i < 32 then !bits[i] else bits[i])
  }

  function Zeroes(n: nat): (bits: seq<bool>)
    ensures |bits| == n && forall i :: 0 <= i < n ==> !bits[i]
  {
    seq(n, _ => false)
  }

  // ----- the division by steps -----

  lemma RemainderSteps(bits: seq<bool>, n: nat)
    requires 0 < n <= |bits|
    ensures Remainder(bits, n) == Xor(Step(Remainder(bits, n - 1)), Coefficient(bits[n - 1]))
  {
    var rest := Remainder(bits, n - 1);
    LowBit(rest);
    Swap(Half(rest), Coefficient(bits[n - 1]), Pick(rest));
  }

  lemma Swap(a: bv32, b: bv32, c: bv32)
    ensures Xor(Xor(a, c), b) == Xor(Xor(a, b), c)
    ensures Xor(a, 0) == a
  {
    Reassociate(a, c, b);
    Reassociate(a, b, c);
    Commute(b, c);
  }

  // ----- the register bit by bit -----

  function Low(bit: bool): bv32 {
    if bit then 1 else 0
  }

  /** A register that takes its bits in at the low end. */
  function Fed(start: bv32, bits: seq<bool>, n: nat): bv32
    requires n <= |bits|
  {
    if n == 0 then start else Step(Xor(Fed(start, bits, n - 1), Low(bits[n - 1])))
  }

  lemma Lowest(word: bv32)
    requires word & 0x8000_0000 == 0
    ensures word == Xor(word & 1, Half(word) << 1) && (Half(word) << 1) & 1 == 0 && Half(Half(word) << 1) == Half(word)
  {
  }

  /** Stepping a mixed-in word is feeding its lowest bit and keeping the others mixed in. */
  lemma FeedLowest(crc: bv32, word: bv32)
    requires word & 0x8000_0000 == 0
    ensures Step(Xor(crc, word)) == Xor(Step(Xor(crc, word & 1)), Half(word))
  {
    Lowest(word);
    Reassociate(crc, word & 1, Half(word) << 1);
    StepIsLinear(Xor(crc, word & 1), Half(word) << 1);
    EvenStep(Half(word) << 1);
  }

  lemma Shifted(word: bv32)
    ensures Halves(word, 1) == word >> 1 && Halves(word, 2) == word >> 2 && Halves(word, 3) == word >> 3
    ensures Halves(word, 4) == word >> 4 && Halves(word, 5) == word >> 5 && Halves(word, 6) == word >> 6
    ensures Halves(word, 7) == word >> 7 && Halves(word, 8) == word >> 8
  {
    assert Halves(word, 1) == word >> 1;
    assert Halves(word, 2) == word >> 2;
    assert Halves(word, 3) == word >> 3;
    assert Halves(word, 4) == word >> 4;
    assert Halves(word, 5) == word >> 5;
    assert Halves(word, 6) == word >> 6;
    assert Halves(word, 7) == word >> 7;
  }

  lemma WideBits(byte: bv8)
    ensures var word := Wide(byte);
            && word & 1 == Low(byte & 0x01 != 0) && (word >> 1) & 1 == Low(byte & 0x02 != 0)
            && (word >> 2) & 1 == Low(byte & 0x04 != 0) && (word >> 3) & 1 == Low(byte & 0x08 != 0)
            && (word >> 4) & 1 == Low(byte & 0x10 != 0) && (word >> 5) & 1 == Low(byte & 0x20 != 0)
            && (word >> 6) & 1 == Low(byte & 0x40 != 0) && (word >> 7) & 1 == Low(byte & 0x80 != 0)
            && word >> 8 == 0
  {
  }

  lemma WideIsShort(byte: bv8)
    ensures var word := Wide(byte);
            && word & 0x8000_0000 == 0 && (word >> 1) & 0x8000_0000 == 0 && (word >> 2) & 0x8000_0000 == 0
            && (word >> 3) & 0x8000_0000 == 0 && (word >> 4) & 0x8000_0000 == 0 && (word >> 5) & 0x8000_0000 == 0
            && (word >> 6) & 0x8000_0000 == 0 && (word >> 7) & 0x8000_0000 == 0
  {
  }

  /** The bits of a mixed-in byte come to the low end one after another. */
  lemma ByteBits(byte: bv8)
    ensures forall k :: 0 <= k < 8 ==> Halves(Wide(byte), k) & 1 == Low(BitsOf(byte)[k])
    ensures forall k :: 0 <= k < 8 ==> Halves(Wide(byte), k) & 0x8000_0000 == 0
    ensures Halves(Wide(byte), 8) == 0
  {
    Shifted(Wide(byte));
    WideBits(byte);
    WideIsShort(byte);
  }

  /** After `k` of a byte's bits have been fed, the others are still mixed in. */
  lemma {:induction false} ByteIsFed(crc: bv32, byte: bv8, k: nat)
    requires k <= 8
    ensures Steps(Xor(crc, Wide(byte)), k) == Xor(Fed(crc, BitsOf(byte), k), Halves(Wide(byte), k))
  {
    if k > 0 {
      var j: nat := k - 1;
      ByteIsFed(crc, byte, j);
      ByteBits(byte);
      FeedLowest(Fed(crc, BitsOf(byte), j), Halves(Wide(byte), j));
    }
  }

  lemma FeedIsBits(crc: bv32, byte: bv8)
    ensures Feed(crc, byte) == Fed(crc, BitsOf(byte), 8)
  {
    ByteIsFed(crc, byte, 8);
    ByteBits(byte);
    Swap(Fed(crc, BitsOf(byte), 8), 0, 0);
  }

  lemma {:induction false} FedOn(start: bv32, bits: seq<bool>, more: seq<bool>, n: nat)
    requires n <= |more|
    ensures Fed(start, bits + more, |bits| + n) == Fed(Fed(start, bits, |bits|), more, n)
  {
    if n == 0 {
      FedPrefix(start, bits, more, |bits|);
    } else {
      FedOn(start, bits, more, n - 1);
    }
  }

  lemma {:induction false} FedPrefix(start: bv32, bits: seq<bool>, more: seq<bool>, n: nat)
    requires n <= |bits|
    ensures Fed(start, bits + more, n) == Fed(start, bits, n)
  {
    if n > 0 {
      FedPrefix(start, bits, more, n - 1);
    }
  }

  /** The register of the bytes is the one that takes their bits in one by one. */
  lemma {:induction false} RegisterIsFed(bytes: seq<bv8>, n: nat)
    requires n <= |bytes|
    ensures Register(bytes, n) == Fed(0xffff_ffff, Bits(bytes, n), 8 * n)
  {
    if n > 0 {
      RegisterIsFed(bytes, n - 1);
      FeedIsBits(Register(bytes, n - 1), bytes[n - 1]);
      FedOn(0xffff_ffff, Bits(bytes, n - 1), BitsOf(bytes[n - 1]), 8);
    }
  }

  // ----- feeding is dividing -----

  /** A coefficient put in at the high end is at the low end after 31 steps. */
  lemma ComesDown(bit: bool)
    ensures Steps(Coefficient(bit), 32) == Step(Low(bit))
  {
    if bit {
      assert Place(0x80, 3) == 0x8000_0000;
      PlacedComesDown(0x80, 3);
      assert Halves(0x80, 1) == 0x40 && Halves(0x80, 2) == 0x20 && Halves(0x80, 3) == 0x10;
      assert Halves(0x80, 4) == 0x08 && Halves(0x80, 5) == 0x04 && Halves(0x80, 6) == 0x02 && Halves(0x80, 7) == 0x01;
      EvenSteps(0x80, 7);
      StepsCompose(0x8000_0000, 24, 7);
    } else {
      StepsOfZero(32);
      StepsOfZero(1);
    }
  }

  lemma AheadByOne(rest: bv32, bit: bool)
    ensures Steps(Xor(Step(rest), Coefficient(bit)), 32) == Step(Xor(Steps(rest, 32), Low(bit)))
  {
    StepsAreLinear(Step(rest), Coefficient(bit), 32);
    assert Step(rest) == Steps(rest, 1);
    StepsCompose(rest, 1, 32);
    StepIsLinear(Steps(rest, 32), Low(bit));
    ComesDown(bit);
  }

  /** Starting from nothing, the register is 32 steps ahead of the remainder. */
  lemma {:induction false} FedIsAhead(bits: seq<bool>, n: nat)
    requires n <= |bits|
    ensures Fed(0, bits, n) == Steps(Remainder(bits, n), 32)
  {
    if n == 0 {
      StepsOfZero(32);
    } else {
      FedIsAhead(bits, n - 1);
      RemainderSteps(bits, n);
      AheadByOne(Remainder(bits, n - 1), bits[n - 1]);
    }
  }

  /** Every zero bit that follows is one step. */
  lemma {:induction false} ZeroesAreSteps(bits: seq<bool>, n: nat, m: nat)
    requires n + m <= |bits| && forall i :: n <= i < n + m ==> !bits[i]
    ensures Remainder(bits, n + m) == Steps(Remainder(bits, n), m)
  {
    if m > 0 {
      ZeroesAreSteps(bits, n, m - 1);
      RemainderSteps(bits, n + m);
      Swap(Step(Remainder(bits, n + m - 1)), 0, 0);
    }
  }

  lemma {:induction false} RemainderPrefix(bits: seq<bool>, more: seq<bool>, n: nat)
    requires n <= |bits|
    ensures Remainder(bits + more, n) == Remainder(bits, n)
  {
    if n > 0 {
      RemainderPrefix(bits, more, n - 1);
    }
  }

  // ----- the register does not start from nothing -----

  /** What a start adds to the register is stepped along and mixed in at the end. */
  lemma {:induction false} StartIsStepped(start: bv32, bits: seq<bool>, n: nat)
    requires n <= |bits|
    ensures Fed(start, bits, n) == Xor(Fed(0, bits, n), Steps(start, n))
  {
    if n == 0 {
      Commute(0, start);
      Swap(start, 0, 0);
    } else {
      StartIsStepped(start, bits, n - 1);
      Swap(Fed(0, bits, n - 1), Low(bits[n - 1]), Steps(start, n - 1));
      StepIsLinear(Xor(Fed(0, bits, n - 1), Low(bits[n - 1])), Steps(start, n - 1));
    }
  }

  /** The remainder of so many ones. */
  function Ones(n: nat): bv32 {
    if n == 0 then 0 else OneMore(Ones(n - 1))
  }

  function OneMore(rest: bv32): bv32 {
    Xor(Step(rest), 0x8000_0000)
  }

  lemma EightOnes(n: nat)
    ensures Ones(n + 8) == OneMore(OneMore(OneMore(OneMore(OneMore(OneMore(OneMore(OneMore(Ones(n)))))))))
  {
    assert Ones(n + 4) == OneMore(OneMore(OneMore(OneMore(Ones(n))))) by {
      assert Ones(n + 2) == OneMore(OneMore(Ones(n)));
    }
    assert Ones(n + 8) == OneMore(OneMore(OneMore(OneMore(Ones(n + 4))))) by {
      assert Ones(n + 6) == OneMore(OneMore(Ones(n + 4)));
    }
  }

  lemma OnesFill()
    ensures Ones(32) == 0xffff_ffff
  {
    EightOnes(0);
    assert Ones(8) == 0xff00_0000;
    EightOnes(8);
    assert Ones(16) == 0xffff_0000;
    EightOnes(16);
    assert Ones(24) == 0xffff_ff00;
    EightOnes(24);
  }

  lemma FlippedCoefficient(bit: bool)
    ensures Coefficient(!bit) == Xor(Coefficient(bit), 0x8000_0000)
  {
  }

  lemma {:induction false} FlippingAddsOnes(bits: seq<bool>, n: nat)
    requires n <= 32 && n <= |bits|
    ensures Remainder(Flipped(bits), n) == Xor(Remainder(bits, n), Ones(n))
  {
    if n > 0 {
      FlippingAddsOnes(bits, n - 1);
      RemainderSteps(bits, n);
      RemainderSteps(Flipped(bits), n);
      StepIsLinear(Remainder(bits, n - 1), Ones(n - 1));
      FlippedCoefficient(bits[n - 1]);
      Regroup(Step(Remainder(bits, n - 1)), Step(Ones(n - 1)), Coefficient(bits[n - 1]), 0x8000_0000);
    }
  }

  lemma {:induction false} FlippingIsStarting(bits: seq<bool>, n: nat)
    requires 32 <= n <= |bits|
    ensures Remainder(Flipped(bits), n) == Xor(Remainder(bits, n), Steps(0xffff_ffff, n - 32))
  {
    if n == 32 {
      FlippingAddsOnes(bits, 32);
      OnesFill();
    } else {
      FlippingIsStarting(bits, n - 1);
      RemainderSteps(bits, n);
      RemainderSteps(Flipped(bits), n);
      StepIsLinear(Remainder(bits, n - 1), Steps(0xffff_ffff, n - 33));
      Swap(Step(Remainder(bits, n - 1)), Coefficient(bits[n - 1]), Steps(0xffff_ffff, n - 32));
    }
  }

  // ----- what the checksum is -----

  /** The bits of the message, and a zero for each bit of the remainder. */
  function Sent(bytes: seq<bv8>): (bits: seq<bool>)
    ensures |bits| == 8 * |bytes| + 32
  {
    Bits(bytes, |bytes|) + Zeroes(32)
  }

  /**
   The complement of the remainder of the message followed by 32 zero bits, the first 32 bits of them all
   complemented.
   */
  function MessageCheck(bytes: seq<bv8>): bv32 {
    Xor(Remainder(Flipped(Sent(bytes)), |Sent(bytes)|), 0xffff_ffff)
  }

  /** That is what the register computes. */
  lemma ChecksumIsRemainder(bytes: seq<bv8>)
    ensures Checksum(bytes) == MessageCheck(bytes)
  {
    var bits, n := Bits(bytes, |bytes|), 8 * |bytes|;
    RegisterIsFed(bytes, |bytes|);
    StartIsStepped(0xffff_ffff, bits, n);
    FedIsAhead(bits, n);
    RemainderPrefix(bits, Zeroes(32), n);
    ZeroesAreSteps(Sent(bytes), n, 32);
    FlippingIsStarting(Sent(bytes), n + 32);
  }

  lemma EightSteps(word: bv32)
    ensures Steps(word, 8) == Step(Step(Step(Step(Step(Step(Step(Step(word))))))))
  {
    assert Steps(word, 1) == Step(word);
    assert Steps(word, 3) == Step(Step(Steps(word, 1)));
    assert Steps(word, 5) == Step(Step(Steps(word, 3)));
    assert Steps(word, 7) == Step(Step(Steps(word, 5)));
  }

  lemma ThreeMore(bytes: seq<bv8>, n: nat, crcs: seq<bv32>, three: seq<bv8>)
    requires |crcs| == 4 && |three| == 3 && n + 3 <= |bytes| && Register(bytes, n) == crcs[0]
    requires forall k :: 0 <= k < 3 ==> bytes[n + k] == three[k] && Feed(crcs[k], three[k]) == crcs[k + 1]
    ensures Register(bytes, n + 3) == crcs[3]
  {
    assert Register(bytes, n + 1) == crcs[1];
    assert Register(bytes, n + 2) == crcs[2];
  }

  lemma FeedOf(crc: bv32, byte: bv8, next: bv32)
    requires Step(Step(Step(Step(Step(Step(Step(Step(Xor(crc, Wide(byte)))))))))) == next
    ensures Feed(crc, byte) == next
  {
    EightSteps(Xor(crc, Wide(byte)));
  }

  lemma FirstDigits(digits: seq<bv8>)
    requires |digits| == 9 && digits[0] == 0x31 && digits[1] == 0x32 && digits[2] == 0x33
    ensures Register(digits, 3) == 0x77b7_9c2d
  {
    FeedOf(0xffff_ffff, 0x31, 0x7c23_1048);
    FeedOf(0x7c23_1048, 0x32, 0xb0ac_bb32);
    FeedOf(0xb0ac_bb32, 0x33, 0x77b7_9c2d);
    ThreeMore(digits, 0, [0xffff_ffff, 0x7c23_1048, 0xb0ac_bb32, 0x77b7_9c2d], [0x31, 0x32, 0x33]);
  }

  lemma MiddleDigits(digits: seq<bv8>)
    requires |digits| == 9 && digits[3] == 0x34 && digits[4] == 0x35 && digits[5] == 0x36
    requires Register(digits, 3) == 0x77b7_9c2d
    ensures Register(digits, 6) == 0xf68d_2c9e
  {
    FeedOf(0x77b7_9c2d, 0x34, 0x641c_1f5c);
    FeedOf(0x641c_1f5c, 0x35, 0x340a_c5e3);
    FeedOf(0x340a_c5e3, 0x36, 0xf68d_2c9e);
    ThreeMore(digits, 3, [0x77b7_9c2d, 0x641c_1f5c, 0x340a_c5e3, 0xf68d_2c9e], [0x34, 0x35, 0x36]);
  }

  lemma LastDigits(digits: seq<bv8>)
    requires |digits| == 9 && digits[6] == 0x37 && digits[7] == 0x38 && digits[8] == 0x39
    requires Register(digits, 6) == 0xf68d_2c9e
    ensures Register(digits, 9) == 0x340b_c6d9
  {
    FeedOf(0xf68d_2c9e, 0x37, 0xaffc_9660);
    FeedOf(0xaffc_9660, 0x38, 0x651f_2550);
    FeedOf(0x651f_2550, 0x39, 0x340b_c6d9);
    ThreeMore(digits, 6, [0xf68d_2c9e, 0xaffc_9660, 0x651f_2550, 0x340b_c6d9], [0x37, 0x38, 0x39]);
  }

  /** The standard's check value: the checksum of the nine digits "123456789". */
  lemma CheckValue(digits: seq<bv8>)
    requires digits == [0x31, 0x32, 0x33, 0x34, 0x35, 0x36, 0x37, 0x38, 0x39]
    ensures Checksum(digits) == 0xCBF4_3926
  {
    FirstDigits(digits);
    MiddleDigits(digits);
    LastDigits(digits);
  }

  /** A zero byte before a message is noticed. */
  lemma LeadingZeroChangesChecksum(bytes: seq<bv8>)
    ensures Checksum([0] + bytes) != Checksum(bytes)
  {
    LaterRegister(bytes, |bytes|);
    StaysDifferent(Register([0] + bytes, |bytes| + 1), Register(bytes, |bytes|));
  }

  lemma StaysDifferent(a: bv32, b: bv32)
    requires a != b
    ensures Xor(a, 0xffff_ffff) != Xor(b, 0xffff_ffff)
  {
  }

  lemma FeedDiffers(a: bv32, b: bv32, byte: bv8)
    requires a != b
    ensures Feed(a, byte) != Feed(b, byte)
  {
    if Feed(a, byte) == Feed(b, byte) {
      FeedIsInjective(a, b, byte);
    }
  }

  lemma {:induction false} LaterRegister(bytes: seq<bv8>, n: nat)
    requires n <= |bytes|
    ensures Register([0] + bytes, n + 1) != Register(bytes, n)
  {
    if n == 0 {
      FeedOf(0xffff_ffff, 0, 0x2dfd_1072);
      assert Register([0] + bytes, 0) == 0xffff_ffff;
    } else {
      LaterRegister(bytes, n - 1);
      FeedDiffers(Register([0] + bytes, n), Register(bytes, n - 1), bytes[n - 1]);
    }
  }
}
