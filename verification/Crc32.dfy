/**
 The CRC-32/ISO-HDLC checksum of a Byron address payload, and the damage it is certain to notice.
 */
module Crc32 {
  // ----- words -----

  function Xor(a: bv32, b: bv32): bv32 {
    a ^ b
  }

  function Half(crc: bv32): bv32 {
    crc >> 1
  }

  function Wide(byte: bv8): bv32 {
    byte as bv32
  }

  /** The polynomial, when the bit shifted out was set. */
  function Pick(crc: bv32): bv32 {
    if crc & 1 == 1 then 0xedb88320 else 0
  }

  lemma Regroup(a: bv32, b: bv32, c: bv32, d: bv32)
    ensures Xor(Xor(a, b), Xor(c, d)) == Xor(Xor(a, c), Xor(b, d))
  {
    Reassociate(a, b, Xor(c, d));
    Reassociate(b, c, d);
    Commute(b, c);
    Reassociate(c, b, d);
    Reassociate(a, c, Xor(b, d));
  }

  lemma Reassociate(a: bv32, b: bv32, c: bv32)
    ensures Xor(Xor(a, b), c) == Xor(a, Xor(b, c))
  {
  }

  lemma Commute(a: bv32, b: bv32)
    ensures Xor(a, b) == Xor(b, a)
  {
  }

  lemma XorWithItself(a: bv32)
    ensures Xor(a, a) == 0
  {
  }

  lemma XorCancels(a: bv32, b: bv32, c: bv32)
    requires Xor(a, c) == Xor(b, c)
    ensures a == b
  {
  }

  // ----- one bit -----

  function Step(crc: bv32): bv32 {
    Xor(Half(crc), Pick(crc))
  }

  function Unstep(next: bv32): bv32 {
    if next & 0x8000_0000 != 0 then ((next ^ 0xedb88320) << 1) | 1 else next << 1
  }

  /** The step loses nothing: what was in the register can be told from what it becomes. */
  lemma StepIsOneToOne(crc: bv32)
    ensures Unstep(Step(crc)) == crc
  {
  }

  /** And every register is reached by one step, so the step is a bijection. */
  lemma StepIsOnto(crc: bv32)
    ensures Step(Unstep(crc)) == crc
  {
    if crc & 0x8000_0000 != 0 {
      HighBit(crc);
    } else {
      NoHighBit(crc);
    }
  }

  lemma HighBit(s: bv32)
    requires s & 0x8000_0000 != 0
    ensures (((s ^ 0xedb88320) << 1) | 1) & 1 == 1 && ((((s ^ 0xedb88320) << 1) | 1) >> 1) ^ 0xedb88320 == s
  {
  }

  lemma NoHighBit(s: bv32)
    requires s & 0x8000_0000 == 0
    ensures (s << 1) & 1 == 0 && ((s << 1) >> 1) ^ 0 == s
  {
  }

  lemma HalfIsLinear(a: bv32, b: bv32)
    ensures Half(Xor(a, b)) == Xor(Half(a), Half(b))
  {
  }

  lemma PickIsLinear(a: bv32, b: bv32)
    ensures Pick(Xor(a, b)) == Xor(Pick(a), Pick(b))
  {
  }

  /** The step is linear over exclusive or. */
  lemma StepIsLinear(a: bv32, b: bv32)
    ensures Step(Xor(a, b)) == Xor(Step(a), Step(b))
  {
    HalfIsLinear(a, b);
    PickIsLinear(a, b);
    Regroup(Half(a), Half(b), Pick(a), Pick(b));
  }

  // ----- several bits -----

  function Steps(crc: bv32, n: nat): bv32 {
    if n == 0 then crc else Step(Steps(crc, n - 1))
  }

  lemma {:induction false} StepsAreLinear(a: bv32, b: bv32, n: nat)
    ensures Steps(Xor(a, b), n) == Xor(Steps(a, n), Steps(b, n))
  {
    if n > 0 {
      StepsAreLinear(a, b, n - 1);
      StepIsLinear(Steps(a, n - 1), Steps(b, n - 1));
    }
  }

  lemma {:induction false} StepsAreInjective(a: bv32, b: bv32, n: nat)
    requires Steps(a, n) == Steps(b, n)
    ensures a == b
  {
    if n > 0 {
      StepIsOneToOne(Steps(a, n - 1));
      StepIsOneToOne(Steps(b, n - 1));
      StepsAreInjective(a, b, n - 1);
    }
  }

  lemma {:induction false} StepsCompose(crc: bv32, m: nat, n: nat)
    ensures Steps(Steps(crc, m), n) == Steps(crc, m + n)
  {
    if n > 0 {
      StepsCompose(crc, m, n - 1);
    }
  }

  lemma {:induction false} StepsOfZero(n: nat)
    ensures Steps(0, n) == 0
  {
    if n > 0 {
      StepsOfZero(n - 1);
    }
  }

  // ----- bytes -----

  function Feed(crc: bv32, byte: bv8): bv32 {
    Steps(Xor(crc, Wide(byte)), 8)
  }

  /** The register after the first `n` bytes. */
  function Register(bytes: seq<bv8>, n: nat): bv32
    requires n <= |bytes|
  {
    if n == 0 then 0xffff_ffff else Feed(Register(bytes, n - 1), bytes[n - 1])
  }

  function Checksum(bytes: seq<bv8>): bv32 {
    Xor(Register(bytes, |bytes|), 0xffff_ffff)
  }

  /** Negating the low bit gives no bits or all of them, so masking is picking. */
  lemma MaskPicks(crc: bv32, mask: bv32)
    requires mask == 0 - (crc & 1)
    ensures (crc >> 1) ^ (0xedb88320 & mask) == Step(crc)
  {
    LowBit(crc);
  }

  lemma LowBit(crc: bv32)
    ensures crc & 1 == 0 || crc & 1 == 1
  {
  }

  /** Eight bits, without a branch. */
  method StepByte(start: bv32) returns (crc: bv32)
    ensures crc == Steps(start, 8)
  {
    crc := start;
    for bit := 0 to 8
      invariant crc == Steps(start, bit)
    {
      var mask := 0 - (crc & 1);
      MaskPicks(crc, mask);
      crc := (crc >> 1) ^ (0xedb88320 & mask);
    }
  }

  /** The checksum, bit by bit as the source computes it. */
  method Crc32(bytes: seq<bv8>) returns (checksum: bv32)
    ensures checksum == Checksum(bytes)
  {
    var crc: bv32 := 0xffff_ffff;
    for i := 0 to |bytes|
      invariant crc == Register(bytes, i)
    {
      crc := StepByte(Xor(crc, Wide(bytes[i])));
    }
    checksum := Xor(crc, 0xffff_ffff);
  }

  // ----- what a change does to the register -----

  ghost function Difference(x: seq<bv8>, y: seq<bv8>, n: nat): bv32
    requires n <= |x| && n <= |y|
  {
    Xor(Register(x, n), Register(y, n))
  }

  lemma {:induction false} SameBytesSameRegister(x: seq<bv8>, y: seq<bv8>, n: nat)
    requires n <= |x| && n <= |y| && forall i :: 0 <= i < n ==> x[i] == y[i]
    ensures Register(x, n) == Register(y, n)
  {
    if n > 0 {
      SameBytesSameRegister(x, y, n - 1);
    }
  }

  lemma FeedIsInjective(a: bv32, b: bv32, byte: bv8)
    requires Feed(a, byte) == Feed(b, byte)
    ensures a == b
  {
    StepsAreInjective(Xor(a, Wide(byte)), Xor(b, Wide(byte)), 8);
    XorCancels(a, b, Wide(byte));
  }

  /** Equal bytes cannot make a difference go away. */
  lemma {:induction false} DifferenceStays(x: seq<bv8>, y: seq<bv8>, m: nat, n: nat)
    requires m <= n <= |x| == |y| && Register(x, n) == Register(y, n)
    requires forall i :: m <= i < n ==> x[i] == y[i]
    ensures Register(x, m) == Register(y, m)
  {
    if m < n {
      FeedIsInjective(Register(x, n - 1), Register(y, n - 1), x[n - 1]);
      DifferenceStays(x, y, m, n - 1);
    }
  }

  // ----- four bytes fill the register -----

  /** A byte's worth of bits at byte `k` of the register. */
  function Place(low: bv32, k: nat): bv32
    requires k < 4
  {
    if k == 0 then low else if k == 1 then low << 8 else if k == 2 then low << 16 else low << 24
  }

  /** A word moved down one byte. */
  function Down(crc: bv32): bv32 {
    crc >> 8
  }

  predicate IsLow(low: bv32) {
    low & 0xffff_ff00 == 0
  }

  lemma PlaceMoves(low: bv32, k: nat)
    requires IsLow(low) && 0 < k < 4
    ensures Place(low, k) & 0xff == 0 && Down(Place(low, k)) == Place(low, k - 1)
  {
  }

  function Halves(crc: bv32, n: nat): bv32 {
    if n == 0 then crc else Half(Halves(crc, n - 1))
  }

  lemma LowBitsClear(crc: bv32)
    requires crc & 0xff == 0
    ensures forall n :: 0 <= n < 8 ==> Halves(crc, n) & 1 == 0
    ensures Halves(crc, 8) == Down(crc)
  {
    assert Halves(crc, 1) == crc >> 1;
    assert Halves(crc, 2) == crc >> 2;
    assert Halves(crc, 3) == crc >> 3;
    assert Halves(crc, 4) == crc >> 4;
    assert Halves(crc, 5) == crc >> 5;
    assert Halves(crc, 6) == crc >> 6;
    assert Halves(crc, 7) == crc >> 7;
  }

  lemma EvenStep(crc: bv32)
    requires crc & 1 == 0
    ensures Step(crc) == Half(crc)
  {
  }

  lemma {:induction false} EvenSteps(crc: bv32, n: nat)
    requires forall j :: 0 <= j < n ==> Halves(crc, j) & 1 == 0
    ensures Steps(crc, n) == Halves(crc, n)
  {
    if n > 0 {
      EvenSteps(crc, n - 1);
      EvenStep(Halves(crc, n - 1));
    }
  }

  lemma ByteComesDown(crc: bv32)
    requires crc & 0xff == 0
    ensures Steps(crc, 8) == Down(crc)
  {
    LowBitsClear(crc);
    EvenSteps(crc, 8);
  }

  /** Stepping through the bytes below brings a placed byte down to the lowest. */
  lemma {:induction false} PlacedComesDown(low: bv32, k: nat)
    requires IsLow(low) && k < 4
    ensures Steps(Place(low, k), 8 * k) == low
  {
    if k > 0 {
      PlaceMoves(low, k);
      ByteComesDown(Place(low, k));
      PlacedComesDown(low, k - 1);
      StepsCompose(Place(low, k), 8, 8 * (k - 1));
    }
  }

  /** Mixing a byte in after `k` bytes of steps is mixing it in `k` places up before them. */
  lemma MixedEarlier(before: bv32, low: bv32, k: nat, mixed: bv32, after: bv32)
    requires IsLow(low) && k < 4 && mixed == Xor(before, Place(low, k))
    requires after == Steps(Xor(Steps(before, 8 * k), low), 8)
    ensures after == Steps(mixed, 8 * k + 8)
  {
    PlacedComesDown(low, k);
    StepsAreLinear(before, Place(low, k), 8 * k);
    StepsCompose(mixed, 8 * k, 8);
  }

  /** What the bytes at `i` differ by. */
  function Change(x: seq<bv8>, y: seq<bv8>, i: nat): bv32
    requires i < |x| && i < |y|
  {
    Xor(Wide(x[i]), Wide(y[i]))
  }

  lemma ChangeIsLow(a: bv8, b: bv8)
    ensures IsLow(Xor(Wide(a), Wide(b))) && (Xor(Wide(a), Wide(b)) == 0 ==> a == b)
  {
  }

  /** The changes of up to four bytes from `q` on, side by side. */
  function Spread(x: seq<bv8>, y: seq<bv8>, q: nat, m: nat): bv32
    requires m <= 4 && q + m <= |x| == |y|
  {
    if m == 0 then 0 else Xor(Spread(x, y, q, m - 1), Place(Change(x, y, q + m - 1), m - 1))
  }

  lemma {:induction false} SpreadKeepsFirst(x: seq<bv8>, y: seq<bv8>, q: nat, m: nat)
    requires 0 < m <= 4 && q + m <= |x| == |y|
    ensures Spread(x, y, q, m) & 0xff == Change(x, y, q)
  {
    ChangeIsLow(x[q + m - 1], y[q + m - 1]);
    if m == 1 {
      FirstPlace(Change(x, y, q));
      assert Spread(x, y, q, 0) == 0;
    } else {
      SpreadKeepsFirst(x, y, q, m - 1);
      PlaceMoves(Change(x, y, q + m - 1), m - 1);
      HigherPlace(Spread(x, y, q, m - 1), Place(Change(x, y, q + m - 1), m - 1));
    }
  }

  lemma FirstPlace(low: bv32)
    requires IsLow(low)
    ensures Xor(0, low) & 0xff == low
  {
  }

  lemma HigherPlace(crc: bv32, high: bv32)
    requires high & 0xff == 0
    ensures Xor(crc, high) & 0xff == crc & 0xff
  {
  }

  /** After up to four changed bytes the difference is their changes side by side, stepped together. */
  lemma {:induction false} DifferenceIsSpread(x: seq<bv8>, y: seq<bv8>, q: nat, m: nat)
    requires m <= 4 && q + m <= |x| == |y| && Register(x, q) == Register(y, q)
    ensures Difference(x, y, q + m) == Steps(Spread(x, y, q, m), 8 * m)
  {
    if m == 0 {
      XorWithItself(Register(x, q));
    } else {
      var k := m - 1;
      DifferenceIsSpread(x, y, q, k);
      var a, b := Register(x, q + k), Register(y, q + k);
      StepsAreLinear(Xor(a, Wide(x[q + k])), Xor(b, Wide(y[q + k])), 8);
      Regroup(a, Wide(x[q + k]), b, Wide(y[q + k]));
      ChangeIsLow(x[q + k], y[q + k]);
      MixedEarlier(Spread(x, y, q, k), Change(x, y, q + k), k, Spread(x, y, q, m), Difference(x, y, q + m));
    }
  }

  /** A changed byte leaves the register changed for as long as only three more bytes follow it. */
  lemma ChangeLasts(x: seq<bv8>, y: seq<bv8>, q: nat, m: nat)
    requires 0 < m <= 4 && q + m <= |x| == |y| && Register(x, q) == Register(y, q) && x[q] != y[q]
    ensures Register(x, q + m) != Register(y, q + m)
  {
    DifferenceIsSpread(x, y, q, m);
    if Register(x, q + m) == Register(y, q + m) {
      XorWithItself(Register(x, q + m));
      StepsOfZero(8 * m);
      StepsAreInjective(Spread(x, y, q, m), 0, 8 * m);
      SpreadKeepsFirst(x, y, q, m);
      ChangeIsLow(x[q], y[q]);
    }
  }

  /**
   Two different payloads of one length that differ only within four consecutive bytes never share
   a checksum.
   */
  lemma WindowChangesChecksum(x: seq<bv8>, y: seq<bv8>, p: nat)
    requires |x| == |y| && x != y
    requires forall i :: 0 <= i < |x| && x[i] != y[i] ==> p <= i < p + 4
    ensures Checksum(x) != Checksum(y)
  {
    var q := FirstChange(x, y);
    var m := if p + 4 <= |x| then p + 4 - q else |x| - q;
    SameBytesSameRegister(x, y, q);
    ChangeLasts(x, y, q, m);
    if Checksum(x) == Checksum(y) {
      XorCancels(Register(x, |x|), Register(y, |y|), 0xffff_ffff);
      DifferenceStays(x, y, q + m, |x|);
    }
  }

  lemma FirstChange(x: seq<bv8>, y: seq<bv8>) returns (q: nat)
    requires |x| == |y| && x != y
    ensures q < |x| && x[q] != y[q] && forall i :: 0 <= i < q ==> x[i] == y[i]
  {
    q := 0;
    while q < |x| && x[q] == y[q]
      invariant q <= |x| && forall i :: 0 <= i < q ==> x[i] == y[i]
    {
      q := q + 1;
    }
  }
}
