/**
 What the prefixes of a TRUST_PROXY list mean as numbers: an address is a big-endian number, and a range
 is the interval of the numbers that share its leading digits to base 2 (RFC 4632, section 3.1).
 */
module ProxyRanges {
  import opened Common
  import opened TrustedProxies

  /** The address as a number, its first byte the most significant. */
  function Value(bytes: Bytes): nat {
    if bytes == [] then 0 else 0x100 * Value(bytes[..|bytes| - 1]) + bytes[|bytes| - 1] as int
  }

  /** How many addresses share `bits` leading bits. */
  function Size(bytes: Bytes, bits: nat): (size: nat)
    requires bits <= 8 * |bytes|
    ensures size > 0
  {
    Pow2(8 * |bytes| - bits)
  }

  /** `x` lies in the interval of the addresses that begin as `bytes` does. */
  predicate InRange(x: Bytes, bytes: Bytes, bits: nat)
    requires bits <= 8 * |bytes|
  {
    var size := Size(bytes, bits);
    var low := Value(bytes) / size * size;
    low <= Value(x) < low + size
  }

  // ----- leading bits as a number -----

  function Digit(bit: bv8): nat {
    if bit != 0 then 1 else 0
  }

  /** The first `bits` bits, as a number. */
  function Top(bytes: Bytes, bits: nat): nat
    requires bits <= 8 * |bytes|
  {
    if bits == 0 then 0 else 2 * Top(bytes, bits - 1) + Digit(BitAt(bytes, bits - 1))
  }

  lemma MaskValues()
    ensures Mask(0) == 0x80 && Mask(1) == 0x40 && Mask(2) == 0x20 && Mask(3) == 0x10
    ensures Mask(4) == 0x08 && Mask(5) == 0x04 && Mask(6) == 0x02 && Mask(7) == 0x01
  {
    assert Mask(1) == 0x40 && Mask(2) == 0x20 && Mask(3) == 0x10 && Mask(4) == 0x08 && Mask(5) == 0x04 && Mask(6) == 0x02;
  }

  lemma {:induction false} MaskIsOneBit(shift: nat)
    requires shift < 8
    ensures Mask(shift) == 0x80 || Mask(shift) == 0x40 || Mask(shift) == 0x20 || Mask(shift) == 0x10
            || Mask(shift) == 0x08 || Mask(shift) == 0x04 || Mask(shift) == 0x02 || Mask(shift) == 0x01
  {
    MaskValues();
  }

  lemma OneBit(a: bv8, b: bv8, mask: bv8)
    requires mask == 0x80 || mask == 0x40 || mask == 0x20 || mask == 0x10
             || mask == 0x08 || mask == 0x04 || mask == 0x02 || mask == 0x01
    ensures a & mask == b & mask <==> Digit(a & mask) == Digit(b & mask)
  {
  }

  lemma SameBit(a: Bytes, b: Bytes, bit: nat)
    requires bit < 8 * |a| && bit < 8 * |b|
    ensures BitAt(a, bit) == BitAt(b, bit) <==> Digit(BitAt(a, bit)) == Digit(BitAt(b, bit))
  {
    MaskIsOneBit(bit % 8);
    OneBit(a[bit / 8], b[bit / 8], Mask(bit % 8));
  }

  lemma AgreeOnMore(a: Bytes, b: Bytes, bits: nat)
    requires bits < 8 * |a| && bits < 8 * |b|
    ensures Agree(a, b, bits + 1) <==> Agree(a, b, bits) && BitAt(a, bits) == BitAt(b, bits)
  {
  }

  /** Agreeing on leading bits is having the same leading number. */
  lemma {:induction false} AgreeIsSameTop(a: Bytes, b: Bytes, bits: nat)
    requires bits <= 8 * |a| && bits <= 8 * |b|
    ensures Agree(a, b, bits) <==> Top(a, bits) == Top(b, bits)
  {
    if bits > 0 {
      var last: nat := bits - 1;
      AgreeIsSameTop(a, b, last);
      SameBit(a, b, last);
      AgreeOnMore(a, b, last);
    }
  }

  function DigitsOf(byte: bv8): (digits: seq<nat>)
    ensures |digits| == 8
  {
    [Digit(byte & 0x80), Digit(byte & 0x40), Digit(byte & 0x20), Digit(byte & 0x10),
     Digit(byte & 0x08), Digit(byte & 0x04), Digit(byte & 0x02), Digit(byte & 0x01)]
  }

  function Weighed(d: seq<nat>): nat
    requires |d| == 8
  {
    0x80 * d[0] + 0x40 * d[1] + 0x20 * d[2] + 0x10 * d[3] + 8 * d[4] + 4 * d[5] + 2 * d[6] + d[7]
  }

  lemma HighDigits(byte: bv8)
    ensures (byte >> 4) as int
         == 8 * Digit(byte & 0x80) + 4 * Digit(byte & 0x40) + 2 * Digit(byte & 0x20) + Digit(byte & 0x10)
  {
  }

  lemma LowDigits(byte: bv8)
    ensures (byte & 0x0f) as int
         == 8 * Digit(byte & 0x08) + 4 * Digit(byte & 0x04) + 2 * Digit(byte & 0x02) + Digit(byte & 0x01)
  {
  }

  lemma Halves(byte: bv8)
    ensures byte as int == 0x10 * ((byte >> 4) as int) + (byte & 0x0f) as int
  {
  }

  lemma ByteDigits(byte: bv8)
    ensures Weighed(DigitsOf(byte)) == byte as int
  {
    HighDigits(byte);
    LowDigits(byte);
    Halves(byte);
  }

  lemma MaskedDigit(byte: bv8, k: nat)
    requires k < 8
    ensures Digit(byte & Mask(k)) == DigitsOf(byte)[k]
  {
    MaskValues();
  }

  lemma NextTop(bytes: Bytes, m: nat, shift: nat)
    requires m < |bytes| && shift < 8
    ensures Top(bytes, 8 * m + shift + 1) == 2 * Top(bytes, 8 * m + shift) + DigitsOf(bytes[m])[shift]
  {
    assert (8 * m + shift) / 8 == m && (8 * m + shift) % 8 == shift;
    MaskedDigit(bytes[m], shift);
  }

  lemma TopsWeigh(d: seq<nat>, t: seq<int>)
    requires |d| == 8 && |t| == 9
    requires forall k :: 0 <= k < 8 ==> t[k + 1] == 2 * t[k] + d[k]
    ensures t[8] == 0x100 * t[0] + Weighed(d)
  {
    assert t[4] == 0x10 * t[0] + 8 * d[0] + 4 * d[1] + 2 * d[2] + d[3] by {
      assert t[1] == 2 * t[0] + d[0] && t[2] == 2 * t[1] + d[1] && t[3] == 2 * t[2] + d[2];
    }
    assert t[5] == 2 * t[4] + d[4] && t[6] == 2 * t[5] + d[5] && t[7] == 2 * t[6] + d[6];
  }

  /** The numbers of the bits up to and into byte `m`. */
  function Tops(bytes: Bytes, m: nat): (tops: seq<int>)
    requires m < |bytes|
    ensures |tops| == 9 && forall k :: 0 <= k < 9 ==> tops[k] == Top(bytes, 8 * m + k)
  {
    seq(9, k requires 0 <= k < 9 => Top(bytes, 8 * m + k))
  }

  lemma TopOfByte(bytes: Bytes, m: nat)
    requires m < |bytes|
    ensures Top(bytes, 8 * m + 8) == 0x100 * Top(bytes, 8 * m) + bytes[m] as int
  {
    var tops := Tops(bytes, m);
    forall k | 0 <= k < 8 ensures tops[k + 1] == 2 * tops[k] + DigitsOf(bytes[m])[k] {
      NextTop(bytes, m, k);
    }
    TopsWeigh(DigitsOf(bytes[m]), tops);
    ByteDigits(bytes[m]);
    assert tops[8] == Top(bytes, 8 * m + 8) && tops[0] == Top(bytes, 8 * m + 0);
  }

  lemma {:induction false} TopOfPrefix(bytes: Bytes, m: nat, bits: nat)
    requires m <= |bytes| && bits <= 8 * m
    ensures Top(bytes[..m], bits) == Top(bytes, bits)
  {
    if bits > 0 {
      TopOfPrefix(bytes, m, bits - 1);
    }
  }

  lemma {:induction false} TopIsValue(bytes: Bytes)
    ensures Top(bytes, 8 * |bytes|) == Value(bytes)
  {
    if bytes != [] {
      var m: nat := |bytes| - 1;
      TopIsValue(bytes[..m]);
      TopOfPrefix(bytes, m, 8 * m);
      TopOfByte(bytes, m);
    }
  }

  /** The bits that follow count for less than one of the leading number. */
  lemma {:induction false} TopSplits(bytes: Bytes, bits: nat, more: nat) returns (rest: nat)
    requires bits + more <= 8 * |bytes|
    ensures Top(bytes, bits + more) == Top(bytes, bits) * Pow2(more) + rest && rest < Pow2(more)
  {
    if more == 0 {
      rest := 0;
    } else {
      var before := TopSplits(bytes, bits, more - 1);
      rest := 2 * before + Digit(BitAt(bytes, bits + more - 1));
      Doubled(Top(bytes, bits), Pow2(more - 1));
    }
  }

  lemma Doubled(a: nat, b: nat)
    ensures 2 * (a * b) == a * (2 * b)
  {
  }

  lemma Quotient(a: nat, size: nat, rest: nat)
    requires rest < size
    ensures (a * size + rest) / size == a
  {
    var q := (a * size + rest) / size;
    if q < a {
      Below(q, a, size);
    } else if a < q {
      Below(a, q, size);
    }
  }

  lemma {:induction false} Below(q: nat, a: nat, size: nat)
    requires q < a
    ensures q * size + size <= a * size
  {
    if q + 1 < a {
      Below(q, a - 1, size);
    }
  }

  lemma TopIsQuotient(bytes: Bytes, bits: nat)
    requires bits <= 8 * |bytes|
    ensures Top(bytes, bits) == Value(bytes) / Size(bytes, bits)
  {
    TopIsValue(bytes);
    var rest := TopSplits(bytes, bits, 8 * |bytes| - bits);
    Quotient(Top(bytes, bits), Size(bytes, bits), rest);
  }

  // ----- a prefix is an interval -----

  lemma SameQuotient(a: nat, x: nat, size: nat)
    requires size > 0
    ensures a / size == x / size <==> a / size * size <= x < a / size * size + size
  {
    var q := x / size;
    assert x == q * size + x % size;
    if a / size * size <= x < a / size * size + size {
      Quotient(a / size, size, x - a / size * size);
    }
  }

  /** Agreeing on leading bits is having the same quotient, and lying in the interval. */
  lemma AgreeIsInRange(bytes: Bytes, x: Bytes, bits: nat)
    requires |bytes| == |x| && bits <= 8 * |bytes|
    ensures Agree(bytes, x, bits) <==> Value(bytes) / Size(bytes, bits) == Value(x) / Size(x, bits)
    ensures Agree(bytes, x, bits) <==> InRange(x, bytes, bits)
  {
    AgreeIsSameTop(bytes, x, bits);
    TopIsQuotient(bytes, bits);
    TopIsQuotient(x, bits);
    SameQuotient(Value(bytes), Value(x), Size(bytes, bits));
  }

  // ----- the mapped block as an interval -----

  lemma ValueOf(front: Bytes, last: bv8)
    ensures Value(front + [last]) == 0x100 * Value(front) + last as int
  {
    assert (front + [last])[..|front|] == front;
  }

  lemma {:induction false} ValueOfZeroes(n: nat)
    ensures Value(Zeroes(n)) == 0
  {
    if n > 0 {
      ValueOfZeroes(n - 1);
      ValueOf(Zeroes(n - 1), 0);
    }
  }

  lemma ByteMore(e: nat)
    ensures Pow2(e + 8) == 0x100 * Pow2(e)
  {
    assert Pow2(e + 2) == 4 * Pow2(e);
    assert Pow2(e + 4) == 4 * Pow2(e + 2);
    assert Pow2(e + 6) == 4 * Pow2(e + 4);
  }

  lemma TwoToThe32(e: nat)
    requires e == 32
    ensures Pow2(e) == 0x1_0000_0000
  {
    ByteMore(e - 8);
    ByteMore(e - 16);
    ByteMore(e - 24);
    ByteMore(e - 32);
  }

  lemma {:induction false} ValueJoins(front: Bytes, more: Bytes)
    ensures Value(front + more) == Value(front) * Pow2(8 * |more|) + Value(more) && Value(more) < Pow2(8 * |more|)
  {
    if more == [] {
      assert front + more == front;
    } else {
      var init, last := more[..|more| - 1], more[|more| - 1];
      ValueJoins(front, init);
      ValueOf(front + init, last);
      assert front + more == front + init + [last];
      ByteMore(8 * |init|);
      Scaled(Value(front), Pow2(8 * |init|));
    }
  }

  lemma Scaled(a: nat, b: nat)
    ensures 0x100 * (a * b) == a * (0x100 * b)
  {
  }

  /** A mapped peer's number is 0xffff_0000_0000 and the peer's own. */
  lemma MappedValue(peer: Bytes)
    requires |peer| == 4
    ensures Value(Mapped(peer)) == 0xffff_0000_0000 + Value(peer) && Value(peer) < 0x1_0000_0000
  {
    ValueOfZeroes(10);
    ValueOf(Zeroes(10), 0xff);
    ValueOf(Zeroes(10) + [0xff], 0xff);
    var head := Zeroes(10) + [0xff] + [0xff];
    assert Mapped(peer) == head + peer;
    ValueJoins(head, peer);
    TwoToThe32(8 * |peer|);
  }

  lemma MappedBlock()
    ensures Value(MappedPrefix()) == 0xffff_0000_0000
  {
    assert MappedPrefix() == Mapped(Zeroes(4));
    MappedValue(Zeroes(4));
    ValueOfZeroes(4);
  }

  lemma AgreeFlips(a: Bytes, b: Bytes, bits: nat)
    requires bits <= 8 * |a| && bits <= 8 * |b|
    ensures Agree(a, b, bits) <==> Agree(b, a, bits)
  {
  }

  /** Beginning as the mapped block does is lying in its interval. */
  lemma InBlock(bytes: Bytes, bits: nat)
    requires |bytes| == 16 && bits == 96
    ensures Agree(bytes, MappedPrefix(), bits) <==> 0xffff_0000_0000 <= Value(bytes) < 0x1_0000_0000_0000
  {
    AgreeFlips(bytes, MappedPrefix(), bits);
    AgreeIsInRange(MappedPrefix(), bytes, bits);
    MappedBlock();
    TwoToThe32(8 * |bytes| - bits);
    assert 0xffff_0000_0000 / 0x1_0000_0000 * 0x1_0000_0000 == 0xffff_0000_0000;
  }

  // ----- what is refused, in numbers -----

  /** The range of an entry that was read as an IPv6 address. */
  ghost predicate IsV6Range(entry: Entry, bytes: Bytes, width: nat) {
    && entry.address == V6(Some(bytes)) && |bytes| == 16 && width <= 128
    && width == (if entry.prefix.Number? then entry.prefix.value else 128)
  }

  /** An entry is around the mapped block exactly when every mapped IPv4 peer lies in its interval. */
  lemma CoversEveryPeer(entry: Entry, bytes: Bytes, width: nat)
    requires entry.address.Sized() && IsV6Range(entry, bytes, width)
    ensures CoversMapped(entry) <==> forall peer: Bytes :: |peer| == 4 ==> InRange(Mapped(peer), bytes, width)
  {
    var none, every: Bytes := [0, 0, 0, 0], [0xff, 0, 0, 0];
    AgreeIsInRange(bytes, Mapped(none), width);
    AgreeIsInRange(bytes, Mapped(every), width);
    if width > 96 {
      MappedBits(none, 96);
      MappedBits(every, 96);
      assert BitAt(none, 0) != BitAt(every, 0);
    } else {
      forall peer: Bytes | |peer| == 4
        ensures InRange(Mapped(peer), bytes, width) <==> Agree(bytes, MappedPrefix(), width)
      {
        AgreeIsInRange(bytes, Mapped(peer), width);
        forall bit | 0 <= bit < width ensures BitAt(Mapped(peer), bit) == BitAt(MappedPrefix(), bit) {
          MappedBits(peer, bit);
        }
      }
    }
  }

  /** The entry says how wide it is, if it does, with an unsigned number its family allows. */
  predicate Reads(entry: Entry, widest: nat, narrowest: nat) {
    && !entry.extra && !entry.prefix.Malformed?
    && (entry.prefix.Number? ==> narrowest <= entry.prefix.value <= widest)
  }

  /**
   An entry is accepted exactly when it is an IPv4 address with 8 to 32 bits; or an IPv6 one whose interval
   leaves out some mapped peer, with 104 to 128 bits inside the mapped block and 8 to 128 elsewhere; or an
   IPv6 address that was not read, with 8 to 128 bits. Without a prefix it is the one address.
   */
  lemma AcceptedExactly(entry: Entry)
    requires entry.address.Sized()
    ensures Acceptable(entry) <==>
            match entry.address
            case NotAnAddress => false
            case V4(_) => Reads(entry, 32, 8)
            case V6(None) => Reads(entry, 128, 8)
            case V6(Some(bytes)) =>
              var width := if entry.prefix.Number? then entry.prefix.value else 128;
              && Reads(entry, 128, if width > 96 && 0xffff_0000_0000 <= Value(bytes) < 0x1_0000_0000_0000 then 104 else 8)
              && exists peer: Bytes :: |peer| == 4 && !InRange(Mapped(peer), bytes, width)
  {
    if entry.address.V6? && entry.address.read.Some? {
      var bytes, width := entry.address.read.value, if entry.prefix.Number? then entry.prefix.value else 128;
      InBlock(bytes, 96);
      if width <= 128 {
        CoversEveryPeer(entry, bytes, width);
      }
    }
  }

  /** An IPv4 range trusts exactly the peers of its interval; an IPv6 one, those whose mapped form lies in it. */
  lemma TrustsInterval(address: Address, prefix: Option<nat>, peer: Bytes)
    requires address.Sized() && |peer| == 4
    ensures address.V4? && WidthOf(address, prefix) <= 32 ==>
              (Trusts(address, prefix, peer) <==> InRange(peer, address.bytes, WidthOf(address, prefix)))
    ensures address.V6? && address.read.Some? && WidthOf(address, prefix) <= 128 ==>
              (Trusts(address, prefix, peer) <==> InRange(Mapped(peer), address.read.value, WidthOf(address, prefix)))
  {
    if address.V4? && WidthOf(address, prefix) <= 32 {
      AgreeIsInRange(address.bytes, peer, WidthOf(address, prefix));
    }
    if address.V6? && address.read.Some? && WidthOf(address, prefix) <= 128 {
      AgreeIsInRange(address.read.value, Mapped(peer), WidthOf(address, prefix));
    }
  }
}
