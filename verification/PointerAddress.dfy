/**
 The three numbers at the end of a pointer address (CIP-19): a slot, a transaction index and a
 certificate index, each a minimal base-128 number below 2^64, most significant group first.
 */
module PointerAddress {
  import opened Common

  const POINTER_PREFIX_BYTES: nat := 29
  const MAX_POINTER_UINT_BYTES: nat := 10
  const MAX_UINT: nat := 0x1_0000_0000_0000_0000

  // ----- the encoding -----

  /** The groups of a number that more groups follow. */
  function Continued(n: nat): (groups: seq<byte>)
    requires n > 0
    ensures |groups| > 0
  {
    (if n < 128 then [] else Continued(n / 128)) + [128 + n % 128]
  }

  function Encode(n: nat): (groups: seq<byte>)
    ensures |groups| > 0
  {
    (if n < 128 then [] else Continued(n / 128)) + [n % 128]
  }

  /** The number that the first `k` groups spell. */
  function Value(groups: seq<byte>, k: nat): nat
    requires k <= |groups|
  {
    if k == 0 then 0 else Value(groups, k - 1) * 128 + groups[k - 1] % 128
  }

  function Power(k: nat): nat {
    if k == 0 then 1 else 128 * Power(k - 1)
  }

  /** Groups that say more follow, and do not start with a redundant zero. */
  predicate Continues(groups: seq<byte>) {
    && (forall i :: 0 <= i < |groups| ==> groups[i] >= 128)
    && (groups != [] ==> groups[0] != 128)
  }

  /** What the parser looks for: the shape of one part. */
  predicate IsPart(groups: seq<byte>) {
    && 0 < |groups| <= MAX_POINTER_UINT_BYTES
    && Continues(groups[..|groups| - 1]) && groups[|groups| - 1] < 128
    && (|groups| == MAX_POINTER_UINT_BYTES ==> groups[0] % 128 <= 1)
  }

  // ----- the shape is the encoding -----

  lemma {:induction false} ValuePrefix(a: seq<byte>, b: seq<byte>, k: nat)
    requires k <= |a|
    ensures Value(a + b, k) == Value(a, k)
  {
    if k > 0 {
      ValuePrefix(a, b, k - 1);
    }
  }

  lemma SpelledWithLast(front: seq<byte>, last: byte, n: nat)
    requires Value(front, |front|) == n / 128 && last % 128 == n % 128
    ensures Value(front + [last], |front| + 1) == n && (front + [last])[..|front|] == front
  {
    ValuePrefix(front, [last], |front|);
  }

  lemma {:induction false} ContinuedSpells(n: nat)
    requires n > 0
    ensures Value(Continued(n), |Continued(n)|) == n && Continues(Continued(n))
  {
    if n >= 128 {
      ContinuedSpells(n / 128);
      SpelledWithLast(Continued(n / 128), 128 + n % 128, n);
    }
  }

  /** Reading back an encoded number gives the number. */
  lemma EncodedSpells(n: nat)
    ensures Value(Encode(n), |Encode(n)|) == n
    ensures Continues(Encode(n)[..|Encode(n)| - 1]) && Encode(n)[|Encode(n)| - 1] < 128
  {
    var front: seq<byte> := if n < 128 then [] else Continued(n / 128);
    if n >= 128 {
      ContinuedSpells(n / 128);
    }
    SpelledWithLast(front, n % 128, n);
  }

  lemma {:induction false} ContinuesIsContinued(groups: seq<byte>)
    requires Continues(groups) && groups != []
    ensures Value(groups, |groups|) > 0 && Continued(Value(groups, |groups|)) == groups
  {
    var k := |groups| - 1;
    var front, last := groups[..k], groups[k];
    assert groups == front + [last];
    ValuePrefix(front, [last], k);
    if k == 0 {
      assert Value(groups, 1) == last % 128 == last - 128;
    } else {
      ContinuesIsContinued(front);
      assert Value(groups, k + 1) / 128 == Value(front, k) && Value(groups, k + 1) % 128 == last - 128;
    }
  }

  /** Encoding what an accepted part spells gives the same bytes back. */
  lemma PartIsEncoded(groups: seq<byte>, n: nat)
    requires groups != [] && Continues(groups[..|groups| - 1]) && groups[|groups| - 1] < 128
    requires n == Value(groups, |groups|)
    ensures Encode(n) == groups
  {
    var k := |groups| - 1;
    var front, last := groups[..k], groups[k];
    assert groups == front + [last];
    ValuePrefix(front, [last], k);
    LastGroup(Value(front, k), last, n);
    if front != [] {
      ContinuesIsContinued(front);
    }
    EncodedAs(n, front, last);
  }

  lemma LastGroup(v: nat, last: byte, n: nat)
    requires n == v * 128 + last % 128 && last < 128
    ensures n / 128 == v && n % 128 == last
  {
  }

  lemma EncodedAs(n: nat, front: seq<byte>, last: byte)
    requires last == n % 128 && (if n / 128 == 0 then front == [] else front == Continued(n / 128))
    ensures Encode(n) == front + [last]
  {
  }

  /** The first group's place decides how large the number can be. */
  lemma {:induction false} FirstGroupBounds(groups: seq<byte>, k: nat)
    requires 0 < k <= |groups|
    ensures groups[0] % 128 * Power(k - 1) <= Value(groups, k) < (groups[0] % 128 + 1) * Power(k - 1)
  {
    if k == 1 {
      assert Power(0) == 1 && Value(groups, 0) == 0;
    } else {
      FirstGroupBounds(groups, k - 1);
      Scale(groups[0] % 128, Power(k - 2));
      Scale(groups[0] % 128 + 1, Power(k - 2));
    }
  }

  lemma Scale(a: nat, p: nat)
    ensures a * (128 * p) == 128 * (a * p)
  {
  }

  lemma {:induction false} PowerGrows(a: nat, b: nat)
    requires a <= b
    ensures 0 < Power(a) <= Power(b)
  {
    if a < b {
      PowerGrows(a, b - 1);
    } else if a > 0 {
      PowerGrows(a - 1, a - 1);
    }
  }

  lemma NinePowers()
    ensures 2 * Power(9) == MAX_UINT && Power(10) == 128 * Power(9)
  {
    assert Power(3) == 0x20_0000;
    assert Power(6) == 0x400_0000_0000;
  }

  /** The length rule is the range: ten groups, the first of them at most one, are the numbers below 2^64. */
  lemma RangeIsLength(groups: seq<byte>)
    requires groups != [] && Continues(groups[..|groups| - 1]) && groups[|groups| - 1] < 128
    ensures Value(groups, |groups|) < MAX_UINT <==> IsPart(groups)
  {
    var n, first := |groups|, groups[0] % 128;
    FirstGroupBounds(groups, n);
    NinePowers();
    if n > 1 {
      assert groups[..n - 1][0] == groups[0];
      assert first >= 1;
      Products(first, Power(n - 1));
    }
    if n > 10 {
      PowerGrows(10, n - 1);
    } else if n < 10 {
      PowerGrows(n, 9);
      Widest(first, n);
    }
  }

  lemma Products(first: nat, p: nat)
    requires first >= 1
    ensures first * p >= p && (first >= 2 ==> first * p >= 2 * p) && (first <= 1 ==> (first + 1) * p <= 2 * p)
  {
  }

  lemma Widest(first: nat, n: nat)
    requires first < 128 && n > 0
    ensures (first + 1) * Power(n - 1) <= Power(n)
  {
    TimesAtMost(first + 1, 128, Power(n - 1));
  }

  lemma TimesAtMost(a: nat, b: nat, p: nat)
    requires a <= b
    ensures a * p <= b * p
  {
  }

  /** A part is exactly the minimal encoding of a number below 2^64. */
  lemma PartsAreNumbers(groups: seq<byte>)
    ensures IsPart(groups) <==> exists n: nat :: n < MAX_UINT && groups == Encode(n)
  {
    if IsPart(groups) {
      RangeIsLength(groups);
      PartIsEncoded(groups, Value(groups, |groups|));
    }
    if n: nat :| n < MAX_UINT && groups == Encode(n) {
      EncodedSpells(n);
      RangeIsLength(groups);
    }
  }

  /** No two numbers share an encoding. */
  lemma EncodeIsInjective(a: nat, b: nat)
    requires Encode(a) == Encode(b)
    ensures a == b
  {
    EncodedSpells(a);
    EncodedSpells(b);
  }

  // ----- the parser -----

  predicate PartAt(bytes: seq<byte>, offset: nat, end: nat) {
    offset <= end <= |bytes| && IsPart(bytes[offset..end])
  }

  /** What a part's bytes are, one by one. */
  lemma PartBytes(bytes: seq<byte>, offset: nat, end: nat)
    requires offset <= end <= |bytes|
    ensures PartAt(bytes, offset, end) <==>
              && offset < end && end - offset <= MAX_POINTER_UINT_BYTES && bytes[end - 1] < 128
              && (forall i :: offset <= i < end - 1 ==> bytes[i] >= 128)
              && (end - offset > 1 ==> bytes[offset] != 128)
              && (end - offset == MAX_POINTER_UINT_BYTES ==> bytes[offset] % 128 <= 1)
  {
    var part := bytes[offset..end];
    assert forall i :: offset <= i < end ==> bytes[i] == part[i - offset];
    if offset < end {
      var front := part[..|part| - 1];
      assert forall i :: 0 <= i < |front| ==> front[i] == bytes[offset + i];
      assert forall i :: offset <= i < end - 1 ==> bytes[i] == front[i - offset];
    }
  }

  /** One loop from `offset`: the end of the part there, exactly when there is one. */
  method NextPointerPart(bytes: seq<byte>, offset: nat) returns (next: Option<nat>)
    ensures next.Some? ==> PartAt(bytes, offset, next.value)
    ensures next.None? ==> forall end :: !PartAt(bytes, offset, end)
  {
    var index := offset;
    while index < |bytes|
      invariant offset <= index && (index > offset ==> index <= |bytes|)
      invariant index - offset <= MAX_POINTER_UINT_BYTES
      invariant forall i :: offset <= i < index ==> bytes[i] >= 128
      invariant index > offset ==> bytes[offset] != 128
      invariant index - offset == MAX_POINTER_UINT_BYTES ==> bytes[offset] % 128 <= 1
    {
      var b, length := bytes[index], index - offset + 1;
      if length > MAX_POINTER_UINT_BYTES
         || (length == 1 && b >= 128 && b % 128 == 0)
         || (length == MAX_POINTER_UINT_BYTES && bytes[offset] % 128 > 1)
      {
        NoPart(bytes, offset, index);
        return None;
      }
      if b < 128 {
        PartBytes(bytes, offset, index + 1);
        return Some(index + 1);
      }
      index := index + 1;
    }
    forall end | PartAt(bytes, offset, end) ensures false {
      PartBytes(bytes, offset, end);
    }
    next := None;
  }

  /** Once a rule is broken, no end further on makes a part, and the bytes before it ended none. */
  lemma NoPart(bytes: seq<byte>, offset: nat, index: nat)
    requires offset <= index < |bytes| && forall i :: offset <= i < index ==> bytes[i] >= 128
    requires var length := index - offset + 1;
             || length > MAX_POINTER_UINT_BYTES
             || (length == 1 && bytes[index] == 128)
             || (length == MAX_POINTER_UINT_BYTES && bytes[offset] % 128 > 1)
    ensures forall end :: !PartAt(bytes, offset, end)
  {
    forall end: nat | PartAt(bytes, offset, end) ensures false {
      PartBytes(bytes, offset, end);
    }
  }

  /** At most one part starts anywhere. */
  lemma PartEndsOnce(bytes: seq<byte>, offset: nat, a: nat, b: nat)
    requires PartAt(bytes, offset, a) && PartAt(bytes, offset, b)
    ensures a == b
  {
    PartBytes(bytes, offset, a);
    PartBytes(bytes, offset, b);
  }

  /** Three parts and nothing else after the credential. */
  ghost predicate ThreeParts(bytes: seq<byte>, a: nat, b: nat) {
    PartAt(bytes, POINTER_PREFIX_BYTES, a) && PartAt(bytes, a, b) && PartAt(bytes, b, |bytes|)
  }

  ghost predicate IsPointer(bytes: seq<byte>, slot: nat, tx: nat, cert: nat) {
    && slot < 0x1_0000_0000_0000_0000 && tx < 0x1_0000_0000_0000_0000 && cert < 0x1_0000_0000_0000_0000 && |bytes| >= 29
    && bytes[29..] == Encode(slot) + Encode(tx) + Encode(cert)
  }

  lemma PointerHasParts(bytes: seq<byte>, slot: nat, tx: nat, cert: nat) returns (a: nat, b: nat)
    requires IsPointer(bytes, slot, tx, cert)
    ensures ThreeParts(bytes, a, b)
  {
    EncodedIsPart(slot);
    EncodedIsPart(tx);
    EncodedIsPart(cert);
    a, b := PartsInOrder(bytes, Encode(slot), Encode(tx), Encode(cert));
  }

  lemma EncodedIsPart(n: nat)
    requires n < MAX_UINT
    ensures IsPart(Encode(n))
  {
    PartsAreNumbers(Encode(n));
  }

  lemma PartsInOrder(bytes: seq<byte>, x: seq<byte>, y: seq<byte>, z: seq<byte>) returns (a: nat, b: nat)
    requires |bytes| >= POINTER_PREFIX_BYTES && bytes[POINTER_PREFIX_BYTES..] == x + y + z
    requires IsPart(x) && IsPart(y) && IsPart(z)
    ensures ThreeParts(bytes, a, b)
  {
    Slices(bytes, POINTER_PREFIX_BYTES, x, y, z);
    a, b := POINTER_PREFIX_BYTES + |x|, POINTER_PREFIX_BYTES + |x| + |y|;
  }

  lemma Slices(bytes: seq<byte>, offset: nat, x: seq<byte>, y: seq<byte>, z: seq<byte>)
    requires offset <= |bytes| && bytes[offset..] == x + y + z
    ensures var a, b := offset + |x|, offset + |x| + |y|;
            b + |z| == |bytes| && bytes[offset..a] == x && bytes[a..b] == y && bytes[b..|bytes|] == z
  {
    var rest, a, b := x + y + z, offset + |x|, offset + |x| + |y|;
    assert bytes[offset..a] == rest[..|x|] && bytes[a..b] == rest[|x|..|x| + |y|] && bytes[b..] == rest[|x| + |y|..];
  }

  lemma PartIsNumber(bytes: seq<byte>, offset: nat, end: nat) returns (n: nat)
    requires PartAt(bytes, offset, end)
    ensures n < MAX_UINT && bytes[offset..end] == Encode(n)
  {
    PartsAreNumbers(bytes[offset..end]);
    n :| n < MAX_UINT && bytes[offset..end] == Encode(n);
  }

  lemma Together(bytes: seq<byte>, offset: nat, a: nat, b: nat)
    requires offset <= a <= b <= |bytes|
    ensures bytes[offset..] == bytes[offset..a] + bytes[a..b] + bytes[b..|bytes|]
  {
  }

  lemma PartsMakePointer(bytes: seq<byte>, a: nat, b: nat) returns (slot: nat, tx: nat, cert: nat)
    requires ThreeParts(bytes, a, b)
    ensures IsPointer(bytes, slot, tx, cert)
  {
    slot := PartIsNumber(bytes, POINTER_PREFIX_BYTES, a);
    tx := PartIsNumber(bytes, a, b);
    cert := PartIsNumber(bytes, b, |bytes|);
    Together(bytes, POINTER_PREFIX_BYTES, a, b);
  }

  lemma PointersAreParts(bytes: seq<byte>)
    ensures (exists a, b :: ThreeParts(bytes, a, b)) <==> exists slot, tx, cert :: IsPointer(bytes, slot, tx, cert)
  {
    if a: nat, b: nat :| ThreeParts(bytes, a, b) {
      var slot, tx, cert := PartsMakePointer(bytes, a, b);
    }
    if slot: nat, tx: nat, cert: nat :| IsPointer(bytes, slot, tx, cert) {
      var a, b := PointerHasParts(bytes, slot, tx, cert);
    }
  }

  /** Accepts exactly the encodings of three numbers below 2^64 after the credential. */
  method HasPointerPayload(bytes: seq<byte>) returns (ok: bool)
    ensures ok <==> exists slot, tx, cert :: IsPointer(bytes, slot, tx, cert)
  {
    PointersAreParts(bytes);
    var offset := POINTER_PREFIX_BYTES;
    ghost var ends: seq<nat> := [];
    for part := 0 to 3
      invariant |ends| == part && offset == if part == 0 then POINTER_PREFIX_BYTES else ends[part - 1]
      invariant part > 0 ==> PartAt(bytes, POINTER_PREFIX_BYTES, ends[0])
      invariant part > 1 ==> PartAt(bytes, ends[0], ends[1])
      invariant part > 2 ==> PartAt(bytes, ends[1], ends[2])
      invariant forall a, b :: ThreeParts(bytes, a, b) ==>
                  (part > 0 ==> a == ends[0]) && (part > 1 ==> b == ends[1]) && (part > 2 ==> ends[2] == |bytes|)
    {
      var next := NextPointerPart(bytes, offset);
      if next.None? {
        return false;
      }
      forall a: nat, b: nat | ThreeParts(bytes, a, b)
        ensures next.value == if part == 0 then a else if part == 1 then b else |bytes|
      {
        PartEndsOnce(bytes, offset, next.value, if part == 0 then a else if part == 1 then b else |bytes|);
      }
      ends, offset := ends + [next.value], next.value;
    }
    ok := offset == |bytes|;
    assert ok ==> ThreeParts(bytes, ends[0], ends[1]);
  }

  /** The pointer in the test vectors of CIP 19: slot 2498243, transaction 27, certificate 3. */
  lemma KnownPointer()
    ensures Encode(2498243) + Encode(27) + Encode(3) == [0x81, 0x98, 0xbd, 0x43, 0x1b, 0x03]
  {
    assert Continued(1) == [0x81];
    assert Continued(152) == [0x81, 0x98];
    assert Continued(19517) == [0x81, 0x98, 0xbd];
  }
}
