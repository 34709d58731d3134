/** Small definitions every part of the model uses. */
module Common {
  type byte = b: nat | b < 0x100

  function Octet(b: byte): (octet: bv8)
    ensures octet as int == b
  {
    if b == 0 then 0 else Octet(b - 1) + 1
  }

  datatype Option<+T> = None | Some(value: T)

  function Min(a: nat, b: nat): nat { if a < b then a else b }

  function Pow2(e: nat): (power: nat)
    ensures power > 0
  {
    if e == 0 then 1 else 2 * Pow2(e - 1)
  }

  /** The first `n` of some sequences, one after another. */
  function Flat<T>(parts: seq<seq<T>>, n: nat): seq<T>
    requires n <= |parts|
  {
    if n == 0 then [] else Flat(parts, n - 1) + parts[n - 1]
  }

  lemma {:induction false} FlatOfLonger<T>(parts: seq<seq<T>>, more: seq<T>, n: nat)
    requires n <= |parts|
    ensures Flat(parts + [more], n) == Flat(parts, n)
  {
    if n > 0 {
      FlatOfLonger(parts, more, n - 1);
    }
  }

  ghost predicate Distinct<T>(s: seq<T>) {
    forall i, j :: 0 <= i < j < |s| ==> s[i] != s[j]
  }

  lemma SubsetSize<T>(a: set<T>, b: set<T>)
    requires a <= b
    ensures |a| <= |b|
    ensures |a| == |b| ==> a == b
  {
    assert b == a + (b - a);
    assert |b| == |a| + |b - a|;
  }
}
