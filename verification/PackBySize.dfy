/**
 Packing request items, in order, into bodies within a byte budget. The serialized lengths of the
 items and of the empty body are given; a list's length adds one comma between each pair.
 */
module PackBySize {
  import opened Common

  const BODY_SAFETY_MARGIN_BYTES: nat := 128

  /** Bytes of the items from `a` up to `b`. */
  function Between<T>(items: seq<T>, size: T -> nat, a: nat, b: nat): nat
    requires b <= |items|
  {
    if a >= b then 0 else Between(items, size, a, b - 1) + size(items[b - 1])
  }

  /** Bytes of a body carrying the items from `a` up to `b`. */
  function RangeBytes<T>(items: seq<T>, size: T -> nat, envelope: nat, a: nat, b: nat): nat
    requires b <= |items|
  {
    envelope + Between(items, size, a, b) + if a + 1 < b then b - a - 1 else 0
  }

  function BodyBytes<T>(chunk: seq<T>, size: T -> nat, envelope: nat): nat {
    RangeBytes(chunk, size, envelope, 0, |chunk|)
  }

  /** The texts of the first `n` items, with a comma between each pair. */
  function Listed<T>(chunk: seq<T>, text: T -> string, n: nat): string
    requires n <= |chunk|
  {
    if n == 0 then "" else Listed(chunk, text, n - 1) + (if n == 1 then "" else ",") + text(chunk[n - 1])
  }

  /** Indeed those are the bytes of the body: what surrounds the list, and the items with their commas. */
  lemma {:induction false} BodyIsSerialized<T>(chunk: seq<T>, text: T -> string, head: string, tail: string)
    ensures BodyBytes(chunk, x => |text(x)|, |head| + |tail|) == |head + Listed(chunk, text, |chunk|) + tail|
  {
    ListedBytes(chunk, text, |chunk|);
  }

  lemma {:induction false} ListedBytes<T>(chunk: seq<T>, text: T -> string, n: nat)
    requires n <= |chunk|
    ensures |Listed(chunk, text, n)| == Between(chunk, x => |text(x)|, 0, n) + if n > 1 then n - 1 else 0
  {
    if n > 0 {
      ListedBytes(chunk, text, n - 1);
    }
  }

  /** The chunks carry the items in order, each in a body within the limit. */
  ghost predicate Carries<T>(chunks: seq<seq<T>>, items: seq<T>, size: T -> nat, envelope: nat, limit: int) {
    && Flat(chunks, |chunks|) == items
    && forall k :: 0 <= k < |chunks| ==> BodyBytes(chunks[k], size, envelope) <= limit
  }

  lemma {:induction false} BetweenOfSlice<T>(items: seq<T>, size: T -> nat, a: nat, b: nat, n: nat)
    requires a <= b <= |items| && n <= b - a
    ensures Between(items[a..b], size, 0, n) == Between(items, size, a, a + n)
  {
    if n > 0 {
      BetweenOfSlice(items, size, a, b, n - 1);
    }
  }

  lemma {:induction false} BetweenGrows<T>(items: seq<T>, size: T -> nat, a: nat, b: nat, c: nat, d: nat)
    requires a <= b <= c <= d <= |items|
    ensures Between(items, size, b, c) <= Between(items, size, a, d)
    decreases d - c, c - b
  {
    if c < d {
      BetweenGrows(items, size, a, b, c, d - 1);
    } else if b < c {
      BetweenGrows(items, size, a, b, c - 1, d - 1);
    }
  }

  // ----- chunks as ranges of the items -----

  lemma {:induction false} FlatIsPrefix<T>(chunks: seq<seq<T>>, m: nat, n: nat)
    requires m <= n <= |chunks|
    ensures Flat(chunks, m) <= Flat(chunks, n)
  {
    if m < n {
      FlatIsPrefix(chunks, m, n - 1);
    }
  }

  lemma SuffixOfPrefix<T>(head: seq<T>, tail: seq<T>, items: seq<T>, i: nat)
    requires i <= |items| && head + tail == items[..i]
    ensures |head| <= i && tail == items[|head|..i] && head + tail <= items
  {
    assert tail == (head + tail)[|head|..];
  }

  lemma RangeBody<T>(items: seq<T>, size: T -> nat, envelope: nat, a: nat, b: nat)
    requires a <= b <= |items|
    ensures BodyBytes(items[a..b], size, envelope) == RangeBytes(items, size, envelope, a, b)
  {
    BetweenOfSlice(items, size, a, b, b - a);
  }

  /** Where chunk `k` sits among the items, and what its body weighs there. */
  lemma ChunkRange<T>(chunks: seq<seq<T>>, items: seq<T>, size: T -> nat, envelope: nat, k: nat)
    requires Flat(chunks, |chunks|) == items && k < |chunks|
    ensures var a, b := |Flat(chunks, k)|, |Flat(chunks, k + 1)|;
            && a + |chunks[k]| == b <= |items| && chunks[k] == items[a..b]
            && BodyBytes(chunks[k], size, envelope) == RangeBytes(items, size, envelope, a, b)
  {
    var a, b := |Flat(chunks, k)|, |Flat(chunks, k + 1)|;
    FlatIsPrefix(chunks, k + 1, |chunks|);
    SuffixOfPrefix(Flat(chunks, k), chunks[k], items, b);
    RangeBody(items, size, envelope, a, b);
  }

  // ----- greedy packing is the shortest -----

  /** Every chunk but the last could not have taken the item after it. */
  ghost predicate Greedy<T>(chunks: seq<seq<T>>, items: seq<T>, size: T -> nat, envelope: nat, limit: int) {
    && Flat(chunks, |chunks|) <= items
    && (forall k :: 0 <= k < |chunks| ==> chunks[k] != [])
    && forall k :: 0 <= k < |chunks| ==> Full(chunks, items, size, envelope, limit, k)
  }

  ghost predicate Full<T>(chunks: seq<seq<T>>, items: seq<T>, size: T -> nat, envelope: nat, limit: int, k: nat)
    requires k < |chunks|
  {
    var a, b := |Flat(chunks, k)|, |Flat(chunks, k + 1)|;
    b < |items| ==> RangeBytes(items, size, envelope, a, b + 1) > limit
  }

  /** A greedy packing is never behind any other after the same number of chunks. */
  lemma {:induction false} GreedyStaysAhead<T>(chunks: seq<seq<T>>, other: seq<seq<T>>, items: seq<T>, size: T -> nat,
                                               envelope: nat, limit: int, k: nat)
    requires Greedy(chunks, items, size, envelope, limit) && Carries(other, items, size, envelope, limit)
    requires k <= |chunks| && k <= |other|
    ensures |Flat(other, k)| <= |Flat(chunks, k)|
  {
    if k > 0 {
      GreedyStaysAhead(chunks, other, items, size, envelope, limit, k - 1);
      assert Full(chunks, items, size, envelope, limit, k - 1);
      ChunkRange(other, items, size, envelope, k - 1);
      FlatIsPrefix(chunks, k, |chunks|);
      var a, a' := |Flat(other, k - 1)|, |Flat(other, k)|;
      var b, b' := |Flat(chunks, k - 1)|, |Flat(chunks, k)|;
      if b' < a' {
        BetweenGrows(items, size, a, b, b' + 1, a');
      }
    }
  }

  lemma LaterIsLonger<T>(chunks: seq<seq<T>>, k: nat)
    requires k < |chunks| && chunks[k] != []
    ensures |Flat(chunks, k)| < |Flat(chunks, |chunks|)|
  {
    FlatIsPrefix(chunks, k + 1, |chunks|);
  }

  /** So no in-order packing that fits uses fewer chunks. */
  lemma GreedyIsShortest<T>(chunks: seq<seq<T>>, other: seq<seq<T>>, items: seq<T>, size: T -> nat, envelope: nat, limit: int)
    requires Greedy(chunks, items, size, envelope, limit) && Flat(chunks, |chunks|) == items
    requires Carries(other, items, size, envelope, limit)
    ensures |chunks| <= |other|
  {
    if |other| < |chunks| {
      LaterIsLonger(chunks, |other|);
      GreedyStaysAhead(chunks, other, items, size, envelope, limit, |other|);
    }
  }

  lemma FullOfLonger<T>(chunks: seq<seq<T>>, current: seq<T>, items: seq<T>, size: T -> nat, envelope: nat, limit: int, k: nat)
    requires k < |chunks| && Full(chunks, items, size, envelope, limit, k)
    ensures Full(chunks + [current], items, size, envelope, limit, k)
  {
    FlatOfLonger(chunks, current, k);
    FlatOfLonger(chunks, current, k + 1);
  }

  /** Closing a chunk that cannot take the next item keeps the packing greedy. */
  lemma CloseChunk<T>(chunks: seq<seq<T>>, current: seq<T>, items: seq<T>, size: T -> nat, envelope: nat, limit: int)
    requires Greedy(chunks, items, size, envelope, limit) && current != []
    requires var a := |Flat(chunks, |chunks|)|;
             && Flat(chunks, |chunks|) + current <= items
             && (a + |current| < |items| ==> RangeBytes(items, size, envelope, a, a + |current| + 1) > limit)
    ensures Greedy(chunks + [current], items, size, envelope, limit)
    ensures Flat(chunks + [current], |chunks| + 1) == Flat(chunks, |chunks|) + current
  {
    var closed := chunks + [current];
    FlatOfLonger(chunks, current, |chunks|);
    assert Full(closed, items, size, envelope, limit, |chunks|);
    forall k | 0 <= k < |chunks| ensures Full(closed, items, size, envelope, limit, k) {
      FullOfLonger(chunks, current, items, size, envelope, limit, k);
    }
  }

  // ----- the packing loop -----

  /** The variables of the packing loop after the first `i` items. */
  ghost predicate Packing<T>(chunks: seq<seq<T>>, current: seq<T>, used: nat, items: seq<T>, size: T -> nat,
                             envelope: nat, limit: int, i: nat)
  {
    && i <= |items| && |current| <= i
    && Greedy(chunks, items, size, envelope, limit)
    && (forall k :: 0 <= k < |chunks| ==> BodyBytes(chunks[k], size, envelope) <= limit)
    && |Flat(chunks, |chunks|)| == i - |current| && Flat(chunks, |chunks|) + current == items[..i]
    && (if current == [] then i == 0 && used == 0
        else envelope + used == RangeBytes(items, size, envelope, i - |current|, i) <= limit)
  }

  lemma AddToChunk<T>(chunks: seq<seq<T>>, current: seq<T>, used: nat, items: seq<T>, size: T -> nat,
                      envelope: nat, limit: int, i: nat)
    requires i < |items| && Packing(chunks, current, used, items, size, envelope, limit, i)
    requires var bytes := used + (if current == [] then 0 else 1) + size(items[i]); envelope + bytes <= limit
    ensures Packing(chunks, current + [items[i]], used + (if current == [] then 0 else 1) + size(items[i]),
                    items, size, envelope, limit, i + 1)
  {
    assert items[..i + 1] == items[..i] + [items[i]];
    assert Flat(chunks, |chunks|) + (current + [items[i]]) == (Flat(chunks, |chunks|) + current) + [items[i]];
  }

  lemma CurrentFits<T>(head: seq<T>, current: seq<T>, used: nat, items: seq<T>, size: T -> nat,
                       envelope: nat, limit: int, i: nat)
    requires i <= |items| && head + current == items[..i] && |head| + |current| == i
    requires envelope + used == RangeBytes(items, size, envelope, i - |current|, i) <= limit
    ensures head + current <= items && BodyBytes(current, size, envelope) <= limit
  {
    SuffixOfPrefix(head, current, items, i);
    RangeBody(items, size, envelope, |head|, i);
  }

  lemma StartChunk<T>(chunks: seq<seq<T>>, current: seq<T>, used: nat, items: seq<T>, size: T -> nat,
                      envelope: nat, limit: int, i: nat)
    requires i < |items| && current != [] && Packing(chunks, current, used, items, size, envelope, limit, i)
    requires envelope + used + 1 + size(items[i]) > limit >= envelope + size(items[i])
    ensures Packing(chunks + [current], [items[i]], size(items[i]), items, size, envelope, limit, i + 1)
  {
    CurrentFits(Flat(chunks, |chunks|), current, used, items, size, envelope, limit, i);
    CloseChunk(chunks, current, items, size, envelope, limit);
    assert Flat(chunks + [current], |chunks| + 1) == items[..i];
    assert items[..i + 1] == items[..i] + [items[i]];
    assert Between(items, size, i, i + 1) == size(items[i]);
  }

  lemma LastChunk<T>(chunks: seq<seq<T>>, current: seq<T>, used: nat, items: seq<T>, size: T -> nat,
                     envelope: nat, limit: int, n: nat)
    requires n == |items| && current != [] && Packing(chunks, current, used, items, size, envelope, limit, n)
    ensures Greedy(chunks + [current], items, size, envelope, limit)
    ensures Carries(chunks + [current], items, size, envelope, limit)
  {
    CurrentFits(Flat(chunks, |chunks|), current, used, items, size, envelope, limit, n);
    CloseChunk(chunks, current, items, size, envelope, limit);
    assert items[..n] == items;
  }

  /**
   Rejected exactly when some item cannot fit a body by itself; otherwise non-empty chunks that
   carry the items in order within the budget less the margin, as few as any that do.
   */
  ghost predicate Packs<T(!new)>(packed: Option<seq<seq<T>>>, items: seq<T>, size: T -> nat, envelope: nat, budget: int) {
    var limit := budget - 128;
    && (packed.None? <==> exists k :: 0 <= k < |items| && envelope + size(items[k]) > limit)
    && (packed.Some? ==>
          && Carries(packed.value, items, size, envelope, limit)
          && (forall k :: 0 <= k < |packed.value| ==> packed.value[k] != [])
          && forall other: seq<seq<T>> :: Carries(other, items, size, envelope, limit) ==> |packed.value| <= |other|)
  }

  method Pack<T(!new)>(items: seq<T>, size: T -> nat, envelope: nat, budget: int) returns (packed: Option<seq<seq<T>>>)
    ensures Packs(packed, items, size, envelope, budget)
  {
    var limit := budget - BODY_SAFETY_MARGIN_BYTES;
    var chunks: seq<seq<T>>, current: seq<T>, used := [], [], 0;
    for i := 0 to |items|
      invariant forall k :: 0 <= k < i ==> envelope + size(items[k]) <= limit
      invariant Packing(chunks, current, used, items, size, envelope, limit, i)
    {
      var bytes := size(items[i]);
      if envelope + bytes > limit {
        return None;
      }
      var separator := if |current| == 0 then 0 else 1;
      if |current| > 0 && envelope + used + separator + bytes > limit {
        StartChunk(chunks, current, used, items, size, envelope, limit, i);
        chunks, current, used := chunks + [current], [items[i]], bytes;
      } else {
        AddToChunk(chunks, current, used, items, size, envelope, limit, i);
        current, used := current + [items[i]], used + separator + bytes;
      }
    }
    if |current| > 0 {
      LastChunk(chunks, current, used, items, size, envelope, limit, |items|);
      chunks := chunks + [current];
    }
    forall other: seq<seq<T>> | Carries(other, items, size, envelope, limit) ensures |chunks| <= |other| {
      GreedyIsShortest(chunks, other, items, size, envelope, limit);
    }
    packed := Some(chunks);
  }
}
