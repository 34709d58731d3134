/**
 The page contract both providers promise for a transaction history, stated on sets of
 transactions, and the block-boundary cut that every history read ends with.

 A page is the smallest set of whole blocks, oldest first, that holds at least 50
 transactions, or everything when there are not that many.
 */
module History {
  import opened Common

  const HISTORY_PAGE_SIZE: nat := 50

  /** A transaction as a history listing names it. */
  datatype Tx = Tx(hash: string, height: int)

  ghost function Upto(all: set<Tx>, block: int): set<Tx> {
    set t | t in all && t.height <= block
  }

  ghost function Before(all: set<Tx>, block: int): set<Tx> {
    set t | t in all && t.height < block
  }

  /** The transactions past an exclusive block cursor. */
  ghost function After(all: set<Tx>, after: Option<int>): set<Tx> {
    match after
    case None => all
    case Some(block) => set t | t in all && t.height > block
  }

  /** `page` is everything up to block `b`, and `b` is the block in which the page fills up. */
  ghost predicate FillsAt(all: set<Tx>, page: set<Tx>, b: int) {
    page == Upto(all, b) && |Before(all, b)| < 50 <= |page|
  }

  ghost predicate IsPage(all: set<Tx>, page: set<Tx>) {
    if |all| <= 50 then page == all else exists b :: FillsAt(all, page, b)
  }

  /** `page` is the page, and `boundary` the block it ends with. */
  ghost predicate IsPageUpTo(all: set<Tx>, page: set<Tx>, boundary: Option<int>) {
    && IsPage(all, page)
    && (boundary.None? <==> all == {})
    && (boundary.Some? ==> page == Upto(all, boundary.value))
    && (|all| >= 50 ==> boundary.Some? && FillsAt(all, page, boundary.value))
  }

  ghost function TxSet(txs: seq<Tx>): set<Tx> {
    set t | t in txs
  }

  predicate HeightsAscend(txs: seq<Tx>) {
    forall i, j :: 0 <= i < j < |txs| ==> txs[i].height <= txs[j].height
  }

  lemma {:induction false} DistinctSize(txs: seq<Tx>)
    requires Distinct(txs)
    ensures |TxSet(txs)| == |txs|
  {
    if |txs| > 0 {
      var front := txs[..|txs| - 1];
      DistinctSize(front);
      assert TxSet(txs) == TxSet(front) + {txs[|txs| - 1]};
    }
  }

  /** The contract names one page: two sets meeting it are the same set. */
  lemma PageUnique(all: set<Tx>, p: set<Tx>, q: set<Tx>)
    requires IsPage(all, p) && IsPage(all, q)
    ensures p == q
  {
    if |all| > HISTORY_PAGE_SIZE {
      var b :| FillsAt(all, p, b);
      var c :| FillsAt(all, q, c);
      if b < c {
        SubsetSize(Upto(all, b), Before(all, c));
      } else if c < b {
        SubsetSize(Upto(all, c), Before(all, b));
      }
    }
  }

  /** A page never leaves part of a block behind: what is not on it is strictly newer. */
  lemma PageKeepsBlocksWhole(all: set<Tx>, page: set<Tx>, on: Tx, off: Tx)
    requires IsPage(all, page)
    requires on in page && off in all - page
    ensures page <= all && on.height < off.height
  {
  }

  /**
   Reading only some of the transactions is enough, once the page of what was read fills up in a
   block that nothing unread belongs to or precedes.
   */
  lemma SettledPage(read: set<Tx>, all: set<Tx>, page: set<Tx>, b: int)
    requires read <= all && FillsAt(read, page, b)
    requires forall t :: t in all - read ==> t.height > b
    ensures IsPage(all, page)
  {
    assert Upto(all, b) == Upto(read, b);
    assert Before(all, b) == Before(read, b);
    if |all| <= HISTORY_PAGE_SIZE {
      SubsetSize(page, all);
    } else {
      assert FillsAt(all, page, b);
    }
  }

  /** A page stays the page of any part that still contains it. */
  lemma PageWithin(some: set<Tx>, all: set<Tx>, page: set<Tx>)
    requires page <= some <= all && IsPage(all, page)
    ensures IsPage(some, page)
  {
    SubsetSize(some, all);
    if |all| <= HISTORY_PAGE_SIZE {
      assert some == all;
    } else {
      var b :| FillsAt(all, page, b);
      assert Upto(some, b) == page;
      assert Before(some, b) == Before(all, b);
      if |some| <= HISTORY_PAGE_SIZE {
        SubsetSize(page, some);
      } else {
        assert FillsAt(some, page, b);
      }
    }
  }

  // ----- the cut through the sorted rows -----

  /** Index of the first row past `end` that does not sit in `block`. */
  function BlockEnd(txs: seq<Tx>, end: nat, block: int): (stop: nat)
    requires end <= |txs|
    ensures end <= stop <= |txs|
    ensures forall k :: end <= k < stop ==> txs[k].height == block
    ensures stop < |txs| ==> txs[stop].height != block
    decreases |txs| - end
  {
    if end < |txs| && txs[end].height == block then BlockEnd(txs, end + 1, block) else end
  }

  /** How many of the sorted rows make up the first page. */
  function PageEnd(txs: seq<Tx>): (stop: nat)
    ensures stop <= |txs|
  {
    if |txs| == 0 then 0
    else
      var end := if |txs| < HISTORY_PAGE_SIZE then |txs| else HISTORY_PAGE_SIZE;
      BlockEnd(txs, end, txs[end - 1].height)
  }

  /** The oldest page of sorted rows. */
  function FirstPage(txs: seq<Tx>): seq<Tx> {
    txs[..PageEnd(txs)]
  }

  /** The block a page ends with. */
  function BoundaryOf(page: seq<Tx>): Option<int> {
    if |page| == 0 then None else Some(page[|page| - 1].height)
  }

  /** The cut as the history reads perform it on their sorted rows. */
  method CutPage(txs: seq<Tx>) returns (end: nat, boundary: Option<int>)
    ensures end == PageEnd(txs) && boundary == BoundaryOf(FirstPage(txs))
  {
    end := if |txs| < HISTORY_PAGE_SIZE then |txs| else HISTORY_PAGE_SIZE;
    if |txs| == 0 {
      return end, None;
    }
    var block := txs[end - 1].height;
    boundary := Some(block);
    while end < |txs| && txs[end].height == block
      invariant 0 < end <= |txs| && txs[end - 1].height == block
      invariant BlockEnd(txs, end, block) == PageEnd(txs)
    {
      end := end + 1;
    }
  }

  /** Cutting the sorted, deduplicated rows yields exactly the page of their transactions. */
  lemma CutIsPage(txs: seq<Tx>)
    requires HeightsAscend(txs) && Distinct(txs)
    ensures IsPageUpTo(TxSet(txs), TxSet(FirstPage(txs)), BoundaryOf(FirstPage(txs)))
    ensures FirstPage(txs) == [] <==> txs == []
  {
    DistinctSize(txs);
    if |txs| > 0 {
      var all, end := TxSet(txs), PageEnd(txs);
      var b := txs[end - 1].height;
      assert txs[0] in all;
      CutIsUpto(txs, end);
      if |txs| >= HISTORY_PAGE_SIZE {
        DistinctSize(txs[..end]);
        FewBefore(txs, HISTORY_PAGE_SIZE - 1, b);
        assert FillsAt(all, TxSet(txs[..end]), b);
      }
      if |txs| <= HISTORY_PAGE_SIZE {
        assert txs[..end] == txs;
      }
    }
  }

  /** Where the rows past `end` are in newer blocks, the rows before it are a whole number of blocks. */
  lemma CutIsUpto(txs: seq<Tx>, end: nat)
    requires HeightsAscend(txs) && 0 < end <= |txs|
    requires end < |txs| ==> txs[end - 1].height < txs[end].height
    ensures TxSet(txs[..end]) == Upto(TxSet(txs), txs[end - 1].height)
  {
    forall t | t in Upto(TxSet(txs), txs[end - 1].height) ensures t in TxSet(txs[..end]) {
      var k :| 0 <= k < |txs| && txs[k] == t;
      assert k < end;
      assert txs[..end][k] == t;
    }
  }

  lemma FewBefore(txs: seq<Tx>, k: nat, b: int)
    requires HeightsAscend(txs) && Distinct(txs)
    requires k < |txs| && txs[k].height == b
    ensures |Before(TxSet(txs), b)| <= k
  {
    var head := txs[..k];
    DistinctSize(head);
    forall t | t in Before(TxSet(txs), b) ensures t in TxSet(head) {
      var i :| 0 <= i < |txs| && txs[i] == t;
      assert head[i] == t;
    }
    SubsetSize(Before(TxSet(txs), b), TxSet(head));
  }

  // ----- the library's stable sort on height -----

  function InsertByHeight(sorted: seq<Tx>, tx: Tx): (r: seq<Tx>)
    ensures |r| == |sorted| + 1
    ensures forall t :: t in r <==> t in sorted || t == tx
  {
    if sorted == [] then [tx]
    else
      var front, last := sorted[..|sorted| - 1], sorted[|sorted| - 1];
      assert sorted == front + [last];
      if tx.height < last.height then InsertByHeight(front, tx) + [last] else sorted + [tx]
  }

  /** The first `n` transactions, sorted by height. */
  function SortByHeight(txs: seq<Tx>, n: nat): (sorted: seq<Tx>)
    requires n <= |txs|
    ensures |sorted| == n
  {
    if n == 0 then [] else InsertByHeight(SortByHeight(txs, n - 1), txs[n - 1])
  }

  lemma {:induction false} InsertFacts(sorted: seq<Tx>, tx: Tx)
    requires HeightsAscend(sorted)
    ensures HeightsAscend(InsertByHeight(sorted, tx))
    ensures Distinct(sorted) && tx !in sorted ==> Distinct(InsertByHeight(sorted, tx))
  {
    if sorted != [] {
      var front, last := sorted[..|sorted| - 1], sorted[|sorted| - 1];
      if tx.height < last.height {
        InsertFacts(front, tx);
        var inner := InsertByHeight(front, tx);
        forall k | 0 <= k < |inner|
          ensures inner[k].height <= last.height
          ensures Distinct(sorted) && tx !in sorted ==> inner[k] != last
        {
          assert inner[k] in front || inner[k] == tx;
        }
      }
    }
  }

  lemma {:induction false} SortIsOrdered(txs: seq<Tx>, n: nat)
    requires n <= |txs|
    ensures HeightsAscend(SortByHeight(txs, n))
    ensures forall t :: t in SortByHeight(txs, n) <==> t in txs[..n]
  {
    if n > 0 {
      SortIsOrdered(txs, n - 1);
      assert txs[..n] == txs[..n - 1] + [txs[n - 1]];
      InsertFacts(SortByHeight(txs, n - 1), txs[n - 1]);
    }
  }

  lemma {:induction false} SortFacts(txs: seq<Tx>, n: nat)
    requires n <= |txs| && Distinct(txs)
    ensures Distinct(SortByHeight(txs, n))
  {
    if n > 0 {
      SortFacts(txs, n - 1);
      SortIsOrdered(txs, n - 1);
      assert txs[n - 1] !in txs[..n - 1];
      InsertFacts(SortByHeight(txs, n - 1), txs[n - 1]);
    }
  }

  /** Those of the first `n` transactions that are of one block, in their order. */
  function OfBlock(txs: seq<Tx>, n: nat, block: int): seq<Tx>
    requires n <= |txs|
  {
    if n == 0 then [] else OfBlock(txs, n - 1, block) + if txs[n - 1].height == block then [txs[n - 1]] else []
  }

  lemma {:induction false} OfBlockPrefix(a: seq<Tx>, b: seq<Tx>, n: nat, block: int)
    requires n <= |a| && n <= |b| && forall k :: 0 <= k < n ==> a[k] == b[k]
    ensures OfBlock(a, n, block) == OfBlock(b, n, block)
  {
    if n > 0 {
      OfBlockPrefix(a, b, n - 1, block);
    }
  }

  lemma OfBlockMore(txs: seq<Tx>, tx: Tx, block: int)
    ensures OfBlock(txs + [tx], |txs| + 1, block) == OfBlock(txs, |txs|, block) + if tx.height == block then [tx] else []
  {
    OfBlockPrefix(txs, txs + [tx], |txs|, block);
  }

  lemma {:induction false} NoneOfBlock(txs: seq<Tx>, n: nat, block: int)
    requires n <= |txs| && forall k :: 0 <= k < n ==> txs[k].height != block
    ensures OfBlock(txs, n, block) == []
  {
    if n > 0 {
      NoneOfBlock(txs, n - 1, block);
    }
  }

  lemma {:induction false} InsertIsStable(sorted: seq<Tx>, tx: Tx, block: int)
    requires HeightsAscend(sorted)
    ensures OfBlock(InsertByHeight(sorted, tx), |sorted| + 1, block)
         == OfBlock(sorted, |sorted|, block) + if tx.height == block then [tx] else []
  {
    if sorted == [] {
      OfBlockMore([], tx, block);
      assert [] + [tx] == [tx];
    } else {
      var front, last := sorted[..|sorted| - 1], sorted[|sorted| - 1];
      assert sorted == front + [last];
      OfBlockMore(front, last, block);
      if tx.height < last.height {
        InsertIsStable(front, tx, block);
        OfBlockMore(InsertByHeight(front, tx), last, block);
      } else {
        OfBlockMore(sorted, tx, block);
      }
    }
  }

  /** Sorting keeps the transactions of every block in the order they were listed in. */
  lemma {:induction false} SortIsStable(txs: seq<Tx>, n: nat, block: int)
    requires n <= |txs|
    ensures OfBlock(SortByHeight(txs, n), n, block) == OfBlock(txs, n, block)
  {
    if n > 0 {
      SortIsStable(txs, n - 1, block);
      SortIsOrdered(txs, n - 1);
      InsertIsStable(SortByHeight(txs, n - 1), txs[n - 1], block);
    }
  }

  lemma SortKeepsTxs(txs: seq<Tx>)
    requires Distinct(txs)
    ensures var sorted := SortByHeight(txs, |txs|);
            HeightsAscend(sorted) && Distinct(sorted) && TxSet(sorted) == TxSet(txs)
  {
    SortFacts(txs, |txs|);
    SortIsOrdered(txs, |txs|);
    assert txs[..|txs|] == txs;
  }

  lemma {:induction false} InSomeOrder(all: set<Tx>) returns (txs: seq<Tx>)
    ensures Distinct(txs) && TxSet(txs) == all
  {
    if all == {} {
      txs := [];
    } else {
      var t :| t in all;
      var rest := InSomeOrder(all - {t});
      assert t !in TxSet(rest);
      txs := rest + [t];
      assert TxSet(txs) == TxSet(rest) + {t};
    }
  }

  /** Every history has a page. */
  lemma PageExists(all: set<Tx>)
    ensures exists page :: IsPage(all, page)
  {
    var txs := InSomeOrder(all);
    SortKeepsTxs(txs);
    CutIsPage(SortByHeight(txs, |txs|));
  }

  // ----- following the cursor -----

  /** The rows past the exclusive block cursor, in their sorted order. */
  function Newer(txs: seq<Tx>, after: Option<int>): (rest: seq<Tx>)
  {
    if |txs| > 0 && after.Some? && txs[0].height <= after.value then Newer(txs[1..], after) else txs
  }

  /** The page a client receives for a cursor: the cut of everything newer. */
  function PageAfter(history: seq<Tx>, after: Option<int>): seq<Tx> {
    FirstPage(Newer(history, after))
  }

  /** Everything newer is the part of the sorted history from the one index that splits it. */
  lemma {:induction false} NewerFrom(txs: seq<Tx>, after: Option<int>, cut: nat)
    requires HeightsAscend(txs) && cut <= |txs|
    requires forall k :: 0 <= k < cut ==> after.Some? && txs[k].height <= after.value
    requires cut < |txs| ==> after.None? || txs[cut].height > after.value
    ensures Newer(txs, after) == txs[cut..]
  {
    if cut > 0 {
      var tail := txs[1..];
      assert forall k :: 0 <= k < |tail| ==> tail[k] == txs[k + 1];
      assert txs[0].height <= after.value;
      NewerFrom(tail, after, cut - 1);
      assert tail[cut - 1..] == txs[cut..];
    }
  }

  lemma NewerSplits(txs: seq<Tx>, after: Option<int>) returns (cut: nat)
    requires HeightsAscend(txs)
    ensures cut <= |txs| && Newer(txs, after) == txs[cut..]
    ensures forall k :: 0 <= k < cut ==> after.Some? && txs[k].height <= after.value
    ensures forall k :: cut <= k < |txs| ==> after.None? || txs[k].height > after.value
  {
    cut := 0;
    while cut < |txs| && after.Some? && txs[cut].height <= after.value
      invariant cut <= |txs|
      invariant forall k :: 0 <= k < cut ==> after.Some? && txs[k].height <= after.value
    {
      cut := cut + 1;
    }
    NewerFrom(txs, after, cut);
  }

  /** What a client collects by asking again with the block of the last transaction it was given. */
  function Collect(history: seq<Tx>, after: Option<int>): seq<Tx>
    requires HeightsAscend(history)
    decreases |Newer(history, after)|
  {
    var page := PageAfter(history, after);
    if page == [] then []
    else
      NextCursorAdvances(history, after);
      page + Collect(history, Some(page[|page| - 1].height))
  }

  /** Because no page is cut inside a block, the next cursor leaves exactly the rest. */
  lemma NextCursorAdvances(history: seq<Tx>, after: Option<int>)
    requires HeightsAscend(history) && PageAfter(history, after) != []
    ensures var page, rest := PageAfter(history, after), Newer(history, after);
            Newer(history, Some(page[|page| - 1].height)) == rest[|page|..]
  {
    var cut := NewerSplits(history, after);
    var rest := history[cut..];
    PageEndsABlock(rest);
    NewerPast(history, cut, PageEnd(rest));
  }

  lemma NewerPast(txs: seq<Tx>, cut: nat, end: nat)
    requires HeightsAscend(txs) && 0 < end && cut + end <= |txs|
    requires cut + end < |txs| ==> txs[cut + end - 1].height < txs[cut + end].height
    ensures Newer(txs, Some(txs[cut + end - 1].height)) == txs[cut..][end..]
  {
    NewerFrom(txs, Some(txs[cut + end - 1].height), cut + end);
  }

  lemma PageEndsABlock(txs: seq<Tx>)
    requires HeightsAscend(txs) && |txs| > 0
    ensures var end := PageEnd(txs);
            && 0 < end
            && (forall k :: 0 <= k < end ==> txs[k].height <= txs[end - 1].height)
            && (end < |txs| ==> txs[end].height > txs[end - 1].height)
  {
  }

  /**
   Following the cursor enumerates the history: the pages concatenate to everything newer than
   the starting cursor, in order, with nothing skipped and nothing repeated.
   */
  lemma {:induction false} FollowingTheCursorEnumerates(history: seq<Tx>, after: Option<int>)
    requires HeightsAscend(history)
    ensures Collect(history, after) == Newer(history, after)
    decreases |Newer(history, after)|
  {
    var page, rest := PageAfter(history, after), Newer(history, after);
    if page == [] {
      if |rest| > 0 {
        PageEndsABlock(rest);
        assert false;
      }
    } else {
      NextCursorAdvances(history, after);
      FollowingTheCursorEnumerates(history, Some(page[|page| - 1].height));
      assert rest == page + rest[|page|..];
    }
  }

  /** The pages being followed are the pages of the contract. */
  lemma PageAfterIsPage(history: seq<Tx>, after: Option<int>)
    requires HeightsAscend(history) && Distinct(history)
    ensures IsPage(After(TxSet(history), after), TxSet(PageAfter(history, after)))
  {
    var cut := NewerSplits(history, after);
    var rest := history[cut..];
    assert TxSet(rest) == After(TxSet(history), after) by {
      forall t | t in After(TxSet(history), after) ensures t in rest {
        var k :| 0 <= k < |history| && history[k] == t;
        assert rest[k - cut] == t;
      }
    }
    CutIsPage(rest);
  }
}
