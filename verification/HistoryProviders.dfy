/**
 The two upstream histories side by side: what each read answers, exactly when the answers are the same
 page, and what a client is given that follows the cursor, whichever of them answers each page.
 */
module HistoryProviders {
  import opened Common
  import opened History
  import Blockfrost = BlockfrostHistory
  import Koios = KoiosHistory

  // ----- following the cursor over any provider -----

  /** Any provider of pages over a fixed history: sorted, without repeats, and the promised page. */
  ghost predicate Meets(answer: Option<int> -> seq<Tx>, all: set<Tx>) {
    forall after :: IsAnswer(answer(after), all, after)
  }

  ghost predicate IsAnswer(page: seq<Tx>, all: set<Tx>, after: Option<int>) {
    HeightsAscend(page) && Distinct(page) && IsPage(After(all, after), TxSet(page))
  }

  /** The cursor a client asks with next. */
  function LastBlock(page: seq<Tx>): Option<int> {
    if page == [] then None else Some(page[|page| - 1].height)
  }

  /** The cursor taken from a page's last transaction leaves exactly what the page did not hold. */
  lemma CursorLeavesTheRest(page: seq<Tx>, all: set<Tx>, after: Option<int>)
    requires IsAnswer(page, all, after) && page != []
    ensures After(all, LastBlock(page)) == After(all, after) - TxSet(page)
    ensures |After(all, LastBlock(page))| < |After(all, after)|
  {
    var some, last := After(all, after), page[|page| - 1];
    assert last in TxSet(page);
    forall t | t in some - TxSet(page) ensures t.height > last.height {
      PageKeepsBlocksWhole(some, TxSet(page), last, t);
    }
    PageKeepsWithin(some, TxSet(page));
    assert After(all, LastBlock(page)) == some - TxSet(page);
    SubsetSize(some - TxSet(page), some - {last});
  }

  lemma PageKeepsWithin(all: set<Tx>, page: set<Tx>)
    requires IsPage(all, page)
    ensures page <= all && (page == {} ==> all == {})
  {
    if |all| > HISTORY_PAGE_SIZE {
      var b :| FillsAt(all, page, b);
    }
  }

  /** Everything a client is given: page after page until an empty one. */
  ghost function Followed(answer: Option<int> -> seq<Tx>, all: set<Tx>, after: Option<int>): seq<Tx>
    requires Meets(answer, all)
    decreases |After(all, after)|
  {
    var page := answer(after);
    if page == [] then []
    else
      CursorLeavesTheRest(page, all, after);
      page + Followed(answer, all, LastBlock(page))
  }

  /** `given` is the transactions of `some`, each once, oldest block first. */
  ghost predicate Enumerates(given: seq<Tx>, some: set<Tx>) {
    TxSet(given) == some && Distinct(given) && HeightsAscend(given)
  }

  /** Nothing newer than the starting cursor is skipped, repeated or out of order. */
  lemma {:induction false} FollowingAnyProviderEnumerates(answer: Option<int> -> seq<Tx>, all: set<Tx>, after: Option<int>)
    requires Meets(answer, all)
    ensures Enumerates(Followed(answer, all, after), After(all, after))
    decreases |After(all, after)|
  {
    var page := answer(after);
    assert IsAnswer(page, all, after);
    if page == [] {
      PageKeepsWithin(After(all, after), TxSet(page));
    } else {
      CursorLeavesTheRest(page, all, after);
      FollowingAnyProviderEnumerates(answer, all, LastBlock(page));
      Joined(page, Followed(answer, all, LastBlock(page)), all, after);
    }
  }

  lemma Joined(page: seq<Tx>, rest: seq<Tx>, all: set<Tx>, after: Option<int>)
    requires IsAnswer(page, all, after) && page != [] && Enumerates(rest, After(all, LastBlock(page)))
    ensures Enumerates(page + rest, After(all, after))
  {
    CursorLeavesTheRest(page, all, after);
    PageKeepsWithin(After(all, after), TxSet(page));
    Concatenated(page, rest, page[|page| - 1].height);
  }

  lemma Concatenated(page: seq<Tx>, rest: seq<Tx>, block: int)
    requires Enumerates(page, TxSet(page)) && Enumerates(rest, TxSet(rest))
    requires forall k :: 0 <= k < |page| ==> page[k].height <= block
    requires forall t :: t in TxSet(rest) ==> t.height > block
    ensures Enumerates(page + rest, TxSet(page) + TxSet(rest))
  {
    assert forall k :: 0 <= k < |rest| ==> rest[k] in TxSet(rest);
    assert forall t :: t in page + rest <==> t in page || t in rest;
    assert TxSet(page + rest) == TxSet(page) + TxSet(rest);
  }

  // ----- what each read gives -----

  /** The whole history the listings tell of. */
  ghost function AllListed(listings: seq<Blockfrost.Listing>): set<Tx> {
    Blockfrost.TxsOf(Blockfrost.ListedRows(listings))
  }

  /** What the settled page walk promises of its answer. */
  ghost predicate Settled(listings: seq<Blockfrost.Listing>, after: Option<int>, rows: seq<Blockfrost.Row>) {
    && Blockfrost.Ascending(rows) && Blockfrost.RowSet(rows) <= Blockfrost.ReadableRows(listings, after)
    && IsPage(Blockfrost.TxsOf(Blockfrost.ReadableRows(listings, after)), TxSet(Blockfrost.Txs(rows)))
  }

  /** What the stream merge promises of its answer. */
  ghost predicate Merged(lists: seq<seq<Tx>>, page: seq<Tx>) {
    Distinct(page) && HeightsAscend(page) && IsPage(Koios.AllTxs(lists), TxSet(page))
  }

  /** The page cap hides nothing of the page past this cursor. */
  ghost predicate CapSpares(listings: seq<Blockfrost.Listing>, after: Option<int>) {
    forall page :: IsPage(Blockfrost.CompleteTxs(listings, after), page) ==>
      page <= Blockfrost.TxsOf(Blockfrost.ReadableRows(listings, after))
  }

  lemma ShortListingsSpare(listings: seq<Blockfrost.Listing>, after: Option<int>)
    requires Blockfrost.WithinCap(listings, after)
    ensures CapSpares(listings, after)
  {
    Blockfrost.ReadableWithinComplete(listings, after);
    forall page | IsPage(Blockfrost.CompleteTxs(listings, after), page)
      ensures page <= Blockfrost.TxsOf(Blockfrost.ReadableRows(listings, after))
    {
      PageKeepsWithin(Blockfrost.CompleteTxs(listings, after), page);
    }
  }

  /** It hides none past any cursor, where the listings are short enough or their blocks sparse enough. */
  lemma CapSparesAll(listings: seq<Blockfrost.Listing>, most: nat)
    requires Blockfrost.Chain(listings)
    requires || Blockfrost.WithinCap(listings, None)
             || (&& 2 * most + 50 <= 20_000
                 && forall i :: 0 <= i < |listings| ==> Blockfrost.AtMostInABlock(Blockfrost.Listed(listings[i]), most))
    ensures forall after :: CapSpares(listings, after)
  {
    forall after ensures CapSpares(listings, after) {
      if Blockfrost.WithinCap(listings, None) {
        Blockfrost.WithinCapStays(listings, after);
        ShortListingsSpare(listings, after);
      } else {
        SparseBlocksSpare(listings, after, most);
      }
    }
  }

  lemma SparseBlocksSpare(listings: seq<Blockfrost.Listing>, after: Option<int>, most: nat)
    requires Blockfrost.Chain(listings)
    requires 2 * most + 50 <= 20_000
    requires forall i :: 0 <= i < |listings| ==> Blockfrost.AtMostInABlock(Blockfrost.Listed(listings[i]), most)
    ensures CapSpares(listings, after)
  {
    var readable := Blockfrost.TxsOf(Blockfrost.ReadableRows(listings, after));
    PageExists(readable);
    var answered :| IsPage(readable, answered);
    forall page | IsPage(Blockfrost.CompleteTxs(listings, after), page) ensures page <= readable {
      Blockfrost.SparseBlocksFit(listings, after, most, answered, page);
    }
  }

  lemma SettledIsSorted(listings: seq<Blockfrost.Listing>, after: Option<int>, rows: seq<Blockfrost.Row>)
    requires Blockfrost.Chain(listings) && Settled(listings, after, rows)
    ensures HeightsAscend(Blockfrost.Txs(rows)) && Distinct(Blockfrost.Txs(rows))
  {
    Blockfrost.ReadableFacts(listings, after);
    assert Blockfrost.RowSet(rows) <= Blockfrost.ListedRows(listings);
    Blockfrost.AscendingTxs(rows);
  }

  /** The settled walk answers the promised page exactly where the cap hides nothing of it. */
  lemma BlockfrostAnswers(listings: seq<Blockfrost.Listing>, after: Option<int>, rows: seq<Blockfrost.Row>)
    requires Blockfrost.Chain(listings) && Settled(listings, after, rows)
    ensures IsAnswer(Blockfrost.Txs(rows), AllListed(listings), after) <==> CapSpares(listings, after)
  {
    var all, answered := Blockfrost.CompleteTxs(listings, after), TxSet(Blockfrost.Txs(rows));
    SettledIsSorted(listings, after, rows);
    PageExists(all);
    var promised :| IsPage(all, promised);
    Blockfrost.CapDecidesThePage(listings, after, answered, promised);
    forall page | IsPage(all, page) ensures page == promised {
      PageUnique(all, page, promised);
    }
  }

  /** The stream merge answers the promised page wherever it answers. */
  lemma KoiosAnswers(all: set<Tx>, after: Option<int>, lists: seq<seq<Tx>>, page: seq<Tx>)
    requires Koios.AllTxs(lists) == After(all, after) && Merged(lists, page)
    ensures IsAnswer(page, all, after)
  {
  }

  /**
   Over the same chain the two reads answer the same transactions, and so leave the same next cursor,
   exactly when the page cap hides none of the merge's.
   */
  lemma ProvidersAgree(listings: seq<Blockfrost.Listing>, after: Option<int>, lists: seq<seq<Tx>>,
                       settled: seq<Blockfrost.Row>, merged: seq<Tx>)
    requires Blockfrost.Chain(listings) && Koios.AllTxs(lists) == Blockfrost.CompleteTxs(listings, after)
    requires Settled(listings, after, settled) && Merged(lists, merged)
    ensures TxSet(Blockfrost.Txs(settled)) == TxSet(merged) <==> CapSpares(listings, after)
    ensures CapSpares(listings, after) <==> TxSet(merged) <= Blockfrost.TxsOf(Blockfrost.ReadableRows(listings, after))
    ensures Blockfrost.WithinCap(listings, after) ==> CapSpares(listings, after)
    ensures CapSpares(listings, after) ==> LastBlock(Blockfrost.Txs(settled)) == LastBlock(merged)
  {
    BlockfrostAnswers(listings, after, settled);
    KoiosAnswers(AllListed(listings), after, lists, merged);
    var all, txs := Blockfrost.CompleteTxs(listings, after), Blockfrost.Txs(settled);
    SettledIsSorted(listings, after, settled);
    Blockfrost.CapDecidesThePage(listings, after, TxSet(txs), TxSet(merged));
    if Blockfrost.WithinCap(listings, after) {
      ShortListingsSpare(listings, after);
    }
    if CapSpares(listings, after) {
      PageUnique(all, TxSet(txs), TxSet(merged));
      SameLastBlock(txs, merged);
    }
  }

  lemma SameLastBlock(a: seq<Tx>, b: seq<Tx>)
    requires HeightsAscend(a) && HeightsAscend(b) && TxSet(a) == TxSet(b)
    ensures LastBlock(a) == LastBlock(b)
  {
    if a != [] {
      NoNewer(a, b);
    }
    if b != [] {
      NoNewer(b, a);
    }
  }

  lemma NoNewer(a: seq<Tx>, b: seq<Tx>)
    requires HeightsAscend(b) && TxSet(a) == TxSet(b) && a != []
    ensures b != [] && a[|a| - 1].height <= b[|b| - 1].height
  {
    assert a[|a| - 1] in TxSet(b);
  }

  // ----- a client of both reads -----

  /** What the stream merge is answered for each cursor: the same history, in lists of the packed bodies. */
  ghost predicate Serves(servers: Option<int> -> Koios.Server, lists: Option<int> -> seq<seq<Tx>>, bodies: nat, all: set<Tx>) {
    forall after :: ServesPast(servers(after), lists(after), bodies, After(all, after))
  }

  ghost predicate ServesPast(server: Koios.Server, lists: seq<seq<Tx>>, bodies: nat, some: set<Tx>) {
    && |lists| == bodies && Koios.Upstream(lists) && Koios.AllTxs(lists) == some
    && forall i :: 0 <= i < bodies ==> Koios.Faithful(server, i, lists[i])
  }

  /** Both upstreams tell of one chain, and the page cap hides none of its pages. */
  ghost predicate OneChain(listings: seq<Blockfrost.Listing>, servers: Option<int> -> Koios.Server,
                           lists: Option<int> -> seq<seq<Tx>>, bodies: nat) {
    && Blockfrost.Chain(listings) && (forall after :: CapSpares(listings, after))
    && Serves(servers, lists, bodies, AllListed(listings))
  }

  /** A page past some cursor reaches the row bound of a longer list. */
  ghost predicate SomePageReachesBound(lists: Option<int> -> seq<seq<Tx>>) {
    exists after, page :: IsPage(Koios.AllTxs(lists(after)), page) && Koios.PageReachesBound(lists(after), page)
  }

  /** A stream for each packed request body. */
  method OpenStreams(bodies: nat, ghost lists: seq<seq<Tx>>) returns (streams: seq<Koios.AddressHistoryStream>)
    requires |lists| == bodies
    ensures |streams| == bodies && Distinct(streams)
    ensures forall i :: 0 <= i < bodies ==> fresh(streams[i]) && streams[i].body == i
    ensures Koios.Follows(streams, lists, seq(|lists|, _ => 0))
  {
    streams := [];
    for k := 0 to bodies
      invariant |streams| == k && Distinct(streams)
      invariant forall i :: 0 <= i < k ==> fresh(streams[i]) && streams[i].body == i
      invariant forall i :: 0 <= i < k ==> streams[i].Reads(lists[i]) && streams[i].Taken() == 0
    {
      var stream := new Koios.AddressHistoryStream(k);
      streams := streams + [stream];
    }
  }

  /** One page over the stream merge. */
  method MergedPage(server: Koios.Server, ghost lists: seq<seq<Tx>>, bodies: nat, ghost all: set<Tx>, ghost after: Option<int>)
    returns (page: Option<seq<Tx>>)
    requires ServesPast(server, lists, bodies, After(all, after))
    ensures page.Some? ==> IsAnswer(page.value, all, after)
    ensures page.None? ==> exists p :: IsPage(Koios.AllTxs(lists), p) && Koios.PageReachesBound(lists, p)
  {
    var streams := OpenStreams(bodies, lists);
    PageExists(Koios.AllTxs(lists));
    page := Koios.GetTxHistoryByAddresses(streams, server, lists);
  }

  /** One page over whichever upstream is asked. */
  method AnswerPage(listings: seq<Blockfrost.Listing>, server: Koios.Server, ghost lists: Option<int> -> seq<seq<Tx>>,
                    bodies: nat, merge: bool, after: Option<int>)
    returns (page: Option<seq<Tx>>)
    requires Blockfrost.Chain(listings) && CapSpares(listings, after)
    requires ServesPast(server, lists(after), bodies, After(AllListed(listings), after))
    ensures page.Some? ==> IsAnswer(page.value, AllListed(listings), after)
    ensures page.None? ==> SomePageReachesBound(lists)
  {
    if merge {
      page := MergedPage(server, lists(after), bodies, AllListed(listings), after);
    } else {
      var rows := Blockfrost.AddressSetTxHistory(listings, after);
      BlockfrostAnswers(listings, after, rows);
      page := Some(Blockfrost.Txs(rows));
    }
  }

  /**
   A client asks page after page, each with the block the last one ended in, and `merge` says which
   upstream happens to answer which page. It is given everything newer than its first cursor, each
   transaction once, oldest block first, unless some page reaches the row bound of the stream merge.
   */
  method FollowCursor(listings: seq<Blockfrost.Listing>, servers: Option<int> -> Koios.Server,
                      ghost lists: Option<int> -> seq<seq<Tx>>, bodies: nat, merge: Option<int> -> bool, after: Option<int>)
    returns (given: Option<seq<Tx>>)
    requires OneChain(listings, servers, lists, bodies)
    ensures given.Some? ==> Enumerates(given.value, After(AllListed(listings), after))
    ensures given.None? ==> SomePageReachesBound(lists)
    decreases |After(AllListed(listings), after)|
  {
    var page := AnswerPage(listings, servers(after), lists, bodies, merge(after), after);
    if page.None? {
      return None;
    }
    PageKeepsWithin(After(AllListed(listings), after), TxSet(page.value));
    if page.value == [] {
      return Some([]);
    }
    CursorLeavesTheRest(page.value, AllListed(listings), after);
    var rest := FollowCursor(listings, servers, lists, bodies, merge, LastBlock(page.value));
    if rest.None? {
      return None;
    }
    Joined(page.value, rest.value, AllListed(listings), after);
    given := Some(page.value + rest.value);
  }
}
