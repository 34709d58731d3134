/**
 The address-set history read over Blockfrost: pages of each address are pulled round by round
 until the oldest merged page can no longer change.

 The upstream is a fixed chain. Every address lists its own transactions oldest first, and a
 transaction carries the same position in every listing that names it.
 */
module BlockfrostHistory {
  import opened Common
  import opened History

  const LIST_PAGE_SIZE: nat := 100
  const LIST_MAX_PAGES: nat := 200

  /** One thin address-transaction row: the transaction and its index within its block. */
  datatype Row = Row(tx: Tx, index: nat)

  /** What Blockfrost holds for an address; a never-seen address answers 404. */
  datatype Listing = NeverSeen | Seen(rows: seq<Row>)

  predicate Precedes(a: Row, b: Row) {
    a.tx.height < b.tx.height || (a.tx.height == b.tx.height && a.index < b.index)
  }

  predicate Ascending(rows: seq<Row>) {
    forall i, j :: 0 <= i < j < |rows| ==> Precedes(rows[i], rows[j])
  }

  /** A hash and a position name the same row wherever either of them appears. */
  ghost predicate Consistent(rows: set<Row>) {
    forall a, b :: a in rows && b in rows ==>
      (a.tx.hash == b.tx.hash <==> a.tx.height == b.tx.height && a.index == b.index)
  }

  function Listed(listing: Listing): seq<Row> {
    match listing
    case NeverSeen => []
    case Seen(rows) => rows
  }

  function Txs(rows: seq<Row>): (txs: seq<Tx>)
    ensures |txs| == |rows|
    ensures forall k :: 0 <= k < |rows| ==> txs[k] == rows[k].tx
  {
    seq(|rows|, k requires 0 <= k < |rows| => rows[k].tx)
  }

  // ----- the rows a request returns -----

  predicate IsFrom(row: Row, after: Option<int>) {
    after.None? || row.tx.height >= after.value
  }

  predicate IsAfter(row: Row, after: Option<int>) {
    after.None? || row.tx.height > after.value
  }

  /** The rows the inclusive `from` bound leaves of the first `n`. */
  function FromBound(rows: seq<Row>, n: nat, after: Option<int>): seq<Row>
    requires n <= |rows|
  {
    if n == 0 then []
    else FromBound(rows, n - 1, after) + if IsFrom(rows[n - 1], after) then [rows[n - 1]] else []
  }

  /** Those of the first `n` rows strictly past the cursor, the cut applied as rows arrive. */
  function Kept(rows: seq<Row>, n: nat, after: Option<int>): seq<Row>
    requires n <= |rows|
  {
    if n == 0 then []
    else Kept(rows, n - 1, after) + if IsAfter(rows[n - 1], after) then [rows[n - 1]] else []
  }

  /** The rows Blockfrost pages through for one address. */
  function Bounded(listing: Listing, after: Option<int>): seq<Row> {
    FromBound(Listed(listing), |Listed(listing)|, after)
  }

  /** How many rows the first `pages` pages hold. */
  function Fetched(listing: Listing, pages: nat, after: Option<int>): (n: nat)
    ensures n <= |Bounded(listing, after)|
  {
    Min(pages * LIST_PAGE_SIZE, |Bounded(listing, after)|)
  }

  /** Page `page` (1-based) of a listing under the `from` bound, or `None` for a 404. */
  function FetchPage(listing: Listing, page: nat, after: Option<int>): (rows: Option<seq<Row>>)
    requires page > 0
  {
    if listing.NeverSeen? then None
    else Some(Bounded(listing, after)[Fetched(listing, page - 1, after)..Fetched(listing, page, after)])
  }

  /** A full page is followed by the next; a short one means everything has been fetched. */
  lemma NextFetch(listing: Listing, page: nat, after: Option<int>)
    requires Fetched(listing, page, after) == page * LIST_PAGE_SIZE
    ensures Fetched(listing, page, after) <= Fetched(listing, page + 1, after)
    ensures var n := Fetched(listing, page + 1, after) - Fetched(listing, page, after);
            if n == LIST_PAGE_SIZE then Fetched(listing, page + 1, after) == (page + 1) * LIST_PAGE_SIZE
            else n < LIST_PAGE_SIZE && Fetched(listing, page + 1, after) == |Bounded(listing, after)|
  {
  }

  // ----- one address's paging state -----

  class AddressCursor {
    const listing: Listing
    var page: nat
    var rows: seq<Row>
    var full: bool
    var done: bool

    ghost predicate Valid(after: Option<int>)
      reads this
    {
      && rows == Kept(Bounded(listing, after), Fetched(listing, page, after), after)
      && page <= LIST_MAX_PAGES
      && (page == 0 ==> !full && !done)
      && (full ==> page > 0 && Fetched(listing, page, after) == page * LIST_PAGE_SIZE && (done <==> page == LIST_MAX_PAGES))
      && (page > 0 && !full ==> done && Fetched(listing, page, after) == |Bounded(listing, after)|)
    }

    constructor (listing: Listing, ghost after: Option<int>)
      ensures Valid(after) && this.listing == listing && page == 0
    {
      this.listing := listing;
      page, rows, full, done := 0, [], false, false;
    }

    /** Fetch one more page and fold its rows past the cursor into the accumulated ones. */
    method Advance(after: Option<int>)
      requires Valid(after)
      modifies this
      ensures Valid(after)
      ensures old(done) ==> page == old(page) && full == old(full) && done && rows == old(rows)
      ensures !old(done) ==> page == old(page) + 1
    {
      if done {
        return;
      }
      NextFetch(listing, page, after);
      page := page + 1;
      var fetched := FetchPage(listing, page, after);
      if fetched.None? {
        done := true;
        return;
      }
      TakeIn(fetched.value, after, page - 1);
    }

    /** Fold in the page after the first `before`, and note whether another may follow. */
    method TakeIn(pageRows: seq<Row>, after: Option<int>, ghost before: nat)
      requires !done && page == before + 1 <= LIST_MAX_PAGES
      requires rows == Kept(Bounded(listing, after), Fetched(listing, before, after), after)
      requires Fetched(listing, before, after) <= Fetched(listing, page, after)
      requires pageRows == Bounded(listing, after)[Fetched(listing, before, after)..Fetched(listing, page, after)]
      requires if |pageRows| == LIST_PAGE_SIZE then Fetched(listing, page, after) == page * LIST_PAGE_SIZE
               else Fetched(listing, page, after) == |Bounded(listing, after)|
      modifies this`rows, this`full, this`done
      ensures Valid(after)
    {
      Append(pageRows, after, Bounded(listing, after), Fetched(listing, before, after));
      full := |pageRows| == LIST_PAGE_SIZE;
      if !full {
        done := true;
      }
      if page >= LIST_MAX_PAGES {
        done := true;
      }
    }

    /** Keep the rows of a page, which starts at place `at` of the bounded listing. */
    method Append(pageRows: seq<Row>, after: Option<int>, ghost bounded: seq<Row>, ghost at: nat)
      requires at + |pageRows| <= |bounded| && bounded[at..at + |pageRows|] == pageRows
      requires rows == Kept(bounded, at, after)
      modifies this`rows
      ensures rows == Kept(bounded, at + |pageRows|, after)
    {
      for k := 0 to |pageRows|
        invariant rows == Kept(bounded, at + k, after)
      {
        assert bounded[at + k] == bounded[at..at + |pageRows|][k];
        if IsAfter(pageRows[k], after) {
          rows := rows + [pageRows[k]];
        }
      }
    }
  }

  // ----- merging what has been read into the oldest page -----

  ghost function RowSet(rows: seq<Row>): set<Row> {
    set r | r in rows
  }

  ghost function TxsOf(rows: set<Row>): set<Tx> {
    set r | r in rows :: r.tx
  }

  function Hashes(rows: seq<Row>): set<string> {
    set r | r in rows :: r.tx.hash
  }

  /** The first row of every hash among the first `n`, in first-seen order. */
  function FirstByHash(rows: seq<Row>, n: nat): (first: seq<Row>)
    requires n <= |rows|
    ensures forall r :: r in first ==> r in rows
  {
    if n == 0 then []
    else
      var first, row := FirstByHash(rows, n - 1), rows[n - 1];
      if row.tx.hash in Hashes(first) then first else first + [row]
  }

  lemma {:induction false} FirstByHashFacts(rows: seq<Row>, n: nat)
    requires n <= |rows|
    ensures Distinct(HashSeq(FirstByHash(rows, n)))
    ensures forall k :: 0 <= k < n ==> rows[k].tx.hash in Hashes(FirstByHash(rows, n))
  {
    if n > 0 {
      FirstByHashFacts(rows, n - 1);
      var first, row := FirstByHash(rows, n - 1), rows[n - 1];
      HashesSnoc(first, row);
      forall k | 0 <= k < |first| && row.tx.hash !in Hashes(first) ensures first[k].tx.hash != row.tx.hash {
        assert first[k] in first;
      }
    }
  }

  function HashSeq(rows: seq<Row>): (hashes: seq<string>)
    ensures |hashes| == |rows|
    ensures forall k :: 0 <= k < |rows| ==> hashes[k] == rows[k].tx.hash
  {
    seq(|rows|, k requires 0 <= k < |rows| => rows[k].tx.hash)
  }

  lemma HashesSnoc(rows: seq<Row>, row: Row)
    ensures Hashes(rows + [row]) == Hashes(rows) + {row.tx.hash}
  {
    assert forall r :: r in rows + [row] <==> r in rows || r == row;
  }

  /** One step of the library's stable sort: `row` goes after everything that does not follow it. */
  function InsertRow(sorted: seq<Row>, row: Row): (r: seq<Row>)
    ensures |r| == |sorted| + 1
    ensures forall x :: x in r <==> x in sorted || x == row
  {
    if sorted == [] then [row]
    else
      var front, last := sorted[..|sorted| - 1], sorted[|sorted| - 1];
      assert sorted == front + [last];
      if Precedes(row, last) then InsertRow(front, row) + [last] else sorted + [row]
  }

  /** The first `n` rows, sorted. */
  function SortRows(rows: seq<Row>, n: nat): (sorted: seq<Row>)
    requires n <= |rows|
    ensures |sorted| == n
  {
    if n == 0 then [] else InsertRow(SortRows(rows, n - 1), rows[n - 1])
  }

  predicate Apart(a: Row, b: Row) {
    Precedes(a, b) || Precedes(b, a)
  }

  lemma {:induction false} InsertAscends(sorted: seq<Row>, row: Row)
    requires Ascending(sorted) && forall x :: x in sorted ==> Apart(x, row)
    ensures Ascending(InsertRow(sorted, row))
  {
    if sorted != [] {
      var front, last := sorted[..|sorted| - 1], sorted[|sorted| - 1];
      if Precedes(row, last) {
        InsertAscends(front, row);
        var inner := InsertRow(front, row);
        forall k | 0 <= k < |inner| ensures Precedes(inner[k], last) {
          assert inner[k] in front || inner[k] == row;
        }
      } else {
        assert Apart(last, row);
      }
    }
  }

  lemma {:induction false} SortAscends(rows: seq<Row>, n: nat)
    requires n <= |rows|
    requires forall i, j :: 0 <= i < j < |rows| ==> Apart(rows[i], rows[j])
    ensures Ascending(SortRows(rows, n))
    ensures forall x :: x in SortRows(rows, n) <==> exists k :: 0 <= k < n && rows[k] == x
  {
    if n > 0 {
      SortAscends(rows, n - 1);
      InsertAscends(SortRows(rows, n - 1), rows[n - 1]);
    }
  }

  /** The cut of sorted rows past their boundary block. */
  function Cut(sorted: seq<Row>): seq<Row> {
    sorted[..PageEnd(Txs(sorted))]
  }

  function Sorted(rows: seq<Row>): seq<Row> {
    var first := FirstByHash(rows, |rows|);
    SortRows(first, |first|)
  }

  /** The oldest page of some rows: deduplicated, sorted by position, cut past the boundary block. */
  function PageOf(rows: seq<Row>): seq<Row> {
    Cut(Sorted(rows))
  }

  /** Under a consistent upstream, deduplicating loses no row and sorting has no ties. */
  lemma SortedRows(rows: seq<Row>)
    requires Consistent(RowSet(rows))
    ensures Ascending(Sorted(rows)) && RowSet(Sorted(rows)) == RowSet(rows)
    ensures Sorted(rows) == [] <==> rows == []
  {
    var first := FirstByHash(rows, |rows|);
    FirstByHashFacts(rows, |rows|);
    forall r | r in rows ensures r in first {
      var x :| x in first && x.tx.hash == r.tx.hash;
      assert x in RowSet(rows) && r in RowSet(rows);
    }
    forall i, j | 0 <= i < j < |first| ensures Apart(first[i], first[j]) {
      assert HashSeq(first)[i] != HashSeq(first)[j];
      assert first[i] in RowSet(rows) && first[j] in RowSet(rows);
    }
    SortAscends(first, |first|);
    assert rows != [] ==> rows[0] in first;
    assert first != [] ==> first[0] in rows;
  }

  lemma AscendingTxs(rows: seq<Row>)
    requires Ascending(rows) && Consistent(RowSet(rows))
    ensures HeightsAscend(Txs(rows)) && Distinct(Txs(rows))
    ensures TxSet(Txs(rows)) == TxsOf(RowSet(rows))
  {
    var txs := Txs(rows);
    forall i, j | 0 <= i < j < |txs| ensures txs[i] != txs[j] && txs[i].height <= txs[j].height {
      assert rows[i] in RowSet(rows) && rows[j] in RowSet(rows);
      assert Precedes(rows[i], rows[j]);
    }
    forall t ensures t in TxSet(txs) <==> t in TxsOf(RowSet(rows)) {
      if t in TxSet(txs) {
        var k :| 0 <= k < |txs| && txs[k] == t;
        assert rows[k] in RowSet(rows);
      }
      if t in TxsOf(RowSet(rows)) {
        var r :| r in RowSet(rows) && r.tx == t;
        var k :| 0 <= k < |rows| && rows[k] == r;
        assert txs[k] == t;
      }
    }
  }

  /** Over a consistent upstream the merged page is the page of the contract. */
  lemma PageOfIsPage(rows: seq<Row>)
    requires Consistent(RowSet(rows))
    ensures Ascending(PageOf(rows)) && RowSet(PageOf(rows)) <= RowSet(rows)
    ensures IsPageUpTo(TxsOf(RowSet(rows)), TxSet(Txs(PageOf(rows))), BoundaryOf(Txs(PageOf(rows))))
  {
    SortedRows(rows);
    var sorted := Sorted(rows);
    AscendingTxs(sorted);
    CutIsPage(Txs(sorted));
    assert Txs(Cut(sorted)) == FirstPage(Txs(sorted));
  }

  /** The rows of the first `n` cursors, in their order. */
  ghost function Gathered(cursors: seq<AddressCursor>, n: nat): seq<Row>
    requires n <= |cursors|
    reads cursors
  {
    if n == 0 then [] else Gathered(cursors, n - 1) + cursors[n - 1].rows
  }

  ghost function PageRead(cursors: seq<AddressCursor>): seq<Row>
    reads cursors
  {
    PageOf(Gathered(cursors, |cursors|))
  }

  lemma {:induction false} GatheredPrefix(cursors: seq<AddressCursor>, m: nat, n: nat)
    requires m <= n <= |cursors|
    ensures Gathered(cursors, m) <= Gathered(cursors, n)
  {
    if m < n {
      GatheredPrefix(cursors, m, n - 1);
    }
  }

  lemma GatheredSlice(cursors: seq<AddressCursor>, c: nat)
    requires c < |cursors|
    ensures var all, at, rows := Gathered(cursors, |cursors|), |Gathered(cursors, c)|, cursors[c].rows;
            && |Gathered(cursors, c + 1)| == at + |rows| <= |all|
            && all[at..at + |rows|] == rows
  {
    GatheredPrefix(cursors, c + 1, |cursors|);
  }

  /** Merge every cursor's rows into the oldest page, with its boundary block. */
  method MergePage(cursors: seq<AddressCursor>) returns (page: seq<Row>, boundary: Option<int>)
    ensures page == PageRead(cursors) && boundary == BoundaryOf(Txs(page))
  {
    ghost var all := Gathered(cursors, |cursors|);
    // The insertion-ordered map, kept as its values.
    var byHash: seq<Row> := [];
    for c := 0 to |cursors|
      invariant |Gathered(cursors, c)| <= |all| && byHash == FirstByHash(all, |Gathered(cursors, c)|)
    {
      GatheredSlice(cursors, c);
      byHash := Enter(cursors[c].rows, all, |Gathered(cursors, c)|, byHash);
    }
    page, boundary := CutSorted(SortRows(byHash, |byHash|));
  }

  /** Enter one cursor's rows, found from place `at` on in all the rows read. */
  method Enter(rows: seq<Row>, ghost all: seq<Row>, ghost at: nat, values: seq<Row>) returns (values': seq<Row>)
    requires at + |rows| <= |all| && all[at..at + |rows|] == rows
    requires values == FirstByHash(all, at)
    ensures values' == FirstByHash(all, at + |rows|)
  {
    values' := values;
    for k := 0 to |rows|
      invariant values' == FirstByHash(all, at + k)
    {
      assert all[at + k] == all[at..at + |rows|][k];
      if rows[k].tx.hash !in Hashes(values') {
        values' := values' + [rows[k]];
      }
    }
  }

  method CutSorted(sorted: seq<Row>) returns (page: seq<Row>, boundary: Option<int>)
    ensures page == Cut(sorted) && boundary == BoundaryOf(Txs(page))
  {
    if |sorted| == 0 {
      return [], None;
    }
    var end;
    end, boundary := CutPage(Txs(sorted));
    page := sorted[..end];
    assert Txs(page) == FirstPage(Txs(sorted));
  }

  // ----- the settle loop -----

  /** What the walk can read of one address: its rows past the cursor, within the page cap. */
  ghost function Readable(listing: Listing, after: Option<int>): seq<Row> {
    Kept(Bounded(listing, after), Min(20_000, |Bounded(listing, after)|), after)
  }

  ghost function ReadableRows(listings: seq<Listing>, after: Option<int>): set<Row> {
    set i, r | 0 <= i < |listings| && r in Readable(listings[i], after) :: r
  }

  /** Every row of the listings. */
  ghost function ListedRows(listings: seq<Listing>): set<Row> {
    set i, r | 0 <= i < |listings| && r in Listed(listings[i]) :: r
  }

  /** The upstream's own promise: ascending listings that agree on positions. */
  ghost predicate Chain(listings: seq<Listing>) {
    && (forall i :: 0 <= i < |listings| ==> Ascending(Listed(listings[i])))
    && Consistent(ListedRows(listings))
  }

  lemma {:induction false} FromBoundFacts(rows: seq<Row>, n: nat, after: Option<int>)
    requires n <= |rows|
    ensures forall r :: r in FromBound(rows, n, after) <==> IsFrom(r, after) && r in rows[..n]
    ensures Ascending(rows) ==> Ascending(FromBound(rows, n, after))
  {
    if n > 0 {
      FromBoundFacts(rows, n - 1, after);
      assert rows[..n] == rows[..n - 1] + [rows[n - 1]];
      BeforeLast(rows, n, FromBound(rows, n - 1, after));
    }
  }

  lemma {:induction false} KeptFacts(rows: seq<Row>, n: nat, after: Option<int>)
    requires n <= |rows|
    ensures forall r :: r in Kept(rows, n, after) <==> IsAfter(r, after) && r in rows[..n]
    ensures Ascending(rows) ==> Ascending(Kept(rows, n, after))
  {
    if n > 0 {
      KeptFacts(rows, n - 1, after);
      assert rows[..n] == rows[..n - 1] + [rows[n - 1]];
      BeforeLast(rows, n, Kept(rows, n - 1, after));
    }
  }

  lemma BeforeLast(rows: seq<Row>, n: nat, some: seq<Row>)
    requires 0 < n <= |rows| && forall r :: r in some ==> r in rows[..n - 1]
    ensures Ascending(rows) ==> forall k :: 0 <= k < |some| ==> Precedes(some[k], rows[n - 1])
  {
    forall k | 0 <= k < |some| && Ascending(rows) ensures Precedes(some[k], rows[n - 1]) {
      assert some[k] in some;
      var j :| 0 <= j < n - 1 && rows[..n - 1][j] == some[k];
    }
  }

  lemma {:induction false} KeptPrefix(rows: seq<Row>, m: nat, n: nat, after: Option<int>)
    requires m <= n <= |rows|
    ensures Kept(rows, m, after) <= Kept(rows, n, after)
  {
    if m < n {
      KeptPrefix(rows, m, n - 1, after);
    }
  }

  lemma ReadableOfOne(listing: Listing, after: Option<int>)
    ensures forall r :: r in Readable(listing, after) ==> r in Listed(listing) && IsAfter(r, after)
    ensures Ascending(Listed(listing)) ==> Ascending(Readable(listing, after))
    ensures |Bounded(listing, after)| <= LIST_MAX_PAGES * LIST_PAGE_SIZE ==>
              forall r :: r in Listed(listing) && IsAfter(r, after) ==> r in Readable(listing, after)
  {
    var rows := Listed(listing);
    var bounded, n := Bounded(listing, after), Fetched(listing, LIST_MAX_PAGES, after);
    FromBoundFacts(rows, |rows|, after);
    KeptFacts(bounded, n, after);
    assert rows[..|rows|] == rows;
    assert n == |bounded| ==> bounded[..n] == bounded;
    assert forall r :: r in bounded[..n] ==> r in bounded;
  }

  lemma ReadableFacts(listings: seq<Listing>, after: Option<int>)
    ensures ReadableRows(listings, after) <= ListedRows(listings)
    ensures forall i :: 0 <= i < |listings| && Ascending(Listed(listings[i])) ==> Ascending(Readable(listings[i], after))
  {
    forall i | 0 <= i < |listings| {
      ReadableOfOne(listings[i], after);
    }
  }

  /** Whether an address has contributed all it can, or enough to know the rest is newer. */
  ghost predicate ReadEnough(read: seq<Row>, whole: seq<Row>, boundary: Option<int>) {
    && read <= whole
    && (|| read == whole
        || (boundary.Some? && read != [] && read[|read| - 1].tx.height > boundary.value))
  }

  /** Rows an address has not contributed yet are no older than the last one it has. */
  lemma UnreadIsNewer(read: seq<Row>, whole: seq<Row>, r: Row)
    requires read <= whole && Ascending(whole) && read != []
    requires r in whole && r !in read
    ensures r.tx.height >= read[|read| - 1].tx.height
  {
    var k :| 0 <= k < |whole| && whole[k] == r;
    forall j | 0 <= j < |read| ensures whole[j] != r {
      assert read[j] in read;
    }
    assert Precedes(whole[|read| - 1], whole[k]);
  }

  lemma {:induction false} InGathered(cursors: seq<AddressCursor>, n: nat)
    requires n <= |cursors|
    ensures forall i, r :: 0 <= i < n && r in cursors[i].rows ==> r in Gathered(cursors, n)
    ensures forall r :: r in Gathered(cursors, n) ==> exists i :: 0 <= i < n && r in cursors[i].rows
  {
    if n > 0 {
      InGathered(cursors, n - 1);
    }
  }

  /** Once no address can still hold part of the boundary block, the merged page is final. */
  lemma SettledIsFinal(rows: seq<Row>, whole: set<Row>)
    requires RowSet(rows) <= whole && Consistent(whole)
    requires forall r :: r in whole && r !in rows ==>
               && BoundaryOf(Txs(PageOf(rows))).Some? && r.tx.height > BoundaryOf(Txs(PageOf(rows))).value
               && exists x :: x in rows && x.tx.height > BoundaryOf(Txs(PageOf(rows))).value
    ensures IsPage(TxsOf(whole), TxSet(Txs(PageOf(rows))))
  {
    PageOfIsPage(rows);
    var some, all := TxsOf(RowSet(rows)), TxsOf(whole);
    if forall r :: r in whole ==> r in rows {
      assert RowSet(rows) == whole;
    } else {
      forall t | t in all - some ensures t.height > BoundaryOf(Txs(PageOf(rows))).value {
        var r :| r in whole && r.tx == t;
        assert r !in RowSet(rows);
      }
      var x :| x in rows && x.tx.height > BoundaryOf(Txs(PageOf(rows))).value;
      assert x.tx in some && x.tx !in TxSet(Txs(PageOf(rows)));
      SettledPage(some, all, TxSet(Txs(PageOf(rows))), BoundaryOf(Txs(PageOf(rows))).value);
    }
  }

  ghost predicate Tracks(cursors: seq<AddressCursor>, listings: seq<Listing>, after: Option<int>)
    reads cursors
  {
    && |cursors| == |listings|
    && Distinct(cursors)
    && forall i :: 0 <= i < |cursors| ==> cursors[i].listing == listings[i] && cursors[i].Valid(after)
  }

  ghost function Pages(cursors: seq<AddressCursor>, n: nat): (pages: seq<nat>)
    requires n <= |cursors|
    reads cursors
    ensures |pages| == n && forall i :: 0 <= i < n ==> pages[i] == cursors[i].page
  {
    if n == 0 then [] else Pages(cursors, n - 1) + [cursors[n - 1].page]
  }

  /** Pages the cap still allows, over the first `n` addresses. */
  ghost function PagesLeft(pages: seq<nat>, n: nat): int
    requires n <= |pages|
  {
    if n == 0 then 0 else PagesLeft(pages, n - 1) + LIST_MAX_PAGES - pages[n - 1]
  }

  ghost function AllPagesLeft(cursors: seq<AddressCursor>): int
    reads cursors
  {
    PagesLeft(Pages(cursors, |cursors|), |cursors|)
  }

  lemma {:induction false} PagesLeftNonNegative(pages: seq<nat>, n: nat)
    requires n <= |pages| && forall i :: 0 <= i < n ==> pages[i] <= LIST_MAX_PAGES
    ensures PagesLeft(pages, n) >= 0
  {
    if n > 0 {
      PagesLeftNonNegative(pages, n - 1);
    }
  }

  lemma {:induction false} PagesLeftDrops(was: seq<nat>, now: seq<nat>, n: nat, moved: nat)
    requires n <= |was| == |now|
    requires forall i :: 0 <= i < n ==> was[i] <= now[i]
    ensures PagesLeft(now, n) <= PagesLeft(was, n)
    ensures moved < n && was[moved] < now[moved] ==> PagesLeft(now, n) < PagesLeft(was, n)
  {
    if n > 0 {
      PagesLeftDrops(was, now, n - 1, moved);
    }
  }

  /** Whether an address might still hold transactions of the page the merge just produced. */
  predicate NeedsPage(cursor: AddressCursor, boundary: Option<int>)
    reads cursor
  {
    if cursor.done || !cursor.full then false
    else if boundary.None? || cursor.rows == [] then true
    else cursor.rows[|cursor.rows| - 1].tx.height <= boundary.value
  }

  /** The cursors at the places from the `k`-th on have not read everything. */
  ghost predicate Unread(cursors: seq<AddressCursor>, places: seq<nat>, k: nat)
    reads cursors
  {
    forall j :: k <= j < |places| ==> places[j] < |cursors| && !cursors[places[j]].done
  }

  /** Since `was`, each cursor at one of the places has read one page, and no other has. */
  ghost predicate ReadOneAt(cursors: seq<AddressCursor>, was: seq<nat>, places: seq<nat>)
    reads cursors
  {
    |was| == |cursors| && forall i :: 0 <= i < |cursors| ==> cursors[i].page == was[i] + if i in places then 1 else 0
  }

  /** Advance the cursor at the `k`-th place; nothing else moves. */
  method AdvanceOne(cursors: seq<AddressCursor>, places: seq<nat>, k: nat, ghost was: seq<nat>,
                    ghost listings: seq<Listing>, after: Option<int>)
    requires Tracks(cursors, listings, after) && Distinct(places)
    requires k < |places| && Unread(cursors, places, k) && ReadOneAt(cursors, was, places[..k])
    modifies cursors[places[k]]
    ensures Tracks(cursors, listings, after)
    ensures Unread(cursors, places, k + 1) && ReadOneAt(cursors, was, places[..k + 1])
  {
    var at := places[k];
    assert at !in places[..k];
    assert forall i :: i in places[..k + 1] <==> i in places[..k] || i == at;
    cursors[at].Advance(after);
  }

  /**
   Advance the cursors at the given places. Every request touches its own cursor only, so the
   state it leaves does not depend on how the pool schedules them.
   */
  method AdvanceAll(cursors: seq<AddressCursor>, places: seq<nat>, ghost listings: seq<Listing>, after: Option<int>)
    requires Tracks(cursors, listings, after) && Distinct(places) && Unread(cursors, places, 0)
    modifies cursors
    ensures Tracks(cursors, listings, after)
    ensures ReadOneAt(cursors, old(Pages(cursors, |cursors|)), places)
  {
    ghost var was := Pages(cursors, |cursors|);
    for k := 0 to |places|
      invariant Tracks(cursors, listings, after)
      invariant Unread(cursors, places, k) && ReadOneAt(cursors, was, places[..k])
    {
      AdvanceOne(cursors, places, k, was, listings, after);
    }
    assert places[..|places|] == places;
  }

  method NewCursors(listings: seq<Listing>, ghost after: Option<int>) returns (cursors: seq<AddressCursor>)
    ensures Tracks(cursors, listings, after)
    ensures forall i :: 0 <= i < |cursors| ==> fresh(cursors[i]) && cursors[i].page == 0
  {
    cursors := [];
    for i := 0 to |listings|
      invariant |cursors| == i && Distinct(cursors)
      invariant forall k :: 0 <= k < i ==> fresh(cursors[k]) && cursors[k].page == 0
      invariant forall k :: 0 <= k < i ==> cursors[k].listing == listings[k] && cursors[k].Valid(after)
    {
      var cursor := new AddressCursor(listings[i], after);
      cursors := cursors + [cursor];
    }
  }

  /** The places of the cursors that still need a page. */
  method Needing(cursors: seq<AddressCursor>, boundary: Option<int>) returns (places: seq<nat>)
    ensures Distinct(places)
    ensures forall k :: 0 <= k < |places| ==> places[k] < |cursors| && NeedsPage(cursors[places[k]], boundary)
    ensures forall i :: 0 <= i < |cursors| && i !in places ==> !NeedsPage(cursors[i], boundary)
  {
    places := [];
    for i := 0 to |cursors|
      invariant Distinct(places)
      invariant forall k :: 0 <= k < |places| ==> places[k] < i && NeedsPage(cursors[places[k]], boundary)
      invariant forall j :: 0 <= j < i && j !in places ==> !NeedsPage(cursors[j], boundary)
    {
      if NeedsPage(cursors[i], boundary) {
        places := places + [i];
      }
    }
  }

  /** The first page of every address. */
  method FirstRound(cursors: seq<AddressCursor>, ghost listings: seq<Listing>, after: Option<int>)
    requires Tracks(cursors, listings, after)
    requires forall i :: 0 <= i < |cursors| ==> cursors[i].page == 0
    modifies cursors
    ensures Tracks(cursors, listings, after)
    ensures forall i :: 0 <= i < |cursors| ==> cursors[i].page == 1
  {
    var everyone: seq<nat> := [];
    for i := 0 to |cursors|
      invariant |everyone| == i && forall k :: 0 <= k < i ==> everyone[k] == k && k in everyone
    {
      everyone := everyone + [i];
    }
    AdvanceAll(cursors, everyone, listings, after);
  }

  /** One round spends pages the cap still allowed. */
  method Round(cursors: seq<AddressCursor>, places: seq<nat>, ghost listings: seq<Listing>, after: Option<int>)
    requires Tracks(cursors, listings, after) && Distinct(places) && |places| > 0
    requires forall k :: 0 <= k < |places| ==> places[k] < |cursors| && !cursors[places[k]].done
    modifies cursors
    ensures Tracks(cursors, listings, after)
    ensures forall i :: 0 <= i < |cursors| ==> cursors[i].page >= old(cursors[i].page)
    ensures AllPagesLeft(cursors) < old(AllPagesLeft(cursors))
  {
    ghost var was := Pages(cursors, |cursors|);
    AdvanceAll(cursors, places, listings, after);
    PagesLeftDrops(was, Pages(cursors, |cursors|), |cursors|, places[0]);
  }

  lemma PagesRemain(cursors: seq<AddressCursor>, listings: seq<Listing>, after: Option<int>)
    requires Tracks(cursors, listings, after)
    ensures AllPagesLeft(cursors) >= 0
  {
    PagesLeftNonNegative(Pages(cursors, |cursors|), |cursors|);
  }

  /** Merge what is there; if some address may still hold part of that page, pull its next page. */
  method MergeOrPull(cursors: seq<AddressCursor>, ghost listings: seq<Listing>, after: Option<int>)
    returns (settled: bool, boundary: Option<int>)
    requires Tracks(cursors, listings, after)
    requires forall i :: 0 <= i < |cursors| ==> cursors[i].page > 0
    modifies cursors
    ensures Tracks(cursors, listings, after)
    ensures forall i :: 0 <= i < |cursors| ==> cursors[i].page > 0
    ensures !settled ==> AllPagesLeft(cursors) < old(AllPagesLeft(cursors))
    ensures settled ==> boundary == BoundaryOf(Txs(PageRead(cursors)))
    ensures settled ==> forall i :: 0 <= i < |cursors| ==> !NeedsPage(cursors[i], boundary)
  {
    var page;
    page, boundary := MergePage(cursors);
    var places := Needing(cursors, boundary);
    settled := |places| == 0;
    if !settled {
      Round(cursors, places, listings, after);
    }
  }

  /** Pull pages, round by round, until no address can still hold part of the oldest page. */
  method Settle(cursors: seq<AddressCursor>, ghost listings: seq<Listing>, after: Option<int>)
    returns (boundary: Option<int>)
    requires Tracks(cursors, listings, after)
    requires forall i :: 0 <= i < |cursors| ==> cursors[i].page > 0
    modifies cursors
    ensures Tracks(cursors, listings, after)
    ensures boundary == BoundaryOf(Txs(PageRead(cursors)))
    ensures forall i :: 0 <= i < |cursors| ==> cursors[i].page > 0 && !NeedsPage(cursors[i], boundary)
  {
    while true
      invariant Tracks(cursors, listings, after)
      invariant forall i :: 0 <= i < |cursors| ==> cursors[i].page > 0
      decreases AllPagesLeft(cursors)
    {
      PagesRemain(cursors, listings, after);
      var settled;
      settled, boundary := MergeOrPull(cursors, listings, after);
      if settled {
        return;
      }
    }
  }

  /**
   The oldest page of the history of a set of addresses. It terminates because every round spends
   pages the cap still allows, and answers the page of everything readable within that cap.
   */
  method AddressSetTxHistory(listings: seq<Listing>, after: Option<int>) returns (page: seq<Row>)
    ensures Chain(listings) ==> Ascending(page) && RowSet(page) <= ReadableRows(listings, after)
    ensures Chain(listings) ==> forall i, j :: 0 <= i < j < |page| ==>
              page[i].tx.height < page[j].tx.height || (page[i].tx.height == page[j].tx.height && page[i].index < page[j].index)
    ensures Chain(listings) ==> IsPage(TxsOf(ReadableRows(listings, after)), TxSet(Txs(page)))
  {
    if |listings| == 0 {
      return [];
    }
    var cursors := NewCursors(listings, after);
    FirstRound(cursors, listings, after);
    var boundary := Settle(cursors, listings, after);
    if Chain(listings) {
      SettledCursors(cursors, listings, after, boundary);
    }
    page, boundary := MergePage(cursors);
  }

  /** A cursor that needs no page has read all it can, or is past the boundary block. */
  lemma CursorIsSettled(cursor: AddressCursor, after: Option<int>, boundary: Option<int>)
    requires cursor.Valid(after) && cursor.page > 0 && !NeedsPage(cursor, boundary)
    ensures ReadEnough(cursor.rows, Readable(cursor.listing, after), boundary)
  {
    KeptPrefix(Bounded(cursor.listing, after), Fetched(cursor.listing, cursor.page, after),
               Fetched(cursor.listing, LIST_MAX_PAGES, after), after);
  }

  lemma SettledCursors(cursors: seq<AddressCursor>, listings: seq<Listing>, after: Option<int>, boundary: Option<int>)
    requires Chain(listings) && Tracks(cursors, listings, after)
    requires boundary == BoundaryOf(Txs(PageRead(cursors)))
    requires forall i :: 0 <= i < |cursors| ==> cursors[i].page > 0 && !NeedsPage(cursors[i], boundary)
    ensures Ascending(PageRead(cursors)) && RowSet(PageRead(cursors)) <= ReadableRows(listings, after)
    ensures IsPage(TxsOf(ReadableRows(listings, after)), TxSet(Txs(PageRead(cursors))))
  {
    var rows, whole := Gathered(cursors, |cursors|), ReadableRows(listings, after);
    ReadableFacts(listings, after);
    GatheredEnough(cursors, listings, after, boundary);
    PageOfIsPage(rows);
    SettledIsFinal(rows, whole);
  }

  lemma GatheredEnough(cursors: seq<AddressCursor>, listings: seq<Listing>, after: Option<int>, boundary: Option<int>)
    requires Chain(listings) && Tracks(cursors, listings, after)
    requires forall i :: 0 <= i < |cursors| ==> cursors[i].page > 0 && !NeedsPage(cursors[i], boundary)
    ensures RowSet(Gathered(cursors, |cursors|)) <= ReadableRows(listings, after)
    ensures forall r :: r in ReadableRows(listings, after) && r !in Gathered(cursors, |cursors|) ==>
              && boundary.Some? && r.tx.height > boundary.value
              && exists x :: x in Gathered(cursors, |cursors|) && x.tx.height > boundary.value
  {
    var rows, whole := Gathered(cursors, |cursors|), ReadableRows(listings, after);
    InGathered(cursors, |cursors|);
    forall i | 0 <= i < |cursors| ensures ReadEnough(cursors[i].rows, Readable(listings[i], after), boundary) {
      CursorIsSettled(cursors[i], after, boundary);
    }
    ReadableFacts(listings, after);
    forall r | r in rows ensures r in whole {
      var i :| 0 <= i < |cursors| && r in cursors[i].rows;
      assert r in Readable(listings[i], after);
    }
    forall r | r in whole && r !in rows
      ensures boundary.Some? && r.tx.height > boundary.value
      ensures exists x :: x in rows && x.tx.height > boundary.value
    {
      var i :| 0 <= i < |listings| && r in Readable(listings[i], after);
      UnreadIsPast(cursors[i].rows, Readable(listings[i], after), boundary, r);
      assert cursors[i].rows[|cursors[i].rows| - 1] in rows;
    }
  }

  lemma UnreadIsPast(read: seq<Row>, whole: seq<Row>, boundary: Option<int>, r: Row)
    requires ReadEnough(read, whole, boundary) && Ascending(whole)
    requires r in whole && r !in read
    ensures boundary.Some? && r.tx.height > boundary.value
    ensures read != [] && read[|read| - 1].tx.height > boundary.value
  {
    UnreadIsNewer(read, whole, r);
  }

  // ----- the page cap -----

  /** Every transaction past the cursor: what the page is promised to be the oldest part of. */
  ghost function CompleteTxs(listings: seq<Listing>, after: Option<int>): set<Tx> {
    After(TxsOf(ListedRows(listings)), after)
  }

  /** No address has rows beyond the last page a cursor may ask for. */
  predicate WithinCap(listings: seq<Listing>, after: Option<int>) {
    forall i :: 0 <= i < |listings| ==>
      |Bounded(listings[i], after)| <= 20_000
  }

  /** A later cursor leaves fewer rows to page through. */
  lemma WithinCapStays(listings: seq<Listing>, after: Option<int>)
    requires WithinCap(listings, None)
    ensures WithinCap(listings, after)
  {
    forall i | 0 <= i < |listings| ensures |Bounded(listings[i], after)| <= |Bounded(listings[i], None)| {
      FromBoundShrinks(Listed(listings[i]), |Listed(listings[i])|, after);
    }
  }

  lemma {:induction false} FromBoundShrinks(rows: seq<Row>, n: nat, after: Option<int>)
    requires n <= |rows|
    ensures |FromBound(rows, n, after)| <= |FromBound(rows, n, None)|
  {
    if n > 0 {
      FromBoundShrinks(rows, n - 1, after);
    }
  }

  lemma ReadableWithinComplete(listings: seq<Listing>, after: Option<int>)
    ensures TxsOf(ReadableRows(listings, after)) <= CompleteTxs(listings, after)
    ensures WithinCap(listings, after) ==> TxsOf(ReadableRows(listings, after)) == CompleteTxs(listings, after)
  {
    forall t | t in TxsOf(ReadableRows(listings, after)) ensures t in CompleteTxs(listings, after) {
      var i, r :| 0 <= i < |listings| && r in Readable(listings[i], after) && r.tx == t;
      ReadableOfOne(listings[i], after);
      assert r in ListedRows(listings);
    }
    if WithinCap(listings, after) {
      forall t | t in CompleteTxs(listings, after) ensures t in TxsOf(ReadableRows(listings, after)) {
        var r :| r in ListedRows(listings) && r.tx == t;
        var i :| 0 <= i < |listings| && r in Listed(listings[i]);
        ReadableOfOne(listings[i], after);
        assert r in ReadableRows(listings, after);
      }
    }
  }

  /**
   The walk answers the promised page exactly when every transaction of that page is within the
   cap of some address that lists it.
   */
  lemma CapDecidesThePage(listings: seq<Listing>, after: Option<int>, answered: set<Tx>, promised: set<Tx>)
    requires IsPage(TxsOf(ReadableRows(listings, after)), answered)
    requires IsPage(CompleteTxs(listings, after), promised)
    ensures answered == promised <==> promised <= TxsOf(ReadableRows(listings, after))
    ensures WithinCap(listings, after) ==> answered == promised
  {
    ReadableWithinComplete(listings, after);
    var some, all := TxsOf(ReadableRows(listings, after)), CompleteTxs(listings, after);
    if WithinCap(listings, after) {
      PageUnique(all, answered, promised);
    }
    if promised <= some {
      PageWithin(some, all, promised);
      PageUnique(some, answered, promised);
    }
  }

  // ----- where the cap cannot bite -----

  /** At most `most` of some ascending rows share a block: a row and the one `most` further never do. */
  predicate AtMostInABlock(rows: seq<Row>, most: nat) {
    forall j :: 0 <= j && j + most < |rows| ==> rows[j].tx.height != rows[j + most].tx.height
  }

  lemma {:induction false} FromBoundFrom(rows: seq<Row>, n: nat, after: Option<int>, cut: nat)
    requires cut <= n <= |rows| && forall k :: 0 <= k < n ==> (IsFrom(rows[k], after) <==> cut <= k)
    ensures FromBound(rows, n, after) == rows[cut..n]
  {
    if cut < n {
      FromBoundFrom(rows, n - 1, after, cut);
      assert rows[cut..n] == rows[cut..n - 1] + [rows[n - 1]];
    } else if n > 0 {
      FromBoundFrom(rows, n - 1, after, n - 1);
    }
  }

  lemma FromBoundIsSuffix(rows: seq<Row>, after: Option<int>) returns (cut: nat)
    requires Ascending(rows)
    ensures cut <= |rows| && FromBound(rows, |rows|, after) == rows[cut..]
  {
    cut := 0;
    while cut < |rows| && !IsFrom(rows[cut], after)
      invariant cut <= |rows| && forall k :: 0 <= k < cut ==> !IsFrom(rows[k], after)
    {
      cut := cut + 1;
    }
    forall k | cut < k < |rows| ensures IsFrom(rows[k], after) {
      assert Precedes(rows[cut], rows[k]);
    }
    FromBoundFrom(rows, |rows|, after, cut);
  }

  /** What the `from` bound leaves of a listing: its rows from some place on, no more to a block than before. */
  lemma BoundedFacts(listing: Listing, after: Option<int>, most: nat)
    requires Ascending(Listed(listing)) && AtMostInABlock(Listed(listing), most)
    ensures Ascending(Bounded(listing, after)) && AtMostInABlock(Bounded(listing, after), most)
    ensures forall r :: r in Bounded(listing, after) <==> r in Listed(listing) && IsFrom(r, after)
  {
    var rows := Listed(listing);
    FromBoundFacts(rows, |rows|, after);
    assert rows[..|rows|] == rows;
    var cut := FromBoundIsSuffix(rows, after);
    assert forall j :: 0 <= j < |rows| - cut ==> Bounded(listing, after)[j] == rows[j + cut];
  }

  /** Far enough into the bounded rows, a full page of older transactions lies between the cursor and the row. */
  lemma PageOfOlder(all: set<Tx>, rows: seq<Row>, after: Option<int>, most: nat, m: nat)
    requires Ascending(rows) && AtMostInABlock(rows, most) && Consistent(RowSet(rows))
    requires forall r :: r in rows ==> IsFrom(r, after) && (IsAfter(r, after) ==> r.tx in all)
    requires 2 * most + HISTORY_PAGE_SIZE <= m < |rows|
    ensures |Before(all, rows[m].tx.height)| >= HISTORY_PAGE_SIZE
  {
    var some := Txs(rows[most..most + HISTORY_PAGE_SIZE]);
    forall k | 0 <= k < |some| ensures some[k] in Before(all, rows[m].tx.height) {
      OlderRow(rows, after, most, most + k, m);
    }
    SliceSize(rows, most, most + HISTORY_PAGE_SIZE);
    SubsetSize(TxSet(some), Before(all, rows[m].tx.height));
  }

  lemma SliceSize(rows: seq<Row>, from: nat, to: nat)
    requires Ascending(rows) && Consistent(RowSet(rows)) && from <= to <= |rows|
    ensures |TxSet(Txs(rows[from..to]))| == to - from
  {
    var some := rows[from..to];
    assert RowSet(some) <= RowSet(rows);
    AscendingTxs(some);
    DistinctSize(Txs(some));
  }

  lemma OlderRow(rows: seq<Row>, after: Option<int>, most: nat, j: nat, m: nat)
    requires Ascending(rows) && AtMostInABlock(rows, most) && most <= j && j + most <= m < |rows|
    requires forall r :: r in rows ==> IsFrom(r, after)
    ensures IsAfter(rows[j], after) && rows[j].tx.height < rows[m].tx.height
  {
    assert rows[j].tx.height != rows[j + most].tx.height;
    if most > 0 {
      var first: nat := j - most;
      assert IsFrom(rows[first], after) && Precedes(rows[first], rows[j]);
      assert Precedes(rows[j], rows[j + most]);
      assert rows[first].tx.height != rows[first + most].tx.height;
      assert j + most < m ==> Precedes(rows[j + most], rows[m]);
    }
  }

  /** No transaction of a page has a full page of older ones before it. */
  lemma PageHasFewOlder(all: set<Tx>, page: set<Tx>, t: Tx)
    requires IsPage(all, page) && t in page
    ensures |Before(all, t.height)| < HISTORY_PAGE_SIZE
  {
    if |all| <= HISTORY_PAGE_SIZE {
      assert t !in Before(all, t.height);
      SubsetSize(Before(all, t.height), all);
    } else {
      var b :| FillsAt(all, page, b);
      SubsetSize(Before(all, t.height), Before(all, b));
    }
  }

  /**
   The cap hides nothing of the page when blocks are sparse enough for it: a page and two blocks of the
   fullest kind fit into what a cursor may read. No matter then how long the histories are.
   */
  lemma SparseBlocksFit(listings: seq<Listing>, after: Option<int>, most: nat, answered: set<Tx>, promised: set<Tx>)
    requires Chain(listings) && 2 * most + 50 <= 20_000
    requires forall i :: 0 <= i < |listings| ==> AtMostInABlock(Listed(listings[i]), most)
    requires IsPage(TxsOf(ReadableRows(listings, after)), answered)
    requires IsPage(CompleteTxs(listings, after), promised)
    ensures promised <= TxsOf(ReadableRows(listings, after)) && answered == promised
  {
    PageWithinAll(CompleteTxs(listings, after), promised);
    forall t | t in promised ensures t in TxsOf(ReadableRows(listings, after)) {
      PageHasFewOlder(CompleteTxs(listings, after), promised, t);
      IsReadable(listings, after, most, t);
    }
    CapDecidesThePage(listings, after, answered, promised);
  }

  lemma IsReadable(listings: seq<Listing>, after: Option<int>, most: nat, t: Tx)
    requires Chain(listings) && 2 * most + 50 <= 20_000
    requires forall i :: 0 <= i < |listings| ==> AtMostInABlock(Listed(listings[i]), most)
    requires t in CompleteTxs(listings, after) && |Before(CompleteTxs(listings, after), t.height)| < HISTORY_PAGE_SIZE
    ensures t in TxsOf(ReadableRows(listings, after))
  {
    var r :| r in ListedRows(listings) && r.tx == t && IsAfter(r, after);
    var i :| 0 <= i < |listings| && r in Listed(listings[i]);
    ReadBeforeTheCap(listings, after, most, i, r);
    assert r in ReadableRows(listings, after);
  }

  lemma PageWithinAll(all: set<Tx>, page: set<Tx>)
    requires IsPage(all, page)
    ensures page <= all
  {
  }

  /** A row with less than a page of older transactions is read before the cap. */
  lemma ReadBeforeTheCap(listings: seq<Listing>, after: Option<int>, most: nat, i: nat, r: Row)
    requires Chain(listings) && 2 * most + 50 <= 20_000
    requires i < |listings| && AtMostInABlock(Listed(listings[i]), most)
    requires r in Listed(listings[i]) && IsAfter(r, after)
    requires |Before(CompleteTxs(listings, after), r.tx.height)| < HISTORY_PAGE_SIZE
    ensures r in Readable(listings[i], after)
  {
    var bounded, n := Bounded(listings[i], after), Fetched(listings[i], LIST_MAX_PAGES, after);
    BoundedFacts(listings[i], after, most);
    KeptFacts(bounded, n, after);
    var m :| 0 <= m < |bounded| && bounded[m] == r;
    if m < n {
      assert bounded[..n][m] == r;
    } else {
      BoundedIsListed(listings, after, i);
      PageOfOlder(CompleteTxs(listings, after), bounded, after, most, m);
    }
  }

  lemma BoundedIsListed(listings: seq<Listing>, after: Option<int>, i: nat)
    requires Chain(listings) && i < |listings|
    ensures RowSet(Bounded(listings[i], after)) <= ListedRows(listings)
    ensures Consistent(RowSet(Bounded(listings[i], after)))
    ensures forall r :: r in Bounded(listings[i], after) ==>
              IsFrom(r, after) && (IsAfter(r, after) ==> r.tx in CompleteTxs(listings, after))
  {
    var rows := Listed(listings[i]);
    FromBoundFacts(rows, |rows|, after);
    assert rows[..|rows|] == rows;
  }

  // ----- where it does -----

  /** `n` transactions of block 5, one after another. */
  function Crowd(n: nat): (rows: seq<Row>) {
    if n == 0 then [] else Crowd(n - 1) + [Row(Tx(seq(n, _ => 'a'), 5), n)]
  }

  lemma {:induction false} CrowdFacts(n: nat)
    ensures |Crowd(n)| == n && Ascending(Crowd(n))
    ensures forall r :: r in Crowd(n) ==>
              && r.tx.height == 5 && 1 <= r.index <= n
              && r.tx.hash == seq(r.index, _ => 'a')
  {
    if n > 0 {
      CrowdFacts(n - 1);
      assert forall k :: 0 <= k < n - 1 ==> Crowd(n)[k] == Crowd(n - 1)[k] && Crowd(n - 1)[k] in Crowd(n - 1);
    }
  }

  lemma CrowdRows(n: nat, rows: seq<Row>, hidden: Row)
    requires rows == Crowd(n) + [hidden] && hidden == Row(Tx("b", 6), 0)
    ensures Ascending(rows) && Consistent(RowSet(rows)) && hidden in rows
  {
    CrowdFacts(n);
    forall a, b | a in RowSet(rows) && b in RowSet(rows)
      ensures a.tx.hash == b.tx.hash <==> a.tx.height == b.tx.height && a.index == b.index
    {
      assert forall r :: r in Crowd(n) ==> r.tx.hash[0] == 'a' && |r.tx.hash| == r.index;
      assert hidden.tx.hash[0] == 'b';
    }
    assert rows[n] == hidden;
    assert forall k :: 0 <= k < n ==> rows[k] in Crowd(n);
  }

  lemma OneListing(rows: seq<Row>, hidden: Row)
    requires Ascending(rows) && Consistent(RowSet(rows)) && hidden in rows && hidden.tx.height == 6
    ensures Chain([Seen(rows)]) && hidden.tx in CompleteTxs([Seen(rows)], Some(5))
  {
    var listings := [Seen(rows)];
    assert Listed(listings[0]) == rows;
    assert ListedRows(listings) == RowSet(rows);
    assert hidden in ListedRows(listings);
  }

  /** The cap does bite: 20,000 transactions in the cursor's own block hide the one after them. */
  lemma CapHidesHistory()
    ensures exists listings: seq<Listing>, after ::
              && Chain(listings)
              && ReadableRows(listings, after) == {}
              && CompleteTxs(listings, after) != {}
  {
    var hidden := Row(Tx("b", 6), 0);
    var rows := Crowd(20_000) + [hidden];
    CrowdRows(20_000, rows, hidden);
    OneListing(rows, hidden);
    ReadsOnlyTheCrowd(rows, hidden);
    assert ReadableRows([Seen(rows)], Some(5)) == {};
  }

  lemma ReadsOnlyTheCrowd(rows: seq<Row>, hidden: Row)
    requires rows == Crowd(20_000) + [hidden] && hidden.tx.height == 6
    ensures Readable(Seen(rows), Some(5)) == []
  {
    var cap, after: Option<int> := 20_000, Some(5);
    CrowdFacts(cap);
    AllFrom(rows, |rows|, after);
    assert rows[..|rows|] == rows;
    assert forall k :: 0 <= k < cap ==> rows[k] in Crowd(cap);
    NoneAfter(rows, cap, after);
  }

  lemma {:induction false} AllFrom(rows: seq<Row>, n: nat, after: Option<int>)
    requires n <= |rows| && forall r :: r in rows ==> IsFrom(r, after)
    ensures FromBound(rows, n, after) == rows[..n]
  {
    if n > 0 {
      AllFrom(rows, n - 1, after);
    }
  }

  lemma {:induction false} NoneAfter(rows: seq<Row>, n: nat, after: Option<int>)
    requires n <= |rows| && forall k :: 0 <= k < n ==> !IsAfter(rows[k], after)
    ensures Kept(rows, n, after) == []
  {
    if n > 0 {
      NoneAfter(rows, n - 1, after);
    }
  }
}
