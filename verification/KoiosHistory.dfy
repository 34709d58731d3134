/**
 The address-set history read over Koios: an incremental merge of ordered streams, one stream for
 each packed request body, that stops once the oldest page is known.
 */
module KoiosHistory {
  import opened Common
  import opened History
  import opened KoiosWire

  const HISTORY_MAX_LIST_ROWS: nat := 100_000

  // ----- the order Koios is asked for -----

  function CompareTxs(left: Tx, right: Tx): int {
    if left.height != right.height then left.height - right.height
    else if left.hash == right.hash then 0
    else if StringLess(left.hash, right.hash) then -1 else 1
  }

  lemma CompareTransitive(a: Tx, b: Tx, c: Tx)
    requires CompareTxs(a, b) < 0 && CompareTxs(b, c) <= 0
    ensures CompareTxs(a, c) < 0
  {
    if a.height == b.height == c.height && b.hash != c.hash {
      StringLessTransitive(a.hash, b.hash, c.hash);
      StringLessTotal(a.hash, a.hash);
      StringLessTotal(a.hash, b.hash);
    }
  }

  lemma CompareFlips(a: Tx, b: Tx)
    requires CompareTxs(a, b) >= 0
    ensures CompareTxs(b, a) <= 0
  {
    StringLessTotal(a.hash, b.hash);
  }

  /** Oldest block first, and within a block by the characters of the hashes. */
  lemma OrderIsHeightThenHash(a: Tx, b: Tx)
    ensures CompareTxs(a, b) <= 0 <==>
            a.height < b.height || (a.height == b.height && (a.hash == b.hash || FirstDifference(a.hash, b.hash)))
  {
    StringLessIsFirstDifference(a.hash, b.hash);
  }

  lemma CompareChains(a: Tx, b: Tx, c: Tx)
    requires CompareTxs(a, b) <= 0 && CompareTxs(b, c) <= 0
    ensures CompareTxs(a, c) <= 0
  {
    if a.height == b.height == c.height && a.hash != b.hash && b.hash != c.hash {
      StringLessTransitive(a.hash, b.hash, c.hash);
    }
  }

  predicate Ordered(txs: seq<Tx>) {
    forall i, j :: 0 <= i < j < |txs| ==> CompareTxs(txs[i], txs[j]) <= 0
  }

  // ----- the upstream -----

  datatype Response = Failed | Answer(rows: seq<Tx>, status: nat, range: Range)

  /** What an upstream answers for a request body, an offset and a limit. */
  type Server = (nat, nat, nat) -> Response

  /** One answer that tells the truth about a fixed, ordered list. */
  ghost predicate FaithfulAnswer(answer: Response, list: seq<Tx>, offset: nat, limit: nat)
    requires offset <= |list|
  {
    && answer.Answer?
    && answer.rows == list[offset..Min(offset + limit, |list|)]
    && match answer.range
       case Absent => offset == 0 && |answer.rows| < limit && answer.status != 206
       case EmptyOf(total) => answer.rows == [] && total == |list|
       case Span(start, end, total) =>
         && start == offset && end + 1 == offset + |answer.rows| && start <= end && total == |list|
         && (end + 1 < total ==> answer.status == 206)
  }

  /** A page that fits its range, its place and the row bound, whatever the upstream's rows really are. */
  predicate Consistent(answer: Response, offset: nat, limit: nat)
    requires answer.Answer?
  {
    match answer.range
    case Absent => offset == 0 && |answer.rows| < limit && answer.status != 206
    case EmptyOf(total) => answer.rows == [] && total == offset
    case Span(start, end, total) =>
      && start == offset && end + 1 == offset + |answer.rows| <= 100_000
      && (end + 1 == total || answer.status == 206)
  }

  /** Nothing follows the page, by its own account. */
  predicate EndsList(answer: Response)
    requires answer.Answer?
  {
    answer.range.Span? ==> answer.range.end + 1 == answer.range.total
  }

  /** The page goes on where the order stood. */
  predicate Continues(last: Option<Tx>, page: seq<Tx>) {
    && (last.Some? && page != [] ==> CompareTxs(last.value, page[0]) <= 0)
    && forall k :: 0 < k < |page| ==> CompareTxs(page[k - 1], page[k]) <= 0
  }

  /** A truthful answer is consistent, unless it shows that the list goes on past the row bound. */
  lemma TruthIsConsistent(answer: Response, list: seq<Tx>, offset: nat, limit: nat)
    requires offset <= |list| && offset <= HISTORY_MAX_LIST_ROWS && offset % HISTORY_PAGE_SIZE == 0
    requires limit == if offset == HISTORY_MAX_LIST_ROWS then 1 else HISTORY_PAGE_SIZE
    requires FaithfulAnswer(answer, list, offset, limit)
    ensures Consistent(answer, offset, limit) <==> !(offset == HISTORY_MAX_LIST_ROWS < |list|)
    ensures var next := offset + |answer.rows|;
            Consistent(answer, offset, limit) ==>
              && next <= HISTORY_MAX_LIST_ROWS
              && if EndsList(answer) then next == |list| else next % HISTORY_PAGE_SIZE == 0 && answer.rows != []
  {
    assert |answer.rows| == Min(offset + limit, |list|) - offset;
  }

  lemma TruthIsNext(answer: Response, list: seq<Tx>, offset: nat, limit: nat)
    requires offset <= |list| && FaithfulAnswer(answer, list, offset, limit)
    ensures var next := offset + |answer.rows|;
            && next <= |list| && answer.rows == list[offset..next]
            && (answer.rows != [] ==> answer.rows[|answer.rows| - 1] == list[next - 1])
  {
  }

  lemma OrderedContinues(list: seq<Tx>, from: nat, page: seq<Tx>)
    requires Ordered(list) && from + |page| <= |list| && page == list[from..from + |page|]
    ensures Continues(if from == 0 then None else Some(list[from - 1]), page)
  {
    assert forall k :: 0 <= k < |page| ==> page[k] == list[from + k];
  }

  ghost predicate Faithful(server: Server, body: nat, list: seq<Tx>) {
    forall offset: nat, limit: nat :: offset <= |list| && limit > 0 ==>
      FaithfulAnswer(server(body, offset, limit), list, offset, limit)
  }

  lemma FaithfulAt(server: Server, body: nat, list: seq<Tx>, offset: nat, limit: nat)
    requires Faithful(server, body, list) && offset <= |list| && limit > 0
    ensures FaithfulAnswer(server(body, offset, limit), list, offset, limit)
  {
  }

  // ----- one incrementally paged stream -----

  /** A stream's fields, when it has read the list up to `offset` in whole pages. */
  ghost predicate ReadsAs(list: seq<Tx>, rows: seq<Tx>, index: nat, offset: nat, done: bool, last: Option<Tx>) {
    && index <= |rows| <= offset <= |list|
    && offset <= HISTORY_MAX_LIST_ROWS
    && rows == list[offset - |rows|..offset]
    && (if done then offset == |list| else offset % HISTORY_PAGE_SIZE == 0)
    && last == if offset == 0 then None else Some(list[offset - 1])
  }

  /** The next page of a truthful upstream is taken in, unless the list goes on past the row bound. */
  lemma NextPage(list: seq<Tx>, offset: nat, last: Option<Tx>, answer: Response, limit: nat)
    requires offset <= |list| && offset <= HISTORY_MAX_LIST_ROWS && offset % HISTORY_PAGE_SIZE == 0
    requires limit == if offset == HISTORY_MAX_LIST_ROWS then 1 else HISTORY_PAGE_SIZE
    requires last == if offset == 0 then None else Some(list[offset - 1])
    requires Ordered(list) && FaithfulAnswer(answer, list, offset, limit)
    ensures var page := answer.rows;
            && Continues(last, page)
            && (Consistent(answer, offset, limit) <==> !(offset == HISTORY_MAX_LIST_ROWS < |list|))
            && (Consistent(answer, offset, limit) ==>
                  && (page != [] || EndsList(answer))
                  && ReadsAs(list, page, 0, offset + |page|, EndsList(answer), if page == [] then last else Some(page[|page| - 1])))
  {
    TruthIsConsistent(answer, list, offset, limit);
    TruthIsNext(answer, list, offset, limit);
    OrderedContinues(list, offset, answer.rows);
  }

  class AddressHistoryStream {
    const body: nat
    var rows: seq<Tx>
    var index: nat
    var offset: nat
    var done: bool
    var last: Option<Tx>

    ghost predicate Reads(list: seq<Tx>)
      reads this
    {
      ReadsAs(list, rows, index, offset, done, last)
    }

    /** How many rows of the list the merge has taken. */
    ghost function Taken(): int
      reads this
    {
      offset - |rows| + index
    }

    /** The row bound of the walk has been spent and the list goes on. */
    ghost predicate AtBound(list: seq<Tx>)
      reads this
    {
      Taken() == HISTORY_MAX_LIST_ROWS < |list|
    }

    constructor (body: nat)
      ensures this.body == body && Taken() == 0 && forall list :: Reads(list)
      ensures rows == [] && index == 0 && offset == 0 && !done && last == None
    {
      this.body := body;
      rows, index, offset, done, last := [], 0, 0, false, None;
    }

    /** Fetch the next page once the current one is used up; `ok` is false where the source throws. */
    method Fill(server: Server, ghost list: seq<Tx>) returns (ok: bool)
      requires Reads(list) && Ordered(list) && Faithful(server, body, list)
      modifies this
      ensures ok ==> Reads(list) && Taken() == old(Taken()) && (index < |rows| || done)
      ensures ok <==> !old(AtBound(list))
    {
      if done || index < |rows| {
        return true;
      }
      ok := FetchNext(server, list);
    }

    /** Ask for the page after the rows read so far, or for one row more where the bound is spent. */
    method FetchNext(server: Server, ghost list: seq<Tx>) returns (ok: bool)
      requires Reads(list) && Ordered(list) && Faithful(server, body, list)
      requires !done && index == |rows|
      modifies this
      ensures ok <==> !(old(offset) == HISTORY_MAX_LIST_ROWS < |list|)
      ensures ok ==> Reads(list) && Taken() == old(offset) && (index < |rows| || done)
    {
      var probingBound := offset >= HISTORY_MAX_LIST_ROWS;
      var limit := if probingBound then 1 else HISTORY_PAGE_SIZE;
      var response := server(body, offset, limit);
      FaithfulAt(server, body, list, offset, limit);
      NextPage(list, offset, last, response, limit);
      ok := AcceptNext(response, limit, list);
    }

    /** What a page does to the reading of a list that it fits. */
    method AcceptNext(response: Response, limit: nat, ghost list: seq<Tx>) returns (ok: bool)
      requires response.Answer? && Continues(last, response.rows) && 0 <= Taken() == offset
      requires Consistent(response, offset, limit) ==>
                 && (response.rows != [] || EndsList(response))
                 && ReadsAs(list, response.rows, 0, offset + |response.rows|, EndsList(response),
                            if response.rows == [] then last else Some(response.rows[|response.rows| - 1]))
      modifies this
      ensures ok <==> Consistent(response, old(offset), limit)
      ensures ok ==> Reads(list) && Taken() == old(Taken()) && (index < |rows| || done)
    {
      ok := Accept(response, limit);
    }

    method TakeRow(ghost list: seq<Tx>) returns (row: Tx)
      requires Reads(list) && index < |rows|
      modifies this
      ensures Reads(list) && Taken() == old(Taken()) + 1
      ensures 0 <= old(Taken()) < |list| && row == list[old(Taken())]
    {
      row := rows[index];
      index := index + 1;
    }

    /** Take a page in, or refuse it where its range, the row bound or the order say it cannot be right. */
    method Accept(response: Response, limit: nat) returns (ok: bool)
      modifies this
      ensures ok <==> response.Answer? && Consistent(response, old(offset), limit) && Continues(old(last), response.rows)
      ensures ok ==> offset == old(offset) + |response.rows| && (done <==> EndsList(response))
      ensures ok ==> last == (if response.rows == [] then old(last) else Some(response.rows[|response.rows| - 1]))
      ensures ok ==> rows == response.rows && index == 0
    {
      if response.Failed? {
        return false;
      }
      ok := Account(response, limit);
      if !ok {
        return false;
      }
      ok := CheckOrder(response.rows);
      rows := response.rows;
      index := 0;
    }

    /** Check the page against its range and move the offset past it. */
    method Account(response: Response, limit: nat) returns (ok: bool)
      requires response.Answer?
      modifies this`offset, this`done
      ensures ok <==> Consistent(response, old(offset), limit)
      ensures ok ==> offset == old(offset) + |response.rows| && (done <==> EndsList(response))
    {
      var page := response.rows;
      match response.range {
        case Absent =>
          if response.status == 206 || offset != 0 || |page| >= limit {
            return false;
          }
          offset := offset + |page|;
          done := true;
        case EmptyOf(total) =>
          if |page| != 0 || total != offset {
            return false;
          }
          done := true;
        case Span(start, end, total) =>
          if start != offset || |page| != end - start + 1 {
            return false;
          }
          offset := end + 1;
          if offset > HISTORY_MAX_LIST_ROWS {
            return false;
          }
          done := offset == total;
          if !done && response.status != 206 {
            return false;
          }
      }
      ok := true;
    }

    /** The page must continue the order; `last` ends at its last row. */
    method CheckOrder(page: seq<Tx>) returns (ok: bool)
      modifies this`last
      ensures ok <==> Continues(old(last), page)
      ensures ok ==> last == (if page == [] then old(last) else Some(page[|page| - 1]))
    {
      for k := 0 to |page|
        invariant last == (if k == 0 then old(last) else Some(page[k - 1]))
        invariant k > 0 && old(last).Some? ==> CompareTxs(old(last).value, page[0]) <= 0
        invariant forall j :: 0 < j < k ==> CompareTxs(page[j - 1], page[j]) <= 0
      {
        if last.Some? && CompareTxs(last.value, page[k]) > 0 {
          return false;
        }
        last := Some(page[k]);
      }
      ok := true;
    }
  }

  // ----- the merge, on positions -----

  ghost function TakenTxs(lists: seq<seq<Tx>>, pos: seq<nat>): set<Tx>
    requires |pos| == |lists|
  {
    set i, k | 0 <= i < |lists| && 0 <= k < pos[i] && k < |lists[i]| :: lists[i][k]
  }

  ghost function AllTxs(lists: seq<seq<Tx>>): set<Tx> {
    set i, k | 0 <= i < |lists| && 0 <= k < |lists[i]| :: lists[i][k]
  }

  /** A transaction hash names one transaction in every stream. */
  ghost predicate HashesAgree(all: set<Tx>) {
    forall a, b :: a in all && b in all && a.hash == b.hash ==> a == b
  }

  ghost predicate Upstream(lists: seq<seq<Tx>>) {
    (forall i :: 0 <= i < |lists| ==> Ordered(lists[i])) && HashesAgree(AllTxs(lists))
  }

  /** Nothing left in the streams is older than anything already taken. */
  ghost predicate Frontier(lists: seq<seq<Tx>>, pos: seq<nat>)
    requires |pos| == |lists|
  {
    forall t, i, k :: t in TakenTxs(lists, pos) && 0 <= i < |lists| && pos[i] <= k < |lists[i]| ==>
      t.height <= lists[i][k].height
  }

  /** The state of the merge between two steps. */
  ghost predicate Merging(lists: seq<seq<Tx>>, pos: seq<nat>, distinct: seq<Tx>, boundary: Option<int>) {
    && |pos| == |lists|
    && (forall i :: 0 <= i < |lists| ==> pos[i] <= |lists[i]|)
    && Distinct(distinct) && TxSet(distinct) == TakenTxs(lists, pos)
    && Frontier(lists, pos)
    && match boundary
       case None => |distinct| < HISTORY_PAGE_SIZE
       case Some(b) => FillsAt(TxSet(distinct), TxSet(distinct), b)
  }

  ghost predicate IsOldest(lists: seq<seq<Tx>>, pos: seq<nat>, tx: Tx)
    requires |pos| == |lists|
  {
    forall i :: 0 <= i < |lists| && pos[i] < |lists[i]| ==> tx.height <= lists[i][pos[i]].height
  }

  lemma TakeOne(lists: seq<seq<Tx>>, pos: seq<nat>, n: nat)
    requires |pos| == |lists| && n < |pos| && pos[n] < |lists[n]|
    ensures TakenTxs(lists, pos[n := pos[n] + 1]) == TakenTxs(lists, pos) + {lists[n][pos[n]]}
  {
    var next := pos[n := pos[n] + 1];
    forall t | t in TakenTxs(lists, pos) ensures t in TakenTxs(lists, next) {
      var i, k :| 0 <= i < |lists| && 0 <= k < pos[i] && k < |lists[i]| && lists[i][k] == t;
      assert k < next[i];
    }
    assert pos[n] < next[n] && lists[n][pos[n]] in TakenTxs(lists, next);
  }

  /** Taking the oldest head keeps everything left at least as new as everything taken. */
  lemma FrontierAdvances(lists: seq<seq<Tx>>, pos: seq<nat>, n: nat)
    requires Upstream(lists) && |pos| == |lists| && n < |pos| && pos[n] < |lists[n]|
    requires Frontier(lists, pos) && IsOldest(lists, pos, lists[n][pos[n]])
    ensures Frontier(lists, pos[n := pos[n] + 1])
  {
    var next, row := pos[n := pos[n] + 1], lists[n][pos[n]];
    TakeOne(lists, pos, n);
    forall t, i, k | t in TakenTxs(lists, next) && 0 <= i < |lists| && next[i] <= k < |lists[i]|
      ensures t.height <= lists[i][k].height
    {
      if t == row {
        if pos[i] < k {
          assert CompareTxs(lists[i][pos[i]], lists[i][k]) <= 0;
        }
      }
    }
  }

  /** Where the page stands after one more transaction has been entered. */
  lemma EnterOne(distinct: seq<Tx>, row: Tx, boundary: Option<int>)
    requires Distinct(distinct) && row !in distinct
    requires forall t :: t in distinct ==> t.height <= row.height
    requires match boundary
             case None => |distinct| < HISTORY_PAGE_SIZE
             case Some(b) => row.height == b && FillsAt(TxSet(distinct), TxSet(distinct), b)
    ensures var more := distinct + [row];
            && Distinct(more) && TxSet(more) == TxSet(distinct) + {row}
            && match NextBoundary(distinct, row, boundary)
               case None => |more| < HISTORY_PAGE_SIZE
               case Some(b) => FillsAt(TxSet(more), TxSet(more), b)
  {
    var more := distinct + [row];
    assert TxSet(more) == TxSet(distinct) + {row};
    DistinctSize(distinct);
    DistinctSize(more);
    var next := NextBoundary(distinct, row, boundary);
    if next.Some? {
      assert Upto(TxSet(more), next.value) == TxSet(more);
      assert Before(TxSet(more), next.value) == Before(TxSet(distinct), next.value);
      SubsetSize(Before(TxSet(more), next.value), TxSet(distinct));
    }
  }

  function NextBoundary(distinct: seq<Tx>, row: Tx, boundary: Option<int>): Option<int> {
    if |distinct| + 1 == HISTORY_PAGE_SIZE then Some(row.height) else boundary
  }

  /** One step of the merge: take the oldest head, and note the block in which the page fills up. */
  lemma TakeNext(lists: seq<seq<Tx>>, pos: seq<nat>, distinct: seq<Tx>, boundary: Option<int>, n: nat)
    requires Upstream(lists) && Merging(lists, pos, distinct, boundary)
    requires n < |pos| && pos[n] < |lists[n]| && IsOldest(lists, pos, lists[n][pos[n]])
    requires boundary.Some? ==> lists[n][pos[n]].height <= boundary.value
    ensures var row, next := lists[n][pos[n]], pos[n := pos[n] + 1];
            if row in distinct then Merging(lists, next, distinct, boundary)
            else Merging(lists, next, distinct + [row], NextBoundary(distinct, row, boundary))
  {
    var row, next := lists[n][pos[n]], pos[n := pos[n] + 1];
    TakeOne(lists, pos, n);
    FrontierAdvances(lists, pos, n);
    if row in distinct {
      assert row in TxSet(distinct);
    } else {
      forall t | t in distinct ensures t.height <= row.height {
        assert t in TxSet(distinct);
      }
      if boundary.Some? {
        SameBlock(lists, pos, distinct, boundary.value, row, n);
      }
      EnterOne(distinct, row, boundary);
    }
  }

  /** Past the fiftieth transaction, only the rest of the boundary block is still taken. */
  lemma SameBlock(lists: seq<seq<Tx>>, pos: seq<nat>, distinct: seq<Tx>, b: int, row: Tx, n: nat)
    requires Merging(lists, pos, distinct, Some(b))
    requires n < |pos| && pos[n] < |lists[n]| && row == lists[n][pos[n]] && row.height <= b
    ensures row.height == b
  {
    var taken := TxSet(distinct);
    assert !(taken <= Before(taken, b)) by {
      if taken <= Before(taken, b) {
        SubsetSize(taken, Before(taken, b));
      }
    }
    var t :| t in taken && t !in Before(taken, b);
    assert t in TakenTxs(lists, pos);
  }

  /** Whatever has been taken so far belongs to the page. */
  lemma TakenIsOnPage(lists: seq<seq<Tx>>, pos: seq<nat>, distinct: seq<Tx>, boundary: Option<int>, page: set<Tx>)
    requires Merging(lists, pos, distinct, boundary) && IsPage(AllTxs(lists), page)
    ensures TxSet(distinct) <= page
  {
    var all, taken := AllTxs(lists), TxSet(distinct);
    TakenIsPart(lists, pos);
    if |all| > HISTORY_PAGE_SIZE {
      var c :| FillsAt(all, page, c);
      forall t | t in taken ensures t.height <= c {
        if t.height > c {
          OlderIsTaken(lists, pos, t, c);
          DistinctSize(distinct);
          if boundary.None? {
            SubsetSize(page, taken);
          } else {
            SubsetSize(page, Before(taken, boundary.value));
          }
        }
      }
    }
  }

  lemma TakenIsPart(lists: seq<seq<Tx>>, pos: seq<nat>)
    requires |pos| == |lists|
    ensures TakenTxs(lists, pos) <= AllTxs(lists)
  {
  }

  lemma OlderIsTaken(lists: seq<seq<Tx>>, pos: seq<nat>, t: Tx, c: int)
    requires |pos| == |lists| && Frontier(lists, pos)
    requires t in TakenTxs(lists, pos) && t.height > c
    ensures Upto(AllTxs(lists), c) <= Before(TakenTxs(lists, pos), t.height)
  {
    forall x | x in Upto(AllTxs(lists), c) ensures x in TakenTxs(lists, pos) {
      var i, k :| 0 <= i < |lists| && 0 <= k < |lists[i]| && lists[i][k] == x;
      assert k < pos[i];
    }
  }

  /** The merge may stop: the streams are spent, or every head is past the boundary block. */
  ghost predicate MayStop(lists: seq<seq<Tx>>, pos: seq<nat>, boundary: Option<int>)
    requires |pos| == |lists|
  {
    forall i :: 0 <= i < |lists| && pos[i] < |lists[i]| ==>
      boundary.Some? && lists[i][pos[i]].height > boundary.value
  }

  lemma LeftIsNewer(lists: seq<seq<Tx>>, pos: seq<nat>, boundary: Option<int>, i: nat, k: nat)
    requires Upstream(lists) && |pos| == |lists| && MayStop(lists, pos, boundary)
    requires i < |lists| && pos[i] <= k < |lists[i]|
    ensures boundary.Some? && lists[i][k].height > boundary.value
  {
    if pos[i] < k {
      assert CompareTxs(lists[i][pos[i]], lists[i][k]) <= 0;
    }
  }

  lemma StoppedIsPage(lists: seq<seq<Tx>>, pos: seq<nat>, distinct: seq<Tx>, boundary: Option<int>)
    requires Upstream(lists) && Merging(lists, pos, distinct, boundary) && MayStop(lists, pos, boundary)
    ensures IsPage(AllTxs(lists), TxSet(distinct))
  {
    var all, taken := AllTxs(lists), TxSet(distinct);
    TakenIsPart(lists, pos);
    forall t | t in all - taken ensures boundary.Some? && t.height > boundary.value {
      var i, k :| 0 <= i < |lists| && 0 <= k < |lists[i]| && lists[i][k] == t;
      assert lists[i][k] !in TakenTxs(lists, pos);
      LeftIsNewer(lists, pos, boundary, i, k);
    }
    if boundary.Some? {
      SettledPage(taken, all, taken, boundary.value);
    } else {
      assert taken == all;
      DistinctSize(distinct);
    }
  }

  // ----- the merge over live streams -----

  /** The upstream answers every stream's body from that stream's list. */
  ghost predicate Served(streams: seq<AddressHistoryStream>, server: Server, lists: seq<seq<Tx>>) {
    && Upstream(lists)
    && |streams| == |lists|
    && Distinct(streams)
    && forall i :: 0 <= i < |streams| ==> Faithful(server, streams[i].body, lists[i])
  }

  /** Every stream pages through its own list and has had `pos` of its rows taken. */
  ghost predicate Follows(streams: seq<AddressHistoryStream>, lists: seq<seq<Tx>>, pos: seq<nat>)
    reads streams
  {
    && |streams| == |lists| == |pos|
    && forall i :: 0 <= i < |streams| ==> streams[i].Reads(lists[i]) && streams[i].Taken() == pos[i]
  }

  /** Every stream has its next row at hand, or is finished. */
  ghost predicate Filled(streams: seq<AddressHistoryStream>)
    reads streams
  {
    forall i :: 0 <= i < |streams| ==> streams[i].index < |streams[i].rows| || streams[i].done
  }

  /** A stream has spent the row bound of the walk and its list goes on. */
  ghost predicate Blocked(lists: seq<seq<Tx>>, pos: seq<nat>)
    requires |pos| == |lists|
  {
    exists i :: 0 <= i < |lists| && pos[i] == HISTORY_MAX_LIST_ROWS < |lists[i]|
  }

  method PeekOne(streams: seq<AddressHistoryStream>, k: nat, server: Server, ghost lists: seq<seq<Tx>>, ghost pos: seq<nat>)
    returns (ok: bool)
    requires Served(streams, server, lists) && Follows(streams, lists, pos) && k < |streams|
    modifies streams[k]
    ensures ok <==> !(pos[k] == HISTORY_MAX_LIST_ROWS < |lists[k]|)
    ensures ok ==> Follows(streams, lists, pos) && (streams[k].index < |streams[k].rows| || streams[k].done)
  {
    ok := streams[k].Fill(server, lists[k]);
  }

  method PeekAll(streams: seq<AddressHistoryStream>, server: Server, ghost lists: seq<seq<Tx>>, ghost pos: seq<nat>)
    returns (ok: bool)
    requires Served(streams, server, lists) && Follows(streams, lists, pos)
    modifies streams
    ensures ok <==> !Blocked(lists, pos)
    ensures ok ==> Follows(streams, lists, pos) && Filled(streams)
  {
    for k := 0 to |streams|
      invariant Follows(streams, lists, pos)
      invariant forall i :: 0 <= i < k ==> streams[i].index < |streams[i].rows| || streams[i].done
      invariant forall i :: 0 <= i < k ==> !(pos[i] == HISTORY_MAX_LIST_ROWS < |lists[i]|)
    {
      ok := PeekOne(streams, k, server, lists, pos);
      if !ok {
        return false;
      }
    }
    ok := true;
  }

  /** The row a stream has at hand. */
  function Head(stream: AddressHistoryStream): Option<Tx>
    reads stream
  {
    if stream.index < |stream.rows| then Some(stream.rows[stream.index]) else None
  }

  ghost function Heads(streams: seq<AddressHistoryStream>, n: nat): (heads: seq<Option<Tx>>)
    requires n <= |streams|
    reads streams
    ensures |heads| == n && forall i :: 0 <= i < n ==> heads[i] == Head(streams[i])
  {
    if n == 0 then [] else Heads(streams, n - 1) + [Head(streams[n - 1])]
  }

  /** Head `next` comes first in the order, and before it no other that is as early; `None` where there are no heads. */
  ghost predicate IsFirst(heads: seq<Option<Tx>>, next: Option<nat>) {
    match next
    case None => forall i :: 0 <= i < |heads| ==> heads[i].None?
    case Some(n) =>
      && n < |heads| && heads[n].Some?
      && (forall i :: 0 <= i < n && heads[i].Some? ==> CompareTxs(heads[n].value, heads[i].value) < 0)
      && (forall i :: n < i < |heads| && heads[i].Some? ==> CompareTxs(heads[n].value, heads[i].value) <= 0)
  }

  lemma FirstOfMore(heads: seq<Option<Tx>>, next: Option<nat>, head: Option<Tx>)
    requires IsFirst(heads, next)
    ensures var earlier := head.Some? && (next.None? || CompareTxs(head.value, heads[next.value].value) < 0);
            IsFirst(heads + [head], if earlier then Some(|heads|) else next)
  {
    if head.Some? && next.Some? {
      var n := next.value;
      if CompareTxs(head.value, heads[n].value) < 0 {
        forall i | 0 <= i < |heads| && heads[i].Some? ensures CompareTxs(head.value, heads[i].value) < 0 {
          if i != n {
            CompareTransitive(head.value, heads[n].value, heads[i].value);
          }
        }
      } else {
        CompareFlips(head.value, heads[n].value);
      }
    }
  }

  /** The stream whose head comes first in the order; ties keep the earlier stream. */
  method FirstHead(streams: seq<AddressHistoryStream>) returns (next: Option<nat>)
    ensures IsFirst(Heads(streams, |streams|), next)
  {
    next := None;
    for k := 0 to |streams|
      invariant IsFirst(Heads(streams, k), next)
    {
      FirstOfMore(Heads(streams, k), next, Head(streams[k]));
      if streams[k].index < |streams[k].rows| {
        var head := streams[k].rows[streams[k].index];
        if next.None? || CompareTxs(head, streams[next.value].rows[streams[next.value].index]) < 0 {
          next := Some(k);
        }
      }
    }
  }

  /** Rows of the first `n` lists still to be taken. */
  ghost function RowsLeft(lists: seq<seq<Tx>>, pos: seq<nat>, n: nat): int
    requires n <= |lists| == |pos|
  {
    if n == 0 then 0 else RowsLeft(lists, pos, n - 1) + |lists[n - 1]| - pos[n - 1]
  }

  lemma {:induction false} RowsLeftFacts(lists: seq<seq<Tx>>, pos: seq<nat>, n: nat, taken: nat)
    requires n <= |lists| == |pos| && forall i :: 0 <= i < |lists| ==> pos[i] <= |lists[i]|
    ensures RowsLeft(lists, pos, n) >= 0
    ensures taken < |pos| ==>
              RowsLeft(lists, pos[taken := pos[taken] + 1], n) == RowsLeft(lists, pos, n) - if taken < n then 1 else 0
  {
    if n > 0 {
      RowsLeftFacts(lists, pos, n - 1, taken);
    }
  }

  /** The page reaches the last row the walk may read of a list that goes on. */
  ghost predicate PageReachesBound(lists: seq<seq<Tx>>, page: set<Tx>) {
    exists i :: 0 <= i < |lists| && |lists[i]| > 100_000 && lists[i][99_999] in page
  }

  /** Take the head of stream `n`. */
  method TakeHead(streams: seq<AddressHistoryStream>, n: nat, ghost lists: seq<seq<Tx>>, ghost pos: seq<nat>)
    returns (row: Tx)
    requires Distinct(streams) && Follows(streams, lists, pos)
    requires n < |streams| && streams[n].index < |streams[n].rows|
    modifies streams[n]
    ensures pos[n] < |lists[n]| && row == lists[n][pos[n]]
    ensures Follows(streams, lists, pos[n := pos[n] + 1])
  {
    row := streams[n].TakeRow(lists[n]);
  }

  /** Where the merge stands at a head: the lists are spent, or stream `n` has their oldest next row. */
  ghost predicate HeadIs(lists: seq<seq<Tx>>, pos: seq<nat>, next: Option<nat>)
    requires |pos| == |lists|
  {
    && (forall i :: 0 <= i < |pos| ==> pos[i] <= HISTORY_MAX_LIST_ROWS)
    && match next
       case None => forall i :: 0 <= i < |lists| ==> pos[i] >= |lists[i]|
       case Some(n) => n < |lists| && pos[n] < |lists[n]| && IsOldest(lists, pos, lists[n][pos[n]])
  }

  /** Refill the streams and find the head to take, or fail where a stream is at the row bound. */
  method NextHead(streams: seq<AddressHistoryStream>, server: Server, ghost lists: seq<seq<Tx>>, ghost pos: seq<nat>)
    returns (ok: bool, next: Option<nat>, head: Option<Tx>)
    requires Served(streams, server, lists) && Follows(streams, lists, pos)
    modifies streams
    ensures ok <==> !Blocked(lists, pos)
    ensures ok ==> Follows(streams, lists, pos) && HeadIs(lists, pos, next)
    ensures ok ==> if next.None? then head.None?
                   else streams[next.value].index < |streams[next.value].rows|
                        && head == Some(lists[next.value][pos[next.value]])
  {
    next, head := None, None;
    ok := PeekAll(streams, server, lists, pos);
    if ok {
      next := FirstHead(streams);
      HeadsShow(streams, lists, pos);
      HeadsDecide(Heads(streams, |streams|), lists, pos, next);
      if next.Some? {
        head := Some(streams[next.value].rows[streams[next.value].index]);
      }
    }
  }

  /** Take the next row of the merge, unless the streams are spent or past the boundary block. */
  method TakeIfWanted(streams: seq<AddressHistoryStream>, server: Server, boundary: Option<int>,
                      ghost lists: seq<seq<Tx>>, ghost pos: seq<nat>)
    returns (ok: bool, row: Option<Tx>, ghost n: nat)
    requires Served(streams, server, lists) && Follows(streams, lists, pos)
    modifies streams
    ensures ok <==> !Blocked(lists, pos)
    ensures ok && row.None? ==>
              MayStop(lists, pos, boundary) && forall i :: 0 <= i < |lists| ==> pos[i] <= HISTORY_MAX_LIST_ROWS
    ensures ok && row.Some? ==>
              && HeadIs(lists, pos, Some(n)) && row.value == lists[n][pos[n]]
              && (boundary.Some? ==> row.value.height <= boundary.value)
              && Follows(streams, lists, pos[n := pos[n] + 1])
  {
    var next, head;
    row, n := None, 0;
    ok, next, head := NextHead(streams, server, lists, pos);
    if ok && head.Some? && (boundary.None? || head.value.height <= boundary.value) {
      n := next.value;
      var taken := TakeHead(streams, next.value, lists, pos);
      row := Some(taken);
    }
  }

  /** Enter the row just taken, as the insertion-ordered map and its boundary note. */
  method EnterRow(distinct: seq<Tx>, hashes: set<string>, boundary: Option<int>, row: Tx,
                  ghost lists: seq<seq<Tx>>, ghost pos: seq<nat>, ghost n: nat)
    returns (distinct': seq<Tx>, hashes': set<string>, boundary': Option<int>)
    requires Upstream(lists) && Merging(lists, pos, distinct, boundary) && hashes == Hashes(distinct)
    requires HeadIs(lists, pos, Some(n)) && row == lists[n][pos[n]]
    requires boundary.Some? ==> row.height <= boundary.value
    ensures Merging(lists, pos[n := pos[n] + 1], distinct', boundary') && hashes' == Hashes(distinct')
  {
    distinct', hashes', boundary' := distinct, hashes, boundary;
    TakeNext(lists, pos, distinct, boundary, n);
    HashDecides(lists, pos, distinct, row, n);
    if row.hash !in hashes {
      boundary' := NextBoundary(distinct, row, boundary);
      distinct' := distinct + [row];
      hashes' := hashes + {row.hash};
    }
  }

  /**
   The first distinct transactions of the streams, through the whole boundary block. It reads no
   further than that, and throws exactly when the page itself reaches the row bound of a longer list.
   */
  method BoundedAddressHistoryRows(streams: seq<AddressHistoryStream>, server: Server, ghost lists: seq<seq<Tx>>)
    returns (rows: Option<seq<Tx>>)
    requires Served(streams, server, lists) && Follows(streams, lists, seq(|lists|, _ => 0))
    modifies streams
    ensures rows.Some? ==> Distinct(rows.value) && IsPage(AllTxs(lists), TxSet(rows.value))
    ensures forall page :: IsPage(AllTxs(lists), page) ==> (rows.None? <==> PageReachesBound(lists, page))
  {
    ghost var pos: seq<nat> := seq(|lists|, _ => 0);
    var distinct: seq<Tx>, hashes: set<string>, boundary: Option<int> := [], {}, None;
    NothingTaken(lists, pos);
    while true
      invariant Follows(streams, lists, pos)
      invariant Merging(lists, pos, distinct, boundary)
      invariant hashes == Hashes(distinct)
      decreases RowsLeft(lists, pos, |pos|)
    {
      var ok, head;
      ghost var next;
      ok, head, next := TakeIfWanted(streams, server, boundary, lists, pos);
      if !ok {
        BlockedByPage(lists, pos, distinct, boundary);
        return None;
      }
      if head.None? {
        Stopped(lists, pos, distinct, boundary);
        return Some(distinct);
      }
      RowsLeftFacts(lists, pos, |pos|, next);
      distinct, hashes, boundary := EnterRow(distinct, hashes, boundary, head.value, lists, pos, next);
      pos := pos[next := pos[next] + 1];
    }
  }

  lemma Stopped(lists: seq<seq<Tx>>, pos: seq<nat>, distinct: seq<Tx>, boundary: Option<int>)
    requires Upstream(lists) && Merging(lists, pos, distinct, boundary)
    requires !Blocked(lists, pos) && MayStop(lists, pos, boundary)
    requires forall i :: 0 <= i < |lists| ==> pos[i] <= HISTORY_MAX_LIST_ROWS
    ensures Distinct(distinct) && IsPage(AllTxs(lists), TxSet(distinct))
    ensures forall page :: IsPage(AllTxs(lists), page) ==> !PageReachesBound(lists, page)
  {
    StoppedIsPage(lists, pos, distinct, boundary);
    StoppedBeforeBound(lists, pos, distinct, boundary);
  }

  lemma NothingTaken(lists: seq<seq<Tx>>, pos: seq<nat>)
    requires |pos| == |lists| && forall i :: 0 <= i < |pos| ==> pos[i] == 0
    ensures Merging(lists, pos, [], None)
  {
    assert TxSet([]) == TakenTxs(lists, pos);
  }

  function Hashes(txs: seq<Tx>): set<string> {
    set t | t in txs :: t.hash
  }

  lemma HashDecides(lists: seq<seq<Tx>>, pos: seq<nat>, distinct: seq<Tx>, row: Tx, n: nat)
    requires Upstream(lists) && |pos| == |lists| && TxSet(distinct) == TakenTxs(lists, pos)
    requires n < |pos| && pos[n] < |lists[n]| && row == lists[n][pos[n]]
    ensures row in distinct <==> row.hash in Hashes(distinct)
    ensures Hashes(distinct + [row]) == Hashes(distinct) + {row.hash}
  {
    TakenIsPart(lists, pos);
    forall t | t in distinct && t.hash == row.hash ensures t == row {
      assert t in TxSet(distinct) && row in AllTxs(lists);
    }
    assert forall t :: t in distinct + [row] <==> t in distinct || t == row;
  }

  /** The heads at hand are the next rows of the lists. */
  ghost predicate Shows(heads: seq<Option<Tx>>, lists: seq<seq<Tx>>, pos: seq<nat>) {
    && |heads| == |lists| == |pos|
    && forall i :: 0 <= i < |lists| ==>
         && pos[i] <= HISTORY_MAX_LIST_ROWS
         && heads[i] == if pos[i] < |lists[i]| then Some(lists[i][pos[i]]) else None
  }

  lemma HeadsShow(streams: seq<AddressHistoryStream>, lists: seq<seq<Tx>>, pos: seq<nat>)
    requires Follows(streams, lists, pos) && Filled(streams)
    ensures Shows(Heads(streams, |streams|), lists, pos)
  {
    forall i | 0 <= i < |lists|
      ensures pos[i] <= HISTORY_MAX_LIST_ROWS
      ensures Head(streams[i]) == if pos[i] < |lists[i]| then Some(lists[i][pos[i]]) else None
    {
      HeadAt(streams[i], lists[i]);
    }
  }

  /** What they say about the lists: the next row to take, or that none is left. */
  lemma HeadsDecide(heads: seq<Option<Tx>>, lists: seq<seq<Tx>>, pos: seq<nat>, next: Option<nat>)
    requires Shows(heads, lists, pos) && IsFirst(heads, next)
    ensures HeadIs(lists, pos, next)
    ensures next.Some? ==> heads[next.value] == Some(lists[next.value][pos[next.value]])
  {
    if next.Some? {
      var n := next.value;
      forall i | 0 <= i < |lists| && pos[i] < |lists[i]| ensures lists[n][pos[n]].height <= lists[i][pos[i]].height {
        assert i != n ==> CompareTxs(heads[n].value, heads[i].value) <= 0;
      }
    }
  }

  /** A filled stream shows the next row of its list, if there is one. */
  lemma HeadAt(stream: AddressHistoryStream, list: seq<Tx>)
    requires stream.Reads(list) && (stream.index < |stream.rows| || stream.done)
    ensures stream.index < |stream.rows| <==> stream.Taken() < |list|
    ensures stream.index < |stream.rows| ==> stream.rows[stream.index] == list[stream.Taken()]
  {
  }

  lemma BlockedByPage(lists: seq<seq<Tx>>, pos: seq<nat>, distinct: seq<Tx>, boundary: Option<int>)
    requires Merging(lists, pos, distinct, boundary) && Blocked(lists, pos)
    ensures forall page :: IsPage(AllTxs(lists), page) ==> PageReachesBound(lists, page)
  {
    forall page | IsPage(AllTxs(lists), page) ensures PageReachesBound(lists, page) {
      TakenIsOnPage(lists, pos, distinct, boundary, page);
      var i :| 0 <= i < |lists| && pos[i] == HISTORY_MAX_LIST_ROWS < |lists[i]|;
      assert lists[i][HISTORY_MAX_LIST_ROWS - 1] in TakenTxs(lists, pos);
    }
  }

  lemma StoppedBeforeBound(lists: seq<seq<Tx>>, pos: seq<nat>, distinct: seq<Tx>, boundary: Option<int>)
    requires Upstream(lists) && Merging(lists, pos, distinct, boundary) && MayStop(lists, pos, boundary)
    requires !Blocked(lists, pos) && forall i :: 0 <= i < |lists| ==> pos[i] <= HISTORY_MAX_LIST_ROWS
    ensures forall page :: IsPage(AllTxs(lists), page) ==> !PageReachesBound(lists, page)
  {
    StoppedIsPage(lists, pos, distinct, boundary);
    forall page | IsPage(AllTxs(lists), page) ensures !PageReachesBound(lists, page) {
      PageUnique(AllTxs(lists), page, TxSet(distinct));
      forall i: nat | i < |lists| && |lists[i]| > HISTORY_MAX_LIST_ROWS
        ensures lists[i][HISTORY_MAX_LIST_ROWS - 1] !in page
      {
        LeftIsOffPage(lists, pos, distinct, boundary, i, HISTORY_MAX_LIST_ROWS - 1);
      }
    }
  }

  /** A row left behind where the merge may stop is past the page's block. */
  lemma LeftIsOffPage(lists: seq<seq<Tx>>, pos: seq<nat>, distinct: seq<Tx>, boundary: Option<int>, i: nat, k: nat)
    requires Upstream(lists) && Merging(lists, pos, distinct, boundary) && MayStop(lists, pos, boundary)
    requires i < |lists| && pos[i] <= k < |lists[i]|
    ensures lists[i][k] !in TxSet(distinct)
  {
    LeftIsNewer(lists, pos, boundary, i, k);
  }

  /** What the route hands on for hydration: the rows deduplicated, sorted and cut once more. */
  method GetTxHistoryByAddresses(streams: seq<AddressHistoryStream>, server: Server, ghost lists: seq<seq<Tx>>)
    returns (page: Option<seq<Tx>>)
    requires Served(streams, server, lists) && Follows(streams, lists, seq(|lists|, _ => 0))
    modifies streams
    ensures page.Some? ==> Distinct(page.value) && HeightsAscend(page.value)
    ensures page.Some? ==> IsPage(AllTxs(lists), TxSet(page.value))
    ensures forall p :: IsPage(AllTxs(lists), p) ==> (page.None? <==> PageReachesBound(lists, p))
  {
    var rows := BoundedAddressHistoryRows(streams, server, lists);
    if rows.None? {
      return None;
    }
    SecondCut(AllTxs(lists), rows.value);
    var sorted := SortByHeight(rows.value, |rows.value|);
    var end, _ := CutPage(sorted);
    page := Some(sorted[..end]);
  }

  /** Cutting a page once more takes nothing off it. */
  lemma SecondCut(all: set<Tx>, rows: seq<Tx>)
    requires Distinct(rows) && IsPage(all, TxSet(rows))
    ensures var page := FirstPage(SortByHeight(rows, |rows|));
            Distinct(page) && HeightsAscend(page) && TxSet(page) == TxSet(rows)
  {
    SortKeepsTxs(rows);
    var sorted := SortByHeight(rows, |rows|);
    CutIsPage(sorted);
    PageWithin(TxSet(rows), all, TxSet(rows));
    PageUnique(TxSet(rows), TxSet(rows), TxSet(FirstPage(sorted)));
  }

  /** The page is from the list, and what it leaves out is newer than everything it keeps. */
  ghost predicate OldestOf(list: seq<Tx>, page: seq<Tx>) {
    && HeightsAscend(page) && (forall t :: t in page ==> t in list)
    && forall t, on :: t in list && t !in page && on in page ==> on.height < t.height
  }

  lemma FirstPageIsOldest(sorted: seq<Tx>)
    requires HeightsAscend(sorted)
    ensures OldestOf(sorted, FirstPage(sorted))
  {
    if sorted != [] {
      PageEndsABlock(sorted);
      var page, end := FirstPage(sorted), PageEnd(sorted);
      assert forall k :: 0 <= k < end ==> page[k] == sorted[k];
      forall t, on | t in sorted && t !in page && on in page ensures on.height < t.height {
        var k :| 0 <= k < |sorted| && sorted[k] == t;
        var j :| 0 <= j < end && page[j] == on;
        assert sorted[end].height <= sorted[k].height;
      }
    }
  }

  lemma SortedPageIsOldest(list: seq<Tx>)
    ensures OldestOf(list, FirstPage(SortByHeight(list, |list|)))
  {
    SortIsOrdered(list, |list|);
    assert list[..|list|] == list;
    FirstPageIsOldest(SortByHeight(list, |list|));
  }

  lemma SortedPageIsPage(list: seq<Tx>)
    requires Distinct(list)
    ensures var page := FirstPage(SortByHeight(list, |list|)); Distinct(page) && IsPage(TxSet(list), TxSet(page))
  {
    SortKeepsTxs(list);
    CutIsPage(SortByHeight(list, |list|));
  }

  /** The single-account history: one listing, in whatever order Koios answers it. */
  method AccountTxHistory(list: seq<Tx>) returns (page: seq<Tx>)
    ensures OldestOf(list, page)
    ensures Distinct(list) ==> Distinct(page) && IsPage(TxSet(list), TxSet(page))
  {
    SortedPageIsOldest(list);
    if Distinct(list) {
      SortedPageIsPage(list);
    }
    var sorted := SortByHeight(list, |list|);
    var end, _ := CutPage(sorted);
    page := sorted[..end];
  }
}
