/**
 Which answers a history stream reads to its end, page after page, said without its fields: their ranges
 tile the rows from 0 to the end, and the rows are in order from the first to the last.
 */
module HistoryStreams {
  import opened Common
  import opened History
  import opened KoiosHistory
  import opened KoiosWire

  function Rows(answers: seq<Response>, n: nat): seq<Tx>
    requires n <= |answers|
  {
    if n == 0 then []
    else Rows(answers, n - 1) + if answers[n - 1].Answer? then answers[n - 1].rows else []
  }

  /** Page `k` holds the rows from where those before it end, and says that more follow. */
  ghost predicate PartOf(answers: seq<Response>, k: nat)
    requires k < |answers|
  {
    var from, to := |Rows(answers, k)|, |Rows(answers, k + 1)|;
    && answers[k].Answer? && answers[k].range.Span? && answers[k].status == 206 && to <= 100_000
    && answers[k].range.start == from && answers[k].range.end + 1 == to && answers[k].range.total != to
  }

  /** Page `k` ends the list: its range reaches the total, or nothing is left, or it is a short first page without a range. */
  ghost predicate EndOf(answers: seq<Response>, k: nat)
    requires k < |answers|
  {
    var from, to := |Rows(answers, k)|, |Rows(answers, k + 1)|;
    && answers[k].Answer?
    && match answers[k].range
       case Absent => from == 0 && answers[k].status != 206 && to < (if from >= 100_000 then 1 else 50)
       case EmptyOf(total) => answers[k].rows == [] && total == from
       case Span(start, end, total) => start == from && end + 1 == to == total <= 100_000
  }

  /** The answers are the pages of one list, in its order. */
  ghost predicate ReadsOneList(answers: seq<Response>) {
    && answers != []
    && (forall k: nat :: k < |answers| - 1 ==> PartOf(answers, k))
    && EndOf(answers, |answers| - 1)
    && Ordered(Rows(answers, |answers|))
  }

  // ----- order, page by page -----

  lemma OrderedJoins(a: seq<Tx>, b: seq<Tx>)
    requires Ordered(a)
    ensures Ordered(a + b) <==> Continues(if a == [] then None else Some(a[|a| - 1]), b)
  {
    var all, last := a + b, if a == [] then None else Some(a[|a| - 1]);
    if Ordered(all) {
      assert forall k :: 0 <= k < |b| ==> b[k] == all[|a| + k];
      assert a != [] ==> a[|a| - 1] == all[|a| - 1];
    }
    if Continues(last, b) {
      NeighboursDecide(b);
      forall i, j | 0 <= i < |a| && 0 <= j < |b| ensures CompareTxs(a[i], b[j]) <= 0 {
        Across(a, b, i, j);
      }
    }
  }

  lemma {:induction false} NeighboursDecide(b: seq<Tx>)
    requires forall k :: 0 < k < |b| ==> CompareTxs(b[k - 1], b[k]) <= 0
    ensures Ordered(b)
  {
    forall i, j | 0 <= i < j < |b| ensures CompareTxs(b[i], b[j]) <= 0 {
      Neighbours(b, i, j);
    }
  }

  lemma {:induction false} Neighbours(b: seq<Tx>, i: nat, j: nat)
    requires i < j < |b| && forall k :: 0 < k < |b| ==> CompareTxs(b[k - 1], b[k]) <= 0
    ensures CompareTxs(b[i], b[j]) <= 0
  {
    if i + 1 < j {
      Neighbours(b, i, j - 1);
      CompareChains(b[i], b[j - 1], b[j]);
    }
  }

  lemma Across(a: seq<Tx>, b: seq<Tx>, i: nat, j: nat)
    requires Ordered(a) && Ordered(b) && i < |a| && j < |b| && CompareTxs(a[|a| - 1], b[0]) <= 0
    ensures CompareTxs(a[i], b[j]) <= 0
  {
    var last := a[|a| - 1];
    if j > 0 {
      CompareChains(last, b[0], b[j]);
    }
    if i < |a| - 1 {
      CompareChains(a[i], last, b[j]);
    }
  }

  lemma {:induction false} LaterIsOutOfOrder(answers: seq<Response>, m: nat, n: nat)
    requires m <= n <= |answers| && Ordered(Rows(answers, n))
    ensures Ordered(Rows(answers, m))
  {
    if m < n {
      var before, after := Rows(answers, n - 1), Rows(answers, n);
      assert forall i :: 0 <= i < |before| ==> before[i] == after[i];
      LaterIsOutOfOrder(answers, m, n - 1);
    }
  }

  // ----- a stream fed with the answers -----

  /** Where a stream stands after `k` partial pages. */
  ghost predicate ReadSoFar(answers: seq<Response>, k: nat, offset: nat, last: Option<Tx>)
    requires k <= |answers|
  {
    var rows := Rows(answers, k);
    && offset == |rows| && last == (if rows == [] then None else Some(rows[|rows| - 1]))
    && Ordered(rows) && forall j: nat :: j < k ==> PartOf(answers, j)
  }

  ghost predicate Reading(answers: seq<Response>, k: nat, stream: AddressHistoryStream)
    requires k <= |answers|
    reads stream
  {
    !stream.done && ReadSoFar(answers, k, stream.offset, stream.last)
  }

  /** What is made of one answer. */
  lemma OnePage(answers: seq<Response>, k: nat, offset: nat, limit: nat)
    requires k < |answers| && answers[k].Answer? && offset == |Rows(answers, k)|
    requires limit == if offset >= HISTORY_MAX_LIST_ROWS then 1 else HISTORY_PAGE_SIZE
    ensures Consistent(answers[k], offset, limit) <==> PartOf(answers, k) || EndOf(answers, k)
    ensures Consistent(answers[k], offset, limit) ==> (EndsList(answers[k]) <==> EndOf(answers, k))
    ensures !(PartOf(answers, k) && EndOf(answers, k))
  {
  }

  /** Only the last page of a list that is read ends it. */
  lemma EachIsPage(answers: seq<Response>, k: nat)
    requires ReadsOneList(answers) && k < |answers|
    ensures if k + 1 == |answers| then EndOf(answers, k) else PartOf(answers, k)
  {
  }

  lemma EachIsRead(answers: seq<Response>, k: nat)
    requires ReadsOneList(answers) && k < |answers|
    ensures Ordered(Rows(answers, k + 1))
    ensures if k + 1 == |answers| then EndOf(answers, k) else PartOf(answers, k)
  {
    EachIsPage(answers, k);
    LaterIsOutOfOrder(answers, k + 1, |answers|);
  }

  /** A page that is accepted goes on with the list, or ends it. */
  lemma AcceptedPage(answers: seq<Response>, k: nat, offset: nat, last: Option<Tx>, limit: nat)
    requires k < |answers| && ReadSoFar(answers, k, offset, last) && answers[k].Answer?
    requires limit == if offset >= HISTORY_MAX_LIST_ROWS then 1 else HISTORY_PAGE_SIZE
    requires Consistent(answers[k], offset, limit) && Continues(last, answers[k].rows)
    ensures var page := answers[k].rows;
            if EndsList(answers[k]) then EndOf(answers, k) && !PartOf(answers, k) && Ordered(Rows(answers, k + 1))
            else PartOf(answers, k)
                 && ReadSoFar(answers, k + 1, offset + |page|, if page == [] then last else Some(page[|page| - 1]))
  {
    OnePage(answers, k, offset, limit);
    OrderedJoins(Rows(answers, k), answers[k].rows);
  }

  lemma RefusedPage(answers: seq<Response>, k: nat, offset: nat, last: Option<Tx>, limit: nat)
    requires k < |answers| && ReadSoFar(answers, k, offset, last)
    requires limit == if offset >= HISTORY_MAX_LIST_ROWS then 1 else HISTORY_PAGE_SIZE
    requires !answers[k].Answer? || !Consistent(answers[k], offset, limit) || !Continues(last, answers[k].rows)
    ensures !ReadsOneList(answers)
  {
    if ReadsOneList(answers) {
      EachIsRead(answers, k);
      OnePage(answers, k, offset, limit);
      OrderedJoins(Rows(answers, k), answers[k].rows);
    }
  }

  /** The next answer is refused only where the answers are not the pages of one list. */
  method ReadNext(answers: seq<Response>, k: nat, stream: AddressHistoryStream) returns (ok: bool)
    requires k < |answers| && Reading(answers, k, stream)
    modifies stream
    ensures ok && !stream.done ==> Reading(answers, k + 1, stream) && PartOf(answers, k)
    ensures ok && stream.done ==> EndOf(answers, k) && !PartOf(answers, k) && Ordered(Rows(answers, k + 1))
    ensures !ok ==> !ReadsOneList(answers)
  {
    var limit := if stream.offset >= HISTORY_MAX_LIST_ROWS then 1 else HISTORY_PAGE_SIZE;
    ghost var offset, last := stream.offset, stream.last;
    ok := stream.Accept(answers[k], limit);
    if ok {
      AcceptedPage(answers, k, offset, last, limit);
    } else {
      RefusedPage(answers, k, offset, last, limit);
    }
  }

  /** A stream is given answers until it is done: it reads them all exactly when they are the pages of one list. */
  method ReadAnswers(answers: seq<Response>) returns (ok: bool)
    ensures ok <==> ReadsOneList(answers)
  {
    var stream := new AddressHistoryStream(0);
    for k := 0 to |answers|
      invariant Reading(answers, k, stream)
    {
      ok := ReadNext(answers, k, stream);
      if !ok {
        return;
      }
      if stream.done {
        ok := k + 1 == |answers|;
        if !ok && ReadsOneList(answers) {
          EachIsRead(answers, k);
          assert false;
        }
        return;
      }
    }
    ok := false;
    if |answers| > 0 {
      assert PartOf(answers, |answers| - 1);
    }
  }
}
