/**
 The walk over the pages, and which walks are complete, said without the loop's variables: the ranges of
 offset pages tile the rows, and keyset pages go on until one holds all that its own range counts.
 */
module KoiosWalks {
  import opened Common
  import opened KoiosPaging
  import opened KoiosWire

  // ----- offset pages -----

  function Given(answer: Response): seq<Row> {
    if answer.Answer? then answer.rows else []
  }

  /** The rows of the first `k` pages, each asked for at the number of rows before it. */
  function OffsetRows(server: Server, k: nat): seq<Row> {
    if k == 0 then []
    else
      var rows := OffsetRows(server, k - 1);
      rows + Given(server(k - 1, AtOffset(|rows|)))
  }

  function OffsetPage(server: Server, k: nat): Response {
    server(k, AtOffset(|OffsetRows(server, k)|))
  }

  /** Page `k` holds rows, from where the pages before it end, of so many in all. */
  ghost predicate Tile(server: Server, k: nat, total: nat) {
    var from, to := |OffsetRows(server, k)|, |OffsetRows(server, k + 1)|;
    && OffsetPage(server, k).Answer? && from < to <= total
    && OffsetPage(server, k).range == Span(from, to - 1, total)
  }

  /** Page `k` does not reach the end, and says so. */
  ghost predicate PartialTile(server: Server, k: nat, total: nat) {
    Tile(server, k, total) && |OffsetRows(server, k + 1)| < total && OffsetPage(server, k).status == 206
  }

  /** The first `n` pages are partial ones that tile the beginning of one and the same number of rows. */
  ghost predicate Partial(server: Server, n: nat, total: nat) {
    total <= 100_000 && forall k: nat :: k < n ==> PartialTile(server, k, total)
  }

  /**
   A complete offset walk. Its partial pages are followed by the one that reaches the number of rows they
   all name, or by the news that nothing is left; or its only page is a short one with no range.
   */
  ghost predicate OffsetWalk(server: Server, last: nat) {
    var read, page := |OffsetRows(server, last)|, OffsetPage(server, last);
    && page.Answer?
    && match page.range
       case Absent => last == 0 && page.status != 206 && |page.rows| < 1_000
       case EmptyOf(total) => total == read && page.rows == [] && exists named :: Partial(server, last, named)
       case Span(_, _, total) =>
         Partial(server, last, total) && Tile(server, last, total) && |OffsetRows(server, last + 1)| == total
  }

  /** The walk's variables after partial pages. */
  function OffsetAt(server: Server, k: nat, total: nat): Walk {
    var rows := OffsetRows(server, k);
    Walk(rows, |rows|, if k == 0 then None else Some(total), None, k)
  }

  /** What a page is to a walk of which only partial pages have been read. */
  lemma OffsetVerdict(server: Server, k: nat, total: nat)
    requires At(server, false, k) == OffsetAt(server, k, total)
    ensures VerdictAt(server, false, k) == More <==>
            exists named: nat :: PartialTile(server, k, named) && named <= 100_000 && (k > 0 ==> named == total)
    ensures VerdictAt(server, false, k) == More ==>
              OffsetPage(server, k).Answer? && OffsetPage(server, k).range.Span?
              && At(server, false, k + 1) == OffsetAt(server, k + 1, OffsetPage(server, k).range.total)
  {
    if VerdictAt(server, false, k) == More {
      assert PartialTile(server, k, OffsetPage(server, k).range.total);
    }
  }

  lemma {:induction false} PartialIsMore(server: Server, k: nat, total: nat)
    requires Partial(server, k, total)
    ensures At(server, false, k) == OffsetAt(server, k, total)
    ensures forall j: nat :: j < k ==> VerdictAt(server, false, j) == More
  {
    if k > 0 {
      PartialIsMore(server, k - 1, total);
      assert PartialTile(server, k - 1, total);
      OffsetVerdict(server, k - 1, total);
    }
  }

  lemma {:induction false} MoreIsPartial(server: Server, k: nat) returns (total: nat)
    requires forall j: nat :: j < k ==> VerdictAt(server, false, j) == More
    ensures Partial(server, k, total) && At(server, false, k) == OffsetAt(server, k, total)
  {
    if k == 0 {
      total := 0;
    } else {
      var j: nat := k - 1;
      var before := MoreIsPartial(server, j);
      OffsetVerdict(server, j, before);
      total :| PartialTile(server, j, total) && total <= 100_000 && (j > 0 ==> total == before);
      assert Partial(server, j, total);
    }
  }

  lemma OffsetFinish(server: Server, k: nat, total: nat)
    requires Partial(server, k, total) && At(server, false, k) == OffsetAt(server, k, total)
    ensures VerdictAt(server, false, k) == Finish <==> OffsetWalk(server, k)
    ensures VerdictAt(server, false, k) == Finish ==> At(server, false, k + 1).rows == OffsetRows(server, k + 1)
  {
    if k > 0 {
      assert PartialTile(server, k - 1, total);
      forall named: nat | Partial(server, k, named) ensures named == total {
        assert PartialTile(server, k - 1, named);
      }
    }
  }

  /** A walk by offsets ends with page `last` exactly when its pages make a complete one. */
  lemma OffsetEndsExactly(server: Server, last: nat)
    ensures Ends(server, false, last) <==> OffsetWalk(server, last)
    ensures Ends(server, false, last) ==> At(server, false, last + 1).rows == OffsetRows(server, last + 1)
  {
    if Ends(server, false, last) {
      var total := MoreIsPartial(server, last);
      OffsetFinish(server, last, total);
    }
    if OffsetWalk(server, last) {
      var total: nat :| Partial(server, last, total);
      PartialIsMore(server, last, total);
      OffsetFinish(server, last, total);
    }
  }

  /** So where pages have ranges up to the end, every one of them names the number of rows returned. */
  lemma RangedWalkIsWhole(server: Server, last: nat, k: nat)
    requires OffsetWalk(server, last) && OffsetPage(server, last).range.Span? && k <= last
    ensures OffsetPage(server, k).Answer? && OffsetPage(server, k).range.Span?
    ensures OffsetPage(server, k).range.total == |OffsetRows(server, last + 1)| <= 100_000
  {
    var total := OffsetPage(server, last).range.total;
    assert k < last ==> PartialTile(server, k, total);
  }

  lemma RangesAgree(server: Server, last: nat, total: nat, k: nat)
    requires Partial(server, last, total) && (OffsetPage(server, last).Answer? && OffsetPage(server, last).range.Span? ==> Tile(server, last, total))
    requires k <= last && OffsetPage(server, k).Answer? && OffsetPage(server, k).range.Span?
    ensures OffsetPage(server, k).range.total == total
  {
    assert k < last ==> PartialTile(server, k, total);
  }

  /** A total that changes from one ranged page to a later one is refused, wherever the walk might have ended. */
  lemma ChangedTotalIsRefused(server: Server, j: nat, k: nat, last: nat)
    requires j < k <= last && OffsetPage(server, j).Answer? && OffsetPage(server, k).Answer?
    requires OffsetPage(server, j).range.Span? && OffsetPage(server, k).range.Span?
    requires OffsetPage(server, j).range.total != OffsetPage(server, k).range.total
    ensures !OffsetWalk(server, last)
  {
    if OffsetWalk(server, last) {
      var total: nat :| Partial(server, last, total)
                        && (OffsetPage(server, last).range.Span? ==> Tile(server, last, total));
      RangesAgree(server, last, total, j);
      RangesAgree(server, last, total, k);
    }
  }

  /** But only ranges are compared: a walk told of 2,000 rows takes "none left" after 1,000 for its end. */
  function Shrinking(k: nat, q: Query): Response {
    if k == 0 then Answer(seq(1_000, (i: nat) => Row(Key("", i), 0)), 206, Span(0, 999, 2_000))
    else Answer([], 200, EmptyOf(1_000))
  }

  lemma ShrunkListIsAccepted()
    ensures OffsetPage(Shrinking, 0).range == Span(0, 999, 2_000)
    ensures OffsetWalk(Shrinking, 1) && |OffsetRows(Shrinking, 2)| == 1_000
    ensures KeysDistinct(OffsetRows(Shrinking, 2))
  {
    assert |OffsetRows(Shrinking, 0)| == 0;
    assert |OffsetRows(Shrinking, 1)| == 1_000;
    assert OffsetRows(Shrinking, 2) == OffsetRows(Shrinking, 1);
    assert PartialTile(Shrinking, 0, 2_000);
    assert Partial(Shrinking, 1, 2_000);
  }

  // ----- keyset pages -----

  function LastKey(rows: seq<Row>): Option<Key> {
    if rows == [] then None else Some(rows[|rows| - 1].key)
  }

  /** The rows of the first `k` pages, each asked for past the last row before it. */
  function KeysetRows(server: Server, k: nat): seq<Row> {
    if k == 0 then []
    else
      var rows := KeysetRows(server, k - 1);
      rows + Given(server(k - 1, AfterKey(LastKey(rows))))
  }

  function KeysetPage(server: Server, k: nat): Response {
    server(k, AfterKey(LastKey(KeysetRows(server, k))))
  }

  /**
   Page `k` holds rows and ends past the cursor, counted from 0 or from where the page before it was counted
   to, and the rows so far, or at first all rows, are within the bound.
   */
  ghost predicate KeysetStep(server: Server, k: nat) {
    var before, page := KeysetRows(server, k), KeysetPage(server, k);
    && page.Answer? && page.range.Span? && page.rows != []
    && |page.rows| == page.range.end - page.range.start + 1 && page.range.end < page.range.total
    && (page.range.start == 0 || page.range.start == CountedTo(server, k))
    && (before != [] ==> Less(LastKey(before).value, LastKey(page.rows).value))
    && (if k == 0 then page.range.total else |KeysetRows(server, k + 1)|) <= 100_000
  }

  function CountedTo(server: Server, k: nat): nat {
    if k == 0 then 0
    else
      var page := KeysetPage(server, k - 1);
      if page.Answer? && page.range.Span? then page.range.end + 1 else 0
  }

  /**
   A complete keyset walk: pages that each leave rows over, and one that holds as many as its own range
   counts; or its only page is a short one with no range, or says that there is nothing.
   */
  ghost predicate KeysetWalk(server: Server, last: nat) {
    && (forall k: nat :: k < last ==> KeysetLeavesMore(server, k))
    && var page := KeysetPage(server, last);
    && page.Answer?
    && match page.range
       case Absent => last == 0 && page.status != 206 && |page.rows| < 1_000
       case EmptyOf(total) => last == 0 && total == 0 && page.rows == []
       case Span(start, _, total) => KeysetStep(server, last) && start == 0 && total == |page.rows|
  }

  ghost predicate KeysetLeavesMore(server: Server, k: nat) {
    && KeysetStep(server, k)
    && KeysetPage(server, k).status == 206 && KeysetPage(server, k).range.total > |KeysetPage(server, k).rows|
  }

  /** The walk's variables, but for the total, which only offset pages compare. */
  ghost predicate KeysetAt(server: Server, k: nat, w: Walk) {
    && w.rows == KeysetRows(server, k) && w.cursor == LastKey(w.rows) && w.start == CountedTo(server, k) && w.pages == k
    && (k > 0 ==> w.rows != [])
  }

  lemma KeysetVerdict(server: Server, k: nat)
    requires KeysetAt(server, k, At(server, true, k))
    ensures VerdictAt(server, true, k) == More <==> KeysetLeavesMore(server, k)
    ensures VerdictAt(server, true, k) == More ==> KeysetAt(server, k + 1, At(server, true, k + 1))
  {
  }

  /** Said in either way, more is asked for after page `k`. */
  ghost predicate GoesOn(server: Server, k: nat) {
    VerdictAt(server, true, k) == More || KeysetLeavesMore(server, k)
  }

  lemma KeysetGoesOn(server: Server, k: nat)
    requires KeysetAt(server, k, At(server, true, k)) && GoesOn(server, k)
    ensures KeysetAt(server, k + 1, At(server, true, k + 1))
    ensures VerdictAt(server, true, k) == More && KeysetLeavesMore(server, k)
  {
    KeysetVerdict(server, k);
  }

  lemma {:induction false} KeysetSoFar(server: Server, k: nat)
    requires forall j: nat :: j < k ==> GoesOn(server, j)
    ensures KeysetAt(server, k, At(server, true, k))
  {
    if k == 0 {
      assert At(server, true, 0) == Walk([], 0, None, None, 0);
    } else {
      var j: nat := k - 1;
      KeysetSoFar(server, j);
      KeysetGoesOn(server, j);
    }
  }

  lemma KeysetFinish(server: Server, k: nat)
    requires KeysetAt(server, k, At(server, true, k)) && forall j: nat :: j < k ==> KeysetLeavesMore(server, j)
    ensures VerdictAt(server, true, k) == Finish <==> KeysetWalk(server, k)
    ensures VerdictAt(server, true, k) == Finish ==> At(server, true, k + 1).rows == KeysetRows(server, k + 1)
  {
  }

  /** A walk by keys ends with page `last` exactly when its pages make a complete one. */
  lemma KeysetEndsExactly(server: Server, last: nat)
    ensures Ends(server, true, last) <==> KeysetWalk(server, last)
    ensures Ends(server, true, last) ==> At(server, true, last + 1).rows == KeysetRows(server, last + 1)
  {
    if Ends(server, true, last) || KeysetWalk(server, last) {
      forall j: nat | j < last ensures GoesOn(server, j) {
      }
      KeysetSoFar(server, last);
      forall j: nat | j < last ensures VerdictAt(server, true, j) == More && KeysetLeavesMore(server, j) {
        KeysetSoFar(server, j);
        KeysetGoesOn(server, j);
      }
      KeysetFinish(server, last);
    }
  }

  // ----- complete walks of either kind -----

  function RowsOf(server: Server, keyset: bool, k: nat): seq<Row> {
    if keyset then KeysetRows(server, k) else OffsetRows(server, k)
  }

  /** The pages up to `last` make a complete walk, and where rows have keys no key comes twice. */
  ghost predicate CompleteWalk(server: Server, keyset: bool, keyed: bool, last: nat) {
    && (if keyset then KeysetWalk(server, last) else OffsetWalk(server, last))
    && (keyed ==> KeysDistinct(RowsOf(server, keyset, last + 1)))
  }

  lemma AcceptedExactly(server: Server, keyset: bool, keyed: bool, last: nat)
    ensures Accepted(server, keyset, keyed, last) <==> CompleteWalk(server, keyset, keyed, last)
    ensures Accepted(server, keyset, keyed, last) ==> At(server, keyset, last + 1).rows == RowsOf(server, keyset, last + 1)
  {
    if keyset {
      KeysetEndsExactly(server, last);
    } else {
      OffsetEndsExactly(server, last);
    }
  }

  lemma NoneComplete(server: Server, keyset: bool, keyed: bool)
    requires forall last :: !Accepted(server, keyset, keyed, last)
    ensures forall last :: !CompleteWalk(server, keyset, keyed, last)
  {
    forall last: nat ensures !CompleteWalk(server, keyset, keyed, last) {
      AcceptedExactly(server, keyset, keyed, last);
    }
  }

  // ----- the walk -----

  function KeySet(rows: seq<Row>): set<Key> {
    set r | r in rows :: r.key
  }

  /** Add a page, unless one of its rows was given before. */
  method AppendPage(rows: seq<Row>, seen: set<Key>, page: seq<Row>) returns (ok: bool, seen': set<Key>)
    requires KeysDistinct(rows) && seen == KeySet(rows)
    ensures ok <==> KeysDistinct(rows + page)
    ensures ok ==> seen' == KeySet(rows + page)
  {
    seen' := seen;
    for i := 0 to |page|
      invariant KeysDistinct(rows + page[..i]) && seen' == KeySet(rows + page[..i])
    {
      var key := page[i].key;
      SeenDecides(rows + page[..i], page[i]);
      assert rows + page[..i + 1] == (rows + page[..i]) + [page[i]];
      if key in seen' {
        assert rows + page == (rows + page[..i + 1]) + page[i + 1..];
        return false, seen';
      }
      seen' := seen' + {key};
    }
    assert page[..|page|] == page;
    ok := true;
  }

  lemma SeenDecides(rows: seq<Row>, row: Row)
    requires KeysDistinct(rows)
    ensures KeysDistinct(rows + [row]) <==> row.key !in KeySet(rows)
    ensures KeySet(rows + [row]) == KeySet(rows) + {row.key}
    ensures !KeysDistinct(rows + [row]) ==> forall more: seq<Row> :: !KeysDistinct(rows + [row] + more)
  {
    assert forall r :: r in rows + [row] <==> r in rows || r == row;
    if row.key in KeySet(rows) {
      var i :| 0 <= i < |rows| && rows[i].key == row.key;
      forall more: seq<Row> ensures !KeysDistinct(rows + [row] + more) {
        var all := rows + [row] + more;
        assert all[i].key == all[|rows|].key;
      }
      assert rows + [row] == rows + [row] + [];
    }
  }

  /** Where more pages follow, the walk grew, and is still within the row bound. */
  lemma MoreGrows(keyset: bool, w: Walk, response: Response)
    requires Judge(keyset, w, response) == More
    requires (!keyset ==> w.start == |w.rows|) && (w.pages == 0 ==> w.rows == [])
    ensures response.Answer? && response.rows != []
    ensures var after := Advance(keyset, w, response);
            && |w.rows| < |after.rows| <= KOIOS_MAX_PAGED_ROWS
            && (!keyset ==> after.start == |after.rows|)
  {
  }

  /** The walk's variables while every page so far asked for more. */
  ghost predicate Walking(server: Server, keyset: bool, w: Walk) {
    && w == At(server, keyset, w.pages) && |w.rows| <= KOIOS_MAX_PAGED_ROWS
    && (forall j :: 0 <= j < w.pages ==> VerdictAt(server, keyset, j) == More)
    && (!keyset ==> w.start == |w.rows|) && (w.pages == 0 ==> w.rows == [])
  }

  ghost predicate Remembers(keyed: bool, w: Walk, seen: set<Key>) {
    keyed ==> KeysDistinct(w.rows) && seen == KeySet(w.rows)
  }

  lemma MoreKeepsWalking(server: Server, keyset: bool, w: Walk)
    requires Walking(server, keyset, w) && VerdictAt(server, keyset, w.pages) == More
    ensures var after := At(server, keyset, w.pages + 1);
            Walking(server, keyset, after) && after.pages == w.pages + 1 && |w.rows| < |after.rows|
  {
    MoreGrows(keyset, w, server(w.pages, QueryOf(keyset, w)));
  }

  /** Ask for the next page, and take it in unless it is refused or repeats a row. */
  method TakePage(server: Server, keyset: bool, keyed: bool, w: Walk, seen: set<Key>)
    returns (verdict: Verdict, w': Walk, seen': set<Key>)
    requires Walking(server, keyset, w) && Remembers(keyed, w, seen)
    ensures verdict == Refuse ==> forall last :: !Accepted(server, keyset, keyed, last)
    ensures verdict != Refuse ==>
              && verdict == VerdictAt(server, keyset, w.pages)
              && w' == At(server, keyset, w.pages + 1) && w'.pages == w.pages + 1 && Remembers(keyed, w', seen')
  {
    seen' := seen;
    var response := server(w.pages, QueryOf(keyset, w));
    verdict := Judge(keyset, w, response);
    w' := Advance(keyset, w, response);
    if verdict != Refuse && keyed {
      var unseen;
      unseen, seen' := AppendPage(w.rows, seen, response.rows);
      if !unseen {
        verdict := Refuse;
      }
    }
    if verdict == Refuse {
      NoneAccepted(server, keyset, keyed, w.pages);
    }
  }

  /**
   The walk. It ends, whatever the upstream answers, because every further page adds rows and the
   row bound caps them; it returns rows exactly when the answers make a complete walk, and then
   those rows.
   */
  method WalkBatchPages(server: Server, keyset: bool, keyed: bool) returns (result: Option<Walk>)
    ensures result.Some? ==>
              && result.value.pages > 0 && Accepted(server, keyset, keyed, result.value.pages - 1)
              && result.value == At(server, keyset, result.value.pages)
    ensures result.None? ==> forall last :: !Accepted(server, keyset, keyed, last)
    ensures result.Some? ==>
              && CompleteWalk(server, keyset, keyed, result.value.pages - 1)
              && result.value.rows == RowsOf(server, keyset, result.value.pages)
    ensures result.None? ==> forall last :: !CompleteWalk(server, keyset, keyed, last)
  {
    var w, seen: set<Key> := Walk([], 0, None, None, 0), {};
    while true
      invariant Walking(server, keyset, w) && Remembers(keyed, w, seen)
      decreases KOIOS_MAX_PAGED_ROWS - |w.rows|
    {
      ghost var before := w;
      var verdict;
      verdict, w, seen := TakePage(server, keyset, keyed, w, seen);
      if verdict == Refuse {
        NoneComplete(server, keyset, keyed);
        return None;
      }
      if verdict == Finish {
        AcceptedExactly(server, keyset, keyed, w.pages - 1);
        return Some(w);
      }
      MoreKeepsWalking(server, keyset, before);
    }
  }
}
