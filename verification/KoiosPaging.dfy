/**
 The paged batch read: `limit`/`offset` pages, or keyset pages that continue after the last row
 read. No snapshot spans the requests, so the upstream may answer each from other rows. What is made of
 every answer is here; KoiosWalks.dfy has the loop, and what its walks are apart from these judgements.
 */
module KoiosPaging {
  import opened Common
  import opened KoiosWire

  const KOIOS_PAGE_SIZE: nat := 1_000
  const KOIOS_MAX_PAGED_ROWS: nat := 100_000

  /** The key a page walk orders on, and by which it recognises a row it has already been given. */
  datatype Key = Key(hash: string, index: nat)

  /** A row is its key and the rest of what the upstream says about it. */
  datatype Row = Row(key: Key, data: nat)

  predicate Less(a: Key, b: Key) {
    StringLess(a.hash, b.hash) || (a.hash == b.hash && a.index < b.index)
  }

  /** Keys are in order by the first differing character of their hashes, and then by their index. */
  lemma LessIsHashThenIndex(a: Key, b: Key)
    ensures Less(a, b) <==> FirstDifference(a.hash, b.hash) || (a.hash == b.hash && a.index < b.index)
  {
    StringLessIsFirstDifference(a.hash, b.hash);
  }

  lemma LessIsOrder(a: Key, b: Key)
    ensures Less(a, b) || a == b || Less(b, a)
    ensures !(Less(a, b) && Less(b, a)) && !Less(a, a)
  {
    StringLessTotal(a.hash, b.hash);
    StringLessTotal(a.hash, a.hash);
  }

  lemma LessTransitive(a: Key, b: Key, c: Key)
    requires Less(a, b) && Less(b, c)
    ensures Less(a, c)
  {
    if StringLess(a.hash, b.hash) && StringLess(b.hash, c.hash) {
      StringLessTransitive(a.hash, b.hash, c.hash);
    }
  }

  predicate Ascending(rows: seq<Row>) {
    forall i, j :: 0 <= i < j < |rows| ==> Less(rows[i].key, rows[j].key)
  }

  predicate KeysDistinct(rows: seq<Row>) {
    forall i, j :: 0 <= i < j < |rows| ==> rows[i].key != rows[j].key
  }

  // ----- the upstream -----

  datatype Query = AtOffset(offset: nat) | AfterKey(cursor: Option<Key>)

  datatype Response = Failed | Answer(rows: seq<Row>, status: nat, range: Range)

  /** What the upstream answers to the `k`-th request, whatever it likes. */
  type Server = (nat, Query) -> Response

  // ----- one page -----

  /** The walk's variables after some pages. */
  datatype Walk = Walk(rows: seq<Row>, start: nat, total: Option<nat>, cursor: Option<Key>, pages: nat)

  datatype Verdict = Refuse | Finish | More

  function QueryOf(keyset: bool, w: Walk): Query {
    if keyset then AfterKey(w.cursor) else AtOffset(w.start)
  }

  function PagedRows(keyset: bool, w: Walk, page: seq<Row>, total: nat): nat {
    if keyset && w.pages > 0 then |w.rows| + |page| else total
  }

  function JudgeSpan(keyset: bool, w: Walk, page: seq<Row>, status: nat, start: nat, end: nat, total: nat): Verdict {
    if !(start <= end < total) then Refuse
    else if (start != w.start || |page| != end - start + 1) && !(keyset && start == 0 && |page| == end + 1) then Refuse
    else if keyset && w.cursor.Some? && !Less(w.cursor.value, page[|page| - 1].key) then Refuse
    else if !keyset && w.total.Some? && total != w.total.value then Refuse
    else if PagedRows(keyset, w, page, total) > KOIOS_MAX_PAGED_ROWS then Refuse
    else if (if keyset then total <= |page| else end + 1 == total) then Finish
    else if status != 206 then Refuse else More
  }

  /** What the walk makes of a response, apart from rows it was given before. */
  function Judge(keyset: bool, w: Walk, response: Response): Verdict {
    match response
    case Failed => Refuse
    case Answer(page, status, Absent) =>
      if keyset && (|page| >= KOIOS_PAGE_SIZE || w.cursor.Some?) then Refuse
      else if status == 206 || w.start != 0 then Refuse
      else if |page| >= KOIOS_PAGE_SIZE then Refuse
      else Finish
    case Answer(page, status, EmptyOf(total)) =>
      if (keyset && w.cursor.Some?) || |page| != 0 || total != (if keyset then 0 else w.start) then Refuse else Finish
    case Answer(page, status, Span(start, end, total)) => JudgeSpan(keyset, w, page, status, start, end, total)
  }

  function Advance(keyset: bool, w: Walk, response: Response): Walk {
    match response
    case Failed => w
    case Answer(page, _, Span(start, end, total)) =>
      Walk(w.rows + page, end + 1, Some(total),
           if keyset && |page| > 0 then Some(page[|page| - 1].key) else w.cursor, w.pages + 1)
    case Answer(page, _, _) => w.(rows := w.rows + page, pages := w.pages + 1)
  }

  /** The walk after `k` pages, each asked for where the one before it ended. */
  function At(server: Server, keyset: bool, k: nat): Walk {
    if k == 0 then Walk([], 0, None, None, 0)
    else
      var w := At(server, keyset, k - 1);
      Advance(keyset, w, server(k - 1, QueryOf(keyset, w)))
  }

  function VerdictAt(server: Server, keyset: bool, k: nat): Verdict {
    var w := At(server, keyset, k);
    Judge(keyset, w, server(k, QueryOf(keyset, w)))
  }

  /** Page `last` is the first after which nothing more is asked for, and none is refused. */
  ghost predicate Ends(server: Server, keyset: bool, last: nat) {
    && VerdictAt(server, keyset, last) == Finish
    && forall k :: 0 <= k < last ==> VerdictAt(server, keyset, k) == More
  }

  /** The upstream's answers make a complete walk, of which page `last` is the last. */
  ghost predicate Accepted(server: Server, keyset: bool, keyed: bool, last: nat) {
    Ends(server, keyset, last) && (keyed ==> KeysDistinct(At(server, keyset, last + 1).rows))
  }

  // ----- walks that cannot be completed -----

  lemma {:induction false} LaterRepeats(server: Server, keyset: bool, k: nat, n: nat)
    requires k <= n && !KeysDistinct(At(server, keyset, k).rows)
    ensures !KeysDistinct(At(server, keyset, n).rows)
  {
    if k < n {
      LaterRepeats(server, keyset, k, n - 1);
      var w := At(server, keyset, n - 1);
      var i, j :| 0 <= i < j < |w.rows| && w.rows[i].key == w.rows[j].key;
      var rows := At(server, keyset, n).rows;
      assert w.rows <= rows;
      assert rows[i].key == rows[j].key;
    }
  }

  lemma NoneAccepted(server: Server, keyset: bool, keyed: bool, k: nat)
    requires forall j :: 0 <= j < k ==> VerdictAt(server, keyset, j) == More
    requires VerdictAt(server, keyset, k) == Refuse
             || (keyed && !KeysDistinct(At(server, keyset, k + 1).rows))
    ensures forall last :: !Accepted(server, keyset, keyed, last)
  {
    forall last: nat ensures !Accepted(server, keyset, keyed, last) {
      if last >= k && VerdictAt(server, keyset, k) != Refuse {
        LaterRepeats(server, keyset, k + 1, last + 1);
      }
    }
  }

  // ----- keyset pages over rows that change between them -----

  /** The rows past the cursor start at `cut`. */
  ghost predicate Splits(rows: seq<Row>, cut: nat, cursor: Option<Key>) {
    && cut <= |rows|
    && (forall i :: 0 <= i < cut ==> cursor.Some? && !Less(cursor.value, rows[i].key))
    && (forall i :: cut <= i < |rows| ==> cursor.None? || Less(cursor.value, rows[i].key))
  }

  /** A truthful report on the rows left: some first ones of them, and how many there are. */
  ghost predicate Reports(answer: Response, rest: seq<Row>) {
    answer.Answer? ==>
      && answer.rows <= rest
      && match answer.range
         case Absent => answer.status != 206 && |answer.rows| < KOIOS_PAGE_SIZE ==> answer.rows == rest
         case EmptyOf(total) => total == |rest|
         case Span(start, end, total) => start == 0 && total == |rest|
  }

  ghost predicate TruthfulAt(server: Server, k: nat, rows: seq<Row>, cursor: Option<Key>) {
    Ascending(rows) && exists cut: nat :: Splits(rows, cut, cursor) && Reports(server(k, AfterKey(cursor)), rows[cut..])
  }

  /** Each request is answered from that moment's rows; nothing relates one moment's to the next's. */
  ghost predicate Truthful(server: Server, moments: nat -> seq<Row>) {
    forall k, cursor :: TruthfulAt(server, k, moments(k), cursor)
  }

  ghost predicate HasKey(rows: seq<Row>, key: Key) {
    exists i :: 0 <= i < |rows| && rows[i].key == key
  }

  predicate Upto(cursor: Option<Key>, key: Key) {
    cursor.Some? && !Less(cursor.value, key)
  }

  /** The row was there at one of the first `k` moments. */
  ghost predicate Seen(row: Row, moments: nat -> seq<Row>, k: nat) {
    exists j: nat :: j < k && row in moments(j)
  }

  ghost predicate FromMoments(rows: seq<Row>, moments: nat -> seq<Row>, k: nat) {
    forall i :: 0 <= i < |rows| ==> Seen(rows[i], moments, k)
  }

  /** The key was there at each of the first `k` moments. */
  ghost predicate Stayed(moments: nat -> seq<Row>, k: nat, key: Key) {
    forall j :: 0 <= j < k ==> HasKey(moments(j), key)
  }

  /** What holds after `k` pages: in order, from the moments read, and missing nothing up to the cursor. */
  ghost predicate Walked(rows: seq<Row>, moments: nat -> seq<Row>, k: nat, cursor: Option<Key>) {
    && Ascending(rows) && (forall i :: 0 <= i < |rows| ==> Upto(cursor, rows[i].key))
    && FromMoments(rows, moments, k)
    && (forall key :: Upto(cursor, key) && Stayed(moments, k, key) ==> HasKey(rows, key))
  }

  /**
   What a finished keyset walk returns: keys strictly ascending, so no row twice; every row from
   the rows of some moment read; and every key that was there at all those moments.
   */
  ghost predicate Complete(rows: seq<Row>, moments: nat -> seq<Row>, n: nat) {
    && Ascending(rows) && FromMoments(rows, moments, n)
    && (forall key :: Stayed(moments, n, key) ==> HasKey(rows, key))
  }

  /** Rows up to the cursor and then some rows past it, in order. */
  lemma PageExtends(rows: seq<Row>, moment: seq<Row>, cut: nat, page: seq<Row>, cursor: Option<Key>)
    requires Ascending(rows) && forall i :: 0 <= i < |rows| ==> Upto(cursor, rows[i].key)
    requires Ascending(moment) && Splits(moment, cut, cursor) && page <= moment[cut..]
    ensures Ascending(rows + page)
    ensures page != [] ==> forall i :: 0 <= i < |rows + page| ==> Upto(Some(page[|page| - 1].key), (rows + page)[i].key)
  {
    forall j | 0 <= j < |page| ensures page[j] == moment[cut + j] {
    }
    forall i, j | 0 <= i < |rows| && 0 <= j < |page| ensures Less(rows[i].key, page[j].key) {
      assert Upto(cursor, rows[i].key);
      LessIsOrder(cursor.value, rows[i].key);
      if rows[i].key != cursor.value {
        LessTransitive(rows[i].key, cursor.value, page[j].key);
      }
    }
    if page != [] {
      var last := page[|page| - 1].key;
      forall i | 0 <= i < |rows + page| ensures !Less(last, (rows + page)[i].key) {
        LessIsOrder(last, (rows + page)[i].key);
      }
    }
  }

  /** A row past the cursor is on the page, or past the page's last row. */
  lemma PageCovers(moment: seq<Row>, cut: nat, page: seq<Row>, cursor: Option<Key>, key: Key)
    requires Ascending(moment) && Splits(moment, cut, cursor) && page <= moment[cut..]
    requires HasKey(moment, key) && !Upto(cursor, key)
    requires page == moment[cut..] || (page != [] && Upto(Some(page[|page| - 1].key), key))
    ensures HasKey(page, key)
  {
    var i :| 0 <= i < |moment| && moment[i].key == key;
    assert i >= cut;
    if page != moment[cut..] {
      assert page[|page| - 1] == moment[cut + |page| - 1];
      forall m | cut + |page| <= m < |moment| ensures Less(page[|page| - 1].key, moment[m].key) {
      }
    }
    assert page[i - cut] == moment[i];
  }

  lemma PageIsFromMoments(rows: seq<Row>, moments: nat -> seq<Row>, k: nat, cut: nat, page: seq<Row>)
    requires FromMoments(rows, moments, k) && cut <= |moments(k)| && page <= moments(k)[cut..]
    ensures FromMoments(rows + page, moments, k + 1)
  {
    forall i | 0 <= i < |rows + page| ensures Seen((rows + page)[i], moments, k + 1) {
      if i < |rows| {
        assert Seen(rows[i], moments, k);
      } else {
        assert (rows + page)[i] == moments(k)[cut + (i - |rows|)];
      }
    }
  }

  lemma StayedIsFound(rows: seq<Row>, moments: nat -> seq<Row>, k: nat, cut: nat, page: seq<Row>, cursor: Option<Key>, key: Key)
    requires Walked(rows, moments, k, cursor)
    requires Ascending(moments(k)) && Splits(moments(k), cut, cursor) && page <= moments(k)[cut..]
    requires Stayed(moments, k + 1, key)
    requires page == moments(k)[cut..] || (page != [] && Upto(Some(page[|page| - 1].key), key))
    ensures HasKey(rows + page, key)
  {
    assert Stayed(moments, k, key);
    if Upto(cursor, key) {
      var i :| 0 <= i < |rows| && rows[i].key == key;
      assert (rows + page)[i].key == key;
    } else {
      assert HasKey(moments(k), key);
      PageCovers(moments(k), cut, page, cursor, key);
      var i :| 0 <= i < |page| && page[i].key == key;
      assert (rows + page)[|rows| + i].key == key;
    }
  }

  /** One more page reaches its last key, and the end when it holds all that is left. */
  lemma PageKeepsWalked(rows: seq<Row>, moments: nat -> seq<Row>, k: nat, cut: nat, page: seq<Row>, cursor: Option<Key>)
    requires Walked(rows, moments, k, cursor)
    requires Ascending(moments(k)) && Splits(moments(k), cut, cursor) && page <= moments(k)[cut..]
    ensures page != [] ==> Walked(rows + page, moments, k + 1, Some(page[|page| - 1].key))
    ensures page == moments(k)[cut..] ==> Complete(rows + page, moments, k + 1)
  {
    PageExtends(rows, moments(k), cut, page, cursor);
    PageIsFromMoments(rows, moments, k, cut, page);
    forall key | Stayed(moments, k + 1, key)
      ensures page != [] && Upto(Some(page[|page| - 1].key), key) ==> HasKey(rows + page, key)
      ensures page == moments(k)[cut..] ==> HasKey(rows + page, key)
    {
      if page == moments(k)[cut..] || (page != [] && Upto(Some(page[|page| - 1].key), key)) {
        StayedIsFound(rows, moments, k, cut, page, cursor, key);
      }
    }
  }

  /** The verdicts on a truthful report: the page has a last key, or is all that was left. */
  lemma VerdictOnReport(w: Walk, answer: Response, rest: seq<Row>)
    requires Reports(answer, rest)
    ensures var verdict, after := Judge(true, w, answer), Advance(true, w, answer);
            && (verdict != Refuse ==> answer.Answer? && answer.rows <= rest && after.rows == w.rows + answer.rows)
            && (verdict == More ==> answer.rows != [] && after.cursor == Some(answer.rows[|answer.rows| - 1].key))
            && (verdict == Finish ==> answer.rows == rest)
  {
  }

  lemma PageStep(server: Server, moments: nat -> seq<Row>, k: nat)
    requires Truthful(server, moments) && VerdictAt(server, true, k) != Refuse
    requires Walked(At(server, true, k).rows, moments, k, At(server, true, k).cursor)
    ensures var after := At(server, true, k + 1);
            && (VerdictAt(server, true, k) == More ==> Walked(after.rows, moments, k + 1, after.cursor))
            && (VerdictAt(server, true, k) == Finish ==> Complete(after.rows, moments, k + 1))
  {
    var w := At(server, true, k);
    var answer := server(k, AfterKey(w.cursor));
    assert TruthfulAt(server, k, moments(k), w.cursor);
    var cut: nat :| Splits(moments(k), cut, w.cursor) && Reports(answer, moments(k)[cut..]);
    VerdictOnReport(w, answer, moments(k)[cut..]);
    PageKeepsWalked(w.rows, moments, k, cut, answer.rows, w.cursor);
  }

  lemma WalkedSoFar(server: Server, moments: nat -> seq<Row>, k: nat)
    requires Truthful(server, moments)
    requires forall j :: 0 <= j < k ==> VerdictAt(server, true, j) == More
    ensures Walked(At(server, true, k).rows, moments, k, At(server, true, k).cursor)
  {
    var j := 0;
    while j < k
      invariant j <= k && Walked(At(server, true, j).rows, moments, j, At(server, true, j).cursor)
    {
      PageStep(server, moments, j);
      j := j + 1;
    }
  }

  /** Over an upstream whose rows change between pages, a keyset walk that ends is complete. */
  lemma KeysetWalkIsComplete(server: Server, moments: nat -> seq<Row>, last: nat, result: Walk)
    requires Truthful(server, moments) && Ends(server, true, last) && result == At(server, true, last + 1)
    ensures Complete(result.rows, moments, last + 1)
  {
    WalkedSoFar(server, moments, last);
    PageStep(server, moments, last);
  }

  // ----- an upstream that does not change -----

  /** A page of a fixed list: as many of the rows left as a page holds, with their place and number. */
  ghost predicate FixedAnswer(answer: Response, rest: seq<Row>, start: nat, total: nat) {
    && answer.Answer? && answer.rows == rest[..Min(KOIOS_PAGE_SIZE, |rest|)]
    && match answer.range
       case Absent => start == 0 && total == |rest| < KOIOS_PAGE_SIZE && answer.status != 206
       case EmptyOf(n) => rest == [] && n == total
       case Span(s, e, n) =>
         && rest != [] && s == start && e + 1 == start + |answer.rows| && n == total
         && (|answer.rows| < |rest| ==> answer.status == 206)
  }

  ghost predicate Fixed(server: Server, keyset: bool, list: seq<Row>) {
    if keyset then
      && Ascending(list)
      && forall k, cursor, cut: nat :: Splits(list, cut, cursor) ==>
           && FixedAnswer(server(k, AfterKey(cursor)), list[cut..], 0, |list| - cut)
           && (cursor.Some? ==> !server(k, AfterKey(cursor)).range.Absent?)
    else
      forall k, offset: nat :: offset <= |list| ==> FixedAnswer(server(k, AtOffset(offset)), list[offset..], offset, |list|)
  }

  /** Where the walk of a fixed list stands after `k` full pages. */
  ghost predicate Stands(w: Walk, keyset: bool, list: seq<Row>, k: nat)
    requires k * KOIOS_PAGE_SIZE <= |list|
  {
    var read := k * KOIOS_PAGE_SIZE;
    && w.rows == list[..read] && w.pages == k
    && if keyset then w.cursor == (if k == 0 then None else Some(list[read - 1].key)) && (k == 0 ==> w.start == 0)
       else w.start == read && (w.total.Some? ==> w.total.value == |list|)
  }

  /** The page asked for there, and what the walk makes of it. */
  lemma FixedPage(server: Server, keyset: bool, list: seq<Row>, w: Walk, k: nat)
    requires Fixed(server, keyset, list) && |list| <= KOIOS_MAX_PAGED_ROWS
    requires k * KOIOS_PAGE_SIZE < |list| || (k == 0 && list == [])
    requires Stands(w, keyset, list, k)
    ensures var answer := server(k, QueryOf(keyset, w));
            var after := Advance(keyset, w, answer);
            if (k + 1) * KOIOS_PAGE_SIZE < |list|
            then Judge(keyset, w, answer) == More && Stands(after, keyset, list, k + 1)
            else Judge(keyset, w, answer) == Finish && after.rows == list
  {
    if keyset {
      FixedSplit(list, k, w.cursor);
    }
    var answer := server(k, QueryOf(keyset, w));
    FixedVerdict(keyset, w, answer, list, k);
    FixedAdvance(keyset, w, answer, list, k);
  }

  /** The answer is to the rows left at the walk's place. */
  ghost predicate AnswersAt(keyset: bool, answer: Response, list: seq<Row>, k: nat)
    requires k * KOIOS_PAGE_SIZE <= |list|
  {
    var read := k * KOIOS_PAGE_SIZE;
    && FixedAnswer(answer, list[read..], if keyset then 0 else read, if keyset then |list| - read else |list|)
    && (keyset && k > 0 ==> !answer.range.Absent?)
  }

  lemma FixedVerdict(keyset: bool, w: Walk, answer: Response, list: seq<Row>, k: nat)
    requires |list| <= KOIOS_MAX_PAGED_ROWS && (keyset ==> Ascending(list))
    requires k * KOIOS_PAGE_SIZE < |list| || (k == 0 && list == [])
    requires Stands(w, keyset, list, k) && AnswersAt(keyset, answer, list, k)
    ensures Judge(keyset, w, answer) == if (k + 1) * KOIOS_PAGE_SIZE < |list| then More else Finish
  {
    FixedRows(list, k * KOIOS_PAGE_SIZE, answer.rows, w.rows);
  }

  lemma FixedAdvance(keyset: bool, w: Walk, answer: Response, list: seq<Row>, k: nat)
    requires k * KOIOS_PAGE_SIZE < |list| || (k == 0 && list == [])
    requires Stands(w, keyset, list, k) && AnswersAt(keyset, answer, list, k)
    ensures var after := Advance(keyset, w, answer);
            if (k + 1) * KOIOS_PAGE_SIZE < |list| then Stands(after, keyset, list, k + 1) else after.rows == list
  {
    FixedRows(list, k * KOIOS_PAGE_SIZE, answer.rows, w.rows);
  }

  /** A page of what is left continues the list, and ends at its next full page or at its end. */
  lemma FixedRows(list: seq<Row>, read: nat, page: seq<Row>, rows: seq<Row>)
    requires read <= |list| && rows == list[..read]
    requires page == list[read..][..Min(KOIOS_PAGE_SIZE, |list| - read)]
    ensures rows + page == list[..Min(read + KOIOS_PAGE_SIZE, |list|)]
    ensures read + KOIOS_PAGE_SIZE >= |list| ==> rows + page == list
    ensures page != [] ==> page[|page| - 1] == list[Min(read + KOIOS_PAGE_SIZE, |list|) - 1]
  {
  }

  lemma FixedSplit(list: seq<Row>, k: nat, cursor: Option<Key>)
    requires Ascending(list) && k * KOIOS_PAGE_SIZE <= |list|
    requires cursor == if k == 0 then None else Some(list[k * KOIOS_PAGE_SIZE - 1].key)
    ensures Splits(list, k * KOIOS_PAGE_SIZE, cursor)
  {
    forall i | 0 <= i < k * KOIOS_PAGE_SIZE ensures !Less(cursor.value, list[i].key) {
      LessIsOrder(cursor.value, list[i].key);
    }
  }

  lemma {:induction false} FixedSoFar(server: Server, keyset: bool, list: seq<Row>, k: nat)
    requires Fixed(server, keyset, list) && |list| <= KOIOS_MAX_PAGED_ROWS
    requires k == 0 || k * KOIOS_PAGE_SIZE < |list|
    ensures Stands(At(server, keyset, k), keyset, list, k)
    ensures forall j :: 0 <= j < k ==> VerdictAt(server, keyset, j) == More
  {
    if k > 0 {
      FixedSoFar(server, keyset, list, k - 1);
      FixedPage(server, keyset, list, At(server, keyset, k - 1), k - 1);
    }
  }

  lemma FixedIsAccepted(server: Server, keyset: bool, keyed: bool, list: seq<Row>) returns (k: nat)
    requires Fixed(server, keyset, list) && (keyed ==> KeysDistinct(list)) && |list| <= KOIOS_MAX_PAGED_ROWS
    ensures Accepted(server, keyset, keyed, k) && At(server, keyset, k + 1).rows == list
  {
    k := if list == [] then 0 else (|list| - 1) / KOIOS_PAGE_SIZE;
    FixedSoFar(server, keyset, list, k);
    FixedPage(server, keyset, list, At(server, keyset, k), k);
  }

  lemma AcceptedOnce(server: Server, keyset: bool, keyed: bool, m: nat, n: nat)
    requires Accepted(server, keyset, keyed, m) && Accepted(server, keyset, keyed, n)
    ensures m == n
  {
  }

  /**
   Over a list that does not change, either kind of walk returns exactly that list, and does so
   exactly when the list is within the row bound.
   */
  lemma FixedListIsReturned(server: Server, keyset: bool, keyed: bool, list: seq<Row>)
    requires Fixed(server, keyset, list) && (keyed ==> KeysDistinct(list))
    ensures (exists last :: Accepted(server, keyset, keyed, last)) <==> |list| <= 100_000
    ensures forall last: nat :: Accepted(server, keyset, keyed, last) ==> At(server, keyset, last + 1).rows == list
  {
    if |list| <= KOIOS_MAX_PAGED_ROWS {
      var n := FixedIsAccepted(server, keyset, keyed, list);
      forall m: nat | Accepted(server, keyset, keyed, m) ensures At(server, keyset, m + 1).rows == list {
        AcceptedOnce(server, keyset, keyed, m, n);
      }
    } else {
      assert Splits(list, 0, None);
      assert FixedAnswer(server(0, QueryOf(keyset, At(server, keyset, 0))), list[0..], 0, |list|);
      NoneAccepted(server, keyset, keyed, 0);
    }
  }
}
