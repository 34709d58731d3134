/**
 Offset pages over rows that change between the requests: exactly which rows a walk returns, which it
 misses, and what a second walk that agrees with the first rules out.
 */
module KoiosOffsets {
  import opened Common
  import opened KoiosPaging
  import opened KoiosWalks
  import opened KoiosWire

  /**
   A truthful answer about the rows of its moment: some rows from the offset on and how many rows there
   are. Past the end there is no row to answer.
   */
  ghost predicate TruthfulOffset(answer: Response, rows: seq<Row>, offset: nat) {
    answer.Answer? ==>
      && (if offset <= |rows| then answer.rows <= rows[offset..] else answer.rows == [])
      && match answer.range
         case Absent => answer.status != 206 && offset == 0 && |answer.rows| < 1_000 ==> answer.rows == rows
         case EmptyOf(total) => total == |rows|
         case Span(start, end, total) => start == offset && total == |rows|
  }

  /** Each request is answered from that moment's rows; nothing relates one moment's to the next's. */
  ghost predicate TruthfulOffsets(server: Server, moments: nat -> seq<Row>) {
    forall k, offset: nat :: TruthfulOffset(server(k, AtOffset(offset)), moments(k), offset)
  }

  /** A page holds as many rows as the limit and what is left allow. */
  ghost predicate FullPages(server: Server, moments: nat -> seq<Row>) {
    forall k, offset: nat :: server(k, AtOffset(offset)).Answer? && offset <= |moments(k)| ==>
      |server(k, AtOffset(offset)).rows| == Min(1_000, |moments(k)| - offset)
  }

  // ----- where the pages lie -----

  /** How many rows the walk has after `k` pages: the offset of the next one. */
  function Read(server: Server, k: nat): nat {
    |At(server, false, k).rows|
  }

  /** Index `i` lies on page `k`. */
  predicate OnPage(server: Server, k: nat, i: nat) {
    Read(server, k) <= i < Read(server, k + 1)
  }

  lemma PageLies(w: Walk, answer: Response, rows: seq<Row>)
    requires w.start == |w.rows| && TruthfulOffset(answer, rows, w.start)
    ensures var verdict, after := Judge(false, w, answer), Advance(false, w, answer);
            && (verdict != Refuse ==>
                  && answer.Answer? && |w.rows| <= |after.rows| <= |rows|
                  && after.rows == w.rows + rows[|w.rows|..|after.rows|])
            && (verdict == More ==> after.start == |after.rows|)
            && (verdict == Finish ==> |after.rows| == |rows|)
  {
    if Judge(false, w, answer) != Refuse {
      assert |answer.rows| == 0 || w.start <= |rows|;
    }
  }

  /** The walk goes on where its rows end. */
  lemma {:induction false} StartIsRead(server: Server, moments: nat -> seq<Row>, k: nat)
    requires TruthfulOffsets(server, moments)
    requires forall j :: 0 <= j < k ==> VerdictAt(server, false, j) == More
    ensures At(server, false, k).start == Read(server, k)
  {
    if k == 0 {
      assert At(server, false, 0).rows == [];
    } else {
      var j: nat := k - 1;
      StartIsRead(server, moments, j);
      var w := At(server, false, j);
      assert TruthfulOffset(server(j, AtOffset(w.start)), moments(j), w.start);
      PageLies(w, server(j, AtOffset(w.start)), moments(j));
      assert VerdictAt(server, false, j) == More;
    }
  }

  /** Page `k` is that moment's rows from the offset it was asked at. */
  lemma PageAt(server: Server, moments: nat -> seq<Row>, k: nat)
    requires TruthfulOffsets(server, moments) && VerdictAt(server, false, k) != Refuse
    requires forall j :: 0 <= j < k ==> VerdictAt(server, false, j) == More
    ensures Read(server, k) <= Read(server, k + 1) <= |moments(k)|
    ensures At(server, false, k + 1).rows == At(server, false, k).rows + moments(k)[Read(server, k)..Read(server, k + 1)]
    ensures VerdictAt(server, false, k) == Finish ==> Read(server, k + 1) == |moments(k)|
  {
    StartIsRead(server, moments, k);
    var w := At(server, false, k);
    assert TruthfulOffset(server(k, AtOffset(w.start)), moments(k), w.start);
    PageLies(w, server(k, AtOffset(w.start)), moments(k));
  }

  ghost predicate Goes(server: Server, n: nat) {
    forall j: nat :: j < n ==> VerdictAt(server, false, j) != Refuse && forall i: nat :: i < j ==> VerdictAt(server, false, i) == More
  }

  lemma EndsGoes(server: Server, last: nat)
    requires Ends(server, false, last)
    ensures Goes(server, last + 1)
  {
  }

  /** The row at any index of the result is the one at that index of the moment its page was read. */
  lemma {:induction false} ResultAt(server: Server, moments: nat -> seq<Row>, n: nat, i: nat) returns (k: nat)
    requires TruthfulOffsets(server, moments) && Goes(server, n) && i < Read(server, n)
    ensures k < n && OnPage(server, k, i) && i < |moments(k)| && At(server, false, n).rows[i] == moments(k)[i]
  {
    var j: nat := n - 1;
    PageAt(server, moments, j);
    if i < Read(server, j) {
      k := ResultAt(server, moments, j, i);
    } else {
      k := j;
    }
  }

  lemma {:induction false} PageIsKept(server: Server, moments: nat -> seq<Row>, k: nat, n: nat, i: nat)
    requires TruthfulOffsets(server, moments) && Goes(server, n) && k < n && OnPage(server, k, i)
    ensures i < |moments(k)| && i < Read(server, n) && At(server, false, n).rows[i] == moments(k)[i]
  {
    var j: nat := n - 1;
    PageAt(server, moments, j);
    if k < j {
      PageIsKept(server, moments, k, j, i);
    }
  }

  // ----- exactly which rows are returned -----

  /** The key was there at each read, at index `pos` of that moment's rows, and only there. */
  ghost predicate StandsAt(moments: nat -> seq<Row>, last: nat, key: Key, pos: nat -> nat) {
    forall k: nat :: k <= last ==>
      KeysDistinct(moments(k)) && pos(k) < |moments(k)| && moments(k)[pos(k)].key == key
  }

  /** Between two reads the row went from past a page boundary to before it. */
  ghost predicate SlidBack(server: Server, pos: nat -> nat, k: nat) {
    pos(k + 1) < Read(server, k + 1) <= pos(k)
  }

  /** At some read the row stood on the very page that read asked for. */
  ghost predicate MetItsPage(server: Server, last: nat, pos: nat -> nat) {
    exists k: nat :: k <= last && OnPage(server, k, pos(k))
  }

  lemma ReturnedWasMet(server: Server, moments: nat -> seq<Row>, last: nat, key: Key, pos: nat -> nat)
    requires TruthfulOffsets(server, moments) && Goes(server, last + 1) && StandsAt(moments, last, key, pos)
    requires HasKey(At(server, false, last + 1).rows, key)
    ensures MetItsPage(server, last, pos)
  {
    var rows := At(server, false, last + 1).rows;
    var i :| 0 <= i < |rows| && rows[i].key == key;
    var k := ResultAt(server, moments, last + 1, i);
    assert moments(k)[pos(k)].key == moments(k)[i].key;
  }

  /**
   A key that was there at every read is returned if and only if at some read it stood on the very page
   that read asked for.
   */
  lemma OffsetWalkReturnsExactly(server: Server, moments: nat -> seq<Row>, last: nat, key: Key, pos: nat -> nat)
    requires TruthfulOffsets(server, moments) && Ends(server, false, last) && StandsAt(moments, last, key, pos)
    ensures HasKey(At(server, false, last + 1).rows, key) <==> MetItsPage(server, last, pos)
  {
    EndsGoes(server, last);
    if HasKey(At(server, false, last + 1).rows, key) {
      ReturnedWasMet(server, moments, last, key, pos);
    } else if k: nat :| k <= last && OnPage(server, k, pos(k)) {
      PageIsKept(server, moments, k, last + 1, pos(k));
    }
  }

  /** With full pages, the page asked for at read `k` is the rows from 1,000 k to 1,000 (k + 1). */
  lemma {:induction false} PagesAreFull(server: Server, moments: nat -> seq<Row>, k: nat)
    requires TruthfulOffsets(server, moments) && FullPages(server, moments)
    requires forall j :: 0 <= j < k ==> VerdictAt(server, false, j) == More
    ensures Read(server, k) == KOIOS_PAGE_SIZE * k
  {
    if k > 0 {
      var j: nat := k - 1;
      PagesAreFull(server, moments, j);
      StartIsRead(server, moments, j);
      PageAt(server, moments, j);
      MoreMeansFull(server, moments, j);
    }
  }

  lemma MoreMeansFull(server: Server, moments: nat -> seq<Row>, j: nat)
    requires TruthfulOffsets(server, moments) && FullPages(server, moments) && VerdictAt(server, false, j) == More
    requires At(server, false, j).start == Read(server, j) <= |moments(j)|
    ensures Read(server, j + 1) == Read(server, j) + KOIOS_PAGE_SIZE
  {
    var w := At(server, false, j);
    var answer := server(j, AtOffset(w.start));
    assert TruthfulOffset(answer, moments(j), w.start);
    assert |answer.rows| == Min(KOIOS_PAGE_SIZE, |moments(j)| - w.start);
  }

  lemma FullPageOf(server: Server, moments: nat -> seq<Row>, last: nat, k: nat, i: nat)
    requires TruthfulOffsets(server, moments) && FullPages(server, moments) && Ends(server, false, last) && k <= last
    requires i < |moments(k)|
    ensures OnPage(server, k, i) <==> KOIOS_PAGE_SIZE * k <= i < KOIOS_PAGE_SIZE * (k + 1)
  {
    EndsGoes(server, last);
    PagesAreFull(server, moments, k);
    PageAt(server, moments, k);
    if k < last {
      PagesAreFull(server, moments, k + 1);
    } else {
      StartIsRead(server, moments, k);
      FinishIsShort(server, moments, k);
    }
  }

  lemma FinishIsShort(server: Server, moments: nat -> seq<Row>, k: nat)
    requires TruthfulOffsets(server, moments) && FullPages(server, moments) && VerdictAt(server, false, k) == Finish
    requires At(server, false, k).start == Read(server, k) <= Read(server, k + 1) == |moments(k)|
    ensures |moments(k)| <= Read(server, k) + KOIOS_PAGE_SIZE
  {
    var w := At(server, false, k);
    var answer := server(k, AtOffset(w.start));
    assert |answer.rows| == Min(KOIOS_PAGE_SIZE, |moments(k)| - w.start);
  }

  /** The same with full pages: returned if and only if at some read `k` its index was on page `k`. */
  lemma FullPageWalkReturnsExactly(server: Server, moments: nat -> seq<Row>, last: nat, key: Key, pos: nat -> nat)
    requires TruthfulOffsets(server, moments) && FullPages(server, moments)
    requires Ends(server, false, last) && StandsAt(moments, last, key, pos)
    ensures HasKey(At(server, false, last + 1).rows, key) <==>
            exists k: nat :: k <= last && 1_000 * k <= pos(k) < 1_000 * (k + 1)
  {
    OffsetWalkReturnsExactly(server, moments, last, key, pos);
    assert MetItsPage(server, last, pos) <==> exists k: nat :: k <= last && OnPage(server, k, pos(k));
    forall k: nat | k <= last
      ensures OnPage(server, k, pos(k)) <==> KOIOS_PAGE_SIZE * k <= pos(k) < KOIOS_PAGE_SIZE * (k + 1)
    {
      FullPageOf(server, moments, last, k, pos(k));
    }
  }

  // ----- what a missed row did -----

  lemma UnmetSlidBack(server: Server, last: nat, pos: nat -> nat) returns (k: nat)
    requires !MetItsPage(server, last, pos) && pos(last) < Read(server, last + 1)
    ensures k < last && SlidBack(server, pos, k)
  {
    k := 0;
    assert Read(server, 0) == 0;
    while k < last && Read(server, k + 1) <= pos(k + 1)
      invariant k <= last && Read(server, k) <= pos(k)
    {
      k := k + 1;
    }
    assert !OnPage(server, k, pos(k));
  }

  /** A missed key slid back over a page boundary between two reads. */
  lemma MissedRowSlidBack(server: Server, moments: nat -> seq<Row>, last: nat, key: Key, pos: nat -> nat) returns (k: nat)
    requires TruthfulOffsets(server, moments) && Ends(server, false, last) && StandsAt(moments, last, key, pos)
    requires !HasKey(At(server, false, last + 1).rows, key)
    ensures k < last && SlidBack(server, pos, k)
  {
    OffsetWalkReturnsExactly(server, moments, last, key, pos);
    PageAt(server, moments, last);
    k := UnmetSlidBack(server, last, pos);
  }

  /** So a row that never moves back, because nothing ahead of it goes away, is always returned. */
  lemma RowThatStaysIsReturned(server: Server, moments: nat -> seq<Row>, last: nat, key: Key, pos: nat -> nat)
    requires TruthfulOffsets(server, moments) && Ends(server, false, last) && StandsAt(moments, last, key, pos)
    requires forall k: nat :: k < last ==> pos(k) <= pos(k + 1)
    ensures HasKey(At(server, false, last + 1).rows, key)
  {
    if !HasKey(At(server, false, last + 1).rows, key) {
      var k := MissedRowSlidBack(server, moments, last, key, pos);
    }
  }

  // ----- a second walk that must agree -----

  /** The upstream as the requests after the first `n` find it. */
  function Later(server: Server, n: nat): Server {
    (k: nat, q: Query) => server(n + k, q)
  }

  function KeysOf(rows: seq<Row>): (keys: seq<Key>)
    ensures |keys| == |rows| && forall i :: 0 <= i < |rows| ==> keys[i] == rows[i].key
  {
    seq(|rows|, i requires 0 <= i < |rows| => rows[i].key)
  }

  /** A walk of one page, a keyset walk, or one nobody asked to verify is taken as it is. */
  predicate TakenAlone(keyset: bool, keyed: bool, verify: bool, last: nat) {
    last == 0 || !keyed || !verify || keyset
  }

  /** The whole read: one complete walk, and where it is to be verified a second one with the same keys. */
  ghost predicate ReadsAll(server: Server, keyset: bool, keyed: bool, verify: bool, last: nat, again: nat, rows: seq<Row>) {
    && Accepted(server, keyset, keyed, last) && (verify ==> keyed)
    && var first := At(server, keyset, last + 1).rows;
       if TakenAlone(keyset, keyed, verify, last) then rows == first
       else
         && Accepted(Later(server, last + 1), false, true, again)
         && rows == At(Later(server, last + 1), false, again + 1).rows && KeysOf(rows) == KeysOf(first)
  }

  lemma AcceptedIsOne(server: Server, keyset: bool, keyed: bool, m: nat)
    requires Accepted(server, keyset, keyed, m)
    ensures forall n: nat :: Accepted(server, keyset, keyed, n) ==> n == m
  {
    forall n: nat | Accepted(server, keyset, keyed, n) ensures n == m {
      AcceptedOnce(server, keyset, keyed, m, n);
    }
  }

  /**
   What is read, said without the loop: one complete walk, if it is by keys, not to be verified, or a single
   page; otherwise the second of two complete offset walks with the same keys in the same order.
   */
  lemma ReadIsOneWalkOrTwo(server: Server, keyset: bool, keyed: bool, verify: bool, last: nat, again: nat, rows: seq<Row>)
    requires verify ==> keyed
    ensures keyset || !verify || last == 0 ==>
              (ReadsAll(server, keyset, keyed, verify, last, again, rows) <==>
               CompleteWalk(server, keyset, keyed, last) && rows == RowsOf(server, keyset, last + 1))
    ensures !keyset && verify && last > 0 ==>
              (ReadsAll(server, keyset, keyed, verify, last, again, rows) <==>
               && CompleteWalk(server, false, true, last) && CompleteWalk(Later(server, last + 1), false, true, again)
               && rows == OffsetRows(Later(server, last + 1), again + 1)
               && KeysOf(rows) == KeysOf(OffsetRows(server, last + 1)))
  {
    AcceptedExactly(server, keyset, keyed, last);
    AcceptedExactly(Later(server, last + 1), false, true, again);
  }

  /** The key-by-key comparison of the two walks; their totals are their numbers of rows. */
  method SameMembership(first: seq<Row>, second: seq<Row>) returns (same: bool)
    ensures same <==> KeysOf(first) == KeysOf(second)
  {
    if |first| != |second| {
      assert |KeysOf(first)| != |KeysOf(second)|;
      return false;
    }
    for i := 0 to |first|
      invariant forall j :: 0 <= j < i ==> first[j].key == second[j].key
    {
      if first[i].key != second[i].key {
        assert KeysOf(first)[i] != KeysOf(second)[i];
        return false;
      }
    }
    same := true;
  }

  /** Rows exactly when the answers make the whole read, and then its rows. */
  method BatchAllPages(server: Server, keyset: bool, keyed: bool, verify: bool) returns (result: Option<seq<Row>>)
    ensures result.Some? ==> exists last, again :: ReadsAll(server, keyset, keyed, verify, last, again, result.value)
    ensures result.None? ==> forall last, again, rows :: !ReadsAll(server, keyset, keyed, verify, last, again, rows)
  {
    if verify && !keyed {
      return None;
    }
    var first := WalkBatchPages(server, keyset, keyed);
    if first.None? {
      return None;
    }
    ghost var last: nat := first.value.pages - 1;
    AcceptedIsOne(server, keyset, keyed, last);
    if first.value.pages == 1 || !keyed || !verify || keyset {
      assert ReadsAll(server, keyset, keyed, verify, last, 0, first.value.rows);
      return Some(first.value.rows);
    }
    var second := WalkBatchPages(Later(server, first.value.pages), false, true);
    if second.None? {
      return None;
    }
    ghost var again: nat := second.value.pages - 1;
    AcceptedIsOne(Later(server, last + 1), false, true, again);
    var same := SameMembership(second.value.rows, first.value.rows);
    if !same {
      return None;
    }
    assert ReadsAll(server, keyset, keyed, verify, last, again, second.value.rows);
    result := Some(second.value.rows);
  }

  lemma LaterIsTruthful(server: Server, moments: nat -> seq<Row>, n: nat, after: nat -> seq<Row>)
    requires TruthfulOffsets(server, moments) && forall k: nat :: after(k) == moments(n + k)
    ensures TruthfulOffsets(Later(server, n), after)
  {
    forall k, offset: nat ensures TruthfulOffset(Later(server, n)(k, AtOffset(offset)), after(k), offset) {
      assert TruthfulOffset(server(n + k, AtOffset(offset)), moments(n + k), offset);
    }
  }

  lemma SameKeysHold(a: seq<Row>, b: seq<Row>, key: Key)
    requires KeysOf(a) == KeysOf(b)
    ensures HasKey(a, key) ==> HasKey(b, key)
  {
    if i :| 0 <= i < |a| && a[i].key == key {
      assert KeysOf(b)[i] == KeysOf(a)[i];
    }
  }

  /** A key that was there throughout both agreeing walks: where it stood when each of them read. */
  ghost predicate StandsTwice(moments: nat -> seq<Row>, after: nat -> seq<Row>, last: nat, again: nat, key: Key,
                              pos: nat -> nat, posAfter: nat -> nat) {
    && (forall i: nat :: after(i) == moments(last + 1 + i))
    && StandsAt(moments, last, key, pos) && StandsAt(after, again, key, posAfter)
  }

  /** Walks that agree met the key's page both or neither, and the result has the key in the first case only. */
  lemma AgreedReadReturnsExactly(server: Server, moments: nat -> seq<Row>, after: nat -> seq<Row>, last: nat, again: nat,
                                 rows: seq<Row>, key: Key, pos: nat -> nat, posAfter: nat -> nat)
    requires TruthfulOffsets(server, moments) && StandsTwice(moments, after, last, again, key, pos, posAfter)
    requires ReadsAll(server, false, true, true, last, again, rows) && last > 0
    ensures HasKey(rows, key) <==> MetItsPage(server, last, pos)
    ensures HasKey(rows, key) <==> MetItsPage(Later(server, last + 1), again, posAfter)
  {
    SameKeysHold(At(server, false, last + 1).rows, rows, key);
    SameKeysHold(rows, At(server, false, last + 1).rows, key);
    OffsetWalkReturnsExactly(server, moments, last, key, pos);
    LaterIsTruthful(server, moments, last + 1, after);
    OffsetWalkReturnsExactly(Later(server, last + 1), after, again, key, posAfter);
  }

  /**
   What two agreeing walks rule out: a key that was there throughout both and is missing from the result
   slid back over a page boundary during the first walk and again during the second.
   */
  lemma AgreedMissSlidBackTwice(server: Server, moments: nat -> seq<Row>, after: nat -> seq<Row>, last: nat, again: nat,
                                rows: seq<Row>, key: Key, pos: nat -> nat, posAfter: nat -> nat)
    returns (k: nat, j: nat)
    requires TruthfulOffsets(server, moments) && StandsTwice(moments, after, last, again, key, pos, posAfter)
    requires ReadsAll(server, false, true, true, last, again, rows) && last > 0 && !HasKey(rows, key)
    ensures k < last && SlidBack(server, pos, k)
    ensures j < again && SlidBack(Later(server, last + 1), posAfter, j)
  {
    SameKeysHold(At(server, false, last + 1).rows, rows, key);
    k := MissedRowSlidBack(server, moments, last, key, pos);
    LaterIsTruthful(server, moments, last + 1, after);
    j := MissedRowSlidBack(Later(server, last + 1), after, again, key, posAfter);
  }

  // ----- the hazard, by example -----

  function Numbered(n: nat): Row {
    Row(Key("", n), 0)
  }

  /** A page and one row more, from some row on. */
  function Window(first: nat): (rows: seq<Row>)
    ensures |rows| == KOIOS_PAGE_SIZE + 1 && forall i: nat :: i < |rows| ==> rows[i] == Numbered(first + i)
  {
    seq(KOIOS_PAGE_SIZE + 1, (i: nat) => Numbered(first + i))
  }

  /** After the first request the oldest row is gone and a new one has come. */
  function Moment(k: nat): seq<Row> {
    Window(if k == 0 then 0 else 1)
  }

  function Sliding(k: nat, q: Query): Response {
    if q.AfterKey? then Failed
    else if q.offset >= |Moment(k)| then Answer([], 200, EmptyOf(|Moment(k)|))
    else
      var page := Moment(k)[q.offset..][..Min(KOIOS_PAGE_SIZE, |Moment(k)| - q.offset)];
      Answer(page, 206, Span(q.offset, q.offset + |page| - 1, |Moment(k)|))
  }

  lemma SlidingWalk()
    ensures VerdictAt(Sliding, false, 0) == More && VerdictAt(Sliding, false, 1) == Finish
    ensures At(Sliding, false, 2).rows == Window(0)[..KOIOS_PAGE_SIZE] + [Numbered(KOIOS_PAGE_SIZE + 1)]
  {
    var first := Window(0)[..KOIOS_PAGE_SIZE];
    assert Window(0)[0..][..KOIOS_PAGE_SIZE] == first;
    assert At(Sliding, false, 1) == Walk(first, KOIOS_PAGE_SIZE, Some(KOIOS_PAGE_SIZE + 1), None, 1);
    assert Window(1)[KOIOS_PAGE_SIZE..][..1] == [Numbered(KOIOS_PAGE_SIZE + 1)];
  }

  lemma SlidingRows(n: nat)
    requires n == KOIOS_PAGE_SIZE + 1
    ensures var rows := Window(0)[..KOIOS_PAGE_SIZE] + [Numbered(n)]; KeysDistinct(rows) && Numbered(n - 1) !in rows
  {
    var rows := Window(0)[..KOIOS_PAGE_SIZE] + [Numbered(n)];
    assert forall i: nat :: i < KOIOS_PAGE_SIZE ==> rows[i] == Window(0)[i] == Numbered(i);
  }

  lemma SlidingIsTruthful()
    ensures TruthfulOffsets(Sliding, Moment) && FullPages(Sliding, Moment)
  {
    forall k, offset: nat ensures TruthfulOffset(Sliding(k, AtOffset(offset)), Moment(k), offset) {
    }
  }

  /**
   Why account reads use keysets: between two offset pages one row goes and another comes, the total
   does not move, no key repeats, and a row that was there all along is missing from the result.
   */
  lemma OffsetWalkMayMissARow()
    ensures TruthfulOffsets(Sliding, Moment) && Accepted(Sliding, false, true, 1)
    ensures Numbered(KOIOS_PAGE_SIZE) !in At(Sliding, false, 2).rows
    ensures forall k :: Numbered(KOIOS_PAGE_SIZE) in Moment(k)
  {
    SlidingIsTruthful();
    SlidingWalk();
    SlidingRows(KOIOS_PAGE_SIZE + 1);
    forall k: nat ensures Numbered(KOIOS_PAGE_SIZE) in Moment(k) {
      assert Moment(k)[KOIOS_PAGE_SIZE - if k == 0 then 0 else 1] == Numbered(KOIOS_PAGE_SIZE);
    }
  }
}
