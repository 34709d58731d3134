/**
 The subset of CBOR (RFC 8949, section 3) that a Byron address uses: definite lengths, major types
 0 to 6 and arguments of up to four bytes. A grammar of items beside the reader that skips them.
 */
module Cbor {
  import opened Common

  // ----- the grammar -----

  /** Where an item's argument is written: in the first byte, or in the bytes after it. */
  datatype Width = Short | One | Two | Four

  datatype Head = Head(width: Width, value: nat)
  {
    predicate Fits() {
      match width
      case Short => value < 24
      case One => value < 0x100
      case Two => value < 0x1_0000
      case Four => value < 0x1_0000_0000
    }
  }

  datatype Item =
    | Unsigned(head: Head)
    | Negative(head: Head)
    | ByteString(head: Head, content: seq<byte>)
    | TextString(head: Head, content: seq<byte>)
    | Array(head: Head, items: seq<Item>)
    | Map(head: Head, items: seq<Item>)
    | Tag(head: Head, item: Item)

  /** The lengths are the ones announced; a map lists its keys and values alternately. */
  predicate Legal(item: Item) {
    && item.head.Fits()
    && match item
       case Unsigned(_) => true
       case Negative(_) => true
       case ByteString(head, content) => |content| == head.value
       case TextString(head, content) => |content| == head.value
       case Array(head, items) => |items| == head.value && AllLegal(items)
       case Map(head, items) => |items| == 2 * head.value && AllLegal(items)
       case Tag(_, inner) => Legal(inner)
  }

  predicate AllLegal(items: seq<Item>) {
    forall i :: 0 <= i < |items| ==> Legal(items[i])
  }

  /** The argument's low five bits of the first byte. */
  function Info(head: Head): (info: nat)
    requires head.Fits()
    ensures info < 27
  {
    match head.width case Short => head.value case One => 24 case Two => 25 case Four => 26
  }

  /** How many bytes of the argument follow the first. */
  function Extra(head: Head): nat {
    match head.width case Short => 0 case One => 1 case Two => 2 case Four => 4
  }

  /** The `n` low bytes of a number, most significant first. */
  function BigEndian(v: nat, n: nat): (bytes: seq<byte>)
    ensures |bytes| == n
  {
    if n == 0 then [] else BigEndian(v / 0x100, n - 1) + [v % 0x100]
  }

  function EncodeHead(major: nat, head: Head): (bytes: seq<byte>)
    requires major < 8 && head.Fits()
    ensures |bytes| == 1 + Extra(head)
  {
    [32 * major + Info(head)] + BigEndian(head.value, Extra(head))
  }

  function Major(item: Item): (major: nat)
    ensures major < 7
  {
    match item
    case Unsigned(_) => 0
    case Negative(_) => 1
    case ByteString(_, _) => 2
    case TextString(_, _) => 3
    case Array(_, _) => 4
    case Map(_, _) => 5
    case Tag(_, _) => 6
  }

  function Encode(item: Item): (bytes: seq<byte>)
    requires Legal(item)
    ensures |bytes| > 0
    decreases item, 1
  {
    EncodeHead(Major(item), item.head) + Content(item)
  }

  function Content(item: Item): seq<byte>
    requires Legal(item)
    decreases item, 0
  {
    match item
    case Unsigned(_) => []
    case Negative(_) => []
    case ByteString(_, content) => content
    case TextString(_, content) => content
    case Array(_, items) => EncodeFrom(items, 0)
    case Map(_, items) => EncodeFrom(items, 0)
    case Tag(_, inner) => Encode(inner)
  }

  /** The items from index `k` on, one after another. */
  function EncodeFrom(items: seq<Item>, k: nat): seq<byte>
    requires k <= |items| && AllLegal(items)
    decreases items, |items| - k
  {
    if k == |items| then [] else Encode(items[k]) + EncodeFrom(items, k + 1)
  }

  /** Heads the standard itself gives (RFC 8949, appendix A): of 24, 1000, 1000000, -1000 and an array of three. */
  lemma StandardHeads()
    ensures EncodeHead(0, Head(One, 24)) == [0x18, 0x18]
    ensures EncodeHead(0, Head(Two, 1000)) == [0x19, 0x03, 0xe8]
    ensures EncodeHead(0, Head(Four, 1000000)) == [0x1a, 0x00, 0x0f, 0x42, 0x40]
    ensures EncodeHead(1, Head(Two, 999)) == [0x39, 0x03, 0xe7]
    ensures EncodeHead(4, Head(Short, 3)) == [0x83]
  {
    assert BigEndian(1000, 2) == [0x03, 0xe8];
    assert BigEndian(999, 2) == [0x03, 0xe7];
    assert BigEndian(3906, 2) == [0x0f, 0x42];
    assert BigEndian(1000000, 4) == [0x00, 0x0f, 0x42, 0x40];
  }

  function Small(n: nat): Item {
    Unsigned(Head(Short, n))
  }

  /** And items: 10, -10, the byte 0x04, "a", [1, 2], {1: 2} and a tagged byte string. */
  lemma StandardItems()
    ensures Encode(Small(10)) == [0x0a] && Encode(Negative(Head(Short, 9))) == [0x29]
    ensures Encode(ByteString(Head(Short, 1), [0x04])) == [0x41, 0x04]
    ensures Encode(TextString(Head(Short, 1), [0x61])) == [0x61, 0x61]
    ensures Legal(Array(Head(Short, 2), [Small(1), Small(2)])) && Encode(Array(Head(Short, 2), [Small(1), Small(2)])) == [0x82, 1, 2]
    ensures Legal(Map(Head(Short, 1), [Small(1), Small(2)])) && Encode(Map(Head(Short, 1), [Small(1), Small(2)])) == [0xa1, 1, 2]
    ensures Encode(Tag(Head(One, 24), ByteString(Head(Short, 1), [0x04]))) == [0xd8, 0x18, 0x41, 0x04]
  {
    TwoItems(Small(1), Small(2));
    assert Encode(Small(1)) == [1] && Encode(Small(2)) == [2];
  }

  lemma TwoItems(first: Item, second: Item)
    requires Legal(first) && Legal(second)
    ensures EncodeFrom([first, second], 0) == Encode(first) + Encode(second)
  {
    assert EncodeFrom([first, second], 2) == [];
    assert EncodeFrom([first, second], 1) == Encode(second);
  }

  // ----- the reader -----

  datatype Header = Header(major: nat, value: nat, length: nat)

  function ByteAt(bytes: seq<byte>, offset: nat): Option<nat> {
    if offset < |bytes| then Some(bytes[offset]) else None
  }

  /** One item's header, or nothing where it is cut off or its argument is of another kind. */
  function ReadHeader(bytes: seq<byte>, offset: nat): (header: Option<Header>)
    ensures header.Some? ==> header.value.major < 8 && 0 < header.value.length && offset + header.value.length <= |bytes|
  {
    var first := ByteAt(bytes, offset);
    if first.None? then None
    else
      var major, info := first.value / 32, first.value % 32;
      var b1, b2, b3, b4 := ByteAt(bytes, offset + 1), ByteAt(bytes, offset + 2), ByteAt(bytes, offset + 3), ByteAt(bytes, offset + 4);
      if info < 24 then Some(Header(major, info, 1))
      else if info == 24 then
        if b1.None? then None else Some(Header(major, b1.value, 2))
      else if info == 25 then
        if b2.None? then None else Some(Header(major, b1.value * 0x100 + b2.value, 3))
      else if info == 26 then
        if b4.None? then None
        else Some(Header(major, b1.value * 0x100_0000 + (b2.value * 0x1_0000 + b3.value * 0x100 + b4.value), 5))
      else None
  }

  /** The offset just past the item at `offset`. */
  function SkipItem(bytes: seq<byte>, offset: nat): (next: Option<nat>)
    requires offset <= |bytes|
    ensures next.Some? ==> offset < next.value <= |bytes|
    decreases |bytes| - offset, 0
  {
    var header := ReadHeader(bytes, offset);
    if header.None? then None
    else
      var next, value := offset + header.value.length, header.value.value;
      if header.value.major <= 1 then Some(next)
      else if header.value.major <= 3 then (if next + value > |bytes| then None else Some(next + value))
      else if header.value.major == 4 then SkipMany(bytes, next, value)
      else if header.value.major == 5 then SkipMany(bytes, next, 2 * value)
      else if header.value.major == 6 then SkipItem(bytes, next)
      else None
  }

  function SkipMany(bytes: seq<byte>, offset: nat, n: nat): (next: Option<nat>)
    requires offset <= |bytes|
    ensures next.Some? ==> offset <= next.value <= |bytes|
    decreases |bytes| - offset, n
  {
    if n == 0 then Some(offset)
    else
      var next := SkipItem(bytes, offset);
      if next.None? then None else SkipMany(bytes, next.value, n - 1)
  }

  /** Skipping as the source does it: recursively, with a loop over an array's or a map's items. */
  method SkipCborItem(bytes: seq<byte>, offset: nat) returns (next: Option<nat>)
    requires offset <= |bytes|
    ensures next == SkipItem(bytes, offset)
    decreases |bytes| - offset, 0
  {
    var header := ReadHeader(bytes, offset);
    if header.None? {
      return None;
    }
    var at, value := offset + header.value.length, header.value.value;
    match header.value.major
    case 0 => next := Some(at);
    case 1 => next := Some(at);
    case 2 => next := if at + value > |bytes| then None else Some(at + value);
    case 3 => next := if at + value > |bytes| then None else Some(at + value);
    case 4 => next := SkipArray(bytes, at, value);
    case 5 => next := SkipMap(bytes, at, value);
    case 6 => next := SkipCborItem(bytes, at);
    case _ => next := None;
  }

  method SkipArray(bytes: seq<byte>, offset: nat, count: nat) returns (next: Option<nat>)
    requires offset <= |bytes|
    ensures next == SkipMany(bytes, offset, count)
    decreases |bytes| - offset, 1
  {
    var at := offset;
    for i := 0 to count
      invariant offset <= at <= |bytes|
      invariant SkipMany(bytes, offset, count) == SkipMany(bytes, at, count - i)
    {
      var item := SkipCborItem(bytes, at);
      if item.None? {
        return None;
      }
      at := item.value;
    }
    next := Some(at);
  }

  method SkipMap(bytes: seq<byte>, offset: nat, count: nat) returns (next: Option<nat>)
    requires offset <= |bytes|
    ensures next == SkipMany(bytes, offset, 2 * count)
    decreases |bytes| - offset, 1
  {
    var at := offset;
    for i := 0 to count
      invariant offset <= at <= |bytes|
      invariant SkipMany(bytes, offset, 2 * count) == SkipMany(bytes, at, 2 * (count - i))
    {
      var key := SkipCborItem(bytes, at);
      if key.None? {
        return None;
      }
      var value := SkipCborItem(bytes, key.value);
      if value.None? {
        return None;
      }
      assert SkipMany(bytes, at, 2 * (count - i)) == SkipMany(bytes, key.value, 2 * (count - i) - 1);
      at := value.value;
    }
    next := Some(at);
  }

  // ----- what stands where -----

  /** The bytes from `offset` on begin with `part`. */
  predicate At(bytes: seq<byte>, offset: nat, part: seq<byte>) {
    offset + |part| <= |bytes| && bytes[offset..offset + |part|] == part
  }

  lemma AtJoined(bytes: seq<byte>, offset: nat, a: seq<byte>, b: seq<byte>)
    ensures At(bytes, offset, a + b) <==> At(bytes, offset, a) && At(bytes, offset + |a|, b)
  {
    if At(bytes, offset, a + b) {
      assert a == (a + b)[..|a|] && b == (a + b)[|a|..];
    }
  }

  /** The number some bytes spell. */
  function Spelled(bytes: seq<byte>, n: nat): nat
    requires n <= |bytes|
  {
    if n == 0 then 0 else Spelled(bytes, n - 1) * 0x100 + bytes[n - 1]
  }

  function Power(n: nat): nat {
    if n == 0 then 1 else 0x100 * Power(n - 1)
  }

  lemma {:induction false} SpelledBack(v: nat, n: nat)
    requires v < Power(n)
    ensures Spelled(BigEndian(v, n), n) == v
  {
    if n > 0 {
      var front := BigEndian(v / 0x100, n - 1);
      SpelledBack(v / 0x100, n - 1);
      SpelledPrefix(front, [v % 0x100], n - 1);
    }
  }

  lemma {:induction false} SpelledPrefix(a: seq<byte>, b: seq<byte>, n: nat)
    requires n <= |a|
    ensures Spelled(a + b, n) == Spelled(a, n)
  {
    if n > 0 {
      SpelledPrefix(a, b, n - 1);
    }
  }

  lemma {:induction false} WrittenBack(bytes: seq<byte>, n: nat)
    requires n <= |bytes|
    ensures Spelled(bytes, n) < Power(n) && BigEndian(Spelled(bytes, n), n) == bytes[..n]
  {
    if n > 0 {
      WrittenBack(bytes, n - 1);
      var v := Spelled(bytes, n);
      assert v / 0x100 == Spelled(bytes, n - 1) && v % 0x100 == bytes[n - 1];
      assert bytes[..n] == bytes[..n - 1] + [bytes[n - 1]];
    }
  }

  lemma Widths(head: Head)
    ensures head.width != Short ==> (head.Fits() <==> head.value < Power(Extra(head)))
  {
    assert Power(1) == 0x100 && Power(2) == 0x1_0000 && Power(4) == 0x1_0000_0000;
  }

  /** The reader's sums are the numbers the bytes spell. */
  lemma SpelledIs(bytes: seq<byte>)
    ensures |bytes| >= 1 ==> Spelled(bytes, 1) == bytes[0]
    ensures |bytes| >= 2 ==> Spelled(bytes, 2) == 0x100 * bytes[0] as int + bytes[1]
    ensures |bytes| >= 4 ==>
              Spelled(bytes, 4) == 0x100_0000 * bytes[0] as int + (0x1_0000 * bytes[1] as int + 0x100 * bytes[2] as int + bytes[3])
  {
  }

  /** The argument bytes that a header of this width reads, and what they spell. */
  lemma HeaderOf(bytes: seq<byte>, offset: nat, part: seq<byte>)
    requires offset + 1 + |part| <= |bytes| && bytes[offset + 1..offset + 1 + |part|] == part
    ensures var major, info := bytes[offset] / 32, bytes[offset] % 32;
            && (info < 24 && |part| == 0 ==> ReadHeader(bytes, offset) == Some(Header(major, info, 1)))
            && (info == 24 && |part| == 1 ==> ReadHeader(bytes, offset) == Some(Header(major, Spelled(part, 1), 2)))
            && (info == 25 && |part| == 2 ==> ReadHeader(bytes, offset) == Some(Header(major, Spelled(part, 2), 3)))
            && (info == 26 && |part| == 4 ==> ReadHeader(bytes, offset) == Some(Header(major, Spelled(part, 4), 5)))
  {
    SpelledIs(part);
    assert forall i :: 0 <= i < |part| ==> bytes[offset + 1 + i] == part[i];
  }

  /** A head is read where one is written. */
  lemma HeadReads(bytes: seq<byte>, offset: nat, major: nat, head: Head)
    requires major < 8 && head.Fits() && At(bytes, offset, EncodeHead(major, head))
    ensures ReadHeader(bytes, offset) == Some(Header(major, head.value, |EncodeHead(major, head)|))
  {
    var part := BigEndian(head.value, Extra(head));
    AtJoined(bytes, offset, [32 * major + Info(head)], part);
    assert bytes[offset..offset + 1][0] == bytes[offset];
    HeaderOf(bytes, offset, part);
    Widths(head);
    if head.width != Short {
      SpelledBack(head.value, Extra(head));
    }
  }

  /** Where a head is read, one is written. */
  lemma HeadWasWritten(bytes: seq<byte>, offset: nat) returns (head: Head)
    requires ReadHeader(bytes, offset).Some?
    ensures var header := ReadHeader(bytes, offset).value;
            && head.Fits() && head.value == header.value
            && |EncodeHead(header.major, head)| == header.length && At(bytes, offset, EncodeHead(header.major, head))
  {
    var header := ReadHeader(bytes, offset).value;
    var part := bytes[offset + 1..offset + header.length];
    var width := match header.length case 1 => Short case 2 => One case 3 => Two case _ => Four;
    head := Head(width, header.value);
    HeaderOf(bytes, offset, part);
    Widths(head);
    WrittenBack(part, |part|);
    assert part[..|part|] == part;
    assert part == BigEndian(if width == Short then 0 else head.value, Extra(head));
    FirstOfSlice(bytes, offset, header.length);
  }

  lemma FirstOfSlice(bytes: seq<byte>, offset: nat, n: nat)
    requires 0 < n && offset + n <= |bytes|
    ensures bytes[offset..offset + n] == [bytes[offset]] + bytes[offset + 1..offset + n]
  {
  }

  // ----- an item is skipped exactly where one is written -----

  /** What skipping one item takes, once its header is read. */
  predicate ContentEnds(bytes: seq<byte>, major: nat, value: nat, next: nat, end: nat)
    requires next <= |bytes|
  {
    if major <= 1 then end == next
    else if major <= 3 then end == next + value <= |bytes|
    else if major == 4 then SkipMany(bytes, next, value) == Some(end)
    else if major == 5 then SkipMany(bytes, next, 2 * value) == Some(end)
    else major == 6 && SkipItem(bytes, next) == Some(end)
  }

  lemma HeaderThenContent(bytes: seq<byte>, offset: nat, header: Header, end: nat)
    requires offset <= |bytes| && ReadHeader(bytes, offset) == Some(header)
    requires ContentEnds(bytes, header.major, header.value, offset + header.length, end)
    ensures SkipItem(bytes, offset) == Some(end)
  {
  }

  lemma AtSplits(bytes: seq<byte>, offset: nat, a: seq<byte>, b: seq<byte>)
    requires At(bytes, offset, a + b)
    ensures At(bytes, offset, a) && At(bytes, offset + |a|, b)
  {
    AtJoined(bytes, offset, a, b);
  }

  lemma {:induction false} ItemSkips(bytes: seq<byte>, offset: nat, item: Item)
    requires offset <= |bytes| && Legal(item) && At(bytes, offset, Encode(item))
    ensures SkipItem(bytes, offset) == Some(offset + |Encode(item)|)
    decreases item, 1
  {
    AtSplits(bytes, offset, EncodeHead(Major(item), item.head), Content(item));
    HeadReads(bytes, offset, Major(item), item.head);
    var length := |EncodeHead(Major(item), item.head)|;
    ContentSkips(bytes, offset + length, item);
    HeaderThenContent(bytes, offset, Header(Major(item), item.head.value, length), offset + length + |Content(item)|);
  }

  lemma {:induction false} ContentSkips(bytes: seq<byte>, next: nat, item: Item)
    requires next <= |bytes| && Legal(item) && At(bytes, next, Content(item))
    ensures ContentEnds(bytes, Major(item), item.head.value, next, next + |Content(item)|)
    decreases item, 0
  {
    match item
    case Array(_, items) => ItemsSkip(bytes, next, items, 0);
    case Map(_, items) => ItemsSkip(bytes, next, items, 0);
    case Tag(_, inner) => ItemSkips(bytes, next, inner);
    case _ =>
  }

  lemma {:induction false} ItemsSkip(bytes: seq<byte>, offset: nat, items: seq<Item>, k: nat)
    requires offset <= |bytes| && k <= |items| && AllLegal(items)
    requires At(bytes, offset, EncodeFrom(items, k))
    ensures SkipMany(bytes, offset, |items| - k) == Some(offset + |EncodeFrom(items, k)|)
    decreases items, |items| - k
  {
    if k < |items| {
      var next := FirstOfItems(bytes, offset, items, k);
      ItemSkips(bytes, offset, items[k]);
      ItemsSkip(bytes, next, items, k + 1);
      SkipManyMore(bytes, offset, |items| - k, next);
    }
  }

  lemma FirstOfItems(bytes: seq<byte>, offset: nat, items: seq<Item>, k: nat) returns (next: nat)
    requires offset <= |bytes| && k < |items| && AllLegal(items)
    requires At(bytes, offset, EncodeFrom(items, k))
    ensures At(bytes, offset, Encode(items[k])) && At(bytes, next, EncodeFrom(items, k + 1))
    ensures next == offset + |Encode(items[k])|
    ensures next + |EncodeFrom(items, k + 1)| == offset + |EncodeFrom(items, k)| <= |bytes|
  {
    AtSplits(bytes, offset, Encode(items[k]), EncodeFrom(items, k + 1));
    next := offset + |Encode(items[k])|;
  }

  lemma SkipManyMore(bytes: seq<byte>, offset: nat, n: nat, next: nat)
    requires offset <= |bytes| && n > 0 && SkipItem(bytes, offset) == Some(next)
    ensures SkipMany(bytes, offset, n) == SkipMany(bytes, next, n - 1)
  {
  }

  /** An item is written where its head is, and its content right after. */
  lemma Assemble(bytes: seq<byte>, offset: nat, item: Item)
    requires Legal(item) && At(bytes, offset, EncodeHead(Major(item), item.head))
    requires At(bytes, offset + |EncodeHead(Major(item), item.head)|, Content(item))
    ensures At(bytes, offset, Encode(item))
  {
    AtJoined(bytes, offset, EncodeHead(Major(item), item.head), Content(item));
  }

  /** Every header that can be skipped is an item's: the item, its head and its content. */
  lemma {:induction false} ItemWasWritten(bytes: seq<byte>, offset: nat) returns (item: Item)
    requires offset <= |bytes| && SkipItem(bytes, offset).Some?
    ensures Legal(item) && At(bytes, offset, Encode(item))
    decreases |bytes| - offset, 0
  {
    var header := ReadHeader(bytes, offset).value;
    var head := HeadWasWritten(bytes, offset);
    var next := offset + header.length;
    if header.major <= 3 {
      item := FlatItem(header.major, head, if header.major <= 1 then [] else bytes[next..next + header.value]);
    } else if header.major == 6 {
      var inner := ItemWasWritten(bytes, next);
      item := Tag(head, inner);
    } else {
      var items := ItemsWereWritten(bytes, next, if header.major == 4 then header.value else 2 * header.value);
      item := if header.major == 4 then Array(head, items) else Map(head, items);
    }
    Assemble(bytes, offset, item);
  }

  function FlatItem(major: nat, head: Head, content: seq<byte>): (item: Item)
    requires major < 4 && head.Fits() && |content| == if major <= 1 then 0 else head.value
    ensures Legal(item) && Major(item) == major && item.head == head && Content(item) == content
  {
    if major == 0 then Unsigned(head) else if major == 1 then Negative(head)
    else if major == 2 then ByteString(head, content) else TextString(head, content)
  }

  lemma {:induction false} ItemsWereWritten(bytes: seq<byte>, offset: nat, n: nat) returns (items: seq<Item>)
    requires offset <= |bytes| && SkipMany(bytes, offset, n).Some?
    ensures |items| == n && AllLegal(items) && At(bytes, offset, EncodeFrom(items, 0))
    decreases |bytes| - offset, n
  {
    if n == 0 {
      items := [];
    } else {
      var first := ItemWasWritten(bytes, offset);
      ItemSkips(bytes, offset, first);
      var rest := ItemsWereWritten(bytes, offset + |Encode(first)|, n - 1);
      items := [first] + rest;
      Prepended(bytes, offset, first, rest, items);
    }
  }

  lemma Prepended(bytes: seq<byte>, offset: nat, first: Item, rest: seq<Item>, items: seq<Item>)
    requires Legal(first) && AllLegal(rest) && items == [first] + rest
    requires At(bytes, offset, Encode(first)) && At(bytes, offset + |Encode(first)|, EncodeFrom(rest, 0))
    ensures AllLegal(items) && At(bytes, offset, EncodeFrom(items, 0))
  {
    EncodeSame(items, 1, rest, 0);
    AtJoined(bytes, offset, Encode(first), EncodeFrom(rest, 0));
  }

  /** The same items from there on have the same encoding from there on. */
  lemma {:induction false} EncodeSame(a: seq<Item>, i: nat, b: seq<Item>, j: nat)
    requires i <= |a| && j <= |b| && AllLegal(a) && AllLegal(b) && a[i..] == b[j..]
    ensures EncodeFrom(a, i) == EncodeFrom(b, j)
    decreases |a| - i
  {
    if i < |a| {
      SameRest(a, i, b, j);
      EncodeSame(a, i + 1, b, j + 1);
    }
  }

  lemma SameRest(a: seq<Item>, i: nat, b: seq<Item>, j: nat)
    requires i < |a| && j <= |b| && a[i..] == b[j..]
    ensures j < |b| && a[i] == b[j] && a[i + 1..] == b[j + 1..]
  {
    assert |a[i..]| == |b[j..]|;
    assert a[i..][0] == b[j..][0];
    assert a[i + 1..] == a[i..][1..] && b[j + 1..] == b[j..][1..];
  }

  ghost predicate ItemEndsAt(bytes: seq<byte>, offset: nat, end: nat) {
    exists item :: Legal(item) && At(bytes, offset, Encode(item)) && end == offset + |Encode(item)|
  }

  /** Skipping succeeds exactly where an item is written, and ends exactly where that item ends. */
  lemma SkipsExactlyItems(bytes: seq<byte>, offset: nat, end: nat)
    requires offset <= |bytes|
    ensures SkipItem(bytes, offset) == Some(end) <==> ItemEndsAt(bytes, offset, end)
  {
    if SkipItem(bytes, offset) == Some(end) {
      var item := ItemWasWritten(bytes, offset);
      ItemSkips(bytes, offset, item);
    }
    if ItemEndsAt(bytes, offset, end) {
      var item :| Legal(item) && At(bytes, offset, Encode(item)) && end == offset + |Encode(item)|;
      ItemSkips(bytes, offset, item);
    }
  }

  /** No item's encoding is the beginning of another's. */
  lemma NoItemBeginsAnother(a: Item, b: Item)
    requires Legal(a) && Legal(b) && Encode(a) <= Encode(b)
    ensures Encode(a) == Encode(b)
  {
    ItemSkips(Encode(b), 0, a);
    ItemSkips(Encode(b), 0, b);
  }
}
