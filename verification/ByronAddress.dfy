/**
 Which byte strings are Byron addresses: the decoded form of what base58 carries. The checks read
 bytes at offsets; the statements are about the CBOR items those bytes encode.
 */
module ByronAddress {
  import opened Common
  import opened Cbor
  import Crc32
  import Crc32Remainder

  const BYRON_ADDRESS_ROOT_BYTES: nat := 28
  const CBOR_TAG_ENCODED_CBOR: nat := 24

  // ----- the shapes -----

  /** A 28-byte root, a map of attributes and one of the three address types. */
  predicate IsBody(item: Item) {
    && item.Array? && |item.items| == 3
    && item.items[0].ByteString? && |item.items[0].content| == 28
    && item.items[1].Map?
    && item.items[2].Unsigned? && item.items[2].head.value <= 2
  }

  /** A tagged byte string and a checksum. */
  predicate IsEnvelope(item: Item) {
    && item.Array? && |item.items| == 2
    && item.items[0].Tag? && item.items[0].head.value == 24 && item.items[0].item.ByteString?
    && item.items[1].Unsigned?
  }

  ghost predicate IsPayload(payload: seq<byte>) {
    exists body :: Legal(body) && IsBody(body) && payload == Encode(body)
  }

  function Words(bytes: seq<byte>, n: nat): (words: seq<bv8>)
    requires n <= |bytes|
    ensures |words| == n && forall i :: 0 <= i < n ==> words[i] == Octet(bytes[i])
  {
    if n == 0 then [] else Words(bytes, n - 1) + [Octet(bytes[n - 1])]
  }

  /** The checksum the standard gives the payload, by division. */
  function Checksum(payload: seq<byte>): nat {
    Crc32Remainder.MessageCheck(Words(payload, |payload|)) as int
  }

  ghost predicate Carries(raw: seq<byte>, envelope: Item) {
    && Legal(envelope) && IsEnvelope(envelope) && raw == Encode(envelope)
    && IsPayload(envelope.items[0].item.content)
    && envelope.items[1].head.value == Checksum(envelope.items[0].item.content)
  }

  ghost predicate IsAddress(raw: seq<byte>) {
    exists envelope :: Carries(raw, envelope)
  }

  // ----- the payload check -----

  predicate HeaderIs(bytes: seq<byte>, offset: nat, major: nat) {
    var header := ReadHeader(bytes, offset);
    header.Some? && header.value.major == major
  }

  /** The three elements where the check finds them. */
  predicate ReadsBody(payload: seq<byte>) {
    && HeaderIs(payload, 0, 4) && ReadHeader(payload, 0).value.value == 3
    && var first := ReadHeader(payload, 0).value.length;
    && HeaderIs(payload, first, 2) && ReadHeader(payload, first).value.value == BYRON_ADDRESS_ROOT_BYTES
    && var second := SkipItem(payload, first);
    && second.Some? && HeaderIs(payload, second.value, 5)
    && var third := SkipItem(payload, second.value);
    && third.Some? && HeaderIs(payload, third.value, 0)
    && ReadHeader(payload, third.value).value.value <= 2
    && third.value + ReadHeader(payload, third.value).value.length == |payload|
  }

  method IsByronAddressPayload(payload: seq<byte>) returns (ok: bool)
    ensures ok <==> IsPayload(payload)
  {
    ok := ChecksBody(payload);
    BodyReadsExactly(payload);
  }

  method ChecksBody(payload: seq<byte>) returns (ok: bool)
    ensures ok == ReadsBody(payload)
  {
    var body := ReadHeader(payload, 0);
    if body.None? || body.value.major != 4 || body.value.value != 3 {
      return false;
    }
    var offset := body.value.length;
    var root := ReadHeader(payload, offset);
    if root.None? || root.value.major != 2 || root.value.value != BYRON_ADDRESS_ROOT_BYTES {
      return false;
    }
    offset := offset + root.value.length;
    if offset + root.value.value > |payload| {
      return false;
    }
    offset := offset + root.value.value;
    var attributes := ReadHeader(payload, offset);
    if attributes.None? || attributes.value.major != 5 {
      return false;
    }
    var end := SkipMap(payload, offset + attributes.value.length, attributes.value.value);
    if end.None? {
      return false;
    }
    offset := end.value;
    var kind := ReadHeader(payload, offset);
    if kind.None? || kind.value.major != 0 || kind.value.value > 2 {
      return false;
    }
    offset := offset + kind.value.length;
    ok := offset == |payload|;
  }

  lemma ItemIs(bytes: seq<byte>, offset: nat, item: Item)
    requires offset <= |bytes| && Legal(item) && At(bytes, offset, Encode(item))
    ensures SkipItem(bytes, offset) == Some(offset + |Encode(item)|)
    ensures ReadHeader(bytes, offset) == Some(Header(Major(item), item.head.value, |EncodeHead(Major(item), item.head)|))
  {
    ItemSkips(bytes, offset, item);
    AtSplits(bytes, offset, EncodeHead(Major(item), item.head), Content(item));
    HeadReads(bytes, offset, Major(item), item.head);
  }

  lemma AllOf(bytes: seq<byte>, part: seq<byte>)
    requires At(bytes, 0, part) && |part| == |bytes|
    ensures bytes == part
  {
    assert bytes[0..|bytes|] == bytes;
  }

  lemma ArrayWritten(bytes: seq<byte>, head: Head, items: seq<Item>)
    requires head.Fits() && |items| == head.value && AllLegal(items)
    requires At(bytes, 0, EncodeHead(4, head)) && At(bytes, |EncodeHead(4, head)|, EncodeFrom(items, 0))
    requires |EncodeHead(4, head)| + |EncodeFrom(items, 0)| == |bytes|
    ensures Legal(Array(head, items)) && bytes == Encode(Array(head, items))
  {
    Assemble(bytes, 0, Array(head, items));
    AllOf(bytes, Encode(Array(head, items)));
  }

  /** An array's head, and its items after it, are read from its encoding. */
  lemma ArrayRead(bytes: seq<byte>, item: Item) returns (first: nat)
    requires Legal(item) && item.Array? && bytes == Encode(item)
    ensures ReadHeader(bytes, 0) == Some(Header(4, item.head.value, first)) && first <= |bytes|
    ensures At(bytes, first, EncodeFrom(item.items, 0)) && first + |EncodeFrom(item.items, 0)| == |bytes|
  {
    assert bytes[0..|bytes|] == bytes;
    AtSplits(bytes, 0, EncodeHead(4, item.head), Content(item));
    HeadReads(bytes, 0, 4, item.head);
    first := |EncodeHead(4, item.head)|;
  }

  /** The next of an array's items: read, skipped, and the others after it. */
  lemma NextItem(bytes: seq<byte>, offset: nat, items: seq<Item>, k: nat) returns (next: nat)
    requires offset <= |bytes| && k < |items| && AllLegal(items)
    requires At(bytes, offset, EncodeFrom(items, k)) && offset + |EncodeFrom(items, k)| == |bytes|
    ensures SkipItem(bytes, offset) == Some(next) && next <= |bytes|
    ensures HeaderIs(bytes, offset, Major(items[k])) && ReadHeader(bytes, offset).value.value == items[k].head.value
    ensures At(bytes, next, EncodeFrom(items, k + 1)) && next + |EncodeFrom(items, k + 1)| == |bytes|
  {
    next := FirstOfItems(bytes, offset, items, k);
    ItemIs(bytes, offset, items[k]);
  }

  predicate HeadIs(bytes: seq<byte>, offset: nat, item: Item) {
    HeaderIs(bytes, offset, Major(item)) && ReadHeader(bytes, offset).value.value == item.head.value
  }

  /** Three items one after another to the end of the bytes. */
  predicate ThreeEnd(bytes: seq<byte>, first: nat, second: nat, third: nat) {
    && first <= |bytes| && second <= |bytes| && third <= |bytes|
    && SkipItem(bytes, first) == Some(second) && SkipItem(bytes, second) == Some(third) && SkipItem(bytes, third) == Some(|bytes|)
  }

  lemma LastRead(bytes: seq<byte>, at: nat, items: seq<Item>, k: nat)
    requires at <= |bytes| && k + 1 == |items| && AllLegal(items)
    requires At(bytes, at, EncodeFrom(items, k)) && at + |EncodeFrom(items, k)| == |bytes|
    ensures SkipItem(bytes, at) == Some(|bytes|) && HeadIs(bytes, at, items[k])
  {
    var end := NextItem(bytes, at, items, k);
    assert EncodeFrom(items, k + 1) == [];
  }

  /** The last two of an array's items. */
  lemma TwoRead(bytes: seq<byte>, at: nat, items: seq<Item>, k: nat) returns (next: nat)
    requires at <= |bytes| && k + 2 == |items| && AllLegal(items)
    requires At(bytes, at, EncodeFrom(items, k)) && at + |EncodeFrom(items, k)| == |bytes|
    ensures SkipItem(bytes, at) == Some(next) && next <= |bytes| && SkipItem(bytes, next) == Some(|bytes|)
    ensures HeadIs(bytes, at, items[k]) && HeadIs(bytes, next, items[k + 1])
  {
    next := NextItem(bytes, at, items, k);
    LastRead(bytes, next, items, k + 1);
  }

  lemma ThreeRead(bytes: seq<byte>, first: nat, items: seq<Item>) returns (second: nat, third: nat)
    requires first <= |bytes| && |items| == 3 && AllLegal(items)
    requires At(bytes, first, EncodeFrom(items, 0)) && first + |EncodeFrom(items, 0)| == |bytes|
    ensures ThreeEnd(bytes, first, second, third)
    ensures HeadIs(bytes, first, items[0]) && HeadIs(bytes, second, items[1]) && HeadIs(bytes, third, items[2])
  {
    second := NextItem(bytes, first, items, 0);
    third := TwoRead(bytes, second, items, 1);
  }

  lemma ThreeWritten(bytes: seq<byte>, first: nat, second: nat, third: nat) returns (items: seq<Item>)
    requires ThreeEnd(bytes, first, second, third)
    ensures |items| == 3 && AllLegal(items)
    ensures At(bytes, first, EncodeFrom(items, 0)) && first + |EncodeFrom(items, 0)| == |bytes|
  {
    SkipManyMore(bytes, first, 3, second);
    SkipManyMore(bytes, second, 2, third);
    SkipManyMore(bytes, third, 1, |bytes|);
    items := ItemsWereWritten(bytes, first, 3);
    ItemsSkip(bytes, first, items, 0);
  }

  /** What the payload check reads, at the places where it reads it. */
  predicate BodyAt(payload: seq<byte>, first: nat, second: nat, third: nat) {
    && HeaderIs(payload, 0, 4) && ReadHeader(payload, 0).value.value == 3 && ReadHeader(payload, 0).value.length == first
    && ThreeEnd(payload, first, second, third)
    && HeaderIs(payload, first, 2) && ReadHeader(payload, first).value.value == BYRON_ADDRESS_ROOT_BYTES
    && HeaderIs(payload, second, 5)
    && HeaderIs(payload, third, 0) && ReadHeader(payload, third).value.value <= 2
  }

  lemma BodyPlaces(payload: seq<byte>) returns (first: nat, second: nat, third: nat)
    requires ReadsBody(payload)
    ensures BodyAt(payload, first, second, third)
  {
    first := ReadHeader(payload, 0).value.length;
    second := SkipItem(payload, first).value;
    third := SkipItem(payload, second).value;
  }

  lemma BodyAtIsRead(payload: seq<byte>, first: nat, second: nat, third: nat)
    requires BodyAt(payload, first, second, third)
    ensures ReadsBody(payload)
  {
  }

  lemma BodyWasWritten(payload: seq<byte>)
    requires ReadsBody(payload)
    ensures IsPayload(payload)
  {
    var first, second, third := BodyPlaces(payload);
    var items := ThreeWritten(payload, first, second, third);
    var second', third' := ThreeRead(payload, first, items);
    var head := HeadWasWritten(payload, 0);
    ArrayWritten(payload, head, items);
    ShapeOfBody(Array(head, items));
  }

  lemma ShapeOfBody(body: Item)
    requires Legal(body) && body.Array? && |body.items| == 3
    requires Major(body.items[0]) == 2 && body.items[0].head.value == BYRON_ADDRESS_ROOT_BYTES
    requires Major(body.items[1]) == 5 && Major(body.items[2]) == 0 && body.items[2].head.value <= 2
    ensures IsBody(body)
  {
    assert Legal(body.items[0]);
  }

  lemma BodyIsRead(payload: seq<byte>, body: Item)
    requires Legal(body) && IsBody(body) && payload == Encode(body)
    ensures ReadsBody(payload)
  {
    var first := ArrayRead(payload, body);
    assert Legal(body.items[0]);
    var second, third := ThreeRead(payload, first, body.items);
    BodyAtIsRead(payload, first, second, third);
  }

  /** The payload check accepts exactly the encodings of address bodies. */
  lemma BodyReadsExactly(payload: seq<byte>)
    ensures ReadsBody(payload) <==> IsPayload(payload)
  {
    if ReadsBody(payload) {
      BodyWasWritten(payload);
    }
    if IsPayload(payload) {
      var body :| Legal(body) && IsBody(body) && payload == Encode(body);
      BodyIsRead(payload, body);
    }
  }

  // ----- the envelope -----

  /** What the envelope check reads: an array of two, a tag around a byte string, and a checksum. */
  predicate ReadsEnvelope(raw: seq<byte>) {
    && HeaderIs(raw, 0, 4) && ReadHeader(raw, 0).value.value == 2
    && var first := ReadHeader(raw, 0).value.length;
    && HeaderIs(raw, first, 6) && ReadHeader(raw, first).value.value == CBOR_TAG_ENCODED_CBOR
    && var inner := first + ReadHeader(raw, first).value.length;
    && HeaderIs(raw, inner, 2)
    && var start := inner + ReadHeader(raw, inner).value.length;
    && var second := start + ReadHeader(raw, inner).value.value;
    && second <= |raw| && HeaderIs(raw, second, 0)
    && second + ReadHeader(raw, second).value.length == |raw|
  }

  datatype Envelope = Envelope(payload: seq<byte>, checksum: nat)

  function Opened(raw: seq<byte>): Envelope
    requires ReadsEnvelope(raw)
  {
    var first := ReadHeader(raw, 0).value.length;
    var inner := first + ReadHeader(raw, first).value.length;
    var start := inner + ReadHeader(raw, inner).value.length;
    var second := start + ReadHeader(raw, inner).value.value;
    Envelope(raw[start..second], ReadHeader(raw, second).value.value)
  }

  /** What the envelope check reads, at the places where it reads it. */
  predicate EnvelopeAt(raw: seq<byte>, first: nat, inner: nat, start: nat, second: nat, checksum: nat) {
    && first <= inner <= start <= second <= |raw|
    && ReadHeader(raw, 0) == Some(Header(4, 2, first))
    && ReadHeader(raw, first) == Some(Header(6, CBOR_TAG_ENCODED_CBOR, inner - first))
    && ReadHeader(raw, inner) == Some(Header(2, second - start, start - inner))
    && ReadHeader(raw, second) == Some(Header(0, checksum, |raw| - second))
  }

  lemma EnvelopePlaces(raw: seq<byte>) returns (first: nat, inner: nat, start: nat, second: nat)
    requires ReadsEnvelope(raw)
    ensures EnvelopeAt(raw, first, inner, start, second, Opened(raw).checksum)
  {
    first := ReadHeader(raw, 0).value.length;
    inner := first + ReadHeader(raw, first).value.length;
    start := inner + ReadHeader(raw, inner).value.length;
    second := start + ReadHeader(raw, inner).value.value;
  }

  lemma EnvelopeAtIsRead(raw: seq<byte>, first: nat, inner: nat, start: nat, second: nat, checksum: nat)
    requires EnvelopeAt(raw, first, inner, start, second, checksum)
    ensures ReadsEnvelope(raw) && Opened(raw) == Envelope(raw[start..second], checksum)
  {
  }

  /** An envelope is read back as what it holds. */
  lemma EnvelopeIsRead(raw: seq<byte>, envelope: Item)
    requires Legal(envelope) && IsEnvelope(envelope) && raw == Encode(envelope)
    ensures ReadsEnvelope(raw)
    ensures Opened(raw) == Envelope(envelope.items[0].item.content, envelope.items[1].head.value)
  {
    var first := ArrayRead(raw, envelope);
    var second := PairRead(raw, first, envelope.items);
    var inner, start := TagRead(raw, first, envelope.items[0]);
    NumberRead(raw, second, envelope.items[1]);
    EnvelopeAtIsRead(raw, first, inner, start, second, envelope.items[1].head.value);
  }

  lemma PairRead(bytes: seq<byte>, first: nat, items: seq<Item>) returns (second: nat)
    requires first <= |bytes| && |items| == 2 && AllLegal(items)
    requires At(bytes, first, EncodeFrom(items, 0)) && first + |EncodeFrom(items, 0)| == |bytes|
    ensures At(bytes, first, Encode(items[0])) && second == first + |Encode(items[0])| <= |bytes|
    ensures At(bytes, second, Encode(items[1])) && second + |Encode(items[1])| == |bytes|
  {
    second := FirstOfItems(bytes, first, items, 0);
    var end := FirstOfItems(bytes, second, items, 1);
    assert EncodeFrom(items, 2) == [];
  }

  /** A byte string: where its content starts. */
  lemma StringRead(raw: seq<byte>, offset: nat, item: Item) returns (start: nat)
    requires Legal(item) && item.ByteString? && offset <= |raw| && At(raw, offset, Encode(item))
    ensures offset <= start && ReadHeader(raw, offset) == Some(Header(2, item.head.value, start - offset))
    ensures start + item.head.value == offset + |Encode(item)| <= |raw|
    ensures raw[start..start + item.head.value] == item.content
  {
    assert Encode(item) == EncodeHead(2, item.head) + item.content;
    AtSplits(raw, offset, EncodeHead(2, item.head), item.content);
    HeadReads(raw, offset, 2, item.head);
    start := offset + |EncodeHead(2, item.head)|;
  }

  /** A tagged byte string: where its parts are. */
  lemma TagRead(raw: seq<byte>, offset: nat, tag: Item) returns (inner: nat, start: nat)
    requires Legal(tag) && tag.Tag? && tag.item.ByteString? && offset <= |raw| && At(raw, offset, Encode(tag))
    ensures offset <= inner <= start
    ensures ReadHeader(raw, offset) == Some(Header(6, tag.head.value, inner - offset))
    ensures ReadHeader(raw, inner) == Some(Header(2, tag.item.head.value, start - inner))
    ensures start + tag.item.head.value == offset + |Encode(tag)| <= |raw|
    ensures raw[start..start + tag.item.head.value] == tag.item.content
  {
    assert Encode(tag) == EncodeHead(6, tag.head) + Encode(tag.item);
    AtSplits(raw, offset, EncodeHead(6, tag.head), Encode(tag.item));
    HeadReads(raw, offset, 6, tag.head);
    inner := offset + |EncodeHead(6, tag.head)|;
    start := StringRead(raw, inner, tag.item);
  }

  lemma NumberRead(raw: seq<byte>, offset: nat, number: Item)
    requires Legal(number) && number.Unsigned? && offset <= |raw| && At(raw, offset, Encode(number))
    ensures ReadHeader(raw, offset) == Some(Header(0, number.head.value, |Encode(number)|))
  {
    assert Encode(number) == EncodeHead(0, number.head);
    HeadReads(raw, offset, 0, number.head);
  }

  lemma EnvelopeSkips(raw: seq<byte>, first: nat, inner: nat, start: nat, second: nat, checksum: nat)
    requires EnvelopeAt(raw, first, inner, start, second, checksum)
    ensures SkipItem(raw, first) == Some(second) && SkipItem(raw, second) == Some(|raw|)
  {
    assert SkipItem(raw, inner) == Some(second);
  }

  lemma EnvelopeWasWritten(raw: seq<byte>) returns (envelope: Item)
    requires ReadsEnvelope(raw)
    ensures Legal(envelope) && IsEnvelope(envelope) && raw == Encode(envelope)
  {
    var first, inner, start, second := EnvelopePlaces(raw);
    EnvelopeSkips(raw, first, inner, start, second, Opened(raw).checksum);
    var items := TwoWritten(raw, first, second);
    PairShape(raw, first, inner, start, second, Opened(raw).checksum, items);
    var head := HeadWasWritten(raw, 0);
    envelope := EnvelopeOf(raw, head, items);
  }

  lemma PairShape(raw: seq<byte>, first: nat, inner: nat, start: nat, second: nat, checksum: nat, items: seq<Item>)
    requires EnvelopeAt(raw, first, inner, start, second, checksum) && SkipItem(raw, first) == Some(second)
    requires |items| == 2 && AllLegal(items) && At(raw, first, EncodeFrom(items, 0)) && first + |EncodeFrom(items, 0)| == |raw|
    ensures items[0].Tag? && items[0].head.value == CBOR_TAG_ENCODED_CBOR && items[0].item.ByteString?
    ensures items[1].Unsigned?
  {
    var second' := PairRead(raw, first, items);
    ItemIs(raw, first, items[0]);
    ItemIs(raw, second', items[1]);
    TagHolds(raw, first, items[0]);
  }

  lemma EnvelopeOf(raw: seq<byte>, head: Head, items: seq<Item>) returns (envelope: Item)
    requires head.Fits() && head.value == 2 == |items| && AllLegal(items)
    requires At(raw, 0, EncodeHead(4, head)) && At(raw, |EncodeHead(4, head)|, EncodeFrom(items, 0))
    requires |EncodeHead(4, head)| + |EncodeFrom(items, 0)| == |raw|
    requires items[0].Tag? && items[0].head.value == CBOR_TAG_ENCODED_CBOR && items[0].item.ByteString?
    requires items[1].Unsigned?
    ensures Legal(envelope) && IsEnvelope(envelope) && raw == Encode(envelope)
  {
    ArrayWritten(raw, head, items);
    envelope := Array(head, items);
  }

  lemma TwoWritten(bytes: seq<byte>, first: nat, second: nat) returns (items: seq<Item>)
    requires first <= |bytes| && SkipItem(bytes, first) == Some(second) && SkipItem(bytes, second) == Some(|bytes|)
    ensures |items| == 2 && AllLegal(items)
    ensures At(bytes, first, EncodeFrom(items, 0)) && first + |EncodeFrom(items, 0)| == |bytes|
  {
    SkipManyMore(bytes, first, 2, second);
    SkipManyMore(bytes, second, 1, |bytes|);
    items := ItemsWereWritten(bytes, first, 2);
    ItemsSkip(bytes, first, items, 0);
  }

  /** What a tag holds is what its header says comes next. */
  lemma TagHolds(raw: seq<byte>, offset: nat, tag: Item)
    requires Legal(tag) && offset <= |raw| && At(raw, offset, Encode(tag)) && HeaderIs(raw, offset, 6)
    requires HeaderIs(raw, offset + ReadHeader(raw, offset).value.length, 2)
    ensures tag.Tag? && tag.item.ByteString?
  {
    ItemIs(raw, offset, tag);
    assert Encode(tag) == EncodeHead(6, tag.head) + Encode(tag.item);
    AtSplits(raw, offset, EncodeHead(6, tag.head), Encode(tag.item));
    ItemIs(raw, offset + |EncodeHead(6, tag.head)|, tag.item);
  }

  ghost predicate IsSound(envelope: Envelope) {
    IsPayload(envelope.payload) && envelope.checksum == Checksum(envelope.payload)
  }

  /** The bytes that are read as an envelope with a sound payload are exactly the addresses. */
  lemma AddressesAreSoundEnvelopes(raw: seq<byte>)
    ensures IsAddress(raw) <==> ReadsEnvelope(raw) && IsSound(Opened(raw))
  {
    if IsAddress(raw) {
      var envelope :| Carries(raw, envelope);
      EnvelopeIsRead(raw, envelope);
    }
    if ReadsEnvelope(raw) {
      var envelope := EnvelopeWasWritten(raw);
      EnvelopeIsRead(raw, envelope);
      if IsSound(Opened(raw)) {
        assert Carries(raw, envelope);
      }
    }
  }

  method OpenEnvelope(raw: seq<byte>) returns (found: Option<Envelope>)
    ensures found == if ReadsEnvelope(raw) then Some(Opened(raw)) else None
  {
    found := None;
    var outer := ReadHeader(raw, 0);
    if outer.None? || outer.value.major != 4 || outer.value.value != 2 {
      return;
    }
    var offset := outer.value.length;
    var tag := ReadHeader(raw, offset);
    if tag.None? || tag.value.major != 6 || tag.value.value != CBOR_TAG_ENCODED_CBOR {
      return;
    }
    offset := offset + tag.value.length;
    var content := ReadHeader(raw, offset);
    if content.None? || content.value.major != 2 {
      return;
    }
    offset := offset + content.value.length;
    if offset + content.value.value > |raw| {
      return;
    }
    var payload := raw[offset..offset + content.value.value];
    offset := offset + content.value.value;
    var checksum := ReadHeader(raw, offset);
    if checksum.None? || checksum.value.major != 0 {
      return;
    }
    offset := offset + checksum.value.length;
    if offset == |raw| {
      found := Some(Envelope(payload, checksum.value.value));
    }
  }

  /** Accepts exactly the addresses; everything else, however malformed, is refused. */
  method IsByronAddress(raw: seq<byte>) returns (ok: bool)
    ensures ok <==> IsAddress(raw)
  {
    AddressesAreSoundEnvelopes(raw);
    var found := OpenEnvelope(raw);
    if found.None? {
      return false;
    }
    ok := IsByronAddressPayload(found.value.payload);
    if ok {
      Crc32Remainder.ChecksumIsRemainder(Words(found.value.payload, |found.value.payload|));
      var crc := Crc32.Crc32(Words(found.value.payload, |found.value.payload|));
      ok := crc as int == found.value.checksum;
    }
  }

  /** One checksum, and payloads of one length that differ, but only within four consecutive bytes. */
  predicate DamagedNear(was: Envelope, now: Envelope, p: nat) {
    && was.checksum == now.checksum && |was.payload| == |now.payload| && was.payload != now.payload
    && forall i :: 0 <= i < |was.payload| && was.payload[i] != now.payload[i] ==> p <= i < p + 4
  }

  /**
   Damage confined to four consecutive bytes of the payload is always noticed: of two envelopes with
   one checksum whose payloads differ only there, at most one is an address.
   */
  lemma DamageIsNoticed(raw: seq<byte>, damaged: seq<byte>, p: nat)
    requires ReadsEnvelope(raw) && ReadsEnvelope(damaged)
    ensures DamagedNear(Opened(raw), Opened(damaged), p) ==> !(IsAddress(raw) && IsAddress(damaged))
  {
    AddressesAreSoundEnvelopes(raw);
    AddressesAreSoundEnvelopes(damaged);
    if DamagedNear(Opened(raw), Opened(damaged), p) {
      ChecksumsDiffer(Opened(raw), Opened(damaged), p);
    }
  }

  lemma ChecksumsDiffer(was: Envelope, now: Envelope, p: nat)
    requires DamagedNear(was, now, p)
    ensures Checksum(was.payload) != Checksum(now.payload)
  {
    var x, y := Words(was.payload, |was.payload|), Words(now.payload, |now.payload|);
    var q := Differ(was.payload, now.payload);
    assert x[q] as int != y[q] as int;
    Crc32.WindowChangesChecksum(x, y, p);
    Crc32Remainder.ChecksumIsRemainder(x);
    Crc32Remainder.ChecksumIsRemainder(y);
    var a, b := Crc32.Checksum(x), Crc32.Checksum(y);
    assert (a as int) as bv32 == a && (b as int) as bv32 == b;
  }

  lemma Differ(x: seq<byte>, y: seq<byte>) returns (q: nat)
    requires |x| == |y| && x != y
    ensures q < |x| && x[q] != y[q]
  {
    q :| q < |x| && x[q] != y[q];
  }
}
