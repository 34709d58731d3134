/**
 Which peers a TRUST_PROXY list trusts. On a dual-stack listener an IPv4 peer appears as an address of
 the IPv4-mapped block (RFC 4291, section 2.5.5.2), so an entry inside that block is recorded as the
 IPv4 range it means, and one that contains the block is refused.

 Addresses arrive parsed: four bytes, or sixteen, or none when the URL parser has no opinion.
 */
module TrustedProxies {
  import opened Common

  const MIN_TRUSTED_PREFIX: nat := 8
  const IPV4_MAPPED_PREFIX_BITS: nat := 96

  type Bytes = seq<bv8>

  datatype Address = NotAnAddress | V4(bytes: Bytes) | V6(read: Option<Bytes>)
  {
    predicate Sized() {
      match this
      case NotAnAddress => true
      case V4(bytes) => |bytes| == 4
      case V6(read) => read.Some? ==> |read.value| == 16
    }
  }

  datatype PrefixText = Absent | Number(value: nat) | Malformed

  /** One list entry: its address, what follows the first slash, and whether there is a second one. */
  datatype Entry = Entry(address: Address, prefix: PrefixText, extra: bool)

  /** What is recorded: an address, and a prefix unless the entry had none. */
  datatype Recorded = Recorded(address: Address, prefix: Option<nat>)

  // ----- ranges -----

  /** The top bit of a byte, shifted down. */
  function Mask(shift: nat): bv8 {
    if shift == 0 then 0x80 else Mask(shift - 1) >> 1
  }

  function BitAt(bytes: Bytes, bit: nat): bv8
    requires bit < 8 * |bytes|
  {
    bytes[bit / 8] & Mask(bit % 8)
  }

  /** The addresses agree on their first `bits` bits. */
  predicate Agree(a: Bytes, b: Bytes, bits: nat)
    requires bits <= 8 * |a| && bits <= 8 * |b|
  {
    forall bit :: 0 <= bit < bits ==> BitAt(a, bit) == BitAt(b, bit)
  }

  method SharesPrefix(left: Bytes, right: Bytes, bits: nat) returns (shares: bool)
    requires bits <= 8 * |left| && bits <= 8 * |right|
    ensures shares <==> Agree(left, right, bits)
  {
    for bit := 0 to bits
      invariant Agree(left, right, bit)
    {
      if BitAt(left, bit) != BitAt(right, bit) {
        return false;
      }
    }
    shares := true;
  }

  /** Two ranges are nested or disjoint: with one address in common, the narrower lies in the wider. */
  lemma NestedOrDisjoint(a: Bytes, wide: nat, b: Bytes, narrow: nat, both: Bytes, x: Bytes)
    requires |a| == |b| == |both| == |x| && wide <= narrow <= 8 * |a|
    requires Agree(a, both, wide) && Agree(b, both, narrow) && Agree(b, x, narrow)
    ensures Agree(a, x, wide)
  {
    forall bit | 0 <= bit < wide ensures BitAt(a, bit) == BitAt(x, bit) {
      assert BitAt(b, bit) == BitAt(both, bit);
    }
  }

  /** The eight groups a canonical address stands for: `::` is as many zeroes as are missing. */
  function GroupAt(head: seq<nat>, tail: Option<seq<nat>>, g: nat): nat
    requires g < 8 && (tail.None? ==> |head| == 8) && (tail.Some? ==> |head| + |tail.value| <= 8)
  {
    if g < |head| then head[g]
    else if g < 8 - |tail.value| then 0
    else tail.value[g - (8 - |tail.value|)]
  }

  /** The sixteen bytes of a canonical address, given as the groups around its `::`, if it has one. */
  method IPv6Bytes(head: seq<nat>, tail: Option<seq<nat>>) returns (bytes: Option<Bytes>)
    requires forall g :: 0 <= g < |head| ==> head[g] < 0x1_0000
    requires tail.Some? ==> forall g :: 0 <= g < |tail.value| ==> tail.value[g] < 0x1_0000
    ensures bytes.Some? <==> if tail.None? then |head| == 8 else |head| + |tail.value| <= 8
    ensures bytes.Some? ==>
              && |bytes.value| == 16
              && forall g :: 0 <= g < 8 ==>
                   GroupAt(head, tail, g) == 0x100 * bytes.value[2 * g] as int + bytes.value[2 * g + 1] as int
  {
    var tailGroups := if tail.None? then [] else tail.value;
    var missing := 8 - |head| - |tailGroups|;
    if if tail.None? then missing != 0 else missing < 0 {
      return None;
    }
    var groups: seq<nat> := head + seq(missing, _ => 0) + tailGroups;
    var filled := new bv8[16](_ => 0);
    for index := 0 to 8
      invariant forall g :: 0 <= g < index ==> groups[g] == 0x100 * filled[2 * g] as int + filled[2 * g + 1] as int
    {
      var value := groups[index];
      filled[index * 2] := Octet(value / 0x100);
      filled[index * 2 + 1] := Octet(value % 0x100);
    }
    bytes := Some(filled[..]);
  }

  function Zeroes(n: nat): (bytes: Bytes)
    ensures |bytes| == n && forall i :: 0 <= i < n ==> bytes[i] == 0
  {
    if n == 0 then [] else Zeroes(n - 1) + [0]
  }

  function MappedPrefix(): (bytes: Bytes)
    ensures |bytes| == 16
  {
    Zeroes(10) + [0xff, 0xff] + Zeroes(4)
  }

  /** How an IPv4 peer appears on a dual-stack listener. */
  function Mapped(peer: Bytes): (bytes: Bytes)
    requires |peer| == 4
    ensures |bytes| == 16
  {
    Zeroes(10) + [0xff, 0xff] + peer
  }

  function WidthOf(address: Address, prefix: Option<nat>): nat {
    match prefix case Some(bits) => bits case None => if address.V4? then 32 else 128
  }

  /** Whether a range matches an IPv4 peer: directly, or by its mapped form. */
  predicate Trusts(address: Address, prefix: Option<nat>, peer: Bytes)
    requires |peer| == 4
  {
    match address
    case NotAnAddress => false
    case V4(bytes) => |bytes| == 4 && WidthOf(address, prefix) <= 32 && Agree(bytes, peer, WidthOf(address, prefix))
    case V6(None) => false
    case V6(Some(bytes)) => |bytes| == 16 && WidthOf(address, prefix) <= 128 && Agree(bytes, Mapped(peer), WidthOf(address, prefix))
  }

  function Written(entry: Entry): Option<nat> {
    if entry.prefix.Number? then Some(entry.prefix.value) else None
  }

  // ----- normalisation -----

  /** The whole mapped block lies inside the entry's range. */
  predicate CoversMapped(entry: Entry)
    requires entry.address.Sized()
  {
    && entry.address.V6? && entry.address.read.Some?
    && WidthOf(entry.address, Written(entry)) <= IPV4_MAPPED_PREFIX_BITS
    && Agree(entry.address.read.value, MappedPrefix(), WidthOf(entry.address, Written(entry)))
  }

  /** The entry's range lies inside the mapped block. */
  predicate InsideMapped(entry: Entry)
    requires entry.address.Sized()
  {
    && entry.address.V6? && entry.address.read.Some?
    && WidthOf(entry.address, Written(entry)) > IPV4_MAPPED_PREFIX_BITS
    && Agree(entry.address.read.value, MappedPrefix(), IPV4_MAPPED_PREFIX_BITS)
  }

  predicate WellFormed(entry: Entry) {
    && !entry.extra && !entry.address.NotAnAddress? && !entry.prefix.Malformed?
    && (entry.prefix.Number? ==> entry.prefix.value <= if entry.address.V4? then 32 else 128)
  }

  /** The shortest prefix the entry may carry, counted in its own family. */
  function Floor(entry: Entry): nat
    requires entry.address.Sized()
  {
    if InsideMapped(entry) then IPV4_MAPPED_PREFIX_BITS + MIN_TRUSTED_PREFIX else MIN_TRUSTED_PREFIX
  }

  /** Well formed, not around the mapped block, and not too wide. */
  ghost predicate Acceptable(entry: Entry)
    requires entry.address.Sized()
  {
    WellFormed(entry) && !CoversMapped(entry) && (entry.prefix.Number? ==> entry.prefix.value >= Floor(entry))
  }

  /** An accepted entry is recorded as it stands, or as the IPv4 range it means. */
  ghost predicate IsRecordOf(entry: Entry, recorded: Recorded)
    requires entry.address.Sized()
  {
    && Acceptable(entry)
    && recorded.address == (if InsideMapped(entry) then V4(entry.address.read.value[12..]) else entry.address)
    && recorded.prefix == (if InsideMapped(entry) && entry.prefix.Number? then Some(entry.prefix.value - 96) else Written(entry))
  }

  method Normalize(entry: Entry) returns (recorded: Option<Recorded>)
    requires entry.address.Sized()
    ensures recorded.Some? <==> Acceptable(entry)
    ensures recorded.Some? ==> IsRecordOf(entry, recorded.value)
  {
    if entry.extra || entry.address.NotAnAddress? {
      return None;
    }
    var address, prefix: Option<nat> := entry.address, None;
    if !entry.prefix.Absent? {
      if entry.prefix.Malformed? || entry.prefix.value > if address.V4? then 32 else 128 {
        return None;
      }
      prefix := Some(entry.prefix.value);
    }
    if address.V6? && address.read.Some? {
      var bytes, width := address.read.value, WidthOf(address, prefix);
      if width > IPV4_MAPPED_PREFIX_BITS {
        var inside := SharesPrefix(bytes, MappedPrefix(), IPV4_MAPPED_PREFIX_BITS);
        if inside {
          address := V4(bytes[12..]);
          prefix := if prefix.None? then None else Some(prefix.value - IPV4_MAPPED_PREFIX_BITS);
        }
      } else {
        var covers := SharesPrefix(bytes, MappedPrefix(), width);
        if covers {
          return None;
        }
      }
    }
    if prefix.Some? && prefix.value < MIN_TRUSTED_PREFIX {
      return None;
    }
    recorded := Some(Recorded(address, prefix));
  }

  // ----- what normalisation preserves -----

  lemma MappedBits(peer: Bytes, bit: nat)
    requires |peer| == 4 && bit < 128
    ensures bit < 96 ==> BitAt(Mapped(peer), bit) == BitAt(MappedPrefix(), bit)
    ensures bit >= 96 ==> BitAt(Mapped(peer), bit) == BitAt(peer, bit - 96)
  {
    if bit >= 96 {
      assert bit / 8 - 12 == (bit - 96) / 8 && bit % 8 == (bit - 96) % 8;
    }
  }

  /** The last four bytes, read as an IPv4 range, match a peer exactly when the whole matches its mapped form. */
  lemma MappedRangeIsIPv4Range(bytes: Bytes, width: nat, peer: Bytes)
    requires |bytes| == 16 && |peer| == 4 && 96 < width <= 128 && Agree(bytes, MappedPrefix(), 96)
    ensures Agree(bytes, Mapped(peer), width) <==> Agree(bytes[12..], peer, width - 96)
  {
    forall bit | 0 <= bit < width
      ensures bit < 96 ==> BitAt(bytes, bit) == BitAt(Mapped(peer), bit)
      ensures bit >= 96 ==> BitAt(bytes[12..], bit - 96) == BitAt(bytes, bit) && BitAt(Mapped(peer), bit) == BitAt(peer, bit - 96)
    {
      MappedBits(peer, bit);
      if bit >= 96 {
        assert bit / 8 - 12 == (bit - 96) / 8 && bit % 8 == (bit - 96) % 8;
      }
    }
    if Agree(bytes, Mapped(peer), width) {
      forall k | 0 <= k < width - 96 ensures BitAt(bytes[12..], k) == BitAt(peer, k) {
        assert BitAt(bytes, k + 96) == BitAt(Mapped(peer), k + 96);
      }
    }
  }

  /** An entry neither inside the mapped block nor around it matches no IPv4 peer. */
  lemma OtherRangesAreDisjoint(bytes: Bytes, width: nat, peer: Bytes)
    requires |bytes| == 16 && |peer| == 4 && width <= 128
    requires !Agree(bytes, MappedPrefix(), if width > 96 then 96 else width)
    ensures !Agree(bytes, Mapped(peer), width)
  {
    var bit :| 0 <= bit < (if width > 96 then 96 else width) && BitAt(bytes, bit) != BitAt(MappedPrefix(), bit);
    MappedBits(peer, bit);
  }

  /** The record matches an IPv4 peer exactly when the entry did, and only as an IPv4 range. */
  lemma RecordKeepsPeers(entry: Entry, recorded: Recorded, peer: Bytes)
    requires entry.address.Sized() && |peer| == 4 && IsRecordOf(entry, recorded)
    ensures Trusts(recorded.address, recorded.prefix, peer) <==> Trusts(entry.address, Written(entry), peer)
    ensures Trusts(recorded.address, recorded.prefix, peer) ==> recorded.address.V4?
    ensures recorded.prefix.Some? ==> recorded.prefix.value >= MIN_TRUSTED_PREFIX
  {
    if entry.address.V6? && entry.address.read.Some? {
      var bytes, width := entry.address.read.value, WidthOf(entry.address, Written(entry));
      if InsideMapped(entry) {
        MappedRangeIsIPv4Range(bytes, width, peer);
      } else {
        OtherRangesAreDisjoint(bytes, width, peer);
      }
    }
  }

  // ----- the list -----

  ghost predicate ListTrusts(list: seq<Recorded>, peer: Bytes)
    requires |peer| == 4
  {
    exists k :: 0 <= k < |list| && Trusts(list[k].address, list[k].prefix, peer)
  }

  ghost predicate EntriesTrust(entries: seq<Entry>, peer: Bytes)
    requires |peer| == 4
  {
    exists k :: 0 <= k < |entries| && Trusts(entries[k].address, Written(entries[k]), peer)
  }

  ghost predicate HasRecord(kept: seq<Recorded>, entry: Entry)
    requires entry.address.Sized()
  {
    exists r :: r in kept && IsRecordOf(entry, r)
  }

  ghost predicate Accounts(entries: seq<Entry>, n: nat, r: Recorded)
    requires n <= |entries| && forall k :: 0 <= k < |entries| ==> entries[k].address.Sized()
  {
    exists k :: 0 <= k < n && IsRecordOf(entries[k], r)
  }

  /** Each of the first `n` entries has its record, and there are no others and no repeats. */
  ghost predicate Lists(entries: seq<Entry>, n: nat, kept: seq<Recorded>)
    requires n <= |entries| && forall k :: 0 <= k < |entries| ==> entries[k].address.Sized()
  {
    && Distinct(kept) && |kept| <= n
    && (forall k :: 0 <= k < n ==> HasRecord(kept, entries[k]))
    && (forall r :: r in kept ==> Accounts(entries, n, r))
  }

  lemma OneMore(entries: seq<Entry>, n: nat, kept: seq<Recorded>, recorded: Recorded)
    requires n < |entries| && forall k :: 0 <= k < |entries| ==> entries[k].address.Sized()
    requires Lists(entries, n, kept) && IsRecordOf(entries[n], recorded)
    ensures Lists(entries, n + 1, if recorded in kept then kept else kept + [recorded])
  {
    var after := if recorded in kept then kept else kept + [recorded];
    forall k | 0 <= k < n + 1 ensures HasRecord(after, entries[k]) {
      if k < n {
        assert HasRecord(kept, entries[k]);
        var r :| r in kept && IsRecordOf(entries[k], r);
        assert r in after;
      } else {
        assert recorded in after;
      }
    }
    forall r | r in after ensures Accounts(entries, n + 1, r) {
      if r in kept {
        assert Accounts(entries, n, r);
      } else {
        assert r == recorded;
      }
    }
  }

  /** Normalise one more entry and record it, unless it already is. */
  method RecordOne(entries: seq<Entry>, i: nat, kept: seq<Recorded>) returns (list: Option<seq<Recorded>>)
    requires i < |entries| && forall k :: 0 <= k < |entries| ==> entries[k].address.Sized()
    requires Lists(entries, i, kept)
    ensures list.Some? <==> Acceptable(entries[i])
    ensures list.Some? ==> Lists(entries, i + 1, list.value)
  {
    var recorded := Normalize(entries[i]);
    if recorded.None? {
      return None;
    }
    OneMore(entries, i, kept, recorded.value);
    list := Some(if recorded.value in kept then kept else kept + [recorded.value]);
  }

  method Records(entries: seq<Entry>) returns (list: Option<seq<Recorded>>)
    requires forall k :: 0 <= k < |entries| ==> entries[k].address.Sized()
    ensures list.Some? <==> forall k :: 0 <= k < |entries| ==> Acceptable(entries[k])
    ensures list.Some? ==> Lists(entries, |entries|, list.value)
  {
    var kept: seq<Recorded> := [];
    for i := 0 to |entries|
      invariant forall k :: 0 <= k < i ==> Acceptable(entries[k])
      invariant Lists(entries, i, kept)
    {
      var more := RecordOne(entries, i, kept);
      if more.None? {
        return None;
      }
      kept := more.value;
    }
    list := Some(kept);
  }

  /**
   The list is accepted exactly when every entry is; then it names each record once, trusts exactly
   the IPv4 peers that the entries did, and has no record wider than a /8.
   */
  method ParseTrustedProxies(entries: seq<Entry>) returns (list: Option<seq<Recorded>>)
    requires forall k :: 0 <= k < |entries| ==> entries[k].address.Sized()
    ensures list.Some? <==> forall k :: 0 <= k < |entries| ==> Acceptable(entries[k])
    ensures list.Some? ==> Distinct(list.value) && |list.value| <= |entries|
    ensures list.Some? ==> forall peer: Bytes :: |peer| == 4 ==> (ListTrusts(list.value, peer) <==> EntriesTrust(entries, peer))
    ensures list.Some? ==> forall r :: r in list.value ==> IsNarrow(r)
  {
    list := Records(entries);
    if list.Some? {
      forall r | r in list.value ensures IsNarrow(r) {
        RecordIsNarrow(entries, r);
      }
      forall peer: Bytes | |peer| == 4 ensures ListTrusts(list.value, peer) <==> EntriesTrust(entries, peer) {
        SamePeers(entries, list.value, peer);
      }
    }
  }

  /** At least a /8, and matching IPv4 peers only as an IPv4 range. */
  ghost predicate IsNarrow(r: Recorded) {
    && r.address.Sized() && (r.prefix.Some? ==> r.prefix.value >= 8)
    && forall peer: Bytes :: |peer| == 4 && Trusts(r.address, r.prefix, peer) ==> r.address.V4?
  }

  lemma RecordIsNarrow(entries: seq<Entry>, r: Recorded)
    requires forall k :: 0 <= k < |entries| ==> entries[k].address.Sized()
    requires Accounts(entries, |entries|, r)
    ensures IsNarrow(r)
  {
    var k :| 0 <= k < |entries| && IsRecordOf(entries[k], r);
    forall peer: Bytes | |peer| == 4 && Trusts(r.address, r.prefix, peer) ensures r.address.V4? {
      RecordKeepsPeers(entries[k], r, peer);
    }
  }

  lemma SamePeers(entries: seq<Entry>, kept: seq<Recorded>, peer: Bytes)
    requires |peer| == 4 && forall k :: 0 <= k < |entries| ==> entries[k].address.Sized()
    requires forall k :: 0 <= k < |entries| ==> HasRecord(kept, entries[k])
    requires forall r :: r in kept ==> Accounts(entries, |entries|, r)
    ensures ListTrusts(kept, peer) <==> EntriesTrust(entries, peer)
  {
    if i :| 0 <= i < |kept| && Trusts(kept[i].address, kept[i].prefix, peer) {
      assert kept[i] in kept;
      RecordWasEntered(entries, kept[i], peer);
    }
    if k :| 0 <= k < |entries| && Trusts(entries[k].address, Written(entries[k]), peer) {
      EntryIsRecorded(entries[k], kept, peer);
    }
  }

  lemma RecordWasEntered(entries: seq<Entry>, r: Recorded, peer: Bytes)
    requires |peer| == 4 && forall k :: 0 <= k < |entries| ==> entries[k].address.Sized()
    requires Accounts(entries, |entries|, r) && Trusts(r.address, r.prefix, peer)
    ensures EntriesTrust(entries, peer)
  {
    var k :| 0 <= k < |entries| && IsRecordOf(entries[k], r);
    RecordKeepsPeers(entries[k], r, peer);
  }

  lemma EntryIsRecorded(entry: Entry, kept: seq<Recorded>, peer: Bytes)
    requires |peer| == 4 && entry.address.Sized()
    requires HasRecord(kept, entry) && Trusts(entry.address, Written(entry), peer)
    ensures ListTrusts(kept, peer)
  {
    var r :| r in kept && IsRecordOf(entry, r);
    RecordKeepsPeers(entry, r, peer);
    var i :| 0 <= i < |kept| && kept[i] == r;
  }

  // ----- how much a list can trust -----

  lemma SameByte(a: bv8, b: bv8)
    requires forall bit :: 0 <= bit < 8 ==> a & Mask(bit) == b & Mask(bit)
    ensures a == b
  {
    assert Mask(0) == 0x80 && Mask(1) == 0x40 && Mask(2) == 0x20 && Mask(3) == 0x10;
    assert Mask(4) == 0x08 && Mask(5) == 0x04 && Mask(6) == 0x02 && Mask(7) == 0x01;
    EightBits(a, b);
  }

  lemma EightBits(a: bv8, b: bv8)
    requires a & 0x80 == b & 0x80 && a & 0x40 == b & 0x40 && a & 0x20 == b & 0x20 && a & 0x10 == b & 0x10
    requires a & 0x08 == b & 0x08 && a & 0x04 == b & 0x04 && a & 0x02 == b & 0x02 && a & 0x01 == b & 0x01
    ensures a == b
  {
  }

  /** A range of at least eight bits matches only peers that begin with its own first byte. */
  lemma FirstByteIsFixed(r: Recorded, peer: Bytes)
    requires |peer| == 4 && r.address.V4? && Trusts(r.address, r.prefix, peer)
    requires r.prefix.Some? ==> r.prefix.value >= MIN_TRUSTED_PREFIX
    ensures r.address.bytes[0] == peer[0]
  {
    var bytes := r.address.bytes;
    forall bit | 0 <= bit < 8 ensures bytes[0] & Mask(bit) == peer[0] & Mask(bit) {
      assert BitAt(bytes, bit) == BitAt(peer, bit);
      assert bit / 8 == 0 && bit % 8 == bit;
    }
    SameByte(bytes[0], peer[0]);
  }

  /** The first bytes of the IPv4 records. */
  function FirstBytes(list: seq<Recorded>, n: nat): (firsts: set<int>)
    requires n <= |list|
    ensures |firsts| <= n
    ensures forall k :: 0 <= k < n && list[k].address.V4? && list[k].address.bytes != [] ==> list[k].address.bytes[0] as int in firsts
  {
    if n == 0 then {}
    else
      FirstBytes(list, n - 1) +
      if list[n - 1].address.V4? && list[n - 1].address.bytes != [] then {list[n - 1].address.bytes[0] as int} else {}
  }

  function Octets(n: nat): (octets: set<int>)
    ensures |octets| == n && forall i :: i in octets <==> 0 <= i < n
  {
    if n == 0 then {} else Octets(n - 1) + {n - 1}
  }

  /**
   However they are spelled, fewer than 256 accepted entries never trust every IPv4 peer, as the two
   halves `0.0.0.0/1` and `128.0.0.0/1` would.
   */
  lemma FewEntriesLeavePeersOut(list: seq<Recorded>) returns (peer: Bytes)
    requires |list| < 0x100
    requires forall r :: r in list ==> IsNarrow(r)
    ensures |peer| == 4 && !ListTrusts(list, peer)
  {
    var free := FreeOctet(FirstBytes(list, |list|));
    peer := [Octet(free), 0, 0, 0];
    forall k | 0 <= k < |list| ensures !Trusts(list[k].address, list[k].prefix, peer) {
      assert list[k] in list;
      if Trusts(list[k].address, list[k].prefix, peer) {
        FirstByteIsFixed(list[k], peer);
      }
    }
  }

  lemma FreeOctet(firsts: set<int>) returns (free: nat)
    requires |firsts| < 0x100
    ensures free < 0x100 && free !in firsts
  {
    var octets := Octets(0x100);
    if octets <= firsts {
      SubsetSize(octets, firsts);
    }
    free :| free in octets && free !in firsts;
  }
}
