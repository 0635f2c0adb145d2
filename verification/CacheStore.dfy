/**
 * The response cache across a restart (src/plugins/cache.rs): the binary codec of keys and
 * entries, the two file formats, the age filters on load, and the fresh/stale decision on
 * lookup.
 *
 * Parsing and printing DNS messages is a parameter. Machine words are naturals with their
 * bounds; sums of TTLs wrap at 64 bits as in a release build.
 */
module CacheStore {
  import opened Basics

  type Msg(==,!new)

  const GRACE: nat := 3600

  // ------------------------------------------------------------------- little-endian words

  function Pow256(n: nat): nat {
    if n == 0 then 1 else 256 * Pow256(n - 1)
  }

  function Le(value: nat, width: nat): (bytes: Bytes)
    ensures |bytes| == width
  {
    if width == 0 then [] else [value % 256] + Le(value / 256, width - 1)
  }

  function UnLe(bytes: Bytes): nat {
    if bytes == [] then 0 else bytes[0] + 256 * UnLe(bytes[1..])
  }

  lemma {:induction false} LeRoundTrip(value: nat, width: nat)
    requires value < Pow256(width)
    ensures UnLe(Le(value, width)) == value
  {
    if width == 0 {
    } else {
      LeRoundTrip(value / 256, width - 1);
      assert Le(value, width)[1..] == Le(value / 256, width - 1);
    }
  }

  /** The little-endian forms of 2, 4 and 8 bytes, spelled out. */
  lemma Le2(value: nat)
    ensures Le(value, 2) == [value % 256, value / 0x100 % 256]
  {
    LeNext(value, 1);
    LeNext(value / 256, 0);
  }

  lemma Le4(value: nat)
    ensures Le(value, 4) == [value % 256, value / 0x100 % 256, value / 0x1_0000 % 256, value / 0x100_0000 % 256]
  {
    LeNext(value, 3);
    LeNext(value / 256, 2);
    Le2(value / 256 / 256);
    assert value / 256 / 256 == value / 0x1_0000;
    assert value / 0x1_0000 / 256 == value / 0x100_0000;
    hide Le;
    assert Le(value, 4) == [value % 256] + ([value / 256 % 256] + Le(value / 0x1_0000, 2));
  }

  lemma Le8(value: nat)
    ensures Le(value, 8) == [value % 256, value / 0x100 % 256, value / 0x1_0000 % 256, value / 0x100_0000 % 256,
                             value / 0x1_0000_0000 % 256, value / 0x100_0000_0000 % 256,
                             value / 0x1_0000_0000_0000 % 256, value / 0x100_0000_0000_0000 % 256]
  {
    hide Le;
    Le4(value);
    Le4(value / 0x1_0000_0000);
    LeSplit(value);
  }

  lemma LeNext(value: nat, width: nat)
    ensures Le(value, width + 1) == [value % 256] + Le(value / 256, width)
  {
  }

  lemma LeSplit(value: nat)
    ensures Le(value, 8) == Le(value, 4) + Le(value / 0x1_0000_0000, 4)
  {
    hide Le;
    var v1, v2, v3, v4 := value / 256, value / 256 / 256, value / 256 / 256 / 256, value / 256 / 256 / 256 / 256;
    LeNext(value, 7);
    LeNext(v1, 6);
    LeNext(v2, 5);
    LeNext(v3, 4);
    LeNext(value, 3);
    LeNext(v1, 2);
    LeNext(v2, 1);
    LeNext(v3, 0);
    assert v2 == value / 0x1_0000 && v3 == v2 / 256 == value / 0x100_0000 && v4 == v3 / 256 == value / 0x1_0000_0000;
    assert |Le(v4, 0)| == 0;
  }

  /** Every byte string is the little-endian form of what it is read as. */
  lemma {:induction false} UnLeRoundTrip(bytes: Bytes)
    ensures Le(UnLe(bytes), |bytes|) == bytes && UnLe(bytes) < Pow256(|bytes|)
  {
    if bytes == [] {
    } else {
      UnLeRoundTrip(bytes[1..]);
      assert UnLe(bytes) % 256 == bytes[0] && UnLe(bytes) / 256 == UnLe(bytes[1..]);
    }
  }

  lemma Widths()
    ensures Pow256(2) == U16 && Pow256(4) == U32 && Pow256(8) == U64
  {
    assert Pow256(1) == 256 * Pow256(0);
    assert Pow256(3) == 256 * Pow256(2) && Pow256(4) == 256 * Pow256(3);
    assert Pow256(5) == 256 * Pow256(4) && Pow256(6) == 256 * Pow256(5);
    assert Pow256(7) == 256 * Pow256(6) && Pow256(8) == 256 * Pow256(7);
  }

  lemma Le32RoundTrip(value: nat)
    requires value < U32
    ensures UnLe(Le(value % U32, 4)) == value
  {
    Widths();
    LeRoundTrip(value, 4);
  }

  // ---------------------------------------------------------------------------------- keys

  datatype Subnet = V4(octets: Bytes, prefix: byte) | V6(octets: Bytes, prefix: byte)

  datatype QueryKey = QueryKey(nameHash: nat, qtype: nat, qclass: nat, subnet: Option<Subnet>)

  predicate KeyOk(k: QueryKey) {
    && k.nameHash < U64 && k.qtype < U16 && k.qclass < U16
    && match k.subnet
       case None => true
       case Some(V4(octets, _)) => |octets| == 4
       case Some(V6(octets, _)) => |octets| == 16
  }

  /** The last eight bytes keep an IPv4 net whole, and 56 bits of an IPv6 net. */
  function SubnetBytes(subnet: Option<Subnet>): (bytes: Bytes)
    requires match subnet case None => true case Some(V4(o, _)) => |o| == 4 case Some(V6(o, _)) => |o| == 16
    ensures |bytes| == 8
  {
    match subnet
    case None => [0, 0, 0, 0, 0, 0, 0, 0]
    case Some(V4(octets, prefix)) => octets + [prefix, 0, 0, 0]
    case Some(V6(octets, prefix)) => octets[..7] + [prefix]
  }

  function KeyBytes(k: QueryKey): (bytes: Bytes)
    requires KeyOk(k)
    ensures |bytes| == 20
  {
    Le(k.nameHash, 8) + Le(k.qtype, 2) + Le(k.qclass, 2) + SubnetBytes(k.subnet)
  }

  /** The subnet is not read back. */
  function KeyFromBytes(bytes: Bytes): QueryKey
    requires |bytes| == 20
  {
    QueryKey(UnLe(bytes[..8]), UnLe(bytes[8..10]), UnLe(bytes[10..12]), None)
  }

  /** A key survives the codec exactly when it has no subnet. */
  lemma KeyRoundTrip(k: QueryKey)
    requires KeyOk(k)
    ensures KeyFromBytes(KeyBytes(k)) == k.(subnet := None)
    ensures KeyFromBytes(KeyBytes(k)) == k <==> k.subnet == None
  {
    var b := KeyBytes(k);
    assert b[..8] == Le(k.nameHash, 8);
    assert b[8..10] == Le(k.qtype, 2);
    assert b[10..12] == Le(k.qclass, 2);
    Widths();
    LeRoundTrip(k.nameHash, 8);
    LeRoundTrip(k.qtype, 2);
    LeRoundTrip(k.qclass, 2);
  }

  /** A 64-bit word, the least significant byte first. */
  ghost function EightBytes(v: nat): Bytes {
    [v % 256, v / 0x100 % 256, v / 0x1_0000 % 256, v / 0x100_0000 % 256, v / 0x1_0000_0000 % 256,
     v / 0x100_0000_0000 % 256, v / 0x1_0000_0000_0000 % 256, v / 0x100_0000_0000_0000 % 256]
  }

  /** Where the parts of a key lie, byte by byte. */
  lemma KeyLayout(k: QueryKey)
    requires KeyOk(k)
    ensures KeyBytes(k)[..8] == EightBytes(k.nameHash)
    ensures KeyBytes(k)[8] == k.qtype % 256 && KeyBytes(k)[9] == k.qtype / 256
    ensures KeyBytes(k)[10] == k.qclass % 256 && KeyBytes(k)[11] == k.qclass / 256
    ensures match k.subnet
            case None => KeyBytes(k)[12..] == [0, 0, 0, 0, 0, 0, 0, 0]
            case Some(V4(octets, prefix)) => KeyBytes(k)[12..] == octets + [prefix, 0, 0, 0]
            case Some(V6(octets, prefix)) => KeyBytes(k)[12..19] == octets[..7] && KeyBytes(k)[19] == prefix
  {
    Le8(k.nameHash);
    Le2(k.qtype);
    Le2(k.qclass);
  }

  method CopyInto(buf: array<byte>, at: nat, bytes: Bytes)
    requires at + |bytes| <= buf.Length
    modifies buf
    ensures buf[..at] == old(buf[..at])
    ensures buf[at..at + |bytes|] == bytes
    ensures buf[at + |bytes|..] == old(buf[at + |bytes|..])
  {
    for i := 0 to |bytes|
      invariant buf[..at] == old(buf[..at])
      invariant buf[at..at + i] == bytes[..i]
      invariant buf[at + i..] == old(buf[at + i..])
    {
      buf[at + i] := bytes[i];
    }
  }

  method KeyToBytes(k: QueryKey) returns (buf: array<byte>)
    requires KeyOk(k)
    ensures fresh(buf) && buf[..] == KeyBytes(k)
  {
    hide Le;
    buf := new byte[20](_ => 0);
    CopyInto(buf, 0, Le(k.nameHash, 8));
    assert buf[..8] == buf[0..8];
    assert buf[12..] == buf[8..][4..];
    CopyInto(buf, 8, Le(k.qtype, 2));
    assert buf[12..] == buf[10..][2..];
    assert buf[..10] == buf[..8] + buf[8..10];
    CopyInto(buf, 10, Le(k.qclass, 2));
    assert buf[..12] == buf[..10] + buf[10..12];
    if k.subnet.Some? {
      CopyInto(buf, 12, SubnetBytes(k.subnet));
      assert buf[12..] == buf[12..20];
    } else {
      assert buf[12..] == SubnetBytes(None);
    }
    assert buf[..] == buf[..12] + buf[12..];
  }

  // ------------------------------------------------------------------------------- entries

  datatype Entry = Entry(raw: Option<Bytes>, message: Msg, timestamp: nat, ttl: nat)

  /** DNS message parsing and printing, as total functions that may refuse. */
  datatype Codec = Codec(parse: Bytes -> Option<Msg>, emit: Msg -> Option<Bytes>)

  function Payload(c: Codec, e: Entry): Option<Bytes> {
    if e.raw.Some? then e.raw else c.emit(e.message)
  }

  function EntryBytes(e: Entry, payload: Bytes): Bytes {
    Le(e.timestamp, 8) + Le(e.ttl, 8) + Le(|payload| % U32, 4) + payload
  }

  /** Where the parts of an entry lie, byte by byte. */
  lemma EntryLayout(e: Entry, payload: Bytes)
    ensures var bytes, n := EntryBytes(e, payload), |payload| % U32;
            && |bytes| == 20 + |payload| && bytes[20..] == payload
            && bytes[..8] == EightBytes(e.timestamp) && bytes[8..16] == EightBytes(e.ttl)
            && bytes[16..20] == [n % 256, n / 0x100 % 256, n / 0x1_0000 % 256, n / 0x100_0000 % 256]
  {
    hide Le;
    var bytes, n := EntryBytes(e, payload), |payload| % U32;
    assert bytes[..8] == Le(e.timestamp, 8) && bytes[8..16] == Le(e.ttl, 8) && bytes[16..20] == Le(n, 4);
    Le8(e.timestamp);
    Le8(e.ttl);
    Le4(n);
  }

  /** The entry at the front of the bytes and how many bytes it took. */
  function EntryFromBytes(c: Codec, bytes: Bytes): (r: Option<(Entry, nat)>)
    ensures r.Some? ==> 20 <= r.value.1 <= |bytes|
  {
    if |bytes| < 20 then None
    else
      var len := UnLe(bytes[16..20]);
      if |bytes| < 20 + len then None
      else
        var payload := bytes[20..20 + len];
        var message := c.parse(payload);
        if message.None? then None
        else Some((Entry(Some(payload), message.value, UnLe(bytes[..8]), UnLe(bytes[8..16])), 20 + len))
  }

  /** Word sizes hold, the serialised form is at hand and its length fits the length fields. */
  predicate Writable(e: Entry) {
    e.timestamp < U64 && e.ttl < U64 && e.raw.Some? && |e.raw.value| + 20 < U32
  }

  /** What a written entry is read back as, when its bytes parse at all. */
  function Reread(c: Codec, e: Entry): Option<Entry>
    requires e.raw.Some?
  {
    var message := c.parse(e.raw.value);
    if message.None? then None else Some(e.(message := message.value))
  }

  /** Entries delimit themselves: whatever follows them is not looked at. */
  lemma EntryRoundTrip(c: Codec, e: Entry, trailing: Bytes)
    requires Writable(e)
    ensures var bytes := EntryBytes(e, e.raw.value);
            EntryFromBytes(c, bytes + trailing) ==
              if Reread(c, e).None? then None else Some((Reread(c, e).value, |bytes|))
  {
    var payload := e.raw.value;
    var all := EntryBytes(e, payload) + trailing;
    Widths();
    LeRoundTrip(e.timestamp, 8);
    LeRoundTrip(e.ttl, 8);
    LeRoundTrip(|payload| % U32, 4);
    assert all[..8] == Le(e.timestamp, 8);
    assert all[8..16] == Le(e.ttl, 8);
    assert all[16..20] == Le(|payload| % U32, 4);
    assert all[20..20 + |payload|] == payload;
  }

  /** A cut inside an entry makes it unreadable. */
  lemma CutEntryFails(c: Codec, e: Entry, n: nat)
    requires Writable(e) && n < |EntryBytes(e, e.raw.value)|
    ensures EntryFromBytes(c, EntryBytes(e, e.raw.value)[..n]) == None
  {
    var payload := e.raw.value;
    var whole := EntryBytes(e, payload);
    if n >= 20 {
      Widths();
      LeRoundTrip(|payload| % U32, 4);
      assert whole[16..20] == Le(|payload| % U32, 4);
      assert whole[..n][16..20] == whole[16..20];
    }
  }

  // ------------------------------------------------------------------------- the two files

  datatype Rec = Rec(key: QueryKey, entry: Entry)

  predicate RecOk(r: Rec) {
    KeyOk(r.key) && Writable(r.entry)
  }

  ghost predicate RecsOk(rs: seq<Rec>) {
    forall i :: 0 <= i < |rs| ==> RecOk(rs[i])
  }

  /** `framed`: [key][length][entry], as written by save_to_disk; else [key][entry]. */
  ghost function RecBytes(r: Rec, framed: bool): Bytes
    requires RecOk(r)
  {
    var entry := EntryBytes(r.entry, r.entry.raw.value);
    KeyBytes(r.key) + (if framed then Le(|entry| % U32, 4) else []) + entry
  }

  ghost function FileBytes(rs: seq<Rec>, framed: bool): Bytes
    requires RecsOk(rs)
  {
    if rs == [] then [] else RecBytes(rs[0], framed) + FileBytes(rs[1..], framed)
  }

  /** What save_to_disk's file is read as: a broken entry is skipped, a cut one ends the file. */
  function ReadFramed(c: Codec, bytes: Bytes): seq<Rec>
    decreases |bytes|
  {
    if |bytes| < 24 then []
    else
      var len := UnLe(bytes[20..24]);
      if |bytes| < 24 + len then []
      else
        var e := EntryFromBytes(c, bytes[24..24 + len]);
        (if e.Some? then [Rec(KeyFromBytes(bytes[..20]), e.value.0)] else []) + ReadFramed(c, bytes[24 + len..])
  }

  /** What dump_to_file's file is read as: the first broken or cut entry ends it. */
  function ReadDump(c: Codec, bytes: Bytes): seq<Rec>
    decreases |bytes|
  {
    if |bytes| < 20 then []
    else
      var e := EntryFromBytes(c, bytes[20..]);
      if e.None? then []
      else [Rec(KeyFromBytes(bytes[..20]), e.value.0)] + ReadDump(c, bytes[20 + e.value.1..])
  }

  /** The records with their subnets dropped and messages reparsed; unparseable ones are lost. */
  ghost function Survivors(c: Codec, rs: seq<Rec>): seq<Rec>
    requires RecsOk(rs)
  {
    if rs == [] then []
    else
      var e := Reread(c, rs[0].entry);
      (if e.Some? then [Rec(rs[0].key.(subnet := None), e.value)] else []) + Survivors(c, rs[1..])
  }

  /** The records before the first unparseable one. */
  ghost function Leading(c: Codec, rs: seq<Rec>): seq<Rec>
    requires RecsOk(rs)
  {
    if rs == [] || Reread(c, rs[0].entry).None? then []
    else [rs[0]] + Leading(c, rs[1..])
  }

  lemma {:induction false} LeadingOk(c: Codec, rs: seq<Rec>)
    requires RecsOk(rs)
    ensures RecsOk(Leading(c, rs))
  {
    if rs != [] && Reread(c, rs[0].entry).Some? {
      LeadingOk(c, rs[1..]);
    }
  }

  /** How many whole records the first n bytes of the file hold. */
  ghost function Whole(rs: seq<Rec>, framed: bool, n: nat): (m: nat)
    requires RecsOk(rs)
    ensures m <= |rs|
  {
    if rs == [] || n < |RecBytes(rs[0], framed)| then 0
    else 1 + Whole(rs[1..], framed, n - |RecBytes(rs[0], framed)|)
  }

  /** `Whole` is the largest number of records whose encoding fits in n bytes. */
  lemma {:induction false} WholeIsLargest(rs: seq<Rec>, framed: bool, n: nat, m: nat)
    requires RecsOk(rs) && m <= |rs|
    ensures |FileBytes(rs[..m], framed)| <= n <==> m <= Whole(rs, framed, n)
  {
    if m == 0 {
    } else {
      assert rs[..m][0] == rs[0] && rs[..m][1..] == rs[1..][..m - 1];
      if n >= |RecBytes(rs[0], framed)| {
        WholeIsLargest(rs[1..], framed, n - |RecBytes(rs[0], framed)|, m - 1);
      }
    }
  }

  /** The framed reader at a cursor, in absolute positions. */
  lemma FramedAt(c: Codec, file: Bytes, pos: nat)
    requires pos <= |file|
    ensures |file| - pos < 24 ==> ReadFramed(c, file[pos..]) == []
    ensures |file| - pos >= 24 ==>
              var len := UnLe(file[pos + 20..pos + 24]);
              ReadFramed(c, file[pos..]) ==
                if |file| - pos < 24 + len then []
                else
                  var e := EntryFromBytes(c, file[pos + 24..pos + 24 + len]);
                  (if e.Some? then [Rec(KeyFromBytes(file[pos..pos + 20]), e.value.0)] else [])
                    + ReadFramed(c, file[pos + 24 + len..])
  {
    var rest := file[pos..];
    if |rest| >= 24 {
      assert rest[..20] == file[pos..pos + 20] && rest[20..24] == file[pos + 20..pos + 24];
      var len := UnLe(rest[20..24]);
      if |rest| >= 24 + len {
        assert rest[24..24 + len] == file[pos + 24..pos + 24 + len];
        assert rest[24 + len..] == file[pos + 24 + len..];
      }
    }
  }

  lemma DumpAt(c: Codec, file: Bytes, pos: nat)
    requires pos <= |file|
    ensures |file| - pos < 20 ==> ReadDump(c, file[pos..]) == []
    ensures |file| - pos >= 20 ==>
              var e := EntryFromBytes(c, file[pos + 20..]);
              ReadDump(c, file[pos..]) ==
                if e.None? then []
                else [Rec(KeyFromBytes(file[pos..pos + 20]), e.value.0)] + ReadDump(c, file[pos + 20 + e.value.1..])
  {
    var rest := file[pos..];
    if |rest| >= 20 {
      assert rest[..20] == file[pos..pos + 20] && rest[20..] == file[pos + 20..];
      var e := EntryFromBytes(c, rest[20..]);
      if e.Some? {
        assert rest[20 + e.value.1..] == file[pos + 20 + e.value.1..];
      }
    }
  }

  /** Where the parts of a record lie in the bytes. */
  lemma RecParts(r: Rec, framed: bool, rest: Bytes)
    requires RecOk(r)
    ensures var entry := EntryBytes(r.entry, r.entry.raw.value);
            var all := RecBytes(r, framed) + rest;
            var at := if framed then 24 else 20;
            && |all| == at + |entry| + |rest| && all[..20] == KeyBytes(r.key)
            && (framed ==> all[20..24] == Le(|entry| % U32, 4))
            && all[at..at + |entry|] == entry && all[at + |entry|..] == rest && all[at..] == entry + rest
  {
    hide Le, KeyBytes, EntryBytes;
  }

  /** What the frame and the two codecs read back from a record's own bytes. */
  lemma FrameRead(c: Codec, r: Rec)
    requires RecOk(r)
    ensures var entry := EntryBytes(r.entry, r.entry.raw.value);
            && UnLe(Le(|entry| % U32, 4)) == |entry|
            && KeyFromBytes(KeyBytes(r.key)) == r.key.(subnet := None)
            && EntryFromBytes(c, entry) ==
                 if Reread(c, r.entry).None? then None else Some((Reread(c, r.entry).value, |entry|))
  {
    var entry := EntryBytes(r.entry, r.entry.raw.value);
    hide Le, UnLe, KeyBytes, KeyFromBytes, EntryFromBytes;
    assert |entry| < U32;
    hide EntryBytes, Reread;
    Le32RoundTrip(|entry|);
    KeyRoundTrip(r.key);
    EntryRoundTrip(c, r.entry, []);
    assert entry + [] == entry;
  }

  /** One framed record followed by anything. */
  lemma FramedStep(c: Codec, r: Rec, rest: Bytes)
    requires RecOk(r)
    ensures var e := Reread(c, r.entry);
            ReadFramed(c, RecBytes(r, true) + rest) ==
              (if e.Some? then [Rec(r.key.(subnet := None), e.value)] else []) + ReadFramed(c, rest)
  {
    hide ReadFramed, RecBytes, Le, UnLe, KeyBytes, KeyFromBytes, EntryFromBytes, EntryBytes, Reread, RecOk;
    var all := RecBytes(r, true) + rest;
    FrameRead(c, r);
    RecParts(r, true, rest);
    assert all[0..] == all && all[0..20] == all[..20];
    FramedAt(c, all, 0);
  }

  lemma DumpStep(c: Codec, r: Rec, rest: Bytes)
    requires RecOk(r)
    ensures var e := Reread(c, r.entry);
            ReadDump(c, RecBytes(r, false) + rest) ==
              if e.Some? then [Rec(r.key.(subnet := None), e.value)] + ReadDump(c, rest) else []
  {
    KeyRoundTrip(r.key);
    EntryRoundTrip(c, r.entry, rest);
    RecParts(r, false, rest);
    hide ReadDump, RecBytes, KeyBytes, KeyFromBytes, EntryFromBytes, EntryBytes;
    var all := RecBytes(r, false) + rest;
    DumpAt(c, all, 0);
    assert all[0..] == all;
  }

  lemma CutFramed(c: Codec, r: Rec, n: nat)
    requires RecOk(r) && n < |RecBytes(r, true)|
    ensures ReadFramed(c, RecBytes(r, true)[..n]) == []
  {
    if n >= 24 {
      var entry := EntryBytes(r.entry, r.entry.raw.value);
      var all := RecBytes(r, true);
      var cut := all[..n];
      RecParts(r, true, []);
      assert all + [] == all;
      FrameRead(c, r);
      hide RecBytes, EntryBytes, Le, UnLe;
      assert cut[20..24] == all[20..24];
    }
  }

  lemma CutDump(c: Codec, r: Rec, n: nat)
    requires RecOk(r) && n < |RecBytes(r, false)|
    ensures ReadDump(c, RecBytes(r, false)[..n]) == []
  {
    if n >= 20 {
      var entry := EntryBytes(r.entry, r.entry.raw.value);
      assert RecBytes(r, false)[..n][20..] == entry[..n - 20];
      CutEntryFails(c, r.entry, n - 20);
    }
  }

  /** A cut falls into the first record, or takes it whole. */
  lemma CutAtFirst(rs: seq<Rec>, framed: bool, n: nat)
    requires RecsOk(rs) && rs != [] && n <= |FileBytes(rs, framed)|
    ensures RecOk(rs[0]) && RecsOk(rs[1..])
    ensures var head, tail := RecBytes(rs[0], framed), FileBytes(rs[1..], framed);
            if n < |head| then FileBytes(rs, framed)[..n] == head[..n] && Whole(rs, framed, n) == 0
            else
              && n - |head| <= |tail| && FileBytes(rs, framed)[..n] == head + tail[..n - |head|]
              && Whole(rs, framed, n) == Whole(rs[1..], framed, n - |head|) + 1
  {
    hide RecBytes;
    assert FileBytes(rs, framed) == RecBytes(rs[0], framed) + FileBytes(rs[1..], framed);
  }

  /**
   * A framed file cut after any number n of bytes is read as exactly the records wholly
   * inside the cut: none is damaged, none is invented. For n at the full length this is the
   * round trip of the whole file.
   */
  lemma {:induction false} FramedPrefix(c: Codec, rs: seq<Rec>, n: nat)
    requires RecsOk(rs) && n <= |FileBytes(rs, true)|
    ensures ReadFramed(c, FileBytes(rs, true)[..n]) == Survivors(c, rs[..Whole(rs, true, n)])
  {
    if rs == [] {
    } else {
      CutAtFirst(rs, true, n);
      hide ReadFramed, RecBytes, FileBytes, Whole;
      var head, tail := RecBytes(rs[0], true), FileBytes(rs[1..], true);
      if n < |head| {
        CutFramed(c, rs[0], n);
      } else {
        FramedPrefix(c, rs[1..], n - |head|);
        FramedStep(c, rs[0], tail[..n - |head|]);
        var m := Whole(rs[1..], true, n - |head|);
        assert rs[..m + 1][0] == rs[0] && rs[..m + 1][1..] == rs[1..][..m];
      }
    }
  }

  /** The first record of a dump that reaches past it, and what the rest is read as. */
  lemma DumpPrefixStep(c: Codec, rs: seq<Rec>, m: nat, rest: Bytes)
    requires RecsOk(rs) && rs != [] && m < |rs|
    requires RecsOk(Leading(c, rs[1..][..m])) && ReadDump(c, rest) == Survivors(c, Leading(c, rs[1..][..m]))
    ensures RecsOk(Leading(c, rs[..m + 1]))
    ensures ReadDump(c, RecBytes(rs[0], false) + rest) == Survivors(c, Leading(c, rs[..m + 1]))
  {
    LeadingOk(c, rs[..m + 1]);
    DumpStep(c, rs[0], rest);
    hide ReadDump, RecBytes;
    assert rs[..m + 1][0] == rs[0] && rs[..m + 1][1..] == rs[1..][..m];
    if Reread(c, rs[0].entry).Some? {
      var lead := Leading(c, rs[1..][..m]);
      assert Leading(c, rs[..m + 1]) == [rs[0]] + lead;
      assert ([rs[0]] + lead)[1..] == lead;
    }
  }

  lemma NothingLeads(c: Codec, rs: seq<Rec>)
    ensures rs[..0] == [] && RecsOk([]) && Leading(c, []) == [] && Survivors(c, []) == []
  {
  }

  /** The same for the unframed dump, which stops at the first entry that does not parse. */
  lemma {:induction false} DumpPrefix(c: Codec, rs: seq<Rec>, n: nat)
    requires RecsOk(rs) && n <= |FileBytes(rs, false)|
    ensures RecsOk(Leading(c, rs[..Whole(rs, false, n)]))
    ensures ReadDump(c, FileBytes(rs, false)[..n]) == Survivors(c, Leading(c, rs[..Whole(rs, false, n)]))
  {
    if rs == [] {
    } else {
      CutAtFirst(rs, false, n);
      hide ReadDump, RecBytes, FileBytes, Whole, RecOk;
      var head, tail := RecBytes(rs[0], false), FileBytes(rs[1..], false);
      if n < |head| {
        CutDump(c, rs[0], n);
        NothingLeads(c, rs);
        hide Leading, Survivors;
      } else {
        hide Leading, Survivors;
        DumpPrefix(c, rs[1..], n - |head|);
        DumpPrefixStep(c, rs, Whole(rs[1..], false, n - |head|), tail[..n - |head|]);
      }
    }
  }

  /** The record's bytes parse and its key has no subnet. */
  ghost predicate Readable(c: Codec, r: Rec) {
    RecOk(r) && r.key.subnet == None && c.parse(r.entry.raw.value).Some?
  }

  ghost predicate AllReadable(c: Codec, rs: seq<Rec>) {
    forall i :: 0 <= i < |rs| ==> Readable(c, rs[i])
  }

  /** The same keys, timestamps, TTLs and bytes, with the messages the bytes parse to. */
  ghost function Reparsed(c: Codec, rs: seq<Rec>): (r: seq<Rec>)
    requires AllReadable(c, rs)
    ensures |r| == |rs|
    ensures forall i :: 0 <= i < |rs| ==>
              r[i] == Rec(rs[i].key, rs[i].entry.(message := c.parse(rs[i].entry.raw.value).value))
  {
    if rs == [] then []
    else
      assert Readable(c, rs[0]);
      var first := Rec(rs[0].key, rs[0].entry.(message := c.parse(rs[0].entry.raw.value).value));
      [first] + Reparsed(c, rs[1..])
  }

  lemma {:induction false} ReadableSurvive(c: Codec, rs: seq<Rec>)
    requires AllReadable(c, rs)
    ensures RecsOk(rs) && Survivors(c, rs) == Reparsed(c, rs) && Leading(c, rs) == rs
  {
    if rs == [] {
    } else {
      assert Readable(c, rs[0]);
      ReadableSurvive(c, rs[1..]);
      assert rs == [rs[0]] + rs[1..];
    }
  }

  lemma {:induction false} WholeFile(rs: seq<Rec>, framed: bool)
    requires RecsOk(rs)
    ensures Whole(rs, framed, |FileBytes(rs, framed)|) == |rs|
  {
    if rs == [] {
    } else {
      WholeFile(rs[1..], framed);
    }
  }

  /** Both formats give back the same keys, timestamps, TTLs and bytes, in order. */
  lemma FilesRoundTrip(c: Codec, rs: seq<Rec>)
    requires AllReadable(c, rs)
    ensures RecsOk(rs) && ReadFramed(c, FileBytes(rs, true)) == Reparsed(c, rs)
    ensures ReadDump(c, FileBytes(rs, false)) == Reparsed(c, rs)
  {
    ReadableSurvive(c, rs);
    WholeFile(rs, true);
    WholeFile(rs, false);
    FramedPrefix(c, rs, |FileBytes(rs, true)|);
    DumpPrefix(c, rs, |FileBytes(rs, false)|);
    assert rs[..|rs|] == rs;
    assert FileBytes(rs, true)[..|FileBytes(rs, true)|] == FileBytes(rs, true);
    assert FileBytes(rs, false)[..|FileBytes(rs, false)|] == FileBytes(rs, false);
  }

  // ------------------------------------------------------------------------------ lookups

  /** The stale time is configured as a 32-bit number of seconds. */
  datatype Config = Config(stale: Word32, fakeIpProtection: bool)

  type Store = map<QueryKey, Entry>

  /** A pre-serialised reply with the request's ID, or the parsed message to be printed. */
  datatype Reply = Miss | Wire(bytes: Bytes) | Parsed(message: Msg, id: nat)

  function Elapsed(e: Entry, now: nat): nat {
    if now < e.timestamp then 0 else now - e.timestamp
  }

  /** Addition of unsigned 64-bit words. */
  function Add64(a: nat, b: nat): nat {
    (a + b) % U64
  }

  function Render(e: Entry, id: nat): Reply
    requires id < U16
  {
    if e.raw.Some? && |e.raw.value| >= 12 then Wire(UnderId(e.raw.value, Be16(id))) else Parsed(e.message, id)
  }

  function IsFresh(e: Entry, now: nat): bool {
    Elapsed(e, now) < e.ttl
  }

  function StaleAllowed(cfg: Config, e: Entry, now: nat): bool {
    Elapsed(e, now) < Add64(e.ttl, cfg.stale)
  }

  /** The answer to one lookup and the store it leaves: a hopeless entry is invalidated. */
  function Lookup(cfg: Config, store: Store, key: QueryKey, now: nat, id: nat): (Store, Reply)
    requires id < U16
  {
    if key !in store then (store, Miss)
    else
      var e := store[key];
      if cfg.fakeIpProtection && !IsFresh(e, now) then (store, Miss)
      else if IsFresh(e, now) || StaleAllowed(cfg, e, now) then (store, Render(e, id))
      else (store - {key}, Miss)
  }

  /**
   * What a lookup must do with the entry it finds, by the entry's age: serve it while the age is
   * within the TTL, or within TTL and stale time (a 64-bit sum) unless fake IPs are guarded
   * against; put the request's ID first in the bytes served; drop what no time allows.
   */
  ghost predicate Answered(cfg: Config, before: Store, key: QueryKey, now: nat, id: nat, reply: Reply, after: Store) {
    if key !in before then reply == Miss && after == before
    else
      var e := before[key];
      var age: nat := if now < e.timestamp then 0 else now - e.timestamp;
      var stale := age < (e.ttl + cfg.stale) % U64;
      && (reply != Miss <==> age < e.ttl || (stale && !cfg.fakeIpProtection))
      && (reply != Miss ==>
            if e.raw.Some? && |e.raw.value| >= 12 then
              && reply.Wire? && |reply.bytes| == |e.raw.value| && reply.bytes[0] == id / 256
              && reply.bytes[1] == id % 256 && reply.bytes[2..] == e.raw.value[2..]
            else reply == Parsed(e.message, id))
      && (key !in after <==> reply == Miss && (!cfg.fakeIpProtection || age < e.ttl) && age >= e.ttl && !stale)
      && after == if key in after then before else before - {key}
  }

  lemma LookupAnswers(cfg: Config, store: Store, key: QueryKey, now: nat, id: nat)
    requires id < U16
    ensures var (after, reply) := Lookup(cfg, store, key, now, id);
            Answered(cfg, store, key, now, id, reply, after)
  {
  }

  class CachePlugin {
    const cfg: Config
    var store: Store

    constructor (cfg: Config)
      ensures this.cfg == cfg && store == map[]
    {
      this.cfg := cfg;
      store := map[];
    }

    method Handle(key: QueryKey, now: nat, id: nat) returns (reply: Reply)
      requires id < U16
      modifies this
      ensures Answered(cfg, old(store), key, now, id, reply, store)
      ensures (store, reply) == Lookup(cfg, old(store), key, now, id)
    {
      LookupAnswers(cfg, store, key, now, id);
      reply := Miss;
      if key in store {
        var e := store[key];
        var elapsed := if now < e.timestamp then 0 else now - e.timestamp;
        var remaining := if e.ttl < elapsed then 0 else e.ttl - elapsed;
        var isStale := remaining == 0;
        var canServeStale := isStale && elapsed < Add64(e.ttl, cfg.stale);
        if cfg.fakeIpProtection && isStale {
        } else if remaining > 0 || canServeStale {
          reply := Render(e, id);
        } else {
          store := store - {key};
        }
      }
    }

    /** Writes every entry that has or can be given a serialised form, in the given iteration order. */
    method SaveToDisk(c: Codec, order: seq<QueryKey>) returns (file: Bytes)
      requires forall i :: 0 <= i < |order| ==> order[i] in store && KeyOk(order[i]) && Storable(c, store[order[i]])
      ensures RecsOk(SavedRecs(c, store, order)) && file == FileBytes(SavedRecs(c, store, order), true)
    {
      file := [];
      assert FileBytes(SavedRecs(c, store, order[..0]), true) == [];
      hide SavedRecs, FileBytes, RecsOk, RecBytes, KeyBytes, EntryBytes, Le, Payload, RecOk;
      for i := 0 to |order|
        invariant RecsOk(SavedRecs(c, store, order[..i])) && file == FileBytes(SavedRecs(c, store, order[..i]), true)
      {
        var e := store[order[i]];
        var key := KeyToBytes(order[i]);
        var payload := Payload(c, e);
        SavedSnoc(c, store, order, i);
        if payload.Some? {
          var entry := EntryBytes(e, payload.value);
          file := file + (key[..] + Le(|entry| % U32, 4) + entry);
        }
      }
      assert order[..|order|] == order;
    }

    /** Reads the framed file and keeps what is not an hour past its stale time. */
    method LoadFromDisk(c: Codec, file: Bytes, now: nat)
      modifies this
      ensures store == Loaded(old(store), ReadFramed(c, file), now, cfg.stale, GRACE)
    {
      hide *;
      var pos := 0;
      assert file[0..] == file;
      while true
        invariant pos <= |file|
        invariant Loaded(store, ReadFramed(c, file[pos..]), now, cfg.stale, GRACE) ==
                  Loaded(old(store), ReadFramed(c, file), now, cfg.stale, GRACE)
        decreases |file| - pos
      {
        LoadedFramedAt(c, file, pos, store, now, cfg.stale, GRACE);
        if |file| - pos < 20 { break; }
        var key := file[pos..pos + 20];
        if |file| - pos < 24 { break; }
        var len := UnLe(file[pos + 20..pos + 24]);
        if |file| - pos < 24 + len { break; }
        var e := EntryFromBytes(c, file[pos + 24..pos + 24 + len]);
        pos := pos + 24 + len;
        if e.Some? {
          store := Admit(store, Rec(KeyFromBytes(key), e.value.0), now, cfg.stale, GRACE);
        }
      }
    }

    /** Reads the dump and keeps what could still be served stale. */
    method LoadFromFile(c: Codec, file: Bytes, now: nat)
      modifies this
      ensures store == Loaded(old(store), ReadDump(c, file), now, cfg.stale, 0)
    {
      hide *;
      var offset := 0;
      assert file[0..] == file;
      while offset + 20 <= |file|
        invariant offset <= |file|
        invariant Loaded(store, ReadDump(c, file[offset..]), now, cfg.stale, 0) ==
                  Loaded(old(store), ReadDump(c, file), now, cfg.stale, 0)
        decreases |file| - offset
      {
        LoadedDumpAt(c, file, offset, store, now, cfg.stale, 0);
        var key := file[offset..offset + 20];
        var e := EntryFromBytes(c, file[offset + 20..]);
        if e.None? { return; }
        offset := offset + 20 + e.value.1;
        store := Admit(store, Rec(KeyFromBytes(key), e.value.0), now, cfg.stale, 0);
      }
      LoadedDumpAt(c, file, offset, store, now, cfg.stale, 0);
    }
  }

  /** Inserts the record if it passes the age filter. */
  function Admit(store: Store, r: Rec, now: nat, stale: nat, grace: nat): Store {
    if Elapsed(r.entry, now) < Add64(Add64(r.entry.ttl, stale), grace) then store[r.key := r.entry] else store
  }

  /** A record is let in exactly while its age is below TTL, stale time and grace, as 64-bit sums. */
  lemma AdmitIff(store: Store, r: Rec, now: nat, stale: nat, grace: nat)
    ensures var e := r.entry;
            var age: nat := if now < e.timestamp then 0 else now - e.timestamp;
            Admit(store, r, now, stale, grace) ==
              if age < ((e.ttl + stale) % U64 + grace) % U64 then store[r.key := e] else store
  {
  }

  /** Admitting the records in turn, later ones over earlier ones. */
  function Loaded(store: Store, rs: seq<Rec>, now: nat, stale: nat, grace: nat): Store
    decreases |rs|
  {
    if rs == [] then store else Loaded(Admit(store, rs[0], now, stale, grace), rs[1..], now, stale, grace)
  }

  lemma {:induction false} LoadedSnoc(store: Store, rs: seq<Rec>, r: Rec, now: nat, stale: nat, grace: nat)
    ensures Loaded(store, rs + [r], now, stale, grace) ==
              Admit(Loaded(store, rs, now, stale, grace), r, now, stale, grace)
    decreases |rs|
  {
    hide Admit;
    if rs == [] {
      assert (rs + [r])[1..] == [];
    } else {
      assert (rs + [r])[1..] == rs[1..] + [r];
      LoadedSnoc(Admit(store, rs[0], now, stale, grace), rs[1..], r, now, stale, grace);
    }
  }

  lemma LoadedCons(store: Store, r: Rec, rs: seq<Rec>, now: nat, stale: nat, grace: nat)
    ensures Loaded(store, [r] + rs, now, stale, grace) ==
              Loaded(Admit(store, r, now, stale, grace), rs, now, stale, grace)
  {
    hide Admit;
    assert ([r] + rs)[1..] == rs;
  }

  lemma LoadedNil(store: Store, now: nat, stale: nat, grace: nat)
    ensures Loaded(store, [], now, stale, grace) == store
  {
  }

  lemma LoadedFramedAt(c: Codec, file: Bytes, pos: nat, store: Store, now: nat, stale: nat, grace: nat)
    requires pos <= |file|
    ensures |file| - pos < 24 ==> Loaded(store, ReadFramed(c, file[pos..]), now, stale, grace) == store
    ensures |file| - pos >= 24 ==>
              var len := UnLe(file[pos + 20..pos + 24]);
              Loaded(store, ReadFramed(c, file[pos..]), now, stale, grace) ==
                if |file| - pos < 24 + len then store
                else
                  var e := EntryFromBytes(c, file[pos + 24..pos + 24 + len]);
                  var rest := ReadFramed(c, file[pos + 24 + len..]);
                  if e.None? then Loaded(store, rest, now, stale, grace)
                  else
                    var r := Rec(KeyFromBytes(file[pos..pos + 20]), e.value.0);
                    Loaded(Admit(store, r, now, stale, grace), rest, now, stale, grace)
  {
    hide *;
    FramedAt(c, file, pos);
    LoadedNil(store, now, stale, grace);
    if |file| - pos >= 24 {
      var len := UnLe(file[pos + 20..pos + 24]);
      if |file| - pos >= 24 + len {
        var e := EntryFromBytes(c, file[pos + 24..pos + 24 + len]);
        var rest := ReadFramed(c, file[pos + 24 + len..]);
        if e.None? {
          assert [] + rest == rest;
        } else {
          LoadedCons(store, Rec(KeyFromBytes(file[pos..pos + 20]), e.value.0), rest, now, stale, grace);
        }
      }
    }
  }

  lemma LoadedDumpAt(c: Codec, file: Bytes, pos: nat, store: Store, now: nat, stale: nat, grace: nat)
    requires pos <= |file|
    ensures |file| - pos < 20 ==> Loaded(store, ReadDump(c, file[pos..]), now, stale, grace) == store
    ensures |file| - pos >= 20 ==>
              var e := EntryFromBytes(c, file[pos + 20..]);
              Loaded(store, ReadDump(c, file[pos..]), now, stale, grace) ==
                if e.None? then store
                else
                  var r := Rec(KeyFromBytes(file[pos..pos + 20]), e.value.0);
                  var rest := ReadDump(c, file[pos + 20 + e.value.1..]);
                  Loaded(Admit(store, r, now, stale, grace), rest, now, stale, grace)
  {
    hide *;
    DumpAt(c, file, pos);
    LoadedNil(store, now, stale, grace);
    if |file| - pos >= 20 {
      var e := EntryFromBytes(c, file[pos + 20..]);
      if e.Some? {
        LoadedCons(store, Rec(KeyFromBytes(file[pos..pos + 20]), e.value.0), ReadDump(c, file[pos + 20 + e.value.1..]),
                   now, stale, grace);
      }
    }
  }

  /** The words fit, and so does the length of the serialised form, if there is one. */
  predicate Storable(c: Codec, e: Entry) {
    e.timestamp < U64 && e.ttl < U64 && (Payload(c, e).Some? ==> |Payload(c, e).value| + 20 < U32)
  }

  /** The records a save writes: entries that cannot be printed are left out. */
  ghost function SavedRecs(c: Codec, store: Store, order: seq<QueryKey>): seq<Rec>
    requires forall i :: 0 <= i < |order| ==> order[i] in store
  {
    if order == [] then []
    else
      var key := order[|order| - 1];
      var payload := Payload(c, store[key]);
      SavedRecs(c, store, order[..|order| - 1])
      + if payload.None? then [] else [Rec(key, store[key].(raw := payload))]
  }

  /** One more key of the order adds the frame of its entry, or nothing. */
  lemma SavedSnoc(c: Codec, store: Store, order: seq<QueryKey>, i: nat)
    requires forall k :: 0 <= k < |order| ==> order[k] in store
    requires i < |order| && KeyOk(order[i]) && Storable(c, store[order[i]])
    requires RecsOk(SavedRecs(c, store, order[..i]))
    ensures RecsOk(SavedRecs(c, store, order[..i + 1]))
    ensures var e := store[order[i]];
            var payload := Payload(c, e);
            FileBytes(SavedRecs(c, store, order[..i + 1]), true) == FileBytes(SavedRecs(c, store, order[..i]), true) +
              if payload.None? then []
              else
                var entry := EntryBytes(e, payload.value);
                KeyBytes(order[i]) + Le(|entry| % U32, 4) + entry
  {
    var e := store[order[i]];
    var payload := Payload(c, e);
    var before := SavedRecs(c, store, order[..i]);
    assert order[..i + 1][..i] == order[..i];
    if payload.Some? {
      var r := Rec(order[i], e.(raw := payload));
      assert SavedRecs(c, store, order[..i + 1]) == before + [r];
      assert EntryBytes(r.entry, payload.value) == EntryBytes(e, payload.value);
      hide SavedRecs, FileBytes, EntryBytes, KeyBytes, Le;
      FileSnoc(before, r, true);
    } else {
      assert SavedRecs(c, store, order[..i + 1]) == before;
      hide SavedRecs, FileBytes;
      assert FileBytes(before, true) + [] == FileBytes(before, true);
    }
  }

  /** With the bytes of every entry at hand these are the entries themselves. */
  lemma {:induction false} SavedAsTheyAre(c: Codec, store: Store, order: seq<QueryKey>)
    requires forall i :: 0 <= i < |order| ==> order[i] in store && store[order[i]].raw.Some?
    ensures SavedRecs(c, store, order) == RecsOf(store, order)
  {
    if order == [] {
    } else {
      var n := |order| - 1;
      SavedAsTheyAre(c, store, order[..n]);
      RecsOfSnoc(store, order, n);
      assert order[..n + 1] == order;
      var e := store[order[n]];
      assert e.(raw := e.raw) == e;
    }
  }

  /** A record is saved exactly when it is a listed entry with its bytes, or, for want of them, as printed. */
  lemma {:induction false} SavedExactly(c: Codec, store: Store, order: seq<QueryKey>, r: Rec)
    requires forall i :: 0 <= i < |order| ==> order[i] in store
    ensures r in SavedRecs(c, store, order) <==>
              r.key in order && var e := store[r.key];
                if e.raw.Some? then r.entry == e
                else c.emit(e.message).Some? && r.entry == e.(raw := c.emit(e.message))
  {
    if order == [] {
    } else {
      var n := |order| - 1;
      SavedExactly(c, store, order[..n], r);
      assert order == order[..n] + [order[n]];
      var e := store[order[n]];
      assert e.raw.Some? ==> e.(raw := e.raw) == e;
    }
  }

  ghost function RecsOf(store: Store, order: seq<QueryKey>): seq<Rec>
    requires forall i :: 0 <= i < |order| ==> order[i] in store
  {
    seq(|order|, i requires 0 <= i < |order| => Rec(order[i], store[order[i]]))
  }

  lemma RecsOfSnoc(store: Store, order: seq<QueryKey>, i: nat)
    requires i < |order| && forall k :: 0 <= k < |order| ==> order[k] in store
    ensures RecsOf(store, order[..i + 1]) == RecsOf(store, order[..i]) + [Rec(order[i], store[order[i]])]
  {
  }

  lemma {:induction false} FileSnoc(rs: seq<Rec>, r: Rec, framed: bool)
    requires RecsOk(rs) && RecOk(r)
    ensures RecsOk(rs + [r]) && FileBytes(rs + [r], framed) == FileBytes(rs, framed) + RecBytes(r, framed)
  {
    hide RecBytes;
    if rs == [] {
      assert rs + [r] == [r] && [r][1..] == [];
    } else {
      FileSnoc(rs[1..], r, framed);
      assert (rs + [r])[1..] == rs[1..] + [r];
      assert (rs + [r])[0] == rs[0];
      var head, tail, last := RecBytes(rs[0], framed), FileBytes(rs[1..], framed), RecBytes(r, framed);
      assert head + (tail + last) == (head + tail) + last;
    }
  }

  // ------------------------------------------------------------------ a restart is invisible

  /** How old an entry must be for the load filter to drop it. */
  function Threshold(cfg: Config, e: Entry, grace: nat): nat {
    Add64(Add64(e.ttl, cfg.stale), grace)
  }

  /** From time t on the entry is refused by every lookup. */
  ghost predicate Dead(cfg: Config, e: Entry, t: nat) {
    !IsFresh(e, t) && (cfg.fakeIpProtection || !StaleAllowed(cfg, e, t))
  }

  /** TTL, stale time and grace together fit a 64-bit word, so that no sum wraps. */
  ghost predicate Fits(cfg: Config, e: Entry, grace: nat) {
    e.ttl + cfg.stale + grace < U64
  }

  /** Two entries that every lookup answers alike: only behind a full header the message is not looked at. */
  ghost predicate Alike(e: Entry, e': Entry) {
    && e'.raw == e.raw && e'.timestamp == e.timestamp && e'.ttl == e.ttl
    && ((e.raw.Some? && |e.raw.value| >= 12) || e'.message == e.message)
  }

  /** b is a with some entries missing, all of them dead from time t on, and the others alike. */
  ghost predicate Indistinct(cfg: Config, t: nat, a: Store, b: Store) {
    && (forall k :: k in b ==> k in a && Alike(a[k], b[k]))
    && (forall k :: k in a && k !in b ==> Dead(cfg, a[k], t))
  }

  datatype Action = Ask(key: QueryKey, now: nat, id: nat) | Put(key: QueryKey, entry: Entry)

  ghost predicate ActionOk(a: Action, since: nat) {
    a.Ask? ==> a.now >= since && a.id < U16
  }

  /** The replies to a run of lookups and refreshes. */
  ghost function Replies(cfg: Config, store: Store, actions: seq<Action>, since: nat): seq<Reply>
    requires forall i :: 0 <= i < |actions| ==> ActionOk(actions[i], since)
    decreases |actions|
  {
    if actions == [] then []
    else
      assert ActionOk(actions[0], since);
      match actions[0]
      case Ask(key, now, id) =>
        var (store', reply) := Lookup(cfg, store, key, now, id);
        [reply] + Replies(cfg, store', actions[1..], since)
      case Put(key, entry) => Replies(cfg, store[key := entry], actions[1..], since)
  }

  lemma LookupCannotTell(cfg: Config, t: nat, a: Store, b: Store, key: QueryKey, now: nat, id: nat)
    requires Indistinct(cfg, t, a, b) && now >= t && id < U16
    ensures var (a', ra) := Lookup(cfg, a, key, now, id);
            var (b', rb) := Lookup(cfg, b, key, now, id);
            ra == rb && Indistinct(cfg, t, a', b')
  {
  }

  lemma {:induction false} RunsCannotTell(cfg: Config, t: nat, a: Store, b: Store, actions: seq<Action>)
    requires Indistinct(cfg, t, a, b) && forall i :: 0 <= i < |actions| ==> ActionOk(actions[i], t)
    ensures Replies(cfg, a, actions, t) == Replies(cfg, b, actions, t)
    decreases |actions|
  {
    if actions == [] {
    } else {
      assert ActionOk(actions[0], t);
      match actions[0]
      case Ask(key, now, id) =>
        LookupCannotTell(cfg, t, a, b, key, now, id);
        RunsCannotTell(cfg, t, Lookup(cfg, a, key, now, id).0, Lookup(cfg, b, key, now, id).0, actions[1..]);
      case Put(key, entry) =>
        RunsCannotTell(cfg, t, a[key := entry], b[key := entry], actions[1..]);
    }
  }

  /** order lists the keys of the store once each. */
  ghost predicate Lists(order: seq<QueryKey>, store: Store) {
    && (forall i :: 0 <= i < |order| ==> order[i] in store)
    && (forall k :: k in store ==> k in order)
    && (forall i, j :: 0 <= i < j < |order| ==> order[i] != order[j])
  }

  /** loaded holds exactly the entries of the listed keys that the filter lets through. */
  ghost predicate HoldsTheAdmitted(cfg: Config, store: Store, keys: seq<QueryKey>, loaded: Store, now: nat, grace: nat)
    requires forall i :: 0 <= i < |keys| ==> keys[i] in store
  {
    && (forall k :: k in loaded <==> k in keys && Elapsed(store[k], now) < Threshold(cfg, store[k], grace))
    && (forall k :: k in loaded ==> loaded[k] == store[k])
  }

  lemma {:induction false} LoadedHoldsTheAdmitted(cfg: Config, store: Store, order: seq<QueryKey>, n: nat,
                                                  now: nat, grace: nat)
    requires Lists(order, store) && n <= |order|
    ensures HoldsTheAdmitted(cfg, store, order[..n],
                             Loaded(map[], RecsOf(store, order[..n]), now, cfg.stale, grace), now, grace)
  {
    assert forall i :: 0 <= i < |order| ==> order[i] in store;
    hide *;
    if n == 0 {
      EmptyLoaded(cfg, store, order, now, grace);
    } else {
      var k := order[n - 1];
      var before := Loaded(map[], RecsOf(store, order[..n - 1]), now, cfg.stale, grace);
      NthIsNew(store, order, n);
      LoadedHoldsTheAdmitted(cfg, store, order, n - 1, now, grace);
      RecsOfSnoc(store, order, n - 1);
      LoadedSnoc(map[], RecsOf(store, order[..n - 1]), Rec(k, store[k]), now, cfg.stale, grace);
      AdmitHolds(cfg, store, order[..n - 1], before, k, now, grace);
    }
  }

  lemma EmptyLoaded(cfg: Config, store: Store, order: seq<QueryKey>, now: nat, grace: nat)
    requires forall i :: 0 <= i < |order| ==> order[i] in store
    ensures HoldsTheAdmitted(cfg, store, order[..0],
                             Loaded(map[], RecsOf(store, order[..0]), now, cfg.stale, grace), now, grace)
  {
    assert order[..0] == [];
    assert RecsOf(store, []) == [];
  }

  lemma NthIsNew(store: Store, order: seq<QueryKey>, n: nat)
    requires Lists(order, store) && 0 < n <= |order|
    ensures order[..n] == order[..n - 1] + [order[n - 1]] && order[n - 1] !in order[..n - 1]
  {
  }

  lemma AdmitHolds(cfg: Config, store: Store, keys: seq<QueryKey>, before: Store, k: QueryKey, now: nat, grace: nat)
    requires (forall i :: 0 <= i < |keys| ==> keys[i] in store) && k in store && k !in keys
    requires HoldsTheAdmitted(cfg, store, keys, before, now, grace)
    ensures HoldsTheAdmitted(cfg, store, keys + [k], Admit(before, Rec(k, store[k]), now, cfg.stale, grace), now, grace)
  {
    var after := Admit(before, Rec(k, store[k]), now, cfg.stale, grace);
    assert Elapsed(store[k], now) < Threshold(cfg, store[k], grace) ==> after == before[k := store[k]];
    assert Elapsed(store[k], now) >= Threshold(cfg, store[k], grace) ==> after == before;
    hide Admit, Elapsed, Threshold;
    assert forall x :: x in keys + [k] <==> x in keys || x == k;
  }

  /** The cache saved in one of the two formats and loaded into an empty one. */
  ghost function Reloaded(c: Codec, cfg: Config, store: Store, order: seq<QueryKey>, framed: bool, now: nat): Store
    requires Lists(order, store) && RecsOk(RecsOf(store, order))
  {
    var file := FileBytes(RecsOf(store, order), framed);
    if framed then Loaded(map[], ReadFramed(c, file), now, cfg.stale, GRACE)
    else Loaded(map[], ReadDump(c, file), now, cfg.stale, 0)
  }

  /** No run of lookups, from the time of the load on, and refreshes tells the two caches apart. */
  ghost predicate Invisible(cfg: Config, before: Store, after: Store, now: nat) {
    forall actions: seq<Action> :: AllOk(actions, now) ==> SameReplies(cfg, before, after, actions, now)
  }

  ghost predicate AllOk(actions: seq<Action>, now: nat) {
    forall i :: 0 <= i < |actions| ==> ActionOk(actions[i], now)
  }

  ghost predicate SameReplies(cfg: Config, before: Store, after: Store, actions: seq<Action>, now: nat)
    requires AllOk(actions, now)
  {
    Replies(cfg, before, actions, now) == Replies(cfg, after, actions, now)
  }

  /** Every entry of the store can be read back; one whose bytes are no full header, as it is. */
  ghost predicate Faithful(c: Codec, store: Store) {
    forall k :: k in store ==>
      && Readable(c, Rec(k, store[k]))
      && (|store[k].raw.value| >= 12 || c.parse(store[k].raw.value) == Some(store[k].message))
  }

  ghost function ReparsedStore(c: Codec, store: Store): Store
    requires Faithful(c, store)
  {
    map k | k in store :: store[k].(message := c.parse(store[k].raw.value).value)
  }

  lemma StoreRoundTrip(c: Codec, store: Store, order: seq<QueryKey>)
    requires Lists(order, store) && Faithful(c, store)
    ensures Lists(order, ReparsedStore(c, store)) && AllReadable(c, RecsOf(store, order))
    ensures Reparsed(c, RecsOf(store, order)) == RecsOf(ReparsedStore(c, store), order)
    ensures forall k :: k in store ==> Alike(store[k], ReparsedStore(c, store)[k])
  {
    var rs := RecsOf(store, order);
    forall i | 0 <= i < |rs| ensures Readable(c, rs[i]) {
      assert rs[i] == Rec(order[i], store[order[i]]);
    }
    forall k | k in store ensures Alike(store[k], ReparsedStore(c, store)[k]) {
      assert Readable(c, Rec(k, store[k]));
    }
  }

  ghost function Grace(framed: bool): nat {
    if framed then GRACE else 0
  }

  lemma ReloadedHolds(c: Codec, cfg: Config, store: Store, order: seq<QueryKey>, framed: bool, now: nat)
    requires Lists(order, store) && Faithful(c, store)
    ensures RecsOk(RecsOf(store, order)) && Lists(order, ReparsedStore(c, store))
    ensures HoldsTheAdmitted(cfg, ReparsedStore(c, store), order, Reloaded(c, cfg, store, order, framed, now), now,
                             Grace(framed))
  {
    StoreRoundTrip(c, store, order);
    FilesRoundTrip(c, RecsOf(store, order));
    assert order[..|order|] == order;
    LoadedHoldsTheAdmitted(cfg, ReparsedStore(c, store), order, |order|, now, Grace(framed));
  }

  lemma DroppedAreDead(c: Codec, cfg: Config, store: Store, order: seq<QueryKey>, after: Store, now: nat, grace: nat)
    requires Lists(order, store) && Faithful(c, store) && Lists(order, ReparsedStore(c, store))
    requires HoldsTheAdmitted(cfg, ReparsedStore(c, store), order, after, now, grace)
    requires forall k :: k in store ==> Fits(cfg, store[k], grace)
    ensures Indistinct(cfg, now, store, after)
  {
    var again := ReparsedStore(c, store);
    StoreRoundTrip(c, store, order);
    hide ReparsedStore, Faithful, Lists, RecsOf;
    assert forall k :: k in again <==> k in store;
    forall k | k in store && k !in after ensures Dead(cfg, store[k], now) {
      assert k in order && Alike(store[k], again[k]);
      FilterWaits(cfg, store[k], again[k], now, grace);
    }
  }

  lemma FilterWaits(cfg: Config, e: Entry, e': Entry, now: nat, grace: nat)
    requires Alike(e, e') && Fits(cfg, e, grace) && Elapsed(e', now) >= Threshold(cfg, e', grace)
    ensures Dead(cfg, e, now)
  {
  }

  lemma SameRun(cfg: Config, before: Store, after: Store, actions: seq<Action>, now: nat)
    requires Indistinct(cfg, now, before, after) && AllOk(actions, now)
    ensures SameReplies(cfg, before, after, actions, now)
  {
    RunsCannotTell(cfg, now, before, after, actions);
  }

  /** Whenever no sum wraps, saving the cache and loading it into an empty one is invisible. */
  lemma NoWrapNoDifference(c: Codec, cfg: Config, store: Store, order: seq<QueryKey>, framed: bool, now: nat)
    requires Lists(order, store) && Faithful(c, store)
    requires forall k :: k in store ==> Fits(cfg, store[k], Grace(framed))
    ensures RecsOk(RecsOf(store, order))
    ensures Invisible(cfg, store, Reloaded(c, cfg, store, order, framed, now), now)
  {
    ReloadedHolds(c, cfg, store, order, framed, now);
    var after := Reloaded(c, cfg, store, order, framed, now);
    DroppedAreDead(c, cfg, store, order, after, now, Grace(framed));
    hide Reloaded, RecsOf, Faithful, RecsOk, HoldsTheAdmitted, Lists, AllOk, SameReplies, Indistinct;
    forall actions: seq<Action> | AllOk(actions, now)
      ensures SameReplies(cfg, store, after, actions, now)
    {
      SameRun(cfg, store, after, actions, now);
    }
  }

  /** An entry whose sum wraps is lost by a load at a time at which a lookup would serve it fresh. */
  lemma WrapShows(c: Codec, cfg: Config, store: Store, order: seq<QueryKey>, framed: bool, key: QueryKey)
      returns (now: nat)
    requires Lists(order, store) && Faithful(c, store) && key in store && !Fits(cfg, store[key], Grace(framed))
    ensures RecsOk(RecsOf(store, order))
    ensures now == store[key].timestamp + store[key].ttl + cfg.stale + Grace(framed) - U64
    ensures !Invisible(cfg, store, Reloaded(c, cfg, store, order, framed, now), now)
  {
    var e := store[key];
    assert Readable(c, Rec(key, e));
    var age := e.ttl + cfg.stale + Grace(framed) - U64;
    assert Threshold(cfg, e, Grace(framed)) == age < e.ttl;
    now := e.timestamp + age;
    ReloadedHolds(c, cfg, store, order, framed, now);
    var after := Reloaded(c, cfg, store, order, framed, now);
    var again := ReparsedStore(c, store);
    assert again[key].timestamp == e.timestamp && again[key].ttl == e.ttl;
    hide Reloaded, RecsOf, Faithful, RecsOk, ReparsedStore;
    assert key !in after;
    OneLookupShows(cfg, store, after, key, now);
  }

  lemma OneLookupShows(cfg: Config, store: Store, after: Store, key: QueryKey, now: nat)
    requires key in store && IsFresh(store[key], now) && key !in after
    ensures !Invisible(cfg, store, after, now)
  {
    var actions := [Ask(key, now, 0)];
    assert AllOk(actions, now);
    assert actions[1..] == [];
    assert Replies(cfg, after, actions, now)[0] == Miss;
    assert Replies(cfg, store, actions, now)[0] != Miss;
    assert !SameReplies(cfg, store, after, actions, now);
  }

  /**
   * A restart is invisible, in both formats: loaded at whatever time into an empty cache, the
   * saved one gives every later run of lookups and refreshes the replies the original would
   * have given. This holds exactly when for no entry TTL, stale time and grace wrap together.
   */
  lemma RestartIsInvisible(c: Codec, cfg: Config, store: Store, order: seq<QueryKey>, framed: bool)
    requires Lists(order, store) && Faithful(c, store)
    ensures RecsOk(RecsOf(store, order))
    ensures (forall now: nat :: Invisible(cfg, store, Reloaded(c, cfg, store, order, framed, now), now))
            <==> (forall k :: k in store ==> Fits(cfg, store[k], Grace(framed)))
  {
    ReloadedHolds(c, cfg, store, order, framed, 0);
    hide Reloaded, RecsOf, Faithful, RecsOk, HoldsTheAdmitted, Lists, Invisible, Fits;
    if forall k :: k in store ==> Fits(cfg, store[k], Grace(framed)) {
      forall now: nat ensures Invisible(cfg, store, Reloaded(c, cfg, store, order, framed, now), now) {
        NoWrapNoDifference(c, cfg, store, order, framed, now);
      }
    } else {
      var k :| k in store && !Fits(cfg, store[k], Grace(framed));
      var now := WrapShows(c, cfg, store, order, framed, k);
    }
  }

  /**
   * A reply without answers takes the configured maximum TTL. With the largest one, an entry
   * saved by save_to_disk and loaded an hour later is gone although it is fresh.
   */
  lemma LargestTtlIsForgotten(c: Codec, message: Msg, raw: Bytes, key: QueryKey)
    requires KeyOk(key) && key.subnet == None && c.parse(raw) == Some(message) && |raw| + 20 < U32
    ensures var cfg := Config(0, false);
            var store := map[key := Entry(Some(raw), message, 0, U64 - 1)];
            && Lists([key], store) && RecsOk(RecsOf(store, [key]))
            && !Invisible(cfg, store, Reloaded(c, cfg, store, [key], true, 3599), 3599)
  {
    var cfg := Config(0, false);
    var store := map[key := Entry(Some(raw), message, 0, U64 - 1)];
    assert Readable(c, Rec(key, store[key]));
    assert Lists([key], store) && Faithful(c, store);
    hide Lists, Faithful, RecsOf, RecsOk, Reloaded, Invisible;
    var now := WrapShows(c, cfg, store, [key], true, key);
  }
}
