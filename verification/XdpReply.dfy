/**
 * Answering from the kernel (bpf/titan_filter.c): the hit test, the chunked copy of the cached
 * body, the rewrite of the packet in place and the IP checksum, against the entry that
 * src/bpf.rs writes and the message that src/core/zerocopy.rs would send.
 *
 * A packet is Ethernet (14 bytes), IPv4 (20), UDP (8), DNS. Sixteen-bit words are loaded in the
 * host's order, which is little-endian here; the checksum's result does not depend on it.
 */
module XdpReply {
  import opened Basics
  import opened WireNames

  const ETH: nat := 14
  const DNS: nat := 42
  const CHUNK: nat := 32
  const CHUNKS: nat := 24
  const MAX_RESPONSE: nat := 768

  // -------------------------------------------------------------------------- the IP checksum

  /** The sum of the words at even offsets; `big` gives the first byte the high place. */
  function WordSum(header: Bytes, big: bool): nat
    requires |header| % 2 == 0
  {
    if header == [] then 0
    else
      var a, b := header[0] as nat, header[1] as nat;
      (if big then 256 * a + b else a + 256 * b) + WordSum(header[2..], big)
  }

  ghost function Word(high: nat, low: nat): nat {
    256 * high + low
  }

  /** The sum of the ten words of an IP header. */
  lemma HeaderSum(h: Bytes)
    requires |h| == 20
    ensures WordSum(h, true) ==
              Word(h[0], h[1]) + Word(h[2], h[3]) + Word(h[4], h[5]) + Word(h[6], h[7]) + Word(h[8], h[9])
              + Word(h[10], h[11]) + Word(h[12], h[13]) + Word(h[14], h[15]) + Word(h[16], h[17]) + Word(h[18], h[19])
    ensures WordSum(h, false) ==
              Word(h[1], h[0]) + Word(h[3], h[2]) + Word(h[5], h[4]) + Word(h[7], h[6]) + Word(h[9], h[8])
              + Word(h[11], h[10]) + Word(h[13], h[12]) + Word(h[15], h[14]) + Word(h[17], h[16]) + Word(h[19], h[18])
  {
    hide WordSum, Word;
    FiveWords(h, 0);
    FiveWords(h, 10);
    SumOfNothing(h);
    assert h[0..] == h;
  }

  lemma FiveWords(h: Bytes, i: nat)
    requires |h| == 20 && i % 2 == 0 && i <= 10
    ensures WordSum(h[i..], true) ==
              Word(h[i], h[i + 1]) + Word(h[i + 2], h[i + 3]) + Word(h[i + 4], h[i + 5]) + Word(h[i + 6], h[i + 7])
              + Word(h[i + 8], h[i + 9]) + WordSum(h[i + 10..], true)
    ensures WordSum(h[i..], false) ==
              Word(h[i + 1], h[i]) + Word(h[i + 3], h[i + 2]) + Word(h[i + 5], h[i + 4]) + Word(h[i + 7], h[i + 6])
              + Word(h[i + 9], h[i + 8]) + WordSum(h[i + 10..], false)
  {
    hide WordSum, Word;
    SumUnrolls(h, i);
    SumUnrolls(h, i + 2);
    SumUnrolls(h, i + 4);
    SumUnrolls(h, i + 6);
    SumUnrolls(h, i + 8);
  }

  lemma SumUnrolls(h: Bytes, i: nat)
    requires |h| == 20 && i % 2 == 0 && i < 20
    ensures WordSum(h[i..], true) == Word(h[i], h[i + 1]) + WordSum(h[i + 2..], true)
    ensures WordSum(h[i..], false) == Word(h[i + 1], h[i]) + WordSum(h[i + 2..], false)
  {
    assert h[i..][2..] == h[i + 2..];
  }

  lemma SumOfNothing(h: Bytes)
    requires |h| == 20
    ensures WordSum(h[20..], true) == 0 && WordSum(h[20..], false) == 0
  {
  }

  /** End-around carry, repeated. */
  function Fold(sum: nat): (r: nat)
    ensures r < U16
  {
    if sum < U16 then sum else Fold(sum % U16 + sum / U16)
  }

  /** Section 3.1 of RFC 791: the one's complement sum of the header's words is all ones. */
  predicate ChecksumOk(header: Bytes, big: bool)
    requires |header| == 20
  {
    Fold(WordSum(header, big)) == 0xFFFF
  }

  /** Folding keeps the sum modulo 65535, and only zero folds to zero. */
  lemma {:induction false} FoldKeeps(sum: nat)
    ensures Fold(sum) % 0xFFFF == sum % 0xFFFF && (Fold(sum) == 0 <==> sum == 0)
    decreases sum
  {
    if sum >= U16 {
      var high, low := sum / U16, sum % U16;
      assert sum == low + high + 0xFFFF * high;
      FoldKeeps(low + high);
      ModPlus(low + high, high);
    }
  }

  lemma ModPlus(a: nat, k: nat)
    ensures (a + 0xFFFF * k) % 0xFFFF == a % 0xFFFF
  {
  }

  /** A sum folds to all ones exactly when it is a positive multiple of 65535. */
  lemma FoldsToOnes(sum: nat)
    ensures Fold(sum) == 0xFFFF <==> sum > 0 && sum % 0xFFFF == 0
  {
    FoldKeeps(sum);
  }

  /** The two byte orders' sums are multiples of 65535 together. */
  lemma {:induction false} ByteOrder(header: Bytes)
    requires |header| % 2 == 0
    ensures (WordSum(header, true) == 0 <==> WordSum(header, false) == 0)
    ensures exists k: int :: SwappedBy(WordSum(header, true), WordSum(header, false), k)
    decreases |header|
  {
    if header == [] {
      assert SwappedBy(0, 0, 0);
    } else {
      ByteOrder(header[2..]);
      var k: int :| SwappedBy(WordSum(header[2..], true), WordSum(header[2..], false), k);
      assert SwappedBy(WordSum(header, true), WordSum(header, false), k + header[1]);
    }
  }

  ghost predicate SwappedBy(big: nat, little: nat, k: int) {
    256 * little == big + 0xFFFF * k
  }

  lemma Multiple(m: int)
    ensures 0xFFFF * m % 0xFFFF == 0
  {
  }

  lemma {:induction false} BothOrders(header: Bytes)
    requires |header| == 20 && ChecksumOk(header, false)
    ensures ChecksumOk(header, true)
  {
    var big, little := WordSum(header, true), WordSum(header, false);
    hide WordSum, Fold;
    ByteOrder(header);
    FoldsToOnes(little);
    FoldsToOnes(big);
    var k: int :| SwappedBy(big, little, k);
    assert little == 0xFFFF * (little / 0xFFFF);
    Multiple(256 * (little / 0xFFFF) - k);
  }

  /** Replaces the two bytes at 10 of the header. */
  function WithCheck(header: Bytes, check: nat): (r: Bytes)
    requires |header| == 20 && check < U16
    ensures |r| == 20
  {
    header[..10] + [check % 256, check / 256] + header[12..]
  }

  lemma {:induction false} WordSumConcat(a: Bytes, b: Bytes, big: bool)
    requires |a| % 2 == 0 && |b| % 2 == 0
    ensures |a + b| % 2 == 0 && WordSum(a + b, big) == WordSum(a, big) + WordSum(b, big)
    decreases |a|
  {
    if a == [] {
      assert a + b == b;
    } else {
      assert (a + b)[2..] == a[2..] + b;
      WordSumConcat(a[2..], b, big);
    }
  }

  lemma CheckAdds(header: Bytes, check: nat)
    requires |header| == 20 && check < U16
    ensures WordSum(WithCheck(header, check), false) == WordSum(WithCheck(header, 0), false) + check
  {
    var front, back := header[..10], header[12..];
    var word: Bytes := [check % 256, check / 256];
    var zero: Bytes := [0, 0];
    WordSumConcat(front + word, back, false);
    WordSumConcat(front, word, false);
    WordSumConcat(front + zero, back, false);
    WordSumConcat(front, zero, false);
    assert word[2..] == [] && zero[2..] == [];
  }

  /** The complement of the folded sum of the header with a zero checksum is a right checksum. */
  lemma ComplementIsRight(header: Bytes)
    requires |header| == 20
    ensures var check := 0xFFFF - Fold(WordSum(WithCheck(header, 0), false));
            ChecksumOk(WithCheck(header, check), false) && ChecksumOk(WithCheck(header, check), true)
  {
    var sum := WordSum(WithCheck(header, 0), false);
    var check: nat := 0xFFFF - Fold(sum);
    CheckAdds(header, check);
    hide Fold, WordSum, WithCheck;
    FoldKeeps(sum);
    Complement(sum, Fold(sum));
    FoldsToOnes(sum + check);
    BothOrders(WithCheck(header, check));
  }

  lemma Complement(sum: nat, folded: nat)
    requires folded < U16 && folded % 0xFFFF == sum % 0xFFFF && (folded == 0 <==> sum == 0)
    ensures sum + (0xFFFF - folded) > 0 && (sum + (0xFFFF - folded)) % 0xFFFF == 0
  {
    assert sum == 0xFFFF * (sum / 0xFFFF) + sum % 0xFFFF;
    ModPlus(sum % 0xFFFF + 0xFFFF - folded, sum / 0xFFFF);
  }

  /** The kernel's loops; the 32-bit sum cannot overflow and the folding loop ends. */
  method CalcIpCsum(header: Bytes) returns (check: nat)
    requires |header| == 20
    ensures check < U16 && check == 0xFFFF - Fold(WordSum(header, false))
  {
    var csum: nat := 0;
    for i := 0 to 10
      invariant csum == WordSum(header[..2 * i], false) && csum <= 0xFFFF * i
    {
      var word: Bytes := header[2 * i..2 * i + 2];
      assert header[..2 * (i + 1)] == header[..2 * i] + word;
      WordSumConcat(header[..2 * i], word, false);
      assert word[2..] == [];
      csum := csum + header[2 * i] as nat + 256 * (header[2 * i + 1] as nat);
    }
    assert header[..20] == header;
    assert csum < U32;
    while csum / U16 > 0
      invariant Fold(csum) == Fold(WordSum(header, false))
      decreases csum
    {
      csum := csum % U16 + csum / U16;
    }
    check := 0xFFFF - csum;
  }

  // ------------------------------------------------------------------------------ cache entries

  datatype CacheEntry = CacheEntry(len: nat, rcode: nat, expire: nat, response: Bytes)

  predicate EntryOk(e: CacheEntry) {
    e.len < U16 && |e.response| == MAX_RESPONSE
  }

  /** A minute past the TTL in nanoseconds, in 64-bit words that wrap. */
  function Expiry(now: nat, ttl: nat): nat {
    (now + (ttl + 60) % U64 * 1_000_000_000 % U64) % U64
  }

  /** What update_cache stores: at most 768 bytes of the response and its RCODE. */
  method UpdateCache(response: Bytes, now: nat, ttl: nat) returns (entry: CacheEntry)
    ensures EntryOk(entry) && entry.len == Min(|response|, MAX_RESPONSE)
    ensures entry.response[..entry.len] == response[..entry.len]
    ensures entry.rcode == if |response| >= 4 then (response[3] % 16) as nat else 0
    ensures entry.expire == Expiry(now, ttl) == (now + (ttl + 60) % U64 * 1_000_000_000 % U64) % U64
    ensures now + (ttl + 60) * 1_000_000_000 < U64 ==> entry.expire == now + (ttl + 60) * 1_000_000_000
  {
    var copyLen := Min(|response|, MAX_RESPONSE);
    var body := response[..copyLen] + seq(MAX_RESPONSE - copyLen, _ => 0);
    entry := CacheEntry(copyLen, 0, Expiry(now, ttl), body);
    if |response| >= 4 {
      entry := entry.(rcode := (response[3] % 16) as nat);
    }
  }

  /** The kernel answers from the entry. */
  predicate Servable(e: CacheEntry, now: nat) {
    now <= e.expire && e.rcode == 0 && 0 < e.len <= MAX_RESPONSE
  }

  // ------------------------------------------------------------------------------- the rewrite

  function SwapAddresses(ip: Bytes): (r: Bytes)
    requires |ip| == 20
    ensures |r| == 20
  {
    ip[..12] + ip[16..20] + ip[12..16]
  }

  /** The reply's IP header before its checksum: addresses swapped, length of the reply. */
  function ReplyIp(ip: Bytes, bodyLen: nat): (r: Bytes)
    requires |ip| == 20 && 28 + bodyLen < U16
    ensures |r| == 20
  {
    var swapped := SwapAddresses(ip);
    WithCheck(swapped[..2] + Be16(28 + bodyLen) + swapped[4..], 0)
  }

  function ReplyUdp(udp: Bytes, bodyLen: nat): (r: Bytes)
    requires |udp| == 8 && 8 + bodyLen < U16
    ensures |r| == 8
  {
    udp[2..4] + udp[..2] + Be16(8 + bodyLen) + [0, 0]
  }

  function ReplyEth(eth: Bytes): (r: Bytes)
    requires |eth| == ETH
    ensures |r| == ETH
  {
    eth[6..12] + eth[..6] + eth[12..14]
  }

  /** The whole answer to a query packet: every header turned round, then the body under the query's ID. */
  function Reply(query: Bytes, body: Bytes): (r: Bytes)
    requires DNS + 2 <= |query| && |body| <= MAX_RESPONSE
    ensures |r| == DNS + |body|
  {
    var ip := ReplyIp(query[14..34], |body|);
    ReplyEth(query[..14]) + WithCheck(ip, 0xFFFF - Fold(WordSum(ip, false)))
      + ReplyUdp(query[34..42], |body|) + UnderId(body, query[42..44])
  }

  lemma SizedHeader(ip: Bytes, len: nat)
    requires |ip| == 20 && 28 + len < U16
    ensures var swapped := WithCheck(SwapAddresses(ip), 0);
            WithCheck(swapped[..2] + Be16(28 + len) + swapped[4..], 0) == ReplyIp(ip, len)
  {
    var end: Bytes := [0, 0] + ip[16..20] + ip[12..16];
    var swapped := WithCheck(SwapAddresses(ip), 0);
    assert swapped == ip[..10] + end;
    assert WithCheck(swapped[..2] + Be16(28 + len) + swapped[4..], 0) == ip[..2] + Be16(28 + len) + ip[4..10] + end;
    assert ReplyIp(ip, len) == ip[..2] + Be16(28 + len) + ip[4..10] + end;
  }

  lemma SizedUdp(udp: Bytes, len: nat)
    requires |udp| == 8 && 8 + len < U16
    ensures var swapped := udp[2..4] + udp[..2] + udp[4..6] + [0, 0];
            swapped[..4] + Be16(8 + len) + swapped[6..] == ReplyUdp(udp, len)
  {
  }

  lemma ReplyIpParts(ip: Bytes, bodyLen: nat, check: nat)
    requires |ip| == 20 && 28 + bodyLen < U16 && check < U16
    ensures var r := WithCheck(ReplyIp(ip, bodyLen), check);
            && r[..2] == ip[..2] && r[2..4] == Be16(28 + bodyLen) && r[4..10] == ip[4..10]
            && r[12..16] == ip[16..20] && r[16..20] == ip[12..16]
  {
    var front: Bytes := ip[..2] + Be16(28 + bodyLen) + ip[4..10];
    var back: Bytes := ip[16..20] + ip[12..16];
    assert ReplyIp(ip, bodyLen) == front + [0, 0] + back;
    assert WithCheck(ReplyIp(ip, bodyLen), check) == front + [check % 256, check / 256] + back;
  }

  lemma ReplyParts(query: Bytes, body: Bytes)
    requires DNS + 2 <= |query| && |body| <= MAX_RESPONSE
    ensures var r := Reply(query, body);
            var ip := ReplyIp(query[14..34], |body|);
            && r[..14] == ReplyEth(query[..14])
            && r[14..34] == WithCheck(ip, 0xFFFF - Fold(WordSum(ip, false)))
            && r[34..42] == ReplyUdp(query[34..42], |body|)
            && r[42..] == UnderId(body, query[42..44])
  {
    hide Fold, WordSum, WithCheck, ReplyEth, ReplyUdp, ReplyIp, UnderId;
  }

  lemma Resliced(r: Bytes, lo: nat, hi: nat, from: nat, to: nat)
    requires lo <= hi <= |r| && from <= to <= hi - lo
    ensures r[lo..hi][from..to] == r[lo + from..lo + to]
  {
    assert forall i :: 0 <= i < to - from ==> r[lo..hi][from..to][i] == r[lo + from + i];
  }

  /** What the parts of a reply say: right checksum and lengths, and the ends of the query exchanged. */
  lemma ReplyIsWellFormed(query: Bytes, body: Bytes)
    requires DNS + 2 <= |query| && |body| <= MAX_RESPONSE
    ensures var r := Reply(query, body);
            && ChecksumOk(r[14..34], false) && ChecksumOk(r[14..34], true)
            && UnBe16(r[16..18]) == |r| - 14 && UnBe16(r[38..40]) == |r| - 34
            && r[..6] == query[6..12] && r[6..12] == query[..6] && r[12..14] == query[12..14]
            && r[26..30] == query[30..34] && r[30..34] == query[26..30]
            && r[34..36] == query[36..38] && r[36..38] == query[34..36]
            && r[14..16] == query[14..16] && r[18..24] == query[18..24]
            && r[42..] == UnderId(body, query[42..44])
  {
    hide *;
    ReplyIpFields(query, body);
    ReplyEnds(query, body);
    ReplyParts(query, body);
  }

  lemma ReplyIpFields(query: Bytes, body: Bytes)
    requires DNS + 2 <= |query| && |body| <= MAX_RESPONSE
    ensures var r := Reply(query, body);
            && ChecksumOk(r[14..34], false) && ChecksumOk(r[14..34], true)
            && UnBe16(r[16..18]) == |r| - 14
            && r[26..30] == query[30..34] && r[30..34] == query[26..30]
            && r[14..16] == query[14..16] && r[18..24] == query[18..24]
  {
    var ip := ReplyIp(query[14..34], |body|);
    var check: nat := 0xFFFF - Fold(WordSum(ip, false));
    var r := Reply(query, body);
    ReplyParts(query, body);
    assert WithCheck(ip, 0) == ip;
    ComplementIsRight(ip);
    ReplyIpParts(query[14..34], |body|, check);
    hide *;
    Resliced(r, 14, 34, 0, 2);
    Resliced(r, 14, 34, 2, 4);
    Resliced(r, 14, 34, 4, 10);
    Resliced(r, 14, 34, 12, 16);
    Resliced(r, 14, 34, 16, 20);
    Resliced(query, 14, 34, 0, 2);
    Resliced(query, 14, 34, 4, 10);
    Resliced(query, 14, 34, 12, 16);
    Resliced(query, 14, 34, 16, 20);
    ReadBack(28 + |body|);
  }

  lemma ReplyEnds(query: Bytes, body: Bytes)
    requires DNS + 2 <= |query| && |body| <= MAX_RESPONSE
    ensures var r := Reply(query, body);
            && UnBe16(r[38..40]) == |r| - 34
            && r[..6] == query[6..12] && r[6..12] == query[..6] && r[12..14] == query[12..14]
            && r[34..36] == query[36..38] && r[36..38] == query[34..36]
  {
    var r := Reply(query, body);
    ReplyParts(query, body);
    var eth, udp := ReplyEth(query[..14]), ReplyUdp(query[34..42], |body|);
    Resliced(query, 0, 14, 6, 12);
    Resliced(query, 0, 14, 0, 6);
    Resliced(query, 0, 14, 12, 14);
    assert eth[..6] == query[6..12] && eth[6..12] == query[..6] && eth[12..14] == query[12..14];
    Resliced(query, 34, 42, 0, 2);
    Resliced(query, 34, 42, 2, 4);
    assert udp[..2] == query[36..38] && udp[2..4] == query[34..36] && udp[4..6] == Be16(8 + |body|);
    hide *;
    Resliced(r, 0, 14, 0, 6);
    Resliced(r, 0, 14, 6, 12);
    Resliced(r, 0, 14, 12, 14);
    Resliced(r, 34, 42, 0, 2);
    Resliced(r, 34, 42, 2, 4);
    Resliced(r, 34, 42, 4, 6);
    ReadBack(8 + |body|);
  }

  /** The UDP checksum is off, and the body follows under the query's ID. */
  lemma ReplyBody(query: Bytes, body: Bytes)
    requires DNS + 2 <= |query| && 2 <= |body| <= MAX_RESPONSE
    ensures var r := Reply(query, body);
            |r| == DNS + |body| && r[40..42] == [0, 0] && r[42..44] == query[42..44] && r[44..] == body[2..]
  {
    var r := Reply(query, body);
    ReplyParts(query, body);
    Resliced(r, 34, 42, 6, 8);
    assert ReplyUdp(query[34..42], |body|)[6..8] == [0, 0];
    var all := r[42..];
    hide Reply;
    assert r[42] == all[0] && r[43] == all[1] && r[44..] == all[2..];
  }

  lemma ReadBack(v: nat)
    requires v < U16
    ensures UnBe16(Be16(v)) == v
  {
  }

  // ---------------------------------------------------------------------------- the packet in place

  /** Stores bytes at a place and nothing else. */
  method Store(packet: array<byte>, at: nat, bytes: Bytes)
    requires at + |bytes| <= packet.Length
    modifies packet
    ensures forall k :: 0 <= k < packet.Length ==>
              packet[k] == if at <= k < at + |bytes| then bytes[k - at] else old(packet[k])
  {
    for i := 0 to |bytes|
      invariant forall k :: 0 <= k < packet.Length ==>
                  packet[k] == if at <= k < at + i then bytes[k - at] else old(packet[k])
    {
      packet[at + i] := bytes[i];
    }
  }

  /** Copies the body in chunks of 32 bytes and a tail, leaving the headers alone. */
  method CopyBody(packet: array<byte>, response: Bytes, effectiveLen: nat)
    requires effectiveLen <= MAX_RESPONSE == |response| && packet.Length == DNS + effectiveLen
    modifies packet
    ensures packet[..DNS] == old(packet[..DNS]) && packet[DNS..] == response[..effectiveLen]
  {
    var payload: nat, copied: nat, len: nat := DNS, 0, effectiveLen;
    var i := 0;
    while i < CHUNKS
      invariant i <= CHUNKS && copied == CHUNK * i && payload == DNS + copied && copied + len == effectiveLen
      invariant forall k :: 0 <= k < DNS ==> packet[k] == old(packet[k])
      invariant forall k :: DNS <= k < payload ==> packet[k] == response[k - DNS]
    {
      if CHUNK <= len {
        if payload + CHUNK <= packet.Length {
          Store(packet, payload, response[copied..copied + CHUNK]);
          payload, copied, len := payload + CHUNK, copied + CHUNK, len - CHUNK;
        } else {
          break;
        }
      } else {
        for j := 0 to CHUNK
          invariant payload == DNS + copied && copied + len == effectiveLen && len <= CHUNK - j
          invariant forall k :: 0 <= k < DNS ==> packet[k] == old(packet[k])
          invariant forall k :: DNS <= k < payload ==> packet[k] == response[k - DNS]
        {
          if len == 0 || packet.Length < payload + 1 {
            break;
          }
          packet[payload] := response[copied];
          payload, copied, len := payload + 1, copied + 1, len - 1;
        }
        break;
      }
      i := i + 1;
    }
    assert len == 0;
  }

  /** A sequence that changed only at a place is the old one with the place replaced. */
  lemma Spliced(before: Bytes, after: Bytes, at: nat, bytes: Bytes)
    requires at + |bytes| <= |before| == |after|
    requires forall k :: 0 <= k < |after| ==>
               after[k] == if at <= k < at + |bytes| then bytes[k - at] else before[k]
    ensures after == before[..at] + bytes + before[at + |bytes|..]
  {
  }

  /** Stores bytes at a place of the packet's part lo..hi. */
  method StoreIn(packet: array<byte>, lo: nat, hi: nat, at: nat, bytes: Bytes)
    requires lo <= hi <= packet.Length && at + |bytes| <= hi - lo
    modifies packet
    ensures var part := old(packet[lo..hi]); packet[lo..hi] == part[..at] + bytes + part[at + |bytes|..]
    ensures forall k :: 0 <= k < packet.Length && !(lo <= k < hi) ==> packet[k] == old(packet[k])
  {
    ghost var part := packet[lo..hi];
    Store(packet, lo + at, bytes);
    Spliced(part, packet[lo..hi], at, bytes);
  }

  method SwapEthernet(packet: array<byte>)
    requires DNS <= packet.Length
    modifies packet
    ensures packet[..14] == ReplyEth(old(packet[..14])) && packet[14..34] == old(packet[14..34])
    ensures packet[34..42] == old(packet[34..42]) && packet[42..] == old(packet[42..])
  {
    ghost var before := packet[..14];
    var source, dest := packet[6..12], packet[..6];
    assert source == before[6..12] && dest == before[..6];
    assert packet[..14] == packet[0..14];
    StoreIn(packet, 0, 14, 6, dest);
    assert packet[0..14][6..] == dest + before[12..14];
    StoreIn(packet, 0, 14, 0, source);
    assert packet[..14] == packet[0..14];
  }

  method SwapIpv4(packet: array<byte>)
    requires DNS <= packet.Length
    modifies packet
    ensures packet[14..34] == WithCheck(SwapAddresses(old(packet[14..34])), 0)
    ensures packet[..14] == old(packet[..14])
    ensures packet[34..42] == old(packet[34..42]) && packet[42..] == old(packet[42..])
  {
    ghost var before := packet[14..34];
    var source, dest := packet[26..30], packet[30..34];
    assert source == before[12..16] && dest == before[16..20] by {
      Resliced(packet[..], 14, 34, 12, 16);
      Resliced(packet[..], 14, 34, 16, 20);
    }
    StoreIn(packet, 14, 34, 12, dest);
    assert packet[14..34][..16] == before[..12] + dest;
    StoreIn(packet, 14, 34, 16, source);
    assert packet[14..34] == SwapAddresses(before);
    StoreIn(packet, 14, 34, 10, [0, 0]);
  }

  method SwapUdp(packet: array<byte>)
    requires DNS <= packet.Length
    modifies packet
    ensures var udp := old(packet[34..42]);
            packet[34..42] == udp[2..4] + udp[..2] + udp[4..6] + [0, 0]
    ensures packet[..14] == old(packet[..14]) && packet[14..34] == old(packet[14..34])
    ensures packet[42..] == old(packet[42..])
  {
    ghost var before := packet[34..42];
    var source, dest := packet[34..36], packet[36..38];
    assert source == before[..2] && dest == before[2..4] by {
      Resliced(packet[..], 34, 42, 0, 2);
      Resliced(packet[..], 34, 42, 2, 4);
    }
    StoreIn(packet, 34, 42, 0, dest);
    StoreIn(packet, 34, 42, 2, source);
    assert packet[34..42] == dest + source + before[4..];
    StoreIn(packet, 34, 42, 6, [0, 0]);
  }

  /** Sets the total length, then the checksum, of the IP header. */
  method FixIp(packet: array<byte>, len: nat)
    requires DNS <= packet.Length && 28 + len < U16
    modifies packet
    ensures var ip := old(packet[14..34]);
            var sized := WithCheck(ip[..2] + Be16(28 + len) + ip[4..], 0);
            packet[14..34] == WithCheck(sized, 0xFFFF - Fold(WordSum(sized, false)))
    ensures packet[..14] == old(packet[..14])
    ensures packet[34..42] == old(packet[34..42]) && packet[42..] == old(packet[42..])
  {
    hide Fold, WordSum;
    StoreIn(packet, 14, 34, 2, Be16(28 + len));
    StoreIn(packet, 14, 34, 10, [0, 0]);
    var check := CalcIpCsum(packet[14..34]);
    StoreIn(packet, 14, 34, 10, [check % 256, check / 256]);
  }

  method FixUdp(packet: array<byte>, len: nat)
    requires DNS <= packet.Length && 8 + len < U16
    modifies packet
    ensures var udp := old(packet[34..42]);
            packet[34..42] == udp[..4] + Be16(8 + len) + udp[6..]
    ensures packet[..14] == old(packet[..14]) && packet[14..34] == old(packet[14..34])
    ensures packet[42..] == old(packet[42..])
  {
    StoreIn(packet, 34, 42, 4, Be16(8 + len));
  }

  lemma IdInFront(message: Bytes, id: Bytes)
    requires |id| == 2
    ensures UnderId(message, id) == if |message| < 2 then message else id + message[2..]
  {
  }

  method RestoreId(packet: array<byte>, id: Bytes)
    requires DNS <= packet.Length && |id| == 2
    modifies packet
    ensures packet[42..] == UnderId(old(packet[42..]), id)
    ensures packet[..14] == old(packet[..14]) && packet[14..34] == old(packet[14..34])
    ensures packet[34..42] == old(packet[34..42])
  {
    ghost var before := packet[42..];
    IdInFront(before, id);
    hide UnderId;
    if DNS + 2 <= packet.Length {
      assert before == packet[42..packet.Length];
      StoreIn(packet, DNS, packet.Length, 0, id);
      assert packet[42..] == packet[42..packet.Length] == id + before[2..];
    }
  }

  /** The packet, already resized to the answer's length, becomes the answer to the query it was. */
  method Rewrite(packet: array<byte>, response: Bytes, len: nat, id: Bytes)
    requires 0 < len <= MAX_RESPONSE == |response| && packet.Length == DNS + len && |id| == 2
    modifies packet
    ensures packet[..14] == ReplyEth(old(packet[..14]))
    ensures var ip := ReplyIp(old(packet[14..34]), len);
            packet[14..34] == WithCheck(ip, 0xFFFF - Fold(WordSum(ip, false)))
    ensures packet[34..42] == ReplyUdp(old(packet[34..42]), len)
    ensures packet[42..] == UnderId(response[..len], id)
  {
    hide Fold, WordSum, UnderId;
    ghost var eth, ip, udp := packet[..14], packet[14..34], packet[34..42];
    CopyBody(packet, response, len);
    assert packet[..14] == packet[..DNS][..14] == eth;
    assert packet[14..34] == packet[..DNS][14..34] == ip;
    assert packet[34..42] == packet[..DNS][34..42] == udp;
    hide ReplyEth;
    SwapEthernet(packet);
    SwapIpv4(packet);
    SwapUdp(packet);
    FixIp(packet, len);
    SizedHeader(ip, len);
    FixUdp(packet, len);
    SizedUdp(udp, len);
    RestoreId(packet, id);
  }

  // ------------------------------------------------------------------------------ the whole filter

  datatype Verdict = Pass | Transmit

  /** An Ethernet frame with an IPv4 UDP packet to port 53 that holds a DNS query. */
  predicate IsDnsQuery(p: Bytes) {
    && DNS + 12 <= |p|
    && p[12..14] == [8, 0] && p[23] == 17 && p[36..38] == [0, 53]
    && p[44] < 128
  }

  /** The kernel finds a servable entry for the question under the key. */
  ghost predicate Hits(query: Bytes, cache: map<nat, CacheEntry>, now: nat, key: nat) {
    && IsDnsQuery(query) && (exists e :: KernelReads(query[DNS..], e, key))
    && key in cache && Servable(cache[key], now)
  }

  /** The answer from the entry to the query. */
  predicate IsAnswer(out: Bytes, query: Bytes, e: CacheEntry) {
    DNS + 2 <= |query| && e.len <= MAX_RESPONSE == |e.response| && out == Reply(query, e.response[..e.len])
  }

  /**
   * Without a blacklist rule for the source. `resizes` says whether the packet can be resized.
   * Every packet that is not answered passes unchanged.
   */
  method TitanDnsFilter(query: Bytes, cache: map<nat, CacheEntry>, now: nat, resizes: bool)
      returns (verdict: Verdict, out: Bytes)
    requires forall key :: key in cache ==> EntryOk(cache[key])
    ensures verdict == Transmit ==>
              && resizes
              && exists key ::
                   && Hits(query, cache, now, key) && IsAnswer(out, query, cache[key])
                   // Neither an expired entry nor an error is ever served, nor what was cut to nothing.
                   && now <= cache[key].expire && cache[key].rcode == 0 && 0 < cache[key].len <= 768
    ensures verdict == Pass ==> out == query && (resizes ==> forall key :: !Hits(query, cache, now, key))
  {
    if |query| < ETH || query[12..14] != [8, 0] || |query| < 34 || query[23] != 17 || |query| < DNS ||
       query[36..38] != [0, 53] || |query| < DNS + 12 || query[44] >= 128 {
      return Pass, query;
    }
    var entry := FindEntry(query, cache, now);
    hide Reply, ReplyEth, ReplyIp, ReplyUdp, WithCheck, UnderId, Fold, WordSum, KernelReads, IsDnsQuery;
    if entry.None? || !resizes {
      return Pass, query;
    }
    var id := query[42..44];
    var len := entry.value.len;
    var packet := Resized(query, DNS + len);
    Rewrite(packet, entry.value.response, len, id);
    Assembled(query, packet[..], entry.value.response[..len]);
    assert IsAnswer(packet[..], query, entry.value);
    return Transmit, packet[..];
  }

  /** The lookup and the tests on what it finds. */
  method FindEntry(query: Bytes, cache: map<nat, CacheEntry>, now: nat) returns (entry: Option<CacheEntry>)
    requires IsDnsQuery(query)
    ensures entry.Some? ==> exists key :: Hits(query, cache, now, key) && cache[key] == entry.value
    ensures entry.None? ==> forall key :: !Hits(query, cache, now, key)
  {
    var key := KernelKey(query[DNS..]);
    if key.None? {
      return None;
    }
    OneKey(query[DNS..], key.value);
    if key.value !in cache {
      return None;
    }
    var e := cache[key.value];
    if e.expire < now || e.rcode != 0 || e.len == 0 || e.len > MAX_RESPONSE {
      return None;
    }
    assert Hits(query, cache, now, key.value);
    return Some(e);
  }

  /** The packet cut or extended to a new length. */
  method Resized(query: Bytes, length: nat) returns (packet: array<byte>)
    requires DNS <= length && DNS <= |query|
    ensures fresh(packet) && packet.Length == length
    ensures packet[..14] == query[..14] && packet[14..34] == query[14..34] && packet[34..42] == query[34..42]
  {
    packet := new byte[length](i => if 0 <= i < |query| then query[i] else 0);
  }

  lemma Assembled(query: Bytes, packet: Bytes, body: Bytes)
    requires DNS + 2 <= |query| && |body| <= MAX_RESPONSE && |packet| == DNS + |body|
    requires packet[..14] == ReplyEth(query[..14])
    requires var ip := ReplyIp(query[14..34], |body|);
             packet[14..34] == WithCheck(ip, 0xFFFF - Fold(WordSum(ip, false)))
    requires packet[34..42] == ReplyUdp(query[34..42], |body|)
    requires packet[42..] == UnderId(body, query[42..44])
    ensures packet == Reply(query, body)
  {
    hide Fold, WordSum, WithCheck, ReplyEth, ReplyIp, ReplyUdp, UnderId;
    assert packet == packet[..14] + packet[14..34] + packet[34..42] + packet[42..];
  }

  // ------------------------------------------------------------------- kernel against resolver

  /** src/core/zerocopy.rs: the copy of a message that is sent under a new ID. */
  method WithId(raw: Bytes, newId: nat) returns (r: array<byte>)
    requires 12 <= |raw| && newId < U16
    ensures fresh(r) && r[..] == UnderId(raw, Be16(newId))
  {
    r := new byte[|raw|](i requires 0 <= i < |raw| => raw[i]);
    r[0] := newId / 256;
    r[1] := newId % 256;
  }

  /** The entry update_cache makes of a response at time `stored`. */
  ghost predicate EntryFor(entry: CacheEntry, response: Bytes, stored: nat, ttl: nat) {
    && EntryOk(entry) && entry.len == Min(|response|, MAX_RESPONSE)
    && entry.response[..entry.len] == response[..entry.len]
    && entry.rcode == (if |response| >= 4 then (response[3] % 16) as nat else 0)
    && entry.expire == Expiry(stored, ttl)
  }

  /**
   * After a response of at least a header was stored under a name that the kernel can scan, a
   * query for the same name in any ASCII case, the same type and class, hits exactly when it is
   * not later than a minute past the TTL and the response's RCODE is 0, under any key at all. The answer's body is then the
   * response under the query's ID exactly when the response has at most 768 bytes: a longer one
   * is cut and answered all the same.
   */
  lemma StoredResponseIsServed(labels: seq<Bytes>, name: Bytes, qtype: nat, qclass: nat, header: Bytes, rest: Bytes,
                               query: Bytes, response: Bytes, entry: CacheEntry, stored: nat, ttl: nat,
                               cache: map<nat, CacheEntry>, now: nat)
    requires LabelsOk(labels) && PlainLabels(labels) && |WireName(labels)| <= KERNEL_LIMIT
    requires SameUpToCase(WireName(labels), name) && qtype < U16 && qclass < U16 && |header| == 12
    requires Djb2(SEED, WireName(labels)) != 0
    requires IsDnsQuery(query) && query[DNS..] == header + name + Be16(qtype) + Be16(qclass) + rest
    requires EntryFor(entry, response, stored, ttl) && 12 <= |response|
    requires var key := RichHash(WireName(labels), qtype, qclass); key in cache && cache[key] == entry
    ensures Hits(query, cache, now, RichHash(WireName(labels), qtype, qclass)) <==>
              now <= entry.expire && response[3] % 16 == 0
    ensures now > entry.expire || response[3] % 16 != 0 ==> forall key :: !Hits(query, cache, now, key)
    ensures var body := Reply(query, entry.response[..entry.len])[DNS..];
            && (body == UnderId(response, query[42..44]) <==> |response| <= 768)
            && body == UnderId(response[..entry.len], query[42..44])
  {
    var wire := WireName(labels);
    var key := RichHash(wire, qtype, qclass);
    var raw := query[DNS..];
    StoredNamesAreFound(labels, name, qtype, qclass, header, rest);
    CaseDoesNotMatter(SEED, wire, name);
    assert raw[12..12 + |name|] == name;
    assert KernelReads(raw, |name|, key);
    OneKey(raw, key);
    var body := entry.response[..entry.len];
    ReplyParts(query, body);
    if |response| <= MAX_RESPONSE {
      assert response[..entry.len] == response;
    }
  }
}
