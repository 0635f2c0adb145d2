/**
 * Finding and hashing the question's name on the wire: the kernel's scanner
 * (bpf/titan_filter.c), the two hash routines of the resolver (src/bpf.rs,
 * src/plugins/cache.rs) and its label walk (src/core/zerocopy.rs).
 *
 * Hashes are 64-bit words, computed by shifts and wrapping additions.
 */
module WireNames {
  import opened Basics

  const SEED: nat := 5381
  const COMPRESSED: byte := 0xC0
  const KERNEL_LIMIT: nat := 128
  const WALK_LIMIT: nat := 255

  // --------------------------------------------------------------------------------- the hash

  function Lower(b: byte): byte {
    if 65 <= b <= 90 then b + 32 else b
  }

  /** DJB2 over the lowercased bytes: thirty-three times the hash plus the byte, modulo 2^64. */
  function Djb2(hash: nat, bytes: Bytes): nat
    decreases |bytes|
  {
    if bytes == [] then hash else Djb2((33 * hash + Lower(bytes[0])) % U64, bytes[1..])
  }

  function UnBe16(bytes: Bytes): (v: nat)
    requires |bytes| == 2
    ensures v < U16 && Be16(v) == bytes
  {
    256 * (bytes[0] as nat) + bytes[1] as nat
  }

  /** The key of a question in the kernel's cache. */
  function RichHash(qname: Bytes, qtype: nat, qclass: nat): nat
    requires qtype < U16 && qclass < U16
  {
    Djb2(SEED, qname + Be16(qtype) + Be16(qclass))
  }

  lemma {:induction false} Djb2Concat(hash: nat, a: Bytes, b: Bytes)
    ensures Djb2(hash, a + b) == Djb2(Djb2(hash, a), b)
    decreases |a|
  {
    if a == [] {
      assert a + b == b;
    } else {
      assert (a + b)[1..] == a[1..] + b;
      Djb2Concat((33 * hash + Lower(a[0])) % U64, a[1..], b);
    }
  }

  lemma Djb2Snoc(hash: nat, bytes: Bytes, n: nat)
    requires n < |bytes|
    ensures Djb2(hash, bytes[..n + 1]) == (33 * Djb2(hash, bytes[..n]) + Lower(bytes[n])) % U64
  {
    assert bytes[..n + 1] == bytes[..n] + [bytes[n]];
    Djb2Concat(hash, bytes[..n], [bytes[n]]);
  }

  ghost predicate SameUpToCase(a: Bytes, b: Bytes) {
    |a| == |b| && forall i :: 0 <= i < |a| ==> Lower(a[i]) == Lower(b[i])
  }

  /** The same byte, or the upper and lower case of one of the 26 letters. */
  ghost predicate SameLetter(a: byte, b: byte) {
    a == b || (65 <= a <= 90 && b == a + 32) || (65 <= b <= 90 && a == b + 32)
  }

  lemma SameUpToCaseIff(a: Bytes, b: Bytes)
    ensures SameUpToCase(a, b) <==> |a| == |b| && forall i :: 0 <= i < |a| ==> SameLetter(a[i], b[i])
  {
    assert forall x: byte, y: byte :: Lower(x) == Lower(y) <==> SameLetter(x, y);
  }

  /** Names that differ only in ASCII case are hashed alike. */
  lemma {:induction false} CaseDoesNotMatter(hash: nat, a: Bytes, b: Bytes)
    requires SameUpToCase(a, b)
    ensures Djb2(hash, a) == Djb2(hash, b)
    decreases |a|
  {
    if a == [] {
    } else {
      assert Lower(a[0]) == Lower(b[0]);
      CaseDoesNotMatter((33 * hash + Lower(a[0])) % U64, a[1..], b[1..]);
    }
  }

  lemma AddMod(a: nat, b: nat)
    ensures (a % U64 + b) % U64 == (a + b) % U64
  {
    assert a == U64 * (a / U64) + a % U64;
  }

  /** One byte as all three routines do it: shift left by five, add the hash, add the byte. */
  method HashByte(hash: nat, b: byte) returns (next: nat)
    requires hash < U64
    ensures next < U64 && next == (33 * hash + Lower(b)) % U64
  {
    var c := b;
    if 65 <= c <= 90 {
      c := c + 32;
    }
    var shifted := hash * 32 % U64;
    var sum := (shifted + hash) % U64;
    next := (sum + c) % U64;
    AddMod(hash * 32, hash);
    AddMod(33 * hash, c);
  }

  /** src/bpf.rs */
  method HashBytesIncremental(hash: nat, data: Bytes) returns (r: nat)
    requires hash < U64
    ensures r < U64 && r == Djb2(hash, data)
  {
    r := hash;
    for i := 0 to |data|
      invariant r < U64 && r == Djb2(hash, data[..i])
    {
      Djb2Snoc(hash, data, i);
      r := HashByte(r, data[i]);
    }
    assert data[..|data|] == data;
  }

  /** src/bpf.rs, as update_cache composes it. */
  method UpdateCacheHash(qname: Bytes, qtype: nat, qclass: nat) returns (hash: nat)
    requires qtype < U16 && qclass < U16
    ensures hash == RichHash(qname, qtype, qclass)
  {
    hash := HashBytesIncremental(SEED, qname);
    hash := HashBytesIncremental(hash, Be16(qtype));
    hash := HashBytesIncremental(hash, Be16(qclass));
    Djb2Concat(SEED, qname, Be16(qtype));
    Djb2Concat(SEED, qname + Be16(qtype), Be16(qclass));
  }

  /** src/plugins/cache.rs */
  method CalculateXdpHash(qname: Bytes, qtype: nat, qclass: nat) returns (hash: nat)
    requires qtype < U16 && qclass < U16
    ensures hash == RichHash(qname, qtype, qclass)
  {
    ghost var all := qname + Be16(qtype) + Be16(qclass);
    assert |all| == |qname| + 4;
    hash := SEED;
    assert all[..0] == [] && Djb2(SEED, []) == SEED;
    hide Djb2, Lower;
    for i := 0 to |qname|
      invariant hash < U64 && hash == Djb2(SEED, all[..i])
    {
      Djb2Snoc(SEED, all, i);
      hash := HashByte(hash, qname[i]);
    }
    var qtypeBytes := Be16(qtype);
    for i := 0 to 2
      invariant hash < U64 && hash == Djb2(SEED, all[..|qname| + i])
    {
      Djb2Snoc(SEED, all, |qname| + i);
      hash := HashByte(hash, qtypeBytes[i]);
    }
    var qclassBytes := Be16(qclass);
    for i := 0 to 2
      invariant hash < U64 && hash == Djb2(SEED, all[..|qname| + 2 + i])
    {
      Djb2Snoc(SEED, all, |qname| + 2 + i);
      hash := HashByte(hash, qclassBytes[i]);
    }
    assert all[..|all|] == all;
  }

  // -------------------------------------------------------------------------------- the scanners

  predicate PlainByte(b: byte) {
    1 <= b < COMPRESSED
  }

  predicate AllPlain(bytes: Bytes) {
    forall i :: 0 <= i < |bytes| ==> PlainByte(bytes[i])
  }

  /** The kernel finds the end e of the name: a zero at e - 1, plain bytes before it, in 128 bytes. */
  predicate KernelEndsAt(data: Bytes, e: nat) {
    1 <= e <= |data| && e <= KERNEL_LIMIT && data[e - 1] == 0 && AllPlain(data[..e - 1])
  }

  /** The kernel's scan with its running hash. Failure is hash 0 and no end. */
  method ParseDnsQnameHash(data: Bytes) returns (hash: nat, end: Option<nat>)
    ensures end.Some? ==> KernelEndsAt(data, end.value) && hash == Djb2(SEED, data[..end.value]) < U64
    ensures end.None? ==> hash == 0 && forall e :: !KernelEndsAt(data, e)
  {
    hash := SEED;
    var ptr := 0;
    while ptr < KERNEL_LIMIT
      invariant ptr <= KERNEL_LIMIT && ptr <= |data| && hash < U64 && hash == Djb2(SEED, data[..ptr])
      invariant AllPlain(data[..ptr])
    {
      if |data| < ptr + 1 {
        return 0, None;
      }
      var b := data[ptr];
      ptr := ptr + 1;
      Djb2Snoc(SEED, data, ptr - 1);
      if b == 0 {
        hash := HashByte(hash, 0);
        return hash, Some(ptr);
      }
      if COMPRESSED <= b {
        assert !PlainByte(data[ptr - 1]) && data[ptr - 1] != 0;
        return 0, None;
      }
      hash := HashByte(hash, b);
    }
    return 0, None;
  }

  /** Where the label walk from pos stops: past a pointer's two bytes or past the final zero. */
  function Walk(data: Bytes, pos: nat): (end: Option<nat>)
    decreases |data| - pos
  {
    if |data| <= pos then None
    else if COMPRESSED <= data[pos] then Some(pos + 2)
    else if data[pos] == 0 then Some(pos + 1)
    else if WALK_LIMIT < pos + data[pos] + 1 then None
    else Walk(data, pos + data[pos] + 1)
  }

  method FindNameEnd(data: Bytes) returns (end: Option<nat>)
    ensures end == Walk(data, 0)
  {
    var pos: nat := 0;
    while true
      invariant Walk(data, pos) == Walk(data, 0)
      decreases |data| - pos
    {
      if |data| <= pos {
        return None;
      }
      var len := data[pos];
      if COMPRESSED <= len {
        return Some(pos + 2);
      }
      if len == 0 {
        return Some(pos + 1);
      }
      pos := pos + len + 1;
      if WALK_LIMIT < pos {
        return None;
      }
    }
  }

  lemma {:induction false} WalkGoesOn(data: Bytes, pos: nat)
    ensures Walk(data, pos).Some? ==> pos < Walk(data, pos).value
    decreases |data| - pos
  {
    if pos < |data| && PlainByte(data[pos]) && pos + data[pos] + 1 <= WALK_LIMIT {
      WalkGoesOn(data, pos + data[pos] + 1);
    }
  }

  // -------------------------------------------------------------------------- names of RFC 1035

  /** Labels as long as the walk takes them; section 3.1 of RFC 1035 stops at 63 bytes. */
  ghost predicate LabelsOk(labels: seq<Bytes>) {
    forall i :: 0 <= i < |labels| ==> 1 <= |labels[i]| < COMPRESSED
  }

  ghost predicate PlainLabels(labels: seq<Bytes>) {
    forall i :: 0 <= i < |labels| ==> AllPlain(labels[i])
  }

  /** Labels on the wire, each behind its length. */
  function LabelBytes(labels: seq<Bytes>): Bytes
    requires LabelsOk(labels)
  {
    if labels == [] then [] else [|labels[0]|] + labels[0] + LabelBytes(labels[1..])
  }

  /** A whole name: its labels and the empty one of the root. */
  function WireName(labels: seq<Bytes>): Bytes
    requires LabelsOk(labels)
  {
    LabelBytes(labels) + [0]
  }

  /** The first e bytes spell a whole name. */
  ghost predicate Spelled(data: Bytes, e: nat) {
    exists labels :: SpelledBy(data, e, labels)
  }

  ghost predicate SpelledBy(data: Bytes, e: nat, labels: seq<Bytes>) {
    e <= |data| && LabelsOk(labels) && data[..e] == WireName(labels)
  }

  /** The first p bytes are whole labels, so a label's length or the end is due at p. */
  ghost predicate Boundary(data: Bytes, p: nat, labels: seq<Bytes>) {
    p < |data| && LabelsOk(labels) && data[..p] == LabelBytes(labels)
  }

  /** Byte z lies inside a label, past its length byte. */
  ghost predicate InsideLabel(data: Bytes, z: nat) {
    exists p: nat, labels :: InsideLabelAt(data, z, p, labels)
  }

  ghost predicate InsideLabelAt(data: Bytes, z: nat, p: nat, labels: seq<Bytes>) {
    Boundary(data, p, labels) && p < z <= p + data[p]
  }

  /** The walk passes over whole labels, unless they take it past its limit. */
  lemma {:induction false} WalkFollows(data: Bytes, pos: nat, labels: seq<Bytes>)
    requires LabelsOk(labels) && pos <= |data| && LabelBytes(labels) <= data[pos..]
    ensures var p := pos + |LabelBytes(labels)|;
            Walk(data, pos) == if labels == [] || p <= WALK_LIMIT then Walk(data, p) else None
    decreases |labels|
  {
    if labels == [] {
    } else {
      var head := [|labels[0]|] + labels[0];
      var next := pos + |head|;
      assert LabelBytes(labels) == head + LabelBytes(labels[1..]);
      assert data[pos] == data[pos..][0] == |labels[0]|;
      assert data[next..] == data[pos..][|head|..];
      WalkFollows(data, next, labels[1..]);
    }
  }

  lemma BoundaryIsReached(data: Bytes, p: nat, labels: seq<Bytes>)
    requires Boundary(data, p, labels) && p <= WALK_LIMIT
    ensures Walk(data, 0) == Walk(data, p)
  {
    assert data[0..] == data;
    WalkFollows(data, 0, labels);
  }

  /** The labels the walk reads from pos on until it ends. */
  lemma {:induction false} WalkReads(data: Bytes, pos: nat) returns (labels: seq<Bytes>)
    requires Walk(data, pos).Some?
    ensures LabelsOk(labels)
    ensures var p, e := pos + |LabelBytes(labels)|, Walk(data, pos).value;
            && p < |data| && (p == pos || p <= WALK_LIMIT) && data[pos..p] == LabelBytes(labels)
            && ((data[p] == 0 && e == p + 1) || (COMPRESSED <= data[p] && e == p + 2))
    decreases |data| - pos
  {
    if !PlainByte(data[pos]) {
      labels := [];
    } else {
      var next := pos + data[pos] + 1;
      WalkGoesOn(data, next);
      var rest := WalkReads(data, next);
      labels := [data[pos + 1..next]] + rest;
      var p := next + |LabelBytes(rest)|;
      assert labels[1..] == rest;
      assert data[pos..p] == [data[pos]] + data[pos + 1..next] + data[next..p];
    }
  }

  /**
   * The walk on arbitrary bytes: it ends at e exactly when whole labels lead, within its limit,
   * to a zero just before e or to a compression pointer at e - 2.
   */
  lemma WalkEnds(data: Bytes, e: nat)
    ensures Walk(data, 0) == Some(e) <==>
            exists p: nat, labels :: EndsAfter(data, e, p, labels)
  {
    if Walk(data, 0) == Some(e) {
      var labels := WalkReads(data, 0);
      var p := |LabelBytes(labels)|;
      assert data[0..p] == data[..p];
      assert EndsAfter(data, e, p, labels);
    }
    if exists p: nat, labels :: EndsAfter(data, e, p, labels) {
      var p: nat, labels :| EndsAfter(data, e, p, labels);
      BoundaryIsReached(data, p, labels);
    }
  }

  ghost predicate EndsAfter(data: Bytes, e: nat, p: nat, labels: seq<Bytes>) {
    && Boundary(data, p, labels) && p <= WALK_LIMIT
    && ((data[p] == 0 && e == p + 1) || (COMPRESSED <= data[p] && e == p + 2))
  }

  /** A zero after plain bytes is either where a label is due, or inside a label. */
  lemma {:induction false} LabelsUpTo(data: Bytes, pos: nat, z: nat) returns (labels: seq<Bytes>)
    requires pos <= z < |data| && AllPlain(data[pos..z])
    ensures LabelsOk(labels)
    ensures var p := pos + |LabelBytes(labels)|;
            p <= z && data[pos..p] == LabelBytes(labels) && (p == z || z <= p + data[p])
    decreases z - pos
  {
    if pos == z {
      labels := [];
    } else {
      assert data[pos..z][0] == data[pos];
      var next := pos + data[pos] + 1;
      if z < next {
        labels := [];
      } else {
        PlainConcat(data[pos..next], data[next..z]);
        assert data[pos..z] == data[pos..next] + data[next..z];
        var rest := LabelsUpTo(data, next, z);
        labels := [data[pos + 1..next]] + rest;
        var p := next + |LabelBytes(rest)|;
        assert labels[1..] == rest;
        assert data[pos..p] == [data[pos]] + data[pos + 1..next] + data[next..p];
      }
    }
  }

  /** A byte inside a label is passed over: the walk does not end just behind it. */
  lemma InsideIsPassed(data: Bytes, z: nat, p: nat, labels: seq<Bytes>)
    requires InsideLabelAt(data, z, p, labels) && z < WALK_LIMIT && data[p] < COMPRESSED
    ensures Walk(data, 0).Some? ==> z + 1 < Walk(data, 0).value
  {
    BoundaryIsReached(data, p, labels);
    if p + data[p] + 1 <= WALK_LIMIT {
      WalkGoesOn(data, p + data[p] + 1);
    }
  }

  lemma SpelledIsWalked(data: Bytes, e: nat, labels: seq<Bytes>)
    requires SpelledBy(data, e, labels)
    ensures Boundary(data, e - 1, labels) && data[e - 1] == 0
    ensures Walk(data, 0) == if e <= WALK_LIMIT + 1 then Some(e) else None
  {
    assert data[e - 1] == data[..e][e - 1];
    assert data[..e - 1] == data[..e][..e - 1] == LabelBytes(labels);
    assert data[0..] == data;
    WalkFollows(data, 0, labels);
  }

  /**
   * Kernel against resolver on arbitrary bytes. Where the kernel finds an end k, the resolver's
   * walk ends there too exactly when the k bytes spell a name; otherwise the kernel's zero lies
   * inside a label and the walk, if it ends at all, ends later.
   */
  lemma ScannersAgree(data: Bytes, k: nat)
    requires KernelEndsAt(data, k)
    ensures Walk(data, 0) == Some(k) <==> Spelled(data, k)
    ensures Walk(data, 0) != Some(k) <==> InsideLabel(data, k - 1)
    ensures Walk(data, 0).Some? ==> k <= Walk(data, 0).value
  {
    assert data[0..k - 1] == data[..k - 1];
    var labels := LabelsUpTo(data, 0, k - 1);
    var p := |LabelBytes(labels)|;
    assert data[0..p] == data[..p];
    if p == k - 1 {
      assert data[..k] == data[..p] + [0];
      assert SpelledBy(data, k, labels);
      SpelledIsWalked(data, k, labels);
    } else {
      assert InsideLabelAt(data, k - 1, p, labels);
      assert data[..k - 1][p] == data[p];
      InsideIsPassed(data, k - 1, p, labels);
    }
    if InsideLabel(data, k - 1) {
      var p': nat, labels' :| InsideLabelAt(data, k - 1, p', labels');
      assert data[..k - 1][p'] == data[p'];
      InsideIsPassed(data, k - 1, p', labels');
    }
    if Spelled(data, k) {
      var labels' :| SpelledBy(data, k, labels');
      SpelledIsWalked(data, k, labels');
    }
  }

  /**
   * Resolver against kernel: where the walk ends, the kernel ends too exactly when the bytes
   * spell a name of at most 128 bytes whose labels hold only bytes in 1..0xBF.
   */
  lemma KernelAgrees(data: Bytes, e: nat)
    requires Walk(data, 0) == Some(e)
    ensures KernelEndsAt(data, e) <==>
              e <= KERNEL_LIMIT && exists labels :: SpelledBy(data, e, labels) && PlainLabels(labels)
  {
    if KernelEndsAt(data, e) {
      ScannersAgree(data, e);
      var labels :| SpelledBy(data, e, labels);
      SpelledIsWalked(data, e, labels);
      hide Walk, Spelled;
      PlainNames(labels);
    }
    if labels :| e <= KERNEL_LIMIT && SpelledBy(data, e, labels) && PlainLabels(labels) {
      SpelledIsWalked(data, e, labels);
      hide Walk, Spelled;
      PlainNames(labels);
    }
  }

  /** Before a compression pointer the kernel ends at a zero inside a label or not at all. */
  lemma NoEndAtAPointer(data: Bytes, p: nat, labels: seq<Bytes>, k: nat)
    requires Boundary(data, p, labels) && p <= WALK_LIMIT && COMPRESSED <= data[p]
    requires KernelEndsAt(data, k)
    ensures k <= p && InsideLabel(data, k - 1)
  {
    BoundaryIsReached(data, p, labels);
    ScannersAgree(data, k);
  }

  lemma PlainConcat(a: Bytes, b: Bytes)
    ensures AllPlain(a + b) <==> AllPlain(a) && AllPlain(b)
  {
    assert forall i :: 0 <= i < |a| ==> (a + b)[i] == a[i];
    assert forall i :: 0 <= i < |b| ==> (a + b)[|a| + i] == b[i];
  }

  /** The bytes before the final zero are plain exactly when those inside the labels are. */
  lemma {:induction false} PlainNames(labels: seq<Bytes>)
    requires LabelsOk(labels)
    ensures AllPlain(LabelBytes(labels)) <==> PlainLabels(labels)
    decreases |labels|
  {
    if labels == [] {
    } else {
      var first := labels[0];
      PlainNames(labels[1..]);
      PlainConcat([|first|], first);
      PlainConcat([|first|] + first, LabelBytes(labels[1..]));
      assert labels == [first] + labels[1..];
      assert PlainLabels(labels) <==> AllPlain(first) && PlainLabels(labels[1..]);
    }
  }

  /**
   * On a well-formed name, whatever follows it, the walk finds its end when it has at most 256
   * bytes; the kernel finds that end exactly when the name has at most 128 bytes and every byte
   * inside a label is in 1..0xBF.
   */
  lemma NameEnds(labels: seq<Bytes>, rest: Bytes)
    requires LabelsOk(labels)
    ensures var wire := WireName(labels);
            && Walk(wire + rest, 0) == (if |wire| <= 256 then Some(|wire|) else None)
            && (KernelEndsAt(wire + rest, |wire|) <==> |wire| <= 128 && PlainLabels(labels))
  {
    var wire := WireName(labels);
    assert SpelledBy(wire + rest, |wire|, labels);
    SpelledIsWalked(wire + rest, |wire|, labels);
    PlainNames(labels);
  }

  // ------------------------------------------------------------------------------- the question

  datatype Question = Question(name: Bytes, qtype: nat, qclass: nat)

  /** The name that the walk finds at byte 12, and the four bytes after it. */
  ghost predicate ResolverReads(raw: Bytes, q: Question) {
    && q.qtype < U16 && q.qclass < U16 && 12 + |q.name| + 4 <= |raw|
    && Walk(raw[12..], 0) == Some(|q.name|) && q.name == raw[12..12 + |q.name|]
    && raw[12..12 + |q.name| + 4] == q.name + Be16(q.qtype) + Be16(q.qclass)
  }

  /** The resolver's reading of the first question of a message. */
  method ParseQuestion(raw: Bytes, qdcount: nat) returns (q: Option<Question>)
    requires 12 <= |raw|
    ensures q.None? <==>
              || qdcount == 0 || |raw| < 17 || Walk(raw[12..], 0).None?
              || |raw| < 12 + Walk(raw[12..], 0).value + 4
    ensures q.Some? ==> ResolverReads(raw, q.value)
  {
    if qdcount == 0 || |raw| < 17 {
      return None;
    }
    var data := raw[12..];
    var end := FindNameEnd(data);
    if end.None? {
      return None;
    }
    var e := end.value;
    if |data| < e + 4 {
      return None;
    }
    var qtype, qclass := UnBe16(data[e..e + 2]), UnBe16(data[e + 2..e + 4]);
    assert data[..e + 4] == data[..e] + data[e..e + 2] + data[e + 2..e + 4];
    assert raw[12..12 + e + 4] == data[..e + 4] && raw[12..12 + e] == data[..e];
    return Some(Question(data[..e], qtype, qclass));
  }

  /** The name at byte 12 ends after e bytes, and key is the hash of it and the four bytes after it. */
  ghost predicate KernelKeyAt(raw: Bytes, e: nat, key: nat) {
    12 <= |raw| && 12 + e + 4 <= |raw| && KernelEndsAt(raw[12..], e) && key == Djb2(SEED, raw[12..12 + e + 4])
  }

  /** A name whose own hash is zero is taken for a failure. */
  ghost predicate KernelReads(raw: Bytes, e: nat, key: nat) {
    KernelKeyAt(raw, e, key) && Djb2(SEED, raw[12..12 + e]) != 0
  }

  /** The kernel's key for a packet's question; None sends the packet to the resolver. */
  method KernelKey(raw: Bytes) returns (key: Option<nat>)
    requires 12 <= |raw|
    ensures key.Some? ==> exists e :: KernelReads(raw, e, key.value)
    ensures key.None? ==> forall e, k :: !KernelReads(raw, e, k)
  {
    var data := raw[12..];
    var qhash, end := ParseDnsQnameHash(data);
    if end.Some? {
      OneKernelEnd(data, end.value);
      assert data[..end.value] == raw[12..12 + end.value];
    }
    if qhash == 0 || end.None? {
      return None;
    }
    var e := end.value;
    if |data| < e + 4 {
      return None;
    }
    for i := 0 to 4
      invariant qhash < U64 && qhash == Djb2(SEED, data[..e + i])
    {
      Djb2Snoc(SEED, data, e + i);
      qhash := HashByte(qhash, data[e + i]);
    }
    assert data[..e + 4] == raw[12..12 + e + 4];
    assert KernelReads(raw, e, qhash);
    return Some(qhash);
  }

  lemma OneKernelEnd(data: Bytes, e: nat)
    requires KernelEndsAt(data, e)
    ensures forall k :: KernelEndsAt(data, k) ==> k == e
  {
    forall k | KernelEndsAt(data, k) ensures k == e {
      assert data[k - 1] == 0 && data[e - 1] == 0;
    }
  }

  lemma OneKey(raw: Bytes, key: nat)
    requires exists e :: KernelReads(raw, e, key)
    ensures forall e, k :: KernelReads(raw, e, k) ==> k == key
  {
    var e :| KernelReads(raw, e, key);
    OneKernelEnd(raw[12..], e);
  }

  /**
   * A packet that kernel and resolver both read: they read the same question, and the kernel's
   * key is the resolver's key for it, exactly when the bytes the kernel took spell a name.
   * Otherwise the resolver reads a longer name.
   */
  lemma KeysAgree(raw: Bytes, e: nat, key: nat, q: Question)
    requires KernelReads(raw, e, key) && ResolverReads(raw, q)
    ensures Spelled(raw[12..], e) <==> |q.name| == e
    ensures |q.name| == e ==> key == RichHash(q.name, q.qtype, q.qclass)
    ensures |q.name| != e ==> e < |q.name|
  {
    ScannersAgree(raw[12..], e);
  }

  /** A scannable name stays scannable in any ASCII case. */
  lemma AnyCaseEndsAlike(labels: seq<Bytes>, name: Bytes, rest: Bytes)
    requires LabelsOk(labels) && PlainLabels(labels) && |WireName(labels)| <= KERNEL_LIMIT
    requires SameUpToCase(WireName(labels), name)
    ensures KernelEndsAt(name + rest, |name|)
  {
    var wire := WireName(labels);
    PlainNames(labels);
    var plain := LabelBytes(labels);
    assert wire[..|wire| - 1] == plain;
    assert Lower(wire[|wire| - 1]) == Lower(name[|wire| - 1]);
    var start := name[..|name| - 1];
    forall i | 0 <= i < |start| ensures PlainByte(start[i]) {
      assert PlainByte(plain[i]) && Lower(wire[i]) == Lower(name[i]);
    }
    assert (name + rest)[..|name| - 1] == start;
  }

  /**
   * A query whose name differs from the stored one in ASCII case only is looked up by the
   * kernel under the key the resolver stored it under.
   */
  lemma StoredNamesAreFound(labels: seq<Bytes>, name: Bytes, qtype: nat, qclass: nat, header: Bytes, rest: Bytes)
    requires LabelsOk(labels) && PlainLabels(labels) && |WireName(labels)| <= KERNEL_LIMIT
    requires SameUpToCase(WireName(labels), name) && qtype < U16 && qclass < U16 && |header| == 12
    ensures var raw := header + name + Be16(qtype) + Be16(qclass) + rest;
            KernelKeyAt(raw, |name|, RichHash(WireName(labels), qtype, qclass))
  {
    var wire := WireName(labels);
    var meta := Be16(qtype) + Be16(qclass);
    var raw := header + name + Be16(qtype) + Be16(qclass) + rest;
    AnyCaseEndsAlike(labels, name, meta + rest);
    hide KernelEndsAt, Djb2, Be16, WireName, LabelBytes;
    assert raw[12..] == name + (meta + rest);
    assert raw[12..12 + |name| + 4] == name + meta;
    assert wire + Be16(qtype) + Be16(qclass) == wire + meta;
    assert SameUpToCase(wire + meta, name + meta);
    CaseDoesNotMatter(SEED, wire + meta, name + meta);
  }
}
