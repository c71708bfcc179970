/** The parser of the PROXY protocol header a reverse proxy prepends to a connection, versions 1 and 2
    (engine/net/ProxyProtocol.cpp). */
module ProxyProtocol {
  // Converting addresses is a library call: any deterministic function.

  import opened Common
  import opened FieldScanner

  datatype Library = Library(
    oddNumber: Bytes -> nat,            // sscanf's value of a negative number, or of one above 32 bits
    isIpv4: Bytes -> bool,              // inet_pton accepts
    isIpv6: Bytes -> bool,
    showIpv4: Bytes -> Bytes,           // inet_ntop
    showIpv6: Bytes -> Bytes)

  datatype Result = Result(
    valid: bool,
    needMore: bool,
    clientAddr: Bytes, clientPort: nat,
    serverAddr: Bytes, serverPort: nat,
    headerLength: nat)

  const DIRECT := Result(false, false, [], 0, [], 0, 0)
  const NEED_MORE := DIRECT.(needMore := true)

  function Ascii(s: string): Bytes {
    seq(|s|, i requires 0 <= i < |s| => (s[i] as int) % 256)
  }

  const V1_PREFIX: Bytes := [80, 82, 79, 88, 89, 32]                                     // "PROXY "
  const V2_SIGNATURE: Bytes := [13, 10, 13, 10, 0, 13, 10, 81, 85, 73, 84, 10]
  const V2_HEADER := 16
  const MAX_LINE := 108

  predicate StartsWith(data: Bytes, prefix: Bytes) {
    |data| >= |prefix| && data[..|prefix|] == prefix
  }

  // ----- Version 1

  /** Position of the first CR LF from `from` on that lies within the first `max` bytes, or -1. */
  function LineEnd(data: Bytes, max: nat, from: nat): (i: int)
    requires max <= |data|
    ensures i == -1 || (from <= i && i + 1 < max && data[i] == 13 && data[i + 1] == 10)
    decreases max - from
  {
    if from + 1 >= max then -1
    else if data[from] == 13 && data[from + 1] == 10 then from
    else LineEnd(data, max, from + 1)
  }

  /** What the scanned fields amount to. */
  function Judged(lib: Library, f: Fields, length: nat): Result {
    if f.proto != Ascii("TCP4") && f.proto != Ascii("TCP6") then DIRECT.(headerLength := length)
    else if f.proto == Ascii("TCP4") && !lib.isIpv4(f.src) then DIRECT.(headerLength := length)
    else if f.proto != Ascii("TCP4") && !lib.isIpv6(f.src) then DIRECT.(headerLength := length)
    else Result(true, false, f.src, f.srcPort % 65536, f.dst, f.dstPort % 65536, length)
  }

  function ParseLine(lib: Library, line: Bytes): Result {
    var result := DIRECT.(headerLength := |line| + 2);
    if |line| < 7 then result
    else
      var rest := line[6..];
      if StartsWith(rest, Ascii("UNKNOWN")) then result.(valid := true)
      else
        match Scan(lib.oddNumber, rest)
        case None => result
        case Some(f) => Judged(lib, f, |line| + 2)
  }

  function ParseV1(lib: Library, data: Bytes): Result {
    var end := LineEnd(data, Min(|data|, MAX_LINE), 0);
    if end < 0 then (if |data| < MAX_LINE then NEED_MORE else DIRECT) else ParseLine(lib, data[..end])
  }

  // ----- Version 2

  /** A big-endian 16-bit number. */
  function Word16(data: Bytes, at: nat): nat
    requires at + 1 < |data|
  {
    (data[at] as int) * 256 + data[at + 1] as int
  }

  /** What a complete version 2 header says: command and family byte, and the address block. */
  function ParseAddresses(lib: Library, command: nat, family: nat, block: Bytes): Result {
    var result := DIRECT.(headerLength := V2_HEADER + |block|);
    if command == 0 then result.(valid := true)
    else if command != 1 then result
    else if family == 1 && |block| >= 12 then
      Result(true, false, lib.showIpv4(block[..4]), Word16(block, 8), lib.showIpv4(block[4..8]), Word16(block, 10),
             V2_HEADER + |block|)
    else if family == 2 && |block| >= 36 then
      Result(true, false, lib.showIpv6(block[..16]), Word16(block, 32), lib.showIpv6(block[16..32]), Word16(block, 34),
             V2_HEADER + |block|)
    else if family == 0 then result.(valid := true)
    else result
  }

  function ParseV2(lib: Library, data: Bytes): Result {
    if |data| < V2_HEADER then NEED_MORE
    else if data[12] / 16 != 2 then DIRECT
    else
      var total := V2_HEADER + Word16(data, 14);
      if |data| < total then NEED_MORE
      else ParseAddresses(lib, data[12] % 16, data[13] / 16, data[V2_HEADER..total])
  }

  // ----- Entry point

  function Parse(lib: Library, data: Bytes): Result {
    if |data| == 0 then NEED_MORE
    else if StartsWith(data, V1_PREFIX) then ParseV1(lib, data)
    else if StartsWith(data, V2_SIGNATURE) then ParseV2(lib, data)
    else if |data| < 12 && |data| < 6 && data == V1_PREFIX[..|data|] then NEED_MORE
    else if |data| < 12 && data == V2_SIGNATURE[..|data|] then NEED_MORE
    else DIRECT
  }

  // ----- Incrementality

  lemma {:induction false} LineEndIsFirst(data: Bytes, max: nat, from: nat, k: nat)
    requires max <= |data| && from <= k && k + 1 < max && data[k] == 13 && data[k + 1] == 10
    ensures from <= LineEnd(data, max, from) <= k
    decreases max - from
  {
    if from < k && !(data[from] == 13 && data[from + 1] == 10) {
      LineEndIsFirst(data, max, from + 1, k);
    }
  }

  /** Looking at fewer bytes finds the same line end or none. */
  lemma {:induction false} LineEndGrows(p: Bytes, d: Bytes, max: nat, more: nat, from: nat)
    requires p <= d && max <= |p| && max <= more <= |d|
    ensures LineEnd(p, max, from) >= 0 ==> LineEnd(d, more, from) == LineEnd(p, max, from)
    ensures LineEnd(p, max, from) < 0 && LineEnd(d, more, from) >= 0 ==> LineEnd(d, more, from) + 1 >= max
    decreases max - from
  {
    if from + 1 < max {
      LineEndGrows(p, d, max, more, from + 1);
    }
  }

  lemma V1Incremental(lib: Library, p: Bytes, d: Bytes)
    requires p <= d && !ParseV1(lib, p).needMore
    ensures ParseV1(lib, d) == ParseV1(lib, p)
  {
    var m, n := Min(|p|, MAX_LINE), Min(|d|, MAX_LINE);
    LineEndGrows(p, d, m, n, 0);
    var end := LineEnd(p, m, 0);
    if end >= 0 {
      assert p[..end] == d[..end];
    }
  }

  lemma V2Incremental(lib: Library, p: Bytes, d: Bytes)
    requires p <= d && !ParseV2(lib, p).needMore
    ensures ParseV2(lib, d) == ParseV2(lib, p)
  {
    if p[12] / 16 == 2 {
      var total := V2_HEADER + Word16(p, 14);
      assert p[V2_HEADER..total] == d[V2_HEADER..total];
    }
  }

  lemma PrefixOf(p: Bytes, d: Bytes, sig: Bytes)
    requires p <= d
    ensures StartsWith(p, sig) ==> StartsWith(d, sig)
    ensures |p| >= |sig| && StartsWith(d, sig) ==> StartsWith(p, sig)
    ensures |p| < |sig| && StartsWith(d, sig) ==> p == sig[..|p|]
  {
    if |p| >= |sig| {
      assert p[..|sig|] == d[..|sig|];
    } else if StartsWith(d, sig) {
      assert d[..|sig|][..|p|] == d[..|p|];
    }
  }

  /** Once the parser does not ask for more data, no further byte changes its answer. */
  lemma Incremental(lib: Library, p: Bytes, d: Bytes)
    requires p <= d && !Parse(lib, p).needMore
    ensures Parse(lib, d) == Parse(lib, p)
  {
    PrefixOf(p, d, V1_PREFIX);
    PrefixOf(p, d, V2_SIGNATURE);
    if StartsWith(p, V1_PREFIX) {
      V1Incremental(lib, p, d);
    } else if StartsWith(p, V2_SIGNATURE) {
      V2Incremental(lib, p, d);
    } else {
      if |d| < 6 && d == V1_PREFIX[..|d|] {
        ShorterPrefix(p, d, V1_PREFIX);
      }
      if |d| < 12 && d == V2_SIGNATURE[..|d|] {
        ShorterPrefix(p, d, V2_SIGNATURE);
      }
    }
  }

  lemma ShorterPrefix(p: Bytes, d: Bytes, sig: Bytes)
    requires p <= d && |d| <= |sig| && d == sig[..|d|]
    ensures p == sig[..|p|]
  {
    assert sig[..|d|][..|p|] == sig[..|p|];
  }

  // ----- The header length

  /** A header lies within the bytes it was read from. */
  lemma HeaderWithin(lib: Library, d: Bytes)
    ensures Parse(lib, d).headerLength <= |d|
  {
  }

  lemma StartIs(d: Bytes, sig: Bytes, i: nat)
    requires StartsWith(d, sig) && i < |sig|
    ensures d[i] == sig[i]
  {
    assert d[..|sig|][i] == d[i];
  }

  lemma V1NoEarlyCr(d: Bytes, i: nat)
    requires StartsWith(d, V1_PREFIX) && i < |d| && d[i] == 13
    ensures i >= 6
  {
    if i < 6 {
      StartIs(d, V1_PREFIX, i);
    }
  }

  /** The header alone is enough to decide. */
  lemma HeaderDecides(lib: Library, d: Bytes)
    requires Parse(lib, d).headerLength > 0
    ensures Parse(lib, d).headerLength <= |d| && !Parse(lib, d[..Parse(lib, d).headerLength]).needMore
  {
    HeaderWithin(lib, d);
    if StartsWith(d, V1_PREFIX) {
      V1HeaderDecides(lib, d);
    } else {
      V2HeaderDecides(lib, d);
    }
  }

  lemma V1HeaderDecides(lib: Library, d: Bytes)
    requires StartsWith(d, V1_PREFIX) && Parse(lib, d).headerLength > 0
    ensures Parse(lib, d).headerLength <= |d| && !Parse(lib, d[..Parse(lib, d).headerLength]).needMore
  {
    HeaderWithin(lib, d);
    var end := LineEnd(d, Min(|d|, MAX_LINE), 0);
    assert Parse(lib, d) == ParseV1(lib, d) && end >= 0;
    V1NoEarlyCr(d, end);
    V1LineDecides(lib, d, end);
  }

  lemma V1LineDecides(lib: Library, d: Bytes, end: nat)
    requires StartsWith(d, V1_PREFIX) && end >= 6 && end + 2 <= |d| && end == LineEnd(d, Min(|d|, MAX_LINE), 0)
    ensures !Parse(lib, d[..end + 2]).needMore
  {
    var p := d[..end + 2];
    PrefixOf(p, d, V1_PREFIX);
    LineEndIsFirst(p, Min(end + 2, MAX_LINE), 0, end);
  }

  lemma V2HeaderDecides(lib: Library, d: Bytes)
    requires !StartsWith(d, V1_PREFIX) && Parse(lib, d).headerLength > 0
    ensures Parse(lib, d).headerLength <= |d| && !Parse(lib, d[..Parse(lib, d).headerLength]).needMore
  {
    HeaderWithin(lib, d);
    var p := d[..Parse(lib, d).headerLength];
    PrefixOf(p, d, V1_PREFIX);
    PrefixOf(p, d, V2_SIGNATURE);
  }

  /** A nonzero header length is the least number of bytes at which the parser decides: with that many it
      gives the same result, and with fewer it asks for more. */
  lemma HeaderLengthIsLeast(lib: Library, d: Bytes, k: nat)
    requires Parse(lib, d).headerLength > 0 && k <= |d|
    ensures k >= Parse(lib, d).headerLength ==> Parse(lib, d[..k]) == Parse(lib, d)
    ensures k < Parse(lib, d).headerLength ==> Parse(lib, d[..k]).needMore
  {
    var n := Parse(lib, d).headerLength;
    HeaderDecides(lib, d);
    Incremental(lib, d[..n], d);
    if k >= n {
      assert d[..k][..n] == d[..n];
      Incremental(lib, d[..n], d[..k]);
    } else {
      HeaderWithin(lib, d[..k]);
      if !Parse(lib, d[..k]).needMore {
        Incremental(lib, d[..k], d);
      }
    }
  }

  /** The parser never asks for more once it holds the longest possible header. */
  lemma AlwaysDecides(lib: Library, d: Bytes)
    requires |d| >= V2_HEADER + 65535
    ensures !Parse(lib, d).needMore
  {
  }

  // ----- Inverting the writer of a header

  datatype Family = Unspecified | Ipv4 | Ipv6

  function Code(f: Family): nat { match f case Unspecified => 0 case Ipv4 => 1 case Ipv6 => 2 }
  function AddressSize(f: Family): nat { match f case Unspecified => 0 case Ipv4 => 4 case Ipv6 => 16 }

  function Port(p: nat): Bytes
    requires p < 65536
  {
    [p / 256, p % 256]
  }

  function Block(f: Family, src: Bytes, dst: Bytes, srcPort: nat, dstPort: nat, extensions: Bytes): Bytes
    requires srcPort < 65536 && dstPort < 65536
  {
    if f == Unspecified then extensions else src + dst + Port(srcPort) + Port(dstPort) + extensions
  }

  /** A version 2 header as section 2.2 of the PROXY protocol specification lays it out: the signature,
      version and command, family and transport, length, addresses and ports, and any extensions. */
  function WriteV2(local: bool, f: Family, transport: nat, src: Bytes, dst: Bytes, srcPort: nat, dstPort: nat,
                   extensions: Bytes): Bytes
    requires transport < 16 && srcPort < 65536 && dstPort < 65536
    requires |src| == |dst| == AddressSize(f) && |Block(f, src, dst, srcPort, dstPort, extensions)| < 65536
  {
    var block := Block(f, src, dst, srcPort, dstPort, extensions);
    V2_SIGNATURE + [if local then 32 else 33, Code(f) * 16 + transport] + Port(|block|) + block
  }

  function Shown(lib: Library, f: Family, addr: Bytes): Bytes {
    match f case Unspecified => [] case Ipv4 => lib.showIpv4(addr) case Ipv6 => lib.showIpv6(addr)
  }

  lemma V2Layout(head: Bytes, size: nat, block: Bytes, rest: Bytes)
    requires |head| == 14 && head[..12] == V2_SIGNATURE && size == |block| < 65536
    ensures
      var d := head + Port(size) + block + rest;
      && StartsWith(d, V2_SIGNATURE) && !StartsWith(d, V1_PREFIX)
      && d[12] == head[12] && d[13] == head[13] && Word16(d, 14) == size
      && |d| >= V2_HEADER + size && d[V2_HEADER..V2_HEADER + size] == block
  {
    var d := head + Port(size) + block + rest;
    assert d[..12] == head[..12];
    StartIs(d, V2_SIGNATURE, 0);
    if StartsWith(d, V1_PREFIX) {
      StartIs(d, V1_PREFIX, 0);
    }
  }

  lemma PortRoundTrip(block: Bytes, at: nat, p: nat)
    requires p < 65536 && at + 1 < |block| && block[at..at + 2] == Port(p)
    ensures Word16(block, at) == p
  {
    assert block[at] == block[at..at + 2][0] && block[at + 1] == block[at..at + 2][1];
  }

  /** Parsing what a proxy wrote, with any bytes of the connection behind it, gives back the addresses
      and ports and points at the first byte of the connection. */
  lemma V2RoundTrip(lib: Library, local: bool, f: Family, transport: nat, src: Bytes, dst: Bytes,
                    srcPort: nat, dstPort: nat, extensions: Bytes, rest: Bytes)
    requires transport < 16 && srcPort < 65536 && dstPort < 65536
    requires |src| == |dst| == AddressSize(f) && |Block(f, src, dst, srcPort, dstPort, extensions)| < 65536
    ensures
      var header := WriteV2(local, f, transport, src, dst, srcPort, dstPort, extensions);
      Parse(lib, header + rest) ==
        if local || f == Unspecified then DIRECT.(valid := true, headerLength := |header|)
        else Result(true, false, Shown(lib, f, src), srcPort, Shown(lib, f, dst), dstPort, |header|)
  {
    var header := WriteV2(local, f, transport, src, dst, srcPort, dstPort, extensions);
    var block := Block(f, src, dst, srcPort, dstPort, extensions);
    var head := V2_SIGNATURE + [if local then 32 else 33, Code(f) * 16 + transport];
    V2Layout(head, |block|, block, rest);
    BlockRoundTrip(lib, local, f, src, dst, srcPort, dstPort, extensions);
  }

  lemma BlockRoundTrip(lib: Library, local: bool, f: Family, src: Bytes, dst: Bytes, srcPort: nat, dstPort: nat,
                       extensions: Bytes)
    requires srcPort < 65536 && dstPort < 65536 && |src| == |dst| == AddressSize(f)
    ensures
      var block := Block(f, src, dst, srcPort, dstPort, extensions);
      ParseAddresses(lib, if local then 0 else 1, Code(f), block) ==
        if local || f == Unspecified then DIRECT.(valid := true, headerLength := V2_HEADER + |block|)
        else Result(true, false, Shown(lib, f, src), srcPort, Shown(lib, f, dst), dstPort, V2_HEADER + |block|)
  {
    var block := Block(f, src, dst, srcPort, dstPort, extensions);
    if f != Unspecified {
      var n := AddressSize(f);
      assert block[..n] == src && block[n..2 * n] == dst;
      assert block[2 * n..2 * n + 2] == Port(srcPort) && block[2 * n + 2..2 * n + 4] == Port(dstPort);
      PortRoundTrip(block, 2 * n, srcPort);
      PortRoundTrip(block, 2 * n + 2, dstPort);
    }
  }

  /** A version 1 line of at most 107 bytes is read up to its line end, whatever follows. */
  lemma V1RoundTrip(lib: Library, text: Bytes, rest: Bytes)
    requires |text| <= 99 && forall i :: 0 <= i < |text| ==> text[i] != 13
    ensures Parse(lib, V1_PREFIX + text + [13, 10] + rest) == ParseLine(lib, V1_PREFIX + text)
  {
    var line := V1_PREFIX + text;
    var d := line + [13, 10] + rest;
    assert d[..6] == V1_PREFIX;
    var max := Min(|d|, MAX_LINE);
    assert d[|line|] == 13 && d[|line| + 1] == 10;
    LineEndIsFirst(d, max, 0, |line|);
    var end := LineEnd(d, max, 0);
    V1NoEarlyCr(d, end);
    assert forall k :: 6 <= k < |line| ==> d[k] == text[k - 6];
    assert d[..end] == line;
  }

  /** After the prefix of version 1 the parser waits for a line end exactly as long as 107 bytes hold none. */
  lemma V1WaitsIff(lib: Library, data: Bytes)
    requires StartsWith(data, V1_PREFIX)
    ensures Parse(lib, data).needMore <==>
      |data| < 108 && forall k :: 0 <= k < |data| - 1 ==> !(data[k] == 13 && data[k + 1] == 10)
  {
    var m := Min(|data|, MAX_LINE);
    if k :| 0 <= k < m - 1 && data[k] == 13 && data[k + 1] == 10 {
      LineEndIsFirst(data, m, 0, k);
    }
  }

  /** A version 1 header as section 2.1 of the PROXY protocol specification lays it out. */
  function WriteV1(f: Fields): Bytes { V1_PREFIX + Write(f) + [13, 10] }

  /** The source address is one of the protocol that is named. */
  predicate GoodSource(lib: Library, f: Fields) {
    (f.proto == Ascii("TCP4") && lib.isIpv4(f.src)) || (f.proto == Ascii("TCP6") && lib.isIpv6(f.src))
  }

  /** The low 16 bits of a number. */
  predicate IsLow16(n: nat, p: nat) { p < 0x1_0000 && exists k: nat :: k <= n && n == k * 0x1_0000 + p }

  /** The source as the client and the destination as the server, with their ports in 16 bits. */
  ghost predicate Gives(r: Result, f: Fields, length: nat) {
    && r.valid && !r.needMore && r.headerLength == length
    && r.clientAddr == f.src && r.serverAddr == f.dst
    && IsLow16(f.srcPort, r.clientPort) && IsLow16(f.dstPort, r.serverPort)
    && (f.srcPort < 65536 ==> r.clientPort == f.srcPort) && (f.dstPort < 65536 ==> r.serverPort == f.dstPort)
  }

  /** Parsing what a proxy wrote gives back its addresses and ports, and points at the first byte of the
      connection; a source that is no address of the named protocol is not accepted. */
  lemma V1Inverts(lib: Library, f: Fields, rest: Bytes)
    requires CanWrite(f) && |Write(f)| <= 99 && f.proto != Ascii("UNKNOWN")
    ensures
      var header, r := WriteV1(f), Parse(lib, WriteV1(f) + rest);
      if GoodSource(lib, f) then Gives(r, f, |header|) else r == DIRECT.(headerLength := |header|)
  {
    WriteHasNoZero(f);
    V1RoundTrip(lib, Write(f), rest);
    WrittenLine(lib, f, V1_PREFIX + Write(f));
  }

  lemma WrittenLine(lib: Library, f: Fields, line: Bytes)
    requires CanWrite(f) && f.proto != Ascii("UNKNOWN")
    requires line == V1_PREFIX + Write(f)
    ensures
      if GoodSource(lib, f) then Gives(ParseLine(lib, line), f, |line| + 2)
      else ParseLine(lib, line) == DIRECT.(headerLength := |line| + 2)
  {
    assert line[6..] == Write(f);
    ScanWritten(lib.oddNumber, f);
    NotUnknown(f);
    JudgedByProtocol(lib, f, |line| + 2);
  }

  lemma JudgedByProtocol(lib: Library, f: Fields, length: nat)
    ensures
      if GoodSource(lib, f) then Gives(Judged(lib, f, length), f, length)
      else Judged(lib, f, length) == DIRECT.(headerLength := length)
  {
    TwoProtocols();
    Low16Is(f.srcPort);
    Low16Is(f.dstPort);
  }

  lemma Low16Is(n: nat)
    ensures IsLow16(n, n % 65536)
  {
    assert n == (n / 65536) * 0x1_0000 + n % 65536;
  }

  lemma TwoProtocols()
    ensures Ascii("TCP4") != Ascii("TCP6")
  {
    assert Ascii("TCP4")[3] != Ascii("TCP6")[3];
  }

  lemma NotUnknown(f: Fields)
    requires CanWrite(f) && f.proto != Ascii("UNKNOWN")
    ensures !StartsWith(Write(f), Ascii("UNKNOWN"))
  {
    var n, text := |f.proto|, Write(f);
    assert text[..n] == f.proto && text[n] == SPACE;
    UnknownHasNoSpace();
    if StartsWith(text, Ascii("UNKNOWN")) && n < 7 {
      assert text[..7][n] == text[n];
    }
  }

  lemma UnknownHasNoSpace()
    ensures |Ascii("UNKNOWN")| == 7 && forall i :: 0 <= i < 7 ==> Ascii("UNKNOWN")[i] != SPACE
  {
  }

  /** The scan for the line end in parse_v1. */
  method FindLineEnd(data: Bytes) returns (lineEnd: nat, found: bool)
    ensures found <==> LineEnd(data, Min(|data|, MAX_LINE), 0) >= 0
    ensures found ==> lineEnd == LineEnd(data, Min(|data|, MAX_LINE), 0)
  {
    var maxLine := Min(|data|, MAX_LINE);
    lineEnd, found := 0, false;
    var i := 0;
    while i + 1 < maxLine
      invariant LineEnd(data, maxLine, i) == LineEnd(data, maxLine, 0)
      decreases maxLine - i
    {
      if data[i] == 13 && data[i + 1] == 10 {
        return i, true;
      }
      i := i + 1;
    }
  }
}
