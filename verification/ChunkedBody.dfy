/** Reading the body of an HTTP response (engine/net/Http.cpp). */
module ChunkedBody {
  // The chunked transfer coding of section 7.1 of RFC 9112, and the body of known length.
  // The socket delivers the stream in arbitrary nonempty pieces and then nothing more.  `Read` follows the
  // code piece by piece; `Decode` looks at the whole stream at once and knows nothing of pieces.

  import opened Bits
  import opened Common
  import opened Hexadecimal

  const BUFFER := 8192

  // ----- Lines and sizes

  /** Position of the first CR LF, or -1. */
  function FindCrlf(s: string): (i: int)
    ensures -1 <= i && (i >= 0 ==> i + 2 <= |s| && s[i] == '\r' && s[i + 1] == '\n')
    ensures forall k :: 0 <= k && k + 1 < |s| && (i < 0 || k < i) ==> !(s[k] == '\r' && s[k + 1] == '\n')
  {
    if |s| < 2 then -1
    else if s[0] == '\r' && s[1] == '\n' then 0
    else
      var i := FindCrlf(s[1..]);
      assert forall k :: 1 <= k < |s| ==> s[k] == s[1..][k - 1];
      if i < 0 then -1 else i + 1
  }

  /** The text before the first semicolon. */
  function BeforeSemicolon(s: string): string {
    if s == "" || s[0] == ';' then "" else [s[0]] + BeforeSemicolon(s[1..])
  }

  /** from_chars in base 16 on what precedes the extensions: no digits and a value that does not fit
      64 bits are errors, text after the digits is not. */
  function ParseSize(line: string): Option<nat> {
    var s := BeforeSemicolon(line);
    var n := HexLength(s);
    if n == 0 then None
    else if HexNumber(s[..n]) >= WORD then None
    else Some(HexNumber(s[..n]))
  }

  // ----- The reader, piece by piece

  function Concat(segs: seq<string>): string {
    if segs == [] then "" else segs[0] + Concat(segs[1..])
  }

  /** The received and not yet consumed bytes, and the pieces still to come. */
  datatype Input = Input(pending: string, segs: seq<string>) {
    function All(): string { pending + Concat(segs) }
  }

  /** read_more(needed). */
  function Fetch(x: Input, needed: nat): Input
    decreases |x.segs|
  {
    if |x.pending| >= needed || x.segs == [] then x else Fetch(Input(x.pending + x.segs[0], x.segs[1..]), needed)
  }

  /** Receive until a line is complete. */
  function FetchLine(x: Input): Input
    decreases |x.segs|
  {
    if FindCrlf(x.pending) >= 0 || x.segs == [] then x else FetchLine(Input(x.pending + x.segs[0], x.segs[1..]))
  }

  /** The size needed for a chunk and its CR LF: unsigned addition wraps. */
  function Needed(size: nat): nat { (size + 2) % WORD }

  lemma {:induction false} FetchKeeps(x: Input, needed: nat)
    ensures Fetch(x, needed).All() == x.All()
    ensures |Fetch(x, needed).pending| >= Min(needed, |x.All()|)
    ensures x.pending <= Fetch(x, needed).pending
    ensures |Fetch(x, needed).pending| < needed ==> Fetch(x, needed).segs == []
    decreases |x.segs|
  {
    if !(|x.pending| >= needed || x.segs == []) {
      FetchKeeps(Input(x.pending + x.segs[0], x.segs[1..]), needed);
      assert x.pending + (x.segs[0] + Concat(x.segs[1..])) == x.pending + x.segs[0] + Concat(x.segs[1..]);
    }
  }

  lemma {:induction false} FetchLineKeeps(x: Input)
    ensures FetchLine(x).All() == x.All()
    ensures FindCrlf(FetchLine(x).pending) == FindCrlf(x.All())
    ensures FindCrlf(FetchLine(x).pending) < 0 ==> FetchLine(x).segs == []
    decreases |x.segs|
  {
    if FindCrlf(x.pending) >= 0 {
      FindInPrefix(x.pending, Concat(x.segs));
    } else if x.segs == [] {
      assert x.All() == x.pending;
    } else {
      FetchLineKeeps(Input(x.pending + x.segs[0], x.segs[1..]));
      assert x.pending + (x.segs[0] + Concat(x.segs[1..])) == x.pending + x.segs[0] + Concat(x.segs[1..]);
    }
  }

  /** A line end found stays the first one, whatever follows. */
  lemma FindInPrefix(s: string, more: string)
    requires FindCrlf(s) >= 0
    ensures FindCrlf(s + more) == FindCrlf(s)
  {
    var i, j := FindCrlf(s), FindCrlf(s + more);
    assert (s + more)[i] == '\r' && (s + more)[i + 1] == '\n';
  }

  /** What the next line says: no line yet, no further chunk (the last one, or a size that cannot be
      parsed), or a chunk; with the bytes behind the line. */
  datatype Head = NoLine | Stop(rest: string) | Chunk(size: nat, rest: string)

  function HeadOf(s: string): (h: Head)
    ensures h.Stop? || h.Chunk? ==> |h.rest| + 2 <= |s|
    ensures h.Chunk? ==> 0 < h.size < WORD
    ensures h.NoLine? <==> FindCrlf(s) < 0
  {
    var i := FindCrlf(s);
    if i < 0 then NoLine
    else
      var size := ParseSize(s[..i]);
      if size.None? || size.value == 0 then Stop(s[i + 2..]) else Chunk(size.value, s[i + 2..])
  }

  /** Once a line is there, what it says does not depend on what follows. */
  lemma HeadGrows(s: string, more: string)
    requires FindCrlf(s) >= 0
    ensures !HeadOf(s).NoLine? && HeadOf(s + more) == HeadOf(s).(rest := HeadOf(s).rest + more)
  {
    FindInPrefix(s, more);
    var i := FindCrlf(s);
    assert (s + more)[..i] == s[..i];
    assert (s + more)[i + 2..] == s[i + 2..] + more;
  }

  /** Skip trailer lines up to the empty one. */
  function SkipTrailers(x: Input): Input
    decreases |x.All()|
  {
    var y := FetchLine(x);
    FetchLineKeeps(x);
    var i := FindCrlf(y.pending);
    if i <= 0 then y else SkipTrailers(y.(pending := y.pending[i + 2..]))
  }

  /** The main loop of read_chunked_body, from the body collected so far. */
  function Read(x: Input, body: string): (string, Input)
    decreases |x.All()|
  {
    var y := FetchLine(x);
    FetchLineKeeps(x);
    match HeadOf(y.pending)
    case NoLine => (body, y)
    case Stop(rest) => (body, SkipTrailers(y.(pending := rest)))
    case Chunk(size, rest) =>
      var z := Fetch(y.(pending := rest), Needed(size));
      FetchKeeps(y.(pending := rest), Needed(size));
      var more := body + z.pending[..Min(|z.pending|, size)];
      if |z.pending| < Needed(size) then (more, z)
      else Read(z.(pending := z.pending[Needed(size)..]), more)
  }

  // ----- The whole stream at once

  /** The body and the unconsumed rest, reading sizes as unbounded numbers. */
  function Decode(stream: string): (string, string)
    decreases |stream|
  {
    match HeadOf(stream)
    case NoLine => ("", stream)
    case Stop(rest) => ("", AfterTrailers(rest))
    case Chunk(size, rest) =>
      if |rest| < size + 2 then (rest[..Min(|rest|, size)], rest)
      else (rest[..size] + Decode(rest[size + 2..]).0, Decode(rest[size + 2..]).1)
  }

  function AfterTrailers(stream: string): string
    decreases |stream|
  {
    var i := FindCrlf(stream);
    if i <= 0 then stream else AfterTrailers(stream[i + 2..])
  }

  /** Decoding reaches a size line whose size plus two wraps, with more bytes behind it than the
      wrapped sum asks for. */
  predicate Wraps(stream: string)
    decreases |stream|
  {
    match HeadOf(stream)
    case Chunk(size, rest) =>
      if size + 2 >= WORD then |rest| > Needed(size) else |rest| >= size + 2 && Wraps(rest[size + 2..])
    case _ => false
  }

  /** No size line reached wraps at all. */
  predicate NoWrap(stream: string)
    decreases |stream|
  {
    match HeadOf(stream)
    case Chunk(size, rest) => size + 2 < WORD && (|rest| >= size + 2 ==> NoWrap(rest[size + 2..]))
    case _ => true
  }

  lemma {:induction false} SkipTrailersIsAfterTrailers(x: Input)
    ensures SkipTrailers(x).All() == AfterTrailers(x.All())
    ensures FindCrlf(SkipTrailers(x).pending) == FindCrlf(AfterTrailers(x.All()))
    decreases |x.All()|
  {
    var y := FetchLine(x);
    FetchLineKeeps(x);
    var i := FindCrlf(y.pending);
    if i > 0 {
      var next := y.(pending := y.pending[i + 2..]);
      assert y.All()[i + 2..] == next.All();
      SkipTrailersIsAfterTrailers(next);
    }
  }

  /** What one chunk adds to the body depends only on the stream. */
  lemma ReadChunk(rest: Input, size: nat)
    requires 0 < size < WORD && |rest.All()| < WORD - 2
    requires size + 2 >= WORD ==> |rest.All()| <= Needed(size)
    ensures
      var z := Fetch(rest, Needed(size));
      && (|z.pending| < Needed(size) <==> |rest.All()| < Needed(size))
      && (|z.pending| < Needed(size) ==> z.All() == rest.All())
      && (|z.pending| >= Needed(size) ==> z.(pending := z.pending[Needed(size)..]).All() == rest.All()[Needed(size)..])
      && z.pending[..Min(|z.pending|, size)] == rest.All()[..Min(|rest.All()|, size)]
  {
    FetchKeeps(rest, Needed(size));
    var z := Fetch(rest, Needed(size));
    if z.segs == [] {
      assert z.All() == z.pending;
    }
    assert z.All()[..|z.pending|] == z.pending;
    if |z.pending| >= Needed(size) {
      assert z.All()[Needed(size)..] == z.pending[Needed(size)..] + Concat(z.segs);
    }
  }

  lemma NothingLeft(x: Input, body: string)
    requires x.All() == ""
    ensures Read(x, body).0 == body
  {
    FetchLineKeeps(x);
  }

  lemma LineOf(x: Input)
    ensures
      var y, h := FetchLine(x), HeadOf(FetchLine(x).pending);
      && y.All() == x.All()
      && (if h.NoLine? then HeadOf(x.All()).NoLine?
          else HeadOf(x.All()) == h.(rest := y.(pending := h.rest).All()))
  {
    var y := FetchLine(x);
    FetchLineKeeps(x);
    if FindCrlf(y.pending) >= 0 {
      HeadGrows(y.pending, Concat(y.segs));
    }
  }

  /** However the stream is cut into pieces, the reader returns what decoding the whole stream gives. */
  lemma {:induction false} ReadIsDecode(x: Input, body: string)
    requires |x.All()| < WORD - 2 && !Wraps(x.All())
    ensures Read(x, body).0 == body + Decode(x.All()).0
    ensures NoWrap(x.All()) ==> Read(x, body).1.All() == Decode(x.All()).1
    decreases |x.All()|
  {
    var y := FetchLine(x);
    LineOf(x);
    match HeadOf(y.pending) {
      case NoLine => assert body + "" == body;
      case Stop(rest) =>
        assert body + "" == body;
        SkipTrailersIsAfterTrailers(y.(pending := rest));
      case Chunk(size, rest) =>
        assert Read(x, body) == ReadOn(y.(pending := rest), size, body);
        ReadOnIsDecode(x.All(), y.(pending := rest), size, body);
    }
  }

  lemma DecodeChunk(stream: string, size: nat, rest: string)
    requires HeadOf(stream) == Chunk(size, rest)
    ensures |rest| < size + 2 ==> Decode(stream) == (rest[..Min(|rest|, size)], rest)
    ensures |rest| >= size + 2 ==>
      var next := rest[size + 2..];
      && Decode(stream) == (rest[..size] + Decode(next).0, Decode(next).1)
      && (size + 2 < WORD ==> Wraps(stream) == Wraps(next) && NoWrap(stream) == NoWrap(next))
  {
  }

  lemma {:induction false} ReadOnIsDecode(stream: string, rest: Input, size: nat, body: string)
    requires |stream| < WORD - 2 && !Wraps(stream) && HeadOf(stream) == Chunk(size, rest.All())
    ensures ReadOn(rest, size, body).0 == body + Decode(stream).0
    ensures NoWrap(stream) ==> ReadOn(rest, size, body).1.All() == Decode(stream).1
    decreases |stream|, 0
  {
    DecodeChunk(stream, size, rest.All());
    if size + 2 >= WORD {
      ReadWrapped(rest, size, body);
    } else if |rest.All()| < size + 2 {
      ReadTruncated(rest, size, body);
    } else {
      var next := ReadFull(rest, size, body);
      ReadIsDecode(next, body + rest.All()[..size]);
      Regroup(body, rest.All()[..size], Decode(next.All()).0);
    }
  }

  lemma ReadWrapped(rest: Input, size: nat, body: string)
    requires 0 < size < WORD <= size + 2 && |rest.All()| < WORD - 2 && |rest.All()| <= Needed(size)
    ensures ReadOn(rest, size, body).0 == body + rest.All()[..Min(|rest.All()|, size)]
  {
    ReadChunk(rest, size);
    var z := Fetch(rest, Needed(size));
    if |z.pending| >= Needed(size) {
      NothingLeft(z.(pending := z.pending[Needed(size)..]), body + z.pending[..Min(|z.pending|, size)]);
    }
  }

  lemma ReadTruncated(rest: Input, size: nat, body: string)
    requires 0 < size && size + 2 < WORD && |rest.All()| < size + 2
    ensures ReadOn(rest, size, body).0 == body + rest.All()[..Min(|rest.All()|, size)]
    ensures ReadOn(rest, size, body).1.All() == rest.All()
  {
    assert Needed(size) == size + 2;
    FetchKeeps(rest, size + 2);
    var z := Fetch(rest, size + 2);
    assert |z.pending| <= |z.All()|;
    assert z.All() == z.pending;
  }

  lemma ReadFull(rest: Input, size: nat, body: string) returns (next: Input)
    requires 0 < size && size + 2 < WORD && |rest.All()| >= size + 2
    ensures next.All() == rest.All()[size + 2..]
    ensures ReadOn(rest, size, body) == Read(next, body + rest.All()[..size])
  {
    assert Needed(size) == size + 2;
    FetchKeeps(rest, size + 2);
    var z := Fetch(rest, size + 2);
    next := z.(pending := z.pending[size + 2..]);
    assert z.All()[..size] == z.pending[..size];
    assert z.All()[size + 2..] == next.All();
  }

  /** The reader from a chunk's size line on. */
  function ReadOn(rest: Input, size: nat, body: string): (string, Input) {
    var z := Fetch(rest, Needed(size));
    var more := body + z.pending[..Min(|z.pending|, size)];
    if |z.pending| < Needed(size) then (more, z) else Read(z.(pending := z.pending[Needed(size)..]), more)
  }

  // ----- When the pieces matter

  /** What is appended does not depend on what was collected before. */
  lemma {:induction false} ReadAppends(x: Input, body: string)
    ensures |Read(x, body).0| == |body| + |Read(x, "").0|
    decreases |x.All()|
  {
    var y := FetchLine(x);
    FetchLineKeeps(x);
    match HeadOf(y.pending) {
      case NoLine =>
      case Stop(rest) =>
      case Chunk(size, rest) =>
        var z := Fetch(y.(pending := rest), Needed(size));
        FetchKeeps(y.(pending := rest), Needed(size));
        if |z.pending| >= Needed(size) {
          var more := z.pending[..Min(|z.pending|, size)];
          var next := z.(pending := z.pending[Needed(size)..]);
          ReadAppends(next, body + more);
          ReadAppends(next, "" + more);
        }
    }
  }

  /** Growth of the body when everything is there at once, and when the last byte comes late. */
  function AtOnce(s: string, x: char): nat { |Read(Input(s + [x], []), "").0| }
  function Late(s: string, x: char): nat { |Read(Input(s, [[x]]), "").0| }

  lemma FetchLate(s: string, x: char, needed: nat)
    ensures Fetch(Input(s + [x], []), needed) == Input(s + [x], [])
    ensures Fetch(Input(s, [[x]]), needed) == if |s| >= needed then Input(s, [[x]]) else Input(s + [x], [])
    ensures FetchLine(Input(s + [x], [])) == Input(s + [x], [])
    ensures FetchLine(Input(s, [[x]])) == if FindCrlf(s) >= 0 then Input(s, [[x]]) else Input(s + [x], [])
  {
  }

  /** A line completed only by the very last byte has nothing behind it. */
  lemma LineAtEnd(s: string, x: char)
    requires FindCrlf(s) < 0
    ensures !Wraps(s + [x]) && AtOnce(s, x) == Late(s, x)
  {
    FetchLate(s, x, 0);
    var i := FindCrlf(s + [x]);
    assert i >= 0 ==> i + 2 == |s| + 1;
    assert i >= 0 ==> HeadOf(s + [x]).rest == "";
  }

  /** Delaying the last byte never lengthens the body, and shortens it if a wrapping size is reached. */
  lemma {:induction false} LateIsShorter(s: string, x: char)
    requires |s| + 1 < WORD - 2
    ensures Late(s, x) <= AtOnce(s, x)
    ensures Wraps(s + [x]) ==> Late(s, x) < AtOnce(s, x)
    decreases |s|
  {
    if FindCrlf(s) < 0 {
      LineAtEnd(s, x);
    } else {
      FetchLate(s, x, 0);
      HeadGrows(s, [x]);
      match HeadOf(s) {
        case Stop(rest) =>
        case Chunk(size, rest) => LateChunk(s, x, size, rest);
      }
    }
  }

  /** What a chunk and all that follows add, for the input the reader has after fetching the chunk. */
  function ChunkGrowth(z: Input, size: nat): nat {
    Min(|z.pending|, size)
    + if |z.pending| < Needed(size) then 0 else |Read(z.(pending := z.pending[Needed(size)..]), "").0|
  }

  lemma ReadOnGrowth(rest: Input, size: nat)
    ensures |ReadOn(rest, size, "").0| == ChunkGrowth(Fetch(rest, Needed(size)), size)
  {
    var z := Fetch(rest, Needed(size));
    var more := "" + z.pending[..Min(|z.pending|, size)];
    if |z.pending| >= Needed(size) {
      ReadAppends(z.(pending := z.pending[Needed(size)..]), more);
    }
  }

  lemma GrowthOfChunk(s: string, x: char, size: nat, rest: string)
    requires HeadOf(s) == Chunk(size, rest) && HeadOf(s + [x]) == Chunk(size, rest + [x])
    ensures AtOnce(s, x) == ChunkGrowth(Input(rest + [x], []), size)
    ensures Late(s, x) ==
      ChunkGrowth(if |rest| >= Needed(size) then Input(rest, [[x]]) else Input(rest + [x], []), size)
  {
    FetchLate(s, x, 0);
    FetchLate(rest, x, Needed(size));
    ReadOnGrowth(Input(rest + [x], []), size);
    ReadOnGrowth(Input(rest, [[x]]), size);
    assert Read(Input(s + [x], []), "") == ReadOn(Input(rest + [x], []), size, "");
    assert Read(Input(s, [[x]]), "") == ReadOn(Input(rest, [[x]]), size, "");
  }

  /** With the whole chunk there but for the last byte of the stream. */
  lemma ChunkGrowthLate(rest: string, x: char, size: nat)
    requires |rest| >= Needed(size)
    ensures ChunkGrowth(Input(rest + [x], []), size)
         == Min(|rest| + 1, size) + AtOnce(rest[Needed(size)..], x)
    ensures ChunkGrowth(Input(rest, [[x]]), size) == Min(|rest|, size) + Late(rest[Needed(size)..], x)
  {
    assert (rest + [x])[Needed(size)..] == rest[Needed(size)..] + [x];
  }

  lemma WrapsAt(stream: string, size: nat, rest: string)
    requires HeadOf(stream) == Chunk(size, rest)
    ensures Wraps(stream) ==
      if size + 2 >= WORD then |rest| > Needed(size) else |rest| >= size + 2 && Wraps(rest[size + 2..])
  {
  }

  lemma WrapsReady(stream: string, rest: string, x: char, size: nat)
    requires HeadOf(stream) == Chunk(size, rest + [x]) && |rest| >= Needed(size)
    ensures Wraps(stream) ==> size + 2 >= WORD || Wraps(rest[Needed(size)..] + [x])
  {
    WrapsAt(stream, size, rest + [x]);
    if size + 2 < WORD {
      assert (rest + [x])[size + 2..] == rest[Needed(size)..] + [x];
    }
  }

  lemma WrapsUnready(stream: string, rest: string, x: char, size: nat)
    requires HeadOf(stream) == Chunk(size, rest + [x]) && |rest| < Needed(size)
    ensures !Wraps(stream)
  {
    WrapsAt(stream, size, rest + [x]);
    if size + 2 < WORD && |rest| + 1 >= size + 2 {
      assert (rest + [x])[size + 2..] == "";
      assert HeadOf("").NoLine?;
    }
  }

  lemma {:induction false} LateChunk(s: string, x: char, size: nat, rest: string)
    requires |s| + 1 < WORD - 2 && HeadOf(s) == Chunk(size, rest) && HeadOf(s + [x]) == Chunk(size, rest + [x])
    ensures Late(s, x) <= AtOnce(s, x)
    ensures Wraps(s + [x]) ==> Late(s, x) < AtOnce(s, x)
    decreases |s|, 0
  {
    GrowthOfChunk(s, x, size, rest);
    if |rest| >= Needed(size) {
      ChunkGrowthLate(rest, x, size);
      WrapsReady(s + [x], rest, x, size);
      LateIsShorter(rest[Needed(size)..], x);
    } else {
      WrapsUnready(s + [x], rest, x, size);
    }
  }

  /** `x` is a way for the stream to arrive: at most `carried` bytes read with the headers, then pieces of
      one receive. */
  ghost predicate Delivers(x: Input, stream: string, carried: nat) {
    x.All() == stream && |x.pending| <= carried && Pieces(x.segs)
  }

  /** Each piece is what one receive returns. */
  ghost predicate Pieces(segs: seq<string>) {
    forall i :: 0 <= i < |segs| ==> 1 <= |segs[i]| <= BUFFER
  }

  /** However few bytes can come with the headers, the body depends on nothing but the stream exactly when
      decoding reaches no chunk size within two of 2^64 that has more bytes behind it than the wrapped sum
      asks for. */
  lemma PiecesDoNotMatterIff(stream: string, carried: nat)
    requires |stream| < WORD - 2
    ensures
      (forall x, y :: Delivers(x, stream, carried) && Delivers(y, stream, carried) ==> Read(x, "").0 == Read(y, "").0)
      <==> !Wraps(stream)
  {
    if Wraps(stream) {
      var x, y := PiecesMatter(stream);
      assert Delivers(x, stream, carried) && Delivers(y, stream, carried);
    } else {
      forall x, y | Delivers(x, stream, carried) && Delivers(y, stream, carried) ensures Read(x, "").0 == Read(y, "").0 {
        BodyIsDecode(stream, x);
        BodyIsDecode(stream, y);
      }
    }
  }

  lemma BodyIsDecode(stream: string, x: Input)
    requires |stream| < WORD - 2 && !Wraps(stream) && x.All() == stream
    ensures Read(x, "").0 == Decode(stream).0
  {
    ReadIsDecode(x, "");
    assert "" + Decode(stream).0 == Decode(stream).0;
  }

  // ----- Two deliveries that differ

  /** A text one byte at a time. */
  function Bytewise(s: string): seq<string> {
    if s == "" then [] else [[s[0]]] + Bytewise(s[1..])
  }

  lemma {:induction false} BytewiseFacts(s: string)
    ensures Concat(Bytewise(s)) == s && forall i :: 0 <= i < |Bytewise(s)| ==> |Bytewise(s)[i]| == 1
  {
    if s != "" {
      BytewiseFacts(s[1..]);
    }
  }

  lemma BytewiseFirst(q: string, later: seq<string>)
    requires q != ""
    ensures (Bytewise(q) + later)[0] == [q[0]] && (Bytewise(q) + later)[1..] == Bytewise(q[1..]) + later
  {
  }

  /** Byte by byte the reader receives exactly what it needs. */
  lemma {:induction false} FetchBytewise(p: string, q: string, later: seq<string>)
    ensures Fetch(Input(p, Bytewise(q) + later), |p| + |q|) == Input(p + q, later)
    decreases |q|
  {
    if q == "" {
      assert p + q == p && Bytewise(q) + later == later;
    } else {
      BytewiseFirst(q, later);
      FetchBytewise(p + [q[0]], q[1..], later);
      assert p + [q[0]] + q[1..] == p + q;
    }
  }

  /** No line end before the last two bytes. */
  predicate EndsLine(s: string) { FindCrlf(s) >= 0 && FindCrlf(s) == |s| - 2 }

  lemma NoEndBefore(s: string, n: nat)
    requires EndsLine(s) && n < |s|
    ensures FindCrlf(s[..n]) < 0
  {
    assert forall k :: 0 <= k < n ==> s[..n][k] == s[k];
  }

  lemma {:induction false} LineBytewise(p: string, q: string, later: seq<string>)
    requires EndsLine(p + q)
    ensures FetchLine(Input(p, Bytewise(q) + later)) == Input(p + q, later)
    decreases |q|
  {
    if q == "" {
      assert p + q == p && Bytewise(q) + later == later;
    } else {
      NoEndBefore(p + q, |p|);
      assert (p + q)[..|p|] == p;
      BytewiseFirst(q, later);
      assert p + [q[0]] + q[1..] == p + q;
      LineBytewise(p + [q[0]], q[1..], later);
    }
  }

  /** The first line of a stream, up to its line end, and what it says when it has just arrived with `more`
      behind it. */
  lemma FirstLine(stream: string, more: string) returns (line: string)
    requires HeadOf(stream).Chunk?
    ensures stream == line + HeadOf(stream).rest && EndsLine(line)
    ensures HeadOf(line + more) == Chunk(HeadOf(stream).size, more)
    ensures FindCrlf(line + more) == |line| - 2
  {
    var i := FindCrlf(stream);
    line := stream[..i + 2];
    var j := FindCrlf(line);
    assert line[i] == '\r' && line[i + 1] == '\n';
    FindInPrefix(line, stream[i + 2..]);
    assert line + stream[i + 2..] == stream;
    FindInPrefix(line, more);
    assert (line + more)[..i] == stream[..i] && (line + more)[i + 2..] == more;
  }

  /** Once its size line has arrived, the reader goes on with the chunk. */
  lemma ReadsOn(x: Input, y: Input, size: nat, rest: string, body: string)
    requires y == FetchLine(x) && HeadOf(y.pending) == Chunk(size, rest)
    ensures Read(x, body) == ReadOn(Input(rest, y.segs), size, body)
  {
  }

  /** Byte by byte up to the end of a size line, the reader goes on with the chunk. */
  lemma ReadBytewiseLine(line: string, size: nat, later: seq<string>, body: string)
    requires EndsLine(line) && HeadOf(line) == Chunk(size, "")
    ensures Read(Input("", Bytewise(line) + later), body) == ReadOn(Input("", later), size, body)
  {
    assert "" + line == line;
    LineBytewise("", line, later);
    ReadsOn(Input("", Bytewise(line) + later), Input(line, later), size, "", body);
  }

  /** And byte by byte up to the end of what it takes for the chunk, it goes on behind that. */
  lemma ReadBytewiseData(data: string, size: nat, later: seq<string>, body: string)
    requires |data| == Needed(size)
    ensures ReadOn(Input("", Bytewise(data) + later), size, body)
         == Read(Input("", later), body + data[..Min(|data|, size)])
  {
    FetchBytewise("", data, later);
    assert "" + data == data;
    assert data[|data|..] == "";
  }

  lemma JoinPieces(front: string, later: seq<string>)
    requires Pieces(later)
    ensures Concat(Bytewise(front) + later) == front + Concat(later) && Pieces(Bytewise(front) + later)
  {
    BytewiseFacts(front);
    ConcatJoins(Bytewise(front), later);
  }

  lemma ReadBytewiseChunk(line: string, data: string, size: nat, later: seq<string>)
    requires EndsLine(line) && HeadOf(line) == Chunk(size, "") && |data| == Needed(size)
    ensures |Read(Input("", Bytewise(line) + (Bytewise(data) + later)), "").0|
         == Min(|data|, size) + |Read(Input("", later), "").0|
  {
    ReadBytewiseLine(line, size, Bytewise(data) + later, "");
    ReadBytewiseData(data, size, later, "");
    ReadAppends(Input("", later), "" + data[..Min(|data|, size)]);
  }

  /** A delivery of one chunk byte by byte, and then of what follows. */
  lemma ReadBytewise(stream: string, size: nat, rest: string, later: seq<string>) returns (segs: seq<string>)
    requires HeadOf(stream) == Chunk(size, rest) && |rest| >= Needed(size)
    requires Concat(later) == rest[Needed(size)..] && Pieces(later)
    ensures Concat(segs) == stream && Pieces(segs)
    ensures |Read(Input("", segs), "").0| == Min(Needed(size), size) + |Read(Input("", later), "").0|
  {
    var line := FirstLine(stream, "");
    assert line + "" == line;
    var data := rest[..Needed(size)];
    assert data + Concat(later) == rest;
    segs := JoinChunk(line, data, later);
    ReadBytewiseChunk(line, data, size, later);
  }

  lemma JoinChunk(line: string, data: string, later: seq<string>) returns (segs: seq<string>)
    requires Pieces(later)
    ensures segs == Bytewise(line) + (Bytewise(data) + later)
    ensures Concat(segs) == line + (data + Concat(later)) && Pieces(segs)
  {
    segs := Bytewise(line) + (Bytewise(data) + later);
    JoinPieces(data, later);
    JoinPieces(line, Bytewise(data) + later);
  }

  /** The bytes of the line but the last do not end it. */
  lemma FrontOnly(line: string, front: string, later: seq<string>)
    requires EndsLine(line) && front == line[..|line| - 1]
    ensures FindCrlf(front) < 0 && FetchLine(Input("", Bytewise(front) + later)) == FetchLine(Input(front, later))
  {
    NoEndBefore(line, |line| - 1);
    assert "" + front == front == line[..|front|];
    LinePieces("", front, later, line);
  }

  /** The bytes of the line but the last, then its last byte together with `more`. */
  lemma LineWithMore(line: string, more: string, later: seq<string>)
    requires EndsLine(line) && FindCrlf(line + more) >= 0
    ensures FetchLine(Input("", Bytewise(line[..|line| - 1]) + ([line[|line| - 1..] + more] + later)))
         == Input(line + more, later)
  {
    var front, last := line[..|line| - 1], line[|line| - 1..] + more;
    FrontOnly(line, front, [last] + later);
    assert front + last == line + more;
    LastPiece(front, last, later);
  }

  lemma LastPiece(front: string, last: string, later: seq<string>)
    ensures FindCrlf(front) < 0 && FindCrlf(front + last) >= 0 ==>
      FetchLine(Input(front, [last] + later)) == Input(front + last, later)
  {
    assert ([last] + later)[0] == last && ([last] + later)[1..] == later;
  }

  /** Bytes before a line end only add to what is pending. */
  lemma {:induction false} LinePieces(p: string, q: string, later: seq<string>, line: string)
    requires EndsLine(line) && |p + q| < |line| && p + q == line[..|p + q|]
    ensures FetchLine(Input(p, Bytewise(q) + later)) == FetchLine(Input(p + q, later))
    decreases |q|
  {
    if q == "" {
      assert p + q == p && Bytewise(q) + later == later;
    } else {
      NoEndBefore(line, |p|);
      assert line[..|p|] == (p + q)[..|p|] == p;
      BytewiseFirst(q, later);
      assert p + [q[0]] + q[1..] == p + q;
      LinePieces(p + [q[0]], q[1..], later, line);
    }
  }

  lemma WrappedSmall(size: nat)
    requires size < WORD <= size + 2
    ensures Needed(size) == size + 2 - WORD <= 1
  {
  }

  lemma ReadOnMore(size: nat, more: string, later: seq<string>)
    requires size < WORD <= size + 2 && |more| == Needed(size) + 1
    ensures ReadOn(Input(more, later), size, "") == Read(Input(more[Needed(size)..], later), more)
  {
    WrappedSmall(size);
    assert "" + more[..|more|] == more;
  }

  lemma BodyThenDecode(x: Input, stream: string, body: string)
    requires x.All() == stream && |stream| < WORD - 2 && !Wraps(stream)
    ensures |Read(x, body).0| == |body| + |Decode(stream).0|
  {
    ReadIsDecode(x, body);
  }

  /** At a wrapping size one more byte behind the line is one more byte of the body. */
  lemma ReadOneMore(line: string, more: string, size: nat, later: seq<string>, behind: string)
    requires EndsLine(line) && HeadOf(line + more) == Chunk(size, more) && FindCrlf(line + more) == |line| - 2
    requires size < WORD <= size + 2 && |more| == Needed(size) + 1
    requires behind == more[Needed(size)..] + Concat(later) && |behind| < WORD - 2 && !Wraps(behind)
    ensures |Read(Input("", Bytewise(line[..|line| - 1]) + ([line[|line| - 1..] + more] + later)), "").0|
         == |more| + |Decode(behind).0|
  {
    LineWithMore(line, more, later);
    var segs := Bytewise(line[..|line| - 1]) + ([line[|line| - 1..] + more] + later);
    ReadsOn(Input("", segs), Input(line + more, later), size, more, "");
    ReadOnMore(size, more, later);
    BodyThenDecode(Input(more[Needed(size)..], later), behind, more);
  }

  lemma JoinPiece(last: string, later: seq<string>)
    requires Pieces(later) && 1 <= |last| <= BUFFER
    ensures Concat([last] + later) == last + Concat(later) && Pieces([last] + later)
  {
    assert ([last] + later)[1..] == later;
  }

  lemma SplitBehind(rest: string, n: nat) returns (more: string, last: string)
    requires n < |rest|
    ensures |more| == n + 1 && rest == more + last && rest[n..] == more[n..] + last
  {
    more, last := rest[..n + 1], rest[n + 1..];
  }

  /** A delivery in which the last byte of the size line comes with one byte more than the wrapped sum
      asks for. */
  lemma DeliverOneMore(stream: string, size: nat, rest: string, behind: string) returns (segs: seq<string>)
    requires |stream| < WORD - 2 && HeadOf(stream) == Chunk(size, rest) && size < WORD <= size + 2
    requires |rest| > Needed(size) && behind == rest[Needed(size)..] && !Wraps(behind)
    ensures Concat(segs) == stream && Pieces(segs)
    ensures |Read(Input("", segs), "").0| == Needed(size) + 1 + |Decode(behind).0|
  {
    WrappedSmall(size);
    var more, last := SplitBehind(rest, Needed(size));
    var line := FirstLine(stream, more);
    segs := DeliverMore(line, more, last, size, behind);
  }

  lemma DeliverMore(line: string, more: string, last: string, size: nat, behind: string) returns (segs: seq<string>)
    requires EndsLine(line) && HeadOf(line + more) == Chunk(size, more) && FindCrlf(line + more) == |line| - 2
    requires size < WORD <= size + 2 && |more| == Needed(size) + 1 <= 2
    requires behind == more[Needed(size)..] + last && |behind| < WORD - 2 && !Wraps(behind)
    ensures Concat(segs) == line + (more + last) && Pieces(segs)
    ensures |Read(Input("", segs), "").0| == |more| + |Decode(behind).0|
  {
    JoinsOneMore(line, more, last);
    ReadOneMore(line, more, size, Bytewise(last), behind);
    segs := Bytewise(line[..|line| - 1]) + ([line[|line| - 1..] + more] + Bytewise(last));
  }

  lemma JoinsOneMore(line: string, more: string, behind: string)
    requires line != "" && |more| <= 2
    ensures
      var segs := Bytewise(line[..|line| - 1]) + ([line[|line| - 1..] + more] + Bytewise(behind));
      Concat(segs) == line + (more + behind) && Pieces(segs) && Concat(Bytewise(behind)) == behind
  {
    var front, last := line[..|line| - 1], line[|line| - 1..] + more;
    BytewiseFacts(behind);
    JoinPiece(last, Bytewise(behind));
    JoinPieces(front, [last] + Bytewise(behind));
    assert front + last == line + more;
    Regroup(front, last, behind);
    Regroup(line, more, behind);
  }

  lemma Carried(segs: seq<string>, stream: string)
    requires Concat(segs) == stream && Pieces(segs)
    ensures Delivers(Input("", segs), stream, 0)
  {
    assert "" + stream == stream;
  }

  /** Two ways for the stream to arrive whose bodies differ in length. */
  ghost predicate Differ(stream: string, a: seq<string>, b: seq<string>) {
    && Concat(a) == Concat(b) == stream && Pieces(a) && Pieces(b)
    && |Read(Input("", a), "").0| != |Read(Input("", b), "").0|
  }

  lemma NeededIs(size: nat)
    requires size < WORD
    ensures Needed(size) == if size + 2 < WORD then size + 2 else size + 2 - WORD
  {
  }

  lemma WrapsNeeds(stream: string, size: nat, rest: string)
    requires HeadOf(stream) == Chunk(size, rest) && size < WORD && Wraps(stream)
    ensures Needed(size) <= |rest|
    ensures size + 2 < WORD ==> Wraps(rest[Needed(size)..])
    ensures size + 2 >= WORD ==> |rest| > Needed(size)
  {
    NeededIs(size);
    WrapsAt(stream, size, rest);
  }

  /** A stream that wraps comes to a chunk: either the rest behind it wraps, or this chunk does. */
  lemma WrapCase(stream: string) returns (size: nat, rest: string, behind: string, here: bool)
    requires Wraps(stream)
    ensures HeadOf(stream) == Chunk(size, rest) && Needed(size) <= |rest| && behind == rest[Needed(size)..]
    ensures |behind| < |stream| && (here <==> !Wraps(behind))
    ensures here ==> size < WORD <= size + 2 && |rest| > Needed(size)
  {
    size, rest := FirstChunkOf(stream);
    WrapsNeeds(stream, size, rest);
    behind := rest[Needed(size)..];
    here := !Wraps(behind);
  }

  lemma FirstChunkOf(stream: string) returns (size: nat, rest: string)
    requires Wraps(stream)
    ensures HeadOf(stream) == Chunk(size, rest) && size < WORD && |rest| < |stream|
  {
    size, rest := HeadOf(stream).size, HeadOf(stream).rest;
  }

  lemma DifferBehind(stream: string, size: nat, rest: string, behind: string, u: seq<string>, v: seq<string>)
    returns (a: seq<string>, b: seq<string>)
    requires HeadOf(stream) == Chunk(size, rest) && Needed(size) <= |rest| && behind == rest[Needed(size)..]
    requires Differ(behind, u, v)
    ensures Differ(stream, a, b)
  {
    a := ReadBytewise(stream, size, rest, u);
    b := ReadBytewise(stream, size, rest, v);
  }

  lemma DifferHere(stream: string, size: nat, rest: string, behind: string) returns (a: seq<string>, b: seq<string>)
    requires |stream| < WORD - 2 && HeadOf(stream) == Chunk(size, rest) && size < WORD <= size + 2
    requires |rest| > Needed(size) && behind == rest[Needed(size)..] && !Wraps(behind)
    ensures Differ(stream, a, b)
  {
    BytewiseFacts(behind);
    a := ReadBytewise(stream, size, rest, Bytewise(behind));
    assert "" + behind == behind;
    BodyThenDecode(Input("", Bytewise(behind)), behind, "");
    WrappedSmall(size);
    b := DeliverOneMore(stream, size, rest, behind);
  }

  lemma {:induction false} SegsMatter(stream: string) returns (a: seq<string>, b: seq<string>)
    requires |stream| < WORD - 2 && Wraps(stream)
    ensures Differ(stream, a, b)
    decreases |stream|
  {
    var size, rest, behind, here := WrapCase(stream);
    if here {
      a, b := DifferHere(stream, size, rest, behind);
    } else {
      a, b := SegsMatter(behind);
      a, b := DifferBehind(stream, size, rest, behind, a, b);
    }
  }

  /** Two deliveries of such a stream that give different bodies, with nothing but the headers read
      before. */
  lemma PiecesMatter(stream: string) returns (x: Input, y: Input)
    requires |stream| < WORD - 2 && Wraps(stream)
    ensures Delivers(x, stream, 0) && Delivers(y, stream, 0) && Read(x, "").0 != Read(y, "").0
  {
    var a, b := SegsMatter(stream);
    Carried(a, stream);
    Carried(b, stream);
    x, y := Input("", a), Input("", b);
  }

  // ----- The reader inverts every encoder

  const CRLF := "\r\n"

  /** A chunk as a sender may write it: any hexadecimal form of the size, any extension text. */
  datatype Piece = Piece(digits: string, ext: string, data: string) {
    predicate Valid() {
      && digits != "" && Writes(digits, |data|)
      && FindCrlf(ext) < 0 && (ext == "" || !IsHex(ext[0]))
    }
    function Line(): string { digits + ext }
  }

  /** Data chunks, the last chunk, and trailer lines. */
  datatype Message = Message(chunks: seq<Piece>, last: Piece, trailers: seq<string>) {
    predicate Valid() {
      && (forall i :: 0 <= i < |chunks| ==> chunks[i].Valid() && chunks[i].data != "")
      && last.Valid() && last.data == ""
      && (forall i :: 0 <= i < |trailers| ==> trailers[i] != "" && FindCrlf(trailers[i]) < 0)
    }
  }

  function EncodeChunks(chunks: seq<Piece>): string {
    if chunks == [] then "" else chunks[0].Line() + CRLF + chunks[0].data + CRLF + EncodeChunks(chunks[1..])
  }

  function EncodeTrailers(trailers: seq<string>): string {
    if trailers == [] then CRLF else trailers[0] + CRLF + EncodeTrailers(trailers[1..])
  }

  function Encode(m: Message): string {
    EncodeChunks(m.chunks) + (m.last.Line() + CRLF + EncodeTrailers(m.trailers))
  }

  function Body(chunks: seq<Piece>): string {
    if chunks == [] then "" else chunks[0].data + Body(chunks[1..])
  }

  lemma LineEnds(line: string, more: string)
    requires FindCrlf(line) < 0
    ensures FindCrlf(line + CRLF + more) == |line|
    ensures (line + CRLF + more)[..|line|] == line && (line + CRLF + more)[|line| + 2..] == more
  {
    var s := line + CRLF + more;
    assert s[|line|] == '\r' && s[|line| + 1] == '\n';
  }

  lemma DigitsPrefix(digits: string, ext: string)
    requires forall i :: 0 <= i < |digits| ==> IsHex(digits[i])
    requires ext == "" || !IsHex(ext[0])
    ensures BeforeSemicolon(digits + ext) == digits + BeforeSemicolon(ext)
    ensures HexLength(digits + BeforeSemicolon(ext)) == |digits|
  {
    DigitsKept(digits, ext);
    DigitsCounted(digits, BeforeSemicolon(ext));
  }

  lemma {:induction false} DigitsKept(digits: string, ext: string)
    requires forall i :: 0 <= i < |digits| ==> IsHex(digits[i])
    ensures BeforeSemicolon(digits + ext) == digits + BeforeSemicolon(ext)
  {
    if digits == "" {
      assert digits + ext == ext && digits + BeforeSemicolon(ext) == BeforeSemicolon(ext);
    } else {
      DigitsKept(digits[1..], ext);
      assert (digits + ext)[1..] == digits[1..] + ext;
      assert [digits[0]] + (digits[1..] + BeforeSemicolon(ext)) == digits + BeforeSemicolon(ext);
    }
  }

  lemma {:induction false} DigitsCounted(digits: string, ext: string)
    requires forall i :: 0 <= i < |digits| ==> IsHex(digits[i])
    requires ext == "" || !IsHex(ext[0])
    ensures HexLength(digits + ext) == |digits|
  {
    if digits == "" {
      assert digits + ext == ext;
    } else {
      DigitsCounted(digits[1..], ext);
      assert (digits + ext)[1..] == digits[1..] + ext;
    }
  }

  lemma HeadOfPiece(p: Piece, more: string)
    requires p.Valid() && |p.data| < WORD
    ensures HeadOf(p.Line() + CRLF + more) == if p.data == "" then Stop(more) else Chunk(|p.data|, more)
  {
    var line := p.Line();
    ReadsIff(p.digits, |p.data|);
    NoCrlfInLine(p);
    LineEnds(line, more);
    DigitsPrefix(p.digits, p.ext);
    assert (p.digits + BeforeSemicolon(p.ext))[..|p.digits|] == p.digits;
  }

  lemma NoCrlfInLine(p: Piece)
    requires p.Valid()
    ensures FindCrlf(p.Line()) < 0
  {
    ReadsIff(p.digits, |p.data|);
  }

  lemma {:induction false} TrailersSkipped(trailers: seq<string>, tail: string)
    requires forall i :: 0 <= i < |trailers| ==> trailers[i] != "" && FindCrlf(trailers[i]) < 0
    ensures AfterTrailers(EncodeTrailers(trailers) + tail) == CRLF + tail
  {
    if trailers == [] {
      LineEnds("", tail);
      assert "" + CRLF + tail == CRLF + tail;
    } else {
      var more := EncodeTrailers(trailers[1..]) + tail;
      LineEnds(trailers[0], more);
      Regroup(trailers[0] + CRLF, EncodeTrailers(trailers[1..]), tail);
      TrailersSkipped(trailers[1..], tail);
    }
  }

  lemma DecodeLast(m: Message, tail: string)
    requires m.Valid() && |Encode(m)| < WORD - 2 && m.chunks == []
    ensures Decode(Encode(m) + tail) == ("", CRLF + tail) && NoWrap(Encode(m) + tail)
  {
    var more := EncodeTrailers(m.trailers) + tail;
    assert Encode(m) + tail == m.last.Line() + CRLF + more;
    HeadOfPiece(m.last, more);
    TrailersSkipped(m.trailers, tail);
  }

  lemma {:induction false} DecodeEncoded(m: Message, tail: string)
    requires m.Valid() && |Encode(m)| < WORD - 2
    ensures Decode(Encode(m) + tail) == (Body(m.chunks), CRLF + tail)
    ensures NoWrap(Encode(m) + tail)
    decreases |m.chunks|
  {
    if m.chunks == [] {
      DecodeLast(m, tail);
    } else {
      var c, rest := m.chunks[0], m.(chunks := m.chunks[1..]);
      FirstChunk(m, tail);
      DecodeEncoded(rest, tail);
      DecodePiece(c, Encode(rest) + tail);
    }
  }

  lemma DecodePiece(c: Piece, next: string)
    requires c.Valid() && c.data != "" && |c.data| + 2 < WORD
    ensures
      var stream := c.Line() + CRLF + (c.data + CRLF + next);
      Decode(stream) == (c.data + Decode(next).0, Decode(next).1) && (NoWrap(next) ==> NoWrap(stream))
  {
    var more := c.data + CRLF + next;
    HeadOfPiece(c, more);
    assert more[..|c.data|] == c.data && more[|c.data| + 2..] == next;
    DecodeChunk(c.Line() + CRLF + more, |c.data|, more);
  }

  lemma FirstChunk(m: Message, tail: string)
    requires m.chunks != []
    ensures
      var c, rest := m.chunks[0], m.(chunks := m.chunks[1..]);
      && Encode(m) + tail == c.Line() + CRLF + (c.data + CRLF + (Encode(rest) + tail))
      && |Encode(m)| == |c.Line()| + 4 + |c.data| + |Encode(rest)|
  {
    var c, rest := m.chunks[0], m.(chunks := m.chunks[1..]);
    var end := m.last.Line() + CRLF + EncodeTrailers(m.trailers);
    var front := c.Line() + CRLF + c.data + CRLF;
    Regroup(front, EncodeChunks(rest.chunks), end);
    Regroup(front, Encode(rest), tail);
    var next := Encode(rest) + tail;
    assert front + next == c.Line() + CRLF + (c.data + CRLF + next);
  }

  lemma {:induction false} NoWrapDoesNotWrap(stream: string)
    requires NoWrap(stream)
    ensures !Wraps(stream)
    decreases |stream|
  {
    match HeadOf(stream) {
      case Chunk(size, rest) => if |rest| >= size + 2 { NoWrapDoesNotWrap(rest[size + 2..]); }
      case _ =>
    }
  }

  lemma {:induction false} ReadStopsAtLine(x: Input, body: string)
    ensures FindCrlf(Read(x, body).1.pending) >= 0 || Read(x, body).1.segs == []
    decreases |x.All()|
  {
    var y := FetchLine(x);
    FetchLineKeeps(x);
    match HeadOf(y.pending) {
      case NoLine =>
      case Stop(rest) => SkipStopsAtLine(y.(pending := rest));
      case Chunk(size, rest) =>
        var z := Fetch(y.(pending := rest), Needed(size));
        FetchKeeps(y.(pending := rest), Needed(size));
        if |z.pending| >= Needed(size) {
          ReadStopsAtLine(z.(pending := z.pending[Needed(size)..]), body + z.pending[..Min(|z.pending|, size)]);
        }
    }
  }

  lemma {:induction false} SkipStopsAtLine(x: Input)
    ensures FindCrlf(SkipTrailers(x).pending) >= 0 || SkipTrailers(x).segs == []
    decreases |x.All()|
  {
    var y := FetchLine(x);
    FetchLineKeeps(x);
    var i := FindCrlf(y.pending);
    if i > 0 {
      SkipStopsAtLine(y.(pending := y.pending[i + 2..]));
    }
  }

  // ----- What is left in the socket

  /** `a` is what remains of `b` once some pieces have been received. */
  predicate Remains(a: seq<string>, b: seq<string>) {
    |a| <= |b| && a == b[|b| - |a|..]
  }

  lemma RemainsOfRest(a: seq<string>, b: seq<string>)
    requires b != [] && Remains(a, b[1..])
    ensures Remains(a, b)
  {
    assert b[1..][|b[1..]| - |a|..] == b[|b| - |a|..];
  }

  lemma RemainsTwice(a: seq<string>, b: seq<string>, c: seq<string>)
    requires Remains(a, b) && Remains(b, c)
    ensures Remains(a, c)
  {
    assert c[|c| - |b|..][|b| - |a|..] == c[|c| - |a|..];
  }

  lemma {:induction false} FetchRemains(x: Input, needed: nat)
    ensures Remains(Fetch(x, needed).segs, x.segs) && Remains(FetchLine(x).segs, x.segs)
    decreases |x.segs|
  {
    if x.segs != [] {
      FetchRemains(Input(x.pending + x.segs[0], x.segs[1..]), needed);
      if |x.pending| < needed {
        RemainsOfRest(Fetch(x, needed).segs, x.segs);
      }
      if FindCrlf(x.pending) < 0 {
        RemainsOfRest(FetchLine(x).segs, x.segs);
      }
    }
  }

  /** The input behind a line. */
  function NextLine(y: Input, i: int): Input
    requires 0 <= i && i + 2 <= |y.pending|
  {
    y.(pending := y.pending[i + 2..])
  }

  /** One line of the trailers, for the input with that line received. */
  lemma SkipOnce(x: Input, y: Input) returns (i: int)
    requires y == FetchLine(x)
    ensures y.All() == x.All() && i == FindCrlf(y.pending) == FindCrlf(x.All())
    ensures i <= 0 ==> SkipTrailers(x) == y
    ensures i > 0 ==>
      SkipTrailers(x) == SkipTrailers(NextLine(y, i))
      && NextLine(y, i).All() == x.All()[i + 2..] && |NextLine(y, i).All()| < |x.All()|
  {
    FetchLineKeeps(x);
    i := FindCrlf(y.pending);
    if i > 0 {
      assert y.All()[i + 2..] == NextLine(y, i).All();
    }
  }

  lemma {:induction false} SkipRemains(x: Input)
    ensures Remains(SkipTrailers(x).segs, x.segs)
    decreases |x.All()|
  {
    var y := FetchLine(x);
    var i := SkipOnce(x, y);
    FetchRemains(x, 0);
    if i > 0 {
      SkipRemains(NextLine(y, i));
      RemainsTwice(SkipTrailers(x).segs, y.segs, x.segs);
    }
  }

  lemma {:induction false} ReadRemains(x: Input, body: string)
    ensures Remains(Read(x, body).1.segs, x.segs)
    decreases |x.All()|, 1
  {
    var y := FetchLine(x);
    FetchLineKeeps(x);
    FetchRemains(x, 0);
    match HeadOf(y.pending) {
      case NoLine =>
      case Stop(rest) =>
        var trailers := y.(pending := rest);
        assert Read(x, body) == (body, SkipTrailers(trailers));
        SkipRemains(trailers);
        RemainsTwice(SkipTrailers(trailers).segs, y.segs, x.segs);
      case Chunk(size, rest) =>
        var chunk := y.(pending := rest);
        var read := ReadOn(chunk, size, body);
        assert Read(x, body) == read;
        ReadOnRemains(chunk, size, body);
        RemainsTwice(read.1.segs, y.segs, x.segs);
    }
  }

  lemma {:induction false} ReadOnRemains(rest: Input, size: nat, body: string)
    requires size > 0
    ensures Remains(ReadOn(rest, size, body).1.segs, rest.segs)
    decreases |rest.All()|, 2
  {
    var z := Fetch(rest, Needed(size));
    FetchKeeps(rest, Needed(size));
    FetchRemains(rest, Needed(size));
    if |z.pending| >= Needed(size) {
      var next, more := z.(pending := z.pending[Needed(size)..]), body + z.pending[..Min(|z.pending|, size)];
      ReadRemains(next, more);
      RemainsTwice(Read(next, more).1.segs, z.segs, rest.segs);
    }
  }

  /** The same input with further pieces to come behind. */
  function Followed(x: Input, later: seq<string>): Input { Input(x.pending, x.segs + later) }

  lemma {:induction false} FetchFollowed(x: Input, later: seq<string>, needed: nat)
    requires |x.All()| >= needed
    ensures Fetch(Followed(x, later), needed) == Followed(Fetch(x, needed), later)
    decreases |x.segs|
  {
    if |x.pending| < needed {
      assert x.segs == [] ==> x.All() == x.pending;
      var y := OnePiece(x, later);
      FetchFollowed(y, later, needed);
    }
  }

  /** One more piece in front of the others. */
  lemma OnePiece(x: Input, later: seq<string>) returns (y: Input)
    requires x.segs != []
    ensures y == Input(x.pending + x.segs[0], x.segs[1..]) && y.All() == x.All()
    ensures Followed(y, later) == Input(x.pending + x.segs[0], Followed(x, later).segs[1..])
    ensures Followed(x, later).segs[0] == x.segs[0]
  {
    y := Input(x.pending + x.segs[0], x.segs[1..]);
    Regroup(x.pending, x.segs[0], Concat(x.segs[1..]));
    assert (x.segs + later)[1..] == x.segs[1..] + later;
  }

  lemma {:induction false} LineFollowed(x: Input, later: seq<string>)
    requires FindCrlf(x.All()) >= 0
    ensures FetchLine(Followed(x, later)) == Followed(FetchLine(x), later)
    decreases |x.segs|
  {
    if FindCrlf(x.pending) < 0 {
      assert x.segs == [] ==> x.All() == x.pending;
      var y := OnePiece(x, later);
      LineFollowed(y, later);
    }
  }

  lemma TrailersAt(stream: string)
    ensures
      var i := FindCrlf(stream);
      AfterTrailers(stream) == if i <= 0 then stream else AfterTrailers(stream[i + 2..])
  {
  }

  /** One line of the trailers, with and without further pieces behind. */
  lemma SkipBoth(x: Input, later: seq<string>) returns (done: bool, next: Input)
    requires FindCrlf(AfterTrailers(x.All())) >= 0
    ensures done ==> SkipTrailers(Followed(x, later)) == Followed(SkipTrailers(x), later)
    ensures !done ==>
      && SkipTrailers(x) == SkipTrailers(next)
      && SkipTrailers(Followed(x, later)) == SkipTrailers(Followed(next, later))
      && FindCrlf(AfterTrailers(next.All())) >= 0 && |next.All()| < |x.All()|
  {
    var y := FetchLine(x);
    var i := SkipOnce(x, y);
    TrailersAt(x.All());
    LineFollowed(x, later);
    var j := SkipOnce(Followed(x, later), Followed(y, later));
    done, next := i == 0, if i == 0 then y else NextLine(y, i);
  }

  lemma {:induction false} SkipFollowed(x: Input, later: seq<string>)
    requires FindCrlf(AfterTrailers(x.All())) >= 0
    ensures SkipTrailers(Followed(x, later)) == Followed(SkipTrailers(x), later)
    decreases |x.All()|
  {
    var done, next := SkipBoth(x, later);
    if !done {
      SkipFollowed(next, later);
    }
  }

  /** The stream holds a whole message: decoding comes to the empty line behind the last chunk. */
  predicate Ends(stream: string)
    decreases |stream|
  {
    match HeadOf(stream)
    case NoLine => false
    case Stop(rest) => FindCrlf(AfterTrailers(rest)) >= 0
    case Chunk(size, rest) => size + 2 < WORD && |rest| >= size + 2 && Ends(rest[size + 2..])
  }

  /** The reader never receives a piece it does not need: after a whole message it has taken none of the
      pieces that follow. */
  lemma {:induction false} ReadFollowed(x: Input, later: seq<string>, body: string)
    requires Ends(x.All())
    ensures Read(Followed(x, later), body) == (Read(x, body).0, Followed(Read(x, body).1, later))
    decreases |x.All()|
  {
    var y := FetchLine(x);
    LineOf(x);
    LineFollowed(x, later);
    match HeadOf(y.pending) {
      case NoLine => assert false;
      case Stop(rest) => SkipFollowed(y.(pending := rest), later);
      case Chunk(size, rest) => ChunkFollowed(x, y.(pending := rest), later, size, body);
    }
  }

  lemma EndsAt(stream: string, size: nat, rest: string)
    requires HeadOf(stream) == Chunk(size, rest)
    ensures Ends(stream) == (size + 2 < WORD && |rest| >= size + 2 && Ends(rest[size + 2..]))
    ensures size > 0 && |rest| < |stream|
  {
  }

  /** The input behind a chunk that has arrived. */
  function Behind(z: Input, size: nat): Input
    requires |z.pending| >= size + 2
  {
    z.(pending := z.pending[size + 2..])
  }

  lemma ReadOnFull(rest: Input, size: nat, body: string)
    requires size + 2 < WORD && |Fetch(rest, size + 2).pending| >= size + 2
    ensures
      var z := Fetch(rest, size + 2);
      ReadOn(rest, size, body) == Read(Behind(z, size), body + z.pending[..size])
  {
    assert Needed(size) == size + 2;
  }

  lemma BehindAll(rest: Input, size: nat) returns (z: Input)
    requires |rest.All()| >= size + 2
    ensures z == Fetch(rest, size + 2) && |z.pending| >= size + 2
    ensures Behind(z, size).All() == rest.All()[size + 2..]
  {
    FetchKeeps(rest, size + 2);
    z := Fetch(rest, size + 2);
    assert z.All()[size + 2..] == Behind(z, size).All();
  }

  lemma {:induction false} ChunkFollowed(x: Input, rest: Input, later: seq<string>, size: nat, body: string)
    requires HeadOf(x.All()) == Chunk(size, rest.All()) && Ends(x.All())
    ensures ReadOn(Followed(rest, later), size, body)
         == (ReadOn(rest, size, body).0, Followed(ReadOn(rest, size, body).1, later))
    decreases |x.All()|, 0
  {
    EndsAt(x.All(), size, rest.All());
    var z := BehindAll(rest, size);
    FetchFollowed(rest, later, size + 2);
    ReadOnFull(rest, size, body);
    ReadOnFull(Followed(rest, later), size, body);
    ReadFollowed(Behind(z, size), later, body + z.pending[..size]);
  }

  lemma StopEnds(stream: string, rest: string)
    requires HeadOf(stream) == Stop(rest) && AfterTrailers(rest) == CRLF
    ensures Ends(stream)
  {
    assert FindCrlf(CRLF) == 0;
  }

  lemma LastHead(m: Message)
    requires m.Valid() && |Encode(m)| < WORD - 2 && m.chunks == []
    ensures HeadOf(Encode(m)) == Stop(EncodeTrailers(m.trailers))
  {
    HeadOfPiece(m.last, EncodeTrailers(m.trailers));
    var line := m.last.Line() + CRLF;
    assert Encode(m) == "" + (line + EncodeTrailers(m.trailers)) == line + EncodeTrailers(m.trailers);
  }

  lemma TrailersEnd(m: Message)
    requires m.Valid()
    ensures AfterTrailers(EncodeTrailers(m.trailers)) == CRLF
  {
    TrailersSkipped(m.trailers, "");
    assert EncodeTrailers(m.trailers) + "" == EncodeTrailers(m.trailers) && CRLF + "" == CRLF;
  }

  lemma LastEnds(m: Message)
    requires m.Valid() && |Encode(m)| < WORD - 2 && m.chunks == []
    ensures Ends(Encode(m))
  {
    LastHead(m);
    TrailersEnd(m);
    StopEnds(Encode(m), EncodeTrailers(m.trailers));
  }

  lemma PieceEnds(c: Piece, next: string)
    requires c.Valid() && c.data != "" && |c.data| + 2 < WORD && Ends(next)
    ensures Ends(c.Line() + CRLF + (c.data + CRLF + next))
  {
    var more := c.data + CRLF + next;
    HeadOfPiece(c, more);
    assert more[|c.data| + 2..] == next;
    EndsAt(c.Line() + CRLF + more, |c.data|, more);
  }

  lemma {:induction false} EncodedEnds(m: Message)
    requires m.Valid() && |Encode(m)| < WORD - 2
    ensures Ends(Encode(m))
    decreases |m.chunks|
  {
    if m.chunks == [] {
      LastEnds(m);
    } else {
      var c, rest := m.chunks[0], m.(chunks := m.chunks[1..]);
      FirstChunk(m, "");
      assert Encode(m) + "" == Encode(m) && Encode(rest) + "" == Encode(rest);
      EncodedEnds(rest);
      PieceEnds(c, Encode(rest));
    }
  }

  lemma {:induction false} ConcatJoins(a: seq<string>, b: seq<string>)
    ensures Concat(a + b) == Concat(a) + Concat(b)
  {
    if a == [] {
      assert a + b == b;
    } else {
      ConcatJoins(a[1..], b);
      assert (a + b)[1..] == a[1..] + b;
      Regroup(a[0], Concat(a[1..]), Concat(b));
    }
  }

  /** Some piece ends where the message ends. */
  ghost predicate CutBehind(x: Input, message: string) {
    exists k :: 0 <= k <= |x.segs| && Received(x, k) == message
  }

  /** What has arrived with the first `k` pieces. */
  function Received(x: Input, k: nat): string
    requires k <= |x.segs|
  {
    x.pending + Concat(x.segs[..k])
  }

  /** If a piece ends with the message, exactly what follows the message stays in the socket. */
  lemma CutKeepsTail(m: Message, tail: string, x: Input, k: nat)
    requires m.Valid() && |Encode(m)| < WORD - 2
    requires x.All() == Encode(m) + tail && k <= |x.segs| && Received(x, k) == Encode(m)
    ensures Concat(Read(x, "").1.segs) == tail
  {
    var front, later := Input(x.pending, x.segs[..k]), x.segs[k..];
    assert Followed(front, later) == x by { assert x.segs[..k] + later == x.segs; }
    ConcatJoins(x.segs[..k], later);
    Regroup(x.pending, Concat(x.segs[..k]), Concat(later));
    assert Concat(later) == tail by { assert (Encode(m) + Concat(later))[|Encode(m)|..] == Concat(later); }
    EncodedEnds(m);
    ReadFollowed(front, later, "");
    var y := Read(front, "").1;
    assert Encode(m) + "" == Encode(m);
    DecodeEncoded(m, "");
    NoWrapDoesNotWrap(Encode(m));
    ReadIsDecode(front, "");
    ReadStopsAtLine(front, "");
    assert y.All() == CRLF + "" == CRLF;
    assert Concat(y.segs) == "";
    ConcatJoins(y.segs, later);
  }

  /** If exactly what follows the message stays in the socket, a piece ends with the message. */
  lemma KeptTailIsCut(m: Message, tail: string, x: Input)
    requires x.All() == Encode(m) + tail && Concat(Read(x, "").1.segs) == tail
    ensures CutBehind(x, Encode(m))
  {
    var segs := Read(x, "").1.segs;
    ReadRemains(x, "");
    var k := |x.segs| - |segs|;
    assert x.segs == x.segs[..k] + segs;
    ConcatJoins(x.segs[..k], segs);
    Regroup(x.pending, Concat(x.segs[..k]), Concat(segs));
    assert (Received(x, k) + tail)[..|Encode(m)|] == Encode(m);
    assert |Received(x, k)| == |Encode(m)|;
    assert Received(x, k) == Encode(m);
  }

  lemma ReadEncoded(m: Message, tail: string, x: Input)
    requires m.Valid() && |Encode(m) + tail| < WORD - 2 && x.All() == Encode(m) + tail
    ensures Read(x, "").0 == Body(m.chunks) && Read(x, "").1.All() == CRLF + tail
  {
    DecodeEncoded(m, tail);
    NoWrapDoesNotWrap(Encode(m) + tail);
    ReadIsDecode(x, "");
    assert "" + Body(m.chunks) == Body(m.chunks);
  }

  /** Once the empty line has arrived, what is left to arrive is the end of the tail. */
  lemma LeftOver(y: Input, tail: string)
    requires y.All() == CRLF + tail && (FindCrlf(y.pending) >= 0 || y.segs == [])
    ensures
      var left := Concat(y.segs);
      |left| <= |tail| && left == tail[|tail| - |left|..]
  {
    var left := Concat(y.segs);
    assert y.segs == [] ==> left == "";
    assert |y.pending| >= 2;
    assert left == (y.pending + left)[|y.pending|..] == (CRLF + tail)[|y.pending|..];
  }

  /** Whatever the sender's choice of chunks, digits, extensions and trailers, and whatever the pieces
      it arrives in, the reader returns the data, and no byte of the message is left in the socket.
      What is left is the end of what follows the message; the bytes before it were received with the
      message and are dropped.  There are none of these exactly when a piece ends with the message. */
  lemma RoundTrip(m: Message, tail: string, x: Input)
    requires m.Valid() && |Encode(m) + tail| < WORD - 2 && x.All() == Encode(m) + tail
    ensures Read(x, "").0 == Body(m.chunks)
    ensures
      var left := Concat(Read(x, "").1.segs);
      && |left| <= |tail| && left == tail[|tail| - |left|..]
      && (left == tail <==> CutBehind(x, Encode(m)))
  {
    ReadEncoded(m, tail, x);
    ReadStopsAtLine(x, "");
    LeftOver(Read(x, "").1, tail);
    if Concat(Read(x, "").1.segs) == tail {
      KeptTailIsCut(m, tail, x);
    }
    if CutBehind(x, Encode(m)) {
      var k :| 0 <= k <= |x.segs| && Received(x, k) == Encode(m);
      CutKeepsTail(m, tail, x, k);
    }
  }

  // ----- The code

  /** The receiving side of a socket: the pieces that will arrive, and then nothing. */
  class Socket {
    var segs: seq<string>

    ghost predicate Valid()
      reads this
    {
      forall i :: 0 <= i < |segs| ==> 1 <= |segs[i]| <= BUFFER
    }

    constructor (pieces: seq<string>)
      requires forall i :: 0 <= i < |pieces| ==> 1 <= |pieces[i]| <= BUFFER
      ensures Valid() && segs == pieces
    {
      segs := pieces;
    }

    /** At most `max` bytes of the next piece; nothing at the end of the stream. */
    method Recv(max: nat) returns (data: string)
      requires Valid() && max >= 1
      modifies this
      ensures Valid()
      ensures data + Concat(segs) == Concat(old(segs)) && |data| <= max
      ensures data == "" <==> old(segs) == []
      ensures old(segs) != [] && max >= BUFFER ==> data == old(segs)[0] && segs == old(segs)[1..]
    {
      if segs == [] {
        return "";
      }
      if |segs[0]| <= max {
        data := segs[0];
        segs := segs[1..];
      } else {
        data := segs[0][..max];
        ghost var whole := segs[0];
        segs := [segs[0][max..]] + segs[1..];
        assert data + (whole[max..] + Concat(segs[1..])) == whole + Concat(segs[1..]);
      }
    }
  }

  method ReadMore(sock: Socket, start: string, needed: nat) returns (ok: bool, pending: string)
    requires sock.Valid()
    modifies sock
    ensures sock.Valid()
    ensures Input(pending, sock.segs) == Fetch(Input(start, old(sock.segs)), needed)
    ensures ok <==> |pending| >= needed
  {
    pending := start;
    while |pending| < needed
      invariant sock.Valid()
      invariant Fetch(Input(pending, sock.segs), needed) == Fetch(Input(start, old(sock.segs)), needed)
      decreases |sock.segs|
    {
      var data := sock.Recv(BUFFER);
      if data == "" {
        return false, pending;
      }
      pending := pending + data;
    }
    ok := true;
  }

  method ReadLine(sock: Socket, start: string) returns (ok: bool, pending: string)
    requires sock.Valid()
    modifies sock
    ensures sock.Valid()
    ensures Input(pending, sock.segs) == FetchLine(Input(start, old(sock.segs)))
    ensures ok <==> FindCrlf(pending) >= 0
  {
    pending := start;
    while FindCrlf(pending) < 0
      invariant sock.Valid()
      invariant FetchLine(Input(pending, sock.segs)) == FetchLine(Input(start, old(sock.segs)))
      decreases |sock.segs|
    {
      ghost var x := Input(pending, sock.segs);
      ok, pending := ReadMore(sock, pending, |pending| + 1);
      assert x.segs != [] ==> Input(pending, sock.segs) == Input(x.pending + x.segs[0], x.segs[1..]);
      if !ok {
        return false, pending;
      }
    }
    ok := true;
  }

  /** The part of the loop that reads one chunk's data; `more` tells whether to go on. */
  method ReadData(sock: Socket, start: string, size: nat, collected: string)
    returns (more: bool, body: string, pending: string)
    requires sock.Valid() && 0 < size < WORD
    modifies sock
    ensures sock.Valid()
    ensures ReadOn(Input(start, old(sock.segs)), size, collected)
         == if more then Read(Input(pending, sock.segs), body) else (body, Input(pending, sock.segs))
    ensures more ==> |Input(pending, sock.segs).All()| <= |Input(start, old(sock.segs)).All()|
  {
    FetchKeeps(Input(start, sock.segs), Needed(size));
    more, pending := ReadMore(sock, start, Needed(size));
    body := collected + pending[..Min(|pending|, size)];
    if more {
      pending := pending[Needed(size)..];
    }
  }

  /** read_chunked_body. */
  method ReadChunkedBody(sock: Socket, initial: string) returns (body: string)
    requires sock.Valid()
    modifies sock
    ensures body == Read(Input(initial, old(sock.segs)), "").0
    ensures sock.segs == Read(Input(initial, old(sock.segs)), "").1.segs
  {
    ghost var result := Read(Input(initial, sock.segs), "");
    body := "";
    var pending := initial;
    while true
      invariant sock.Valid()
      invariant Read(Input(pending, sock.segs), body) == result
      decreases |Input(pending, sock.segs).All()|
    {
      FetchLineKeeps(Input(pending, sock.segs));
      var ok;
      ok, pending := ReadLine(sock, pending);
      if !ok {
        return;
      }
      var line := FindCrlf(pending);
      var size := ParseSize(pending[..line]);
      ghost var head := HeadOf(pending);
      pending := pending[line + 2..];
      if size.None? || size.value == 0 {
        assert head == Stop(pending);
        break;
      }
      assert head == Chunk(size.value, pending);
      assert result == ReadOn(Input(pending, sock.segs), size.value, body);
      ok, body, pending := ReadData(sock, pending, size.value, body);
      if !ok {
        return;
      }
    }
    SkipTrailerLines(sock, pending);
  }

  method SkipTrailerLines(sock: Socket, start: string)
    requires sock.Valid()
    modifies sock
    ensures sock.segs == SkipTrailers(Input(start, old(sock.segs))).segs
  {
    var pending := start;
    while true
      invariant sock.Valid()
      invariant SkipTrailers(Input(pending, sock.segs)) == SkipTrailers(Input(start, old(sock.segs)))
      decreases |Input(pending, sock.segs).All()|
    {
      FetchLineKeeps(Input(pending, sock.segs));
      var ok;
      ok, pending := ReadLine(sock, pending);
      if !ok || FindCrlf(pending) == 0 {
        return;
      }
      pending := pending[FindCrlf(pending) + 2..];
    }
  }

  /** read_body: exactly the announced number of bytes, or all there are; nothing beyond is received. */
  method ReadBody(sock: Socket, start: string, contentLength: nat) returns (body: string, complete: bool)
    requires sock.Valid()
    modifies sock
    ensures var stream := Input(start, old(sock.segs)).All();
      && body == stream[..Min(|stream|, contentLength)]
      && complete == (|stream| >= contentLength)
      && (|start| <= contentLength ==> Concat(sock.segs) == stream[|body|..])
      && (|start| >= contentLength ==> sock.segs == old(sock.segs))
  {
    ghost var stream := Input(start, sock.segs).All();
    body := start;
    if |body| >= contentLength {
      assert stream[..contentLength] == body[..contentLength];
      assert |start| == contentLength ==> stream[contentLength..] == Concat(sock.segs);
      return body[..contentLength], true;
    }
    while |body| < contentLength
      invariant sock.Valid() && |body| <= contentLength
      invariant body + Concat(sock.segs) == stream
    {
      var want := Min(BUFFER, contentLength - |body|);
      var data := sock.Recv(want);
      if data == "" {
        break;
      }
      body := body + data;
    }
    assert stream[..|body|] == body && stream[|body|..] == Concat(sock.segs);
    complete := |body| >= contentLength;
  }
}
