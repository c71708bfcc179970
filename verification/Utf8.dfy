/** UTF-8 texts and the two decoders of the moderation layers (engine/moderation/SlurFilter.cpp and
    engine/moderation/UnicodeClassifier.cpp). */
module Utf8 {
  import opened Utf8Bytes

  const REPLACEMENT: CodePoint := 0xFFFD

  /** A code point and the bytes it takes. A byte that begins no sequence counts as one replacement. */
  datatype Decoded = Decoded(cp: CodePoint, width: nat)

  const INVALID := Decoded(REPLACEMENT, 1)

  // ----- well-formed sequences, by the table

  /** The length of the well-formed sequence a text begins with, or zero. */
  function Width(s: seq<CodeUnit>): (w: nat)
    ensures w <= |s| && w <= 4
  {
    if s == [] then 0
    else if s[0] <= 0x7F then 1
    else if |s| >= 2 && Two(s[0], s[1]) then 2
    else if |s| >= 3 && Three(s[0], s[1], s[2]) then 3
    else if |s| >= 4 && Four(s[0], s[1], s[2], s[3]) then 4
    else 0
  }

  predicate WellFormed(s: seq<CodeUnit>)
    decreases |s|
  {
    s == [] || (Width(s) > 0 && WellFormed(s[Width(s)..]))
  }

  // ----- the decoder of the unicode classifier

  /** The sequence a text begins with; width zero when there is none. */
  function Strict(s: seq<CodeUnit>): Decoded
  {
    var none := Decoded(0, 0);
    if s == [] then none
    else if s[0] < 0x80 then Decoded(s[0] as CodePoint, 1)
    else if s[0] & 0xE0 == 0xC0 then
      if |s| <= 1 || !IsTail(s[1]) || Cp2(s[0], s[1]) < 0x80 then none
      else Decoded(Cp2(s[0], s[1]), 2)
    else if s[0] & 0xF0 == 0xE0 then
      if |s| <= 2 || !IsTail(s[1]) || !IsTail(s[2]) then none
      else
        var cp := Cp3(s[0], s[1], s[2]);
        if cp < 0x800 || 0xD800 <= cp <= 0xDFFF then none else Decoded(cp, 3)
    else if s[0] & 0xF8 == 0xF0 then
      if |s| <= 3 || !IsTail(s[1]) || !IsTail(s[2]) || !IsTail(s[3]) then none
      else
        var cp := Cp4(s[0], s[1], s[2], s[3]);
        if cp < 0x1_0000 || cp > 0x10_FFFF then none else Decoded(cp, 4)
    else none
  }

  // ----- the decoder of the slur filter

  /** Whether all the bytes of a sequence after its lead are tails. */
  predicate Tails(s: seq<CodeUnit>, k: nat, width: nat)
    requires width <= |s|
    decreases width - k
  {
    k >= width || (IsTail(s[k]) && Tails(s, k + 1, width))
  }

  /** The value of the bytes of a sequence up to `k`. */
  function Bits(s: seq<CodeUnit>, k: nat): CodePoint
    requires 0 < k <= |s|
  {
    if k == 1 then LeadBits(s[0]) else Shifted(Bits(s, k - 1), s[k - 1])
  }

  function Lenient(s: seq<CodeUnit>): (d: Decoded)
    requires s != []
    ensures 0 < d.width <= |s|
  {
    var width := LeadWidth(s[0]);
    if s[0] < 0x80 then Decoded(s[0] as CodePoint, 1)
    else if width == 0 || width > |s| || !Tails(s, 1, width) then INVALID
    else
      var cp := Bits(s, width);
      if 0xD800 <= cp <= 0xDFFF || cp > 0x10_FFFF
         || (width == 2 && cp < 0x80) || (width == 3 && cp < 0x800) || (width == 4 && cp < 0x1_0000) then INVALID
      else Decoded(cp, width)
  }

  // ----- all three agree

  /** The strict decoder accepts exactly the well-formed sequences. */
  lemma StrictIsTable(s: seq<CodeUnit>)
    ensures Strict(s).width == Width(s)
  {
    if s != [] {
      Leads(s[0]);
      if |s| >= 2 { TwoIff(s[0], s[1]); }
      if |s| >= 3 { ThreeIff(s[0], s[1], s[2]); }
      if |s| >= 4 { FourIff(s[0], s[1], s[2], s[3]); }
    }
  }

  lemma Bits2(s: seq<CodeUnit>)
    requires |s| >= 2 && s[0] & 0xE0 == 0xC0
    ensures Bits(s, 2) == Cp2(s[0], s[1]) && (Tails(s, 1, 2) <==> IsTail(s[1]))
  {
    assert Bits(s, 1) == Low(s[0], 0x1F);
  }

  lemma Bits3(s: seq<CodeUnit>)
    requires |s| >= 3 && s[0] & 0xF0 == 0xE0
    ensures Bits(s, 3) == Cp3(s[0], s[1], s[2]) && (Tails(s, 1, 3) <==> IsTail(s[1]) && IsTail(s[2]))
  {
    Leads(s[0]);
    assert Bits(s, 1) == Low(s[0], 0x0F);
    assert Bits(s, 2) == Shifted(Bits(s, 1), s[1]);
    ShiftedThree(s[0], s[1], s[2]);
    assert Tails(s, 2, 3) <==> IsTail(s[2]);
  }

  lemma Bits4(s: seq<CodeUnit>)
    requires |s| >= 4 && s[0] & 0xF8 == 0xF0
    ensures Bits(s, 4) == Cp4(s[0], s[1], s[2], s[3])
    ensures Tails(s, 1, 4) <==> IsTail(s[1]) && IsTail(s[2]) && IsTail(s[3])
  {
    Leads(s[0]);
    assert Bits(s, 1) == Low(s[0], 0x07);
    assert Bits(s, 2) == Shifted(Bits(s, 1), s[1]);
    assert Bits(s, 3) == Shifted(Bits(s, 2), s[2]);
    ShiftedFour(s[0], s[1], s[2], s[3]);
    assert Tails(s, 3, 4) <==> IsTail(s[3]);
    assert Tails(s, 2, 4) <==> IsTail(s[2]) && IsTail(s[3]);
  }

  /** The two decoders agree: what the strict one accepts the lenient one decodes, and everything else is
      one invalid byte to it. */
  lemma LenientIsStrict(s: seq<CodeUnit>)
    requires s != []
    ensures Lenient(s) == if Strict(s).width == 0 then INVALID else Strict(s)
  {
    var a := s[0];
    Leads(a);
    if a & 0xE0 == 0xC0 {
      if |s| >= 2 { Bits2(s); Ranges(s[0], s[1], 0, 0); }
    } else if a & 0xF0 == 0xE0 {
      if |s| >= 3 { Bits3(s); Ranges(s[0], s[1], s[2], 0); }
    } else if a & 0xF8 == 0xF0 {
      if |s| >= 4 { Bits4(s); Ranges(s[0], s[1], s[2], s[3]); }
    }
  }

  // ----- whole texts

  /** The sequences and single invalid bytes the slur filter splits a text into. */
  function LenientPieces(s: seq<CodeUnit>): seq<Decoded>
    decreases |s|
  {
    if s == [] then [] else [Lenient(s)] + LenientPieces(s[Lenient(s).width..])
  }

  /** And those the unicode classifier does, with an invalid byte where its decoder fails. */
  function StrictPieces(s: seq<CodeUnit>): seq<Decoded>
    decreases |s|
  {
    StrictIsTable(s);
    if s == [] then []
    else if Strict(s).width == 0 then [INVALID] + StrictPieces(s[1..])
    else [Strict(s)] + StrictPieces(s[Strict(s).width..])
  }

  /** Both split every text in the same way. */
  lemma {:induction false} PiecesAgree(s: seq<CodeUnit>)
    ensures LenientPieces(s) == StrictPieces(s)
    decreases |s|
  {
    if s != [] {
      StrictIsTable(s);
      LenientIsStrict(s);
      PiecesAgree(s[Lenient(s).width..]);
    }
  }

  // ----- decoding inverts encoding

  lemma StrictTwo(s: seq<CodeUnit>)
    requires |s| >= 2 && Two(s[0], s[1])
    ensures Width(s) == 2 && Strict(s) == Decoded(Cp2(s[0], s[1]), 2)
  {
    Leads(s[0]);
    TwoIff(s[0], s[1]);
  }

  lemma StrictThree(s: seq<CodeUnit>)
    requires |s| >= 3 && Three(s[0], s[1], s[2])
    ensures Width(s) == 3 && Strict(s) == Decoded(Cp3(s[0], s[1], s[2]), 3)
  {
    Leads(s[0]);
    ThreeIff(s[0], s[1], s[2]);
    StrictIsTable(s);
  }

  lemma StrictFour(s: seq<CodeUnit>)
    requires |s| >= 4 && Four(s[0], s[1], s[2], s[3])
    ensures Width(s) == 4 && Strict(s) == Decoded(Cp4(s[0], s[1], s[2], s[3]), 4)
  {
    Leads(s[0]);
    FourIff(s[0], s[1], s[2], s[3]);
    StrictIsTable(s);
  }

  /** Decoding an encoded code point, whatever follows it, gives it back. */
  lemma DecodeEncoded(cp: CodePoint, rest: seq<CodeUnit>)
    requires Scalar(cp)
    ensures Strict(Encode(cp) + rest) == Decoded(cp, |Encode(cp)|)
    ensures Width(Encode(cp) + rest) == |Encode(cp)|
  {
    var s := Encode(cp) + rest;
    if cp < 0x80 {
      EncodeOne(cp);
      assert s[0] == cp as CodeUnit;
    } else if cp < 0x800 {
      EncodeTwo(cp);
      assert s[0] == Encode(cp)[0] && s[1] == Encode(cp)[1];
      StrictTwo(s);
    } else if cp < 0x1_0000 {
      EncodeThree(cp);
      assert s[0] == Encode(cp)[0] && s[1] == Encode(cp)[1] && s[2] == Encode(cp)[2];
      StrictThree(s);
    } else {
      EncodeFour(cp);
      assert s[0] == Encode(cp)[0] && s[1] == Encode(cp)[1] && s[2] == Encode(cp)[2] && s[3] == Encode(cp)[3];
      StrictFour(s);
    }
  }

  /** A decoded sequence is the encoding of its code point, and so the only sequence for it. */
  lemma EncodeDecoded(s: seq<CodeUnit>)
    requires Width(s) > 0
    ensures Strict(s).width == Width(s) && Scalar(Strict(s).cp) && Encode(Strict(s).cp) == s[..Width(s)]
  {
    var w := Width(s);
    if w == 1 {
      Leads(s[0]);
      OneUnique(s[0]);
    } else if w == 2 {
      TwoUnique(s[0], s[1]);
      StrictTwo(s);
    } else if w == 3 {
      ThreeUnique(s[0], s[1], s[2]);
      StrictThree(s);
    } else {
      FourUnique(s[0], s[1], s[2], s[3]);
      StrictFour(s);
    }
  }

  // ----- well-formed texts

  /** A text that begins with a well-formed sequence still does when more follows. */
  lemma SequenceStays(a: seq<CodeUnit>, b: seq<CodeUnit>)
    requires Width(a) > 0
    ensures Width(a + b) == Width(a) && Strict(a + b) == Strict(a)
  {
    var w := Width(a);
    EncodeDecoded(a);
    DecodeEncoded(Strict(a).cp, a[w..]);
    DecodeEncoded(Strict(a).cp, a[w..] + b);
    assert a == a[..w] + a[w..];
    assert a + b == a[..w] + (a[w..] + b);
  }

  lemma LenientStays(a: seq<CodeUnit>, b: seq<CodeUnit>)
    requires Width(a) > 0
    ensures Lenient(a + b) == Lenient(a) && Lenient(a).width == Width(a)
  {
    SequenceStays(a, b);
    StrictIsTable(a);
    LenientIsStrict(a);
    LenientIsStrict(a + b);
  }

  lemma {:induction false} WellFormedJoin(a: seq<CodeUnit>, b: seq<CodeUnit>)
    requires WellFormed(a)
    ensures WellFormed(a + b) <==> WellFormed(b)
    decreases |a|
  {
    if a == [] {
      assert a + b == b;
    } else {
      var w := Width(a);
      SequenceStays(a, b);
      assert (a + b)[w..] == a[w..] + b;
      WellFormedJoin(a[w..], b);
    }
  }

  lemma EncodedWellFormed(cp: CodePoint)
    requires Scalar(cp)
    ensures WellFormed(Encode(cp))
  {
    DecodeEncoded(cp, []);
    assert Encode(cp) + [] == Encode(cp);
  }

  lemma SequenceShape(s: seq<CodeUnit>, k: nat)
    requires k < Width(s)
    ensures IsTail(s[k]) <==> k > 0
  {
    if Width(s) == 2 { TwoIff(s[0], s[1]); }
    if Width(s) == 3 { ThreeIff(s[0], s[1], s[2]); }
    if Width(s) == 4 { FourIff(s[0], s[1], s[2], s[3]); }
    LeadIsNoTail(s[0]);
  }

  lemma LeadTellsWidth(s: seq<CodeUnit>)
    requires Width(s) > 0
    ensures Width(s) == if s[0] < 0x80 then 1 else LeadWidth(s[0])
  {
    Leads(s[0]);
    if Width(s) == 2 { TwoIff(s[0], s[1]); }
    if Width(s) == 3 { ThreeIff(s[0], s[1], s[2]); }
    if Width(s) == 4 { FourIff(s[0], s[1], s[2], s[3]); }
  }

  /** The prefixes of a well-formed text that are well-formed end exactly before a byte that is no tail. */
  lemma {:induction false} PrefixIff(s: seq<CodeUnit>, k: nat)
    requires WellFormed(s) && k < |s|
    ensures WellFormed(s[..k]) <==> !IsTail(s[k])
    decreases k
  {
    var w := Width(s);
    assert s[..w] + s[w..] == s;
    if k < w {
      SequenceShape(s, k);
      if k > 0 {
        assert s == s[..k] + s[k..];
        if Width(s[..k]) > 0 { SequenceStays(s[..k], s[k..]); }
      }
    } else {
      EncodeDecoded(s);
      DecodeEncoded(Strict(s).cp, s[w..k]);
      assert s[..k] == s[..w] + s[w..k];
      assert s[..k][w..] == s[w..][..k - w];
      PrefixIff(s[w..], k - w);
    }
  }

  lemma SuffixWellFormed(s: seq<CodeUnit>, k: nat)
    requires WellFormed(s) && k <= |s| && WellFormed(s[..k])
    ensures WellFormed(s[k..])
  {
    assert s == s[..k] + s[k..];
    WellFormedJoin(s[..k], s[k..]);
  }

  // ----- the methods

  /** The slur filter's decoder: the code point at `i`, and the position after it. */
  method DecodeUtf8(s: seq<CodeUnit>, i: nat) returns (cp: CodePoint, next: nat)
    requires i <= |s|
    ensures i <= next && (i == |s| ==> cp == REPLACEMENT && next == i)
    ensures i < |s| ==> Decoded(cp, next - i) == Lenient(s[i..])
  {
    if i >= |s| { return REPLACEMENT, i; }
    ghost var rest := s[i..];
    var lead := s[i];
    if lead < 0x80 { return lead as CodePoint, i + 1; }
    var width := LeadWidth(lead);
    if width == 0 || i + width > |s| { return REPLACEMENT, i + 1; }
    cp := LeadBits(lead);
    var k := 1;
    while k < width
      invariant 1 <= k <= width
      invariant cp == Bits(rest, k)
      invariant Tails(rest, 1, width) == Tails(rest, k, width)
    {
      assert rest[k] == s[i + k];
      if !IsTail(s[i + k]) { return REPLACEMENT, i + 1; }
      cp := Shifted(cp, s[i + k]);
      k := k + 1;
    }
    if 0xD800 <= cp <= 0xDFFF { return REPLACEMENT, i + 1; }
    if cp > 0x10_FFFF { return REPLACEMENT, i + 1; }
    if (width == 2 && cp < 0x80) || (width == 3 && cp < 0x800) || (width == 4 && cp < 0x1_0000) { return REPLACEMENT, i + 1; }
    return cp, i + width;
  }

  function Count(pieces: seq<Decoded>): (c: (nat, nat))
    ensures c.0 + c.1 == |pieces|
  {
    if pieces == [] then (0, 0)
    else
      var (good, bad) := Count(pieces[1..]);
      if pieces[0] == INVALID then (good, bad + 1) else (good + 1, bad)
  }

  lemma {:induction false} CountFirst(p: Decoded, rest: seq<Decoded>)
    ensures Count([p] + rest) == if p == INVALID then (Count(rest).0, Count(rest).1 + 1) else (Count(rest).0 + 1, Count(rest).1)
  {
    assert ([p] + rest)[1..] == rest;
  }

  /** A decoded sequence is never taken for an invalid byte. */
  lemma ValidDiffers(s: seq<CodeUnit>)
    requires Width(s) > 0
    ensures Strict(s) != INVALID
  {
    EncodeDecoded(s);
  }

  /** The first piece and where the next one starts. */
  lemma FirstPiece(s: seq<CodeUnit>) returns (p: Decoded, n: nat)
    requires s != []
    ensures 0 < n <= |s| && StrictPieces(s) == [p] + StrictPieces(s[n..])
    ensures Strict(s).width == Width(s)
    ensures if Width(s) == 0 then p == INVALID && n == 1 else p != INVALID && n == Width(s)
  {
    StrictIsTable(s);
    if Width(s) == 0 {
      p, n := INVALID, 1;
    } else {
      ValidDiffers(s);
      p, n := Strict(s), Width(s);
    }
  }

  lemma SliceTail(s: seq<CodeUnit>, i: nat, w: nat)
    requires i + w <= |s|
    ensures s[i..][w..] == s[i + w..]
  {
  }

  lemma PieceAt(s: seq<CodeUnit>, i: nat) returns (p: Decoded, next: nat)
    requires i < |s|
    ensures next == i + (if Width(s[i..]) == 0 then 1 else Width(s[i..])) <= |s|
    ensures StrictPieces(s[i..]) == [p] + StrictPieces(s[next..]) && (p == INVALID <==> Width(s[i..]) == 0)
  {
    var n;
    p, n := FirstPiece(s[i..]);
    SliceTail(s, i, n);
    next := i + n;
  }

  /** Up to position `i` there are so many code points and so many invalid bytes. */
  ghost predicate CountedTo(s: seq<CodeUnit>, i: nat, good: nat, bad: nat) {
    i <= |s| && Adds(Count(StrictPieces(s)), Count(StrictPieces(s[i..])), good, bad)
  }

  predicate Adds(all: (nat, nat), rest: (nat, nat), good: nat, bad: nat) {
    all == (good + rest.0, bad + rest.1)
  }

  lemma CountedOne(all: (nat, nat), p: Decoded, rest: seq<Decoded>, good: nat, bad: nat)
    requires Adds(all, Count([p] + rest), good, bad)
    ensures if p == INVALID then Adds(all, Count(rest), good, bad + 1) else Adds(all, Count(rest), good + 1, bad)
  {
    CountFirst(p, rest);
  }

  /** One call of the strict decoder. */
  lemma CountTurn(s: seq<CodeUnit>, i: nat, good: nat, bad: nat)
    requires CountedTo(s, i, good, bad) && i < |s|
    ensures
      var w := Width(s[i..]);
      if w == 0 then CountedTo(s, i + 1, good, bad + 1) else CountedTo(s, i + w, good + 1, bad)
  {
    var p, next := PieceAt(s, i);
    CountedOne(Count(StrictPieces(s)), p, StrictPieces(s[next..]), good, bad);
  }

  lemma CountedNone(s: seq<CodeUnit>)
    ensures CountedTo(s, 0, 0, 0)
  {
    assert s[0..] == s;
  }

  lemma CountedAll(s: seq<CodeUnit>, good: nat, bad: nat)
    requires CountedTo(s, |s|, good, bad)
    ensures (good, bad) == Count(StrictPieces(s))
  {
  }

  /** The unicode classifier's loop: how many code points and how many invalid bytes there are. */
  method CountPieces(s: seq<CodeUnit>) returns (codePoints: nat, invalidBytes: nat)
    ensures (codePoints, invalidBytes) == Count(StrictPieces(s))
  {
    codePoints, invalidBytes := 0, 0;
    var i: nat := 0;
    CountedNone(s);
    while i < |s|
      invariant CountedTo(s, i, codePoints, invalidBytes)
    {
      var consumed := DecodedWidth(s[i..]);
      CountTurn(s, i, codePoints, invalidBytes);
      if consumed == 0 {
        invalidBytes := invalidBytes + 1;
        i := i + 1;
      } else {
        codePoints := codePoints + 1;
        i := i + consumed;
      }
    }
    CountedAll(s, codePoints, invalidBytes);
  }

  /** What the strict decoder returns: zero for an invalid byte, or the width of the sequence. */
  method DecodedWidth(s: seq<CodeUnit>) returns (consumed: nat)
    ensures consumed == Width(s)
  {
    consumed := Strict(s).width;
    StrictIsTable(s);
  }

  /** A text has no invalid bytes exactly when it is well-formed. */
  lemma {:induction false} NoInvalidIff(s: seq<CodeUnit>)
    ensures Count(StrictPieces(s)).1 == 0 <==> WellFormed(s)
    decreases |s|
  {
    if s != [] {
      var p, n := FirstPiece(s);
      CountFirst(p, StrictPieces(s[n..]));
      if Width(s) > 0 {
        NoInvalidIff(s[n..]);
      }
    }
  }
}
