/** The slur filter's normalizer (engine/moderation/SlurFilter.cpp): folds a message to lower-case ASCII and
    collapses runs of letters. */
module SlurNormalizer {
  import opened Common
  import opened Utf8
  import opened Utf8Bytes

  type Text = seq<CodeUnit>

  const SPACE: CodeUnit := 0x20

  // ----- characters, in the C locale

  predicate IsUpper(c: CodeUnit) { 0x41 <= c <= 0x5A }
  predicate IsLower(c: CodeUnit) { 0x61 <= c <= 0x7A }
  predicate IsAlpha(c: CodeUnit) { IsUpper(c) || IsLower(c) }
  predicate IsDigit(c: CodeUnit) { 0x30 <= c <= 0x39 }
  predicate IsAlnum(c: CodeUnit) { IsAlpha(c) || IsDigit(c) }

  function ToLower(c: CodeUnit): CodeUnit {
    if IsUpper(c) then c + 0x20 else c
  }

  predicate IsCombiningMark(cp: CodePoint) {
    || 0x0300 <= cp <= 0x036F || 0x20D0 <= cp <= 0x20FF || 0xFE20 <= cp <= 0xFE2F
    || 0x1AB0 <= cp <= 0x1AFF || 0x1DC0 <= cp <= 0x1DFF
  }

  predicate IsZeroWidth(cp: CodePoint) {
    cp == 0x200B || cp == 0x200C || cp == 0x200D || cp == 0x2060 || cp == 0xFEFF || cp == 0x180E || cp == 0x00AD
  }

  /** What is dropped without a trace. */
  predicate IsIgnored(cp: CodePoint) {
    IsCombiningMark(cp) || IsZeroWidth(cp)
  }

  /** Accented Latin letters; zero when there is no mapping. */
  function FoldLatin(cp: CodePoint): CodeUnit {
    if 0xC0 <= cp <= 0xC5 || 0xE0 <= cp <= 0xE5 then 0x61                                              // a
    else if 0xC8 <= cp <= 0xCB || 0xE8 <= cp <= 0xEB then 0x65                                         // e
    else if 0xCC <= cp <= 0xCF || 0xEC <= cp <= 0xEF then 0x69                                         // i
    else if 0xD2 <= cp <= 0xD6 || cp == 0xD8 || 0xF2 <= cp <= 0xF6 || cp == 0xF8 then 0x6F             // o
    else if 0xD9 <= cp <= 0xDC || 0xF9 <= cp <= 0xFC then 0x75                                         // u
    else if cp == 0xD1 || cp == 0xF1 then 0x6E                                                         // n
    else if cp == 0xC7 || cp == 0xE7 then 0x63                                                         // c
    else if cp == 0xDD || cp == 0xFD || cp == 0xFF then 0x79                                           // y
    else 0
  }

  /** Cyrillic letters that look like Latin ones. */
  function FoldCyrillic(cp: CodePoint): CodeUnit {
    if cp == 0x430 || cp == 0x410 then 0x61      // a
    else if cp == 0x412 then 0x62                // b
    else if cp == 0x441 || cp == 0x421 then 0x63 // c
    else if cp == 0x435 || cp == 0x415 then 0x65 // e
    else if cp == 0x41D then 0x68                // h
    else if cp == 0x456 then 0x69                // i
    else if cp == 0x43A || cp == 0x41A then 0x6B // k
    else if cp == 0x43C || cp == 0x41C then 0x6D // m
    else if cp == 0x43E || cp == 0x41E then 0x6F // o
    else if cp == 0x440 || cp == 0x420 then 0x70 // p
    else if cp == 0x422 then 0x74                // t
    else if cp == 0x445 || cp == 0x425 then 0x78 // x
    else if cp == 0x443 then 0x79                // y
    else 0
  }

  /** Greek letters that look like Latin ones. */
  function FoldGreek(cp: CodePoint): CodeUnit {
    if cp == 0x3B1 then 0x61      // a
    else if cp == 0x3B5 then 0x65 // e
    else if cp == 0x3B9 then 0x69 // i
    else if cp == 0x3BA then 0x6B // k
    else if cp == 0x3BF then 0x6F // o
    else if cp == 0x3C1 then 0x70 // p
    else if cp == 0x3BD then 0x76 // v
    else if cp == 0x3C7 then 0x78 // x
    else 0
  }

  function FoldConfusable(cp: CodePoint): CodeUnit {
    if 0xFF01 <= cp <= 0xFF5E then (cp - 0xFEE0) as CodeUnit
    else if FoldLatin(cp) != 0 then FoldLatin(cp)
    else if FoldCyrillic(cp) != 0 then FoldCyrillic(cp)
    else FoldGreek(cp)
  }

  function FoldLeetDigit(c: CodeUnit): CodeUnit {
    if c == 0x30 then 0x6F      // o
    else if c == 0x31 then 0x69 // i
    else if c == 0x33 then 0x65 // e
    else if c == 0x34 then 0x61 // a
    else if c == 0x35 then 0x73 // s
    else if c == 0x37 then 0x74 // t
    else if c == 0x39 then 0x67 // g
    else c
  }

  /** The digits that stand for letters. */
  predicate IsLeet(c: CodeUnit) {
    FoldLeetDigit(c) != c
  }

  /** Their fullwidth forms: these are mapped to the digits, and no further. */
  predicate IsFullwidthLeet(cp: CodePoint) {
    0xFF10 <= cp <= 0xFF19 && IsLeet((cp - 0xFEE0) as CodeUnit)
  }

  /** What one code point becomes: one character, or nothing. */
  function FoldOne(cp: CodePoint): Text {
    if cp == REPLACEMENT then [SPACE]
    else if IsIgnored(cp) then []
    else if cp < 0x80 then
      var c := ToLower(cp as CodeUnit);
      [if IsDigit(c) then FoldLeetDigit(c) else c]
    else if FoldConfusable(cp) != 0 then [ToLower(FoldConfusable(cp))]
    else [SPACE]
  }

  lemma LatinIsLower(cp: CodePoint)
    ensures FoldLatin(cp) == 0 || IsLower(FoldLatin(cp))
    ensures FoldCyrillic(cp) == 0 || IsLower(FoldCyrillic(cp))
    ensures FoldGreek(cp) == 0 || IsLower(FoldGreek(cp))
  {
  }

  lemma LetterIsNoDigit(c: CodeUnit)
    ensures IsLower(c) ==> !IsUpper(c) && !IsLeet(c) && c < 0x80
    ensures !IsUpper(ToLower(c)) && (c < 0x80 ==> ToLower(c) < 0x80) && (IsLeet(ToLower(c)) <==> IsLeet(c))
    ensures IsDigit(c) ==> !IsUpper(FoldLeetDigit(c)) && !IsLeet(FoldLeetDigit(c)) && FoldLeetDigit(c) < 0x80
    ensures IsLeet(c) ==> IsDigit(c)
  {
  }

  /** It is lower-case ASCII, and a digit that stands for a letter only for the fullwidth form of one. */
  lemma FoldOneShape(cp: CodePoint)
    ensures var f := FoldOne(cp);
      |f| <= 1 && (|f| == 1 ==> f[0] < 0x80 && !IsUpper(f[0]) && (IsLeet(f[0]) <==> IsFullwidthLeet(cp)))
    ensures IsFullwidthLeet(cp) ==> |FoldOne(cp)| == 1
  {
    LatinIsLower(cp);
    if cp < 0x80 {
      LetterIsNoDigit(cp as CodeUnit);
      LetterIsNoDigit(ToLower(cp as CodeUnit));
    } else {
      var c := FoldConfusable(cp);
      LetterIsNoDigit(c);
      ConfusableRange(cp);
    }
  }

  lemma ConfusableRange(cp: CodePoint)
    ensures FoldConfusable(cp) < 0x80
    ensures IsLeet(FoldConfusable(cp)) <==> IsFullwidthLeet(cp)
    ensures IsFullwidthLeet(cp) ==> FoldConfusable(cp) != 0 && cp != REPLACEMENT && !IsIgnored(cp) && !(cp < 0x80)
  {
    LatinIsLower(cp);
  }

  /** A character that is already folded stays. */
  lemma FoldedStays(c: CodeUnit)
    requires c < 0x80 && !IsUpper(c) && !IsLeet(c)
    ensures FoldOne(c as CodePoint) == [c]
  {
  }

  /** The digit that is read as a letter, or zero. */
  function DigitFor(c: CodeUnit): CodeUnit {
    match c
    case 0x6F => 0x30 case 0x69 => 0x31 case 0x65 => 0x33 case 0x61 => 0x34
    case 0x73 => 0x35 case 0x74 => 0x37 case 0x67 => 0x39 case _ => 0
  }

  /** The accented, Cyrillic and Greek forms of a letter. */
  predicate Resembles(cp: CodePoint, c: CodeUnit) {
    match c
    case 0x61 => 0xC0 <= cp <= 0xC5 || 0xE0 <= cp <= 0xE5 || cp in {0x410, 0x430, 0x3B1}                    // a
    case 0x62 => cp == 0x412                                                                                // b
    case 0x63 => cp in {0xC7, 0xE7, 0x421, 0x441}                                                           // c
    case 0x65 => 0xC8 <= cp <= 0xCB || 0xE8 <= cp <= 0xEB || cp in {0x415, 0x435, 0x3B5}                    // e
    case 0x68 => cp == 0x41D                                                                                // h
    case 0x69 => 0xCC <= cp <= 0xCF || 0xEC <= cp <= 0xEF || cp in {0x456, 0x3B9}                           // i
    case 0x6B => cp in {0x41A, 0x43A, 0x3BA}                                                                // k
    case 0x6D => cp in {0x41C, 0x43C}                                                                       // m
    case 0x6E => cp in {0xD1, 0xF1}                                                                         // n
    case 0x6F => 0xD2 <= cp <= 0xD6 || 0xF2 <= cp <= 0xF6 || cp in {0xD8, 0xF8, 0x41E, 0x43E, 0x3BF}        // o
    case 0x70 => cp in {0x420, 0x440, 0x3C1}                                                                // p
    case 0x74 => cp == 0x422                                                                                // t
    case 0x75 => 0xD9 <= cp <= 0xDC || 0xF9 <= cp <= 0xFC                                                   // u
    case 0x76 => cp == 0x3BD                                                                                // v
    case 0x78 => cp in {0x425, 0x445, 0x3C7}                                                                // x
    case 0x79 => cp in {0xDD, 0xFD, 0xFF, 0x443}                                                            // y
    case _ => false
  }

  /** The letter in either case, or the digit read as it. */
  predicate IsAsciiOf(cp: CodePoint, c: CodeUnit) {
    cp < 0x80 && (cp == c as CodePoint || cp + 0x20 == c as CodePoint || (DigitFor(c) != 0 && cp == DigitFor(c) as CodePoint))
  }

  /** The fullwidth form of the letter, in either case. */
  predicate IsFullwidthOf(cp: CodePoint, c: CodeUnit) {
    0xFF01 <= cp <= 0xFF5E && (cp - 0xFEE0 == c as CodePoint || cp - 0xFEE0 + 0x20 == c as CodePoint)
  }

  lemma AsciiIff(cp: CodePoint, c: CodeUnit)
    requires IsLower(c) && cp < 0x80
    ensures FoldOne(cp) == [c] <==> IsAsciiOf(cp, c)
    ensures !Resembles(cp, c)
  {
  }

  lemma FullwidthIff(cp: CodePoint, c: CodeUnit)
    requires IsLower(c) && 0xFF01 <= cp <= 0xFF5E
    ensures ToLower(FoldConfusable(cp)) == c <==> IsFullwidthOf(cp, c)
    ensures !Resembles(cp, c)
  {
  }

  lemma ResemblesIff(cp: CodePoint, c: CodeUnit)
    requires IsLower(c) && !(0xFF01 <= cp <= 0xFF5E)
    ensures FoldConfusable(cp) == c <==> Resembles(cp, c)
    ensures ToLower(FoldConfusable(cp)) == FoldConfusable(cp)
  {
    LatinIsLower(cp);
  }

  lemma WideIsFolded(cp: CodePoint)
    requires cp >= 0x80
    ensures
      var c := FoldConfusable(cp);
      FoldOne(cp) == if cp != REPLACEMENT && IsIgnored(cp) then [] else if c != 0 then [ToLower(c)] else [SPACE]
    ensures IsIgnored(cp) || cp == REPLACEMENT ==> FoldConfusable(cp) == 0
  {
  }

  /** Everything that is read as a lower-case letter: both cases, their fullwidth forms, the digit, and the
      letters of other scripts that look like it. */
  lemma LetterIff(cp: CodePoint, c: CodeUnit)
    requires IsLower(c)
    ensures FoldOne(cp) == [c] <==> IsAsciiOf(cp, c) || IsFullwidthOf(cp, c) || Resembles(cp, c)
  {
    if cp < 0x80 {
      AsciiIff(cp, c);
    } else {
      WideIsFolded(cp);
      if 0xFF01 <= cp <= 0xFF5E {
        FullwidthIff(cp, c);
      } else {
        ResemblesIff(cp, c);
      }
    }
  }

  /** The code points dropped without a trace, in ascending order. */
  lemma DroppedIff(cp: CodePoint)
    ensures FoldOne(cp) == [] <==>
      || cp == 0xAD || 0x300 <= cp < 0x370 || cp == 0x180E || 0x1AB0 <= cp < 0x1B00 || 0x1DC0 <= cp < 0x1E00
      || 0x200B <= cp < 0x200E || cp == 0x2060 || 0x20D0 <= cp < 0x2100 || 0xFE20 <= cp < 0xFE30 || cp == 0xFEFF
  {
  }

  // ----- pass 1: decode and fold

  function Fold(s: Text): Text
    decreases |s|
  {
    if s == [] then [] else FoldOne(Lenient(s).cp) + Fold(s[Lenient(s).width..])
  }

  /** The message holds a fullwidth digit that stands for a letter. */
  predicate HasFullwidthLeet(s: Text)
    decreases |s|
  {
    s != [] && (IsFullwidthLeet(Lenient(s).cp) || HasFullwidthLeet(s[Lenient(s).width..]))
  }

  ghost predicate Folded(s: Text) {
    forall k :: 0 <= k < |s| ==> s[k] < 0x80 && !IsUpper(s[k])
  }

  ghost predicate HasLeet(s: Text) {
    exists k :: 0 <= k < |s| && IsLeet(s[k])
  }

  lemma HasLeetFirst(f: Text, rest: Text)
    requires |f| <= 1
    ensures HasLeet(f + rest) <==> (|f| == 1 && IsLeet(f[0])) || HasLeet(rest)
  {
    var all := f + rest;
    if HasLeet(rest) {
      var k :| 0 <= k < |rest| && IsLeet(rest[k]);
      assert all[|f| + k] == rest[k];
    }
    if |f| == 1 && IsLeet(f[0]) {
      assert all[0] == f[0];
    }
  }

  /** Folding leaves lower-case ASCII, and digits that stand for letters only where fullwidth ones were. */
  lemma {:induction false} FoldShape(s: Text)
    ensures Folded(Fold(s)) && (HasLeet(Fold(s)) <==> HasFullwidthLeet(s))
    decreases |s|
  {
    if s != [] {
      var cp, rest := Lenient(s).cp, s[Lenient(s).width..];
      FoldShape(rest);
      FoldOneShape(cp);
      HasLeetFirst(FoldOne(cp), Fold(rest));
    }
  }

  /** What is folded stays folded, unless a digit is left that stands for a letter. */
  lemma {:induction false} FoldTwice(s: Text)
    requires Folded(s) && !HasLeet(s)
    ensures Fold(s) == s
  {
    if s != [] {
      var rest := s[1..];
      assert Lenient(s) == Decoded(s[0] as CodePoint, 1);
      assert !IsLeet(s[0]);
      FoldedStays(s[0]);
      assert s == [s[0]] + rest;
      HasLeetFirst([s[0]], rest);
      FoldTwice(rest);
    }
  }

  /** After a well-formed prefix, folding goes on as if the rest stood alone. */
  lemma {:induction false} FoldJoin(a: Text, b: Text)
    requires WellFormed(a)
    ensures Fold(a + b) == Fold(a) + Fold(b)
    decreases |a|
  {
    if a == [] {
      assert a + b == b;
    } else {
      LenientStays(a, b);
      var w := Lenient(a).width;
      assert (a + b)[w..] == a[w..] + b;
      FoldJoin(a[w..], b);
      Regroup(FoldOne(Lenient(a).cp), Fold(a[w..]), Fold(b));
    }
  }

  lemma IgnoredIsScalar(cp: CodePoint)
    requires IsIgnored(cp)
    ensures Scalar(cp) && FoldOne(cp) == []
  {
  }

  lemma FoldIgnored(cp: CodePoint)
    requires IsIgnored(cp)
    ensures Scalar(cp) && WellFormed(Encode(cp)) && Fold(Encode(cp)) == []
  {
    IgnoredIsScalar(cp);
    EncodedWellFormed(cp);
    DecodeEncoded(cp, []);
    assert Encode(cp) + [] == Encode(cp);
    LenientIsStrict(Encode(cp));
  }

  // ----- pass 2: collapse runs of letters

  /** The first position from `j` on that does not hold `c`. */
  function RunEnd(s: Text, j: nat, c: CodeUnit): (e: nat)
    requires j <= |s|
    ensures j <= e <= |s| && (e < |s| ==> s[e] != c)
    ensures forall k :: j <= k < e ==> s[k] == c
    decreases |s| - j
  {
    if j < |s| && s[j] == c then RunEnd(s, j + 1, c) else j
  }

  /** What a run becomes: one character of it, if they are letters and at least three. */
  function Kept(run: Text): Text
    requires run != []
  {
    if IsAlpha(run[0]) && |run| >= 3 then [run[0]] else run
  }

  function Collapse(s: Text, k: nat): Text
    requires k <= |s|
    decreases |s| - k
  {
    if k == |s| then []
    else
      var j := RunEnd(s, k, s[k]);
      Kept(s[k..j]) + Collapse(s, j)
  }

  /** The same character so many times. */
  datatype Stretch = Stretch(c: CodeUnit, n: nat)

  function Times(c: CodeUnit, n: nat): (s: Text)
    ensures |s| == n && forall k :: 0 <= k < n ==> s[k] == c
  {
    if n == 0 then [] else [c] + Times(c, n - 1)
  }

  function Spelled(rs: seq<Stretch>): Text {
    if rs == [] then [] else Times(rs[0].c, rs[0].n) + Spelled(rs[1..])
  }

  /** None is empty, and neighbours differ. */
  predicate Alternates(rs: seq<Stretch>) {
    rs == [] || (rs[0].n > 0 && (|rs| > 1 ==> rs[0].c != rs[1].c) && Alternates(rs[1..]))
  }

  /** One of three letters or more, and as many of anything else. */
  function Short(r: Stretch): Text { Times(r.c, if IsAlpha(r.c) && r.n > 2 then 1 else r.n) }

  function SpelledShort(rs: seq<Stretch>): Text {
    if rs == [] then [] else Short(rs[0]) + SpelledShort(rs[1..])
  }

  lemma KeptIsShort(run: Text, r: Stretch)
    requires run != [] && |run| == r.n && forall i :: 0 <= i < |run| ==> run[i] == r.c
    ensures run == Times(r.c, r.n) && Kept(run) == Short(r)
  {
    assert Times(r.c, 1) == [r.c];
  }

  lemma AlternatesMore(r: Stretch, rs: seq<Stretch>)
    requires r.n > 0 && Alternates(rs) && (rs != [] ==> rs[0].c != r.c)
    ensures Alternates([r] + rs) && Spelled([r] + rs) == Times(r.c, r.n) + Spelled(rs)
    ensures SpelledShort([r] + rs) == Short(r) + SpelledShort(rs)
  {
    assert ([r] + rs)[1..] == rs;
  }

  /** Every run of a letter becomes one letter if it is longer than two, and everything else stays. */
  lemma {:induction false} CollapseShortens(s: Text, k: nat) returns (rs: seq<Stretch>)
    requires k <= |s|
    ensures s[k..] == Spelled(rs) && Alternates(rs) && Collapse(s, k) == SpelledShort(rs)
    ensures k < |s| ==> rs != [] && rs[0].c == s[k]
    decreases |s| - k
  {
    if k == |s| {
      rs := [];
    } else {
      var j := RunEnd(s, k, s[k]);
      var r := Stretch(s[k], j - k);
      var rest := CollapseShortens(s, j);
      KeptIsShort(s[k..j], r);
      AlternatesMore(r, rest);
      assert s[k..] == s[k..j] + s[j..];
      assert Collapse(s, k) == Kept(s[k..j]) + Collapse(s, j);
      rs := [r] + rest;
    }
  }

  /** However a text is read as stretches, these are what collapses. */
  lemma CollapseIs(s: Text, rs: seq<Stretch>)
    requires s == Spelled(rs) && Alternates(rs)
    ensures Collapse(s, 0) == SpelledShort(rs)
  {
    var own := CollapseShortens(s, 0);
    assert s[0..] == s;
    StretchesUnique(own, rs);
  }

  /** There is only one way to read a text as stretches. */
  lemma {:induction false} StretchesUnique(a: seq<Stretch>, b: seq<Stretch>)
    requires Alternates(a) && Alternates(b) && Spelled(a) == Spelled(b)
    ensures a == b
  {
    if a == [] || b == [] {
      assert a == [] ==> |Spelled(a)| == 0;
    } else {
      SameFirst(a, b, Spelled(a[1..]), Spelled(b[1..]));
      StretchesUnique(a[1..], b[1..]);
      assert a == [a[0]] + a[1..] && b == [b[0]] + b[1..];
    }
  }

  /** Behind a stretch stands another character, or nothing. */
  lemma SpelledBehind(rs: seq<Stretch>)
    requires rs != [] && Alternates(rs)
    ensures Spelled(rs[1..]) != [] ==> Spelled(rs[1..])[0] != rs[0].c
  {
    if |rs| > 1 {
      assert rs[1..][0] == rs[1];
      assert Spelled(rs[1..])[0] == Times(rs[1].c, rs[1].n)[0];
    }
  }

  lemma SameFirst(a: seq<Stretch>, b: seq<Stretch>, x: Text, y: Text)
    requires a != [] && b != [] && Alternates(a) && Alternates(b) && x == Spelled(a[1..]) && y == Spelled(b[1..])
    requires Spelled(a) == Spelled(b)
    ensures a[0] == b[0] && x == y
  {
    SpelledBehind(a);
    SpelledBehind(b);
    TimesSplit(a[0], x, b[0], y);
  }

  lemma TimesSplit(p: Stretch, x: Text, q: Stretch, y: Text)
    requires p.n > 0 && q.n > 0 && (x != [] ==> x[0] != p.c) && (y != [] ==> y[0] != q.c)
    requires Times(p.c, p.n) + x == Times(q.c, q.n) + y
    ensures p == q && x == y
  {
    var s := Times(p.c, p.n) + x;
    assert s[0] == p.c == q.c;
    assert s[p.n..] == x && s[q.n..] == y;
  }

  /** No letter stands three times in a row. */
  ghost predicate NoTriples(s: Text) {
    forall k :: 0 <= k < |s| - 2 && s[k] == s[k + 1] == s[k + 2] ==> !IsAlpha(s[k])
  }

  lemma KeptShape(run: Text, c: CodeUnit)
    requires run != [] && forall k :: 0 <= k < |run| ==> run[k] == c
    ensures var r := Kept(run);
      r != [] && (forall k :: 0 <= k < |r| ==> r[k] == c) && (IsAlpha(c) ==> |r| <= 2)
  {
  }

  lemma NoTriplesJoin(head: Text, c: CodeUnit, tail: Text)
    requires (forall k :: 0 <= k < |head| ==> head[k] == c) && (IsAlpha(c) ==> |head| <= 2)
    requires NoTriples(tail) && (tail != [] ==> tail[0] != c)
    ensures NoTriples(head + tail)
  {
    var all := head + tail;
    assert tail != [] ==> all[|head|] == tail[0];
    forall k | 0 <= k < |all| - 2 && all[k] == all[k + 1] == all[k + 2] ensures !IsAlpha(all[k]) {
      if k >= |head| {
        assert tail[k - |head|] == tail[k - |head| + 1] == tail[k - |head| + 2];
      }
    }
  }

  lemma {:induction false} CollapseBegins(s: Text, k: nat)
    requires k < |s|
    ensures Collapse(s, k) != [] && Collapse(s, k)[0] == s[k]
  {
  }

  lemma {:induction false} CollapseHasNoTriples(s: Text, k: nat)
    requires k <= |s|
    ensures NoTriples(Collapse(s, k))
    decreases |s| - k
  {
    if k < |s| {
      var j := RunEnd(s, k, s[k]);
      CollapseHasNoTriples(s, j);
      KeptShape(s[k..j], s[k]);
      if j < |s| { CollapseBegins(s, j); }
      NoTriplesJoin(Kept(s[k..j]), s[k], Collapse(s, j));
    }
  }

  /** Collapsing drops only letters, and of every letter keeps one. */
  lemma {:induction false} CollapseMembers(s: Text, k: nat, c: CodeUnit)
    requires k <= |s|
    ensures c in Collapse(s, k) <==> c in s[k..]
    decreases |s| - k
  {
    if k < |s| {
      var j := RunEnd(s, k, s[k]);
      CollapseMembers(s, j, c);
      assert s[k..] == s[k..j] + s[j..];
      KeptMembers(s[k..j], s[k], c);
    }
  }

  lemma KeptMembers(run: Text, d: CodeUnit, c: CodeUnit)
    requires run != [] && forall k :: 0 <= k < |run| ==> run[k] == d
    ensures c in Kept(run) <==> c in run
  {
    KeptShape(run, d);
    assert run[0] == Kept(run)[0] == d;
  }

  /** A text without triple letters is left alone. */
  lemma {:induction false} CollapseTwice(s: Text, k: nat)
    requires k <= |s| && NoTriples(s)
    ensures Collapse(s, k) == s[k..]
    decreases |s| - k
  {
    if k < |s| {
      var j := RunEnd(s, k, s[k]);
      CollapseTwice(s, j);
      assert s[k..j][0] == s[k];
      assert j - k >= 3 ==> s[k] == s[k + 1] == s[k + 2];
      assert s[k..] == s[k..j] + s[j..];
    }
  }

  // ----- the two together

  function Normalized(message: Text): Text {
    Collapse(Fold(message), 0)
  }

  lemma CollapseKeeps(s: Text)
    ensures Folded(s) ==> Folded(Collapse(s, 0))
    ensures HasLeet(Collapse(s, 0)) <==> HasLeet(s)
  {
    var r := Collapse(s, 0);
    assert s[0..] == s;
    if Folded(s) {
      forall k | 0 <= k < |r| ensures r[k] < 0x80 && !IsUpper(r[k]) {
        CollapseMembers(s, 0, r[k]);
      }
    }
    if HasLeet(r) {
      var k :| 0 <= k < |r| && IsLeet(r[k]);
      CollapseMembers(s, 0, r[k]);
    }
    if HasLeet(s) {
      var k :| 0 <= k < |s| && IsLeet(s[k]);
      CollapseMembers(s, 0, s[k]);
    }
  }

  /** A normalized message is lower-case ASCII with no letter three times in a row, and holds a digit that
      stands for a letter exactly when the message held a fullwidth one. */
  lemma NormalizedShape(message: Text)
    ensures Folded(Normalized(message)) && NoTriples(Normalized(message))
    ensures HasLeet(Normalized(message)) <==> HasFullwidthLeet(message)
  {
    FoldShape(message);
    CollapseHasNoTriples(Fold(message), 0);
    CollapseKeeps(Fold(message));
  }

  lemma {:induction false} AsciiHasNoFullwidth(s: Text)
    requires Folded(s)
    ensures !HasFullwidthLeet(s)
  {
    if s != [] {
      assert Lenient(s) == Decoded(s[0] as CodePoint, 1);
      AsciiIsNotFullwidth(s[0]);
      AsciiHasNoFullwidth(s[1..]);
    }
  }

  lemma AsciiIsNotFullwidth(c: CodeUnit)
    ensures !IsFullwidthLeet(c as CodePoint)
  {
  }

  /** Normalizing twice is normalizing once, exactly for the messages without fullwidth digits that stand
      for letters. */
  lemma IdempotentIff(message: Text)
    ensures Normalized(Normalized(message)) == Normalized(message) <==> !HasFullwidthLeet(message)
  {
    var once := Normalized(message);
    NormalizedShape(message);
    if HasFullwidthLeet(message) {
      AsciiHasNoFullwidth(once);
      NormalizedShape(once);
    } else {
      FoldTwice(once);
      CollapseTwice(once, 0);
      assert once[0..] == once;
    }
  }

  /** Such a message: the fullwidth digit one becomes the digit, and then the letter. */
  lemma FullwidthTwice()
    ensures Scalar(0xFF11) && Normalized(Encode(0xFF11)) == [0x31] && Normalized([0x31]) == [0x69]
  {
    var s := Encode(0xFF11);
    DecodeEncoded(0xFF11, []);
    assert s + [] == s;
    LenientIsStrict(s);
    assert FoldOne(0xFF11) == [0x31];
    assert Fold(s) == [0x31];
    assert RunEnd([0x31], 0, 0x31) == 1;
    assert [0x31][0..1] == [0x31];
    assert Fold([0x31]) == [0x69];
    assert RunEnd([0x69], 0, 0x69) == 1;
    assert [0x69][0..1] == [0x69];
  }

  /** A combining mark or zero-width character after any well-formed prefix makes no difference. */
  lemma InsertionInvisible(a: Text, cp: CodePoint, b: Text)
    requires WellFormed(a) && IsIgnored(cp)
    ensures Scalar(cp) && Normalized(a + Encode(cp) + b) == Normalized(a + b)
  {
    FoldIgnored(cp);
    FoldInserted(a, Encode(cp), b);
  }

  lemma FoldInserted(a: Text, e: Text, b: Text)
    requires WellFormed(a) && WellFormed(e) && Fold(e) == []
    ensures Fold(a + e + b) == Fold(a + b)
  {
    WellFormedJoin(a, e);
    FoldJoin(a, e);
    FoldJoin(a + e, b);
    FoldJoin(a, b);
  }

  // ----- the method, with its two loops

  method Normalize(message: Text) returns (out: Text)
    ensures out == Normalized(message)
  {
    var folded := FoldMessage(message);
    out := CollapseRuns(folded);
  }

  method FoldMessage(message: Text) returns (folded: Text)
    ensures folded == Fold(message)
  {
    folded := [];
    var i := 0;
    assert message[0..] == message;
    while i < |message|
      invariant i <= |message|
      invariant folded + Fold(message[i..]) == Fold(message)
    {
      var cp, next := DecodeUtf8(message, i);
      FoldStep(message, i, next, cp, folded);
      i := next;
      folded := Append(folded, cp);
    }
    NothingLeft(message, folded);
  }

  /** One turn of the loop, after decoding. */
  method Append(folded: Text, cp: CodePoint) returns (out: Text)
    ensures out == folded + FoldOne(cp)
  {
    if cp == REPLACEMENT {
      return folded + [SPACE];
    }
    if IsCombiningMark(cp) || IsZeroWidth(cp) {
      return folded;
    }
    if cp < 0x80 {
      var c := ToLower(cp as CodeUnit);
      if IsDigit(c) {
        c := FoldLeetDigit(c);
      }
      return folded + [c];
    }
    var ch := FoldConfusable(cp);
    if ch != 0 {
      return folded + [ToLower(ch)];
    }
    return folded + [SPACE];
  }

  lemma NothingLeft(message: Text, folded: Text)
    ensures folded + Fold(message[|message|..]) == folded
  {
  }

  lemma FoldStep(message: Text, i: nat, next: nat, cp: CodePoint, folded: Text)
    requires i < next && i < |message| && Decoded(cp, next - i) == Lenient(message[i..])
    ensures next <= |message| && folded + Fold(message[i..]) == folded + FoldOne(cp) + Fold(message[next..])
  {
    assert message[i..][next - i..] == message[next..];
    Regroup(folded, FoldOne(cp), Fold(message[next..]));
  }

  method CollapseRuns(folded: Text) returns (out: Text)
    ensures out == Collapse(folded, 0)
  {
    out := [];
    var k := 0;
    while k < |folded|
      invariant k <= |folded| && out + Collapse(folded, k) == Collapse(folded, 0)
    {
      var c, j := folded[k], k;
      while j < |folded| && folded[j] == c
        invariant k <= j <= |folded| && RunEnd(folded, j, c) == RunEnd(folded, k, c)
        invariant j == k ==> folded[j] == c
      {
        j := j + 1;
      }
      var length := j - k;
      assert folded[k..j][0] == c;
      Regroup(out, Kept(folded[k..j]), Collapse(folded, j));
      if IsAlpha(c) && length >= 3 {
        out := out + [c];
      } else {
        out := out + folded[k..j];
      }
      k := j;
    }
  }
}
