/**
 The bytes of UTF-8: the table of well-formed sequences of section 4 of RFC 3629, the masks and shifts
 with which the decoders take a sequence apart, and the encoding of section 3.

 Everything here is about single sequences of up to four bytes, as bit patterns of 8 and 32 bits.
 Texts, and the decoders themselves, are built on it.
 */
module Utf8Bytes {

  type CodeUnit = bv8
  type CodePoint = bv32

  // ----- well-formed sequences, by the table

  predicate IsTail(b: CodeUnit) {
    b & 0xC0 == 0x80
  }

  predicate Between(lo: CodeUnit, b: CodeUnit, hi: CodeUnit) {
    lo <= b <= hi
  }

  predicate Two(a: CodeUnit, b: CodeUnit) {
    Between(0xC2, a, 0xDF) && Between(0x80, b, 0xBF)
  }

  predicate Three(a: CodeUnit, b: CodeUnit, c: CodeUnit) {
    && (|| (a == 0xE0 && Between(0xA0, b, 0xBF)) || (Between(0xE1, a, 0xEC) && Between(0x80, b, 0xBF))
        || (a == 0xED && Between(0x80, b, 0x9F)) || (Between(0xEE, a, 0xEF) && Between(0x80, b, 0xBF)))
    && Between(0x80, c, 0xBF)
  }

  predicate Four(a: CodeUnit, b: CodeUnit, c: CodeUnit, d: CodeUnit) {
    && (|| (a == 0xF0 && Between(0x90, b, 0xBF)) || (Between(0xF1, a, 0xF3) && Between(0x80, b, 0xBF))
        || (a == 0xF4 && Between(0x80, b, 0x8F)))
    && Between(0x80, c, 0xBF) && Between(0x80, d, 0xBF)
  }

  // ----- the value of a sequence

  function Low(b: CodeUnit, mask: CodeUnit): CodePoint {
    (b & mask) as CodePoint
  }

  function Cp2(a: CodeUnit, b: CodeUnit): CodePoint {
    (Low(a, 0x1F) << 6) | Low(b, 0x3F)
  }

  function Cp3(a: CodeUnit, b: CodeUnit, c: CodeUnit): CodePoint {
    (Low(a, 0x0F) << 12) | (Low(b, 0x3F) << 6) | Low(c, 0x3F)
  }

  function Cp4(a: CodeUnit, b: CodeUnit, c: CodeUnit, d: CodeUnit): CodePoint {
    (Low(a, 0x07) << 18) | (Low(b, 0x3F) << 12) | (Low(c, 0x3F) << 6) | Low(d, 0x3F)
  }

  function LeadWidth(b: CodeUnit): (w: nat)
    ensures w <= 4
  {
    if b & 0xE0 == 0xC0 then 2 else if b & 0xF0 == 0xE0 then 3 else if b & 0xF8 == 0xF0 then 4 else 0
  }

  function LeadBits(b: CodeUnit): CodePoint {
    if b & 0xE0 == 0xC0 then Low(b, 0x1F) else if b & 0xF0 == 0xE0 then Low(b, 0x0F) else Low(b, 0x07)
  }

  function Shifted(cp: CodePoint, b: CodeUnit): CodePoint {
    (cp << 6) | Low(b, 0x3F)
  }

  // ----- encoding

  /** A code point that has an encoding: in range and not a surrogate. */
  predicate Scalar(cp: CodePoint) {
    cp <= 0x10_FFFF && !(0xD800 <= cp <= 0xDFFF)
  }

  function TailOf(x: CodePoint): CodeUnit {
    0x80 | ((x & 0x3F) as CodeUnit)
  }

  /** Section 3 of RFC 3629. */
  function Encode(cp: CodePoint): (b: seq<CodeUnit>)
    requires Scalar(cp)
    ensures 1 <= |b| <= 4
  {
    if cp < 0x80 then [cp as CodeUnit]
    else if cp < 0x800 then [0xC0 | ((cp >> 6) as CodeUnit), TailOf(cp)]
    else if cp < 0x1_0000 then [0xE0 | ((cp >> 12) as CodeUnit), TailOf(cp >> 6), TailOf(cp)]
    else [0xF0 | ((cp >> 18) as CodeUnit), TailOf(cp >> 12), TailOf(cp >> 6), TailOf(cp)]
  }

  // ----- the masks and the table agree

  lemma TwoIff(a: CodeUnit, b: CodeUnit)
    ensures Two(a, b) <==> a & 0xE0 == 0xC0 && IsTail(b) && !(Cp2(a, b) < 0x80)
  {
  }

  lemma ThreeIff(a: CodeUnit, b: CodeUnit, c: CodeUnit)
    ensures Three(a, b, c) <==>
      && a & 0xF0 == 0xE0 && IsTail(b) && IsTail(c)
      && !(Cp3(a, b, c) < 0x800) && !(0xD800 <= Cp3(a, b, c) <= 0xDFFF)
  {
  }

  lemma FourIff(a: CodeUnit, b: CodeUnit, c: CodeUnit, d: CodeUnit)
    ensures Four(a, b, c, d) <==>
      && a & 0xF8 == 0xF0 && IsTail(b) && IsTail(c) && IsTail(d)
      && !(Cp4(a, b, c, d) < 0x1_0000) && !(Cp4(a, b, c, d) > 0x10_FFFF)
  {
  }

  lemma Leads(a: CodeUnit)
    ensures a <= 0x7F <==> a < 0x80
    ensures a < 0x80 ==> a & 0xE0 != 0xC0 && a & 0xF0 != 0xE0 && a & 0xF8 != 0xF0
    ensures a & 0xE0 == 0xC0 ==> a & 0xF0 != 0xE0 && a & 0xF8 != 0xF0
    ensures a & 0xF0 == 0xE0 ==> a & 0xF8 != 0xF0
  {
  }

  lemma ShiftedThree(a: CodeUnit, b: CodeUnit, c: CodeUnit)
    ensures Shifted(Shifted(Low(a, 0x0F), b), c) == Cp3(a, b, c)
  {
  }

  lemma ShiftedFour(a: CodeUnit, b: CodeUnit, c: CodeUnit, d: CodeUnit)
    ensures Shifted(Shifted(Shifted(Low(a, 0x07), b), c), d) == Cp4(a, b, c, d)
  {
  }

  lemma Ranges(a: CodeUnit, b: CodeUnit, c: CodeUnit, d: CodeUnit)
    ensures !(0xD800 <= Cp2(a, b) <= 0xDFFF) && !(Cp2(a, b) > 0x10_FFFF) && !(Cp3(a, b, c) > 0x10_FFFF)
    ensures Cp4(a, b, c, d) >= 0x1_0000 ==> !(0xD800 <= Cp4(a, b, c, d) <= 0xDFFF)
  {
  }

  // ----- encoding and decoding invert each other

  lemma EncodeTwo(cp: CodePoint)
    requires 0x80 <= cp < 0x800
    ensures var a, b := 0xC0 | ((cp >> 6) as CodeUnit), TailOf(cp); Two(a, b) && Cp2(a, b) == cp && a & 0xE0 == 0xC0
  {
  }

  lemma EncodeThree(cp: CodePoint)
    requires 0x800 <= cp < 0x1_0000 && Scalar(cp)
    ensures var a, b, c := 0xE0 | ((cp >> 12) as CodeUnit), TailOf(cp >> 6), TailOf(cp);
      Three(a, b, c) && Cp3(a, b, c) == cp && a & 0xF0 == 0xE0
  {
  }

  lemma EncodeFour(cp: CodePoint)
    requires 0x1_0000 <= cp <= 0x10_FFFF
    ensures var a, b, c, d := 0xF0 | ((cp >> 18) as CodeUnit), TailOf(cp >> 12), TailOf(cp >> 6), TailOf(cp);
      Four(a, b, c, d) && Cp4(a, b, c, d) == cp && a & 0xF8 == 0xF0
  {
  }

  lemma EncodeOne(cp: CodePoint)
    requires cp < 0x80
    ensures (cp as CodeUnit) < 0x80 && (cp as CodeUnit) as CodePoint == cp
  {
  }

  lemma OneUnique(a: CodeUnit)
    requires a < 0x80
    ensures Scalar(a as CodePoint) && Encode(a as CodePoint) == [a]
  {
  }

  lemma TwoUnique(a: CodeUnit, b: CodeUnit)
    requires Two(a, b)
    ensures Scalar(Cp2(a, b)) && Encode(Cp2(a, b)) == [a, b]
  {
  }

  lemma ThreeRange(a: CodeUnit, b: CodeUnit, c: CodeUnit)
    requires Three(a, b, c)
    ensures Scalar(Cp3(a, b, c)) && 0x800 <= Cp3(a, b, c) < 0x1_0000
  {
  }

  lemma ThreeBytes(a: CodeUnit, b: CodeUnit, c: CodeUnit)
    requires Three(a, b, c) && Cp3(a, b, c) < 0x1_0000
    ensures 0xE0 | ((Cp3(a, b, c) >> 12) as CodeUnit) == a && TailOf(Cp3(a, b, c) >> 6) == b && TailOf(Cp3(a, b, c)) == c
  {
  }

  lemma ThreeUnique(a: CodeUnit, b: CodeUnit, c: CodeUnit)
    requires Three(a, b, c)
    ensures Scalar(Cp3(a, b, c)) && Encode(Cp3(a, b, c)) == [a, b, c]
  {
    ThreeRange(a, b, c);
    ThreeBytes(a, b, c);
  }

  lemma FourRange(a: CodeUnit, b: CodeUnit, c: CodeUnit, d: CodeUnit)
    requires Four(a, b, c, d)
    ensures Scalar(Cp4(a, b, c, d)) && 0x1_0000 <= Cp4(a, b, c, d) <= 0x10_FFFF
  {
  }

  lemma FourBytes(a: CodeUnit, b: CodeUnit, c: CodeUnit, d: CodeUnit)
    requires Four(a, b, c, d) && Cp4(a, b, c, d) <= 0x10_FFFF
    ensures 0xF0 | ((Cp4(a, b, c, d) >> 18) as CodeUnit) == a && TailOf(Cp4(a, b, c, d) >> 12) == b
    ensures TailOf(Cp4(a, b, c, d) >> 6) == c && TailOf(Cp4(a, b, c, d)) == d
  {
  }

  lemma FourUnique(a: CodeUnit, b: CodeUnit, c: CodeUnit, d: CodeUnit)
    requires Four(a, b, c, d)
    ensures Scalar(Cp4(a, b, c, d)) && Encode(Cp4(a, b, c, d)) == [a, b, c, d]
  {
    FourRange(a, b, c, d);
    FourBytes(a, b, c, d);
  }

  lemma LeadIsNoTail(a: CodeUnit)
    ensures a < 0x80 || a & 0xE0 == 0xC0 || a & 0xF0 == 0xE0 || a & 0xF8 == 0xF0 ==> !IsTail(a)
  {
  }
}
