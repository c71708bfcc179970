/**
 The five fields of a version 1 line of the PROXY protocol, as sscanf reads them with the format
 "%7s %63s %63s %u %u" (engine/net/ProxyProtocol.cpp), against the writer of such lines.

 Words are cut at their width, white space of any length and kind separates, and reading stops at a zero
 byte.  What sscanf makes of a number that has a minus sign or does not fit 32 bits is a parameter.
 */
module FieldScanner {
  import opened Common

  type Bytes = seq<Byte>

  datatype Fields = Fields(proto: Bytes, src: Bytes, dst: Bytes, srcPort: nat, dstPort: nat)

  const SPACE: Byte := 32
  const MINUS: Byte := 45
  const PLUS: Byte := 43
  const ZERO: Byte := 48

  predicate IsSpace(b: Byte) { b == SPACE || 9 <= b <= 13 }

  predicate IsDigit(b: Byte) { 48 <= b <= 57 }

  // ----- Reading

  function UpToZero(s: Bytes): Bytes {
    if s == [] || s[0] == 0 then [] else [s[0]] + UpToZero(s[1..])
  }

  function SkipSpace(s: Bytes): Bytes {
    if s != [] && IsSpace(s[0]) then SkipSpace(s[1..]) else s
  }

  /** The length of the word at the front, cut at `max`. */
  function WordLength(s: Bytes, max: nat): (n: nat)
    ensures n <= |s|
  {
    if max == 0 || s == [] || IsSpace(s[0]) then 0 else 1 + WordLength(s[1..], max - 1)
  }

  /** A word and what is behind it. */
  function TakeWord(s: Bytes, max: nat): Option<(Bytes, Bytes)> {
    var t := SkipSpace(s);
    var n := WordLength(t, max);
    if n == 0 then None else Some((t[..n], t[n..]))
  }

  function DigitCount(s: Bytes): (n: nat)
    ensures n <= |s| && AllDigits(s[..n])
  {
    if s == [] || !IsDigit(s[0]) then 0 else 1 + DigitCount(s[1..])
  }

  predicate AllDigits(s: Bytes) { forall i :: 0 <= i < |s| ==> IsDigit(s[i]) }

  function Value(s: Bytes): nat
    requires AllDigits(s)
  {
    if s == [] then 0 else 10 * Value(s[..|s| - 1]) + (s[|s| - 1] - ZERO)
  }

  /** A number and what is behind it; `odd` says what becomes of one that is not an unsigned int. */
  function TakeNumber(odd: Bytes -> nat, s: Bytes): Option<(nat, Bytes)> {
    var t := SkipSpace(s);
    var u := if t != [] && (t[0] == MINUS || t[0] == PLUS) then t[1..] else t;
    var n := DigitCount(u);
    if n == 0 then None
    else
      var plain := t[0] != MINUS && Value(u[..n]) < 0x1_0000_0000;
      Some((if plain then Value(u[..n]) else odd(t[..|t| - |u| + n]), u[n..]))
  }

  function Scan(odd: Bytes -> nat, line: Bytes): Option<Fields> {
    var proto := TakeWord(UpToZero(line), 7);
    if proto.None? then None
    else
      var src := TakeWord(proto.value.1, 63);
      if src.None? then None
      else
        var dst := TakeWord(src.value.1, 63);
        if dst.None? then None
        else
          var srcPort := TakeNumber(odd, dst.value.1);
          if srcPort.None? then None
          else
            var dstPort := TakeNumber(odd, srcPort.value.1);
            if dstPort.None? then None
            else Some(Fields(proto.value.0, src.value.0, dst.value.0, srcPort.value.0, dstPort.value.0))
  }

  // ----- Writing

  /** A number in decimal, by repeated division. */
  function Decimal(n: nat): (s: Bytes)
    ensures s != []
  {
    if n < 10 then [ZERO + n] else Decimal(n / 10) + [ZERO + n % 10]
  }

  /** A word that can stand in a line: not empty, without white space or zero bytes, no longer than its width. */
  predicate IsWord(w: Bytes, max: nat) {
    0 < |w| <= max && forall i :: 0 <= i < |w| ==> w[i] != 0 && !IsSpace(w[i])
  }

  predicate CanWrite(f: Fields) {
    IsWord(f.proto, 7) && IsWord(f.src, 63) && IsWord(f.dst, 63) && f.srcPort < 0x1_0000_0000 && f.dstPort < 0x1_0000_0000
  }

  function Write(f: Fields): Bytes {
    f.proto + ([SPACE] + (f.src + ([SPACE] + (f.dst + ([SPACE] + (Decimal(f.srcPort) + ([SPACE] + Decimal(f.dstPort))))))))
  }

  // ----- Reading what was written

  lemma {:induction false} DecimalIsRead(n: nat)
    ensures AllDigits(Decimal(n)) && Value(Decimal(n)) == n
  {
    if n >= 10 {
      DecimalIsRead(n / 10);
      var s := Decimal(n);
      assert s[..|s| - 1] == Decimal(n / 10);
    } else {
      assert Decimal(n)[..0] == [];
    }
  }

  predicate EndsHere(rest: Bytes) { rest == [] || IsSpace(rest[0]) }

  lemma {:induction false} WordMeasured(w: Bytes, rest: Bytes, max: nat)
    requires |w| <= max && EndsHere(rest) && forall i :: 0 <= i < |w| ==> !IsSpace(w[i])
    ensures WordLength(w + rest, max) == |w|
  {
    if w == [] {
      assert w + rest == rest;
    } else {
      assert (w + rest)[1..] == w[1..] + rest;
      WordMeasured(w[1..], rest, max - 1);
    }
  }

  lemma WordTaken(w: Bytes, rest: Bytes, max: nat)
    requires IsWord(w, max) && EndsHere(rest)
    ensures TakeWord(w + rest, max) == TakeWord([SPACE] + (w + rest), max) == Some((w, rest))
  {
    var s := w + rest;
    WordMeasured(w, rest, max);
    SpaceSkipped(s);
    assert s[..|w|] == w && s[|w|..] == rest;
  }

  lemma SpaceSkipped(s: Bytes)
    ensures SkipSpace([SPACE] + s) == SkipSpace(s)
  {
    assert ([SPACE] + s)[1..] == s;
  }

  lemma {:induction false} DigitsCounted(d: Bytes, rest: Bytes)
    requires AllDigits(d) && EndsHere(rest)
    ensures DigitCount(d + rest) == |d|
  {
    if d == [] {
      assert d + rest == rest;
    } else {
      assert (d + rest)[1..] == d[1..] + rest;
      DigitsCounted(d[1..], rest);
    }
  }

  lemma NumberTaken(odd: Bytes -> nat, n: nat, rest: Bytes)
    requires n < 0x1_0000_0000 && EndsHere(rest)
    ensures TakeNumber(odd, [SPACE] + (Decimal(n) + rest)) == Some((n, rest))
  {
    var d := Decimal(n);
    var s := d + rest;
    DecimalIsRead(n);
    DigitsCounted(d, rest);
    SpaceSkipped(s);
    assert IsDigit(d[0]) && s[0] == d[0];
    assert SkipSpace(s) == s;
    assert s[..|d|] == d && s[|d|..] == rest;
  }

  lemma {:induction false} NoZeroKept(s: Bytes)
    requires forall i :: 0 <= i < |s| ==> s[i] != 0
    ensures UpToZero(s) == s
  {
    if s != [] {
      NoZeroKept(s[1..]);
      assert s == [s[0]] + s[1..];
    }
  }

  lemma WriteHasNoZero(f: Fields)
    requires CanWrite(f)
    ensures forall i :: 0 <= i < |Write(f)| ==> Write(f)[i] != 0 && Write(f)[i] != 13
  {
    DecimalIsRead(f.srcPort);
    DecimalIsRead(f.dstPort);
  }

  /** Scanning a written line gives back its fields. */
  lemma ScanWritten(odd: Bytes -> nat, f: Fields)
    requires CanWrite(f)
    ensures Scan(odd, Write(f)) == Some(f)
  {
    WriteHasNoZero(f);
    NoZeroKept(Write(f));
    var e := Decimal(f.dstPort);
    var d := Decimal(f.srcPort) + ([SPACE] + e);
    var c := f.dst + ([SPACE] + d);
    var b := f.src + ([SPACE] + c);
    WordTaken(f.proto, [SPACE] + b, 7);
    WordTaken(f.src, [SPACE] + c, 63);
    WordTaken(f.dst, [SPACE] + d, 63);
    NumberTaken(odd, f.srcPort, [SPACE] + e);
    assert e + [] == e;
    NumberTaken(odd, f.dstPort, []);
  }
}
