/**
 Reading a number in base 16, as the library call behind chunk sizes does (engine/net/Http.cpp), against
 writing one by division.
 */
module Hexadecimal {

  // ----- Reading

  predicate IsHex(c: char) { '0' <= c <= '9' || 'a' <= c <= 'f' || 'A' <= c <= 'F' }

  function Digit(c: char): nat
    requires IsHex(c)
  {
    if c <= '9' then (c - '0') as nat else if c <= 'F' then (c - 'A') as nat + 10 else (c - 'a') as nat + 10
  }

  predicate AllHex(s: string) { forall i :: 0 <= i < |s| ==> IsHex(s[i]) }

  function HexLength(s: string): (n: nat)
    ensures n <= |s| && AllHex(s[..n])
  {
    if s == "" || !IsHex(s[0]) then 0 else 1 + HexLength(s[1..])
  }

  function HexNumber(s: string): nat
    requires AllHex(s)
  {
    if s == "" then 0 else 16 * HexNumber(s[..|s| - 1]) + Digit(s[|s| - 1])
  }

  // ----- Writing

  const LOWER := "0123456789abcdef"
  const UPPER := "0123456789ABCDEF"

  /** The text is a hexadecimal form of the number: digits of either case, any number of leading zeros. */
  predicate Writes(s: string, n: nat) {
    if s == "" then n == 0
    else
      var last := s[|s| - 1];
      (last == LOWER[n % 16] || last == UPPER[n % 16]) && Writes(s[..|s| - 1], n / 16)
  }

  /** The shortest form, by repeated division. */
  function Hex(n: nat, symbols: string): (s: string)
    requires |symbols| == 16
    ensures s != ""
  {
    if n < 16 then [symbols[n]] else Hex(n / 16, symbols) + [symbols[n % 16]]
  }

  function Zeros(k: nat): (s: string)
    ensures |s| == k
  {
    if k == 0 then "" else Zeros(k - 1) + "0"
  }

  lemma WritesMore(front: string, c: char, n: nat)
    requires Writes(front, n / 16) && (c == LOWER[n % 16] || c == UPPER[n % 16])
    ensures Writes(front + [c], n)
  {
    assert (front + [c])[..|front|] == front;
  }

  lemma {:induction false} ZerosWrite(k: nat)
    ensures Writes(Zeros(k), 0)
  {
    if k > 0 {
      ZerosWrite(k - 1);
      WritesMore(Zeros(k - 1), '0', 0);
    }
  }

  lemma {:induction false} HexWrites(n: nat, symbols: string, zeros: nat)
    requires symbols == LOWER || symbols == UPPER
    ensures Writes(Zeros(zeros) + Hex(n, symbols), n)
  {
    var c := symbols[n % 16];
    if n < 16 {
      ZerosWrite(zeros);
      WritesMore(Zeros(zeros), c, n);
    } else {
      HexWrites(n / 16, symbols, zeros);
      WritesMore(Zeros(zeros) + Hex(n / 16, symbols), c, n);
      assert Zeros(zeros) + (Hex(n / 16, symbols) + [c]) == (Zeros(zeros) + Hex(n / 16, symbols)) + [c];
    }
  }

  /** The digit that a symbol of either case stands for. */
  lemma DigitIff(c: char, d: nat)
    requires d < 16
    ensures (c == LOWER[d] || c == UPPER[d]) <==> IsHex(c) && Digit(c) == d
  {
    if d < 10 {
      assert LOWER[d] == UPPER[d] == '0' + d as char;
    } else {
      assert LOWER[d] == 'a' + (d - 10) as char && UPPER[d] == 'A' + (d - 10) as char;
    }
  }

  /** Reading inverts writing: the texts that are read as a number are its hexadecimal forms. */
  lemma {:induction false} ReadsIff(s: string, n: nat)
    ensures Writes(s, n) <==> AllHex(s) && HexNumber(s) == n
  {
    if s != "" {
      var front, last := s[..|s| - 1], s[|s| - 1];
      assert s == front + [last];
      assert AllHex(s) <==> AllHex(front) && IsHex(last);
      ReadsIff(front, n / 16);
      DigitIff(last, n % 16);
      if AllHex(s) {
        ReadsDigit(HexNumber(front), Digit(last), n);
      }
    }
  }

  lemma ReadsDigit(front: nat, d: nat, n: nat)
    requires d < 16
    ensures 16 * front + d == n <==> front == n / 16 && d == n % 16
  {
  }
}
