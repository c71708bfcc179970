/**
 The port in a host string, as get_h2 reads it (engine/net/HttpPool.cpp).

 std::stoi is called on whatever follows the first colon, outside of any try: it skips blanks, takes a sign
 and as many digits as there are, ignores the rest, and throws without a digit or when the number does not
 fit an int.
 */
module HostPort {

  import opened Strings

  const INT_MAX := 0x7FFF_FFFF

  predicate IsBlank(c: char) { c == ' ' || 9 <= c as int <= 13 }

  predicate IsDigit(c: char) { '0' <= c <= '9' }

  function SkipBlanks(s: string): string {
    if s != "" && IsBlank(s[0]) then SkipBlanks(s[1..]) else s
  }

  function Digits(s: string): (n: nat)
    ensures n <= |s| && forall i :: 0 <= i < n ==> IsDigit(s[i])
  {
    if s == "" || !IsDigit(s[0]) then 0 else 1 + Digits(s[1..])
  }

  function Number(s: string): nat
    requires forall i :: 0 <= i < |s| ==> IsDigit(s[i])
  {
    if s == "" then 0
    else
      assert IsDigit(s[|s| - 1]);
      10 * Number(s[..|s| - 1]) + (s[|s| - 1] as int - '0' as int)
  }

  /** std::stoi returns. */
  predicate Converts(text: string) {
    var t := SkipBlanks(text);
    var signed := t != "" && (t[0] == '-' || t[0] == '+');
    var u := if signed then t[1..] else t;
    var n := Digits(u);
    n > 0 && Number(u[..n]) <= if signed && t[0] == '-' then INT_MAX + 1 else INT_MAX
  }

  /** The first position of "://", or the length. */
  function Separator(s: string, from: nat): (i: nat)
    requires from <= |s|
    ensures from <= i <= |s| && (i < |s| ==> i + 3 <= |s| && s[i..i + 3] == "://")
    decreases |s| - from
  {
    if from == |s| then from
    else if from + 3 <= |s| && s[from..from + 3] == "://" then from
    else Separator(s, from + 1)
  }

  function AfterScheme(host: string): string {
    var i := Separator(host, 0);
    if i == |host| then host else host[i + 3..]
  }

  /** What stands between the scheme and the first slash. */
  function Authority(host: string): string {
    UpToSlash(AfterScheme(host))
  }

  function UpToSlash(s: string): string { s[..Find(s, '/', 0)] }

  /** Connecting to the host over HTTP/2 ends in the exception of std::stoi.  For http:// the port is not
      read at all. */
  predicate PortThrows(host: string) {
    var a := Authority(host);
    var colon := Find(a, ':', 0);
    !("http://" <= host) && colon < |a| && !Converts(a[colon + 1..])
  }

  const HTTPS := "https://"

  lemma NoSeparatorBefore(s: string, from: nat)
    requires from <= 5 && |s| >= 8 && s[..8] == HTTPS
    ensures Separator(s, from) == 5
    decreases 5 - from
  {
    assert s[5..8] == s[..8][5..8] == "://";
    if from < 5 {
      assert s[from] == HTTPS[from] && HTTPS[from] != ':';
      assert s[from..from + 3][0] != "://"[0];
      NoSeparatorBefore(s, from + 1);
    }
  }

  lemma HttpsAuthority(rest: string)
    ensures Authority(HTTPS + rest) == UpToSlash(rest) && !("http://" <= HTTPS + rest)
  {
    var s := HTTPS + rest;
    assert s[..8] == HTTPS && s[8..] == rest;
    NoSeparatorBefore(s, 0);
    assert s[4] == HTTPS[4] && HTTPS[4] != "http://"[4];
  }

  /** Where the first slash of two joined texts stands, when the first has none. */
  lemma FindBehind(front: string, rest: string, c: char)
    requires c !in front
    ensures Find(front + rest, c, 0) == |front| + Find(rest, c, 0)
  {
    var i := Find(rest, c, 0);
    FindIsFirst(rest, c, 0);
    assert (front + rest)[0..|front| + i] == front + rest[0..i];
    FindUnique(front + rest, c, 0, |front| + i);
  }

  lemma FindAt(front: string, rest: string, c: char)
    requires c !in front && rest != "" && rest[0] == c
    ensures Find(front + rest, c, 0) == |front| < |front + rest|
  {
    FindBehind(front, rest, c);
  }

  /** A host with a name and something behind a colon. */
  function WithPort(name: string, rest: string): string { HTTPS + (name + (":" + rest)) }

  lemma PortText(name: string, rest: string)
    requires ':' !in name && '/' !in name
    ensures Authority(WithPort(name, rest)) == name + (":" + UpToSlash(rest))
  {
    HttpsAuthority(name + (":" + rest));
    FindBehind(name, ":" + rest, '/');
    FindBehind(":", rest, '/');
    var slash := Find(rest, '/', 0);
    CutBehind(":", rest, slash);
    CutBehind(name, ":" + rest, 1 + slash);
  }

  lemma CutBehind(a: string, b: string, k: nat)
    requires k <= |b|
    ensures (a + b)[..|a| + k] == a + b[..k]
  {
  }

  /** The exception depends only on the text behind the first colon, up to the first slash. */
  lemma ThrowsIff(name: string, rest: string)
    requires ':' !in name && '/' !in name
    ensures PortThrows(WithPort(name, rest)) <==> !Converts(UpToSlash(rest))
  {
    HttpsAuthority(name + (":" + rest));
    PortText(name, rest);
    var port := UpToSlash(rest);
    FindAt(name, ":" + port, ':');
    assert (name + (":" + port))[|name| + 1..] == port;
  }

  predicate Foreign(c: char) { !IsBlank(c) && !IsDigit(c) && c != '-' && c != '+' }

  lemma ForeignFails(text: string)
    requires text == "" || Foreign(text[0])
    ensures !Converts(text)
  {
  }

  /** No host whose first colon is followed by neither a blank, a sign nor a digit has a port that can be
      read: an address in brackets whose second group starts with a letter or is left out, for one. */
  lemma NoNumberThrows(name: string, rest: string)
    requires ':' !in name && '/' !in name && (rest == "" || Foreign(rest[0]))
    ensures PortThrows(WithPort(name, rest))
  {
    ThrowsIff(name, rest);
    ForeignFails(UpToSlash(rest));
  }

  /** An IPv6 address in brackets with a proper port. */
  lemma BracketedThrows()
    ensures PortThrows("https://[::1]:8443")
  {
    var name, rest := "[", ":1]:8443";
    assert name + (":" + rest) == "[::1]:8443";
    assert HTTPS + "[::1]:8443" == "https://[::1]:8443";
    NoNumberThrows(name, rest);
  }

  // ----- Ports that are numbers

  const DIGITS := "0123456789"

  /** A number in decimal, by repeated division. */
  function Decimal(n: nat): (s: string)
    ensures s != ""
  {
    if n < 10 then [DIGITS[n]] else Decimal(n / 10) + [DIGITS[n % 10]]
  }

  function Zeros(k: nat): string { if k == 0 then "" else Zeros(k - 1) + "0" }

  predicate AllDigits(s: string) { forall i :: 0 <= i < |s| ==> IsDigit(s[i]) }

  predicate AllBlank(s: string) { forall i :: 0 <= i < |s| ==> IsBlank(s[i]) }

  lemma OneDigit(front: string, d: nat)
    requires AllDigits(front) && d < 10
    ensures AllDigits(front + [DIGITS[d]]) && Number(front + [DIGITS[d]]) == 10 * Number(front) + d
  {
    assert DIGITS[d] == '0' + d as char;
    assert (front + [DIGITS[d]])[..|front|] == front;
  }

  lemma {:induction false} ZerosAreZero(k: nat)
    ensures AllDigits(Zeros(k)) && Number(Zeros(k)) == 0
  {
    if k > 0 {
      ZerosAreZero(k - 1);
      OneDigit(Zeros(k - 1), 0);
    }
  }

  lemma {:induction false} DecimalIsRead(zeros: nat, n: nat)
    ensures AllDigits(Zeros(zeros) + Decimal(n)) && Number(Zeros(zeros) + Decimal(n)) == n
  {
    if n < 10 {
      ZerosAreZero(zeros);
      OneDigit(Zeros(zeros), n);
    } else {
      DecimalIsRead(zeros, n / 10);
      OneDigit(Zeros(zeros) + Decimal(n / 10), n % 10);
      assert Zeros(zeros) + Decimal(n) == (Zeros(zeros) + Decimal(n / 10)) + [DIGITS[n % 10]];
    }
  }

  lemma {:induction false} DigitsMeasured(d: string, tail: string)
    requires AllDigits(d) && (tail == "" || !IsDigit(tail[0]))
    ensures Digits(d + tail) == |d|
  {
    if d == "" {
      assert d + tail == tail;
    } else {
      assert (d + tail)[1..] == d[1..] + tail;
      DigitsMeasured(d[1..], tail);
    }
  }

  lemma {:induction false} BlanksSkipped(blanks: string, s: string)
    requires AllBlank(blanks) && s != "" && !IsBlank(s[0])
    ensures SkipBlanks(blanks + s) == s
  {
    if blanks == "" {
      assert blanks + s == s;
    } else {
      assert (blanks + s)[1..] == blanks[1..] + s;
      BlanksSkipped(blanks[1..], s);
    }
  }

  /** A number as it may be written in front of anything: blanks, a sign, leading zeros. */
  function Written(blanks: string, sign: string, zeros: nat, n: nat): string {
    blanks + (sign + (Zeros(zeros) + Decimal(n)))
  }

  predicate Plausible(blanks: string, sign: string, tail: string) {
    AllBlank(blanks) && (sign == "" || sign == "+" || sign == "-") && (tail == "" || !IsDigit(tail[0]))
  }

  /** A written number is read exactly when it fits an int, whatever follows. */
  lemma ConvertsIff(blanks: string, sign: string, zeros: nat, n: nat, tail: string)
    requires Plausible(blanks, sign, tail)
    ensures Converts(Written(blanks, sign, zeros, n) + tail) <==> n <= INT_MAX + if sign == "-" then 1 else 0
  {
    var digits := Zeros(zeros) + Decimal(n);
    var t := sign + (digits + tail);
    assert Written(blanks, sign, zeros, n) + tail == blanks + t;
    DecimalIsRead(zeros, n);
    DigitsMeasured(digits, tail);
    assert digits != "" && IsDigit(digits[0]);
    BlanksSkipped(blanks, t);
    SignSplits(sign, digits, tail);
    ConvertsBehind(blanks + t, t, digits + tail, |digits|);
  }

  /** What is left to say once the blanks are skipped and the sign is known. */
  lemma ConvertsBehind(text: string, t: string, u: string, n: nat)
    requires SkipBlanks(text) == t && t != "" && (u == if t[0] == '-' || t[0] == '+' then t[1..] else t)
    requires Digits(u) == n > 0
    ensures Converts(text) <==> Number(u[..n]) <= if t[0] == '-' then INT_MAX + 1 else INT_MAX
  {
  }

  lemma SignSplits(sign: string, digits: string, tail: string)
    requires (sign == "" || sign == "+" || sign == "-") && digits != "" && AllDigits(digits)
    ensures
      var t := sign + (digits + tail);
      && (sign == "" ==> t == digits + tail && t[0] != '+' && t[0] != '-')
      && (sign != "" ==> t[0] == sign[0] && t[1..] == digits + tail)
      && (digits + tail)[..|digits|] == digits
  {
    assert IsDigit(digits[0]);
  }

  lemma WrittenHasNoSlash(blanks: string, sign: string, zeros: nat, n: nat)
    requires AllBlank(blanks) && (sign == "" || sign == "+" || sign == "-")
    ensures '/' !in Written(blanks, sign, zeros, n)
  {
    DecimalIsRead(zeros, n);
    var digits := Zeros(zeros) + Decimal(n);
    assert '/' !in digits;
  }

  /** The port of a host with a written number behind the first colon is read exactly when the number fits
      an int. */
  lemma NumberReads(name: string, blanks: string, sign: string, zeros: nat, n: nat, tail: string)
    requires ':' !in name && '/' !in name && Plausible(blanks, sign, tail)
    ensures PortThrows(WithPort(name, Written(blanks, sign, zeros, n) + tail))
       <==> n > INT_MAX + if sign == "-" then 1 else 0
  {
    var core, cut := Written(blanks, sign, zeros, n), UpToSlash(tail);
    ThrowsIff(name, core + tail);
    WrittenHasNoSlash(blanks, sign, zeros, n);
    FindBehind(core, tail, '/');
    assert UpToSlash(core + tail) == core + cut;
    assert cut != "" ==> cut[0] == tail[0];
    ConvertsIff(blanks, sign, zeros, n, cut);
  }
}
