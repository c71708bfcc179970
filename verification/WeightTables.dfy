/**
 Words, tables of words in row-major order, and the transposition the classifier's loader performs
 (engine/moderation/LocalClassifierLayer.cpp).

 A stored number is an opaque four-byte word; what it stands for is not decided here.  Everything is about
 positions: where an entry of a nested table lies among the words of the file, and where the loader puts
 it in memory.
 */
module WeightTables {
  import opened Bits
  import opened Common

  type Word = w: seq<Byte> | |w| == 4 witness [0, 0, 0, 0]

  const U32 := 0x1_0000_0000

  // ----- 32-bit numbers, least significant byte first

  function Shl(n: nat, k: nat): nat {
    n * Pow2(k)
  }

  /** Four bytes put together with shifts and bitwise or. */
  function ReadU32(b: seq<Byte>, off: nat): nat
    requires off + 4 <= |b|
  {
    Or(Or(Or(b[off], Shl(b[off + 1], 8)), Shl(b[off + 2], 16)), Shl(b[off + 3], 24))
  }

  function U32Bytes(n: nat): (b: seq<Byte>)
    requires n < U32
    ensures |b| == 4
  {
    [n % 256, n / 256 % 256, n / 0x1_0000 % 256, n / 0x100_0000]
  }

  lemma {:induction false} OrDisjoint(a: nat, b: nat, k: nat)
    requires a < Pow2(k)
    ensures Or(a, b * Pow2(k)) == a + b * Pow2(k)
    decreases k
  {
    if k == 0 {
      OrZero(b);
    } else {
      ShiftHalves(b, Pow2(k - 1));
      OrDisjoint(a / 2, b, k - 1);
    }
  }

  lemma {:induction false} OrZero(b: nat)
    ensures Or(0, b) == b
  {
    if b > 0 {
      OrZero(b / 2);
    }
  }

  lemma ShiftHalves(b: nat, p: nat)
    ensures b * (2 * p) == 2 * (b * p) && b * (2 * p) / 2 == b * p && b * (2 * p) % 2 == 0
  {
  }

  lemma ByteShifts()
    ensures Pow2(8) == 0x100 && Pow2(16) == 0x1_0000 && Pow2(24) == 0x100_0000
  {
    var k := 8;
    Pow2Of4(k / 2);
    Pow2Sum(k / 2, k / 2);
    Pow2Sum(k, k);
    Pow2Sum(2 * k, k);
  }

  function Sum4(b0: nat, b1: nat, b2: nat, b3: nat): nat {
    b0 + b1 * 0x100 + b2 * 0x1_0000 + b3 * 0x100_0000
  }

  lemma OrIsSum(b0: nat, b1: nat, b2: nat, b3: nat)
    requires b0 < 256 && b1 < 256 && b2 < 256
    ensures Or(Or(Or(b0, Shl(b1, 8)), Shl(b2, 16)), Shl(b3, 24)) == Sum4(b0, b1, b2, b3)
  {
    ByteShifts();
    OrDisjoint(b0, b1, 8);
    OrDisjoint(b0 + b1 * 0x100, b2, 16);
    OrDisjoint(b0 + b1 * 0x100 + b2 * 0x1_0000, b3, 24);
  }

  lemma LowDigit(n: nat, b: nat, m: nat)
    requires b < 256
    ensures n == b + 0x100 * m <==> b == n % 256 && m == n / 256
  {
  }

  lemma DivTwice(n: nat)
    ensures n / 256 / 256 == n / 0x1_0000 && n / 0x1_0000 / 256 == n / 0x100_0000
  {
  }

  lemma DigitsUnique(n: nat, b0: nat, b1: nat, b2: nat, b3: nat)
    requires n < U32 && b0 < 256 && b1 < 256 && b2 < 256 && b3 < 256
    ensures Sum4(b0, b1, b2, b3) < U32
    ensures Sum4(b0, b1, b2, b3) == n <==> b0 == n % 256 && b1 == n / 256 % 256 && b2 == n / 0x1_0000 % 256 && b3 == n / 0x100_0000
  {
    var m1, m2 := b1 + b2 * 0x100 + b3 * 0x1_0000, b2 + b3 * 0x100;
    LowDigit(n, b0, m1);
    LowDigit(n / 256, b1, m2);
    LowDigit(n / 0x1_0000, b2, b3);
    DivTwice(n);
  }

  /** Reading a packed number gives it back, and only its packed form reads as that number. */
  lemma U32RoundTrip(b: seq<Byte>, off: nat, n: nat)
    requires off + 4 <= |b| && n < U32
    ensures ReadU32(b, off) < U32
    ensures ReadU32(b, off) == n <==> b[off..off + 4] == U32Bytes(n)
  {
    OrIsSum(b[off], b[off + 1], b[off + 2], b[off + 3]);
    DigitsUnique(n, b[off], b[off + 1], b[off + 2], b[off + 3]);
    var w := b[off..off + 4];
    assert w[0] == b[off] && w[1] == b[off + 1] && w[2] == b[off + 2] && w[3] == b[off + 3];
  }

  // ----- tables of words

  /** The bytes of words one after another, as they lie in memory and in the file. */
  function Flat(ws: seq<Word>): (b: seq<Byte>)
    ensures |b| == 4 * |ws|
  {
    if ws == [] then [] else ws[0] + Flat(ws[1..])
  }

  /** The first `n` words of some bytes. */
  function WordsOf(b: seq<Byte>, n: nat): (ws: seq<Word>)
    requires 4 * n <= |b|
    ensures |ws| == n
  {
    if n == 0 then [] else [b[..4]] + WordsOf(b[4..], n - 1)
  }

  lemma {:induction false} WordsOfFlat(ws: seq<Word>, rest: seq<Byte>)
    ensures WordsOf(Flat(ws) + rest, |ws|) == ws && (Flat(ws) + rest)[4 * |ws|..] == rest
  {
    if ws != [] {
      var b := Flat(ws) + rest;
      assert b[..4] == ws[0];
      assert b[4..] == Flat(ws[1..]) + rest;
      WordsOfFlat(ws[1..], rest);
    } else {
      assert Flat(ws) + rest == rest;
    }
  }

  lemma {:induction false} FlatWordsOf(b: seq<Byte>, n: nat)
    requires 4 * n <= |b|
    ensures Flat(WordsOf(b, n)) == b[..4 * n]
  {
    if n > 0 {
      FlatWordsOf(b[4..], n - 1);
      assert b[..4 * n] == b[..4] + b[4..][..4 * (n - 1)];
    }
  }

  /** The rows of a table one after another. */
  function Concat(rows: seq<seq<Word>>): seq<Word> {
    if rows == [] then [] else rows[0] + Concat(rows[1..])
  }

  predicate Rows(rows: seq<seq<Word>>, n: nat, width: nat) {
    |rows| == n && forall i :: 0 <= i < n ==> |rows[i]| == width
  }

  lemma NextRow(n: nat, width: nat)
    requires n > 0
    ensures n * width == width + (n - 1) * width
  {
  }

  lemma {:induction false} ConcatLength(rows: seq<seq<Word>>, n: nat, width: nat)
    requires Rows(rows, n, width)
    ensures |Concat(rows)| == n * width
  {
    if n > 0 {
      NextRow(n, width);
      ConcatLength(rows[1..], n - 1, width);
    }
  }

  lemma CellBound(n: nat, width: nat, i: nat, j: nat)
    requires i < n && j < width
    ensures i * width + j < n * width
  {
    MulAtLeastBy(n - i, width);
    Distribute(n, i, width);
  }

  lemma MulAtLeastBy(m: nat, w: nat)
    requires m >= 1
    ensures m * w >= w
  {
  }

  lemma Distribute(n: nat, i: nat, w: nat)
    requires i <= n
    ensures n * w == i * w + (n - i) * w
  {
  }

  /** Row-major order: cell `j` of row `i` is at i * width + j. */
  lemma {:induction false} ConcatAt(rows: seq<seq<Word>>, n: nat, width: nat, i: nat, j: nat)
    requires Rows(rows, n, width) && i < n && j < width
    ensures i * width + j < |Concat(rows)|
    ensures Concat(rows)[i * width + j] == rows[i][j]
  {
    ConcatLength(rows, n, width);
    CellBound(n, width, i, j);
    if i > 0 {
      NextRow(i, width);
      ConcatAt(rows[1..], n - 1, width, i - 1, j);
      assert rows[1..][i - 1] == rows[i];
    }
  }

  /** Each table of a three-dimensional array as one row. */
  function Layers(tables: seq<seq<seq<Word>>>): (rows: seq<seq<Word>>)
    ensures |rows| == |tables|
    ensures forall i :: 0 <= i < |rows| ==> rows[i] == Concat(tables[i])
  {
    if tables == [] then [] else [Concat(tables[0])] + Layers(tables[1..])
  }

  predicate Tables(tables: seq<seq<seq<Word>>>, n: nat, d: nat, h: nat) {
    |tables| == n && forall i :: 0 <= i < n ==> Rows(tables[i], d, h)
  }

  lemma LayersRows(tables: seq<seq<seq<Word>>>, n: nat, d: nat, h: nat)
    requires Tables(tables, n, d, h)
    ensures Rows(Layers(tables), n, d * h) && |Concat(Layers(tables))| == n * (d * h)
  {
    forall i | 0 <= i < n ensures |Layers(tables)[i]| == d * h {
      ConcatLength(tables[i], d, h);
    }
    ConcatLength(Layers(tables), n, d * h);
  }

  /** Entry (i, j, k) of a three-dimensional table, in row-major order. */
  function DiskIndex(d: nat, h: nat, i: nat, j: nat, k: nat): nat {
    i * (d * h) + (j * h + k)
  }

  lemma DiskIndexBound(n: nat, d: nat, h: nat, i: nat, j: nat, k: nat)
    requires i < n && j < d && k < h
    ensures DiskIndex(d, h, i, j, k) < n * (d * h)
  {
    CellBound(d, h, j, k);
    CellBound(n, d * h, i, j * h + k);
  }

  lemma LayerAt(tables: seq<seq<seq<Word>>>, n: nat, width: nat, i: nat, p: nat)
    requires |tables| == n && Rows(Layers(tables), n, width) && i < n && p < width
    ensures i * width + p < |Concat(Layers(tables))| && p < |Concat(tables[i])|
    ensures Concat(Layers(tables))[i * width + p] == Concat(tables[i])[p]
  {
    ConcatAt(Layers(tables), n, width, i, p);
  }

  lemma LayersAt(tables: seq<seq<seq<Word>>>, n: nat, d: nat, h: nat, i: nat, j: nat, k: nat)
    requires Tables(tables, n, d, h) && i < n && j < d && k < h
    ensures DiskIndex(d, h, i, j, k) < |Concat(Layers(tables))|
    ensures Concat(Layers(tables))[DiskIndex(d, h, i, j, k)] == tables[i][j][k]
  {
    LayersRows(tables, n, d, h);
    CellBound(d, h, j, k);
    LayerAt(tables, n, d * h, i, j * h + k);
    ConcatAt(tables[i], d, h, j, k);
  }

  // ----- the transposition

  /** The coordinates of position `p` of the transposed table: category, hidden unit, input. */
  function Coordinates(p: nat, n: nat, d: nat, h: nat): (c: (nat, nat, nat))
    requires d > 0 && h > 0 && p < n * (h * d)
    ensures c.0 < n && c.1 < h && c.2 < d
  {
    Positive(h, d);
    DivBelow(p, n, h * d);
    DivBelow(p % (h * d), h, d);
    (p / (h * d), p % (h * d) / d, p % (h * d) % d)
  }

  lemma CoordinatesOf(n: nat, d: nat, h: nat, i: nat, k: nat, j: nat)
    requires i < n && k < h && j < d
    ensures DiskIndex(h, d, i, k, j) < n * (h * d)
    ensures Coordinates(DiskIndex(h, d, i, k, j), n, d, h) == (i, k, j)
  {
    DiskIndexBound(n, h, d, i, k, j);
    CellBound(h, d, k, j);
    RemainderUnique(i * (h * d) + (k * d + j), h * d, i, k * d + j);
    RemainderUnique(k * d + j, d, k, j);
  }

  lemma Positive(a: nat, b: nat)
    requires a > 0 && b > 0
    ensures a * b > 0 && a * b == b * a
  {
  }

  lemma DivBelow(p: nat, n: nat, w: nat)
    requires w > 0 && p < n * w
    ensures p / w < n && p % w < w
  {
    if p / w >= n {
      Distribute(p / w, n, w);
    }
  }

  /** Where the file holds what memory holds at position `p`: memory is ordered by category, hidden unit
      and input, the file by category, input and hidden unit. */
  function Source(p: nat, n: nat, d: nat, h: nat): (q: nat)
    requires d > 0 && h > 0 && p < n * (h * d)
    ensures q < n * (d * h)
  {
    var (i, k, j) := Coordinates(p, n, d, h);
    DiskIndexBound(n, d, h, i, j, k);
    DiskIndex(d, h, i, j, k)
  }

  function Transposed(disk: seq<Word>, n: nat, d: nat, h: nat): (w: seq<Word>)
    requires d > 0 && h > 0 && |disk| == n * (d * h)
    ensures |w| == n * (h * d)
    ensures forall p :: 0 <= p < |w| ==> w[p] == disk[Source(p, n, d, h)]
  {
    seq(n * (h * d), p requires 0 <= p < n * (h * d) => disk[Source(p, n, d, h)])
  }

  /** The transposed table agrees entry by entry with the table that was written. */
  lemma TransposedAt(tables: seq<seq<seq<Word>>>, n: nat, d: nat, h: nat, i: nat, k: nat, j: nat)
    requires Tables(tables, n, d, h) && i < n && k < h && j < d
    ensures |Concat(Layers(tables))| == n * (d * h)
    ensures var w := Transposed(Concat(Layers(tables)), n, d, h); var p := DiskIndex(h, d, i, k, j);
      p < |w| && w[p] == tables[i][j][k]
  {
    LayersRows(tables, n, d, h);
    CoordinatesOf(n, d, h, i, k, j);
    LayersAt(tables, n, d, h, i, j, k);
  }

  lemma DiskIndexCarries(h: nat, d: nat, i: nat, k: nat)
    ensures DiskIndex(h, d, i, k, d) == DiskIndex(h, d, i, k + 1, 0)
    ensures DiskIndex(h, d, i, h, 0) == DiskIndex(h, d, i + 1, 0, 0)
    ensures DiskIndex(h, d, i, 0, 0) == i * (h * d)
  {
  }

  ghost predicate Filled(w: seq<Word>, disk: seq<Word>, n: nat, d: nat, h: nat, upTo: nat)
    requires d > 0 && h > 0 && |disk| == n * (d * h) && |w| == n * (h * d)
  {
    upTo <= |w| && forall p :: 0 <= p < upTo ==> w[p] == disk[Source(p, n, d, h)]
  }

  method Transpose(disk: seq<Word>, n: nat, d: nat, h: nat) returns (w: array<Word>)
    requires d > 0 && h > 0 && |disk| == n * (d * h)
    ensures fresh(w) && w[..] == Transposed(disk, n, d, h)
  {
    w := new Word[n * (h * d)];
    DiskIndexCarries(h, d, 0, 0);
    for i := 0 to n
      invariant Filled(w[..], disk, n, d, h, DiskIndex(h, d, i, 0, 0))
    {
      for k := 0 to h
        invariant Filled(w[..], disk, n, d, h, DiskIndex(h, d, i, k, 0))
      {
        TransposeRow(disk, n, d, h, i, k, w);
        DiskIndexCarries(h, d, i, k);
      }
      DiskIndexCarries(h, d, i, 0);
    }
    DiskIndexCarries(h, d, n, 0);
  }

  /** The innermost loop: the weights of one hidden unit of one category. */
  method TransposeRow(disk: seq<Word>, n: nat, d: nat, h: nat, i: nat, k: nat, w: array<Word>)
    requires d > 0 && h > 0 && |disk| == n * (d * h) && w.Length == n * (h * d) && i < n && k < h
    requires Filled(w[..], disk, n, d, h, DiskIndex(h, d, i, k, 0))
    modifies w
    ensures Filled(w[..], disk, n, d, h, DiskIndex(h, d, i, k, d))
  {
    for j := 0 to d
      invariant Filled(w[..], disk, n, d, h, DiskIndex(h, d, i, k, j))
    {
      DiskIndexBound(n, d, h, i, j, k);
      CoordinatesOf(n, d, h, i, k, j);
      w[DiskIndex(h, d, i, k, j)] := disk[DiskIndex(d, h, i, j, k)];
    }
  }

  /** Transposing back gives what was there before. */
  lemma TransposeTwice(disk: seq<Word>, n: nat, d: nat, h: nat)
    requires d > 0 && h > 0 && |disk| == n * (d * h)
    ensures Transposed(Transposed(disk, n, d, h), n, h, d) == disk
  {
    var w := Transposed(disk, n, d, h);
    var back := Transposed(w, n, h, d);
    forall p | 0 <= p < |disk| ensures back[p] == disk[p] {
      SourceTwice(p, n, d, h);
    }
  }

  lemma SourceTwice(p: nat, n: nat, d: nat, h: nat)
    requires d > 0 && h > 0 && p < n * (d * h)
    ensures Source(Source(p, n, h, d), n, d, h) == p
  {
    var (i, j, k) := Coordinates(p, n, h, d);
    CoordinatesOf(n, d, h, i, k, j);
    CoordinatesBack(p, n, h, d);
  }

  lemma CoordinatesBack(p: nat, n: nat, d: nat, h: nat)
    requires d > 0 && h > 0 && p < n * (h * d)
    ensures var (i, k, j) := Coordinates(p, n, d, h); DiskIndex(h, d, i, k, j) == p
  {
    Positive(h, d);
    DivBelow(p, n, h * d);
    QuotientRemainder(p, h * d);
    QuotientRemainder(p % (h * d), d);
  }

  lemma QuotientRemainder(p: nat, w: nat)
    requires w > 0
    ensures p == p / w * w + p % w
  {
  }
}
