/** The weights file of the local classifier: the script that writes it (scripts/train_classifier.py)
    and the loader that reads it (engine/moderation/LocalClassifierLayer.cpp). */
module WeightsFile {
  import opened Common
  import opened WeightTables

  const HEADER := 28                             // magic, version, three sizes and the length of the name
  const MAGIC: seq<Byte> := [75, 71, 67, 76, 70] // KGCLF
  const COLON: Byte := 58

  /** What the training script has: a network per category, before and after which nothing is flat. */
  datatype Trained = Trained(categories: nat, inputs: nat, hidden: nat, name: seq<Byte>,
                             w1: seq<seq<seq<Word>>>, // by category, input and hidden unit
                             b1: seq<seq<Word>>, w2: seq<seq<Word>>, b2: seq<Word>, wSkip: seq<seq<Word>>,
                             plattA: seq<Word>, plattB: seq<Word>)
  {
    predicate Valid() {
      && categories < U32 && inputs < U32 && hidden < U32 && |name| < U32
      && Tables(w1, categories, inputs, hidden)
      && Rows(b1, categories, hidden) && Rows(w2, categories, hidden) && |b2| == categories
      && Rows(wSkip, categories, inputs) && |plattA| == |plattB| == categories
    }
  }

  /** What the loader keeps: flat tables, the first one by category, hidden unit and input. */
  datatype Weights = Weights(categories: nat, inputs: nat, hidden: nat, name: seq<Byte>,
                             w1: seq<Word>, b1: seq<Word>, w2: seq<Word>, b2: seq<Word>, wSkip: seq<Word>,
                             calibration: Byte, plattA: seq<Word>, plattB: seq<Word>)
  {
    /** The sizes the file format allows, and tables to match. */
    predicate Valid() {
      && 1 <= categories <= 64 && 1 <= inputs <= 4096 && 1 <= hidden <= 1024 && |name| <= 512
      && |w1| == categories * (hidden * inputs)
      && |b1| == |w2| == categories * hidden && |b2| == categories && |wSkip| == categories * inputs
      && |plattA| == |plattB| == if calibration == 1 then categories else 0
    }
  }

  // ----- names

  /** A model's name up to its first colon. */
  function Stripped(name: seq<Byte>): seq<Byte> {
    if name == [] || name[0] == COLON then [] else [name[0]] + Stripped(name[1..])
  }

  predicate NameMatches(file: seq<Byte>, runtime: seq<Byte>) {
    runtime == [] || Stripped(file) == Stripped(runtime)
  }

  // ----- writing

  function Header(categories: nat, inputs: nat, hidden: nat, nameLength: nat): (b: seq<Byte>)
    requires categories < U32 && inputs < U32 && hidden < U32 && nameLength < U32
    ensures |b| == HEADER
  {
    MAGIC + [2, 0, 0] + U32Bytes(2) + U32Bytes(categories) + U32Bytes(inputs) + U32Bytes(hidden) + U32Bytes(nameLength)
  }

  function Body(w1: seq<Word>, b1: seq<Word>, w2: seq<Word>, b2: seq<Word>, wSkip: seq<Word>, calibration: Byte,
                plattA: seq<Word>, plattB: seq<Word>, rest: seq<Byte>): seq<Byte>
  {
    Flat(w1) + (Flat(b1) + (Flat(w2) + (Flat(b2) + (Flat(wSkip) + ([calibration] + (Flat(plattA) + (Flat(plattB) + rest)))))))
  }

  function TrainedBody(t: Trained): seq<Byte> {
    Body(Concat(Layers(t.w1)), Concat(t.b1), Concat(t.w2), t.b2, Concat(t.wSkip), 1, t.plattA, t.plattB, [])
  }

  /** The file the script writes: always with calibration of type 1. */
  function Written(t: Trained): seq<Byte>
    requires t.Valid()
  {
    Header(t.categories, t.inputs, t.hidden, |t.name|) + (t.name + TrainedBody(t))
  }

  // ----- loading

  function TakeWords(b: seq<Byte>, n: nat): (seq<Word>, seq<Byte>)
    requires 4 * n <= |b|
  {
    (WordsOf(b, n), b[4 * n..])
  }

  /** The bytes of the tables and of the byte for the type of calibration. */
  function TablesSize(n: nat, d: nat, h: nat): nat {
    4 * (n * (d * h)) + 4 * (n * h) + 4 * (n * h) + 4 * n + 4 * (n * d) + 1
  }

  /** The tables in the order of the file, and what follows them. */
  datatype Cut = Cut(disk: seq<Word>, b1: seq<Word>, w2: seq<Word>, b2: seq<Word>, wSkip: seq<Word>, rest: seq<Byte>)

  function CutTables(body: seq<Byte>, weights: nat, units: nat, n: nat, skips: nat): (c: Cut)
    requires |body| >= 4 * weights + 4 * units + 4 * units + 4 * n + 4 * skips + 1
    ensures |c.disk| == weights && |c.b1| == |c.w2| == units && |c.b2| == n && |c.wSkip| == skips
    ensures |c.rest| == |body| - 4 * (weights + units + units + n + skips)
  {
    var (disk, r1) := TakeWords(body, weights);
    var (b1, r2) := TakeWords(r1, units);
    var (w2, r3) := TakeWords(r2, units);
    var (b2, r4) := TakeWords(r3, n);
    var (wSkip, rest) := TakeWords(r4, skips);
    Cut(disk, b1, w2, b2, wSkip, rest)
  }

  /** The weights made of the tables, with what calibration follows them. */
  function Assembled(c: Cut, n: nat, d: nat, h: nat, name: seq<Byte>): Option<Weights>
    requires d > 0 && h > 0 && |c.disk| == n * (d * h) && c.rest != []
  {
    var w1 := Transposed(c.disk, n, d, h);
    if c.rest[0] != 1 then
      Some(Weights(n, d, h, name, w1, c.b1, c.w2, c.b2, c.wSkip, c.rest[0], [], []))
    else if |c.rest| < 1 + 2 * (4 * n) then None
    else
      var (a, r) := TakeWords(c.rest[1..], n);
      Some(Weights(n, d, h, name, w1, c.b1, c.w2, c.b2, c.wSkip, 1, a, WordsOf(r, n)))
  }

  function LoadTables(body: seq<Byte>, n: nat, d: nat, h: nat, name: seq<Byte>): Option<Weights>
    requires d > 0 && h > 0 && |body| >= TablesSize(n, d, h)
  {
    Assembled(CutTables(body, n * (d * h), n * h, n, n * d), n, d, h, name)
  }

  function Load(blob: seq<Byte>, runtime: seq<Byte>): Option<Weights> {
    if |blob| < HEADER || blob[..5] != MAGIC || blob[5] != 2 then None
    else
      var n, d := ReadU32(blob, 12), ReadU32(blob, 16);
      if n == 0 || n > 64 || d == 0 || d > 4096 || ReadU32(blob, 8) != 2 then None
      else
        var h, length := ReadU32(blob, 20), ReadU32(blob, 24);
        if h == 0 || h > 1024 || length > 512 || |blob| < HEADER + length + TablesSize(n, d, h) then None
        else
          var name := blob[HEADER..HEADER + length];
          if !NameMatches(name, runtime) then None
          else LoadTables(blob[HEADER + length..], n, d, h, name)
  }

  // ----- reading back what was written

  /** What the loader makes of a trained network. */
  function Loaded(t: Trained): Weights
    requires t.Valid() && t.inputs > 0 && t.hidden > 0
  {
    LayersRows(t.w1, t.categories, t.inputs, t.hidden);
    Weights(t.categories, t.inputs, t.hidden, t.name,
            Transposed(Concat(Layers(t.w1)), t.categories, t.inputs, t.hidden),
            Concat(t.b1), Concat(t.w2), t.b2, Concat(t.wSkip), 1, t.plattA, t.plattB)
  }

  /** The sizes the loader accepts. */
  predicate InLimits(t: Trained) {
    1 <= t.categories <= 64 && 1 <= t.inputs <= 4096 && 1 <= t.hidden <= 1024 && |t.name| <= 512
  }

  lemma TakeFlat(ws: seq<Word>, rest: seq<Byte>, n: nat)
    requires |ws| == n
    ensures |Flat(ws) + rest| == 4 * n + |rest| && TakeWords(Flat(ws) + rest, n) == (ws, rest)
  {
    WordsOfFlat(ws, rest);
  }

  lemma CutBody(w1: seq<Word>, b1: seq<Word>, w2: seq<Word>, b2: seq<Word>, wSkip: seq<Word>, rest: seq<Byte>)
    requires |b1| == |w2| && rest != []
    ensures var body := Flat(w1) + (Flat(b1) + (Flat(w2) + (Flat(b2) + (Flat(wSkip) + rest))));
      && |body| >= 4 * |w1| + 4 * |b1| + 4 * |b1| + 4 * |b2| + 4 * |wSkip| + 1
      && CutTables(body, |w1|, |b1|, |b2|, |wSkip|) == Cut(w1, b1, w2, b2, wSkip, rest)
  {
    var r4 := Flat(wSkip) + rest;
    var r3 := Flat(b2) + r4;
    var r2 := Flat(w2) + r3;
    TakeFlat(wSkip, rest, |wSkip|);
    TakeFlat(b2, r4, |b2|);
    TakeFlat(w2, r3, |w2|);
    TakeFlat(b1, r2, |b1|);
    TakeFlat(w1, Flat(b1) + r2, |w1|);
  }

  /** The tables read back are those that were laid out. */
  lemma LoadBody(w1: seq<Word>, b1: seq<Word>, w2: seq<Word>, b2: seq<Word>, wSkip: seq<Word>, plattA: seq<Word>, plattB: seq<Word>,
                 rest: seq<Byte>, n: nat, d: nat, h: nat, name: seq<Byte>)
    requires d > 0 && h > 0 && |w1| == n * (d * h) && |b1| == |w2| == n * h && |b2| == |plattA| == |plattB| == n && |wSkip| == n * d
    ensures var body := Body(w1, b1, w2, b2, wSkip, 1, plattA, plattB, rest);
      && |body| >= TablesSize(n, d, h)
      && LoadTables(body, n, d, h, name) ==
           Some(Weights(n, d, h, name, Transposed(w1, n, d, h), b1, w2, b2, wSkip, 1, plattA, plattB))
  {
    var r6 := Flat(plattB) + rest;
    var r5 := [1] + (Flat(plattA) + r6);
    TakeFlat(plattB, rest, n);
    TakeFlat(plattA, r6, n);
    assert r5[1..] == Flat(plattA) + r6;
    CutBody(w1, b1, w2, b2, wSkip, r5);
  }

  /** What a header says. */
  ghost predicate Says(b: seq<Byte>, n: nat, d: nat, h: nat, length: nat) {
    && |b| >= HEADER && b[..5] == MAGIC && b[5] == 2 && ReadU32(b, 8) == 2
    && ReadU32(b, 12) == n && ReadU32(b, 16) == d && ReadU32(b, 20) == h && ReadU32(b, 24) == length
  }

  /** The reserved bytes after the magic are written as zero and never looked at. */
  function Zeroed(b: seq<Byte>): (r: seq<Byte>)
    requires |b| >= HEADER
    ensures |r| == |b|
  {
    b[6 := 0][7 := 0]
  }

  lemma HeaderSlices(n: nat, d: nat, h: nat, length: nat)
    requires n < U32 && d < U32 && h < U32 && length < U32
    ensures var b := Header(n, d, h, length);
      && b[..8] == MAGIC + [2, 0, 0] && b[8..12] == U32Bytes(2) && b[12..16] == U32Bytes(n) && b[16..20] == U32Bytes(d)
      && b[20..24] == U32Bytes(h) && b[24..28] == U32Bytes(length)
  {
  }

  lemma Ranges(b: seq<Byte>, c: seq<Byte>)
    requires |b| == |c| == HEADER
    ensures b == c <==> b[..8] == c[..8] && b[8..12] == c[8..12] && b[12..16] == c[12..16] && b[16..20] == c[16..20]
                        && b[20..24] == c[20..24] && b[24..28] == c[24..28]
  {
    assert b == b[..8] + b[8..12] + b[12..16] + b[16..20] + b[20..24] + b[24..28];
    assert c == c[..8] + c[8..12] + c[12..16] + c[16..20] + c[20..24] + c[24..28];
  }

  /** A blob says these sizes exactly when, reserved bytes aside, it begins with the header that is
      written for them. */
  lemma SaysIff(b: seq<Byte>, n: nat, d: nat, h: nat, length: nat)
    requires |b| >= HEADER && n < U32 && d < U32 && h < U32 && length < U32
    ensures Says(b, n, d, h, length) <==> Zeroed(b)[..HEADER] == Header(n, d, h, length)
  {
    var z := Zeroed(b)[..HEADER];
    U32RoundTrip(b, 8, 2);
    U32RoundTrip(b, 12, n);
    U32RoundTrip(b, 16, d);
    U32RoundTrip(b, 20, h);
    U32RoundTrip(b, 24, length);
    HeaderSlices(n, d, h, length);
    Ranges(z, Header(n, d, h, length));
    SameFields(b);
    FirstEight(b);
  }

  lemma SameFields(b: seq<Byte>)
    requires |b| >= HEADER
    ensures var z := Zeroed(b)[..HEADER];
      && z[8..12] == b[8..12] && z[12..16] == b[12..16] && z[16..20] == b[16..20] && z[20..24] == b[20..24] && z[24..28] == b[24..28]
  {
  }

  lemma FirstEight(b: seq<Byte>)
    requires |b| >= HEADER
    ensures Zeroed(b)[..HEADER][..8] == MAGIC + [2, 0, 0] <==> b[..5] == MAGIC && b[5] == 2
  {
    var z := Zeroed(b)[..HEADER][..8];
    assert z == b[..5] + [b[5], 0, 0];
    assert z[..5] == b[..5] && z[5] == b[5];
    assert (MAGIC + [2, 0, 0])[..5] == MAGIC && (MAGIC + [2, 0, 0])[5] == 2;
  }

  /** Loading, for a blob whose header is known. */
  lemma LoadSaid(blob: seq<Byte>, runtime: seq<Byte>, n: nat, d: nat, h: nat, length: nat)
    requires Says(blob, n, d, h, length)
    ensures Load(blob, runtime) ==
      if !(1 <= n <= 64 && 1 <= d <= 4096 && 1 <= h <= 1024 && length <= 512) then None
      else if |blob| < HEADER + length + TablesSize(n, d, h) || !NameMatches(blob[HEADER..HEADER + length], runtime) then None
      else LoadTables(blob[HEADER + length..], n, d, h, blob[HEADER..HEADER + length])
  {
  }

  /** The loader accepts a written file exactly when the sizes are within its limits and the model is the
      one that runs; and then it has every table as it was, the first one transposed. */
  lemma WrittenLoads(t: Trained, runtime: seq<Byte>)
    requires t.Valid()
    ensures Load(Written(t), runtime) == if InLimits(t) && NameMatches(t.name, runtime) then Some(Loaded(t)) else None
  {
    WrittenSays(t);
    LoadSaid(Written(t), runtime, t.categories, t.inputs, t.hidden, |t.name|);
    if InLimits(t) {
      LoadTrained(t);
    }
  }

  lemma WrittenSays(t: Trained)
    requires t.Valid()
    ensures var blob := Written(t);
      && Says(blob, t.categories, t.inputs, t.hidden, |t.name|)
      && |blob| == HEADER + |t.name| + |TrainedBody(t)|
      && blob[HEADER..HEADER + |t.name|] == t.name && blob[HEADER + |t.name|..] == TrainedBody(t)
  {
    HeaderSaid(t.categories, t.inputs, t.hidden, |t.name|, t.name + TrainedBody(t));
    AfterHeader(Header(t.categories, t.inputs, t.hidden, |t.name|), t.name, TrainedBody(t));
  }

  lemma AfterHeader(head: seq<Byte>, name: seq<Byte>, body: seq<Byte>)
    requires |head| == HEADER
    ensures var blob := head + (name + body);
      && |blob| == HEADER + |name| + |body|
      && blob[HEADER..HEADER + |name|] == name && blob[HEADER + |name|..] == body
  {
    var blob := head + (name + body);
    assert blob[HEADER..] == name + body;
    assert blob[HEADER..][..|name|] == blob[HEADER..HEADER + |name|];
    assert blob[HEADER..][|name|..] == blob[HEADER + |name|..];
  }

  lemma HeaderSaid(n: nat, d: nat, h: nat, length: nat, rest: seq<Byte>)
    requires n < U32 && d < U32 && h < U32 && length < U32
    ensures Says(Header(n, d, h, length) + rest, n, d, h, length)
  {
    var b := Header(n, d, h, length) + rest;
    SaysIff(b, n, d, h, length);
    var head := Header(n, d, h, length);
    assert b[6] == head[6] == 0 && b[7] == head[7] == 0;
    assert Zeroed(b) == b;
    assert b[..HEADER] == head;
  }

  lemma LoadTrained(t: Trained)
    requires t.Valid() && InLimits(t)
    ensures var body := TrainedBody(t);
      && |body| >= TablesSize(t.categories, t.inputs, t.hidden)
      && LoadTables(body, t.categories, t.inputs, t.hidden, t.name) == Some(Loaded(t))
  {
    LayersRows(t.w1, t.categories, t.inputs, t.hidden);
    ConcatLength(t.b1, t.categories, t.hidden);
    ConcatLength(t.w2, t.categories, t.hidden);
    ConcatLength(t.wSkip, t.categories, t.inputs);
    LoadBody(Concat(Layers(t.w1)), Concat(t.b1), Concat(t.w2), t.b2, Concat(t.wSkip), t.plattA, t.plattB, [],
             t.categories, t.inputs, t.hidden, t.name);
  }

  // ----- writing back what was loaded

  function WeightsBody(w: Weights): seq<Byte>
    requires w.hidden > 0 && w.inputs > 0 && |w.w1| == w.categories * (w.hidden * w.inputs)
  {
    Body(Transposed(w.w1, w.categories, w.hidden, w.inputs), w.b1, w.w2, w.b2, w.wSkip, w.calibration, w.plattA, w.plattB, [])
  }

  /** The file that holds these weights. */
  function Printed(w: Weights): seq<Byte>
    requires w.Valid()
  {
    Header(w.categories, w.inputs, w.hidden, |w.name|) + (w.name + WeightsBody(w))
  }

  lemma TakenFlat(b: seq<Byte>, n: nat)
    requires 4 * n <= |b|
    ensures var (ws, rest) := TakeWords(b, n); Flat(ws) + rest == b
  {
    FlatWordsOf(b, n);
  }

  lemma CutIsPrinted(body: seq<Byte>, weights: nat, units: nat, n: nat, skips: nat)
    requires |body| >= 4 * weights + 4 * units + 4 * units + 4 * n + 4 * skips + 1
    ensures var c := CutTables(body, weights, units, n, skips);
      body == Flat(c.disk) + (Flat(c.b1) + (Flat(c.w2) + (Flat(c.b2) + (Flat(c.wSkip) + c.rest))))
  {
    var (disk, r1) := TakeWords(body, weights);
    var (b1, r2) := TakeWords(r1, units);
    var (w2, r3) := TakeWords(r2, units);
    var (b2, r4) := TakeWords(r3, n);
    TakenFlat(body, weights);
    TakenFlat(r1, units);
    TakenFlat(r2, units);
    TakenFlat(r3, n);
    TakenFlat(r4, skips);
  }

  lemma CalibrationIsPrinted(rest: seq<Byte>, n: nat) returns (tail: seq<Byte>)
    requires rest != [] && (rest[0] == 1 ==> |rest| >= 1 + 8 * n)
    ensures rest[0] != 1 ==> rest == [rest[0]] + (Flat([]) + (Flat([]) + tail))
    ensures rest[0] == 1 ==>
      var (a, r) := TakeWords(rest[1..], n); rest == [rest[0]] + (Flat(a) + (Flat(WordsOf(r, n)) + tail))
  {
    assert rest == [rest[0]] + rest[1..];
    if rest[0] == 1 {
      var (a, r) := TakeWords(rest[1..], n);
      TakenFlat(rest[1..], n);
      TakenFlat(r, n);
      tail := r[4 * n..];
    } else {
      tail := rest[1..];
      assert Flat([]) + (Flat([]) + tail) == tail;
    }
  }

  lemma TablesArePrinted(body: seq<Byte>, n: nat, d: nat, h: nat, name: seq<Byte>) returns (tail: seq<Byte>)
    requires d > 0 && h > 0 && |body| >= TablesSize(n, d, h) && LoadTables(body, n, d, h, name).Some?
    ensures var w := LoadTables(body, n, d, h, name).value;
      && w.categories == n && w.inputs == d && w.hidden == h && w.name == name
      && |w.w1| == n * (h * d) && |w.b1| == |w.w2| == n * h && |w.b2| == n && |w.wSkip| == n * d
      && |w.plattA| == |w.plattB| == (if w.calibration == 1 then n else 0)
      && body == WeightsBody(w) + tail
  {
    var c := CutTables(body, n * (d * h), n * h, n, n * d);
    CutIsPrinted(body, n * (d * h), n * h, n, n * d);
    TransposeTwice(c.disk, n, d, h);
    tail := CalibrationIsPrinted(c.rest, n);
    var w := LoadTables(body, n, d, h, name).value;
    BodyGrows(c.disk, w.b1, w.w2, w.b2, w.wSkip, w.calibration, w.plattA, w.plattB, tail);
  }

  lemma BodyGrows(w1: seq<Word>, b1: seq<Word>, w2: seq<Word>, b2: seq<Word>, wSkip: seq<Word>, calibration: Byte,
                  plattA: seq<Word>, plattB: seq<Word>, tail: seq<Byte>)
    ensures Body(w1, b1, w2, b2, wSkip, calibration, plattA, plattB, tail) ==
      Body(w1, b1, w2, b2, wSkip, calibration, plattA, plattB, []) + tail
  {
    var r6 := Flat(plattB) + tail;
    var e6 := Flat(plattB) + [];
    assert r6 == e6 + tail;
    Regroup(Flat(plattA), e6, tail);
    Regroup([calibration], Flat(plattA) + e6, tail);
    Regroup(Flat(wSkip), [calibration] + (Flat(plattA) + e6), tail);
    Regroup(Flat(b2), Flat(wSkip) + ([calibration] + (Flat(plattA) + e6)), tail);
    Regroup(Flat(w2), Flat(b2) + (Flat(wSkip) + ([calibration] + (Flat(plattA) + e6))), tail);
    Regroup(Flat(b1), Flat(w2) + (Flat(b2) + (Flat(wSkip) + ([calibration] + (Flat(plattA) + e6)))), tail);
    Regroup(Flat(w1), Flat(b1) + (Flat(w2) + (Flat(b2) + (Flat(wSkip) + ([calibration] + (Flat(plattA) + e6))))), tail);
  }

  /** Whatever is loaded has sizes within the limits and tables to match, and the blob begins with the
      file that holds it: only the two reserved bytes and what follows the tables are not looked at. */
  lemma LoadedIsPrinted(blob: seq<Byte>, runtime: seq<Byte>)
    requires Load(blob, runtime).Some?
    ensures var w := Load(blob, runtime).value;
      w.Valid() && NameMatches(w.name, runtime) && Printed(w) <= Zeroed(blob)
  {
    var n, d, h, length := ReadU32(blob, 12), ReadU32(blob, 16), ReadU32(blob, 20), ReadU32(blob, 24);
    var name, body := blob[HEADER..HEADER + length], blob[HEADER + length..];
    LoadSaid(blob, runtime, n, d, h, length);
    var w := Load(blob, runtime).value;
    var tail := TablesArePrinted(body, n, d, h, name);
    SaysIff(blob, n, d, h, length);
    PrintedPrefix(blob, Header(n, d, h, length), name, WeightsBody(w), tail);
  }

  lemma PrintedPrefix(blob: seq<Byte>, head: seq<Byte>, name: seq<Byte>, body: seq<Byte>, tail: seq<Byte>)
    requires |blob| >= HEADER + |name| && Zeroed(blob)[..HEADER] == head
    requires blob[HEADER..HEADER + |name|] == name && blob[HEADER + |name|..] == body + tail
    ensures head + (name + body) <= Zeroed(blob)
  {
    var z := Zeroed(blob);
    assert z[HEADER..] == blob[HEADER..];
    assert blob[HEADER..] == blob[HEADER..HEADER + |name|] + blob[HEADER + |name|..];
    assert z == head + (name + (body + tail));
    Regroup(name, body, tail);
    Regroup(head, name + body, tail);
  }

  /** The file printed for what was loaded from a written file is the written file. */
  lemma PrintedIsWritten(t: Trained)
    requires t.Valid() && InLimits(t)
    ensures Loaded(t).Valid() && Printed(Loaded(t)) == Written(t)
  {
    LayersRows(t.w1, t.categories, t.inputs, t.hidden);
    ConcatLength(t.b1, t.categories, t.hidden);
    ConcatLength(t.w2, t.categories, t.hidden);
    ConcatLength(t.wSkip, t.categories, t.inputs);
    TransposeTwice(Concat(Layers(t.w1)), t.categories, t.inputs, t.hidden);
  }

  // ----- the writer, one field after another

  class OutputFile {
    var contents: seq<Byte>

    constructor ()
      ensures contents == []
    {
      contents := [];
    }

    method Write(b: seq<Byte>)
      modifies this
      ensures contents == old(contents) + b
    {
      contents := contents + b;
    }
  }

  method WriteWeightsFileV2(f: OutputFile, t: Trained)
    requires t.Valid() && f.contents == []
    modifies f
    ensures f.contents == Written(t)
  {
    WriteHeader(f, t.categories, t.inputs, t.hidden, |t.name|);
    f.Write(t.name);
    WriteTables(f, t);
    Regroup(Header(t.categories, t.inputs, t.hidden, |t.name|), t.name, TrainedBody(t));
  }

  method WriteHeader(f: OutputFile, categories: nat, inputs: nat, hidden: nat, nameLength: nat)
    requires categories < U32 && inputs < U32 && hidden < U32 && nameLength < U32 && f.contents == []
    modifies f
    ensures f.contents == Header(categories, inputs, hidden, nameLength)
  {
    f.Write(MAGIC + [2, 0, 0]);
    f.Write(U32Bytes(2));
    f.Write(U32Bytes(categories));
    f.Write(U32Bytes(inputs));
    f.Write(U32Bytes(hidden));
    f.Write(U32Bytes(nameLength));
  }

  method WriteTables(f: OutputFile, t: Trained)
    modifies f
    ensures f.contents == old(f.contents) + TrainedBody(t)
  {
    ghost var start := f.contents;
    f.Write(Flat(Concat(Layers(t.w1))));
    f.Write(Flat(Concat(t.b1)));
    f.Write(Flat(Concat(t.w2)));
    f.Write(Flat(t.b2));
    f.Write(Flat(Concat(t.wSkip)));
    f.Write([1]);
    f.Write(Flat(t.plattA));
    f.Write(Flat(t.plattB));
    NestEight(start, Flat(Concat(Layers(t.w1))), Flat(Concat(t.b1)), Flat(Concat(t.w2)), Flat(t.b2), Flat(Concat(t.wSkip)),
              [1], Flat(t.plattA), Flat(t.plattB));
    assert Flat(t.plattB) + [] == Flat(t.plattB);
  }

  lemma NestEight(s: seq<Byte>, a: seq<Byte>, b: seq<Byte>, c: seq<Byte>, d: seq<Byte>, e: seq<Byte>, g: seq<Byte>, h: seq<Byte>, i: seq<Byte>)
    ensures s + a + b + c + d + e + g + h + i == s + (a + (b + (c + (d + (e + (g + (h + i)))))))
  {
    Regroup(s + a + b + c + d + e + g, h, i);
    Regroup(s + a + b + c + d + e, g, h + i);
    Regroup(s + a + b + c + d, e, g + (h + i));
    Regroup(s + a + b + c, d, e + (g + (h + i)));
    Regroup(s + a + b, c, d + (e + (g + (h + i))));
    Regroup(s + a, b, c + (d + (e + (g + (h + i)))));
    Regroup(s, a, b + (c + (d + (e + (g + (h + i))))));
  }
}
