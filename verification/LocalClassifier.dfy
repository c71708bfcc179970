/** The local classifier, a small network per category over an embedding of the message
    (engine/moderation/LocalClassifierLayer.cpp). */
module LocalClassifier {
  // Numbers are reals.  What a stored word stands for, and the logistic function, are parameters.

  import opened Common
  import opened WeightTables
  import opened WeightsFile

  datatype Numerics = Numerics(value: Word -> real, sigmoid: real -> real)

  /** The number of categories that have a score of their own. */
  const AXES := 7

  /** The scores by category, and the largest with the first category that has it. */
  datatype Result = Result(ran: bool, scores: seq<real>, maxConfidence: real, maxIndex: int)

  const NO_SCORES: seq<real> := [0.0, 0.0, 0.0, 0.0, 0.0, 0.0, 0.0]
  const NOTHING := Result(false, NO_SCORES, 0.0, -1)

  function Relu(v: real): real {
    if v < 0.0 then 0.0 else v
  }

  // ----- what inference computes over the loaded tables

  /** `start` plus the products of `n` consecutive weights, from `off` on, with the first `n` inputs. */
  function Accumulated(num: Numerics, start: real, a: seq<Word>, off: nat, x: seq<real>, n: nat): real
    requires off + n <= |a| && n <= |x|
  {
    if n == 0 then start else Accumulated(num, start, a, off, x, n - 1) + num.value(a[off + n - 1]) * x[n - 1]
  }

  lemma UnitBounds(w: Weights, i: nat, k: nat)
    requires w.Valid() && i < w.categories && k < w.hidden
    ensures i * w.hidden + k < |w.b1|
    ensures DiskIndex(w.hidden, w.inputs, i, k, 0) + w.inputs <= |w.w1|
  {
    CellBound(w.categories, w.hidden, i, k);
    DiskIndexBound(w.categories, w.hidden, w.inputs, i, k, w.inputs - 1);
  }

  lemma RowBounds(n: nat, width: nat, i: nat)
    requires i < n && width > 0
    ensures i * width + width <= n * width
  {
    CellBound(n, width, i, width - 1);
  }

  function Unit(num: Numerics, w: Weights, x: seq<real>, i: nat, k: nat): real
    requires w.Valid() && |x| == w.inputs && i < w.categories && k < w.hidden
  {
    UnitBounds(w, i, k);
    Relu(Accumulated(num, num.value(w.b1[i * w.hidden + k]), w.w1, DiskIndex(w.hidden, w.inputs, i, k, 0), x, w.inputs))
  }

  function Units(num: Numerics, w: Weights, x: seq<real>, i: nat, n: nat): (u: seq<real>)
    requires w.Valid() && |x| == w.inputs && i < w.categories && n <= w.hidden
    ensures |u| == n
    ensures forall k :: 0 <= k < n ==> u[k] == Unit(num, w, x, i, k)
  {
    if n == 0 then [] else Units(num, w, x, i, n - 1) + [Unit(num, w, x, i, n - 1)]
  }

  function Logit(num: Numerics, w: Weights, x: seq<real>, i: nat): real
    requires w.Valid() && |x| == w.inputs && i < w.categories
  {
    RowBounds(w.categories, w.hidden, i);
    RowBounds(w.categories, w.inputs, i);
    Accumulated(num,
      Accumulated(num, num.value(w.b2[i]), w.w2, i * w.hidden, Units(num, w, x, i, w.hidden), w.hidden),
      w.wSkip, i * w.inputs, x, w.inputs)
  }

  /** Calibration of a category's logit by two stored numbers, before the logistic function. */
  function Calibrated(num: Numerics, a: Word, b: Word, logit: real): real {
    num.value(a) * logit + num.value(b)
  }

  function Probability(num: Numerics, w: Weights, x: seq<real>, i: nat): real
    requires w.Valid() && |x| == w.inputs && i < w.categories
  {
    num.sigmoid(if w.calibration == 1 then Calibrated(num, w.plattA[i], w.plattB[i], Logit(num, w, x, i))
                else Logit(num, w, x, i))
  }

  // ----- what it stands for: the network as it was trained

  /** The inner product of column `k` of a table with the first `n` inputs. */
  function Column(num: Numerics, rows: seq<seq<Word>>, k: nat, x: seq<real>, n: nat): real
    requires n <= |rows| && n <= |x| && forall j :: 0 <= j < n ==> k < |rows[j]|
  {
    if n == 0 then 0.0 else Column(num, rows, k, x, n - 1) + num.value(rows[n - 1][k]) * x[n - 1]
  }

  function Row(num: Numerics, row: seq<Word>, x: seq<real>, n: nat): real
    requires n <= |row| && n <= |x|
  {
    if n == 0 then 0.0 else Row(num, row, x, n - 1) + num.value(row[n - 1]) * x[n - 1]
  }

  function TrainedUnit(num: Numerics, t: Trained, x: seq<real>, i: nat, k: nat): real
    requires t.Valid() && |x| == t.inputs && i < t.categories && k < t.hidden
  {
    var v := num.value(t.b1[i][k]) + Column(num, t.w1[i], k, x, t.inputs);
    if v > 0.0 then v else 0.0
  }

  function TrainedUnits(num: Numerics, t: Trained, x: seq<real>, i: nat, n: nat): (u: seq<real>)
    requires t.Valid() && |x| == t.inputs && i < t.categories && n <= t.hidden
    ensures |u| == n
    ensures forall k :: 0 <= k < n ==> u[k] == TrainedUnit(num, t, x, i, k)
  {
    if n == 0 then [] else TrainedUnits(num, t, x, i, n - 1) + [TrainedUnit(num, t, x, i, n - 1)]
  }

  /** W2 . max(0, W1 . x + b1) + b2 + Wskip . x */
  function TrainedLogit(num: Numerics, t: Trained, x: seq<real>, i: nat): real
    requires t.Valid() && |x| == t.inputs && i < t.categories
  {
    num.value(t.b2[i]) + Row(num, t.w2[i], TrainedUnits(num, t, x, i, t.hidden), t.hidden) + Row(num, t.wSkip[i], x, t.inputs)
  }

  /** The trained scale times the logit, plus the trained shift. */
  function TrainedScore(num: Numerics, t: Trained, x: seq<real>, i: nat): real
    requires t.Valid() && |x| == t.inputs && i < t.categories
  {
    var scale, shift := num.value(t.plattA[i]), num.value(t.plattB[i]);
    scale * TrainedLogit(num, t, x, i) + shift
  }

  function TrainedProbability(num: Numerics, t: Trained, x: seq<real>, i: nat): real
    requires t.Valid() && |x| == t.inputs && i < t.categories
  {
    num.sigmoid(TrainedScore(num, t, x, i))
  }

  // ----- the parts that both have

  /** The unit is the largest of zero and its input. */
  lemma ReluIff(v: real, r: real)
    ensures Relu(v) == r <==> r >= v && r >= 0.0 && (r == v || r == 0.0)
  {
  }

  /** A calibrated score is the second stored number at logit zero, and grows by the first for each unit of
      the logit. */
  lemma CalibrationIsLine(num: Numerics, a: Word, b: Word, logit: real, more: real)
    ensures Calibrated(num, a, b, 0.0) == num.value(b)
    ensures Calibrated(num, a, b, logit + more) - Calibrated(num, a, b, logit) == num.value(a) * more
  {
    Line(num.value(a), num.value(b), logit, more);
  }

  lemma Line(a: real, b: real, x: real, y: real)
    ensures (a * (x + y) + b) - (a * x + b) == a * y && a * 0.0 + b == b
  {
  }

  // ----- they are the same

  /** Consecutive weights that are a column of a table accumulate its inner product. */
  lemma {:induction false} AccumulatesColumn(num: Numerics, start: real, a: seq<Word>, off: nat, rows: seq<seq<Word>>, k: nat, x: seq<real>, n: nat)
    requires off + n <= |a| && n <= |x| && n <= |rows| && forall j :: 0 <= j < n ==> k < |rows[j]|
    requires forall j :: 0 <= j < n ==> a[off + j] == rows[j][k]
    ensures Accumulated(num, start, a, off, x, n) == start + Column(num, rows, k, x, n)
  {
    if n > 0 {
      AccumulatesColumn(num, start, a, off, rows, k, x, n - 1);
    }
  }

  lemma {:induction false} AccumulatesRow(num: Numerics, start: real, a: seq<Word>, off: nat, row: seq<Word>, x: seq<real>, n: nat)
    requires off + n <= |a| && n <= |x| && n <= |row|
    requires forall j :: 0 <= j < n ==> a[off + j] == row[j]
    ensures Accumulated(num, start, a, off, x, n) == start + Row(num, row, x, n)
  {
    if n > 0 {
      AccumulatesRow(num, start, a, off, row, x, n - 1);
    }
  }

  /** One weight of each table, by its coordinates. */
  function W1At(w: Weights, i: nat, k: nat, j: nat): Word
    requires w.Valid() && i < w.categories && k < w.hidden && j < w.inputs
  {
    DiskIndexBound(w.categories, w.hidden, w.inputs, i, k, j);
    w.w1[DiskIndex(w.hidden, w.inputs, i, k, j)]
  }

  function B1At(w: Weights, i: nat, k: nat): Word
    requires w.Valid() && i < w.categories && k < w.hidden
  {
    CellBound(w.categories, w.hidden, i, k);
    w.b1[i * w.hidden + k]
  }

  function W2At(w: Weights, i: nat, k: nat): Word
    requires w.Valid() && i < w.categories && k < w.hidden
  {
    CellBound(w.categories, w.hidden, i, k);
    w.w2[i * w.hidden + k]
  }

  function WSkipAt(w: Weights, i: nat, j: nat): Word
    requires w.Valid() && i < w.categories && j < w.inputs
  {
    CellBound(w.categories, w.inputs, i, j);
    w.wSkip[i * w.inputs + j]
  }

  ghost predicate SameShape(w: Weights, t: Trained) {
    && w.Valid() && t.Valid() && w.categories == t.categories && w.inputs == t.inputs && w.hidden == t.hidden
    && w.calibration == 1 && w.b2 == t.b2 && w.plattA == t.plattA && w.plattB == t.plattB
  }

  /** The loaded tables hold, for category `i`, the weights that were trained. */
  ghost predicate Holds(w: Weights, t: Trained, i: nat) {
    && SameShape(w, t) && i < t.categories
    && (forall k, j :: 0 <= k < t.hidden && 0 <= j < t.inputs ==> W1At(w, i, k, j) == t.w1[i][j][k])
    && (forall k :: 0 <= k < t.hidden ==> B1At(w, i, k) == t.b1[i][k])
    && (forall k :: 0 <= k < t.hidden ==> W2At(w, i, k) == t.w2[i][k])
    && (forall j :: 0 <= j < t.inputs ==> WSkipAt(w, i, j) == t.wSkip[i][j])
  }

  lemma LoadedShape(t: Trained)
    requires t.Valid() && InLimits(t)
    ensures SameShape(Loaded(t), t)
  {
    PrintedIsWritten(t);
  }

  lemma LoadedW1(t: Trained, i: nat, k: nat, j: nat)
    requires t.Valid() && InLimits(t) && i < t.categories && k < t.hidden && j < t.inputs
    ensures Loaded(t).Valid() && W1At(Loaded(t), i, k, j) == t.w1[i][j][k]
  {
    LoadedShape(t);
    TransposedAt(t.w1, t.categories, t.inputs, t.hidden, i, k, j);
  }

  lemma LoadedUnitRow(t: Trained, i: nat, k: nat)
    requires t.Valid() && InLimits(t) && i < t.categories && k < t.hidden
    ensures Loaded(t).Valid() && B1At(Loaded(t), i, k) == t.b1[i][k] && W2At(Loaded(t), i, k) == t.w2[i][k]
  {
    LoadedShape(t);
    ConcatAt(t.b1, t.categories, t.hidden, i, k);
    ConcatAt(t.w2, t.categories, t.hidden, i, k);
  }

  lemma LoadedSkip(t: Trained, i: nat, j: nat)
    requires t.Valid() && InLimits(t) && i < t.categories && j < t.inputs
    ensures Loaded(t).Valid() && WSkipAt(Loaded(t), i, j) == t.wSkip[i][j]
  {
    LoadedShape(t);
    ConcatAt(t.wSkip, t.categories, t.inputs, i, j);
  }

  lemma LoadedHolds(t: Trained, i: nat)
    requires t.Valid() && InLimits(t) && i < t.categories
    ensures Holds(Loaded(t), t, i)
  {
    LoadedShape(t);
    forall k, j | 0 <= k < t.hidden && 0 <= j < t.inputs ensures W1At(Loaded(t), i, k, j) == t.w1[i][j][k] { LoadedW1(t, i, k, j); }
    forall k | 0 <= k < t.hidden ensures B1At(Loaded(t), i, k) == t.b1[i][k] && W2At(Loaded(t), i, k) == t.w2[i][k] { LoadedUnitRow(t, i, k); }
    forall j | 0 <= j < t.inputs ensures WSkipAt(Loaded(t), i, j) == t.wSkip[i][j] { LoadedSkip(t, i, j); }
  }

  lemma UnitAgrees(num: Numerics, w: Weights, t: Trained, x: seq<real>, i: nat, k: nat)
    requires Holds(w, t, i) && |x| == t.inputs && k < t.hidden
    ensures Unit(num, w, x, i, k) == TrainedUnit(num, t, x, i, k)
  {
    UnitBounds(w, i, k);
    var off := DiskIndex(t.hidden, t.inputs, i, k, 0);
    forall j | 0 <= j < t.inputs ensures w.w1[off + j] == t.w1[i][j][k] {
      IndexSteps(t.hidden, t.inputs, i, k, j);
      assert W1At(w, i, k, j) == t.w1[i][j][k];
    }
    AccumulatesColumn(num, num.value(B1At(w, i, k)), w.w1, off, t.w1[i], k, x, t.inputs);
  }

  lemma IndexSteps(h: nat, d: nat, i: nat, k: nat, j: nat)
    ensures DiskIndex(h, d, i, k, j) == DiskIndex(h, d, i, k, 0) + j
  {
  }

  lemma {:induction false} UnitsAgree(num: Numerics, w: Weights, t: Trained, x: seq<real>, i: nat, n: nat)
    requires Holds(w, t, i) && |x| == t.inputs && n <= t.hidden
    ensures Units(num, w, x, i, n) == TrainedUnits(num, t, x, i, n)
  {
    if n > 0 {
      UnitsAgree(num, w, t, x, i, n - 1);
      UnitAgrees(num, w, t, x, i, n - 1);
    }
  }

  lemma LogitAgrees(num: Numerics, w: Weights, t: Trained, x: seq<real>, i: nat)
    requires Holds(w, t, i) && |x| == t.inputs
    ensures Logit(num, w, x, i) == TrainedLogit(num, t, x, i)
  {
    UnitsAgree(num, w, t, x, i, t.hidden);
    var units := TrainedUnits(num, t, x, i, t.hidden);
    OutputRow(w, t, i);
    SkipRow(w, t, i);
    AccumulatesRow(num, num.value(t.b2[i]), w.w2, i * t.hidden, t.w2[i], units, t.hidden);
    AccumulatesRow(num, num.value(t.b2[i]) + Row(num, t.w2[i], units, t.hidden), w.wSkip, i * t.inputs, t.wSkip[i], x, t.inputs);
  }

  /** The row stands in the table from `off` on. */
  ghost predicate RowAt(a: seq<Word>, off: nat, row: seq<Word>) {
    off + |row| <= |a| && forall j :: 0 <= j < |row| ==> a[off + j] == row[j]
  }

  lemma OutputRow(w: Weights, t: Trained, i: nat)
    requires Holds(w, t, i)
    ensures RowAt(w.w2, i * t.hidden, t.w2[i])
  {
    RowBounds(t.categories, t.hidden, i);
    forall k | 0 <= k < t.hidden ensures w.w2[i * t.hidden + k] == t.w2[i][k] {
      assert W2At(w, i, k) == t.w2[i][k];
    }
  }

  lemma SkipRow(w: Weights, t: Trained, i: nat)
    requires Holds(w, t, i)
    ensures RowAt(w.wSkip, i * t.inputs, t.wSkip[i])
  {
    RowBounds(t.categories, t.inputs, i);
    forall j | 0 <= j < t.inputs ensures w.wSkip[i * t.inputs + j] == t.wSkip[i][j] {
      assert WSkipAt(w, i, j) == t.wSkip[i][j];
    }
  }

  /** From the training script to the verdict: what is inferred over a loaded file is what the trained
      network says, for every category and every input. */
  lemma InferenceIsTrained(num: Numerics, t: Trained, runtime: seq<Byte>, x: seq<real>, i: nat)
    requires t.Valid() && |x| == t.inputs && i < t.categories && Load(Written(t), runtime).Some?
    ensures var w := Load(Written(t), runtime).value;
      w.Valid() && w.inputs == t.inputs && w.categories == t.categories && Probability(num, w, x, i) == TrainedProbability(num, t, x, i)
  {
    WrittenLoads(t, runtime);
    LoadedHolds(t, i);
    ProbabilityAgrees(num, Loaded(t), t, x, i);
  }

  lemma ProbabilityAgrees(num: Numerics, w: Weights, t: Trained, x: seq<real>, i: nat)
    requires Holds(w, t, i) && |x| == t.inputs
    ensures Probability(num, w, x, i) == TrainedProbability(num, t, x, i)
  {
    LogitAgrees(num, w, t, x, i);
    SameScore(num, w.plattA[i], w.plattB[i], Logit(num, w, x, i), num.value(t.plattA[i]), num.value(t.plattB[i]),
              TrainedLogit(num, t, x, i), TrainedScore(num, t, x, i));
  }

  lemma SameScore(num: Numerics, a: Word, b: Word, logit: real, scale: real, shift: real, trained: real, score: real)
    requires num.value(a) == scale && num.value(b) == shift && logit == trained && score == scale * trained + shift
    ensures Calibrated(num, a, b, logit) == score
  {
    assert num.value(a) * logit == scale * trained;
  }

  // ----- the object itself

  /** The scores of the categories before `n`, and the first of them with the largest positive probability. */
  ghost predicate Scored(num: Numerics, w: Weights, x: seq<real>, n: nat, scores: seq<real>, best: real, index: int)
    requires w.Valid() && |x| == w.inputs && n <= w.categories
  {
    && |scores| == AXES
    && (forall i :: 0 <= i < AXES ==> scores[i] == if i < n then Probability(num, w, x, i) else 0.0)
    && -1 <= index < n
    && (if index == -1 then best == 0.0 else best == Probability(num, w, x, index) > 0.0)
    && (forall i :: 0 <= i < n ==> Probability(num, w, x, i) <= best)
    && (forall i :: 0 <= i < index ==> Probability(num, w, x, i) < best)
  }

  class LocalClassifierLayer {
    const num: Numerics
    var enabled: bool
    var weights: Option<Weights>

    constructor (num: Numerics)
      ensures !enabled && weights == None
    {
      this.num := num;
      enabled, weights := false, None;
    }

    method Configure(enabled: bool)
      modifies this`enabled
      ensures this.enabled == enabled
    {
      this.enabled := enabled;
    }

    /** A blob that is not accepted clears the weights; one that is replaces them. */
    method LoadWeights(blob: array?<Byte>, runtime: seq<Byte>) returns (ok: bool)
      modifies this`weights
      ensures weights == if blob == null then None else Load(blob[..], runtime)
      ensures ok <==> weights.Some?
    {
      weights := None;
      if blob == null || blob.Length < HEADER {
        return false;
      }
      var w := ReadBlob(blob[..], runtime);
      weights := w;
      return w.Some?;
    }

    method ReadBlob(b: seq<Byte>, runtime: seq<Byte>) returns (w: Option<Weights>)
      requires |b| >= HEADER
      ensures w == Load(b, runtime)
    {
      if b[..5] != MAGIC {
        return None;
      }
      if b[5] != 2 {
        return None;
      }
      var version, n, d := ReadU32(b, 8), ReadU32(b, 12), ReadU32(b, 16);
      if n == 0 || n > 64 {
        return None;
      }
      if d == 0 || d > 4096 {
        return None;
      }
      if version != 2 {
        return None;
      }
      var h, length := ReadU32(b, 20), ReadU32(b, 24);
      LoadSaid(b, runtime, n, d, h, length);
      if h == 0 || h > 1024 {
        return None;
      }
      if length > 512 {
        return None;
      }
      if |b| < HEADER + length + TablesSize(n, d, h) {
        return None;
      }
      var name := b[HEADER..HEADER + length];
      if !NameMatches(name, runtime) {
        return None;
      }
      w := ReadTables(b, HEADER + length, n, d, h, name);
    }

    /** The tables one after another from the cursor on, the first of them transposed. */
    method ReadTables(b: seq<Byte>, start: nat, n: nat, d: nat, h: nat, name: seq<Byte>) returns (w: Option<Weights>)
      requires d > 0 && h > 0 && start + TablesSize(n, d, h) <= |b|
      ensures w == LoadTables(b[start..], n, d, h, name)
    {
      var weights, units, skips := n * (d * h), n * h, n * d;
      var c, cursor := CopyTables(b, start, weights, units, n, skips);
      ghost var body := b[start..];
      assert LoadTables(body, n, d, h, name) == Assembled(CutTables(body, weights, units, n, skips), n, d, h, name);
      w := Assemble(b, cursor, c, n, d, h, name);
    }

    method Assemble(b: seq<Byte>, start: nat, c: Cut, n: nat, d: nat, h: nat, name: seq<Byte>) returns (w: Option<Weights>)
      requires d > 0 && h > 0 && |c.disk| == n * (d * h) && start < |b| && c.rest == b[start..]
      ensures w == Assembled(c, n, d, h, name)
    {
      var w1 := Transpose(c.disk, n, d, h);
      var calibration, cursor := b[start], start + 1;
      if calibration != 1 {
        return Some(Weights(n, d, h, name, w1[..], c.b1, c.w2, c.b2, c.wSkip, calibration, [], []));
      }
      if |b| < cursor + 2 * (4 * n) {
        return None;
      }
      assert b[cursor..] == c.rest[1..];
      var plattA, next := CopyWords(b, cursor, n);
      var plattB, _ := CopyWords(b, next, n);
      return Some(Weights(n, d, h, name, w1[..], c.b1, c.w2, c.b2, c.wSkip, 1, plattA, plattB));
    }

    method CopyTables(b: seq<Byte>, start: nat, weightCount: nat, unitCount: nat, n: nat, skipCount: nat) returns (c: Cut, cursor: nat)
      requires start + 4 * weightCount + 4 * unitCount + 4 * unitCount + 4 * n + 4 * skipCount + 1 <= |b|
      ensures c == CutTables(b[start..], weightCount, unitCount, n, skipCount)
      ensures cursor < |b| && b[cursor..] == c.rest
    {
      var disk, b1, w2, b2, wSkip;
      disk, cursor := CopyWords(b, start, weightCount);
      b1, cursor := CopyWords(b, cursor, unitCount);
      w2, cursor := CopyWords(b, cursor, unitCount);
      b2, cursor := CopyWords(b, cursor, n);
      wSkip, cursor := CopyWords(b, cursor, skipCount);
      c := Cut(disk, b1, w2, b2, wSkip, b[cursor..]);
    }

    /** Copies the bytes of `n` words at the cursor and moves it past them. */
    method CopyWords(b: seq<Byte>, cursor: nat, n: nat) returns (ws: seq<Word>, next: nat)
      requires cursor + 4 * n <= |b|
      ensures next == cursor + 4 * n
      ensures TakeWords(b[cursor..], n) == (ws, b[next..])
    {
      ws := WordsOf(b[cursor..], n);
      next := cursor + 4 * n;
      assert b[cursor..][4 * n..] == b[next..];
    }

    /** Nothing is classified without weights, or for an embedding that failed or has the wrong size. */
    method Classify(ok: bool, x: seq<real>) returns (r: Result)
      requires weights.Some? ==> weights.value.Valid()
      ensures !enabled || weights == None || !ok || |x| != weights.value.inputs ==> r == NOTHING
      ensures enabled && weights.Some? && ok && |x| == weights.value.inputs ==>
        r.ran && Scored(num, weights.value, x, weights.value.categories, r.scores, r.maxConfidence, r.maxIndex)
    {
      if !enabled || weights == None || !ok || |x| != weights.value.inputs {
        return NOTHING;
      }
      r := ClassifyImpl(weights.value, x);
    }

    method ClassifyImpl(w: Weights, x: seq<real>) returns (r: Result)
      requires w.Valid() && |x| == w.inputs
      ensures r.ran && Scored(num, w, x, w.categories, r.scores, r.maxConfidence, r.maxIndex)
    {
      var scores, best, index := NO_SCORES, 0.0, -1;
      for i := 0 to w.categories
        invariant Scored(num, w, x, i, scores, best, index)
      {
        var prob := ClassifyAxis(w, x, i);
        if i < AXES {
          scores := scores[i := prob];
        }
        if prob > best {
          best, index := prob, i;
        }
      }
      return Result(true, scores, best, index);
    }

    method ClassifyAxis(w: Weights, x: seq<real>, i: nat) returns (prob: real)
      requires w.Valid() && |x| == w.inputs && i < w.categories
      ensures prob == Probability(num, w, x, i)
    {
      var hidden := HiddenUnits(w, x, i);
      RowBounds(w.categories, w.hidden, i);
      RowBounds(w.categories, w.inputs, i);
      var logit := Dot(num.value(w.b2[i]), w.w2, i * w.hidden, hidden, w.hidden);
      logit := Dot(logit, w.wSkip, i * w.inputs, x, w.inputs);
      if w.calibration == 1 && i < |w.plattA| {
        prob := num.sigmoid(Calibrated(num, w.plattA[i], w.plattB[i], logit));
      } else {
        prob := num.sigmoid(logit);
      }
    }

    method HiddenUnits(w: Weights, x: seq<real>, i: nat) returns (hidden: seq<real>)
      requires w.Valid() && |x| == w.inputs && i < w.categories
      ensures hidden == Units(num, w, x, i, w.hidden)
    {
      hidden := [];
      for k := 0 to w.hidden
        invariant hidden == Units(num, w, x, i, k)
      {
        var h := HiddenUnit(w, x, i, k);
        hidden := hidden + [h];
      }
    }

    method HiddenUnit(w: Weights, x: seq<real>, i: nat, k: nat) returns (h: real)
      requires w.Valid() && |x| == w.inputs && i < w.categories && k < w.hidden
      ensures h == Unit(num, w, x, i, k)
    {
      UnitBounds(w, i, k);
      var v := Dot(num.value(w.b1[i * w.hidden + k]), w.w1, DiskIndex(w.hidden, w.inputs, i, k, 0), x, w.inputs);
      h := Relu(v);
    }

    /** The inner loop: a dot product of contiguous weights, added to a starting value. */
    method Dot(start: real, a: seq<Word>, off: nat, x: seq<real>, n: nat) returns (v: real)
      requires off + n <= |a| && n <= |x|
      ensures v == Accumulated(num, start, a, off, x, n)
    {
      v := start;
      for j := 0 to n
        invariant v == Accumulated(num, start, a, off, x, j)
      {
        v := v + num.value(a[off + j]) * x[j];
      }
    }
  }
}
