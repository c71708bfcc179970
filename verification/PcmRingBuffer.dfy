/** The lock-free ring of PCM samples for one producer and one consumer (engine/audio/AudioStream.cpp). */
module PcmRingBuffer {
  // Heads are 64-bit words that wrap around; slots are found by masking.  The class runs one call at a
  // time; the state machine lets the producer's and the consumer's element copies, head loads and head
  // stores interleave in any order.

  import opened Bits
  import opened Common

  type Sample = real

  // ----- next_power_of_2

  /** Every bit of `n` is the union of `width` neighbouring bits of `from`, looking upwards. */
  ghost predicate Smeared(from: nat, width: nat, n: nat) {
    forall i: nat :: Bit(n, i) <==> exists j: nat :: i <= j < i + width && Bit(from, j)
  }

  lemma SmearedOnce(n: nat)
    ensures Smeared(n, 1, n)
  {
    forall i: nat ensures Bit(n, i) <==> exists j: nat :: i <= j < i + 1 && Bit(n, j) {
      if Bit(n, i) {
        assert i <= i < i + 1 && Bit(n, i);
      }
    }
  }

  lemma SmearDoubles(from: nat, width: nat, n: nat)
    requires width > 0 && Smeared(from, width, n)
    ensures Smeared(from, 2 * width, Or(n, Shr(n, width)))
  {
    var m := Or(n, Shr(n, width));
    forall i: nat ensures Bit(m, i) <==> exists j: nat :: i <= j < i + 2 * width && Bit(from, j) {
      OrBit(n, Shr(n, width), i);
      ShrBit(n, width, i);
      assert Bit(n, i) <==> exists j: nat :: i <= j < i + width && Bit(from, j);
      assert Bit(n, i + width) <==> exists j: nat :: i + width <= j < i + width + width && Bit(from, j);
    }
  }

  lemma TopBelowWord(n: nat, top: nat)
    requires Pow2(top) <= n < WORD
    ensures top < WORD_BITS
  {
    WordIsPow2();
    Pow2Monotone(WORD_BITS, top);
  }

  /** `top` is the highest set bit of `from`. */
  ghost predicate Highest(from: nat, top: nat) {
    Bit(from, top) && forall j: nat :: j > top ==> !Bit(from, j)
  }

  lemma HighestBit(n: nat) returns (top: nat)
    requires 0 < n < WORD
    ensures Highest(n, top) && top < WORD_BITS && Pow2(top) <= n < Pow2(top + 1)
  {
    top := TopBit(n);
    TopBelowWord(n, top);
  }

  lemma SmearedBit(from: nat, n: nat, top: nat, i: nat)
    requires Smeared(from, WORD_BITS, n) && top < WORD_BITS && Highest(from, top)
    ensures Bit(n, i) <==> i <= top
  {
    if i <= top {
      assert i <= top < i + WORD_BITS && Bit(from, top);
    }
  }

  lemma OnesBelow(from: nat, n: nat, top: nat)
    requires Smeared(from, WORD_BITS, n) && top < WORD_BITS && Highest(from, top)
    ensures n == Pow2(top + 1) - 1
  {
    forall i: nat ensures Bit(n, i) <==> i < top + 1 {
      SmearedBit(from, n, top, i);
    }
    AllOnes(n, top + 1);
  }

  lemma NoOnes(n: nat)
    requires Smeared(0, WORD_BITS, n)
    ensures n == 0
  {
    forall i: nat ensures !Bit(n, i) {
      forall j: nat ensures !Bit(0, j) { ZeroBits(j); }
    }
    AllOnes(n, 0);
  }

  lemma SmearedIsOnes(from: nat, n: nat) returns (len: nat)
    requires from < WORD && Smeared(from, WORD_BITS, n)
    ensures n == Pow2(len) - 1 && len <= WORD_BITS
    ensures from < Pow2(len) && (len > 0 ==> Pow2(len - 1) <= from)
  {
    if from == 0 {
      len := 0;
      NoOnes(n);
    } else {
      var top := HighestBit(from);
      len := top + 1;
      OnesBelow(from, n, top);
    }
  }

  /** The least power of two that is at least `v`, for every request that has one in 64 bits; every
      other request comes out as zero. */
  method NextPowerOf2(v: nat) returns (r: nat)
    requires v < WORD
    ensures 1 <= v <= HALF ==> LeastPowerOf2(v, r)
    ensures r == 0 <==> v == 0 || v > HALF
  {
    var n := (v + WORD - 1) % WORD;
    ghost var from := n;
    SmearedOnce(n);
    SmearDoubles(from, 1, n);
    n := Or(n, Shr(n, 1));
    SmearDoubles(from, 2, n);
    n := Or(n, Shr(n, 2));
    SmearDoubles(from, 4, n);
    n := Or(n, Shr(n, 4));
    SmearDoubles(from, 8, n);
    n := Or(n, Shr(n, 8));
    SmearDoubles(from, 16, n);
    n := Or(n, Shr(n, 16));
    SmearDoubles(from, 32, n);
    n := Or(n, Shr(n, 32));
    ghost var len := SmearedIsOnes(from, n);
    r := (n + 1) % WORD;
    RoundedUp(v, from, len);
  }

  ghost predicate LeastPowerOf2(v: nat, r: nat) {
    && (exists k: nat :: k < WORD_BITS && r == Pow2(k))
    && v <= r
    && forall k: nat :: v <= Pow2(k) ==> r <= Pow2(k)
  }

  lemma RoundedUp(v: nat, from: nat, len: nat)
    requires v < WORD && from == (v + WORD - 1) % WORD && len <= WORD_BITS
    requires from < Pow2(len) && (len > 0 ==> Pow2(len - 1) <= from)
    ensures 1 <= v <= HALF ==> LeastPowerOf2(v, Pow2(len) % WORD)
    ensures Pow2(len) % WORD == 0 <==> v == 0 || v > HALF
  {
    if 1 <= v <= HALF {
      assert from == v - 1;
      FitsHalf(from, len);
      LeastAbove(v, len);
    } else {
      assert from >= HALF;
      ExceedsHalf(from, len);
    }
  }

  lemma FitsHalf(from: nat, len: nat)
    requires from < HALF && (len > 0 ==> Pow2(len - 1) <= from)
    ensures len < WORD_BITS && Pow2(len) <= HALF && Pow2(len) % WORD == Pow2(len)
  {
    WordIsPow2();
    if len > 0 {
      Pow2Monotone(WORD_BITS - 1, len - 1);
    }
    Pow2Monotone(len, WORD_BITS - 1);
  }

  lemma ExceedsHalf(from: nat, len: nat)
    requires HALF <= from < Pow2(len) && len <= WORD_BITS
    ensures Pow2(len) == WORD
  {
    WordIsPow2();
    Pow2Monotone(len, WORD_BITS - 1);
  }

  lemma LeastAbove(v: nat, len: nat)
    requires 1 <= v <= Pow2(len) && len < WORD_BITS && (len > 0 ==> Pow2(len - 1) < v)
    ensures LeastPowerOf2(v, Pow2(len))
  {
    forall k: nat | v <= Pow2(k) ensures Pow2(len) <= Pow2(k) {
      if k < len {
        Pow2Monotone(k, len - 1);
      } else {
        Pow2Monotone(len, k);
      }
    }
  }

  // ----- Heads and slots

  predicate Capacity(cap: nat) {
    exists k: nat :: k < WORD_BITS && cap == Pow2(k)
  }

  /** Unsigned subtraction and addition of 64-bit words. */
  function Minus(a: nat, b: nat): nat { (a + WORD - b % WORD) % WORD }
  function Plus(a: nat, b: nat): nat { (a + b) % WORD }

  /** The slot `i` places after head position `head`: (head + i) & mask. */
  function Slot(cap: nat, head: nat, i: nat): nat
    requires cap >= 1
  {
    And(Plus(head, i), cap - 1)
  }

  lemma NestedRemainder(x: nat, m: nat, d: nat, e: nat)
    requires d >= 1 && m == d * e && e >= 1
    ensures (x % m) % d == x % d
  {
    var q, r := x / m, x % m;
    var q', r' := r / d, r % d;
    calc {
      x;
      m * q + r;
      (d * e) * q + (d * q' + r');
      { MulRegroup(d, e, q, q'); }
      d * (e * q + q') + r';
    }
    RemainderUnique(x, d, e * q + q', r');
  }

  lemma MulRegroup(d: nat, e: nat, q: nat, q': nat)
    ensures (d * e) * q + d * q' == d * (e * q + q')
  {
  }

  /** Wrapping heads and masking finds the slot of the running total. */
  lemma SlotOfTotal(cap: nat, total: nat, i: nat)
    requires Capacity(cap)
    ensures Slot(cap, total % WORD, i) == (total + i) % cap
  {
    var k: nat :| k < WORD_BITS && cap == Pow2(k);
    WordIsPow2();
    Pow2Sum(k, WORD_BITS - k);
    HeadAdvances(total, i);
    MaskIsRemainder((total + i) % WORD, k);
    NestedRemainder(total + i, WORD, cap, Pow2(WORD_BITS - k));
  }

  lemma SlotsDiffer(cap: nat, a: nat, b: nat)
    requires cap >= 1 && a < b < a + cap
    ensures a % cap != b % cap
  {
    var p, q := a / cap, b / cap;
    if q <= p {
      MulMonotone(cap, q, p);
    } else {
      assert cap * q - cap * p == cap * (q - p);
      MulAtLeast(cap, q - p);
    }
  }

  lemma HeadAdvances(total: nat, n: nat)
    ensures Plus(total % WORD, n) == (total + n) % WORD
  {
  }

  lemma MulMonotone(m: nat, a: int, b: int)
    requires a <= b
    ensures m * a <= m * b
  {
  }

  lemma HeadDistance(cap: nat, total: nat, consumed: nat)
    requires Capacity(cap) && consumed <= total <= consumed + cap
    ensures cap < WORD && Minus(total % WORD, consumed % WORD) == total - consumed
  {
    var k: nat :| k < WORD_BITS && cap == Pow2(k);
    WordIsPow2();
    Pow2Monotone(k, WORD_BITS - 1);
    WrappedDistance(total, consumed);
  }

  lemma WrappedDistance(total: nat, consumed: nat)
    requires consumed <= total < consumed + WORD
    ensures Minus(total % WORD, consumed % WORD) == total - consumed
  {
  }

  lemma MinusFits(a: nat, b: nat)
    requires b <= a < WORD
    ensures Minus(a, b) == a - b
  {
  }

  // ----- The state of the ring

  /** `written` is everything published so far, of which `consumed` samples have been released. */
  ghost predicate Holds(cap: nat, buf: seq<Sample>, writeHead: nat, readHead: nat, written: seq<Sample>, consumed: nat) {
    && Capacity(cap) && |buf| == cap
    && consumed <= |written| <= consumed + cap
    && writeHead == |written| % WORD && readHead == consumed % WORD
    && forall k :: consumed <= k < |written| ==> buf[k % cap] == written[k]
  }

  datatype Writer = Resting | Writing(data: seq<Sample>, take: nat, done: nat)
  datatype Reader = Idle | Reading(take: nat, done: nat)

  datatype Ring = Ring(
    cap: nat,
    buf: seq<Sample>,
    writeHead: nat,
    readHead: nat,
    writer: Writer,
    reader: Reader,
    written: seq<Sample>,     // published by the producer
    consumed: nat,            // released by the consumer
    received: seq<Sample>)    // copied out to the consumer's buffers

  datatype Step =
    | BeginWrite(data: seq<Sample>)   // both heads loaded
    | CopyIn
    | PublishWrite
    | BeginRead(count: nat)
    | CopyOut
    | PublishRead

  predicate Enabled(s: Ring, step: Step) {
    match step
    case BeginWrite(_) => s.writer == Resting
    case CopyIn => s.writer.Writing? && s.writer.done < s.writer.take <= |s.writer.data| && s.cap >= 1
    case PublishWrite => s.writer.Writing? && s.writer.done == s.writer.take <= |s.writer.data|
    case BeginRead(_) => s.reader == Idle
    case CopyOut => s.reader.Reading? && s.reader.done < s.reader.take && s.cap >= 1
    case PublishRead => s.reader.Reading? && s.reader.done == s.reader.take
  }

  function Next(s: Ring, step: Step): Ring
    requires Enabled(s, step)
  {
    match step
    case BeginWrite(data) =>
      var free := Minus(s.cap, Minus(s.writeHead, s.readHead));
      s.(writer := Writing(data, Min(|data|, free), 0))
    case CopyIn =>
      var slot := Slot(s.cap, s.writeHead, s.writer.done);
      s.(buf := Put(s.buf, slot, s.writer.data[s.writer.done]), writer := s.writer.(done := s.writer.done + 1))
    case PublishWrite =>
      s.(writeHead := Plus(s.writeHead, s.writer.take), writer := Resting,
         written := s.written + s.writer.data[..s.writer.take])
    case BeginRead(count) =>
      s.(reader := Reading(Min(count, Minus(s.writeHead, s.readHead)), 0))
    case CopyOut =>
      var slot := Slot(s.cap, s.readHead, s.reader.done);
      s.(received := s.received + Get(s.buf, slot), reader := s.reader.(done := s.reader.done + 1))
    case PublishRead =>
      s.(readHead := Plus(s.readHead, s.reader.take), reader := Idle, consumed := s.consumed + s.reader.take)
  }

  /** Memory accesses: outside the buffer nothing is read or written, which the invariant rules out. */
  function Put(buf: seq<Sample>, slot: nat, x: Sample): seq<Sample> {
    if slot < |buf| then buf[slot := x] else buf
  }
  function Get(buf: seq<Sample>, slot: nat): seq<Sample> {
    if slot < |buf| then [buf[slot]] else []
  }

  ghost predicate WriterInv(s: Ring)
    requires Capacity(s.cap) && |s.buf| == s.cap
  {
    s.writer.Writing? ==>
      && s.writer.done <= s.writer.take <= |s.writer.data|
      && |s.written| + s.writer.take <= s.consumed + s.cap
      && forall i :: 0 <= i < s.writer.done ==> s.buf[(|s.written| + i) % s.cap] == s.writer.data[i]
  }

  ghost predicate ReaderInv(s: Ring) {
    var done := if s.reader.Reading? then s.reader.done else 0;
    && (s.reader.Reading? ==> done <= s.reader.take && s.consumed + s.reader.take <= |s.written|)
    && s.consumed + done <= |s.written|
    && s.received == s.written[..s.consumed + done]
  }

  ghost predicate Inv(s: Ring) {
    && Holds(s.cap, s.buf, s.writeHead, s.readHead, s.written, s.consumed)
    && WriterInv(s) && ReaderInv(s)
  }

  lemma CapacityPositive(cap: nat)
    requires Capacity(cap)
    ensures cap >= 1
  {
  }

  lemma BeginWritePreserves(s: Ring, data: seq<Sample>)
    requires Inv(s) && Enabled(s, BeginWrite(data))
    ensures Inv(Next(s, BeginWrite(data)))
  {
    HeadDistance(s.cap, |s.written|, s.consumed);
    MinusFits(s.cap, |s.written| - s.consumed);
  }

  lemma BeginReadPreserves(s: Ring, count: nat)
    requires Inv(s) && Enabled(s, BeginRead(count))
    ensures Inv(Next(s, BeginRead(count)))
  {
    HeadDistance(s.cap, |s.written|, s.consumed);
  }

  /** The counts the two calls settle on, wrapping heads notwithstanding. */
  lemma Takes(s: Ring, data: seq<Sample>, count: nat)
    requires Inv(s)
    ensures s.writer == Resting ==>
      Next(s, BeginWrite(data)).writer.take == Min(|data|, s.cap - (|s.written| - s.consumed))
    ensures s.reader == Idle ==> Next(s, BeginRead(count)).reader.take == Min(count, |s.written| - s.consumed)
  {
    HeadDistance(s.cap, |s.written|, s.consumed);
    MinusFits(s.cap, |s.written| - s.consumed);
  }

  /** The slot the producer fills holds no sample that is still to be read. */
  lemma CopyInHitsFreeSlot(s: Ring, k: nat)
    requires Inv(s) && Enabled(s, CopyIn) && s.consumed <= k < |s.written| + s.writer.done
    ensures
      var slot := Slot(s.cap, s.writeHead, s.writer.done);
      slot < |s.buf| && slot == (|s.written| + s.writer.done) % s.cap && slot != k % s.cap
  {
    CapacityPositive(s.cap);
    SlotOfTotal(s.cap, |s.written|, s.writer.done);
    SlotsDiffer(s.cap, k, |s.written| + s.writer.done);
  }

  lemma CopyInPreserves(s: Ring)
    requires Inv(s) && Enabled(s, CopyIn)
    ensures Inv(Next(s, CopyIn))
  {
    var t := Next(s, CopyIn);
    CapacityPositive(s.cap);
    SlotOfTotal(s.cap, |s.written|, s.writer.done);
    forall k | s.consumed <= k < |s.written| ensures t.buf[k % s.cap] == s.written[k] {
      CopyInHitsFreeSlot(s, k);
    }
    forall i | 0 <= i < t.writer.done ensures t.buf[(|s.written| + i) % s.cap] == s.writer.data[i] {
      if i < s.writer.done {
        CopyInHitsFreeSlot(s, |s.written| + i);
      }
    }
  }

  /** Moving the write head over `more`, already in its slots, publishes it. */
  lemma Publish(cap: nat, buf: seq<Sample>, writeHead: nat, readHead: nat, written: seq<Sample>, consumed: nat,
                more: seq<Sample>)
    requires Holds(cap, buf, writeHead, readHead, written, consumed)
    requires |written| + |more| <= consumed + cap
    requires forall i :: 0 <= i < |more| ==> buf[(|written| + i) % cap] == more[i]
    ensures Holds(cap, buf, Plus(writeHead, |more|), readHead, written + more, consumed)
  {
    HeadAdvances(|written|, |more|);
    forall k | consumed <= k < |written + more| ensures buf[k % cap] == (written + more)[k] {
      if k >= |written| {
        assert buf[(|written| + (k - |written|)) % cap] == more[k - |written|];
      }
    }
  }

  lemma PublishWritePreserves(s: Ring)
    requires Inv(s) && Enabled(s, PublishWrite)
    ensures Inv(Next(s, PublishWrite))
  {
    Publish(s.cap, s.buf, s.writeHead, s.readHead, s.written, s.consumed, s.writer.data[..s.writer.take]);
    ReaderSeesPrefix(s, Next(s, PublishWrite));
  }

  lemma ReaderSeesPrefix(s: Ring, t: Ring)
    requires ReaderInv(s) && t.reader == s.reader && t.consumed == s.consumed && t.received == s.received
    requires s.written <= t.written
    ensures ReaderInv(t)
  {
    assert forall n :: 0 <= n <= |s.written| ==> t.written[..n] == s.written[..n];
  }

  lemma CopyOutPreserves(s: Ring)
    requires Inv(s) && Enabled(s, CopyOut)
    ensures Inv(Next(s, CopyOut))
  {
    SlotOfTotal(s.cap, s.consumed, s.reader.done);
    var k := s.consumed + s.reader.done;
    assert s.buf[k % s.cap] == s.written[k];
    assert s.written[..k] + [s.written[k]] == s.written[..k + 1];
  }

  lemma PublishReadPreserves(s: Ring)
    requires Inv(s) && Enabled(s, PublishRead)
    ensures Inv(Next(s, PublishRead))
  {
    HeadAdvances(s.consumed, s.reader.take);
  }

  lemma InvPreserved(s: Ring, step: Step)
    requires Inv(s) && Enabled(s, step)
    ensures Inv(Next(s, step))
  {
    match step {
      case CopyIn => CopyInPreserves(s);
      case PublishWrite => PublishWritePreserves(s);
      case CopyOut => CopyOutPreserves(s);
      case PublishRead => PublishReadPreserves(s);
      case BeginWrite(data) => BeginWritePreserves(s, data);
      case BeginRead(count) => BeginReadPreserves(s, count);
    }
  }

  // ----- Runs: the ring refines an unbounded queue

  ghost predicate Follows(s: Ring, step: Step, t: Ring) {
    Enabled(s, step) && t == Next(s, step)
  }

  /** A freshly constructed ring: any buffer contents, both heads zero. */
  ghost predicate Initial(s: Ring) {
    && Capacity(s.cap) && |s.buf| == s.cap && s.writeHead == s.readHead == 0
    && s.writer == Resting && s.reader == Idle
    && s.written == [] && s.consumed == 0 && s.received == []
  }

  ghost predicate IsRun(run: seq<Ring>, steps: seq<Step>) {
    && |run| == |steps| + 1
    && Initial(run[0])
    && forall i :: 0 <= i < |steps| ==> Follows(run[i], steps[i], run[i + 1])
  }

  lemma {:induction false} InvHolds(run: seq<Ring>, steps: seq<Step>, i: nat)
    requires IsRun(run, steps) && i < |run|
    ensures Inv(run[i])
  {
    if i > 0 {
      InvHolds(run, steps, i - 1);
      assert Follows(run[i - 1], steps[i - 1], run[i]);
      InvPreserved(run[i - 1], steps[i - 1]);
    }
  }

  /** The concatenation of what every completed write call published. */
  function Published(run: seq<Ring>, steps: seq<Step>, i: nat): seq<Sample>
    requires i <= |steps| && |run| == |steps| + 1
  {
    if i == 0 then []
    else if steps[i - 1] == PublishWrite && run[i - 1].writer.Writing?
            && run[i - 1].writer.take <= |run[i - 1].writer.data| then
      Published(run, steps, i - 1) + run[i - 1].writer.data[..run[i - 1].writer.take]
    else Published(run, steps, i - 1)
  }

  lemma {:induction false} WrittenIsPublished(run: seq<Ring>, steps: seq<Step>, i: nat)
    requires IsRun(run, steps) && i < |run|
    ensures run[i].written == Published(run, steps, i)
  {
    if i > 0 {
      WrittenIsPublished(run, steps, i - 1);
      assert Follows(run[i - 1], steps[i - 1], run[i]);
    }
  }

  /** In every interleaving, with heads wrapping at 2^64, the samples copied out so far are a prefix of
      the samples the write calls published, in order, without loss, duplication or stale data. */
  lemma {:induction false} ReceivedIsPrefixOfPublished(run: seq<Ring>, steps: seq<Step>, i: nat)
    requires IsRun(run, steps) && i < |run|
    ensures run[i].received <= Published(run, steps, i)
    ensures run[i].reader == Idle ==> |run[i].received| == run[i].consumed
  {
    InvHolds(run, steps, i);
    WrittenIsPublished(run, steps, i);
  }

  /** No element copy of the producer, in any interleaving, touches a slot holding an unread sample. */
  lemma {:induction false} NoUnreadSlotOverwritten(run: seq<Ring>, steps: seq<Step>, i: nat, k: nat)
    requires IsRun(run, steps) && i < |steps| && steps[i] == CopyIn
    requires run[i].consumed <= k < |run[i].written|
    ensures Enabled(run[i], CopyIn)
    ensures Slot(run[i].cap, run[i].writeHead, run[i].writer.done) != k % run[i].cap
    ensures Get(run[i + 1].buf, k % run[i].cap) == [run[i].written[k]]
  {
    InvHolds(run, steps, i);
    InvHolds(run, steps, i + 1);
    assert Follows(run[i], steps[i], run[i + 1]);
    CopyInHitsFreeSlot(run[i], k);
    assert run[i + 1].buf[k % run[i].cap] == run[i + 1].written[k];
  }

  // ----- The object itself, one call at a time

  class Buffer {
    const buf: array<Sample>
    const mask: nat
    var writeHead: nat
    var readHead: nat
    ghost var written: seq<Sample>
    ghost var consumed: nat

    ghost predicate Valid()
      reads this, buf
    {
      mask == buf.Length - 1 && Holds(buf.Length, buf[..], writeHead, readHead, written, consumed)
    }

    constructor (capacity: nat)
      requires 1 <= capacity <= HALF
      ensures Valid() && fresh(buf) && LeastPowerOf2(capacity, buf.Length)
      ensures written == [] && consumed == 0
    {
      var size := NextPowerOf2(capacity);
      WordIsPow2();
      buf := new Sample[size](_ => 0.0);
      mask := size - 1;
      writeHead, readHead := 0, 0;
      written, consumed := [], 0;
    }

    /** One turn of the loop in write: the `i`-th sample goes to its slot, which is free. */
    method Store(i: nat, x: Sample)
      requires Valid() && |written| + i < consumed + buf.Length
      modifies buf
      ensures Valid()
      ensures forall k :: consumed <= k < |written| + i ==> buf[k % buf.Length] == old(buf[k % buf.Length])
      ensures buf[(|written| + i) % buf.Length] == x
    {
      SlotOfTotal(buf.Length, |written|, i);
      forall k | consumed <= k < |written| + i ensures k % buf.Length != (|written| + i) % buf.Length {
        SlotsDiffer(buf.Length, k, |written| + i);
      }
      assert forall k :: consumed <= k < |written| ==> buf[..][k % buf.Length] == buf[k % buf.Length];
      buf[And(Plus(writeHead, i), mask)] := x;
      assert forall k :: consumed <= k < |written| ==> buf[..][k % buf.Length] == buf[k % buf.Length];
    }

    /** The loop in write. */
    method Fill(data: seq<Sample>, n: nat)
      requires Valid() && n <= |data| && |written| + n <= consumed + buf.Length
      modifies buf
      ensures Valid()
      ensures forall j :: 0 <= j < n ==> buf[(|written| + j) % buf.Length] == data[j]
    {
      var i := 0;
      while i < n
        invariant Valid() && i <= n
        invariant forall j :: 0 <= j < i ==> buf[(|written| + j) % buf.Length] == data[j]
      {
        Store(i, data[i]);
        i := i + 1;
      }
    }

    /** Append as many samples as fit. */
    method Write(data: seq<Sample>) returns (n: nat)
      requires Valid()
      modifies this, buf
      ensures Valid()
      ensures n == Min(|data|, buf.Length - (|old(written)| - consumed))
      ensures written == old(written) + data[..n] && consumed == old(consumed)
    {
      HeadDistance(buf.Length, |written|, consumed);
      var free := Minus(buf.Length, Minus(writeHead, readHead));
      MinusFits(buf.Length, |written| - consumed);
      n := Min(|data|, free);
      Fill(data, n);
      Publish(buf.Length, buf[..], writeHead, readHead, written, consumed, data[..n]);
      written := written + data[..n];
      writeHead := Plus(writeHead, n);
    }

    /** Take up to `count` of the oldest samples. */
    method Read(count: nat) returns (data: seq<Sample>)
      requires Valid()
      modifies this
      ensures Valid()
      ensures |data| == Min(count, |written| - old(consumed))
      ensures consumed == old(consumed) + |data| && written == old(written)
      ensures data == written[old(consumed)..consumed]
    {
      HeadDistance(buf.Length, |written|, consumed);
      var n := Min(count, Minus(writeHead, readHead));
      data := [];
      var i := 0;
      while i < n
        invariant Valid() && i <= n <= |written| - consumed
        invariant data == written[consumed..consumed + i]
        invariant written == old(written) && consumed == old(consumed) && readHead == old(readHead)
      {
        SlotOfTotal(buf.Length, consumed, i);
        assert buf[..][(consumed + i) % buf.Length] == written[consumed + i];
        data := data + [buf[And(Plus(readHead, i), mask)]];
        i := i + 1;
      }
      HeadAdvances(consumed, n);
      readHead := Plus(readHead, n);
      consumed := consumed + n;
    }
  }
}
