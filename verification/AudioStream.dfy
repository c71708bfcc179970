/** The decode thread and the audio callback around the ring (engine/audio/AudioStream.cpp). */
module AudioStream {
  // The partial-write loop pushes each decoded chunk, and read_frames takes frames out.  Decoders are the
  // environment; a decoded chunk is a whole number of stereo frames, so an even number of samples.

  import opened Bits
  import opened Common
  import R = PcmRingBuffer

  type Sample = R.Sample

  /** What the decode thread may do next because its last test of the stop flag let it pass. */
  datatype Pass = NotTested | MayDecode | MayWrite

  datatype Stream = Stream(
    ring: R.Ring,
    decoded: seq<Sample>,    // everything the decoder has produced
    chunk: seq<Sample>,      // the chunk being pushed
    offset: nat,             // how much of it earlier writes took
    pass: Pass,
    cancelled: bool)

  datatype Step =
    | TestStop
    | Decode(samples: seq<Sample>)
    | StartWrite
    | CopyIn
    | FinishWrite
    | Cancel
    | StartRead(frames: nat)
    | CopyOut
    | FinishRead

  /** Only the test reads the stop flag: a cancel between the test and what it guards goes unnoticed. */
  predicate Enabled(s: Stream, step: Step) {
    match step
    case TestStop => !s.cancelled && s.pass == NotTested && s.ring.writer == R.Resting
    case Decode(samples) => s.pass == MayDecode && s.ring.writer == R.Resting && |samples| % 2 == 0
    case StartWrite => s.pass == MayWrite && s.ring.writer == R.Resting && s.offset < |s.chunk|
    case CopyIn => R.Enabled(s.ring, R.CopyIn)
    case FinishWrite => R.Enabled(s.ring, R.PublishWrite)
    case Cancel => true
    case StartRead(frames) => R.Enabled(s.ring, R.BeginRead(2 * frames))
    case CopyOut => R.Enabled(s.ring, R.CopyOut)
    case FinishRead => R.Enabled(s.ring, R.PublishRead)
  }

  function Next(s: Stream, step: Step): Stream
    requires Enabled(s, step)
  {
    match step
    case TestStop => s.(pass := if s.offset == |s.chunk| then MayDecode else MayWrite)
    case Decode(samples) => s.(pass := NotTested, decoded := s.decoded + samples, chunk := samples, offset := 0)
    case StartWrite => s.(pass := NotTested, ring := R.Next(s.ring, R.BeginWrite(s.chunk[s.offset..])))
    case CopyIn => s.(ring := R.Next(s.ring, R.CopyIn))
    case FinishWrite => s.(ring := R.Next(s.ring, R.PublishWrite), offset := s.offset + s.ring.writer.take)
    case Cancel => s.(cancelled := true)
    case StartRead(frames) => s.(ring := R.Next(s.ring, R.BeginRead(2 * frames)))
    case CopyOut => s.(ring := R.Next(s.ring, R.CopyOut))
    case FinishRead => s.(ring := R.Next(s.ring, R.PublishRead))
  }

  /** What was written is the decoded stream up to the part of the chunk still to be pushed. */
  ghost predicate PushInv(s: Stream) {
    && s.offset <= |s.chunk| <= |s.decoded|
    && s.chunk == s.decoded[|s.decoded| - |s.chunk|..]
    && s.ring.written == s.decoded[..|s.decoded| - |s.chunk| + s.offset]
    && (s.ring.writer.Writing? ==> s.ring.writer.data == s.chunk[s.offset..])
  }

  ghost predicate FrameInv(s: Stream) {
    && s.ring.cap % 2 == 0
    && |s.ring.written| % 2 == 0 && s.ring.consumed % 2 == 0
    && |s.chunk| % 2 == 0 && s.offset % 2 == 0
    && (s.ring.writer.Writing? ==> s.ring.writer.take % 2 == 0)
    && (s.ring.reader.Reading? ==> s.ring.reader.take % 2 == 0)
  }

  /** The decode thread decodes only when the chunk is pushed to its end, and writes only before. */
  ghost predicate PassInv(s: Stream) {
    s.pass != NotTested ==> s.ring.writer == R.Resting && (s.pass == MayDecode <==> s.offset == |s.chunk|)
  }

  ghost predicate Inv(s: Stream) {
    R.Inv(s.ring) && PushInv(s) && FrameInv(s) && PassInv(s)
  }

  lemma RingPreserved(s: Stream, step: Step)
    requires R.Inv(s.ring) && Enabled(s, step)
    ensures R.Inv(Next(s, step).ring)
  {
    match step {
      case StartWrite => R.InvPreserved(s.ring, R.BeginWrite(s.chunk[s.offset..]));
      case CopyIn => R.InvPreserved(s.ring, R.CopyIn);
      case FinishWrite => R.InvPreserved(s.ring, R.PublishWrite);
      case StartRead(frames) => R.InvPreserved(s.ring, R.BeginRead(2 * frames));
      case CopyOut => R.InvPreserved(s.ring, R.CopyOut);
      case FinishRead => R.InvPreserved(s.ring, R.PublishRead);
      case _ =>
    }
  }

  lemma PushedPart(s: Stream)
    requires R.Inv(s.ring) && PushInv(s) && Enabled(s, FinishWrite)
    ensures PushInv(Next(s, FinishWrite))
  {
    var start, take := |s.decoded| - |s.chunk| + s.offset, s.ring.writer.take;
    assert s.chunk[s.offset..][..take] == s.decoded[start..start + take];
    assert s.decoded[..start] + s.decoded[start..start + take] == s.decoded[..start + take];
  }

  lemma PassPreserved(s: Stream, step: Step)
    requires PassInv(s) && Enabled(s, step)
    ensures PassInv(Next(s, step))
  {
  }

  lemma PushPreserved(s: Stream, step: Step)
    requires R.Inv(s.ring) && PushInv(s) && PassInv(s) && Enabled(s, step)
    ensures PushInv(Next(s, step))
  {
    if step == FinishWrite {
      PushedPart(s);
    }
  }

  lemma EvenMin(a: int, b: int)
    requires a % 2 == 0 && b % 2 == 0
    ensures Min(a, b) % 2 == 0
  {
  }

  lemma EvenDifference(a: int, b: int)
    requires a % 2 == 0 && b % 2 == 0
    ensures (a - b) % 2 == 0
  {
  }

  /** The smaller of what is left and what fits, all of it even. */
  lemma EvenTake(size: int, offset: int, cap: int, written: int, consumed: int)
    requires size % 2 == offset % 2 == cap % 2 == written % 2 == consumed % 2 == 0
    ensures Min(size - offset, cap - (written - consumed)) % 2 == 0
    ensures Min(size - offset, written - consumed) % 2 == 0
  {
    EvenDifference(size, offset);
    EvenDifference(written, consumed);
    EvenDifference(cap, written - consumed);
    EvenMin(size - offset, cap - (written - consumed));
    EvenMin(size - offset, written - consumed);
  }

  /** A partial write into a ring with even heads and an even capacity takes a whole number of frames. */
  lemma WritesWholeFrames(s: Stream)
    requires R.Inv(s.ring) && FrameInv(s) && Enabled(s, StartWrite)
    ensures Next(s, StartWrite).ring.writer.take % 2 == 0
  {
    R.Takes(s.ring, s.chunk[s.offset..], 0);
    EvenTake(|s.chunk|, s.offset, s.ring.cap, |s.ring.written|, s.ring.consumed);
  }

  /** And so does a partial read. */
  lemma ReadsWholeFrames(s: Stream, frames: nat)
    requires R.Inv(s.ring) && FrameInv(s) && Enabled(s, StartRead(frames))
    ensures Next(s, StartRead(frames)).ring.reader.take % 2 == 0
  {
    R.Takes(s.ring, [], 2 * frames);
    EvenTake(2 * frames, 0, 0, |s.ring.written|, s.ring.consumed);
  }

  lemma FramePreserved(s: Stream, step: Step)
    requires FrameInv(s) && Enabled(s, step)
    requires step.StartWrite? ==> Next(s, step).ring.writer.take % 2 == 0
    requires step.StartRead? ==> Next(s, step).ring.reader.take % 2 == 0
    ensures FrameInv(Next(s, step))
  {
  }

  lemma InvPreserved(s: Stream, step: Step)
    requires Inv(s) && Enabled(s, step)
    ensures Inv(Next(s, step))
  {
    RingPreserved(s, step);
    PassPreserved(s, step);
    PushPreserved(s, step);
    if step.StartWrite? {
      WritesWholeFrames(s);
    } else if step.StartRead? {
      ReadsWholeFrames(s, step.frames);
    }
    FramePreserved(s, step);
  }

  lemma EvenHead(total: nat)
    requires total % 2 == 0
    ensures total % WORD % 2 == 0
  {
  }

  // ----- Runs

  ghost predicate Follows(s: Stream, step: Step, t: Stream) {
    Enabled(s, step) && t == Next(s, step)
  }

  ghost predicate Initial(s: Stream) {
    R.Initial(s.ring) && s.ring.cap >= 2 && s.decoded == s.chunk == [] && s.offset == 0
    && s.pass == NotTested && !s.cancelled
  }

  ghost predicate IsRun(run: seq<Stream>, steps: seq<Step>) {
    && |run| == |steps| + 1
    && Initial(run[0])
    && forall i :: 0 <= i < |steps| ==> Follows(run[i], steps[i], run[i + 1])
  }

  lemma {:induction false} InvHolds(run: seq<Stream>, steps: seq<Step>, i: nat)
    requires IsRun(run, steps) && i < |run|
    ensures Inv(run[i])
  {
    if i > 0 {
      InvHolds(run, steps, i - 1);
      assert Follows(run[i - 1], steps[i - 1], run[i]);
      InvPreserved(run[i - 1], steps[i - 1]);
    }
  }

  /** Both heads stay even, so the count that read_frames halves is even and no sample is dropped or
      left behind in the middle of a frame. */
  lemma {:induction false} FramesNeverSplit(run: seq<Stream>, steps: seq<Step>, i: nat)
    requires IsRun(run, steps) && i < |run|
    ensures run[i].ring.writeHead % 2 == 0 && run[i].ring.readHead % 2 == 0
    ensures i < |steps| && steps[i] == FinishRead ==>
      run[i].ring.reader.Reading? && run[i].ring.reader.take / 2 * 2 == run[i].ring.reader.take
  {
    InvHolds(run, steps, i);
    EvenHead(|run[i].ring.written|);
    EvenHead(run[i].ring.consumed);
    if i < |steps| {
      assert Follows(run[i], steps[i], run[i + 1]);
    }
  }

  /** Every decoded sample enters the ring at most once and in order, whatever the partial writes took;
      once a chunk is pushed to its end nothing decoded is missing; the listener gets a prefix. */
  lemma {:induction false} DecodedSamplesInOrder(run: seq<Stream>, steps: seq<Step>, i: nat)
    requires IsRun(run, steps) && i < |run|
    ensures run[i].ring.received <= run[i].ring.written <= run[i].decoded
    ensures run[i].offset == |run[i].chunk| ==> run[i].ring.written == run[i].decoded
  {
    InvHolds(run, steps, i);
  }

  /** How many of the steps from `i` on are of this kind. */
  function Times(steps: seq<Step>, step: Step, i: nat, j: nat): nat
    requires i <= j <= |steps|
    decreases j
  {
    if i == j then 0 else Times(steps, step, i, j - 1) + if steps[j - 1] == step then 1 else 0
  }

  /** The writes that may still be published when no test passes any more: the one under way, or the one
      whose test has passed already. */
  function WritesDue(s: Stream): nat {
    if s.ring.writer.Writing? || s.pass == MayWrite then 1 else 0
  }

  /** What a step can do once the stream is cancelled. */
  ghost predicate Winds(s: Stream, step: Step, t: Stream) {
    s.cancelled ==>
      && t.cancelled
      && WritesDue(s) == WritesDue(t) + (if step == FinishWrite then 1 else 0)
      && (t.ring.written == s.ring.written || step == FinishWrite)
      && (t.decoded == s.decoded || s.pass == MayDecode)
      && (t.pass == s.pass || t.pass == NotTested)
  }

  ghost predicate WindsDown(run: seq<Stream>, steps: seq<Step>) {
    |run| == |steps| + 1 && forall k :: 0 <= k < |steps| ==> Winds(run[k], steps[k], run[k + 1])
  }

  lemma StepWinds(s: Stream, step: Step)
    requires PassInv(s) && Enabled(s, step)
    ensures Winds(s, step, Next(s, step))
  {
  }

  lemma RunWindsDown(run: seq<Stream>, steps: seq<Step>)
    requires IsRun(run, steps)
    ensures WindsDown(run, steps)
  {
    forall k | 0 <= k < |steps| ensures Winds(run[k], steps[k], run[k + 1]) {
      InvHolds(run, steps, k);
      assert Follows(run[k], steps[k], run[k + 1]);
      StepWinds(run[k], steps[k]);
    }
  }

  lemma {:induction false} WritesCount(run: seq<Stream>, steps: seq<Step>, i: nat, j: nat)
    requires WindsDown(run, steps) && i <= j < |run| && run[i].cancelled
    ensures run[j].cancelled && Times(steps, FinishWrite, i, j) + WritesDue(run[j]) == WritesDue(run[i])
    decreases j
  {
    if i < j {
      WritesCount(run, steps, i, j - 1);
      assert Winds(run[j - 1], steps[j - 1], run[j]);
    }
  }

  /** After a cancel at most one write is published, and only if it was under way or its test of the
      stop flag had passed; nothing is published after it. */
  lemma AtMostOneWriteAfterCancel(run: seq<Stream>, steps: seq<Step>, i: nat, j: nat)
    requires IsRun(run, steps) && i <= j < |run| && run[i].cancelled
    ensures run[j].cancelled
    ensures Times(steps, FinishWrite, i, j) + WritesDue(run[j]) == WritesDue(run[i]) <= 1
  {
    RunWindsDown(run, steps);
    WritesCount(run, steps, i, j);
  }

  lemma {:induction false} NothingChanges(run: seq<Stream>, steps: seq<Step>, i: nat, j: nat)
    requires WindsDown(run, steps) && i <= j < |run| && run[i].cancelled && WritesDue(run[i]) == 0
    ensures run[j].cancelled && WritesDue(run[j]) == 0 && run[j].ring.written == run[i].ring.written
    ensures run[i].pass == NotTested ==> run[j].pass == NotTested && run[j].decoded == run[i].decoded
    decreases j
  {
    if i < j {
      NothingChanges(run, steps, i, j - 1);
      assert Winds(run[j - 1], steps[j - 1], run[j]);
    }
  }

  /** Once cancelled with no write due, nothing enters the ring any more; and if no decode was let
      through either, nothing more is decoded. */
  lemma NothingEntersAfterCancel(run: seq<Stream>, steps: seq<Step>, i: nat, j: nat)
    requires IsRun(run, steps) && i <= j < |run| && run[i].cancelled && WritesDue(run[i]) == 0
    ensures run[j].ring.written == run[i].ring.written && run[j].ring.writer == R.Resting
    ensures run[i].pass == NotTested ==> run[j].pass == NotTested && run[j].decoded == run[i].decoded
  {
    RunWindsDown(run, steps);
    NothingChanges(run, steps, i, j);
  }

  lemma Extend(run: seq<Stream>, steps: seq<Step>, step: Step) returns (run': seq<Stream>, steps': seq<Step>)
    requires IsRun(run, steps) && Enabled(run[|run| - 1], step)
    ensures IsRun(run', steps') && steps' == steps + [step] && run' == run + [Next(run[|run| - 1], step)]
  {
    run', steps' := run + [Next(run[|run| - 1], step)], steps + [step];
    forall i | 0 <= i < |steps'| ensures Follows(run'[i], steps'[i], run'[i + 1]) {
      assert i < |steps| ==> Follows(run[i], steps[i], run[i + 1]);
    }
  }

  /** One frame is decoded, and the test for writing it passes just before the cancel. */
  lemma CancelledAfterTest(ring: R.Ring, frame: seq<Sample>) returns (run: seq<Stream>, steps: seq<Step>)
    requires R.Initial(ring) && ring.cap >= 2 && |frame| == 2
    ensures IsRun(run, steps) && |steps| == 4
    ensures run[4] == Stream(ring, frame, frame, 0, MayWrite, true)
  {
    run, steps := [Stream(ring, [], [], 0, NotTested, false)], [];
    run, steps := Extend(run, steps, TestStop);
    run, steps := Extend(run, steps, Decode(frame));
    run, steps := Extend(run, steps, TestStop);
    run, steps := Extend(run, steps, Cancel);
    assert [] + frame == frame;
  }

  /** The bound is met: after this cancel, with nothing written yet, a whole frame still enters the ring. */
  lemma WriteAfterCancel(ring: R.Ring, frame: seq<Sample>) returns (run: seq<Stream>, steps: seq<Step>)
    requires R.Initial(ring) && ring.cap >= 2 && |frame| == 2
    ensures IsRun(run, steps) && |steps| == 8
    ensures run[4].cancelled && run[4].ring.writer == R.Resting && run[4].ring.written == []
    ensures run[8].ring.written == frame
  {
    run, steps := CancelledAfterTest(ring, frame);
    InvHolds(run, steps, 4);
    R.Takes(ring, frame, 0);
    assert frame[0..] == frame;
    run, steps := Extend(run, steps, StartWrite);
    run, steps := Extend(run, steps, CopyIn);
    run, steps := Extend(run, steps, CopyIn);
    run, steps := Extend(run, steps, FinishWrite);
    assert [] + frame[..2] == frame;
  }
}
