/** The two threads that read a backup: one reads frames and sends them through a bounded channel, the
    other receives and processes them (message-backup lib.rs, `read_all_frames`). Every interleaving of
    their steps is compared with processing the frames one after the other. */
module FramePipeline {
  import opened Wrappers

  const FRAMES_IN_FLIGHT: nat := 20

  /** How the frames end: with the end of the stream, or with an error of the reader. */
  datatype End = EndOfStream | ReadError

  datatype Failure<+E> = ReadFailure | FrameFailure(error: E) | HmacFailure

  /** A found unknown field, tagged with the index of its frame. */
  datatype Tagged<+U> = Tagged(frame: nat, field: U)

  datatype Processed<+S, +U> = Processed(backup: S, unknown: seq<Tagged<U>>)

  /** What is being read: the frames after the first, how they end, the state and unknown fields that the
      first frame gave, how a frame is processed, and whether the HMAC matches at the end. */
  datatype Job<!S, !F, !U, !E> = Job(
    frames: seq<F>, end: End, initial: S, infoUnknown: seq<Tagged<U>>,
    add: (S, F) -> Result<(S, seq<U>), E>, hmacMatches: bool)

  function TagAll<U>(us: seq<U>, index: nat): (r: seq<Tagged<U>>)
    ensures |r| == |us| && forall i :: 0 <= i < |us| ==> r[i] == Tagged(index, us[i])
  {
    seq(|us|, i requires 0 <= i < |us| => Tagged(index, us[i]))
  }

  // The sequential reading ---------------------------------------------------------------------

  /** Processing the first n frames in order; the j-th has index j + 1. */
  function Fold<S, F, U, E>(job: Job<S, F, U, E>, n: nat): Result<Processed<S, U>, E>
    requires n <= |job.frames|
  {
    if n == 0 then Ok(Processed(job.initial, []))
    else
      match Fold(job, n - 1)
      case Err(e) => Err(e)
      case Ok(p) =>
        match job.add(p.backup, job.frames[n - 1])
        case Err(e) => Err(e)
        case Ok((b, us)) => Ok(Processed(b, p.unknown + TagAll(us, n)))
  }

  datatype Outcome<+S, +U, +E> = Outcome(result: Result<S, Failure<E>>, unknown: seq<Tagged<U>>)

  /** Reading and processing in one loop: a failing frame ends it, then a read error, then the HMAC. */
  function Sequential<S, F, U, E>(job: Job<S, F, U, E>): Outcome<S, U, E> {
    match Fold(job, |job.frames|)
    case Err(e) => Outcome(Err(FrameFailure(e)), job.infoUnknown)
    case Ok(p) =>
      if job.end == ReadError then Outcome(Err(ReadFailure), job.infoUnknown)
      else Outcome(if job.hmacMatches then Ok(p.backup) else Err(HmacFailure), job.infoUnknown + p.unknown)
  }

  // The two threads ------------------------------------------------------------------------------

  datatype Reader<+S, +F, +U, +E> = Reading | Sending(frame: F) | Joining | Returned(outcome: Outcome<S, U, E>)

  datatype Processor<+S, +F, +U, +E> = Receiving | Processing(frame: F) | Ended(result: Result<Processed<S, U>, E>)

  datatype State<+S, +F, +U, +E> = State(
    read: nat, reader: Reader<S, F, U, E>,
    queue: seq<F>, senderDropped: bool, receiverDropped: bool,
    processor: Processor<S, F, U, E>, backup: S, frameIndex: nat, unknown: seq<Tagged<U>>)

  function Init<S, F, U, E>(job: Job<S, F, U, E>): State<S, F, U, E> {
    State(0, Reading, [], false, false, Receiving, job.initial, 1, [])
  }

  datatype Action = ReadNext | TrySend | Join | TryReceive | Process

  /** One step of one thread; `None` when the thread is not at that point. `TrySend` on a full channel
      and `TryReceive` on an empty one whose sender lives leave the state unchanged: the thread retries. */
  function Do<S, F, U, E>(job: Job<S, F, U, E>, a: Action, s: State<S, F, U, E>): Option<State<S, F, U, E>> {
    match a
    case ReadNext =>
      if !s.reader.Reading? then None
      else if s.read < |job.frames| then Some(s.(reader := Sending(job.frames[s.read]), read := s.read + 1))
      else if job.end == ReadError then
        Some(s.(reader := Returned(Outcome(Err(ReadFailure), job.infoUnknown)), senderDropped := true))
      else Some(s.(reader := Joining, senderDropped := true))
    case TrySend =>
      if !s.reader.Sending? then None
      else if s.receiverDropped then Some(s.(reader := Joining, senderDropped := true))
      else if |s.queue| >= FRAMES_IN_FLIGHT then Some(s)
      else Some(s.(reader := Reading, queue := s.queue + [s.reader.frame]))
    case Join =>
      if !s.reader.Joining? || !s.processor.Ended? then None
      else
        (match s.processor.result
         case Err(e) => Some(s.(reader := Returned(Outcome(Err(FrameFailure(e)), job.infoUnknown))))
         case Ok(p) => Some(s.(reader := Returned(
           Outcome(if job.hmacMatches then Ok(p.backup) else Err(HmacFailure), job.infoUnknown + p.unknown)))))
    case TryReceive =>
      if !s.processor.Receiving? then None
      else if s.queue != [] then Some(s.(processor := Processing(s.queue[0]), queue := s.queue[1..]))
      else if s.senderDropped then
        Some(s.(processor := Ended(Ok(Processed(s.backup, s.unknown))), receiverDropped := true))
      else Some(s)
    case Process =>
      if !s.processor.Processing? then None
      else
        match job.add(s.backup, s.processor.frame)
        case Err(e) => Some(s.(processor := Ended(Err(e)), receiverDropped := true, queue := []))
        case Ok((b, us)) =>
          Some(s.(processor := Receiving, backup := b,
                  unknown := s.unknown + TagAll(us, s.frameIndex), frameIndex := s.frameIndex + 1))
  }

  ghost predicate Next<S, F, U, E>(job: Job<S, F, U, E>, s: State<S, F, U, E>, s': State<S, F, U, E>) {
    exists a: Action :: Do(job, a, s) == Some(s')
  }

  /** An execution of any interleaving. */
  ghost predicate IsRun<S, F, U, E>(job: Job<S, F, U, E>, run: seq<State<S, F, U, E>>) {
    run != [] && run[0] == Init(job) && forall i :: 0 <= i < |run| - 1 ==> Next(job, run[i], run[i + 1])
  }

  // What every reachable state satisfies ------------------------------------------------------------

  function Held<S, F, U, E>(s: State<S, F, U, E>): seq<F> {
    if s.reader.Sending? then [s.reader.frame] else []
  }

  function InWork<S, F, U, E>(s: State<S, F, U, E>): seq<F> {
    if s.processor.Processing? then [s.processor.frame] else []
  }

  ghost predicate Inv<S, F, U, E>(job: Job<S, F, U, E>, s: State<S, F, U, E>) {
    var done := s.frameIndex - 1;
    && 0 <= done <= s.read <= |job.frames| && |s.queue| <= FRAMES_IN_FLIGHT
    && Fold(job, done) == Ok(Processed(s.backup, s.unknown))
    && (s.receiverDropped <==> s.processor.Ended?)
    && (s.senderDropped <==> s.reader.Joining? || s.reader.Returned?)
    && (!s.receiverDropped ==> job.frames[..s.read] == job.frames[..done] + InWork(s) + s.queue + Held(s))
    && (!s.receiverDropped && s.senderDropped ==> s.read == |job.frames|)
    && (s.processor.Ended? ==>
         match s.processor.result
         case Ok(p) => p == Processed(s.backup, s.unknown) && s.senderDropped && done == |job.frames|
         case Err(e) => done < |job.frames| && job.add(s.backup, job.frames[done]) == Err(e))
    && (s.reader.Joining? && job.end == ReadError ==> s.processor.Ended? && s.processor.result.Err?)
    && (s.reader.Returned? ==> ReturnedRight(job, s))
  }

  ghost predicate ReturnedRight<S, F, U, E>(job: Job<S, F, U, E>, s: State<S, F, U, E>)
    requires s.reader.Returned?
  {
    || (job.end == ReadError && s.reader.outcome == Outcome(Err(ReadFailure), job.infoUnknown))
    || (s.reader.outcome == Sequential(job) && (job.end == ReadError ==> Fold(job, |job.frames|).Err?))
  }

  lemma {:induction false} FoldFails<S, F, U, E>(job: Job<S, F, U, E>, i: nat, n: nat, e: E)
    requires i < n <= |job.frames| && Fold(job, i).Ok? && job.add(Fold(job, i).value.backup, job.frames[i]) == Err(e)
    ensures Fold(job, n) == Err(e)
    decreases n
  {
    if i < n - 1 {
      FoldFails(job, i, n - 1, e);
    }
  }

  lemma InitInv<S, F, U, E>(job: Job<S, F, U, E>)
    ensures Inv(job, Init(job))
  {
  }

  lemma ReadKeepsInv<S, F, U, E>(job: Job<S, F, U, E>, s: State<S, F, U, E>)
    requires Inv(job, s) && s.reader.Reading?
    ensures Inv(job, Do(job, ReadNext, s).value)
  {
    hide Fold;
    if s.read < |job.frames| {
      assert job.frames[..s.read + 1] == job.frames[..s.read] + [job.frames[s.read]];
    }
  }

  lemma SendKeepsInv<S, F, U, E>(job: Job<S, F, U, E>, s: State<S, F, U, E>)
    requires Inv(job, s) && s.reader.Sending?
    ensures Inv(job, Do(job, TrySend, s).value)
  {
    hide Fold;
    var done := job.frames[..s.frameIndex - 1];
    assert done + InWork(s) + s.queue + [s.reader.frame] == done + InWork(s) + (s.queue + [s.reader.frame]) + [];
  }

  lemma JoinKeepsInv<S, F, U, E>(job: Job<S, F, U, E>, s: State<S, F, U, E>)
    requires Inv(job, s) && s.reader.Joining? && s.processor.Ended?
    ensures Inv(job, Do(job, Join, s).value)
  {
    var done := s.frameIndex - 1;
    if s.processor.result.Err? {
      FoldFails(job, done, |job.frames|, s.processor.result.error);
    }
    hide Fold;
  }

  lemma ReceiveKeepsInv<S, F, U, E>(job: Job<S, F, U, E>, s: State<S, F, U, E>)
    requires Inv(job, s) && s.processor.Receiving?
    ensures Inv(job, Do(job, TryReceive, s).value)
  {
    hide Fold;
    var done := job.frames[..s.frameIndex - 1];
    if s.queue != [] {
      assert s.queue == [s.queue[0]] + s.queue[1..];
      assert done + [] + s.queue + Held(s) == done + [s.queue[0]] + s.queue[1..] + Held(s);
    } else {
      assert done + [] + [] + Held(s) == done + Held(s);
    }
  }

  lemma ProcessKeepsInv<S, F, U, E>(job: Job<S, F, U, E>, s: State<S, F, U, E>)
    requires Inv(job, s) && s.processor.Processing?
    ensures Inv(job, Do(job, Process, s).value)
  {
    var done := s.frameIndex - 1;
    var f := s.processor.frame;
    var all := job.frames[..s.read];
    assert all[done] == f;
    assert job.frames[..done + 1] == job.frames[..done] + [f];
    assert job.frames[..done] + [f] + s.queue + Held(s) == job.frames[..done + 1] + [] + s.queue + Held(s);
  }

  lemma NextKeepsInv<S, F, U, E>(job: Job<S, F, U, E>, s: State<S, F, U, E>, s': State<S, F, U, E>)
    requires Inv(job, s) && Next(job, s, s')
    ensures Inv(job, s')
  {
    var a: Action :| Do(job, a, s) == Some(s');
    match a
    case ReadNext => ReadKeepsInv(job, s);
    case TrySend => SendKeepsInv(job, s);
    case Join => JoinKeepsInv(job, s);
    case TryReceive => ReceiveKeepsInv(job, s);
    case Process => ProcessKeepsInv(job, s);
  }

  lemma {:induction false} RunInv<S, F, U, E>(job: Job<S, F, U, E>, run: seq<State<S, F, U, E>>, i: nat)
    requires IsRun(job, run) && i < |run|
    ensures Inv(job, run[i])
    decreases i
  {
    hide Inv, Next;
    if i == 0 {
      InitInv(job);
    } else {
      RunInv(job, run, i - 1);
      NextKeepsInv(job, run[i - 1], run[i]);
    }
  }

  // Main results ---------------------------------------------------------------------------------

  /** While the receiver lives, the frames processed, in work, queued and held are, in this order, the
      frames read so far. */
  lemma FramesInOrder<S, F, U, E>(job: Job<S, F, U, E>, run: seq<State<S, F, U, E>>, i: nat)
    requires IsRun(job, run) && i < |run| && !run[i].receiverDropped
    ensures 1 <= run[i].frameIndex <= |job.frames| + 1 && run[i].read <= |job.frames|
    ensures |run[i].queue| <= 20
    ensures job.frames[..run[i].read] ==
      job.frames[..run[i].frameIndex - 1] + InWork(run[i]) + run[i].queue + Held(run[i])
  {
    hide Fold;
    RunInv(job, run, i);
  }

  /** The pipeline refines the sequential reading: whatever the interleaving, what is returned is what
      the sequential reading returns; only a failure of the reader may be returned instead of an earlier
      frame's, and only when that frame is among the last ones (see `ReadErrorExactly`). */
  lemma RefinesSequential<S, F, U, E>(job: Job<S, F, U, E>, run: seq<State<S, F, U, E>>, i: nat)
    requires IsRun(job, run) && i < |run| && run[i].reader.Returned?
    ensures run[i].reader.outcome == Sequential(job)
      || (CanOvertake(job) && run[i].reader.outcome == Outcome(Err(ReadFailure), job.infoUnknown))
    ensures job.end == ReadError ==> run[i].reader.outcome.result.Err?
  {
    RunInv(job, run, i);
    ReadAhead(job, run, i);
    if run[i].reader.outcome == Outcome(Err(ReadFailure), job.infoUnknown) && Fold(job, |job.frames|).Err? {
      NotPastFailure(job, run[i].frameIndex - 1);
    }
    hide Fold;
  }

  // What is returned, spelled out -----------------------------------------------------------------------

  /** The fields of the j-th frame are those of `all` from at[j] on, tagged j + 1. */
  ghost predicate FrameTagged<U>(all: seq<Tagged<U>>, us: seq<seq<U>>, at: seq<nat>, j: nat)
    requires j < |us| && |at| == |us| + 1
  {
    && at[j + 1] == at[j] + |us[j]| <= |all|
    && forall k :: 0 <= k < |us[j]| ==> all[at[j] + k] == Tagged(j + 1, us[j][k])
  }

  /** `all` consists of the fields of the frames in order. */
  ghost predicate TaggedInOrder<U>(all: seq<Tagged<U>>, us: seq<seq<U>>, at: seq<nat>) {
    && |at| == |us| + 1 && at[0] == 0 && |all| == at[|us|]
    && forall j :: 0 <= j < |us| ==> FrameTagged(all, us, at, j)
  }

  lemma TaggedMore<U>(all: seq<Tagged<U>>, us: seq<seq<U>>, at: seq<nat>, u: seq<U>)
    requires TaggedInOrder(all, us, at)
    ensures TaggedInOrder(all + TagAll(u, |us| + 1), us + [u], at + [|all| + |u|])
  {
    hide FrameTagged;
    var all', us', at' := all + TagAll(u, |us| + 1), us + [u], at + [|all| + |u|];
    forall j | 0 <= j < |us'| ensures FrameTagged(all', us', at', j) {
      if j < |us| {
        FrameKept(all, us, at, u, j);
      } else {
        FrameAdded(all, us, at, u);
      }
    }
  }

  lemma FrameKept<U>(all: seq<Tagged<U>>, us: seq<seq<U>>, at: seq<nat>, u: seq<U>, j: nat)
    requires j < |us| && |at| == |us| + 1 && FrameTagged(all, us, at, j)
    ensures FrameTagged(all + TagAll(u, |us| + 1), us + [u], at + [|all| + |u|], j)
  {
    assert (us + [u])[j] == us[j];
  }

  lemma FrameAdded<U>(all: seq<Tagged<U>>, us: seq<seq<U>>, at: seq<nat>, u: seq<U>)
    requires |at| == |us| + 1 && |all| == at[|us|]
    ensures FrameTagged(all + TagAll(u, |us| + 1), us + [u], at + [|all| + |u|], |us|)
  {
    assert (us + [u])[|us|] == u;
  }

  /** The states and unknown fields of frames that are processed one after the other, and how many fields
      there are before each frame. */
  lemma {:induction false} Unfolded<S, F, U, E>(job: Job<S, F, U, E>, n: nat)
    returns (bs: seq<S>, us: seq<seq<U>>, at: seq<nat>)
    requires n <= |job.frames| && Fold(job, n).Ok?
    ensures |bs| == n + 1 && |us| == n && bs[0] == job.initial && Fold(job, n).value.backup == bs[n]
    ensures forall j :: 0 <= j < n ==> job.add(bs[j], job.frames[j]) == Ok((bs[j + 1], us[j]))
    ensures TaggedInOrder(Fold(job, n).value.unknown, us, at)
    decreases n
  {
    if n == 0 {
      bs, us, at := [job.initial], [], [0];
    } else {
      var p := Fold(job, n - 1).value;
      var bs0, us0, at0 := Unfolded(job, n - 1);
      var (b, u) := job.add(p.backup, job.frames[n - 1]).value;
      TaggedMore(p.unknown, us0, at0, u);
      hide TaggedInOrder;
      bs, us, at := bs0 + [b], us0 + [u], at0 + [|p.unknown| + |u|];
    }
  }

  /** A good backup is returned only if the stream ended, the HMAC matches, and all frames were processed one
      after the other from the initial state; the unknown fields are then those of the first frame, followed
      in order by exactly those of the frames, the j-th counted from 1 tagged with j. */
  lemma GoodBackup<S, F, U, E>(job: Job<S, F, U, E>, run: seq<State<S, F, U, E>>, i: nat)
    returns (bs: seq<S>, us: seq<seq<U>>, at: seq<nat>)
    requires IsRun(job, run) && i < |run| && run[i].reader.Returned? && run[i].reader.outcome.result.Ok?
    ensures job.hmacMatches && job.end == EndOfStream
    ensures |bs| == |job.frames| + 1 == |at| && |us| == |job.frames| && bs[0] == job.initial && at[0] == 0
    ensures forall j :: 0 <= j < |job.frames| ==> job.add(bs[j], job.frames[j]) == Ok((bs[j + 1], us[j]))
    ensures forall j :: 0 <= j < |job.frames| ==> at[j + 1] == at[j] + |us[j]|
    ensures run[i].reader.outcome.result.value == bs[|job.frames|]
    ensures var all, info := run[i].reader.outcome.unknown, |job.infoUnknown|;
      && |all| == info + at[|job.frames|] && all[..info] == job.infoUnknown
      && forall j, k :: 0 <= j < |job.frames| && 0 <= k < |us[j]| ==>
           at[j] + k < at[|job.frames|] && all[info + (at[j] + k)] == Tagged(j + 1, us[j][k])
  {
    RefinesSequential(job, run, i);
    bs, us, at := Unfolded(job, |job.frames|);
    hide Fold, FrameTagged;
    var all := Fold(job, |job.frames|).value.unknown;
    forall j | 0 <= j < |job.frames|
      ensures at[j + 1] == at[j] + |us[j]| <= |all|
      ensures forall k :: 0 <= k < |us[j]| ==> all[at[j] + k] == Tagged(j + 1, us[j][k])
    {
      FieldsOfFrame(all, us, at, j);
    }
  }

  lemma FieldsOfFrame<U>(all: seq<Tagged<U>>, us: seq<seq<U>>, at: seq<nat>, j: nat)
    requires j < |us| && TaggedInOrder(all, us, at)
    ensures at[j + 1] == at[j] + |us[j]| <= |all|
    ensures forall k :: 0 <= k < |us[j]| ==> all[at[j] + k] == Tagged(j + 1, us[j][k])
  {
    assert FrameTagged(all, us, at, j);
  }

  /** And it is returned whenever that is so. */
  lemma GoodBackupReturned<S, F, U, E>(job: Job<S, F, U, E>, run: seq<State<S, F, U, E>>, i: nat,
                                       bs: seq<S>, us: seq<seq<U>>)
    requires IsRun(job, run) && i < |run| && run[i].reader.Returned? && job.hmacMatches && job.end == EndOfStream
    requires |bs| == |job.frames| + 1 && |us| == |job.frames| && bs[0] == job.initial
    requires forall j :: 0 <= j < |job.frames| ==> job.add(bs[j], job.frames[j]) == Ok((bs[j + 1], us[j]))
    ensures run[i].reader.outcome.result == Ok(bs[|job.frames|])
  {
    RefinesSequential(job, run, i);
    Folded(job, bs, us, |job.frames|);
  }

  lemma {:induction false} Folded<S, F, U, E>(job: Job<S, F, U, E>, bs: seq<S>, us: seq<seq<U>>, n: nat)
    requires n <= |job.frames| && |bs| > n && |us| >= n && bs[0] == job.initial
    requires forall j :: 0 <= j < n ==> job.add(bs[j], job.frames[j]) == Ok((bs[j + 1], us[j]))
    ensures Fold(job, n).Ok? && Fold(job, n).value.backup == bs[n]
    decreases n
  {
    if n > 0 {
      Folded(job, bs, us, n - 1);
      assert job.add(bs[n - 1], job.frames[n - 1]) == Ok((bs[n], us[n - 1]));
    }
  }

  /** What a failure means: the HMAC does not match although all frames were processed to the end of the
      stream, the reader failed, or a frame failed after all before it were processed. */
  lemma FailureMeans<S, F, U, E>(job: Job<S, F, U, E>, run: seq<State<S, F, U, E>>, i: nat)
    returns (bs: seq<S>, us: seq<seq<U>>, n: nat)
    requires IsRun(job, run) && i < |run| && run[i].reader.Returned? && run[i].reader.outcome.result.Err?
    ensures n <= |job.frames| && |bs| == n + 1 && |us| == n && bs[0] == job.initial
    ensures forall j :: 0 <= j < n ==> job.add(bs[j], job.frames[j]) == Ok((bs[j + 1], us[j]))
    ensures match run[i].reader.outcome.result.error
            case HmacFailure => !job.hmacMatches && job.end == EndOfStream && n == |job.frames|
            case ReadFailure => job.end == ReadError
            case FrameFailure(e) => n < |job.frames| && job.add(bs[n], job.frames[n]) == Err(e)
  {
    RefinesSequential(job, run, i);
    var at;
    if Fold(job, |job.frames|).Ok? {
      n := |job.frames|;
      bs, us, at := Unfolded(job, n);
    } else {
      n := FirstFailing(job);
      FirstFailure(job);
      bs, us, at := Unfolded(job, n);
    }
    hide Fold;
  }

  // When a read error overtakes a frame's failure ---------------------------------------------------

  /** The first frame that fails. */
  ghost function FirstFailing<S, F, U, E>(job: Job<S, F, U, E>): (f: nat)
    requires Fold(job, |job.frames|).Err?
    ensures f < |job.frames| && Fold(job, f).Ok? && Fold(job, f + 1).Err?
  {
    FailingBefore(job, |job.frames|)
  }

  ghost function FailingBefore<S, F, U, E>(job: Job<S, F, U, E>, n: nat): (f: nat)
    requires n <= |job.frames| && Fold(job, n).Err?
    ensures f < n && Fold(job, f).Ok? && Fold(job, f + 1).Err?
  {
    if Fold(job, n - 1).Err? then FailingBefore(job, n - 1) else n - 1
  }

  /** The frames end in a read error, and at most as many of them as fit into the channel follow the
      first one that fails. */
  ghost predicate CanOvertake<S, F, U, E>(job: Job<S, F, U, E>) {
    && job.end == ReadError
    && (Fold(job, |job.frames|).Ok? || |job.frames| <= FirstFailing(job) + 1 + FRAMES_IN_FLIGHT)
  }

  lemma {:induction false} FoldOkBefore<S, F, U, E>(job: Job<S, F, U, E>, i: nat, n: nat)
    requires i <= n <= |job.frames| && Fold(job, n).Ok?
    ensures Fold(job, i).Ok?
    decreases n
  {
    if i < n {
      FoldOkBefore(job, i, n - 1);
    }
  }

  /** Frames are processed in order, so none after the first failing one is. */
  lemma NotPastFailure<S, F, U, E>(job: Job<S, F, U, E>, done: nat)
    requires done <= |job.frames| && Fold(job, done).Ok? && Fold(job, |job.frames|).Err?
    ensures done <= FirstFailing(job)
  {
    if FirstFailing(job) < done {
      FoldOkBefore(job, FirstFailing(job) + 1, done);
    }
  }

  /** The reader is ahead by at most one frame in work and a full channel. */
  ghost predicate Ahead<S, F, U, E>(job: Job<S, F, U, E>, s: State<S, F, U, E>) {
    && (s.reader.Reading? ==> s.read <= s.frameIndex + FRAMES_IN_FLIGHT)
    && (s.reader.Returned? && s.reader.outcome.result == Err(ReadFailure) ==>
         |job.frames| <= s.frameIndex + FRAMES_IN_FLIGHT)
  }

  lemma ReceiverLives<S, F, U, E>(job: Job<S, F, U, E>, s: State<S, F, U, E>)
    requires Inv(job, s) && !s.receiverDropped
    ensures s.read == s.frameIndex - 1 + |InWork(s)| + |s.queue| + |Held(s)|
  {
    hide Fold;
    assert |job.frames[..s.read]| == |job.frames[..s.frameIndex - 1] + InWork(s) + s.queue + Held(s)|;
  }

  lemma NextKeepsAhead<S, F, U, E>(job: Job<S, F, U, E>, s: State<S, F, U, E>, s': State<S, F, U, E>)
    requires Inv(job, s) && Inv(job, s') && Ahead(job, s) && Next(job, s, s')
    ensures Ahead(job, s')
  {
    hide Fold;
    if !s'.receiverDropped {
      ReceiverLives(job, s');
    }
  }

  lemma {:induction false} ReadAhead<S, F, U, E>(job: Job<S, F, U, E>, run: seq<State<S, F, U, E>>, i: nat)
    requires IsRun(job, run) && i < |run|
    ensures Ahead(job, run[i])
    decreases i
  {
    hide Inv, Next;
    if i > 0 {
      ReadAhead(job, run, i - 1);
      RunInv(job, run, i - 1);
      RunInv(job, run, i);
      NextKeepsAhead(job, run[i - 1], run[i]);
    }
  }

  // The runs in which it does

  lemma Extended<S, F, U, E>(job: Job<S, F, U, E>, run: seq<State<S, F, U, E>>, a: Action)
    returns (longer: seq<State<S, F, U, E>>)
    requires IsRun(job, run) && Do(job, a, run[|run| - 1]).Some?
    ensures IsRun(job, longer) && longer[|longer| - 1] == Do(job, a, run[|run| - 1]).value
  {
    hide Do;
    var s' := Do(job, a, run[|run| - 1]).value;
    longer := run + [s'];
    assert Next(job, run[|run| - 1], s');
    forall i | 0 <= i < |longer| - 1 ensures Next(job, longer[i], longer[i + 1]) {
      assert longer[i] == run[i];
    }
  }

  /** All threads idle after the first i frames. */
  ghost function Idle<S, F, U, E>(job: Job<S, F, U, E>, i: nat): State<S, F, U, E>
    requires i <= |job.frames| && Fold(job, i).Ok?
  {
    State(i, Reading, [], false, false, Receiving, Fold(job, i).value.backup, i + 1, Fold(job, i).value.unknown)
  }

  /** The threads take turns. */
  lemma {:induction false} TakeTurns<S, F, U, E>(job: Job<S, F, U, E>, i: nat) returns (run: seq<State<S, F, U, E>>)
    requires i <= |job.frames| && Fold(job, i).Ok?
    ensures IsRun(job, run) && run[|run| - 1] == Idle(job, i)
    decreases i
  {
    if i == 0 {
      run := [Init(job)];
    } else {
      FoldOkBefore(job, i - 1, i);
      run := TakeTurns(job, i - 1);
      hide IsRun;
      run := Extended(job, run, ReadNext);
      run := Extended(job, run, TrySend);
      run := Extended(job, run, TryReceive);
      run := Extended(job, run, Process);
    }
  }

  /** Frame f is in work, and m frames after it are in the channel. */
  ghost function Filling<S, F, U, E>(job: Job<S, F, U, E>, f: nat, m: nat): State<S, F, U, E>
    requires f + 1 + m <= |job.frames| && Fold(job, f).Ok?
  {
    Idle(job, f).(read := f + 1 + m, queue := job.frames[f + 1..f + 1 + m], processor := Processing(job.frames[f]))
  }

  lemma {:induction false} FillChannel<S, F, U, E>(job: Job<S, F, U, E>, f: nat, m: nat)
    returns (run: seq<State<S, F, U, E>>)
    requires f + 1 + m <= |job.frames| && Fold(job, f).Ok? && m <= FRAMES_IN_FLIGHT
    ensures IsRun(job, run) && run[|run| - 1] == Filling(job, f, m)
    decreases m
  {
    if m == 0 {
      run := TakeTurns(job, f);
      hide Fold, IsRun;
      run := Extended(job, run, ReadNext);
      run := Extended(job, run, TrySend);
      run := Extended(job, run, TryReceive);
    } else {
      run := FillChannel(job, f, m - 1);
      hide Fold, IsRun;
      run := Extended(job, run, ReadNext);
      run := Extended(job, run, TrySend);
      assert job.frames[f + 1..f + 1 + m] == job.frames[f + 1..f + m] + [job.frames[f + m]];
    }
  }

  ghost predicate EndsInReadError<S, F, U, E>(job: Job<S, F, U, E>, run: seq<State<S, F, U, E>>) {
    IsRun(job, run) && run[|run| - 1].reader == Returned(Outcome(Err(ReadFailure), job.infoUnknown))
  }

  /** Whenever a read error can overtake the first failing frame, some run lets it. */
  lemma ReadErrorMayWin<S, F, U, E>(job: Job<S, F, U, E>) returns (run: seq<State<S, F, U, E>>)
    requires CanOvertake(job)
    ensures EndsInReadError(job, run)
  {
    if Fold(job, |job.frames|).Ok? {
      run := TakeTurns(job, |job.frames|);
    } else {
      var f := FirstFailing(job);
      run := FillChannel(job, f, |job.frames| - f - 1);
    }
    hide Fold, IsRun;
    run := Extended(job, run, ReadNext);
  }

  /** Exactly when a read error is what some run returns: when there is one, and at most 20 frames stand
      between the first failing frame and it. All other jobs always report the failing frame. */
  lemma ReadErrorExactly<S(!new), F(!new), U(!new), E(!new)>(job: Job<S, F, U, E>)
    ensures (exists run: seq<State<S, F, U, E>> :: EndsInReadError(job, run)) <==> CanOvertake(job)
    ensures CanOvertake(job) <==>
      job.end == ReadError && (Fold(job, |job.frames|).Ok? || |job.frames| - (FirstFailing(job) + 1) <= 20)
  {
    if CanOvertake(job) {
      var run := ReadErrorMayWin(job);
    }
    forall run: seq<State<S, F, U, E>> | EndsInReadError(job, run) ensures CanOvertake(job) {
      var i := |run| - 1;
      RunInv(job, run, i);
      ReadAhead(job, run, i);
      if Fold(job, |job.frames|).Err? {
        NotPastFailure(job, run[i].frameIndex - 1);
      }
    }
  }

  /** A failure other than of the reader or the HMAC is the first failing frame's. */
  lemma FirstFailure<S, F, U, E>(job: Job<S, F, U, E>)
    requires Fold(job, |job.frames|).Err?
    ensures var f := FirstFailing(job);
      job.add(Fold(job, f).value.backup, job.frames[f]) == Err(Fold(job, |job.frames|).error)
  {
    var f := FirstFailing(job);
    FoldFails(job, f, |job.frames|, job.add(Fold(job, f).value.backup, job.frames[f]).error);
  }

  /** No reachable state is stuck: until the reader returns, some thread can take a step that is not a
      retry. */
  lemma NeverStuck<S, F, U, E>(job: Job<S, F, U, E>, run: seq<State<S, F, U, E>>, i: nat) returns (a: Action)
    requires IsRun(job, run) && i < |run| && !run[i].reader.Returned?
    ensures Do(job, a, run[i]).Some? && Do(job, a, run[i]).value != run[i]
  {
    RunInv(job, run, i);
    hide Fold;
    var s := run[i];
    if s.processor.Processing? {
      a := Process;
    } else if s.processor.Receiving? && s.queue != [] {
      a := TryReceive;
      assert |s.queue[1..]| < |s.queue|;
    } else if s.reader.Reading? {
      a := ReadNext;
    } else if s.reader.Sending? {
      a := TrySend;
    } else if s.processor.Ended? {
      a := Join;
    } else {
      a := TryReceive;
    }
  }

  /** Steps left: every frame goes through four stages, and both threads have to finish. */
  function Remaining<S, F, U, E>(job: Job<S, F, U, E>, s: State<S, F, U, E>): int {
    4 * (|job.frames| - s.read) + 3 * |Held(s)| + 2 * |s.queue| + |InWork(s)|
      + (match s.reader case Reading => 2 case Sending(_) => 2 case Joining => 1 case Returned(_) => 0)
      + (if s.processor.Ended? then 0 else 1)
  }

  /** Every step that is not a retry brings the end nearer, so a run has finitely many of them. */
  lemma StepsDecrease<S, F, U, E>(job: Job<S, F, U, E>, s: State<S, F, U, E>, a: Action)
    requires Inv(job, s) && Do(job, a, s).Some? && Do(job, a, s).value != s
    ensures 0 <= Remaining(job, Do(job, a, s).value) < Remaining(job, s)
  {
    hide Fold;
  }
}
