/**
 * The controller's main loop: at each cycle it computes the index of the frame
 * now due from the clock, clears the frame buffer, takes the next frame from
 * the instrument (leaving the loop when the stream has ended), decodes it into
 * the buffer, dispatches the buffer and warns when frame indices were skipped.
 *
 * The clock is an input: `clock(k)` is the millisecond reading taken at the
 * start of cycle k. Waiting until the due time and the delivery to the sinks
 * are not modelled; a dispatched buffer is recorded as a `Cycle`.
 */
module Scheduler {
  import opened Common
  import opened Framing
  import opened Pacing
  import opened FrameBuffer
  import opened Outputs

  /** A warning that the frames after `previous` and before `current` were skipped. */
  datatype Skip = Skip(previous: int, current: int)

  /** One dispatched frame: its index and the contents of the frame buffer. */
  datatype Cycle = Cycle(index: int, pixels: seq<Rgb>)

  /** The skip check made after each dispatch, given the index dispatched
      last (if any) and the current one. */
  function SkipCheck(last: Option<int>, current: int): Option<Skip>
  {
    if last.Some? && last.value != current - 1 then Some(Skip(last.value, current)) else None
  }

  /** The index of the frame chosen at cycle k, from that cycle's clock reading. */
  function IndexAt(start: int, fps: nat, clock: nat -> int, k: nat): int
    requires fps > 0
  {
    FrameIndex(clock(k) - start, fps)
  }

  /** The warnings issued over the first `n` cycles of a run, in order: the
      skip check of each cycle against the one before it. */
  function Warnings(start: int, fps: nat, clock: nat -> int, n: nat): seq<Skip>
    requires fps > 0
  {
    if n <= 1 then []
    else
      Warnings(start, fps, clock, n - 1)
      + match SkipCheck(Some(IndexAt(start, fps, clock, n - 2)), IndexAt(start, fps, clock, n - 1))
        case Some(skip) => [skip]
        case None => []
  }

  /** Cycle `k` stalled: its index is not the successor of the previous cycle's. */
  predicate Stalled(start: int, fps: nat, clock: nat -> int, k: nat)
    requires fps > 0 && k > 0
  {
    IndexAt(start, fps, clock, k) != IndexAt(start, fps, clock, k - 1) + 1
  }

  /** The warning a stall at cycle `k` calls for: from the previous cycle's
      index to this cycle's. */
  function StallWarning(start: int, fps: nat, clock: nat -> int, k: nat): Skip
    requires fps > 0 && k > 0
  {
    Skip(IndexAt(start, fps, clock, k - 1), IndexAt(start, fps, clock, k))
  }

  /** `ks` lists, in increasing order, every stalled cycle among the first
      `n`, and the i-th warning is the one for the stall at `ks[i]`. */
  ghost predicate WarnedAt(start: int, fps: nat, clock: nat -> int, n: nat, ks: seq<nat>)
    requires fps > 0
  {
    var warnings := Warnings(start, fps, clock, n);
    |ks| == |warnings| &&
    (forall i :: 0 <= i < |ks| ==>
       0 < ks[i] < n && Stalled(start, fps, clock, ks[i]) &&
       warnings[i] == StallWarning(start, fps, clock, ks[i])) &&
    (forall i, j :: 0 <= i < j < |ks| ==> ks[i] < ks[j]) &&
    (forall k :: 0 < k < n && Stalled(start, fps, clock, k) ==> k in ks)
  }

  /** One more cycle extends the list of stalls by that cycle when it stalled. */
  lemma WarnedAtStep(start: int, fps: nat, clock: nat -> int, n: nat, ks: seq<nat>)
    requires fps > 0 && n > 1 && WarnedAt(start, fps, clock, n - 1, ks)
    ensures WarnedAt(start, fps, clock, n,
                     if Stalled(start, fps, clock, n - 1) then ks + [n - 1] else ks)
  {
    if Stalled(start, fps, clock, n - 1) {
      WarnedAtStall(start, fps, clock, n, ks);
    } else {
      assert Warnings(start, fps, clock, n) == Warnings(start, fps, clock, n - 1);
    }
  }

  /** The stalling case of `WarnedAtStep`. */
  lemma WarnedAtStall(start: int, fps: nat, clock: nat -> int, n: nat, ks: seq<nat>)
    requires fps > 0 && n > 1 && WarnedAt(start, fps, clock, n - 1, ks)
    requires Stalled(start, fps, clock, n - 1)
    ensures WarnedAt(start, fps, clock, n, ks + [n - 1])
  {
    var before := Warnings(start, fps, clock, n - 1);
    var after := Warnings(start, fps, clock, n);
    var ks' := ks + [n - 1];
    assert after == before + [StallWarning(start, fps, clock, n - 1)];
    forall i | 0 <= i < |ks'|
      ensures 0 < ks'[i] < n && Stalled(start, fps, clock, ks'[i])
      ensures after[i] == StallWarning(start, fps, clock, ks'[i])
    {
      if i < |ks| {
        assert ks'[i] == ks[i] && after[i] == before[i];
      }
    }
    forall k | 0 < k < n && Stalled(start, fps, clock, k)
      ensures k in ks'
    {
      if k < n - 1 {
        assert k in ks;
      }
    }
  }

  /** Over the first `n` cycles, each stall issues exactly one warning, naming
      the previous and the current index, in the order the stalls happen; no
      other warning is issued. */
  lemma {:induction false} WarningsAreStalls(start: int, fps: nat, clock: nat -> int, n: nat)
    requires fps > 0
    ensures exists ks :: WarnedAt(start, fps, clock, n, ks)
  {
    if n <= 1 {
      assert WarnedAt(start, fps, clock, n, []);
    } else {
      WarningsAreStalls(start, fps, clock, n - 1);
      var ks :| WarnedAt(start, fps, clock, n - 1, ks);
      WarnedAtStep(start, fps, clock, n, ks);
    }
  }

  /** Every stall among the first `n` cycles issues its warning. */
  lemma StallsWarned(start: int, fps: nat, clock: nat -> int, n: nat)
    requires fps > 0
    ensures forall k :: 0 < k < n && Stalled(start, fps, clock, k) ==>
      StallWarning(start, fps, clock, k) in Warnings(start, fps, clock, n)
  {
    WarningsAreStalls(start, fps, clock, n);
    var ks :| WarnedAt(start, fps, clock, n, ks);
    forall k | 0 < k < n && Stalled(start, fps, clock, k)
      ensures StallWarning(start, fps, clock, k) in Warnings(start, fps, clock, n)
    {
      var i :| 0 <= i < |ks| && ks[i] == k;
      assert Warnings(start, fps, clock, n)[i] == StallWarning(start, fps, clock, k);
    }
  }

  /** Every warning issued over the first `n` cycles is the warning of a stall
      among them. */
  lemma WarningsOnlyStalls(start: int, fps: nat, clock: nat -> int, n: nat)
    requires fps > 0
    ensures forall w :: w in Warnings(start, fps, clock, n) ==>
      exists k :: 0 < k < n && Stalled(start, fps, clock, k) && w == StallWarning(start, fps, clock, k)
  {
    WarningsAreStalls(start, fps, clock, n);
    var ks :| WarnedAt(start, fps, clock, n, ks);
    var warnings := Warnings(start, fps, clock, n);
    forall w | w in warnings
      ensures exists k :: 0 < k < n && Stalled(start, fps, clock, k) && w == StallWarning(start, fps, clock, k)
    {
      var i :| 0 <= i < |warnings| && warnings[i] == w;
      var k := ks[i];
      assert 0 < k < n && Stalled(start, fps, clock, k) && w == StallWarning(start, fps, clock, k);
    }
  }

  /** A warning is issued over the first `n` cycles exactly when some cycle
      among them stalled, and it is that stall's warning. */
  lemma WarningsIff(start: int, fps: nat, clock: nat -> int, n: nat)
    requires fps > 0
    ensures forall w :: w in Warnings(start, fps, clock, n) <==>
      exists k :: 0 < k < n && Stalled(start, fps, clock, k) && w == StallWarning(start, fps, clock, k)
  {
    StallsWarned(start, fps, clock, n);
    WarningsOnlyStalls(start, fps, clock, n);
  }

  /** Cycles that do not stall add no warning. */
  lemma {:induction false} WarningsWithoutStall(start: int, fps: nat, clock: nat -> int, m: nat, n: nat)
    requires fps > 0 && 0 < m <= n
    requires forall k :: m <= k < n ==> !Stalled(start, fps, clock, k)
    ensures Warnings(start, fps, clock, n) == Warnings(start, fps, clock, m)
  {
    if m < n {
      WarningsWithoutStall(start, fps, clock, m, n - 1);
      assert !Stalled(start, fps, clock, n - 1);
    }
  }

  /** A single stall among the first `n` cycles gives exactly one warning,
      naming the index before the stall and the index after it. */
  lemma SingleStallOneWarning(start: int, fps: nat, clock: nat -> int, n: nat, stall: nat)
    requires fps > 0 && 0 < stall < n && Stalled(start, fps, clock, stall)
    requires forall k :: 0 < k < n && k != stall ==> !Stalled(start, fps, clock, k)
    ensures Warnings(start, fps, clock, n) == [StallWarning(start, fps, clock, stall)]
  {
    WarningsWithoutStall(start, fps, clock, 1, stall);
    assert Warnings(start, fps, clock, stall + 1) == [StallWarning(start, fps, clock, stall)];
    WarningsWithoutStall(start, fps, clock, stall + 1, n);
  }

  /** When the cycle at `start + e2` follows the one at `start + e1`, no warning
      is issued exactly when `start + e2` falls within one period of the due
      time of the earlier frame. */
  lemma SkipIffLate(start: int, e1: int, e2: int, fps: nat)
    requires fps > 0
    ensures var due := ScaledDueTime(start, FrameIndex(e1, fps), fps);
      SkipCheck(Some(FrameIndex(e1, fps)), FrameIndex(e2, fps)).None?
      <==> due <= (start + e2) * fps < due + 1000
  {
    NextFrameIndex(start, e1, e2, fps);
  }

  /** The first `n` cycles issue no warning exactly when each cycle's index is
      the successor of the one before it. */
  lemma {:induction false} NoWarningsIffConsecutive(start: int, fps: nat, clock: nat -> int, n: nat)
    requires fps > 0
    ensures Warnings(start, fps, clock, n) == []
      <==> forall k :: 0 < k < n ==> IndexAt(start, fps, clock, k) == IndexAt(start, fps, clock, k - 1) + 1
  {
    if n > 1 {
      NoWarningsIffConsecutive(start, fps, clock, n - 1);
    }
  }

  /** The first `n` cycles a run dispatches: cycle k carries the index
      computed from the clock reading of cycle k, and the k-th frame decoded. */
  function Dispatches(frames: seq<Frame>, pixelCount: nat, fps: nat, start: int,
                      clock: nat -> int, n: nat): (cycles: seq<Cycle>)
    requires fps > 0 && n <= |frames|
    requires forall k :: 0 <= k < |frames| ==> |frames[k]| == FrameSize(pixelCount)
    ensures |cycles| == n
  {
    if n == 0 then []
    else
      Dispatches(frames, pixelCount, fps, start, clock, n - 1)
      + [Cycle(IndexAt(start, fps, clock, n - 1), Decoded(frames[n - 1], pixelCount))]
  }

  /** Cycle k of a run is frame k of the stream, decoded, under the index the
      clock gave at cycle k. */
  lemma {:induction false} DispatchesAt(frames: seq<Frame>, pixelCount: nat, fps: nat, start: int,
                                        clock: nat -> int, n: nat, k: nat)
    requires fps > 0 && k < n <= |frames|
    requires forall k :: 0 <= k < |frames| ==> |frames[k]| == FrameSize(pixelCount)
    ensures Dispatches(frames, pixelCount, fps, start, clock, n)[k]
      == Cycle(IndexAt(start, fps, clock, k), Decoded(frames[k], pixelCount))
  {
    if k < n - 1 {
      DispatchesAt(frames, pixelCount, fps, start, clock, n - 1, k);
    }
  }

  /** Dispatching fewer cycles, from a prefix of the frames, gives a prefix of
      the cycles: a frame's cycle never depends on frames after it. */
  lemma {:induction false} DispatchesPrefix(frames: seq<Frame>, more: seq<Frame>, pixelCount: nat, fps: nat,
                                            start: int, clock: nat -> int, m: nat, n: nat)
    requires fps > 0 && frames <= more && m <= n && m <= |frames| && n <= |more|
    requires forall k :: 0 <= k < |frames| ==> |frames[k]| == FrameSize(pixelCount)
    requires forall k :: 0 <= k < |more| ==> |more[k]| == FrameSize(pixelCount)
    ensures Dispatches(frames, pixelCount, fps, start, clock, m)
      <= Dispatches(more, pixelCount, fps, start, clock, n)
  {
    if m < n {
      DispatchesPrefix(frames, more, pixelCount, fps, start, clock, m, n - 1);
    } else if m > 0 {
      DispatchesPrefix(frames, more, pixelCount, fps, start, clock, m - 1, n - 1);
      assert frames[m - 1] == more[m - 1];
    }
  }

  /** The warnings over fewer cycles are a prefix of the warnings over more. */
  lemma {:induction false} WarningsPrefix(start: int, fps: nat, clock: nat -> int, m: nat, n: nat)
    requires fps > 0 && m <= n
    ensures Warnings(start, fps, clock, m) <= Warnings(start, fps, clock, n)
  {
    if m < n {
      WarningsPrefix(start, fps, clock, m, n - 1);
    }
  }

  /** What a run over `stream` dispatches and warns about: one cycle per
      complete frame of the stream, in order (see `Dispatches`), and the
      warnings the skip check issues over those cycles. */
  ghost predicate RunOutcome(pixelCount: nat, fps: nat, stream: seq<seq<byte>>, start: int,
                             clock: nat -> int, cycles: seq<Cycle>, warnings: seq<Skip>)
    requires fps > 0
  {
    var frames := Frames(Concat(stream), FrameSize(pixelCount));
    cycles == Dispatches(frames, pixelCount, fps, start, clock, |frames|) &&
    warnings == Warnings(start, fps, clock, |frames|)
  }

  /** An instrument that never stops is seen through the finite prefixes of
      its output: the run over the first `i` chunks dispatches and warns about
      a prefix of what the run over more chunks does. */
  lemma RunPrefix(pixelCount: nat, fps: nat, stream: seq<seq<byte>>, i: nat, start: int, clock: nat -> int,
                  cycles: seq<Cycle>, warnings: seq<Skip>, moreCycles: seq<Cycle>, moreWarnings: seq<Skip>)
    requires fps > 0 && i <= |stream|
    requires RunOutcome(pixelCount, fps, stream[..i], start, clock, cycles, warnings)
    requires RunOutcome(pixelCount, fps, stream, start, clock, moreCycles, moreWarnings)
    ensures cycles <= moreCycles && warnings <= moreWarnings
  {
    var size := FrameSize(pixelCount);
    var frames := Frames(Concat(stream[..i]), size);
    var more := Frames(Concat(stream), size);
    FramesPrefix(stream, i, size);
    DispatchesPrefix(frames, more, pixelCount, fps, start, clock, |frames|, |more|);
    WarningsPrefix(start, fps, clock, |frames|, |more|);
  }

  /** With a clock that never goes backwards, the dispatched indexes never
      decrease, and every one is at least 1 once the clock has reached the start. */
  lemma IndexesMonotone(pixelCount: nat, fps: nat, stream: seq<seq<byte>>, start: int,
                        clock: nat -> int, cycles: seq<Cycle>, warnings: seq<Skip>)
    requires fps > 0
    requires RunOutcome(pixelCount, fps, stream, start, clock, cycles, warnings)
    requires forall i: nat, j: nat :: i <= j ==> clock(i) <= clock(j)
    requires start <= clock(0)
    ensures forall i, j :: 0 <= i <= j < |cycles| ==> 1 <= cycles[i].index <= cycles[j].index
  {
    var frames := Frames(Concat(stream), FrameSize(pixelCount));
    forall i, j | 0 <= i <= j < |cycles|
      ensures 1 <= cycles[i].index <= cycles[j].index
    {
      DispatchesAt(frames, pixelCount, fps, start, clock, |frames|, i);
      DispatchesAt(frames, pixelCount, fps, start, clock, |frames|, j);
      FrameIndexMonotone(clock(i) - start, clock(j) - start, fps);
    }
  }

  /** One cycle's frame-buffer handling: clear the buffer to black, take the
      next frame from the instrument and decode it into the buffer. `None`
      means the stream has ended; the buffer is then left black. */
  method NextFrameBuffer(instrument: Instrument, frameBuffer: array<Rgb>)
    returns (pixels: Option<seq<Rgb>>)
    requires instrument.Valid() && instrument.frameSize == FrameSize(frameBuffer.Length)
    modifies instrument, frameBuffer
    ensures instrument.Valid()
    ensures var k := |old(instrument.yielded)|;
      if k < |instrument.AllFrames()| then
        pixels == Some(frameBuffer[..]) && !instrument.done &&
        frameBuffer[..] == Decoded(instrument.AllFrames()[k], frameBuffer.Length) &&
        |instrument.yielded| == k + 1
      else
        pixels == None && instrument.done &&
        forall i :: 0 <= i < frameBuffer.Length ==> frameBuffer[i] == Black
  {
    ResetToBlack(frameBuffer);
    var frameData := instrument.GetFrame();
    if frameData.None? {
      return None;
    }
    DecodeInto(frameData.value, frameBuffer);
    pixels := Some(frameBuffer[..]);
  }

  /** Cycle `k` up to its dispatch: the index of the frame due, from the
      clock, and the frame buffer holding the next frame of the stream. `None`
      means the stream has ended. */
  method NextCycle(instrument: Instrument, frameBuffer: array<Rgb>, fps: nat, start: int,
                   clock: nat -> int, k: nat) returns (cycle: Option<Cycle>)
    requires fps > 0 && instrument.Valid() && !instrument.done && |instrument.yielded| == k
    requires instrument.frameSize == FrameSize(frameBuffer.Length)
    modifies instrument, frameBuffer
    ensures instrument.Valid()
    ensures if k < |instrument.AllFrames()| then
        cycle == Some(Cycle(IndexAt(start, fps, clock, k),
                            Decoded(instrument.AllFrames()[k], frameBuffer.Length))) &&
        !instrument.done && |instrument.yielded| == k + 1
      else
        cycle == None
  {
    var msSinceStart := clock(k) - start;
    var frameIndex := FrameIndex(msSinceStart, fps);
    var pixels := NextFrameBuffer(instrument, frameBuffer);
    if pixels.None? {
      return None;
    }
    cycle := Some(Cycle(frameIndex, pixels.value));
  }

  /** What the main loop has recorded after its first `|cycles|` cycles: those
      cycles, the warnings they issued, and the index of the last one. */
  ghost predicate Recorded(frames: seq<Frame>, pixelCount: nat, fps: nat, start: int, clock: nat -> int,
                           cycles: seq<Cycle>, warnings: seq<Skip>, last: Option<int>)
    requires fps > 0
    requires forall k :: 0 <= k < |frames| ==> |frames[k]| == FrameSize(pixelCount)
  {
    |cycles| <= |frames| &&
    cycles == Dispatches(frames, pixelCount, fps, start, clock, |cycles|) &&
    warnings == Warnings(start, fps, clock, |cycles|) &&
    last == if |cycles| == 0 then None else Some(IndexAt(start, fps, clock, |cycles| - 1))
  }

  /** Dispatching the next frame under the index the clock gives, then making
      the skip check against the last index, records one more cycle. */
  lemma RecordedStep(frames: seq<Frame>, pixelCount: nat, fps: nat, start: int, clock: nat -> int,
                     cycles: seq<Cycle>, warnings: seq<Skip>, last: Option<int>)
    requires fps > 0
    requires forall k :: 0 <= k < |frames| ==> |frames[k]| == FrameSize(pixelCount)
    requires Recorded(frames, pixelCount, fps, start, clock, cycles, warnings, last)
    requires |cycles| < |frames|
    ensures var n := |cycles|;
      var cycle := Cycle(IndexAt(start, fps, clock, n), Decoded(frames[n], pixelCount));
      var skip := SkipCheck(last, cycle.index);
      Recorded(frames, pixelCount, fps, start, clock, cycles + [cycle],
               warnings + (if skip.Some? then [skip.value] else []), Some(cycle.index))
  {
  }

  /** The main loop, from the first cycle until the instrument's stream ends. */
  method Run(pixelCount: nat, fps: nat, stream: seq<seq<byte>>, start: int, clock: nat -> int)
    returns (cycles: seq<Cycle>, warnings: seq<Skip>)
    requires fps > 0
    ensures RunOutcome(pixelCount, fps, stream, start, clock, cycles, warnings)
  {
    var instrument := new Instrument(pixelCount, stream);
    var frameBuffer := new Rgb[pixelCount];
    ghost var frames := instrument.AllFrames();
    var lastFrameIndex: Option<int> := None;
    cycles, warnings := [], [];
    while true
      invariant instrument.Valid() && !instrument.done && |instrument.yielded| == |cycles|
      invariant Recorded(frames, pixelCount, fps, start, clock, cycles, warnings, lastFrameIndex)
      decreases |frames| - |cycles|
    {
      var next := NextCycle(instrument, frameBuffer, fps, start, clock, |cycles|);
      if next.None? {
        break;
      }
      RecordedStep(frames, pixelCount, fps, start, clock, cycles, warnings, lastFrameIndex);
      var frameIndex := next.value.index;
      cycles := cycles + [next.value];

      var skip := SkipCheck(lastFrameIndex, frameIndex);
      if skip.Some? {
        warnings := warnings + [skip.value];
      }
      lastFrameIndex := Some(frameIndex);
    }
  }

  /** The configuration the controller reads once at startup. */
  datatype Config = Config(framesPerSecond: nat, simulator: Option<SimulatorConfig>,
                           outputs: Option<seq<OutputConfig>>)

  /** What a run dispatched, and to which sinks. */
  datatype Session = Session(outputs: seq<Output>, cycles: seq<Cycle>, warnings: seq<Skip>)

  /** Start the controller: resolve the sinks, failing before the instrument is
      created or any cycle runs when a descriptor type is unknown, then run the
      main loop until the instrument's stream ends. */
  method Launch(config: Config, pixelCount: nat, stream: seq<seq<byte>>, start: int, clock: nat -> int)
    returns (r: Result<Session, OutputError>)
    requires config.framesPerSecond > 0
    ensures var resolved := ResolveOutputs(config.simulator, config.outputs);
      match resolved
      case Err(e) => r == Err(e)
      case Ok(sinks) =>
        r.Ok? && r.value.outputs == sinks &&
        RunOutcome(pixelCount, config.framesPerSecond, stream, start, clock,
                   r.value.cycles, r.value.warnings)
  {
    var outputs := BuildOutputs(config.simulator, config.outputs);
    if outputs.Err? {
      return Err(outputs.error);
    }
    var cycles, warnings := Run(pixelCount, config.framesPerSecond, stream, start, clock);
    r := Ok(Session(outputs.value, cycles, warnings));
  }
}
