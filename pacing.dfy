/**
 * Frame pacing arithmetic of the main loop.
 *
 * Times are integer milliseconds read from the clock; the frame rate `fps` is a
 * positive integer, so one frame lasts 1000 / fps ms. That period is a fraction,
 * so a due time is kept exactly by scaling it by `fps`: `ScaledDueTime` is
 * `fps` times the instant at which a frame is due.
 */
module Pacing {

  /** floor(elapsed / (1000 / fps)) + 1: the index of the next frame to show
      when `elapsed` ms have passed since the start. */
  function FrameIndex(elapsed: int, fps: nat): (index: int)
    requires fps > 0
    ensures elapsed >= 0 ==> index >= 1
  {
    elapsed * fps / 1000 + 1
  }

  /** `fps` times start + index * (1000 / fps), the instant frame `index` is due. */
  function ScaledDueTime(start: int, index: int, fps: nat): int
    requires fps > 0
  {
    start * fps + index * 1000
  }

  /** The frame chosen at `start + elapsed` is due strictly later than that
      instant and at most one period later. */
  lemma DueTimeBracket(start: int, elapsed: int, fps: nat)
    requires fps > 0
    ensures var due := ScaledDueTime(start, FrameIndex(elapsed, fps), fps);
      (start + elapsed) * fps < due <= (start + elapsed) * fps + 1000
  {
    var p := elapsed * fps;
    assert p == 1000 * (p / 1000) + p % 1000;
    assert (start + elapsed) * fps == start * fps + p;
  }

  /** A clock that does not go backwards never lowers the frame index. */
  lemma FrameIndexMonotone(e1: int, e2: int, fps: nat)
    requires fps > 0 && e1 <= e2
    ensures FrameIndex(e1, fps) <= FrameIndex(e2, fps)
  {
    assert e2 * fps - e1 * fps == (e2 - e1) * fps;
  }

  /** The index at `start + e2` is the successor of the index at `start + e1`
      exactly when `start + e2` falls within the period that begins at the due
      time of the frame chosen at `start + e1`. */
  lemma NextFrameIndex(start: int, e1: int, e2: int, fps: nat)
    requires fps > 0
    ensures var due := ScaledDueTime(start, FrameIndex(e1, fps), fps);
      FrameIndex(e2, fps) == FrameIndex(e1, fps) + 1
      <==> due <= (start + e2) * fps < due + 1000
  {
    var q := e1 * fps / 1000;
    var p := e2 * fps;
    assert p == 1000 * (p / 1000) + p % 1000;
    assert (start + e2) * fps == start * fps + p;
    assert ScaledDueTime(start, FrameIndex(e1, fps), fps) == start * fps + 1000 * q + 1000;
  }
}
