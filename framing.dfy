/**
 * The instrument's byte-stream framing protocol.
 *
 * The pattern generator writes raw frames of exactly `4 + 4 * P` bytes to its
 * standard output, with no delimiters between them. The controller receives
 * that output as chunks of arbitrary size, appends each chunk to an
 * accumulator and splits off every complete frame from the front. When the
 * stream ends, bytes that do not make up a whole frame are dropped.
 */
module Framing {
  import opened Common

  type Frame = seq<byte>

  /** Bytes in one raw frame of a model with `pixelCount` pixels: a 4-byte
      sequence number, then an R, G, B, A group per pixel. */
  function FrameSize(pixelCount: nat): (n: nat)
    ensures n > 0 && n % 4 == 0
    ensures (n - 4) / 4 == pixelCount
  {
    4 + 4 * pixelCount
  }

  /** The bytes of `chunks`, joined in order. */
  function Concat(chunks: seq<seq<byte>>): seq<byte>
  {
    if chunks == [] then [] else chunks[0] + Concat(chunks[1..])
  }

  /** The complete frames at the front of `s`, in order. */
  function Frames(s: seq<byte>, n: nat): (frames: seq<Frame>)
    requires n > 0
    ensures forall k :: 0 <= k < |frames| ==> |frames[k]| == n
    decreases |s|
  {
    if |s| < n then [] else [s[..n]] + Frames(s[n..], n)
  }

  /** What remains of `s` once every complete frame has been split off. */
  function Leftover(s: seq<byte>, n: nat): (rest: seq<byte>)
    requires n > 0
    ensures |rest| < n
    decreases |s|
  {
    if |s| < n then s else Leftover(s[n..], n)
  }

  lemma {:induction false} ConcatAppend(xs: seq<seq<byte>>, ys: seq<seq<byte>>)
    ensures Concat(xs + ys) == Concat(xs) + Concat(ys)
  {
    if xs == [] {
      assert xs + ys == ys;
    } else {
      assert (xs + ys)[1..] == xs[1..] + ys;
      ConcatAppend(xs[1..], ys);
    }
  }

  /** Taking one more chunk of the stream appends exactly that chunk. */
  lemma ConcatPrefix(chunks: seq<seq<byte>>, i: nat)
    requires i < |chunks|
    ensures Concat(chunks[..i + 1]) == Concat(chunks[..i]) + chunks[i]
  {
    assert chunks[..i + 1] == chunks[..i] + [chunks[i]];
    ConcatAppend(chunks[..i], [chunks[i]]);
    assert Concat([chunks[i]]) == chunks[i] + Concat([]);
  }

  /** Bytes made of whole frames followed by `r` split back into those same
      frames, followed by the frames of `r`. */
  lemma {:induction false} FramesOfConcat(fs: seq<Frame>, r: seq<byte>, n: nat)
    requires n > 0
    requires forall k :: 0 <= k < |fs| ==> |fs[k]| == n
    ensures Frames(Concat(fs) + r, n) == fs + Frames(r, n)
    ensures Leftover(Concat(fs) + r, n) == Leftover(r, n)
  {
    if fs == [] {
      assert Concat(fs) + r == r;
    } else {
      var first, rest := fs[0], fs[1..];
      assert |first| == n;
      assert forall k :: 0 <= k < |rest| ==> |rest[k]| == n by {
        forall k | 0 <= k < |rest| ensures |rest[k]| == n {
          assert rest[k] == fs[k + 1];
        }
      }
      FramesOfConcat(rest, r, n);
      var tail := Concat(rest) + r;
      var s := first + tail;
      assert Concat(fs) + r == s;
      assert s[..n] == first;
      assert s[n..] == tail;
      assert Frames(s, n) == [first] + Frames(tail, n);
      assert fs == [first] + rest;
    }
  }

  /** Nothing is lost or reordered: the frames, then the leftover, are `s`. */
  lemma {:induction false} FramesReassemble(s: seq<byte>, n: nat)
    requires n > 0
    ensures Concat(Frames(s, n)) + Leftover(s, n) == s
    decreases |s|
  {
    if |s| >= n {
      FramesReassemble(s[n..], n);
      assert s == s[..n] + s[n..];
    }
  }

  /** Chunk-boundary independence: splitting `a + b` gives the frames of `a`,
      then the frames of what `a` left over followed by `b`. */
  lemma FramesAppend(a: seq<byte>, b: seq<byte>, n: nat)
    requires n > 0
    ensures Frames(a + b, n) == Frames(a, n) + Frames(Leftover(a, n) + b, n)
    ensures Leftover(a + b, n) == Leftover(Leftover(a, n) + b, n)
  {
    FramesReassemble(a, n);
    assert a + b == Concat(Frames(a, n)) + (Leftover(a, n) + b);
    FramesOfConcat(Frames(a, n), Leftover(a, n) + b, n);
  }

  /** The frames of the first `i` chunks of a stream are a prefix of the
      frames of the whole stream: chunks received later never change a frame
      already split off. */
  lemma FramesPrefix(stream: seq<seq<byte>>, i: nat, n: nat)
    requires n > 0 && i <= |stream|
    ensures Frames(Concat(stream[..i]), n) <= Frames(Concat(stream), n)
    ensures Frames(Concat(stream), n) == Frames(Concat(stream[..i]), n)
      + Frames(Leftover(Concat(stream[..i]), n) + Concat(stream[i..]), n)
  {
    assert stream == stream[..i] + stream[i..];
    ConcatAppend(stream[..i], stream[i..]);
    FramesAppend(Concat(stream[..i]), Concat(stream[i..]), n);
  }

  /** The k-th frame is the k-th consecutive n-byte slice of `s`. */
  lemma {:induction false} FramesAt(s: seq<byte>, n: nat, k: nat)
    requires n > 0
    requires k < |Frames(s, n)|
    ensures k * n + n <= |s|
    ensures Frames(s, n)[k] == s[k * n..k * n + n]
    decreases |s|
  {
    if k > 0 {
      FramesAt(s[n..], n, k - 1);
      assert (k - 1) * n + n == k * n;
    }
  }

  /** Splitting is division with remainder: |s| is the number of frames
      times n, plus the leftover, which is shorter than n. */
  lemma {:induction false} FramesCount(s: seq<byte>, n: nat)
    requires n > 0
    ensures |s| == |Frames(s, n)| * n + |Leftover(s, n)|
    decreases |s|
  {
    if |s| >= n {
      FramesCount(s[n..], n);
      assert (|Frames(s[n..], n)| + 1) * n == |Frames(s[n..], n)| * n + n;
    }
  }

  /** The accumulation loop of `packetize`: split every complete frame off the
      front of `buf`, in order, and return them with what remains. */
  method SplitFrames(buf: seq<byte>, frameSize: nat) returns (frames: seq<Frame>, rest: seq<byte>)
    requires frameSize > 0
    ensures frames == Frames(buf, frameSize)
    ensures rest == Leftover(buf, frameSize)
  {
    frames, rest := [], buf;
    while |rest| >= frameSize
      invariant frames + Frames(rest, frameSize) == Frames(buf, frameSize)
      invariant Leftover(rest, frameSize) == Leftover(buf, frameSize)
      decreases |rest|
    {
      frames := frames + [rest[..frameSize]];
      rest := rest[frameSize..];
    }
  }

  /** The framing invariant of the `packetize` generator after it has read the
      first `received` chunks of `stream`: the frames handed out, then those
      waiting, are the frames of the bytes read, and the accumulator holds
      what is left over. Once it is done, every frame of the stream has been
      handed out and the trailing bytes are dropped. */
  ghost predicate Framed(stream: seq<seq<byte>>, received: nat, frameSize: nat, yielded: seq<Frame>,
                         pending: seq<Frame>, childBuf: seq<byte>, done: bool)
    requires frameSize > 0 && received <= |stream|
  {
    if done then
      received == |stream| && pending == [] && childBuf == [] &&
      yielded == Frames(Concat(stream), frameSize)
    else
      yielded + pending == Frames(Concat(stream[..received]), frameSize) &&
      childBuf == Leftover(Concat(stream[..received]), frameSize)
  }

  /**
   * The controller's side of one instrument process: its standard output,
   * delivered as `stream` (chunk by chunk), and the `packetize` generator
   * driven by `GetFrame`.
   */
  class Instrument {
    const frameSize: nat
    /** The chunks the child's standard output delivers, in order. */
    const stream: seq<seq<byte>>
    /** How many chunks the generator has pulled from `stream`. */
    var received: nat
    /** The accumulator `childBuf`. */
    var childBuf: seq<byte>
    /** Frames split off the last chunk that the generator has not yielded yet. */
    var pending: seq<Frame>
    /** The generator has finished: the stream ended. */
    var done: bool
    /** Every frame handed out by `GetFrame` so far. */
    ghost var yielded: seq<Frame>

    /** Every frame the whole stream holds, in order. */
    ghost function AllFrames(): seq<Frame>
      requires frameSize > 0
    {
      Frames(Concat(stream), frameSize)
    }

    ghost predicate Valid()
      reads this
    {
      frameSize > 0 && received <= |stream| &&
      Framed(stream, received, frameSize, yielded, pending, childBuf, done)
    }

    constructor (pixelCount: nat, stream: seq<seq<byte>>)
      ensures Valid() && !done
      ensures frameSize == FrameSize(pixelCount) && this.stream == stream
      ensures received == 0 && childBuf == [] && pending == [] && yielded == []
    {
      frameSize := FrameSize(pixelCount);
      this.stream := stream;
      received, childBuf, pending, done := 0, [], [], false;
      yielded := [];
      new;
      assert stream[..0] == [];
    }

    /** One pass of the `for await` body, taken when every frame split off so
        far has been yielded: read the next chunk, append it to the
        accumulator and split off every frame it now completes, to be yielded
        next. */
    method Push()
      requires Valid() && !done && pending == [] && received < |stream|
      modifies this
      ensures Valid() && !done && yielded == old(yielded) && received == old(received) + 1
      ensures pending == Frames(old(childBuf) + stream[old(received)], frameSize)
      ensures childBuf == Leftover(old(childBuf) + stream[old(received)], frameSize)
    {
      ghost var before := Concat(stream[..received]);
      var chunk := stream[received];
      childBuf := childBuf + chunk;
      pending, childBuf := SplitFrames(childBuf, frameSize);
      ConcatPrefix(stream, received);
      FramesAppend(before, chunk, frameSize);
      received := received + 1;
    }

    /** Resume the generator: pull chunks until a frame is ready to be yielded
        or the stream has ended. Reading is lazy: no chunk is read while a frame
        is waiting, and reading stops at the first chunk that completes one. */
    method Resume()
      requires Valid() && !done
      modifies this
      ensures Valid() && !done && yielded == old(yielded)
      ensures pending != [] || received == |stream|
      ensures old(received) <= received
      ensures received > old(received) ==> old(pending) == []
      ensures forall r :: old(received) <= r < received ==>
        |Frames(Concat(stream[..r]), frameSize)| == |yielded|
    {
      while pending == [] && received < |stream|
        invariant Valid() && !done
        invariant yielded == old(yielded)
        invariant old(received) <= received
        invariant received > old(received) ==> old(pending) == []
        invariant forall r :: old(received) <= r < received ==>
          |Frames(Concat(stream[..r]), frameSize)| == |yielded|
        decreases |stream| - received
      {
        Push();
      }
    }

    /** The generator's `yield` of the oldest frame split off and not yet
        handed out. */
    method Yield() returns (frame: Frame)
      requires Valid() && !done && pending != []
      modifies this
      ensures Valid() && !done && received == old(received) && childBuf == old(childBuf)
      ensures frame == old(pending[0]) && yielded == old(yielded) + [frame]
      ensures pending == old(pending[1..])
    {
      frame := pending[0];
      yielded := yielded + [frame];
      pending := pending[1..];
    }

    /** The generator returns once the stream has ended with no frame waiting;
        the bytes left in the accumulator are dropped. */
    method Finish()
      requires Valid() && !done && pending == [] && received == |stream|
      modifies this
      ensures Valid() && done && yielded == old(yielded)
    {
      assert stream[..received] == stream;
      childBuf := [];
      done := true;
    }

    /** The next frame of the stream, or `None` once the stream has ended with
        no complete frame left; the trailing bytes are then dropped. */
    method GetFrame() returns (frame: Option<Frame>)
      requires Valid()
      modifies this
      ensures Valid()
      ensures var k := |old(yielded)|;
        if k < |AllFrames()| then
          frame == Some(AllFrames()[k]) && yielded == old(yielded) + [AllFrames()[k]] && !done
        else
          frame == None && yielded == old(yielded) && done
    {
      if done {
        frame := None;
        return;
      }
      Resume();
      FramesPrefix(stream, received, frameSize);
      if pending != [] {
        assert AllFrames()[|yielded|] == pending[0];
        var next := Yield();
        frame := Some(next);
      } else {
        assert stream[received..] == [];
        assert childBuf + Concat(stream[received..]) == childBuf;
        Finish();
        frame := None;
      }
    }
  }
}
