# Frame pipeline of the sandestin lighting controller, in Dafny

This project models the per-frame data path of the controller in `app.js`. The
controller drives a lighting installation. An external pattern generator, the
*instrument*, writes raw frames to its standard output. The controller cuts that
byte stream back into frames and paces the frames to a fixed rate. It then
decodes each frame into an RGB frame buffer and hands the buffer to the
configured output sinks.

The model has these parts:

- `common.dfy` (module `Common`): bytes, `Option` and `Result`.
- `framing.dfy` (module `Framing`): the length-implicit framing protocol. A raw
  frame is `4 + 4 * P` bytes long for a model with `P` pixels. The pure
  specification is `Frames(s, n)`, the consecutive `n`-byte frames at the front
  of `s`, and `Leftover(s, n)`, the bytes after them. Class `Instrument` holds
  the state of the `packetize` generator: the `childBuf` accumulator and the
  frames split off but not yet yielded. `Push` is one pass of the generator's
  `for await` body, `Resume` runs the generator until it can yield, `Yield` is
  its `yield`, and `Finish` is its return at the end of the stream. `GetFrame`
  is the caller's `getFrame`. The child's standard output is an input: the
  sequence of chunks it delivers.
- `pacing.dfy` (module `Pacing`): the frame index and due-time arithmetic, done
  exactly. Times are integer milliseconds and the frame rate is a positive
  integer. One period, `1000 / fps` ms, is a fraction, so a due time is handled
  multiplied by `fps` (`ScaledDueTime`).
- `framebuffer.dfy` (module `FrameBuffer`): the frame buffer as an array updated
  in place. `ResetToBlack` is the clearing loop and `DecodeInto` is the decoding
  loop. They are specified by `Decoded`. Its partner is `EncodeFrame`, the layout
  an instrument writes.
- `outputs.dfy` (module `Outputs`): output-descriptor resolution. `BuildOutputs`
  is the loop that pushes sinks and throws on an unknown type. It is proved equal
  to the declarative `ResolveOutputs`.
- `scheduler.dfy` (module `Scheduler`): the main loop (`Run`) and startup
  (`Launch`). The clock is an input: `clock(k)` is the reading taken at the start
  of cycle `k`. Each dispatched buffer is recorded as a `Cycle`, and skip
  warnings are returned as a list.

Three behaviours of the code that the model keeps:

- `packetize` is a lazy async generator. It reads the next chunk only when
  `getFrame` asks for a frame and no split-off frame is waiting; nothing drains
  the child's output independently of the consumer. `GetFrame` does the same: it
  pulls chunks until a frame is available. Frames that one chunk completes wait in
  `pending`, as the generator's suspended inner loop would keep them.
- The skip check runs after the frame has been dispatched (app.js:258-263).
- The frame index only moves forward when the clock does: a clock reading before
  the start gives an index below 1. `IndexesMonotone` states the condition.

## Model

| member | source | states |
|---|---|---|
| Framing.FrameSize | app.js:105-106 | A frame of a model with P pixels has a positive size that is a multiple of 4, and the size determines P. |
| Framing.Frames | app.js:136-139 | Every frame split off has exactly the frame size. |
| Framing.Leftover | app.js:136-141 | After splitting, fewer than a frame's worth of bytes remain. |
| Framing.FramesReassemble | app.js:135-139 | The frames followed by the leftover are exactly the input bytes: nothing is lost, duplicated or reordered. |
| Framing.FramesAt | app.js:136-139 | The k-th frame is the k-th consecutive frame-size slice of the bytes, and it lies within them. |
| Framing.FramesCount | app.js:136-141 | The byte count is the number of frames times the frame size, plus the leftover (division with remainder). |
| Framing.FramesOfConcat | app.js:134-140 | Bytes made of whole frames followed by any tail split back into those frames, then the tail's frames, with the tail's leftover. |
| Framing.FramesPrefix | app.js:134-141 | The frames of the first i chunks are a prefix of the frames of the whole stream; the rest are the frames of the prefix's leftover followed by the later chunks. |
| Framing.FramesAppend | app.js:134-141 | Chunk-boundary independence: the frames of `a + b` are the frames of `a` followed by the frames of `a`'s leftover plus `b`, and the leftovers agree. |
| Framing.SplitFrames | app.js:136-140 | The accumulation loop returns exactly the frames of the buffer, in order, and keeps exactly the leftover. |
| Framing.Instrument.constructor | app.js:104-106 | The frame size is `4 + 4 * P`; no chunk has been received, the accumulator and the queue are empty, nothing has been handed out, and the framing invariant holds. |
| Framing.Instrument.Push | app.js:134-140 | Reading the next chunk queues exactly the frames of the old accumulator plus that chunk, the accumulator becomes their leftover, and the framing invariant is kept. |
| Framing.Instrument.Resume | app.js:134-140 | The generator reads chunks until a frame is waiting to be yielded or the stream has ended, handing out nothing meanwhile and keeping the framing invariant. Reading is lazy: no chunk is read while a frame is waiting, and every chunk read before the last one completed no frame. |
| Framing.Instrument.Yield | app.js:137-139 | The oldest waiting frame is handed out and removed from the queue; nothing else changes. |
| Framing.Instrument.Finish | app.js:134-142 | At the end of the stream with no frame waiting, the generator is done, the accumulator's trailing bytes are dropped, and every frame of the stream has been handed out. |
| Framing.Instrument.GetFrame | app.js:131-154 | The k-th call returns the k-th frame of the whole stream's concatenation, whatever the chunk boundaries. Once the stream has no further complete frame, it returns null from then on and drops the trailing bytes. |
| Pacing.FrameIndex | app.js:233-234 | At or after the start time the frame index is at least 1. |
| Pacing.ScaledDueTime | app.js:235 | The due time `start + index * (1000 / fps)` of frame `index`, multiplied by `fps` so that it is an integer. |
| Pacing.DueTimeBracket | app.js:233-235 | The chosen frame is due strictly after the current instant and at most one period after it. |
| Pacing.FrameIndexMonotone | app.js:233-234 | A later clock reading never gives a smaller frame index. |
| Pacing.NextFrameIndex | app.js:233-235 | The next reading's index is the successor exactly when that reading falls in the period starting at the earlier frame's due time. |
| FrameBuffer.PixelAt | app.js:250-252 | The colour of pixel i: the bytes at offsets `4 + 4i`, `4 + 4i + 1` and `4 + 4i + 2` of the raw frame. |
| FrameBuffer.Decoded | app.js:248-255 | The frame buffer a raw frame decodes to: P entries, entry i the colour of pixel i. |
| FrameBuffer.EncodeFrame | app.js:106 | The raw frame an instrument writes for P pixels is exactly the frame size long. |
| FrameBuffer.EncodePixelsAt | app.js:250-254 | In the pixel area, pixel i's R, G, B, A bytes sit at offsets 4i to 4i+3. |
| FrameBuffer.DecodeEncode | app.js:250-256 | Decoding an encoded frame gives each pixel's R, G, B in order, with the alpha and the sequence number dropped. |
| FrameBuffer.DecodeIgnoresHeaderAndAlpha | app.js:250-255 | Changing a sequence-number byte or an alpha byte does not change the decoded buffer. |
| FrameBuffer.DecodeSeesColourBytes | app.js:250-255 | Changing any R, G or B byte of a pixel changes the decoded buffer. |
| FrameBuffer.DecodeThreePixels | app.js:250-256 | For three pixels, red, green and blue at full alpha decode to `[255,0,0], [0,255,0], [0,0,255]`. |
| FrameBuffer.ResetToBlack | app.js:239-240 | After the clearing loop every entry of the frame buffer is black. |
| FrameBuffer.DecodeInto | app.js:250-256 | After the decoding loop the buffer holds P entries, and entry i is the three bytes at offset `4 + 4i`. |
| Outputs.SimulatorWebSocketPort | app.js:167-168 | The simulator's WebSocket port: the configured `webSocketPort` if set and non-zero, otherwise the HTTP port plus one, where the HTTP port is the configured `port` if set and non-zero, otherwise 3000. |
| Outputs.SimulatorPortDefaults | app.js:167-168 | The WebSocket port defaults to the HTTP port plus one and the HTTP port defaults to 3000; each setting that is zero counts as unset, whatever the other setting is. |
| Outputs.FirstUnknown | app.js:210-217 | Finds a descriptor whose type is not `'e131'` such that every descriptor before it is `'e131'`. |
| Outputs.FirstUnknownAt | app.js:210-217 | A non-`'e131'` descriptor preceded only by `'e131'` descriptors is the first unknown one. |
| Outputs.ResolveOutputs | app.js:207-218 | The sinks of a configuration: the simulator's WebSocket sink if one is configured, then an E1.31 sink per descriptor; the first descriptor of another type is an error naming that type. A missing list reads as empty. |
| Outputs.E131SinksAt | app.js:211-213 | The E1.31 sinks are one per descriptor, in order, each with that descriptor's host and channel map. |
| Outputs.E131Layout | app.js:207-213 | When every descriptor is `'e131'`, resolution succeeds and gives the simulator's sinks, then one E1.31 sink per descriptor with its host and channels, in order. |
| Outputs.ResolveOutputsShape | app.js:207-218 | Resolution succeeds exactly when every descriptor is `'e131'`. The WebSocket sink comes first if and only if a simulator is configured, then one E1.31 sink per descriptor in order. Otherwise the error names the first unknown type, and a missing list reads as empty. |
| Outputs.BuildOutputs | app.js:207-218 | The push loop builds exactly the resolved sinks, or throws exactly the resolution error. |
| Scheduler.SkipCheck | app.js:260-262 | The check after a dispatch: a warning naming the last and the current index when there was a last index and the current one is not its successor, otherwise none. |
| Scheduler.WarningsAreStalls | app.js:258-263 | Over the first n cycles, every cycle whose index is not its predecessor's plus one issues exactly one warning naming the previous and the current index, the warnings come in the order of those cycles, and no other warning is issued. |
| Scheduler.StallsWarned | app.js:258-263 | Every cycle whose index is not its predecessor's plus one issues the warning naming those two indexes. |
| Scheduler.WarningsOnlyStalls | app.js:258-263 | Every warning issued names some cycle whose index is not its predecessor's plus one, together with that predecessor's index. |
| Scheduler.WarningsIff | app.js:258-263 | A warning is issued exactly when some cycle's index is not its predecessor's plus one, and it is the warning naming those two indexes. |
| Scheduler.WarningsWithoutStall | app.js:258-263 | Cycles whose index is their predecessor's plus one add no warning. |
| Scheduler.SingleStallOneWarning | app.js:258-263 | A single stall gives exactly one warning, naming the index before it and the index after it. |
| Scheduler.SkipIffLate | app.js:233-235 | No warning between consecutive cycles exactly when the later cycle starts within one period of the earlier frame's due time. |
| Scheduler.NoWarningsIffConsecutive | app.js:258-263 | Over the first n cycles, no warning is issued exactly when each cycle's frame index is the previous cycle's index plus one. |
| Scheduler.Dispatches | app.js:233-256 | The first n cycles of a run are n dispatches, one per frame taken from the instrument. |
| Scheduler.DispatchesAt | app.js:233-256 | Cycle k carries the frame index computed from cycle k's clock reading and the k-th frame of the stream, decoded. |
| Scheduler.NextFrameBuffer | app.js:239-256 | When the stream has a next frame, the buffer holds exactly that frame decoded, one more frame has been handed out, and the buffer is what is dispatched. Otherwise the instrument reports the end and the buffer stays black. |
| Scheduler.NextCycle | app.js:233-256 | One cycle: while the stream has a k-th frame, it yields the k-th cycle's frame index and that frame decoded, and one more frame has been handed out. At the end of the stream it yields nothing. |
| Scheduler.RecordedStep | app.js:258-263 | Appending the next cycle, and the skip check's warning when there is one, extends the recorded cycles and warnings of a run by exactly one cycle. |
| Scheduler.DispatchesPrefix | app.js:233-256 | Dispatching fewer cycles from a prefix of the frames gives a prefix of the cycles. |
| Scheduler.WarningsPrefix | app.js:258-263 | The warnings over fewer cycles are a prefix of the warnings over more cycles. |
| Scheduler.RunPrefix | app.js:228-264 | The run over the first i chunks of the instrument's output dispatches and warns about a prefix of what the run over the longer output does. |
| Scheduler.IndexesMonotone | app.js:233-234 | With a non-decreasing clock that starts at or after the start time, the dispatched indexes are at least 1 and never decrease. |
| Scheduler.Run | app.js:223-264 | The loop dispatches exactly one cycle per complete frame of the stream, in order. Each cycle carries that cycle's frame index and the decoded frame. Warnings are exactly the skip checks over those indexes. The loop ends only when the stream does. |
| Scheduler.Launch | app.js:204-264 | An unknown output type fails before the instrument is created or any cycle runs. Otherwise the session's sinks are the resolved ones and its cycles are those of `Run`. |

## Left out

- Spawning the instrument, the temporary configuration file and its JSON payload, stderr piping, and the exit and error log handlers (app.js:108-127). These are operating-system calls. The child's standard output is a parameter.
- `sleep`, `Date.now` and real waiting (app.js:224, app.js:236). The clock readings are parameters, and the wait until the due time has no observable effect on the model.
- `sendFrame` and the `E131Output` and `WebSocketOutput` classes. They come from `output.js`, which is not part of this model. A dispatch is recorded as a snapshot of the frame buffer, and the concurrent fan-out to the sinks is not modelled.
- The `Simulator` HTTP server (app.js:162-189). Only its WebSocket port choice, which feeds the output list, is modelled.
- TOML parsing, model loading, and `Model.import` / `export` (app.js:197-201). These are library code. The pixel count and the configuration are parameters.
- Pacing.FrameIndex: uses exact arithmetic with an integer frame rate. The source divides by the double `1000.0 / framesPerSecond`, so it also accepts fractional rates, and its rounding may differ from exact arithmetic at period boundaries.
- Scheduler.Launch: requires a positive frame rate, and the rate's type excludes negative rates. In the source a zero rate makes the period Infinity and a missing rate makes it NaN (app.js:204-205); with NaN every frame index is NaN and the check at app.js:260 warns on every cycle after the first. Neither case is modelled.
- Scheduler.Run: the instrument's output is a finite sequence of chunks, so every modelled run ends. An instrument that never stops keeps the source's `while (true)` (app.js:228) going forever; the model covers it only through the finite prefixes of its output, and `RunPrefix` states that longer prefixes extend the cycles and warnings of shorter ones.
- Outputs.ResolveOutputs: descriptor types are strings. A missing `type` field, which the source reports as `'undefined'`, is not distinguished.
- Outputs.BuildOutputs: returns an error value instead of throwing. The simulator server started before the throw, and the sinks pushed before it, are not modelled.
- The commented-out legacy patterns (app.js:16-93) and the mixer notes (app.js:269-277). They are not executed; the code overwrites each pixel (last writer wins).
- The sequence number in each raw frame is read past and never compared with the computed frame index, as in the source.
- JavaScript's growable `pixelColorsMixed` array is modelled as an array of exactly P entries allocated once. The source array reaches that length at the first clearing loop.
