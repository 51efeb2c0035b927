# H.264 stream player: decoder lifecycle and playback coordination

This project models the decode side of an Android H.264 stream player in Dafny.

- `H264Decoder` wraps a platform codec. It is a small state machine over
  "paused", "closed", "codec object present", a rendering gate and the current
  surface holder.
- Each start installs a fresh event handler. The handler feeds input buffers
  from a caller-supplied frame queue, counts output buffers, and notifies
  "video available" on the first one.
- `VideoPlayer` stores the frame buffer and follows the default display's
  surface lifecycle. It restarts playback with pause, then enable rendering,
  then start. It also holds a one-way fullscreen flag and classifies the
  decoder's errors.

The model is functional. A decoder is an immutable record, and every
operation is a pure function from record to record. The codec is represented
only by the log of calls made to it: configure, setCallback, start, stop,
release, setOutputSurface, queueInputBuffer and releaseOutputBuffer. The two
callbacks the owner supplies are represented by a log of notifications. A
frame queue is a `seq` of frames, and a poll takes the head or reports none.
`FrameQueue.Offer` appends at the tail. It stands in for the producer's
`offer` on the queue, which happens outside the decoder and the player.
Surfaces and surface holders are opaque handles.

The debug-build assertions of the decoder become `requires` clauses. In whole
runs (`DecoderTrace.Run`, `VideoPlayer.PlayerRun`), an operation whose
assertion would fire ends the run. One case is different:
`startVideoPlaying` on a closed decoder makes the decoder's start assertion
throw. The player model returns that as `AssertionError`, so the player
functions need no "not closed" precondition.

A small reference automaton of the codec lifecycle (`Codec.Next`) says which
call sequences a codec accepts:

- Uninitialized → Configured → Executing;
- stop returns to Uninitialized;
- release is final.

The trace lemmas cover runs of the code as written, including
`setSurfaceHolder(null)`. They show that every codec log such a run produces
is accepted by this automaton, and that such a log holds at most one release.

The output counter `frameCounts` is a Java `int`. It is modelled as a 32-bit
value that wraps around.

In three places the model keeps behaviour of the code that a reader might not expect:

- When the surface is destroyed, the player only clears its flag. It does not
  pause the decoder.
- The frame queue has no capacity bound.
- `setSurfaceHolder(null)` stores null as the current holder. See Findings.

## Model

| member | source | states |
|---|---|---|
| `FrameQueue.Poll` | video_decoder/H264Decoder.java:165 | An empty queue gives no frame and stays empty; otherwise the queue is exactly the returned head followed by what remains |
| `H264Decoder.Increment` | video_decoder/H264Decoder.java:188 | Java `++` on the counter adds one modulo 2^32, and the result is 1 exactly when the counter was 0 |
| `H264Decoder.Create` | video_decoder/H264Decoder.java:34-62 | After construction rendering is off, the decoder is paused and the default holder is current; it is closed (no codec object) exactly when creation threw, and then the error callback got that IOException exactly once |
| `H264Decoder.Start` | video_decoder/H264Decoder.java:78-93 | Requires paused, not closed, codec present; ends running on the given holder with a fresh handler reading the given queue with count 0, after configure, setCallback and start in that order; nothing else changes |
| `H264Decoder.StartWithCurrent` | video_decoder/H264Decoder.java:68-71 | `start(dataBuffer)` starts on the holder that is current, which stays current |
| `H264Decoder.SetSurfaceHolder` | video_decoder/H264Decoder.java:99-108 | Requires running; the argument becomes current even when null, while output is redirected to the default holder's surface when it is null |
| `H264Decoder.SetSurfaceHolderResolved` | video_decoder/H264Decoder.java:95-108 | Corrected form: a null argument means the default holder, which becomes current and is the surface output is redirected to |
| `H264Decoder.Pause` | video_decoder/H264Decoder.java:111-123 | Only a running decoder changes: it becomes paused after exactly one codec stop; in every other state nothing changes |
| `H264Decoder.Close` | video_decoder/H264Decoder.java:126-140 | From any state ends closed with no codec object; a running decoder passes through one stop first, and a present codec is released once |
| `H264Decoder.IsDecoderCreated` | video_decoder/H264Decoder.java:142-145 | In every valid state the codec object exists exactly while the decoder is not closed |
| `H264Decoder.EnableRendering` | video_decoder/H264Decoder.java:222-225 | Sets the rendering gate without changing the lifecycle phase, the codec log or the notifications |
| `H264Decoder.OnInputBufferAvailable` | video_decoder/H264Decoder.java:162-182 | Polls exactly one frame; with an input buffer it queues that frame's payload with its length, or length 0 when the queue was empty; when the frame does not fit in the buffer the copy throws, nothing is queued and the frame is lost; without a buffer nothing is queued and the polled frame is lost |
| `H264Decoder.OnOutputBufferAvailable` | video_decoder/H264Decoder.java:186-195 | Counts the event, notifies "video available" exactly when it is the handler's first count, and releases the buffer with render flag equal to the rendering gate |
| `H264Decoder.OnError` | video_decoder/H264Decoder.java:197-203 | The codec exception reaches the error callback unchanged and nothing else changes |
| `H264Decoder.OnOutputFormatChanged` | video_decoder/H264Decoder.java:206-211 | Records the current video size as the rectangle (0, 0, width, height) and changes nothing else |
| `H264Decoder.PauseIdempotent` | video_decoder/H264Decoder.java:111-123 | Pausing twice is the same as pausing once |
| `H264Decoder.CloseTwice` | video_decoder/H264Decoder.java:126-140 | A second close changes nothing; after close the log holds at most one release, and exactly one when a codec was present |
| `H264Decoder.OutputsNotifyOnFirstOnly` | video_decoder/H264Decoder.java:154-195 | A run of output events notifies once if it contains the handler's first event and never otherwise, and releases every buffer in order with the rendering gate as render flag |
| `H264Decoder.NotifiesOncePerStart` | video_decoder/H264Decoder.java:84-92 | After every start, a non-empty run of output events notifies "video available" exactly once, whatever the rendering gate |
| `H264Decoder.InputsFollowQueueOrder` | video_decoder/H264Decoder.java:162-182 | n input events whose buffers can hold the first n frames take those frames in queue order and queue each one's full payload into the matching buffer |
| `H264Decoder.NullHolderStrandsRestart` | video_decoder/H264Decoder.java:99-108 | As written, setSurfaceHolder(null) then pause leaves start's assertion satisfied but no current holder to take a surface from |
| `H264Decoder.ResolvedHolderRestartsOnSameSurface` | video_decoder/H264Decoder.java:95-108 | With the corrected form, a later start(dataBuffer) configures the codec on the surface output was redirected to |
| `Codec.ReleasedExactlyOnce` | video_decoder/H264Decoder.java:133-139 | Any codec log the lifecycle accepts holds at most one release, and exactly one when the codec ends released |
| `DecoderTrace.StepIsLegal` | video_decoder/H264Decoder.java:78-140 | Every allowed operation of the code as written, `setSurfaceHolder(null)` included, keeps the invariant, follows a legal lifecycle edge (Idle→Running⇄Paused, anything→Closed) and only appends to the codec log |
| `DecoderTrace.RunKeepsCodecProtocol` | video_decoder/H264Decoder.java:78-140 | Over any run of the code as written, `setSurfaceHolder(null)` included, the codec log is accepted by the codec lifecycle, holds at most one release, and none while the codec object exists |
| `DecoderTrace.ReleaseAtMostOnce` | video_decoder/H264Decoder.java:51-61 | From construction, whatever the operations (`setSurfaceHolder(null)` included) and however many closes, the codec is released at most once; a decoder whose creation failed never calls the codec |
| `DecoderTrace.ClosedIsFinal` | video_decoder/H264Decoder.java:126-140 | Once closed, every later run stays closed, makes no codec call and notifies nobody |
| `DecoderTrace.PauseResumeKeepsQueue` | video_decoder/H264Decoder.java:111-123 | Pause followed by start on the same queue keeps the queued frames, and the next input event whose buffer can hold it feeds the frame that was at the head |
| `VideoPlayer.ClassifyDecoderError` | VideoPlayer.java:85-104 | An IOException is a fatal decoder error, a codec exception throws "Not implemented", and any other exception is ignored |
| `VideoPlayer.React` | VideoPlayer.java:80-104 | "Video available" is reported as loaded; a decoder error is reported as its classification |
| `VideoPlayer.Reactions` | VideoPlayer.java:80-104 | The player reacts once to each decoder notification, in order |
| `VideoPlayer.New` | VideoPlayer.java:42-105 | A new player has no buffer, no surface and no fullscreen mode; a failed decoder creation reaches the owner as exactly one fatal error |
| `VideoPlayer.StartVideoPlaying` | VideoPlayer.java:150-158 | Without a buffer nothing happens; otherwise it pauses, enables rendering and starts on the current holder with the buffer; start's precondition fails exactly when the decoder is closed |
| `VideoPlayer.Begin` | VideoPlayer.java:140-148 | The buffer is always stored; playback is attempted only when the default surface already exists |
| `VideoPlayer.SurfaceCreated` | VideoPlayer.java:190-202 | Sets the surface flag and attempts playback, which succeeds whenever a buffer is set and the decoder is not closed |
| `VideoPlayer.SurfaceDestroyed` | VideoPlayer.java:49-51 | Only clears the surface flag; the decoder is left as it was, running or not |
| `VideoPlayer.FullscreenClick` | VideoPlayer.java:58-74 | The owner is asked on every click; fullscreen mode is on afterwards exactly when it was on or the owner agreed |
| `VideoPlayer.Pause` | VideoPlayer.java:163-175 | Delegates to the decoder's pause: a running decoder becomes paused and nothing else in the player changes |
| `VideoPlayer.Close` | VideoPlayer.java:180-183 | Delegates to the decoder's close, which ends closed |
| `VideoPlayer.RuntimeErrorIsNotFatal` | VideoPlayer.java:99-103 | A codec error in mid-stream reaches the owner as "Not implemented", never as a fatal error |
| `VideoPlayer.StartsOnlyWhenReady` | VideoPlayer.java:140-202 | The decoder is started only by a step after which a buffer is set, the surface exists and the new handler reads that buffer |
| `VideoPlayer.PlayerRunFacts` | VideoPlayer.java:58-74 | Over any player run the invariant holds, fullscreen once on stays on, and an assertion comes only from starting a closed decoder with a buffer set |

## Left out

- The scale computation and `setFixedSize` call in `onOutputFormatChanged` (video_decoder/H264Decoder.java:215-218) are left out because they use floating point. So is the null dereference they make when the current holder is null. Only the recorded size is modelled.
- The codec-specific data `csd-0` and `csd-1` are not modelled, because `H264VideoUtil` is not part of this model. The configured format keeps the MIME type and the 640×352 default size.
- `getInputBuffer` is a query on the codec. It is modelled as a parameter: the free room of the buffer the codec handed out, or none. Copying bytes into that buffer is modelled as recording the payload in the `queueInputBuffer` call. A frame larger than that room makes the copy throw `BufferOverflowException`. The model records the throw (`overflowed`) and that nothing is queued. How the exception then propagates into the codec's callback thread is not modelled; a run simply continues.
- Thread interleaving between the producer, the codec callbacks and the UI thread is not modelled, nor is the blocking queue's thread safety. Runs are sequential.
- After `setSurfaceHolder(null)`, a run cannot go on with `start(dataBuffer)`, because that call would dereference the null holder. See Findings.
- The codec delivering callbacks only while it executes is a platform guarantee. The model assumes it in `DecoderTrace.Allowed` rather than deriving it.
- Queue capacity and a drop policy are not modelled, because this code does not bound the caller's queue.
- Release-build behaviour with the debug assertions switched off is not modelled. The assertions are preconditions.
- The exception thrown for a codec error ("Not implemented") is recorded as a reaction. Its propagation into the codec's callback thread is not modelled.
- The UI is not modelled: view visibility, `initial`, `loading`, `loaded`, `handleBackKeyPress`, the screen utilities, the `setFixedSize(0, 0)` call on surface creation, and logging.
- `VideoDisplayEventHandler.java` is a thin adapter and is not part of this model. Surface creation and destruction are player transitions.
- `getCurrentVideoSize` is a plain field read (`videoSize`).
- H264Decoder.OutputsNotifyOnFirstOnly: this lemma, and H264Decoder.NotifiesOncePerStart which follows from it, are stated for up to 2^32 output events per handler. The Java `int` counter wraps around, so the handler would notify again on event 2^32 + 1.

## Findings

| source | as written | input that shows it | evidently intended | confidence | as-written member | corrected member |
|---|---|---|---|---|---|---|
| video_decoder/H264Decoder.java:99-108 | `setSurfaceHolder(null)` stores null as the current holder. Only the output surface falls back to the default holder. | `setSurfaceHolder(null)` while running, then `pause()`, then `start(dataBuffer)`. The start passes its assertion, then calls `getSurface()` on the null holder (line 88). A format change after `setSurfaceHolder(null)` dereferences it too (line 216). | The documentation at line 97 says null means "use default surfaceHolder". The default holder should become current. | medium, not executed | `H264Decoder.NullHolderStrandsRestart` | `H264Decoder.SetSurfaceHolderResolved` |
