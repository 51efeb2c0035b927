/**
 Whole runs of the decoder: control calls from the owner, frames offered by
 the producer, and callbacks from the codec, applied one after another. The
 queues' contents live beside the decoder so that pausing and restarting on
 the same queue can be followed.
 */
module DecoderTrace {
  import opened Wrappers
  import opened FrameQueue
  import Codec
  import D = H264Decoder

  datatype World = World(decoder: D.Decoder, queues: map<QueueRef, seq<Frame>>)

  /** Content of queue `q`; a queue never offered to is empty. */
  function Contents(w: World, q: QueueRef): seq<Frame>
  {
    if q in w.queues then w.queues[q] else []
  }

  datatype Op =
    | Produce(queue: QueueRef, frame: Frame)
    | Start(queue: QueueRef, holder: Codec.Holder)
    | StartCurrent(queue: QueueRef)
    | SetSurface(requested: Option<Codec.Holder>)
    | Pause
    | Close
    | EnableRendering(enable: bool)
    | InputAvailable(index: int, inputBuffer: Option<nat>)
    | OutputAvailable(index: int)
    | CodecError(diagnostic: string)
    | FormatChanged(width: int, height: int)

  /** When an operation can happen: control calls when their debug assertions
      (and, for `start(dataBuffer)`, the non-null current holder) hold; codec
      callbacks only while the codec is executing under an installed handler. */
  predicate Allowed(d: D.Decoder, op: Op)
  {
    match op
    case Produce(_, _) => true
    case Start(_, _) => d.paused && !d.closed && d.codecPresent
    case StartCurrent(_) => d.paused && !d.closed && d.codecPresent && d.currentHolder.Some?
    case SetSurface(_) => !d.paused && !d.closed && d.codecPresent
    case Pause => !d.paused && !d.closed ==> d.codecPresent
    case Close => !d.paused && !d.closed ==> d.codecPresent
    case EnableRendering(_) => true
    case InputAvailable(_, _) => D.PhaseOf(d) == D.Running && d.handler.Some?
    case OutputAvailable(_) => D.PhaseOf(d) == D.Running && d.handler.Some?
    case CodecError(_) => D.PhaseOf(d) == D.Running
    case FormatChanged(_, _) => D.PhaseOf(d) == D.Running
  }

  /** One operation, as the code does it. */
  function Step(w: World, op: Op): World
    requires Allowed(w.decoder, op)
  {
    var d := w.decoder;
    match op
    case Produce(q, f) => w.(queues := w.queues[q := Offer(Contents(w, q), f)])
    case Start(q, h) => w.(decoder := D.Start(d, q, h))
    case StartCurrent(q) => w.(decoder := D.StartWithCurrent(d, q))
    case SetSurface(h) => w.(decoder := D.SetSurfaceHolder(d, h))
    case Pause => w.(decoder := D.Pause(d))
    case Close => w.(decoder := D.Close(d))
    case EnableRendering(b) => w.(decoder := D.EnableRendering(d, b))
    case InputAvailable(i, buffer) =>
      var q := d.handler.value.queue;
      var fed := D.OnInputBufferAvailable(d, Contents(w, q), i, buffer);
      World(fed.decoder, w.queues[q := fed.queue])
    case OutputAvailable(i) => w.(decoder := D.OnOutputBufferAvailable(d, i))
    case CodecError(msg) => w.(decoder := D.OnError(d, msg))
    case FormatChanged(wd, ht) => w.(decoder := D.OnOutputFormatChanged(d, wd, ht))
  }

  /** Applies `ops` in order; `None` at the first operation that is not allowed. */
  function Run(w: World, ops: seq<Op>): Option<World>
    decreases |ops|
  {
    if ops == [] then Some(w)
    else if !Allowed(w.decoder, ops[0]) then None
    else Run(Step(w, ops[0]), ops[1..])
  }

  /** A freshly constructed decoder beside some queues. */
  function Init(defaultHolder: Codec.Holder, creation: D.Creation, queues: map<QueueRef, seq<Frame>>): World
  {
    World(D.Create(defaultHolder, creation), queues)
  }

  /** Reachable states: the decoder invariant holds. */
  predicate Good(w: World)
  {
    D.Valid(w.decoder)
  }

  /** Every step keeps the invariant and moves the lifecycle along a legal edge. */
  lemma StepIsLegal(w: World, op: Op)
    requires Good(w) && Allowed(w.decoder, op)
    ensures Good(Step(w, op))
    ensures D.LegalTransition(D.PhaseOf(w.decoder), D.PhaseOf(Step(w, op).decoder))
    ensures |Step(w, op).decoder.calls| >= |w.decoder.calls|
    ensures Step(w, op).decoder.calls[..|w.decoder.calls|] == w.decoder.calls
  {
  }

  /** Over any run from a good state, the invariant holds, the codec log is one
      the codec lifecycle accepts, and it holds at most one release, none
      while the codec object still exists. */
  lemma {:induction false} RunKeepsCodecProtocol(w: World, ops: seq<Op>)
    requires Good(w)
    requires Run(w, ops).Some?
    ensures Good(Run(w, ops).value)
    ensures Codec.Replay(Run(w, ops).value.decoder.calls).Some?
    ensures Codec.Releases(Run(w, ops).value.decoder.calls) <= 1
    ensures Run(w, ops).value.decoder.codecPresent ==> Codec.Releases(Run(w, ops).value.decoder.calls) == 0
    decreases |ops|
  {
    if ops == [] {
      Codec.ReleasedExactlyOnce(w.decoder.calls);
    } else {
      StepIsLegal(w, ops[0]);
      RunKeepsCodecProtocol(Step(w, ops[0]), ops[1..]);
    }
  }

  /** Release at most once: from construction, whatever is done and however
      often `close` is called, the codec is released at most once, and a
      decoder whose creation failed never issues any codec call. */
  lemma ReleaseAtMostOnce(defaultHolder: Codec.Holder, creation: D.Creation, queues: map<QueueRef, seq<Frame>>, ops: seq<Op>)
    requires Run(Init(defaultHolder, creation, queues), ops).Some?
    ensures Codec.Releases(Run(Init(defaultHolder, creation, queues), ops).value.decoder.calls) <= 1
    ensures creation.CreationFailed? ==> Run(Init(defaultHolder, creation, queues), ops).value.decoder.calls == []
  {
    RunKeepsCodecProtocol(Init(defaultHolder, creation, queues), ops);
    if creation.CreationFailed? {
      ClosedIsFinal(Init(defaultHolder, creation, queues), ops);
    }
  }

  /** Closed is terminal: once closed, every later run stays closed, issues no
      codec call and notifies nobody. */
  lemma {:induction false} ClosedIsFinal(w: World, ops: seq<Op>)
    requires D.Valid(w.decoder) && D.PhaseOf(w.decoder) == D.Closed
    requires Run(w, ops).Some?
    ensures D.PhaseOf(Run(w, ops).value.decoder) == D.Closed
    ensures Run(w, ops).value.decoder.calls == w.decoder.calls
    ensures Run(w, ops).value.decoder.notified == w.decoder.notified
    decreases |ops|
  {
    if ops != [] {
      var next := Step(w, ops[0]);
      assert D.Valid(next.decoder) && D.PhaseOf(next.decoder) == D.Closed;
      assert next.decoder.calls == w.decoder.calls;
      ClosedIsFinal(next, ops[1..]);
    }
  }

  /** Pausing keeps the queue: a running decoder that is paused and started
      again on the same queue feeds the frame that was at its head into the
      next input buffer that can hold it. */
  lemma PauseResumeKeepsQueue(w: World, index: int, room: nat)
    requires Good(w) && D.PhaseOf(w.decoder) == D.Running
    requires w.decoder.currentHolder.Some?
    requires Contents(w, w.decoder.handler.value.queue) != []
    requires |Contents(w, w.decoder.handler.value.queue)[0].payload| <= room
    ensures var q := w.decoder.handler.value.queue;
            var fs := Contents(w, q);
            var r := Run(w, [Pause, StartCurrent(q), InputAvailable(index, Some(room))]);
            && r.Some?
            && Contents(r.value, q) == fs[1..]
            && |r.value.decoder.calls| > 0
            && r.value.decoder.calls[|r.value.decoder.calls| - 1]
               == Codec.QueueInputBuffer(index, 0, fs[0].payload, |fs[0].payload|, 0, 0)
  {
    var q := w.decoder.handler.value.queue;
    var w1 := Step(w, Pause);
    var w2 := Step(w1, StartCurrent(q));
    assert Contents(w2, q) == Contents(w, q);
    var w3 := Step(w2, InputAvailable(index, Some(room)));
    assert Run(w2, [InputAvailable(index, Some(room))]) == Some(w3);
    assert [Pause, StartCurrent(q), InputAvailable(index, Some(room))][1..] == [StartCurrent(q), InputAvailable(index, Some(room))];
    assert [StartCurrent(q), InputAvailable(index, Some(room))][1..] == [InputAvailable(index, Some(room))];
  }
}
