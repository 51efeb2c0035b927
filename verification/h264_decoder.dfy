/**
 The H.264 decoder wrapper: a small state machine over "paused", "closed",
 "codec object present", the rendering gate and the current surface holder,
 plus the per-start event handler that feeds input buffers from the frame
 queue and releases output buffers. The codec itself is the log of calls
 made to it (`calls`); the two callbacks handed in by the owner are the log
 of notifications made to them (`notified`).
 */
module H264Decoder {
  import opened Wrappers
  import opened FrameQueue
  import Codec

  /** Java's 32-bit `int`. */
  newtype int32 = x: int | -0x8000_0000 <= x < 0x8000_0000

  /** `x++` on a Java int: two's-complement wrap from the largest value to the smallest. */
  function Increment(x: int32): (r: int32)
    ensures (r as int - x as int - 1) % 0x1_0000_0000 == 0
    ensures r == 1 <==> x == 0
  {
    if x == 0x7fff_ffff then -0x8000_0000 else x + 1
  }

  const MediaType: string := "video/avc"
  const DefaultVideoWidth: int := 640
  const DefaultVideoHeight: int := 352

  /** The format every start configures the codec with. */
  const VideoFormat: Codec.Format := Codec.Format(MediaType, DefaultVideoWidth, DefaultVideoHeight)

  /** A rectangle given by its edges, as the platform's `Rect`. */
  datatype Rect = Rect(left: int, top: int, right: int, bottom: int)

  /** The event handler one start installs: its own identity, the queue it
      reads, and its count of output events so far. */
  datatype Handler = Handler(id: nat, queue: QueueRef, frameCounts: int32)

  /** A call into one of the two callbacks the owner supplied. */
  datatype Notification = VideoAvailable | DecoderError(exception: Codec.Exception)

  /** What creating the platform codec produced: an instance, or an IOException. */
  datatype Creation = Created | CreationFailed(message: string)

  /** Lifecycle phases: never started, started, stopped after a start, closed for good. */
  datatype Phase = Idle | Running | Paused | Closed

  datatype Decoder = Decoder(
    defaultHolder: Codec.Holder,
    currentHolder: Option<Codec.Holder>,
    codecPresent: bool,
    paused: bool,
    closed: bool,
    renderingEnabled: bool,
    handler: Option<Handler>,
    handlersMade: nat,
    videoSize: Option<Rect>,
    calls: seq<Codec.Call>,
    notified: seq<Notification>)

  function PhaseOf(d: Decoder): Phase
  {
    if d.closed then Closed
    else if !d.paused then Running
    else if d.handler.None? then Idle
    else Paused
  }

  /** The only phase changes the lifecycle admits: Idle to Running, Running and
      Paused back and forth, anything to Closed, and staying put. */
  predicate LegalTransition(a: Phase, b: Phase)
  {
    a == b || b == Closed || (a == Idle && b == Running) || (a == Running && b == Paused) || (a == Paused && b == Running)
  }

  /** What the codec log must look like for each combination of flags. */
  predicate CodecAgrees(d: Decoder)
  {
    if d.codecPresent then
      Codec.Replay(d.calls) == Some(if d.paused then Codec.Uninitialized else Codec.Executing)
    else
      d.calls == [] || Codec.Replay(d.calls) == Some(Codec.Released)
  }

  /** The invariant every reachable decoder state keeps. */
  predicate Valid(d: Decoder)
  {
    && (d.closed <==> !d.codecPresent)
    && (d.closed ==> d.paused)
    && (d.handler.Some? <==> d.handlersMade > 0)
    && (d.handler.Some? ==> d.handler.value.id == d.handlersMade)
    && (!d.paused ==> d.handler.Some?)
    && CodecAgrees(d)
  }

  /** Construction: rendering off, paused, the default holder current; closed
      exactly when creating the codec failed, in which case the error callback
      has received that IOException once. */
  function Create(defaultHolder: Codec.Holder, creation: Creation): (r: Decoder)
    ensures Valid(r)
    ensures r.paused && !r.renderingEnabled
    ensures r.closed <==> creation.CreationFailed?
    ensures r.codecPresent <==> creation.Created?
    ensures PhaseOf(r) == (if creation.Created? then Idle else Closed)
    ensures r.defaultHolder == defaultHolder && r.currentHolder == Some(defaultHolder)
    ensures r.calls == [] && r.handler.None? && r.videoSize.None?
    ensures creation.CreationFailed? ==> r.notified == [DecoderError(Codec.IOException(creation.message))]
    ensures creation.Created? ==> r.notified == []
  {
    var base := Decoder(defaultHolder, Some(defaultHolder), false, true, true, false, None, 0, None, [], []);
    match creation
    case Created => base.(codecPresent := true, closed := false)
    case CreationFailed(message) => base.(notified := [DecoderError(Codec.IOException(message))])
  }

  /** Start on `holder` reading `q`: legal only when paused, not closed and the
      codec exists. Installs a fresh handler with a zero count and issues
      configure, setCallback and start, in that order. */
  function Start(d: Decoder, q: QueueRef, holder: Codec.Holder): (r: Decoder)
    requires d.paused && !d.closed && d.codecPresent
    ensures PhaseOf(r) == Running
    ensures r.currentHolder == Some(holder)
    ensures r.handler.Some? && r.handler.value.queue == q && r.handler.value.frameCounts == 0
    ensures Valid(d) && d.handler.Some? ==> r.handler.value.id != d.handler.value.id
    ensures r.calls == d.calls + [Codec.Configure(VideoFormat, holder), Codec.SetCallback(r.handler.value.id), Codec.Start]
    ensures r.(paused := d.paused, currentHolder := d.currentHolder, handler := d.handler,
               handlersMade := d.handlersMade, calls := d.calls) == d
    ensures Valid(d) ==> Valid(r)
  {
    var h := Handler(d.handlersMade + 1, q, 0);
    var c1 := d.calls + [Codec.Configure(VideoFormat, holder)];
    var c2 := c1 + [Codec.SetCallback(h.id)];
    var more := [Codec.Configure(VideoFormat, holder), Codec.SetCallback(h.id), Codec.Start];
    assert d.calls + more == c2 + [Codec.Start];
    Codec.ReplayAppend(d.calls, [Codec.Configure(VideoFormat, holder)]);
    Codec.ReplayAppend(c1, [Codec.SetCallback(h.id)]);
    Codec.ReplayAppend(c2, [Codec.Start]);
    d.(paused := false, currentHolder := Some(holder), handler := Some(h), handlersMade := h.id,
       calls := d.calls + more)
  }

  /** `start(dataBuffer)`: start on whatever holder is current. */
  function StartWithCurrent(d: Decoder, q: QueueRef): (r: Decoder)
    requires d.paused && !d.closed && d.codecPresent
    requires d.currentHolder.Some?
    ensures PhaseOf(r) == Running
    ensures r.currentHolder == d.currentHolder
    ensures r.handler.Some? && r.handler.value.queue == q && r.handler.value.frameCounts == 0
    ensures Valid(d) && d.handler.Some? ==> r.handler.value.id != d.handler.value.id
    ensures r.calls == d.calls + [Codec.Configure(VideoFormat, d.currentHolder.value), Codec.SetCallback(r.handler.value.id), Codec.Start]
    ensures r.(paused := d.paused, handler := d.handler, handlersMade := d.handlersMade, calls := d.calls) == d
    ensures Valid(d) ==> Valid(r)
  {
    Start(d, q, d.currentHolder.value)
  }

  /** `setSurfaceHolder`, as written: legal only while running. The given
      holder becomes current even when it is null, while output is redirected
      to the default holder's surface in that case. */
  function SetSurfaceHolder(d: Decoder, holder: Option<Codec.Holder>): (r: Decoder)
    requires !d.paused && !d.closed && d.codecPresent
    ensures PhaseOf(r) == Running
    ensures r.currentHolder == holder
    ensures r.calls == d.calls + [Codec.SetOutputSurface(if holder.Some? then holder.value else d.defaultHolder)]
    ensures r.(currentHolder := d.currentHolder, calls := d.calls) == d
    ensures Valid(d) ==> Valid(r)
  {
    var target := if holder.None? then d.defaultHolder else holder.value;
    Codec.ReplayAppend(d.calls, [Codec.SetOutputSurface(target)]);
    d.(currentHolder := holder, calls := d.calls + [Codec.SetOutputSurface(target)])
  }

  /** `setSurfaceHolder` as its documentation intends: a null argument means
      the default holder, and that holder, not null, becomes current. */
  function SetSurfaceHolderResolved(d: Decoder, holder: Option<Codec.Holder>): (r: Decoder)
    requires !d.paused && !d.closed && d.codecPresent
    ensures PhaseOf(r) == Running
    ensures r.currentHolder.Some?
    ensures holder.Some? ==> r.currentHolder == holder
    ensures holder.None? ==> r.currentHolder == Some(d.defaultHolder)
    ensures r.calls == d.calls + [Codec.SetOutputSurface(r.currentHolder.value)]
    ensures r.(currentHolder := d.currentHolder, calls := d.calls) == d
    ensures Valid(d) ==> Valid(r)
  {
    var target := if holder.None? then d.defaultHolder else holder.value;
    Codec.ReplayAppend(d.calls, [Codec.SetOutputSurface(target)]);
    d.(currentHolder := Some(target), calls := d.calls + [Codec.SetOutputSurface(target)])
  }

  /** `pause`: only a running decoder changes; it becomes paused after exactly
      one codec stop. The requires is the debug assertion on that path. */
  function Pause(d: Decoder): (r: Decoder)
    requires !d.paused && !d.closed ==> d.codecPresent
    ensures PhaseOf(d) == Running ==> r.paused && r.calls == d.calls + [Codec.Stop]
    ensures PhaseOf(d) != Running ==> r == d
    ensures r.(paused := d.paused, calls := d.calls) == d
    ensures Valid(d) ==> Valid(r) && PhaseOf(r) == (if PhaseOf(d) == Running then Paused else PhaseOf(d))
  {
    if !d.paused && !d.closed then
      Codec.ReplayAppend(d.calls, [Codec.Stop]);
      d.(paused := true, calls := d.calls + [Codec.Stop])
    else
      d
  }

  /** `close`: from any state ends closed with no codec object; a running
      decoder is paused first, and a present codec is released. */
  function Close(d: Decoder): (r: Decoder)
    requires !d.paused && !d.closed ==> d.codecPresent
    ensures PhaseOf(r) == Closed && !r.codecPresent
    ensures r.calls == d.calls + (if PhaseOf(d) == Running then [Codec.Stop] else [])
                               + (if d.codecPresent then [Codec.Release] else [])
    ensures r.(paused := d.paused, closed := d.closed, codecPresent := d.codecPresent, calls := d.calls) == d
    ensures Valid(d) ==> Valid(r)
  {
    var p := if !d.paused then Pause(d) else d;
    Codec.ReplayAppend(p.calls, [Codec.Release]);
    p.(closed := true, codecPresent := false,
       calls := if p.codecPresent then p.calls + [Codec.Release] else p.calls)
  }

  /** `isDecoderCreated`: in every valid state the codec object exists exactly
      while the decoder is not closed. */
  function IsDecoderCreated(d: Decoder): (r: bool)
    ensures Valid(d) ==> (r <==> PhaseOf(d) != Closed)
  {
    d.codecPresent
  }

  /** `enableRendering`: sets the gate; touches neither the lifecycle nor the codec. */
  function EnableRendering(d: Decoder, enable: bool): (r: Decoder)
    ensures r.renderingEnabled == enable
    ensures PhaseOf(r) == PhaseOf(d) && r.calls == d.calls && r.notified == d.notified
    ensures r.(renderingEnabled := d.renderingEnabled) == d
    ensures Valid(d) ==> Valid(r)
  {
    d.(renderingEnabled := enable)
  }

  /** The decoder after an input event, what stays in the queue, and whether
      copying the frame into the input buffer threw `BufferOverflowException`. */
  datatype Fed = Fed(decoder: Decoder, queue: seq<Frame>, overflowed: bool)

  /** Input callback for buffer `index`. `queue` is the content of the
      handler's queue; `inputBuffer` is the free room of the buffer the codec
      handed out, or `None` when it handed out none. Exactly one frame is
      polled. With a buffer, that frame (or nothing, length 0) is queued,
      unless the frame does not fit: then the copy throws, nothing is queued
      and the frame is lost. Without a buffer the polled frame is lost too. */
  function OnInputBufferAvailable(d: Decoder, queue: seq<Frame>, index: int, inputBuffer: Option<nat>): (r: Fed)
    ensures queue == [] ==> r.queue == []
    ensures queue != [] ==> queue == [queue[0]] + r.queue
    ensures r.overflowed <==> inputBuffer.Some? && queue != [] && |queue[0].payload| > inputBuffer.value
    ensures inputBuffer.Some? && queue == [] ==>
      r.decoder.calls == d.calls + [Codec.QueueInputBuffer(index, 0, [], 0, 0, 0)]
    ensures inputBuffer.Some? && queue != [] && !r.overflowed ==>
      r.decoder.calls == d.calls + [Codec.QueueInputBuffer(index, 0, queue[0].payload, |queue[0].payload|, 0, 0)]
    ensures inputBuffer.None? || r.overflowed ==> r.decoder == d
    ensures r.decoder.(calls := d.calls) == d
    ensures Valid(d) && PhaseOf(d) == Running ==> Valid(r.decoder)
  {
    var polled := Poll(queue);
    match inputBuffer
    case None => Fed(d, polled.rest, false)
    case Some(room) =>
      var data := if polled.frame.Some? then polled.frame.value.payload else [];
      if |data| > room then
        Fed(d, polled.rest, true)
      else
        var call := Codec.QueueInputBuffer(index, 0, data, |data|, 0, 0);
        Codec.ReplayAppend(d.calls, [call]);
        Fed(d.(calls := d.calls + [call]), polled.rest, false)
  }

  /** Output callback for buffer `index`: counts the event, notifies "video
      available" on the handler's first event, and releases the buffer with
      the rendering gate as render flag. */
  function OnOutputBufferAvailable(d: Decoder, index: int): (r: Decoder)
    requires d.handler.Some?
    ensures r.handler == Some(d.handler.value.(frameCounts := Increment(d.handler.value.frameCounts)))
    ensures r.notified == d.notified + (if d.handler.value.frameCounts == 0 then [VideoAvailable] else [])
    ensures r.calls == d.calls + [Codec.ReleaseOutputBuffer(index, d.renderingEnabled)]
    ensures r.(handler := d.handler, notified := d.notified, calls := d.calls) == d
    ensures Valid(d) && PhaseOf(d) == Running ==> Valid(r)
  {
    var h := d.handler.value;
    var count := Increment(h.frameCounts);
    var call := Codec.ReleaseOutputBuffer(index, d.renderingEnabled);
    Codec.ReplayAppend(d.calls, [call]);
    d.(handler := Some(h.(frameCounts := count)),
       notified := if count == 1 then d.notified + [VideoAvailable] else d.notified,
       calls := d.calls + [call])
  }

  /** Error callback: the codec's exception goes to the error callback unchanged. */
  function OnError(d: Decoder, diagnostic: string): (r: Decoder)
    ensures r.notified == d.notified + [DecoderError(Codec.CodecException(diagnostic))]
    ensures r.(notified := d.notified) == d
    ensures Valid(d) ==> Valid(r)
  {
    d.(notified := d.notified + [DecoderError(Codec.CodecException(diagnostic))])
  }

  /** Format-change callback: records the new video size anchored at the origin. */
  function OnOutputFormatChanged(d: Decoder, width: int, height: int): (r: Decoder)
    ensures r.videoSize.Some?
    ensures r.videoSize.value.left == 0 && r.videoSize.value.top == 0
    ensures r.videoSize.value.right - r.videoSize.value.left == width
    ensures r.videoSize.value.bottom - r.videoSize.value.top == height
    ensures r.(videoSize := d.videoSize) == d
    ensures Valid(d) ==> Valid(r)
  {
    d.(videoSize := Some(Rect(0, 0, width, height)))
  }

  // ---------------------------------------------------------------------
  // Properties relating several calls

  /** `pause` is idempotent. */
  lemma PauseIdempotent(d: Decoder)
    requires !d.paused && !d.closed ==> d.codecPresent
    ensures Pause(Pause(d)) == Pause(d)
  {
  }

  /** A second `close` changes nothing, and a valid decoder's log then holds
      at most one release, whatever the state the first `close` found. */
  lemma {:induction false} CloseTwice(d: Decoder)
    requires Valid(d)
    ensures Close(Close(d)) == Close(d)
    ensures Codec.Releases(Close(d).calls) <= 1
    ensures d.codecPresent ==> Codec.Releases(Close(d).calls) == 1
  {
    var r := Close(d);
    Codec.ReleasedExactlyOnce(r.calls);
    if d.codecPresent {
      Codec.ReleasedExactlyOnce(d.calls);
      var mid := d.calls + (if PhaseOf(d) == Running then [Codec.Stop] else []);
      assert r.calls == mid + [Codec.Release];
      Codec.ReleasesConcat(mid, [Codec.Release]);
      Codec.ReleasesConcat(d.calls, if PhaseOf(d) == Running then [Codec.Stop] else []);
      assert Codec.Releases([Codec.Stop]) == 0;
      assert Codec.Releases([Codec.Release]) == 1;
    }
  }

  /** The 32-bit value of a counter after `k` increments from zero. */
  function ToInt32(k: nat): int32
  {
    var m := k % 0x1_0000_0000;
    if m < 0x8000_0000 then m as int32 else (m - 0x1_0000_0000) as int32
  }

  /** One Java increment moves the counter from `k` events to `k + 1`. */
  lemma IncrementCounts(k: nat)
    ensures Increment(ToInt32(k)) == ToInt32(k + 1)
  {
  }

  /** The counter reads 0 after `k` events exactly when `k` is a multiple of
      2^32, so the next event is the one that brings it to 1. */
  lemma CounterIsOne(k: nat)
    ensures ToInt32(k) == 0 <==> k % 0x1_0000_0000 == 0
  {
  }

  /** A run of output events, one per buffer index. */
  function DeliverOutputs(d: Decoder, indices: seq<int>): Decoder
    requires d.handler.Some?
    decreases |indices|
  {
    if indices == [] then d
    else
      var next := OnOutputBufferAvailable(d, indices[0]);
      DeliverOutputs(next, indices[1..])
  }

  /** After `k` earlier events of a handler, a run of further events within
      2^32 events in all notifies "video available" once if the run contains
      the handler's first event and not at all otherwise, and releases every
      buffer, in order, with the rendering gate as render flag. */
  lemma {:induction false} OutputsNotifyOnFirstOnly(d: Decoder, indices: seq<int>, k: nat)
    requires d.handler.Some? && d.handler.value.frameCounts == ToInt32(k)
    requires k + |indices| <= 0x1_0000_0000
    ensures DeliverOutputs(d, indices).notified
            == d.notified + (if k == 0 && |indices| > 0 then [VideoAvailable] else [])
    ensures DeliverOutputs(d, indices).calls
            == d.calls + seq(|indices|, i requires 0 <= i < |indices| => Codec.ReleaseOutputBuffer(indices[i], d.renderingEnabled))
    ensures DeliverOutputs(d, indices).handler.Some?
    ensures DeliverOutputs(d, indices).handler.value.frameCounts == ToInt32(k + |indices|)
    decreases |indices|
  {
    if indices != [] {
      var next := OnOutputBufferAvailable(d, indices[0]);
      IncrementCounts(k);
      CounterIsOne(k);
      OutputsNotifyOnFirstOnly(next, indices[1..], k + 1);
      var rest := seq(|indices| - 1, i requires 0 <= i < |indices| - 1 => Codec.ReleaseOutputBuffer(indices[1..][i], d.renderingEnabled));
      var all := seq(|indices|, i requires 0 <= i < |indices| => Codec.ReleaseOutputBuffer(indices[i], d.renderingEnabled));
      assert all == [Codec.ReleaseOutputBuffer(indices[0], d.renderingEnabled)] + rest;
      if k != 0 {
        assert k % 0x1_0000_0000 != 0;
      }
    }
  }

  /** Every start re-arms the notification: after a start, up to 2^32 output
      events notify "video available" exactly once, whether or not rendering is enabled. */
  lemma NotifiesOncePerStart(d: Decoder, q: QueueRef, holder: Codec.Holder, indices: seq<int>)
    requires d.paused && !d.closed && d.codecPresent
    requires |indices| <= 0x1_0000_0000
    ensures DeliverOutputs(Start(d, q, holder), indices).notified
            == d.notified + (if |indices| > 0 then [VideoAvailable] else [])
  {
    OutputsNotifyOnFirstOnly(Start(d, q, holder), indices, 0);
  }

  /** A run of input events, each finding an input buffer with `room` free bytes. */
  function FeedInputs(d: Decoder, queue: seq<Frame>, indices: seq<int>, room: nat): Fed
    decreases |indices|
  {
    if indices == [] then Fed(d, queue, false)
    else
      var fed := OnInputBufferAvailable(d, queue, indices[0], Some(room));
      FeedInputs(fed.decoder, fed.queue, indices[1..], room)
  }

  /** The calls that queuing the first `|indices|` frames into the given buffers issues. */
  function QueuedCalls(queue: seq<Frame>, indices: seq<int>): seq<Codec.Call>
    requires |indices| <= |queue|
  {
    seq(|indices|, i requires 0 <= i < |indices| && i < |queue| =>
      Codec.QueueInputBuffer(indices[i], 0, queue[i].payload, |queue[i].payload|, 0, 0))
  }

  /** Peeling the first buffer off a run of queued calls. */
  lemma QueuedCallsCons(queue: seq<Frame>, indices: seq<int>)
    requires 0 < |indices| <= |queue|
    ensures QueuedCalls(queue, indices)
            == [Codec.QueueInputBuffer(indices[0], 0, queue[0].payload, |queue[0].payload|, 0, 0)]
               + QueuedCalls(queue[1..], indices[1..])
  {
    var all := QueuedCalls(queue, indices);
    var rest := QueuedCalls(queue[1..], indices[1..]);
    assert forall i :: 1 <= i < |indices| ==> all[i] == rest[i - 1];
  }

  /** Input buffers are filled in queue order: `n` input events whose buffers
      can hold the first `n` frames take those frames and queue each one's full
      payload into the matching buffer. */
  lemma {:induction false} InputsFollowQueueOrder(d: Decoder, queue: seq<Frame>, indices: seq<int>, room: nat)
    requires |indices| <= |queue|
    requires forall i :: 0 <= i < |indices| ==> |queue[i].payload| <= room
    ensures FeedInputs(d, queue, indices, room).queue == queue[|indices|..]
    ensures FeedInputs(d, queue, indices, room).decoder.calls
            == d.calls + seq(|indices|, i requires 0 <= i < |indices| && i < |queue| =>
                 Codec.QueueInputBuffer(indices[i], 0, queue[i].payload, |queue[i].payload|, 0, 0))
    decreases |indices|
  {
    if indices == [] {
      assert QueuedCalls(queue, indices) == [];
    } else {
      var fed := OnInputBufferAvailable(d, queue, indices[0], Some(room));
      assert |queue[0].payload| <= room;
      assert fed.queue == queue[1..];
      assert fed.decoder.calls == d.calls + [Codec.QueueInputBuffer(indices[0], 0, queue[0].payload, |queue[0].payload|, 0, 0)];
      forall i | 0 <= i < |indices[1..]|
        ensures |queue[1..][i].payload| <= room
      {
        assert queue[1..][i] == queue[i + 1];
      }
      InputsFollowQueueOrder(fed.decoder, fed.queue, indices[1..], room);
      QueuedCallsCons(queue, indices);
      assert queue[1..][|indices| - 1..] == queue[|indices|..];
      assert FeedInputs(d, queue, indices, room) == FeedInputs(fed.decoder, fed.queue, indices[1..], room);
    }
  }

  /** As written, `setSurfaceHolder(null)` followed by `pause` leaves a state
      in which `start(dataBuffer)` passes its debug assertion but has no
      current holder to take the surface from. */
  lemma NullHolderStrandsRestart(d: Decoder)
    requires Valid(d) && PhaseOf(d) == Running
    ensures var p := Pause(SetSurfaceHolder(d, None));
            p.paused && !p.closed && p.codecPresent && p.currentHolder.None?
  {
  }

  /** With the null argument resolved to the default holder, a later
      `start(dataBuffer)` configures the codec on the very surface output was
      redirected to. */
  lemma ResolvedHolderRestartsOnSameSurface(d: Decoder, holder: Option<Codec.Holder>, q: QueueRef)
    requires Valid(d) && PhaseOf(d) == Running
    ensures var s := SetSurfaceHolderResolved(d, holder);
            var p := Pause(s);
            && p.paused && !p.closed && p.codecPresent && p.currentHolder.Some?
            && s.calls[|s.calls| - 1] == Codec.SetOutputSurface(p.currentHolder.value)
            && StartWithCurrent(p, q).calls[|p.calls|] == Codec.Configure(VideoFormat, p.currentHolder.value)
  {
  }
}
