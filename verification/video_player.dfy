/**
 The video player's coordination of its decoder: storing the frame buffer,
 following the default display's surface lifecycle, restarting playback,
 the one-way fullscreen switch, and what it does with the decoder's
 notifications. Views, visibility and screen handling are not modelled.
 */
module VideoPlayer {
  import opened Wrappers
  import opened FrameQueue
  import Codec
  import D = H264Decoder

  datatype Player = Player(
    decoder: D.Decoder,
    dataBuffer: Option<QueueRef>,
    defaultDisplayCreated: bool,
    fullscreenMode: bool,
    fullscreenRequests: nat)

  /** What the player's callbacks do with one decoder notification: tell the
      owner that video loaded, tell it the decoder failed fatally, throw
      "Not implemented", or nothing. */
  datatype Reaction = VideoLoaded | DecoderFatalError | NotImplementedThrown | Ignored

  /** The error callback: an IOException is fatal, a codec exception is not
      handled yet, and any other exception is ignored. */
  function ClassifyDecoderError(e: Codec.Exception): (r: Reaction)
    ensures r == DecoderFatalError <==> e.IOException?
    ensures r == NotImplementedThrown <==> e.CodecException?
    ensures r == Ignored <==> e.OtherException?
  {
    match e
    case IOException(_) => DecoderFatalError
    case CodecException(_) => NotImplementedThrown
    case OtherException(_) => Ignored
  }

  /** Both callbacks handed to the decoder: "video available" means loaded. */
  function React(n: D.Notification): (r: Reaction)
    ensures n.VideoAvailable? <==> r == VideoLoaded
    ensures n.DecoderError? ==> r == ClassifyDecoderError(n.exception)
  {
    match n
    case VideoAvailable => VideoLoaded
    case DecoderError(e) => ClassifyDecoderError(e)
  }

  /** The player's reactions to a log of notifications, one per notification, in order. */
  function Reactions(notes: seq<D.Notification>): (r: seq<Reaction>)
    ensures |r| == |notes|
    ensures forall i :: 0 <= i < |notes| ==> r[i] == React(notes[i])
    decreases |notes|
  {
    if notes == [] then []
    else Reactions(notes[..|notes| - 1]) + [React(notes[|notes| - 1])]
  }

  /** Reachable players: a valid decoder whose current holder is never null,
      since the player never redirects output. */
  predicate Inv(p: Player)
  {
    D.Valid(p.decoder) && p.decoder.currentHolder.Some?
  }

  /** Construction: no buffer, no surface yet, not fullscreen; if the decoder
      could not be created the owner hears one fatal error and nothing else. */
  function New(defaultHolder: Codec.Holder, creation: D.Creation): (r: Player)
    ensures Inv(r)
    ensures r.dataBuffer.None? && !r.defaultDisplayCreated && !r.fullscreenMode && r.fullscreenRequests == 0
    ensures D.PhaseOf(r.decoder) == (if creation.Created? then D.Idle else D.Closed)
    ensures Reactions(r.decoder.notified) == (if creation.CreationFailed? then [DecoderFatalError] else [])
  {
    Player(D.Create(defaultHolder, creation), None, false, false, 0)
  }

  /** The outcome of a player operation: it went through, or the decoder's
      debug assertion in `start` threw, leaving the player as it was then. */
  datatype Outcome = Continue(player: Player) | AssertionError(player: Player)

  /** `startVideoPlaying`: without a buffer nothing happens; otherwise pause,
      enable rendering, and start on the current holder with the buffer. The
      start's precondition fails exactly when the decoder is closed. */
  function StartVideoPlaying(p: Player): (r: Outcome)
    requires Inv(p)
    ensures r.AssertionError? <==> p.dataBuffer.Some? && D.PhaseOf(p.decoder) == D.Closed
    ensures p.dataBuffer.None? ==> r == Continue(p)
    ensures r.Continue? && p.dataBuffer.Some? ==>
      && D.PhaseOf(r.player.decoder) == D.Running
      && r.player.decoder.renderingEnabled
      && r.player.decoder.handler.Some?
      && r.player.decoder.handler.value.queue == p.dataBuffer.value
      && r.player.decoder.handler.value.frameCounts == 0
      && r.player.decoder.currentHolder == p.decoder.currentHolder
      && r.player.decoder.calls == p.decoder.calls
           + (if D.PhaseOf(p.decoder) == D.Running then [Codec.Stop] else [])
           + [Codec.Configure(D.VideoFormat, p.decoder.currentHolder.value),
              Codec.SetCallback(r.player.decoder.handler.value.id), Codec.Start]
    ensures r.AssertionError? ==> r.player.decoder.calls == p.decoder.calls
    ensures r.Continue? ==> Inv(r.player)
    ensures r.player.(decoder := p.decoder) == p
  {
    match p.dataBuffer
    case None => Continue(p)
    case Some(q) =>
      var paused := D.Pause(p.decoder);
      var enabled := D.EnableRendering(paused, true);
      if enabled.paused && !enabled.closed && enabled.codecPresent then
        Continue(p.(decoder := D.StartWithCurrent(enabled, q)))
      else
        AssertionError(p.(decoder := enabled))
  }

  /** `begin`: the buffer is always stored; playback starts only if the
      default surface already exists. */
  function Begin(p: Player, q: QueueRef): (r: Outcome)
    requires Inv(p)
    ensures r.player.dataBuffer == Some(q)
    ensures !p.defaultDisplayCreated ==> r == Continue(p.(dataBuffer := Some(q)))
    ensures p.defaultDisplayCreated ==> r == StartVideoPlaying(p.(dataBuffer := Some(q)))
    ensures p.defaultDisplayCreated && D.PhaseOf(p.decoder) != D.Closed ==>
      && r.Continue? && D.PhaseOf(r.player.decoder) == D.Running
      && r.player.decoder.handler.Some? && r.player.decoder.handler.value.queue == q
  {
    var stored := p.(dataBuffer := Some(q));
    if p.defaultDisplayCreated then StartVideoPlaying(stored) else Continue(stored)
  }

  /** Surface created: the flag is set and playback is attempted. */
  function SurfaceCreated(p: Player): (r: Outcome)
    requires Inv(p)
    ensures r.player.defaultDisplayCreated
    ensures r == StartVideoPlaying(p.(defaultDisplayCreated := true))
    ensures p.dataBuffer.None? ==> r.Continue? && r.player.decoder == p.decoder
    ensures p.dataBuffer.Some? && D.PhaseOf(p.decoder) != D.Closed ==>
      r.Continue? && D.PhaseOf(r.player.decoder) == D.Running
  {
    StartVideoPlaying(p.(defaultDisplayCreated := true))
  }

  /** Surface destroyed: only the flag is cleared; the decoder keeps running. */
  function SurfaceDestroyed(p: Player): (r: Player)
    ensures !r.defaultDisplayCreated
    ensures r.decoder == p.decoder
    ensures r.(defaultDisplayCreated := p.defaultDisplayCreated) == p
  {
    p.(defaultDisplayCreated := false)
  }

  /** Fullscreen toggle click: the owner is asked on every click; the mode is
      switched on when the owner agrees and is never switched off. */
  function FullscreenClick(p: Player, granted: bool): (r: Player)
    ensures r.fullscreenRequests == p.fullscreenRequests + 1
    ensures r.fullscreenMode <==> p.fullscreenMode || granted
    ensures r.decoder == p.decoder && r.dataBuffer == p.dataBuffer
    ensures r.defaultDisplayCreated == p.defaultDisplayCreated
  {
    var asked := p.(fullscreenRequests := p.fullscreenRequests + 1);
    if granted && !p.fullscreenMode then asked.(fullscreenMode := true) else asked
  }

  /** `pause` (and the decoder part of `error`): delegated to the decoder. */
  function Pause(p: Player): (r: Player)
    requires Inv(p)
    ensures r.decoder == D.Pause(p.decoder)
    ensures D.PhaseOf(r.decoder) == (if D.PhaseOf(p.decoder) == D.Running then D.Paused else D.PhaseOf(p.decoder))
    ensures Inv(r)
    ensures r.(decoder := p.decoder) == p
  {
    p.(decoder := D.Pause(p.decoder))
  }

  /** `close`: delegated to the decoder, which ends closed. */
  function Close(p: Player): (r: Player)
    requires Inv(p)
    ensures r.decoder == D.Close(p.decoder)
    ensures D.PhaseOf(r.decoder) == D.Closed
    ensures Inv(r)
    ensures r.(decoder := p.decoder) == p
  {
    p.(decoder := D.Close(p.decoder))
  }

  /** A codec runtime error reaches the owner as "Not implemented", never as fatal. */
  lemma {:induction false} RuntimeErrorIsNotFatal(d: D.Decoder, diagnostic: string)
    ensures Reactions(D.OnError(d, diagnostic).notified) == Reactions(d.notified) + [NotImplementedThrown]
  {
    var n := D.OnError(d, diagnostic).notified;
    assert n[..|n| - 1] == d.notified;
  }

  datatype PlayerOp =
    | BeginOp(queue: QueueRef)
    | SurfaceCreatedOp
    | SurfaceDestroyedOp
    | PauseOp
    | ErrorOp
    | CloseOp
    | FullscreenClickOp(granted: bool)

  function PlayerStep(p: Player, op: PlayerOp): Outcome
    requires Inv(p)
  {
    match op
    case BeginOp(q) => Begin(p, q)
    case SurfaceCreatedOp => SurfaceCreated(p)
    case SurfaceDestroyedOp => Continue(SurfaceDestroyed(p))
    case PauseOp => Continue(Pause(p))
    case ErrorOp => Continue(Pause(p))
    case CloseOp => Continue(Close(p))
    case FullscreenClickOp(granted) => Continue(FullscreenClick(p, granted))
  }

  /** The decoder is started only by a step after which a buffer is set, the
      surface exists, and the new handler reads that buffer. */
  lemma StartsOnlyWhenReady(p: Player, op: PlayerOp)
    requires Inv(p)
    ensures var r := PlayerStep(p, op);
            r.Continue? && r.player.decoder.handlersMade != p.decoder.handlersMade ==>
              && r.player.dataBuffer.Some?
              && r.player.defaultDisplayCreated
              && r.player.decoder.handler.Some?
              && r.player.decoder.handler.value.queue == r.player.dataBuffer.value
  {
  }

  /** Applies player operations in order, stopping at a thrown assertion. */
  function PlayerRun(p: Player, ops: seq<PlayerOp>): Outcome
    requires Inv(p)
    decreases |ops|
  {
    if ops == [] then Continue(p)
    else
      match PlayerStep(p, ops[0])
      case AssertionError(q) => AssertionError(q)
      case Continue(q) =>
        StepKeepsInv(p, ops[0]);
        PlayerRun(q, ops[1..])
  }

  lemma StepKeepsInv(p: Player, op: PlayerOp)
    requires Inv(p)
    ensures PlayerStep(p, op).Continue? ==> Inv(PlayerStep(p, op).player)
  {
  }

  /** Over any run: the invariant holds, fullscreen once on stays on, and an
      assertion can only come from starting a closed decoder with a buffer set. */
  lemma {:induction false} PlayerRunFacts(p: Player, ops: seq<PlayerOp>)
    requires Inv(p)
    ensures PlayerRun(p, ops).Continue? ==> Inv(PlayerRun(p, ops).player)
    ensures p.fullscreenMode ==> PlayerRun(p, ops).player.fullscreenMode
    ensures PlayerRun(p, ops).AssertionError? ==>
              D.PhaseOf(PlayerRun(p, ops).player.decoder) == D.Closed && PlayerRun(p, ops).player.dataBuffer.Some?
    decreases |ops|
  {
    if ops != [] {
      StepKeepsInv(p, ops[0]);
      var r := PlayerStep(p, ops[0]);
      if r.Continue? {
        PlayerRunFacts(r.player, ops[1..]);
      }
    }
  }
}
