/**
 The platform codec, seen only through the calls made to it. Surfaces and
 surface holders are opaque handles; every call the decoder issues is appended
 to a log, and a small lifecycle automaton says which call sequences a codec accepts.
 */
module Codec {
  import opened Wrappers

  /** A surface holder; its surface is identified with the holder itself. */
  datatype Holder = Holder(id: nat)

  /** The media format handed to `configure` (codec-specific data is not modelled). */
  datatype Format = Format(mime: string, width: int, height: int)

  /** The exceptions that reach the decoder's error callback. */
  datatype Exception =
    | IOException(message: string)
    | CodecException(diagnostic: string)
    | OtherException(message: string)

  /** One call made on the codec object. */
  datatype Call =
    | Configure(format: Format, surface: Holder)
    | SetCallback(handler: nat)
    | Start
    | Stop
    | Release
    | SetOutputSurface(surface: Holder)
    | QueueInputBuffer(index: int, offset: int, data: seq<bv8>, size: int, timeUs: int, flags: int)
    | ReleaseOutputBuffer(index: int, render: bool)

  /** Lifecycle states of a codec instance. `Stop` returns it to `Uninitialized`,
      from where it can be configured again; `Released` is final. */
  datatype State = Uninitialized | Configured | Executing | Released

  /** The state after one call, or `None` when the call is illegal in `s`. */
  function Next(s: State, c: Call): Option<State>
  {
    match c
    case Configure(_, _) => if s == Uninitialized then Some(Configured) else None
    case SetCallback(_) => if s == Uninitialized || s == Configured then Some(s) else None
    case Start => if s == Configured then Some(Executing) else None
    case Stop => if s == Executing then Some(Uninitialized) else None
    case Release => if s != Released then Some(Released) else None
    case SetOutputSurface(_) => if s == Configured || s == Executing then Some(s) else None
    case QueueInputBuffer(_, _, _, _, _, _) => if s == Executing then Some(s) else None
    case ReleaseOutputBuffer(_, _) => if s == Executing then Some(s) else None
  }

  /** Runs the automaton over `cs` from `start`; `None` once any call was illegal. */
  function RunFrom(start: Option<State>, cs: seq<Call>): Option<State>
    decreases |cs|
  {
    if cs == [] then start
    else
      match RunFrom(start, cs[..|cs| - 1])
      case None => None
      case Some(s) => Next(s, cs[|cs| - 1])
  }

  /** The state a fresh codec reaches after the logged calls. */
  function Replay(log: seq<Call>): Option<State>
  {
    RunFrom(Some(Uninitialized), log)
  }

  /** Number of `Release` calls in a log. */
  function Releases(log: seq<Call>): nat
    decreases |log|
  {
    if log == [] then 0
    else Releases(log[..|log| - 1]) + (if log[|log| - 1].Release? then 1 else 0)
  }

  /** Running over a concatenation is running over each part in turn. */
  lemma {:induction false} RunFromConcat(start: Option<State>, a: seq<Call>, b: seq<Call>)
    ensures RunFrom(start, a + b) == RunFrom(RunFrom(start, a), b)
    decreases |b|
  {
    if b == [] {
      assert a + b == a;
    } else {
      var b' := b[..|b| - 1];
      assert (a + b)[..|a + b| - 1] == a + b';
      assert (a + b)[|a + b| - 1] == b[|b| - 1];
      RunFromConcat(start, a, b');
    }
  }

  /** Appending calls to a log continues the replay from where the log left off. */
  lemma ReplayAppend(log: seq<Call>, more: seq<Call>)
    ensures Replay(log + more) == RunFrom(Replay(log), more)
  {
    RunFromConcat(Some(Uninitialized), log, more);
  }

  /** Release counting is additive over concatenation. */
  lemma {:induction false} ReleasesConcat(a: seq<Call>, b: seq<Call>)
    ensures Releases(a + b) == Releases(a) + Releases(b)
    decreases |b|
  {
    if b == [] {
      assert a + b == a;
    } else {
      var b' := b[..|b| - 1];
      assert (a + b)[..|a + b| - 1] == a + b';
      assert (a + b)[|a + b| - 1] == b[|b| - 1];
      ReleasesConcat(a, b');
    }
  }

  /** In any log the codec accepts, `Release` occurs at most once, and exactly
      once precisely when the codec ends up released. */
  lemma {:induction false} ReleasedExactlyOnce(log: seq<Call>)
    requires Replay(log).Some?
    ensures Releases(log) == (if Replay(log) == Some(Released) then 1 else 0)
    decreases |log|
  {
    if log != [] {
      var prefix := log[..|log| - 1];
      assert Replay(prefix).Some?;
      ReleasedExactlyOnce(prefix);
    }
  }
}
