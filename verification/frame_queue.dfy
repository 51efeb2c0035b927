/**
 The caller-supplied queue of encoded frames. The producer appends at the tail;
 the decoder's input callback takes frames from the head without blocking.
 */
module FrameQueue {
  import opened Wrappers

  /** One encoded access unit. `payload` holds the bytes between the buffer's
      position and its limit, so `|payload|` is what the buffer reports as remaining. */
  datatype Frame = Frame(payload: seq<bv8>)

  /** Identity of a queue object; the same queue may be handed to several starts. */
  datatype QueueRef = QueueRef(id: nat)

  /** Outcome of one non-blocking poll: the head frame, if any, and what stays queued. */
  datatype Polled = Polled(frame: Option<Frame>, rest: seq<Frame>)

  /** Non-blocking poll: removes and returns the head, or reports no frame when empty. */
  function Poll(q: seq<Frame>): (r: Polled)
    ensures r.frame.None? <==> q == []
    ensures r.frame.None? ==> r.rest == []
    ensures r.frame.Some? ==> q == [r.frame.value] + r.rest
  {
    if q == [] then Polled(None, []) else Polled(Some(q[0]), q[1..])
  }

  /** Producer side: appends `f` behind everything already queued. */
  function Offer(q: seq<Frame>, f: Frame): (r: seq<Frame>)
    ensures |r| == |q| + 1
    ensures r[..|q|] == q && r[|q|] == f
  {
    q + [f]
  }
}
