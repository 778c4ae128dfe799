/** The bounded queue of received frames (grpc_service.cpp:181-185). */
module FrameQueue {
  import opened Packing

  const QUEUE_LIMIT: nat := 64

  /** A push that first drops the oldest frame when the queue is full. */
  function Enqueued(q: seq<Frame>, f: Frame): seq<Frame> {
    (if |q| >= QUEUE_LIMIT then q[1..] else q) + [f]
  }
}
