/**
 * The conversion queue: `mpsc::sync_channel`, a bounded FIFO channel with
 * one sending side per request handler and the worker as its only receiver.
 */
module Queue {

  class Channel<T> {
    /** The bound given to `sync_channel`. */
    const capacity: nat
    /** Items sent and not yet received, oldest first. */
    var buffer: seq<T>

    ghost predicate Valid()
      reads this
    {
      |buffer| <= capacity
    }

    /** `mpsc::sync_channel(capacity)` */
    constructor (capacity: nat)
      ensures Valid() && this.capacity == capacity && buffer == []
    {
      this.capacity := capacity;
      buffer := [];
    }

    /**
     * `SyncSender::send`: a full channel makes the sender wait until the
     * receiver takes an item, so the call completes only when there is room.
     */
    method Send(x: T)
      requires Valid() && |buffer| < capacity
      modifies this
      ensures Valid() && buffer == old(buffer) + [x]
    {
      buffer := buffer + [x];
    }

    /**
     * `Receiver::recv`: an empty channel makes the receiver wait for a sender,
     * so the call completes only when an item is there; it is the oldest one.
     */
    method Recv() returns (x: T)
      requires Valid() && buffer != []
      modifies this
      ensures Valid() && x == old(buffer)[0] && buffer == old(buffer)[1..]
    {
      x := buffer[0];
      buffer := buffer[1..];
    }
  }
}
