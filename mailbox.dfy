/**
 * A bounded mailbox (the sending side of a bounded `mpsc` channel). Sending
 * never blocks: `TrySend` fails at once when the mailbox is full.
 */
module Mailboxes {
  class Mailbox<T> {
    /** The messages sent and not yet taken by the receiver, oldest first. */
    var queue: seq<T>
    /** How many messages the mailbox can hold. */
    const capacity: nat

    ghost predicate Valid()
      reads this
    {
      |queue| <= capacity
    }

    constructor (capacity: nat)
      ensures Valid() && queue == [] && this.capacity == capacity
    {
      this.capacity := capacity;
      queue := [];
    }

    /** `try_send`: appends `m` unless the mailbox is full, and says which happened. */
    method TrySend(m: T) returns (ok: bool)
      requires Valid()
      modifies this
      ensures Valid()
      ensures ok <==> |old(queue)| < capacity
      ensures queue == if ok then old(queue) + [m] else old(queue)
    {
      ok := |queue| < capacity;
      if ok {
        queue := queue + [m];
      }
    }
  }
}
