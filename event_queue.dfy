/**
 * The `queue.Queue` the watcher thread fills and the page drains. The model is
 * single-threaded: the queue is the sequence of items not yet taken, oldest first.
 */
module EventQueue {
  class Queue<T> {
    var items: seq<T>

    constructor ()
      ensures items == []
    {
      items := [];
    }

    /** `put`: the queue is unbounded, so the item always goes in at the back. */
    method Put(x: T)
      modifies this
      ensures items == old(items) + [x]
    {
      items := items + [x];
    }

    /** `empty`: true exactly when nothing is pending. */
    method Empty() returns (isEmpty: bool)
      ensures isEmpty <==> items == []
    {
      isEmpty := items == [];
    }

    /** `get`: removes and returns the oldest item. Callers only call it after
        `empty()` said False (on an empty queue it would block). */
    method Get() returns (x: T)
      requires items != []
      modifies this
      ensures x == old(items)[0]
      ensures items == old(items)[1..]
    {
      x := items[0];
      items := items[1..];
    }
  }
}
