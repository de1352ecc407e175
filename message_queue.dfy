/** The message queue of the traffic light, seen sequentially.
    Without its mutex and condition variable the queue is a growable buffer:
    `send` pushes at the back and `receive` pops from the back, so the
    buffer behaves as a last-in/first-out stack. A `receive` that would block
    on an empty buffer is excluded by its precondition. */
module MessageQueues {

  /** The buffer of a message queue. */
  class MessageQueue<T> {
    var queue: seq<T>

    /** A new queue holds no messages. */
    constructor ()
      ensures queue == []
    {
      queue := [];
    }

    /** Appends `msg` at the back; every earlier message keeps its place. */
    method Send(msg: T)
      modifies this
      ensures queue == old(queue) + [msg]
    {
      queue := queue + [msg];
    }

    /** Removes and returns the most recently sent message. The source blocks
        until the buffer is non-empty; here that is the caller's obligation. */
    method Receive() returns (msg: T)
      requires |queue| > 0
      modifies this
      ensures msg == old(queue)[|old(queue)| - 1]
      ensures queue == old(queue)[..|old(queue)| - 1]
    {
      msg := queue[|queue| - 1];
      queue := queue[..|queue| - 1];
    }
  }

  /** `n` receives in a row on buffer `s`: the messages in the order they are
      returned, and the buffer that is left. */
  function ReceiveMany<T>(s: seq<T>, n: nat): (r: (seq<T>, seq<T>))
    requires n <= |s|
    ensures |r.0| == n && r.1 == s[..|s| - n]
    ensures forall i :: 0 <= i < n ==> r.0[i] == s[|s| - 1 - i]
  {
    if n == 0 then ([], s)
    else
      var (got, rest) := ReceiveMany(s, n - 1);
      (got + [rest[|rest| - 1]], rest[..|rest| - 1])
  }

  /** The reverse of a sequence, as a reference for the order of receives. */
  function Reversed<T>(s: seq<T>): (r: seq<T>)
  {
    if s == [] then [] else Reversed(s[1..]) + [s[0]]
  }

  lemma {:induction false} ReversedIndex<T>(s: seq<T>, i: nat)
    requires i < |s|
    ensures |Reversed(s)| == |s|
    ensures Reversed(s)[i] == s[|s| - 1 - i]
  {
    if |s| == 1 {
    } else if i < |s| - 1 {
      ReversedIndex(s[1..], i);
    } else {
      ReversedLength(s[1..]);
    }
  }

  lemma {:induction false} ReversedLength<T>(s: seq<T>)
    ensures |Reversed(s)| == |s|
  {
    if s != [] {
      ReversedLength(s[1..]);
    }
  }

  /** Sending `xs` one by one and then receiving `|xs|` times returns the
      messages of `xs` in reverse order, each once, and leaves the buffer as
      it was before the sends. */
  lemma {:induction false} SendsThenReceivesReverse<T>(s: seq<T>, xs: seq<T>)
    ensures ReceiveMany(s + xs, |xs|) == (Reversed(xs), s)
  {
    var buf := s + xs;
    var r := ReceiveMany(buf, |xs|);
    ReversedLength(xs);
    forall i | 0 <= i < |xs|
      ensures r.0[i] == Reversed(xs)[i]
    {
      assert r.0[i] == buf[|buf| - 1 - i];
      ReversedIndex(xs, i);
    }
    assert r.0 == Reversed(xs);
    assert r.1 == s by {
      assert buf[..|s|] == s;
    }
  }

  /** One send followed by one receive returns the message sent and restores
      the buffer. */
  lemma SendReceiveRoundTrip<T>(s: seq<T>, m: T)
    ensures ReceiveMany(s + [m], 1) == ([m], s)
  {
    SendsThenReceivesReverse(s, [m]);
    assert Reversed([m]) == [m] by {
      assert [m][1..] == [];
    }
  }

  /** `Send` then `Receive` on a queue object: the message comes back and the
      buffer is exactly as before. */
  method SendThenReceive<T>(q: MessageQueue<T>, m: T) returns (got: T)
    modifies q
    ensures got == m && q.queue == old(q.queue)
  {
    q.Send(m);
    got := q.Receive();
  }

  /** All of `xs` sent, then as many receives: they come back reversed and
      the buffer is as it was. */
  method SendAllThenReceiveAll<T>(q: MessageQueue<T>, xs: seq<T>) returns (got: seq<T>)
    modifies q
    ensures got == Reversed(xs) && q.queue == old(q.queue)
  {
    for i := 0 to |xs|
      invariant q.queue == old(q.queue) + xs[..i]
    {
      q.Send(xs[i]);
    }
    assert xs[..|xs|] == xs;
    ghost var sent := q.queue;
    got := [];
    for i := 0 to |xs|
      invariant (got, q.queue) == ReceiveMany(sent, i)
    {
      var m := q.Receive();
      got := got + [m];
    }
    SendsThenReceivesReverse(old(q.queue), xs);
  }
}
