/**
 * The `make-message-bus` runtime: a topic owns the sending side of a bounded
 * broadcast channel, and a subscriber wraps a receiver and counts, in
 * `missedMessages`, every message the channel reports it lagged past.
 */
module MessageBus {
  import opened Wrappers
  import opened Broadcast

  /**
   * One `try_recv` of the wrapper at `cursor`: a read, and when that read
   * lags, one more read from the oldest retained message. Yields the value
   * returned, the new cursor and the lag added to the counter.
   */
  function RetryRead<T>(log: seq<T>, capacity: nat, cursor: nat): (Option<T>, nat, nat)
    requires cursor <= |log|
  {
    var (first, afterFirst) := Read(log, capacity, cursor);
    if first.Lagged? then
      var (second, afterSecond) := Read(log, capacity, afterFirst);
      (if second.Received? then Some(second.value) else None, afterSecond, first.skipped)
    else
      (if first.Received? then Some(first.value) else None, afterFirst, 0)
  }

  /**
   * The retrying read in closed form. It returns nothing exactly when nothing
   * is unread; otherwise it returns the oldest unread message still retained.
   * It counts as lost exactly the unread messages that fell out of the
   * window. Every message it moves past is either returned or counted.
   */
  lemma RetryReadMeaning<T>(log: seq<T>, capacity: nat, cursor: nat)
    requires capacity >= 1 && cursor <= |log|
    ensures var (v, next, lag) := RetryRead(log, capacity, cursor);
      var from := if cursor < Oldest(|log|, capacity) then Oldest(|log|, capacity) else cursor;
      && (v.None? <==> cursor == |log|)
      && (v.Some? ==> v.value == log[from] && next == from + 1)
      && lag == from - cursor
      && next == cursor + lag + (if v.Some? then 1 else 0)
  {
    var (first, afterFirst) := Read(log, capacity, cursor);
    if first.Lagged? {
      LagThenReceive(log, capacity, cursor);
    }
  }

  /** After a wrapper read the subscriber is inside the retained window, so it lags no more. */
  lemma {:induction false} RetryReadCatchesUp<T>(log: seq<T>, capacity: nat, cursor: nat)
    requires capacity >= 1 && cursor <= |log|
    ensures var next := RetryRead(log, capacity, cursor).1;
      next <= |log| && !Read(log, capacity, next).0.Lagged?
  {
    var (first, afterFirst) := Read(log, capacity, cursor);
    if first.Lagged? {
      NoLagTwice(log, capacity, cursor);
      LagThenReceive(log, capacity, cursor);
    }
  }

  /** `Topic<T>`: the sender of one broadcast channel. */
  class Topic<T> {
    const sender: Channel<T>

    /**
     * `Topic::new::<CAP>()`: a channel of capacity `CAP`, with nothing sent
     * and no subscriber. Any `CAP` is accepted here, zero included; a zero
     * capacity is refused at the channel's first use (`Subscribe`, `Publish`).
     */
    constructor New(capacity: nat)
      ensures fresh(sender)
      ensures sender.capacity == capacity && sender.log == [] && sender.receivers == 0
    {
      sender := new Channel(capacity);
    }

    /** A subscriber that sees only what is published from now on and has missed nothing yet. */
    method Subscribe() returns (s: Subscriber<T>)
      requires sender.capacity >= 1
      modifies sender
      ensures fresh(s) && fresh(s.recv) && s.recv.channel == sender && s.Valid()
      ensures s.recv.next == |sender.log| && s.missedMessages == 0
      ensures sender.log == old(sender.log) && sender.receivers == old(sender.receivers) + 1
    {
      var recv := sender.Subscribe();
      s := new Subscriber(recv);
    }

    /**
     * Publishing never fails: with no subscriber the send error is dropped
     * and the message is not kept.
     */
    method Publish(payload: T)
      requires sender.capacity >= 1
      modifies sender
      ensures sender.log == if old(sender.receivers) > 0 then old(sender.log) + [payload] else old(sender.log)
      ensures sender.receivers == old(sender.receivers)
    {
      var _ := sender.Send(payload);
    }
  }

  /** `Subscriber<T>`: a receiver and the number of messages lost since last asked. */
  class Subscriber<T> {
    const recv: Receiver<T>
    var missedMessages: nat
    /** Cursor at subscription, messages returned, and messages ever counted as lost. */
    ghost var start: nat
    ghost var delivered: nat
    ghost var lost: nat

    /**
     * Every message published since subscribing has been returned, counted
     * as lost, or is still ahead of the cursor; the pending counter is part
     * of what was counted.
     */
    ghost predicate Valid()
      reads this, recv, recv.channel
    {
      && recv.Valid()
      && start + delivered + lost == recv.next
      && missedMessages <= lost
    }

    constructor (recv: Receiver<T>)
      requires recv.Valid()
      ensures this.recv == recv && missedMessages == 0 && Valid()
      ensures start == recv.next && delivered == 0 && lost == 0
    {
      this.recv := recv;
      missedMessages := 0;
      start := recv.next;
      delivered := 0;
      lost := 0;
    }

    /** `try_recv`: retries past lags, adding each to the counter; `None` only when the channel is empty. */
    method TryRecv() returns (r: Option<T>)
      requires Valid()
      modifies this, recv
      ensures Valid() && start == old(start)
      ensures var (v, next, lag) := RetryRead(recv.channel.log, recv.channel.capacity, old(recv.next));
        && r == v && recv.next == next
        && missedMessages == old(missedMessages) + lag
        && lost == old(lost) + lag
        && delivered == old(delivered) + (if r.Some? then 1 else 0)
    {
      ghost var log := recv.channel.log;
      ghost var capacity := recv.channel.capacity;
      ghost var cursor := recv.next;
      ghost var first := Read(log, capacity, cursor);
      while true
        invariant Valid() && start == old(start) && delivered == old(delivered)
        invariant || (recv.next == cursor && missedMessages == old(missedMessages) && lost == old(lost))
                  || (&& first.0.Lagged? && recv.next == first.1
                      && missedMessages == old(missedMessages) + first.0.skipped && lost == old(lost) + first.0.skipped)
        decreases if recv.next < Oldest(|log|, capacity) then 1 else 0
      {
        var outcome := recv.TryRecv();
        match outcome {
          case Received(v) =>
            delivered := delivered + 1;
            return Some(v);
          case Empty =>
            return None;
          case Lagged(n) =>
            missedMessages := missedMessages + n;
            lost := lost + n;
        }
      }
    }

    /**
     * `recv`, for a call that finds a message already published: retries past
     * lags like `TryRecv` and returns the message.
     */
    method Recv() returns (msg: T)
      requires Valid() && !recv.IsEmpty()
      modifies this, recv
      ensures Valid() && start == old(start)
      ensures var (v, next, lag) := RetryRead(recv.channel.log, recv.channel.capacity, old(recv.next));
        && v == Some(msg) && recv.next == next
        && missedMessages == old(missedMessages) + lag
        && lost == old(lost) + lag
        && delivered == old(delivered) + 1
    {
      ghost var log := recv.channel.log;
      ghost var capacity := recv.channel.capacity;
      ghost var cursor := recv.next;
      ghost var first := Read(log, capacity, cursor);
      RetryReadMeaning(log, capacity, cursor);
      while true
        invariant Valid() && start == old(start) && delivered == old(delivered)
        invariant || (recv.next == cursor && missedMessages == old(missedMessages) && lost == old(lost))
                  || (&& first.0.Lagged? && recv.next == first.1
                      && missedMessages == old(missedMessages) + first.0.skipped && lost == old(lost) + first.0.skipped)
        decreases if recv.next < Oldest(|log|, capacity) then 1 else 0
      {
        var outcome := recv.TryRecv();
        match outcome {
          case Received(v) =>
            delivered := delivered + 1;
            return v;
          case Lagged(n) =>
            missedMessages := missedMessages + n;
            lost := lost + n;
        }
      }
    }

    /**
     * `is_empty`: nothing unread, which is exactly when the next `TryRecv`
     * would return nothing.
     */
    predicate IsEmpty(): (e: bool)
      reads this, recv, recv.channel
      ensures recv.Valid() ==>
        (e <==> RetryRead(recv.channel.log, recv.channel.capacity, recv.next).0.None?)
    {
      if recv.Valid() then
        RetryReadMeaning(recv.channel.log, recv.channel.capacity, recv.next);
        recv.IsEmpty()
      else
        recv.IsEmpty()
    }

    /** `messages_lost`: the count since the last call, which it resets to zero. */
    method MessagesLost() returns (n: nat)
      requires Valid()
      modifies this
      ensures n == old(missedMessages) && missedMessages == 0
      ensures Valid() && start == old(start) && delivered == old(delivered) && lost == old(lost)
    {
      n := missedMessages;
      missedMessages := 0;
    }
  }

  /**
   * A subscriber of a capacity-2 topic that falls four messages behind gets
   * the third message, learns that two were lost, and on asking again learns
   * of none.
   */
  method LagScenario() returns (first: Option<int>, lost: nat, lostAgain: nat)
    ensures first == Some(3) && lost == 2 && lostAgain == 0
  {
    var topic := new Topic<int>.New(2);
    var s := topic.Subscribe();
    topic.Publish(1);
    topic.Publish(2);
    topic.Publish(3);
    topic.Publish(4);
    assert topic.sender.log == [1, 2, 3, 4];
    first := s.TryRecv();
    lost := s.MessagesLost();
    lostAgain := s.MessagesLost();
  }
}
