/**
 * The `async-bus` runtime: every topic is a broadcast channel of capacity 1,
 * and a subscriber skips lags silently, keeping no count of what it lost.
 */
module AsyncBus {
  import opened Wrappers
  import opened Broadcast
  import MessageBus

  /** The capacity of every `async-bus` channel. */
  const CAPACITY: nat := 1

  /**
   * With a single retained message, a read that finds anything unread
   * returns the latest message published, whatever it missed before.
   */
  lemma {:induction false} LatestOnly<T>(log: seq<T>, cursor: nat)
    requires cursor <= |log|
    ensures var (v, next, _) := MessageBus.RetryRead(log, CAPACITY, cursor);
      && (cursor == |log| ==> v == None && next == cursor)
      && (cursor < |log| ==> v == Some(log[|log| - 1]) && next == |log|)
  {
    MessageBus.RetryReadMeaning(log, CAPACITY, cursor);
    if cursor < |log| {
      assert Oldest(|log|, CAPACITY) == |log| - 1;
    }
  }

  /** `Topic<T>`: the sender of one capacity-1 broadcast channel. */
  class Topic<T> {
    const sender: Channel<T>

    /** `Topic::new()` */
    constructor New()
      ensures fresh(sender)
      ensures sender.capacity == CAPACITY && sender.log == [] && sender.receivers == 0
    {
      sender := new Channel(CAPACITY);
    }

    method Subscribe() returns (s: Subscriber<T>)
      requires sender.capacity >= 1
      modifies sender
      ensures fresh(s) && fresh(s.recv) && s.recv.channel == sender && s.Valid()
      ensures s.recv.next == |sender.log|
      ensures sender.log == old(sender.log) && sender.receivers == old(sender.receivers) + 1
    {
      var recv := sender.Subscribe();
      s := new Subscriber(recv);
    }

    /** Publishing never fails: the send error is dropped. */
    method Publish(payload: T)
      modifies sender
      ensures sender.log == if old(sender.receivers) > 0 then old(sender.log) + [payload] else old(sender.log)
      ensures sender.receivers == old(sender.receivers)
    {
      var _ := sender.Send(payload);
    }
  }

  /** `Subscriber<T>`: a receiver and nothing else. */
  class Subscriber<T> {
    const recv: Receiver<T>

    ghost predicate Valid()
      reads this, recv, recv.channel
    {
      recv.Valid()
    }

    constructor (recv: Receiver<T>)
      requires recv.Valid()
      ensures this.recv == recv && Valid()
    {
      this.recv := recv;
    }

    /** `try_recv`: skips a lag and retries; `None` only when nothing is unread. */
    method TryRecv() returns (r: Option<T>)
      requires Valid()
      modifies recv
      ensures Valid()
      ensures var (v, next, _) := MessageBus.RetryRead(recv.channel.log, recv.channel.capacity, old(recv.next));
        r == v && recv.next == next
    {
      ghost var log := recv.channel.log;
      ghost var capacity := recv.channel.capacity;
      ghost var cursor := recv.next;
      ghost var first := Read(log, capacity, cursor);
      while true
        invariant Valid()
        invariant recv.next == cursor || (first.0.Lagged? && recv.next == first.1)
        decreases if recv.next < Oldest(|log|, capacity) then 1 else 0
      {
        var outcome := recv.TryRecv();
        match outcome {
          case Received(v) =>
            return Some(v);
          case Empty =>
            return None;
          case Lagged(_) =>
        }
      }
    }

    /** `recv`, for a call that finds a message already published: skips a lag and returns the message. */
    method Recv() returns (msg: T)
      requires Valid() && !recv.IsEmpty()
      modifies recv
      ensures Valid()
      ensures var (v, next, _) := MessageBus.RetryRead(recv.channel.log, recv.channel.capacity, old(recv.next));
        v == Some(msg) && recv.next == next
    {
      ghost var log := recv.channel.log;
      ghost var capacity := recv.channel.capacity;
      ghost var cursor := recv.next;
      ghost var first := Read(log, capacity, cursor);
      MessageBus.RetryReadMeaning(log, capacity, cursor);
      while true
        invariant Valid()
        invariant recv.next == cursor || (first.0.Lagged? && recv.next == first.1)
        decreases if recv.next < Oldest(|log|, capacity) then 1 else 0
      {
        var outcome := recv.TryRecv();
        match outcome {
          case Received(v) =>
            return v;
          case Lagged(_) =>
        }
      }
    }

    /**
     * `is_empty`: nothing unread, which is exactly when the next `TryRecv`
     * would return nothing.
     */
    predicate IsEmpty(): (e: bool)
      reads this, recv, recv.channel
      ensures recv.Valid() ==>
        (e <==> MessageBus.RetryRead(recv.channel.log, recv.channel.capacity, recv.next).0.None?)
    {
      if recv.Valid() then
        MessageBus.RetryReadMeaning(recv.channel.log, recv.channel.capacity, recv.next);
        recv.IsEmpty()
      else
        recv.IsEmpty()
    }
  }

  /** A subscriber that falls three messages behind gets only the third, then nothing. */
  method SkipScenario() returns (first: Option<int>, second: Option<int>)
    ensures first == Some(3) && second == None
  {
    var topic := new Topic<int>.New();
    var s := topic.Subscribe();
    topic.Publish(1);
    topic.Publish(2);
    topic.Publish(3);
    assert topic.sender.log == [1, 2, 3];
    first := s.TryRecv();
    second := s.TryRecv();
  }
}
