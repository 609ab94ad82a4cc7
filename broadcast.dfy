/**
 * An abstract bounded broadcast channel, the part of tokio's `broadcast`
 * the bus runtimes rely on. The channel remembers every message ever sent.
 * Each receiver holds a cursor into that log. Only the last `capacity`
 * messages are retained, so a receiver whose cursor fell behind that window is
 * told how many messages it lagged and jumps to the oldest retained one.
 */
module Broadcast {

  /** What one `try_recv` on a receiver reports. */
  datatype RecvOutcome<T> = Received(value: T) | Empty | Lagged(skipped: nat)

  /** Index in the log of the oldest message still retained after `sent` sends. */
  function Oldest(sent: nat, capacity: nat): (o: nat)
    ensures o <= sent && sent - o <= capacity
    ensures sent > capacity ==> sent - o == capacity
  {
    if sent > capacity then sent - capacity else 0
  }

  /**
   * The outcome of one read at `cursor`, and the cursor after it. A read never
   * moves the cursor backwards or past the end; it lags exactly when the
   * cursor is outside the retained window, skipping the messages between the
   * cursor and the window; otherwise it reports empty exactly at the end and
   * delivers the message at the cursor everywhere else.
   */
  function Read<T>(log: seq<T>, capacity: nat, cursor: nat): (r: (RecvOutcome<T>, nat))
    requires cursor <= |log|
    ensures cursor <= r.1 <= |log|
    ensures r.0.Lagged? <==> cursor < Oldest(|log|, capacity)
    ensures r.0.Lagged? ==> r.1 == Oldest(|log|, capacity) && r.1 - cursor == r.0.skipped && r.0.skipped > 0
    ensures r.0.Empty? <==> cursor == |log| && cursor >= Oldest(|log|, capacity)
    ensures r.0.Received? ==> r.0.value == log[cursor] && r.1 == cursor + 1
  {
    var oldest := Oldest(|log|, capacity);
    if cursor < oldest then (Lagged(oldest - cursor), oldest)
    else if cursor == |log| then (Empty, cursor)
    else (Received(log[cursor]), cursor + 1)
  }

  /** A read just after a lag does not lag again: the cursor is inside the window. */
  lemma {:induction false} NoLagTwice<T>(log: seq<T>, capacity: nat, cursor: nat)
    requires cursor <= |log|
    requires Read(log, capacity, cursor).0.Lagged?
    ensures !Read(log, capacity, Read(log, capacity, cursor).1).0.Lagged?
  {
    var next := Read(log, capacity, cursor).1;
    assert next == Oldest(|log|, capacity);
  }

  /** With a positive capacity the window is never empty, so a lag is followed by a delivery. */
  lemma {:induction false} LagThenReceive<T>(log: seq<T>, capacity: nat, cursor: nat)
    requires capacity >= 1 && cursor <= |log|
    requires Read(log, capacity, cursor).0.Lagged?
    ensures var next := Read(log, capacity, cursor).1;
      Read(log, capacity, next).0 == Received(log[next])
  {
    var oldest := Oldest(|log|, capacity);
    assert cursor < oldest;
    assert |log| > capacity;
    assert oldest < |log|;
  }

  /** The sending side of a channel: its capacity, its log, and how many receivers exist. */
  class Channel<T> {
    const capacity: nat
    var log: seq<T>
    var receivers: nat

    /**
     * `broadcast::channel(capacity)`, built lazily by a topic: tokio panics
     * on a capacity of zero, but only when the channel is first used, so the
     * capacity is demanded by `Subscribe` and by the topic's `Publish`.
     */
    constructor (capacity: nat)
      ensures this.capacity == capacity && log == [] && receivers == 0
    {
      this.capacity := capacity;
      log := [];
      receivers := 0;
    }

    /**
     * `Sender::send`: fails, keeping nothing, when there is no receiver;
     * otherwise appends the message to the log.
     */
    method Send(value: T) returns (ok: bool)
      modifies this
      ensures ok <==> old(receivers) > 0
      ensures log == if ok then old(log) + [value] else old(log)
      ensures receivers == old(receivers)
    {
      ok := receivers > 0;
      if ok {
        log := log + [value];
      }
    }

    /** `Sender::subscribe`: a new receiver that sees only messages sent from now on. */
    method Subscribe() returns (r: Receiver<T>)
      requires capacity >= 1
      modifies this
      ensures fresh(r) && r.channel == this && r.next == |log| && r.Valid()
      ensures log == old(log) && receivers == old(receivers) + 1
    {
      receivers := receivers + 1;
      r := new Receiver(this);
    }
  }

  /** A receiving end: its channel and the log index of the next message it will read. */
  class Receiver<T> {
    const channel: Channel<T>
    var next: nat

    /** The channel has a positive capacity and the cursor is inside the log. */
    predicate Valid()
      reads this, channel
    {
      channel.capacity >= 1 && next <= |channel.log|
    }

    constructor (channel: Channel<T>)
      ensures this.channel == channel && next == |channel.log|
    {
      this.channel := channel;
      next := |channel.log|;
    }

    /** Nothing unread: `Receiver::is_empty`. */
    predicate IsEmpty()
      reads this, channel
    {
      next == |channel.log|
    }

    /** `Receiver::try_recv`. */
    method TryRecv() returns (r: RecvOutcome<T>)
      requires Valid()
      modifies this
      ensures (r, next) == Read(channel.log, channel.capacity, old(next))
      ensures Valid()
    {
      var oldest := Oldest(|channel.log|, channel.capacity);
      if next < oldest {
        r := Lagged(oldest - next);
        next := oldest;
      } else if next == |channel.log| {
        r := Empty;
      } else {
        r := Received(channel.log[next]);
        next := next + 1;
      }
    }
  }
}
