/** The request queue and the event queue (utils/ring_buffer.rs over
    state/request_queue.rs and state/event_queue.rs): a fixed array, a
    `head` that only grows and is reduced modulo the capacity when the
    array is indexed, and a `count` of waiting items. The abstract value of
    a queue is the sequence of its waiting items, oldest first. */
module RingBuffer {
  import opened Common
  import opened BookState

  /** The `count` items that start at logical index `head` of a circular
      buffer, oldest first. */
  function Window<T>(buf: seq<T>, head: nat, count: nat): (w: seq<T>)
    requires 0 < |buf| && count <= |buf|
    ensures |w| == count
  {
    seq(count, i requires 0 <= i < count => buf[(head + i) % |buf|])
  }

  /** A product of a positive factor and a positive modulus is at least the modulus. */
  lemma MulAtLeast(a: int, n: int)
    requires a >= 1 && n > 0
    ensures a * n >= n
  {
    assert a * n == (a - 1) * n + n;
  }

  /** Euclidean division leaves one remainder only. */
  lemma ModUnique(x: int, n: int, q: int, r: int)
    requires n > 0 && 0 <= r < n && x == q * n + r
    ensures x % n == r
  {
    var q', r' := x / n, x % n;
    assert x == q' * n + r';
    var dq := q - q';
    assert dq * n == r' - r;
    if dq >= 1 {
      MulAtLeast(dq, n);
    } else if dq <= -1 {
      MulAtLeast(-dq, n);
    }
  }

  /** Two logical indices less than the capacity apart never share a slot. */
  lemma DistinctSlots(n: nat, head: nat, i: nat, j: nat)
    requires 0 < n && i < j < n
    ensures (head + i) % n != (head + j) % n
  {
    var q, r := (head + i) / n, (head + i) % n;
    var d := j - i;
    assert head + i == q * n + r;
    if r + d < n {
      ModUnique(head + j, n, q, r + d);
    } else {
      assert head + j == (q + 1) * n + (r + d - n);
      ModUnique(head + j, n, q + 1, r + d - n);
    }
  }

  /** Writing the slot after the last waiting item appends to the window
      and leaves the waiting items alone. */
  lemma WindowPush<T>(buf: seq<T>, head: nat, count: nat, x: T)
    requires 0 < |buf| && count < |buf|
    ensures Window(buf[(head + count) % |buf| := x], head, count + 1) == Window(buf, head, count) + [x]
  {
    var n := |buf|;
    var buf' := buf[(head + count) % n := x];
    var w', w := Window(buf', head, count + 1), Window(buf, head, count);
    forall i | 0 <= i < count
      ensures w'[i] == w[i]
    {
      DistinctSlots(n, head, i, count);
    }
    assert w' == w + [x];
  }

  /** Advancing the head by `k` drops the `k` oldest items. */
  lemma WindowPop<T>(buf: seq<T>, head: nat, count: nat, k: nat)
    requires 0 < |buf| && k <= count <= |buf|
    ensures Window(buf, head + k, count - k) == Window(buf, head, count)[k..]
  {
    var w', w := Window(buf, head + k, count - k), Window(buf, head, count);
    forall i | 0 <= i < count - k
      ensures w'[i] == w[k + i]
    {
      assert head + k + i == head + (k + i);
    }
  }

  /** The intake queue of requests. Its capacity MAX_REQUESTS is the length
      of the array, fixed when the account is created. */
  class RequestQueue {
    var head: u64
    var count: u64
    var requests: array<Request>
    var bump: u8

    ghost predicate Valid()
      reads this
    {
      0 < requests.Length < U64_LIMIT && count <= requests.Length
    }

    /** The waiting requests, oldest first. */
    ghost function Contents(): seq<Request>
      reads this, requests
      requires Valid()
    {
      Window(requests[..], head, count)
    }

    /** A freshly created, all-zero account of capacity `capacity`. */
    constructor (capacity: nat)
      requires 0 < capacity < U64_LIMIT
      ensures Valid() && fresh(requests)
      ensures requests.Length == capacity && head == 0 && count == 0 && bump == 0
      ensures Contents() == []
    {
      requests := new Request[capacity](_ => ZERO_REQUEST);
      head, count, bump := 0, 0, 0;
    }

    /** enqueue_request: a full queue is refused; otherwise the request is
        written to the slot after the last waiting one. */
    method Enqueue(request: Request) returns (r: Result<()>)
      requires Valid()
      modifies this, requests
      ensures Valid() && requests == old(requests) && head == old(head) && bump == old(bump)
      ensures old(count) >= requests.Length ==> r == Err(RequestQueueFull)
      ensures old(count) < requests.Length && old(head) + old(count) >= U64_LIMIT ==> r == Err(Panic)
      ensures old(count) < requests.Length && old(head) + old(count) < U64_LIMIT ==> r == Ok(())
      ensures r.Err? ==> unchanged(this, requests)
      ensures r.Ok? ==> count == old(count) + 1
      ensures r.Ok? ==> requests[..] == old(requests[..])[(old(head) + old(count)) % requests.Length := request]
      ensures r.Ok? ==> Contents() == old(Contents()) + [request]
    {
      if count as int >= requests.Length {
        return Err(RequestQueueFull);
      }
      if count + head >= U64_LIMIT {
        return Err(Panic);
      }
      var index := (count + head) % requests.Length;
      WindowPush(requests[..], head, count, request);
      requests[index] := request;
      count := count + 1;
      r := Ok(());
    }

    /** dequeue_requests: hands out the min(n, count) oldest requests in
        order and advances `head` past them. */
    method Dequeue(n: nat) returns (r: Result<seq<Request>>)
      requires Valid()
      modifies this
      ensures Valid() && requests == old(requests) && bump == old(bump)
      ensures requests[..] == old(requests[..])
      ensures var k := Min(n, old(count));
        if k > 0 && old(head) + k - 1 >= U64_LIMIT then r == Err(Panic)
        else if old(head) + k >= U64_LIMIT then r == Err(MathError)
        else r == Ok(old(Contents())[..k])
      ensures r.Err? ==> head == old(head) && count == old(count)
      ensures r.Ok? ==> head == old(head) + |r.value| && count == old(count) - |r.value|
      ensures r.Ok? ==> Contents() == old(Contents())[|r.value|..]
    {
      var traversal := Min(n, count);
      if traversal > 0 && head + traversal - 1 >= U64_LIMIT {
        return Err(Panic);
      }
      var output: seq<Request> := [];
      for i := 0 to traversal
        invariant output == Contents()[..i]
      {
        var index := (head + i) % requests.Length;
        output := output + [requests[index]];
      }
      if head + traversal >= U64_LIMIT {
        return Err(MathError);
      }
      WindowPop(requests[..], head, count, traversal);
      head := head + traversal;
      count := count - traversal;
      return Ok(output);
    }
  }

  /** The queue of match outcomes that settlement drains; its capacity is
      MAX_EVENTS. */
  class EventQueue {
    var head: u64
    var count: u64
    var events: array<Event>
    var bump: u8

    ghost predicate Valid()
      reads this
    {
      events.Length == MAX_EVENTS && count <= MAX_EVENTS
    }

    /** The waiting events, oldest first. */
    ghost function Contents(): seq<Event>
      reads this, events
      requires Valid()
    {
      Window(events[..], head, count)
    }

    /** A freshly created, all-zero account. */
    constructor ()
      ensures Valid() && fresh(events)
      ensures head == 0 && count == 0 && bump == 0
      ensures Contents() == []
    {
      events := new Event[MAX_EVENTS](_ => ZERO_EVENT);
      head, count, bump := 0, 0, 0;
    }

    /** push_event: a full queue is refused, with MathError rather than
        EventQueueFull; otherwise the event is written after the last
        waiting one. */
    method Push(event: Event) returns (r: Result<()>)
      requires Valid()
      modifies this, events
      ensures Valid() && events == old(events) && head == old(head) && bump == old(bump)
      ensures old(count) >= MAX_EVENTS ==> r == Err(MathError)
      ensures old(count) < MAX_EVENTS && old(head) + old(count) >= U64_LIMIT ==> r == Err(Panic)
      ensures old(count) < MAX_EVENTS && old(head) + old(count) < U64_LIMIT ==> r == Ok(())
      ensures r.Err? ==> count == old(count) && events[..] == old(events[..])
      ensures r.Ok? ==> count == old(count) + 1
      ensures r.Ok? ==> events[..] == old(events[..])[(old(head) + old(count)) % MAX_EVENTS := event]
      ensures r.Ok? ==> Contents() == old(Contents()) + [event]
    {
      if count as int >= MAX_EVENTS {
        return Err(MathError);
      }
      if head + count >= U64_LIMIT {
        return Err(Panic);
      }
      var index := (head + count) % MAX_EVENTS;
      WindowPush(events[..], head, count, event);
      events[index] := event;
      count := count + 1;
      r := Ok(());
    }

    /** peek_events: the min(n, count) oldest events, in order; nothing
        changes. */
    method Peek(n: nat) returns (r: Result<seq<Event>>)
      requires Valid()
      ensures var k := Min(n, count);
        if k > 0 && head + k - 1 >= U64_LIMIT then r == Err(Panic)
        else r == Ok(Contents()[..k])
    {
      var readCount := Min(n, count);
      if readCount > 0 && head + readCount - 1 >= U64_LIMIT {
        return Err(Panic);
      }
      var output: seq<Event> := [];
      for i := 0 to readCount
        invariant output == Contents()[..i]
      {
        var index := (head + i) % MAX_EVENTS;
        output := output + [events[index]];
      }
      return Ok(output);
    }

    /** pop_events: exactly what `Peek` returns, after which `head` moves
        past those events. */
    method Pop(n: nat) returns (r: Result<seq<Event>>)
      requires Valid()
      modifies this
      ensures Valid() && events == old(events) && bump == old(bump)
      ensures events[..] == old(events[..])
      ensures var k := Min(n, old(count));
        if k > 0 && old(head) + k - 1 >= U64_LIMIT then r == Err(Panic)
        else if old(head) + k >= U64_LIMIT then r == Err(MathError)
        else r == Ok(old(Contents())[..k])
      ensures r.Err? ==> head == old(head) && count == old(count)
      ensures r.Ok? ==> head == old(head) + |r.value| && count == old(count) - |r.value|
      ensures r.Ok? ==> Contents() == old(Contents())[|r.value|..]
    {
      var peeked := Peek(n);
      if peeked.Err? {
        return peeked;
      }
      var read := peeked.value;
      if head + |read| >= U64_LIMIT {
        return Err(MathError);
      }
      WindowPop(events[..], head, count, |read|);
      head := head + |read|;
      count := count - |read|;
      return Ok(read);
    }
  }
}
