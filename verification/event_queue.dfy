/** The event ring of src/canopy_event.c: a static array of 64 events with a
    head (next to poll) and a tail (next free slot). One slot always stays free,
    so at most 63 events wait at once, and a push onto a full ring is dropped.
    The event itself is a type parameter: the ring only copies it. */
module EventQueue {
  import opened Options

  /** CANOPY_MAX_EVENTS */
  const MaxEvents := 64
  /** The most events the ring holds. */
  const Capacity := MaxEvents - 1

  datatype Queue<E> = Queue(slots: seq<E>, head: int, tail: int)

  predicate Valid<E>(q: Queue<E>) {
    |q.slots| == MaxEvents && 0 <= q.head < MaxEvents && 0 <= q.tail < MaxEvents
  }

  /** The ring before the first push: both indices 0. */
  function Init<E>(filler: E): (q: Queue<E>)
    ensures Valid(q) && Contents(q) == []
  {
    Queue(seq(MaxEvents, _ => filler), 0, 0)
  }

  /** How many events wait: the distance from head to tail around the ring. */
  function Count<E>(q: Queue<E>): (n: int)
    requires Valid(q)
    ensures 0 <= n <= Capacity
    ensures n == 0 <==> q.head == q.tail
  {
    (q.tail - q.head + MaxEvents) % MaxEvents
  }

  /** The waiting events, oldest first: the slots from head up to tail. */
  function Contents<E>(q: Queue<E>): (s: seq<E>)
    requires Valid(q)
    ensures |s| == Count(q)
  {
    seq(Count(q), i requires 0 <= i < Count(q) => q.slots[(q.head + i) % MaxEvents])
  }

  /** canopy_push_event: the event goes in the tail slot unless the slot after
      the tail is the head, in which case the ring is full and nothing changes. */
  function Push<E>(q: Queue<E>, ev: E): (r: Queue<E>)
    requires Valid(q)
    ensures Valid(r)
    ensures Count(q) < Capacity ==> Contents(r) == Contents(q) + [ev]
    ensures Count(q) == Capacity ==> r == q
  {
    var next := (q.tail + 1) % MaxEvents;
    if next != q.head then
      var r := Queue(q.slots[q.tail := ev], q.head, next);
      PushContents(q, ev, r);
      r
    else q
  }

  lemma PushContents<E>(q: Queue<E>, ev: E, r: Queue<E>)
    requires Valid(q) && (q.tail + 1) % MaxEvents != q.head
    requires r == Queue(q.slots[q.tail := ev], q.head, (q.tail + 1) % MaxEvents)
    ensures Valid(r) && Count(r) == Count(q) + 1 && Contents(r) == Contents(q) + [ev]
  {
    var n := Count(q);
    assert (q.head + n) % MaxEvents == q.tail;
  }

  /** canopy_poll_event: false on an empty ring, which stays as it was;
      otherwise the oldest event, with the head moved past it. */
  function Poll<E>(q: Queue<E>): (r: (Option<E>, Queue<E>))
    requires Valid(q)
    ensures Valid(r.1)
    ensures r.0 == None <==> Contents(q) == []
    ensures r.0 == None ==> r.1 == q
    ensures r.0 != None ==> r.0.value == Contents(q)[0] && Contents(r.1) == Contents(q)[1..]
  {
    if q.head == q.tail then (None, q)
    else
      var r := q.(head := (q.head + 1) % MaxEvents);
      PollContents(q, r);
      (Some(q.slots[q.head]), r)
  }

  lemma PollContents<E>(q: Queue<E>, r: Queue<E>)
    requires Valid(q) && q.head != q.tail
    requires r == q.(head := (q.head + 1) % MaxEvents)
    ensures Valid(r) && Count(r) == Count(q) - 1
    ensures Contents(q)[0] == q.slots[q.head] && Contents(r) == Contents(q)[1..]
  {
    PollCount(q, r);
    forall i | 0 <= i < Count(r)
      ensures Contents(r)[i] == Contents(q)[i + 1]
    {
      assert (r.head + i) % MaxEvents == (q.head + (i + 1)) % MaxEvents;
    }
  }

  lemma PollCount<E>(q: Queue<E>, r: Queue<E>)
    requires Valid(q) && q.head != q.tail
    requires r == q.(head := (q.head + 1) % MaxEvents)
    ensures Valid(r) && Count(r) == Count(q) - 1
  {
    if q.head + 1 < MaxEvents {
      assert r.head == q.head + 1;
    } else {
      assert r.head == 0;
    }
  }

  /** A ring that holds no events polls nothing; a ring that holds some polls
      its oldest one. */
  lemma EmptyIffNothingPolled<E>(q: Queue<E>)
    requires Valid(q)
    ensures Poll(q).0 == None <==> q.head == q.tail
  {
  }

  /** Push one event onto an empty ring and poll it back: the event comes out
      and the ring is empty again. */
  lemma PushPollEmpty<E>(q: Queue<E>, ev: E)
    requires Valid(q) && q.head == q.tail
    ensures var r := Poll(Push(q, ev));
      r.0 == Some(ev) && Contents(r.1) == []
  {
  }

  /** Push every event of evs in turn. */
  function PushAll<E>(q: Queue<E>, evs: seq<E>): (r: Queue<E>)
    requires Valid(q)
    ensures Valid(r)
    decreases |evs|
  {
    if evs == [] then q else PushAll(Push(q, evs[0]), evs[1..])
  }

  /** The pushes keep the events in order and drop those that find the ring
      full: the ring ends up holding the first 63 of the old contents followed
      by the new events. */
  lemma {:induction false} PushAllContents<E>(q: Queue<E>, evs: seq<E>)
    requires Valid(q)
    ensures var all := Contents(q) + evs;
      Contents(PushAll(q, evs)) == all[..if |all| < Capacity then |all| else Capacity]
    decreases |evs|
  {
    if evs != [] {
      var p := Push(q, evs[0]);
      PushAllContents(p, evs[1..]);
      var all := Contents(q) + evs;
      if Count(q) < Capacity {
        assert Contents(p) + evs[1..] == all;
      } else {
        assert all[..Capacity] == Contents(q);
        var rest := Contents(p) + evs[1..];
        assert rest[..Capacity] == Contents(q);
      }
    }
  }

  /** Poll until the ring reports empty, collecting what comes out: the
      waiting events in the order they were pushed. */
  method Drain<E>(q: Queue<E>) returns (evs: seq<E>, r: Queue<E>)
    requires Valid(q)
    ensures evs == Contents(q)
    ensures Valid(r) && Contents(r) == []
  {
    evs := [];
    r := q;
    while true
      invariant Valid(r)
      invariant evs + Contents(r) == Contents(q)
      decreases |Contents(r)|
    {
      var polled := Poll(r);
      if polled.0 == None {
        return;
      }
      evs := evs + [polled.0.value];
      r := polled.1;
    }
  }
}
