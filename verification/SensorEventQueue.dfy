/** The fixed-capacity ring buffer that one writer task and the poller share
    (hidl/sensors/SensorEventQueue.cpp). */
module EventQueue {

  /** A metadata event carries the handle it is about inside its payload; every other event
      carries it in `sensor`. */
  datatype Body = MetaData(what: int, handle: int) | Sample(kind: int, values: seq<real>)

  datatype Event = Event(sensor: int, timestamp: int, body: Body)

  function Min(a: int, b: int): int {
    if a < b then a else b
  }

  /** The buffer as a value: `size` readable records begin at slot `start` and wrap around. */
  datatype Ring = Ring(data: seq<Event>, start: nat, size: nat) {

    predicate Valid() {
      start < |data| && size <= |data|
    }

    /** The slot `k` places after the first readable one. */
    function Slot(k: nat): (i: nat)
      requires Valid() && k <= |data|
      ensures i < |data|
    {
      if start + k < |data| then start + k else start + k - |data|
    }

    /** What a reader will see, oldest record first: the abstract queue. */
    function Readable(): (r: seq<Event>)
      requires Valid()
      ensures |r| == size
    {
      seq(size, k requires 0 <= k < size => data[Slot(k)])
    }

    /** How many slots a writer that asked for `requested` records may fill, starting at
        `Slot(size)`: bounded by the request, the free space and the end of the array. */
    function RegionLength(requested: int): (n: nat)
      requires Valid()
      ensures n <= |data| - size && Slot(size) + n <= |data|
      ensures n >= 1 <==> requested >= 1 && size < |data|
      ensures n <= requested || n == 0
    {
      if requested <= 0 then 0 else Min(requested, Min(|data| - size, |data| - Slot(size)))
    }

    /** Slots `first .. first + count` may be filled by the writer without the lock. */
    predicate Reserved(first: nat, count: nat)
      requires Valid()
    {
      first == Slot(size) && count <= |data| - size && first + count <= |data|
    }

    function Fill(i: nat, e: Event): (r: Ring)
      requires i < |data|
    {
      this.(data := data[i := e])
    }

    function Commit(count: nat): (r: Ring) {
      this.(size := size + count)
    }

    function Dequeue(): (r: Ring)
      requires Valid() && size > 0
      ensures r.Valid()
    {
      Ring(data, Slot(1), size - 1)
    }
  }

  /** The wrap-around written with a test is the remainder the code computes. */
  lemma SlotIsRemainder(r: Ring, k: nat)
    requires r.Valid() && k <= |r.data|
    ensures r.Slot(k) == (r.start + k) % |r.data|
  {
    RemainderOnce(r.start + k, |r.data|);
  }

  lemma RemainderOnce(x: nat, n: nat)
    requires 0 < n && x <= 2 * n && (x < n || x - n < n)
    ensures x % n == if x < n then x else x - n
  {
    var q, m := x / n, x % n;
    assert x == n * q + m;
    assert q >= 2 ==> n * q >= n * 2;
    assert q == 1 ==> n * q == n;
    assert q == 0 ==> n * q == 0;
  }

  /** A reserved region never meets the readable records, however those wrap. */
  lemma ReservedIsDisjoint(r: Ring, first: nat, count: nat, i: nat, k: nat)
    requires r.Valid() && r.Reserved(first, count)
    requires i < count && k < r.size
    ensures r.Slot(k) != first + i
  {
  }

  /** No longer region can be reserved: the request, the readable records or the end of the array is in
      the way. */
  lemma RegionIsLargest(r: Ring, requested: nat, count: nat)
    requires r.Valid()
    ensures count <= r.RegionLength(requested) <==>
            && count <= requested && r.Slot(r.size) + count <= |r.data|
            && forall k :: 0 <= k < r.size ==> !(r.Slot(r.size) <= r.Slot(k) < r.Slot(r.size) + count)
  {
    var first := r.Slot(r.size);
    if count <= r.RegionLength(requested) {
      forall k | 0 <= k < r.size ensures !(first <= r.Slot(k) < first + count) {
        if first <= r.Slot(k) < first + count {
          ReservedIsDisjoint(r, first, count, r.Slot(k) - first, k);
        }
      }
    } else if count <= requested && first + count <= |r.data| && r.size > 0 {
      var i := r.RegionLength(requested);
      assert r.Slot(0) == r.start;
      assert first + i == r.Slot(0);
    }
  }

  /** Filling a reserved slot is invisible to readers and keeps the reservation. */
  lemma FillKeepsReadable(r: Ring, first: nat, count: nat, i: nat, e: Event)
    requires r.Valid() && r.Reserved(first, count) && i < count
    ensures var f := r.Fill(first + i, e);
            f.Valid() && f.Readable() == r.Readable() && f.Reserved(first, count)
  {
    var f := r.Fill(first + i, e);
    forall k | 0 <= k < r.size ensures f.Readable()[k] == r.Readable()[k] {
      ReservedIsDisjoint(r, first, count, i, k);
    }
  }

  /** Taking the oldest record removes exactly it and leaves a concurrent reservation, and the
      records already put into it, as they were. */
  lemma DequeueTakesOldest(r: Ring)
    requires r.Valid() && r.size > 0
    ensures r.Readable() == [r.data[r.start]] + r.Dequeue().Readable()
    ensures forall first: nat, count: nat :: r.Reserved(first, count) ==> r.Dequeue().Reserved(first, count)
  {
    var d := r.Dequeue();
    assert r.Slot(0) == r.start;
    forall k | 0 < k < r.size ensures r.Readable()[k] == d.Readable()[k - 1] {
      assert d.Slot(k - 1) == r.Slot(k);
    }
  }

  /** Dequeues any number of times, as a poller may while a writer fills its region. */
  function DequeueMany(r: Ring, times: nat): (d: Ring)
    requires r.Valid() && times <= r.size
    ensures d.Valid() && d.size == r.size - times && d.data == r.data
    decreases times
  {
    if times == 0 then r else DequeueMany(r.Dequeue(), times - 1)
  }

  /** A region handed out by a reservation outlives any number of dequeues: it still starts
      right after the readable records and still fits. */
  lemma {:induction false} ReservationSurvivesDequeues(r: Ring, first: nat, count: nat, times: nat)
    requires r.Valid() && times <= r.size && r.Reserved(first, count)
    ensures DequeueMany(r, times).Reserved(first, count)
    ensures DequeueMany(r, times).Readable() == r.Readable()[times..]
    decreases times
  {
    if times > 0 {
      DequeueTakesOldest(r);
      ReservationSurvivesDequeues(r.Dequeue(), first, count, times - 1);
    }
  }

  /** Committing any part of a reserved region appends exactly the records found in it. */
  lemma CommitAppends(r: Ring, first: nat, count: nat, written: nat)
    requires r.Valid() && r.Reserved(first, count) && written <= count
    ensures r.Commit(written).Valid()
    ensures r.Commit(written).Readable() == r.Readable() + r.data[first..first + written]
  {
    var c := r.Commit(written);
    forall k | r.size <= k < c.size
      ensures c.Readable()[k] == (r.Readable() + r.data[first..first + written])[k]
    {
      assert c.Slot(k) == first + (k - r.size);
    }
  }

  /** The whole life of a reservation: reserve, let the poller take `times` records, fill, commit.
      The poller's view ends up being what was left, followed by the writer's records. */
  lemma ReserveFillCommit(r: Ring, requested: int, times: nat, records: seq<Event>)
    requires r.Valid() && times <= r.size && |records| <= r.RegionLength(requested)
    ensures var first := r.Slot(r.size);
            var d := DequeueMany(r, times);
            var filled := d.(data := d.data[..first] + records + d.data[first + |records|..]);
            filled.Valid() && filled.Commit(|records|).Valid()
            && filled.Commit(|records|).Readable() == r.Readable()[times..] + records
  {
    var first := r.Slot(r.size);
    var d := DequeueMany(r, times);
    ReservationSurvivesDequeues(r, first, |records|, times);
    var filled := d.(data := d.data[..first] + records + d.data[first + |records|..]);
    assert filled.Slot(filled.size) == d.Slot(d.size);
    assert filled.Readable() == d.Readable() by {
      forall k | 0 <= k < d.size ensures filled.data[d.Slot(k)] == d.data[d.Slot(k)] {
        assert d.Slot(k) < first || d.Slot(k) >= first + |records| by {
          if first <= d.Slot(k) < first + |records| {
            ReservedIsDisjoint(d, first, |records|, d.Slot(k) - first, k);
          }
        }
      }
    }
    CommitAppends(filled, first, |records|, |records|);
    assert filled.data[first..first + |records|] == records;
  }

  /** The queue object. Only the lock holder may call its methods; the one writer fills the
      region it reserved without the lock, through `FillSlot`. */
  class SensorEventQueue {
    const data: array<Event>
    var start: int
    var size: int

    ghost predicate Valid()
      reads this
    {
      0 <= start < data.Length && 0 <= size <= data.Length
    }

    ghost function AsRing(): (r: Ring)
      requires Valid()
      reads this, data
      ensures r.Valid()
    {
      Ring(data[..], start, size)
    }

    constructor (capacity: nat)
      requires capacity > 0
      ensures Valid() && fresh(data) && data.Length == capacity
      ensures AsRing().Readable() == []
    {
      data := new Event[capacity];
      start := 0;
      size := 0;
    }

    /** The first slot and the length of a region that the writer may fill; length zero stands
        for the null region. */
    method GetWritableRegion(requestedLength: int) returns (first: nat, length: nat)
      requires Valid()
      ensures length == AsRing().RegionLength(requestedLength)
      ensures length > 0 ==> AsRing().Reserved(first, length)
    {
      if size == data.Length || requestedLength <= 0 {
        return 0, 0;
      }
      SlotIsRemainder(AsRing(), size);
      var firstWritable := (start + size) % data.Length;
      var lastWritable := firstWritable + requestedLength - 1;
      // The region ends with the array,
      if lastWritable > data.Length - 1 {
        lastWritable := data.Length - 1;
      }
      // or where the readable records begin.
      if firstWritable < start && lastWritable >= start {
        lastWritable := start - 1;
      }
      return firstWritable, lastWritable - firstWritable + 1;
    }

    /** The device stores one record into the writer's region. */
    method FillSlot(first: nat, length: nat, i: nat, e: Event)
      requires Valid() && AsRing().Reserved(first, length) && i < length
      modifies data
      ensures AsRing() == old(AsRing()).Fill(first + i, e)
      ensures AsRing().Readable() == old(AsRing().Readable())
      ensures AsRing().Reserved(first, length)
    {
      FillKeepsReadable(AsRing(), first, length, i, e);
      data[first + i] := e;
      assert AsRing() == old(AsRing()).Fill(first + i, e);
    }

    method MarkAsWritten(ghost first: nat, ghost length: nat, count: nat)
      requires Valid() && AsRing().Reserved(first, length) && count <= length
      modifies this
      ensures Valid() && AsRing() == old(AsRing()).Commit(count)
      ensures AsRing().Readable() == old(AsRing().Readable()) + old(data[first..first + count])
    {
      CommitAppends(AsRing(), first, length, count);
      size := size + count;
      assert data[..][first..first + count] == data[first..first + count];
    }

    method GetSize() returns (n: nat)
      requires Valid()
      ensures n == |AsRing().Readable()|
    {
      n := size;
    }

    /** The slot of the oldest readable record, or -1 for the null pointer. */
    method Peek() returns (slot: int)
      requires Valid()
      ensures slot == -1 <==> AsRing().Readable() == []
      ensures slot != -1 ==> 0 <= slot < data.Length && data[slot] == AsRing().Readable()[0]
    {
      if size == 0 {
        return -1;
      }
      slot := start;
      assert AsRing().Slot(0) == start;
    }

    /** Removes the oldest record; `spaceSignal` says whether waiting writers are woken, which
        happens exactly when the queue was full. */
    method Dequeue() returns (spaceSignal: bool)
      requires Valid()
      modifies this
      ensures Valid()
      ensures old(AsRing().Readable()) == [] ==> AsRing() == old(AsRing()) && !spaceSignal
      ensures old(AsRing().Readable()) != [] ==>
                && AsRing() == old(AsRing()).Dequeue()
                && AsRing().Readable() == old(AsRing().Readable())[1..]
                && (spaceSignal <==> old(size) == data.Length)
    {
      if size == 0 {
        return false;
      }
      DequeueTakesOldest(AsRing());
      SlotIsRemainder(AsRing(), 1);
      spaceSignal := size == data.Length;
      size := size - 1;
      start := (start + 1) % data.Length;
    }
  }
}
