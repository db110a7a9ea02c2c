/** The fixed-capacity circular frame queue used for the two receive queues and the
    transmit queue. The state is the backing store plus the four 16-bit counters;
    `Contents` is the abstract view: the frames in the order they will leave. */
module Fifo {
  import opened Optional
  import opened Frames
  import opened Bits

  /** Largest capacity for which `readIndex + count` cannot wrap its 16-bit register. */
  const MaxSize: nat := 32768

  datatype Queue = Queue(
    buffer: seq<Frame>,
    size: nat,
    readIndex: nat,
    count: nat,
    peakCount: nat)

  /** The representation invariant every operation preserves. */
  predicate Valid(q: Queue) {
    && |q.buffer| == q.size
    && q.size <= MaxSize
    && q.count <= q.peakCount <= q.size
    && (q.size > 0 ==> q.readIndex < q.size)
    && (q.size == 0 ==> q.readIndex == 0)
  }

  /** Physical slot of the i-th queued frame, computed the way the 16-bit code does it
      (one conditional subtraction instead of a modulo). */
  function Slot(q: Queue, i: nat): (k: nat)
    requires Valid(q) && i < q.size
    ensures k < q.size
    ensures k == (q.readIndex + i) % q.size
  {
    var sum := q.readIndex + i;
    if sum >= q.size then
      DivMulAdd(1, sum - q.size, q.size);
      sum - q.size
    else
      DivMulAdd(0, sum, q.size);
      sum
  }

  /** The write index as the source computes it: `readIndex + count` in a 16-bit
      register, then one conditional subtraction of the size. Up to `MaxSize` the sum
      cannot wrap and the index is the intended slot. */
  function WriteIndexAsWritten(readIndex: nat, count: nat, size: nat): (w: nat)
    requires readIndex < size <= 0xFFFF && count < size
    ensures w < 0x1_0000
    ensures size <= MaxSize ==> w == (readIndex + count) % size
  {
    var s := (readIndex + count) % 0x1_0000;
    OneSubtraction(readIndex + count, size);
    if s >= size then s - size else s
  }

  /** Below twice the size, one conditional subtraction reduces modulo the size. */
  lemma OneSubtraction(sum: nat, size: nat)
    requires 0 < size && sum < 2 * size
    ensures (if sum >= size then sum - size else sum) == sum % size
  {
    if sum >= size {
      DivMulAdd(1, sum - size, size);
    } else {
      DivMulAdd(0, sum, size);
    }
  }

  /** Above `MaxSize` the sum wraps: with size 65535, read index 65534 and ten queued
      frames the next frame goes to slot 8, while the slot after the tenth is 9. */
  lemma WriteIndexWrapsAboveMaxSize()
    ensures WriteIndexAsWritten(65534, 10, 65535) == 8
    ensures (65534 + 10) % 65535 == 9
  {
  }

  /** The abstract queue: oldest frame first. */
  function Contents(q: Queue): (s: seq<Frame>)
    requires Valid(q)
    ensures |s| == q.count
  {
    seq(q.count, i requires 0 <= i < q.count => q.buffer[Slot(q, i)])
  }

  /** The default constructor: no storage, every counter zero. */
  function New(): (q: Queue)
    ensures Valid(q)
    ensures Contents(q) == [] && q.size == 0 && q.peakCount == 0 && q.readIndex == 0
  {
    Queue([], 0, 0, 0, 0)
  }

  /** `initWithSize`: fresh storage of `n` default frames, all counters reset. */
  function InitWithSize(n: nat): (q: Queue)
    requires n <= MaxSize
    ensures Valid(q)
    ensures q.size == n && Contents(q) == [] && q.peakCount == 0 && q.readIndex == 0
  {
    Queue(seq(n, _ => BlankFrame), n, 0, 0, 0)
  }

  /** `append`: fails, changing nothing, exactly when the queue is full; otherwise the
      frame is stored behind the last queued one and the high-water mark is raised. */
  function Append(q: Queue, m: Frame): (r: (Queue, bool))
    requires Valid(q)
    ensures Valid(r.0) && r.0.size == q.size && r.0.readIndex == q.readIndex
    ensures r.1 <==> q.count < q.size
    ensures !r.1 ==> r.0 == q
    ensures r.1 ==> Contents(r.0) == Contents(q) + [m]
    ensures r.1 ==> r.0.buffer[Slot(q, q.count)] == m
    ensures r.1 ==> r.0.peakCount == (if q.peakCount < q.count + 1 then q.count + 1 else q.peakCount)
  {
    if q.count < q.size then
      var w := if q.readIndex + q.count >= q.size then q.readIndex + q.count - q.size
               else q.readIndex + q.count;
      var c := q.count + 1;
      var r := q.(buffer := q.buffer[w := m], count := c,
                  peakCount := if q.peakCount < c then c else q.peakCount);
      assert w == Slot(q, q.count);
      AppendContents(q, r, w, m);
      (r, true)
    else
      (q, false)
  }

  lemma AppendContents(q: Queue, r: Queue, w: nat, m: Frame)
    requires Valid(q) && Valid(r) && q.count < q.size
    requires w == Slot(q, q.count)
    requires r.buffer == q.buffer[w := m] && r.count == q.count + 1
    requires r.size == q.size && r.readIndex == q.readIndex
    ensures Contents(r) == Contents(q) + [m]
  {
    forall i | 0 <= i < q.count
      ensures Contents(r)[i] == Contents(q)[i]
    {
      assert Slot(r, i) == Slot(q, i) != w;
    }
  }

  /** `remove`: fails, changing nothing, exactly when the queue is empty; otherwise the
      oldest frame leaves and the read index advances modulo the capacity. */
  function Remove(q: Queue): (r: (Queue, Option<Frame>))
    requires Valid(q)
    ensures Valid(r.0)
    ensures r.1.None? <==> q.count == 0
    ensures r.1.None? ==> r.0 == q
    ensures r.1.Some? ==> r.1.value == Contents(q)[0] == q.buffer[q.readIndex]
    ensures r.1.Some? ==> Contents(r.0) == Contents(q)[1..]
    ensures r.1.Some? ==> r.0.readIndex == (q.readIndex + 1) % q.size
    ensures r.0.size == q.size && r.0.peakCount == q.peakCount
  {
    if q.count > 0 then
      var m := q.buffer[q.readIndex];
      var ri := if q.readIndex + 1 == q.size then 0 else q.readIndex + 1;
      var r := q.(count := q.count - 1, readIndex := ri);
      NextIndex(q.readIndex, q.size);
      RemoveContents(q, r);
      (r, Some(m))
    else
      (q, None)
  }

  lemma NextIndex(a: nat, n: nat)
    requires a < n
    ensures (if a + 1 == n then 0 else a + 1) == (a + 1) % n
  {
  }

  lemma RemoveContents(q: Queue, r: Queue)
    requires Valid(q) && Valid(r) && q.count > 0
    requires r.buffer == q.buffer && r.size == q.size && r.count == q.count - 1
    requires r.readIndex == (if q.readIndex + 1 == q.size then 0 else q.readIndex + 1)
    ensures Contents(r) == Contents(q)[1..]
  {
    forall i | 0 <= i < r.count
      ensures Contents(r)[i] == Contents(q)[1..][i]
    {
      assert Slot(r, i) == Slot(q, i + 1);
    }
  }

  /** `free`: storage released, every counter zero. */
  function Free(q: Queue): (r: Queue)
    ensures Valid(r)
    ensures r.size == 0 && Contents(r) == [] && r.peakCount == 0
  {
    Queue([], 0, 0, 0, 0)
  }

  /** `resetPeakCount`: the high-water mark drops to the current occupancy. */
  function ResetPeakCount(q: Queue): (r: Queue)
    requires Valid(q)
    ensures Valid(r)
    ensures Contents(r) == Contents(q) && r.size == q.size && r.readIndex == q.readIndex
    ensures r.peakCount == |Contents(q)|
  {
    q.(peakCount := q.count)
  }

  function IsEmpty(q: Queue): (b: bool)
    requires Valid(q)
    ensures b <==> Contents(q) == []
  {
    q.count == 0
  }

  function IsFull(q: Queue): (b: bool)
    requires Valid(q)
    ensures b <==> |Contents(q)| == q.size
    ensures b <==> !Append(q, BlankFrame).1
  {
    q.count == q.size
  }

  function Count(q: Queue): (n: nat)
    requires Valid(q)
    ensures n == |Contents(q)| <= q.size
  {
    q.count
  }

  /** Appends the frames one by one, stopping at the first refusal. */
  function AppendAll(q: Queue, ms: seq<Frame>): (r: (Queue, bool))
    requires Valid(q)
    ensures Valid(r.0) && r.0.size == q.size
    ensures r.1 <==> q.count + |ms| <= q.size
    ensures r.1 ==> Contents(r.0) == Contents(q) + ms
    ensures r.1 ==> r.0.peakCount == (if q.peakCount < q.count + |ms| then q.count + |ms| else q.peakCount)
    decreases |ms|
  {
    if ms == [] then
      (q, true)
    else
      var (q1, ok) := Append(q, ms[0]);
      if !ok then
        (q1, false)
      else
        var r := AppendAll(q1, ms[1..]);
        assert r.1 ==> Contents(r.0) == Contents(q) + [ms[0]] + ms[1..];
        assert [ms[0]] + ms[1..] == ms;
        r
  }

  /** Removes up to `k` frames, returning them in the order they left. */
  function RemoveUpTo(q: Queue, k: nat): (r: (Queue, seq<Frame>))
    requires Valid(q)
    ensures Valid(r.0) && r.0.size == q.size
    ensures |r.1| == (if k < q.count then k else q.count)
    ensures r.1 == Contents(q)[..|r.1|]
    ensures Contents(r.0) == Contents(q)[|r.1|..]
    decreases k
  {
    if k == 0 then
      (q, [])
    else
      var (q1, m) := Remove(q);
      if m.None? then
        (q1, [])
      else
        var (q2, rest) := RemoveUpTo(q1, k - 1);
        (q2, [m.value] + rest)
  }

  /** A queue of capacity n accepts exactly n frames: the n appends succeed, the peak
      count reaches n, and the next append is refused. */
  lemma {:induction false} FillToCapacity(n: nat, ms: seq<Frame>, extra: Frame)
    requires n <= MaxSize && |ms| == n
    ensures var (q, ok) := AppendAll(InitWithSize(n), ms);
      ok && q.peakCount == n && IsFull(q) && !Append(q, extra).1
  {
  }

  /** Frames leave in the order they arrived, from any empty state, so across
      wrap-around of the read index too. */
  lemma {:induction false} FifoOrder(q: Queue, ms: seq<Frame>)
    requires Valid(q) && Contents(q) == [] && |ms| <= q.size
    ensures var (q1, ok) := AppendAll(q, ms);
      ok && RemoveUpTo(q1, |ms|).1 == ms && IsEmpty(RemoveUpTo(q1, |ms|).0)
  {
    var (q1, ok) := AppendAll(q, ms);
    assert Contents(q1) == ms;
  }

  /** A queue of size zero is both empty and full and refuses every frame. */
  lemma ZeroSizeRefusesAll(q: Queue, m: Frame)
    requires Valid(q) && q.size == 0
    ensures IsEmpty(q) && IsFull(q) && !Append(q, m).1
  {
  }
}
