/** The driver's private growable array (used for filter words and callback tables).
    Capacity and count are 8-bit counters; capacity grows in steps of 64. */
module DynArray {

  datatype DynamicArray<T> = DynamicArray(capacity: nat, items: seq<T>)

  /** Largest count at which `append` may still grow the 8-bit capacity without
      wrapping it to zero. */
  const MaxCount: nat := 192

  predicate Valid<T>(a: DynamicArray<T>) {
    |a.items| <= a.capacity < 256
  }

  /** The default constructor: no storage. */
  function Empty<T>(): (a: DynamicArray<T>)
    ensures Valid(a) && a.items == []
  {
    DynamicArray(0, [])
  }

  /** `append`: the new element goes last, earlier ones are kept; a full array first
      grows its capacity by 64. */
  function Append<T>(a: DynamicArray<T>, x: T): (r: DynamicArray<T>)
    requires Valid(a) && |a.items| < MaxCount
    ensures Valid(r)
    ensures r.items == a.items + [x]
    ensures r.capacity >= a.capacity
  {
    var cap := if a.capacity == |a.items| then (a.capacity + 64) % 256 else a.capacity;
    DynamicArray(cap, a.items + [x])
  }

  /** `free`: storage released, count zero. */
  function Free<T>(a: DynamicArray<T>): (r: DynamicArray<T>)
    ensures Valid(r) && r.items == [] && r.capacity == 0
  {
    DynamicArray(0, [])
  }

  /** `setCapacity`: grows the storage to `n`, never shrinks it, keeps the elements. */
  function SetCapacity<T>(a: DynamicArray<T>, n: nat): (r: DynamicArray<T>)
    requires Valid(a) && n < 256
    ensures Valid(r) && r.items == a.items
    ensures r.capacity >= n && r.capacity >= a.capacity
    ensures r.capacity == n || r.capacity == a.capacity
  {
    if a.capacity < n then DynamicArray(n, a.items) else a
  }

  /** Appends every element of `xs` in order into storage that already holds them. */
  function AppendEach<T>(a: DynamicArray<T>, xs: seq<T>): (r: DynamicArray<T>)
    requires Valid(a) && |a.items| + |xs| <= a.capacity && |a.items| + |xs| <= MaxCount
    ensures Valid(r) && r.items == a.items + xs && r.capacity == a.capacity
    decreases |xs|
  {
    if xs == [] then
      a
    else
      var r := AppendEach(Append(a, xs[0]), xs[1..]);
      assert a.items + [xs[0]] + xs[1..] == a.items + xs;
      r
  }

  /** `copyTo`: the target ends up holding exactly the source's elements, in order,
      whatever it held before. */
  function CopyTo<T>(src: DynamicArray<T>, dst: DynamicArray<T>): (r: DynamicArray<T>)
    requires Valid(src) && |src.items| <= MaxCount
    ensures Valid(r) && r.items == src.items
  {
    var d := Free(dst);
    if |src.items| > 0 then
      AppendEach(SetCapacity(d, |src.items|), src.items)
    else
      d
  }
}
