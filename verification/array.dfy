/**
 `vsl::array<Capacity, T>`: a fixed-capacity, non-allocating array made of a
 size counter and a `Capacity`-element buffer. Only the first `size` slots are
 the array's logical content; the slots after them keep whatever was last
 copied there, and no operation may let them influence a result.
 */
module VslArray {
  import opened BasicTypes

  datatype BoundedArray<T(==)> = BoundedArray(capacity: Len, size: Len, buffer: seq<T>)
  {
    /** Representation invariant: the buffer holds exactly `capacity` slots and
        the counter never passes it. */
    predicate Valid()
    {
      |buffer| == capacity && size <= capacity
    }

    /** The logical content: the slots `[0, size)`. */
    function Elements(): seq<T>
      requires Valid()
    {
      buffer[..size]
    }

    /** `empty()`. */
    function Empty(): (r: bool)
      requires Valid()
      ensures r <==> Elements() == []
    {
      size == 0
    }

    /** `at(index)`: the bounds check of debug builds becomes a precondition. */
    function At(index: Len): (r: T)
      requires Valid() && index < size
      ensures r == Elements()[index]
    {
      buffer[index]
    }

    /** `at_or(index, default_value)`: never fails. */
    function AtOr(index: Len, default: T): (r: T)
      requires Valid()
      ensures index < |Elements()| ==> r == Elements()[index]
      ensures index >= |Elements()| ==> r == default
    {
      if index < size then buffer[index] else default
    }

    /** `operator[]`: unchecked beyond the buffer's own bounds; inside the
        logical range it agrees with the checked accessor. */
    function Index(index: Len): (r: T)
      requires Valid() && index < capacity
      ensures index < size ==> r == At(index)
    {
      buffer[index]
    }

    /** The cursor `begin()` designates. */
    function Begin(): Len
    {
      0
    }

    /** The cursor `end()` designates: one past the last logical element. */
    function End(): Len
    {
      size
    }

    /** `assign(data, n)`: copies `n` elements from `data` when they fit. The
        source reads `data` only on success, so only then must it hold `n`
        elements. */
    function Assign(data: seq<T>, n: Len): (r: Step<BoundedArray<T>>)
      requires Valid()
      requires n <= capacity ==> n <= |data|
      ensures r.after.Valid() && r.after.capacity == capacity
      ensures r.ok <==> n <= capacity
      ensures !r.ok ==> r.after == this
      ensures r.ok ==> r.after.size == n && r.after.Elements() == data[..n]
      ensures r.ok ==> r.after.buffer[n..] == buffer[n..]
    {
      if n > capacity then
        Step(false, this)
      else
        Step(true, BoundedArray(capacity, n, data[..n] + buffer[n..]))
    }

    /** Copy assignment `this = other`: takes over the other array's size and
        its first `size` slots; later slots of `this` are left as they were. */
    function CopyFrom(other: BoundedArray<T>): (r: BoundedArray<T>)
      requires Valid() && other.Valid() && other.capacity == capacity
      ensures r.Valid() && r.capacity == capacity
      ensures r.size == other.size && r.Elements() == other.Elements()
      ensures r.buffer[other.size..] == buffer[other.size..]
      ensures Equals(r, other)
    {
      BoundedArray(capacity, other.size, other.buffer[..other.size] + buffer[other.size..])
    }

    /** Range-based iteration from `begin()` to `end()`: visits exactly the
        logical elements, in index order. */
    method Walk() returns (visited: seq<T>)
      requires Valid()
      ensures |visited| == size
      ensures forall k :: 0 <= k < size ==> visited[k] == At(k)
    {
      visited := [];
      var p := Begin();
      while p != End()
        invariant Begin() <= p <= End()
        invariant visited == buffer[Begin()..p]
      {
        visited := visited + [buffer[p]];
        p := p + 1;
      }
    }
  }

  /** A default-constructed array of the given capacity. The buffer is
      zero-initialised; `zero` is the element type's zero value. */
  function New<T(==)>(capacity: Len, zero: T): (a: BoundedArray<T>)
    ensures a.Valid() && a.capacity == capacity
    ensures a.size == 0 && a.Empty()
    ensures forall i :: 0 <= i < capacity ==> a.buffer[i] == zero
  {
    BoundedArray(capacity, 0, seq(capacity, _ => zero))
  }

  /** The element-by-element comparison `memcmp` performs over `[i, n)`. */
  function SameFrom<T(==)>(a: seq<T>, b: seq<T>, i: nat, n: nat): (r: bool)
    requires i <= n <= |a| && n <= |b|
    ensures r <==> forall k :: i <= k < n ==> a[k] == b[k]
    decreases n - i
  {
    i == n || (a[i] == b[i] && SameFrom(a, b, i + 1, n))
  }

  /** `operator==`: arrays of different size differ; otherwise the first
      `size` slots are compared. */
  function Equals<T(==)>(a: BoundedArray<T>, b: BoundedArray<T>): (r: bool)
    requires a.Valid() && b.Valid() && a.capacity == b.capacity
    ensures r <==> a.Elements() == b.Elements()
  {
    a.size == b.size && SameFrom(a.buffer, b.buffer, 0, a.size)
  }

  /** Slots past `size` never affect equality: two arrays with the same
      logical content compare alike against every third array. */
  lemma EqualsIgnoresSlack<T>(a: BoundedArray<T>, a': BoundedArray<T>, b: BoundedArray<T>)
    requires a.Valid() && a'.Valid() && b.Valid()
    requires a.capacity == a'.capacity == b.capacity
    requires a.size == a'.size
    requires forall k :: 0 <= k < a.size ==> a.buffer[k] == a'.buffer[k]
    ensures Equals(a, b) == Equals(a', b)
  {
    assert a.Elements() == a'.Elements();
  }

  /** Overwriting one logical element with a different value makes the array
      unequal to its former self. */
  lemma EqualsDetectsChange<T>(a: BoundedArray<T>, i: Len, x: T)
    requires a.Valid() && i < a.size && x != a.buffer[i]
    ensures !Equals(a, a.(buffer := a.buffer[i := x]))
  {
    assert a.(buffer := a.buffer[i := x]).Elements()[i] == x;
  }

  /** Equality is an equivalence relation. */
  lemma EqualsIsEquivalence<T>(a: BoundedArray<T>, b: BoundedArray<T>, c: BoundedArray<T>)
    requires a.Valid() && b.Valid() && c.Valid()
    requires a.capacity == b.capacity == c.capacity
    ensures Equals(a, a)
    ensures Equals(a, b) ==> Equals(b, a)
    ensures Equals(a, b) && Equals(b, c) ==> Equals(a, c)
  {
  }

  /** An array of any size in `[0, capacity]` can be filled by `assign`, and
      afterwards `at_or` returns the copied element below the size and the
      default from there on. */
  lemma AssignThenAtOr<T>(a: BoundedArray<T>, data: seq<T>, n: Len, d: T)
    requires a.Valid() && n <= a.capacity && n <= |data|
    ensures a.Assign(data, n).ok
    ensures forall i: Len :: a.Assign(data, n).after.AtOr(i, d) == (if i < n then data[i] else d)
  {
  }
}
