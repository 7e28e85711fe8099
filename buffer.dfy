/**
 * The buffer class of `buffer.hpp`: a heap array with separate size and
 * capacity. `assign(data, size, capacity)` clamps the size down to the
 * capacity, `assign(capacity)` does nothing when the capacity is unchanged,
 * and the class can also adopt (`acquire`) and shrink its storage.
 */
module Buffers {
  import opened Wrappers
  import opened BufferModel

  /**
   * The state `assign(data, size, capacity)` leaves: a fresh, zeroed array of
   * the requested capacity holding the first min(size, capacity) elements.
   */
  function Assigned(src: Option<seq<int>>, n: nat, cap: nat): (r: Store)
    requires src.Some? ==> n <= |src.value|
    ensures r.Valid() && r.Capacity() == cap && r.size == Min(n, cap)
    ensures src.Some? ==> r.Contents() == src.value[..r.size]
    ensures src.None? ==> r.Contents() == Zeros(r.size)
    ensures r.slots[r.size..] == Zeros(cap - r.size)
  {
    var k := Min(n, cap);
    Store(Read(src, k, Zeros(k)) + Zeros(cap - k), k)
  }

  /** The state `assign(capacity)` leaves. */
  function Reserved(b: Store, cap: nat): (r: Store)
    requires b.Valid()
    ensures r.Valid() && r.Capacity() == cap
    ensures cap == b.Capacity() ==> r == b
    ensures r.Contents() == b.Contents()[..Min(b.size, cap)]
    ensures cap != b.Capacity() ==> r.slots[r.size..] == Zeros(cap - r.size)
  {
    if cap == b.Capacity() then b else Assigned(Some(b.slots), b.size, cap)
  }

  /** The state `shrink_to_fit` leaves. */
  function Shrunk(b: Store): (r: Store)
    requires b.Valid()
    ensures r.Valid() && r.Contents() == b.Contents() && r.Capacity() == b.size
  {
    if b.Capacity() != b.size then Assigned(Some(b.slots), b.size, b.size) else b
  }

  /** Reserving at least the size never loses an element. */
  lemma ReserveKeepsContents(b: Store, cap: nat)
    requires b.Valid() && b.size <= cap
    ensures Reserved(b, cap).Contents() == b.Contents()
    ensures Reserved(b, cap).size == b.size
  {
    assert b.Contents()[..Min(b.size, cap)] == b.Contents();
  }

  /** Asking for fewer slots than the size truncates the contents to the new capacity. */
  lemma ReserveTruncates(b: Store, cap: nat)
    requires b.Valid() && cap < b.size
    ensures Reserved(b, cap).Contents() == b.Contents()[..cap]
    ensures Reserved(b, cap).slots == Reserved(b, cap).Contents()
  {
  }

  /** Shrinking twice is shrinking once. */
  lemma ShrinkIdempotent(b: Store)
    requires b.Valid()
    ensures Shrunk(Shrunk(b)) == Shrunk(b)
  {
  }

  /** After reserving room for `x`, appending it does not reallocate. */
  lemma ReserveThenAppend(b: Store, cap: nat, x: seq<int>)
    requires b.Valid() && b.size + |x| <= cap
    ensures Appended(Reserved(b, cap), Some(x), |x|).Capacity() == cap
    ensures Appended(Reserved(b, cap), Some(x), |x|).Contents() == b.Contents() + x
  {
    ReserveKeepsContents(b, cap);
    var r := Appended(Reserved(b, cap), Some(x), |x|);
    assert r.Contents() == r.Contents()[..b.size] + r.Contents()[b.size..];
    assert x[..|x|] == x;
  }

  class Buffer {
    var data: array?<int>
    var size: nat
    var capacity: nat

    /** size <= capacity, and the array exists exactly when the capacity is positive. */
    ghost predicate Valid()
      reads this
    {
      size <= capacity && (data == null <==> capacity == 0) && (data != null ==> data.Length == capacity)
    }

    /** The abstract state: every slot of the array and the size. */
    ghost function Model(): (m: Store)
      reads this, data
      requires Valid()
      ensures m.Valid() && m.Capacity() == capacity && m.size == size
    {
      if data == null then Empty else Store(data[..], size)
    }

    /** `buffer()` */
    constructor()
      ensures Valid() && data == null && Model() == Empty
    {
      data := null;
      size := 0;
      capacity := 0;
    }

    /** `buffer(const buffer&)` */
    constructor CopyOf(other: Buffer)
      requires other.Valid()
      ensures Valid() && Model() == Assigned(old(Pointer(other.data)), other.size, other.capacity)
      ensures Model().Contents() == other.Model().Contents() && capacity == other.capacity
    {
      data := null;
      size := 0;
      capacity := 0;
      new;
      AssignCopy(other);
    }

    /** `buffer(buffer&&)` */
    constructor MovedFrom(other: Buffer)
      requires other.Valid()
      modifies other
      ensures Valid() && other.Valid()
      ensures data == old(other.data) && size == old(other.size) && capacity == old(other.capacity)
      ensures other.data == null && other.size == 0 && other.capacity == 0
    {
      data := null;
      size := 0;
      capacity := 0;
      new;
      AssignMove(other);
    }

    /** `buffer(std::initializer_list)` */
    constructor OfList(list: seq<int>)
      ensures Valid() && Model() == Assigned(Some(list), |list|, |list|)
      ensures Model().Contents() == list && capacity == |list|
    {
      data := null;
      size := 0;
      capacity := 0;
      new;
      AssignList(list);
    }

    /** `buffer(size_t capacity)` */
    constructor OfCapacity(cap: nat)
      ensures Valid() && Model() == Store(Zeros(cap), 0)
    {
      data := null;
      size := 0;
      capacity := 0;
      new;
      AssignCapacity(cap);
    }

    /** `buffer(const T*, size_t)` */
    constructor OfArray(src: Option<seq<int>>, n: nat)
      requires src.Some? ==> n <= |src.value|
      ensures Valid() && Model() == Assigned(src, n, n)
    {
      data := null;
      size := 0;
      capacity := 0;
      new;
      AssignArray(src, n);
    }

    /** `buffer(const T*, size_t, size_t)` */
    constructor OfArrayWithCapacity(src: Option<seq<int>>, n: nat, cap: nat)
      requires src.Some? ==> n <= |src.value|
      ensures Valid() && Model() == Assigned(src, n, cap)
    {
      data := null;
      size := 0;
      capacity := 0;
      new;
      AssignArrayWithCapacity(src, n, cap);
    }

    /** `assign(const T*, size_t, size_t)`: allocate, copy the clamped prefix, adopt. */
    method AssignArrayWithCapacity(src: Option<seq<int>>, n: nat, cap: nat)
      requires Valid() && (src.Some? ==> n <= |src.value|)
      modifies this
      ensures Valid() && Model() == Assigned(src, n, cap)
      ensures data == null || fresh(data)
    {
      var k := if cap > n then n else cap;
      var tmp: array?<int> := null;
      if cap > 0 {
        tmp := new int[cap](_ => 0);
        assert tmp[..] == Zeros(cap);
      }
      if tmp != null && src.Some? && k > 0 {
        Copy(src.value[..k], tmp, 0);
        assert tmp[..] == src.value[..k] + Zeros(cap - k);
      } else if tmp != null {
        assert tmp[..] == Zeros(k) + Zeros(cap - k);
        assert src.Some? ==> src.value[..k] == [];
      }
      data := tmp;
      size := if data != null then k else 0;
      capacity := if data != null then cap else 0;
    }

    /** `assign(const T*, size_t)` */
    method AssignArray(src: Option<seq<int>>, n: nat)
      requires Valid() && (src.Some? ==> n <= |src.value|)
      modifies this
      ensures Valid() && Model() == Assigned(src, n, n)
      ensures data == null || fresh(data)
    {
      AssignArrayWithCapacity(src, n, n);
    }

    /** `assign(std::initializer_list)` */
    method AssignList(list: seq<int>)
      requires Valid()
      modifies this
      ensures Valid() && Model() == Assigned(Some(list), |list|, |list|)
      ensures Model().Contents() == list && capacity == |list|
      ensures data == null || fresh(data)
    {
      AssignArray(Some(list), |list|);
    }

    /** `assign(size_t capacity)`: reallocate only when the capacity changes. */
    method AssignCapacity(cap: nat)
      requires Valid()
      modifies this
      ensures Valid() && Model() == Reserved(old(Model()), cap)
      ensures cap == old(capacity) ==> data == old(data)
      ensures data == old(data) || data == null || fresh(data)
    {
      if cap != capacity {
        AssignArrayWithCapacity(Pointer(data), size, cap);
      }
    }

    /** `assign(const buffer&)`: a copy of the other's contents with its capacity; self-assignment does nothing. */
    method AssignCopy(other: Buffer)
      requires Valid() && other.Valid()
      modifies this
      ensures Valid() && other.Valid()
      ensures other == this ==> data == old(data) && size == old(size) && capacity == old(capacity)
      ensures other != this ==> Model() == Assigned(old(Pointer(other.data)), other.size, other.capacity)
      ensures Model().Contents() == other.Model().Contents() && capacity == other.capacity
      ensures data == old(data) || data == null || fresh(data)
    {
      if this != other {
        AssignArrayWithCapacity(Pointer(other.data), other.size, other.capacity);
      }
    }

    /** `assign(buffer&&)`: take over the other's storage and leave it empty. */
    method AssignMove(other: Buffer)
      requires Valid() && other.Valid()
      modifies this, other
      ensures Valid() && other.Valid()
      ensures other != this ==> data == old(other.data) && size == old(other.size) && capacity == old(other.capacity)
      ensures other != this ==> other.data == null && other.size == 0 && other.capacity == 0
      ensures other == this ==> data == old(data) && size == old(size) && capacity == old(capacity)
    {
      if this != other {
        data, other.data := other.data, data;
        size, other.size := other.size, size;
        capacity, other.capacity := other.capacity, capacity;
        other.Clear();
      }
    }

    /** `append(const T*, size_t)`: grow to exactly the new size if needed, then copy behind the old contents. */
    method AppendArray(src: Option<seq<int>>, n: nat)
      requires Valid() && (src.Some? ==> n <= |src.value|)
      modifies this, data
      ensures Valid() && Model() == Appended(old(Model()), src, n)
      ensures data == old(data) || fresh(data)
    {
      var total := n + size;
      var exceeds := total > capacity;
      var tmp: array?<int> := data;
      if exceeds {
        tmp := Regrow(data, size, src, n);
      } else if tmp != null {
        if src.Some? && n > 0 {
          Copy(src.value[..n], tmp, size);
        }
        AppendInPlace(old(Model()), src, n, tmp[..]);
      }
      data := tmp;
      size := total;
      capacity := if exceeds then total else capacity;
    }

    /** `append(const buffer&)`: appending a buffer to itself doubles its contents. */
    method AppendCopy(other: Buffer)
      requires Valid() && other.Valid()
      modifies this, data
      ensures Valid() && Model() == Appended(old(Model()), old(Pointer(other.data)), old(other.size))
      ensures data == old(data) || fresh(data)
      ensures other == this ==> Model().Contents() == old(Model().Contents()) + old(Model().Contents())
    {
      ghost var before := Model();
      ghost var src := Pointer(other.data);
      AppendArray(Pointer(other.data), other.size);
      if other == this {
        AppendSelf(before, src);
      }
    }

    /** `append(buffer&&)`: append, then clear the other; appending a buffer to itself clears it. */
    method AppendMove(other: Buffer)
      requires Valid() && other.Valid()
      modifies this, data, other
      ensures Valid() && other.Valid()
      ensures other.data == null && other.size == 0 && other.capacity == 0
      ensures other != this ==> Model() == Appended(old(Model()), old(Pointer(other.data)), old(other.size))
    {
      AppendCopy(other);
      other.Clear();
    }

    /** `append(std::initializer_list)` */
    method AppendList(list: seq<int>)
      requires Valid()
      modifies this, data
      ensures Valid() && Model() == Appended(old(Model()), Some(list), |list|)
      ensures Model().Contents() == old(Model().Contents()) + list
    {
      AppendArray(Some(list), |list|);
      assert list[..|list|] == list;
      assert Model().Contents() == Model().Contents()[..old(size)] + Model().Contents()[old(size)..];
    }

    /** `append(const T&)` */
    method AppendValue(v: int)
      requires Valid()
      modifies this, data
      ensures Valid() && Model() == Appended(old(Model()), Some([v]), 1)
      ensures Model().Contents() == old(Model().Contents()) + [v]
    {
      AppendList([v]);
    }

    /** `shrink_to_fit()`: reallocate to exactly the size unless it already is. */
    method ShrinkToFit()
      requires Valid()
      modifies this
      ensures Valid() && Model() == Shrunk(old(Model()))
    {
      if capacity != size {
        AssignArray(Pointer(data), size);
      }
    }

    /** `clear()` */
    method Clear()
      modifies this
      ensures Valid() && data == null && size == 0 && capacity == 0
      ensures Model() == Empty
    {
      data := null;
      size := 0;
      capacity := 0;
    }

    /**
     * `acquire(data, size, capacity)`: adopt an array of `cap` slots holding
     * `n` elements; a null array, a zero size or a size above the capacity is
     * rejected before anything changes. The array's length is not checked by
     * the source, so it is the caller's promise here.
     */
    method AcquireWithCapacity(d: array?<int>, n: nat, cap: nat) returns (r: Outcome<Error>)
      requires Valid()
      requires d != null && 0 < n <= cap ==> d.Length == cap
      modifies this
      ensures r == if d == null || n == 0 || n > cap then Fail(InvalidArgument) else Pass
      ensures r.Fail? ==> data == old(data) && size == old(size) && capacity == old(capacity)
      ensures r.Pass? ==> data == d && size == n && capacity == cap
      ensures Valid()
    {
      if d == null || n == 0 || n > cap {
        return Fail(InvalidArgument);
      }
      Clear();
      data := d;
      size := n;
      capacity := cap;
      return Pass;
    }

    /** `acquire(data, size)` */
    method Acquire(d: array?<int>, n: nat) returns (r: Outcome<Error>)
      requires Valid()
      requires d != null && 0 < n ==> d.Length == n
      modifies this
      ensures r == if d == null || n == 0 then Fail(InvalidArgument) else Pass
      ensures r.Fail? ==> data == old(data) && size == old(size) && capacity == old(capacity)
      ensures r.Pass? ==> data == d && size == n && capacity == n
      ensures Valid()
    {
      r := AcquireWithCapacity(d, n, n);
    }

    /** `release()`: hand back the array and become empty. */
    method Release() returns (d: array?<int>)
      requires Valid()
      modifies this
      ensures d == old(data) && (d != null ==> d[..] == old(Model()).slots)
      ensures Valid() && data == null && size == 0 && capacity == 0
    {
      d := data;
      data := null;
      size := 0;
      capacity := 0;
    }

    /** `swap(buffer&)`, through a temporary and three moves. */
    method Swap(other: Buffer)
      requires Valid() && other.Valid()
      modifies this, other
      ensures Valid() && other.Valid()
      ensures data == old(other.data) && size == old(other.size) && capacity == old(other.capacity)
      ensures other.data == old(data) && other.size == old(size) && other.capacity == old(capacity)
      ensures Model() == old(other.Model()) && other.Model() == old(Model())
    {
      var tmp := new Buffer.MovedFrom(other);
      other.AssignMove(this);
      AssignMove(tmp);
    }

    /** `operator[]`: unchecked access to any allocated slot. */
    function Get(i: nat): (r: int)
      reads this, data
      requires Valid() && i < capacity
      ensures r == Model().slots[i]
    {
      data[i]
    }

    /** `at(i)`: the element, or `out_of_range` exactly when `i` is not below the size. */
    function At(i: nat): (r: Result<int, Error>)
      reads this, data
      requires Valid()
      ensures r.Err? <==> i >= size
      ensures r.Err? ==> r.error == OutOfRange
      ensures r.Ok? ==> r.value == Model().Contents()[i]
    {
      if i >= size then Err(OutOfRange) else Ok(data[i])
    }

    /** `first()` */
    function First(): (r: Result<int, Error>)
      reads this, data
      requires Valid()
      ensures r == At(0)
      ensures r.Ok? <==> Model().Contents() != []
      ensures r.Ok? ==> r.value == Model().Contents()[0]
    {
      At(0)
    }

    /**
     * `last()`: `at(size() - 1)`; for an empty buffer the index wraps to the
     * largest `size_t`, which `at` rejects.
     */
    function Last(): (r: Result<int, Error>)
      reads this, data
      requires Valid()
      ensures r.Ok? <==> Model().Contents() != []
      ensures r.Err? ==> r.error == OutOfRange
      ensures r.Ok? ==> r.value == Model().Contents()[size - 1]
    {
      if size == 0 then Err(OutOfRange) else At(size - 1)
    }

    function Size(): (r: nat)
      reads this, data
      requires Valid()
      ensures r == |Model().Contents()|
    {
      size
    }

    function Capacity(): (r: nat)
      reads this, data
      requires Valid()
      ensures r == Model().Capacity()
    {
      capacity
    }

    function IsEmpty(): (r: bool)
      reads this, data
      requires Valid()
      ensures r <==> Model().Contents() == []
    {
      size == 0
    }
  }

  /** The free `swap(a, b)`. */
  method SwapBuffers(a: Buffer, b: Buffer)
    requires a.Valid() && b.Valid()
    modifies a, b
    ensures a.Valid() && b.Valid()
    ensures a.Model() == old(b.Model()) && b.Model() == old(a.Model())
  {
    a.Swap(b);
  }

  /** `operator==`: same size and pairwise equal elements; the capacity is not compared. */
  method Equal(a: Buffer, b: Buffer) returns (r: bool)
    requires a.Valid() && b.Valid()
    ensures r <==> a.Model().Contents() == b.Model().Contents()
  {
    if a.size != b.size {
      return false;
    }
    r := EqualPrefix(a.data, b.data, a.size);
  }

  /** `operator!=` */
  method NotEqual(a: Buffer, b: Buffer) returns (r: bool)
    requires a.Valid() && b.Valid()
    ensures r <==> a.Model().Contents() != b.Model().Contents()
  {
    r := Equal(a, b);
    r := !r;
  }
}
