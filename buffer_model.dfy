/**
 * The abstract state of a growable buffer, shared by both revisions of the
 * buffer class, and the parts of their behaviour that the two revisions
 * have in common: appending, element-wise copying and equality.
 *
 * Elements are `int` (value-initialisation of a fresh slot gives 0); sizes
 * and capacities are unbounded naturals.
 */
module BufferModel {
  import opened Wrappers

  /** What the buffer operations throw. */
  datatype Error = InvalidArgument | OutOfRange

  /**
   * A buffer's state: every allocated slot (their number is the capacity)
   * and how many of them, from the front, are in use.
   */
  datatype Store = Store(slots: seq<int>, size: nat) {
    predicate Valid() {
      size <= |slots|
    }

    function Capacity(): nat {
      |slots|
    }

    /** The elements in use. */
    function Contents(): seq<int>
      requires Valid()
    {
      slots[..size]
    }
  }

  /** A buffer with no storage: null data pointer, size and capacity 0. */
  const Empty: Store := Store([], 0)

  /** `n` value-initialised slots. */
  function Zeros(n: nat): (z: seq<int>)
    ensures |z| == n && forall i | 0 <= i < n :: z[i] == 0
  {
    seq(n, _ => 0)
  }

  function Min(a: nat, b: nat): nat {
    if a < b then a else b
  }

  function Max(a: nat, b: nat): nat {
    if a < b then b else a
  }

  /** What a data pointer designates: `None` for null, else the elements of the array. */
  function Pointer(a: array?<int>): Option<seq<int>>
    reads a
  {
    if a == null then None else Some(a[..])
  }

  /** The first `n` elements read through `src`, or `fallback` when `src` is null (nothing is copied). */
  function Read(src: Option<seq<int>>, n: nat, fallback: seq<int>): seq<int>
    requires src.Some? ==> n <= |src.value|
  {
    if src.Some? then src.value[..n] else fallback
  }

  /**
   * `append(data, size)`: the new elements go after the old ones; the storage
   * is reallocated to exactly the new size when the capacity is exceeded and
   * written in place otherwise. A null pointer copies nothing, so the new
   * elements are then zeros after a reallocation and the old slack otherwise.
   */
  function Appended(b: Store, src: Option<seq<int>>, n: nat): (r: Store)
    requires b.Valid() && (src.Some? ==> n <= |src.value|)
    ensures r.Valid() && r.size == b.size + n
    ensures r.Capacity() == Max(b.Capacity(), b.size + n)
  {
    var total := b.size + n;
    if total > b.Capacity() then
      Store(b.Contents() + Read(src, n, Zeros(n)), total)
    else
      Store(b.Contents() + Read(src, n, b.slots[b.size..total]) + b.slots[total..], total)
  }

  /**
   * What an append keeps and what it adds: the old elements stay in front,
   * the new ones follow, and the slack past them is untouched when they fit
   * and gone when the storage was reallocated.
   */
  lemma AppendedSpec(b: Store, src: Option<seq<int>>, n: nat)
    requires b.Valid() && (src.Some? ==> n <= |src.value|)
    ensures var r := Appended(b, src, n);
      && r.Contents()[..b.size] == b.Contents()
      && (src.Some? ==> r.Contents()[b.size..] == src.value[..n])
      && (b.size + n <= b.Capacity() ==> r.slots[r.size..] == b.slots[r.size..])
      && (b.size + n > b.Capacity() ==> r.slots == r.Contents())
  {
  }

  /**
   * Appending a buffer to itself, its storage read before the call (or a
   * null pointer when it has none), doubles its contents.
   */
  lemma {:induction false} AppendSelf(b: Store, src: Option<seq<int>>)
    requires b.Valid()
    requires src.Some? ==> src.value == b.slots
    requires src.None? ==> b.size == 0
    ensures Appended(b, src, b.size).Contents() == b.Contents() + b.Contents()
  {
    AppendedSpec(b, src, b.size);
    var r := Appended(b, src, b.size);
    if src.Some? {
      assert r.Contents() == r.Contents()[..b.size] + r.Contents()[b.size..];
    } else {
      assert r.Contents() == [];
    }
  }

  /** An append of `x` that fits writes it into the slack, right after the elements in use. */
  lemma AppendedInPlaceForm(b: Store, x: seq<int>)
    requires b.Valid() && b.size + |x| <= b.Capacity()
    ensures Appended(b, Some(x), |x|) == Store(b.slots[..b.size] + x + b.slots[b.size + |x|..], b.size + |x|)
  {
    assert x[..|x|] == x;
  }

  /** An append of `x` that does not fit leaves exactly the old elements followed by `x`. */
  lemma AppendedRegrownForm(b: Store, x: seq<int>)
    requires b.Valid() && b.size + |x| > b.Capacity()
    ensures Appended(b, Some(x), |x|) == Store(b.slots[..b.size] + x, b.size + |x|)
  {
    assert x[..|x|] == x;
  }

  /** Writing `x` at `k` and then `y` right after it is writing `x + y` at `k`. */
  lemma SpliceTwice(s: seq<int>, k: nat, x: seq<int>, y: seq<int>)
    requires k + |x| + |y| <= |s|
    ensures var s1 := s[..k] + x + s[k + |x|..];
      s1[..k + |x|] + y + s1[k + |x| + |y|..] == s[..k] + (x + y) + s[k + |x + y|..]
  {
    var m, total := k + |x|, k + |x| + |y|;
    var pre, mid, rest := s[..k], s[m..], s[total..];
    var s1 := pre + x + mid;
    assert s1[..m] == pre + x;
    assert s1[total..] == mid[|y|..] == rest;
  }

  /** Appending `y` to the store that `x` was written into, in place, is writing `x + y` at once. */
  lemma AppendAfterInPlace(b: Store, x: seq<int>, y: seq<int>, c: Store)
    requires b.Valid() && b.size + |x| + |y| <= b.Capacity()
    requires c == Store(b.slots[..b.size] + x + b.slots[b.size + |x|..], b.size + |x|)
    ensures Appended(c, Some(y), |y|) == Appended(b, Some(x + y), |x + y|)
  {
    var total := b.size + |x| + |y|;
    AppendedInPlaceForm(c, y);
    var r := Appended(c, Some(y), |y|);
    assert r.slots == c.slots[..c.size] + y + c.slots[total..] && r.size == total;
    var r' := Appended(b, Some(x + y), |x + y|);
    AppendedInPlaceForm(b, x + y);
    assert r'.slots == b.slots[..b.size] + (x + y) + b.slots[total..] && r'.size == total;
    SpliceTwice(b.slots, b.size, x, y);
  }

  /** Two appends that both fit write `x` and then `y` into the slack. */
  lemma AppendTwiceInPlace(b: Store, x: seq<int>, y: seq<int>)
    requires b.Valid() && b.size + |x| + |y| <= b.Capacity()
    ensures Appended(Appended(b, Some(x), |x|), Some(y), |y|) == Appended(b, Some(x + y), |x + y|)
  {
    AppendedInPlaceForm(b, x);
    AppendAfterInPlace(b, x, y, Appended(b, Some(x), |x|));
  }

  /** When the two appends together exceed the capacity, both sides end with exactly the elements. */
  lemma AppendTwiceRegrown(b: Store, x: seq<int>, y: seq<int>)
    requires b.Valid() && b.size + |x| + |y| > b.Capacity()
    ensures Appended(Appended(b, Some(x), |x|), Some(y), |y|) == Appended(b, Some(x + y), |x + y|)
  {
    var m := b.size + |x|;
    var pre := b.slots[..b.size];
    var b1 := Appended(b, Some(x), |x|);
    if m <= b.Capacity() {
      AppendedInPlaceForm(b, x);
    } else {
      AppendedRegrownForm(b, x);
    }
    assert b1.slots[..m] == pre + x;
    AppendedRegrownForm(b, x + y);
    if y == [] {
      AppendedInPlaceForm(b1, y);
      assert x + y == x;
    } else {
      AppendedRegrownForm(b1, y);
      assert pre + x + y == pre + (x + y);
    }
  }

  /** Two appends in a row are one append of the concatenation, capacity and slack included. */
  lemma AppendTwice(b: Store, x: seq<int>, y: seq<int>)
    requires b.Valid()
    ensures Appended(Appended(b, Some(x), |x|), Some(y), |y|) == Appended(b, Some(x + y), |x + y|)
  {
    if b.size + |x| + |y| <= b.Capacity() {
      AppendTwiceInPlace(b, x, y);
    } else {
      AppendTwiceRegrown(b, x, y);
    }
  }

  /** Appending the elements of `s` one at a time, as `append(value)` does. */
  function AppendEach(b: Store, s: seq<int>): Store
    requires b.Valid()
    ensures AppendEach(b, s).Valid()
    decreases |s|
  {
    if s == [] then b else AppendEach(Appended(b, Some([s[0]]), 1), s[1..])
  }

  /**
   * Copying a sequence element by element into an empty buffer with
   * `append(value)` yields a buffer equal to it, with no spare capacity.
   */
  lemma {:induction false} AppendEachIsAppend(b: Store, s: seq<int>)
    requires b.Valid()
    ensures AppendEach(b, s) == Appended(b, Some(s), |s|)
    decreases |s|
  {
    if s == [] {
      assert b.Contents() + [] + b.slots[b.size..] == b.slots;
    } else {
      AppendEachIsAppend(Appended(b, Some([s[0]]), 1), s[1..]);
      AppendTwice(b, [s[0]], s[1..]);
      assert [s[0]] + s[1..] == s;
    }
  }

  lemma CopiedElementwiseIsEqual(s: seq<int>)
    ensures AppendEach(Empty, s).Contents() == s
    ensures AppendEach(Empty, s).Capacity() == |s|
  {
    AppendEachIsAppend(Empty, s);
    var r := Appended(Empty, Some(s), |s|);
    if s == [] {
      AppendedInPlaceForm(Empty, s);
    } else {
      AppendedRegrownForm(Empty, s);
    }
    assert r.slots == s && r.size == |s|;
  }

  /** Writing the new elements into the slack, or leaving it alone for a null source, is `Appended`. */
  lemma AppendInPlace(b: Store, src: Option<seq<int>>, n: nat, after: seq<int>)
    requires b.Valid() && b.size + n <= b.Capacity() && (src.Some? ==> n <= |src.value|)
    requires src.Some? && n > 0 ==> after == b.slots[..b.size] + src.value[..n] + b.slots[b.size + n..]
    requires !(src.Some? && n > 0) ==> after == b.slots
    ensures after == Appended(b, src, n).slots
  {
    var total := b.size + n;
    if !(src.Some? && n > 0) {
      assert b.slots == b.Contents() + b.slots[b.size..total] + b.slots[total..];
    }
  }

  /** `std::copy` of a sequence into an array from `offset` on. */
  method Copy(src: seq<int>, dst: array<int>, offset: nat)
    requires offset + |src| <= dst.Length
    modifies dst
    ensures dst[..] == old(dst[..offset]) + src + old(dst[offset + |src|..])
  {
    var i := 0;
    while i < |src|
      invariant 0 <= i <= |src|
      invariant forall j | 0 <= j < dst.Length :: dst[j] == if offset <= j < offset + i then src[j - offset] else old(dst[j])
    {
      dst[offset + i] := src[i];
      i := i + 1;
    }
    assert dst[..] == old(dst[..offset]) + src + old(dst[offset + |src|..]);
  }

  /**
   * The reallocating branch of `append`: a fresh, value-initialised array of
   * `size + n` slots holding the first `size` elements of `old` followed by
   * what `src` designates (zeros when it is null).
   */
  method Regrow(prev: array?<int>, size: nat, src: Option<seq<int>>, n: nat) returns (tmp: array<int>)
    requires prev == null ==> size == 0
    requires prev != null ==> size <= prev.Length
    requires src.Some? ==> n <= |src.value|
    ensures fresh(tmp)
    ensures tmp[..] == (if prev == null then [] else prev[..size]) + Read(src, n, Zeros(n))
  {
    tmp := new int[size + n](_ => 0);
    assert tmp[..] == Zeros(size + n);
    if prev != null && size > 0 {
      Copy(prev[..size], tmp, 0);
    }
    assert tmp[..] == (if prev == null then [] else prev[..size]) + Zeros(n);
    if src.Some? && n > 0 {
      Copy(src.value[..n], tmp, size);
    }
  }

  /** `std::equal` over the first `n` elements of two arrays; a null array is only read when `n` is 0. */
  method EqualPrefix(a: array?<int>, b: array?<int>, n: nat) returns (r: bool)
    requires n > 0 ==> a != null && b != null && n <= a.Length && n <= b.Length
    ensures n > 0 ==> (r <==> a[..n] == b[..n])
    ensures n == 0 ==> r
  {
    var i := 0;
    while i < n
      invariant 0 <= i <= n
      invariant n > 0 ==> a[..i] == b[..i]
    {
      if a[i] != b[i] {
        assert a[..n][i] != b[..n][i];
        return false;
      }
      assert a[..i + 1] == a[..i] + [a[i]] && b[..i + 1] == b[..i] + [b[i]];
      i := i + 1;
    }
    return true;
  }
}
