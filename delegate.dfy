/**
 * Single-target and multicast delegates: a delegate is an invocation record,
 * a pair of an untyped object handle and a trampoline; a multicast delegate
 * keeps an ordered sequence of such records, duplicates allowed.
 *
 * Both revisions of the header (the list-backed one and the older
 * deque-backed one) behave the same on every operation modelled here, so they
 * share this one model.
 *
 * The code behind a trampoline is not visible: a call goes through a
 * `dispatch` parameter that, given the trampoline, the object handle, the
 * arguments and the state of the world, either returns the callee's result
 * or reports that the callee threw, together with the new state of the world.
 */
module Delegates {
  import opened Wrappers

  /**
   * The identity of a generated trampoline. Each instantiation of a
   * trampoline template is a distinct function, so two trampolines are the
   * same pointer exactly when they come from the same template with the same
   * arguments.
   */
  datatype Trampoline =
    | Method(cls: nat, member: nat)       // calls a member function on a mutable object
    | ConstMethod(cls: nat, member: nat)  // calls a const member function
    | FreeFunction(func: nat)             // calls a free function and ignores the object
    | Lambda(closureType: nat)            // calls the call operator of a closure

  /** An invocation record: object handle and trampoline, `None` standing for a null pointer. */
  datatype Invocation = Invocation(obj: Option<nat>, fn: Option<Trampoline>) {
    /** A record is empty when its trampoline is null. */
    predicate IsEmpty() {
      fn.None?
    }
  }

  /** The default-constructed record: both pointers null. */
  function NullInvocation(): (r: Invocation)
    ensures r.IsEmpty() && r.obj.None?
  {
    Invocation(None, None)
  }

  /** Record equality compares both pointers, never what they point to. */
  function SameInvocation(a: Invocation, b: Invocation): (r: bool)
    ensures r <==> a == b
  {
    a.obj == b.obj && a.fn == b.fn
  }

  /** A single-target delegate wraps exactly one invocation record. */
  datatype Delegate = Delegate(invocation: Invocation) {
    predicate IsEmpty() {
      invocation.IsEmpty()
    }
  }

  /** The default-constructed delegate. */
  function EmptyDelegate(): (d: Delegate)
    ensures d.IsEmpty() && d.invocation == NullInvocation()
  {
    Delegate(NullInvocation())
  }

  /** Binds a member function to an object, given by reference (always non-null) or by pointer. */
  function CreateMethod(target: Option<nat>, cls: nat, member: nat): (d: Delegate)
    ensures !d.IsEmpty() && d.invocation.obj == target
  {
    Delegate(Invocation(target, Some(Method(cls, member))))
  }

  /** Binds a const member function to an object, given by reference or by pointer. */
  function CreateConstMethod(target: Option<nat>, cls: nat, member: nat): (d: Delegate)
    ensures !d.IsEmpty() && d.invocation.obj == target
  {
    Delegate(Invocation(target, Some(ConstMethod(cls, member))))
  }

  /** Binds a free function; the object handle is null. */
  function CreateFree(func: nat): (d: Delegate)
    ensures !d.IsEmpty() && d.invocation.obj.None?
  {
    Delegate(Invocation(None, Some(FreeFunction(func))))
  }

  /** Binds a closure by its address (the closure is referenced, not copied). */
  function CreateLambda(closure: nat, closureType: nat): (d: Delegate)
    ensures !d.IsEmpty() && d.invocation.obj == Some(closure)
  {
    Delegate(Invocation(Some(closure), Some(Lambda(closureType))))
  }

  /** Delegate equality is record equality. */
  function DelegateEquals(a: Delegate, b: Delegate): (r: bool)
    ensures r <==> a.invocation.obj == b.invocation.obj && a.invocation.fn == b.invocation.fn
  {
    SameInvocation(a.invocation, b.invocation)
  }

  /**
   * Equality is identity-based: two factory-built delegates are equal exactly
   * when they bind the same callable to the same object, and a bound delegate
   * never equals the empty one.
   */
  lemma BindingIdentity(o1: Option<nat>, o2: Option<nat>, c1: nat, c2: nat, m1: nat, m2: nat, f1: nat, f2: nat)
    ensures DelegateEquals(CreateMethod(o1, c1, m1), CreateMethod(o2, c2, m2)) <==> o1 == o2 && c1 == c2 && m1 == m2
    ensures !DelegateEquals(CreateMethod(o1, c1, m1), CreateConstMethod(o1, c1, m1))
    ensures DelegateEquals(CreateFree(f1), CreateFree(f2)) <==> f1 == f2
    ensures !DelegateEquals(CreateFree(f1), EmptyDelegate())
    ensures !DelegateEquals(CreateMethod(o1, c1, m1), EmptyDelegate())
  {
  }

  /**
   * How a call ends: the callee returned a value, or it threw (what it threw,
   * when that matters, is part of the world). Either way the world may have
   * changed.
   */
  datatype Reply<R, S> = Returned(value: R, world: S) | Threw(world: S)

  /** The behaviour of the callables behind the trampolines, threaded through a world state. */
  type Dispatch<!A, R, !S> = (Trampoline, Option<nat>, A, S) -> Reply<R, S>

  /**
   * `operator()` of a delegate: runs its trampoline on its object handle and
   * passes on whatever the callee does; calling an empty one is excluded.
   * It has the effect of calling a multicast delegate that holds only this
   * delegate's record, throw included.
   */
  function Invoke<A, R, S>(d: Delegate, dispatch: Dispatch<A, R, S>, args: A, w: S): (r: Reply<R, S>)
    requires !d.IsEmpty()
    ensures AllBound([d.invocation])
    ensures r.world == Broadcast([d.invocation], dispatch, args, w).world
    ensures r.Threw? <==> Broadcast([d.invocation], dispatch, args, w).Threw?
  {
    dispatch(d.invocation.fn.value, d.invocation.obj, args, w)
  }

  /**
   * What a delegate call returns is what the handler form of a call receives
   * at index 0 for a multicast delegate holding only its record: the handler
   * runs on that result and the world the callee left, unless the callee threw.
   */
  lemma InvokeHandsResultToHandler<A, R, S>(d: Delegate, dispatch: Dispatch<A, R, S>,
                                            handler: (nat, R, S) -> Reply<(), S>, args: A, w: S)
    requires !d.IsEmpty()
    ensures var r := Invoke(d, dispatch, args, w);
      Collect([d.invocation], 0, dispatch, handler, args, w)
        == if r.Threw? then Threw(r.world) else handler(0, r.value, r.world)
  {
    var r := Invoke(d, dispatch, args, w);
    if r.Returned? {
      var s := [d.invocation];
      assert dispatch(s[0].fn.value, s[0].obj, args, w) == r;
      assert s[1..] == [];
      match handler(0, r.value, r.world)
      case Threw(w2) =>
      case Returned(u, w2) =>
        match u case () =>
          assert Collect(s[1..], 1, dispatch, handler, args, w2) == Returned((), w2);
    }
  }

  /** No record of the sequence is empty. */
  predicate AllBound(s: seq<Invocation>) {
    forall i | 0 <= i < |s| :: !s[i].IsEmpty()
  }

  // ---------------------------------------------------------------------------
  // Specification of the sequence operations behind the multicast delegate.

  /** Position of the first record equal to `x`, or `|s|` when there is none. */
  function IndexOf(s: seq<Invocation>, x: Invocation): (k: nat)
    ensures k <= |s|
    ensures k < |s| ==> s[k] == x
    ensures x !in s[..k]
    ensures k == |s| <==> x !in s
  {
    if s == [] then 0
    else if s[0] == x then 0
    else
      var k := 1 + IndexOf(s[1..], x);
      assert s[..k] == [s[0]] + s[1..][..k - 1];
      k
  }

  /** Erases the first record equal to `x`, if any: one record shorter exactly when `x` is present. */
  function RemoveFirst(s: seq<Invocation>, x: Invocation): (r: seq<Invocation>)
    ensures |r| == if x in s then |s| - 1 else |s|
    ensures x !in s ==> r == s
  {
    var k := IndexOf(s, x);
    if k < |s| then s[..k] + s[k + 1..] else s
  }

  /** Erasing the first equal record removes exactly one copy of `x`, when there is one. */
  lemma RemoveFirstCounts(s: seq<Invocation>, x: Invocation)
    ensures |RemoveFirst(s, x)| == if x in s then |s| - 1 else |s|
    ensures multiset(RemoveFirst(s, x)) == multiset(s) - multiset{x}
  {
    var k := IndexOf(s, x);
    if k < |s| {
      assert s == s[..k] + [x] + s[k + 1..];
      MultisetErase(s[..k], x, s[k + 1..]);
    } else {
      assert multiset(s)[x] == 0;
    }
  }

  /** Taking one element out of the middle of a sequence takes one copy out of its multiset. */
  lemma MultisetErase(a: seq<Invocation>, x: Invocation, b: seq<Invocation>)
    ensures multiset(a + [x] + b) - multiset{x} == multiset(a + b)
  {
    var ma, mb := multiset(a), multiset(b);
    assert multiset(a + [x] + b) == ma + multiset{x} + mb;
    assert multiset(a + b) == ma + mb;
  }

  /** Erases, for each record of `rs` in order, the first equal record still present. */
  function RemoveEach(s: seq<Invocation>, rs: seq<Invocation>): (r: seq<Invocation>)
    ensures |s| - |rs| <= |r| <= |s|
    decreases |rs|
  {
    if rs == [] then s
    else RemoveEach(RemoveFirst(s, rs[0]), rs[1..])
  }

  /** One turn of `m -= m2`: the record at position `i` of `rs` goes first, then the rest. */
  lemma RemoveEachStep(s: seq<Invocation>, rs: seq<Invocation>, i: nat)
    requires i < |rs|
    ensures RemoveEach(s, rs[i..]) == RemoveEach(RemoveFirst(s, rs[i]), rs[i + 1..])
  {
    assert rs[i..][0] == rs[i] && rs[i..][1..] == rs[i + 1..];
  }

  /** `m -= m2` erases at most one copy per record of `m2`: what it leaves is the multiset difference. */
  lemma {:induction false} RemoveEachMultiset(s: seq<Invocation>, rs: seq<Invocation>)
    ensures multiset(RemoveEach(s, rs)) == multiset(s) - multiset(rs)
    decreases |rs|
  {
    if rs != [] {
      var s1 := RemoveFirst(s, rs[0]);
      var r := RemoveEach(s1, rs[1..]);
      assert RemoveEach(s, rs) == r;
      RemoveFirstCounts(s, rs[0]);
      RemoveEachMultiset(s1, rs[1..]);
      var m, x, rest := multiset(s), multiset{rs[0]}, multiset(rs[1..]);
      assert multiset(r) == (m - x) - rest;
      MultisetSplit(rs);
      MultisetDifferenceTwice(m, x, rest);
    }
  }

  lemma MultisetSplit(rs: seq<Invocation>)
    requires rs != []
    ensures multiset(rs) == multiset{rs[0]} + multiset(rs[1..])
  {
    assert rs == [rs[0]] + rs[1..];
  }

  lemma MultisetDifferenceTwice(a: multiset<Invocation>, b: multiset<Invocation>, c: multiset<Invocation>)
    ensures (a - b) - c == a - (b + c)
  {
  }

  /**
   * `m()`: calls the records in sequence order, discarding the results, until one
   * throws: the records after it are not called and the call throws too.
   */
  function Broadcast<A, R, S>(s: seq<Invocation>, dispatch: Dispatch<A, R, S>, args: A, w: S): (r: Reply<(), S>)
    requires AllBound(s)
    ensures forall from: nat :: r == Collect(s, from, dispatch, IgnoreResults(), args, w)
    decreases |s|
  {
    if s == [] then Returned((), w)
    else match dispatch(s[0].fn.value, s[0].obj, args, w)
      case Threw(w1) => Threw(w1)
      case Returned(_, w1) => Broadcast(s[1..], dispatch, args, w1)
  }

  /** A handler that does nothing with the results. */
  function IgnoreResults<R, S>(): (nat, R, S) -> Reply<(), S> {
    (i: nat, x: R, v: S) => Returned((), v)
  }

  /**
   * Calls the records in sequence order, handing the `from + i`-th result to
   * the handler, until a callee or the handler throws.
   */
  function Collect<A, R, S>(s: seq<Invocation>, from: nat, dispatch: Dispatch<A, R, S>,
                            handler: (nat, R, S) -> Reply<(), S>, args: A, w: S): (r: Reply<(), S>)
    requires AllBound(s)
    ensures s == [] ==> r == Returned((), w)
    decreases |s|
  {
    if s == [] then Returned((), w)
    else match dispatch(s[0].fn.value, s[0].obj, args, w)
      case Threw(w1) => Threw(w1)
      case Returned(item, w1) =>
        match handler(from, item, w1)
        case Threw(w2) => Threw(w2)
        case Returned(_, w2) => Collect(s[1..], from + 1, dispatch, handler, args, w2)
  }

  // ---------------------------------------------------------------------------
  // Properties of the specification.

  /** Removing a record that is not in front of its first occurrence takes out exactly that occurrence. */
  lemma {:induction false} RemoveFirstAfter(s: seq<Invocation>, x: Invocation, u: seq<Invocation>)
    requires x !in s
    ensures RemoveFirst(s + [x] + u, x) == s + u
  {
    var t := s + [x] + u;
    assert t[|s|] == x;
    assert t[..|s|] == s;
    assert x !in t[..|s|];
    assert IndexOf(t, x) == |s|;
    assert t[|s| + 1..] == u;
  }

  /** `m += d; m -= d` restores `m` when `d` was not already present. */
  lemma AddRemoveRoundTrip(s: seq<Invocation>, x: Invocation)
    requires x !in s
    ensures RemoveFirst(s + [x], x) == s
  {
    RemoveFirstAfter(s, x, []);
    assert s + [x] + [] == s + [x];
  }

  /** `m1 += m2; m1 -= m2` restores `m1` when no record of `m2` was in `m1` before. */
  lemma {:induction false} AddAllRemoveAllRoundTrip(s: seq<Invocation>, t: seq<Invocation>)
    requires forall i | 0 <= i < |t| :: t[i] !in s
    ensures RemoveEach(s + t, t) == s
    decreases |t|
  {
    if t != [] {
      assert s + t == s + [t[0]] + t[1..];
      RemoveFirstAfter(s, t[0], t[1..]);
      AddAllRemoveAllRoundTrip(s, t[1..]);
    }
  }

  /**
   * `m1 -= d` on an `m1` that holds `d`'s record more than once: only the
   * first occurrence goes, every later one stays.
   */
  lemma SharedRecordRemovedOnce(u: seq<Invocation>, x: Invocation, v: seq<Invocation>)
    requires x !in u && x in v
    ensures RemoveEach(u + [x] + v, [x]) == u + v
    ensures x in RemoveEach(u + [x] + v, [x])
  {
    assert [x][1..] == [];
    RemoveFirstAfter(u, x, v);
  }

  /**
   * Calling `m1` after `m1 += m2` is calling the old `m1` and then, unless
   * that threw, `m2` on the world the old `m1` left.
   */
  lemma {:induction false} BroadcastAppend<A, R, S>(a: seq<Invocation>, b: seq<Invocation>,
                                                   dispatch: Dispatch<A, R, S>, args: A, w: S)
    requires AllBound(a) && AllBound(b)
    ensures AllBound(a + b)
    ensures Broadcast(a, dispatch, args, w).Threw? ==> Broadcast(a + b, dispatch, args, w) == Broadcast(a, dispatch, args, w)
    ensures Broadcast(a, dispatch, args, w).Returned? ==>
      Broadcast(a + b, dispatch, args, w) == Broadcast(b, dispatch, args, Broadcast(a, dispatch, args, w).world)
    decreases |a|
  {
    if a == [] {
      assert a + b == b;
    } else {
      assert (a + b)[1..] == a[1..] + b;
      match dispatch(a[0].fn.value, a[0].obj, args, w)
      case Threw(_) =>
      case Returned(_, w1) =>
        BroadcastAppend(a[1..], b, dispatch, args, w1);
    }
  }

  /**
   * A callee that records which record it was reached through, and throws
   * when that record's trampoline is `bad`.
   */
  function Tracer<A>(bad: Option<Trampoline>): Dispatch<A, (), seq<Invocation>> {
    (t: Trampoline, o: Option<nat>, a: A, w: seq<Invocation>) =>
      if Some(t) == bad then Threw(w + [Invocation(o, Some(t))]) else Returned((), w + [Invocation(o, Some(t))])
  }

  /** When no callee throws, the plain call reaches every record exactly once, in sequence order, repeats included. */
  lemma {:induction false} BroadcastVisitsInOrder<A>(s: seq<Invocation>, args: A, log: seq<Invocation>)
    requires AllBound(s)
    ensures Broadcast(s, Tracer(None), args, log) == Returned((), log + s)
    decreases |s|
  {
    if s != [] {
      var next := log + [Invocation(s[0].obj, Some(s[0].fn.value))];
      assert next == log + [s[0]];
      assert Tracer(None)(s[0].fn.value, s[0].obj, args, log) == Returned((), next);
      assert Broadcast(s, Tracer(None), args, log) == Broadcast(s[1..], Tracer(None), args, next);
      BroadcastVisitsInOrder(s[1..], args, next);
      assert log + [s[0]] + s[1..] == log + s;
    } else {
      assert log + s == log;
    }
  }

  /**
   * A throwing callee ends the call: the records up to and including the
   * first one that throws are reached, in order, and none after it.
   */
  lemma {:induction false} BroadcastStopsAtThrow<A>(u: seq<Invocation>, x: Invocation, v: seq<Invocation>,
                                                   args: A, log: seq<Invocation>)
    requires AllBound(u) && AllBound(v) && !x.IsEmpty()
    requires forall i | 0 <= i < |u| :: u[i].fn != x.fn
    ensures AllBound(u + [x] + v)
    ensures Broadcast(u + [x] + v, Tracer(x.fn), args, log) == Threw(log + u + [x])
    decreases |u|
  {
    var s := u + [x] + v;
    if u == [] {
      assert s[0] == x && s[1..] == v;
      assert Tracer(x.fn)(x.fn.value, x.obj, args, log) == Threw(log + [x]);
      assert Broadcast(s, Tracer(x.fn), args, log) == Threw(log + [x]);
      assert log + u + [x] == log + [x];
    } else {
      assert s[0] == u[0] && s[1..] == u[1..] + [x] + v;
      var next := log + [Invocation(u[0].obj, Some(u[0].fn.value))];
      assert next == log + [u[0]];
      assert Tracer(x.fn)(u[0].fn.value, u[0].obj, args, log) == Returned((), next);
      assert Broadcast(s, Tracer(x.fn), args, log) == Broadcast(u[1..] + [x] + v, Tracer(x.fn), args, next);
      BroadcastStopsAtThrow(u[1..], x, v, args, next);
      assert next + u[1..] + [x] == log + u + [x];
    }
  }

  /** What a handler is given: the running index and the result of that call. */
  datatype Report<R> = Report(index: nat, result: R)

  /** Callees that return a result depending only on trampoline, object and arguments, and leave the world alone. */
  function Pure<A, R>(call: (Trampoline, Option<nat>, A) -> R): Dispatch<A, R, seq<Report<R>>> {
    (t: Trampoline, o: Option<nat>, a: A, w: seq<Report<R>>) => Returned(call(t, o, a), w)
  }

  /** A handler that records every (index, result) pair it is given. */
  function LogReports<R>(): (nat, R, seq<Report<R>>) -> Reply<(), seq<Report<R>>> {
    (i: nat, r: R, w: seq<Report<R>>) => Returned((), w + [Report(i, r)])
  }

  /**
   * The handler form of the call reports each record's result once, in
   * sequence order, with running indices `from`, `from + 1`, ...
   */
  lemma {:induction false} CollectReportsInOrder<A, R>(s: seq<Invocation>, from: nat,
                                                      call: (Trampoline, Option<nat>, A) -> R,
                                                      args: A, log: seq<Report<R>>)
    requires AllBound(s)
    ensures Collect(s, from, Pure(call), LogReports(), args, log).Returned?
    ensures var out := Collect(s, from, Pure(call), LogReports(), args, log).world;
            && |out| == |log| + |s|
            && out[..|log|] == log
            && forall k | 0 <= k < |s| :: out[|log| + k] == Report(from + k, call(s[k].fn.value, s[k].obj, args))
    decreases |s|
  {
    if s != [] {
      var next := log + [Report(from, call(s[0].fn.value, s[0].obj, args))];
      assert Collect(s, from, Pure(call), LogReports(), args, log)
          == Collect(s[1..], from + 1, Pure(call), LogReports(), args, next);
      CollectReportsInOrder(s[1..], from + 1, call, args, next);
      var out := Collect(s, from, Pure(call), LogReports(), args, log).world;
      assert out[..|next|][..|log|] == out[..|log|];
      forall k | 0 <= k < |s|
        ensures out[|log| + k] == Report(from + k, call(s[k].fn.value, s[k].obj, args))
      {
        if k > 0 {
          assert out[|next| + (k - 1)] == Report(from + 1 + (k - 1), call(s[1..][k - 1].fn.value, s[1..][k - 1].obj, args));
        }
      }
    }
  }

  // ---------------------------------------------------------------------------
  // The algorithms of the multicast delegate.

  /** Linear search for the first record equal to `x` (`std::find`). */
  method Find(s: seq<Invocation>, x: Invocation) returns (k: nat)
    ensures k == IndexOf(s, x)
  {
    k := 0;
    while k < |s| && s[k] != x
      invariant k <= |s|
      invariant x !in s[..k]
    {
      assert s[..k + 1] == s[..k] + [s[k]];
      k := k + 1;
    }
    if k == |s| {
      assert s[..k] == s;
    }
  }

  /** `std::find` then `erase`: takes out the first record equal to `x`, if any. */
  method Erase(s: seq<Invocation>, x: Invocation) returns (r: seq<Invocation>)
    ensures r == RemoveFirst(s, x)
  {
    var k := Find(s, x);
    if k < |s| {
      r := s[..k] + s[k + 1..];
    } else {
      r := s;
    }
  }

  /** Erasing a record never brings in an empty one. */
  lemma RemoveFirstBound(s: seq<Invocation>, x: Invocation)
    requires AllBound(s)
    ensures AllBound(RemoveFirst(s, x))
  {
    var k := IndexOf(s, x);
    if k < |s| {
      var r := RemoveFirst(s, x);
      forall i | 0 <= i < |r|
        ensures !r[i].IsEmpty()
      {
        if i < k {
          assert r[i] == s[i];
        } else {
          assert r[i] == s[i + 1];
        }
      }
    }
  }

  /** A multicast delegate: an ordered sequence of non-empty invocation records. */
  class MultiDelegate {
    var invocations: seq<Invocation>

    /** No empty record is ever stored. */
    ghost predicate Valid()
      reads this
    {
      AllBound(invocations)
    }

    /** The default constructor: no records. */
    constructor()
      ensures Valid() && invocations == []
    {
      invocations := [];
    }

    /**
     * The number of stored records, each duplicate counted: no record is
     * stored more often than that, and it is the position `std::find`
     * reports exactly for a record that is not stored (the end iterator).
     */
    function Size(): (r: nat)
      reads this
      ensures forall x :: multiset(invocations)[x] <= r
      ensures forall x :: IndexOf(invocations, x) == r <==> x !in invocations
    {
      |invocations|
    }

    /** True when no record is stored. */
    predicate IsEmpty()
      reads this
      ensures IsEmpty() <==> Size() == 0
    {
      |invocations| == 0
    }

    /** Two multicast delegates are equal when their record sequences are, element by element. */
    function Equals(other: MultiDelegate): (r: bool)
      reads this, other
      ensures r <==> |invocations| == |other.invocations|
                     && forall i | 0 <= i < |invocations| :: invocations[i] == other.invocations[i]
    {
      invocations == other.invocations
    }

    /**
     * A multicast delegate equals a delegate when both are empty, or when it
     * holds exactly one record and that record is the delegate's.
     */
    function EqualsDelegate(d: Delegate): (r: bool)
      reads this
      ensures r <==> (invocations == [] && d.IsEmpty()) || (!d.IsEmpty() && invocations == [d.invocation])
    {
      if IsEmpty() && d.IsEmpty() then true
      else if Size() != 1 || d.IsEmpty() then false
      else SameInvocation(d.invocation, invocations[0])
    }

    /** `m += d`: appends the delegate's record unless the delegate is empty. */
    method Add(d: Delegate)
      requires Valid()
      modifies this
      ensures Valid()
      ensures invocations == if d.IsEmpty() then old(invocations) else old(invocations) + [d.invocation]
    {
      if !d.IsEmpty() {
        invocations := invocations + [d.invocation];
      }
    }

    /** `m += m2`: appends all records of `m2`, in order. */
    method AddAll(other: MultiDelegate)
      requires Valid() && other.Valid() && other != this
      modifies this
      ensures Valid()
      ensures invocations == old(invocations) + other.invocations
    {
      var i := 0;
      while i < |other.invocations|
        invariant 0 <= i <= |other.invocations|
        invariant Valid()
        invariant invocations == old(invocations) + other.invocations[..i]
      {
        assert other.invocations[..i + 1] == other.invocations[..i] + [other.invocations[i]];
        invocations := invocations + [other.invocations[i]];
        i := i + 1;
      }
      assert other.invocations[..i] == other.invocations;
    }

    /** `m -= d`: erases the first record equal to the delegate's, if any. */
    method Remove(d: Delegate)
      requires Valid()
      modifies this
      ensures Valid()
      ensures invocations == RemoveFirst(old(invocations), d.invocation)
    {
      RemoveFirstBound(invocations, d.invocation);
      invocations := Erase(invocations, d.invocation);
    }

    /** `m -= m2`: for each record of `m2` in order, erases the first equal record still present. */
    method RemoveAll(other: MultiDelegate)
      requires Valid() && other.Valid() && other != this
      modifies this
      ensures Valid()
      ensures invocations == RemoveEach(old(invocations), other.invocations)
    {
      var i := 0;
      while i < |other.invocations|
        invariant 0 <= i <= |other.invocations|
        invariant Valid()
        invariant RemoveEach(invocations, other.invocations[i..]) == RemoveEach(old(invocations), other.invocations)
      {
        var x := other.invocations[i];
        RemoveEachStep(invocations, other.invocations, i);
        RemoveFirstBound(invocations, x);
        invocations := Erase(invocations, x);
        i := i + 1;
      }
    }

    /** Calls every record in order with the same arguments, discarding the results; a throw ends the loop. */
    method Call<A, R, S>(dispatch: Dispatch<A, R, S>, args: A, w: S) returns (r: Reply<(), S>)
      requires Valid()
      ensures r == Broadcast(invocations, dispatch, args, w)
    {
      var world := w;
      var i := 0;
      while i < |invocations|
        invariant 0 <= i <= |invocations|
        invariant AllBound(invocations[i..])
        invariant Broadcast(invocations[i..], dispatch, args, world) == Broadcast(invocations, dispatch, args, w)
      {
        var invocation := invocations[i];
        assert invocations[i..][0] == invocation && invocations[i..][1..] == invocations[i + 1..];
        var reply := dispatch(invocation.fn.value, invocation.obj, args, world);
        if reply.Threw? {
          return Threw(reply.world);
        }
        world := reply.world;
        i := i + 1;
      }
      r := Returned((), world);
    }

    /**
     * Calls every record in order, handing each result with a running index
     * 0, 1, ... to the handler; a throw from a callee or the handler ends the loop.
     */
    method CallWithHandler<A, R, S>(dispatch: Dispatch<A, R, S>, args: A, handler: (nat, R, S) -> Reply<(), S>, w: S)
      returns (r: Reply<(), S>)
      requires Valid()
      ensures r == Collect(invocations, 0, dispatch, handler, args, w)
    {
      var world := w;
      var index: nat := 0;
      var i := 0;
      while i < |invocations|
        invariant 0 <= i <= |invocations| && index == i
        invariant AllBound(invocations[i..])
        invariant Collect(invocations[i..], index, dispatch, handler, args, world)
               == Collect(invocations, 0, dispatch, handler, args, w)
      {
        var invocation := invocations[i];
        assert invocations[i..][0] == invocation && invocations[i..][1..] == invocations[i + 1..];
        var reply := dispatch(invocation.fn.value, invocation.obj, args, world);
        if reply.Threw? {
          return Threw(reply.world);
        }
        var handled := handler(index, reply.value, reply.world);
        if handled.Threw? {
          return Threw(handled.world);
        }
        world := handled.world;
        index := index + 1;
        i := i + 1;
      }
      r := Returned((), world);
    }

    /** Removes every record. */
    method Clear()
      modifies this
      ensures Valid() && invocations == [] && IsEmpty() && Size() == 0
    {
      invocations := [];
    }
  }

  /** `d == m` is the same relation as `m == d`. */
  function DelegateEqualsMulti(d: Delegate, m: MultiDelegate): (r: bool)
    reads m
    ensures r <==> (m.invocations == [] && d.IsEmpty()) || (!d.IsEmpty() && m.invocations == [d.invocation])
  {
    m.EqualsDelegate(d)
  }
}
