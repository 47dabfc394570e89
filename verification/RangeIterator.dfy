/** `range_iterator` of `btck.hpp`: an index of type `size_t`, moved and compared
    with wrapping unsigned arithmetic, next to the integer arithmetic that the
    requirements of [random.access.iterators] in C++20 speak of. */
module RangeIterator {
  import opened Common

  /** A `size_t`. */
  type Size = x: int | 0 <= x < SIZE_MOD

  /** A `ptrdiff_t`. */
  type Diff = x: int | SSIZE_MIN <= x <= SSIZE_MAX

  /** `idx_ += n`: the signed operand is converted to `size_t` first. */
  function Plus(i: Size, n: Diff): Size {
    (i + n) % SIZE_MOD
  }

  function Minus(i: Size, n: Diff): Size {
    (i - n) % SIZE_MOD
  }

  /** `left - right` of two iterators, converted to `ptrdiff_t`. */
  function Distance(left: Size, right: Size): Diff {
    ToSsize((left - right) % SIZE_MOD)
  }

  /** A sum of an index and an offset wraps at most once. */
  lemma WrapsOnce(x: int)
    requires -SIZE_MOD <= x < 2 * SIZE_MOD
    ensures x % SIZE_MOD == if x < 0 then x + SIZE_MOD else if x < SIZE_MOD then x else x - SIZE_MOD
  {
  }

  /** Every distance can be walked, wherever the indices lie: no bound on the range is needed. */
  lemma DistanceLaws(i: Size, j: Size)
    ensures Plus(i, Distance(j, i)) == j
    ensures Minus(j, Distance(j, i)) == i
    ensures Distance(i, j) == 0 <==> i == j
  {
    WrapsOnce(j - i);
    WrapsOnce(i - j);
  }

  /** Every step can be undone and measured, wherever it leads. */
  lemma StepLaws(i: Size, n: Diff)
    ensures Minus(Plus(i, n), n) == i && Plus(Minus(i, n), n) == i
    ensures Distance(Plus(i, n), i) == n
  {
    WrapsOnce(i + n);
    WrapsOnce(i - n);
    WrapsOnce(Plus(i, n) - n);
    WrapsOnce(Minus(i, n) + n);
    WrapsOnce(Plus(i, n) - i);
  }

  function Sum(steps: seq<Diff>): int {
    if steps == [] then 0 else Sum(steps[..|steps| - 1]) + steps[|steps| - 1]
  }

  /** The index after a run of `+=` steps (`-=` steps count negative). */
  function Moved(i: Size, steps: seq<Diff>): Size {
    if steps == [] then i else Plus(Moved(i, steps[..|steps| - 1]), steps[|steps| - 1])
  }

  /** A run of steps ends where integer arithmetic says, even when it leaves the
      range, or wraps, on the way. */
  lemma {:induction false} MovedIsSum(i: Size, steps: seq<Diff>)
    ensures Moved(i, steps) == (i + Sum(steps)) % SIZE_MOD
    ensures 0 <= i + Sum(steps) < SIZE_MOD ==> Moved(i, steps) == i + Sum(steps)
    decreases steps
  {
    if steps != [] {
      MovedIsSum(i, steps[..|steps| - 1]);
      WrapAdd(i + Sum(steps[..|steps| - 1]), steps[|steps| - 1]);
    }
  }

  lemma WrapAdd(x: int, n: int)
    ensures (x % SIZE_MOD + n) % SIZE_MOD == (x + n) % SIZE_MOD
  {
  }

  /** The difference is the integer one exactly when that one fits a `ptrdiff_t`. */
  lemma DistanceExactIff(i: Size, j: Size)
    ensures Distance(i, j) == i - j <==> IsSsize(i - j)
  {
  }

  /** The order of two iterators agrees with the sign of their difference exactly
      when they are no further apart than a `ptrdiff_t` can tell. */
  lemma OrderAgreesIff(i: Size, j: Size)
    ensures (i < j <==> Distance(j, i) > 0) <==> IsSsize(j - i)
  {
  }

  /** On a range of at most PTRDIFF_MAX elements all of it is integer arithmetic. */
  lemma IntegerOnRanges(size: nat, i: Size, j: Size, n: Diff)
    requires size <= SSIZE_MAX && i <= size && j <= size
    ensures Distance(j, i) == j - i
    ensures i < j <==> Distance(j, i) > 0
    ensures 0 <= i + n <= size ==> Plus(i, n) == i + n
    ensures 0 <= i - n <= size ==> Minus(i, n) == i - n
  {
  }

  class Iterator<T> {
    const range: seq<T>
    var idx: Size

    constructor (range: seq<T>, idx: Size)
      ensures this.range == range && this.idx == idx
    {
      this.range := range;
      this.idx := idx;
    }

    /** `operator*` */
    function Deref(): T
      requires idx < |range|
      reads this
    {
      range[idx]
    }

    /** `operator++` */
    method Increment()
      modifies this
      ensures idx == Plus(old(idx), 1)
    {
      idx := (idx + 1) % SIZE_MOD;
    }

    /** `operator--` */
    method Decrement()
      modifies this
      ensures idx == Minus(old(idx), 1)
    {
      idx := (idx - 1) % SIZE_MOD;
    }

    /** `operator+=` */
    method Advance(n: Diff)
      modifies this
      ensures idx == Plus(old(idx), n)
    {
      var unsigned := n % SIZE_MOD;
      idx := (idx + unsigned) % SIZE_MOD;
    }

    /** `operator-=` */
    method Retreat(n: Diff)
      modifies this
      ensures idx == Minus(old(idx), n)
    {
      var unsigned := n % SIZE_MOD;
      idx := (idx - unsigned) % SIZE_MOD;
    }

    /** `operator[]`: the offset is a `size_t` that `operator+` takes as a `ptrdiff_t`. */
    method At(n: Size) returns (value: T)
      requires Plus(idx, ToSsize(n)) < |range|
      ensures value == range[Plus(idx, ToSsize(n))]
    {
      var moved := new Iterator(range, idx);
      moved.Advance(ToSsize(n));
      value := moved.Deref();
    }
  }

  /** From any iterator into a range, `operator[]` reaches every element, before
      and behind it, through the wrapped offset. */
  lemma SubscriptReaches(size: nat, i: Size, k: nat)
    requires size <= SSIZE_MAX && i <= size && k < size
    ensures Plus(i, ToSsize((k - i) % SIZE_MOD)) == k
  {
  }

  function Reversed<T>(s: seq<T>): (r: seq<T>)
    ensures |r| == |s| && forall k :: 0 <= k < |s| ==> r[k] == s[|s| - 1 - k]
  {
    if s == [] then [] else Reversed(s[1..]) + [s[0]]
  }

  /** Stepping from `begin()` to `end()` visits every element once, in order. */
  method Forward<T>(range: seq<T>) returns (visited: seq<T>)
    requires |range| < SIZE_MOD
    ensures visited == range
  {
    visited := [];
    var it := new Iterator(range, 0);
    var end := new Iterator(range, |range|);
    while it.idx != end.idx
      invariant fresh(it) && fresh(end) && it != end && it.range == range && end.idx == |range|
      invariant it.idx <= |range| && visited == range[..it.idx]
      decreases |range| - it.idx
    {
      visited := visited + [it.Deref()];
      it.Increment();
    }
  }

  /** Stepping from `rbegin()` to `rend()`: a `std::reverse_iterator` refers to the
      element before its base iterator. */
  method Backward<T>(range: seq<T>) returns (visited: seq<T>)
    requires |range| < SIZE_MOD
    ensures visited == Reversed(range)
  {
    visited := [];
    var base := new Iterator(range, |range|);
    var end := new Iterator(range, 0);
    while base.idx != end.idx
      invariant fresh(base) && fresh(end) && base != end && base.range == range && end.idx == 0
      invariant base.idx <= |range| && |visited| == |range| - base.idx
      invariant forall k :: 0 <= k < |visited| ==> visited[k] == range[|range| - 1 - k]
      decreases base.idx
    {
      var before := new Iterator(range, base.idx);
      before.Decrement();
      visited := visited + [before.Deref()];
      base.Decrement();
    }
  }
}
