/** Lazy slices of slices, to any depth, and the sequence they stand for. */
module SliceViews {
  import opened Common
  import opened SliceIndices

  /** What a slice object looks at: the sequence behind the root accessor, or
      a strided part of another view. */
  datatype View =
    | Root(length: nat)
    | Derived(parent: View, start: int, step: int, length: nat)

  /** `subscript` with a slice argument. */
  function Slice(v: View, u: Unpacked): View
    requires u.step != 0
  {
    var start := Adjust(v.length, u.start, u.step);
    var stop := Adjust(v.length, u.stop, u.step);
    Derived(v, start, u.step, Count(start, stop, u.step))
  }

  /** `item`: the index handed to the root accessor; None is the IndexError. */
  function Resolve(v: View, idx: int): Option<int> {
    if idx < 0 || idx >= v.length then None
    else
      match v
      case Root(_) => Some(idx)
      case Derived(parent, start, step, _) => Resolve(parent, start + idx * step)
  }

  /** `subscript` with an integer argument. */
  function Subscript(v: View, idx: int): Option<int> {
    Resolve(v, if idx < 0 then idx + v.length else idx)
  }

  /** Every index of every view of the chain falls inside the view below it, and
      no computed index leaves `Py_ssize_t`. */
  ghost predicate WellFormed(v: View) {
    && v.length <= SSIZE_MAX
    && match v
       case Root(_) => true
       case Derived(parent, start, step, length) =>
         && WellFormed(parent) && step != 0
         && forall k {:trigger k * step} :: 0 <= k < length ==>
              0 <= start + k * step < parent.length && IsSsize(k * step)
  }

  lemma SliceKeepsWellFormed(v: View, u: Unpacked)
    requires WellFormed(v) && Unpackable(u)
    ensures WellFormed(Slice(v, u)) && Slice(v, u).length <= v.length
  {
    var s := Slice(v, u);
    AdjustStaysInRange(v.length, u);
    forall k {:trigger k * u.step} | 0 <= k < s.length
      ensures 0 <= s.start + k * u.step < v.length && IsSsize(k * u.step)
    {
      ItemStaysInParent(v.length, u, k);
    }
  }

  // ----- the composed affine index -----

  function RootOf(v: View): View {
    match v case Root(_) => v case Derived(parent, _, _, _) => RootOf(parent)
  }

  /** The root index of element 0 of a view, and the distance between neighbours. */
  function Base(v: View): int {
    match v case Root(_) => 0 case Derived(parent, start, _, _) => Base(parent) + Stride(parent) * start
  }

  function Stride(v: View): int {
    match v case Root(_) => 1 case Derived(parent, _, step, _) => Stride(parent) * step
  }

  /** The sign of the product of all steps of the chain. */
  function Sign(v: View): int {
    match v
    case Root(_) => 1
    case Derived(parent, _, step, _) => if step < 0 then -Sign(parent) else Sign(parent)
  }

  /** The root index of element k according to the composed affine map. */
  function AffineIndex(v: View, k: int): int {
    Base(v) + k * Stride(v)
  }

  lemma AffineStep(v: View, k: int)
    requires v.Derived?
    ensures AffineIndex(v, k) == AffineIndex(v.parent, v.start + k * v.step)
  {
  }

  /** A chain of any depth resolves each of its indices by one affine map into the root. */
  lemma {:induction false} ResolveIsAffine(v: View, k: int)
    requires WellFormed(v)
    ensures Resolve(v, k) == if 0 <= k < v.length then Some(AffineIndex(v, k)) else None
    ensures 0 <= k < v.length ==> 0 <= AffineIndex(v, k) < RootOf(v).length
    decreases v
  {
    if 0 <= k < v.length && v.Derived? {
      AffineStep(v, k);
      ResolveIsAffine(v.parent, v.start + k * v.step);
    }
  }

  lemma {:induction false} StrideSign(v: View)
    requires WellFormed(v)
    ensures Sign(v) == 1 || Sign(v) == -1
    ensures if Sign(v) == 1 then Stride(v) > 0 else Stride(v) < 0
    decreases v
  {
    if v.Derived? {
      StrideSign(v.parent);
      SignOfProduct(Stride(v.parent), v.step);
    }
  }

  lemma SignOfProduct(a: int, b: int)
    ensures a > 0 && b > 0 ==> a * b > 0
    ensures a > 0 && b < 0 ==> a * b < 0
    ensures a < 0 && b > 0 ==> a * b < 0
    ensures a < 0 && b < 0 ==> a * b > 0
  {
  }

  /** The root indices of a view's elements are strictly monotone in the sign of
      the product of the steps; in particular no two elements are the same one. */
  lemma ResolveIsMonotone(v: View, j: int, k: int)
    requires WellFormed(v) && 0 <= j < k < v.length
    ensures var a, b := Resolve(v, j), Resolve(v, k);
            a.Some? && b.Some? && (if Sign(v) == 1 then a.value < b.value else a.value > b.value)
  {
    ResolveIsAffine(v, j);
    ResolveIsAffine(v, k);
    StrideSign(v);
    SignOfProduct(k - j, Stride(v));
    assert (k - j) * Stride(v) == k * Stride(v) - j * Stride(v);
  }

  // ----- the sequence a chain of slices stands for -----

  /** Python's `s[start:stop:step]` on a value: the elements at the positions the walk visits. */
  function PythonSlice<T>(s: seq<T>, u: Unpacked): seq<T>
    requires u.step != 0
  {
    var w := Indices(|s|, u);
    seq(|w|, k requires 0 <= k < |w| =>
      IndicesAreSelected(|s|, u, w[k]);
      s[w[k]])
  }

  lemma PythonSliceAt<T>(s: seq<T>, u: Unpacked)
    requires u.step != 0
    ensures var start := Adjust(|s|, u.start, u.step);
            && |PythonSlice(s, u)| == Count(start, Adjust(|s|, u.stop, u.step), u.step)
            && forall k :: 0 <= k < |PythonSlice(s, u)| ==>
                 && 0 <= start + k * u.step < |s|
                 && PythonSlice(s, u)[k] == s[start + k * u.step]
  {
    var start := Adjust(|s|, u.start, u.step);
    WalkIsProgression(start, Adjust(|s|, u.stop, u.step), u.step);
    forall k | 0 <= k < |PythonSlice(s, u)|
      ensures 0 <= start + k * u.step < |s|
    {
      IndicesAreSelected(|s|, u, Indices(|s|, u)[k]);
    }
  }

  ghost predicate AllUnpackable(slices: seq<Unpacked>) {
    forall k :: 0 <= k < |slices| ==> Unpackable(slices[k])
  }

  /** The view made by slicing a root view again and again, and the value Python
      computes by slicing the sequence itself again and again. */
  function Chain(length: nat, slices: seq<Unpacked>): View
    requires AllUnpackable(slices)
  {
    if slices == [] then Root(length)
    else Slice(Chain(length, slices[..|slices| - 1]), slices[|slices| - 1])
  }

  function Nested<T>(s: seq<T>, slices: seq<Unpacked>): seq<T>
    requires AllUnpackable(slices)
  {
    if slices == [] then s
    else PythonSlice(Nested(s, slices[..|slices| - 1]), slices[|slices| - 1])
  }

  /** A view shows the elements of `value` through the accessor of `s`. */
  ghost predicate Shows<T>(v: View, s: seq<T>, value: seq<T>) {
    && v.length == |value|
    && forall k :: 0 <= k < |value| ==>
         Resolve(v, k).Some? && 0 <= Resolve(v, k).value < |s| && s[Resolve(v, k).value] == value[k]
  }

  lemma SliceShows<T>(v: View, s: seq<T>, value: seq<T>, u: Unpacked)
    requires Shows(v, s, value) && Unpackable(u)
    ensures Shows(Slice(v, u), s, PythonSlice(value, u))
  {
    PythonSliceAt(value, u);
    var d, r := Slice(v, u), PythonSlice(value, u);
    forall k | 0 <= k < |r|
      ensures Resolve(d, k).Some? && 0 <= Resolve(d, k).value < |s| && s[Resolve(d, k).value] == r[k]
    {
      var i := d.start + k * u.step;
      assert 0 <= i < |value| && r[k] == value[i];
      assert Resolve(d, k) == Resolve(v, i);
    }
  }

  /** Nested slices denote Python slicing: at any depth a view has the length and
      the elements of the sequence sliced by value, each fetched from the root. */
  lemma {:induction false} ChainDenotesNested<T>(s: seq<T>, slices: seq<Unpacked>)
    requires |s| <= SSIZE_MAX && AllUnpackable(slices)
    ensures WellFormed(Chain(|s|, slices)) && Shows(Chain(|s|, slices), s, Nested(s, slices))
    decreases slices
  {
    if slices != [] {
      var init, last := slices[..|slices| - 1], slices[|slices| - 1];
      ChainDenotesNested(s, init);
      SliceKeepsWellFormed(Chain(|s|, init), last);
      SliceShows(Chain(|s|, init), s, Nested(s, init), last);
    }
  }

  /** The subscript `v[idx]` is Python's: indices below -len or from len on are an
      IndexError, negative ones count from the end. */
  lemma SubscriptIsPython<T>(s: seq<T>, slices: seq<Unpacked>, idx: int)
    requires |s| <= SSIZE_MAX && AllUnpackable(slices)
    ensures var v, value := Chain(|s|, slices), Nested(s, slices);
            var r := Subscript(v, idx);
            if -|value| <= idx < |value|
            then r.Some? && 0 <= r.value < |s| && s[r.value] == value[if idx < 0 then idx + |value| else idx]
            else r.None?
  {
    ChainDenotesNested(s, slices);
  }

  // ----- laws of Python slicing that views therefore obey -----

  /** `v[a:b]` */
  function Part(v: View, a: int, b: int): View {
    Slice(v, Unpacked(a, b, 1))
  }

  predicate InOrder(length: nat, a: int, b: int, c: int) {
    Adjust(length, a, 1) <= Adjust(length, b, 1) <= Adjust(length, c, 1)
  }

  /** `v[a:b]` followed by `v[b:c]` is `v[a:c]` for every view of every chain,
      whenever a, b, c are in order once adjusted: index by index through the
      root, and in the values shown. */
  lemma AdjacentSlices<T>(s: seq<T>, slices: seq<Unpacked>, a: int, b: int, c: int, k: int)
    requires |s| <= SSIZE_MAX && AllUnpackable(slices) && IsSsize(a) && IsSsize(b) && IsSsize(c)
    requires InOrder(Chain(|s|, slices).length, a, b, c)
    ensures var v := Chain(|s|, slices);
            && Part(v, a, c).length == Part(v, a, b).length + Part(v, b, c).length
            && Resolve(Part(v, a, c), k) ==
               if k < Part(v, a, b).length then Resolve(Part(v, a, b), k)
               else Resolve(Part(v, b, c), k - Part(v, a, b).length)
    ensures var value := Nested(s, slices);
            Shows(Part(Chain(|s|, slices), a, c), s,
                  PythonSlice(value, Unpacked(a, b, 1)) + PythonSlice(value, Unpacked(b, c, 1)))
  {
    var v, value := Chain(|s|, slices), Nested(s, slices);
    ChainDenotesNested(s, slices);
    AdjacentParts(v, a, b, c, k);
    AdjacentValues(value, a, b, c);
    SliceShows(v, s, value, Unpacked(a, c, 1));
  }

  lemma AdjacentParts(v: View, a: int, b: int, c: int, k: int)
    requires InOrder(v.length, a, b, c)
    ensures Part(v, a, c).length == Part(v, a, b).length + Part(v, b, c).length
    ensures Resolve(Part(v, a, c), k) ==
            if k < Part(v, a, b).length then Resolve(Part(v, a, b), k)
            else Resolve(Part(v, b, c), k - Part(v, a, b).length)
  {
  }

  lemma AdjacentValues<T>(s: seq<T>, a: int, b: int, c: int)
    requires InOrder(|s|, a, b, c)
    ensures PythonSlice(s, Unpacked(a, b, 1)) + PythonSlice(s, Unpacked(b, c, 1)) == PythonSlice(s, Unpacked(a, c, 1))
  {
    UnitSlice(s, a, b);
    UnitSlice(s, b, c);
    UnitSlice(s, a, c);
  }

  lemma UnitSlice<T>(s: seq<T>, a: int, b: int)
    ensures var i, j := Adjust(|s|, a, 1), Adjust(|s|, b, 1);
            && 0 <= i <= |s| && 0 <= j <= |s|
            && PythonSlice(s, Unpacked(a, b, 1)) == if i < j then s[i..j] else []
  {
    PythonSliceAt(s, Unpacked(a, b, 1));
  }

  /** `s[::-1]` */
  const REVERSAL := Unpack(SliceArg(None, None, Some(-1))).value

  lemma ReversalAt<T>(s: seq<T>)
    requires |s| <= SSIZE_MAX
    ensures |PythonSlice(s, REVERSAL)| == |s|
    ensures forall k :: 0 <= k < |s| ==> PythonSlice(s, REVERSAL)[k] == s[|s| - 1 - k]
  {
    PythonSliceAt(s, REVERSAL);
    assert REVERSAL == Unpacked(SSIZE_MAX, SSIZE_MIN, -1);
  }

  /** Reversing any view twice shows what the view showed. */
  lemma DoubleReversal<T>(s: seq<T>, slices: seq<Unpacked>)
    requires |s| <= SSIZE_MAX && AllUnpackable(slices)
    ensures AllUnpackable(slices + [REVERSAL, REVERSAL])
    ensures Shows(Chain(|s|, slices + [REVERSAL, REVERSAL]), s, Nested(s, slices))
  {
    assert REVERSAL == Unpacked(SSIZE_MAX, SSIZE_MIN, -1);
    var once, twice := slices + [REVERSAL], slices + [REVERSAL, REVERSAL];
    assert once[..|slices|] == slices && twice[..|slices| + 1] == once;
    ChainDenotesNested(s, slices);
    ChainDenotesNested(s, twice);
    var value := Nested(s, slices);
    ReversalAt(value);
    ReversalAt(PythonSlice(value, REVERSAL));
    assert Nested(s, twice) == value;
  }
}
