/** The index arithmetic behind a Python slice: `PySlice_Unpack` and
    `PySlice_AdjustIndices` of the Python/C API ("Slice Objects"), against the
    walk that `range(start, stop, step)` makes. */
module SliceIndices {
  import opened Common

  /** `start:stop:step` as written, with arbitrary Python integers. */
  datatype SliceArg = SliceArg(start: Option<int>, stop: Option<int>, step: Option<int>)

  datatype Unpacked = Unpacked(start: int, stop: int, step: int)

  function Clip(x: int): int {
    if x < SSIZE_MIN then SSIZE_MIN else if x > SSIZE_MAX then SSIZE_MAX else x
  }

  /** `PySlice_Unpack`; None is the ValueError for a zero step. */
  function Unpack(arg: SliceArg): (r: Option<Unpacked>)
    ensures r.None? <==> arg.step == Some(0)
    ensures r.Some? ==> Unpackable(r.value)
  {
    var clipped := match arg.step case None => 1 case Some(s) => Clip(s);
    if clipped == 0 then None
    else
      var step := if clipped < -SSIZE_MAX then -SSIZE_MAX else clipped;
      var start := match arg.start case None => if step < 0 then SSIZE_MAX else 0 case Some(x) => Clip(x);
      var stop := match arg.stop case None => if step < 0 then SSIZE_MIN else SSIZE_MAX case Some(x) => Clip(x);
      Some(Unpacked(start, stop, step))
  }

  /** What `PySlice_AdjustIndices` may be handed. */
  predicate Unpackable(u: Unpacked) {
    IsSsize(u.start) && IsSsize(u.stop) && -SSIZE_MAX <= u.step <= SSIZE_MAX && u.step != 0
  }

  /** What `PySlice_AdjustIndices` makes of a start or a stop. */
  function Adjust(length: nat, x: int, step: int): int {
    if x < 0 then
      if x + length < 0 then (if step < 0 then -1 else 0) else x + length
    else if x >= length then
      if step < 0 then length - 1 else length
    else x
  }

  /** The length `PySlice_AdjustIndices` returns for an adjusted start and stop. */
  function Count(start: int, stop: int, step: int): nat
    requires step != 0
  {
    if step < 0 then
      if stop < start then (start - stop - 1) / (-step) + 1 else 0
    else
      if start < stop then (stop - start - 1) / step + 1 else 0
  }

  /** No intermediate result of `PySlice_AdjustIndices` leaves `Py_ssize_t`, and
      the results fit the sequence. */
  lemma AdjustStaysInRange(length: nat, u: Unpacked)
    requires length <= SSIZE_MAX && Unpackable(u)
    ensures u.start < 0 ==> IsSsize(u.start + length)
    ensures u.stop < 0 ==> IsSsize(u.stop + length)
    ensures var a, b := Adjust(length, u.start, u.step), Adjust(length, u.stop, u.step);
            && IsSsize(-u.step) && IsSsize(a - b) && IsSsize(a - b - 1) && IsSsize(b - a - 1)
            && (if u.step < 0 then -1 <= a < length else 0 <= a <= length)
            && (if u.step < 0 then -1 <= b < length else 0 <= b <= length)
            && Count(a, b, u.step) <= length
  {
    var a, b := Adjust(length, u.start, u.step), Adjust(length, u.stop, u.step);
    if u.step > 0 && a < b {
      CountBound(b - a, u.step);
    }
    if u.step < 0 && b < a {
      CountBound(a - b, -u.step);
    }
  }

  lemma CountBound(n: int, s: int)
    requires n > 0 && s > 0
    ensures (n - 1) / s + 1 <= n
  {
    var q := (n - 1) / s;
    assert n - 1 == q * s + (n - 1) % s;
    if q >= n {
      MulAtLeast(q, s);
    }
  }

  lemma MulAtLeast(q: int, s: int)
    requires q >= 0 && s >= 1
    ensures q * s >= q
  {
  }

  // ----- the reference -----

  /** The values of `range(i, stop, step)`: from `i` by `step` as long as `stop` is not reached. */
  function Walk(i: int, stop: int, step: int): seq<int>
    requires step != 0
    decreases if step > 0 then stop - i else i - stop
  {
    if (step > 0 && i < stop) || (step < 0 && i > stop) then [i] + Walk(i + step, stop, step) else []
  }

  lemma CountStep(i: int, stop: int, step: int)
    requires step != 0 && ((step > 0 && i < stop) || (step < 0 && i > stop))
    ensures Count(i, stop, step) == 1 + Count(i + step, stop, step)
  {
    var (n, s) := if step > 0 then (stop - i, step) else (i - stop, -step);
    if n > s {
      DivShift(n - 1, s);
    } else {
      DivSmall(n - 1, s);
    }
  }

  lemma DivShift(n: int, s: int)
    requires n >= s > 0
    ensures n / s == (n - s) / s + 1
  {
    DivUnique(n, s, (n - s) / s + 1, (n - s) % s);
  }

  lemma DivSmall(n: int, s: int)
    requires 0 <= n < s
    ensures n / s == 0
  {
  }

  lemma DivUnique(n: int, s: int, q: int, r: int)
    requires s > 0 && 0 <= r < s && n == q * s + r
    ensures n / s == q && n % s == r
  {
    var d := n / s - q;
    assert n == (n / s) * s + n % s;
    assert (n / s) * s - q * s == d * s;
    assert d * s == r - n % s;
    if d >= 1 {
      MulAtLeast(s, d);
    } else if d <= -1 {
      MulAtLeast(s, -d);
    }
  }

  /** The k-th value of the walk, and how many there are. */
  lemma {:induction false} WalkIsProgression(i: int, stop: int, step: int)
    requires step != 0
    ensures var w := Walk(i, stop, step);
            && |w| == Count(i, stop, step)
            && forall k :: 0 <= k < |w| ==> w[k] == i + k * step
    decreases if step > 0 then stop - i else i - stop
  {
    if (step > 0 && i < stop) || (step < 0 && i > stop) {
      CountStep(i, stop, step);
      WalkIsProgression(i + step, stop, step);
      var w := Walk(i, stop, step);
      forall k | 0 < k < |w|
        ensures w[k] == i + k * step
      {
        assert w[k] == Walk(i + step, stop, step)[k - 1] == (i + step) + (k - 1) * step;
        Unfold(k, step);
      }
    }
  }

  lemma Unfold(k: int, step: int)
    ensures k * step == step + (k - 1) * step
  {
  }

  /** The positions from `start` towards `stop` that lie a whole number of steps
      away from the first one inside a sequence of the given length. */
  ghost predicate Between(length: nat, start: int, stop: int, step: int, x: int)
    requires step != 0
  {
    && 0 <= x < length
    && if step > 0
       then start <= x < stop && (x - Max(start, 0)) % step == 0
       else stop < x <= start && (Min(start, length - 1) - x) % (-step) == 0
  }

  function StepOf(arg: SliceArg): int {
    match arg.step case None => 1 case Some(s) => s
  }

  /** A start or stop as Python's documentation reads it: negative ones count from
      the end of the sequence, an omitted one is the end given by `default`. */
  function End(length: nat, end: Option<int>, default: int): int {
    match end
    case None => default
    case Some(i) => if i < 0 then i + length else i
  }

  /** The positions Python lets `start:stop:step` select, for arbitrary integers. */
  ghost predicate PythonSelects(length: nat, arg: SliceArg, x: int)
    requires arg.step != Some(0)
  {
    var forward := StepOf(arg) > 0;
    Between(length, End(length, arg.start, if forward then 0 else length - 1),
            End(length, arg.stop, if forward then length else -1), StepOf(arg), x)
  }

  /** The same for the clipped values that `PySlice_Unpack` yields. */
  ghost predicate Selected(length: nat, u: Unpacked, x: int)
    requires u.step != 0
  {
    Between(length, End(length, Some(u.start), 0), End(length, Some(u.stop), 0), u.step, x)
  }

  /** Clipping to `Py_ssize_t` never changes what is selected. */
  lemma UnpackKeepsSelection(length: nat, arg: SliceArg, x: int)
    requires length <= SSIZE_MAX && arg.step != Some(0)
    ensures PythonSelects(length, arg, x) <==> Selected(length, Unpack(arg).value, x)
  {
    var u := Unpack(arg).value;
    if u.step != StepOf(arg) {
      LongStep(length, End(length, Some(u.start), 0), End(length, Some(u.stop), 0), u.step, StepOf(arg), x);
    }
  }

  /** Steps of the same sign that both reach the length select the same: the first position or nothing. */
  lemma LongStep(length: nat, start: int, stop: int, step: int, step': int, x: int)
    requires (length <= step && length <= step' && 0 < step && 0 < step')
          || (length <= -step && length <= -step' && step < 0 && step' < 0)
    ensures Between(length, start, stop, step, x) <==> Between(length, start, stop, step', x)
  {
    var d := if step > 0 then x - Max(start, 0) else Min(start, length - 1) - x;
    if 0 <= d < length {
      DivUnique(d, if step > 0 then step else -step, 0, d);
      DivUnique(d, if step > 0 then step' else -step', 0, d);
    }
  }

  /** The indices of a slice, as the walk between the adjusted ends. */
  function Indices(length: nat, u: Unpacked): seq<int>
    requires u.step != 0
  {
    Walk(Adjust(length, u.start, u.step), Adjust(length, u.stop, u.step), u.step)
  }

  lemma {:induction false} WalkMembers(i: int, stop: int, step: int, x: int)
    requires step != 0
    ensures x in Walk(i, stop, step) <==>
            if step > 0 then i <= x < stop && (x - i) % step == 0 else stop < x <= i && (i - x) % (-step) == 0
    decreases if step > 0 then stop - i else i - stop
  {
    if (step > 0 && i < stop) || (step < 0 && i > stop) {
      WalkMembers(i + step, stop, step, x);
      var (n, s) := if step > 0 then (x - i, step) else (i - x, -step);
      if x == i {
        DivUnique(0, s, 0, 0);
      } else if n >= s {
        ModShift(n, s);
      } else if n > 0 {
        DivUnique(n, s, 0, n);
      }
    }
  }

  lemma ModShift(n: int, s: int)
    requires n >= s > 0
    ensures n % s == (n - s) % s
  {
    DivUnique(n, s, (n - s) / s + 1, (n - s) % s);
  }

  /** Nothing is omitted and nothing is added: the indices are exactly the selected positions. */
  lemma IndicesAreSelected(length: nat, u: Unpacked, x: int)
    requires u.step != 0
    ensures x in Indices(length, u) <==> Selected(length, u, x)
  {
    WalkMembers(Adjust(length, u.start, u.step), Adjust(length, u.stop, u.step), u.step, x);
  }

  /** End to end, for arbitrary Python integers: what `PySlice_Unpack` and
      `PySlice_AdjustIndices` make of `start:stop:step` is what Python selects. */
  lemma IndicesArePython(length: nat, arg: SliceArg, x: int)
    requires length <= SSIZE_MAX && arg.step != Some(0)
    ensures x in Indices(length, Unpack(arg).value) <==> PythonSelects(length, arg, x)
  {
    UnpackKeepsSelection(length, arg, x);
    IndicesAreSelected(length, Unpack(arg).value, x);
  }

  /** The arithmetic of `item` on a slice: every index below the returned length
      maps inside the parent, and neither product nor sum leaves `Py_ssize_t`. */
  lemma ItemStaysInParent(length: nat, u: Unpacked, k: int)
    requires length <= SSIZE_MAX && Unpackable(u)
    requires 0 <= k < Count(Adjust(length, u.start, u.step), Adjust(length, u.stop, u.step), u.step)
    ensures var a := Adjust(length, u.start, u.step);
            && 0 <= a + k * u.step < length
            && IsSsize(k * u.step)
            && Selected(length, u, a + k * u.step)
  {
    var a, b := Adjust(length, u.start, u.step), Adjust(length, u.stop, u.step);
    WalkIsProgression(a, b, u.step);
    assert Indices(length, u)[k] == a + k * u.step;
    IndicesAreSelected(length, u, a + k * u.step);
  }
}
