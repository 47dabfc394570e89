/** When relocation is linear: exactly for the totals that the guard in
    `byteswriter_resize` lets the writer overallocate. */
module RelocationBound {
  import opened Common
  import opened WriterStream
  import opened WriterSpec

  ghost predicate Linear(f: Factor, w: Writer) {
    w.Live? ==> w.moved <= f * (w.capacity - INLINE)
  }

  /** Every run that writes `n` bytes in all, on every schedule, keeps relocation linear. */
  ghost predicate LinearForTotal(f: Factor, n: nat) {
    forall grants: nat -> bool, chunks: seq<seq<byte>> ::
      |Concat(chunks)| == n ==> Linear(f, Writes(f, grants, Empty(0), chunks).state)
  }

  /** The largest request that is rounded up to at most `u` bytes: F of every F + 1 bytes. */
  function Under(f: Factor, u: nat): nat {
    if u < f + 1 then Min(u, f - 1) else f + Under(f, u - (f + 1))
  }

  /** `f * x` and `(f + 1) * x`, by cases. */
  function Times(f: Factor, x: int): int {
    if f == 2 then 2 * x else 4 * x
  }

  function TimesNext(f: Factor, x: int): int {
    if f == 2 then 3 * x else 5 * x
  }

  lemma {:induction false} UnderIsTight(f: Factor, u: nat)
    ensures var r := Under(f, u);
            && u - 1 <= r + Spare(f, r) <= u
            && TimesNext(f, r) >= Times(f, u - 1)
            && TimesNext(f, r - 1) <= Times(f, u)
    decreases u
  {
    if u >= f + 1 {
      UnderIsTight(f, u - (f + 1));
    }
  }

  /** What is left of `u` after `m` steps down the staircase below. */
  function Bottom(f: Factor, m: nat, u: nat): nat {
    if m == 0 || Under(f, u) == 0 then u else Bottom(f, m - 1, Under(f, u) - 1)
  }

  lemma {:induction false} BottomBelow(f: Factor, m: nat, u: nat)
    ensures Bottom(f, m, u) <= u
    decreases m
  {
    UnderIsTight(f, u);
    if m > 0 && Under(f, u) > 0 {
      BottomBelow(f, m - 1, Under(f, u) - 1);
    }
  }

  /** One more write that is not refused. */
  lemma WritesSnoc(f: Factor, chunks: seq<seq<byte>>, w: Writer, last: seq<byte>, w': Writer)
    requires Writes(f, Always, Empty(0), chunks) == Outcome(w, |chunks|, false)
    requires w.Live? && Write(f, Always, w, last) == (w', true)
    ensures Writes(f, Always, Empty(0), chunks + [last]) == Outcome(w', |chunks + [last]|, false)
    ensures |Concat(chunks + [last])| == |Concat(chunks)| + |last|
  {
    DriveInParts(WriteCallback(f, Always), Empty(0), chunks, [last]);
    assert Writes(f, Always, w, [last]) == Outcome(w', 1, false);
    ConcatSnoc(chunks, last);
  }

  /** A write that brings a full enough writer to `size` bytes. */
  lemma Climb(f: Factor, w: Writer, size: nat) returns (chunk: seq<byte>, w': Writer)
    requires w.Live? && |w.contents| <= w.capacity < size <= SSIZE_MAX
    ensures |chunk| == size - |w.contents| && Write(f, Always, w, chunk) == (w', true)
    ensures w'.Live? && w'.heap && |w'.contents| == size && w'.capacity == Rounded(f, size, true)
    ensures w'.moved == w.moved + w.capacity
  {
    chunk := Zeros(size - |w.contents|);
    w' := Write(f, Always, w, chunk).0;
  }

  /** The slowest run that reaches a capacity of about `u`: `m + 1` requests, each
      just beyond the capacity that the one before bought. */
  lemma {:induction false} Staircase(f: Factor, m: nat, u: nat) returns (chunks: seq<seq<byte>>, w: Writer)
    requires u <= SSIZE_MAX && Bottom(f, m, u) > 2 * INLINE
    ensures Writes(f, Always, Empty(0), chunks) == Outcome(w, |chunks|, false)
    ensures w.Live? && |w.contents| == |Concat(chunks)| == Under(f, u)
    ensures w.heap && w.capacity == Under(f, u) + Spare(f, Under(f, u))
    ensures TimesNext(f, u) <= w.moved + w.capacity + 10 * m + Times(f, Bottom(f, m, u)) + 1
    decreases m
  {
    var r := Under(f, u);
    UnderIsTight(f, u);
    BottomBelow(f, m, u);
    assert u > 2 * INLINE && r > INLINE;
    if m == 0 {
      var chunk;
      chunk, w := Climb(f, Empty(0), r);
      chunks := [chunk];
      WritesSnoc(f, [], Empty(0), chunk, w);
      assert [] + [chunk] == chunks;
    } else {
      var below, before := Staircase(f, m - 1, r - 1);
      UnderIsTight(f, r - 1);
      var chunk;
      chunk, w := Climb(f, before, r);
      chunks := below + [chunk];
      WritesSnoc(f, below, before, chunk, w);
    }
  }

  /** The number of steps that brings the first request far enough down. */
  function Steps(f: Factor): nat {
    if f == 2 then 2 else 7
  }

  lemma BottomStep(f: Factor, m: nat, u: nat) returns (v: nat)
    requires m > 0 && u >= 0x1000
    ensures Bottom(f, m, u) == Bottom(f, m - 1, v)
    ensures Times(f, u) - 9 <= TimesNext(f, v) <= Times(f, u)
  {
    UnderIsTight(f, u);
    v := Under(f, u) - 1;
  }

  lemma BottomIsLow(f: Factor, u: nat)
    requires u >= 0x1000_0000
    ensures 2 * INLINE < Bottom(f, Steps(f), u) && Times(f, Bottom(f, Steps(f), u)) < u - 100
  {
    var m := Steps(f);
    var v := BottomStep(f, m, u);
    v := BottomStep(f, m - 1, v);
    if f == 4 {
      v := BottomStep(f, m - 2, v);
      v := BottomStep(f, m - 3, v);
      v := BottomStep(f, m - 4, v);
      v := BottomStep(f, m - 5, v);
      v := BottomStep(f, m - 6, v);
    }
  }

  /** Beyond the guard, for every total: a run that writes `n` bytes, requests no
      more than `n`, is refused nothing and relocates too much. */
  lemma ClosedGuardBreaksBound(f: Factor, n: nat) returns (chunks: seq<seq<byte>>)
    requires n <= SSIZE_MAX && !GuardOpen(f, n)
    ensures |Concat(chunks)| == n
    ensures var o := Writes(f, Always, Empty(0), chunks);
            !o.failed && o.state.Live? && o.state.capacity == n && !Linear(f, o.state)
  {
    BottomIsLow(f, n - 1);
    var below, w := Staircase(f, Steps(f), n - 1);
    UnderIsTight(f, n - 1);
    var chunk, w' := Climb(f, w, n);
    chunks := below + [chunk];
    WritesSnoc(f, below, w, chunk, w');
    assert f * (n - INLINE) == Times(f, n - INLINE);
  }

  /** Relocation is linear over all runs of a total exactly when the guard is open
      for that total, whatever the total. */
  lemma LinearIff(f: Factor, n: nat)
    ensures LinearForTotal(f, n) <==> GuardOpen(f, n)
  {
    if GuardOpen(f, n) {
      forall grants: nat -> bool, chunks: seq<seq<byte>> | |Concat(chunks)| == n
        ensures Linear(f, Writes(f, grants, Empty(0), chunks).state)
      {
        LinearRelocation(f, grants, 0, chunks);
      }
    } else {
      var chunks := ClosedGuardBreaksBound(f, if n <= SSIZE_MAX then n else SSIZE_MAX);
      if n > SSIZE_MAX {
        var refused := Zeros(n - SSIZE_MAX);
        WritesContents(f, Always, Empty(0), chunks);
        assert chunks[..|chunks|] == chunks;
        DriveInParts(WriteCallback(f, Always), Empty(0), chunks, [refused]);
        ConcatSnoc(chunks, refused);
        chunks := chunks + [refused];
      }
      assert !Linear(f, Writes(f, Always, Empty(0), chunks).state);
    }
  }
}
