/** The byte writer as a value: what each operation of `_bytes_writer.c` does
    to the visible bytes, the capacity and the bytes moved by reallocation. */
module WriterSpec {
  import opened Common
  import WriterStream

  /** OVERALLOCATE_FACTOR: 4, or 2 on Windows. */
  type Factor = f: nat | f == 2 || f == 4 witness 4

  /** sizeof(small_buffer) */
  const INLINE: nat := 256

  /** `moved` counts the bytes a reallocation has had to relocate, `regrows` the
      reallocations, `requests` the requests made to the allocator.  `Broken` is
      the writer whose heap block `_PyBytes_Resize` has dropped. */
  datatype Writer =
    | Live(heap: bool, capacity: nat, contents: seq<byte>, moved: nat, regrows: nat, requests: nat)
    | Broken(requests: nat)

  function Empty(requests: nat): Writer {
    Live(false, INLINE, [], 0, 0, requests)
  }

  /** `size / OVERALLOCATE_FACTOR`, the room made beyond `size` bytes. */
  function Spare(f: Factor, size: nat): nat {
    if f == 2 then size / 2 else size / 4
  }

  /** The capacity requested when `needed` bytes do not fit. */
  function Rounded(f: Factor, needed: nat, overallocate: bool): (r: nat)
    requires needed <= SSIZE_MAX
    ensures needed <= r <= SSIZE_MAX
  {
    if overallocate && needed <= SSIZE_MAX - Spare(f, needed) then needed + Spare(f, needed) else needed
  }

  /** `byteswriter_resize` */
  function Reserve(f: Factor, grants: nat -> bool, w: Writer, needed: nat, overallocate: bool): (Writer, bool)
    requires w.Live? && needed <= SSIZE_MAX
  {
    if needed <= w.capacity then
      (w, true)
    else if grants(w.requests) then
      (w.(heap := true, capacity := Rounded(f, needed, overallocate), moved := w.moved + w.capacity,
          regrows := w.regrows + 1, requests := w.requests + 1), true)
    else if w.heap then
      (Broken(w.requests + 1), false)
    else
      (w.(requests := w.requests + 1), false)
  }

  /** `PyBytesWriter_WriteBytes` */
  function Write(f: Factor, grants: nat -> bool, w: Writer, chunk: seq<byte>): (Writer, bool)
    requires w.Live?
  {
    var needed := |w.contents| + |chunk|;
    if needed > SSIZE_MAX then
      (w, false)
    else
      var (w', ok) := Reserve(f, grants, w, needed, true);
      if ok then (w'.(contents := w.contents + chunk), true) else (w', false)
  }

  /** `PyBytesWriter_Finish` */
  function Finish(grants: nat -> bool, w: Writer): Option<seq<byte>>
    requires w.Live?
  {
    if w.heap && w.contents != [] && |w.contents| == w.capacity then Some(w.contents)
    else if grants(w.requests) then Some(w.contents)
    else None
  }

  // ----- bounds kept by every write -----

  /** The sizes of a writer that `PyBytesWriter_Create(0)` made and that was only written to. */
  ghost predicate Sized(f: Factor, w: Writer) {
    w.Live? ==>
      && |w.contents| <= w.capacity <= SSIZE_MAX
      && (if w.heap
          then INLINE < |w.contents| && w.capacity <= |w.contents| + Spare(f, |w.contents|)
          else w.capacity == INLINE && w.moved == 0 && w.regrows == 0)
  }

  lemma WriteKeepsSized(f: Factor, grants: nat -> bool, w: Writer, chunk: seq<byte>)
    requires w.Live? && Sized(f, w)
    ensures Sized(f, Write(f, grants, w, chunk).0)
  {
  }

  /** A refused write loses nothing unless the block being enlarged was already on the heap. */
  lemma RefusedWrite(f: Factor, grants: nat -> bool, w: Writer, chunk: seq<byte>)
    requires w.Live? && Sized(f, w)
    ensures var (w', ok) := Write(f, grants, w, chunk);
            var needed := |w.contents| + |chunk|;
            && (ok <==> needed <= SSIZE_MAX && (needed <= w.capacity || grants(w.requests)))
            && (needed > SSIZE_MAX ==> w' == w)
            && (!ok && w'.Live? ==> w' == w.(requests := w'.requests))
            && (w'.Broken? <==> w.heap && w.capacity < needed <= SSIZE_MAX && !grants(w.requests))
  {
  }

  // ----- amortised cost -----

  function Pow(b: nat, e: nat): nat {
    if e == 0 then 1 else b * Pow(b, e - 1)
  }

  /** The guard in `byteswriter_resize` lets `size` bytes be overallocated. */
  predicate GuardOpen(f: Factor, size: nat) {
    size + Spare(f, size) <= SSIZE_MAX
  }

  /** One reallocation from capacity `capacity` multiplies the capacity by more than
      (F + 1) / F exactly when the guard is open or the request alone is that large. */
  lemma GeometricGrowth(f: Factor, capacity: nat, needed: nat)
    requires capacity < needed <= SSIZE_MAX
    ensures f * Rounded(f, needed, true) > (f + 1) * capacity
       <==> GuardOpen(f, needed) || f * needed > (f + 1) * capacity
  {
  }

  /** What reallocation has cost so far, in terms of the capacity it bought. */
  ghost predicate Amortised(f: Factor, w: Writer) {
    w.Live? ==>
      && INLINE <= w.capacity
      && w.moved <= f * (w.capacity - INLINE)
      && Pow(f, w.regrows) * w.capacity >= Pow(f + 1, w.regrows) * INLINE
  }

  lemma MulMonotone(c: nat, a: nat, b: nat)
    requires a <= b
    ensures c * a <= c * b
  {
  }

  lemma RegrowKeepsPower(f: Factor, k: nat, capacity: nat, grown: nat)
    requires f * grown >= (f + 1) * capacity
    requires Pow(f, k) * capacity >= Pow(f + 1, k) * INLINE
    ensures Pow(f, k + 1) * grown >= Pow(f + 1, k + 1) * INLINE
  {
  }

  lemma WriteKeepsAmortised(f: Factor, grants: nat -> bool, w: Writer, chunk: seq<byte>)
    requires w.Live? && Amortised(f, w)
    requires GuardOpen(f, |w.contents| + |chunk|)
    ensures Amortised(f, Write(f, grants, w, chunk).0)
  {
    var needed := |w.contents| + |chunk|;
    if w.capacity < needed && grants(w.requests) {
      GeometricGrowth(f, w.capacity, needed);
      RegrowKeepsPower(f, w.regrows, w.capacity, Rounded(f, needed, true));
    }
  }

  // ----- runs of writes -----

  /** The callback that `to_bytes` passes to the C function.  A broken writer is
      never written to (see `Writes` and `NoWriteOnBroken`). */
  function WriteCallback(f: Factor, grants: nat -> bool): WriterStream.WriteFn<Writer> {
    (w: Writer, chunk: seq<byte>) =>
      if w.Broken? then (w, -1)
      else
        var (w', ok) := Write(f, grants, w, chunk);
        (w', if ok then 0 else -1)
  }

  /** The writer after a run of writes that stops at the first refused one. */
  function Writes(f: Factor, grants: nat -> bool, w: Writer, chunks: seq<seq<byte>>): WriterStream.Outcome<Writer> {
    WriterStream.Drive(WriteCallback(f, grants), w, chunks)
  }

  /** The chunks that were not refused. */
  function Accepted(o: WriterStream.Outcome<Writer>, chunks: seq<seq<byte>>): seq<seq<byte>>
    requires o.calls <= |chunks| && (o.failed ==> 0 < o.calls)
  {
    chunks[..if o.failed then o.calls - 1 else o.calls]
  }

  lemma AcceptedTail(o: WriterStream.Outcome<Writer>, rest: WriterStream.Outcome<Writer>,
                     before: seq<byte>, chunks: seq<seq<byte>>)
    requires chunks != []
    requires rest.calls <= |chunks[1..]| && (rest.failed ==> 0 < rest.calls)
    requires o == rest.(calls := rest.calls + 1)
    ensures before + Concat(Accepted(o, chunks)) == (before + chunks[0]) + Concat(Accepted(rest, chunks[1..]))
  {
    assert Accepted(o, chunks)[1..] == Accepted(rest, chunks[1..]);
  }

  /** The live bytes are those of the accepted chunks, in order, across the
      switch to the heap and every reallocation; every write accepted means every
      chunk is there; only a refused reallocation can lose the bytes. */
  lemma {:induction false} WritesContents(f: Factor, grants: nat -> bool, w: Writer, chunks: seq<seq<byte>>)
    requires w.Live? && Sized(f, w)
    ensures var o := Writes(f, grants, w, chunks);
            && o.calls <= |chunks|
            && (o.failed ==> 0 < o.calls)
            && (!o.failed ==> o.calls == |chunks| && o.state.Live?)
            && Sized(f, o.state)
            && (o.state.Live? ==> o.state.contents == w.contents + Concat(Accepted(o, chunks)))
    decreases chunks
  {
    if chunks != [] {
      var (w1, ok) := Write(f, grants, w, chunks[0]);
      WriteKeepsSized(f, grants, w, chunks[0]);
      if ok {
        WritesContents(f, grants, w1, chunks[1..]);
        AcceptedTail(Writes(f, grants, w, chunks), Writes(f, grants, w1, chunks[1..]), w.contents, chunks);
      } else {
        assert Concat(chunks[..0]) == [];
      }
    }
  }

  /** No callback of a run finds the writer broken: a run that breaks it ends there. */
  lemma {:induction false} NoWriteOnBroken(f: Factor, grants: nat -> bool, w: Writer, chunks: seq<seq<byte>>, k: nat)
    requires w.Live? && Sized(f, w)
    requires k < Writes(f, grants, w, chunks).calls && k < |chunks|
    ensures WriterStream.After(WriteCallback(f, grants), w, chunks, k).Live?
    decreases k
  {
    if k > 0 {
      NoWriteOnBroken(f, grants, w, chunks, k - 1);
      WriterStream.StopsAtFirstFailure(WriteCallback(f, grants), w, chunks);
      assert WriterStream.Code(WriteCallback(f, grants), w, chunks, k - 1) == 0;
    }
  }

  lemma {:induction false} WritesAmortised(f: Factor, grants: nat -> bool, w: Writer, chunks: seq<seq<byte>>)
    requires w.Live? && Sized(f, w) && Amortised(f, w)
    requires GuardOpen(f, |w.contents| + |Concat(chunks)|)
    ensures Amortised(f, Writes(f, grants, w, chunks).state)
    decreases chunks
  {
    if chunks != [] {
      WriteKeepsAmortised(f, grants, w, chunks[0]);
      WriteKeepsSized(f, grants, w, chunks[0]);
      var (w1, ok) := Write(f, grants, w, chunks[0]);
      if ok {
        WritesAmortised(f, grants, w1, chunks[1..]);
      }
    }
  }

  lemma CostPerByte(f: Factor, size: nat, capacity: nat)
    requires INLINE <= capacity <= size + Spare(f, size)
    ensures f * (capacity - INLINE) <= (f + 1) * size
  {
  }

  /** Amortised cost of any run of writes on a new writer: reallocation moves at
      most F bytes for every byte of capacity beyond the inline area, hence at
      most F + 1 for every byte written, and the number of reallocations is
      logarithmic in the capacity reached. */
  lemma LinearRelocation(f: Factor, grants: nat -> bool, requests: nat, chunks: seq<seq<byte>>)
    requires GuardOpen(f, |Concat(chunks)|)
    ensures var w := Writes(f, grants, Empty(requests), chunks).state;
            w.Live? ==>
              && |w.contents| <= w.capacity
              && w.capacity <= (if w.heap then |w.contents| + Spare(f, |w.contents|) else INLINE)
              && w.moved <= f * (w.capacity - INLINE)
              && w.moved <= (f + 1) * |w.contents|
              && Pow(f, w.regrows) * w.capacity >= Pow(f + 1, w.regrows) * INLINE
  {
    WritesAmortised(f, grants, Empty(requests), chunks);
    WritesContents(f, grants, Empty(requests), chunks);
    var w := Writes(f, grants, Empty(requests), chunks).state;
    if w.Live? && w.heap {
      CostPerByte(f, |w.contents|, w.capacity);
    }
  }

  /** Zeros of a given length. */
  function Zeros(n: nat): (s: seq<byte>)
    ensures |s| == n
  {
    seq(n, _ => 0)
  }

  /** The schedule without a refusal. */
  predicate Always(n: nat) {
    true
  }

  /** Where the guard is closed, a single-byte write to a full writer moves the whole block. */
  lemma ClosedGuardMovesBlock(f: Factor, w: Writer)
    requires w.Live? && w.heap && |w.contents| == w.capacity < SSIZE_MAX
    requires !GuardOpen(f, w.capacity)
    ensures var (w', ok) := Write(f, Always, w, Zeros(1));
            && ok && w'.heap && |w'.contents| == w'.capacity == w.capacity + 1
            && w'.moved == w.moved + w.capacity
            && !GuardOpen(f, w'.capacity)
  {
  }

  lemma {:induction false} ClosedGuardMovesAll(f: Factor, w: Writer, k: nat)
    requires w.Live? && w.heap && |w.contents| == w.capacity && w.capacity + k <= SSIZE_MAX
    requires !GuardOpen(f, w.capacity)
    ensures var o := Writes(f, Always, w, seq(k, _ => Zeros(1)));
            && !o.failed && o.state.Live?
            && o.state.capacity == w.capacity + k
            && o.state.moved >= w.moved + k * w.capacity
    decreases k
  {
    var chunks := seq(k, _ => Zeros(1));
    if k > 0 {
      ClosedGuardMovesBlock(f, w);
      var w1 := Write(f, Always, w, Zeros(1)).0;
      ClosedGuardMovesAll(f, w1, k - 1);
      assert chunks[1..] == seq(k - 1, _ => Zeros(1));
      MulMonotone(k - 1, w.capacity, w1.capacity);
      Distribute(k, w.capacity);
    }
  }

  lemma Distribute(k: nat, c: nat)
    requires k > 0
    ensures k * c == c + (k - 1) * c
  {
  }
}
