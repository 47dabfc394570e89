/** The two clients of the byte-sink protocol, Python's `to_bytes` and C++'s
    `to_bytes_`, as functions of the serializer and of the failures met. */
module SinkSpec {
  import opened Common
  import opened WriterStream
  import opened WriterSpec

  // ----- Python -----

  /** NullDereference stands for the use of a null writer, which has no defined behaviour. */
  datatype PyResult = Collected(bytes: seq<byte>) | NullResult | NullDereference

  /** `to_bytes`, whose first request to the allocator is the k-th.  When
      `PyBytesWriter_Create` is refused it, the first callback or the call of
      `PyBytesWriter_Finish` dereferences NULL, unless the serializer throws first. */
  function ToBytesPython(f: Factor, grants: nat -> bool, k: nat, script: Script): PyResult {
    if !grants(k) then
      if script.chunks == [] && script.throws then NullResult else NullDereference
    else
      var o := Writes(f, grants, Empty(k + 1), script.chunks);
      if ReturnCode(o, script) != 0 || o.state.Broken? then NullResult
      else
        match Finish(grants, o.state)
        case None => NullResult
        case Some(bytes) => Collected(bytes)
  }

  /** Whatever the allocator refuses, Python returns the bytes of all chunks or
      nothing; its behaviour is undefined exactly when the writer itself was
      refused and the serializer did not throw before its first write. */
  lemma PythonAllOrNothing(f: Factor, grants: nat -> bool, k: nat, script: Script)
    ensures var r := ToBytesPython(f, grants, k, script);
            && (r.Collected? ==> r.bytes == Concat(script.chunks) && |r.bytes| <= SSIZE_MAX && !script.throws)
            && (r.Collected? ==> !Writes(f, grants, Empty(k + 1), script.chunks).failed)
            && (r.NullDereference? <==> !grants(k) && !(script.chunks == [] && script.throws))
  {
    WritesContents(f, grants, Empty(k + 1), script.chunks);
    assert script.chunks[..|script.chunks|] == script.chunks;
  }

  lemma {:induction false} FitsUnrefused(f: Factor, w: Writer, chunks: seq<seq<byte>>)
    requires w.Live? && Sized(f, w)
    ensures var u := Writes(f, Always, w, chunks);
            && (u.failed <==> |w.contents| + |Concat(chunks)| > SSIZE_MAX)
            && u.state.Live? && w.requests <= u.state.requests
    decreases chunks
  {
    if chunks != [] {
      WriteKeepsSized(f, Always, w, chunks[0]);
      if |w.contents| + |chunks[0]| <= SSIZE_MAX {
        FitsUnrefused(f, Write(f, Always, w, chunks[0]).0, chunks[1..]);
      }
    }
  }

  /** A run goes through exactly when the unrefused one does and each of its
      requests is granted; then the two are the same. */
  lemma {:induction false} GoesThroughIff(f: Factor, grants: nat -> bool, w: Writer, chunks: seq<seq<byte>>)
    requires w.Live? && Sized(f, w)
    ensures var o, u := Writes(f, grants, w, chunks), Writes(f, Always, w, chunks);
            && (!o.failed <==> !u.failed && forall j :: w.requests <= j < u.state.requests ==> grants(j))
            && (!o.failed ==> o == u)
    decreases chunks
  {
    FitsUnrefused(f, w, chunks);
    if chunks != [] {
      WriteKeepsSized(f, Always, w, chunks[0]);
      var (w1, ok) := Write(f, Always, w, chunks[0]);
      if ok {
        FitsUnrefused(f, w1, chunks[1..]);
        if w1.requests == w.requests || grants(w.requests) {
          assert Write(f, grants, w, chunks[0]) == (w1, true);
          GoesThroughIff(f, grants, w1, chunks[1..]);
        }
      }
    }
  }

  /** One past the last request that `to_bytes` makes for these chunks when none is
      refused: the writer, its reallocations, and the result unless the block fits. */
  function RequestsEnd(f: Factor, k: nat, chunks: seq<seq<byte>>): nat {
    match Writes(f, Always, Empty(k + 1), chunks).state
    case Broken(requests) => requests
    case Live(heap, capacity, contents, _, _, requests) =>
      if heap && |contents| == capacity then requests else requests + 1
  }

  /** Python returns the bytes exactly when the serializer does not throw, the
      bytes fit a `Py_ssize_t`, and every request the chunks call for is granted. */
  lemma PythonCollectsIff(f: Factor, grants: nat -> bool, k: nat, script: Script)
    ensures ToBytesPython(f, grants, k, script).Collected? <==>
              && !script.throws
              && |Concat(script.chunks)| <= SSIZE_MAX
              && forall j :: k <= j < RequestsEnd(f, k, script.chunks) ==> grants(j)
  {
    var w := Empty(k + 1);
    FitsUnrefused(f, w, script.chunks);
    GoesThroughIff(f, grants, w, script.chunks);
    WritesContents(f, Always, w, script.chunks);
  }

  /** Without a refusal that leaves the size alone. */
  lemma PythonUnrefused(f: Factor, k: nat, script: Script)
    ensures ToBytesPython(f, Always, k, script) ==
            if script.throws || |Concat(script.chunks)| > SSIZE_MAX then NullResult
            else Collected(Concat(script.chunks))
  {
    PythonAllOrNothing(f, Always, k, script);
    PythonCollectsIff(f, Always, k, script);
  }

  // ----- C++ -----

  /** `closure_t` with the vector it points to; `writes` counts the callbacks. */
  datatype Vector<E> = Vector(bytes: seq<byte>, exception: Option<E>, writes: nat)

  /** NullRethrow stands for `std::rethrow_exception` of a null pointer, which has no defined behaviour. */
  datatype CppResult<E> = Bytes(bytes: seq<byte>) | Rethrown(exception: E) | NullRethrow

  /** The lambda `write`; `fate(n)` is the exception the n-th insertion throws, if any. */
  function Insert<E>(fate: nat -> Option<E>): WriteFn<Vector<E>> {
    (v: Vector<E>, chunk: seq<byte>) =>
      match fate(v.writes)
      case None => (Vector(v.bytes + chunk, v.exception, v.writes + 1), 0)
      case Some(e) => (Vector(v.bytes, Some(e), v.writes + 1), -1)
  }

  function ToBytesCpp<E>(fate: nat -> Option<E>, script: Script): CppResult<E> {
    var o := Drive(Insert(fate), Vector([], None, 0), script.chunks);
    if ReturnCode(o, script) == 0 then Bytes(o.state.bytes)
    else
      match o.state.exception
      case Some(e) => Rethrown(e)
      case None => NullRethrow
  }

  /** `k` is the first insertion that throws, or the number of chunks when none does. */
  ghost predicate FirstThrow<E>(fate: nat -> Option<E>, n: nat, k: nat) {
    && k <= n
    && (forall j :: 0 <= j < k ==> fate(j).None?)
    && (k < n ==> fate(k).Some?)
  }

  lemma {:induction false} InsertRun<E>(fate: nat -> Option<E>, v: Vector<E>, good: seq<seq<byte>>, rest: seq<seq<byte>>)
    requires forall j :: v.writes <= j < v.writes + |good| ==> fate(j).None?
    ensures var v' := Vector(v.bytes + Concat(good), v.exception, v.writes + |good|);
            Drive(Insert(fate), v, good + rest) == Advance(Drive(Insert(fate), v', rest), |good|)
    decreases good
  {
    if good == [] {
      assert good + rest == rest;
      assert v.bytes + Concat(good) == v.bytes;
    } else {
      assert (good + rest)[1..] == good[1..] + rest;
      InsertRun(fate, Insert(fate)(v, good[0]).0, good[1..], rest);
      assert (v.bytes + good[0]) + Concat(good[1..]) == v.bytes + Concat(good);
    }
  }

  /** The C++ client rethrows the exception of the first write that failed and of
      no other, and otherwise returns every chunk.  When no write failed but the
      serializer threw, it rethrows a null exception pointer. */
  lemma CppRethrowsFirst<E>(fate: nat -> Option<E>, script: Script, k: nat)
    requires FirstThrow(fate, |script.chunks|, k)
    ensures ToBytesCpp(fate, script) ==
            if k < |script.chunks| then Rethrown(fate(k).value)
            else if script.throws then NullRethrow
            else Bytes(Concat(script.chunks))
    ensures Drive(Insert(fate), Vector([], None, 0), script.chunks).state.bytes == Concat(script.chunks[..k])
  {
    InsertRun(fate, Vector([], None, 0), script.chunks[..k], script.chunks[k..]);
    assert script.chunks == script.chunks[..k] + script.chunks[k..];
    assert [] + Concat(script.chunks[..k]) == Concat(script.chunks[..k]);
    if k < |script.chunks| {
      assert fate(k) == Some(fate(k).value);
    } else {
      assert script.chunks[..k] == script.chunks;
    }
  }

  /** The first throw exists for every schedule. */
  lemma {:induction false} FirstThrowExists<E>(fate: nat -> Option<E>, n: nat) returns (k: nat)
    ensures FirstThrow(fate, n, k)
    decreases n
  {
    if n == 0 {
      k := 0;
    } else {
      k := FirstThrowExists(fate, n - 1);
      if k == n - 1 && fate(k).None? {
        k := n;
      }
    }
  }

  /** `to_bytes_` has defined behaviour exactly when the serializer does not
      throw by itself, or some insertion threw before. */
  lemma CppDefinedIff<E>(fate: nat -> Option<E>, script: Script)
    ensures ToBytesCpp(fate, script).NullRethrow?
       <==> script.throws && forall j :: 0 <= j < |script.chunks| ==> fate(j).None?
  {
    var k := FirstThrowExists(fate, |script.chunks|);
    CppRethrowsFirst(fate, script, k);
  }

  /** The two sinks agree on every serializer: on all schedules where both return
      bytes they return the same, and each returns all of them exactly when
      nothing it does fails. */
  lemma SinksAgree<E>(f: Factor, grants: nat -> bool, k: nat, fate: nat -> Option<E>, script: Script)
    ensures var (p, c, all) := (ToBytesPython(f, grants, k, script), ToBytesCpp(fate, script), Concat(script.chunks));
            && (p.Collected? && c.Bytes? ==> p.bytes == c.bytes)
            && (p == Collected(all) <==>
                  && !script.throws && |all| <= SSIZE_MAX
                  && forall j :: k <= j < RequestsEnd(f, k, script.chunks) ==> grants(j))
            && (c == Bytes(all) <==> !script.throws && forall j :: 0 <= j < |script.chunks| ==> fate(j).None?)
  {
    PythonAllOrNothing(f, grants, k, script);
    PythonCollectsIff(f, grants, k, script);
    var first := FirstThrowExists(fate, |script.chunks|);
    CppRethrowsFirst(fate, script, first);
  }
}
