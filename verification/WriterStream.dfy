/** The C side of the byte-sink protocol: a serializer hands its chunks to a
    callback one by one, `WriterStream::write` turns a nonzero result into an
    exception, and the C function turns any exception into the result -1. */
module WriterStream {
  import opened Common

  /** A serializer: the chunks it writes and whether it then throws by itself. */
  datatype Script = Script(chunks: seq<seq<byte>>, throws: bool)

  /** The callback, as a step of the sink's state with the `int` it returns. */
  type WriteFn<!S> = (S, seq<byte>) -> (S, int)

  /** `calls` counts the callbacks that ran; `failed` tells whether one of them failed. */
  datatype Outcome<S> = Outcome(state: S, calls: nat, failed: bool)

  function Drive<S>(write: WriteFn<S>, state: S, chunks: seq<seq<byte>>): Outcome<S>
    decreases chunks
  {
    if chunks == [] then Outcome(state, 0, false)
    else
      var (state', rc) := write(state, chunks[0]);
      if rc != 0 then Outcome(state', 1, true)
      else
        Advance(Drive(write, state', chunks[1..]), 1)
  }

  /** The same outcome when `calls` callbacks ran before. */
  function Advance<S>(o: Outcome<S>, calls: nat): Outcome<S> {
    o.(calls := o.calls + calls)
  }

  /** What the C function returns. */
  function ReturnCode<S>(outcome: Outcome<S>, script: Script): int {
    if outcome.failed || script.throws then -1 else 0
  }

  /** The sink after the first `k` chunks were handed to it, whatever it returned. */
  function After<S>(write: WriteFn<S>, state: S, chunks: seq<seq<byte>>, k: nat): S
    requires k <= |chunks|
    decreases k
  {
    if k == 0 then state
    else write(After(write, state, chunks, k - 1), chunks[k - 1]).0
  }

  /** What the k-th callback returns when all chunks before it were handed over. */
  function Code<S>(write: WriteFn<S>, state: S, chunks: seq<seq<byte>>, k: nat): int
    requires k < |chunks|
  {
    write(After(write, state, chunks, k), chunks[k]).1
  }

  lemma {:induction false} AfterTail<S>(write: WriteFn<S>, state: S, chunks: seq<seq<byte>>, k: nat)
    requires k < |chunks|
    ensures After(write, state, chunks, k + 1) == After(write, write(state, chunks[0]).0, chunks[1..], k)
    decreases k
  {
    if k > 0 {
      AfterTail(write, state, chunks, k - 1);
    }
  }

  /** First failure: exactly the callbacks up to the first one that fails run,
      each on the state the one before it left, and none runs after it. */
  lemma {:induction false} StopsAtFirstFailure<S>(write: WriteFn<S>, state: S, chunks: seq<seq<byte>>)
    ensures var o := Drive(write, state, chunks);
            && o.calls <= |chunks|
            && o.state == After(write, state, chunks, o.calls)
            && (forall k :: 0 <= k < o.calls && !(o.failed && k == o.calls - 1) ==> Code(write, state, chunks, k) == 0)
            && (if o.failed
                then 0 < o.calls && Code(write, state, chunks, o.calls - 1) != 0
                else o.calls == |chunks|)
    decreases chunks
  {
    if chunks != [] {
      var (state', rc) := write(state, chunks[0]);
      assert Code(write, state, chunks, 0) == rc;
      AfterTail(write, state, chunks, 0);
      if rc == 0 {
        var o, rest := Drive(write, state, chunks), Drive(write, state', chunks[1..]);
        StopsAtFirstFailure(write, state', chunks[1..]);
        if rest.calls > 0 {
          AfterTail(write, state, chunks, rest.calls);
        }
        forall k | 0 < k < o.calls
          ensures Code(write, state, chunks, k) == Code(write, state', chunks[1..], k - 1)
        {
          AfterTail(write, state, chunks, k - 1);
        }
      }
    }
  }

  /** A run in two parts: the second one happens only when the first one does not fail. */
  lemma {:induction false} DriveInParts<S>(write: WriteFn<S>, state: S, a: seq<seq<byte>>, b: seq<seq<byte>>)
    ensures var o := Drive(write, state, a);
            Drive(write, state, a + b) == if o.failed then o else Advance(Drive(write, o.state, b), o.calls)
    decreases a
  {
    if a == [] {
      assert a + b == b;
    } else {
      assert (a + b)[1..] == a[1..] + b;
      DriveInParts(write, write(state, a[0]).0, a[1..], b);
    }
  }

  /** The C call reports failure exactly when some callback would fail on the
      chunks handed over before it, or the serializer throws by itself. */
  lemma FailsIffSomeWriteFails<S>(write: WriteFn<S>, state: S, script: Script)
    ensures var o := Drive(write, state, script.chunks);
            ReturnCode(o, script) != 0 <==>
              script.throws || exists k :: 0 <= k < |script.chunks| && Code(write, state, script.chunks, k) != 0
  {
    StopsAtFirstFailure(write, state, script.chunks);
  }
}
