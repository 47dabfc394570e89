/** The byte-sink protocol as it runs: one C function that drives a callback
    through a pointer, and the two clients that pass one in. */
module Sinks {
  import opened Common
  import opened Memory
  import opened WriterStream
  import opened WriterSpec
  import opened BytesWriter
  import opened SinkSpec

  /** `closure_t` of `to_bytes_` together with its vector. */
  class Closure<E> {
    const fate: nat -> Option<E>
    var bytes: seq<byte>
    var exception: Option<E>
    var writes: nat

    constructor (fate: nat -> Option<E>)
      ensures this.fate == fate && State() == Vector([], None, 0)
    {
      this.fate := fate;
      bytes, exception, writes := [], None, 0;
    }

    function State(): Vector<E>
      reads this
    {
      Vector(bytes, exception, writes)
    }

    /** The lambda `write`: it catches what the insertion throws. */
    method Write(chunk: seq<byte>) returns (rc: int)
      modifies this
      ensures (State(), rc) == Insert(fate)(old(State()), chunk)
    {
      writes := writes + 1;
      match fate(writes - 1) {
        case None =>
          bytes := bytes + chunk;
          rc := 0;
        case Some(e) =>
          exception := Some(e);
          rc := -1;
      }
    }
  }

  datatype SinkState<E> = PyState(writer: Writer) | CppState(vector: Vector<E>)

  function OnPython<E>(f: Factor, grants: nat -> bool): WriteFn<SinkState<E>> {
    (s: SinkState<E>, chunk: seq<byte>) =>
      match s
      case PyState(w) => var (w', rc) := WriteCallback(f, grants)(w, chunk); (PyState(w'), rc)
      case CppState(_) => (s, -1)
  }

  function OnCpp<E>(fate: nat -> Option<E>): WriteFn<SinkState<E>> {
    (s: SinkState<E>, chunk: seq<byte>) =>
      match s
      case PyState(_) => (s, -1)
      case CppState(v) => var (v', rc) := Insert(fate)(v, chunk); (CppState(v'), rc)
  }

  lemma {:induction false} OnPythonIsWrites<E>(f: Factor, grants: nat -> bool, w: Writer, chunks: seq<seq<byte>>)
    ensures var o := Writes(f, grants, w, chunks);
            Drive(OnPython<E>(f, grants), PyState(w), chunks) == Outcome(PyState(o.state), o.calls, o.failed)
    decreases chunks
  {
    if chunks != [] {
      OnPythonIsWrites<E>(f, grants, WriteCallback(f, grants)(w, chunks[0]).0, chunks[1..]);
    }
  }

  lemma {:induction false} OnCppIsInsert<E>(fate: nat -> Option<E>, v: Vector<E>, chunks: seq<seq<byte>>)
    ensures var o := Drive(Insert(fate), v, chunks);
            Drive(OnCpp(fate), CppState(v), chunks) == Outcome(CppState(o.state), o.calls, o.failed)
    decreases chunks
  {
    if chunks != [] {
      OnCppIsInsert(fate, Insert(fate)(v, chunks[0]).0, chunks[1..]);
    }
  }

  /** The callback and the user data handed to the C function. */
  datatype Sink<!E> = PySink(writer: PyBytesWriter) | CppSink(closure: Closure<E>)
  {
    ghost function Repr(): set<object>
      reads match this case PySink(w) => {w as object} case CppSink(c) => {c}
    {
      match this
      case PySink(w) => w.Repr()
      case CppSink(c) => {c}
    }

    ghost predicate Valid()
      reads Repr()
    {
      PySink? ==> writer.Valid()
    }

    /** The sink can be written to. */
    ghost predicate Ready()
      reads Repr()
    {
      Valid() && (PySink? ==> !writer.broken)
    }

    ghost function State(): SinkState<E>
      requires Valid()
      reads Repr()
    {
      match this
      case PySink(w) => PyState(w.State())
      case CppSink(c) => CppState(c.State())
    }

    /** What the callback does to that state. */
    ghost function Step(): WriteFn<SinkState<E>> {
      match this
      case PySink(w) => OnPython(w.factor, w.mem.grants)
      case CppSink(c) => OnCpp(c.fate)
    }

    /** The live blocks that do not belong to the sink. */
    ghost function Outside(): set<object>
      reads Repr()
    {
      match this
      case PySink(w) => w.mem.live - w.Blocks()
      case CppSink(_) => {}
    }
  }

  ghost predicate Chunked(chunks: seq<seq<byte>>) {
    forall k :: 0 <= k < |chunks| ==> |chunks[k]| <= SSIZE_MAX
  }

  /** `write_bytes`: the size arrives as a `size_t` and is passed on as a `Py_ssize_t`. */
  method WriteBytes(writer: PyBytesWriter, bytes: seq<byte>, size: nat) returns (rc: int)
    requires writer.Valid() && !writer.broken
    requires size == |bytes| <= SSIZE_MAX
    modifies writer.Repr()
    ensures writer.Valid()
    ensures (writer.State(), rc) == WriteCallback(writer.factor, writer.mem.grants)(old(writer.State()), bytes)
    ensures writer.mem.live == old(writer.mem.live) - old(writer.Blocks()) + writer.Blocks()
    ensures writer.obj == old(writer.obj) || writer.obj == null || fresh(writer.obj)
  {
    rc := writer.WriteBytes(bytes, ToSsize(size));
    assert Addressed(bytes, size) == bytes;
  }

  /** `to_bytes` of `_util.c`, which does not check `PyBytesWriter_Create`; `undefined`
      tells that it goes on to use a null writer.  Every block obtained is
      released, or is the result. */
  method ToBytesOfPython(mem: Allocator, factor: Factor, script: Script) returns (r: array?<byte>, undefined: bool)
    requires mem !in mem.live && Chunked(script.chunks)
    modifies mem
    ensures ToBytesPython(factor, mem.grants, old(mem.requests), script)
         == (if undefined then NullDereference else if r == null then NullResult else Collected(r[..]))
    ensures r != null ==> fresh(r)
    ensures mem.live == old(mem.live) + (if r == null then {} else {r as object})
  {
    var writer := PyBytesWriter.Create(mem, factor, 0);
    if writer == null && (script.chunks != [] || !script.throws) {
      return null, true;
    }
    var rc := -1;
    if writer != null {
      rc := Serialize<()>(PySink(writer), script);
      OnPythonIsWrites<()>(factor, mem.grants, Empty(old(mem.requests) + 1), script.chunks);
      WritesContents(factor, mem.grants, Empty(old(mem.requests) + 1), script.chunks);
    }
    if rc != 0 {
      PyBytesWriter.Discard(writer);
      return null, false;
    }
    r := PyBytesWriter.FinishAndFree(writer);
    undefined := false;
  }

  /** `to_bytes_` of `btck.cpp`. */
  method ToBytesOfCpp<E>(fate: nat -> Option<E>, script: Script) returns (r: CppResult<E>)
    requires Chunked(script.chunks)
    ensures r == ToBytesCpp(fate, script)
  {
    var closure := new Closure(fate);
    var rc := Serialize(CppSink(closure), script);
    OnCppIsInsert(fate, Vector([], None, 0), script.chunks);
    if rc != 0 {
      match closure.exception {
        case Some(e) => return Rethrown(e);
        case None => return NullRethrow;
      }
    }
    return Bytes(closure.bytes);
  }

  /** `WriterStream::write`: a nonzero result of the callback becomes an exception. */
  method StreamWrite<E>(sink: Sink<E>, chunk: seq<byte>) returns (threw: bool)
    requires sink.Ready() && |chunk| <= SSIZE_MAX
    modifies sink.Repr()
    ensures sink.Valid() && fresh(sink.Repr() - old(sink.Repr())) && sink.Outside() == old(sink.Outside())
    ensures var (s, rc) := sink.Step()(old(sink.State()), chunk);
            sink.State() == s && threw == (rc != 0)
    ensures !threw ==> sink.Ready()
  {
    var rc: int;
    match sink {
      case PySink(w) => rc := WriteBytes(w, chunk, |chunk|);
      case CppSink(c) => rc := c.Write(chunk);
    }
    threw := rc != 0;
  }

  /** `BtcK_Transaction_ToBytes`: serialize through the stream, and turn any
      exception into -1. */
  method Serialize<E>(sink: Sink<E>, script: Script) returns (rc: int)
    requires sink.Ready() && Chunked(script.chunks)
    modifies sink.Repr()
    ensures sink.Valid() && fresh(sink.Repr() - old(sink.Repr())) && sink.Outside() == old(sink.Outside())
    ensures var o := Drive(sink.Step(), old(sink.State()), script.chunks);
            sink.State() == o.state && rc == ReturnCode(o, script)
  {
    var i := 0;
    while i < |script.chunks|
      invariant 0 <= i <= |script.chunks|
      invariant sink.Ready() && fresh(sink.Repr() - old(sink.Repr())) && sink.Outside() == old(sink.Outside())
      invariant Drive(sink.Step(), old(sink.State()), script.chunks)
             == Advance(Drive(sink.Step(), sink.State(), script.chunks[i..]), i)
    {
      var threw := StreamWrite(sink, script.chunks[i]);
      assert script.chunks[i..][0] == script.chunks[i];
      assert script.chunks[i..][1..] == script.chunks[i + 1..];
      if threw {
        return -1;
      }
      i := i + 1;
    }
    return if script.throws then -1 else 0;
  }
}
