/** `PyBytesWriter` of `_bytes_writer.c`, updated in place and proved to do what
    WriterSpec says. */
module BytesWriter {
  import opened Common
  import opened Memory
  import opened WriterSpec

  /** The bytes before the first NUL. */
  function CString(memory: seq<byte>): (text: seq<byte>)
    requires 0 in memory
    ensures text < memory && 0 !in text && memory[|text|] == 0
  {
    if memory[0] == 0 then []
    else
      assert [memory[0]] + memory[1..] == memory;
      [memory[0]] + CString(memory[1..])
  }

  /** The bytes a call of `PyBytesWriter_WriteBytes` refers to: a negative size
      asks for the NUL-terminated string at `memory`. */
  function Addressed(memory: seq<byte>, size: int): seq<byte>
    requires if size < 0 then 0 in memory else size <= |memory|
  {
    if size < 0 then CString(memory) else memory[..size]
  }

  /** Two writers that differ at most in their bytes from `k` on. */
  ghost predicate SameUpTo(a: Writer, b: Writer, k: int) {
    && a.Live? && b.Live?
    && 0 <= k <= |a.contents| && k <= |b.contents|
    && a.(contents := a.contents[..k]) == b.(contents := b.contents[..k])
  }

  /** `strlen` */
  method StrLen(memory: seq<byte>) returns (len: nat)
    requires 0 in memory
    ensures len < |memory| && memory[..len] == CString(memory)
  {
    len := 0;
    ghost var text := CString(memory);
    while memory[len] != 0
      invariant len <= |text|
      decreases |text| - len
    {
      assert memory[|text|] == 0 && len < |text|;
      len := len + 1;
    }
  }

  /** `memcpy(buffer + pos, memory, count)` */
  method CopyIn(buffer: array<byte>, pos: nat, memory: seq<byte>, count: nat)
    requires pos + count <= buffer.Length && count <= |memory|
    modifies buffer
    ensures buffer[..pos + count] == old(buffer[..pos]) + memory[..count]
  {
    forall k | pos <= k < pos + count {
      buffer[k] := memory[k - pos];
    }
  }

  class PyBytesWriter {
    const mem: Allocator
    const factor: Factor
    /** Part of the writer's own block, not a block of its own. */
    const smallBuffer: array<byte>
    var obj: array?<byte>
    var size: int

    /** `_PyBytes_Resize` has dropped the block that held the bytes. */
    ghost var broken: bool
    /** Bytes relocated, and reallocations made, so far. */
    ghost var moved: nat
    ghost var regrows: nat

    /** The blocks this writer answers for. */
    ghost function Blocks(): set<object>
      reads this
    {
      {this as object} + if obj == null then {} else {obj as object}
    }

    ghost function Repr(): set<object>
      reads this
    {
      Blocks() + {smallBuffer, mem}
    }

    ghost predicate Valid()
      reads this, smallBuffer, mem, obj
    {
      && smallBuffer.Length == INLINE
      && Blocks() <= mem.live
      && smallBuffer !in mem.live
      && mem !in mem.live
      && obj != smallBuffer
      && if broken then obj == null else 0 <= size <= Allocated() <= SSIZE_MAX
    }

    /** `byteswriter_allocated` */
    function Allocated(): int
      reads this
    {
      if obj == null then INLINE else obj.Length
    }

    /** `byteswriter_data` */
    function Data(): array<byte>
      reads this
    {
      if obj == null then smallBuffer else obj
    }

    ghost function State(): Writer
      requires Valid()
      reads this, smallBuffer, mem, obj
    {
      if broken then Broken(mem.requests)
      else Live(obj != null, Allocated(), Data()[..size], moved, regrows, mem.requests)
    }

    constructor Init(mem: Allocator, factor: Factor)
      ensures this.mem == mem && this.factor == factor
      ensures smallBuffer.Length == INLINE && fresh(smallBuffer)
      ensures obj == null && size == 0 && !broken && moved == 0 && regrows == 0
    {
      this.mem := mem;
      this.factor := factor;
      smallBuffer := new byte[INLINE];
      obj := null;
      size := 0;
      broken, moved, regrows := false, 0, 0;
    }

    /** `byteswriter_resize` when the bytes are on the heap already. */
    method EnlargeBlock(target: int) returns (rc: int)
      requires Valid() && !broken && obj != null && Allocated() < target <= SSIZE_MAX
      modifies this, mem
      ensures Valid() && size == old(size) && mem.requests == old(mem.requests) + 1
      ensures rc == if mem.grants(old(mem.requests)) then 0 else -1
      ensures rc == -1 ==> broken && obj == null
      ensures rc == 0 ==>
                && !broken && obj != null && fresh(obj) && obj.Length == target
                && obj[..size] == old(obj[..size])
                && moved == old(moved + Allocated()) && regrows == old(regrows) + 1
      ensures mem.live == old(mem.live) - old(Blocks()) + Blocks()
    {
      moved, regrows := moved + obj.Length, regrows + 1;
      ghost var before := obj[..size];
      obj := mem.ResizeBytes(obj, target);
      if obj == null {
        broken := true;
        return -1;
      }
      assert obj[..size] == before;
      return 0;
    }

    /** `byteswriter_resize` when the bytes are still in the small buffer. */
    method MoveToHeap(target: int) returns (rc: int)
      requires Valid() && !broken && obj == null && Allocated() < target <= SSIZE_MAX
      modifies this, mem
      ensures Valid() && !broken && size == old(size) && mem.requests == old(mem.requests) + 1
      ensures rc == if mem.grants(old(mem.requests)) then 0 else -1
      ensures rc == -1 ==> obj == null && moved == old(moved) && regrows == old(regrows)
      ensures rc == 0 ==>
                && obj != null && fresh(obj) && obj.Length == target
                && obj[..size] == old(smallBuffer[..size])
                && moved == old(moved) + INLINE && regrows == old(regrows) + 1
      ensures mem.live == old(mem.live) - old(Blocks()) + Blocks()
    {
      obj := mem.NewBytes(target);
      if obj == null {
        return -1;
      }
      forall k | 0 <= k < INLINE {
        obj[k] := smallBuffer[k];
      }
      moved, regrows := moved + INLINE, regrows + 1;
      return 0;
    }

    /** `byteswriter_resize`: makes room for `needed` bytes. */
    method Resize(needed: int, overallocate: bool) returns (rc: int)
      requires Valid() && !broken && 0 <= needed <= SSIZE_MAX
      modifies this, mem
      ensures Valid() && size == old(size)
      ensures rc == 0 || rc == -1
      ensures (State(), rc == 0) == Reserve(factor, mem.grants, old(State()), needed, overallocate)
      ensures mem.live == old(mem.live) - old(Blocks()) + Blocks()
      ensures obj == old(obj) || obj == null || fresh(obj)
    {
      var target := needed;
      if target <= Allocated() {
        return 0;
      }
      if overallocate {
        if target <= SSIZE_MAX - Spare(factor, target) {
          target := target + Spare(factor, target);
        }
      }
      if obj != null {
        rc := EnlargeBlock(target);
      } else {
        rc := MoveToHeap(target);
      }
    }

    /** `byteswriter_grow`: a negative `delta` shrinks the writer.  When the
        writer grows, the bytes beyond the old size are not initialised. */
    method Grow(delta: int) returns (rc: int)
      requires Valid() && !broken && IsSsize(delta)
      modifies this, mem
      ensures Valid() && (rc == 0 || rc == -1)
      ensures mem.live == old(mem.live) - old(Blocks()) + Blocks()
      ensures obj == old(obj) || obj == null || fresh(obj)
      ensures old(size) + delta < 0 || old(size) + delta > SSIZE_MAX ==>
                rc == -1 && State() == old(State()) && size == old(size)
      ensures 0 <= old(size) + delta <= SSIZE_MAX ==>
                var (w, ok) := Reserve(factor, mem.grants, old(State()), old(size) + delta, true);
                && (rc == 0) == ok
                && (!ok ==> State() == w)
                && (ok ==>
                    && !broken && size == old(size) + delta
                    && SameUpTo(State(), w, if delta < 0 then size else old(size)))
    {
      if delta < 0 && size + delta < 0 {
        return -1;
      }
      if delta > SSIZE_MAX - size {
        return -1;
      }
      var needed := size + delta;
      ghost var before := State();
      rc := Resize(needed, true);
      if rc < 0 {
        return -1;
      }
      ghost var reserved := State();
      size := needed;
      if delta >= 0 {
        assert Data()[..size][..old(size)] == reserved.contents;
      } else {
        assert Data()[..size] == before.contents[..size];
      }
    }

    /** `PyBytesWriter_Create`; null stands for the NULL result. */
    static method Create(mem: Allocator, factor: Factor, size: int) returns (writer: PyBytesWriter?)
      requires IsSsize(size) && mem !in mem.live
      modifies mem
      ensures size < 0 ==> writer == null && mem.requests == old(mem.requests)
      ensures writer == null ==> mem.live == old(mem.live)
      ensures writer != null ==>
                && fresh(writer) && fresh(writer.Repr() - {mem})
                && writer.Valid() && !writer.broken && writer.mem == mem && writer.factor == factor
                && writer.size == size
                && mem.live == old(mem.live) + writer.Blocks()
      ensures 0 <= size <= INLINE ==> (writer != null) == mem.grants(old(mem.requests))
      ensures size > INLINE ==>
                (writer != null) == (mem.grants(old(mem.requests)) && mem.grants(old(mem.requests) + 1))
      ensures size == 0 && writer != null ==> writer.State() == Empty(old(mem.requests) + 1)
    {
      if size < 0 {
        return null;
      }
      var granted := mem.Ask();
      if !granted {
        return null;
      }
      var w := new PyBytesWriter.Init(mem, factor);
      mem.Track(w);
      if size >= 1 {
        var rc := w.Resize(size, false);
        if rc < 0 {
          Discard(w);
          return null;
        }
        w.size := size;
      } else {
        assert w.Data()[..w.size] == [];
      }
      return w;
    }

    /** `PyBytesWriter_Discard`: also the way to dispose of a broken writer. */
    static method Discard(writer: PyBytesWriter?)
      requires writer != null ==> writer.Blocks() <= writer.mem.live
      modifies if writer == null then {} else {writer.mem}
      ensures writer != null ==>
                && writer.mem.live == old(writer.mem.live) - writer.Blocks()
                && writer.mem.requests == old(writer.mem.requests)
    {
      if writer == null {
        return;
      }
      if writer.obj != null {
        writer.mem.Release(writer.obj);
      }
      writer.mem.Release(writer);
    }

    /** `PyBytesWriter_Finish`: the writer is gone afterwards, and the caller owns
        the result, whichever of the three ways it was made. */
    static method FinishAndFree(writer: PyBytesWriter) returns (result: array?<byte>)
      requires writer.Valid() && !writer.broken
      modifies writer, writer.mem
      ensures Finish(writer.mem.grants, old(writer.State())) == (if result == null then None else Some(result[..]))
      ensures writer.mem.live == old(writer.mem.live) - old(writer.Blocks())
                               + (if result == null then {} else {result as object})
      ensures result == null || result == old(writer.obj) || fresh(result)
    {
      ghost var contents := writer.State().contents;
      if writer.size == 0 {
        result := writer.mem.NewBytes(0);
        assert contents == [];
        assert result != null ==> result[..] == [];
      } else if writer.obj != null {
        if writer.size != writer.obj.Length {
          writer.obj := writer.mem.ResizeBytes(writer.obj, writer.size);
          if writer.obj == null {
            Discard(writer);
            return null;
          }
        }
        result := writer.obj;
        writer.obj := null;
        assert result[..] == contents;
      } else {
        result := writer.mem.NewBytes(writer.size);
        if result != null {
          forall k | 0 <= k < result.Length {
            result[k] := writer.smallBuffer[k];
          }
          assert result[..] == contents;
        }
      }
      Discard(writer);
    }

    /** The part of `PyBytesWriter_WriteBytes` after the length is known. */
    method Append(memory: seq<byte>, count: nat) returns (rc: int)
      requires Valid() && !broken && count <= |memory| && count <= SSIZE_MAX
      modifies this, mem, smallBuffer, obj
      ensures Valid()
      ensures rc == 0 || rc == -1
      ensures (State(), rc == 0) == Write(factor, mem.grants, old(State()), memory[..count])
      ensures mem.live == old(mem.live) - old(Blocks()) + Blocks()
      ensures obj == old(obj) || obj == null || fresh(obj)
    {
      var pos := size;
      ghost var before := State();
      rc := Grow(count);
      if rc < 0 {
        return;
      }
      assert Data()[..pos] == before.contents;
      CopyIn(Data(), pos, memory, count);
    }

    /** `PyBytesWriter_WriteBytes` */
    method WriteBytes(memory: seq<byte>, size: int) returns (rc: int)
      requires Valid() && !broken && IsSsize(size)
      requires if size < 0 then 0 in memory else size <= |memory|
      modifies this, mem, smallBuffer, obj
      ensures Valid()
      ensures rc == 0 || rc == -1
      ensures (State(), rc == 0) == Write(factor, mem.grants, old(State()), Addressed(memory, size))
      ensures mem.live == old(mem.live) - old(Blocks()) + Blocks()
      ensures obj == old(obj) || obj == null || fresh(obj)
    {
      var count := size;
      if size < 0 {
        count := StrLen(memory);
        if count > SSIZE_MAX {
          return -1;
        }
      }
      rc := Append(memory, count);
    }
  }
}
