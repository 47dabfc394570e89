/** Machine widths and small value types shared by every module.  The model is
    that of a 64-bit target: `size_t`, `Py_ssize_t` and `ptrdiff_t` are 64 bits
    wide and `int` is 32 bits wide. */
module Common {
  newtype byte = x: int | 0 <= x < 256

  datatype Option<+T> = None | Some(value: T)

  const SSIZE_MAX: int := 0x7fff_ffff_ffff_ffff
  const SSIZE_MIN: int := -SSIZE_MAX - 1
  const SIZE_MOD: int := 0x1_0000_0000_0000_0000
  const INT_MAX: int := 0x7fff_ffff

  /** The integers a `Py_ssize_t` (or `ptrdiff_t`) can hold. */
  predicate IsSsize(x: int) {
    SSIZE_MIN <= x <= SSIZE_MAX
  }

  /** Conversion of a `size_t` to the signed type of the same width. */
  function ToSsize(x: int): (r: int)
    requires 0 <= x < SIZE_MOD
    ensures IsSsize(r)
    ensures (r - x) % SIZE_MOD == 0
  {
    if x <= SSIZE_MAX then x else x - SIZE_MOD
  }

  function Max(a: int, b: int): int {
    if a < b then b else a
  }

  function Min(a: int, b: int): int {
    if a < b then a else b
  }

  function Concat<T>(chunks: seq<seq<T>>): seq<T> {
    if chunks == [] then [] else chunks[0] + Concat(chunks[1..])
  }

  lemma {:induction false} ConcatSnoc<T>(chunks: seq<seq<T>>, last: seq<T>)
    ensures Concat(chunks + [last]) == Concat(chunks) + last
    decreases chunks
  {
    if chunks == [] {
      assert chunks + [last] == [last];
      assert Concat([last]) == last + Concat<T>([]) == last;
    } else {
      assert (chunks + [last])[1..] == chunks[1..] + [last];
      ConcatSnoc(chunks[1..], last);
      assert chunks[0] + (Concat(chunks[1..]) + last) == (chunks[0] + Concat(chunks[1..])) + last;
    }
  }
}
