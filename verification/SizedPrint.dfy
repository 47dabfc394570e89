/** Printing into a buffer of limited size: one `snprintf` call, and a chain of
    calls through a context that together behave like one. */
module SizedPrint {
  import opened Common

  /** The buffer after `snprintf(buffer + at, size, "%s", text)`: as much of the
      text as fits before a NUL, and nothing else touched (C11 section 7.21.6.5). */
  function Snprintf(buffer: string, at: nat, size: nat, text: string): (r: string)
    requires size > 0 ==> at + size <= |buffer|
    ensures |r| == |buffer|
  {
    if size == 0 then buffer
    else
      var n := Min(|text|, size - 1);
      buffer[..at] + text[..n] + ['\0'] + buffer[at + n + 1..]
  }

  /** Exactly the bytes an `snprintf` changes. */
  lemma SnprintfBytes(buffer: string, size: nat, text: string, i: nat)
    requires size <= |buffer| && i < |buffer|
    ensures Snprintf(buffer, 0, size, text)[i] ==
            if i < |text| && i + 1 < size then text[i]
            else if i < size && i == Min(|text|, size - 1) then '\0'
            else buffer[i]
  {
  }

  /** `struct PrintContext`; the cursor counts from the start of the caller's
      buffer and runs past its end once the text is truncated. */
  datatype Context = Context(buffer: string, cursor: nat, remaining: nat, num: nat)

  /** `print` */
  function Print(ctx: Context, text: string): Context
    requires ctx.remaining > 0 ==> ctx.cursor + ctx.remaining <= |ctx.buffer|
  {
    Context(Snprintf(ctx.buffer, ctx.cursor, ctx.remaining, text),
            ctx.cursor + |text|,
            if |text| < ctx.remaining then ctx.remaining - |text| else 0,
            ctx.num + |text|)
  }

  /** The context in which `done` has been printed to a buffer of `len` bytes. */
  function Printed(buffer: string, len: nat, done: string): Context
    requires len <= |buffer|
  {
    Context(Snprintf(buffer, 0, len, done), |done|, if |done| < len then len - |done| else 0, |done|)
  }

  lemma PrintExtends(buffer: string, len: nat, done: string, text: string)
    requires len <= |buffer|
    ensures Print(Printed(buffer, len, done), text) == Printed(buffer, len, done + text)
  {
  }

  /** The first print of a chain, into the caller's untouched buffer. */
  lemma PrintStarts(buffer: string, len: nat, text: string)
    requires len <= |buffer|
    ensures Print(Context(buffer, 0, len, 0), text) == Printed(buffer, len, text)
  {
  }

  function PrintAll(ctx: Context, pieces: seq<string>): Context
    requires ctx.remaining > 0 ==> ctx.cursor + ctx.remaining <= |ctx.buffer|
    decreases pieces
  {
    if pieces == [] then ctx else PrintAll(Print(ctx, pieces[0]), pieces[1..])
  }

  lemma {:induction false} PrintAllExtends(buffer: string, len: nat, done: string, pieces: seq<string>)
    requires len <= |buffer|
    ensures PrintAll(Printed(buffer, len, done), pieces) == Printed(buffer, len, done + Concat(pieces))
    decreases pieces
  {
    if pieces == [] {
      assert done + [] == done;
    } else {
      PrintExtends(buffer, len, done, pieces[0]);
      PrintAllExtends(buffer, len, done + pieces[0], pieces[1..]);
      assert (done + pieces[0]) + Concat(pieces[1..]) == done + Concat(pieces);
    }
  }

  /** A chain of prints refines one `snprintf` of the whole text: same bytes, same
      count, for every buffer size, wherever the truncation falls. */
  lemma ChainIsOneSnprintf(buffer: string, len: nat, pieces: seq<string>)
    requires len <= |buffer| && pieces != []
    ensures var ctx := PrintAll(Context(buffer, 0, len, 0), pieces);
            && ctx.buffer == Snprintf(buffer, 0, len, Concat(pieces))
            && ctx.num == ctx.cursor == |Concat(pieces)|
            && ctx.remaining == if ctx.num < len then len - ctx.num else 0
  {
    PrintStarts(buffer, len, pieces[0]);
    PrintAllExtends(buffer, len, pieces[0], pieces[1..]);
  }
}
