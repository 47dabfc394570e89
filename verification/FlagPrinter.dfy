/** `BtcK_VerificationFlags_ToString`, which fills the caller's buffer in place. */
module FlagPrinter {
  import opened Common
  import opened SizedPrint
  import opened FlagText

  /** What a `char*` argument of `size` bytes shows: nothing when it is NULL. */
  function Shown(buffer: array?<char>): string
    reads if buffer == null then {} else {buffer}
  {
    if buffer == null then "" else buffer[..]
  }

  /** `vsnprintf(buffer + at, size, "%s", text)` */
  method Vsnprintf(buffer: array?<char>, at: nat, size: nat, text: string) returns (retval: int)
    requires size > 0 ==> buffer != null && at + size <= buffer.Length
    modifies if buffer == null then {} else {buffer}
    ensures retval == |text|
    ensures Shown(buffer) == Snprintf(old(Shown(buffer)), at, size, text)
  {
    if size > 0 {
      ghost var before := buffer[..];
      var n := if |text| < size - 1 then |text| else size - 1;
      forall k | at <= k < at + n {
        buffer[k] := text[k - at];
      }
      buffer[at + n] := '\0';
      ghost var after := Snprintf(before, at, size, text);
      assert forall k :: at <= k < at + n ==> after[k] == text[k - at];
      assert buffer[..] == after;
    }
    retval := |text|;
  }

  /** `struct PrintContext` */
  class PrintContext {
    const buffer: array?<char>
    /** Where `ctx->buffer` points, counted from the caller's buffer. */
    var cursor: nat
    var bufsz: nat
    var num: int

    constructor (buffer: array?<char>, len: nat)
      ensures this.buffer == buffer && cursor == 0 && bufsz == len && num == 0
    {
      this.buffer := buffer;
      cursor, bufsz, num := 0, len, 0;
    }

    ghost predicate Valid()
      reads this
    {
      && (bufsz > 0 ==> buffer != null && cursor + bufsz <= buffer.Length)
      && 0 <= num
    }

    ghost function State(): Context
      requires Valid()
      reads this, if buffer == null then {} else {buffer}
    {
      Context(Shown(buffer), cursor, bufsz, num)
    }

    /** `print(ctx, "%s%s", lead, name)` */
    method PrintTwo(lead: string, name: string) returns (total: int)
      requires Valid() && num + |lead + name| <= INT_MAX
      modifies this, if buffer == null then {} else {buffer}
      ensures Valid() && State() == Print(old(State()), lead + name)
      ensures total == num
    {
      var retval := Vsnprintf(buffer, cursor, bufsz, lead + name);
      if retval < 0 {
        return retval;
      }
      cursor := cursor + retval;
      bufsz := if retval < bufsz then bufsz - retval else 0;
      num := num + retval;
      return num;
    }
  }

  /** The context after the first `n` entries of the table. */
  function AfterEntries(before: string, len: nat, table: seq<Entry>, flags: Word, n: nat): Context
    requires len <= |before| && n <= |table|
  {
    var names := NamesTo(table, flags, n);
    if names == [] then Context(before, 0, len, 0) else Printed(before, len, Join(names))
  }

  lemma EntryStep(before: string, len: nat, table: seq<Entry>, flags: Word, n: nat)
    requires len <= |before| && n < |table| && Has(flags, table[n])
    ensures var ctx := AfterEntries(before, len, table, flags, n);
            var lead := if NamesTo(table, flags, n) == [] then "" else SEP;
            && (ctx.remaining > 0 ==> ctx.cursor + ctx.remaining <= |ctx.buffer|)
            && AfterEntries(before, len, table, flags, n + 1) == Print(ctx, lead + table[n].name)
            && ctx.num + |lead + table[n].name| <= Weight(table)
  {
    var names, name := NamesTo(table, flags, n), table[n].name;
    JoinSnoc(names, name);
    JoinBound(table, flags, n + 1);
    WeightGrows(table, n + 1);
    if names == [] {
      PrintStarts(before, len, "" + name);
      assert "" + name == name;
    } else {
      PrintExtends(before, len, Join(names), SEP + name);
      assert Join(names) + (SEP + name) == Join(names) + SEP + name;
    }
  }

  /** What the loop leaves for a word that reaches it. */
  lemma AfterAllEntries(before: string, len: nat, table: seq<Entry>, flags: Word)
    requires len <= |before| && flags != {} && flags <= Mask(table)
    ensures AfterEntries(before, len, table, flags, |table|) == Printed(before, len, Join(Names(table, flags)))
  {
    assert flags * Mask(table) == flags;
    SomeName(table, flags, |table|);
  }

  /** The loop of `BtcK_VerificationFlags_ToString`. */
  method PrintEntries(ctx: PrintContext, table: seq<Entry>, flags: Word, ghost before: string, ghost len: nat)
    requires len <= |before| && Weight(table) <= INT_MAX
    requires ctx.Valid() && ctx.State() == Context(before, 0, len, 0)
    modifies ctx, if ctx.buffer == null then {} else {ctx.buffer}
    ensures ctx.Valid() && ctx.State() == AfterEntries(before, len, table, flags, |table|)
  {
    var first := true;
    var i := 0;
    while i < |table|
      invariant 0 <= i <= |table|
      invariant first <==> NamesTo(table, flags, i) == []
      invariant ctx.Valid() && ctx.State() == AfterEntries(before, len, table, flags, i)
    {
      if Has(flags, table[i]) {
        EntryStep(before, len, table, flags, i);
        var _ := ctx.PrintTwo(if first then "" else SEP, table[i].name);
        first := false;
      }
      i := i + 1;
    }
  }

  /** `BtcK_VerificationFlags_ToString` over any flag table: it returns the length
      of the whole text, or -1, and leaves the buffer as one `snprintf` would. */
  method ToString(table: seq<Entry>, flags: Word, buffer: array?<char>, len: nat) returns (r: int)
    requires Weight(table) <= INT_MAX
    requires if buffer == null then len == 0 else len <= buffer.Length
    modifies if buffer == null then {} else {buffer}
    ensures match Text(table, flags)
            case None => r == -1 && Shown(buffer) == old(Shown(buffer))
            case Some(text) => r == |text| && Shown(buffer) == Snprintf(old(Shown(buffer)), 0, len, text)
  {
    if flags == Mask(table) {
      r := Vsnprintf(buffer, 0, len, "ALL");
      return;
    }
    if flags == {} {
      r := Vsnprintf(buffer, 0, len, "NONE");
      return;
    }
    if flags - Mask(table) != {} {
      return -1;
    }
    SubsetWhenNothingLeft(flags, Mask(table));
    var ctx := new PrintContext(buffer, len);
    ghost var before := Shown(buffer);
    PrintEntries(ctx, table, flags, before, len);
    AfterAllEntries(before, len, table, flags);
    r := ctx.num;
  }

  lemma SubsetWhenNothingLeft(flags: Word, mask: Word)
    requires flags - mask == {}
    ensures flags <= mask
  {
    assert forall bit :: bit in flags && bit !in mask ==> bit in flags - mask;
  }
}
