/** Two-pass string building: measure with a NULL buffer, allocate, fill. */
module TwoPass {
  import opened Common
  import opened SizedPrint
  import opened FlagText
  import opened FlagPrinter

  /** A `to_string_fn`: from the buffer and the size passed, the buffer afterwards
      and the `int` returned.  The empty string stands for NULL. */
  type Printer = (string, nat) -> (string, int)

  /** Overflow stands for `len + 1` leaving `int`, which has no defined behaviour. */
  datatype Built = Built(text: string) | Failed | Overflow

  /** `to_string_` of `btck.cpp` and `to_string` of `_util.c`.  `block(n)` is the
      block of n characters the allocator delivers. */
  function Build(printfn: Printer, block: nat -> string): Built {
    var len := printfn("", 0).1;
    if len < 0 then Failed
    else if len + 1 > INT_MAX then Overflow
    else
      var filled := printfn(block(len + 1), len + 1).0;
      if len <= |filled| then Built(filled[..len]) else Failed
  }

  ghost predicate Delivers(block: nat -> string) {
    forall n :: |block(n)| == n
  }

  /** The contract of a printer: it returns the full length, whatever the size,
      and fills a buffer of one more byte with the text and at most a NUL. */
  ghost predicate Prints(printfn: Printer, text: string) {
    && printfn("", 0) == ("", |text|)
    && forall buffer: string :: |buffer| == |text| + 1 ==>
         && |printfn(buffer, |text| + 1).0| == |text| + 1
         && printfn(buffer, |text| + 1).0[..|text|] == text
         && (printfn(buffer, |text| + 1).0[|text|] == '\0' || printfn(buffer, |text| + 1).0[|text|] == buffer[|text|])
         && printfn(buffer, |text| + 1).1 == |text|
  }

  /** Two passes are exact for every printer that meets the contract. */
  lemma TwoPassIsExact(printfn: Printer, text: string, block: nat -> string)
    requires Prints(printfn, text) && Delivers(block) && |text| < INT_MAX
    ensures Build(printfn, block) == Built(text)
  {
  }

  /** The flag printer as such a function. */
  function FlagsPrinter(table: seq<Entry>, flags: Word): Printer {
    (buffer: string, n: nat) =>
      match Text(table, flags)
      case None => (buffer, -1)
      case Some(text) => if n <= |buffer| then (Snprintf(buffer, 0, n, text), |text|) else (buffer, -1)
  }

  /** Conversion of a `size_t` to `int` as `static_cast<int>` makes it. */
  function ToInt(size: nat): int {
    var low := size % 0x1_0000_0000;
    if low <= INT_MAX then low else low - 0x1_0000_0000
  }

  /** `str.copy(buf, len)` and the size of the string, as the transaction and block printers do it. */
  function CopyPrinter(text: string): Printer {
    (buffer: string, n: nat) =>
      if n <= |buffer| then (text[..Min(n, |text|)] + buffer[Min(n, |text|)..], ToInt(|text|)) else (buffer, -1)
  }

  /** A printer that ends the text by a NUL meets the contract. */
  lemma PrintsNul(printfn: Printer, text: string)
    requires printfn("", 0) == ("", |text|)
    requires forall buffer: string :: |buffer| == |text| + 1 ==> printfn(buffer, |text| + 1) == (text + ['\0'], |text|)
    ensures Prints(printfn, text)
  {
  }

  lemma FlagsPrinterPrints(table: seq<Entry>, flags: Word)
    requires Text(table, flags).Some?
    ensures Prints(FlagsPrinter(table, flags), Text(table, flags).value)
  {
    var text := Text(table, flags).value;
    assert Snprintf("", 0, 0, text) == "";
    forall buffer: string | |buffer| == |text| + 1
      ensures Snprintf(buffer, 0, |text| + 1, text) == text + ['\0']
    {
      assert buffer[..0] == [] && buffer[0 + |text| + 1..] == [] && text[..|text|] == text;
    }
    PrintsNul(FlagsPrinter(table, flags), text);
  }

  /** For every buffer and every size: which byte a copy-style printer leaves, and
      what it returns. */
  lemma CopyBytes(text: string, buffer: string, len: nat, i: nat)
    requires len <= |buffer| && i < |buffer|
    ensures var (after, r) := CopyPrinter(text)(buffer, len);
            && |after| == |buffer|
            && after[i] == (if i < len && i < |text| then text[i] else buffer[i])
            && (|text| <= INT_MAX ==> r == |text|)
  {
  }

  /** The same for the flag printer, on every word it accepts. */
  lemma FlagsBytes(table: seq<Entry>, flags: Word, buffer: string, len: nat, i: nat)
    requires len <= |buffer| && i < |buffer| && Text(table, flags).Some?
    ensures var text := Text(table, flags).value;
            var (after, r) := FlagsPrinter(table, flags)(buffer, len);
            && |after| == |buffer| && r == |text|
            && after[i] == (if i < |text| && i + 1 < len then text[i]
                            else if i < len && i == Min(|text|, len - 1) then '\0'
                            else buffer[i])
  {
    SnprintfBytes(buffer, len, Text(table, flags).value, i);
  }

  lemma CopyPrinterPrints(text: string)
    requires |text| <= INT_MAX
    ensures Prints(CopyPrinter(text), text)
  {
    assert text[..0] + "" == "";
    forall buffer: string | |buffer| == |text| + 1
      ensures CopyPrinter(text)(buffer, |text| + 1) == (text + [buffer[|text|]], |text|)
    {
      assert text[..|text|] == text && buffer[|text|..] == [buffer[|text|]];
    }
  }

  /** The string built from the flags is their text, and building fails exactly
      for the words with a bit no flag names. */
  lemma FlagsRoundTrip(table: seq<Entry>, flags: Word, block: nat -> string)
    requires Readable(table) && Weight(table) < INT_MAX && Delivers(block)
    ensures match Build(FlagsPrinter(table, flags), block)
            case Built(text) => flags <= Mask(table) && Parse(table, text) == Some(flags)
            case Failed => !(flags <= Mask(table))
            case Overflow => false
  {
    ParseUndoesText(table, flags);
    JoinBound(table, flags, |table|);
    if Text(table, flags).Some? {
      FlagsPrinterPrints(table, flags);
      TwoPassIsExact(FlagsPrinter(table, flags), Text(table, flags).value, block);
    }
  }

  /** Copy-style printers return the size cut down to an `int`, so two passes
      rebuild the text exactly when its length is below INT_MAX; longer texts fail,
      overflow, or lose everything beyond what is left of their length. */
  lemma CopyExactIff(text: string, block: nat -> string)
    requires Delivers(block)
    ensures Build(CopyPrinter(text), block) == Built(text) <==> |text| < INT_MAX
    ensures var low := |text| % 0x1_0000_0000;
            Build(CopyPrinter(text), block) ==
            if low < INT_MAX then Built(text[..low]) else if low == INT_MAX then Overflow else Failed
  {
    var low := |text| % 0x1_0000_0000;
    assert low <= |text|;
    if low < INT_MAX {
      assert (text[..Min(low + 1, |text|)] + block(low + 1)[Min(low + 1, |text|)..])[..low] == text[..low];
    }
    if |text| < INT_MAX {
      assert text[..|text|] == text;
    }
  }

  /** `std::string(n, '\0')` */
  function ZeroBlock(n: nat): (s: string)
    ensures |s| == n
  {
    seq(n, _ => '\0')
  }

  /** The printers a C function pointer can name. */
  datatype PrintFn = Flags(table: seq<Entry>, flags: Word) | Copy(text: string)
  {
    function AsPrinter(): Printer {
      match this
      case Flags(table, flags) => FlagsPrinter(table, flags)
      case Copy(text) => CopyPrinter(text)
    }

    predicate Callable() {
      Flags? ==> Weight(table) <= INT_MAX
    }
  }

  /** `BtcK_Transaction_ToString` and `BtcK_Block_ToString`. */
  method CopyToString(text: string, buffer: array?<char>, len: nat) returns (r: int)
    requires if buffer == null then len == 0 else len <= buffer.Length
    modifies if buffer == null then {} else {buffer}
    ensures (Shown(buffer), r) == CopyPrinter(text)(old(Shown(buffer)), len)
    ensures buffer != null ==>
              forall i :: 0 <= i < buffer.Length ==>
                buffer[i] == if i < len && i < |text| then text[i] else old(buffer[i])
    ensures |text| <= INT_MAX ==> r == |text|
  {
    ghost var before := Shown(buffer);
    var n := if len < |text| then len else |text|;
    if buffer != null {
      forall k | 0 <= k < n {
        buffer[k] := text[k];
      }
    }
    assert Shown(buffer) == text[..n] + before[n..];
    r := ToInt(|text|);
  }

  method CallPrinter(printfn: PrintFn, buffer: array?<char>, len: nat) returns (r: int)
    requires printfn.Callable()
    requires if buffer == null then len == 0 else len <= buffer.Length
    modifies if buffer == null then {} else {buffer}
    ensures (Shown(buffer), r) == printfn.AsPrinter()(old(Shown(buffer)), len)
  {
    match printfn {
      case Flags(table, flags) => r := ToString(table, flags, buffer, len);
      case Copy(text) => r := CopyToString(text, buffer, len);
    }
  }

  /** `to_string_` of `btck.cpp`. */
  method BuildString(printfn: PrintFn) returns (r: Built)
    requires printfn.Callable()
    ensures r == Build(printfn.AsPrinter(), ZeroBlock)
  {
    var len := CallPrinter(printfn, null, 0);
    if len < 0 {
      return Failed;
    }
    if len + 1 > INT_MAX {
      return Overflow;
    }
    var buffer := new char[len + 1](_ => '\0');
    assert buffer[..] == ZeroBlock(len + 1);
    var _ := CallPrinter(printfn, buffer, len + 1);
    return Built(buffer[..len]);
  }
}
