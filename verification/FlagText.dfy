/** The text of a verification-flag word and a parser that reads it back. */
module FlagText {
  import opened Common

  /** A bit of a `uint32_t`. */
  type Bit = b: nat | b < 32

  /** A flag word, as the set of its one bits: `&`, `|` and `& ~` of the source
      are intersection, union and difference, and `1U << n` is {n}. */
  type Word = set<Bit>

  datatype Entry = Entry(flag: Word, name: string)

  /** `flag_table` */
  const FLAG_TABLE: seq<Entry> := [
    Entry({0}, "P2SH"),
    Entry({2}, "DERSIG"),
    Entry({4}, "NULLDUMMY"),
    Entry({9}, "CHECKLOCKTIMEVERIFY"),
    Entry({10}, "CHECKSEQUENCEVERIFY"),
    Entry({11}, "WITNESS"),
    Entry({17}, "TAPROOT")
  ]

  /** BtcK_VerificationFlags_ALL */
  const ALL: Word := {0, 2, 4, 9, 10, 11, 17}

  const SEP := " | "

  /** The bits the first `n` entries name. */
  function MaskTo(table: seq<Entry>, n: nat): Word
    requires n <= |table|
  {
    if n == 0 then {} else MaskTo(table, n - 1) + table[n - 1].flag
  }

  function Mask(table: seq<Entry>): Word {
    MaskTo(table, |table|)
  }

  predicate Has(flags: Word, e: Entry) {
    flags * e.flag != {}
  }

  /** The names of the flags set in a word, in table order, among the first `n` entries. */
  function NamesTo(table: seq<Entry>, flags: Word, n: nat): seq<string>
    requires n <= |table|
  {
    if n == 0 then []
    else if Has(flags, table[n - 1]) then NamesTo(table, flags, n - 1) + [table[n - 1].name]
    else NamesTo(table, flags, n - 1)
  }

  function Names(table: seq<Entry>, flags: Word): seq<string> {
    NamesTo(table, flags, |table|)
  }

  function Join(names: seq<string>): string {
    if names == [] then ""
    else if |names| == 1 then names[0]
    else Join(names[..|names| - 1]) + SEP + names[|names| - 1]
  }

  lemma JoinSnoc(names: seq<string>, name: string)
    ensures Join(names + [name]) == if names == [] then name else Join(names) + SEP + name
  {
  }

  /** The whole text of a flag word; None where `ToString` returns -1. */
  function Text(table: seq<Entry>, flags: Word): Option<string> {
    if flags == Mask(table) then Some("ALL")
    else if flags == {} then Some("NONE")
    else if flags - Mask(table) != {} then None
    else Some(Join(Names(table, flags)))
  }

  // ----- the parser -----

  /** The position of the first separator, if there is one. */
  function FindSep(s: string): Option<nat> {
    if |s| < 3 then None
    else if s[..3] == SEP then Some(0)
    else match FindSep(s[1..]) case None => None case Some(i) => Some(i + 1)
  }

  lemma FindSepFits(s: string)
    ensures FindSep(s).Some? ==> FindSep(s).value + 3 <= |s|
  {
  }

  function Split(s: string): seq<string> {
    FindSepFits(s);
    match FindSep(s)
    case None => [s]
    case Some(i) => [s[..i]] + Split(s[i + 3..])
  }

  function Lookup(table: seq<Entry>, name: string): Option<Word> {
    if table == [] then None
    else if table[0].name == name then Some(table[0].flag)
    else Lookup(table[1..], name)
  }

  function ParseNames(table: seq<Entry>, names: seq<string>): Option<Word> {
    if names == [] then Some({})
    else
      match (ParseNames(table, names[..|names| - 1]), Lookup(table, names[|names| - 1]))
      case (Some(a), Some(b)) => Some(a + b)
      case _ => None
  }

  function Parse(table: seq<Entry>, s: string): Option<Word> {
    if s == "ALL" then Some(Mask(table))
    else if s == "NONE" then Some({})
    else ParseNames(table, Split(s))
  }

  // ----- the parser undoes the printer -----

  ghost predicate SingleBit(b: Word) {
    exists bit :: b == {bit}
  }

  predicate Plain(name: string) {
    '|' !in name && name != "ALL" && name != "NONE"
  }

  /** Single bits under plain, distinct names; no two entries need differ in their bit. */
  ghost predicate Readable(table: seq<Entry>) {
    && (forall i :: 0 <= i < |table| ==> SingleBit(table[i].flag) && Plain(table[i].name))
    && (forall i, j :: 0 <= i < j < |table| ==> table[i].name != table[j].name)
  }

  lemma {:induction false} JoinCons(name: string, names: seq<string>)
    requires names != []
    ensures Join([name] + names) == name + SEP + Join(names)
    decreases names
  {
    var all := [name] + names;
    assert all[..|all| - 1] == [name] + names[..|names| - 1];
    if |names| > 1 {
      var init, last := names[..|names| - 1], names[|names| - 1];
      JoinCons(name, init);
      assert (name + SEP + Join(init)) + SEP + last == name + SEP + (Join(init) + SEP + last);
    } else {
      assert all[..1] == [name];
    }
  }

  lemma {:induction false} NoSepInPlain(name: string)
    requires '|' !in name
    ensures FindSep(name).None?
    decreases name
  {
    if |name| >= 3 {
      assert name[..3][1] == name[1];
      NoSepInPlain(name[1..]);
    }
  }

  lemma {:induction false} SepAfterPlain(name: string, rest: string)
    requires '|' !in name
    ensures FindSep(name + SEP + rest) == Some(|name|)
    decreases name
  {
    var s := name + SEP + rest;
    if name == "" {
      assert s[..3] == SEP;
    } else {
      assert s[1..] == name[1..] + SEP + rest;
      SepAfterPlain(name[1..], rest);
      assert s[..3] != SEP by {
        assert s[..3][1] == s[1] && (|name| > 1 ==> s[1] == name[1]) && (|name| == 1 ==> s[1] == ' ');
      }
    }
  }

  lemma {:induction false} SplitJoin(names: seq<string>)
    requires names != [] && forall k :: 0 <= k < |names| ==> '|' !in names[k]
    ensures Split(Join(names)) == names
    decreases names
  {
    var name := names[0];
    if |names| == 1 {
      NoSepInPlain(name);
    } else {
      var rest := names[1..];
      assert names == [name] + rest;
      JoinCons(name, rest);
      SepAfterPlain(name, Join(rest));
      var s := name + SEP + Join(rest);
      assert s[..|name|] == name && s[|name| + 3..] == Join(rest);
      SplitJoin(rest);
    }
  }

  lemma {:induction false} LookupAt(table: seq<Entry>, i: nat)
    requires i < |table|
    requires forall j, k :: 0 <= j < k < |table| ==> table[j].name != table[k].name
    ensures Lookup(table, table[i].name) == Some(table[i].flag)
    decreases table
  {
    if i > 0 {
      LookupAt(table[1..], i - 1);
    }
  }

  lemma ParseSnoc(table: seq<Entry>, names: seq<string>, name: string)
    ensures ParseNames(table, names + [name]) ==
            match (ParseNames(table, names), Lookup(table, name))
            case (Some(a), Some(b)) => Some(a + b)
            case _ => None
  {
  }

  /** Reading back the names selected from a prefix of the table yields the bits
      of the word that the prefix names. */
  lemma {:induction false} ParseSelected(table: seq<Entry>, n: nat, flags: Word)
    requires Readable(table) && n <= |table|
    ensures ParseNames(table, NamesTo(table, flags, n)) == Some(flags * MaskTo(table, n))
    decreases n
  {
    if n == 0 {
      assert flags * {} == {};
    } else {
      var e := table[n - 1];
      ParseSelected(table, n - 1, flags);
      SplitWord(flags, MaskTo(table, n - 1), e.flag);
      if Has(flags, e) {
        LookupAt(table, n - 1);
        ParseSnoc(table, NamesTo(table, flags, n - 1), e.name);
      }
    }
  }

  lemma SplitWord(flags: Word, mask: Word, bit: Word)
    requires SingleBit(bit)
    ensures flags * (mask + bit) == if flags * bit != {} then flags * mask + bit else flags * mask
  {
  }

  lemma {:induction false} NamesArePlain(table: seq<Entry>, flags: Word, n: nat)
    requires n <= |table| && forall i :: 0 <= i < |table| ==> Plain(table[i].name)
    ensures forall k :: 0 <= k < |NamesTo(table, flags, n)| ==> Plain(NamesTo(table, flags, n)[k])
    decreases n
  {
    if n > 0 {
      NamesArePlain(table, flags, n - 1);
    }
  }

  lemma {:induction false} SomeName(table: seq<Entry>, flags: Word, n: nat)
    requires n <= |table| && flags * MaskTo(table, n) != {}
    ensures NamesTo(table, flags, n) != []
    decreases n
  {
    if n > 0 && !Has(flags, table[n - 1]) {
      assert flags * MaskTo(table, n) == flags * MaskTo(table, n - 1) + flags * table[n - 1].flag;
      SomeName(table, flags, n - 1);
    }
  }

  /** A joined text never reads "ALL" or "NONE". */
  lemma JoinIsNoKeyword(names: seq<string>)
    requires names != [] && forall k :: 0 <= k < |names| ==> Plain(names[k])
    ensures Join(names) != "ALL" && Join(names) != "NONE"
  {
    if |names| > 1 {
      var s := Join(names);
      assert s[|Join(names[..|names| - 1])| + 1] == '|';
      assert '|' in s;
    }
  }

  /** The words that reach the loop of `ToString`. */
  lemma ParseUndoesJoin(table: seq<Entry>, flags: Word)
    requires Readable(table) && flags != {} && flags <= Mask(table)
    ensures Parse(table, Join(Names(table, flags))) == Some(flags)
  {
    assert flags * Mask(table) == flags;
    SomeName(table, flags, |table|);
    NamesArePlain(table, flags, |table|);
    SplitJoin(Names(table, flags));
    JoinIsNoKeyword(Names(table, flags));
    ParseSelected(table, |table|, flags);
  }

  /** The printer refuses exactly the words with a bit the table does not name,
      and the parser undoes it on all others. */
  lemma ParseUndoesText(table: seq<Entry>, flags: Word)
    requires Readable(table)
    ensures Text(table, flags).Some? <==> flags <= Mask(table)
    ensures Text(table, flags).Some? ==> Parse(table, Text(table, flags).value) == Some(flags)
  {
    if flags != Mask(table) && flags != {} && flags - Mask(table) == {} {
      ParseUndoesJoin(table, flags);
    }
  }

  /** So the printed form determines the flags. */
  lemma TextIsInjective(table: seq<Entry>, f: Word, g: Word)
    requires Readable(table)
    requires Text(table, f).Some? && Text(table, f) == Text(table, g)
    ensures f == g
  {
    ParseUndoesText(table, f);
    ParseUndoesText(table, g);
  }

  /** An upper bound for the text of any word. */
  function WeightTo(table: seq<Entry>, n: nat): nat
    requires n <= |table|
  {
    if n == 0 then 0 else WeightTo(table, n - 1) + |table[n - 1].name| + 3
  }

  function Weight(table: seq<Entry>): nat {
    WeightTo(table, |table|)
  }

  lemma {:induction false} JoinBound(table: seq<Entry>, flags: Word, n: nat)
    requires n <= |table|
    ensures |Join(NamesTo(table, flags, n))| <= WeightTo(table, n)
    decreases n
  {
    if n > 0 {
      JoinBound(table, flags, n - 1);
      JoinSnoc(NamesTo(table, flags, n - 1), table[n - 1].name);
    }
  }

  lemma {:induction false} WeightGrows(table: seq<Entry>, n: nat)
    requires n <= |table|
    ensures WeightTo(table, n) <= Weight(table)
    decreases |table| - n
  {
    if n < |table| {
      WeightGrows(table, n + 1);
    }
  }

  /** The table of the source is one of those the results above are about, and the
      macro ALL is the union of its flags. */
  lemma SourceTable()
    ensures Readable(FLAG_TABLE) && Mask(FLAG_TABLE) == ALL && Weight(FLAG_TABLE) < INT_MAX
  {
    SourceMask();
    SourceNames();
    SourceEntries();
  }

  lemma SourceMask()
    ensures Mask(FLAG_TABLE) == ALL && Weight(FLAG_TABLE) == 92
  {
    assert MaskTo(FLAG_TABLE, 1) == {0} && WeightTo(FLAG_TABLE, 1) == 7;
    assert MaskTo(FLAG_TABLE, 2) == {0, 2} && WeightTo(FLAG_TABLE, 2) == 16;
    assert MaskTo(FLAG_TABLE, 3) == {0, 2, 4} && WeightTo(FLAG_TABLE, 3) == 28;
    assert MaskTo(FLAG_TABLE, 4) == {0, 2, 4, 9} && WeightTo(FLAG_TABLE, 4) == 50;
    assert MaskTo(FLAG_TABLE, 5) == {0, 2, 4, 9, 10} && WeightTo(FLAG_TABLE, 5) == 72;
    assert MaskTo(FLAG_TABLE, 6) == {0, 2, 4, 9, 10, 11} && WeightTo(FLAG_TABLE, 6) == 82;
    assert MaskTo(FLAG_TABLE, 7) == ALL && WeightTo(FLAG_TABLE, 7) == 92;
  }

  lemma SourceNames()
    ensures forall i, j :: 0 <= i < j < |FLAG_TABLE| ==> FLAG_TABLE[i].name != FLAG_TABLE[j].name
  {
  }

  lemma SourceEntries()
    ensures forall i :: 0 <= i < |FLAG_TABLE| ==> SingleBit(FLAG_TABLE[i].flag) && Plain(FLAG_TABLE[i].name)
  {
    var bits: seq<Bit> := [0, 2, 4, 9, 10, 11, 17];
    assert FLAG_TABLE[0].name[0] == 'P';
    forall i | 0 <= i < |FLAG_TABLE|
      ensures SingleBit(FLAG_TABLE[i].flag) && Plain(FLAG_TABLE[i].name)
    {
      assert FLAG_TABLE[i].flag == {bits[i]};
    }
  }
}
