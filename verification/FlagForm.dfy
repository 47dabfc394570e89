/** What a flag word prints as, character by character. */
module FlagForm {
  import opened Common
  import opened FlagText

  /** `text` consists of the names, the k-th of them starting at `at[k]`, with the
      characters ' ', '|', ' ' and nothing else in between. */
  ghost predicate Laid(names: seq<string>, at: seq<nat>, text: string) {
    && |names| == |at| > 0
    && at[0] == 0
    && (forall k :: 0 <= k < |at| ==> NameAt(names[k], at[k], text))
    && (forall k :: 0 <= k < |at| - 1 ==> Neighbours(at[k] + |names[k]|, at[k + 1], text))
    && at[|at| - 1] + |names[|at| - 1]| == |text|
  }

  ghost predicate NameAt(name: string, at: nat, text: string) {
    at + |name| <= |text| && text[at..at + |name|] == name
  }

  ghost predicate Neighbours(end: nat, next: nat, text: string) {
    next == end + 3 <= |text| && text[end] == ' ' && text[end + 1] == '|' && text[end + 2] == ' '
  }

  /** `entries` are the entries whose flag is set in the word, in table order, and `names` their names. */
  ghost predicate Selects(table: seq<Entry>, flags: Word, entries: seq<nat>, names: seq<string>) {
    && |entries| == |names|
    && (forall j, k :: 0 <= j < k < |entries| ==> entries[j] < entries[k])
    && (forall k :: 0 <= k < |entries| ==> entries[k] < |table| && names[k] == table[entries[k]].name)
    && forall i :: 0 <= i < |table| ==> (i in entries <==> flags * table[i].flag != {})
  }

  /** What becomes of a word before any name is looked up: the whole mask prints as
      ALL, the empty word as NONE, and a word with a bit that no flag names not at all. */
  lemma KeywordForm(table: seq<Entry>, flags: Word)
    ensures flags == Mask(table) ==> Text(table, flags) == Some(['A', 'L', 'L'])
    ensures flags == {} != Mask(table) ==> Text(table, flags) == Some(['N', 'O', 'N', 'E'])
    ensures Text(table, flags).None? <==>
              exists bit :: bit in flags && forall i :: 0 <= i < |table| ==> bit !in table[i].flag
  {
    MaskIsUnion(table, |table|);
    if bit :| bit in flags - Mask(table) {
      assert bit in flags && forall i :: 0 <= i < |table| ==> bit !in table[i].flag;
    } else {
      assert forall bit :: bit in flags ==> bit in Mask(table) || bit in flags - Mask(table);
    }
  }

  /** Any other word prints as the names of exactly its flags, at rising positions,
      separated by " | ". */
  lemma PrintedForm(table: seq<Entry>, flags: Word) returns (entries: seq<nat>, names: seq<string>, at: seq<nat>)
    requires flags != Mask(table) && flags != {} && Text(table, flags).Some?
    ensures Selects(table, flags, entries, names)
    ensures Laid(names, at, Text(table, flags).value)
  {
    entries, names := Chosen(table, flags, |table|), Names(table, flags);
    ChosenNames(table, flags, |table|);
    ChosenExactly(table, flags, |table|);
    assert flags * Mask(table) == flags by {
      assert forall bit :: bit in flags && bit !in Mask(table) ==> bit in flags - Mask(table);
    }
    SomeName(table, flags, |table|);
    at := Layout(names);
  }

  lemma {:induction false} MaskIsUnion(table: seq<Entry>, n: nat)
    requires n <= |table|
    ensures forall bit :: bit in MaskTo(table, n) <==> exists i :: 0 <= i < n && bit in table[i].flag
    decreases n
  {
    if n > 0 {
      MaskIsUnion(table, n - 1);
    }
  }

  function Chosen(table: seq<Entry>, flags: Word, n: nat): seq<nat>
    requires n <= |table|
  {
    if n == 0 then []
    else if Has(flags, table[n - 1]) then Chosen(table, flags, n - 1) + [n - 1]
    else Chosen(table, flags, n - 1)
  }

  lemma {:induction false} ChosenNames(table: seq<Entry>, flags: Word, n: nat)
    requires n <= |table|
    ensures var c, names := Chosen(table, flags, n), NamesTo(table, flags, n);
            && |c| == |names|
            && (forall k :: 0 <= k < |c| ==> c[k] < n && names[k] == table[c[k]].name)
            && forall j, k :: 0 <= j < k < |c| ==> c[j] < c[k]
    decreases n
  {
    if n > 0 {
      ChosenNames(table, flags, n - 1);
    }
  }

  lemma {:induction false} ChosenExactly(table: seq<Entry>, flags: Word, n: nat)
    requires n <= |table|
    ensures forall i :: 0 <= i < |table| ==> (i in Chosen(table, flags, n) <==> i < n && flags * table[i].flag != {})
    decreases n
  {
    if n > 0 {
      ChosenExactly(table, flags, n - 1);
    }
  }

  lemma Longer(name: string, at: nat, text: string, more: string)
    requires NameAt(name, at, text)
    ensures NameAt(name, at, text + more)
  {
    assert (text + more)[at..at + |name|] == text[at..at + |name|];
  }

  lemma {:induction false} Layout(names: seq<string>) returns (at: seq<nat>)
    requires |names| > 0
    ensures Laid(names, at, Join(names))
    decreases names
  {
    if |names| == 1 {
      at := [0];
    } else {
      var init, last := names[..|names| - 1], names[|names| - 1];
      var before := Layout(init);
      at := before + [|Join(init)| + 3];
      LaidSnoc(init, before, Join(init), last);
      assert init + [last] == names;
    }
  }

  lemma LaidSnoc(names: seq<string>, at: seq<nat>, text: string, last: string)
    requires Laid(names, at, text)
    ensures Laid(names + [last], at + [|text| + 3], text + SEP + last)
  {
    var longer := text + SEP + last;
    assert longer == text + (SEP + last);
    forall k | 0 <= k < |at|
      ensures NameAt(names[k], at[k], longer)
    {
      Longer(names[k], at[k], text, SEP + last);
    }
    assert longer[|text| + 3..] == last;
    assert NameAt(last, |text| + 3, longer);
    forall k | 0 <= k < |at| - 1
      ensures Neighbours(at[k] + |names[k]|, at[k + 1], longer)
    {
      assert Neighbours(at[k] + |names[k]|, at[k + 1], text);
    }
    assert Neighbours(|text|, |text| + 3, longer);
  }

  /** A single flag of the table, with bits of its own, prints as its name. */
  lemma SingleFlagForm(table: seq<Entry>, i: nat)
    requires i < |table| && table[i].flag != {} && table[i].flag != Mask(table)
    requires forall j :: 0 <= j < |table| && j != i ==> table[i].flag * table[j].flag == {}
    ensures Text(table, table[i].flag) == Some(table[i].name)
  {
    var flags := table[i].flag;
    MaskIsUnion(table, |table|);
    assert forall bit :: bit in flags ==> bit in Mask(table);
    OneName(table, i, |table|);
  }

  lemma {:induction false} OneName(table: seq<Entry>, i: nat, n: nat)
    requires i < |table| && table[i].flag != {} && n <= |table|
    requires forall j :: 0 <= j < |table| && j != i ==> table[i].flag * table[j].flag == {}
    ensures NamesTo(table, table[i].flag, n) == if i < n then [table[i].name] else []
    decreases n
  {
    if n > 0 {
      OneName(table, i, n - 1);
      assert table[i].flag * table[i].flag == table[i].flag;
    }
  }

  /** The source's table, at the bits the header gives its flags. */
  lemma SourceForms()
    ensures Text(FLAG_TABLE, {0, 2, 4, 9, 10, 11, 17}) == Some("ALL")
    ensures Text(FLAG_TABLE, {}) == Some("NONE")
    ensures Text(FLAG_TABLE, {0}) == Some("P2SH")
    ensures Text(FLAG_TABLE, {2}) == Some("DERSIG")
    ensures Text(FLAG_TABLE, {4}) == Some("NULLDUMMY")
    ensures Text(FLAG_TABLE, {9}) == Some("CHECKLOCKTIMEVERIFY")
    ensures Text(FLAG_TABLE, {10}) == Some("CHECKSEQUENCEVERIFY")
    ensures Text(FLAG_TABLE, {11}) == Some("WITNESS")
    ensures Text(FLAG_TABLE, {17}) == Some("TAPROOT")
  {
    SourceMask();
    SourceDisjoint();
    assert 0 in Mask(FLAG_TABLE) && 2 in Mask(FLAG_TABLE);
    SingleFlagForm(FLAG_TABLE, 0);
    SingleFlagForm(FLAG_TABLE, 1);
    SingleFlagForm(FLAG_TABLE, 2);
    SingleFlagForm(FLAG_TABLE, 3);
    SingleFlagForm(FLAG_TABLE, 4);
    SingleFlagForm(FLAG_TABLE, 5);
    SingleFlagForm(FLAG_TABLE, 6);
  }

  lemma SourceDisjoint()
    ensures forall i, j :: 0 <= i < |FLAG_TABLE| && 0 <= j < |FLAG_TABLE| && i != j ==>
              FLAG_TABLE[i].flag * FLAG_TABLE[j].flag == {}
  {
    var bits: seq<Bit> := [0, 2, 4, 9, 10, 11, 17];
    assert forall i :: 0 <= i < |FLAG_TABLE| ==> FLAG_TABLE[i].flag == {bits[i]};
    assert forall i, j :: 0 <= i < 7 && 0 <= j < 7 && i != j ==> bits[i] != bits[j];
  }

  /** A pair of the source's flags, and a word with a bit that has no name. */
  lemma SourcePairForm()
    ensures Text(FLAG_TABLE, {11, 17}) == Some("WITNESS | TAPROOT")
    ensures Text(FLAG_TABLE, {1}) == None
  {
    SourceMask();
    var flags: Word := {11, 17};
    assert 0 in Mask(FLAG_TABLE) && 0 !in flags && flags - Mask(FLAG_TABLE) == {};
    assert 1 in {1} - Mask(FLAG_TABLE);
    SourcePairNames();
    assert Text(FLAG_TABLE, flags) == Some(Join(["WITNESS"] + ["TAPROOT"]));
    JoinSnoc(["WITNESS"], "TAPROOT");
    assert "WITNESS" + SEP + "TAPROOT" == "WITNESS | TAPROOT";
  }

  lemma SourcePairNames()
    ensures Names(FLAG_TABLE, {11, 17}) == ["WITNESS"] + ["TAPROOT"]
  {
    var flags: Word := {11, 17};
    NoNameBefore(flags, 5);
    assert 11 in flags * FLAG_TABLE[5].flag && 17 in flags * FLAG_TABLE[6].flag;
    assert NamesTo(FLAG_TABLE, flags, 6) == [] + ["WITNESS"] == ["WITNESS"];
  }

  lemma {:induction false} NoNameBefore(flags: Word, n: nat)
    requires n <= 5 && flags == {11, 17}
    ensures NamesTo(FLAG_TABLE, flags, n) == []
    decreases n
  {
    if n > 0 {
      NoNameBefore(flags, n - 1);
    }
  }
}
