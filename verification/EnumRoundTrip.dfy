/** StrToEnum undoes EnumToStr exactly on the values that are named, or non-zero with all set bits
    named. */
module EnumRoundTrip {
  import opened Wrappers
  import opened Sequences
  import opened EnumText

  // ---------- what is printed ----------

  /** The parts that remain when the leading empty ones are dropped: the first of them sets the bar
      rule going. */
  function Kept(parts: seq<string>): (r: seq<string>)
    ensures r != [] ==> r[0] != ""
    ensures forall p | p in r :: p in parts
  {
    if parts == [] then [] else if parts[0] == "" then Kept(parts[1..]) else parts
  }

  /** The text of a list of names, from the first on. */
  function Listed(names: seq<string>): string
    requires names != []
  {
    if |names| == 1 then names[0] else names[0] + (" |" + (" " + Listed(names[1..])))
  }

  lemma {:induction false} KeptSnoc(front: seq<string>, last: string)
    ensures Kept(front + [last]) ==
            (if Kept(front) != [] then Kept(front) + [last] else if last == "" then [] else [last])
  {
    if front == [] {
      assert front + [last] == [last];
    } else {
      assert (front + [last])[1..] == front[1..] + [last];
      KeptSnoc(front[1..], last);
    }
  }

  lemma {:induction false} ListedSnoc(names: seq<string>, name: string)
    requires names != []
    ensures Listed(names + [name]) == Listed(names) + " | " + name
  {
    if |names| == 1 {
      assert (names + [name])[1..] == [name];
      assert names[0] + (" |" + (" " + name)) == names[0] + " | " + name;
    } else {
      assert (names + [name])[1..] == names[1..] + [name];
      ListedSnoc(names[1..], name);
      var rest := Listed(names[1..]);
      assert names[0] + (" |" + (" " + (rest + " | " + name))) == names[0] + (" |" + (" " + rest)) + " | " + name;
    }
  }

  /** The accumulating loop prints the list of the kept names. */
  lemma {:induction false} JoinIsListed(parts: seq<string>)
    ensures Join(parts) == (if Kept(parts) == [] then "" else Listed(Kept(parts)))
    ensures Kept(parts) != [] ==> Join(parts) != ""
    decreases |parts|
  {
    hide Listed;
    if parts != [] {
      var front, last := parts[..|parts| - 1], parts[|parts| - 1];
      assert parts == front + [last];
      JoinNext(front, last);
      JoinIsListed(front);
      KeptSnoc(front, last);
      if Kept(front) != [] {
        ListedSnoc(Kept(front), last);
      } else {
        OneListed(last);
        assert "" + "" + last == last;
      }
    }
  }

  lemma OneListed(name: string)
    ensures Listed([name]) == name
  {}

  // ---------- what is read ----------

  predicate NamesOk(toEnum: ValueTable, names: seq<string>) {
    && "" !in toEnum
    && (forall s | s in toEnum :: NameOk(s))
    && (forall i | 0 <= i < |names| :: names[i] == "" || (NameOk(names[i]) && names[i] in toEnum))
  }

  /** What a list of names stands for; the empty name stands for nothing. */
  function Union(toEnum: ValueTable, names: seq<string>): Word {
    if names == [] then {}
    else (if names[0] in toEnum then toEnum[names[0]] else {}) + Union(toEnum, names[1..])
  }

  lemma SkipTo(s: string, p: nat, q: nat)
    requires p <= q <= |s| && (forall i | p <= i < q :: s[i] == ' ') && (q < |s| ==> s[q] != ' ')
    ensures SkipBlanks(s, p) == q
  {}

  lemma FindTo(s: string, p: nat, q: nat)
    requires p <= q <= |s| && (forall i | p <= i < q :: s[i] != '|') && (q < |s| ==> s[q] == '|')
    ensures FindBar(s, p) == q
  {}

  lemma TrimTo(s: string, q: nat, end: nat)
    requires q <= end <= |s| && (forall i | q <= i < end :: s[i] == ' ') && (q > 0 ==> s[q - 1] != ' ')
    ensures TrimBlanks(s, end) == q
  {}

  /** The last component. */
  lemma LastComponent(toEnum: ValueTable, s: string, p: nat, beg: nat, name: string, val: Word)
    requires p <= beg <= |s| && (forall i | p <= i < beg :: s[i] == ' ') && s[beg..] == name
    requires name == "" || NameOk(name)
    ensures Components(toEnum, s, p, val) ==
            if name in toEnum then Success(val + toEnum[name]) else Failure(InvalidComponent(name))
  {
    hide Components, SkipBlanks, FindBar, TrimBlanks;
    assert forall i | beg <= i < |s| :: s[i] == name[i - beg];
    SkipTo(s, p, beg);
    FindTo(s, beg, |s|);
    ComponentStep(toEnum, s, p, val);
  }

  /** A component with a blank and a bar behind it. */
  lemma BarredComponent(toEnum: ValueTable, s: string, p: nat, beg: nat, name: string, val: Word)
    requires p <= beg && beg + |name| + 2 <= |s| && (forall i | p <= i < beg :: s[i] == ' ')
    requires s[beg..beg + |name|] == name && s[beg + |name|] == ' ' && s[beg + |name| + 1] == '|'
    requires NameOk(name) && name in toEnum
    ensures Components(toEnum, s, p, val) == Components(toEnum, s, beg + |name| + 2, val + toEnum[name])
  {
    hide Components, SkipBlanks, FindBar, TrimBlanks;
    var end := beg + |name|;
    assert forall i | beg <= i < end :: s[i] == name[i - beg];
    SkipTo(s, p, beg);
    FindTo(s, beg, end + 1);
    TrimTo(s, end, end + 1);
    ComponentStep(toEnum, s, p, val);
  }

  /** An empty component between two bars: the backward scan passes its start, and the unsigned length
      takes everything up to the end of the text, which is no name. */
  lemma EmptyComponent(toEnum: ValueTable, s: string, p: nat, val: Word)
    requires 0 < p && p + 2 < |s| && s[p - 1] == '|' && s[p] == s[p + 1] == ' ' && s[p + 2] == '|'
    requires forall n | n in toEnum :: NameOk(n)
    ensures Components(toEnum, s, p, val).Failure?
  {
    hide Components, SkipBlanks, FindBar, TrimBlanks;
    SkipTo(s, p, p + 2);
    FindTo(s, p + 2, p + 2);
    TrimTo(s, p, p + 2);
    ComponentStep(toEnum, s, p, val);
    assert s[p + 2..][0] == '|';
  }

  /** Nothing at all between two bars is an empty component. */
  lemma NothingBetweenBars(toEnum: ValueTable, s: string, p: nat, val: Word)
    requires p < |s| && s[p] == '|' && (p > 0 ==> s[p - 1] == '|') && "" !in toEnum
    ensures Components(toEnum, s, p, val) == Failure(InvalidComponent(""))
  {
    hide Components, SkipBlanks, FindBar, TrimBlanks;
    SkipTo(s, p, p);
    FindTo(s, p, p);
    TrimTo(s, p, p);
    assert s[p..p] == "";
    ComponentStep(toEnum, s, p, val);
  }

  /** The text of `names` starts at `p`: at the front of the text, or one blank behind a bar. */
  predicate ListedAt(s: string, p: nat, names: seq<string>)
    requires names != []
  {
    && p <= |s|
    && if p == 0 then names[0] != "" && s == Listed(names)
       else s[p - 1] == '|' && s[p..] == " " + Listed(names)
  }

  /** Where the first name stands, and what follows it. */
  lemma FirstName(s: string, p: nat, names: seq<string>) returns (beg: nat)
    requires names != [] && ListedAt(s, p, names)
    ensures beg == (if p == 0 then 0 else p + 1) && beg + |names[0]| <= |s|
    ensures p < beg ==> s[p] == ' '
    ensures s[beg..beg + |names[0]|] == names[0]
    ensures |names| == 1 ==> s[beg..] == names[0]
    ensures |names| > 1 ==> beg + |names[0]| + 2 < |s|
    ensures |names| > 1 ==> s[beg + |names[0]|] == ' ' && s[beg + |names[0]| + 1] == '|'
    ensures |names| > 1 ==> ListedAt(s, beg + |names[0]| + 2, names[1..])
  {
    hide Listed, At;
    beg := if p == 0 then 0 else p + 1;
    TextStands(s, p, beg, names);
    if |names| == 1 {
      OneListed(names[0]);
      assert names == [names[0]];
      assert s[beg..beg + |names[0]|] == s[beg..];
    } else {
      BarFollows(s, beg, names);
    }
  }

  lemma TextStands(s: string, p: nat, beg: nat, names: seq<string>)
    requires names != [] && ListedAt(s, p, names) && beg == if p == 0 then 0 else p + 1
    ensures beg <= |s| && s[beg..] == Listed(names) && (p < beg ==> s[p] == ' ')
  {
    hide Listed;
    if p > 0 {
      assert s[beg..] == s[p..][1..];
      assert s[p] == s[p..][0];
    }
  }

  lemma BarFollows(s: string, beg: nat, names: seq<string>)
    requires |names| > 1 && beg <= |s| && s[beg..] == Listed(names)
    ensures var k := beg + |names[0]|;
            k + 2 < |s| && s[beg..k] == names[0] && s[k] == ' ' && s[k + 1] == '|' && s[k + 2..] == " " + Listed(names[1..])
  {
    hide Listed;
    ListedStep(names);
    var k, rest := beg + |names[0]|, " " + Listed(names[1..]);
    assert At(s, beg, names[0] + (" |" + rest));
    AtSplit(s, beg, names[0], " |" + rest);
    AtSplit(s, k, " |", rest);
    assert s[k] == s[k..k + 2][0] && s[k + 1] == s[k..k + 2][1];
    assert s[k + 2..] == s[k + 2..k + 2 + |rest|];
  }

  lemma ListedStep(names: seq<string>)
    requires |names| > 1
    ensures Listed(names) == names[0] + (" |" + (" " + Listed(names[1..])))
  {}

  /** Reading listed names: an empty one fails, and otherwise their values are united. */
  lemma {:induction false} ComponentsOfListed(toEnum: ValueTable, names: seq<string>, s: string, p: nat, val: Word)
    requires names != [] && NamesOk(toEnum, names) && ListedAt(s, p, names)
    ensures "" in names ==> Components(toEnum, s, p, val).Failure?
    ensures "" !in names ==> Components(toEnum, s, p, val) == Success(val + Union(toEnum, names))
    decreases |names|
  {
    hide Components, Listed, Component;
    var name := names[0];
    var beg := FirstName(s, p, names);
    assert names == [name] + names[1..];
    if |names| == 1 {
      LastComponent(toEnum, s, p, beg, name, val);
      OneUnion(toEnum, names);
      assert name != "" ==> NameOk(names[0]) && name in toEnum;
    } else if name == "" {
      EmptyComponent(toEnum, s, p, val);
    } else {
      BarredComponent(toEnum, s, p, beg, name, val);
      ComponentsOfListed(toEnum, names[1..], s, beg + |name| + 2, val + toEnum[name]);
      assert val + toEnum[name] + Union(toEnum, names[1..]) == val + Union(toEnum, names);
    }
  }

  // ---------- the names of a value ----------

  lemma NamesUnite(toStr: NameTable, toEnum: ValueTable, v: Word, i: nat)
    requires TablesOk(toStr, toEnum) && i <= 32
    ensures NamesOk(toEnum, BitNames(toStr, v, i))
    ensures forall j: nat :: j in Union(toEnum, BitNames(toStr, v, i)) <==> j in v && i <= j && Bit(j) in toStr
    ensures "" in BitNames(toStr, v, i) <==> exists j | j in v :: i <= j && Bit(j) !in toStr
    ensures BitNames(toStr, v, i) == [] <==> forall j | j in v :: j < i
  {
    hide TablesOk, NamesOk, BitNames, Union;
    BitNamesOk(toStr, toEnum, v, i);
    BitsUnite(toStr, toEnum, v, i);
    UnnamedBits(toStr, toEnum, v, i);
  }

  lemma {:induction false} BitNamesOk(toStr: NameTable, toEnum: ValueTable, v: Word, i: nat)
    requires TablesOk(toStr, toEnum) && i <= 32
    ensures NamesOk(toEnum, BitNames(toStr, v, i))
    decreases 32 - i
  {
    if i < 32 {
      BitNamesOk(toStr, toEnum, v, i + 1);
    }
  }

  lemma {:induction false} BitsUnite(toStr: NameTable, toEnum: ValueTable, v: Word, i: nat)
    requires TablesOk(toStr, toEnum) && i <= 32
    ensures forall j: nat :: j in Union(toEnum, BitNames(toStr, v, i)) <==> j in v && i <= j && Bit(j) in toStr
    decreases 32 - i
  {
    if i < 32 {
      hide TablesOk;
      BitsUnite(toStr, toEnum, v, i + 1);
      BitNameStands(toStr, toEnum, i);
      var rest := BitNames(toStr, v, i + 1);
      if i in v {
        assert BitNames(toStr, v, i) == [BitName(toStr, i)] + rest;
        assert BitNames(toStr, v, i)[1..] == rest;
      } else {
        assert BitNames(toStr, v, i) == rest;
      }
    }
  }

  /** What the name of a single bit stands for. */
  lemma BitNameStands(toStr: NameTable, toEnum: ValueTable, i: nat)
    requires TablesOk(toStr, toEnum) && i < 32
    ensures var name := BitName(toStr, i);
            (if name in toEnum then toEnum[name] else {}) == if Bit(i) in toStr then {i} else {}
  {}

  lemma {:induction false} UnnamedBits(toStr: NameTable, toEnum: ValueTable, v: Word, i: nat)
    requires TablesOk(toStr, toEnum) && i <= 32
    ensures "" in BitNames(toStr, v, i) <==> exists j | j in v :: i <= j && Bit(j) !in toStr
    ensures BitNames(toStr, v, i) == [] <==> forall j | j in v :: j < i
    decreases 32 - i
  {
    if i < 32 {
      UnnamedBits(toStr, toEnum, v, i + 1);
    }
  }

  lemma {:induction false} KeptUnites(toEnum: ValueTable, parts: seq<string>)
    requires "" !in toEnum
    ensures Union(toEnum, Kept(parts)) == Union(toEnum, parts)
    ensures "" !in parts ==> Kept(parts) == parts
  {
    if parts != [] && parts[0] == "" {
      KeptUnites(toEnum, parts[1..]);
    }
  }

  /** A printed list that is itself a name is a list of one name. */
  lemma NameListsItself(toEnum: ValueTable, names: seq<string>)
    requires names != [] && NamesOk(toEnum, names) && Listed(names) in toEnum
    ensures |names| == 1 && Union(toEnum, names) == toEnum[Listed(names)]
  {
    if |names| == 1 {
      OneUnion(toEnum, names);
    } else {
      BarInList(names);
    }
  }

  lemma OneUnion(toEnum: ValueTable, names: seq<string>)
    requires |names| == 1
    ensures Union(toEnum, names) == if names[0] in toEnum then toEnum[names[0]] else {}
  {
    assert names[1..] == [];
  }

  lemma BarInList(names: seq<string>)
    requires |names| > 1
    ensures '|' in Listed(names)
  {
    ListedStep(names);
    assert Listed(names)[|names[0]| + 1] == '|';
  }

  /** What the text of an unnamed value reads back as: nothing when it has no set bit or when a set bit
      without a name follows one with a name, and otherwise the bits that have names. */
  lemma TextReadsBack(toStr: NameTable, toEnum: ValueTable, v: Word)
    requires TablesOk(toStr, toEnum) && v !in toStr
    ensures
      var kept, r := Kept(BitNames(toStr, v, 0)), Parsed(toEnum, Text(toStr, v));
      && (kept == [] || "" in kept ==> r.Failure?)
      && (kept != [] && "" !in kept ==> r.Success? && forall j: nat :: j in r.value <==> j in v && Bit(j) in toStr)
  {
    hide Components, Join, Listed, BitNames, Union, Kept;
    var parts, s := BitNames(toStr, v, 0), Text(toStr, v);
    var kept := Kept(parts);
    NamesUnite(toStr, toEnum, v, 0);
    KeptUnites(toEnum, parts);
    JoinIsListed(parts);
    if kept == [] {
      assert s[0..] == "";
      LastComponent(toEnum, s, 0, 0, "", {});
    } else {
      assert NamesOk(toEnum, kept) by {
        assert forall p | p in parts :: p == "" || (NameOk(p) && p in toEnum);
        assert forall i | 0 <= i < |kept| :: kept[i] in kept;
      }
      if s in toEnum {
        NameListsItself(toEnum, kept);
        assert kept == [kept[0]];
      } else {
        ComponentsOfListed(toEnum, kept, s, 0, {});
      }
    }
  }

  /** StrToEnum gives a value back exactly when it is named, or is non-zero with all set bits named. */
  lemma RoundTripIff(toStr: NameTable, toEnum: ValueTable, v: Word)
    requires TablesOk(toStr, toEnum)
    ensures Parsed(toEnum, Text(toStr, v)) == Success(v) <==> v in toStr || (v != {} && BitsNamed(toStr, v))
  {
    hide Components, Join, Listed, BitNames, Union, Kept, Text, Parsed;
    if v in toStr {
      NamedReadsBack(toStr, toEnum, v);
    } else {
      var parts := BitNames(toStr, v, 0);
      TextReadsBack(toStr, toEnum, v);
      NamesUnite(toStr, toEnum, v, 0);
      KeptUnites(toEnum, parts);
      var r := Parsed(toEnum, Text(toStr, v));
      if r.Success? && r.value == v && v == {} {
        KeptOfNothing();
      }
      assert BitsNamed(toStr, v) <==> "" !in parts;
      assert r.Success? && BitsNamed(toStr, v) ==> r.value == v;
    }
  }

  lemma NamedReadsBack(toStr: NameTable, toEnum: ValueTable, v: Word)
    requires TablesOk(toStr, toEnum) && v in toStr
    ensures Parsed(toEnum, Text(toStr, v)) == Success(v)
  {}

  lemma KeptOfNothing()
    ensures Kept([]) == []
  {}

  // ---------- after other calls ----------

  /** The table of names after EnumToStr was called for the given values, in order. */
  function TouchedAll(toStr: NameTable, vs: seq<Word>): NameTable
    decreases |vs|
  {
    if vs == [] then toStr else TouchedAll(Touched(toStr, vs[0]), vs[1..])
  }

  /** `now` is `toStr` with empty names for some single bits. */
  predicate Grown(toStr: NameTable, now: NameTable) {
    && (forall w | w in toStr :: w in now && now[w] == toStr[w])
    && (forall w | w in now && w !in toStr :: now[w] == "" && exists i | i in w :: w == Bit(i))
  }

  lemma {:induction false} TouchedGrows(toStr: NameTable, now: NameTable, vs: seq<Word>)
    requires Grown(toStr, now)
    ensures Grown(toStr, TouchedAll(now, vs))
    decreases |vs|
  {
    if vs != [] {
      var next := Touched(now, vs[0]);
      forall w | w in next && w !in now
        ensures next[w] == "" && exists i | i in w :: w == Bit(i)
      {
        var i :| i in vs[0] && w == Bit(i);
        assert i in w;
      }
      TouchedGrows(toStr, next, vs[1..]);
    }
  }

  lemma {:induction false} GrownBitNames(toStr: NameTable, now: NameTable, v: Word, i: nat)
    requires Grown(toStr, now) && i <= 32
    ensures BitNames(now, v, i) == BitNames(toStr, v, i)
    decreases 32 - i
  {
    if i < 32 {
      GrownBitNames(toStr, now, v, i + 1);
    }
  }

  /** Empty names change no text: a bit that got one printed as nothing before. */
  lemma GrownText(toStr: NameTable, now: NameTable, v: Word)
    requires Grown(toStr, now)
    ensures Text(now, v) == Text(toStr, v)
  {
    hide Join, BitNames;
    GrownBitNames(toStr, now, v, 0);
    if v in now && v !in toStr {
      var i :| i in v && v == Bit(i);
      OneBitName(toStr, v, i);
      JoinNothing();
      JoinNext([], "");
      assert [] + [""] == [""];
    }
  }

  lemma OneBitName(toStr: NameTable, v: Word, i: nat)
    requires i in v && v == Bit(i) && v !in toStr
    ensures BitNames(toStr, v, 0) == [""]
  {
    OneBitNameFrom(toStr, v, i, 0);
  }

  lemma {:induction false} OneBitNameFrom(toStr: NameTable, v: Word, i: nat, k: nat)
    requires k <= i < 32 && v == Bit(i) && v !in toStr
    ensures BitNames(toStr, v, k) == [""]
    decreases i - k
  {
    if k < i {
      OneBitNameFrom(toStr, v, i, k + 1);
    } else {
      NoneAbove(toStr, v, i + 1);
    }
  }

  /** The round trip after any history of calls: the empty names that EnumToStr leaves behind make no
      difference. */
  lemma RoundTripAfterCallsIff(toStr: NameTable, toEnum: ValueTable, vs: seq<Word>, v: Word)
    requires TablesOk(toStr, toEnum)
    ensures Parsed(toEnum, Text(TouchedAll(toStr, vs), v)) == Success(v) <==> v in toStr || (v != {} && BitsNamed(toStr, v))
  {
    hide Parsed, Text, TouchedAll, TablesOk;
    TouchedGrows(toStr, toStr, vs);
    GrownText(toStr, TouchedAll(toStr, vs), v);
    RoundTripIff(toStr, toEnum, v);
  }
}
