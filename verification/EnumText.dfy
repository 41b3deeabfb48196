/** EnumToStr and StrToEnum (TpmHelpers.cpp): the text of enumeration values and of combinations of
    single-bit values. A 32-bit value is the set of the positions of its bits. */
module EnumText {
  import opened Wrappers
  import opened Sequences

  type Word = s: set<nat> | forall i | i in s :: i < 32

  /** The value 1 << i; it is zero when the bit is shifted out. */
  function Bit(i: nat): Word {
    if i < 32 then {i} else {}
  }

  type NameTable = map<Word, string>
  type ValueTable = map<string, Word>

  predicate NameOk(s: string) {
    s != "" && ' ' !in s && '|' !in s
  }

  /** Names are not empty and free of blanks and bars, and the tables are inverse to each other. */
  predicate TablesOk(toStr: NameTable, toEnum: ValueTable) {
    && (forall v | v in toStr :: NameOk(toStr[v]) && toStr[v] in toEnum && toEnum[toStr[v]] == v)
    && (forall s | s in toEnum :: NameOk(s) && toEnum[s] in toStr && toStr[toEnum[s]] == s)
  }

  predicate BitsNamed(toStr: NameTable, v: Word) {
    forall i | i in v :: Bit(i) in toStr
  }

  /** What indexing the table with a single bit gives: an absent entry reads as the empty string. */
  function BitName(toStr: NameTable, i: nat): string {
    if Bit(i) in toStr then toStr[Bit(i)] else ""
  }

  /** The names of the set bits from bit `i` on. */
  function BitNames(toStr: NameTable, v: Word, i: nat): seq<string>
    requires i <= 32
    decreases 32 - i
  {
    if i == 32 then [] else (if i in v then [BitName(toStr, i)] else []) + BitNames(toStr, v, i + 1)
  }

  /** Names with bars between them, added one at a time. */
  function Join(parts: seq<string>): string {
    if parts == [] then "" else
      var front := Join(parts[..|parts| - 1]);
      front + (if front == "" then "" else " | ") + parts[|parts| - 1]
  }

  /** What EnumToStr prints. */
  function Text(toStr: NameTable, v: Word): string {
    if v in toStr then toStr[v] else Join(BitNames(toStr, v, 0))
  }

  /** The names that EnumToStr leaves in its table: an empty one is added for every set bit of an
      unnamed value that has none. */
  function Touched(toStr: NameTable, v: Word): NameTable {
    if v in toStr then toStr
    else map w | w in toStr.Keys + set i | i in v :: Bit(i) :: if w in toStr then toStr[w] else ""
  }

  function SkipBlanks(s: string, p: nat): (q: nat)
    requires p <= |s|
    ensures p <= q <= |s| && (q < |s| ==> s[q] != ' ') && forall i | p <= i < q :: s[i] == ' '
    decreases |s| - p
  {
    if p < |s| && s[p] == ' ' then SkipBlanks(s, p + 1) else p
  }

  /** The next bar, or the end. */
  function FindBar(s: string, p: nat): (q: nat)
    requires p <= |s|
    ensures p <= q <= |s| && (q < |s| ==> s[q] == '|') && forall i | p <= i < q :: s[i] != '|'
    decreases |s| - p
  {
    if p < |s| && s[p] != '|' then FindBar(s, p + 1) else p
  }

  /** Back over the blanks before `end`. */
  function TrimBlanks(s: string, end: nat): (q: nat)
    requires end <= |s|
    ensures q <= end && (q > 0 ==> s[q - 1] != ' ') && forall i | q <= i < end :: s[i] == ' '
  {
    if end > 0 && s[end - 1] == ' ' then TrimBlanks(s, end - 1) else end
  }

  /** substr(beg, end - beg) on unsigned numbers: a negative length takes the rest of the text. */
  function Substr(s: string, beg: nat, end: nat): string
    requires beg <= |s| && end <= |s|
  {
    if beg <= end then s[beg..end] else s[beg..]
  }

  datatype EnumError = InvalidComponent(component: string)

  /** The component that starts at `beg`, when the next bar is at `bar`. */
  function Component(s: string, beg: nat, bar: nat): string
    requires beg <= bar <= |s|
  {
    if bar == |s| then s[beg..] else Substr(s, beg, TrimBlanks(s, bar))
  }

  /** The components from position `p` on. */
  function Components(toEnum: ValueTable, s: string, p: nat, val: Word): Result<Word, EnumError>
    requires p <= |s|
    decreases |s| - p
  {
    var beg := SkipBlanks(s, p);
    var bar := FindBar(s, beg);
    var frag := Component(s, beg, bar);
    if frag !in toEnum then Failure(InvalidComponent(frag))
    else if bar == |s| then Success(val + toEnum[frag])
    else Components(toEnum, s, bar + 1, val + toEnum[frag])
  }

  /** What StrToEnum gives. */
  function Parsed(toEnum: ValueTable, s: string): Result<Word, EnumError> {
    if s in toEnum then Success(toEnum[s]) else Components(toEnum, s, 0, {})
  }

  // ---------- the code ----------

  /** The tables of one enumeration. */
  class EnumMaps {
    var toStr: NameTable
    var toEnum: ValueTable

    /** EnumToStr. The loop ends within 32 steps; indexing the table leaves an empty name behind for
        every set bit that has none. */
    method EnumToStr(v: Word) returns (res: string)
      modifies this`toStr
      ensures res == Text(old(toStr), v)
      ensures toStr == Touched(old(toStr), v)
    {
      hide Join, BitNames;
      if v in toStr {
        return toStr[v];
      }
      var shift: nat := 0;
      var foundBits: Word := {};
      res := "";
      ghost var was, names: seq<string> := toStr, [];
      JoinNothing();
      while foundBits != v
        invariant shift <= 32 && forall j: nat :: j in foundBits <==> j in v && j < shift
        invariant names + BitNames(was, v, shift) == BitNames(was, v, 0) && res == Join(names)
        invariant toStr.Keys == was.Keys + set i | i in foundBits :: Bit(i)
        invariant forall w | w in toStr :: toStr[w] == if w in was then was[w] else ""
        decreases 32 - shift
      {
        assert shift < 32 by {
          assert shift == 32 ==> foundBits == v;
        }
        NextName(was, v, shift);
        if shift in v {
          assert Bit(shift) in toStr ==> Bit(shift) in was by {
            assert forall i: nat | i in foundBits :: Bit(i) != Bit(shift);
          }
          foundBits := foundBits + Bit(shift);
          if Bit(shift) !in toStr {
            toStr := toStr[Bit(shift) := ""];
          }
          var name := toStr[Bit(shift)];
          JoinNext(names, name);
          res := res + (if res == "" then "" else " | ") + name;
          assert names + ([name] + BitNames(was, v, shift + 1)) == names + [name] + BitNames(was, v, shift + 1);
          names := names + [name];
        }
        shift := shift + 1;
      }
      NoneAbove(was, v, shift);
      assert names + [] == names;
    }

    /** StrToEnum: the whole text is looked up first, then its components between bars. */
    method StrToEnum(enumName: string) returns (r: Result<Word, EnumError>)
      ensures r == Parsed(toEnum, enumName)
    {
      hide Components, SkipBlanks, FindBar, TrimBlanks;
      if enumName in toEnum {
        return Success(toEnum[enumName]);
      }
      var val: Word := {};
      var beg: nat := 0;
      var done := false;
      while !done
        invariant beg <= |enumName|
        invariant !done ==> Components(toEnum, enumName, 0, {}) == Components(toEnum, enumName, beg, val)
        invariant done ==> Components(toEnum, enumName, 0, {}) == Success(val)
        decreases !done, |enumName| - beg
      {
        ComponentStep(toEnum, enumName, beg, val);
        ghost var p := beg;
        while beg < |enumName| && enumName[beg] == ' '
          invariant p <= beg <= |enumName| && SkipBlanks(enumName, p) == SkipBlanks(enumName, beg)
        {
          SkipStep(enumName, beg);
          beg := beg + 1;
        }
        SkipStep(enumName, beg);
        var end: nat := FindBar(enumName, beg);
        var next := end + 1;
        ghost var bar := end;
        if end == |enumName| {
          done := true;
        } else {
          while end > 0 && enumName[end - 1] == ' '
            invariant end <= bar && TrimBlanks(enumName, bar) == TrimBlanks(enumName, end)
          {
            TrimStep(enumName, end);
            end := end - 1;
          }
          TrimStep(enumName, end);
        }
        var frag := Substr(enumName, beg, end);
        assert frag == Component(enumName, beg, bar) by {
          assert enumName[beg..|enumName|] == enumName[beg..];
        }
        if frag !in toEnum {
          return Failure(InvalidComponent(frag));
        }
        val := val + toEnum[frag];
        if !done {
          beg := next;
        }
      }
      r := Success(val);
    }
  }

  lemma SkipStep(s: string, p: nat)
    requires p <= |s|
    ensures SkipBlanks(s, p) == if p < |s| && s[p] == ' ' then SkipBlanks(s, p + 1) else p
  {}

  lemma TrimStep(s: string, end: nat)
    requires end <= |s|
    ensures TrimBlanks(s, end) == if end > 0 && s[end - 1] == ' ' then TrimBlanks(s, end - 1) else end
  {}

  lemma ComponentStep(toEnum: ValueTable, s: string, p: nat, val: Word)
    requires p <= |s|
    ensures
      var beg := SkipBlanks(s, p);
      var bar := FindBar(s, beg);
      var frag := Component(s, beg, bar);
      Components(toEnum, s, p, val) ==
      (if frag !in toEnum then Failure(InvalidComponent(frag))
       else if bar == |s| then Success(val + toEnum[frag])
       else Components(toEnum, s, bar + 1, val + toEnum[frag]))
  {
    hide SkipBlanks, FindBar, Component;
  }

  lemma JoinNothing()
    ensures Join([]) == ""
  {}

  lemma JoinNext(names: seq<string>, name: string)
    ensures Join(names + [name]) == Join(names) + (if Join(names) == "" then "" else " | ") + name
  {
    assert (names + [name])[..|names|] == names;
  }

  lemma NextName(toStr: NameTable, v: Word, i: nat)
    requires i < 32
    ensures BitNames(toStr, v, i) == (if i in v then [BitName(toStr, i)] else []) + BitNames(toStr, v, i + 1)
    ensures i !in v ==> BitNames(toStr, v, i) == BitNames(toStr, v, i + 1)
  {}

  lemma {:induction false} NoneAbove(toStr: NameTable, v: Word, i: nat)
    requires i <= 32 && forall j: nat :: j in v ==> j < i
    ensures BitNames(toStr, v, i) == []
    decreases 32 - i
  {
    if i < 32 {
      assert i !in v;
      NoneAbove(toStr, v, i + 1);
    }
  }
}
