/** Reading back what JsonSerializer wrote. */
module JsonRoundTrip {
  import opened Bytes
  import opened Sequences
  import opened Wrappers
  import opened JsonText

  /** Nothing but white space from `p` up to `q`. */
  predicate Spaced(b: string, p: nat, q: nat) {
    p <= q <= |b| && forall i | p <= i < q :: IsSpace(b[i])
  }

  predicate AllSpace(ws: string) {
    forall i | 0 <= i < |ws| :: IsSpace(ws[i])
  }

  /** A number that ends at `p` is not continued. */
  predicate Stops(b: string, p: nat) {
    p >= |b| || !IsDNum(b[p])
  }

  // ---------- tokens ----------

  /** What stands at a position, character by character. */
  lemma CharAt(b: string, p: nat, s: string, i: nat)
    requires At(b, p, s) && i < |s|
    ensures p + i < |b| && b[p + i] == s[i]
  {
    assert b[p + i] == b[p..p + |s|][i];
  }

  lemma SpacedAt(b: string, p: nat, q: nat, ws: string)
    requires Spaced(b, p, q) && At(b, q, ws) && AllSpace(ws)
    ensures Spaced(b, p, q + |ws|)
  {
    forall i | q <= i < q + |ws|
      ensures IsSpace(b[i])
    {
      CharAt(b, q, ws, i - q);
    }
  }

  lemma {:induction false} SkipsSpace(b: string, p: nat, q: nat)
    requires Spaced(b, p, q) && q < |b| && !IsSpace(b[q])
    ensures SkipSpace(b, p) == Success(q)
    decreases q - p
  {
    if p < q {
      SkipsSpace(b, p + 1, q);
    }
  }

  lemma NextAt(b: string, p: nat, q: nat, c: char)
    requires Spaced(b, p, q) && q < |b| && b[q] == c && !IsSpace(c)
    ensures Next(b, p, c) == Success(q + 1)
  {
    hide SkipSpace;
    SkipsSpace(b, p, q);
  }

  lemma {:induction false} FindAt(b: string, p: nat, q: nat, c: char)
    requires p <= q < |b| && b[q] == c && forall i | p <= i < q :: b[i] != c
    ensures Find(b, p, c) == Success(q)
    decreases q - p
  {
    if p < q {
      FindAt(b, p + 1, q, c);
    }
  }

  // ---------- numbers ----------

  predicate AllDigits(s: string) {
    forall i | 0 <= i < |s| :: IsDigit(s[i])
  }

  lemma DigitIs(d: nat)
    requires d < 10
    ensures IsDigit(Digit(d)) && Digit(d) as nat - '0' as nat == d
  {}

  lemma {:induction false} DecimalDigits(n: nat)
    ensures AllDigits(Decimal(n))
  {
    hide Digit;
    DigitIs(n % 10);
    if n >= 10 {
      DecimalDigits(n / 10);
    }
  }

  lemma {:induction false} DigitsValueSnoc(s: string, d: nat, acc: nat)
    requires AllDigits(s) && d < 10
    ensures DigitsValue(s + [Digit(d)], acc) == DigitsValue(s, acc) * 10 + d
    decreases |s|
  {
    hide Digit;
    DigitIs(d);
    var t := s + [Digit(d)];
    if s == "" {
      assert t[1..] == "";
    } else {
      assert t[1..] == s[1..] + [Digit(d)];
      DigitsValueSnoc(s[1..], d, acc * 10 + (s[0] as nat - '0' as nat));
    }
  }

  lemma {:induction false} DecimalValue(n: nat)
    ensures DigitsValue(Decimal(n), 0) == n
  {
    hide Digit;
    DigitIs(n % 10);
    if n < 10 {
      assert [Digit(n)][1..] == "";
    } else {
      DecimalValue(n / 10);
      DecimalDigits(n / 10);
      DigitsValueSnoc(Decimal(n / 10), n % 10, 0);
    }
  }

  lemma StoullOfDecimal(n: nat)
    requires n < 0x1_0000_0000_0000_0000
    ensures Stoull(Decimal(n)) == Success(n)
  {
    hide Decimal, DigitsValue;
    DecimalDigits(n);
    DecimalValue(n);
  }

  lemma {:induction false} DNumEndAt(b: string, p: nat, q: nat)
    requires p <= q <= |b| && Stops(b, q) && forall i | p <= i < q :: IsDigit(b[i])
    ensures DNumEnd(b, p) == q
    decreases q - p
  {
    if p < q {
      DNumEndAt(b, p + 1, q);
    }
  }

  lemma NotEol(s: string)
    requires s != "" && AllDigits(s)
    ensures s != "\n" && s[|s| - 1] != '\n' && !IsSpace(s[0])
  {
    assert IsDigit(s[0]) && IsDigit(s[|s| - 1]);
  }

  // ---------- what is appended ----------

  /** The optional comma before an entry. */
  lemma CommaShape(l: Layout, newLine: bool) returns (ws: string)
    ensures AllSpace(ws)
    ensures var c := Comma(l, newLine);
            && c.text == (if l.comma then ws + ([','] + [if newLine then '\n' else ' ']) else "")
            && c.lay == (if l.comma then l.(newLine := newLine) else l)
            && (!l.newLine ==> ws == "")
  {
    ws := if l.newLine then Spaces(l.indent) else "";
    var token := if newLine then ",\n" else ", ";
    assert token == [','] + [if newLine then '\n' else ' '];
  }

  /** A token that starts with a visible character. */
  lemma PutShape(l: Layout, s: string) returns (ws: string)
    requires s != "" && s != "\n"
    ensures AllSpace(ws) && Put(l, s) == Out(ws + s, l.(newLine := s[|s| - 1] == '\n')) && (!l.newLine ==> ws == "")
  {
    ws := if l.newLine then Spaces(l.indent) else "";
  }

  lemma EolIsSpace(eol: string)
    requires eol == "\n" || eol == " "
    ensures AllSpace(eol)
  {}

  lemma AtWithin(b: string, p: nat, s: string)
    requires At(b, p, s)
    ensures p + |s| <= |b|
  {}

  lemma NoSpaces(b: string, p: nat)
    requires p <= |b|
    ensures Spaced(b, p, p)
  {}

  /** Where a token stands after the optional comma. */
  lemma CommaThenToken(b: string, q: nat, l: Layout, newLine: bool, token: string) returns (k: nat, t: nat)
    requires token != "" && token != "\n" && !IsSpace(token[0])
    requires var c := Comma(l, newLine); At(b, q, c.text + Put(c.lay, token).text)
    ensures var c := Comma(l, newLine);
            t + |token| == q + |c.text| + |Put(c.lay, token).text| && At(b, t, token)
    ensures if l.comma then Spaced(b, q, k) && k < |b| && b[k] == ',' && Spaced(b, k + 1, t) && (!l.newLine ==> k == q)
            else k == t && Spaced(b, q, t) && (!l.newLine ==> t == q)
  {
    hide Comma, Put, At, IsSpace, AllSpace, Spaced;
    var c := Comma(l, newLine);
    var ws0 := CommaShape(l, newLine);
    var ws1 := PutShape(c.lay, token);
    AtSplit(b, q, c.text, ws1 + token);
    AtSplit(b, q + |c.text|, ws1, token);
    t := q + |c.text| + |ws1|;
    AtWithin(b, t, token);
    NoSpaces(b, q);
    if l.comma {
      var eol := [if newLine then '\n' else ' '];
      k := q + |ws0|;
      AtSplit(b, q, ws0, [','] + eol);
      AtSplit(b, k, [','], eol);
      CharAt(b, k, [','], 0);
      SpacedAt(b, q, q, ws0);
      EolIsSpace(eol);
      NoSpaces(b, k + 1);
      SpacedAt(b, k + 1, k + 1, eol);
      SpacedAt(b, k + 1, k + 2, ws1);
    } else {
      k := t;
      SpacedAt(b, q, q, ws1);
    }
  }

  // ---------- entries ----------

  /** Blank, colon, blank, up to the next visible character. */
  lemma ColonAt(b: string, p: nat)
    requires At(b, p, " : ") && p + 3 < |b| && !IsSpace(b[p + 3])
    ensures Next(b, p, ':') == Success(p + 2) && SkipSpace(b, p + 2) == Success(p + 3)
  {
    hide SkipSpace;
    CharAt(b, p, " : ", 0);
    CharAt(b, p, " : ", 1);
    CharAt(b, p, " : ", 2);
    NextAt(b, p, p + 1, ':');
    SkipsSpace(b, p + 2, p + 3);
  }

  function NameToken(name: string): string {
    [QUOTE] + name + [QUOTE] + " : "
  }

  /** Reading a name token that starts at `t`. */
  lemma NameTokenAt(b: string, t: nat, name: string)
    requires NameOk(name) && At(b, t, NameToken(name))
    requires var end := t + |name| + 5; end < |b| && !IsSpace(b[end])
    ensures var q := t + 1 + |name|;
            && b[t] == QUOTE && Find(b, t + 1, QUOTE) == Success(q) && b[t + 1..q] == name
            && Next(b, q + 1, ':') == Success(q + 3) && SkipSpace(b, q + 3) == Success(q + 4)
  {
    hide Next, SkipSpace, Find;
    var q := t + 1 + |name|;
    AtSplit(b, t, [QUOTE] + name + [QUOTE], " : ");
    AtSplit(b, t, [QUOTE] + name, [QUOTE]);
    AtSplit(b, t, [QUOTE], name);
    CharAt(b, t, [QUOTE], 0);
    CharAt(b, q, [QUOTE], 0);
    forall i | t + 1 <= i < q
      ensures b[i] != QUOTE
    {
      CharAt(b, t + 1, name, i - t - 1);
    }
    FindAt(b, t + 1, q, QUOTE);
    ColonAt(b, q + 1);
  }

  /** Reading back a name entry. */
  lemma NameAt(b: string, p: nat, q: nat, l: Layout, name: string)
    requires NameOk(name) && Spaced(b, p, q) && At(b, q, NameEntry(l, name).text)
    requires var end := q + |NameEntry(l, name).text|; end < |b| && !IsSpace(b[end])
    ensures ReadName(b, Cursor(p, l.comma), name) == Success(Cursor(q + |NameEntry(l, name).text|, false))
    ensures NameEntry(l, name).lay == Layout(l.indent, false, false)
  {
    hide Comma, Put, At, Spaced, ReadName;
    var token := NameToken(name);
    TokenEnds(name);
    var ws0 := CommaShape(l, true);
    var ws1 := PutShape(Comma(l, true).lay, token);
    var k, t := CommaThenToken(b, q, l, true, token);
    AtWithin(b, t, token);
    JoinSpaces(b, p, q, if l.comma then k else t);
    ReadNameAt(b, p, k, t, l.comma, name);
  }

  /** A name token at `t`, and before it, if it has to be, a comma at `k`. */
  lemma ReadNameAt(b: string, p: nat, k: nat, t: nat, comma: bool, name: string)
    requires NameOk(name) && At(b, t, NameToken(name))
    requires var end := t + |name| + 5; end < |b| && !IsSpace(b[end])
    requires if comma then Spaced(b, p, k) && k < |b| && b[k] == ',' && Spaced(b, k + 1, t) else k == t && Spaced(b, p, t)
    ensures p <= |b| && ReadName(b, Cursor(p, comma), name) == Success(Cursor(t + |name| + 5, false))
  {
    hide Next, Find, SkipSpace, ReadComma, Spaced, At;
    NameTokenAt(b, t, name);
    SkipsSpace(b, p, k);
    NoSpaces(b, k);
    var p1 := CommaPassed(b, k, k, t, comma);
    NextAt(b, p1, t, QUOTE);
  }

  lemma JoinSpaces(b: string, p: nat, q: nat, r: nat)
    requires Spaced(b, p, q) && Spaced(b, q, r)
    ensures Spaced(b, p, r)
  {}

  /** Past the comma, if there is one. */
  lemma CommaPassed(b: string, p: nat, k: nat, t: nat, comma: bool) returns (p1: nat)
    requires if comma then Spaced(b, p, k) && k < |b| && b[k] == ',' && Spaced(b, k + 1, t) else Spaced(b, p, t)
    ensures p <= |b| && ReadComma(b, p, comma) == Success(p1) && Spaced(b, p1, t)
  {
    hide Next;
    p1 := if comma then k + 1 else p;
    if comma {
      NextAt(b, p, k, ',');
    }
  }

  lemma TokenEnds(name: string)
    ensures var t := NameToken(name); |t| == |name| + 5 && t[0] == QUOTE && t != "\n" && t[|t| - 1] == ' '
  {}

  /** Reading back a number. */
  lemma NumAt(b: string, p: nat, q: nat, l: Layout, n: nat)
    requires n < 0x1_0000_0000_0000_0000 && Spaced(b, p, q) && At(b, q, Num(l, n).text) && Stops(b, q + |Num(l, n).text|)
    ensures ReadNum(b, Cursor(p, l.comma)) == Success((n, Cursor(q + |Num(l, n).text|, true)))
    ensures Num(l, n).lay == Layout(l.indent, true, false) && Num(l, n).text != ""
    ensures !l.comma && !l.newLine ==> !IsSpace(Num(l, n).text[0])
  {
    hide Comma, Put, Next, SkipSpace, Decimal, Stoull, DNumEnd, ReadComma, Spaced;
    var s := Decimal(n);
    DecimalDigits(n);
    StoullOfDecimal(n);
    NotEol(s);
    var ws0 := CommaShape(l, false);
    var ws1 := PutShape(Comma(l, false).lay, s);
    var k, t := CommaThenToken(b, q, l, false, s);
    DigitsAt(b, t, s);
    JoinSpaces(b, p, q, if l.comma then k else t);
    var p1 := CommaPassed(b, p, k, t, l.comma);
    SkipsSpace(b, p1, t);
    if !l.comma {
      assert Num(l, n).text == ws1 + s;
    }
  }

  lemma DigitsAt(b: string, t: nat, s: string)
    requires At(b, t, s) && s != "" && AllDigits(s) && Stops(b, t + |s|)
    ensures DNumEnd(b, t) == t + |s| && b[t..t + |s|] == s && !IsSpace(b[t])
  {
    hide DNumEnd;
    forall i | t <= i < t + |s|
      ensures IsDigit(b[i])
    {
      CharAt(b, t, s, i - t);
    }
    DNumEndAt(b, t, t + |s|);
    assert IsDigit(b[t]);
  }

  lemma NumStarts(l: Layout, n: nat)
    requires !l.comma && !l.newLine
    ensures var t := Num(l, n).text; t != "" && !IsSpace(t[0])
  {
    hide Decimal;
    DecimalDigits(n);
    NotEol(Decimal(n));
  }

  lemma NameLay(l: Layout, name: string)
    requires name != ""
    ensures NameEntry(l, name).lay == Layout(l.indent, false, false)
  {}

  /** Reading back a named number. */
  lemma NumEntryAt(b: string, p: nat, q: nat, l: Layout, name: string, n: nat)
    requires NameOk(name) && n < 0x1_0000_0000_0000_0000 && Spaced(b, p, q) && At(b, q, NumEntry(l, name, n).text)
    requires Stops(b, q + |NumEntry(l, name, n).text|)
    ensures ReadNumEntry(b, Cursor(p, l.comma), name) == Success((n, Cursor(q + |NumEntry(l, name, n).text|, true)))
    ensures NumEntry(l, name, n).lay == Layout(l.indent, true, false)
  {
    hide NameEntry, Num, ReadName, ReadNum, At, Stops, IsSpace;
    var e := NameEntry(l, name);
    NameLay(l, name);
    NumStarts(e.lay, n);
    var d := Num(e.lay, n);
    AtSplit(b, q, e.text, d.text);
    var m := q + |e.text|;
    CharAt(b, m, d.text, 0);
    NameAt(b, p, q, l, name);
    NumAt(b, m, m, e.lay, n);
  }

  // ---------- brackets ----------

  /** Reading an opening bracket; a line break written after it is white space for what follows. */
  lemma OpenAt(b: string, p: nat, q: nat, l: Layout, token: string)
    requires token == "{\n" || token == "[\n" || token == "["
    requires Spaced(b, p, q) && var c := Comma(l, true); At(b, q, c.text + Put(c.lay, token).text)
    ensures var c := Comma(l, true);
            var r := Open(b, Cursor(p, l.comma), token[0]);
            && r.Success? && !r.value.comma && Spaced(b, r.value.pos, q + |c.text| + |Put(c.lay, token).text|)
            && Put(c.lay, token).lay == Layout(l.indent, if l.comma then false else l.comma, |token| == 2).(comma := c.lay.comma)
  {
    hide Comma, Put, Next, SkipSpace, At;
    var ws0 := CommaShape(l, true);
    var ws1 := PutShape(Comma(l, true).lay, token);
    var k, t := CommaThenToken(b, q, l, true, token);
    CharAt(b, t, token, 0);
    AtWithin(b, t, token);
    if l.comma {
      NextAt(b, p, k, ',');
      NextAt(b, k + 1, t, token[0]);
    } else {
      NextAt(b, p, t, token[0]);
    }
    if |token| == 2 {
      CharAt(b, t, token, 1);
    }
  }

  lemma ObjOpenAt(b: string, p: nat, q: nat, l: Layout)
    requires Spaced(b, p, q) && At(b, q, BeginObj(l).text)
    ensures var r := Open(b, Cursor(p, l.comma), '{');
            r.Success? && !r.value.comma && Spaced(b, r.value.pos, q + |BeginObj(l).text|)
    ensures BeginObj(l).lay == Layout(l.indent + 4, false, true)
  {
    hide Comma, Put, Open, At;
    OpenAt(b, p, q, l, "{\n");
  }

  lemma ArrOpenAt(b: string, p: nat, q: nat, l: Layout, tabIn: bool)
    requires Spaced(b, p, q) && At(b, q, BeginArr(l, tabIn).text)
    ensures var r := Open(b, Cursor(p, l.comma), '[');
            r.Success? && !r.value.comma && Spaced(b, r.value.pos, q + |BeginArr(l, tabIn).text|)
    ensures BeginArr(l, tabIn).lay == Layout(l.indent + (if tabIn then 4 else 0), false, tabIn)
  {
    hide Comma, Put, Open, At;
    OpenAt(b, p, q, l, if tabIn then "[\n" else "[");
  }

  /** A bracket that follows its name. */
  lemma BracketStarts(l: Layout, token: string)
    requires token == "{\n" || token == "[\n" || token == "["
    requires !l.comma && !l.newLine
    ensures var c := Comma(l, true);
            var t := c.text + Put(c.lay, token).text;
            t != "" && !IsSpace(t[0])
  {}

  /** A closing bracket on the same line or on its own. */
  lemma CloseShape(l: Layout, tabOut: bool, c: char) returns (ws: string)
    requires c == '}' || c == ']'
    ensures var e := if tabOut then Put(l.(indent := l.indent - 4), "\n") else Out("", l);
            var x := Put(e.lay, [c]);
            && e.text + x.text == ws + [c] && AllSpace(ws)
            && x.lay == Layout(l.indent - (if tabOut then 4 else 0), l.comma, false)
            && !IsDNum((e.text + x.text)[0])
  {
    var e := if tabOut then Put(l.(indent := l.indent - 4), "\n") else Out("", l);
    ws := e.text + (if e.lay.newLine then Spaces(e.lay.indent) else "");
  }

  lemma CloseAt(b: string, p: nat, q: nat, l: Layout, tabOut: bool, c: char, comma: bool)
    requires c == '}' || c == ']'
    requires Spaced(b, p, q)
    requires var e := if tabOut then Put(l.(indent := l.indent - 4), "\n") else Out("", l);
             At(b, q, e.text + Put(e.lay, [c]).text)
    ensures var e := if tabOut then Put(l.(indent := l.indent - 4), "\n") else Out("", l);
            var x := Put(e.lay, [c]);
            && Close(b, Cursor(p, comma), c) == Success(Cursor(q + |e.text + x.text|, true))
            && x.lay == Layout(l.indent - (if tabOut then 4 else 0), l.comma, false)
            && Stops(b, q)
  {
    hide Put, Next, At, AllSpace;
    var ws := CloseShape(l, tabOut, c);
    AtSplit(b, q, ws, [c]);
    CharAt(b, q + |ws|, [c], 0);
    SpacedAt(b, p, q, ws);
    NextAt(b, p, q + |ws|, c);
    CharAt(b, q, ws + [c], 0);
  }

  lemma ObjCloseAt(b: string, p: nat, q: nat, l: Layout, comma: bool)
    requires Spaced(b, p, q) && At(b, q, EndObj(l).text)
    ensures Close(b, Cursor(p, comma), '}') == Success(Cursor(q + |EndObj(l).text|, true)) && Stops(b, q)
    ensures EndObj(l).lay == Layout(l.indent - 4, true, false)
  {
    hide Put, Close, At;
    assert "}" == ['}'];
    CloseAt(b, p, q, l, true, '}', comma);
  }

  lemma ArrCloseAt(b: string, p: nat, q: nat, l: Layout, tabOut: bool, comma: bool)
    requires Spaced(b, p, q) && At(b, q, EndArr(l, tabOut).text)
    ensures Close(b, Cursor(p, comma), ']') == Success(Cursor(q + |EndArr(l, tabOut).text|, true)) && Stops(b, q)
    ensures EndArr(l, tabOut).lay == Layout(l.indent - (if tabOut then 4 else 0), true, false)
  {
    hide Put, Close, At;
    assert "]" == [']'];
    CloseAt(b, p, q, l, tabOut, ']', comma);
  }

  // ---------- composites ----------

  /** Where an entry that follows another one starts, it starts with the comma. */
  lemma StartsWithComma(l: Layout, newLine: bool, s: string)
    requires l.comma && !l.newLine
    ensures var t := Comma(l, newLine).text + s; t != "" && t[0] == ','
  {}

  lemma CommaStops(b: string, q: nat, s: string)
    requires At(b, q, s) && s != "" && s[0] == ','
    ensures Stops(b, q)
  {
    CharAt(b, q, s, 0);
  }

  /** Reading back the numbers of a byte buffer. */
  lemma {:induction false} BytesAt(b: string, p: nat, q: nat, l: Layout, bytes: ByteVec)
    requires Spaced(b, p, q) && At(b, q, Nums(l, bytes).text) && (bytes != [] ==> Stops(b, q + |Nums(l, bytes).text|))
    ensures ReadBytes(b, Cursor(p, l.comma), |bytes|)
         == Success((bytes, if bytes == [] then Cursor(p, l.comma) else Cursor(q + |Nums(l, bytes).text|, true)))
    ensures bytes == [] ==> Nums(l, bytes) == Out("", l)
    ensures bytes != [] ==> Nums(l, bytes).lay == Layout(l.indent, true, false)
    decreases |bytes|
  {
    hide Num, ReadNum, At, Stops;
    if bytes != [] {
      var n, rest := Num(l, bytes[0] as nat), bytes[1..];
      AtSplit(b, q, n.text, Nums(n.lay, rest).text);
      var m := q + |n.text|;
      AtWithin(b, q, n.text);
      NumLay(l, bytes[0] as nat);
      if rest != [] {
        NextNum(n.lay, rest);
        CommaStops(b, m, Nums(n.lay, rest).text);
      }
      NumAt(b, p, q, l, bytes[0] as nat);
      BytesAt(b, m, m, n.lay, rest);
      assert [bytes[0]] + rest == bytes;
    }
  }

  lemma NumLay(l: Layout, n: nat)
    ensures Num(l, n).lay == Layout(l.indent, true, false)
  {
    hide Decimal;
    DecimalDigits(n);
    NotEol(Decimal(n));
  }

  lemma NextNum(l: Layout, bytes: ByteVec)
    requires l.comma && !l.newLine && bytes != []
    ensures var t := Nums(l, bytes).text; t != "" && t[0] == ','
  {
    hide Decimal;
    StartsWithComma(l, false, Put(Comma(l, false).lay, Decimal(bytes[0] as nat)).text);
  }

  lemma NextName(l: Layout, name: string)
    requires l.comma && !l.newLine && name != ""
    ensures var t := NameEntry(l, name).text; t != "" && t[0] == ','
  {
    StartsWithComma(l, true, Put(Comma(l, true).lay, NameToken(name)).text);
  }

  /** Reading back size, name and opening bracket of an array. */
  lemma ArrStartAt(b: string, p: nat, q: nat, l: Layout, f: FieldS, size: nat, tabIn: bool)
    requires NameOk(f.name) && NameOk(f.sizeName) && size < 0x1_0000_0000_0000_0000
    requires Spaced(b, p, q) && At(b, q, ArrStart(l, f, size, tabIn).text)
    ensures var r, o := ReadArrStart(b, Cursor(p, l.comma), f), ArrStart(l, f, size, tabIn);
            && r.Success? && r.value.0 == size && !r.value.1.comma && Spaced(b, r.value.1.pos, q + |o.text|)
            && o.lay == Layout(l.indent + (if tabIn then 4 else 0), false, tabIn)
  {
    hide NumEntry, NameEntry, BeginArr, ReadNumEntry, ReadName, Open, At, Stops, IsSpace;
    var s := NumEntry(l, f.sizeName, size);
    NumEntryLay(l, f.sizeName, size);
    var e := NameEntry(s.lay, f.name);
    NameLay(s.lay, f.name);
    var o := BeginArr(e.lay, tabIn);
    AtSplit(b, q, s.text + e.text, o.text);
    AtSplit(b, q, s.text, e.text);
    var m1 := q + |s.text|;
    var m2 := m1 + |e.text|;
    AtWithin(b, q, s.text);
    AtWithin(b, m1, e.text);
    NextName(s.lay, f.name);
    CommaStops(b, m1, e.text);
    NumEntryAt(b, p, q, l, f.sizeName, size);
    ArrStarts(e.lay, tabIn);
    CharAt(b, m2, o.text, 0);
    NameAt(b, m1, m1, s.lay, f.name);
    ArrOpenAt(b, m2, m2, e.lay, tabIn);
  }

  lemma NumEntryLay(l: Layout, name: string, n: nat)
    requires name != ""
    ensures NumEntry(l, name, n).lay == Layout(l.indent, true, false)
  {
    hide Num;
    NumLay(NameEntry(l, name).lay, n);
  }

  lemma ArrStarts(l: Layout, tabIn: bool)
    requires !l.comma && !l.newLine
    ensures var t := BeginArr(l, tabIn).text; t != "" && !IsSpace(t[0])
  {
    BracketStarts(l, if tabIn then "[\n" else "[");
  }

  lemma ObjStarts(l: Layout, fields: seq<FieldS>, vals: seq<Val>)
    requires !l.comma && !l.newLine && AllTyped(fields, vals)
    ensures var t := ObjOut(l, fields, vals).text; t != "" && !IsSpace(t[0])
  {
    hide FieldsOut, AllTyped, EndObj;
    BracketStarts(l, "{\n");
  }

  /** A field that follows another one starts with the comma. */
  lemma NextField(l: Layout, f: FieldS, v: Val)
    requires FieldTyped(f, v) && l.comma && !l.newLine
    ensures var t := FieldOut(l, f, v).text; t != "" && t[0] == ','
  {
    hide NameEntry, Num, ObjOut, BeginArr, Nums, EndArr, ObjsOut;
    NextName(l, f.name);
    if f.shape.BytesS? || f.shape.ArrS? {
      NextName(l, f.sizeName);
    }
  }

  /** Reading back an object. */
  lemma {:induction false} ObjAt(b: string, p: nat, q: nat, l: Layout, fields: seq<FieldS>, vals: seq<Val>)
    requires AllTyped(fields, vals) && Spaced(b, p, q) && At(b, q, ObjOut(l, fields, vals).text)
    ensures ReadObject(b, Cursor(p, l.comma), fields) == Success((vals, Cursor(q + |ObjOut(l, fields, vals).text|, true)))
    ensures ObjOut(l, fields, vals).lay == Layout(l.indent, true, false)
    decreases vals, 2
  {
    hide BeginObj, EndObj, FieldsOut, Open, Close, ReadFields, At, Stops, IsSpace, Spaced, AllTyped;
    var o := BeginObj(l);
    var f := FieldsOut(o.lay, fields, vals);
    var e := EndObj(f.lay);
    AtSplit(b, q, o.text + f.text, e.text);
    AtSplit(b, q, o.text, f.text);
    var m1 := q + |o.text|;
    var m2 := m1 + |f.text|;
    ObjOpenAt(b, p, q, l);
    var r := Open(b, Cursor(p, l.comma), '{').value;
    SpacedAtEnd(b, m2, e.text);
    ObjCloseAt(b, m2, m2, f.lay, true);
    FieldsAt(b, r.pos, m1, o.lay, fields, vals);
    if vals == [] {
      ObjCloseAt(b, r.pos, m2, f.lay, r.comma);
    }
  }

  lemma SpacedAtEnd(b: string, q: nat, s: string)
    requires At(b, q, s)
    ensures Spaced(b, q, q)
  {}

  /** Reading back the fields of an object. */
  lemma {:induction false} FieldsAt(b: string, p: nat, q: nat, l: Layout, fields: seq<FieldS>, vals: seq<Val>)
    requires AllTyped(fields, vals) && Spaced(b, p, q) && At(b, q, FieldsOut(l, fields, vals).text)
    requires vals != [] ==> Stops(b, q + |FieldsOut(l, fields, vals).text|)
    ensures ReadFields(b, Cursor(p, l.comma), fields)
         == Success((vals, if vals == [] then Cursor(p, l.comma) else Cursor(q + |FieldsOut(l, fields, vals).text|, true)))
    ensures vals == [] ==> FieldsOut(l, fields, vals) == Out("", l)
    ensures vals != [] ==> FieldsOut(l, fields, vals).lay == Layout(l.indent, true, false)
    decreases vals, 1
  {
    hide FieldOut, ReadField, At, Stops, IsSpace, FieldTyped;
    if vals != [] {
      var f, fs, vs := FieldOut(l, fields[0], vals[0]), fields[1..], vals[1..];
      var rest := FieldsOut(f.lay, fs, vs);
      AtSplit(b, q, f.text, rest.text);
      var m := q + |f.text|;
      AtWithin(b, q, f.text);
      FieldLay(l, fields[0], vals[0]);
      if vs != [] {
        NextField(f.lay, fs[0], vs[0]);
        CommaStops(b, m, rest.text);
      }
      FieldAt(b, p, q, l, fields[0], vals[0]);
      FieldsAt(b, m, m, f.lay, fs, vs);
      assert [vals[0]] + vs == vals;
    }
  }

  /** Reading back the objects of an array. */
  lemma {:induction false} ObjsAt(b: string, p: nat, q: nat, l: Layout, fields: seq<FieldS>, elems: seq<Val>)
    requires forall i | 0 <= i < |elems| :: elems[i].ObjV? && AllTyped(fields, elems[i].vals)
    requires Spaced(b, p, q) && At(b, q, ObjsOut(l, fields, elems).text)
    ensures ReadObjects(b, Cursor(p, l.comma), fields, |elems|)
         == Success((elems, if elems == [] then Cursor(p, l.comma) else Cursor(q + |ObjsOut(l, fields, elems).text|, true)))
    ensures elems == [] ==> ObjsOut(l, fields, elems) == Out("", l)
    decreases elems, 3
  {
    hide ObjOut, ReadObject, At, Stops, IsSpace, AllTyped;
    if elems != [] {
      var o, rest := ObjOut(l, fields, elems[0].vals), elems[1..];
      AtSplit(b, q, o.text, ObjsOut(o.lay, fields, rest).text);
      var m := q + |o.text|;
      AtWithin(b, q, o.text);
      ObjAt(b, p, q, l, fields, elems[0].vals);
      ObjsAt(b, m, m, o.lay, fields, rest);
      assert [elems[0]] + rest == elems;
    }
  }

  /** Reading back a field. */
  lemma {:induction false} FieldAt(b: string, p: nat, q: nat, l: Layout, f: FieldS, v: Val)
    requires FieldTyped(f, v) && Spaced(b, p, q) && At(b, q, FieldOut(l, f, v).text)
    requires Stops(b, q + |FieldOut(l, f, v).text|)
    ensures ReadField(b, Cursor(p, l.comma), f) == Success((v, Cursor(q + |FieldOut(l, f, v).text|, true)))
    decreases v, 4
  {
    hide NumEntry, NameEntry, ArrStart, Nums, ObjsOut, ObjOut, EndArr, ReadNumEntry, ReadName, ReadArrStart, ReadBytes, ReadObjects,
      ReadObject, Close, At, Stops, IsSpace, AllTyped;
    match f.shape
    case NumS => NumEntryAt(b, p, q, l, f.name, v.n);
    case BytesS => BytesFieldAt(b, p, q, l, f, v.bytes);
    case ObjS(fields) =>
      var e := NameEntry(l, f.name);
      NameLay(l, f.name);
      var o := ObjOut(e.lay, fields, v.vals);
      AtSplit(b, q, e.text, o.text);
      var m := q + |e.text|;
      AtWithin(b, q, e.text);
      SpacedAtEnd(b, m, o.text);
      ObjStarts(e.lay, fields, v.vals);
      CharAt(b, m, o.text, 0);
      NameAt(b, p, q, l, f.name);
      ObjAt(b, m, m, e.lay, fields, v.vals);
    case ArrS(fields) =>
      var s := ArrStart(l, f, |v.elems|, v.elems != []);
      var n := ObjsOut(s.lay, fields, v.elems);
      var e := EndArr(n.lay, v.elems != []);
      AtSplit(b, q, s.text + n.text, e.text);
      AtSplit(b, q, s.text, n.text);
      var m1 := q + |s.text|;
      var m2 := m1 + |n.text|;
      ArrStartAt(b, p, q, l, f, |v.elems|, v.elems != []);
      var r := ReadArrStart(b, Cursor(p, l.comma), f).value.1;
      ObjsAt(b, r.pos, m1, s.lay, fields, v.elems);
      SpacedAtEnd(b, m2, e.text);
      ArrCloseAt(b, if v.elems == [] then r.pos else m2, m2, n.lay, v.elems != [], v.elems != []);
  }

  lemma BytesFieldAt(b: string, p: nat, q: nat, l: Layout, f: FieldS, bytes: ByteVec)
    requires f.shape.BytesS? && FieldTyped(f, BytesV(bytes)) && Spaced(b, p, q) && At(b, q, FieldOut(l, f, BytesV(bytes)).text)
    ensures ReadField(b, Cursor(p, l.comma), f)
         == Success((BytesV(bytes), Cursor(q + |FieldOut(l, f, BytesV(bytes)).text|, true)))
  {
    hide NumEntry, NameEntry, ArrStart, Nums, EndArr, ReadNumEntry, ReadName, ReadArrStart, ReadBytes, Close, At, Stops, IsSpace;
    var s := ArrStart(l, f, |bytes|, false);
    var n := Nums(s.lay, bytes);
    var e := EndArr(n.lay, false);
    AtSplit(b, q, s.text + n.text, e.text);
    AtSplit(b, q, s.text, n.text);
    var m1 := q + |s.text|;
    var m2 := m1 + |n.text|;
    ArrStartAt(b, p, q, l, f, |bytes|, false);
    var r := ReadArrStart(b, Cursor(p, l.comma), f).value.1;
    SpacedAtEnd(b, m2, e.text);
    ArrCloseAt(b, m2, m2, n.lay, false, true);
    BytesAt(b, r.pos, m1, s.lay, bytes);
    ArrCloseAt(b, if bytes == [] then r.pos else m2, m2, n.lay, false, bytes != []);
  }

  // ---------- layouts ----------

  /** An object starts on a new line if something stands before it, its contents are indented by four
      more blanks, and its closing brace stands on a line of its own. */
  lemma BracesLaidOut(l: Layout)
    requires 0 <= l.indent
    ensures BeginObj(l.(comma := false, newLine := true)) == Out(Spaces(l.indent) + "{\n", Layout(l.indent + 4, false, true))
    ensures BeginObj(l.(comma := false, newLine := false)) == Out("{\n", Layout(l.indent + 4, false, true))
    ensures BeginObj(l.(comma := true, newLine := false)) == Out(",\n" + (Spaces(l.indent) + "{\n"), Layout(l.indent + 4, false, true))
    ensures EndObj(l.(newLine := false, indent := l.indent + 4)) == Out("\n" + (Spaces(l.indent) + "}"), Layout(l.indent, true, false))
    ensures EndObj(l.(newLine := true, indent := l.indent + 4)) == Out(Spaces(l.indent) + "}", Layout(l.indent, true, false))
  {
    hide Spaces;
  }

  /** The same for an array that is indented; one that is not stays on its line. */
  lemma BracketsLaidOut(l: Layout)
    requires 0 <= l.indent
    ensures BeginArr(l.(comma := false, newLine := false), true) == Out("[\n", Layout(l.indent + 4, false, true))
    ensures BeginArr(l.(comma := false, newLine := false), false) == Out("[", Layout(l.indent, false, false))
    ensures EndArr(l.(newLine := false, indent := l.indent + 4), true) == Out("\n" + (Spaces(l.indent) + "]"), Layout(l.indent, true, false))
    ensures EndArr(l.(newLine := false), false) == Out("]", Layout(l.indent, true, false))
  {
    hide Spaces;
  }

  lemma {:induction false} NumsLay(l: Layout, bytes: ByteVec)
    ensures Nums(l, bytes).lay.indent == l.indent
    decreases |bytes|
  {
    hide Num;
    if bytes != [] {
      NumLay(l, bytes[0] as nat);
      NumsLay(Num(l, bytes[0] as nat).lay, bytes[1..]);
    }
  }

  lemma EndArrLay(l: Layout, tabOut: bool)
    ensures EndArr(l, tabOut).lay == Layout(l.indent - (if tabOut then 4 else 0), true, false)
  {
    var ws := CloseShape(l, tabOut, ']');
    assert "]" == [']'];
  }

  lemma ArrStartLay(l: Layout, f: FieldS, size: nat, tabIn: bool)
    requires f.name != "" && f.sizeName != ""
    ensures ArrStart(l, f, size, tabIn).lay == Layout(l.indent + (if tabIn then 4 else 0), false, tabIn)
  {
    hide NumEntry, NameEntry;
    NumEntryLay(l, f.sizeName, size);
    NameLay(NumEntry(l, f.sizeName, size).lay, f.name);
  }

  lemma ObjLay(l: Layout, fields: seq<FieldS>, vals: seq<Val>)
    requires AllTyped(fields, vals)
    ensures ObjOut(l, fields, vals).lay == Layout(l.indent, true, false)
    decreases vals, 2
  {
    hide FieldsOut, AllTyped;
    FieldsLay(BeginObj(l).lay, fields, vals);
    var ws := CloseShape(FieldsOut(BeginObj(l).lay, fields, vals).lay, true, '}');
    assert "}" == ['}'];
  }

  lemma {:induction false} FieldsLay(l: Layout, fields: seq<FieldS>, vals: seq<Val>)
    requires AllTyped(fields, vals)
    ensures FieldsOut(l, fields, vals).lay == if vals == [] then l else Layout(l.indent, true, false)
    decreases vals, 1
  {
    hide FieldOut, FieldTyped;
    if vals != [] {
      FieldLay(l, fields[0], vals[0]);
      FieldsLay(FieldOut(l, fields[0], vals[0]).lay, fields[1..], vals[1..]);
    }
  }

  lemma {:induction false} ObjsLay(l: Layout, fields: seq<FieldS>, elems: seq<Val>)
    requires forall i | 0 <= i < |elems| :: elems[i].ObjV? && AllTyped(fields, elems[i].vals)
    ensures ObjsOut(l, fields, elems).lay == if elems == [] then l else Layout(l.indent, true, false)
    decreases elems, 3
  {
    hide ObjOut, AllTyped;
    if elems != [] {
      ObjLay(l, fields, elems[0].vals);
      ObjsLay(ObjOut(l, fields, elems[0].vals).lay, fields, elems[1..]);
    }
  }

  lemma FieldLay(l: Layout, f: FieldS, v: Val)
    requires FieldTyped(f, v)
    ensures FieldOut(l, f, v).lay == Layout(l.indent, true, false)
    decreases v, 4
  {
    hide NumEntry, NameEntry, ArrStart, Nums, ObjsOut, ObjOut, EndArr, AllTyped;
    match f.shape
    case NumS => NumEntryLay(l, f.name, v.n);
    case BytesS =>
      var s := ArrStart(l, f, |v.bytes|, false);
      ArrStartLay(l, f, |v.bytes|, false);
      NumsLay(s.lay, v.bytes);
      EndArrLay(Nums(s.lay, v.bytes).lay, false);
    case ObjS(fields) =>
      NameLay(l, f.name);
      ObjLay(NameEntry(l, f.name).lay, fields, v.vals);
    case ArrS(fields) =>
      var tab := v.elems != [];
      var s := ArrStart(l, f, |v.elems|, tab);
      ArrStartLay(l, f, |v.elems|, tab);
      ObjsLay(s.lay, fields, v.elems);
      EndArrLay(ObjsOut(s.lay, fields, v.elems).lay, tab);
  }

  // ---------- the round trip ----------

  /** Deserialization undoes serialization, wherever in a text the serialized object stands, and ends
      right behind its closing brace. */
  lemma DeserializedIsSerialized(b: string, p: nat, fields: seq<FieldS>, vals: seq<Val>)
    requires AllTyped(fields, vals) && At(b, p, Serialized(fields, vals))
    ensures Deserialized(b, Cursor(p, false), fields) == Success((vals, Cursor(p + |Serialized(fields, vals)|, true)))
  {
    hide ObjOut, ReadObject, At, AllTyped, SkipSpace;
    var o := ObjOut(START, fields, vals);
    StartsWithBrace(fields, vals);
    CharAt(b, p, o.text, 0);
    SpacedAtEnd(b, p, o.text);
    SkipsSpace(b, p, p);
    ObjAt(b, p, p, START, fields, vals);
  }

  lemma StartsWithBrace(fields: seq<FieldS>, vals: seq<Val>)
    requires AllTyped(fields, vals)
    ensures var t := Serialized(fields, vals); t != "" && t[0] == '{'
  {
    hide FieldsOut, AllTyped, EndObj;
    assert BeginObj(START).text == Spaces(0) + "{\n";
  }
}
