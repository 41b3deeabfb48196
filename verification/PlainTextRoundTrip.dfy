/** Reading back byte buffers that PlainTextSerializer wrote. */
module PlainTextRoundTrip {
  import opened Bytes
  import opened Wrappers
  import opened Sequences
  import opened HexText
  import opened JsonText
  import opened JsonRoundTrip
  import opened PlainText

  // ---------- bytes ----------

  lemma HexDigitIs(d: nat)
    requires d < 16
    ensures HexVal(HexDigit(d)) == d && !IsBlank(HexDigit(d)) && !IsSpace(HexDigit(d))
    ensures HexDigit(d) != '+' && HexDigit(d) != '-' && HexDigit(d) != '.' && HexDigit(d) != ']' && HexDigit(d) != ')'
  {}

  lemma PairReadsBack(b: byte)
    ensures StoiByte(HexPair(b)) == Success(b) && !IsSpace(HexPair(b)[0])
  {
    hide HexDigit, HexPair, HexVal, IsBlank, IsSpace;
    var n := b as nat;
    HexDigitIs(n / 16);
    HexDigitIs(n % 16);
    var s := HexPair(b);
    assert s == [HexDigit(n / 16)] + [HexDigit(n % 16)];
    assert s[1..][1..] == "";
    assert HexRun(s, 0) == HexRun(s[1..], n / 16) == HexRun(s[1..][1..], n / 16 * 16 + n % 16) == n;
  }

  /** The bytes with indices from `i` on are read from `p`, up to `e`. */
  predicate Reads(b: string, p: nat, i: nat, bytes: ByteVec, e: nat) {
    p <= |b| && ReadPairs(b, p, i, |bytes|) == Success((bytes, e))
  }

  lemma {:induction false} ReadsMore(b: string, p: nat, i: nat, x: ByteVec, m: nat, y: ByteVec, e: nat)
    requires Reads(b, p, i, x, m) && Reads(b, m, i + |x|, y, e)
    ensures Reads(b, p, i, x + y, e)
    decreases |x|
  {
    hide SkipSpace, StoiByte;
    if x == [] {
      assert x + y == y;
    } else {
      var q := FirstRead(b, p, i, x, m);
      ReadsMore(b, q, i + 1, x[1..], m, y, e);
      assert x == [x[0]] + x[1..];
      PrependRead(b, p, i, x[0], x[1..], m, x[1..] + y, e);
      assert [x[0]] + (x[1..] + y) == x + y;
    }
  }

  /** Where reading goes on after the first byte. */
  lemma FirstRead(b: string, p: nat, i: nat, x: ByteVec, m: nat) returns (q: nat)
    requires x != [] && Reads(b, p, i, x, m)
    ensures q == AfterOne(b, p, i) && Reads(b, q, i + 1, x[1..], m)
  {
    hide SkipSpace, StoiByte;
    q := AfterOne(b, p, i);
    var rest := ReadPairs(b, q, i + 1, |x| - 1);
    assert rest.Success? && x[1..] == rest.value.0;
  }

  /** The position behind the byte with index `i`. */
  function AfterOne(b: string, p: nat, i: nat): nat
    requires p <= |b|
  {
    (if i % WORD_SIZE == 0 && SkipSpace(b, p).Success? then SkipSpace(b, p).value else p) + 2
  }

  lemma PrependRead(b: string, p: nat, i: nat, v: byte, x: ByteVec, m: nat, y: ByteVec, e: nat)
    requires Reads(b, p, i, [v] + x, m) && AfterOne(b, p, i) <= |b| && Reads(b, AfterOne(b, p, i), i + 1, y, e)
    ensures Reads(b, p, i, [v] + y, e)
  {
    hide SkipSpace, StoiByte;
    assert ([v] + x)[0] == v;
  }

  /** White space before a word does not matter. */
  lemma ReadsAfterSpace(b: string, p: nat, q: nat, i: nat, bytes: ByteVec, e: nat)
    requires Spaced(b, p, q) && i % WORD_SIZE == 0 && bytes != [] && Reads(b, q, i, bytes, e)
    ensures Reads(b, p, i, bytes, e)
  {
    var r := SkipSpace(b, q).value;
    SkipsWithin(b, q);
    SkipsSpace(b, p, r);
  }

  lemma {:induction false} SkipsWithin(b: string, q: nat)
    requires q <= |b| && SkipSpace(b, q).Success?
    ensures Spaced(b, q, SkipSpace(b, q).value)
    decreases |b| - q
  {
    if IsSpace(b[q]) {
      SkipsWithin(b, q + 1);
    }
  }

  /** Free of dots and closing brackets. */
  predicate Clean(s: string) {
    forall i | 0 <= i < |s| :: s[i] != '.' && s[i] != ']'
  }

  lemma CleanPair(b: byte)
    ensures Clean(HexPair(b)) && HexPair(b) != "\n" && HexPair(b)[1] != '\n'
  {
    hide HexDigit, HexPair;
    HexDigitIs(b as nat / 16);
    HexDigitIs(b as nat % 16);
  }

  /** One byte, behind white space if it starts a word. */
  lemma ReadOne(b: string, q: nat, t: nat, x: byte, i: nat)
    requires Spaced(b, q, t) && At(b, t, HexPair(x)) && (t == q || i % WORD_SIZE == 0)
    ensures Reads(b, q, i, [x], t + 2)
  {
    hide HexPair, StoiByte, SkipSpace, At, Spaced, IsSpace;
    PairReadsBack(x);
    AtWithin(b, t, HexPair(x));
    CharAt(b, t, HexPair(x), 0);
    SkipsSpace(b, q, t);
    SliceIs(b, t, HexPair(x));
    NothingToRead(b, t + 2, t + 2, i + 1) by {
      SpacedNowhere(b, t, HexPair(x));
    }
    OneThenRest(b, q, t, x, i);
  }

  lemma OneThenRest(b: string, q: nat, t: nat, x: byte, i: nat)
    requires q <= |b| && t + 2 <= |b| && StoiByte(b[t..t + 2]) == Success(x)
    requires if i % WORD_SIZE == 0 then SkipSpace(b, q) == Success(t) else t == q
    ensures Reads(b, q, i, [x], t + 2)
  {
    hide StoiByte, SkipSpace;
    assert ReadPairs(b, t + 2, i + 1, 0) == Success(([], t + 2));
    assert [x] + [] == [x];
  }

  /** One byte, behind indentation at the start of a line. */
  lemma OnePairAt(b: string, q: nat, l: Layout, x: byte, i: nat)
    requires At(b, q, Put(l, HexPair(x)).text) && (l.newLine ==> i % WORD_SIZE == 0)
    ensures Reads(b, q, i, [x], q + |Put(l, HexPair(x)).text|)
    ensures Put(l, HexPair(x)).lay == l.(newLine := false) && Clean(Put(l, HexPair(x)).text)
  {
    hide HexPair, Put, Reads, At, AllSpace, Spaced;
    CleanPair(x);
    var ws := PutShape(l, HexPair(x));
    PutIs(l, HexPair(x));
    SpacesAreClean(l);
    AtSplit(b, q, ws, HexPair(x));
    SpacedNowhere(b, q, ws);
    SpacedAt(b, q, q, ws);
    ReadOne(b, q, q + |ws|, x, i);
  }

  lemma PutIs(l: Layout, s: string)
    requires s != "" && s != "\n"
    ensures Put(l, s) == Out((if l.newLine then Spaces(l.indent) else "") + s, l.(newLine := s[|s| - 1] == '\n'))
  {}

  lemma SpacesAreClean(l: Layout)
    ensures Clean(Spaces(l.indent))
  {}

  lemma {:induction false} PairsAt(b: string, q: nat, l: Layout, bytes: ByteVec, i: nat)
    requires At(b, q, Pairs(l, bytes).text) && (l.newLine ==> i % WORD_SIZE == 0)
    ensures Reads(b, q, i, bytes, q + |Pairs(l, bytes).text|) && Clean(Pairs(l, bytes).text)
    ensures Pairs(l, bytes).lay == if bytes == [] then l else l.(newLine := false)
    decreases |bytes|
  {
    hide HexPair, Put, Reads, At;
    if bytes == [] {
      NothingToRead(b, q, q, i) by {
        SpacedNowhere(b, q, "");
      }
    } else {
      var x, rest := bytes[0], bytes[1..];
      var h := Put(l, HexPair(x));
      AtSplit(b, q, h.text, Pairs(h.lay, rest).text);
      OnePairAt(b, q, l, x, i);
      PairsAt(b, q + |h.text|, h.lay, rest, i + 1);
      ReadsMore(b, q, i, [x], q + |h.text|, rest, q + |Pairs(l, bytes).text|);
      assert [x] + rest == bytes;
    }
  }

  /** A fragment starts with a word. */
  lemma {:induction false} FragmentAt(b: string, q: nat, l: Layout, bytes: ByteVec, i: nat)
    requires At(b, q, Fragment(l, bytes).text) && i % WORD_SIZE == 0
    ensures Reads(b, q, i, bytes, q + |Fragment(l, bytes).text|) && Clean(Fragment(l, bytes).text)
    ensures Fragment(l, bytes).lay == if bytes == [] then l else l.(newLine := false)
    decreases |bytes|
  {
    hide Pairs, Put, Reads, At;
    if |bytes| < 2 * WORD_SIZE {
      PairsAt(b, q, l, bytes, i);
    } else {
      var x, rest := bytes[..WORD_SIZE], bytes[WORD_SIZE..];
      var w := Pairs(l, x);
      AtSplit(b, q, w.text + Put(w.lay, " ").text, Fragment(Put(w.lay, " ").lay, rest).text);
      AtSplit(b, q, w.text, Put(w.lay, " ").text);
      PairsAt(b, q, l, x, i);
      PutIs(w.lay, " ");
      assert Put(w.lay, " ").text == " ";
      var m := q + |w.text|;
      SpacedNowhere(b, q, w.text);
      SpacedAt(b, m, m, " ");
      FragmentAt(b, m + 1, w.lay, rest, i + WORD_SIZE);
      ReadsAfterSpace(b, m, m + 1, i + WORD_SIZE, rest, q + |Fragment(l, bytes).text|);
      ReadsMore(b, q, i, x, m, rest, q + |Fragment(l, bytes).text|);
      assert x + rest == bytes;
    }
  }

  /** White space may precede the rows, and a line break may follow the last full one. */
  lemma {:induction false} RowsAt(b: string, p: nat, q: nat, l: Layout, bytes: ByteVec, indented: bool, i: nat)
      returns (e: nat)
    requires At(b, q, RowsOut(l, bytes, indented).text) && Spaced(b, p, q) && i % WORD_SIZE == 0
    ensures Reads(b, p, i, bytes, e) && Spaced(b, e, q + |RowsOut(l, bytes, indented).text|)
    ensures Clean(RowsOut(l, bytes, indented).text)
    ensures var y := RowsOut(l, bytes, indented).lay; y.indent == l.indent && y.comma == l.comma
    decreases |bytes|
  {
    hide Fragment, Put, Reads, At, Spaced;
    var all := RowsOut(l, bytes, indented);
    if |bytes| < BYTES_PER_LINE {
      FragmentAt(b, q, l, bytes, i);
      if bytes == [] {
        e := p;
        assert Reads(b, p, i, bytes, e) by {
          NothingToRead(b, p, q, i);
        }
        NothingWritten(l);
      } else {
        e := q + |all.text|;
        ReadsAfterSpace(b, p, q, i, bytes, e);
        SpacedNowhere(b, q, all.text);
      }
    } else {
      var x, rest := bytes[..BYTES_PER_LINE], bytes[BYTES_PER_LINE..];
      var f := Fragment(l, x);
      var n := if indented then Put(f.lay, "\n") else Out("", f.lay);
      AtSplit(b, q, f.text + n.text, RowsOut(n.lay, rest, indented).text);
      AtSplit(b, q, f.text, n.text);
      FragmentAt(b, q, l, x, i);
      var m := q + |f.text|;
      EolShape(f.lay);
      SpacedAt(b, m, m, n.text) by {
        SpacedNowhere(b, q, f.text);
      }
      e := RowsAt(b, m, m + |n.text|, n.lay, rest, indented, i + BYTES_PER_LINE);
      ReadsAfterSpace(b, p, q, i, x, m);
      ReadsMore(b, p, i, x, m, rest, e);
      assert x + rest == bytes;
    }
  }

  lemma NothingToRead(b: string, p: nat, q: nat, i: nat)
    requires Spaced(b, p, q)
    ensures Reads(b, p, i, [], p)
  {}

  lemma NothingWritten(l: Layout)
    ensures Fragment(l, []) == Out("", l)
  {}

  lemma SpacedNowhere(b: string, q: nat, s: string)
    requires At(b, q, s)
    ensures Spaced(b, q, q) && Spaced(b, q + |s|, q + |s|)
  {}

  lemma EolShape(l: Layout)
    ensures var n := Put(l, "\n"); AllSpace(n.text) && Clean(n.text) && n.lay == l.(newLine := true)
    ensures AllSpace("") && Clean("")
  {
    SpacesAreClean(l);
  }

  // ---------- tokens ----------

  /** Where a token stands behind the optional separator. */
  lemma SeparatorThenToken(b: string, q: nat, u: bool, l: Layout, newLine: bool, token: string) returns (k: nat, t: nat)
    requires token != "" && token != "\n" && !IsSpace(token[0])
    requires var c := Separator(u, l, newLine); At(b, q, c.text + Put(c.lay, token).text)
    ensures var c := Separator(u, l, newLine);
            && t + |token| == q + |c.text| + |Put(c.lay, token).text| && At(b, t, token)
            && Put(c.lay, token).lay == Layout(l.indent, l.comma, token[|token| - 1] == '\n')
    ensures if u && l.comma then Spaced(b, q, k) && k < |b| && b[k] == ',' && Spaced(b, k + 1, t)
            else k == t && Spaced(b, q, t)
    ensures !l.comma && !l.newLine ==> t == q
  {
    hide Comma, Put, At, Spaced, AllSpace, IsSpace;
    var c := Separator(u, l, newLine);
    PutIs(c.lay, token);
    if u {
      var _ := CommaShape(l, newLine);
      k, t := CommaThenToken(b, q, l, newLine, token);
    } else {
      var ws := PutShape(c.lay, token);
      EolShape(l);
      AtSplit(b, q, c.text, ws + token);
      AtSplit(b, q + |c.text|, ws, token);
      SpacedNowhere(b, q, c.text);
      StartSpaced(b, q, c.text);
      SpacedAt(b, q, q, c.text);
      SpacedAt(b, q, q + |c.text|, ws);
      t := q + |c.text| + |ws|;
      k := t;
    }
  }

  lemma StartSpaced(b: string, q: nat, s: string)
    requires At(b, q, s)
    ensures Spaced(b, q, q)
  {}

  lemma TextAt(b: string, p: nat, q: nat, token: string)
    requires TokenOk(token) && Spaced(b, p, q) && At(b, q, token)
    ensures NextText(b, p, token) == Success(q + |token|)
  {
    hide SkipSpace;
    CharAt(b, q, token, 0);
    SkipsSpace(b, p, q);
    assert b[q..][..|token|] == token;
  }

  /** Type, blank, name, blank, equals sign and blank. */
  lemma NameTokensAt(b: string, t: nat, ty: string, name: string, v: nat)
    requires TokenOk(ty) && TokenOk(name) && At(b, t, ty + " " + name + " = ")
    requires Spaced(b, t + |ty| + |name| + 4, v) && v < |b| && !IsSpace(b[v])
    ensures var m := t + |ty|;
            && NextText(b, t, ty) == Success(m) && SkipSpace(b, m) == Success(m + 1)
            && NextText(b, m + 1, name) == Success(m + 1 + |name|)
            && Next(b, m + 1 + |name|, '=') == Success(m + |name| + 3) && SkipSpace(b, m + |name| + 3) == Success(v)
  {
    hide NextText, Next, SkipSpace, At, Spaced, IsSpace;
    var m := t + |ty|;
    var k := m + 1 + |name|;
    AtSplit(b, t, ty + " " + name, " = ");
    AtSplit(b, t, ty + " ", name);
    AtSplit(b, t, ty, " ");
    CharAt(b, m, " ", 0);
    CharAt(b, m + 1, name, 0);
    BlankIsSpace();
    StartSpaced(b, t, ty);
    StartSpaced(b, m + 1, name);
    TextAt(b, t, t, ty);
    SkipsSpace(b, m, m + 1) by {
      StartSpaced(b, m, " ");
      SpacedAt(b, m, m, " ");
    }
    TextAt(b, m + 1, m + 1, name);
    EqualsAt(b, k, v);
  }

  lemma EqualsAt(b: string, k: nat, v: nat)
    requires At(b, k, " = ") && Spaced(b, k + 3, v) && v < |b| && !IsSpace(b[v])
    ensures Next(b, k, '=') == Success(k + 2) && SkipSpace(b, k + 2) == Success(v)
  {
    hide Next, SkipSpace, At;
    CharAt(b, k, " = ", 0);
    CharAt(b, k, " = ", 1);
    CharAt(b, k, " = ", 2);
    NextAt(b, k, k + 1, '=');
    SkipsSpace(b, k + 2, v);
  }

  lemma BlankIsSpace()
    ensures IsSpace(' ') && !IsSpace('=') && !IsSpace('(') && !IsSpace('[') && !IsSpace(']') && !IsSpace(',')
  {}

  /** Reading back a name, up to the next visible character. */
  lemma NamedAt(b: string, p: nat, q: nat, u: bool, l: Layout, ty: string, name: string, v: nat)
    requires TokenOk(ty) && TokenOk(name) && Spaced(b, p, q) && At(b, q, NamedEntry(u, l, ty, name).text)
    requires Spaced(b, q + |NamedEntry(u, l, ty, name).text|, v) && v < |b| && !IsSpace(b[v])
    ensures ReadNamed(u, b, Cursor(p, l.comma), ty, name) == Success(Cursor(v, false))
    ensures NamedEntry(u, l, ty, name).lay == Layout(l.indent, false, false)
  {
    hide Separator, Put, NextText, Next, SkipSpace, At, IsSpace;
    var token := ty + " " + name + " = ";
    assert token[0] == ty[0] && token[|token| - 1] == ' ' && |token| > 1;
    var k, t := SeparatorThenToken(b, q, u, l, true, token);
    BlankIsSpace();
    NameTokensAt(b, t, ty, name, v);
    FirstOfToken(b, t, token);
    if u && l.comma {
      SkipsSpace(b, p, k);
      NextAt(b, k, k, ',');
      NextTextSkips(b, k + 1, t, ty);
    } else {
      SkipsSpace(b, p, t);
    }
  }

  lemma FirstOfToken(b: string, t: nat, token: string)
    requires token != "" && At(b, t, token)
    ensures t < |b| && b[t] == token[0]
  {
    CharAt(b, t, token, 0);
  }

  lemma NextTextSkips(b: string, p: nat, t: nat, token: string)
    requires Spaced(b, p, t) && NextText(b, t, token).Success? && t < |b| && !IsSpace(b[t])
    ensures NextText(b, p, token) == NextText(b, t, token)
  {
    hide SkipSpace;
    SkipsSpace(b, p, t);
    SkipsSpace(b, t, t);
  }

  // ---------- numbers ----------

  lemma {:induction false} DigitsHaveNoParen(val: nat)
    ensures ')' !in Digits(val)
  {
    hide HexDigit;
    if val != 0 {
      HexDigitIs(val % 16);
      DigitsHaveNoParen(val / 16);
    }
  }

  lemma HexHasNoParen(val: nat)
    ensures ')' !in ToHex(val, 0)
  {
    hide Digits;
    DigitsHaveNoParen(val);
  }

  function HexCopy(n: nat): string {
    " (0x" + ToHex(n, 0) + ")"
  }

  lemma HexCopyAt(b: string, p: nat, n: nat)
    requires n < WORD64 && At(b, p, HexCopy(n))
    ensures NextHexCopy(b, p, n) == Success(p + |HexCopy(n)|) && b[p] == ' '
  {
    hide NextText, Find, FromHex, ToHex, IsSpace, At;
    var hex := ToHex(n, 0);
    AtSplit(b, p, " (0x" + hex, ")");
    assert " (0x" + hex == " " + ("(0x" + hex);
    AtSplit(b, p, " ", "(0x" + hex);
    AtSplit(b, p + 1, "(0x", hex);
    var m := p + 4;
    CharAt(b, p, " ", 0);
    CharAt(b, m + |hex|, ")", 0);
    BlankIsSpace();
    TextAt(b, p, p + 1, "(0x");
    HexHasNoParen(n);
    forall i | m <= i < m + |hex|
      ensures b[i] != ')'
    {
      CharAt(b, m, hex, i - m);
    }
    FindAt(b, m, m + |hex|, ')');
    SliceIs(b, m, hex);
    HexRoundTrip(n, 0);
  }

  lemma SliceIs(b: string, p: nat, s: string)
    requires At(b, p, s)
    ensures p + |s| <= |b| && b[p..p + |s|] == s
  {}

  /** Reading back a number behind its name. */
  lemma NumberAt(b: string, q: nat, u: bool, l: Layout, n: nat)
    requires n < WORD64 && !l.comma && !l.newLine && At(b, q, Number(u, l, n).text)
    ensures ReadNumber(u, b, Cursor(q, false)) == Success((n, Cursor(q + |Number(u, l, n).text|, true)))
    ensures Number(u, l, n).lay == Layout(l.indent, true, false)
    ensures q < |b| && !IsSpace(b[q])
  {
    hide Decimal, Put, Stoull, DNumEnd, SkipSpace, NextHexCopy, ToHex, At, IsSpace;
    var s, h := Decimal(n), HexCopy(n);
    DecimalDigits(n);
    NotEol(s);
    PutIs(l, s);
    PutIs(l, h);
    assert Separator(u, l, false) == Out("", l);
    assert Number(u, l, n).text == s + h by {
      assert "" + (s + ("" + h)) == s + h;
    }
    AtSplit(b, q, s, h);
    HexCopyAt(b, q + |s|, n);
    BlankStops(b, q + |s|);
    DigitsAt(b, q, s);
    SkipsSpace(b, q, q) by {
      StartSpaced(b, q, s);
    }
    StoullOfDecimal(n);
  }

  lemma BlankStops(b: string, p: nat)
    requires p < |b| && b[p] == ' '
    ensures Stops(b, p)
  {}

  /** Reading back size entry and name, up to the next visible character. */
  lemma HeaderAt(b: string, p: nat, q: nat, u: bool, l: Layout, e: Entry, n: nat, v: nat)
    requires EntryOk(e) && n < WORD64 && Spaced(b, p, q) && At(b, q, Header(u, l, e, n).text)
    requires Spaced(b, q + |Header(u, l, e, n).text|, v) && v < |b| && !IsSpace(b[v])
    ensures ReadHeader(u, b, Cursor(p, l.comma), e) == Success((n, Cursor(v, false)))
    ensures Header(u, l, e, n).lay == Layout(l.indent, false, false)
  {
    hide NamedEntry, Number, ReadNamed, ReadNumber, At, IsSpace, TokenOk;
    var s := NamedEntry(u, l, e.sizeType, e.sizeName);
    var d := Number(u, s.lay, n);
    var t := NamedEntry(u, d.lay, e.ty, e.name);
    NamedLay(u, l, e.sizeType, e.sizeName);
    AtSplit(b, q, s.text, d.text + t.text);
    AtSplit(b, q + |s.text|, d.text, t.text);
    var m := q + |s.text|;
    NumberAt(b, m, u, s.lay, n);
    StartSpaced(b, m, d.text);
    NamedAt(b, p, q, u, l, e.sizeType, e.sizeName, m);
    StartSpaced(b, m + |d.text|, t.text);
    NamedAt(b, m + |d.text|, m + |d.text|, u, d.lay, e.ty, e.name, v);
  }

  lemma NamedLay(u: bool, l: Layout, ty: string, name: string)
    requires TokenOk(ty)
    ensures NamedEntry(u, l, ty, name).lay == Layout(l.indent, false, false)
  {
    var token := ty + " " + name + " = ";
    assert token[|token| - 1] == ' ' && |token| > 1;
  }

  // ---------- brackets ----------

  lemma {:induction false} FindDotTo(b: string, p: nat, q: nat)
    requires p <= q < |b| && (b[q] == '.' || b[q] == ']') && forall i | p <= i < q :: b[i] != '.' && b[i] != ']'
    ensures FindDotOrBracket(b, p) == q
    decreases q - p
  {
    if p < q {
      FindDotTo(b, p + 1, q);
    }
  }

  /** No dot and no closing bracket from `p` up to `q`. */
  predicate CleanUpTo(b: string, p: nat, q: nat) {
    p <= q <= |b| && forall i | p <= i < q :: b[i] != '.' && b[i] != ']'
  }

  lemma CleanAt(b: string, p: nat, q: nat, s: string)
    requires CleanUpTo(b, p, q) && At(b, q, s) && Clean(s)
    ensures CleanUpTo(b, p, q + |s|)
  {
    forall i | q <= i < q + |s|
      ensures b[i] != '.' && b[i] != ']'
    {
      CharAt(b, q, s, i - q);
    }
  }

  lemma CleanStart(b: string, q: nat, s: string)
    requires At(b, q, s)
    ensures CleanUpTo(b, q, q)
  {}

  lemma SpaceIsClean(ws: string)
    requires AllSpace(ws)
    ensures Clean(ws)
  {}

  /** The opening bracket behind its name, and the white space around it. */
  lemma ArrayOpens(b: string, q: nat, u: bool, l: Layout, tabIn: bool) returns (v: nat)
    requires !l.comma && At(b, q, BeginArray(u, l, tabIn).text)
    ensures Spaced(b, q, v) && v < |b| && b[v] == '['
    ensures Spaced(b, v + 1, q + |BeginArray(u, l, tabIn).text|)
    ensures !tabIn ==> v + 1 == q + |BeginArray(u, l, tabIn).text|
    ensures BeginArray(u, l, tabIn).lay == Layout(l.indent + (if tabIn then TAB_SIZE else 0), false, tabIn)
  {
    hide Put, At, Spaced, IsSpace, AllSpace;
    var token := if tabIn then "[\n" else "[";
    var eol := if tabIn then "\n" else "";
    BlankIsSpace();
    PutIs(l, token);
    assert Separator(u, l, true) == Out("", l) by {
      NoSeparator(u, l);
    }
    assert "" + Put(l, token).text == Put(l, token).text;
    var k, t := SeparatorThenToken(b, q, u, l, true, token);
    v := t;
    assert token == "[" + eol;
    AtSplit(b, t, "[", eol);
    CharAt(b, t, "[", 0);
    StartSpaced(b, t + 1, eol);
    EolShape(l);
    SpaceEol(eol);
    SpacedAt(b, t + 1, t + 1, eol);
  }

  lemma NoSeparator(u: bool, l: Layout)
    requires !l.comma
    ensures Separator(u, l, true) == Out("", l)
  {}

  lemma SpaceEol(eol: string)
    requires eol == "" || eol == "\n"
    ensures AllSpace(eol)
  {}

  /** What reading of abbreviated contents gives: none of the bytes. */
  lemma AbbreviatedAt(b: string, p: nat, l: Layout, bytes: ByteVec, ws: string)
    requires |bytes| > BYTES_PER_LINE && AllSpace(ws)
    requires At(b, p, Contents(l, bytes, Abbreviated).text + (ws + "]"))
    ensures var end := p + |Contents(l, bytes, Abbreviated).text| + |ws| + 1;
            ReadContents(b, p, |bytes|) == Success((Zeros(|bytes|), Cursor(end, false)))
    ensures Contents(l, bytes, Abbreviated).lay == l.(newLine := false)
  {
    hide Contents, ReadContents, Fragment, At, Clean, AllSpace;
    AbbreviatedText(l, bytes);
    var x, y := bytes[..BYTES_PER_LINE / 2], bytes[|bytes| - BYTES_PER_LINE / 2..];
    var l' := l.(newLine := false);
    var a, f := Fragment(l, x).text, Fragment(l', y).text;
    EllipsisParts(b, p, a, f, ws + "]");
    FragmentAt(b, p, l, x, 0);
    FragmentAt(b, p + |a| + 5, l', y, 0);
    DiscardedAt(b, p, a, f, ws, |bytes|);
  }

  lemma AbbreviatedText(l: Layout, bytes: ByteVec)
    requires |bytes| > BYTES_PER_LINE
    ensures var l' := l.(newLine := false);
            && Contents(l, bytes, Abbreviated).text == Fragment(l, bytes[..BYTES_PER_LINE / 2]).text + " ... "
                                                       + Fragment(l', bytes[|bytes| - BYTES_PER_LINE / 2..]).text
            && Contents(l, bytes, Abbreviated).lay == l'
  {
    hide Fragment, Put;
    var x, y := bytes[..BYTES_PER_LINE / 2], bytes[|bytes| - BYTES_PER_LINE / 2..];
    var l' := l.(newLine := false);
    FragmentLay(l, x);
    PutIs(l', " ... ");
    FragmentLay(l', y);
    assert Put(l', " ... ").text == " ... ";
  }

  lemma FragmentLay(l: Layout, bytes: ByteVec)
    requires bytes != []
    ensures Fragment(l, bytes).lay == l.(newLine := false)
  {
    hide Fragment;
    var t := Fragment(l, bytes).text;
    assert t[0..0 + |t|] == t;
    FragmentAt(t, 0, l, bytes, 0);
  }

  lemma EllipsisParts(b: string, p: nat, a: string, f: string, end: string)
    requires At(b, p, a + " ... " + f + end)
    ensures At(b, p, a) && At(b, p + |a|, " ... ") && At(b, p + |a| + 5, f) && At(b, p + |a| + 5 + |f|, end)
  {
    hide At;
    AtSplit(b, p, a + " ... " + f, end);
    AtSplit(b, p, a + " ... ", f);
    AtSplit(b, p, a, " ... ");
  }

  /** Two clean texts with an ellipsis between them and a bracket behind. */
  lemma DiscardedAt(b: string, p: nat, a: string, f: string, ws: string, n: nat)
    requires Clean(a) && Clean(f) && AllSpace(ws)
    requires At(b, p, a) && At(b, p + |a|, " ... ") && At(b, p + |a| + 5, f) && At(b, p + |a| + 5 + |f|, ws + "]")
    ensures ReadContents(b, p, n) == Success((Zeros(n), Cursor(p + |a| + 5 + |f| + |ws| + 1, false)))
  {
    hide At, Find, FindDotOrBracket, Clean, CleanUpTo, AllSpace;
    var m := p + |a|;
    var end := m + 5 + |f| + |ws|;
    AtSplit(b, m + 5 + |f|, ws, "]");
    CharAt(b, end, "]", 0);
    DotsAt(b, p, a);
    SpaceIsClean(ws);
    CleanStart(b, m + 5, f);
    CleanAt(b, m + 5, m + 5, f);
    CleanAt(b, m + 5, m + 5 + |f|, ws);
    BracketAfterDots(b, p, m, end);
  }

  /** The first dot stands in the ellipsis. */
  lemma DotsAt(b: string, p: nat, a: string)
    requires At(b, p, a) && Clean(a) && At(b, p + |a|, " ... ")
    ensures FindDotOrBracket(b, p) == p + |a| + 1 && b[p + |a| + 1] == '.' && CleanUpTo(b, p, p + |a|)
    ensures forall i | p + |a| <= i < p + |a| + 5 :: b[i] != ']'
  {
    hide At, FindDotOrBracket;
    CleanStart(b, p, a);
    CleanAt(b, p, p, a);
    AtWithin(b, p + |a|, " ... ");
    forall i | p + |a| <= i < p + |a| + 5
      ensures b[i] == " ... "[i - p - |a|]
    {
      CharAt(b, p + |a|, " ... ", i - p - |a|);
    }
    FindDotTo(b, p, p + |a| + 1);
  }

  lemma BracketAfterDots(b: string, p: nat, m: nat, end: nat)
    requires CleanUpTo(b, p, m) && CleanUpTo(b, m + 5, end) && end < |b| && b[end] == ']'
    requires forall i | m <= i < m + 5 :: b[i] != ']'
    ensures Find(b, p, ']') == Success(end)
  {
    FindAt(b, p, end, ']');
  }

  /** Reading of contents that are not abbreviated gives the bytes back. */
  lemma RowsReadBack(b: string, p: nat, q: nat, l: Layout, bytes: ByteVec, indented: bool, ws: string)
    requires AllSpace(ws) && Spaced(b, p, q) && At(b, q, RowsOut(l, bytes, indented).text + (ws + "]"))
    ensures var end := q + |RowsOut(l, bytes, indented).text| + |ws| + 1;
            ReadContents(b, p, |bytes|) == Success((bytes, Cursor(end, true)))
    ensures var y := RowsOut(l, bytes, indented).lay; y.indent == l.indent && y.comma == l.comma
  {
    hide RowsOut, At, FindDotOrBracket, Clean, CleanUpTo, AllSpace, Spaced, Next, SkipSpace;
    var t := RowsOut(l, bytes, indented).text;
    AtSplit(b, q, t, ws + "]");
    AtSplit(b, q + |t|, ws, "]");
    var end := q + |t| + |ws|;
    CharAt(b, end, "]", 0);
    var e := RowsAt(b, p, q, l, bytes, indented, 0);
    SpacedAt(b, e, q + |t|, ws);
    BlankIsSpace();
    NextAt(b, e, end, ']');
    SpaceIsClean(ws);
    SpacedIsClean(b, p, q);
    CleanAt(b, p, q, t);
    CleanAt(b, p, q + |t|, ws);
    FindBracket(b, p, end);
  }

  lemma SpacedIsClean(b: string, p: nat, q: nat)
    requires Spaced(b, p, q)
    ensures CleanUpTo(b, p, q)
  {}

  lemma FindBracket(b: string, p: nat, end: nat)
    requires CleanUpTo(b, p, end) && end < |b| && b[end] == ']'
    ensures FindDotOrBracket(b, p) == end
  {
    FindDotTo(b, p, end);
  }

  /** What a buffer of the form reads back as. */
  function Recovered(bytes: ByteVec, form: Form): ByteVec {
    if form.Abbreviated? then Zeros(|bytes|) else bytes
  }

  lemma EndArrShape(l: Layout, tabOut: bool) returns (ws: string)
    ensures AllSpace(ws) && EndArr(l, tabOut).text == ws + "]"
    ensures EndArr(l, tabOut).lay == Layout(l.indent - (if tabOut then TAB_SIZE else 0), true, false)
  {
    ws := CloseShape(l, tabOut, ']');
  }

  /** Reading back brackets and contents. */
  lemma BracketedAt(b: string, q: nat, u: bool, l: Layout, bytes: ByteVec, form: Form) returns (v: nat)
    requires form.Abbreviated? ==> |bytes| > BYTES_PER_LINE
    requires !l.comma && At(b, q, Bracketed(u, l, bytes, form).text)
    ensures Spaced(b, q, v) && v < |b| && b[v] == '['
    ensures var end := q + |Bracketed(u, l, bytes, form).text|;
            ReadContents(b, v + 1, |bytes|) == Success((Recovered(bytes, form), Cursor(end, !form.Abbreviated?)))
    ensures Bracketed(u, l, bytes, form).lay == Layout(l.indent, true, false)
  {
    hide BeginArray, Contents, EndArr, Put, ReadContents, At, Spaced, AllSpace;
    var n := if form.OwnLine? then Put(l, "\n") else Out("", l);
    EolShape(l);
    var nl := n.lay.(indent := n.lay.indent + (if form.OwnLine? then TAB_SIZE else 0));
    var o := BeginArray(u, nl, form.Rows?);
    var c := Contents(o.lay, bytes, form);
    var ws := EndArrShape(c.lay, form.Rows?);
    AtSplit(b, q, n.text, o.text + (c.text + (ws + "]")));
    AtSplit(b, q + |n.text|, o.text, c.text + (ws + "]"));
    v := ArrayOpens(b, q + |n.text|, u, nl, form.Rows?);
    StartSpaced(b, q, n.text);
    SpacedAt(b, q, q, n.text);
    SpacedJoins(b, q, q + |n.text|, v);
    var m := q + |n.text| + |o.text|;
    if form.Abbreviated? {
      AbbreviatedAt(b, m, o.lay, bytes, ws);
    } else {
      ContentsAreRows(o.lay, bytes, form);
      RowsReadBack(b, v + 1, m, o.lay, bytes, form.Rows?, ws);
    }
  }

  lemma ContentsAreRows(l: Layout, bytes: ByteVec, form: Form)
    requires !form.Abbreviated?
    ensures Contents(l, bytes, form) == RowsOut(l, bytes, form.Rows?)
  {}

  lemma SpacedJoins(b: string, p: nat, q: nat, r: nat)
    requires Spaced(b, p, q) && Spaced(b, q, r)
    ensures Spaced(b, p, r)
  {}

  // ---------- buffers ----------

  /** Reading back a buffer written in any layout: it gives the bytes unless they were abbreviated, and
      ends behind the closing bracket. */
  lemma BufAt(b: string, p: nat, q: nat, c: Settings, prior: string, l: Layout, e: Entry, bytes: ByteVec)
    requires EntryOk(e) && |bytes| < WORD64 && Spaced(b, p, q) && At(b, q, BufOut(c, prior, l, e, bytes).text)
    ensures var form, end := FormAfter(c, prior, l, e, |bytes|), q + |BufOut(c, prior, l, e, bytes).text|;
            ReadBuf(c.useComma, b, Cursor(p, l.comma), e) == Success((Recovered(bytes, form), Cursor(end, !form.Abbreviated?)))
    ensures BufOut(c, prior, l, e, bytes).lay == Layout(l.indent, true, false)
  {
    hide Header, Bracketed, FormAfter, ReadHeader, ReadContents, SkipSpace, At, Spaced, IsSpace, EntryOk;
    var h, form := Header(c.useComma, l, e, |bytes|), FormAfter(c, prior, l, e, |bytes|);
    AtSplit(b, q, h.text, Bracketed(c.useComma, h.lay, bytes, form).text);
    HeaderLay(c.useComma, l, e, |bytes|);
    var v := BracketedAt(b, q + |h.text|, c.useComma, h.lay, bytes, form);
    BlankIsSpace();
    HeaderAt(b, p, q, c.useComma, l, e, |bytes|, v);
    SkipsSpace(b, v, v) by {
      SpacedOne(b, v);
    }
  }

  lemma SpacedOne(b: string, v: nat)
    requires v <= |b|
    ensures Spaced(b, v, v)
  {}

  lemma HeaderLay(u: bool, l: Layout, e: Entry, n: nat)
    requires EntryOk(e)
    ensures Header(u, l, e, n).lay == Layout(l.indent, false, false)
  {
    hide NamedEntry;
    NamedLay(u, l, e.sizeType, e.sizeName);
    NamedLay(u, Number(u, NamedEntry(u, l, e.sizeType, e.sizeName).lay, n).lay, e.ty, e.name);
    NumberIndent(u, Layout(l.indent, false, false), n);
  }

  lemma NumberIndent(u: bool, l: Layout, n: nat)
    requires !l.comma
    ensures Number(u, l, n).lay.indent == l.indent
  {}

  /** Hexadecimal digits are read in both cases. */
  lemma DigitsOfBothCases(d: nat)
    requires d < 16
    ensures HexVal("0123456789abcdef"[d]) == HexVal("0123456789ABCDEF"[d]) == d
  {}

  /** A buffer of `n` bytes is too long for a row and for the rest of its line, and for a line of its own
      behind the indentation and four blanks; and abbreviating is allowed. */
  predicate Shortened(c: Settings, n: nat, lineLen: nat, indent: nat) {
    && !c.precise && n > 32
    && lineLen <= c.maxLineLen <= lineLen + 2 * n + n / 4 + 1
    && indent + 4 <= c.maxLineLen <= indent + 4 + 2 * n + n / 4 + 1
  }

  /** The numbers do not come near the size of a word. */
  predicate Moderate(c: Settings, n: nat, lineLen: nat, indent: int) {
    n < 0x1000_0000_0000_0000 && lineLen < 0x1000_0000_0000_0000 && c.maxLineLen < 0x1000_0000_0000_0000
    && 0 <= indent < 0x1000_0000_0000_0000
  }

  /** The layout of a buffer in numbers of the call. A line over the limit, or an indentation over it,
      counts as having room. */
  lemma FormIs(c: Settings, n: nat, lineLen: nat, indent: nat)
    requires Moderate(c, n, lineLen, indent)
    ensures FormOf(c, n, lineLen, indent)
         == if c.maxLineLen < lineLen || lineLen + 2 * n + n / 4 + 1 < c.maxLineLen then SameLine
            else if n <= 32 || c.maxLineLen < indent + 4 || indent + 4 + 2 * n + n / 4 + 1 < c.maxLineLen then OwnLine
            else if c.precise then Rows
            else Abbreviated
    ensures FormOf(c, n, lineLen, indent).Abbreviated? <==> Shortened(c, n, lineLen, indent)
  {
    Wraps(n * 2 + (n / WORD_SIZE - 1) + 2);
    Wraps(c.maxLineLen - lineLen);
    Wraps(c.maxLineLen - indent - TAB_SIZE);
  }

  lemma Wraps(n: int)
    requires -0x4000_0000_0000_0000 < n < 0x4000_0000_0000_0000
    ensures U64(n) == if n >= 0 then n else n + WORD64
  {}

  /** The current line is what follows the last line break, the break included; the whole text if there
      is none. */
  lemma {:induction false} LineLenIs(text: string)
    ensures var p := |text| - CurLineLen(text, false);
            && (forall i | p < i < |text| :: text[i] != '\n')
            && (text != "" ==> p < |text| && (p == 0 || text[p] == '\n'))
  {
    if text != "" && text[|text| - 1] != '\n' {
      LineLenIs(text[..|text| - 1]);
    }
  }

  /** A buffer reads back identical exactly when it was not abbreviated or is all zeros; in precise mode
      it always does. */
  lemma BufReadsBackIff(b: string, q: nat, c: Settings, prior: string, l: Layout, e: Entry, bytes: ByteVec)
    requires EntryOk(e) && |bytes| < WORD64 && At(b, q, BufOut(c, prior, l, e, bytes).text)
    ensures var r := ReadBuf(c.useComma, b, Cursor(q, l.comma), e);
            var lineLen := CurLineLen(prior + Header(c.useComma, l, e, |bytes|).text, false);
            && r.Success?
            && (r.value.0 == bytes <==> !FormAfter(c, prior, l, e, |bytes|).Abbreviated? || bytes == Zeros(|bytes|))
            && (Moderate(c, |bytes|, lineLen, l.indent) ==>
                  (r.value.0 == bytes <==> !Shortened(c, |bytes|, lineLen, l.indent) || bytes == Zeros(|bytes|)))
    ensures c.precise ==> var end := q + |BufOut(c, prior, l, e, bytes).text|;
            ReadBuf(c.useComma, b, Cursor(q, l.comma), e) == Success((bytes, Cursor(end, true)))
  {
    hide BufOut, ReadBuf, At, FormOf, Header, CurLineLen, Shortened;
    HeaderLay(c.useComma, l, e, |bytes|);
    var lineLen := CurLineLen(prior + Header(c.useComma, l, e, |bytes|).text, false);
    if Moderate(c, |bytes|, lineLen, l.indent) {
      FormIs(c, |bytes|, lineLen, l.indent);
    }
    StartSpaced(b, q, BufOut(c, prior, l, e, bytes).text);
    BufAt(b, q, q, c, prior, l, e, bytes);
  }

  /** Buffers written one after another. */
  function BufsOut(c: Settings, prior: string, l: Layout, entries: seq<Entry>, bufs: seq<ByteVec>): Out
    requires |entries| == |bufs|
    decreases |bufs|
  {
    if bufs == [] then Out("", l) else
      var o := BufOut(c, prior, l, entries[0], bufs[0]);
      Then(o, BufsOut(c, prior + o.text, o.lay, entries[1..], bufs[1..]))
  }

  function ReadBufs(u: bool, b: string, r: Cursor, entries: seq<Entry>): (res: Result<(seq<ByteVec>, Cursor), TextError>)
    requires r.pos <= |b|
    ensures res.Success? ==> res.value.1.pos <= |b|
    decreases |entries|
  {
    if entries == [] then Success(([], r)) else
      var (x, r1) :- ReadBuf(u, b, r, entries[0]);
      var (xs, r2) :- ReadBufs(u, b, r1, entries[1..]);
      Success(([x] + xs, r2))
  }

  predicate BufsOk(entries: seq<Entry>, bufs: seq<ByteVec>) {
    |entries| == |bufs| && forall i | 0 <= i < |bufs| :: |bufs[i]| < WORD64 && EntryOk(entries[i])
  }

  /** In precise mode any buffers written one after another read back in order, whatever layouts the
      growing text makes the writer choose. */
  lemma {:induction false} PreciseBufsReadBack(b: string, q: nat, c: Settings, prior: string, l: Layout,
      entries: seq<Entry>, bufs: seq<ByteVec>)
    requires c.precise && BufsOk(entries, bufs) && At(b, q, BufsOut(c, prior, l, entries, bufs).text)
    ensures var o := BufsOut(c, prior, l, entries, bufs);
            ReadBufs(c.useComma, b, Cursor(q, l.comma), entries) == Success((bufs, Cursor(q + |o.text|, o.lay.comma)))
    decreases |bufs|
  {
    hide BufOut, ReadBuf, EntryOk, At;
    if bufs == [] {
      AtWithin(b, q, "");
    } else {
      var o := BufOut(c, prior, l, entries[0], bufs[0]);
      var rest := BufsOut(c, prior + o.text, o.lay, entries[1..], bufs[1..]);
      AtSplit(b, q, o.text, rest.text);
      PreciseBufAt(b, q, c, prior, l, entries[0], bufs[0]);
      PreciseBufsReadBack(b, q + |o.text|, c, prior + o.text, o.lay, entries[1..], bufs[1..]);
      ReadBufsStep(c.useComma, b, Cursor(q, l.comma), entries);
      assert [bufs[0]] + bufs[1..] == bufs;
    }
  }

  lemma PreciseBufAt(b: string, q: nat, c: Settings, prior: string, l: Layout, e: Entry, bytes: ByteVec)
    requires c.precise && EntryOk(e) && |bytes| < WORD64 && At(b, q, BufOut(c, prior, l, e, bytes).text)
    ensures var o := BufOut(c, prior, l, e, bytes);
            && q + |o.text| <= |b| && o.lay == Layout(l.indent, true, false)
            && ReadBuf(c.useComma, b, Cursor(q, l.comma), e) == Success((bytes, Cursor(q + |o.text|, true)))
  {
    hide BufOut, ReadBuf, FormAfter, EntryOk, At;
    var o := BufOut(c, prior, l, e, bytes);
    StartSpaced(b, q, o.text);
    AtWithin(b, q, o.text);
    BufAt(b, q, q, c, prior, l, e, bytes);
  }

  lemma ReadBufsStep(u: bool, b: string, r: Cursor, entries: seq<Entry>)
    requires entries != [] && r.pos <= |b| && ReadBuf(u, b, r, entries[0]).Success?
    ensures var x := ReadBuf(u, b, r, entries[0]).value;
            ReadBufs(u, b, r, entries) ==
            match ReadBufs(u, b, x.1, entries[1..])
            case Failure(e) => Failure(e)
            case Success(v) => Success(([x.0] + v.0, v.1))
  {
    hide ReadBuf;
  }

  // ---------- the line limit ----------

  lemma {:induction false} PairsLength(l: Layout, bytes: ByteVec)
    requires !l.newLine
    ensures |Pairs(l, bytes).text| == 2 * |bytes| && Pairs(l, bytes).lay == l
    decreases |bytes|
  {
    hide HexPair, Put;
    if bytes != [] {
      CleanPair(bytes[0]);
      PutIs(l, HexPair(bytes[0]));
      PairsLength(l, bytes[1..]);
    }
  }

  /** The blanks between `n` bytes, at most one for each full word but the last. */
  function Blanks(n: nat): nat {
    if n / WORD_SIZE > 0 then n / WORD_SIZE - 1 else 0
  }

  lemma {:induction false} FragmentLength(l: Layout, bytes: ByteVec)
    requires !l.newLine
    ensures |Fragment(l, bytes).text| == 2 * |bytes| + Blanks(|bytes|) && Fragment(l, bytes).lay == l
    decreases |bytes|
  {
    hide Pairs;
    if |bytes| < 2 * WORD_SIZE {
      PairsLength(l, bytes);
    } else {
      PairsLength(l, bytes[..WORD_SIZE]);
      PutIs(l, " ");
      FragmentLength(l, bytes[WORD_SIZE..]);
    }
  }

  lemma {:induction false} RowsLength(l: Layout, bytes: ByteVec)
    requires !l.newLine
    ensures |RowsOut(l, bytes, false).text| <= 2 * |bytes| + Blanks(|bytes|) && RowsOut(l, bytes, false).lay == l
    decreases |bytes|
  {
    hide Fragment;
    if |bytes| < BYTES_PER_LINE {
      FragmentLength(l, bytes);
    } else {
      FragmentLength(l, bytes[..BYTES_PER_LINE]);
      RowsLength(l, bytes[BYTES_PER_LINE..]);
    }
  }

  lemma BracketedLength(u: bool, l: Layout, bytes: ByteVec)
    requires !l.comma && !l.newLine
    ensures |Bracketed(u, l, bytes, SameLine).text| <= 2 * |bytes| + Blanks(|bytes|) + 2
  {
    hide RowsOut, Put, Blanks;
    var o := BeginArray(u, l, false);
    PutIs(l, "[");
    NoSeparator(u, l);
    RowsLength(o.lay, bytes);
    PutIs(o.lay, "]");
  }

  /** A buffer that stays on a line within the limit leaves the line within the limit. */
  lemma SameLineFits(c: Settings, l: Layout, bytes: ByteVec, lineLen: nat)
    requires !l.comma && !l.newLine && |bytes| < 0x1000_0000_0000_0000
    requires lineLen <= c.maxLineLen < WORD64 && FormOf(c, |bytes|, lineLen, l.indent).SameLine?
    ensures lineLen + |Bracketed(c.useComma, l, bytes, SameLine).text| <= c.maxLineLen
  {
    hide Bracketed;
    BracketedLength(c.useComma, l, bytes);
    FormLimits(c, |bytes|, lineLen, l.indent);
  }

  /** What the unsigned comparison means as long as nothing wraps around. */
  lemma FormLimits(c: Settings, n: nat, lineLen: nat, indent: int)
    requires lineLen <= c.maxLineLen < WORD64 && n < 0x1000_0000_0000_0000
    ensures FormOf(c, n, lineLen, indent).SameLine? <==> lineLen + 2 * n + n / WORD_SIZE + 1 < c.maxLineLen
    ensures 2 * n + Blanks(n) + 2 <= 2 * n + n / WORD_SIZE + 2
  {
    var size := n * 2 + (n / WORD_SIZE - 1) + 2;
    assert 0 <= size < WORD64;
    assert U64(size) == size && U64(c.maxLineLen - lineLen) == c.maxLineLen - lineLen;
  }

  /** A line that is already over the limit is never broken: the unsigned difference wraps around. */
  lemma OverlongLineStays(c: Settings, n: nat, lineLen: nat, indent: int)
    requires n < 0x1000_0000_0000_0000 && c.maxLineLen < lineLen < 0x4000_0000_0000_0000
    ensures FormOf(c, n, lineLen, indent) == SameLine
  {
    assert U64(c.maxLineLen - lineLen) == c.maxLineLen - lineLen + WORD64;
  }
}
