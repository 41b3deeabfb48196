/** The byte buffer operations of the PlainTextSerializer object (Serialize.cpp), step by step on the
    shared text serializer. */
module PlainTextSerializers {
  import opened Bytes
  import opened Wrappers
  import opened HexText
  import opened JsonText
  import opened PlainText
  import opened PlainTextRoundTrip
  import opened TextSerializers

  class PlainTextSerializer {
    const text: TextSerializer
    const precise: bool
    const maxLineLen: nat
    var useComma: bool

    constructor (precise: bool, maxLineLen: nat)
      ensures fresh(text) && text.Started("") && Sets() == Settings(false, precise, maxLineLen)
    {
      this.precise, this.maxLineLen, useComma := precise, maxLineLen, false;
      text := new TextSerializer();
    }

    function Sets(): Settings
      reads this
    {
      Settings(useComma, precise, maxLineLen)
    }

    /** The names given to the serializer. */
    ghost predicate Given(e: Entry)
      reads text
    {
      EntryOk(e) && e == Entry(text.valName, text.valType, text.sizeName, text.sizeType)
    }

    // ---------- writing ----------

    method WriteComma(line: bool)
      modifies text`buf, text`newLine
      ensures text.Wrote(Separator(useComma, old(text.Lay()), line))
    {
      if useComma {
        text.WriteComma(line);
      } else if text.commaExpected {
        text.WriteLine("");
        assert "" + "\n" == "\n";
      }
    }

    method BeginWriteNamedEntry()
      requires text.valName != "" && text.valType != ""
      modifies text`buf, text`newLine, text`commaExpected, text`valName, text`valType
      ensures text.Wrote(NamedEntry(useComma, old(text.Lay()), old(text.valType), old(text.valName)))
      ensures text.valName == text.valType == ""
    {
      hide Separator;
      WriteComma(true);
      text.Write(text.valType + " " + text.valName + " = ");
      text.valName, text.valType := "", "";
      text.commaExpected := false;
    }

    method WriteNum(val: nat)
      modifies text`buf, text`newLine, text`commaExpected
      ensures text.Wrote(Number(useComma, old(text.Lay()), val))
    {
      hide Separator, Decimal, ToHex;
      WriteComma(false);
      WriteDigits(val);
      assert text.buf == old(text.buf) + Number(useComma, old(text.Lay()), val).text;
    }

    /** A number in decimal, and in hexadecimal behind it. */
    method WriteDigits(val: nat)
      modifies text`buf, text`newLine, text`commaExpected
      ensures var d := Put(old(text.Lay()), Decimal(val));
              var h := Put(d.lay, " (0x" + ToHex(val, 0) + ")");
              text.Wrote(Out(d.text + h.text, h.lay.(comma := true)))
    {
      hide Put, Decimal, ToHex;
      ghost var d := Put(text.Lay(), Decimal(val));
      text.Write(Decimal(val));
      text.Write(" (0x" + ToHex(val, 0) + ")");
      text.commaExpected := true;
      assert text.buf == old(text.buf) + (d.text + Put(d.lay, " (0x" + ToHex(val, 0) + ")").text);
    }

    method WriteArrSize(size: nat)
      requires text.sizeName != "" && text.sizeType != ""
      modifies text`buf, text`newLine, text`commaExpected, text`valName, text`valType, text`sizeName, text`sizeType
      ensures var e := NamedEntry(useComma, old(text.Lay()), old(text.sizeType), old(text.sizeName));
              text.Wrote(Then(e, Number(useComma, e.lay, size)))
      ensures text.valName == old(text.valName) && text.valType == old(text.valType)
    {
      hide NamedEntry, Number;
      text.BeginArrSizeOp();
      BeginWriteNamedEntry();
      WriteNum(size);
      text.EndArrSizeOp();
    }

    method BeginWriteArr(tabIn: bool)
      modifies text`buf, text`newLine, text`commaExpected, text`indent
      ensures text.Wrote(BeginArray(useComma, old(text.Lay()), tabIn))
    {
      hide Separator;
      WriteComma(true);
      if tabIn {
        text.WriteLine("[");
        assert "[" + "\n" == "[\n";
        text.indent := text.indent + TAB_SIZE;
      } else {
        text.Write("[");
      }
      text.commaExpected := false;
    }

    /** The bytes with indices from `from` up to `to`. */
    method WritePairs(bytes: ByteVec, from: nat, to: nat)
      requires from <= to <= |bytes|
      modifies text`buf, text`newLine
      ensures text.Wrote(Pairs(old(text.Lay()), bytes[from..to]))
    {
      hide HexPair, Put;
      ghost var l0, b0 := text.Lay(), text.buf;
      var j := from;
      while j < to
        invariant from <= j <= to && text.indent == old(text.indent)
        invariant text.buf + Pairs(text.Lay(), bytes[j..to]).text == b0 + Pairs(l0, bytes[from..to]).text
        invariant Pairs(text.Lay(), bytes[j..to]).lay == Pairs(l0, bytes[from..to]).lay
      {
        ghost var h := Put(text.Lay(), HexPair(bytes[j]));
        assert bytes[j..to][1..] == bytes[j + 1..to];
        assert text.buf + (h.text + Pairs(h.lay, bytes[j + 1..to]).text) == text.buf + h.text + Pairs(h.lay, bytes[j + 1..to]).text;
        text.Write(HexPair(bytes[j]));
        j := j + 1;
      }
      assert text.buf + "" == text.buf;
    }

    /** WriteByteBufFrag. */
    method WriteByteBufFrag(bytes: ByteVec, start: nat, len: nat)
      requires start + len <= |bytes|
      modifies text`buf, text`newLine
      ensures text.Wrote(Fragment(old(text.Lay()), bytes[start..start + len]))
    {
      hide Pairs, Fragment, Put;
      ghost var l0, b0, stop := text.Lay(), text.buf, start + len;
      var pos := start;
      var end := pos + len / WORD_SIZE * WORD_SIZE;
      while pos < end
        invariant start <= pos <= end <= stop && end - pos == (stop - pos) / WORD_SIZE * WORD_SIZE
        invariant text.buf + Fragment(text.Lay(), bytes[pos..stop]).text == b0 + Fragment(l0, bytes[start..stop]).text
        invariant Fragment(text.Lay(), bytes[pos..stop]).lay == Fragment(l0, bytes[start..stop]).lay
      {
        FragmentStep(text.Lay(), bytes[pos..stop], text.buf);
        assert bytes[pos..stop][..WORD_SIZE] == bytes[pos..pos + WORD_SIZE];
        assert bytes[pos..stop][WORD_SIZE..] == bytes[pos + WORD_SIZE..stop];
        WritePairs(bytes, pos, pos + WORD_SIZE);
        pos := pos + WORD_SIZE;
        if pos < end {
          text.Write(" ");
        }
      }
      end := end + len % WORD_SIZE;
      FragmentIsPairs(text.Lay(), bytes[pos..stop]);
      WritePairs(bytes, pos, end);
    }

    /** writeSizedByteBuf. */
    method WriteSizedByteBuf(bytes: ByteVec, ghost e: Entry)
      requires Given(e)
      modifies text
      ensures text.Wrote(BufOut(Sets(), old(text.buf), old(text.Lay()), e, bytes)) && text.pos == old(text.pos)
    {
      hide NamedEntry, Number, Bracketed, LastEol;
      ghost var b0 := text.buf;
      WriteArrSize(|bytes|);
      BeginWriteNamedEntry();
      ghost var h := Header(useComma, old(text.Lay()), e, |bytes|);
      assert text.buf == b0 + h.text;
      var lineLen := CurLineLen(text.buf, text.newLine);
      WriteBracketed(bytes, FormOf(Sets(), |bytes|, lineLen, text.indent));
    }

    /** The part of writeSizedByteBuf behind the choice of the form. */
    method WriteBracketed(bytes: ByteVec, form: Form)
      requires form.Abbreviated? ==> |bytes| > BYTES_PER_LINE
      modifies text`buf, text`newLine, text`commaExpected, text`indent
      ensures text.Wrote(Bracketed(useComma, old(text.Lay()), bytes, form))
    {
      hide BeginArray, Contents, EndArr, Put;
      ghost var b0, l0 := text.buf, text.Lay();
      ghost var n := if form.OwnLine? then Put(l0, "\n") else Out("", l0);
      if form.OwnLine? {
        assert "" + "\n" == "\n";
        text.WriteLine("");
        text.indent := text.indent + TAB_SIZE;
      }
      assert text.buf == b0 + n.text;
      ghost var o := BeginArray(useComma, text.Lay(), form.Rows?);
      BeginWriteArr(form.Rows?);
      ghost var c := Contents(o.lay, bytes, form);
      WriteContents(bytes, form);
      FourTexts(b0, n.text, o.text, c.text, EndArr(c.lay, form.Rows?).text);
      text.EndWriteArr(form.Rows?);
      if form.OwnLine? {
        text.indent := text.indent - TAB_SIZE;
      }
    }

    method WriteContents(bytes: ByteVec, form: Form)
      requires form.Abbreviated? ==> |bytes| > BYTES_PER_LINE
      modifies text`buf, text`newLine
      ensures text.Wrote(Contents(old(text.Lay()), bytes, form))
    {
      hide Fragment, RowsOut;
      if form.Abbreviated? {
        WriteByteBufFrag(bytes, 0, BYTES_PER_LINE / 2);
        text.Write(" ... ");
        assert bytes[|bytes| - BYTES_PER_LINE / 2..|bytes| - BYTES_PER_LINE / 2 + BYTES_PER_LINE / 2] == bytes[|bytes| - BYTES_PER_LINE / 2..];
        WriteByteBufFrag(bytes, |bytes| - BYTES_PER_LINE / 2, BYTES_PER_LINE / 2);
      } else {
        WriteRows(bytes, form.Rows?);
      }
    }

    method WriteRows(bytes: ByteVec, indented: bool)
      modifies text`buf, text`newLine
      ensures text.Wrote(RowsOut(old(text.Lay()), bytes, indented))
    {
      hide Fragment, RowsOut, Put;
      ghost var l0, b0 := text.Lay(), text.buf;
      var row: nat, fullRows := 0, |bytes| / BYTES_PER_LINE;
      assert bytes[0..] == bytes;
      while row < fullRows
        invariant row <= fullRows
        invariant text.buf + RowsOut(text.Lay(), bytes[row * BYTES_PER_LINE..], indented).text == b0 + RowsOut(l0, bytes, indented).text
        invariant RowsOut(text.Lay(), bytes[row * BYTES_PER_LINE..], indented).lay == RowsOut(l0, bytes, indented).lay
      {
        ghost var from := row * BYTES_PER_LINE;
        RowsStep(text.Lay(), bytes[from..], indented, text.buf);
        assert bytes[from..][..BYTES_PER_LINE] == bytes[from..from + BYTES_PER_LINE];
        assert bytes[from..][BYTES_PER_LINE..] == bytes[from + BYTES_PER_LINE..];
        WriteByteBufFrag(bytes, row * BYTES_PER_LINE, BYTES_PER_LINE);
        row := row + 1;
        if indented {
          text.WriteLine("");
          assert "" + "\n" == "\n";
        }
      }
      var rest := |bytes| % BYTES_PER_LINE;
      assert bytes[row * BYTES_PER_LINE..row * BYTES_PER_LINE + rest] == bytes[row * BYTES_PER_LINE..];
      RowsEnd(text.Lay(), bytes[row * BYTES_PER_LINE..], indented);
      WriteByteBufFrag(bytes, row * BYTES_PER_LINE, rest);
    }

    // ---------- reading ----------

    method ReadCommas() returns (r: Outcome<TextError>)
      requires text.pos <= |text.buf|
      modifies text`pos
      ensures match ReadSeparator(useComma, text.buf, old(text.pos), text.commaExpected)
              case Failure(e) => r == Fail(e)
              case Success(p) => r.Pass? && text.pos == p
    {
      hide ReadComma;
      r := Pass;
      if useComma {
        r := text.ReadCommas();
      }
    }

    /** Next for a text: character by character. */
    method NextToken(token: string) returns (r: Outcome<TextError>)
      requires text.pos <= |text.buf|
      modifies text`pos
      ensures match NextText(text.buf, old(text.pos), token)
              case Failure(e) => r == Fail(e)
              case Success(p) => r.Pass? && text.pos == p
    {
      hide SkipSpace;
      r := text.SkipSpaces();
      if r.Fail? {
        return;
      }
      var i: nat := 0;
      while i < |token|
        invariant i <= |token| && text.pos + i <= |text.buf| && token[..i] == text.buf[text.pos..text.pos + i]
      {
        if text.pos + i >= |text.buf| || text.buf[text.pos + i] != token[i] {
          NoPrefix(token, text.buf[text.pos..], i);
          return Fail(MissingText(token, text.pos));
        }
        i := i + 1;
      }
      assert text.buf[text.pos..][..i] == token;
      text.pos := text.pos + i;
    }

    method BeginReadNamedEntry() returns (r: Outcome<TextError>)
      requires text.pos <= |text.buf| && text.valName != "" && text.valType != ""
      modifies text`pos, text`commaExpected
      ensures match ReadNamed(useComma, text.buf, Cursor(old(text.pos), old(text.commaExpected)), text.valType, text.valName)
              case Failure(e) => r == Fail(e)
              case Success(c) => r.Pass? && text.ReadTo(text.buf, c)
    {
      hide SkipSpace, ReadSeparator, NextText, Next;
      r := text.SkipSpaces();
      if r.Fail? {
        return;
      }
      r := ReadCommas();
      if r.Fail? {
        return;
      }
      r := NextToken(text.valType);
      if r.Fail? {
        return;
      }
      r := text.SkipSpaces();
      if r.Fail? {
        return;
      }
      r := NextToken(text.valName);
      if r.Fail? {
        return;
      }
      r := text.NextToken('=');
      if r.Fail? {
        return;
      }
      r := text.SkipSpaces();
      if r.Fail? {
        return;
      }
      text.commaExpected := false;
    }

    /** NextHexCopy. */
    method ReadHexCopy(val: nat) returns (r: Outcome<TextError>)
      requires text.pos <= |text.buf|
      modifies text`pos
      ensures match NextHexCopy(text.buf, old(text.pos), val)
              case Failure(e) => r == Fail(e)
              case Success(p) => r.Pass? && text.pos == p
    {
      hide NextText, Find, FromHex;
      r := NextToken("(0x");
      if r.Fail? {
        return;
      }
      var b := text.pos;
      r := text.FindToken(')');
      if r.Fail? {
        return;
      }
      var hex := text.buf[b..text.pos];
      if val != FromHex(hex) {
        return Fail(HexMismatch(val, hex));
      }
      text.pos := text.pos + 1;
    }

    method ReadNum() returns (r: Result<nat, TextError>)
      requires text.pos <= |text.buf|
      modifies text`pos, text`commaExpected
      ensures match PlainText.ReadNumber(useComma, text.buf, Cursor(old(text.pos), old(text.commaExpected)))
              case Failure(e) => r == Failure(e)
              case Success(x) => r == Success(x.0) && text.ReadTo(text.buf, x.1)
    {
      hide SkipSpace, ReadSeparator, Stoull, NextHexCopy;
      var ok := ReadCommas();
      if ok.Fail? {
        return Failure(ok.error);
      }
      text.commaExpected := true;
      ok := text.SkipSpaces();
      if ok.Fail? {
        return Failure(ok.error);
      }
      var b := text.pos;
      while text.pos < |text.buf| && IsDNum(text.buf[text.pos])
        invariant b <= text.pos <= |text.buf| && DNumEnd(text.buf, b) == DNumEnd(text.buf, text.pos) && text.commaExpected
      {
        text.pos := text.pos + 1;
      }
      r := Stoull(text.buf[b..text.pos]);
      if r.Failure? {
        return;
      }
      ok := ReadHexCopy(r.value);
      if ok.Fail? {
        return Failure(ok.error);
      }
    }

    /** The size under its own name, and the name of the buffer. */
    method ReadSizeAndName(ghost e: Entry) returns (r: Result<nat, TextError>)
      requires text.pos <= |text.buf| && Given(e)
      modifies text`pos, text`commaExpected, text`valName, text`valType, text`sizeName, text`sizeType
      ensures match ReadHeader(useComma, text.buf, Cursor(old(text.pos), old(text.commaExpected)), e)
              case Failure(x) => r == Failure(x)
              case Success(x) => r == Success(x.0) && text.ReadTo(text.buf, x.1)
    {
      hide ReadNamed, PlainText.ReadNumber;
      text.BeginArrSizeOp();
      var ok := BeginReadNamedEntry();
      if ok.Fail? {
        return Failure(ok.error);
      }
      r := ReadNum();
      if r.Failure? {
        return;
      }
      text.EndArrSizeOp();
      ok := BeginReadNamedEntry();
      if ok.Fail? {
        return Failure(ok.error);
      }
    }

    /** readSizedByteBuf. */
    method ReadSizedByteBuf(ghost e: Entry) returns (r: Result<ByteVec, TextError>)
      requires text.pos <= |text.buf| && Given(e)
      modifies text`pos, text`commaExpected, text`valName, text`valType, text`sizeName, text`sizeType
      ensures match ReadBuf(useComma, text.buf, Cursor(old(text.pos), old(text.commaExpected)), e)
              case Failure(x) => r == Failure(x)
              case Success(x) => r == Success(x.0) && text.ReadTo(text.buf, x.1)
    {
      hide ReadHeader, ReadSeparator, Next, PlainText.ReadContents;
      var size := ReadSizeAndName(e);
      if size.Failure? {
        return Failure(size.error);
      }
      var ok := ReadCommas();
      if ok.Fail? {
        return Failure(ok.error);
      }
      ok := text.NextToken('[');
      if ok.Fail? {
        return Failure(ok.error);
      }
      text.commaExpected := false;
      r := ReadBytesOrSkip(size.value);
    }

    /** The part of readSizedByteBuf behind the opening bracket. */
    method ReadBytesOrSkip(size: nat) returns (r: Result<ByteVec, TextError>)
      requires text.pos <= |text.buf| && !text.commaExpected
      modifies text`pos, text`commaExpected
      ensures match ReadContents(text.buf, old(text.pos), size)
              case Failure(x) => r == Failure(x)
              case Success(x) => r == Success(x.0) && text.ReadTo(text.buf, x.1)
    {
      hide FindDotOrBracket, Find, ReadPairs, Next;
      var dot := FindDotOrBracket(text.buf, text.pos);
      if dot < |text.buf| && text.buf[dot] == '.' {
        var found := text.FindToken(']');
        if found.Fail? {
          return Failure(found.error);
        }
        text.pos := text.pos + 1;
        return Success(Zeros(size));
      }
      r := ReadByteList(size);
      if r.Failure? {
        return;
      }
      var ok := text.EndRead(']');
      if ok.Fail? {
        return Failure(ok.error);
      }
    }

    /** The loop of readSizedByteBuf. */
    method ReadByteList(size: nat) returns (r: Result<ByteVec, TextError>)
      requires text.pos <= |text.buf|
      modifies text`pos
      ensures match ReadPairs(text.buf, old(text.pos), 0, size)
              case Failure(x) => r == Failure(x)
              case Success(x) => r == Success(x.0) && text.pos == x.1
    {
      hide SkipSpace, StoiByte, ReadPairs;
      ghost var all := ReadPairs(text.buf, text.pos, 0, size);
      var bytes: ByteVec := [];
      NothingInFront(all);
      var i: nat := 0;
      while i < size
        invariant i <= size && text.pos <= |text.buf|
        invariant all == InFront(bytes, ReadPairs(text.buf, text.pos, i, size - i))
      {
        PairStep(bytes, text.buf, text.pos, i, size - i);
        if i % WORD_SIZE == 0 {
          var ok := text.SkipSpaces();
          if ok.Fail? {
            return Failure(ok.error);
          }
        }
        if text.pos + 2 > |text.buf| {
          return Failure(PrematureEnd(text.pos));
        }
        var v := StoiByte(text.buf[text.pos..text.pos + 2]);
        if v.Failure? {
          return Failure(v.error);
        }
        text.pos := text.pos + 2;
        bytes := bytes + [v.value];
        i := i + 1;
      }
      NoneToRead(text.buf, text.pos, i);
      assert bytes + [] == bytes;
      r := Success(bytes);
    }

    /** Writing a buffer in precise mode and reading it from the text gives it back. */
    method RoundTrip(bytes: ByteVec, e: Entry) returns (r: Result<ByteVec, TextError>)
      requires precise && EntryOk(e) && |bytes| < WORD64
      modifies text
      ensures r == Success(bytes) && text.pos == |text.buf|
    {
      hide EntryOk, BufOut, ReadBuf;
      text.Reset("");
      text.With(e.name, e.ty, e.sizeName, e.sizeType);
      WriteSizedByteBuf(bytes, e);
      var written := text.buf;
      ghost var o := BufOut(Sets(), "", START, e, bytes);
      assert written == "" + o.text == o.text && written[0..|written|] == written;
      text.Reset(written);
      text.With(e.name, e.ty, e.sizeName, e.sizeType);
      PreciseBufAt(written, 0, Sets(), "", START, e, bytes);
      r := ReadSizedByteBuf(e);
    }
  }

  // ---------- steps ----------

  lemma NoPrefix(token: string, s: string, i: nat)
    requires i < |token| && (i >= |s| || s[i] != token[i])
    ensures !(token <= s)
  {}

  lemma FourTexts(b: string, x: string, y: string, z: string, w: string)
    ensures b + x + y + z + w == b + (x + (y + (z + w)))
  {}

  lemma {:induction false} PairsSplit(l: Layout, x: ByteVec, y: ByteVec)
    ensures Pairs(l, x + y) == Then(Pairs(l, x), Pairs(Pairs(l, x).lay, y))
    decreases |x|
  {
    hide HexPair, Put;
    if x == [] {
      assert x + y == y;
      assert "" + Pairs(l, y).text == Pairs(l, y).text;
    } else {
      var h := Put(l, HexPair(x[0]));
      assert (x + y)[1..] == x[1..] + y;
      PairsSplit(h.lay, x[1..], y);
      assert h.text + (Pairs(h.lay, x[1..]).text + Pairs(Pairs(h.lay, x[1..]).lay, y).text)
          == h.text + Pairs(h.lay, x[1..]).text + Pairs(Pairs(h.lay, x[1..]).lay, y).text;
    }
  }

  /** A word, the blank behind it if another word follows, and the rest, behind the text `b`. */
  lemma FragmentStep(l: Layout, bytes: ByteVec, b: string)
    requires |bytes| >= WORD_SIZE
    ensures var w := Pairs(l, bytes[..WORD_SIZE]);
            var s := if |bytes| >= 2 * WORD_SIZE then Put(w.lay, " ") else Out("", w.lay);
            var rest := Fragment(s.lay, bytes[WORD_SIZE..]);
            && b + Fragment(l, bytes).text == b + w.text + s.text + rest.text
            && Fragment(l, bytes).lay == rest.lay
  {
    hide Pairs, Put;
    var x, y := bytes[..WORD_SIZE], bytes[WORD_SIZE..];
    var w := Pairs(l, x);
    if |bytes| < 2 * WORD_SIZE {
      assert bytes == x + y;
      PairsSplit(l, x, y);
      assert b + (w.text + Pairs(w.lay, y).text) == b + w.text + "" + Pairs(w.lay, y).text;
    } else {
      var s := Put(w.lay, " ");
      assert b + (w.text + s.text + Fragment(s.lay, y).text) == b + w.text + s.text + Fragment(s.lay, y).text;
    }
  }

  lemma FragmentIsPairs(l: Layout, bytes: ByteVec)
    requires |bytes| < 2 * WORD_SIZE
    ensures Fragment(l, bytes) == Pairs(l, bytes)
  {}

  lemma RowsStep(l: Layout, bytes: ByteVec, indented: bool, b: string)
    requires |bytes| >= BYTES_PER_LINE
    ensures var f := Fragment(l, bytes[..BYTES_PER_LINE]);
            var e := if indented then Put(f.lay, "\n") else Out("", f.lay);
            var rest := RowsOut(e.lay, bytes[BYTES_PER_LINE..], indented);
            && b + RowsOut(l, bytes, indented).text == b + f.text + e.text + rest.text
            && RowsOut(l, bytes, indented).lay == rest.lay
  {
    hide Fragment, Put;
    var f := Fragment(l, bytes[..BYTES_PER_LINE]);
    var e := if indented then Put(f.lay, "\n") else Out("", f.lay);
    var rest := RowsOut(e.lay, bytes[BYTES_PER_LINE..], indented);
    assert b + (f.text + e.text + rest.text) == b + f.text + e.text + rest.text;
  }

  lemma RowsEnd(l: Layout, bytes: ByteVec, indented: bool)
    requires |bytes| < BYTES_PER_LINE
    ensures RowsOut(l, bytes, indented) == Fragment(l, bytes)
  {}

  /** What was read before, in front of the rest. */
  function InFront(bytes: ByteVec, r: Result<(ByteVec, nat), TextError>): Result<(ByteVec, nat), TextError> {
    match r
    case Failure(e) => Failure(e)
    case Success(x) => Success((bytes + x.0, x.1))
  }

  lemma NothingInFront(r: Result<(ByteVec, nat), TextError>)
    ensures InFront([], r) == r
  {
    if r.Success? {
      assert [] + r.value.0 == r.value.0;
    }
  }

  lemma NoneToRead(b: string, p: nat, i: nat)
    requires p <= |b|
    ensures ReadPairs(b, p, i, 0) == Success(([], p))
  {}

  lemma PairStep(bytes: ByteVec, b: string, p: nat, i: nat, n: nat)
    requires p <= |b| && n > 0
    ensures InFront(bytes, ReadPairs(b, p, i, n)) == (
              var skip := if i % WORD_SIZE == 0 then SkipSpace(b, p) else Success(p);
              match skip
              case Failure(e) => Failure(e)
              case Success(q) =>
                if q + 2 > |b| then Failure(PrematureEnd(q)) else
                  match StoiByte(b[q..q + 2])
                  case Failure(e) => Failure(e)
                  case Success(v) => InFront(bytes + [v], ReadPairs(b, q + 2, i + 1, n - 1)))
  {
    hide SkipSpace, StoiByte;
    var skip := if i % WORD_SIZE == 0 then SkipSpace(b, p) else Success(p);
    if skip.Success? && skip.value + 2 <= |b| {
      var v := StoiByte(b[skip.value..skip.value + 2]);
      var rest := ReadPairs(b, skip.value + 2, i + 1, n - 1);
      if v.Success? && rest.Success? {
        assert bytes + ([v.value] + rest.value.0) == bytes + [v.value] + rest.value.0;
      }
    }
  }
}
