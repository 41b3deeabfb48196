/** The JsonSerializer object (Serialize.cpp): printing and parsing step by step on the shared text
    serializer. A structure's generated Serialize and Deserialize methods are walks over its fields. */
module JsonSerializers {
  import opened Bytes
  import opened Wrappers
  import opened Sequences
  import opened JsonText
  import opened JsonRoundTrip
  import opened TextSerializers

  class JsonSerializer {
    const text: TextSerializer

    /** An empty serializer, ready to write. */
    constructor ()
      ensures fresh(text) && text.Started("")
    {
      text := new TextSerializer();
    }

    // ---------- writing ----------

    method BeginWriteNamedEntry()
      modifies text`buf, text`newLine, text`commaExpected, text`valName
      ensures text.Wrote(NameEntry(old(text.Lay()), old(text.valName))) && text.valName == ""
    {
      if text.valName != "" {
        text.WriteComma(true);
        text.Write([QUOTE] + text.valName + [QUOTE] + " : ");
      }
      text.valName := "";
      text.commaExpected := false;
    }

    method WriteNum(val: nat)
      modifies text`buf, text`newLine, text`commaExpected
      ensures text.Wrote(Num(old(text.Lay()), val))
    {
      text.WriteComma(false);
      text.Write(Decimal(val));
      text.commaExpected := true;
    }

    method WriteNumEntry(val: nat)
      modifies text`buf, text`newLine, text`commaExpected, text`valName
      ensures text.Wrote(NumEntry(old(text.Lay()), old(text.valName), val)) && text.valName == ""
    {
      BeginWriteNamedEntry();
      WriteNum(val);
    }

    /** The size goes under its own name; the array keeps the name given to it. */
    method WriteArrSize(size: nat)
      modifies text`buf, text`newLine, text`commaExpected, text`valName, text`valType, text`sizeName, text`sizeType
      ensures text.Wrote(NumEntry(old(text.Lay()), old(text.sizeName), size)) && text.valName == old(text.valName) && text.sizeName == ""
    {
      text.BeginArrSizeOp();
      WriteNumEntry(size);
      text.EndArrSizeOp();
    }

    /** writeSizedByteBuf. */
    method WriteSizedByteBuf(bytes: ByteVec, ghost f: FieldS)
      requires f.name == text.valName && f.sizeName == text.sizeName && f.shape.BytesS? && FieldTyped(f, BytesV(bytes))
      modifies text
      ensures text.Wrote(FieldOut(old(text.Lay()), f, BytesV(bytes))) && text.pos == old(text.pos)
    {
      hide NumEntry, NameEntry, BeginArr, EndArr, Nums;
      WriteArrSize(|bytes|);
      BeginWriteNamedEntry();
      text.BeginWriteArr(false);
      WriteBytes(bytes);
      text.EndWriteArr(false);
    }

    /** The loop of writeSizedByteBuf. */
    method WriteBytes(bytes: ByteVec)
      modifies text`buf, text`newLine, text`commaExpected, text`indent
      ensures text.Wrote(Nums(old(text.Lay()), bytes))
    {
      hide Num;
      ghost var l0, b0 := text.Lay(), text.buf;
      var i := 0;
      assert text.buf + Nums(l0, bytes).text == b0 + Nums(l0, bytes).text && bytes[0..] == bytes;
      while i < |bytes|
        invariant i <= |bytes|
        invariant text.buf + Nums(text.Lay(), bytes[i..]).text == b0 + Nums(l0, bytes).text
        invariant Nums(text.Lay(), bytes[i..]).lay == Nums(l0, bytes).lay
      {
        ghost var n := Num(text.Lay(), bytes[i] as nat);
        assert bytes[i..][1..] == bytes[i + 1..];
        assert text.buf + (n.text + Nums(n.lay, bytes[i + 1..]).text) == text.buf + n.text + Nums(n.lay, bytes[i + 1..]).text;
        WriteNum(bytes[i] as nat);
        i := i + 1;
      }
      assert text.buf + "" == text.buf;
    }

    /** WriteObj: braces around what the structure's Serialize method writes. */
    method WriteObj(fields: seq<FieldS>, vals: seq<Val>)
      requires AllTyped(fields, vals)
      modifies text
      ensures text.Wrote(ObjOut(old(text.Lay()), fields, vals)) && text.pos == old(text.pos)
      decreases vals, 2
    {
      hide BeginObj, EndObj, FieldsOut;
      text.BeginWriteObj();
      SerializeFields(fields, vals);
      text.EndWriteObj();
    }

    /** A structure's Serialize method. */
    method SerializeFields(fields: seq<FieldS>, vals: seq<Val>)
      requires AllTyped(fields, vals)
      modifies text
      ensures text.Wrote(FieldsOut(old(text.Lay()), fields, vals)) && text.pos == old(text.pos)
      decreases vals, 1
    {
      hide FieldOut;
      if vals != [] {
        SerializeField(fields[0], vals[0]);
        SerializeFields(fields[1..], vals[1..]);
      }
    }

    method SerializeField(f: FieldS, v: Val)
      requires FieldTyped(f, v)
      modifies text
      ensures text.Wrote(FieldOut(old(text.Lay()), f, v)) && text.pos == old(text.pos)
      decreases v, 4
    {
      hide NumEntry, NameEntry, ObjOut, ObjsOut, ArrStart, Nums, EndArr;
      text.With(f.name, "", f.sizeName, "");
      match f.shape {
        case NumS => WriteNumEntry(v.n);
        case BytesS => WriteSizedByteBuf(v.bytes, f);
        case ObjS(fields) =>
          BeginWriteNamedEntry();
          WriteObj(fields, v.vals);
        case ArrS(fields) => WriteObjArr(fields, v.elems, f);
      }
    }

    /** writeObjArr. */
    method WriteObjArr(fields: seq<FieldS>, elems: seq<Val>, ghost f: FieldS)
      requires f.name == text.valName && f.sizeName == text.sizeName && f.shape == ArrS(fields) && FieldTyped(f, ArrV(elems))
      requires forall i | 0 <= i < |elems| :: elems[i].ObjV? && AllTyped(fields, elems[i].vals)
      modifies text
      ensures text.Wrote(FieldOut(old(text.Lay()), f, ArrV(elems))) && text.pos == old(text.pos)
      decreases elems, 5
    {
      hide NumEntry, NameEntry, BeginArr, EndArr, ObjsOut;
      WriteArrSize(|elems|);
      BeginWriteNamedEntry();
      text.BeginWriteArr(elems != []);
      WriteObjs(fields, elems);
      text.EndWriteArr(elems != []);
    }

    /** The loop of writeObjArr. */
    method WriteObjs(fields: seq<FieldS>, elems: seq<Val>)
      requires forall i | 0 <= i < |elems| :: elems[i].ObjV? && AllTyped(fields, elems[i].vals)
      modifies text
      ensures text.Wrote(ObjsOut(old(text.Lay()), fields, elems)) && text.pos == old(text.pos)
      decreases elems, 3
    {
      hide ObjOut, AllTyped;
      ghost var l0, b0 := text.Lay(), text.buf;
      var i := 0;
      assert elems[0..] == elems;
      while i < |elems|
        invariant i <= |elems| && text.pos == old(text.pos)
        invariant text.buf + ObjsOut(text.Lay(), fields, elems[i..]).text == b0 + ObjsOut(l0, fields, elems).text
        invariant ObjsOut(text.Lay(), fields, elems[i..]).lay == ObjsOut(l0, fields, elems).lay
      {
        ghost var o := ObjOut(text.Lay(), fields, elems[i].vals);
        assert elems[i..][1..] == elems[i + 1..];
        assert text.buf + (o.text + ObjsOut(o.lay, fields, elems[i + 1..]).text) == text.buf + o.text + ObjsOut(o.lay, fields, elems[i + 1..]).text;
        WriteObj(fields, elems[i].vals);
        i := i + 1;
      }
      assert text.buf + "" == text.buf;
    }

    // ---------- reading ----------

    method BeginReadNamedEntry() returns (r: Outcome<TextError>)
      requires text.pos <= |text.buf|
      modifies text`pos, text`commaExpected
      ensures match ReadName(text.buf, Cursor(old(text.pos), old(text.commaExpected)), text.valName)
              case Failure(e) => r == Fail(e)
              case Success(c) => r.Pass? && text.ReadTo(text.buf, c)
    {
      hide SkipSpace, Next, Find, ReadComma;
      r := text.SkipSpaces();
      if r.Fail? || text.buf[text.pos] == '{' {
        return;
      }
      r := text.ReadCommas();
      if r.Fail? {
        return;
      }
      r := text.NextToken(QUOTE);
      if r.Fail? {
        return;
      }
      var b := text.pos;
      r := text.FindToken(QUOTE);
      if r.Fail? {
        return;
      }
      var name := text.buf[b..text.pos];
      text.pos := text.pos + 1;
      if text.valName != "" && text.valName != name {
        return Fail(WrongName(name, text.valName));
      }
      r := text.NextToken(':');
      if r.Fail? {
        return;
      }
      r := text.SkipSpaces();
      if r.Fail? {
        return;
      }
      text.commaExpected := false;
    }

    method ReadNumber() returns (r: Result<nat, TextError>)
      requires text.pos <= |text.buf|
      modifies text`pos, text`commaExpected
      ensures match ReadNum(text.buf, Cursor(old(text.pos), old(text.commaExpected)))
              case Failure(e) => r == Failure(e)
              case Success(x) => r == Success(x.0) && text.ReadTo(text.buf, x.1)
    {
      hide SkipSpace, ReadComma, Stoull;
      var ok := text.ReadCommas();
      if ok.Fail? {
        return Failure(ok.error);
      }
      text.commaExpected := true;
      ok := text.SkipSpaces();
      if ok.Fail? {
        return Failure(ok.error);
      }
      var b := text.pos;
      while text.pos < |text.buf| && IsDNum(text.buf[text.pos])
        invariant b <= text.pos <= |text.buf| && DNumEnd(text.buf, b) == DNumEnd(text.buf, text.pos) && text.commaExpected
      {
        text.pos := text.pos + 1;
      }
      r := Stoull(text.buf[b..text.pos]);
    }

    method ReadNumberEntry() returns (r: Result<nat, TextError>)
      requires text.pos <= |text.buf|
      modifies text`pos, text`commaExpected
      ensures match ReadNumEntry(text.buf, Cursor(old(text.pos), old(text.commaExpected)), text.valName)
              case Failure(e) => r == Failure(e)
              case Success(x) => r == Success(x.0) && text.ReadTo(text.buf, x.1)
    {
      hide ReadName, ReadNum;
      var ok := BeginReadNamedEntry();
      if ok.Fail? {
        return Failure(ok.error);
      }
      r := ReadNumber();
    }

    method ReadArrSize() returns (r: Result<nat, TextError>)
      requires text.pos <= |text.buf|
      modifies text`pos, text`commaExpected, text`valName, text`valType, text`sizeName, text`sizeType
      ensures match ReadNumEntry(text.buf, Cursor(old(text.pos), old(text.commaExpected)), old(text.sizeName))
              case Failure(e) => r == Failure(e)
              case Success(x) => r == Success(x.0) && text.ReadTo(text.buf, x.1) && text.valName == old(text.valName)
    {
      hide ReadNumEntry;
      text.BeginArrSizeOp();
      r := ReadNumberEntry();
      if r.Success? {
        text.EndArrSizeOp();
      }
    }

    /** The size, the name and the opening bracket of an array. */
    method BeginReadArr(ghost f: FieldS) returns (r: Result<nat, TextError>)
      requires text.pos <= |text.buf| && f.name == text.valName && f.sizeName == text.sizeName
      modifies text`pos, text`commaExpected, text`valName, text`valType, text`sizeName, text`sizeType
      ensures match ReadArrStart(text.buf, Cursor(old(text.pos), old(text.commaExpected)), f)
              case Failure(e) => r == Failure(e)
              case Success(x) => r == Success(x.0) && text.ReadTo(text.buf, x.1)
    {
      hide ReadNumEntry, ReadName, Open;
      r := ReadArrSize();
      if r.Failure? {
        return;
      }
      var ok := BeginReadNamedEntry();
      if ok.Fail? {
        return Failure(ok.error);
      }
      ok := text.BeginRead('[');
      if ok.Fail? {
        return Failure(ok.error);
      }
    }

    /** readSizedByteBuf. */
    method ReadSizedByteBuf(ghost f: FieldS) returns (r: Result<ByteVec, TextError>)
      requires text.pos <= |text.buf| && f.name == text.valName && f.sizeName == text.sizeName && f.shape.BytesS?
      modifies text`pos, text`commaExpected, text`valName, text`valType, text`sizeName, text`sizeType
      ensures match ReadField(text.buf, Cursor(old(text.pos), old(text.commaExpected)), f)
              case Failure(e) => r == Failure(e)
              case Success(x) => r.Success? && x.0 == BytesV(r.value) && text.ReadTo(text.buf, x.1)
    {
      hide ReadArrStart, ReadBytes, Close;
      var size := BeginReadArr(f);
      if size.Failure? {
        return Failure(size.error);
      }
      r := ReadByteList(size.value);
      if r.Failure? {
        return;
      }
      var ok := text.EndRead(']');
      if ok.Fail? {
        return Failure(ok.error);
      }
    }

    /** The loop of readSizedByteBuf. */
    method ReadByteList(size: nat) returns (r: Result<ByteVec, TextError>)
      requires text.pos <= |text.buf|
      modifies text`pos, text`commaExpected
      ensures match ReadBytes(text.buf, Cursor(old(text.pos), old(text.commaExpected)), size)
              case Failure(e) => r == Failure(e)
              case Success(x) => r == Success(x.0) && text.ReadTo(text.buf, x.1)
    {
      hide ReadNum;
      ghost var all := ReadBytes(text.buf, Cursor(text.pos, text.commaExpected), size);
      var bytes: ByteVec := [];
      if all.Success? {
        assert [] + all.value.0 == all.value.0;
      }
      var i: nat := 0;
      while i < size
        invariant i <= size && text.pos <= |text.buf|
        invariant all == PrependTo(bytes, ReadBytes(text.buf, Cursor(text.pos, text.commaExpected), size - i))
      {
        PrependStep(bytes, text.buf, Cursor(text.pos, text.commaExpected), size - i);
        var v := ReadNumber();
        if v.Failure? {
          return Failure(v.error);
        }
        bytes := bytes + [(v.value % 0x100) as byte];
        i := i + 1;
      }
      assert bytes + [] == bytes;
      r := Success(bytes);
    }

    /** ReadObj: braces around what the structure's Deserialize method reads. */
    method ReadObj(fields: seq<FieldS>) returns (r: Result<seq<Val>, TextError>)
      requires text.pos <= |text.buf| && text.newLine
      modifies text
      ensures text.newLine && text.buf == old(text.buf)
      ensures match ReadObject(text.buf, Cursor(old(text.pos), old(text.commaExpected)), fields)
              case Failure(e) => r == Failure(e)
              case Success(x) => r == Success(x.0) && text.ReadTo(text.buf, x.1)
      decreases fields, 1
    {
      hide Open, Close, JsonText.ReadFields;
      var ok := text.BeginRead('{');
      if ok.Fail? {
        return Failure(ok.error);
      }
      r := DeserializeFields(fields);
      if r.Failure? {
        return;
      }
      ok := text.EndRead('}');
      if ok.Fail? {
        return Failure(ok.error);
      }
    }

    /** A structure's Deserialize method. */
    method DeserializeFields(fields: seq<FieldS>) returns (r: Result<seq<Val>, TextError>)
      requires text.pos <= |text.buf| && text.newLine
      modifies text
      ensures text.newLine && text.buf == old(text.buf)
      ensures match ReadFields(text.buf, Cursor(old(text.pos), old(text.commaExpected)), fields)
              case Failure(e) => r == Failure(e)
              case Success(x) => r == Success(x.0) && text.ReadTo(text.buf, x.1)
      decreases fields, 0
    {
      hide ReadField;
      if fields == [] {
        return Success([]);
      }
      var v := DeserializeField(fields[0]);
      if v.Failure? {
        return Failure(v.error);
      }
      r := DeserializeFields(fields[1..]);
      if r.Success? {
        r := Success([v.value] + r.value);
      }
    }

    method DeserializeField(f: FieldS) returns (r: Result<Val, TextError>)
      requires text.pos <= |text.buf| && text.newLine
      modifies text
      ensures text.newLine && text.buf == old(text.buf)
      ensures match ReadField(text.buf, Cursor(old(text.pos), old(text.commaExpected)), f)
              case Failure(e) => r == Failure(e)
              case Success(x) => r == Success(x.0) && text.ReadTo(text.buf, x.1)
      decreases f, 0
    {
      hide ReadNumEntry, ReadName, ReadArrStart, ReadBytes, JsonText.ReadObject, JsonText.ReadObjects, Close;
      text.With(f.name, "", f.sizeName, "");
      match f.shape {
        case NumS =>
          var n := ReadNumberEntry();
          r := if n.Success? then Success(NumV(n.value)) else Failure(n.error);
        case BytesS =>
          var bytes := ReadSizedByteBuf(f);
          r := if bytes.Success? then Success(BytesV(bytes.value)) else Failure(bytes.error);
        case ObjS(fields) =>
          var ok := BeginReadNamedEntry();
          if ok.Fail? {
            return Failure(ok.error);
          }
          var vals := ReadObj(fields);
          r := if vals.Success? then Success(ObjV(vals.value)) else Failure(vals.error);
        case ArrS(fields) =>
          var elems := ReadObjArr(fields, f);
          r := if elems.Success? then Success(ArrV(elems.value)) else Failure(elems.error);
      }
    }

    /** readObjArr. Between the brackets it writes a line break, which changes nothing because the
        text starts on a new line. */
    method ReadObjArr(fields: seq<FieldS>, ghost f: FieldS) returns (r: Result<seq<Val>, TextError>)
      requires text.pos <= |text.buf| && text.newLine && f.name == text.valName && f.sizeName == text.sizeName && f.shape == ArrS(fields)
      modifies text
      ensures text.newLine && text.buf == old(text.buf)
      ensures match ReadField(text.buf, Cursor(old(text.pos), old(text.commaExpected)), f)
              case Failure(e) => r == Failure(e)
              case Success(x) => r.Success? && x.0 == ArrV(r.value) && text.ReadTo(text.buf, x.1)
      decreases fields, 5
    {
      hide ReadArrStart, JsonText.ReadObjects, Close;
      var size := BeginReadArr(f);
      if size.Failure? {
        return Failure(size.error);
      }
      assert "" + "\n" == "\n";
      text.WriteLine("");
      text.indent := text.indent + 4;
      r := ReadObjList(fields, size.value);
      if r.Failure? {
        return;
      }
      text.indent := text.indent - 4;
      var ok := text.EndRead(']');
      if ok.Fail? {
        return Failure(ok.error);
      }
    }

    /** The loop of readObjArr. */
    method ReadObjList(fields: seq<FieldS>, size: nat) returns (r: Result<seq<Val>, TextError>)
      requires text.pos <= |text.buf| && text.newLine
      modifies text
      ensures text.newLine && text.buf == old(text.buf)
      ensures match ReadObjects(text.buf, Cursor(old(text.pos), old(text.commaExpected)), fields, size)
              case Failure(e) => r == Failure(e)
              case Success(x) => r == Success(x.0) && text.ReadTo(text.buf, x.1)
      decreases fields, 2
    {
      hide ReadObject;
      ghost var b, all := text.buf, ReadObjects(text.buf, Cursor(text.pos, text.commaExpected), fields, size);
      var elems: seq<Val> := [];
      if all.Success? {
        assert [] + all.value.0 == all.value.0;
      }
      var i: nat := 0;
      while i < size
        invariant i <= size && text.pos <= |text.buf| && text.newLine && text.buf == b
        invariant all == PrependTo(elems, ReadObjects(text.buf, Cursor(text.pos, text.commaExpected), fields, size - i))
      {
        PrependObject(elems, text.buf, Cursor(text.pos, text.commaExpected), fields, size - i);
        var vals := ReadObj(fields);
        if vals.Failure? {
          return Failure(vals.error);
        }
        elems := elems + [ObjV(vals.value)];
        i := i + 1;
      }
      assert elems + [] == elems;
      r := Success(elems);
    }

    // ---------- the whole ----------

    /** Serialize: writeObj without a name. */
    method Serialize(fields: seq<FieldS>, vals: seq<Val>)
      requires AllTyped(fields, vals) && text.Lay() == START && text.valName == ""
      modifies text
      ensures text.buf == old(text.buf) + Serialized(fields, vals) && text.pos == old(text.pos)
    {
      hide ObjOut, NameEntry;
      NoNameEntry();
      BeginWriteNamedEntry();
      assert text.buf == old(text.buf) + "" == old(text.buf);
      WriteObj(fields, vals);
    }

    /** Deserialize: readObj without a name. */
    method Deserialize(fields: seq<FieldS>) returns (r: Result<seq<Val>, TextError>)
      requires text.pos <= |text.buf| && text.newLine && text.valName == ""
      modifies text
      ensures text.buf == old(text.buf)
      ensures match Deserialized(text.buf, Cursor(old(text.pos), old(text.commaExpected)), fields)
              case Failure(e) => r == Failure(e)
              case Success(x) => r == Success(x.0) && text.ReadTo(text.buf, x.1)
    {
      hide ReadName, JsonText.ReadObject;
      var ok := BeginReadNamedEntry();
      if ok.Fail? {
        return Failure(ok.error);
      }
      r := ReadObj(fields);
    }

    /** Writing a value and reading it from the text gives the value back, ends at the closing brace
        and leaves the text as it was written. */
    method RoundTrip(fields: seq<FieldS>, vals: seq<Val>) returns (r: Result<seq<Val>, TextError>)
      requires AllTyped(fields, vals)
      modifies text
      ensures r == Success(vals) && text.buf == Serialized(fields, vals) && text.pos == |text.buf|
    {
      hide Serialized, Deserialized;
      text.Reset("");
      Serialize(fields, vals);
      var written := text.buf;
      assert written == "" + Serialized(fields, vals) == Serialized(fields, vals);
      text.Reset(written);
      assert written[0..|written|] == written;
      DeserializedIsSerialized(written, 0, fields, vals);
      r := Deserialize(fields);
    }
  }

  /** What was read before, in front of the rest. */
  function PrependTo<T>(xs: seq<T>, r: Result<(seq<T>, Cursor), TextError>): Result<(seq<T>, Cursor), TextError> {
    match r
    case Failure(e) => Failure(e)
    case Success(x) => Success((xs + x.0, x.1))
  }

  lemma PrependStep(bytes: ByteVec, b: string, c: Cursor, n: nat)
    requires c.pos <= |b| && n > 0
    ensures PrependTo(bytes, ReadBytes(b, c, n)) == (
              match ReadNum(b, c)
              case Failure(e) => Failure(e)
              case Success(x) => PrependTo(bytes + [(x.0 % 0x100) as byte], ReadBytes(b, x.1, n - 1)))
  {
    hide ReadNum;
    var v := ReadNum(b, c);
    if v.Success? {
      var rest := ReadBytes(b, v.value.1, n - 1);
      if rest.Success? {
        assert bytes + ([(v.value.0 % 0x100) as byte] + rest.value.0) == bytes + [(v.value.0 % 0x100) as byte] + rest.value.0;
      }
    }
  }

  lemma PrependObject(elems: seq<Val>, b: string, c: Cursor, fields: seq<FieldS>, n: nat)
    requires c.pos <= |b| && n > 0
    ensures PrependTo(elems, ReadObjects(b, c, fields, n)) == (
              match ReadObject(b, c, fields)
              case Failure(e) => Failure(e)
              case Success(x) => PrependTo(elems + [ObjV(x.0)], ReadObjects(b, x.1, fields, n - 1)))
  {
    hide ReadObject;
    var v := ReadObject(b, c, fields);
    if v.Success? {
      var rest := ReadObjects(b, v.value.1, fields, n - 1);
      if rest.Success? {
        assert elems + ([ObjV(v.value.0)] + rest.value.0) == elems + [ObjV(v.value.0)] + rest.value.0;
      }
    }
  }
}
