/** The JSON text that JsonSerializer writes and the reader it applies to it (Serialize.cpp), as
    functions of the layout state and of text and position. */
module JsonText {
  import opened Bytes
  import opened Wrappers

  const QUOTE := '\"'

  // ---------- values ----------

  /** What a structure consists of. The elements of an array are objects with the same fields. */
  datatype Shape =
    | NumS
    | BytesS
    | ObjS(fields: seq<FieldS>)
    | ArrS(fields: seq<FieldS>)

  /** A field with the names given to `with`; `sizeName` is used for buffers and arrays. */
  datatype FieldS = FieldS(name: string, sizeName: string, shape: Shape)

  datatype Val =
    | NumV(n: nat)
    | BytesV(bytes: ByteVec)
    | ObjV(vals: seq<Val>)
    | ArrV(elems: seq<Val>)

  predicate NameOk(name: string) {
    name != "" && QUOTE !in name
  }

  predicate Typed(s: Shape, v: Val)
    decreases v, 1
  {
    match s
    case NumS => v.NumV? && v.n < 0x1_0000_0000_0000_0000
    case BytesS => v.BytesV? && |v.bytes| < 0x1_0000_0000_0000_0000
    case ObjS(fields) => v.ObjV? && AllTyped(fields, v.vals)
    case ArrS(fields) =>
      v.ArrV? && |v.elems| < 0x1_0000_0000_0000_0000
      && forall i | 0 <= i < |v.elems| :: v.elems[i].ObjV? && AllTyped(fields, v.elems[i].vals)
  }

  predicate FieldTyped(f: FieldS, v: Val)
    decreases v, 2
  {
    NameOk(f.name) && (f.shape.BytesS? || f.shape.ArrS? ==> NameOk(f.sizeName)) && Typed(f.shape, v)
  }

  predicate AllTyped(fields: seq<FieldS>, vals: seq<Val>)
    decreases vals, 0
  {
    |fields| == |vals| && (vals == [] || (FieldTyped(fields[0], vals[0]) && AllTyped(fields[1..], vals[1..])))
  }

  // ---------- writing ----------

  /** my_indent, my_commaExpected, my_newLine. */
  datatype Layout = Layout(indent: int, comma: bool, newLine: bool)

  /** What an operation appends, and the state it leaves. */
  datatype Out = Out(text: string, lay: Layout)

  function Spaces(n: int): (s: string)
    ensures |s| == (if n > 0 then n else 0) && forall i | 0 <= i < |s| :: s[i] == ' '
  {
    seq(if n > 0 then n else 0, _ => ' ')
  }

  /** Write. */
  function Put(l: Layout, s: string): Out
    requires s != ""
  {
    if s == "\n" && l.newLine then Out("", l)
    else Out((if l.newLine then Spaces(l.indent) else "") + s, l.(newLine := s[|s| - 1] == '\n'))
  }

  /** WriteComma. */
  function Comma(l: Layout, newLine: bool): Out {
    if l.comma then Put(l, if newLine then ",\n" else ", ") else Out("", l)
  }

  /** One output after another. */
  function Then(a: Out, b: Out): Out {
    Out(a.text + b.text, b.lay)
  }

  /** BeginWriteNamedEntry. */
  function NameEntry(l: Layout, name: string): Out {
    if name == "" then Out("", l.(comma := false)) else
    var c := Comma(l, true);
    var n := Put(c.lay, [QUOTE] + name + [QUOTE] + " : ");
    Out(c.text + n.text, n.lay.(comma := false))
  }

  function Digit(d: nat): char
    requires d < 10
  {
    "0123456789"[d]
  }

  /** std::to_string of an unsigned number. */
  function Decimal(n: nat): (s: string)
    ensures s != ""
  {
    if n < 10 then [Digit(n)] else Decimal(n / 10) + [Digit(n % 10)]
  }

  /** WriteNum. */
  function Num(l: Layout, n: nat): Out {
    var c := Comma(l, false);
    var d := Put(c.lay, Decimal(n));
    Out(c.text + d.text, d.lay.(comma := true))
  }

  /** writeNum. */
  function NumEntry(l: Layout, name: string, n: nat): Out {
    var e := NameEntry(l, name);
    Then(e, Num(e.lay, n))
  }

  /** BeginWriteObj without an object type. */
  function BeginObj(l: Layout): Out {
    var c := Comma(l, true);
    var o := Put(c.lay, "{\n");
    Out(c.text + o.text, o.lay.(indent := o.lay.indent + 4, comma := false))
  }

  /** EndWriteObj. */
  function EndObj(l: Layout): Out {
    var e := Put(l.(indent := l.indent - 4), "\n");
    var c := Put(e.lay, "}");
    Out(e.text + c.text, c.lay.(comma := true))
  }

  /** BeginWriteArr. */
  function BeginArr(l: Layout, tabIn: bool): Out {
    var c := Comma(l, true);
    var o := Put(c.lay, if tabIn then "[\n" else "[");
    Out(c.text + o.text, o.lay.(indent := o.lay.indent + (if tabIn then 4 else 0), comma := false))
  }

  /** EndWriteArr. */
  function EndArr(l: Layout, tabOut: bool): Out {
    var e := if tabOut then Put(l.(indent := l.indent - 4), "\n") else Out("", l);
    var c := Put(e.lay, "]");
    Out(e.text + c.text, c.lay.(comma := true))
  }

  function Nums(l: Layout, bytes: ByteVec): Out
    decreases |bytes|
  {
    if bytes == [] then Out("", l) else
    var n := Num(l, bytes[0] as nat);
    Then(n, Nums(n.lay, bytes[1..]))
  }

  /** WriteObj. */
  function ObjOut(l: Layout, fields: seq<FieldS>, vals: seq<Val>): Out
    requires AllTyped(fields, vals)
    decreases vals, 2
  {
    var b := BeginObj(l);
    var f := FieldsOut(b.lay, fields, vals);
    Then(Then(b, f), EndObj(f.lay))
  }

  /** The Serialize method of a structure. */
  function FieldsOut(l: Layout, fields: seq<FieldS>, vals: seq<Val>): Out
    requires AllTyped(fields, vals)
    decreases vals, 1
  {
    if vals == [] then Out("", l) else
    var f := FieldOut(l, fields[0], vals[0]);
    Then(f, FieldsOut(f.lay, fields[1..], vals[1..]))
  }

  function ObjsOut(l: Layout, fields: seq<FieldS>, elems: seq<Val>): Out
    requires forall i | 0 <= i < |elems| :: elems[i].ObjV? && AllTyped(fields, elems[i].vals)
    decreases elems, 3
  {
    if elems == [] then Out("", l) else
    var o := ObjOut(l, fields, elems[0].vals);
    Then(o, ObjsOut(o.lay, fields, elems[1..]))
  }

  /** One field: writeNum, writeSizedByteBuf, writeObj or writeObjArr. */
  function FieldOut(l: Layout, f: FieldS, v: Val): Out
    requires FieldTyped(f, v)
    decreases v, 4
  {
    assert Typed(f.shape, v);
    match f.shape
    case NumS => NumEntry(l, f.name, v.n)
    case BytesS =>
      var s := ArrStart(l, f, |v.bytes|, false);
      var n := Nums(s.lay, v.bytes);
      Then(Then(s, n), EndArr(n.lay, false))
    case ObjS(fields) =>
      var e := NameEntry(l, f.name);
      Then(e, ObjOut(e.lay, fields, v.vals))
    case ArrS(fields) =>
      var s := ArrStart(l, f, |v.elems|, v.elems != []);
      var n := ObjsOut(s.lay, fields, v.elems);
      Then(Then(s, n), EndArr(n.lay, v.elems != []))
  }

  /** Size entry, name and opening bracket of an array. */
  function ArrStart(l: Layout, f: FieldS, size: nat, tabIn: bool): Out {
    var s := NumEntry(l, f.sizeName, size);
    var e := NameEntry(s.lay, f.name);
    Then(Then(s, e), BeginArr(e.lay, tabIn))
  }

  const START := Layout(0, false, true)

  lemma NoNameEntry()
    ensures NameEntry(START, "") == Out("", START)
  {}

  /** Serialize. */
  function Serialized(fields: seq<FieldS>, vals: seq<Val>): string
    requires AllTyped(fields, vals)
  {
    ObjOut(START, fields, vals).text
  }

  // ---------- reading ----------

  datatype TextError =
    | PrematureEnd(pos: nat)
    | Missing(token: char, pos: nat)
    | WrongName(actual: string, expected: string)
    | NoNumber
    | NumberTooLarge
    | MissingText(text: string, pos: nat)
    | HexMismatch(dec: nat, hex: string)

  predicate IsSpace(c: char) {
    c == ' ' || c == '\t' || c == '\r' || c == '\n'
  }

  /** SkipSpace. */
  function SkipSpace(b: string, p: nat): (r: Result<nat, TextError>)
    requires p <= |b|
    ensures r.Success? ==> p <= r.value < |b| && !IsSpace(b[r.value])
    decreases |b| - p
  {
    if p == |b| then Failure(PrematureEnd(p))
    else if IsSpace(b[p]) then
      match SkipSpace(b, p + 1)
      case Failure(_) => Failure(PrematureEnd(p))
      case Success(q) => Success(q)
    else Success(p)
  }

  /** Next. */
  function Next(b: string, p: nat, c: char): (r: Result<nat, TextError>)
    requires p <= |b|
    ensures r.Success? ==> p < r.value <= |b|
  {
    var q :- SkipSpace(b, p);
    if b[q] != c then Failure(Missing(c, q)) else Success(q + 1)
  }

  /** Find. */
  function Find(b: string, p: nat, c: char): (r: Result<nat, TextError>)
    requires p <= |b|
    ensures r.Success? ==> p <= r.value < |b| && b[r.value] == c
    decreases |b| - p
  {
    if p == |b| then Failure(Missing(c, p))
    else if b[p] == c then Success(p)
    else
      match Find(b, p + 1, c)
      case Failure(_) => Failure(Missing(c, p))
      case Success(q) => Success(q)
  }

  /** my_pos and my_commaExpected. */
  datatype Cursor = Cursor(pos: nat, comma: bool)

  /** ReadComma. */
  function ReadComma(b: string, p: nat, comma: bool): (r: Result<nat, TextError>)
    requires p <= |b|
    ensures r.Success? ==> p <= r.value <= |b|
  {
    if comma then Next(b, p, ',') else Success(p)
  }

  /** BeginReadNamedEntry. */
  function ReadName(b: string, r: Cursor, name: string): (res: Result<Cursor, TextError>)
    requires r.pos <= |b|
    ensures res.Success? ==> r.pos <= res.value.pos <= |b|
  {
    var p0 :- SkipSpace(b, r.pos);
    if b[p0] == '{' then Success(r.(pos := p0)) else
    var p1 :- ReadComma(b, p0, r.comma);
    var p2 :- Next(b, p1, QUOTE);
    var q :- Find(b, p2, QUOTE);
    if name != "" && name != b[p2..q] then Failure(WrongName(b[p2..q], name)) else
    var p3 :- Next(b, q + 1, ':');
    var p4 :- SkipSpace(b, p3);
    Success(Cursor(p4, false))
  }

  predicate IsDigit(c: char) {
    '0' <= c <= '9'
  }

  /** isdnum. */
  predicate IsDNum(c: char) {
    IsDigit(c) || c == '-' || c == '+'
  }

  /** The end of a run of digits and signs. */
  function DNumEnd(b: string, p: nat): (q: nat)
    requires p <= |b|
    ensures p <= q <= |b|
    decreases |b| - p
  {
    if p < |b| && IsDNum(b[p]) then DNumEnd(b, p + 1) else p
  }

  /** The value of the leading digits, if there are any. */
  function DigitsValue(s: string, acc: nat): nat
    decreases |s|
  {
    if s == "" || !IsDigit(s[0]) then acc else DigitsValue(s[1..], acc * 10 + (s[0] as nat - '0' as nat))
  }

  /** std::stoull: an optional sign and leading digits; a minus sign negates modulo 2^64. */
  function Stoull(s: string): Result<nat, TextError> {
    var negative := s != "" && s[0] == '-';
    var rest := if s != "" && (s[0] == '-' || s[0] == '+') then s[1..] else s;
    if rest == "" || !IsDigit(rest[0]) then Failure(NoNumber) else
    var v := DigitsValue(rest, 0);
    if v >= 0x1_0000_0000_0000_0000 then Failure(NumberTooLarge)
    else Success(if negative && v > 0 then 0x1_0000_0000_0000_0000 - v else v)
  }

  /** ReadNum. */
  function ReadNum(b: string, r: Cursor): (res: Result<(nat, Cursor), TextError>)
    requires r.pos <= |b|
    ensures res.Success? ==> r.pos <= res.value.1.pos <= |b|
  {
    var p :- ReadComma(b, r.pos, r.comma);
    var q :- SkipSpace(b, p);
    var e := DNumEnd(b, q);
    var v :- Stoull(b[q..e]);
    Success((v, Cursor(e, true)))
  }

  /** readNum. */
  function ReadNumEntry(b: string, r: Cursor, name: string): (res: Result<(nat, Cursor), TextError>)
    requires r.pos <= |b|
    ensures res.Success? ==> r.pos <= res.value.1.pos <= |b|
  {
    var e :- ReadName(b, r, name);
    ReadNum(b, e)
  }

  /** BeginReadObj and BeginReadArr. */
  function Open(b: string, r: Cursor, c: char): (res: Result<Cursor, TextError>)
    requires r.pos <= |b|
    ensures res.Success? ==> r.pos < res.value.pos <= |b|
  {
    var p :- ReadComma(b, r.pos, r.comma);
    var q :- Next(b, p, c);
    Success(Cursor(q, false))
  }

  /** EndReadObj and EndReadArr. */
  function Close(b: string, r: Cursor, c: char): (res: Result<Cursor, TextError>)
    requires r.pos <= |b|
    ensures res.Success? ==> r.pos < res.value.pos <= |b|
  {
    var q :- Next(b, r.pos, c);
    Success(Cursor(q, true))
  }

  function ReadBytes(b: string, r: Cursor, n: nat): (res: Result<(ByteVec, Cursor), TextError>)
    requires r.pos <= |b|
    ensures res.Success? ==> r.pos <= res.value.1.pos <= |b|
    decreases n
  {
    if n == 0 then Success(([], r)) else
    var (v, r1) :- ReadNum(b, r);
    var (vs, r2) :- ReadBytes(b, r1, n - 1);
    Success(([(v % 0x100) as byte] + vs, r2))
  }

  /** ReadObj. */
  function ReadObject(b: string, r: Cursor, fields: seq<FieldS>): (res: Result<(seq<Val>, Cursor), TextError>)
    requires r.pos <= |b|
    ensures res.Success? ==> r.pos < res.value.1.pos <= |b|
    decreases fields, 1
  {
    var r1 :- Open(b, r, '{');
    var (vals, r2) :- ReadFields(b, r1, fields);
    var r3 :- Close(b, r2, '}');
    Success((vals, r3))
  }

  /** The Deserialize method of a structure. */
  function ReadFields(b: string, r: Cursor, fields: seq<FieldS>): (res: Result<(seq<Val>, Cursor), TextError>)
    requires r.pos <= |b|
    ensures res.Success? ==> r.pos <= res.value.1.pos <= |b|
    decreases fields, 0
  {
    if fields == [] then Success(([], r)) else
    var (v, r1) :- ReadField(b, r, fields[0]);
    var (vs, r2) :- ReadFields(b, r1, fields[1..]);
    Success(([v] + vs, r2))
  }

  function ReadObjects(b: string, r: Cursor, fields: seq<FieldS>, n: nat): (res: Result<(seq<Val>, Cursor), TextError>)
    requires r.pos <= |b|
    ensures res.Success? ==> r.pos <= res.value.1.pos <= |b|
    decreases fields, 2, n
  {
    if n == 0 then Success(([], r)) else
    var (vals, r1) :- ReadObject(b, r, fields);
    var (vs, r2) :- ReadObjects(b, r1, fields, n - 1);
    Success(([ObjV(vals)] + vs, r2))
  }

  /** One field: readNum, readSizedByteBuf, readObj or readObjArr. */
  function ReadField(b: string, r: Cursor, f: FieldS): (res: Result<(Val, Cursor), TextError>)
    requires r.pos <= |b|
    ensures res.Success? ==> r.pos <= res.value.1.pos <= |b|
    decreases f, 0
  {
    match f.shape
    case NumS =>
      var (n, r1) :- ReadNumEntry(b, r, f.name);
      Success((NumV(n), r1))
    case BytesS =>
      var (n, r1) :- ReadArrStart(b, r, f);
      var (bytes, r2) :- ReadBytes(b, r1, n);
      var r3 :- Close(b, r2, ']');
      Success((BytesV(bytes), r3))
    case ObjS(fields) =>
      var r1 :- ReadName(b, r, f.name);
      var (vals, r2) :- ReadObject(b, r1, fields);
      Success((ObjV(vals), r2))
    case ArrS(fields) =>
      var (n, r1) :- ReadArrStart(b, r, f);
      var (elems, r2) :- ReadObjects(b, r1, fields, n);
      var r3 :- Close(b, r2, ']');
      Success((ArrV(elems), r3))
  }

  /** Size entry, name and opening bracket of an array. */
  function ReadArrStart(b: string, r: Cursor, f: FieldS): (res: Result<(nat, Cursor), TextError>)
    requires r.pos <= |b|
    ensures res.Success? ==> r.pos <= res.value.1.pos <= |b|
  {
    var (n, r1) :- ReadNumEntry(b, r, f.sizeName);
    var r2 :- ReadName(b, r1, f.name);
    var r3 :- Open(b, r2, '[');
    Success((n, r3))
  }

  /** Deserialize: readObj without a name. */
  function Deserialized(b: string, r: Cursor, fields: seq<FieldS>): (res: Result<(seq<Val>, Cursor), TextError>)
    requires r.pos <= |b|
  {
    var r1 :- ReadName(b, r, "");
    ReadObject(b, r1, fields)
  }
}
