/** Byte buffers as PlainTextSerializer writes and reads them (Serialize.cpp), as functions of the
    settings, the layout state and the text so far. */
module PlainText {
  import opened Bytes
  import opened Wrappers
  import opened JsonText
  import opened HexText

  const WORD_SIZE := 4
  const BYTES_PER_LINE := 32
  const TAB_SIZE := 4

  /** The names and types given to `with`. */
  datatype Entry = Entry(name: string, ty: string, sizeName: string, sizeType: string)

  /** A name or type does not start with white space. */
  predicate TokenOk(s: string) {
    s != "" && !IsSpace(s[0])
  }

  predicate EntryOk(e: Entry) {
    TokenOk(e.name) && TokenOk(e.ty) && TokenOk(e.sizeName) && TokenOk(e.sizeType)
  }

  // ---------- writing ----------

  /** my_useComma, my_precise and my_maxLineLen. */
  datatype Settings = Settings(useComma: bool, precise: bool, maxLineLen: nat)

  /** WriteComma. */
  function Separator(u: bool, l: Layout, newLine: bool): Out {
    if u then Comma(l, newLine) else if l.comma then Put(l, "\n") else Out("", l)
  }

  /** BeginWriteNamedEntry. */
  function NamedEntry(u: bool, l: Layout, ty: string, name: string): Out {
    var c := Separator(u, l, true);
    var n := Put(c.lay, ty + " " + name + " = ");
    Out(c.text + n.text, n.lay.(comma := false))
  }

  /** WriteNum with its hexadecimal copy. */
  function Number(u: bool, l: Layout, n: nat): Out {
    var c := Separator(u, l, false);
    var d := Put(c.lay, Decimal(n));
    var h := Put(d.lay, " (0x" + ToHex(n, 0) + ")");
    Out(c.text + (d.text + h.text), h.lay.(comma := true))
  }

  /** BeginWriteArr. */
  function BeginArray(u: bool, l: Layout, tabIn: bool): Out {
    var c := Separator(u, l, true);
    var o := Put(c.lay, if tabIn then "[\n" else "[");
    Out(c.text + o.text, o.lay.(indent := o.lay.indent + (if tabIn then TAB_SIZE else 0), comma := false))
  }

  /** Where the last line break stands; the start of the text if there is none. */
  function LastEol(text: string): (r: nat)
    ensures r <= |text|
  {
    if text == "" || text[|text| - 1] == '\n' then (if text == "" then 0 else |text| - 1)
    else LastEol(text[..|text| - 1])
  }

  /** GetCurLineLen: the line break counts. */
  function CurLineLen(text: string, newLine: bool): nat {
    if newLine then 0 else |text| - LastEol(text)
  }

  /** Arithmetic on size_t. */
  function U64(n: int): (r: nat)
    ensures r < WORD64
  {
    n % WORD64
  }

  datatype Form = SameLine | OwnLine | Rows | Abbreviated

  /** The layout chosen for a buffer of `n` bytes; every difference is unsigned. */
  function FormOf(c: Settings, n: nat, lineLen: nat, indent: int): (f: Form)
    ensures f.Abbreviated? ==> !c.precise && n > BYTES_PER_LINE
    ensures f.Rows? ==> c.precise && n > BYTES_PER_LINE
  {
    var size := U64(n * 2 + (n / WORD_SIZE - 1) + 2);
    if U64(c.maxLineLen - lineLen) > size then SameLine
    else if n <= BYTES_PER_LINE || size < U64(c.maxLineLen - indent - TAB_SIZE) then OwnLine
    else if c.precise then Rows
    else Abbreviated
  }

  function Pairs(l: Layout, bytes: ByteVec): Out
    decreases |bytes|
  {
    if bytes == [] then Out("", l) else
      var h := Put(l, HexPair(bytes[0]));
      Then(h, Pairs(h.lay, bytes[1..]))
  }

  /** to_hex of a byte. */
  function HexPair(b: byte): (s: string)
    ensures |s| == 2 && s[0] == HexDigit(b as nat / 16) && s[1] == HexDigit(b as nat % 16)
  {
    PairOfByte(b);
    ToHex(b as nat, 0)
  }

  lemma PairOfByte(b: byte)
    ensures ToHex(b as nat, 0) == [HexDigit(b as nat / 16), HexDigit(b as nat % 16)]
  {
    var n := b as nat;
    assert Digits(0) == "";
    if n >= 16 {
      assert n / 16 < 16 && n / 16 / 16 == 0 && n / 16 % 16 == n / 16;
      assert Digits(n / 16) == "" + [HexDigit(n / 16)];
      assert Digits(n) == Digits(n / 16) + [HexDigit(n % 16)];
    } else if n > 0 {
      assert n / 16 == 0;
      assert Digits(n) == "" + [HexDigit(n)];
    }
  }

  /** WriteByteBufFrag: blanks between the full words; what is left over follows the last word. */
  function Fragment(l: Layout, bytes: ByteVec): Out
    decreases |bytes|
  {
    if |bytes| < 2 * WORD_SIZE then Pairs(l, bytes) else
      var w := Pairs(l, bytes[..WORD_SIZE]);
      var s := Put(w.lay, " ");
      Then(Then(w, s), Fragment(s.lay, bytes[WORD_SIZE..]))
  }

  /** Full rows, each on a line of its own if `indented`, and the rest. */
  function RowsOut(l: Layout, bytes: ByteVec, indented: bool): Out
    decreases |bytes|
  {
    if |bytes| < BYTES_PER_LINE then Fragment(l, bytes) else
      var f := Fragment(l, bytes[..BYTES_PER_LINE]);
      var e := if indented then Put(f.lay, "\n") else Out("", f.lay);
      Then(Then(f, e), RowsOut(e.lay, bytes[BYTES_PER_LINE..], indented))
  }

  /** What stands between the brackets. */
  function Contents(l: Layout, bytes: ByteVec, form: Form): Out
    requires form.Abbreviated? ==> |bytes| > BYTES_PER_LINE
  {
    if form.Abbreviated? then
      var a := Fragment(l, bytes[..BYTES_PER_LINE / 2]);
      var d := Put(a.lay, " ... ");
      Then(Then(a, d), Fragment(d.lay, bytes[|bytes| - BYTES_PER_LINE / 2..]))
    else
      RowsOut(l, bytes, form.Rows?)
  }

  /** Brackets and contents in the chosen form. */
  function Bracketed(u: bool, l: Layout, bytes: ByteVec, form: Form): Out
    requires form.Abbreviated? ==> |bytes| > BYTES_PER_LINE
  {
    var n := if form.OwnLine? then Put(l, "\n") else Out("", l);
    var o := BeginArray(u, n.lay.(indent := n.lay.indent + (if form.OwnLine? then TAB_SIZE else 0)), form.Rows?);
    var c := Contents(o.lay, bytes, form);
    var x := EndArr(c.lay, form.Rows?);
    Out(n.text + (o.text + (c.text + x.text)), x.lay.(indent := x.lay.indent - (if form.OwnLine? then TAB_SIZE else 0)))
  }

  /** Size entry and name. */
  function Header(u: bool, l: Layout, e: Entry, size: nat): Out {
    var s := NamedEntry(u, l, e.sizeType, e.sizeName);
    var d := Number(u, s.lay, size);
    var n := NamedEntry(u, d.lay, e.ty, e.name);
    Out(s.text + (d.text + n.text), n.lay)
  }

  /** The form of a buffer written after `prior`. */
  function FormAfter(c: Settings, prior: string, l: Layout, e: Entry, size: nat): (f: Form)
    ensures f.Abbreviated? ==> !c.precise && size > BYTES_PER_LINE
  {
    var h := Header(c.useComma, l, e, size);
    FormOf(c, size, CurLineLen(prior + h.text, h.lay.newLine), h.lay.indent)
  }

  /** writeSizedByteBuf after the text `prior`. */
  function BufOut(c: Settings, prior: string, l: Layout, e: Entry, bytes: ByteVec): Out {
    var h := Header(c.useComma, l, e, |bytes|);
    Then(h, Bracketed(c.useComma, h.lay, bytes, FormAfter(c, prior, l, e, |bytes|)))
  }

  // ---------- reading ----------

  /** ReadComma. */
  function ReadSeparator(u: bool, b: string, p: nat, comma: bool): (r: Result<nat, TextError>)
    requires p <= |b|
    ensures r.Success? ==> p <= r.value <= |b|
  {
    if u then ReadComma(b, p, comma) else Success(p)
  }

  /** Next for a text. */
  function NextText(b: string, p: nat, token: string): (r: Result<nat, TextError>)
    requires p <= |b|
    ensures r.Success? ==> p <= r.value <= |b|
  {
    var q :- SkipSpace(b, p);
    if token <= b[q..] then Success(q + |token|) else Failure(MissingText(token, q))
  }

  /** BeginReadNamedEntry when a name is given. */
  function ReadNamed(u: bool, b: string, r: Cursor, ty: string, name: string): (res: Result<Cursor, TextError>)
    requires r.pos <= |b|
    ensures res.Success? ==> r.pos <= res.value.pos <= |b|
  {
    var p0 :- SkipSpace(b, r.pos);
    var p1 :- ReadSeparator(u, b, p0, r.comma);
    var p2 :- NextText(b, p1, ty);
    var p3 :- SkipSpace(b, p2);
    var p4 :- NextText(b, p3, name);
    var p5 :- Next(b, p4, '=');
    var p6 :- SkipSpace(b, p5);
    Success(Cursor(p6, false))
  }

  /** NextHexCopy. */
  function NextHexCopy(b: string, p: nat, val: nat): (r: Result<nat, TextError>)
    requires p <= |b|
    ensures r.Success? ==> p <= r.value <= |b|
  {
    var q :- NextText(b, p, "(0x");
    var e :- Find(b, q, ')');
    if FromHex(b[q..e]) != val then Failure(HexMismatch(val, b[q..e])) else Success(e + 1)
  }

  /** ReadNum. */
  function ReadNumber(u: bool, b: string, r: Cursor): (res: Result<(nat, Cursor), TextError>)
    requires r.pos <= |b|
    ensures res.Success? ==> r.pos <= res.value.1.pos <= |b|
  {
    var p :- ReadSeparator(u, b, r.pos, r.comma);
    var q :- SkipSpace(b, p);
    var e := DNumEnd(b, q);
    var v :- Stoull(b[q..e]);
    var x :- NextHexCopy(b, e, v);
    Success((v, Cursor(x, true)))
  }

  /** The white space that std::stoi skips. */
  predicate IsBlank(c: char) {
    c == ' ' || 9 <= c as int <= 13
  }

  function HexVal(c: char): int {
    if '0' <= c <= '9' then c as int - '0' as int
    else if 'A' <= c <= 'F' then c as int - 'A' as int + 10
    else if 'a' <= c <= 'f' then c as int - 'a' as int + 10
    else -1
  }

  /** The value of the leading hexadecimal digits. */
  function HexRun(s: string, acc: nat): nat
    decreases |s|
  {
    if s == "" || HexVal(s[0]) < 0 then acc else
      var d: nat := HexVal(s[0]);
      HexRun(s[1..], acc * 16 + d)
  }

  /** std::stoi with base 16 on at most two characters, which leaves no room for a digit after a 0x
      prefix, and the conversion to a byte. */
  function StoiByte(s: string): Result<byte, TextError>
    decreases |s|
  {
    if s != "" && IsBlank(s[0]) then StoiByte(s[1..]) else
      var digits := if s != "" && (s[0] == '-' || s[0] == '+') then s[1..] else s;
      if digits == "" || HexVal(digits[0]) < 0 then Failure(NoNumber)
      else
        var v: int := HexRun(digits, 0);
        Success(((if s[0] == '-' then 0 - v else v) % 0x100) as byte)
  }

  /** `n` bytes from the one with index `i` on: white space is skipped only before a word. */
  function ReadPairs(b: string, p: nat, i: nat, n: nat): (r: Result<(ByteVec, nat), TextError>)
    requires p <= |b|
    ensures r.Success? ==> |r.value.0| == n && p <= r.value.1 <= |b|
    decreases n
  {
    if n == 0 then Success(([], p)) else
      var q :- if i % WORD_SIZE == 0 then SkipSpace(b, p) else Success(p);
      if q + 2 > |b| then Failure(PrematureEnd(q)) else
        var v :- StoiByte(b[q..q + 2]);
        var (vs, e) :- ReadPairs(b, q + 2, i + 1, n - 1);
        Success(([v] + vs, e))
  }

  /** find_first_of(".]"): where the first of them stands, or the end. */
  function FindDotOrBracket(b: string, p: nat): (q: nat)
    requires p <= |b|
    ensures p <= q <= |b| && (q < |b| ==> b[q] == '.' || b[q] == ']')
    ensures forall i | p <= i < q :: b[i] != '.' && b[i] != ']'
    decreases |b| - p
  {
    if p < |b| && b[p] != '.' && b[p] != ']' then FindDotOrBracket(b, p + 1) else p
  }

  /** readSizedByteBuf behind the opening bracket: abbreviated contents are discarded. */
  function ReadContents(b: string, p: nat, n: nat): (res: Result<(ByteVec, Cursor), TextError>)
    requires p <= |b|
    ensures res.Success? ==> |res.value.0| == n && p <= res.value.1.pos <= |b|
  {
    var dot := FindDotOrBracket(b, p);
    if dot < |b| && b[dot] == '.' then
      var q :- Find(b, p, ']');
      Success((Zeros(n), Cursor(q + 1, false)))
    else
      var (bytes, e) :- ReadPairs(b, p, 0, n);
      var r :- Close(b, Cursor(e, false), ']');
      Success((bytes, r))
  }

  /** Size entry and name. */
  function ReadHeader(u: bool, b: string, r: Cursor, e: Entry): (res: Result<(nat, Cursor), TextError>)
    requires r.pos <= |b|
    ensures res.Success? ==> r.pos <= res.value.1.pos <= |b|
  {
    var r1 :- ReadNamed(u, b, r, e.sizeType, e.sizeName);
    var (n, r2) :- ReadNumber(u, b, r1);
    var r3 :- ReadNamed(u, b, r2, e.ty, e.name);
    Success((n, r3))
  }

  /** readSizedByteBuf. */
  function ReadBuf(u: bool, b: string, r: Cursor, e: Entry): (res: Result<(ByteVec, Cursor), TextError>)
    requires r.pos <= |b|
    ensures res.Success? ==> r.pos <= res.value.1.pos <= |b|
  {
    var (n, r1) :- ReadHeader(u, b, r, e);
    var p :- ReadSeparator(u, b, r1.pos, r1.comma);
    var q :- Next(b, p, '[');
    ReadContents(b, q, n)
  }
}
