/** The part of the text serializers that both formats share, TextSerializer (Serialize.cpp): the text
    buffer with position, indentation, comma, line and name state, and the operations on tokens. */
module TextSerializers {
  import opened Wrappers
  import opened JsonText
  import opened JsonRoundTrip

  class TextSerializer {
    var buf: string
    var pos: nat
    var indent: int
    var commaExpected: bool
    var newLine: bool
    var valName: string
    var valType: string
    var sizeName: string
    var sizeType: string

    /** An empty serializer, ready to write. */
    constructor ()
      ensures Started("")
    {
      buf, pos, indent, commaExpected, newLine := "", 0, 0, false, true;
      valName, valType, sizeName, sizeType := "", "", "", "";
    }

    /** Ready to write behind, or to read, the text. */
    predicate Started(text: string)
      reads this
    {
      && buf == text && pos == 0 && Lay() == START
      && valName == valType == sizeName == sizeType == ""
    }

    function Lay(): Layout
      reads this
    {
      Layout(indent, commaExpected, newLine)
    }

    /** The output `o` was appended. */
    twostate predicate Wrote(o: Out)
      reads this
    {
      buf == old(buf) + o.text && Lay() == o.lay
    }

    method Reset(text: string)
      modifies this
      ensures Started(text)
    {
      buf, pos, indent, commaExpected, newLine := text, 0, 0, false, true;
      valName, valType, sizeName, sizeType := "", "", "", "";
    }

    method With(name: string, ty: string, size: string, tyOfSize: string)
      modifies this`valName, this`valType, this`sizeName, this`sizeType
      ensures valName == name && valType == ty && sizeName == size && sizeType == tyOfSize
    {
      valName, valType, sizeName, sizeType := name, ty, size, tyOfSize;
    }

    /** The size of an array goes under its own name and type. */
    method BeginArrSizeOp()
      modifies this`valName, this`valType, this`sizeName, this`sizeType
      ensures valName == old(sizeName) && sizeName == old(valName)
      ensures valType == old(sizeType) && sizeType == old(valType)
    {
      valName, sizeName := sizeName, valName;
      valType, sizeType := sizeType, valType;
    }

    /** The array keeps the name and type given to it. */
    method EndArrSizeOp()
      modifies this`valName, this`valType, this`sizeName, this`sizeType
      ensures valName == old(sizeName) && valType == old(sizeType) && sizeName == sizeType == ""
    {
      valName, valType := sizeName, sizeType;
      sizeName, sizeType := "", "";
    }

    method Write(str: string)
      requires str != ""
      modifies this`buf, this`newLine
      ensures Wrote(Put(old(Lay()), str))
    {
      if str == "\n" && newLine {
        return;
      }
      if newLine {
        buf := buf + Spaces(indent);
      }
      buf := buf + str;
      newLine := str[|str| - 1] == '\n';
    }

    method WriteLine(str: string)
      modifies this`buf, this`newLine
      ensures Wrote(Put(old(Lay()), str + "\n"))
    {
      Write(str + "\n");
    }

    method WriteComma(line: bool)
      modifies this`buf, this`newLine
      ensures Wrote(Comma(old(Lay()), line))
    {
      if commaExpected {
        Write(if line then ",\n" else ", ");
      }
    }

    method BeginWriteObj()
      modifies this`buf, this`newLine, this`commaExpected, this`indent
      ensures Wrote(BeginObj(old(Lay())))
    {
      WriteComma(true);
      WriteLine("{");
      assert "{" + "\n" == "{\n";
      indent := indent + 4;
      commaExpected := false;
    }

    method EndWriteObj()
      modifies this`buf, this`newLine, this`commaExpected, this`indent
      ensures Wrote(EndObj(old(Lay())))
    {
      indent := indent - 4;
      WriteLine("");
      assert "" + "\n" == "\n";
      Write("}");
      commaExpected := true;
    }

    method BeginWriteArr(tabIn: bool)
      modifies this`buf, this`newLine, this`commaExpected, this`indent
      ensures Wrote(BeginArr(old(Lay()), tabIn))
    {
      WriteComma(true);
      if tabIn {
        WriteLine("[");
        assert "[" + "\n" == "[\n";
        indent := indent + 4;
      } else {
        Write("[");
      }
      commaExpected := false;
    }

    method EndWriteArr(tabOut: bool)
      modifies this`buf, this`newLine, this`commaExpected, this`indent
      ensures Wrote(EndArr(old(Lay()), tabOut))
    {
      if tabOut {
        indent := indent - 4;
        WriteLine("");
        assert "" + "\n" == "\n";
      }
      Write("]");
      commaExpected := true;
    }

    /** Reading succeeded as `r` says: only position and comma state moved. On an exception nothing is
        promised but that the text is as it was. */
    predicate ReadTo(b: string, r: Cursor)
      reads this
    {
      buf == b && pos == r.pos && commaExpected == r.comma
    }

    method SkipSpaces() returns (r: Outcome<TextError>)
      requires pos <= |buf|
      modifies this`pos
      ensures match SkipSpace(buf, old(pos))
              case Failure(e) => r == Fail(e)
              case Success(p) => r.Pass? && pos == p
    {
      var p := pos;
      while p < |buf| && IsSpace(buf[p])
        invariant pos <= p <= |buf| && forall i | pos <= i < p :: IsSpace(buf[i])
      {
        p := p + 1;
      }
      if p == |buf| {
        OnlySpace(buf, pos);
        return Fail(PrematureEnd(pos));
      }
      SkipsSpace(buf, pos, p);
      pos := p;
      r := Pass;
    }

    method NextToken(token: char) returns (r: Outcome<TextError>)
      requires pos <= |buf|
      modifies this`pos
      ensures match Next(buf, old(pos), token)
              case Failure(e) => r == Fail(e)
              case Success(p) => r.Pass? && pos == p
    {
      hide SkipSpace;
      r := SkipSpaces();
      if r.Fail? {
        return;
      }
      if buf[pos] != token {
        return Fail(Missing(token, pos));
      }
      pos := pos + 1;
    }

    method FindToken(token: char) returns (r: Outcome<TextError>)
      requires pos <= |buf|
      modifies this`pos
      ensures match Find(buf, old(pos), token)
              case Failure(e) => r == Fail(e)
              case Success(p) => r.Pass? && pos == p
    {
      var p := pos;
      while p < |buf| && buf[p] != token
        invariant pos <= p <= |buf| && forall i | pos <= i < p :: buf[i] != token
      {
        p := p + 1;
      }
      if p == |buf| {
        NotFound(buf, pos, token);
        return Fail(Missing(token, pos));
      }
      FindAt(buf, pos, p, token);
      pos := p;
      r := Pass;
    }

    method ReadCommas() returns (r: Outcome<TextError>)
      requires pos <= |buf|
      modifies this`pos
      ensures match ReadComma(buf, old(pos), commaExpected)
              case Failure(e) => r == Fail(e)
              case Success(p) => r.Pass? && pos == p
    {
      r := Pass;
      if commaExpected {
        r := NextToken(',');
      }
    }

    /** BeginReadObj and BeginReadArr. */
    method BeginRead(bracket: char) returns (r: Outcome<TextError>)
      requires pos <= |buf|
      modifies this`pos, this`commaExpected
      ensures match Open(buf, Cursor(old(pos), old(commaExpected)), bracket)
              case Failure(e) => r == Fail(e)
              case Success(c) => r.Pass? && ReadTo(buf, c)
    {
      hide ReadComma, Next;
      r := ReadCommas();
      if r.Fail? {
        return;
      }
      r := NextToken(bracket);
      commaExpected := false;
    }

    /** EndReadObj and EndReadArr. */
    method EndRead(bracket: char) returns (r: Outcome<TextError>)
      requires pos <= |buf|
      modifies this`pos, this`commaExpected
      ensures match Close(buf, Cursor(old(pos), old(commaExpected)), bracket)
              case Failure(e) => r == Fail(e)
              case Success(c) => r.Pass? && ReadTo(buf, c)
    {
      hide Next;
      r := NextToken(bracket);
      commaExpected := true;
    }
  }

  lemma {:induction false} OnlySpace(b: string, p: nat)
    requires p <= |b| && forall i | p <= i < |b| :: IsSpace(b[i])
    ensures SkipSpace(b, p) == Failure(PrematureEnd(p))
    decreases |b| - p
  {
    if p < |b| {
      OnlySpace(b, p + 1);
    }
  }

  lemma {:induction false} NotFound(b: string, p: nat, c: char)
    requires p <= |b| && forall i | p <= i < |b| :: b[i] != c
    ensures Find(b, p, c) == Failure(Missing(c, p))
    decreases |b| - p
  {
    if p < |b| {
      NotFound(b, p + 1, c);
    }
  }
}
