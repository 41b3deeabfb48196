/** The command and response frames of TPM 2.0 Library, Part 1, section 18: how DispatchOut lays
    out a command buffer, and the parser a TPM applies to it. */
module CommandFrames {
  import opened Bytes
  import opened Wrappers

  const TAG_NO_SESSIONS := 0x8001
  const TAG_SESSIONS := 0x8002

  /** TPMS_AUTH_COMMAND. */
  datatype AuthCommand = AuthCommand(handle: nat, nonce: ByteVec, attributes: byte, hmac: ByteVec)

  /** TPMS_AUTH_RESPONSE. */
  datatype AuthResponse = AuthResponse(nonce: ByteVec, attributes: byte, hmac: ByteVec)

  /** A command: its sessions are present exactly when the tag says so. */
  datatype Frame = Frame(cc: nat, handles: seq<nat>, auths: Option<seq<AuthCommand>>, params: ByteVec)

  function Sized(b: ByteVec): ByteVec {
    BigEndian(|b|, 2) + b
  }

  function EncodeAuth(a: AuthCommand): ByteVec {
    BigEndian(a.handle, 4) + (Sized(a.nonce) + ([a.attributes] + Sized(a.hmac)))
  }

  function EncodeAuths(auths: seq<AuthCommand>): ByteVec {
    if auths == [] then [] else EncodeAuth(auths[0]) + EncodeAuths(auths[1..])
  }

  function EncodeHandles(handles: seq<nat>): ByteVec {
    if handles == [] then [] else BigEndian(handles[0], 4) + EncodeHandles(handles[1..])
  }

  /** The session area with its size in front, if there are sessions. */
  function AuthArea(auths: Option<seq<AuthCommand>>): ByteVec {
    match auths
    case None => []
    case Some(a) => BigEndian(|EncodeAuths(a)|, 4) + EncodeAuths(a)
  }

  function Tag(auths: Option<seq<AuthCommand>>): nat {
    if auths.Some? then TAG_SESSIONS else TAG_NO_SESSIONS
  }

  function Body(f: Frame): ByteVec {
    EncodeHandles(f.handles) + (AuthArea(f.auths) + f.params)
  }

  /** The command buffer: tag, total size, command code, handles, sessions, parameters. */
  function EncodeCommand(f: Frame): ByteVec {
    BigEndian(Tag(f.auths), 2) + (BigEndian(10 + |Body(f)|, 4) + (BigEndian(f.cc, 4) + Body(f)))
  }

  lemma {:induction false} HandlesLength(values: seq<nat>)
    ensures |EncodeHandles(values)| == 4 * |values|
  {
    hide BigEndian;
    if values != [] {
      HandlesLength(values[1..]);
    }
  }

  lemma CommandLength(f: Frame)
    ensures |EncodeCommand(f)| == 10 + 4 * |f.handles| + |AuthArea(f.auths)| + |f.params|
  {
    hide BigEndian, EncodeHandles, AuthArea;
    HandlesLength(f.handles);
  }

  // ---------- parsing ----------

  /** Splits off a big-endian number. */
  function TakeNum(b: ByteVec, len: nat): (r: Option<(nat, ByteVec)>)
    ensures r.Some? ==> |r.value.1| + len == |b|
  {
    if |b| < len then None else Some((FromBigEndian(b[..len]), b[len..]))
  }

  function TakeBytes(b: ByteVec, len: nat): (r: Option<(ByteVec, ByteVec)>)
    ensures r.Some? ==> |r.value.0| == len && |r.value.1| + len == |b|
  {
    if |b| < len then None else Some((b[..len], b[len..]))
  }

  function TakeSized(b: ByteVec): (r: Option<(ByteVec, ByteVec)>)
    ensures r.Some? ==> |r.value.1| < |b|
  {
    match TakeNum(b, 2)
    case None => None
    case Some((n, rest)) => TakeBytes(rest, n)
  }

  function TakeByte(b: ByteVec): (r: Option<(byte, ByteVec)>)
    ensures r.Some? ==> |r.value.1| < |b|
  {
    if b == [] then None else Some((b[0], b[1..]))
  }

  function TakeAuth(b: ByteVec): (r: Option<(AuthCommand, ByteVec)>)
    ensures r.Some? ==> |r.value.1| < |b|
  {
    match TakeNum(b, 4)
    case None => None
    case Some((handle, b1)) =>
      match TakeSized(b1)
      case None => None
      case Some((nonce, b2)) =>
        match TakeByte(b2)
        case None => None
        case Some((attributes, b3)) =>
          match TakeSized(b3)
          case None => None
          case Some((hmac, b4)) => Some((AuthCommand(handle, nonce, attributes, hmac), b4))
  }

  function TakeAuths(b: ByteVec): Option<seq<AuthCommand>>
    decreases |b|
  {
    if b == [] then Some([]) else
    match TakeAuth(b)
    case None => None
    case Some((a, rest)) =>
      match TakeAuths(rest)
      case None => None
      case Some(auths) => Some([a] + auths)
  }

  function TakeHandles(b: ByteVec, n: nat): (r: Option<(seq<nat>, ByteVec)>)
    ensures r.Some? ==> |r.value.0| == n
    decreases n
  {
    if n == 0 then Some(([], b)) else
    match TakeNum(b, 4)
    case None => None
    case Some((h, rest)) =>
      match TakeHandles(rest, n - 1)
      case None => None
      case Some((hs, b')) => Some(([h] + hs, b'))
  }

  /** The session area of a command whose tag announces sessions, then the parameters. */
  function TakeAuthArea(b: ByteVec): Option<(seq<AuthCommand>, ByteVec)> {
    match TakeNum(b, 4)
    case None => None
    case Some((size, b1)) =>
      match TakeBytes(b1, size)
      case None => None
      case Some((area, params)) =>
        match TakeAuths(area)
        case None => None
        case Some(auths) => Some((auths, params))
  }

  function ParseBody(tag: nat, cc: nat, b: ByteVec, numHandles: nat): Option<Frame> {
    match TakeHandles(b, numHandles)
    case None => None
    case Some((handles, rest)) =>
      if tag == TAG_NO_SESSIONS then Some(Frame(cc, handles, None, rest))
      else if tag == TAG_SESSIONS then
        match TakeAuthArea(rest)
        case None => None
        case Some((auths, params)) => Some(Frame(cc, handles, Some(auths), params))
      else None
  }

  /** A command buffer is accepted only if its size field is its length and its session area is
      filled exactly by sessions. */
  function ParseCommand(b: ByteVec, numHandles: nat): Option<Frame> {
    match TakeNum(b, 2)
    case None => None
    case Some((tag, b1)) =>
      match TakeNum(b1, 4)
      case None => None
      case Some((size, b2)) =>
        match TakeNum(b2, 4)
        case None => None
        case Some((cc, body)) => if size != |b| then None else ParseBody(tag, cc, body, numHandles)
  }

  // ---------- parsing what was framed ----------

  /** The numbers of a frame fit their fields. */
  predicate FrameFits(f: Frame) {
    && f.cc < 0x1_0000_0000
    && (forall i | 0 <= i < |f.handles| :: f.handles[i] < 0x1_0000_0000)
    && (f.auths.Some? ==> forall i | 0 <= i < |f.auths.value| :: AuthFits(f.auths.value[i]))
    && 10 + |Body(f)| < 0x1_0000_0000
  }

  predicate AuthFits(a: AuthCommand) {
    a.handle < 0x1_0000_0000 && |a.nonce| < 0x1_0000 && |a.hmac| < 0x1_0000
  }

  lemma TakeNumOf(n: nat, len: nat, rest: ByteVec)
    requires n < Pow256(len)
    ensures TakeNum(BigEndian(n, len) + rest, len) == Some((n, rest))
  {
    BigEndianRoundTrip(n, len);
    var b := BigEndian(n, len) + rest;
    assert b[..len] == BigEndian(n, len) && b[len..] == rest;
  }

  lemma TakeBytesOf(x: ByteVec, rest: ByteVec)
    ensures TakeBytes(x + rest, |x|) == Some((x, rest))
  {
    var b := x + rest;
    assert b[..|x|] == x && b[|x|..] == rest;
  }

  lemma TakeSizedOf(x: ByteVec, rest: ByteVec)
    requires |x| < 0x1_0000
    ensures TakeSized(Sized(x) + rest) == Some((x, rest))
  {
    Pow256Values();
    assert Sized(x) + rest == BigEndian(|x|, 2) + (x + rest);
    TakeNumOf(|x|, 2, x + rest);
    TakeBytesOf(x, rest);
  }

  lemma TakeAuthOf(a: AuthCommand, rest: ByteVec)
    requires AuthFits(a)
    ensures TakeAuth(EncodeAuth(a) + rest) == Some((a, rest))
  {
    hide BigEndian, Sized, TakeSized, TakeNum;
    Pow256Values();
    var b3 := Sized(a.hmac) + rest;
    var b2 := [a.attributes] + b3;
    var b1 := Sized(a.nonce) + b2;
    assert EncodeAuth(a) + rest == BigEndian(a.handle, 4) + b1;
    TakeNumOf(a.handle, 4, b1);
    TakeSizedOf(a.nonce, b2);
    assert b2[1..] == b3;
    TakeSizedOf(a.hmac, rest);
  }

  lemma {:induction false} TakeAuthsOf(auths: seq<AuthCommand>)
    requires forall i | 0 <= i < |auths| :: AuthFits(auths[i])
    ensures TakeAuths(EncodeAuths(auths)) == Some(auths)
    decreases |auths|
  {
    hide EncodeAuth, TakeAuth;
    if auths != [] {
      TakeAuthOf(auths[0], EncodeAuths(auths[1..]));
      TakeAuthsOf(auths[1..]);
      assert [auths[0]] + auths[1..] == auths;
    }
  }

  lemma {:induction false} TakeHandlesOf(handles: seq<nat>, rest: ByteVec)
    requires forall i | 0 <= i < |handles| :: handles[i] < 0x1_0000_0000
    ensures TakeHandles(EncodeHandles(handles) + rest, |handles|) == Some((handles, rest))
    decreases |handles|
  {
    hide BigEndian, TakeNum;
    if handles == [] {
      assert [] + rest == rest;
    } else {
      Pow256Values();
      var b := EncodeHandles(handles[1..]) + rest;
      assert EncodeHandles(handles) + rest == BigEndian(handles[0], 4) + b;
      TakeNumOf(handles[0], 4, b);
      TakeHandlesOf(handles[1..], rest);
      assert [handles[0]] + handles[1..] == handles;
    }
  }

  lemma TakeAuthAreaOf(auths: seq<AuthCommand>, params: ByteVec)
    requires forall i | 0 <= i < |auths| :: AuthFits(auths[i])
    requires |EncodeAuths(auths)| < 0x1_0000_0000
    ensures TakeAuthArea(AuthArea(Some(auths)) + params) == Some((auths, params))
  {
    hide BigEndian, TakeNum, TakeBytes, TakeAuths, EncodeAuths;
    Pow256Values();
    var area := EncodeAuths(auths);
    assert AuthArea(Some(auths)) + params == BigEndian(|area|, 4) + (area + params);
    TakeNumOf(|area|, 4, area + params);
    TakeBytesOf(area, params);
    TakeAuthsOf(auths);
  }

  /** A framed command parses back to its code, handles, sessions and parameters. */
  lemma ParseOfEncode(f: Frame)
    requires FrameFits(f)
    ensures ParseCommand(EncodeCommand(f), |f.handles|) == Some(f)
  {
    hide BigEndian, TakeNum, ParseBody, Body;
    Pow256Values();
    var body := Body(f);
    var b2 := BigEndian(f.cc, 4) + body;
    var b1 := BigEndian(10 + |body|, 4) + b2;
    TakeNumOf(Tag(f.auths), 2, b1);
    TakeNumOf(10 + |body|, 4, b2);
    TakeNumOf(f.cc, 4, body);
    assert |EncodeCommand(f)| == 10 + |body|;
    ParseBodyOf(f);
  }

  lemma ParseBodyOf(f: Frame)
    requires FrameFits(f)
    ensures ParseBody(Tag(f.auths), f.cc, Body(f), |f.handles|) == Some(f)
  {
    hide BigEndian, TakeNum, EncodeAuths, EncodeHandles, TakeHandles, TakeAuthArea;
    TakeHandlesOf(f.handles, AuthArea(f.auths) + f.params);
    if f.auths.Some? {
      TakeAuthAreaOf(f.auths.value, f.params);
    } else {
      assert [] + f.params == f.params;
    }
  }

  // ---------- uniqueness ----------

  lemma {:induction false} BigEndianOfFrom(bs: ByteVec)
    ensures BigEndian(FromBigEndian(bs), |bs|) == bs
  {
    if bs == [] {
    } else {
      var front := bs[..|bs| - 1];
      BigEndianOfFrom(front);
      var n := FromBigEndian(bs);
      assert n / 256 == FromBigEndian(front) && n % 256 == bs[|bs| - 1] as int;
      assert bs == front + [bs[|bs| - 1]];
    }
  }

  lemma NumTaken(b: ByteVec, len: nat)
    requires TakeNum(b, len).Some?
    ensures var (n, rest) := TakeNum(b, len).value;
            b == BigEndian(n, len) + rest && n < Pow256(len)
  {
    BigEndianOfFrom(b[..len]);
    FromBigEndianBound(b[..len]);
    assert b == b[..len] + b[len..];
  }

  lemma SizedTaken(b: ByteVec)
    requires TakeSized(b).Some?
    ensures var (x, rest) := TakeSized(b).value;
            b == Sized(x) + rest && |x| < 0x1_0000
  {
    hide BigEndian, TakeNum;
    Pow256Values();
    NumTaken(b, 2);
    var (n, b1) := TakeNum(b, 2).value;
    assert b1 == b1[..n] + b1[n..];
    assert BigEndian(n, 2) + (b1[..n] + b1[n..]) == Sized(b1[..n]) + b1[n..];
  }

  lemma AuthTaken(b: ByteVec)
    requires TakeAuth(b).Some?
    ensures var (a, rest) := TakeAuth(b).value;
            b == EncodeAuth(a) + rest && AuthFits(a)
  {
    hide BigEndian, TakeNum, TakeSized, Sized;
    Pow256Values();
    var (a, rest) := TakeAuth(b).value;
    NumTaken(b, 4);
    var (handle, b1) := TakeNum(b, 4).value;
    SizedTaken(b1);
    var (nonce, b2) := TakeSized(b1).value;
    assert b2 == [b2[0]] + b2[1..];
    SizedTaken(b2[1..]);
    var tail := Sized(a.hmac) + rest;
    assert [b2[0]] + tail == ([b2[0]] + Sized(a.hmac)) + rest;
    assert Sized(nonce) + (([b2[0]] + Sized(a.hmac)) + rest) == (Sized(nonce) + ([b2[0]] + Sized(a.hmac))) + rest;
  }

  lemma {:induction false} AuthsTaken(b: ByteVec)
    requires TakeAuths(b).Some?
    ensures var auths := TakeAuths(b).value;
            b == EncodeAuths(auths) && forall i | 0 <= i < |auths| :: AuthFits(auths[i])
    decreases |b|
  {
    hide TakeAuth, EncodeAuth;
    if b != [] {
      var (a, rest) := TakeAuth(b).value;
      AuthTaken(b);
      AuthsTaken(rest);
      var tail := TakeAuths(rest).value;
      assert ([a] + tail)[1..] == tail;
    }
  }

  lemma {:induction false} HandlesTaken(b: ByteVec, n: nat)
    requires TakeHandles(b, n).Some?
    ensures var (hs, rest) := TakeHandles(b, n).value;
            b == EncodeHandles(hs) + rest && forall i | 0 <= i < |hs| :: hs[i] < 0x1_0000_0000
    decreases n
  {
    hide BigEndian, TakeNum;
    if n == 0 {
      assert [] + b == b;
    } else {
      Pow256Values();
      NumTaken(b, 4);
      var (h, b1) := TakeNum(b, 4).value;
      HandlesTaken(b1, n - 1);
      var (hs, rest) := TakeHandles(b1, n - 1).value;
      assert ([h] + hs)[1..] == hs;
      assert BigEndian(h, 4) + (EncodeHandles(hs) + rest) == (BigEndian(h, 4) + EncodeHandles(hs)) + rest;
    }
  }

  lemma BodyTaken(tag: nat, cc: nat, b: ByteVec, numHandles: nat)
    requires ParseBody(tag, cc, b, numHandles).Some? && cc < 0x1_0000_0000 && 10 + |b| < 0x1_0000_0000
    ensures var f := ParseBody(tag, cc, b, numHandles).value;
            b == Body(f) && tag == Tag(f.auths) && f.cc == cc && FrameFits(f) && |f.handles| == numHandles
  {
    hide BigEndian, TakeNum, TakeHandles, EncodeHandles, TakeAuths, EncodeAuths;
    HandlesTaken(b, numHandles);
    var (handles, rest) := TakeHandles(b, numHandles).value;
    if tag == TAG_NO_SESSIONS {
      assert [] + rest == rest;
    } else {
      var (auths, params) := TakeAuthArea(rest).value;
      NumTaken(rest, 4);
      var (size, b1) := TakeNum(rest, 4).value;
      AuthsTaken(b1[..size]);
      assert b1 == b1[..size] + b1[size..];
      assert BigEndian(size, 4) + (b1[..size] + b1[size..]) == (BigEndian(size, 4) + b1[..size]) + b1[size..];
    }
  }

  /** Conversely, a buffer that parses is the one framing of what it parses to. */
  lemma EncodeOfParse(b: ByteVec, numHandles: nat)
    requires ParseCommand(b, numHandles).Some?
    ensures var f := ParseCommand(b, numHandles).value;
            b == EncodeCommand(f) && FrameFits(f) && |f.handles| == numHandles
  {
    hide BigEndian, TakeNum, ParseBody, Body, FrameFits;
    Pow256Values();
    NumTaken(b, 2);
    var (tag, b1) := TakeNum(b, 2).value;
    NumTaken(b1, 4);
    var (size, b2) := TakeNum(b1, 4).value;
    NumTaken(b2, 4);
    var (cc, body) := TakeNum(b2, 4).value;
    BodyTaken(tag, cc, body, numHandles);
  }
}
