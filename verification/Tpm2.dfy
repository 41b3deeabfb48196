/** The Tpm2 object (Tpm2.cpp): the two phases of a dispatch, step by step on its fields, the
    sessions given to it and the command and response buffers. */
module Tpm2Objects {
  import opened Bytes
  import opened CryptoModel
  import opened Wrappers
  import opened TpmBuffers
  import opened CommandFrames
  import opened CommandWriting
  import opened SessionModel
  import opened DispatchSpec
  import opened AuthSessions
  import opened SessionProtocol
  import opened WireFormat

  /** `p` is the i-th session, or null. */
  predicate PointsTo(p: AuthSession?, sessions: seq<AuthSession>, i: Option<nat>) {
    match i
    case None => p == null
    case Some(k) => k < |sessions| && p == sessions[k]
  }

  /** `p` is null, one of the sessions, or another session object with the given value. */
  ghost predicate Refers(p: AuthSession?, sessions: seq<AuthSession>, e: EncSession)
    reads p
  {
    match e
    case NoSession => p == null
    case Slot(k) => k < |sessions| && p == sessions[k]
    case Outside(s) => p != null && p !in sessions && p.Value() == s
  }

  ghost function ValuesOf(sessions: seq<AuthSession>): (r: seq<Session>)
    reads sessions
    ensures |r| == |sessions|
  {
    seq(|sessions|, i requires 0 <= i < |sessions| reads sessions => sessions[i].Value())
  }

  /** Only a password session may be listed more than once. */
  ghost predicate DistinctIn(sessions: seq<AuthSession>)
    reads sessions
  {
    forall i, j | 0 <= i < j < |sessions| && sessions[i] == sessions[j] :: sessions[i].IsPwap()
  }

  lemma {:induction false} EncodeAuthsSnoc(auths: seq<AuthCommand>, a: AuthCommand)
    ensures EncodeAuths(auths + [a]) == EncodeAuths(auths) + EncodeAuth(a)
  {
    hide EncodeAuth;
    if auths == [] {
      assert EncodeAuths([a]) == EncodeAuth(a) + EncodeAuths([a][1..]);
    } else {
      assert (auths + [a])[1..] == auths[1..] + [a];
      EncodeAuthsSnoc(auths[1..], a);
    }
  }

  lemma {:induction false} EncodeAuthsPrefix(auths: seq<AuthCommand>, i: nat)
    requires i <= |auths|
    ensures |EncodeAuths(auths[..i])| <= |EncodeAuths(auths)|
    decreases |auths| - i
  {
    hide EncodeAuth;
    if i == |auths| {
      assert auths[..i] == auths;
    } else {
      assert auths[..i + 1] == auths[..i] + [auths[i]];
      EncodeAuthsSnoc(auths[..i], auths[i]);
      EncodeAuthsPrefix(auths, i + 1);
    }
  }

  /** A policy session that sends a password needs a handle to take it from. */
  predicate PasswordHandles(ss: seq<Session>, hs: seq<Handle>) {
    forall i | 0 <= i < |ss| :: ss[i].needsPassword ==> i < |hs|
  }

  lemma EntryOfWithAuth(c: Crypto, s: Session, hs: seq<Handle>, numAuth: nat, data: ByteVec, nonceDec: ByteVec,
                        nonceEnc: ByteVec, i: nat, before: ByteVec)
    requires numAuth <= |hs| && (s.IsPwap() || s.needsPassword ==> i < |hs|)
    ensures EntryAfter(c, WithAuth(s, hs, numAuth, i), hs, numAuth, data, nonceDec, nonceEnc, i, before)
         == EntryAfter(c, s, hs, numAuth, data, nonceDec, nonceEnc, i, before)
  {
    hide SessionModel.GetAuthHmac;
  }

  lemma SameSlots(ss: seq<Session>, hs: seq<Handle>, hs': seq<Handle>)
    requires PwapHandles(ss, hs) && PasswordHandles(ss, hs) && |hs'| == |hs|
    ensures PwapHandles(ss, hs') && PasswordHandles(ss, hs')
  {}

  function WithNonce(s: Session, nonce: ByteVec): Session {
    if s.IsPwap() then s else s.(nonceCaller := nonce)
  }

  /** The bytes of a command in the order in which they are written. */
  lemma FrameBytes(f: Frame, rest: ByteVec)
    requires rest == BigEndian(f.cc, 4) + EncodeHandles(f.handles) + AuthArea(f.auths)
    ensures EncodeCommand(f) == BigEndian(Tag(f.auths), 2) + (BigEndian(6 + |rest| + |f.params|, 4) + (rest + f.params))
    ensures |EncodeCommand(f)| == 6 + |rest| + |f.params|
  {
    hide BigEndian, EncodeHandles, AuthArea;
    assert rest + f.params == BigEndian(f.cc, 4) + Body(f);
  }

  lemma NoneDistinct()
    ensures DistinctIn([])
  {}

  lemma {:induction false} AppendNamesGrows(acc: ByteVec, hs: seq<Handle>)
    ensures AppendNames(acc, hs).Success? ==> |AppendNames(acc, hs).value| >= |acc|
    decreases |hs|
  {
    hide GetName;
    if hs != [] {
      var name := GetName(hs[0]);
      if name.Success? {
        AppendNamesGrows(acc + name.value, hs[1..]);
      }
    }
  }

  /** An empty cpHash buffer means that nothing was hashed. */
  lemma HashedNotEmpty(c: Crypto, t: Tss, ss: seq<Session>, cc: nat, req: Request, nonces: seq<ByteVec>)
    requires c.Valid() && RequestOk(cc, req)
    requires |Padded(ss, req.numAuth)| <= |nonces| && PwapHandles(Padded(ss, req.numAuth), req.handles)
    ensures var p := Prepare(c, t, ss, cc, req, nonces);
            p.Success? && p.value.data.Some? ==> p.value.data.value != []
  {
    hide Padded, SentParams, LastWith, DecNonce, EncNonce, AuthEntries, NeedsCpHash, Authorized, RhHandles, Rolled, AppendNames, BigEndian;
    AppendNamesGrows(BigEndian(cc, 4), req.handles);
  }

  lemma SendPreparedSessions(c: Crypto, t: Tss, p: Prepared, hasDevice: bool, cc: nat, req: Request)
    requires RequestOk(cc, req)
    ensures var r := SendPrepared(c, t, p, hasDevice, cc, req);
            && (|EncodeCommand(p.frame)| > CAPACITY ==> r == OutThrown(Marshal(OutOfBounds), None))
            && (r.Captured? || r.Sent? ==> r.sessions == p.sessions) && (r.Captured? || r.Sent? ==> r.tss.encSession == p.tss.encSession)
  {
    hide EncodeCommand, CpHashData, Remember;
  }

  /** Response code and command code stand right before the response parameters. */
  predicate RpReady(b: ByteVec, cc: nat, respParamsPos: nat) {
    8 <= respParamsPos <= |b| && b[respParamsPos - 8..respParamsPos] == BigEndian(0, 4) + BigEndian(cc, 4)
  }

  lemma TailPart(b: ByteVec, b': ByteVec, p: nat, n: nat)
    requires p + n <= |b| == |b'| && b'[p..] == b[p..]
    ensures b'[p..p + n] == b[p..p + n]
  {
    assert b'[p..p + n] == b'[p..][..n];
    assert b[p..p + n] == b[p..][..n];
  }

  /** Reading past the overwritten bytes gives what reading the response gives. */
  lemma SameRead(b: ByteVec, b': ByteVec, from: nat, p: nat)
    requires from <= |b| == |b'| && b'[from..] == b[from..] && from <= p
    ensures DispatchSpec.ReadAuthResponse(b', p) == DispatchSpec.ReadAuthResponse(b, p)
    ensures var r := DispatchSpec.ReadAuthResponse(b, p); r.Success? ==> p <= r.value.1 <= |b|
  {
    hide FromBigEndian;
    SameSizedRead(b, b', from, p);
    var nonce := ReadSizedBuf(b, p, 2);
    if nonce.Success? {
      var q := p + 2 + |nonce.value|;
      if q + 1 <= |b| {
        TailPart(b, b', from, q + 1 - from);
        assert b'[q] == b'[from..][q - from] == b[from..][q - from] == b[q];
        SameSizedRead(b, b', from, q + 1);
      }
    }
  }

  lemma SameSizedRead(b: ByteVec, b': ByteVec, from: nat, p: nat)
    requires from <= |b| == |b'| && b'[from..] == b[from..] && from <= p
    ensures ReadSizedBuf(b', p, 2) == ReadSizedBuf(b, p, 2)
  {
    hide FromBigEndian;
    if p + 2 <= |b| {
      SamePart(b, b', from, p, p + 2);
      var len := FromBigEndian(b[p..p + 2]);
      if p + 2 + len <= |b| {
        SamePart(b, b', from, p + 2, p + 2 + len);
      }
    }
  }

  lemma DropSlice(b: ByteVec, from: nat, i: nat, j: nat)
    requires from <= i <= j <= |b|
    ensures b[from..][i - from..j - from] == b[i..j]
  {
    assert forall k | 0 <= k < j - i :: b[i..j][k] == b[i + k] == b[from..][i - from + k];
  }

  lemma SamePart(b: ByteVec, b': ByteVec, from: nat, i: nat, j: nat)
    requires from <= i <= j <= |b| == |b'| && b'[from..] == b[from..]
    ensures b'[i..j] == b[i..j]
  {
    DropSlice(b, from, i, j);
    DropSlice(b', from, i, j);
  }

  lemma RespSessionsStep(c: Crypto, ss: seq<Session>, hs: seq<Handle>, cc: nat, params: ByteVec, b: ByteVec, p: nat,
                         nonceDec: ByteVec, nonceEnc: ByteVec, j: nat)
    requires j < |ss|
    ensures RespSessions(c, ss, hs, cc, params, b, p, nonceDec, nonceEnc, j) == (
              match DispatchSpec.ReadAuthResponse(b, p)
              case Failure(e) => Failure(e)
              case Success(x) =>
                if ss[j].IsPwap() then RespSessions(c, ss, hs, cc, params, b, x.1, nonceDec, nonceEnc, j + 1)
                else if !ResponseAccepted(c, ss[j], hs, j, x.0, cc, params, nonceDec, nonceEnc) then Failure(InvalidHmac)
                else RespSessions(c, ss[j := Updated(ss[j], hs, j, x.0)], hs, cc, params, b, x.1, nonceDec, nonceEnc, j + 1))
  {
    hide DispatchSpec.ReadAuthResponse, ResponseAccepted;
  }

  lemma RespSessionsEnd(c: Crypto, ss: seq<Session>, hs: seq<Handle>, cc: nat, params: ByteVec, b: ByteVec, p: nat,
                        nonceDec: ByteVec, nonceEnc: ByteVec)
    ensures RespSessions(c, ss, hs, cc, params, b, p, nonceDec, nonceEnc, |ss|) == Success((ss, p))
  {}

  /** The TSS once the response code was looked at. */
  function Settled(cc: nat, t: Tss, respCode: nat): Tss
    requires HandlesFor(cc, t)
  {
    var t1 := t.(lastResponseCode := BareCode(respCode));
    ClearInvocation(if respCode == 0 then CompleteUpdate(cc, t1) else t1)
  }

  /** What DispatchIn does with a response code other than RETRY. */
  function Reaction(c: Crypto, t: Tss, ss: seq<Session>, cc: nat, resp: Response, tag: nat, respCode: nat, b: ByteVec): Incoming
    requires c.Valid() && ResponseOk(resp) && HandlesFor(cc, t) && EncOk(Settled(cc, t, respCode).encSession, ss) && |b| >= 10
  {
    var t' := Settled(cc, t, respCode);
    if ThrowsOn(t, respCode) then InThrown(TssError.TpmError(BareCode(respCode)), t', true)
    else if BareCode(respCode) != 0 then Failed(t')
    else Complete(c, t', ss, cc, resp, t.auditCommand, tag, b)
  }

  lemma SettledEncSession(cc: nat, t: Tss, respCode: nat)
    requires HandlesFor(cc, t)
    ensures Settled(cc, t, respCode).encSession == t.encSession
  {
    hide BareCode;
  }

  /** InStep past the header of the response. */
  lemma InStepReacts(c: Crypto, t: Tss, ss: seq<Session>, cc: nat, resp: Response, b: ByteVec)
    requires c.Valid() && ResponseOk(resp) && HandlesFor(cc, t) && EncOk(t.encSession, ss)
    requires t.pending == cc != 0 && (t.auditCommand ==> t.auditAlg != ALG_NULL)
    requires |b| >= 10 && Num(b, 2, 4) == |b| && Num(b, 6, 4) != RC_RETRY
    ensures Settled(cc, t.(pending := 0), Num(b, 6, 4)).encSession == t.encSession
    ensures InStep(c, t, ss, cc, resp, b) == Reaction(c, t.(pending := 0), ss, cc, resp, Num(b, 0, 2), Num(b, 6, 4), b)
  {
    hide FromBigEndian, BareCode, Complete, CompleteUpdate, ThrowsOn;
    SettledEncSession(cc, t.(pending := 0), Num(b, 6, 4));
  }

  lemma AuditedKeeps(c: Crypto, t: Tss, cc: nat, audit: bool, params: ByteVec)
    ensures Audited(c, t, cc, audit, params).encSession == t.encSession
    ensures !audit ==> Audited(c, t, cc, audit, params) == t
  {}

  /** Decryption does not depend on the bytes that were overwritten. */
  lemma SameXcrypt(c: Crypto, s: Session, b: ByteVec, b': ByteVec, p: nat, sizeLen: nat, valLen: nat, n: nat)
    requires c.Valid() && p + n <= |b| == |b'| && b'[p..] == b[p..]
    ensures var r, r' := XcryptAt(c, s, b, p, sizeLen, valLen, false), XcryptAt(c, s, b', p, sizeLen, valLen, false);
            match r'
            case Failure(e) => r == Failure(e)
            case Success(x) => r.Success? && r.value[p..p + n] == x[p..p + n]
  {
    hide XcryptAt;
    XcryptSuffix(c, s, b, p, sizeLen, valLen, false);
    XcryptSuffix(c, s, b', p, sizeLen, valLen, false);
    var r, r' := XcryptAt(c, s, b, p, sizeLen, valLen, false), XcryptAt(c, s, b', p, sizeLen, valLen, false);
    if r.Success? {
      TailPart(r.value, r'.value, p, n);
    }
  }

  lemma HandlesFew(cc: nat, req: Request)
    requires RequestOk(cc, req)
    ensures |req.handles| <= 3
  {}

  lemma PrepareWithout(c: Crypto, t: Tss, ss: seq<Session>, cc: nat, req: Request, nonces: seq<ByteVec>)
    requires c.Valid() && RequestOk(cc, req) && !HasSessions(ss, req)
    requires |Padded(ss, req.numAuth)| <= |nonces| && PwapHandles(Padded(ss, req.numAuth), req.handles)
    ensures Prepare(c, t, ss, cc, req, nonces)
         == Success(Prepared([], req.handles, None, req.params, Frame(cc, HandleValues(req.handles), None, req.params),
                             t.(sessTag := TAG_NO_SESSIONS, inHandles := req.handles)))
  {
    hide Padded;
  }

  /** Prepare in terms of the session area. */
  lemma PrepareWith(c: Crypto, t: Tss, ss: seq<Session>, cc: nat, req: Request, nonces: seq<ByteVec>)
    requires c.Valid() && RequestOk(cc, req) && HasSessions(ss, req)
    requires |Padded(ss, req.numAuth)| <= |nonces| && PwapHandles(Padded(ss, req.numAuth), req.handles)
    ensures var ss', r := Rolled(Padded(ss, req.numAuth), nonces), Prepare(c, t, ss, cc, req, nonces);
            var params, hs := SentParams(c, ss', req), RhHandles(t.admin, req.handles, |ss'|);
            if params.Failure? then r == Failure(params.error) else
            var data := if NeedsCpHash(ss') then CpHashData(cc, req.handles, params.value) else Success([]);
            if data.Failure? then r == Failure(data.error) else
            && PwapHandles(ss', hs) && r.Success?
            && r.value.frame == Frame(cc, HandleValues(req.handles),
                                      Some(AuthEntries(c, ss', hs, req.numAuth, data.value, DecNonce(ss'), EncNonce(ss'))), params.value)
            && r.value.params == params.value && r.value.handles == hs && r.value.sessions == Authorized(ss', hs, req.numAuth)
            && (if r.value.data.Some? then r.value.data.value else []) == data.value
            && r.value.tss.encSession == (if LastWith(ss', true).Some? then NoSession else AsSlot(LastWith(ss', false)))
            && r.value.tss.(encSession := NoSession)
               == t.(sessTag := TAG_SESSIONS, inHandles := hs, nonceTpmDec := DecNonce(ss'), nonceTpmEnc := EncNonce(ss'),
                     encSession := NoSession)
  {
    hide Padded, SentParams, CpHashData, LastWith, DecNonce, EncNonce, AuthEntry, NeedsCpHash, Authorized;
  }

  lemma PreparedState(c: Crypto, t: Tss, ss: seq<Session>, cc: nat, req: Request, nonces: seq<ByteVec>)
    requires c.Valid() && RequestOk(cc, req) && HasSessions(ss, req)
    requires |Padded(ss, req.numAuth)| <= |nonces| && PwapHandles(Padded(ss, req.numAuth), req.handles)
    requires Prepare(c, t, ss, cc, req, nonces).Success?
    ensures var t' := Prepare(c, t, ss, cc, req, nonces).value.tss;
            && t'.sessTag == TAG_SESSIONS && SameBut(t, t') && t'.pending == t.pending
            && t'.objectInName == t.objectInName && t'.objectInAuth == t.objectInAuth && t'.auditCpHash == t.auditCpHash
            && t'.lastCommandBuf == t.lastCommandBuf && t'.lastResponseCode == t.lastResponseCode
  {
    hide Padded, SentParams, CpHashData, LastWith, DecNonce, EncNonce, AuthEntries, NeedsCpHash, Authorized, RhHandles, Rolled;
  }

  lemma EncodeHandlesNext(handles: seq<Handle>, i: nat)
    requires i < |handles|
    ensures EncodeHandles(HandleValues(handles[..i + 1])) == EncodeHandles(HandleValues(handles[..i])) + BigEndian(handles[i].value, 4)
  {
    hide BigEndian;
    assert HandleValues(handles[..i + 1]) == HandleValues(handles[..i]) + [handles[i].value];
    EncodeHandlesSnoc(HandleValues(handles[..i]), handles[i].value);
  }

  lemma {:induction false} EncodeHandlesSnoc(values: seq<nat>, v: nat)
    ensures EncodeHandles(values + [v]) == EncodeHandles(values) + BigEndian(v, 4)
  {
    hide BigEndian;
    if values == [] {
      assert EncodeHandles([v]) == BigEndian(v, 4) + EncodeHandles([v][1..]);
    } else {
      assert (values + [v])[1..] == values[1..] + [v];
      EncodeHandlesSnoc(values[1..], v);
    }
  }

  lemma RolledSlots(ss: seq<Session>, nonces: seq<ByteVec>, hs: seq<Handle>)
    requires |ss| <= |nonces| && PwapHandles(ss, hs) && PasswordHandles(ss, hs)
    ensures PwapHandles(Rolled(ss, nonces), hs) && PasswordHandles(Rolled(ss, nonces), hs)
  {}

  lemma SlotHandle(ss: seq<Session>, hs: seq<Handle>, i: nat)
    requires i < |ss| && PwapHandles(ss, hs) && PasswordHandles(ss, hs)
    ensures ss[i].IsPwap() || ss[i].needsPassword ==> i < |hs|
  {}

  /** A session after its part of the loop. */
  function WithAuth(s: Session, hs: seq<Handle>, numAuth: nat, i: nat): Session
    requires numAuth <= |hs|
  {
    if !s.IsPwap() && i < numAuth then s.(authValue := hs[i].auth) else s
  }

  lemma AuthorizedNext(ss: seq<Session>, hs: seq<Handle>, now: seq<Handle>, numAuth: nat, i: nat)
    requires i < |ss| && numAuth <= |hs| == |now| && (i < |hs| ==> now[i] == hs[i])
    ensures var after := Authorized(ss, hs, numAuth);
            (after[..i] + ss[i..])[i := WithAuth(ss[i], now, numAuth, i)] == after[..i + 1] + ss[i + 1..]
  {}

  lemma EntryAfterKept(c: Crypto, s: Session, hs: seq<Handle>, now: seq<Handle>, numAuth: nat, data: ByteVec, nonceDec: ByteVec,
                       nonceEnc: ByteVec, i: nat, before: ByteVec)
    requires numAuth <= |hs| == |now| && (s.IsPwap() || s.needsPassword ==> i < |hs|) && (i < |hs| ==> now[i] == hs[i])
    ensures EntryAfter(c, s, now, numAuth, data, nonceDec, nonceEnc, i, before)
         == EntryAfter(c, s, hs, numAuth, data, nonceDec, nonceEnc, i, before)
  {
    hide SessionModel.GetAuthHmac;
  }

  lemma AreaNext(w: ByteVec, entries: seq<AuthCommand>, i: nat)
    requires i < |entries|
    ensures w + EncodeAuths(entries[..i]) + EncodeAuth(entries[i]) == w + EncodeAuths(entries[..i + 1])
    ensures |w + EncodeAuths(entries[..i])| + |EncodeAuth(entries[i])| <= |w| + |EncodeAuths(entries)|
  {
    hide EncodeAuth;
    assert entries[..i + 1] == entries[..i] + [entries[i]];
    EncodeAuthsSnoc(entries[..i], entries[i]);
    EncodeAuthsPrefix(entries, i + 1);
  }

  lemma NothingDone(admin: Hierarchies, hs: seq<Handle>, w: ByteVec, entries: seq<AuthCommand>)
    ensures RhHandles(admin, hs, 0) == hs && w + EncodeAuths(entries[..0]) == w
  {}

  /** Setting the hierarchies' auth values handle by handle. */
  lemma NextHandle(admin: Hierarchies, hs: seq<Handle>, i: nat, n: nat)
    ensures var now, next := RhHandles(admin, hs, i), RhHandles(admin, hs, i + 1);
            next == if i < |hs| then now[i := SetRhAuthValue(admin, now[i])] else now
    ensures i < n && i < |hs| ==> RhHandles(admin, hs, n)[i] == RhHandles(admin, hs, i + 1)[i]
  {}

  /** The entry of session `s` in slot `i`, when the entry before it left `before` in the shared
      structure. */
  function EntryAfter(c: Crypto, s: Session, hs: seq<Handle>, numAuth: nat, data: ByteVec, nonceDec: ByteVec, nonceEnc: ByteVec,
                      i: nat, before: ByteVec): AuthCommand
    requires numAuth <= |hs| && (s.IsPwap() || s.needsPassword ==> i < |hs|)
  {
    if s.IsPwap() then AuthCommand(RH_PW, [], CONTINUE_SESSION, hs[i].auth) else
    var s' := if i < numAuth then s.(authValue := hs[i].auth) else s;
    var own := if i < numAuth then Some(hs[i]) else None;
    var hmac :=
      if s.sessionType == HMAC || s.needsHmac then
        SessionModel.GetAuthHmac(c, s', c.hash(s.hashAlg, data), true, nonceDec, nonceEnc, own)
      else if s.needsPassword then hs[i].auth
      else before;
    AuthCommand(s.handle.value, s.nonceCaller, s.attributes, hmac)
  }

  /** The entry of the i-th session in terms of the entry before it. */
  lemma EntryIs(c: Crypto, ss: seq<Session>, hs: seq<Handle>, numAuth: nat, data: ByteVec, nonceDec: ByteVec,
                nonceEnc: ByteVec, i: nat)
    requires i < |ss| && numAuth <= |hs| && PwapHandles(ss, hs) && PasswordHandles(ss, hs)
    ensures var before: ByteVec := if i == 0 then [] else AuthEntries(c, ss, hs, numAuth, data, nonceDec, nonceEnc)[i - 1].hmac;
            AuthEntries(c, ss, hs, numAuth, data, nonceDec, nonceEnc)[i] == EntryAfter(c, ss[i], hs, numAuth, data, nonceDec, nonceEnc, i, before)
  {
    hide SessionModel.GetAuthHmac;
  }

  lemma NoneBefore(ss: seq<Session>)
    ensures LastWith(ss[..0], true) == None && LastWith(ss[..0], false) == None
  {}

  lemma LastWithNext(ss: seq<Session>, j: nat, decrypt: bool)
    requires j < |ss|
    ensures LastWith(ss[..j + 1], decrypt)
         == if !ss[j].IsPwap() && (if decrypt then ss[j].Decrypts() else ss[j].Encrypts()) then Some(j)
            else LastWith(ss[..j], decrypt)
  {
    assert ss[..j + 1][..j] == ss[..j];
  }

  /** Comparing pointers to encryption sessions is comparing their places in the list. */
  lemma PointerTests(sessions: seq<AuthSession>, i: Option<nat>, j: Option<nat>, p: AuthSession?, q: AuthSession?)
    requires DistinctIn(sessions) && sessions != [] && PointsTo(p, sessions, i) && PointsTo(q, sessions, j)
    requires i.Some? ==> !ValuesOf(sessions)[i.value].IsPwap()
    requires j.Some? ==> !ValuesOf(sessions)[j.value].IsPwap()
    ensures i.Some? ==> (p == sessions[0] <==> i.value == 0) && p.nonceTpm == ValuesOf(sessions)[i.value].nonceTpm
    ensures j.Some? ==> (q == sessions[0] <==> j.value == 0) && q.nonceTpm == ValuesOf(sessions)[j.value].nonceTpm
    ensures j.Some? ==> (q == p <==> j == i)
  {}

  /** The buffer part of DoParmEncryption: reads the sized parameter, and copies it back encrypted
      or decrypted. */
  method XcryptBuffer(c: Crypto, sess: AuthSession, paramBuf: TpmBuffer, sizeLen: nat, valLen: nat, startPos: nat, request: bool)
    returns (r: Outcome<TssError>)
    requires c.Valid() && (sizeLen == 0 || IsWidth(sizeLen))
    modifies paramBuf
    ensures match XcryptAt(c, sess.Value(), old(paramBuf.buf), startPos, sizeLen, valLen, request)
            case Failure(e) => r == Fail(e)
            case Success(b) => r.Pass? && paramBuf.buf == b && paramBuf.pos == old(paramBuf.pos)
  {
    hide FromBigEndian, SessionModel.ParamXcrypt;
    if sizeLen == 0 || valLen == 0 {
      return Fail(NotEncryptable);
    }
    var origCurPos := paramBuf.pos;
    paramBuf.SetCurPos(startPos);
    var arrSize := paramBuf.ReadNum(sizeLen);
    if arrSize.Failure? {
      return Fail(Marshal(arrSize.error));
    }
    var arrPos, size := paramBuf.pos, arrSize.value * valLen;
    var toXcrypt := paramBuf.ReadByteBuf(size);
    if toXcrypt.Failure? {
      return Fail(Marshal(toXcrypt.error));
    }
    ParamXcryptLength(c, sess.Value(), toXcrypt.value, request);
    var res := sess.ParamXcrypt(c, toXcrypt.value, request);
    if res.Failure? {
      return Fail(res.error);
    }
    paramBuf.SetCurPos(arrPos);
    var ok := paramBuf.WriteByteBuf(res.value);
    paramBuf.SetCurPos(origCurPos);
    r := Pass;
  }

  /** The settings for the next command that ClearInvocationState resets. */
  datatype InvocationState = InvocationState(
    allowErrors: bool, demandError: bool, expectedError: nat, cpHash: Option<nat>, auditCommand: bool)

  const CLEAR_INVOCATION := InvocationState(false, false, 0, None, false)

  /** What UpdateRequestHandles remembers of the request. */
  datatype ObjectIn = ObjectIn(name: ByteVec, auth: ByteVec)

  /** CommandAuditHash and AuditCpHash. */
  datatype CommandAudit = CommandAudit(alg: nat, digest: ByteVec, cpHash: ByteVec)

  /** How DispatchIn ends if it does not throw. */
  datatype InOutcome =
    | WantsRetry
    | ErrorReported
    | Completed(outHandle: Option<nat>, params: ByteVec)

  class Tpm2 {
    const crypto: Crypto
    const pwapSession: AuthSession
    const hasDevice: bool
    var invocation: InvocationState
    var pendingCommand: nat
    var sessTag: nat
    var inHandles: seq<Handle>
    var objectIn: ObjectIn
    var lastCommandBuf: ByteVec
    var lastResponseCode: nat
    var audit: CommandAudit
    var admin: Hierarchies
    var nonceTpmDec: ByteVec
    var nonceTpmEnc: ByteVec
    var decSession: AuthSession?
    var encSession: AuthSession?
    var sessions: seq<AuthSession>

    constructor (c: Crypto, device: bool)
      requires c.Valid()
      ensures Valid() && fresh(pwapSession) && crypto == c && hasDevice == device
      ensures sessions == [] && decSession == null && encSession == null
      ensures pendingCommand == 0 && audit.alg == ALG_NULL && admin == Hierarchies([], [], [], []) && invocation == CLEAR_INVOCATION
    {
      crypto, hasDevice := c, device;
      pwapSession := new AuthSession.Pwap();
      invocation, pendingCommand, sessTag, inHandles, objectIn := CLEAR_INVOCATION, 0, 0, [], ObjectIn([], []);
      lastCommandBuf, lastResponseCode, audit := [], 0, CommandAudit(ALG_NULL, [], []);
      admin, nonceTpmDec, nonceTpmEnc := Hierarchies([], [], [], []), [], [];
      decSession, encSession, sessions := null, null, [];
    }

    /** The fields, without the list of sessions and DecSession, which no command inherits. */
    function State(): Tss
      reads this, encSession
    {
      Tss(invocation.allowErrors, invocation.demandError, invocation.auditCommand, invocation.expectedError, invocation.cpHash,
          pendingCommand, sessTag, inHandles, objectIn.name, objectIn.auth, lastCommandBuf, lastResponseCode,
          audit.alg, audit.digest, audit.cpHash, admin, nonceTpmDec, nonceTpmEnc,
          if encSession == null then NoSession else Outside(encSession.Value()))
    }

    /** The fields are those of `t`, the two session pointers apart. */
    predicate StateIs(t: Tss)
      reads this`invocation, this`pendingCommand, this`objectIn, this`lastCommandBuf, this`lastResponseCode, this`audit, this`admin
      reads this`sessTag, this`inHandles, this`nonceTpmDec, this`nonceTpmEnc
    {
      && OtherFields(t) && sessTag == t.sessTag && inHandles == t.inHandles
      && nonceTpmDec == t.nonceTpmDec && nonceTpmEnc == t.nonceTpmEnc
    }

    /** The fields that marshaling a command leaves alone are those of `t`. */
    predicate OtherFields(t: Tss)
      reads this`invocation, this`pendingCommand, this`objectIn, this`lastCommandBuf, this`lastResponseCode, this`audit, this`admin
    {
      && invocation == InvocationState(t.allowErrors, t.demandError, t.expectedError, t.cpHash, t.auditCommand)
      && pendingCommand == t.pending && objectIn == ObjectIn(t.objectInName, t.objectInAuth)
      && lastCommandBuf == t.lastCommandBuf && lastResponseCode == t.lastResponseCode
      && audit == CommandAudit(t.auditAlg, t.auditDigest, t.auditCpHash) && admin == t.admin
    }

    ghost function Values(): (r: seq<Session>)
      reads this, sessions
      ensures |r| == |sessions|
    {
      ValuesOf(sessions)
    }

    ghost predicate Valid()
      reads this, sessions, pwapSession
    {
      crypto.Valid() && DistinctIn(sessions) && pwapSession.Value() == PWAP_SESSION
    }

    method ClearInvocationState()
      modifies this`invocation, this`pendingCommand
      ensures invocation == CLEAR_INVOCATION && pendingCommand == 0
    {
      invocation, pendingCommand := CLEAR_INVOCATION, 0;
    }

    method RollNonces(nonces: seq<ByteVec>)
      requires Valid() && |sessions| <= |nonces|
      modifies sessions
      ensures Values() == Rolled(old(Values()), nonces) && Valid()
    {
      hide CryptoModel.Crypto.Valid, DistinctIn, ValuesOf;
      ghost var ss := Values();
      var j := 0;
      while j < |sessions|
        invariant j <= |sessions| && Valid()
        invariant forall k | 0 <= k < |sessions| :: Values()[k] == if k < j then WithNonce(ss[k], nonces[k]) else ss[k]
      {
        RollNonce(j, nonces[j]);
        j := j + 1;
      }
    }

    method RollNonce(j: nat, nonce: ByteVec)
      requires Valid() && j < |sessions|
      modifies sessions
      ensures Valid()
      ensures Values() == old(Values())[j := WithNonce(old(Values())[j], nonce)]
    {
      hide CryptoModel.Crypto.Valid;
      if !sessions[j].IsPwap() {
        sessions[j].nonceCaller := nonce;
      }
    }

    method GetCpHashData(cc: nat, params: ByteVec) returns (r: Result<ByteVec, TssError>)
      ensures r == CpHashData(cc, inHandles, params)
    {
      hide BigEndian, GetName;
      var buf := new TpmBuffer.Output(CAPACITY);
      var ok := AppendNum(buf, cc, 4);
      assert Written(buf) == BigEndian(cc, 4) && inHandles[0..] == inHandles;
      var i := 0;
      while i < |inHandles|
        invariant i <= |inHandles| && fresh(buf) && Writing(buf) && |buf.buf| == CAPACITY
        invariant AppendNames(BigEndian(cc, 4), inHandles) == AppendNames(Written(buf), inHandles[i..])
      {
        var name := GetName(inHandles[i]);
        if name.Failure? {
          return Failure(name.error);
        }
        ok := AppendBytes(buf, name.value);
        if ok.Fail? {
          return Failure(Marshal(ok.error));
        }
        assert inHandles[i..][1..] == inHandles[i + 1..];
        i := i + 1;
      }
      ok := AppendBytes(buf, params);
      if ok.Fail? {
        return Failure(Marshal(ok.error));
      }
      var data := buf.Trim();
      r := Success(data);
    }

    /** The loop of PrepareParmEncryptionSessions. */
    method FindEncryptionSessions()
      modifies this`decSession, this`encSession
      ensures PointsTo(decSession, sessions, LastWith(Values(), true))
      ensures PointsTo(encSession, sessions, LastWith(Values(), false))
    {
      hide LastWith;
      decSession, encSession := null, null;
      ghost var ss := Values();
      NoneBefore(ss);
      var j := 0;
      while j < |sessions|
        invariant j <= |sessions| && Values() == ss
        invariant PointsTo(decSession, sessions, LastWith(ss[..j], true))
        invariant PointsTo(encSession, sessions, LastWith(ss[..j], false))
      {
        var s := sessions[j];
        LastWithNext(ss, j, true);
        LastWithNext(ss, j, false);
        if !s.IsPwap() {
          if s.Value().Decrypts() {
            decSession := s;
          }
          if s.Value().Encrypts() {
            encSession := s;
          }
        }
        j := j + 1;
      }
      assert ss[..j] == ss;
    }

    method PrepareParmEncryptionSessions()
      requires DistinctIn(sessions) && sessions != []
      modifies this`decSession, this`encSession, this`nonceTpmDec, this`nonceTpmEnc
      ensures PointsTo(decSession, sessions, LastWith(Values(), true))
      ensures PointsTo(encSession, sessions, LastWith(Values(), false))
      ensures nonceTpmDec == DecNonce(Values()) && nonceTpmEnc == EncNonce(Values())
    {
      hide LastWith, DistinctIn;
      nonceTpmDec, nonceTpmEnc := [], [];
      FindEncryptionSessions();
      ghost var dec, enc := LastWith(Values(), true), LastWith(Values(), false);
      PointerTests(sessions, dec, enc, decSession, encSession);
      if decSession != null && decSession != sessions[0] {
        nonceTpmDec := decSession.nonceTpm;
      }
      if encSession != null && encSession != sessions[0] && encSession != decSession {
        nonceTpmEnc := encSession.nonceTpm;
      }
    }

    /** Encrypts the first parameter of a request, or decrypts that of a response, in place. */
    method DoParmEncryption(paramBuf: TpmBuffer, sizeLen: nat, valLen: nat, startPos: nat, request: bool)
      returns (r: Outcome<TssError>)
      requires crypto.Valid() && (sizeLen == 0 || IsWidth(sizeLen))
      modifies paramBuf, this`decSession, this`encSession
      ensures var s := old(if request then decSession else encSession);
              if s == null then
                r.Pass? && paramBuf.buf == old(paramBuf.buf) && paramBuf.pos == old(paramBuf.pos)
                && decSession == old(decSession) && encSession == old(encSession)
              else
                match XcryptAt(crypto, old(s.Value()), old(paramBuf.buf), startPos, sizeLen, valLen, request)
                case Failure(e) => r == Fail(e) && encSession == old(encSession)
                case Success(b) =>
                  r.Pass? && paramBuf.buf == b && paramBuf.pos == old(paramBuf.pos) && decSession == encSession == null
    {
      hide XcryptAt;
      var xcryptSess: AuthSession;
      if request {
        if decSession == null {
          return Pass;
        }
        xcryptSess := decSession;
      } else if encSession == null {
        return Pass;
      } else {
        xcryptSess := encSession;
      }
      r := XcryptBuffer(crypto, xcryptSess, paramBuf, sizeLen, valLen, startPos, request);
      if r.Pass? {
        decSession, encSession := null, null;
      }
    }

    /** The start of a round of the loop of ProcessAuthSessions: the auth values of the i-th handle
        and the i-th session. */
    method SetSlotAuth(i: nat, numAuthHandles: nat)
      requires Valid() && i < |sessions| && numAuthHandles <= |inHandles|
      modifies sessions, this`inHandles
      ensures Valid()
      ensures inHandles == if i < |old(inHandles)| then old(inHandles)[i := SetRhAuthValue(admin, old(inHandles)[i])]
                           else old(inHandles)
      ensures Values() == old(Values())[i := WithAuth(old(Values())[i], inHandles, numAuthHandles, i)]
    {
      hide CryptoModel.Crypto.Valid, SetRhAuthValue;
      if i < |inHandles| {
        inHandles := inHandles[i := SetRhAuthValue(admin, inHandles[i])];
      }
      if !sessions[i].IsPwap() && i < numAuthHandles {
        sessions[i].authValue := inHandles[i].auth;
      }
    }

    /** The entry of the i-th session. `hmac` is what the entry before it left in the shared
        structure. */
    method SessionEntry(i: nat, numAuthHandles: nat, cpHashData: ByteVec, hmac: ByteVec) returns (entry: AuthCommand)
      requires i < |sessions| && numAuthHandles <= |inHandles|
      requires sessions[i].IsPwap() || sessions[i].needsPassword ==> i < |inHandles|
      requires i < numAuthHandles && !sessions[i].IsPwap() ==> sessions[i].authValue == inHandles[i].auth
      ensures entry == EntryAfter(crypto, sessions[i].Value(), inHandles, numAuthHandles, cpHashData, nonceTpmDec, nonceTpmEnc, i, hmac)
    {
      var sess := sessions[i];
      if sess.IsPwap() {
        return AuthCommand(RH_PW, [], CONTINUE_SESSION, inHandles[i].auth);
      }
      var associatedHandle: Option<Handle> := None;
      if i < numAuthHandles {
        associatedHandle := Some(inHandles[i]);
      }
      var own := hmac;
      if sess.sessionType == HMAC || sess.needsHmac {
        var cpHash := crypto.hash(sess.hashAlg, cpHashData);
        own := sess.GetAuthHmac(crypto, cpHash, true, nonceTpmDec, nonceTpmEnc, associatedHandle);
      } else if sess.needsPassword {
        own := inHandles[i].auth;
      }
      entry := AuthCommand(sess.handle.value, sess.nonceCaller, sess.attributes, own);
    }

    method ProcessAuthSessions(cmdBuf: TpmBuffer, cc: nat, numAuthHandles: nat, cmdParams: ByteVec)
      returns (r: Result<ByteVec, TssError>)
      requires Valid() && Writing(cmdBuf) && numAuthHandles <= |sessions| && numAuthHandles <= |inHandles|
      requires PwapHandles(Values(), inHandles) && PasswordHandles(Values(), inHandles)
      modifies cmdBuf, this`inHandles, sessions
      ensures Valid()
      ensures var ss, hs := old(Values()), RhHandles(admin, old(inHandles), |sessions|);
              var data := if NeedsCpHash(ss) then CpHashData(cc, old(inHandles), cmdParams) else Success([]);
              if data.Failure? then r == Failure(data.error)
              else
                var area := EncodeAuths(AuthEntries(crypto, ss, hs, numAuthHandles, data.value, nonceTpmDec, nonceTpmEnc));
                if |old(Written(cmdBuf))| + |area| > |old(cmdBuf.buf)| then r == Failure(Marshal(OutOfBounds))
                else
                  && r == Success(data.value)
                  && |cmdBuf.buf| == |old(cmdBuf.buf)| && Writing(cmdBuf) && Written(cmdBuf) == old(Written(cmdBuf)) + area
                  && inHandles == hs && Values() == Authorized(ss, hs, numAuthHandles)
    {
      hide CpHashData, AuthEntry, EncodeAuth, EncodeAuths;
      ghost var ss := Values();
      var needHmac := false;
      var j := 0;
      while j < |sessions|
        invariant j <= |sessions| && (needHmac <==> exists i | 0 <= i < j :: !ss[i].IsPwap())
      {
        if !sessions[j].IsPwap() {
          needHmac := true;
          assert !ss[j].IsPwap();
          break;
        }
        j := j + 1;
      }
      var cpHashData := [];
      if needHmac {
        var data := GetCpHashData(cc, cmdParams);
        if data.Failure? {
          return Failure(data.error);
        }
        cpHashData := data.value;
      }
      r := WriteAuthArea(cmdBuf, numAuthHandles, cpHashData);
    }

    /** The second loop of ProcessAuthSessions. */
    method WriteAuthArea(cmdBuf: TpmBuffer, numAuthHandles: nat, cpHashData: ByteVec) returns (r: Result<ByteVec, TssError>)
      requires Valid() && Writing(cmdBuf) && numAuthHandles <= |sessions| && numAuthHandles <= |inHandles|
      requires PwapHandles(Values(), inHandles) && PasswordHandles(Values(), inHandles)
      modifies cmdBuf, this`inHandles, sessions
      ensures Valid()
      ensures var ss, hs := old(Values()), RhHandles(admin, old(inHandles), |sessions|);
              var area := EncodeAuths(AuthEntries(crypto, ss, hs, numAuthHandles, cpHashData, nonceTpmDec, nonceTpmEnc));
              if |old(Written(cmdBuf))| + |area| > |old(cmdBuf.buf)| then r == Failure(Marshal(OutOfBounds))
              else
                && r == Success(cpHashData)
                && |cmdBuf.buf| == |old(cmdBuf.buf)| && Writing(cmdBuf) && Written(cmdBuf) == old(Written(cmdBuf)) + area
                && inHandles == hs && Values() == Authorized(ss, hs, numAuthHandles)
    {
      ghost var ss, hs0, w := Values(), inHandles, Written(cmdBuf);
      var hmac: ByteVec := [];
      var i := 0;
      AreaStarts(cmdBuf, ss, hs0, numAuthHandles, cpHashData);
      hide AreaWritten, Valid, Values, Writing, Written, PwapHandles, PasswordHandles, RhHandles, AuthEntries, EncodeAuths;
      while i < |sessions|
        invariant i <= |sessions| && |ss| == |sessions| && numAuthHandles <= |hs0|
        invariant PwapHandles(ss, hs0) && PasswordHandles(ss, hs0)
        invariant AreaWritten(cmdBuf, ss, hs0, numAuthHandles, cpHashData, w, i, hmac) && |cmdBuf.buf| == |old(cmdBuf.buf)|
      {
        var ok;
        hmac, ok := WriteEntry(cmdBuf, i, numAuthHandles, cpHashData, hmac, ss, hs0, w);
        if ok.Fail? {
          return Failure(Marshal(ok.error));
        }
        i := i + 1;
      }
      AreaEnds(cmdBuf, ss, hs0, numAuthHandles, cpHashData, w, hmac);
      r := Success(cpHashData);
    }

    /** The entries of the session area. */
    ghost function AreaEntries(ss: seq<Session>, hs0: seq<Handle>, numAuth: nat, data: ByteVec): (r: seq<AuthCommand>)
      requires numAuth <= |hs0| && PwapHandles(ss, hs0)
      reads this
      ensures |r| == |ss|
    {
      var hs := RhHandles(admin, hs0, |ss|);
      AuthEntries(crypto, ss, hs, numAuth, data, nonceTpmDec, nonceTpmEnc)
    }

    /** The state before round `i` of the loop. */
    ghost predicate AreaWritten(cmdBuf: TpmBuffer, ss: seq<Session>, hs0: seq<Handle>, numAuth: nat, data: ByteVec, w: ByteVec,
                                i: nat, hmac: ByteVec)
      requires numAuth <= |hs0| && PwapHandles(ss, hs0) && i <= |ss| == |sessions|
      reads this, sessions, pwapSession, cmdBuf
    {
      var entries := AreaEntries(ss, hs0, numAuth, data);
      && Valid() && inHandles == RhHandles(admin, hs0, i)
      && Values() == Authorized(ss, RhHandles(admin, hs0, |ss|), numAuth)[..i] + ss[i..]
      && Writing(cmdBuf) && Written(cmdBuf) == w + EncodeAuths(entries[..i])
      && hmac == if i == 0 then [] else entries[i - 1].hmac
    }

    lemma AreaStarts(cmdBuf: TpmBuffer, ss: seq<Session>, hs0: seq<Handle>, numAuth: nat, data: ByteVec)
      requires Valid() && Writing(cmdBuf) && numAuth <= |hs0| && PwapHandles(ss, hs0)
      requires ss == Values() && inHandles == hs0
      ensures AreaWritten(cmdBuf, ss, hs0, numAuth, data, Written(cmdBuf), 0, [])
    {
      hide AuthEntry, EncodeAuths, RhHandles, Authorized, AuthEntries, DistinctIn;
      NothingDone(admin, hs0, Written(cmdBuf), AreaEntries(ss, hs0, numAuth, data));
      assert Authorized(ss, RhHandles(admin, hs0, |ss|), numAuth)[..0] + ss[0..] == ss;
    }

    lemma AreaEnds(cmdBuf: TpmBuffer, ss: seq<Session>, hs0: seq<Handle>, numAuth: nat, data: ByteVec, w: ByteVec, hmac: ByteVec)
      requires numAuth <= |hs0| && PwapHandles(ss, hs0) && |ss| == |sessions|
      requires AreaWritten(cmdBuf, ss, hs0, numAuth, data, w, |ss|, hmac)
      ensures Valid() && inHandles == RhHandles(admin, hs0, |ss|) && Values() == Authorized(ss, inHandles, numAuth)
      ensures Writing(cmdBuf) && Written(cmdBuf) == w + EncodeAuths(AreaEntries(ss, hs0, numAuth, data))
      ensures |Written(cmdBuf)| <= |cmdBuf.buf|
    {
      hide AuthEntry, EncodeAuths, RhHandles, Authorized, AuthEntries, DistinctIn;
      var entries := AreaEntries(ss, hs0, numAuth, data);
      assert entries[..|ss|] == entries;
      var after := Authorized(ss, RhHandles(admin, hs0, |ss|), numAuth);
      assert after[..|ss|] + ss[|ss|..] == after;
    }

    /** One round of the loop: either the next entry was written, or the area does not fit. */
    method WriteEntry(cmdBuf: TpmBuffer, i: nat, numAuthHandles: nat, cpHashData: ByteVec, hmac: ByteVec,
                      ghost ss: seq<Session>, ghost hs0: seq<Handle>, ghost w: ByteVec)
      returns (hmac': ByteVec, ok: Outcome<MarshalError>)
      requires i < |sessions| == |ss| && numAuthHandles <= |hs0| && PwapHandles(ss, hs0) && PasswordHandles(ss, hs0)
      requires AreaWritten(cmdBuf, ss, hs0, numAuthHandles, cpHashData, w, i, hmac)
      modifies cmdBuf, this`inHandles, sessions
      ensures |cmdBuf.buf| == |old(cmdBuf.buf)| && Valid()
      ensures ok.Pass? ==> AreaWritten(cmdBuf, ss, hs0, numAuthHandles, cpHashData, w, i + 1, hmac')
      ensures ok.Fail? ==> ok.error == OutOfBounds
                           && |w| + |EncodeAuths(AreaEntries(ss, hs0, numAuthHandles, cpHashData))| > |cmdBuf.buf|
    {
      hide AuthEntry, EncodeAuths, RhHandles, Authorized, AuthEntries, EntryAfter, DistinctIn, PwapHandles, PasswordHandles, EncodeAuth,
        CryptoModel.Crypto.Valid;
      ghost var hs, entries := RhHandles(admin, hs0, |ss|), AreaEntries(ss, hs0, numAuthHandles, cpHashData);
      assert Values()[i] == ss[i];
      SlotHandle(ss, hs0, i);
      SameSlots(ss, hs0, hs);
      NextHandle(admin, hs0, i, |ss|);
      var entry;
      entry, ok := MarshalEntry(cmdBuf, i, numAuthHandles, cpHashData, hmac);
      EntryIs(crypto, ss, hs, numAuthHandles, cpHashData, nonceTpmDec, nonceTpmEnc, i);
      EntryAfterKept(crypto, ss[i], hs, inHandles, numAuthHandles, cpHashData, nonceTpmDec, nonceTpmEnc, i, hmac);
      AuthorizedNext(ss, hs, inHandles, numAuthHandles, i);
      AreaNext(w, entries, i);
      hmac' := entry.hmac;
    }

    method MarshalEntry(cmdBuf: TpmBuffer, i: nat, numAuthHandles: nat, cpHashData: ByteVec, hmac: ByteVec)
      returns (entry: AuthCommand, ok: Outcome<MarshalError>)
      requires Valid() && Writing(cmdBuf) && i < |sessions| && numAuthHandles <= |inHandles|
      requires sessions[i].IsPwap() || sessions[i].needsPassword ==> i < |inHandles|
      modifies cmdBuf, this`inHandles, sessions
      ensures Valid() && Appended(cmdBuf, EncodeAuth(entry), ok)
      ensures inHandles == if i < |old(inHandles)| then old(inHandles)[i := SetRhAuthValue(admin, old(inHandles)[i])]
                           else old(inHandles)
      ensures Values() == old(Values())[i := WithAuth(old(Values())[i], inHandles, numAuthHandles, i)]
      ensures entry == EntryAfter(crypto, old(Values())[i], inHandles, numAuthHandles, cpHashData, nonceTpmDec, nonceTpmEnc, i, hmac)
    {
      hide EntryAfter, EncodeAuth, CryptoModel.Crypto.Valid, DistinctIn;
      ghost var s := Values()[i];
      SetSlotAuth(i, numAuthHandles);
      assert Values()[i] == WithAuth(s, inHandles, numAuthHandles, i);
      entry := SessionEntry(i, numAuthHandles, cpHashData, hmac);
      EntryOfWithAuth(crypto, s, inHandles, numAuthHandles, cpHashData, nonceTpmDec, nonceTpmEnc, i, hmac);
      ok := MarshalAuth(cmdBuf, entry);
    }

    /** The session area of a command: its size is filled in once the area is written. */
    method BuildAuthArea(cmdBuf: TpmBuffer, paramBuf: TpmBuffer, cc: nat, req: Request, nonces: seq<ByteVec>)
      returns (r: Result<ByteVec, TssError>)
      requires Valid() && RequestOk(cc, req) && HasSessions(Values(), req)
      requires |Padded(Values(), req.numAuth)| <= |nonces| && PwapHandles(Padded(Values(), req.numAuth), req.handles)
      requires PasswordHandles(Padded(Values(), req.numAuth), req.handles)
      requires Writing(cmdBuf) && |Written(cmdBuf)| <= 100 && |cmdBuf.buf| == CAPACITY
      requires cmdBuf != paramBuf && paramBuf.buf == req.params && inHandles == req.handles
      modifies cmdBuf, paramBuf, sessions, pwapSession
      modifies this`sessions, this`inHandles, this`nonceTpmDec, this`nonceTpmEnc, this`decSession, this`encSession
      ensures Valid()
      ensures var ss := Rolled(Padded(old(Values()), req.numAuth), nonces);
              var hs := RhHandles(admin, req.handles, |ss|);
              AreaBuilt(cmdBuf, paramBuf, r, cc, req, ss, hs)
    {
      hide BigEndian, XcryptAt, LastWith, CpHashData, AuthEntries, EncodeAuths, RhHandles, Authorized, DecNonce, EncNonce, Padded,
        Rolled, NeedsCpHash, CryptoModel.Crypto.Valid, DistinctIn, PwapHandles, PasswordHandles, SentParams, ValuesOf;
      ghost var w := Written(cmdBuf);
      RolledSlots(Padded(Values(), req.numAuth), nonces, req.handles);
      var authSizePos := cmdBuf.pos;
      var ok := AppendNum(cmdBuf, 0, 4);
      var xcrypted := PrepareSessions(paramBuf, req, nonces);
      if xcrypted.Fail? {
        return Failure(xcrypted.error);
      }
      assert forall i | 0 <= i < |sessions| :: sessions[i] in sessions;
      r := FillAuthArea(cmdBuf, authSizePos, cc, req.numAuth, paramBuf.buf, w);
    }

    /** Writes the sessions and then their size at `authSizePos`. */
    method FillAuthArea(cmdBuf: TpmBuffer, authSizePos: nat, cc: nat, numAuthHandles: nat, cmdParams: ByteVec, ghost w: ByteVec)
      returns (r: Result<ByteVec, TssError>)
      requires Valid() && Writing(cmdBuf) && numAuthHandles <= |sessions| && numAuthHandles <= |inHandles|
      requires PwapHandles(Values(), inHandles) && PasswordHandles(Values(), inHandles)
      requires Written(cmdBuf) == w + BigEndian(0, 4) && authSizePos == |w|
      modifies cmdBuf, this`inHandles, sessions
      ensures Valid()
      ensures var ss, hs := old(Values()), RhHandles(admin, old(inHandles), |sessions|);
              var data := if NeedsCpHash(ss) then CpHashData(cc, old(inHandles), cmdParams) else Success([]);
              if data.Failure? then r == Failure(data.error)
              else
                var area := AuthArea(Some(AuthEntries(crypto, ss, hs, numAuthHandles, data.value, nonceTpmDec, nonceTpmEnc)));
                if |w| + |area| > |old(cmdBuf.buf)| then r == Failure(Marshal(OutOfBounds))
                else
                  && r == Success(data.value)
                  && |cmdBuf.buf| == |old(cmdBuf.buf)| && Writing(cmdBuf) && Written(cmdBuf) == w + area
                  && inHandles == hs && Values() == Authorized(ss, hs, numAuthHandles)
    {
      hide BigEndian, CpHashData, AuthEntries, EncodeAuths, RhHandles, Authorized, NeedsCpHash, CryptoModel.Crypto.Valid, DistinctIn,
        PwapHandles, PasswordHandles, ValuesOf;
      r := ProcessAuthSessions(cmdBuf, cc, numAuthHandles, cmdParams);
      if r.Success? {
        ghost var area := Written(cmdBuf)[|w| + 4..];
        assert Written(cmdBuf) == w + BigEndian(0, 4) + area;
        Patch(cmdBuf, cmdBuf.pos - authSizePos - 4, authSizePos);
        SpliceMiddle(w, BigEndian(0, 4), BigEndian(|area|, 4), area);
      }
    }

    /** The sessions of a dispatch and the parameters they encrypt. */
    method PrepareSessions(paramBuf: TpmBuffer, req: Request, nonces: seq<ByteVec>) returns (r: Outcome<TssError>)
      requires Valid() && (req.sizeLen == 0 || IsWidth(req.sizeLen)) && HasSessions(Values(), req)
      requires |Padded(Values(), req.numAuth)| <= |nonces| && paramBuf.buf == req.params
      modifies paramBuf, sessions, pwapSession
      modifies this`sessions, this`nonceTpmDec, this`nonceTpmEnc, this`decSession, this`encSession
      ensures Valid() && Values() == Rolled(Padded(old(Values()), req.numAuth), nonces)
      ensures req.numAuth <= |sessions| && forall s | s in sessions :: s in old(sessions) || s == pwapSession
      ensures inHandles == old(inHandles) && nonceTpmDec == DecNonce(Values()) && nonceTpmEnc == EncNonce(Values())
      ensures match SentParams(crypto, Values(), req)
              case Failure(e) => r == Fail(e)
              case Success(p) =>
                && r.Pass? && paramBuf.buf == p
                && PointsTo(encSession, sessions, if LastWith(Values(), true).Some? then None else LastWith(Values(), false))
    {
      hide XcryptAt, LastWith, DecNonce, EncNonce, Rolled, CryptoModel.Crypto.Valid, DistinctIn;
      SetUpSessions(req.numAuth, nonces);
      r := DoParmEncryption(paramBuf, req.sizeLen, req.valLen, 0, true);
    }

    /** The explicit and password sessions of a dispatch, with fresh nonces. */
    method SetUpSessions(numAuthHandles: nat, nonces: seq<ByteVec>)
      requires Valid() && |Padded(Values(), numAuthHandles)| <= |nonces| && (numAuthHandles != 0 || |sessions| != 0)
      modifies sessions, pwapSession
      modifies this`sessions, this`nonceTpmDec, this`nonceTpmEnc, this`decSession, this`encSession
      ensures Valid() && Values() == Rolled(Padded(old(Values()), numAuthHandles), nonces)
      ensures numAuthHandles <= |sessions| && forall s | s in sessions :: s in old(sessions) || s == pwapSession
      ensures nonceTpmDec == DecNonce(Values()) && nonceTpmEnc == EncNonce(Values())
      ensures PointsTo(decSession, sessions, LastWith(Values(), true)) && PointsTo(encSession, sessions, LastWith(Values(), false))
    {
      hide LastWith, DecNonce, EncNonce, Rolled, CryptoModel.Crypto.Valid, DistinctIn;
      PadSessions(numAuthHandles);
      RollNonces(nonces);
      PrepareParmEncryptionSessions();
    }

    /** Password sessions are added for the auth handles that were given no session. */
    method PadSessions(numAuthHandles: nat)
      requires Valid()
      modifies this`sessions
      ensures Values() == Padded(old(Values()), numAuthHandles) && Valid()
      ensures |sessions| >= |old(sessions)| && sessions[..|old(sessions)|] == old(sessions)
      ensures forall i | |old(sessions)| <= i < |sessions| :: sessions[i] == pwapSession
    {
      if |sessions| < numAuthHandles {
        sessions := sessions + seq(numAuthHandles - |sessions|, _ => pwapSession);
      }
    }

    /** What the session area and the other results are, in terms of the sessions `ss` after their
        nonces were rolled. */
    twostate predicate AreaBuilt(cmdBuf: TpmBuffer, paramBuf: TpmBuffer, new r: Result<ByteVec, TssError>, cc: nat, req: Request,
                                 ss: seq<Session>, hs: seq<Handle>)
      requires crypto.Valid() && req.numAuth <= |hs| && PwapHandles(ss, hs) && old(Writing(cmdBuf))
      reads this, sessions, cmdBuf, paramBuf
    {
      var params := SentParams(crypto, ss, req);
      if params.Failure? then r == Failure(params.error) else
      var data := if NeedsCpHash(ss) then CpHashData(cc, req.handles, params.value) else Success([]);
      if data.Failure? then r == Failure(data.error) else
      var area := AuthArea(Some(AuthEntries(crypto, ss, hs, req.numAuth, data.value, DecNonce(ss), EncNonce(ss))));
      if |old(Written(cmdBuf))| + |area| > CAPACITY then r == Failure(Marshal(OutOfBounds))
      else
        && r == data && paramBuf.buf == params.value
        && Writing(cmdBuf) && |cmdBuf.buf| == CAPACITY && Written(cmdBuf) == old(Written(cmdBuf)) + area
        && inHandles == hs && Values() == Authorized(ss, hs, req.numAuth)
        && nonceTpmDec == DecNonce(ss) && nonceTpmEnc == EncNonce(ss)
        && PointsTo(encSession, sessions, if LastWith(ss, true).Some? then None else LastWith(ss, false))
    }

    /** Command header and handles; the total size is filled in later. */
    method BeginCommand(cmdBuf: TpmBuffer, cc: nat, handles: seq<Handle>)
      requires Writing(cmdBuf) && Written(cmdBuf) == [] && |cmdBuf.buf| == CAPACITY && |handles| <= 3
      modifies cmdBuf
      ensures Writing(cmdBuf) && |cmdBuf.buf| == CAPACITY && |Written(cmdBuf)| == 10 + 4 * |handles|
      ensures Written(cmdBuf) == BigEndian(sessTag, 2) + BigEndian(0, 4) + (BigEndian(cc, 4) + EncodeHandles(HandleValues(handles)))
    {
      hide BigEndian;
      var ok := AppendNum(cmdBuf, sessTag, 2);
      ok := AppendNum(cmdBuf, 0, 4);
      ok := AppendNum(cmdBuf, cc, 4);
      ghost var w := Written(cmdBuf);
      var i := 0;
      while i < |handles|
        invariant i <= |handles| && Writing(cmdBuf) && |cmdBuf.buf| == CAPACITY
        invariant Written(cmdBuf) == w + EncodeHandles(HandleValues(handles[..i]))
        invariant |Written(cmdBuf)| == 10 + 4 * i
      {
        EncodeHandlesNext(handles, i);
        ok := AppendNum(cmdBuf, handles[i].value, 4);
        i := i + 1;
      }
      assert handles[..i] == handles;
      assert w == BigEndian(sessTag, 2) + BigEndian(0, 4) + BigEndian(cc, 4);
    }

    /** Parameters and total size. */
    method FinishCommand(cmdBuf: TpmBuffer, params: ByteVec, ghost tag: ByteVec, ghost rest: ByteVec) returns (r: Outcome<MarshalError>)
      requires Writing(cmdBuf) && |tag| == 2 && Written(cmdBuf) == tag + BigEndian(0, 4) + rest
      modifies cmdBuf
      ensures if 6 + |rest| + |params| > |old(cmdBuf.buf)| then r == Fail(OutOfBounds)
              else r.Pass? && |cmdBuf.buf| == |old(cmdBuf.buf)| && Writing(cmdBuf)
                   && Written(cmdBuf) == tag + (BigEndian(6 + |rest| + |params|, 4) + (rest + params))
    {
      hide BigEndian;
      r := AppendBytes(cmdBuf, params);
      if r.Pass? {
        assert Written(cmdBuf) == tag + BigEndian(0, 4) + (rest + params);
        Patch(cmdBuf, cmdBuf.pos, 2);
        SpliceMiddle(tag, BigEndian(0, 4), BigEndian(6 + |rest| + |params|, 4), rest + params);
      }
    }

    method UpdateRequestHandles(cc: nat, req: Request) returns (r: Result<Request, TssError>)
      requires RequestOk(cc, req)
      modifies this`objectIn
      ensures match Remember(cc, req, old(objectIn.auth))
              case Failure(e) => r == Failure(e)
              case Success(u) => r == Success(u.2) && objectIn == ObjectIn(u.0, u.1)
    {
      hide GetName;
      objectIn := objectIn.(name := []);
      r := Success(req);
      if cc == CC_HIERARCHY_CHANGE_AUTH || cc == CC_NV_CHANGE_AUTH {
        r := Success(SetHandleAuth(req, req.newAuth));
        objectIn := objectIn.(auth := req.newAuth);
      } else if cc == CC_LOAD_EXTERNAL || cc == CC_LOAD {
        objectIn := objectIn.(name := req.objectName);
      } else if cc == CC_OBJECT_CHANGE_AUTH || cc == CC_PCR_SET_AUTH_VALUE || cc == CC_HASH_SEQUENCE_START {
        objectIn := objectIn.(auth := req.newAuth);
      } else if cc == CC_EVICT_CONTROL {
        objectIn := objectIn.(auth := req.handles[1].auth);
        if req.handles[1].value / 0x100_0000 != 0x81 {
          var name := GetName(req.handles[1]);
          if name.Failure? {
            return Failure(name.error);
          }
          objectIn := objectIn.(name := name.value);
        }
      } else if cc == CC_CLEAR {
        r := Success(SetHandleAuth(req, []));
      }
    }

    /** The command buffer with its total size, what was hashed for the cpHash, and the parameters. */
    method BuildCommand(cc: nat, req: Request, nonces: seq<ByteVec>) returns (r: Result<(ByteVec, ByteVec, ByteVec), TssError>)
      requires Sendable(cc, req, nonces) && |req.params| <= CAPACITY
      modifies sessions, pwapSession
      modifies this`sessTag, this`inHandles, this`sessions, this`nonceTpmDec, this`nonceTpmEnc, this`decSession, this`encSession
      ensures Valid()
      ensures match Prepare(crypto, old(State()), old(Values()), cc, req, nonces)
              case Failure(e) => r == Failure(e)
              case Success(p) => Built(p, r)
    {
      hide BigEndian, EncodeHandles, CryptoModel.Crypto.Valid, DistinctIn, AuthArea, ValuesOf, Prepare, Padded, PwapHandles,
        PasswordHandles, HandleValues, Built, RequestOk;
      hide Started;
      ghost var t := State();
      var hasSessions := req.numAuth != 0 || |sessions| != 0;
      var cmdBuf, paramBuf := StartCommand(cc, req, hasSessions);
      if hasSessions {
        r := CompleteWithSessions(cmdBuf, paramBuf, cc, req, nonces, t);
      } else {
        r := CompleteWithout(cmdBuf, paramBuf, cc, req, nonces, t);
      }
    }

    /** Header and handles in one buffer, parameters in another. */
    method StartCommand(cc: nat, req: Request, hasSessions: bool) returns (cmdBuf: TpmBuffer, paramBuf: TpmBuffer)
      requires RequestOk(cc, req) && |req.params| <= CAPACITY
      modifies this`sessTag, this`inHandles
      ensures fresh(cmdBuf) && fresh(paramBuf)
      ensures Started(cmdBuf, paramBuf, cc, req, if hasSessions then TAG_SESSIONS else TAG_NO_SESSIONS, old(State()))
    {
      hide BigEndian, EncodeHandles, HandleValues;
      sessTag := if hasSessions then TAG_SESSIONS else TAG_NO_SESSIONS;
      cmdBuf := new TpmBuffer.Output(CAPACITY);
      inHandles := req.handles;
      BeginCommand(cmdBuf, cc, inHandles);
      paramBuf := new TpmBuffer.Output(CAPACITY);
      var ok := paramBuf.WriteByteBuf(req.params);
      var params := paramBuf.Trim();
      assert params == req.params;
    }

    /** The rest of a command with sessions. */
    method CompleteWithSessions(cmdBuf: TpmBuffer, paramBuf: TpmBuffer, cc: nat, req: Request, nonces: seq<ByteVec>, ghost t: Tss)
      returns (r: Result<(ByteVec, ByteVec, ByteVec), TssError>)
      requires Sendable(cc, req, nonces) && HasSessions(Values(), req)
      requires Started(cmdBuf, paramBuf, cc, req, TAG_SESSIONS, t)
      modifies cmdBuf, paramBuf, sessions, pwapSession
      modifies this`inHandles, this`sessions, this`nonceTpmDec, this`nonceTpmEnc, this`decSession, this`encSession
      ensures Valid()
      ensures match Prepare(crypto, t, old(Values()), cc, req, nonces)
              case Failure(e) => r == Failure(e)
              case Success(p) => Built(p, r)
    {
      hide BigEndian, EncodeHandles, CryptoModel.Crypto.Valid, DistinctIn, AuthArea, ValuesOf, Prepare, Padded, PwapHandles,
        PasswordHandles, HandleValues, RequestOk, EncodeCommand, AsPrepared;
      ghost var p := Prepare(crypto, t, Values(), cc, req, nonces);
      HandlesFew(cc, req);
      var data := PreparedArea(cmdBuf, paramBuf, cc, req, nonces, t);
      if data.Failure? {
        if p.Success? {
          CommandLength(p.value.frame);
        }
        return Failure(data.error);
      }
      var bytes := CloseCommand(cmdBuf, paramBuf.buf, p.value.frame);
      if bytes.Failure? {
        return Failure(bytes.error);
      }
      r := Success((bytes.value, data.value, paramBuf.buf));
    }

    /** The session area in terms of Prepare. */
    method PreparedArea(cmdBuf: TpmBuffer, paramBuf: TpmBuffer, cc: nat, req: Request, nonces: seq<ByteVec>, ghost t: Tss)
      returns (r: Result<ByteVec, TssError>)
      requires Sendable(cc, req, nonces) && HasSessions(Values(), req)
      requires Started(cmdBuf, paramBuf, cc, req, TAG_SESSIONS, t)
      modifies cmdBuf, paramBuf, sessions, pwapSession
      modifies this`inHandles, this`sessions, this`nonceTpmDec, this`nonceTpmEnc, this`decSession, this`encSession
      ensures Valid()
      ensures match Prepare(crypto, t, old(Values()), cc, req, nonces)
              case Failure(e) => r == Failure(e)
              case Success(p) =>
                && p.frame.cc == cc && p.frame.handles == HandleValues(req.handles) && p.frame.auths.Some? && p.frame.params == p.params
                && if 10 + 4 * |req.handles| + |AuthArea(p.frame.auths)| > CAPACITY then r == Failure(Marshal(OutOfBounds))
                   else
                     && r == Success(if p.data.Some? then p.data.value else []) && AsPrepared(p) && paramBuf.buf == p.params
                     && Writing(cmdBuf) && |cmdBuf.buf| == CAPACITY
                     && Written(cmdBuf) == old(Written(cmdBuf)) + AuthArea(p.frame.auths)
    {
      hide BigEndian, EncodeHandles, CryptoModel.Crypto.Valid, DistinctIn, AuthArea, ValuesOf, Prepare, Padded, PwapHandles, AuthEntries,
        PasswordHandles, HandleValues, RhHandles, Rolled, Authorized, SentParams, CpHashData, NeedsCpHash, LastWith, DecNonce, EncNonce,
        RequestOk;
      if Prepare(crypto, t, Values(), cc, req, nonces).Success? {
        PreparedState(crypto, t, Values(), cc, req, nonces);
      }
      r := PreparedAreaCore(cmdBuf, paramBuf, cc, req, nonces, t);
    }

    /** The same without the fields that do not change. */
    method PreparedAreaCore(cmdBuf: TpmBuffer, paramBuf: TpmBuffer, cc: nat, req: Request, nonces: seq<ByteVec>, ghost t: Tss)
      returns (r: Result<ByteVec, TssError>)
      requires Sendable(cc, req, nonces) && HasSessions(Values(), req)
      requires Started(cmdBuf, paramBuf, cc, req, TAG_SESSIONS, t)
      modifies cmdBuf, paramBuf, sessions, pwapSession
      modifies this`inHandles, this`sessions, this`nonceTpmDec, this`nonceTpmEnc, this`decSession, this`encSession
      ensures Valid()
      ensures match Prepare(crypto, t, old(Values()), cc, req, nonces)
              case Failure(e) => r == Failure(e)
              case Success(p) =>
                && p.frame.cc == cc && p.frame.handles == HandleValues(req.handles) && p.frame.auths.Some? && p.frame.params == p.params
                && if 10 + 4 * |req.handles| + |AuthArea(p.frame.auths)| > CAPACITY then r == Failure(Marshal(OutOfBounds))
                   else
                     && r == Success(if p.data.Some? then p.data.value else []) && SessionsAsPrepared(p) && paramBuf.buf == p.params
                     && Writing(cmdBuf) && |cmdBuf.buf| == CAPACITY
                     && Written(cmdBuf) == old(Written(cmdBuf)) + AuthArea(p.frame.auths)
    {
      hide BigEndian, EncodeHandles, CryptoModel.Crypto.Valid, DistinctIn, AuthArea, ValuesOf, Prepare, Padded, PwapHandles, AuthEntries,
        PasswordHandles, HandleValues, RhHandles, Rolled, Authorized, SentParams, CpHashData, NeedsCpHash, LastWith, DecNonce, EncNonce,
        RequestOk;
      PrepareWith(crypto, t, Values(), cc, req, nonces);
      HandlesFew(cc, req);
      r := BuildAuthArea(cmdBuf, paramBuf, cc, req, nonces);
    }

    /** The fields that a session area sets are the prepared ones. */
    ghost predicate SessionsAsPrepared(p: Prepared)
      reads this, sessions, encSession
    {
      && inHandles == p.handles == p.tss.inHandles && Values() == p.sessions && Refers(encSession, sessions, p.tss.encSession)
      && nonceTpmDec == p.tss.nonceTpmDec && nonceTpmEnc == p.tss.nonceTpmEnc
    }

    /** The object's state is the prepared one. */
    ghost predicate AsPrepared(p: Prepared)
      reads this, sessions, encSession
    {
      && StateIs(p.tss) && inHandles == p.handles && Values() == p.sessions && Refers(encSession, sessions, p.tss.encSession)
    }

    /** Parameters and total size. */
    method CloseCommand(cmdBuf: TpmBuffer, params: ByteVec, ghost f: Frame) returns (r: Result<ByteVec, TssError>)
      requires Writing(cmdBuf) && |cmdBuf.buf| == CAPACITY && params == f.params
      requires Written(cmdBuf)
            == BigEndian(Tag(f.auths), 2) + BigEndian(0, 4) + (BigEndian(f.cc, 4) + EncodeHandles(f.handles)) + AuthArea(f.auths)
      modifies cmdBuf
      ensures r == if |EncodeCommand(f)| > CAPACITY then Failure(Marshal(OutOfBounds)) else Success(EncodeCommand(f))
    {
      hide BigEndian, EncodeHandles, AuthArea, EncodeCommand;
      ghost var rest := BigEndian(f.cc, 4) + EncodeHandles(f.handles) + AuthArea(f.auths);
      FrameBytes(f, rest);
      var ok := FinishCommand(cmdBuf, params, BigEndian(Tag(f.auths), 2), rest);
      if ok.Fail? {
        return Failure(Marshal(ok.error));
      }
      var bytes := cmdBuf.Trim();
      r := Success(bytes);
    }

    /** The rest of a command without sessions. */
    method CompleteWithout(cmdBuf: TpmBuffer, paramBuf: TpmBuffer, cc: nat, req: Request, nonces: seq<ByteVec>, ghost t: Tss)
      returns (r: Result<(ByteVec, ByteVec, ByteVec), TssError>)
      requires Sendable(cc, req, nonces) && !HasSessions(Values(), req)
      requires Started(cmdBuf, paramBuf, cc, req, TAG_NO_SESSIONS, t) && t.encSession == State().encSession
      modifies cmdBuf
      ensures var p := Prepare(crypto, t, old(Values()), cc, req, nonces);
              p.Success? && Built(p.value, r)
    {
      hide BigEndian, EncodeHandles, CryptoModel.Crypto.Valid, DistinctIn, ValuesOf, Prepare, Padded, PwapHandles,
        PasswordHandles, HandleValues, RequestOk, EncodeCommand;
      PrepareWithout(crypto, t, Values(), cc, req, nonces);
      ghost var p := Prepare(crypto, t, Values(), cc, req, nonces).value;
      assert Written(cmdBuf) + [] == Written(cmdBuf);
      var bytes := CloseCommand(cmdBuf, paramBuf.buf, p.frame);
      if bytes.Failure? {
        return Failure(bytes.error);
      }
      r := Success((bytes.value, [], paramBuf.buf));
    }

    /** The buffers once header, handles and parameters are marshaled. */
    ghost predicate Started(cmdBuf: TpmBuffer, paramBuf: TpmBuffer, cc: nat, req: Request, tag: nat, t: Tss)
      reads this, cmdBuf, paramBuf
    {
      && cmdBuf != paramBuf && Writing(cmdBuf) && |cmdBuf.buf| == CAPACITY && |Written(cmdBuf)| == 10 + 4 * |req.handles|
      && Written(cmdBuf) == BigEndian(tag, 2) + BigEndian(0, 4) + (BigEndian(cc, 4) + EncodeHandles(HandleValues(req.handles)))
      && paramBuf.buf == req.params && inHandles == req.handles
      && OtherFields(t) && sessTag == tag && nonceTpmDec == t.nonceTpmDec && nonceTpmEnc == t.nonceTpmEnc
    }

    /** What DispatchOut demands: the handles that the sessions refer to exist, and there are random
        bytes for every session. */
    ghost predicate Sendable(cc: nat, req: Request, nonces: seq<ByteVec>)
      reads this, sessions, pwapSession
    {
      && Valid() && RequestOk(cc, req)
      && |Padded(Values(), req.numAuth)| <= |nonces| && PwapHandles(Padded(Values(), req.numAuth), req.handles)
      && PasswordHandles(Padded(Values(), req.numAuth), req.handles)
    }

    /** The results of BuildCommand. */
    ghost predicate Built(p: Prepared, r: Result<(ByteVec, ByteVec, ByteVec), TssError>)
      reads this, sessions, encSession
    {
      if |EncodeCommand(p.frame)| > CAPACITY then r == Failure(Marshal(OutOfBounds))
      else
        && r == Success((EncodeCommand(p.frame), if p.data.Some? then p.data.value else [], p.params))
        && AsPrepared(p)
    }

    /** Sends a command: false if only its cpHash was wanted. On success `req'` is the request with
        the auth value that UpdateRequestHandles put into it; `used` are the session objects of the
        dispatch, which are no longer listed if only the cpHash was wanted. */
    method DispatchOut(cc: nat, req: Request, nonces: seq<ByteVec>)
      returns (r: Result<Option<ByteVec>, TssError>, req': Request, ghost used: seq<AuthSession>)
      requires Sendable(cc, req, nonces)
      modifies this, sessions, pwapSession
      ensures Valid()
      ensures match OutStep(crypto, old(State()), old(Values()), hasDevice, cc, req, nonces)
              case OutThrown(e, delivered) =>
                && r == Failure(e) && pendingCommand == old(pendingCommand) && admin == old(admin)
                && audit.alg == old(audit.alg) && audit.digest == old(audit.digest)
                && (delivered.Some? ==> lastCommandBuf == delivered.value)
              case Captured(digest, t, ss) =>
                && r == Success(Some(digest)) && StateIs(t) && sessions == [] && ValuesOf(used) == ss
                && Refers(encSession, used, t.encSession)
              case Sent(t, ss, request) =>
                && r == Success(None) && req' == request && StateIs(t) && sessions == used && Values() == ss
                && Refers(encSession, sessions, t.encSession)
    {
      hide Prepare, EncodeCommand, DistinctIn, ValuesOf, CryptoModel.Crypto.Valid, RequestOk, Padded, PwapHandles, StateIs, HasSessions,
        PasswordHandles, SendPrepared;
      req', used := req, sessions;
      if pendingCommand != 0 {
        return Failure(CommandPending), req', used;
      }
      if invocation.auditCommand && audit.alg == ALG_NULL {
        return Failure(AuditNotEnabled), req', used;
      }
      if |req.params| > CAPACITY {
        return Failure(Marshal(OutOfBounds)), req', used;
      }
      r, req', used := BuildAndSend(cc, req, nonces);
    }

    /** DispatchOut after its initial checks. */
    method BuildAndSend(cc: nat, req: Request, nonces: seq<ByteVec>)
      returns (r: Result<Option<ByteVec>, TssError>, req': Request, ghost used: seq<AuthSession>)
      requires Sendable(cc, req, nonces) && |req.params| <= CAPACITY
      modifies this, sessions, pwapSession
      ensures Valid()
      ensures var t, p := old(State()), Prepare(crypto, old(State()), old(Values()), cc, req, nonces);
              match if p.Failure? then OutThrown(p.error, None) else SendPrepared(crypto, t, p.value, hasDevice, cc, req)
              case OutThrown(e, delivered) =>
                && r == Failure(e) && pendingCommand == old(pendingCommand) && admin == old(admin)
                && audit.alg == old(audit.alg) && audit.digest == old(audit.digest)
                && (delivered.Some? ==> lastCommandBuf == delivered.value)
              case Captured(digest, t', ss) =>
                && r == Success(Some(digest)) && StateIs(t') && sessions == [] && ValuesOf(used) == ss
                && Refers(encSession, used, t'.encSession)
              case Sent(t', ss, request) =>
                && r == Success(None) && req' == request && StateIs(t') && sessions == used && Values() == ss
                && Refers(encSession, sessions, t'.encSession)
    {
      hide Prepare, EncodeCommand, DistinctIn, ValuesOf, CryptoModel.Crypto.Valid, RequestOk, Padded, PwapHandles, OtherFields, StateIs,
        PasswordHandles, SendPrepared;
      req', used := req, sessions;
      ghost var t, p := State(), Prepare(crypto, State(), Values(), cc, req, nonces);
      var built := BuildCommand(cc, req, nonces);
      if p.Success? {
        SendPreparedSessions(crypto, t, p.value, hasDevice, cc, req);
      }
      if built.Failure? {
        return Failure(built.error), req', used;
      }
      used := sessions;
      PrepareKeeps(crypto, t, old(Values()), cc, req, nonces);
      HashedNotEmpty(crypto, t, old(Values()), cc, req, nonces);
      r, req' := SendCommand(cc, req, built.value.0, built.value.1, built.value.2, t, p.value);
      NoneDistinct();
    }

    /** What happens to a command once it is built. */
    method SendCommand(cc: nat, req: Request, bytes: ByteVec, hashed: ByteVec, params: ByteVec, ghost t: Tss, ghost p: Prepared)
      returns (r: Result<Option<ByteVec>, TssError>, req': Request)
      requires RequestOk(cc, req) && StateIs(p.tss) && inHandles == p.handles && |EncodeCommand(p.frame)| <= CAPACITY
      requires bytes == EncodeCommand(p.frame) && params == p.params && hashed == if p.data.Some? then p.data.value else []
      requires p.data.Some? ==> p.data.value != []
      requires SameBut(t, p.tss)
      modifies this`invocation, this`pendingCommand, this`sessions, this`audit, this`lastCommandBuf, this`objectIn
      ensures match SendPrepared(crypto, t, p, hasDevice, cc, req)
              case OutThrown(e, delivered) =>
                && r == Failure(e) && pendingCommand == old(pendingCommand) && audit.alg == old(audit.alg)
                && audit.digest == old(audit.digest) && sessions == old(sessions)
                && (delivered.Some? ==> lastCommandBuf == delivered.value)
              case Captured(digest, t, ss) => r == Success(Some(digest)) && StateIs(t) && sessions == []
              case Sent(t, ss, request) => r == Success(None) && req' == request && StateIs(t) && sessions == old(sessions)
    {
      hide EncodeCommand, CpHashData, RequestOk, Remember, ClearInvocation, OtherFields;
      SettingsAre(p.tss);
      req' := req;
      var data: Result<ByteVec, TssError> := Success(hashed);
      if invocation.cpHash.Some? || invocation.auditCommand {
        data := CommandHash(cc, hashed, params);
        if data.Failure? {
          return Failure(data.error), req';
        }
      }
      if invocation.cpHash.Some? {
        var digest := Capture(data.value, p.tss);
        return Success(Some(digest)), req';
      }
      r, req' := Transmit(cc, req, bytes, data.value, p.tss);
    }

    lemma SettingsAre(t: Tss)
      requires OtherFields(t)
      ensures invocation.cpHash == t.cpHash && invocation.auditCommand == t.auditCommand && audit.alg == t.auditAlg
      ensures pendingCommand == t.pending && audit.digest == t.auditDigest
    {}

    /** Gives the caller the cpHash instead of sending the command. */
    method Capture(data: ByteVec, ghost t: Tss) returns (digest: ByteVec)
      requires StateIs(t) && invocation.cpHash.Some?
      modifies this`invocation, this`pendingCommand, this`sessions
      ensures StateIs(ClearInvocation(t)) && sessions == [] && digest == crypto.hash(old(invocation.cpHash).value, data)
    {
      digest := crypto.hash(invocation.cpHash.value, data);
      ClearInvocationState();
      sessions := [];
    }

    /** Hands the command to the device. */
    method Transmit(cc: nat, req: Request, bytes: ByteVec, data: ByteVec, ghost t: Tss)
      returns (r: Result<Option<ByteVec>, TssError>, req': Request)
      requires RequestOk(cc, req) && StateIs(t)
      modifies this`pendingCommand, this`lastCommandBuf, this`objectIn, this`audit
      ensures audit.alg == old(audit.alg) && audit.digest == old(audit.digest)
      ensures if !hasDevice then r == Failure(NoDevice) && pendingCommand == old(pendingCommand) else
              var t1 := if t.auditCommand then t.(auditCpHash := crypto.hash(t.auditAlg, data)) else t;
              match DispatchSpec.UpdateRequestHandles(cc, t1.(lastCommandBuf := bytes), req)
              case Failure(e) => r == Failure(e) && pendingCommand == old(pendingCommand) && lastCommandBuf == bytes
              case Success(u) => r == Success(None) && req' == u.1 && StateIs(u.0.(pending := cc))
    {
      hide Remember, RequestOk;
      req' := req;
      if invocation.auditCommand {
        audit := audit.(cpHash := crypto.hash(audit.alg, data));
      }
      if !hasDevice {
        return Failure(NoDevice), req';
      }
      lastCommandBuf := bytes;
      var updated := UpdateRequestHandles(cc, req);
      if updated.Failure? {
        return Failure(updated.error), req';
      }
      req' := updated.value;
      pendingCommand := cc;
      r := Success(None);
    }

    /** The data of the cpHash, unless it was needed for the sessions already. */
    method CommandHash(cc: nat, hashed: ByteVec, params: ByteVec) returns (r: Result<ByteVec, TssError>)
      ensures r == if hashed == [] then CpHashData(cc, inHandles, params) else Success(hashed)
    {
      if hashed == [] {
        r := GetCpHashData(cc, params);
      } else {
        r := Success(hashed);
      }
    }

    // ---------- the response ----------

    /** The hash of response code, command code and response parameters. They are made adjacent by
        overwriting the eight bytes before the parameters, unless an earlier call did so. */
    method GetRpHash(hashAlg: nat, respBuf: TpmBuffer, cc: nat, respParamsPos: nat, respParamsSize: nat, rpReady: bool)
      returns (rpHash: ByteVec)
      requires 8 <= respParamsPos && respParamsPos + respParamsSize <= |respBuf.buf| && respBuf.pos <= |respBuf.buf|
      requires rpReady ==> RpReady(respBuf.buf, cc, respParamsPos)
      modifies respBuf
      ensures rpHash == crypto.hash(hashAlg, RpHashData(cc, old(respBuf.buf)[respParamsPos..respParamsPos + respParamsSize]))
      ensures respBuf.pos == old(respBuf.pos) && |respBuf.buf| == |old(respBuf.buf)| && RpReady(respBuf.buf, cc, respParamsPos)
      ensures respBuf.buf[..respParamsPos - 8] == old(respBuf.buf)[..respParamsPos - 8]
      ensures respBuf.buf[respParamsPos..] == old(respBuf.buf)[respParamsPos..]
    {
      hide BigEndian;
      ghost var b := respBuf.buf;
      var rpHashDataPos := respParamsPos - 8;
      if !rpReady {
        var origCurPos := respBuf.pos;
        respBuf.SetCurPos(rpHashDataPos);
        var ok := respBuf.WriteNum(0, 4);
        ok := respBuf.WriteNum(cc, 4);
        respBuf.SetCurPos(origCurPos);
        SpliceTwice(b, rpHashDataPos, BigEndian(0, 4), BigEndian(cc, 4));
        assert respBuf.buf == Splice(b, rpHashDataPos, BigEndian(0, 4) + BigEndian(cc, 4));
      }
      TailPart(b, respBuf.buf, respParamsPos, respParamsSize);
      var data := respBuf.buf[rpHashDataPos..respParamsPos + respParamsSize];
      assert data == respBuf.buf[rpHashDataPos..respParamsPos] + respBuf.buf[respParamsPos..respParamsPos + respParamsSize];
      rpHash := crypto.hash(hashAlg, data);
    }

    /** TPMS_AUTH_RESPONSE::initFromTpm. */
    method ReadAuthResponse(respBuf: TpmBuffer) returns (r: Result<AuthResponse, TssError>)
      modifies respBuf`pos, respBuf`outOfBounds
      ensures match DispatchSpec.ReadAuthResponse(respBuf.buf, old(respBuf.pos))
              case Failure(e) => r == Failure(e)
              case Success(x) => r == Success(x.0) && respBuf.pos == x.1
    {
      hide FromBigEndian;
      var nonce := respBuf.ReadSizedByteBuf(2);
      if nonce.Failure? {
        return Failure(Marshal(nonce.error));
      }
      var attributes := respBuf.ReadByte();
      if attributes.Failure? {
        return Failure(Marshal(attributes.error));
      }
      var hmac := respBuf.ReadSizedByteBuf(2);
      if hmac.Failure? {
        return Failure(Marshal(hmac.error));
      }
      r := Success(AuthResponse(nonce.value, attributes.value, hmac.value));
    }

    /** The response to the j-th session: its nonce and attributes are taken over, and the HMAC of an
        HMAC session is checked. */
    method AcceptResponse(j: nat, entry: AuthResponse, respBuf: TpmBuffer, cc: nat, respParamsPos: nat, respParamsSize: nat, rpReady: bool)
      returns (accepted: bool, ready: bool)
      requires Valid() && j < |sessions| && !sessions[j].IsPwap()
      requires 8 <= respParamsPos && respParamsPos + respParamsSize <= |respBuf.buf| && respBuf.pos <= |respBuf.buf|
      requires rpReady ==> RpReady(respBuf.buf, cc, respParamsPos)
      modifies respBuf, sessions[j]
      ensures sessions[j].Value() == Updated(old(sessions[j].Value()), inHandles, j, entry)
      ensures accepted <==> ResponseAccepted(crypto, old(sessions[j].Value()), inHandles, j, entry, cc,
                                             old(respBuf.buf)[respParamsPos..respParamsPos + respParamsSize], nonceTpmDec, nonceTpmEnc)
      ensures respBuf.pos == old(respBuf.pos) && |respBuf.buf| == |old(respBuf.buf)|
      ensures respBuf.buf[respParamsPos..] == old(respBuf.buf)[respParamsPos..]
      ensures ready ==> RpReady(respBuf.buf, cc, respParamsPos)
      ensures rpReady ==> ready
    {
      hide RpHashData, SessionModel.GetAuthHmac;
      var sess := sessions[j];
      var associatedHandle: Option<Handle> := None;
      if j < |inHandles| {
        sess.authValue := inHandles[j].auth;
        associatedHandle := Some(inHandles[j]);
      }
      sess.nonceTpm := entry.nonce;
      sess.attributes := entry.attributes;
      accepted, ready := true, rpReady;
      if sess.sessionType == HMAC {
        var rpHash := GetRpHash(sess.hashAlg, respBuf, cc, respParamsPos, respParamsSize, rpReady);
        ready := true;
        var expectedHmac := sess.GetAuthHmac(crypto, rpHash, false, nonceTpmDec, nonceTpmEnc, associatedHandle);
        accepted := expectedHmac == entry.hmac;
      }
    }

    method ProcessRespSessions(respBuf: TpmBuffer, cc: nat, respParamsPos: nat, respParamsSize: nat)
      returns (r: Result<bool, TssError>)
      requires Valid() && 8 <= respParamsPos <= |respBuf.buf|
      modifies respBuf, sessions
      ensures Valid()
      ensures var b, end := old(respBuf.buf), respParamsPos + respParamsSize;
              var params := if end <= |b| then b[respParamsPos..end] else [];
              match RespSessions(crypto, old(Values()), inHandles, cc, params, b, end, nonceTpmDec, nonceTpmEnc, 0)
              case Failure(e) => r == Failure(e)
              case Success(x) =>
                if x.1 != |b| then r == Failure(DataBeyondAuthArea)
                else
                  && r.Success? && Values() == x.0 && end <= |b| == |respBuf.buf| && respBuf.buf[respParamsPos..] == b[respParamsPos..]
                  && (r.value ==> RpReady(respBuf.buf, cc, respParamsPos)) && respBuf.pos <= |respBuf.buf|
    {
      hide RespSessions, DispatchSpec.ReadAuthResponse, ResponseAccepted, RpReady, DistinctIn, ValuesOf, CryptoModel.Crypto.Valid, Updated;
      ghost var b, end := respBuf.buf, respParamsPos + respParamsSize;
      ghost var params := if end <= |b| then b[respParamsPos..end] else [];
      var rpReady := false;
      respBuf.SetCurPos(respParamsPos + respParamsSize);
      var j := 0;
      while j < |sessions|
        invariant j <= |sessions| && Valid()
        invariant |respBuf.buf| == |b| && respBuf.buf[respParamsPos..] == b[respParamsPos..]
        invariant respBuf.pos >= end && (j > 0 ==> respBuf.pos <= |b|)
        invariant rpReady ==> RpReady(respBuf.buf, cc, respParamsPos)
        invariant RespSessions(crypto, old(Values()), inHandles, cc, params, b, end, nonceTpmDec, nonceTpmEnc, 0)
               == RespSessions(crypto, Values(), inHandles, cc, params, b, respBuf.pos, nonceTpmDec, nonceTpmEnc, j)
      {
        RespSessionsStep(crypto, Values(), inHandles, cc, params, b, respBuf.pos, nonceTpmDec, nonceTpmEnc, j);
        var round := RespRound(respBuf, cc, respParamsPos, respParamsSize, j, rpReady, b);
        if round.Failure? {
          return Failure(round.error);
        }
        rpReady := round.value;
        j := j + 1;
      }
      RespSessionsEnd(crypto, Values(), inHandles, cc, params, b, respBuf.pos, nonceTpmDec, nonceTpmEnc);
      if |respBuf.buf| - respBuf.pos != 0 {
        return Failure(DataBeyondAuthArea);
      }
      r := Success(rpReady);
    }

    /** One round of that loop. */
    method RespRound(respBuf: TpmBuffer, cc: nat, respParamsPos: nat, respParamsSize: nat, j: nat, rpReady: bool, ghost b: ByteVec)
      returns (r: Result<bool, TssError>)
      requires Valid() && j < |sessions| && 8 <= respParamsPos <= |b| && respBuf.pos >= respParamsPos + respParamsSize
      requires |respBuf.buf| == |b| && respBuf.buf[respParamsPos..] == b[respParamsPos..]
      requires rpReady ==> RpReady(respBuf.buf, cc, respParamsPos)
      modifies respBuf, sessions
      ensures Valid() && |respBuf.buf| == |b| && respBuf.buf[respParamsPos..] == b[respParamsPos..]
      ensures var s := old(Values())[j];
              match DispatchSpec.ReadAuthResponse(b, old(respBuf.pos))
              case Failure(e) => r == Failure(e)
              case Success(x) =>
                && respParamsPos + respParamsSize <= |b|
                && if s.IsPwap() then r == Success(rpReady) && respBuf.pos == x.1 && Values() == old(Values())
                   else if !ResponseAccepted(crypto, s, inHandles, j, x.0, cc, b[respParamsPos..respParamsPos + respParamsSize],
                                             nonceTpmDec, nonceTpmEnc) then
                     r == Failure(InvalidHmac)
                   else
                     r.Success? && respBuf.pos == x.1 && Values() == old(Values())[j := Updated(s, inHandles, j, x.0)]
      ensures r.Success? && r.value ==> RpReady(respBuf.buf, cc, respParamsPos)
      ensures r.Success? ==> respParamsPos + respParamsSize <= respBuf.pos <= |b|
    {
      hide DispatchSpec.ReadAuthResponse, ResponseAccepted, RpReady, CryptoModel.Crypto.Valid;
      SameRead(b, respBuf.buf, respParamsPos, respBuf.pos);
      var entry := ReadAuthResponse(respBuf);
      if entry.Failure? {
        return Failure(entry.error);
      }
      if sessions[j].IsPwap() {
        return Success(rpReady);
      }
      TailPart(b, respBuf.buf, respParamsPos, respParamsSize);
      var accepted, ready := AcceptResponse(j, entry.value, respBuf, cc, respParamsPos, respParamsSize, rpReady);
      if !accepted {
        return Failure(InvalidHmac);
      }
      r := Success(ready);
    }

    method CompleteUpdateRequestHandles(cc: nat, ghost t: Tss)
      requires StateIs(t) && HandlesFor(cc, t)
      modifies this`inHandles, this`admin
      ensures StateIs(CompleteUpdate(cc, t))
    {
      if cc == CC_HIERARCHY_CHANGE_AUTH {
        admin := admin.Set(inHandles[0].value, objectIn.auth);
        inHandles := inHandles[0 := inHandles[0].(auth := objectIn.auth)];
      } else if cc == CC_NV_CHANGE_AUTH || cc == CC_PCR_SET_AUTH_VALUE {
        inHandles := inHandles[0 := inHandles[0].(auth := objectIn.auth)];
      } else if cc == CC_EVICT_CONTROL {
        if inHandles[1].value / 0x100_0000 != 0x81 {
          inHandles := inHandles[1 := inHandles[1].(auth := objectIn.auth, name := objectIn.name)];
        }
      } else if cc == CC_CLEAR {
        admin := admin.Cleared();
      }
    }

    /** The handle that the response returns, if it does. */
    method ReadOutHandle(respBuf: TpmBuffer, resp: Response) returns (r: Result<Option<nat>, TssError>)
      requires ResponseOk(resp) && |respBuf.buf| >= 10 && respBuf.pos == 10
      modifies respBuf`pos, respBuf`outOfBounds
      ensures if 10 + 4 * resp.numHandles > |respBuf.buf| then r == Failure(Marshal(OutOfBounds))
              else r == Success(if resp.numHandles == 1 then Some(Num(respBuf.buf, 10, 4)) else None)
                   && respBuf.pos == 10 + 4 * resp.numHandles
    {
      hide FromBigEndian;
      r := Success(None);
      if resp.numHandles > 0 {
        var h := respBuf.ReadNum(4);
        if h.Failure? {
          return Failure(Marshal(h.error));
        }
        r := Success(Some(h.value));
      }
    }

    /** A successful response past its header, up to the response parameters. */
    method OpenResponse(respBuf: TpmBuffer, respTag: nat, cc: nat, resp: Response, ghost t: Tss)
      returns (r: Result<(Option<nat>, nat, nat, bool), TssError>)
      requires Valid() && ResponseOk(resp) && |respBuf.buf| >= 10 && respBuf.pos == 10 && StateIs(t)
      modifies respBuf, sessions
      ensures Valid()
      ensures match Open(crypto, t, old(Values()), cc, resp, respTag, old(respBuf.buf))
              case Failure(e) => r == Failure(e)
              case Success(o) =>
                && r.Success? && r.value.0 == o.outHandle && r.value.1 == o.pos && r.value.2 == |o.params| && Values() == o.sessions
                && Opened(respBuf, old(respBuf.buf), o, cc, r.value.3)
    {
      hide FromBigEndian, RespSessions, CryptoModel.Crypto.Valid, DistinctIn, ValuesOf, RpReady;
      if sessTag != respTag {
        return Failure(WrongSessionTag);
      }
      var outHandle :- ReadOutHandle(respBuf, resp);
      if sessTag == TAG_SESSIONS {
        var area :- OpenSessions(respBuf, cc);
        r := Success((outHandle, area.0, area.1, area.2));
      } else {
        r := Success((outHandle, respBuf.pos, |respBuf.buf| - respBuf.pos, false));
      }
    }

    /** The size of the parameters and the session area behind them. */
    method OpenSessions(respBuf: TpmBuffer, cc: nat) returns (r: Result<(nat, nat, bool), TssError>)
      requires Valid() && 10 <= respBuf.pos <= |respBuf.buf|
      modifies respBuf, sessions
      ensures Valid()
      ensures var b, q := old(respBuf.buf), old(respBuf.pos);
              if q + 4 > |b| then r == Failure(Marshal(OutOfBounds)) else
              var size := Num(b, q, 4);
              var params := if q + 4 + size <= |b| then b[q + 4..q + 4 + size] else [];
              match RespSessions(crypto, old(Values()), inHandles, cc, params, b, q + 4 + size, nonceTpmDec, nonceTpmEnc, 0)
              case Failure(e) => r == Failure(e)
              case Success(x) =>
                if x.1 != |b| then r == Failure(DataBeyondAuthArea)
                else
                  && r.Success? && r.value.0 == q + 4 && r.value.1 == |params| && Values() == x.0
                  && Opened(respBuf, b, Opening(x.0, q + 4, params, None), cc, r.value.2)
    {
      hide FromBigEndian, RespSessions, CryptoModel.Crypto.Valid, DistinctIn, ValuesOf, RpReady;
      var respParamsSize := respBuf.ReadNum(4);
      if respParamsSize.Failure? {
        return Failure(Marshal(respParamsSize.error));
      }
      var respParamsPos := respBuf.pos;
      var rpReady := ProcessRespSessions(respBuf, cc, respParamsPos, respParamsSize.value);
      if rpReady.Failure? {
        return Failure(rpReady.error);
      }
      r := Success((respParamsPos, respParamsSize.value, rpReady.value));
    }

    /** The parameters are as received; the bytes before them may have been overwritten. */
    ghost predicate Opened(respBuf: TpmBuffer, b: ByteVec, o: Opening, cc: nat, rpReady: bool)
      reads respBuf
    {
      && 8 <= o.pos && o.pos + |o.params| <= |b| == |respBuf.buf| && respBuf.buf[o.pos..] == b[o.pos..]
      && b[o.pos..o.pos + |o.params|] == o.params && respBuf.pos <= |b|
      && (rpReady ==> RpReady(respBuf.buf, cc, o.pos))
    }

    /** A successful response past its header: sessions, audit, decryption, parameters. */
    method CompleteResponse(respBuf: TpmBuffer, respTag: nat, cc: nat, resp: Response, auditCommand: bool, ghost t: Tss)
      returns (r: Result<(Option<nat>, ByteVec), TssError>)
      requires Valid() && ResponseOk(resp) && |respBuf.buf| >= 10 && respBuf.pos == 10
      requires StateIs(t) && Refers(encSession, sessions, t.encSession)
      modifies respBuf, sessions, this`audit, this`decSession, this`encSession
      ensures Valid() && encSession == if r.Success? then null else old(encSession)
      ensures match Complete(crypto, t, old(Values()), cc, resp, auditCommand, respTag, old(respBuf.buf))
              case InThrown(e, t', _) => r == Failure(e) && StateIs(t')
              case Done(t', ss, outHandle, params) => r == Success((outHandle, params)) && StateIs(t') && Values() == ss
              case _ => false
    {
      hide Open, Finish, CryptoModel.Crypto.Valid, DistinctIn, ValuesOf;
      ghost var b, o := respBuf.buf, Open(crypto, t, Values(), cc, resp, respTag, respBuf.buf);
      var opening := OpenResponse(respBuf, respTag, cc, resp, t);
      if opening.Failure? {
        return Failure(opening.error);
      }
      var (outHandle, respParamsPos, respParamsSize, rpReady) := opening.value;
      var params := FinishResponse(respBuf, cc, resp, auditCommand, respParamsPos, respParamsSize, rpReady, b, t, o.value);
      if params.Failure? {
        return Failure(params.error);
      }
      r := Success((outHandle, params.value));
    }

    /** The end of a dispatch: audit, decryption of the first response parameter, hand-over of the
        response parameters. */
    method FinishResponse(respBuf: TpmBuffer, cc: nat, resp: Response, auditCommand: bool, respParamsPos: nat, respParamsSize: nat,
                          rpReady: bool, ghost b: ByteVec, ghost t: Tss, ghost o: Opening)
      returns (r: Result<ByteVec, TssError>)
      requires crypto.Valid() && ResponseOk(resp) && StateIs(t) && Opened(respBuf, b, o, cc, rpReady)
      requires Values() == o.sessions && respParamsPos == o.pos && respParamsSize == |o.params|
      requires Refers(encSession, sessions, t.encSession)
      modifies respBuf, this`audit, this`decSession, this`encSession
      ensures encSession == if r.Success? then null else old(encSession)
      ensures match Finish(crypto, t, o.sessions, cc, resp, auditCommand, b, o.pos, o.params, o.outHandle)
              case InThrown(e, t', _) => r == Failure(e) && StateIs(t')
              case Done(t', ss, outHandle, params) => r == Success(params) && StateIs(t') && ss == o.sessions && outHandle == o.outHandle
              case _ => false
    {
      hide HandOver, Audited, Opened;
      if auditCommand {
        AuditResponse(respBuf, cc, respParamsPos, respParamsSize, rpReady, b, t, o);
      }
      AuditedKeeps(crypto, t, cc, auditCommand, o.params);
      r := TakeParams(respBuf, resp, respParamsPos, respParamsSize, b, Audited(crypto, t, cc, auditCommand, o.params), o, cc, rpReady || auditCommand);
    }

    /** Extends the audit digest by the command and its response. */
    method AuditResponse(respBuf: TpmBuffer, cc: nat, respParamsPos: nat, respParamsSize: nat, rpReady: bool,
                         ghost b: ByteVec, ghost t: Tss, ghost o: Opening)
      requires StateIs(t) && Opened(respBuf, b, o, cc, rpReady) && respParamsPos == o.pos && respParamsSize == |o.params|
      modifies respBuf, this`audit
      ensures StateIs(Audited(crypto, t, cc, true, o.params)) && Opened(respBuf, b, o, cc, true)
    {
      hide RpReady, RpHashData;
      TailPart(b, respBuf.buf, o.pos, |o.params|);
      var rpHash := GetRpHash(audit.alg, respBuf, cc, respParamsPos, respParamsSize, rpReady);
      audit := audit.(digest := crypto.Extend(audit.alg, audit.digest, audit.cpHash + rpHash));
    }

    /** Decrypts the first response parameter if that was asked for, and takes the parameters out of
        the buffer. */
    method TakeParams(respBuf: TpmBuffer, resp: Response, respParamsPos: nat, respParamsSize: nat,
                      ghost b: ByteVec, ghost t: Tss, ghost o: Opening, ghost cc: nat, ghost ready: bool)
      returns (r: Result<ByteVec, TssError>)
      requires crypto.Valid() && ResponseOk(resp) && StateIs(t) && Opened(respBuf, b, o, cc, ready)
      requires Values() == o.sessions && respParamsPos == o.pos && respParamsSize == |o.params|
      requires Refers(encSession, sessions, t.encSession)
      modifies respBuf, this`decSession, this`encSession
      ensures encSession == if r.Success? then null else old(encSession)
      ensures match HandOver(crypto, t, o.sessions, resp, b, o.pos, o.params, o.outHandle)
              case InThrown(e, t', _) => r == Failure(e) && StateIs(t')
              case Done(t', ss, outHandle, params) => r == Success(params) && StateIs(t') && ss == o.sessions && outHandle == o.outHandle
              case _ => false
    {
      hide XcryptAt, RpReady, CryptoModel.Crypto.Valid;
      ghost var b' := respBuf.buf;
      if encSession != null {
        SameXcrypt(crypto, encSession.Value(), b, b', o.pos, resp.sizeLen, resp.valLen, |o.params|);
      }
      TailPart(b, b', o.pos, |o.params|);
      var decrypted := DoParmEncryption(respBuf, resp.sizeLen, resp.valLen, respParamsPos, false);
      if decrypted.Fail? {
        return Failure(decrypted.error);
      }
      respBuf.SetCurPos(respParamsPos);
      var params := respBuf.ReadByteBuf(respParamsSize);
      r := Success(params.value);
    }

    /** Completes the pending command with the response the device delivered. */
    method DispatchIn(cc: nat, resp: Response, rawRespBuf: ByteVec, ghost t: Tss) returns (r: Result<InOutcome, TssError>)
      requires Valid() && ResponseOk(resp) && StateIs(t) && Refers(encSession, sessions, t.encSession) && HandlesFor(cc, t)
      modifies this, sessions
      ensures Valid() && encSession == if r.Success? && r.value.Completed? then null else old(encSession)
      ensures match InStep(crypto, t, old(Values()), cc, resp, rawRespBuf)
              case Retry(t') => r == Success(WantsRetry) && StateIs(t') && sessions == old(sessions) && Values() == old(Values())
              case InThrown(e, t', cleared) => r == Failure(e) && StateIs(t') && (cleared ==> sessions == [])
              case Failed(t') => r == Success(ErrorReported) && StateIs(t') && sessions == []
              case Done(t', ss, outHandle, params) =>
                r == Success(Completed(outHandle, params)) && StateIs(t') && sessions == [] && ValuesOf(old(sessions)) == ss
    {
      hide FromBigEndian, BareCode, Complete, ClearInvocation, CompleteUpdate, CryptoModel.Crypto.Valid, ThrowsOn, ValuesOf, Reaction,
        Settled;
      if pendingCommand == 0 {
        return Failure(NothingPending);
      }
      if pendingCommand != cc {
        return Failure(WrongCommand);
      }
      if invocation.auditCommand && audit.alg == ALG_NULL {
        return Failure(AuditNotEnabled);
      }
      pendingCommand := 0;
      if |rawRespBuf| < 10 {
        return Failure(ShortResponse);
      }
      var respBuf, respTag, respSize, respCode := ReadHeader(rawRespBuf);
      if respSize != |respBuf.buf| {
        return Failure(InconsistentSize);
      }
      if respCode == RC_RETRY {
        return Success(WantsRetry);
      }
      InStepReacts(crypto, t, Values(), cc, resp, rawRespBuf);
      r := React(cc, resp, respBuf, respTag, respCode, t.(pending := 0));
    }

    method ReadHeader(rawRespBuf: ByteVec) returns (respBuf: TpmBuffer, respTag: nat, respSize: nat, respCode: nat)
      requires |rawRespBuf| >= 10
      ensures fresh(respBuf) && respBuf.buf == rawRespBuf && respBuf.pos == 10
      ensures respTag == Num(rawRespBuf, 0, 2) && respSize == Num(rawRespBuf, 2, 4) && respCode == Num(rawRespBuf, 6, 4)
    {
      hide FromBigEndian;
      respBuf := new TpmBuffer.Input(rawRespBuf);
      var tag := respBuf.ReadNum(2);
      var size := respBuf.ReadNum(4);
      var code := respBuf.ReadNum(4);
      respTag, respSize, respCode := tag.value, size.value, code.value;
    }

    /** What DispatchIn does with a response code other than RETRY. */
    method React(cc: nat, resp: Response, respBuf: TpmBuffer, respTag: nat, respCode: nat, ghost t: Tss)
      returns (r: Result<InOutcome, TssError>)
      requires Valid() && ResponseOk(resp) && StateIs(t) && Refers(encSession, sessions, t.encSession) && HandlesFor(cc, t)
      requires |respBuf.buf| >= 10 && respBuf.pos == 10
      modifies respBuf, sessions
      modifies this`lastResponseCode, this`inHandles, this`admin, this`invocation, this`pendingCommand, this`sessions, this`audit
      modifies this`decSession, this`encSession
      ensures Valid() && encSession == if r.Success? && r.value.Completed? then null else old(encSession)
      ensures Settled(cc, t, respCode).encSession == t.encSession
      ensures match Reaction(crypto, t, old(Values()), cc, resp, respTag, respCode, old(respBuf.buf))
              case Retry(_) => false
              case InThrown(e, t', cleared) => r == Failure(e) && StateIs(t') && (cleared ==> sessions == [])
              case Failed(t') => r == Success(ErrorReported) && StateIs(t') && sessions == []
              case Done(t', ss, outHandle, params) =>
                r == Success(Completed(outHandle, params)) && StateIs(t') && sessions == [] && ValuesOf(old(sessions)) == ss
    {
      hide BareCode, Complete, Settled, CryptoModel.Crypto.Valid, ValuesOf, ThrowsOn, OtherFields;
      var throws, auditCommand := Settle(cc, respCode, t);
      NoneDistinct();
      if throws {
        sessions := [];
        return Failure(TssError.TpmError(lastResponseCode));
      } else if lastResponseCode != 0 {
        sessions := [];
        return Success(ErrorReported);
      }
      var completed := CompleteResponse(respBuf, respTag, cc, resp, auditCommand, Settled(cc, t, respCode));
      if completed.Failure? {
        return Failure(completed.error);
      }
      sessions := [];
      r := Success(Completed(completed.value.0, completed.value.1));
    }

    /** Records the response code, applies what a successful command changes, and decides whether the
        code is a reason to throw. */
    method Settle(cc: nat, respCode: nat, ghost t: Tss) returns (throws: bool, auditCommand: bool)
      requires StateIs(t) && HandlesFor(cc, t)
      modifies this`lastResponseCode, this`inHandles, this`admin, this`invocation, this`pendingCommand
      ensures StateIs(Settled(cc, t, respCode)) && Settled(cc, t, respCode).encSession == t.encSession
      ensures lastResponseCode == BareCode(respCode)
      ensures throws == ThrowsOn(t, respCode) && auditCommand == t.auditCommand
    {
      hide BareCode;
      lastResponseCode := BareCode(respCode);
      if respCode == 0 {
        CompleteUpdateRequestHandles(cc, t.(lastResponseCode := lastResponseCode));
        throws := invocation.demandError || invocation.expectedError != 0;
      } else {
        throws := !invocation.demandError && !invocation.allowErrors
                  && (invocation.expectedError != 0 ==> lastResponseCode != invocation.expectedError);
      }
      auditCommand := invocation.auditCommand;
      ClearInvocationState();
    }
  }
}
