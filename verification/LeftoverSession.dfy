/** What becomes of EncSession: which dispatches leave it pointing to a session, and what a session
    that was left behind does to the response of a command without sessions. */
module LeftoverSession {
  import opened Bytes
  import opened Sequences
  import opened CryptoModel
  import opened Wrappers
  import opened TpmBuffers
  import opened WireFormat
  import opened CommandFrames
  import opened SessionModel
  import opened DispatchSpec
  import opened HonestTpm
  import opened SessionProtocol
  import opened SessionEncryption
  import opened DispatchHistory

  // ---------- leaving a session behind ----------

  /** Where DispatchOut leaves EncSession: untouched by a command without sessions, otherwise at the
      session that encrypts the response, unless one decrypts the request. */
  function EncSessionOut(e: EncSession, ss: seq<Session>, req: Request, nonces: seq<ByteVec>): EncSession
    requires |Padded(ss, req.numAuth)| <= |nonces|
  {
    if !HasSessions(ss, req) then e else
    var rolled := Rolled(Padded(ss, req.numAuth), nonces);
    if LastWith(rolled, true).Some? then NoSession else AsSlot(LastWith(rolled, false))
  }

  lemma PreparedEncSession(c: Crypto, t: Tss, ss: seq<Session>, cc: nat, req: Request, nonces: seq<ByteVec>)
    requires c.Valid() && RequestOk(cc, req)
    requires |Padded(ss, req.numAuth)| <= |nonces| && PwapHandles(Padded(ss, req.numAuth), req.handles)
    requires Prepare(c, t, ss, cc, req, nonces).Success?
    ensures Prepare(c, t, ss, cc, req, nonces).value.tss.encSession == EncSessionOut(t.encSession, ss, req, nonces)
  {
    hide EncodeCommand, SentParams, CpHashData, AuthEntries, LastWith, GetName, Rolled, Padded, RhHandles;
  }

  /** DispatchIn clears EncSession exactly when it hands over a response, and moves it nowhere else. */
  lemma EncSessionIn(c: Crypto, t: Tss, ss: seq<Session>, cc: nat, resp: Response, b: ByteVec)
    requires c.Valid() && ResponseOk(resp) && HandlesFor(cc, t) && EncOk(t.encSession, ss)
    ensures var r := InStep(c, t, ss, cc, resp, b);
            StateAfter(r).encSession == if r.Done? then NoSession else t.encSession
  {
    hide FromBigEndian, Complete, CompleteUpdate, BareCode, XcryptAt;
    if |b| >= 10 {
      var t1 := t.(pending := 0, lastResponseCode := BareCode(Num(b, 6, 4)));
      UpdateKeepsEncSession(cc, t1);
      var t2 := if Num(b, 6, 4) == 0 then CompleteUpdate(cc, t1) else t1;
      CompletedEncSession(c, ClearInvocation(t2), ss, cc, resp, t.auditCommand, Num(b, 0, 2), b);
    }
  }

  lemma UpdateKeepsEncSession(cc: nat, t: Tss)
    requires HandlesFor(cc, t)
    ensures CompleteUpdate(cc, t).encSession == t.encSession
  {}

  lemma CompletedEncSession(c: Crypto, t: Tss, ss: seq<Session>, cc: nat, resp: Response, audit: bool, tag: nat, b: ByteVec)
    requires c.Valid() && ResponseOk(resp) && |b| >= 10 && EncOk(t.encSession, ss)
    ensures var r := Complete(c, t, ss, cc, resp, audit, tag, b);
            StateAfter(r).encSession == if r.Done? then NoSession else t.encSession
  {
    hide Open, XcryptAt, RpHashData;
  }

  /** An exchange that is captured, or that does not end with its response being handed over, leaves
      the session behind that was to decrypt the response. */
  lemma StepLeaves(c: Crypto, t: Tss, x: Exchange)
    requires c.Valid() && ExchangeOk(x)
    ensures var a := Armed(t, x);
            var left := EncSessionOut(a.encSession, x.sessions, x.req, x.nonces);
            match OutStep(c, a, x.sessions, x.hasDevice, x.cc, x.req, x.nonces)
            case OutThrown(_, _) => true
            case Captured(_, _, _) => Step(c, t, x).encSession == left
            case Sent(t', ss', _) =>
              && EncOk(left, ss') && HandlesFor(x.cc, t') && t'.encSession == left
              && var r := InStep(c, t', ss', x.cc, x.resp, x.response);
                 Step(c, t, x).encSession == if r.Done? then NoSession else left
  {
    hide Prepare, InStep, EncodeCommand, CpHashData, UpdateRequestHandles, FromBigEndian, StateAfter, EncSessionOut;
    var a := Armed(t, x);
    var out := OutStep(c, a, x.sessions, x.hasDevice, x.cc, x.req, x.nonces);
    if out.Captured? {
      PreparedEncSession(c, a, x.sessions, x.cc, x.req, x.nonces);
    } else if out.Sent? {
      SentHandles(c, a, x);
      SentIsPrepared(c, a, x.sessions, x.hasDevice, x.cc, x.req, x.nonces);
      PreparedEncSession(c, a, x.sessions, x.cc, x.req, x.nonces);
      EncSessionIn(c, out.tss, out.sessions, x.cc, x.resp, x.response);
    }
  }

  // ---------- a command without sessions after that ----------

  /** The session can decrypt the first parameter, and that does not change it. */
  predicate LeavesAlone(c: Crypto, s: Session, params: ByteVec, resp: Response) {
    && FirstParamFits(params, resp.sizeLen, resp.valLen) && CipherSupported(s)
    && var (key, iv) := Keys(c, TssInput(s, false), s.symmetric.keyBits);
       var data := FirstParam(params, resp.sizeLen, resp.valLen);
       c.cfbDecrypt(key, iv, data) == data
  }

  lemma XcryptLeavesAloneIff(c: Crypto, s: Session, params: ByteVec, resp: Response)
    requires c.Valid()
    ensures XcryptAt(c, s, params, 0, resp.sizeLen, resp.valLen, false) == Success(params) <==> LeavesAlone(c, s, params, resp)
  {
    hide XcryptAt, FromBigEndian, FirstParam, FirstParamFits, Keys, CipherSupported;
    XcryptAtStart(c, s, params, resp.sizeLen, resp.valLen, false);
    if FirstParamFits(params, resp.sizeLen, resp.valLen) {
      var (key, iv) := Keys(c, TssInput(s, false), s.symmetric.keyBits);
      var data := FirstParam(params, resp.sizeLen, resp.valLen);
      SplicedFirstParam(params, resp.sizeLen, resp.valLen, c.cfbDecrypt(key, iv, data), data);
    }
  }

  /** A response without sessions that reports success, down to its parameters. */
  predicate PlainSuccess(b: ByteVec, resp: Response) {
    && |b| >= 10 + 4 * resp.numHandles && Num(b, 0, 2) == TAG_NO_SESSIONS && Num(b, 2, 4) == |b| && Num(b, 6, 4) == 0
  }

  /** DispatchIn is waiting for such a response, and would not throw on success. */
  predicate AwaitsPlain(cc: nat, t: Tss) {
    && t.pending == cc != 0 && HandlesFor(cc, t) && (t.auditCommand ==> t.auditAlg != ALG_NULL)
    && !t.demandError && t.expectedError == 0 && t.sessTag == TAG_NO_SESSIONS && !t.encSession.Slot?
  }

  lemma PlainCompletes(c: Crypto, t: Tss, cc: nat, resp: Response, b: ByteVec)
    requires c.Valid() && ResponseOk(resp) && AwaitsPlain(cc, t) && PlainSuccess(b, resp)
    ensures var q, t' := 10 + 4 * resp.numHandles, Succeeded(cc, t);
            && t'.encSession == t.encSession
            && InStep(c, t, [], cc, resp, b)
               == HandOver(c, Audited(c, t', cc, t.auditCommand, b[q..]), [], resp, b, q, b[q..],
                           if resp.numHandles == 1 then Some(Num(b, 10, 4)) else None)
  {
    hide FromBigEndian, HandOver, Succeeded, CompleteUpdate;
    SucceededKeeps(cc, t);
    assert InStep(c, t, [], cc, resp, b) == Complete(c, Succeeded(cc, t), [], cc, resp, t.auditCommand, Num(b, 0, 2), b) by {
      PlainReaches(c, t, cc, resp, b);
    }
  }

  lemma PlainReaches(c: Crypto, t: Tss, cc: nat, resp: Response, b: ByteVec)
    requires c.Valid() && ResponseOk(resp) && AwaitsPlain(cc, t) && PlainSuccess(b, resp)
    ensures Succeeded(cc, t).encSession == t.encSession
    ensures InStep(c, t, [], cc, resp, b) == Complete(c, Succeeded(cc, t), [], cc, resp, t.auditCommand, Num(b, 0, 2), b)
  {
    hide FromBigEndian, Complete, CompleteUpdate;
    SucceededKeeps(cc, t);
  }

  /** A successful response without sessions is handed over as it came exactly when no session was
      left behind or the one left behind leaves its bytes alone. Otherwise the caller gets them
      decrypted, or an exception. */
  lemma HandedOverUnchangedIff(c: Crypto, t: Tss, cc: nat, resp: Response, b: ByteVec)
    requires c.Valid() && ResponseOk(resp) && AwaitsPlain(cc, t) && PlainSuccess(b, resp)
    ensures var r, params := InStep(c, t, [], cc, resp, b), b[10 + 4 * resp.numHandles..];
            && ((r.Done? && r.params == params) <==> t.encSession.NoSession? || LeavesAlone(c, t.encSession.session, params, resp))
            && (r.Done? ==> |r.params| == |params|)
            && (t.encSession.Outside? ==>
                  match XcryptAt(c, t.encSession.session, params, 0, resp.sizeLen, resp.valLen, false)
                  case Success(decrypted) => r.Done? && r.params == decrypted
                  case Failure(e) => r.InThrown? && r.error == e)
  {
    hide XcryptAt, LeavesAlone, FromBigEndian, InStep, Succeeded, RpHashData;
    var q := 10 + 4 * resp.numHandles;
    PlainCompletes(c, t, cc, resp, b);
    if t.encSession.Outside? {
      XcryptSuffix(c, t.encSession.session, b, q, resp.sizeLen, resp.valLen, false);
      XcryptLeavesAloneIff(c, t.encSession.session, b[q..], resp);
      var plain := XcryptAt(c, t.encSession.session, b, q, resp.sizeLen, resp.valLen, false);
      assert plain.Success? ==> plain.value[q..q + |b[q..]|] == plain.value[q..];
    }
  }

  /** The same for a whole dispatch, in whatever state it starts. */
  lemma SessionlessDispatch(c: Crypto, t: Tss, cc: nat, req: Request, resp: Response, b: ByteVec)
    requires c.Valid() && RequestOk(cc, req) && ResponseOk(resp) && req.numAuth == 0 && !t.encSession.Slot?
    requires !t.demandError && t.expectedError == 0 && OutStep(c, t, [], true, cc, req, []).Sent? && PlainSuccess(b, resp)
    ensures var out, params := OutStep(c, t, [], true, cc, req, []), b[10 + 4 * resp.numHandles..];
            && out.sessions == [] && HandlesFor(cc, out.tss) && EncOk(out.tss.encSession, [])
            && var r := InStep(c, out.tss, [], cc, resp, b);
               (r.Done? && r.params == params) <==> t.encSession.NoSession? || LeavesAlone(c, t.encSession.session, params, resp)
  {
    hide OutStep, InStep, LeavesAlone, FromBigEndian, XcryptAt, PlainSuccess, EncodeCommand;
    SentIsPrepared(c, t, [], true, cc, req, []);
    var out := OutStep(c, t, [], true, cc, req, []);
    HandlesForValues(cc, req, out.tss);
    HandedOverUnchangedIff(c, out.tss, cc, resp, b);
  }

  /** The plain response [5] to a command without sessions, with a session left behind whose key is not
      empty: the caller gets [0xFA]. */
  lemma PlainResponseGarbled(t: Tss, cc: nat, nonceTpm: ByteVec, nonceCaller: ByteVec)
    requires AwaitsPlain(cc, t)
    ensures
      var s := Session(Handle(0x200_0000, [], []), HMAC, 0, SymDef(true, 128), NULL_HANDLE, [], [1], nonceTpm, nonceCaller, 0x41, [],
                       false, false);
      var b := Header(TAG_NO_SESSIONS, 13, 0) + Sized([5]);
      Transparent().Valid()
      && (t.encSession == Outside(s) ==>
            var r := InStep(Transparent(), t, [], cc, Response(0, 2, 1), b);
            r.Done? && r.params == Sized([0xFA]) != b[10..])
  {
    hide XcryptAt, InStep, BigEndian, FromBigEndian, LeavesAlone;
    TransparentIsValid();
    var c := Transparent();
    var s := Session(Handle(0x200_0000, [], []), HMAC, 0, SymDef(true, 128), NULL_HANDLE, [], [1], nonceTpm, nonceCaller, 0x41, [],
                     false, false);
    var b := Header(TAG_NO_SESSIONS, 13, 0) + Sized([5]);
    SizedIsFirst([5]);
    PlainHeader(Sized([5]));
    if t.encSession == Outside(s) {
      HandedOverUnchangedIff(c, t, cc, Response(0, 2, 1), b);
      XcryptAtStart(c, s, Sized([5]), 2, 1, false);
      assert Keys(c, TssInput(s, false), 128).0 == [1];
      assert Flipped([5]) == [0xFA];
      assert Splice(Sized([5]), 2, [0xFA])[2] == 0xFA;
    }
  }

  /** The header of a successful response without sessions. */
  lemma PlainHeader(params: ByteVec)
    requires |params| < 0x1_0000
    ensures var b := Header(TAG_NO_SESSIONS, 10 + |params|, 0) + params;
            PlainSuccess(b, Response(0, 2, 1)) && b[10..] == params
  {
    hide BigEndian, FromBigEndian;
    Pow256Values();
    var h, b := Header(TAG_NO_SESSIONS, 10 + |params|, 0), Header(TAG_NO_SESSIONS, 10 + |params|, 0) + params;
    assert At(b, 0, b);
    AtSplit(b, 0, h, params);
    AtSplit(b, 0, BigEndian(TAG_NO_SESSIONS, 2), BigEndian(10 + |params|, 4) + BigEndian(0, 4));
    AtSplit(b, 2, BigEndian(10 + |params|, 4), BigEndian(0, 4));
    NumberAt(b, 0, TAG_NO_SESSIONS, 2);
    NumberAt(b, 2, 10 + |params|, 4);
    NumberAt(b, 6, 0, 4);
  }
}
