/** Small worlds in which the dispatch goes wrong: a repeated NV_ChangeAuth that the TPM refuses, and a
    response that is not decrypted. */
module SessionWitnesses {
  import opened Bytes
  import opened Sequences
  import opened CryptoModel
  import opened Wrappers
  import opened TpmBuffers
  import opened WireFormat
  import opened CommandFrames
  import opened SessionModel
  import opened DispatchSpec
  import opened HonestTpm
  import opened SessionProtocol
  import opened SessionEncryption
  import opened SessionRuns
  import opened SessionLimits

  // ---------- short commands are sent ----------

  lemma {:induction false} NamesShort(acc: ByteVec, hs: seq<Handle>)
    requires forall i | 0 <= i < |hs| :: GetName(hs[i]).Success? && |GetName(hs[i]).value| <= 100
    requires |acc| + 100 * |hs| <= CAPACITY
    ensures var r := AppendNames(acc, hs);
            r.Success? && |r.value| <= |acc| + 100 * |hs|
    decreases |hs|
  {
    hide GetName;
    if hs != [] {
      NamesShort(acc + GetName(hs[0]).value, hs[1..]);
    }
  }

  /** The handles have names, and nothing is long. */
  predicate Short(req: Request, nonce: ByteVec) {
    && req.numAuth <= 1 && |req.params| <= 1000 && |nonce| <= 64
    && forall i | 0 <= i < |req.handles| :: GetName(req.handles[i]).Success? && |GetName(req.handles[i]).value| <= 100
  }

  /** The parameters can be encrypted if the session asks for it. */
  predicate Sealable(c: Crypto, s: Session, req: Request, nonce: ByteVec)
    requires c.Valid()
  {
    s.Decrypts() ==> XcryptAt(c, s.(nonceCaller := nonce), req.params, 0, req.sizeLen, req.valLen, true).Success?
  }

  lemma OneSlot(s: Session, n: nat)
    requires n <= 1
    ensures Padded([s], n) == [s]
  {}

  lemma ShortPrepared(c: Crypto, t: Tss, s: Session, cc: nat, req: Request, nonce: ByteVec)
    requires c.Valid() && RequestOk(cc, req) && !s.IsPwap() && Short(req, nonce) && Sealable(c, s, req, nonce)
    ensures Dispatchable([s], req, [nonce]) && PwapHandles(Padded([s], req.numAuth), req.handles)
    ensures Prepare(c, t, [s], cc, req, [nonce]).Success?
  {
    hide XcryptAt, GetName, BigEndian, AppendNames, AuthEntries, LastWith, NeedsCpHash, Padded, SentParams;
    OneSlot(s, req.numAuth);
    var ss := Rolled([s], [nonce]);
    assert ss == [s.(nonceCaller := nonce)];
    ParamsSealed(c, ss[0], req);
    NamesShort(BigEndian(cc, 4), req.handles);
  }

  lemma ParamsSealed(c: Crypto, s: Session, req: Request)
    requires c.Valid() && !s.IsPwap() && |req.params| <= 1000
    requires s.Decrypts() ==> XcryptAt(c, s, req.params, 0, req.sizeLen, req.valLen, true).Success?
    ensures SentParams(c, [s], req).Success? && |SentParams(c, [s], req).value| <= 1000
  {
    hide XcryptAt;
    LastWithSlots([s], true);
  }

  lemma ShortEntry(a: AuthCommand)
    requires |a.nonce| <= 64 && |a.hmac| <= 64
    ensures |AuthArea(Some([a]))| <= 200
  {
    hide BigEndian;
    assert EncodeAuths([a]) == EncodeAuth(a) + EncodeAuths([a][1..]);
    assert |EncodeAuth(a)| == 4 + (2 + |a.nonce|) + (1 + (2 + |a.hmac|));
  }

  /** A short command over an HMAC session is sent, unless something is pending or wanted besides. */
  lemma ShortIsSent(c: Crypto, t: Tss, s: Session, cc: nat, req: Request, nonce: ByteVec)
    requires c.Valid() && RequestOk(cc, req) && !s.IsPwap() && s.sessionType == HMAC && !s.needsPassword
    requires Short(req, nonce) && Sealable(c, s, req, nonce) && t.pending == 0 && !t.auditCommand && t.cpHash.None?
    ensures Dispatchable([s], req, [nonce]) && PwapHandles(Padded([s], req.numAuth), req.handles)
    ensures OutStep(c, t, [s], true, cc, req, [nonce]).Sent?
  {
    hide Prepare, CpHashData, GetName, EncodeCommand, Sealable, BigEndian, AuthArea, SentSlots, AuthEntries, Padded, RhHandles;
    ShortPrepared(c, t, s, cc, req, nonce);
    PreparedSlots(c, t, [s], cc, req, [nonce]);
    PrepareKeeps(c, t, [s], cc, req, [nonce]);
    var p := Prepare(c, t, [s], cc, req, [nonce]).value;
    var ss := SentSlots([s], req.numAuth, [nonce]);
    var hs := RhHandles(t.admin, req.handles, |ss|);
    var data := CpHashData(cc, req.handles, p.params).value;
    OneSlot(s, req.numAuth);
    assert ss == [s.(nonceCaller := nonce)];
    ShortHmac(c, ss, hs, req.numAuth, data);
    CommandLength(p.frame);
    ParamsKept(c, t, s, cc, req, nonce);
    NothingElseWanted(c, t, p, cc, req);
  }

  lemma NothingElseWanted(c: Crypto, t: Tss, p: Prepared, cc: nat, req: Request)
    requires RequestOk(cc, req) && |EncodeCommand(p.frame)| <= CAPACITY && t.cpHash.None? && !t.auditCommand
    requires forall i | 0 <= i < |req.handles| :: GetName(req.handles[i]).Success?
    ensures SendPrepared(c, t, p, true, cc, req).Sent?
  {
    hide EncodeCommand, CpHashData, GetName;
  }

  lemma ShortHmac(c: Crypto, ss: seq<Session>, hs: seq<Handle>, numAuth: nat, data: ByteVec)
    requires c.Valid() && |ss| == 1 && !ss[0].IsPwap() && ss[0].sessionType == HMAC && !ss[0].needsPassword && |ss[0].nonceCaller| <= 64
    requires numAuth <= |hs| && PwapHandles(ss, hs)
    ensures |AuthArea(Some(AuthEntries(c, ss, hs, numAuth, data, [], [])))| <= 200
  {
    hide AuthArea, HmacAuth, HmacData;
    var entries := AuthEntries(c, ss, hs, numAuth, data, [], []);
    assert entries == [entries[0]];
    ShortEntry(entries[0]);
  }

  lemma ParamsKept(c: Crypto, t: Tss, s: Session, cc: nat, req: Request, nonce: ByteVec)
    requires c.Valid() && RequestOk(cc, req) && !s.IsPwap() && Short(req, nonce) && Dispatchable([s], req, [nonce])
    requires PwapHandles(Padded([s], req.numAuth), req.handles) && Prepare(c, t, [s], cc, req, [nonce]).Success?
    ensures |Prepare(c, t, [s], cc, req, [nonce]).value.params| == |req.params|
  {
    hide Prepare, CpHashData, AuthEntries, RhHandles, XcryptAt, Short;
    PreparedSlots(c, t, [s], cc, req, [nonce]);
  }

  // ---------- a refused retry ----------

  /** Primitives that meet what is assumed of the real ones, with an HMAC that shows the end of its key. */
  function KeyTelling(): Crypto {
    Crypto((_, _) => [0], _ => 1, (_, key, _) => [if key == [] then 0 else key[|key| - 1]], (_, _, _, _, _, _) => [],
           (_, _, data) => data, (_, _, data) => data)
  }

  lemma KeyTellingIsValid()
    ensures KeyTelling().Valid()
  {}

  /** A short command is sent, and sent again after RETRY. */
  lemma SentTwice(c: Crypto, t: Tss, s: Session, tpm: Tpm, inv: Invocation, first: ByteVec, second: ByteVec)
    requires c.Valid() && RequestOk(inv.cc, inv.req) && ResponseOk(inv.resp) && !s.IsPwap()
    requires Short(inv.req, first) && |second| <= 64 && !s.Decrypts() && t.pending == 0 && !t.auditCommand && t.cpHash.None?
    requires InSync(t, s, tpm) && RequestKnown(s, tpm, inv.names, inv.cc, inv.req)
    ensures Dispatchable([s], inv.req, [first]) && Supplied([s], inv.req.numAuth, [[first], [second]])
    ensures PwapHandles(Padded([s], inv.req.numAuth), inv.req.handles) && OutStep(c, t, [s], true, inv.cc, inv.req, [first]).Sent?
    ensures var r := Attempt(c, t, [s], tpm, inv, inv.req, [first], AskRetry);
            && r.Again? && r.tpm == tpm && SameBut(t, r.tss) && InSync(r.tss, r.sessions[0], tpm)
            && Dispatchable(r.sessions, r.req, [second]) && PwapHandles(Padded(r.sessions, r.req.numAuth), r.req.handles)
            && OutStep(c, r.tss, r.sessions, true, inv.cc, r.req, [second]).Sent?
  {
    hide OutStep, InSync, RequestKnown, RequestNamed, FirstAuthKnown, RequestOk, Padded, PwapHandles, Prepare, SameKeyed, Attempt;
    InSyncHmac(t, s, tpm);
    assert Sealable(c, s, inv.req, first);
    ShortIsSent(c, t, s, inv.cc, inv.req, first);
    AskedAgain(c, t, [s], tpm, inv, inv.req, [first]);
    var r := Attempt(c, t, [s], tpm, inv, inv.req, [first], AskRetry);
    StillShort(inv.cc, inv.req, r.req, OutStep(c, t, [s], true, inv.cc, inv.req, [first]).tss.objectInAuth, first, second);
    SentReady(c, t, [s], inv.cc, inv.req, [first]);
    assert r.sessions == [r.sessions[0]];
    KeyedHmac(s, r.sessions[0]);
    NothingPending(r.tss, r.sessions[0], tpm);
    ShortIsSent(c, r.tss, r.sessions[0], inv.cc, r.req, second);
  }

  lemma NothingPending(t: Tss, s: Session, tpm: Tpm)
    requires InSync(t, s, tpm)
    ensures t.pending == 0
  {}

  /** A dispatch whose second attempt the TPM finds unauthorized ends with the TPM's error. */
  lemma RefusedAgain(c: Crypto, t: Tss, s: Session, tpm: Tpm, inv: Invocation, first: ByteVec, second: ByteVec)
    requires c.Valid() && RequestOk(inv.cc, inv.req) && ResponseOk(inv.resp) && !s.IsPwap() && inv.choice.Succeed?
    requires Short(inv.req, first) && |second| <= 64 && !s.Decrypts() && t.pending == 0 && !t.auditCommand && t.cpHash.None?
    requires !t.allowErrors && !t.demandError && t.expectedError == 0
    requires InSync(t, s, tpm) && RequestKnown(s, tpm, inv.names, inv.cc, inv.req)
    requires Dispatchable([s], inv.req, [first]) && Supplied([s], inv.req.numAuth, [[first], [second]])
    requires var r := Attempt(c, t, [s], tpm, inv, inv.req, [first], AskRetry);
             && r.Again? && r.req.numAuth <= |r.req.handles| && Dispatchable(r.sessions, r.req, [second])
             && PwapHandles(Padded(r.sessions, r.req.numAuth), r.req.handles)
             && OutStep(c, r.tss, r.sessions, true, inv.cc, r.req, [second]).Sent?
             && !Authorizes(c, tpm, inv.names, OutStep(c, r.tss, r.sessions, true, inv.cc, r.req, [second]).tss.lastCommandBuf,
                            FormOf(r.req, inv.resp))
    ensures var d := Dispatch(c, t, [s], tpm, inv, inv.req, [[first], [second]]);
            d.rejected && d.how == Threw(TssError.TpmError(AUTH_FAIL)) && d.tpm == tpm
  {
    hide OutStep, InSync, RequestKnown, RequestOk, Padded, PwapHandles, Authorizes, BareCode, Attempt, Short, Slots;
    SentTwice(c, t, s, tpm, inv, first, second);
    var r := Attempt(c, t, [s], tpm, inv, inv.req, [first], AskRetry);
    UnauthorizedAttempt(c, r.tss, r.sessions, tpm, inv, r.req, [second]);
    assert [[first], [second]][1..] == [[second]];
  }

  predicate SessionHmac(s: Session) {
    !s.IsPwap() && s.sessionType == HMAC && !s.needsPassword
  }

  lemma InSyncHmac(t: Tss, s: Session, tpm: Tpm)
    requires InSync(t, s, tpm)
    ensures SessionHmac(s)
  {}

  lemma KeyedHmac(s: Session, s': Session)
    requires SameKeyed(s, s') && SessionHmac(s)
    ensures SessionHmac(s') && s'.Decrypts() == s.Decrypts()
  {}

  lemma StillShort(cc: nat, req: Request, req': Request, remembered: ByteVec, nonce: ByteVec, nonce': ByteVec)
    requires RequestOk(cc, req) && UpdatedAs(cc, req, remembered, req') && Short(req, nonce) && |nonce'| <= 64
    ensures Short(req', nonce') && req'.numAuth == req.numAuth
  {
    hide BigEndian;
  }

  /** An unauthorized command ends the dispatch. */
  lemma UnauthorizedAttempt(c: Crypto, t: Tss, ss: seq<Session>, tpm: Tpm, inv: Invocation, req: Request, nonces: seq<ByteVec>)
    requires c.Valid() && RequestOk(inv.cc, req) && ResponseOk(inv.resp) && Dispatchable(ss, req, nonces) && inv.choice.Succeed?
    requires InSync(t, ss[0], tpm) && !t.allowErrors && !t.demandError && t.expectedError == 0
    requires PwapHandles(Padded(ss, req.numAuth), req.handles) && OutStep(c, t, ss, true, inv.cc, req, nonces).Sent?
    requires req.numAuth <= |req.handles|
    requires !Authorizes(c, tpm, inv.names, OutStep(c, t, ss, true, inv.cc, req, nonces).tss.lastCommandBuf, FormOf(req, inv.resp))
    ensures var r := Attempt(c, t, ss, tpm, inv, req, nonces, inv.choice);
            && r.Over? && r.ended.rejected && r.ended.tpm == tpm
            && r.ended.how == Threw(TssError.TpmError(AUTH_FAIL))
  {
    hide OutStep, InStep, ErrorResponse, Prepare, InSync, RequestOk, Padded, Authorizes, SameKeyed, CarryOut, EncodeCommand, UpdatedAs;
    ShapeOf(inv.cc, req);
    SentReady(c, t, ss, inv.cc, req, nonces);
    SentInSync(c, t, ss, tpm, inv.cc, req, nonces);
    SentIsPrepared(c, t, ss, true, inv.cc, req, nonces);
    var out := OutStep(c, t, ss, true, inv.cc, req, nonces);
    ErrorHandled(c, out.tss, out.sessions, inv.cc, inv.resp, RC_AUTH_FAIL);
  }

  /** RC_AUTH_FAIL without the number of the session. */
  const AUTH_FAIL := 0x08E

  const NV_INDEX := 0x100_0001

  /** An unbound, unsalted session without encryption. */
  function NvSession(): Session {
    Session(Handle(0x200_0000, [], []), HMAC, 0, SymDef(false, 0), NULL_HANDLE, [], [], [], [], 1, [], false, false)
  }

  /** A TPM with an NV index whose auth value is [7]. */
  function NvTpm(): Tpm {
    Tpm(Hierarchies([], [], [], []), map[NV_INDEX := [7]], TpmSession(0x200_0000, 0, SymDef(false, 0), [], [], None, []))
  }

  function FreshTss(): Tss {
    Tss(false, false, false, 0, None, 0, 0, [], [], [], [], 0, ALG_NULL, [], [], Hierarchies([], [], [], []), [], [], NoSession)
  }

  /** The auth value of the index is to become [8]. */
  function NvRequest(): Request {
    Request([Handle(NV_INDEX, [7], [1])], 1, Sized([8]), 2, 1, [8], [])
  }

  /** The TPM asks for one retry. */
  function NvInvocation(): Invocation {
    Invocation(CC_NV_CHANGE_AUTH, NvRequest(), Response(0, 0, 0), Names(_ => [1]), false, false, 0, false, None, [[[1]], [[2]]],
               Succeed([3], [], None))
  }

  lemma NvWorld()
    ensures var inv := NvInvocation();
            && RequestOk(inv.cc, inv.req) && ResponseOk(inv.resp) && InSync(FreshTss(), NvSession(), NvTpm())
            && RequestKnown(NvSession(), NvTpm(), inv.names, inv.cc, inv.req) && !RetryFits(inv.cc, NvSession(), NvTpm(), inv.req)
            && Short(inv.req, [1]) && !NvSession().IsPwap() && !NvSession().Decrypts()
  {
    hide BigEndian;
    assert Trim([7]) == [7] && Trim([8]) == [8] && Trim([]) == [];
    assert GetName(NvRequest().handles[0]) == Success([1]);
  }

  /** The two keys of the second attempt. */
  lemma NvKeys(s: Session, req: Request, remembered: ByteVec)
    requires SameKeyed(NvSession(), s) && UpdatedAs(CC_NV_CHANGE_AUTH, NvRequest(), remembered, req)
    ensures req.numAuth == 1 <= |req.handles|
    ensures OwnKeyAuth(s, Hierarchies([], [], [], []), req) == [8]
    ensures KeyAuth(NvTpm(), Names(_ => [1]), HandleValues(req.handles), 1) == [7]
  {
    assert Trim([8]) == [8];
  }

  lemma NvSecondRefused()
    ensures KeyTelling().Valid()
    ensures var inv := NvInvocation();
            && RequestOk(inv.cc, inv.req) && ResponseOk(inv.resp) && Dispatchable([NvSession()], inv.req, [[1]])
            && var r := Attempt(KeyTelling(), FreshTss(), [NvSession()], NvTpm(), inv, inv.req, [[1]], AskRetry);
               && r.Again? && Dispatchable(r.sessions, r.req, [[2]]) && PwapHandles(Padded(r.sessions, r.req.numAuth), r.req.handles)
               && var out := OutStep(KeyTelling(), r.tss, r.sessions, true, inv.cc, r.req, [[2]]);
                  out.Sent? && r.req.numAuth <= |r.req.handles|
                  && !Authorizes(KeyTelling(), NvTpm(), inv.names, out.tss.lastCommandBuf, FormOf(r.req, inv.resp))
  {
    hide Dispatch, OutStep, InSync, RequestKnown, RequestNamed, FirstAuthKnown, RetryFits, Attempt, Authorizes, Short, Prepare, Padded,
      BareCode, UpdatedAs, SameKeyed, OwnKeyAuth, KeyAuth, RequestData, CpHashData, KeyTelling, SameHmacs, NvSession, NvTpm, NvRequest,
      SentFrame;
    KeyTellingIsValid();
    NvWorld();
    var c, inv := KeyTelling(), NvInvocation();
    SentTwice(c, FreshTss(), NvSession(), NvTpm(), inv, [1], [2]);
    AskedAgain(c, FreshTss(), [NvSession()], NvTpm(), inv, inv.req, [[1]]);
    RetryVerdict(c, FreshTss(), [NvSession()], NvTpm(), inv, inv.req, [[1]], [[2]]);
    var r := Attempt(c, FreshTss(), [NvSession()], NvTpm(), inv, inv.req, [[1]], AskRetry);
    NvKeys(r.sessions[0], r.req, OutStep(c, FreshTss(), [NvSession()], true, inv.cc, inv.req, [[1]]).tss.objectInAuth);
    forall data: ByteVec
      ensures !SameHmacs(c, r.sessions[0], [8], [7], data)
    {
      KeysTold(r.sessions[0], data);
    }
  }

  lemma KeysTold(s: Session, data: ByteVec)
    ensures !SameHmacs(KeyTelling(), s, [8], [7], data)
  {}

  /** NV_ChangeAuth under RETRY: the second attempt proves the new auth value [8], the TPM still has [7]
      and refuses it, and the caller gets an exception. */
  lemma NvRetryRefused()
    ensures KeyTelling().Valid()
    ensures var inv := NvInvocation();
            && RequestOk(inv.cc, inv.req) && ResponseOk(inv.resp) && Supplied([NvSession()], 1, inv.nonces)
            && var d := Dispatch(KeyTelling(), FreshTss(), [NvSession()], NvTpm(), inv, inv.req, inv.nonces);
               d.rejected && d.how == Threw(TssError.TpmError(AUTH_FAIL)) && d.tpm == NvTpm()
  {
    hide Dispatch, OutStep, InSync, RequestKnown, Attempt, Authorizes, Short, Prepare, Padded, BareCode, KeyTelling, RetryFits,
      NvSession, NvTpm, NvRequest;
    KeyTellingIsValid();
    NvWorld();
    NvSecondRefused();
    RefusedAgain(KeyTelling(), FreshTss(), NvSession(), NvTpm(), NvInvocation(), [1], [2]);
  }

  /** The session bound to the index. */
  function BoundSession(): Session {
    NvSession().(bindObject := Handle(NV_INDEX, [7], [1]))
  }

  function BoundTpm(): Tpm {
    NvTpm().(session := NvTpm().session.(bindName := Some([1]), bindAuth := [7]))
  }

  /** The auth value of the index is to be emptied. */
  function BoundInvocation(): Invocation {
    NvInvocation().(req := Request([Handle(NV_INDEX, [7], [1])], 1, Sized([]), 2, 1, [], []))
  }

  lemma BoundWorld()
    ensures var inv := BoundInvocation();
            && RequestOk(inv.cc, inv.req) && ResponseOk(inv.resp) && InSync(FreshTss(), BoundSession(), BoundTpm())
            && RequestKnown(BoundSession(), BoundTpm(), inv.names, inv.cc, inv.req)
            && RetryFits(inv.cc, BoundSession(), BoundTpm(), inv.req)
            && Trim(inv.req.newAuth) != EntityAuth(BoundTpm(), inv.req.handles[0].value)
            && ChoiceOk(BoundSession(), BoundTpm(), FreshTss().admin, inv, inv.req)
            && Supplied([BoundSession()], 1, inv.nonces) && SameRequest(inv.req, inv.req) && Short(inv.req, [1])
  {
    hide BigEndian;
    assert Trim([7]) == [7] && Trim([]) == [];
    assert GetName(BoundInvocation().req.handles[0]) == Success([1]);
  }

  /** With a session bound to the index the retry is no problem, although its handle has the new auth
      value: neither side uses it. */
  lemma BoundRetryAccepted(c: Crypto)
    requires c.Valid()
    ensures var inv := BoundInvocation();
            && RequestOk(inv.cc, inv.req) && ResponseOk(inv.resp) && Supplied([BoundSession()], 1, inv.nonces)
            && var d := Dispatch(c, FreshTss(), [BoundSession()], BoundTpm(), inv, inv.req, inv.nonces);
               !d.rejected && d.how == Completed(None, [], Some(inv.req.params))
  {
    hide Dispatch, InSync, RequestKnown, ChoiceOk, RetryFits, AttemptsInStep, SameKeyed, RolledTpm, Short;
    BoundWorld();
    var inv := BoundInvocation();
    DispatchInSync(c, FreshTss(), [BoundSession()], BoundTpm(), inv, inv.req, inv.nonces);
    BoundRetrySent(c);
  }

  lemma BoundRetrySent(c: Crypto)
    requires c.Valid()
    ensures var inv := BoundInvocation();
            && RequestOk(inv.cc, inv.req) && ResponseOk(inv.resp) && Supplied([BoundSession()], 1, inv.nonces)
            && !Dispatch(c, FreshTss(), [BoundSession()], BoundTpm(), inv, inv.req, inv.nonces).how.NotSent?
  {
    hide Dispatch, InSync, RequestKnown, ChoiceOk, RetryFits, Short, Attempt, OutStep, Padded, BoundTpm;
    BoundWorld();
    var inv := BoundInvocation();
    SentTwice(c, FreshTss(), BoundSession(), BoundTpm(), inv, [1], [2]);
    SecondSent(c, FreshTss(), BoundSession(), BoundTpm(), inv, [1], [2]);
  }

  lemma SecondSent(c: Crypto, t: Tss, s: Session, tpm: Tpm, inv: Invocation, first: ByteVec, second: ByteVec)
    requires c.Valid() && RequestOk(inv.cc, inv.req) && ResponseOk(inv.resp) && Dispatchable([s], inv.req, [first])
    requires Supplied([s], inv.req.numAuth, [[first], [second]])
    requires var r := Attempt(c, t, [s], tpm, inv, inv.req, [first], AskRetry);
             && r.Again? && Dispatchable(r.sessions, r.req, [second])
             && PwapHandles(Padded(r.sessions, r.req.numAuth), r.req.handles)
             && OutStep(c, r.tss, r.sessions, true, inv.cc, r.req, [second]).Sent?
    ensures !Dispatch(c, t, [s], tpm, inv, inv.req, [[first], [second]]).how.NotSent?
  {
    hide OutStep, InStep, RequestOk, Padded, PwapHandles, Respond, Slots, Attempt;
    var r := Attempt(c, t, [s], tpm, inv, inv.req, [first], AskRetry);
    SentNotUnsent(c, r.tss, r.sessions, r.tpm, inv, r.req, [second]);
    assert [[first], [second]][1..] == [[second]];
  }

  lemma SentNotUnsent(c: Crypto, t: Tss, ss: seq<Session>, tpm: Tpm, inv: Invocation, req: Request, nonces: seq<ByteVec>)
    requires c.Valid() && RequestOk(inv.cc, req) && ResponseOk(inv.resp) && Dispatchable(ss, req, nonces)
    requires PwapHandles(Padded(ss, req.numAuth), req.handles) && OutStep(c, t, ss, true, inv.cc, req, nonces).Sent?
    ensures var r := Attempt(c, t, ss, tpm, inv, req, nonces, inv.choice);
            r.Over? ==> !r.ended.how.NotSent?
  {
    hide OutStep, InStep, Padded, PwapHandles, Respond;
    ShapeOf(inv.cc, req);
    SentReady(c, t, ss, inv.cc, req, nonces);
  }

  // ---------- a response that is not decrypted ----------

  /** An unbound session with a key that decrypts requests and encrypts responses. */
  function BothSession(): Session {
    Session(Handle(0x200_0000, [], []), HMAC, 0, SymDef(true, 128), NULL_HANDLE, [], [1], [], [], 0x61, [], false, false)
  }

  function BothTpm(): Tpm {
    Tpm(Hierarchies([], [], [], []), map[], TpmSession(0x200_0000, 0, SymDef(true, 128), [1], [], None, []))
  }

  const CC_HASH := 0x17D

  /** TPM2_Hash of [9]; the TPM's digest is [5]. */
  function HashRequest(): Request {
    Request([], 0, Sized([9]) + [0, 0x0B, 0x40, 0, 0, 7], 2, 1, [], [])
  }

  function HashChoice(): Choice {
    Succeed([3], Sized([5]), None)
  }

  lemma HashWorld(names: Names)
    ensures Transparent().Valid() && RequestOk(CC_HASH, HashRequest()) && ResponseOk(Response(0, 2, 1))
    ensures InSync(FreshTss(), BothSession(), BothTpm()) && RequestKnown(BothSession(), BothTpm(), names, CC_HASH, HashRequest())
    ensures Short(HashRequest(), [2]) && Sealable(Transparent(), BothSession(), HashRequest(), [2])
    ensures SuccessOk(BothSession(), BothTpm(), FreshTss().admin, CC_HASH, HashRequest(), Response(0, 2, 1), HashChoice())
  {
    hide BigEndian, FromBigEndian, XcryptAt;
    TransparentIsValid();
    assert Trim([]) == [];
    SizedIsFirst([5]);
    SizedIsFirst([9]);
    var params := HashRequest().params;
    assert params[..2] == Sized([9])[..2];
    assert FirstParamFits(params, 2, 1);
    XcryptAtStart(Transparent(), BothSession().(nonceCaller := [2]), params, 2, 1, true);
  }

  /** The cipher changes the digest. */
  lemma DigestFlips(nonceTpm: ByteVec, nonceCaller: ByteVec)
    ensures var tpm := BothTpm().(session := BothTpm().session.(nonceTpm := nonceTpm));
            !EncryptionIdle(Transparent(), tpm, [], 0, Sized([5]), Response(0, 2, 1), nonceCaller)
  {
    hide BigEndian, FromBigEndian;
    SizedIsFirst([5]);
    assert [1] + [] == [1];
    assert Flipped([5]) == [0xFA];
  }

  /** The caller gets other bytes than the TPM put into the response. */
  lemma ResponseNotDecrypted(names: Names)
    ensures var c, req, resp := Transparent(), HashRequest(), Response(0, 2, 1);
            && c.Valid() && RequestOk(CC_HASH, req) && ResponseOk(resp) && Dispatchable([BothSession()], req, [[2]])
            && PwapHandles(Padded([BothSession()], 0), [])
            && var out := OutStep(c, FreshTss(), [BothSession()], true, CC_HASH, req, [[2]]);
               && out.Sent? && HandlesFor(CC_HASH, out.tss) && EncOk(out.tss.encSession, out.sessions)
               && var a := Respond(c, BothTpm(), names, out.tss.lastCommandBuf, FormOf(req, resp), HashChoice());
                  var r := InStep(c, out.tss, out.sessions, CC_HASH, resp, a.bytes);
                  !a.authFailed && r.Done? && r.params != HashChoice().params
  {
    hide OutStep, InStep, Respond, InSync, RequestKnown, SuccessOk, Short, Sealable, EncryptionIdle, Padded, Prepare, Transparent,
      Sized, RolledTpm, TpmXcrypt, SessionValue, SameKeyed, ReadsRequest, ReadsResponse;
    HashWorld(names);
    var c, req, resp := Transparent(), HashRequest(), Response(0, 2, 1);
    ShortIsSent(c, FreshTss(), BothSession(), CC_HASH, req, [2]);
    SentReady(c, FreshTss(), [BothSession()], CC_HASH, req, [[2]]);
    SuccessInSync(c, FreshTss(), [BothSession()], BothTpm(), names, CC_HASH, req, resp, [[2]], HashChoice());
    BothDirectionsDelivered(c, FreshTss(), [BothSession()], BothTpm(), names, CC_HASH, req, resp, [[2]], HashChoice());
    HashRolled();
    DigestFlips([3], [2]);
  }

  lemma HashRolled()
    ensures RolledTpm(BothTpm(), CC_HASH, HandleValues(HashRequest().handles), [], [3])
         == BothTpm().(session := BothTpm().session.(nonceTpm := [3]))
    ensures HandleValues(HashRequest().handles) == []
  {}
}
