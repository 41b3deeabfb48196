/** Whole runs of dispatches over one HMAC session against the honest TPM. */
module SessionRuns {
  import opened Bytes
  import opened Sequences
  import opened CryptoModel
  import opened Wrappers
  import opened TpmBuffers
  import opened WireFormat
  import opened CommandFrames
  import opened SessionModel
  import opened DispatchSpec
  import opened HonestTpm
  import opened SessionProtocol
  import opened SessionEncryption
  import opened ResponseCodes

  /** One call of Tpm2::Dispatch with the flags set for it, the random bytes of each attempt, and
      what the TPM does. The TPM asks for a retry on every attempt but the last. */
  datatype Invocation = Invocation(
    cc: nat, req: Request, resp: Response, names: Names,
    allowErrors: bool, demandError: bool, expectedError: nat, audit: bool, cpHash: Option<nat>,
    nonces: seq<seq<ByteVec>>, choice: Choice)

  datatype World = World(tss: Tss, session: Session, tpm: Tpm)

  /** A dispatch that completes hands over handle and parameters; `seen` are the command parameters
      that the TPM acted on. A command can be left with the TPM when DispatchOut throws late. */
  datatype How =
    | NotSent(error: TssError)
    | Stranded(error: TssError)
    | HashTaken(digest: ByteVec)
    | Waiting
    | Completed(outHandle: Option<nat>, params: ByteVec, seen: Option<ByteVec>)
    | Reported(rc: nat)
    | Threw(error: TssError)

  /** How a dispatch ended, the state after it, and whether the TPM found an authorization invalid in
      any of its attempts. */
  datatype Ended = Ended(how: How, tss: Tss, sessions: seq<Session>, tpm: Tpm, rejected: bool)

  /** There are random bytes for every session of every attempt. */
  predicate Supplied(ss: seq<Session>, numAuth: nat, nonces: seq<seq<ByteVec>>) {
    var n := if numAuth > 1 then numAuth else 1;
    Slots(ss) && |ss| <= n && nonces != [] && forall i | 0 <= i < |nonces| :: |nonces[i]| >= n
  }

  /** What DispatchOut leaves behind is what DispatchIn and a second attempt need. */
  lemma SentReady(c: Crypto, t: Tss, ss: seq<Session>, cc: nat, req: Request, nonces: seq<ByteVec>)
    requires c.Valid() && RequestOk(cc, req) && Dispatchable(ss, req, nonces)
    ensures PwapHandles(Padded(ss, req.numAuth), req.handles)
    ensures var out := OutStep(c, t, ss, true, cc, req, nonces);
            out.Sent? ==>
              && RequestOk(cc, out.req) && out.req.numAuth == req.numAuth
              && Slots(out.sessions) && |out.sessions| <= (if req.numAuth > 1 then req.numAuth else 1)
              && HandlesFor(cc, out.tss) && |out.tss.inHandles| == |req.handles|
              && EncOk(out.tss.encSession, out.sessions)
    ensures var out := OutStep(c, t, ss, true, cc, req, nonces);
            out.Captured? ==> Slots(out.sessions)
  {
    hide Prepare, CpHashData, AuthEntries, EncodeCommand, GetName, BigEndian, SentSlots, UpdateRequestHandles;
    PreparedSlots(c, t, ss, cc, req, nonces);
    if OutStep(c, t, ss, true, cc, req, nonces).Sent? {
      SentIsPrepared(c, t, ss, true, cc, req, nonces);
    }
  }

  /** One DispatchOut and DispatchIn: the dispatch is over, or the TPM wants a retry. */
  datatype Attempted =
    | Over(ended: Ended)
    | Again(tss: Tss, sessions: seq<Session>, tpm: Tpm, req: Request, rejected: bool)

  function Attempt(c: Crypto, t: Tss, ss: seq<Session>, tpm: Tpm, inv: Invocation, req: Request, nonces: seq<ByteVec>,
                   choice: Choice): (r: Attempted)
    requires c.Valid() && RequestOk(inv.cc, req) && ResponseOk(inv.resp) && Dispatchable(ss, req, nonces)
    ensures r.Over? ==> |r.ended.sessions| >= 1
    ensures r.Again? ==> RequestOk(inv.cc, r.req) && r.req.numAuth == req.numAuth && Slots(r.sessions)
                         && |r.sessions| <= (if req.numAuth > 1 then req.numAuth else 1)
  {
    SentReady(c, t, ss, inv.cc, req, nonces);
    var form := FormOf(req, inv.resp);
    match OutStep(c, t, ss, true, inv.cc, req, nonces)
    case OutThrown(e, None) => Over(Ended(NotSent(e), t, ss, tpm, false))
    case OutThrown(e, Some(bytes)) =>
      var a := Respond(c, tpm, inv.names, bytes, form, choice);
      Over(Ended(Stranded(e), t, ss, a.tpm, a.authFailed))
    case Captured(digest, t', ss') => Over(Ended(HashTaken(digest), t', ss', tpm, false))
    case Sent(t1, ss1, req1) =>
      var a := Respond(c, tpm, inv.names, t1.lastCommandBuf, form, choice);
      match InStep(c, t1, ss1, inv.cc, inv.resp, a.bytes)
      case Retry(t2) => Again(t2, ss1, a.tpm, req1, a.authFailed)
      case InThrown(e, t2, _) => Over(Ended(Threw(e), t2, ss1, a.tpm, a.authFailed))
      case Failed(t2) => Over(Ended(Reported(t2.lastResponseCode), t2, ss1, a.tpm, a.authFailed))
      case Done(t2, ss2, outHandle, params) => Over(Ended(Completed(outHandle, params, a.seen), t2, ss2, a.tpm, a.authFailed))
  }

  /** Tpm2::Dispatch against the TPM, from the attempt with the first of the remaining nonces on. */
  function Dispatch(c: Crypto, t: Tss, ss: seq<Session>, tpm: Tpm, inv: Invocation, req: Request,
                    nonces: seq<seq<ByteVec>>): (r: Ended)
    requires c.Valid() && RequestOk(inv.cc, req) && ResponseOk(inv.resp) && Supplied(ss, req.numAuth, nonces)
    ensures |r.sessions| >= 1
    decreases |nonces|
  {
    match Attempt(c, t, ss, tpm, inv, req, nonces[0], if |nonces| > 1 then AskRetry else inv.choice)
    case Over(ended) => ended
    case Again(t', ss', tpm', req', rejected) =>
      if |nonces| > 1 then
        var rest := Dispatch(c, t', ss', tpm', inv, req', nonces[1..]);
        rest.(rejected := rest.rejected || rejected)
      else Ended(Waiting, t', ss', tpm', rejected)
  }

  /** Before each attempt of the dispatch both sides are in step. */
  predicate AttemptsInStep(c: Crypto, t: Tss, ss: seq<Session>, tpm: Tpm, inv: Invocation, req: Request,
                           nonces: seq<seq<ByteVec>>)
    requires c.Valid() && RequestOk(inv.cc, req) && ResponseOk(inv.resp) && Supplied(ss, req.numAuth, nonces)
    decreases |nonces|
  {
    InSync(t, ss[0], tpm)
    && match Attempt(c, t, ss, tpm, inv, req, nonces[0], if |nonces| > 1 then AskRetry else inv.choice)
       case Over(_) => true
       case Again(t', ss', tpm', req', _) =>
         |nonces| > 1 ==> AttemptsInStep(c, t', ss', tpm', inv, req', nonces[1..])
  }

  /** The TSS with the flags of an invocation. */
  function Armed(t: Tss, inv: Invocation): Tss {
    t.(allowErrors := inv.allowErrors, demandError := inv.demandError, expectedError := inv.expectedError,
       auditCommand := inv.audit, cpHash := inv.cpHash)
  }

  // ---------- one attempt ----------

  /** DispatchIn on an error response: RETRY leaves everything for the next attempt, any other code
      is reported or thrown, and only invocation state changes. */
  lemma ErrorHandled(c: Crypto, t: Tss, ss: seq<Session>, cc: nat, resp: Response, rc: nat)
    requires c.Valid() && ResponseOk(resp) && t.pending == cc != 0 && HandlesFor(cc, t)
    requires EncOk(t.encSession, ss)
    requires (t.auditCommand ==> t.auditAlg != ALG_NULL) && 0 < rc < 0x1_0000_0000 && BareCode(rc) != 0
    ensures var t' := ClearInvocation(t.(pending := 0, lastResponseCode := BareCode(rc)));
            InStep(c, t, ss, cc, resp, ErrorResponse(rc)) == (
              if rc == RC_RETRY then Retry(t.(pending := 0))
              else if ThrowsOn(t, rc) then InThrown(TssError.TpmError(BareCode(rc)), t', true)
              else Failed(t'))
  {
    hide BigEndian, FromBigEndian, Complete, BareCode;
    Pow256Values();
    var b := ErrorResponse(rc);
    assert At(b, 0, b);
    AtSplit(b, 0, BigEndian(TAG_NO_SESSIONS, 2), BigEndian(10, 4) + BigEndian(rc, 4));
    AtSplit(b, 2, BigEndian(10, 4), BigEndian(rc, 4));
    NumberAt(b, 2, 10, 4);
    NumberAt(b, 6, rc, 4);
  }

  // ---------- what the theorem is about ----------

  predicate DecryptsResponse(s: Session) {
    s.Encrypts() && !s.Decrypts()
  }

  /** The TPM succeeds with a response that the framing can carry, for which both sides use the same
      HMAC key, and whose first parameter can be encrypted if it has to be; and it reads the new auth
      value that the command carries. */
  predicate SuccessOk(s: Session, tpm: Tpm, admin: Hierarchies, cc: nat, req: Request, resp: Response, choice: Choice)
    requires choice.Succeed? && req.numAuth <= |req.handles|
  {
    && |choice.nonceTpm| <= 64 && |choice.params| < 0x1_0000
    && (choice.outHandle.Some? <==> resp.numHandles == 1)
    && (choice.outHandle.Some? ==> choice.outHandle.value < 0x1_0000_0000)
    && Encryptable(s, resp, choice) && (DecryptsResponse(s) ==> CipherSupported(s))
    && (ChangesAuth(cc) && s.Decrypts() ==> XcryptFits(s, tpm, HandleValues(req.handles), req.numAuth))
    && ResponseKeyFits(cc, s, tpm, RhHandles(admin, req.handles, 1), req.numAuth, req.newAuth)
  }

  /** The TPM can encrypt the response parameters if the session asks for it. */
  predicate Encryptable(s: Session, resp: Response, choice: Choice)
    requires choice.Succeed?
  {
    s.Encrypts() ==> s.symmetric.isAesCfb && FirstParamFits(choice.params, resp.sizeLen, resp.valLen)
  }

  predicate RefusalOk(error: ErrorCode) {
    error.Valid() && error.Code() != RC_RETRY && error.Number() != 0
  }

  /** The request is one the TPM's entities and the caller's handles agree on, whatever the auth value
      that the session is to prove. */
  predicate RequestNamed(s: Session, tpm: Tpm, names: Names, cc: nat, req: Request)
    requires RequestOk(cc, req)
  {
    NamesAgree(names, s, tpm, req.handles) && PasswordsKnown(tpm, req) && Sensible(cc, req.handles, tpm)
  }

  /** And that auth value is known, or not needed. */
  predicate RequestKnown(s: Session, tpm: Tpm, names: Names, cc: nat, req: Request)
    requires RequestOk(cc, req)
  {
    RequestNamed(s, tpm, names, cc, req) && FirstAuthKnown(s, tpm, req)
  }

  /** What the TPM may do with the command, given the flags the caller set. */
  predicate ChoiceOk(s: Session, tpm: Tpm, admin: Hierarchies, inv: Invocation, req: Request)
    requires RequestOk(inv.cc, req)
  {
    && !inv.choice.AskRetry?
    && (inv.choice.Refuse? ==> RefusalOk(inv.choice.error))
    && (inv.choice.Succeed? ==>
          !inv.demandError && inv.expectedError == 0
          && SuccessOk(s, tpm, admin, inv.cc, req, inv.resp, inv.choice))
  }

  // ---------- the state after DispatchOut ----------

  /** The same session but for what a dispatch rolls or records in it. */
  predicate SameKeyed(s: Session, s': Session) {
    && s'.handle == s.handle && s'.sessionType == s.sessionType && s'.hashAlg == s.hashAlg
    && s'.symmetric == s.symmetric && s'.bindObject == s.bindObject && s'.sessionKey == s.sessionKey
    && s'.needsHmac == s.needsHmac && s'.needsPassword == s.needsPassword && s'.attributes == s.attributes
  }

  /** DispatchOut disturbs nothing that the two sides agree on. */
  lemma SentInSync(c: Crypto, t: Tss, ss: seq<Session>, tpm: Tpm, cc: nat, req: Request, nonces: seq<ByteVec>)
    requires c.Valid() && RequestOk(cc, req) && Dispatchable(ss, req, nonces) && InSync(t, ss[0], tpm)
    requires PwapHandles(Padded(ss, req.numAuth), req.handles)
    requires OutStep(c, t, ss, true, cc, req, nonces).Sent?
    ensures var out := OutStep(c, t, ss, true, cc, req, nonces);
            && |out.sessions| >= 1
            && out.sessions[0].nonceTpm == ss[0].nonceTpm && out.sessions[0].nonceCaller == nonces[0]
            && SameKeyed(ss[0], out.sessions[0])
            && SameBut(t, out.tss) && out.tss.pending == cc
            && InSync(out.tss.(pending := 0), out.sessions[0], tpm)
  {
    hide Prepare, CpHashData, AuthEntries, EncodeCommand, GetName, BigEndian, UpdateRequestHandles, Trim, EntityAuth,
      OutStep, UpdatedAs;
    PreparedSlots(c, t, ss, cc, req, nonces);
    SentIsPrepared(c, t, ss, true, cc, req, nonces);
  }

  /** The auth value that UpdateRequestHandles writes into the request does no harm to the next
      attempt: it is that of a hierarchy, which the TSS fills in again, the session is bound to the
      entity and does not use it, or it is what it was. */
  predicate RetryFits(cc: nat, s: Session, tpm: Tpm, req: Request)
    requires RequestOk(cc, req)
  {
    cc == CC_NV_CHANGE_AUTH ==>
      req.handles[0].value == s.bindObject.value || Trim(req.newAuth) == EntityAuth(tpm, req.handles[0].value)
  }

  /** The request that is sent again after RETRY. */
  lemma RetryNamed(names: Names, s: Session, s': Session, tpm: Tpm, cc: nat, req: Request, req': Request, remembered: ByteVec)
    requires RequestOk(cc, req) && RequestKnown(s, tpm, names, cc, req) && s'.bindObject == s.bindObject
    requires UpdatedAs(cc, req, remembered, req')
    ensures RequestOk(cc, req') && RequestNamed(s', tpm, names, cc, req')
    ensures FirstAuthKnown(s', tpm, req') <==> RetryFits(cc, s, tpm, req)
    ensures RetryFits(cc, s', tpm, req') <==> RetryFits(cc, s, tpm, req)
  {
    hide GetName, Trim, EntityAuth, NamesAgree;
    if cc == CC_HIERARCHY_CHANGE_AUTH || cc == CC_NV_CHANGE_AUTH || cc == CC_CLEAR {
      NamesAgreeKept(names, s, s', tpm, req.handles, req'.handles);
    } else {
      NamesAgreeKept(names, s, s', tpm, req.handles, req.handles);
    }
  }

  lemma NamesAgreeKept(names: Names, s: Session, s': Session, tpm: Tpm, hs: seq<Handle>, hs': seq<Handle>)
    requires NamesAgree(names, s, tpm, hs) && s'.bindObject == s.bindObject
    requires |hs'| == |hs| && forall i | 0 <= i < |hs| :: hs'[i].value == hs[i].value && hs'[i].name == hs[i].name
    ensures NamesAgree(names, s', tpm, hs')
  {
    hide GetName;
    NamesKept(names, hs, hs');
  }

  // ---------- success ----------

  /** The command that DispatchOut sends. */
  function SentFrame(c: Crypto, t: Tss, ss: seq<Session>, cc: nat, req: Request, nonces: seq<ByteVec>): (f: Frame)
    requires c.Valid() && RequestOk(cc, req) && Dispatchable(ss, req, nonces)
    requires PwapHandles(Padded(ss, req.numAuth), req.handles) && Prepare(c, t, ss, cc, req, nonces).Success?
  {
    Prepare(c, t, ss, cc, req, nonces).value.frame
  }

  /** What the TPM sees in a command it has to authorize. */
  lemma SentFrameShape(c: Crypto, t: Tss, ss: seq<Session>, tpm: Tpm, cc: nat, req: Request, nonces: seq<ByteVec>)
    requires c.Valid() && RequestOk(cc, req) && Dispatchable(ss, req, nonces) && SameSession(ss[0], tpm)
    requires PwapHandles(Padded(ss, req.numAuth), req.handles) && Prepare(c, t, ss, cc, req, nonces).Success?
    ensures var f := SentFrame(c, t, ss, cc, req, nonces);
            && f.cc == cc && f.handles == HandleValues(req.handles)
            && f.auths.Some? && |f.auths.value| == |Padded(ss, req.numAuth)| >= 1
            && f.auths.value[0].nonce == nonces[0] && f.auths.value[0].attributes == ss[0].attributes
  {
    hide Prepare, CpHashData, EncodeCommand, RhHandles, GetAuthHmac, SentSlots;
    PreparedSlots(c, t, ss, cc, req, nonces);
  }

  /** The TPM finds a sent command authorized exactly if the HMACs over the same data under the key of
      the TSS and under its own are equal, and those keys are the same exactly if the auth value of the
      first handle is known or not needed. */
  lemma SentVerdict(c: Crypto, t: Tss, ss: seq<Session>, tpm: Tpm, names: Names, cc: nat, req: Request, resp: Response,
                    nonces: seq<ByteVec>)
    requires c.Valid() && RequestOk(cc, req) && Dispatchable(ss, req, nonces) && InSync(t, ss[0], tpm)
    requires RequestNamed(ss[0], tpm, names, cc, req)
    requires PwapHandles(Padded(ss, req.numAuth), req.handles)
    requires OutStep(c, t, ss, true, cc, req, nonces).Sent?
    ensures Prepare(c, t, ss, cc, req, nonces).Success?
    ensures var f, bytes := SentFrame(c, t, ss, cc, req, nonces), OutStep(c, t, ss, true, cc, req, nonces).tss.lastCommandBuf;
            var own, theirs := OwnKeyAuth(ss[0], t.admin, req), KeyAuth(tpm, names, HandleValues(req.handles), req.numAuth);
            var data := CpHashData(cc, req.handles, f.params);
            && ParseCommand(bytes, |req.handles|) == Some(f) && data.Success?
            && (own == theirs <==> FirstAuthKnown(ss[0], tpm, req))
            && (Authorizes(c, tpm, names, bytes, FormOf(req, resp)) <==>
                  SameHmacs(c, ss[0], own, theirs, RequestData(c, ss[0], data.value, nonces[0])))
  {
    hide Prepare, EncodeCommand, ParseCommand, OutStep, ChecksOut, FrameFits, Padded, SameSession, BindHolds, NamesAgree, PasswordsKnown,
      Sensible, UpdatedAs, OwnKeyAuth, KeyAuth, RequestData, CpHashData, FirstAuthKnown;
    SentIsPrepared(c, t, ss, true, cc, req, nonces);
    SentFrameShape(c, t, ss, tpm, cc, req, nonces);
    SentFrameFits(c, t, ss, tpm, cc, req, nonces);
    PreparedSlots(c, t, ss, cc, req, nonces);
    CommandVerdict(c, t, ss, tpm, names, cc, req, nonces);
    RequestKeysAgreeIff(t, ss[0], tpm, names, req);
    ParseOfEncode(SentFrame(c, t, ss, cc, req, nonces));
  }

  /** The HMACs under the session key followed by one or the other auth value. */
  predicate SameHmacs(c: Crypto, s: Session, own: ByteVec, theirs: ByteVec, data: ByteVec) {
    c.hmac(s.hashAlg, s.sessionKey + own, data) == c.hmac(s.hashAlg, s.sessionKey + theirs, data)
  }

  /** Whatever the TPM then decides, it finds the command authorized if the auth values are known. */
  lemma SentAuthorized(c: Crypto, t: Tss, ss: seq<Session>, tpm: Tpm, names: Names, cc: nat, req: Request, resp: Response,
                       nonces: seq<ByteVec>)
    requires c.Valid() && RequestOk(cc, req) && Dispatchable(ss, req, nonces) && InSync(t, ss[0], tpm)
    requires RequestKnown(ss[0], tpm, names, cc, req)
    requires PwapHandles(Padded(ss, req.numAuth), req.handles)
    requires OutStep(c, t, ss, true, cc, req, nonces).Sent?
    ensures Prepare(c, t, ss, cc, req, nonces).Success?
    ensures var bytes := OutStep(c, t, ss, true, cc, req, nonces).tss.lastCommandBuf;
            && Authorizes(c, tpm, names, bytes, FormOf(req, resp))
            && ParseCommand(bytes, |req.handles|) == Some(SentFrame(c, t, ss, cc, req, nonces))
  {
    hide Prepare, ParseCommand, OutStep, Padded, InSync, RequestNamed, OwnKeyAuth, KeyAuth, RequestData, CpHashData, FirstAuthKnown,
      Authorizes;
    SentVerdict(c, t, ss, tpm, names, cc, req, resp, nonces);
  }

  /** What the TPM reads in the command: the request's parameters and new auth value if the session does
      not encrypt them, or if both sides have the same key. */
  lemma SeenInCommand(c: Crypto, t: Tss, ss: seq<Session>, tpm: Tpm, cc: nat, req: Request, resp: Response, nonces: seq<ByteVec>)
    requires c.Valid() && RequestOk(cc, req) && Dispatchable(ss, req, nonces) && SameSession(ss[0], tpm)
    requires PwapHandles(Padded(ss, req.numAuth), req.handles) && Prepare(c, t, ss, cc, req, nonces).Success?
    requires |req.params| <= CAPACITY
    ensures var f := SentFrame(c, t, ss, cc, req, nonces);
            && f.auths.Some? && |f.auths.value| >= 1 && req.numAuth <= |f.handles|
            && var seen := Seen(c, tpm, f, FormOf(req, resp));
               && seen.Some? && ReadNewAuth(cc, seen.value).Some?
               && (ReadsRequest(ss[0], tpm, req) ==>
                     seen == Some(req.params) && (ChangesAuth(cc) ==> ReadNewAuth(cc, seen.value) == Some(req.newAuth)))
  {
    hide Prepare, CpHashData, AuthEntries, EncodeCommand, RhHandles, SentSlots, XcryptAt, TpmXcrypt, SessionValue, FirstParam, FirstParamFits,
      XcryptFits, Padded, BigEndian, FromBigEndian;
    SentFrameShape(c, t, ss, tpm, cc, req, nonces);
    PreparedSlots(c, t, ss, cc, req, nonces);
    var s := SentSlots(ss, req.numAuth, nonces)[0];
    assert SameSession(s, tpm);
    if ss[0].Decrypts() {
      RequestRecovered(c, s, tpm, HandleValues(req.handles), req.numAuth, req.params, req.sizeLen, req.valLen);
      FitsIgnoresNonce(ss[0], s, tpm, HandleValues(req.handles), req.numAuth);
    }
    if ChangesAuth(cc) {
      SizedIsFirst(req.newAuth);
      var seen := Seen(c, tpm, SentFrame(c, t, ss, cc, req, nonces), FormOf(req, resp)).value;
      if ss[0].Decrypts() {
        var data: ByteVec :| |data| == |FirstParam(req.params, 2, 1)| && seen == Splice(req.params, 2, data);
        SplicedSized(req.newAuth, data);
        SizedIsFirst(data);
      }
    }
  }

  lemma FitsIgnoresNonce(s: Session, s': Session, tpm: Tpm, handles: seq<nat>, numAuth: nat)
    requires numAuth <= |handles| && s'.symmetric == s.symmetric
    ensures XcryptFits(s', tpm, handles, numAuth) == XcryptFits(s, tpm, handles, numAuth)
  {}

  lemma SplicedSized(x: ByteVec, y: ByteVec)
    requires |y| == |x|
    ensures Splice(Sized(x), 2, y) == Sized(y)
  {
    hide BigEndian;
  }

  /** The TPM can read the request: it is not encrypted, or both sides have the same key. */
  predicate ReadsRequest(s: Session, tpm: Tpm, req: Request)
    requires req.numAuth <= |req.handles|
  {
    s.Decrypts() ==> XcryptFits(s, tpm, HandleValues(req.handles), req.numAuth)
  }

  /** The TPM authorizes the command and answers with success. */
  lemma HonestAnswer(c: Crypto, t: Tss, ss: seq<Session>, tpm: Tpm, names: Names, cc: nat, req: Request, resp: Response,
                     nonces: seq<ByteVec>, choice: Choice)
    requires c.Valid() && RequestOk(cc, req) && Dispatchable(ss, req, nonces) && InSync(t, ss[0], tpm)
    requires RequestKnown(ss[0], tpm, names, cc, req) && choice.Succeed? && Encryptable(ss[0], resp, choice)
    requires ChangesAuth(cc) ==> ReadsRequest(ss[0], tpm, req)
    requires PwapHandles(Padded(ss, req.numAuth), req.handles)
    requires OutStep(c, t, ss, true, cc, req, nonces).Sent?
    ensures Prepare(c, t, ss, cc, req, nonces).Success?
    ensures var f := SentFrame(c, t, ss, cc, req, nonces);
            var tpm' := RolledTpm(tpm, cc, HandleValues(req.handles), req.newAuth, choice.nonceTpm);
            var a := Respond(c, tpm, names, OutStep(c, t, ss, true, cc, req, nonces).tss.lastCommandBuf, FormOf(req, resp), choice);
            && f.auths.Some? && |f.auths.value| >= 1 && |f.handles| == |req.handles|
            && var wire := Wire(c, tpm', f, FormOf(req, resp), choice.params);
               && wire.Some? && |wire.value| == |choice.params| && Encryptable(ss[0], resp, choice.(params := wire.value))
               && a.bytes == SuccessResponse(choice.outHandle, wire.value,
                                             ResponseEntries(c, tpm', names, f, req.numAuth, choice.(params := wire.value)))
               && a.tpm == tpm' && !a.authFailed && (ReadsRequest(ss[0], tpm, req) ==> a.seen == Some(req.params))
  {
    hide Prepare, EncodeCommand, ParseCommand, OutStep, Authorizes, Effect, ResponseEntries, SuccessResponse, Seen, Wire, ReadNewAuth,
      Padded, SameSession, BindHolds, NamesAgree, FirstAuthKnown, PasswordsKnown, Sensible, UpdatedAs, RolledTpm, ReadsRequest, Encryptable;
    SentAuthorized(c, t, ss, tpm, names, cc, req, resp, nonces);
    SentFrameShape(c, t, ss, tpm, cc, req, nonces);
    SentShort(c, t, ss, cc, req, nonces);
    SeenInCommand(c, t, ss, tpm, cc, req, resp, nonces);
    var f, form := SentFrame(c, t, ss, cc, req, nonces), FormOf(req, resp);
    var newAuth := ReadNewAuth(cc, Seen(c, tpm, f, form).value).value;
    OtherAuthUnused(tpm, cc, HandleValues(req.handles), newAuth, req.newAuth, choice.nonceTpm);
    var tpm' := RolledTpm(tpm, cc, HandleValues(req.handles), req.newAuth, choice.nonceTpm);
    WireOfAnswer(c, ss[0], tpm, tpm', f, cc, req, resp, choice);
  }

  lemma SentShort(c: Crypto, t: Tss, ss: seq<Session>, cc: nat, req: Request, nonces: seq<ByteVec>)
    requires c.Valid() && RequestOk(cc, req) && Dispatchable(ss, req, nonces)
    requires PwapHandles(Padded(ss, req.numAuth), req.handles) && OutStep(c, t, ss, true, cc, req, nonces).Sent?
    ensures |req.params| <= CAPACITY
  {
    hide Prepare, SendPrepared;
  }

  /** Only the commands that change an auth value take one from their parameters. */
  lemma OtherAuthUnused(tpm: Tpm, cc: nat, handles: seq<nat>, auth: ByteVec, auth': ByteVec, nonce: ByteVec)
    requires ChangesAuth(cc) ==> auth == auth'
    ensures RolledTpm(tpm, cc, handles, auth, nonce) == RolledTpm(tpm, cc, handles, auth', nonce)
  {
    hide SetEntityAuth;
  }

  lemma WireOfAnswer(c: Crypto, s: Session, tpm: Tpm, tpm': Tpm, f: Frame, cc: nat, req: Request, resp: Response, choice: Choice)
    requires c.Valid() && SameSession(s, tpm) && choice.Succeed? && Encryptable(s, resp, choice)
    requires tpm' == RolledTpm(tpm, cc, HandleValues(req.handles), req.newAuth, choice.nonceTpm)
    requires f.handles == HandleValues(req.handles) && req.numAuth <= |req.handles| && f.auths.Some? && |f.auths.value| >= 1
    requires f.auths.value[0].attributes == s.attributes
    ensures var wire := Wire(c, tpm', f, FormOf(req, resp), choice.params);
            wire.Some? && |wire.value| == |choice.params| && Encryptable(s, resp, choice.(params := wire.value))
  {
    hide TpmXcrypt, SessionValue, FirstParam, FirstParamFits, Effect;
    EffectKeepsSession(tpm, cc, HandleValues(req.handles), req.newAuth);
    var s' := s.(nonceTpm := choice.nonceTpm, nonceCaller := f.auths.value[0].nonce);
    assert SameSession(s', tpm');
    if s.Encrypts() {
      ResponseRecovered(c, s', tpm', HandleValues(req.handles), req.numAuth, choice.params, resp.sizeLen, resp.valLen);
    }
  }

  // ---------- the response to a command that succeeded ----------

  lemma {:induction false} EntriesSize(rs: seq<AuthResponse>)
    requires forall i | 0 <= i < |rs| :: |rs[i].nonce| <= 64 && |rs[i].hmac| <= 64
    ensures |EncodeAuthResponses(rs)| <= 200 * |rs|
  {
    hide BigEndian;
    if rs != [] {
      EntriesSize(rs[1..]);
    }
  }

  lemma EntriesShort(c: Crypto, tpm: Tpm, names: Names, f: Frame, numAuth: nat, choice: Choice)
    requires c.Valid() && numAuth <= |f.handles| && f.auths.Some? && |f.auths.value| >= 1 && choice.Succeed?
    requires |choice.nonceTpm| <= 64
    ensures var rs := ResponseEntries(c, tpm, names, f, numAuth, choice);
            EntriesFit(rs) && |EncodeAuthResponses(rs)| <= 200 * |rs|
  {
    hide BigEndian, KeyAuth, RpHashData, HmacData, EncodeAuthResponses;
    EntriesSize(ResponseEntries(c, tpm, names, f, numAuth, choice));
  }

  /** Whether DispatchIn accepts the session's part of the response is a comparison of two HMACs
      over the same data. */
  lemma ResponseComparesKeys(c: Crypto, s: Session, tpm: Tpm, names: Names, f: Frame, numAuth: nat, hs': seq<Handle>, choice: Choice)
    requires numAuth <= |f.handles| && f.auths.Some? && |f.auths.value| >= 1 && choice.Succeed?
    requires s.sessionType == HMAC && !s.needsPassword
    requires s.hashAlg == tpm.session.hashAlg && s.sessionKey == tpm.session.sessionKey
    requires f.auths.value[0].nonce == s.nonceCaller && f.auths.value[0].attributes == s.attributes
    ensures var r := ResponseEntries(c, tpm, names, f, numAuth, choice)[0];
            var data := SignedText(c.hash(s.hashAlg, AnsweredText(f.cc, choice.params)), choice.nonceTpm, s.nonceCaller, s.attributes);
            var own := HmacAuth(s, if hs' != [] then Some(hs'[0]) else None);
            var tpms := KeyAuth(tpm, names, f.handles, numAuth);
            && r.nonce == choice.nonceTpm && r.attributes == s.attributes
            && (ResponseAccepted(c, s, hs', 0, r, f.cc, choice.params, [], []) <==>
                  c.hmac(s.hashAlg, s.sessionKey + own, data) == c.hmac(s.hashAlg, s.sessionKey + tpms, data))
  {
    hide KeyAuth, HmacAuth, HmacData, RpHashData;
    var r := ResponseEntries(c, tpm, names, f, numAuth, choice)[0];
    var s' := Updated(s, hs', 0, r);
    RpHashAgrees(f.cc, choice.params);
    OneSessionText(c.hash(s.hashAlg, AnsweredText(f.cc, choice.params)), choice.nonceTpm, s.nonceCaller, s.attributes);
    SameHmacAuth(s, s', if hs' != [] then Some(hs'[0]) else None);
  }

  /** The handles after CompleteUpdate carry the new auth value where the command changed it. */
  lemma FirstAuthSucceeded(cc: nat, t: Tss, hs: seq<Handle>, newAuth: ByteVec)
    requires HandlesFor(cc, t) && t.inHandles == hs && (ChangesAuth(cc) ==> t.objectInAuth == newAuth)
    ensures FirstAuthUpdated(cc, hs, Succeeded(cc, t).inHandles, newAuth)
  {}

  /** The mirrored auth values follow the TPM's through a successful command. */
  lemma MirrorFollows(cc: nat, t: Tss, tpm: Tpm, hs: seq<Handle>, newAuth: ByteVec)
    requires HandlesFor(cc, t) && t.inHandles == hs && (ChangesAuth(cc) ==> t.objectInAuth == newAuth)
    requires (ChangesAuth(cc) || cc == CC_CLEAR ==> hs != []) && Sensible(cc, hs, tpm)
    requires t.admin.Trimmed() == tpm.hierarchies
    ensures Succeeded(cc, t).admin.Trimmed() == Effect(tpm, cc, HandleValues(hs), newAuth).hierarchies
  {
    hide Trim;
    assert Trim([]) == [] by {
      TrimUnique([], []);
    }
  }

  /** The response parameters as the caller gets them. */
  function PlainParams(c: Crypto, s: Session, params: ByteVec, resp: Response): ByteVec
    requires c.Valid()
  {
    if !DecryptsResponse(s) then params else
    match XcryptAt(c, s, params, 0, resp.sizeLen, resp.valLen, false)
    case Success(plain) => plain
    case Failure(_) => []
  }

  lemma FinishDecrypts(c: Crypto, t: Tss, ss: seq<Session>, cc: nat, resp: Response, audit: bool, b: ByteVec, p: nat,
                       params: ByteVec, outHandle: Option<nat>)
    requires c.Valid() && ResponseOk(resp) && p <= |b| && |ss| >= 1 && At(b, p, params)
    requires t.encSession == if DecryptsResponse(ss[0]) then Slot(0) else NoSession
    requires DecryptsResponse(ss[0]) ==> CipherSupported(ss[0]) && FirstParamFits(params, resp.sizeLen, resp.valLen)
    ensures var r := Finish(c, t, ss, cc, resp, audit, b, p, params, outHandle);
            && r.Done? && r.sessions == ss && r.outHandle == outHandle && r.params == PlainParams(c, ss[0], params, resp)
            && r.tss.pending == t.pending && r.tss.admin == t.admin
  {
    hide FromBigEndian;
    if DecryptsResponse(ss[0]) {
      assert params[0..resp.sizeLen] == params[..resp.sizeLen];
      XcryptWithin(c, ss[0], b, p, params, resp.sizeLen, resp.valLen, false);
    }
  }

  /** A session with rolled nonces is the TPM's session with the same new nonce. */
  lemma SameSessionRolled(s: Session, s': Session, tpm: Tpm, cc: nat, handles: seq<nat>, newAuth: ByteVec, nonce: ByteVec)
    requires SameSession(s, tpm) && SameKeyed(s, s') && s'.nonceTpm == nonce
    ensures SameSession(s', RolledTpm(tpm, cc, handles, newAuth, nonce))
  {
    hide Trim;
  }

  lemma BindKeptRolled(s: Session, tpm: Tpm, cc: nat, hs: seq<Handle>, numAuth: nat, newAuth: ByteVec, nonce: ByteVec)
    requires SameSession(s, tpm) && BindHolds(tpm, s.bindObject.value)
    requires numAuth <= |hs| && (ChangesAuth(cc) || cc == CC_CLEAR ==> numAuth > 0) && Sensible(cc, hs, tpm)
    requires ResponseKeyFits(cc, s, tpm, hs, numAuth, newAuth)
    ensures BindHolds(RolledTpm(tpm, cc, HandleValues(hs), newAuth, nonce), s.bindObject.value)
  {
    hide Trim, Effect;
    BindKept(s, tpm, cc, hs, numAuth, newAuth);
    EffectKeepsSession(tpm, cc, HandleValues(hs), newAuth);
  }

  lemma EffectKeepsSession(tpm: Tpm, cc: nat, handles: seq<nat>, newAuth: ByteVec)
    ensures Effect(tpm, cc, handles, newAuth).session == tpm.session
  {
    hide Trim;
  }

  /** DispatchIn waits for the response with the handles and encryption session of the request. */
  lemma SentAwaits(c: Crypto, t: Tss, ss: seq<Session>, tpm: Tpm, cc: nat, req: Request, nonces: seq<ByteVec>)
    requires c.Valid() && RequestOk(cc, req) && Dispatchable(ss, req, nonces) && InSync(t, ss[0], tpm)
    requires PwapHandles(Padded(ss, req.numAuth), req.handles) && OutStep(c, t, ss, true, cc, req, nonces).Sent?
    ensures var out := OutStep(c, t, ss, true, cc, req, nonces);
            && out.tss.inHandles == RhHandles(t.admin, req.handles, |Padded(ss, req.numAuth)|)
            && out.tss.encSession == (if DecryptsResponse(ss[0]) then Slot(0) else NoSession)
            && (ChangesAuth(cc) ==> out.tss.objectInAuth == req.newAuth)
            && |out.sessions| == |Padded(ss, req.numAuth)| <= 2 && req.numAuth <= |out.sessions| && Slots(out.sessions)
            && HandlesFor(cc, out.tss)
            && (!t.demandError && t.expectedError == 0 ==> AwaitsSuccess(cc, out.tss))
  {
    hide Prepare, CpHashData, AuthEntries, EncodeCommand, GetName, BigEndian, UpdateRequestHandles, OutStep, RhHandles, InSync;
    SentReady(c, t, ss, cc, req, nonces);
    PreparedSlots(c, t, ss, cc, req, nonces);
    SentIsPrepared(c, t, ss, true, cc, req, nonces);
  }

  lemma ResponseShort(outHandle: Option<nat>, params: ByteVec, rs: seq<AuthResponse>)
    ensures |SuccessResponse(outHandle, params, rs)| <= 18 + |params| + |EncodeAuthResponses(rs)|
  {
    hide BigEndian, EncodeAuthResponses;
  }

  /** The session that comes back from DispatchOut uses the TPM's key for the
      response exactly when ResponseKeyFits says so. */
  lemma ResponseKeyOfSent(s: Session, s1: Session, tpm: Tpm, names: Names, admin: Hierarchies, cc: nat, req: Request, n: nat,
                          hs': seq<Handle>, nonce: ByteVec)
    requires RequestOk(cc, req) && SameSession(s, tpm) && BindHolds(tpm, s.bindObject.value) && SameKeyed(s, s1)
    requires admin.Trimmed() == tpm.hierarchies && RequestKnown(s, tpm, names, cc, req) && 1 <= n && req.numAuth <= n
    requires var hs := RhHandles(admin, req.handles, n); FirstAuthUpdated(cc, hs, hs', req.newAuth)
    ensures var tpm' := RolledTpm(tpm, cc, HandleValues(req.handles), req.newAuth, nonce);
            var fits := ResponseKeyFits(cc, s, tpm, RhHandles(admin, req.handles, 1), req.numAuth, req.newAuth);
            var own := HmacAuth(s1, if hs' != [] then Some(hs'[0]) else None);
            && (own == KeyAuth(tpm', names, HandleValues(req.handles), req.numAuth) <==> fits)
            && (fits ==> BindHolds(tpm', s.bindObject.value))
  {
    hide Trim, GetName, EntityAuth, BigEndian, HmacAuth, Effect, BindHolds, SameSession, FirstAuthUpdated;
    var hs := RhHandles(admin, req.handles, n);
    HandleAuths(admin, s, tpm, req, n);
    NamesAgreeKept(names, s, s, tpm, req.handles, hs);
    var tpm1 := Effect(tpm, cc, HandleValues(hs), req.newAuth);
    ResponseKeysAgreeIff(s, tpm, tpm1, names, cc, hs, hs', req.numAuth, req.newAuth);
    if ResponseKeyFits(cc, s, tpm, RhHandles(admin, req.handles, 1), req.numAuth, req.newAuth) {
      BindKeptRolled(s, tpm, cc, hs, req.numAuth, req.newAuth, nonce);
    }
    assert |hs'| > 0 <==> hs' != [];
    assert |hs'| == |hs| by {
      FirstAuthLength(cc, hs, hs', req.newAuth);
    }
    SameHmacAuth(s, s1, if hs' != [] then Some(hs'[0]) else None);
    KeyAuthIgnoresNonce(tpm1, names, HandleValues(hs), req.numAuth, nonce);
  }

  lemma FirstAuthLength(cc: nat, hs: seq<Handle>, hs': seq<Handle>, newAuth: ByteVec)
    requires FirstAuthUpdated(cc, hs, hs', newAuth)
    ensures |hs'| == |hs|
  {}

  lemma KeyAuthIgnoresNonce(tpm: Tpm, names: Names, handles: seq<nat>, numAuth: nat, nonce: ByteVec)
    requires numAuth <= |handles|
    ensures KeyAuth(tpm.(session := tpm.session.(nonceTpm := nonce)), names, handles, numAuth)
         == KeyAuth(tpm, names, handles, numAuth)
  {}

  /** The final attempt of a dispatch that succeeds. */
  lemma SuccessInSync(c: Crypto, t: Tss, ss: seq<Session>, tpm: Tpm, names: Names, cc: nat, req: Request, resp: Response,
                      nonces: seq<ByteVec>, choice: Choice)
    requires c.Valid() && RequestOk(cc, req) && ResponseOk(resp) && Dispatchable(ss, req, nonces) && InSync(t, ss[0], tpm)
    requires RequestKnown(ss[0], tpm, names, cc, req)
    requires choice.Succeed? && SuccessOk(ss[0], tpm, t.admin, cc, req, resp, choice)
    requires !t.demandError && t.expectedError == 0
    requires PwapHandles(Padded(ss, req.numAuth), req.handles) && OutStep(c, t, ss, true, cc, req, nonces).Sent?
    requires var out := OutStep(c, t, ss, true, cc, req, nonces);
             HandlesFor(cc, out.tss) && EncOk(out.tss.encSession, out.sessions)
    ensures var out := OutStep(c, t, ss, true, cc, req, nonces);
            var a := Respond(c, tpm, names, out.tss.lastCommandBuf, FormOf(req, resp), choice);
            var r := InStep(c, out.tss, out.sessions, cc, resp, a.bytes);
            && !a.authFailed && a.tpm == RolledTpm(tpm, cc, HandleValues(req.handles), req.newAuth, choice.nonceTpm)
            && (ReadsRequest(ss[0], tpm, req) ==> a.seen == Some(req.params))
            && r.Done? && r.outHandle == choice.outHandle && |r.sessions| >= 1
            && (ReadsResponse(ss[0], a.tpm, req) ==> r.params == choice.params)
            && SameKeyed(ss[0], r.sessions[0]) && InSync(r.tss, r.sessions[0], a.tpm)
  {
    hide Prepare, CpHashData, AuthEntries, EncodeCommand, GetName, BigEndian, UpdateRequestHandles, OutStep, RhHandles,
      Effect, Respond, InStep, Finish, SuccessResponse, ResponseEntries, Succeeded, Trim, PlainParams, ResponseKeyFits,
      ResponseAccepted, NamesAgree, FirstAuthKnown, PasswordsKnown, Sensible, BindHolds, Padded, HmacAuth, KeyAuth, HmacData, RpHashData, SignedText, AnsweredText, FirstAuthUpdated,
      Wire, RolledTpm, XcryptFits, FirstParamFits, ReadsRequest, ReadsResponse, SameSession, SameKeyed, SuccessOk;
    SentAwaits(c, t, ss, tpm, cc, req, nonces);
    SentInSync(c, t, ss, tpm, cc, req, nonces);
    MayRead(ss[0], tpm, t.admin, cc, req, resp, choice);
    HonestAnswer(c, t, ss, tpm, names, cc, req, resp, nonces, choice);
    SentFrameShape(c, t, ss, tpm, cc, req, nonces);
    var out := OutStep(c, t, ss, true, cc, req, nonces);
    var f := SentFrame(c, t, ss, cc, req, nonces);
    var s1 := out.sessions[0];
    var tpm' := RolledTpm(tpm, cc, HandleValues(req.handles), req.newAuth, choice.nonceTpm);
    var sent := choice.(params := Wire(c, tpm', f, FormOf(req, resp), choice.params).value);
    StillOk(ss[0], tpm, t.admin, cc, req, resp, choice, sent);
    SuccessAsSent(c, t, ss, tpm, names, cc, req, resp, nonces, sent);
    var r := InStep(c, out.tss, out.sessions, cc, resp,
                    SuccessResponse(sent.outHandle, sent.params, ResponseEntries(c, tpm', names, f, req.numAuth, sent)));
    PlainDelivered(c, ss[0], r.sessions[0], tpm', f, req, resp, choice.params);
  }

  lemma MayRead(s: Session, tpm: Tpm, admin: Hierarchies, cc: nat, req: Request, resp: Response, choice: Choice)
    requires choice.Succeed? && req.numAuth <= |req.handles| && SuccessOk(s, tpm, admin, cc, req, resp, choice)
    ensures Encryptable(s, resp, choice) && (ChangesAuth(cc) ==> ReadsRequest(s, tpm, req))
  {
    hide XcryptFits, ResponseKeyFits;
  }

  lemma StillOk(s: Session, tpm: Tpm, admin: Hierarchies, cc: nat, req: Request, resp: Response, choice: Choice, sent: Choice)
    requires choice.Succeed? && req.numAuth <= |req.handles| && SuccessOk(s, tpm, admin, cc, req, resp, choice)
    requires sent.Succeed? && sent == choice.(params := sent.params) && |sent.params| == |choice.params| && Encryptable(s, resp, sent)
    ensures SuccessOk(s, tpm, admin, cc, req, resp, sent)
  {
    hide XcryptFits, ResponseKeyFits;
  }

  /** The caller can read the response: it is not encrypted, or it is decrypted with the TPM's key. A
      session that also encrypts the request is used for nothing else. `tpm` is the TPM after the
      command. */
  predicate ReadsResponse(s: Session, tpm: Tpm, req: Request)
    requires req.numAuth <= |req.handles|
  {
    s.Encrypts() ==> !s.Decrypts() && XcryptFits(s, tpm, HandleValues(req.handles), req.numAuth)
  }

  /** The caller gets what the TPM put into the response. */
  lemma PlainDelivered(c: Crypto, s: Session, s2: Session, tpm: Tpm, f: Frame, req: Request, resp: Response, params: ByteVec)
    requires c.Valid() && SameKeyed(s, s2) && SameSession(s2, tpm)
    requires f.handles == HandleValues(req.handles) && req.numAuth <= |req.handles| && f.auths.Some? && |f.auths.value| >= 1
    requires f.auths.value[0].attributes == s.attributes && f.auths.value[0].nonce == s2.nonceCaller
    requires s.Encrypts() ==> s.symmetric.isAesCfb && FirstParamFits(params, resp.sizeLen, resp.valLen)
    ensures var wire := Wire(c, tpm, f, FormOf(req, resp), params);
            wire.Some? && (ReadsResponse(s, tpm, req) ==> PlainParams(c, s2, wire.value, resp) == params)
  {
    hide TpmXcrypt, SessionValue, FirstParam, FirstParamFits, XcryptAt, XcryptFits;
    if s.Encrypts() {
      ResponseRecovered(c, s2, tpm, HandleValues(req.handles), req.numAuth, params, resp.sizeLen, resp.valLen);
      FitsIgnoresNonce(s, s2, tpm, HandleValues(req.handles), req.numAuth);
    }
  }

  /** A session with both attributes: encrypting the request clears EncSession, so the caller gets the
      response as it came, which is what the TPM put into it exactly if encryption left it alone. */
  lemma BothDirectionsIff(c: Crypto, s: Session, tpm: Tpm, f: Frame, req: Request, resp: Response, params: ByteVec)
    requires c.Valid() && SameSession(s, tpm) && s.Encrypts() && s.Decrypts() && s.symmetric.isAesCfb
    requires FirstParamFits(params, resp.sizeLen, resp.valLen)
    requires f.handles == HandleValues(req.handles) && req.numAuth <= |req.handles| && f.auths.Some? && |f.auths.value| >= 1
    requires f.auths.value[0].attributes == s.attributes
    ensures var wire := Wire(c, tpm, f, FormOf(req, resp), params);
            var (key, iv) := CipherKeys(c, tpm.session, SessionValue(tpm, f.handles, req.numAuth), tpm.session.nonceTpm,
                                        f.auths.value[0].nonce);
            var data := FirstParam(params, resp.sizeLen, resp.valLen);
            wire.Some? && (PlainParams(c, s, wire.value, resp) == params <==> c.cfbEncrypt(key, iv, data) == data)
  {
    hide CipherKeys, SessionValue, FirstParam, FirstParamFits, XcryptAt;
    var (key, iv) := CipherKeys(c, tpm.session, SessionValue(tpm, f.handles, req.numAuth), tpm.session.nonceTpm,
                                f.auths.value[0].nonce);
    var data := FirstParam(params, resp.sizeLen, resp.valLen);
    SplicedFirstParam(params, resp.sizeLen, resp.valLen, c.cfbEncrypt(key, iv, data), data);
  }

  /** DispatchIn on the response as it is sent. */
  lemma SuccessAsSent(c: Crypto, t: Tss, ss: seq<Session>, tpm: Tpm, names: Names, cc: nat, req: Request, resp: Response,
                      nonces: seq<ByteVec>, choice: Choice)
    requires c.Valid() && RequestOk(cc, req) && ResponseOk(resp) && Dispatchable(ss, req, nonces) && InSync(t, ss[0], tpm)
    requires RequestKnown(ss[0], tpm, names, cc, req)
    requires choice.Succeed? && SuccessOk(ss[0], tpm, t.admin, cc, req, resp, choice)
    requires !t.demandError && t.expectedError == 0
    requires PwapHandles(Padded(ss, req.numAuth), req.handles) && OutStep(c, t, ss, true, cc, req, nonces).Sent?
    requires Prepare(c, t, ss, cc, req, nonces).Success?
    ensures var out := OutStep(c, t, ss, true, cc, req, nonces);
            var f := SentFrame(c, t, ss, cc, req, nonces);
            var tpm' := RolledTpm(tpm, cc, HandleValues(req.handles), req.newAuth, choice.nonceTpm);
            && f.auths.Some? && |f.auths.value| >= 1 && |f.handles| == |req.handles|
            && HandlesFor(cc, out.tss) && EncOk(out.tss.encSession, out.sessions)
            && var r := InStep(c, out.tss, out.sessions, cc, resp,
                               SuccessResponse(choice.outHandle, choice.params, ResponseEntries(c, tpm', names, f, req.numAuth, choice)));
               && r.Done? && r.outHandle == choice.outHandle && |r.sessions| >= 1
               && r.params == PlainParams(c, r.sessions[0], choice.params, resp)
               && SameKeyed(ss[0], r.sessions[0]) && r.sessions[0].nonceCaller == nonces[0] && InSync(r.tss, r.sessions[0], tpm')
  {
    hide Prepare, CpHashData, AuthEntries, EncodeCommand, GetName, BigEndian, UpdateRequestHandles, OutStep, RhHandles,
      Effect, Respond, InStep, Finish, SuccessResponse, ResponseEntries, Succeeded, Trim, PlainParams, ResponseKeyFits,
      ResponseAccepted, NamesAgree, FirstAuthKnown, PasswordsKnown, Sensible, BindHolds, Padded, HmacAuth, KeyAuth, HmacData, RpHashData, SignedText, AnsweredText, FirstAuthUpdated,
      XcryptFits, FirstParamFits, RolledTpm;
    SentAwaits(c, t, ss, tpm, cc, req, nonces);
    SentInSync(c, t, ss, tpm, cc, req, nonces);
    SentFrameShape(c, t, ss, tpm, cc, req, nonces);
    var out := OutStep(c, t, ss, true, cc, req, nonces);
    var f := SentFrame(c, t, ss, cc, req, nonces);
    var s1 := out.sessions[0];
    var tpm' := RolledTpm(tpm, cc, HandleValues(req.handles), req.newAuth, choice.nonceTpm);
    var rs := ResponseEntries(c, tpm', names, f, req.numAuth, choice);
    EntriesShort(c, tpm', names, f, req.numAuth, choice);
    ResponseShort(choice.outHandle, choice.params, rs);
    SuccessAccepted(c, out.tss, out.sessions, cc, resp, choice.outHandle, choice.params, rs);
    var t' := Succeeded(cc, out.tss);
    var hs := RhHandles(t.admin, req.handles, |out.sessions|);
    FirstAuthSucceeded(cc, out.tss, hs, req.newAuth);
    ResponseKeyOfSent(ss[0], s1, tpm, names, t.admin, cc, req, |out.sessions|, t'.inHandles, choice.nonceTpm);
    SameSessionRolled(ss[0], s1.(nonceTpm := choice.nonceTpm), tpm, cc, HandleValues(req.handles), req.newAuth, choice.nonceTpm);
    ResponseComparesKeys(c, s1, tpm', names, f, req.numAuth, t'.inHandles, choice);
    var b := SuccessResponse(choice.outHandle, choice.params, rs);
    var ss2 := out.sessions[0 := Updated(s1, t'.inHandles, 0, rs[0])];
    SucceededInSync(c, t, ss, tpm, tpm', names, cc, req, resp, out.tss, out.sessions, ss2, choice, rs[0], b);
  }

  /** The state once the response was accepted. */
  lemma SucceededInSync(c: Crypto, t: Tss, ss: seq<Session>, tpm: Tpm, tpm': Tpm, names: Names, cc: nat, req: Request,
                        resp: Response, t1: Tss, ss1: seq<Session>, ss2: seq<Session>, choice: Choice, r: AuthResponse, b: ByteVec)
    requires c.Valid() && RequestOk(cc, req) && ResponseOk(resp) && Slots(ss) && InSync(t, ss[0], tpm)
    requires RequestKnown(ss[0], tpm, names, cc, req) && choice.Succeed?
    requires SuccessOk(ss[0], tpm, t.admin, cc, req, resp, choice)
    requires HandlesFor(cc, t1) && req.numAuth <= |ss1| && t1.inHandles == RhHandles(t.admin, req.handles, |ss1|)
    requires ChangesAuth(cc) ==> t1.objectInAuth == req.newAuth
    requires t1.encSession == if DecryptsResponse(ss[0]) then Slot(0) else NoSession
    requires t1.admin == t.admin && |ss1| >= 1 && SameKeyed(ss[0], ss1[0])
    requires r.nonce == choice.nonceTpm && r.attributes == ss[0].attributes
    requires ss2 == ss1[0 := Updated(ss1[0], Succeeded(cc, t1).inHandles, 0, r)]
    requires tpm' == RolledTpm(tpm, cc, HandleValues(req.handles), req.newAuth, choice.nonceTpm)
    requires BindHolds(tpm', ss[0].bindObject.value)
    requires At(b, 14 + 4 * resp.numHandles, choice.params)
    ensures var r := Finish(c, Succeeded(cc, t1), ss2, cc, resp, t1.auditCommand, b, 14 + 4 * resp.numHandles, choice.params,
                            choice.outHandle);
            && r.Done? && r.sessions == ss2 && r.outHandle == choice.outHandle
            && r.params == PlainParams(c, ss2[0], choice.params, resp)
            && SameKeyed(ss[0], ss2[0]) && InSync(r.tss, ss2[0], tpm')
  {
    hide GetName, BigEndian, RhHandles, Effect, Finish, Succeeded, Trim, PlainParams, ResponseKeyFits,
      NamesAgree, FirstAuthKnown, PasswordsKnown, Sensible, BindHolds, FirstParamFits, SameSession, HandlesFor, RolledTpm;
    var t' := Succeeded(cc, t1);
    var hs := RhHandles(t.admin, req.handles, |ss1|);
    SucceededKeeps(cc, t1);
    SameSessionRolled(ss[0], ss2[0], tpm, cc, HandleValues(req.handles), req.newAuth, choice.nonceTpm);
    HandleAuths(t.admin, ss[0], tpm, req, |ss1|);
    SensibleKept(cc, req.handles, hs, tpm);
    MirrorFollows(cc, t1, tpm, hs, req.newAuth);
    RolledHierarchies(tpm, cc, HandleValues(req.handles), req.newAuth, choice.nonceTpm);
    FinishDecrypts(c, t', ss2, cc, resp, t1.auditCommand, b, 14 + 4 * resp.numHandles, choice.params, choice.outHandle);
  }

  lemma RolledHierarchies(tpm: Tpm, cc: nat, handles: seq<nat>, newAuth: ByteVec, nonce: ByteVec)
    ensures RolledTpm(tpm, cc, handles, newAuth, nonce).hierarchies == Effect(tpm, cc, handles, newAuth).hierarchies
  {}

  lemma SensibleKept(cc: nat, hs: seq<Handle>, hs': seq<Handle>, tpm: Tpm)
    requires (ChangesAuth(cc) || cc == CC_CLEAR ==> hs != []) && HandleValues(hs') == HandleValues(hs)
    requires Sensible(cc, hs, tpm)
    ensures (ChangesAuth(cc) || cc == CC_CLEAR ==> hs' != []) && Sensible(cc, hs', tpm)
  {
    if hs != [] {
      assert HandleValues(hs')[0] == HandleValues(hs)[0];
    }
  }

  // ---------- a whole dispatch ----------

  /** The flags of the invocation are set in the TSS. */
  predicate Flagged(t: Tss, inv: Invocation) {
    t.allowErrors == inv.allowErrors && t.demandError == inv.demandError && t.expectedError == inv.expectedError
  }

  /** The dispatch ended the way the TPM chose and the flags demand; unless the two sides have different
      encryption keys, the TPM acted on the caller's parameters and the caller got the TPM's. */
  predicate EndsAsChosen(r: Ended, t: Tss, s: Session, tpm: Tpm, inv: Invocation, handles: seq<nat>)
    requires inv.req.numAuth <= |inv.req.handles|
  {
    match r.how
    case HashTaken(_) => t.cpHash.Some? && r.tpm == tpm
    case Completed(outHandle, params, seen) =>
      && inv.choice.Succeed? && outHandle == inv.choice.outHandle
      && (ReadsRequest(s, tpm, inv.req) ==> seen == Some(inv.req.params))
      && (ReadsResponse(s, r.tpm, inv.req) ==> params == inv.choice.params)
      && r.tpm == RolledTpm(tpm, inv.cc, handles, inv.req.newAuth, inv.choice.nonceTpm)
    case Reported(rc) =>
      inv.choice.Refuse? && rc == inv.choice.error.Number() && Tolerated(t, inv.choice.error.Number()) && r.tpm == tpm
    case Threw(e) =>
      inv.choice.Refuse? && e == TssError.TpmError(inv.choice.error.Number()) && !Tolerated(t, inv.choice.error.Number()) && r.tpm == tpm
    case _ => false
  }

  /** The TPM found the authorizations valid, the dispatch ended as chosen, and both sides are in
      step. */
  predicate Good(r: Ended, t: Tss, s: Session, tpm: Tpm, inv: Invocation, handles: seq<nat>)
    requires |r.sessions| >= 1 && inv.req.numAuth <= |inv.req.handles|
  {
    && !r.rejected && EndsAsChosen(r, t, s, tpm, inv, handles)
    && SameKeyed(s, r.sessions[0]) && InSync(r.tss, r.sessions[0], r.tpm)
  }

  /** Overwriting the auth value in the request changes neither the handles nor what the TPM may do. */
  lemma ChoiceKept(s: Session, s': Session, tpm: Tpm, admin: Hierarchies, inv: Invocation, req: Request, req': Request,
                   remembered: ByteVec)
    requires RequestOk(inv.cc, req) && RequestOk(inv.cc, req') && Sensible(inv.cc, req.handles, tpm) && SameKeyed(s, s')
    requires UpdatedAs(inv.cc, req, remembered, req')
    requires ChoiceOk(s, tpm, admin, inv, req)
    ensures ChoiceOk(s', tpm, admin, inv, req') && HandleValues(req'.handles) == HandleValues(req.handles)
    ensures req'.newAuth == req.newAuth && req'.params == req.params
  {
    hide Trim, FirstParamFits, EntityAuth;
    var hs, hs' := RhHandles(admin, req.handles, 1), RhHandles(admin, req'.handles, 1);
    assert hs != [] ==> hs'[0].value == hs[0].value && (inv.cc == CC_NV_CHANGE_AUTH || hs'[0] == hs[0]);
  }

  /** An attempt that the TPM answers with RETRY leaves both sides in step; the auth value of the first
      handle is known to the next attempt exactly if RetryFits. */
  lemma AskedAgain(c: Crypto, t: Tss, ss: seq<Session>, tpm: Tpm, inv: Invocation, req: Request, nonces: seq<ByteVec>)
    requires c.Valid() && RequestOk(inv.cc, req) && ResponseOk(inv.resp) && Dispatchable(ss, req, nonces)
    requires InSync(t, ss[0], tpm) && RequestKnown(ss[0], tpm, inv.names, inv.cc, req)
    requires PwapHandles(Padded(ss, req.numAuth), req.handles) && OutStep(c, t, ss, true, inv.cc, req, nonces).Sent?
    ensures var r, out := Attempt(c, t, ss, tpm, inv, req, nonces, AskRetry), OutStep(c, t, ss, true, inv.cc, req, nonces);
            && r == Again(out.tss.(pending := 0), out.sessions, tpm, out.req, false)
            && InSync(r.tss, r.sessions[0], tpm) && RequestNamed(r.sessions[0], tpm, inv.names, inv.cc, r.req)
            && (FirstAuthKnown(r.sessions[0], tpm, r.req) <==> RetryFits(inv.cc, ss[0], tpm, req))
            && (RetryFits(inv.cc, r.sessions[0], tpm, r.req) <==> RetryFits(inv.cc, ss[0], tpm, req))
            && SameBut(t, r.tss) && SameKeyed(ss[0], r.sessions[0]) && UpdatedAs(inv.cc, req, out.tss.objectInAuth, r.req)
  {
    hide OutStep, InStep, ErrorResponse, Prepare, Trim, GetName, BigEndian, InSync, RequestOk, UpdatedAs, RetryFits, RequestKnown,
      RequestNamed, FirstAuthKnown, Padded, EncodeCommand, Respond, Authorizes, SameKeyed;
    ShapeOf(inv.cc, req);
    SentReady(c, t, ss, inv.cc, req, nonces);
    SentInSync(c, t, ss, tpm, inv.cc, req, nonces);
    SentIsPrepared(c, t, ss, true, inv.cc, req, nonces);
    var out := OutStep(c, t, ss, true, inv.cc, req, nonces);
    ErrorHandled(c, out.tss, out.sessions, inv.cc, inv.resp, RC_RETRY);
    SentAuthorized(c, t, ss, tpm, inv.names, inv.cc, req, inv.resp, nonces);
    ErrorAnswer(c, tpm, inv.names, out.tss.lastCommandBuf, FormOf(req, inv.resp), AskRetry);
    SameBinding(ss[0], out.sessions[0]);
    RetryNamed(inv.names, ss[0], out.sessions[0], tpm, inv.cc, req, out.req, out.tss.objectInAuth);
  }

  lemma SameBinding(s: Session, s': Session)
    requires SameKeyed(s, s')
    ensures s'.bindObject == s.bindObject
  {}

  /** The TPM's verdict on the command that is sent again after RETRY: it finds it authorized exactly
      if the HMACs under the two keys are equal, and the keys are the same exactly if RetryFits. */
  lemma RetryVerdict(c: Crypto, t: Tss, ss: seq<Session>, tpm: Tpm, inv: Invocation, req: Request, nonces: seq<ByteVec>,
                     nonces': seq<ByteVec>)
    requires c.Valid() && RequestOk(inv.cc, req) && ResponseOk(inv.resp) && Dispatchable(ss, req, nonces)
    requires InSync(t, ss[0], tpm) && RequestKnown(ss[0], tpm, inv.names, inv.cc, req)
    requires PwapHandles(Padded(ss, req.numAuth), req.handles) && OutStep(c, t, ss, true, inv.cc, req, nonces).Sent?
    ensures var r := Attempt(c, t, ss, tpm, inv, req, nonces, AskRetry);
            && r.Again? && r.tpm == tpm
            && (Dispatchable(r.sessions, r.req, nonces') ==>
                  && PwapHandles(Padded(r.sessions, r.req.numAuth), r.req.handles)
                  && var out := OutStep(c, r.tss, r.sessions, true, inv.cc, r.req, nonces');
                     (out.Sent? ==>
                        && Prepare(c, r.tss, r.sessions, inv.cc, r.req, nonces').Success?
                        && var s, f := r.sessions[0], SentFrame(c, r.tss, r.sessions, inv.cc, r.req, nonces');
                           var own := OwnKeyAuth(s, r.tss.admin, r.req);
                           var theirs := KeyAuth(tpm, inv.names, HandleValues(r.req.handles), r.req.numAuth);
                           var data := CpHashData(inv.cc, r.req.handles, f.params);
                           && data.Success?
                           && (own == theirs <==> RetryFits(inv.cc, ss[0], tpm, req))
                           && (Authorizes(c, tpm, inv.names, out.tss.lastCommandBuf, FormOf(r.req, inv.resp)) <==>
                                 SameHmacs(c, s, own, theirs, RequestData(c, s, data.value, nonces'[0])))))
  {
    hide Attempt, OutStep, Prepare, InSync, RequestOk, RetryFits, RequestKnown, RequestNamed, FirstAuthKnown, Padded, PwapHandles,
      Authorizes, SameKeyed, UpdatedAs, OwnKeyAuth, KeyAuth, CpHashData, RequestData, SameHmacs, SentFrame, ParseCommand, Slots;
    ShapeOf(inv.cc, req);
    AskedAgain(c, t, ss, tpm, inv, req, nonces);
    var r := Attempt(c, t, ss, tpm, inv, req, nonces, AskRetry);
    if Dispatchable(r.sessions, r.req, nonces') {
      SentReady(c, r.tss, r.sessions, inv.cc, r.req, nonces');
      if OutStep(c, r.tss, r.sessions, true, inv.cc, r.req, nonces').Sent? {
        SentVerdict(c, r.tss, r.sessions, tpm, inv.names, inv.cc, r.req, inv.resp, nonces');
      }
    }
  }

  /** If RetryFits, everything is as it should be for the next attempt. */
  lemma RetryAttempt(c: Crypto, t: Tss, ss: seq<Session>, tpm: Tpm, inv: Invocation, req: Request, nonces: seq<ByteVec>)
    requires c.Valid() && RequestOk(inv.cc, req) && ResponseOk(inv.resp) && Dispatchable(ss, req, nonces)
    requires InSync(t, ss[0], tpm) && RequestKnown(ss[0], tpm, inv.names, inv.cc, req)
    requires Flagged(t, inv) && ChoiceOk(ss[0], tpm, t.admin, inv, req) && RetryFits(inv.cc, ss[0], tpm, req)
    requires PwapHandles(Padded(ss, req.numAuth), req.handles) && OutStep(c, t, ss, true, inv.cc, req, nonces).Sent?
    ensures var r := Attempt(c, t, ss, tpm, inv, req, nonces, AskRetry);
            && r.Again?
            && InSync(r.tss, r.sessions[0], r.tpm) && RequestKnown(r.sessions[0], r.tpm, inv.names, inv.cc, r.req)
            && Flagged(r.tss, inv) && ChoiceOk(r.sessions[0], r.tpm, r.tss.admin, inv, r.req)
            && RetryFits(inv.cc, r.sessions[0], r.tpm, r.req)
            && r.tpm == tpm && r.tss.cpHash == t.cpHash && !r.rejected
            && r.req.newAuth == req.newAuth && r.req.params == req.params && r.req.numAuth == req.numAuth
            && HandleValues(r.req.handles) == HandleValues(req.handles)
            && SameKeyed(ss[0], r.sessions[0])
  {
    hide Attempt, OutStep, InSync, ChoiceOk, RequestOk, UpdatedAs, RetryFits, NamesAgree, FirstAuthKnown, PasswordsKnown, Sensible, Padded,
      SameKeyed, PwapHandles;
    ShapeOf(inv.cc, req);
    AskedAgain(c, t, ss, tpm, inv, req, nonces);
    var out := OutStep(c, t, ss, true, inv.cc, req, nonces);
    ChoiceKept(ss[0], out.sessions[0], tpm, t.admin, inv, req, out.req, out.tss.objectInAuth);
  }

  /** Neither an exception before anything is sent nor a captured cpHash involves the TPM. */
  lemma NotSentAttempt(c: Crypto, t: Tss, ss: seq<Session>, tpm: Tpm, inv: Invocation, req: Request, nonces: seq<ByteVec>,
                       choice: Choice)
    requires c.Valid() && RequestOk(inv.cc, req) && ResponseOk(inv.resp) && Dispatchable(ss, req, nonces)
    requires InSync(t, ss[0], tpm) && PwapHandles(Padded(ss, req.numAuth), req.handles) && inv.req.numAuth <= |inv.req.handles|
    requires !OutStep(c, t, ss, true, inv.cc, req, nonces).Sent?
    ensures var r := Attempt(c, t, ss, tpm, inv, req, nonces, choice);
            && r.Over? && !r.ended.rejected
            && (r.ended.how.NotSent? || Good(r.ended, t, ss[0], tpm, inv, HandleValues(req.handles)))
  {
    hide Prepare, OutStep, Trim, Respond, RequestOk, RequestKnown, ReadsRequest, ReadsResponse, RolledTpm, Slots, Padded, SameSession, BindHolds;
    NeverStranded(c, t, ss, inv.cc, req, nonces);
    SentReady(c, t, ss, inv.cc, req, nonces);
    if OutStep(c, t, ss, true, inv.cc, req, nonces).Captured? {
      CapturedInSync(c, t, ss, tpm, inv.cc, req, nonces);
    }
  }

  /** Capturing the cpHash disturbs nothing that the two sides agree on. */
  lemma CapturedInSync(c: Crypto, t: Tss, ss: seq<Session>, tpm: Tpm, cc: nat, req: Request, nonces: seq<ByteVec>)
    requires c.Valid() && RequestOk(cc, req) && Dispatchable(ss, req, nonces) && InSync(t, ss[0], tpm)
    requires PwapHandles(Padded(ss, req.numAuth), req.handles)
    requires OutStep(c, t, ss, true, cc, req, nonces).Captured?
    ensures var out := OutStep(c, t, ss, true, cc, req, nonces);
            t.cpHash.Some? && |out.sessions| >= 1 && SameKeyed(ss[0], out.sessions[0]) && InSync(out.tss, out.sessions[0], tpm)
  {
    hide Prepare, CpHashData, AuthEntries, EncodeCommand, GetName, BigEndian, UpdateRequestHandles, Trim, EntityAuth, RequestOk,
      XcryptAt, RhHandles;
    PreparedSlots(c, t, ss, cc, req, nonces);
    PrepareKeeps(c, t, ss, cc, req, nonces);
  }

  /** An HMAC session needs the names of all handles, so none is missing once the command is sent. */
  lemma NeverStranded(c: Crypto, t: Tss, ss: seq<Session>, cc: nat, req: Request, nonces: seq<ByteVec>)
    requires c.Valid() && RequestOk(cc, req) && Dispatchable(ss, req, nonces) && PwapHandles(Padded(ss, req.numAuth), req.handles)
    ensures var out := OutStep(c, t, ss, true, cc, req, nonces);
            out.OutThrown? ==> out.delivered.None?
  {
    hide Prepare, CpHashData, AuthEntries, EncodeCommand, GetName, BigEndian, Padded, SentSlots;
    PreparedSlots(c, t, ss, cc, req, nonces);
    if CpHashData(cc, req.handles, if Prepare(c, t, ss, cc, req, nonces).Success? then Prepare(c, t, ss, cc, req, nonces).value.params else []).Success? {
      AllNamed(cc, req.handles, if Prepare(c, t, ss, cc, req, nonces).Success? then Prepare(c, t, ss, cc, req, nonces).value.params else []);
    }
  }

  lemma AllNamed(cc: nat, hs: seq<Handle>, params: ByteVec)
    requires CpHashData(cc, hs, params).Success?
    ensures forall i | 0 <= i < |hs| :: GetName(hs[i]).Success?
  {
    hide GetName, BigEndian;
    NamedOnes(BigEndian(cc, 4), hs);
  }

  lemma {:induction false} NamedOnes(acc: ByteVec, hs: seq<Handle>)
    requires AppendNames(acc, hs).Success?
    ensures forall i | 0 <= i < |hs| :: GetName(hs[i]).Success?
    decreases |hs|
  {
    hide GetName;
    if hs != [] {
      NamedOnes(acc + GetName(hs[0]).value, hs[1..]);
      assert forall i | 1 <= i < |hs| :: hs[i] == hs[1..][i - 1];
    }
  }

  /** The answer to a command that is not carried out. */
  lemma ErrorAnswer(c: Crypto, tpm: Tpm, names: Names, bytes: ByteVec, form: Form, choice: Choice)
    requires c.Valid() && form.numAuth <= form.numHandles && !choice.Succeed?
    ensures Respond(c, tpm, names, bytes, form, choice)
         == Answer(ErrorResponse(if choice.Refuse? then choice.error.Code() else RC_RETRY), tpm, !Authorizes(c, tpm, names, bytes, form), None)
  {
    hide Authorizes, ErrorResponse;
  }

  /** What DispatchIn makes of an error that the TPM reports. */
  function RefusalEnds(t: Tss, ss: seq<Session>, tpm: Tpm, number: nat): Ended {
    var t' := ClearInvocation(t.(pending := 0, lastResponseCode := number));
    Ended(if Tolerated(t, number) then Reported(number) else Threw(TssError.TpmError(number)), t', ss, tpm, false)
  }

  lemma RefusedAttempt(c: Crypto, t: Tss, ss: seq<Session>, tpm: Tpm, inv: Invocation, req: Request, nonces: seq<ByteVec>)
    requires c.Valid() && RequestOk(inv.cc, req) && ResponseOk(inv.resp) && Dispatchable(ss, req, nonces)
    requires InSync(t, ss[0], tpm) && RequestKnown(ss[0], tpm, inv.names, inv.cc, req)
    requires inv.choice.Refuse? && RefusalOk(inv.choice.error) && inv.req.numAuth <= |inv.req.handles|
    requires PwapHandles(Padded(ss, req.numAuth), req.handles) && OutStep(c, t, ss, true, inv.cc, req, nonces).Sent?
    ensures var r := Attempt(c, t, ss, tpm, inv, req, nonces, inv.choice);
            r.Over? && Good(r.ended, t, ss[0], tpm, inv, HandleValues(req.handles))
  {
    hide OutStep, InStep, ErrorResponse, Prepare, GetName, BigEndian, UpdatedAs, Padded, EncodeCommand, BareCode, RequestOk, Respond,
      Authorizes, RequestKnown, InSync, ReadsRequest, ReadsResponse, RolledTpm, HandlesFor, EncOk, Good, SameKeyed, ThrowsOn, Tolerated;
    ShapeOf(inv.cc, req);
    SentReady(c, t, ss, inv.cc, req, nonces);
    SentInSync(c, t, ss, tpm, inv.cc, req, nonces);
    SentIsPrepared(c, t, ss, true, inv.cc, req, nonces);
    var out := OutStep(c, t, ss, true, inv.cc, req, nonces);
    BareIsNumber(inv.choice.error);
    ThrowsIff(out.tss, inv.choice.error);
    ErrorHandled(c, out.tss, out.sessions, inv.cc, inv.resp, inv.choice.error.Code());
    SentAuthorized(c, t, ss, tpm, inv.names, inv.cc, req, inv.resp, nonces);
    ErrorAnswer(c, tpm, inv.names, out.tss.lastCommandBuf, FormOf(req, inv.resp), inv.choice);
    RefusalIsGood(t, out.tss, ss[0], out.sessions, tpm, inv, HandleValues(req.handles));
  }

  lemma RefusalIsGood(t: Tss, t1: Tss, s: Session, ss: seq<Session>, tpm: Tpm, inv: Invocation, handles: seq<nat>)
    requires inv.choice.Refuse? && inv.req.numAuth <= |inv.req.handles| && |ss| >= 1
    requires SameBut(t, t1) && SameKeyed(s, ss[0]) && InSync(t1.(pending := 0), ss[0], tpm)
    ensures Good(RefusalEnds(t1, ss, tpm, inv.choice.error.Number()), t, s, tpm, inv, handles)
  {
    hide BareCode, SameSession, BindHolds, ReadsRequest, ReadsResponse, RolledTpm;
  }

  /** A request that differs from the first one in auth values at most. */
  predicate SameRequest(req: Request, req': Request) {
    && req'.newAuth == req.newAuth && req'.params == req.params && req'.numAuth == req.numAuth
    && HandleValues(req'.handles) == HandleValues(req.handles) && req.numAuth <= |req.handles|
  }

  /** Whether the two sides can read each other does not depend on the auth values in the handles. */
  lemma SameReaders(s: Session, tpm: Tpm, req: Request, req': Request)
    requires SameRequest(req, req') && req'.numAuth <= |req'.handles|
    ensures ReadsRequest(s, tpm, req') == ReadsRequest(s, tpm, req) && ReadsResponse(s, tpm, req') == ReadsResponse(s, tpm, req)
  {
    hide XcryptFits;
  }

  /** The last attempt ends the dispatch the way the TPM chose. */
  lemma FinalAttempt(c: Crypto, t: Tss, ss: seq<Session>, tpm: Tpm, inv: Invocation, req: Request, nonces: seq<ByteVec>)
    requires c.Valid() && RequestOk(inv.cc, req) && ResponseOk(inv.resp) && Dispatchable(ss, req, nonces)
    requires InSync(t, ss[0], tpm) && RequestKnown(ss[0], tpm, inv.names, inv.cc, req)
    requires Flagged(t, inv) && ChoiceOk(ss[0], tpm, t.admin, inv, req) && SameRequest(inv.req, req)
    ensures var r := Attempt(c, t, ss, tpm, inv, req, nonces, inv.choice);
            r.Over? && !r.ended.rejected && (r.ended.how.NotSent? || Good(r.ended, t, ss[0], tpm, inv, HandleValues(req.handles)))
  {
    hide OutStep, InStep, Respond, InSync, RequestKnown, SuccessOk, SameKeyed, Padded, RequestOk, PlainParams, RolledTpm, PwapHandles,
      ReadsRequest, ReadsResponse;
    ShapeOf(inv.cc, req);
    SentReady(c, t, ss, inv.cc, req, nonces);
    if !OutStep(c, t, ss, true, inv.cc, req, nonces).Sent? {
      NotSentAttempt(c, t, ss, tpm, inv, req, nonces, inv.choice);
    } else if inv.choice.Refuse? {
      RefusedAttempt(c, t, ss, tpm, inv, req, nonces);
    } else {
      SuccessInSync(c, t, ss, tpm, inv.names, inv.cc, req, inv.resp, nonces, inv.choice);
      SameReaders(ss[0], tpm, inv.req, req);
      SameReaders(ss[0], RolledTpm(tpm, inv.cc, HandleValues(req.handles), req.newAuth, inv.choice.nonceTpm), inv.req, req);
      var r := Attempt(c, t, ss, tpm, inv, req, nonces, inv.choice);
      assert r.Over?;
      assert !r.ended.rejected;
      assert r.ended.how.Completed?;
      assert EndsAsChosen(r.ended, t, ss[0], tpm, inv, HandleValues(req.handles));
      assert SameKeyed(ss[0], r.ended.sessions[0]);
      assert InSync(r.ended.tss, r.ended.sessions[0], r.ended.tpm);
    }
  }

  /** A dispatch that ends well after a retry ends well seen from before the retry. */
  lemma GoodBeforeRetry(r: Ended, t: Tss, t': Tss, s: Session, s': Session, tpm: Tpm, inv: Invocation, handles: seq<nat>)
    requires |r.sessions| >= 1 && inv.req.numAuth <= |inv.req.handles|
    requires Flagged(t, inv) && Flagged(t', inv) && t'.cpHash == t.cpHash && SameKeyed(s, s')
    requires Good(r, t', s', tpm, inv, handles)
    ensures Good(r, t, s, tpm, inv, handles)
  {
    hide InSync, XcryptFits, RolledTpm, BareCode;
    FitsIgnoresNonce(s, s', tpm, HandleValues(inv.req.handles), inv.req.numAuth);
    FitsIgnoresNonce(s, s', r.tpm, HandleValues(inv.req.handles), inv.req.numAuth);
  }

  /** Every attempt that gets past DispatchOut is authorized by the TPM and leaves both sides in step,
      and the dispatch ends as the TPM chose, after any number of retries. */
  lemma {:induction false} DispatchInSync(c: Crypto, t: Tss, ss: seq<Session>, tpm: Tpm, inv: Invocation, req: Request,
                                          nonces: seq<seq<ByteVec>>)
    requires c.Valid() && RequestOk(inv.cc, req) && ResponseOk(inv.resp) && Supplied(ss, req.numAuth, nonces)
    requires InSync(t, ss[0], tpm) && RequestKnown(ss[0], tpm, inv.names, inv.cc, req)
    requires Flagged(t, inv) && ChoiceOk(ss[0], tpm, t.admin, inv, req) && SameRequest(inv.req, req)
    requires |nonces| > 1 ==> RetryFits(inv.cc, ss[0], tpm, req)
    ensures AttemptsInStep(c, t, ss, tpm, inv, req, nonces)
    ensures var r := Dispatch(c, t, ss, tpm, inv, req, nonces);
            !r.rejected && (r.how.NotSent? || Good(r, t, ss[0], tpm, inv, HandleValues(req.handles)))
    decreases |nonces|
  {
    hide OutStep, InStep, Respond, InSync, RequestKnown, ChoiceOk, Attempt, RequestOk, Good, Flagged, SameKeyed, RetryFits;
    SentReady(c, t, ss, inv.cc, req, nonces[0]);
    if |nonces| == 1 {
      FinalAttempt(c, t, ss, tpm, inv, req, nonces[0]);
    } else if !OutStep(c, t, ss, true, inv.cc, req, nonces[0]).Sent? {
      NotSentAttempt(c, t, ss, tpm, inv, req, nonces[0], AskRetry);
    } else {
      RetryAttempt(c, t, ss, tpm, inv, req, nonces[0]);
      var r := Attempt(c, t, ss, tpm, inv, req, nonces[0], AskRetry);
      DispatchInSync(c, r.tss, r.sessions, r.tpm, inv, r.req, nonces[1..]);
      var rest := Dispatch(c, r.tss, r.sessions, r.tpm, inv, r.req, nonces[1..]);
      if !rest.how.NotSent? {
        GoodBeforeRetry(rest, t, r.tss, ss[0], r.sessions[0], tpm, inv, HandleValues(req.handles));
      }
    }
  }

  /** A dispatch that the TPM refuses, after any number of retries, ends with the number of the error,
      whatever the TPM says it is about: reported if the caller demanded or allowed errors or expected
      this one, and thrown otherwise. */
  lemma RefusalOutcome(c: Crypto, t: Tss, ss: seq<Session>, tpm: Tpm, inv: Invocation, nonces: seq<seq<ByteVec>>)
    requires c.Valid() && RequestOk(inv.cc, inv.req) && ResponseOk(inv.resp) && Supplied(ss, inv.req.numAuth, nonces)
    requires InSync(t, ss[0], tpm) && RequestKnown(ss[0], tpm, inv.names, inv.cc, inv.req)
    requires Flagged(t, inv) && inv.choice.Refuse? && RefusalOk(inv.choice.error) && t.cpHash.None?
    requires |nonces| > 1 ==> RetryFits(inv.cc, ss[0], tpm, inv.req)
    ensures var how, number := Dispatch(c, t, ss, tpm, inv, inv.req, nonces).how, inv.choice.error.Number();
            var tolerated := inv.demandError || inv.allowErrors || inv.expectedError == number;
            how.NotSent? || how == if tolerated then Reported(number) else Threw(TssError.TpmError(number))
  {
    hide Dispatch, InSync, RequestKnown, RetryFits, AttemptsInStep, RequestOk, SameKeyed;
    ShapeOf(inv.cc, inv.req);
    DispatchInSync(c, t, ss, tpm, inv, inv.req, nonces);
  }

  // ---------- runs ----------

  predicate InvocationOk(w: World, inv: Invocation) {
    && RequestOk(inv.cc, inv.req) && ResponseOk(inv.resp)
    && Supplied([w.session], inv.req.numAuth, inv.nonces)
    && RequestKnown(w.session, w.tpm, inv.names, inv.cc, inv.req)
    && ChoiceOk(w.session, w.tpm, w.tss.admin, inv, inv.req)
    && (|inv.nonces| > 1 ==> RetryFits(inv.cc, w.session, w.tpm, inv.req))
  }

  function Result(c: Crypto, w: World, inv: Invocation): (r: Ended)
    requires c.Valid() && InvocationOk(w, inv)
    ensures |r.sessions| >= 1
  {
    Dispatch(c, Armed(w.tss, inv), [w.session], w.tpm, inv, inv.req, inv.nonces)
  }

  function Next(c: Crypto, w: World, inv: Invocation): World
    requires c.Valid() && InvocationOk(w, inv)
  {
    var r := Result(c, w, inv);
    World(r.tss, r.sessions[0], r.tpm)
  }

  /** Each invocation of a run makes sense where it happens. A run ends with an exception before
      anything was sent. */
  predicate RunOk(c: Crypto, w: World, invs: seq<Invocation>)
    requires c.Valid()
    decreases |invs|
  {
    hide InvocationOk, Next, Result;
    invs == [] || (InvocationOk(w, invs[0]) && (Result(c, w, invs[0]).how.NotSent? || RunOk(c, Next(c, w, invs[0]), invs[1..])))
  }

  /** Before each attempt of each command both sides are in step; no command is rejected, no response
      is rejected, and every dispatch ends as the TPM chose. */
  predicate AllInStep(c: Crypto, w: World, invs: seq<Invocation>)
    requires c.Valid() && RunOk(c, w, invs)
    decreases |invs|
  {
    hide InvocationOk, Next, Result, Good, AttemptsInStep;
    InSync(w.tss, w.session, w.tpm)
    && (invs == [] ||
          var r := Result(c, w, invs[0]);
          && AttemptsInStep(c, Armed(w.tss, invs[0]), [w.session], w.tpm, invs[0], invs[0].req, invs[0].nonces)
          && !r.rejected
          && (r.how.NotSent?
          || (Good(r, Armed(w.tss, invs[0]), w.session, w.tpm, invs[0], HandleValues(invs[0].req.handles))
              && AllInStep(c, Next(c, w, invs[0]), invs[1..]))))
  }

  /** Safety over whole runs. */
  lemma {:induction false} RunStaysInSync(c: Crypto, w: World, invs: seq<Invocation>)
    requires c.Valid() && InSync(w.tss, w.session, w.tpm) && RunOk(c, w, invs)
    ensures AllInStep(c, w, invs)
    decreases |invs|
  {
    hide InvocationOk, Result, Dispatch, InSync, EndsAsChosen, Armed, AttemptsInStep;
    if invs != [] {
      var inv := invs[0];
      OneDispatch(c, w, inv);
      if !Result(c, w, inv).how.NotSent? {
        RunStaysInSync(c, Next(c, w, inv), invs[1..]);
      }
    }
  }

  lemma OneDispatch(c: Crypto, w: World, inv: Invocation)
    requires c.Valid() && InSync(w.tss, w.session, w.tpm) && InvocationOk(w, inv)
    ensures AttemptsInStep(c, Armed(w.tss, inv), [w.session], w.tpm, inv, inv.req, inv.nonces)
    ensures var r := Result(c, w, inv);
            !r.rejected && (r.how.NotSent? || Good(r, Armed(w.tss, inv), w.session, w.tpm, inv, HandleValues(inv.req.handles)))
  {
    hide Dispatch, AttemptsInStep, RequestOk, Good, ChoiceOk, RequestKnown, SameSession, BindHolds;
    ShapeOf(inv.cc, inv.req);
    DispatchInSync(c, Armed(w.tss, inv), [w.session], w.tpm, inv, inv.req, inv.nonces);
  }
}
