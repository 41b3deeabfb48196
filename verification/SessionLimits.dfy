/** How a session starts, and where the protocol stops working: exactly when the response HMAC is
    computed with another key, and what an unexpected success does to the session. */
module SessionLimits {
  import opened Bytes
  import opened Sequences
  import opened CryptoModel
  import opened Wrappers
  import opened TpmBuffers
  import opened WireFormat
  import opened CommandFrames
  import opened SessionModel
  import opened DispatchSpec
  import opened HonestTpm
  import opened SessionProtocol
  import opened SessionEncryption
  import opened SessionRuns

  // ---------- the start of a session ----------

  /** AUTH_SESSION's constructor for an HMAC session. */
  function NewSession(c: Crypto, handle: nat, alg: nat, nonceCaller: ByteVec, nonceTpm: ByteVec, attributes: byte,
                      sym: SymDef, salt: ByteVec, bind: Handle): Session
  {
    Session(Handle(handle, [], []), HMAC, alg, sym, bind, salt, CalcSessionKey(c, alg, salt, bind, nonceTpm, nonceCaller),
            nonceTpm, nonceCaller, attributes, if bind.value != RH_NULL then bind.auth else [], false, false)
  }

  /** The TPM's side of StartAuthSession (Part 1, section 19.6.8): the key comes from the bound
      entity's auth value and the salt, and is empty if there is neither. */
  function TpmStart(c: Crypto, tpm: Tpm, names: Names, handle: nat, alg: nat, nonceCaller: ByteVec, nonceTpm: ByteVec,
                    sym: SymDef, salt: ByteVec, bind: nat): Tpm
  {
    var unbound := bind == RH_NULL;
    var auth := EntityAuth(tpm, bind);
    var key := if unbound && salt == [] then []
               else c.kdfa(alg, auth + salt, "ATH", nonceTpm, nonceCaller, c.hashLen(alg) * 8);
    tpm.(session := TpmSession(handle, alg, sym, key, nonceTpm, if unbound then None else Some(names.of(bind)),
                               if unbound then [] else auth))
  }

  /** A freshly started session is in step. */
  lemma StartInSync(c: Crypto, t: Tss, tpm: Tpm, names: Names, handle: nat, alg: nat, nonceCaller: ByteVec,
                    nonceTpm: ByteVec, attributes: byte, sym: SymDef, salt: ByteVec, bind: Handle)
    requires t.pending == 0 && t.admin.Trimmed() == tpm.hierarchies
    requires handle < 0x1_0000_0000 && handle != RH_PW && attributes as int % 2 == 1
    requires Trim(bind.auth) == EntityAuth(tpm, bind.value)
    ensures InSync(t, NewSession(c, handle, alg, nonceCaller, nonceTpm, attributes, sym, salt, bind),
                   TpmStart(c, tpm, names, handle, alg, nonceCaller, nonceTpm, sym, salt, bind.value))
  {
    hide Trim;
  }

  // ---------- responses that are not accepted ----------

  /** What the TPM puts on the wire and what it has become, for a command that it carries out. */
  function SentChoice(c: Crypto, t: Tss, ss: seq<Session>, tpm: Tpm, cc: nat, req: Request, resp: Response, nonces: seq<ByteVec>,
                      choice: Choice): (r: Choice)
    requires c.Valid() && RequestOk(cc, req) && Dispatchable(ss, req, nonces) && SameSession(ss[0], tpm)
    requires PwapHandles(Padded(ss, req.numAuth), req.handles) && Prepare(c, t, ss, cc, req, nonces).Success? && choice.Succeed?
    ensures r.Succeed? && r == choice.(params := r.params)
  {
    SentFrameShape(c, t, ss, tpm, cc, req, nonces);
    var tpm' := RolledTpm(tpm, cc, HandleValues(req.handles), req.newAuth, choice.nonceTpm);
    match Wire(c, tpm', SentFrame(c, t, ss, cc, req, nonces), FormOf(req, resp), choice.params)
    case Some(wire) => choice.(params := wire)
    case None => choice
  }

  /** The key material for the response HMAC: what the TSS uses after an honest success, what the TPM
      uses, and the data under the HMAC. */
  ghost predicate ResponseKeys(c: Crypto, t: Tss, ss: seq<Session>, tpm: Tpm, names: Names, cc: nat, req: Request, resp: Response,
                               nonces: seq<ByteVec>, choice: Choice, own: ByteVec, theirs: ByteVec, data: ByteVec)
    requires c.Valid() && RequestOk(cc, req) && Dispatchable(ss, req, nonces) && SameSession(ss[0], tpm) && choice.Succeed?
    requires PwapHandles(Padded(ss, req.numAuth), req.handles) && OutStep(c, t, ss, true, cc, req, nonces).Sent?
    requires Prepare(c, t, ss, cc, req, nonces).Success? && HandlesFor(cc, OutStep(c, t, ss, true, cc, req, nonces).tss)
  {
    var hs := Succeeded(cc, OutStep(c, t, ss, true, cc, req, nonces).tss).inHandles;
    var tpm' := RolledTpm(tpm, cc, HandleValues(req.handles), req.newAuth, choice.nonceTpm);
    var params := SentChoice(c, t, ss, tpm, cc, req, resp, nonces, choice).params;
    && own == HmacAuth(ss[0], if hs != [] then Some(hs[0]) else None)
    && theirs == KeyAuth(tpm', names, HandleValues(req.handles), req.numAuth)
    && data == SignedText(c.hash(tpm.session.hashAlg, AnsweredText(cc, params)), choice.nonceTpm, nonces[0], ss[0].attributes)
  }

  /** DispatchIn's verdict on an honest successful response. The two sides use the same key exactly
      when ResponseKeyFits; if they do not, the response gets through only if the HMACs under two
      different keys happen to be equal, and otherwise DispatchIn throws. */
  lemma ResponseVerdict(c: Crypto, t: Tss, ss: seq<Session>, tpm: Tpm, names: Names, cc: nat, req: Request, resp: Response,
                        nonces: seq<ByteVec>, choice: Choice)
    returns (own: ByteVec, theirs: ByteVec, data: ByteVec)
    requires c.Valid() && RequestOk(cc, req) && ResponseOk(resp) && Dispatchable(ss, req, nonces) && InSync(t, ss[0], tpm)
    requires RequestKnown(ss[0], tpm, names, cc, req) && !t.demandError && t.expectedError == 0
    requires choice.Succeed? && |choice.nonceTpm| <= 64 && |choice.params| < 0x1_0000
    requires Encryptable(ss[0], resp, choice) && (DecryptsResponse(ss[0]) ==> CipherSupported(ss[0]))
    requires ChangesAuth(cc) ==> ReadsRequest(ss[0], tpm, req)
    requires choice.outHandle.Some? <==> resp.numHandles == 1
    requires choice.outHandle.Some? ==> choice.outHandle.value < 0x1_0000_0000
    requires PwapHandles(Padded(ss, req.numAuth), req.handles) && OutStep(c, t, ss, true, cc, req, nonces).Sent?
    requires var out := OutStep(c, t, ss, true, cc, req, nonces);
             HandlesFor(cc, out.tss) && EncOk(out.tss.encSession, out.sessions)
    ensures Prepare(c, t, ss, cc, req, nonces).Success?
    ensures ResponseKeys(c, t, ss, tpm, names, cc, req, resp, nonces, choice, own, theirs, data)
    ensures own == theirs
       <==> ResponseKeyFits(cc, ss[0], tpm, RhHandles(t.admin, req.handles, 1), req.numAuth, req.newAuth)
    ensures var out := OutStep(c, t, ss, true, cc, req, nonces);
            var a := Respond(c, tpm, names, out.tss.lastCommandBuf, FormOf(req, resp), choice);
            var r := InStep(c, out.tss, out.sessions, cc, resp, a.bytes);
            var key := ss[0].sessionKey;
            && !a.authFailed
            && (r.Done? <==> c.hmac(ss[0].hashAlg, key + own, data) == c.hmac(ss[0].hashAlg, key + theirs, data))
            && (r.Done? || (r.InThrown? && r.error == InvalidHmac))
  {
    hide Prepare, CpHashData, AuthEntries, EncodeCommand, GetName, BigEndian, UpdateRequestHandles, OutStep, RhHandles,
      Effect, Respond, InStep, SuccessResponse, ResponseEntries, Succeeded, Trim, PlainParams, ResponseKeyFits, XcryptAt,
      ResponseAccepted, NamesAgree, FirstAuthKnown, PasswordsKnown, Sensible, BindHolds, Padded, HmacAuth, KeyAuth, HmacData, RpHashData, SignedText, AnsweredText, FirstAuthUpdated,
      Wire, RolledTpm, FirstParamFits, Finish, ReadsRequest, HandlesFor;
    SentAwaits(c, t, ss, tpm, cc, req, nonces);
    SentInSync(c, t, ss, tpm, cc, req, nonces);
    HonestAnswer(c, t, ss, tpm, names, cc, req, resp, nonces, choice);
    SentFrameShape(c, t, ss, tpm, cc, req, nonces);
    var out := OutStep(c, t, ss, true, cc, req, nonces);
    var f := SentFrame(c, t, ss, cc, req, nonces);
    var s1 := out.sessions[0];
    var tpm' := RolledTpm(tpm, cc, HandleValues(req.handles), req.newAuth, choice.nonceTpm);
    var sent := SentChoice(c, t, ss, tpm, cc, req, resp, nonces, choice);
    var rs := ResponseEntries(c, tpm', names, f, req.numAuth, sent);
    EntriesShort(c, tpm', names, f, req.numAuth, sent);
    ResponseShort(sent.outHandle, sent.params, rs);
    SuccessAccepted(c, out.tss, out.sessions, cc, resp, sent.outHandle, sent.params, rs);
    var hs' := Succeeded(cc, out.tss).inHandles;
    FirstAuthSucceeded(cc, out.tss, RhHandles(t.admin, req.handles, |out.sessions|), req.newAuth);
    ResponseKeyOfSent(ss[0], s1, tpm, names, t.admin, cc, req, |out.sessions|, hs', choice.nonceTpm);
    SameSessionRolled(ss[0], s1.(nonceTpm := choice.nonceTpm), tpm, cc, HandleValues(req.handles), req.newAuth, choice.nonceTpm);
    ResponseComparesKeys(c, s1, tpm', names, f, req.numAuth, hs', sent);
    SucceededKeeps(cc, out.tss);
    AcceptedIsDone(c, out.tss, ss[0], out.sessions, cc, resp, rs[0], sent, SuccessResponse(sent.outHandle, sent.params, rs));
    SameHmacAuth(ss[0], s1, if hs' != [] then Some(hs'[0]) else None);
    own := HmacAuth(s1, if hs' != [] then Some(hs'[0]) else None);
    theirs := KeyAuth(tpm', names, HandleValues(req.handles), req.numAuth);
    data := SignedText(c.hash(s1.hashAlg, AnsweredText(f.cc, sent.params)), choice.nonceTpm, s1.nonceCaller, s1.attributes);
  }

  /** A response that was accepted can be decrypted and handed over. */
  lemma AcceptedIsDone(c: Crypto, t: Tss, s: Session, ss: seq<Session>, cc: nat, resp: Response, r: AuthResponse, choice: Choice,
                       b: ByteVec)
    requires c.Valid() && ResponseOk(resp) && HandlesFor(cc, t) && |ss| >= 1 && SameKeyed(s, ss[0]) && r.attributes == s.attributes
    requires t.encSession == if DecryptsResponse(s) then Slot(0) else NoSession
    requires choice.Succeed? && Encryptable(s, resp, choice) && (DecryptsResponse(s) ==> CipherSupported(s))
    requires At(b, 14 + 4 * resp.numHandles, choice.params)
    ensures var t' := Succeeded(cc, t);
            EncOk(t'.encSession, ss)
            && Finish(c, t', ss[0 := Updated(ss[0], t'.inHandles, 0, r)], cc, resp, t.auditCommand, b, 14 + 4 * resp.numHandles,
                      choice.params, choice.outHandle).Done?
  {
    hide Finish, Succeeded, FirstParamFits;
    SucceededKeeps(cc, t);
    var t' := Succeeded(cc, t);
    FinishDecrypts(c, t', ss[0 := Updated(ss[0], t'.inHandles, 0, r)], cc, resp, t.auditCommand, b, 14 + 4 * resp.numHandles,
                   choice.params, choice.outHandle);
  }

  /** TPM2_Clear authorized by the lockout hierarchy with a non-empty auth value: the TPM answers
      with the emptied value in the key, the TSS expects the old one. */
  lemma ClearByLockout(s: Session, tpm: Tpm)
    requires s.bindObject.value == RH_NULL
    ensures !ResponseKeyFits(CC_CLEAR, s, tpm, [Handle(RH_LOCKOUT, [7], [])], 1, [])
    ensures ResponseKeyFits(CC_CLEAR, s, tpm, [Handle(RH_LOCKOUT, [0, 0], [])], 1, [])
    ensures ResponseKeyFits(CC_CLEAR, s, tpm, [Handle(RH_PLATFORM, [7], [])], 1, [])
  {
    assert Trim([7]) == [7];
    assert [0, 0][..1] == [0] && [0][..0] == [];
    assert Trim([0, 0]) == Trim([0]) == Trim([]) == [];
  }

  /** The owner auth value [7] is changed to [8] over a session bound to the owner hierarchy: the TPM
      does not take the session for bound any more, the TSS does. A value that differs in trailing zeros
      only, or none at all, does no harm. */
  lemma BoundAuthChanged(s: Session, tpm: Tpm)
    requires s.bindObject.value == RH_OWNER && tpm.session.bindAuth == [7]
    ensures !ResponseKeyFits(CC_HIERARCHY_CHANGE_AUTH, s, tpm, [Handle(RH_OWNER, [7], [])], 1, [8])
    ensures ResponseKeyFits(CC_HIERARCHY_CHANGE_AUTH, s, tpm, [Handle(RH_OWNER, [7], [])], 1, [7, 0])
    ensures ResponseKeyFits(CC_HIERARCHY_CHANGE_AUTH, s, tpm, [Handle(RH_OWNER, [7], [])], 1, [])
  {
    assert Trim([8]) == [8] && Trim([7]) == [7];
    assert [7, 0][..1] == [7];
  }

  /** A session that only audits a command whose handle needs no authorization: the request key
      leaves out the handle's auth value, the response key puts it in. */
  lemma HandleWithoutAuthorization(s: Session, tpm: Tpm, cc: nat, name: ByteVec)
    requires s.bindObject.value == RH_NULL
    ensures !ResponseKeyFits(cc, s, tpm, [Handle(0x8000_0001, [7], name)], 0, [])
  {
    assert Trim([7]) == [7];
  }

  // ---------- encryption in both directions ----------

  /** Encrypting the first response parameter does not change it. `tpm` has its new nonce. */
  predicate EncryptionIdle(c: Crypto, tpm: Tpm, handles: seq<nat>, numAuth: nat, params: ByteVec, resp: Response, nonceCaller: ByteVec)
    requires numAuth <= |handles|
  {
    && FirstParamFits(params, resp.sizeLen, resp.valLen)
    && var (key, iv) := CipherKeys(c, tpm.session, SessionValue(tpm, handles, numAuth), tpm.session.nonceTpm, nonceCaller);
       var data := FirstParam(params, resp.sizeLen, resp.valLen);
       c.cfbEncrypt(key, iv, data) == data
  }

  /** A command that succeeds over a session with both attributes: the caller gets the first parameter
      as it was sent, which is the TPM's exactly if encryption leaves it alone. */
  lemma BothDirectionsDelivered(c: Crypto, t: Tss, ss: seq<Session>, tpm: Tpm, names: Names, cc: nat, req: Request, resp: Response,
                                nonces: seq<ByteVec>, choice: Choice)
    requires c.Valid() && RequestOk(cc, req) && ResponseOk(resp) && Dispatchable(ss, req, nonces) && InSync(t, ss[0], tpm)
    requires RequestKnown(ss[0], tpm, names, cc, req)
    requires choice.Succeed? && SuccessOk(ss[0], tpm, t.admin, cc, req, resp, choice)
    requires !t.demandError && t.expectedError == 0 && ss[0].Encrypts() && ss[0].Decrypts()
    requires PwapHandles(Padded(ss, req.numAuth), req.handles) && OutStep(c, t, ss, true, cc, req, nonces).Sent?
    requires var out := OutStep(c, t, ss, true, cc, req, nonces);
             HandlesFor(cc, out.tss) && EncOk(out.tss.encSession, out.sessions)
    ensures var out := OutStep(c, t, ss, true, cc, req, nonces);
            var a := Respond(c, tpm, names, out.tss.lastCommandBuf, FormOf(req, resp), choice);
            var r := InStep(c, out.tss, out.sessions, cc, resp, a.bytes);
            && req.numAuth <= |req.handles| && r.Done?
            && Some(r.params) == TpmXcrypt(c, a.tpm.session, SessionValue(a.tpm, HandleValues(req.handles), req.numAuth), choice.params,
                                           resp.sizeLen, resp.valLen, choice.nonceTpm, nonces[0], true)
            && (r.params == choice.params <==> EncryptionIdle(c, a.tpm, HandleValues(req.handles), req.numAuth, choice.params, resp, nonces[0]))
  {
    hide Prepare, CpHashData, AuthEntries, EncodeCommand, GetName, BigEndian, UpdateRequestHandles, OutStep, RhHandles,
      Effect, Respond, InStep, SuccessResponse, ResponseEntries, Trim, ResponseKeyFits, NamesAgree, FirstAuthKnown, PasswordsKnown,
      Sensible, BindHolds, Padded, RolledTpm, XcryptFits, FirstParamFits, FirstParam, ReadsRequest, ReadsResponse, SameSession, SameKeyed,
      CipherKeys, SessionValue, XcryptAt, RequestKnown, Splice, HandlesFor, SentFrame, Wire, SuccessOk, PlainParams, RequestOk, TpmXcrypt, EncryptionIdle;
    ShapeOf(cc, req);
    SentAwaits(c, t, ss, tpm, cc, req, nonces);
    MayRead(ss[0], tpm, t.admin, cc, req, resp, choice);
    HonestAnswer(c, t, ss, tpm, names, cc, req, resp, nonces, choice);
    SentFrameShape(c, t, ss, tpm, cc, req, nonces);
    var f := SentFrame(c, t, ss, cc, req, nonces);
    var tpm' := RolledTpm(tpm, cc, HandleValues(req.handles), req.newAuth, choice.nonceTpm);
    var sent := choice.(params := Wire(c, tpm', f, FormOf(req, resp), choice.params).value);
    StillOk(ss[0], tpm, t.admin, cc, req, resp, choice, sent);
    SuccessAsSent(c, t, ss, tpm, names, cc, req, resp, nonces, sent);
    var out := OutStep(c, t, ss, true, cc, req, nonces);
    var r := InStep(c, out.tss, out.sessions, cc, resp,
                    SuccessResponse(sent.outHandle, sent.params, ResponseEntries(c, tpm', names, f, req.numAuth, sent)));
    assert tpm'.session.nonceTpm == choice.nonceTpm by {
      RolledNonce(tpm, cc, HandleValues(req.handles), req.newAuth, choice.nonceTpm);
    }
    WireOfBoth(c, ss[0], r.sessions[0], tpm', f, req, resp, choice.params, choice.nonceTpm);
  }

  lemma RolledNonce(tpm: Tpm, cc: nat, handles: seq<nat>, newAuth: ByteVec, nonce: ByteVec)
    ensures RolledTpm(tpm, cc, handles, newAuth, nonce).session.nonceTpm == nonce
  {
    hide Effect;
  }

  lemma WireOfBoth(c: Crypto, s0: Session, s: Session, tpm: Tpm, f: Frame, req: Request, resp: Response, params: ByteVec, nonceTpm: ByteVec)
    requires c.Valid() && SameKeyed(s0, s) && SameSession(s, tpm) && s0.Encrypts() && s0.Decrypts() && s0.symmetric.isAesCfb
    requires FirstParamFits(params, resp.sizeLen, resp.valLen) && tpm.session.nonceTpm == nonceTpm
    requires f.handles == HandleValues(req.handles) && req.numAuth <= |req.handles| && f.auths.Some? && |f.auths.value| >= 1
    requires f.auths.value[0].attributes == s0.attributes
    ensures var wire := Wire(c, tpm, f, FormOf(req, resp), params);
            && wire.Some? && PlainParams(c, s, wire.value, resp) == wire.value
            && wire == TpmXcrypt(c, tpm.session, SessionValue(tpm, HandleValues(req.handles), req.numAuth), params, resp.sizeLen,
                                 resp.valLen, nonceTpm, f.auths.value[0].nonce, true)
            && (wire.value == params <==>
                  EncryptionIdle(c, tpm, HandleValues(req.handles), req.numAuth, params, resp, f.auths.value[0].nonce))
  {
    hide CipherKeys, SessionValue, FirstParam, FirstParamFits, XcryptAt, Splice;
    BothDirectionsIff(c, s, tpm, f, req, resp, params);
  }

  // ---------- an unexpected success ----------

  lemma UnexpectedSuccessThrows(c: Crypto, t: Tss, ss: seq<Session>, cc: nat, resp: Response, b: ByteVec)
    requires c.Valid() && ResponseOk(resp) && HandlesFor(cc, t) && t.pending == cc != 0
    requires (t.auditCommand ==> t.auditAlg != ALG_NULL) && (t.demandError || t.expectedError != 0)
    requires EncOk(t.encSession, ss)
    requires |b| >= 10 && Num(b, 2, 4) == |b| && Num(b, 6, 4) == 0
    ensures InStep(c, t, ss, cc, resp, b) == InThrown(TssError.TpmError(0), Succeeded(cc, t), true)
  {
    hide FromBigEndian, CompleteUpdate, Complete;
  }

  /** When an error was demanded or expected and the command succeeds, DispatchIn throws before it
      reads the session area. The TPM has moved on to its new nonce, the session object has not:
      the two are in step afterwards only if the TPM repeated its nonce. */
  lemma UnexpectedSuccessDesyncs(c: Crypto, t: Tss, ss: seq<Session>, tpm: Tpm, names: Names, cc: nat, req: Request,
                                 resp: Response, nonces: seq<ByteVec>, choice: Choice)
    requires c.Valid() && RequestOk(cc, req) && ResponseOk(resp) && Dispatchable(ss, req, nonces) && InSync(t, ss[0], tpm)
    requires RequestKnown(ss[0], tpm, names, cc, req) && (t.demandError || t.expectedError != 0)
    requires choice.Succeed? && |choice.nonceTpm| <= 64 && |choice.params| < 0x1_0000
    requires Encryptable(ss[0], resp, choice) && (ChangesAuth(cc) ==> ReadsRequest(ss[0], tpm, req))
    requires choice.outHandle.Some? ==> choice.outHandle.value < 0x1_0000_0000
    requires PwapHandles(Padded(ss, req.numAuth), req.handles) && OutStep(c, t, ss, true, cc, req, nonces).Sent?
    requires var out := OutStep(c, t, ss, true, cc, req, nonces);
             |out.sessions| >= 1 && HandlesFor(cc, out.tss) && EncOk(out.tss.encSession, out.sessions)
    ensures var out := OutStep(c, t, ss, true, cc, req, nonces);
            var a := Respond(c, tpm, names, out.tss.lastCommandBuf, FormOf(req, resp), choice);
            var r := InStep(c, out.tss, out.sessions, cc, resp, a.bytes);
            && r == InThrown(TssError.TpmError(0), Succeeded(cc, out.tss), true)
            && (SameSession(out.sessions[0], a.tpm) <==> choice.nonceTpm == ss[0].nonceTpm)
            && r.tss.admin.Trimmed() == a.tpm.hierarchies
  {
    hide Prepare, CpHashData, AuthEntries, EncodeCommand, GetName, BigEndian, FromBigEndian, UpdateRequestHandles, OutStep, RhHandles,
      Effect, Respond, SuccessResponse, ResponseEntries, Trim, NamesAgree, FirstAuthKnown, PasswordsKnown, Sensible, BindHolds, Padded, Complete, CompleteUpdate,
      InStep, Succeeded, UpdatedAs, Wire, FirstParamFits, ReadsRequest;
    SentAwaits(c, t, ss, tpm, cc, req, nonces);
    SentIsPrepared(c, t, ss, true, cc, req, nonces);
    SentInSync(c, t, ss, tpm, cc, req, nonces);
    HonestAnswer(c, t, ss, tpm, names, cc, req, resp, nonces, choice);
    SentFrameShape(c, t, ss, tpm, cc, req, nonces);
    var out := OutStep(c, t, ss, true, cc, req, nonces);
    var f := SentFrame(c, t, ss, cc, req, nonces);
    var tpm' := RolledTpm(tpm, cc, HandleValues(req.handles), req.newAuth, choice.nonceTpm);
    var sent := SentChoice(c, t, ss, tpm, cc, req, resp, nonces, choice);
    var rs := ResponseEntries(c, tpm', names, f, req.numAuth, sent);
    EntriesShort(c, tpm', names, f, req.numAuth, sent);
    ResponseShort(sent.outHandle, sent.params, rs);
    SuccessLayout(sent.outHandle, sent.params, rs);
    UnexpectedSuccessThrows(c, out.tss, out.sessions, cc, resp, SuccessResponse(sent.outHandle, sent.params, rs));
    var hs := RhHandles(t.admin, req.handles, |out.sessions|);
    HandleAuths(t.admin, ss[0], tpm, req, |out.sessions|);
    SensibleKept(cc, req.handles, hs, tpm);
    MirrorFollows(cc, out.tss, tpm, hs, req.newAuth);
    EffectKeepsSession(tpm, cc, HandleValues(req.handles), req.newAuth);
  }
}
