/** What a Tpm2 object has recorded after any history of dispatches: the mirrored hierarchy auth
    values and the command audit digest. The sessions may be of any kind and number. */
module DispatchHistory {
  import opened Bytes
  import opened CryptoModel
  import opened Wrappers
  import opened TpmBuffers
  import opened CommandFrames
  import opened SessionModel
  import opened DispatchSpec
  import opened HonestTpm
  import opened SessionProtocol

  /** One DispatchOut with the flags set for it and the response the device will deliver. `left` is
      the session that EncSession still points to, if an earlier dispatch left it behind; its value
      may have changed since. */
  datatype Exchange = Exchange(
    cc: nat, req: Request, resp: Response, sessions: seq<Session>, nonces: seq<ByteVec>, hasDevice: bool,
    allowErrors: bool, demandError: bool, expectedError: nat, audit: bool, cpHash: Option<nat>, response: ByteVec, left: Option<Session>)

  predicate ExchangeOk(x: Exchange) {
    && RequestOk(x.cc, x.req) && ResponseOk(x.resp)
    && |Padded(x.sessions, x.req.numAuth)| <= |x.nonces| && PwapHandles(Padded(x.sessions, x.req.numAuth), x.req.handles)
    && WholeResponse(x.response)
  }

  /** Some bit other than 9, 10 and those above 11 is set; bit 7 stands for format one. */
  predicate HasError(rc: nat) {
    rc % 0x100 != 0 || rc / 0x100 % 2 == 1 || rc / 0x800 % 2 == 1
  }

  lemma HasErrorIff(rc: nat)
    ensures HasError(rc) <==> BareCode(rc) != 0
  {
    assert rc % 0x100 == rc % 0x80 + 0x80 * (rc / 0x80 % 2);
  }

  /** A complete response whose code is success or an error of TPM 2.0: the bits that
      ResponseCodeFromTpmError drops do not make up the whole code. */
  predicate WholeResponse(b: ByteVec) {
    |b| >= 10 && Num(b, 2, 4) == |b| && (Num(b, 6, 4) != 0 ==> HasError(Num(b, 6, 4)))
  }

  function Armed(t: Tss, x: Exchange): Tss {
    t.(allowErrors := x.allowErrors, demandError := x.demandError, expectedError := x.expectedError,
       auditCommand := x.audit, cpHash := x.cpHash,
       encSession := if x.left.Some? then Outside(x.left.value) else NoSession)
  }

  function StateAfter(r: Incoming): Tss {
    match r
    case Retry(t) => t
    case InThrown(_, t, _) => t
    case Failed(t) => t
    case Done(t, _, _, _) => t
  }

  /** The TSS after the exchange. An exception in DispatchOut leaves no command pending and
      touches neither the mirrored auth values nor the audit digest. */
  function Step(c: Crypto, t: Tss, x: Exchange): (r: Tss)
    requires c.Valid() && ExchangeOk(x)
  {
    match OutStep(c, Armed(t, x), x.sessions, x.hasDevice, x.cc, x.req, x.nonces)
    case OutThrown(_, _) => t
    case Captured(_, t', _) => t'
    case Sent(t', ss', _) =>
      SentHandles(c, Armed(t, x), x);
      StateAfter(InStep(c, t', ss', x.cc, x.resp, x.response))
  }

  /** Whether the command reached the TPM and was carried out. */
  predicate CarriedOut(c: Crypto, t: Tss, x: Exchange)
    requires c.Valid() && ExchangeOk(x)
  {
    OutStep(c, Armed(t, x), x.sessions, x.hasDevice, x.cc, x.req, x.nonces).Sent? && Num(x.response, 6, 4) == 0
  }

  lemma PreparedHandles(c: Crypto, t: Tss, ss: seq<Session>, cc: nat, req: Request, nonces: seq<ByteVec>)
    requires c.Valid() && RequestOk(cc, req)
    requires |Padded(ss, req.numAuth)| <= |nonces| && PwapHandles(Padded(ss, req.numAuth), req.handles)
    requires Prepare(c, t, ss, cc, req, nonces).Success?
    ensures var p := Prepare(c, t, ss, cc, req, nonces).value;
            && HandleValues(p.tss.inHandles) == HandleValues(req.handles)
            && (t.encSession.Slot? || EncOk(p.tss.encSession, p.sessions))
  {
    hide EncodeCommand, SentParams, CpHashData, AuthEntries, LastWith, GetName, Padded;
  }

  lemma HandlesForValues(cc: nat, req: Request, t: Tss)
    requires RequestOk(cc, req) && HandleValues(t.inHandles) == HandleValues(req.handles)
    ensures HandlesFor(cc, t)
  {
    assert |t.inHandles| == |HandleValues(req.handles)| == |req.handles|;
  }

  /** DispatchOut leaves the handles and the encryption session that DispatchIn looks at. */
  lemma SentHandles(c: Crypto, t: Tss, x: Exchange)
    requires c.Valid() && ExchangeOk(x) && !t.encSession.Slot?
    requires OutStep(c, t, x.sessions, x.hasDevice, x.cc, x.req, x.nonces).Sent?
    ensures var out := OutStep(c, t, x.sessions, x.hasDevice, x.cc, x.req, x.nonces);
            && HandlesFor(x.cc, out.tss) && HandleValues(out.tss.inHandles) == HandleValues(x.req.handles)
            && EncOk(out.tss.encSession, out.sessions)
            && out.tss.pending == x.cc && t.pending == 0 && SameBut(t, out.tss)
            && (x.cc == CC_HIERARCHY_CHANGE_AUTH ==> out.tss.objectInAuth == x.req.newAuth)
            && (t.auditCommand ==> t.auditAlg != ALG_NULL)
  {
    hide OutStep, Prepare, EncodeCommand, HandlesFor, HandleValues, FromBigEndian;
    SentIsPrepared(c, t, x.sessions, x.hasDevice, x.cc, x.req, x.nonces);
    PreparedHandles(c, t, x.sessions, x.cc, x.req, x.nonces);
    HandlesForValues(x.cc, x.req, OutStep(c, t, x.sessions, x.hasDevice, x.cc, x.req, x.nonces).tss);
  }

  // ---------- DispatchIn in the two respects that matter here ----------

  /** The parts of a response that DispatchIn accepts as the response to a successful command. */
  function Accepted(c: Crypto, t: Tss, ss: seq<Session>, cc: nat, resp: Response, b: ByteVec): Option<Opening>
    requires ResponseOk(resp) && HandlesFor(cc, t) && |b| >= 10
  {
    if Num(b, 6, 4) != 0 || t.demandError || t.expectedError != 0 then None else
    match Open(c, Succeeded(cc, t), ss, cc, resp, Num(b, 0, 2), b)
    case Failure(_) => None
    case Success(o) => Some(o)
  }

  /** DispatchIn changes the mirrored auth values exactly when the response code is success, and
      the audit digest exactly when the command is audited and its response accepted. */
  lemma ResponseEffects(c: Crypto, t: Tss, ss: seq<Session>, cc: nat, resp: Response, b: ByteVec)
    requires c.Valid() && ResponseOk(resp) && HandlesFor(cc, t) && t.pending == cc != 0
    requires (t.auditCommand ==> t.auditAlg != ALG_NULL) && WholeResponse(b)
    requires EncOk(t.encSession, ss)
    ensures var t', o := StateAfter(InStep(c, t, ss, cc, resp, b)), Accepted(c, t, ss, cc, resp, b);
            && t'.pending == 0 && t'.auditAlg == t.auditAlg
            && t'.admin == (if Num(b, 6, 4) == 0 then CompleteUpdate(cc, t).admin else t.admin)
            && t'.auditDigest == (if t.auditCommand && o.Some? then
                                    c.Extend(t.auditAlg, t.auditDigest,
                                             t.auditCpHash + c.hash(t.auditAlg, RpHashData(cc, o.value.params)))
                                  else t.auditDigest)
  {
    hide FromBigEndian, Complete, RpHashData, CompleteUpdate, Open, Succeeded;
    var rc := Num(b, 6, 4);
    SucceededAudit(cc, t);
    if rc == 0 && !t.demandError && t.expectedError == 0 {
      assert InStep(c, t, ss, cc, resp, b) == Complete(c, Succeeded(cc, t), ss, cc, resp, t.auditCommand, Num(b, 0, 2), b) by {
        SuccessReaches(c, t, ss, cc, resp, b);
      }
      CompleteEffects(c, Succeeded(cc, t), ss, cc, resp, t.auditCommand, Num(b, 0, 2), b);
    } else if rc == 0 {
      UnwantedSuccess(c, t, ss, cc, resp, b);
    } else {
      ErrorEffects(c, t, ss, cc, resp, b);
    }
  }

  lemma ErrorEffects(c: Crypto, t: Tss, ss: seq<Session>, cc: nat, resp: Response, b: ByteVec)
    requires c.Valid() && ResponseOk(resp) && HandlesFor(cc, t) && t.pending == cc != 0
    requires (t.auditCommand ==> t.auditAlg != ALG_NULL) && WholeResponse(b) && Num(b, 6, 4) != 0
    requires EncOk(t.encSession, ss)
    ensures var t' := StateAfter(InStep(c, t, ss, cc, resp, b));
            t'.pending == 0 && t'.auditAlg == t.auditAlg && t'.admin == t.admin && t'.auditDigest == t.auditDigest
  {
    hide FromBigEndian, Complete, CompleteUpdate, BareCode, HasError;
    HasErrorIff(Num(b, 6, 4));
  }

  lemma SuccessReaches(c: Crypto, t: Tss, ss: seq<Session>, cc: nat, resp: Response, b: ByteVec)
    requires c.Valid() && ResponseOk(resp) && HandlesFor(cc, t) && t.pending == cc != 0
    requires (t.auditCommand ==> t.auditAlg != ALG_NULL) && |b| >= 10 && Num(b, 2, 4) == |b|
    requires EncOk(t.encSession, ss)
    requires Num(b, 6, 4) == 0 && !t.demandError && t.expectedError == 0
    ensures Succeeded(cc, t).encSession == t.encSession
    ensures InStep(c, t, ss, cc, resp, b) == Complete(c, Succeeded(cc, t), ss, cc, resp, t.auditCommand, Num(b, 0, 2), b)
  {
    hide FromBigEndian, Complete, CompleteUpdate;
    SucceededKeeps(cc, t);
  }

  lemma UnwantedSuccess(c: Crypto, t: Tss, ss: seq<Session>, cc: nat, resp: Response, b: ByteVec)
    requires c.Valid() && ResponseOk(resp) && HandlesFor(cc, t) && t.pending == cc != 0
    requires (t.auditCommand ==> t.auditAlg != ALG_NULL) && |b| >= 10 && Num(b, 2, 4) == |b|
    requires EncOk(t.encSession, ss)
    requires Num(b, 6, 4) == 0 && (t.demandError || t.expectedError != 0)
    ensures StateAfter(InStep(c, t, ss, cc, resp, b)) == Succeeded(cc, t)
  {
    hide FromBigEndian, Complete, CompleteUpdate;
  }

  lemma SucceededAudit(cc: nat, t: Tss)
    requires HandlesFor(cc, t)
    ensures var t' := Succeeded(cc, t);
            && t'.pending == 0 && t'.auditAlg == t.auditAlg && t'.auditDigest == t.auditDigest && t'.auditCpHash == t.auditCpHash
            && t'.encSession == t.encSession && t'.admin == CompleteUpdate(cc, t).admin
  {}

  lemma CompleteEffects(c: Crypto, t: Tss, ss: seq<Session>, cc: nat, resp: Response, audit: bool, tag: nat, b: ByteVec)
    requires c.Valid() && ResponseOk(resp) && |b| >= 10
    requires EncOk(t.encSession, ss)
    ensures var t', o := StateAfter(Complete(c, t, ss, cc, resp, audit, tag, b)), Open(c, t, ss, cc, resp, tag, b);
            && t'.pending == t.pending && t'.auditAlg == t.auditAlg && t'.admin == t.admin
            && t'.auditDigest == (if audit && o.Success? then
                                    c.Extend(t.auditAlg, t.auditDigest,
                                             t.auditCpHash + c.hash(t.auditAlg, RpHashData(cc, o.value.params)))
                                  else t.auditDigest)
  {
    hide Open, XcryptAt, RpHashData;
  }

  // ---------- the mirrored auth values ----------

  /** What a command that was carried out does to the TPM's hierarchy auth values. */
  function HierarchiesAfter(h: Hierarchies, cc: nat, handles: seq<nat>, newAuth: ByteVec): Hierarchies {
    if cc == CC_HIERARCHY_CHANGE_AUTH && handles != [] then h.Set(handles[0], Trim(newAuth))
    else if cc == CC_CLEAR then h.Cleared()
    else h
  }

  /** The TPM's hierarchy auth values after a history. */
  function TpmHierarchies(c: Crypto, t: Tss, xs: seq<Exchange>, h: Hierarchies): Hierarchies
    requires c.Valid() && forall i | 0 <= i < |xs| :: ExchangeOk(xs[i])
    decreases |xs|
  {
    hide Step, ExchangeOk;
    if xs == [] then h else
    var x := xs[0];
    var h' := if CarriedOut(c, t, x) then HierarchiesAfter(h, x.cc, HandleValues(x.req.handles), x.req.newAuth) else h;
    TpmHierarchies(c, Step(c, t, x), xs[1..], h')
  }

  function History(c: Crypto, t: Tss, xs: seq<Exchange>): Tss
    requires c.Valid() && forall i | 0 <= i < |xs| :: ExchangeOk(xs[i])
    decreases |xs|
  {
    hide Step, ExchangeOk;
    if xs == [] then t else History(c, Step(c, t, xs[0]), xs[1..])
  }

  lemma StepMirrors(c: Crypto, t: Tss, x: Exchange, h: Hierarchies)
    requires c.Valid() && ExchangeOk(x) && t.admin.Trimmed() == h
    ensures Step(c, t, x).admin.Trimmed()
         == if CarriedOut(c, t, x) then HierarchiesAfter(h, x.cc, HandleValues(x.req.handles), x.req.newAuth) else h
  {
    hide OutStep, InStep, FromBigEndian, BareCode, CompleteUpdate, HierarchiesAfter, WholeResponse, StateAfter, Trim;
    var a := Armed(t, x);
    var out := OutStep(c, a, x.sessions, x.hasDevice, x.cc, x.req, x.nonces);
    if out.Captured? {
      CapturedKeeps(c, a, x);
    } else if out.Sent? {
      SentHandles(c, a, x);
      ResponseEffects(c, out.tss, out.sessions, x.cc, x.resp, x.response);
      UpdateMirrors(x.cc, out.tss, x.req.newAuth);
    }
  }

  lemma CapturedKeeps(c: Crypto, t: Tss, x: Exchange)
    requires c.Valid() && ExchangeOk(x)
    requires OutStep(c, t, x.sessions, x.hasDevice, x.cc, x.req, x.nonces).Captured?
    ensures var t' := OutStep(c, t, x.sessions, x.hasDevice, x.cc, x.req, x.nonces).tss;
            && t'.admin == t.admin && t'.auditAlg == t.auditAlg && t'.auditDigest == t.auditDigest
            && t'.pending == 0
  {
    hide Prepare, CpHashData, EncodeCommand, UpdateRequestHandles, FromBigEndian;
    PrepareKeeps(c, t, x.sessions, x.cc, x.req, x.nonces);
  }

  lemma UpdateMirrors(cc: nat, t: Tss, newAuth: ByteVec)
    requires HandlesFor(cc, t) && (cc == CC_HIERARCHY_CHANGE_AUTH ==> t.objectInAuth == newAuth)
    ensures CompleteUpdate(cc, t).admin.Trimmed()
         == HierarchiesAfter(t.admin.Trimmed(), cc, HandleValues(t.inHandles), newAuth)
  {
    hide Trim;
    assert Trim([]) == [] by {
      TrimUnique([], []);
    }
  }

  /** Whatever the history of successes, errors, retries, exceptions and captured hashes, the auth
      values behind the _Admin handles are the TPM's, up to trailing zeros. */
  lemma {:induction false} HierarchiesMirrored(c: Crypto, t: Tss, xs: seq<Exchange>, h: Hierarchies)
    requires c.Valid() && (forall i | 0 <= i < |xs| :: ExchangeOk(xs[i])) && t.admin.Trimmed() == h
    ensures History(c, t, xs).admin.Trimmed() == TpmHierarchies(c, t, xs, h)
    decreases |xs|
  {
    hide Step, ExchangeOk, CarriedOut;
    if xs != [] {
      var x := xs[0];
      StepMirrors(c, t, x, h);
      var h' := if CarriedOut(c, t, x) then HierarchiesAfter(h, x.cc, HandleValues(x.req.handles), x.req.newAuth) else h;
      HierarchiesMirrored(c, Step(c, t, x), xs[1..], h');
    }
  }

  // ---------- what a dispatch records and clears ----------

  /** The settings of a dispatch are gone after it, captured or answered, unless it is to be repeated. */
  lemma SettingsAreOneShot(c: Crypto, t: Tss, x: Exchange)
    requires c.Valid() && ExchangeOk(x)
    ensures var out, t' := OutStep(c, Armed(t, x), x.sessions, x.hasDevice, x.cc, x.req, x.nonces), Step(c, t, x);
            out.Captured? || (out.Sent? && Num(x.response, 6, 4) != 0x922) ==>
              !t'.allowErrors && !t'.demandError && t'.expectedError == 0 && t'.cpHash.None? && !t'.auditCommand && t'.pending == 0
  {
    hide Prepare, InStep, EncodeCommand, CpHashData, UpdateRequestHandles, FromBigEndian, StateAfter, HasError, HandlesFor;
    var a := Armed(t, x);
    var out := OutStep(c, a, x.sessions, x.hasDevice, x.cc, x.req, x.nonces);
    if out.Sent? && Num(x.response, 6, 4) != RC_RETRY {
      SentHandles(c, a, x);
      ResponseClears(c, out.tss, out.sessions, x.cc, x.resp, x.response);
    }
  }

  lemma ResponseClears(c: Crypto, t: Tss, ss: seq<Session>, cc: nat, resp: Response, b: ByteVec)
    requires c.Valid() && ResponseOk(resp) && HandlesFor(cc, t) && t.pending == cc != 0 && EncOk(t.encSession, ss)
    requires (t.auditCommand ==> t.auditAlg != ALG_NULL) && |b| >= 10 && Num(b, 2, 4) == |b| && Num(b, 6, 4) != RC_RETRY
    ensures Cleared(StateAfter(InStep(c, t, ss, cc, resp, b)))
  {
    hide FromBigEndian, BareCode, Complete, CompleteUpdate, ThrowsOn;
    var t1 := t.(pending := 0, lastResponseCode := BareCode(Num(b, 6, 4)));
    var t2 := if Num(b, 6, 4) == 0 then CompleteUpdate(cc, t1) else t1;
    UpdateKeepsEnc(cc, t1);
    CompleteClears(c, ClearInvocation(t2), ss, cc, resp, t.auditCommand, Num(b, 0, 2), b);
  }

  predicate Cleared(t: Tss) {
    !t.allowErrors && !t.demandError && t.expectedError == 0 && t.cpHash.None? && !t.auditCommand && t.pending == 0
  }

  lemma UpdateKeepsEnc(cc: nat, t: Tss)
    requires HandlesFor(cc, t)
    ensures CompleteUpdate(cc, t).encSession == t.encSession
  {}

  lemma CompleteClears(c: Crypto, t: Tss, ss: seq<Session>, cc: nat, resp: Response, audit: bool, tag: nat, b: ByteVec)
    requires c.Valid() && ResponseOk(resp) && |b| >= 10 && EncOk(t.encSession, ss) && Cleared(t)
    ensures Cleared(StateAfter(Complete(c, t, ss, cc, resp, audit, tag, b)))
  {
    hide Open, XcryptAt, RpHashData;
  }

  /** A captured command gives the hash of command code, names and parameters. */
  lemma CapturedIsCpHash(c: Crypto, t: Tss, x: Exchange, names: Names)
    requires c.Valid() && ExchangeOk(x) && forall i | 0 <= i < |x.req.handles| :: NameKnown(names, x.req.handles[i])
    requires OutStep(c, Armed(t, x), x.sessions, x.hasDevice, x.cc, x.req, x.nonces).Captured?
    ensures x.cpHash.Some?
    ensures OutStep(c, Armed(t, x), x.sessions, x.hasDevice, x.cc, x.req, x.nonces).digest
         == c.hash(x.cpHash.value, BigEndian(x.cc, 4) + NameBytes(names, HandleValues(x.req.handles)) + WireParams(c, t, x))
  {
    hide EncodeCommand, CpHashData, Padded, Prepare, UpdateRequestHandles, BigEndian, NameBytes, NameKnown;
    var a := Armed(t, x);
    PreparedData(c, a, x.sessions, x.cc, x.req, x.nonces);
    SameNames(names, x.req.handles);
    CpHashAgrees(names, x.cc, x.req.handles, WireParams(c, t, x));
  }

  /** What is remembered of the object of a command until the response arrives, by command code. */
  lemma RememberedObject(cc: nat, t: Tss, req: Request)
    requires RequestOk(cc, req) && UpdateRequestHandles(cc, t, req).Success?
    ensures var t' := UpdateRequestHandles(cc, t, req).value.0;
            && (cc in {0x129, 0x13B, 0x150, 0x183, 0x186} ==> t'.objectInAuth == req.newAuth && t'.objectInName == [])
            && (cc in {0x157, 0x167} ==> t'.objectInName == req.objectName && t'.objectInAuth == t.objectInAuth)
            && (cc == 0x120 ==> t'.objectInAuth == req.handles[1].auth)
            && (cc !in {0x120, 0x129, 0x13B, 0x150, 0x157, 0x167, 0x183, 0x186} ==>
                  t'.objectInName == [] && t'.objectInAuth == t.objectInAuth)
  {
    hide GetName;
  }

  /** TPM2_EvictControl leaves the handles of its input as they are, for a persistent object as for a
      transient one; a name that follows from the value is filled in. */
  lemma EvictKeepsHandles(t: Tss, req: Request)
    requires RequestOk(0x120, req) && UpdateRequestHandles(0x120, t, req).Success?
    requires t.inHandles == RhHandles(t.admin, req.handles, |t.inHandles|)
    ensures var t' := UpdateRequestHandles(0x120, t, req).value.0;
            && HandlesFor(0x120, t')
            && var hs, hs' := t'.inHandles, CompleteUpdate(0x120, t').inHandles;
               && |hs'| == |hs| && hs'[0] == hs[0] && hs'[1].value == hs[1].value && GetName(hs'[1]) == GetName(hs[1])
               && (!t.admin.Has(hs[1].value) ==> hs'[1].auth == hs[1].auth)
  {
    hide BigEndian;
  }

  // ---------- the command audit digest ----------

  datatype Event =
    | Call(exchange: Exchange)
    | StartAudit(alg: nat, startVal: ByteVec)
    | EndAudit

  predicate EventOk(e: Event) {
    e.Call? ==> ExchangeOk(e.exchange)
  }

  function EventStep(c: Crypto, t: Tss, e: Event): Tss
    requires c.Valid() && EventOk(e)
  {
    match e
    case Call(x) => Step(c, t, x)
    case StartAudit(alg, startVal) => t.(auditAlg := alg, auditDigest := startVal)
    case EndAudit => t.(auditAlg := ALG_NULL, auditCommand := false)
  }

  function AfterEvents(c: Crypto, t: Tss, es: seq<Event>): Tss
    requires c.Valid() && forall i | 0 <= i < |es| :: EventOk(es[i])
    decreases |es|
  {
    hide EventStep, EventOk;
    if es == [] then t else AfterEvents(c, EventStep(c, t, es[0]), es[1..])
  }

  /** The parameters in the command that was sent. */
  function WireParams(c: Crypto, t: Tss, x: Exchange): ByteVec
    requires c.Valid() && ExchangeOk(x)
  {
    match Prepare(c, Armed(t, x), x.sessions, x.cc, x.req, x.nonces)
    case Success(p) => p.frame.params
    case Failure(_) => []
  }

  /** What an exchange adds to the audit log: nothing unless it was audited, sent, carried out,
      wanted, and its response was accepted; then the hash of the command followed by the hash of
      the response. */
  function AuditEntry(c: Crypto, t: Tss, x: Exchange): Option<ByteVec>
    requires c.Valid() && ExchangeOk(x)
  {
    var out := OutStep(c, Armed(t, x), x.sessions, x.hasDevice, x.cc, x.req, x.nonces);
    if !x.audit || !out.Sent? then None else
    SentHandles(c, Armed(t, x), x);
    match (Accepted(c, out.tss, out.sessions, x.cc, x.resp, x.response), CpHashData(x.cc, x.req.handles, WireParams(c, t, x)))
    case (Some(o), Success(command)) => Some(c.hash(t.auditAlg, command) + c.hash(t.auditAlg, AnsweredText(x.cc, o.params)))
    case _ => None
  }

  /** The digest of a log that starts at `start`. */
  function FoldExtend(c: Crypto, alg: nat, start: ByteVec, entries: seq<ByteVec>): ByteVec {
    if entries == [] then start else c.Extend(alg, FoldExtend(c, alg, start, entries[..|entries| - 1]), entries[|entries| - 1])
  }

  datatype Log = Log(alg: nat, start: ByteVec, entries: seq<ByteVec>)

  function LogStep(c: Crypto, t: Tss, e: Event, log: Log): Log
    requires c.Valid() && EventOk(e)
  {
    hide AuditEntry;
    match e
    case Call(x) => (match AuditEntry(c, t, x) case Some(entry) => log.(entries := log.entries + [entry]) case None => log)
    case StartAudit(alg, startVal) => Log(alg, startVal, [])
    case EndAudit => log
  }

  /** The audit log after a history: what was audited since the last _StartAudit, in order. */
  function LogAfter(c: Crypto, t: Tss, es: seq<Event>, log: Log): Log
    requires c.Valid() && forall i | 0 <= i < |es| :: EventOk(es[i])
    decreases |es|
  {
    hide EventStep, LogStep, EventOk;
    if es == [] then log else LogAfter(c, EventStep(c, t, es[0]), es[1..], LogStep(c, t, es[0], log))
  }

  /** Names, and so the hashed command, do not depend on the auth values of the handles. */
  lemma {:induction false} AppendNamesKept(acc: ByteVec, hs: seq<Handle>, hs': seq<Handle>)
    requires |hs'| == |hs| && forall i | 0 <= i < |hs| :: hs'[i].value == hs[i].value && hs'[i].name == hs[i].name
    ensures AppendNames(acc, hs') == AppendNames(acc, hs)
    decreases |hs|
  {
    hide BigEndian;
    if hs != [] {
      assert GetName(hs'[0]) == GetName(hs[0]);
      var name := GetName(hs[0]);
      if name.Success? {
        AppendNamesKept(acc + name.value, hs[1..], hs'[1..]);
      }
    }
  }

  /** What Prepare hashes, or leaves to be hashed later, is the command it frames. */
  lemma PreparedData(c: Crypto, t: Tss, ss: seq<Session>, cc: nat, req: Request, nonces: seq<ByteVec>)
    requires c.Valid() && RequestOk(cc, req)
    requires |Padded(ss, req.numAuth)| <= |nonces| && PwapHandles(Padded(ss, req.numAuth), req.handles)
    requires Prepare(c, t, ss, cc, req, nonces).Success?
    ensures var p := Prepare(c, t, ss, cc, req, nonces).value;
            var data := CpHashData(cc, req.handles, p.frame.params);
            && p.frame.params == p.params
            && (p.data.Some? ==> data == Success(p.data.value))
            && CpHashData(cc, p.handles, p.params) == data
  {
    hide EncodeCommand, SentParams, AuthEntries, LastWith, GetName, Padded, AppendNames, BigEndian;
    var hs := Prepare(c, t, ss, cc, req, nonces).value.handles;
    assert |hs| == |req.handles| && forall i | 0 <= i < |hs| :: hs[i].value == req.handles[i].value && hs[i].name == req.handles[i].name;
    AppendNamesKept(BigEndian(cc, 4), req.handles, hs);
  }

  /** An audited command that was sent is remembered by its hash. */
  lemma AuditedHash(c: Crypto, t: Tss, x: Exchange)
    requires c.Valid() && ExchangeOk(x) && x.audit
    requires OutStep(c, Armed(t, x), x.sessions, x.hasDevice, x.cc, x.req, x.nonces).Sent?
    ensures var data := CpHashData(x.cc, x.req.handles, WireParams(c, t, x));
            data.Success? && OutStep(c, Armed(t, x), x.sessions, x.hasDevice, x.cc, x.req, x.nonces).tss.auditCpHash
                             == c.hash(t.auditAlg, data.value)
  {
    hide EncodeCommand, CpHashData, Padded, Prepare, UpdateRequestHandles, FromBigEndian;
    var a := Armed(t, x);
    SentIsPrepared(c, a, x.sessions, x.hasDevice, x.cc, x.req, x.nonces);
    PreparedData(c, a, x.sessions, x.cc, x.req, x.nonces);
    var p := Prepare(c, a, x.sessions, x.cc, x.req, x.nonces).value;
    var data := CpHashData(x.cc, x.req.handles, p.params);
    var t1 := p.tss.(auditCpHash := c.hash(a.auditAlg, data.value));
    UpdateKeeps(x.cc, t1.(lastCommandBuf := EncodeCommand(p.frame)), x.req);
  }

  lemma StepAudits(c: Crypto, t: Tss, x: Exchange)
    requires c.Valid() && ExchangeOk(x)
    ensures var t', e := Step(c, t, x), AuditEntry(c, t, x);
            && t'.auditAlg == t.auditAlg && (e.Some? ==> t.auditAlg != ALG_NULL)
            && t'.auditDigest == if e.Some? then c.Extend(t.auditAlg, t.auditDigest, e.value) else t.auditDigest
  {
    hide OutStep, InStep, FromBigEndian, BareCode, CompleteUpdate, WholeResponse, StateAfter, CpHashData, WireParams, Accepted,
      RpHashData, AnsweredText;
    var a := Armed(t, x);
    var out := OutStep(c, a, x.sessions, x.hasDevice, x.cc, x.req, x.nonces);
    if out.Captured? {
      CapturedKeeps(c, a, x);
    } else if out.Sent? {
      SentHandles(c, a, x);
      ResponseEffects(c, out.tss, out.sessions, x.cc, x.resp, x.response);
      if x.audit {
        AuditedHash(c, t, x);
        forall params: ByteVec
          ensures RpHashData(x.cc, params) == AnsweredText(x.cc, params)
        {
          RpHashAgrees(x.cc, params);
        }
      }
    }
  }

  lemma EventAudits(c: Crypto, t: Tss, e: Event, log: Log)
    requires c.Valid() && EventOk(e)
    requires t.auditDigest == FoldExtend(c, log.alg, log.start, log.entries)
    requires t.auditAlg == log.alg || t.auditAlg == ALG_NULL
    ensures var t', log' := EventStep(c, t, e), LogStep(c, t, e, log);
            && t'.auditDigest == FoldExtend(c, log'.alg, log'.start, log'.entries)
            && (t'.auditAlg == log'.alg || t'.auditAlg == ALG_NULL)
  {
    hide Step, AuditEntry, ExchangeOk;
    match e
    case Call(x) =>
      StepAudits(c, t, x);
      var entry := AuditEntry(c, t, x);
      assert entry.Some? ==> (log.entries + [entry.value])[..|log.entries|] == log.entries;
    case StartAudit(_, _) =>
    case EndAudit =>
  }

  /** The audit digest after any history is the fold of Extend over the audit log, in order. */
  lemma {:induction false} AuditDigestIsFold(c: Crypto, t: Tss, es: seq<Event>, log: Log)
    requires c.Valid() && forall i | 0 <= i < |es| :: EventOk(es[i])
    requires t.auditDigest == FoldExtend(c, log.alg, log.start, log.entries)
    requires t.auditAlg == log.alg || t.auditAlg == ALG_NULL
    ensures var log' := LogAfter(c, t, es, log);
            AfterEvents(c, t, es).auditDigest == FoldExtend(c, log'.alg, log'.start, log'.entries)
    decreases |es|
  {
    hide EventStep, EventOk, LogStep, FoldExtend;
    if es != [] {
      EventAudits(c, t, es[0], log);
      AuditDigestIsFold(c, EventStep(c, t, es[0]), es[1..], LogStep(c, t, es[0], log));
    }
  }
}
