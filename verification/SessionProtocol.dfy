/** One dispatch over one HMAC session against the honest TPM: the TPM accepts every command
    that DispatchOut sends, and exactly when DispatchIn accepts the TPM's response. */
module SessionProtocol {
  import opened Bytes
  import opened Sequences
  import opened CryptoModel
  import opened Wrappers
  import opened TpmBuffers
  import opened WireFormat
  import opened CommandFrames
  import opened SessionModel
  import opened DispatchSpec
  import opened HonestTpm

  // ---------- what the two sides agree on ----------

  /** The session in slot 0, password sessions for the remaining auth handles. */
  predicate Slots(ss: seq<Session>) {
    |ss| >= 1 && !ss[0].IsPwap() && forall i | 1 <= i < |ss| :: ss[i].IsPwap()
  }

  /** Both sides hold the same session, and both know what it is bound to. */
  predicate SameSession(s: Session, tpm: Tpm) {
    && s.handle.value == tpm.session.handle < 0x1_0000_0000 && s.handle.auth == [] && !s.IsPwap()
    && s.sessionType == HMAC && !s.needsPassword
    && s.hashAlg == tpm.session.hashAlg && s.sessionKey == tpm.session.sessionKey && s.symmetric == tpm.session.symmetric
    && s.nonceTpm == tpm.session.nonceTpm
    && s.attributes as int % 2 == 1
    && (s.bindObject.value == RH_NULL <==> tpm.session.bindName.None?)
  }

  /** The auth value of the bound entity is what it was at the binding, or empty. */
  predicate BindHolds(tpm: Tpm, bind: nat) {
    tpm.session.bindName.Some? ==> EntityAuth(tpm, bind) in {tpm.session.bindAuth, []}
  }

  /** The TSS is ready for the next command and mirrors the TPM. */
  predicate InSync(t: Tss, s: Session, tpm: Tpm) {
    && t.pending == 0
    && SameSession(s, tpm) && BindHolds(tpm, s.bindObject.value)
    && t.admin.Trimmed() == tpm.hierarchies
  }

  /** A handle that needs a name carries the TPM's. */
  predicate NameKnown(names: Names, h: Handle) {
    NamedByValue(h.value) || (h.value / 0x100_0000 in {0x01, 0x80, 0x81} && h.name == names.ofObject(h.value) != [])
  }

  /** Then both sides use the same name. */
  lemma SameNames(names: Names, hs: seq<Handle>)
    requires forall i | 0 <= i < |hs| :: NameKnown(names, hs[i])
    ensures forall i | 0 <= i < |hs| :: GetName(hs[i]) == Success(names.of(hs[i].value))
  {
    hide BigEndian;
  }

  /** The names the TSS has are the TPM's, and only the bound entity has the name bound to. */
  predicate NamesAgree(names: Names, s: Session, tpm: Tpm, hs: seq<Handle>) {
    && (forall i | 0 <= i < |hs| :: NameKnown(names, hs[i]))
    && (tpm.session.bindName.Some? && hs != [] ==>
          (names.of(hs[0].value) == tpm.session.bindName.value <==> hs[0].value == s.bindObject.value))
  }

  /** The auth value that goes with a handle is right; those of hierarchies are filled in by the TSS. */
  predicate AuthKnown(tpm: Tpm, h: Handle) {
    tpm.hierarchies.Has(h.value) || Trim(h.auth) == EntityAuth(tpm, h.value)
  }

  /** The same for the handle that the session authorizes, but that its auth value is not needed if
      the session is bound to it. */
  predicate FirstAuthKnown(s: Session, tpm: Tpm, req: Request)
    requires req.numAuth <= |req.handles|
  {
    req.numAuth > 0 ==> req.handles[0].value in {RH_PW, s.bindObject.value} || AuthKnown(tpm, req.handles[0])
  }

  /** The handles behind the first are authorized by password. */
  predicate PasswordsKnown(tpm: Tpm, req: Request)
    requires req.numAuth <= |req.handles|
  {
    forall i | 1 <= i < req.numAuth :: AuthKnown(tpm, req.handles[i])
  }

  /** The caller put the right auth values into the handles that need them. */
  predicate AuthsKnown(s: Session, tpm: Tpm, req: Request)
    requires req.numAuth <= |req.handles|
  {
    FirstAuthKnown(s, tpm, req) && PasswordsKnown(tpm, req)
  }

  // ---------- the HMAC key ----------

  /** When both sides put the same auth value into the HMAC key of a request: the first handle needs
      none, or carries the right one. */
  predicate RequestKeyFits(s: Session, tpm: Tpm, hs: seq<Handle>, numAuth: nat)
    requires numAuth <= |hs|
  {
    numAuth > 0 ==> hs[0].value in {RH_PW, s.bindObject.value} || Trim(hs[0].auth) == EntityAuth(tpm, hs[0].value)
  }

  lemma KeysAgreeIff(s: Session, tpm: Tpm, names: Names, hs: seq<Handle>, numAuth: nat)
    requires SameSession(s, tpm) && BindHolds(tpm, s.bindObject.value) && NamesAgree(names, s, tpm, hs)
    requires numAuth <= |hs|
    ensures HmacAuth(s, if numAuth > 0 then Some(hs[0]) else None) == KeyAuth(tpm, names, HandleValues(hs), numAuth)
       <==> RequestKeyFits(s, tpm, hs, numAuth)
  {
    hide GetName, Trim;
  }

  lemma {:induction false} LastWithSlots(ss: seq<Session>, decrypt: bool)
    requires Slots(ss)
    ensures LastWith(ss, decrypt)
         == if (if decrypt then ss[0].Decrypts() else ss[0].Encrypts()) then Some(0) else None
  {
    if |ss| > 1 {
      LastWithSlots(ss[..|ss| - 1], decrypt);
    }
  }

  /** With the session in slot 0 no other session's nonce enters its HMAC. */
  lemma NoForeignNonces(ss: seq<Session>)
    requires Slots(ss)
    ensures DecNonce(ss) == [] && EncNonce(ss) == []
  {
    LastWithSlots(ss, true);
    LastWithSlots(ss, false);
  }

  lemma {:induction false} NamesAppended(names: Names, acc: ByteVec, hs: seq<Handle>)
    requires forall i | 0 <= i < |hs| :: GetName(hs[i]) == Success(names.of(hs[i].value))
    ensures var r := AppendNames(acc, hs);
            r.Success? ==> r.value == acc + NameBytes(names, HandleValues(hs))
    decreases |hs|
  {
    hide GetName;
    if hs == [] {
      assert acc + [] == acc;
    } else {
      var name := names.of(hs[0].value);
      assert GetName(hs[0]) == Success(name);
      NamesAppended(names, acc + name, hs[1..]);
      assert HandleValues(hs)[1..] == HandleValues(hs[1..]);
      assert acc + name + NameBytes(names, HandleValues(hs[1..])) == acc + (name + NameBytes(names, HandleValues(hs[1..])));
    }
  }

  /** The TSS hashes for the command what the TPM hashes. */
  lemma CpHashAgrees(names: Names, cc: nat, hs: seq<Handle>, params: ByteVec)
    requires forall i | 0 <= i < |hs| :: GetName(hs[i]) == Success(names.of(hs[i].value))
    ensures var r := CpHashData(cc, hs, params);
            r.Success? ==> r.value == BigEndian(cc, 4) + NameBytes(names, HandleValues(hs)) + params
  {
    hide GetName, AppendNames, NameBytes, BigEndian;
    NamesAppended(names, BigEndian(cc, 4), hs);
  }

  // ---------- the request ----------

  lemma {:induction false} EntryWithin(auths: seq<AuthCommand>, i: nat)
    requires i < |auths|
    ensures |EncodeAuth(auths[i])| <= |EncodeAuths(auths)|
    ensures |auths[i].nonce| + |auths[i].hmac| <= |EncodeAuth(auths[i])|
  {
    if i > 0 {
      EntryWithin(auths[1..], i - 1);
    }
  }

  /** `t` but for what DispatchOut and its helpers may set. */
  predicate SameBut(t: Tss, t': Tss) {
    && t'.admin == t.admin && t'.cpHash == t.cpHash
    && t'.demandError == t.demandError && t'.allowErrors == t.allowErrors && t'.expectedError == t.expectedError
    && t'.auditCommand == t.auditCommand && t'.auditAlg == t.auditAlg && t'.auditDigest == t.auditDigest
  }

  predicate SameFraming(t: Tss, t': Tss) {
    && t'.inHandles == t.inHandles && t'.sessTag == t.sessTag && t'.encSession == t.encSession
    && t'.nonceTpmDec == t.nonceTpmDec && t'.nonceTpmEnc == t.nonceTpmEnc
  }

  lemma UpdateKeeps(cc: nat, t: Tss, req: Request)
    requires RequestOk(cc, req) && UpdateRequestHandles(cc, t, req).Success?
    ensures var (t', req') := UpdateRequestHandles(cc, t, req).value;
            && SameBut(t, t') && SameFraming(t, t') && UpdatedAs(cc, req, t'.objectInAuth, req')
            && t'.lastCommandBuf == t.lastCommandBuf && t'.auditCpHash == t.auditCpHash
  {
    hide GetName;
  }

  lemma PrepareKeeps(c: Crypto, t: Tss, ss: seq<Session>, cc: nat, req: Request, nonces: seq<ByteVec>)
    requires c.Valid() && RequestOk(cc, req)
    requires |Padded(ss, req.numAuth)| <= |nonces| && PwapHandles(Padded(ss, req.numAuth), req.handles)
    requires Prepare(c, t, ss, cc, req, nonces).Success?
    ensures SameBut(t, Prepare(c, t, ss, cc, req, nonces).value.tss)
  {
    hide EncodeCommand, SentParams, CpHashData, AuthEntries, LastWith, GetName, Rolled, Padded, RhHandles;
  }

  /** What a sent command consists of. */
  lemma SentIsPrepared(c: Crypto, t: Tss, ss: seq<Session>, hasDevice: bool, cc: nat, req: Request, nonces: seq<ByteVec>)
    requires c.Valid() && RequestOk(cc, req)
    requires |Padded(ss, req.numAuth)| <= |nonces| && PwapHandles(Padded(ss, req.numAuth), req.handles)
    requires OutStep(c, t, ss, hasDevice, cc, req, nonces).Sent?
    ensures Prepare(c, t, ss, cc, req, nonces).Success?
    ensures var p, out := Prepare(c, t, ss, cc, req, nonces).value, OutStep(c, t, ss, hasDevice, cc, req, nonces);
            && |EncodeCommand(p.frame)| <= CAPACITY
            && out.sessions == p.sessions
            && out.tss.lastCommandBuf == EncodeCommand(p.frame)
            && out.tss.pending == cc && t.pending == 0
            && SameBut(t, out.tss) && SameFraming(p.tss, out.tss)
            && t.cpHash.None? && (t.auditCommand ==> t.auditAlg != ALG_NULL)
            && UpdatedAs(cc, req, out.tss.objectInAuth, out.req)
  {
    hide EncodeCommand, CpHashData, Padded, Prepare, UpdateRequestHandles, UpdatedAs;
    var p := Prepare(c, t, ss, cc, req, nonces).value;
    PrepareKeeps(c, t, ss, cc, req, nonces);
    var data := if p.data.Some? then Success(p.data.value)
                else if t.cpHash.Some? || t.auditCommand then CpHashData(cc, p.handles, p.params)
                else Success([]);
    assert data.Success?;
    var t1 := if t.auditCommand then p.tss.(auditCpHash := c.hash(t.auditAlg, data.value)) else p.tss;
    UpdateKeeps(cc, t1.(lastCommandBuf := EncodeCommand(p.frame)), req);
  }

  /** What UpdateRequestHandles records for the commands that change an auth value, and how it
      changes the request. */
  predicate UpdatedAs(cc: nat, req: Request, remembered: ByteVec, req': Request)
    requires RequestOk(cc, req)
  {
    && (ChangesAuth(cc) ==> remembered == req.newAuth)
    && req' == (if cc in {CC_HIERARCHY_CHANGE_AUTH, CC_NV_CHANGE_AUTH} then SetHandleAuth(req, req.newAuth)
                else if cc == CC_CLEAR then SetHandleAuth(req, [])
                else req)
  }

  /** The session list of a dispatch as it is sent: the session has a fresh nonce, the auth
      handles without a session get password sessions. */
  function SentSlots(ss: seq<Session>, n: nat, nonces: seq<ByteVec>): (r: seq<Session>)
    requires Slots(ss) && |Padded(ss, n)| <= |nonces|
    ensures Slots(r) && |r| == |Padded(ss, n)| && r[0] == ss[0].(nonceCaller := nonces[0])
  {
    Rolled(Padded(ss, n), nonces)
  }

  predicate Dispatchable(ss: seq<Session>, req: Request, nonces: seq<ByteVec>) {
    Slots(ss) && |ss| <= (if req.numAuth > 1 then req.numAuth else 1) && |Padded(ss, req.numAuth)| <= |nonces|
  }

  /** What DispatchOut prepares with the session in slot 0. */
  lemma PreparedSlots(c: Crypto, t: Tss, ss: seq<Session>, cc: nat, req: Request, nonces: seq<ByteVec>)
    requires c.Valid() && RequestOk(cc, req) && Dispatchable(ss, req, nonces)
    ensures PwapHandles(Padded(ss, req.numAuth), req.handles)
    ensures Prepare(c, t, ss, cc, req, nonces).Success? ==>
              var p := Prepare(c, t, ss, cc, req, nonces).value;
              var ss' := SentSlots(ss, req.numAuth, nonces);
              var hs := RhHandles(t.admin, req.handles, |ss'|);
              var data := CpHashData(cc, req.handles, p.params);
              && data.Success? && PwapHandles(ss', hs)
              && p.frame == Frame(cc, HandleValues(req.handles),
                                  Some(AuthEntries(c, ss', hs, req.numAuth, data.value, [], [])), p.params)
              && p.sessions == Authorized(ss', hs, req.numAuth)
              && p.tss.sessTag == TAG_SESSIONS && p.tss.inHandles == hs
              && p.tss.nonceTpmDec == [] && p.tss.nonceTpmEnc == []
              && p.tss.encSession == (if !ss[0].Decrypts() && ss[0].Encrypts() then Slot(0) else NoSession)
              && (if ss[0].Decrypts() then XcryptAt(c, ss'[0], req.params, 0, req.sizeLen, req.valLen, true) == Success(p.params)
                  else p.params == req.params)
  {
    hide EncodeCommand, CpHashData, AuthEntries, LastWith, DecNonce, EncNonce, GetName, RhHandles, XcryptAt;
    var ss' := SentSlots(ss, req.numAuth, nonces);
    LastWithSlots(ss', true);
    LastWithSlots(ss', false);
    NoForeignNonces(ss');
    assert NeedsCpHash(ss');
  }

  lemma EntryHandle(c: Crypto, ss: seq<Session>, hs: seq<Handle>, numAuth: nat, data: ByteVec, i: nat)
    requires i < |ss| && numAuth <= |hs| && PwapHandles(ss, hs)
    ensures AuthEntry(c, ss, hs, numAuth, data, [], [], i).handle == if ss[i].IsPwap() then RH_PW else ss[i].handle.value
  {
    hide GetAuthHmac;
  }

  /** The entries fit their fields because the whole command fits the buffer. */
  lemma SentFrameFits(c: Crypto, t: Tss, ss: seq<Session>, tpm: Tpm, cc: nat, req: Request, nonces: seq<ByteVec>)
    requires c.Valid() && RequestOk(cc, req) && Dispatchable(ss, req, nonces) && SameSession(ss[0], tpm)
    requires PwapHandles(Padded(ss, req.numAuth), req.handles)
    requires var p := Prepare(c, t, ss, cc, req, nonces);
             p.Success? && |EncodeCommand(p.value.frame)| <= CAPACITY
    ensures FrameFits(Prepare(c, t, ss, cc, req, nonces).value.frame)
  {
    hide CpHashData, AuthEntries, EncodeAuths, EncodeCommand, Body, Prepare, RhHandles, Padded, SentSlots, HandleValues, AuthFits;
    PreparedSlots(c, t, ss, cc, req, nonces);
    var f := Prepare(c, t, ss, cc, req, nonces).value.frame;
    CommandParts(f);
    var ss' := SentSlots(ss, req.numAuth, nonces);
    var hs := RhHandles(t.admin, req.handles, |ss'|);
    EntriesFitFields(c, ss', hs, req.numAuth, CpHashData(cc, req.handles, f.params).value, tpm);
    ValuesFit(req.handles);
  }

  lemma ValuesFit(hs: seq<Handle>)
    requires forall i | 0 <= i < |hs| :: hs[i].value < 0x1_0000_0000
    ensures forall i | 0 <= i < |hs| :: HandleValues(hs)[i] < 0x1_0000_0000
  {}

  lemma CommandParts(f: Frame)
    requires f.auths.Some?
    ensures |EncodeAuths(f.auths.value)| <= 10 + |Body(f)| == |EncodeCommand(f)|
  {
    hide EncodeAuths, EncodeHandles, BigEndian;
  }

  lemma EntriesFitFields(c: Crypto, ss: seq<Session>, hs: seq<Handle>, numAuth: nat, data: ByteVec, tpm: Tpm)
    requires Slots(ss) && numAuth <= |hs| && PwapHandles(ss, hs) && SameSession(ss[0], tpm)
    requires |EncodeAuths(AuthEntries(c, ss, hs, numAuth, data, [], []))| <= CAPACITY
    ensures var auths := AuthEntries(c, ss, hs, numAuth, data, [], []);
            forall i | 0 <= i < |auths| :: AuthFits(auths[i])
  {
    hide EncodeAuth, EncodeAuths, AuthEntry;
    var auths := AuthEntries(c, ss, hs, numAuth, data, [], []);
    forall i | 0 <= i < |auths|
      ensures AuthFits(auths[i])
    {
      EntryWithin(auths, i);
      EntryHandle(c, ss, hs, numAuth, data, i);
    }
  }

  /** The auth values next to the handles of a command, once those of the hierarchies are set. */
  lemma HandleAuths(admin: Hierarchies, s: Session, tpm: Tpm, req: Request, n: nat)
    requires admin.Trimmed() == tpm.hierarchies && req.numAuth <= |req.handles| && req.numAuth <= n
    ensures var hs := RhHandles(admin, req.handles, n);
            && HandleValues(hs) == HandleValues(req.handles)
            && (forall i | 0 <= i < |hs| :: hs[i].value == req.handles[i].value && hs[i].name == req.handles[i].name)
            && (RequestKeyFits(s, tpm, hs, req.numAuth) <==> FirstAuthKnown(s, tpm, req))
            && (PasswordsKnown(tpm, req) ==> forall i | 1 <= i < req.numAuth :: Trim(hs[i].auth) == EntityAuth(tpm, hs[i].value))
  {
    hide Trim;
  }

  /** The auth value that the TSS puts into the HMAC key of a request. */
  function OwnKeyAuth(s: Session, admin: Hierarchies, req: Request): ByteVec
    requires req.numAuth <= |req.handles|
  {
    HmacAuth(s, if req.numAuth > 0 then Some(RhHandles(admin, req.handles, 1)[0]) else None)
  }

  /** What is authenticated in a request. */
  function RequestData(c: Crypto, s: Session, data: ByteVec, nonce: ByteVec): ByteVec {
    SignedText(c.hash(s.hashAlg, data), nonce, s.nonceTpm, s.attributes)
  }

  lemma OneSessionText(parmHash: ByteVec, newer: ByteVec, older: ByteVec, attributes: byte)
    ensures HmacData(parmHash, newer, older, [], [], attributes) == SignedText(parmHash, newer, older, attributes)
  {
    HmacDataIs(parmHash, newer, older, [], [], attributes);
  }

  /** The entry of the session in slot 0. */
  lemma SlotEntry(c: Crypto, ss: seq<Session>, hs: seq<Handle>, numAuth: nat, data: ByteVec, tpm: Tpm)
    requires Slots(ss) && numAuth <= |hs| && PwapHandles(ss, hs) && SameSession(ss[0], tpm)
    ensures AuthEntry(c, ss, hs, numAuth, data, [], [], 0)
         == AuthCommand(ss[0].handle.value, ss[0].nonceCaller, ss[0].attributes,
                        c.hmac(ss[0].hashAlg, ss[0].sessionKey + HmacAuth(ss[0], if numAuth > 0 then Some(hs[0]) else None),
                               RequestData(c, ss[0], data, ss[0].nonceCaller)))
  {
    hide HmacAuth, HmacData;
    OneSessionText(c.hash(ss[0].hashAlg, data), ss[0].nonceCaller, ss[0].nonceTpm, ss[0].attributes);
    var own := if numAuth > 0 then Some(hs[0]) else None;
    var s' := if 0 < numAuth then ss[0].(authValue := hs[0].auth) else ss[0];
    SameHmacAuth(ss[0], s', own);
  }

  /** The key does not depend on the nonces, the attributes or the recorded auth value. */
  lemma SameHmacAuth(s: Session, s': Session, own: Option<Handle>)
    requires s'.handle == s.handle && s'.sessionType == s.sessionType && s'.bindObject == s.bindObject
    requires s'.needsHmac == s.needsHmac
    ensures HmacAuth(s', own) == HmacAuth(s, own)
  {}

  /** The verdict of a TPM that holds the session on the command with that session in slot 0: only the
      HMAC decides. */
  lemma CommandVerdict(c: Crypto, t: Tss, ss: seq<Session>, tpm: Tpm, names: Names, cc: nat, req: Request, nonces: seq<ByteVec>)
    requires c.Valid() && RequestOk(cc, req) && Dispatchable(ss, req, nonces) && InSync(t, ss[0], tpm)
    requires NamesAgree(names, ss[0], tpm, req.handles) && PasswordsKnown(tpm, req)
    requires PwapHandles(Padded(ss, req.numAuth), req.handles) && Prepare(c, t, ss, cc, req, nonces).Success?
    ensures var p := Prepare(c, t, ss, cc, req, nonces).value;
            var data := CpHashData(cc, req.handles, p.params);
            && data.Success?
            && var own, theirs := OwnKeyAuth(ss[0], t.admin, req), KeyAuth(tpm, names, HandleValues(req.handles), req.numAuth);
               var key, hashed := ss[0].sessionKey, RequestData(c, ss[0], data.value, nonces[0]);
               ChecksOut(c, tpm, names, p.frame, req.numAuth)
               <==> c.hmac(ss[0].hashAlg, key + own, hashed) == c.hmac(ss[0].hashAlg, key + theirs, hashed)
  {
    hide Trim, GetName, HmacData, HmacAuth, KeyAuth, Prepare, CpHashData, AuthEntry, RhHandles, SentSlots, BindHolds,
      BigEndian, NameBytes, NameKnown, SignedText, EntityAuth, FirstAuthKnown, PasswordsKnown, RequestKeyFits;
    PreparedSlots(c, t, ss, cc, req, nonces);
    var f := Prepare(c, t, ss, cc, req, nonces).value.frame;
    var ss' := SentSlots(ss, req.numAuth, nonces);
    var hs := RhHandles(t.admin, req.handles, |ss'|);
    var data := CpHashData(cc, req.handles, f.params).value;
    SameNames(names, req.handles);
    CpHashAgrees(names, cc, req.handles, f.params);
    HandleAuths(t.admin, ss[0], tpm, req, |ss'|);
    SlotEntry(c, ss', hs, req.numAuth, data, tpm);
    OwnOfSent(ss[0], ss'[0], t.admin, req, |ss'|);
    forall i | 1 <= i < |f.auths.value|
      ensures PasswordOk(tpm, f, i)
    {
      PasswordEntry(c, ss', hs, req.numAuth, data, i);
    }
  }

  lemma OwnOfSent(s: Session, s': Session, admin: Hierarchies, req: Request, n: nat)
    requires req.numAuth <= |req.handles| && n >= 1 && s' == s.(nonceCaller := s'.nonceCaller)
    ensures HmacAuth(s', if req.numAuth > 0 then Some(RhHandles(admin, req.handles, n)[0]) else None) == OwnKeyAuth(s, admin, req)
  {
    hide Trim, SetRhAuthValue;
  }

  /** Both sides use the same key exactly if the auth value of the first handle is known. */
  lemma RequestKeysAgreeIff(t: Tss, s: Session, tpm: Tpm, names: Names, req: Request)
    requires InSync(t, s, tpm) && NamesAgree(names, s, tpm, req.handles) && req.numAuth <= |req.handles|
    ensures OwnKeyAuth(s, t.admin, req) == KeyAuth(tpm, names, HandleValues(req.handles), req.numAuth) <==> FirstAuthKnown(s, tpm, req)
  {
    hide GetName, Trim, KeyAuth, HmacAuth, SameSession, BindHolds, EntityAuth;
    if req.numAuth > 0 {
      var n := req.numAuth;
      HandleAuths(t.admin, s, tpm, req, n);
      var hs := RhHandles(t.admin, req.handles, n);
      assert hs[0] == RhHandles(t.admin, req.handles, 1)[0];
      NamesKept(names, req.handles, hs);
      KeysAgreeIff(s, tpm, names, hs, n);
    } else {
      KeysAgreeIff(s, tpm, names, req.handles, 0);
    }
  }

  /** The command of a caller who knows the auth values is what the TPM expects. */
  lemma CommandAuthorized(c: Crypto, t: Tss, ss: seq<Session>, tpm: Tpm, names: Names, cc: nat, req: Request,
                          nonces: seq<ByteVec>)
    requires c.Valid() && RequestOk(cc, req) && Dispatchable(ss, req, nonces) && InSync(t, ss[0], tpm)
    requires NamesAgree(names, ss[0], tpm, req.handles) && AuthsKnown(ss[0], tpm, req)
    requires PwapHandles(Padded(ss, req.numAuth), req.handles) && Prepare(c, t, ss, cc, req, nonces).Success?
    ensures ChecksOut(c, tpm, names, Prepare(c, t, ss, cc, req, nonces).value.frame, req.numAuth)
  {
    hide Prepare, CpHashData, NamesAgree, InSync, ChecksOut, KeyAuth, OwnKeyAuth, RequestData, FirstAuthKnown, PasswordsKnown, RequestOk;
    ShapeOf(cc, req);
    CommandVerdict(c, t, ss, tpm, names, cc, req, nonces);
    RequestKeysAgreeIff(t, ss[0], tpm, names, req);
  }

  lemma ShapeOf(cc: nat, req: Request)
    requires RequestOk(cc, req)
    ensures req.numAuth <= |req.handles| && cc != 0
  {}

  lemma PasswordEntry(c: Crypto, ss: seq<Session>, hs: seq<Handle>, numAuth: nat, data: ByteVec, i: nat)
    requires i < |ss| && numAuth <= |hs| && PwapHandles(ss, hs) && ss[i].IsPwap()
    ensures AuthEntry(c, ss, hs, numAuth, data, [], [], i) == AuthCommand(RH_PW, [], CONTINUE_SESSION, hs[i].auth)
  {}

  /** A handle's name does not depend on its auth value. */
  lemma NamesKept(names: Names, hs: seq<Handle>, hs': seq<Handle>)
    requires |hs'| == |hs| && forall i | 0 <= i < |hs| :: hs'[i].value == hs[i].value && hs'[i].name == hs[i].name
    requires forall i | 0 <= i < |hs| :: NameKnown(names, hs[i])
    ensures forall i | 0 <= i < |hs| :: NameKnown(names, hs'[i])
  {}

  // ---------- the response ----------

  /** DispatchIn hashes of a successful response what the TPM hashes. */
  lemma RpHashAgrees(cc: nat, params: ByteVec)
    ensures RpHashData(cc, params) == AnsweredText(cc, params)
  {
    assert BigEndian(0, 1) == [0] && BigEndian(0, 2) == [0, 0] && BigEndian(0, 3) == [0, 0, 0];
    assert BigEndian(0, 4) == [0, 0, 0, 0];
  }

  /** The commands that change an auth value are sent for the entities they are meant for. */
  predicate Sensible(cc: nat, hs: seq<Handle>, tpm: Tpm)
    requires ChangesAuth(cc) || cc == CC_CLEAR ==> hs != []
  {
    && (cc == CC_HIERARCHY_CHANGE_AUTH || cc == CC_CLEAR ==> tpm.hierarchies.Has(hs[0].value))
    && (cc == CC_NV_CHANGE_AUTH || cc == CC_PCR_SET_AUTH_VALUE ==>
          !tpm.hierarchies.Has(hs[0].value) && hs[0].value != RH_NULL && hs[0].value != RH_PW)
  }

  /** When DispatchIn computes the response HMAC with the TPM's key. It uses the first handle of
      the command even if that needs no authorization, it does not notice that TPM2_Clear emptied
      the auth value of the handle that authorized it, and it treats an entity as bound after its
      auth value was changed. */
  predicate ResponseKeyFits(cc: nat, s: Session, tpm: Tpm, hs: seq<Handle>, numAuth: nat, newAuth: ByteVec) {
    if hs == [] then true
    else if numAuth == 0 then hs[0].value == RH_PW || hs[0].value == s.bindObject.value || Trim(hs[0].auth) == []
    else if hs[0].value == s.bindObject.value then ChangesAuth(cc) ==> Trim(newAuth) == tpm.session.bindAuth || Trim(newAuth) == []
    else cc == CC_CLEAR && hs[0].value in {RH_OWNER, RH_ENDORSEMENT, RH_LOCKOUT} ==> Trim(hs[0].auth) == []
  }

  /** The auth values next to the first handle before and after CompleteUpdate. */
  predicate FirstAuthUpdated(cc: nat, hs: seq<Handle>, hs': seq<Handle>, newAuth: ByteVec) {
    && |hs'| == |hs|
    && (hs != [] ==> hs'[0].value == hs[0].value && hs'[0].auth == if ChangesAuth(cc) then newAuth else hs[0].auth)
  }

  /** The exact condition under which both sides use the same key for the response. */
  lemma ResponseKeysAgreeIff(s: Session, tpm: Tpm, tpm': Tpm, names: Names, cc: nat, hs: seq<Handle>, hs': seq<Handle>,
                             numAuth: nat, newAuth: ByteVec)
    requires SameSession(s, tpm) && BindHolds(tpm, s.bindObject.value) && NamesAgree(names, s, tpm, hs)
    requires numAuth <= |hs| && (ChangesAuth(cc) || cc == CC_CLEAR ==> numAuth > 0)
    requires RequestKeyFits(s, tpm, hs, numAuth)
    requires Sensible(cc, hs, tpm) && FirstAuthUpdated(cc, hs, hs', newAuth)
    requires tpm' == Effect(tpm, cc, HandleValues(hs), newAuth)
    ensures HmacAuth(s, if |hs'| > 0 then Some(hs'[0]) else None) == KeyAuth(tpm', names, HandleValues(hs), numAuth)
       <==> ResponseKeyFits(cc, s, tpm, hs, numAuth, newAuth)
  {
    hide GetName, Trim;
    assert Trim([]) == [] by {
      TrimUnique([], []);
    }
  }

  /** A binding that lets the response through also holds for the next command. */
  lemma BindKept(s: Session, tpm: Tpm, cc: nat, hs: seq<Handle>, numAuth: nat, newAuth: ByteVec)
    requires SameSession(s, tpm) && BindHolds(tpm, s.bindObject.value)
    requires numAuth <= |hs| && (ChangesAuth(cc) || cc == CC_CLEAR ==> numAuth > 0) && Sensible(cc, hs, tpm)
    requires ResponseKeyFits(cc, s, tpm, hs, numAuth, newAuth)
    ensures BindHolds(Effect(tpm, cc, HandleValues(hs), newAuth), s.bindObject.value)
  {
    hide Trim;
  }

  lemma ReadsAuthResponse(b: ByteVec, p: nat, r: AuthResponse)
    requires At(b, p, EncodeAuthResponse(r)) && |r.nonce| < 0x1_0000 && |r.hmac| < 0x1_0000
    ensures ReadAuthResponse(b, p) == Success((r, p + |EncodeAuthResponse(r)|))
  {
    hide BigEndian, FromBigEndian;
    var q := p + 2 + |r.nonce|;
    AtSplit(b, p, Sized(r.nonce), [r.attributes] + Sized(r.hmac));
    AtSplit(b, q, [r.attributes], Sized(r.hmac));
    assert b[q] == b[q..q + 1][0];
    ReadsSized(b, p, r.nonce);
    ReadsSized(b, q + 1, r.hmac);
  }

  lemma ReadsSized(b: ByteVec, p: nat, x: ByteVec)
    requires At(b, p, Sized(x)) && |x| < 0x1_0000
    ensures ReadSizedBuf(b, p, 2) == Success(x)
  {
    hide BigEndian, FromBigEndian;
    Pow256Values();
    AtSplit(b, p, BigEndian(|x|, 2), x);
    NumberAt(b, p, |x|, 2);
  }

  /** Password sessions accept what the TPM sends for them. */
  lemma {:induction false} PasswordSessionsPass(
      c: Crypto, ss: seq<Session>, hs: seq<Handle>, cc: nat, params: ByteVec, b: ByteVec, p: nat, j: nat, rs: seq<AuthResponse>)
    requires j <= |ss| && |rs| == |ss| - j && forall i | j <= i < |ss| :: ss[i].IsPwap()
    requires forall i | 0 <= i < |rs| :: |rs[i].nonce| < 0x1_0000 && |rs[i].hmac| < 0x1_0000
    requires At(b, p, EncodeAuthResponses(rs))
    ensures RespSessions(c, ss, hs, cc, params, b, p, [], [], j) == Success((ss, p + |EncodeAuthResponses(rs)|))
    decreases |ss| - j
  {
    hide ReadAuthResponse, ResponseAccepted, EncodeAuthResponse;
    if j < |ss| {
      AtSplit(b, p, EncodeAuthResponse(rs[0]), EncodeAuthResponses(rs[1..]));
      ReadsAuthResponse(b, p, rs[0]);
      PasswordSessionsPass(c, ss, hs, cc, params, b, p + |EncodeAuthResponse(rs[0])|, j + 1, rs[1..]);
    }
  }

  /** The session area of a response: only the HMAC of the session in slot 0 decides. */
  lemma {:induction false} SessionAreaAccepted(c: Crypto, ss: seq<Session>, hs: seq<Handle>, cc: nat, params: ByteVec, b: ByteVec, p: nat,
                            rs: seq<AuthResponse>)
    requires Slots(ss) && |rs| == |ss|
    requires forall i | 0 <= i < |rs| :: |rs[i].nonce| < 0x1_0000 && |rs[i].hmac| < 0x1_0000
    requires At(b, p, EncodeAuthResponses(rs))
    ensures RespSessions(c, ss, hs, cc, params, b, p, [], [], 0)
         == if ResponseAccepted(c, ss[0], hs, 0, rs[0], cc, params, [], []) then
              Success((ss[0 := Updated(ss[0], hs, 0, rs[0])], p + |EncodeAuthResponses(rs)|))
            else Failure(InvalidHmac)
  {
    hide ReadAuthResponse, ResponseAccepted, EncodeAuthResponse;
    AtSplit(b, p, EncodeAuthResponse(rs[0]), EncodeAuthResponses(rs[1..]));
    ReadsAuthResponse(b, p, rs[0]);
    if ResponseAccepted(c, ss[0], hs, 0, rs[0], cc, params, [], []) {
      var ss' := ss[0 := Updated(ss[0], hs, 0, rs[0])];
      PasswordSessionsPass(c, ss', hs, cc, params, b, p + |EncodeAuthResponse(rs[0])|, 1, rs[1..]);
    }
  }

  predicate EntriesFit(rs: seq<AuthResponse>) {
    forall i | 0 <= i < |rs| :: |rs[i].nonce| < 0x1_0000 && |rs[i].hmac| < 0x1_0000
  }

  /** Where the parts of a successful response with sessions stand. */
  lemma SuccessLayout(outHandle: Option<nat>, params: ByteVec, rs: seq<AuthResponse>)
    requires outHandle.Some? ==> outHandle.value < 0x1_0000_0000
    requires |SuccessResponse(outHandle, params, rs)| < 0x1_0000_0000
    ensures var b, q := SuccessResponse(outHandle, params, rs), if outHandle.Some? then 14 else 10;
            && |b| == q + 4 + |params| + |EncodeAuthResponses(rs)|
            && Num(b, 0, 2) == TAG_SESSIONS && Num(b, 2, 4) == |b| && Num(b, 6, 4) == 0
            && (outHandle.Some? ==> Num(b, 10, 4) == outHandle.value)
            && Num(b, q, 4) == |params| && At(b, q + 4, params)
            && At(b, q + 4 + |params|, EncodeAuthResponses(rs))
  {
    hide BigEndian, FromBigEndian, EncodeAuthResponses;
    Pow256Values();
    var b, body := SuccessResponse(outHandle, params, rs), ResponseBody(outHandle, params, rs);
    assert At(b, 0, b);
    AtSplit(b, 0, Header(TAG_SESSIONS, 10 + |body|, 0), body);
    AtSplit(b, 0, BigEndian(TAG_SESSIONS, 2), BigEndian(10 + |body|, 4) + BigEndian(0, 4));
    AtSplit(b, 2, BigEndian(10 + |body|, 4), BigEndian(0, 4));
    NumberAt(b, 0, TAG_SESSIONS, 2);
    NumberAt(b, 2, 10 + |body|, 4);
    NumberAt(b, 6, 0, 4);
    var handle := if outHandle.Some? then BigEndian(outHandle.value, 4) else [];
    var tail := BigEndian(|params|, 4) + (params + EncodeAuthResponses(rs));
    AtSplit(b, 10, handle, tail);
    if outHandle.Some? {
      NumberAt(b, 10, outHandle.value, 4);
    }
    var q := 10 + |handle|;
    AtSplit(b, q, BigEndian(|params|, 4), params + EncodeAuthResponses(rs));
    NumberAt(b, q, |params|, 4);
    AtSplit(b, q + 4, params, EncodeAuthResponses(rs));
  }

  /** The TSS once it has seen that the command succeeded. */
  function Succeeded(cc: nat, t: Tss): Tss
    requires HandlesFor(cc, t)
  {
    ClearInvocation(CompleteUpdate(cc, t.(pending := 0, lastResponseCode := 0)))
  }

  /** DispatchIn is waiting for the response to `cc`, and would not throw on success. */
  predicate AwaitsSuccess(cc: nat, t: Tss) {
    && t.pending == cc != 0 && HandlesFor(cc, t) && (t.auditCommand ==> t.auditAlg != ALG_NULL)
    && !t.demandError && t.expectedError == 0
    && t.sessTag == TAG_SESSIONS && t.nonceTpmDec == [] && t.nonceTpmEnc == []
  }

  /** A response that reports success gets past the header. */
  lemma SuccessCompletes(c: Crypto, t: Tss, ss: seq<Session>, cc: nat, resp: Response, b: ByteVec)
    requires c.Valid() && ResponseOk(resp) && AwaitsSuccess(cc, t)
    requires EncOk(t.encSession, ss)
    requires |b| >= 10 && Num(b, 2, 4) == |b| && Num(b, 6, 4) == 0
    ensures Succeeded(cc, t).encSession == t.encSession
    ensures InStep(c, t, ss, cc, resp, b)
         == Complete(c, Succeeded(cc, t), ss, cc, resp, t.auditCommand, Num(b, 0, 2), b)
  {
    hide FromBigEndian, CompleteUpdate, Complete;
    SucceededKeeps(cc, t);
  }

  /** DispatchIn on a successful response with sessions, up to the response parameters. */
  lemma SuccessAccepted(c: Crypto, t: Tss, ss: seq<Session>, cc: nat, resp: Response, outHandle: Option<nat>,
                        params: ByteVec, rs: seq<AuthResponse>)
    requires c.Valid() && ResponseOk(resp) && AwaitsSuccess(cc, t) && Slots(ss)
    requires EncOk(t.encSession, ss)
    requires outHandle.Some? <==> resp.numHandles == 1
    requires outHandle.Some? ==> outHandle.value < 0x1_0000_0000
    requires |rs| == |ss| && EntriesFit(rs) && |SuccessResponse(outHandle, params, rs)| < 0x1_0000_0000
    ensures var b, t' := SuccessResponse(outHandle, params, rs), Succeeded(cc, t);
            var p := 14 + 4 * resp.numHandles;
            && At(b, p, params)
            && InStep(c, t, ss, cc, resp, b)
            == if ResponseAccepted(c, ss[0], t'.inHandles, 0, rs[0], cc, params, [], []) then
                 Finish(c, t', ss[0 := Updated(ss[0], t'.inHandles, 0, rs[0])], cc, resp, t.auditCommand, b, p, params, outHandle)
               else InThrown(InvalidHmac, t', false)
  {
    hide FromBigEndian, SuccessResponse, ResponseAccepted, Finish, RespSessions, EncodeAuthResponses, Updated, Succeeded, InStep;
    SuccessLayout(outHandle, params, rs);
    var b, t' := SuccessResponse(outHandle, params, rs), Succeeded(cc, t);
    var q := 10 + 4 * resp.numHandles;
    SessionAreaAccepted(c, ss, t'.inHandles, cc, params, b, q + 4 + |params|, rs);
    SucceededKeeps(cc, t);
    SuccessCompletes(c, t, ss, cc, resp, b);
  }

  lemma SucceededKeeps(cc: nat, t: Tss)
    requires HandlesFor(cc, t)
    ensures SameFraming(t.(inHandles := []), Succeeded(cc, t).(inHandles := [])) && Succeeded(cc, t).pending == 0
    ensures |Succeeded(cc, t).inHandles| == |t.inHandles|
  {}

  lemma SpliceWithin(b: ByteVec, p: nat, x: ByteVec, k: nat, res: ByteVec)
    requires At(b, p, x) && k + |res| <= |x|
    ensures Splice(b, p + k, res)[p..p + |x|] == Splice(x, k, res)
  {
    var r, y, end := Splice(b, p + k, res), Splice(x, k, res), p + |x|;
    forall i | 0 <= i < |x|
      ensures r[p + i] == y[i]
    {
      assert b[p + i] == b[p..end][i];
    }
    assert r[p..end] == y;
  }

  lemma XcryptAtIs(c: Crypto, s: Session, b: ByteVec, start: nat, sizeLen: nat, valLen: nat, request: bool, data: ByteVec)
    requires c.Valid() && sizeLen > 0 && valLen > 0
    requires At(b, start + sizeLen, data) && |data| == FromBigEndian(b[start..start + sizeLen]) * valLen
    ensures var res := ParamXcrypt(c, s, data, request);
            XcryptAt(c, s, b, start, sizeLen, valLen, request) == (
              if res.Failure? then Failure(res.error)
              else assert |res.value| == |data| by {
                     ParamXcryptLength(c, s, data, request);
                   }
                   Success(Splice(b, start + sizeLen, res.value)))
  {
    hide FromBigEndian, ParamXcrypt;
  }

  /** Decrypting the first parameter inside the response is decrypting it inside the parameters. */
  lemma XcryptWithin(c: Crypto, s: Session, b: ByteVec, p: nat, params: ByteVec, sizeLen: nat, valLen: nat, request: bool)
    requires c.Valid() && At(b, p, params) && XcryptAt(c, s, params, 0, sizeLen, valLen, request).Success?
    ensures var r := XcryptAt(c, s, b, p, sizeLen, valLen, request);
            r.Success? && r.value[p..p + |params|] == XcryptAt(c, s, params, 0, sizeLen, valLen, request).value
  {
    hide FromBigEndian, ParamXcrypt, Splice;
    SliceWithin(b, p, params, 0, sizeLen);
    var n := FromBigEndian(params[0..sizeLen]) * valLen;
    SliceWithin(b, p, params, sizeLen, sizeLen + n);
    var data := params[sizeLen..sizeLen + n];
    ParamXcryptLength(c, s, data, request);
    XcryptAtIs(c, s, b, p, sizeLen, valLen, request, data);
    XcryptAtIs(c, s, params, 0, sizeLen, valLen, request, data);
    SpliceWithin(b, p, params, sizeLen, ParamXcrypt(c, s, data, request).value);
  }

  /** Decrypting at a position is decrypting at the start of what stands there. */
  lemma XcryptSuffix(c: Crypto, s: Session, b: ByteVec, p: nat, sizeLen: nat, valLen: nat, request: bool)
    requires c.Valid() && p <= |b|
    ensures var r, q := XcryptAt(c, s, b, p, sizeLen, valLen, request), XcryptAt(c, s, b[p..], 0, sizeLen, valLen, request);
            && (r.Success? <==> q.Success?)
            && (if q.Success? then r.value[p..] == q.value else r.error == q.error)
  {
    hide FromBigEndian, ParamXcrypt;
    if p + sizeLen <= |b| {
      assert b[p..][0..sizeLen] == b[p..p + sizeLen];
      var n := FromBigEndian(b[p..p + sizeLen]) * valLen;
      if p + sizeLen + n <= |b| {
        assert b[p..][sizeLen..sizeLen + n] == b[p + sizeLen..p + sizeLen + n];
        ParamXcryptLength(c, s, b[p + sizeLen..p + sizeLen + n], request);
      }
    }
  }
}
