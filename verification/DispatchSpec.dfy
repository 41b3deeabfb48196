/** The two phases of Tpm2::Dispatch as functions of the TSS state: what DispatchOut sends and
    leaves behind, and what DispatchIn makes of the response. */
module DispatchSpec {
  import opened Bytes
  import opened CryptoModel
  import opened Wrappers
  import opened TpmBuffers
  import opened CommandFrames
  import opened SessionModel

  const CAPACITY := 4096
  const ALG_NULL := 0x10
  const RC_RETRY := 0x922

  const CC_EVICT_CONTROL := 0x120
  const CC_CLEAR := 0x126
  const CC_HIERARCHY_CHANGE_AUTH := 0x129
  const CC_NV_CHANGE_AUTH := 0x13B
  const CC_OBJECT_CHANGE_AUTH := 0x150
  const CC_LOAD := 0x157
  const CC_LOAD_EXTERNAL := 0x167
  const CC_PCR_SET_AUTH_VALUE := 0x183
  const CC_HASH_SEQUENCE_START := 0x186

  /** A request structure: its handles, how many of them need authorization, its marshaled
      parameters, the layout of the parameter that sessions may encrypt, and the fields that
      UpdateRequestHandles picks out. */
  datatype Request = Request(
    handles: seq<Handle>, numAuth: nat, params: ByteVec, sizeLen: nat, valLen: nat,
    newAuth: ByteVec, objectName: ByteVec)

  /** The commands whose only parameter is a new auth value. */
  predicate ChangesAuth(cc: nat) {
    cc == CC_HIERARCHY_CHANGE_AUTH || cc == CC_NV_CHANGE_AUTH || cc == CC_PCR_SET_AUTH_VALUE
  }

  /** What the generated request classes guarantee. */
  predicate RequestOk(cc: nat, req: Request) {
    && 0 < cc < 0x1_0000_0000 && req.numAuth <= 2 && req.numAuth <= |req.handles| <= 3
    && (forall i | 0 <= i < |req.handles| :: req.handles[i].value < 0x1_0000_0000)
    && (req.sizeLen == 0 || IsWidth(req.sizeLen))
    && (ChangesAuth(cc) || cc == CC_CLEAR ==> req.numAuth == 1)
    && (ChangesAuth(cc) ==> req.params == Sized(req.newAuth) && req.sizeLen == 2 && req.valLen == 1)
    && (cc == CC_EVICT_CONTROL ==> req.numAuth == 1 && |req.handles| == 2)
  }

  /** Where EncSession points: nowhere, to one of the sessions of the dispatch, or to a session object
      that an earlier dispatch left behind. */
  datatype EncSession =
    | NoSession
    | Slot(index: nat)
    | Outside(session: Session)

  function AsSlot(i: Option<nat>): EncSession {
    if i.Some? then Slot(i.value) else NoSession
  }

  predicate EncOk(e: EncSession, ss: seq<Session>) {
    e.Slot? ==> e.index < |ss|
  }

  /** The fields of a Tpm2 object apart from its list of sessions. */
  datatype Tss = Tss(
    allowErrors: bool,
    demandError: bool,
    auditCommand: bool,
    expectedError: nat,
    cpHash: Option<nat>,
    pending: nat,
    sessTag: nat,
    inHandles: seq<Handle>,
    objectInName: ByteVec,
    objectInAuth: ByteVec,
    lastCommandBuf: ByteVec,
    lastResponseCode: nat,
    auditAlg: nat,
    auditDigest: ByteVec,
    auditCpHash: ByteVec,
    admin: Hierarchies,
    nonceTpmDec: ByteVec,
    nonceTpmEnc: ByteVec,
    encSession: EncSession)

  // ---------- DispatchOut ----------

  /** Password sessions for the auth handles that no session was given for. */
  function Padded(ss: seq<Session>, n: nat): seq<Session> {
    if |ss| < n then ss + seq(n - |ss|, _ => PWAP_SESSION) else ss
  }

  /** RollNonces with the random bytes it draws. */
  function Rolled(ss: seq<Session>, nonces: seq<ByteVec>): (r: seq<Session>)
    requires |ss| <= |nonces|
    ensures |r| == |ss|
  {
    seq(|ss|, i requires 0 <= i < |ss| =>
      if ss[i].IsPwap() then ss[i] else ss[i].(nonceCaller := nonces[i]))
  }

  /** The last session that is not a password session and has the decrypt (or encrypt) attribute. */
  function LastWith(ss: seq<Session>, decrypt: bool): (r: Option<nat>)
    ensures r.Some? ==> r.value < |ss| && !ss[r.value].IsPwap()
  {
    if ss == [] then None else
    var s := ss[|ss| - 1];
    if !s.IsPwap() && (if decrypt then s.Decrypts() else s.Encrypts()) then Some(|ss| - 1)
    else LastWith(ss[..|ss| - 1], decrypt)
  }

  function DecNonce(ss: seq<Session>): ByteVec {
    var dec := LastWith(ss, true);
    if dec.Some? && dec.value != 0 then ss[dec.value].nonceTpm else []
  }

  function EncNonce(ss: seq<Session>): ByteVec {
    var enc := LastWith(ss, false);
    if enc.Some? && enc.value != 0 && enc != LastWith(ss, true) then ss[enc.value].nonceTpm else []
  }

  /** DoParmEncryption: the sized parameter that starts at `start`, encrypted or decrypted in place.
      The structure asserts that it has such a parameter. */
  function XcryptAt(c: Crypto, s: Session, b: ByteVec, start: nat, sizeLen: nat, valLen: nat, request: bool):
    (r: Result<ByteVec, TssError>)
    requires c.Valid()
    ensures r.Success? ==> |r.value| == |b|
  {
    if sizeLen == 0 || valLen == 0 then Failure(NotEncryptable) else
    if start + sizeLen > |b| then Failure(Marshal(OutOfBounds)) else
    var p := start + sizeLen;
    var n := FromBigEndian(b[start..p]) * valLen;
    if p + n > |b| then Failure(Marshal(OutOfBounds)) else
    var res :- ParamXcrypt(c, s, b[p..p + n], request);
    Success(Splice(b, p, res))
  }

  /** The parameters as sent. */
  function SentParams(c: Crypto, ss: seq<Session>, req: Request): Result<ByteVec, TssError>
    requires c.Valid()
  {
    match LastWith(ss, true)
    case None => Success(req.params)
    case Some(j) => XcryptAt(c, ss[j], req.params, 0, req.sizeLen, req.valLen, true)
  }

  function AppendNames(acc: ByteVec, handles: seq<Handle>): Result<ByteVec, TssError>
    decreases |handles|
  {
    if handles == [] then Success(acc) else
    var name :- GetName(handles[0]);
    if |acc| + |name| > CAPACITY then Failure(Marshal(OutOfBounds)) else AppendNames(acc + name, handles[1..])
  }

  /** GetCpHashData: command code, names of the handles, parameters. */
  function CpHashData(cc: nat, handles: seq<Handle>, params: ByteVec): Result<ByteVec, TssError> {
    var named :- AppendNames(BigEndian(cc, 4), handles);
    if |named| + |params| > CAPACITY then Failure(Marshal(OutOfBounds)) else Success(named + params)
  }

  predicate NeedsCpHash(ss: seq<Session>) {
    exists i | 0 <= i < |ss| :: !ss[i].IsPwap()
  }

  /** The input handles after _SetRhAuthValue was applied to those next to a session. */
  function RhHandles(admin: Hierarchies, hs: seq<Handle>, n: nat): (r: seq<Handle>)
    ensures |r| == |hs|
  {
    seq(|hs|, i requires 0 <= i < |hs| => if i < n then SetRhAuthValue(admin, hs[i]) else hs[i])
  }

  /** The sessions after SetAuthValue on those that authorize a handle. */
  function Authorized(ss: seq<Session>, hs: seq<Handle>, numAuth: nat): (r: seq<Session>)
    requires numAuth <= |hs|
    ensures |r| == |ss|
  {
    seq(|ss|, i requires 0 <= i < |ss| =>
      if !ss[i].IsPwap() && i < numAuth then ss[i].(authValue := hs[i].auth) else ss[i])
  }

  /** The entry of the i-th session in the session area. A policy session that needs neither HMAC
      nor password repeats the hmac field of the entry before it, because the structure that is
      filled is shared by all iterations. */
  function AuthEntry(c: Crypto, ss: seq<Session>, hs: seq<Handle>, numAuth: nat, data: ByteVec,
                     nonceDec: ByteVec, nonceEnc: ByteVec, i: nat): AuthCommand
    requires i < |ss| && numAuth <= |hs| && PwapHandles(ss, hs)
  {
    var s := ss[i];
    if s.IsPwap() then AuthCommand(RH_PW, [], CONTINUE_SESSION, hs[i].auth)
    else
      var own := if i < numAuth then Some(hs[i]) else None;
      var s' := if i < numAuth then s.(authValue := hs[i].auth) else s;
      var hmac :=
        if s.sessionType == HMAC || s.needsHmac then
          GetAuthHmac(c, s', c.hash(s.hashAlg, data), true, nonceDec, nonceEnc, own)
        else if s.needsPassword then (if i < |hs| then hs[i].auth else [])
        else if i == 0 then []
        else AuthEntry(c, ss, hs, numAuth, data, nonceDec, nonceEnc, i - 1).hmac;
      AuthCommand(s.handle.value, s.nonceCaller, s.attributes, hmac)
  }

  /** A password session needs a handle to take its password from. */
  predicate PwapHandles(ss: seq<Session>, hs: seq<Handle>) {
    forall i | 0 <= i < |ss| :: ss[i].IsPwap() ==> i < |hs|
  }

  function AuthEntries(c: Crypto, ss: seq<Session>, hs: seq<Handle>, numAuth: nat, data: ByteVec,
                       nonceDec: ByteVec, nonceEnc: ByteVec): (r: seq<AuthCommand>)
    requires numAuth <= |hs| && PwapHandles(ss, hs)
    ensures |r| == |ss|
  {
    seq(|ss|, i requires 0 <= i < |ss| => AuthEntry(c, ss, hs, numAuth, data, nonceDec, nonceEnc, i))
  }

  function HandleValues(hs: seq<Handle>): (r: seq<nat>)
    ensures |r| == |hs|
  {
    seq(|hs|, i requires 0 <= i < |hs| => hs[i].value)
  }

  /** What UpdateRequestHandles remembers of a request, the name and the auth value of an object,
      and the request with the auth value it overwrites in it. */
  function Remember(cc: nat, req: Request, auth: ByteVec): Result<(ByteVec, ByteVec, Request), TssError>
    requires RequestOk(cc, req)
  {
    if cc == CC_HIERARCHY_CHANGE_AUTH || cc == CC_NV_CHANGE_AUTH then
      Success(([], req.newAuth, SetHandleAuth(req, req.newAuth)))
    else if cc == CC_LOAD_EXTERNAL || cc == CC_LOAD then Success((req.objectName, auth, req))
    else if cc == CC_OBJECT_CHANGE_AUTH || cc == CC_PCR_SET_AUTH_VALUE || cc == CC_HASH_SEQUENCE_START then
      Success(([], req.newAuth, req))
    else if cc == CC_EVICT_CONTROL then
      if req.handles[1].value / 0x100_0000 == 0x81 then Success(([], req.handles[1].auth, req)) else
      var name :- GetName(req.handles[1]);
      Success((name, req.handles[1].auth, req))
    else if cc == CC_CLEAR then Success(([], auth, SetHandleAuth(req, [])))
    else Success(([], auth, req))
  }

  /** UpdateRequestHandles: what is remembered of the request until the response arrives. */
  function UpdateRequestHandles(cc: nat, t: Tss, req: Request): Result<(Tss, Request), TssError>
    requires RequestOk(cc, req)
  {
    var (name, auth, req') :- Remember(cc, req, t.objectInAuth);
    Success((t.(objectInName := name, objectInAuth := auth), req'))
  }

  function SetHandleAuth(req: Request, auth: ByteVec): Request
    requires |req.handles| >= 1
  {
    req.(handles := req.handles[0 := req.handles[0].(auth := auth)])
  }

  /** ClearInvocationState. */
  function ClearInvocation(t: Tss): Tss {
    t.(allowErrors := false, demandError := false, expectedError := 0, cpHash := None, auditCommand := false,
       pending := 0)
  }

  /** An exception may come when the device already has the command. */
  datatype Outgoing =
    | OutThrown(error: TssError, delivered: Option<ByteVec>)
    | Captured(digest: ByteVec, tss: Tss, sessions: seq<Session>)
    | Sent(tss: Tss, sessions: seq<Session>, req: Request)

  /** Everything DispatchOut works out before it looks at the cpHash and audit flags. */
  datatype Prepared = Prepared(
    sessions: seq<Session>, handles: seq<Handle>, data: Option<ByteVec>, params: ByteVec, frame: Frame, tss: Tss)

  predicate HasSessions(ss: seq<Session>, req: Request) {
    req.numAuth != 0 || |ss| != 0
  }

  function Prepare(c: Crypto, t: Tss, ss: seq<Session>, cc: nat, req: Request, nonces: seq<ByteVec>):
    Result<Prepared, TssError>
    requires c.Valid() && RequestOk(cc, req)
    requires |Padded(ss, req.numAuth)| <= |nonces| && PwapHandles(Padded(ss, req.numAuth), req.handles)
  {
    var values := HandleValues(req.handles);
    if !HasSessions(ss, req) then
      var t := t.(sessTag := TAG_NO_SESSIONS, inHandles := req.handles);
      Success(Prepared([], req.handles, None, req.params, Frame(cc, values, None, req.params), t))
    else
      var ss := Rolled(Padded(ss, req.numAuth), nonces);
      var params :- SentParams(c, ss, req);
      var hs := RhHandles(t.admin, req.handles, |ss|);
      var data :- if NeedsCpHash(ss) then CpHashData(cc, req.handles, params) else Success([]);
      var auths := AuthEntries(c, ss, hs, req.numAuth, data, DecNonce(ss), EncNonce(ss));
      var dec := LastWith(ss, true);
      var t := t.(sessTag := TAG_SESSIONS, inHandles := hs, nonceTpmDec := DecNonce(ss), nonceTpmEnc := EncNonce(ss),
                  encSession := if dec.Some? then NoSession else AsSlot(LastWith(ss, false)));
      Success(Prepared(Authorized(ss, hs, req.numAuth), hs, if NeedsCpHash(ss) then Some(data) else None, params,
                       Frame(cc, values, Some(auths), params), t))
  }

  /** What DispatchOut does with a prepared command: it is captured, or sent. */
  function SendPrepared(c: Crypto, t: Tss, p: Prepared, hasDevice: bool, cc: nat, req: Request): Outgoing
    requires RequestOk(cc, req)
  {
    if |EncodeCommand(p.frame)| > CAPACITY then OutThrown(Marshal(OutOfBounds), None) else
    var data := if p.data.Some? then Success(p.data.value)
                else if t.cpHash.Some? || t.auditCommand then CpHashData(cc, p.handles, p.params)
                else Success([]);
    if data.Failure? then OutThrown(data.error, None)
    else if t.cpHash.Some? then
      Captured(c.hash(t.cpHash.value, data.value), ClearInvocation(p.tss), p.sessions)
    else if !hasDevice then OutThrown(NoDevice, None)
    else
      var t1 := if t.auditCommand then p.tss.(auditCpHash := c.hash(t.auditAlg, data.value)) else p.tss;
      match UpdateRequestHandles(cc, t1.(lastCommandBuf := EncodeCommand(p.frame)), req)
      case Failure(e) => OutThrown(e, Some(EncodeCommand(p.frame)))
      case Success(u) => Sent(u.0.(pending := cc), p.sessions, u.1)
  }

  /** DispatchOut. */
  function OutStep(c: Crypto, t: Tss, ss: seq<Session>, hasDevice: bool, cc: nat, req: Request, nonces: seq<ByteVec>):
    Outgoing
    requires c.Valid() && RequestOk(cc, req)
    requires |Padded(ss, req.numAuth)| <= |nonces| && PwapHandles(Padded(ss, req.numAuth), req.handles)
  {
    if t.pending != 0 then OutThrown(CommandPending, None)
    else if t.auditCommand && t.auditAlg == ALG_NULL then OutThrown(AuditNotEnabled, None)
    else if |req.params| > CAPACITY then OutThrown(Marshal(OutOfBounds), None)
    else match Prepare(c, t, ss, cc, req, nonces)
      case Failure(e) => OutThrown(e, None)
      case Success(p) => SendPrepared(c, t, p, hasDevice, cc, req)
  }

  // ---------- DispatchIn ----------

  /** Tpm2::ResponseCodeFromTpmError: keeps bits 0xBF of a format-one code, 0x97F of another. */
  function BareCode(rc: nat): nat {
    if (rc / 0x80) % 2 == 1 then 0x80 + rc % 0x40
    else rc % 0x80 + 0x100 * ((rc / 0x100) % 2) + 0x800 * ((rc / 0x800) % 2)
  }

  /** CompleteUpdateRequestHandles. */
  function CompleteUpdate(cc: nat, t: Tss): Tss
    requires HandlesFor(cc, t)
  {
    if cc == CC_HIERARCHY_CHANGE_AUTH then
      t.(admin := t.admin.Set(t.inHandles[0].value, t.objectInAuth),
         inHandles := t.inHandles[0 := t.inHandles[0].(auth := t.objectInAuth)])
    else if cc == CC_NV_CHANGE_AUTH || cc == CC_PCR_SET_AUTH_VALUE then
      t.(inHandles := t.inHandles[0 := t.inHandles[0].(auth := t.objectInAuth)])
    else if cc == CC_EVICT_CONTROL then
      if t.inHandles[1].value / 0x100_0000 == 0x81 then t
      else t.(inHandles := t.inHandles[1 := t.inHandles[1].(auth := t.objectInAuth, name := t.objectInName)])
    else if cc == CC_CLEAR then t.(admin := t.admin.Cleared())
    else t
  }

  /** The input handles that CompleteUpdate indexes are there. */
  predicate HandlesFor(cc: nat, t: Tss) {
    && (cc in {CC_HIERARCHY_CHANGE_AUTH, CC_NV_CHANGE_AUTH, CC_PCR_SET_AUTH_VALUE} ==> |t.inHandles| >= 1)
    && (cc == CC_EVICT_CONTROL ==> |t.inHandles| >= 2)
  }

  /** Whether the response code makes DispatchIn throw, given the flags of the invocation. */
  predicate ThrowsOn(t: Tss, rc: nat) {
    if rc == 0 then t.demandError || t.expectedError != 0
    else !t.demandError && !t.allowErrors && (t.expectedError != 0 ==> BareCode(rc) != t.expectedError)
  }

  /** TPMS_AUTH_RESPONSE::initFromTpm at position `p`. */
  function ReadAuthResponse(b: ByteVec, p: nat): Result<(AuthResponse, nat), TssError> {
    var nonce := ReadSizedBuf(b, p, 2);
    if nonce.Failure? then Failure(Marshal(nonce.error)) else
    var q := p + 2 + |nonce.value|;
    if q + 1 > |b| then Failure(Marshal(OutOfBounds)) else
    var hmac := ReadSizedBuf(b, q + 1, 2);
    if hmac.Failure? then Failure(Marshal(hmac.error)) else
    Success((AuthResponse(nonce.value, b[q], hmac.value), q + 3 + |hmac.value|))
  }

  /** What rpHash is computed over: response code, command code, response parameters. */
  function RpHashData(cc: nat, params: ByteVec): ByteVec {
    BigEndian(0, 4) + BigEndian(cc, 4) + params
  }

  /** A session after its part of the response was read. */
  function Updated(s: Session, hs: seq<Handle>, j: nat, r: AuthResponse): Session {
    var s := if j < |hs| then s.(authValue := hs[j].auth) else s;
    s.(nonceTpm := r.nonce, attributes := r.attributes)
  }

  /** Whether DispatchIn accepts the response to one session. */
  predicate ResponseAccepted(c: Crypto, s: Session, hs: seq<Handle>, j: nat, r: AuthResponse, cc: nat, params: ByteVec,
                             nonceDec: ByteVec, nonceEnc: ByteVec)
  {
    var s := Updated(s, hs, j, r);
    var own := if j < |hs| then Some(hs[j]) else None;
    s.sessionType != HMAC
    || GetAuthHmac(c, s, c.hash(s.hashAlg, RpHashData(cc, params)), false, nonceDec, nonceEnc, own) == r.hmac
  }

  /** ProcessRespSessions from session `j` on, with the cursor at `p`. */
  function RespSessions(c: Crypto, ss: seq<Session>, hs: seq<Handle>, cc: nat, params: ByteVec, b: ByteVec, p: nat,
                        nonceDec: ByteVec, nonceEnc: ByteVec, j: nat): (r: Result<(seq<Session>, nat), TssError>)
    requires j <= |ss|
    ensures r.Success? ==> |r.value.0| == |ss|
    decreases |ss| - j
  {
    if j == |ss| then Success((ss, p)) else
    var r :- ReadAuthResponse(b, p);
    if ss[j].IsPwap() then RespSessions(c, ss, hs, cc, params, b, r.1, nonceDec, nonceEnc, j + 1)
    else if !ResponseAccepted(c, ss[j], hs, j, r.0, cc, params, nonceDec, nonceEnc) then Failure(InvalidHmac)
    else RespSessions(c, ss[j := Updated(ss[j], hs, j, r.0)], hs, cc, params, b, r.1, nonceDec, nonceEnc, j + 1)
  }

  datatype Incoming =
    | Retry(tss: Tss)
    | InThrown(error: TssError, tss: Tss, cleared: bool)
    | Failed(tss: Tss)
    | Done(tss: Tss, sessions: seq<Session>, outHandle: Option<nat>, params: ByteVec)

  /** The layout of a response structure. */
  datatype Response = Response(numHandles: nat, sizeLen: nat, valLen: nat)

  predicate ResponseOk(r: Response) {
    r.numHandles <= 1 && (r.sizeLen == 0 || IsWidth(r.sizeLen))
  }

  function Num(b: ByteVec, p: nat, len: nat): nat
    requires p + len <= |b|
  {
    FromBigEndian(b[p..p + len])
  }

  /** The parts of a successful response once its session area was accepted: the sessions, where
      the parameters stand, the parameters, the returned handle. */
  datatype Opening = Opening(sessions: seq<Session>, pos: nat, params: ByteVec, outHandle: Option<nat>)

  /** A successful response past the header: handle, parameters, sessions. */
  function Open(c: Crypto, t: Tss, ss: seq<Session>, cc: nat, resp: Response, tag: nat, b: ByteVec): (r: Result<Opening, TssError>)
    requires ResponseOk(resp) && |b| >= 10
    ensures r.Success? ==> |r.value.sessions| == |ss| && r.value.pos <= |b|
  {
    if t.sessTag != tag then Failure(WrongSessionTag) else
    var q := 10 + 4 * resp.numHandles;
    if q > |b| then Failure(Marshal(OutOfBounds)) else
    var outHandle := if resp.numHandles == 1 then Some(Num(b, 10, 4)) else None;
    if tag == TAG_SESSIONS then
      if q + 4 > |b| then Failure(Marshal(OutOfBounds)) else
      var size := Num(b, q, 4);
      var params := if q + 4 + size <= |b| then b[q + 4..q + 4 + size] else [];
      var (ss', end) :- RespSessions(c, ss, t.inHandles, cc, params, b, q + 4 + size, t.nonceTpmDec, t.nonceTpmEnc, 0);
      if end != |b| then Failure(DataBeyondAuthArea) else Success(Opening(ss', q + 4, params, outHandle))
    else
      Success(Opening(ss, q, b[q..], outHandle))
  }

  /** What DispatchIn does with a successful response. */
  function Complete(c: Crypto, t: Tss, ss: seq<Session>, cc: nat, resp: Response, audit: bool, tag: nat, b: ByteVec):
    (r: Incoming)
    requires c.Valid() && ResponseOk(resp) && |b| >= 10
    requires EncOk(t.encSession, ss)
    ensures r.Done? || (r.InThrown? && !r.cleared)
    ensures r.Done? ==> |r.sessions| == |ss|
  {
    match Open(c, t, ss, cc, resp, tag, b)
    case Failure(e) => InThrown(e, t, false)
    case Success(o) => Finish(c, t, o.sessions, cc, resp, audit, b, o.pos, o.params, o.outHandle)
  }

  /** The TSS after the response of an audited command. */
  function Audited(c: Crypto, t: Tss, cc: nat, audit: bool, params: ByteVec): Tss {
    if !audit then t else
    t.(auditDigest := c.Extend(t.auditAlg, t.auditDigest, t.auditCpHash + c.hash(t.auditAlg, RpHashData(cc, params))))
  }

  /** Response parameter decryption and hand-over of the parameters at `p`. */
  function HandOver(c: Crypto, t: Tss, ss: seq<Session>, resp: Response, b: ByteVec, p: nat, params: ByteVec,
                    outHandle: Option<nat>): (r: Incoming)
    requires c.Valid() && ResponseOk(resp) && p <= |b|
    requires EncOk(t.encSession, ss)
    ensures r.Done? || (r.InThrown? && !r.cleared)
    ensures r.Done? ==> r.sessions == ss
  {
    if t.encSession.NoSession? then Done(t, ss, outHandle, params) else
    var s := if t.encSession.Slot? then ss[t.encSession.index] else t.encSession.session;
    match XcryptAt(c, s, b, p, resp.sizeLen, resp.valLen, false)
    case Failure(e) => InThrown(e, t, false)
    case Success(plain) =>
      if p + |params| > |b| then InThrown(Marshal(OutOfBounds), t, false)
      else Done(t.(encSession := NoSession), ss, outHandle, plain[p..p + |params|])
  }

  /** What is left to do once the session area was accepted. */
  function Finish(c: Crypto, t: Tss, ss: seq<Session>, cc: nat, resp: Response, audit: bool, b: ByteVec, p: nat,
                  params: ByteVec, outHandle: Option<nat>): (r: Incoming)
    requires c.Valid() && ResponseOk(resp) && p <= |b|
    requires EncOk(t.encSession, ss)
    ensures r.Done? || (r.InThrown? && !r.cleared)
    ensures r.Done? ==> r.sessions == ss
  {
    HandOver(c, Audited(c, t, cc, audit, params), ss, resp, b, p, params, outHandle)
  }

  /** DispatchIn on the response `b`. */
  function InStep(c: Crypto, t: Tss, ss: seq<Session>, cc: nat, resp: Response, b: ByteVec): (r: Incoming)
    requires c.Valid() && ResponseOk(resp) && HandlesFor(cc, t)
    requires EncOk(t.encSession, ss)
    ensures r.Done? ==> |r.sessions| == |ss|
  {
    if t.pending == 0 then InThrown(NothingPending, t, false)
    else if t.pending != cc then InThrown(WrongCommand, t, false)
    else if t.auditCommand && t.auditAlg == ALG_NULL then InThrown(AuditNotEnabled, t, false)
    else
      var t := t.(pending := 0);
      if |b| < 10 then InThrown(ShortResponse, t, false)
      else if Num(b, 2, 4) != |b| then InThrown(InconsistentSize, t, false)
      else
        var rc := Num(b, 6, 4);
        if rc == RC_RETRY then Retry(t) else
        var t1 := t.(lastResponseCode := BareCode(rc));
        var t2 := if rc == 0 then CompleteUpdate(cc, t1) else t1;
        var t3 := ClearInvocation(t2);
        if ThrowsOn(t, rc) then InThrown(TpmError(BareCode(rc)), t3, true)
        else if BareCode(rc) != 0 then Failed(t3)
        else Complete(c, t3, ss, cc, resp, t.auditCommand, Num(b, 0, 2), b)
  }
}
