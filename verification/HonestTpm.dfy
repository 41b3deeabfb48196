/** A TPM that follows TPM 2.0 Library, Part 1, section 19.6 (session-based authorizations) and
    chapter 21 (session-based encryption) on the command and response bytes, with one HMAC session
    loaded. Of the ciphers it has AES in CFB mode. */
module HonestTpm {
  import opened Bytes
  import opened CryptoModel
  import opened Wrappers
  import opened TpmBuffers
  import opened WireFormat
  import opened CommandFrames
  import opened SessionModel
  import opened DispatchSpec

  /** The TPM's record of the session. A bound session remembers the name and the auth value of
      the entity it was bound to. */
  datatype TpmSession = TpmSession(
    handle: nat, hashAlg: nat, symmetric: SymDef, sessionKey: ByteVec, nonceTpm: ByteVec, bindName: Option<ByteVec>,
    bindAuth: ByteVec)

  /** Auth values are kept without trailing zeros. */
  datatype Tpm = Tpm(hierarchies: Hierarchies, entities: map<nat, ByteVec>, session: TpmSession)

  /** PCRs, sessions and permanent handles are named by their value (section 16 of Part 1). */
  predicate NamedByValue(handle: nat) {
    handle / 0x100_0000 in {0x00, 0x02, 0x03, 0x40}
  }

  /** The names the TPM computes: those of objects and NV indices come from their public areas. */
  datatype Names = Names(ofObject: nat -> ByteVec) {
    function of(handle: nat): ByteVec {
      if NamedByValue(handle) then BigEndian(handle, 4) else ofObject(handle)
    }
  }

  function EntityAuth(tpm: Tpm, h: nat): ByteVec {
    if h == RH_NULL || h == RH_PW then []
    else if tpm.hierarchies.Has(h) then tpm.hierarchies.Get(h)
    else if h in tpm.entities then tpm.entities[h]
    else []
  }

  function SetEntityAuth(tpm: Tpm, h: nat, auth: ByteVec): Tpm {
    if tpm.hierarchies.Has(h) then tpm.(hierarchies := tpm.hierarchies.Set(h, Trim(auth)))
    else tpm.(entities := tpm.entities[h := Trim(auth)])
  }

  /** The session is bound to an entity while both its name and its auth value are as they were. */
  predicate IsBound(tpm: Tpm, names: Names, h: nat) {
    tpm.session.bindName == Some(names.of(h)) && tpm.session.bindAuth == EntityAuth(tpm, h)
  }

  /** The auth value in the HMAC key: that of the entity the session authorizes, if any. */
  function KeyAuth(tpm: Tpm, names: Names, handles: seq<nat>, numAuth: nat): ByteVec
    requires numAuth <= |handles|
  {
    if numAuth == 0 || IsBound(tpm, names, handles[0]) then [] else EntityAuth(tpm, handles[0])
  }

  function NameBytes(names: Names, handles: seq<nat>): ByteVec {
    if handles == [] then [] else names.of(handles[0]) + NameBytes(names, handles[1..])
  }

  /** What is authenticated, without the nonces of further sessions (section 19.6.5 of Part 1). */
  function SignedText(parmHash: ByteVec, newer: ByteVec, older: ByteVec, attributes: byte): ByteVec {
    parmHash + newer + older + [attributes]
  }

  /** What rpHash is computed over, for a command that succeeded. */
  function AnsweredText(cc: nat, params: ByteVec): ByteVec {
    [0, 0, 0, 0] + BigEndian(cc, 4) + params
  }

  function TpmHmac(c: Crypto, tpm: Tpm, auth: ByteVec, parmHash: ByteVec, newer: ByteVec, older: ByteVec,
                   attributes: byte): ByteVec
  {
    c.hmac(tpm.session.hashAlg, tpm.session.sessionKey + auth, SignedText(parmHash, newer, older, attributes))
  }

  /** The authorization checks on a parsed command. */
  predicate ChecksOut(c: Crypto, tpm: Tpm, names: Names, f: Frame, numAuth: nat)
    requires numAuth <= |f.handles|
  {
    && f.auths.Some? && |f.auths.value| >= 1 && numAuth <= |f.auths.value|
    && var a := f.auths.value[0];
    var cpHash := c.hash(tpm.session.hashAlg, BigEndian(f.cc, 4) + NameBytes(names, f.handles) + f.params);
    && a.handle == tpm.session.handle
    && a.hmac == TpmHmac(c, tpm, KeyAuth(tpm, names, f.handles, numAuth), cpHash, a.nonce, tpm.session.nonceTpm, a.attributes)
    && forall i | 1 <= i < |f.auths.value| :: PasswordOk(tpm, f, i)
  }

  /** A password entry carries the auth value of its handle, up to trailing zeros. */
  predicate PasswordOk(tpm: Tpm, f: Frame, i: nat)
    requires f.auths.Some? && i < |f.auths.value|
  {
    && f.auths.value[i].handle == RH_PW && i < |f.handles|
    && Trim(f.auths.value[i].hmac) == EntityAuth(tpm, f.handles[i])
  }

  /** A response code (section 6.6 of Part 2). An error of format one comes with the number of the
      handle, session or parameter that it is about, and a flag for parameters. `upper` are the bits
      above those of the TPM. */
  datatype ErrorCode =
    | FormatOne(error: nat, parameter: bool, number: nat, upper: nat)
    | FormatZero(error: nat, version2: bool, middle: nat, warning: bool, upper: nat)
  {
    predicate Valid() {
      match this
      case FormatOne(error, _, number, upper) => 0x80 <= error < 0xC0 && number < 16 && upper < 0x10_0000
      case FormatZero(error, _, middle, _, upper) => error < 0x80 && middle < 4 && upper < 0x10_0000
    }

    /** The code as it is sent. */
    function Code(): nat {
      match this
      case FormatOne(error, parameter, number, upper) =>
        error + (if parameter then 0x40 else 0) + 0x100 * number + 0x1000 * upper
      case FormatZero(error, version2, middle, warning, upper) =>
        error + (if version2 then 0x100 else 0) + 0x200 * middle + (if warning then 0x800 else 0) + 0x1000 * upper
    }

    /** The error itself. */
    function Number(): nat {
      match this
      case FormatOne(error, _, _, _) => error
      case FormatZero(error, version2, _, warning, _) =>
        error + (if version2 then 0x100 else 0) + (if warning then 0x800 else 0)
    }
  }

  /** How the TPM reacts to a command: with success, with an error, or by asking for a retry. */
  datatype Choice =
    | Succeed(nonceTpm: ByteVec, params: ByteVec, outHandle: Option<nat>)
    | Refuse(error: ErrorCode)
    | AskRetry

  /** What a successful command does to the auth values. `newAuth` is the parameter of the
      commands that change one. */
  function Effect(tpm: Tpm, cc: nat, handles: seq<nat>, newAuth: ByteVec): Tpm {
    if handles != [] && ChangesAuth(cc) then
      SetEntityAuth(tpm, handles[0], newAuth)
    else if cc == CC_CLEAR then tpm.(hierarchies := tpm.hierarchies.Cleared())
    else tpm
  }

  function EncodeAuthResponse(r: AuthResponse): ByteVec {
    Sized(r.nonce) + ([r.attributes] + Sized(r.hmac))
  }

  function EncodeAuthResponses(rs: seq<AuthResponse>): ByteVec {
    if rs == [] then [] else EncodeAuthResponse(rs[0]) + EncodeAuthResponses(rs[1..])
  }

  /** The part of a response with sessions that follows the header. */
  function ResponseBody(outHandle: Option<nat>, params: ByteVec, rs: seq<AuthResponse>): ByteVec {
    (if outHandle.Some? then BigEndian(outHandle.value, 4) else [])
      + (BigEndian(|params|, 4) + (params + EncodeAuthResponses(rs)))
  }

  function Header(tag: nat, size: nat, rc: nat): ByteVec {
    BigEndian(tag, 2) + (BigEndian(size, 4) + BigEndian(rc, 4))
  }

  function ErrorResponse(rc: nat): ByteVec {
    Header(TAG_NO_SESSIONS, 10, rc)
  }

  function SuccessResponse(outHandle: Option<nat>, params: ByteVec, rs: seq<AuthResponse>): ByteVec {
    var body := ResponseBody(outHandle, params, rs);
    Header(TAG_SESSIONS, 10 + |body|, 0) + body
  }

  /** The response entries: the HMAC session first, then empty ones for the password sessions. */
  function ResponseEntries(c: Crypto, tpm: Tpm, names: Names, f: Frame, numAuth: nat, choice: Choice): (rs: seq<AuthResponse>)
    requires numAuth <= |f.handles| && f.auths.Some? && |f.auths.value| >= 1 && choice.Succeed?
    ensures |rs| == |f.auths.value|
  {
    var a := f.auths.value[0];
    var rpHash := c.hash(tpm.session.hashAlg, AnsweredText(f.cc, choice.params));
    var hmac := TpmHmac(c, tpm, KeyAuth(tpm, names, f.handles, numAuth), rpHash, choice.nonceTpm, a.nonce, a.attributes);
    [AuthResponse(choice.nonceTpm, a.attributes, hmac)]
      + seq(|f.auths.value| - 1, _ => AuthResponse([], CONTINUE_SESSION, []))
  }

  // ---------- parameter encryption ----------

  /** The value that encryption keys come from: the session key, followed by the auth value of the
      entity that the session authorizes, if any. A binding makes no difference. */
  function SessionValue(tpm: Tpm, handles: seq<nat>, numAuth: nat): ByteVec
    requires numAuth <= |handles|
  {
    tpm.session.sessionKey + (if numAuth == 0 then [] else EntityAuth(tpm, handles[0]))
  }

  const AES_BLOCK_BITS := 128

  /** Key and initial value: as many bits as the session's key size and the block size ask for. */
  function CipherKeys(c: Crypto, s: TpmSession, value: ByteVec, newer: ByteVec, older: ByteVec): (ByteVec, ByteVec) {
    var bits := s.symmetric.keyBits;
    var info := c.kdfa(s.hashAlg, value, "CFB", newer, older, bits + AES_BLOCK_BITS);
    (Take(info, bits / 8), Drop(info, bits / 8))
  }

  /** The parameters start with a sized parameter of the given layout. */
  predicate FirstParamFits(params: ByteVec, sizeLen: nat, valLen: nat) {
    && sizeLen > 0 && valLen > 0
    && sizeLen <= |params| && sizeLen + FromBigEndian(params[..sizeLen]) * valLen <= |params|
  }

  /** The contents of that parameter. */
  function FirstParam(params: ByteVec, sizeLen: nat, valLen: nat): ByteVec
    requires FirstParamFits(params, sizeLen, valLen)
  {
    params[sizeLen..sizeLen + FromBigEndian(params[..sizeLen]) * valLen]
  }

  /** The parameters with the contents of the first one encrypted or decrypted; its size stays
      readable. */
  function TpmXcrypt(c: Crypto, s: TpmSession, value: ByteVec, params: ByteVec, sizeLen: nat, valLen: nat, newer: ByteVec,
                     older: ByteVec, encrypt: bool): Option<ByteVec>
    requires c.Valid()
  {
    if !s.symmetric.isAesCfb || !FirstParamFits(params, sizeLen, valLen) then None else
    var (key, iv) := CipherKeys(c, s, value, newer, older);
    var data := FirstParam(params, sizeLen, valLen);
    Some(Splice(params, sizeLen, if encrypt then c.cfbEncrypt(key, iv, data) else c.cfbDecrypt(key, iv, data)))
  }

  predicate DecryptBit(attributes: byte) {
    (attributes as int / 0x20) % 2 == 1
  }

  predicate EncryptBit(attributes: byte) {
    (attributes as int / 0x40) % 2 == 1
  }

  // ---------- the answer ----------

  /** What the TPM knows of a command by its code: the handles, how many of them need authorization,
      and the layout of the first parameter of command and response. */
  datatype Form = Form(numHandles: nat, numAuth: nat, sizeLen: nat, valLen: nat, outSizeLen: nat, outValLen: nat)

  function FormOf(req: Request, resp: Response): Form {
    Form(|req.handles|, req.numAuth, req.sizeLen, req.valLen, resp.sizeLen, resp.valLen)
  }

  /** The command bytes parse, and their authorizations check out. */
  predicate Authorizes(c: Crypto, tpm: Tpm, names: Names, bytes: ByteVec, form: Form)
    requires form.numAuth <= form.numHandles
  {
    match ParseCommand(bytes, form.numHandles)
    case None => false
    case Some(f) => |f.handles| == form.numHandles && ChecksOut(c, tpm, names, f, form.numAuth)
  }

  /** The parameters as the TPM reads them. */
  function Seen(c: Crypto, tpm: Tpm, f: Frame, form: Form): Option<ByteVec>
    requires c.Valid() && form.numAuth <= |f.handles| && f.auths.Some? && |f.auths.value| >= 1
  {
    var a := f.auths.value[0];
    if !DecryptBit(a.attributes) then Some(f.params) else
    TpmXcrypt(c, tpm.session, SessionValue(tpm, f.handles, form.numAuth), f.params, form.sizeLen, form.valLen, a.nonce,
              tpm.session.nonceTpm, false)
  }

  /** The new auth value that the parameters of a command carry; it is all there is to them. */
  function ReadNewAuth(cc: nat, params: ByteVec): Option<ByteVec> {
    if !ChangesAuth(cc) then Some([]) else
    match ReadSizedBuf(params, 0, 2)
    case Failure(_) => None
    case Success(auth) => if 2 + |auth| == |params| then Some(auth) else None
  }

  /** The response parameters as they go out. `tpm` is the TPM after the command, with its new nonce. */
  function Wire(c: Crypto, tpm: Tpm, f: Frame, form: Form, params: ByteVec): Option<ByteVec>
    requires c.Valid() && form.numAuth <= |f.handles| && f.auths.Some? && |f.auths.value| >= 1
  {
    var a := f.auths.value[0];
    if !EncryptBit(a.attributes) then Some(params) else
    TpmXcrypt(c, tpm.session, SessionValue(tpm, f.handles, form.numAuth), params, form.outSizeLen, form.outValLen,
              tpm.session.nonceTpm, a.nonce, true)
  }

  /** The TPM's answer to the command bytes, its state afterwards, whether the authorizations did not
      check out, and the command parameters it acted on. */
  datatype Answer = Answer(bytes: ByteVec, tpm: Tpm, authFailed: bool, seen: Option<ByteVec>)

  const RC_ATTRIBUTES := 0x082
  const RC_SIZE := 0x095
  const RC_AUTH_FAIL := 0x98E

  /** Whatever the TPM decides to do, it looks at the authorizations. */
  function Respond(c: Crypto, tpm: Tpm, names: Names, bytes: ByteVec, form: Form, choice: Choice): Answer
    requires c.Valid() && form.numAuth <= form.numHandles
  {
    var failed := !Authorizes(c, tpm, names, bytes, form);
    match choice
    case AskRetry => Answer(ErrorResponse(RC_RETRY), tpm, failed, None)
    case Refuse(error) => Answer(ErrorResponse(error.Code()), tpm, failed, None)
    case Succeed(_, _, _) =>
      if failed then Answer(ErrorResponse(RC_AUTH_FAIL), tpm, true, None)
      else CarryOut(c, tpm, names, ParseCommand(bytes, form.numHandles).value, form, choice)
  }

  /** An authorized command: its parameters are decrypted, it takes effect, the nonce is rolled, the
      response parameters are encrypted and the response is authorized. */
  function CarryOut(c: Crypto, tpm: Tpm, names: Names, f: Frame, form: Form, choice: Choice): Answer
    requires c.Valid() && form.numAuth <= |f.handles| && f.auths.Some? && |f.auths.value| >= 1 && choice.Succeed?
  {
    match Seen(c, tpm, f, form)
    case None => Answer(ErrorResponse(RC_ATTRIBUTES), tpm, false, None)
    case Some(seen) =>
      match ReadNewAuth(f.cc, seen)
      case None => Answer(ErrorResponse(RC_SIZE), tpm, false, Some(seen))
      case Some(newAuth) =>
        var after := RolledTpm(tpm, f.cc, f.handles, newAuth, choice.nonceTpm);
        match Wire(c, after, f, form, choice.params)
        case None => Answer(ErrorResponse(RC_ATTRIBUTES), tpm, false, Some(seen))
        case Some(wire) =>
          var entries := ResponseEntries(c, after, names, f, form.numAuth, choice.(params := wire));
          Answer(SuccessResponse(choice.outHandle, wire, entries), after, false, Some(seen))
  }

  /** The TPM after a command that took effect, with its new nonce. */
  function RolledTpm(tpm: Tpm, cc: nat, handles: seq<nat>, newAuth: ByteVec, nonce: ByteVec): Tpm {
    var after := Effect(tpm, cc, handles, newAuth);
    after.(session := after.session.(nonceTpm := nonce))
  }
}
