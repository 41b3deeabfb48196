/** Handles, authorization values and authorization sessions (TpmAuthSessions.cpp and the parts of
    TpmTypeExtensions.cpp and TpmHelpers.cpp they rest on). */
module SessionModel {
  import opened Bytes
  import opened CryptoModel
  import opened Wrappers
  import opened TpmBuffers

  const RH_OWNER := 0x4000_0001
  const RH_NULL := 0x4000_0007
  const RH_PW := 0x4000_0009
  const RH_LOCKOUT := 0x4000_000A
  const RH_ENDORSEMENT := 0x4000_000B
  const RH_PLATFORM := 0x4000_000C

  /** The exceptions of Tpm2 and AUTH_SESSION. */
  datatype TssError =
    | Marshal(cause: MarshalError)
    | CommandPending | NothingPending | WrongCommand | AuditNotEnabled | NoDevice
    | NameNotSet | UnknownHandleType | CipherNotSupported | NotEncryptable
    | ShortResponse | InconsistentSize | WrongSessionTag | InvalidHmac | DataBeyondAuthArea
    | TpmError(rc: nat)

  /** TPM_HANDLE: the handle value and the auth value and name the TSS keeps with it. */
  datatype Handle = Handle(value: nat, auth: ByteVec, name: ByteVec)

  /** TPM_HANDLE::GetName. */
  function GetName(h: Handle): Result<ByteVec, TssError> {
    var kind := h.value / 0x100_0000;
    if kind == 0 || kind == 2 || kind == 3 || kind == 0x40 then Success(BigEndian(h.value, 4))
    else if kind == 1 || kind == 0x80 || kind == 0x81 then
      if h.name == [] then Failure(NameNotSet) else Success(h.name)
    else Failure(UnknownHandleType)
  }

  // ---------- trailing zeros ----------

  /** An auth value without its trailing zeros. */
  function Trim(b: ByteVec): (t: ByteVec)
    ensures t <= b
    ensures t == [] || t[|t| - 1] != 0
    ensures forall i | |t| <= i < |b| :: b[i] == 0
  {
    if b == [] || b[|b| - 1] != 0 then b else Trim(b[..|b| - 1])
  }

  /** There is only one prefix without a trailing zero that leaves nothing but zeros. */
  lemma TrimUnique(b: ByteVec, t: ByteVec)
    requires t <= b && (t == [] || t[|t| - 1] != 0) && forall i | |t| <= i < |b| :: b[i] == 0
    ensures t == Trim(b)
  {
    var u := Trim(b);
    assert u != [] ==> b[|u| - 1] == u[|u| - 1];
    assert t != [] ==> b[|t| - 1] == t[|t| - 1];
    assert |t| == |u|;
  }

  /** Helpers::TrimTrailingZeros. */
  method TrimTrailingZeros(buf: ByteVec) returns (r: ByteVec)
    ensures r == Trim(buf)
  {
    if buf == [] || buf[|buf| - 1] != 0 {
      return buf;
    }
    var size: nat := |buf|;
    while size > 0 && buf[size - 1] == 0
      invariant size <= |buf| && forall i | size <= i < |buf| :: buf[i] == 0
    {
      size := size - 1;
    }
    r := buf[..size];
    TrimUnique(buf, r);
  }

  /** Helpers::Concatenate over a vector of buffers: copies into a buffer of the total size. */
  method Concatenate(bufs: seq<ByteVec>) returns (res: ByteVec)
    ensures res == Concat(bufs)
  {
    var size := 0;
    var i := 0;
    while i < |bufs|
      invariant i <= |bufs| && size == |Concat(bufs[..i])|
    {
      assert bufs[..i + 1] == bufs[..i] + [bufs[i]];
      ConcatSnoc(bufs[..i], bufs[i]);
      size := size + |bufs[i]|;
      i := i + 1;
    }
    assert bufs[..i] == bufs;
    res := Zeros(size);
    var pos := 0;
    i := 0;
    assert |Concat(bufs)| == size;
    while i < |bufs|
      invariant i <= |bufs| && |res| == size == |Concat(bufs)| && pos == |Concat(bufs[..i])| <= size
      invariant res[..pos] == Concat(bufs[..i])
    {
      assert bufs == bufs[..i + 1] + bufs[i + 1..];
      assert bufs[..i + 1] == bufs[..i] + [bufs[i]];
      ConcatAppend(bufs[..i + 1], bufs[i + 1..]);
      ConcatSnoc(bufs[..i], bufs[i]);
      var next := pos + |bufs[i]|;
      res := res[..pos] + bufs[i] + res[next..];
      assert res[..next] == res[..pos] + bufs[i];
      pos := next;
      i := i + 1;
    }
    assert bufs[..i] == bufs;
    assert res[..pos] == res;
  }

  // ---------- sessions ----------

  datatype SessionType = HMAC | POLICY | TRIAL

  /** TPMT_SYM_DEF as far as parameter encryption looks at it. */
  datatype SymDef = SymDef(isAesCfb: bool, keyBits: nat)

  /** The value of an AUTH_SESSION object at one moment. */
  datatype Session = Session(
    handle: Handle,
    sessionType: SessionType,
    hashAlg: nat,
    symmetric: SymDef,
    bindObject: Handle,
    salt: ByteVec,
    sessionKey: ByteVec,
    nonceTpm: ByteVec,
    nonceCaller: ByteVec,
    attributes: byte,
    authValue: ByteVec,
    needsHmac: bool,
    needsPassword: bool)
  {
    predicate IsPwap() {
      handle.value == RH_PW
    }

    predicate Decrypts() {
      (attributes as int / 0x20) % 2 == 1
    }

    predicate Encrypts() {
      (attributes as int / 0x40) % 2 == 1
    }
  }

  const CONTINUE_SESSION: byte := 1

  const NULL_HANDLE := Handle(RH_NULL, [], [])

  /** AUTH_SESSION::PWAP(). */
  const PWAP_SESSION := Session(
    Handle(RH_PW, [], []), HMAC, 0, SymDef(false, 0), NULL_HANDLE, [], [], [], [], 0, [], false, false)

  /** AUTH_SESSION::CalcSessionKey (Part 1, section 19.6.8). */
  function CalcSessionKey(c: Crypto, hashAlg: nat, salt: ByteVec, bind: Handle, nonceTpm: ByteVec, nonceCaller: ByteVec):
    ByteVec
  {
    if salt == [] && bind.value == RH_NULL then []
    else c.kdfa(hashAlg, Trim(bind.auth) + salt, "ATH", nonceTpm, nonceCaller, c.hashLen(hashAlg) * 8)
  }

  /** The auth value that GetAuthHmac appends to the session key. */
  function HmacAuth(s: Session, authHandle: Option<Handle>): ByteVec {
    if authHandle.Some? && authHandle.value.value != RH_PW && s.handle.auth == []
       && ((s.sessionType != POLICY && s.bindObject.value != authHandle.value.value)
           || (s.sessionType == POLICY && s.needsHmac))
    then Trim(authHandle.value.auth)
    else s.handle.auth
  }

  /** What is authenticated: the parameter hash, the newer and the older nonce, the nonces of other
      encryption sessions and the session attributes (Part 1, section 19.6). */
  function HmacData(parmHash: ByteVec, newer: ByteVec, older: ByteVec, nonceDec: ByteVec, nonceEnc: ByteVec,
                    attributes: byte): ByteVec
  {
    Concat([parmHash, newer, older, nonceDec, nonceEnc, [attributes]])
  }

  lemma HmacDataIs(parmHash: ByteVec, newer: ByteVec, older: ByteVec, nonceDec: ByteVec, nonceEnc: ByteVec, attributes: byte)
    ensures HmacData(parmHash, newer, older, nonceDec, nonceEnc, attributes)
         == parmHash + newer + older + nonceDec + nonceEnc + [attributes]
  {
    var last := [attributes];
    assert Concat([last]) == last + Concat([last][1..]);
    assert Concat([nonceEnc, last]) == nonceEnc + Concat([nonceEnc, last][1..]);
    assert Concat([nonceDec, nonceEnc, last]) == nonceDec + Concat([nonceDec, nonceEnc, last][1..]);
    assert Concat([older, nonceDec, nonceEnc, last]) == older + Concat([older, nonceDec, nonceEnc, last][1..]);
    assert Concat([newer, older, nonceDec, nonceEnc, last]) == newer + Concat([newer, older, nonceDec, nonceEnc, last][1..]);
  }

  /** AUTH_SESSION::GetAuthHmac. */
  function GetAuthHmac(c: Crypto, s: Session, parmHash: ByteVec, directionIn: bool, nonceDec: ByteVec,
                       nonceEnc: ByteVec, authHandle: Option<Handle>): ByteVec
  {
    if s.needsPassword then s.authValue else
    var newer := if directionIn then s.nonceCaller else s.nonceTpm;
    var older := if directionIn then s.nonceTpm else s.nonceCaller;
    c.hmac(s.hashAlg, s.sessionKey + HmacAuth(s, authHandle),
           HmacData(parmHash, newer, older, nonceDec, nonceEnc, s.attributes))
  }

  /** The HMAC in both directions, for a session without an auth value of its own: what is in the key,
      and what is authenticated, in order. A policy session that sends the password sends that. */
  lemma AuthHmacIs(c: Crypto, s: Session, parmHash: ByteVec, directionIn: bool, nonceDec: ByteVec, nonceEnc: ByteVec,
                   authHandle: Option<Handle>)
    requires s.handle.auth == []
    ensures var used := authHandle.Some? && authHandle.value.value != RH_PW
                        && (if s.sessionType == POLICY then s.needsHmac else authHandle.value.value != s.bindObject.value);
            var auth := if used then Trim(authHandle.value.auth) else [];
            var nonces := if directionIn then s.nonceCaller + s.nonceTpm else s.nonceTpm + s.nonceCaller;
            GetAuthHmac(c, s, parmHash, directionIn, nonceDec, nonceEnc, authHandle)
            == if s.needsPassword then s.authValue
               else c.hmac(s.hashAlg, s.sessionKey + auth, parmHash + nonces + nonceDec + nonceEnc + [s.attributes])
  {
    hide Trim, HmacData;
    var newer, older := if directionIn then s.nonceCaller else s.nonceTpm, if directionIn then s.nonceTpm else s.nonceCaller;
    HmacDataIs(parmHash, newer, older, nonceDec, nonceEnc, s.attributes);
    assert parmHash + (newer + older) + nonceDec + nonceEnc + [s.attributes]
        == parmHash + newer + older + nonceDec + nonceEnc + [s.attributes];
  }

  /** The first `n` bytes, or all of them. */
  function Take(b: ByteVec, n: nat): ByteVec {
    if n <= |b| then b[..n] else b
  }

  function Drop(b: ByteVec, n: nat): ByteVec {
    if n <= |b| then b[n..] else []
  }

  /** AUTH_SESSION::ParamXcrypt. The key bits pass a mask test, so 0 and 384 pass it as well. */
  function ParamXcrypt(c: Crypto, s: Session, data: ByteVec, request: bool): Result<ByteVec, TssError> {
    var bits := s.symmetric.keyBits;
    if !s.symmetric.isAesCfb || !(bits == 0 || bits == 128 || bits == 256 || bits == 384) then
      Failure(CipherNotSupported)
    else
      var newer := if request then s.nonceCaller else s.nonceTpm;
      var older := if request then s.nonceTpm else s.nonceCaller;
      var keyInfo := c.kdfa(s.hashAlg, s.sessionKey, "CFB", newer, older, 256);
      var key, iv := Take(keyInfo, bits / 8), Drop(keyInfo, bits / 8);
      Success(if request then c.cfbEncrypt(key, iv, data) else c.cfbDecrypt(key, iv, data))
  }

  lemma ParamXcryptLength(c: Crypto, s: Session, data: ByteVec, request: bool)
    requires c.Valid()
    ensures var r := ParamXcrypt(c, s, data, request); r.Success? ==> |r.value| == |data|
  {}

  // ---------- hierarchies ----------

  /** The auth values behind the _AdminXxx handles, and the TPM's own. */
  datatype Hierarchies = Hierarchies(owner: ByteVec, endorsement: ByteVec, platform: ByteVec, lockout: ByteVec) {
    predicate Has(handle: nat) {
      handle == RH_OWNER || handle == RH_ENDORSEMENT || handle == RH_PLATFORM || handle == RH_LOCKOUT
    }

    function Get(handle: nat): ByteVec
      requires Has(handle)
    {
      if handle == RH_OWNER then owner
      else if handle == RH_ENDORSEMENT then endorsement
      else if handle == RH_PLATFORM then platform
      else lockout
    }

    function Set(handle: nat, auth: ByteVec): Hierarchies {
      if handle == RH_OWNER then this.(owner := auth)
      else if handle == RH_ENDORSEMENT then this.(endorsement := auth)
      else if handle == RH_PLATFORM then this.(platform := auth)
      else if handle == RH_LOCKOUT then this.(lockout := auth)
      else this
    }

    /** What TPM2_Clear does to the auth values. */
    function Cleared(): Hierarchies {
      this.(owner := [], endorsement := [], lockout := [])
    }

    function Trimmed(): Hierarchies {
      Hierarchies(Trim(owner), Trim(endorsement), Trim(platform), Trim(lockout))
    }
  }

  /** Tpm2::_SetRhAuthValue. */
  function SetRhAuthValue(admin: Hierarchies, h: Handle): Handle {
    if admin.Has(h.value) then h.(auth := admin.Get(h.value)) else h
  }
}
