/** AUTH_SESSION objects (TpmAuthSessions.cpp). */
module AuthSessions {
  import opened Bytes
  import opened CryptoModel
  import opened Wrappers
  import opened SessionModel

  class AuthSession {
    var handle: Handle
    var sessionType: SessionType
    var hashAlg: nat
    var symmetric: SymDef
    var bindObject: Handle
    var salt: ByteVec
    var sessionKey: ByteVec
    var nonceTpm: ByteVec
    var nonceCaller: ByteVec
    var attributes: byte
    var authValue: ByteVec
    var needsHmac: bool
    var needsPassword: bool

    /** The session's value at this moment. */
    function Value(): Session
      reads this
    {
      Session(handle, sessionType, hashAlg, symmetric, bindObject, salt, sessionKey, nonceTpm, nonceCaller, attributes,
              authValue, needsHmac, needsPassword)
    }

    constructor (c: Crypto, sessHandle: Handle, kind: SessionType, alg: nat, caller: ByteVec, tpm: ByteVec, attrs: byte,
                 sym: SymDef, saltValue: ByteVec, boundObject: Handle)
      ensures Value() == Session(sessHandle, kind, alg, sym, boundObject, saltValue,
                                 SessionModel.CalcSessionKey(c, alg, saltValue, boundObject, tpm, caller), tpm, caller, attrs,
                                 if boundObject.value != RH_NULL then boundObject.auth else [], false, false)
    {
      handle, sessionType, nonceTpm, nonceCaller, hashAlg := sessHandle, kind, tpm, caller, alg;
      attributes, symmetric, salt, bindObject := attrs, sym, saltValue, boundObject;
      sessionKey, needsHmac, needsPassword := [], false, false;
      authValue := if boundObject.value != RH_NULL then boundObject.auth else [];
      new;
      CalcSessionKey(c);
    }

    /** AUTH_SESSION::PWAP. */
    constructor Pwap()
      ensures Value() == PWAP_SESSION
    {
      handle, sessionType, nonceTpm, nonceCaller, hashAlg := Handle(RH_PW, [], []), HMAC, [], [], 0;
      attributes, symmetric, salt, bindObject := 0, SymDef(false, 0), [], NULL_HANDLE;
      sessionKey, authValue, needsHmac, needsPassword := [], [], false, false;
    }

    method CalcSessionKey(c: Crypto)
      requires sessionKey == []
      modifies this`sessionKey
      ensures sessionKey == SessionModel.CalcSessionKey(c, hashAlg, salt, bindObject, nonceTpm, nonceCaller)
    {
      if salt == [] && bindObject.value == RH_NULL {
        return;
      }
      var bindAuth := TrimTrailingZeros(bindObject.auth);
      sessionKey := c.kdfa(hashAlg, bindAuth + salt, "ATH", nonceTpm, nonceCaller, c.hashLen(hashAlg) * 8);
    }

    predicate IsPwap()
      reads this
    {
      handle.value == RH_PW
    }

    method GetAuthHmac(c: Crypto, parmHash: ByteVec, directionIn: bool, nonceDec: ByteVec, nonceEnc: ByteVec,
                       authHandle: Option<Handle>) returns (hmac: ByteVec)
      ensures hmac == SessionModel.GetAuthHmac(c, Value(), parmHash, directionIn, nonceDec, nonceEnc, authHandle)
    {
      if needsPassword {
        return authValue;
      }
      var nonceNewer, nonceOlder := nonceTpm, nonceCaller;
      if directionIn {
        nonceNewer, nonceOlder := nonceCaller, nonceTpm;
      }
      var auth := handle.auth;
      if authHandle.Some? && authHandle.value.value != RH_PW && auth == []
         && ((sessionType != POLICY && bindObject.value != authHandle.value.value) || (sessionType == POLICY && needsHmac))
      {
        auth := TrimTrailingZeros(authHandle.value.auth);
      }
      var bufToHmac := Concatenate([parmHash, nonceNewer, nonceOlder, nonceDec, nonceEnc, [attributes]]);
      hmac := c.hmac(hashAlg, sessionKey + auth, bufToHmac);
    }

    method ParamXcrypt(c: Crypto, parm: ByteVec, request: bool) returns (r: Result<ByteVec, TssError>)
      ensures r == SessionModel.ParamXcrypt(c, Value(), parm, request)
    {
      var nonceNewer, nonceOlder := nonceTpm, nonceCaller;
      if request {
        nonceNewer, nonceOlder := nonceCaller, nonceTpm;
      }
      var bits := symmetric.keyBits;
      if !symmetric.isAesCfb || !(bits == 0 || bits == 128 || bits == 256 || bits == 384) {
        return Failure(CipherNotSupported);
      }
      var keyInfo := c.kdfa(hashAlg, sessionKey, "CFB", nonceNewer, nonceOlder, 256);
      var key, iv := Take(keyInfo, bits / 8), Drop(keyInfo, bits / 8);
      r := Success(if request then c.cfbEncrypt(key, iv, parm) else c.cfbDecrypt(key, iv, parm));
    }
  }
}
