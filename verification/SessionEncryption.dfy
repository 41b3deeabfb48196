/** Parameter encryption between the TSS and the honest TPM: exactly when both sides derive the same
    key, and that then each side reads what the other meant. */
module SessionEncryption {
  import opened Bytes
  import opened Sequences
  import opened CryptoModel
  import opened Wrappers
  import opened TpmBuffers
  import opened WireFormat
  import opened CommandFrames
  import opened SessionModel
  import opened DispatchSpec
  import opened HonestTpm
  import opened SessionProtocol

  // ---------- the keys ----------

  /** What is fed into KDFa for the key and the initial value. */
  datatype KdfInput = KdfInput(alg: nat, value: ByteVec, newer: ByteVec, older: ByteVec, bits: nat)

  /** Key and initial value, split after the bits of the key. */
  function Keys(c: Crypto, input: KdfInput, keyBits: nat): (ByteVec, ByteVec) {
    var info := c.kdfa(input.alg, input.value, "CFB", input.newer, input.older, input.bits);
    (Take(info, keyBits / 8), Drop(info, keyBits / 8))
  }

  /** ParamXcrypt's input for a request or a response. */
  function TssInput(s: Session, request: bool): KdfInput {
    KdfInput(s.hashAlg, s.sessionKey, if request then s.nonceCaller else s.nonceTpm,
             if request then s.nonceTpm else s.nonceCaller, 256)
  }

  /** The TPM's. */
  function TpmInput(tpm: Tpm, handles: seq<nat>, numAuth: nat, newer: ByteVec, older: ByteVec): KdfInput
    requires numAuth <= |handles|
  {
    KdfInput(tpm.session.hashAlg, SessionValue(tpm, handles, numAuth), newer, older,
             tpm.session.symmetric.keyBits + AES_BLOCK_BITS)
  }

  /** The session authorizes no handle or one without an auth value, and its key has 128 bits. */
  predicate XcryptFits(s: Session, tpm: Tpm, handles: seq<nat>, numAuth: nat)
    requires numAuth <= |handles|
  {
    s.symmetric.keyBits == 128 && (numAuth == 0 || EntityAuth(tpm, handles[0]) == [])
  }

  /** The same in terms of what the caller of a dispatch has at hand. */
  lemma FitsBeforeCall(s: Session, tpm: Tpm, admin: Hierarchies, req: Request)
    requires admin.Trimmed() == tpm.hierarchies && req.numAuth <= |req.handles|
    requires req.numAuth > 0 ==> AuthKnown(tpm, req.handles[0])
    ensures XcryptFits(s, tpm, HandleValues(req.handles), req.numAuth)
       <==> s.symmetric.keyBits == 128 && (req.numAuth == 0 || Trim(RhHandles(admin, req.handles, 1)[0].auth) == [])
  {
    hide Trim;
  }

  /** Both sides feed the same into KDFa, for the request as for the response, exactly when XcryptFits:
      the TSS leaves out the auth value of the authorized entity, and always asks for 256 bits. */
  lemma XcryptKeysAgreeIff(s: Session, tpm: Tpm, handles: seq<nat>, numAuth: nat)
    requires SameSession(s, tpm) && numAuth <= |handles|
    ensures TssInput(s, true) == TpmInput(tpm, handles, numAuth, s.nonceCaller, tpm.session.nonceTpm)
       <==> XcryptFits(s, tpm, handles, numAuth)
    ensures TssInput(s, false) == TpmInput(tpm, handles, numAuth, tpm.session.nonceTpm, s.nonceCaller)
       <==> XcryptFits(s, tpm, handles, numAuth)
  {
    hide EntityAuth;
    var auth := if numAuth == 0 then [] else EntityAuth(tpm, handles[0]);
    assert |s.sessionKey + auth| == |s.sessionKey| + |auth|;
    assert s.sessionKey + [] == s.sessionKey;
  }

  // ---------- one sized parameter ----------

  lemma SplicedFirstParam(params: ByteVec, sizeLen: nat, valLen: nat, x: ByteVec, y: ByteVec)
    requires FirstParamFits(params, sizeLen, valLen) && |x| == |y| == |FirstParam(params, sizeLen, valLen)|
    ensures var b := Splice(params, sizeLen, x);
            && FirstParamFits(b, sizeLen, valLen) && FirstParam(b, sizeLen, valLen) == x && |b| == |params|
            && Splice(b, sizeLen, y) == Splice(params, sizeLen, y)
    ensures Splice(params, sizeLen, FirstParam(params, sizeLen, valLen)) == params
  {
    hide FromBigEndian;
    var b := Splice(params, sizeLen, x);
    assert b[..sizeLen] == params[..sizeLen];
  }

  /** DoParmEncryption at the start of the parameters. */
  lemma XcryptAtStart(c: Crypto, s: Session, params: ByteVec, sizeLen: nat, valLen: nat, request: bool)
    requires c.Valid()
    ensures var r := XcryptAt(c, s, params, 0, sizeLen, valLen, request);
            if !FirstParamFits(params, sizeLen, valLen) then r.Failure? else
            var (key, iv) := Keys(c, TssInput(s, request), s.symmetric.keyBits);
            var data := FirstParam(params, sizeLen, valLen);
            if !CipherSupported(s) then r.Failure?
            else r == Success(Splice(params, sizeLen, if request then c.cfbEncrypt(key, iv, data) else c.cfbDecrypt(key, iv, data)))
  {
    hide FromBigEndian, Take, Drop, Splice, XcryptAt, ParamXcrypt;
    if FirstParamFits(params, sizeLen, valLen) {
      var data := FirstParam(params, sizeLen, valLen);
      assert params[0..sizeLen] == params[..sizeLen];
      XcryptAtIs(c, s, params, 0, sizeLen, valLen, request, data);
      ParamXcryptKeys(c, s, data, request);
    } else {
      NothingToXcrypt(c, s, params, sizeLen, valLen, request);
    }
  }

  lemma NothingToXcrypt(c: Crypto, s: Session, params: ByteVec, sizeLen: nat, valLen: nat, request: bool)
    requires c.Valid() && !FirstParamFits(params, sizeLen, valLen)
    ensures XcryptAt(c, s, params, 0, sizeLen, valLen, request).Failure?
  {
    hide FromBigEndian, ParamXcrypt, Splice;
    if sizeLen <= |params| {
      assert params[0..sizeLen] == params[..sizeLen];
    }
  }

  /** ParamXcrypt in terms of its KDFa input. */
  lemma ParamXcryptKeys(c: Crypto, s: Session, data: ByteVec, request: bool)
    ensures var (key, iv) := Keys(c, TssInput(s, request), s.symmetric.keyBits);
            var r := ParamXcrypt(c, s, data, request);
            if !CipherSupported(s) then r.Failure?
            else r == Success(if request then c.cfbEncrypt(key, iv, data) else c.cfbDecrypt(key, iv, data))
  {
    hide Take, Drop;
  }

  predicate CipherSupported(s: Session) {
    s.symmetric.isAesCfb && s.symmetric.keyBits in {0, 128, 256, 384}
  }

  lemma TpmXcryptIs(c: Crypto, tpm: Tpm, handles: seq<nat>, numAuth: nat, params: ByteVec, sizeLen: nat, valLen: nat, newer: ByteVec,
                    older: ByteVec, encrypt: bool)
    requires c.Valid() && numAuth <= |handles| && tpm.session.symmetric.isAesCfb && FirstParamFits(params, sizeLen, valLen)
    ensures var (key, iv) := Keys(c, TpmInput(tpm, handles, numAuth, newer, older), tpm.session.symmetric.keyBits);
            var data := FirstParam(params, sizeLen, valLen);
            TpmXcrypt(c, tpm.session, SessionValue(tpm, handles, numAuth), params, sizeLen, valLen, newer, older, encrypt)
            == Some(Splice(params, sizeLen, if encrypt then c.cfbEncrypt(key, iv, data) else c.cfbDecrypt(key, iv, data)))
  {
    hide SessionValue, FirstParam, FirstParamFits;
  }

  /** The TPM reads the request parameters that the TSS encrypted. */
  lemma RequestRecovered(c: Crypto, s: Session, tpm: Tpm, handles: seq<nat>, numAuth: nat, params: ByteVec, sizeLen: nat, valLen: nat)
    requires c.Valid() && SameSession(s, tpm) && numAuth <= |handles|
    requires XcryptAt(c, s, params, 0, sizeLen, valLen, true).Success?
    ensures var wire := XcryptAt(c, s, params, 0, sizeLen, valLen, true).value;
            var seen := TpmXcrypt(c, tpm.session, SessionValue(tpm, handles, numAuth), wire, sizeLen, valLen, s.nonceCaller,
                                  tpm.session.nonceTpm, false);
            && seen.Some? && FirstParamFits(params, sizeLen, valLen)
            && (exists data: ByteVec :: |data| == |FirstParam(params, sizeLen, valLen)| && seen.value == Splice(params, sizeLen, data))
            && (XcryptFits(s, tpm, handles, numAuth) ==> seen == Some(params))
  {
    hide XcryptAt, TpmXcrypt, FirstParam, FirstParamFits, SessionValue, SameSession, EntityAuth;
    SymmetricSame(s, tpm);
    XcryptAtStart(c, s, params, sizeLen, valLen, true);
    var wire := XcryptAt(c, s, params, 0, sizeLen, valLen, true).value;
    var (key, iv) := Keys(c, TssInput(s, true), s.symmetric.keyBits);
    var (key', iv') := Keys(c, TpmInput(tpm, handles, numAuth, s.nonceCaller, tpm.session.nonceTpm), s.symmetric.keyBits);
    var data := FirstParam(params, sizeLen, valLen);
    var x := c.cfbEncrypt(key, iv, data);
    var y := c.cfbDecrypt(key', iv', x);
    SplicedFirstParam(params, sizeLen, valLen, x, y);
    TpmXcryptIs(c, tpm, handles, numAuth, wire, sizeLen, valLen, s.nonceCaller, tpm.session.nonceTpm, false);
    XcryptKeysAgreeIff(s, tpm, handles, numAuth);
  }

  lemma SymmetricSame(s: Session, tpm: Tpm)
    requires SameSession(s, tpm)
    ensures s.symmetric == tpm.session.symmetric
  {}

  /** The caller gets the response parameters that the TPM encrypted. */
  lemma ResponseRecovered(c: Crypto, s: Session, tpm: Tpm, handles: seq<nat>, numAuth: nat, params: ByteVec, sizeLen: nat, valLen: nat)
    requires c.Valid() && SameSession(s, tpm) && numAuth <= |handles| && tpm.session.symmetric.isAesCfb
    requires FirstParamFits(params, sizeLen, valLen)
    ensures var wire := TpmXcrypt(c, tpm.session, SessionValue(tpm, handles, numAuth), params, sizeLen, valLen,
                                  tpm.session.nonceTpm, s.nonceCaller, true);
            && wire.Some? && |wire.value| == |params| && FirstParamFits(wire.value, sizeLen, valLen)
            && (XcryptFits(s, tpm, handles, numAuth) ==> XcryptAt(c, s, wire.value, 0, sizeLen, valLen, false) == Success(params))
  {
    hide XcryptAt, TpmXcrypt, FirstParam, FirstParamFits, SessionValue, SameSession, EntityAuth;
    SymmetricSame(s, tpm);
    var (key, iv) := Keys(c, TssInput(s, false), s.symmetric.keyBits);
    var (key', iv') := Keys(c, TpmInput(tpm, handles, numAuth, tpm.session.nonceTpm, s.nonceCaller), s.symmetric.keyBits);
    var data := FirstParam(params, sizeLen, valLen);
    var x := c.cfbEncrypt(key', iv', data);
    SplicedFirstParam(params, sizeLen, valLen, x, data);
    TpmXcryptIs(c, tpm, handles, numAuth, params, sizeLen, valLen, tpm.session.nonceTpm, s.nonceCaller, true);
    var wire := TpmXcrypt(c, tpm.session, SessionValue(tpm, handles, numAuth), params, sizeLen, valLen, tpm.session.nonceTpm,
                          s.nonceCaller, true).value;
    XcryptAtStart(c, s, wire, sizeLen, valLen, false);
    XcryptKeysAgreeIff(s, tpm, handles, numAuth);
  }

  // ---------- where it fails ----------

  function Flipped(data: ByteVec): ByteVec {
    seq(|data|, i requires 0 <= i < |data| => 0xFF - data[i])
  }

  /** Primitives that meet what is assumed of the real ones: KDFa gives out its key and the number of
      bits, and the cipher flips all bits unless its key is empty. */
  function Transparent(): Crypto {
    Crypto((_, _) => [], _ => 0, (_, _, _) => [], (_, key, _, _, _, bits) => if bits == 256 then key else [1] + key,
           (key, _, data) => if key == [] then data else Flipped(data),
           (key, _, data) => if key == [] then data else Flipped(data))
  }

  lemma TransparentIsValid()
    ensures Transparent().Valid()
  {
    forall data: ByteVec
      ensures Flipped(Flipped(data)) == data
    {}
  }

  /** An unbound, unsalted decrypt session, on both sides. */
  function PlainSession(handle: nat, keyBits: nat, nonceTpm: ByteVec, nonceCaller: ByteVec): Session {
    Session(Handle(handle, [], []), HMAC, 0, SymDef(true, keyBits), NULL_HANDLE, [], [], nonceTpm, nonceCaller, 0x21, [], false, false)
  }

  function OwnedTpm(ownerAuth: ByteVec, handle: nat, keyBits: nat, nonceTpm: ByteVec): Tpm {
    Tpm(Hierarchies(ownerAuth, [], [], []), map[], TpmSession(handle, 0, SymDef(true, keyBits), [], nonceTpm, None, []))
  }

  /** An owner auth value of [7] is changed to [1] over such a session. With a key of 128 bits the TSS
      leaves the auth value out of the key, with one of 256 bits it asks KDFa for too few bits; either
      way the TPM reads another new auth value. With 128 bits and no owner auth value it reads the
      right one. */
  lemma NewAuthGarbled(keyBits: nat, ownerAuth: ByteVec, handle: nat, nonceTpm: ByteVec, nonceCaller: ByteVec)
    requires keyBits == 128 || keyBits == 256
    requires ownerAuth == [] || ownerAuth == [7]
    ensures Transparent().Valid()
    ensures
      var s, tpm := PlainSession(handle, keyBits, nonceTpm, nonceCaller), OwnedTpm(ownerAuth, handle, keyBits, nonceTpm);
      var sent := XcryptAt(Transparent(), s, Sized([1]), 0, 2, 1, true);
      && sent.Success?
      && var seen := TpmXcrypt(Transparent(), tpm.session, SessionValue(tpm, [RH_OWNER], 1), sent.value, 2, 1, nonceCaller, nonceTpm, false);
         seen.Some? && ReadNewAuth(CC_HIERARCHY_CHANGE_AUTH, seen.value)
                       == Some(if keyBits == 128 && ownerAuth == [] then [1] else [0xFE])
  {
    hide XcryptAt, TpmXcrypt, Sized, SessionValue, ReadSizedBuf, Transparent;
    TransparentIsValid();
    SizedIsFirst([1]);
    SizedIsFirst([0xFE]);
    SentPlain(handle, keyBits, nonceTpm, nonceCaller);
    ReadByOwner(keyBits, ownerAuth, handle, nonceTpm, nonceCaller);
  }

  /** Without a session key these primitives encrypt nothing. */
  lemma SentPlain(handle: nat, keyBits: nat, nonceTpm: ByteVec, nonceCaller: ByteVec)
    requires keyBits == 128 || keyBits == 256
    ensures Transparent().Valid()
    ensures XcryptAt(Transparent(), PlainSession(handle, keyBits, nonceTpm, nonceCaller), Sized([1]), 0, 2, 1, true) == Success(Sized([1]))
  {
    hide XcryptAt, FromBigEndian, BigEndian;
    TransparentIsValid();
    SizedIsFirst([1]);
    XcryptAtStart(Transparent(), PlainSession(handle, keyBits, nonceTpm, nonceCaller), Sized([1]), 2, 1, true);
    assert Splice(Sized([1]), 2, [1]) == Sized([1]);
  }

  lemma ReadByOwner(keyBits: nat, ownerAuth: ByteVec, handle: nat, nonceTpm: ByteVec, nonceCaller: ByteVec)
    requires keyBits == 128 || keyBits == 256
    requires ownerAuth == [] || ownerAuth == [7]
    ensures Transparent().Valid()
    ensures
      var tpm := OwnedTpm(ownerAuth, handle, keyBits, nonceTpm);
      TpmXcrypt(Transparent(), tpm.session, SessionValue(tpm, [RH_OWNER], 1), Sized([1]), 2, 1, nonceCaller, nonceTpm, false)
      == Some(Sized(if keyBits == 128 && ownerAuth == [] then [1] else [0xFE]))
  {
    hide TpmXcrypt, FromBigEndian, BigEndian;
    TransparentIsValid();
    SizedIsFirst([1]);
    var c, tpm := Transparent(), OwnedTpm(ownerAuth, handle, keyBits, nonceTpm);
    TpmXcryptIs(c, tpm, [RH_OWNER], 1, Sized([1]), 2, 1, nonceCaller, nonceTpm, false);
    assert [] + ownerAuth == ownerAuth;
    var key := Keys(c, TpmInput(tpm, [RH_OWNER], 1, nonceCaller, nonceTpm), keyBits).0;
    assert key == [] <==> keyBits == 128 && ownerAuth == [];
    assert Flipped([1]) == [0xFE];
    assert Splice(Sized([1]), 2, [1]) == Sized([1]) && Splice(Sized([1]), 2, [0xFE]) == Sized([0xFE]);
  }

  /** A buffer behind its length, alone. */
  lemma SizedIsFirst(x: ByteVec)
    requires |x| < 0x1_0000
    ensures |Sized(x)| == 2 + |x| && FirstParamFits(Sized(x), 2, 1) && FirstParam(Sized(x), 2, 1) == x
    ensures ReadSizedBuf(Sized(x), 0, 2) == Success(x)
  {
    hide BigEndian, FromBigEndian;
    var b := Sized(x);
    assert b[0..|b|] == b && At(b, 0, b);
    ReadsSized(b, 0, x);
    Pow256Values();
    AtSplit(b, 0, BigEndian(|x|, 2), x);
    NumberAt(b, 0, |x|, 2);
    assert b[0..2] == b[..2];
  }
}
