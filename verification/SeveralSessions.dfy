/** Commands over several sessions: which of them encrypt, and where the nonces of those enter the HMACs. */
module SeveralSessions {
  import opened Bytes
  import opened CryptoModel
  import opened Wrappers
  import opened CommandFrames
  import opened SessionModel
  import opened DispatchSpec
  import opened HonestTpm
  import opened SessionProtocol

  /** Whether session `i` encrypts the request or the response. Password sessions do not. */
  predicate Encrypting(ss: seq<Session>, i: nat, request: bool)
    requires i < |ss|
  {
    !ss[i].IsPwap() && if request then DecryptBit(ss[i].attributes) else EncryptBit(ss[i].attributes)
  }

  lemma BitsAreFlags(s: Session)
    ensures s.Decrypts() == DecryptBit(s.attributes) && s.Encrypts() == EncryptBit(s.attributes)
  {}

  /** The session that is used is the last one that encrypts. */
  lemma {:induction false} LastWithIsLast(ss: seq<Session>, request: bool)
    ensures match LastWith(ss, request)
            case None => forall i | 0 <= i < |ss| :: !Encrypting(ss, i, request)
            case Some(k) => k < |ss| && Encrypting(ss, k, request) && forall i | k < i < |ss| :: !Encrypting(ss, i, request)
  {
    if ss != [] {
      LastWithIsLast(ss[..|ss| - 1], request);
      BitsAreFlags(ss[|ss| - 1]);
      assert forall i | 0 <= i < |ss| - 1 :: Encrypting(ss[..|ss| - 1], i, request) == Encrypting(ss, i, request);
    }
  }

  /** Not more than one session may encrypt in one direction (section 21 of Part 1). */
  predicate OneEncrypting(ss: seq<Session>, request: bool) {
    forall i, j | 0 <= i < j < |ss| :: !(Encrypting(ss, i, request) && Encrypting(ss, j, request))
  }

  /** Session `k` encrypts in that direction, or none does. */
  predicate IsEncrypting(ss: seq<Session>, request: bool, k: Option<nat>) {
    match k
    case None => forall i | 0 <= i < |ss| :: !Encrypting(ss, i, request)
    case Some(i) => i < |ss| && Encrypting(ss, i, request)
  }

  /** The nonces that are to protect the first session from the removal of the others: that of the
      session that encrypts the request, and that of the session that encrypts the response, unless it
      is the first session or the same one. */
  function GuardNonces(ss: seq<Session>, dec: Option<nat>, enc: Option<nat>): ByteVec
    requires IsEncrypting(ss, true, dec) && IsEncrypting(ss, false, enc)
  {
    (if dec.Some? && dec.value > 0 then ss[dec.value].nonceTpm else [])
      + (if enc.Some? && enc.value > 0 && enc != dec then ss[enc.value].nonceTpm else [])
  }

  lemma GuardNoncesAre(ss: seq<Session>, dec: Option<nat>, enc: Option<nat>)
    requires OneEncrypting(ss, true) && OneEncrypting(ss, false) && IsEncrypting(ss, true, dec) && IsEncrypting(ss, false, enc)
    ensures LastWith(ss, true) == dec && LastWith(ss, false) == enc
    ensures DecNonce(ss) + EncNonce(ss) == GuardNonces(ss, dec, enc)
  {
    hide LastWith, Encrypting;
    LastWithIsLast(ss, true);
    LastWithIsLast(ss, false);
    SameEncrypting(ss, true, dec, LastWith(ss, true));
    SameEncrypting(ss, false, enc, LastWith(ss, false));
  }

  lemma SameEncrypting(ss: seq<Session>, request: bool, i: Option<nat>, j: Option<nat>)
    requires OneEncrypting(ss, request) && IsEncrypting(ss, request, i) && IsEncrypting(ss, request, j)
    ensures i == j
  {
    hide Encrypting;
  }

  /** What an HMAC session authenticates in a command. The guarding nonces stand in the text of every
      such session, so it is the text with those nonces in the first session alone exactly if this is
      the first session or there are none. */
  lemma EntryText(c: Crypto, ss: seq<Session>, hs: seq<Handle>, numAuth: nat, data: ByteVec, i: nat, dec: Option<nat>, enc: Option<nat>)
    requires i < |ss| && numAuth <= |hs| && PwapHandles(ss, hs) && ss[i].sessionType == HMAC && !ss[i].IsPwap() && !ss[i].needsPassword
    requires ss[i].handle.auth == [] && OneEncrypting(ss, true) && OneEncrypting(ss, false)
    requires IsEncrypting(ss, true, dec) && IsEncrypting(ss, false, enc)
    ensures var s, guards := ss[i], GuardNonces(ss, dec, enc);
            var auth := if i < numAuth && hs[i].value !in {RH_PW, s.bindObject.value} then Trim(hs[i].auth) else [];
            var text := c.hash(s.hashAlg, data) + (s.nonceCaller + s.nonceTpm) + guards + [s.attributes];
            var first := c.hash(s.hashAlg, data) + (s.nonceCaller + s.nonceTpm) + (if i == 0 then guards else []) + [s.attributes];
            && AuthEntry(c, ss, hs, numAuth, data, DecNonce(ss), EncNonce(ss), i)
               == AuthCommand(s.handle.value, s.nonceCaller, s.attributes, c.hmac(s.hashAlg, s.sessionKey + auth, text))
            && (text == first <==> i == 0 || guards == [])
  {
    hide Trim, GetAuthHmac, LastWith, Encrypting, DecNonce, EncNonce;
    GuardNoncesAre(ss, dec, enc);
    var s := ss[i];
    var s' := if i < numAuth then s.(authValue := hs[i].auth) else s;
    var parmHash, dn, en := c.hash(s.hashAlg, data), DecNonce(ss), EncNonce(ss);
    AuthHmacIs(c, s', parmHash, true, dn, en, if i < numAuth then Some(hs[i]) else None);
    var front := parmHash + (s.nonceCaller + s.nonceTpm);
    assert front + dn + en + [s.attributes] == front + (dn + en) + [s.attributes];
    assert |front + GuardNonces(ss, dec, enc) + [s.attributes]| == |front| + |GuardNonces(ss, dec, enc)| + 1;
    assert front + [] == front;
  }

  /** What a policy session sends: an HMAC if its policy asks for the auth value, the plain auth value if
      it asks for the password, and otherwise whatever the entry before it has sent, which is nothing
      exactly for the first entry and behind an entry that sent nothing. */
  lemma PolicyEntry(c: Crypto, ss: seq<Session>, hs: seq<Handle>, numAuth: nat, data: ByteVec, dn: ByteVec, en: ByteVec, i: nat)
    requires i < |ss| && numAuth <= |hs| && PwapHandles(ss, hs) && ss[i].sessionType == POLICY && !ss[i].IsPwap()
    requires ss[i].handle.auth == [] && !(ss[i].needsHmac && ss[i].needsPassword) && (ss[i].needsPassword ==> i < |hs|)
    ensures var s, a := ss[i], AuthEntry(c, ss, hs, numAuth, data, dn, en, i);
            && a.handle == s.handle.value && a.nonce == s.nonceCaller && a.attributes == s.attributes
            && if s.needsHmac then
                 var auth := if i < numAuth && hs[i].value != RH_PW then Trim(hs[i].auth) else [];
                 a.hmac == c.hmac(s.hashAlg, s.sessionKey + auth,
                                  c.hash(s.hashAlg, data) + (s.nonceCaller + s.nonceTpm) + dn + en + [s.attributes])
               else if s.needsPassword then a.hmac == hs[i].auth
               else
                 (a.hmac == [] <==> i == 0 || AuthEntry(c, ss, hs, numAuth, data, dn, en, i - 1).hmac == [])
  {
    hide Trim, GetAuthHmac;
    var s := ss[i];
    var s' := if i < numAuth then s.(authValue := hs[i].auth) else s;
    AuthHmacIs(c, s', c.hash(s.hashAlg, data), true, dn, en, if i < numAuth then Some(hs[i]) else None);
  }
}
