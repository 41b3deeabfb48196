/** What DispatchIn makes of the response codes of the TPM. */
module ResponseCodes {
  import opened Bytes
  import opened CryptoModel
  import opened Wrappers
  import opened SessionModel
  import opened DispatchSpec
  import opened HonestTpm

  lemma MultipleOf(m: nat, d: int)
    requires m > 0
    ensures d >= 1 ==> m * d >= m
    ensures d <= -1 ==> m * d <= 0 - m
  {}

  lemma DivMod(a: nat, m: nat, q: nat, r: nat)
    requires a == m * q + r && r < m
    ensures a / m == q && a % m == r
  {
    var d := a / m - q;
    assert m * d == r - a % m;
    MultipleOf(m, d);
  }

  lemma LowBit(a: nat, m: nat, b: nat, k: nat, r: nat)
    requires a == m * (b + 2 * k) + r && r < m && b < 2
    ensures a / m % 2 == b && a % m == r
  {
    DivMod(a, m, b + 2 * k, r);
    DivMod(b + 2 * k, 2, k, b);
  }

  lemma FormatOneBits(x: nat, p: nat, k: nat)
    requires x < 0x40 && p < 2
    ensures var rc := 0x80 + x + 0x40 * p + 0x100 * k;
            rc / 0x80 % 2 == 1 && rc % 0x40 == x
  {
    var rc := 0x80 + x + 0x40 * p + 0x100 * k;
    LowBit(rc, 0x80, 1, k, x + 0x40 * p);
    LowBit(rc, 0x40, p, 1 + 2 * k, x);
  }

  lemma FormatZeroBits(x: nat, v: nat, m: nat, w: nat, u: nat)
    requires x < 0x80 && v < 2 && m < 4 && w < 2
    ensures var rc := x + 0x100 * v + 0x200 * m + 0x800 * w + 0x1000 * u;
            && rc / 0x80 % 2 == 0 && rc % 0x80 == x && rc / 0x100 % 2 == v && rc / 0x800 % 2 == w
  {
    var rc := x + 0x100 * v + 0x200 * m + 0x800 * w + 0x1000 * u;
    LowBit(rc, 0x80, 0, v + 2 * m + 8 * w + 16 * u, x);
    LowBit(rc, 0x100, v, m + 4 * w + 8 * u, x);
    LowBit(rc, 0x800, w, u, x + 0x100 * v + 0x200 * m);
  }

  /** What DispatchIn keeps of a response code is the error: neither what it is about nor the bits above
      the TPM's. */
  lemma BareIsNumber(error: ErrorCode)
    requires error.Valid()
    ensures BareCode(error.Code()) == error.Number() && error.Code() < 0x1_0000_0000
  {
    match error
    case FormatOne(e, parameter, number, upper) =>
      FormatOneBits(e - 0x80, if parameter then 1 else 0, number + 16 * upper);
    case FormatZero(e, version2, middle, warning, upper) =>
      FormatZeroBits(e, if version2 then 1 else 0, middle, if warning then 1 else 0, upper);
  }

  /** Every response code is one of these. */
  lemma EveryCode(rc: nat) returns (error: ErrorCode)
    requires rc < 0x1_0000_0000
    ensures error.Valid() && error.Code() == rc
  {
    var x, y := rc % 0x80, rc / 0x80;
    var z, u := y / 2 % 16, y / 2 / 16;
    assert rc == x + 0x80 * (y % 2 + 2 * (z + 16 * u));
    if y % 2 == 1 {
      error := FormatOne(0x80 + x % 0x40, x / 0x40 == 1, z, u);
    } else {
      error := FormatZero(x, z % 2 == 1, z / 2 % 4, z / 8 == 1, u);
    }
  }

  /** An error that the caller demanded, allowed, or expected by its number. */
  predicate Tolerated(t: Tss, number: nat) {
    t.demandError || t.allowErrors || (t.expectedError != 0 && t.expectedError == number)
  }

  /** Whether an error makes DispatchIn throw. */
  lemma ThrowsIff(t: Tss, error: ErrorCode)
    requires error.Valid() && error.Number() != 0
    ensures error.Code() != 0 && (ThrowsOn(t, error.Code()) <==> !Tolerated(t, error.Number()))
  {
    BareIsNumber(error);
  }

  /** DispatchIn on any complete response with an error: the number of the error is recorded; it is
      reported if the caller demanded or allowed errors, or expected this one, and thrown otherwise. */
  lemma ErrorOutcome(c: Crypto, t: Tss, ss: seq<Session>, cc: nat, resp: Response, b: ByteVec, error: ErrorCode)
    requires c.Valid() && ResponseOk(resp) && HandlesFor(cc, t) && EncOk(t.encSession, ss) && t.pending == cc != 0
    requires (t.auditCommand ==> t.auditAlg != ALG_NULL) && |b| >= 10 && Num(b, 2, 4) == |b|
    requires error.Valid() && error.Number() != 0 && Num(b, 6, 4) == error.Code() != RC_RETRY
    ensures match InStep(c, t, ss, cc, resp, b)
            case Failed(t') => Tolerated(t, error.Number()) && t'.lastResponseCode == error.Number()
            case InThrown(e, t', _) =>
              && !Tolerated(t, error.Number()) && e == TssError.TpmError(error.Number()) && t'.lastResponseCode == error.Number()
            case _ => false
  {
    hide FromBigEndian, BareCode, Complete, CompleteUpdate, ThrowsOn, Tolerated;
    BareIsNumber(error);
    ThrowsIff(t, error);
    SameThrows(t, error.Code());
  }

  lemma SameThrows(t: Tss, rc: nat)
    ensures ThrowsOn(t.(pending := 0), rc) == ThrowsOn(t, rc)
  {
    hide BareCode;
  }
}
