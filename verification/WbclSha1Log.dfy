/** Logs in the SHA-1 format: a log whose first event is no descriptor is read in that format, and the
    iterator yields exactly the encoded events. */
module WbclSha1Log {
  import opened Bytes
  import opened Wrappers
  import opened WbclLog
  import opened WbclRoundTrip

  /** TCG_PCR_EVENT. */
  datatype Sha1Event = Sha1Event(pcr: nat, kind: nat, digest: ByteVec, data: ByteVec)

  function EncodeSha1Event(e: Sha1Event): ByteVec {
    LittleEndian(e.pcr, 4) + (LittleEndian(e.kind, 4) + (e.digest + (LittleEndian(|e.data|, 4) + e.data)))
  }

  function EncodeSha1Events(es: seq<Sha1Event>): ByteVec {
    if es == [] then [] else EncodeSha1Event(es[0]) + EncodeSha1Events(es[1..])
  }

  predicate Sha1EventOk(e: Sha1Event) {
    e.pcr < UINT32_LIMIT && e.kind < UINT32_LIMIT && |e.digest| == 20
  }

  /** The event is a log descriptor: of PCR 0 and without action, with enough data, which start with the
      signature. */
  predicate IsDescriptor(e: Sha1Event) {
    e.pcr == 0 && e.kind == 3 && |e.data| >= 33 && SIGNATURE <= e.data
  }

  function SeenOf(e: Sha1Event): Seen {
    Seen(e.pcr, e.kind, e.digest, e.data)
  }

  function SeenOfAll(es: seq<Sha1Event>): seq<Seen> {
    seq(|es|, i requires 0 <= i < |es| => SeenOf(es[i]))
  }

  lemma Sha1EventLength(e: Sha1Event)
    requires Sha1EventOk(e)
    ensures |EncodeSha1Event(e)| == 32 + |e.data|
  {
    hide LittleEndian;
  }

  /** Where the parts of an event stand. */
  lemma Sha1EventParts(m: Memory, p: nat, e: Sha1Event)
    requires Holds(m, p, EncodeSha1Event(e)) && Sha1EventOk(e) && |e.data| < UINT32_LIMIT
    ensures U32(m, p) == e.pcr && U32(m, p + 4) == e.kind && Holds(m, p + 8, e.digest) && U32(m, p + 28) == |e.data|
    ensures Holds(m, p + 32, e.data)
  {
    hide LittleEndian, U32, Holds;
    var t3 := LittleEndian(|e.data|, 4) + e.data;
    var t2 := e.digest + t3;
    HoldsSplit(m, p, LittleEndian(e.pcr, 4), LittleEndian(e.kind, 4) + t2);
    HoldsSplit(m, p + 4, LittleEndian(e.kind, 4), t2);
    HoldsSplit(m, p + 8, e.digest, t3);
    HoldsSplit(m, p + 28, LittleEndian(|e.data|, 4), e.data);
    Held32(m, p, e.pcr);
    Held32(m, p + 4, e.kind);
    Held32(m, p + 28, |e.data|);
  }

  /** The walkers on an encoded event. */
  lemma Sha1EventIs(m: Memory, log: Layout, e: Sha1Event, p: nat)
    requires !log.agile && log.digestSize == 20 && Sha1EventOk(e) && Holds(m, p, EncodeSha1Event(e))
    requires p + |EncodeSha1Event(e)| <= log.logSize < UINT32_LIMIT
    ensures ElementSize(m, log, p) == Some(32 + |e.data|) && SeenAt(m, log, p) == SeenOf(e)
  {
    hide LittleEndian, U32, Holds, Stretch, EncodeSha1Event;
    Sha1EventLength(e);
    Sha1EventParts(m, p, e);
    HeldStretch(m, p + 8, e.digest);
    HeldStretch(m, p + 32, e.data);
  }

  /** The iterator stands on an event. */
  predicate OnSha1Event(it: Iter, p: nat, e: Sha1Event) {
    it.current == Some(p) && it.currentSize == 32 + |e.data|
  }

  lemma {:induction false} WalkSha1Events(m: Memory, it: Iter, es: seq<Sha1Event>, p: nat)
    requires !it.log.agile && it.log.digestSize == 20 && es != [] && (forall i | 0 <= i < |es| :: Sha1EventOk(es[i]))
    requires Holds(m, p, EncodeSha1Events(es)) && p + |EncodeSha1Events(es)| <= it.log.logSize < UINT32_LIMIT
    requires OnSha1Event(it, p, es[0])
    ensures var walk := Walk(m, it);
            && |walk| >= |es| && walk[..|es|] == SeenOfAll(es)
            && (|walk| == |es| <==> NothingAt(m, it.log, p + |EncodeSha1Events(es)|))
    decreases |es|
  {
    hide EncodeSha1Event, SeenAt, SeenOf, Sha1EventOk, Holds, ElementSize, Walk, NothingAt;
    var e, rest := es[0], es[1..];
    HoldsSplit(m, p, EncodeSha1Event(e), EncodeSha1Events(rest));
    Sha1EventLength(e);
    Sha1EventIs(m, it.log, e, p);
    var next := p + 32 + |e.data|;
    WalkStep(m, it);
    assert SeenOfAll(es) == [SeenOf(e)] + SeenOfAll(rest);
    if rest == [] {
      BehindLast(m, it, next);
      assert SeenOfAll(rest) == [];
    } else {
      HoldsSplit(m, next, EncodeSha1Event(rest[0]), EncodeSha1Events(rest[1..]));
      Sha1EventLength(rest[0]);
      Sha1EventIs(m, it.log, rest[0], next);
      WalkSha1Events(m, Move(m, it).1, rest, next);
    }
  }

  /** Init on a log whose first event is no descriptor. */
  lemma InitOntoSha1Event(m: Memory, es: seq<Sha1Event>, logSize: nat, previous: Iter, beyond: nat -> bv32)
    requires es != [] && Sha1EventOk(es[0]) && !IsDescriptor(es[0])
    requires Holds(m, 0, EncodeSha1Events(es)) && |EncodeSha1Events(es)| <= logSize < UINT32_LIMIT
    ensures var (hr, it) := Init(m, logSize, previous, beyond);
            && hr == S_OK && it.log == Layout(logSize, 20, false, 0, 0, ALG_SHA1) && OnSha1Event(it, 0, es[0])
  {
    hide LittleEndian, U32, Holds, EncodeSha1Event, HasSignature, InitAgile;
    HoldsSplit(m, 0, EncodeSha1Event(es[0]), EncodeSha1Events(es[1..]));
    Sha1EventLength(es[0]);
    Sha1EventParts(m, 0, es[0]);
    SignatureHeld(m, es[0].data);
  }

  lemma SignatureHeld(m: Memory, data: ByteVec)
    requires Holds(m, 32, data)
    ensures |data| >= 33 ==> (HasSignature(m, 32) <==> SIGNATURE <= data)
  {
    if |data| >= 33 && HasSignature(m, 32) {
      assert forall i | 0 <= i < |SIGNATURE| :: data[i] == m(32 + i) == SIGNATURE[i];
    }
  }

  /** The iterator on a log in the SHA-1 format, with whatever follows it in the same area. */
  lemma Sha1LogReadsBack(m: Memory, es: seq<Sha1Event>, logSize: nat, previous: Iter, beyond: nat -> bv32)
    requires es != [] && (forall i | 0 <= i < |es| :: Sha1EventOk(es[i])) && !IsDescriptor(es[0])
    requires Holds(m, 0, EncodeSha1Events(es)) && |EncodeSha1Events(es)| <= logSize < UINT32_LIMIT
    ensures var (hr, it) := Init(m, logSize, previous, beyond);
            var walk, end := Walk(m, it), |EncodeSha1Events(es)|;
            && hr == S_OK && |walk| >= |es| && walk[..|es|] == SeenOfAll(es)
            && (walk == SeenOfAll(es) <==> NothingAt(m, it.log, end))
            && (logSize < end + 32 ==> walk == SeenOfAll(es))
  {
    hide EncodeSha1Event, Sha1EventOk, Holds, Init, Walk, IsDescriptor, SeenOf, ElementSize;
    InitOntoSha1Event(m, es, logSize, previous, beyond);
    var it := Init(m, logSize, previous, beyond).1;
    WalkSha1Events(m, it, es, 0);
    assert |SeenOfAll(es)| == |es|;
    assert Walk(m, it)[..|Walk(m, it)|] == Walk(m, it);
  }
}
