/** The nested TLV walk over the data of a boot event (PcpToolDisplaySIPA in Support.cpp): which
    records it visits, at which level. Which record types are containers is given by two flags of
    the Windows SDK and is a parameter here. */
module SipaWalks {
  import opened Bytes
  import opened Sequences
  import opened Wrappers

  /** A record is visited: its nesting level, its type, its data. */
  datatype Visit = Visit(level: nat, kind: nat, data: ByteVec)

  function Kind(b: ByteVec): nat
    requires |b| >= 8
  {
    FromLittleEndian(b[..4])
  }

  function Len(b: ByteVec): nat
    requires |b| >= 8
  {
    FromLittleEndian(b[4..8])
  }

  /** The visits, and whether the walk ended without E_INVALIDARG. The guard leaves a rest of eight
      or fewer bytes alone. */
  function Walk(isContainer: nat -> bool, b: ByteVec, level: nat): (r: (bool, seq<Visit>))
    decreases |b|
  {
    if |b| <= 8 then (true, []) else
    var kind, len := Kind(b), Len(b);
    if |b| < 8 + len then (false, []) else
    var data, rest := b[8..8 + len], b[8 + len..];
    var visit := [Visit(level, kind, data)];
    var inner := if len > 0 && isContainer(kind) then Walk(isContainer, data, level + 1) else (true, []);
    if !inner.0 then (false, visit + inner.1) else
    var tail := Walk(isContainer, rest, level);
    (tail.0, visit + inner.1 + tail.1)
  }

  /** PcpToolDisplaySIPA on `cb` bytes at `start`. */
  method DisplaySipa(isContainer: nat -> bool, buf: ByteVec, start: nat, cb: nat, level: nat) returns (ok: bool, visits: seq<Visit>)
    requires start + cb <= |buf|
    ensures (ok, visits) == Walk(isContainer, buf[start..start + cb], level)
    decreases cb
  {
    hide FromLittleEndian, Walk;
    visits := [];
    var p, n := start, cb;
    ghost var all := Walk(isContainer, buf[start..start + cb], level);
    assert [] + all.1 == all.1;
    while n > 8
      invariant start <= p && p + n == start + cb
      invariant all == Prefixed(visits, Walk(isContainer, buf[p..p + n], level))
    {
      SubSlice(buf, p, n, 0, 4);
      SubSlice(buf, p, n, 4, 8);
      WalkStep(isContainer, buf[p..p + n], level, visits);
      var sipaType, sipaLen := FromLittleEndian(buf[p..p + 4]), FromLittleEndian(buf[p + 4..p + 8]);
      if n < 8 + sipaLen {
        return false, visits;
      }
      SubSlice(buf, p, n, 8, 8 + sipaLen);
      SubSlice(buf, p, n, 8 + sipaLen, n);
      visits := visits + [Visit(level, sipaType, buf[p + 8..p + 8 + sipaLen])];
      if sipaLen > 0 && isContainer(sipaType) {
        var inner;
        ok, inner := DisplaySipa(isContainer, buf, p + 8, sipaLen, level + 1);
        visits := visits + inner;
        if !ok {
          return;
        }
      }
      p, n := p + 8 + sipaLen, n - (8 + sipaLen);
    }
    WalkEnd(isContainer, buf[p..p + n], level, visits);
    ok := true;
  }

  /** The outcome of a walk after earlier visits. */
  function Prefixed(visits: seq<Visit>, r: (bool, seq<Visit>)): (bool, seq<Visit>) {
    (r.0, visits + r.1)
  }

  lemma SubSlice(b: ByteVec, p: nat, n: nat, i: nat, j: nat)
    requires p + n <= |b| && i <= j <= n
    ensures b[p..p + n][i..j] == b[p + i..p + j]
  {
    SliceWithin(b, p, b[p..p + n], i, j);
  }

  lemma WalkEnd(isContainer: nat -> bool, b: ByteVec, level: nat, visits: seq<Visit>)
    requires |b| <= 8
    ensures Prefixed(visits, Walk(isContainer, b, level)) == (true, visits)
  {
    assert visits + [] == visits;
  }

  /** One round of the loop. */
  lemma WalkStep(isContainer: nat -> bool, b: ByteVec, level: nat, visits: seq<Visit>)
    requires |b| > 8
    ensures var kind, len := FromLittleEndian(b[0..4]), FromLittleEndian(b[4..8]);
            var r := Prefixed(visits, Walk(isContainer, b, level));
            if |b| < 8 + len then r == (false, visits) else
            var seen := visits + [Visit(level, kind, b[8..8 + len])];
            if len > 0 && isContainer(kind) then
              var inner := Walk(isContainer, b[8..8 + len], level + 1);
              if !inner.0 then r == (false, seen + inner.1)
              else r == Prefixed(seen + inner.1, Walk(isContainer, b[8 + len..|b|], level))
            else r == Prefixed(seen, Walk(isContainer, b[8 + len..|b|], level))
  {
    hide FromLittleEndian;
    assert b[0..4] == b[..4];
    var len := FromLittleEndian(b[4..8]);
    if |b| < 8 + len {
      assert visits + [] == visits;
    } else {
      assert b[8 + len..|b|] == b[8 + len..];
      var visit := [Visit(level, FromLittleEndian(b[0..4]), b[8..8 + len])];
      var tail := Walk(isContainer, b[8 + len..], level);
      if len > 0 && isContainer(Kind(b)) {
        var inner := Walk(isContainer, b[8..8 + len], level + 1);
        Regroup(visits, visit, inner.1, tail.1);
      } else {
        Regroup(visits, visit, [], tail.1);
      }
    }
  }

  lemma Regroup(a: seq<Visit>, b: seq<Visit>, c: seq<Visit>, d: seq<Visit>)
    ensures a + (b + c + d) == a + b + c + d && a + (b + c) == a + b + c && a + b + [] == a + b
  {}

  // ---------- forests of records ----------

  /** A record with plain data, or one that contains records. */
  datatype Record =
    | Plain(kind: nat, data: ByteVec)
    | Container(kind: nat, children: Forest)

  datatype Forest = Forest(records: seq<Record>)

  function Body(r: Record): ByteVec
    decreases r, 0
  {
    match r
    case Plain(_, data) => data
    case Container(_, children) => Encode(children)
  }

  function EncodeRecord(r: Record): ByteVec
    decreases r, 1
  {
    LittleEndian(r.kind, 4) + (LittleEndian(|Body(r)|, 4) + Body(r))
  }

  function Encode(f: Forest): ByteVec
    decreases f, 2
  {
    EncodeAll(f.records)
  }

  function EncodeAll(rs: seq<Record>): ByteVec
    decreases rs
  {
    if rs == [] then [] else EncodeRecord(rs[0]) + EncodeAll(rs[1..])
  }

  /** Types and sizes fit their fields, and the container flags say which records contain records. */
  predicate Fits(isContainer: nat -> bool, r: Record)
    decreases r, 1
  {
    && r.kind < 0x1_0000_0000 && |Body(r)| < 0x1_0000_0000
    && match r
       case Plain(kind, data) => data != [] ==> !isContainer(kind)
       case Container(kind, children) => isContainer(kind) && AllFit(isContainer, children.records)
  }

  predicate AllFit(isContainer: nat -> bool, rs: seq<Record>)
    decreases rs
  {
    rs == [] || (Fits(isContainer, rs[0]) && AllFit(isContainer, rs[1..]))
  }

  /** The records of a forest in preorder. */
  function Preorder(rs: seq<Record>, level: nat): seq<Visit>
    decreases rs
  {
    if rs == [] then [] else PreorderRecord(rs[0], level) + Preorder(rs[1..], level)
  }

  function PreorderRecord(r: Record, level: nat): seq<Visit>
    decreases r, 1
  {
    [Visit(level, r.kind, Body(r))]
      + (match r case Plain(_, _) => [] case Container(_, children) => Preorder(children.records, level + 1))
  }

  /** The same without a record that ends its level and is empty. */
  function Pruned(rs: seq<Record>, level: nat): seq<Visit>
    decreases rs
  {
    if rs == [] || (|rs| == 1 && Body(rs[0]) == []) then [] else PrunedRecord(rs[0], level) + Pruned(rs[1..], level)
  }

  function PrunedRecord(r: Record, level: nat): seq<Visit>
    decreases r, 1
  {
    [Visit(level, r.kind, Body(r))]
      + (match r case Plain(_, _) => [] case Container(_, children) => Pruned(children.records, level + 1))
  }

  /** No level ends with an empty record. */
  predicate EndsFilled(rs: seq<Record>)
    decreases rs
  {
    rs == [] || (EndsFilledRecord(rs[0]) && (|rs| == 1 ==> Body(rs[0]) != []) && EndsFilled(rs[1..]))
  }

  predicate EndsFilledRecord(r: Record)
    decreases r, 1
  {
    match r
    case Plain(_, _) => true
    case Container(_, children) => EndsFilled(children.records)
  }

  lemma {:induction false} WalkOfEncoded(isContainer: nat -> bool, rs: seq<Record>, level: nat)
    requires AllFit(isContainer, rs)
    ensures Walk(isContainer, EncodeAll(rs), level) == (true, Pruned(rs, level))
    decreases rs
  {
    hide LittleEndian, FromLittleEndian, Body;
    if rs != [] {
      var r, rest := rs[0], EncodeAll(rs[1..]);
      var b := EncodeAll(rs);
      RecordAt(r, rest);
      if |rs| == 1 && Body(r) == [] {
        assert rest == [];
      } else {
        assert |b| > 8 by {
          LongerThanHeader(rs);
        }
        WalkOfEncoded(isContainer, rs[1..], level);
        InnerWalk(isContainer, r, level);
        assert [Visit(level, r.kind, Body(r))] + [] == [Visit(level, r.kind, Body(r))];
      }
    }
  }

  /** What the walk does inside one record. */
  lemma {:induction false} InnerWalk(isContainer: nat -> bool, r: Record, level: nat)
    requires Fits(isContainer, r)
    ensures var inner := if |Body(r)| > 0 && isContainer(r.kind) then Walk(isContainer, Body(r), level + 1) else (true, []);
            inner.0 && [Visit(level, r.kind, Body(r))] + inner.1 == PrunedRecord(r, level)
    decreases r, 1
  {
    hide Walk;
    match r
    case Plain(_, _) =>
    case Container(_, children) =>
      WalkOfEncoded(isContainer, children.records, level + 1);
      if EncodeAll(children.records) == [] {
        EmptyMeansNone(children.records);
      }
  }

  lemma EmptyMeansNone(rs: seq<Record>)
    requires EncodeAll(rs) == []
    ensures rs == []
  {
    hide LittleEndian, Body;
  }

  lemma LongerThanHeader(rs: seq<Record>)
    requires rs != [] && !(|rs| == 1 && Body(rs[0]) == [])
    ensures |EncodeAll(rs)| > 8
  {
    hide LittleEndian, Body;
    if |rs| > 1 {
      assert |EncodeRecord(rs[1..][0])| >= 8;
    }
  }

  /** The fields of a record at the start of a buffer. */
  lemma RecordAt(r: Record, rest: ByteVec)
    requires r.kind < 0x1_0000_0000 && |Body(r)| < 0x1_0000_0000
    ensures var b, n := EncodeRecord(r) + rest, |Body(r)|;
            && |b| == 8 + n + |rest| && Kind(b) == r.kind && Len(b) == n
            && b[8..8 + n] == Body(r) && b[8 + n..] == rest
  {
    hide LittleEndian, FromLittleEndian, Body;
    Pow256Values();
    var b, n := EncodeRecord(r) + rest, |Body(r)|;
    assert b[..4] == LittleEndian(r.kind, 4) && b[4..8] == LittleEndian(n, 4);
    LittleEndianRoundTrip(r.kind, 4);
    LittleEndianRoundTrip(n, 4);
  }

  /** On the encoding of any forest the walk succeeds; it visits the forest in preorder exactly if no
      level ends with an empty record. */
  lemma VisitsPreorderIff(isContainer: nat -> bool, f: Forest, level: nat)
    requires AllFit(isContainer, f.records)
    ensures Walk(isContainer, Encode(f), level).0
    ensures Walk(isContainer, Encode(f), level).1 == Preorder(f.records, level) <==> EndsFilled(f.records)
  {
    hide Walk;
    WalkOfEncoded(isContainer, f.records, level);
    PrunedIff(f.records, level);
  }

  lemma {:induction false} PrunedIff(rs: seq<Record>, level: nat)
    ensures |Pruned(rs, level)| <= |Preorder(rs, level)|
    ensures EndsFilled(rs) ==> Pruned(rs, level) == Preorder(rs, level)
    ensures !EndsFilled(rs) ==> |Pruned(rs, level)| < |Preorder(rs, level)|
    decreases rs
  {
    hide Body;
    if rs != [] {
      PrunedRecordIff(rs[0], level);
      PrunedIff(rs[1..], level);
    }
  }

  lemma {:induction false} PrunedRecordIff(r: Record, level: nat)
    ensures |PrunedRecord(r, level)| <= |PreorderRecord(r, level)|
    ensures EndsFilledRecord(r) ==> PrunedRecord(r, level) == PreorderRecord(r, level)
    ensures !EndsFilledRecord(r) ==> |PrunedRecord(r, level)| < |PreorderRecord(r, level)|
    decreases r, 1
  {
    hide Body;
    match r
    case Plain(_, _) =>
    case Container(_, children) => PrunedIff(children.records, level + 1);
  }
}
