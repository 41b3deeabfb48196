/** TPMS_PCR_SELECTION: the bitmap of selected PCRs (TpmTypeExtensions.cpp). */
module PcrSelections {
  import opened Wrappers

  predicate BitSet(b: bv8, i: nat)
    requires i < 8
  {
    b & (1 << i) != 0
  }

  lemma SetOneBit(b: bv8, i: nat, j: nat)
    requires i < 8 && j < 8
    ensures BitSet(b | (1 << i), j) <==> BitSet(b, j) || i == j
    ensures !BitSet(0, j)
  {}

  /** A byte is its bits. */
  lemma SameBits(a: bv8, b: bv8)
    requires forall i | 0 <= i < 8 :: BitSet(a, i) == BitSet(b, i)
    ensures a == b
  {
    assert BitSet(a, 0) == BitSet(b, 0) && BitSet(a, 1) == BitSet(b, 1) && BitSet(a, 2) == BitSet(b, 2)
        && BitSet(a, 3) == BitSet(b, 3) && BitSet(a, 4) == BitSet(b, 4) && BitSet(a, 5) == BitSet(b, 5)
        && BitSet(a, 6) == BitSet(b, 6) && BitSet(a, 7) == BitSet(b, 7);
  }

  /** Whether PCR `j` is in the bitmap. */
  predicate Selected(bits: seq<bv8>, j: nat)
    requires j < 8 * |bits|
  {
    BitSet(bits[j / 8], j % 8)
  }

  /** The bitmap selects exactly the PCRs in `pcrs`. */
  predicate Selects(bits: seq<bv8>, pcrs: seq<nat>) {
    && (forall i | 0 <= i < |pcrs| :: pcrs[i] < 8 * |bits|)
    && forall j | 0 <= j < 8 * |bits| :: Selected(bits, j) <==> j in pcrs
  }

  function Highest(pcrs: seq<nat>): (m: nat)
    ensures m >= 23 && forall i | 0 <= i < |pcrs| :: pcrs[i] <= m
    ensures m == 23 || m in pcrs
    decreases |pcrs|
  {
    if pcrs == [] then 23 else
    var m := Highest(pcrs[..|pcrs| - 1]);
    if pcrs[|pcrs| - 1] > m then pcrs[|pcrs| - 1] else m
  }

  /** Conversion of a size to int. */
  function AsInt32(n: nat): int {
    var r := n % 0x1_0000_0000;
    if r < 0x8000_0000 then r else r - 0x1_0000_0000
  }

  predicate StrictlyIncreasing(a: seq<nat>) {
    forall i, j | 0 <= i < j < |a| :: a[i] < a[j]
  }

  class PcrSelection {
    var hash: nat
    var pcrSelect: seq<bv8>

    /** A single PCR. */
    constructor Single(hashAlg: nat, pcr: nat)
      ensures hash == hashAlg && |pcrSelect| == Highest([pcr]) / 8 + 1 && Selects(pcrSelect, [pcr])
    {
      hash := hashAlg;
      var sz := 3;
      if pcr / 8 + 1 > sz {
        sz := pcr / 8 + 1;
      }
      pcrSelect := seq(sz, _ => 0)[pcr / 8 := 1 << (pcr % 8)];
      new;
      assert Highest([]) == 23 && [pcr][..0] == [];
      forall j | 0 <= j < 8 * |pcrSelect|
        ensures Selected(pcrSelect, j) <==> j in [pcr]
      {
        SetOneBit(0, pcr % 8, j % 8);
      }
    }

    /** A list of PCRs of one bank. */
    constructor FromList(hashAlg: nat, pcrs: seq<nat>)
      ensures hash == hashAlg && |pcrSelect| == Highest(pcrs) / 8 + 1 && Selects(pcrSelect, pcrs)
    {
      hide Highest, Selected;
      hash := hashAlg;
      pcrSelect := [];
      new;
      var pcrMax := HighestPcr(pcrs);
      pcrSelect := seq(pcrMax / 8 + 1, _ => 0);
      NoneSelected(pcrMax / 8 + 1);
      var i := 0;
      assert pcrs[..0] == [];
      while i < |pcrs|
        invariant i <= |pcrs| && hash == hashAlg && |pcrSelect| == Highest(pcrs) / 8 + 1
        invariant Selects(pcrSelect, pcrs[..i])
      {
        ghost var before := pcrSelect;
        var p := pcrs[i];
        pcrSelect := pcrSelect[p / 8 := pcrSelect[p / 8] | (1 << (p % 8))];
        SelectsMore(before, pcrs[..i], p);
        assert pcrs[..i + 1] == pcrs[..i] + [p];
        i := i + 1;
      }
      assert pcrs[..i] == pcrs;
    }

    /** The highest PCR of a list, at least 23. */
    static method HighestPcr(pcrs: seq<nat>) returns (pcrMax: nat)
      ensures pcrMax == Highest(pcrs)
    {
      pcrMax := 0;
      var i: nat := 0;
      while i < |pcrs|
        invariant i <= |pcrs|
        invariant (if pcrMax < 23 then 23 else pcrMax) == Highest(pcrs[..i])
      {
        assert pcrs[..i + 1][..i] == pcrs[..i];
        if pcrs[i] > pcrMax {
          pcrMax := pcrs[i];
        }
        i := i + 1;
      }
      assert pcrs[..i] == pcrs;
      if pcrMax < 23 {
        pcrMax := 23;
      }
    }

    method PcrIsSelected(pcr: nat) returns (r: bool)
      requires pcr < 8 * |pcrSelect|
      ensures r <==> Selected(pcrSelect, pcr)
    {
      r := pcrSelect[pcr / 8] & (1 << (pcr % 8)) != 0;
    }

    /** The selected PCRs in increasing order. The number of bits is an int: it must not overflow for
        all of them to be looked at. */
    method ToArray() returns (arr: seq<nat>)
      ensures StrictlyIncreasing(arr)
      ensures forall j :: j in arr <==> 0 <= j < AsInt32(8 * |pcrSelect|) && Selected(pcrSelect, j)
    {
      arr := [];
      var maxIs := AsInt32(8 * |pcrSelect|);
      var j := 0;
      while j < maxIs
        invariant 0 <= j && (j <= maxIs || arr == [])
        invariant StrictlyIncreasing(arr) && forall k :: k in arr <==> 0 <= k < j && k < maxIs && Selected(pcrSelect, k)
      {
        var selected := PcrIsSelected(j);
        if selected {
          assert forall i | 0 <= i < |arr| :: arr[i] in arr;
          arr := arr + [j];
        }
        j := j + 1;
      }
    }
  }

  lemma NoneSelected(n: nat)
    ensures Selects(seq(n, _ => 0), [])
  {
    var bits: seq<bv8> := seq(n, _ => 0);
    forall j | 0 <= j < 8 * |bits|
      ensures !Selected(bits, j)
    {
      SetOneBit(0, 0, j % 8);
    }
  }

  lemma SelectsMore(bits: seq<bv8>, pcrs: seq<nat>, p: nat)
    requires Selects(bits, pcrs) && p < 8 * |bits|
    ensures Selects(bits[p / 8 := bits[p / 8] | (1 << (p % 8))], pcrs + [p])
  {
    var bits' := bits[p / 8 := bits[p / 8] | (1 << (p % 8))];
    forall j | 0 <= j < 8 * |bits'|
      ensures Selected(bits', j) <==> j in pcrs + [p]
    {
      if j / 8 == p / 8 {
        SetOneBit(bits[p / 8], p % 8, j % 8);
      }
    }
  }

  /** A selection is determined by its length and the PCRs it selects. */
  lemma SameSelection(a: seq<bv8>, b: seq<bv8>, pcrs: seq<nat>)
    requires |a| == |b| && Selects(a, pcrs) && Selects(b, pcrs)
    ensures a == b
  {
    forall k | 0 <= k < |a|
      ensures a[k] == b[k]
    {
      forall i | 0 <= i < 8
        ensures BitSet(a[k], i) == BitSet(b[k], i)
      {
        assert Selected(a, 8 * k + i) == Selected(b, 8 * k + i);
      }
      SameBits(a[k], b[k]);
    }
  }

  lemma FrontOf(a: seq<nat>, x: nat)
    requires StrictlyIncreasing(a) && a != []
    ensures x in a[..|a| - 1] <==> x in a && x != a[|a| - 1]
  {
    assert a == a[..|a| - 1] + [a[|a| - 1]];
    if x in a[..|a| - 1] {
      var i :| 0 <= i < |a| - 1 && a[i] == x;
    }
  }

  lemma NoneAboveLast(a: seq<nat>, x: nat)
    requires StrictlyIncreasing(a) && x in a
    ensures a != [] && x <= a[|a| - 1]
  {
    var i :| 0 <= i < |a| && a[i] == x;
  }

  lemma SameLast(a: seq<nat>, b: seq<nat>)
    requires StrictlyIncreasing(a) && StrictlyIncreasing(b) && a != [] && forall x :: x in a <==> x in b
    ensures b != [] && a[|a| - 1] == b[|b| - 1]
  {
    assert a[|a| - 1] in b;
    NoneAboveLast(b, a[|a| - 1]);
    assert b[|b| - 1] in a;
    NoneAboveLast(a, b[|b| - 1]);
  }

  /** There is one increasing sequence of given elements. */
  lemma {:induction false} SortedUnique(a: seq<nat>, b: seq<nat>)
    requires StrictlyIncreasing(a) && StrictlyIncreasing(b) && forall x :: x in a <==> x in b
    ensures a == b
    decreases |a|
  {
    if a == [] {
      if b != [] {
        SameLast(b, a);
      }
    } else {
      SameLast(a, b);
      var front, front' := a[..|a| - 1], b[..|b| - 1];
      forall x
        ensures x in front <==> x in front'
      {
        FrontOf(a, x);
        FrontOf(b, x);
      }
      SortedUnique(front, front');
      assert a == front + [a[|a| - 1]] && b == front' + [b[|b| - 1]];
    }
  }

  /** The single-PCR constructor builds what the list constructor builds from a singleton. */
  method SingleIsSingleton(hashAlg: nat, pcr: nat) returns (a: PcrSelection, b: PcrSelection)
    ensures a.pcrSelect == b.pcrSelect && a.hash == b.hash
  {
    a := new PcrSelection.Single(hashAlg, pcr);
    b := new PcrSelection.FromList(hashAlg, [pcr]);
    SameSelection(a.pcrSelect, b.pcrSelect, [pcr]);
  }

  /** A list of 32-bit PCR numbers comes back sorted and without duplicates exactly if the number of
      bits of the map fits an int; otherwise nothing comes back. */
  method ListComesBackSorted(hashAlg: nat, pcrs: seq<nat>) returns (arr: seq<nat>)
    requires forall i | 0 <= i < |pcrs| :: pcrs[i] < 0x1_0000_0000
    ensures StrictlyIncreasing(arr)
    ensures if forall i | 0 <= i < |pcrs| :: pcrs[i] < 0x7FFF_FFF8 then forall x :: x in arr <==> x in pcrs else arr == []
  {
    hide Selected;
    var s := new PcrSelection.FromList(hashAlg, pcrs);
    arr := s.ToArray();
    BitsFitInt(Highest(pcrs));
    HasElement(arr);
  }

  lemma HasElement(arr: seq<nat>)
    ensures arr == [] || exists x :: x in arr
  {
    if arr != [] {
      assert arr[0] in arr;
    }
  }

  /** The number of bits of a map up to PCR `m` as an int. */
  lemma BitsFitInt(m: nat)
    requires m < 0x1_0000_0000
    ensures m < 0x7FFF_FFF8 ==> m < AsInt32(8 * (m / 8 + 1)) == 8 * (m / 8 + 1)
    ensures m >= 0x7FFF_FFF8 ==> AsInt32(8 * (m / 8 + 1)) <= 0
  {}
}
