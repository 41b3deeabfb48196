/** The iterator over measured-boot logs (PCPWbcl.cpp), step by step on its fields. */
module WbclIterators {
  import opened Bytes
  import opened Wrappers
  import opened WbclLog

  class WbclIterator {
    /** Memory from the start of the log buffer on. */
    const memory: Memory
    var logSize: nat
    /** The offset of the current element; None stands for a null pointer. */
    var currentElement: Option<nat>
    var currentElementSize: nat
    var digestSize: nat
    var agile: bool
    var numberOfDigests: nat
    var digestSizes: nat
    var hashAlgorithm: nat

    constructor (mem: Memory)
      ensures memory == mem
    {
      memory := mem;
      logSize, currentElement, currentElementSize, digestSize := 0, None, 0, 0;
      agile, numberOfDigests, digestSizes, hashAlgorithm := false, 0, 0, 0;
    }

    function Log(): Layout
      reads this
    {
      Layout(logSize, digestSize, agile, numberOfDigests, digestSizes, hashAlgorithm)
    }

    function State(): Iter
      reads this
    {
      Iter(Log(), currentElement, currentElementSize)
    }

    method GetDigestSize(algorithmId: nat) returns (size: nat)
      ensures size == DigestSizeOf(memory, Log(), algorithmId)
    {
      hide U16;
      size := SHA1_DIGEST_SIZE;
      var current: nat := 0;
      while current < numberOfDigests
        invariant current <= numberOfDigests && size == SHA1_DIGEST_SIZE
        invariant TableSize(memory, Log(), algorithmId, 0) == TableSize(memory, Log(), algorithmId, current)
      {
        if U16(memory, digestSizes + 4 * current) == algorithmId {
          size := U16(memory, digestSizes + 4 * current + 2);
          return;
        }
        current := current + 1;
      }
    }

    /** The size of the digests of the current element, or zero and an error. */
    method GetCurrentElementDigestSize() returns (hr: HResult, size: nat)
      requires currentElement.Some?
      ensures match Measured(memory, Log(), currentElement.value)
              case None => hr == E_INVALIDARG && size == 0
              case Some(n) => hr == S_OK && size == n
    {
      hide U16, U32, TableSize;
      hr, size := S_OK, 0;
      if !agile {
        return S_OK, SHA1_DIGEST_SIZE;
      }
      var ptr: nat := currentElement.value + 8;
      var count: nat := U32(memory, ptr);
      size := 4;
      ptr := ptr + 4;
      if count > MAX_NUMBER_OF_DIGESTS {
        return E_INVALIDARG, 0;
      }
      var current: nat := 0;
      while current < count
        invariant current <= count
        invariant MeasureFrom(memory, Log(), currentElement.value + 12, count, 4)
               == MeasureFrom(memory, Log(), ptr, count - current, size)
      {
        var algId := U16(memory, ptr);
        var digest := GetDigestSize(algId);
        var tpmtHaSize := digest + 2;
        ptr := ptr + tpmtHaSize;
        if ptr > logSize {
          return E_INVALIDARG, 0;
        }
        size := size + tpmtHaSize;
        current := current + 1;
      }
    }

    method GetCurrentElementDataSize() returns (size: nat)
      requires currentElement.Some?
      ensures size == DataSize(memory, Log(), currentElement.value)
    {
      hide Measured, U32;
      var hr;
      hr, size := GetCurrentElementDigestSize();
      if hr != S_OK {
        return 0;
      }
      size := U32(memory, currentElement.value + 8 + size);
    }

    method GetCurrentElementSize() returns (hr: HResult, size: nat)
      requires currentElement.Some?
      ensures match ElementSize(memory, Log(), currentElement.value)
              case None => hr == E_INVALIDARG
              case Some(n) => hr == S_OK && size == n
    {
      hide Measured, DataSize;
      var digests;
      hr, digests := GetCurrentElementDigestSize();
      size := 0;
      if hr == S_OK {
        var dataSize := GetCurrentElementDataSize();
        size := (8 + digests + 4 + dataSize) % UINT32_LIMIT;
      }
    }

    method GetCurrentElementData() returns (ptr: Option<nat>)
      requires currentElement.Some?
      ensures ptr == Data(memory, Log(), currentElement.value)
    {
      hide Measured;
      var dataSize := GetCurrentElementDataSize();
      if dataSize == 0 {
        return None;
      }
      var hr, digests := GetCurrentElementDigestSize();
      if hr != S_OK {
        return None;
      }
      ptr := Some(currentElement.value + 8 + digests + 4);
    }

    method GetCurrentElementDigest() returns (ptr: Option<nat>)
      requires currentElement.Some?
      ensures ptr == Digest(memory, Log(), currentElement.value)
    {
      hide U16, U32, TableSize;
      var p: nat := currentElement.value + 8;
      if !agile {
        return Some(p);
      }
      var count: nat := U32(memory, p);
      p := p + 4;
      if count > MAX_NUMBER_OF_DIGESTS {
        return None;
      }
      var current: nat := 0;
      while current < count
        invariant current <= count
        invariant FindDigest(memory, Log(), currentElement.value + 12, count) == FindDigest(memory, Log(), p, count - current)
      {
        var currentAlgorithm := U16(memory, p);
        p := p + 2;
        if currentAlgorithm == hashAlgorithm {
          return Some(p);
        }
        var size := GetDigestSize(currentAlgorithm);
        p := p + size;
        if p > logSize {
          return None;
        }
        current := current + 1;
      }
      ptr := None;
    }

    /** WbclApiGetCurrentElement: PCR index, event type, and where digest and data stand. */
    method GetCurrentElement() returns (hr: HResult, pcrIndex: nat, eventType: nat, digest: Option<nat>, dataSize: nat, data: Option<nat>)
      ensures if AtEnd(State()) then hr == E_INVALIDARG
              else
                var p := currentElement.value;
                && hr == S_OK && pcrIndex == U32(memory, p) && eventType == U32(memory, p + 4)
                && digest == Digest(memory, Log(), p) && dataSize == DataSize(memory, Log(), p) && data == Data(memory, Log(), p)
    {
      hide U32, Digest, DataSize, Data;
      hr, pcrIndex, eventType, digest, dataSize, data := S_OK, 0, 0, None, 0, None;
      if currentElement.None? || currentElementSize == 0 {
        return E_INVALIDARG, pcrIndex, eventType, digest, dataSize, data;
      }
      pcrIndex := U32(memory, currentElement.value);
      eventType := U32(memory, currentElement.value + 4);
      digest := GetCurrentElementDigest();
      dataSize := GetCurrentElementDataSize();
      data := GetCurrentElementData();
    }

    method MoveToNextElement() returns (hr: HResult)
      modifies this`currentElement, this`currentElementSize
      ensures (hr, State()) == Move(memory, old(State()))
    {
      hide ElementSize;
      hr := S_OK;
      if currentElement.None? || currentElementSize == 0 {
        return;
      }
      var next := currentElement.value + currentElementSize;
      var minimumSize := 3 * 4 + SHA1_DIGEST_SIZE;
      if agile {
        minimumSize := 4 * 4 + 2 + digestSize;
      }
      if next + minimumSize > logSize {
        hr := E_INVALIDARG;
      } else {
        currentElement := Some(next);
        var elementSize;
        hr, elementSize := GetCurrentElementSize();
        if hr == S_OK {
          currentElementSize := elementSize;
          if currentElement.value + currentElementSize > logSize {
            hr := E_INVALIDARG;
          }
        }
      }
      if hr != S_OK {
        currentElement, currentElementSize := None, 0;
        hr := S_FALSE;
      }
    }

    /** WbclApiInitIterator on a log of `size` bytes. */
    method InitIterator(size: nat, beyond: nat -> bv32) returns (hr: HResult)
      modifies this
      ensures (hr, State()) == Init(memory, size, old(State()), beyond)
    {
      hide U16, U32, HasSignature, Digest, Data, DataSize, ElementSize, InitAgile;
      LegacyElement(memory, size);
      if size < EVENT_STRUCT_SIZE - 1 {
        return E_INVALIDARG;
      }
      logSize, currentElement, digestSize, agile := size, Some(0), SHA1_DIGEST_SIZE, false;
      numberOfDigests, digestSizes, hashAlgorithm := 0, 0, ALG_SHA1;
      var elementSize;
      hr, elementSize := GetCurrentElementSize();
      if hr != S_OK || logSize < elementSize {
        return INVALID_DATA;
      }
      currentElementSize := elementSize;
      var pcrIndex, eventType, digest, dataSize, data;
      hr, pcrIndex, eventType, digest, dataSize, data := GetCurrentElement();
      if hr != S_OK {
        return INVALID_DATA;
      }
      if pcrIndex == 0 && eventType == NO_ACTION && dataSize >= VENDOR_INFO_OFFSET {
        var signed := MatchesSignature(data.value);
        if signed {
          hr := ReadDescriptor(data.value, dataSize, beyond);
        }
      }
    }

    /** strcmp: the bytes up to the first difference or the terminating zero. */
    method MatchesSignature(p: nat) returns (r: bool)
      ensures r <==> HasSignature(memory, p)
    {
      var i := 0;
      while i < |SIGNATURE| && memory(p + i) == SIGNATURE[i]
        invariant i <= |SIGNATURE| && forall k | 0 <= k < i :: memory(p + k) == SIGNATURE[k]
      {
        i := i + 1;
      }
      r := i == |SIGNATURE|;
    }

    method ReadDescriptor(p: nat, dataSize: nat, beyond: nat -> bv32) returns (hr: HResult)
      modifies this
      ensures (hr, State()) == InitAgile(memory, old(State()), p, dataSize, beyond)
    {
      hide U16, U32, Move;
      var major, minor := memory(p + VERSION_MAJOR_OFFSET), memory(p + VERSION_MINOR_OFFSET);
      if major < 1 || (major == 1 && minor < 2) {
        return NOT_SUPPORTED;
      }
      if dataSize < DIGEST_SIZES_OFFSET {
        return NOT_SUPPORTED;
      }
      var count := U32(memory, p + ALGORITHMS_OFFSET);
      if count > MAX_NUMBER_OF_DIGESTS {
        return NOT_SUPPORTED;
      }
      if dataSize < DIGEST_SIZES_OFFSET + 4 * count {
        return INVALID_DATA;
      }
      var supported := SupportedAlgorithms(p + DIGEST_SIZES_OFFSET, count, beyond);
      agile, numberOfDigests, digestSizes := true, count, p + DIGEST_SIZES_OFFSET;
      if supported & 2 != 0 {
        hashAlgorithm, digestSize := ALG_SHA256, SHA256_DIGEST_SIZE;
      } else if supported & 1 != 0 {
        hashAlgorithm, digestSize := ALG_SHA1, SHA1_DIGEST_SIZE;
      } else {
        return NOT_SUPPORTED;
      }
      hr := MoveToNextElement();
      if hr != S_OK {
        hr := INVALID_DATA;
      }
    }

    method SupportedAlgorithms(sizes: nat, count: nat, beyond: nat -> bv32) returns (supported: bv32)
      ensures supported == SupportedFrom(memory, sizes, count, 0, beyond)
    {
      hide U16, AlgorithmBit, Or;
      supported := 0;
      var digestCounter: nat := 0;
      NoBits(SupportedFrom(memory, sizes, count, 0, beyond));
      while digestCounter < count
        invariant digestCounter <= count
        invariant SupportedFrom(memory, sizes, count, 0, beyond) == Or(supported, SupportedFrom(memory, sizes, count, digestCounter, beyond))
      {
        var bit := AlgorithmBit(U16(memory, sizes + 4 * digestCounter), beyond);
        OrAssociates(supported, bit, SupportedFrom(memory, sizes, count, digestCounter + 1, beyond));
        supported := Or(supported, bit);
        digestCounter := digestCounter + 1;
      }
      NoBits(supported);
    }
  }

  /** The first element, read as one of a legacy log. */
  lemma LegacyElement(m: Memory, size: nat)
    ensures var log := LegacyLog(size);
            && DataSize(m, log, 0) == U32(m, 28)
            && ElementSize(m, log, 0) == Some((8 + SHA1_DIGEST_SIZE + 4 + U32(m, 28)) % UINT32_LIMIT)
            && (U32(m, 28) > 0 ==> Data(m, log, 0) == Some(32))
  {
    hide U32;
  }

  lemma OrAssociates(a: bv32, b: bv32, c: bv32)
    ensures Or(Or(a, b), c) == Or(a, Or(b, c))
  {}

  lemma NoBits(a: bv32)
    ensures Or(0, a) == a && Or(a, 0) == a
  {}
}
