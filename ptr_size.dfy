/**
 * The pointer-size pair returned by a call into the runtime: a 32-bit
 * address and a 32-bit length packed into one 64-bit span, the address in
 * the low word and the length in the high word.
 */
module PtrSize {

  type WasmPointer = bv32
  type WasmSize = bv32
  type WasmSpan = bv64

  datatype PtrSize = PtrSize(ptr: WasmPointer, size: WasmSize)

  /** The default pair: address 0, length 0, which packs to the span 0. */
  function Default(): (p: PtrSize)
    ensures p.ptr == 0 && p.size == 0
    ensures Combine(p) == 0
  {
    PtrSize(0, 0)
  }

  /** Packs the pair: address in bits 0..31, length in bits 32..63. */
  function Combine(p: PtrSize): (v: WasmSpan)
    ensures v & 0xFFFF_FFFF == p.ptr as WasmSpan
    ensures v >> 32 == p.size as WasmSpan
  {
    (p.ptr as WasmSpan) | ((p.size as WasmSpan) << 32)
  }

  /**
   * Splits a span into its address (low word) and length (high word);
   * packing the halves again gives the span back.
   */
  function FromSpan(v: WasmSpan): (p: PtrSize)
    ensures p.ptr as WasmSpan == v & 0xFFFF_FFFF && p.size as WasmSpan == v >> 32
    ensures Combine(p) == v
  {
    assert ((v & 0xFFFF_FFFF) as WasmPointer) as WasmSpan == v & 0xFFFF_FFFF;
    assert ((v >> 32) as WasmSize) as WasmSpan == v >> 32;
    PtrSize((v & 0xFFFF_FFFF) as WasmPointer, (v >> 32) as WasmSize)
  }

  /** Fieldwise comparison of two pairs; it coincides with value equality. */
  function Equal(a: PtrSize, b: PtrSize): (r: bool)
    ensures r <==> a == b
  {
    a.ptr == b.ptr && a.size == b.size
  }

  lemma LowWord(ptr: WasmPointer, size: WasmSize)
    ensures (((ptr as WasmSpan) | ((size as WasmSpan) << 32)) & 0xFFFF_FFFF) as WasmPointer == ptr
  {
  }

  lemma HighWord(ptr: WasmPointer, size: WasmSize)
    ensures (((ptr as WasmSpan) | ((size as WasmSpan) << 32)) >> 32) as WasmSize == size
  {
  }

  /** Splitting a packed pair gives the pair back. */
  lemma FromSpanCombine(p: PtrSize)
    ensures FromSpan(Combine(p)) == p
  {
    LowWord(p.ptr, p.size);
    HighWord(p.ptr, p.size);
  }

  /** Packing is injective: distinct pairs give distinct spans. */
  lemma CombineInjective(a: PtrSize, b: PtrSize)
    ensures Combine(a) == Combine(b) <==> a == b
  {
    if Combine(a) == Combine(b) {
      FromSpanCombine(a);
      FromSpanCombine(b);
    }
  }
}
