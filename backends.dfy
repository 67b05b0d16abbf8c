/** The overflow-checking primitives the dispatchers of add.hpp, sub.hpp and
    mul.hpp choose between at build time. The compiler-provided ones are not
    implemented here: `ckd_add`, `ckd_sub` and `ckd_mul` (section 7.20 of
    ISO/IEC 9899:2024), the `__builtin_*_overflow` functions and the MSVC
    intrinsics `_add_overflow_*`, `_addcarry_*`, `_sub_overflow_*`,
    `_subborrow_*` and `_mul_full_overflow_*` are all given the one
    specification `Intrinsic`: the flag says whether the mathematical result
    is unrepresentable, and the destination receives that result reduced to
    the type. The library's own wrapper around the MSVC multiplication
    intrinsics departs from that for 8-bit types; `MsvcMulOverflow` models it. */
module Backends {

  import opened Kinds

  datatype Backend = StdCkdInt | BuiltinOverflow | MsvcIntrinsics | Generic

  /** What an intrinsic reports: its overflow flag and the value it stores. */
  datatype Flagged = Flagged(overflow: bool, value: int)

  /** The specification of an intrinsic applied to operands whose
      mathematical result is `exact`. */
  function Intrinsic(k: IntKind, exact: int): (f: Flagged)
    ensures f.overflow <==> exact < Min(k) || Max(k) < exact
    ensures InRange(k, f.value)
    ensures !f.overflow ==> f.value == exact
  {
    Flagged(!InRange(k, exact), Wrap(k, exact))
  }

  /** msvc_mul_overflow (detail/msvc_overflow_intrinsics.hpp:100-160). For
      16-, 32- and 64-bit types it hands the destination to
      `_mul_full_overflow_*`, which stores the low half of the full product.
      For i8 and u8 it multiplies into a 16-bit temporary and copies that to
      the destination only when there is no overflow, so after an overflow
      the destination still holds `prior`. */
  function MsvcMulOverflow(k: IntKind, exact: int, prior: int): (f: Flagged)
    ensures f.overflow <==> !InRange(k, exact)
    ensures !f.overflow ==> f.value == exact
    ensures f.overflow && k.width == W8 ==> f.value == prior
    ensures f.overflow && k.width != W8 ==> f.value == Wrap(k, exact)
  {
    var g := Intrinsic(k, exact);
    if k.width == W8 && g.overflow then Flagged(true, prior) else g
  }
}
