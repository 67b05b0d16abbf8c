/** The compile-time type classification of detail/traits.hpp: which C++
    types count as supported integers, and which of those are signed or
    unsigned. The primary templates say "no"; explicit specialisations for
    the eight <cstdint> aliases say "yes". Since an alias is not a type of its
    own, the classification depends on which standard type each alias names
    on a platform, so the model takes that mapping as a parameter. */
module Traits {

  import opened Kinds

  /** The C++ fundamental types the classification can be asked about. */
  datatype CppType =
    | Bool | Char | Float | Double | LongDouble
    | SignedChar | Short | Int | Long | LongLong
    | UnsignedChar | UnsignedShort | UnsignedInt | UnsignedLong | UnsignedLongLong

  predicate IsStandardSigned(t: CppType) {
    t.SignedChar? || t.Short? || t.Int? || t.Long? || t.LongLong?
  }

  predicate IsStandardUnsigned(t: CppType) {
    t.UnsignedChar? || t.UnsignedShort? || t.UnsignedInt? || t.UnsignedLong? || t.UnsignedLongLong?
  }

  /** The standard type that each fixed-width alias of <cstdint> names. */
  datatype Platform = Platform(
    i8: CppType, i16: CppType, i32: CppType, i64: CppType,
    u8: CppType, u16: CppType, u32: CppType, u64: CppType)

  /** A signed alias names a standard signed type, an unsigned alias a
      standard unsigned type, and aliases of different widths name different
      types. */
  predicate ValidPlatform(p: Platform) {
    && IsStandardSigned(p.i8) && IsStandardSigned(p.i16)
    && IsStandardSigned(p.i32) && IsStandardSigned(p.i64)
    && IsStandardUnsigned(p.u8) && IsStandardUnsigned(p.u16)
    && IsStandardUnsigned(p.u32) && IsStandardUnsigned(p.u64)
    && p.i8 != p.i16 && p.i8 != p.i32 && p.i8 != p.i64
    && p.i16 != p.i32 && p.i16 != p.i64 && p.i32 != p.i64
    && p.u8 != p.u16 && p.u8 != p.u32 && p.u8 != p.u64
    && p.u16 != p.u32 && p.u16 != p.u64 && p.u32 != p.u64
  }

  /** 64-bit Linux and macOS: int64_t is long. */
  const LP64: Platform := Platform(SignedChar, Short, Int, Long,
                                   UnsignedChar, UnsignedShort, UnsignedInt, UnsignedLong)

  /** 64-bit Windows: int64_t is long long. */
  const LLP64: Platform := Platform(SignedChar, Short, Int, LongLong,
                                    UnsignedChar, UnsignedShort, UnsignedInt, UnsignedLongLong)

  /** The type that the alias of kind `k` (u8..u64, i8..i64) names. */
  function Alias(p: Platform, k: IntKind): CppType {
    match (k.width, k.signed)
    case (W8, true) => p.i8
    case (W16, true) => p.i16
    case (W32, true) => p.i32
    case (W64, true) => p.i64
    case (W8, false) => p.u8
    case (W16, false) => p.u16
    case (W32, false) => p.u32
    case (W64, false) => p.u64
  }

  /** is_integer_v<T>. */
  predicate IsInteger(p: Platform, t: CppType) {
    t == p.u8 || t == p.u16 || t == p.u32 || t == p.u64
    || t == p.i8 || t == p.i16 || t == p.i32 || t == p.i64
  }

  /** is_signed_integer_v<T>. */
  predicate IsSignedInteger(p: Platform, t: CppType) {
    t == p.i8 || t == p.i16 || t == p.i32 || t == p.i64
  }

  /** is_unsigned_integer_v<T>. */
  predicate IsUnsignedInteger(p: Platform, t: CppType) {
    t == p.u8 || t == p.u16 || t == p.u32 || t == p.u64
  }

  /** The kind a supported integer type stands for. */
  function KindOf(p: Platform, t: CppType): (k: IntKind)
    requires ValidPlatform(p) && IsInteger(p, t)
    ensures Alias(p, k) == t
    ensures k.signed <==> IsSignedInteger(p, t)
  {
    if t == p.i8 then I8 else if t == p.i16 then I16
    else if t == p.i32 then I32 else if t == p.i64 then I64
    else if t == p.u8 then U8 else if t == p.u16 then U16
    else if t == p.u32 then U32 else U64
  }

  /** Signed and unsigned are disjoint, and every supported integer is one of the two. */
  lemma SignedUnsignedPartition(p: Platform, t: CppType)
    requires ValidPlatform(p)
    ensures IsInteger(p, t) <==> IsSignedInteger(p, t) || IsUnsignedInteger(p, t)
    ensures !(IsSignedInteger(p, t) && IsUnsignedInteger(p, t))
  {
  }

  /** The supported integers are exactly the eight aliases, and each alias
      is classified with its own signedness and maps back to its own kind. */
  lemma AliasesAreTheIntegers(p: Platform, k: IntKind)
    requires ValidPlatform(p)
    ensures IsInteger(p, Alias(p, k))
    ensures IsSignedInteger(p, Alias(p, k)) <==> k.signed
    ensures IsUnsignedInteger(p, Alias(p, k)) <==> !k.signed
  {
    var a := Alias(p, k);
    if k.signed {
      assert a == p.i8 || a == p.i16 || a == p.i32 || a == p.i64;
      assert IsStandardSigned(a) && !IsStandardUnsigned(a);
    } else {
      assert a == p.u8 || a == p.u16 || a == p.u32 || a == p.u64;
      assert IsStandardUnsigned(a) && !IsStandardSigned(a);
    }
  }

  /** Different kinds are different types, so KindOf inverts Alias. */
  lemma AliasInjective(p: Platform, k: IntKind, j: IntKind)
    requires ValidPlatform(p)
    ensures Alias(p, k) == Alias(p, j) <==> k == j
    ensures KindOf(p, Alias(p, k)) == k
  {
    AliasesAreTheIntegers(p, k);
    AliasesAreTheIntegers(p, j);
  }

  /** bool, char and the floating types are never supported integers. */
  lemma NonIntegersRejected(p: Platform, t: CppType)
    requires ValidPlatform(p)
    requires t.Bool? || t.Char? || t.Float? || t.Double? || t.LongDouble?
    ensures !IsInteger(p, t) && !IsSignedInteger(p, t) && !IsUnsignedInteger(p, t)
  {
  }

  // ---------------------------------------------------------------------
  // Finding: four specialisations cannot cover five standard signed types

  /** Whatever the platform, one of signed char, short, int, long and
      long long is not classified as an integer, so the expectations that
      all five are integers cannot all hold. */
  lemma SomeStandardSignedTypeUnclassified(p: Platform)
    requires ValidPlatform(p)
    ensures !(IsInteger(p, SignedChar) && IsInteger(p, Short) && IsInteger(p, Int)
              && IsInteger(p, Long) && IsInteger(p, LongLong))
    ensures !(IsUnsignedInteger(p, UnsignedChar) && IsUnsignedInteger(p, UnsignedShort)
              && IsUnsignedInteger(p, UnsignedInt) && IsUnsignedInteger(p, UnsignedLong)
              && IsUnsignedInteger(p, UnsignedLongLong))
  {
  }

  /** The concrete instances: long long on LP64, long on LLP64. */
  lemma UnclassifiedOnCommonPlatforms()
    ensures ValidPlatform(LP64) && !IsInteger(LP64, LongLong) && !IsUnsignedInteger(LP64, UnsignedLongLong)
    ensures ValidPlatform(LLP64) && !IsInteger(LLP64, Long) && !IsUnsignedInteger(LLP64, UnsignedLong)
  {
  }

  datatype Classification = NotInteger | SignedInteger | UnsignedInteger

  /** The classification the expectations evidently intend: by the standard
      category of the type, whichever alias (if any) names it. Its ensures
      only tie the table to the two categories; what it promises about the
      library is `StandardClassificationExtendsAliases`. */
  function StandardClassification(t: CppType): (c: Classification)
    ensures c == SignedInteger <==> IsStandardSigned(t)
    ensures c == UnsignedInteger <==> IsStandardUnsigned(t)
  {
    match t
    case SignedChar | Short | Int | Long | LongLong => SignedInteger
    case UnsignedChar | UnsignedShort | UnsignedInt | UnsignedLong | UnsignedLongLong => UnsignedInteger
    case _ => NotInteger
  }

  /** The intended classification extends the specialisations: it agrees with
      them on every alias, on every platform. */
  lemma StandardClassificationExtendsAliases(p: Platform, t: CppType)
    requires ValidPlatform(p)
    ensures IsSignedInteger(p, t) ==> StandardClassification(t) == SignedInteger
    ensures IsUnsignedInteger(p, t) ==> StandardClassification(t) == UnsignedInteger
    ensures !IsInteger(p, t) && StandardClassification(t) == NotInteger ==> t.Bool? || t.Char? || t.Float? || t.Double? || t.LongDouble?
  {
    if IsSignedInteger(p, t) {
      assert IsStandardSigned(t);
    } else if IsUnsignedInteger(p, t) {
      assert IsStandardUnsigned(t);
    }
  }
}
