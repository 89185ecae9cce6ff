/** The catalogue of element types. */
module Dtypes {

  import opened Wrappers

  /** Element types, in declaration order; the derived ordering on them follows that order. */
  datatype Dtype =
    | BOOL | F4 | F6_E2M3 | F6_E3M2 | U8 | I8 | F8_E5M2 | F8_E4M3 | F8_E8M0
    | I16 | U16 | F16 | BF16 | I32 | U32 | F32 | C64 | F64 | I64 | U64

  /** Position in the declaration, which is what the derived `Ord` compares. */
  function Rank(d: Dtype): (r: nat)
    ensures r < 20
  {
    match d
    case BOOL => 0     case F4 => 1       case F6_E2M3 => 2  case F6_E3M2 => 3
    case U8 => 4       case I8 => 5       case F8_E5M2 => 6  case F8_E4M3 => 7
    case F8_E8M0 => 8  case I16 => 9      case U16 => 10     case F16 => 11
    case BF16 => 12    case I32 => 13     case U32 => 14     case F32 => 15
    case C64 => 16     case F64 => 17     case I64 => 18     case U64 => 19
  }

  /** The derived comparison `a.cmp(b)`: -1, 0 or 1. */
  function Compare(a: Dtype, b: Dtype): (c: int)
    ensures c == 0 <==> a == b
    ensures c < 0 <==> Rank(a) < Rank(b)
    ensures c == -1 || c == 0 || c == 1
  {
    RankInjective(a, b);
    if Rank(a) < Rank(b) then -1 else if Rank(a) == Rank(b) then 0 else 1
  }

  /** Distinct types have distinct positions, so the order is total and strict. */
  lemma RankInjective(a: Dtype, b: Dtype)
    ensures Rank(a) == Rank(b) ==> a == b
  {
  }

  /** Swapping the operands negates the comparison. */
  lemma CompareAntisymmetric(a: Dtype, b: Dtype)
    ensures Compare(b, a) == -Compare(a, b)
  {
  }

  /** Width of one element in bits. */
  function BitSize(d: Dtype): (r: nat)
    ensures r == 4 || r == 6 || r == 8 || r == 16 || r == 32 || r == 64
    ensures r < 8 <==> d == F4 || d == F6_E2M3 || d == F6_E3M2
  {
    match d
    case F4 => 4
    case F6_E3M2 => 6
    case F6_E2M3 => 6
    case BOOL => 8
    case U8 => 8
    case I8 => 8
    case F8_E5M2 => 8
    case F8_E4M3 => 8
    case F8_E8M0 => 8
    case I16 => 16
    case U16 => 16
    case I32 => 32
    case U32 => 32
    case I64 => 64
    case U64 => 64
    case F16 => 16
    case BF16 => 16
    case F32 => 32
    case F64 => 64
    case C64 => 64
  }

  /** The deprecated byte size: whole bytes per element, 0 for the sub-byte types. */
  function ByteSize(d: Dtype): (r: nat)
    ensures r * 8 <= BitSize(d) < r * 8 + 8
    ensures r == 0 <==> BitSize(d) < 8
  {
    BitSize(d) / 8
  }

  /** The declaration order groups types by width, except that BOOL (8 bits) comes first. */
  lemma RankFollowsWidth(a: Dtype, b: Dtype)
    requires a != BOOL && b != BOOL
    requires BitSize(a) < BitSize(b)
    ensures Rank(a) < Rank(b)
  {
  }

  /** The textual tag used in the header and by `Display`. */
  function Tag(d: Dtype): (s: string)
    ensures |s| >= 2
  {
    match d
    case F4 => "F4"
    case F6_E2M3 => "F6_E2M3"
    case F6_E3M2 => "F6_E3M2"
    case BOOL => "BOOL"
    case I8 => "I8"
    case U8 => "U8"
    case F8_E5M2 => "F8_E5M2"
    case F8_E4M3 => "F8_E4M3"
    case F8_E8M0 => "F8_E8M0"
    case I16 => "I16"
    case U16 => "U16"
    case I32 => "I32"
    case U32 => "U32"
    case I64 => "I64"
    case U64 => "U64"
    case F16 => "F16"
    case BF16 => "BF16"
    case F32 => "F32"
    case F64 => "F64"
    case C64 => "C64"
  }

  /** Reading a tag back, as the header's deserializer does; unknown tags are rejected. */
  function ParseTag(s: string): (r: Option<Dtype>)
    ensures r.Some? ==> Tag(r.value) == s
  {
    if s == "F4" then Some(F4)
    else if s == "F6_E2M3" then Some(F6_E2M3)
    else if s == "F6_E3M2" then Some(F6_E3M2)
    else if s == "BOOL" then Some(BOOL)
    else if s == "I8" then Some(I8)
    else if s == "U8" then Some(U8)
    else if s == "F8_E5M2" then Some(F8_E5M2)
    else if s == "F8_E4M3" then Some(F8_E4M3)
    else if s == "F8_E8M0" then Some(F8_E8M0)
    else if s == "I16" then Some(I16)
    else if s == "U16" then Some(U16)
    else if s == "I32" then Some(I32)
    else if s == "U32" then Some(U32)
    else if s == "I64" then Some(I64)
    else if s == "U64" then Some(U64)
    else if s == "F16" then Some(F16)
    else if s == "BF16" then Some(BF16)
    else if s == "F32" then Some(F32)
    else if s == "F64" then Some(F64)
    else if s == "C64" then Some(C64)
    else None
  }

  /** Every tag reads back as its own type. */
  lemma TagRoundTrip(d: Dtype)
    ensures ParseTag(Tag(d)) == Some(d)
  {
  }
}
