/**
  Numeric type selection: `get_optimal_intype` and `get_optimal_uintype`
  (src/app_utilities/numbers.py). A number is a `real` (every int, float
  and Decimal the source accepts is one); a numpy dtype is a tag.
*/
module Numbers {
  import opened Wrappers

  /** The numpy dtypes the two selectors can return. */
  datatype DType =
    | Int8 | Int16 | Int32 | Int64
    | UInt8 | UInt16 | UInt32 | UInt64
    | Float32 | Float64

  /** Position of a tag in its selector's chain: 8, 16, 32, 64 bits, then float32, float64. */
  function Rank(t: DType): (k: nat)
    ensures k <= 5
    ensures k == 4 <==> t == Float32
    ensures k == 5 <==> t == Float64
  {
    match t
    case Int8 => 0 case UInt8 => 0
    case Int16 => 1 case UInt16 => 1
    case Int32 => 2 case UInt32 => 2
    case Int64 => 3 case UInt64 => 3
    case Float32 => 4
    case Float64 => 5
  }

  /** The tags `get_optimal_intype` chooses from, in the order it tests them. */
  const SignedChain: seq<DType> := [Int8, Int16, Int32, Int64, Float32, Float64]
  /** The tags `get_optimal_uintype` chooses from, in the order it tests them. */
  const UnsignedChain: seq<DType> := [UInt8, UInt16, UInt32, UInt64, Float32, Float64]

  /** The literal `3.4028235e+38`, taken as the exact decimal (float rounding is not modelled). */
  const Float32Max: real := 3.4028235e38

  // ---------------------------------------------------------------------
  // The code as written
  // ---------------------------------------------------------------------

  /** `get_optimal_intype`: the first inclusive upper bound the number does not exceed. */
  function OptimalIntype(x: real): (t: DType)
    ensures t in SignedChain && SignedChain[Rank(t)] == t
    ensures t == Float64 <==> x > Float32Max
    ensures t == Int8 <==> x <= 127.0
  {
    if x <= 127.0 then Int8
    else if x <= 32767.0 then Int16
    else if x <= 2147483647.0 then Int32
    else if x <= 9223372036854775807.0 then Int64
    else if x <= Float32Max then Float32
    else Float64
  }

  /**
    `get_optimal_uintype`: the first strict upper bound for the four integer
    tags, then the inclusive float32 bound.
  */
  function OptimalUintype(x: real): (t: DType)
    ensures t in UnsignedChain && UnsignedChain[Rank(t)] == t
    ensures t == Float64 <==> x > Float32Max
    ensures t == UInt8 <==> x < 255.0
  {
    if x < 255.0 then UInt8
    else if x < 65535.0 then UInt16
    else if x < 4294967295.0 then UInt32
    else if x < 18446744073709551615.0 then UInt64
    else if x <= Float32Max then Float32
    else Float64
  }

  /** The interval of numbers each signed tag is selected for. */
  lemma OptimalIntypeIntervals(x: real)
    ensures OptimalIntype(x) == Int16 <==> 127.0 < x <= 32767.0
    ensures OptimalIntype(x) == Int32 <==> 32767.0 < x <= 2147483647.0
    ensures OptimalIntype(x) == Int64 <==> 2147483647.0 < x <= 9223372036854775807.0
    ensures OptimalIntype(x) == Float32 <==> 9223372036854775807.0 < x <= Float32Max
  {
  }

  /** The interval of numbers each unsigned tag is selected for. */
  lemma OptimalUintypeIntervals(x: real)
    ensures OptimalUintype(x) == UInt16 <==> 255.0 <= x < 65535.0
    ensures OptimalUintype(x) == UInt32 <==> 65535.0 <= x < 4294967295.0
    ensures OptimalUintype(x) == UInt64 <==> 4294967295.0 <= x < 18446744073709551615.0
    ensures OptimalUintype(x) == Float32 <==> 18446744073709551615.0 <= x <= Float32Max
  {
  }

  /** The signed boundaries, and the docstring examples as the code decides them. */
  lemma OptimalIntypeBoundaries()
    ensures OptimalIntype(127.0) == Int8 && OptimalIntype(128.0) == Int16
    ensures OptimalIntype(32767.0) == Int16 && OptimalIntype(32768.0) == Int32
    ensures OptimalIntype(2147483647.0) == Int32 && OptimalIntype(2147483648.0) == Int64
    ensures OptimalIntype(9223372036854775807.0) == Int64
    ensures OptimalIntype(9223372036854775808.0) == Float32
    ensures OptimalIntype(42.0) == Int8 && OptimalIntype(1000.0) == Int16
    ensures OptimalIntype(1e10) == Int64 && OptimalIntype(1e40) == Float64
    ensures OptimalIntype(-1e10) == Int8
  {
  }

  /** The unsigned boundaries: each integer tag's own maximum lands one tag higher. */
  lemma OptimalUintypeBoundaries()
    ensures OptimalUintype(254.0) == UInt8 && OptimalUintype(255.0) == UInt16
    ensures OptimalUintype(65534.0) == UInt16 && OptimalUintype(65535.0) == UInt32
    ensures OptimalUintype(4294967294.0) == UInt32 && OptimalUintype(4294967295.0) == UInt64
    ensures OptimalUintype(18446744073709551614.0) == UInt64
    ensures OptimalUintype(18446744073709551615.0) == Float32
    ensures OptimalUintype(42.0) == UInt8 && OptimalUintype(1000.0) == UInt16
    ensures OptimalUintype(1e40) == Float64
  {
  }

  /** Neither selector checks the sign: every negative number gets the 8-bit tag. */
  lemma NegativesGetEightBits(x: real)
    requires x < 0.0
    ensures OptimalIntype(x) == Int8
    ensures OptimalUintype(x) == UInt8
  {
  }

  /** A larger number never gets an earlier tag of the signed chain. */
  lemma OptimalIntypeMonotone(a: real, b: real)
    requires a <= b
    ensures Rank(OptimalIntype(a)) <= Rank(OptimalIntype(b))
  {
  }

  /** A larger number never gets an earlier tag of the unsigned chain. */
  lemma OptimalUintypeMonotone(a: real, b: real)
    requires a <= b
    ensures Rank(OptimalUintype(a)) <= Rank(OptimalUintype(b))
  {
  }

  // ---------------------------------------------------------------------
  // What the docstrings promise: the smallest type that holds the number
  // ---------------------------------------------------------------------

  /** The range of numbers a tag can hold (integrality and float rounding aside). */
  predicate Holds(t: DType, x: real)
  {
    match t
    case Int8 => -128.0 <= x <= 127.0
    case Int16 => -32768.0 <= x <= 32767.0
    case Int32 => -2147483648.0 <= x <= 2147483647.0
    case Int64 => -9223372036854775808.0 <= x <= 9223372036854775807.0
    case UInt8 => 0.0 <= x <= 255.0
    case UInt16 => 0.0 <= x <= 65535.0
    case UInt32 => 0.0 <= x <= 4294967295.0
    case UInt64 => 0.0 <= x <= 18446744073709551615.0
    case Float32 => -Float32Max <= x <= Float32Max
    case Float64 => true
  }

  /** Signed selection with both ends of each range checked, as the docstring's `-1e10 -> int64` expects. */
  function FittingIntype(x: real): (t: DType)
    ensures t in SignedChain && SignedChain[Rank(t)] == t
    ensures Holds(t, x)
    ensures forall i :: 0 <= i < Rank(t) ==> !Holds(SignedChain[i], x)
  {
    if -128.0 <= x <= 127.0 then Int8
    else if -32768.0 <= x <= 32767.0 then Int16
    else if -2147483648.0 <= x <= 2147483647.0 then Int32
    else if -9223372036854775808.0 <= x <= 9223372036854775807.0 then Int64
    else if -Float32Max <= x <= Float32Max then Float32
    else Float64
  }

  /** The error the unsigned docstring promises for a negative number. */
  datatype NegativeNumber = NegativeNumber(x: real)

  /**
    Unsigned selection as documented: a `ValueError` for negative numbers,
    and inclusive integer bounds so that each type's own maximum fits it.
  */
  function FittingUintype(x: real): (r: Result<DType, NegativeNumber>)
    ensures r.Failure? <==> x < 0.0
    ensures r.Success? ==> r.value in UnsignedChain && UnsignedChain[Rank(r.value)] == r.value
    ensures r.Success? ==> Holds(r.value, x)
    ensures r.Success? ==> forall i :: 0 <= i < Rank(r.value) ==> !Holds(UnsignedChain[i], x)
  {
    if x < 0.0 then Failure(NegativeNumber(x))
    else if x <= 255.0 then Success(UInt8)
    else if x <= 65535.0 then Success(UInt16)
    else if x <= 4294967295.0 then Success(UInt32)
    else if x <= 18446744073709551615.0 then Success(UInt64)
    else if x <= Float32Max then Success(Float32)
    else Success(Float64)
  }

  /** As written, a number below int8's range still gets int8: -1e10 does not fit it. */
  lemma IntypeIgnoresLowerBound()
    ensures OptimalIntype(-1e10) == Int8 && !Holds(Int8, -1e10)
    ensures FittingIntype(-1e10) == Int64
  {
  }

  /** As written, 255 fits uint8 but is given uint16; 2^64 - 1 fits uint64 but is given float32. */
  lemma UintypeExcludesEachMaximum()
    ensures OptimalUintype(255.0) == UInt16 && Holds(UInt8, 255.0)
    ensures FittingUintype(255.0) == Success(UInt8)
    ensures OptimalUintype(18446744073709551615.0) == Float32 && Holds(UInt64, 18446744073709551615.0)
    ensures FittingUintype(18446744073709551615.0) == Success(UInt64)
  {
  }

  /** As written, a negative number gets a tag that cannot hold it instead of an error. */
  lemma UintypeAcceptsNegatives(x: real)
    requires x < 0.0
    ensures OptimalUintype(x) == UInt8 && !Holds(UInt8, x)
    ensures FittingUintype(x) == Failure(NegativeNumber(x))
  {
  }

  /** The two selections agree away from the boundaries they treat differently. */
  lemma FittingAgreesOnNonNegatives(x: real)
    requires 0.0 <= x
    ensures FittingIntype(x) == OptimalIntype(x)
    ensures x !in {255.0, 65535.0, 4294967295.0, 18446744073709551615.0}
            ==> FittingUintype(x) == Success(OptimalUintype(x))
  {
  }
}
