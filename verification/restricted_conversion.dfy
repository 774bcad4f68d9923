/** Which conversions between number types are restricted to explicit use.

    A conversion is lossy when the category of its target cannot represent every value
    of the category of its source: towards the integer category from any other known
    category, or whenever either category is unknown.  A conversion is restricted when
    it is lossy, or when the source converts to the target only explicitly.  The two
    convertibility facts are C++ type-system queries and enter as parameters.
 */
module RestrictedConversion {

  /** `number_category<T>::value`. */
  datatype NumberKind = Unknown | Integer | FloatingPoint | Rational | FixedPoint

  /** `is_lossy_conversion<From, To>::value`, clause by clause. */
  function IsLossyConversion(from: NumberKind, to: NumberKind): (lossy: bool)
    ensures lossy <==> from == Unknown || to == Unknown || (to == Integer && from != Integer)
    ensures from == FloatingPoint && to == Rational ==> !lossy
    ensures from == Integer && to != Unknown ==> !lossy
  {
    (from == FloatingPoint && to == Integer)
    || (from == Rational && to == Integer)
    || (from == FixedPoint && to == Integer)
    || from == Unknown
    || to == Unknown
  }

  /** `is_restricted_conversion<From, To>::value`: lossy, or explicit-only. */
  function IsRestrictedConversion(from: NumberKind, to: NumberKind,
                                  explicitlyConvertible: bool, implicitlyConvertible: bool)
    : (restricted: bool)
    ensures IsLossyConversion(from, to) ==> restricted
    ensures !IsLossyConversion(from, to) ==>
      (restricted <==> explicitlyConvertible && !implicitlyConvertible)
  {
    (explicitlyConvertible && !implicitlyConvertible) || IsLossyConversion(from, to)
  }
}
