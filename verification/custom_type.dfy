/** The element type the set is instantiated with: a thin wrapper around a
    32-bit integer whose `==` and `<` compare the wrapped integers. */
module CustomTypes {

  /** The C++ `int` field: a 32-bit signed integer. Comparisons on it never
      overflow, so no wrap-around needs modelling. */
  newtype Int32 = x: int | -0x8000_0000 <= x < 0x8000_0000

  datatype CustomType = CustomType(x: Int32)

  /** `operator==`: compares the wrapped integers. For this type that is
      value identity, so a set of elements is a faithful abstraction of the
      tree's contents. */
  function Equal(a: CustomType, b: CustomType): (r: bool)
    ensures r <==> a == b
  {
    a.x == b.x
  }

  /** `operator<`: compares the wrapped integers. It is consistent with
      `operator==`: it never holds between values that compare equal. */
  function Less(a: CustomType, b: CustomType): (r: bool)
    ensures r ==> !Equal(a, b)
  {
    a.x < b.x
  }

  /** The set's "route right" test: neither `v < x` nor `v == x`. */
  predicate GoesRight(v: CustomType, x: CustomType) {
    !Less(v, x) && !Equal(v, x)
  }

  /** `<` is a strict order: irreflexive and transitive. */
  lemma LessIsStrictOrder(a: CustomType, b: CustomType, c: CustomType)
    ensures !Less(a, a)
    ensures Less(a, b) && Less(b, c) ==> Less(a, c)
  {
  }

  /** Exactly one of `a < b`, `a == b`, `b < a` holds; in particular the
      "route right" test is exactly `b < a`. */
  lemma Trichotomy(a: CustomType, b: CustomType)
    ensures Less(a, b) || Equal(a, b) || Less(b, a)
    ensures !(Less(a, b) && Equal(a, b))
    ensures !(Less(a, b) && Less(b, a))
    ensures !(Equal(a, b) && Less(b, a))
    ensures GoesRight(a, b) <==> Less(b, a)
  {
  }
}
