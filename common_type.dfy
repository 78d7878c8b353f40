/**
 * The common type of two Python builtin types (`get_common_type`): the most
 * concrete type both values can be converted to.
 */
module CommonType {

  /**
   * A Python type object. The eight listed types, `object`, and any other
   * type, told apart by name.
   */
  datatype PyType = Bool | Int | Float | Complex | List | Range | Tuple | Str | Object | Other(name: string)

  /** One of the eight types the function is documented for. */
  predicate Listed(t: PyType) {
    t in {Bool, Int, Float, Complex, List, Range, Tuple, Str}
  }

  predicate IsNumeric(t: PyType) {
    t == Bool || t == Int || t == Float || t == Complex
  }

  predicate IsContainer(t: PyType) {
    t == List || t == Tuple || t == Range
  }

  /** The position of a numeric type in the tuple `(bool, int, float, complex)`. */
  function NumericIndex(t: PyType): nat
    requires IsNumeric(t)
  {
    match t
    case Bool => 0
    case Int => 1
    case Float => 2
    case Complex => 3
  }

  function GetCommonType(type1: PyType, type2: PyType): (r: PyType)
    ensures r != Range
    ensures Listed(type1) && Listed(type2) ==> Listed(r)
    ensures type1 == Str || type2 == Str ==> r == Str
  {
    if type1 == type2 then
      (if type1 != Range then type1 else Tuple)
    else if type1 == Str || type2 == Str then Str
    else if IsNumeric(type1) && IsNumeric(type2) then
      (if NumericIndex(type1) >= NumericIndex(type2) then type1 else type2)
    else if IsContainer(type1) && IsContainer(type2) then
      (if type1 == List || type2 == List then List else Tuple)
    else if IsContainer(type1) != IsContainer(type2) then Str
    else Object
  }

  /** The function is symmetric in its arguments. */
  lemma Symmetric(t1: PyType, t2: PyType)
    ensures GetCommonType(t1, t2) == GetCommonType(t2, t1)
  {
  }

  /** A type with itself gives itself, except that range gives tuple. */
  lemma SameType(t: PyType)
    ensures GetCommonType(t, t) == if t == Range then Tuple else t
  {
  }

  /** Two numeric types give the later one in the order bool < int < float < complex. */
  lemma NumericIsLater(t1: PyType, t2: PyType)
    requires IsNumeric(t1) && IsNumeric(t2)
    ensures IsNumeric(GetCommonType(t1, t2))
    ensures NumericIndex(GetCommonType(t1, t2)) == if NumericIndex(t1) >= NumericIndex(t2) then NumericIndex(t1) else NumericIndex(t2)
  {
  }

  /** Two containers give list if either is a list, and tuple otherwise. */
  lemma ContainersJoin(t1: PyType, t2: PyType)
    requires IsContainer(t1) && IsContainer(t2)
    ensures GetCommonType(t1, t2) == if t1 == List || t2 == List then List else Tuple
  {
  }

  /** A container with a numeric type gives str. */
  lemma ContainerWithNumeric(t1: PyType, t2: PyType)
    requires IsContainer(t1) && IsNumeric(t2)
    ensures GetCommonType(t1, t2) == Str && GetCommonType(t2, t1) == Str
  {
  }
}
