/**
 * The SSA value types the pass looks at. Arrays are keyed by their whole
 * type, so two distinct values of one array type are indistinguishable to it.
 */
module Types {

  datatype NumericType = Signed(bitSize: nat) | Unsigned(bitSize: nat) | NativeField

  datatype Type =
    | Numeric(numeric: NumericType)
    | Reference(element: Type)
    | Array(elements: seq<Type>, length: nat)
    | Slice(elements: seq<Type>)
    | Function
  {
    /** True for arrays and slices, and for references that lead to one. */
    predicate ContainsAnArray() {
      match this
      case Numeric(_) => false
      case Function => false
      case Array(_, _) => true
      case Slice(_) => true
      case Reference(element) => element.ContainsAnArray()
    }
  }

  /** `[Field; 2]`, the parameter type of the source's tests. */
  const FieldPair: Type := Array([Numeric(NativeField)], 2)
}
