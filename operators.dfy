/** Comparison operators of a simple condition and logical operators of a complex one. */
module Operators {

  datatype Operator = Equal | Greater | Lesser

  datatype LogicalOperator = And | Or | Not
}
