/** Values exchanged between the agent, the remote server and the reporting sink. */
module Values {

  /** Java's nullable references: None stands for null. */
  datatype Option<+T> = None | Some(value: T)

  /** A java.lang.Number as far as the agent inspects it: either a number, or one whose
      toString() is "NaN". Floating-point detail beyond that flag is not modelled. */
  datatype Number = Num(x: real) | NaN

  /** A possibly-null Number. */
  type Value = Option<Number>

  /** The Metric record: a name, a value-type label and a possibly-null value. */
  datatype Metric = Metric(name: string, valueType: string, value: Value)

  /** The reporting loop's test: the value is non-null and does not print as "NaN". */
  predicate Reportable(v: Value)
  {
    v.Some? && !v.value.NaN?
  }
}
