/** Values the export scripts pass around: configuration values as read from JSON, the
    finding requests they hand to a network, and the cells of an output row. */
module ExportTypes {
  import opened Netica

  /** A configuration value: JSON `null`, a string, an integer, a boolean, or any other JSON
      value. */
  datatype JsonValue = JNull | JString(s: string) | JInt(i: int) | JBool(b: bool) | JOther

  /** One `key: value` item of a configuration dictionary; a configuration is their sequence,
      in the dictionary's order. */
  datatype ConfigEntry = ConfigEntry(key: string, value: JsonValue)

  /** How a configuration value reaches `get_node_state`: a string is a state name; an integer
      is a state index, and so is a boolean, Python's `bool` being an `int` (`True` is 1,
      `False` is 0); anything else is rejected there. */
  function StateOf(v: JsonValue): (s: StateRef)
    ensures v.JString? <==> s.StateName?
    ensures v.JString? ==> s.name == v.s
    ensures (v.JInt? || v.JBool?) <==> s.StateIndex?
    ensures v.JInt? ==> s.index == v.i
    ensures v.JBool? ==> s.index == (if v.b then 1 else 0)
    ensures (v.JNull? || v.JOther?) <==> s.OtherStateRef?
  {
    match v
    case JString(name) => StateName(name)
    case JInt(i) => StateIndex(i)
    case JBool(b) => StateIndex(if b then 1 else 0)
    case _ => OtherStateRef
  }

  /** A call `enter_finding(node, state, retract=retract)` as the caller issues it. */
  datatype FindingRequest = FindingRequest(node: string, state: StateRef, retract: bool)

  /** One cell of an output row. */
  datatype Cell = Text(s: string) | Int(i: int) | Number(x: real)
}
