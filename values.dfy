/** The value tree the reducer produces. */
module Values {

  /** A number keeps its literal text: the conversion to a double is not
      part of this model. */
  datatype Value =
    | Null
    | Boolean(b: bool)
    | Number(literal: string)
    | String(s: string)
    | Array(items: seq<Value>)
    | Object(members: map<string, Value>)
}
