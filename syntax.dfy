/**
 * The concrete syntax tree handed to the reducer by the grammar engine.
 * The engine itself is not modelled: a tree is any value of `Node`. The
 * reducer faults exactly where the source panics (an unexpected rule, a
 * missing member key or value, a boolean text other than "true" or "false",
 * the long-form Unicode escape) and reduces every other shape as the source
 * does, whether or not the engine can produce it.
 */
module Syntax {

  /** The grammar rule tags the reducer distinguishes; `Other` stands for
      every remaining rule of the grammar (`text`, `value`, `member`, ...). */
  datatype Rule =
    | Array
    | Null
    | String
    | Number
    | Boolean
    | Object
    | Identifier
    | CharLiteral
    | NulEscape
    | CharEscape
    | HexEscape
    | UnicodeEscape
    | Other(name: string)

  /** One node of the tree: the rule it matched, the source text it spans,
      and its inner nodes in source order. */
  datatype Node = Node(rule: Rule, text: string, children: seq<Node>)
}

/** The ways the reducer can fail; each one is a panic of the source. */
module Faults {
  import opened Syntax

  datatype Fault =
    | UnicodeEscapeUnimplemented   // the `todo!()` of the long-form escape
    | UnexpectedInString(rule: Rule) // `unreachable!()` inside a string body
    | UnexpectedKey(rule: Rule)      // `unreachable!()` for a member key
    | UnexpectedValue(rule: Rule)    // `unreachable!()` of the value dispatch
    | MissingKey                     // first `unwrap()` of a member
    | MissingValue                   // second `unwrap()` of a member
    | InvalidBoolean(text: string)   // `unwrap()` of the boolean parse

  datatype Result<+T> = Ok(value: T) | Err(error: Fault)
}
