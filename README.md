# lua-json5 tree reducer, modelled in Dafny

This project models the tree reducer of lua-json5, a JSON5 parser for Lua
written in Rust. The grammar engine (pest) turns JSON5 text into a concrete
syntax tree. The reducer in `src/parser.rs` walks that tree and builds a
`Value`:

- `parse_str` resolves the escapes of a string body;
- `parse_pair` dispatches on the node's rule; arrays map over their items,
  objects insert their members into a hash map one after another.

The syntax tree is an input datatype (`Syntax.Node`: a rule tag, the source
text the node spans, and its inner nodes). Every panic of the source,
except the one of the number parse, is a `Faults.Fault` in an `Err` result:

- the `todo!()` of the long-form Unicode escape;
- each `unreachable!()`;
- the two `unwrap()`s on the parts of a member;
- the `unwrap()` of the boolean parse.

Every part of the reducer has a specification function: `Escapes.Resolve`
for a string body, `Reducer.Reduce`, `ReduceItems`, `ReduceMember` and
`ReduceMembers` for values, and `ObjectMaps.FromPairs` for the map the insert
loop builds. Each loop of the source is a method proved equal to its
function:

- `Escapes.ParseStr` appends to a string inside its loop;
- `Reducer.ParseArray` collects the items;
- `Reducer.ParseObject` inserts each `(key, value)` pair into a map.

Two further methods, which hold no loop, tie the loops together and are
proved equal to their functions as well: `Reducer.ParseMember` is the
closure that reduces one member, and `Reducer.ParsePair` is the dispatch.

The lemmas in `Properties`, `Escapes`, `ObjectMaps` and `Numerals` state
what the reducer promises:

- arrays keep their length and order;
- objects are last-write-wins maps over exactly their members' keys;
- each inner node of a string body maps to an exact piece of text, and the
  pieces are concatenated in order;
- the first node the reducer cannot handle aborts the whole reduction.

## The hex escape reads base 10

The JSON5 Data Interchange Format (section 5.1, "Escapes") defines `\x`
followed by two hexadecimal digits as the code point those digits name in
base 16, so `\x41` is `A`. The code at `src/parser.rs:31` calls `str::parse`, and
`char::from_u32` at line 35 fixes the target type to `u32`. That is a
base-10 parse: an optional `+`, then ASCII digits, then an overflow check.
On failure the value is 0, and `char::from_u32(0)` is U+0000. The model
follows the code:

- `Numerals.ParseU32` is that parser;
- `Escapes.EscapeExample` shows the text `41` resolving to U+0029;
- `Escapes.NonDecimalHexIsNul` shows that a text holding any character
  that is neither a decimal digit nor `+` (a hex digit `a`-`f` or `A`-`F`, a leading
  `x`) adds U+0000; one leading `+` is skipped, so `+5` adds U+0005;
- `Escapes.HexReadingsDisagree` sets the base-16 reading of the standard
  (`Numerals.HexDigitsValue`, which gives `A` for `41`) against the code's
  reading, which gives U+0029.

The grammar file `json5.pest` is not part of this model, so the model does
not fix what text a hex-escape node spans. Every lemma holds for any text.

## Model

| member | source | states |
|---|---|---|
| `Escapes.ParseStr` | src/parser.rs:15-44 | The loop over a string body returns exactly `Resolve` of the body's inner nodes: the in-order concatenation of their pieces, or the fault of the first node it cannot handle. |
| `Escapes.ResolveConcat` | src/parser.rs:17-43 | Resolving two runs of inner nodes one after the other equals resolving each run and concatenating, with the first fault winning. |
| `Escapes.ChildInContext` | src/parser.rs:17-42 | An inner node's piece lands exactly between the text of the nodes before it and the text of the nodes after it. |
| `Escapes.ResolveTotal` | src/parser.rs:17-41 | A body resolves if and only if every inner node contributes a piece. |
| `Escapes.FirstFaultWins` | src/parser.rs:39-40 | A body that fails reports the fault of its first inner node that fails, and every node before that one contributes. |
| `Escapes.FaultPersists` | src/parser.rs:39-40 | Once a prefix of the body has failed, the whole body fails with that same fault. |
| `Escapes.LiteralsVerbatim` | src/parser.rs:19 | A body made only of literal runs resolves to their texts, concatenated and unchanged. |
| `Escapes.ContributionTable` | src/parser.rs:18-40 | A literal run adds its own text. A NUL escape adds U+0000. `n r t b v f` add U+000A, U+000D, U+0009, U+0008, U+000B, U+000C. Any other escape text adds itself. A Unicode escape is the unimplemented fault, and any other rule is an unexpected-rule fault. |
| `Escapes.HexEscapeContribution` | src/parser.rs:30-38 | A hex escape reads its text as a decimal u32, or 0 when that fails. It adds exactly that one character when the value is a Unicode scalar (below 0xD800, or 0xE000 up to 0x10FFFF), and nothing otherwise. |
| `Escapes.InvalidHexDropped` | src/parser.rs:35-37 | A hex escape that names no scalar value drops out, and the rest of the string resolves as if it were absent. |
| `Escapes.NonDecimalHexIsNul` | src/parser.rs:31-35 | A hex escape whose text holds a character that is neither a decimal digit nor `+` adds U+0000. |
| `Escapes.UnhandledChildNeverResolves` | src/parser.rs:39-40 | A body holding a Unicode escape, or any rule the loop does not handle, never resolves to a string. |
| `Escapes.EscapeExample` | src/parser.rs:21-38 | The body `\n \t \\ x41` (hex text `41`) resolves to line feed, tab, backslash, U+0029. |
| `Escapes.HexReadingsDisagree` | src/parser.rs:30-36 | For the hex text `41`, the base-16 reading names `A`, while the code's decimal read adds U+0029. |
| `Numerals.AccumulateReads` | src/parser.rs:31 | The digit loop yields the positional decimal value. It fails exactly when a non-digit occurs or that value reaches 2^32. |
| `Numerals.ParseU32Reads` | src/parser.rs:31-34 | The u32 parser succeeds exactly on an optional `+` followed by at least one digit whose value is below 2^32, and then yields that value. |
| `Numerals.ParseU32Bounded` | src/parser.rs:31 | A successful parse is below 2^32. |
| `ObjectMaps.FromPairsKeys` | src/parser.rs:67-70 | After the insert loop, the map's keys are exactly the keys of the inserted pairs. |
| `ObjectMaps.FromPairsLastWins` | src/parser.rs:67-70 | After the insert loop, a key maps to the value of the last pair that carries it. |
| `Reducer.ParsePair` | src/parser.rs:46-75 | The dispatch returns exactly `Reduce` of the node. |
| `Reducer.ParseArray` | src/parser.rs:48 | The array arm returns exactly `Reduce` of the node: its items reduced and collected in order, or the first item's fault. |
| `Reducer.ParseMember` | src/parser.rs:54-66 | The member closure returns exactly `ReduceMember`: the key first, then the value, with faults for a missing key, a bad key kind and a missing value. |
| `Reducer.ParseObject` | src/parser.rs:53-72 | The object arm returns exactly `Reduce` of the node: the map built by inserting each member's pair in source order. |
| `Reducer.ItemFaultPersists` | src/parser.rs:48 | A fault among the first items of an array is the fault of the whole array. |
| `Reducer.MemberFaultPersists` | src/parser.rs:54-70 | A fault among the first members of an object is the fault of the whole object. |
| `Properties.ItemsInOrder` | src/parser.rs:48 | Items reduce together exactly when each one does. The result then has one value per item, and the i-th value is the reduction of the i-th item. |
| `Properties.ItemsFirstFault` | src/parser.rs:48 | Items that fail report the fault of the first failing item, and every earlier item reduces. |
| `Properties.MembersInOrder` | src/parser.rs:54-66 | Members reduce together exactly when each one does. The i-th pair is then the reduction of the i-th member. |
| `Properties.MembersFirstFault` | src/parser.rs:54-70 | Members that fail report the fault of the first failing member, and every earlier member reduces. |
| `Properties.ArrayPreservesOrder` | src/parser.rs:48 | An array node reduces if and only if each item does. Its value is then an array of the same length, whose i-th element is the reduction of the i-th item. |
| `Properties.MemberParts` | src/parser.rs:55-65 | A member reduces exactly when it has a key node that gives a key and a second node that reduces. A missing key is reported first, then a bad key, then a missing value. |
| `Properties.KeyForms` | src/parser.rs:58-62 | An identifier key is its text verbatim. A string key is its resolved body. Any other rule in key position is a fault. |
| `Properties.ObjectLastWriteWins` | src/parser.rs:53-71 | An object node reduces if and only if each member does. Its map's key set is then exactly its members' keys, and each key maps to the value of the last member with that key. |
| `Properties.LiteralArms` | src/parser.rs:49-52 | `null` is `Null` whatever its text. A number keeps its text. A boolean is `true` exactly for the text "true", `false` exactly for "false", and a fault otherwise. A string is its resolved body. Any other rule in value position is a fault. |
| `Properties.ClosedDispatch` | src/parser.rs:47-73 | A node that reduces has one of the six value rules, and the value's variant is the one its rule names. |
| `Properties.IdentifierMatchesQuotedKey` | src/parser.rs:58-60 | A bare identifier key and a quoted key of literal runs spelling the same text give the same key. |
| `Properties.DuplicateKeyExample` | src/parser.rs:67-70 | `{"a": 1, "a": 2}` reduces to an object with the single key "a" mapped to 2. |
| `Properties.IdentifierKeyExample` | src/parser.rs:56-62 | `{foo: 1}` and `{"foo": 1}` reduce to the same object, `{"foo": 1}`. |

## Left out

- `parse` (src/parser.rs:77-83) is left out. It runs the pest-generated parser over the grammar file `json5.pest`, which is not part of this model, and projects the value into Lua through `mlua`. Both are foreign libraries.
- Reducer.ParsePair: a number keeps its literal text and never fails. The source converts the text with Rust's `f64` parser and panics (`unwrap`) on any text that parser rejects, such as a JSON5 hexadecimal literal. IEEE-754 parsing is not modelled.
- The object is a Dafny `map`, so the hashing and iteration order of `HashMap` are not modelled. Only the key-to-value content is.
- A panic is an `Err` result. Unwinding and the `Arc`-wrapped error type of `parse` are not modelled.
- Rust's `String` is UTF-8 bytes. The model uses Dafny strings, which are sequences of Unicode scalar values, so byte lengths and encoding are not modelled.
- The model accepts any tree, including shapes the grammar never produces. It faults exactly where the source panics: an unexpected rule, a missing member key or value, a boolean text other than "true" or "false", and the long-form Unicode escape. It reduces every other shape as the source does: a `null` node with any text is `Null`, a number node keeps any text, and a member's inner nodes past the second are ignored. The grammar's guarantees on node texts are unknown, so they are not assumed.
