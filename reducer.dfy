/**
 * The tree reducer (`parse_pair`): a closed dispatch over the rule of a
 * value node. Arrays map over their items, objects insert their members in
 * order, strings go through escape resolution, and the literals are read
 * off the node's text.
 */
module Reducer {
  import opened Syntax
  import opened Faults
  import opened Values
  import opened Escapes
  import opened ObjectMaps

  /** Rust's `bool` parser: exactly "true" or "false". */
  function ParseBool(t: string): Result<bool> {
    if t == "true" then Ok(true)
    else if t == "false" then Ok(false)
    else Err(InvalidBoolean(t))
  }

  /** The key of a member: an identifier verbatim, a string resolved. */
  function MemberKey(k: Node): Result<string> {
    match k.rule
    case Identifier => Ok(k.text)
    case String => Resolve(k.children)
    case _ => Err(UnexpectedKey(k.rule))
  }

  /** A member's key and reduced value. The key is taken first, then the
      value; inner nodes past the second are not looked at. */
  function ReduceMember(m: Node): Result<(string, Value)>
    decreases m, 1
  {
    if |m.children| == 0 then Err(MissingKey)
    else
      match MemberKey(m.children[0])
      case Err(e) => Err(e)
      case Ok(k) =>
        if |m.children| < 2 then Err(MissingValue)
        else
          match Reduce(m.children[1])
          case Err(e) => Err(e)
          case Ok(v) => Ok((k, v))
  }

  /** The members of an object, reduced in source order; the first fault
      aborts. */
  function ReduceMembers(ms: seq<Node>): Result<seq<(string, Value)>>
    decreases ms, 0
  {
    if ms == [] then Ok([])
    else
      match ReduceMembers(ms[..|ms| - 1])
      case Err(e) => Err(e)
      case Ok(ps) =>
        match ReduceMember(ms[|ms| - 1])
        case Err(e) => Err(e)
        case Ok(p) => Ok(ps + [p])
  }

  /** The items of an array, reduced in source order; the first fault
      aborts. */
  function ReduceItems(cs: seq<Node>): Result<seq<Value>>
    decreases cs, 0
  {
    if cs == [] then Ok([])
    else
      match ReduceItems(cs[..|cs| - 1])
      case Err(e) => Err(e)
      case Ok(vs) =>
        match Reduce(cs[|cs| - 1])
        case Err(e) => Err(e)
        case Ok(v) => Ok(vs + [v])
  }

  /** The value of a node: the specification of `parse_pair`. */
  function Reduce(n: Node): Result<Value>
    decreases n, 2
  {
    match n.rule
    case Array =>
      (match ReduceItems(n.children)
       case Err(e) => Err(e)
       case Ok(vs) => Ok(Value.Array(vs)))
    case Null => Ok(Value.Null)
    case String =>
      (match Resolve(n.children)
       case Err(e) => Err(e)
       case Ok(s) => Ok(Value.String(s)))
    case Number => Ok(Value.Number(n.text))
    case Boolean =>
      (match ParseBool(n.text)
       case Err(e) => Err(e)
       case Ok(b) => Ok(Value.Boolean(b)))
    case Object =>
      (match ReduceMembers(n.children)
       case Err(e) => Err(e)
       case Ok(ps) => Ok(Value.Object(FromPairs(ps))))
    case _ => Err(UnexpectedValue(n.rule))
  }

  /** `parse_pair`: the dispatch on the node's rule. */
  method ParsePair(pair: Node) returns (r: Result<Value>)
    ensures r == Reduce(pair)
    decreases pair, 3
  {
    match pair.rule {
      case Array =>
        r := ParseArray(pair);
      case Null =>
        r := Ok(Value.Null);
      case String =>
        var s := ParseStr(pair);
        r := match s case Ok(t) => Ok(Value.String(t)) case Err(e) => Err(e);
      case Number =>
        r := Ok(Value.Number(pair.text));
      case Boolean =>
        r := match ParseBool(pair.text) case Ok(b) => Ok(Value.Boolean(b)) case Err(e) => Err(e);
      case Object =>
        r := ParseObject(pair);
      case _ =>
        r := Err(UnexpectedValue(pair.rule));
    }
  }

  /** The array arm: every item reduced, collected in order. */
  method ParseArray(pair: Node) returns (r: Result<Value>)
    requires pair.rule == Rule.Array
    ensures r == Reduce(pair)
    decreases pair, 2
  {
    var cs := pair.children;
    var items: seq<Value> := [];
    for i := 0 to |cs|
      invariant ReduceItems(cs[..i]) == Ok(items)
    {
      assert cs[..i + 1][..i] == cs[..i];
      var v := ParsePair(cs[i]);
      if v.Err? {
        ItemFaultPersists(cs, i + 1);
        return Err(v.error);
      }
      items := items + [v.value];
    }
    assert cs[..|cs|] == cs;
    r := Ok(Value.Array(items));
  }

  /** The closure the object arm maps over its members: the key first,
      then the value. */
  method ParseMember(member: Node) returns (r: Result<(string, Value)>)
    ensures r == ReduceMember(member)
    decreases member, 1
  {
    if |member.children| == 0 {
      return Err(MissingKey);
    }
    var name := MemberKey(member.children[0]);
    if name.Err? {
      return Err(name.error);
    }
    if |member.children| < 2 {
      return Err(MissingValue);
    }
    var value := ParsePair(member.children[1]);
    if value.Err? {
      return Err(value.error);
    }
    r := Ok((name.value, value.value));
  }

  /** The object arm: each member's pair inserted into the map in turn. */
  method ParseObject(pair: Node) returns (r: Result<Value>)
    requires pair.rule == Rule.Object
    ensures r == Reduce(pair)
    decreases pair, 2
  {
    var ms := pair.children;
    var m: map<string, Value> := map[];
    ghost var pairs: seq<(string, Value)> := [];
    for i := 0 to |ms|
      invariant ReduceMembers(ms[..i]) == Ok(pairs)
      invariant m == FromPairs(pairs)
    {
      assert ms[..i + 1][..i] == ms[..i];
      var kv := ParseMember(ms[i]);
      if kv.Err? {
        MemberFaultPersists(ms, i + 1);
        return Err(kv.error);
      }
      var (k, v) := kv.value;
      m := m[k := v];
      pairs := pairs + [(k, v)];
    }
    assert ms[..|ms|] == ms;
    r := Ok(Value.Object(m));
  }

  /** A fault among the first items is the fault of the whole array. */
  lemma {:induction false} ItemFaultPersists(cs: seq<Node>, i: nat)
    requires i <= |cs| && ReduceItems(cs[..i]).Err?
    ensures ReduceItems(cs) == ReduceItems(cs[..i])
  {
    if i < |cs| {
      var p := cs[..|cs| - 1];
      assert p[..i] == cs[..i];
      ItemFaultPersists(p, i);
    } else {
      assert cs[..i] == cs;
    }
  }

  /** A fault among the first members is the fault of the whole object. */
  lemma {:induction false} MemberFaultPersists(ms: seq<Node>, i: nat)
    requires i <= |ms| && ReduceMembers(ms[..i]).Err?
    ensures ReduceMembers(ms) == ReduceMembers(ms[..i])
  {
    if i < |ms| {
      var p := ms[..|ms| - 1];
      assert p[..i] == ms[..i];
      MemberFaultPersists(p, i);
    } else {
      assert ms[..i] == ms;
    }
  }
}
