/** What the reducer promises about arrays, objects and literals. */
module Properties {
  import opened Syntax
  import opened Faults
  import opened Values
  import opened Escapes
  import opened ObjectMaps
  import opened Reducer

  /** Items reduce together exactly when each one does, and then the i-th
      value is the reduction of the i-th item. */
  lemma {:induction false} ItemsInOrder(cs: seq<Node>)
    ensures ReduceItems(cs).Ok? <==> forall i :: 0 <= i < |cs| ==> Reduce(cs[i]).Ok?
    ensures ReduceItems(cs).Ok? ==>
              |ReduceItems(cs).value| == |cs|
              && forall i :: 0 <= i < |cs| ==> ReduceItems(cs).value[i] == Reduce(cs[i]).value
  {
    if cs != [] {
      var p := cs[..|cs| - 1];
      ItemsInOrder(p);
      assert forall i :: 0 <= i < |p| ==> p[i] == cs[i];
    }
  }

  /** When the items do not all reduce, the fault is that of the first
      item that fails. */
  lemma {:induction false} ItemsFirstFault(cs: seq<Node>)
    requires ReduceItems(cs).Err?
    ensures exists i :: 0 <= i < |cs| && Reduce(cs[i]) == Err(ReduceItems(cs).error)
                        && forall j :: 0 <= j < i ==> Reduce(cs[j]).Ok?
  {
    var p := cs[..|cs| - 1];
    assert forall i :: 0 <= i < |p| ==> p[i] == cs[i];
    if ReduceItems(p).Err? {
      ItemsFirstFault(p);
      var i :| 0 <= i < |p| && Reduce(p[i]) == Err(ReduceItems(p).error)
               && forall j :: 0 <= j < i ==> Reduce(p[j]).Ok?;
      assert Reduce(cs[i]) == Err(ReduceItems(cs).error);
    } else {
      ItemsInOrder(p);
      assert Reduce(cs[|cs| - 1]) == Err(ReduceItems(cs).error);
    }
  }

  /** Members reduce together exactly when each one does, and then the i-th
      pair is the reduction of the i-th member. */
  lemma {:induction false} MembersInOrder(ms: seq<Node>)
    ensures ReduceMembers(ms).Ok? <==> forall i :: 0 <= i < |ms| ==> ReduceMember(ms[i]).Ok?
    ensures ReduceMembers(ms).Ok? ==>
              |ReduceMembers(ms).value| == |ms|
              && forall i :: 0 <= i < |ms| ==> ReduceMembers(ms).value[i] == ReduceMember(ms[i]).value
  {
    if ms != [] {
      var p := ms[..|ms| - 1];
      MembersInOrder(p);
      assert forall i :: 0 <= i < |p| ==> p[i] == ms[i];
    }
  }

  /** When the members do not all reduce, the fault is that of the first
      member that fails. */
  lemma {:induction false} MembersFirstFault(ms: seq<Node>)
    requires ReduceMembers(ms).Err?
    ensures exists i :: 0 <= i < |ms| && ReduceMember(ms[i]) == Err(ReduceMembers(ms).error)
                        && forall j :: 0 <= j < i ==> ReduceMember(ms[j]).Ok?
  {
    var p := ms[..|ms| - 1];
    assert forall i :: 0 <= i < |p| ==> p[i] == ms[i];
    if ReduceMembers(p).Err? {
      MembersFirstFault(p);
      var i :| 0 <= i < |p| && ReduceMember(p[i]) == Err(ReduceMembers(p).error)
               && forall j :: 0 <= j < i ==> ReduceMember(p[j]).Ok?;
      assert ReduceMember(ms[i]) == Err(ReduceMembers(ms).error);
    } else {
      MembersInOrder(p);
      assert ReduceMember(ms[|ms| - 1]) == Err(ReduceMembers(ms).error);
    }
  }

  /** An array reduces to the array of its items' values, same length, same
      order; it fails exactly when one of its items does. */
  lemma ArrayPreservesOrder(n: Node)
    requires n.rule == Rule.Array
    ensures Reduce(n).Ok? <==> forall i :: 0 <= i < |n.children| ==> Reduce(n.children[i]).Ok?
    ensures Reduce(n).Ok? ==>
              && Reduce(n).value.Array?
              && |Reduce(n).value.items| == |n.children|
              && forall i :: 0 <= i < |n.children| ==>
                   Reduce(n).value.items[i] == Reduce(n.children[i]).value
  {
    ItemsInOrder(n.children);
  }

  /** A member reduces exactly when it has a key node of a key kind that
      resolves and a second inner node that reduces; its pair is then that
      key and that value. A missing key is reported before anything else,
      and a bad key before a missing value. */
  lemma MemberParts(m: Node)
    ensures ReduceMember(m).Ok? <==>
              |m.children| >= 2 && MemberKey(m.children[0]).Ok? && Reduce(m.children[1]).Ok?
    ensures ReduceMember(m).Ok? ==>
              ReduceMember(m).value == (MemberKey(m.children[0]).value, Reduce(m.children[1]).value)
    ensures |m.children| == 0 ==> ReduceMember(m) == Err(MissingKey)
    ensures |m.children| > 0 && MemberKey(m.children[0]).Err? ==>
              ReduceMember(m) == Err(MemberKey(m.children[0]).error)
    ensures |m.children| == 1 && MemberKey(m.children[0]).Ok? ==> ReduceMember(m) == Err(MissingValue)
  {
  }

  /** Member keys: an identifier is taken verbatim, a string is resolved
      like any string, and nothing else may stand in key position. */
  lemma KeyForms(k: Node)
    ensures k.rule == Identifier ==> MemberKey(k) == Ok(k.text)
    ensures k.rule == Rule.String ==> MemberKey(k) == Resolve(k.children)
    ensures k.rule !in {Identifier, Rule.String} ==> MemberKey(k) == Err(UnexpectedKey(k.rule))
  {
  }

  /** Two ways of listing the same keys give the same key set. */
  lemma SameKeySet<V>(ps: seq<(string, V)>, keys: seq<string>)
    requires |ps| == |keys| && forall i :: 0 <= i < |ps| ==> ps[i].0 == keys[i]
    ensures (set i | 0 <= i < |ps| :: ps[i].0) == (set i | 0 <= i < |keys| :: keys[i])
  {
  }

  /** The keys of the members of an object that reduces, in member order. */
  function MemberKeys(ms: seq<Node>): (keys: seq<string>)
    requires forall i :: 0 <= i < |ms| ==> ReduceMember(ms[i]).Ok?
    ensures |keys| == |ms| && forall i :: 0 <= i < |ms| ==> keys[i] == ReduceMember(ms[i]).value.0
  {
    seq(|ms|, i requires 0 <= i < |ms| => ReduceMember(ms[i]).value.0)
  }

  /** Last write wins: an object that reduces has exactly its members' keys,
      and each key maps to the value of the last member carrying it. */
  lemma ObjectLastWriteWins(n: Node)
    requires n.rule == Rule.Object
    ensures Reduce(n).Ok? <==> forall i :: 0 <= i < |n.children| ==> ReduceMember(n.children[i]).Ok?
    ensures Reduce(n).Ok? ==>
              var keys := MemberKeys(n.children);
              && Reduce(n).value.Object?
              && Reduce(n).value.members.Keys == (set i | 0 <= i < |keys| :: keys[i])
              && forall i :: 0 <= i < |keys| && (forall j :: i < j < |keys| ==> keys[j] != keys[i]) ==>
                   Reduce(n).value.members[keys[i]] == ReduceMember(n.children[i]).value.1
  {
    var ms := n.children;
    MembersInOrder(ms);
    if Reduce(n).Ok? {
      var ps := ReduceMembers(ms).value;
      var m := FromPairs(ps);
      assert Reduce(n) == Ok(Value.Object(m));
      var keys := MemberKeys(ms);
      assert forall i :: 0 <= i < |ps| ==> ps[i] == ReduceMember(ms[i]).value;
      SameKeySet(ps, keys);
      FromPairsKeys(ps);
      forall i | 0 <= i < |keys| && (forall j :: i < j < |keys| ==> keys[j] != keys[i])
        ensures m[keys[i]] == ReduceMember(ms[i]).value.1
      {
        FromPairsLastWins(ps, i);
      }
    }
  }

  /** The literal arms: `null` ignores its text, a number keeps its text,
      a boolean is exactly "true" or "false", a string is its resolved body,
      and any other rule in value position is a fault. */
  lemma LiteralArms(n: Node)
    ensures n.rule == Rule.Null ==> Reduce(n) == Ok(Value.Null)
    ensures n.rule == Rule.Number ==> Reduce(n) == Ok(Value.Number(n.text))
    ensures n.rule == Rule.Boolean ==>
              && (Reduce(n) == Ok(Value.Boolean(true)) <==> n.text == "true")
              && (Reduce(n) == Ok(Value.Boolean(false)) <==> n.text == "false")
              && (n.text != "true" && n.text != "false" ==> Reduce(n) == Err(InvalidBoolean(n.text)))
    ensures n.rule == Rule.String ==>
              forall s :: Reduce(n) == Ok(Value.String(s)) <==> Resolve(n.children) == Ok(s)
    ensures n.rule !in {Rule.Array, Rule.Null, Rule.String, Rule.Number, Rule.Boolean, Rule.Object} ==>
              Reduce(n) == Err(UnexpectedValue(n.rule))
  {
  }

  /** The dispatch is closed: a node that reduces has one of the six value
      rules, and the value's variant is the one its rule names. */
  lemma ClosedDispatch(n: Node)
    requires Reduce(n).Ok?
    ensures n.rule in {Rule.Array, Rule.Null, Rule.String, Rule.Number, Rule.Boolean, Rule.Object}
    ensures (n.rule == Rule.Array <==> Reduce(n).value.Array?)
         && (n.rule == Rule.Null <==> Reduce(n).value.Null?)
         && (n.rule == Rule.String <==> Reduce(n).value.String?)
         && (n.rule == Rule.Number <==> Reduce(n).value.Number?)
         && (n.rule == Rule.Boolean <==> Reduce(n).value.Boolean?)
         && (n.rule == Rule.Object <==> Reduce(n).value.Object?)
  {
  }

  /** A bare identifier key and a quoted key spelling the same literal text
      give the same key. */
  lemma IdentifierMatchesQuotedKey(id: Node, quoted: Node)
    requires id.rule == Identifier && quoted.rule == Rule.String
    requires forall i :: 0 <= i < |quoted.children| ==> quoted.children[i].rule == CharLiteral
    requires LiteralText(quoted.children) == id.text
    ensures MemberKey(quoted) == MemberKey(id) == Ok(id.text)
  {
    LiteralsVerbatim(quoted.children);
  }

  /** `{"a": 1, "a": 2}` reduces to an object whose one key "a" maps to 2. */
  lemma DuplicateKeyExample()
    ensures
      var key := Node(Rule.String, "\"a\"", [Node(CharLiteral, "a", [])]);
      var one := Node(Other("member"), "\"a\": 1", [key, Node(Rule.Number, "1", [])]);
      var two := Node(Other("member"), "\"a\": 2", [key, Node(Rule.Number, "2", [])]);
      Reduce(Node(Rule.Object, "{\"a\": 1, \"a\": 2}", [one, two]))
        == Ok(Value.Object(map["a" := Value.Number("2")]))
  {
    var key := Node(Rule.String, "\"a\"", [Node(CharLiteral, "a", [])]);
    var one := Node(Other("member"), "\"a\": 1", [key, Node(Rule.Number, "1", [])]);
    var two := Node(Other("member"), "\"a\": 2", [key, Node(Rule.Number, "2", [])]);
    LiteralsVerbatim(key.children);
    assert [Node(CharLiteral, "a", [])][..0] == [];
    assert "" + "a" == "a";
    assert MemberKey(key) == Ok("a");
    assert ReduceMember(one) == Ok(("a", Value.Number("1")));
    assert ReduceMember(two) == Ok(("a", Value.Number("2")));
    var ms := [one, two];
    assert ms[..1][..0] == [];
    assert [] + [("a", Value.Number("1"))] == [("a", Value.Number("1"))];
    assert ReduceMembers(ms[..1]) == Ok([("a", Value.Number("1"))]);
    assert [("a", Value.Number("1"))] + [("a", Value.Number("2"))]
        == [("a", Value.Number("1")), ("a", Value.Number("2"))];
    assert ms[..1] == ms[..|ms| - 1];
    assert ReduceMembers(ms) == Ok([("a", Value.Number("1")), ("a", Value.Number("2"))]);
    var ps := [("a", Value.Number("1")), ("a", Value.Number("2"))];
    assert ps[..1][..0] == [];
    assert ps[..1] == ps[..|ps| - 1];
    assert FromPairs(ps) == map["a" := Value.Number("1")]["a" := Value.Number("2")];
    assert map["a" := Value.Number("1")]["a" := Value.Number("2")] == map["a" := Value.Number("2")];
  }

  /** `{foo: 1}` and `{"foo": 1}` reduce to the same object. */
  lemma IdentifierKeyExample()
    ensures
      var bare := Node(Other("member"), "foo: 1", [Node(Identifier, "foo", []), Node(Rule.Number, "1", [])]);
      var quoted := Node(Other("member"), "\"foo\": 1",
                         [Node(Rule.String, "\"foo\"", [Node(CharLiteral, "foo", [])]), Node(Rule.Number, "1", [])]);
      && Reduce(Node(Rule.Object, "{foo: 1}", [bare])) == Reduce(Node(Rule.Object, "{\"foo\": 1}", [quoted]))
      && Reduce(Node(Rule.Object, "{foo: 1}", [bare])) == Ok(Value.Object(map["foo" := Value.Number("1")]))
  {
    var id := Node(Identifier, "foo", []);
    var key := Node(Rule.String, "\"foo\"", [Node(CharLiteral, "foo", [])]);
    assert [Node(CharLiteral, "foo", [])][..0] == [];
    assert "" + "foo" == "foo";
    IdentifierMatchesQuotedKey(id, key);
    var bare := Node(Other("member"), "foo: 1", [id, Node(Rule.Number, "1", [])]);
    var quoted := Node(Other("member"), "\"foo\": 1", [key, Node(Rule.Number, "1", [])]);
    assert [bare][..0] == [] && [quoted][..0] == [];
    assert ReduceMember(bare) == Ok(("foo", Value.Number("1")));
    assert ReduceMember(quoted) == Ok(("foo", Value.Number("1")));
    assert [] + [("foo", Value.Number("1"))] == [("foo", Value.Number("1"))];
    assert ReduceMembers([bare]) == Ok([("foo", Value.Number("1"))]);
    assert ReduceMembers([quoted]) == Ok([("foo", Value.Number("1"))]);
    var ps := [("foo", Value.Number("1"))];
    assert ps[..0] == [];
  }
}
