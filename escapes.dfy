/**
 * Escape resolution of a string body (`parse_str`). The body's inner nodes
 * are visited in source order; each contributes a piece of text, and the
 * resolved string is the concatenation of those pieces. The first inner
 * node the reducer cannot handle aborts the whole string.
 */
module Escapes {
  import opened Syntax
  import opened Faults
  import opened Numerals

  const NUL: char := 0 as char

  /** The six named escapes map to control characters; every other escape
      text (a quote, a backslash, ...) stands for itself. */
  function NamedEscape(t: string): string {
    if t == "n" then "\n"
    else if t == "r" then "\r"
    else if t == "t" then "\t"
    else if t == "b" then [8 as char]
    else if t == "v" then [11 as char]
    else if t == "f" then [12 as char]
    else t
  }

  /** What `char::from_u32` accepts. */
  predicate IsScalar(n: nat) {
    n < 0xD800 || 0xE000 <= n < 0x11_0000
  }

  /** The code point of a hex escape: its text read as a decimal u32, or 0
      when that read fails. */
  function HexCodePoint(t: string): nat {
    match ParseU32(t)
    case Some(n) => n
    case None => 0
  }

  /** The text one inner node of a string body adds. */
  function Contribution(c: Node): Result<string> {
    match c.rule
    case CharLiteral => Ok(c.text)
    case NulEscape => Ok([NUL])
    case CharEscape => Ok(NamedEscape(c.text))
    case HexEscape =>
      var n := HexCodePoint(c.text);
      Ok(if IsScalar(n) then [n as char] else [])
    case UnicodeEscape => Err(UnicodeEscapeUnimplemented)
    case _ => Err(UnexpectedInString(c.rule))
  }

  /** Sequencing of two partial results: the first fault wins, otherwise the
      texts are concatenated. */
  function Then(a: Result<string>, b: Result<string>): Result<string> {
    match a
    case Err(e) => Err(e)
    case Ok(x) =>
      match b
      case Err(e) => Err(e)
      case Ok(y) => Ok(x + y)
  }

  /** The resolved text of a sequence of inner nodes, built up from the
      left as the source's loop does. */
  function Resolve(cs: seq<Node>): Result<string> {
    if cs == [] then Ok("")
    else Then(Resolve(cs[..|cs| - 1]), Contribution(cs[|cs| - 1]))
  }

  /** `parse_str`: the loop over the body's inner nodes, appending to `s`. */
  method ParseStr(pair: Node) returns (r: Result<string>)
    ensures r == Resolve(pair.children)
  {
    var cs := pair.children;
    var s := "";
    for i := 0 to |cs|
      invariant Resolve(cs[..i]) == Ok(s)
    {
      var c := cs[i];
      assert cs[..i + 1][..i] == cs[..i];
      assert Resolve(cs[..i + 1]) == Then(Resolve(cs[..i]), Contribution(c));
      match c.rule {
        case CharLiteral =>
          s := s + c.text;
        case NulEscape =>
          s := s + [NUL];
        case CharEscape =>
          s := s + NamedEscape(c.text);
        case HexEscape =>
          var hex := HexCodePoint(c.text);
          if IsScalar(hex) {
            s := s + [hex as char];
          } else {
            assert s + [] == s;
          }
        case UnicodeEscape =>
          FaultPersists(cs, i + 1);
          return Err(UnicodeEscapeUnimplemented);
        case _ =>
          FaultPersists(cs, i + 1);
          return Err(UnexpectedInString(c.rule));
      }
    }
    assert cs[..|cs|] == cs;
    return Ok(s);
  }

  lemma ThenAssociative(a: Result<string>, b: Result<string>, c: Result<string>)
    ensures Then(Then(a, b), c) == Then(a, Then(b, c))
  {
    if a.Ok? && b.Ok? && c.Ok? {
      assert (a.value + b.value) + c.value == a.value + (b.value + c.value);
    }
  }

  /** Resolution distributes over concatenation of inner-node sequences. */
  lemma {:induction false} ResolveConcat(a: seq<Node>, b: seq<Node>)
    ensures Resolve(a + b) == Then(Resolve(a), Resolve(b))
  {
    if b == [] {
      assert a + b == a;
      if Resolve(a).Ok? {
        assert Resolve(a).value + "" == Resolve(a).value;
      }
    } else {
      var b' := b[..|b| - 1];
      assert (a + b)[..|a + b| - 1] == a + b';
      assert (a + b)[|a + b| - 1] == b[|b| - 1];
      ResolveConcat(a, b');
      ThenAssociative(Resolve(a), Resolve(b'), Contribution(b[|b| - 1]));
    }
  }

  /** A fault in a prefix is the fault of the whole body. */
  lemma FaultPersists(cs: seq<Node>, i: nat)
    requires i <= |cs| && Resolve(cs[..i]).Err?
    ensures Resolve(cs) == Resolve(cs[..i])
  {
    assert cs == cs[..i] + cs[i..];
    ResolveConcat(cs[..i], cs[i..]);
  }

  /** Each inner node's piece lands in place: what precedes it, then its own
      contribution, then what follows. */
  lemma ChildInContext(a: seq<Node>, c: Node, b: seq<Node>)
    ensures Resolve(a + [c] + b) == Then(Resolve(a), Then(Contribution(c), Resolve(b)))
  {
    ResolveConcat(a + [c], b);
    ResolveConcat(a, [c]);
    assert [c][..0] == [];
    ThenAssociative(Resolve(a), Contribution(c), Resolve(b));
  }

  /** A body resolves exactly when every inner node contributes. */
  lemma {:induction false} ResolveTotal(cs: seq<Node>)
    ensures Resolve(cs).Ok? <==> forall i :: 0 <= i < |cs| ==> Contribution(cs[i]).Ok?
  {
    if cs != [] {
      var p := cs[..|cs| - 1];
      ResolveTotal(p);
      assert forall i :: 0 <= i < |p| ==> p[i] == cs[i];
    }
  }

  /** A body that does not resolve fails with the fault of its first inner
      node that does not contribute. */
  lemma {:induction false} FirstFaultWins(cs: seq<Node>)
    requires Resolve(cs).Err?
    ensures exists i :: 0 <= i < |cs| && Contribution(cs[i]) == Resolve(cs)
                        && forall j :: 0 <= j < i ==> Contribution(cs[j]).Ok?
  {
    var p := cs[..|cs| - 1];
    assert forall i :: 0 <= i < |p| ==> p[i] == cs[i];
    if Resolve(p).Err? {
      FirstFaultWins(p);
      var i :| 0 <= i < |p| && Contribution(p[i]) == Resolve(p)
               && forall j :: 0 <= j < i ==> Contribution(p[j]).Ok?;
      assert Contribution(cs[i]) == Resolve(cs);
    } else {
      ResolveTotal(p);
      var i := |cs| - 1;
      assert Contribution(cs[i]) == Resolve(cs);
    }
  }

  /** The concatenated text of a run of literal nodes. */
  function LiteralText(cs: seq<Node>): string {
    if cs == [] then "" else LiteralText(cs[..|cs| - 1]) + cs[|cs| - 1].text
  }

  /** A body made only of literal runs resolves to their text, unchanged. */
  lemma {:induction false} LiteralsVerbatim(cs: seq<Node>)
    requires forall i :: 0 <= i < |cs| ==> cs[i].rule == CharLiteral
    ensures Resolve(cs) == Ok(LiteralText(cs))
  {
    if cs != [] {
      LiteralsVerbatim(cs[..|cs| - 1]);
    }
  }

  /** The contribution of each kind of inner node. */
  lemma ContributionTable(c: Node)
    ensures c.rule == CharLiteral ==> Contribution(c) == Ok(c.text)
    ensures c.rule == NulEscape ==> Contribution(c) == Ok([0 as char])
    ensures c.rule == CharEscape ==>
              Contribution(c) == Ok(
                if c.text == "n" then [10 as char]
                else if c.text == "r" then [13 as char]
                else if c.text == "t" then [9 as char]
                else if c.text == "b" then [8 as char]
                else if c.text == "v" then [11 as char]
                else if c.text == "f" then [12 as char]
                else c.text)
    ensures c.rule == UnicodeEscape ==> Contribution(c) == Err(UnicodeEscapeUnimplemented)
    ensures c.rule !in {CharLiteral, NulEscape, CharEscape, HexEscape, UnicodeEscape} ==>
              Contribution(c) == Err(UnexpectedInString(c.rule))
  {
  }

  /** A hex escape reads its text as a decimal u32 (0 when that fails) and
      adds exactly that one character when it is a Unicode scalar value,
      and nothing otherwise. */
  lemma HexEscapeContribution(c: Node)
    requires c.rule == HexEscape
    ensures var n := if IsU32Text(c.text) && DigitsValue(Magnitude(c.text)) < U32_LIMIT
                     then DigitsValue(Magnitude(c.text)) else 0;
            && (IsScalar(n) ==> Contribution(c) == Ok([n as char]))
            && (!IsScalar(n) ==> Contribution(c) == Ok([]))
  {
    ParseU32Reads(c.text);
  }

  /** A hex escape that names no scalar value drops out, and leaves the
      rest of the string as it would have been without it. */
  lemma InvalidHexDropped(a: seq<Node>, c: Node, b: seq<Node>)
    requires c.rule == HexEscape && !IsScalar(HexCodePoint(c.text))
    ensures Resolve(a + [c] + b) == Resolve(a + b)
  {
    ChildInContext(a, c, b);
    ResolveConcat(a, b);
    assert Contribution(c) == Ok([]);
    if Resolve(b).Ok? {
      assert [] + Resolve(b).value == Resolve(b).value;
    }
  }

  /** A long-form Unicode escape, or any rule the loop does not handle,
      anywhere in a body means the body never resolves. */
  lemma {:induction false} UnhandledChildNeverResolves(cs: seq<Node>, k: nat)
    requires k < |cs| && cs[k].rule !in {CharLiteral, NulEscape, CharEscape, HexEscape}
    ensures Resolve(cs).Err?
  {
    ResolveTotal(cs);
  }

  /** The body of the string `"\n\t\\\x41"`, where the hex escape's text is
      its two digits: it resolves to line feed, tab, backslash and then
      U+0029, because "41" is read in base 10. */
  lemma EscapeExample()
    ensures Resolve([Node(CharEscape, "n", []), Node(CharEscape, "t", []),
                     Node(CharEscape, "\\", []), Node(HexEscape, "41", [])])
            == Ok([10 as char, 9 as char, '\\', 41 as char])
  {
    var cs := [Node(CharEscape, "n", []), Node(CharEscape, "t", []),
               Node(CharEscape, "\\", []), Node(HexEscape, "41", [])];
    ParseU32Reads("41");
    assert DigitsValue("41") == 41;
    assert cs[..1][..0] == [];
    assert "" + [10 as char] == [10 as char];
    assert Resolve(cs[..1]) == Ok([10 as char]);
    assert cs[..2][..1] == cs[..1];
    assert [10 as char] + [9 as char] == [10 as char, 9 as char];
    assert Resolve(cs[..2]) == Ok([10 as char, 9 as char]);
    assert cs[..3][..2] == cs[..2];
    assert [10 as char, 9 as char] + ['\\'] == [10 as char, 9 as char, '\\'];
    assert Resolve(cs[..3]) == Ok([10 as char, 9 as char, '\\']);
    assert cs[..3] == cs[..|cs| - 1];
    assert [10 as char, 9 as char, '\\'] + [41 as char] == [10 as char, 9 as char, '\\', 41 as char];
  }

  /** A hex escape whose text is not a decimal numeral (a base-16 digit, a
      leading 'x') reads as 0 and so adds U+0000. */
  lemma NonDecimalHexIsNul(c: Node)
    requires c.rule == HexEscape && exists i :: 0 <= i < |c.text| && !IsDigit(c.text[i]) && c.text[i] != '+'
    ensures Contribution(c) == Ok([NUL])
  {
    ParseU32Reads(c.text);
  }

  /** The two readings of the hex text `41` disagree: base 16, as the JSON5
      standard reads a `\x` escape, names 'A'; the code's base-10 read
      adds U+0029 instead. */
  lemma HexReadingsDisagree(c: Node)
    requires c.rule == HexEscape && c.text == "41"
    ensures HexDigitsValue(c.text) == 'A' as int
    ensures Contribution(c) == Ok([')'])
  {
    assert "41"[..1] == "4";
    assert "4"[..0] == "";
    ParseU32Reads("41");
    assert DigitsValue("41") == 41;
  }
}
