/**
 * A hand-written HTML tokenizer and recursive-descent parser. The tokenizer is
 * a cursor over the input characters; the parser keeps one token of lookahead
 * and builds a tree of tagged nodes, each with at most one text.
 *
 * Every method is proved equal to a pure specification function over the
 * input and the cursor position; the edge behaviours are lemmas about those
 * functions.
 */
module HtmlParser {
  import opened Wrappers

  datatype Token =
    | TagOpen(name: string)
    | TagClose(name: string)
    | Text(text: string)
    | Attribute(attrName: string, attrValue: string)

  datatype ParseError = UnexpectedEndOfInput | UnexpectedToken(token: Token)

  /** The lookahead slot: no token (end of input), a token, or a tokenizer error. */
  type Lookahead = Option<Result<Token, ParseError>>

  datatype Node = Node(tag: string, children: seq<Node>, text: Option<string>)

  /** Unicode `White_Space`, the set Rust's `char::is_whitespace` tests. */
  predicate IsWhitespace(c: char) {
    ('\t' <= c <= '\r') || c == ' ' || c == '\U{85}' || c == '\U{A0}' || c == '\U{1680}' ||
    ('\U{2000}' <= c <= '\U{200A}') || c == '\U{2028}' || c == '\U{2029}' ||
    c == '\U{202F}' || c == '\U{205F}' || c == '\U{3000}'
  }

  /** ASCII letters and digits (see README for non-ASCII letters). */
  predicate IsAlphanumeric(c: char) {
    ('a' <= c <= 'z') || ('A' <= c <= 'Z') || ('0' <= c <= '9')
  }

  predicate NotLt(c: char) { c != '<' }

  predicate NotQuote(c: char) { c != '"' }

  // ---------------------------------------------------------------------------
  // Specification of the cursor primitives
  // ---------------------------------------------------------------------------

  /** Where the longest run of characters satisfying `test` from `pos` ends:
      the first character that fails `test` (see `ScanWhileRun` for the run). */
  function ScanWhile(input: seq<char>, pos: nat, test: char -> bool): (end: nat)
    requires pos <= |input|
    ensures pos <= end <= |input|
    ensures end < |input| ==> !test(input[end])
    decreases |input| - pos
  {
    if pos == |input| || !test(input[pos]) then pos else ScanWhile(input, pos + 1, test)
  }

  /** Every character of the scanned run satisfies `test`. */
  lemma {:induction false} ScanWhileRun(input: seq<char>, pos: nat, test: char -> bool)
    requires pos <= |input|
    ensures forall i :: pos <= i < ScanWhile(input, pos, test) ==> test(input[i])
    decreases |input| - pos
  {
    if pos < |input| && test(input[pos]) {
      ScanWhileRun(input, pos + 1, test);
    }
  }

  /** The first occurrence of `stop` at or after `pos`, or the end of input
      (see `ScanUntilRun` for the characters skipped). */
  function ScanUntil(input: seq<char>, pos: nat, stop: char): (end: nat)
    requires pos <= |input|
    ensures pos <= end <= |input|
    ensures end < |input| ==> input[end] == stop
    decreases |input| - pos
  {
    if pos == |input| || input[pos] == stop then pos else ScanUntil(input, pos + 1, stop)
  }

  /** No character before the scan's end is `stop`. */
  lemma {:induction false} ScanUntilRun(input: seq<char>, pos: nat, stop: char)
    requires pos <= |input|
    ensures forall i :: pos <= i < ScanUntil(input, pos, stop) ==> input[i] != stop
    decreases |input| - pos
  {
    if pos < |input| && input[pos] != stop {
      ScanUntilRun(input, pos + 1, stop);
    }
  }

  /** One character consumed, if there is one. */
  function Step(input: seq<char>, pos: nat): nat
    requires pos <= |input|
  {
    if pos < |input| then pos + 1 else pos
  }

  /** Where the scan of one attribute `name="value"` starting at `pos` stops. */
  function AttributeEnd(input: seq<char>, pos: nat): (end: nat)
    requires pos < |input|
    ensures pos < end <= |input|
  {
    var nameEnd := ScanWhile(input, pos, IsAlphanumeric);
    var eq := ScanUntil(input, nameEnd, '=');
    var open := ScanUntil(input, Step(input, eq), '"');
    var valueEnd := ScanWhile(input, Step(input, open), NotQuote);
    Step(input, valueEnd)
  }

  /** The attribute list of an opening tag: the position after its `>`, or an
      end-of-input error when the input runs out first. */
  function ScanAttributes(input: seq<char>, pos: nat): (r: Result<nat, ParseError>)
    requires pos <= |input|
    ensures r.Ok? ==> pos < r.value <= |input| && input[r.value - 1] == '>'
    ensures r.Err? ==> r.error == UnexpectedEndOfInput
    decreases |input| - pos
  {
    var p := ScanWhile(input, pos, IsWhitespace);
    if p == |input| then Err(UnexpectedEndOfInput)
    else if input[p] == '>' then Ok(p + 1)
    else ScanAttributes(input, AttributeEnd(input, p))
  }

  /** The next token from `pos` and the position after it. */
  function NextTokenSpec(input: seq<char>, pos: nat): (r: (Lookahead, nat))
    requires pos <= |input|
    ensures pos <= r.1 <= |input|
    ensures r.0.Some? ==> pos < r.1
    ensures !HoldsAttribute(r.0)
  {
    TokenAt(input, ScanWhile(input, pos, IsWhitespace))
  }

  /** The token that starts at `p`, where no white space precedes it. */
  function TokenAt(input: seq<char>, p: nat): (r: (Lookahead, nat))
    requires p <= |input|
    ensures p <= r.1 <= |input|
    ensures r.0.Some? ==> p < r.1
    ensures !HoldsAttribute(r.0)
  {
    if p == |input| then (None, p)
    else if input[p] == '<' then TagSpec(input, p + 1)
    else
      var textEnd := ScanWhile(input, p, NotLt);
      (Some(Ok(Text(input[p..textEnd]))), textEnd)
  }

  /** The token of a tag whose `<` ends just before `q`, and the position after it. */
  function TagSpec(input: seq<char>, q: nat): (r: (Lookahead, nat))
    requires q <= |input|
    ensures q <= r.1 <= |input| && r.0.Some?
    ensures !HoldsAttribute(r.0)
  {
    if q == |input| then (Some(Err(UnexpectedEndOfInput)), q)
    else if input[q] == '/' then
      var nameEnd := ScanWhile(input, q + 1, IsAlphanumeric);
      (Some(Ok(TagClose(input[q + 1..nameEnd]))), ScanUntil(input, nameEnd, '>'))
    else
      var nameEnd := ScanWhile(input, q, IsAlphanumeric);
      match ScanAttributes(input, nameEnd)
      case Ok(after) => (Some(Ok(TagOpen(input[q..nameEnd]))), after)
      case Err(e) => (Some(Err(e)), |input|)
  }

  // ---------------------------------------------------------------------------
  // Specification of the parser
  // ---------------------------------------------------------------------------

  predicate HoldsAttribute(current: Lookahead) {
    current.Some? && current.value.Ok? && current.value.value.Attribute?
  }

  /** The parser's result, lookahead and cursor position after a call. */
  datatype Outcome = Outcome(result: Result<Node, ParseError>, current: Lookahead, pos: nat)

  function Rank(current: Lookahead): nat {
    if current.None? then 0 else 3
  }

  /** `parse_node` with lookahead `current` and the cursor at `pos`. */
  function ParseNodeSpec(input: seq<char>, current: Lookahead, pos: nat): (o: Outcome)
    requires pos <= |input|
    ensures pos <= o.pos <= |input|
    ensures o.pos == pos ==> o.current.None?
    ensures !HoldsAttribute(o.current)
    decreases |input| - pos, 2
  {
    match current
    case Some(Ok(TagOpen(name))) =>
      var next := NextTokenSpec(input, pos);
      ParseChildrenSpec(input, Node(name, [], None), next.0, next.1)
    case Some(Ok(Text(text))) => Outcome(Ok(Node("", [], Some(text))), None, pos)
    case Some(Err(e)) => Outcome(Err(e), None, pos)
    case _ => Outcome(Err(UnexpectedEndOfInput), None, pos)
  }

  /** The loop of `parse_node` inside element `node`: children until the next
      closing tag of any name; each text replaces the node's text. */
  function ParseChildrenSpec(input: seq<char>, node: Node, current: Lookahead, pos: nat): (o: Outcome)
    requires pos <= |input|
    ensures pos <= o.pos <= |input|
    ensures o.pos == pos ==> o.current == current || o.current.None?
    ensures !HoldsAttribute(current) ==> !HoldsAttribute(o.current)
    decreases |input| - pos, Rank(current)
  {
    match current
    case Some(Ok(TagClose(_))) =>
      var next := NextTokenSpec(input, pos);
      Outcome(Ok(node), next.0, next.1)
    case Some(Ok(TagOpen(_))) =>
      var child := ParseNodeSpec(input, current, pos);
      if child.result.Err? then Outcome(Err(child.result.error), child.current, child.pos)
      else ParseChildrenSpec(input, node.(children := node.children + [child.result.value]),
                             child.current, child.pos)
    case Some(Ok(Text(text))) =>
      var next := NextTokenSpec(input, pos);
      ParseChildrenSpec(input, node.(text := Some(text)), next.0, next.1)
    case Some(Ok(Attribute(_, _))) => Outcome(Err(UnexpectedToken(current.value.value)), current, pos)
    case _ => Outcome(Ok(node), current, pos)
  }

  /** `parse`: read the first token from `pos`, then parse one node. */
  function ParseFrom(input: seq<char>, pos: nat): Outcome
    requires pos <= |input|
  {
    var first := NextTokenSpec(input, pos);
    ParseNodeSpec(input, first.0, first.1)
  }

  // ---------------------------------------------------------------------------
  // The tokenizer and the parser
  // ---------------------------------------------------------------------------

  class Tokenizer {
    const input: seq<char>
    var pos: nat

    ghost predicate Valid()
      reads this
    {
      pos <= |input|
    }

    constructor (text: seq<char>)
      ensures Valid() && input == text && pos == 0
    {
      input := text;
      pos := 0;
    }

    /** Consumes one character, if there is one. */
    method Advance()
      requires Valid()
      modifies this
      ensures Valid() && pos == Step(input, old(pos))
    {
      if pos < |input| {
        pos := pos + 1;
      }
    }

    /** The longest run of characters satisfying `test`, consumed. */
    method ConsumeWhile(test: char -> bool) returns (result: string)
      requires Valid()
      modifies this
      ensures Valid() && pos == ScanWhile(input, old(pos), test)
      ensures result == input[old(pos)..pos]
    {
      result := [];
      var i := pos;
      while i < |input| && test(input[i])
        invariant pos <= i <= |input|
        invariant result == input[pos..i]
        invariant ScanWhile(input, i, test) == ScanWhile(input, pos, test)
        decreases |input| - i
      {
        result := result + [input[i]];
        i := i + 1;
      }
      pos := i;
    }

    /** Moves up to the next `stop` without consuming it. */
    method ConsumeUntil(stop: char)
      requires Valid()
      modifies this
      ensures Valid() && pos == ScanUntil(input, old(pos), stop)
    {
      var i := pos;
      while i < |input| && input[i] != stop
        invariant pos <= i <= |input|
        invariant ScanUntil(input, i, stop) == ScanUntil(input, pos, stop)
        decreases |input| - i
      {
        i := i + 1;
      }
      pos := i;
    }

    method ConsumeWhitespace()
      requires Valid()
      modifies this
      ensures Valid() && pos == ScanWhile(input, old(pos), IsWhitespace)
    {
      var _ := ConsumeWhile(IsWhitespace);
    }

    /** The attribute loop of an opening tag: scans (and discards) attributes
        up to and including the closing `>`; false when the input ends first. */
    method ConsumeAttributes() returns (closed: bool)
      requires Valid()
      modifies this
      ensures Valid()
      ensures var expected := ScanAttributes(input, old(pos));
              closed == expected.Ok? && pos == (if closed then expected.value else |input|)
    {
      ghost var start := pos;
      var attributes: seq<(string, string)> := [];
      while true
        invariant Valid() && start <= pos
        invariant ScanAttributes(input, pos) == ScanAttributes(input, start)
        decreases |input| - pos
      {
        ConsumeWhitespace();
        if pos == |input| {
          return false;
        }
        if input[pos] == '>' {
          pos := pos + 1;
          return true;
        }
        ghost var attrStart := pos;
        var attrName := ConsumeWhile(IsAlphanumeric);
        ConsumeUntil('=');
        Advance();
        ConsumeUntil('"');
        Advance();
        var attrValue := ConsumeWhile(NotQuote);
        Advance();
        assert pos == AttributeEnd(input, attrStart);
        attributes := attributes + [(attrName, attrValue)];
      }
    }

    method NextToken() returns (token: Lookahead)
      requires Valid()
      modifies this
      ensures Valid() && (token, pos) == NextTokenSpec(input, old(pos))
    {
      ConsumeWhitespace();
      token := ReadToken();
    }

    /** The token at the cursor, once white space is skipped. */
    method ReadToken() returns (token: Lookahead)
      requires Valid()
      modifies this
      ensures Valid() && (token, pos) == TokenAt(input, old(pos))
    {
      if pos == |input| {
        return None;
      }
      if input[pos] != '<' {
        var text := ConsumeWhile(NotLt);
        return Some(Ok(Text(text)));
      }
      pos := pos + 1;
      token := ReadTag();
    }

    /** The rest of a tag, once its `<` has been consumed. */
    method ReadTag() returns (token: Lookahead)
      requires Valid()
      modifies this
      ensures Valid() && (token, pos) == TagSpec(input, old(pos))
    {
      if pos == |input| {
        return Some(Err(UnexpectedEndOfInput));
      }
      if input[pos] == '/' {
        pos := pos + 1;
        var closeName := ConsumeWhile(IsAlphanumeric);
        ConsumeUntil('>');
        return Some(Ok(TagClose(closeName)));
      }
      var name := ConsumeWhile(IsAlphanumeric);
      var closed := ConsumeAttributes();
      if !closed {
        return Some(Err(UnexpectedEndOfInput));
      }
      return Some(Ok(TagOpen(name)));
    }
  }

  class Parser {
    const tokenizer: Tokenizer
    var currentToken: Lookahead

    ghost predicate Valid()
      reads this, tokenizer
    {
      tokenizer.Valid()
    }

    constructor (text: seq<char>)
      ensures Valid() && fresh(tokenizer)
      ensures tokenizer.input == text && tokenizer.pos == 0 && currentToken == None
    {
      tokenizer := new Tokenizer(text);
      currentToken := None;
    }

    method Parse() returns (r: Result<Node, ParseError>)
      requires Valid()
      modifies this, tokenizer
      ensures Valid()
      ensures Outcome(r, currentToken, tokenizer.pos) == ParseFrom(tokenizer.input, old(tokenizer.pos))
    {
      currentToken := tokenizer.NextToken();
      r := ParseNode();
    }

    method ParseNode() returns (r: Result<Node, ParseError>)
      requires Valid()
      modifies this, tokenizer
      ensures Valid()
      ensures Outcome(r, currentToken, tokenizer.pos) ==
              ParseNodeSpec(tokenizer.input, old(currentToken), old(tokenizer.pos))
      decreases |tokenizer.input| - tokenizer.pos, 2
    {
      ghost var expected := ParseNodeSpec(tokenizer.input, currentToken, tokenizer.pos);
      var taken := currentToken;
      currentToken := None;
      match taken {
        case Some(Ok(TagOpen(name))) =>
          var node := Node(name, [], None);
          currentToken := tokenizer.NextToken();
          while currentToken.Some? && currentToken.value.Ok?
            invariant Valid()
            invariant old(tokenizer.pos) <= tokenizer.pos
            invariant currentToken.Some? ==> old(tokenizer.pos) < tokenizer.pos
            invariant ParseChildrenSpec(tokenizer.input, node, currentToken, tokenizer.pos) == expected
            decreases |tokenizer.input| - tokenizer.pos, Rank(currentToken)
          {
            match currentToken.value.value {
              case TagClose(_) =>
                currentToken := tokenizer.NextToken();
                return Ok(node);
              case TagOpen(_) =>
                var child := ParseNode();
                if child.Err? {
                  return Err(child.error);
                }
                node := node.(children := node.children + [child.value]);
              case Text(text) =>
                node := node.(text := Some(text));
                currentToken := tokenizer.NextToken();
              case Attribute(_, _) =>
                return Err(UnexpectedToken(currentToken.value.value));
            }
          }
          r := Ok(node);
        case Some(Ok(Text(text))) =>
          r := Ok(Node("", [], Some(text)));
        case Some(Err(e)) =>
          r := Err(e);
        case _ =>
          r := Err(UnexpectedEndOfInput);
      }
    }
  }

  // ---------------------------------------------------------------------------
  // Properties
  // ---------------------------------------------------------------------------

  /** No token is left exactly when only whitespace remains. */
  lemma NoTokenIffBlank(input: seq<char>, pos: nat)
    requires pos <= |input|
    ensures NextTokenSpec(input, pos).0.None? <==>
            forall i :: pos <= i < |input| ==> IsWhitespace(input[i])
  {
    var p := ScanWhile(input, pos, IsWhitespace);
    ScanWhileRun(input, pos, IsWhitespace);
    if p < |input| {
      assert !IsWhitespace(input[p]);
    }
  }

  /** A text token is non-empty, holds no `<`, and does not start with whitespace. */
  lemma TextTokenShape(input: seq<char>, pos: nat)
    requires pos <= |input|
    requires var t := NextTokenSpec(input, pos).0; t.Some? && t.value.Ok? && t.value.value.Text?
    ensures var text := NextTokenSpec(input, pos).0.value.value.text;
            text != [] && '<' !in text && !IsWhitespace(text[0])
  {
    var p := ScanWhile(input, pos, IsWhitespace);
    var textEnd := ScanWhile(input, p, NotLt);
    ScanWhileRun(input, p, NotLt);
    var text := input[p..textEnd];
    assert forall i :: 0 <= i < |text| ==> text[i] == input[p + i];
  }

  /** An opening tag: its name is the longest alphanumeric run after `<`, and
      the input must reach a `>` after it, or the token is an end-of-input error. */
  lemma OpenTagShape(input: seq<char>, pos: nat)
    requires pos <= |input|
    requires var p := ScanWhile(input, pos, IsWhitespace);
             p + 1 < |input| && input[p] == '<' && input[p + 1] != '/'
    ensures var p := ScanWhile(input, pos, IsWhitespace);
            var r := NextTokenSpec(input, pos);
            var nameEnd := ScanWhile(input, p + 1, IsAlphanumeric);
            && (forall i :: p + 1 <= i < nameEnd ==> IsAlphanumeric(input[i]))
            && (nameEnd < |input| ==> !IsAlphanumeric(input[nameEnd]))
            && (r.0 == Some(Ok(TagOpen(input[p + 1..nameEnd]))) ||
                r.0 == Some(Err(UnexpectedEndOfInput)))
            && (r.0.value.Ok? ==> nameEnd < r.1 && input[r.1 - 1] == '>')
            && ((forall i :: nameEnd <= i < |input| ==> input[i] != '>') ==>
                 r.0 == Some(Err(UnexpectedEndOfInput)))
  {
    ScanWhileRun(input, ScanWhile(input, pos, IsWhitespace) + 1, IsAlphanumeric);
  }

  /** `<` at the very end of the input is an end-of-input error. */
  lemma LoneOpenBracket(input: seq<char>, pos: nat)
    requires pos <= |input|
    requires ScanWhile(input, pos, IsWhitespace) == |input| - 1 && input[|input| - 1] == '<'
    ensures NextTokenSpec(input, pos) == (Some(Err(UnexpectedEndOfInput)), |input|)
  {
  }

  /** `</name>` gives `TagClose(name)` but leaves the `>` in the input, so the
      next token is a text that starts with `>`. */
  lemma CloseTagLeavesBracket(input: seq<char>, pos: nat, closeEnd: nat)
    requires pos + 2 <= closeEnd < |input|
    requires input[pos] == '<' && input[pos + 1] == '/' && input[closeEnd] == '>'
    requires forall i :: pos + 2 <= i < closeEnd ==> IsAlphanumeric(input[i])
    ensures NextTokenSpec(input, pos) == (Some(Ok(TagClose(input[pos + 2..closeEnd]))), closeEnd)
    ensures var after := NextTokenSpec(input, closeEnd).0;
            after.Some? && after.value.Ok? && after.value.value.Text? && ">" <= after.value.value.text
  {
    ScanWhileStopsAt(input, pos + 2, closeEnd, IsAlphanumeric);
    CloseTagToken(input, pos, closeEnd);
    BracketStartsText(input, closeEnd);
  }

  lemma CloseTagToken(input: seq<char>, pos: nat, nameEnd: nat)
    requires pos + 2 <= nameEnd < |input|
    requires input[pos] == '<' && input[pos + 1] == '/' && input[nameEnd] == '>'
    requires ScanWhile(input, pos + 2, IsAlphanumeric) == nameEnd
    ensures NextTokenSpec(input, pos) == (Some(Ok(TagClose(input[pos + 2..nameEnd]))), nameEnd)
  {
    assert ScanWhile(input, pos, IsWhitespace) == pos;
    assert ScanUntil(input, nameEnd, '>') == nameEnd;
  }

  lemma BracketStartsText(input: seq<char>, pos: nat)
    requires pos < |input| && input[pos] == '>'
    ensures var t := NextTokenSpec(input, pos).0;
            t.Some? && t.value.Ok? && t.value.value.Text? && ">" <= t.value.value.text
  {
    assert ScanWhile(input, pos, IsWhitespace) == pos;
    var textEnd := ScanWhile(input, pos, NotLt);
    assert input[pos..textEnd][0] == '>';
  }

  lemma {:induction false} ScanWhileStopsAt(input: seq<char>, pos: nat, end: nat, test: char -> bool)
    requires pos <= end < |input|
    requires forall i :: pos <= i < end ==> test(input[i])
    requires !test(input[end])
    ensures ScanWhile(input, pos, test) == end
    decreases end - pos
  {
    if pos < end {
      ScanWhileStopsAt(input, pos + 1, end, test);
    }
  }

  /** Inside an element a closing tag of any name ends the child list. */
  lemma AnyCloseTagEndsElement(input: seq<char>, node: Node, name: string, pos: nat)
    requires pos <= |input|
    ensures ParseChildrenSpec(input, node, Some(Ok(TagClose(name))), pos).result == Ok(node)
  {
  }

  /** Each text token replaces the element's text: of two texts in a row,
      the second one wins. */
  lemma LastTextWins(input: seq<char>, node: Node, first: string, pos: nat)
    requires pos <= |input|
    requires var next := NextTokenSpec(input, pos).0;
             next.Some? && next.value.Ok? && next.value.value.Text?
    ensures var r := NextTokenSpec(input, pos);
            var node' := node.(text := Some(r.0.value.value.text));
            ParseChildrenSpec(input, node, Some(Ok(Text(first))), pos) ==
            ParseChildrenSpec(input, node', NextTokenSpec(input, r.1).0, NextTokenSpec(input, r.1).1)
  {
  }

  /** An element whose tokens run out, or hit a tokenizer error, before a
      closing tag still parses successfully. */
  lemma UnclosedElementIsOk(input: seq<char>, node: Node, pos: nat, e: ParseError)
    requires pos <= |input|
    ensures ParseChildrenSpec(input, node, None, pos).result == Ok(node)
    ensures ParseChildrenSpec(input, node, Some(Err(e)), pos).result == Ok(node)
  {
  }

  /** At the top level a text becomes a node with an empty tag, and a closing
      tag or the end of input is an end-of-input error. */
  lemma TopLevelCases(input: seq<char>, pos: nat, text: string, name: string)
    requires pos <= |input|
    ensures ParseNodeSpec(input, Some(Ok(Text(text))), pos).result == Ok(Node("", [], Some(text)))
    ensures ParseNodeSpec(input, Some(Ok(TagClose(name))), pos).result == Err(UnexpectedEndOfInput)
    ensures ParseNodeSpec(input, None, pos).result == Err(UnexpectedEndOfInput)
  {
  }

  /** Since the tokenizer never produces an attribute token, an element
      always parses successfully, whatever follows it. */
  lemma {:induction false} ElementAlwaysParses(input: seq<char>, name: string, pos: nat)
    requires pos <= |input|
    ensures ParseNodeSpec(input, Some(Ok(TagOpen(name))), pos).result.Ok?
    decreases |input| - pos, 2
  {
    var next := NextTokenSpec(input, pos);
    ChildrenAlwaysParse(input, Node(name, [], None), next.0, next.1);
  }

  lemma {:induction false} ChildrenAlwaysParse(input: seq<char>, node: Node, current: Lookahead, pos: nat)
    requires pos <= |input|
    requires !HoldsAttribute(current)
    ensures ParseChildrenSpec(input, node, current, pos).result.Ok?
    decreases |input| - pos, Rank(current)
  {
    match current
    case Some(Ok(TagOpen(childName))) =>
      ElementAlwaysParses(input, childName, pos);
      var child := ParseNodeSpec(input, current, pos);
      ChildrenAlwaysParse(input, node.(children := node.children + [child.result.value]),
                          child.current, child.pos);
    case Some(Ok(Text(text))) =>
      var next := NextTokenSpec(input, pos);
      ChildrenAlwaysParse(input, node.(text := Some(text)), next.0, next.1);
    case _ =>
  }

  /** A document parses exactly when its first token is an opening tag or a text. */
  lemma {:induction false} DocumentParses(input: seq<char>, pos: nat)
    requires pos <= |input|
    ensures var first := NextTokenSpec(input, pos).0;
            ParseFrom(input, pos).result.Ok? <==>
            first.Some? && first.value.Ok? && (first.value.value.TagOpen? || first.value.value.Text?)
  {
    var first := NextTokenSpec(input, pos);
    if first.0.Some? && first.0.value.Ok? && first.0.value.value.TagOpen? {
      ElementAlwaysParses(input, first.0.value.value.name, first.1);
    }
  }
}
