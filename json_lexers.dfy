/**
 * The token recognisers of the `json-test` command: whitespace, numbers,
 * strings and a node-type filter. Each works on a lexer with `look` and
 * `next`, accumulates the text it consumes and returns a node `{ $, text }`,
 * or nothing.
 *
 * The recognisers follow RFC 8259 (section 6, numbers; section 7, strings)
 * loosely; the deviations of the code are reproduced, not corrected.
 */
module JsonLexers {
  import opened Common

  /** A UTF-16 code unit, the element of a JavaScript string. */
  type CodeUnit = c: int | 0 <= c < 0x10000

  /** A parse node `{ $: kind, text }`. */
  datatype Node = Node(kind: string, text: seq<CodeUnit>)

  const TAB: Byte := 0x09
  const SPACE: Byte := 0x20
  const QUOTE: Byte := 0x22       // "
  const PLUS: Byte := 0x2B        // +
  const MINUS: Byte := 0x2D       // -
  const DOT: Byte := 0x2E         // .
  const SLASH: Byte := 0x2F       // /
  const ZERO: Byte := 0x30        // 0
  const BACKSLASH: Byte := 0x5C   // \
  const UPPER_E: Byte := 0x45     // E
  const LOWER_E: Byte := 0x65     // e
  const LOWER_B: Byte := 0x62     // b
  const LOWER_F: Byte := 0x66     // f
  const LOWER_U: Byte := 0x75     // u

  /** The byte cursor the byte-level recognisers read from. */
  class ByteLexer {
    const input: seq<Byte>
    var pos: nat

    ghost predicate Valid()
      reads this
    {
      pos <= |input|
    }

    constructor (input: seq<Byte>)
      ensures Valid() && this.input == input && pos == 0
    {
      this.input := input;
      pos := 0;
    }

    /** `look()`: the next byte without consuming it; `None` when done. */
    method Look() returns (r: Option<Byte>)
      requires Valid()
      ensures r == if pos < |input| then Some(input[pos]) else None
    {
      r := if pos < |input| then Some(input[pos]) else None;
    }

    /** `next()`: consume one byte (nothing at the end). */
    method Next()
      requires Valid()
      modifies this
      ensures Valid()
      ensures pos == if old(pos) < |input| then old(pos) + 1 else old(pos)
    {
      if pos < |input| {
        pos := pos + 1;
      }
    }
  }

  /**
   * The character the parsers keep in `char`: `String.fromCharCode(value)`,
   * which is U+0000 when `value` is `undefined` at the end of the input.
   */
  function CharOf(r: Option<Byte>): Byte
  {
    if r.Some? then r.value else 0
  }

  // ---------------------------------------------------------------------------
  // Whitespace
  // ---------------------------------------------------------------------------

  /** Space, LF, CR and TAB (the library's set plus `\n`). */
  predicate IsWhitespace(b: Byte)
  {
    b == SPACE || b == LF || b == CR || b == TAB
  }

  /** The end of the maximal run of whitespace starting at `i`. */
  function WhitespaceEnd(s: seq<Byte>, i: nat): (e: nat)
    requires i <= |s|
    ensures i <= e <= |s|
    ensures forall k :: i <= k < e ==> IsWhitespace(s[k])
    ensures e < |s| ==> !IsWhitespace(s[e])
    decreases |s| - i
  {
    if i < |s| && IsWhitespace(s[i]) then WhitespaceEnd(s, i + 1) else i
  }

  /** `WhitespaceParserImpl.parse`. */
  method ParseWhitespace(lexer: ByteLexer) returns (r: Option<Node>)
    requires lexer.Valid()
    modifies lexer
    ensures lexer.Valid()
    ensures lexer.pos == WhitespaceEnd(lexer.input, old(lexer.pos))
    ensures r == if lexer.pos == old(lexer.pos) then None
                 else Some(Node("whitespace", lexer.input[old(lexer.pos)..lexer.pos]))
  {
    ghost var start := lexer.pos;
    var text: seq<CodeUnit> := [];
    while true
      invariant lexer.Valid() && start <= lexer.pos
      invariant WhitespaceEnd(lexer.input, lexer.pos) == WhitespaceEnd(lexer.input, start)
      invariant text == lexer.input[start..lexer.pos]
      decreases |lexer.input| - lexer.pos
    {
      var look := lexer.Look();
      if look.None? || !IsWhitespace(look.value) {
        break;
      }
      text := text + [look.value];
      lexer.Next();
    }
    if |text| == 0 {
      return None;
    }
    return Some(Node("whitespace", text));
  }

  // ---------------------------------------------------------------------------
  // Token type
  // ---------------------------------------------------------------------------

  /** The node cursor the node-level recogniser reads from. */
  class NodeLexer {
    const nodes: seq<Node>
    var pos: nat

    ghost predicate Valid()
      reads this
    {
      pos <= |nodes|
    }

    constructor (nodes: seq<Node>)
      ensures Valid() && this.nodes == nodes && pos == 0
    {
      this.nodes := nodes;
      pos := 0;
    }

    /** `next()`: `{ done, value }`; consumes one node unless done. */
    method Next() returns (r: Option<Node>)
      requires Valid()
      modifies this
      ensures Valid()
      ensures old(pos) < |nodes| ==> r == Some(nodes[old(pos)]) && pos == old(pos) + 1
      ensures old(pos) == |nodes| ==> r == None && pos == old(pos)
    {
      if pos < |nodes| {
        r := Some(nodes[pos]);
        pos := pos + 1;
      } else {
        r := None;
      }
    }
  }

  /** `TokenTypeParserImpl.parse`: consume one node, keep it only if its `$` matches. */
  method ParseTokenType(lexer: NodeLexer, value: string) returns (r: Option<Node>)
    requires lexer.Valid()
    modifies lexer
    ensures lexer.Valid()
    ensures old(lexer.pos) == |lexer.nodes| ==> r == None && lexer.pos == old(lexer.pos)
    ensures old(lexer.pos) < |lexer.nodes| ==>
      && lexer.pos == old(lexer.pos) + 1
      && r == if lexer.nodes[old(lexer.pos)].kind == value then Some(lexer.nodes[old(lexer.pos)]) else None
  {
    var next := lexer.Next();
    if next.None? {
      return None;
    }
    if next.value.kind != value {
      return None;
    }
    return next;
  }

  // ---------------------------------------------------------------------------
  // Number
  // ---------------------------------------------------------------------------

  predicate IsDigit(b: Byte)
  {
    ZERO <= b <= ZERO + 9
  }

  predicate IsStartDigit(b: Byte)
  {
    ZERO + 1 <= b <= ZERO + 9
  }

  /** The end of the maximal run of digits starting at `i`. */
  function DigitEnd(s: seq<Byte>, i: nat): (e: nat)
    requires i <= |s|
    ensures i <= e <= |s|
    ensures forall k :: i <= k < e ==> IsDigit(s[k])
    ensures e < |s| ==> !IsDigit(s[e])
    decreases |s| - i
  {
    if i < |s| && IsDigit(s[i]) then DigitEnd(s, i + 1) else i
  }

  /**
   * The sign and integer step from `i`: an optional '-', then '0' or a run
   * starting with [1-9], or nothing at all (the digit branch has no else).
   * Input ending right after the '-' or the leading '0' fails.
   */
  function IntegerEnd(s: seq<Byte>, i: nat): (r: Option<nat>)
    requires i < |s|
    ensures r.Some? ==> i <= r.value <= |s|
  {
    if s[i] == MINUS && i + 1 == |s| then None
    else
      var p := if s[i] == MINUS then i + 1 else i;
      if s[p] == ZERO then (if p + 1 == |s| then None else Some(p + 1))
      else if IsStartDigit(s[p]) then Some(DigitEnd(s, p))
      else Some(p)
  }

  /** The fraction step from `q`: '.' must be followed by at least one digit. */
  function FractionEnd(s: seq<Byte>, q: nat): (r: Option<nat>)
    requires q <= |s|
    ensures r.Some? ==> q <= r.value <= |s|
  {
    if q < |s| && s[q] == DOT then
      if q + 1 == |s| || DigitEnd(s, q + 1) == q + 1 then None
      else Some(DigitEnd(s, q + 1))
    else Some(q)
  }

  /** The exponent step from `q`: 'e'/'E', an optional sign, at least one digit. */
  function ExponentEnd(s: seq<Byte>, q: nat): (r: Option<nat>)
    requires q <= |s|
    ensures r.Some? ==> q <= r.value <= |s|
  {
    if q < |s| && (s[q] == LOWER_E || s[q] == UPPER_E) then
      if q + 1 == |s| then None
      else
        var signed := s[q + 1] == PLUS || s[q + 1] == MINUS;
        if signed && q + 2 == |s| then None
        else
          var d := if signed then q + 2 else q + 1;
          if DigitEnd(s, d) == d then None else Some(DigitEnd(s, d))
    else Some(q)
  }

  /**
   * Where `NumberParserImpl.parse` started at `i` stops, if it succeeds: the
   * three steps in turn, and at least one byte consumed in all.
   */
  function NumberEnd(s: seq<Byte>, i: nat): (r: Option<nat>)
    requires i <= |s|
    ensures r.Some? ==> i < r.value <= |s|
  {
    if i == |s| then None
    else match IntegerEnd(s, i)
      case None => None
      case Some(q) =>
        match FractionEnd(s, q)
          case None => None
          case Some(q') =>
            match ExponentEnd(s, q')
              case None => None
              case Some(e) => if e == i then None else Some(e)
  }

  /** `consume()`: append `char`, advance, look again; true if a byte follows. */
  method Consume(lexer: ByteLexer, text: seq<CodeUnit>, ch: Byte)
    returns (text': seq<CodeUnit>, more: bool, ch': Byte)
    requires lexer.Valid() && lexer.pos < |lexer.input| && ch == lexer.input[lexer.pos]
    modifies lexer
    ensures lexer.Valid() && lexer.pos == old(lexer.pos) + 1
    ensures text' == text + [ch]
    ensures more <==> lexer.pos < |lexer.input|
    ensures more ==> ch' == lexer.input[lexer.pos]
  {
    text' := text + [ch];
    lexer.Next();
    var look := lexer.Look();
    ch' := CharOf(look);
    more := look.Some?;
  }

  /** `consumeDigitSequence()`: consume the maximal digit run; return how many. */
  method ConsumeDigits(lexer: ByteLexer, text: seq<CodeUnit>, ch: Byte)
    returns (consumed: nat, text': seq<CodeUnit>, ch': Byte)
    requires lexer.Valid()
    requires lexer.pos < |lexer.input| ==> ch == lexer.input[lexer.pos]
    modifies lexer
    ensures lexer.Valid()
    ensures lexer.pos == DigitEnd(lexer.input, old(lexer.pos))
    ensures consumed == lexer.pos - old(lexer.pos)
    ensures text' == text + lexer.input[old(lexer.pos)..lexer.pos]
    ensures lexer.pos < |lexer.input| ==> ch' == lexer.input[lexer.pos]
  {
    ghost var start := lexer.pos;
    consumed, text', ch' := 0, text, ch;
    while lexer.pos < |lexer.input| && IsDigit(ch')
      invariant lexer.Valid() && start <= lexer.pos
      invariant DigitEnd(lexer.input, lexer.pos) == DigitEnd(lexer.input, start)
      invariant consumed == lexer.pos - start
      invariant text' == text + lexer.input[start..lexer.pos]
      invariant lexer.pos < |lexer.input| ==> ch' == lexer.input[lexer.pos]
      decreases |lexer.input| - lexer.pos
    {
      consumed := consumed + 1;
      assert lexer.input[start..lexer.pos + 1] == lexer.input[start..lexer.pos] + [ch'];
      var more;
      text', more, ch' := Consume(lexer, text', ch');
    }
  }

  /** The "Sign" and "Digits" blocks of `NumberParserImpl.parse`. */
  method LexInteger(lexer: ByteLexer, ch: Byte) returns (ok: bool, text: seq<CodeUnit>, ch': Byte)
    requires lexer.Valid() && lexer.pos < |lexer.input| && ch == lexer.input[lexer.pos]
    modifies lexer
    ensures lexer.Valid()
    ensures ok <==> IntegerEnd(lexer.input, old(lexer.pos)).Some?
    ensures ok ==> lexer.pos == IntegerEnd(lexer.input, old(lexer.pos)).value
    ensures ok ==> text == lexer.input[old(lexer.pos)..lexer.pos]
    ensures ok && lexer.pos < |lexer.input| ==> ch' == lexer.input[lexer.pos]
  {
    var s := lexer.input;
    ghost var start := lexer.pos;
    text, ch' := [], ch;
    var more;
    var consumed;
    if ch' == MINUS {
      text, more, ch' := Consume(lexer, text, ch');
      if !more {
        return false, text, ch';
      }
    }
    if ch' == ZERO {
      text, more, ch' := Consume(lexer, text, ch');
      if !more {
        return false, text, ch';
      }
    } else if IsStartDigit(ch') {
      consumed, text, ch' := ConsumeDigits(lexer, text, ch');
    }
    ok := true;
  }

  /** The "Decimal + digits" block of `NumberParserImpl.parse`. */
  method LexFraction(lexer: ByteLexer, text: seq<CodeUnit>, ch: Byte)
    returns (ok: bool, text': seq<CodeUnit>, ch': Byte)
    requires lexer.Valid()
    requires lexer.pos < |lexer.input| ==> ch == lexer.input[lexer.pos]
    modifies lexer
    ensures lexer.Valid()
    ensures ok <==> FractionEnd(lexer.input, old(lexer.pos)).Some?
    ensures ok ==> lexer.pos == FractionEnd(lexer.input, old(lexer.pos)).value
    ensures ok ==> text' == text + lexer.input[old(lexer.pos)..lexer.pos]
    ensures ok && lexer.pos < |lexer.input| ==> ch' == lexer.input[lexer.pos]
  {
    text', ch' := text, ch;
    if lexer.pos < |lexer.input| && ch' == DOT {
      var more;
      var consumed;
      text', more, ch' := Consume(lexer, text', ch');
      if !more {
        return false, text', ch';
      }
      consumed, text', ch' := ConsumeDigits(lexer, text', ch');
      if consumed == 0 {
        return false, text', ch';
      }
    }
    ok := true;
  }

  /** The "Exponent" block of `NumberParserImpl.parse`. */
  method LexExponent(lexer: ByteLexer, text: seq<CodeUnit>, ch: Byte)
    returns (ok: bool, text': seq<CodeUnit>)
    requires lexer.Valid()
    requires lexer.pos < |lexer.input| ==> ch == lexer.input[lexer.pos]
    modifies lexer
    ensures lexer.Valid()
    ensures ok <==> ExponentEnd(lexer.input, old(lexer.pos)).Some?
    ensures ok ==> lexer.pos == ExponentEnd(lexer.input, old(lexer.pos)).value
    ensures ok ==> text' == text + lexer.input[old(lexer.pos)..lexer.pos]
  {
    text' := text;
    var ch' := ch;
    if lexer.pos < |lexer.input| && (ch' == LOWER_E || ch' == UPPER_E) {
      var more;
      var consumed;
      text', more, ch' := Consume(lexer, text', ch');
      if !more {
        return false, text';
      }
      if ch' == PLUS || ch' == MINUS {
        text', more, ch' := Consume(lexer, text', ch');
        if !more {
          return false, text';
        }
      }
      consumed, text', ch' := ConsumeDigits(lexer, text', ch');
      if consumed == 0 {
        return false, text';
      }
    }
    ok := true;
  }

  /** `NumberParserImpl.parse`: the text is exactly the consumed prefix. */
  method ParseNumber(lexer: ByteLexer) returns (r: Option<Node>)
    requires lexer.Valid()
    modifies lexer
    ensures lexer.Valid()
    ensures NumberEnd(lexer.input, old(lexer.pos)).None? ==> r == None
    ensures NumberEnd(lexer.input, old(lexer.pos)).Some? ==>
      && lexer.pos == NumberEnd(lexer.input, old(lexer.pos)).value
      && r == Some(Node("number", lexer.input[old(lexer.pos)..lexer.pos]))
  {
    var s := lexer.input;
    var start := lexer.pos;
    var look := lexer.Look();
    if look.None? {
      return None;
    }
    var ok, text, ch := LexInteger(lexer, look.value);
    if !ok {
      return None;
    }
    var q := lexer.pos;
    ok, text, ch := LexFraction(lexer, text, ch);
    if !ok {
      return None;
    }
    var q' := lexer.pos;
    ok, text := LexExponent(lexer, text, ch);
    if !ok {
      return None;
    }
    ConcatSlices(s, start, q, q', lexer.pos);
    if |text| == 0 {
      return None;
    }
    return Some(Node("number", text));
  }

  lemma ConcatSlices(s: seq<Byte>, i: nat, q: nat, q': nat, e: nat)
    requires i <= q <= q' <= e <= |s|
    ensures s[i..q] + s[q..q'] + s[q'..e] == s[i..e]
  {
    assert s[i..q] + s[q..q'] == s[i..q'];
  }

  // ---------------------------------------------------------------------------
  // String
  // ---------------------------------------------------------------------------

  /**
   * The escape table. Its keys are '"', '\', '/', 'b', 'f' and the raw
   * control characters LF, CR and TAB, so `\n`, `\r` and `\t` written with
   * letters are not escapes at all.
   */
  function EscapeOf(c: Byte): Option<CodeUnit>
  {
    if c == QUOTE || c == BACKSLASH || c == SLASH then Some(c)
    else if c == LOWER_B then Some(0x08)
    else if c == LOWER_F then Some(0x0C)
    else if c == LF || c == CR || c == TAB then Some(c)
    else None
  }

  predicate IsHexDigit(b: Byte)
  {
    IsDigit(b) || (0x41 <= b <= 0x46) || (0x61 <= b <= 0x66)
  }

  function HexValue(b: Byte): (v: nat)
    requires IsHexDigit(b)
    ensures v < 16
  {
    if IsDigit(b) then b - ZERO else if b <= 0x46 then b - 0x41 + 10 else b - 0x61 + 10
  }

  /** `Number.parseInt(hex, 16)` of four hex digits: one code point below 0x10000. */
  function HexQuadValue(h: seq<Byte>): CodeUnit
    requires |h| == 4 && forall k :: 0 <= k < 4 ==> IsHexDigit(h[k])
  {
    ((HexValue(h[0]) * 16 + HexValue(h[1])) * 16 + HexValue(h[2])) * 16 + HexValue(h[3])
  }

  /**
   * The body loop of `StringParserImpl.parse` from position `p` with `acc`
   * accumulated: the text including the closing quote and the position after
   * it, or `None`.
   */
  function StringBody(s: seq<Byte>, p: nat, acc: seq<CodeUnit>): Option<(seq<CodeUnit>, nat)>
    decreases |s| - p
  {
    if p >= |s| then None
    else if s[p] == QUOTE then Some((acc + [QUOTE], p + 1))
    else if s[p] == BACKSLASH then
      if p + 1 >= |s| then None
      else if EscapeOf(s[p + 1]).Some? then
        if p + 2 >= |s| then None
        else StringBody(s, p + 2, acc + [EscapeOf(s[p + 1]).value])
      else if s[p + 1] == LOWER_U then
        if p + 6 < |s| && (forall k :: p + 2 <= k < p + 6 ==> IsHexDigit(s[k])) then
          StringBody(s, p + 6, acc + [HexQuadValue(s[p + 2..p + 6])])
        else None
      else None
    else if p + 1 >= |s| then None
    else StringBody(s, p + 1, acc + [s[p]])
  }

  /** What `StringParserImpl.parse` started at `i` returns, with where it stops. */
  function StringLex(s: seq<Byte>, i: nat): Option<(seq<CodeUnit>, nat)>
  {
    if i >= |s| || s[i] != QUOTE then None else StringBody(s, i + 1, [QUOTE])
  }

  /** `next()` of the string parser: advance, look again; true if a byte follows. */
  method Advance(lexer: ByteLexer) returns (more: bool, ch: Byte)
    requires lexer.Valid()
    modifies lexer
    ensures lexer.Valid()
    ensures lexer.pos == if old(lexer.pos) < |lexer.input| then old(lexer.pos) + 1 else old(lexer.pos)
    ensures more <==> lexer.pos < |lexer.input|
    ensures more ==> ch == lexer.input[lexer.pos]
  {
    lexer.Next();
    var look := lexer.Look();
    ch := CharOf(look);
    more := look.Some?;
  }

  /**
   * An escape sequence inside the body loop of `StringParserImpl.parse`,
   * from its backslash to the byte after it; false where the parser gives up.
   */
  method LexEscape(lexer: ByteLexer, text: seq<CodeUnit>) returns (ok: bool, text': seq<CodeUnit>, ch: Byte)
    requires lexer.Valid() && lexer.pos < |lexer.input| && lexer.input[lexer.pos] == BACKSLASH
    modifies lexer
    ensures lexer.Valid()
    ensures !ok ==> StringBody(lexer.input, old(lexer.pos), text).None?
    ensures ok ==>
      && old(lexer.pos) < lexer.pos < |lexer.input| && ch == lexer.input[lexer.pos]
      && StringBody(lexer.input, lexer.pos, text') == StringBody(lexer.input, old(lexer.pos), text)
  {
    ghost var p := lexer.pos;
    var more;
    text' := text;
    more, ch := Advance(lexer);
    if !more {
      return false, text', ch;
    }
    var escape := EscapeOf(ch);
    if escape.Some? {
      text' := text + [escape.value];
      more, ch := Advance(lexer);
      return more, text', ch;
    }
    if ch == LOWER_U {
      more, ch := Advance(lexer);
      if !more {
        return false, text', ch;
      }
      var hex;
      ok, hex, ch := LexHexQuad(lexer, ch);
      if ok {
        text' := text + [HexQuadValue(hex)];
      }
      return ok, text', ch;
    }
    // Otherwise, it's an invalid escape sequence
    return false, text', ch;
  }

  /** The four hex digits of a `\u` escape, and the byte after them. */
  method LexHexQuad(lexer: ByteLexer, ch: Byte) returns (ok: bool, hex: seq<Byte>, ch': Byte)
    requires lexer.Valid() && lexer.pos < |lexer.input| && ch == lexer.input[lexer.pos]
    modifies lexer
    ensures lexer.Valid()
    ensures var p := old(lexer.pos);
      ok <==> p + 4 < |lexer.input| && forall k :: p <= k < p + 4 ==> IsHexDigit(lexer.input[k])
    ensures ok ==> var p := old(lexer.pos);
      && hex == lexer.input[p..p + 4] && |hex| == 4 && (forall k :: 0 <= k < 4 ==> IsHexDigit(hex[k]))
      && lexer.pos == p + 4 && ch' == lexer.input[lexer.pos]
  {
    ghost var p := lexer.pos;
    var s := lexer.input;
    var more := true;
    ch' := ch;
    hex := [];
    while more && |hex| < 4
      invariant lexer.Valid() && lexer.pos == p + |hex| && |hex| <= 4
      invariant more <==> lexer.pos < |s|
      invariant more ==> ch' == s[lexer.pos]
      invariant hex == s[p..lexer.pos]
      invariant forall k :: p <= k < lexer.pos ==> IsHexDigit(s[k])
      decreases 4 - |hex|
    {
      if IsHexDigit(ch') {
        hex := hex + [ch'];
        more, ch' := Advance(lexer);
        if !more {
          return false, hex, ch';
        }
        continue;
      }
      // Less than 4 hex digits read
      return false, hex, ch';
    }
    if |hex| < 4 {
      return false, hex, ch';
    }
    return true, hex, ch';
  }

  /** `StringParserImpl.parse`. */
  method ParseString(lexer: ByteLexer) returns (r: Option<Node>)
    requires lexer.Valid()
    modifies lexer
    ensures lexer.Valid()
    ensures StringLex(lexer.input, old(lexer.pos)).None? ==> r == None
    ensures StringLex(lexer.input, old(lexer.pos)).Some? ==>
      && r == Some(Node("string", StringLex(lexer.input, old(lexer.pos)).value.0))
      && lexer.pos == StringLex(lexer.input, old(lexer.pos)).value.1
  {
    var s := lexer.input;
    ghost var start := lexer.pos;
    var look := lexer.Look();
    if look.None? {
      return None;
    }
    var ch := look.value;
    var more;

    // Opening "
    if ch != QUOTE {
      return None;
    }
    var text: seq<CodeUnit> := [ch];
    more, ch := Advance(lexer);
    ghost var goal := StringLex(s, start);

    while true
      invariant lexer.Valid() && lexer.pos > start
      invariant more <==> lexer.pos < |s|
      invariant more ==> ch == s[lexer.pos]
      invariant StringBody(s, lexer.pos, text) == goal
      decreases |s| - lexer.pos
    {
      if !more {
        // `char` is U+0000 here: it is copied, and the next `next()` fails.
        return None;
      }
      if ch == QUOTE {
        break;
      }

      // Escape sequences
      if ch == BACKSLASH {
        var ok;
        ok, text, ch := LexEscape(lexer, text);
        if !ok {
          return None;
        }
        continue;
      }

      // Anything else is valid string content
      text := text + [ch];
      more, ch := Advance(lexer);
      if !more {
        return None;
      }
    }

    // Closing "
    text := text + [ch];
    more, ch := Advance(lexer);
    return Some(Node("string", text));
  }
}
