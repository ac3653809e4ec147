/**
 * The ECMAScript string operations the shell relies on, over `string`
 * (sequences of Unicode scalar values): `trim`/`trimEnd`, `startsWith`,
 * `split` with a one-character separator, `replace` with a string pattern
 * (first occurrence only, `$` patterns in the replacement), `JSON.stringify`
 * of a string, and `ToString` of an integer.
 */
module JsString {
  import opened Common

  // ---------------------------------------------------------------------------
  // Whitespace and trimming
  // ---------------------------------------------------------------------------

  /** WhiteSpace and LineTerminator of ECMA-262, section 12.2 and 12.3. */
  predicate IsJsWhitespace(c: char)
  {
    || c == '\t' || c == '\n' || c == '\U{000B}' || c == '\U{000C}' || c == '\r' || c == ' '
    || c == '\U{00A0}' || c == '\U{1680}' || ('\U{2000}' <= c <= '\U{200A}')
    || c == '\U{2028}' || c == '\U{2029}' || c == '\U{202F}' || c == '\U{205F}'
    || c == '\U{3000}' || c == '\U{FEFF}'
  }

  predicate AllWhitespace(s: string)
  {
    forall k :: 0 <= k < |s| ==> IsJsWhitespace(s[k])
  }

  /** `s.trimEnd()`: the longest prefix not ending in whitespace. */
  function TrimEnd(s: string): (r: string)
    ensures r <= s
    ensures AllWhitespace(s[|r|..])
    ensures r == [] || !IsJsWhitespace(r[|r| - 1])
  {
    if s == [] || !IsJsWhitespace(s[|s| - 1]) then s
    else TrimEnd(s[..|s| - 1])
  }

  /** `s.trimStart()`. */
  function TrimStart(s: string): (r: string)
    ensures |r| <= |s| && r == s[|s| - |r|..]
    ensures AllWhitespace(s[..|s| - |r|])
    ensures r == [] || !IsJsWhitespace(r[0])
  {
    if s == [] || !IsJsWhitespace(s[0]) then s
    else TrimStart(s[1..])
  }

  /** `s.trim()`. */
  function Trim(s: string): string
  {
    TrimStart(TrimEnd(s))
  }

  /** Whitespace appended to a string is exactly what `trimEnd` removes. */
  lemma {:induction false} TrimEndAppend(s: string, w: string)
    requires AllWhitespace(w)
    ensures TrimEnd(s + w) == TrimEnd(s)
    decreases |w|
  {
    if w != [] {
      assert (s + w)[..|s + w| - 1] == s + w[..|w| - 1];
      TrimEndAppend(s, w[..|w| - 1]);
    } else {
      assert s + w == s;
    }
  }

  /** `trim()` is empty exactly when the string is all whitespace. */
  lemma TrimEmpty(s: string)
    ensures Trim(s) == [] <==> AllWhitespace(s)
  {
    if AllWhitespace(s) {
      TrimWhitespace(s);
    }
    if Trim(s) == [] {
      TrimmedAway(s);
    }
  }

  lemma TrimWhitespace(s: string)
    requires AllWhitespace(s)
    ensures Trim(s) == []
  {
    TrimEndAppend([], s);
    assert [] + s == s;
  }

  lemma TrimmedAway(s: string)
    requires Trim(s) == []
    ensures AllWhitespace(s)
  {
    var e := TrimEnd(s);
    assert e[..|e|] == e;
    assert s == e + s[|e|..];
  }

  /** `s.startsWith(p)`. */
  predicate StartsWith(s: string, p: string)
  {
    p <= s
  }

  // ---------------------------------------------------------------------------
  // split
  // ---------------------------------------------------------------------------

  /** The index of the first `c` in `s`, if any. */
  function IndexOfChar(s: string, c: char): (r: Option<nat>)
    ensures r.Some? ==> r.value < |s| && s[r.value] == c && c !in s[..r.value]
    ensures r.None? ==> c !in s
  {
    if s == [] then None
    else if s[0] == c then Some(0)
    else match IndexOfChar(s[1..], c)
      case None => None
      case Some(k) => Some(k + 1)
  }

  /** `s.split(sep)` for a one-character separator: never empty. */
  function Split(s: string, sep: char): (parts: seq<string>)
    ensures |parts| >= 1
    ensures forall k :: 0 <= k < |parts| ==> sep !in parts[k]
    decreases |s|
  {
    match IndexOfChar(s, sep)
    case None => [s]
    case Some(k) => [s[..k]] + Split(s[k + 1..], sep)
  }

  function Join(parts: seq<string>, sep: char): string
    requires |parts| >= 1
  {
    if |parts| == 1 then parts[0] else parts[0] + [sep] + Join(parts[1..], sep)
  }

  /** Joining the parts with the separator gives back the string. */
  lemma {:induction false} JoinSplit(s: string, sep: char)
    ensures Join(Split(s, sep), sep) == s
    decreases |s|
  {
    match IndexOfChar(s, sep)
    case None =>
    case Some(k) =>
      var parts := Split(s, sep);
      assert parts == [s[..k]] + Split(s[k + 1..], sep);
      assert parts[1..] == Split(s[k + 1..], sep);
      assert Join(parts, sep) == s[..k] + [sep] + Join(Split(s[k + 1..], sep), sep);
      JoinSplit(s[k + 1..], sep);
      assert s == s[..k] + [sep] + s[k + 1..];
  }

  /** Splitting a join of separator-free parts gives back the parts. */
  lemma {:induction false} SplitJoin(parts: seq<string>, sep: char)
    requires |parts| >= 1 && forall k :: 0 <= k < |parts| ==> sep !in parts[k]
    ensures Split(Join(parts, sep), sep) == parts
    decreases |parts|
  {
    if |parts| > 1 {
      SplitSeparated(parts[0], Join(parts[1..], sep), sep);
      SplitJoin(parts[1..], sep);
      assert [parts[0]] + parts[1..] == parts;
    } else {
      assert sep !in parts[0];
    }
  }

  /** A separator-free part, the separator, then the rest: the part comes off first. */
  lemma SplitSeparated(a: string, rest: string, sep: char)
    requires sep !in a
    ensures Split(a + [sep] + rest, sep) == [a] + Split(rest, sep)
  {
    var s := a + [sep] + rest;
    IndexOfCharPrefix(a, [sep] + rest, sep);
    assert s == a + ([sep] + rest);
    assert s[|a| + 1..] == rest;
    assert s[..|a|] == a;
  }

  lemma {:induction false} IndexOfCharPrefix(a: string, b: string, c: char)
    requires c !in a && b != [] && b[0] == c
    ensures IndexOfChar(a + b, c) == Some(|a|)
    decreases |a|
  {
    if a == [] {
      assert a + b == b;
    } else {
      assert (a + b)[1..] == a[1..] + b;
      IndexOfCharPrefix(a[1..], b, c);
    }
  }

  // ---------------------------------------------------------------------------
  // replace
  // ---------------------------------------------------------------------------

  /** `p` occurs in `s` at index `k`. */
  predicate OccursAt(s: string, p: string, k: nat)
  {
    k + |p| <= |s| && s[k..k + |p|] == p
  }

  /** The first index at which `p` occurs in `s`, if any. */
  function IndexOf(s: string, p: string): (r: Option<nat>)
    ensures r.Some? ==> OccursAt(s, p, r.value)
    ensures r.Some? ==> forall k: nat :: k < r.value ==> !OccursAt(s, p, k)
    ensures r.None? ==> forall k: nat :: !OccursAt(s, p, k)
    decreases |s|
  {
    if |p| > |s| then None
    else if s[..|p|] == p then Some(0)
    else
      match IndexOf(s[1..], p)
      case None =>
        assert forall k: nat :: k >= 1 ==> OccursAt(s, p, k) == OccursAt(s[1..], p, k - 1);
        None
      case Some(k) =>
        assert forall j: nat :: j >= 1 ==> OccursAt(s, p, j) == OccursAt(s[1..], p, j - 1);
        Some(k + 1)
  }

  /**
   * GetSubstitution of ECMA-262, section 22.1.3.19.1, for a match without
   * captures: `$$` is '$', `$&` the match, `` $` `` the text before it,
   * `$'` the text after it, and any other '$' stays as it is.
   */
  function Substitute(repl: string, matched: string, before: string, after: string): string
    decreases |repl|
  {
    if repl == [] then []
    else if repl[0] == '$' && |repl| >= 2 && IsPatternChar(repl[1]) then
      Pattern(repl[1], matched, before, after) + Substitute(repl[2..], matched, before, after)
    else [repl[0]] + Substitute(repl[1..], matched, before, after)
  }

  /** The characters that may follow '$' in a replacement pattern without captures. */
  predicate IsPatternChar(c: char)
  {
    c == '$' || c == '&' || c == '`' || c == '\''
  }

  /** What `$c` stands for. */
  function Pattern(c: char, matched: string, before: string, after: string): string
    requires IsPatternChar(c)
  {
    match c
    case '$' => "$"
    case '&' => matched
    case '`' => before
    case _ => after
  }

  /** A replacement without '$' is inserted literally. */
  lemma {:induction false} SubstituteLiteral(repl: string, matched: string, before: string, after: string)
    requires '$' !in repl
    ensures Substitute(repl, matched, before, after) == repl
    decreases |repl|
  {
    if repl != [] {
      assert '$' !in repl[1..] by {
        assert forall k :: 0 <= k < |repl| - 1 ==> repl[1..][k] == repl[k + 1];
      }
      SubstituteLiteral(repl[1..], matched, before, after);
    }
  }

  /** `s.replace(p, repl)` with a string pattern. */
  function ReplaceFirst(s: string, p: string, repl: string): string
  {
    match IndexOf(s, p)
    case None => s
    case Some(i) => s[..i] + Substitute(repl, p, s[..i], s[i + |p|..]) + s[i + |p|..]
  }

  /**
   * Only the first occurrence is replaced: the text from the end of that
   * occurrence on is kept as it was, and the text before it holds no
   * occurrence; without an occurrence the string is unchanged.
   */
  lemma ReplaceFirstOnly(s: string, p: string, repl: string)
    ensures IndexOf(s, p).None? ==> ReplaceFirst(s, p, repl) == s
    ensures IndexOf(s, p).Some? ==>
      var i := IndexOf(s, p).value;
      && ReplaceFirst(s, p, repl) == s[..i] + Substitute(repl, p, s[..i], s[i + |p|..]) + s[i + |p|..]
      && (forall k: nat :: k < i ==> !OccursAt(s, p, k))
  {
  }

  /** With a '$'-free replacement, the first occurrence is replaced by it literally. */
  lemma ReplaceFirstLiteral(s: string, p: string, repl: string)
    requires '$' !in repl && IndexOf(s, p).Some?
    ensures var i := IndexOf(s, p).value;
      ReplaceFirst(s, p, repl) == s[..i] + repl + s[i + |p|..]
  {
    var i := IndexOf(s, p).value;
    assert i + |p| <= |s|;
    var before, after := s[..i], s[i + |p|..];
    assert ReplaceFirst(s, p, repl) == before + Substitute(repl, p, before, after) + after;
    SubstituteLiteral(repl, p, before, after);
  }

  // ---------------------------------------------------------------------------
  // JSON.stringify of a string
  // ---------------------------------------------------------------------------

  function HexDigitChar(d: nat): (c: char)
    requires d < 16
  {
    if d < 10 then ('0' as int + d) as char else ('a' as int + d - 10) as char
  }

  /** QuoteJSONString of ECMA-262, section 25.5.2.3, for one code point. */
  function EscapeChar(c: char): (r: string)
    ensures |r| >= 1
    ensures r[0] == '\\' <==> (c == '"' || c == '\\' || c < ' ')
    ensures r[0] != '\\' ==> r == [c]
  {
    if c == '"' then "\\\""
    else if c == '\\' then "\\\\"
    else if c == '\U{0008}' then "\\b"
    else if c == '\U{000C}' then "\\f"
    else if c == '\n' then "\\n"
    else if c == '\r' then "\\r"
    else if c == '\t' then "\\t"
    else if c < ' ' then "\\u00" + [HexDigitChar(c as int / 16), HexDigitChar(c as int % 16)]
    else [c]
  }

  function EscapeBody(s: string): string
  {
    if s == [] then [] else EscapeChar(s[0]) + EscapeBody(s[1..])
  }

  /** `JSON.stringify(s)` for a string `s`. */
  function JsonQuote(s: string): (r: string)
    ensures |r| >= 2 && r[0] == '"' && r[|r| - 1] == '"'
  {
    "\"" + EscapeBody(s) + "\""
  }

  function HexDigitValue(c: char): nat
  {
    if '0' <= c <= '9' then c as int - '0' as int
    else if 'a' <= c <= 'f' then c as int - 'a' as int + 10
    else 0
  }

  /** The JSON string-body decoder for exactly the escapes `EscapeChar` produces. */
  function UnescapeBody(e: string): string
    decreases |e|
  {
    if e == [] then []
    else if e[0] != '\\' || |e| < 2 then [e[0]] + UnescapeBody(e[1..])
    else if e[1] == 'u' && |e| >= 6 then
      [(HexDigitValue(e[4]) * 16 + HexDigitValue(e[5])) as char] + UnescapeBody(e[6..])
    else
      var c := e[1];
      var d := if c == 'b' then '\U{0008}' else if c == 'f' then '\U{000C}' else if c == 'n' then '\n'
               else if c == 'r' then '\r' else if c == 't' then '\t' else c;
      [d] + UnescapeBody(e[2..])
  }

  lemma UnescapeChar(c: char, rest: string)
    ensures UnescapeBody(EscapeChar(c) + rest) == [c] + UnescapeBody(rest)
  {
    var e := EscapeChar(c) + rest;
    if c < ' ' && c != '\U{0008}' && c != '\U{000C}' && c != '\n' && c != '\r' && c != '\t' {
      assert e[6..] == rest;
      assert HexDigitValue(e[4]) == c as int / 16;
      assert HexDigitValue(e[5]) == c as int % 16;
    } else if e[0] == '\\' {
      assert e[2..] == rest;
    } else {
      assert e[1..] == rest;
    }
  }

  /** Decoding the body of `JSON.stringify(s)` gives back `s`. */
  lemma {:induction false} UnescapeEscape(s: string)
    ensures UnescapeBody(EscapeBody(s)) == s
    decreases |s|
  {
    if s != [] {
      UnescapeChar(s[0], EscapeBody(s[1..]));
      UnescapeEscape(s[1..]);
    }
  }

  // ---------------------------------------------------------------------------
  // Number to string
  // ---------------------------------------------------------------------------

  function NaturalString(n: nat): (r: string)
    ensures |r| >= 1 && forall k :: 0 <= k < |r| ==> '0' <= r[k] <= '9'
  {
    if n < 10 then [('0' as int + n) as char]
    else NaturalString(n / 10) + [('0' as int + n % 10) as char]
  }

  /** `ToString` of an integral Number. */
  function IntegerString(n: int): string
  {
    if n < 0 then "-" + NaturalString(-n) else NaturalString(n)
  }

  function ParseNatural(s: string): nat
  {
    if s == [] then 0
    else ParseNatural(s[..|s| - 1]) * 10 + (if '0' <= s[|s| - 1] <= '9' then s[|s| - 1] as int - '0' as int else 0)
  }

  /** The decimal digits read back as the number they spell. */
  lemma {:induction false} ParseNaturalString(n: nat)
    ensures ParseNatural(NaturalString(n)) == n
  {
    if n >= 10 {
      ParseNaturalString(n / 10);
      var s := NaturalString(n);
      assert s[..|s| - 1] == NaturalString(n / 10);
    }
  }
}
