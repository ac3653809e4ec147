/**
 * `readline_comprehend`: what the line being edited means at the cursor,
 * so that tab completion knows what to complete. The tokenizer (`readtoken`)
 * is not part of this model; it is a parameter of the operation.
 */
module RlComprehend {
  import opened Common

  datatype Operator = Pipe | Semicolon | RedirectIn | RedirectOut | OtherOperator(name: string)

  /** A token from `readtoken`: a word (a string) or one of the `TOKENS` objects. */
  datatype RlToken = Word(text: string) | Op(op: Operator)

  /** The "readline input state". */
  datatype Comprehension =
    | Empty
    | Redirect(input: Option<RlToken>)
    | Unrecognized
    | CommandInput(id: string, tokens: seq<RlToken>, endsWithWhitespace: bool)

  predicate IsSeparator(t: RlToken)
  {
    t == Op(Pipe) || t == Op(Semicolon)
  }

  predicate IsRedirect(t: RlToken)
  {
    t == Op(RedirectIn) || t == Op(RedirectOut)
  }

  /** `input.slice(0, cursor)`: a negative cursor counts from the end; a large one is clamped. */
  function RelevantInput(input: string, cursor: int): (r: string)
    ensures r <= input
    ensures 0 <= cursor <= |input| ==> |r| == cursor
    ensures cursor > |input| ==> r == input
    ensures cursor < 0 ==> |r| == if |input| + cursor < 0 then 0 else |input| + cursor
  {
    if cursor < 0 then (if |input| + cursor < 0 then [] else input[..|input| + cursor])
    else if cursor > |input| then input
    else input[..cursor]
  }

  /** The last character is a space, a tab, CR or LF; false for empty input. */
  function EndsWithWhitespace(s: string): (b: bool)
    ensures b ==> s != []
  {
    s != [] && s[|s| - 1] in {' ', '\t', '\r', '\n'}
  }

  /** The tokens after the last `|` or `;`: the command the cursor is in. */
  function AfterLastSeparator(tokens: seq<RlToken>): (r: seq<RlToken>)
    ensures |r| <= |tokens|
  {
    if tokens == [] then []
    else if IsSeparator(tokens[|tokens| - 1]) then []
    else AfterLastSeparator(tokens[..|tokens| - 1]) + [tokens[|tokens| - 1]]
  }

  /** Argument tokens: every redirect operator is dropped together with the token after it. */
  function StripRedirects(tokens: seq<RlToken>): (r: seq<RlToken>)
    ensures |r| <= |tokens|
    ensures forall k :: 0 <= k < |r| ==> !IsRedirect(r[k])
    decreases |tokens|
  {
    if tokens == [] then []
    else if IsRedirect(tokens[0]) then (if |tokens| == 1 then [] else StripRedirects(tokens[2..]))
    else [tokens[0]] + StripRedirects(tokens[1..])
  }

  /** The tokens after the last separator are a suffix free of separators, preceded by one if shorter. */
  lemma {:induction false} AfterLastSeparatorShape(tokens: seq<RlToken>)
    ensures var r := AfterLastSeparator(tokens);
      && r == tokens[|tokens| - |r|..]
      && (forall k :: 0 <= k < |r| ==> !IsSeparator(r[k]))
      && (|r| < |tokens| ==> IsSeparator(tokens[|tokens| - |r| - 1]))
    decreases |tokens|
  {
    if tokens != [] && !IsSeparator(tokens[|tokens| - 1]) {
      var init := tokens[..|tokens| - 1];
      AfterLastSeparatorShape(init);
      var r0 := AfterLastSeparator(init);
      var r := r0 + [tokens[|tokens| - 1]];
      assert AfterLastSeparator(tokens) == r;
      assert tokens[|tokens| - |r|..] == init[|init| - |r0|..] + [tokens[|tokens| - 1]];
      forall k | 0 <= k < |r|
        ensures !IsSeparator(r[k])
      {
        if k < |r0| {
          assert r[k] == r0[k];
        }
      }
      if |r| < |tokens| {
        assert tokens[|tokens| - |r| - 1] == init[|init| - |r0| - 1];
      }
    }
  }

  /** What `readline_comprehend` returns for the tokens before the cursor. */
  function Comprehend(tokens: seq<RlToken>, endsWithWhitespace: bool): Comprehension
  {
    if tokens == [] then Empty else ComprehendCommand(AfterLastSeparator(tokens), endsWithWhitespace)
  }

  /** The same, once the tokens of earlier commands are gone. */
  function ComprehendCommand(rest: seq<RlToken>, endsWithWhitespace: bool): Comprehension
  {
      if rest != [] && IsRedirect(rest[|rest| - 1]) then Redirect(None)
      else if |rest| >= 2 && !endsWithWhitespace && IsRedirect(rest[|rest| - 2]) then Redirect(Some(rest[|rest| - 1]))
      else if rest == [] then Empty
      else if !rest[0].Word? then Unrecognized
      else CommandInput(rest[0].text, StripRedirects(rest), endsWithWhitespace)
  }

  /** `readline_comprehend(ctx)`, with `readtoken` a parameter. */
  method ReadlineComprehend(input: string, cursor: int, readtoken: string -> seq<RlToken>)
    returns (r: Comprehension)
    ensures var relevant := RelevantInput(input, cursor);
      r == Comprehend(readtoken(relevant), EndsWithWhitespace(relevant))
  {
    var relevantInput := RelevantInput(input, cursor);
    var endsWithWhitespace := EndsWithWhitespace(relevantInput);
    var all := readtoken(relevantInput);
    if |all| == 0 {
      return Empty;
    }

    var tokens := CurrentCommand(all);

    if |tokens| >= 1 {
      var lastToken := tokens[|tokens| - 1];
      if IsRedirect(lastToken) {
        return Redirect(None);
      }
      if |tokens| >= 2 && !endsWithWhitespace && IsRedirect(tokens[|tokens| - 2]) {
        return Redirect(Some(lastToken));
      }
    }

    if |tokens| == 0 {
      return Empty;
    }
    if !tokens[0].Word? {
      return Unrecognized;
    }

    var argTokens := ArgumentTokens(tokens);
    return CommandInput(tokens[0].text, argTokens, endsWithWhitespace);
  }

  /** The backward scan of `readline_comprehend`: the tokens after the last separator. */
  method CurrentCommand(all: seq<RlToken>) returns (tokens: seq<RlToken>)
    ensures tokens == AfterLastSeparator(all)
  {
    // Backwards to the last command separator; index |all| holds no token.
    tokens := all;
    var i := |all|;
    assert all[..i] == all && all[i..] == [];
    while i > 0
      invariant 0 <= i <= |all|
      invariant AfterLastSeparator(all) == AfterLastSeparator(all[..i]) + all[i..]
      invariant tokens == all
    {
      SeparatorStep(all, i);
      if IsSeparator(all[i - 1]) {
        return all[i..];
      }
      i := i - 1;
    }
    assert all[..0] == [];
  }

  /** The argument loop at the end of `readline_comprehend`. */
  method ArgumentTokens(tokens: seq<RlToken>) returns (argTokens: seq<RlToken>)
    ensures argTokens == StripRedirects(tokens)
  {
    argTokens := [];
    var j := 0;
    assert Tail(tokens, 0) == tokens;
    while j < |tokens|
      invariant 0 <= j <= |tokens| + 1
      invariant argTokens + StripRedirects(Tail(tokens, j)) == StripRedirects(tokens)
    {
      StripStep(tokens, j);
      if IsRedirect(tokens[j]) {
        // the operator and the token after it
        j := j + 2;
        continue;
      }
      assert (argTokens + [tokens[j]]) + StripRedirects(Tail(tokens, j + 1))
             == argTokens + ([tokens[j]] + StripRedirects(Tail(tokens, j + 1)));
      argTokens := argTokens + [tokens[j]];
      j := j + 1;
    }
    assert Tail(tokens, j) == [];
  }

  /** One step of the backward scan. */
  lemma SeparatorStep(all: seq<RlToken>, i: nat)
    requires 0 < i <= |all|
    ensures IsSeparator(all[i - 1]) ==> AfterLastSeparator(all[..i]) == []
    ensures !IsSeparator(all[i - 1]) ==>
      AfterLastSeparator(all[..i]) + all[i..] == AfterLastSeparator(all[..i - 1]) + all[i - 1..]
  {
    assert all[..i][..i - 1] == all[..i - 1];
    assert all[i - 1..] == [all[i - 1]] + all[i..];
  }

  function Tail(tokens: seq<RlToken>, j: nat): seq<RlToken>
  {
    if j < |tokens| then tokens[j..] else []
  }

  /** One step of the argument scan. */
  lemma StripStep(tokens: seq<RlToken>, j: nat)
    requires j < |tokens|
    ensures IsRedirect(tokens[j]) ==> StripRedirects(Tail(tokens, j)) == StripRedirects(Tail(tokens, j + 2))
    ensures !IsRedirect(tokens[j]) ==> StripRedirects(Tail(tokens, j)) == [tokens[j]] + StripRedirects(Tail(tokens, j + 1))
  {
    assert tokens[j..][1..] == Tail(tokens, j + 1);
    if j + 1 < |tokens| {
      assert tokens[j..][2..] == Tail(tokens, j + 2);
    }
  }

  // ---------------------------------------------------------------------------
  // Properties
  // ---------------------------------------------------------------------------

  lemma {:induction false} AfterSeparatorAppend(a: seq<RlToken>, s: RlToken, b: seq<RlToken>)
    requires IsSeparator(s)
    ensures AfterLastSeparator(a + [s] + b) == AfterLastSeparator(b)
    decreases |b|
  {
    if b == [] {
      assert a + [s] + b == a + [s];
    } else {
      var t := a + [s] + b;
      assert t[..|t| - 1] == a + [s] + b[..|b| - 1];
      AfterSeparatorAppend(a, s, b[..|b| - 1]);
    }
  }

  /** Only the command after the last `|` or `;` matters. */
  lemma SeparatorResets(a: seq<RlToken>, s: RlToken, b: seq<RlToken>, endsWithWhitespace: bool)
    requires IsSeparator(s)
    ensures Comprehend(a + [s] + b, endsWithWhitespace) == Comprehend(b, endsWithWhitespace)
  {
    AfterSeparatorAppend(a, s, b);
    if b == [] {
      assert AfterLastSeparator(a + [s] + b) == [];
    }
  }

  /** Input ending in a redirect operator asks for a redirect target. */
  lemma {:induction false} TrailingRedirect(tokens: seq<RlToken>, endsWithWhitespace: bool)
    requires tokens != [] && IsRedirect(tokens[|tokens| - 1])
    ensures Comprehend(tokens, endsWithWhitespace) == Redirect(None)
  {
    assert tokens == tokens[..|tokens| - 1] + [tokens[|tokens| - 1]];
  }

  /**
   * A word right after a redirect operator, with the cursor still on it, is
   * a partial redirect target; after whitespace it is not.
   */
  lemma {:induction false} PartialRedirectTarget(cmd: seq<RlToken>, r: RlToken, w: string)
    requires IsRedirect(r) && forall k :: 0 <= k < |cmd| ==> !IsSeparator(cmd[k])
    ensures Comprehend(cmd + [r, Word(w)], false) == Redirect(Some(Word(w)))
    ensures cmd != [] && cmd[0].Word? ==>
      Comprehend(cmd + [r, Word(w)], true) == CommandInput(cmd[0].text, StripRedirects(cmd + [r, Word(w)]), true)
  {
    NoSeparator(cmd + [r, Word(w)]);
  }

  lemma {:induction false} NoSeparator(tokens: seq<RlToken>)
    requires forall k :: 0 <= k < |tokens| ==> !IsSeparator(tokens[k])
    ensures AfterLastSeparator(tokens) == tokens
    decreases |tokens|
  {
    if tokens != [] {
      NoSeparator(tokens[..|tokens| - 1]);
    }
  }

  /** A command's argument tokens start with its name and hold no redirect operators. */
  lemma {:induction false} CommandShape(tokens: seq<RlToken>, endsWithWhitespace: bool)
    requires Comprehend(tokens, endsWithWhitespace).CommandInput?
    ensures var c := Comprehend(tokens, endsWithWhitespace);
      && c.endsWithWhitespace == endsWithWhitespace
      && c.tokens != [] && c.tokens[0] == Word(c.id)
      && forall k :: 0 <= k < |c.tokens| ==> !IsRedirect(c.tokens[k]) && !IsSeparator(c.tokens[k])
  {
    var rest := AfterLastSeparator(tokens);
    AfterLastSeparatorShape(tokens);
    StripSubset(rest);
    var c := Comprehend(tokens, endsWithWhitespace);
    forall k | 0 <= k < |c.tokens|
      ensures !IsSeparator(c.tokens[k])
    {
      assert c.tokens[k] in rest;
    }
  }

  /** Every argument token is one of the tokens it came from. */
  lemma {:induction false} StripSubset(tokens: seq<RlToken>)
    ensures forall t :: t in StripRedirects(tokens) ==> t in tokens
    decreases |tokens|
  {
    if tokens != [] {
      if IsRedirect(tokens[0]) {
        if |tokens| > 1 {
          StripSubset(tokens[2..]);
          assert forall t :: t in tokens[2..] ==> t in tokens;
        }
      } else {
        StripSubset(tokens[1..]);
      }
    }
  }

  /** Without redirect operators every token is an argument token. */
  lemma {:induction false} StripWithoutRedirects(tokens: seq<RlToken>)
    requires forall k :: 0 <= k < |tokens| ==> !IsRedirect(tokens[k])
    ensures StripRedirects(tokens) == tokens
    decreases |tokens|
  {
    if tokens != [] {
      StripWithoutRedirects(tokens[1..]);
    }
  }

  /** A redirect operator and its target are dropped wherever they stand after the arguments before them. */
  lemma {:induction false} StripRedirectPair(a: seq<RlToken>, r: RlToken, target: RlToken, b: seq<RlToken>)
    requires IsRedirect(r) && forall k :: 0 <= k < |a| ==> !IsRedirect(a[k])
    ensures StripRedirects(a + [r, target] + b) == a + StripRedirects(b)
    decreases |a|
  {
    if a == [] {
      assert a + [r, target] + b == [r, target] + b;
      assert ([r, target] + b)[2..] == b;
    } else {
      assert (a + [r, target] + b)[1..] == a[1..] + [r, target] + b;
      StripRedirectPair(a[1..], r, target, b);
    }
  }
}
