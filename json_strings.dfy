/**
 * A reference grammar for what the `json-test` string recogniser accepts,
 * and lemmas tying the recogniser to it in both directions.
 */
module JsonStrings {
  import opened Common
  import opened JsonLexers

  /** One unit of string content between the quotes. */
  datatype StringPiece = Raw(b: Byte) | Escape(c: Byte) | Unicode(hex: seq<Byte>)

  predicate WellFormedPiece(x: StringPiece)
  {
    match x
    case Raw(b) => b != QUOTE && b != BACKSLASH
    case Escape(c) => EscapeOf(c).Some?
    case Unicode(h) => |h| == 4 && forall k :: 0 <= k < 4 ==> IsHexDigit(h[k])
  }

  function PieceText(x: StringPiece): seq<Byte>
  {
    match x
    case Raw(b) => [b]
    case Escape(c) => [BACKSLASH, c]
    case Unicode(h) => [BACKSLASH, LOWER_U] + h
  }

  /** The code unit a piece stands for; a malformed piece, which no lemma admits, stands for none. */
  function PieceValue(x: StringPiece): seq<CodeUnit>
  {
    match x
    case Raw(b) => [b]
    case Escape(c) => if EscapeOf(c).Some? then [EscapeOf(c).value] else []
    case Unicode(h) => if WellFormedPiece(x) then [HexQuadValue(h)] else []
  }

  function PiecesText(xs: seq<StringPiece>): seq<Byte>
  {
    if xs == [] then [] else PieceText(xs[0]) + PiecesText(xs[1..])
  }

  function PiecesValue(xs: seq<StringPiece>): seq<CodeUnit>
  {
    if xs == [] then [] else PieceValue(xs[0]) + PiecesValue(xs[1..])
  }

  /** A decoded text between quotes, as the string parser's node text. */
  function Quoted(v: seq<CodeUnit>): seq<CodeUnit>
  {
    [QUOTE] + v + [QUOTE]
  }

  /** One well-formed piece, with input left after it, is one step of the body loop. */
  lemma StringBodyPiece(s: seq<Byte>, p: nat, acc: seq<CodeUnit>, x: StringPiece)
    requires WellFormedPiece(x)
    requires p + |PieceText(x)| < |s| && s[p..p + |PieceText(x)|] == PieceText(x)
    ensures StringBody(s, p, acc) == StringBody(s, p + |PieceText(x)|, acc + PieceValue(x))
  {
    var t := PieceText(x);
    SliceAt(s, p, t);
    if x.Unicode? {
      assert s[p + 2..p + 6] == x.hex;
    }
  }

  /** Where `full` is `t` then `rest`, a slice spelling `full` and a quote splits after `t`. */
  lemma QuotedSplit(s: seq<Byte>, p: nat, t: seq<Byte>, rest: seq<Byte>, full: seq<Byte>)
    requires full == t + rest
    requires p + |full| < |s|
    requires s[p..p + |full| + 1] == full + [QUOTE]
    ensures p + |t| < |s| && s[p..p + |t|] == t
    ensures p + |t| + |rest| < |s| && s[p + |t|..p + |t| + |rest| + 1] == rest + [QUOTE]
  {
    assert full + [QUOTE] == t + (rest + [QUOTE]);
    SplitSlice(s, p, t, rest + [QUOTE]);
  }

  /** The pieces after the first are well formed, and their value follows the first's. */
  lemma PiecesTail(xs: seq<StringPiece>, acc: seq<CodeUnit>)
    requires xs != [] && forall k :: 0 <= k < |xs| ==> WellFormedPiece(xs[k])
    ensures forall k :: 0 <= k < |xs[1..]| ==> WellFormedPiece(xs[1..][k])
    ensures acc + PieceValue(xs[0]) + PiecesValue(xs[1..]) == acc + PiecesValue(xs)
    ensures |PiecesText(xs)| == |PieceText(xs[0])| + |PiecesText(xs[1..])|
  {
    assert PiecesValue(xs) == PieceValue(xs[0]) + PiecesValue(xs[1..]);
    forall k | 0 <= k < |xs[1..]|
      ensures WellFormedPiece(xs[1..][k])
    {
      assert xs[1..][k] == xs[k + 1];
    }
  }

  /** The pieces are spelled in `s` from `p` on, and a closing quote follows them. */
  predicate QuotedPiecesAt(s: seq<Byte>, p: nat, xs: seq<StringPiece>)
    decreases |xs|
  {
    if xs == [] then p < |s| && s[p] == QUOTE
    else
      var t := PieceText(xs[0]);
      p + |t| < |s| && s[p..p + |t|] == t && QuotedPiecesAt(s, p + |t|, xs[1..])
  }

  /** The first piece is spelled at `p`, and the rest are quoted after it. */
  lemma QuotedPiecesFirst(s: seq<Byte>, p: nat, xs: seq<StringPiece>)
    requires xs != [] && QuotedPiecesAt(s, p, xs)
    ensures p + |PieceText(xs[0])| < |s| && s[p..p + |PieceText(xs[0])|] == PieceText(xs[0])
    ensures QuotedPiecesAt(s, p + |PieceText(xs[0])|, xs[1..])
  {
  }

  /** The first piece spelled at `p` and the rest quoted after it: all of them quoted at `p`. */
  lemma QuotedPiecesCons(s: seq<Byte>, p: nat, xs: seq<StringPiece>)
    requires xs != []
    requires p + |PieceText(xs[0])| < |s| && s[p..p + |PieceText(xs[0])|] == PieceText(xs[0])
    requires QuotedPiecesAt(s, p + |PieceText(xs[0])|, xs[1..])
    ensures QuotedPiecesAt(s, p, xs)
  {
  }

  /** A slice spelling no pieces and a quote is the closing quote alone. */
  lemma QuotedNoPieces(s: seq<Byte>, p: nat, xs: seq<StringPiece>, t: seq<Byte>)
    requires xs == [] && t == PiecesText(xs)
    requires p + |t| < |s| && s[p..p + |t| + 1] == t + [QUOTE]
    ensures QuotedPiecesAt(s, p, xs)
  {
    assert s[p] == s[p..p + 1][0];
  }

  lemma PiecesTextCons(xs: seq<StringPiece>, t: seq<Byte>)
    requires xs != [] && t == PiecesText(xs)
    ensures t == PieceText(xs[0]) + PiecesText(xs[1..])
  {
  }

  /** A slice spelling the pieces (their text is `t`) and a quote is the pieces quoted at that place. */
  lemma {:induction false} QuotedPiecesFromSlice(s: seq<Byte>, p: nat, xs: seq<StringPiece>, t: seq<Byte>)
    requires t == PiecesText(xs)
    requires p + |t| < |s| && s[p..p + |t| + 1] == t + [QUOTE]
    ensures QuotedPiecesAt(s, p, xs)
    decreases |xs|
  {
    if xs == [] {
      QuotedNoPieces(s, p, xs, t);
    } else {
      PiecesTextCons(xs, t);
      QuotedSplit(s, p, PieceText(xs[0]), PiecesText(xs[1..]), t);
      QuotedPiecesFromSlice(s, p + |PieceText(xs[0])|, xs[1..], PiecesText(xs[1..]));
      QuotedPiecesCons(s, p, xs);
    }
  }

  /**
   * The body loop over quoted pieces decodes each of them and stops after the
   * quote: `text` and `end` are the decoded text and the stop position.
   */
  lemma {:induction false} StringBodyPieces(s: seq<Byte>, p: nat, acc: seq<CodeUnit>, xs: seq<StringPiece>,
                                            text: seq<CodeUnit>, end: nat)
    requires forall k :: 0 <= k < |xs| ==> WellFormedPiece(xs[k])
    requires QuotedPiecesAt(s, p, xs)
    requires text == acc + PiecesValue(xs) + [QUOTE] && end == p + |PiecesText(xs)| + 1
    ensures StringBody(s, p, acc) == Some((text, end))
    decreases |xs|
  {
    if xs == [] {
      assert acc + PiecesValue(xs) == acc;
    } else {
      PiecesTail(xs, acc);
      StringBodyFirstPiece(s, p, acc, xs);
      StringBodyPieces(s, p + |PieceText(xs[0])|, acc + PieceValue(xs[0]), xs[1..], text, end);
    }
  }

  /** The body loop reads the first of the quoted pieces and goes on with the rest. */
  lemma StringBodyFirstPiece(s: seq<Byte>, p: nat, acc: seq<CodeUnit>, xs: seq<StringPiece>)
    requires xs != [] && WellFormedPiece(xs[0]) && QuotedPiecesAt(s, p, xs)
    ensures StringBody(s, p, acc) == StringBody(s, p + |PieceText(xs[0])|, acc + PieceValue(xs[0]))
    ensures QuotedPiecesAt(s, p + |PieceText(xs[0])|, xs[1..])
  {
    QuotedPiecesFirst(s, p, xs);
    StringBodyPiece(s, p, acc, xs[0]);
  }

  /**
   * Round trip: a quoted sequence of well-formed pieces is recognised with
   * text `"` + decoded pieces + `"`, stopping right after the closing quote.
   * Raw pieces include control characters, which RFC 8259 forbids.
   */
  lemma StringLexPieces(s: seq<Byte>, i: nat, xs: seq<StringPiece>)
    requires forall k :: 0 <= k < |xs| ==> WellFormedPiece(xs[k])
    requires i + |PiecesText(xs)| + 2 <= |s|
    requires s[i..i + |PiecesText(xs)| + 2] == [QUOTE] + PiecesText(xs) + [QUOTE]
    ensures StringLex(s, i) == Some((Quoted(PiecesValue(xs)), i + |PiecesText(xs)| + 2))
  {
    StringLexQuotedPieces(s, i, xs, PiecesText(xs), Quoted(PiecesValue(xs)), i + |PiecesText(xs)| + 2);
  }

  /** `StringLexPieces` with the pieces' text `t`, and the text and stop position it promises, named. */
  lemma StringLexQuotedPieces(s: seq<Byte>, i: nat, xs: seq<StringPiece>, t: seq<Byte>, text: seq<CodeUnit>, end: nat)
    requires forall k :: 0 <= k < |xs| ==> WellFormedPiece(xs[k])
    requires t == PiecesText(xs) && i + |t| + 2 <= |s| && s[i..i + |t| + 2] == [QUOTE] + t + [QUOTE]
    requires text == Quoted(PiecesValue(xs)) && end == i + |t| + 2
    ensures StringLex(s, i) == Some((text, end))
  {
    QuotedStringAt(s, i, xs, t);
    StringBodyPieces(s, i + 1, [QUOTE], xs, text, end);
  }

  /** A quote, the pieces (their text is `t`) and a quote at `i`: the opening quote, then the pieces quoted. */
  lemma QuotedStringAt(s: seq<Byte>, i: nat, xs: seq<StringPiece>, t: seq<Byte>)
    requires t == PiecesText(xs) && i + |t| + 2 <= |s| && s[i..i + |t| + 2] == [QUOTE] + t + [QUOTE]
    ensures s[i] == QUOTE && QuotedPiecesAt(s, i + 1, xs)
  {
    QuotedSlice(s, i, t);
    QuotedPiecesFromSlice(s, i + 1, xs, t);
  }

  /** Text between quotes: the opening quote, then the text and the closing quote. */
  lemma QuotedSlice(s: seq<Byte>, i: nat, t: seq<Byte>)
    requires i + |t| + 2 <= |s|
    requires s[i..i + |t| + 2] == [QUOTE] + t + [QUOTE]
    ensures s[i] == QUOTE && i + 1 + |t| < |s| && s[i + 1..i + 1 + |t| + 1] == t + [QUOTE]
  {
    assert [QUOTE] + t + [QUOTE] == [QUOTE] + (t + [QUOTE]);
    SplitSlice(s, i, [QUOTE], t + [QUOTE]);
    assert s[i] == s[i..i + 1][0];
  }

  /** Anything the body accepts ends with a quote, in the input and in the text. */
  lemma {:induction false} StringBodyEndsAtQuote(s: seq<Byte>, p: nat, acc: seq<CodeUnit>)
    requires StringBody(s, p, acc).Some?
    ensures var (text, e) := StringBody(s, p, acc).value;
      p < e <= |s| && s[e - 1] == QUOTE && |text| > |acc| && text[..|acc|] == acc && text[|text| - 1] == QUOTE
    decreases |s| - p
  {
    if s[p] == QUOTE {
    } else if s[p] == BACKSLASH {
      if EscapeOf(s[p + 1]).Some? {
        var acc' := acc + [EscapeOf(s[p + 1]).value];
        StringBodyEndsAtQuote(s, p + 2, acc');
        assert acc'[..|acc|] == acc;
      } else {
        var acc' := acc + [HexQuadValue(s[p + 2..p + 6])];
        StringBodyEndsAtQuote(s, p + 6, acc');
        assert acc'[..|acc|] == acc;
      }
    } else {
      StringBodyEndsAtQuote(s, p + 1, acc + [s[p]]);
      assert (acc + [s[p]])[..|acc|] == acc;
    }
  }

  /** A recognised string starts and ends with '"' in the text and in the input. */
  lemma StringLexQuoted(s: seq<Byte>, i: nat)
    requires StringLex(s, i).Some?
    ensures var (text, e) := StringLex(s, i).value;
      i + 2 <= e <= |s| && s[i] == QUOTE && s[e - 1] == QUOTE
      && |text| >= 2 && text[0] == QUOTE && text[|text| - 1] == QUOTE
  {
    StringBodyEndsAtQuote(s, i + 1, [QUOTE]);
  }

  /** Without a '"' after the opening one, nothing is recognised. */
  lemma UnterminatedStringFails(s: seq<Byte>, i: nat)
    requires forall k :: i < k < |s| ==> s[k] != QUOTE
    ensures StringLex(s, i).None?
  {
    if StringLex(s, i).Some? {
      StringLexQuoted(s, i);
    }
  }

  /** `\n`, `\r` and `\t` spelled with letters are invalid escapes. */
  lemma LetterEscapesFail(s: seq<Byte>, p: nat, acc: seq<CodeUnit>)
    requires p + 1 < |s| && s[p] == BACKSLASH
    requires s[p + 1] == 0x6E || s[p + 1] == 0x72 || s[p + 1] == 0x74
    ensures StringBody(s, p, acc).None?
  {
  }

  /** `\u` with a non-hex byte among the next four fails. */
  lemma ShortUnicodeEscapeFails(s: seq<Byte>, p: nat, acc: seq<CodeUnit>, j: nat)
    requires p + 1 < |s| && s[p] == BACKSLASH && s[p + 1] == LOWER_U
    requires p + 2 <= j < p + 6 && j < |s| && !IsHexDigit(s[j])
    ensures StringBody(s, p, acc).None?
  {
  }

  /** Input ending right after the four hex digits of `\u` fails. */
  lemma UnicodeEscapeAtEndFails(s: seq<Byte>, p: nat, acc: seq<CodeUnit>)
    requires p + 6 == |s| && s[p] == BACKSLASH && s[p + 1] == LOWER_U
    ensures StringBody(s, p, acc).None?
  {
  }

  // ---------------------------------------------------------------------------
  // Soundness: what the body loop accepts is a quoted sequence of pieces
  // ---------------------------------------------------------------------------

  /** The pieces the body loop reads from `p` on, up to the first stray quote or the point where it gives up. */
  function BodyPieces(s: seq<Byte>, p: nat): seq<StringPiece>
    decreases |s| - p
  {
    if p >= |s| || s[p] == QUOTE then []
    else if s[p] == BACKSLASH then
      if p + 1 >= |s| then []
      else if EscapeOf(s[p + 1]).Some? then [Escape(s[p + 1])] + BodyPieces(s, p + 2)
      else if p + 6 <= |s| then [Unicode(s[p + 2..p + 6])] + BodyPieces(s, p + 6)
      else []
    else [Raw(s[p])] + BodyPieces(s, p + 1)
  }

  /**
   * Whatever the body loop accepts from `p` is the pieces it reads, all well
   * formed and followed by the closing quote; the text is their decoding.
   */
  lemma {:induction false} StringBodySound(s: seq<Byte>, p: nat, acc: seq<CodeUnit>, text: seq<CodeUnit>, e: nat)
    requires StringBody(s, p, acc) == Some((text, e))
    ensures forall k :: 0 <= k < |BodyPieces(s, p)| ==> WellFormedPiece(BodyPieces(s, p)[k])
    ensures QuotedPiecesAt(s, p, BodyPieces(s, p))
    ensures text == acc + PiecesValue(BodyPieces(s, p)) + [QUOTE]
    ensures e == p + |PiecesText(BodyPieces(s, p))| + 1
    decreases |s| - p, 1
  {
    if s[p] == QUOTE {
      assert acc + PiecesValue(BodyPieces(s, p)) == acc;
    } else if s[p] != BACKSLASH {
      BodyPiecesRaw(s, p, acc);
      StringBodySoundAfter(s, p, acc, Raw(s[p]), BodyPieces(s, p), BodyPieces(s, p + 1), text, e);
    } else if EscapeOf(s[p + 1]).Some? {
      BodyPiecesEscape(s, p, acc);
      StringBodySoundAfter(s, p, acc, Escape(s[p + 1]), BodyPieces(s, p), BodyPieces(s, p + 2), text, e);
    } else {
      BodyPiecesUnicode(s, p, acc);
      StringBodySoundAfter(s, p, acc, Unicode(s[p + 2..p + 6]), BodyPieces(s, p), BodyPieces(s, p + 6), text, e);
    }
  }

  /** `StringBodySound` once the first piece `x` is known to be spelled at `p`, ahead of the pieces `rest`. */
  lemma {:induction false} StringBodySoundAfter(s: seq<Byte>, p: nat, acc: seq<CodeUnit>, x: StringPiece,
                                                xs: seq<StringPiece>, rest: seq<StringPiece>,
                                                text: seq<CodeUnit>, e: nat)
    requires WellFormedPiece(x) && p + |PieceText(x)| < |s| && s[p..p + |PieceText(x)|] == PieceText(x)
    requires xs == BodyPieces(s, p) && rest == BodyPieces(s, p + |PieceText(x)|) && xs == [x] + rest
    requires StringBody(s, p + |PieceText(x)|, acc + PieceValue(x)) == Some((text, e))
    ensures forall k :: 0 <= k < |xs| ==> WellFormedPiece(xs[k])
    ensures QuotedPiecesAt(s, p, xs)
    ensures text == acc + PiecesValue(xs) + [QUOTE]
    ensures e == p + |PiecesText(xs)| + 1
    decreases |s| - p, 0
  {
    assert xs[0] == x && xs[1..] == rest;
    StringBodySound(s, p + |PieceText(x)|, acc + PieceValue(x), text, e);
    PiecesTail(xs, acc);
    QuotedPiecesCons(s, p, xs);
  }

  /** A raw byte that is not the last: one piece of one byte. */
  lemma BodyPiecesRaw(s: seq<Byte>, p: nat, acc: seq<CodeUnit>)
    requires StringBody(s, p, acc).Some? && s[p] != QUOTE && s[p] != BACKSLASH
    ensures p + 1 < |s| && s[p..p + 1] == [s[p]]
    ensures BodyPieces(s, p) == [Raw(s[p])] + BodyPieces(s, p + 1)
    ensures StringBody(s, p, acc) == StringBody(s, p + 1, acc + [s[p]])
  {
  }

  /** A table escape with a byte after it: one piece of two bytes. */
  lemma BodyPiecesEscape(s: seq<Byte>, p: nat, acc: seq<CodeUnit>)
    requires StringBody(s, p, acc).Some? && s[p] == BACKSLASH && EscapeOf(s[p + 1]).Some?
    ensures p + 2 < |s| && s[p..p + 2] == [BACKSLASH, s[p + 1]]
    ensures BodyPieces(s, p) == [Escape(s[p + 1])] + BodyPieces(s, p + 2)
    ensures StringBody(s, p, acc) == StringBody(s, p + 2, acc + [EscapeOf(s[p + 1]).value])
  {
  }

  /** Any other escape the loop gets past is `\u` and four hex digits: one piece of six bytes. */
  lemma BodyPiecesUnicode(s: seq<Byte>, p: nat, acc: seq<CodeUnit>)
    requires StringBody(s, p, acc).Some? && s[p] == BACKSLASH && EscapeOf(s[p + 1]).None?
    ensures p + 6 < |s| && s[p..p + 6] == [BACKSLASH, LOWER_U] + s[p + 2..p + 6]
    ensures WellFormedPiece(Unicode(s[p + 2..p + 6]))
    ensures BodyPieces(s, p) == [Unicode(s[p + 2..p + 6])] + BodyPieces(s, p + 6)
    ensures StringBody(s, p, acc) == StringBody(s, p + 6, acc + [HexQuadValue(s[p + 2..p + 6])])
  {
    assert s[p..p + 6] == [BACKSLASH, LOWER_U] + s[p + 2..p + 6];
  }

  /** Pieces quoted at `p` (their text is `full`): the input there spells them and then the closing quote. */
  lemma {:induction false} QuotedPiecesToSlice(s: seq<Byte>, p: nat, xs: seq<StringPiece>, full: seq<Byte>)
    requires QuotedPiecesAt(s, p, xs) && full == PiecesText(xs)
    ensures p + |full| < |s| && s[p..p + |full| + 1] == full + [QUOTE]
    decreases |xs|, 1
  {
    if xs == [] {
      QuotedNoPiecesToSlice(s, p, xs, full);
    } else {
      PiecesTextCons(xs, full);
      QuotedPiecesFirst(s, p, xs);
      QuotedConsToSlice(s, p, xs[1..], PieceText(xs[0]), PiecesText(xs[1..]), full);
    }
  }

  /** No pieces quoted at `p`: the closing quote alone. */
  lemma QuotedNoPiecesToSlice(s: seq<Byte>, p: nat, xs: seq<StringPiece>, full: seq<Byte>)
    requires xs == [] && full == PiecesText(xs) && QuotedPiecesAt(s, p, xs)
    ensures p + |full| < |s| && s[p..p + |full| + 1] == full + [QUOTE]
  {
    assert s[p..p + 1] == [s[p]];
  }

  /** `QuotedPiecesToSlice` for a first piece spelling `t`, ahead of the pieces `rest` spelling `r`. */
  lemma {:induction false} QuotedConsToSlice(s: seq<Byte>, p: nat, rest: seq<StringPiece>, t: seq<Byte>,
                                             r: seq<Byte>, full: seq<Byte>)
    requires r == PiecesText(rest) && full == t + r
    requires p + |t| < |s| && s[p..p + |t|] == t && QuotedPiecesAt(s, p + |t|, rest)
    ensures p + |full| < |s| && s[p..p + |full| + 1] == full + [QUOTE]
    decreases |rest| + 1, 0
  {
    QuotedPiecesToSlice(s, p + |t|, rest, r);
    QuotedJoin(s, p, t, r, full);
  }

  /** The converse of `QuotedSplit`: `t` spelled at `p` and `rest` with a quote after it spell `full` with a quote. */
  lemma QuotedJoin(s: seq<Byte>, p: nat, t: seq<Byte>, rest: seq<Byte>, full: seq<Byte>)
    requires full == t + rest
    requires p + |t| < |s| && s[p..p + |t|] == t
    requires p + |t| + |rest| < |s| && s[p + |t|..p + |t| + |rest| + 1] == rest + [QUOTE]
    ensures p + |full| < |s| && s[p..p + |full| + 1] == full + [QUOTE]
  {
    JoinSlices(s, p, t, rest + [QUOTE]);
    assert t + (rest + [QUOTE]) == full + [QUOTE];
  }

  /** Two adjacent slices spelling `a` and `b` spell `a + b`. */
  lemma JoinSlices(s: seq<Byte>, p: nat, a: seq<Byte>, b: seq<Byte>)
    requires p + |a| + |b| <= |s| && s[p..p + |a|] == a && s[p + |a|..p + |a| + |b|] == b
    ensures s[p..p + |a| + |b|] == a + b
  {
    assert s[p..p + |a| + |b|] == s[p..p + |a|] + s[p + |a|..p + |a| + |b|];
  }

  /**
   * Soundness, the converse of `StringLexPieces`: a recognised string is a
   * quote, well-formed pieces and a quote, and its text is their decoding
   * between quotes. So an invalid escape, or input that ends before a
   * closing quote that is not part of an escape, is never recognised.
   */
  lemma StringLexSound(s: seq<Byte>, i: nat, text: seq<CodeUnit>, e: nat)
    requires StringLex(s, i) == Some((text, e))
    ensures var xs := BodyPieces(s, i + 1);
      && (forall k :: 0 <= k < |xs| ==> WellFormedPiece(xs[k]))
      && e == i + |PiecesText(xs)| + 2 <= |s|
      && s[i..e] == [QUOTE] + PiecesText(xs) + [QUOTE]
      && text == Quoted(PiecesValue(xs))
  {
    StringLexSoundAt(s, i, text, e, BodyPieces(s, i + 1), PiecesText(BodyPieces(s, i + 1)));
  }

  /** `StringLexSound` with the pieces `xs` and their text `t` named. */
  lemma StringLexSoundAt(s: seq<Byte>, i: nat, text: seq<CodeUnit>, e: nat, xs: seq<StringPiece>, t: seq<Byte>)
    requires i < |s| && s[i] == QUOTE && StringBody(s, i + 1, [QUOTE]) == Some((text, e))
    requires xs == BodyPieces(s, i + 1) && t == PiecesText(xs)
    ensures (forall k :: 0 <= k < |xs| ==> WellFormedPiece(xs[k]))
      && e == i + |t| + 2 <= |s|
      && s[i..e] == [QUOTE] + t + [QUOTE]
      && text == Quoted(PiecesValue(xs))
  {
    StringBodySound(s, i + 1, [QUOTE], text, e);
    QuotedStringSlice(s, i, xs, t, e);
  }

  /** A quote, then pieces quoted after it: the input from the first quote to `e` spells them between quotes. */
  lemma QuotedStringSlice(s: seq<Byte>, i: nat, xs: seq<StringPiece>, t: seq<Byte>, e: nat)
    requires i < |s| && s[i] == QUOTE && QuotedPiecesAt(s, i + 1, xs)
    requires t == PiecesText(xs) && e == i + |t| + 2
    ensures e <= |s| && s[i..e] == [QUOTE] + t + [QUOTE]
  {
    QuotedPiecesToSlice(s, i + 1, xs, t);
    OpenQuoteSlice(s, i, t);
  }

  /** The opening quote followed by a text and its closing quote. */
  lemma OpenQuoteSlice(s: seq<Byte>, i: nat, t: seq<Byte>)
    requires i < |s| && s[i] == QUOTE
    requires i + 1 + |t| < |s| && s[i + 1..i + 1 + |t| + 1] == t + [QUOTE]
    ensures s[i..i + |t| + 2] == [QUOTE] + t + [QUOTE]
  {
    assert s[i..i + |t| + 2] == [s[i]] + s[i + 1..i + 1 + |t| + 1];
  }

  /** An escape that is neither a table key nor `u` fails, whatever follows. */
  lemma InvalidEscapeFails(s: seq<Byte>, p: nat, acc: seq<CodeUnit>)
    requires p + 1 < |s| && s[p] == BACKSLASH && EscapeOf(s[p + 1]).None? && s[p + 1] != LOWER_U
    ensures StringBody(s, p, acc).None?
  {
  }

  /** `"a\"` ending the input: the last quote is escaped, so the string never closes. */
  lemma EscapedQuoteAtEndFails()
    ensures StringLex([QUOTE, 0x61, BACKSLASH, QUOTE], 0).None?
  {
    var s: seq<Byte> := [QUOTE, 0x61, BACKSLASH, QUOTE];
    assert StringBody(s, 2, [QUOTE, 0x61]).None?;
    assert StringBody(s, 1, [QUOTE]) == StringBody(s, 2, [QUOTE, 0x61]);
  }
}
