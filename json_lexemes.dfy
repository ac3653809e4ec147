/**
 * A reference grammar for what the `json-test` number recogniser accepts,
 * and lemmas tying the recogniser to it in both directions, together with the places where the code departs from
 * RFC 8259.
 */
module JsonLexemes {
  import opened Common
  import opened JsonLexers

  // ---------------------------------------------------------------------------
  // Numbers
  // ---------------------------------------------------------------------------

  /** The integer part; the code lets it be absent (the digit branch has no else). */
  datatype IntegerPart = NoInteger | Zero | Digits(digits: seq<Byte>)

  datatype Exponent = Exponent(marker: Byte, sign: Option<Byte>, digits: seq<Byte>)

  /** `-`? integer fraction? exponent?, as the code accepts it. */
  datatype NumberLexeme = NumberLexeme(
    negative: bool, integer: IntegerPart, fraction: Option<seq<Byte>>, exponent: Option<Exponent>)

  predicate AllDigits(d: seq<Byte>)
  {
    forall k :: 0 <= k < |d| ==> IsDigit(d[k])
  }

  function IntegerText(ip: IntegerPart): seq<Byte>
  {
    match ip
    case NoInteger => []
    case Zero => [ZERO]
    case Digits(d) => d
  }

  function ExponentText(x: Exponent): seq<Byte>
  {
    [x.marker] + (if x.sign.Some? then [x.sign.value] else []) + x.digits
  }

  function SignText(negative: bool): seq<Byte>
  {
    if negative then [MINUS] else []
  }

  function FractionText(f: Option<seq<Byte>>): seq<Byte>
  {
    if f.Some? then [DOT] + f.value else []
  }

  function ExponentPartText(x: Option<Exponent>): seq<Byte>
  {
    if x.Some? then ExponentText(x.value) else []
  }

  function Spell(n: NumberLexeme): seq<Byte>
  {
    SignText(n.negative) + IntegerText(n.integer) + FractionText(n.fraction) + ExponentPartText(n.exponent)
  }

  predicate WellFormedInteger(ip: IntegerPart)
  {
    ip.Digits? ==> |ip.digits| >= 1 && IsStartDigit(ip.digits[0]) && AllDigits(ip.digits)
  }

  predicate WellFormedFraction(f: Option<seq<Byte>>)
  {
    f.Some? ==> |f.value| >= 1 && AllDigits(f.value)
  }

  predicate WellFormedExponent(x: Exponent)
  {
    && (x.marker == LOWER_E || x.marker == UPPER_E)
    && (x.sign.Some? ==> x.sign.value == PLUS || x.sign.value == MINUS)
    && |x.digits| >= 1 && AllDigits(x.digits)
  }

  /** A lexeme of the language the code accepts: never empty. */
  predicate WellFormed(n: NumberLexeme)
  {
    && WellFormedInteger(n.integer)
    && WellFormedFraction(n.fraction)
    && (n.exponent.Some? ==> WellFormedExponent(n.exponent.value))
    && Spell(n) != []
  }

  /** The number grammar of RFC 8259, section 6: the integer part is required. */
  predicate IsRfcNumber(n: NumberLexeme)
  {
    WellFormed(n) && !n.integer.NoInteger?
  }

  /** A byte that cannot continue any number lexeme. */
  predicate EndsNumber(b: Byte)
  {
    !IsDigit(b) && b != DOT && b != LOWER_E && b != UPPER_E
  }

  /** A digit run in `s` from `p` stopped by a non-digit or the end stops `DigitEnd` there. */
  lemma {:induction false} DigitEndOfRun(s: seq<Byte>, p: nat, m: nat)
    requires p + m <= |s|
    requires forall k :: p <= k < p + m ==> IsDigit(s[k])
    requires p + m < |s| ==> !IsDigit(s[p + m])
    ensures DigitEnd(s, p) == p + m
    decreases m
  {
    if m > 0 {
      DigitEndOfRun(s, p + 1, m - 1);
    }
  }

  lemma IntegerEndOf(s: seq<Byte>, i: nat, negative: bool, ip: IntegerPart)
    requires WellFormedInteger(ip)
    requires i + |SignText(negative) + IntegerText(ip)| < |s|
    requires s[i..i + |SignText(negative) + IntegerText(ip)|] == SignText(negative) + IntegerText(ip)
    requires !IsDigit(s[i + |SignText(negative) + IntegerText(ip)|])
    requires !negative ==> s[i] != MINUS
    ensures IntegerEnd(s, i) == Some(i + |SignText(negative) + IntegerText(ip)|)
  {
    var sign := SignText(negative);
    var it := IntegerText(ip);
    var p := i + |sign|;
    SliceAt(s, i, sign + it);
    assert forall k :: p <= k < p + |it| ==> s[k] == it[k - p];
    if ip.Digits? {
      DigitEndOfRun(s, p, |it|);
    }
  }

  lemma FractionEndOf(s: seq<Byte>, q: nat, f: Option<seq<Byte>>)
    requires WellFormedFraction(f)
    requires q + |FractionText(f)| < |s|
    requires s[q..q + |FractionText(f)|] == FractionText(f)
    requires !IsDigit(s[q + |FractionText(f)|])
    requires f.None? ==> s[q] != DOT
    ensures FractionEnd(s, q) == Some(q + |FractionText(f)|)
  {
    if f.Some? {
      var d := f.value;
      SliceAt(s, q, FractionText(f));
      assert forall k :: q + 1 <= k < q + 1 + |d| ==> s[k] == d[k - q - 1];
      DigitEndOfRun(s, q + 1, |d|);
    }
  }

  lemma ExponentEndOf(s: seq<Byte>, q: nat, x: Option<Exponent>)
    requires x.Some? ==> WellFormedExponent(x.value)
    requires q + |ExponentPartText(x)| < |s|
    requires s[q..q + |ExponentPartText(x)|] == ExponentPartText(x)
    requires !IsDigit(s[q + |ExponentPartText(x)|])
    requires x.None? ==> s[q] != LOWER_E && s[q] != UPPER_E
    ensures ExponentEnd(s, q) == Some(q + |ExponentPartText(x)|)
  {
    if x.Some? {
      var t := ExponentPartText(x);
      var h := if x.value.sign.Some? then 2 else 1;
      var d := x.value.digits;
      assert t == [x.value.marker] + (if x.value.sign.Some? then [x.value.sign.value] else []) + d;
      SliceAt(s, q, t);
      assert forall k :: q + h <= k < q + h + |d| ==> s[k] == d[k - q - h];
      DigitEndOfRun(s, q + h, |d|);
    }
  }

  /** Where the integer and fraction parts of `n` end when spelled from `i`. */
  function IntegerStop(i: nat, n: NumberLexeme): nat
  {
    i + |SignText(n.negative) + IntegerText(n.integer)|
  }

  function FractionStop(i: nat, n: NumberLexeme): nat
  {
    IntegerStop(i, n) + |FractionText(n.fraction)|
  }

  /** Where `n` spelled from `i` sits in `s`, part by part. */
  lemma SpelledSlices(s: seq<Byte>, i: nat, n: NumberLexeme)
    requires i + |Spell(n)| < |s| && s[i..i + |Spell(n)|] == Spell(n)
    ensures FractionStop(i, n) + |ExponentPartText(n.exponent)| == i + |Spell(n)|
    ensures s[i..IntegerStop(i, n)] == SignText(n.negative) + IntegerText(n.integer)
    ensures s[IntegerStop(i, n)..FractionStop(i, n)] == FractionText(n.fraction)
    ensures s[FractionStop(i, n)..i + |Spell(n)|] == ExponentPartText(n.exponent)
  {
    SplitSlice3(s, i, SignText(n.negative) + IntegerText(n.integer), FractionText(n.fraction), ExponentPartText(n.exponent));
  }

  /** How each non-empty part of a well-formed lexeme starts: a digit (without '-'), '.', or 'e'/'E'. */
  lemma PartHeads(n: NumberLexeme)
    requires WellFormed(n)
    ensures var si := SignText(n.negative) + IntegerText(n.integer);
      !n.negative && si != [] ==> IsDigit(si[0])
    ensures FractionText(n.fraction) != [] ==> FractionText(n.fraction)[0] == DOT
    ensures ExponentPartText(n.exponent) != [] ==>
      ExponentPartText(n.exponent)[0] == LOWER_E || ExponentPartText(n.exponent)[0] == UPPER_E
  {
  }

  /** Which bytes follow each part of `n` spelled from `i` in `s`. */
  lemma SpelledBoundaries(s: seq<Byte>, i: nat, n: NumberLexeme)
    requires WellFormed(n)
    requires i + |Spell(n)| < |s| && s[i..i + |Spell(n)|] == Spell(n)
    requires EndsNumber(s[i + |Spell(n)|])
    ensures !IsDigit(s[IntegerStop(i, n)]) && (n.fraction.None? ==> s[IntegerStop(i, n)] != DOT)
    ensures !IsDigit(s[FractionStop(i, n)])
    ensures n.exponent.None? ==> s[FractionStop(i, n)] != LOWER_E && s[FractionStop(i, n)] != UPPER_E
    ensures !n.negative ==> s[i] != MINUS
  {
    SpelledSlices(s, i, n);
    PartHeads(n);
    BoundaryBytes(s, i, IntegerStop(i, n), FractionStop(i, n), i + |Spell(n)|, n.negative,
                  SignText(n.negative) + IntegerText(n.integer), FractionText(n.fraction), ExponentPartText(n.exponent));
  }

  /**
   * `SpelledBoundaries` over the three parts `si`, `ft` and `xt`, spelled
   * from `i` to `q`, `q` to `q'` and `q'` to `e`.
   */
  lemma BoundaryBytes(s: seq<Byte>, i: nat, q: nat, q': nat, e: nat, negative: bool,
                      si: seq<Byte>, ft: seq<Byte>, xt: seq<Byte>)
    requires i <= q <= q' <= e < |s| && s[i..q] == si && s[q..q'] == ft && s[q'..e] == xt
    requires si != [] || ft != [] || xt != []
    requires !negative && si != [] ==> IsDigit(si[0])
    requires ft != [] ==> ft[0] == DOT
    requires xt != [] ==> xt[0] == LOWER_E || xt[0] == UPPER_E
    requires EndsNumber(s[e])
    ensures !IsDigit(s[q]) && (ft == [] ==> s[q] != DOT)
    ensures !IsDigit(s[q'])
    ensures xt == [] ==> s[q'] != LOWER_E && s[q'] != UPPER_E
    ensures !negative ==> s[i] != MINUS
  {
    HeadOrNext(s, q', e, xt);
    HeadOrNext(s, q, q', ft);
    HeadOrNext(s, i, q, si);
  }

  /**
   * Completeness: every well-formed lexeme, followed by a byte that cannot
   * continue it, is recognised exactly, wherever it starts.
   */
  lemma NumberEndComplete(s: seq<Byte>, i: nat, n: NumberLexeme)
    requires WellFormed(n)
    requires i + |Spell(n)| < |s| && s[i..i + |Spell(n)|] == Spell(n)
    requires EndsNumber(s[i + |Spell(n)|])
    ensures NumberEnd(s, i) == Some(i + |Spell(n)|)
  {
    SpelledSteps(s, i, n);
    NumberEndOfSteps(s, i, IntegerStop(i, n), FractionStop(i, n), i + |Spell(n)|);
  }

  /** Each of the three steps stops where the corresponding part of `n` ends. */
  lemma SpelledSteps(s: seq<Byte>, i: nat, n: NumberLexeme)
    requires WellFormed(n)
    requires i + |Spell(n)| < |s| && s[i..i + |Spell(n)|] == Spell(n)
    requires EndsNumber(s[i + |Spell(n)|])
    ensures IntegerStop(i, n) <= FractionStop(i, n) <= i + |Spell(n)|
    ensures IntegerEnd(s, i) == Some(IntegerStop(i, n))
    ensures FractionEnd(s, IntegerStop(i, n)) == Some(FractionStop(i, n))
    ensures ExponentEnd(s, FractionStop(i, n)) == Some(i + |Spell(n)|)
  {
    SpelledIntegerStep(s, i, n);
    SpelledFractionStep(s, i, n);
    SpelledExponentStep(s, i, n);
  }

  lemma SpelledIntegerStep(s: seq<Byte>, i: nat, n: NumberLexeme)
    requires WellFormed(n)
    requires i + |Spell(n)| < |s| && s[i..i + |Spell(n)|] == Spell(n)
    requires EndsNumber(s[i + |Spell(n)|])
    ensures IntegerStop(i, n) <= FractionStop(i, n) <= i + |Spell(n)|
    ensures IntegerEnd(s, i) == Some(IntegerStop(i, n))
  {
    SpelledSlices(s, i, n);
    SpelledBoundaries(s, i, n);
    IntegerEndOf(s, i, n.negative, n.integer);
  }

  lemma SpelledFractionStep(s: seq<Byte>, i: nat, n: NumberLexeme)
    requires WellFormed(n)
    requires i + |Spell(n)| < |s| && s[i..i + |Spell(n)|] == Spell(n)
    requires EndsNumber(s[i + |Spell(n)|])
    ensures FractionStop(i, n) <= i + |Spell(n)|
    ensures FractionEnd(s, IntegerStop(i, n)) == Some(FractionStop(i, n))
  {
    SpelledSlices(s, i, n);
    SpelledBoundaries(s, i, n);
    FractionEndOf(s, IntegerStop(i, n), n.fraction);
  }

  lemma SpelledExponentStep(s: seq<Byte>, i: nat, n: NumberLexeme)
    requires WellFormed(n)
    requires i + |Spell(n)| < |s| && s[i..i + |Spell(n)|] == Spell(n)
    requires EndsNumber(s[i + |Spell(n)|])
    ensures FractionStop(i, n) <= i + |Spell(n)|
    ensures ExponentEnd(s, FractionStop(i, n)) == Some(i + |Spell(n)|)
  {
    SpelledSlices(s, i, n);
    SpelledBoundaries(s, i, n);
    ExponentEndOf(s, FractionStop(i, n), n.exponent);
  }

  lemma NumberEndOfSteps(s: seq<Byte>, i: nat, q: nat, q': nat, e: nat)
    requires i < |s| && IntegerEnd(s, i) == Some(q)
    requires q <= |s| && FractionEnd(s, q) == Some(q')
    requires q' <= |s| && ExponentEnd(s, q') == Some(e)
    requires e != i
    ensures NumberEnd(s, i) == Some(e)
  {
  }

  /** The lexeme the recogniser's three steps delimit in `s[i..]`. */
  function LexemeAt(s: seq<Byte>, i: nat): NumberLexeme
    requires i <= |s| && NumberEnd(s, i).Some?
  {
    var e := NumberEnd(s, i).value;
    var q := IntegerEnd(s, i).value;
    var q' := FractionEnd(s, q).value;
    NumberLexeme(s[i] == MINUS, IntegerAt(s, i, q), FractionAt(s, q, q'), ExponentAt(s, q', e))
  }

  /** The integer part between the optional '-' at `i` and `q`. */
  function IntegerAt(s: seq<Byte>, i: nat, q: nat): IntegerPart
    requires i < |s| && IntegerEnd(s, i) == Some(q)
  {
    var p := if s[i] == MINUS then i + 1 else i;
    if q == p then NoInteger
    else if s[p] == ZERO then Zero
    else Digits(s[p..q])
  }

  /** The fraction digits between `q` and `q'`, if any. */
  function FractionAt(s: seq<Byte>, q: nat, q': nat): Option<seq<Byte>>
    requires q <= |s| && FractionEnd(s, q) == Some(q')
  {
    if q' == q then None else Some(s[q + 1..q'])
  }

  /** The exponent between `q'` and `e`, if any. */
  function ExponentAt(s: seq<Byte>, q': nat, e: nat): Option<Exponent>
    requires q' <= |s| && ExponentEnd(s, q') == Some(e)
  {
    if e == q' then None
    else
      var signed := s[q' + 1] == PLUS || s[q' + 1] == MINUS;
      var d := if signed then q' + 2 else q' + 1;
      Some(Exponent(s[q'], if signed then Some(s[q' + 1]) else None, s[d..e]))
  }

  lemma IntegerAtSound(s: seq<Byte>, i: nat, q: nat)
    requires i < |s| && IntegerEnd(s, i) == Some(q)
    ensures WellFormedInteger(IntegerAt(s, i, q))
    ensures SignText(s[i] == MINUS) + IntegerText(IntegerAt(s, i, q)) == s[i..q]
  {
    var p := if s[i] == MINUS then i + 1 else i;
    assert SignText(s[i] == MINUS) == s[i..p];
    assert IntegerText(IntegerAt(s, i, q)) == s[p..q];
    assert s[i..q] == s[i..p] + s[p..q];
  }

  lemma FractionAtSound(s: seq<Byte>, q: nat, q': nat)
    requires q <= |s| && FractionEnd(s, q) == Some(q')
    ensures WellFormedFraction(FractionAt(s, q, q'))
    ensures FractionText(FractionAt(s, q, q')) == s[q..q']
  {
    if q' != q {
      assert s[q..q'] == [s[q]] + s[q + 1..q'];
    }
  }

  lemma ExponentAtSound(s: seq<Byte>, q': nat, e: nat)
    requires q' <= |s| && ExponentEnd(s, q') == Some(e)
    ensures ExponentAt(s, q', e).Some? ==> WellFormedExponent(ExponentAt(s, q', e).value)
    ensures ExponentPartText(ExponentAt(s, q', e)) == s[q'..e]
  {
    if e != q' {
      var x := ExponentAt(s, q', e).value;
      var h := if x.sign.Some? then 2 else 1;
      assert q' + h <= e;
      assert s[q'..e] == s[q'..q' + h] + s[q' + h..e];
      assert s[q'..q' + h] == [x.marker] + (if x.sign.Some? then [x.sign.value] else []);
    }
  }

  /**
   * Soundness: whatever the recogniser accepts is the spelling of a
   * well-formed lexeme.
   */
  lemma NumberEndSound(s: seq<Byte>, i: nat)
    requires i <= |s| && NumberEnd(s, i).Some?
    ensures WellFormed(LexemeAt(s, i)) && Spell(LexemeAt(s, i)) == s[i..NumberEnd(s, i).value]
  {
    var e := NumberEnd(s, i).value;
    var q := IntegerEnd(s, i).value;
    var q' := FractionEnd(s, q).value;
    assert ExponentEnd(s, q') == Some(e);
    IntegerAtSound(s, i, q);
    FractionAtSound(s, q, q');
    ExponentAtSound(s, q', e);
    SpellParts(s, i, q, q', e, LexemeAt(s, i));
  }

  /** Parts that spell consecutive slices spell the whole. */
  lemma SpellParts(s: seq<Byte>, i: nat, q: nat, q': nat, e: nat, n: NumberLexeme)
    requires i < e && i <= q <= q' <= e <= |s|
    requires SignText(n.negative) + IntegerText(n.integer) == s[i..q]
    requires FractionText(n.fraction) == s[q..q']
    requires ExponentPartText(n.exponent) == s[q'..e]
    ensures Spell(n) == s[i..e] && Spell(n) != []
  {
    ConcatSlices(s, i, q, q', e);
  }

  /** "0123": after a leading '0' no further digit is taken. */
  lemma LeadingZeroStops(s: seq<Byte>, i: nat)
    requires i + 1 < |s| && s[i] == ZERO && IsDigit(s[i + 1])
    ensures NumberEnd(s, i) == Some(i + 1)
  {
  }

  /** Input ending right after a leading '0' fails, with or without '-'. */
  lemma ZeroAtEndFails(p: seq<Byte>)
    ensures NumberEnd(p + [ZERO], |p|) == None
    ensures NumberEnd(p + [MINUS, ZERO], |p|) == None
  {
  }

  /** Input ending inside a [1-9] digit run succeeds with the whole run. */
  lemma DigitsAtEndSucceed(p: seq<Byte>, d: seq<Byte>)
    requires |d| >= 1 && IsStartDigit(d[0]) && AllDigits(d)
    ensures NumberEnd(p + d, |p|) == Some(|p| + |d|)
  {
    DigitEndOfRun(p + d, |p|, |d|);
  }

  /**
   * Input ending right after '-', after a '.' with no digits, or after an
   * exponent marker fails: "-", "1." and "1e" or "1.5e" at the end.
   */
  lemma TruncatedNumberFails(p: seq<Byte>, n: NumberLexeme, tail: Byte)
    requires WellFormed(n) && n.exponent.None?
    requires (tail == DOT && n.fraction.None?) || tail == LOWER_E || tail == UPPER_E
    ensures NumberEnd(p + Spell(n) + [tail], |p|) == None
    ensures NumberEnd(p + [MINUS], |p|) == None
  {
    var s := p + Spell(n) + [tail];
    TruncatedSteps(p, n, [tail]);
    assert s[|p| + |Spell(n)|] == tail;
  }

  /** An exponent marker and its sign with nothing after them also fail: "1e+" or "1.5e-" at the end. */
  lemma ExponentSignAtEndFails(p: seq<Byte>, n: NumberLexeme, marker: Byte, sign: Byte)
    requires WellFormed(n) && n.exponent.None?
    requires marker == LOWER_E || marker == UPPER_E
    requires sign == PLUS || sign == MINUS
    ensures NumberEnd(p + Spell(n) + [marker, sign], |p|) == None
  {
    var s := p + Spell(n) + [marker, sign];
    TruncatedSteps(p, n, [marker, sign]);
    var q := |p| + |Spell(n)|;
    assert s[q] == marker && s[q + 1] == sign && q + 2 == |s|;
  }

  /**
   * Over `p + Spell(n) + rest`, with no exponent in `n`, the integer step
   * stops where the integer part ends, and the fraction step stops right
   * before `rest` unless `rest` starts a fraction `n` does not have.
   */
  lemma TruncatedSteps(p: seq<Byte>, n: NumberLexeme, rest: seq<Byte>)
    requires WellFormed(n) && n.exponent.None?
    requires |rest| > 0 && !IsDigit(rest[0]) && rest[0] != MINUS
    ensures IntegerStop(|p|, n) <= |p| + |Spell(n)| < |p + Spell(n) + rest|
    ensures IntegerEnd(p + Spell(n) + rest, |p|) == Some(IntegerStop(|p|, n))
    ensures (n.fraction.Some? || rest[0] != DOT) ==>
      FractionEnd(p + Spell(n) + rest, IntegerStop(|p|, n)) == Some(|p| + |Spell(n)|)
    ensures n.fraction.None? ==> IntegerStop(|p|, n) == |p| + |Spell(n)|
  {
    var s := p + Spell(n) + rest;
    assert s[|p|..|p| + |Spell(n)|] == Spell(n);
    assert s[|p| + |Spell(n)|] == rest[0];
    TruncatedStepsIn(s, |p|, n);
  }

  /** `TruncatedSteps` for `n` spelled from `i` in `s`. */
  lemma TruncatedStepsIn(s: seq<Byte>, i: nat, n: NumberLexeme)
    requires WellFormed(n) && n.exponent.None?
    requires i + |Spell(n)| < |s| && s[i..i + |Spell(n)|] == Spell(n)
    requires !IsDigit(s[i + |Spell(n)|]) && s[i + |Spell(n)|] != MINUS
    ensures IntegerStop(i, n) <= i + |Spell(n)|
    ensures IntegerEnd(s, i) == Some(IntegerStop(i, n))
    ensures (n.fraction.Some? || s[i + |Spell(n)|] != DOT) ==>
      FractionEnd(s, IntegerStop(i, n)) == Some(i + |Spell(n)|)
    ensures n.fraction.None? ==> IntegerStop(i, n) == i + |Spell(n)|
  {
    SpelledSlices(s, i, n);
    TruncatedParts(s, i, IntegerStop(i, n), i + |Spell(n)|, n.negative, n.integer, n.fraction);
  }

  /**
   * `TruncatedStepsIn` over the sign and integer text, spelled from `i` to
   * `q`, and the fraction text, spelled from `q` to `e`.
   */
  lemma TruncatedParts(s: seq<Byte>, i: nat, q: nat, e: nat, negative: bool, ip: IntegerPart, f: Option<seq<Byte>>)
    requires WellFormedInteger(ip) && WellFormedFraction(f)
    requires i <= q <= e < |s|
    requires s[i..q] == SignText(negative) + IntegerText(ip) && s[q..e] == FractionText(f)
    requires !IsDigit(s[e]) && s[e] != MINUS
    ensures IntegerEnd(s, i) == Some(q)
    ensures (f.Some? || s[e] != DOT) ==> FractionEnd(s, q) == Some(e)
  {
    var si := SignText(negative) + IntegerText(ip);
    var ft := FractionText(f);
    assert !negative && si != [] ==> IsDigit(si[0]);
    assert ft != [] ==> ft[0] == DOT;
    HeadOrNext(s, q, e, ft);
    HeadOrNext(s, i, q, si);
    IntegerEndOf(s, i, negative, ip);
    if f.Some? || s[e] != DOT {
      FractionEndOf(s, q, f);
    }
  }

  /** '-' followed by a byte that cannot continue a number is the lexeme "-". */
  lemma LoneMinus(s: seq<Byte>, i: nat)
    requires i + 1 < |s| && s[i] == MINUS && EndsNumber(s[i + 1])
    ensures NumberEnd(s, i) == Some(i + 1)
  {
  }

  /** Not RFC 8259: ".5" with no integer part is accepted. */
  lemma FractionWithoutInteger(s: seq<Byte>, i: nat)
    requires i + 2 < |s| && s[i] == DOT && IsDigit(s[i + 1]) && EndsNumber(s[i + 2])
    ensures NumberEnd(s, i) == Some(i + 2)
  {
    var n := NumberLexeme(false, NoInteger, Some([s[i + 1]]), None);
    assert Spell(n) == s[i..i + 2];
    NumberEndComplete(s, i, n);
  }
}
