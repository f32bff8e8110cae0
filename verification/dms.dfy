/** Degrees-minutes-seconds tokens (convert_dms_to_utm.py): the symbol
    clean-up applied to every coordinate cell, and the prefix parse of a
    cleaned token into signed decimal degrees. Numbers are exact reals. */
module Dms {
  import opened Results
  import opened Text

  /** `º`, the masculine ordinal indicator, often typed instead of a degree sign. */
  const Ordinal: char := '\U{00BA}'
  /** `°`, the degree sign the parser expects. */
  const Degree: char := '\U{00B0}'

  // ---------------------------------------------------------------------------
  // Normalisation
  // ---------------------------------------------------------------------------

  /** No apostrophe is immediately followed by another one. */
  predicate NoDoubledApostrophe(s: string) {
    forall i :: 0 <= i < |s| - 1 ==> !(s[i] == '\'' && s[i + 1] == '\'')
  }

  /** `s` starts with an apostrophe that is not the first of a pair. */
  predicate StartsWithLoneApostrophe(s: string) {
    |s| > 0 && s[0] == '\'' && (|s| == 1 || s[1] != '\'')
  }

  /** `str.replace('º', '°')`. */
  function FixDegreeGlyph(s: string): (r: string)
    ensures |r| == |s| && Ordinal !in r
    decreases |s|
  {
    if |s| == 0 then [] else [if s[0] == Ordinal then Degree else s[0]] + FixDegreeGlyph(s[1..])
  }

  /** `str.replace("''", '"')`: a left-to-right scan that rewrites each
      non-overlapping pair of apostrophes into one double quote. */
  function CollapseQuotes(s: string): (r: string)
    ensures NoDoubledApostrophe(r)
    ensures |r| == 0 <==> |s| == 0
    ensures |r| > 0 ==> (r[0] == '\'' <==> StartsWithLoneApostrophe(s))
    ensures forall c :: c in r ==> c in s || c == '"'
    decreases |s|
  {
    if |s| >= 2 && s[0] == '\'' && s[1] == '\'' then "\"" + CollapseQuotes(s[2..])
    else if |s| == 0 then []
    else [s[0]] + CollapseQuotes(s[1..])
  }

  /** A string with no apostrophe pair is left alone. */
  lemma {:induction false} CollapseQuotesIdentity(s: string)
    requires NoDoubledApostrophe(s)
    ensures CollapseQuotes(s) == s
    decreases |s|
  {
    if |s| > 0 {
      assert !(|s| >= 2 && s[0] == '\'' && s[1] == '\'');
      assert NoDoubledApostrophe(s[1..]) by {
        forall i | 0 <= i < |s[1..]| - 1 ensures !(s[1..][i] == '\'' && s[1..][i + 1] == '\'') {
          assert s[1..][i] == s[i + 1] && s[1..][i + 1] == s[i + 2];
        }
      }
      CollapseQuotesIdentity(s[1..]);
    }
  }

  /** The scan never pairs across a boundary whose left side does not end
      in an apostrophe. */
  lemma {:induction false} CollapseQuotesAppend(a: string, b: string)
    requires |a| == 0 || a[|a| - 1] != '\''
    ensures CollapseQuotes(a + b) == CollapseQuotes(a) + CollapseQuotes(b)
    decreases |a|
  {
    var ab := a + b;
    if |a| == 0 {
      assert ab == b;
    } else if |a| >= 2 && a[0] == '\'' && a[1] == '\'' {
      assert ab[0] == a[0] && ab[1] == a[1];
      assert ab[2..] == a[2..] + b;
      CollapseQuotesAppend(a[2..], b);
    } else {
      assert ab[0] == a[0];
      assert !(|ab| >= 2 && ab[0] == '\'' && ab[1] == '\'') by {
        if |a| == 1 { assert a[0] != '\''; } else { assert ab[1] == a[1]; }
      }
      assert ab[1..] == a[1..] + b;
      CollapseQuotesAppend(a[1..], b);
    }
  }

  /** Every character of `t`, and every adjacent pair, occurs in `s` when
      `t` is a contiguous piece of `s`. */
  lemma NoDoubledApostropheSlice(s: string, a: nat, n: nat)
    requires a + n <= |s| && NoDoubledApostrophe(s)
    ensures NoDoubledApostrophe(s[a..a + n])
  {
    var t := s[a..a + n];
    forall i | 0 <= i < |t| - 1 ensures !(t[i] == '\'' && t[i + 1] == '\'') {
      assert t[i] == s[a + i] && t[i + 1] == s[a + i + 1];
    }
  }

  /** The last step of `normalizar_dms`: a final apostrophe becomes `"`. */
  function CloseTrailingApostrophe(t: string): (r: string)
    ensures |r| == |t|
    ensures |t| > 0 ==> r[..|r| - 1] == t[..|t| - 1]
  {
    if |t| > 0 && t[|t| - 1] == '\'' then t[..|t| - 1] + "\"" else t
  }

  /** What every normalised token looks like: no `º`, no `''`, no
      surrounding whitespace, no final apostrophe. */
  predicate NormalForm(r: string) {
    && Ordinal !in r
    && NoDoubledApostrophe(r)
    && Trimmed(r)
    && (|r| == 0 || r[|r| - 1] != '\'')
  }

  /** `normalizar_dms`: degree glyph, apostrophe pairs, surrounding
      whitespace, and finally a trailing apostrophe turned into `"`. */
  function Normalize(s: string): (r: string)
    ensures NormalForm(r)
  {
    var c := CollapseQuotes(FixDegreeGlyph(s));
    NormalizeStripped(c, Strip(c));
    CloseKeepsForm(Strip(c));
    CloseTrailingApostrophe(Strip(c))
  }

  lemma CloseKeepsForm(t: string)
    requires Ordinal !in t && NoDoubledApostrophe(t) && Trimmed(t)
    ensures NormalForm(CloseTrailingApostrophe(t))
  {
    var r := CloseTrailingApostrophe(t);
    if r != t {
      assert r == t[..|t| - 1] + "\"";
      forall i | 0 <= i < |r| - 1 ensures !(r[i] == '\'' && r[i + 1] == '\'') {
        assert r[i] == t[i];
      }
      assert Ordinal !in t[..|t| - 1];
    }
  }

  lemma NormalizeStripped(c: string, t: string)
    requires Ordinal !in c && NoDoubledApostrophe(c) && t == Strip(c)
    ensures Ordinal !in t && NoDoubledApostrophe(t) && Trimmed(t)
  {
    SliceKeepsClean(c, StripOffset(c), t);
  }

  lemma SliceKeepsClean(c: string, a: nat, t: string)
    requires a + |t| <= |c| && t == c[a..a + |t|]
    requires Ordinal !in c && NoDoubledApostrophe(c)
    ensures Ordinal !in t && NoDoubledApostrophe(t)
  {
    NoDoubledApostropheSlice(c, a, |t|);
  }

  /** A string already in normal form is its own normalisation. */
  lemma NormalizeOfNormalForm(r: string)
    requires NormalForm(r)
    ensures Normalize(r) == r
  {
    FixDegreeGlyphIdentity(r);
    CollapseQuotesIdentity(r);
    StripTrimmed(r);
  }

  /** Normalising twice is normalising once. */
  lemma NormalizeIdempotent(s: string)
    ensures Normalize(Normalize(s)) == Normalize(s)
  {
    NormalizeOfNormalForm(Normalize(s));
  }

  lemma FixDegreeGlyphTail(p: string, tail: string)
    requires Ordinal !in tail
    ensures FixDegreeGlyph(p + tail) == FixDegreeGlyph(p) + tail
  {
    FixDegreeGlyphAppend(p, tail);
    FixDegreeGlyphIdentity(tail);
  }

  /** `Normalize` after its first two steps. */
  lemma NormalizeVia(s: string, x: string)
    requires CollapseQuotes(FixDegreeGlyph(s)) == x
    ensures Normalize(s) == CloseTrailingApostrophe(Strip(x))
  {
  }

  /** The glyph fix maps the last character on its own. */
  lemma FixDegreeGlyphLast(p: string)
    requires |p| > 0
    ensures FixDegreeGlyph(p)[|p| - 1] == if p[|p| - 1] == Ordinal then Degree else p[|p| - 1]
  {
    var q := p[..|p| - 1];
    assert p == q + [p[|p| - 1]];
    FixDegreeGlyphAppend(q, [p[|p| - 1]]);
  }

  /** The first two steps on `p` followed by a tail of apostrophes. */
  lemma CleanApostropheTail(p: string, tail: string)
    requires |p| == 0 || p[|p| - 1] != '\''
    requires tail == "'" || tail == "''"
    ensures CollapseQuotes(FixDegreeGlyph(p + tail)) == CollapseQuotes(FixDegreeGlyph(p)) + CollapseQuotes(tail)
  {
    var f := FixDegreeGlyph(p);
    FixDegreeGlyphTail(p, tail);
    if |p| > 0 { FixDegreeGlyphLast(p); }
    CollapseQuotesAppend(f, tail);
  }

  /** Stripping, then closing, a token that ends in `'` or in `"`. */
  lemma CloseAfterStrip(x: string)
    ensures CloseTrailingApostrophe(Strip(x + "'")) == CloseTrailingApostrophe(Strip(x + "\""))
  {
    StripAppendNonSpace(x, '\'');
    StripAppendNonSpace(x, '"');
    CloseEither(TrimStart(x));
  }

  lemma CloseEither(y: string)
    ensures CloseTrailingApostrophe(y + "'") == y + "\""
    ensures CloseTrailingApostrophe(y + "\"") == y + "\""
  {
    assert (y + "'")[..|y|] == y;
    assert (y + "\"")[|y|] == '"';
  }

  /** A closing `'` and a closing `''` mean the same thing: `D°M'S'` and
      `D°M'S''` normalise to the same string, whatever `D°M'S` holds, as long
      as it does not already end in an apostrophe. */
  lemma TrailingApostropheForms(p: string)
    requires |p| == 0 || p[|p| - 1] != '\''
    ensures Normalize(p + "'") == Normalize(p + "''")
  {
    var x := CollapseQuotes(FixDegreeGlyph(p));
    CleanApostropheTail(p, "'");
    CleanApostropheTail(p, "''");
    assert CollapseQuotes("'") == "'";
    assert CollapseQuotes("''") == "\"";
    NormalizeVia(p + "'", x + "'");
    NormalizeVia(p + "''", x + "\"");
    CloseAfterStrip(x);
  }

  // ---------------------------------------------------------------------------
  // The pattern (-?\d+)°(\d+)'([\d\.]+)"
  // ---------------------------------------------------------------------------

  predicate IsSecondsChar(c: char) {
    IsDigit(c) || c == '.'
  }

  predicate AllSecondsChars(s: string) {
    forall i :: 0 <= i < |s| ==> IsSecondsChar(s[i])
  }

  /** The three captured groups, the degree group split into its optional
      minus sign and its digits. */
  datatype Tokens = Tokens(negative: bool, degrees: string, minutes: string, seconds: string)

  /** Groups the pattern can capture. */
  predicate WellFormed(t: Tokens) {
    && |t.degrees| > 0 && AllDigits(t.degrees)
    && |t.minutes| > 0 && AllDigits(t.minutes)
    && |t.seconds| > 0 && AllSecondsChars(t.seconds)
  }

  function SignText(negative: bool): string {
    if negative then "-" else ""
  }

  /** The text the pattern matches with groups `t`, followed by `rest`. */
  function Render(t: Tokens, rest: string): string {
    SignText(t.negative) + (t.degrees + ([Degree] + (t.minutes + (['\''] + (t.seconds + (['"'] + rest))))))
  }

  /** The two character classes the pattern's groups use: `\d` and `[\d\.]`. */
  datatype CharClass = Digits | DigitsOrDots

  predicate InClass(k: CharClass, c: char) {
    match k
    case Digits => IsDigit(c)
    case DigitsOrDots => IsSecondsChar(c)
  }

  predicate AllInClass(k: CharClass, s: string) {
    forall i :: 0 <= i < |s| ==> InClass(k, s[i])
  }

  /** Length of the longest prefix of `s` in class `k` (what a greedy
      `[...]+` consumes). */
  function Run(s: string, k: CharClass): (n: nat)
    ensures n <= |s|
    ensures AllInClass(k, s[..n])
    ensures n == |s| || !InClass(k, s[n])
    decreases |s|
  {
    if |s| > 0 && InClass(k, s[0]) then
      var n := 1 + Run(s[1..], k);
      assert s[..n] == [s[0]] + s[1..][..n - 1];
      n
    else 0
  }

  lemma {:induction false} RunOfPrefix(u: string, v: string, k: CharClass)
    requires AllInClass(k, u)
    requires |v| == 0 || !InClass(k, v[0])
    ensures Run(u + v, k) == |u|
    decreases |u|
  {
    if |u| > 0 {
      assert (u + v)[0] == u[0];
      assert (u + v)[1..] == u[1..] + v;
      RunOfPrefix(u[1..], v, k);
    } else {
      assert u + v == v;
    }
  }

  /** One group of the pattern, `([class]+)` followed by the literal
      `close`: the group's text and what follows the literal. */
  function Group(s: string, k: CharClass, close: char): (r: Option<(string, string)>)
    ensures r.Some? ==> |r.value.0| > 0 && AllInClass(k, r.value.0)
    ensures r.Some? ==> s == r.value.0 + ([close] + r.value.1)
  {
    var n := Run(s, k);
    if n == 0 || n == |s| || s[n] != close then None
    else
      assert s == s[..n] + ([close] + s[n + 1..]);
      Some((s[..n], s[n + 1..]))
  }

  lemma GroupOf(g: string, k: CharClass, close: char, c: char, rest: string)
    requires |g| > 0 && AllInClass(k, g)
    requires !InClass(k, c)
    ensures Group(g + ([c] + rest), k, close) == if c == close then Some((g, rest)) else None
  {
    var s := g + ([c] + rest);
    RunOfPrefix(g, [c] + rest, k);
    assert s[|g|] == c;
    assert s[..|g|] == g;
    assert s[|g| + 1..] == rest;
  }

  /** `re.match`: anchored at the start, free after the closing `"`. No
      group can absorb the literal that ends it, so the greedy scan is the
      only parse backtracking could find. The result carries the groups and
      the unmatched remainder. */
  function MatchDms(s: string): (r: Option<(Tokens, string)>)
    ensures r.Some? ==> WellFormed(r.value.0) && s == Render(r.value.0, r.value.1)
  {
    var negative := |s| > 0 && s[0] == '-';
    var s1 := if negative then s[1..] else s;
    assert s == SignText(negative) + s1;
    match Group(s1, Digits, Degree)
    case None => None
    case Some((d, s2)) =>
      match Group(s2, Digits, '\'')
      case None => None
      case Some((m, s3)) =>
        match Group(s3, DigitsOrDots, '"')
        case None => None
        case Some((sec, rest)) =>
          MatchedShape(s, s1, s2, s3, Tokens(negative, d, m, sec), rest);
          Some((Tokens(negative, d, m, sec), rest))
  }

  lemma MatchedShape(s: string, s1: string, s2: string, s3: string, t: Tokens, rest: string)
    requires s == SignText(t.negative) + s1
    requires s1 == t.degrees + ([Degree] + s2)
    requires s2 == t.minutes + (['\''] + s3)
    requires s3 == t.seconds + (['"'] + rest)
    requires |t.degrees| > 0 && AllInClass(Digits, t.degrees)
    requires |t.minutes| > 0 && AllInClass(Digits, t.minutes)
    requires |t.seconds| > 0 && AllInClass(DigitsOrDots, t.seconds)
    ensures WellFormed(t) && s == Render(t, rest)
  {
  }

  /** `MatchDms` read off from the results of its three group scans. */
  lemma MatchDmsOfGroups(s: string, s1: string, t: Tokens, s2: string, s3: string, rest: string)
    requires t.negative == (|s| > 0 && s[0] == '-')
    requires s1 == if t.negative then s[1..] else s
    requires Group(s1, Digits, Degree) == Some((t.degrees, s2))
    requires Group(s2, Digits, '\'') == Some((t.minutes, s3))
    requires Group(s3, DigitsOrDots, '"') == Some((t.seconds, rest))
    ensures MatchDms(s) == Some((t, rest))
  {
  }

  /** Every string of the pattern's shape is matched, with exactly its own
      groups, whatever follows it. */
  lemma MatchRendered(t: Tokens, rest: string)
    requires WellFormed(t)
    ensures MatchDms(Render(t, rest)) == Some((t, rest))
  {
    var s := Render(t, rest);
    var r2 := t.seconds + (['"'] + rest);
    var r1 := t.minutes + (['\''] + r2);
    var s1 := t.degrees + ([Degree] + r1);
    GroupOf(t.degrees, Digits, Degree, Degree, r1);
    GroupOf(t.minutes, Digits, '\'', '\'', r2);
    GroupOf(t.seconds, DigitsOrDots, '"', '"', rest);
    assert s == SignText(t.negative) + s1;
    assert s1[0] == t.degrees[0] != '-';
    if t.negative {
      assert s[1..] == s1;
    }
    MatchDmsOfGroups(s, s1, t, r1, r2, rest);
  }

  // ---------------------------------------------------------------------------
  // Numbers
  // ---------------------------------------------------------------------------

  /** `W + F / 10^|F|`: the value of the decimal numeral `W.F`. */
  function FixedPoint(whole: string, frac: string): (v: real)
    requires AllDigits(whole) && AllDigits(frac)
    ensures v >= 0.0
  {
    DecimalValue(whole) as real + DecimalValue(frac) as real / Pow10(|frac|) as real
  }

  /** `float()` of the seconds group: digits with at most one decimal
      point and at least one digit; `"."` and `"1.2.3"` make it raise. */
  function ParseSeconds(sec: string): (r: Option<real>)
    requires AllSecondsChars(sec)
    ensures r.Some? <==> Count(sec, '.') <= 1 && Count(sec, '.') < |sec|
    ensures r.Some? ==> r.value >= 0.0
  {
    var p := Run(sec, Digits);
    var whole := sec[..p];
    assert Count(whole, '.') == 0;
    if p == |sec| then
      assert whole == sec;
      if p == 0 then None else Some(FixedPoint(whole, ""))
    else
      var frac := sec[p + 1..];
      SplitAtPoint(sec, p);
      if !AllDigits(frac) then None
      else if p == 0 && |frac| == 0 then None
      else Some(FixedPoint(whole, frac))
  }

  /** The seconds group cut at its first decimal point. */
  lemma SplitAtPoint(sec: string, p: nat)
    requires AllSecondsChars(sec) && p < |sec| && !IsDigit(sec[p]) && Count(sec[..p], '.') == 0
    ensures sec == sec[..p] + ("." + sec[p + 1..])
    ensures AllSecondsChars(sec[p + 1..])
    ensures Count(sec, '.') == 1 + Count(sec[p + 1..], '.')
    ensures AllDigits(sec[p + 1..]) <==> Count(sec[p + 1..], '.') == 0
  {
    var whole, frac := sec[..p], sec[p + 1..];
    CutAt(sec, p);
    CountAppend(whole, "." + frac, '.');
    CountAppend(".", frac, '.');
    DigitsWithoutPoint(frac);
  }

  lemma CutAt(sec: string, p: nat)
    requires AllSecondsChars(sec) && p < |sec| && !IsDigit(sec[p])
    ensures sec == sec[..p] + ("." + sec[p + 1..])
    ensures AllSecondsChars(sec[p + 1..])
  {
    var frac := sec[p + 1..];
    assert sec[p] == '.';
    assert sec == sec[..p] + [sec[p]] + frac;
    forall i | 0 <= i < |frac| ensures IsSecondsChar(frac[i]) {
      assert frac[i] == sec[p + 1 + i];
    }
  }

  lemma DigitsWithoutPoint(s: string)
    requires AllSecondsChars(s)
    ensures AllDigits(s) <==> Count(s, '.') == 0
  {
  }

  lemma DecimalTextChars(whole: string, frac: string)
    requires AllDigits(whole) && AllDigits(frac)
    ensures AllSecondsChars(whole) && AllSecondsChars(whole + ("." + frac))
  {
    var s := whole + ("." + frac);
    forall i | 0 <= i < |s| ensures IsSecondsChar(s[i]) {
      if i < |whole| { assert s[i] == whole[i]; }
      else if i > |whole| { assert s[i] == frac[i - |whole| - 1]; }
    }
  }

  /** A seconds group without a decimal point reads as its integer value. */
  lemma ParseSecondsInteger(whole: string)
    requires AllDigits(whole) && |whole| > 0
    ensures AllSecondsChars(whole)
    ensures ParseSeconds(whole) == Some(DecimalValue(whole) as real)
  {
    DecimalTextChars(whole, "");
    RunOfPrefix(whole, [], Digits);
    assert whole + [] == whole;
    assert whole[..|whole|] == whole;
    assert DecimalValue("") == 0 && Pow10(0) == 1;
    assert FixedPoint(whole, "") == DecimalValue(whole) as real + 0.0 / 1.0;
  }

  /** `W.F` reads as `W + F / 10^|F|`, either side possibly empty but not both. */
  lemma ParseSecondsDecimal(whole: string, frac: string)
    requires AllDigits(whole) && AllDigits(frac) && |whole| + |frac| > 0
    ensures AllSecondsChars(whole + ("." + frac))
    ensures ParseSeconds(whole + ("." + frac)) == Some(FixedPoint(whole, frac))
  {
    var s := whole + ("." + frac);
    DecimalTextChars(whole, frac);
    RunOfPrefix(whole, "." + frac, Digits);
    assert s[..|whole|] == whole;
    assert s[|whole| + 1..] == frac;
  }

  lemma FixedPointTrailingZero(whole: string, frac: string)
    requires AllDigits(whole) && AllDigits(frac)
    ensures AllDigits(frac + "0")
    ensures FixedPoint(whole, frac + "0") == FixedPoint(whole, frac)
  {
    DecimalValueAppend(frac, "0");
    assert DecimalValue("0") == 0;
    ScaleFraction(DecimalValue(frac) as real, Pow10(|frac|) as real,
      DecimalValue(frac + "0") as real, Pow10(|frac + "0"|) as real);
  }

  lemma ScaleFraction(x: real, q: real, x': real, q': real)
    requires q > 0.0 && x' == 10.0 * x && q' == 10.0 * q
    ensures x' / q' == x / q
  {
  }

  /** Zeros appended after the decimal point do not change the value. */
  lemma ParseSecondsTrailingZero(whole: string, frac: string)
    requires AllDigits(whole) && AllDigits(frac) && |whole| + |frac| > 0
    ensures AllSecondsChars(whole + ("." + frac)) && AllSecondsChars(whole + ("." + (frac + "0")))
    ensures ParseSeconds(whole + ("." + (frac + "0"))) == ParseSeconds(whole + ("." + frac))
  {
    FixedPointTrailingZero(whole, frac);
    ParseSecondsDecimal(whole, frac);
    ParseSecondsDecimal(whole, frac + "0");
  }

  datatype DmsError =
    | InvalidFormat(text: string)   // the pattern did not match
    | InvalidNumber(token: string)  // float() refused the seconds group

  /** `abs(d) + m/60 + s/3600`, the unsigned size of a coordinate. */
  function Magnitude(degrees: nat, minutes: nat, seconds: real): (v: real)
    requires seconds >= 0.0
    ensures v >= degrees as real
  {
    degrees as real + minutes as real / 60.0 + seconds / 3600.0
  }

  /** `sign * (abs(d) + m/60 + s/3600)` with `d` the degree group read as a
      number and `sign` taken from `d < 0`: the minus sign survives only on
      a non-zero degree value. */
  function SignedValue(negative: bool, degrees: nat, minutes: nat, seconds: real): (v: real)
    requires seconds >= 0.0
    ensures v == if negative && degrees > 0 then -Magnitude(degrees, minutes, seconds)
                 else Magnitude(degrees, minutes, seconds)
  {
    var d: real := if negative then -(degrees as real) else degrees as real;
    var sign: real := if d < 0.0 then -1.0 else 1.0;
    var absD: real := if d < 0.0 then -d else d;
    sign * (absD + minutes as real / 60.0 + seconds / 3600.0)
  }

  /** `dms_string_to_decimal`. */
  function ToDecimal(s: string): (r: Result<real, DmsError>)
    ensures r.Err? <==> MatchDms(s).None? || ParseSeconds(MatchDms(s).value.0.seconds).None?
    ensures r.Err? && MatchDms(s).None? ==> r.error == InvalidFormat(s)
  {
    match MatchDms(s)
    case None => Err(InvalidFormat(s))
    case Some((t, _)) =>
      match ParseSeconds(t.seconds)
      case None => Err(InvalidNumber(t.seconds))
      case Some(sec) =>
        Ok(SignedValue(t.negative, DecimalValue(t.degrees), DecimalValue(t.minutes), sec))
  }

  /** The value of a matched token: its magnitude, negated exactly when
      the degree group carries a minus sign and is not zero. Text after
      the closing `"` plays no part. */
  lemma DecodeRendered(t: Tokens, rest: string)
    requires WellFormed(t) && ParseSeconds(t.seconds).Some?
    ensures
      var mag := Magnitude(DecimalValue(t.degrees), DecimalValue(t.minutes), ParseSeconds(t.seconds).value);
      ToDecimal(Render(t, rest)) == Ok(if t.negative && DecimalValue(t.degrees) > 0 then -mag else mag)
  {
    MatchRendered(t, rest);
    var sec := ParseSeconds(t.seconds).value;
    assert ToDecimal(Render(t, rest))
      == Ok(SignedValue(t.negative, DecimalValue(t.degrees), DecimalValue(t.minutes), sec));
  }

  /** `-0°…` (or `-00°…`) loses its sign: it reads as the unsigned token. */
  lemma NegativeZeroLosesSign(t: Tokens, rest: string)
    requires WellFormed(t) && ParseSeconds(t.seconds).Some?
    requires t.negative && DecimalValue(t.degrees) == 0
    ensures ToDecimal(Render(t, rest)) == ToDecimal(Render(t.(negative := false), rest))
    ensures ToDecimal(Render(t, rest)).Ok? && ToDecimal(Render(t, rest)).value >= 0.0
  {
    DecodeRendered(t, rest);
    DecodeRendered(t.(negative := false), rest);
  }

  /** A decoded value is negative exactly when the degree group is
      negative and non-zero. */
  lemma DecodeSign(s: string)
    requires ToDecimal(s).Ok?
    ensures var t := MatchDms(s).value.0;
      ToDecimal(s).value < 0.0 <==> t.negative && DecimalValue(t.degrees) > 0
  {
    var (t, rest) := MatchDms(s).value;
    DecodeRendered(t, rest);
  }

  /** With minutes and seconds below 60 the value stays inside its
      degree: `|D| <= |v| < |D| + 1`. */
  lemma DecodeWithinDegree(t: Tokens, rest: string)
    requires WellFormed(t) && ParseSeconds(t.seconds).Some?
    requires DecimalValue(t.minutes) < 60 && ParseSeconds(t.seconds).value < 60.0
    ensures ToDecimal(Render(t, rest)).Ok?
    ensures var v := ToDecimal(Render(t, rest)).value;
      var d := DecimalValue(t.degrees) as real;
      d <= (if v < 0.0 then -v else v) < d + 1.0
  {
    DecodeRendered(t, rest);
    var m := DecimalValue(t.minutes) as real;
    assert m / 60.0 <= 59.0 / 60.0;
  }

  /** A string that does not have the pattern's shape produces no number. */
  lemma RejectUnmatched(s: string)
    requires MatchDms(s).None?
    ensures ToDecimal(s) == Err(InvalidFormat(s))
  {
  }

  lemma {:induction false} FixDegreeGlyphAppend(a: string, b: string)
    ensures FixDegreeGlyph(a + b) == FixDegreeGlyph(a) + FixDegreeGlyph(b)
    decreases |a|
  {
    if |a| == 0 {
      assert a + b == b;
    } else {
      assert (a + b)[1..] == a[1..] + b;
      FixDegreeGlyphAppend(a[1..], b);
    }
  }

  lemma {:induction false} FixDegreeGlyphIdentity(a: string)
    requires Ordinal !in a
    ensures FixDegreeGlyph(a) == a
    decreases |a|
  {
    if |a| > 0 {
      assert a[0] in a;
      FixDegreeGlyphIdentity(a[1..]);
    }
  }

  lemma NoApostropheThenOne(x: string)
    requires '\'' !in x
    ensures NoDoubledApostrophe(x + "'")
  {
    var s := x + "'";
    forall i | 0 <= i < |s| - 1 ensures s[i] != '\'' {
      assert s[i] == x[i];
    }
  }

  /** The text `D°M` followed by `close`, `D` possibly signed. */
  function MinutesOnly(negative: bool, degrees: string, glyph: char, minutes: string, close: char): string {
    SignText(negative) + (degrees + ([glyph] + (minutes + [close])))
  }

  /** The glyph fix turns one `º` or `°` between glyph-free text into `°`. */
  lemma FixOneGlyph(a: string, glyph: char, b: string)
    requires Ordinal !in a && Ordinal !in b
    requires glyph == Degree || glyph == Ordinal
    ensures FixDegreeGlyph(a + ([glyph] + b)) == a + ([Degree] + b)
  {
    FixDegreeGlyphAppend(a, [glyph] + b);
    FixDegreeGlyphAppend([glyph], b);
    FixDegreeGlyphIdentity(a);
    FixDegreeGlyphIdentity(b);
    assert FixDegreeGlyph([glyph]) == [Degree];
  }

  lemma DigitsHaveNoOrdinal(s: string)
    requires AllDigits(s)
    ensures Ordinal !in s
  {
  }

  lemma FixMinutesOnly(negative: bool, degrees: string, glyph: char, minutes: string)
    requires AllDigits(degrees) && AllDigits(minutes)
    requires glyph == Degree || glyph == Ordinal
    ensures FixDegreeGlyph(MinutesOnly(negative, degrees, glyph, minutes, '\''))
         == MinutesOnly(negative, degrees, Degree, minutes, '\'')
  {
    var a := SignText(negative) + degrees;
    var b := minutes + "'";
    DigitsHaveNoOrdinal(degrees);
    DigitsHaveNoOrdinal(minutes);
    assert Ordinal !in a;
    assert Ordinal !in b;
    FixOneGlyph(a, glyph, b);
    MinutesOnlyParts(negative, degrees, glyph, minutes, '\'');
    MinutesOnlyParts(negative, degrees, Degree, minutes, '\'');
  }

  lemma MinutesOnlyTail(negative: bool, degrees: string, glyph: char, minutes: string, close: char)
    ensures MinutesOnly(negative, degrees, glyph, minutes, close)
         == SignText(negative) + (degrees + ([glyph] + minutes)) + [close]
  {
  }

  lemma MinutesOnlyParts(negative: bool, degrees: string, glyph: char, minutes: string, close: char)
    ensures MinutesOnly(negative, degrees, glyph, minutes, close)
         == (SignText(negative) + degrees) + ([glyph] + (minutes + [close]))
  {
  }

  /** Normalising `x'` where `x` has no apostrophe and no surrounding
      whitespace yields `x"`. */
  lemma NormalizeClosedByApostrophe(s: string, x: string)
    requires CollapseQuotes(FixDegreeGlyph(s)) == x + "'"
    requires '\'' !in x && (|x| == 0 || !IsSpace(x[0]))
    ensures Normalize(s) == x + "\""
  {
    NormalizeVia(s, x + "'");
    StripAppendNonSpace(x, '\'');
    TrimStartOfTrimmed(x);
    assert (x + "'")[..|x|] == x;
  }

  lemma NormalizeMinutesOnly(negative: bool, degrees: string, glyph: char, minutes: string)
    requires |degrees| > 0 && AllDigits(degrees) && AllDigits(minutes)
    requires glyph == Degree || glyph == Ordinal
    ensures Normalize(MinutesOnly(negative, degrees, glyph, minutes, '\''))
         == MinutesOnly(negative, degrees, Degree, minutes, '"')
  {
    FixMinutesOnly(negative, degrees, glyph, minutes);
    var x := SignText(negative) + (degrees + ([Degree] + minutes));
    MinutesOnlyTail(negative, degrees, Degree, minutes, '\'');
    MinutesOnlyTail(negative, degrees, Degree, minutes, '"');
    assert '\'' !in degrees && '\'' !in minutes;
    NoApostropheThenOne(x);
    CollapseQuotesIdentity(x + "'");
    assert x[0] == (if negative then '-' else degrees[0]);
    NormalizeClosedByApostrophe(MinutesOnly(negative, degrees, glyph, minutes, '\''), x);
  }

  lemma MatchMinutesOnly(negative: bool, degrees: string, minutes: string)
    requires |degrees| > 0 && AllDigits(degrees) && |minutes| > 0 && AllDigits(minutes)
    ensures MatchDms(MinutesOnly(negative, degrees, Degree, minutes, '"')).None?
  {
    var n := MinutesOnly(negative, degrees, Degree, minutes, '"');
    var s1 := degrees + ([Degree] + (minutes + ['"']));
    GroupOf(degrees, Digits, Degree, Degree, minutes + ['"']);
    assert minutes + ['"'] == minutes + (['"'] + []);
    GroupOf(minutes, Digits, '\'', '"', []);
    if negative {
      assert n[1..] == s1;
    } else {
      assert n == s1;
      assert s1[0] == degrees[0] != '-';
    }
  }

  /** A minutes-only token `D°M'` normalises to `D°M"` (its closing
      apostrophe becomes a double quote, not a seconds group), which the
      pattern then rejects. The same holds when `º` was typed for `°`. */
  lemma MinutesOnlyRejected(negative: bool, degrees: string, glyph: char, minutes: string)
    requires |degrees| > 0 && AllDigits(degrees) && |minutes| > 0 && AllDigits(minutes)
    requires glyph == Degree || glyph == Ordinal
    ensures var s := MinutesOnly(negative, degrees, glyph, minutes, '\'');
      && Normalize(s) == MinutesOnly(negative, degrees, Degree, minutes, '"')
      && ToDecimal(Normalize(s)) == Err(InvalidFormat(Normalize(s)))
  {
    NormalizeMinutesOnly(negative, degrees, glyph, minutes);
    MatchMinutesOnly(negative, degrees, minutes);
  }
}
