/** Character-level building blocks shared by every number scanner of the scripts: digit runs,
    decimal values, Python's float() on decimal text, str.split()/strip()/replace() and round(). */
module Lex {
  import opened Wrappers

  predicate IsDigit(c: char) { '0' <= c <= '9' }

  /** The ASCII characters Python's str.split(), str.strip() and `\s` treat as whitespace. */
  predicate IsSpace(c: char)
  {
    c == ' ' || c == '\t' || c == '\n' || c == '\r' || c == '\U{000B}' || c == '\U{000C}'
  }

  predicate IsAsciiLetter(c: char) { 'a' <= c <= 'z' || 'A' <= c <= 'Z' }

  function DigitVal(c: char): nat
  {
    if IsDigit(c) then c as int - '0' as int else 0
  }

  /** Length of the run of digits that starts `s`. */
  function DigitRun(s: string): (n: nat)
    ensures n <= |s|
    ensures n < |s| ==> !IsDigit(s[n])
  {
    if s != [] && IsDigit(s[0]) then 1 + DigitRun(s[1..]) else 0
  }

  /** The run is made of digits. */
  lemma {:induction false} DigitRunDigits(s: string)
    ensures forall i :: 0 <= i < DigitRun(s) ==> IsDigit(s[i])
    decreases |s|
  {
    if s != [] && IsDigit(s[0]) {
      DigitRunDigits(s[1..]);
    }
  }

  /** The natural number written by the digit string `ds` (most significant digit first). */
  function DigitsValue(ds: string): nat
    decreases |ds|
  {
    if ds == [] then 0 else 10 * DigitsValue(ds[..|ds| - 1]) + DigitVal(ds[|ds| - 1])
  }

  function Pow10(n: nat): (r: nat)
    ensures r >= 1
  {
    if n == 0 then 1 else 10 * Pow10(n - 1)
  }

  /** `v` times 10 to the integer power `e`, one factor of ten at a time. */
  function Shift10(v: real, e: int): real
    decreases if e >= 0 then e else -e
  {
    if e == 0 then v else if e > 0 then 10.0 * Shift10(v, e - 1) else Shift10(v, e + 1) / 10.0
  }

  /** The value of the digits `frac` read after a decimal point, `0.frac`. */
  function FracValue(frac: string): (r: real)
    ensures r >= 0.0
  {
    if frac == [] then 0.0 else (DigitVal(frac[0]) as real + FracValue(frac[1..])) / 10.0
  }

  /** The value of the decimal numeral `whole.frac`. */
  function DecimalValue(whole: string, frac: string): (r: real)
    ensures r >= 0.0
  {
    DigitsValue(whole) as real + FracValue(frac)
  }

  /** One more digit of a prefix multiplies the value so far by ten and adds the digit. */
  lemma DigitsValueStep(ds: string, i: nat)
    requires i < |ds|
    ensures DigitsValue(ds[..i + 1]) == 10 * DigitsValue(ds[..i]) + DigitVal(ds[i])
  {
    assert ds[..i + 1][..i] == ds[..i];
  }

  /** A fraction read from position `i` is its first digit plus the rest, over ten. */
  lemma FracValueStep(ds: string, i: nat)
    requires i < |ds|
    ensures FracValue(ds[i..]) == (DigitVal(ds[i]) as real + FracValue(ds[i + 1..])) / 10.0
  {
    assert ds[i..][1..] == ds[i + 1..];
  }

  /** A match at the start of a string: how many characters it takes and the number they denote. */
  datatype Lexeme = Lexeme(len: nat, value: real)

  /** `\d+\.?\d*|\.\d+`: an unsigned decimal as Python's float() accepts it ("5", "5.", "5.25", ".5"). */
  function Mantissa(s: string): (r: Option<Lexeme>)
    ensures r.Some? ==> 0 < r.value.len <= |s| && r.value.value >= 0.0
    ensures r.Some? <==> DigitRun(s) > 0 || (|s| > 1 && s[0] == '.' && IsDigit(s[1]))
  {
    var a := DigitRun(s);
    if a > 0 then
      if a < |s| && s[a] == '.' then
        var b := DigitRun(s[a + 1..]);
        Some(Lexeme(a + 1 + b, DecimalValue(s[..a], s[a + 1..a + 1 + b])))
      else
        Some(Lexeme(a, DigitsValue(s[..a]) as real))
    else if |s| > 1 && s[0] == '.' && DigitRun(s[1..]) > 0 then
      var b := DigitRun(s[1..]);
      Some(Lexeme(1 + b, DecimalValue("", s[1..1 + b])))
    else
      None
  }

  /** The regex `\d*\.?\d+` matched greedily at the start of `s`. A '.' is taken only when a digit
      follows it, because the regex engine backtracks out of a trailing '.'. */
  function RegexDecimal(s: string): (r: Option<Lexeme>)
    ensures r.Some? ==> 0 < r.value.len <= |s| && r.value.value >= 0.0 && IsDigit(s[r.value.len - 1])
  {
    var a := DigitRun(s);
    DigitRunDigits(s);
    if a < |s| && s[a] == '.' && DigitRun(s[a + 1..]) > 0 then
      var b := DigitRun(s[a + 1..]);
      DigitRunDigits(s[a + 1..]);
      Some(Lexeme(a + 1 + b, DecimalValue(s[..a], s[a + 1..a + 1 + b])))
    else if a > 0 then
      Some(Lexeme(a, DigitsValue(s[..a]) as real))
    else
      None
  }

  datatype ExpLexeme = ExpLexeme(len: nat, exp: int)

  /** `[eE][-+]?\d+` at the start of `s`. */
  function Exponent(s: string): (r: Option<ExpLexeme>)
    ensures r.Some? ==> 1 < r.value.len <= |s|
  {
    if |s| > 0 && (s[0] == 'e' || s[0] == 'E') then
      var k := if |s| > 1 && (s[1] == '+' || s[1] == '-') then 2 else 1;
      var d := DigitRun(s[k..]);
      var n := DigitsValue(s[k..k + d]) as int;
      if d > 0 then Some(ExpLexeme(k + d, if k == 2 && s[1] == '-' then -n else n)) else None
    else
      None
  }

  /** Drops leading whitespace. */
  function LStrip(s: string): (r: string)
    ensures |r| <= |s|
    ensures r != [] ==> !IsSpace(r[0])
  {
    if s != [] && IsSpace(s[0]) then LStrip(s[1..]) else s
  }

  /** Drops trailing whitespace. */
  function RStrip(s: string): (r: string)
    ensures |r| <= |s|
    ensures forall i :: 0 <= i < |r| ==> r[i] == s[i]
    ensures r != [] ==> !IsSpace(r[|r| - 1])
  {
    if s != [] && IsSpace(s[|s| - 1]) then RStrip(s[..|s| - 1]) else s
  }

  /** Python's str.strip(). */
  function Strip(s: string): (r: string)
    ensures r != [] ==> !IsSpace(r[0]) && !IsSpace(r[|r| - 1])
    ensures |r| <= |s|
  {
    RStrip(LStrip(s))
  }

  /** Python's float() restricted to decimal text: surrounding whitespace, an optional sign, a
      mantissa and an optional exponent. None where float() raises ValueError. */
  function ParseFloat(t: string): (r: Option<real>)
  {
    SignedDecimal(Strip(t))
  }

  /** An optional sign followed by an unsigned decimal. */
  function SignedDecimal(u: string): Option<real>
  {
    if |u| > 0 && u[0] == '-' then
      match UnsignedDecimal(u[1..])
      case Some(v) => Some(-v)
      case None => None
    else if |u| > 0 && u[0] == '+' then UnsignedDecimal(u[1..])
    else UnsignedDecimal(u)
  }

  /** A mantissa, then nothing or an exponent that takes all the rest. */
  function UnsignedDecimal(u: string): Option<real>
  {
    match Mantissa(u)
    case None => None
    case Some(m) =>
      var rest := u[m.len..];
      if rest == [] then Some(m.value)
      else match Exponent(rest)
        case Some(e) => if e.len == |rest| then Some(Shift10(m.value, e.exp)) else None
        case None => None
  }

  /** Length of the run of non-whitespace characters that starts `s`. */
  function WordLen(s: string): (n: nat)
    ensures n <= |s|
    ensures forall i :: 0 <= i < n ==> !IsSpace(s[i])
    ensures n < |s| ==> IsSpace(s[n])
  {
    if s != [] && !IsSpace(s[0]) then 1 + WordLen(s[1..]) else 0
  }

  predicate IsWord(w: string)
  {
    w != [] && forall i :: 0 <= i < |w| ==> !IsSpace(w[i])
  }

  /** Python's str.split() with no argument: the maximal runs of non-whitespace, in order. */
  function Split(s: string): (r: seq<string>)
    ensures forall i :: 0 <= i < |r| ==> IsWord(r[i])
    decreases |s|
  {
    var t := LStrip(s);
    if t == [] then []
    else
      var w := WordLen(t);
      [t[..w]] + Split(t[w..])
  }

  lemma {:induction false} LStripConcat(a: string, c: char, b: string)
    requires IsSpace(c)
    ensures LStrip(a + [c] + b) == if LStrip(a) == [] then LStrip(b) else LStrip(a) + [c] + b
    decreases |a|
  {
    if a == [] {
      assert a + [c] + b == [c] + b;
      assert ([c] + b)[1..] == b;
    } else if IsSpace(a[0]) {
      assert (a + [c] + b)[1..] == a[1..] + [c] + b;
      LStripConcat(a[1..], c, b);
    }
  }

  lemma {:induction false} WordLenConcat(a: string, c: char, b: string)
    requires IsSpace(c)
    ensures WordLen(a + [c] + b) == WordLen(a)
    decreases |a|
  {
    if a != [] && !IsSpace(a[0]) {
      assert (a + [c] + b)[1..] == a[1..] + [c] + b;
      WordLenConcat(a[1..], c, b);
    }
  }

  /** Text made of two parts separated by a whitespace character splits into the words of the
      first part followed by the words of the second: no word spans the separator. */
  lemma {:induction false} SplitConcat(a: string, c: char, b: string)
    requires IsSpace(c)
    ensures Split(a + [c] + b) == Split(a) + Split(b)
    decreases |a|
  {
    var s := a + [c] + b;
    var l := LStrip(a);
    LStripConcat(a, c, b);
    if l == [] {
      SplitOfStripped(s, b);
    } else {
      var w := WordLen(l);
      LStripNoLeadingSpace(l + [c] + b);
      LStripNoLeadingSpace(l);
      SplitOfStripped(s, l + [c] + b);
      SplitOfStripped(a, l);
      WordLenConcat(l, c, b);
      SplitConcatStep(l, c, b, w);
      SplitConcat(l[w..], c, b);
      calc {
        Split(s);
        [l[..w]] + Split(l[w..] + [c] + b);
        [l[..w]] + (Split(l[w..]) + Split(b));
        ([l[..w]] + Split(l[w..])) + Split(b);
        Split(a) + Split(b);
      }
    }
  }

  lemma SplitConcatStep(l: string, c: char, b: string, w: nat)
    requires 0 < w <= |l|
    requires WordLen(l + [c] + b) == w && WordLen(l) == w && LStrip(l) == l
    ensures Split(l + [c] + b) == [l[..w]] + Split(l[w..] + [c] + b)
    ensures Split(l) == [l[..w]] + Split(l[w..])
  {
    var t := l + [c] + b;
    assert t[..w] == l[..w];
    assert t[w..] == l[w..] + [c] + b;
  }

  lemma LStripNoLeadingSpace(s: string)
    requires s == [] || !IsSpace(s[0])
    ensures LStrip(s) == s
  {
  }

  /** Split only looks at what is left after leading whitespace. */
  lemma SplitOfStripped(s: string, u: string)
    requires LStrip(s) == LStrip(u)
    ensures Split(s) == Split(u)
  {
  }

  lemma {:induction false} WordLenOfWord(w: string)
    requires forall i :: 0 <= i < |w| ==> !IsSpace(w[i])
    ensures WordLen(w) == |w|
    decreases |w|
  {
    if w != [] {
      WordLenOfWord(w[1..]);
    }
  }

  /** Joining words with single spaces and splitting again gives the words back. */
  lemma {:induction false} SplitJoin(ws: seq<string>)
    requires forall i :: 0 <= i < |ws| ==> IsWord(ws[i])
    ensures Split(Join(ws, " ")) == ws
    decreases |ws|
  {
    if ws != [] {
      var w := ws[0];
      WordLenOfWord(w);
      LStripNoLeadingSpace(w);
      assert w[..|w|] == w && w[|w|..] == [];
      assert Split(w) == [w] + Split([]);
      if |ws| > 1 {
        SplitJoin(ws[1..]);
        assert Join(ws, " ") == w + [' '] + Join(ws[1..], " ");
        SplitConcat(w, ' ', Join(ws[1..], " "));
        assert ws == [w] + ws[1..];
      }
    }
  }

  /** Python's `sep.join(ws)`. */
  function Join(ws: seq<string>, sep: string): string
  {
    if ws == [] then ""
    else if |ws| == 1 then ws[0]
    else ws[0] + sep + Join(ws[1..], sep)
  }

  /** Python's str.replace(old, new) for single characters. */
  function ReplaceChar(s: string, from: char, to: char): (r: string)
    ensures |r| == |s|
    ensures forall i :: 0 <= i < |s| ==> r[i] == if s[i] == from then to else s[i]
  {
    if s == [] then [] else [if s[0] == from then to else s[0]] + ReplaceChar(s[1..], from, to)
  }

  /** Python's `s.replace(pat, "")`: deletes the non-overlapping occurrences of `pat`, left to right. */
  function RemoveAll(s: string, pat: string): (r: string)
    requires pat != []
    ensures |r| <= |s|
    decreases |s|
  {
    if |s| < |pat| then s
    else if s[..|pat|] == pat then RemoveAll(s[|pat|..], pat)
    else [s[0]] + RemoveAll(s[1..], pat)
  }

  function LowerChar(c: char): char
  {
    if 'A' <= c <= 'Z' then (c as int + 32) as char else c
  }

  /** Python's str.lower() on ASCII text. */
  function Lower(s: string): (r: string)
    ensures |r| == |s|
    ensures forall i :: 0 <= i < |s| ==> r[i] == LowerChar(s[i])
  {
    if s == [] then [] else [LowerChar(s[0])] + Lower(s[1..])
  }

  /** Python's round() on a number: the nearest integer, ties to the even one. */
  function RoundHalfEven(x: real): (r: int)
    ensures x - 0.5 <= r as real <= x + 0.5
    ensures (r as real - x == 0.5 || x - r as real == 0.5) ==> r % 2 == 0
  {
    var f := x.Floor;
    var d := x - f as real;
    if d < 0.5 then f
    else if d > 0.5 then f + 1
    else if f % 2 == 0 then f
    else f + 1
  }

  /** A decimal numeral as the scripts write numbers: optional '-', digits, optional fraction. */
  datatype Numeral = Numeral(negative: bool, whole: string, frac: string)
  {
    predicate Valid()
    {
      whole != [] && (forall i :: 0 <= i < |whole| ==> IsDigit(whole[i]))
      && (forall i :: 0 <= i < |frac| ==> IsDigit(frac[i]))
    }

    /** The numeral without its sign. */
    function Unsigned(): string
    {
      whole + (if frac == [] then "" else "." + frac)
    }

    function Text(): string
    {
      if negative then "-" + Unsigned() else Unsigned()
    }

    function Value(): real
    {
      if negative then -DecimalValue(whole, frac) else DecimalValue(whole, frac)
    }
  }

  lemma {:induction false} DigitRunOfDigits(ds: string, rest: string)
    requires forall i :: 0 <= i < |ds| ==> IsDigit(ds[i])
    requires rest == [] || !IsDigit(rest[0])
    ensures DigitRun(ds + rest) == |ds|
    decreases |ds|
  {
    if ds != [] {
      assert (ds + rest)[1..] == ds[1..] + rest;
      DigitRunOfDigits(ds[1..], rest);
    }
  }

  lemma UnsignedNumeralMatch(n: Numeral)
    requires n.Valid()
    ensures Mantissa(n.Unsigned()) == Some(Lexeme(|n.Unsigned()|, DecimalValue(n.whole, n.frac)))
  {
    var u := n.Unsigned();
    var w := |n.whole|;
    if n.frac == [] {
      assert u == n.whole + [];
      DigitRunOfDigits(n.whole, []);
      assert u[..w] == n.whole;
      assert DecimalValue(n.whole, n.frac) == DigitsValue(n.whole) as real;
    } else {
      DigitRunOfDigits(n.whole, "." + n.frac);
      assert u[w] == '.';
      assert u[w + 1..] == n.frac + [];
      DigitRunOfDigits(n.frac, []);
      assert u[..w] == n.whole;
      assert u[w + 1..w + 1 + |n.frac|] == n.frac;
    }
  }

  lemma RStripNoTrailingSpace(s: string)
    requires s == [] || !IsSpace(s[|s| - 1])
    ensures RStrip(s) == s
  {
  }

  lemma StripNumeral(n: Numeral)
    requires n.Valid()
    ensures Strip(n.Text()) == n.Text()
  {
    var t := n.Text();
    LStripNoLeadingSpace(t);
    RStripNoTrailingSpace(t);
  }

  lemma UnsignedDecimalOfMantissa(u: string, v: real)
    requires Mantissa(u) == Some(Lexeme(|u|, v))
    ensures UnsignedDecimal(u) == Some(v)
  {
    assert u[|u|..] == [];
  }

  /** A sign in front of an unsigned decimal that starts with a digit negates or keeps it. */
  lemma SignedOfUnsigned(u: string, v: real)
    requires u != [] && IsDigit(u[0]) && UnsignedDecimal(u) == Some(v)
    ensures SignedDecimal(u) == Some(v)
    ensures SignedDecimal("-" + u) == Some(-v)
  {
    assert ("-" + u)[1..] == u;
  }

  lemma NumeralUnsigned(n: Numeral)
    requires n.Valid()
    ensures n.Unsigned() != [] && IsDigit(n.Unsigned()[0])
    ensures UnsignedDecimal(n.Unsigned()) == Some(DecimalValue(n.whole, n.frac))
  {
    UnsignedNumeralMatch(n);
    UnsignedDecimalOfMantissa(n.Unsigned(), DecimalValue(n.whole, n.frac));
    assert n.Unsigned()[0] == n.whole[0];
  }

  /** float() reads a numeral back as its value. */
  lemma ParseFloatNumeral(n: Numeral)
    requires n.Valid()
    ensures ParseFloat(n.Text()) == Some(n.Value())
  {
    StripNumeral(n);
    SignedNumeral(n);
  }

  lemma SignedNumeral(n: Numeral)
    requires n.Valid()
    ensures SignedDecimal(n.Text()) == Some(n.Value())
  {
    var u, v := n.Unsigned(), DecimalValue(n.whole, n.frac);
    NumeralUnsigned(n);
    SignedOfUnsigned(u, v);
  }

  /** The match of a digit run `whole`, a point and a second digit run `frac`. */
  lemma PointMantissa(s: string, n: nat, m: nat, whole: string, frac: string)
    requires 0 < n < |s| && DigitRun(s) == n && s[n] == '.' && DigitRun(s[n + 1..]) == m
    requires whole == s[..n] && frac == s[n + 1..n + 1 + m]
    ensures Mantissa(s) == Some(Lexeme(n + 1 + m, DecimalValue(whole, frac)))
  {
    PointMantissaParts(s, n, m);
  }

  lemma PointMantissaParts(s: string, n: nat, m: nat)
    requires 0 < n < |s| && DigitRun(s) == n && s[n] == '.' && DigitRun(s[n + 1..]) == m
    ensures Mantissa(s) == Some(Lexeme(n + 1 + m, DecimalValue(s[..n], s[n + 1..n + 1 + m])))
  {
  }

  /** The unsigned text of a numeral, followed by anything that cannot continue a number, is
      matched whole by `\d*\.?\d+`. */
  lemma RegexUnsignedNumeral(n: Numeral, rest: string)
    requires n.Valid()
    requires rest == [] || (!IsDigit(rest[0]) && rest[0] != '.')
    ensures RegexDecimal(n.Unsigned() + rest) == Some(Lexeme(|n.Unsigned()|, DecimalValue(n.whole, n.frac)))
  {
    if n.frac == [] {
      assert n.Unsigned() == n.whole;
      WholeRegex(n.whole + rest, n.whole, rest);
    } else {
      assert n.Unsigned() == n.whole + "." + n.frac;
      FracRegex(n.Unsigned() + rest, n.whole, n.frac, rest);
    }
  }

  /** Two digit runs with a point between them, followed by anything that cannot continue a
      number, are matched whole. */
  lemma FracRegex(s: string, whole: string, frac: string, rest: string)
    requires s == whole + "." + frac + rest && frac != []
    requires forall i :: 0 <= i < |whole| ==> IsDigit(whole[i])
    requires forall i :: 0 <= i < |frac| ==> IsDigit(frac[i])
    requires rest == [] || !IsDigit(rest[0])
    ensures RegexDecimal(s) == Some(Lexeme(|whole| + 1 + |frac|, DecimalValue(whole, frac)))
  {
    PointLayout(s, whole, frac, rest);
    PointRegex(s, |whole|, |frac|, whole, frac);
  }

  /** Where the runs of `whole.frac` lie in the text. */
  lemma PointLayout(s: string, whole: string, frac: string, rest: string)
    requires s == whole + "." + frac + rest
    requires forall i :: 0 <= i < |whole| ==> IsDigit(whole[i])
    requires forall i :: 0 <= i < |frac| ==> IsDigit(frac[i])
    requires rest == [] || !IsDigit(rest[0])
    ensures |whole| < |s| && DigitRun(s) == |whole| && s[|whole|] == '.'
    ensures DigitRun(s[|whole| + 1..]) == |frac|
    ensures s[..|whole|] == whole && s[|whole| + 1..|whole| + 1 + |frac|] == frac
  {
    PointSlices(s, whole, frac, rest);
    DigitRunOfDigits(whole, "." + frac + rest);
    DigitRunOfDigits(frac, rest);
  }

  lemma PointSlices(s: string, whole: string, frac: string, rest: string)
    requires s == whole + "." + frac + rest
    ensures s == whole + ("." + frac + rest)
    ensures s[|whole| + 1..] == frac + rest
    ensures s[..|whole|] == whole && s[|whole| + 1..|whole| + 1 + |frac|] == frac
  {
    assert s == whole + ("." + frac + rest);
  }

  /** A digit run followed by anything that cannot continue a number is matched whole. */
  lemma WholeRegex(s: string, whole: string, rest: string)
    requires s == whole + rest && whole != [] && forall i :: 0 <= i < |whole| ==> IsDigit(whole[i])
    requires rest == [] || (!IsDigit(rest[0]) && rest[0] != '.')
    ensures RegexDecimal(s) == Some(Lexeme(|whole|, DecimalValue(whole, [])))
  {
    DigitRunOfDigits(whole, rest);
    assert s[..|whole|] == whole;
  }

  /** The match of a digit run `whole`, a point and a non-empty second digit run `frac`. */
  lemma PointRegex(s: string, n: nat, m: nat, whole: string, frac: string)
    requires n < |s| && DigitRun(s) == n && s[n] == '.' && DigitRun(s[n + 1..]) == m && m > 0
    requires whole == s[..n] && frac == s[n + 1..n + 1 + m]
    ensures RegexDecimal(s) == Some(Lexeme(n + 1 + m, DecimalValue(whole, frac)))
  {
  }
}
