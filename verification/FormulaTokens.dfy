/** The tokenizer of src/libs/formula.functions.ts. Numbers are reals: rounding is not modelled. */
module FormulaTokens {
  import opened Wrappers

  datatype Operator = Plus | Minus | Times | Over

  datatype Token = Number(value: real) | Ref(name: string) | Op(op: Operator) | Open | Close

  /** The characters that \s and String.prototype.trim treat as white space. */
  predicate IsSpace(c: char) {
    || '\t' <= c <= '\r' || c == ' ' || c == '\U{00A0}' || c == '\U{1680}'
    || '\U{2000}' <= c <= '\U{200A}' || c == '\U{2028}' || c == '\U{2029}' || c == '\U{202F}'
    || c == '\U{205F}' || c == '\U{3000}' || c == '\U{FEFF}'
  }

  predicate IsDigit(c: char) { '0' <= c <= '9' }

  predicate IsNumeral(c: char) { IsDigit(c) || c == '.' }

  predicate IsNameStart(c: char) { 'A' <= c <= 'Z' || 'a' <= c <= 'z' || c == '_' }

  predicate IsNameChar(c: char) { IsNameStart(c) || IsDigit(c) || c == '-' }

  function OperatorOf(c: char): Option<Operator> {
    match c
    case '+' => Some(Plus)
    case '-' => Some(Minus)
    case '*' => Some(Times)
    case '/' => Some(Over)
    case _ => None
  }

  function TrimStart(s: string): string {
    if s != "" && IsSpace(s[0]) then TrimStart(s[1..]) else s
  }

  function TrimEnd(s: string): string {
    if s != "" && IsSpace(s[|s| - 1]) then TrimEnd(s[..|s| - 1]) else s
  }

  function Trim(s: string): string {
    TrimEnd(TrimStart(s))
  }

  function IndexOf(s: string, c: char): Option<nat> {
    if s == "" then None
    else if s[0] == c then Some(0)
    else match IndexOf(s[1..], c)
      case None => None
      case Some(i) => Some(i + 1)
  }

  lemma {:induction false} FoundAt(s: string, c: char)
    ensures match IndexOf(s, c)
            case Some(i) => i < |s| && s[i] == c && c !in s[..i]
            case None => c !in s
  {
    if s != "" && s[0] != c {
      FoundAt(s[1..], c);
      if IndexOf(s, c).Some? {
        var i := IndexOf(s, c).value;
        assert s[..i] == [s[0]] + s[1..][..i - 1];
      }
    }
  }

  lemma {:induction false} FirstIndexOf(name: string, c: char, rest: string)
    requires c !in name
    ensures IndexOf(name + [c] + rest, c) == Some(|name|)
  {
    if name != "" {
      assert (name + [c] + rest)[1..] == name[1..] + [c] + rest;
      FirstIndexOf(name[1..], c, rest);
    }
  }

  /** The length of the longest prefix whose characters satisfy `p`. */
  function Span(s: string, p: char -> bool): (n: nat)
    ensures n <= |s| && (forall i :: 0 <= i < n ==> p(s[i])) && (n < |s| ==> !p(s[n]))
  {
    if s != "" && p(s[0]) then 1 + Span(s[1..], p) else 0
  }

  lemma {:induction false} SpanOf(a: string, rest: string, p: char -> bool)
    requires forall i :: 0 <= i < |a| ==> p(a[i])
    requires rest == "" || !p(rest[0])
    ensures Span(a + rest, p) == |a|
  {
    assert forall i :: 0 <= i < |a| ==> p((a + rest)[i]);
    assert rest != "" ==> !p((a + rest)[|a|]);
  }

  // ---------------------------------------------------------------- numerals

  function Dots(raw: string): nat {
    if raw == "" then 0 else (if raw[0] == '.' then 1 else 0) + Dots(raw[1..])
  }

  /** The digits of a numeral read as one integer, the point ignored. */
  function Mantissa(raw: string, before: nat): nat {
    if raw == "" then before
    else if IsDigit(raw[0]) then Mantissa(raw[1..], 10 * before + (raw[0] as int - '0' as int))
    else Mantissa(raw[1..], before)
  }

  function Pow10(n: nat): (p: nat)
    ensures p > 0
  {
    if n == 0 then 1 else 10 * Pow10(n - 1)
  }

  function Decimals(raw: string): nat {
    match IndexOf(raw, '.')
    case None => 0
    case Some(i) => if i < |raw| then |raw| - i - 1 else 0
  }

  /** Number(raw) for a run of digits and points: NaN for two points or for no digit at all. */
  function NumberOf(raw: string): Option<real> {
    if Dots(raw) > 1 || Dots(raw) == |raw| then None else Some(Shifted(Mantissa(raw, 0), Decimals(raw)))
  }

  /** The point moved to the left. */
  function Shifted(mantissa: nat, decimals: nat): real {
    mantissa as real / Pow10(decimals) as real
  }

  ghost predicate Digits(s: string) {
    forall i :: 0 <= i < |s| ==> IsDigit(s[i])
  }

  lemma {:induction false} MantissaAppend(a: string, b: string, before: nat)
    ensures Mantissa(a + b, before) == Mantissa(b, Mantissa(a, before))
  {
    if a == "" {
      assert a + b == b;
    } else {
      assert (a + b)[1..] == a[1..] + b;
      MantissaAppend(a[1..], b, if IsDigit(a[0]) then 10 * before + (a[0] as int - '0' as int) else before);
    }
  }

  /** Digits in front of a run of digits count once more by ten for each of them. */
  lemma {:induction false} MantissaShift(s: string, before: nat)
    requires Digits(s)
    ensures Mantissa(s, before) == before * Pow10(|s|) + Mantissa(s, 0)
  {
    if s != "" {
      var d: nat := s[0] as int - '0' as int;
      var p := Pow10(|s[1..]|);
      MantissaShift(s[1..], 10 * before + d);
      MantissaShift(s[1..], d);
      assert (10 * before + d) * p == before * (10 * p) + d * p;
    }
  }

  lemma {:induction false} DotsAppend(a: string, b: string)
    ensures Dots(a + b) == Dots(a) + Dots(b)
    ensures Digits(a) ==> Dots(a) == 0
  {
    if a == "" {
      assert a + b == b;
    } else {
      assert (a + b)[1..] == a[1..] + b;
      DotsAppend(a[1..], b);
    }
  }

  lemma SumOverDivisor(m: real, f: real, p: real)
    requires p > 0.0
    ensures (m * p + f) / p == m + f / p
  {
    assert (m + f / p) * p == m * p + f;
  }

  lemma OnePoint(whole: string, fraction: string)
    requires Digits(whole) && Digits(fraction)
    ensures var raw := whole + "." + fraction;
            Dots(raw) == 1 && Decimals(raw) == |fraction| && |raw| == |whole| + 1 + |fraction|
  {
    var raw := whole + "." + fraction;
    assert raw == whole + ("." + fraction);
    DotsAppend(whole, "." + fraction);
    DotsAppend(".", fraction);
    DotsAppend(fraction, "");
    assert "."[1..] == "";
    FirstIndexOf(whole, '.', fraction);
    assert raw == whole + ['.'] + fraction;
  }

  lemma MantissaOfDecimal(whole: string, fraction: string)
    requires Digits(whole) && Digits(fraction)
    ensures Mantissa(whole + "." + fraction, 0) == Mantissa(whole, 0) * Pow10(|fraction|) + Mantissa(fraction, 0)
  {
    MantissaAppend(whole + ".", fraction, 0);
    MantissaAppend(whole, ".", 0);
    assert "."[1..] == "";
    MantissaShift(fraction, Mantissa(whole, 0));
  }

  lemma CastSum(n: nat, m: nat, f: nat, p: nat)
    requires n == m * p + f
    ensures n as real == m as real * p as real + f as real
  {}

  lemma Quotient(n: nat, m: nat, f: nat, p: nat)
    requires p > 0 && n == m * p + f
    ensures n as real / p as real == m as real + f as real / p as real
  {
    CastSum(n, m, f, p);
    SumOverDivisor(m as real, f as real, p as real);
  }

  lemma QuotientOfDecimal(whole: string, fraction: string)
    requires Digits(whole) && Digits(fraction)
    ensures Shifted(Mantissa(whole + "." + fraction, 0), |fraction|) ==
            Mantissa(whole, 0) as real + Shifted(Mantissa(fraction, 0), |fraction|)
  {
    hide Mantissa, Pow10, Digits;
    MantissaOfDecimal(whole, fraction);
    Quotient(Mantissa(whole + "." + fraction, 0), Mantissa(whole, 0), Mantissa(fraction, 0), Pow10(|fraction|));
  }

  /** A decimal numeral is its whole part plus its fraction, of which either may be missing. */
  lemma DecimalValue(whole: string, fraction: string)
    requires Digits(whole) && Digits(fraction) && whole + fraction != ""
    ensures NumberOf(whole + "." + fraction) ==
            Some(Mantissa(whole, 0) as real + Shifted(Mantissa(fraction, 0), |fraction|))
  {
    hide NumberOf, Mantissa, Shifted, Dots, Decimals, Digits, IndexOf;
    OnePoint(whole, fraction);
    assert |whole| + |fraction| == |whole + fraction| > 0;
    NumberOfOnePoint(whole + "." + fraction);
    QuotientOfDecimal(whole, fraction);
  }

  lemma NumberOfOnePoint(raw: string)
    requires Dots(raw) == 1 < |raw|
    ensures NumberOf(raw) == Some(Shifted(Mantissa(raw, 0), Decimals(raw)))
  {
    hide Mantissa, Shifted, Dots, Decimals;
  }

  // ---------------------------------------------------------------- what the digits of a numeral count

  const DIGITS := "0123456789"

  ghost predicate AllDigits(s: string) {
    forall i :: 0 <= i < |s| ==> s[i] in DIGITS
  }

  lemma DigitsExact(s: string)
    ensures AllDigits(s) <==> Digits(s)
  {
    DigitAt();
    forall i | 0 <= i < |s| ensures s[i] in DIGITS <==> IsDigit(s[i]) {
      if IsDigit(s[i]) {
        assert DIGITS[s[i] as int - '0' as int] == s[i];
      }
    }
  }

  lemma DigitAt()
    ensures |DIGITS| == 10 && forall d: nat :: d < 10 ==> DIGITS[d] == ('0' as int + d) as char
  {}

  /** 1, 1/10, 1/100 and so on. */
  ghost function Tenth(n: nat): real {
    if n == 0 then 1.0 else Tenth(n - 1) / 10.0
  }

  /** So many tenths, hundredths and so on. */
  ghost function Tenths(m: nat, n: nat): real { m as real * Tenth(n) }

  lemma {:induction false} TenthOfPower(n: nat)
    ensures Tenth(n) == 1.0 / Pow10(n) as real
  {
    if n > 0 {
      TenthOfPower(n - 1);
      var p := Pow10(n - 1);
      assert Pow10(n) as real == 10.0 * p as real;
      assert 1.0 / p as real / 10.0 == 1.0 / (10.0 * p as real);
    }
  }

  lemma MantissaDigit(s: string, d: nat, before: nat)
    requires d < 10
    ensures Mantissa(s + [DIGITS[d]], before) == 10 * Mantissa(s, before) + d
  {
    DigitAt();
    MantissaAppend(s, [DIGITS[d]], before);
    assert [DIGITS[d]][1..] == "";
  }

  lemma PlainNumber(s: string)
    requires AllDigits(s) && s != ""
    ensures NumberOf(s) == Some(Mantissa(s, 0) as real)
  {
    hide Mantissa, AllDigits;
    DigitsExact(s);
    DotsAppend(s, "");
    NoPoint(s);
    assert Pow10(0) == 1;
  }

  lemma NoPoint(s: string)
    requires Digits(s)
    ensures Decimals(s) == 0
  {
    FoundAt(s, '.');
  }

  /** One more digit of a whole number. */
  lemma DigitAppended(s: string, d: nat)
    requires AllDigits(s) && d < 10
    ensures NumberOf([DIGITS[d]]) == Some(d as real)
    ensures s != "" ==> NumberOf(s).Some? && NumberOf(s + [DIGITS[d]]) == Some(10.0 * NumberOf(s).value + d as real)
  {
    hide NumberOf, Mantissa;
    DigitAt();
    PlainNumber([DIGITS[d]]);
    MantissaDigit("", d, 0);
    assert "" + [DIGITS[d]] == [DIGITS[d]] && Mantissa("", 0) == 0 by { NoDigit(); }
    if s != "" {
      PlainNumber(s);
      PlainNumber(s + [DIGITS[d]]);
      MantissaDigit(s, d, 0);
    }
  }

  lemma NoDigit()
    ensures Mantissa("", 0) == 0
  {}

  lemma PointedNumber(whole: string, fraction: string, raw: string)
    requires AllDigits(whole) && AllDigits(fraction) && whole + fraction != "" && raw == whole + "." + fraction
    ensures NumberOf(raw) == Some(Tenths(Mantissa(raw, 0), |fraction|))
  {
    hide NumberOf, Mantissa, Dots, Decimals, AllDigits, Digits, Shifted, Tenths, IndexOf;
    DigitsExact(whole);
    DigitsExact(fraction);
    OnePoint(whole, fraction);
    assert |whole| + |fraction| == |whole + fraction| > 0;
    NumberOfOnePoint(raw);
    ShiftedIsTimes(Mantissa(raw, 0), |fraction|);
  }

  lemma ShiftedIsTimes(m: nat, n: nat)
    ensures Shifted(m, n) == Tenths(m, n)
  {
    TenthOfPower(n);
    hide Pow10, Tenth;
    Divided(m as real, Pow10(n) as real);
  }

  lemma Divided(m: real, p: real)
    requires p > 0.0
    ensures m / p == m * (1.0 / p)
  {
    assert m * (1.0 / p) * p == m * (1.0 / p * p) == m;
  }

  lemma AddedTenths(m: nat, d: nat, tenth: real)
    ensures (10 * m + d) as real * (tenth / 10.0) == m as real * tenth + d as real * (tenth / 10.0)
  {
    assert (10 * m + d) as real == 10.0 * m as real + d as real;
  }

  /** A point after a whole number changes nothing; one more digit after it counts a tenth of the one before. */
  lemma FractionAppended(whole: string, fraction: string, d: nat)
    requires AllDigits(whole) && AllDigits(fraction) && whole + fraction != "" && d < 10
    ensures whole != "" ==> NumberOf(whole + ".") == NumberOf(whole)
    ensures var before, after := NumberOf(whole + "." + fraction), NumberOf(whole + "." + fraction + [DIGITS[d]]);
            before.Some? && after == Some(before.value + Tenths(d, |fraction| + 1))
  {
    hide NumberOf, Mantissa, AllDigits, Tenths;
    if whole != "" {
      PointIsNothing(whole);
    }
    DigitIn(fraction, d);
    assert whole + "." + fraction + [DIGITS[d]] == whole + "." + (fraction + [DIGITS[d]]);
    PointedStep(whole, fraction, d, whole + "." + fraction, whole + "." + fraction + [DIGITS[d]]);
  }

  lemma PointedStep(whole: string, fraction: string, d: nat, raw: string, more: string)
    requires AllDigits(whole) && AllDigits(fraction) && whole + fraction != "" && d < 10
    requires raw == whole + "." + fraction && more == raw + [DIGITS[d]]
    ensures NumberOf(raw).Some? && NumberOf(more) == Some(NumberOf(raw).value + Tenths(d, |fraction| + 1))
  {
    hide NumberOf, Mantissa, AllDigits, Tenths;
    DigitIn(fraction, d);
    PointedNumber(whole, fraction, raw);
    assert more == whole + "." + (fraction + [DIGITS[d]]);
    PointedNumber(whole, fraction + [DIGITS[d]], more);
    MantissaDigit(raw, d, 0);
    NextTenth(Mantissa(raw, 0), d, |fraction|);
  }

  lemma DigitIn(s: string, d: nat)
    requires AllDigits(s) && d < 10
    ensures |DIGITS| == 10 && AllDigits(s + [DIGITS[d]])
  {}

  lemma NextTenth(m: nat, d: nat, n: nat)
    ensures Tenths(10 * m + d, n + 1) == Tenths(m, n) + Tenths(d, n + 1)
  {
    AddedTenths(m, d, Tenth(n));
  }

  lemma PointIsNothing(whole: string)
    requires AllDigits(whole) && whole != ""
    ensures NumberOf(whole + ".") == NumberOf(whole)
  {
    hide NumberOf, Mantissa, AllDigits;
    PlainNumber(whole);
    NoDigits();
    assert whole + "." + "" == whole + ".";
    PointedNumber(whole, "", whole + ".");
    MantissaOfPoint(whole);
  }

  lemma NoDigits()
    ensures AllDigits("")
  {}

  lemma MantissaOfPoint(whole: string)
    ensures Mantissa(whole + ".", 0) == Mantissa(whole, 0)
  {
    MantissaAppend(whole, ".", 0);
    assert "."[1..] == "";
  }

  // ---------------------------------------------------------------- the tokens of a string

  function Prepend(ts: seq<Token>, more: Option<seq<Token>>): Option<seq<Token>> {
    match more
    case None => None
    case Some(rest) => Some(ts + rest)
  }

  lemma PrependAppend(a: seq<Token>, b: seq<Token>, more: Option<seq<Token>>)
    ensures Prepend([], more) == more
    ensures Prepend(a, Prepend(b, more)) == Prepend(a + b, more)
  {
    if more.Some? {
      assert [] + more.value == more.value;
      assert a + (b + more.value) == a + b + more.value;
    }
  }

  /** The token at the head of `s`, which does not start with a space, and how long it is. */
  function Head(s: string): (r: Option<(Token, nat)>)
    requires s != "" && !IsSpace(s[0])
    ensures r.Some? ==> 0 < r.value.1 <= |s|
  {
    var c := s[0];
    if c == '(' then Some((Open, 1))
    else if c == ')' then Some((Close, 1))
    else if OperatorOf(c).Some? then Some((Op(OperatorOf(c).value), 1))
    else if c == '[' then
      FoundAt(s[1..], ']');
      match IndexOf(s[1..], ']')
      case None => None
      case Some(n) => if Trim(s[1..n + 1]) == "" then None else Some((Ref(Trim(s[1..n + 1])), n + 2))
    else if IsNumeral(c) then
      var n := Span(s, IsNumeral);
      match NumberOf(s[..n])
      case None => None
      case Some(v) => Some((Number(v), n))
    else if IsNameStart(c) then
      var n := Span(s, IsNameChar);
      Some((Ref(s[..n]), n))
    else None
  }

  /** None stands for a thrown FormulaError. */
  function Lex(s: string): Option<seq<Token>>
    decreases |s|
  {
    if s == "" then Some([])
    else if IsSpace(s[0]) then Lex(s[1..])
    else match Head(s)
      case None => None
      case Some((t, n)) => Prepend([t], Lex(s[n..]))
  }

  /** What the loop of `tokenize` keeps: the tokens so far, then the tokens of the rest. */
  ghost predicate Scanned(formula: string, tokens: seq<Token>, i: nat) {
    i <= |formula| && Lex(formula) == Prepend(tokens, Lex(formula[i..]))
  }

  lemma ScanToken(formula: string, tokens: seq<Token>, i: nat, t: Token, n: nat)
    requires Scanned(formula, tokens, i) && i < |formula| && !IsSpace(formula[i])
    requires Head(formula[i..]) == Some((t, n))
    ensures Scanned(formula, tokens + [t], i + n)
  {
    var rest := formula[i..];
    assert rest[n..] == formula[i + n..];
    PrependAppend(tokens, [t], Lex(rest[n..]));
  }

  lemma ScanSpace(formula: string, tokens: seq<Token>, i: nat)
    requires Scanned(formula, tokens, i) && i < |formula| && IsSpace(formula[i])
    ensures Scanned(formula, tokens, i + 1)
  {
    assert formula[i..][1..] == formula[i + 1..];
  }

  lemma ScanStuck(formula: string, tokens: seq<Token>, i: nat)
    requires Scanned(formula, tokens, i) && i < |formula| && !IsSpace(formula[i])
    requires Head(formula[i..]) == None
    ensures Lex(formula) == None
  {}

  lemma ScanEnds(formula: string, tokens: seq<Token>)
    ensures Scanned(formula, [], 0)
    ensures Scanned(formula, tokens, |formula|) ==> Lex(formula) == Some(tokens)
  {
    assert formula[0..] == formula && formula[|formula|..] == "" && tokens + [] == tokens;
    PrependAppend([], [], Lex(formula));
  }

  /** One turn of the loop, from a character that is not a space: a token and where the next one starts. */
  method ReadToken(formula: string, i: nat) returns (r: Option<(Token, nat)>)
    requires i < |formula| && !IsSpace(formula[i])
    ensures match Head(formula[i..])
            case None => r == None
            case Some((t, n)) => r == Some((t, i + n))
  {
    hide NumberOf, Trim, IndexOf, Span, IsNumeral, IsNameStart, IsNameChar;
    var c := formula[i];
    ghost var here := formula[i..];
    assert here[0] == c;
    if c == '(' || c == ')' {
      return Some((if c == '(' then Open else Close, i + 1));
    }
    if OperatorOf(c).Some? {
      return Some((Op(OperatorOf(c).value), i + 1));
    }
    if c == '[' {
      assert formula[i + 1..] == here[1..];
      FoundAt(here[1..], ']');
      var offset := IndexOf(formula[i + 1..], ']');
      if offset == None {
        return None;
      }
      var end := i + 1 + offset.value;
      assert formula[i + 1..end] == here[1..offset.value + 1];
      var name := Trim(formula[i + 1..end]);
      if name == "" {
        return None;
      }
      return Some((Ref(name), end + 1));
    }
    if IsNumeral(c) {
      var end := i + Span(formula[i..], IsNumeral);
      assert formula[i..end] == here[..end - i];
      var value := NumberOf(formula[i..end]);
      if value == None {
        return None;
      }
      return Some((Number(value.value), end));
    }
    if IsNameStart(c) {
      var end := i + Span(formula[i..], IsNameChar);
      assert formula[i..end] == here[..end - i];
      return Some((Ref(formula[i..end]), end));
    }
    return None;
  }

  method Tokenize(formula: string) returns (result: Option<seq<Token>>)
    ensures result == Lex(formula)
  {
    hide Lex, Head, Prepend;
    var tokens: seq<Token> := [];
    var i := 0;
    ScanEnds(formula, tokens);
    while i < |formula|
      invariant Scanned(formula, tokens, i)
    {
      if IsSpace(formula[i]) {
        ScanSpace(formula, tokens, i);
        i := i + 1;
      } else {
        var read := ReadToken(formula, i);
        if read == None {
          ScanStuck(formula, tokens, i);
          return None;
        }
        ScanToken(formula, tokens, i, read.value.0, read.value.1 - i);
        tokens, i := tokens + [read.value.0], read.value.1;
      }
    }
    ScanEnds(formula, tokens);
    result := Some(tokens);
  }

  // ---------------------------------------------------------------- names

  /** A run of name characters followed by anything else is one bare reference, hyphens included. */
  lemma BareName(name: string, rest: string)
    requires name != "" && IsNameStart(name[0]) && forall i :: 0 <= i < |name| ==> IsNameChar(name[i])
    requires rest == "" || !IsNameChar(rest[0])
    ensures Lex(name + rest) == Prepend([Ref(name)], Lex(rest))
  {
    SpanOf(name, rest, IsNameChar);
    var s := name + rest;
    assert s[..|name|] == name && s[|name|..] == rest;
    assert Head(s) == Some((Ref(name), |name|));
  }

  /** `A-B` is one reference, not a subtraction. */
  lemma HyphenIsPartOfAName()
    ensures Lex("A-B") == Some([Ref("A-B")])
  {
    BareName("A-B", "");
    assert "A-B" + "" == "A-B" && Lex("") == Some([]);
    assert [Ref("A-B")] + [] == [Ref("A-B")];
  }
}
