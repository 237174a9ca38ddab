/**
  The sheet's numeric fields hold JavaScript's `number | ""`. Only integers are
  modelled; `NaN` is kept because the source tests for it explicitly.
  This module holds the modifier rule of src/utils/math.ts, the signed
  display rule shared by the ability, skill and spellcasting blocks, and the
  two text-to-number conversions the source uses (`Number(text)` and
  `parseInt(text, 10)`), restricted to integer notation.
 */
module Numbers {
  import opened Options
  import opened Text

  /** A stored numeric field: blank (`""`), `NaN`, or an integer. */
  datatype Value = Blank | NaN | Num(n: int)

  // ---- Ability modifier

  /** `calcMod`: blank and `NaN` give blank; a base `b` gives `floor((b - 10) / 2)`. */
  function CalcMod(base: Value): (r: Value)
    ensures r.Num? <==> base.Num?
    ensures base.Num? ==> 2 * r.n <= base.n - 10 < 2 * r.n + 2
  {
    match base
    case Blank => Blank
    case NaN => Blank
    case Num(b) => Num((b - 10) / 2)
  }

  /** Rounding is toward negative infinity: 9 gives -1, and 10 and 11 both give 0. */
  lemma CalcModExamples()
    ensures CalcMod(Num(9)) == Num(-1)
    ensures CalcMod(Num(10)) == Num(0) && CalcMod(Num(11)) == Num(0)
    ensures CalcMod(Num(14)) == Num(2) && CalcMod(Num(16)) == Num(3)
    ensures CalcMod(Num(1)) == Num(-5) && CalcMod(Num(0)) == Num(-5)
  {
  }

  /** The modifier never decreases when the base grows. */
  lemma CalcModMonotone(b1: int, b2: int)
    requires b1 <= b2
    ensures CalcMod(Num(b1)).n <= CalcMod(Num(b2)).n
  {
  }

  /** Two more points of base are exactly one more point of modifier. */
  lemma CalcModStep(b: int)
    ensures CalcMod(Num(b + 2)).n == CalcMod(Num(b)).n + 1
  {
  }

  // ---- Decimal digits

  predicate IsDigit(c: char)
  {
    '0' <= c <= '9'
  }

  predicate AllDigits(s: string)
  {
    forall i | 0 <= i < |s| :: IsDigit(s[i])
  }

  function DigitChar(d: nat): (c: char)
    requires d < 10
    ensures IsDigit(c)
  {
    ('0' as int + d) as char
  }

  function DigitsValue(s: string): nat
    requires AllDigits(s)
  {
    if |s| == 0 then 0
    else 10 * DigitsValue(s[..|s| - 1]) + ((s[|s| - 1] as int) - ('0' as int))
  }

  /** The shortest decimal spelling of a natural number. */
  function NatToString(n: nat): (s: string)
    ensures |s| > 0 && AllDigits(s)
    ensures DigitsValue(s) == n
  {
    if n < 10 then [DigitChar(n)]
    else
      var p := NatToString(n / 10);
      var s := p + [DigitChar(n % 10)];
      assert s[..|s| - 1] == p;
      s
  }

  /** `String(n)` / `${n}` for an integer. */
  function IntToString(n: int): (s: string)
    ensures |s| > 0
    ensures n >= 0 ==> AllDigits(s) && DigitsValue(s) == n
    ensures n < 0 ==> s[0] == '-' && AllDigits(s[1..]) && DigitsValue(s[1..]) == -n
  {
    if n < 0 then "-" + NatToString(-n) else NatToString(n)
  }

  // ---- Text to number

  predicate IsSign(c: char)
  {
    c == '+' || c == '-'
  }

  /** An optional single sign followed by one or more digits. */
  predicate IsIntLiteral(t: string)
  {
    if |t| > 0 && IsSign(t[0]) then |t| > 1 && AllDigits(t[1..])
    else |t| > 0 && AllDigits(t)
  }

  function LiteralValue(t: string): int
    requires IsIntLiteral(t)
  {
    if IsSign(t[0]) then
      (if t[0] == '-' then -(DigitsValue(t[1..]) as int) else DigitsValue(t[1..]))
    else DigitsValue(t)
  }

  /**
    `Number(text)` over integer notation: surrounding whitespace is ignored,
    an empty or all-blank text is 0, an integer literal is its value and
    anything else is `NaN`.
   */
  function ParseNumber(text: string): (r: Value)
    ensures !r.Blank?
    ensures AllSpace(text) ==> r == Num(0)
    ensures r.NaN? <==> !AllSpace(text) && !IsIntLiteral(Trim(text))
  {
    var t := Trim(text);
    if t == "" then Num(0)
    else if IsIntLiteral(t) then Num(LiteralValue(t))
    else NaN
  }

  /** The longest prefix of `s` made of digits. */
  function LeadingDigits(s: string): (d: string)
    ensures |d| <= |s| && d == s[..|d|]
    ensures AllDigits(d)
    ensures |d| < |s| ==> !IsDigit(s[|d|])
  {
    if |s| > 0 && IsDigit(s[0]) then
      var rest := LeadingDigits(s[1..]);
      assert [s[0]] + rest == s[..|rest| + 1];
      [s[0]] + rest
    else ""
  }

  /**
    `parseInt(text, 10)`: after leading whitespace and an optional sign, the
    value of the longest run of digits; `None` (`NaN`) when there is no digit.
   */
  function ParseIntPrefix(text: string): Option<int>
  {
    var t := TrimStart(text);
    var body := if |t| > 0 && IsSign(t[0]) then t[1..] else t;
    var d := LeadingDigits(body);
    if d == "" then None
    else if |t| > 0 && t[0] == '-' then Some(-(DigitsValue(d) as int))
    else Some(DigitsValue(d))
  }

  lemma {:induction false} LeadingDigitsOfDigits(d: string, rest: string)
    requires AllDigits(d)
    requires |rest| > 0 ==> !IsDigit(rest[0])
    ensures LeadingDigits(d + rest) == d
    decreases |d|
  {
    if |d| == 0 {
      assert d + rest == rest;
    } else {
      assert (d + rest)[0] == d[0];
      assert (d + rest)[1..] == d[1..] + rest;
      LeadingDigitsOfDigits(d[1..], rest);
      assert d == [d[0]] + d[1..];
    }
  }

  /**
    `parseInt` reads back the number `String(n)` printed, whatever follows it,
    provided the next character is not a digit.
   */
  lemma ParseIntPrefixOfInt(n: int, rest: string)
    requires |rest| > 0 ==> !IsDigit(rest[0])
    ensures ParseIntPrefix(IntToString(n) + rest) == Some(n)
  {
    var p := IntToString(n);
    var s := p + rest;
    assert s[0] == p[0];
    assert !IsSpace(s[0]);
    assert TrimStart(s) == s;
    if n < 0 {
      var digits := p[1..];
      assert s[1..] == digits + rest;
      LeadingDigitsOfDigits(digits, rest);
      assert LeadingDigits(s[1..]) == digits;
    } else {
      assert IsDigit(s[0]);
      LeadingDigitsOfDigits(p, rest);
      assert LeadingDigits(s) == p;
    }
  }

  /** A printed integer has no surrounding blanks, so trimming it first changes nothing. */
  lemma ParseIntOfPrinted(n: int)
    ensures Trim(IntToString(n)) == IntToString(n)
    ensures ParseIntPrefix(Trim(IntToString(n))) == Some(n)
  {
    var t := IntToString(n);
    assert !IsSpace(t[0]);
    assert t[|t| - 1] == '-' || IsDigit(t[|t| - 1]);
    TrimOfTrimmed(t);
    assert t + "" == t;
    ParseIntPrefixOfInt(n, "");
  }

  /** `Number` reads a printed integer back as that integer. */
  lemma ParseNumberOfPrinted(n: int)
    ensures ParseNumber(IntToString(n)) == Num(n)
  {
    var t := IntToString(n);
    assert !IsSpace(t[0]);
    assert t[|t| - 1] == '-' || IsDigit(t[|t| - 1]);
    TrimOfTrimmed(t);
    if n < 0 {
      assert IsIntLiteral(t);
    } else {
      assert !IsSign(t[0]);
    }
  }

  // ---- Signed display

  /** `formatSigned`: blank and `NaN` show nothing; otherwise "+n" for n >= 0 and "-m" below. */
  function FormatSigned(v: Value): (s: string)
    ensures s == "" <==> !v.Num?
    ensures v.Num? ==> IsIntLiteral(s) && IsSign(s[0])
    ensures v.Num? ==> (s[0] == '+' <==> v.n >= 0)
  {
    match v
    case Num(n) =>
      if n >= 0 then
        var s := "+" + IntToString(n);
        assert s[1..] == IntToString(n);
        s
      else IntToString(n)
    case _ => ""
  }

  /** Typing a shown signed value back into a numeric field yields the same value. */
  lemma FormatSignedRoundTrip(v: Value)
    requires v.Num?
    ensures ParseNumber(FormatSigned(v)) == v
  {
    var s := FormatSigned(v);
    TrimOfTrimmed(s);
    if v.n >= 0 {
      assert s[1..] == IntToString(v.n);
    }
  }

  /**
    `isTypingValid`, the regular expression `^[-+]?\d*$`: what a partially
    typed signed integer may look like.
   */
  predicate IsTypingValid(s: string)
  {
    if |s| > 0 && IsSign(s[0]) then AllDigits(s[1..]) else AllDigits(s)
  }

  /** Every complete typing-valid text is a finite number, so its commit never sees `NaN`. */
  lemma TypingValidIsNumber(t: string)
    requires IsTypingValid(t)
    requires t != "" && t != "+" && t != "-"
    ensures IsIntLiteral(t)
    ensures ParseNumber(t) == Num(LiteralValue(t))
  {
    TrimOfTrimmed(t);
  }

  /** The typing-valid texts are exactly the integer literals and the three incomplete ones. */
  lemma TypingValidExactly(t: string)
    ensures IsTypingValid(t) <==> IsIntLiteral(t) || t == "" || t == "+" || t == "-"
  {
    if |t| == 1 && IsSign(t[0]) {
      assert t == "+" || t == "-";
    }
  }

  // ---- Committing typed numbers

  /**
    The commit rule of the save and spell-attack inputs: the text is
    trimmed, blank stays blank, `NaN` becomes blank, and anything else is
    `Number(text)`.
   */
  function ReadSigned(raw: string): (r: Value)
    ensures !r.NaN?
    ensures r.Blank? <==> AllSpace(raw) || !IsIntLiteral(Trim(raw))
    ensures r.Num? ==> r.n == LiteralValue(Trim(raw))
  {
    var t := Trim(raw);
    TrimIdempotent(raw);
    if t == "" then Blank
    else
      match ParseNumber(t)
      case NaN => Blank
      case v => v
  }

  /** Typing back what a signed field shows stores the value shown, blank included. */
  lemma ReadSignedOfFormatted(v: Value)
    ensures ReadSigned(FormatSigned(v)) == (if v.Num? then v else Blank)
  {
    if v.Num? {
      ReadSignedOfSigned(v.n);
    } else {
      assert FormatSigned(v) == "";
    }
  }

  lemma ReadSignedOfSigned(n: int)
    ensures ReadSigned(FormatSigned(Num(n))) == Num(n)
  {
    var s := FormatSigned(Num(n));
    FormatSignedRoundTrip(Num(n));
    LiteralTrimmed(s);
    ReadSignedNumber(s, Num(n));
  }

  /** An integer literal has no surrounding blanks. */
  lemma LiteralTrimmed(s: string)
    requires IsIntLiteral(s)
    ensures Trim(s) == s
  {
    assert !IsSpace(s[0]);
    assert IsDigit(s[|s| - 1]);
    TrimOfTrimmed(s);
  }

  lemma ReadSignedNumber(s: string, v: Value)
    requires s != "" && Trim(s) == s && v.Num? && ParseNumber(s) == v
    ensures ReadSigned(s) == v
  {
  }
}
