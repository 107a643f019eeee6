/**
 * Swift's `Int` on a 64-bit platform as the prompt helpers use it: the
 * failable initialiser `Int(_: String)` and `String(describing:)` of an Int.
 */
module SwiftInt {
  import opened Wrappers
  import opened SwiftText

  const MinInt: int := -0x8000_0000_0000_0000
  const MaxInt: int := 0x7FFF_FFFF_FFFF_FFFF

  predicate IsDigit(c: char) { '0' <= c <= '9' }

  predicate AllDigits(s: string) {
    forall i | 0 <= i < |s| :: IsDigit(s[i])
  }

  predicate IsSign(c: char) { c == '+' || c == '-' }

  /** No blank character is a digit or a sign. */
  lemma BlankIsNotNumeric(c: char)
    requires IsBlank(c)
    ensures !IsDigit(c) && !IsSign(c)
  {
    assert c as int in BlankCodes;
  }

  function DigitValue(c: char): nat
    requires IsDigit(c)
  {
    c as int - '0' as int
  }

  function DigitChar(d: nat): (c: char)
    requires d < 10
    ensures IsDigit(c) && DigitValue(c) == d
  {
    ('0' as int + d) as char
  }

  /** The number a run of decimal digits denotes, most significant first. */
  function DigitsValue(s: string): nat
    requires AllDigits(s)
  {
    if s == [] then 0 else 10 * DigitsValue(s[..|s| - 1]) + DigitValue(s[|s| - 1])
  }

  /** The decimal digits of `n` without leading zeros; zero is "0". */
  function Digits(n: nat): (r: string)
    ensures |r| > 0 && AllDigits(r)
    ensures r[0] == '0' <==> n == 0
    ensures n < 10 <==> |r| == 1
  {
    if n < 10 then [DigitChar(n)] else Digits(n / 10) + [DigitChar(n % 10)]
  }

  /** `Int(s)`: an optional `+` or `-`, then one or more ASCII digits and
      nothing else (no blanks); nil when the value does not fit in 64 bits. */
  function ParseInt(s: string): (r: Option<int>)
    ensures r.Some? ==> MinInt <= r.value <= MaxInt
  {
    var body := if |s| > 0 && IsSign(s[0]) then s[1..] else s;
    if body == [] || !AllDigits(body) then None
    else
      var v: int := if |s| > 0 && s[0] == '-' then 0 - DigitsValue(body) as int else DigitsValue(body);
      if MinInt <= v <= MaxInt then Some(v) else None
  }

  /** What `Int(s)` accepts: a sign only in front, a digit everywhere else,
      and at least one digit. */
  lemma {:induction false} ParsedShape(s: string)
    requires ParseInt(s).Some?
    ensures |s| > 0 && IsDigit(s[|s| - 1])
    ensures forall i | 0 <= i < |s| :: IsDigit(s[i]) || (i == 0 && IsSign(s[i]))
  {
    var body := if IsSign(s[0]) then s[1..] else s;
    assert s[|s| - 1] == body[|body| - 1];
    forall i | 1 <= i < |s| ensures IsDigit(s[i]) {
      if IsSign(s[0]) { assert s[i] == body[i - 1]; }
    }
  }

  /** `String(describing: v)` for an Int: a minus sign for negative values,
      then the digits of the magnitude. */
  function RenderInt(v: int): (s: string)
    ensures IsCanonical(s)
    ensures s[0] == '-' <==> v < 0
  {
    if v < 0 then
      var d := Digits(-v);
      var s := "-" + d;
      assert s[1..] == d && s[1] == d[0];
      s
    else Digits(v)
  }

  /** The canonical decimal form: no plus sign, no leading zero, no "-0". */
  predicate IsCanonical(s: string) {
    if |s| > 0 && s[0] == '-' then
      |s| > 1 && AllDigits(s[1..]) && s[1] != '0'
    else
      |s| > 0 && AllDigits(s) && (s[0] != '0' || s == "0")
  }

  lemma {:induction false} DigitsRoundTrip(n: nat)
    ensures DigitsValue(Digits(n)) == n
  {
    if n >= 10 {
      var d := Digits(n);
      assert d[..|d| - 1] == Digits(n / 10);
      DigitsRoundTrip(n / 10);
    }
  }

  /** Digits without a leading zero are the rendering of the number they denote. */
  lemma {:induction false} DigitsOfValue(s: string)
    requires |s| > 0 && AllDigits(s) && (s[0] != '0' || s == "0")
    ensures Digits(DigitsValue(s)) == s
  {
    var init := s[..|s| - 1];
    if init != [] {
      assert init[0] == s[0];
      DigitsOfValue(init);
      var v := DigitsValue(init);
      assert init[0] != '0';
      assert DigitsValue(s) / 10 == v && DigitsValue(s) % 10 == DigitValue(s[|s| - 1]);
      assert s == init + [s[|s| - 1]];
    }
  }

  /** A non-negative Int parses back from its rendering. */
  lemma {:induction false} ParseRenderedNatural(v: int)
    requires 0 <= v <= MaxInt
    ensures ParseInt(RenderInt(v)) == Some(v)
  {
    var d := Digits(v);
    DigitsRoundTrip(v);
    assert !IsSign(d[0]);
  }

  /** A minus sign and a run of digits parse to the negated number when that fits. */
  lemma {:induction false} ParseNegative(d: string)
    requires d != [] && AllDigits(d) && DigitsValue(d) <= -MinInt
    ensures ParseInt("-" + d) == Some(0 - DigitsValue(d) as int)
  {
    var s := "-" + d;
    assert s[0] == '-' && s[1..] == d;
  }

  /** A negative Int parses back from its rendering. */
  lemma {:induction false} ParseRenderedNegative(v: int)
    requires MinInt <= v < 0
    ensures ParseInt(RenderInt(v)) == Some(v)
  {
    var d := Digits(-v);
    assert RenderInt(v) == "-" + d;
    DigitsRoundTrip(-v);
    ParseNegative(d);
    assert 0 - DigitsValue(d) as int == v;
  }

  /** Rendering an Int and parsing it back gives the same Int, and the
      rendering is in canonical form. */
  lemma {:induction false} RenderIntRoundTrip(v: int)
    requires MinInt <= v <= MaxInt
    ensures ParseInt(RenderInt(v)) == Some(v)
    ensures IsCanonical(RenderInt(v))
  {
    if v < 0 {
      ParseRenderedNegative(v);
    } else {
      ParseRenderedNatural(v);
    }
  }

  lemma {:induction false} CanonicalNegative(s: string)
    requires |s| > 1 && s[0] == '-' && AllDigits(s[1..]) && s[1] != '0'
    requires ParseInt(s).Some?
    ensures s == RenderInt(ParseInt(s).value)
  {
    var body := s[1..];
    assert body[0] == s[1];
    DigitsOfValue(body);
    var n := DigitsValue(body);
    assert n != 0;
    assert ParseInt(s) == Some(0 - n as int);
    assert s == "-" + body;
  }

  lemma {:induction false} CanonicalNatural(s: string)
    requires |s| > 0 && AllDigits(s) && (s[0] != '0' || s == "0")
    requires ParseInt(s).Some?
    ensures s == RenderInt(ParseInt(s).value)
  {
    DigitsOfValue(s);
    assert !IsSign(s[0]);
    assert ParseInt(s) == Some(DigitsValue(s) as int);
  }

  /** A canonical literal is the rendering of the value it parses to: every
      Int has exactly one canonical spelling. */
  lemma {:induction false} CanonicalIsRendering(s: string)
    requires IsCanonical(s) && ParseInt(s).Some?
    ensures s == RenderInt(ParseInt(s).value)
  {
    if |s| > 0 && s[0] == '-' {
      CanonicalNegative(s);
    } else {
      CanonicalNatural(s);
    }
  }

  /** One more digit at the end multiplies by ten and adds it. */
  lemma {:induction false} DigitsValueSnoc(s: string, c: char)
    requires AllDigits(s) && IsDigit(c)
    ensures AllDigits(s + [c]) && DigitsValue(s + [c]) == 10 * DigitsValue(s) + DigitValue(c)
  {
    assert (s + [c])[..|s|] == s;
  }

  /** A plus sign and leading zeros are accepted: `Int("+042")` is 42. */
  lemma {:induction false} ParsePlusLeadingZero()
    ensures ParseInt("+042") == Some(42)
  {
    DigitsValueSnoc("", '0');
    assert "" + ['0'] == "0";
    DigitsValueSnoc("0", '4');
    assert "0" + ['4'] == "04";
    DigitsValueSnoc("04", '2');
    assert "04" + ['2'] == "042";
    assert "+042"[1..] == "042";
  }

  lemma {:induction false} Render42()
    ensures RenderInt(42) == "42"
  {
    assert Digits(4) == "4";
    assert Digits(42) == Digits(4) + [DigitChar(2)];
  }

  lemma {:induction false} Parse200()
    ensures ParseInt("200") == Some(200)
  {
    DigitsValueSnoc("", '2');
    assert "" + ['2'] == "2";
    DigitsValueSnoc("2", '0');
    assert "2" + ['0'] == "20";
    DigitsValueSnoc("20", '0');
    assert "20" + ['0'] == "200";
  }

  lemma {:induction false} ParseMinus5()
    ensures ParseInt("-5") == Some(-5)
  {
    DigitsValueSnoc("", '5');
    assert "" + ['5'] == "5";
    assert "-5"[1..] == "5";
  }
}
