/**
 * The values a sequence entry's text is cast to (`SequenceUI.typecast`), and the part of
 * Python's `float()` that the cast relies on.
 *
 * Numbers are exact: a decimal literal denotes the rational number it writes, with no
 * rounding to the nearest double.
 */
module Values {
  import opened Wrappers
  import opened Text

  /** The results `typecast` can produce. */
  datatype Value =
    | Num(r: real)             // a finite float
    | Inf(negative: bool)      // float("inf") and its negation
    | NaN                      // float("nan")
    | Str(s: string)           // the original text, when nothing else applies
    | List(items: seq<Value>)  // a bracketed, comma-separated list
    | Evaluated(source: string) // whatever `eval` builds from text mentioning `np`

  /** `-1 * x` for a float `x`. */
  function Negate(x: Value): (r: Value)
    requires x.Num? || x.Inf? || x.NaN?
    ensures r.Num? <==> x.Num?
    ensures x.Num? ==> r.r == -x.r
    ensures x.Inf? ==> r == Inf(!x.negative)
    ensures x.NaN? ==> r == NaN
  {
    match x
    case Num(v) => Num(-v)
    case Inf(n) => Inf(!n)
    case NaN => NaN
  }

  /** Negating twice gives the float back. */
  lemma NegateInvolution(x: Value)
    requires x.Num? || x.Inf? || x.NaN?
    ensures Negate(Negate(x)) == x
  {
  }

  // ---------------------------------------------------------------- float()

  /** `m * 10^e` as an exact rational number. */
  function Scale(m: real, e: int): real
    decreases if e >= 0 then e else -e
  {
    if e == 0 then m
    else if e > 0 then 10.0 * Scale(m, e - 1)
    else Scale(m, e + 1) / 10.0
  }

  /** ASCII lower case, which is how `float()` compares the words `inf`, `infinity` and `nan`. */
  function Lower(s: string): (r: string)
    ensures |r| == |s|
  {
    if s == [] then []
    else [if 'A' <= s[0] <= 'Z' then (s[0] as int + 32) as char else s[0]] + Lower(s[1..])
  }

  /** Index of the first `c` in `s`, or `|s|` when there is none. */
  function IndexOf(s: string, c: char): (k: nat)
    ensures k <= |s|
    ensures c !in s[..k]
    ensures k < |s| ==> s[k] == c
  {
    if s == [] then 0
    else if s[0] == c then 0
    else
      var k := 1 + IndexOf(s[1..], c);
      assert s[..k] == [s[0]] + s[1..][..k - 1];
      k
  }

  /** The exponent part of a literal: an optional sign and at least one digit. */
  function ParseExponent(s: string): Option<int>
  {
    if |s| >= 1 && (s[0] == '+' || s[0] == '-') then
      if |s| >= 2 && AllDigits(s[1..]) then
        var v: int := DigitsValue(s[1..]);
        Some(if s[0] == '-' then -v else v)
      else None
    else if |s| >= 1 && AllDigits(s) then Some(DigitsValue(s))
    else None
  }

  /** A decimal literal without a sign: `digits[.digits][e[sign]digits]`, with at least one mantissa digit. */
  function ParseDecimal(s: string): Option<real>
  {
    var k := IndexOf(Lower(s), 'e');
    var exponent := if k < |s| then ParseExponent(s[k + 1..]) else Some(0);
    match exponent
    case Some(e) => ParseMantissa(s[..k], e)
    case None => None
  }

  /** The mantissa `digits[.digits]` of a decimal literal, scaled by `10^e`. */
  function ParseMantissa(m: string, e: int): Option<real>
  {
    var d := IndexOf(m, '.');
    var whole := m[..d];
    var fraction := if d < |m| then m[d + 1..] else [];
    if AllDigits(whole) && AllDigits(fraction) && |whole| + |fraction| >= 1 then
      assert AllDigits(whole + fraction);
      Some(Scale(DigitsValue(whole + fraction) as real, e - |fraction|))
    else None
  }

  /** `float(s)` on a string without its sign: a decimal literal, `inf`, `infinity` or `nan`. */
  function ParseUnsigned(s: string): (r: Option<Value>)
    ensures r.Some? ==> r.value.Num? || r.value.Inf? || r.value.NaN?
    ensures r.Some? && r.value.Num? ==> r.value.r >= 0.0
    ensures r.Some? && r.value.Inf? ==> !r.value.negative
  {
    var w := Lower(s);
    if w == "inf" || w == "infinity" then Some(Inf(false))
    else if w == "nan" then Some(NaN)
    else
      match ParseDecimal(s)
      case Some(v) => if v >= 0.0 then Some(Num(v)) else None
      case None => None
  }

  /**
   * `float(s)`: surrounding white space, an optional sign, then an unsigned literal.
   * Succeeds only with a float.
   */
  function ParseFloat(s: string): (r: Option<Value>)
    ensures r.Some? ==> r.value.Num? || r.value.Inf? || r.value.NaN?
  {
    var t := Strip(s);
    if |t| >= 1 && (t[0] == '-' || t[0] == '+') then
      match ParseUnsigned(t[1..])
      case Some(x) => Some(if t[0] == '-' then Negate(x) else x)
      case None => None
    else ParseUnsigned(t)
  }

  // ---------------------------------------------------------------- typecast

  /** Whether `"np" in s`. */
  predicate HasNp(s: string) {
    exists i :: 0 <= i < |s| - 1 && s[i] == 'n' && s[i + 1] == 'p'
  }

  /** `s[1:-1]` */
  function Inner(s: string): (r: string)
    ensures |s| >= 1 ==> |r| < |s|
  {
    if |s| >= 2 then s[1..|s| - 1] else []
  }

  predicate Bracketed(s: string) {
    |s| >= 1 && s[0] == '[' && s[|s| - 1] == ']'
  }

  /**
   * `typecast(val)`: a leading `-` is set aside; then the rest is cast by `float()` and negated,
   * or, failing that, a bracketed rest becomes a list of the casts of its stripped comma-separated
   * pieces (the sign is then lost), or a rest mentioning `np` is evaluated; otherwise the original
   * text comes back.
   */
  function Typecast(val: string): Value
    decreases |val|
  {
    var negative := |val| >= 1 && val[0] == '-';
    var rest := if negative then val[1..] else val;
    match ParseFloat(rest)
    case Some(x) => if negative then Negate(x) else x
    case None =>
      if Bracketed(rest) then
        var pieces := Split(Inner(rest), ',');
        List(seq(|pieces|, i requires 0 <= i < |pieces| => Typecast(Strip(pieces[i]))))
      else if HasNp(rest) then Evaluated(rest)
      else Str(val)
  }

  // ---------------------------------------------------------------- properties

  lemma {:induction false} LowerDigits(s: string)
    requires AllDigits(s)
    ensures Lower(s) == s
  {
    if s != [] {
      LowerDigits(s[1..]);
    }
  }

  lemma {:induction false} IndexOfAbsent(s: string, c: char)
    requires c !in s
    ensures IndexOf(s, c) == |s|
  {
    if s != [] {
      IndexOfAbsent(s[1..], c);
    }
  }

  /** A string of digits is a decimal literal with no fraction and no exponent. */
  lemma DecimalOfDigits(s: string)
    requires |s| >= 1 && AllDigits(s)
    ensures ParseDecimal(s).Some? && ParseDecimal(s).value == DigitsValue(s) as real
  {
    assert 'e' !in s && '.' !in s by {
      forall i | 0 <= i < |s| ensures s[i] != 'e' && s[i] != '.' {
        assert IsDigit(s[i]);
      }
    }
    LowerDigits(s);
    IndexOfAbsent(s, 'e');
    var k := IndexOf(Lower(s), 'e');
    assert k == |s|;
    var mantissa := s[..k];
    assert mantissa == s;
    IndexOfAbsent(s, '.');
    var d := IndexOf(mantissa, '.');
    assert d == |s| && mantissa[..d] == s;
    var fraction: string := [];
    assert s + fraction == s;
  }

  /** A string of digits is read by `float()` as the natural number it writes. */
  lemma UnsignedOfDigits(s: string)
    requires |s| >= 1 && AllDigits(s)
    ensures ParseUnsigned(s).Some? && ParseUnsigned(s).value == Num(DigitsValue(s) as real)
  {
    DecimalOfDigits(s);
    LowerDigits(s);
    assert IsDigit(s[0]);
    assert s != "inf" && s != "infinity" && s != "nan" by {
      assert "inf"[0] == 'i' && "infinity"[0] == 'i' && "nan"[0] == 'n';
    }
  }

  /** `float(str(i)) == i` */
  lemma FloatOfInt(i: int)
    ensures ParseFloat(IntToString(i)).Some? && ParseFloat(IntToString(i)).value == Num(i as real)
  {
    if i < 0 {
      var n: nat := -i;
      assert IntToString(i) == MinusText(NatToString(n));
      FloatOfNegative(n);
      assert -(n as real) == i as real;
    } else {
      FloatOfNat(i);
    }
  }

  lemma FloatOfNat(n: nat)
    ensures ParseFloat(NatToString(n)).Some? && ParseFloat(NatToString(n)).value == Num(n as real)
  {
    var s := NatToString(n);
    StripTrimmed(s);
    UnsignedOfDigits(s);
    DigitsOfNat(n);
  }

  lemma FloatOfNegative(n: nat)
    ensures ParseFloat(MinusText(NatToString(n))).Some? && ParseFloat(MinusText(NatToString(n))).value == Num(-(n as real))
  {
    var d := NatToString(n);
    UnsignedOfNat(n);
    assert IsDigit(d[|d| - 1]);
    FloatOfMinus(d, n as real);
  }

  /** The decimal digits of `n` are read by `float()`, without sign or white space, as `n`. */
  lemma UnsignedOfNat(n: nat)
    ensures ParseUnsigned(NatToString(n)).Some? && ParseUnsigned(NatToString(n)).value == Num(n as real)
  {
    DigitsOfNat(n);
    UnsignedOfDigits(NatToString(n));
  }

  /** `float("-" + x)` for unsigned float text `x` that does not end in white space: the negated float. */
  lemma FloatOfMinus(x: string, v: real)
    requires x != [] && !IsSpace(x[|x| - 1]) && ParseUnsigned(x).Some? && ParseUnsigned(x).value == Num(v)
    ensures ParseFloat(MinusText(x)).Some? && ParseFloat(MinusText(x)).value == Num(-v)
  {
    var s := MinusText(x);
    assert s[|s| - 1] == x[|x| - 1];
    StripTrimmed(s);
    assert Strip(s)[1..] == x;
  }

  /** `float()` fails on text whose first character can start neither a number nor `inf`/`nan`. */
  lemma LeadNotFloat(s: string)
    requires s != [] && !IsSpace(s[0]) && !IsDigit(s[0])
    requires s[0] !in "+-.iInN"
    ensures ParseFloat(s) == None
  {
    var t := Strip(s);
    StripFirst(s);
    var w := Lower(t);
    assert w[0] != 'i' && w[0] != 'n' && w[0] != '.' && !IsDigit(w[0]);
    assert w != "inf" && w != "infinity" && w != "nan" by {
      assert "inf"[0] == 'i' && "infinity"[0] == 'i' && "nan"[0] == 'n';
    }
    var k := IndexOf(w, 'e');
    if k >= 1 {
      var m := t[..k];
      assert m[0] == t[0];
      var d := IndexOf(m, '.');
      assert d >= 1;
      assert m[..d][0] == t[0];
    }
  }

  /** A bracketed text is never a float: `[` is neither white space, a sign, a digit nor a letter. */
  lemma BracketNotFloat(s: string)
    requires Bracketed(s)
    ensures ParseFloat(s) == None
  {
    LeadNotFloat(s);
  }

  /** `typecast("-" + x)` for a float literal `x` is the negated float. */
  lemma TypecastNegatesNumbers(x: string, v: Value)
    requires ParseFloat(x).Some? && ParseFloat(x).value == v
    ensures Typecast(MinusText(x)) == Negate(v)
  {
    assert MinusText(x)[1..] == x;
  }

  /** Unsigned float text is cast to that float. */
  lemma TypecastKeepsNumbers(x: string, v: Value)
    requires ParseFloat(x).Some? && ParseFloat(x).value == v
    requires x == [] || x[0] != '-'
    ensures Typecast(x) == v
  {
  }

  /** `typecast(str(i))` is the number `i`, for every integer, negative ones included. */
  lemma TypecastInt(i: int)
    ensures Typecast(IntToString(i)) == Num(i as real)
  {
    if i < 0 {
      TypecastNegativeInt(i);
    } else {
      TypecastNat(i);
    }
  }

  lemma TypecastNegativeInt(i: int)
    requires i < 0
    ensures Typecast(IntToString(i)) == Num(i as real)
  {
    var n: nat := -i;
    calc {
      Typecast(IntToString(i));
      == { assert IntToString(i) == MinusText(NatToString(n)); }
      Typecast(MinusText(NatToString(n)));
      == { TypecastNegative(n); }
      Num(-(n as real));
    }
  }

  lemma TypecastNat(n: nat)
    ensures Typecast(NatToString(n)) == Num(n as real)
  {
    var s := NatToString(n);
    FloatOfInt(n);
    assert IsDigit(s[0]);
    TypecastKeepsNumbers(s, Num(n as real));
  }

  lemma TypecastNegative(n: nat)
    requires n > 0
    ensures Typecast(MinusText(NatToString(n))) == Num(-(n as real))
  {
    FloatOfInt(n);
    TypecastNegatesNumbers(NatToString(n), Num(n as real));
  }

  /** `typecast("--" + str(n))` is `n`: the sign set aside and the one `float()` reads cancel. */
  lemma TypecastDoubleMinus(n: nat)
    ensures Typecast(MinusText(MinusText(NatToString(n)))) == Num(n as real)
  {
    var d := NatToString(n);
    assert MinusText(MinusText(d))[1..] == MinusText(d);
    FloatOfNegative(n);
  }

  /** Digits followed by digits are digits. */
  lemma DigitsAppend(a: string, b: string)
    requires AllDigits(a) && AllDigits(b)
    ensures AllDigits(a + b)
  {
    var ab := a + b;
    forall i | 0 <= i < |ab| ensures IsDigit(ab[i]) {
      if i < |a| { assert ab[i] == a[i]; } else { assert ab[i] == b[i - |a|]; }
    }
  }

  /** Lower-casing changes no character outside `A`-`Z`. */
  lemma {:induction false} LowerNoUpper(s: string)
    requires forall i :: 0 <= i < |s| ==> !('A' <= s[i] <= 'Z')
    ensures Lower(s) == s
  {
    if s != [] {
      LowerNoUpper(s[1..]);
      FirstRest(s);
    }
  }

  /** The first `c` is at `k` when `s[k]` is `c` and no earlier character is. */
  lemma IndexOfAt(s: string, c: char, k: nat)
    requires k < |s| && s[k] == c && c !in s[..k]
    ensures IndexOf(s, c) == k
  {
  }

  /** The decimal literal `w.f`. */
  function PointText(w: string, f: string): string
  {
    w + "." + f
  }

  /** The mantissa `w.f` denotes the digits of `w` and `f` together, scaled down by the length of `f`. */
  lemma MantissaPoint(w: string, f: string, e: int)
    requires AllDigits(w) && AllDigits(f) && |w| >= 1
    ensures AllDigits(w + f)
    ensures ParseMantissa(PointText(w, f), e).Some?
    ensures ParseMantissa(PointText(w, f), e).value == Scale(DigitsValue(w + f) as real, e - |f|)
  {
    var m := PointText(w, f);
    assert m[|w|] == '.';
    assert m[..|w|] == w;
    assert '.' !in w by {
      forall i | 0 <= i < |w| ensures w[i] != '.' { assert IsDigit(w[i]); }
    }
    IndexOfAt(m, '.', |w|);
    assert m[|w| + 1..] == f;
    DigitsAppend(w, f);
  }

  /** A literal made of digits and points only has no exponent. */
  lemma NoExponent(s: string)
    requires forall i :: 0 <= i < |s| ==> s[i] == '.' || IsDigit(s[i])
    ensures IndexOf(Lower(s), 'e') == |s| && Lower(s) == s
  {
    LowerNoUpper(s);
    assert 'e' !in s by {
      forall i | 0 <= i < |s| ensures s[i] != 'e' { assert s[i] == '.' || IsDigit(s[i]); }
    }
    IndexOfAbsent(s, 'e');
  }

  /** The literal `w.f`, with `w` and `f` digits, has no exponent. */
  lemma PointNoExponent(w: string, f: string)
    requires AllDigits(w) && AllDigits(f)
    ensures ParseDecimal(PointText(w, f)) == ParseMantissa(PointText(w, f), 0)
  {
    var s := PointText(w, f);
    forall i | 0 <= i < |s| ensures s[i] == '.' || IsDigit(s[i]) {
      if i < |w| { assert s[i] == w[i]; } else if i > |w| { assert s[i] == f[i - |w| - 1]; }
    }
    NoExponent(s);
    TakeAll(s);
  }

  /** The literal `w.f` denotes the digits of `w` and `f` together, scaled down by the length of `f`. */
  lemma DecimalPointScaled(w: string, f: string)
    requires |w| >= 1 && AllDigits(w) && AllDigits(f)
    ensures AllDigits(w + f)
    ensures ParseDecimal(PointText(w, f)).Some?
    ensures ParseDecimal(PointText(w, f)).value == Scale(DigitsValue(w + f) as real, -|f|)
  {
    PointNoExponent(w, f);
    MantissaPoint(w, f, 0);
  }

  /** Scaling down distributes over a sum. */
  lemma {:induction false} ScaleAdd(a: real, b: real, e: int)
    requires e <= 0
    ensures Scale(a + b, e) == Scale(a, e) + Scale(b, e)
    decreases -e
  {
    if e < 0 {
      ScaleAdd(a, b, e + 1);
    }
  }

  /** Scaling `10 * a` down one place further is scaling `a`. */
  lemma {:induction false} ScaleTen(a: real, e: int)
    requires e <= 0
    ensures Scale(10.0 * a, e - 1) == Scale(a, e)
    decreases -e
  {
    if e < 0 {
      ScaleTen(a, e + 1);
    }
  }

  /**
   * The digits of `w` and `f` together, scaled down by the length of `f`, are the whole part `w`
   * plus the fraction `f` scaled down by its own length.
   */
  lemma {:induction false} ScaleDigits(w: string, f: string)
    requires AllDigits(w) && AllDigits(f)
    ensures AllDigits(w + f)
    ensures Scale(DigitsValue(w + f) as real, -|f|) == DigitsValue(w) as real + Scale(DigitsValue(f) as real, -|f|)
    decreases |f|
  {
    DigitsAppend(w, f);
    if f == [] {
      assert w + f == w;
    } else {
      var f' := f[..|f| - 1];
      var wf := w + f;
      var d := ((f[|f| - 1] as int) - ('0' as int)) as real;
      assert wf[..|wf| - 1] == w + f' && wf[|wf| - 1] == f[|f| - 1];
      ScaleDigits(w, f');
      var k := |f'|;
      var a, b := DigitsValue(w + f') as real, DigitsValue(f') as real;
      assert DigitsValue(wf) as real == 10.0 * a + d;
      assert DigitsValue(f) as real == 10.0 * b + d;
      ScaleAdd(10.0 * a, d, -k - 1);
      ScaleTen(a, -k);
      ScaleAdd(10.0 * b, d, -k - 1);
      ScaleTen(b, -k);
    }
  }

  /** The literal `w.f`, with `w` and `f` digits, denotes `w + f / 10^|f|`. */
  lemma DecimalPoint(w: string, f: string)
    requires |w| >= 1 && AllDigits(w) && AllDigits(f)
    ensures ParseDecimal(PointText(w, f)).Some?
    ensures ParseDecimal(PointText(w, f)).value == DigitsValue(w) as real + Scale(DigitsValue(f) as real, -|f|)
  {
    DecimalPointScaled(w, f);
    ScaleDigits(w, f);
  }

  /** Scaling keeps a number non-negative. */
  lemma {:induction false} ScaleNonNegative(m: real, e: int)
    requires m >= 0.0
    ensures Scale(m, e) >= 0.0
    decreases if e >= 0 then e else -e
  {
    if e > 0 {
      ScaleNonNegative(m, e - 1);
    } else if e < 0 {
      ScaleNonNegative(m, e + 1);
    }
  }

  /** Text starting with a digit is none of the words `inf`, `infinity` and `nan`. */
  lemma DigitNotWord(s: string)
    requires |s| >= 1 && IsDigit(s[0])
    ensures var w := Lower(s); w != "inf" && w != "infinity" && w != "nan"
  {
    assert Lower(s)[0] == s[0];
    assert "inf"[0] == 'i' && "infinity"[0] == 'i' && "nan"[0] == 'n';
  }

  /** Trimmed text starting with a digit has no sign for `float()` to read. */
  lemma FloatOfUnsigned(s: string)
    requires |s| >= 1 && IsDigit(s[0]) && Trimmed(s)
    ensures ParseFloat(s) == ParseUnsigned(s)
  {
    StripTrimmed(s);
  }

  /** The literal `w.f` starts with a digit and ends in a digit or the point, so it has no white space at either end. */
  lemma PointTrimmed(w: string, f: string)
    requires |w| >= 1 && AllDigits(w) && AllDigits(f)
    ensures |PointText(w, f)| >= 1 && IsDigit(PointText(w, f)[0]) && Trimmed(PointText(w, f))
  {
    var s := PointText(w, f);
    assert s[0] == w[0] && IsDigit(s[0]);
    if f != [] { assert s[|s| - 1] == f[|f| - 1]; } else { assert s[|s| - 1] == '.'; }
  }

  /** The unsigned literal `w.f` is the non-negative number `w + f / 10^|f|`. */
  lemma UnsignedOfDecimal(w: string, f: string)
    requires |w| >= 1 && AllDigits(w) && AllDigits(f)
    ensures ParseUnsigned(PointText(w, f)).Some?
    ensures ParseUnsigned(PointText(w, f)).value == Num(DigitsValue(w) as real + Scale(DigitsValue(f) as real, -|f|))
  {
    var s := PointText(w, f);
    var v := DigitsValue(w) as real + Scale(DigitsValue(f) as real, -|f|);
    assert v >= 0.0 by { ScaleNonNegative(DigitsValue(f) as real, -|f|); }
    assert |s| >= 1 && IsDigit(s[0]) by { PointTrimmed(w, f); }
    DecimalPoint(w, f);
    UnsignedOfNumber(s, v);
  }

  /** Digit-led text that is the non-negative decimal literal of `v` is read by `float()` as `v`. */
  lemma UnsignedOfNumber(s: string, v: real)
    requires |s| >= 1 && IsDigit(s[0])
    requires ParseDecimal(s).Some? && ParseDecimal(s).value == v && v >= 0.0
    ensures ParseUnsigned(s).Some? && ParseUnsigned(s).value == Num(v)
  {
    DigitNotWord(s);
  }

  /** `float(w.f)`, with `w` and `f` digits and `w` not empty, is `w + f / 10^|f|`. */
  lemma FloatOfDecimal(w: string, f: string)
    requires |w| >= 1 && AllDigits(w) && AllDigits(f)
    ensures ParseFloat(PointText(w, f)).Some?
    ensures ParseFloat(PointText(w, f)).value == Num(DigitsValue(w) as real + Scale(DigitsValue(f) as real, -|f|))
  {
    UnsignedOfDecimal(w, f);
    PointTrimmed(w, f);
    FloatOfUnsigned(PointText(w, f));
  }

  /** The literal `w.fe<k>`, its exponent written as `str(k)`. */
  function ExponentText(w: string, f: string, k: int): string
  {
    PointText(w, f) + "e" + IntToString(k)
  }

  /** `str(k)` is a sign `-` or a digit, then digits. */
  lemma IntChars(k: int)
    ensures var e := IntToString(k); forall i :: 0 <= i < |e| ==> e[i] == '-' || IsDigit(e[i])
    ensures IsDigit(IntToString(k)[|IntToString(k)| - 1])
  {
    var d := NatToString(if k < 0 then -k else k);
    assert IsDigit(d[|d| - 1]);
    if k < 0 {
      var e := MinusText(d);
      assert e[|e| - 1] == d[|d| - 1];
      forall i | 0 <= i < |e| ensures e[i] == '-' || IsDigit(e[i]) {
        if i > 0 { assert e[i] == d[i - 1]; }
      }
    }
  }

  /** The exponent `str(k)` is read back as `k`. */
  lemma ExponentOfInt(k: int)
    ensures ParseExponent(IntToString(k)).Some? && ParseExponent(IntToString(k)).value == k
  {
    if k < 0 {
      var d := NatToString(-k);
      DigitsOfNat(-k);
      assert MinusText(d)[1..] == d;
    } else {
      DigitsOfNat(k);
      assert IsDigit(NatToString(k)[0]);
    }
  }

  /**
   * In `w.fe<k>` the exponent starts at the first `e` and reads as `k`, so the literal denotes
   * what the mantissa `w.f` scaled by `10^k` does.
   */
  lemma ExponentSplit(w: string, f: string, k: int, v: real)
    requires AllDigits(w) && AllDigits(f)
    requires ParseMantissa(PointText(w, f), k).Some? && ParseMantissa(PointText(w, f), k).value == v
    ensures ParseDecimal(ExponentText(w, f, k)).Some? && ParseDecimal(ExponentText(w, f, k)).value == v
  {
    var m := PointText(w, f);
    var e := IntToString(k);
    var s := ExponentText(w, f, k);
    IntChars(k);
    assert s[..|m|] == m && s[|m|] == 'e' && s[|m| + 1..] == e;
    forall i | 0 <= i < |m| ensures m[i] == '.' || IsDigit(m[i]) {
      if i < |w| { assert m[i] == w[i]; } else if i > |w| { assert m[i] == f[i - |w| - 1]; }
    }
    forall i | 0 <= i < |s| ensures !('A' <= s[i] <= 'Z') {
      if i < |m| { assert s[i] == m[i]; } else if i > |m| { assert s[i] == e[i - |m| - 1]; }
    }
    LowerNoUpper(s);
    assert 'e' !in m by {
      forall i | 0 <= i < |m| ensures m[i] != 'e' { assert m[i] == '.' || IsDigit(m[i]); }
    }
    IndexOfAt(s, 'e', |m|);
    ExponentOfInt(k);
  }

  /** Scaling up one more place multiplies by ten, whatever the sign of the exponent. */
  lemma ScaleUp(m: real, e: int)
    ensures Scale(m, e + 1) == 10.0 * Scale(m, e)
  {
  }

  /** Scaling by `10^a` and then by `10^b` is scaling by `10^(a + b)`. */
  lemma {:induction false} ScaleCompose(m: real, a: int, b: int)
    ensures Scale(m, a + b) == Scale(Scale(m, a), b)
    decreases if b >= 0 then b else -b
  {
    if b > 0 {
      ScaleCompose(m, a, b - 1);
      ScaleUp(m, a + b - 1);
    } else if b < 0 {
      ScaleCompose(m, a, b + 1);
      ScaleUp(m, a + b);
    }
  }

  /** The literal `w.fe<k>` denotes `(w + f / 10^|f|) * 10^k`. */
  lemma DecimalExponent(w: string, f: string, k: int)
    requires |w| >= 1 && AllDigits(w) && AllDigits(f)
    ensures ParseDecimal(ExponentText(w, f, k)).Some?
    ensures ParseDecimal(ExponentText(w, f, k)).value == Scale(DigitsValue(w) as real + Scale(DigitsValue(f) as real, -|f|), k)
  {
    MantissaExponent(w, f, k);
    ExponentSplit(w, f, k, Scale(DigitsValue(w) as real + Scale(DigitsValue(f) as real, -|f|), k));
  }

  /** The mantissa `w.f` scaled by `10^k` is `(w + f / 10^|f|) * 10^k`. */
  lemma MantissaExponent(w: string, f: string, k: int)
    requires |w| >= 1 && AllDigits(w) && AllDigits(f)
    ensures ParseMantissa(PointText(w, f), k).Some?
    ensures ParseMantissa(PointText(w, f), k).value == Scale(DigitsValue(w) as real + Scale(DigitsValue(f) as real, -|f|), k)
  {
    MantissaPoint(w, f, k);
    assert Scale(DigitsValue(w + f) as real, k - |f|) == Scale(DigitsValue(w) as real + Scale(DigitsValue(f) as real, -|f|), k) by {
      ScaleDigits(w, f);
      ScaleCompose(DigitsValue(w + f) as real, -|f|, k);
    }
  }

  /** The unsigned literal `w.fe<k>` is the non-negative number `(w + f / 10^|f|) * 10^k`. */
  lemma UnsignedOfExponent(w: string, f: string, k: int)
    requires |w| >= 1 && AllDigits(w) && AllDigits(f)
    ensures ParseUnsigned(ExponentText(w, f, k)).Some?
    ensures ParseUnsigned(ExponentText(w, f, k)).value == Num(Scale(DigitsValue(w) as real + Scale(DigitsValue(f) as real, -|f|), k))
  {
    DecimalExponent(w, f, k);
    ExponentNonNegative(w, f, k);
    ExponentTextShape(w, f, k);
    UnsignedOfNumber(ExponentText(w, f, k), Scale(DigitsValue(w) as real + Scale(DigitsValue(f) as real, -|f|), k));
  }

  /** `w.fe<k>` starts with the first digit of `w` and ends with the last digit of `k`. */
  lemma ExponentTextShape(w: string, f: string, k: int)
    requires |w| >= 1 && AllDigits(w)
    ensures |ExponentText(w, f, k)| >= 1 && IsDigit(ExponentText(w, f, k)[0]) && Trimmed(ExponentText(w, f, k))
  {
    var s := ExponentText(w, f, k);
    var e := IntToString(k);
    IntChars(k);
    assert s[0] == w[0] && s[|s| - 1] == e[|e| - 1];
  }

  /** The number `w.fe<k>` writes is never negative. */
  lemma ExponentNonNegative(w: string, f: string, k: int)
    requires AllDigits(w) && AllDigits(f)
    ensures Scale(DigitsValue(w) as real + Scale(DigitsValue(f) as real, -|f|), k) >= 0.0
  {
    ScaleNonNegative(DigitsValue(f) as real, -|f|);
    ScaleNonNegative(DigitsValue(w) as real + Scale(DigitsValue(f) as real, -|f|), k);
  }

  /** `float(w.fe<k>)`, with `w` and `f` digits and `w` not empty, is `(w + f / 10^|f|) * 10^k`. */
  lemma FloatOfExponent(w: string, f: string, k: int)
    requires |w| >= 1 && AllDigits(w) && AllDigits(f)
    ensures ParseFloat(ExponentText(w, f, k)).Some?
    ensures ParseFloat(ExponentText(w, f, k)).value == Num(Scale(DigitsValue(w) as real + Scale(DigitsValue(f) as real, -|f|), k))
  {
    ExponentTextShape(w, f, k);
    UnsignedOfExponent(w, f, k);
    FloatOfUnsigned(ExponentText(w, f, k));
  }

  /** `typecast` of the decimal literal `w.f` is the number it writes, `w + f / 10^|f|`. */
  lemma TypecastPoint(w: string, f: string)
    requires |w| >= 1 && AllDigits(w) && AllDigits(f)
    ensures Typecast(PointText(w, f)) == Num(DigitsValue(w) as real + Scale(DigitsValue(f) as real, -|f|))
  {
    FloatOfDecimal(w, f);
    PointTrimmed(w, f);
    TypecastFloatText(PointText(w, f), DigitsValue(w) as real + Scale(DigitsValue(f) as real, -|f|));
  }

  /** `typecast` of `-w.f` is the negation of the number `w.f` writes. */
  lemma TypecastMinusPoint(w: string, f: string)
    requires |w| >= 1 && AllDigits(w) && AllDigits(f)
    ensures Typecast(MinusText(PointText(w, f))) == Num(-(DigitsValue(w) as real + Scale(DigitsValue(f) as real, -|f|)))
  {
    FloatOfDecimal(w, f);
    TypecastMinusFloatText(PointText(w, f), DigitsValue(w) as real + Scale(DigitsValue(f) as real, -|f|));
  }

  /** Float text starting with a digit is cast to its float. */
  lemma TypecastFloatText(s: string, v: real)
    requires |s| >= 1 && IsDigit(s[0])
    requires ParseFloat(s).Some? && ParseFloat(s).value == Num(v)
    ensures Typecast(s) == Num(v)
  {
    TypecastKeepsNumbers(s, Num(v));
  }

  /** Float text after a `-` is cast to the negated float. */
  lemma TypecastMinusFloatText(s: string, v: real)
    requires ParseFloat(s).Some? && ParseFloat(s).value == Num(v)
    ensures Typecast(MinusText(s)) == Num(-v)
  {
    TypecastNegatesNumbers(s, Num(v));
  }

  /**
   * A bracketed text becomes a list with one element per comma plus one, each the cast of a
   * stripped piece; a leading `-` before the brackets is dropped.
   */
  lemma TypecastList(s: string)
    requires Bracketed(s)
    ensures var pieces := Split(Inner(s), ',');
      && Typecast(s) == Typecast(MinusText(s))
      && Typecast(s).List?
      && |Typecast(s).items| == Count(Inner(s), ',') + 1
      && forall i :: 0 <= i < |pieces| ==> Typecast(s).items[i] == Typecast(Strip(pieces[i]))
  {
    BracketNotFloat(s);
    assert MinusText(s)[1..] == s;
  }

  /** Text that is neither a float, nor bracketed, nor mentions `np` is returned as it was, sign included. */
  lemma TypecastFallback(val: string)
    requires var rest := if |val| >= 1 && val[0] == '-' then val[1..] else val;
      ParseFloat(rest) == None && !Bracketed(rest) && !HasNp(rest)
    ensures Typecast(val) == Str(val)
  {
  }

  /** A word starting with a letter other than `i` or `n` and not mentioning `np` is kept as text, sign included. */
  lemma TypecastWord(s: string)
    requires s != [] && ('a' <= s[0] <= 'z' || 'A' <= s[0] <= 'Z') && s[0] !in "iInN"
    requires !HasNp(s)
    ensures Typecast(s) == Str(s) && Typecast(MinusText(s)) == Str(MinusText(s))
  {
    assert !IsSpace(s[0]) && !IsDigit(s[0]) && s[0] !in "+-.";
    LeadNotFloat(s);
    assert MinusText(s)[1..] == s;
    TypecastFallback(s);
    TypecastFallback(MinusText(s));
  }

  /** The list of integers written `[i0,i1,...]` is cast to the list of those numbers. */
  lemma TypecastIntList(xs: seq<int>)
    requires |xs| >= 1
    ensures Typecast("[" + Join(IntStrings(xs), ',') + "]") == List(Nums(xs))
  {
    var body := Join(IntStrings(xs), ',');
    var s := "[" + body + "]";
    assert Inner(s) == body;
    forall i | 0 <= i < |xs| ensures ',' !in IntStrings(xs)[i] {
      NoCommaInInt(xs[i]);
    }
    SplitJoin(IntStrings(xs), ',');
    var pieces := Split(Inner(s), ',');
    assert pieces == IntStrings(xs);
    TypecastList(s);
    var items := Typecast(s).items;
    assert |items| == |pieces|;
    forall i | 0 <= i < |xs| ensures items[i] == Nums(xs)[i] {
      calc {
        items[i];
        Typecast(Strip(pieces[i]));
        { assert pieces[i] == IntToString(xs[i]); StripTrimmed(IntToString(xs[i])); }
        Typecast(IntToString(xs[i]));
        { TypecastInt(xs[i]); }
        Num(xs[i] as real);
      }
    }
    assert items == Nums(xs);
  }

  /** The decimal text of an integer holds no comma. */
  lemma NoCommaInInt(i: int)
    ensures ',' !in IntToString(i)
  {
    var t := IntToString(i);
    forall j | 0 <= j < |t| ensures t[j] != ',' {
      if i >= 0 {
        assert IsDigit(t[j]);
      } else if j > 0 {
        assert t[j] == NatToString(-i)[j - 1];
        assert IsDigit(NatToString(-i)[j - 1]);
      }
    }
  }

  function Nums(xs: seq<int>): (r: seq<Value>)
    ensures |r| == |xs| && forall i :: 0 <= i < |xs| ==> r[i] == Num(xs[i] as real)
  {
    seq(|xs|, i requires 0 <= i < |xs| => Num(xs[i] as real))
  }

  /** `float("")` raises. */
  lemma ParseFloatEmpty()
    ensures ParseFloat([]) == None
  {
    var e: string := [];
    assert Strip(e) == e && Lower(e) == e;
    assert ParseDecimal(e) == None by { assert IndexOf(Lower(e), 'e') == 0; }
  }

  /** `typecast("")` gives the empty text back. */
  lemma TypecastEmpty()
    ensures Typecast([]) == Str([])
  {
    ParseFloatEmpty();
    TypecastFallback([]);
  }

  /** `"[]"` is not an empty list: splitting the empty inside gives one empty piece. */
  lemma TypecastEmptyBrackets()
    ensures Typecast("[]") == List([Str("")])
  {
    var e: string := [];
    assert Inner("[]") == e;
    TypecastList("[]");
    var items := Typecast("[]").items;
    assert Split(e, ',') == [e];
    assert Strip(e) == e;
    TypecastEmpty();
    assert items[0] == Typecast(e) == Str(e);
  }
}
