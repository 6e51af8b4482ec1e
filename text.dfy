/**
 * The handful of Python `str` operations the sequencer relies on: `strip`, `split` on one
 * character, `count`, `str(int)`, `int(str)` and `readlines`. `int(str)` is read for ASCII
 * digits only, without underscores, and with the white space of `strip`.
 */
module Text {
  import opened Wrappers

  /** The characters for which Python's `str.isspace()` holds, i.e. what `str.strip()` removes. */
  predicate IsSpace(c: char) {
    || c == ' '
    || ('\t' <= c <= '\r')
    || ('\U{1c}' <= c <= '\U{1f}')
    || c == '\U{85}' || c == '\U{a0}' || c == '\U{1680}'
    || ('\U{2000}' <= c <= '\U{200a}')
    || c == '\U{2028}' || c == '\U{2029}' || c == '\U{202f}' || c == '\U{205f}' || c == '\U{3000}'
  }

  /** `s.lstrip()`: what is left of `s` after dropping its leading white space. */
  function LStrip(s: string): string
  {
    if s != [] && IsSpace(s[0]) then LStrip(s[1..]) else s
  }

  /** `s.rstrip()`: what is left of `s` after dropping its trailing white space. */
  function RStrip(s: string): string
  {
    if s != [] && IsSpace(s[|s| - 1]) then RStrip(s[..|s| - 1]) else s
  }

  /** `lstrip` keeps a suffix of its input that does not start with white space. */
  lemma {:induction false} LStripShape(s: string)
    ensures |LStrip(s)| <= |s| && LStrip(s) == s[|s| - |LStrip(s)|..]
    ensures LStrip(s) == [] || !IsSpace(LStrip(s)[0])
  {
    if s != [] && IsSpace(s[0]) {
      LStripShape(s[1..]);
    }
  }

  /** `rstrip` keeps a prefix of its input that does not end with white space. */
  lemma {:induction false} RStripShape(s: string)
    ensures |RStrip(s)| <= |s| && RStrip(s) == s[..|RStrip(s)|]
    ensures RStrip(s) == [] || !IsSpace(RStrip(s)[|RStrip(s)| - 1])
  {
    if s != [] && IsSpace(s[|s| - 1]) {
      RStripShape(s[..|s| - 1]);
    }
  }

  /** Text with no white space at either end: `strip()` leaves it alone. */
  predicate Trimmed(s: string) {
    s == [] || (!IsSpace(s[0]) && !IsSpace(s[|s| - 1]))
  }

  /** A `-` sign written before `s`. */
  function MinusText(s: string): string {
    "-" + s
  }

  /** `s.strip()`: never longer than `s`, and never with white space at either end. */
  function Strip(s: string): (r: string)
    ensures |r| <= |s|
    ensures Trimmed(r)
  {
    LStripShape(s);
    RStripShape(LStrip(s));
    RStrip(LStrip(s))
  }

  /** `rstrip` keeps a first character that is not white space. */
  lemma {:induction false} RStripKeepsFirst(s: string)
    requires s != [] && !IsSpace(s[0])
    ensures RStrip(s) != [] && RStrip(s)[0] == s[0]
    decreases |s|
  {
    if IsSpace(s[|s| - 1]) {
      RStripKeepsFirst(s[..|s| - 1]);
    }
  }

  /** `strip` keeps a first character that is not white space. */
  lemma StripFirst(s: string)
    requires s != [] && !IsSpace(s[0])
    ensures Strip(s) != [] && Strip(s)[0] == s[0]
  {
    assert LStrip(s) == s;
    RStripKeepsFirst(s);
  }

  lemma StripTrimmed(s: string)
    requires Trimmed(s)
    ensures Strip(s) == s
  {
    assert LStrip(s) == s;
  }

  /** A leading white-space character is dropped by `lstrip`. */
  lemma LStripSpace(c: char, s: string)
    requires IsSpace(c)
    ensures LStrip([c] + s) == LStrip(s)
  {
    assert ([c] + s)[1..] == s;
  }

  /** A trailing white-space character is dropped by `rstrip`. */
  lemma RStripSpace(s: string, c: char)
    requires IsSpace(c)
    ensures RStrip(s + [c]) == RStrip(s)
  {
    assert (s + [c])[..|s|] == s;
  }

  /** Stripping one leading blank and one trailing line break off trimmed text gives the text back. */
  lemma StripPadded(s: string)
    requires Trimmed(s)
    ensures Strip(" " + s) == s
    ensures Strip(" " + s + "\n") == s
  {
    StripTrimmed(s);
    LStripSpace(' ', s);
    assert " " + s == [' '] + s;
    LStripSpace(' ', s + "\n");
    assert " " + s + "\n" == [' '] + (s + "\n");
    if s == [] {
      LStripSpace('\n', []);
      assert s + "\n" == ['\n'] + [];
    } else {
      assert (s + "\n")[0] == s[0];
      assert LStrip(s + "\n") == s + "\n";
      RStripSpace(s, '\n');
    }
  }

  /** Number of occurrences of `c` in `s`: `s.count(c)`. */
  function Count(s: string, c: char): nat
  {
    if s == [] then 0 else (if s[0] == c then 1 else 0) + Count(s[1..], c)
  }

  lemma {:induction false} CountAbsent(s: string, c: char)
    requires c !in s
    ensures Count(s, c) == 0
  {
    if s != [] {
      assert s[0] != c;
      CountAbsent(s[1..], c);
    }
  }

  lemma {:induction false} CountPresent(s: string, c: char)
    requires c in s
    ensures Count(s, c) >= 1
  {
    if s[0] != c {
      assert s == [s[0]] + s[1..];
      CountPresent(s[1..], c);
    }
  }

  lemma {:induction false} CountConcat(a: string, b: string, c: char)
    ensures Count(a + b, c) == Count(a, c) + Count(b, c)
  {
    if a != [] {
      assert (a + b)[1..] == a[1..] + b;
      CountConcat(a[1..], b, c);
    } else {
      assert a + b == b;
    }
  }

  /** `s.split(sep)` for a one-character separator: the maximal runs between separators. */
  function Split(s: string, sep: char): (r: seq<string>)
    ensures |r| == Count(s, sep) + 1
    ensures forall i :: 0 <= i < |r| ==> sep !in r[i] && |r[i]| <= |s|
  {
    if s == [] then [[]]
    else
      var rest := Split(s[1..], sep);
      if s[0] == sep then [[]] + rest else [[s[0]] + rest[0]] + rest[1..]
  }

  /** Text without the separator is a single field. */
  lemma {:induction false} SplitAbsent(s: string, sep: char)
    requires sep !in s
    ensures Split(s, sep) == [s]
  {
    if s != [] {
      SplitAbsent(s[1..], sep);
      assert [s[0]] + s[1..] == s;
    }
  }

  /** Splitting at the first separator. */
  lemma {:induction false} SplitAt(a: string, b: string, sep: char)
    requires sep !in a
    ensures Split(a + [sep] + b, sep) == [a] + Split(b, sep)
  {
    if a == [] {
      assert a + [sep] + b == [sep] + b;
      assert ([sep] + b)[1..] == b;
    } else {
      assert (a + [sep] + b)[1..] == a[1..] + [sep] + b;
      SplitAt(a[1..], b, sep);
      assert [a[0]] + a[1..] == a;
    }
  }

  /** `sep.join(pieces)` */
  function Join(pieces: seq<string>, sep: char): string
  {
    if pieces == [] then ""
    else if |pieces| == 1 then pieces[0]
    else pieces[0] + [sep] + Join(pieces[1..], sep)
  }

  /** `split` undoes `join` when no piece holds the separator and there is at least one piece. */
  lemma {:induction false} SplitJoin(pieces: seq<string>, sep: char)
    requires |pieces| >= 1
    requires forall i :: 0 <= i < |pieces| ==> sep !in pieces[i]
    ensures Split(Join(pieces, sep), sep) == pieces
  {
    if |pieces| == 1 {
      SplitAbsent(pieces[0], sep);
    } else {
      SplitJoin(pieces[1..], sep);
      SplitAt(pieces[0], Join(pieces[1..], sep), sep);
    }
  }

  /** The last `sep`-separated field: `s.split(sep)[-1]`. */
  function LastField(s: string, sep: char): string
  {
    var fields := Split(s, sep);
    fields[|fields| - 1]
  }

  predicate IsDigit(c: char) {
    '0' <= c <= '9'
  }

  predicate AllDigits(s: string) {
    forall i :: 0 <= i < |s| ==> IsDigit(s[i])
  }

  function DigitChar(d: nat): (c: char)
    requires d < 10
    ensures IsDigit(c) && (c as int) - ('0' as int) == d
  {
    (('0' as int) + d) as char
  }

  /** The value of a string of decimal digits (0 for the empty string). */
  function DigitsValue(s: string): nat
    requires AllDigits(s)
  {
    if s == [] then 0
    else 10 * DigitsValue(s[..|s| - 1]) + ((s[|s| - 1] as int) - ('0' as int))
  }

  /** `str(n)` for a natural number: its decimal digits, most significant first. */
  function NatToString(n: nat): (r: string)
    ensures |r| >= 1 && AllDigits(r)
  {
    if n < 10 then [DigitChar(n)] else NatToString(n / 10) + [DigitChar(n % 10)]
  }

  /** The decimal digits of `n` read back give `n`. */
  lemma {:induction false} DigitsOfNat(n: nat)
    ensures DigitsValue(NatToString(n)) == n
  {
    if n >= 10 {
      var s := NatToString(n);
      assert s[..|s| - 1] == NatToString(n / 10);
      DigitsOfNat(n / 10);
    }
  }

  /** Different numbers are written differently. */
  lemma NatToStringInjective(i: nat, j: nat)
    requires NatToString(i) == NatToString(j)
    ensures i == j
  {
    DigitsOfNat(i);
    DigitsOfNat(j);
  }

  /** `str(i)` for an integer. */
  function IntToString(i: int): (r: string)
    ensures |r| >= 1 && Trimmed(r)
    ensures i >= 0 ==> r == NatToString(i)
  {
    if i < 0 then MinusText(NatToString(-i)) else NatToString(i)
  }

  /** `int(s)` for a string: surrounding white space, an optional sign, then decimal digits. */
  function ParseInt(s: string): Option<int>
  {
    var t := Strip(s);
    if |t| >= 1 && (t[0] == '-' || t[0] == '+') then
      var digits := t[1..];
      if |digits| >= 1 && AllDigits(digits) then
        var v: int := DigitsValue(digits);
        Some(if t[0] == '-' then -v else v)
      else None
    else if |t| >= 1 && AllDigits(t) then Some(DigitsValue(t))
    else None
  }

  /** `int(str(i)) == i` */
  lemma IntToStringRoundTrip(i: int)
    ensures ParseInt(IntToString(i)) == Some(i)
  {
    if i < 0 {
      NegativeRoundTrip(-i);
    } else {
      NatRoundTrip(i);
    }
  }

  lemma NatRoundTrip(n: nat)
    ensures ParseInt(NatToString(n)) == Some(n)
  {
    StripTrimmed(NatToString(n));
    DigitsOfNat(n);
  }

  lemma NegativeRoundTrip(n: nat)
    requires n > 0
    ensures ParseInt(MinusText(NatToString(n))) == Some(-(n as int))
  {
    var s := MinusText(NatToString(n));
    StripTrimmed(s);
    assert s[1..] == NatToString(n);
    DigitsOfNat(n);
  }

  /** `[str(x) for x in xs]` */
  function IntStrings(xs: seq<int>): (r: seq<string>)
    ensures |r| == |xs| && forall i :: 0 <= i < |xs| ==> r[i] == IntToString(xs[i])
  {
    seq(|xs|, i requires 0 <= i < |xs| => IntToString(xs[i]))
  }

  /** A digit-led decimal numeral followed by ": " fixes the numeral: labels "<i>: ..." with different i differ. */
  lemma NumberedPrefixesDiffer(i: nat, j: nat, a: string, b: string)
    requires i != j
    ensures NatToString(i) + ": " + a != NatToString(j) + ": " + b
  {
    var x, y := NatToString(i), NatToString(j);
    var s, t := x + ": " + a, y + ": " + b;
    if |x| < |y| {
      assert s[|x|] == ':' && IsDigit(t[|x|]);
    } else if |y| < |x| {
      assert t[|y|] == ':' && IsDigit(s[|y|]);
    } else {
      DigitsOfNat(i);
      DigitsOfNat(j);
      assert x != y;
      assert s[..|x|] == x && t[..|y|] == y;
    }
  }

  /** Concatenation of a list of strings, as `"".join(lines)` or successive `+=`. */
  function Concat(lines: seq<string>): string
  {
    if lines == [] then "" else lines[0] + Concat(lines[1..])
  }

  /** Regrouping a concatenation of three sequences. */
  lemma AppendAssoc<T>(a: seq<T>, b: seq<T>, c: seq<T>)
    ensures a + (b + c) == (a + b) + c
  {
  }

  /** The empty sequence is neutral for concatenation. */
  lemma AppendEmpty<T>(s: seq<T>)
    ensures [] + s == s && s + [] == s
  {
  }

  /** A sequence is its part before `i` followed by its part from `i`. */
  lemma TakeDrop<T>(s: seq<T>, i: nat)
    requires i <= |s|
    ensures s[..i] + s[i..] == s
  {
  }

  /** Taking every element gives the sequence back. */
  lemma TakeAll<T>(s: seq<T>)
    ensures s[..|s|] == s
  {
  }

  /** Taking one more element appends it. */
  lemma TakeSnoc<T>(s: seq<T>, j: nat)
    requires j < |s|
    ensures s[..j + 1] == s[..j] + [s[j]] && s[..j + 1][..j] == s[..j]
  {
  }

  /** Dropping the first and the last element, in either order. */
  lemma TailFront<T>(s: seq<T>)
    requires |s| >= 2
    ensures s[1..][..|s| - 2] == s[..|s| - 1][1..]
  {
  }

  /** A prefix within the first part of a concatenation. */
  lemma TakeAppend<T>(a: seq<T>, b: seq<T>, k: nat)
    requires k <= |a|
    ensures (a + b)[..k] == a[..k]
  {
  }

  /** Indexing past the first part of a concatenation. */
  lemma IndexRight<T>(a: seq<T>, b: seq<T>, i: nat)
    requires i < |b|
    ensures (a + b)[|a| + i] == b[i]
  {
  }

  /** Updating inside a prefix commutes with taking it; updating past it leaves it alone. */
  lemma TakeUpdate<T>(s: seq<T>, i: nat, x: T, n: nat)
    requires i < |s| && n <= |s|
    ensures i < n ==> s[i := x][..n] == s[..n][i := x]
    ensures i >= n ==> s[i := x][..n] == s[..n]
  {
  }

  /** An element of a known prefix. */
  lemma PrefixIndex<T>(s: seq<T>, t: seq<T>, k: nat)
    requires |t| <= |s| && s[..|t|] == t && k < |t|
    ensures s[k] == t[k]
  {
    assert s[..|t|][k] == s[k];
  }

  /** A prefix of a prefix is a prefix. */
  lemma TakeTake<T>(s: seq<T>, n: nat, m: nat)
    requires m <= n <= |s|
    ensures s[..n][..m] == s[..m]
  {
  }

  /** Dropping the first element of a concatenation whose left part is not empty. */
  lemma TailAppend<T>(a: seq<T>, b: seq<T>)
    requires a != []
    ensures (a + b)[1..] == a[1..] + b
  {
  }

  /** A non-empty sequence is its first element followed by the rest. */
  lemma FirstRest<T>(s: seq<T>)
    requires s != []
    ensures [s[0]] + s[1..] == s
  {
  }

  lemma {:induction false} ConcatAppend(a: seq<string>, b: seq<string>)
    ensures Concat(a + b) == Concat(a) + Concat(b)
  {
    if a != [] {
      assert (a + b)[1..] == a[1..] + b;
      ConcatAppend(a[1..], b);
    } else {
      assert a + b == b;
    }
  }

  /** `f.readlines()` on a file holding `text`: every line keeps its '\n'; a last fragment without one is a line too. */
  function ReadLines(text: string): seq<string>
  {
    if text == [] then []
    else
      var rest := ReadLines(text[1..]);
      if text[0] == '\n' then ["\n"] + rest
      else if rest == [] then [[text[0]]]
      else [[text[0]] + rest[0]] + rest[1..]
  }

  /** A line ended by '\n' is read back as one line. */
  lemma {:induction false} ReadLinesCons(x: string, rest: string)
    requires '\n' !in x
    ensures ReadLines(x + "\n" + rest) == [x + "\n"] + ReadLines(rest)
  {
    if x == [] {
      assert x + "\n" + rest == "\n" + rest;
      assert ("\n" + rest)[1..] == rest;
    } else {
      assert (x + "\n" + rest)[1..] == x[1..] + "\n" + rest;
      ReadLinesCons(x[1..], rest);
      assert [x[0]] + (x[1..] + "\n") == x + "\n";
    }
  }

  /** A line is terminated by exactly one '\n', at its end. */
  predicate IsLine(line: string) {
    |line| >= 1 && line[|line| - 1] == '\n' && '\n' !in line[..|line| - 1]
  }

  /** Reading back the concatenation of terminated lines gives the same lines. */
  lemma {:induction false} ReadLinesConcat(lines: seq<string>)
    requires forall i :: 0 <= i < |lines| ==> IsLine(lines[i])
    ensures ReadLines(Concat(lines)) == lines
  {
    if lines != [] {
      var l := lines[0];
      var x := l[..|l| - 1];
      assert l == x + "\n";
      ReadLinesConcat(lines[1..]);
      ReadLinesCons(x, Concat(lines[1..]));
      assert Concat(lines) == x + "\n" + Concat(lines[1..]);
    }
  }
}
