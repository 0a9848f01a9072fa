/** The pieces of Go's standard library that the error-page handlers lean on
    for text: `strconv.Atoi`, `fmt`'s `%d`, integer division (which truncates
    toward zero), `strings.Split`, `strings.Cut`, `strings.HasPrefix` and
    `strings.Fields` with `unicode.IsSpace`. Strings are sequences of code
    points; Go's byte-level view of invalid UTF-8 is not modelled. */
module GoText {
  import opened Wrappers

  /** Go's `[]byte`. */
  type Bytes = seq<bv8>

  /** Go's `int` on a 64-bit platform. */
  const MinInt: int := -0x8000_0000_0000_0000
  const MaxInt: int := 0x7fff_ffff_ffff_ffff

  predicate InIntRange(n: int) {
    MinInt <= n <= MaxInt
  }

  // ---------------------------------------------------------------------
  // Decimal digits

  predicate IsDigit(c: char) {
    '0' <= c <= '9'
  }

  predicate AllDigits(s: string) {
    forall i | 0 <= i < |s| :: IsDigit(s[i])
  }

  predicate IsSign(c: char) {
    c == '+' || c == '-'
  }

  function DigitValue(c: char): (d: nat)
    requires IsDigit(c)
    ensures d < 10
  {
    assert '0' as int <= c as int;
    c as int - '0' as int
  }

  function DigitChar(d: nat): (c: char)
    requires d < 10
    ensures IsDigit(c) && DigitValue(c) == d
  {
    ('0' as int + d) as char
  }

  /** The value of a string of decimal digits, most significant first. */
  function DecimalValue(s: string): nat
    requires AllDigits(s)
    decreases |s|
  {
    if s == [] then 0 else DecimalValue(s[..|s| - 1]) * 10 + DigitValue(s[|s| - 1])
  }

  // ---------------------------------------------------------------------
  // strconv.Atoi and %d

  /** `strconv.Atoi`: an optional `+` or `-`, then one or more ASCII digits,
      nothing else (no surrounding space), and the value must fit in `int`.
      `None` stands for the returned error. */
  function Atoi(s: string): (r: Option<int>)
    ensures r.Some? ==> InIntRange(r.value)
    ensures r.Some? ==> s != [] && forall i | 0 <= i < |s| :: IsDigit(s[i]) || (i == 0 && IsSign(s[i]))
    ensures r.Some? ==> IsDigit(s[|s| - 1])
  {
    var digits := if s != [] && IsSign(s[0]) then s[1..] else s;
    if digits == [] || !AllDigits(digits) then None
    else
      var magnitude: int := DecimalValue(digits);
      var v: int := if s[0] == '-' then -magnitude else magnitude;
      if InIntRange(v) then Some(v) else None
  }

  function FormatNat(n: nat): (s: string)
    ensures s != [] && AllDigits(s)
    ensures s[0] == '0' <==> n == 0
    ensures |s| == 1 <==> n < 10
    decreases n
  {
    if n < 10 then [DigitChar(n)] else FormatNat(n / 10) + [DigitChar(n % 10)]
  }

  /** `fmt.Sprintf("%d", n)`: decimal digits, with a leading `-` exactly
      when the value is negative, and no leading zero except for zero
      itself (so never `-0`). */
  function FormatInt(n: int): (s: string)
    ensures s != []
    ensures forall i | 0 <= i < |s| :: IsDigit(s[i]) || (i == 0 && s[i] == '-')
    ensures s[0] == '-' <==> n < 0
    ensures |s| > 1 && s[0] != '-' ==> s[0] != '0'
    ensures s[0] == '-' ==> |s| > 1 && s[1] != '0'
    ensures s == "0" <==> n == 0
  {
    if n < 0 then "-" + FormatNat(-n) else FormatNat(n)
  }

  lemma {:induction false} DecimalValueOfFormatNat(n: nat)
    ensures DecimalValue(FormatNat(n)) == n
  {
    if n >= 10 {
      var s := FormatNat(n / 10);
      DecimalValueOfFormatNat(n / 10);
      assert (s + [DigitChar(n % 10)])[..|s|] == s;
    }
  }

  /** What `%d` prints, `strconv.Atoi` reads back. */
  lemma AtoiFormatInt(n: int)
    requires InIntRange(n)
    ensures Atoi(FormatInt(n)) == Some(n)
  {
    var s := FormatInt(n);
    if n < 0 {
      var m := FormatNat(-n);
      assert s == "-" + m && IsSign(s[0]);
      assert s[1..] == m;
      DecimalValueOfFormatNat(-n);
    } else {
      assert s == FormatNat(n) && !IsSign(s[0]);
      DecimalValueOfFormatNat(n);
    }
  }

  /** The value `strconv.Atoi` gives an optional sign followed by digits,
      before the range check. */
  function SignedValue(sign: string, digits: string): int
    requires AllDigits(digits)
  {
    var magnitude: int := DecimalValue(digits);
    if sign == "-" then -magnitude else magnitude
  }

  /** Every optional sign followed by at least one digit is accepted when
      its value fits in `int`, and rejected when it does not. Leading
      zeros and a `+` are allowed, and `-0` is zero. */
  lemma AtoiOfSignedDigits(sign: string, digits: string)
    requires sign == "" || sign == "+" || sign == "-"
    requires digits != [] && AllDigits(digits)
    ensures InIntRange(SignedValue(sign, digits)) ==> Atoi(sign + digits) == Some(SignedValue(sign, digits))
    ensures !InIntRange(SignedValue(sign, digits)) ==> Atoi(sign + digits) == None
  {
    var s := sign + digits;
    if sign == "" {
      assert s == digits && !IsSign(s[0]);
    } else {
      assert s[0] == sign[0] && IsSign(s[0]);
      assert s[1..] == digits;
    }
  }

  /** A leading zero does not change the value of a digit string. */
  lemma {:induction false} DecimalValueLeadingZero(d: string)
    requires AllDigits(d)
    ensures AllDigits("0" + d) && DecimalValue("0" + d) == DecimalValue(d)
    decreases |d|
  {
    var z := "0" + d;
    if d != [] {
      var init := d[..|d| - 1];
      assert z[..|z| - 1] == "0" + init;
      assert z[|z| - 1] == d[|d| - 1];
      DecimalValueLeadingZero(init);
    } else {
      assert z[..0] == "";
    }
  }

  /** A form `%d` never prints is read too: a `+` sign is the same as
      none. */
  lemma AtoiIgnoresPlus(digits: string)
    requires digits != [] && AllDigits(digits)
    ensures Atoi("+" + digits) == Atoi(digits)
  {
    AtoiOfSignedDigits("+", digits);
    AtoiOfSignedDigits("", digits);
    assert "" + digits == digits;
  }

  /** Leading zeros change nothing, whatever the sign. */
  lemma AtoiIgnoresLeadingZero(sign: string, digits: string)
    requires sign == "" || sign == "+" || sign == "-"
    requires digits != [] && AllDigits(digits)
    ensures Atoi(sign + "0" + digits) == Atoi(sign + digits)
  {
    var padded := "0" + digits;
    DecimalValueLeadingZero(digits);
    assert SignedValue(sign, padded) == SignedValue(sign, digits);
    assert sign + "0" + digits == sign + padded;
    AtoiOfSignedDigits(sign, padded);
    AtoiOfSignedDigits(sign, digits);
  }

  /** `-0` is read as zero. */
  lemma AtoiMinusZero()
    ensures Atoi("-0") == Some(0)
  {
    DecimalValueLeadingZero("");
    assert "0" + "" == "0" && "-" + "0" == "-0";
    AtoiOfSignedDigits("-", "0");
  }

  /** Distinct integers print differently. */
  lemma FormatIntInjective(a: int, b: int)
    requires FormatInt(a) == FormatInt(b)
    ensures a == b
  {
    if a < 0 {
      assert FormatNat(-a) == FormatInt(a)[1..] == FormatInt(b)[1..] == FormatNat(-b);
      DecimalValueOfFormatNat(-a);
      DecimalValueOfFormatNat(-b);
    } else {
      DecimalValueOfFormatNat(a);
      DecimalValueOfFormatNat(b);
    }
  }

  // ---------------------------------------------------------------------
  // Integer division

  /** Go's `a / 100` on `int`: the quotient truncated toward zero, which
      differs from Dafny's Euclidean `/` when `a` is negative. */
  function Div100(a: int): (q: int)
    ensures a >= 0 ==> 0 <= 100 * q <= a
    ensures a < 0 ==> a <= 100 * q <= 0
    ensures a - 100 * q < 100 && 100 * q - a < 100
  {
    if a >= 0 then a / 100 else -((-a) / 100)
  }

  /** The truncating and the Euclidean quotient differ on negative
      operands that are not multiples of the divisor. */
  lemma Div100TruncatesTowardZero()
    ensures Div100(-150) == -1 && -150 / 100 == -2
  {
  }

  // ---------------------------------------------------------------------
  // Searching and splitting

  /** The index of the first occurrence of `c` in `s`. */
  function IndexOf(s: string, c: char): (i: nat)
    requires c in s
    ensures i < |s| && s[i] == c && c !in s[..i]
  {
    if s[0] == c then 0 else 1 + IndexOf(s[1..], c)
  }

  /** The first occurrence of `c` in `a + [c] + b` is the one after `a`
      when `a` does not contain `c`. */
  lemma IndexOfAfter(a: string, c: char, b: string)
    requires c !in a
    ensures c in a + [c] + b && IndexOf(a + [c] + b, c) == |a|
  {
    var s := a + [c] + b;
    assert s[|a|] == c;
  }

  /** `strings.Split(s, sep)` for a one-character separator: the pieces
      between the separators, in order; there is always at least one. */
  function Split(s: string, sep: char): (parts: seq<string>)
    ensures |parts| >= 1
    ensures forall i | 0 <= i < |parts| :: sep !in parts[i]
    decreases |s|
  {
    if sep !in s then [s]
    else
      var i := IndexOf(s, sep);
      [s[..i]] + Split(s[i + 1..], sep)
  }

  /** `strings.Join(parts, string(sep))`. */
  function Join(parts: seq<string>, sep: char): string
    decreases |parts|
  {
    if parts == [] then ""
    else if |parts| == 1 then parts[0]
    else parts[0] + [sep] + Join(parts[1..], sep)
  }

  /** Joining the pieces back gives the original string. */
  lemma {:induction false} JoinSplit(s: string, sep: char)
    ensures Join(Split(s, sep), sep) == s
    decreases |s|
  {
    if sep in s {
      var i := IndexOf(s, sep);
      JoinSplit(s[i + 1..], sep);
      var rest := Split(s[i + 1..], sep);
      assert Split(s, sep) == [s[..i]] + rest;
      assert ([s[..i]] + rest)[1..] == rest;
      assert s == s[..i] + [sep] + s[i + 1..];
    }
  }

  /** Splitting a join of separator-free pieces gives the pieces back. */
  lemma {:induction false} SplitJoin(parts: seq<string>, sep: char)
    requires |parts| >= 1
    requires forall i | 0 <= i < |parts| :: sep !in parts[i]
    ensures Split(Join(parts, sep), sep) == parts
    decreases |parts|
  {
    if |parts| > 1 {
      var rest := Join(parts[1..], sep);
      IndexOfAfter(parts[0], sep, rest);
      var s := parts[0] + [sep] + rest;
      assert s[..|parts[0]|] == parts[0];
      assert s[|parts[0]| + 1..] == rest;
      SplitJoin(parts[1..], sep);
    }
  }

  /** `strings.Cut(s, sep)`: the text before and after the first `sep`,
      and whether there was one. */
  datatype Cutting = Cutting(before: string, after: string, found: bool)

  function Cut(s: string, sep: char): (r: Cutting)
    ensures r.found <==> sep in s
    ensures r.found ==> s == r.before + [sep] + r.after && sep !in r.before
    ensures !r.found ==> r.before == s && r.after == ""
  {
    if sep in s then
      var i := IndexOf(s, sep);
      assert s == s[..i] + [sep] + s[i + 1..];
      Cutting(s[..i], s[i + 1..], true)
    else Cutting(s, "", false)
  }

  /** The cut is at the first separator, so it is determined by any
      decomposition whose left part is free of the separator. */
  lemma CutAt(a: string, sep: char, b: string)
    requires sep !in a
    ensures Cut(a + [sep] + b, sep) == Cutting(a, b, true)
  {
    var s := a + [sep] + b;
    IndexOfAfter(a, sep, b);
    assert s[..|a|] == a && s[|a| + 1..] == b;
  }

  /** `strings.HasPrefix(s, prefix)`. */
  predicate HasPrefix(s: string, prefix: string) {
    |prefix| <= |s| && s[..|prefix|] == prefix
  }

  // ---------------------------------------------------------------------
  // Whitespace and strings.Fields

  /** `unicode.IsSpace`: the Latin-1 spaces and the other code points with
      the Unicode White_Space property. `strings.Fields` uses the same set
      (on all-ASCII input it uses the ASCII part of it). */
  predicate IsSpace(c: char) {
    || c == '\t' || c == '\n' || c == '\U{000B}' || c == '\U{000C}' || c == '\r' || c == ' '
    || c == '\U{0085}' || c == '\U{00A0}' || c == '\U{1680}'
    || ('\U{2000}' <= c <= '\U{200A}')
    || c == '\U{2028}' || c == '\U{2029}' || c == '\U{202F}' || c == '\U{205F}' || c == '\U{3000}'
  }

  predicate NoSpace(s: string) {
    forall i | 0 <= i < |s| :: !IsSpace(s[i])
  }

  predicate AllSpace(s: string) {
    forall i | 0 <= i < |s| :: IsSpace(s[i])
  }

  /** The length of the longest prefix of `s` without a space. */
  function WordLength(s: string): (n: nat)
    ensures n <= |s| && NoSpace(s[..n])
    ensures n < |s| ==> IsSpace(s[n])
  {
    if s == [] || IsSpace(s[0]) then 0
    else
      var n := 1 + WordLength(s[1..]);
      assert s[..n] == [s[0]] + s[1..][..n - 1];
      n
  }

  /** `strings.Fields(s)`: the maximal runs of non-space characters, in
      order. Each field is non-empty and holds no space. */
  function Fields(s: string): (fs: seq<string>)
    ensures forall i | 0 <= i < |fs| :: fs[i] != [] && NoSpace(fs[i])
    decreases |s|
  {
    if s == [] then []
    else if IsSpace(s[0]) then Fields(s[1..])
    else
      var n := WordLength(s);
      [s[..n]] + Fields(s[n..])
  }

  /** A string has no fields exactly when it is all space (the empty
      string included). */
  lemma {:induction false} FieldsEmptyIffBlank(s: string)
    ensures Fields(s) == [] <==> AllSpace(s)
    decreases |s|
  {
    if s != [] {
      if IsSpace(s[0]) {
        FieldsEmptyIffBlank(s[1..]);
        if AllSpace(s[1..]) {
          forall i | 0 <= i < |s| ensures IsSpace(s[i]) {
            if i > 0 { assert s[i] == s[1..][i - 1]; }
          }
        }
      }
    }
  }

  /** Leading space is dropped by `strings.Fields`. */
  lemma {:induction false} FieldsSkipsLeadingSpace(pad: string, s: string)
    requires AllSpace(pad)
    ensures Fields(pad + s) == Fields(s)
    decreases |pad|
  {
    if pad != [] {
      assert (pad + s)[0] == pad[0];
      assert (pad + s)[1..] == pad[1..] + s;
      assert AllSpace(pad[1..]) by {
        forall i | 0 <= i < |pad| - 1 ensures IsSpace(pad[1..][i]) {
          assert pad[1..][i] == pad[i + 1];
        }
      }
      FieldsSkipsLeadingSpace(pad[1..], s);
      assert Fields(pad + s) == Fields(pad[1..] + s);
    } else {
      assert pad + s == s;
    }
  }

  /** A word followed by nothing or by white space is one whole field. */
  lemma {:induction false} WordLengthOfWord(w: string, t: string)
    requires NoSpace(w)
    requires t == [] || IsSpace(t[0])
    ensures WordLength(w + t) == |w|
    decreases |w|
  {
    if w == [] {
      assert w + t == t;
    } else {
      assert (w + t)[0] == w[0];
      assert (w + t)[1..] == w[1..] + t;
      WordLengthOfWord(w[1..], t);
    }
  }

  /** `pads[0] + words[0] + pads[1] + ... + words[n - 1] + pads[n]`: words
      with the text between and around them. */
  function Spaced(pads: seq<string>, words: seq<string>): string
    requires |pads| == |words| + 1
    decreases |words|
  {
    if words == [] then pads[0] else pads[0] + words[0] + Spaced(pads[1..], words[1..])
  }

  /** Words separated by runs of white space of any length and kind, with
      any white space before the first and after the last, split back into
      the same words: `strings.Fields` is the inverse of spacing. */
  lemma {:induction false} FieldsOfSpaced(pads: seq<string>, words: seq<string>)
    requires |pads| == |words| + 1
    requires forall i | 0 <= i < |words| :: words[i] != [] && NoSpace(words[i])
    requires forall i | 0 <= i < |pads| :: AllSpace(pads[i])
    requires forall i | 0 < i < |words| :: pads[i] != []
    ensures Fields(Spaced(pads, words)) == words
    decreases |words|
  {
    if words == [] {
      FieldsEmptyIffBlank(pads[0]);
    } else {
      var w := words[0];
      var rest := Spaced(pads[1..], words[1..]);
      FieldsSkipsLeadingSpace(pads[0], w + rest);
      assert Spaced(pads, words) == pads[0] + (w + rest);
      assert rest == [] || IsSpace(rest[0]) by {
        if |words| > 1 {
          assert rest == pads[1] + (words[1] + Spaced(pads[2..], words[2..]));
          assert rest[0] == pads[1][0];
        } else {
          assert rest == pads[1];
        }
      }
      var s := w + rest;
      WordLengthOfWord(w, rest);
      assert s[0] == w[0];
      assert s[..|w|] == w && s[|w|..] == rest;
      FieldsOfSpaced(pads[1..], words[1..]);
    }
  }
}
