/** The parts of Python's str and int behaviour that the trace parser and the renderers rely on:
    str.isspace, str.lstrip, the whitespace int() skips, str.split with one separator, int(str)
    in base 10, str(int), str.ljust and slicing with an arbitrary integer bound. */
module PyText {
  import opened Wrappers

  /** Python's str.isspace on one character: the characters str.lstrip() discards. */
  predicate IsSpace(c: char) {
    || c == ' '
    || ('\t' <= c <= '\r')
    || ('\U{1c}' <= c <= '\U{1f}')
    || c == '\U{85}' || c == '\U{a0}' || c == '\U{1680}'
    || ('\U{2000}' <= c <= '\U{200a}')
    || c == '\U{2028}' || c == '\U{2029}' || c == '\U{202f}' || c == '\U{205f}' || c == '\U{3000}'
  }

  /** The whitespace int() skips around a number. int() turns every non-ASCII whitespace
      character into a space, passes ASCII through unchanged and then skips only the C locale's
      space, tab, newline, vertical tab, form feed and carriage return: the separators
      U+001C to U+001F, which str.isspace accepts, are left in place and make int() fail. */
  predicate IsIntSpace(c: char) {
    IsSpace(c) && !('\U{1c}' <= c <= '\U{1f}')
  }

  predicate StartsWith(s: string, prefix: string) {
    |prefix| <= |s| && s[..|prefix|] == prefix
  }

  function Spaces(n: nat): (r: string)
    ensures |r| == n && forall i :: 0 <= i < n ==> r[i] == ' '
  {
    if n == 0 then "" else Spaces(n - 1) + " "
  }

  /** Drop the leading characters of the whitespace class `ws`. */
  function LTrim(s: string, ws: char -> bool): (r: string)
    ensures |r| <= |s|
  {
    if s != [] && ws(s[0]) then LTrim(s[1..], ws) else s
  }

  /** Drop the trailing characters of the whitespace class `ws`. */
  function RTrim(s: string, ws: char -> bool): (r: string)
    ensures |r| <= |s|
  {
    if s != [] && ws(s[|s| - 1]) then RTrim(s[..|s| - 1], ws) else s
  }

  /** str.lstrip(). */
  function LStrip(s: string): string {
    LTrim(s, IsSpace)
  }

  /** The strip int() applies before it reads the sign and the digits. */
  function IntStrip(s: string): string {
    RTrim(LTrim(s, IsIntSpace), IsIntSpace)
  }

  /** Trimming the front keeps the longest suffix that does not start with whitespace:
      everything it cut off is whitespace. */
  lemma {:induction false} LTrimShape(s: string, ws: char -> bool)
    ensures LTrim(s, ws) == s[|s| - |LTrim(s, ws)|..]
    ensures forall i :: 0 <= i < |s| - |LTrim(s, ws)| ==> ws(s[i])
    ensures LTrim(s, ws) == [] || !ws(LTrim(s, ws)[0])
  {
    if s != [] && ws(s[0]) {
      var t := s[1..];
      LTrimShape(t, ws);
      var r := LTrim(t, ws);
      assert LTrim(s, ws) == r;
      assert t[|t| - |r|..] == s[|s| - |r|..];
      forall i | 0 <= i < |s| - |r| ensures ws(s[i]) {
        if i > 0 {
          assert s[i] == t[i - 1];
        }
      }
    }
  }

  /** Trimming the back keeps the longest prefix that does not end with whitespace:
      everything it cut off is whitespace. */
  lemma {:induction false} RTrimShape(s: string, ws: char -> bool)
    ensures RTrim(s, ws) == s[..|RTrim(s, ws)|]
    ensures forall i :: |RTrim(s, ws)| <= i < |s| ==> ws(s[i])
    ensures RTrim(s, ws) == [] || !ws(RTrim(s, ws)[|RTrim(s, ws)| - 1])
  {
    if s != [] && ws(s[|s| - 1]) {
      var t := s[..|s| - 1];
      RTrimShape(t, ws);
      var r := RTrim(t, ws);
      assert RTrim(s, ws) == r;
      assert t[..|r|] == s[..|r|];
      forall i | |r| <= i < |s| ensures ws(s[i]) {
        if i < |s| - 1 {
          assert s[i] == t[i];
        }
      }
    }
  }

  lemma {:induction false} LTrimSpaces(left: nat, u: string, ws: char -> bool)
    requires ws(' ') && (u == [] || !ws(u[0]))
    ensures LTrim(Spaces(left) + u, ws) == u
  {
    if left == 0 {
      assert Spaces(left) + u == u;
    } else {
      SpacesCons(left - 1);
      var rest := Spaces(left - 1) + u;
      var t := " " + rest;
      assert Spaces(left) + u == t;
      assert t[0] == ' ' && t[1..] == rest;
      assert LTrim(t, ws) == LTrim(rest, ws);
      LTrimSpaces(left - 1, u, ws);
    }
  }

  lemma SpacesCons(n: nat)
    ensures Spaces(n + 1) == " " + Spaces(n)
  {
    assert Spaces(n + 1) == Spaces(n) + " ";
  }

  lemma {:induction false} RTrimSpaces(u: string, right: nat, ws: char -> bool)
    requires ws(' ') && (u == [] || !ws(u[|u| - 1]))
    ensures RTrim(u + Spaces(right), ws) == u
  {
    if right > 0 {
      var t := u + Spaces(right);
      assert t[|t| - 1] == ' ';
      assert t[..|t| - 1] == u + Spaces(right - 1);
      RTrimSpaces(u, right - 1, ws);
    }
  }

  /** Spaces around a string whose ends are not whitespace are exactly what int() strips. */
  lemma IntStripPadded(left: nat, s: string, right: nat)
    requires s != [] && !IsIntSpace(s[0]) && !IsIntSpace(s[|s| - 1])
    ensures IntStrip(Spaces(left) + s + Spaces(right)) == s
  {
    var u := s + Spaces(right);
    assert Spaces(left) + s + Spaces(right) == Spaces(left) + u;
    LTrimSpaces(left, u, IsIntSpace);
    RTrimSpaces(s, right, IsIntSpace);
  }

  /** Number of occurrences of c in s. */
  function Count(s: string, c: char): nat {
    if s == [] then 0 else (if s[0] == c then 1 else 0) + Count(s[1..], c)
  }

  function Join(parts: seq<string>, sep: char): string
    requires |parts| > 0
  {
    if |parts| == 1 then parts[0] else parts[0] + [sep] + Join(parts[1..], sep)
  }

  /** str.split(sep) for a one-character separator: one more field than separators, no field holds
      the separator, and joining the fields with it gives back the string. */
  function Split(s: string, sep: char): (r: seq<string>)
    ensures |r| == Count(s, sep) + 1
    ensures forall i :: 0 <= i < |r| ==> sep !in r[i]
    ensures Join(r, sep) == s
  {
    if s == [] then [""]
    else
      var rest := Split(s[1..], sep);
      if s[0] == sep then
        assert ([""] + rest)[1..] == rest;
        [""] + rest
      else
        var r := [[s[0]] + rest[0]] + rest[1..];
        assert r[1..] == rest[1..];
        assert s == [s[0]] + s[1..];
        r
  }

  predicate IsDigit(c: char) {
    '0' <= c <= '9'
  }

  /** Python's grammar for a base-10 integer's digits: digit (["_"] digit)*. */
  predicate IsDigitRun(s: string) {
    && |s| > 0
    && IsDigit(s[0]) && IsDigit(s[|s| - 1])
    && (forall i :: 0 <= i < |s| ==> IsDigit(s[i]) || s[i] == '_')
    && (forall i :: 0 <= i < |s| - 1 ==> !(s[i] == '_' && s[i + 1] == '_'))
  }

  /** The value of a digit run; underscores are ignored. */
  function DigitsValue(s: string): nat {
    if s == [] then 0
    else if s[|s| - 1] == '_' then DigitsValue(s[..|s| - 1])
    else if IsDigit(s[|s| - 1]) then DigitsValue(s[..|s| - 1]) * 10 + (s[|s| - 1] as int - '0' as int)
    else DigitsValue(s[..|s| - 1]) * 10
  }

  /** int(s) in base 10: the whitespace int() skips is ignored around an optional sign and a
      digit run. Anything else is a ValueError, here None. */
  function ParseInt(s: string): (r: Option<int>)
    ensures r.Some? ==> exists k :: 0 <= k < |s| && IsDigit(s[k])
    ensures r.Some? && r.value < 0 ==> '-' in s
  {
    IntStripInside(s);
    ParseSigned(IntStrip(s))
  }

  /** Every character int() keeps comes from the string. */
  lemma IntStripInside(s: string)
    ensures forall k :: 0 <= k < |IntStrip(s)| ==> IntStrip(s)[k] in s
  {
    var l := LTrim(s, IsIntSpace);
    LTrimShape(s, IsIntSpace);
    RTrimShape(l, IsIntSpace);
    var off := |s| - |l|;
    forall k | 0 <= k < |IntStrip(s)| ensures IntStrip(s)[k] in s {
      assert IntStrip(s)[k] == l[k] == s[off + k];
    }
  }

  /** An optional sign followed by a digit run, with nothing around it. */
  function ParseSigned(t: string): (r: Option<int>)
    ensures r.Some? ==> exists k :: 0 <= k < |t| && IsDigit(t[k])
    ensures r.Some? && r.value < 0 ==> t[0] == '-'
  {
    if |t| > 0 && (t[0] == '-' || t[0] == '+') then
      if IsDigitRun(t[1..]) then
        var v: int := DigitsValue(t[1..]);
        Some(if t[0] == '-' then -v else v)
      else None
    else if IsDigitRun(t) then Some(DigitsValue(t))
    else None
  }

  /** A character int() can never accept, wherever it stands in the field. */
  predicate Foreign(c: char) {
    !IsIntSpace(c) && !IsDigit(c) && c != '_' && c != '+' && c != '-'
  }

  /** A field holding any character that is not whitespace, a digit, a sign or an underscore
      is not an integer: the header `self [us]` is rejected this way. */
  lemma ParseIntRejectsForeign(s: string, k: nat)
    requires k < |s| && Foreign(s[k])
    ensures ParseInt(s) == None
  {
    var l := LTrim(s, IsIntSpace);
    var t := RTrim(l, IsIntSpace);
    LTrimShape(s, IsIntSpace);
    RTrimShape(l, IsIntSpace);
    var j := k - (|s| - |l|);
    assert 0 <= j < |l| && l[j] == s[k];
    assert 0 <= j < |t| && t[j] == s[k];
    ParseSignedRejectsForeign(t, j);
  }

  lemma ParseSignedRejectsForeign(t: string, j: nat)
    requires j < |t| && Foreign(t[j])
    ensures ParseSigned(t) == None
  {
    if |t| > 0 && (t[0] == '-' || t[0] == '+') {
      assert t[1..][j - 1] == t[j];
    }
  }

  function DigitChar(d: nat): char
    requires d < 10
  {
    ('0' as int + d) as char
  }

  /** str(n) for n >= 0: decimal digits, no leading zero. */
  function NatString(n: nat): (r: string)
    ensures |r| > 0 && (forall i :: 0 <= i < |r| ==> IsDigit(r[i]))
    ensures r[0] == '0' ==> n == 0
  {
    if n < 10 then [DigitChar(n)] else NatString(n / 10) + [DigitChar(n % 10)]
  }

  /** str(n) for any integer. */
  function DecimalString(n: int): (r: string)
    ensures |r| > 0 && !IsSpace(r[0]) && !IsSpace(r[|r| - 1])
    ensures forall i :: 0 <= i < |r| ==> IsDigit(r[i]) || r[i] == '-'
  {
    if n < 0 then "-" + NatString(-n) else NatString(n)
  }

  lemma {:induction false} NatStringValue(n: nat)
    ensures IsDigitRun(NatString(n)) && DigitsValue(NatString(n)) == n
  {
    if n >= 10 {
      NatStringValue(n / 10);
      var p := NatString(n / 10);
      var s := p + [DigitChar(n % 10)];
      assert s[..|s| - 1] == p;
    }
  }

  /** int(str(n)) == n, and also with the padding the trace puts around numbers. */
  lemma ParseDecimalString(n: int, left: nat, right: nat)
    ensures ParseInt(Spaces(left) + DecimalString(n) + Spaces(right)) == Some(n)
  {
    var s := DecimalString(n);
    IntStripPadded(left, s, right);
    ParseSignedDecimal(n);
  }

  lemma ParseSignedDecimal(n: int)
    ensures ParseSigned(DecimalString(n)) == Some(n)
  {
    var s := DecimalString(n);
    if n < 0 {
      NatStringValue(-n);
      assert s[0] == '-' && s[1..] == NatString(-n);
    } else {
      NatStringValue(n);
      assert IsDigit(s[0]);
    }
  }

  /** str.ljust(width): the string followed by spaces up to the width, if it is shorter. */
  function LJust(s: string, width: nat): (r: string)
    ensures |r| == Max(|s|, width)
    ensures r[..|s|] == s
    ensures forall i :: |s| <= i < |r| ==> r[i] == ' '
  {
    if |s| < width then s + Spaces(width - |s|) else s
  }

  /** The position Python uses for the bound k in s[:k] and s[k:]: a negative k counts from the end,
      and the bound is clamped to the string. */
  function SliceBound(k: int, len: nat): (r: nat)
    ensures r <= len
    ensures 0 <= k ==> r == Min(k, len)
    ensures k < 0 ==> r == Max(len + k, 0)
  {
    if k < 0 then (if len + k < 0 then 0 else len + k) else if k > len then len else k
  }

  function Abs(x: int): nat {
    if x < 0 then -x else x
  }

  /** The floor quotient of naturals counts the whole copies of the divisor that fit. */
  lemma DivBounds(x: nat, y: nat)
    requires y > 0
    ensures (x / y) * y <= x < (x / y + 1) * y
  {
    var m := x / y;
    assert m * y + x % y == x;
    assert (m + 1) * y == m * y + y;
  }

  /** int(a / b) for integers: the exact quotient truncated toward zero. Its magnitude is the
      largest whole number of |b|s that fit in |a|, and it is negative exactly when it is not
      zero and the operands have opposite signs. */
  function TruncDiv(a: int, b: int): (q: int)
    requires b != 0
    ensures Abs(q) * Abs(b) <= Abs(a) < (Abs(q) + 1) * Abs(b)
    ensures q != 0 ==> (q < 0 <==> (a < 0) != (b < 0))
    ensures a >= 0 && b > 0 ==> q == a / b
  {
    var m := Abs(a) / Abs(b);
    DivBounds(Abs(a), Abs(b));
    if (a < 0) != (b < 0) then -m else m
  }
}
