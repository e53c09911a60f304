/** Decimal text as Python reads it: `str.isdigit` and `int(str)`, restricted
    to ASCII characters. */
module Numerals {
  import opened Wrappers

  predicate IsDigit(c: char) {
    '0' <= c <= '9'
  }

  function DigitValue(c: char): (v: nat)
    requires IsDigit(c)
    ensures v < 10
  {
    c as int - '0' as int
  }

  function DigitChar(v: nat): (c: char)
    requires v < 10
    ensures IsDigit(c) && DigitValue(c) == v
  {
    ('0' as int + v) as char
  }

  /** Every character is a decimal digit (the empty text included). */
  predicate AllDigits(s: string) {
    forall i :: 0 <= i < |s| ==> IsDigit(s[i])
  }

  /** Python's `s.isdigit()`: non-empty and made of digits only. */
  predicate IsDigits(s: string) {
    |s| > 0 && AllDigits(s)
  }

  function Pow10(n: nat): (p: nat)
    ensures p >= 1
  {
    if n == 0 then 1 else 10 * Pow10(n - 1)
  }

  /** The value of a digit string read in base 10, most significant digit first. */
  function DigitsValue(s: string): (v: nat)
    requires AllDigits(s)
  {
    if s == [] then 0 else DigitsValue(s[..|s| - 1]) * 10 + DigitValue(s[|s| - 1])
  }

  /** `n` digits spell a number below `10^n`. */
  lemma {:induction false} DigitsValueBound(s: string)
    requires AllDigits(s)
    ensures DigitsValue(s) < Pow10(|s|)
    decreases |s|
  {
    if s != [] {
      DigitsValueBound(s[..|s| - 1]);
    }
  }

  lemma DigitsValueAppend(s: string, c: char)
    requires AllDigits(s) && IsDigit(c)
    ensures AllDigits(s + [c])
    ensures DigitsValue(s + [c]) == DigitsValue(s) * 10 + DigitValue(c)
  {
    assert (s + [c])[..|s|] == s;
  }

  /** A two-digit text is worth ten times its first digit plus its second. */
  lemma DigitPairValue(f: string)
    ensures |f| == 2 && AllDigits(f) ==> DigitsValue(f) == 10 * DigitValue(f[0]) + DigitValue(f[1])
  {
    if |f| == 2 && AllDigits(f) {
      assert f[..1] == [f[0]] && f[..1][..0] == [];
      assert DigitsValue(f[..1]) == DigitValue(f[0]);
    }
  }

  /** The shortest decimal text of `n` (what `str(n)` prints). */
  function NatDigits(n: nat): (s: string)
    ensures IsDigits(s)
  {
    if n < 10 then [DigitChar(n)] else NatDigits(n / 10) + [DigitChar(n % 10)]
  }

  /** Reading back the text of a number gives the number. */
  lemma {:induction false} DigitsValueOfNatDigits(n: nat)
    ensures DigitsValue(NatDigits(n)) == n
  {
    if n >= 10 {
      DigitsValueOfNatDigits(n / 10);
      DigitsValueAppend(NatDigits(n / 10), DigitChar(n % 10));
    }
  }

  /** The ASCII characters Python's `int()` skips around its argument: tab,
      line feed, vertical tab, form feed, carriage return and space. */
  function IsSpace(c: char): (b: bool)
    ensures b <==> c in {'\t', '\n', '\r', ' '} || c as int == 0x0B || c as int == 0x0C
  {
    c == ' ' || '\t' <= c <= '\r'
  }

  predicate AllSpace(w: string) {
    forall k :: 0 <= k < |w| ==> IsSpace(w[k])
  }

  /** `s` without its leading whitespace. */
  function StripLeft(s: string): (r: string)
    ensures |r| <= |s|
    ensures r == [] || !IsSpace(r[0])
    ensures s == [] || !IsSpace(s[0]) ==> r == s
  {
    if s != [] && IsSpace(s[0]) then StripLeft(s[1..]) else s
  }

  /** `s` without its trailing whitespace. */
  function StripRight(s: string): (r: string)
    ensures |r| <= |s|
    ensures r != [] ==> r[0] == s[0]
    ensures r == [] || !IsSpace(r[|r| - 1])
    ensures s == [] || !IsSpace(s[|s| - 1]) ==> r == s
  {
    if s != [] && IsSpace(s[|s| - 1]) then StripRight(s[..|s| - 1]) else s
  }

  /** `s` without the whitespace around it. */
  function Strip(s: string): (r: string)
    ensures r == [] || (!IsSpace(r[0]) && !IsSpace(r[|r| - 1]))
  {
    StripRight(StripLeft(s))
  }

  /** Only whitespace is cut from the front: the result is a suffix of `s`
      and everything before it is whitespace. */
  lemma {:induction false} StripLeftIsSuffix(s: string)
    ensures var r := StripLeft(s);
      r == s[|s| - |r|..] && AllSpace(s[..|s| - |r|])
    decreases |s|
  {
    if s != [] && IsSpace(s[0]) {
      StripLeftIsSuffix(s[1..]);
      var r := StripLeft(s);
      assert s[1..][..|s| - 1 - |r|] == s[1..|s| - |r|];
      assert s[..|s| - |r|] == [s[0]] + s[1..|s| - |r|];
    } else {
      assert s[..0] == [];
    }
  }

  /** Only whitespace is cut from the back: the result is a prefix of `s`
      and everything after it is whitespace. */
  lemma {:induction false} StripRightIsPrefix(s: string)
    ensures var r := StripRight(s);
      r == s[..|r|] && AllSpace(s[|r|..])
    decreases |s|
  {
    if s != [] && IsSpace(s[|s| - 1]) {
      var u := s[..|s| - 1];
      StripRightIsPrefix(u);
      var r := StripRight(s);
      assert u[|r|..] + [s[|s| - 1]] == s[|r|..];
    } else {
      assert s[|s|..] == [];
    }
  }

  /** `r` is the slice of `s` starting at `i`, with only whitespace before
      and after it. */
  predicate StrippedAt(s: string, r: string, i: nat) {
    && i + |r| <= |s|
    && r == s[i..i + |r|]
    && AllSpace(s[..i])
    && AllSpace(s[i + |r|..])
  }

  /** `Strip` removes exactly the surrounding whitespace: its result is a
      slice of `s` with only whitespace around it, and (by the ensures of
      `Strip`) it has no whitespace at either end. */
  lemma StripIsSlice(s: string)
    ensures exists i: nat :: StrippedAt(s, Strip(s), i)
  {
    var t := StripLeft(s);
    var r := StripRight(t);
    var i := |s| - |t|;
    StripLeftIsSuffix(s);
    StripRightIsPrefix(t);
    assert t == s[i..];
    assert r == t[..|r|];
    assert r == s[i..i + |r|];
    assert s[i + |r|..] == t[|r|..];
    assert r == Strip(s);
    assert StrippedAt(s, Strip(s), i);
  }

  /** Digits, with single underscores allowed between two digits (PEP 515):
      a digit, then either nothing, or an optional underscore and more groups. */
  predicate IsDigitGroups(s: string)
    decreases |s|
  {
    && |s| > 0
    && IsDigit(s[0])
    && (|s| == 1 || (s[1] == '_' && IsDigitGroups(s[2..])) || IsDigitGroups(s[1..]))
  }

  lemma {:induction false} DigitsAreGroups(s: string)
    ensures IsDigits(s) ==> IsDigitGroups(s)
    decreases |s|
  {
    if IsDigits(s) && |s| > 1 {
      assert IsDigits(s[1..]);
      DigitsAreGroups(s[1..]);
    }
  }

  /** The decimal digits of `s`, in order, every other character dropped. */
  function DigitsOf(s: string): (r: string)
    ensures AllDigits(r) && |r| <= |s|
    ensures AllDigits(s) ==> r == s
  {
    if s == [] then []
    else
      assert AllDigits(s) ==> AllDigits(s[1..]) && s == [s[0]] + s[1..];
      (if IsDigit(s[0]) then [s[0]] else []) + DigitsOf(s[1..])
  }

  /** Following the digit-groups grammar, drops each separating underscore. */
  function RemoveUnderscores(s: string): (r: string)
    requires IsDigitGroups(s)
    ensures IsDigits(r)
    decreases |s|
  {
    if |s| == 1 then
      s
    else if s[1] == '_' then
      assert s[1..][0] == '_' && !IsDigitGroups(s[1..]);
      [s[0]] + RemoveUnderscores(s[2..])
    else
      [s[0]] + RemoveUnderscores(s[1..])
  }

  /** Dropping the separating underscores leaves exactly the digits of the
      text, in order. */
  lemma {:induction false} RemoveUnderscoresIsDigitsOf(s: string)
    requires IsDigitGroups(s)
    ensures RemoveUnderscores(s) == DigitsOf(s)
    decreases |s|
  {
    if |s| == 1 {
      assert s[1..] == [];
    } else if s[1] == '_' {
      assert s[1..][0] == '_' && !IsDigitGroups(s[1..]) && s[1..][1..] == s[2..];
      RemoveUnderscoresIsDigitsOf(s[2..]);
    } else {
      RemoveUnderscoresIsDigitsOf(s[1..]);
    }
  }

  /** CPython's default limit on the number of digits `int()` converts from
      decimal text; longer text raises `ValueError`. */
  const MaxStrDigits: nat := 4300

  /** The digits after an optional sign: digit groups, at most 4300 digits,
      read with the underscores dropped. */
  function ParseUnsigned(body: string): (r: Option<nat>)
    ensures IsDigits(body) ==> r == if |body| <= MaxStrDigits then Some(DigitsValue(body)) else None
  {
    DigitsAreGroups(body);
    if IsDigitGroups(body) then
      RemoveUnderscoresIsDigitsOf(body);
      var digits := RemoveUnderscores(body);
      if |digits| <= MaxStrDigits then Some(DigitsValue(digits)) else None
    else
      None
  }

  /** What `int()` accepts after the sign: digit groups holding at most 4300
      digits, read as the number their digits spell, underscores ignored. */
  lemma ParseUnsignedOfGroups(body: string)
    ensures ParseUnsigned(body).Some? <==> IsDigitGroups(body) && |DigitsOf(body)| <= MaxStrDigits
    ensures ParseUnsigned(body).Some? ==> ParseUnsigned(body).value == DigitsValue(DigitsOf(body))
  {
    if IsDigitGroups(body) {
      RemoveUnderscoresIsDigitsOf(body);
    }
  }

  /** The value read after a sign, negated when the sign was a minus. */
  function Signed(v: Option<nat>, negative: bool): (r: Option<int>)
    ensures r.Some? <==> v.Some?
    ensures v.Some? ==> r.value == if negative then -(v.value as int) else v.value as int
  {
    match v
    case None => None
    case Some(n) => Some(if negative then -(n as int) else n as int)
  }

  /** Python's `int(s)` in base 10: `None` stands for the `ValueError` it raises. */
  function ParseInt(s: string): (r: Option<int>)
    ensures IsDigits(s) && |s| <= MaxStrDigits ==> r == Some(DigitsValue(s))
    ensures IsDigits(s) && |s| > MaxStrDigits ==> r == None
  {
    var t := Strip(s);
    if |t| > 0 && t[0] == '-' then Signed(ParseUnsigned(t[1..]), true)
    else if |t| > 0 && t[0] == '+' then Signed(ParseUnsigned(t[1..]), false)
    else Signed(ParseUnsigned(t), false)
  }

  /** The decimal text of an integer, with a leading minus sign when negative. */
  function IntText(i: int): (s: string)
    ensures |s| > 0
  {
    if i < 0 then "-" + NatDigits(-i) else NatDigits(i)
  }

  /** The number of decimal digits of `i`, its sign not counted. */
  function DigitCount(i: int): (n: nat)
    ensures n >= 1
  {
    |NatDigits(if i < 0 then -i else i)|
  }

  lemma StripUnspaced(t: string)
    requires |t| > 0 && !IsSpace(t[0]) && !IsSpace(t[|t| - 1])
    ensures Strip(t) == t
  {
    assert StripLeft(t) == t;
  }

  lemma StripIdempotent(s: string)
    ensures Strip(Strip(s)) == Strip(s)
  {
    if Strip(s) != [] {
      StripUnspaced(Strip(s));
    }
  }

  lemma {:induction false} StripLeftSpaces(w: string, t: string)
    requires AllSpace(w) && (t == [] || !IsSpace(t[0]))
    ensures StripLeft(w + t) == t
    decreases |w|
  {
    if w == [] {
      assert w + t == t;
    } else {
      assert (w + t)[1..] == w[1..] + t;
      StripLeftSpaces(w[1..], t);
    }
  }

  lemma {:induction false} StripRightSpaces(t: string, w: string)
    requires AllSpace(w) && (t == [] || !IsSpace(t[|t| - 1]))
    ensures StripRight(t + w) == t
    decreases |w|
  {
    if w == [] {
      assert t + w == t;
    } else {
      assert (t + w)[..|t + w| - 1] == t + w[..|w| - 1];
      StripRightSpaces(t, w[..|w| - 1]);
    }
  }

  /** Whitespace around a text with non-space ends is exactly what `Strip`
      removes. */
  lemma StripPadded(w1: string, t: string, w2: string)
    requires AllSpace(w1) && AllSpace(w2)
    requires |t| > 0 && !IsSpace(t[0]) && !IsSpace(t[|t| - 1])
    ensures Strip(w1 + t + w2) == t
  {
    assert w1 + t + w2 == w1 + (t + w2);
    StripLeftSpaces(w1, t + w2);
    StripRightSpaces(t, w2);
  }

  /** `int()` reads only what is left once the surrounding whitespace is stripped. */
  lemma ParseIntOfStripped(s: string)
    ensures ParseInt(s) == ParseInt(Strip(s))
  {
    StripIdempotent(s);
  }

  /** Text that is empty or all whitespace is not a number. */
  lemma ParseIntOfBlank(s: string)
    requires AllSpace(s)
    ensures ParseInt(s) == None
  {
    StripLeftSpaces(s, []);
    assert s + [] == s;
  }

  /** A text with a digit at each end is read as an unsigned number. */
  lemma ParseIntOfDigitEnds(t: string)
    requires |t| > 0 && IsDigit(t[0]) && IsDigit(t[|t| - 1])
    ensures ParseInt(t) == Signed(ParseUnsigned(t), false)
  {
    StripUnspaced(t);
  }

  /** A minus sign before digits is read by `int()` as the negated value,
      unless there are more digits than `int()` converts. */
  lemma ParseIntOfNegatedDigits(t: string)
    requires |t| > 1 && t[0] == '-' && IsDigits(t[1..])
    ensures ParseInt(t) == if |t| - 1 <= MaxStrDigits then Some(-(DigitsValue(t[1..]) as int)) else None
  {
    assert t[|t| - 1] == t[1..][|t| - 2];
    StripUnspaced(t);
  }

  /** A plus sign before digits changes nothing. */
  lemma ParseIntOfPlusDigits(t: string)
    requires |t| > 1 && t[0] == '+' && IsDigits(t[1..])
    ensures ParseInt(t) == ParseInt(t[1..])
  {
    assert t[|t| - 1] == t[1..][|t| - 2];
    StripUnspaced(t);
    ParseIntOfDigitEnds(t[1..]);
  }

  lemma {:induction false} GroupsAroundUnderscore(a: string, b: string)
    requires IsDigits(a) && IsDigits(b)
    ensures IsDigitGroups(a + "_" + b)
    decreases |a|
  {
    var s := a + "_" + b;
    if |a| == 1 {
      assert s[2..] == b;
      DigitsAreGroups(b);
    } else {
      assert s[1..] == a[1..] + "_" + b;
      assert IsDigits(a[1..]);
      GroupsAroundUnderscore(a[1..], b);
    }
  }

  lemma {:induction false} DigitsOfConcat(x: string, y: string)
    ensures DigitsOf(x + y) == DigitsOf(x) + DigitsOf(y)
    decreases |x|
  {
    if x != [] {
      assert (x + y)[1..] == x[1..] + y;
      DigitsOfConcat(x[1..], y);
    } else {
      assert x + y == y;
    }
  }

  lemma DigitsOfUnderscore(a: string, b: string)
    requires IsDigits(a) && IsDigits(b)
    ensures DigitsOf(a + "_" + b) == a + b
  {
    DigitsOfConcat(a + "_", b);
    DigitsOfConcat(a, "_");
    assert DigitsOf("_") == [] by { assert "_"[1..] == []; }
  }

  /** An underscore between two digit groups does not change the number:
      `int("1_000") == int("1000")`. */
  lemma ParseIntUnderscore(a: string, b: string)
    requires IsDigits(a) && IsDigits(b)
    ensures ParseInt(a + "_" + b) == ParseInt(a + b)
  {
    var t1, t2 := a + "_" + b, a + b;
    GroupsAroundUnderscore(a, b);
    DigitsAreGroups(t2);
    DigitsOfUnderscore(a, b);
    assert t1[0] == a[0] && t1[|t1| - 1] == b[|b| - 1];
    assert t2[0] == a[0] && t2[|t2| - 1] == b[|b| - 1];
    ParseIntOfDigitEnds(t1);
    ParseIntOfDigitEnds(t2);
    ParseUnsignedOfGroups(t1);
    ParseUnsignedOfGroups(t2);
  }

  /** `int(str(n)) == n` for a natural number within the digit limit. */
  lemma ParseIntOfNatDigits(n: nat)
    ensures ParseInt(NatDigits(n)) == if |NatDigits(n)| <= MaxStrDigits then Some(n) else None
  {
    DigitsValueOfNatDigits(n);
  }

  /** `int(str(i)) == i`, unless `i` has more digits than `int()` converts. */
  lemma ParseIntOfIntText(i: int)
    ensures ParseInt(IntText(i)) == if DigitCount(i) <= MaxStrDigits then Some(i) else None
  {
    if i < 0 {
      var n: nat := -i;
      DigitsValueOfNatDigits(n);
      var t := IntText(i);
      assert t[1..] == NatDigits(n);
      ParseIntOfNegatedDigits(t);
    } else {
      ParseIntOfNatDigits(i);
    }
  }

  /** `int(w1 + str(i) + w2) == i` for whitespace `w1` and `w2`. */
  lemma ParseIntOfPaddedIntText(w1: string, i: int, w2: string)
    requires AllSpace(w1) && AllSpace(w2)
    ensures ParseInt(w1 + IntText(i) + w2) == ParseInt(IntText(i))
    ensures DigitCount(i) <= MaxStrDigits ==> ParseInt(w1 + IntText(i) + w2) == Some(i)
  {
    var t := IntText(i);
    var n: nat := if i < 0 then -i else i;
    assert IsDigits(NatDigits(n));
    assert t[|t| - 1] == NatDigits(n)[|NatDigits(n)| - 1];
    StripPadded(w1, t, w2);
    StripUnspaced(t);
    ParseIntOfStripped(w1 + t + w2);
    ParseIntOfIntText(i);
  }
}
