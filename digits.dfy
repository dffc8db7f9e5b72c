/** Decimal digit text: the zero-padded fields of a date and Python's int() of a period count. */
module Digits {
  import opened Errors

  predicate IsDigit(c: char) { '0' <= c <= '9' }

  predicate AllDigits(s: string) { forall i :: 0 <= i < |s| ==> IsDigit(s[i]) }

  function DigitValue(c: char): (v: nat)
    requires IsDigit(c)
    ensures v < 10
  {
    (c as int) - ('0' as int)
  }

  function DigitChar(d: nat): (c: char)
    requires d < 10
    ensures IsDigit(c) && DigitValue(c) == d
  {
    (d + '0' as int) as char
  }

  function Pow10(w: nat): (p: nat)
    ensures p >= 1
  {
    if w == 0 then 1 else 10 * Pow10(w - 1)
  }

  /** The number a string of decimal digits denotes. */
  function Value(s: string): (v: nat)
    requires AllDigits(s)
    ensures v < Pow10(|s|)
    decreases |s|
  {
    if s == [] then 0 else Value(s[..|s| - 1]) * 10 + DigitValue(s[|s| - 1])
  }

  /** The last w decimal digits of n, padded with leading zeros (Python's "%0wd" for n < 10^w). */
  function Pad(n: nat, w: nat): (s: string)
    ensures |s| == w && AllDigits(s)
  {
    if w == 0 then [] else Pad(n / 10, w - 1) + [DigitChar(n % 10)]
  }

  lemma {:induction false} ValueOfPad(n: nat, w: nat)
    requires n < Pow10(w)
    ensures Value(Pad(n, w)) == n
  {
    if w > 0 {
      var s := Pad(n, w);
      assert s[..w - 1] == Pad(n / 10, w - 1);
      ValueOfPad(n / 10, w - 1);
    }
  }

  /** Dividing 10q + d by ten, for a digit d, gives back q and d. */
  lemma DivMod10(q: nat, d: nat)
    requires d < 10
    ensures (q * 10 + d) / 10 == q && (q * 10 + d) % 10 == d
  {
  }

  lemma {:induction false} PadOfValue(s: string)
    requires AllDigits(s)
    ensures Pad(Value(s), |s|) == s
  {
    if s != [] {
      var init, last := s[..|s| - 1], s[|s| - 1];
      var v := Value(s);
      assert v == Value(init) * 10 + DigitValue(last);
      DivMod10(Value(init), DigitValue(last));
      PadOfValue(init);
      assert Pad(v, |s|) == Pad(Value(init), |s| - 1) + [DigitChar(DigitValue(last))];
      assert s == init + [last];
    }
  }

  /** Python's str(n): the shortest decimal text of n, with a '-' sign when negative. */
  function Show(n: int): (s: string)
    ensures |s| > 0
    decreases if n < 0 then 1 - n else n
  {
    if n < 0 then "-" + Show(-n)
    else if n < 10 then [DigitChar(n)]
    else Show(n / 10) + [DigitChar(n % 10)]
  }

  /**
   * The whitespace that Python's int() strips from both ends: the ASCII whitespace of the C
   * locale (tab, line feed, vertical tab, form feed, carriage return and space), and the
   * non-ASCII Unicode whitespace, which int() turns into spaces before it strips. The ASCII
   * separators U+001C to U+001F are not stripped, although str.isspace() accepts them.
   */
  predicate IsSpace(c: char) {
    || '\t' <= c <= '\r'
    || c == ' '
    || c == '\U{0085}' || c == '\U{00A0}' || c == '\U{1680}'
    || '\U{2000}' <= c <= '\U{200A}'
    || c == '\U{2028}' || c == '\U{2029}' || c == '\U{202F}' || c == '\U{205F}' || c == '\U{3000}'
  }

  function TrimLeft(s: string): (r: string)
    ensures |r| <= |s| && (r != [] ==> !IsSpace(r[0]))
  {
    if s != [] && IsSpace(s[0]) then TrimLeft(s[1..]) else s
  }

  function TrimRight(s: string): (r: string)
    ensures |r| <= |s| && (r != [] ==> !IsSpace(r[|r| - 1]))
  {
    if s != [] && IsSpace(s[|s| - 1]) then TrimRight(s[..|s| - 1]) else s
  }

  /**
   * Digits with single underscores allowed between them, as Python's int() accepts:
   * "1_000" but not "_1", "1_" or "1__0".
   */
  predicate IsDigitGroups(s: string) {
    && s != []
    && IsDigit(s[0]) && IsDigit(s[|s| - 1])
    && (forall i :: 0 <= i < |s| ==> IsDigit(s[i]) || s[i] == '_')
    && (forall i :: 0 <= i < |s| - 1 ==> s[i] == '_' ==> s[i + 1] != '_')
  }

  function DropUnderscores(s: string): (r: string)
    requires forall i :: 0 <= i < |s| ==> IsDigit(s[i]) || s[i] == '_'
    ensures AllDigits(r) && |r| <= |s|
    ensures AllDigits(s) ==> r == s
  {
    if s == [] then []
    else if s[0] == '_' then DropUnderscores(s[1..])
    else [s[0]] + DropUnderscores(s[1..])
  }

  /**
   * The most digits CPython's int() converts from decimal text (sys.get_int_max_str_digits(),
   * 4300 by default since the September 2022 security releases); str() refuses longer numbers too.
   */
  const MaxStrDigits := 4300

  /** The text after an optional leading sign. */
  function Unsigned(s: string): (u: string)
    ensures |u| <= |s|
  {
    if s != [] && (s[0] == '-' || s[0] == '+') then s[1..] else s
  }

  /** How many characters of s are digits: the count that the digit limit applies to. */
  function DigitsIn(s: string): (k: nat)
    ensures k <= |s|
    ensures AllDigits(s) ==> k == |s|
  {
    if s == [] then 0 else DigitsIn(s[1..]) + (if IsDigit(s[0]) then 1 else 0)
  }

  /** The number, optionally signed, that text of the form sign-then-digit-groups denotes. */
  function ParseGroups(s: string): (r: Result<int>)
    ensures r.Ok? <==> IsDigitGroups(Unsigned(s))
    ensures r.Err? ==> r.error == ValueError
  {
    var u := Unsigned(s);
    if !IsDigitGroups(u) then Err(ValueError)
    else
      var v: int := Value(DropUnderscores(u));
      Ok(if s[0] == '-' then -v else v)
  }

  /** The same, refusing text of more than MaxStrDigits digits with ValueError. */
  function ParseSigned(s: string): (r: Result<int>)
    ensures r.Ok? <==> IsDigitGroups(Unsigned(s)) && DigitsIn(Unsigned(s)) <= MaxStrDigits
    ensures r.Err? ==> r.error == ValueError
  {
    if DigitsIn(Unsigned(s)) > MaxStrDigits then Err(ValueError) else ParseGroups(s)
  }

  /** Python's int(s) on a base-10 string: surrounding whitespace, a sign, underscores between digits. */
  function ParseInt(s: string): (r: Result<int>)
    ensures r.Err? ==> r.error == ValueError
  {
    ParseSigned(TrimRight(TrimLeft(s)))
  }

  lemma {:induction false} ShowNonNegative(n: nat)
    ensures AllDigits(Show(n)) && Value(Show(n)) == n
    decreases n
  {
    if n >= 10 {
      ShowNonNegative(n / 10);
      var s := Show(n);
      assert s[..|s| - 1] == Show(n / 10);
    }
  }

  /** str(n) of a non-negative n is a group of digits with no underscore to drop. */
  lemma DigitGroupsOfShow(m: nat)
    ensures IsDigitGroups(Show(m)) && DropUnderscores(Show(m)) == Show(m) && Value(Show(m)) == m
  {
    ShowNonNegative(m);
    var digits := Show(m);
    assert IsDigit(digits[0]) && IsDigit(digits[|digits| - 1]);
  }

  /** str(n) of a negative n is a minus sign followed by str(-n). */
  lemma ShowNegative(n: int)
    requires n < 0
    ensures Show(n)[0] == '-' && Show(n)[1..] == Show(-n)
  {
    var s := Show(n);
    assert s == "-" + Show(-n);
  }

  /** str(n) has no surrounding whitespace for int() to strip. */
  lemma TrimShow(n: int)
    ensures TrimRight(TrimLeft(Show(n))) == Show(n)
  {
    var m := if n < 0 then -n else n;
    ShowNonNegative(m);
    var s := Show(n);
    if n < 0 {
      ShowNegative(n);
      assert s[|s| - 1] == Show(m)[|Show(m)| - 1];
    }
    assert !IsSpace(s[0]) && !IsSpace(s[|s| - 1]);
    assert TrimLeft(s) == s;
  }

  /** The number of decimal digits of n. */
  function DigitCount(n: int): (k: nat)
    ensures k >= 1
  {
    |Show(if n < 0 then -n else n)|
  }

  /** Signed text whose unsigned part is plain digits denotes their value, within the limit. */
  lemma ParseSignedDigits(s: string, u: string)
    requires Unsigned(s) == u && IsDigitGroups(u) && AllDigits(u)
    ensures ParseSigned(s) == if |u| > MaxStrDigits then Err(ValueError)
                              else if s[0] == '-' then Ok(0 - Value(u)) else Ok(Value(u))
  {
    assert DropUnderscores(u) == u && DigitsIn(u) == |u|;
  }

  /** str(m) of a non-negative m, without a sign, denotes m, within the digit limit. */
  lemma ParseUnsigned(m: nat)
    ensures ParseSigned(Show(m)) == if DigitCount(m) <= MaxStrDigits then Ok(m) else Err(ValueError)
  {
    DigitGroupsOfShow(m);
    var u := Show(m);
    assert IsDigit(u[0]);
    ParseSignedDigits(u, u);
  }

  /** str(n) of a negative n denotes n, within the digit limit. */
  lemma ParseNegative(n: int)
    requires n < 0
    ensures ParseSigned(Show(n)) == if DigitCount(n) <= MaxStrDigits then Ok(n) else Err(ValueError)
  {
    var s, u := Show(n), Show(-n);
    ShowNegative(n);
    assert Unsigned(s) == u;
    DigitGroupsOfShow(-n);
    ParseSignedDigits(s, u);
    assert DigitCount(n) == |u| && Value(u) == -n;
  }

  /**
   * int(str(n)) == n: Python's int() reads back the decimal text str() writes, for every n of
   * at most MaxStrDigits digits, and refuses the text of a longer one with ValueError.
   */
  lemma ParseIntOfShow(n: int)
    ensures ParseInt(Show(n)) == if DigitCount(n) <= MaxStrDigits then Ok(n) else Err(ValueError)
  {
    TrimShow(n);
    if n < 0 {
      ParseNegative(n);
    } else {
      ParseUnsigned(n);
    }
  }
}
