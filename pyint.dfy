/** Python's `int(text)` for a string in base 10, as the paginator applies it
    to the `page` query parameter and the password-reset view to the user id
    in its link: surrounding whitespace is ignored (the whitespace `int()`
    knows, which is not all that `str.strip()` removes), an optional sign may lead,
    and single underscores may separate digits. Anything else is a
    `ValueError`, modelled as `None`. */
module PyInt {
  import opened Tables
  import opened PyStr

  predicate IsDigit(c: char)
  {
    '0' <= c <= '9'
  }

  function DigitValue(c: char): nat
    requires IsDigit(c)
  {
    c as int - '0' as int
  }

  /** A run of digits in which single underscores may stand between digits. */
  predicate DigitRun(s: string)
  {
    && |s| > 0
    && IsDigit(s[0])
    && IsDigit(s[|s| - 1])
    && (forall i :: 0 <= i < |s| ==> IsDigit(s[i]) || s[i] == '_')
    && (forall i :: 0 <= i < |s| - 1 ==> IsDigit(s[i]) || IsDigit(s[i + 1]))
  }

  /** The number a digit run denotes, underscores ignored. */
  function RunValue(s: string): nat
    requires forall i :: 0 <= i < |s| ==> IsDigit(s[i]) || s[i] == '_'
  {
    if s == [] then 0
    else if s[|s| - 1] == '_' then RunValue(s[..|s| - 1])
    else 10 * RunValue(s[..|s| - 1]) + DigitValue(s[|s| - 1])
  }

  /** `int` of an already stripped text. */
  function ParseStripped(t: string): (r: Option<int>)
    ensures r.Some? ==> exists c :: c in t && IsDigit(c)
  {
    if t == [] then None
    else
      var signed := t[0] == '+' || t[0] == '-';
      var digits := if signed then t[1..] else t;
      if DigitRun(digits) then
        assert digits[0] in t;
        var v: int := RunValue(digits);
        Some(if t[0] == '-' then -v else v)
      else None
  }

  /** `int(s)`, or `None` where Python raises `ValueError`. */
  function ParseInt(s: string): (r: Option<int>)
    ensures r.Some? ==> exists c :: c in s && IsDigit(c)
  {
    ParseStripped(StripBlanks(IsIntSpace, s))
  }

  function DigitChar(d: nat): (c: char)
    requires d < 10
    ensures IsDigit(c) && DigitValue(c) == d
  {
    ('0' as int + d) as char
  }

  /** The decimal numeral of `n` (Python's `str(n)` for a natural number). */
  function ShowNat(n: nat): (s: string)
    ensures |s| > 0
    ensures forall i :: 0 <= i < |s| ==> IsDigit(s[i])
    decreases n
  {
    if n < 10 then [DigitChar(n)] else ShowNat(n / 10) + [DigitChar(n % 10)]
  }

  /** `str(n)`: a minus sign before the numeral of a negative number. */
  function Show(n: int): (s: string)
    ensures |s| > 0
  {
    if n < 0 then "-" + ShowNat(-n) else ShowNat(n)
  }

  lemma {:induction false} ShowNatValue(n: nat)
    ensures DigitRun(ShowNat(n))
    ensures RunValue(ShowNat(n)) == n
    decreases n
  {
    var s := ShowNat(n);
    if n >= 10 {
      ShowNatValue(n / 10);
      assert s[..|s| - 1] == ShowNat(n / 10);
    }
  }

  /** A stripped digit run, with or without a minus sign, reads as its value. */
  lemma ParseStrippedRun(d: string)
    requires DigitRun(d)
    ensures ParseStripped(d) == Some(RunValue(d))
    ensures ParseStripped("-" + d) == Some(0 - RunValue(d))
  {
    var t := "-" + d;
    assert t[0] == '-' && t[1..] == d;
  }

  /** `str(n)` has no surrounding whitespace: it starts with a digit or a
      minus sign and ends with a digit. */
  lemma ShowStripped(n: int)
    ensures StripBlanks(IsIntSpace, Show(n)) == Show(n)
  {
    var s := Show(n);
    var digits := ShowNat(if n < 0 then -n else n);
    assert IsDigit(digits[0]) && IsDigit(digits[|digits| - 1]);
    if n < 0 {
      assert s[0] == '-' && s[|s| - 1] == digits[|digits| - 1];
    }
    StripStripped(IsIntSpace, s);
  }

  /** `int(str(n)) == n`: every integer's numeral reads back as that integer. */
  lemma ParseShow(n: int)
    ensures ParseInt(Show(n)) == Some(n)
  {
    var m := if n < 0 then -n else n;
    ShowStripped(n);
    ShowNatValue(m);
    ParseStrippedRun(ShowNat(m));
  }

  /** Whitespace around the text does not change what `int` reads. */
  lemma ParseIgnoresSpaces(a: string, s: string, b: string)
    requires AllBlank(IsIntSpace, a) && AllBlank(IsIntSpace, b)
    ensures ParseInt(a + s + b) == ParseInt(s)
  {
    StripSpaces(IsIntSpace, a, s, b);
  }

  /** `int()` skips a newline or a space around the digits, but not the
      separator `\x1c`, which `str.strip()` would remove. */
  lemma ParseRefusesSeparator()
    ensures ParseInt(" 5\n") == Some(5)
    ensures ParseInt([28 as char, '5']) == None
    ensures Strip([28 as char, '5']) == "5"
  {
    var t := [28 as char, '5'];
    SkipUnique(IsIntSpace, t, 0, 0);
    BackUnique(IsIntSpace, t, 0, 2, 2);
    SkipUnique(IsSpace, t, 0, 1);
    BackUnique(IsSpace, t, 1, 2, 2);
    var u := " 5\n";
    SkipUnique(IsIntSpace, u, 0, 1);
    BackUnique(IsIntSpace, u, 1, 3, 2);
    assert u[1..2] == "5";
    assert DigitRun("5") && RunValue("5") == 5;
  }
}
