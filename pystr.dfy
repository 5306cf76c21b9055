/** Python's `str.strip()` with no argument: whitespace removed from both
    ends of a text. Every text field of a form strips what is submitted, and
    `int()` strips before it reads digits, with a slightly smaller set of
    whitespace characters. */
module PyStr {

  /** The characters `str.isspace` accepts: the ASCII controls from tab to
      carriage return, the four separators `\x1c` to `\x1f`, the space, and
      the Unicode line breaks and spaces. */
  predicate IsSpace(c: char)
  {
    var n := c as int;
    || 9 <= n <= 13 || 28 <= n <= 32 || n == 0x85 || n == 0xA0 || n == 0x1680
    || 0x2000 <= n <= 0x200A || n == 0x2028 || n == 0x2029 || n == 0x202F
    || n == 0x205F || n == 0x3000
  }

  /** The whitespace `int()` skips: it reads an ASCII text with C's
      `isspace` (tab to carriage return, and the space) and turns the Unicode
      whitespace of any other text into spaces first, so to it the
      separators `\x1c` to `\x1f` are not whitespace. */
  predicate IsIntSpace(c: char)
  {
    IsSpace(c) && !(28 <= c as int <= 31)
  }

  predicate AllBlank(blank: char -> bool, s: string)
  {
    forall i :: 0 <= i < |s| ==> blank(s[i])
  }

  /** The first index at or after `i` that does not hold whitespace, or the
      end of `s`. */
  function SkipBlanks(blank: char -> bool, s: string, i: nat): (k: nat)
    requires i <= |s|
    ensures i <= k <= |s|
    ensures forall j :: i <= j < k ==> blank(s[j])
    ensures k == |s| || !blank(s[k])
    decreases |s| - i
  {
    if i < |s| && blank(s[i]) then SkipBlanks(blank, s, i + 1) else i
  }

  /** The end of `s[lo..j]` once the whitespace at its end is dropped. */
  function BackBlanks(blank: char -> bool, s: string, lo: nat, j: nat): (k: nat)
    requires lo <= j <= |s|
    ensures lo <= k <= j
    ensures forall m :: k <= m < j ==> blank(s[m])
    ensures k == lo || !blank(s[k - 1])
    decreases j
  {
    if j > lo && blank(s[j - 1]) then BackBlanks(blank, s, lo, j - 1) else j
  }

  /** The text with the characters `blank` accepts removed from both ends: empty
      exactly when the text is nothing but that whitespace, and otherwise
      neither starting nor ending with it. */
  function StripBlanks(blank: char -> bool, s: string): (r: string)
    ensures |r| <= |s|
    ensures r == [] <==> AllBlank(blank, s)
    ensures r == [] || (!blank(r[0]) && !blank(r[|r| - 1]))
  {
    var lo := SkipBlanks(blank, s, 0);
    var hi := BackBlanks(blank, s, lo, |s|);
    s[lo..hi]
  }

  predicate AllSpace(s: string)
  {
    AllBlank(IsSpace, s)
  }

  /** `s.strip()`: empty exactly when `s` is nothing but whitespace, and
      otherwise neither starting nor ending with whitespace. */
  function Strip(s: string): (r: string)
    ensures |r| <= |s|
    ensures r == [] <==> AllSpace(s)
    ensures r == [] || (!IsSpace(r[0]) && !IsSpace(r[|r| - 1]))
  {
    StripBlanks(IsSpace, s)
  }

  /** A strip keeps the text between the leading and the trailing whitespace. */
  lemma StripBounds(blank: char -> bool, s: string) returns (lo: nat, hi: nat)
    ensures lo <= hi <= |s| && StripBlanks(blank, s) == s[lo..hi]
    ensures forall j :: 0 <= j < lo ==> blank(s[j])
    ensures forall j :: hi <= j < |s| ==> blank(s[j])
  {
    lo := SkipBlanks(blank, s, 0);
    hi := BackBlanks(blank, s, lo, |s|);
  }

  lemma {:induction false} StripBetween(blank: char -> bool, s: string, lo: nat, hi: nat)
    requires lo == SkipBlanks(blank, s, 0) && hi == BackBlanks(blank, s, lo, |s|)
    ensures StripBlanks(blank, s) == s[lo..hi]
  {
  }

  /** Any index with the properties `SkipBlanks` promises is the one it returns. */
  lemma SkipUnique(blank: char -> bool, s: string, i: nat, k: nat)
    requires i <= k <= |s|
    requires forall j :: i <= j < k ==> blank(s[j])
    requires k == |s| || !blank(s[k])
    ensures SkipBlanks(blank, s, i) == k
  {
  }

  lemma BackUnique(blank: char -> bool, s: string, lo: nat, j: nat, k: nat)
    requires lo <= k <= j <= |s|
    requires forall m :: k <= m < j ==> blank(s[m])
    requires k == lo || !blank(s[k - 1])
    ensures BackBlanks(blank, s, lo, j) == k
  {
  }

  /** Leading whitespace shifts where the text proper starts, and only that. */
  lemma {:induction false} SkipPadded(blank: char -> bool, a: string, s: string, b: string)
    requires AllBlank(blank, a) && SkipBlanks(blank, s, 0) < |s|
    ensures SkipBlanks(blank, a + s + b, 0) == |a| + SkipBlanks(blank, s, 0)
  {
    var t := a + s + b;
    var lo := SkipBlanks(blank, s, 0);
    forall j | 0 <= j < |a| + lo ensures blank(t[j]) {
      if j < |a| { assert t[j] == a[j]; } else { assert t[j] == s[j - |a|]; }
    }
    assert t[|a| + lo] == s[lo];
    SkipUnique(blank, t, 0, |a| + lo);
  }

  /** Trailing whitespace is dropped back to where the text proper ends. */
  lemma {:induction false} BackPadded(blank: char -> bool, a: string, s: string, b: string, lo: nat)
    requires AllBlank(blank, b) && lo < |s| && !blank(s[lo])
    ensures BackBlanks(blank, a + s + b, |a| + lo, |a + s + b|) == |a| + BackBlanks(blank, s, lo, |s|)
  {
    var t := a + s + b;
    var hi := BackBlanks(blank, s, lo, |s|);
    forall m | |a| + hi <= m < |t| ensures blank(t[m]) {
      if m < |a| + |s| { assert t[m] == s[m - |a|]; } else { assert t[m] == b[m - |a| - |s|]; }
    }
    assert hi > lo;
    assert t[|a| + hi - 1] == s[hi - 1];
    BackUnique(blank, t, |a| + lo, |t|, |a| + hi);
  }

  /** A text of whitespace alone, padded with whitespace, strips to nothing. */
  lemma {:induction false} AllBlankPadded(blank: char -> bool, a: string, s: string, b: string)
    requires AllBlank(blank, a) && AllBlank(blank, s) && AllBlank(blank, b)
    ensures StripBlanks(blank, a + s + b) == [] && StripBlanks(blank, s) == []
  {
    var t := a + s + b;
    forall j | 0 <= j < |t| ensures blank(t[j]) {
      if j < |a| { assert t[j] == a[j]; }
      else if j < |a| + |s| { assert t[j] == s[j - |a|]; }
      else { assert t[j] == b[j - |a| - |s|]; }
    }
    assert AllBlank(blank, t);
  }

  lemma {:induction false} SliceOfPadded(a: string, s: string, b: string, lo: nat, hi: nat)
    requires lo <= hi <= |s|
    ensures (a + s + b)[|a| + lo..|a| + hi] == s[lo..hi]
  {
    var t := a + s + b;
    forall j | 0 <= j < hi - lo ensures t[|a| + lo..|a| + hi][j] == s[lo..hi][j] {
      assert t[|a| + lo + j] == s[lo + j];
    }
  }

  /** Where the text proper starts and ends, in `s` and in `s` padded. */
  lemma {:induction false} PaddedBounds(blank: char -> bool, a: string, s: string, b: string) returns (lo: nat, hi: nat)
    requires AllBlank(blank, a) && AllBlank(blank, b) && SkipBlanks(blank, s, 0) < |s|
    ensures lo <= hi <= |s| && |a| + hi <= |a + s + b|
    ensures SkipBlanks(blank, a + s + b, 0) == |a| + lo
    ensures BackBlanks(blank, a + s + b, |a| + lo, |a + s + b|) == |a| + hi
    ensures SkipBlanks(blank, s, 0) == lo && BackBlanks(blank, s, lo, |s|) == hi
    ensures (a + s + b)[|a| + lo..|a| + hi] == s[lo..hi]
  {
    lo := SkipBlanks(blank, s, 0);
    hi := BackBlanks(blank, s, lo, |s|);
    SkipPadded(blank, a, s, b);
    BackPadded(blank, a, s, b, lo);
    SliceOfPadded(a, s, b, lo, hi);
  }

  /** Whitespace around a text that is more than whitespace is dropped. */
  lemma {:induction false} TextPadded(blank: char -> bool, a: string, s: string, b: string)
    requires AllBlank(blank, a) && AllBlank(blank, b) && SkipBlanks(blank, s, 0) < |s|
    ensures StripBlanks(blank, a + s + b) == StripBlanks(blank, s)
  {
    var lo, hi := PaddedBounds(blank, a, s, b);
    SameStrip(blank, a + s + b, s, |a|, lo, hi);
  }

  /** Two texts whose stripped parts are the same slice strip alike. */
  lemma {:induction false} SameStrip(blank: char -> bool, t: string, s: string, k: nat, lo: nat, hi: nat)
    requires lo <= hi <= |s| && k + hi <= |t|
    requires SkipBlanks(blank, t, 0) == k + lo && BackBlanks(blank, t, k + lo, |t|) == k + hi
    requires SkipBlanks(blank, s, 0) == lo && BackBlanks(blank, s, lo, |s|) == hi
    requires t[k + lo..k + hi] == s[lo..hi]
    ensures StripBlanks(blank, t) == StripBlanks(blank, s)
  {
    StripBetween(blank, t, k + lo, k + hi);
    StripBetween(blank, s, lo, hi);
  }

  /** Whitespace around a text does not change what a strip makes of it. */
  lemma {:induction false} StripSpaces(blank: char -> bool, a: string, s: string, b: string)
    requires AllBlank(blank, a) && AllBlank(blank, b)
    ensures StripBlanks(blank, a + s + b) == StripBlanks(blank, s)
  {
    if SkipBlanks(blank, s, 0) == |s| {
      AllBlankPadded(blank, a, s, b);
    } else {
      TextPadded(blank, a, s, b);
    }
  }

  /** A strip removes whitespace only: any other character occurs in the
      stripped text exactly when it occurs in the text. */
  lemma StripKeeps(blank: char -> bool, s: string, c: char)
    requires !blank(c)
    ensures c in StripBlanks(blank, s) <==> c in s
  {
    var lo, hi := StripBounds(blank, s);
    if c in s {
      var i :| 0 <= i < |s| && s[i] == c;
      assert StripBlanks(blank, s)[i - lo] == c;
    }
  }

  /** A text without surrounding whitespace is its own strip. */
  lemma StripStripped(blank: char -> bool, s: string)
    requires s == [] || (!blank(s[0]) && !blank(s[|s| - 1]))
    ensures StripBlanks(blank, s) == s
  {
    if s != [] {
      SkipUnique(blank, s, 0, 0);
      BackUnique(blank, s, 0, |s|, |s|);
    }
  }

  /** A strip is idempotent: a stripped text is stripped again to itself. */
  lemma StripTwice(blank: char -> bool, s: string)
    ensures StripBlanks(blank, StripBlanks(blank, s)) == StripBlanks(blank, s)
  {
    StripStripped(blank, StripBlanks(blank, s));
  }
}
