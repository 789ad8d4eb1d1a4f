/**
 * Character and string helpers with Python's meaning: `str.isspace`,
 * `str.strip()`, `str.split(sep)` and the decimal rendering of `str(int)`.
 */
module Text {

  /** Python's `str.isspace` for one character. */
  predicate IsSpace(c: char)
  {
    ('\t' <= c <= '\r') || ('\U{1C}' <= c <= '\U{1F}') || c == ' ' ||
    c == '\U{85}' || c == '\U{A0}' || c == '\U{1680}' ||
    ('\U{2000}' <= c <= '\U{200A}') || c == '\U{2028}' || c == '\U{2029}' ||
    c == '\U{202F}' || c == '\U{205F}' || c == '\U{3000}'
  }

  /**
   * The whitespace a strip removes. `str.strip()` removes every `isspace`
   * character. `int()` keeps ASCII characters as they are and skips only
   * " \t\n\v\f\r" among them, so the ASCII separators U+001C..U+001F are
   * not padding there; non-ASCII `isspace` characters are.
   */
  datatype Blanks = StrBlanks | IntBlanks

  predicate IsBlank(w: Blanks, c: char)
  {
    IsSpace(c) && !(w.IntBlanks? && '\U{1C}' <= c <= '\U{1F}')
  }

  /** Digits and signs are never whitespace, so they end any strip; used where a literal meets its padding. */
  lemma DigitIsNotSpace(c: char)
    requires IsDigit(c) || c == '+' || c == '-'
    ensures !IsSpace(c)
  {
  }

  predicate AllBlank(w: Blanks, s: string)
  {
    forall i :: 0 <= i < |s| ==> IsBlank(w, s[i])
  }

  predicate IsDigit(c: char)
  {
    '0' <= c <= '9'
  }

  predicate AllDigits(s: string)
  {
    forall i :: 0 <= i < |s| ==> IsDigit(s[i])
  }

  /** A blank in front of blanks keeps the text blank; `StripLeft` uses it for the removed prefix. */
  lemma AllBlankCons(w: Blanks, c: char, t: string)
    requires IsBlank(w, c) && AllBlank(w, t)
    ensures AllBlank(w, [c] + t)
  {
    var s := [c] + t;
    forall i | 0 <= i < |s| ensures IsBlank(w, s[i]) {
      if i > 0 {
        assert s[i] == t[i - 1];
      }
    }
  }

  /** Drops the leading whitespace: what is left is a suffix of `s`. */
  function StripLeft(s: string, w: Blanks): (r: string)
    ensures |r| <= |s| && r == s[|s| - |r|..]
    ensures AllBlank(w, s[..|s| - |r|])
    ensures r == [] || !IsBlank(w, r[0])
  {
    if |s| > 0 && IsBlank(w, s[0]) then
      var r := StripLeft(s[1..], w);
      assert s[..|s| - |r|] == [s[0]] + s[1..][..|s| - 1 - |r|];
      AllBlankCons(w, s[0], s[1..][..|s| - 1 - |r|]);
      assert s[1..][|s| - 1 - |r|..] == s[|s| - |r|..];
      r
    else s
  }

  /** Drops the trailing whitespace: what is left is a prefix of `s`. */
  function StripRight(s: string, w: Blanks): (r: string)
    ensures |r| <= |s| && r == s[..|r|]
    ensures AllBlank(w, s[|r|..])
    ensures r == [] || !IsBlank(w, r[|r| - 1])
  {
    if |s| > 0 && IsBlank(w, s[|s| - 1]) then
      var r := StripRight(s[..|s| - 1], w);
      assert s[|r|..] == s[..|s| - 1][|r|..] + [s[|s| - 1]];
      r
    else s
  }

  /** Python's `str.strip()` with no argument for `StrBlanks`; `int()`'s own trimming for `IntBlanks`. */
  function Strip(s: string, w: Blanks): (r: string)
    ensures r == [] || (!IsBlank(w, r[0]) && !IsBlank(w, r[|r| - 1]))
  {
    var l := StripLeft(s, w);
    var r := StripRight(l, w);
    assert r != [] ==> r[0] == l[0];
    r
  }

  /** Stripping only removes characters: one absent before is absent after. */
  lemma StripKeepsOut(s: string, w: Blanks, c: char)
    requires c !in s
    ensures c !in Strip(s, w)
  {
    var l := StripLeft(s, w);
    var r := StripRight(l, w);
    assert l == s[|s| - |l|..];
    assert r == l[..|r|];
  }

  lemma {:induction false} StripLeftPadded(w: Blanks, p: string, t: string)
    requires AllBlank(w, p)
    requires t == [] || !IsBlank(w, t[0])
    ensures StripLeft(p + t, w) == t
  {
    if p == [] {
      assert p + t == t;
    } else {
      assert (p + t)[0] == p[0];
      assert (p + t)[1..] == p[1..] + t;
      StripLeftPadded(w, p[1..], t);
    }
  }

  lemma {:induction false} StripRightPadded(w: Blanks, t: string, q: string)
    requires AllBlank(w, q)
    requires t == [] || !IsBlank(w, t[|t| - 1])
    ensures StripRight(t + q, w) == t
  {
    if q == [] {
      assert t + q == t;
    } else {
      var q' := q[..|q| - 1];
      assert (t + q)[|t + q| - 1] == q[|q| - 1];
      assert (t + q)[..|t + q| - 1] == t + q';
      StripRightPadded(w, t, q');
    }
  }

  /**
   * Stripping removes exactly the surrounding whitespace: padding a string
   * that has no whitespace at either end and stripping gives it back.
   */
  lemma StripPadded(w: Blanks, p: string, t: string, q: string)
    requires AllBlank(w, p) && AllBlank(w, q)
    requires t == [] || (!IsBlank(w, t[0]) && !IsBlank(w, t[|t| - 1]))
    ensures Strip(p + t + q, w) == t
  {
    assert p + t + q == p + (t + q);
    if t == [] {
      assert t + q == q;
      StripLeftPadded(w, p + q, []);
      assert p + q + [] == p + q;
    } else {
      assert (t + q)[0] == t[0];
      StripLeftPadded(w, p, t + q);
      StripRightPadded(w, t, q);
    }
  }

  /** Stripping is idempotent. */
  lemma StripIdempotent(s: string, w: Blanks)
    ensures Strip(Strip(s, w), w) == Strip(s, w)
  {
    var t := Strip(s, w);
    StripPadded(w, [], t, []);
    assert [] + t + [] == t;
  }

  /** Number of occurrences of `c` in `s`. */
  function Count(s: string, c: char): nat
  {
    if s == [] then 0 else (if s[0] == c then 1 else 0) + Count(s[1..], c)
  }

  lemma {:induction false} CountPositive(s: string, c: char)
    requires Count(s, c) > 0
    ensures c in s
  {
    if s[0] != c {
      CountPositive(s[1..], c);
    }
  }

  lemma {:induction false} CountAppend(a: string, b: string, c: char)
    ensures Count(a + b, c) == Count(a, c) + Count(b, c)
  {
    if a != [] {
      CountAppend(a[1..], b, c);
      assert (a + b)[1..] == a[1..] + b;
    } else {
      assert a + b == b;
    }
  }

  lemma {:induction false} CountPresent(s: string, c: char)
    requires c in s
    ensures Count(s, c) > 0
  {
    if s[0] != c {
      assert c in s[1..];
      CountPresent(s[1..], c);
    }
  }

  /** The inverse of `Split`: the parts glued back with the separator. */
  function Join(parts: seq<string>, sep: char): string
    requires |parts| >= 1
  {
    if |parts| == 1 then parts[0] else parts[0] + [sep] + Join(parts[1..], sep)
  }

  /** The parts glued together with nothing between them. */
  function Concat(parts: seq<string>): (r: string)
    ensures (forall k :: 0 <= k < |parts| ==> AllDigits(parts[k])) ==> AllDigits(r)
  {
    if parts == [] then [] else parts[0] + Concat(parts[1..])
  }

  /**
   * Python's `s.split(sep)` for a one-character separator: one more part
   * than there are separators, no part holds the separator, and joining
   * the parts gives `s` back.
   */
  function Split(s: string, sep: char): (parts: seq<string>)
    ensures |parts| == Count(s, sep) + 1
    ensures forall k :: 0 <= k < |parts| ==> sep !in parts[k]
    ensures Join(parts, sep) == s
  {
    if s == [] then [""]
    else
      var rest := Split(s[1..], sep);
      if s[0] == sep then
        assert [sep] + s[1..] == s;
        [""] + rest
      else
        var parts := [[s[0]] + rest[0]] + rest[1..];
        assert parts[1..] == rest[1..];
        assert forall k :: 1 <= k < |parts| ==> parts[k] == rest[k];
        assert |rest| > 1 ==> Join(rest, sep) == rest[0] + [sep] + Join(rest[1..], sep);
        assert [s[0]] + s[1..] == s;
        parts
  }

  /** A leading separator closes an empty first part. */
  lemma SplitAtSeparator(s: string, sep: char)
    requires s != [] && s[0] == sep
    ensures Split(s, sep) == [""] + Split(s[1..], sep)
  {
  }

  /** Any other leading character opens the first part. */
  lemma SplitAtOther(s: string, sep: char)
    requires s != [] && s[0] != sep
    ensures var rest := Split(s[1..], sep);
      Split(s, sep) == [[s[0]] + rest[0]] + rest[1..]
  {
  }

  lemma {:induction false} SplitNoSeparator(a: string, sep: char)
    requires sep !in a
    ensures Split(a, sep) == [a]
  {
    if a != [] {
      SplitNoSeparator(a[1..], sep);
      assert [a[0]] + a[1..] == a;
    }
  }

  lemma {:induction false} SplitAtFirst(a: string, b: string, sep: char)
    requires sep !in a
    ensures Split(a + [sep] + b, sep) == [a] + Split(b, sep)
  {
    var s := a + [sep] + b;
    if a == [] {
      assert s[1..] == b;
    } else {
      assert s[0] == a[0];
      assert s[1..] == a[1..] + [sep] + b;
      SplitAtFirst(a[1..], b, sep);
      assert [a[0]] + a[1..] == a;
    }
  }

  /** Splitting the join of separator-free parts gives the parts back. */
  lemma {:induction false} SplitJoin(parts: seq<string>, sep: char)
    requires |parts| >= 1
    requires forall k :: 0 <= k < |parts| ==> sep !in parts[k]
    ensures Split(Join(parts, sep), sep) == parts
  {
    if |parts| == 1 {
      SplitNoSeparator(parts[0], sep);
    } else {
      SplitJoin(parts[1..], sep);
      SplitAtFirst(parts[0], Join(parts[1..], sep), sep);
      assert [parts[0]] + parts[1..] == parts;
    }
  }

  function DigitChar(d: nat): (c: char)
    requires d < 10
    ensures IsDigit(c)
  {
    (48 + d) as char
  }

  function DigitValue(c: char): (d: nat)
    requires IsDigit(c)
    ensures d < 10 && DigitChar(d) == c
  {
    c as int - 48
  }

  /** The value of a string of decimal digits, most significant first. */
  function DigitsValue(s: string): nat
    requires AllDigits(s)
  {
    if s == [] then 0 else DigitsValue(s[..|s| - 1]) * 10 + DigitValue(s[|s| - 1])
  }

  /** Python's `str(n)` for a natural number. */
  function NatToString(n: nat): (r: string)
    ensures |r| >= 1 && AllDigits(r)
  {
    if n < 10 then [DigitChar(n)] else NatToString(n / 10) + [DigitChar(n % 10)]
  }

  /** Python's `str(i)`, as used by an f-string. */
  function IntToString(i: int): (r: string)
    ensures |r| >= 1 && (r[0] == '-' <==> i < 0)
    ensures i >= 0 ==> AllDigits(r) && DigitsValue(r) == i
    ensures i < 0 ==> |r| >= 2 && AllDigits(r[1..]) && DigitsValue(r[1..]) == -i
  {
    if i < 0 then
      var d := NatToString(-i);
      NatToStringValue(-i);
      assert ("-" + d)[1..] == d;
      "-" + d
    else
      NatToStringValue(i);
      NatToString(i)
  }

  /** Reading back a rendered number gives the number. */
  lemma {:induction false} NatToStringValue(n: nat)
    ensures DigitsValue(NatToString(n)) == n
  {
    var r := NatToString(n);
    if n >= 10 {
      NatToStringValue(n / 10);
      assert r[..|r| - 1] == NatToString(n / 10);
    }
  }
}
