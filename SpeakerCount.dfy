/**
 * The answer to "Anzahl der Sprecher oder Bereich": either one count `n`,
 * giving the clusterer the bound (n, n), or a range `low-high`. Anything
 * Python's `int()` rejects, or a range that does not split into exactly two
 * parts, makes the script skip the file.
 */
module SpeakerCount {

  import opened Wrappers
  import opened Text

  /** The `min_clusters` / `max_clusters` pair handed to the clusterer. */
  datatype SpeakerBounds = SpeakerBounds(minSpeakers: int, maxSpeakers: int)

  /**
   * The digits of an integer literal as `int()` accepts them: decimal
   * digits, where a single underscore may sit between two digits.
   */
  predicate IsDigitGroups(b: string)
  {
    |b| > 0 && IsDigit(b[0]) && IsDigit(b[|b| - 1]) &&
    (forall i :: 0 <= i < |b| ==> IsDigit(b[i]) || b[i] == '_') &&
    NoDoubleUnderscore(b)
  }

  /** No two underscores stand next to each other. */
  predicate NoDoubleUnderscore(b: string)
  {
    |b| < 2 || ((b[0] != '_' || b[1] != '_') && NoDoubleUnderscore(b[1..]))
  }

  lemma {:induction false} NoUnderscoreNoDouble(b: string)
    requires '_' !in b
    ensures NoDoubleUnderscore(b)
  {
    if |b| >= 2 {
      assert b[1..][0] == b[1];
      assert '_' !in b[1..] by {
        assert forall c :: c in b[1..] ==> c in b;
      }
      NoUnderscoreNoDouble(b[1..]);
    }
  }

  /** The digits of a literal with its grouping underscores dropped. */
  function RemoveUnderscores(b: string): (r: string)
    ensures '_' !in b ==> r == b
  {
    if b == [] then []
    else
      var rest := RemoveUnderscores(b[1..]);
      assert [b[0]] + b[1..] == b;
      (if b[0] == '_' then [] else [b[0]]) + rest
  }

  /** Of digits and underscores, only digits are left. */
  lemma {:induction false} RemoveUnderscoresDigits(b: string)
    requires forall i :: 0 <= i < |b| ==> IsDigit(b[i]) || b[i] == '_'
    ensures AllDigits(RemoveUnderscores(b))
  {
    if b != [] {
      RemoveUnderscoresDigits(b[1..]);
    }
  }

  /**
   * CPython's default cap on the number of digits `int()` converts from a
   * string (`sys.get_int_max_str_digits()`, 3.11 onwards). Underscores do
   * not count; leading zeros do.
   */
  const MaxStrDigits: nat := 4300

  /** The unsigned part of an integer literal, if it is one. */
  function ParseDigits(b: string): Option<nat>
  {
    if IsDigitGroups(b) && |RemoveUnderscores(b)| <= MaxStrDigits then
      RemoveUnderscoresDigits(b);
      Some(DigitsValue(RemoveUnderscores(b)))
    else None
  }

  /**
   * Python's `int(s)` on a string: surrounding whitespace is ignored (the
   * `IntBlanks` set), one optional sign is allowed, the rest must be digit
   * groups of at most `MaxStrDigits` digits. `None` stands for the
   * `ValueError` it raises otherwise.
   */
  function ParseInt(s: string): (r: Option<int>)
    ensures r.Some? && '-' !in s ==> r.value >= 0
  {
    if '-' !in s then StripKeepsOut(s, IntBlanks, '-'); ParseSigned(Strip(s, IntBlanks))
    else ParseSigned(Strip(s, IntBlanks))
  }

  /** `int()` once the whitespace is stripped: an optional sign, then digit groups. */
  function ParseSigned(t: string): (r: Option<int>)
    ensures r.Some? && '-' !in t ==> r.value >= 0
  {
    if |t| > 0 && t[0] == '-' then
      match ParseDigits(t[1..])
      case Some(n) => Some(-(n as int))
      case None => None
    else if |t| > 0 && t[0] == '+' then
      match ParseDigits(t[1..])
      case Some(n) => Some(n as int)
      case None => None
    else
      match ParseDigits(t)
      case Some(n) => Some(n as int)
      case None => None
  }

  /**
   * The script's reading of the user's answer: with a `-` in it, exactly
   * two integers around it; without, one integer `n` meaning (n, n).
   * `None` means the file is skipped. `low <= high` is not checked.
   */
  function ParseSpeakerCount(input: string): (r: Option<SpeakerBounds>)
    ensures r.Some? ==> 0 <= r.value.minSpeakers && 0 <= r.value.maxSpeakers
    ensures r.Some? && '-' !in input ==> r.value.minSpeakers == r.value.maxSpeakers
  {
    if '-' in input then
      var parts := Split(input, '-');
      if |parts| == 2 && ParseInt(parts[0]).Some? && ParseInt(parts[1]).Some? then
        Some(SpeakerBounds(ParseInt(parts[0]).value, ParseInt(parts[1]).value))
      else None
    else
      match ParseInt(input)
      case Some(n) => Some(SpeakerBounds(n, n))
      case None => None
  }

  lemma DigitsHaveNoUnderscore(digits: string)
    requires AllDigits(digits)
    ensures '_' !in digits
  {
    forall i | 0 <= i < |digits| ensures digits[i] != '_' {
      assert IsDigit(digits[i]);
    }
  }

  /** A plain run of at most `MaxStrDigits` decimal digits is read as its value. */
  lemma ParseDigitsOfDigits(digits: string)
    requires |digits| > 0 && AllDigits(digits) && |digits| <= MaxStrDigits
    ensures ParseDigits(digits) == Some(DigitsValue(digits))
  {
    DigitsHaveNoUnderscore(digits);
    NoUnderscoreNoDouble(digits);
    assert IsDigitGroups(digits);
  }

  /** Every group is a non-empty run of decimal digits. */
  predicate DigitRuns(groups: seq<string>)
  {
    forall k :: 0 <= k < |groups| ==> |groups[k]| > 0 && AllDigits(groups[k])
  }

  lemma {:induction false} RemoveUnderscoresAppend(a: string, b: string)
    ensures RemoveUnderscores(a + b) == RemoveUnderscores(a) + RemoveUnderscores(b)
  {
    if a != [] {
      var head: string := if a[0] == '_' then [] else [a[0]];
      calc {
        RemoveUnderscores(a + b);
      == { RemoveUnderscoresHead(a, b); }
        head + RemoveUnderscores(a[1..] + b);
      == { RemoveUnderscoresAppend(a[1..], b); }
        head + (RemoveUnderscores(a[1..]) + RemoveUnderscores(b));
      ==
        RemoveUnderscores(a) + RemoveUnderscores(b);
      }
    } else {
      assert a + b == b;
    }
  }

  /** One step of `RemoveUnderscores` on a concatenation whose left part is non-empty. */
  lemma RemoveUnderscoresHead(a: string, b: string)
    requires a != []
    ensures RemoveUnderscores(a + b) == (if a[0] == '_' then [] else [a[0]]) + RemoveUnderscores(a[1..] + b)
  {
    assert (a + b)[0] == a[0];
    assert (a + b)[1..] == a[1..] + b;
  }

  lemma {:induction false} RemoveUnderscoresJoin(groups: seq<string>)
    requires |groups| >= 1
    requires forall k :: 0 <= k < |groups| ==> '_' !in groups[k]
    ensures RemoveUnderscores(Join(groups, '_')) == Concat(groups)
  {
    if |groups| == 1 {
      assert Concat(groups) == groups[0] + Concat([]);
      assert groups[0] + [] == groups[0];
    } else {
      var g := groups[0];
      var rest := Join(groups[1..], '_');
      RemoveUnderscoresJoin(groups[1..]);
      RemoveUnderscoresAppend(g + ['_'], rest);
      RemoveUnderscoresAppend(g, ['_']);
      assert RemoveUnderscores(['_']) == [];
      assert g + [] == g;
    }
  }

  lemma {:induction false} NoDoubleUnderscoreAppend(a: string, b: string)
    requires NoDoubleUnderscore(a) && NoDoubleUnderscore(b)
    requires a != [] && b != [] ==> a[|a| - 1] != '_' || b[0] != '_'
    ensures NoDoubleUnderscore(a + b)
  {
    if a == [] {
      assert a + b == b;
    } else {
      var ab := a + b;
      assert ab[1..] == a[1..] + b;
      if |a| >= 2 {
        assert ab[0] == a[0] && ab[1] == a[1];
        assert a[1..][|a| - 2] == a[|a| - 1];
        NoDoubleUnderscoreAppend(a[1..], b);
      } else {
        assert a[1..] + b == b;
      }
    }
  }

  /** Digit runs joined with single underscores form a literal `int()` accepts the shape of. */
  lemma {:induction false} JoinIsDigitGroups(groups: seq<string>)
    requires |groups| >= 1 && DigitRuns(groups)
    ensures IsDigitGroups(Join(groups, '_'))
  {
    var g := groups[0];
    DigitsHaveNoUnderscore(g);
    NoUnderscoreNoDouble(g);
    if |groups| > 1 {
      var rest := Join(groups[1..], '_');
      JoinIsDigitGroups(groups[1..]);
      var gu := g + ['_'];
      NoDoubleUnderscoreAppend(g, ['_']);
      NoDoubleUnderscoreAppend(gu, rest);
      var j := gu + rest;
      assert j == Join(groups, '_');
      forall i | 0 <= i < |j| ensures IsDigit(j[i]) || j[i] == '_' {
        if i < |g| {
          assert j[i] == g[i];
        } else if i > |g| {
          assert j[i] == rest[i - |g| - 1];
        }
      }
      assert j[0] == g[0];
      assert j[|j| - 1] == rest[|rest| - 1];
    }
  }

  /**
   * `int()` accepts digit runs joined by single underscores, up to
   * `MaxStrDigits` digits in all, and reads them as the number the runs
   * spell together.
   */
  lemma ParseDigitsOfGroups(groups: seq<string>)
    requires |groups| >= 1 && DigitRuns(groups)
    ensures ParseDigits(Join(groups, '_')) ==
      if |Concat(groups)| <= MaxStrDigits then Some(DigitsValue(Concat(groups))) else None
  {
    JoinIsDigitGroups(groups);
    forall k | 0 <= k < |groups| ensures '_' !in groups[k] {
      DigitsHaveNoUnderscore(groups[k]);
    }
    RemoveUnderscoresJoin(groups);
  }

  lemma {:induction false} SplitDigitRuns(b: string)
    requires forall i :: 0 <= i < |b| ==> IsDigit(b[i]) || b[i] == '_'
    requires NoDoubleUnderscore(b)
    requires b == [] || IsDigit(b[|b| - 1])
    ensures var parts := Split(b, '_');
      AllDigits(parts[0]) && (b != [] && IsDigit(b[0]) ==> |parts[0]| > 0) &&
      forall k :: 1 <= k < |parts| ==> |parts[k]| > 0 && AllDigits(parts[k])
  {
    if b != [] {
      var tail := b[1..];
      assert forall i :: 0 <= i < |tail| ==> tail[i] == b[i + 1];
      SplitDigitRuns(tail);
      var rest := Split(tail, '_');
      var parts := Split(b, '_');
      if b[0] == '_' {
        assert b[1] != '_';
        assert tail[0] == b[1];
        SplitAtSeparator(b, '_');
      } else {
        SplitAtOther(b, '_');
        assert forall k :: 1 <= k < |parts| ==> parts[k] == rest[k];
      }
    }
  }

  /** Only such joins are accepted: the groups between the underscores are digit runs. */
  lemma ParseDigitsOnlyGroups(b: string)
    requires ParseDigits(b).Some?
    ensures DigitRuns(Split(b, '_'))
    ensures ParseDigits(b) == Some(DigitsValue(Concat(Split(b, '_'))))
    ensures |Concat(Split(b, '_'))| <= MaxStrDigits
  {
    SplitDigitRuns(b);
    var parts := Split(b, '_');
    assert DigitRuns(parts);
    ParseDigitsOfGroups(parts);
  }

  lemma ParseSignedUnsigned(t: string)
    requires |t| > 0 && AllDigits(t) && |t| <= MaxStrDigits
    ensures ParseSigned(t) == Some(DigitsValue(t))
  {
    assert IsDigit(t[0]);
    ParseDigitsOfDigits(t);
  }

  /** A `-` in front of an accepted literal negates its value. */
  lemma ParseSignedNegative(b: string, v: nat)
    requires ParseDigits(b) == Some(v)
    ensures ParseSigned("-" + b) == Some(-(v as int))
  {
    var t := "-" + b;
    assert t[0] == '-' && t[1..] == b;
  }

  /** A `+` in front of an accepted literal keeps its value. */
  lemma ParseSignedPositive(b: string, v: nat)
    requires ParseDigits(b) == Some(v)
    ensures ParseSigned("+" + b) == Some(v as int)
  {
    var t := "+" + b;
    assert t[0] == '+' && t[1..] == b;
  }

  /** A digit run with an optional sign in front reads as its value, negated for `-`. */
  lemma ParseSignedDigitString(sign: string, digits: string)
    requires sign == "" || sign == "+" || sign == "-"
    requires |digits| > 0 && AllDigits(digits) && |digits| <= MaxStrDigits
    ensures ParseSigned(sign + digits) == Some(if sign == "-" then -(DigitsValue(digits) as int) else DigitsValue(digits))
  {
    var v := DigitsValue(digits);
    ParseDigitsOfDigits(digits);
    assert IsDigit(digits[0]);
    if sign == "" {
      UnsignedDigitString(sign, digits, v);
    } else if sign == "-" {
      NegativeDigitString(sign, digits, v);
    } else {
      PositiveDigitString(sign, digits, v);
    }
  }

  /** Without a sign, an accepted digit literal keeps its value. */
  lemma UnsignedDigitString(sign: string, digits: string, v: nat)
    requires sign == "" && |digits| > 0 && IsDigit(digits[0]) && ParseDigits(digits) == Some(v)
    ensures ParseSigned(sign + digits) == Some(v as int)
  {
    assert sign + digits == digits;
  }

  /** The `-` branch of `ParseSignedDigitString`. */
  lemma NegativeDigitString(sign: string, digits: string, v: nat)
    requires sign == "-" && ParseDigits(digits) == Some(v)
    ensures ParseSigned(sign + digits) == Some(-(v as int))
  {
    ParseSignedNegative(digits, v);
  }

  /** The `+` branch of `ParseSignedDigitString`. */
  lemma PositiveDigitString(sign: string, digits: string, v: nat)
    requires sign == "+" && ParseDigits(digits) == Some(v)
    ensures ParseSigned(sign + digits) == Some(v as int)
  {
    ParseSignedPositive(digits, v);
  }

  /** `int()` ignores padding from its own whitespace set around the literal. */
  lemma ParseIntPaddedLiteral(p: string, t: string, q: string)
    requires AllBlank(IntBlanks, p) && AllBlank(IntBlanks, q)
    requires t == [] || (!IsBlank(IntBlanks, t[0]) && !IsBlank(IntBlanks, t[|t| - 1]))
    ensures ParseInt(p + t + q) == ParseSigned(t)
  {
    StripPadded(IntBlanks, p, t, q);
  }

  /**
   * `int()` reads any run of at most `MaxStrDigits` decimal digits,
   * leading zeros included, with whitespace padding and an optional sign
   * in front of it.
   */
  lemma ParseIntPadded(p: string, sign: string, digits: string, q: string)
    requires AllBlank(IntBlanks, p) && AllBlank(IntBlanks, q)
    requires sign == "" || sign == "+" || sign == "-"
    requires |digits| > 0 && AllDigits(digits) && |digits| <= MaxStrDigits
    ensures ParseInt(p + (sign + digits) + q) == Some(if sign == "-" then -(DigitsValue(digits) as int) else DigitsValue(digits))
  {
    SignedDigitsUnpadded(sign, digits);
    ParseIntPaddedLiteral(p, sign + digits, q);
    ParseSignedDigitString(sign, digits);
  }

  lemma SignedDigitsUnpadded(sign: string, digits: string)
    requires sign == "" || sign == "+" || sign == "-"
    requires |digits| > 0 && AllDigits(digits)
    ensures var t := sign + digits; |t| > 0 && !IsBlank(IntBlanks, t[0]) && !IsBlank(IntBlanks, t[|t| - 1])
  {
    var t := sign + digits;
    assert t[|t| - 1] == digits[|digits| - 1];
    DigitIsNotSpace(digits[|digits| - 1]);
    assert t[0] == if sign == "" then digits[0] else sign[0];
    DigitIsNotSpace(t[0]);
  }

  /** An unpadded, unsigned run of digits reads as its value. */
  lemma ParseIntDigits(digits: string)
    requires |digits| > 0 && AllDigits(digits) && |digits| <= MaxStrDigits
    ensures ParseInt(digits) == Some(DigitsValue(digits))
  {
    DigitIsNotSpace(digits[0]);
    DigitIsNotSpace(digits[|digits| - 1]);
    ParseIntUnpadded(digits);
    ParseSignedUnsigned(digits);
  }

  /** Without padding, `int()` reads the literal as it stands. */
  lemma ParseIntUnpadded(t: string)
    requires t == [] || (!IsBlank(IntBlanks, t[0]) && !IsBlank(IntBlanks, t[|t| - 1]))
    ensures ParseInt(t) == ParseSigned(t)
  {
    var e: string := [];
    assert e + t + e == t;
    ParseIntPaddedLiteral(e, t, e);
  }

  lemma NatToStringHasNoDash(n: nat)
    ensures '-' !in NatToString(n)
  {
    var d := NatToString(n);
    forall i | 0 <= i < |d| ensures d[i] != '-' {
      assert IsDigit(d[i]);
    }
  }

  /**
   * An input with one `-` yields the bound exactly when both sides are
   * integers, and then the bound is those two integers in that order.
   */
  lemma ParseRange(low: string, high: string)
    requires '-' !in low && '-' !in high
    ensures ParseSpeakerCount(low + "-" + high) ==
      if ParseInt(low).Some? && ParseInt(high).Some?
      then Some(SpeakerBounds(ParseInt(low).value, ParseInt(high).value))
      else None
  {
    var input := low + "-" + high;
    assert '-' in input by {
      assert input[|low|] == '-';
    }
    assert Split(input, '-') == [low, high] by {
      assert input == low + ['-'] + high;
      SplitAtFirst(low, high, '-');
      SplitNoSeparator(high, '-');
    }
  }

  /** An input with two or more `-` never yields a bound. */
  lemma ParseRejectsSeveralDashes(input: string)
    requires Count(input, '-') >= 2
    ensures ParseSpeakerCount(input) == None
  {
    CountPositive(input, '-');
  }

  /** `int()` reads back what `str()` renders for a natural number. */
  lemma ParseIntNatToString(n: nat)
    requires |NatToString(n)| <= MaxStrDigits
    ensures ParseInt(NatToString(n)) == Some(n)
  {
    NatToStringValue(n);
    ParseIntDigits(NatToString(n));
  }

  /**
   * A single count reads back as the exact bound (n, n). Longer renderings
   * are refused by `str()` itself, under the same cap.
   */
  lemma ParseCountRoundTrip(n: nat)
    requires |NatToString(n)| <= MaxStrDigits
    ensures ParseSpeakerCount(NatToString(n)) == Some(SpeakerBounds(n, n))
  {
    NatToStringHasNoDash(n);
    ParseIntNatToString(n);
  }

  /**
   * A range reads back as (low, high) for every pair of counts, including
   * the ones with low > high, which the script does not reject.
   */
  lemma ParseRangeRoundTrip(low: nat, high: nat)
    requires |NatToString(low)| <= MaxStrDigits && |NatToString(high)| <= MaxStrDigits
    ensures ParseSpeakerCount(NatToString(low) + "-" + NatToString(high)) == Some(SpeakerBounds(low, high))
  {
    NatToStringHasNoDash(low);
    NatToStringHasNoDash(high);
    ParseIntNatToString(low);
    ParseIntNatToString(high);
    ParseRange(NatToString(low), NatToString(high));
  }

  /** "2-5" is the range (2, 5); "5-2" is accepted as it stands. */
  lemma ParseRangeExamples()
    ensures ParseSpeakerCount("2-5") == Some(SpeakerBounds(2, 5))
    ensures ParseSpeakerCount("5-2") == Some(SpeakerBounds(5, 2))
  {
    assert NatToString(2) == "2" && NatToString(5) == "5";
    assert NatToString(2) + "-" + NatToString(5) == "2-5";
    assert NatToString(5) + "-" + NatToString(2) == "5-2";
    ParseRangeRoundTrip(2, 5);
    ParseRangeRoundTrip(5, 2);
  }

  /** " 3 " is the exact count 3: `int()` ignores the padding. */
  lemma ParsePaddedExample()
    ensures ParseSpeakerCount(" 3 ") == Some(SpeakerBounds(3, 3))
  {
    assert " " + "3" + " " == " 3 ";
    assert DigitsValue("3") == 3;
    ParseCountPadded(" ", "3", " ");
  }

  /** A padded, unsigned literal is the exact count it spells. */
  lemma ParseCountPadded(p: string, digits: string, q: string)
    requires AllBlank(IntBlanks, p) && AllBlank(IntBlanks, q)
    requires |digits| > 0 && AllDigits(digits) && |digits| <= MaxStrDigits
    ensures ParseSpeakerCount(p + digits + q) == Some(SpeakerBounds(DigitsValue(digits), DigitsValue(digits)))
  {
    assert [] + digits == digits;
    ParseIntPadded(p, [], digits, q);
    NoDashInPadded(p, digits, q);
    ParseSingleCount(p + digits + q, Some(DigitsValue(digits)));
  }

  /** Padding and digits hold no `-`, so the answer is read as a single count. */
  lemma NoDashInPadded(p: string, digits: string, q: string)
    requires AllBlank(IntBlanks, p) && AllBlank(IntBlanks, q) && AllDigits(digits)
    ensures '-' !in p + digits + q
  {
    var s := p + digits + q;
    forall i | 0 <= i < |s| ensures s[i] != '-' {
      if i < |p| {
        assert s[i] == p[i];
      } else if i < |p| + |digits| {
        assert s[i] == digits[i - |p|];
        assert IsDigit(digits[i - |p|]);
      } else {
        assert s[i] == q[i - |p| - |digits|];
      }
    }
  }

  /**
   * Without a `-`, the answer is the exact count `int()` reads from it, or
   * the file is skipped when `int()` fails.
   */
  lemma ParseSingleCount(s: string, r: Option<int>)
    requires '-' !in s && ParseInt(s) == r
    ensures ParseSpeakerCount(s) == if r.Some? then Some(SpeakerBounds(r.value, r.value)) else None
  {
  }

  /** A word such as "abc" skips the file: it is not an integer. */
  lemma ParseRejectsWord(w: string)
    requires |w| > 0 && forall i :: 0 <= i < |w| ==> 'a' <= w[i] <= 'z'
    ensures ParseSpeakerCount(w) == None
  {
    WordIsNotInt(w);
    assert '-' !in w by {
      forall i | 0 <= i < |w| ensures w[i] != '-' { }
    }
    ParseSingleCount(w, None);
  }

  /** `int()` refuses a word of lowercase letters. */
  lemma WordIsNotInt(w: string)
    requires |w| > 0 && forall i :: 0 <= i < |w| ==> 'a' <= w[i] <= 'z'
    ensures ParseInt(w) == None
  {
    assert 'a' <= w[0] <= 'z' && 'a' <= w[|w| - 1] <= 'z';
    ParseIntUnpadded(w);
    ParseSignedBadStart(w);
  }

  /** A literal that starts with neither a sign nor a digit is not an integer. */
  lemma ParseSignedBadStart(t: string)
    requires |t| > 0 && !IsDigit(t[0]) && t[0] != '-' && t[0] != '+'
    ensures ParseSigned(t) == None
  {
    assert !IsDigitGroups(t);
  }

  /**
   * `int()` does not take the ASCII separators U+001C..U+001F as padding,
   * although `strip()` does: a count behind one of them, such as "\x1c3",
   * skips the file.
   */
  lemma ParseRejectsSeparatorPadding(c: char, digits: string)
    requires '\U{1C}' <= c <= '\U{1F}'
    requires |digits| > 0 && AllDigits(digits)
    ensures Strip([c] + digits, StrBlanks) == digits
    ensures ParseSpeakerCount([c] + digits) == None
  {
    SeparatorIsStripped(c, digits);
    SeparatorIsNotInt(c, digits);
    SeparatorHasNoDash(c, digits);
    ParseSingleCount([c] + digits, None);
  }

  /** `strip()` removes a separator in front of a literal. */
  lemma SeparatorIsStripped(c: char, digits: string)
    requires '\U{1C}' <= c <= '\U{1F}'
    requires |digits| > 0 && AllDigits(digits)
    ensures Strip([c] + digits, StrBlanks) == digits
  {
    var e: string := [];
    assert [c] + digits + e == [c] + digits;
    assert AllBlank(StrBlanks, [c]);
    DigitIsNotSpace(digits[0]);
    DigitIsNotSpace(digits[|digits| - 1]);
    StripPadded(StrBlanks, [c], digits, e);
  }

  /** `int()` rejects a literal with a separator in front of it. */
  lemma SeparatorIsNotInt(c: char, digits: string)
    requires '\U{1C}' <= c <= '\U{1F}'
    requires |digits| > 0 && AllDigits(digits)
    ensures ParseInt([c] + digits) == None
  {
    var t := [c] + digits;
    assert t[0] == c && t[|t| - 1] == digits[|digits| - 1];
    DigitIsNotSpace(digits[|digits| - 1]);
    ParseIntUnpadded(t);
    ParseSignedBadStart(t);
  }

  /** A separator followed by digits holds no `-`. */
  lemma SeparatorHasNoDash(c: char, digits: string)
    requires '\U{1C}' <= c <= '\U{1F}'
    requires AllDigits(digits)
    ensures '-' !in [c] + digits
  {
    var t := [c] + digits;
    forall i | 0 <= i < |t| ensures t[i] != '-' {
      if i > 0 {
        assert t[i] == digits[i - 1];
        assert IsDigit(digits[i - 1]);
      }
    }
  }

  /** A count with more than `MaxStrDigits` digits skips the file. */
  lemma ParseRejectsTooManyDigits(digits: string)
    requires AllDigits(digits) && |digits| > MaxStrDigits
    ensures ParseSpeakerCount(digits) == None
  {
    assert ParseSigned(digits) == None by {
      DigitsHaveNoUnderscore(digits);
      assert digits[0] != '-' && digits[0] != '+';
    }
    DigitIsNotSpace(digits[0]);
    DigitIsNotSpace(digits[|digits| - 1]);
    ParseIntUnpadded(digits);
    assert '-' !in digits;
    ParseSingleCount(digits, None);
  }

  /** The empty answer is not an integer. */
  lemma ParseIntEmpty()
    ensures ParseInt([]) == None
  {
    var e: string := [];
    assert e + e + e == e;
    ParseIntPaddedLiteral(e, e, e);
  }

  /**
   * A negative count such as "-3" skips the file: the dash splits it into
   * "" and the digits, and "" is not an integer.
   */
  lemma ParseRejectsNegative(digits: string)
    requires '-' !in digits
    ensures ParseSpeakerCount("-" + digits) == None
  {
    var e: string := [];
    assert e + "-" + digits == "-" + digits;
    ParseRange(e, digits);
    ParseIntEmpty();
  }
}
