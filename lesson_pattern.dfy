/**
  The pattern of the lesson-link pass, `\b([Ll]esson)\s+(\d+)\b`, matched
  with ASCII character classes, and the conversions `int` and `str` the pass
  applies to the lesson number.
 */
module LessonPattern {
  import opened Wrappers
  import opened Text

  // ---------------------------------------------------------------------------
  // Character classes (ASCII)
  // ---------------------------------------------------------------------------

  /** `\w` */
  predicate IsWordChar(c: char)
  {
    'a' <= c <= 'z' || 'A' <= c <= 'Z' || '0' <= c <= '9' || c == '_'
  }

  /** `\s`: space, tab, line feed, vertical tab, form feed, carriage return */
  predicate IsSpace(c: char)
  {
    c == ' ' || c == '\t' || c == '\n' || c == 11 as char || c == 12 as char || c == '\r'
  }

  /** `\d` */
  predicate IsDigit(c: char)
  {
    '0' <= c <= '9'
  }

  predicate AllSpaces(s: string)
  {
    forall k | 0 <= k < |s| :: IsSpace(s[k])
  }

  predicate AllDigits(s: string)
  {
    forall k | 0 <= k < |s| :: IsDigit(s[k])
  }

  // ---------------------------------------------------------------------------
  // `int(n)` and `str(n)`
  // ---------------------------------------------------------------------------

  function DigitValue(c: char): nat
    requires IsDigit(c)
  {
    c as int - '0' as int
  }

  function DigitChar(d: nat): (c: char)
    requires d < 10
    ensures IsDigit(c) && DigitValue(c) == d
  {
    ('0' as int + d) as char
  }

  /** `int(ds)` for a string of decimal digits */
  function DigitsValue(ds: string): nat
    requires AllDigits(ds)
    decreases |ds|
  {
    if ds == [] then 0
    else DigitsValue(ds[..|ds| - 1]) * 10 + DigitValue(ds[|ds| - 1])
  }

  /** `str(n)`: the decimal numeral of `n` */
  function NatToDecimal(n: nat): (r: string)
    ensures r != [] && AllDigits(r)
    decreases n
  {
    if n < 10 then [DigitChar(n)]
    else NatToDecimal(n / 10) + [DigitChar(n % 10)]
  }

  /** The numeral without its leading zeros, keeping one digit. */
  function StripLeadingZeros(ds: string): (r: string)
    ensures |r| <= |ds| && r == ds[|ds| - |r|..]
    ensures ds != [] ==> r != [] && (|r| == 1 || r[0] != '0')
    decreases |ds|
  {
    if |ds| > 1 && ds[0] == '0' then StripLeadingZeros(ds[1..]) else ds
  }

  /** Reading back a numeral gives the number. */
  lemma {:induction false} DecimalRoundTrip(n: nat)
    ensures DigitsValue(NatToDecimal(n)) == n
    decreases n
  {
    if n >= 10 {
      DecimalRoundTrip(n / 10);
      var r := NatToDecimal(n);
      assert r[..|r| - 1] == NatToDecimal(n / 10);
    }
  }

  /** A leading zero does not change the value. */
  lemma {:induction false} LeadingZeroValue(ds: string)
    requires AllDigits(ds)
    ensures AllDigits(['0'] + ds) && DigitsValue(['0'] + ds) == DigitsValue(ds)
    decreases |ds|
  {
    var z := ['0'] + ds;
    if ds != [] {
      LeadingZeroValue(ds[..|ds| - 1]);
      assert z[..|z| - 1] == ['0'] + ds[..|ds| - 1];
    } else {
      assert z[..|z| - 1] == [];
    }
  }

  /** A numeral that does not start with zero has a positive value. */
  lemma {:induction false} NonZeroLeadValue(ds: string)
    requires AllDigits(ds) && ds != [] && ds[0] != '0'
    ensures DigitsValue(ds) >= 1
    ensures |ds| > 1 ==> DigitsValue(ds) >= 10
    decreases |ds|
  {
    if |ds| > 1 {
      NonZeroLeadValue(ds[..|ds| - 1]);
    } else {
      assert ds[..0] == [];
    }
  }

  /** A numeral without leading zeros is the `str` of its value. */
  lemma {:induction false} CanonicalNumeral(ds: string)
    requires AllDigits(ds) && ds != [] && (|ds| == 1 || ds[0] != '0')
    ensures NatToDecimal(DigitsValue(ds)) == ds
    decreases |ds|
  {
    var init := ds[..|ds| - 1];
    if |ds| == 1 {
      assert init == [];
      assert DigitChar(DigitValue(ds[0])) == ds[0];
    } else {
      CanonicalNumeral(init);
      NonZeroLeadValue(ds);
      var v, d := DigitsValue(init), DigitValue(ds[|ds| - 1]);
      assert DigitsValue(ds) == v * 10 + d;
      assert (v * 10 + d) / 10 == v && (v * 10 + d) % 10 == d;
      assert DigitChar(d) == ds[|ds| - 1];
      assert init + [ds[|ds| - 1]] == ds;
    }
  }

  /** Stripping leading zeros does not change the value. */
  lemma {:induction false} StripLeadingZerosValue(ds: string)
    requires AllDigits(ds)
    ensures AllDigits(StripLeadingZeros(ds))
    ensures DigitsValue(StripLeadingZeros(ds)) == DigitsValue(ds)
    decreases |ds|
  {
    if |ds| > 1 && ds[0] == '0' {
      StripLeadingZerosValue(ds[1..]);
      LeadingZeroValue(ds[1..]);
      assert ['0'] + ds[1..] == ds;
    }
  }

  /** `str(int(ds))` is `ds` without its leading zeros ("0" for all zeros). */
  lemma DecimalOfDigits(ds: string)
    requires AllDigits(ds) && ds != []
    ensures NatToDecimal(DigitsValue(ds)) == StripLeadingZeros(ds)
  {
    StripLeadingZerosValue(ds);
    CanonicalNumeral(StripLeadingZeros(ds));
  }

  // ---------------------------------------------------------------------------
  // The pattern `\b([Ll]esson)\s+(\d+)\b`
  // ---------------------------------------------------------------------------

  /** `\b` in front of a word character at `i` */
  predicate BoundaryBefore(s: string, i: nat)
    requires i <= |s|
  {
    i == 0 || !IsWordChar(s[i - 1])
  }

  /** `\b` after a word character that ends at `j` */
  predicate BoundaryAfter(s: string, j: nat)
    requires j <= |s|
  {
    j == |s| || !IsWordChar(s[j])
  }

  /** `[Ll]esson` starts at `i`. */
  predicate IsLessonWord(s: string, i: nat)
    requires i + 6 <= |s|
  {
    && (s[i] == 'L' || s[i] == 'l')
    && s[i + 1] == 'e' && s[i + 2] == 's' && s[i + 3] == 's' && s[i + 4] == 'o' && s[i + 5] == 'n'
  }

  /** The end of the run of whitespace that starts at `i`. */
  function SpacesEnd(s: string, i: nat): (j: nat)
    requires i <= |s|
    ensures i <= j <= |s|
    decreases |s| - i
  {
    if i < |s| && IsSpace(s[i]) then SpacesEnd(s, i + 1) else i
  }

  lemma {:induction false} SpacesEndIsRun(s: string, i: nat)
    requires i <= |s|
    ensures AllSpaces(s[i..SpacesEnd(s, i)])
    ensures SpacesEnd(s, i) == |s| || !IsSpace(s[SpacesEnd(s, i)])
    decreases |s| - i
  {
    if i < |s| && IsSpace(s[i]) {
      SpacesEndIsRun(s, i + 1);
      var j := SpacesEnd(s, i);
      assert s[i..j] == [s[i]] + s[i + 1..j];
    }
  }

  /** The end of the run of digits that starts at `i`. */
  function DigitsEnd(s: string, i: nat): (j: nat)
    requires i <= |s|
    ensures i <= j <= |s|
    decreases |s| - i
  {
    if i < |s| && IsDigit(s[i]) then DigitsEnd(s, i + 1) else i
  }

  lemma {:induction false} DigitsEndIsRun(s: string, i: nat)
    requires i <= |s|
    ensures AllDigits(s[i..DigitsEnd(s, i)])
    ensures DigitsEnd(s, i) == |s| || !IsDigit(s[DigitsEnd(s, i)])
    decreases |s| - i
  {
    if i < |s| && IsDigit(s[i]) {
      DigitsEndIsRun(s, i + 1);
      var j := DigitsEnd(s, i);
      assert s[i..j] == [s[i]] + s[i + 1..j];
    }
  }

  /** A run of whitespace followed by a non-space ends where `SpacesEnd` says. */
  lemma {:induction false} SpacesEndAt(s: string, i: nat, k: nat)
    requires i <= k <= |s| && AllSpaces(s[i..k]) && (k == |s| || !IsSpace(s[k]))
    ensures SpacesEnd(s, i) == k
    decreases k - i
  {
    if i < k {
      assert s[i..k][0] == s[i];
      assert s[i + 1..k] == s[i..k][1..];
      SpacesEndAt(s, i + 1, k);
    }
  }

  /** A run of digits followed by a non-digit ends where `DigitsEnd` says. */
  lemma {:induction false} DigitsEndAt(s: string, i: nat, k: nat)
    requires i <= k <= |s| && AllDigits(s[i..k]) && (k == |s| || !IsDigit(s[k]))
    ensures DigitsEnd(s, i) == k
    decreases k - i
  {
    if i < k {
      assert s[i..k][0] == s[i];
      assert s[i + 1..k] == s[i..k][1..];
      DigitsEndAt(s, i + 1, k);
    }
  }

  /** A numeral: a string of decimal digits. */
  type Numeral = ds: string | AllDigits(ds)

  /** A match: where it starts and ends, its text, the word as written, and the digits. */
  datatype Mention = Mention(start: nat, end: nat, text: string, word: string, digits: Numeral)

  /**
    The match of the pattern that starts at `i`, if any. The runs of
    whitespace and digits are taken whole: a shorter run is followed by a
    whitespace character or a digit, which rules out both the next part of
    the pattern and the closing `\b`, so backtracking finds nothing else.
   */
  function MentionAt(s: string, i: nat): (r: Option<Mention>)
    requires i <= |s|
    ensures r.Some? ==> r.value.start == i && i + 6 < r.value.end <= |s| && r.value.text == s[i..r.value.end]
    ensures r.Some? ==> r.value.word == s[i..i + 6] && IsLessonWord(s, i) && r.value.digits != []
  {
    if !BoundaryBefore(s, i) || i + 6 > |s| then None
    else if !IsLessonWord(s, i) then None
    else
      var w := SpacesEnd(s, i + 6);
      if w == i + 6 then None
      else
        var d := DigitsEnd(s, w);
        if d == w || !BoundaryAfter(s, d) then None
        else
          DigitsEndIsRun(s, w);
          Some(Mention(i, d, s[i..d], s[i..i + 6], s[w..d]))
  }

  /**
    `s[i..j]` is a match of `\b[Ll]esson\s+\d+\b`: the word, then one or more
    whitespace characters up to `k`, then one or more digits up to `j`, with a
    word boundary on both sides.
   */
  ghost predicate IsMention(s: string, i: nat, j: nat)
  {
    && i + 6 < j <= |s|
    && BoundaryBefore(s, i)
    && IsLessonWord(s, i)
    && (exists k | i + 6 < k < j :: AllSpaces(s[i + 6..k]) && AllDigits(s[k..j]))
    && BoundaryAfter(s, j)
  }

  /** Every match `MentionAt` reports is a match of the pattern. */
  lemma MentionAtIsMention(s: string, i: nat)
    requires i <= |s| && MentionAt(s, i).Some?
    ensures IsMention(s, i, MentionAt(s, i).value.end)
  {
    var w := SpacesEnd(s, i + 6);
    SpacesEndIsRun(s, i + 6);
    DigitsEndIsRun(s, w);
  }

  /** Every match of the pattern at `i` is the one `MentionAt` reports. */
  lemma MentionIsMentionAt(s: string, i: nat, j: nat)
    requires IsMention(s, i, j)
    ensures MentionAt(s, i).Some? && MentionAt(s, i).value.end == j
  {
    var k :| i + 6 < k < j && AllSpaces(s[i + 6..k]) && AllDigits(s[k..j]);
    assert s[k..j][0] == s[k];
    SpacesEndAt(s, i + 6, k);
    DigitsEndAt(s, k, j);
  }

  // ---------------------------------------------------------------------------
  // Substitution
  // ---------------------------------------------------------------------------

  /**
    `find` is a matcher for `s`: whatever it reports at `k` starts at `k`,
    ends after `k` within `s`, and carries the text it covers.
   */
  ghost predicate IsMatcherFor(s: string, find: nat -> Option<Mention>)
  {
    forall k: nat :: find(k).Some? ==>
      && find(k).value.start == k
      && k < find(k).value.end <= |s|
      && find(k).value.text == s[k..find(k).value.end]
  }

  /** The lesson pattern as a matcher for `s`. */
  function LessonMatcher(s: string): (find: nat -> Option<Mention>)
    ensures IsMatcherFor(s, find)
    ensures forall k: nat | k <= |s| :: find(k) == MentionAt(s, k)
  {
    (k: nat) => if k <= |s| then MentionAt(s, k) else None
  }

  /**
    `re.sub(pattern, repl, s[i..])` with the pattern given by its matcher:
    each match is replaced by `repl` of it and scanning resumes after it;
    elsewhere one character is copied.
   */
  function Sub(s: string, i: nat, find: nat -> Option<Mention>, repl: Mention -> string): string
    requires i <= |s| && IsMatcherFor(s, find)
    decreases |s| - i
  {
    if i == |s| then []
    else match find(i)
      case Some(m) => repl(m) + Sub(s, m.end, find, repl)
      case None => [s[i]] + Sub(s, i + 1, find, repl)
  }

  /** Text without a match is copied unchanged. */
  lemma {:induction false} SubCopiesUnmatched(
    s: string, i: nat, j: nat, find: nat -> Option<Mention>, repl: Mention -> string)
    requires i <= j <= |s| && IsMatcherFor(s, find)
    requires forall k: nat | i <= k < j :: find(k).None?
    ensures Sub(s, i, find, repl) == s[i..j] + Sub(s, j, find, repl)
    decreases j - i
  {
    if i < j {
      var rest := Sub(s, j, find, repl);
      calc {
        Sub(s, i, find, repl);
      ==  // no match starts at i
        [s[i]] + Sub(s, i + 1, find, repl);
      == { SubCopiesUnmatched(s, i + 1, j, find, repl); }
        [s[i]] + (s[i + 1..j] + rest);
      == { AppendAssoc([s[i]], s[i + 1..j], rest); }
        ([s[i]] + s[i + 1..j]) + rest;
      == { assert [s[i]] + s[i + 1..j] == s[i..j]; }
        s[i..j] + rest;
      }
    }
  }

  /** When every match is replaced by its own text, the text is unchanged. */
  lemma {:induction false} SubKeepsText(s: string, i: nat, find: nat -> Option<Mention>, repl: Mention -> string)
    requires i <= |s| && IsMatcherFor(s, find)
    requires forall k: nat | i <= k <= |s| && find(k).Some? :: repl(find(k).value) == find(k).value.text
    ensures Sub(s, i, find, repl) == s[i..]
    decreases |s| - i
  {
    if i < |s| {
      match find(i)
      case Some(m) =>
        SubKeepsText(s, m.end, find, repl);
        assert s[i..] == s[i..m.end] + s[m.end..];
      case None =>
        SubKeepsText(s, i + 1, find, repl);
        assert s[i..] == [s[i]] + s[i + 1..];
    }
  }
}
