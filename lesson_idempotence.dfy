/**
  A second lesson-link pass over the output of the first changes nothing,
  as long as no lesson link contains whitespace: every mention the first
  pass rewrote now follows the `[` of its own link, and every mention it
  kept is still inside link text or still has no link.
 */
module LessonIdempotence {
  import opened Wrappers
  import opened Text
  import opened LessonPattern
  import opened LessonLinks
  import opened SubstitutionWalk

  predicate NoSpaces(x: string)
  {
    forall i | 0 <= i < |x| :: !IsSpace(x[i])
  }

  /** No lesson link of any course contains whitespace. */
  ghost predicate LinksWithoutSpaces(lookup: (string, nat) -> Option<string>)
  {
    forall c: string, n: nat :: lookup(c, n).Some? ==> NoSpaces(lookup(c, n).value)
  }

  /** The text a rewritten match becomes: `[<word> <num>](<link>)`. */
  function LinkForm(w: string, num: string, link: string): (f: string)
    ensures |f| == |w| + |num| + |link| + 5
  {
    "[" + w + " " + num + "](" + link + ")"
  }

  // ---------------------------------------------------------------------------
  // The characters of a match
  // ---------------------------------------------------------------------------

  /**
    A match holds no `[`, and after its first character neither `L` nor `l`:
    the rest of the word is `esson`, then come whitespace and digits.
   */
  lemma MentionChars(s: string, i: nat, b: nat)
    requires i <= |s| && MentionAt(s, i).Some? && i <= b < MentionAt(s, i).value.end
    ensures s[b] != '['
    ensures i < b ==> s[b] != 'L' && s[b] != 'l'
  {
    MentionAtIsMention(s, i);
    PatternChars(s, i, MentionAt(s, i).value.end, b);
  }

  lemma PatternChars(s: string, i: nat, e: nat, b: nat)
    requires IsMention(s, i, e) && i <= b < e
    ensures s[b] != '['
    ensures i < b ==> s[b] != 'L' && s[b] != 'l'
  {
    var k :| i + 6 < k < e && AllSpaces(s[i + 6..k]) && AllDigits(s[k..e]);
    if b < i + 6 {
      assert b == i || b == i + 1 || b == i + 2 || b == i + 3 || b == i + 4 || b == i + 5;
    } else if b < k {
      assert s[i + 6..k][b - (i + 6)] == s[b];
    } else {
      assert s[k..e][b - k] == s[b];
    }
  }

  /** No match starts strictly inside another one. */
  lemma NoMatchInsideMatch(s: string, i: nat, b: nat)
    requires i <= |s| && MentionAt(s, i).Some? && i < b < MentionAt(s, i).value.end
    ensures MentionAt(s, b).None?
  {
    MentionChars(s, i, b);
  }

  /** The word, a run of whitespace up to `k` and a run of digits up to `j`, bounded, are the match at `i`. */
  lemma MentionDigits(x: string, i: nat, k: nat, j: nat)
    requires i + 6 < k < j <= |x| && BoundaryBefore(x, i) && IsLessonWord(x, i)
    requires AllSpaces(x[i + 6..k]) && AllDigits(x[k..j]) && BoundaryAfter(x, j)
    ensures MentionAt(x, i) == Some(Mention(i, j, x[i..j], x[i..i + 6], x[k..j]))
  {
    assert x[k..j][0] == x[k];
    SpacesEndAt(x, i + 6, k);
    DigitsEndAt(x, k, j);
  }

  /** The word of a match is `Lesson` or `lesson`. */
  lemma MentionWord(s: string, i: nat)
    requires i <= |s| && MentionAt(s, i).Some?
    ensures |MentionAt(s, i).value.word| == 6 && IsLessonWord(MentionAt(s, i).value.word, 0)
  {
    var w := MentionAt(s, i).value.word;
    assert forall c | 0 <= c < 6 :: w[c] == s[i + c];
  }

  /** The digits of a match, with the end of its whitespace run. */
  lemma MentionRuns(x: string, i: nat) returns (k: nat)
    requires i <= |x| && MentionAt(x, i).Some?
    ensures i + 6 < k < MentionAt(x, i).value.end
    ensures AllSpaces(x[i + 6..k]) && AllDigits(x[k..MentionAt(x, i).value.end])
    ensures BoundaryBefore(x, i) && BoundaryAfter(x, MentionAt(x, i).value.end)
    ensures MentionAt(x, i).value.digits == x[k..MentionAt(x, i).value.end]
  {
    var e := MentionAt(x, i).value.end;
    MentionAtIsMention(x, i);
    k :| i + 6 < k < e && AllSpaces(x[i + 6..k]) && AllDigits(x[k..e]);
    MentionDigits(x, i, k, e);
  }

  // ---------------------------------------------------------------------------
  // Link text
  // ---------------------------------------------------------------------------

  /** The `[` that makes a position link text, and what lies between them. */
  lemma InsideWitness(x: string, k: nat) returns (p: nat)
    requires k <= |x| && InsideLinkText(x, k)
    ensures p < k <= p + LookBack && x[p] == '['
    ensures forall i | p < i < k :: x[i] != '['
    ensures !Contains(x[p..k], "](")
  {
    var prefix := LookBehind(x, k);
    var lo := if k >= LookBack then k - LookBack else 0;
    assert prefix == x[lo..k];
    var r := LastIndexOf(prefix, '[').value;
    p := lo + r;
    assert prefix[r..] == x[p..k];
    forall i | p < i < k ensures x[i] != '[' {
      assert x[i] == prefix[i - lo];
    }
  }

  /** A `[` at most 50 characters back, with no `[` and no `](` after it, makes link text. */
  lemma InsideFromWitness(x: string, k: nat, p: nat)
    requires k <= |x| && p < k <= p + LookBack && x[p] == '['
    requires forall i | p < i < k :: x[i] != '['
    requires !Contains(x[p..k], "](")
    ensures InsideLinkText(x, k)
  {
    var prefix := LookBehind(x, k);
    var lo := if k >= LookBack then k - LookBack else 0;
    assert prefix == x[lo..k];
    assert prefix[p - lo] == '[';
    assert forall i | p - lo < i < |prefix| :: prefix[i] == x[lo + i];
    var r := LastIndexOf(prefix, '[').value;
    assert r == p - lo;
    assert prefix[r..] == x[p..k];
  }

  /** Link text stays link text where its stretch from the `[` on is copied. */
  lemma InsideFromCopy(s: string, p: nat, j: nat, t: string, op: nat)
    requires j <= |s| && p < j <= p + LookBack && s[p] == '['
    requires forall i | p < i < j :: s[i] != '['
    requires !Contains(s[p..j], "](")
    requires op + (j - p) <= |t| && t[op..op + (j - p)] == s[p..j]
    ensures InsideLinkText(t, op + (j - p))
  {
    var o := op + (j - p);
    assert forall i | op <= i < o :: t[i] == s[p + (i - op)];
    InsideFromWitness(t, o, op);
  }

  /** A shorter look at the same `[` is link text as well. */
  lemma InsideCloser(x: string, k: nat, p: nat, k': nat)
    requires k <= |x| && p < k' < k <= p + LookBack && x[p] == '['
    requires forall i | p < i < k :: x[i] != '['
    requires !Contains(x[p..k], "](")
    ensures InsideLinkText(x, k')
  {
    assert x[p..k'] + x[k'..k] == x[p..k];
    if Contains(x[p..k'], "](") {
      assert [] + x[p..k'] + x[k'..k] == x[p..k];
      ContainsInContext([], x[p..k'], x[k'..k], "](");
    }
    InsideFromWitness(x, k', p);
  }

  // ---------------------------------------------------------------------------
  // A mention of the output that lies in a rewritten match
  // ---------------------------------------------------------------------------

  /** The six characters of `[Ll]esson` are word characters. */
  lemma LessonWordChars(x: string, k: nat)
    requires k + 6 <= |x| && IsLessonWord(x, k)
    ensures forall i | k <= i < k + 6 :: IsWordChar(x[i])
  {
    forall i | k <= i < k + 6 ensures IsWordChar(x[i]) {
      assert i == k || i == k + 1 || i == k + 2 || i == k + 3 || i == k + 4 || i == k + 5;
    }
  }

  /**
    Where `L`, `l` and whitespace can stand in `[<word> <num>](<link>)`: an
    `L` or `l` only right after the `[` or in the link, whitespace only
    after the word; the form ends with `)`.
   */
  lemma LinkFormChars(w: string, num: string, link: string, o: nat)
    requires |w| == 6 && IsLessonWord(w, 0) && AllDigits(num) && NoSpaces(link)
    requires o < |LinkForm(w, num, link)|
    ensures var f := LinkForm(w, num, link);
            && ((f[o] == 'L' || f[o] == 'l') ==> o == 1 || 10 + |num| <= o < |f| - 1)
            && (IsSpace(f[o]) ==> o == 7)
            && f[|f| - 1] == ')'
  {
    var f := LinkForm(w, num, link);
    var n := |num|;
    if o == 0 {
      assert f[o] == '[';
    } else if o < 7 {
      assert f[o] == w[o - 1];
      assert o == 1 || o == 2 || o == 3 || o == 4 || o == 5 || o == 6;
    } else if o == 7 {
      assert f[o] == ' ';
    } else if o < 8 + n {
      assert f[o] == num[o - 8];
    } else if o == 8 + n {
      assert f[o] == ']';
    } else if o == 9 + n {
      assert f[o] == '(';
    } else if o < |f| - 1 {
      assert f[o] == link[o - 10 - n];
    }
  }

  /** A mention inside `[<word> <num>](<link>)` can only be the word itself, right after the `[`. */
  lemma MentionInLinkForm(x: string, b: nat, w: string, num: string, link: string, k: nat)
    requires |w| == 6 && IsLessonWord(w, 0) && AllDigits(num) && NoSpaces(link)
    requires b + |LinkForm(w, num, link)| <= |x| && x[b..b + |LinkForm(w, num, link)|] == LinkForm(w, num, link)
    requires b <= k < b + |LinkForm(w, num, link)|
    requires k + 6 < |x| && IsLessonWord(x, k) && IsSpace(x[k + 6])
    ensures k == b + 1
  {
    var f := LinkForm(w, num, link);
    var o := k - b;
    LinkFormChars(w, num, link, o);
    assert x[k] == f[o];
    if k + 6 < b + |f| {
      LinkFormChars(w, num, link, o + 6);
      assert x[k + 6] == f[o + 6];
    } else {
      assert x[b + |f| - 1] == f[|f| - 1];
      LessonWordChars(x, k);
    }
  }

  // ---------------------------------------------------------------------------
  // The first pass, stated over its matcher and its replacement function
  // ---------------------------------------------------------------------------

  /** `find` reports exactly the matches of the lesson pattern in `s`. */
  ghost predicate IsLessonMatcher(s: string, find: nat -> Option<Mention>)
  {
    IsMatcherFor(s, find) && forall k: nat {:trigger MentionAt(s, k)} | k <= |s| :: find(k) == MentionAt(s, k)
  }

  /** Every match is kept as it is or becomes text that starts with `[`. */
  ghost predicate KeepsOrBrackets(repl: Mention -> string)
  {
    forall m: Mention :: repl(m) == m.text || (repl(m) != [] && repl(m)[0] == '[')
  }

  /** A match of `s` that is link text is kept as it is. */
  ghost predicate KeepsLinkText(s: string, repl: Mention -> string)
  {
    forall k: nat | k <= |s| && MentionAt(s, k).Some? && InsideLinkText(s, k) ::
      repl(MentionAt(s, k).value) == MentionAt(s, k).value.text
  }

  /** The replacement function of the pass has both properties. */
  lemma ReplacementShape(s: string, primary: string, lookup: (string, nat) -> Option<string>)
    ensures KeepsOrBrackets(ReplacementFor(s, primary, lookup))
    ensures KeepsLinkText(s, ReplacementFor(s, primary, lookup))
  {
    var repl := ReplacementFor(s, primary, lookup);
    forall m: Mention ensures repl(m) == m.text || (repl(m) != [] && repl(m)[0] == '[') {
      var n := DigitsValue(m.digits);
      if !InsideLinkText(s, m.start) && IsLink(lookup(primary, n)) {
        assert repl(m) == LinkForm(m.word, NatToDecimal(n), lookup(primary, n).value);
      }
    }
  }

  /** A rewritten match of the pass is `[<word> <n>](<link>)`, with the link the lookup gives. */
  lemma RewrittenShape(s: string, primary: string, lookup: (string, nat) -> Option<string>, m: Mention)
    requires Replacement(s, primary, lookup, m) != m.text
    ensures IsLink(lookup(primary, DigitsValue(m.digits)))
    ensures Replacement(s, primary, lookup, m)
         == LinkForm(m.word, NatToDecimal(DigitsValue(m.digits)), lookup(primary, DigitsValue(m.digits)).value)
  {
  }

  // ---------------------------------------------------------------------------
  // A mention of the output that lies in a rewritten match
  // ---------------------------------------------------------------------------

  /** A mention of the output that lies in a rewritten match follows the `[` of its link. */
  lemma RewrittenPieceBracket(s: string, find: nat -> Option<Mention>, repl: Mention -> string,
                              j: nat, k: nat, w: string, num: string, link: string, t: string, o: nat)
    requires IsMatcherFor(s, find) && Reaches(s, find, 0, j) && j < |s|
    requires |w| == 6 && IsLessonWord(w, 0) && AllDigits(num) && NoSpaces(link)
    requires find(j).Some? && repl(find(j).value) == LinkForm(w, num, link)
    requires t == Sub(s, 0, find, repl) && o == |Out(s, find, repl, 0, j)|
    requires o <= k < o + |Piece(s, find, repl, j)|
    requires k + 6 < |t| && IsLessonWord(t, k) && IsSpace(t[k + 6])
    ensures 0 < k && t[k - 1] == '['
  {
    var f := LinkForm(w, num, link);
    PieceInOutput(s, find, repl, j, t, o);
    assert Piece(s, find, repl, j) == f;
    MentionInLinkForm(t, o, w, num, link, k);
    assert t[k - 1] == f[0];
  }

  // ---------------------------------------------------------------------------
  // A mention of the output that starts a copied stretch
  // ---------------------------------------------------------------------------

  /** The word and the two runs of a mention of `t` carry over to a copy of their stretch in `s`. */
  lemma RunsInWindow(s: string, j: nat, t: string, k: nat, n: nat, kk: nat, e: nat)
    requires j + n <= |s| && k + n <= |t| && t[k..k + n] == s[j..j + n]
    requires k + 6 < kk < e <= k + n && IsLessonWord(t, k)
    requires AllSpaces(t[k + 6..kk]) && AllDigits(t[kk..e]) && BoundaryAfter(t, e)
    requires j + n == |s| || !IsWordChar(s[j + n - 1])
    ensures IsLessonWord(s, j)
    ensures AllSpaces(s[j + 6..j + (kk - k)]) && AllDigits(s[j + (kk - k)..j + (e - k)])
    ensures BoundaryAfter(s, j + (e - k))
    ensures s[j + (kk - k)..j + (e - k)] == t[kk..e]
  {
    var e', kk' := j + (e - k), j + (kk - k);
    assert forall i | k <= i < k + n :: t[i] == s[j + (i - k)];
    assert s[j + 6..kk'] == t[k + 6..kk];
    assert s[kk'..e'] == t[kk..e];
    assert t[kk..e][e - 1 - kk] == t[e - 1];
    assert e' < j + n ==> s[e'] == t[e];
  }

  /**
    A mention of `t` at `k` that lies in a stretch `t[k..k + n]` copied from
    `s[j..j + n]` is a mention of `s` at `j` with the same digits, when the
    stretch of `s` starts at a word boundary and ends at the end of `s` or
    after a character that is not a word character.
   */
  lemma MentionInWindow(s: string, j: nat, t: string, k: nat, n: nat)
    requires j + n <= |s| && k + n <= |t| && t[k..k + n] == s[j..j + n]
    requires MentionAt(t, k).Some? && MentionAt(t, k).value.end <= k + n
    requires BoundaryBefore(s, j)
    requires j + n == |s| || !IsWordChar(s[j + n - 1])
    ensures MentionAt(s, j).Some? && MentionAt(s, j).value.digits == MentionAt(t, k).value.digits
  {
    var e := MentionAt(t, k).value.end;
    var kk := MentionRuns(t, k);
    var e', kk' := j + (e - k), j + (kk - k);
    RunsInWindow(s, j, t, k, n, kk, e);
    MentionDigits(s, j, kk', e');
  }

  /**
    The matches from `j` on up to the first one rewritten are kept and end
    before it: the output copies that stretch of the input, then goes on
    with text that starts with `[`, or ends.
   */
  lemma KeptStretch(s: string, find: nat -> Option<Mention>, repl: Mention -> string, j: nat, t: string, o: nat)
    returns (q: nat)
    requires IsLessonMatcher(s, find) && KeepsOrBrackets(repl) && Reaches(s, find, 0, j) && j < |s|
    requires !(find(j).Some? && repl(find(j).value) != find(j).value.text)
    requires t == Sub(s, 0, find, repl) && o == |Out(s, find, repl, 0, j)|
    ensures j < q <= |s| && o + (q - j) <= |t| && t[o..o + (q - j)] == s[j..q]
    ensures q == |s| ==> o + (q - j) == |t|
    ensures q < |s| ==> o + (q - j) < |t| && t[o + (q - j)] == '[' && !IsWordChar(s[q - 1])
  {
    q := FirstRewrite(s, find, repl, j);
    forall k' | j <= k' < q && find(k').Some? ensures find(k').value.end <= q {
      if find(k').value.end > q {
        NoMatchInsideMatch(s, k', q);
      }
    }
    CopiedStretch(s, find, repl, j, q, t, o);
    if q < |s| {
      RewriteStartsBracket(s, find, repl, q);
      assert t[o + (q - j)..][0] == t[o + (q - j)];
    }
  }

  /** From a rewritten match on, the output starts with `[`, and no word character stands before the match. */
  lemma RewriteStartsBracket(s: string, find: nat -> Option<Mention>, repl: Mention -> string, q: nat)
    requires IsLessonMatcher(s, find) && KeepsOrBrackets(repl) && q < |s|
    requires find(q).Some? && repl(find(q).value) != find(q).value.text
    ensures Sub(s, q, find, repl) != [] && Sub(s, q, find, repl)[0] == '['
    ensures 0 < q ==> !IsWordChar(s[q - 1])
  {
    SubStep(s, find, repl, q);
    assert MentionAt(s, q).Some?;
    MentionAtIsMention(s, q);
  }

  /** The character in front of a reached position is the one in front of its image in the output. */
  lemma BoundaryCarries(s: string, find: nat -> Option<Mention>, repl: Mention -> string, j: nat, t: string, o: nat)
    requires IsLessonMatcher(s, find) && Reaches(s, find, 0, j) && 0 < j < |s| && IsWordChar(s[j])
    requires t == Sub(s, 0, find, repl) && o == |Out(s, find, repl, 0, j)|
    ensures 0 < o <= |t| && t[o - 1] == s[j - 1]
  {
    var a := CharBefore(s, find, repl, j);
    if find(a).Some? {
      MentionAtIsMention(s, a);
    }
  }

  /**
    A mention of `t` at `k` that starts a stretch `t[k..k + n]` copied from
    `s[j..j + n]`, where the stretch is followed by `[` in `t` and ends after
    a non-word character in `s`, or ends both texts, is a mention of `s` at
    `j` with the same digits, when `s[j..]` starts at a word boundary.
   */
  lemma MentionStartsStretch(s: string, j: nat, q: nat, t: string, k: nat)
    requires j < q <= |s| && k + (q - j) <= |t| && t[k..k + (q - j)] == s[j..q]
    requires q == |s| ==> k + (q - j) == |t|
    requires q < |s| ==> k + (q - j) < |t| && t[k + (q - j)] == '[' && !IsWordChar(s[q - 1])
    requires MentionAt(t, k).Some? && BoundaryBefore(s, j)
    ensures MentionAt(s, j).Some? && MentionAt(s, j).value.digits == MentionAt(t, k).value.digits
  {
    var n := q - j;
    if q < |s| && MentionAt(t, k).value.end > k + n {
      MentionChars(t, k, k + n);
    }
    assert s[j..j + n] == s[j..q];
    MentionInWindow(s, j, t, k, n);
  }

  /** A stretch copied from the input that starts with a mention starts with a word character. */
  lemma WindowHead(s: string, j: nat, q: nat, t: string, k: nat)
    requires j < q <= |s| && k + (q - j) <= |t| && t[k..k + (q - j)] == s[j..q]
    requires MentionAt(t, k).Some?
    ensures IsWordChar(s[j])
  {
    assert s[j] == t[k..k + (q - j)][0];
  }

  /**
    A mention at the start of a copied stretch of the output is a mention of
    the input with the same digits.
   */
  lemma KeptStart(s: string, find: nat -> Option<Mention>, repl: Mention -> string, j: nat, t: string, k: nat)
    requires IsLessonMatcher(s, find) && KeepsOrBrackets(repl) && Reaches(s, find, 0, j) && j < |s|
    requires !(find(j).Some? && repl(find(j).value) != find(j).value.text)
    requires t == Sub(s, 0, find, repl) && k == |Out(s, find, repl, 0, j)|
    requires k <= |t| && MentionAt(t, k).Some?
    ensures MentionAt(s, j).Some? && MentionAt(s, j).value.digits == MentionAt(t, k).value.digits
  {
    var q := KeptStretch(s, find, repl, j, t, k);
    var kk := MentionRuns(t, k);
    if 0 < j {
      WindowHead(s, j, q, t, k);
      BoundaryCarries(s, find, repl, j, t, k);
    }
    MentionStartsStretch(s, j, q, t, k);
  }

  /**
    Every match between the `[` that makes a match link text and that match
    is link text as well, so it is kept, and it ends before that match.
   */
  lemma KeptBeforeMatch(s: string, find: nat -> Option<Mention>, repl: Mention -> string, p: nat, j: nat)
    requires IsLessonMatcher(s, find) && KeepsLinkText(s, repl) && j <= |s| && MentionAt(s, j).Some?
    requires p < j <= p + LookBack && s[p] == '['
    requires forall i | p < i < j :: s[i] != '['
    requires !Contains(s[p..j], "](")
    ensures forall k: nat | p <= k < j && find(k).Some? ::
              repl(find(k).value) == find(k).value.text && find(k).value.end <= j
  {
    forall k: nat | p <= k < j && find(k).Some?
      ensures repl(find(k).value) == find(k).value.text && find(k).value.end <= j
    {
      assert MentionAt(s, k).Some?;
      InsideCloser(s, j, p, k);
      if find(k).value.end > j {
        NoMatchInsideMatch(s, k, j);
      }
    }
  }

  /** The `[` that makes a reached match link text is at a reached position, and the matches between are kept. */
  lemma ReachedWitness(s: string, find: nat -> Option<Mention>, repl: Mention -> string, j: nat) returns (p: nat)
    requires IsLessonMatcher(s, find) && KeepsLinkText(s, repl) && j < |s|
    requires MentionAt(s, j).Some? && InsideLinkText(s, j)
    ensures Reaches(s, find, 0, p) && p < j <= p + LookBack && s[p] == '['
    ensures forall i | p < i < j :: s[i] != '['
    ensures !Contains(s[p..j], "](")
    ensures forall k: nat | p <= k < j && find(k).Some? ::
              repl(find(k).value) == find(k).value.text && find(k).value.end <= j
  {
    p := InsideWitness(s, j);
    var a := ReachedOrInside(s, find, p);
    if !Reaches(s, find, 0, p) {
      MentionChars(s, a, p);
    }
    KeptBeforeMatch(s, find, repl, p, j);
  }

  /**
    In front of a reached match that is link text, the output copies the
    input back to the `[`, so the image of the match is link text too.
   */
  lemma InsideCarries(s: string, find: nat -> Option<Mention>, repl: Mention -> string, j: nat, t: string, o: nat)
    requires IsLessonMatcher(s, find) && KeepsLinkText(s, repl) && Reaches(s, find, 0, j) && j < |s|
    requires t == Sub(s, 0, find, repl) && o == |Out(s, find, repl, 0, j)|
    requires MentionAt(s, j).Some? && InsideLinkText(s, j)
    ensures o <= |t| && InsideLinkText(t, o)
  {
    var p := ReachedWitness(s, find, repl, j);
    CopiedToBracket(s, find, repl, p, j, t, o);
  }

  /** A reached `[` with no `](` after it, copied up to a reached position, is link text there in the output. */
  lemma CopiedToBracket(s: string, find: nat -> Option<Mention>, repl: Mention -> string, p: nat, j: nat, t: string, o: nat)
    requires IsMatcherFor(s, find) && Reaches(s, find, 0, p) && Reaches(s, find, 0, j) && j <= |s|
    requires p < j <= p + LookBack && s[p] == '['
    requires forall i | p < i < j :: s[i] != '['
    requires !Contains(s[p..j], "](")
    requires forall k: nat | p <= k < j && find(k).Some? ::
               repl(find(k).value) == find(k).value.text && find(k).value.end <= j
    requires t == Sub(s, 0, find, repl) && o == |Out(s, find, repl, 0, j)|
    ensures o <= |t| && InsideLinkText(t, o)
  {
    var op := |Out(s, find, repl, 0, p)|;
    CopiedStretch(s, find, repl, p, j, t, op);
    InsideFromCopy(s, p, j, t, op);
  }

  /** A mention of the output that lies in a copied character or a kept match starts it. */
  lemma KeptPieceOffset(s: string, find: nat -> Option<Mention>, repl: Mention -> string, j: nat, k: nat, t: string, o: nat)
    requires IsLessonMatcher(s, find) && Reaches(s, find, 0, j) && j < |s|
    requires !(find(j).Some? && repl(find(j).value) != find(j).value.text)
    requires t == Sub(s, 0, find, repl) && o == |Out(s, find, repl, 0, j)|
    requires o <= k < o + |Piece(s, find, repl, j)| && k <= |t| && MentionAt(t, k).Some?
    ensures k == o
  {
    PieceInOutput(s, find, repl, j, t, o);
    if k > o {
      assert MentionAt(s, j) == find(j);
      NoMentionInsideCopy(s, j, t, o, k);
    }
  }

  /** No mention of the output starts inside a copy of a mention of the input. */
  lemma NoMentionInsideCopy(s: string, j: nat, t: string, o: nat, k: nat)
    requires j <= |s| && MentionAt(s, j).Some?
    requires o + (MentionAt(s, j).value.end - j) <= |t|
    requires t[o..o + (MentionAt(s, j).value.end - j)] == s[j..MentionAt(s, j).value.end]
    requires o < k < o + (MentionAt(s, j).value.end - j)
    ensures k <= |t| && MentionAt(t, k).None?
  {
    assert t[k] == s[j + (k - o)];
    MentionChars(s, j, j + (k - o));
  }

  /**
    A mention of the output that lies in a copied stretch starts it, and is
    a kept mention of the input with the same digits; link text stays link
    text.
   */
  lemma KeptPieceSame(s: string, find: nat -> Option<Mention>, repl: Mention -> string, j: nat, k: nat, t: string)
    requires IsLessonMatcher(s, find) && KeepsOrBrackets(repl) && KeepsLinkText(s, repl)
    requires Reaches(s, find, 0, j) && j < |s|
    requires !(find(j).Some? && repl(find(j).value) != find(j).value.text)
    requires t == Sub(s, 0, find, repl)
    requires |Out(s, find, repl, 0, j)| <= k < |Out(s, find, repl, 0, j)| + |Piece(s, find, repl, j)|
    requires k <= |t| && MentionAt(t, k).Some?
    ensures MentionAt(s, j).Some? && repl(MentionAt(s, j).value) == MentionAt(s, j).value.text
    ensures MentionAt(s, j).value.digits == MentionAt(t, k).value.digits
    ensures InsideLinkText(s, j) ==> InsideLinkText(t, k)
  {
    var o := |Out(s, find, repl, 0, j)|;
    KeptPieceOffset(s, find, repl, j, k, t, o);
    KeptStart(s, find, repl, j, t, o);
    if InsideLinkText(s, j) {
      InsideCarries(s, find, repl, j, t, o);
    }
  }

  // ---------------------------------------------------------------------------
  // The second pass
  // ---------------------------------------------------------------------------

  /** A mention of the output inside a rewritten match lies in the text of that match's link. */
  lemma RewrittenPieceInside(s: string, primary: string, lookup: (string, nat) -> Option<string>,
                             find: nat -> Option<Mention>, repl: Mention -> string, j: nat, k: nat, t: string)
    requires LinksWithoutSpaces(lookup)
    requires find == LessonMatcher(s) && repl == ReplacementFor(s, primary, lookup) && t == Sub(s, 0, find, repl)
    requires Reaches(s, find, 0, j) && j < |s| && find(j).Some? && repl(find(j).value) != find(j).value.text
    requires |Out(s, find, repl, 0, j)| <= k < |Out(s, find, repl, 0, j)| + |Piece(s, find, repl, j)|
    requires k <= |t| && MentionAt(t, k).Some?
    ensures InsideLinkText(t, k)
  {
    var m := find(j).value;
    RewrittenShape(s, primary, lookup, m);
    var n := DigitsValue(m.digits);
    MentionWord(s, j);
    var kk := MentionRuns(t, k);
    assert t[k + 6..kk][0] == t[k + 6];
    RewrittenPieceBracket(s, find, repl, j, k, m.word, NatToDecimal(n), lookup(primary, n).value, t, |Out(s, find, repl, 0, j)|);
    BracketBeforeIsInside(t, k);
  }

  /** A mention of the output inside a kept stretch is kept again by the second pass. */
  lemma KeptPieceKeptAgain(s: string, primary: string, lookup: (string, nat) -> Option<string>,
                           find: nat -> Option<Mention>, repl: Mention -> string, j: nat, k: nat, t: string)
    requires find == LessonMatcher(s) && repl == ReplacementFor(s, primary, lookup) && t == Sub(s, 0, find, repl)
    requires Reaches(s, find, 0, j) && j < |s| && !(find(j).Some? && repl(find(j).value) != find(j).value.text)
    requires |Out(s, find, repl, 0, j)| <= k < |Out(s, find, repl, 0, j)| + |Piece(s, find, repl, j)|
    requires k <= |t| && MentionAt(t, k).Some?
    ensures Replacement(t, primary, lookup, MentionAt(t, k).value) == MentionAt(t, k).value.text
  {
    ReplacementShape(s, primary, lookup);
    KeptPieceSame(s, find, repl, j, k, t);
    KeptMentionKeptAgain(s, t, primary, lookup, j, k);
  }

  /**
    A mention kept by the pass, seen again in the output with the same digits
    and still link text where it was, is kept by the second pass.
   */
  lemma KeptMentionKeptAgain(s: string, t: string, primary: string, lookup: (string, nat) -> Option<string>, j: nat, k: nat)
    requires j <= |s| && MentionAt(s, j).Some? && k <= |t| && MentionAt(t, k).Some?
    requires Replacement(s, primary, lookup, MentionAt(s, j).value) == MentionAt(s, j).value.text
    requires MentionAt(s, j).value.digits == MentionAt(t, k).value.digits
    requires InsideLinkText(s, j) ==> InsideLinkText(t, k)
    ensures Replacement(t, primary, lookup, MentionAt(t, k).value) == MentionAt(t, k).value.text
  {
    var m := MentionAt(s, j).value;
    if !InsideLinkText(t, k) && IsLink(lookup(primary, DigitsValue(m.digits))) {
      RewrittenShape(s, primary, lookup, m);
    }
  }

  /** Every mention of the once-rewritten answer is replaced by its own text. */
  lemma SecondPassKeeps(s: string, primary: string, lookup: (string, nat) -> Option<string>, k: nat)
    requires LinksWithoutSpaces(lookup)
    requires k <= |RewriteLessons(s, primary, lookup)| && MentionAt(RewriteLessons(s, primary, lookup), k).Some?
    ensures var t := RewriteLessons(s, primary, lookup);
            Replacement(t, primary, lookup, MentionAt(t, k).value) == MentionAt(t, k).value.text
  {
    var find, repl := LessonMatcher(s), ReplacementFor(s, primary, lookup);
    var t := Sub(s, 0, find, repl);
    ReplacementShape(s, primary, lookup);
    var j := Locate(s, find, repl, 0, k);
    if find(j).Some? && repl(find(j).value) != find(j).value.text {
      RewrittenPieceInside(s, primary, lookup, find, repl, j, k, t);
    } else {
      KeptPieceKeptAgain(s, primary, lookup, find, repl, j, k, t);
    }
  }

  /** Rewriting the matches twice for the same course gives the same answer as once. */
  lemma RewriteLessonsIdempotent(s: string, primary: string, lookup: (string, nat) -> Option<string>)
    requires LinksWithoutSpaces(lookup)
    ensures var t := RewriteLessons(s, primary, lookup);
            RewriteLessons(t, primary, lookup) == t
  {
    var t := RewriteLessons(s, primary, lookup);
    forall k | 0 <= k <= |t| && MentionAt(t, k).Some?
      ensures Replacement(t, primary, lookup, MentionAt(t, k).value) == MentionAt(t, k).value.text
    {
      SecondPassKeeps(s, primary, lookup, k);
    }
    SubKeepsText(t, 0, LessonMatcher(t), ReplacementFor(t, primary, lookup));
  }

  /**
    `_add_lesson_links` applied to its own result, with the same sources,
    changes nothing when no lesson link contains whitespace.
   */
  lemma LessonLinkedIdempotent(s: string, sources: seq<Source>, lookup: (string, nat) -> Option<string>)
    requires LinksWithoutSpaces(lookup)
    ensures LessonLinked(LessonLinked(s, sources, lookup), sources, lookup) == LessonLinked(s, sources, lookup)
  {
    if sources != [] && PrimaryCourse(sources).Some? {
      RewriteLessonsIdempotent(s, PrimaryCourse(sources).value, lookup);
    }
  }
}
