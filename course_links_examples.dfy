/**
  Worked inputs for the course-link pass: the behaviour the integration test
  expects, and an input showing that sorting longest title first does not keep
  a short title from being linked inside the link made for a longer one.
 */
module CourseLinkExamples {
  import opened Wrappers
  import opened Text
  import opened CourseLinks

  /** Text free of quotes and of the title's first character is copied by the scanner. */
  lemma ReplaceTitleSkipsText(a: string, b: string, t: string, rep: string)
    requires t != "" && '"' !in a && t[0] !in a
    ensures ReplaceTitle(a + b, t, rep) == a + ReplaceTitle(b, t, rep)
  {
    var s := a + b;
    forall k | 0 <= k < |a| ensures !MatchesAtFront(s[k..], t) {
      assert s[k..][0] == a[k];
    }
    ReplaceTitleCopiesUnmatchedPrefix(s, t, rep, |a|);
    assert s[..|a|] == a && s[|a|..] == b;
  }

  /** A bare (unquoted) title at the front becomes the replacement. */
  lemma ReplaceTitleAtFront(t: string, b: string, rep: string)
    requires t != "" && t[0] != '"'
    ensures ReplaceTitle(t + b, t, rep) == rep + ReplaceTitle(b, t, rep)
  {
    var s := t + b;
    assert s[..|t|] == t;
    assert s[0] != '"';
    assert s[|t|..] == b;
  }

  lemma SortSingle(c: CourseMeta)
    ensures SortByTitleLength([c]) == [c]
  {
    assert [c][1..] == [];
  }

  lemma SortPair(a: CourseMeta, b: CourseMeta)
    requires |a.title| < |b.title|
    ensures SortByTitleLength([a, b]) == [b, a]
  {
    assert [a, b][1..] == [b];
    SortSingle(b);
    assert [b][1..] == [];
  }

  lemma LinkAllSingle(c: CourseMeta, s: string)
    requires WellFormed(c)
    ensures LinkAll([c], s) == CourseStep(s, c)
  {
    assert [c][..0] == [];
  }

  lemma LinkAllPair(a: CourseMeta, b: CourseMeta, s: string)
    requires WellFormed(a) && WellFormed(b)
    ensures LinkAll([a, b], s) == CourseStep(CourseStep(s, a), b)
  {
    assert [a, b][..1] == [a];
    LinkAllSingle(a, s);
  }

  lemma CourseLinkedSingle(c: CourseMeta, s: string)
    requires WellFormed(c)
    ensures CourseLinked([c], s) == CourseStep(s, c)
  {
    SortSingle(c);
    LinkAllSingle(c, s);
  }

  lemma CourseLinkedPair(a: CourseMeta, b: CourseMeta, s: string)
    requires WellFormed(a) && WellFormed(b) && |a.title| < |b.title|
    ensures CourseLinked([a, b], s) == CourseStep(CourseStep(s, b), a)
  {
    SortPair(a, b);
    LinkAllPair(b, a, s);
  }

  /** A single bare occurrence of the title, in text without its first character or quotes before it, is replaced. */
  lemma ReplaceSingleMention(pre: string, t: string, post: string, rep: string)
    requires t != "" && t[0] != '"'
    requires '"' !in pre && t[0] !in pre && t[0] !in post
    ensures ReplaceTitle(pre + t + post, t, rep) == pre + rep + post
  {
    assert pre + t + post == pre + (t + post);
    ReplaceTitleSkipsText(pre, t + post, t, rep);
    ReplaceTitleAtFront(t, post, rep);
    NotContainedWithoutFirstChar(post, t);
    ReplaceTitleEffect(post, t, rep);
    AppendAssoc(pre, rep, post);
  }

  /**
    One linked course whose title occurs once, bare, between text without
    quotes, brackets or the title's first character: that occurrence, and
    nothing else, becomes the link.
   */
  lemma SingleMentionIsLinked(pre: string, t: string, post: string, link: string)
    requires t != "" && link != ""
    requires '[' !in pre + t + post
    requires '"' !in pre && t[0] !in pre && t[0] !in post && t[0] != '"'
    ensures CourseLinked([CourseMeta(t, Some(link))], pre + t + post)
         == pre + MarkdownLink(t, link) + post
  {
    var c := CourseMeta(t, Some(link));
    CourseLinkedSingle(c, pre + t + post);
    NotContainedWithoutFirstChar(pre + t + post, Bracketed(t));
    ReplaceSingleMention(pre, t, post, MarkdownLink(t, link));
  }

  const PythonTitle: string := "Python 101"
  const PythonLink: string := "https://example.com/python"

  /**
    The course-link expectation of the integration test: in
    "Check out Python 101 for more info." the title becomes
    `[Python 101](https://example.com/python)`.
   */
  lemma PythonCourseIsLinked()
    ensures CourseLinked([CourseMeta(PythonTitle, Some(PythonLink))], "Check out " + PythonTitle + " for more info.")
         == "Check out " + MarkdownLink(PythonTitle, PythonLink) + " for more info."
  {
    SingleMentionIsLinked("Check out ", PythonTitle, " for more info.", PythonLink);
  }

  /** The long title is linked first, as a whole. */
  lemma LongTitleLinkedWhole(long: string, lb: string)
    requires long != "" && lb != "" && long[0] != '"'
    ensures CourseStep(long, CourseMeta(long, Some(lb))) == MarkdownLink(long, lb)
  {
    NotContainedWhenLonger(long, Bracketed(long));
    var once := MarkdownLink(long, lb);
    ReplaceTitleAtFront(long, "", once);
    assert long + "" == long;
    assert ReplaceTitle("", long, once) == "";
  }

  /** In `[short rest](lb)` the short title is not bracketed on its own, so it is linked. */
  lemma ShortTitleLinkedInLink(short: string, rest: string, la: string, lb: string)
    requires short != "" && rest != "" && la != ""
    requires rest[0] != ']'
    requires '[' !in short + rest + lb
    requires short[0] != '"' && short[0] !in rest + "](" + lb + ")"
    ensures CourseStep(MarkdownLink(short + rest, lb), CourseMeta(short, Some(la)))
         == "[" + MarkdownLink(short, la) + (rest + "](" + lb + ")")
  {
    var once := MarkdownLink(short + rest, lb);
    var after := rest + "](" + lb + ")";
    var tail := short + after;
    assert once == [once[0]] + tail;
    assert once[|short| + 1] == rest[0];
    assert !StartsWith(once, Bracketed(short));
    assert '[' !in tail;
    NotContainedWithoutFirstChar(tail, Bracketed(short));
    ContainsCons('[', tail, Bracketed(short));
    var rep := MarkdownLink(short, la);
    ReplaceTitleSkipsText("[", tail, short, rep);
    ReplaceTitleAtFront(short, after, rep);
    NotContainedWithoutFirstChar(after, short);
    ReplaceTitleEffect(after, short, rep);
  }

  /**
    A short title that starts a longer one, both linked: after the long title
    becomes `[long](lb)`, `[short]` is absent (the long title continues after
    the short one with anything but `]`), so the short title is linked inside
    the long title's link text.
   */
  lemma ShortTitleNestsInLongTitleLink(short: string, rest: string, la: string, lb: string)
    requires short != "" && rest != "" && la != "" && lb != ""
    requires rest[0] != ']'
    requires '[' !in short + rest + lb
    requires short[0] != '"' && short[0] !in rest + "](" + lb + ")"
    ensures CourseLinked([CourseMeta(short, Some(la)), CourseMeta(short + rest, Some(lb))], short + rest)
         == "[" + MarkdownLink(short, la) + (rest + "](" + lb + ")")
  {
    CourseLinkedPair(CourseMeta(short, Some(la)), CourseMeta(short + rest, Some(lb)), short + rest);
    LongTitleLinkedWhole(short + rest, lb);
    ShortTitleLinkedInLink(short, rest, la, lb);
  }

  const Mcp: string := "MCP"
  const McpRest: string := ": Build Rich-Context AI Apps"

  /**
    The comment at the sort claims that "MCP" does not match inside
    "MCP: Build Rich-Context AI Apps". It does: the result is
    `[[MCP](a): Build Rich-Context AI Apps](b)`.
   */
  lemma ShortTitleLinkedInsideLongTitleLink()
    ensures CourseLinked([CourseMeta(Mcp, Some("a")), CourseMeta(Mcp + McpRest, Some("b"))], Mcp + McpRest)
         == "[" + MarkdownLink(Mcp, "a") + (McpRest + "](" + "b" + ")")
  {
    ShortTitleNestsInLongTitleLink(Mcp, McpRest, "a", "b");
  }

  // ---------------------------------------------------------------------------
  // The pass as a whole is not idempotent
  // ---------------------------------------------------------------------------

  const CourseAB: CourseMeta := CourseMeta("AB", Some("la"))
  const CourseBClose: CourseMeta := CourseMeta("B]", Some("lb"))
  const AlreadyLinked: string := "[AB] AB"
  const LinkB: string := MarkdownLink("B]", "lb")
  const LinkA: string := MarkdownLink("AB", "la")
  /** `[A[B]](lb) AB` */
  const OncePassed: string := "[A" + (LinkB + " AB")
  /** `[A[B]](lb) [AB](la)` */
  const TwicePassed: string := "[A" + (LinkB + (" " + LinkA))

  /** Two titles of equal length keep their catalog order. */
  lemma SortEqualPair(a: CourseMeta, b: CourseMeta)
    requires |a.title| == |b.title|
    ensures SortByTitleLength([a, b]) == [a, b]
  {
    assert [a, b][1..] == [b];
    SortSingle(b);
  }

  lemma CatalogPasses(s: string)
    ensures CourseLinked([CourseAB, CourseBClose], s) == CourseStep(CourseStep(s, CourseAB), CourseBClose)
  {
    SortEqualPair(CourseAB, CourseBClose);
    LinkAllPair(CourseAB, CourseBClose, s);
  }

  /** A character that is no quote and is not followed by the title's second character is copied by the scanner. */
  lemma ReplaceTitleCopiesMismatch(c: char, s: string, t: string, rep: string)
    requires |t| >= 2 && c != '"' && (s == [] || s[0] != t[1])
    ensures ReplaceTitle([c] + s, t, rep) == [c] + ReplaceTitle(s, t, rep)
  {
    var u := [c] + s;
    assert u[1..] == s;
    if |t| <= |u| {
      assert u[..|t|][1] != t[1];
    }
  }

  /** `[B]]` does not occur in `[AB] AB`: its only `[` is followed by `A`. */
  lemma NoBracketedBClose()
    ensures !Contains(AlreadyLinked, Bracketed("B]"))
  {
    var p := Bracketed("B]");
    var tail := "AB] AB";
    assert AlreadyLinked == ['['] + tail;
    assert AlreadyLinked[1] != p[1];
    NotContainedWithoutFirstChar(tail, p);
    ContainsCons('[', tail, p);
  }

  lemma SkipAB()
    ensures CourseStep(AlreadyLinked, CourseAB) == AlreadyLinked
  {
    assert StartsWith(AlreadyLinked[0..], Bracketed("AB"));
  }

  lemma LinkBClose()
    ensures CourseStep(AlreadyLinked, CourseBClose) == OncePassed
  {
    NoBracketedBClose();
    var t := "B]";
    assert AlreadyLinked == "[A" + (t + " AB");
    ReplaceTitleSkipsText("[A", t + " AB", t, LinkB);
    ReplaceTitleAtFront(t, " AB", LinkB);
    assert " AB" == " A" + "B";
    ReplaceTitleSkipsText(" A", "B", t, LinkB);
    ReplaceTitleCopiesMismatch('B', "", t, LinkB);
  }

  /** First pass: `[AB]` is present, so `AB` is skipped; `B]` is linked inside it. */
  lemma FirstPass()
    ensures CourseLinked([CourseAB, CourseBClose], AlreadyLinked) == OncePassed
  {
    CatalogPasses(AlreadyLinked);
    SkipAB();
    LinkBClose();
  }

  /** `[AB]` does not occur in `[A[B]](lb) AB`: after each `[` comes no `AB]`. */
  lemma NoBracketedAB()
    ensures !Contains(OncePassed, Bracketed("AB"))
  {
    var p := Bracketed("AB");
    var t2 := "B]](lb) AB";
    var t1 := ['['] + t2;
    var t0 := ['A'] + t1;
    NotContainedWithoutFirstChar(t2, p);
    assert t1[1] != p[1];
    ContainsCons('[', t2, p);
    ContainsCons('A', t1, p);
    assert OncePassed == ['['] + t0;
    assert (['['] + t0)[2] != p[2];
    ContainsCons('[', t0, p);
  }

  /** In `[A[B]](lb) AB` only the final `AB` is a match. */
  lemma ReplaceFinalAB()
    ensures ReplaceTitle(OncePassed, "AB", LinkA) == TwicePassed
  {
    var t := "AB";
    var tail := LinkB + (" " + (t + ""));
    var u := "[" + ("A" + tail);
    assert OncePassed == u by {
      assert " AB" == " " + (t + "");
      assert "[A" == "[" + "A";
      AppendAssoc("[", "A", tail);
    }
    ReplaceTitleSkipsText("[", "A" + tail, t, LinkA);
    ReplaceTitleCopiesMismatch('A', tail, t, LinkA);
    ReplaceTitleSkipsText(LinkB, " " + (t + ""), t, LinkA);
    ReplaceTitleSkipsText(" ", t + "", t, LinkA);
    ReplaceTitleAtFront(t, "", LinkA);
    assert TwicePassed == "[" + ("A" + (LinkB + (" " + (LinkA + "")))) by {
      assert LinkA + "" == LinkA;
      assert "[A" == "[" + "A";
      AppendAssoc("[", "A", LinkB + (" " + LinkA));
    }
  }

  lemma LinkAB()
    ensures CourseStep(OncePassed, CourseAB) == TwicePassed
  {
    NoBracketedAB();
    ReplaceFinalAB();
  }

  lemma SkipBClose()
    ensures CourseStep(TwicePassed, CourseBClose) == TwicePassed
  {
    assert StartsWith(TwicePassed[2..], Bracketed("B]"));
  }

  /** Second pass: `[AB]` is gone, so `AB` is now linked; `[B]]` is present, so `B]` is skipped. */
  lemma SecondPass()
    ensures CourseLinked([CourseAB, CourseBClose], OncePassed) == TwicePassed
  {
    CatalogPasses(OncePassed);
    LinkAB();
    SkipBClose();
  }

  /**
    Running the course-link pass on its own output can change it: the answer
    `[AB] AB`, with courses `AB` and `B]`, becomes `[A[B]](lb) AB` and then
    `[A[B]](lb) [AB](la)`.
   */
  lemma CourseLinkedNotIdempotent()
    ensures var once := CourseLinked([CourseAB, CourseBClose], AlreadyLinked);
            CourseLinked([CourseAB, CourseBClose], once) != once
  {
    FirstPass();
    SecondPass();
    assert TwicePassed[11] != OncePassed[11];
  }
}
