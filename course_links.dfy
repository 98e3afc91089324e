/**
  The course-link pass of answer post-processing (`RAGSystem._add_course_links`).

  The catalog of courses is sorted longest title first (a stable sort), then,
  course by course, every leftmost non-overlapping occurrence of `"title"` or
  `title` in the answer is replaced by the markdown link `[title](link)`.
  A course without a link, or whose `[title]` already appears anywhere in the
  answer, leaves the answer unchanged.
 */
module CourseLinks {
  import opened Wrappers
  import opened Text

  /** One entry of the course catalog: a title and its optional link. */
  datatype CourseMeta = CourseMeta(title: string, link: Option<string>)

  /** `if not link: continue` skips both a missing and an empty link. */
  predicate HasLink(c: CourseMeta)
  {
    c.link.Some? && c.link.value != ""
  }

  /**
    A course whose title can be turned into a pattern: an empty title would
    make the pattern match the empty string, which this model does not cover.
   */
  predicate WellFormed(c: CourseMeta)
  {
    HasLink(c) ==> c.title != ""
  }

  function Quoted(t: string): string
  {
    "\"" + t + "\""
  }

  function Bracketed(t: string): string
  {
    "[" + t + "]"
  }

  function MarkdownLink(t: string, link: string): string
  {
    "[" + t + "](" + link + ")"
  }

  // ---------------------------------------------------------------------------
  // `re.sub(r'"t"|t', rep, s)` with `t` escaped, i.e. literal matching
  // ---------------------------------------------------------------------------

  /** The pattern `"t"|t` matches at the front of `s`. */
  predicate MatchesAtFront(s: string, t: string)
  {
    StartsWith(s, Quoted(t)) || StartsWith(s, t)
  }

  /** How much of `s` the match at its front consumes: the quoted alternative is tried first. */
  function MatchLength(s: string, t: string): nat
  {
    if StartsWith(s, Quoted(t)) then |t| + 2 else |t|
  }

  /**
    The scanner of `re.sub`: at each position try `"t"`, then `t`; on a match
    emit `rep` and resume after the match, otherwise copy one character.
   */
  function ReplaceTitle(s: string, t: string, rep: string): string
    requires t != ""
    decreases |s|
  {
    if s == [] then []
    else if StartsWith(s, Quoted(t)) then rep + ReplaceTitle(s[|t| + 2..], t, rep)
    else if StartsWith(s, t) then rep + ReplaceTitle(s[|t|..], t, rep)
    else [s[0]] + ReplaceTitle(s[1..], t, rep)
  }

  /** Behind the opening quote of `"t"` comes `t`. */
  lemma QuotedStartsTitle(s: string, t: string)
    requires StartsWith(s, Quoted(t))
    ensures 0 < |s| && StartsWith(s[1..], t)
  {
    var q := Quoted(t);
    assert q[1..|t| + 1] == t;
    assert s[1..][..|t|] == s[..|q|][1..|t| + 1];
  }

  /**
    Without an occurrence of the title the text is returned as is; with one,
    the replacement appears in the result.
   */
  lemma {:induction false} ReplaceTitleEffect(s: string, t: string, rep: string)
    requires t != ""
    ensures !Contains(s, t) ==> ReplaceTitle(s, t, rep) == s
    ensures Contains(s, t) ==> Contains(ReplaceTitle(s, t, rep), rep)
    decreases |s|
  {
    var r := ReplaceTitle(s, t, rep);
    if s == [] {
    } else if StartsWith(s, Quoted(t)) {
      QuotedStartsTitle(s, t);
      assert StartsWith(r, rep);
      assert r[0..] == r;
    } else if StartsWith(s, t) {
      assert s[0..] == s;
      assert StartsWith(r, rep);
      assert r[0..] == r;
    } else {
      ReplaceTitleEffect(s[1..], t, rep);
      ContainsCons(s[0], s[1..], t);
      assert [s[0]] + s[1..] == s;
      if Contains(s[1..], t) {
        ContainsInContext([s[0]], ReplaceTitle(s[1..], t, rep), [], rep);
        assert [s[0]] + ReplaceTitle(s[1..], t, rep) + [] == r;
      }
    }
  }

  /**
    Each replacement lengthens the text when the replacement is longer than
    the quoted title, so the result has the input's length exactly when
    nothing matched.
   */
  lemma {:induction false} ReplaceTitleLength(s: string, t: string, rep: string)
    requires t != "" && |rep| > |t| + 2
    ensures |ReplaceTitle(s, t, rep)| >= |s|
    ensures Contains(s, t) ==> |ReplaceTitle(s, t, rep)| > |s|
    decreases |s|
  {
    if s == [] {
    } else if StartsWith(s, Quoted(t)) {
      ReplaceTitleLength(s[|t| + 2..], t, rep);
    } else if StartsWith(s, t) {
      ReplaceTitleLength(s[|t|..], t, rep);
    } else {
      ReplaceTitleLength(s[1..], t, rep);
      ContainsCons(s[0], s[1..], t);
      assert [s[0]] + s[1..] == s;
    }
  }

  /** Characters before the leftmost match are copied unchanged. */
  lemma {:induction false} ReplaceTitleCopiesUnmatchedPrefix(s: string, t: string, rep: string, j: nat)
    requires t != "" && j <= |s|
    requires forall k | 0 <= k < j :: !MatchesAtFront(s[k..], t)
    ensures ReplaceTitle(s, t, rep) == s[..j] + ReplaceTitle(s[j..], t, rep)
    decreases j
  {
    if j == 0 {
      assert s[0..] == s;
    } else {
      assert s[0..] == s;
      assert !MatchesAtFront(s, t);
      forall k | 0 <= k < j - 1
        ensures !MatchesAtFront(s[1..][k..], t)
      {
        assert s[1..][k..] == s[k + 1..];
      }
      ReplaceTitleCopiesUnmatchedPrefix(s[1..], t, rep, j - 1);
      assert s[1..][j - 1..] == s[j..];
      assert [s[0]] + s[1..][..j - 1] == s[..j];
    }
  }

  /**
    re.sub semantics: the text up to the leftmost match is kept, the match
    (its quoted form when the title is quoted there) becomes the replacement,
    and scanning resumes right after the match.
   */
  lemma ReplaceTitleLeftmost(s: string, t: string, rep: string, j: nat)
    requires t != "" && j <= |s|
    requires forall k | 0 <= k < j :: !MatchesAtFront(s[k..], t)
    requires MatchesAtFront(s[j..], t)
    ensures j + MatchLength(s[j..], t) <= |s|
    ensures ReplaceTitle(s, t, rep)
         == s[..j] + rep + ReplaceTitle(s[j + MatchLength(s[j..], t)..], t, rep)
  {
    var u := s[j..];
    var n := MatchLength(u, t);
    ReplaceTitleAtMatch(u, t, rep);
    assert u[n..] == s[j + n..];
    var after := ReplaceTitle(s[j + n..], t, rep);
    calc {
      ReplaceTitle(s, t, rep);
    == { ReplaceTitleCopiesUnmatchedPrefix(s, t, rep, j); }
      s[..j] + ReplaceTitle(u, t, rep);
    ==
      s[..j] + (rep + after);
    == { AppendAssoc(s[..j], rep, after); }
      s[..j] + rep + after;
    }
  }

  /** A match at the front becomes the replacement. */
  lemma ReplaceTitleAtMatch(u: string, t: string, rep: string)
    requires t != "" && MatchesAtFront(u, t)
    ensures MatchLength(u, t) <= |u|
    ensures ReplaceTitle(u, t, rep) == rep + ReplaceTitle(u[MatchLength(u, t)..], t, rep)
  {
  }

  // ---------------------------------------------------------------------------
  // One course
  // ---------------------------------------------------------------------------

  /** The body of the loop over the sorted catalog, for one course. */
  function CourseStep(s: string, c: CourseMeta): string
    requires WellFormed(c)
  {
    if !HasLink(c) then s
    else if Contains(s, Bracketed(c.title)) then s
    else ReplaceTitle(s, c.title, MarkdownLink(c.title, c.link.value))
  }

  /**
    A course step changes the answer exactly when the course has a link, its
    `[title]` is nowhere in the answer, and its title occurs: one pre-linked
    occurrence suppresses the rewriting of every other occurrence.
   */
  lemma CourseStepChangesIff(s: string, c: CourseMeta)
    requires WellFormed(c)
    ensures CourseStep(s, c) != s
        <==> HasLink(c) && !Contains(s, Bracketed(c.title)) && Contains(s, c.title)
  {
    if HasLink(c) && !Contains(s, Bracketed(c.title)) {
      ReplaceTitleEffect(s, c.title, MarkdownLink(c.title, c.link.value));
      ReplaceTitleLength(s, c.title, MarkdownLink(c.title, c.link.value));
    }
  }

  /** Applying the same course step twice equals applying it once. */
  lemma CourseStepIdempotent(s: string, c: CourseMeta)
    requires WellFormed(c)
    ensures CourseStep(CourseStep(s, c), c) == CourseStep(s, c)
  {
    if HasLink(c) && !Contains(s, Bracketed(c.title)) {
      var rep := MarkdownLink(c.title, c.link.value);
      var r := ReplaceTitle(s, c.title, rep);
      ReplaceTitleEffect(s, c.title, rep);
      if Contains(s, c.title) {
        assert rep == Bracketed(c.title) + ("(" + c.link.value + ")");
        ContainsPrefixOfPattern(r, Bracketed(c.title), "(" + c.link.value + ")");
      }
    }
  }

  // ---------------------------------------------------------------------------
  // `all_courses.sort(key=lambda c: len(c["title"]), reverse=True)`
  // ---------------------------------------------------------------------------

  /** Titles in non-increasing length. */
  predicate LongestFirst(cs: seq<CourseMeta>)
  {
    forall i, j | 0 <= i < j < |cs| :: |cs[i].title| >= |cs[j].title|
  }

  /** The courses whose title has length `n`, in their order in `cs`. */
  function WithTitleLength(cs: seq<CourseMeta>, n: nat): seq<CourseMeta>
  {
    if cs == [] then []
    else (if |cs[0].title| == n then [cs[0]] else []) + WithTitleLength(cs[1..], n)
  }

  /** Insert `c` in front of the first course whose title is not longer than its own. */
  function InsertByLength(c: CourseMeta, cs: seq<CourseMeta>): (r: seq<CourseMeta>)
    ensures multiset(r) == multiset(cs) + multiset{c}
  {
    if cs == [] || |cs[0].title| <= |c.title| then [c] + cs
    else
      assert cs == [cs[0]] + cs[1..];
      [cs[0]] + InsertByLength(c, cs[1..])
  }

  /** Inserting into a longest-first sequence keeps it longest first. */
  lemma {:induction false} InsertByLengthKeepsOrder(c: CourseMeta, cs: seq<CourseMeta>)
    requires LongestFirst(cs)
    ensures LongestFirst(InsertByLength(c, cs))
  {
    if cs != [] && |cs[0].title| > |c.title| {
      var rest := InsertByLength(c, cs[1..]);
      InsertByLengthKeepsOrder(c, cs[1..]);
      forall x | x in rest ensures |x.title| <= |cs[0].title| {
        assert x in multiset(rest);
        if x != c {
          assert x in cs[1..];
        }
      }
    }
  }

  /**
    A stable sort by descending title length: Python's sort with
    `reverse=True` keeps equal keys in their original order.
   */
  function SortByTitleLength(cs: seq<CourseMeta>): (r: seq<CourseMeta>)
    ensures multiset(r) == multiset(cs)
    ensures LongestFirst(r)
  {
    if cs == [] then []
    else
      assert cs == [cs[0]] + cs[1..];
      InsertByLengthKeepsOrder(cs[0], SortByTitleLength(cs[1..]));
      InsertByLength(cs[0], SortByTitleLength(cs[1..]))
  }

  /** Inserting a course adds it to its own length class, in front. */
  lemma {:induction false} InsertByLengthClasses(c: CourseMeta, cs: seq<CourseMeta>, n: nat)
    ensures WithTitleLength(InsertByLength(c, cs), n)
         == (if |c.title| == n then [c] else []) + WithTitleLength(cs, n)
  {
    if cs == [] || |cs[0].title| <= |c.title| {
      assert ([c] + cs)[1..] == cs;
    } else {
      InsertByLengthClasses(c, cs[1..], n);
      assert ([cs[0]] + InsertByLength(c, cs[1..]))[1..] == InsertByLength(c, cs[1..]);
    }
  }

  /**
    Courses with equal-length titles keep their catalog order: for every
    length, the courses of that length form the same sequence before and
    after sorting.
   */
  lemma {:induction false} SortKeepsEqualLengthOrder(cs: seq<CourseMeta>, n: nat)
    ensures WithTitleLength(SortByTitleLength(cs), n) == WithTitleLength(cs, n)
  {
    if cs != [] {
      SortKeepsEqualLengthOrder(cs[1..], n);
      InsertByLengthClasses(cs[0], SortByTitleLength(cs[1..]), n);
    }
  }

  // ---------------------------------------------------------------------------
  // The whole pass
  // ---------------------------------------------------------------------------

  /** The answer after the course steps of `cs`, applied in order. */
  function LinkAll(cs: seq<CourseMeta>, s: string): string
    requires forall c | c in cs :: WellFormed(c)
  {
    if cs == [] then s
    else CourseStep(LinkAll(cs[..|cs| - 1], s), cs[|cs| - 1])
  }

  /** The course-link pass: the course steps in longest-title-first order. */
  function CourseLinked(catalog: seq<CourseMeta>, s: string): string
    requires forall c | c in catalog :: WellFormed(c)
  {
    var sorted := SortByTitleLength(catalog);
    assert forall c | c in sorted :: c in multiset(catalog);
    LinkAll(sorted, s)
  }

  /** `_add_course_links`: sort the catalog, then rewrite the answer course by course. */
  method AddCourseLinks(response: string, catalog: seq<CourseMeta>) returns (r: string)
    requires forall c | c in catalog :: WellFormed(c)
    ensures r == CourseLinked(catalog, response)
  {
    var courses := SortByTitleLength(catalog);
    forall k | 0 <= k < |courses| ensures WellFormed(courses[k]) {
      assert courses[k] in multiset(courses);
    }
    r := response;
    for i := 0 to |courses|
      invariant r == LinkAll(courses[..i], response)
    {
      assert courses[..i + 1][..i] == courses[..i];
      r := CourseStep(r, courses[i]);
    }
    assert courses[..|courses|] == courses;
  }

  /** A catalog in which no course has a link leaves every answer unchanged. */
  lemma {:induction false} LinkAllWithoutLinks(cs: seq<CourseMeta>, s: string)
    requires forall c | c in cs :: !HasLink(c)
    ensures LinkAll(cs, s) == s
    decreases |cs|
  {
    if cs != [] {
      assert forall c | c in cs[..|cs| - 1] :: c in cs;
      LinkAllWithoutLinks(cs[..|cs| - 1], s);
    }
  }

  lemma CourseLinkedWithoutLinks(catalog: seq<CourseMeta>, s: string)
    requires forall c | c in catalog :: !HasLink(c)
    ensures CourseLinked(catalog, s) == s
  {
    var sorted := SortByTitleLength(catalog);
    assert forall c | c in sorted :: c in multiset(catalog);
    LinkAllWithoutLinks(sorted, s);
  }
}
