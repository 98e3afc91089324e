/**
  The lesson-link pass of answer post-processing (`RAGSystem._add_lesson_links`).

  The course most often named by the sources of the answer is the primary
  course. Every mention `Lesson N` / `lesson N` of the answer (the regular
  expression `\b([Ll]esson)\s+(\d+)\b`) becomes `[Lesson N](link)` when the
  lesson has a link and the mention does not look like it is inside the text
  of a markdown link. Every decision is taken on the original answer.
 */
module LessonLinks {
  import opened Wrappers
  import opened Text
  import opened LessonPattern

  // ---------------------------------------------------------------------------
  // Sources and the primary course
  // ---------------------------------------------------------------------------

  /** A source record; `text` is absent when the record has no "text" key. */
  datatype Source = Source(text: Option<string>)

  /** `source.get("text", "")` */
  function SourceText(src: Source): string
  {
    match src.text
    case Some(t) => t
    case None => ""
  }

  const LessonDelimiter: string := " - Lesson"

  /**
    The course title named by a source text: the text before the first
    `" - Lesson"`, or the whole text when the delimiter is absent.
   */
  function CourseTitleOf(text: string): (r: string)
    ensures !Contains(text, LessonDelimiter) ==> r == text
    ensures Contains(text, LessonDelimiter) ==>
              StartsWith(text, r + LessonDelimiter)
              && forall k | 0 <= k < |r| :: !StartsWith(text[k..], LessonDelimiter)
  {
    if Contains(text, LessonDelimiter) then PrefixBefore(text, LessonDelimiter) else text
  }

  /** The non-empty course titles of the sources, in source order. */
  function CourseTitles(sources: seq<Source>): seq<string>
  {
    if sources == [] then []
    else
      var t := CourseTitleOf(SourceText(sources[|sources| - 1]));
      CourseTitles(sources[..|sources| - 1]) + (if t != "" then [t] else [])
  }

  /** A title is collected exactly when some source names it and it is not empty. */
  lemma {:induction false} CourseTitlesMembers(sources: seq<Source>, t: string)
    ensures t in CourseTitles(sources)
        <==> t != "" && exists src | src in sources :: CourseTitleOf(SourceText(src)) == t
    decreases |sources|
  {
    if sources != [] {
      var init, last := sources[..|sources| - 1], sources[|sources| - 1];
      CourseTitlesMembers(init, t);
      assert sources == init + [last];
      if t != "" && CourseTitleOf(SourceText(last)) != t {
        if exists src | src in sources :: CourseTitleOf(SourceText(src)) == t {
          var src :| src in sources && CourseTitleOf(SourceText(src)) == t;
          assert src in init;
        }
      }
    }
  }

  /** How often `t` occurs in `ts`: the count `collections.Counter` keeps. */
  function Count(ts: seq<string>, t: string): nat
  {
    multiset(ts)[t]
  }

  /**
    The position, at or after `i`, of the first title whose count is maximal
    among the titles from `i` on.
   */
  function LeaderFrom(ts: seq<string>, i: nat): (r: nat)
    requires i < |ts|
    ensures i <= r < |ts|
    ensures forall k | i <= k < |ts| :: Count(ts, ts[k]) <= Count(ts, ts[r])
    ensures forall k | i <= k < r :: Count(ts, ts[k]) < Count(ts, ts[r])
    decreases |ts| - i
  {
    if i == |ts| - 1 then i
    else
      var j := LeaderFrom(ts, i + 1);
      if Count(ts, ts[i]) >= Count(ts, ts[j]) then i else j
  }

  /**
    `Counter(ts).most_common(1)[0][0]`: a title of maximal count and, among
    those, the one that occurs first (the counter keeps first-insertion order
    and `max` keeps the first maximal item).
   */
  function MostCommon(ts: seq<string>): (r: string)
    requires ts != []
    ensures r in ts
    ensures forall t | t in ts :: Count(ts, t) <= Count(ts, r)
    ensures forall t | t in ts && Count(ts, t) == Count(ts, r) :: FirstIndex(ts, r) <= FirstIndex(ts, t)
  {
    var j := LeaderFrom(ts, 0);
    assert forall t | t in ts :: Count(ts, t) <= Count(ts, ts[j]) by {
      forall t | t in ts ensures Count(ts, t) <= Count(ts, ts[j]) {
        var k := FirstIndex(ts, t);
      }
    }
    ts[j]
  }

  /** The three properties of `MostCommon` determine the title. */
  lemma MostCommonIsUnique(ts: seq<string>, t: string)
    requires t in ts
    requires forall u | u in ts :: Count(ts, u) <= Count(ts, t)
    requires forall u | u in ts && Count(ts, u) == Count(ts, t) :: FirstIndex(ts, t) <= FirstIndex(ts, u)
    ensures t == MostCommon(ts)
  {
    var r := MostCommon(ts);
    assert Count(ts, r) == Count(ts, t);
    assert FirstIndex(ts, r) == FirstIndex(ts, t);
  }

  /** The primary course of a list of sources, if any source names a course. */
  function PrimaryCourse(sources: seq<Source>): Option<string>
  {
    var titles := CourseTitles(sources);
    if titles == [] then None else Some(MostCommon(titles))
  }

  // ---------------------------------------------------------------------------
  // Rewriting one match
  // ---------------------------------------------------------------------------

  const LookBack: nat := 50

  /**
    `response[max(0, start - 50):start]`; `start` never lies past the end, the
    clamp only makes the slice total as Python's is.
   */
  function LookBehind(s: string, start: nat): string
  {
    var hi := if start <= |s| then start else |s|;
    s[if hi >= LookBack then hi - LookBack else 0..hi]
  }

  /**
    The match looks like link text: the look-behind window holds a `[` and the
    text from its last `[` on holds no `](`.
   */
  predicate InsideLinkText(s: string, start: nat)
  {
    var prefix := LookBehind(s, start);
    match LastIndexOf(prefix, '[')
    case None => false
    case Some(k) => !Contains(prefix[k..], "](")
  }

  /** `if lesson_link:` treats `None` and `""` alike. */
  predicate IsLink(l: Option<string>)
  {
    l.Some? && l.value != ""
  }

  /** The nested `replace_with_link`: what the match `m` of the answer `s` becomes. */
  function Replacement(s: string, primary: string, lookup: (string, nat) -> Option<string>, m: Mention): string
  {
    if InsideLinkText(s, m.start) then m.text
    else
      var n := DigitsValue(m.digits);
      var link := lookup(primary, n);
      if IsLink(link) then "[" + m.word + " " + NatToDecimal(n) + "](" + link.value + ")"
      else m.text
  }

  /**
    The text a match becomes: itself inside link text or without a lesson
    link; otherwise `[<word> <n>](link)` with the word as written, one space,
    and the number without leading zeros.
   */
  lemma ReplacementText(s: string, i: nat, primary: string, lookup: (string, nat) -> Option<string>)
    requires i <= |s| && MentionAt(s, i).Some?
    ensures var m := MentionAt(s, i).value;
            var link := lookup(primary, DigitsValue(m.digits));
            Replacement(s, primary, lookup, m)
            == if InsideLinkText(s, i) || !IsLink(link) then s[i..m.end]
               else "[" + s[i..i + 6] + " " + StripLeadingZeros(m.digits) + "](" + link.value + ")"
  {
    DecimalOfDigits(MentionAt(s, i).value.digits);
  }

  /** A `[` right in front of a match, as in an already produced `[Lesson N](...)`, marks link text. */
  lemma BracketBeforeIsInside(s: string, i: nat)
    requires 0 < i <= |s| && s[i - 1] == '['
    ensures InsideLinkText(s, i)
  {
    var prefix := LookBehind(s, i);
    assert prefix[|prefix| - 1] == '[';
    var k := LastIndexOf(prefix, '[').value;
    assert k == |prefix| - 1;
    NotContainedWhenLonger(prefix[k..], "](");
  }

  // ---------------------------------------------------------------------------
  // The whole pass
  // ---------------------------------------------------------------------------

  /** The replacement function handed to `re.sub`; it reads the original answer `s`. */
  function ReplacementFor(s: string, primary: string, lookup: (string, nat) -> Option<string>): Mention -> string
  {
    m => Replacement(s, primary, lookup, m)
  }

  /** The matches of the answer `s` rewritten for the course `primary`; every decision reads `s`. */
  function RewriteLessons(s: string, primary: string, lookup: (string, nat) -> Option<string>): string
  {
    Sub(s, 0, LessonMatcher(s), ReplacementFor(s, primary, lookup))
  }

  /** Without any lesson link for the primary course, the answer is unchanged. */
  lemma RewriteWithoutLinks(s: string, primary: string, lookup: (string, nat) -> Option<string>)
    requires forall n: nat :: !IsLink(lookup(primary, n))
    ensures RewriteLessons(s, primary, lookup) == s
  {
    SubKeepsText(s, 0, LessonMatcher(s), ReplacementFor(s, primary, lookup));
  }

  /** An answer whose every match follows a `[` is unchanged: links already made are not wrapped again. */
  lemma RewriteKeepsBracketedMentions(s: string, primary: string, lookup: (string, nat) -> Option<string>)
    requires forall k | 0 <= k <= |s| && MentionAt(s, k).Some? :: 0 < k && s[k - 1] == '['
    ensures RewriteLessons(s, primary, lookup) == s
  {
    forall k | 0 <= k <= |s| && MentionAt(s, k).Some?
      ensures Replacement(s, primary, lookup, MentionAt(s, k).value) == MentionAt(s, k).value.text
    {
      BracketBeforeIsInside(s, k);
    }
    SubKeepsText(s, 0, LessonMatcher(s), ReplacementFor(s, primary, lookup));
  }

  /** The lesson-link pass as a function of the answer and its sources. */
  function LessonLinked(response: string, sources: seq<Source>, lookup: (string, nat) -> Option<string>): string
  {
    if sources == [] then response
    else match PrimaryCourse(sources)
      case None => response
      case Some(primary) => RewriteLessons(response, primary, lookup)
  }

  /**
    The answer is returned verbatim when there are no sources or when no
    source names a course.
   */
  lemma LessonLinkedVerbatim(response: string, sources: seq<Source>, lookup: (string, nat) -> Option<string>)
    requires forall src | src in sources :: CourseTitleOf(SourceText(src)) == ""
    ensures LessonLinked(response, sources, lookup) == response
  {
    if CourseTitles(sources) != [] {
      var t := CourseTitles(sources)[0];
      CourseTitlesMembers(sources, t);
    }
  }

  /** Otherwise the matches are rewritten for the most frequently named course. */
  lemma LessonLinkedUsesPrimary(response: string, sources: seq<Source>, lookup: (string, nat) -> Option<string>)
    requires exists src | src in sources :: CourseTitleOf(SourceText(src)) != ""
    ensures PrimaryCourse(sources).Some?
    ensures LessonLinked(response, sources, lookup)
         == RewriteLessons(response, MostCommon(CourseTitles(sources)), lookup)
  {
    var src :| src in sources && CourseTitleOf(SourceText(src)) != "";
    CourseTitlesMembers(sources, CourseTitleOf(SourceText(src)));
  }

  /**
    `_add_lesson_links`: collect the course titles of the sources with an
    append loop, pick the most common one, and rewrite the matches.
   */
  method AddLessonLinks(response: string, sources: seq<Source>, lookup: (string, nat) -> Option<string>)
    returns (r: string)
    ensures r == LessonLinked(response, sources, lookup)
  {
    if sources == [] {
      return response;
    }
    var titles: seq<string> := [];
    for i := 0 to |sources|
      invariant titles == CourseTitles(sources[..i])
    {
      assert sources[..i + 1][..i] == sources[..i];
      var text := SourceText(sources[i]);
      var title := if Contains(text, LessonDelimiter) then PrefixBefore(text, LessonDelimiter) else text;
      if title != "" {
        titles := titles + [title];
      }
    }
    assert sources[..|sources|] == sources;
    if titles == [] {
      return response;
    }
    var primary := MostCommon(titles);
    r := RewriteLessons(response, primary, lookup);
  }
}
