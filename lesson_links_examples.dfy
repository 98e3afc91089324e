/**
  A worked input for the lesson-link pass: one source naming a course and an
  answer mentioning one of its lessons with a leading zero.
 */
module LessonLinkExamples {
  import opened Wrappers
  import opened Text
  import opened LessonPattern
  import opened LessonLinks

  const Answer: string := "See lesson 06."
  const SourceLine: string := "C - Lesson 1"

  /** The one match of the answer: `lesson 06`, from 4 to 13. */
  lemma AnswerMatch()
    ensures MentionAt(Answer, 4) == Some(Mention(4, 13, Answer[4..13], Answer[4..10], Answer[11..13]))
  {
    assert AllSpaces(Answer[10..11]);
    SpacesEndAt(Answer, 10, 11);
    assert AllDigits(Answer[11..13]);
    DigitsEndAt(Answer, 11, 13);
  }

  /** No match starts before the word. */
  lemma NoMatchBefore()
    ensures forall k | 0 <= k < 4 :: MentionAt(Answer, k).None?
  {
    forall k | 0 <= k < 4 ensures MentionAt(Answer, k).None? {
      assert Answer[k] != 'L' && Answer[k] != 'l';
    }
  }

  /** The source names the course `C`. */
  lemma SourceNamesC()
    ensures CourseTitleOf(SourceLine) == "C"
  {
    assert StartsWith(SourceLine[1..], LessonDelimiter);
    assert Contains(SourceLine, LessonDelimiter);
    var r := CourseTitleOf(SourceLine);
    assert |r| <= 1;
    assert StartsWith(SourceLine, r + LessonDelimiter);
    assert SourceLine[|r|] == ' ';
  }

  lemma PrimaryIsC()
    ensures PrimaryCourse([Source(Some(SourceLine))]) == Some("C")
  {
    SourceNamesC();
    var src := [Source(Some(SourceLine))];
    assert src[..0] == [];
    assert CourseTitles(src) == ["C"];
  }

  /** With no `[` before it, the match is rewritten with the number as `6`. */
  lemma AnswerReplacement(lookup: (string, nat) -> Option<string>)
    requires lookup("C", 6) == Some("u")
    ensures Replacement(Answer, "C", lookup, MentionAt(Answer, 4).value) == "[" + Answer[4..10] + " 6](u)"
  {
    AnswerMatch();
    assert LookBehind(Answer, 4) == Answer[..4];
    assert '[' !in Answer[..4];
    var ds := Answer[11..13];
    assert ds == ['0'] + ['6'];
    LeadingZeroValue(['6']);
    assert DigitsValue(ds) == 6;
  }

  /** From the match on: the link, then the rest of the answer copied. */
  lemma AnswerFromMatch(lookup: (string, nat) -> Option<string>)
    requires lookup("C", 6) == Some("u")
    ensures Sub(Answer, 4, LessonMatcher(Answer), ReplacementFor(Answer, "C", lookup))
         == "[" + Answer[4..10] + " 6](u)" + Answer[13..]
  {
    var find := LessonMatcher(Answer);
    var repl := ReplacementFor(Answer, "C", lookup);
    AnswerMatch();
    AnswerReplacement(lookup);
    assert find(13).None?;
    assert Sub(Answer, 13, find, repl) == Answer[13..];
  }

  /**
    `_add_lesson_links("See lesson 06.", [{"text": "C - Lesson 1"}])` with a
    link `u` for lesson 6 of `C` gives `See [lesson 6](u).`: the word keeps
    its case and the leading zero is dropped.
   */
  lemma AnswerIsLinked(lookup: (string, nat) -> Option<string>)
    requires lookup("C", 6) == Some("u")
    ensures LessonLinked(Answer, [Source(Some(SourceLine))], lookup)
         == Answer[..4] + ("[" + Answer[4..10] + " 6](u)" + Answer[13..])
  {
    PrimaryIsC();
    NoMatchBefore();
    SubCopiesUnmatched(Answer, 0, 4, LessonMatcher(Answer), ReplacementFor(Answer, "C", lookup));
    AnswerFromMatch(lookup);
  }
}
