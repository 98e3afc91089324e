# RAG chatbot orchestrator: answer post-processing, folder ingestion, query order

This project is a Dafny model of the orchestrator class `RAGSystem` of a
retrieval-augmented course-materials chatbot (`backend/rag_system.py`).
The model covers four parts:

- **Course-link pass** (`_add_course_links`). The course catalog is sorted
  longest title first. The sort is stable. Course by course, each leftmost
  non-overlapping occurrence of `"title"` or `title` in the answer becomes
  `[title](link)`. The quoted form is tried first. A course without a link
  is skipped. So is a course whose `[title]` already appears anywhere in the
  answer. Modules `CourseLinks` and `CourseLinkExamples`.
- **Lesson-link pass** (`_add_lesson_links`). Each source text names a
  course: its prefix before the first `" - Lesson"`. The primary course is
  the most frequently named course. On a tie the one named first wins. Each
  match of `\b[Ll]esson\s+\d+\b` becomes `[<word> <n>](link)` when the
  primary course has a link for lesson `n`, unless the 50 characters before
  the match look like open link text. Modules `LessonPattern` (character
  classes, numerals, the hand-written matcher, leftmost substitution),
  `LessonLinks` and `LessonLinkExamples`. Module `SubstitutionWalk` follows
  the substitution position by position: which positions the scan reaches,
  and which stretch of the output each one produces. Module
  `LessonIdempotence` proves that the pass leaves its own output unchanged
  when no lesson link contains whitespace.
- **Folder ingestion** (`add_course_folder`). The store may be cleared
  first. Then, if the folder exists, every regular `.pdf`/`.docx`/`.txt`
  file that yields a course is added, unless a course of that title is
  already stored or was added earlier in the run. The two counters count
  only what was added. Modules `Ingestion` (the loop as a function of the
  listed entries) and `RagSystem` (the class that holds the store).
- **Query pipeline** (`query`). The method builds the prompt, fetches the
  history for a session and generates the answer. It then reads the sources
  the tools recorded, applies the course pass and then the lesson pass,
  resets the sources, and records the exchange for a session. The
  collaborator calls are recorded in a ghost trace. The two passes are the
  pure functions above. Module `RagSystem`.

Collaborators are parameters of the model:

- The vector store becomes state of the `RagSystem` class (titles and a
  chunk count), an input catalog, and a lesson-link lookup function.
- The AI generator becomes a function from prompt and history to answer.
- The session store becomes a history function.
- The search tools become the list of sources they recorded.
- The folder becomes the list of its entries. Each entry has a name, an
  is-a-file flag and the outcome of processing it.

Three remarks on the code as written:

- The comment at `backend/rag_system.py:182-183` says the longest-first
  sort keeps a short title from matching inside a long one. The code does
  not guarantee this. Once `MCP: Build Rich-Context AI Apps` becomes
  `[MCP: Build Rich-Context AI Apps](b)`, the text `[MCP]` is absent, so the
  `MCP` course is linked inside the first link's text.
  `CourseLinkExamples.ShortTitleLinkedInsideLongTitleLink` states the
  result, and `CourseLinkExamples.ShortTitleNestsInLongTitleLink` states the
  general case. The model follows the code.
- A comment in `backend/tests/test_rag_integration.py:93` calls the
  recorded query "wrapped in prompt". The code records the raw query.
  `RagSystem.QueryRecordsExchange` follows the code.
- The course pass is not idempotent on its own output. Take courses `AB`
  (link `la`) and `B]` (link `lb`) and the answer `[AB] AB`. The first pass
  skips `AB`, because `[AB]` is present, and links `B]`, giving
  `[A[B]](lb) AB`. In that text `[AB]` is gone, so a second pass links the
  final `AB`. `CourseLinkExamples.CourseLinkedNotIdempotent` states this.
  The lesson pass is idempotent when no lesson link contains whitespace
  (`LessonIdempotence.LessonLinkedIdempotent`).

## Model

| member | source | states |
|---|---|---|
| Text.LastIndexOf | backend/rag_system.py:250 | `rfind("[")`: absent exactly when the character does not occur; otherwise the position of an occurrence with none after it |
| Text.PrefixBefore | backend/rag_system.py:224 | `split(d)[0]` when `d` occurs: the text starts with the result followed by `d`, and `d` starts at no earlier position |
| Text.Lower | backend/rag_system.py:95 | `lower()` on ASCII: the length is kept, each capital `A`-`Z` becomes the character 32 code points higher, every other character is unchanged, and no capital is left |
| Text.LowerIdempotent | backend/rag_system.py:95 | lowering an already lowered name changes nothing |
| CourseLinks.ReplaceTitleEffect | backend/rag_system.py:197-205 | without an occurrence of the title the answer is unchanged; with one, the link appears in the result |
| CourseLinks.ReplaceTitleLength | backend/rag_system.py:197-205 | with a link longer than the quoted title, the result is never shorter, and strictly longer when the title occurs |
| CourseLinks.ReplaceTitleCopiesUnmatchedPrefix | backend/rag_system.py:199-205 | text before the first position where `"title"` or `title` matches is copied unchanged |
| CourseLinks.ReplaceTitleLeftmost | backend/rag_system.py:199-205 | the leftmost match, quoted form preferred and quotes included, is replaced by the link and scanning resumes right after it |
| CourseLinks.CourseStepChangesIff | backend/rag_system.py:188-205 | a course step changes the answer if and only if the course has a non-empty link, `[title]` is nowhere in the answer, and the title occurs |
| CourseLinks.CourseStepIdempotent | backend/rag_system.py:193-205 | applying the same course step twice equals applying it once |
| CourseLinks.InsertByLength | backend/rag_system.py:184 | inserting a course into the sorted list adds exactly that course (multiset) |
| CourseLinks.InsertByLengthKeepsOrder | backend/rag_system.py:184 | insertion keeps the list in non-increasing title-length order |
| CourseLinks.SortByTitleLength | backend/rag_system.py:184 | `sort(key=len(title), reverse=True)`: a permutation of the catalog in non-increasing title length |
| CourseLinks.InsertByLengthClasses | backend/rag_system.py:184 | insertion puts the course in front of the courses whose titles have the same length; the sort inserts earlier catalog entries last, so they end up first |
| CourseLinks.SortKeepsEqualLengthOrder | backend/rag_system.py:184 | the sort is stable: the courses of every title length keep their catalog order |
| CourseLinks.AddCourseLinks | backend/rag_system.py:177-207 | the loop over the sorted catalog returns the fold of the course steps over the sorted catalog |
| CourseLinks.LinkAllWithoutLinks | backend/rag_system.py:189-191 | courses without a link leave the answer unchanged |
| CourseLinks.CourseLinkedWithoutLinks | backend/rag_system.py:177-207 | a catalog without links leaves the answer unchanged |
| CourseLinkExamples.ReplaceTitleSkipsText | backend/rag_system.py:199-205 | text without quotes or the title's first character is copied by the scanner |
| CourseLinkExamples.ReplaceTitleAtFront | backend/rag_system.py:199-205 | a bare title at the front becomes the link |
| CourseLinkExamples.SortPair | backend/rag_system.py:184 | two courses are put longest title first |
| CourseLinkExamples.CourseLinkedPair | backend/rag_system.py:184-205 | two courses are applied longest title first |
| CourseLinkExamples.ReplaceSingleMention | backend/rag_system.py:199-205 | a single bare occurrence is replaced and all other text is kept |
| CourseLinkExamples.SingleMentionIsLinked | backend/rag_system.py:177-207 | one course whose title occurs once gets exactly that occurrence linked |
| CourseLinkExamples.PythonCourseIsLinked | backend/tests/test_rag_integration.py:224-247 | `Check out Python 101 for more info.` becomes `Check out [Python 101](https://example.com/python) for more info.` |
| CourseLinkExamples.LongTitleLinkedWhole | backend/rag_system.py:197-205 | an answer that is exactly a course title becomes that course's link |
| CourseLinkExamples.ShortTitleLinkedInLink | backend/rag_system.py:193-205 | inside `[short rest](lb)` the text `[short]` is absent, so `short` is linked inside the link text |
| CourseLinkExamples.ShortTitleNestsInLongTitleLink | backend/rag_system.py:182-205 | with a short title that starts a longer one, the longest-first order still yields `[[short](la) rest](lb)` |
| CourseLinkExamples.ShortTitleLinkedInsideLongTitleLink | backend/rag_system.py:182-183 | the `MCP` example of the comment gives `[[MCP](a): Build Rich-Context AI Apps](b)` |
| LessonPattern.DigitChar | backend/rag_system.py:258 | the digit character of a value below ten is a digit that reads back as that value |
| LessonPattern.NatToDecimal | backend/rag_system.py:258 | `str(n)` is a non-empty string of digits |
| LessonPattern.StripLeadingZeros | backend/rag_system.py:244 | the result is a suffix of the digits, non-empty, without a leading zero unless it is one digit |
| LessonPattern.DecimalRoundTrip | backend/rag_system.py:244-258 | `int(str(n)) == n` |
| LessonPattern.LeadingZeroValue | backend/rag_system.py:244 | a leading zero does not change the value |
| LessonPattern.NonZeroLeadValue | backend/rag_system.py:244 | a numeral without a leading zero has a positive value, at least 10 with more than one digit |
| LessonPattern.CanonicalNumeral | backend/rag_system.py:244-258 | `str(int(ds)) == ds` for a numeral without leading zeros |
| LessonPattern.StripLeadingZerosValue | backend/rag_system.py:244 | stripping leading zeros keeps the value |
| LessonPattern.DecimalOfDigits | backend/rag_system.py:244-258 | `str(int(ds))` is `ds` without its leading zeros |
| LessonPattern.SpacesEndIsRun | backend/rag_system.py:240 | `\s+` is taken whole: all whitespace, followed by the end or a non-space |
| LessonPattern.DigitsEndIsRun | backend/rag_system.py:240 | `\d+` is taken whole: all digits, followed by the end or a non-digit |
| LessonPattern.SpacesEndAt | backend/rag_system.py:240 | a whitespace run followed by a non-space ends exactly there |
| LessonPattern.DigitsEndAt | backend/rag_system.py:240 | a digit run followed by a non-digit ends exactly there |
| LessonPattern.MentionAt | backend/rag_system.py:240-243 | a reported match starts at the position, covers the text it reports, starts with `[Ll]esson` as written, and has digits |
| LessonPattern.MentionAtIsMention | backend/rag_system.py:240 | every reported match matches `\b[Ll]esson\s+\d+\b` |
| LessonPattern.MentionIsMentionAt | backend/rag_system.py:240 | every match of the pattern at a position is reported there, with the same end |
| LessonPattern.LessonMatcher | backend/rag_system.py:240-262 | the matcher handed to the substitution reports exactly the matches `MentionAt` finds |
| LessonPattern.SubCopiesUnmatched | backend/rag_system.py:262 | `re.sub` copies text in which no match starts |
| LessonPattern.SubKeepsText | backend/rag_system.py:252-262 | when every match is replaced by its own text, `re.sub` returns the text unchanged |
| LessonLinks.CourseTitleOf | backend/rag_system.py:222-226 | the whole text without `" - Lesson"`; otherwise the prefix before the first `" - Lesson"` |
| LessonLinks.CourseTitlesMembers | backend/rag_system.py:220-228 | a title is collected if and only if it is non-empty and some source names it |
| Text.FirstIndex | backend/rag_system.py:236-237 | the first position of an element in a list: the title order `Counter` keeps, and the order of calls in a trace |
| LessonLinks.LeaderFrom | backend/rag_system.py:236-237 | the first position, from a start on, of a title with the maximal count |
| LessonLinks.MostCommon | backend/rag_system.py:236-237 | `Counter.most_common(1)[0][0]`: a listed title of maximal count, first listed among the tied ones |
| LessonLinks.MostCommonIsUnique | backend/rag_system.py:236-237 | those three properties determine the title |
| LessonLinks.ReplacementText | backend/rag_system.py:242-260 | a match stays verbatim inside link text or without a non-empty link; otherwise it becomes `[<word> <digits without leading zeros>](link)` |
| LessonLinks.BracketBeforeIsInside | backend/rag_system.py:246-252 | a `[` right before a match marks it as link text |
| LessonLinks.RewriteWithoutLinks | backend/rag_system.py:254-260 | without lesson links for the primary course the answer is unchanged |
| LessonLinks.RewriteKeepsBracketedMentions | backend/rag_system.py:246-252 | an answer whose every match follows a `[`, such as one already linked, is unchanged |
| LessonLinks.LessonLinkedVerbatim | backend/rag_system.py:215-231 | the answer is returned verbatim when no source names a course, including when there are no sources |
| LessonLinks.LessonLinkedUsesPrimary | backend/rag_system.py:230-262 | otherwise the matches are rewritten for the most common course title |
| LessonLinks.AddLessonLinks | backend/rag_system.py:209-262 | the append loop and the rewriting equal the lesson-link pass as a function of answer and sources |
| LessonLinkExamples.AnswerMatch | backend/rag_system.py:240 | in `See lesson 06.` the match is `lesson 06` |
| LessonLinkExamples.NoMatchBefore | backend/rag_system.py:240 | no match starts before the word |
| LessonLinkExamples.SourceNamesC | backend/rag_system.py:222-224 | the source `C - Lesson 1` names course `C` |
| LessonLinkExamples.PrimaryIsC | backend/rag_system.py:220-237 | a single source naming `C` makes `C` primary |
| LessonLinkExamples.AnswerReplacement | backend/rag_system.py:242-258 | `lesson 06` with a link `u` for lesson 6 becomes `[lesson 6](u)` |
| LessonLinkExamples.AnswerFromMatch | backend/rag_system.py:262 | from the match on, the link is followed by the rest of the answer unchanged |
| LessonLinkExamples.AnswerIsLinked | backend/rag_system.py:209-262 | `See lesson 06.` becomes `See [lesson 6](u).` |
| CourseLinkExamples.SortEqualPair | backend/rag_system.py:184 | two titles of equal length keep their catalog order |
| CourseLinkExamples.CatalogPasses | backend/rag_system.py:184-205 | the catalog `AB`, `B]` is applied as the `AB` step and then the `B]` step |
| CourseLinkExamples.ReplaceTitleCopiesMismatch | backend/rag_system.py:199-205 | a character that is no quote and is not followed by the title's second character is copied |
| CourseLinkExamples.FirstPass | backend/rag_system.py:184-205 | `[AB] AB` becomes `[A[B]](lb) AB`: `AB` is skipped because `[AB]` occurs, and `B]` is linked |
| CourseLinkExamples.SecondPass | backend/rag_system.py:184-205 | `[A[B]](lb) AB` becomes `[A[B]](lb) [AB](la)`: `[AB]` no longer occurs, `[B]]` does |
| CourseLinkExamples.CourseLinkedNotIdempotent | backend/rag_system.py:177-207 | a second course pass over the first pass's output can change it |
| SubstitutionWalk.SubSplit | backend/rag_system.py:262 | the output of `re.sub` up to a reached position, followed by the output from there, is the whole output |
| SubstitutionWalk.PieceInOutput | backend/rag_system.py:262 | the piece of a reached position stands in the output right after the output before it |
| SubstitutionWalk.Locate | backend/rag_system.py:262 | every position of the output lies in the piece that some reached position of the input produces |
| SubstitutionWalk.ReachedOrInside | backend/rag_system.py:262 | a position is reached by the scan, or it lies strictly inside a match found at a reached position |
| SubstitutionWalk.CharBefore | backend/rag_system.py:262 | before the image of a reached position, the output holds the input's character before it, unless a rewritten match ends there |
| SubstitutionWalk.SubKeepsUntil | backend/rag_system.py:262 | a stretch whose matches are all kept and end inside it is copied unchanged, followed by the output from its end |
| SubstitutionWalk.CopiedStretch | backend/rag_system.py:262 | such a stretch after a reached position stands in the output at that position's image |
| SubstitutionWalk.FirstRewrite | backend/rag_system.py:262 | the first position from a start on where a match is rewritten, with every match before it kept |
| LessonIdempotence.LinkForm | backend/rag_system.py:258 | the link `[<word> <n>](<link>)`, five characters longer than its parts |
| LessonIdempotence.NoMatchInsideMatch | backend/rag_system.py:240 | no match of `\b[Ll]esson\s+\d+\b` starts strictly inside another |
| LessonIdempotence.InsideWitness | backend/rag_system.py:248-250 | link text has a `[` at most 50 characters back, with no later `[` and no `](` after it |
| LessonIdempotence.InsideFromWitness | backend/rag_system.py:248-250 | such a `[` makes the position link text |
| LessonIdempotence.MentionInLinkForm | backend/rag_system.py:240-258 | a match inside a written link whose parts hold no whitespace starts right after its `[` |
| LessonIdempotence.ReplacementShape | backend/rag_system.py:246-260 | every match is kept or replaced by text starting with `[`, and matches in link text are kept |
| LessonIdempotence.RewrittenShape | backend/rag_system.py:254-258 | a rewritten match becomes the link form with a non-empty link from the lookup |
| LessonIdempotence.KeptStretch | backend/rag_system.py:262 | from a kept position up to the next rewritten match, the output copies the input, and then starts with `[` |
| LessonIdempotence.KeptPieceSame | backend/rag_system.py:240-262 | a match of the output inside a kept stretch is a kept match of the input with the same digits, still link text if it was |
| LessonIdempotence.InsideCarries | backend/rag_system.py:248-252 | a reached match in link text has its image in the output in link text too |
| LessonIdempotence.RewrittenPieceInside | backend/rag_system.py:246-258 | a match of the output inside a written link is link text |
| LessonIdempotence.KeptMentionKeptAgain | backend/rag_system.py:246-260 | a kept match seen again with the same digits, in link text if it was, is kept again |
| LessonIdempotence.SecondPassKeeps | backend/rag_system.py:242-260 | every match of the pass's output is replaced by its own text when the pass runs again for the same course |
| LessonIdempotence.RewriteLessonsIdempotent | backend/rag_system.py:240-262 | rewriting the matches a second time for the same course changes nothing |
| LessonIdempotence.LessonLinkedIdempotent | backend/rag_system.py:209-262 | with links free of whitespace, the lesson pass applied to its own output with the same sources returns it unchanged |
| Ingestion.Titles | backend/rag_system.py:107 | the titles of the added courses, position by position |
| Ingestion.TitleSetAppend | backend/rag_system.py:114 | the known-title set of two runs is the union of their sets |
| Ingestion.TotalChunksAppend | backend/rag_system.py:110 | chunk totals add up across runs |
| Ingestion.IngestAppend | backend/rag_system.py:93-114 | processing two lists of entries in turn is processing their concatenation, starting the second with what the first added |
| Ingestion.IngestSnoc | backend/rag_system.py:93-114 | one more entry adds its course exactly when it yields a title not known by then |
| Ingestion.IngestStep | backend/rag_system.py:95-114 | the loop's step also updates the known set, the title list and the chunk total |
| Ingestion.IngestFresh | backend/rag_system.py:90-105 | no added title was stored before the run |
| Ingestion.IngestDistinct | backend/rag_system.py:105-114 | no title is added twice in one run |
| Ingestion.IngestMembers | backend/rag_system.py:93-114 | a title is added if and only if it was not stored and some regular course document yields it |
| Ingestion.IngestKeepsFirstOccurrence | backend/rag_system.py:105-114 | each added course records the chunk count of the first document yielding its title |
| Ingestion.SkippedEntryChangesNothing | backend/rag_system.py:95-118 | an entry that is not a course document, yields no course or fails changes nothing, and the loop goes on |
| Ingestion.IngestAgainAddsNothing | backend/rag_system.py:89-114 | a second run over the same folder adds nothing |
| Ingestion.StoredTitlesStayDistinct | backend/rag_system.py:89-114 | a store with distinct titles keeps them distinct after a run |
| Ingestion.DocumentExamples | backend/rag_system.py:95-97 | `A.PDF` counts; a directory named `a.pdf` and a file `a.md` do not |
| RagSystem.QueryFetchesHistoryOnlyWithSession | backend/rag_system.py:139-141 | history is fetched, for that session, if and only if the session id is present and non-empty |
| RagSystem.PipelineCounts | backend/rag_system.py:152-161 | sources are read once and reset once |
| RagSystem.PipelineOrder | backend/rag_system.py:144-161 | generate, read sources, course pass, lesson pass and reset come in this order, right after the history fetch |
| RagSystem.PipelineFacts | backend/rag_system.py:139-165 | in any trace of history fetches, the pipeline and exchange records, sources are read and reset once, in pipeline order |
| RagSystem.QueryOrdersSourcesAndPasses | backend/rag_system.py:144-161 | in a query, sources are read and reset exactly once, after generation, and the course pass precedes the lesson pass |
| RagSystem.QueryRecordsExchange | backend/rag_system.py:163-165 | the exchange is recorded, with the raw query and the final answer, if and only if there is a session, and only as the last call |
| RagSystem.RagSystem.constructor | backend/rag_system.py:89-90 | a system over a store holding given titles and chunks, with no sources and an empty trace |
| RagSystem.RagSystem.AddCourseFolder | backend/rag_system.py:64-120 | clears first when asked; a missing folder then gives `(0, 0)`; otherwise the counters and the new store are those of the run over the entries |
| RagSystem.RagSystem.AddEntries | backend/rag_system.py:89-120 | the loop: the stored titles grow by the run's titles, the chunk count by its chunks, and the counters report the run |
| RagSystem.RagSystem.Query | backend/rag_system.py:122-168 | the answer is the lesson pass over the course pass over the generated answer; the tool sources are returned and then reset; the trace grows by the query's calls; the store is unchanged |

## Left out

- Vector-store I/O: the catalog, the lesson-link lookup, clearing and
  adding are parameters or class state. The chunks themselves,
  `add_course_metadata`, `add_course_content` and the ChromaDB behaviour
  are not modelled.
- RagSystem.RagSystem.AddCourseFolder: a failure while storing one course
  is modelled as that entry adding nothing. In the code the run's known-title
  set gains the title only at `backend/rag_system.py:114`, the last statement
  of the `try`, so a failure never adds it there. What depends on where the
  failure happens is the store: once line 107 has stored the course's
  metadata, the title stays stored, and the next call's
  `get_existing_course_titles` sees it.
- RagSystem.RagSystem.AddEntries: for the same reason, the ensures
  `storedTitles == old(storedTitles) + Titles(added)` does not cover a
  failure in `add_course_content` at `backend/rag_system.py:108`: the code
  then leaves the title in the store without counting the course.
- Document parsing and the filesystem (`os.listdir`, `os.path.isfile`,
  `os.path.exists`): the folder is given as its entries and their outcomes,
  in listing order. The order of `os.listdir` is whatever the caller gives.
- `add_course_document`, `get_course_analytics` and the constructor's
  wiring of collaborators are not modelled.
- The AI generator, its tool rounds, the tool definitions and the search
  tools are given functions and inputs. The tool definitions passed to the
  generator are not traced.
- Session storage is a history function. The trace records the exchange,
  but the stored history is not updated.
- The lesson-link lookup calls are not recorded in the trace. The lookup
  enters only through the answer it helps produce.
- `print` logging is left out.
- Character classes are ASCII: `\w`, `\s` and `\d` and `lower()` do not
  cover Unicode letters, spaces or digits, and `int()` on non-ASCII digits
  is not modelled. Python's `\s` also matches the separators `\x1c` to
  `\x1f`, which `LessonPattern.IsSpace` leaves out.
- LessonPattern.DigitsValue: on CPython 3.11 and later `int()` raises
  `ValueError` for a numeral of more than 4300 digits
  (`backend/rag_system.py:244`), so the whole call fails. The model reads
  any number of digits and rewrites such a match.
- CourseLinks.CourseLinked: the `[title]` check at
  `backend/rag_system.py:194-195` and the `[` look-behind at 247-251 are
  meant to leave already-linked text alone. The course pass is still not
  idempotent on its own output, and the model follows the code:
  `CourseLinkExamples.CourseLinkedNotIdempotent` shows an answer that a
  second pass changes. Only a single course step is idempotent
  (`CourseLinks.CourseStepIdempotent`).
- LessonIdempotence.LessonLinkedIdempotent: requires that no lesson link
  contains whitespace. A link such as `x lesson 1` would put a new match
  into the output's `](...)` part, outside link text, and a second pass
  could rewrite it.
- CourseLinks.CourseStep: a course with a link must have a non-empty
  title. An empty title makes the pattern match the empty string, which
  the model does not cover.
- CourseLinks.SortByTitleLength: `list.sort` sorts the fetched list in
  place. The model returns a sorted copy, because the list is not used
  afterwards.
- RagSystem.RagSystem.Query: integer widths, exceptions from
  collaborators, and concurrency between queries are not modelled.
