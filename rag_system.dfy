/**
  The orchestrator (`RAGSystem`): folder ingestion into the course store and
  the query pipeline. Collaborators (vector store, session manager, AI
  generator, tool manager) are modelled by the state they hold here and by
  the calls recorded in a ghost trace.
 */
module RagSystem {
  import opened Wrappers
  import opened Text
  import opened CourseLinks
  import opened LessonLinks
  import opened Ingestion

  /** The collaborator calls `query` makes, in the order it makes them. */
  datatype Call =
    | GetHistory(session: string)                        // session_manager.get_conversation_history
    | GenerateResponse(prompt: string, history: Option<string>)  // ai_generator.generate_response
    | GetLastSources                                     // tool_manager.get_last_sources
    | GetCoursesMetadata                                 // the course-link pass reads the catalog
    | LinkLessons(sources: seq<Source>)                  // the lesson-link pass over these sources
    | ResetSources                                       // tool_manager.reset_sources
    | AddExchange(session: string, query: string, response: string)  // session_manager.add_exchange

  /** `if session_id:` — absent or empty means no session. */
  predicate HasSession(sessionId: Option<string>)
  {
    sessionId.Some? && sessionId.value != ""
  }

  const PromptPrefix: string := "Answer this question about course materials: "

  /** The prompt handed to the generator. */
  function Prompt(query: string): string
  {
    PromptPrefix + query
  }

  /** The history passed to the generator: fetched only for a session. */
  function HistoryFor(sessionId: Option<string>, historyOf: string -> Option<string>): Option<string>
  {
    if HasSession(sessionId) then historyOf(sessionId.value) else None
  }

  /** The fixed middle of every query: generate, read sources, course pass, lesson pass, reset. */
  function Pipeline(g: Call, sources: seq<Source>): seq<Call>
  {
    [g, GetLastSources, GetCoursesMetadata, LinkLessons(sources), ResetSources]
  }

  /** The calls of one query, given the history it fetched and the answer it produced. */
  function QueryCalls(query: string, sessionId: Option<string>, history: Option<string>,
                      sources: seq<Source>, response: string): seq<Call>
  {
    HistoryCalls(sessionId) + Pipeline(GenerateResponse(Prompt(query), history), sources)
    + ExchangeCalls(sessionId, query, response)
  }

  /** Appending the five pipeline calls one at a time appends the pipeline. */
  lemma PipelineSteps(t: seq<Call>, g: Call, sources: seq<Source>)
    ensures t + [g] + [GetLastSources] + [GetCoursesMetadata] + [LinkLessons(sources)] + [ResetSources]
         == t + Pipeline(g, sources)
  {
  }

  /** The three parts of a query, appended in turn, make up its calls. */
  lemma QueryCallsJoin(t: seq<Call>, t0: seq<Call>, t1: seq<Call>, t2: seq<Call>,
                       query: string, sessionId: Option<string>, history: Option<string>,
                       sources: seq<Source>, response: string)
    requires t0 == t + HistoryCalls(sessionId)
    requires t1 == t0 + Pipeline(GenerateResponse(Prompt(query), history), sources)
    requires t2 == t1 + ExchangeCalls(sessionId, query, response)
    ensures t2 == t + QueryCalls(query, sessionId, history, sources, response)
  {
  }

  /** The history fetch, made only for a session. */
  function HistoryCalls(sessionId: Option<string>): seq<Call>
  {
    if HasSession(sessionId) then [GetHistory(sessionId.value)] else []
  }

  /** The exchange record, made only for a session. */
  function ExchangeCalls(sessionId: Option<string>, query: string, response: string): seq<Call>
  {
    if HasSession(sessionId) then [AddExchange(sessionId.value, query, response)] else []
  }

  lemma {:induction false} IndexOfCallPrefix(a: seq<Call>, b: seq<Call>, c: Call)
    requires c in a
    ensures FirstIndex(a + b, c) == FirstIndex(a, c)
  {
    if a[0] != c {
      assert (a + b)[1..] == a[1..] + b;
      IndexOfCallPrefix(a[1..], b, c);
    }
  }

  lemma {:induction false} IndexOfCallAfter(a: seq<Call>, b: seq<Call>, c: Call)
    requires c !in a && c in b
    ensures FirstIndex(a + b, c) == |a| + FirstIndex(b, c)
  {
    if a != [] {
      assert (a + b)[1..] == a[1..] + b;
      IndexOfCallAfter(a[1..], b, c);
    } else {
      assert a + b == b;
    }
  }

  /** History is fetched, for the given session, exactly when there is a session. */
  lemma QueryFetchesHistoryOnlyWithSession(
    query: string, sessionId: Option<string>, history: Option<string>, sources: seq<Source>, response: string, s: string)
    ensures GetHistory(s) in QueryCalls(query, sessionId, history, sources, response)
        <==> HasSession(sessionId) && s == sessionId.value
  {
    var mid := Pipeline(GenerateResponse(Prompt(query), history), sources);
    var post := if HasSession(sessionId) then [AddExchange(sessionId.value, query, response)] else [];
    assert GetHistory(s) !in mid + post;
    if HasSession(sessionId) {
      assert QueryCalls(query, sessionId, history, sources, response) == [GetHistory(sessionId.value)] + (mid + post);
    } else {
      assert QueryCalls(query, sessionId, history, sources, response) == mid + post;
    }
  }

  lemma PipelineCounts(pre: seq<Call>, g: Call, sources: seq<Source>, post: seq<Call>)
    requires forall c | c in pre :: c.GetHistory?
    requires forall c | c in post :: c.AddExchange?
    requires g.GenerateResponse?
    ensures multiset(pre + Pipeline(g, sources) + post)[GetLastSources] == 1
    ensures multiset(pre + Pipeline(g, sources) + post)[ResetSources] == 1
  {
    var mid := Pipeline(g, sources);
    assert multiset(pre + mid + post) == multiset(pre) + multiset(mid) + multiset(post);
    assert GetLastSources !in pre && GetLastSources !in post;
    assert ResetSources !in pre && ResetSources !in post;
  }

  /** A call first made in the middle part is found at its place there, shifted by the prefix. */
  lemma IndexOfCallInMiddle(pre: seq<Call>, mid: seq<Call>, post: seq<Call>, c: Call)
    requires c !in pre && c in mid
    ensures c in pre + mid + post
    ensures FirstIndex(pre + mid + post, c) == |pre| + FirstIndex(mid, c)
  {
    assert pre + mid + post == pre + (mid + post);
    IndexOfCallPrefix(mid, post, c);
    IndexOfCallAfter(pre, mid + post, c);
  }

  lemma PipelineOrder(pre: seq<Call>, g: Call, sources: seq<Source>, post: seq<Call>)
    requires forall c | c in pre :: c.GetHistory?
    requires g.GenerateResponse?
    ensures var calls := pre + Pipeline(g, sources) + post;
            && g in calls && GetLastSources in calls && GetCoursesMetadata in calls
            && LinkLessons(sources) in calls && ResetSources in calls
            && FirstIndex(calls, g) == |pre|
            && FirstIndex(calls, GetLastSources) == |pre| + 1
            && FirstIndex(calls, GetCoursesMetadata) == |pre| + 2
            && FirstIndex(calls, LinkLessons(sources)) == |pre| + 3
            && FirstIndex(calls, ResetSources) == |pre| + 4
  {
    var mid := Pipeline(g, sources);
    assert FirstIndex(mid, g) == 0;
    IndexOfCallInMiddle(pre, mid, post, g);
    assert FirstIndex(mid, GetLastSources) == 1;
    IndexOfCallInMiddle(pre, mid, post, GetLastSources);
    assert FirstIndex(mid, GetCoursesMetadata) == 2;
    IndexOfCallInMiddle(pre, mid, post, GetCoursesMetadata);
    assert FirstIndex(mid, LinkLessons(sources)) == 3;
    IndexOfCallInMiddle(pre, mid, post, LinkLessons(sources));
    assert FirstIndex(mid, ResetSources) == 4;
    IndexOfCallInMiddle(pre, mid, post, ResetSources);
  }

  /** The history part holds only fetches. */
  lemma HistoryCallsFetch(sessionId: Option<string>)
    ensures forall c | c in HistoryCalls(sessionId) :: c.GetHistory?
  {
  }

  /** The exchange part holds only exchange records. */
  lemma ExchangeCallsRecord(sessionId: Option<string>, query: string, response: string)
    ensures forall c | c in ExchangeCalls(sessionId, query, response) :: c.AddExchange?
  {
  }

  /** The order facts of any trace made of fetches, the pipeline, and exchange records. */
  lemma PipelineFacts(pre: seq<Call>, g: Call, sources: seq<Source>, post: seq<Call>)
    requires forall c | c in pre :: c.GetHistory?
    requires forall c | c in post :: c.AddExchange?
    requires g.GenerateResponse?
    ensures var calls := pre + Pipeline(g, sources) + post;
            && multiset(calls)[GetLastSources] == 1
            && multiset(calls)[ResetSources] == 1
            && g in calls && GetLastSources in calls && GetCoursesMetadata in calls
            && LinkLessons(sources) in calls && ResetSources in calls
            && FirstIndex(calls, g) < FirstIndex(calls, GetLastSources)
            && FirstIndex(calls, GetLastSources) < FirstIndex(calls, GetCoursesMetadata)
            && FirstIndex(calls, GetCoursesMetadata) < FirstIndex(calls, LinkLessons(sources))
            && FirstIndex(calls, LinkLessons(sources)) < FirstIndex(calls, ResetSources)
  {
    PipelineCounts(pre, g, sources, post);
    PipelineOrder(pre, g, sources, post);
  }

  /**
    Sources are read once, after the answer is generated and before both link
    passes; the course pass comes before the lesson pass; the sources are
    reset exactly once, after the passes that use them.
   */
  lemma QueryOrdersSourcesAndPasses(
    query: string, sessionId: Option<string>, history: Option<string>, sources: seq<Source>, response: string)
    ensures var calls := QueryCalls(query, sessionId, history, sources, response);
            && multiset(calls)[GetLastSources] == 1
            && multiset(calls)[ResetSources] == 1
            && GetCoursesMetadata in calls && LinkLessons(sources) in calls
            && FirstIndex(calls, GenerateResponse(Prompt(query), history)) < FirstIndex(calls, GetLastSources)
            && FirstIndex(calls, GetLastSources) < FirstIndex(calls, GetCoursesMetadata)
            && FirstIndex(calls, GetCoursesMetadata) < FirstIndex(calls, LinkLessons(sources))
            && FirstIndex(calls, LinkLessons(sources)) < FirstIndex(calls, ResetSources)
  {
    HistoryCallsFetch(sessionId);
    ExchangeCallsRecord(sessionId, query, response);
    PipelineFacts(HistoryCalls(sessionId), GenerateResponse(Prompt(query), history), sources,
                  ExchangeCalls(sessionId, query, response));
  }

  /**
    The exchange is recorded exactly when there is a session, as the last
    call, with the raw query (not the prompt) and the final answer.
   */
  lemma QueryRecordsExchange(
    query: string, sessionId: Option<string>, history: Option<string>, sources: seq<Source>, response: string)
    ensures var calls := QueryCalls(query, sessionId, history, sources, response);
            (HasSession(sessionId) <==> calls[|calls| - 1].AddExchange?)
            && (HasSession(sessionId) ==> calls[|calls| - 1] == AddExchange(sessionId.value, query, response))
            && forall k | 0 <= k < |calls| - 1 :: !calls[k].AddExchange?
  {
  }

  class RagSystem {
    /** Titles of the courses in the store, in the order they were added. */
    var storedTitles: seq<string>
    /** Number of content chunks in the store. */
    var storedChunks: nat
    /** The sources the search tools recorded during the last generation. */
    var lastSources: seq<Source>
    /** The collaborator calls made by queries so far. */
    ghost var trace: seq<Call>

    /** A system over a store that already holds `titles` and `chunks`. */
    constructor(titles: seq<string>, chunks: nat)
      ensures storedTitles == titles && storedChunks == chunks
      ensures lastSources == [] && trace == []
    {
      storedTitles := titles;
      storedChunks := chunks;
      lastSources := [];
      trace := [];
    }

    /** Notes one collaborator call in the trace; nothing else changes. */
    ghost method Record(c: Call)
      modifies this
      ensures trace == old(trace) + [c]
      ensures storedTitles == old(storedTitles) && storedChunks == old(storedChunks)
      ensures lastSources == old(lastSources)
    {
      trace := trace + [c];
    }

    /**
      `add_course_folder`: optionally clear the store, then, if the folder
      exists, add every new course its course documents yield; report the
      number of courses and chunks added.
     */
    method AddCourseFolder(folderExists: bool, clearExisting: bool, entries: seq<FolderEntry>)
      returns (courses: nat, chunks: nat)
      modifies this
      ensures var base := if clearExisting then [] else old(storedTitles);
              var baseChunks := if clearExisting then 0 else old(storedChunks);
              var added := if folderExists then Ingest((set t | t in base), entries) else [];
              && courses == |added| && chunks == TotalChunks(added)
              && storedTitles == base + Titles(added)
              && storedChunks == baseChunks + chunks
      ensures lastSources == old(lastSources) && trace == old(trace)
    {
      if clearExisting {
        storedTitles := [];
        storedChunks := 0;
      }
      if !folderExists {
        return 0, 0;
      }
      courses, chunks := AddEntries(entries);
    }

    /** The loop of `add_course_folder`: add each entry's course unless its title is already stored. */
    method AddEntries(entries: seq<FolderEntry>) returns (courses: nat, chunks: nat)
      modifies this
      ensures var added := Ingest((set t | t in old(storedTitles)), entries);
              && courses == |added| && chunks == TotalChunks(added)
              && storedTitles == old(storedTitles) + Titles(added)
              && storedChunks == old(storedChunks) + chunks
      ensures lastSources == old(lastSources) && trace == old(trace)
    {
      var known := set t | t in storedTitles;
      ghost var known0 := known;
      var titles, total := storedTitles, storedChunks;
      courses, chunks := 0, 0;
      for i := 0 to |entries|
        invariant known == known0 + TitleSet(Ingest(known0, entries[..i]))
        invariant courses == |Ingest(known0, entries[..i])|
        invariant chunks == TotalChunks(Ingest(known0, entries[..i]))
        invariant titles == storedTitles + Titles(Ingest(known0, entries[..i]))
        invariant total == storedChunks + chunks
        modifies {}
      {
        var e := entries[i];
        IngestStep(known0, entries, i);
        if IsCourseDocument(e) && e.outcome.Parsed? {
          var title, n := e.outcome.title, e.outcome.chunkCount;
          if title !in known {
            assert Adds(known, e);
            titles := titles + [title];
            total := total + n;
            courses := courses + 1;
            chunks := chunks + n;
            known := known + {title};
          }
        }
      }
      assert entries[..|entries|] == entries;
      storedTitles, storedChunks := titles, total;
    }

    /**
      `query`: build the prompt, fetch the history for a session, generate
      the answer (during which the search tools record `toolSources`), read
      the sources, apply the course-link pass and then the lesson-link pass,
      reset the sources, and record the exchange for a session.
     */
    method Query(
      query: string, sessionId: Option<string>,
      historyOf: string -> Option<string>,
      generate: (string, Option<string>) -> string,
      toolSources: seq<Source>,
      catalog: seq<CourseMeta>,
      lookup: (string, nat) -> Option<string>)
      returns (response: string, sources: seq<Source>)
      requires forall c | c in catalog :: WellFormed(c)
      modifies this
      ensures var history := HistoryFor(sessionId, historyOf);
              response == LessonLinked(CourseLinked(catalog, generate(Prompt(query), history)), toolSources, lookup)
      ensures sources == toolSources
      ensures lastSources == []
      ensures trace == old(trace) + QueryCalls(query, sessionId, HistoryFor(sessionId, historyOf), toolSources, response)
      ensures storedTitles == old(storedTitles) && storedChunks == old(storedChunks)
    {
      var prompt := Prompt(query);
      var history: Option<string> := None;
      if HasSession(sessionId) {
        history := historyOf(sessionId.value);
        Record(GetHistory(sessionId.value));
      }
      ghost var t0 := trace;
      response := generate(prompt, history);
      lastSources := toolSources;
      Record(GenerateResponse(prompt, history));
      sources := lastSources;
      Record(GetLastSources);
      Record(GetCoursesMetadata);
      response := AddCourseLinks(response, catalog);
      Record(LinkLessons(sources));
      response := AddLessonLinks(response, sources, lookup);
      lastSources := [];
      Record(ResetSources);
      ghost var t1 := trace;
      if HasSession(sessionId) {
        Record(AddExchange(sessionId.value, query, response));
      }
      PipelineSteps(t0, GenerateResponse(prompt, history), sources);
      QueryCallsJoin(old(trace), t0, t1, trace, query, sessionId, history, sources, response);
    }
  }
}
