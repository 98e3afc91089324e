/**
  Folder ingestion with de-duplication (`RAGSystem.add_course_folder`):
  which folder entries add a course, and what the two counters report.
 */
module Ingestion {
  import opened Text

  /** What processing one document yields. */
  datatype Outcome =
    | Parsed(title: string, chunkCount: nat)  // a course and the number of its chunks
    | NoCourse                                // processing returned no course
    | Failed                                  // processing or storing raised an exception

  /** One name listed in the folder. */
  datatype FolderEntry = FolderEntry(name: string, isFile: bool, outcome: Outcome)

  /** A course added to the store. */
  datatype AddedCourse = AddedCourse(title: string, chunkCount: nat)

  /** A regular file whose lower-cased name ends in `.pdf`, `.docx` or `.txt`. */
  predicate IsCourseDocument(e: FolderEntry)
  {
    var n := Lower(e.name);
    e.isFile && (EndsWith(n, ".pdf") || EndsWith(n, ".docx") || EndsWith(n, ".txt"))
  }

  /** A course document that yields a course. */
  predicate YieldsCourse(e: FolderEntry)
  {
    IsCourseDocument(e) && e.outcome.Parsed?
  }

  /** The entry adds its course when its title is not known yet. */
  predicate Adds(known: set<string>, e: FolderEntry)
  {
    YieldsCourse(e) && e.outcome.title !in known
  }

  /** The courses added, in folder order, starting from the titles already known. */
  function Ingest(known: set<string>, entries: seq<FolderEntry>): seq<AddedCourse>
    decreases |entries|
  {
    if entries == [] then []
    else
      var e := entries[0];
      if Adds(known, e) then
        [AddedCourse(e.outcome.title, e.outcome.chunkCount)] + Ingest(known + {e.outcome.title}, entries[1..])
      else Ingest(known, entries[1..])
  }

  function TitleSet(added: seq<AddedCourse>): set<string>
  {
    set k | 0 <= k < |added| :: added[k].title
  }

  /** The titles of the added courses, in order. */
  function Titles(added: seq<AddedCourse>): (r: seq<string>)
    ensures |r| == |added| && forall k | 0 <= k < |added| :: r[k] == added[k].title
  {
    if added == [] then [] else Titles(added[..|added| - 1]) + [added[|added| - 1].title]
  }

  /** `total_chunks` of a run that added `added`. */
  function TotalChunks(added: seq<AddedCourse>): nat
  {
    if added == [] then 0 else TotalChunks(added[..|added| - 1]) + added[|added| - 1].chunkCount
  }

  lemma TitleSetSingle(a: AddedCourse)
    ensures TitleSet([a]) == {a.title}
  {
    assert [a][0].title == a.title;
  }

  lemma TitleSetAppend(a: seq<AddedCourse>, b: seq<AddedCourse>)
    ensures TitleSet(a + b) == TitleSet(a) + TitleSet(b)
  {
    var ab := a + b;
    forall t | t in TitleSet(ab) ensures t in TitleSet(a) + TitleSet(b) {
      var k :| 0 <= k < |ab| && ab[k].title == t;
      if k >= |a| {
        assert b[k - |a|].title == t;
      }
    }
    forall t | t in TitleSet(a) + TitleSet(b) ensures t in TitleSet(ab) {
      if t in TitleSet(a) {
        var k :| 0 <= k < |a| && a[k].title == t;
        assert ab[k].title == t;
      } else {
        var k :| 0 <= k < |b| && b[k].title == t;
        assert ab[|a| + k].title == t;
      }
    }
  }

  lemma TotalChunksAppend(a: seq<AddedCourse>, b: seq<AddedCourse>)
    ensures TotalChunks(a + b) == TotalChunks(a) + TotalChunks(b)
    decreases |b|
  {
    if b == [] {
      assert a + b == a;
    } else {
      var init := b[..|b| - 1];
      TotalChunksAppend(a, init);
      assert (a + b)[..|a + b| - 1] == a + init;
    }
  }

  /** Ingesting two listings one after the other, the second starting from what the first added. */
  lemma {:induction false} IngestAppend(known: set<string>, a: seq<FolderEntry>, b: seq<FolderEntry>)
    ensures Ingest(known, a + b) == Ingest(known, a) + Ingest(known + TitleSet(Ingest(known, a)), b)
    decreases |a|
  {
    if a == [] {
      assert a + b == b;
      assert known + TitleSet([]) == known;
    } else {
      var e := a[0];
      assert (a + b)[0] == e && (a + b)[1..] == a[1..] + b;
      if Adds(known, e) {
        var t := e.outcome.title;
        var head := [AddedCourse(t, e.outcome.chunkCount)];
        IngestAppend(known + {t}, a[1..], b);
        var rest := Ingest(known + {t}, a[1..]);
        TitleSetAppend(head, rest);
        TitleSetSingle(head[0]);
        assert known + TitleSet(head + rest) == known + {t} + TitleSet(rest);
      } else {
        IngestAppend(known, a[1..], b);
      }
    }
  }

  /** One more entry, as the loop sees it. */
  lemma IngestSnoc(known: set<string>, a: seq<FolderEntry>, e: FolderEntry)
    ensures var prev := Ingest(known, a);
            Ingest(known, a + [e])
            == prev + (if Adds(known + TitleSet(prev), e)
                       then [AddedCourse(e.outcome.title, e.outcome.chunkCount)] else [])
  {
    IngestAppend(known, a, [e]);
    var k := known + TitleSet(Ingest(known, a));
    assert [e][1..] == [];
    if Adds(k, e) {
      assert Ingest(k + {e.outcome.title}, []) == [];
    }
  }

  /** The loop's step: entry `i` is added exactly when it adds to what is known by then. */
  lemma IngestStep(known: set<string>, entries: seq<FolderEntry>, i: nat)
    requires i < |entries|
    ensures var prev := Ingest(known, entries[..i]);
            var next := Ingest(known, entries[..i + 1]);
            var e := entries[i];
            if Adds(known + TitleSet(prev), e) then
              && next == prev + [AddedCourse(e.outcome.title, e.outcome.chunkCount)]
              && TitleSet(next) == TitleSet(prev) + {e.outcome.title}
              && Titles(next) == Titles(prev) + [e.outcome.title]
              && TotalChunks(next) == TotalChunks(prev) + e.outcome.chunkCount
            else next == prev
  {
    var e := entries[i];
    var prev := Ingest(known, entries[..i]);
    assert entries[..i + 1] == entries[..i] + [e];
    IngestSnoc(known, entries[..i], e);
    if Adds(known + TitleSet(prev), e) {
      var a := AddedCourse(e.outcome.title, e.outcome.chunkCount);
      var next := prev + [a];
      TitleSetAppend(prev, [a]);
      TitleSetSingle(a);
      assert next[..|next| - 1] == prev;
    } else {
      assert prev + [] == prev;
    }
  }

  /** No added title was known before the run. */
  lemma {:induction false} IngestFresh(known: set<string>, entries: seq<FolderEntry>)
    ensures forall k | 0 <= k < |Ingest(known, entries)| :: Ingest(known, entries)[k].title !in known
    decreases |entries|
  {
    if entries != [] {
      var e := entries[0];
      if Adds(known, e) {
        IngestFresh(known + {e.outcome.title}, entries[1..]);
      } else {
        IngestFresh(known, entries[1..]);
      }
    }
  }

  /** No title is added twice in one run. */
  lemma {:induction false} IngestDistinct(known: set<string>, entries: seq<FolderEntry>)
    ensures forall i, j | 0 <= i < j < |Ingest(known, entries)| ::
              Ingest(known, entries)[i].title != Ingest(known, entries)[j].title
    decreases |entries|
  {
    if entries != [] {
      var e := entries[0];
      if Adds(known, e) {
        var t := e.outcome.title;
        IngestDistinct(known + {t}, entries[1..]);
        IngestFresh(known + {t}, entries[1..]);
        var rest := Ingest(known + {t}, entries[1..]);
        var added := Ingest(known, entries);
        assert added == [AddedCourse(t, e.outcome.chunkCount)] + rest;
        forall i, j | 0 <= i < j < |added| ensures added[i].title != added[j].title {
          assert added[j] == rest[j - 1];
          if i > 0 {
            assert added[i] == rest[i - 1];
          }
        }
      } else {
        IngestDistinct(known, entries[1..]);
        assert Ingest(known, entries) == Ingest(known, entries[1..]);
      }
    }
  }

  /**
    A title is added exactly when it was not known and some course document
    of the folder yields it.
   */
  lemma {:induction false} IngestMembers(known: set<string>, entries: seq<FolderEntry>, t: string)
    ensures t in TitleSet(Ingest(known, entries))
        <==> t !in known && exists e | e in entries :: YieldsCourse(e) && e.outcome.title == t
    decreases |entries|
  {
    if entries != [] {
      var e := entries[0];
      var rest := entries[1..];
      assert entries == [e] + rest;
      var known' := if Adds(known, e) then known + {e.outcome.title} else known;
      IngestMembers(known', rest, t);
      if Adds(known, e) {
        var head := [AddedCourse(e.outcome.title, e.outcome.chunkCount)];
        TitleSetAppend(head, Ingest(known', rest));
        TitleSetSingle(head[0]);
      }
      if t !in known && (exists x | x in entries :: YieldsCourse(x) && x.outcome.title == t) {
        var x :| x in entries && YieldsCourse(x) && x.outcome.title == t;
        if x != e {
          assert x in rest;
        }
      }
    }
  }

  /**
    The chunk count recorded for a title is that of the first course
    document yielding the title.
   */
  lemma {:induction false} IngestKeepsFirstOccurrence(known: set<string>, entries: seq<FolderEntry>, k: nat)
    requires k < |Ingest(known, entries)|
    ensures var a := Ingest(known, entries)[k];
            exists i | 0 <= i < |entries| ::
              YieldsCourse(entries[i]) && entries[i].outcome == Parsed(a.title, a.chunkCount)
              && forall j | 0 <= j < i :: !(YieldsCourse(entries[j]) && entries[j].outcome.title == a.title)
    decreases |entries|
  {
    var e := entries[0];
    var rest := entries[1..];
    var added := Ingest(known, entries);
    var a := added[k];
    if Adds(known, e) && k == 0 {
      assert YieldsCourse(entries[0]) && entries[0].outcome == Parsed(a.title, a.chunkCount);
    } else {
      var known' := if Adds(known, e) then known + {e.outcome.title} else known;
      var k' := if Adds(known, e) then k - 1 else k;
      assert Ingest(known', rest)[k'] == a;
      IngestKeepsFirstOccurrence(known', rest, k');
      IngestFresh(known', rest);
      IngestFresh(known, entries);
      var i :| 0 <= i < |rest| && YieldsCourse(rest[i]) && rest[i].outcome == Parsed(a.title, a.chunkCount)
               && forall j | 0 <= j < i :: !(YieldsCourse(rest[j]) && rest[j].outcome.title == a.title);
      assert a.title !in known';
      assert !(YieldsCourse(e) && e.outcome.title == a.title);
      assert entries[i + 1] == rest[i];
      forall j | 0 <= j < i + 1
        ensures !(YieldsCourse(entries[j]) && entries[j].outcome.title == a.title)
      {
        if j > 0 {
          assert entries[j] == rest[j - 1];
        }
      }
    }
  }

  /** An entry that yields no course (a failure, a wrong type, not a file) changes nothing. */
  lemma SkippedEntryChangesNothing(known: set<string>, a: seq<FolderEntry>, e: FolderEntry, b: seq<FolderEntry>)
    requires !YieldsCourse(e)
    ensures Ingest(known, a + [e] + b) == Ingest(known, a + b)
  {
    IngestSnoc(known, a, e);
    assert Ingest(known, a + [e]) == Ingest(known, a) + [];
    assert Ingest(known, a) + [] == Ingest(known, a);
    IngestAppend(known, a + [e], b);
    IngestAppend(known, a, b);
  }

  /** A second run over the same folder, knowing what the first added, adds nothing. */
  lemma IngestAgainAddsNothing(known: set<string>, entries: seq<FolderEntry>)
    ensures Ingest(known + TitleSet(Ingest(known, entries)), entries) == []
  {
    var known' := known + TitleSet(Ingest(known, entries));
    var again := Ingest(known', entries);
    if again != [] {
      var t := again[0].title;
      assert t in TitleSet(again);
      IngestMembers(known', entries, t);
      IngestMembers(known, entries, t);
    }
  }

  /** Titles with no repeats. */
  predicate Distinct(ts: seq<string>)
  {
    forall i, j | 0 <= i < j < |ts| :: ts[i] != ts[j]
  }

  /** A store whose titles are distinct keeps them distinct when a run's courses are appended. */
  lemma StoredTitlesStayDistinct(base: seq<string>, entries: seq<FolderEntry>)
    requires Distinct(base)
    ensures Distinct(base + Titles(Ingest((set t | t in base), entries)))
  {
    var known := set t | t in base;
    var added := Ingest(known, entries);
    var r := base + Titles(added);
    IngestFresh(known, entries);
    IngestDistinct(known, entries);
    forall i, j | 0 <= i < j < |r| ensures r[i] != r[j] {
      if j >= |base| {
        assert r[j] == added[j - |base|].title;
        if i >= |base| {
          assert r[i] == added[i - |base|].title;
        } else {
          assert r[i] in known;
        }
      }
    }
  }

  /**
    The extension test is case-insensitive and needs a regular file: an
    upper-case `.PDF` file counts, a directory or another extension does not.
   */
  lemma DocumentExamples(o: Outcome)
    ensures IsCourseDocument(FolderEntry("A.PDF", true, o))
    ensures !IsCourseDocument(FolderEntry("a.pdf", false, o))
    ensures !IsCourseDocument(FolderEntry("a.md", true, o))
  {
    assert Lower("A.PDF") == "a.pdf";
    assert Lower("a.md") == "a.md";
    assert !EndsWith("a.md", ".docx");
  }
}
