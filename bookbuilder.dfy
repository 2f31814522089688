/** The importer's session and book generation (calcExampleCount and genBook,
    cmd/import-stack-overflow/main.go:19-35, 47-62 and 285-326). The four
    loaded collections and the list of blank examples are the fields of a
    `Session`; `GenBook` returns the files it would write instead of writing
    them. `MakeURLSafe` is the parameter `slug`, `book.NewName()` and
    `book.Name` are the parameters `newName` and `name`. */
module BookBuilder {
  import opened Results
  import opened Records
  import opened Text
  import opened Linker
  import opened Orderer
  import opened Serializer

  /** One file of the book: its path, as the components given to
      `filepath.Join`, and its contents. */
  datatype FileWrite = FileWrite(path: seq<string>, contents: string)

  /** What a run (or part of one) produces: the files written, in order, the
      examples found blank, in order, and the fault that stopped it, if any. */
  datatype Outcome = Outcome(writes: seq<FileWrite>, empties: seq<Example>, fault: Option<Fault>)

  /** One chapter as generated: its number, its topic and its examples in the
      order they were sorted into. */
  datatype Chapter = Chapter(no: nat, topic: Topic, examples: seq<Example>)

  /** The counts `genBook` reports at the end. */
  datatype Summary = Summary(nChapters: nat, nSections: nat)

  // ---- blank examples ------------------------------------------------------

  /** An example with neither a markdown nor an HTML body gets no section. */
  predicate IsBlank(e: Example) {
    IsEmptyString(e.bodyMarkdown) && IsEmptyString(e.bodyHtml)
  }

  /** The examples that get a section, in order. */
  function NonBlank(exs: seq<Example>): (r: seq<Example>)
    ensures forall e :: e in r ==> e in exs && !IsBlank(e)
  {
    if exs == [] then []
    else
      var e := exs[|exs| - 1];
      NonBlank(exs[..|exs| - 1]) + (if IsBlank(e) then [] else [e])
  }

  /** The examples that are skipped as blank, in order. */
  function Blanks(exs: seq<Example>): (r: seq<Example>)
    ensures forall e :: e in r ==> e in exs && IsBlank(e)
  {
    if exs == [] then []
    else
      var e := exs[|exs| - 1];
      Blanks(exs[..|exs| - 1]) + (if IsBlank(e) then [e] else [])
  }

  /** Every example is either given a section or skipped as blank. */
  lemma {:induction false} BlankSplit(exs: seq<Example>)
    ensures multiset(NonBlank(exs)) + multiset(Blanks(exs)) == multiset(exs)
  {
    if exs != [] {
      var init := exs[..|exs| - 1];
      var e := exs[|exs| - 1];
      BlankSplit(init);
      assert exs == init + [e];
      SplitSnoc(NonBlank(init), Blanks(init), init, e, IsBlank(e));
    }
  }

  /** Sending one more element to one side of a split keeps it a split. */
  lemma SplitSnoc<T>(a: seq<T>, b: seq<T>, s: seq<T>, x: T, toB: bool)
    requires multiset(a) + multiset(b) == multiset(s)
    ensures multiset(a + (if toB then [] else [x])) + multiset(b + (if toB then [x] else [])) == multiset(s + [x])
  {
  }

  // ---- file names ----------------------------------------------------------

  /** The file name of section number `no`: `%03d-<slug>.md`. */
  function SectionFile(no: nat, title: string, slug: string -> string): string {
    ZeroPad(no, 3) + "-" + slug(title) + ".md"
  }

  /** The directory name of chapter number `no`: `%04d-<slug>`. */
  function ChapterDirName(no: nat, title: string, slug: string -> string): string {
    ZeroPad(no, 4) + "-" + slug(title)
  }

  /** The directory of a chapter of the book in `bookDir`. */
  function ChapterPath(bookDir: string, c: Chapter, slug: string -> string): seq<string> {
    ["books", bookDir, ChapterDirName(c.no, c.topic.title, slug)]
  }

  /** The number in front of the first `-` of a file name, if that part is
      all digits. */
  function NumberPrefix(name: string): Option<nat> {
    var p := name[..IndexOf(name, '-')];
    if forall i :: 0 <= i < |p| ==> IsDigit(p[i]) then Some(ParseDigits(p)) else None
  }

  lemma NumberPrefixOf(n: nat, width: nat, rest: string)
    ensures NumberPrefix(ZeroPad(n, width) + "-" + rest) == Some(n)
  {
    var z := ZeroPad(n, width);
    assert forall i :: 0 <= i < |z| ==> z[i] != '-' by {
      forall i | 0 <= i < |z| ensures z[i] != '-' {
        assert IsDigit(z[i]);
      }
    }
    ConcatAssoc(z, "-", rest);
    IndexOfAfter(z, "-" + rest, '-');
    assert (z + ("-" + rest))[..|z|] == z;
    ZeroPadRoundTrip(n, width);
  }

  /** A section's number can be read back from its file name, whatever the
      slug of the title looks like; so different section numbers give
      different file names. */
  lemma SectionFileNumber(no: nat, title: string, slug: string -> string)
    ensures NumberPrefix(SectionFile(no, title, slug)) == Some(no)
  {
    ConcatAssoc(ZeroPad(no, 3) + "-", slug(title), ".md");
    NumberPrefixOf(no, 3, slug(title) + ".md");
  }

  /** A chapter's number can be read back from its directory name. */
  lemma ChapterDirNumber(no: nat, title: string, slug: string -> string)
    ensures NumberPrefix(ChapterDirName(no, title, slug)) == Some(no)
  {
    NumberPrefixOf(no, 4, slug(title));
  }

  // ---- sections of one chapter ---------------------------------------------

  /** The inner loop of `genBook` over the sorted examples of one chapter in
      directory `dir`: a blank example is recorded and gets no number; every
      other one is written as section 10, 20, … in turn; a section record that
      cannot be serialized stops the run. */
  function Sections(dir: seq<string>, exs: seq<Example>, slug: string -> string, sep: Separator): (o: Outcome)
    ensures |o.writes| + |o.empties| <= |exs|
    ensures o.fault.None? ==> |o.writes| + |o.empties| == |exs|
  {
    if exs == [] then Outcome([], [], None)
    else SectionStep(dir, Sections(dir, exs[..|exs| - 1], slug, sep), exs[|exs| - 1], slug, sep)
  }

  /** Handles one more example after the outcome `p` of the earlier ones. */
  function SectionStep(dir: seq<string>, p: Outcome, e: Example, slug: string -> string, sep: Separator): (o: Outcome)
    ensures |o.writes| + |o.empties| <= |p.writes| + |p.empties| + 1
    ensures o.fault.None? ==> p.fault.None? && |o.writes| + |o.empties| == |p.writes| + |p.empties| + 1
    ensures p.fault.Some? ==> o == p
  {
    if p.fault.Some? then p
    else if IsBlank(e) then Outcome(p.writes, p.empties + [e], None)
    else match SerRecord(SectionFields(e), sep)
      case Err(f) => Outcome(p.writes, p.empties, Some(f))
      case Ok(text) =>
        var name := SectionFile(10 * (|p.writes| + 1), e.title, slug);
        Outcome(p.writes + [FileWrite(dir + [name], text)], p.empties, None)
  }

  lemma SectionsSnoc(dir: seq<string>, exs: seq<Example>, i: nat, slug: string -> string, sep: Separator)
    requires i < |exs|
    ensures Sections(dir, exs[..i + 1], slug, sep) == SectionStep(dir, Sections(dir, exs[..i], slug, sep), exs[i], slug, sep)
  {
    assert exs[..i + 1][..i] == exs[..i];
  }

  /** Once a section has failed, later examples change nothing. */
  lemma {:induction false} SectionsStopped(dir: seq<string>, exs: seq<Example>, k: nat, slug: string -> string, sep: Separator)
    requires k <= |exs| && Sections(dir, exs[..k], slug, sep).fault.Some?
    ensures Sections(dir, exs, slug, sep) == Sections(dir, exs[..k], slug, sep)
  {
    if k < |exs| {
      var init := exs[..|exs| - 1];
      assert init[..k] == exs[..k];
      SectionsStopped(dir, init, k, slug, sep);
    } else {
      assert exs[..k] == exs;
    }
  }

  /** `writes` are the section files of the non-blank examples `nb`: the
      m-th of them holds the record of `nb[m]` under number 10·(m+1). */
  predicate SectionsWritten(dir: seq<string>, writes: seq<FileWrite>, nb: seq<Example>, slug: string -> string, sep: Separator) {
    |writes| == |nb|
    && forall m :: 0 <= m < |nb| ==>
         SerRecord(SectionFields(nb[m]), sep).Ok?
         && writes[m] == FileWrite(dir + [SectionFile(10 * (m + 1), nb[m].title, slug)],
                                   SerRecord(SectionFields(nb[m]), sep).value)
  }

  /** A chapter whose sections all serialize: the blank examples are recorded
      in order, and the m-th non-blank example is written, as its section
      record, to the file numbered 10·(m+1). */
  lemma {:induction false} SectionsOnSuccess(dir: seq<string>, exs: seq<Example>, slug: string -> string, sep: Separator)
    requires Sections(dir, exs, slug, sep).fault.None?
    ensures Sections(dir, exs, slug, sep).empties == Blanks(exs)
    ensures SectionsWritten(dir, Sections(dir, exs, slug, sep).writes, NonBlank(exs), slug, sep)
  {
    if exs != [] {
      var init := exs[..|exs| - 1];
      var e := exs[|exs| - 1];
      var p := Sections(dir, init, slug, sep);
      assert Sections(dir, exs, slug, sep) == SectionStep(dir, p, e, slug, sep);
      SectionsOnSuccess(dir, init, slug, sep);
      SectionStepOnSuccess(dir, p, Blanks(init), NonBlank(init), e, slug, sep);
    }
  }

  /** One step of `Sections` keeps the blank list and the written sections in step. */
  lemma SectionStepOnSuccess(dir: seq<string>, p: Outcome, bl: seq<Example>, nb: seq<Example>, e: Example, slug: string -> string, sep: Separator)
    requires p.fault.None? && p.empties == bl && SectionsWritten(dir, p.writes, nb, slug, sep)
    requires SectionStep(dir, p, e, slug, sep).fault.None?
    ensures SectionStep(dir, p, e, slug, sep).empties == bl + (if IsBlank(e) then [e] else [])
    ensures SectionsWritten(dir, SectionStep(dir, p, e, slug, sep).writes, nb + (if IsBlank(e) then [] else [e]), slug, sep)
  {
    if IsBlank(e) {
      assert nb + [] == nb;
    } else {
      assert bl + [] == bl;
      SectionsWrittenSnoc(dir, p.writes, nb, e, slug, sep);
    }
  }

  lemma SectionsWrittenSnoc(dir: seq<string>, writes: seq<FileWrite>, nb: seq<Example>, e: Example, slug: string -> string, sep: Separator)
    requires SectionsWritten(dir, writes, nb, slug, sep) && SerRecord(SectionFields(e), sep).Ok?
    ensures SectionsWritten(dir, writes + [FileWrite(dir + [SectionFile(10 * (|writes| + 1), e.title, slug)],
                                                      SerRecord(SectionFields(e), sep).value)],
                            nb + [e], slug, sep)
  {
    var ws := writes + [FileWrite(dir + [SectionFile(10 * (|writes| + 1), e.title, slug)], SerRecord(SectionFields(e), sep).value)];
    var nb' := nb + [e];
    forall m | 0 <= m < |nb'|
      ensures SerRecord(SectionFields(nb'[m]), sep).Ok?
      ensures ws[m] == FileWrite(dir + [SectionFile(10 * (m + 1), nb'[m].title, slug)], SerRecord(SectionFields(nb'[m]), sep).value)
    {
      if m < |nb| {
        assert nb'[m] == nb[m] && ws[m] == writes[m];
      }
    }
  }

  /** A chapter's sections fail exactly when some non-blank example has a
      record that cannot be serialized. */
  lemma {:induction false} SectionsFault(dir: seq<string>, exs: seq<Example>, slug: string -> string, sep: Separator)
    ensures Sections(dir, exs, slug, sep).fault.None?
        <==> forall e :: e in NonBlank(exs) ==> SerRecord(SectionFields(e), sep).Ok?
  {
    if exs != [] {
      var init := exs[..|exs| - 1];
      SectionsFault(dir, init, slug, sep);
    }
  }

  // ---- the whole book ------------------------------------------------------

  /** One chapter: its `index.txt` first, then its sections. */
  function ChapterOutcome(bookDir: string, c: Chapter, slug: string -> string, sep: Separator): (o: Outcome)
    ensures o.fault.None? ==> o.writes != [] && o.writes[0].path == ChapterPath(bookDir, c, slug) + ["index.txt"]
  {
    var dir := ChapterPath(bookDir, c, slug);
    match SerRecord(ChapterFields(c.topic), sep)
    case Err(f) => Outcome([], [], Some(f))
    case Ok(index) =>
      var o := Sections(dir, c.examples, slug, sep);
      Outcome([FileWrite(dir + ["index.txt"], index)] + o.writes, o.empties, o.fault)
  }

  /** The chapters in turn, stopping at the first fault. */
  function BookOutcome(bookDir: string, chapters: seq<Chapter>, slug: string -> string, sep: Separator): (o: Outcome)
  {
    if chapters == [] then Outcome([], [], None)
    else
      var p := BookOutcome(bookDir, chapters[..|chapters| - 1], slug, sep);
      if p.fault.Some? then p
      else
        var q := ChapterOutcome(bookDir, chapters[|chapters| - 1], slug, sep);
        Outcome(p.writes + q.writes, p.empties + q.empties, q.fault)
  }

  /** The number of examples of all chapters, blank or not. */
  function TotalExamples(chapters: seq<Chapter>): nat {
    if chapters == [] then 0
    else TotalExamples(chapters[..|chapters| - 1]) + |chapters[|chapters| - 1].examples|
  }

  /** The blank examples of all chapters, chapter by chapter. */
  function AllBlanks(chapters: seq<Chapter>): seq<Example> {
    if chapters == [] then []
    else AllBlanks(chapters[..|chapters| - 1]) + Blanks(chapters[|chapters| - 1].examples)
  }

  /** In a complete run the reported section count covers the blank examples
      too: it is the number of section files plus the number of blank
      examples, and every blank example of every chapter is recorded. */
  lemma {:induction false} BookCounts(bookDir: string, chapters: seq<Chapter>, slug: string -> string, sep: Separator)
    requires BookOutcome(bookDir, chapters, slug, sep).fault.None?
    ensures |BookOutcome(bookDir, chapters, slug, sep).writes| - |chapters|
            + |BookOutcome(bookDir, chapters, slug, sep).empties| == TotalExamples(chapters)
    ensures BookOutcome(bookDir, chapters, slug, sep).empties == AllBlanks(chapters)
  {
    if chapters != [] {
      var init := chapters[..|chapters| - 1];
      var c := chapters[|chapters| - 1];
      BookCounts(bookDir, init, slug, sep);
      SectionsOnSuccess(ChapterPath(bookDir, c, slug), c.examples, slug, sep);
    }
  }

  /** Chapter `c` is the k-th chapter of a book whose topics are `ts`: it is
      numbered 10·(k+1), it is the k-th topic, and its examples are those of
      the topic put in presentation order. */
  predicate Planned(c: Chapter, k: nat, ts: seq<Topic>, histories: seq<TopicHistory>, examples: seq<Example>, tagId: int) {
    k < |ts| && c.no == 10 * (k + 1) && c.topic == ts[k]
    && Ordered(c.examples)
    && multiset(c.examples) == multiset(ExamplesForTopic(histories, examples, tagId, ts[k].id))
  }

  /** `chapters` are the first chapters of a book whose topics are `ts`. */
  predicate BookPlanned(chapters: seq<Chapter>, ts: seq<Topic>, histories: seq<TopicHistory>, examples: seq<Example>, tagId: int) {
    |chapters| <= |ts|
    && forall k :: 0 <= k < |chapters| ==> Planned(chapters[k], k, ts, histories, examples, tagId)
  }

  lemma BookPlannedSnoc(chapters: seq<Chapter>, c: Chapter, ts: seq<Topic>, histories: seq<TopicHistory>, examples: seq<Example>, tagId: int)
    requires BookPlanned(chapters, ts, histories, examples, tagId)
    requires Planned(c, |chapters|, ts, histories, examples, tagId)
    ensures BookPlanned(chapters + [c], ts, histories, examples, tagId)
  {
    var cs := chapters + [c];
    forall k | 0 <= k < |cs| ensures Planned(cs[k], k, ts, histories, examples, tagId) {
      if k < |chapters| {
        assert cs[k] == chapters[k];
      }
    }
  }

  lemma BookOutcomeSnoc(bookDir: string, chapters: seq<Chapter>, c: Chapter, slug: string -> string, sep: Separator)
    requires BookOutcome(bookDir, chapters, slug, sep).fault.None?
    ensures BookOutcome(bookDir, chapters + [c], slug, sep)
         == Outcome(BookOutcome(bookDir, chapters, slug, sep).writes + ChapterOutcome(bookDir, c, slug, sep).writes,
                    BookOutcome(bookDir, chapters, slug, sep).empties + ChapterOutcome(bookDir, c, slug, sep).empties,
                    ChapterOutcome(bookDir, c, slug, sep).fault)
  {
    assert (chapters + [c])[..|chapters|] == chapters;
  }

  /** `chapters` are the first chapters of the book with topics `ts`, and
      generating them has produced `o`. */
  predicate SoFar(bookDir: string, ts: seq<Topic>, histories: seq<TopicHistory>, examples: seq<Example>, tagId: int,
                  chapters: seq<Chapter>, o: Outcome, slug: string -> string, sep: Separator) {
    BookPlanned(chapters, ts, histories, examples, tagId) && BookOutcome(bookDir, chapters, slug, sep) == o
  }

  /** One more chapter after the first ones, as `genBook`'s loop takes it. */
  lemma ChaptersStep(bookDir: string, chapters: seq<Chapter>, c: Chapter, writes: seq<FileWrite>, blanks: seq<Example>,
                     ts: seq<Topic>, histories: seq<TopicHistory>, examples: seq<Example>, tagId: int,
                     slug: string -> string, sep: Separator)
    requires BookPlanned(chapters, ts, histories, examples, tagId)
    requires Planned(c, |chapters|, ts, histories, examples, tagId)
    requires BookOutcome(bookDir, chapters, slug, sep) == Outcome(writes, blanks, None)
    ensures BookPlanned(chapters + [c], ts, histories, examples, tagId)
    ensures (chapters + [c])[..|chapters|] == chapters
    ensures TotalExamples(chapters + [c]) == TotalExamples(chapters) + |c.examples|
    ensures BookOutcome(bookDir, chapters + [c], slug, sep)
         == Outcome(writes + ChapterOutcome(bookDir, c, slug, sep).writes,
                    blanks + ChapterOutcome(bookDir, c, slug, sep).empties,
                    ChapterOutcome(bookDir, c, slug, sep).fault)
  {
    BookPlannedSnoc(chapters, c, ts, histories, examples, tagId);
    BookOutcomeSnoc(bookDir, chapters, c, slug, sep);
  }

  // ---- the session ---------------------------------------------------------

  /** The loaded dump and the list of blank examples found so far. */
  class Session {
    var docTags: seq<DocTag>
    var topics: seq<Topic>
    var examples: seq<Example>
    var topicHistories: seq<TopicHistory>
    var emptyExamples: seq<Example>

    constructor (docTags: seq<DocTag>, topics: seq<Topic>, examples: seq<Example>, topicHistories: seq<TopicHistory>)
      ensures this.docTags == docTags && this.topics == topics
      ensures this.examples == examples && this.topicHistories == topicHistories
      ensures emptyExamples == []
    {
      this.docTags := docTags;
      this.topics := topics;
      this.examples := examples;
      this.topicHistories := topicHistories;
      emptyExamples := [];
    }

    /** Sets the `exampleCount` of tag `i` to the number of examples whose
        topic belongs to that tag; nothing else changes. */
    method CalcExampleCount(i: nat)
      requires i < |docTags|
      modifies this`docTags
      ensures docTags == old(docTags)[i := old(docTags)[i].(exampleCount := ExampleCountOf(topics, examples, old(docTags)[i].id))]
    {
      var docId := docTags[i].id;
      var ids: set<int> := {};
      var j := 0;
      while j < |topics|
        invariant j <= |topics|
        invariant ids == TopicIdsOfTag(topics[..j], docId)
      {
        assert topics[..j + 1][..j] == topics[..j];
        if topics[j].docTagId == docId {
          ids := ids + {topics[j].id};
        }
        j := j + 1;
      }
      assert topics[..j] == topics;
      var n := 0;
      var k := 0;
      while k < |examples|
        invariant k <= |examples|
        invariant n == CountInTopics(examples[..k], ids)
      {
        assert examples[..k + 1][..k] == examples[..k];
        if examples[k].docTopicId in ids {
          n := n + 1;
        }
        k := k + 1;
      }
      assert examples[..k] == examples;
      docTags := docTags[i := docTags[i].(exampleCount := n)];
    }

    /** Writes the sections of one chapter in `dir`, recording blank examples. */
    method WriteSections(dir: seq<string>, exs: seq<Example>, slug: string -> string, sep: Separator)
      returns (writes: seq<FileWrite>, fault: Option<Fault>)
      modifies this`emptyExamples
      ensures writes == Sections(dir, exs, slug, sep).writes
      ensures fault == Sections(dir, exs, slug, sep).fault
      ensures emptyExamples == old(emptyExamples) + Sections(dir, exs, slug, sep).empties
    {
      writes := [];
      fault := None;
      ghost var blanks: seq<Example> := [];
      var section := 10;
      var i := 0;
      while i < |exs|
        invariant i <= |exs| && section == 10 * (|writes| + 1) && fault.None?
        invariant Sections(dir, exs[..i], slug, sep) == Outcome(writes, blanks, None)
        invariant emptyExamples == old(emptyExamples) + blanks
      {
        ghost var added;
        SectionsSnoc(dir, exs, i, slug, sep);
        writes, fault, added := NextSection(dir, exs[i], section, writes, blanks, slug, sep);
        ConcatAssoc(old(emptyExamples), blanks, added);
        blanks := blanks + added;
        if fault.Some? {
          SectionsStopped(dir, exs, i + 1, slug, sep);
          return;
        }
        section := 10 * (|writes| + 1);
        i := i + 1;
      }
      assert exs[..i] == exs;
    }

    /** `genBook`'s inner loop body for example `ex`, after the sections
        `writes` and the blank examples `blanks` of the examples before it. */
    method NextSection(dir: seq<string>, ex: Example, section: nat, writes: seq<FileWrite>, ghost blanks: seq<Example>,
                       slug: string -> string, sep: Separator)
      returns (writes': seq<FileWrite>, fault: Option<Fault>, ghost added: seq<Example>)
      requires section == 10 * (|writes| + 1)
      modifies this`emptyExamples
      ensures SectionStep(dir, Outcome(writes, blanks, None), ex, slug, sep) == Outcome(writes', blanks + added, fault)
      ensures emptyExamples == old(emptyExamples) + added
    {
      if IsEmptyString(ex.bodyMarkdown) && IsEmptyString(ex.bodyHtml) {
        emptyExamples := emptyExamples + [ex];
        return writes, None, [ex];
      }
      var text := SectionTxt(ex, sep);
      if text.Err? {
        return writes, Some(text.fault), [];
      }
      writes' := writes + [FileWrite(dir + [SectionFile(section, ex.title, slug)], text.value)];
      fault := None;
      added := [];
    }

    /** One pass of `genBook`'s outer loop: the examples of topic `t`, sorted,
        its `index.txt` and its sections, as chapter number `no`. */
    method GenChapter(bookDir: string, tagId: int, t: Topic, no: nat, slug: string -> string, sep: Separator)
      returns (c: Chapter, writes: seq<FileWrite>, fault: Option<Fault>)
      modifies this`emptyExamples
      ensures c.no == no && c.topic == t && Ordered(c.examples)
      ensures multiset(c.examples) == multiset(ExamplesForTopic(topicHistories, examples, tagId, t.id))
      ensures writes == ChapterOutcome(bookDir, c, slug, sep).writes
      ensures fault == ChapterOutcome(bookDir, c, slug, sep).fault
      ensures emptyExamples == old(emptyExamples) + ChapterOutcome(bookDir, c, slug, sep).empties
    {
      var exs := GetExamplesForTopic(topicHistories, examples, tagId, t.id);
      var a := new Example[|exs|](j requires 0 <= j < |exs| => exs[j]);
      assert a[..] == exs;
      SortExamples(a);
      c := Chapter(no, t, a[..]);
      var dirPath := ["books", bookDir, ChapterDirName(no, t.title, slug)];
      var index := IndexTxt(t, sep);
      if index.Err? {
        writes := [];
        fault := Some(index.fault);
        return;
      }
      var sectionWrites;
      sectionWrites, fault := WriteSections(dirPath, c.examples, slug, sep);
      writes := [FileWrite(dirPath + ["index.txt"], index.value)] + sectionWrites;
    }

    /** `genBook`'s outer loop body for topic `ts[|chapters|]`, after the
        chapters before it have been generated without fault. */
    method NextChapter(bookDir: string, tagId: int, ts: seq<Topic>, chapters: seq<Chapter>,
                       writes: seq<FileWrite>, ghost blanks: seq<Example>, slug: string -> string, sep: Separator)
      returns (c: Chapter, writes': seq<FileWrite>, fault: Option<Fault>, ghost added: seq<Example>)
      requires |chapters| < |ts|
      requires SoFar(bookDir, ts, topicHistories, examples, tagId, chapters, Outcome(writes, blanks, None), slug, sep)
      modifies this`emptyExamples
      ensures SoFar(bookDir, ts, topicHistories, examples, tagId, chapters + [c], Outcome(writes', blanks + added, fault), slug, sep)
      ensures emptyExamples == old(emptyExamples) + added
      ensures TotalExamples(chapters + [c]) == TotalExamples(chapters) + |c.examples|
    {
      var chapterWrites;
      c, chapterWrites, fault := GenChapter(bookDir, tagId, ts[|chapters|], 10 * (|chapters| + 1), slug, sep);
      ChaptersStep(bookDir, chapters, c, writes, blanks, ts, topicHistories, examples, tagId, slug, sep);
      writes' := writes + chapterWrites;
      added := ChapterOutcome(bookDir, c, slug, sep).empties;
    }

    /** `genBook`'s loop over the topics `ts` of tag `tagId`: it stops after
        the first chapter with a fault. */
    method GenChapters(bookDir: string, tagId: int, ts: seq<Topic>, slug: string -> string, sep: Separator)
      returns (chapters: seq<Chapter>, writes: seq<FileWrite>, fault: Option<Fault>, nSections: nat, ghost blanks: seq<Example>)
      modifies this`emptyExamples
      ensures SoFar(bookDir, ts, topicHistories, examples, tagId, chapters, Outcome(writes, blanks, fault), slug, sep)
      ensures emptyExamples == old(emptyExamples) + blanks
      ensures fault.None? ==> |chapters| == |ts| && nSections == TotalExamples(chapters)
      ensures fault.Some? ==> chapters != [] && BookOutcome(bookDir, chapters[..|chapters| - 1], slug, sep).fault.None?
    {
      chapters := [];
      writes := [];
      fault := None;
      nSections := 0;
      blanks := [];
      var i := 0;
      while i < |ts|
        invariant i <= |ts| && |chapters| == i
        invariant SoFar(bookDir, ts, topicHistories, examples, tagId, chapters, Outcome(writes, blanks, None), slug, sep)
        invariant emptyExamples == old(emptyExamples) + blanks
        invariant nSections == TotalExamples(chapters)
      {
        var c, chapterFault;
        ghost var added;
        ghost var before := chapters;
        c, writes, chapterFault, added := NextChapter(bookDir, tagId, ts, chapters, writes, blanks, slug, sep);
        ConcatAssoc(old(emptyExamples), blanks, added);
        chapters := chapters + [c];
        blanks := blanks + added;
        if chapterFault.Some? {
          fault := chapterFault;
          assert chapters[..|chapters| - 1] == before;
          return;
        }
        nSections := nSections + |c.examples|;
        i := i + 1;
      }
    }

    /** Generates the book whose tag has title `name` into directory
        `slug(newName)`. A missing tag is fatal before anything is written.
        Otherwise the chapters are the tag's topics in stored order, numbered
        10, 20, …, each with its examples sorted into presentation order; the
        files are those of `BookOutcome`, the blank examples are appended to
        `emptyExamples`, and a record that cannot be serialized stops the run
        right after the chapter it belongs to. */
    method GenBook(name: string, newName: string, slug: string -> string, sep: Separator)
      returns (r: Result<Summary>, chapters: seq<Chapter>, writes: seq<FileWrite>)
      modifies this`emptyExamples
      ensures FindDocTag(docTags, name).None? ==>
        r == Err(TagNotFound(name)) && chapters == [] && writes == [] && emptyExamples == old(emptyExamples)
      ensures FindDocTag(docTags, name).Some? ==>
        var tagId := FindDocTag(docTags, name).value.id;
        var ts := TopicsOfTag(topics, tagId);
        var o := BookOutcome(slug(newName), chapters, slug, sep);
        && BookPlanned(chapters, ts, topicHistories, examples, tagId)
        && writes == o.writes
        && emptyExamples == old(emptyExamples) + o.empties
        && (r.Ok? ==> o.fault.None? && |chapters| == |ts| && r.value == Summary(|ts|, TotalExamples(chapters)))
        && (r.Err? ==> o.fault == Some(r.fault) && chapters != []
                       && BookOutcome(slug(newName), chapters[..|chapters| - 1], slug, sep).fault.None?)
    {
      var found := FindDocTagByTitle(docTags, name);
      if found.None? {
        r := Err(TagNotFound(name));
        chapters := [];
        writes := [];
        return;
      }
      r, chapters, writes := GenTagBook(found.value.id, slug(newName), slug, sep);
    }

    /** `genBook` once its tag `tagId` has been found: the chapters of the
        tag's topics, written into `bookDir`. */
    method GenTagBook(tagId: int, bookDir: string, slug: string -> string, sep: Separator)
      returns (r: Result<Summary>, chapters: seq<Chapter>, writes: seq<FileWrite>)
      modifies this`emptyExamples
      ensures BookPlanned(chapters, TopicsOfTag(topics, tagId), topicHistories, examples, tagId)
      ensures writes == BookOutcome(bookDir, chapters, slug, sep).writes
      ensures emptyExamples == old(emptyExamples) + BookOutcome(bookDir, chapters, slug, sep).empties
      ensures r.Ok? ==> BookOutcome(bookDir, chapters, slug, sep).fault.None? && |chapters| == |TopicsOfTag(topics, tagId)|
                        && r.value == Summary(|TopicsOfTag(topics, tagId)|, TotalExamples(chapters))
      ensures r.Err? ==> BookOutcome(bookDir, chapters, slug, sep).fault == Some(r.fault) && chapters != []
                         && BookOutcome(bookDir, chapters[..|chapters| - 1], slug, sep).fault.None?
    {
      var ts := GetTopicsByDocTagId(topics, tagId);
      var nChapters := |ts|;
      var fault, nSections;
      ghost var blanks;
      chapters, writes, fault, nSections, blanks := GenChapters(bookDir, tagId, ts, slug, sep);
      assert BookOutcome(bookDir, chapters, slug, sep) == Outcome(writes, blanks, fault);
      if fault.Some? {
        r := Err(fault.value);
      } else {
        r := Ok(Summary(nChapters, nSections));
      }
    }
  }
}
