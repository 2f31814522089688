# import-stack-overflow, modelled in Dafny

`import-stack-overflow` turns the Stack Overflow Documentation dump into books.
The dump has four flat collections:

- doc tags (one per book);
- topics (one per chapter);
- examples (one per section);
- topic-history join rows, which link examples to topics.

For one tag, the importer does the following:

1. It looks the tag up by title and takes its topics in stored order.
2. For each topic, it gathers the topic's examples from the history rows. Repeated ids are dropped, and so are ids that do not resolve.
3. It sorts them with a comparator meant to put pinned examples first, then order by descending score (see Findings); the model sorts by that key.
4. It writes a chapter directory `NNNN-<slug>` holding an `index.txt` record, and one `NNN-<slug>.md` section record per example with a non-blank body.
5. Examples whose bodies are blank are collected in a list instead.

Records use a line-oriented key/value format:

- a non-blank value of at most 80 bytes with no newline and no colon goes on one line, `key: value`;
- any other non-blank value goes in a block, `key:` followed by the value and then the record separator on a line of its own;
- a blank value is not written;
- a block value that contains the separator is a fatal error; a one-line value is written as it is, even if it contains the separator.

The model has seven modules:

- `Results`: Option and Result types. The importer's fatal exits (`log.Fatalf`, `u.PanicIf`) become `Err` values carrying a `Fault`.
- `Records`: the four record kinds. Go strings are byte strings, so a `string` here holds one `char` per byte.
- `Text`: the standard-library operations used, namely `strings.TrimSpace`, `strings.Contains`, `strconv.Itoa` and `%0Nd`.
- `Linker`: the lookups over the collections, each a loop proved against a reference function, plus the derived example count of a tag.
- `Orderer`: the source's comparator, the intended key order, and an in-place sort on an array proved to produce an ordered permutation.
- `Serializer`: the field writer, and the chapter and section records built step by step as the source builds them. It also has a reference reader, `ParseRecord`. The round-trip lemmas state that a written record reads back as exactly its non-blank fields, in order.
- `BookBuilder`: a `Session` class whose fields are the package globals, and whose methods are `calcExampleCount` and `genBook`.
  - `GenBook` returns the files it would write, as (path components, contents) pairs, in write order, and appends blank examples to the `emptyExamples` field.
  - Its contract ties the result to `BookOutcome`, a function of the chapters it chose.
  - Chapter k is numbered 10·(k+1); this is stated by `Planned`, through the contracts of `GenChapters` and `GenBook`.
  - The lemmas about `Sections` and `BookOutcome` state the rest of the numbering:
    - sections 10, 20, … go to the non-blank examples only;
    - blank examples are recorded in order;
    - the reported section count also counts the blank examples.

`calcExampleCount` (main.go:47-62) counts the entries of the example collection whose own `DocTopicId` is one of the tag's topic ids; it does not go through the history rows and does not remove duplicates.

## Model

| member | source | states |
|---|---|---|
| Linker.FindDocTag | cmd/import-stack-overflow/main.go:106-114 | A found tag is in the collection and has the title; none is found exactly when no tag has that title |
| Linker.FindDocTagIsFirst | cmd/import-stack-overflow/main.go:107-111 | The tag found is the first one with an equal title |
| Linker.FindDocTagByTitle | cmd/import-stack-overflow/main.go:106-114 | The early-return scan returns the first matching tag, or `None` (the fatal exit) when there is none |
| Linker.TopicsOfTag | cmd/import-stack-overflow/main.go:125-133 | Every returned topic is stored and belongs to the tag |
| Linker.TopicsOfTagExact | cmd/import-stack-overflow/main.go:125-133 | Each topic of the tag appears as often as it is stored; no other topic appears |
| Linker.TopicsOfTagAppend | cmd/import-stack-overflow/main.go:127-131 | Stored order is kept: filtering a concatenation concatenates the filtered parts |
| Linker.GetTopicsByDocTagId | cmd/import-stack-overflow/main.go:125-133 | The append loop returns exactly `TopicsOfTag` |
| Linker.FindExample | cmd/import-stack-overflow/main.go:135-142 | A found example is stored and has the id; none is found exactly when no example has it |
| Linker.FindExampleIsFirst | cmd/import-stack-overflow/main.go:136-140 | The example found is the first one with that id |
| Linker.GetExampleById | cmd/import-stack-overflow/main.go:135-142 | The early-return scan returns the first example with the id, or `None` for Go's nil |
| Linker.MatchingIdsMembership | cmd/import-stack-overflow/main.go:147-149 | An id is collected exactly when some history row with both the tag and the topic names it |
| Linker.DedupProperties | cmd/import-stack-overflow/main.go:146-153 | Seen-set deduplication keeps every id and keeps ids in first-occurrence order, which makes them distinct |
| Linker.ResolveMembership | cmd/import-stack-overflow/main.go:154-159 | Exactly the resolvable ids produce an example, namely the first stored example with that id |
| Linker.ResolveKeepsOrder | cmd/import-stack-overflow/main.go:154-159 | Dropping unresolvable ids keeps the order of the rest |
| Linker.ExamplesForTopicSources | cmd/import-stack-overflow/main.go:144-163 | Every example of a topic comes from a history row matching both the tag and the topic, and is the first stored example with its id |
| Linker.ExamplesForTopicResolvable | cmd/import-stack-overflow/main.go:154-159 | An example with a given id is returned exactly when a matching row names the id and the id resolves; unresolvable ids are dropped without error |
| Linker.ExamplesForTopicOrder | cmd/import-stack-overflow/main.go:146-153 | Returned ids are pairwise distinct and follow the order of their first history row |
| Linker.GetExamplesForTopic | cmd/import-stack-overflow/main.go:144-163 | The loop with the seen-set returns exactly `ExamplesForTopic` (matching ids, deduplicated, resolved) |
| Linker.TopicIdsOfTagMembership | cmd/import-stack-overflow/main.go:49-54 | The topic-id set holds exactly the ids of the tag's topics |
| Linker.CountInTopicsIsCardinality | cmd/import-stack-overflow/main.go:55-60 | The counting loop's value is the number of positions whose example's topic is in the set |
| Linker.ExampleCountOfMeaning | cmd/import-stack-overflow/main.go:47-62 | A tag's example count is the number of example entries whose topic is a topic of the tag |
| BookBuilder.Session.CalcExampleCount | cmd/import-stack-overflow/main.go:47-62 | Only the chosen tag's `exampleCount` changes, to `ExampleCountOf`; no other tag, field or collection changes |
| Orderer.KeyLessIsStrictWeakOrder | cmd/import-stack-overflow/main.go:165-175 | The key comparator (pinned first, then higher score) is irreflexive, asymmetric and transitive, and so is its incomparability; "may precede" is exactly "not after" |
| Orderer.GoLessIsNotStrictWeakOrder | cmd/import-stack-overflow/main.go:166-174 | The source's comparator calls a pinned example less than itself, and calls each of two distinct pinned examples less than the other |
| Orderer.GoLessAgreesOffPinnedPairs | cmd/import-stack-overflow/main.go:166-174 | Unless both examples are pinned, the source's comparator agrees with the key comparator |
| Orderer.OrderedMeaning | cmd/import-stack-overflow/main.go:165-175 | In presentation order every pinned example precedes every unpinned one, and scores do not increase within each group |
| Orderer.BestFrom | cmd/import-stack-overflow/main.go:166-174 | The index returned is one whose example may precede every other example of the suffix |
| Orderer.SortExamples | cmd/import-stack-overflow/main.go:165-175 | The in-place sort leaves the array in presentation order, as a permutation of its input |
| Text.TrimSpace | cmd/import-stack-overflow/main.go:192 | Trimming cuts only white space from either end, and the result starts and ends with non-space characters |
| Text.DigitsRoundTrip | cmd/import-stack-overflow/main.go:265 | The decimal digits of a number read back as the number |
| Text.ItoaShape | cmd/import-stack-overflow/main.go:265 | `strconv.Itoa` of a 64-bit integer is 1 to 20 characters, all digits except an optional leading minus |
| Text.ZeroPad | cmd/import-stack-overflow/main.go:301 | `%0Nd` gives at least N characters, all digits |
| Text.ZeroPadRoundTrip | cmd/import-stack-overflow/main.go:315 | A zero-padded number reads back as the number, whatever the width |
| Serializer.IsEmptyStringTrims | cmd/import-stack-overflow/main.go:191-194 | A string is blank exactly when trimming white space leaves nothing |
| Serializer.FitsOneLine | cmd/import-stack-overflow/main.go:177-189 | A value fits on one line exactly when it has at most 80 bytes, no newline and no colon |
| Serializer.FitsOneLineBoundary | cmd/import-stack-overflow/main.go:178 | With no newline or colon, 80 bytes fit and 81 do not |
| Serializer.SerField | cmd/import-stack-overflow/main.go:196-206 | The field is empty exactly when the value is blank; it fails exactly when a non-blank value that does not fit on one line contains the separator; otherwise it starts with `key:` and ends with a newline |
| Serializer.SerFieldBoundary | cmd/import-stack-overflow/main.go:196-206 | A non-blank value without newline or colon is written as `k: v` up to 80 bytes; beyond that it is written as a block, or rejected when it contains the separator |
| Serializer.SerFieldMarkdown | cmd/import-stack-overflow/main.go:208-218 | With markdown reformatting off, `serFieldMarkdown` writes exactly what `serField` writes |
| Serializer.ShortenVersion | cmd/import-stack-overflow/main.go:220-225 | `"[]"` becomes empty; any other string is unchanged |
| Serializer.SerRecordSnoc | cmd/import-stack-overflow/main.go:228-253 | One `s += serField(k, v)` step (`AddField`) turns the record of the fields so far into the record with that field appended; a failing field makes the whole record fail |
| Serializer.SerFieldRoundTrip | cmd/import-stack-overflow/main.go:196-206 | When the separator contains no newline, a written non-blank field reads back as its key and exact value, and the text after it is left untouched, in both the one-line and block forms |
| Serializer.SerRecordRoundTrip | cmd/import-stack-overflow/main.go:196-206 | When the separator contains no newline, a written record reads back as exactly its non-blank fields, in order |
| Serializer.SerRecordFailure | cmd/import-stack-overflow/main.go:203 | A record fails exactly when one of its fields holds a value that contains the separator and needs a block |
| Serializer.Preferred | cmd/import-stack-overflow/main.go:235-253 | At most one of `X` and `XHtml` comes out: `X` when its markdown is not blank, otherwise `XHtml` when its HTML is not blank |
| Serializer.MarkdownFieldsEmitted | cmd/import-stack-overflow/main.go:235-238 | A markdown field with its HTML fallback emits exactly `Preferred` |
| Serializer.ChapterFieldsEmitted | cmd/import-stack-overflow/main.go:227-253 | A chapter record holds, in order: Title; Versions, with `"[]"` read as none; VersionsHtml only when versions are blank; then Introduction, Syntax, Parameters and Remarks, each as markdown or its HTML fallback; blank values are left out |
| Serializer.ChapterRecordRoundTrip | cmd/import-stack-overflow/main.go:227-253 | When the separator contains no newline, a written chapter record reads back as exactly those fields |
| Serializer.IndexTxt | cmd/import-stack-overflow/main.go:227-253 | The step-by-step `s +=` construction yields the record of the chapter fields (or its failure) |
| Serializer.AddMarkdownFields | cmd/import-stack-overflow/main.go:235-238 | One markdown step appends the `X` field, and also the `XHtml` field when the markdown is blank |
| Serializer.ScoreFitsOneLine | cmd/import-stack-overflow/main.go:265 | A score's decimal text is never blank and always fits on one line, so it is written as `Score: <n>` |
| Serializer.SectionFieldsEmitted | cmd/import-stack-overflow/main.go:263-269 | A section record holds its title if not blank, always its score, then its body as markdown or failing that as HTML |
| Serializer.SectionRecordHasScore | cmd/import-stack-overflow/main.go:263-269 | Every written section record contains the line `Score: <decimal score>` |
| Serializer.SectionRecordRoundTrip | cmd/import-stack-overflow/main.go:263-269 | When the separator contains no newline, a written section record reads back as exactly its non-blank fields |
| Serializer.SectionTxt | cmd/import-stack-overflow/main.go:263-269 | The step-by-step construction yields the record of the section fields (or its failure) |
| BookBuilder.NonBlank | cmd/import-stack-overflow/main.go:310-321 | The examples given a section are examples of the chapter whose body is not blank |
| BookBuilder.Blanks | cmd/import-stack-overflow/main.go:311-313 | The examples skipped are examples of the chapter with both bodies blank |
| BookBuilder.BlankSplit | cmd/import-stack-overflow/main.go:310-322 | Every example is either given a section or skipped as blank, and never both |
| BookBuilder.SectionFileNumber | cmd/import-stack-overflow/main.go:315 | A section's number reads back from its `%03d-<slug>.md` file name whatever the slug, so different numbers give different names |
| BookBuilder.ChapterDirNumber | cmd/import-stack-overflow/main.go:301 | A chapter's number reads back from its `%04d-<slug>` directory name |
| BookBuilder.Sections | cmd/import-stack-overflow/main.go:309-322 | Each example of a chapter yields at most one file or one blank entry; with no fault, exactly one of the two |
| BookBuilder.SectionStep | cmd/import-stack-overflow/main.go:310-321 | One example adds at most one file or blank entry, and adds nothing after a fault |
| BookBuilder.SectionsStopped | cmd/import-stack-overflow/main.go:317 | Once a section has failed, later examples change nothing |
| BookBuilder.SectionsOnSuccess | cmd/import-stack-overflow/main.go:309-322 | In a chapter without fault, the blank examples are recorded in order, and the m-th non-blank example is written, as its section record, to number 10·(m+1) |
| BookBuilder.SectionsFault | cmd/import-stack-overflow/main.go:317 | A chapter's sections fail exactly when some non-blank example's record cannot be written |
| BookBuilder.ChapterOutcome | cmd/import-stack-overflow/main.go:301-304 | A chapter without fault writes its `index.txt` in its `books/<book>/NNNN-<slug>` directory first |
| BookBuilder.BookCounts | cmd/import-stack-overflow/main.go:323 | In a complete run, `nSections` equals the number of section files plus the number of blank examples, and every blank example of every chapter is recorded |
| BookBuilder.Session.constructor | cmd/import-stack-overflow/main.go:19-35 | The session holds the four loaded collections, with no blank example recorded yet |
| BookBuilder.Session.WriteSections | cmd/import-stack-overflow/main.go:309-322 | The inner loop writes exactly the files of `Sections`, stops at its fault, and appends exactly its blank examples to `emptyExamples` |
| BookBuilder.Session.NextSection | cmd/import-stack-overflow/main.go:310-321 | One pass of the inner loop does exactly one `SectionStep`: a blank example is appended to `emptyExamples`, and any other example is written as the next section or stops the run |
| BookBuilder.Session.GenChapter | cmd/import-stack-overflow/main.go:297-322 | Chapter `no` holds the topic's examples as an ordered permutation of `ExamplesForTopic`, and its files, fault and blank examples are those of `ChapterOutcome` |
| BookBuilder.Session.NextChapter | cmd/import-stack-overflow/main.go:297-324 | One pass of the outer loop extends the planned chapters and their outcome by one chapter |
| BookBuilder.Session.GenChapters | cmd/import-stack-overflow/main.go:296-324 | The outer loop plans chapter k as topic k, numbered 10·(k+1); it stops right after the first chapter with a fault; with no fault it covers every topic and `nSections` counts all their examples |
| BookBuilder.Session.GenBook | cmd/import-stack-overflow/main.go:285-326 | A missing tag is fatal before anything is written; otherwise the book's files are those of `BookOutcome` over the planned chapters, blank examples go to `emptyExamples`, and the result is the chapter and section counts or the first fault |
| BookBuilder.Session.GenTagBook | cmd/import-stack-overflow/main.go:293-324 | The book of a found tag: planned chapters, the files and blank examples of `BookOutcome`, and the counts or the fault that stopped it |

## Left out

- Loading the gzipped JSON dumps (`loadAll` and the `load…Must` functions) is file I/O. The collections are the constructor's arguments.
- `mdToHTML`, `mdFmt` and the `reformatMarkdown` branch of `serFieldMarkdown` are left out. They are foreign markdown libraries, and the flag is false.
- `mdutil.MakeURLSafe` is the function parameter `slug`. `book.Name` and `book.NewName()` are the parameters `name` and `newName`. `mdutil.KVRecordSeparator` is an abstract non-empty string, `Separator`. All four are defined outside this file.
- `createDirForFileMust`, `ioutil.WriteFile` and the error panics of the I/O are left out. A written file is a `FileWrite` value in the returned list.
- `filepath.Join` is a sequence of path components, because its path cleaning is a library concern.
- Timing, `fmt.Printf`, `verbose` logging and `printEmptyExamples` are diagnostics only.
- `printDocTagsMust` is dead code behind `if false`, and it is printing plus a sort of tags by count. `CalcExampleCount`, which it calls, is modelled.
- `main`'s loop over `booksToImport` is left out. `currDefaultLang` is only read by the disabled markdown reformatting.
- Process termination is not modelled. A fatal error (`log.Fatalf`, `u.PanicIf`) is an `Err` result. The files written before it stay in the returned list, as they stay on disk.
- Text.TrimSpace: only ASCII white space is trimmed. Unicode white space classification is a library table.
- Orderer.SortExamples: it is a selection sort under the intended key, not Go's `sort.Slice`. It promises the order and the permutation only; the order among examples with equal keys is left unspecified, and callers rely on nothing more.
- Serializer.SerRecordRoundTrip: like the other round-trip lemmas, it assumes the separator contains no newline. The source makes no claim about reading records back.
- The package globals are `seq` values, not slices of pointers. Aliasing between `gExamples` and the chapters' example slices is therefore not modelled; nothing in the core mutates an example.

## Findings

| source | as written | input that shows it | evidently intended | confidence | as-written member | corrected member |
|---|---|---|---|---|---|---|
| cmd/import-stack-overflow/main.go:166-174 | The `sortExamples` comparator returns true whenever `a[i]` is pinned, even when `a[j]` is the same or also pinned, so it is neither irreflexive nor asymmetric: less(x, x) holds for a pinned x, and two pinned examples are each less than the other. The visible effect is that pinned examples are not ordered by score among themselves | Two pinned examples x and y with scores 1 and 5: less(x, y) and less(y, x) both hold, and so does less(x, x); nothing puts y before x | Pinned examples first, then descending score, as a key comparator | not executed | Orderer.GoLessIsNotStrictWeakOrder | Orderer.SortExamples |
