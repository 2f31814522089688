/** Foreign-key lookups over the in-memory record collections
    (cmd/import-stack-overflow/main.go:47-62, 106-163). The package-level
    collections `gTopics`, `gExamples` and `gTopicHistories` are passed in
    explicitly; each query is a loop over them, proved against a reference
    function, and the properties the importer relies on are lemmas about
    those functions. */
module Linker {
  import opened Results
  import opened Records
  import opened Text

  // ---- tag by title -------------------------------------------------------

  /** The first tag titled `title`, if any. */
  function FindDocTag(docTags: seq<DocTag>, title: string): (r: Option<DocTag>)
    ensures r.Some? ==> r.value in docTags && r.value.title == title
    ensures r.None? <==> forall d :: d in docTags ==> d.title != title
  {
    if docTags == [] then None
    else if docTags[0].title == title then Some(docTags[0])
    else FindDocTag(docTags[1..], title)
  }

  /** It is the FIRST match: every earlier tag has another title. */
  lemma {:induction false} FindDocTagIsFirst(docTags: seq<DocTag>, title: string, i: nat)
    requires i < |docTags| && docTags[i].title == title
    requires forall j :: 0 <= j < i ==> docTags[j].title != title
    ensures FindDocTag(docTags, title) == Some(docTags[i])
  {
    if i > 0 {
      FindDocTagIsFirst(docTags[1..], title, i - 1);
    }
  }

  /** `findDocTagByTitleMust`: a scan that returns on the first equal title;
      `None` stands for the fatal "Didn't find DocTag" exit. */
  method FindDocTagByTitle(docTags: seq<DocTag>, title: string) returns (r: Option<DocTag>)
    ensures r == FindDocTag(docTags, title)
  {
    var i := 0;
    while i < |docTags|
      invariant i <= |docTags|
      invariant FindDocTag(docTags, title) == FindDocTag(docTags[i..], title)
    {
      if docTags[i].title == title {
        return Some(docTags[i]);
      }
      assert docTags[i..][1..] == docTags[i + 1..];
      i := i + 1;
    }
    r := None;
  }

  // ---- topics of a tag ----------------------------------------------------

  /** The topics of tag `tagId`, in stored order. */
  function TopicsOfTag(topics: seq<Topic>, tagId: int): (r: seq<Topic>)
    ensures |r| <= |topics|
    ensures forall k :: 0 <= k < |r| ==> r[k] in topics && r[k].docTagId == tagId
  {
    if topics == [] then []
    else
      var last := topics[|topics| - 1];
      TopicsOfTag(topics[..|topics| - 1], tagId) + (if last.docTagId == tagId then [last] else [])
  }

  /** Exactly the matching topics: each matching topic appears as often as it
      is stored, each other topic not at all. */
  lemma {:induction false} TopicsOfTagExact(topics: seq<Topic>, tagId: int, t: Topic)
    ensures multiset(TopicsOfTag(topics, tagId))[t]
         == if t.docTagId == tagId then multiset(topics)[t] else 0
  {
    if topics != [] {
      var init := topics[..|topics| - 1];
      TopicsOfTagExact(init, tagId, t);
      assert topics == init + [topics[|topics| - 1]];
    }
  }

  /** Stored order is kept: filtering a concatenation concatenates the parts. */
  lemma {:induction false} TopicsOfTagAppend(a: seq<Topic>, b: seq<Topic>, tagId: int)
    ensures TopicsOfTag(a + b, tagId) == TopicsOfTag(a, tagId) + TopicsOfTag(b, tagId)
    decreases |b|
  {
    if b != [] {
      var binit := b[..|b| - 1];
      assert (a + b)[..|a + b| - 1] == a + binit;
      TopicsOfTagAppend(a, binit, tagId);
    } else {
      assert a + b == a;
    }
  }

  /** `getTopicsByDocTagID`: appends every topic whose tag matches. */
  method GetTopicsByDocTagId(topics: seq<Topic>, docTagId: int) returns (res: seq<Topic>)
    ensures res == TopicsOfTag(topics, docTagId)
  {
    res := [];
    var i := 0;
    while i < |topics|
      invariant i <= |topics|
      invariant res == TopicsOfTag(topics[..i], docTagId)
    {
      assert topics[..i + 1][..i] == topics[..i];
      if topics[i].docTagId == docTagId {
        res := res + [topics[i]];
      }
      i := i + 1;
    }
    assert topics[..i] == topics;
  }

  // ---- example by id ------------------------------------------------------

  /** The first example with id `id`, if any. */
  function FindExample(examples: seq<Example>, id: int): (r: Option<Example>)
    ensures r.Some? ==> r.value in examples && r.value.id == id
    ensures r.None? <==> forall e :: e in examples ==> e.id != id
  {
    if examples == [] then None
    else if examples[0].id == id then Some(examples[0])
    else FindExample(examples[1..], id)
  }

  /** It is the FIRST match: every earlier example has another id. */
  lemma {:induction false} FindExampleIsFirst(examples: seq<Example>, id: int, i: nat)
    requires i < |examples| && examples[i].id == id
    requires forall j :: 0 <= j < i ==> examples[j].id != id
    ensures FindExample(examples, id) == Some(examples[i])
  {
    if i > 0 {
      FindExampleIsFirst(examples[1..], id, i - 1);
    }
  }

  /** `getExampleByID`: an early-return scan; `None` is Go's nil. */
  method GetExampleById(examples: seq<Example>, id: int) returns (r: Option<Example>)
    ensures r == FindExample(examples, id)
  {
    var i := 0;
    while i < |examples|
      invariant i <= |examples|
      invariant FindExample(examples, id) == FindExample(examples[i..], id)
    {
      if examples[i].id == id {
        return Some(examples[i]);
      }
      assert examples[i..][1..] == examples[i + 1..];
      i := i + 1;
    }
    r := None;
  }

  // ---- examples of a topic ------------------------------------------------

  /** The example ids of the history rows of topic `topicId` in tag `tagId`,
      in row order, repeats included. */
  function MatchingIds(histories: seq<TopicHistory>, tagId: int, topicId: int): (r: seq<int>)
  {
    if histories == [] then []
    else
      var th := histories[|histories| - 1];
      MatchingIds(histories[..|histories| - 1], tagId, topicId)
        + (if th.docTagId == tagId && th.docTopicId == topicId then [th.docExampleId] else [])
  }

  /** An id is matched exactly when some row of that topic and tag names it. */
  lemma {:induction false} MatchingIdsMembership(histories: seq<TopicHistory>, tagId: int, topicId: int, id: int)
    ensures id in MatchingIds(histories, tagId, topicId)
        <==> exists th :: th in histories && th.docTagId == tagId && th.docTopicId == topicId && th.docExampleId == id
  {
    if histories != [] {
      var init := histories[..|histories| - 1];
      MatchingIdsMembership(init, tagId, topicId, id);
      assert histories == init + [histories[|histories| - 1]];
    }
  }

  /** First-occurrence deduplication, as done with the `seenIds` map. */
  function Dedup(xs: seq<int>): (r: seq<int>)
  {
    if xs == [] then []
    else
      var init := xs[..|xs| - 1];
      var x := xs[|xs| - 1];
      Dedup(init) + (if x in init then [] else [x])
  }

  /** `Dedup` keeps every id, once, in order of first occurrence. */
  lemma {:induction false} DedupProperties(xs: seq<int>)
    ensures forall x :: x in Dedup(xs) <==> x in xs
    ensures IdsInOrder(Dedup(xs), xs)
  {
    if xs != [] {
      var init := xs[..|xs| - 1];
      var x := xs[|xs| - 1];
      assert xs == init + [x];
      DedupProperties(init);
      var d := Dedup(init);
      forall y | y in init ensures IndexOf(xs, y) == IndexOf(init, y) {
        IndexOfSnoc(init, x, y);
      }
      if x !in init {
        IndexOfNew(init, x);
        assert Dedup(xs) == d + [x];
        forall i | 0 <= i < |d| ensures IndexOf(xs, d[i]) < IndexOf(xs, x) {
          assert d[i] in d;
          IndexOfPresent(init, d[i]);
        }
      }
    }
  }

  /** Looks every id up and drops those that resolve to nothing. */
  function Resolve(ids: seq<int>, examples: seq<Example>): (r: seq<Example>)
    ensures |r| <= |ids|
  {
    if ids == [] then []
    else
      var init := ids[..|ids| - 1];
      var found := FindExample(examples, ids[|ids| - 1]);
      Resolve(init, examples) + (if found.Some? then [found.value] else [])
  }

  /** Exactly the resolvable ids survive, each as its first example. */
  lemma {:induction false} ResolveMembership(ids: seq<int>, examples: seq<Example>)
    ensures forall e :: e in Resolve(ids, examples) ==> e.id in ids && FindExample(examples, e.id) == Some(e)
    ensures forall id :: id in ids && FindExample(examples, id).Some? ==> FindExample(examples, id).value in Resolve(ids, examples)
  {
    if ids != [] {
      var init := ids[..|ids| - 1];
      ResolveMembership(init, examples);
      assert ids == init + [ids[|ids| - 1]];
    }
  }

  /** The ids in `ids` first occur in `order` in strictly increasing positions. */
  predicate IdsInOrder(ids: seq<int>, order: seq<int>) {
    forall i, j :: 0 <= i < j < |ids| ==> IndexOf(order, ids[i]) < IndexOf(order, ids[j])
  }

  /** The ids of a list of examples. */
  function IdsOf(exs: seq<Example>): (r: seq<int>)
    ensures |r| == |exs| && forall k :: 0 <= k < |exs| ==> r[k] == exs[k].id
  {
    if exs == [] then [] else [exs[0].id] + IdsOf(exs[1..])
  }

  /** Appending an example whose id comes after all others keeps the order. */
  lemma OrderSnoc(r0: seq<Example>, e: Example, order: seq<int>)
    requires IdsInOrder(IdsOf(r0), order)
    requires forall x :: x in r0 ==> IndexOf(order, x.id) < IndexOf(order, e.id)
    ensures IdsInOrder(IdsOf(r0 + [e]), order)
  {
    var rs := IdsOf(r0 + [e]);
    var r0s := IdsOf(r0);
    forall i, j | 0 <= i < j < |rs| ensures IndexOf(order, rs[i]) < IndexOf(order, rs[j]) {
      if j == |r0| {
        assert rs[i] == r0[i].id && r0[i] in r0;
      } else {
        assert rs[i] == r0s[i] && rs[j] == r0s[j];
      }
    }
  }

  /** Resolution keeps the order of the ids, measured by first occurrence in `order`. */
  lemma {:induction false} ResolveKeepsOrder(ids: seq<int>, examples: seq<Example>, order: seq<int>)
    requires IdsInOrder(ids, order)
    ensures IdsInOrder(IdsOf(Resolve(ids, examples)), order)
  {
    if ids != [] {
      var init := ids[..|ids| - 1];
      var last := ids[|ids| - 1];
      assert IdsInOrder(init, order) by {
        forall i, j | 0 <= i < j < |init| ensures IndexOf(order, init[i]) < IndexOf(order, init[j]) {
          assert init[i] == ids[i] && init[j] == ids[j];
        }
      }
      ResolveKeepsOrder(init, examples, order);
      ResolveMembership(init, examples);
      var r0 := Resolve(init, examples);
      var found := FindExample(examples, last);
      if found.Some? {
        assert Resolve(ids, examples) == r0 + [found.value];
        forall x | x in r0 ensures IndexOf(order, x.id) < IndexOf(order, found.value.id) {
          var p :| 0 <= p < |init| && init[p] == x.id;
          assert ids[p] == init[p] && ids[|ids| - 1] == last == found.value.id;
        }
        OrderSnoc(r0, found.value, order);
      } else {
        assert Resolve(ids, examples) == r0;
      }
    }
  }

  /** The examples of a topic: its history rows' ids, deduplicated, resolved. */
  function ExamplesForTopic(histories: seq<TopicHistory>, examples: seq<Example>, tagId: int, topicId: int): seq<Example>
  {
    Resolve(Dedup(MatchingIds(histories, tagId, topicId)), examples)
  }

  /** Every example of a topic comes from a history row of that topic and
      tag, and is the first example stored with its id. */
  lemma ExamplesForTopicSources(histories: seq<TopicHistory>, examples: seq<Example>, tagId: int, topicId: int, e: Example)
    requires e in ExamplesForTopic(histories, examples, tagId, topicId)
    ensures FindExample(examples, e.id) == Some(e)
    ensures exists th :: th in histories && th.docTagId == tagId && th.docTopicId == topicId && th.docExampleId == e.id
  {
    var ms := MatchingIds(histories, tagId, topicId);
    DedupProperties(ms);
    ResolveMembership(Dedup(ms), examples);
    MatchingIdsMembership(histories, tagId, topicId, e.id);
  }

  /** An id named by a history row of the topic yields an example exactly
      when it resolves; unresolvable ids are dropped without error. */
  lemma ExamplesForTopicResolvable(histories: seq<TopicHistory>, examples: seq<Example>, tagId: int, topicId: int, id: int)
    ensures (exists e :: e in ExamplesForTopic(histories, examples, tagId, topicId) && e.id == id)
        <==> id in MatchingIds(histories, tagId, topicId) && FindExample(examples, id).Some?
  {
    var ms := MatchingIds(histories, tagId, topicId);
    DedupProperties(ms);
    ResolveMembership(Dedup(ms), examples);
    if id in ms && FindExample(examples, id).Some? {
      assert FindExample(examples, id).value in ExamplesForTopic(histories, examples, tagId, topicId);
    }
  }

  /** Ids appear at most once, in the order of their first history row. */
  lemma ExamplesForTopicOrder(histories: seq<TopicHistory>, examples: seq<Example>, tagId: int, topicId: int)
    ensures IdsInOrder(IdsOf(ExamplesForTopic(histories, examples, tagId, topicId)), MatchingIds(histories, tagId, topicId))
    ensures var ids := IdsOf(ExamplesForTopic(histories, examples, tagId, topicId));
            forall i, j :: 0 <= i < j < |ids| ==> ids[i] != ids[j]
  {
    var ms := MatchingIds(histories, tagId, topicId);
    DedupProperties(ms);
    ResolveKeepsOrder(Dedup(ms), examples, ms);
  }

  lemma MatchingIdsStep(histories: seq<TopicHistory>, tagId: int, topicId: int, i: nat)
    requires i < |histories|
    ensures MatchingIds(histories[..i + 1], tagId, topicId)
         == MatchingIds(histories[..i], tagId, topicId)
            + (if histories[i].docTagId == tagId && histories[i].docTopicId == topicId
               then [histories[i].docExampleId] else [])
  {
    assert histories[..i + 1][..i] == histories[..i];
  }

  lemma DedupSnoc(xs: seq<int>, x: int)
    ensures Dedup(xs + [x]) == Dedup(xs) + (if x in xs then [] else [x])
  {
    assert (xs + [x])[..|xs|] == xs;
  }

  lemma ResolveSnoc(ids: seq<int>, x: int, examples: seq<Example>)
    ensures Resolve(ids + [x], examples)
         == Resolve(ids, examples) + (if FindExample(examples, x).Some? then [FindExample(examples, x).value] else [])
  {
    assert (ids + [x])[..|ids|] == ids;
  }

  /** What one more matching history row does to the resolved examples. */
  lemma HistoryStep(ms: seq<int>, id: int, examples: seq<Example>)
    ensures id in ms ==> Resolve(Dedup(ms + [id]), examples) == Resolve(Dedup(ms), examples)
    ensures id !in ms ==>
      Resolve(Dedup(ms + [id]), examples) == Resolve(Dedup(ms), examples) +
        (if FindExample(examples, id).Some? then [FindExample(examples, id).value] else [])
  {
    DedupSnoc(ms, id);
    if id !in ms {
      ResolveSnoc(Dedup(ms), id, examples);
      assert Dedup(ms + [id]) == Dedup(ms) + [id];
    } else {
      assert Dedup(ms + [id]) == Dedup(ms);
    }
  }

  /** `getExamplesForTopic`: one pass over the history rows with a seen-set;
      an id is marked seen before it is looked up, so an unresolvable id is
      tried once and dropped. */
  method GetExamplesForTopic(histories: seq<TopicHistory>, examples: seq<Example>, docTagId: int, docTopicId: int)
    returns (res: seq<Example>)
    ensures res == ExamplesForTopic(histories, examples, docTagId, docTopicId)
  {
    res := [];
    var seenIds: set<int> := {};
    ghost var ms: seq<int> := [];
    var i := 0;
    while i < |histories|
      invariant i <= |histories|
      invariant ms == MatchingIds(histories[..i], docTagId, docTopicId)
      invariant forall x :: x in seenIds <==> x in ms
      invariant res == Resolve(Dedup(ms), examples)
    {
      MatchingIdsStep(histories, docTagId, docTopicId, i);
      var th := histories[i];
      if th.docTagId == docTagId && th.docTopicId == docTopicId {
        var id := th.docExampleId;
        HistoryStep(ms, id, examples);
        if id !in seenIds {
          seenIds := seenIds + {id};
          var ex := GetExampleById(examples, id);
          if ex.Some? {
            res := res + [ex.value];
          }
        }
        ms := ms + [id];
      }
      i := i + 1;
    }
    assert histories[..i] == histories;
  }

  // ---- example count of a tag ---------------------------------------------

  /** The ids of the topics of tag `tagId` (the `topics` map of calcExampleCount). */
  function TopicIdsOfTag(topics: seq<Topic>, tagId: int): (r: set<int>)
  {
    if topics == [] then {}
    else
      var t := topics[|topics| - 1];
      TopicIdsOfTag(topics[..|topics| - 1], tagId) + (if t.docTagId == tagId then {t.id} else {})
  }

  lemma {:induction false} TopicIdsOfTagMembership(topics: seq<Topic>, tagId: int, x: int)
    ensures x in TopicIdsOfTag(topics, tagId) <==> IsTopicOfTag(topics, tagId, x)
  {
    if topics != [] {
      var init := topics[..|topics| - 1];
      TopicIdsOfTagMembership(init, tagId, x);
      assert topics == init + [topics[|topics| - 1]];
    }
  }

  /** How many entries of `examples` belong to a topic in `ids`. */
  function CountInTopics(examples: seq<Example>, ids: set<int>): (n: nat)
    ensures n <= |examples|
  {
    if examples == [] then 0
    else
      CountInTopics(examples[..|examples| - 1], ids)
        + (if examples[|examples| - 1].docTopicId in ids then 1 else 0)
  }

  /** The count is the number of positions of `examples` whose topic is in `ids`. */
  lemma {:induction false} CountInTopicsIsCardinality(examples: seq<Example>, ids: set<int>, k: nat)
    requires k <= |examples|
    ensures CountInTopics(examples[..k], ids) == |set i | 0 <= i < k && examples[i].docTopicId in ids|
  {
    if k > 0 {
      CountInTopicsIsCardinality(examples, ids, k - 1);
      assert examples[..k][..k - 1] == examples[..k - 1];
      var before := set i | 0 <= i < k - 1 && examples[i].docTopicId in ids;
      var after := set i | 0 <= i < k && examples[i].docTopicId in ids;
      if examples[k - 1].docTopicId in ids {
        assert after == before + {k - 1};
      } else {
        assert after == before;
      }
    }
  }

  /** The derived `ExampleCount` of tag `tagId`: the number of entries of the
      example collection whose topic is one of the tag's topics. */
  function ExampleCountOf(topics: seq<Topic>, examples: seq<Example>, tagId: int): nat
  {
    CountInTopics(examples, TopicIdsOfTag(topics, tagId))
  }

  /** `topicId` is the id of some topic of tag `tagId`. */
  predicate IsTopicOfTag(topics: seq<Topic>, tagId: int, topicId: int) {
    exists t :: t in topics && t.docTagId == tagId && t.id == topicId
  }

  /** `ExampleCountOf` counts the positions whose example's topic belongs to the tag. */
  lemma ExampleCountOfMeaning(topics: seq<Topic>, examples: seq<Example>, tagId: int)
    ensures ExampleCountOf(topics, examples, tagId)
         == |set i | 0 <= i < |examples| && IsTopicOfTag(topics, tagId, examples[i].docTopicId)|
  {
    var ids := TopicIdsOfTag(topics, tagId);
    CountInTopicsIsCardinality(examples, ids, |examples|);
    assert examples[..|examples|] == examples;
    forall i | 0 <= i < |examples|
      ensures examples[i].docTopicId in ids <==> IsTopicOfTag(topics, tagId, examples[i].docTopicId)
    {
      TopicIdsOfTagMembership(topics, tagId, examples[i].docTopicId);
    }
    assert (set i | 0 <= i < |examples| && examples[i].docTopicId in ids)
        == (set i | 0 <= i < |examples| && IsTopicOfTag(topics, tagId, examples[i].docTopicId));
  }
}
