/** The four record kinds of the documentation dump as the importer reads them.
    Go strings are byte strings: a `string` here holds one `char` per byte, so
    `|s|` is Go's `len(s)`. */
module Records {

  /** Go's `int` on a 64-bit platform, the type of `Example.Score`. */
  type Int64 = x: int | -0x8000_0000_0000_0000 <= x < 0x8000_0000_0000_0000

  /** A documentation tag; one imported book. `exampleCount` is derived. */
  datatype DocTag = DocTag(id: int, title: string, topicCount: int, exampleCount: int)

  /** A topic of a tag; one chapter. */
  datatype Topic = Topic(
    id: int,
    docTagId: int,
    title: string,
    versionsJson: string,
    helloWorldVersionsHtml: string,
    introductionMarkdown: string,
    introductionHtml: string,
    syntaxMarkdown: string,
    syntaxHtml: string,
    parametersMarkdown: string,
    parametersHtml: string,
    remarksMarkdown: string,
    remarksHtml: string)

  /** A join row linking an example to a topic of a tag; rows may repeat. */
  datatype TopicHistory = TopicHistory(docTagId: int, docTopicId: int, docExampleId: int)

  /** A worked example; one section. */
  datatype Example = Example(
    id: int,
    docTopicId: int,
    title: string,
    score: Int64,
    isPinned: bool,
    bodyMarkdown: string,
    bodyHtml: string)
}
