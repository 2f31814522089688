/** The line-oriented key/value format of the chapter and section files
    (cmd/import-stack-overflow/main.go:177-277). A field is written either on
    one line, `key: value\n`, or as a block, `key:\nvalue\n<SEP>\n`, where SEP
    is the record separator `mdutil.KVRecordSeparator`, kept abstract here. A
    field with a blank value is left out. `ParseRecord` is a reference reader
    for the format; the round-trip lemmas state what the writer guarantees. */
module Serializer {
  import opened Results
  import opened Records
  import opened Text

  /** `mdutil.KVRecordSeparator`: some non-empty string. */
  type Separator = s: string | |s| > 0 witness "-"

  /** The longest value written on one line (main.go:178). */
  const MaxLineValue: nat := 80

  /** `isEmptyString`: made of white space only (see `IsEmptyStringTrims`). */
  predicate IsEmptyString(s: string) {
    forall i :: 0 <= i < |s| ==> IsSpace(s[i])
  }

  /** `IsEmptyString` is the source's test, `len(strings.TrimSpace(s)) == 0`. */
  lemma IsEmptyStringTrims(s: string)
    ensures IsEmptyString(s) <==> |TrimSpace(s)| == 0
  {
    var r := TrimSpace(s);
    if r != [] {
      assert s[LeadingSpace(s)] == r[0];
    }
  }

  /** `serFitsOneLine`: at most 80 bytes, with no newline and no colon. */
  function FitsOneLine(s: string): (r: bool)
    ensures r <==> |s| <= MaxLineValue && '\n' !in s && ':' !in s
  {
    ContainsChar(s, '\n');
    ContainsChar(s, ':');
    if |s| > MaxLineValue then false
    else if Contains(s, "\n") then false
    else if Contains(s, ":") then false
    else true
  }

  /** Exactly 80 bytes still fit on one line, 81 do not. */
  lemma FitsOneLineBoundary(s: string)
    requires '\n' !in s && ':' !in s
    ensures |s| == 80 ==> FitsOneLine(s)
    ensures |s| == 81 ==> !FitsOneLine(s)
  {
  }

  /** `serField`. A blank value gives nothing; a value that fits gives one
      line; any other gives a block, which fails (the source panics) when the
      value contains the separator. */
  function SerField(k: string, v: string, sep: Separator): (r: Result<string>)
    ensures r == Ok("") <==> IsEmptyString(v)
    ensures r.Err? <==> !IsEmptyString(v) && !FitsOneLine(v) && Contains(v, sep)
    ensures r.Ok? && r.value != "" ==> StartsWith(r.value, k + ":") && r.value[|r.value| - 1] == '\n'
  {
    if IsEmptyString(v) then Ok("")
    else if FitsOneLine(v) then Ok(k + ": " + v + "\n")
    else if Contains(v, sep) then Err(SeparatorInValue(k))
    else Ok(k + ":\n" + v + "\n" + sep + "\n")
  }

  /** A non-blank value without newline or colon is written on one line up to
      80 bytes and as a block (or rejected) beyond. */
  lemma SerFieldBoundary(k: string, v: string, sep: Separator)
    requires !IsEmptyString(v) && '\n' !in v && ':' !in v
    ensures |v| <= 80 ==> SerField(k, v, sep) == Ok(k + ": " + v + "\n")
    ensures |v| > 80 ==> SerField(k, v, sep)
                         == if Contains(v, sep) then Err(SeparatorInValue(k))
                            else Ok(k + ":\n" + v + "\n" + sep + "\n")
  {
  }

  /** `serFieldMarkdown` with markdown reformatting off (main.go:28), which is
      how the importer runs: the same as `serField`. */
  function SerFieldMarkdown(k: string, v: string, sep: Separator): (r: Result<string>)
    ensures r == SerField(k, v, sep)
  {
    if IsEmptyString(v) then Ok("") else SerField(k, v, sep)
  }

  /** `shortenVersion`: the empty JSON list "[]" counts as no versions. */
  function ShortenVersion(s: string): (r: string)
    ensures s == "[]" ==> r == ""
    ensures s != "[]" ==> r == s
  {
    if s == "[]" then "" else s
  }

  // ---- records ------------------------------------------------------------

  datatype Field = Field(key: string, value: string)

  /** A record written field after field; the first failing field stops it. */
  function SerRecord(fields: seq<Field>, sep: Separator): (r: Result<string>)
    ensures r.Ok? && fields == [] ==> r.value == ""
  {
    if fields == [] then Ok("")
    else match SerField(fields[0].key, fields[0].value, sep)
      case Err(f) => Err(f)
      case Ok(t) =>
        match SerRecord(fields[1..], sep)
        case Err(f) => Err(f)
        case Ok(u) => Ok(t + u)
  }

  /** One `s += serField(k, v)` step; a failure is kept (the source panics).
      `SerRecordSnoc` states what the step does to a record. */
  function AddField(acc: Result<string>, k: string, v: string, sep: Separator): Result<string> {
    match acc
    case Err(_) => acc
    case Ok(s) =>
      match SerField(k, v, sep)
      case Err(f) => Err(f)
      case Ok(t) => Ok(s + t)
  }

  /** Writing one more field is one more `AddField` step. */
  lemma {:induction false} SerRecordSnoc(fields: seq<Field>, f: Field, sep: Separator)
    ensures SerRecord(fields + [f], sep) == AddField(SerRecord(fields, sep), f.key, f.value, sep)
  {
    if fields == [] {
      assert [f][1..] == [];
      match SerField(f.key, f.value, sep)
      case Err(_) =>
      case Ok(t) => assert t + "" == t && "" + t == t;
    } else {
      assert (fields + [f])[0] == fields[0];
      assert (fields + [f])[1..] == fields[1..] + [f];
      SerRecordSnoc(fields[1..], f, sep);
      match SerField(fields[0].key, fields[0].value, sep)
      case Err(_) =>
      case Ok(t) =>
        match SerRecord(fields[1..], sep)
        case Err(_) =>
        case Ok(u) =>
          match SerField(f.key, f.value, sep)
          case Err(_) =>
          case Ok(w) => ConcatAssoc(t, u, w);
    }
  }

  /** The fields that a record actually writes: those with a non-blank value. */
  function Emitted(fields: seq<Field>): (r: seq<Field>)
    ensures |r| <= |fields|
  {
    if fields == [] then []
    else (if IsEmptyString(fields[0].value) then [] else [fields[0]]) + Emitted(fields[1..])
  }

  lemma {:induction false} EmittedAppend(a: seq<Field>, b: seq<Field>)
    ensures Emitted(a + b) == Emitted(a) + Emitted(b)
  {
    if a == [] {
      assert a + b == b;
    } else {
      assert (a + b)[0] == a[0];
      assert (a + b)[1..] == a[1..] + b;
      EmittedAppend(a[1..], b);
    }
  }

  // ---- a reference reader -------------------------------------------------

  /** The block terminator: the separator on a line of its own. */
  function Terminator(sep: Separator): string {
    "\n" + sep + "\n"
  }

  /** The first offset at or after `p` where `pat` starts in `s`. */
  function FindFrom(s: string, pat: string, p: nat): (r: Option<nat>)
    ensures r.Some? ==> p <= r.value && r.value + |pat| <= |s| && StartsWith(s[r.value..], pat)
    decreases |s| - p
  {
    if p + |pat| > |s| then None
    else if StartsWith(s[p..], pat) then Some(p)
    else FindFrom(s, pat, p + 1)
  }

  lemma {:induction false} FindFromFirst(s: string, pat: string, p: nat, q: nat)
    requires p <= q && q + |pat| <= |s| && StartsWith(s[q..], pat)
    requires forall x :: p <= x < q ==> !StartsWith(s[x..], pat)
    ensures FindFrom(s, pat, p) == Some(q)
    decreases q - p
  {
    if p < q {
      FindFromFirst(s, pat, p + 1, q);
    }
  }

  /** Reads one field off the front of `s`, returning it and the rest. */
  function ParseField(s: string, sep: Separator): (r: Option<(Field, string)>)
    ensures r.Some? ==> |r.value.1| < |s|
  {
    var i := IndexOf(s, ':');
    if i + 1 >= |s| then None
    else if s[i + 1] == ' ' then
      var body := s[i + 2..];
      var j := IndexOf(body, '\n');
      if j == |body| then None else Some((Field(s[..i], body[..j]), body[j + 1..]))
    else if s[i + 1] == '\n' then
      var body := s[i + 2..];
      match FindFrom(body, Terminator(sep), 0)
      case None => None
      case Some(j) => Some((Field(s[..i], body[..j]), body[j + |sep| + 2..]))
    else None
  }

  /** Reads a whole record. */
  function ParseRecord(s: string, sep: Separator): (r: Option<seq<Field>>)
    decreases |s|
  {
    if s == [] then Some([])
    else match ParseField(s, sep)
      case None => None
      case Some((f, rest)) =>
        match ParseRecord(rest, sep)
        case None => None
        case Some(fs) => Some([f] + fs)
  }

  /** A key the reader can find: it has no colon. */
  predicate ValidKey(k: string) {
    ':' !in k
  }

  /** A block value that does not contain the separator ends at the first
      terminator, provided the separator has no newline. */
  lemma TerminatorAfterValue(v: string, sep: Separator, rest: string)
    requires '\n' !in sep && !Contains(v, sep)
    ensures FindFrom(v + Terminator(sep) + rest, Terminator(sep), 0) == Some(|v|)
  {
    var pat := Terminator(sep);
    var body := v + pat + rest;
    assert body[|v|..][..|pat|] == pat;
    forall x | 0 <= x < |v| ensures !StartsWith(body[x..], pat) {
      if x + 1 + |sep| <= |v| {
        NotContainsAt(v, sep, x + 1);
        assert body[x + 1..x + 1 + |sep|] == v[x + 1..x + 1 + |sep|];
        assert body[x..][..|pat|][1..1 + |sep|] == body[x + 1..x + 1 + |sep|];
      } else {
        var m := |v| - x - 1;
        assert body[x..][1 + m] == body[|v|] == '\n';
        assert sep[m] in sep;
        assert pat[1 + m] == sep[m] != '\n';
      }
    }
    FindFromFirst(body, pat, 0, |v|);
  }

  /** A one-line field reads back as its key and value. */
  lemma OneLineRoundTrip(k: string, v: string, sep: Separator, rest: string)
    requires ValidKey(k) && '\n' !in v
    ensures ParseField(k + ": " + v + "\n" + rest, sep) == Some((Field(k, v), rest))
  {
    var s := k + ": " + v + "\n" + rest;
    assert s == k + (": " + v + "\n" + rest);
    IndexOfAfter(k, ": " + v + "\n" + rest, ':');
    var body := s[|k| + 2..];
    assert body == v + ("\n" + rest);
    IndexOfAfter(v, "\n" + rest, '\n');
    assert body[..|v|] == v && body[|v| + 1..] == rest;
  }

  /** A block field reads back as its key and value. */
  lemma BlockRoundTrip(k: string, v: string, sep: Separator, rest: string)
    requires ValidKey(k) && '\n' !in sep && !Contains(v, sep)
    ensures ParseField(k + ":\n" + v + "\n" + sep + "\n" + rest, sep) == Some((Field(k, v), rest))
  {
    var tail := v + Terminator(sep) + rest;
    BlockShape(k, v, sep, rest);
    TerminatorAfterValue(v, sep, rest);
    BlockFromTail(k, tail, sep, |v|);
    assert tail[..|v|] == v && tail[|v| + |sep| + 2..] == rest;
  }

  lemma BlockShape(k: string, v: string, sep: string, rest: string)
    ensures k + ":\n" + v + "\n" + sep + "\n" + rest == k + ":\n" + (v + ("\n" + sep + "\n") + rest)
  {
  }

  lemma BlockFromTail(k: string, tail: string, sep: Separator, j: nat)
    requires ValidKey(k) && FindFrom(tail, Terminator(sep), 0) == Some(j)
    ensures ParseField(k + ":\n" + tail, sep) == Some((Field(k, tail[..j]), tail[j + |sep| + 2..]))
  {
    var s := k + ":\n" + tail;
    ConcatAssoc(k, ":\n", tail);
    IndexOfAfter(k, ":\n" + tail, ':');
    assert s[..|k|] == k;
    assert s[|k| + 1] == '\n';
    assert s[|k| + 2..] == tail;
  }

  /** Reading back a written field gives the key, the exact value and the rest. */
  lemma SerFieldRoundTrip(k: string, v: string, sep: Separator, rest: string)
    requires ValidKey(k) && '\n' !in sep && !IsEmptyString(v) && SerField(k, v, sep).Ok?
    ensures ParseField(SerField(k, v, sep).value + rest, sep) == Some((Field(k, v), rest))
  {
    if FitsOneLine(v) {
      OneLineRoundTrip(k, v, sep, rest);
    } else {
      BlockRoundTrip(k, v, sep, rest);
    }
  }

  lemma IndexOfAfter(a: string, b: string, c: char)
    requires c !in a && b != [] && b[0] == c
    ensures IndexOf(a + b, c) == |a|
  {
    assert (a + b)[|a|] == c;
    assert forall i :: 0 <= i < |a| ==> (a + b)[i] == a[i] && a[i] in a;
  }

  /** Reading back a written record gives exactly its non-blank fields, in order. */
  lemma {:induction false} SerRecordRoundTrip(fields: seq<Field>, sep: Separator)
    requires KeysValid(fields)
    requires '\n' !in sep && SerRecord(fields, sep).Ok?
    ensures ParseRecord(SerRecord(fields, sep).value, sep) == Some(Emitted(fields))
  {
    if fields != [] {
      var f := fields[0];
      var rest := fields[1..];
      assert forall k :: 0 <= k < |rest| ==> ValidKey(rest[k].key) by {
        forall k | 0 <= k < |rest| ensures ValidKey(rest[k].key) {
          assert rest[k] == fields[k + 1];
        }
      }
      assert ValidKey(f.key);
      var t := SerField(f.key, f.value, sep).value;
      var u := SerRecord(rest, sep).value;
      SerRecordRoundTrip(rest, sep);
      assert SerRecord(fields, sep).value == t + u;
      if IsEmptyString(f.value) {
        assert t + u == u;
        assert Emitted(fields) == Emitted(rest);
      } else {
        SerFieldRoundTrip(f.key, f.value, sep, u);
        ParseRecordCons(t + u, sep, f, u);
        assert Emitted(fields) == [f] + Emitted(rest);
      }
    }
  }

  lemma ParseRecordCons(s: string, sep: Separator, f: Field, rest: string)
    requires ParseField(s, sep) == Some((f, rest))
    ensures ParseRecord(s, sep) == match ParseRecord(rest, sep)
                                   case None => None
                                   case Some(fs) => Some([f] + fs)
  {
  }

  // ---- chapter and section records ----------------------------------------

  /** A field that is written only when its value is not blank. */
  function Opt(k: string, v: string): (r: seq<Field>)
    ensures |r| <= 1
  {
    if IsEmptyString(v) then [] else [Field(k, v)]
  }

  /** A markdown field with its HTML fallback, as written: the `…Html` field
      follows only when the markdown value is blank. */
  function MarkdownFields(k: string, md: string, html: string): seq<Field> {
    [Field(k, md)] + (if IsEmptyString(md) then [Field(k + "Html", html)] else [])
  }

  /** What a markdown field with fallback contributes to the output: the
      markdown value when it is not blank, else the HTML value if that is not
      blank; never both. */
  function Preferred(k: string, md: string, html: string): (r: seq<Field>)
    ensures |r| <= 1
    ensures r != [] ==>
      (r[0] == Field(k, md) && !IsEmptyString(md)) ||
      (r[0] == Field(k + "Html", html) && IsEmptyString(md) && !IsEmptyString(html))
  {
    if IsEmptyString(md) then Opt(k + "Html", html) else [Field(k, md)]
  }

  lemma MarkdownFieldsEmitted(k: string, md: string, html: string)
    ensures Emitted(MarkdownFields(k, md, html)) == Preferred(k, md, html)
  {
    if IsEmptyString(md) {
      EmittedAppend([Field(k, md)], [Field(k + "Html", html)]);
      assert [Field(k + "Html", html)][1..] == [];
    } else {
      assert MarkdownFields(k, md, html) == [Field(k, md)];
      assert [Field(k, md)][1..] == [];
    }
  }

  /** The fields of a chapter's `index.txt`, in the order `writeIndexTxtMust`
      writes them. */
  function ChapterFields(t: Topic): seq<Field> {
    var versions := ShortenVersion(t.versionsJson);
    [Field("Title", t.title), Field("Versions", versions)]
    + (if IsEmptyString(versions) then [Field("VersionsHtml", t.helloWorldVersionsHtml)] else [])
    + MarkdownFields("Introduction", t.introductionMarkdown, t.introductionHtml)
    + MarkdownFields("Syntax", t.syntaxMarkdown, t.syntaxHtml)
    + MarkdownFields("Parameters", t.parametersMarkdown, t.parametersHtml)
    + MarkdownFields("Remarks", t.remarksMarkdown, t.remarksHtml)
  }

  /** The fields a chapter record actually holds: Title, Versions (with "[]"
      read as none), VersionsHtml only in place of missing versions, then each
      of Introduction, Syntax, Parameters, Remarks as markdown or, failing
      that, as HTML; blank values omitted. */
  lemma ChapterFieldsEmitted(t: Topic)
    ensures var versions := ShortenVersion(t.versionsJson);
            Emitted(ChapterFields(t))
            == Opt("Title", t.title) + Opt("Versions", versions)
               + (if IsEmptyString(versions) then Opt("VersionsHtml", t.helloWorldVersionsHtml) else [])
               + Preferred("Introduction", t.introductionMarkdown, t.introductionHtml)
               + Preferred("Syntax", t.syntaxMarkdown, t.syntaxHtml)
               + Preferred("Parameters", t.parametersMarkdown, t.parametersHtml)
               + Preferred("Remarks", t.remarksMarkdown, t.remarksHtml)
  {
    var versions := ShortenVersion(t.versionsJson);
    var head := [Field("Title", t.title), Field("Versions", versions)];
    var vh := if IsEmptyString(versions) then [Field("VersionsHtml", t.helloWorldVersionsHtml)] else [];
    var intro := MarkdownFields("Introduction", t.introductionMarkdown, t.introductionHtml);
    var syntax := MarkdownFields("Syntax", t.syntaxMarkdown, t.syntaxHtml);
    var params := MarkdownFields("Parameters", t.parametersMarkdown, t.parametersHtml);
    var remarks := MarkdownFields("Remarks", t.remarksMarkdown, t.remarksHtml);
    EmittedSix(head, vh, intro, syntax, params, remarks);
    EmittedPair(head[0], head[1]);
    if IsEmptyString(versions) {
      EmittedOne(vh[0]);
    }
    MarkdownFieldsEmitted("Introduction", t.introductionMarkdown, t.introductionHtml);
    MarkdownFieldsEmitted("Syntax", t.syntaxMarkdown, t.syntaxHtml);
    MarkdownFieldsEmitted("Parameters", t.parametersMarkdown, t.parametersHtml);
    MarkdownFieldsEmitted("Remarks", t.remarksMarkdown, t.remarksHtml);
  }

  lemma EmittedOne(x: Field)
    ensures Emitted([x]) == Opt(x.key, x.value)
  {
    assert [x][1..] == [];
  }

  lemma EmittedPair(x: Field, y: Field)
    ensures Emitted([x, y]) == Opt(x.key, x.value) + Opt(y.key, y.value)
  {
    assert [x, y][1..] == [y];
    EmittedOne(y);
  }

  lemma EmittedSix(a: seq<Field>, b: seq<Field>, c: seq<Field>, d: seq<Field>, e: seq<Field>, f: seq<Field>)
    ensures Emitted(a + b + c + d + e + f)
         == Emitted(a) + Emitted(b) + Emitted(c) + Emitted(d) + Emitted(e) + Emitted(f)
  {
    EmittedAppend(a + b + c + d + e, f);
    EmittedAppend(a + b + c + d, e);
    EmittedAppend(a + b + c, d);
    EmittedAppend(a + b, c);
    EmittedAppend(a, b);
  }

  /** The chapter record reads back as exactly the fields above. */
  lemma ChapterRecordRoundTrip(t: Topic, sep: Separator)
    requires '\n' !in sep && SerRecord(ChapterFields(t), sep).Ok?
    ensures ParseRecord(SerRecord(ChapterFields(t), sep).value, sep) == Some(Emitted(ChapterFields(t)))
  {
    ChapterKeysValid(t);
    SerRecordRoundTrip(ChapterFields(t), sep);
  }

  lemma ChapterKeysValid(t: Topic)
    ensures KeysValid(ChapterFields(t))
  {
    var versions := ShortenVersion(t.versionsJson);
    var head := [Field("Title", t.title), Field("Versions", versions)];
    var vh := if IsEmptyString(versions) then [Field("VersionsHtml", t.helloWorldVersionsHtml)] else [];
    var intro := MarkdownFields("Introduction", t.introductionMarkdown, t.introductionHtml);
    var syntax := MarkdownFields("Syntax", t.syntaxMarkdown, t.syntaxHtml);
    var params := MarkdownFields("Parameters", t.parametersMarkdown, t.parametersHtml);
    var remarks := MarkdownFields("Remarks", t.remarksMarkdown, t.remarksHtml);
    ChapterKeyNames();
    assert KeysValid(head) && KeysValid(vh);
    MarkdownKeysValid("Introduction", t.introductionMarkdown, t.introductionHtml);
    MarkdownKeysValid("Syntax", t.syntaxMarkdown, t.syntaxHtml);
    MarkdownKeysValid("Parameters", t.parametersMarkdown, t.parametersHtml);
    MarkdownKeysValid("Remarks", t.remarksMarkdown, t.remarksHtml);
    KeysValidAppend(head, vh);
    KeysValidAppend(head + vh, intro);
    KeysValidAppend(head + vh + intro, syntax);
    KeysValidAppend(head + vh + intro + syntax, params);
    KeysValidAppend(head + vh + intro + syntax + params, remarks);
  }

  lemma ChapterKeyNames()
    ensures ValidKey("Title") && ValidKey("Versions") && ValidKey("VersionsHtml")
    ensures ValidKey("Introduction") && ValidKey("Introduction" + "Html")
    ensures ValidKey("Syntax") && ValidKey("Syntax" + "Html")
    ensures ValidKey("Parameters") && ValidKey("Parameters" + "Html")
    ensures ValidKey("Remarks") && ValidKey("Remarks" + "Html")
  {
  }

  /** Every key of `fields` can be found by the reader. */
  predicate KeysValid(fields: seq<Field>) {
    forall k :: 0 <= k < |fields| ==> ValidKey(fields[k].key)
  }

  lemma KeysValidAppend(a: seq<Field>, b: seq<Field>)
    requires KeysValid(a) && KeysValid(b)
    ensures KeysValid(a + b)
  {
    forall k | 0 <= k < |a + b| ensures ValidKey((a + b)[k].key) {
      if k >= |a| { assert (a + b)[k] == b[k - |a|]; }
    }
  }

  lemma MarkdownKeysValid(k: string, md: string, html: string)
    requires ValidKey(k) && ValidKey(k + "Html")
    ensures KeysValid(MarkdownFields(k, md, html))
  {
  }

  /** `writeIndexTxtMust` without the file write: builds the chapter record
      field by field. */
  method IndexTxt(topic: Topic, sep: Separator) returns (r: Result<string>)
    ensures r == SerRecord(ChapterFields(topic), sep)
  {
    ghost var fs: seq<Field> := [];
    var s := AddField(Ok(""), "Title", topic.title, sep);
    SerRecordSnoc(fs, Field("Title", topic.title), sep);
    fs := fs + [Field("Title", topic.title)];
    var versions := ShortenVersion(topic.versionsJson);
    SerRecordSnoc(fs, Field("Versions", versions), sep);
    s := AddField(s, "Versions", versions, sep);
    fs := fs + [Field("Versions", versions)];
    assert fs == [Field("Title", topic.title), Field("Versions", versions)];
    if IsEmptyString(versions) {
      SerRecordSnoc(fs, Field("VersionsHtml", topic.helloWorldVersionsHtml), sep);
      s := AddField(s, "VersionsHtml", topic.helloWorldVersionsHtml, sep);
      fs := fs + [Field("VersionsHtml", topic.helloWorldVersionsHtml)];
    }
    assert s == SerRecord(fs, sep);
    assert fs == [Field("Title", topic.title), Field("Versions", versions)]
                 + (if IsEmptyString(versions) then [Field("VersionsHtml", topic.helloWorldVersionsHtml)] else []);
    s, fs := AddMarkdownFields(s, fs, "Introduction", topic.introductionMarkdown, topic.introductionHtml, sep);
    s, fs := AddMarkdownFields(s, fs, "Syntax", topic.syntaxMarkdown, topic.syntaxHtml, sep);
    s, fs := AddMarkdownFields(s, fs, "Parameters", topic.parametersMarkdown, topic.parametersHtml, sep);
    s, fs := AddMarkdownFields(s, fs, "Remarks", topic.remarksMarkdown, topic.remarksHtml, sep);
    assert fs == ChapterFields(topic);
    r := s;
  }

  /** The repeated `s += serFieldMarkdown(k, md)` / `if isEmptyString(md) { s
      += serField(k + "Html", html) }` step of `writeIndexTxtMust`. */
  method AddMarkdownFields(s: Result<string>, ghost fs: seq<Field>, k: string, md: string, html: string, sep: Separator)
    returns (s': Result<string>, ghost fs': seq<Field>)
    requires s == SerRecord(fs, sep)
    ensures fs' == fs + MarkdownFields(k, md, html)
    ensures s' == SerRecord(fs', sep)
  {
    SerRecordSnoc(fs, Field(k, md), sep);
    s' := AddField(s, k, md, sep);  // serFieldMarkdown is serField here
    fs' := fs + [Field(k, md)];
    if IsEmptyString(md) {
      SerRecordSnoc(fs', Field(k + "Html", html), sep);
      s' := AddField(s', k + "Html", html, sep);
      fs' := fs' + [Field(k + "Html", html)];
    }
  }

  /** The fields of a section file, in the order `writeSectionMust` writes them. */
  function SectionFields(e: Example): seq<Field> {
    [Field("Title", e.title), Field("Score", Itoa(e.score))]
    + MarkdownFields("Body", e.bodyMarkdown, e.bodyHtml)
  }

  /** The line that every section record holds. */
  function ScoreLine(score: int): string {
    "Score: " + Itoa(score) + "\n"
  }

  /** A score is never blank and always fits on one line. */
  lemma ScoreFitsOneLine(score: Int64, sep: Separator)
    ensures !IsEmptyString(Itoa(score)) && FitsOneLine(Itoa(score))
    ensures SerField("Score", Itoa(score), sep) == Ok(ScoreLine(score))
  {
    var d := Itoa(score);
    ItoaShape(score);
    assert !IsSpace(d[0]);
    assert forall i :: 0 <= i < |d| ==> d[i] != '\n' && d[i] != ':';
    SerFieldOneLine("Score", d, sep);
    assert "Score" + ": " + d + "\n" == "Score: " + d + "\n";
  }

  lemma SerFieldOneLine(k: string, v: string, sep: Separator)
    requires !IsEmptyString(v) && FitsOneLine(v)
    ensures SerField(k, v, sep) == Ok(k + ": " + v + "\n")
  {
  }

  /** The fields a section record holds: its title if not blank, always its
      score, then the body as markdown or, failing that, as HTML. */
  lemma SectionFieldsEmitted(e: Example)
    ensures Emitted(SectionFields(e))
         == Opt("Title", e.title) + [Field("Score", Itoa(e.score))]
            + Preferred("Body", e.bodyMarkdown, e.bodyHtml)
  {
    var head := [Field("Title", e.title), Field("Score", Itoa(e.score))];
    var body := MarkdownFields("Body", e.bodyMarkdown, e.bodyHtml);
    ScoreFitsOneLine(e.score, "-");
    EmittedAppend(head, body);
    EmittedPair(head[0], head[1]);
    MarkdownFieldsEmitted("Body", e.bodyMarkdown, e.bodyHtml);
  }

  /** A record of at least two fields is its first two fields followed by the rest. */
  lemma SerRecordTwo(fields: seq<Field>, sep: Separator)
    requires |fields| >= 2 && SerRecord(fields, sep).Ok?
    ensures SerField(fields[0].key, fields[0].value, sep).Ok?
    ensures SerField(fields[1].key, fields[1].value, sep).Ok?
    ensures SerRecord(fields[2..], sep).Ok?
    ensures SerRecord(fields, sep).value
         == SerField(fields[0].key, fields[0].value, sep).value
            + (SerField(fields[1].key, fields[1].value, sep).value + SerRecord(fields[2..], sep).value)
  {
    assert fields[1..][0] == fields[1];
    assert fields[1..][1..] == fields[2..];
  }

  /** Every written section record holds the line `Score: <decimal score>`. */
  lemma SectionRecordHasScore(e: Example, sep: Separator)
    requires SerRecord(SectionFields(e), sep).Ok?
    ensures Contains(SerRecord(SectionFields(e), sep).value, ScoreLine(e.score))
  {
    var fs := SectionFields(e);
    ScoreFitsOneLine(e.score, sep);
    SerRecordTwo(fs, sep);
    var t := SerField("Title", e.title, sep).value;
    var rest := SerRecord(fs[2..], sep).value;
    var s := SerRecord(fs, sep).value;
    assert s == t + (ScoreLine(e.score) + rest);
    assert s[|t|..|t| + |ScoreLine(e.score)|] == ScoreLine(e.score);
    ContainsAt(s, ScoreLine(e.score), |t|);
  }

  /** A record fails exactly when one of its fields fails. */
  lemma {:induction false} SerRecordFailure(fields: seq<Field>, sep: Separator)
    ensures SerRecord(fields, sep).Err?
        <==> exists k :: 0 <= k < |fields| && SerField(fields[k].key, fields[k].value, sep).Err?
  {
    if fields != [] {
      SerRecordFailure(fields[1..], sep);
      if exists k :: 1 <= k < |fields| && SerField(fields[k].key, fields[k].value, sep).Err? {
        var k :| 1 <= k < |fields| && SerField(fields[k].key, fields[k].value, sep).Err?;
        assert fields[1..][k - 1] == fields[k];
      }
      if exists k :: 0 <= k < |fields[1..]| && SerField(fields[1..][k].key, fields[1..][k].value, sep).Err? {
        var k :| 0 <= k < |fields[1..]| && SerField(fields[1..][k].key, fields[1..][k].value, sep).Err?;
        assert fields[1..][k] == fields[k + 1];
      }
    }
  }

  /** The section record reads back as exactly the fields above. */
  lemma SectionRecordRoundTrip(e: Example, sep: Separator)
    requires '\n' !in sep && SerRecord(SectionFields(e), sep).Ok?
    ensures ParseRecord(SerRecord(SectionFields(e), sep).value, sep) == Some(Emitted(SectionFields(e)))
  {
    var head := [Field("Title", e.title), Field("Score", Itoa(e.score))];
    assert KeysValid(head);
    MarkdownKeysValid("Body", e.bodyMarkdown, e.bodyHtml);
    KeysValidAppend(head, MarkdownFields("Body", e.bodyMarkdown, e.bodyHtml));
    SerRecordRoundTrip(SectionFields(e), sep);
  }

  /** `writeSectionMust` without the file write. */
  method SectionTxt(example: Example, sep: Separator) returns (r: Result<string>)
    ensures r == SerRecord(SectionFields(example), sep)
  {
    ghost var fs: seq<Field> := [];
    SerRecordSnoc(fs, Field("Title", example.title), sep);
    var s := AddField(Ok(""), "Title", example.title, sep);
    fs := fs + [Field("Title", example.title)];
    var score := Itoa(example.score);
    SerRecordSnoc(fs, Field("Score", score), sep);
    s := AddField(s, "Score", score, sep);
    fs := fs + [Field("Score", score)];
    s, fs := AddMarkdownFields(s, fs, "Body", example.bodyMarkdown, example.bodyHtml, sep);
    r := s;
  }
}
