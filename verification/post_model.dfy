/** The Post document of backend/models/Post.js: the schema's field
    constraints and defaults, and the pre-save hook that derives `readTime`
    and fills an empty `excerpt`. */
module PostModel {
  import opened Wrappers
  import opened Text
  import opened Seqs

  type UserId = nat

  const TitleMaxLength: nat := 200
  const ExcerptMaxLength: nat := 500
  const WordsPerMinute: nat := 200
  const ExcerptSourceLength: nat := 150
  const Ellipsis: string := "..."
  const DefaultStatus: string := "draft"
  const DefaultReadTime: nat := 1

  /** The `status` enum. */
  datatype Status = Draft | Published

  function StatusName(s: Status): string {
    match s
    case Draft => "draft"
    case Published => "published"
  }

  /** The enum check of the schema: which status strings are accepted, and
      as what. */
  function ParseStatus(name: string): (r: Option<Status>)
    ensures r.Some? ==> StatusName(r.value) == name
    ensures r.None? ==> forall s: Status :: StatusName(s) != name
  {
    if name == "draft" then Some(Draft)
    else if name == "published" then Some(Published)
    else None
  }

  /** The schema default: a missing status is a draft. */
  function StatusOrDefault(status: Option<string>): (r: string)
    ensures status.None? ==> ParseStatus(r) == Some(Draft)
    ensures status.Some? ==> r == status.value
  {
    status.GetOr(DefaultStatus)
  }

  /** The shape of a `tags` value in a request body. */
  datatype TagsField = TagArray(items: seq<string>) | TagScalar(item: string)

  /** The fields of a request body that reach the Post model; `None` is a
      field the client did not send. `readTime` is a schema path without a
      validator, so a number the client sends for it reaches the document. */
  datatype PostBody = PostBody(
    title: Option<string>,
    content: Option<string>,
    excerpt: Option<string>,
    author: Option<UserId>,
    status: Option<string>,
    tags: Option<TagsField>,
    readTime: Option<int>)

  function TrimOption(s: Option<string>): (r: Option<string>)
    ensures r.Some? <==> s.Some?
    ensures r.Some? ==> IsTrimmed(r.value) && |r.value| <= |s.value|
  {
    match s
    case None => None
    case Some(t) => Some(Trim(t))
  }

  /** Casting `tags` to an array of trimmed strings: a missing value gives
      the empty array, a single string a one-element array. */
  function CastTags(tags: Option<TagsField>): (r: seq<string>)
    ensures forall i :: 0 <= i < |r| ==> IsTrimmed(r[i])
    ensures tags.Some? && tags.value.TagArray? ==>
      |r| == |tags.value.items| && forall i :: 0 <= i < |r| ==> r[i] == Trim(tags.value.items[i])
    ensures tags.Some? && tags.value.TagScalar? ==> r == [Trim(tags.value.item)]
    ensures tags.None? ==> r == []
  {
    match tags
    case None => []
    case Some(TagArray(items)) => TrimAll(items)
    case Some(TagScalar(item)) => [Trim(item)]
  }

  /** `title`: required, at most 200 characters (checked after trimming). */
  predicate TitleOk(title: string) {
    title != [] && |title| <= TitleMaxLength
  }

  /** `content`: required. */
  predicate ContentOk(content: string) {
    content != []
  }

  /** `excerpt`: optional, at most 500 characters. */
  predicate ExcerptOk(excerpt: Option<string>) {
    excerpt.Some? ==> |excerpt.value| <= ExcerptMaxLength
  }

  /** What document validation accepts. */
  predicate DocumentValid(title: Option<string>, content: Option<string>, excerpt: Option<string>,
                          author: Option<UserId>, status: string)
  {
    && title.Some? && TitleOk(title.value)
    && content.Some? && ContentOk(content.value)
    && ExcerptOk(excerpt)
    && author.Some?
    && ParseStatus(status).Some?
  }

  /** JavaScript truthiness of an optional string. */
  predicate Truthy(s: Option<string>) {
    s.Some? && s.value != []
  }

  /** `content.split(/\s+/)`: the pieces between maximal runs of white space.
      A string that starts (ends) with white space gives an empty first (last)
      piece, and the empty string gives one empty piece. */
  function WordPieces(s: string): (r: seq<string>)
    ensures |r| >= 1
    ensures forall i, k :: 0 <= i < |r| && 0 <= k < |r[i]| ==> !IsSpace(r[i][k])
    ensures forall i :: 0 < i < |r| - 1 ==> r[i] != []
    ensures r[0] == [] <==> s == [] || IsSpace(s[0])
    decreases |s|
  {
    if s == [] then [[]]
    else
      var rest := WordPieces(s[1..]);
      if IsSpace(s[0]) then
        if |s| > 1 && IsSpace(s[1]) then rest else [[]] + rest
      else [[s[0]] + rest[0]] + rest[1..]
  }

  function WordCount(s: string): nat {
    |WordPieces(s)|
  }

  /** Position `i` is the last character of a maximal run of white space. */
  predicate RunEndsAt(s: string, i: nat)
    requires i < |s|
  {
    IsSpace(s[i]) && (i + 1 == |s| || !IsSpace(s[i + 1]))
  }

  /** The number of maximal white-space runs that end at or after `i`. */
  function RunsFrom(s: string, i: nat): nat
    requires i <= |s|
    decreases |s| - i
  {
    if i == |s| then 0 else (if RunEndsAt(s, i) then 1 else 0) + RunsFrom(s, i + 1)
  }

  lemma {:induction false} WordPiecesOfSuffix(s: string, i: nat)
    requires i <= |s|
    ensures |WordPieces(s[i..])| == 1 + RunsFrom(s, i)
    decreases |s| - i
  {
    if i < |s| {
      WordPiecesOfSuffix(s, i + 1);
      var t := s[i..];
      assert t[1..] == s[i + 1..];
      assert t[0] == s[i];
      if i + 1 < |s| { assert t[1] == s[i + 1]; }
    }
  }

  /** The word count is one more than the number of maximal white-space runs. */
  lemma WordCountCountsRuns(s: string)
    ensures WordCount(s) == 1 + RunsFrom(s, 0)
  {
    WordPiecesOfSuffix(s, 0);
    assert s[0..] == s;
  }

  /** `Math.ceil(wordCount / 200) || 1`: whole minutes at 200 words per
      minute, never less than one. */
  function ReadMinutes(words: nat): (r: nat)
    ensures r >= 1
    ensures words > 0 ==> (r - 1) * WordsPerMinute < words <= r * WordsPerMinute
    ensures words == 0 ==> r == 1
  {
    var q := CeilDiv(words, WordsPerMinute);
    if q == 0 then 1 else q
  }

  /** The boundary of the first minute. */
  lemma ReadMinutesBoundary()
    ensures ReadMinutes(200) == 1 && ReadMinutes(201) == 2
  {
  }

  /** `content.substring(0, 150) + "..."`: the first 150 characters, with an
      ellipsis appended even when the content is shorter. */
  function AutoExcerpt(content: string): (r: string)
    ensures |r| == Min(ExcerptSourceLength, |content|) + |Ellipsis| && |r| <= 153
    ensures r[..|r| - |Ellipsis|] <= content
    ensures |content| <= ExcerptSourceLength ==> r[..|r| - |Ellipsis|] == content
    ensures r[|r| - |Ellipsis|..] == Ellipsis
  {
    content[..Min(ExcerptSourceLength, |content|)] + Ellipsis
  }

  /** An auto-filled excerpt always meets the excerpt bound of the schema. */
  lemma AutoExcerptWithinBound(content: string)
    ensures ExcerptOk(Some(AutoExcerpt(content)))
  {
  }

  /** A Post document between construction and the write. */
  class PostDocument {
    var title: Option<string>
    var content: Option<string>
    var excerpt: Option<string>
    var author: Option<UserId>
    var status: string
    var tags: seq<string>
    var readTime: int

    /** `new Post(body)`: the schema's setters trim `title` and each tag, and
        the defaults fill `status`, `tags` and `readTime` where the body has
        none. */
    constructor (body: PostBody)
      ensures title == TrimOption(body.title)
      ensures content == body.content && excerpt == body.excerpt && author == body.author
      ensures status == StatusOrDefault(body.status)
      ensures tags == CastTags(body.tags)
      ensures body.readTime.Some? ==> readTime == body.readTime.value
      ensures body.readTime.None? ==> readTime == DefaultReadTime
    {
      title := TrimOption(body.title);
      content := body.content;
      excerpt := body.excerpt;
      author := body.author;
      status := StatusOrDefault(body.status);
      tags := CastTags(body.tags);
      readTime := body.readTime.GetOr(DefaultReadTime);
    }

    /** Document validation, run before the pre-save hook. */
    predicate SchemaValid()
      reads this
    {
      DocumentValid(title, content, excerpt, author, status)
    }

    /** The `pre("save")` hook. */
    method PreSave()
      modifies this
      ensures Truthy(content) ==> readTime == ReadMinutes(WordCount(content.value))
      ensures !Truthy(content) ==> readTime == old(readTime)
      ensures Truthy(old(excerpt)) ==> excerpt == old(excerpt)
      ensures !Truthy(old(excerpt)) ==>
        excerpt == if Truthy(content) then Some(AutoExcerpt(content.value)) else old(excerpt)
      ensures title == old(title) && content == old(content) && author == old(author)
      ensures status == old(status) && tags == old(tags)
      ensures old(SchemaValid()) ==> SchemaValid()
      ensures old(readTime) >= 1 ==> readTime >= 1
    {
      if Truthy(content) {
        var wordCount := WordCount(content.value);
        readTime := ReadMinutes(wordCount);
      }
      if !Truthy(excerpt) && Truthy(content) {
        excerpt := Some(AutoExcerpt(content.value));
      }
    }
  }
}
