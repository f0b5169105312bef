/** The post form of the create and edit pages (frontend/src/pages/
    CreatePost.tsx and EditPost.tsx): tags are typed as one comma-separated
    string, formatted with ", " when an existing post is loaded and parsed
    back into a list when the form is submitted. */
module PostForms {
  import opened Wrappers
  import opened Text
  import opened Seqs
  import opened PostModel

  /** The form state: the tags as the text the user types. */
  datatype FormData = FormData(title: string, content: string, excerpt: string, status: Status, tags: string)

  /** What a submitted form sends (`PostFormData`): the tags as a list. */
  datatype PostFormData = PostFormData(title: string, content: string, excerpt: string, status: Status,
                                       tags: seq<string>)

  /** The fields of a post, as the API returns it, that the edit page reads. */
  datatype ApiPost = ApiPost(title: string, content: string, excerpt: Option<string>, status: Status,
                             tags: Option<seq<string>>)

  const TagSeparator: char := ','
  const TagJoiner: string := ", "

  /** The state both pages start from: every text empty, status draft. */
  function InitialForm(): FormData {
    FormData([], [], [], Draft, [])
  }

  /** A tag as the form shows and parses it: non-empty, no white space at
      either end, no comma. */
  predicate WellFormedTag(t: string) {
    t != [] && IsTrimmed(t) && TagSeparator !in t
  }

  predicate WellFormedTags(tags: seq<string>) {
    forall i :: 0 <= i < |tags| ==> WellFormedTag(tags[i])
  }

  /** `Boolean` on a string: non-empty. */
  function NonEmptyText(): string -> bool {
    (t: string) => t != []
  }

  /** `tags.split(",").map((tag) => tag.trim()).filter(Boolean)` */
  function ParseTags(s: string): (r: seq<string>)
    ensures WellFormedTags(r)
    ensures forall t :: t in r <==> t in TrimAll(Split(s, TagSeparator)) && t != []
  {
    var pieces := Split(s, TagSeparator);
    forall i | 0 <= i < |pieces| ensures TagSeparator !in Trim(pieces[i]) {
      TrimAddsNoChar(pieces[i], TagSeparator);
    }
    var r := Filter(TrimAll(pieces), NonEmptyText());
    FilterMembers(TrimAll(pieces), NonEmptyText());
    assert forall i :: 0 <= i < |r| ==> r[i] in r;
    r
  }

  /** Text joined at a comma parses to the tags of its left part followed by
      the tags of its right part: the parse keeps the order of the pieces. */
  lemma ParseTagsAppend(a: string, b: string)
    ensures ParseTags(a + [TagSeparator] + b) == ParseTags(a) + ParseTags(b)
  {
    var pa, pb := Split(a, TagSeparator), Split(b, TagSeparator);
    var s := a + [TagSeparator] + b;
    assert ParseTags(s) == Filter(TrimAll(Split(s, TagSeparator)), NonEmptyText());
    assert ParseTags(a) == Filter(TrimAll(pa), NonEmptyText());
    assert ParseTags(b) == Filter(TrimAll(pb), NonEmptyText());
    SplitAppend(a, b, TagSeparator);
    TrimAllAppend(pa, pb);
    FilterAppend(TrimAll(pa), TrimAll(pb), NonEmptyText());
  }

  /** Text without a comma parses to its trimmed form, or to no tag when
      that is empty. */
  lemma ParseTagsOfPiece(s: string)
    requires TagSeparator !in s
    ensures ParseTags(s) == if Trim(s) == [] then [] else [Trim(s)]
  {
    SplitFree(s, [], TagSeparator);
    assert s + [] == s;
    assert TrimAll([s]) == [Trim(s)];
  }

  /** `tags.join(", ")` */
  function FormatTags(tags: seq<string>): string {
    Join(tags, TagJoiner)
  }

  /** `post.tags?.join(", ") || ""`: the tags joined with ", ", and no tags
      as the empty text. */
  function PrefillTags(tags: Option<seq<string>>): (r: string)
    ensures tags.None? || tags.value == [] ==> r == []
    ensures tags.Some? ==> r == FormatTags(tags.value)
  {
    match tags
    case None => []
    case Some(ts) => var text := FormatTags(ts); if text != [] then text else []
  }

  /** `handleSubmit`: the form's fields as they are, with the tag text parsed. */
  function Submit(form: FormData): (d: PostFormData)
    ensures WellFormedTags(d.tags) && d.tags == ParseTags(form.tags)
    ensures d.title == form.title && d.content == form.content && d.excerpt == form.excerpt
    ensures d.status == form.status
  {
    PostFormData(form.title, form.content, form.excerpt, form.status, ParseTags(form.tags))
  }

  /** `fetchPost` on the edit page: the post's fields with a missing excerpt
      shown as empty text and the tags formatted. */
  function PrefillForm(post: ApiPost): (f: FormData)
    ensures f.title == post.title && f.content == post.content && f.status == post.status
    ensures f.excerpt == post.excerpt.GetOr([])
    ensures f.tags == PrefillTags(post.tags)
  {
    FormData(post.title, post.content, post.excerpt.GetOr([]), post.status, PrefillTags(post.tags))
  }

  // ---------------------------------------------------------------------
  // Properties of the tag text

  /** Text made only of commas and white space. */
  predicate OnlySeparators(s: string) {
    forall i :: 0 <= i < |s| ==> s[i] == TagSeparator || IsSpace(s[i])
  }

  lemma {:induction false} JoinOfBlankPieces(parts: seq<string>)
    requires forall i :: 0 <= i < |parts| ==> AllSpace(parts[i])
    ensures OnlySeparators(Join(parts, [TagSeparator]))
  {
    if |parts| > 1 {
      JoinOfBlankPieces(parts[1..]);
      var rest := Join(parts[1..], [TagSeparator]);
      var whole := parts[0] + [TagSeparator] + rest;
      assert Join(parts, [TagSeparator]) == whole;
      forall i | 0 <= i < |whole| ensures whole[i] == TagSeparator || IsSpace(whole[i]) {
        if i < |parts[0]| {
          assert whole[i] == parts[0][i];
        } else if i > |parts[0]| {
          assert whole[i] == rest[i - |parts[0]| - 1];
        }
      }
    }
  }

  /** The tags come out empty exactly when the text holds nothing but
      commas and white space. */
  lemma ParseTagsEmptyIff(s: string)
    ensures ParseTags(s) == [] <==> OnlySeparators(s)
  {
    if OnlySeparators(s) {
      SeparatorsParseEmpty(s);
    }
    if ParseTags(s) == [] {
      EmptyParseOnlySeparators(s);
    }
  }

  lemma SeparatorsParseEmpty(s: string)
    requires OnlySeparators(s)
    ensures ParseTags(s) == []
  {
    SeparatorsGiveBlankPieces(s);
    BlankPiecesGiveNoTags(Split(s, TagSeparator));
  }

  lemma SeparatorsGiveBlankPieces(s: string)
    requires OnlySeparators(s)
    ensures forall i :: 0 <= i < |Split(s, TagSeparator)| ==> AllSpace(Split(s, TagSeparator)[i])
  {
    var pieces := Split(s, TagSeparator);
    forall i, j | 0 <= i < |pieces| && 0 <= j < |pieces[i]| ensures IsSpace(pieces[i][j]) {
      PieceCharInText(s, i, j);
      var k :| 0 <= k < |s| && s[k] == pieces[i][j];
      assert pieces[i][j] != TagSeparator;
    }
  }

  lemma BlankPiecesGiveNoTags(pieces: seq<string>)
    requires forall i :: 0 <= i < |pieces| ==> AllSpace(pieces[i])
    ensures Filter(TrimAll(pieces), NonEmptyText()) == []
  {
    var trimmed := TrimAll(pieces);
    forall t | t in trimmed ensures !NonEmptyText()(t) {
      var i :| 0 <= i < |trimmed| && trimmed[i] == t;
      TrimEmptyIffAllSpace(pieces[i]);
    }
    FilterNone(trimmed, NonEmptyText());
  }

  lemma EmptyParseOnlySeparators(s: string)
    requires ParseTags(s) == []
    ensures OnlySeparators(s)
  {
    var pieces := Split(s, TagSeparator);
    var trimmed := TrimAll(pieces);
    forall i | 0 <= i < |pieces| ensures AllSpace(pieces[i]) {
      assert trimmed[i] in trimmed;
      TrimEmptyIffAllSpace(pieces[i]);
    }
    JoinOfBlankPieces(pieces);
    JoinSplit(s, TagSeparator);
  }

  /** Every character of a piece of the split text comes from the text. */
  lemma PieceCharInText(s: string, i: nat, j: nat)
    requires i < |Split(s, TagSeparator)| && j < |Split(s, TagSeparator)[i]|
    ensures Split(s, TagSeparator)[i][j] in s
  {
    JoinSplit(s, TagSeparator);
    PieceCharInJoin(Split(s, TagSeparator), i, j);
  }

  /** A character of a piece is a character of the joined text. */
  lemma {:induction false} PieceCharInJoin(parts: seq<string>, i: nat, j: nat)
    requires i < |parts| && j < |parts[i]|
    ensures parts[i][j] in Join(parts, [TagSeparator])
  {
    if |parts| == 1 {
      assert Join(parts, [TagSeparator]) == parts[0];
    } else {
      var rest := Join(parts[1..], [TagSeparator]);
      assert Join(parts, [TagSeparator]) == parts[0] + [TagSeparator] + rest;
      if i == 0 {
        assert (parts[0] + [TagSeparator] + rest)[j] == parts[0][j];
      } else {
        PieceCharInJoin(parts[1..], i - 1, j);
        var k :| 0 <= k < |rest| && rest[k] == parts[i][j];
        assert (parts[0] + [TagSeparator] + rest)[|parts[0]| + 1 + k] == rest[k];
      }
    }
  }

  /** Each tag with one space in front. */
  function Spaced(tags: seq<string>): (r: seq<string>)
    ensures |r| == |tags| && forall i :: 0 <= i < |tags| ==> r[i] == [' '] + tags[i]
  {
    if tags == [] then [] else [[' '] + tags[0]] + Spaced(tags[1..])
  }

  /** Joining with ", " is joining the space-prefixed tags with ",". */
  lemma {:induction false} SpaceThenJoin(tags: seq<string>)
    requires |tags| >= 1
    ensures [' '] + Join(tags, TagJoiner) == Join(Spaced(tags), [TagSeparator])
  {
    if |tags| > 1 {
      SpaceThenJoin(tags[1..]);
      var rest := Join(tags[1..], TagJoiner);
      assert Spaced(tags)[1..] == Spaced(tags[1..]);
      calc {
        [' '] + Join(tags, TagJoiner);
        [' '] + (tags[0] + TagJoiner + rest);
        ([' '] + tags[0]) + [TagSeparator] + ([' '] + rest);
        Join(Spaced(tags), [TagSeparator]);
      }
    } else {
      assert Spaced(tags) == [[' '] + tags[0]];
    }
  }

  /** The comma-separated pieces of formatted tags: the first tag, then
      each further tag with the space of ", " in front. */
  function FormattedPieces(tags: seq<string>): seq<string>
    requires |tags| >= 1
  {
    [tags[0]] + Spaced(tags[1..])
  }

  lemma FormatIsCommaJoin(tags: seq<string>)
    requires |tags| >= 1
    ensures FormatTags(tags) == Join(FormattedPieces(tags), [TagSeparator])
  {
    var pieces := FormattedPieces(tags);
    if |tags| > 1 {
      SpaceThenJoin(tags[1..]);
      assert pieces[1..] == Spaced(tags[1..]);
    }
  }

  lemma TrimFormattedPieces(tags: seq<string>)
    requires |tags| >= 1 && WellFormedTags(tags)
    ensures TrimAll(FormattedPieces(tags)) == tags
  {
    var pieces := FormattedPieces(tags);
    var trimmed := TrimAll(pieces);
    assert |pieces| == |tags| == |trimmed|;
    forall i | 0 <= i < |tags| ensures trimmed[i] == tags[i] {
      if i == 0 {
        assert trimmed[0] == Trim(tags[0]);
        TrimOfTrimmed(tags[0]);
      } else {
        assert pieces[i] == Spaced(tags[1..])[i - 1] == [' '] + tags[i];
        assert trimmed[i] == Trim([' '] + tags[i]);
        TrimPadded(' ', tags[i]);
      }
    }
  }

  /** Well-formed tags survive being formatted and parsed back. */
  lemma ParseFormatRoundTrip(tags: seq<string>)
    requires WellFormedTags(tags)
    ensures ParseTags(FormatTags(tags)) == tags
  {
    if tags == [] {
      ParseTagsEmptyIff([]);
    } else {
      var pieces := FormattedPieces(tags);
      forall i | 0 <= i < |pieces| ensures TagSeparator !in pieces[i] {
        if i > 0 {
          assert pieces[i] == [' '] + tags[i];
        }
      }
      FormatIsCommaJoin(tags);
      SplitJoin(pieces, TagSeparator);
      TrimFormattedPieces(tags);
      FilterAll(tags, NonEmptyText());
    }
  }

  /** Parsing is idempotent through the edit page: formatting the parsed
      tags and parsing again gives the same tags. */
  lemma ParseTagsIdempotent(s: string)
    ensures ParseTags(FormatTags(ParseTags(s))) == ParseTags(s)
  {
    ParseFormatRoundTrip(ParseTags(s));
  }

  /** Loading a post into the edit page and submitting it unchanged sends
      the post's own fields back, provided its tags are well formed. */
  lemma EditRoundTrip(post: ApiPost)
    requires post.tags.Some? ==> WellFormedTags(post.tags.value)
    ensures var d := Submit(PrefillForm(post));
      && d.title == post.title && d.content == post.content && d.status == post.status
      && d.excerpt == post.excerpt.GetOr([])
      && d.tags == post.tags.GetOr([])
  {
    if post.tags.Some? {
      ParseFormatRoundTrip(post.tags.value);
    } else {
      ParseFormatRoundTrip([]);
    }
  }

  /** Submitting the initial form sends no tags. */
  lemma InitialFormSendsNoTags()
    ensures Submit(InitialForm()).tags == []
  {
    ParseTagsEmptyIff([]);
  }
}
