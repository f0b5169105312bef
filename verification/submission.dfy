/** What the create and edit pages send and what the server makes of it:
    the form's fields travel as a JSON body, pass `postValidation` and, on
    creation, become the stored post. */
module PostSubmission {
  import opened Wrappers
  import opened Text
  import opened PostModel
  import opened Validators
  import opened PostController
  import opened PostForms

  /** The JSON body of `api.post("/posts", postData)` and `api.put`: every
      form field, the status by its name and the tags as an array. */
  function RequestBody(d: PostFormData): (b: PostBody)
    ensures b.title == Some(d.title) && b.content == Some(d.content) && b.excerpt == Some(d.excerpt)
    ensures b.author.None? && b.readTime.None? && b.tags == Some(TagArray(d.tags))
    ensures b.status.Some? && ParseStatus(b.status.value) == Some(d.status)
  {
    PostBody(Some(d.title), Some(d.content), Some(d.excerpt), None, Some(StatusName(d.status)),
             Some(TagArray(d.tags)), None)
  }

  /** A submitted form is rejected only for its title, its content or its
      excerpt: the status it offers and the tag list it sends always pass. */
  lemma SubmittedFormValidIff(form: FormData)
    ensures PostValidation(RequestBody(Submit(form))) == [] <==>
      TitleOk(Trim(form.title)) && ContentOk(Trim(form.content)) && |form.excerpt| <= ExcerptMaxLength
  {
  }

  /** The initial form is rejected: its title is empty. */
  lemma InitialFormRejected()
    ensures PostValidation(RequestBody(Submit(InitialForm()))) != []
  {
    SubmittedFormValidIff(InitialForm());
    assert Trim([]) == [];
  }

  /** The post created from a submitted form keeps the parsed tags exactly,
      the chosen status, and the typed excerpt, or the automatic one when
      the excerpt was left empty. */
  lemma CreatedFromForm(form: FormData, author: UserId, id: PostId, stamp: nat)
    requires PostValidation(RequestBody(Submit(form))) == []
    ensures var p := NewPost(RequestBody(Submit(form)), author, id, stamp);
      && p.tags == ParseTags(form.tags)
      && p.status == form.status
      && p.content == Trim(form.content)
      && (form.excerpt == [] ==> p.excerpt == Some(AutoExcerpt(p.content)))
      && (form.excerpt != [] ==> p.excerpt == Some(form.excerpt))
  {
    var tags := ParseTags(form.tags);
    assert forall i :: 0 <= i < |tags| ==> WellFormedTag(tags[i]);
    TrimAllOfTrimmed(tags);
  }
}
