/** The request validation of backend/utils/validators.js: the rule chains
    for posts, registration and login as functions from request fields to
    the list of failed rules, and the `validate` step that turns that list
    into a 400 response or lets the request through. */
module Validators {
  import opened Wrappers
  import opened Text
  import opened Seqs
  import opened PostModel

  const NameMaxLength: nat := 50
  const PasswordMinLength: nat := 6

  /** The request-body fields the chains check. */
  datatype Field = Name | Email | Password | Title | Content | Status | Tags | Excerpt

  /** The field's name as it appears in a request body and in an error. */
  function FieldName(f: Field): string {
    match f
    case Name => "name"
    case Email => "email"
    case Password => "password"
    case Title => "title"
    case Content => "content"
    case Status => "status"
    case Tags => "tags"
    case Excerpt => "excerpt"
  }

  const NameRequired: string := "Name is required"
  const NameTooLong: string := "Name cannot exceed 50 characters"
  const EmailRequired: string := "Email is required"
  const EmailInvalid: string := "Please provide a valid email"
  const PasswordRequired: string := "Password is required"
  const PasswordTooShort: string := "Password must be at least 6 characters long"
  const TitleRequired: string := "Title is required"
  const TitleTooLong: string := "Title cannot exceed 200 characters"
  const ContentRequired: string := "Content is required"
  const StatusInvalid: string := "Status must be either draft or published"
  const TagsNotArray: string := "Tags must be an array"
  const ExcerptTooLong: string := "Excerpt cannot exceed 500 characters"

  /** One entry of the validation result: the failed field (all chains here
      read the request body) and the chain's message. */
  datatype ValidationError = ValidationError(path: Field, msg: string)

  /** One `{field, message}` pair of the error response. */
  datatype FieldError = FieldError(field: string, message: string)

  /** What `validate` does with a request: pass it on, or answer it. */
  datatype Verdict = Next | BadRequest(status: nat, errors: seq<FieldError>)

  function ToFieldErrors(errors: seq<ValidationError>): (r: seq<FieldError>)
    ensures |r| == |errors|
    ensures forall i :: 0 <= i < |errors| ==> r[i] == FieldError(FieldName(errors[i].path), errors[i].msg)
  {
    if errors == [] then [] else [FieldError(FieldName(errors[0].path), errors[0].msg)] + ToFieldErrors(errors[1..])
  }

  /** `validate`: an empty result passes the request on; otherwise a 400
      whose errors are the failed rules, one for one and in order. */
  function Validate(errors: seq<ValidationError>): (v: Verdict)
    ensures v.Next? <==> errors == []
    ensures v.BadRequest? ==> v.status == 400 && |v.errors| == |errors|
    ensures v.BadRequest? ==> forall i :: 0 <= i < |errors| ==>
      v.errors[i].field == FieldName(errors[i].path) && v.errors[i].message == errors[i].msg
  {
    if errors == [] then Next else BadRequest(400, ToFieldErrors(errors))
  }

  /** One rule of a chain on a body field: no error when it holds. */
  function Rule(holds: bool, path: Field, msg: string): (r: seq<ValidationError>)
    ensures holds <==> r == []
    ensures forall e :: e in r ==> e == ValidationError(path, msg)
  {
    if holds then [] else [ValidationError(path, msg)]
  }

  /** The errors a list reports for one field. */
  function ErrorsFor(errors: seq<ValidationError>, path: Field): (r: seq<ValidationError>)
    ensures forall e :: e in r <==> e in errors && e.path == path
  {
    var onPath := (e: ValidationError) => e.path == path;
    FilterMembers(errors, onPath);
    Filter(errors, onPath)
  }

  /** The errors of a chain on `path`, read from the whole list. */
  lemma {:induction false} ChainErrorsFor(chain: seq<ValidationError>, path: Field)
    requires forall e :: e in chain ==> e.path == path
    ensures ErrorsFor(chain, path) == chain
  {
    FilterAll(chain, (e: ValidationError) => e.path == path);
  }

  /** A chain on another field contributes nothing to `path`. */
  lemma OtherChainErrorsFor(chain: seq<ValidationError>, path: Field)
    requires forall e :: e in chain ==> e.path != path
    ensures ErrorsFor(chain, path) == []
  {
    FilterNone(chain, (e: ValidationError) => e.path == path);
  }

  /** The errors for one field of five chains, chain by chain. */
  lemma {:induction false} ErrorsForChains(t: seq<ValidationError>, c: seq<ValidationError>, s: seq<ValidationError>,
                                           g: seq<ValidationError>, x: seq<ValidationError>, path: Field)
    ensures ErrorsFor(t + c + s + g + x, path)
      == ErrorsFor(t, path) + ErrorsFor(c, path) + ErrorsFor(s, path) + ErrorsFor(g, path) + ErrorsFor(x, path)
  {
    var keep := (e: ValidationError) => e.path == path;
    FilterAppend(t + c + s + g, x, keep);
    FilterAppend(t + c + s, g, keep);
    FilterAppend(t + c, s, keep);
    FilterAppend(t, c, keep);
  }

  /** A value the client did not send reads as the empty string. */
  function FieldText(value: Option<string>): string {
    value.GetOr([])
  }

  /** The title after the chain's `trim()`. */
  function TrimmedTitle(body: PostBody): string {
    Trim(FieldText(body.title))
  }

  function TrimmedContent(body: PostBody): string {
    Trim(FieldText(body.content))
  }

  function TitleRules(body: PostBody): (r: seq<ValidationError>)
    ensures r == [] <==> TitleOk(TrimmedTitle(body))
    ensures |r| <= 1 && forall e :: e in r ==> e.path == Title
  {
    var title := TrimmedTitle(body);
    Rule(title != [], Title, TitleRequired)
    + Rule(|title| <= TitleMaxLength, Title, TitleTooLong)
  }

  function ContentRules(body: PostBody): (r: seq<ValidationError>)
    ensures r == [] <==> ContentOk(TrimmedContent(body))
    ensures forall e :: e in r ==> e.path == Content
  {
    Rule(TrimmedContent(body) != [], Content, ContentRequired)
  }

  function StatusRules(body: PostBody): (r: seq<ValidationError>)
    ensures r == [] <==> (body.status.Some? ==> ParseStatus(body.status.value).Some?)
    ensures forall e :: e in r ==> e.path == Status
  {
    match body.status
    case None => []
    case Some(s) => Rule(s in ["draft", "published"], Status, StatusInvalid)
  }

  function TagsRules(body: PostBody): (r: seq<ValidationError>)
    ensures r == [] <==> (body.tags.Some? ==> body.tags.value.TagArray?)
    ensures forall e :: e in r ==> e.path == Tags
  {
    match body.tags
    case None => []
    case Some(t) => Rule(t.TagArray?, Tags, TagsNotArray)
  }

  function ExcerptRules(body: PostBody): (r: seq<ValidationError>)
    ensures r == [] <==> ExcerptOk(body.excerpt)
    ensures forall e :: e in r ==> e.path == Excerpt
  {
    match body.excerpt
    case None => []
    case Some(e) => Rule(|e| <= ExcerptMaxLength, Excerpt, ExcerptTooLong)
  }

  /** What the post rules accept, field by field. */
  predicate PostBodyAcceptable(body: PostBody) {
    && TitleOk(TrimmedTitle(body))
    && ContentOk(TrimmedContent(body))
    && (body.status.Some? ==> ParseStatus(body.status.value).Some?)
    && (body.tags.Some? ==> body.tags.value.TagArray?)
    && ExcerptOk(body.excerpt)
  }

  /** `postValidation`: the failed rules of the five chains, in chain order.
      The request passes exactly when every field is acceptable. */
  function PostValidation(body: PostBody): (errors: seq<ValidationError>)
    ensures errors == [] <==> PostBodyAcceptable(body)
    ensures |errors| <= 5
  {
    TitleRules(body) + ContentRules(body) + StatusRules(body) + TagsRules(body) + ExcerptRules(body)
  }

  /** Each field is reported with exactly the errors of its own chain, so a
      field is named in the response exactly when its own rules fail. */
  lemma PostValidationPerField(body: PostBody)
    ensures ErrorsFor(PostValidation(body), Title) == TitleRules(body)
    ensures ErrorsFor(PostValidation(body), Content) == ContentRules(body)
    ensures ErrorsFor(PostValidation(body), Excerpt) == ExcerptRules(body)
  {
    var t, c, s, g, x := TitleRules(body), ContentRules(body), StatusRules(body), TagsRules(body), ExcerptRules(body);
    assert PostValidation(body) == t + c + s + g + x;
    assert ErrorsFor(t + c + s + g + x, Title) == t by {
      ErrorsForChains(t, c, s, g, x, Title);
      ChainErrorsFor(t, Title);
      OtherChainErrorsFor(c, Title);
      OtherChainErrorsFor(s, Title);
      OtherChainErrorsFor(g, Title);
      OtherChainErrorsFor(x, Title);
      assert t + [] + [] + [] + [] == t;
    }
    assert ErrorsFor(t + c + s + g + x, Content) == c by {
      ErrorsForChains(t, c, s, g, x, Content);
      OtherChainErrorsFor(t, Content);
      ChainErrorsFor(c, Content);
      OtherChainErrorsFor(s, Content);
      OtherChainErrorsFor(g, Content);
      OtherChainErrorsFor(x, Content);
      assert [] + c + [] + [] + [] == c;
    }
    assert ErrorsFor(t + c + s + g + x, Excerpt) == x by {
      ErrorsForChains(t, c, s, g, x, Excerpt);
      OtherChainErrorsFor(t, Excerpt);
      OtherChainErrorsFor(c, Excerpt);
      OtherChainErrorsFor(s, Excerpt);
      OtherChainErrorsFor(g, Excerpt);
      ChainErrorsFor(x, Excerpt);
      assert [] + [] + [] + [] + x == x;
    }
  }

  /** The chains' `trim()` sanitizers rewrite `title` and `content` in the
      request body. */
  function SanitizePost(body: PostBody): (r: PostBody)
    ensures r.title == TrimOption(body.title) && r.content == TrimOption(body.content)
    ensures r.excerpt == body.excerpt && r.author == body.author
    ensures r.status == body.status && r.tags == body.tags && r.readTime == body.readTime
  {
    body.(title := TrimOption(body.title), content := TrimOption(body.content))
  }

  /** A body that passes the post rules, once sanitized and given an author,
      also passes document validation in the Post model. */
  lemma AcceptedBodyPassesSchema(body: PostBody, author: UserId)
    requires PostValidation(body) == []
    ensures var b := SanitizePost(body).(author := Some(author));
      DocumentValid(TrimOption(b.title), b.content, b.excerpt, b.author, StatusOrDefault(b.status))
  {
    TrimIdempotent(body.title.value);
  }

  /** The `name` chain of registration: trimmed, required, at most 50 characters. */
  function NameRules(name: Option<string>): (r: seq<ValidationError>)
    ensures r == [] <==> var n := Trim(FieldText(name)); n != [] && |n| <= NameMaxLength
    ensures forall e :: e in r ==> e.path == Name
  {
    var n := Trim(FieldText(name));
    Rule(n != [], Name, NameRequired)
    + Rule(|n| <= NameMaxLength, Name, NameTooLong)
  }

  /** The `email` chain (the same in registration and login): trimmed,
      required, and accepted by the e-mail check `isEmail`. */
  function EmailRules(email: Option<string>, isEmail: string -> bool): (r: seq<ValidationError>)
    ensures r == [] <==> var e := Trim(FieldText(email)); e != [] && isEmail(e)
    ensures forall e :: e in r ==> e.path == Email
  {
    var e := Trim(FieldText(email));
    Rule(e != [], Email, EmailRequired)
    + Rule(isEmail(e), Email, EmailInvalid)
  }

  /** The `password` chain of registration: required, at least 6 characters
      (not trimmed). */
  function PasswordRules(password: Option<string>): (r: seq<ValidationError>)
    ensures r == [] <==> |FieldText(password)| >= PasswordMinLength
    ensures forall e :: e in r ==> e.path == Password
  {
    var p := FieldText(password);
    Rule(p != [], Password, PasswordRequired)
    + Rule(|p| >= PasswordMinLength, Password, PasswordTooShort)
  }

  /** `registerValidation`; `isEmail` stands for the library's e-mail check. */
  function RegisterValidation(name: Option<string>, email: Option<string>, password: Option<string>,
                              isEmail: string -> bool): (errors: seq<ValidationError>)
    ensures errors == [] <==>
      var n, e := Trim(FieldText(name)), Trim(FieldText(email));
      && n != [] && |n| <= NameMaxLength
      && e != [] && isEmail(e)
      && |FieldText(password)| >= PasswordMinLength
  {
    NameRules(name) + EmailRules(email, isEmail) + PasswordRules(password)
  }

  /** A missing or empty password fails both of its rules, so registration
      reports it twice, after the name and e-mail errors and with the
      presence message first. */
  lemma EmptyPasswordReportedTwice(name: Option<string>, email: Option<string>, password: Option<string>,
                                   isEmail: string -> bool)
    requires FieldText(password) == []
    ensures RegisterValidation(name, email, password, isEmail)
      == NameRules(name) + EmailRules(email, isEmail)
         + [ValidationError(Password, PasswordRequired), ValidationError(Password, PasswordTooShort)]
  {
    var pw := PasswordRules(password);
    assert pw == [ValidationError(Password, PasswordRequired), ValidationError(Password, PasswordTooShort)] by {
      assert pw == [ValidationError(Password, PasswordRequired)] + [ValidationError(Password, PasswordTooShort)];
    }
    assert RegisterValidation(name, email, password, isEmail) == NameRules(name) + EmailRules(email, isEmail) + pw;
  }

  /** `loginValidation`: the e-mail chain, then a required password. */
  function LoginValidation(email: Option<string>, password: Option<string>,
                           isEmail: string -> bool): (errors: seq<ValidationError>)
    ensures errors == [] <==>
      var e := Trim(FieldText(email));
      e != [] && isEmail(e) && FieldText(password) != []
  {
    EmailRules(email, isEmail)
    + Rule(FieldText(password) != [], Password, PasswordRequired)
  }
}
