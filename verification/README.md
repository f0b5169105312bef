# Blog posts: model and proofs

A Dafny model of the post core of a blog application: an Express/Mongoose
backend that stores posts with an author, a status (draft or published),
tags and two derived fields (`readTime`, `excerpt`), and a React frontend
whose create and edit pages send posts to it.

What is modelled:

- **The Post document** (`post_model.dfy`, module `PostModel`).
  - The schema's constraints and defaults.
  - `PostDocument`, a class whose constructor applies the trim setters and
    the defaults.
  - Its `PreSave` method, the `pre("save")` hook: it derives `readTime` from
    the JavaScript `split(/\s+/)` word count and fills an empty excerpt from
    the first 150 characters plus `"..."`.
- **The request validators** (`validators.js` → `validators.dfy`, module
  `Validators`).
  - The register, login and post rule chains: which rules fail, with which
    message, in which order.
  - The `validate` middleware's 400 response.
  - The `trim` sanitizers, which rewrite the body before the handler sees it.
- **The post handlers** (`postController.js` → `post_controller.dfy`, module
  `PostController`).
  - Reads are functions of the stored posts: `getPost` with its draft
    masking, `getMyPosts`, `getAllPosts` and `getStats`.
  - `Store` is a class holding the posts in creation order. Its `GetPosts`
    builds the query field by field and returns one page.
  - `CreatePost`, `UpdatePost` and `DeletePost` run the route's validation
    step, then the 404 and 403 checks, then change the store.
- **The post form** (`CreatePost.tsx`, `EditPost.tsx` → `post_forms.dfy`,
  module `PostForms`).
  - Tag text is parsed with `split(",")`, `trim` and `filter(Boolean)`.
  - Tags are formatted with `join(", ")` when a post is loaded for editing.
  - `submission.dfy` (module `PostSubmission`) connects a submitted form to
    the body the server validates and the post it stores.
- **Shared pieces**:
  - `text.dfy`: the JavaScript white-space class, `trim`, one-character
    `split`, `join` and a case-insensitive substring test.
  - `seqs.dfy`: filter, reverse, the skip/limit window, ceiling division.
  - `wrappers.dfy`: `Option`, `Result`.

Modelling choices:

- The database is the `posts` sequence of `Store`, kept in creation order.
  - Ids come from a counter.
  - `createdAt` comes from a logical clock that increases with every
    creation.
  - So `.sort({ createdAt: -1 })` is the reverse of the stored order. The
    store invariant and `NewestFirstSorted` prove this.
- The authenticated caller is a parameter:
  - `Option<Caller>` for the `getPost` handler, which reads `req.user` if it
    is set; `GetPostRoute` is the route as mounted, with no caller;
  - `Caller` for the protected routes.
- The admin-only routes require `caller.role == Admin`, as `authorize("admin")`
  guarantees before the handler runs.
- Mongoose runs document validation before the `pre("save")` hooks.
  - `SaveDocument` proves that validation cannot fail once `postValidation`
    has passed, with every length counted in UTF-16 code units (see
    "Left out" for how `isLength` counts).
  - `PreSave` keeps a valid document valid.

Behaviours of the code worth noting:

- **The author can change on update.** `updatePost` passes the request body
  to `findByIdAndUpdate` unchanged, so a body with an `author` field moves
  the post to that author. `UpdateCanReassignAuthor` states this.
- **The update does not re-derive `readTime` or the excerpt.**
  `findByIdAndUpdate` does not run the save hook (`ApplyUpdate`).
  - An updated post keeps its `readTime` unless the body sends one. `readTime`
    has no validator, so a sent number is stored as it is, 0 and negative
    numbers included.
  - An excerpt in the body replaces the stored one. The edit page always sends
    the excerpt, so a cleared field stores the empty text and no automatic
    excerpt is made.
- **A signed-in author cannot read their own draft through `GET /:id`.** The
  route is mounted before `protect`, so `getPost` runs without `req.user`
  and treats every draft as missing (`GetPostRoute`, see "Findings").
- **The word count counts pieces, not tokens.** It is the number of pieces of
  `split(/\s+/)`, so leading or trailing white space adds an empty piece
  (`WordPieces`, `WordCountCountsRuns`).

## Model

| member | source | states |
|---|---|---|
| Text.Trim | backend/utils/validators.js:54-55 | the trimmed string has no white space at either end and is never longer than the input |
| Text.TrimIsMiddle | backend/utils/validators.js:54-55 | `trim` keeps a contiguous middle of the text and removes only a white-space prefix and a white-space suffix |
| Text.TrimIdempotent | backend/models/Post.js:8 | trimming an already trimmed title (the schema setter after the sanitizer) changes nothing |
| Text.TrimEmptyIffAllSpace | backend/utils/validators.js:55-57 | `trim().notEmpty()` fails exactly for text made only of white space |
| Text.JoinSplit | frontend/src/pages/EditPost.tsx:63-69 | joining the pieces of `split(",")` with "," gives the text back |
| Text.SplitJoin | frontend/src/pages/EditPost.tsx:63-69 | splitting comma-free pieces joined with "," gives the pieces back |
| Text.OccursAt | backend/controllers/postController.js:19-23 | the substring test holds exactly when the needle appears at some offset of the text |
| Seqs.Window | backend/controllers/postController.js:29-30 | `.limit(limit).skip(skip)` returns at most `limit` elements, the ones starting at position `skip`, in order |
| Seqs.WindowKeepsOrder | backend/controllers/postController.js:28-30 | a page keeps the sort order and holds only elements of the sorted matches |
| Seqs.CeilDiv | backend/controllers/postController.js:37 | `Math.ceil(n / d)`: the least q with q·d ≥ n |
| Seqs.FilterComplement | backend/controllers/postController.js:241-243 | counting by a predicate and by its negation adds up to the total |
| Seqs.FilterMembers | backend/controllers/postController.js:26 | `find(query)` returns exactly the stored elements that satisfy the query |
| Seqs.FilterKeepsOrder | backend/controllers/postController.js:26-28 | the matches of a query keep the order of the stored elements |
| Seqs.FilterRemovesOne | backend/controllers/postController.js:187 | when exactly one element fails the predicate, filtering removes that element and no other |
| PostModel.ParseStatus | backend/models/Post.js:24-28 | the enum accepts exactly "draft" and "published", each as its own status |
| PostModel.StatusOrDefault | backend/models/Post.js:27 | a missing status becomes "draft"; a given one is kept for validation |
| PostModel.CastTags | backend/models/Post.js:29-34 | an array of tags is stored element by element as the trimmed items, in order; a single string becomes the one trimmed tag; no tags give [] |
| PostModel.WordPieces | backend/models/Post.js:48 | `split(/\s+/)`: at least one piece, no piece holds white space, only the first and last may be empty, the first is empty exactly when the text is empty or starts with white space |
| PostModel.WordCountCountsRuns | backend/models/Post.js:48 | the word count is one more than the number of maximal white-space runs |
| PostModel.ReadMinutes | backend/models/Post.js:49 | `Math.ceil(words / 200) \|\| 1`: at least 1; for a positive count the least m with words ≤ 200·m; 1 for zero words |
| PostModel.ReadMinutesBoundary | backend/models/Post.js:49 | 200 words read in 1 minute, 201 words in 2 |
| PostModel.AutoExcerpt | backend/models/Post.js:53 | the automatic excerpt is the first min(150, length) characters of the content followed by "...", so at most 153 characters |
| PostModel.AutoExcerptWithinBound | backend/models/Post.js:52-54 | an automatic excerpt always satisfies the 500-character limit of the schema |
| PostModel.PostDocument.constructor | backend/models/Post.js:3-43 | a new document has the trimmed title, the trimmed tags, the given content, excerpt and author, status defaulting to "draft", and the sent readTime or the default 1 |
| PostModel.PostDocument.PreSave | backend/models/Post.js:46-57 | with content, readTime becomes the read minutes of its word count; a truthy excerpt is untouched, an empty one becomes the automatic excerpt; no other field changes; a valid document stays valid and readTime stays ≥ 1 |
| Validators.Validate | backend/utils/validators.js:4-16 | the request passes exactly when there are no errors; otherwise a 400 whose errors map one to one, in order, to (field, message) |
| Validators.TitleRules | backend/utils/validators.js:54-59 | no error exactly when the trimmed title is non-empty and at most 200 characters; at most one error, always on "title" |
| Validators.ContentRules | backend/utils/validators.js:60 | no error exactly when the trimmed content is non-empty |
| Validators.StatusRules | backend/utils/validators.js:61-64 | no error exactly when the status is absent or one of "draft", "published" |
| Validators.TagsRules | backend/utils/validators.js:65 | no error exactly when tags are absent or an array |
| Validators.ExcerptRules | backend/utils/validators.js:66-69 | no error exactly when the excerpt is absent or at most 500 characters |
| Validators.PostValidation | backend/utils/validators.js:53-70 | a post body passes exactly when every field is acceptable; at most five errors |
| Validators.PostValidationPerField | backend/utils/validators.js:53-70 | the errors reported for title, content and excerpt are exactly those of their own chains |
| Validators.SanitizePost | backend/utils/validators.js:55-60 | the sanitizers trim title and content and leave every other field as sent |
| Validators.AcceptedBodyPassesSchema | backend/utils/validators.js:53-70 | a body that passes the post rules, once sanitized and given an author, passes the Post schema |
| Validators.NameRules | backend/utils/validators.js:20-25 | no error exactly when the trimmed name is non-empty and at most 50 characters |
| Validators.EmailRules | backend/utils/validators.js:26-32 | no error exactly when the trimmed email is non-empty and accepted by the email check |
| Validators.PasswordRules | backend/utils/validators.js:33-37 | no error exactly when the password has at least 6 characters |
| Validators.RegisterValidation | backend/utils/validators.js:19-38 | registration passes exactly when name, email and password are each acceptable |
| Validators.EmptyPasswordReportedTwice | backend/utils/validators.js:33-37 | an empty password is reported twice, "required" then "too short", after the name and email errors |
| Validators.LoginValidation | backend/utils/validators.js:41-50 | login passes exactly when the email is acceptable and the password non-empty |
| PostController.IndexOf | backend/controllers/postController.js:133 | `findById`: a found position holds a post with that id; nothing found means no post has it |
| PostController.IndexOfUnique | backend/controllers/postController.js:133 | with distinct ids, `findById` finds each stored post at its own position |
| PostController.GetPost | backend/controllers/postController.js:50-82 | a returned post has the id and is visible to the caller; every failure is 404, never 403; with distinct ids, 404 exactly when no post with that id is visible |
| PostController.PublishedVisibleToAll | backend/controllers/postController.js:64-73 | a published post is returned to every caller, signed in or not |
| PostController.DraftMaskedAsMissing | backend/controllers/postController.js:57-73 | a draft asked for by anyone but its author, an admin included, answers 404, exactly as if the post did not exist |
| PostController.AuthorSeesOwnDraft | backend/controllers/postController.js:64-67 | the author receives their own post, draft or not |
| PostController.GetPostRoute | backend/routes/posts.js:24-27 | `GET /:id`, mounted ahead of `protect`, returns only published posts with the requested id and answers 404 otherwise |
| PostController.OwnDraftMissingThroughRoute | backend/routes/posts.js:24-27 | a stored draft asked for through the route answers 404 even though the handler would return it to its author |
| PostController.NewestFirstSorted | backend/controllers/postController.js:28 | posts kept in creation order come out newest first, all of them and nothing else |
| PostController.QueryMatchesListed | backend/controllers/postController.js:11-24 | a post matches the built query (published, then the tag if truthy, then the search if truthy) exactly when it is listed for the request |
| PostController.ListingPage | backend/controllers/postController.js:26-41 | the page is the slice of the newest-first listed posts that starts at (page − 1)·limit and holds min(limit, what remains) of them; count is its length; total counts every listed post; totalPages is the least number of pages of limit posts that holds them all; currentPage is the requested page; every returned post is stored, published and matches tag and search |
| PostController.ListingPageNonEmptyIff | backend/controllers/postController.js:26-38 | the listing returns posts exactly when the requested page is at most the `totalPages` it reports |
| PostController.ListingPageNewestFirst | backend/controllers/postController.js:28-30 | with the store in creation order, every page comes newest first |
| PostController.PageNonEmptyIffWithinPageCount | backend/controllers/postController.js:29-37 | a page has posts exactly when its number is at most `totalPages` |
| PostController.GetMyPosts | backend/controllers/postController.js:87-101 | exactly the caller's posts, drafts included |
| PostController.MyPostsNewestFirst | backend/controllers/postController.js:89-91 | the caller's posts come newest first |
| PostController.GetAllPosts | backend/controllers/postController.js:202-216 | the admin listing holds every stored post exactly once |
| PostController.AllPostsNewestFirst | backend/controllers/postController.js:204-206 | the admin listing comes newest first |
| PostController.GetStats | backend/controllers/postController.js:238-264 | publishedPosts counts the published posts and draftPosts the drafts, and they add up to the total; the recent posts are the first min(5, total) of the newest-first order |
| PostController.RecentPostsAreNewest | backend/controllers/postController.js:246-249 | the recent posts are newest first and newer than every post left out |
| PostController.NewPost | backend/controllers/postController.js:106-126 | a created post has the caller as author whatever the body says, the trimmed title and content, status defaulting to draft, the tags cast from the body, a read time matching the word count, and the sent excerpt or, when it is empty, the automatic excerpt of the content |
| PostController.SaveDocument | backend/controllers/postController.js:111 | building, validating and saving the document yields exactly `NewPost` |
| PostController.ApplyUpdate | backend/controllers/postController.js:150-153 | the update keeps the id and the creation stamp; title and content are trimmed; a sent excerpt, author, status, tags or readTime replaces the stored one, an omitted one is kept; a valid post stays valid |
| PostController.UpdateCanReassignAuthor | backend/controllers/postController.js:150-153 | a body naming an author moves the post to that author |
| PostController.RemoveAtIsWithout | backend/controllers/postController.js:187 | removing the found post leaves exactly the posts with other ids |
| PostController.AppendKeepsInvariant | backend/controllers/postController.js:111 | appending a valid post with the next id and stamp keeps the store ordered, ids distinct and posts valid |
| PostController.ReplaceKeepsInvariant | backend/controllers/postController.js:150-153 | updating a post in place keeps the store invariant |
| PostController.RemoveKeepsInvariant | backend/controllers/postController.js:187 | deleting a post keeps the store invariant |
| PostController.InvariantOrders | backend/controllers/postController.js:28 | the store holds its posts in creation order with distinct ids |
| PostController.Store.Insert | backend/controllers/postController.js:111 | saving a new document appends it and advances the id counter and the clock, keeping the store invariant |
| PostController.Store.Replace | backend/controllers/postController.js:150-153 | an update in place replaces the post at its position and nothing else, keeping the store invariant |
| PostController.Store.Remove | backend/controllers/postController.js:187 | a deletion removes the post at its position and keeps the others in order, keeping the store invariant |
| PostController.Store.GetPosts | backend/controllers/postController.js:7-45 | the query built field by field gives exactly `ListingPage` of the stored posts for the request, and its posts come newest first |
| PostController.Store.CreatePost | backend/controllers/postController.js:106-126 | a body failing the post rules gets the 400 and changes nothing, counters included; otherwise `NewPost` with the caller as author, the next id and the next stamp is appended and both counters advance |
| PostController.Store.UpdatePost | backend/controllers/postController.js:131-163 | 400 before 404 before 403; the author or an admin replaces the post by `ApplyUpdate` in place; every failure leaves the store unchanged |
| PostController.Store.DeletePost | backend/controllers/postController.js:168-197 | 404 before 403; the author or an admin removes exactly the posts with that id, one post; failures change nothing |
| PostForms.ParseTags | frontend/src/pages/CreatePost.tsx:37-43 | every parsed tag is non-empty, trimmed and comma-free; the tags are exactly the non-empty trimmed comma pieces |
| PostForms.ParseTagsAppend | frontend/src/pages/CreatePost.tsx:39-42 | text joined at a comma parses to the tags of its left part followed by those of its right part, so the parse keeps the order of the comma pieces |
| PostForms.ParseTagsOfPiece | frontend/src/pages/CreatePost.tsx:39-42 | a comma-free piece parses to its trimmed form, or to nothing when that is empty |
| PostForms.PrefillTags | frontend/src/pages/EditPost.tsx:42 | loaded tags show joined with ", "; missing or empty tags show as empty text |
| PostForms.Submit | frontend/src/pages/EditPost.tsx:63-69 | the submitted tags are the parse of the tag text, hence well formed; every other field is sent as typed |
| PostForms.PrefillForm | frontend/src/pages/EditPost.tsx:37-43 | the loaded form shows the post's fields, a missing excerpt as empty text, and the tags as `PrefillTags` shows them |
| PostForms.ParseTagsEmptyIff | frontend/src/pages/CreatePost.tsx:37-43 | no tags come out exactly when the text holds only commas and white space |
| PostForms.ParseFormatRoundTrip | frontend/src/pages/EditPost.tsx:42 | well-formed tags survive `join(", ")` followed by the parse |
| PostForms.ParseTagsIdempotent | frontend/src/pages/EditPost.tsx:63-69 | formatting parsed tags and parsing again gives the same tags |
| PostForms.EditRoundTrip | frontend/src/pages/EditPost.tsx:37-69 | loading a post with well-formed tags and submitting it unchanged sends back its own fields and tags |
| PostForms.InitialFormSendsNoTags | frontend/src/pages/CreatePost.tsx:16-22 | the initial form submits an empty tag list |
| PostSubmission.RequestBody | frontend/src/pages/CreatePost.tsx:37-45 | the request carries the form's title, content and excerpt as typed, the tags as an array, a status the enum accepts, and no author or readTime |
| PostSubmission.SubmittedFormValidIff | frontend/src/pages/CreatePost.tsx:37-45 | a submitted form passes the post rules exactly when its trimmed title and content are acceptable and its excerpt is at most 500 characters |
| PostSubmission.InitialFormRejected | frontend/src/pages/CreatePost.tsx:16-22 | the initial form, submitted as is, is rejected |
| PostSubmission.CreatedFromForm | frontend/src/pages/CreatePost.tsx:37-45 | the post created from a form keeps the parsed tags and chosen status, and an empty excerpt is replaced by the automatic one |

## Left out

- Search: `$regex` with option "i" is modelled as a case-insensitive substring test. The search term is taken literally, not as a regular expression, and lower-casing covers ASCII letters only.
- Characters: a `char` stands for one UTF-16 code unit. Lengths (`maxlength`, `isLength`, `substring`) are counted in those units.
- Validators.TitleRules, Validators.ExcerptRules, Validators.NameRules, Validators.PasswordRules: validator.js's `isLength` counts a surrogate pair as one character and does not count U+FE0E or U+FE0F, while these rules count code units as Mongoose's `maxlength` does. So in the source a title of 101 emoji passes `postValidation` but fails the schema, and `Post.create` fails through `next(error)` instead of the 400 modelled here; a password of three emoji is rejected there and accepted here. Dafny characters cannot be lone surrogates, so the model does not count them.
- Persistence: `populate`, the indexes, ObjectIds, `countDocuments` and the wall-clock `timestamps` are not modelled. Ids are natural numbers and `createdAt` is a logical clock.
- Route checks: `isEmail` is a parameter of the email chain. `normalizeEmail` is not modelled. `idValidation`'s `isMongoId` is not modelled because ids are always well formed here.
- Authentication: `protect` and `authorize` are not modelled. Their outcome is the caller parameter and the admin precondition.
- `getAllUsers` and the User model are not part of this model. The user count of `getStats` is a parameter.
- Query coercion: `page` and `limit` arrive as numbers of at least 1. The JavaScript coercion of other strings, 0 and NaN is not modelled.
- Request bodies: fields are strings, a whole number for `readTime`, or absent; other JSON values are not modelled (a fractional or non-numeric `readTime` included).
- PostController.NewPost: a `createdAt`, `updatedAt` or `_id` in a request body is not modelled; the stamp always comes from the store's clock. Mongoose's timestamps fill `createdAt` only when the document has none, so a client that sends one to `createPost` can place its post anywhere in the newest-first order of the listings. A scalar `tags` value is rejected by `postValidation`, so the schema's cast of it to a one-element array never reaches the store.
- Timing and failures: asynchronous execution, concurrent requests and database errors (the `next(error)` paths) are not modelled.
- The React components, toasts, navigation, loading flags and the auth context are not modelled.

## Findings

| source | as written | input that shows it | evidently intended | confidence | as-written member | corrected member |
|---|---|---|---|---|---|---|
| backend/routes/posts.js:24-27 | `GET /:id` is mounted before `router.use(protect)`, so `getPost` never has `req.user` and answers 404 for every draft | the signed-in author of a draft opens its edit page, which requests `GET /posts/<id>` (frontend/src/pages/EditPost.tsx:35) | the handler's own check (backend/controllers/postController.js:64-67) returns a draft to its author | medium, not executed; the authentication middleware and the server setup are not part of this model | PostController.OwnDraftMissingThroughRoute | PostController.AuthorSeesOwnDraft |
