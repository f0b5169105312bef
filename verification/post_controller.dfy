/** The post handlers of backend/controllers/postController.js over an
    in-memory post store. Read handlers are functions of the stored posts;
    `getPosts` builds its query field by field; create, update and delete
    change the store. */
module PostController {
  import opened Wrappers
  import opened Text
  import opened Seqs
  import opened PostModel
  import opened Validators

  type PostId = nat

  datatype Role = User | Admin

  /** The identity the authentication step attaches to a request. */
  datatype Caller = Caller(id: UserId, role: Role)

  /** A stored post; `createdAt` is the store's creation stamp. */
  datatype Post = Post(
    id: PostId,
    title: string,
    content: string,
    excerpt: Option<string>,
    author: UserId,
    status: Status,
    tags: seq<string>,
    readTime: int,
    createdAt: nat)

  /** The error answers: the 400 of the validation step, 404 and 403. */
  datatype Failure = Rejected(errors: seq<FieldError>) | NotFound | Forbidden

  /** The query string of the listing; page and limit, when given, already
      read as numbers. */
  datatype ListRequest = ListRequest(tag: Option<string>, search: Option<string>, page: Option<nat>,
                                     limit: Option<nat>)

  /** The query object `getPosts` builds. */
  datatype Query = Query(status: Status, tag: Option<string>, search: Option<string>)

  /** The body of a listing response. */
  datatype PostPage = PostPage(count: nat, total: nat, totalPages: nat, currentPage: nat, data: seq<Post>)

  /** The body of the admin stats response. */
  datatype Stats = Stats(totalUsers: nat, totalPosts: nat, publishedPosts: nat, draftPosts: nat,
                         recentPosts: seq<Post>)

  const DefaultPage: nat := 1
  const DefaultLimit: nat := 10
  const RecentPostsLimit: nat := 5

  // ---------------------------------------------------------------------
  // Ordering and identity

  predicate OlderFirst(a: Post, b: Post) { a.createdAt < b.createdAt }

  predicate NewerFirst(a: Post, b: Post) { a.createdAt > b.createdAt }

  predicate DifferentIds(a: Post, b: Post) { a.id != b.id }

  /** `.sort({ createdAt: -1 })` of posts that are kept in creation order. */
  function NewestFirst(ps: seq<Post>): seq<Post> {
    Reverse(ps)
  }

  /** Posts kept in creation order come out newest first, all of them and
      nothing else. */
  lemma NewestFirstSorted(ps: seq<Post>)
    requires Ordered(ps, OlderFirst)
    ensures Ordered(NewestFirst(ps), NewerFirst)
    ensures multiset(NewestFirst(ps)) == multiset(ps)
  {
    ReversePermutes(ps);
    var r := NewestFirst(ps);
    forall i, j | 0 <= i < j < |r| ensures NewerFirst(r[i], r[j]) {
      assert OlderFirst(ps[|ps| - 1 - j], ps[|ps| - 1 - i]);
    }
  }

  /** The position of the post with this id, if there is one. */
  function IndexOf(ps: seq<Post>, id: PostId): (r: Option<nat>)
    ensures r.Some? ==> r.value < |ps| && ps[r.value].id == id
    ensures r.None? ==> forall p :: p in ps ==> p.id != id
  {
    if ps == [] then None
    else if ps[0].id == id then Some(0)
    else match IndexOf(ps[1..], id)
      case None => None
      case Some(k) => Some(k + 1)
  }

  /** With distinct ids, no other position holds the id of position `k`. */
  lemma OthersHaveOtherIds(ps: seq<Post>, k: nat)
    requires Ordered(ps, DifferentIds) && k < |ps|
    ensures forall i :: 0 <= i < |ps| && i != k ==> ps[i].id != ps[k].id
  {
    forall i | 0 <= i < |ps| && i != k ensures ps[i].id != ps[k].id {
      if i < k {
        assert DifferentIds(ps[i], ps[k]);
      } else {
        assert DifferentIds(ps[k], ps[i]);
      }
    }
  }

  /** With distinct ids, the post at a position is found by its id. */
  lemma IndexOfUnique(ps: seq<Post>, k: nat)
    requires Ordered(ps, DifferentIds) && k < |ps|
    ensures IndexOf(ps, ps[k].id) == Some(k)
  {
    OthersHaveOtherIds(ps, k);
    assert ps[k] in ps;
  }

  // ---------------------------------------------------------------------
  // getPost: the visibility rule

  /** Who may read a post: anybody if it is published, only its author if
      it is a draft. */
  predicate Visible(p: Post, caller: Option<Caller>) {
    p.status == Published || (caller.Some? && caller.value.id == p.author)
  }

  /** `getPost`: a missing post and a draft the caller does not own give
      the same 404. */
  function GetPost(ps: seq<Post>, id: PostId, caller: Option<Caller>): (r: Result<Post, Failure>)
    ensures r.Ok? ==> r.value in ps && r.value.id == id && Visible(r.value, caller)
    ensures r.Err? ==> r.error == NotFound
    ensures Ordered(ps, DifferentIds) ==>
      (r.Err? <==> forall p :: p in ps && p.id == id ==> !Visible(p, caller))
  {
    match IndexOf(ps, id)
    case None => Err(NotFound)
    case Some(k) =>
      var post := ps[k];
      if post.status == Draft && (caller.None? || post.author != caller.value.id) then Err(NotFound)
      else Ok(post)
  }

  /** The posts other than the one with this id. */
  function NotId(id: PostId): Post -> bool {
    (p: Post) => p.id != id
  }

  function Without(ps: seq<Post>, id: PostId): (r: seq<Post>)
    ensures forall p :: p in r <==> p in ps && p.id != id
  {
    FilterMembers(ps, NotId(id));
    Filter(ps, NotId(id))
  }

  /** A published post is returned to every caller, signed in or not. */
  lemma PublishedVisibleToAll(ps: seq<Post>, p: Post, caller: Option<Caller>)
    requires Ordered(ps, DifferentIds) && p in ps && p.status == Published
    ensures GetPost(ps, p.id, caller) == Ok(p)
  {
    var k :| 0 <= k < |ps| && ps[k] == p;
    IndexOfUnique(ps, k);
  }

  /** A draft of somebody else (an admin's too) answers exactly as if the
      post did not exist. */
  lemma DraftMaskedAsMissing(ps: seq<Post>, p: Post, caller: Option<Caller>)
    requires Ordered(ps, DifferentIds) && p in ps && p.status == Draft
    requires caller.None? || caller.value.id != p.author
    ensures GetPost(ps, p.id, caller) == Err(NotFound)
    ensures GetPost(ps, p.id, caller) == GetPost(Without(ps, p.id), p.id, caller)
  {
    var k :| 0 <= k < |ps| && ps[k] == p;
    IndexOfUnique(ps, k);
  }

  /** The author reads their own draft. */
  lemma AuthorSeesOwnDraft(ps: seq<Post>, p: Post, caller: Caller)
    requires Ordered(ps, DifferentIds) && p in ps && caller.id == p.author
    ensures GetPost(ps, p.id, Some(caller)) == Ok(p)
  {
    var k :| 0 <= k < |ps| && ps[k] == p;
    IndexOfUnique(ps, k);
  }

  /** `GET /:id` as the routes mount it: ahead of `protect`, so `getPost`
      runs with no signed-in caller and only published posts come back. */
  function GetPostRoute(ps: seq<Post>, id: PostId): (r: Result<Post, Failure>)
    ensures r.Ok? ==> r.value in ps && r.value.id == id && r.value.status == Published
    ensures r.Err? ==> r.error == NotFound
  {
    GetPost(ps, id, None)
  }

  /** Through the route, an author asking for their own draft gets the 404
      that the handler reserves for other callers. */
  lemma OwnDraftMissingThroughRoute(ps: seq<Post>, p: Post, caller: Caller)
    requires Ordered(ps, DifferentIds) && p in ps && caller.id == p.author && p.status == Draft
    ensures GetPostRoute(ps, p.id) == Err(NotFound)
    ensures GetPost(ps, p.id, Some(caller)) == Ok(p)
  {
    AuthorSeesOwnDraft(ps, p, caller);
  }

  // ---------------------------------------------------------------------
  // getPosts: the listing

  predicate SearchHit(p: Post, term: string) {
    ContainsIgnoringCase(p.title, term) || ContainsIgnoringCase(p.content, term)
  }

  /** What the listing promises of each post it counts: published, tagged
      with the requested tag, and matching the search term in its title or
      its content. An empty tag or search term filters nothing. */
  predicate Listed(p: Post, req: ListRequest) {
    && p.status == Published
    && (Truthy(req.tag) ==> req.tag.value in p.tags)
    && (Truthy(req.search) ==> SearchHit(p, req.search.value))
  }

  function ListedBy(req: ListRequest): Post -> bool {
    (p: Post) => Listed(p, req)
  }

  /** The page and page size, defaulting to the first page of ten. */
  function PageOf(req: ListRequest): nat {
    req.page.GetOr(DefaultPage)
  }

  function LimitOf(req: ListRequest): nat {
    req.limit.GetOr(DefaultLimit)
  }

  /** `(page - 1) * limit`: how many matches the requested page skips. */
  function SkipOf(req: ListRequest): nat
    requires PageOf(req) >= 1
  {
    (PageOf(req) - 1) * LimitOf(req)
  }

  /** How the store matches a query object. */
  predicate Satisfies(p: Post, q: Query) {
    && p.status == q.status
    && (q.tag.Some? ==> q.tag.value in p.tags)
    && (q.search.Some? ==> SearchHit(p, q.search.value))
  }

  /** The query object built from a request: always published, then the
      tag and the search term when they are truthy. */
  predicate QueryFor(q: Query, req: ListRequest) {
    && q.status == Published
    && q.tag == (if Truthy(req.tag) then req.tag else None)
    && q.search == (if Truthy(req.search) then req.search else None)
  }

  /** Matching the built query is the listing condition. */
  lemma QueryMatchesListed(q: Query, req: ListRequest, ps: seq<Post>)
    requires QueryFor(q, req)
    ensures Filter(ps, (p: Post) => Satisfies(p, q)) == Filter(ps, ListedBy(req))
  {
    FilterCongruent(ps, (p: Post) => Satisfies(p, q), ListedBy(req));
  }

  /** The response of the listing, stated from the request: the requested
      window of the listed posts, newest first, with the counts. */
  function ListingPage(ps: seq<Post>, req: ListRequest): (r: PostPage)
    requires PageOf(req) >= 1 && LimitOf(req) >= 1
    ensures r.count == |r.data| && r.count <= LimitOf(req)
    ensures r.total == |Filter(ps, ListedBy(req))| && r.currentPage == PageOf(req)
    ensures r.totalPages * LimitOf(req) >= r.total
    ensures r.totalPages > 0 ==> (r.totalPages - 1) * LimitOf(req) < r.total
    ensures forall p :: p in r.data ==> p in ps && Listed(p, req)
    ensures |r.data| == if SkipOf(req) >= r.total then 0 else Min(LimitOf(req), r.total - SkipOf(req))
    ensures forall i :: 0 <= i < |r.data| ==> r.data[i] == NewestFirst(Filter(ps, ListedBy(req)))[SkipOf(req) + i]
  {
    var listed := Filter(ps, ListedBy(req));
    var matches := NewestFirst(listed);
    var data := Window(matches, SkipOf(req), LimitOf(req));
    WindowOfReversedFilter(ps, ListedBy(req), SkipOf(req), LimitOf(req));
    PostPage(|data|, |matches|, CeilDiv(|matches|, LimitOf(req)), PageOf(req), data)
  }

  /** With the store in creation order, every page comes newest first. */
  lemma ListingPageNewestFirst(ps: seq<Post>, req: ListRequest)
    requires PageOf(req) >= 1 && LimitOf(req) >= 1
    requires Ordered(ps, OlderFirst)
    ensures Ordered(ListingPage(ps, req).data, NewerFirst)
  {
    var listed := Filter(ps, ListedBy(req));
    var skip := SkipOf(req);
    assert ListingPage(ps, req).data == Window(NewestFirst(listed), skip, LimitOf(req));
    FilterKeepsOrder(ps, ListedBy(req), OlderFirst);
    NewestFirstSorted(listed);
    WindowKeepsOrder(NewestFirst(listed), skip, LimitOf(req), NewerFirst);
  }

  /** A page is non-empty exactly when its number is at most the page count. */
  lemma PageNonEmptyIffWithinPageCount<T>(s: seq<T>, page: nat, limit: nat)
    requires page >= 1 && limit >= 1
    ensures |Window(s, (page - 1) * limit, limit)| > 0 <==> page <= CeilDiv(|s|, limit)
  {
    var q := CeilDiv(|s|, limit);
    if page <= q {
      assert (page - 1) * limit <= (q - 1) * limit by {
        MultiplyMonotonic(page - 1, q - 1, limit);
      }
    } else {
      assert q * limit <= (page - 1) * limit by {
        MultiplyMonotonic(q, page - 1, limit);
      }
    }
  }

  /** The listing answers a page with posts exactly when the page number is
      at most the `totalPages` it reports. */
  lemma ListingPageNonEmptyIff(ps: seq<Post>, req: ListRequest)
    requires PageOf(req) >= 1 && LimitOf(req) >= 1
    ensures var r := ListingPage(ps, req); |r.data| > 0 <==> PageOf(req) <= r.totalPages
  {
    var matches := NewestFirst(Filter(ps, ListedBy(req)));
    assert ListingPage(ps, req).data == Window(matches, SkipOf(req), LimitOf(req));
    assert ListingPage(ps, req).totalPages == CeilDiv(|matches|, LimitOf(req));
    PageNonEmptyIffWithinPageCount(matches, PageOf(req), LimitOf(req));
  }

  lemma MultiplyMonotonic(a: nat, b: nat, c: nat)
    requires a <= b
    ensures a * c <= b * c
  {
  }

  // ---------------------------------------------------------------------
  // getMyPosts, getAllPosts, getStats

  function AuthoredBy(user: UserId): Post -> bool {
    (p: Post) => p.author == user
  }

  function HasStatus(status: Status): Post -> bool {
    (p: Post) => p.status == status
  }

  /** `getMyPosts`: every post of the caller, drafts included, newest first. */
  function GetMyPosts(ps: seq<Post>, caller: Caller): (r: seq<Post>)
    ensures forall p :: p in r <==> p in ps && p.author == caller.id
  {
    var mine := Filter(ps, AuthoredBy(caller.id));
    FilterMembers(ps, AuthoredBy(caller.id));
    ReversePermutes(mine);
    assert forall p :: p in NewestFirst(mine) <==> p in multiset(mine);
    assert forall p :: p in mine <==> p in ps && p.author == caller.id;
    NewestFirst(mine)
  }

  lemma MyPostsNewestFirst(ps: seq<Post>, caller: Caller)
    requires Ordered(ps, OlderFirst)
    ensures Ordered(GetMyPosts(ps, caller), NewerFirst)
  {
    FilterKeepsOrder(ps, AuthoredBy(caller.id), OlderFirst);
    NewestFirstSorted(Filter(ps, AuthoredBy(caller.id)));
  }

  /** `getAllPosts` (admin only): every post, drafts included, newest first. */
  function GetAllPosts(ps: seq<Post>, caller: Caller): (r: seq<Post>)
    requires caller.role == Admin
    ensures multiset(r) == multiset(ps)
  {
    ReversePermutes(ps);
    NewestFirst(ps)
  }

  lemma AllPostsNewestFirst(ps: seq<Post>, caller: Caller)
    requires Ordered(ps, OlderFirst) && caller.role == Admin
    ensures Ordered(GetAllPosts(ps, caller), NewerFirst)
  {
    NewestFirstSorted(ps);
  }

  /** `getStats` (admin only); the user count comes from the user store,
      which is not part of this model. */
  function GetStats(ps: seq<Post>, caller: Caller, totalUsers: nat): (s: Stats)
    requires caller.role == Admin
    ensures s.totalUsers == totalUsers && s.totalPosts == |ps|
    ensures s.publishedPosts == |Filter(ps, HasStatus(Published))|
    ensures s.draftPosts == |Filter(ps, HasStatus(Draft))|
    ensures s.publishedPosts + s.draftPosts == s.totalPosts
    ensures |s.recentPosts| == Min(RecentPostsLimit, |ps|)
    ensures s.recentPosts == NewestFirst(ps)[..|s.recentPosts|]
  {
    FilterComplement(ps, HasStatus(Published), HasStatus(Draft));
    Stats(totalUsers, |ps|, |Filter(ps, HasStatus(Published))|, |Filter(ps, HasStatus(Draft))|,
          Window(NewestFirst(ps), 0, RecentPostsLimit))
  }

  /** The recent posts are the newest ones: newest first, and no stored post
      outside them is newer than any of them. */
  lemma RecentPostsAreNewest(ps: seq<Post>, caller: Caller, totalUsers: nat)
    requires Ordered(ps, OlderFirst) && caller.role == Admin
    ensures var recent := GetStats(ps, caller, totalUsers).recentPosts;
      && Ordered(recent, NewerFirst)
      && forall i, j :: 0 <= i < |recent| <= j < |ps| ==> NewerFirst(recent[i], NewestFirst(ps)[j])
  {
    NewestFirstSorted(ps);
  }

  // ---------------------------------------------------------------------
  // createPost

  /** The post `createPost` stores for a body that passed the post rules:
      title and content trimmed by the sanitizers, the caller as author
      whatever the body says, the status defaulting to draft, the read time
      derived from the word count and an empty excerpt replaced by the
      automatic one. */
  function NewPost(body: PostBody, author: UserId, id: PostId, stamp: nat): (r: Post)
    requires PostValidation(body) == []
    ensures r.id == id && r.createdAt == stamp && r.author == author
    ensures r.title == Trim(body.title.value) && r.content == Trim(body.content.value)
    ensures body.status.None? ==> r.status == Draft
    ensures body.status.Some? ==> StatusName(r.status) == body.status.value
    ensures r.tags == CastTags(body.tags)
    ensures (r.readTime - 1) * WordsPerMinute < WordCount(r.content) <= r.readTime * WordsPerMinute
    ensures Truthy(body.excerpt) ==> r.excerpt == body.excerpt
    ensures !Truthy(body.excerpt) ==> r.excerpt == Some(AutoExcerpt(r.content))
    ensures StoredValid(r)
  {
    TrimIdempotent(body.title.value);
    var clean := SanitizePost(body);
    var content := clean.content.value;
    Post(id, Trim(clean.title.value), content,
         if Truthy(clean.excerpt) then clean.excerpt else Some(AutoExcerpt(content)),
         author, ParseStatus(StatusOrDefault(clean.status)).value, CastTags(clean.tags),
         ReadMinutes(WordCount(content)), stamp)
  }

  /** `Post.create(req.body)` after the sanitizers: the document is built,
      validated (which cannot fail once the post rules passed), put through
      the pre-save hook and written with the given id and stamp. */
  method SaveDocument(body: PostBody, author: UserId, id: PostId, stamp: nat) returns (post: Post)
    requires PostValidation(body) == []
    ensures post == NewPost(body, author, id, stamp)
  {
    var request := SanitizePost(body).(author := Some(author));
    AcceptedBodyPassesSchema(body, author);
    var doc := new PostDocument(request);
    assert doc.SchemaValid();
    doc.PreSave();
    post := Post(id, doc.title.value, doc.content.value, doc.excerpt, doc.author.value,
                 ParseStatus(doc.status).value, doc.tags, doc.readTime, stamp);
  }

  // ---------------------------------------------------------------------
  // updatePost and deletePost: authorisation

  /** Who may change or delete a post: its author or an admin. */
  predicate CanModify(p: Post, caller: Caller) {
    p.author == caller.id || caller.role == Admin
  }

  /** `findByIdAndUpdate(id, body)` with a body that passed the post rules
      and their sanitizers: the fields the body carries replace the stored
      ones (the author too), the schema setters trim the title and the tags;
      `readTime` has no validator, so a number the body sends replaces it;
      the pre-save hook does not run, so neither `readTime` nor `excerpt` is
      re-derived from the content. */
  function ApplyUpdate(p: Post, body: PostBody): (r: Post)
    requires PostValidation(body) == []
    ensures r.id == p.id && r.createdAt == p.createdAt
    ensures body.readTime.None? ==> r.readTime == p.readTime
    ensures body.readTime.Some? ==> r.readTime == body.readTime.value
    ensures r.title == Trim(body.title.value) && r.content == Trim(body.content.value)
    ensures body.excerpt.None? ==> r.excerpt == p.excerpt
    ensures body.excerpt.Some? ==> r.excerpt == body.excerpt
    ensures body.author.None? ==> r.author == p.author
    ensures body.status.None? ==> r.status == p.status
    ensures body.status.Some? ==> StatusName(r.status) == body.status.value
    ensures body.tags.None? ==> r.tags == p.tags
    ensures body.tags.Some? ==> r.tags == CastTags(body.tags)
    ensures StoredValid(p) ==> StoredValid(r)
  {
    TrimIdempotent(body.title.value);
    TrimIdempotent(body.content.value);
    var clean := SanitizePost(body);
    p.(title := Trim(clean.title.value),
       content := clean.content.value,
       excerpt := if clean.excerpt.Some? then clean.excerpt else p.excerpt,
       author := clean.author.GetOr(p.author),
       status := if clean.status.Some? then ParseStatus(clean.status.value).value else p.status,
       tags := if clean.tags.Some? then CastTags(clean.tags) else p.tags,
       readTime := clean.readTime.GetOr(p.readTime))
  }

  /** The request body is passed to the update whole: a body naming another
      author moves the post to that author. */
  lemma UpdateCanReassignAuthor(p: Post, body: PostBody, other: UserId)
    requires PostValidation(body) == [] && body.author == Some(other)
    ensures ApplyUpdate(p, body).author == other
  {
  }

  /** What every stored post satisfies. */
  predicate StoredValid(p: Post) {
    TitleOk(p.title) && ContentOk(p.content) && ExcerptOk(p.excerpt)
  }

  /** Deleting the post at position `k` keeps exactly the posts with other ids. */
  lemma RemoveAtIsWithout(ps: seq<Post>, k: nat)
    requires Ordered(ps, DifferentIds) && k < |ps|
    ensures ps[..k] + ps[k + 1..] == Without(ps, ps[k].id)
  {
    OthersHaveOtherIds(ps, k);
    FilterRemovesOne(ps, k, NotId(ps[k].id));
  }

  /** What the store keeps true: posts in creation order with increasing
      ids, every id and stamp already handed out, every post valid. */
  ghost predicate StoreInvariant(posts: seq<Post>, nextId: PostId, clock: nat) {
    && (forall i, j :: 0 <= i < j < |posts| ==> posts[i].createdAt < posts[j].createdAt && posts[i].id < posts[j].id)
    && (forall i :: 0 <= i < |posts| ==> posts[i].id < nextId && posts[i].createdAt < clock)
    && (forall i :: 0 <= i < |posts| ==> StoredValid(posts[i]))
  }

  /** The stored posts are in creation order and their ids are distinct. */
  lemma InvariantOrders(posts: seq<Post>, nextId: PostId, clock: nat)
    requires StoreInvariant(posts, nextId, clock)
    ensures Ordered(posts, OlderFirst) && Ordered(posts, DifferentIds)
  {
    forall i, j | 0 <= i < j < |posts| ensures OlderFirst(posts[i], posts[j]) && DifferentIds(posts[i], posts[j]) {
    }
  }

  /** Appending a valid post with the next id and stamp keeps the invariant. */
  lemma AppendKeepsInvariant(posts: seq<Post>, nextId: PostId, clock: nat, post: Post)
    requires StoreInvariant(posts, nextId, clock)
    requires post.id == nextId && post.createdAt == clock && StoredValid(post)
    ensures StoreInvariant(posts + [post], nextId + 1, clock + 1)
  {
    var ps := posts + [post];
    assert forall i :: 0 <= i < |posts| ==> ps[i] == posts[i];
    assert ps[|posts|] == post;
  }

  /** Replacing a post by one with the same id and stamp keeps the invariant. */
  lemma ReplaceKeepsInvariant(posts: seq<Post>, nextId: PostId, clock: nat, k: nat, post: Post)
    requires StoreInvariant(posts, nextId, clock) && k < |posts|
    requires post.id == posts[k].id && post.createdAt == posts[k].createdAt && StoredValid(post)
    ensures StoreInvariant(posts[k := post], nextId, clock)
  {
    var ps := posts[k := post];
    assert forall i :: 0 <= i < |ps| ==> ps[i].id == posts[i].id && ps[i].createdAt == posts[i].createdAt;
  }

  /** Removing the post at `k` keeps the invariant. */
  lemma RemoveKeepsInvariant(posts: seq<Post>, nextId: PostId, clock: nat, k: nat)
    requires StoreInvariant(posts, nextId, clock) && k < |posts|
    ensures StoreInvariant(posts[..k] + posts[k + 1..], nextId, clock)
  {
    var ps := posts[..k] + posts[k + 1..];
    forall i | 0 <= i < |ps| ensures ps[i].id < nextId && ps[i].createdAt < clock && StoredValid(ps[i]) {
      assert ps[i] == posts[if i < k then i else i + 1];
    }
    forall i, j | 0 <= i < j < |ps| ensures ps[i].createdAt < ps[j].createdAt && ps[i].id < ps[j].id {
      var i', j' := if i < k then i else i + 1, if j < k then j else j + 1;
      assert ps[i] == posts[i'] && ps[j] == posts[j'] && i' < j';
    }
  }

  // ---------------------------------------------------------------------
  // The store

  class Store {
    /** The posts in creation order. */
    var posts: seq<Post>
    /** The next id and the next creation stamp to hand out. */
    var nextId: PostId
    var clock: nat

    ghost predicate Valid()
      reads this
    {
      StoreInvariant(posts, nextId, clock)
    }

    constructor ()
      ensures Valid() && posts == []
    {
      posts, nextId, clock := [], 0, 0;
    }

    /** The database write of a new post. */
    method Insert(post: Post)
      requires Valid()
      requires post.id == nextId && post.createdAt == clock && StoredValid(post)
      modifies this
      ensures Valid()
      ensures posts == old(posts) + [post] && nextId == old(nextId) + 1 && clock == old(clock) + 1
    {
      AppendKeepsInvariant(posts, nextId, clock, post);
      posts, nextId, clock := posts + [post], nextId + 1, clock + 1;
    }

    /** The database write of an updated post at position `k`. */
    method Replace(k: nat, post: Post)
      requires Valid() && k < |posts|
      requires post.id == posts[k].id && post.createdAt == posts[k].createdAt && StoredValid(post)
      modifies this
      ensures Valid()
      ensures posts == old(posts)[k := post] && nextId == old(nextId) && clock == old(clock)
    {
      ReplaceKeepsInvariant(posts, nextId, clock, k, post);
      posts := posts[k := post];
    }

    /** The database delete of the post at position `k`. */
    method Remove(k: nat)
      requires Valid() && k < |posts|
      modifies this
      ensures Valid()
      ensures posts == old(posts)[..k] + old(posts)[k + 1..] && nextId == old(nextId) && clock == old(clock)
    {
      RemoveKeepsInvariant(posts, nextId, clock, k);
      posts := posts[..k] + posts[k + 1..];
    }

    /** `getPosts`: builds the query (always published, then the tag, then
        the search term), then answers with the requested page of the
        matches, newest first, and the counts. */
    method GetPosts(req: ListRequest) returns (page: PostPage)
      requires Valid()
      requires PageOf(req) >= 1 && LimitOf(req) >= 1
      ensures page == ListingPage(posts, req)
      ensures Ordered(page.data, NewerFirst)
    {
      var pageNumber, limit := req.page.GetOr(DefaultPage), req.limit.GetOr(DefaultLimit);
      var query := Query(Published, None, None);
      if Truthy(req.tag) {
        query := query.(tag := req.tag);
      }
      if Truthy(req.search) {
        query := query.(search := req.search);
      }
      var found := NewestFirst(Filter(posts, (p: Post) => Satisfies(p, query)));
      var pagesBefore: nat := pageNumber - 1;
      var data := Window(found, pagesBefore * limit, limit);
      page := PostPage(|data|, |found|, CeilDiv(|found|, limit), pageNumber, data);
      QueryMatchesListed(query, req, posts);
      InvariantOrders(posts, nextId, clock);
      ListingPageNewestFirst(posts, req);
    }

    /** The route's `postValidation` and `validate` steps, then
        `createPost`: a `Post` document is built from the sanitized body
        with the caller as author, passes the schema, goes through the
        pre-save hook and is appended. */
    method CreatePost(caller: Caller, body: PostBody) returns (r: Result<Post, Failure>)
      requires Valid()
      modifies this
      ensures Valid()
      ensures r.Ok? <==> PostValidation(body) == []
      ensures r.Err? ==> r.error == Rejected(Validate(PostValidation(body)).errors) && posts == old(posts)
      ensures r.Ok? ==> r.value == NewPost(body, caller.id, old(nextId), old(clock))
      ensures r.Ok? ==> posts == old(posts) + [r.value]
      ensures nextId == old(nextId) + (if r.Ok? then 1 else 0)
      ensures clock == old(clock) + (if r.Ok? then 1 else 0)
    {
      var verdict := Validate(PostValidation(body));
      if verdict.BadRequest? {
        return Err(Rejected(verdict.errors));
      }
      var post := SaveDocument(body, caller.id, nextId, clock);
      Insert(post);
      r := Ok(post);
    }

    /** The route's `postValidation` and `validate` steps, then
        `updatePost`: 404 for a missing post, then 403 unless the caller is
        the author or an admin; otherwise the body is applied in place. */
    method UpdatePost(caller: Caller, id: PostId, body: PostBody) returns (r: Result<Post, Failure>)
      requires Valid()
      modifies this
      ensures Valid()
      ensures nextId == old(nextId) && clock == old(clock)
      ensures r.Err? ==> posts == old(posts)
      ensures PostValidation(body) != [] ==> r == Err(Rejected(Validate(PostValidation(body)).errors))
      ensures PostValidation(body) == [] && IndexOf(old(posts), id).None? ==> r == Err(NotFound)
      ensures PostValidation(body) == [] && IndexOf(old(posts), id).Some? ==>
        var k := IndexOf(old(posts), id).value;
        && (!CanModify(old(posts)[k], caller) ==> r == Err(Forbidden))
        && (CanModify(old(posts)[k], caller) ==>
              r == Ok(ApplyUpdate(old(posts)[k], body)) && posts == old(posts)[k := r.value])
    {
      var verdict := Validate(PostValidation(body));
      if verdict.BadRequest? {
        return Err(Rejected(verdict.errors));
      }
      var found := IndexOf(posts, id);
      if found.None? {
        return Err(NotFound);
      }
      var k := found.value;
      if posts[k].author != caller.id && caller.role != Admin {
        return Err(Forbidden);
      }
      var updated := ApplyUpdate(posts[k], body);
      Replace(k, updated);
      r := Ok(updated);
    }

    /** `deletePost`: 404 for a missing post, then 403 unless the caller is
        the author or an admin; otherwise exactly that post is removed. */
    method DeletePost(caller: Caller, id: PostId) returns (r: Result<(), Failure>)
      requires Valid()
      modifies this
      ensures Valid()
      ensures nextId == old(nextId) && clock == old(clock)
      ensures IndexOf(old(posts), id).None? ==> r == Err(NotFound)
      ensures IndexOf(old(posts), id).Some? ==>
        var k := IndexOf(old(posts), id).value;
        && (!CanModify(old(posts)[k], caller) ==> r == Err(Forbidden))
        && (CanModify(old(posts)[k], caller) ==> r == Ok(()))
      ensures r.Err? ==> posts == old(posts)
      ensures r.Ok? ==> posts == Without(old(posts), id) && |posts| == |old(posts)| - 1
    {
      var found := IndexOf(posts, id);
      if found.None? {
        return Err(NotFound);
      }
      var k := found.value;
      if posts[k].author != caller.id && caller.role != Admin {
        return Err(Forbidden);
      }
      InvariantOrders(posts, nextId, clock);
      RemoveAtIsWithout(posts, k);
      Remove(k);
      r := Ok(());
    }
  }
}
