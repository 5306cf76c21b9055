/** blog/views.py: what each view decides, reads and writes. A view is a pure
    step from a database and a request to a new database and a response; the
    `Store` class below performs the same steps on a mutable store. Templates
    are abstracted to the data each response renders. */
module Views {
  import opened Tables
  import opened Models
  import opened Forms
  import opened Utils
  import opened PyStr
  import Paginator
  import PyInt

  /** Who sends the request: `request.user` is either anonymous or a user. */
  datatype Requester = Anonymous | Member(user: User)

  datatype HttpMethod = GET | POST

  /** What a view answers with; the rendered variants carry what the
      template is given, and `InternalServerError` is the 500 page Django
      answers when a view raises an exception it does not catch. */
  datatype Response =
    | Listing(page: Paginator.Page<Post>)
    | CategoryPage(category: Category, page: Paginator.Page<Post>)
    | ProfilePage(profile: User, page: Paginator.Page<Post>)
    | Detail(post: Post, comments: seq<Comment>)
    | CommentList(post: Post, errors: set<FieldError>, comments: seq<Comment>)
    | PostFormPage(errors: set<FieldError>)
    | ConfirmDeletePost(post: Post)
    | CommentFormPage(comment: Comment, errors: set<FieldError>)
    | ConfirmDeleteComment(comment: Comment)
    | ProfileFormPage(errors: set<FieldError>)
    | RegistrationFormPage(errors: set<FieldError>)
    | ResetFormPage
    | SetPasswordPage(user: User)
    | NotFound
    | Forbidden
    | RedirectLogin
    | RedirectIndex
    | RedirectDetail(postId: nat)
    | RedirectProfile(username: string)
    | RedirectResetDone
    | RedirectResetComplete
    | InternalServerError

  /** The database after a view, and its response. */
  datatype Step = Step(db: Db, response: Response)

  /** A signed-in requester is a stored user (the session middleware loads it). */
  predicate Known(db: Db, req: Requester)
  {
    req.Member? ==> req.user in db.users
  }

  /** `author == request.user`: an anonymous requester is nobody's author. */
  predicate IsAuthor(req: Requester, author: nat)
  {
    req.Member? && req.user.id == author
  }

  /** The delete views' test: the author, or a staff user. */
  predicate MayDelete(req: Requester, author: nat)
  {
    req.Member? && (req.user.id == author || req.user.isStaff)
  }

  // ---------------------------------------------------------------------
  // Orderings

  function NegPubDate(p: Post): int { 0 - p.pubDate }
  function CommentCreated(c: Comment): int { c.createdAt }
  function NegCommentCreated(c: Comment): int { 0 - c.createdAt }

  /** Newest publication time first. */
  ghost predicate NewestFirstOrder(ps: seq<Post>)
  {
    forall i, j :: 0 <= i < j < |ps| ==> ps[i].pubDate >= ps[j].pubDate
  }

  /** `order_by('-pub_date')`: the same posts, newest publication time first. */
  function NewestFirst(ps: seq<Post>): (r: seq<Post>)
    ensures multiset(r) == multiset(ps)
    ensures forall p :: p in r <==> p in ps
    ensures forall i, j :: 0 <= i < j < |r| ==> r[i].pubDate >= r[j].pubDate
  {
    var r := SortBy(ps, NegPubDate);
    SortByMembers(ps, NegPubDate);
    assert forall i, j :: 0 <= i < j < |r| ==> NegPubDate(r[i]) <= NegPubDate(r[j]);
    r
  }

  /** `order_by('created_at')`: the same comments, oldest first. */
  function OldestCommentsFirst(cs: seq<Comment>): (r: seq<Comment>)
    ensures multiset(r) == multiset(cs)
    ensures forall c :: c in r <==> c in cs
    ensures forall i, j :: 0 <= i < j < |r| ==> r[i].createdAt <= r[j].createdAt
  {
    var r := SortBy(cs, CommentCreated);
    SortByMembers(cs, CommentCreated);
    assert forall i, j :: 0 <= i < j < |r| ==> CommentCreated(r[i]) <= CommentCreated(r[j]);
    r
  }

  /** `order_by('-created_at')`: the same comments, newest first. */
  function NewestCommentsFirst(cs: seq<Comment>): (r: seq<Comment>)
    ensures multiset(r) == multiset(cs)
    ensures forall c :: c in r <==> c in cs
    ensures forall i, j :: 0 <= i < j < |r| ==> r[i].createdAt >= r[j].createdAt
  {
    var r := SortBy(cs, NegCommentCreated);
    SortByMembers(cs, NegCommentCreated);
    assert forall i, j :: 0 <= i < j < |r| ==> NegCommentCreated(r[i]) <= NegCommentCreated(r[j]);
    r
  }

  /** `post.comments.all()`: the stored comments attached to the post. */
  function CommentsOf(db: Db, id: nat): (r: seq<Comment>)
    ensures forall c :: c in r <==> c in db.comments && c.post == id
    ensures |r| == CommentCount(db, id)
  {
    Filter(db.comments, OnPost(id))
  }

  // ---------------------------------------------------------------------
  // Listings: index, category_posts, profile

  /** `page` is the page the `page` parameter selects from `listing`, ten
      posts to a page. */
  predicate PageOf(page: Paginator.Page<Post>, listing: seq<Post>, param: Option<string>)
  {
    && page.numPages == Paginator.NumPages(|listing|, DefaultPerPage)
    && page.number == Paginator.PageNumber(param, page.numPages)
    && page.items == Paginator.PageItems(listing, page.number, DefaultPerPage)
  }

  /** The index's listing: every listed post, newest first. */
  function IndexListing(db: Db, now: Time): (r: seq<Post>)
    ensures forall p :: p in r <==> p in db.posts && IsListed(db, p, now)
    ensures forall i, j :: 0 <= i < j < |r| ==> r[i].pubDate >= r[j].pubDate
  {
    NewestFirst(PublishedPosts(db, now))
  }

  /** `index`: one page of the listed posts. */
  function Index(db: Db, now: Time, page: Option<string>): (resp: Response)
    ensures resp.Listing?
    ensures PageOf(resp.page, IndexListing(db, now), page)
    ensures forall p :: p in resp.page.items ==> p in db.posts && IsListed(db, p, now)
    ensures |resp.page.items| <= DefaultPerPage
    ensures NewestFirstOrder(resp.page.items)
  {
    Listing(PaginateQueryset(IndexListing(db, now), page))
  }

  function PublishedSlug(slug: string): Category -> bool
  {
    (c: Category) => c.slug == slug && c.isPublished
  }

  function InCategory(id: nat): Post -> bool { (p: Post) => p.category == Some(id) }

  /** A category page's listing: the listed posts of that category, newest first. */
  function CategoryListing(db: Db, id: nat, now: Time): (r: seq<Post>)
    ensures forall p :: p in r <==> p in db.posts && IsListed(db, p, now) && p.category == Some(id)
    ensures forall i, j :: 0 <= i < j < |r| ==> r[i].pubDate >= r[j].pubDate
  {
    NewestFirst(Filter(PublishedPosts(db, now), InCategory(id)))
  }

  /** `category_posts`: 404 unless a published category has the slug. */
  function CategoryPosts(db: Db, slug: string, now: Time, page: Option<string>): (resp: Response)
    ensures resp.NotFound? || resp.CategoryPage?
    ensures resp.NotFound? <==> forall c :: c in db.categories ==> !(c.slug == slug && c.isPublished)
    ensures resp.CategoryPage? ==>
              && resp.category in db.categories && resp.category.slug == slug && resp.category.isPublished
              && forall p :: p in resp.page.items ==>
                   p in db.posts && IsListed(db, p, now) && p.category == Some(resp.category.id)
    ensures resp.CategoryPage? ==> NewestFirstOrder(resp.page.items)
    ensures resp.CategoryPage? ==> PageOf(resp.page, CategoryListing(db, resp.category.id, now), page)
  {
    match Find(db.categories, PublishedSlug(slug))
    case None => NotFound
    case Some(c) =>
      CategoryPage(c, PaginateQueryset(CategoryListing(db, c.id, now), page))
  }

  function ByAuthor(uid: nat): Post -> bool { (p: Post) => p.author == uid }

  /** The profile's listing: every post of the author, hidden or not, newest first. */
  function ProfileListing(db: Db, uid: nat): (r: seq<Post>)
    ensures forall p :: p in r <==> p in db.posts && p.author == uid
    ensures forall i, j :: 0 <= i < j < |r| ==> r[i].pubDate >= r[j].pubDate
  {
    NewestFirst(Filter(db.posts, ByAuthor(uid)))
  }

  /** `profile`: 404 unless a user has the username. */
  function Profile(db: Db, username: string, page: Option<string>): (resp: Response)
    ensures resp.NotFound? || resp.ProfilePage?
    ensures resp.NotFound? <==> forall u :: u in db.users ==> u.username != username
    ensures resp.ProfilePage? ==>
              && resp.profile in db.users && resp.profile.username == username
              && forall p :: p in resp.page.items ==> p in db.posts && p.author == resp.profile.id
    ensures resp.ProfilePage? ==> NewestFirstOrder(resp.page.items)
    ensures resp.ProfilePage? ==> PageOf(resp.page, ProfileListing(db, resp.profile.id), page)
  {
    match Find(db.users, HasUsername(username))
    case None => NotFound
    case Some(u) =>
      ProfilePage(u, PaginateQueryset(ProfileListing(db, u.id), page))
  }

  /** The profile lists posts that no public listing shows: unpublished ones
      and ones not yet due. */
  lemma ProfileShowsHidden(db: Db, p: Post, now: Time)
    requires p in db.posts && (!p.isPublished || p.pubDate > now)
    ensures p in ProfileListing(db, p.author)
    ensures p !in IndexListing(db, now)
  {
  }

  // ---------------------------------------------------------------------
  // post_detail

  /** In a valid database the lookup by a stored post's id finds that post. */
  lemma FindStoredPost(db: Db, p: Post)
    requires Valid(db) && p in db.posts
    ensures FindPost(db, p.id) == Some(p)
  {
    var r := FindPost(db, p.id);
    assert p.id in PostIds(db);
    UniqueKeysFind(db.posts, PostKey, r.value, p);
  }

  /** `post_detail`: 404 for a missing post, and for an unpublished one unless
      the requester wrote it; otherwise the post with its comments oldest first. */
  function PostDetail(db: Db, req: Requester, id: nat): (resp: Response)
    requires Valid(db)
    ensures resp.NotFound? || resp.Detail?
    ensures resp.Detail? ==>
              && resp.post in db.posts && resp.post.id == id
              && (resp.post.isPublished || IsAuthor(req, resp.post.author))
              && (forall c :: c in resp.comments <==> c in db.comments && c.post == id)
              && forall i, j :: 0 <= i < j < |resp.comments| ==>
                   resp.comments[i].createdAt <= resp.comments[j].createdAt
  {
    match FindPost(db, id)
    case None => NotFound
    case Some(p) =>
      if !p.isPublished && !IsAuthor(req, p.author) then NotFound
      else Detail(p, OldestCommentsFirst(CommentsOf(db, p.id)))
  }

  /** A stored post is hidden from the detail view exactly when it is
      unpublished and the requester is not its author. */
  lemma DetailNotFoundIff(db: Db, req: Requester, p: Post)
    requires Valid(db) && p in db.posts
    ensures PostDetail(db, req, p.id).NotFound? <==> !p.isPublished && !IsAuthor(req, p.author)
  {
    FindStoredPost(db, p);
  }

  /** The detail view checks the published flag alone: a published post is
      shown to everyone even when no listing shows it, because it is not yet
      due or its category is missing or unpublished. */
  lemma DetailIgnoresDateAndCategory(db: Db, req: Requester, p: Post, now: Time)
    requires Valid(db) && p in db.posts && p.isPublished
    requires p.pubDate > now || p.category.None? || !IsListed(db, p, now)
    ensures PostDetail(db, req, p.id) == Detail(p, OldestCommentsFirst(CommentsOf(db, p.id)))
    ensures p !in PublishedPosts(db, now)
  {
    FindStoredPost(db, p);
  }

  /** A post some listing shows is shown by the detail view to every requester. */
  lemma ListedIsVisible(db: Db, req: Requester, p: Post, now: Time)
    requires Valid(db) && p in IndexListing(db, now)
    ensures PostDetail(db, req, p.id).Detail?
    ensures PostDetail(db, req, p.id).post == p
  {
    FindStoredPost(db, p);
  }

  // ---------------------------------------------------------------------
  // create_post, edit_post, delete_post

  /** `create_post` (behind `login_required`): a valid submission becomes a
      new post by the requester, stamped `now`. */
  function CreatePostStep(db: Db, req: Requester, verb: HttpMethod, f: PostInput, now: Time): (s: Step)
    requires Valid(db) && Known(db, req)
    ensures Valid(s.db)
    ensures req.Anonymous? ==> s == Step(db, RedirectLogin)
    ensures s.db != db ==> req.Member? && verb.POST? && CleanPost(db, f).Clean?
  {
    if req.Anonymous? then Step(db, RedirectLogin)
    else if verb.GET? then Step(db, PostFormPage({}))
    else match CleanPost(db, f)
      case Invalid(e) => Step(db, PostFormPage(e))
      case Clean(g) =>
        Step(SaveNewPost(db, g.title, g.text, g.pubDate.value, req.user.id, g.location, g.category,
                         g.isPublished, now),
             RedirectProfile(req.user.username))
  }

  /** A valid submission adds exactly one post, whose author is the requester
      and whose other fields are the form's. */
  lemma CreatePostAdds(db: Db, req: Requester, f: PostInput, now: Time)
    requires Valid(db) && Known(db, req) && req.Member? && CleanPost(db, f).Clean?
    ensures var s := CreatePostStep(db, req, POST, f, now);
            && s.response == RedirectProfile(req.user.username)
            && s.db.posts == db.posts + [Post(db.nextId, Strip(f.title), Strip(f.text), f.pubDate.value,
                                               req.user.id, f.location, f.category, f.isPublished, now)]
            && s.db.comments == db.comments && s.db.users == db.users
  {
  }

  /** `edit_post`: login first, then the post, then authorship; a non-author
      is sent to the detail view. */
  function EditPostStep(db: Db, req: Requester, verb: HttpMethod, id: nat, f: PostInput): (s: Step)
    requires Valid(db)
    ensures Valid(s.db)
    ensures req.Anonymous? ==> s == Step(db, RedirectLogin)
    ensures s.db != db ==>
              && req.Member? && verb.POST? && CleanPost(db, f).Clean?
              && exists p :: p in db.posts && p.id == id && p.author == req.user.id
  {
    if req.Anonymous? then Step(db, RedirectLogin)
    else match FindPost(db, id)
      case None => Step(db, NotFound)
      case Some(p) =>
        if p.author != req.user.id then Step(db, RedirectDetail(p.id))
        else if verb.GET? then Step(db, PostFormPage({}))
        else SubmitPostEdit(db, p, CleanPost(db, f))
  }

  /** What a cleaned post form may be saved as: a title within the column's
      length, a publication time, and choices that name stored rows. */
  predicate Savable(db: Db, g: PostInput)
  {
    && |g.title| <= MaxTitleLength && g.pubDate.Some?
    && RefersTo(g.category, CategoryIds(db)) && RefersTo(g.location, LocationIds(db))
  }

  /** The author's POST, once the form is bound: an invalid form is shown
      again with its errors, a valid one is saved into the post. */
  function SubmitPostEdit(db: Db, p: Post, cleaned: Cleaned<PostInput>): (s: Step)
    requires Valid(db) && p in db.posts
    requires cleaned.Clean? ==> Savable(db, cleaned.value)
    ensures Valid(s.db)
    ensures s.db != db ==> cleaned.Clean?
    ensures cleaned.Invalid? ==> s == Step(db, PostFormPage(cleaned.errors))
  {
    match cleaned
    case Invalid(e) => Step(db, PostFormPage(e))
    case Clean(g) => Step(SavePost(db, ApplyPostForm(p, g)), RedirectDetail(p.id))
  }

  /** A requester who did not write the post is redirected to it, and nothing changes. */
  lemma EditPostNonAuthor(db: Db, req: Requester, verb: HttpMethod, p: Post, f: PostInput)
    requires Valid(db) && p in db.posts && !IsAuthor(req, p.author)
    ensures EditPostStep(db, req, verb, p.id, f)
            == Step(db, if req.Anonymous? then RedirectLogin else RedirectDetail(p.id))
  {
    FindStoredPost(db, p);
  }

  /** The author's valid submission rewrites that post only, from the form's
      cleaned fields, keeping its id, author and creation time. */
  lemma EditPostSaves(db: Db, req: Requester, p: Post, f: PostInput)
    requires Valid(db) && p in db.posts && IsAuthor(req, p.author) && CleanPost(db, f).Clean?
    ensures var s := EditPostStep(db, req, POST, p.id, f);
            && s.response == RedirectDetail(p.id)
            && |s.db.posts| == |db.posts|
            && (forall i :: 0 <= i < |db.posts| ==>
                  s.db.posts[i] == if db.posts[i].id == p.id then ApplyPostForm(p, CleanPost(db, f).value)
                                   else db.posts[i])
            && s.db.comments == db.comments && s.db.users == db.users
  {
    EditPostStepSaves(db, req, p, f);
  }

  lemma EditPostStepSaves(db: Db, req: Requester, p: Post, f: PostInput)
    requires Valid(db) && p in db.posts && IsAuthor(req, p.author) && CleanPost(db, f).Clean?
    ensures |ApplyPostForm(p, CleanPost(db, f).value).title| <= MaxTitleLength
    ensures EditPostStep(db, req, POST, p.id, f)
            == Step(SavePost(db, ApplyPostForm(p, CleanPost(db, f).value)), RedirectDetail(p.id))
  {
    FindStoredPost(db, p);
    EditPostSubmits(db, req, p, f, CleanPost(db, f).value);
  }

  /** The author's submission of a form that cleans to `g` saves `g`. */
  lemma EditPostSubmits(db: Db, req: Requester, p: Post, f: PostInput, g: PostInput)
    requires Valid(db) && p in db.posts && IsAuthor(req, p.author) && CleanPost(db, f) == Clean(g)
    requires FindPost(db, p.id) == Some(p)
    requires Savable(db, g)
    ensures EditPostStep(db, req, POST, p.id, f) == Step(SavePost(db, ApplyPostForm(p, g)), RedirectDetail(p.id))
  {
    assert EditPostStep(db, req, POST, p.id, f) == SubmitPostEdit(db, p, Clean(g));
  }

  /** `delete_post` (behind `login_required`): the author or a staff user
      confirms with a GET and deletes with a POST. */
  function DeletePostStep(db: Db, req: Requester, verb: HttpMethod, id: nat): (s: Step)
    requires Valid(db)
    ensures Valid(s.db)
    ensures req.Anonymous? ==> s == Step(db, RedirectLogin)
    ensures s.db != db ==>
              && verb.POST? && s.db == DeletePost(db, id)
              && exists p :: p in db.posts && p.id == id && MayDelete(req, p.author)
  {
    if req.Anonymous? then Step(db, RedirectLogin)
    else match FindPost(db, id)
      case None => Step(db, NotFound)
      case Some(p) =>
        if p.author != req.user.id && !req.user.isStaff then Step(db, Forbidden)
        else if verb.POST? then Step(DeletePost(db, p.id), RedirectProfile(req.user.username))
        else Step(db, ConfirmDeletePost(p))
  }

  /** Deleting a stored post succeeds iff the requester is its author or staff;
      otherwise the answer is Forbidden and nothing changes. */
  lemma DeletePostAllowedIff(db: Db, req: Requester, p: Post)
    requires Valid(db) && p in db.posts && req.Member?
    ensures var s := DeletePostStep(db, req, POST, p.id);
            && (s.response == RedirectProfile(req.user.username) <==> MayDelete(req, p.author))
            && (MayDelete(req, p.author) ==> s.db == DeletePost(db, p.id) && p !in s.db.posts)
            && (!MayDelete(req, p.author) ==> s == Step(db, Forbidden))
  {
    FindStoredPost(db, p);
  }

  // ---------------------------------------------------------------------
  // add_comment, edit_comment, delete_comment

  function PublishedWithId(id: nat): Post -> bool { (p: Post) => p.id == id && p.isPublished }

  /** `add_comment` (behind `login_required`): only a published post takes
      comments; a valid one is stored with that post and the requester as
      author; otherwise the comments are rendered newest first. */
  function AddCommentStep(db: Db, req: Requester, verb: HttpMethod, id: nat, f: CommentInput, now: Time): (s: Step)
    requires Valid(db) && Known(db, req)
    ensures Valid(s.db)
    ensures req.Anonymous? ==> s == Step(db, RedirectLogin)
    ensures s.db != db ==>
              && req.Member? && verb.POST? && Filled(f.text)
              && exists p :: p in db.posts && p.id == id && p.isPublished
    ensures s.response.CommentList? ==>
              && s.db == db && s.response.post in db.posts && s.response.post.id == id
              && s.response.post.isPublished
              && (forall c :: c in s.response.comments <==> c in db.comments && c.post == id)
              && forall i, j :: 0 <= i < j < |s.response.comments| ==>
                   s.response.comments[i].createdAt >= s.response.comments[j].createdAt
  {
    if req.Anonymous? then Step(db, RedirectLogin)
    else match Find(db.posts, PublishedWithId(id))
      case None => Step(db, NotFound)
      case Some(p) =>
        if verb.POST? && CleanComment(f).Clean? then
          Step(SaveNewComment(db, p.id, req.user.id, CleanComment(f).value.text, now), RedirectDetail(p.id))
        else
          Step(db, CommentList(p, if verb.POST? then CleanComment(f).errors else {},
                               NewestCommentsFirst(CommentsOf(db, p.id))))
  }

  /** An unpublished post takes no comment from anybody, its author included. */
  lemma AddCommentUnpublished(db: Db, req: Requester, verb: HttpMethod, p: Post, f: CommentInput, now: Time)
    requires Valid(db) && Known(db, req) && req.Member? && p in db.posts && !p.isPublished
    ensures AddCommentStep(db, req, verb, p.id, f, now) == Step(db, NotFound)
  {
    forall q | q in db.posts && q.id == p.id ensures !q.isPublished {
      UniqueKeysFind(db.posts, PostKey, p, q);
    }
  }

  /** A valid comment on a published post is appended once, attached to that
      post and written by the requester, and raises that post's count by one. */
  lemma AddCommentSaves(db: Db, req: Requester, p: Post, f: CommentInput, now: Time)
    requires Valid(db) && Known(db, req) && req.Member? && p in db.posts && p.isPublished && Filled(f.text)
    ensures var s := AddCommentStep(db, req, POST, p.id, f, now);
            && s.response == RedirectDetail(p.id)
            && s.db.comments == db.comments + [Comment(db.nextId, p.id, req.user.id, Strip(f.text), now)]
            && s.db.posts == db.posts
            && CommentCount(s.db, p.id) == CommentCount(db, p.id) + 1
  {
    FindPublishedPost(db, p);
    assert CleanComment(f).value.text == Strip(f.text);
    var c := Comment(db.nextId, p.id, req.user.id, Strip(f.text), now);
    assert AddCommentStep(db, req, POST, p.id, f, now)
           == Step(SaveNewComment(db, p.id, req.user.id, Strip(f.text), now), RedirectDetail(p.id));
    CommentCountAfterAdd(db, c, p.id);
  }

  /** In a valid database the lookup for a published post by its id finds it. */
  lemma FindPublishedPost(db: Db, p: Post)
    requires Valid(db) && p in db.posts && p.isPublished
    ensures Find(db.posts, PublishedWithId(p.id)) == Some(p)
  {
    var r := Find(db.posts, PublishedWithId(p.id));
    UniqueKeysFind(db.posts, PostKey, r.value, p);
  }

  /** In a valid database the lookup by a stored comment's id finds that comment. */
  lemma FindStoredComment(db: Db, c: Comment)
    requires Valid(db) && c in db.comments
    ensures FindComment(db, c.id) == Some(c)
  {
    var r := FindComment(db, c.id);
    UniqueKeysFind(db.comments, CommentKey, r.value, c);
  }

  /** `edit_comment` (behind `login_required`): the comment's author alone may
      edit it; the redirect goes to the post named in the URL. */
  function EditCommentStep(db: Db, req: Requester, verb: HttpMethod, postId: nat, commentId: nat,
                           f: CommentInput): (s: Step)
    requires Valid(db)
    ensures Valid(s.db)
    ensures req.Anonymous? ==> s == Step(db, RedirectLogin)
    ensures s.db != db ==>
              && req.Member? && verb.POST? && Filled(f.text)
              && exists c :: c in db.comments && c.id == commentId && c.author == req.user.id
  {
    if req.Anonymous? then Step(db, RedirectLogin)
    else match FindComment(db, commentId)
      case None => Step(db, NotFound)
      case Some(c) =>
        if c.author != req.user.id then Step(db, Forbidden)
        else if verb.POST? && CleanComment(f).Clean? then
          Step(SaveComment(db, ApplyCommentForm(c, CleanComment(f).value)), RedirectDetail(postId))
        else
          Step(db, CommentFormPage(c, if verb.POST? then CleanComment(f).errors else {}))
  }

  /** Editing someone else's comment is Forbidden, to staff users as well. */
  lemma EditCommentNotAuthor(db: Db, req: Requester, verb: HttpMethod, postId: nat, c: Comment, f: CommentInput)
    requires Valid(db) && c in db.comments && req.Member? && req.user.id != c.author
    ensures EditCommentStep(db, req, verb, postId, c.id, f) == Step(db, Forbidden)
  {
    FindStoredComment(db, c);
  }

  /** The author's valid edit replaces the text of that comment only, by the
      stripped text, and the
      redirect names the URL's post whichever post the comment belongs to. */
  lemma EditCommentSaves(db: Db, req: Requester, postId: nat, c: Comment, f: CommentInput)
    requires Valid(db) && c in db.comments && IsAuthor(req, c.author) && Filled(f.text)
    ensures var s := EditCommentStep(db, req, POST, postId, c.id, f);
            && s.response == RedirectDetail(postId)
            && |s.db.comments| == |db.comments|
            && (forall i :: 0 <= i < |db.comments| ==>
                  s.db.comments[i] == if db.comments[i].id == c.id then c.(text := Strip(f.text))
                                   else db.comments[i])
            && s.db.posts == db.posts
  {
    EditCommentStepSaves(db, req, postId, c, f);
  }

  lemma EditCommentStepSaves(db: Db, req: Requester, postId: nat, c: Comment, f: CommentInput)
    requires Valid(db) && c in db.comments && IsAuthor(req, c.author) && Filled(f.text)
    ensures c.post in PostIds(db) && c.author in UserIds(db)
    ensures EditCommentStep(db, req, POST, postId, c.id, f)
            == Step(SaveComment(db, ApplyCommentForm(c, CleanComment(f).value)), RedirectDetail(postId))
  {
    FindStoredComment(db, c);
  }

  /** `delete_comment` (behind `login_required`): the author or a staff user. */
  function DeleteCommentStep(db: Db, req: Requester, verb: HttpMethod, postId: nat, commentId: nat): (s: Step)
    requires Valid(db)
    ensures Valid(s.db)
    ensures req.Anonymous? ==> s == Step(db, RedirectLogin)
    ensures s.db != db ==>
              && verb.POST? && s.db == DeleteComment(db, commentId)
              && exists c :: c in db.comments && c.id == commentId && MayDelete(req, c.author)
  {
    if req.Anonymous? then Step(db, RedirectLogin)
    else match FindComment(db, commentId)
      case None => Step(db, NotFound)
      case Some(c) =>
        if c.author != req.user.id && !req.user.isStaff then Step(db, Forbidden)
        else if verb.POST? then Step(DeleteComment(db, c.id), RedirectDetail(postId))
        else Step(db, ConfirmDeleteComment(c))
  }

  /** Deleting a stored comment succeeds iff the requester is its author or
      staff; otherwise the answer is Forbidden and nothing changes. */
  lemma DeleteCommentAllowedIff(db: Db, req: Requester, postId: nat, c: Comment)
    requires Valid(db) && c in db.comments && req.Member?
    ensures var s := DeleteCommentStep(db, req, POST, postId, c.id);
            && (s.response == RedirectDetail(postId) <==> MayDelete(req, c.author))
            && (MayDelete(req, c.author) ==> s.db == DeleteComment(db, c.id) && c !in s.db.comments)
            && (!MayDelete(req, c.author) ==> s == Step(db, Forbidden))
  {
    FindStoredComment(db, c);
  }

  // ---------------------------------------------------------------------
  // edit_profile, registration

  /** The requester's row with the profile form's four fields. */
  function ApplyProfileForm(u: User, f: ProfileInput): (v: User)
    ensures v.id == u.id && v.isStaff == u.isStaff
    ensures v.username == f.username && v.firstName == f.firstName
            && v.lastName == f.lastName && v.email == f.email
  {
    u.(username := f.username, firstName := f.firstName, lastName := f.lastName, email := f.email)
  }

  /** `edit_profile` (behind `login_required`): a valid form overwrites the
      requester's own row and redirects to the (possibly new) username. */
  function EditProfileStep(db: Db, uc: Unicode, req: Requester, verb: HttpMethod, f: ProfileInput): (s: Step)
    requires Valid(db) && Known(db, req)
    ensures Valid(s.db)
    ensures req.Anonymous? ==> s == Step(db, RedirectLogin)
    ensures s.db != db ==> req.Member? && verb.POST? && CleanProfile(db.users, uc, req.user.id, f).Clean?
  {
    if req.Anonymous? then Step(db, RedirectLogin)
    else if verb.GET? then Step(db, ProfileFormPage({}))
    else SubmitProfileEdit(db, req.user, CleanProfile(db.users, uc, req.user.id, f))
  }

  /** The signed-in user's POST, once the form is bound: an invalid form is
      shown again with its errors, a valid one overwrites the user's row. */
  function SubmitProfileEdit(db: Db, u: User, cleaned: Cleaned<ProfileInput>): (s: Step)
    requires Valid(db) && u in db.users
    requires cleaned.Clean? ==> forall v :: v in db.users && v.id != u.id ==> v.username != cleaned.value.username
    ensures Valid(s.db)
    ensures s.db != db ==> cleaned.Clean?
    ensures cleaned.Invalid? ==> s == Step(db, ProfileFormPage(cleaned.errors))
  {
    match cleaned
    case Invalid(e) => Step(db, ProfileFormPage(e))
    case Clean(g) => Step(SaveUser(db, ApplyProfileForm(u, g)), RedirectProfile(g.username))
  }

  /** A saved profile changes the requester's row and no other, keeps the
      staff flag, may take an email that another user already has, and
      redirects to the username as normalised. */
  lemma EditProfileSaves(db: Db, uc: Unicode, req: Requester, f: ProfileInput)
    requires Valid(db) && Known(db, req) && req.Member? && CleanProfile(db.users, uc, req.user.id, f).Clean?
    ensures var s := EditProfileStep(db, uc, req, POST, f);
            && s.response == RedirectProfile(uc.nfkc(Strip(f.username)))
            && |s.db.users| == |db.users|
            && (forall i :: 0 <= i < |db.users| ==>
                  s.db.users[i] == if db.users[i].id == req.user.id
                                   then req.user.(username := uc.nfkc(Strip(f.username)),
                                                  firstName := Strip(f.firstName), lastName := Strip(f.lastName),
                                                  email := NormalizeEmail(uc.lower, Strip(f.email)))
                                   else db.users[i])
            && s.db.posts == db.posts && s.db.comments == db.comments
  {
    EditProfileSubmits(db, uc, req, f, CleanProfile(db.users, uc, req.user.id, f).value);
  }

  /** The requester's submission of a form that cleans to `g` saves `g`. */
  lemma EditProfileSubmits(db: Db, uc: Unicode, req: Requester, f: ProfileInput, g: ProfileInput)
    requires Valid(db) && Known(db, req) && req.Member? && CleanProfile(db.users, uc, req.user.id, f) == Clean(g)
    requires forall u :: u in db.users && u.id != req.user.id ==> u.username != g.username
    ensures EditProfileStep(db, uc, req, POST, f)
            == Step(SaveUser(db, ApplyProfileForm(req.user, g)), RedirectProfile(g.username))
  {
    assert EditProfileStep(db, uc, req, POST, f) == SubmitProfileEdit(db, req.user, Clean(g));
  }

  /** `registration`, with the form's `clean_password2` as written: a valid
      form stores one new user and goes to the index; an invalid one is
      rendered again with its errors and stores nothing; the `KeyError` of
      `clean_password2` is a server error, and stores nothing either. */
  function RegistrationStep(db: Db, uc: Unicode, verb: HttpMethod, f: RegistrationInput): (s: Step)
    requires Valid(db)
    ensures Valid(s.db)
    ensures s.db != db ==> verb.POST? && CleanRegistration(db.users, uc, f).Registered?
    ensures s.response == InternalServerError <==> verb.POST? && !Filled(f.password) && Filled(f.password2)
  {
    if verb.GET? then Step(db, RegistrationFormPage({}))
    else match CleanRegistrationAsWritten(db.users, uc, f)
      case Registered(r) =>
        RegistrationAgrees(db.users, uc, f);
        Step(SaveNewUser(db, r.username, r.firstName, r.email), RedirectIndex)
      case Refused(e) => Step(db, RegistrationFormPage(e))
      case ServerError => Step(db, InternalServerError)
  }

  /** Differing passwords, or an email some user already has, compared once
      stripped, are refused with the matching error, and no user is stored;
      but with a first password that failed its own field check and a second
      that did not, the view answers with a server error instead. */
  lemma RegistrationRefuses(db: Db, uc: Unicode, f: RegistrationInput)
    requires Valid(db)
    requires || (Filled(f.password) && Filled(f.password2) && Strip(f.password) != Strip(f.password2))
             || (Nul !in f.email && exists u :: u in db.users && u.email == Strip(f.email))
    ensures var s := RegistrationStep(db, uc, POST, f);
            && s.db == db
            && (!Filled(f.password) && Filled(f.password2) ==> s.response == InternalServerError)
            && (!(!Filled(f.password) && Filled(f.password2)) ==>
                  && s.response.RegistrationFormPage?
                  && (Filled(f.password) && Filled(f.password2) && Strip(f.password) != Strip(f.password2) ==>
                        PasswordMismatch in s.response.errors)
                  && ((Nul !in f.email && exists u :: u in db.users && u.email == Strip(f.email)) ==>
                        DuplicateEmail in s.response.errors))
  {
    if !(!Filled(f.password) && Filled(f.password2)) {
      RegistrationAgrees(db.users, uc, f);
    }
  }

  /** An empty first password and a given second one crash the view, even
      where the corrected form would report the missing password and a
      taken email. */
  lemma RegistrationCrashes(db: Db, uc: Unicode, u: User, f: RegistrationInput)
    requires Valid(db) && u in db.users && f.email == u.email && Strip(u.email) == u.email && Nul !in u.email
    requires f.password == "" && Filled(f.password2)
    ensures RegistrationStep(db, uc, POST, f) == Step(db, InternalServerError)
    ensures var r := CleanRegistration(db.users, uc, f);
            r.Refused? && Required(Password) in r.errors && DuplicateEmail in r.errors
  {
    assert AllSpace(f.password);
  }

  /** A successful registration appends exactly the new user, not staff, with
      the username and the email as `AbstractUser.clean()` normalised them. */
  lemma RegistrationAdds(db: Db, uc: Unicode, f: RegistrationInput)
    requires Valid(db) && CleanRegistration(db.users, uc, f).Registered?
    ensures var s := RegistrationStep(db, uc, POST, f);
            && s.response == RedirectIndex
            && s.db.users == db.users + [User(db.nextId, uc.nfkc(Strip(f.username)), Strip(f.firstName), "",
                                              NormalizeEmail(uc.lower, Strip(f.email)), false)]
            && s.db.posts == db.posts && s.db.comments == db.comments
  {
    RegistrationAgrees(db.users, uc, f);
  }

  /** `clean_email` looks for the address as submitted, but the address
      saved has its domain lowercased: `ann@EXAMPLE.ORG` passes where
      `ann@example.org` is stored, and afterwards one user more holds
      `ann@example.org`, so a password reset for it mails both. */
  lemma RegistrationDuplicatesAddress(db: Db, uc: Unicode, u: User, f: RegistrationInput,
                                      local: string, domain: string)
    requires Valid(db) && u in db.users && u.email == local + "@" + uc.lower(domain)
    requires f.email == local + "@" + domain && '@' !in domain && Strip(f.email) == f.email
    requires CleanRegistration(db.users, uc, f).Registered?
    ensures var s := RegistrationStep(db, uc, POST, f);
            && s.response == RedirectIndex
            && Count(s.db.users, HasEmail(u.email)) == Count(db.users, HasEmail(u.email)) + 1
            && Count(s.db.users, HasEmail(u.email)) >= 2
  {
    NormalizedAddress(uc.lower, local, domain);
    RegistrationAdds(db, uc, f);
    var v := User(db.nextId, uc.nfkc(Strip(f.username)), Strip(f.firstName), "", u.email, false);
    CountAppend(db.users, v, HasEmail(u.email));
    assert HasEmail(u.email)(u);
  }

  // ---------------------------------------------------------------------
  // password_reset_confirm

  /** The user a reset link names: `int()` of the identifier, then a lookup by
      primary key; a `ValueError` or a missing user both give no user. */
  function ResetConfirmUser(db: Db, uid: string): (r: Option<User>)
    ensures r.Some? ==> r.value in db.users && PyInt.ParseInt(uid) == Some(r.value.id)
    ensures r.None? <==> match PyInt.ParseInt(uid)
                         case None => true
                         case Some(k) => k < 0 || k !in UserIds(db)
  {
    match PyInt.ParseInt(uid)
    case None => None
    case Some(k) => if k < 0 then None else FindUser(db, k)
  }

  /** `SetPasswordForm`'s two entries (the password validators are not part of this model). */
  datatype SetPasswordInput = SetPasswordInput(password1: string, password2: string)

  /** `password_reset_confirm`: an unknown user or a failed token check goes
      home; otherwise the set-password form, and after a valid one the
      completion page. `checkToken` stands for the token generator. */
  function ResetConfirm(db: Db, verb: HttpMethod, uid: string, token: string,
                        checkToken: (User, string) -> bool, f: SetPasswordInput): (resp: Response)
    ensures resp == RedirectIndex <==>
              ResetConfirmUser(db, uid).None? || !checkToken(ResetConfirmUser(db, uid).value, token)
    ensures resp.SetPasswordPage? ==> resp.user in db.users && checkToken(resp.user, token)
  {
    match ResetConfirmUser(db, uid)
    case None => RedirectIndex
    case Some(u) =>
      if !checkToken(u, token) then RedirectIndex
      else if verb.POST? && f.password1 != "" && f.password1 == f.password2 then RedirectResetComplete
      else SetPasswordPage(u)
  }

  /** The identifier a reset mail carries, `str(user.pk)`, leads back to that user. */
  lemma ResetLinkFindsUser(db: Db, u: User)
    requires Valid(db) && u in db.users
    ensures ResetConfirmUser(db, PyInt.Show(u.id)) == Some(u)
  {
    PyInt.ParseShow(u.id);
    var r := FindUser(db, u.id);
    UniqueKeysFind(db.users, UserKey, r.value, u);
  }

  /** An identifier without a digit is caught and the requester sent home. */
  lemma ResetRejectsGarbage(db: Db, verb: HttpMethod, uid: string, token: string,
                            checkToken: (User, string) -> bool, f: SetPasswordInput)
    requires forall c :: c in uid ==> !PyInt.IsDigit(c)
    ensures ResetConfirm(db, verb, uid, token, checkToken, f) == RedirectIndex
  {

  }

  // ---------------------------------------------------------------------
  // password_reset

  /** `PasswordResetForm`'s `EmailField` length limit. */
  const MaxEmailLength: nat := 254

  /** `PasswordResetForm`'s cleaned address: the stripped text, when it is
      given, holds no NUL and is within the length limit. */
  function ResetAddress(email: string): (r: Option<string>)
    ensures r.Some? <==> Filled(email) && |Strip(email)| <= MaxEmailLength
    ensures r.Some? ==> r.value == Strip(email)
  {
    if TextErrors(Email, email, true, Some(MaxEmailLength)) == {} then Some(Strip(email)) else None
  }

  /** A reset mail: the user id its link carries and the address it goes to. */
  datatype ResetMail = ResetMail(uid: nat, to: string)

  // ---------------------------------------------------------------------
  // The store the views act on

  /** The database as a mutable object: one field per table, and the key counter. */
  class Store {
    var users: seq<User>
    var posts: seq<Post>
    var categories: seq<Category>
    var locations: seq<Location>
    var comments: seq<Comment>
    var nextId: nat

    function Snapshot(): Db
      reads this
    {
      Db(users, posts, categories, locations, comments, nextId)
    }

    ghost predicate Valid()
      reads this
    {
      Models.Valid(Snapshot())
    }

    constructor ()
      ensures Valid() && Snapshot() == Empty()
    {
      users, posts, categories, locations, comments, nextId := [], [], [], [], [], 0;
    }

    // Administration: the manager calls that create and delete rows.

    /** `Category.objects.create(...)`. */
    method CreateCategory(title: string, description: string, slug: string, now: Time) returns (ok: bool)
      requires Valid()
      modifies this`categories, this`nextId
      ensures Valid()
      ensures ok == Models.CreateCategory(old(Snapshot()), title, description, slug, now).Some?
      ensures ok ==> Snapshot() == Models.CreateCategory(old(Snapshot()), title, description, slug, now).value
      ensures !ok ==> Snapshot() == old(Snapshot())
    {
      var created := Models.CreateCategory(Snapshot(), title, description, slug, now);
      ok := created.Some?;
      if ok {
        categories := categories + [NewCategory(Snapshot(), title, description, slug, now)];
        nextId := nextId + 1;
      }
    }

    /** `Location.objects.create(...)`. */
    method CreateLocation(name: string, now: Time) returns (ok: bool)
      requires Valid()
      modifies this`locations, this`nextId
      ensures Valid()
      ensures ok == Models.CreateLocation(old(Snapshot()), name, now).Some?
      ensures ok ==> Snapshot() == Models.CreateLocation(old(Snapshot()), name, now).value
      ensures !ok ==> Snapshot() == old(Snapshot())
    {
      ok := |name| <= MaxTitleLength;
      if ok {
        locations := locations + [NewLocation(Snapshot(), name, now)];
        nextId := nextId + 1;
      }
    }

    /** `user.delete()`, with its cascades. */
    method DeleteUser(uid: nat)
      requires Valid()
      modifies this`users, this`posts, this`comments
      ensures Valid()
      ensures Snapshot() == Models.DeleteUser(old(Snapshot()), uid)
    {
      ghost var target := Models.DeleteUser(Snapshot(), uid);
      var gone := PostsBy(Snapshot(), uid);
      comments := Filter(comments, Survives(uid, gone));
      posts := Filter(posts, NotBy(uid));
      users := Filter(users, NotUser(uid));
      assert Snapshot() == target;
    }

    /** `category.delete()`, nulling the posts' references. */
    method DeleteCategory(id: nat)
      requires Valid()
      modifies this`categories, this`posts
      ensures Valid()
      ensures Snapshot() == Models.DeleteCategory(old(Snapshot()), id)
    {
      ghost var target := Models.DeleteCategory(Snapshot(), id);
      categories := Filter(categories, NotCategory(id));
      posts := MapRows(posts, NullCategory(id));
      assert Snapshot() == target;
    }

    /** `location.delete()`, nulling the posts' references. */
    method DeleteLocation(id: nat)
      requires Valid()
      modifies this`locations, this`posts
      ensures Valid()
      ensures Snapshot() == Models.DeleteLocation(old(Snapshot()), id)
    {
      ghost var target := Models.DeleteLocation(Snapshot(), id);
      locations := Filter(locations, NotLocation(id));
      posts := MapRows(posts, NullLocation(id));
      assert Snapshot() == target;
    }

    // Row writes: `save()` and `delete()` on one row.

    /** `post.save()` of a new post. */
    method InsertPost(title: string, text: string, pubDate: Time, author: nat, location: Option<nat>,
                      category: Option<nat>, isPublished: bool, now: Time)
      requires Valid() && |title| <= MaxTitleLength && author in UserIds(Snapshot())
      requires RefersTo(category, CategoryIds(Snapshot())) && RefersTo(location, LocationIds(Snapshot()))
      modifies this`posts, this`nextId
      ensures Valid()
      ensures Snapshot() == SaveNewPost(old(Snapshot()), title, text, pubDate, author, location, category,
                                        isPublished, now)
    {
      ghost var target := SaveNewPost(Snapshot(), title, text, pubDate, author, location, category, isPublished, now);
      posts := posts + [Post(nextId, title, text, pubDate, author, location, category, isPublished, now)];
      nextId := nextId + 1;
      assert Snapshot() == target;
    }

    /** `post.save()` of a stored post. */
    method UpdatePost(p: Post)
      requires Valid() && p.id in PostIds(Snapshot()) && p.author in UserIds(Snapshot())
      requires |p.title| <= MaxTitleLength
      requires RefersTo(p.category, CategoryIds(Snapshot())) && RefersTo(p.location, LocationIds(Snapshot()))
      modifies this`posts
      ensures Valid()
      ensures Snapshot() == SavePost(old(Snapshot()), p)
    {
      ghost var target := SavePost(Snapshot(), p);
      posts := MapRows(posts, ReplacePost(p));
      assert Snapshot() == target;
    }

    /** `post.delete()`, with the cascade to its comments. */
    method RemovePost(id: nat)
      requires Valid()
      modifies this`posts, this`comments
      ensures Valid()
      ensures Snapshot() == Models.DeletePost(old(Snapshot()), id)
    {
      ghost var target := Models.DeletePost(Snapshot(), id);
      posts, comments := Filter(posts, NotPost(id)), Filter(comments, NotOnPost(id));
      assert Snapshot() == target;
    }

    /** `comment.save()` of a new comment. */
    method InsertComment(post: nat, author: nat, text: string, now: Time)
      requires Valid() && post in PostIds(Snapshot()) && author in UserIds(Snapshot())
      modifies this`comments, this`nextId
      ensures Valid()
      ensures Snapshot() == SaveNewComment(old(Snapshot()), post, author, text, now)
    {
      ghost var target := SaveNewComment(Snapshot(), post, author, text, now);
      comments := comments + [Comment(nextId, post, author, text, now)];
      nextId := nextId + 1;
      assert Snapshot() == target;
    }

    /** `comment.save()` of a stored comment. */
    method UpdateComment(c: Comment)
      requires Valid() && c.post in PostIds(Snapshot()) && c.author in UserIds(Snapshot())
      requires exists d :: d in comments && d.id == c.id
      modifies this`comments
      ensures Valid()
      ensures Snapshot() == SaveComment(old(Snapshot()), c)
    {
      ghost var target := SaveComment(Snapshot(), c);
      comments := MapRows(comments, ReplaceComment(c));
      assert Snapshot() == target;
    }

    /** `comment.delete()`. */
    method RemoveComment(id: nat)
      requires Valid()
      modifies this`comments
      ensures Valid()
      ensures Snapshot() == Models.DeleteComment(old(Snapshot()), id)
    {
      ghost var target := Models.DeleteComment(Snapshot(), id);
      comments := Filter(comments, NotComment(id));
      assert Snapshot() == target;
    }

    /** `user.save()` of a new user. */
    method InsertUser(username: string, firstName: string, email: string)
      requires Valid() && forall u :: u in users ==> u.username != username
      modifies this`users, this`nextId
      ensures Valid()
      ensures Snapshot() == SaveNewUser(old(Snapshot()), username, firstName, email)
    {
      ghost var target := SaveNewUser(Snapshot(), username, firstName, email);
      users := users + [User(nextId, username, firstName, "", email, false)];
      nextId := nextId + 1;
      assert Snapshot() == target;
    }

    /** `user.save()` of a stored user. */
    method UpdateUser(u: User)
      requires Valid() && u.id in UserIds(Snapshot())
      requires forall v :: v in users && v.id != u.id ==> v.username != u.username
      modifies this`users
      ensures Valid()
      ensures Snapshot() == SaveUser(old(Snapshot()), u)
    {
      ghost var target := SaveUser(Snapshot(), u);
      users := MapRows(users, ReplaceUser(u));
      assert Snapshot() == target;
    }

    // The views that write.

    method CreatePost(req: Requester, verb: HttpMethod, f: PostInput, now: Time) returns (resp: Response)
      requires Valid() && Known(Snapshot(), req)
      modifies this`posts, this`nextId
      ensures Valid()
      ensures Step(Snapshot(), resp) == CreatePostStep(old(Snapshot()), req, verb, f, now)
    {
      if req.Anonymous? { return RedirectLogin; }
      if verb.GET? { return PostFormPage({}); }
      var cleaned := CleanPost(Snapshot(), f);
      if cleaned.Invalid? { return PostFormPage(cleaned.errors); }
      var g := cleaned.value;
      InsertPost(g.title, g.text, g.pubDate.value, req.user.id, g.location, g.category, g.isPublished, now);
      resp := RedirectProfile(req.user.username);
    }

    method EditPost(req: Requester, verb: HttpMethod, id: nat, f: PostInput) returns (resp: Response)
      requires Valid()
      modifies this`posts
      ensures Valid()
      ensures Step(Snapshot(), resp) == EditPostStep(old(Snapshot()), req, verb, id, f)
    {
      if req.Anonymous? { return RedirectLogin; }
      var found := FindPost(Snapshot(), id);
      if found.None? { return NotFound; }
      var p := found.value;
      if p.author != req.user.id { return RedirectDetail(p.id); }
      if verb.GET? { return PostFormPage({}); }
      var cleaned := CleanPost(Snapshot(), f);
      if cleaned.Invalid? { return PostFormPage(cleaned.errors); }
      UpdatePost(ApplyPostForm(p, cleaned.value));
      resp := RedirectDetail(p.id);
    }

    method DeletePost(req: Requester, verb: HttpMethod, id: nat) returns (resp: Response)
      requires Valid()
      modifies this`posts, this`comments
      ensures Valid()
      ensures Step(Snapshot(), resp) == DeletePostStep(old(Snapshot()), req, verb, id)
    {
      if req.Anonymous? { return RedirectLogin; }
      var found := FindPost(Snapshot(), id);
      if found.None? { return NotFound; }
      var p := found.value;
      if p.author != req.user.id && !req.user.isStaff { return Forbidden; }
      if verb.GET? { return ConfirmDeletePost(p); }
      RemovePost(p.id);
      resp := RedirectProfile(req.user.username);
    }

    method AddComment(req: Requester, verb: HttpMethod, id: nat, f: CommentInput, now: Time) returns (resp: Response)
      requires Valid() && Known(Snapshot(), req)
      modifies this`comments, this`nextId
      ensures Valid()
      ensures Step(Snapshot(), resp) == AddCommentStep(old(Snapshot()), req, verb, id, f, now)
    {
      if req.Anonymous? { return RedirectLogin; }
      var found := Find(posts, PublishedWithId(id));
      if found.None? { return NotFound; }
      var p := found.value;
      var cleaned := CleanComment(f);
      if verb.POST? && cleaned.Clean? {
        InsertComment(p.id, req.user.id, cleaned.value.text, now);
        return RedirectDetail(p.id);
      }
      var errors := if verb.POST? then cleaned.errors else {};
      resp := CommentList(p, errors, NewestCommentsFirst(CommentsOf(Snapshot(), p.id)));
    }

    method EditComment(req: Requester, verb: HttpMethod, postId: nat, commentId: nat, f: CommentInput)
      returns (resp: Response)
      requires Valid()
      modifies this`comments
      ensures Valid()
      ensures Step(Snapshot(), resp) == EditCommentStep(old(Snapshot()), req, verb, postId, commentId, f)
    {
      if req.Anonymous? { return RedirectLogin; }
      var found := FindComment(Snapshot(), commentId);
      if found.None? { return NotFound; }
      var c := found.value;
      if c.author != req.user.id { return Forbidden; }
      var cleaned := CleanComment(f);
      if verb.POST? && cleaned.Clean? {
        UpdateComment(ApplyCommentForm(c, cleaned.value));
        return RedirectDetail(postId);
      }
      resp := CommentFormPage(c, if verb.POST? then cleaned.errors else {});
    }

    method DeleteComment(req: Requester, verb: HttpMethod, postId: nat, commentId: nat) returns (resp: Response)
      requires Valid()
      modifies this`comments
      ensures Valid()
      ensures Step(Snapshot(), resp) == DeleteCommentStep(old(Snapshot()), req, verb, postId, commentId)
    {
      if req.Anonymous? { return RedirectLogin; }
      var found := FindComment(Snapshot(), commentId);
      if found.None? { return NotFound; }
      var c := found.value;
      if c.author != req.user.id && !req.user.isStaff { return Forbidden; }
      if verb.GET? { return ConfirmDeleteComment(c); }
      RemoveComment(c.id);
      resp := RedirectDetail(postId);
    }

    method EditProfile(uc: Unicode, req: Requester, verb: HttpMethod, f: ProfileInput) returns (resp: Response)
      requires Valid() && Known(Snapshot(), req)
      modifies this`users
      ensures Valid()
      ensures Step(Snapshot(), resp) == EditProfileStep(old(Snapshot()), uc, req, verb, f)
    {
      if req.Anonymous? { return RedirectLogin; }
      if verb.GET? { return ProfileFormPage({}); }
      var cleaned := CleanProfile(users, uc, req.user.id, f);
      if cleaned.Invalid? { return ProfileFormPage(cleaned.errors); }
      UpdateUser(ApplyProfileForm(req.user, cleaned.value));
      resp := RedirectProfile(cleaned.value.username);
    }

    method Register(uc: Unicode, verb: HttpMethod, f: RegistrationInput) returns (resp: Response)
      requires Valid()
      modifies this`users, this`nextId
      ensures Valid()
      ensures Step(Snapshot(), resp) == RegistrationStep(old(Snapshot()), uc, verb, f)
    {
      if verb.GET? { return RegistrationFormPage({}); }
      var outcome := CleanRegistrationAsWritten(users, uc, f);
      if outcome.Refused? { return RegistrationFormPage(outcome.errors); }
      if outcome.ServerError? { return InternalServerError; }
      RegistrationAgrees(users, uc, f);
      InsertUser(outcome.value.username, outcome.value.firstName, outcome.value.email);
      resp := RedirectIndex;
    }

    /** `password_reset`: for a valid form, one mail per user with the
        stripped address, each carrying the user's id, then the done page.
        The form is valid when the stripped address is given, holds no NUL
        and fits `EmailField`'s 254 characters (its format is not checked here). */
    method PasswordReset(verb: HttpMethod, email: string) returns (resp: Response, mails: seq<ResetMail>)
      ensures resp == if verb.POST? && Filled(email) && |Strip(email)| <= MaxEmailLength
                      then RedirectResetDone else ResetFormPage
      ensures !resp.RedirectResetDone? ==> mails == []
      ensures resp.RedirectResetDone? ==> |mails| == Count(users, HasEmail(Strip(email)))
      ensures forall m :: m in mails ==>
                m.to == Strip(email) && exists u :: u in users && u.id == m.uid && u.email == Strip(email)
      ensures resp.RedirectResetDone? ==>
                forall u :: u in users && u.email == Strip(email) ==> ResetMail(u.id, Strip(email)) in mails
    {
      var cleaned := ResetAddress(email);
      if verb.GET? || cleaned.None? { return ResetFormPage, []; }
      mails := MailUsers(cleaned.value);
      resp := RedirectResetDone;
    }

    /** The loop over `User.objects.filter(email=email)`: one mail to
        `address` for each user with that address, in table order. */
    method MailUsers(address: string) returns (mails: seq<ResetMail>)
      ensures |mails| == Count(users, HasEmail(address))
      ensures forall m :: m in mails ==>
                m.to == address && exists u :: u in users && u.id == m.uid && u.email == address
      ensures forall u :: u in users && u.email == address ==> ResetMail(u.id, address) in mails
    {
      mails := [];
      var matching := Filter(users, HasEmail(address));
      var i := 0;
      while i < |matching|
        invariant 0 <= i <= |matching|
        invariant |mails| == i
        invariant forall k :: 0 <= k < i ==> mails[k] == ResetMail(matching[k].id, address)
      {
        mails := mails + [ResetMail(matching[i].id, address)];
        i := i + 1;
      }
      forall m | m in mails ensures m.to == address && exists u :: u in users && u.id == m.uid && u.email == address {
        var k :| 0 <= k < |mails| && mails[k] == m;
        assert matching[k] in matching;
      }
      forall u | u in users && u.email == address ensures ResetMail(u.id, address) in mails {
        assert u in matching;
        var k :| 0 <= k < |matching| && matching[k] == u;
        assert mails[k] == ResetMail(u.id, address);
      }
    }
  }
}
