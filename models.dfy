/** The records of blog/models.py, the database they live in, and what the
    database does to dependent rows when a row is deleted (`on_delete`). */
module Models {
  import opened Tables

  /** Times are instants on an integer clock. */
  type Time = int

  /** `max_length` of every title and name column. */
  const MaxTitleLength: nat := 256

  /** `BaseAbstractModel.is_published` defaults to true. */
  const DefaultIsPublished: bool := true

  /** The framework's user record, reduced to the fields the blog reads. */
  datatype User = User(id: nat, username: string, firstName: string, lastName: string,
                       email: string, isStaff: bool)

  datatype Category = Category(id: nat, title: string, description: string, slug: string,
                               isPublished: bool, createdAt: Time)

  datatype Location = Location(id: nat, name: string, isPublished: bool, createdAt: Time)

  /** `author` is the id of a user; `location` and `category` are nullable references. */
  datatype Post = Post(id: nat, title: string, text: string, pubDate: Time, author: nat,
                       location: Option<nat>, category: Option<nat>,
                       isPublished: bool, createdAt: Time)

  datatype Comment = Comment(id: nat, post: nat, author: nat, text: string, createdAt: Time)

  /** The database: one table per record type, in primary-key order, and the
      counter that hands out primary keys. */
  datatype Db = Db(users: seq<User>, posts: seq<Post>, categories: seq<Category>,
                   locations: seq<Location>, comments: seq<Comment>, nextId: nat)

  function UserKey(u: User): nat { u.id }
  function UserName(u: User): string { u.username }
  function PostKey(p: Post): nat { p.id }
  function CategoryKey(c: Category): nat { c.id }
  function CategorySlug(c: Category): string { c.slug }
  function LocationKey(l: Location): nat { l.id }
  function CommentKey(c: Comment): nat { c.id }

  function UserIds(db: Db): set<nat> { Keys(db.users, UserKey) }
  function PostIds(db: Db): set<nat> { Keys(db.posts, PostKey) }
  function CategoryIds(db: Db): set<nat> { Keys(db.categories, CategoryKey) }
  function LocationIds(db: Db): set<nat> { Keys(db.locations, LocationKey) }

  /** A nullable reference that is either null or names a row. */
  predicate RefersTo(r: Option<nat>, ids: set<nat>)
  {
    r.Some? ==> r.value in ids
  }

  /** Primary keys are unique and below the counter. */
  ghost predicate KeysValid(db: Db)
  {
    && UniqueKeys(db.users, UserKey)
    && UniqueKeys(db.posts, PostKey)
    && UniqueKeys(db.categories, CategoryKey)
    && UniqueKeys(db.locations, LocationKey)
    && UniqueKeys(db.comments, CommentKey)
    && (forall u :: u in db.users ==> u.id < db.nextId)
    && (forall p :: p in db.posts ==> p.id < db.nextId)
    && (forall c :: c in db.categories ==> c.id < db.nextId)
    && (forall l :: l in db.locations ==> l.id < db.nextId)
    && (forall c :: c in db.comments ==> c.id < db.nextId)
  }

  /** Every foreign key names an existing row (nullable ones may be null). */
  ghost predicate ReferencesValid(db: Db)
  {
    && (forall p :: p in db.posts ==>
          p.author in UserIds(db) && RefersTo(p.category, CategoryIds(db))
          && RefersTo(p.location, LocationIds(db)))
    && (forall c :: c in db.comments ==> c.post in PostIds(db) && c.author in UserIds(db))
  }

  /** The column constraints: unique usernames and slugs, bounded titles and names. */
  ghost predicate ColumnsValid(db: Db)
  {
    && UniqueKeys(db.users, UserName)
    && UniqueKeys(db.categories, CategorySlug)
    && (forall p :: p in db.posts ==> |p.title| <= MaxTitleLength)
    && (forall c :: c in db.categories ==> |c.title| <= MaxTitleLength)
    && (forall l :: l in db.locations ==> |l.name| <= MaxTitleLength)
  }

  /** The constraints on one post row. */
  ghost predicate PostRowValid(db: Db, p: Post)
  {
    p.id < db.nextId && p.author in UserIds(db) && RefersTo(p.category, CategoryIds(db))
    && RefersTo(p.location, LocationIds(db)) && |p.title| <= MaxTitleLength
  }

  ghost predicate Valid(db: Db)
  {
    KeysValid(db) && ReferencesValid(db) && ColumnsValid(db)
  }

  /** The empty database. */
  function Empty(): (db: Db)
    ensures Valid(db)
  {
    Db([], [], [], [], [], 0)
  }

  // ---------------------------------------------------------------------
  // Lookups (`objects.get(...)`)

  function HasId(id: nat): Post -> bool { (p: Post) => p.id == id }
  function CategoryHasId(id: nat): Category -> bool { (c: Category) => c.id == id }
  function CommentHasId(id: nat): Comment -> bool { (c: Comment) => c.id == id }
  function UserHasId(id: nat): User -> bool { (u: User) => u.id == id }

  function FindPost(db: Db, id: nat): (r: Option<Post>)
    ensures r.Some? ==> r.value in db.posts && r.value.id == id
    ensures r.None? <==> id !in PostIds(db)
  {
    Find(db.posts, HasId(id))
  }

  function FindCategory(db: Db, id: nat): (r: Option<Category>)
    ensures r.Some? ==> r.value in db.categories && r.value.id == id
    ensures r.None? <==> id !in CategoryIds(db)
  {
    Find(db.categories, CategoryHasId(id))
  }

  function FindComment(db: Db, id: nat): (r: Option<Comment>)
    ensures r.Some? ==> r.value in db.comments && r.value.id == id
    ensures r.None? <==> forall c :: c in db.comments ==> c.id != id
  {
    Find(db.comments, CommentHasId(id))
  }

  function FindUser(db: Db, id: nat): (r: Option<User>)
    ensures r.Some? ==> r.value in db.users && r.value.id == id
    ensures r.None? <==> id !in UserIds(db)
  {
    Find(db.users, UserHasId(id))
  }

  // ---------------------------------------------------------------------
  // Rows created with their defaults

  /** A category as `objects.create` makes it: published unless told otherwise. */
  function NewCategory(db: Db, title: string, description: string, slug: string, now: Time): (c: Category)
    ensures c.isPublished == DefaultIsPublished && c.slug == slug && c.createdAt == now
  {
    Category(db.nextId, title, description, slug, DefaultIsPublished, now)
  }

  /** A location as `objects.create` makes it. */
  function NewLocation(db: Db, name: string, now: Time): (l: Location)
    ensures l.isPublished == DefaultIsPublished && l.name == name && l.createdAt == now
  {
    Location(db.nextId, name, DefaultIsPublished, now)
  }

  /** Creating a category, refused exactly when the row would break a
      declaration of the model: a slug that is taken (the unique index raises
      an integrity error) or a title longer than its 256-character
      `max_length`. Otherwise the row is stored published. */
  function CreateCategory(db: Db, title: string, description: string, slug: string, now: Time): (r: Option<Db>)
    requires Valid(db)
    ensures r.Some? <==> |title| <= MaxTitleLength && slug !in Keys(db.categories, CategorySlug)
    ensures r.Some? ==> Valid(r.value)
    ensures r.Some? ==> r.value.categories == db.categories + [NewCategory(db, title, description, slug, now)]
    ensures r.Some? ==> r.value.posts == db.posts && r.value.comments == db.comments
                        && r.value.users == db.users && r.value.locations == db.locations
  {
    if |title| <= MaxTitleLength && slug !in Keys(db.categories, CategorySlug) then
      var c := NewCategory(db, title, description, slug, now);
      AppendUniqueKeys(db.categories, c, CategoryKey);
      AppendUniqueKeys(db.categories, c, CategorySlug);
      var r := db.(categories := db.categories + [c], nextId := db.nextId + 1);
      assert CategoryIds(r) == CategoryIds(db) + {c.id};
      Some(r)
    else None
  }

  /** Creating a location, refused exactly when the name is longer than its
      256-character `max_length`. */
  function CreateLocation(db: Db, name: string, now: Time): (r: Option<Db>)
    requires Valid(db)
    ensures r.Some? <==> |name| <= MaxTitleLength
    ensures r.Some? ==> Valid(r.value)
    ensures r.Some? ==> r.value.locations == db.locations + [NewLocation(db, name, now)]
    ensures r.Some? ==> r.value.posts == db.posts && r.value.comments == db.comments
                        && r.value.users == db.users && r.value.categories == db.categories
  {
    if |name| <= MaxTitleLength then
      var l := NewLocation(db, name, now);
      AppendUniqueKeys(db.locations, l, LocationKey);
      var r := db.(locations := db.locations + [l], nextId := db.nextId + 1);
      assert LocationIds(r) == LocationIds(db) + {l.id};
      Some(r)
    else None
  }

  // ---------------------------------------------------------------------
  // Saving rows (`save()`): a new row takes the next key, an existing row
  // is overwritten in place.

  /** The user that registration creates: no last name, not staff. */
  function SaveNewUser(db: Db, username: string, firstName: string, email: string): (r: Db)
    requires Valid(db) && forall u :: u in db.users ==> u.username != username
    ensures Valid(r)
    ensures r.users == db.users + [User(db.nextId, username, firstName, "", email, false)]
    ensures r.posts == db.posts && r.categories == db.categories && r.locations == db.locations
            && r.comments == db.comments && r.nextId == db.nextId + 1
  {
    var u := User(db.nextId, username, firstName, "", email, false);
    var r := db.(users := db.users + [u], nextId := db.nextId + 1);
    assert KeysValid(r) by { AppendUniqueKeys(db.users, u, UserKey); }
    assert ColumnsValid(r) by {
      assert username !in Keys(db.users, UserName);
      AppendUniqueKeys(db.users, u, UserName);
    }
    assert ReferencesValid(r) by { KeysAppend(db.users, u, UserKey); }
    r
  }

  /** A new post under the next key. */
  function SaveNewPost(db: Db, title: string, text: string, pubDate: Time, author: nat,
                       location: Option<nat>, category: Option<nat>, isPublished: bool, now: Time): (r: Db)
    requires Valid(db) && |title| <= MaxTitleLength && author in UserIds(db)
    requires RefersTo(category, CategoryIds(db)) && RefersTo(location, LocationIds(db))
    ensures Valid(r)
    ensures r.posts == db.posts + [Post(db.nextId, title, text, pubDate, author, location, category, isPublished, now)]
    ensures r.users == db.users && r.categories == db.categories && r.locations == db.locations
            && r.comments == db.comments && r.nextId == db.nextId + 1
  {
    var p := Post(db.nextId, title, text, pubDate, author, location, category, isPublished, now);
    AppendUniqueKeys(db.posts, p, PostKey);
    KeysAppend(db.posts, p, PostKey);
    db.(posts := db.posts + [p], nextId := db.nextId + 1)
  }

  /** A new comment under the next key. */
  function SaveNewComment(db: Db, post: nat, author: nat, text: string, now: Time): (r: Db)
    requires Valid(db) && post in PostIds(db) && author in UserIds(db)
    ensures Valid(r)
    ensures r.comments == db.comments + [Comment(db.nextId, post, author, text, now)]
    ensures r.users == db.users && r.posts == db.posts && r.categories == db.categories
            && r.locations == db.locations && r.nextId == db.nextId + 1
  {
    var c := Comment(db.nextId, post, author, text, now);
    AppendUniqueKeys(db.comments, c, CommentKey);
    db.(comments := db.comments + [c], nextId := db.nextId + 1)
  }

  function ReplacePost(p: Post): Post -> Post { (q: Post) => if q.id == p.id then p else q }
  function ReplaceComment(c: Comment): Comment -> Comment { (d: Comment) => if d.id == c.id then c else d }
  function ReplaceUser(u: User): User -> User { (v: User) => if v.id == u.id then u else v }

  /** A database whose post table is rewritten keeps its invariant when the
      new table has the same keys, each once, and every row is valid. */
  lemma PostsRewritten(db: Db, ps: seq<Post>)
    requires Valid(db)
    requires UniqueKeys(ps, PostKey) && Keys(ps, PostKey) == PostIds(db)
    requires forall q :: q in ps ==> PostRowValid(db, q)
    ensures Valid(db.(posts := ps))
  {
  }

  lemma SavePostValid(db: Db, p: Post)
    requires Valid(db) && p.id in PostIds(db) && p.author in UserIds(db) && |p.title| <= MaxTitleLength
    requires RefersTo(p.category, CategoryIds(db)) && RefersTo(p.location, LocationIds(db))
    ensures Valid(db.(posts := MapRows(db.posts, ReplacePost(p))))
  {
    var ps := MapRows(db.posts, ReplacePost(p));
    MapRowsUniqueKeys(db.posts, ReplacePost(p), PostKey);
    MapRowsKeys(db.posts, ReplacePost(p), PostKey);
    assert p.id < db.nextId by {
      var q :| q in db.posts && q.id == p.id;
    }
    forall q | q in ps ensures PostRowValid(db, q) {
      var i :| 0 <= i < |ps| && ps[i] == q;
      assert db.posts[i] in db.posts;
    }
    PostsRewritten(db, ps);
  }

  /** `post.save()` of a stored post: its row, and only its row, becomes `p`. */
  function SavePost(db: Db, p: Post): (r: Db)
    requires Valid(db) && p.id in PostIds(db) && p.author in UserIds(db) && |p.title| <= MaxTitleLength
    requires RefersTo(p.category, CategoryIds(db)) && RefersTo(p.location, LocationIds(db))
    ensures Valid(r)
    ensures |r.posts| == |db.posts|
    ensures forall i :: 0 <= i < |db.posts| ==>
              r.posts[i] == if db.posts[i].id == p.id then p else db.posts[i]
    ensures r.users == db.users && r.categories == db.categories && r.locations == db.locations
            && r.comments == db.comments && r.nextId == db.nextId
  {
    SavePostValid(db, p);
    db.(posts := MapRows(db.posts, ReplacePost(p)))
  }

  /** A database whose comment table is rewritten keeps its invariant when
      the new comments have unique keys below the counter and name stored
      posts and users. */
  lemma CommentsRewritten(db: Db, cs: seq<Comment>)
    requires Valid(db) && UniqueKeys(cs, CommentKey)
    requires forall d :: d in cs ==> d.post in PostIds(db) && d.author in UserIds(db) && d.id < db.nextId
    ensures Valid(db.(comments := cs))
  {
  }

  lemma SaveCommentValid(db: Db, c: Comment)
    requires Valid(db) && c.post in PostIds(db) && c.author in UserIds(db)
    requires exists d :: d in db.comments && d.id == c.id
    ensures Valid(db.(comments := MapRows(db.comments, ReplaceComment(c))))
  {
    var cs := MapRows(db.comments, ReplaceComment(c));
    MapRowsUniqueKeys(db.comments, ReplaceComment(c), CommentKey);
    forall d | d in cs ensures d.post in PostIds(db) && d.author in UserIds(db) && d.id < db.nextId {
      var i :| 0 <= i < |cs| && cs[i] == d;
      assert db.comments[i] in db.comments;
    }
    CommentsRewritten(db, cs);
  }

  /** `comment.save()` of a stored comment: its row, and only its row, becomes `c`. */
  function SaveComment(db: Db, c: Comment): (r: Db)
    requires Valid(db) && c.post in PostIds(db) && c.author in UserIds(db)
    requires exists d :: d in db.comments && d.id == c.id
    ensures Valid(r)
    ensures |r.comments| == |db.comments|
    ensures forall i :: 0 <= i < |db.comments| ==>
              r.comments[i] == if db.comments[i].id == c.id then c else db.comments[i]
    ensures r.users == db.users && r.posts == db.posts && r.categories == db.categories
            && r.locations == db.locations && r.nextId == db.nextId
  {
    SaveCommentValid(db, c);
    db.(comments := MapRows(db.comments, ReplaceComment(c)))
  }

  /** A database whose user table is rewritten keeps its invariant when the
      new table has the same keys, each once, and unique usernames. */
  lemma UsersRewritten(db: Db, us: seq<User>)
    requires Valid(db)
    requires UniqueKeys(us, UserKey) && UniqueKeys(us, UserName) && Keys(us, UserKey) == UserIds(db)
    ensures Valid(db.(users := us))
  {
    forall v | v in us ensures v.id < db.nextId {
      assert v.id in UserIds(db);
      var w :| w in db.users && w.id == v.id;
    }
  }

  lemma SaveUserValid(db: Db, u: User)
    requires Valid(db) && u.id in UserIds(db)
    requires forall v :: v in db.users && v.id != u.id ==> v.username != u.username
    ensures Valid(db.(users := MapRows(db.users, ReplaceUser(u))))
  {
    var us := MapRows(db.users, ReplaceUser(u));
    MapRowsUniqueKeys(db.users, ReplaceUser(u), UserKey);
    MapRowsKeys(db.users, ReplaceUser(u), UserKey);
    SaveUserNames(db, u);
    UsersRewritten(db, us);
  }

  /** `user.save()` of a stored user, whose username no other user has. */
  function SaveUser(db: Db, u: User): (r: Db)
    requires Valid(db) && u.id in UserIds(db)
    requires forall v :: v in db.users && v.id != u.id ==> v.username != u.username
    ensures Valid(r)
    ensures |r.users| == |db.users|
    ensures forall i :: 0 <= i < |db.users| ==>
              r.users[i] == if db.users[i].id == u.id then u else db.users[i]
    ensures r.posts == db.posts && r.categories == db.categories && r.locations == db.locations
            && r.comments == db.comments && r.nextId == db.nextId
  {
    SaveUserValid(db, u);
    db.(users := MapRows(db.users, ReplaceUser(u)))
  }

  lemma SaveUserNames(db: Db, u: User)
    requires Valid(db) && u.id in UserIds(db)
    requires forall v :: v in db.users && v.id != u.id ==> v.username != u.username
    ensures UniqueKeys(MapRows(db.users, ReplaceUser(u)), UserName)
  {
    var s := db.users;
    var r := MapRows(s, ReplaceUser(u));
    forall i, j | 0 <= i < j < |r| ensures UserName(r[i]) != UserName(r[j]) {
      assert s[i] in s && s[j] in s;
      assert UserKey(s[i]) != UserKey(s[j]);
      assert UserName(s[i]) != UserName(s[j]);
    }
  }

  // ---------------------------------------------------------------------
  // Comment count

  function OnPost(id: nat): Comment -> bool { (c: Comment) => c.post == id }

  /** `Post.comment_count`: the number of stored comments attached to the post. */
  function CommentCount(db: Db, id: nat): (n: nat)
    ensures n <= |db.comments|
    ensures n == 0 <==> forall c :: c in db.comments ==> c.post != id
  {
    Count(db.comments, OnPost(id))
  }

  /** Storing a comment raises the count of its own post by one and of no other. */
  lemma CommentCountAfterAdd(db: Db, c: Comment, id: nat)
    ensures CommentCount(db.(comments := db.comments + [c]), id)
            == CommentCount(db, id) + (if c.post == id then 1 else 0)
  {
    FilterConcat(db.comments, [c], OnPost(id));
  }

  // ---------------------------------------------------------------------
  // Deletion and its consequences on dependent rows

  function NotPost(id: nat): Post -> bool { (p: Post) => p.id != id }
  function NotOnPost(id: nat): Comment -> bool { (c: Comment) => c.post != id }
  function NotComment(id: nat): Comment -> bool { (c: Comment) => c.id != id }

  /** `post.delete()`: the post goes, and with it (CASCADE on `Comment.post`)
      exactly the comments attached to it. */
  function DeletePost(db: Db, id: nat): (r: Db)
    requires Valid(db)
    ensures Valid(r)
    ensures forall p :: p in r.posts <==> p in db.posts && p.id != id
    ensures forall c :: c in r.comments <==> c in db.comments && c.post != id
    ensures r.users == db.users && r.categories == db.categories
            && r.locations == db.locations && r.nextId == db.nextId
  {
    var r := db.(posts := Filter(db.posts, NotPost(id)),
                 comments := Filter(db.comments, NotOnPost(id)));
    FilterUniqueKeys(db.posts, NotPost(id), PostKey);
    FilterUniqueKeys(db.comments, NotOnPost(id), CommentKey);
    assert forall c :: c in r.comments ==> c.post in PostIds(r) by {
      forall c | c in r.comments ensures c.post in PostIds(r) {
        var p :| p in db.posts && p.id == c.post;
        assert p in r.posts;
      }
    }
    r
  }

  /** `comment.delete()`: that comment and nothing else. */
  function DeleteComment(db: Db, id: nat): (r: Db)
    requires Valid(db)
    ensures Valid(r)
    ensures forall c :: c in r.comments <==> c in db.comments && c.id != id
    ensures r.users == db.users && r.posts == db.posts && r.categories == db.categories
            && r.locations == db.locations && r.nextId == db.nextId
  {
    FilterUniqueKeys(db.comments, NotComment(id), CommentKey);
    db.(comments := Filter(db.comments, NotComment(id)))
  }

  function PostsBy(db: Db, uid: nat): set<nat>
  {
    set p | p in db.posts && p.author == uid :: p.id
  }

  function NotUser(uid: nat): User -> bool { (u: User) => u.id != uid }
  function NotBy(uid: nat): Post -> bool { (p: Post) => p.author != uid }
  function Survives(uid: nat, gone: set<nat>): Comment -> bool
  {
    (c: Comment) => c.author != uid && c.post !in gone
  }

  function DeleteUserRows(db: Db, uid: nat): Db
  {
    db.(users := Filter(db.users, NotUser(uid)),
        posts := Filter(db.posts, NotBy(uid)),
        comments := Filter(db.comments, Survives(uid, PostsBy(db, uid))))
  }

  lemma DeleteUserRowsValid(db: Db, uid: nat)
    requires Valid(db)
    ensures Valid(DeleteUserRows(db, uid))
  {
    var r := DeleteUserRows(db, uid);
    var gone := PostsBy(db, uid);
    FilterUniqueKeys(db.users, NotUser(uid), UserKey);
    FilterUniqueKeys(db.users, NotUser(uid), UserName);
    FilterUniqueKeys(db.posts, NotBy(uid), PostKey);
    FilterUniqueKeys(db.comments, Survives(uid, gone), CommentKey);
    forall p | p in r.posts ensures p.author in UserIds(r) {
      var u :| u in db.users && u.id == p.author;
      assert u in r.users;
    }
    forall c | c in r.comments ensures c.post in PostIds(r) && c.author in UserIds(r) {
      var p :| p in db.posts && p.id == c.post;
      assert p in r.posts;
      var u :| u in db.users && u.id == c.author;
      assert u in r.users;
    }
  }

  /** `user.delete()`: CASCADE on `Post.author` removes the user's posts,
      CASCADE on `Comment.author` the user's comments, and CASCADE on
      `Comment.post` every comment on the removed posts. */
  function DeleteUser(db: Db, uid: nat): (r: Db)
    requires Valid(db)
    ensures Valid(r)
    ensures forall u :: u in r.users <==> u in db.users && u.id != uid
    ensures forall p :: p in r.posts <==> p in db.posts && p.author != uid
    ensures forall c :: c in r.comments <==>
              c in db.comments && c.author != uid
              && forall p :: p in db.posts && p.id == c.post ==> p.author != uid
    ensures r.categories == db.categories && r.locations == db.locations && r.nextId == db.nextId
  {
    var r := DeleteUserRows(db, uid);
    DeleteUserRowsValid(db, uid);
    forall c ensures c in r.comments <==>
               c in db.comments && c.author != uid
               && forall p :: p in db.posts && p.id == c.post ==> p.author != uid {
      if c in db.comments && c.post in PostsBy(db, uid) {
        var p :| p in db.posts && p.author == uid && p.id == c.post;
      }
    }
    r
  }

  function NullCategory(id: nat): Post -> Post
  {
    (p: Post) => if p.category == Some(id) then p.(category := None) else p
  }

  function NullLocation(id: nat): Post -> Post
  {
    (p: Post) => if p.location == Some(id) then p.(location := None) else p
  }

  function NotCategory(id: nat): Category -> bool { (c: Category) => c.id != id }
  function NotLocation(id: nat): Location -> bool { (l: Location) => l.id != id }

  function DeleteCategoryRows(db: Db, id: nat): Db
  {
    db.(categories := Filter(db.categories, NotCategory(id)),
        posts := MapRows(db.posts, NullCategory(id)))
  }

  /** A database whose category and post tables are rewritten keeps its
      invariant when the new categories are stored ones with unique keys and
      slugs, and the new posts keep the post keys and are valid rows against
      the new categories. */
  lemma CategoriesAndPostsRewritten(db: Db, cs: seq<Category>, ps: seq<Post>)
    requires Valid(db)
    requires UniqueKeys(cs, CategoryKey) && UniqueKeys(cs, CategorySlug)
    requires forall c :: c in cs ==> c in db.categories
    requires UniqueKeys(ps, PostKey) && Keys(ps, PostKey) == PostIds(db)
    requires forall q :: q in ps ==> PostRowValid(db.(categories := cs), q)
    ensures Valid(db.(categories := cs, posts := ps))
  {
  }

  /** After SET_NULL every post names only a remaining category. */
  lemma NullCategoryRowsValid(db: Db, id: nat)
    requires Valid(db)
    ensures forall q :: q in MapRows(db.posts, NullCategory(id)) ==>
              PostRowValid(db.(categories := Filter(db.categories, NotCategory(id))), q)
  {
    var cs := Filter(db.categories, NotCategory(id));
    var ps := MapRows(db.posts, NullCategory(id));
    forall q | q in ps ensures PostRowValid(db.(categories := cs), q) {
      var i :| 0 <= i < |ps| && ps[i] == q;
      assert db.posts[i] in db.posts;
      if q.category.Some? {
        var c :| c in db.categories && c.id == q.category.value;
        assert c in cs;
      }
    }
  }

  lemma DeleteCategoryRowsValid(db: Db, id: nat)
    requires Valid(db)
    ensures Valid(DeleteCategoryRows(db, id))
  {
    var cs := Filter(db.categories, NotCategory(id));
    var ps := MapRows(db.posts, NullCategory(id));
    FilterUniqueKeys(db.categories, NotCategory(id), CategoryKey);
    FilterUniqueKeys(db.categories, NotCategory(id), CategorySlug);
    MapRowsUniqueKeys(db.posts, NullCategory(id), PostKey);
    MapRowsKeys(db.posts, NullCategory(id), PostKey);
    NullCategoryRowsValid(db, id);
    CategoriesAndPostsRewritten(db, cs, ps);
  }

  /** `category.delete()`: SET_NULL on `Post.category` keeps every post and
      clears the reference on those that named the category. */
  function DeleteCategory(db: Db, id: nat): (r: Db)
    requires Valid(db)
    ensures Valid(r)
    ensures forall c :: c in r.categories <==> c in db.categories && c.id != id
    ensures |r.posts| == |db.posts|
    ensures forall i :: 0 <= i < |db.posts| ==>
              r.posts[i].(category := db.posts[i].category) == db.posts[i]
              && r.posts[i].category == (if db.posts[i].category == Some(id) then None
                                         else db.posts[i].category)
    ensures r.users == db.users && r.locations == db.locations
            && r.comments == db.comments && r.nextId == db.nextId
  {
    DeleteCategoryRowsValid(db, id);
    DeleteCategoryRows(db, id)
  }

  function DeleteLocationRows(db: Db, id: nat): Db
  {
    db.(locations := Filter(db.locations, NotLocation(id)),
        posts := MapRows(db.posts, NullLocation(id)))
  }

  /** As for categories: new locations are stored ones with unique keys, and
      the new posts keep the post keys and are valid against them. */
  lemma LocationsAndPostsRewritten(db: Db, ls: seq<Location>, ps: seq<Post>)
    requires Valid(db)
    requires UniqueKeys(ls, LocationKey)
    requires forall l :: l in ls ==> l in db.locations
    requires UniqueKeys(ps, PostKey) && Keys(ps, PostKey) == PostIds(db)
    requires forall q :: q in ps ==> PostRowValid(db.(locations := ls), q)
    ensures Valid(db.(locations := ls, posts := ps))
  {
  }

  /** After SET_NULL every post names only a remaining location. */
  lemma NullLocationRowsValid(db: Db, id: nat)
    requires Valid(db)
    ensures forall q :: q in MapRows(db.posts, NullLocation(id)) ==>
              PostRowValid(db.(locations := Filter(db.locations, NotLocation(id))), q)
  {
    var ls := Filter(db.locations, NotLocation(id));
    var ps := MapRows(db.posts, NullLocation(id));
    forall q | q in ps ensures PostRowValid(db.(locations := ls), q) {
      var i :| 0 <= i < |ps| && ps[i] == q;
      assert db.posts[i] in db.posts;
      if q.location.Some? {
        var l :| l in db.locations && l.id == q.location.value;
        assert l in ls;
      }
    }
  }

  lemma DeleteLocationRowsValid(db: Db, id: nat)
    requires Valid(db)
    ensures Valid(DeleteLocationRows(db, id))
  {
    var ls := Filter(db.locations, NotLocation(id));
    var ps := MapRows(db.posts, NullLocation(id));
    FilterUniqueKeys(db.locations, NotLocation(id), LocationKey);
    MapRowsUniqueKeys(db.posts, NullLocation(id), PostKey);
    MapRowsKeys(db.posts, NullLocation(id), PostKey);
    NullLocationRowsValid(db, id);
    LocationsAndPostsRewritten(db, ls, ps);
  }

  /** `location.delete()`: SET_NULL on `Post.location`, as for categories. */
  function DeleteLocation(db: Db, id: nat): (r: Db)
    requires Valid(db)
    ensures Valid(r)
    ensures forall l :: l in r.locations <==> l in db.locations && l.id != id
    ensures |r.posts| == |db.posts|
    ensures forall i :: 0 <= i < |db.posts| ==>
              r.posts[i].(location := db.posts[i].location) == db.posts[i]
              && r.posts[i].location == (if db.posts[i].location == Some(id) then None
                                         else db.posts[i].location)
    ensures r.users == db.users && r.categories == db.categories
            && r.comments == db.comments && r.nextId == db.nextId
  {
    DeleteLocationRowsValid(db, id);
    DeleteLocationRows(db, id)
  }

  /** After a post is deleted no comment counts towards it. */
  lemma DeletePostClearsCount(db: Db, id: nat)
    requires Valid(db)
    ensures CommentCount(DeletePost(db, id), id) == 0
  {
  }

  /** Deleting a post leaves the comment count of every other post as it was. */
  lemma DeletePostKeepsOtherCounts(db: Db, id: nat, other: nat)
    requires Valid(db) && other != id
    ensures CommentCount(DeletePost(db, id), other) == CommentCount(db, other)
  {
    FilterTwice(db.comments, NotOnPost(id), OnPost(other));
  }

  /** Filtering away comments of one post, then selecting those of another,
      selects them from the whole table. */
  lemma {:induction false} FilterTwice(s: seq<Comment>, drop: Comment -> bool, keep: Comment -> bool)
    requires forall c :: keep(c) ==> drop(c)
    ensures Filter(Filter(s, drop), keep) == Filter(s, keep)
    decreases |s|
  {
    if s != [] {
      FilterTwice(s[1..], drop, keep);
    }
  }
}
