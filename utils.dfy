/** blog/utils.py: the set of publicly listed posts and the pagination helper
    every listing goes through. */
module Utils {
  import opened Tables
  import opened Models
  import Paginator

  /** `paginate_queryset`'s default page size. */
  const DefaultPerPage: nat := 10

  /** The three conditions of `get_published_posts`: the post's own flag, a
      publication time not after `now`, and a published category. The last is
      a join, so a post without a category never qualifies. */
  predicate IsListed(db: Db, p: Post, now: Time)
  {
    && p.isPublished
    && p.pubDate <= now
    && match p.category
       case None => false
       case Some(id) =>
         match FindCategory(db, id)
         case None => false
         case Some(c) => c.isPublished
  }

  function Listed(db: Db, now: Time): Post -> bool
  {
    (p: Post) => IsListed(db, p, now)
  }

  /** `get_published_posts()` evaluated at time `now`. */
  function PublishedPosts(db: Db, now: Time): (r: seq<Post>)
    ensures forall p :: p in r <==> p in db.posts && IsListed(db, p, now)
    ensures |r| <= |db.posts|
  {
    Filter(db.posts, Listed(db, now))
  }

  /** A post is listed iff its flag is set, it is due, and its category exists
      and is published. */
  lemma PublishedIff(db: Db, p: Post, now: Time)
    requires Valid(db) && p in db.posts
    ensures p in PublishedPosts(db, now) <==>
              p.isPublished && p.pubDate <= now && p.category.Some?
              && exists c :: c in db.categories && c.id == p.category.value && c.isPublished
  {
    if p.category.Some? {
      var r := FindCategory(db, p.category.value);
      if r.Some? && !r.value.isPublished {
        forall c | c in db.categories && c.id == p.category.value ensures !c.isPublished {
          UniqueKeysFind(db.categories, CategoryKey, c, r.value);
        }
      }
    }
  }

  /** A post whose category is null is never listed. */
  lemma NoCategoryNeverListed(db: Db, p: Post, now: Time)
    requires p.category.None?
    ensures p !in PublishedPosts(db, now)
  {
  }

  /** The listing keeps the table order of the stored posts: its posts are
      picked out of the table at increasing positions, and every listed post
      is among them. */
  lemma PublishedInTableOrder(db: Db, now: Time) returns (idx: seq<nat>)
    ensures PicksInOrder(idx, PublishedPosts(db, now), db.posts)
    ensures forall j :: 0 <= j < |db.posts| && IsListed(db, db.posts[j], now) ==> j in idx
  {
    idx := FilterInOrder(db.posts, Listed(db, now));
  }

  /** `paginate_queryset(queryset, request, per_page)`: `get_page` on the
      request's `page` parameter, ten items to a page unless told otherwise. */
  function PaginateQueryset<T>(items: seq<T>, page: Option<string>, perPage: nat := DefaultPerPage): (p: Paginator.Page<T>)
    requires perPage > 0
    ensures |p.items| <= perPage
    ensures 1 <= p.number <= p.numPages == Paginator.NumPages(|items|, perPage)
    ensures p.items == Paginator.PageItems(items, p.number, perPage)
    ensures p.number == Paginator.PageNumber(page, p.numPages)
    ensures forall x :: x in p.items ==> x in items
  {
    var p := Paginator.GetPage(items, page, perPage);
    Paginator.PageItemsFromListing(items, p.number, perPage);
    p
  }
}
