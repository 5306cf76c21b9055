# blogicum: the blog's content rules in Dafny

blogicum is a Django blog. Registered users write posts. A post is filed
under a category and optionally a location, and it carries a publication
time and a published flag. Users comment on published posts and edit a
profile. Anonymous visitors read the index, the category pages, the
profiles and the post pages.

This project models what the application itself adds to the framework:
- which posts are publicly listed, and how a listing is cut into pages;
- who may see, edit or delete which post or comment;
- what the registration, profile, post and comment forms accept;
- what the database does to dependent rows when a row is deleted.

The modules follow the files:

- `Models` (`models.dfy`): the records, the database `Db` and its integrity
  invariant `Valid`. The invariant covers unique primary keys, foreign keys
  that name stored rows, unique usernames and slugs, and the 256-character
  titles and names. The module also holds the row writes (`save()`), the
  deletions with their CASCADE and SET_NULL consequences, and `comment_count`.
- `Utils` (`utils.dfy`): `get_published_posts` and `paginate_queryset`.
- `Paginator` (`paginator.dfy`): the framework paginator as the blog uses it.
  It has no orphans and allows an empty first page. `get_page` reads the
  `page` parameter with Python's `int()`, which is modelled in `PyInt`
  (`pyint.dfy`).
- `Forms` (`forms.dfy`): the four forms. Each form's input is a datatype
  holding exactly the fields the form lists. Every text field strips the
  submitted text, as a form `CharField` does; Python's `str.strip()` and
  `str.isspace()` are modelled in `PyStr` (`pystr.dfy`).
- `Views` (`views.dfy`): every view as a pure step from a database and a
  request to a new database and a response. Alongside them, a `Store` class
  holds one field per table. Its methods perform the writing views step by
  step and are proved to end in the state and response that the pure step
  gives. `password_reset` is a `Store` method. Its loop collects one mail
  per user with the address.
- `Tables` (`tables.dfy`): the generic helpers for tables of rows: filter,
  count, get, update and a stable `order_by`.

The clock (`now()`), the token generator, the signed-in user and the
Unicode tables behind NFKC and `str.lower` are parameters. A view that writes to the database, and the detail view,
require the database invariant, which the database engine keeps; the
listing views and the reset link's lookup need nothing of the database. A
view that stores the signed-in user's id also requires that user to be
stored, because the session middleware loads it from the database.

Some behaviours of the code are easy to get wrong, and the model follows
the code in each:
- A page number below 1 gives the last page, as it does for a number past
  the end. It does not give page 1.
- The detail view checks only the published flag, with an exception for the
  author. It does not check the publication time or the category.
- An email address is unique only at registration. The profile form accepts
  an address that another user already has.
- Form fields are compared and stored stripped: a username, an email or a
  password with surrounding spaces is the same as one without.
- The framework's user model normalises two fields before the username's
  uniqueness is checked and before the user is saved: the username to
  Unicode NFKC, and the email's domain to lower case. `clean_email` looks
  for the address as it was submitted, so `ann@EXAMPLE.ORG` registers
  beside a stored `ann@example.org` and is saved as a second
  `ann@example.org`.
- `int()` skips less whitespace than `str.strip()`: the separators `\x1c`
  to `\x1f` make a page number or a user id in a reset link unreadable.
- The registration view crashes with a server error on an empty first
  password and a given second one (see "## Findings").

## Model

| member | source | states |
|---|---|---|
| Tables.Filter | blogicum/blog/utils.py:7-11 | a query set's `filter()` keeps exactly the rows that satisfy the condition, each of them satisfying it, and never more rows than the table has |
| Tables.Count | blogicum/blog/models.py:58-60 | `count()` is at most the table size, and it is zero exactly when no row satisfies the condition |
| Tables.Find | blogicum/blog/views.py:46-49 | `get()` either returns a stored row that matches, or finds nothing exactly when no stored row matches |
| Tables.SortBy | blogicum/blog/views.py:27 | `order_by` returns the rows sorted by the key, as a permutation of the input |
| Tables.SortByStable | blogicum/blog/views.py:27 | `order_by` is stable here: for every key value, the rows with that key appear in the result exactly as, and in the order, they appear in the table |
| Tables.TiesKeepTableOrder | blogicum/blog/views.py:27 | two rows with equal keys, such as two posts with the same `pub_date`, come out in table order |
| Models.FindPost | blogicum/blog/views.py:46-49 | the post found by id is stored and has that id; there is none exactly when no stored post has the id |
| Models.FindCategory | blogicum/blog/utils.py:10 | the category a post's reference names, or none exactly when no stored category has that id |
| Models.FindComment | blogicum/blog/views.py:134 | the comment found by id is stored and has that id; there is none exactly when no stored comment has it |
| Models.FindUser | blogicum/blog/views.py:237 | the user found by primary key is stored and has that key; there is none exactly when the key is not stored |
| Models.NewCategory | blogicum/blog/models.py:6-14 | a category created without a flag is published, and it is stamped with its creation time |
| Models.NewLocation | blogicum/blog/models.py:6-14 | a location created without a flag is published, and it is stamped with its creation time |
| Models.CreateCategory | blogicum/blog/models.py:66-76 | creation succeeds iff the title has at most 256 characters and no stored category has the slug; on success the table gains exactly the new published row, the invariant holds and the other tables stay |
| Models.CreateLocation | blogicum/blog/models.py:86-87 | creation succeeds iff the name has at most 256 characters; on success the table gains exactly the new published row and the invariant holds |
| Models.SaveNewUser | blogicum/blog/views.py:187-189 | a username no user has becomes a new user under a fresh key, with no last name and no staff flag; the invariant holds and nothing else changes |
| Models.SaveNewPost | blogicum/blog/views.py:68-71 | a post with a stored author, stored references and a title within 256 characters is appended under a fresh key; the invariant holds and the other tables stay |
| Models.SaveNewComment | blogicum/blog/views.py:115-118 | a comment on a stored post by a stored user is appended under a fresh key; the invariant holds and the other tables stay |
| Models.SavePost | blogicum/blog/views.py:87 | the row with the post's id becomes the post, every other row keeps its place and value, and the invariant holds |
| Models.SaveComment | blogicum/blog/views.py:141 | the row with the comment's id becomes the comment, every other row stays, and the invariant holds |
| Models.SaveUser | blogicum/blog/views.py:168 | the row with the user's id becomes the user, every other row stays, and unique usernames and the invariant hold |
| Models.CommentCount | blogicum/blog/models.py:58-60 | `comment_count` is at most the number of stored comments, and it is zero exactly when no stored comment is attached to the post |
| Models.CommentCountAfterAdd | blogicum/blog/models.py:58-60 | storing a comment raises the count of its own post by one and leaves every other post's count unchanged |
| Models.DeletePost | blogicum/blog/models.py:98-99 | deleting a post removes it and, by CASCADE, exactly the comments attached to it; every other row stays and the invariant holds |
| Models.DeleteComment | blogicum/blog/views.py:155 | deleting a comment removes exactly the comments with that id and nothing else |
| Models.DeleteUser | blogicum/blog/models.py:30-35 | deleting a user removes the user, their posts, their comments and the comments on their posts (the CASCADE on `Comment.author` and `Comment.post` at lines 98-101 as well); categories and locations stay and the invariant holds |
| Models.DeleteCategory | blogicum/blog/models.py:44-50 | SET_NULL: the category goes, every post stays in place, and a post that named the category has its reference cleared and all other fields unchanged |
| Models.DeleteLocation | blogicum/blog/models.py:36-43 | SET_NULL: the location goes, every post stays in place, and a post that named the location has its reference cleared and all other fields unchanged |
| Models.DeletePostClearsCount | blogicum/blog/models.py:58-60 | once a post is deleted, no comment counts towards it |
| Models.DeletePostKeepsOtherCounts | blogicum/blog/models.py:98-99 | deleting a post leaves the comment count of every other post unchanged |
| Utils.PublishedPosts | blogicum/blog/utils.py:6-11 | the published set holds exactly the stored posts that are listed at `now`, and no more posts than the table |
| Utils.PublishedIff | blogicum/blog/utils.py:7-10 | a stored post is published iff its flag is set, its time is at or before `now`, and its category exists and is published |
| Utils.NoCategoryNeverListed | blogicum/blog/utils.py:10 | a post whose category is null is never in the published set |
| Tables.FilterInOrder | blogicum/blog/utils.py:7-11 | `filter()` picks rows of the table at strictly increasing positions, so in table order, and it picks every row that satisfies the condition |
| Utils.PublishedInTableOrder | blogicum/blog/utils.py:6-11 | the published set lists the stored posts that are listed at `now`, unchanged, in table order, and every one of them |
| Utils.PaginateQueryset | blogicum/blog/utils.py:14-17 | at most `per_page` items (10 by default), all from the listing; the page number is in range and is the one `get_page` settles on; the items are that page's slice |
| Paginator.NumPages | blogicum/blog/utils.py:15 | there is at least one page; the last page starts inside the listing, and every item lies within the pages |
| Paginator.NumPagesBounds | blogicum/blog/utils.py:15 | the page count is the least `n >= 1` with `count <= n * per_page`, that is `max(1, ceil(count / per_page))` |
| Paginator.OffsetIsProduct | blogicum/blog/utils.py:17 | page `k` starts at index `(k - 1) * per_page` |
| Paginator.ValidateNumber | blogicum/blog/utils.py:16-17 | the parameter is not an integer iff it is missing or `int()` refuses it; it is accepted iff `int()` reads a number between 1 and the page count, and then that number is the page number |
| Paginator.PageNumber | blogicum/blog/utils.py:16-17 | a missing or non-integer parameter gives page 1; an integer in range gives itself; any other integer gives the last page |
| Paginator.PageItems | blogicum/blog/utils.py:17 | a page holds the items from its offset, in order; every page but the last is full; the only empty page is that of an empty listing |
| Paginator.PageBounds | blogicum/blog/utils.py:17 | a page starts inside the listing (or at 0 when it is empty); a page before the last ends inside it; the last reaches its end |
| Paginator.PageItemsSlice | blogicum/blog/utils.py:17 | page `k` is exactly the slice `[(k-1)*per_page, min(k*per_page, count))` |
| Paginator.PageItemsFromListing | blogicum/blog/utils.py:17 | every item on a page is an item of the listing |
| Paginator.GetPage | blogicum/blog/utils.py:17 | the page's number is the settled number, its count is the page count, and its items are that page's items |
| Paginator.PagesFromSuffix | blogicum/blog/utils.py:15-17 | the pages from `k` onwards, concatenated, are the listing from page `k`'s offset |
| Paginator.PagesCoverItems | blogicum/blog/utils.py:15-17 | the pages concatenated in order reproduce the listing exactly |
| Paginator.OutOfRangeGivesLastPage | blogicum/blog/utils.py:16-17 | a page number below 1 or past the end gives the last page |
| Paginator.NonNumericGivesFirstPage | blogicum/blog/utils.py:16-17 | a missing or non-integer parameter gives page 1, which has no previous page |
| Paginator.InRangeGivesThatPage | blogicum/blog/utils.py:16-17 | an integer page number within range gives exactly that page |
| Paginator.EmptyListingOnePage | blogicum/blog/utils.py:15 | an empty listing has exactly one page, and it is empty, whatever the parameter |
| Paginator.TwentyFiveItems | blogicum/blog/utils.py:14-17 | 25 items at 10 per page make three pages: the first holds 10; the last holds 5 and has a previous page but no next; page 0 gives the last page |
| PyStr.Strip | blogicum/blog/forms.py:7-14 | `strip()` is never longer than its text, is empty iff the text is all `isspace` whitespace, and otherwise neither starts nor ends with whitespace |
| PyStr.StripSpaces | blogicum/blog/forms.py:7-14 | whitespace of any length on either side does not change what a strip gives, for `str.strip()`'s whitespace and for `int()`'s |
| PyStr.StripKeeps | blogicum/blog/forms.py:7-14 | a character that is not whitespace occurs in the stripped text iff it occurs in the text |
| PyStr.StripTwice | blogicum/blog/forms.py:7-14 | stripping is idempotent |
| PyInt.ParseInt | blogicum/blog/views.py:236 | `int()` accepts only a text that contains a digit |
| PyInt.Show | blogicum/blog/views.py:207 | `str(user.pk)` is a non-empty numeral |
| PyInt.ParseShow | blogicum/blog/views.py:236 | `int(str(n)) == n` for every integer |
| PyInt.ParseIgnoresSpaces | blogicum/blog/utils.py:16-17 | whitespace `int()` skips (tab to carriage return, the space and the Unicode spaces, but not the separators `\x1c` to `\x1f`), of any length on either side of the text, does not change what `int()` reads |
| PyInt.ParseRefusesSeparator | blogicum/blog/utils.py:16-17 | `int()` reads ` 5` followed by a newline as 5, but refuses `\x1c5`, which `strip()` reduces to `5` |
| Forms.TextErrors | blogicum/blog/forms.py:7-14 | a text field's errors: required iff it is required and strips to nothing, too long iff the stripped text exceeds the limit, a NUL error iff the text holds a NUL; no errors iff none of these |
| Forms.CleanEmail | blogicum/blog/forms.py:26-30 | the address is refused with the duplicate-email error iff some user already has it; otherwise it is returned unchanged |
| Forms.CleanPassword2AsWritten | blogicum/blog/forms.py:20-24 | the hook fails with `KeyError` iff the first password is absent; it refuses iff the two differ; on success it returns `password2` |
| Forms.CleanPassword2 | blogicum/blog/forms.py:20-24 | the corrected hook never fails; it refuses iff the first password is present and differs; on success it returns `password2` |
| Forms.CleanRegistrationAsWritten | blogicum/blog/forms.py:6-30 | the form as written gives a server error iff the first password fails its field (empty, only whitespace, or with a NUL) while the second does not |
| Forms.CleanRegistration | blogicum/blog/forms.py:6-30 | registration succeeds iff the stripped username is given and, once NFKC-normalised, free; no user has the stripped email; no field holds a NUL; and the passwords are given and equal once stripped. A mismatch error appears iff both passwords are given and differ, a duplicate-email error iff a user has the stripped email, and a duplicate-username error iff the normalised username is taken. The saved value is the NFKC-normalised username, the stripped first name, the stripped email with its domain lowercased, and the password |
| Forms.NormalizedAddress | blogicum/blog/forms.py:16-18 | the user model's `clean()` saves a stripped address `local@domain` whose domain holds no `@` as `local@` followed by the lowercased domain |
| Forms.RegistrationFoldsUsername | blogicum/blog/forms.py:16-18 | `ﬁ` (U+FB01) is refused as a taken username where `fi` is stored, because NFKC maps one to the other |
| Forms.RegistrationKeyError | blogicum/blog/forms.py:20-22 | an empty or whitespace-only first password with a non-empty second crashes the form as written, where the corrected form reports only the missing field |
| Forms.RegistrationAgrees | blogicum/blog/forms.py:20-24 | apart from that case, the corrected form and the form as written agree |
| Forms.CleanProfile | blogicum/blog/forms.py:33-42 | the profile form is valid iff the stripped username is given and, once NFKC-normalised, belongs to no other user, and no field holds a NUL; its value is the normalised username, the stripped names, and the stripped email with its domain lowercased |
| Forms.ProfileAcceptsTakenEmail | blogicum/blog/forms.py:33-42 | the profile form accepts an email that another user has, which registration's `clean_email` would refuse |
| Forms.CleanPost | blogicum/blog/forms.py:45-49 | the post form is valid iff the title is given and within 256 characters once stripped, the text and the time are given, the category is given and stored, and the location is empty or stored; its value has the title and the text stripped and the other fields as submitted |
| Forms.ApplyPostForm | blogicum/blog/forms.py:48-49 | saving the post form replaces exactly the listed fields; the id, author and creation time stay |
| Forms.CleanComment | blogicum/blog/forms.py:52-55 | the comment form is valid iff the text holds more than whitespace and no NUL; its value is the stripped text; a missing-text error appears iff the text is only whitespace |
| Forms.CommentCleanedStable | blogicum/blog/forms.py:52-55 | a cleaned comment submitted again cleans to itself |
| Forms.ApplyCommentForm | blogicum/blog/forms.py:55 | saving the comment form replaces the text only; the post, author, id and time stay |
| Views.NewestFirst | blogicum/blog/views.py:27 | `order_by('-pub_date')` gives the same posts, as a permutation, newest publication time first |
| Views.OldestCommentsFirst | blogicum/blog/views.py:55 | `order_by('created_at')` gives the same comments, oldest first |
| Views.NewestCommentsFirst | blogicum/blog/views.py:123-124 | `order_by('-created_at')` gives the same comments, newest first |
| Views.CommentsOf | blogicum/blog/views.py:55 | `post.comments.all()` holds exactly the stored comments attached to the post, and there are `comment_count` of them |
| Views.IndexListing | blogicum/blog/views.py:27 | the index listing holds exactly the listed posts, newest first |
| Views.Index | blogicum/blog/views.py:26-29 | the index shows the page of the listing that the `page` parameter selects: at most 10 listed, stored posts, newest first |
| Views.CategoryListing | blogicum/blog/views.py:36-37 | a category's listing holds exactly the listed posts of that category, newest first |
| Views.CategoryPosts | blogicum/blog/views.py:32-42 | 404 iff no published category has the slug; otherwise the page is the one the parameter selects from that category's listing, and shows only its listed posts, newest first |
| Views.ProfileListing | blogicum/blog/views.py:177 | the profile listing holds exactly the author's stored posts, hidden ones included, newest first |
| Views.Profile | blogicum/blog/views.py:175-180 | 404 iff no user has the username; otherwise the page is the one the parameter selects from that user's listing, and shows only their posts, newest first |
| Views.ProfileShowsHidden | blogicum/blog/views.py:177 | an unpublished or not-yet-due post is on its author's profile but not on the index |
| Views.PostDetail | blogicum/blog/views.py:45-60 | the detail page shows the stored post with that id only if it is published or the requester wrote it, together with exactly its comments, oldest first |
| Views.DetailNotFoundIff | blogicum/blog/views.py:50-53 | a stored post gives 404 iff it is unpublished and the requester is not its author |
| Views.DetailIgnoresDateAndCategory | blogicum/blog/views.py:46-51 | a published post that no listing shows, because it is not yet due or its category is missing or unpublished, is still shown in full |
| Views.ListedIsVisible | blogicum/blog/views.py:45-60 | every post on the index has a detail page that shows it to every requester |
| Views.CreatePostStep | blogicum/blog/views.py:63-75 | an anonymous requester goes to login with nothing changed; the store changes only on a valid POST by a signed-in user; the invariant holds |
| Views.CreatePostAdds | blogicum/blog/views.py:67-72 | a valid submission appends exactly one post, written by the requester, with the stripped title and text, the form's other fields and the time `now`, and redirects to the requester's profile |
| Views.EditPostStep | blogicum/blog/views.py:78-91 | the store changes only on a valid POST by the post's author; an anonymous requester goes to login |
| Views.EditPostNonAuthor | blogicum/blog/views.py:79-83 | an anonymous requester goes to login, and anyone who did not write the post goes to its detail page, whatever the method; nothing changes |
| Views.SubmitPostEdit | blogicum/blog/views.py:84-88 | once the author's form is bound, an invalid one is shown again with its errors and nothing changes; only a valid one changes the store, and the invariant holds |
| Views.EditPostSaves | blogicum/blog/views.py:84-88 | the author's valid submission rewrites that post from the form's cleaned fields and keeps every other row, then redirects to the post |
| Views.DeletePostStep | blogicum/blog/views.py:94-106 | the store changes only on a POST by the post's author or a staff user, and then it is the post's deletion |
| Views.DeletePostAllowedIff | blogicum/blog/views.py:97-101 | deleting a stored post succeeds iff the requester wrote it or is staff; otherwise the answer is Forbidden and nothing changes |
| Views.AddCommentStep | blogicum/blog/views.py:109-129 | the store changes only on a POST whose text holds more than whitespace and no NUL, by a signed-in user, on a stored, published post; the re-rendered page changes nothing and shows exactly that post's comments, newest first |
| Views.AddCommentUnpublished | blogicum/blog/views.py:111 | an unpublished post takes no comment and gives 404, to its author as well |
| Views.AddCommentSaves | blogicum/blog/views.py:112-120 | a valid comment on a published post is appended once, with the stripped text, attached to that post and written by the requester; posts stay and the post's count rises by one |
| Views.EditCommentStep | blogicum/blog/views.py:132-146 | the store changes only on a POST by the comment's author whose text holds more than whitespace and no NUL |
| Views.EditCommentNotAuthor | blogicum/blog/views.py:135-137 | anyone but the author, staff users included, gets Forbidden and nothing changes |
| Views.EditCommentSaves | blogicum/blog/views.py:138-142 | the author's valid edit replaces only that comment's text, by the stripped text, and redirects to the post named in the URL |
| Views.DeleteCommentStep | blogicum/blog/views.py:149-159 | the store changes only on a POST by the comment's author or a staff user, and then it is the comment's deletion |
| Views.DeleteCommentAllowedIff | blogicum/blog/views.py:152-156 | deleting a stored comment succeeds iff the requester wrote it or is staff; otherwise Forbidden and nothing changes |
| Views.ApplyProfileForm | blogicum/blog/forms.py:36 | the profile form sets the four listed fields and keeps the id and the staff flag |
| Views.EditProfileStep | blogicum/blog/views.py:162-172 | the store changes only on a valid POST by a signed-in user |
| Views.EditProfileSaves | blogicum/blog/views.py:164-169 | a valid profile rewrites the requester's row only, with the normalised username, the stripped names and the normalised email; it keeps the staff flag and redirects to the normalised username |
| Views.SubmitProfileEdit | blogicum/blog/views.py:164-169 | an invalid bound profile form is shown again with its errors and stores nothing; only a valid one changes the store, which keeps its invariant |
| Views.RegistrationStep | blogicum/blog/views.py:183-195 | the view runs the form as written: it answers with a server error iff a POST has a first password that fails its field and a second that does not; the store changes only when the corrected form registers the submission; the invariant holds |
| Views.RegistrationRefuses | blogicum/blog/views.py:184-195 | differing passwords or a taken email, compared once stripped, store no user; they re-render the form with the matching error, except when the first password fails its field and the second does not, where the view answers with a server error |
| Views.RegistrationCrashes | blogicum/blog/views.py:183-186 | an empty first password and a given second one make the view answer with a server error, storing nothing, where the corrected form would report the missing password and the stored user's email as taken |
| Views.RegistrationAdds | blogicum/blog/views.py:186-190 | a valid registration appends exactly the new non-staff user, with the NFKC-normalised username, the stripped first name and the stripped email with its domain lowercased, and redirects to the index |
| Views.RegistrationDuplicatesAddress | blogicum/blog/views.py:186-190 | an address that differs from a stored one only in its domain's case passes `clean_email`, and after registration one more user holds the stored address, so there are at least two |
| Views.ResetConfirmUser | blogicum/blog/views.py:235-239 | the link's user is a stored user whose key is `int()` of the identifier; there is none iff `int()` fails or names no stored key |
| Views.ResetConfirm | blogicum/blog/views.py:234-251 | the requester is sent home iff there is no such user or the token does not check out; the set-password form is shown only for a stored user whose token checks out |
| Views.ResetLinkFindsUser | blogicum/blog/views.py:207-211 | the identifier a reset mail carries leads back to that user |
| Views.ResetRejectsGarbage | blogicum/blog/views.py:235-239 | an identifier without a digit is caught and the requester sent home |
| Views.Store.CreateCategory | blogicum/blog/models.py:66-76 | the store becomes the database `Models.CreateCategory` gives, or stays when creation is refused |
| Views.Store.CreateLocation | blogicum/blog/models.py:86-87 | the store becomes the database `Models.CreateLocation` gives, or stays when creation is refused |
| Views.Store.DeleteUser | blogicum/blog/models.py:30-35 | the store becomes `Models.DeleteUser` of the old one, with its cascades, and stays valid |
| Views.Store.DeleteCategory | blogicum/blog/models.py:44-50 | the store becomes `Models.DeleteCategory` of the old one and stays valid |
| Views.Store.DeleteLocation | blogicum/blog/models.py:36-43 | the store becomes `Models.DeleteLocation` of the old one and stays valid |
| Views.Store.InsertPost | blogicum/blog/views.py:68-71 | the store becomes `Models.SaveNewPost` of the old one and stays valid |
| Views.Store.UpdatePost | blogicum/blog/views.py:87 | the store becomes `Models.SavePost` of the old one and stays valid |
| Views.Store.RemovePost | blogicum/blog/views.py:100 | the store becomes `Models.DeletePost` of the old one, with its cascade, and stays valid |
| Views.Store.InsertComment | blogicum/blog/views.py:115-118 | the store becomes `Models.SaveNewComment` of the old one and stays valid |
| Views.Store.UpdateComment | blogicum/blog/views.py:141 | the store becomes `Models.SaveComment` of the old one and stays valid |
| Views.Store.RemoveComment | blogicum/blog/views.py:155 | the store becomes `Models.DeleteComment` of the old one and stays valid |
| Views.Store.InsertUser | blogicum/blog/views.py:187-189 | the store becomes `Models.SaveNewUser` of the old one and stays valid |
| Views.Store.UpdateUser | blogicum/blog/views.py:168 | the store becomes `Models.SaveUser` of the old one and stays valid |
| Views.Store.CreatePost | blogicum/blog/views.py:63-75 | the new store and the response are those of `Views.CreatePostStep` on the old store |
| Views.Store.EditPost | blogicum/blog/views.py:78-91 | the new store and the response are those of `Views.EditPostStep` on the old store |
| Views.Store.DeletePost | blogicum/blog/views.py:94-106 | the new store and the response are those of `Views.DeletePostStep` on the old store |
| Views.Store.AddComment | blogicum/blog/views.py:109-129 | the new store and the response are those of `Views.AddCommentStep` on the old store |
| Views.Store.EditComment | blogicum/blog/views.py:132-146 | the new store and the response are those of `Views.EditCommentStep` on the old store |
| Views.Store.DeleteComment | blogicum/blog/views.py:149-159 | the new store and the response are those of `Views.DeleteCommentStep` on the old store |
| Views.Store.EditProfile | blogicum/blog/views.py:162-172 | the new store and the response are those of `Views.EditProfileStep` on the old store |
| Views.Store.Register | blogicum/blog/views.py:183-195 | the new store and the response are those of `Views.RegistrationStep` on the old store |
| Views.ResetAddress | blogicum/blog/views.py:199-202 | the reset form accepts an address iff it is given, holds no NUL and has at most 254 characters once stripped; the cleaned address is the stripped one |
| Views.Store.PasswordReset | blogicum/blog/views.py:198-227 | a POSTed address the form accepts gives the done page, with one mail per user who has the stripped address, to that address and naming that user; otherwise the form is shown and no mail is sent |
| Views.Store.MailUsers | blogicum/blog/views.py:203-221 | one mail per user with the address, each to that address and naming a user who has it, and one for every such user |

## Left out

- Templates, the template context and the HTTP plumbing are not modelled. Each response is reduced to the data its template receives, or to the kind of redirect.
- Only the GET and POST methods are modelled. The views treat every other method as they treat GET.
- Image upload (`Post.image`, `PostForm`'s `image` field and `request.FILES`) is file I/O.
- `created_at` and `now()` are an integer clock supplied as a parameter.
- Views.Store.PasswordReset: a mail records only the user's id and the address. The link's protocol, domain and token, the rendered message, the subject, the sender and `send_mail` are I/O and are not modelled.
- Views.ResetAddress: the address is stripped, checked for a NUL and for its length, but the e-mail format that `PasswordResetForm`'s `EmailField` validates is not modelled.
- Views.ResetConfirm: the token check is a parameter standing for the framework's token generator. A valid new password writes nothing, because this model's user record carries no password. `SetPasswordForm`'s password validators are reduced to "given, and the two entries equal".
- Views.RegistrationStep: `set_password` and password hashing are not modelled, so the stored user row holds no password.
- Forms.CleanRegistration: the user model's field limits (150 characters for the username and the names, 254 for the email), the username's allowed characters and the email format are not modelled. The same holds for Forms.CleanProfile.
- Views.ResetConfirm: `SetPasswordForm` does not strip its fields, so the two entries are compared as typed.
- Forms.CleanPost: the text of `pub_date` is not parsed. The model receives the time, or its absence.
- PyInt.ParseInt: the whitespace `int()` skips is modelled: C's `isspace` on an ASCII text, and the Unicode whitespace of any other text, but never the separators `\x1c` to `\x1f`. Non-ASCII digits, which `int()` also accepts, are left out. So are the digit-count limit and other bases.
- Unicode normal form NFKC (`normalize_username`) and `str.lower` (used by `normalize_email`) are parameters, not tables. What the model states about them holds for whatever the two functions compute.
- New rows take their key from one counter shared by every table, where the database keeps one sequence per table. Keys are fresh and never reused in both schemes; only their values differ.
- Tables.SortBy: the database leaves open the order of rows with equal keys. The model fixes one choice, table order, which Tables.SortByStable proves; a database may return such rows in another order.
- The `is_published` default reaches posts only as the form's initial value, which is rendering. A post is created only through `PostForm`, and an unticked box submits false. The default is modelled where it applies without a form: categories and locations created through the ORM.
- Models.CreateCategory: creating a row is modelled as refused exactly when the row would break a declaration of blogicum/blog/models.py: the 256-character `max_length` of the title and the unique index on the slug. The admin site's form also strips the title, requires the title, the description and the slug, and checks the slug's characters and its 50-character limit; none of these is modelled. A manager call checks no length at all on a database that does not enforce column lengths, and that path is not modelled either.
- Models.CreateLocation: the same holds for the location's 256-character name. The admin form's strip and required check are not modelled.
- The login view, `password_change`, `password_reset_done`, `password_reset_complete` and the session update (`update_session_auth_hash`) are framework views or calls with no rule of the blog's own.
- The `pages` app holds no application logic.
- The URL configuration is not modelled, and the views are modelled as if called directly. Two consequences are not captured. `include('django.contrib.auth.urls')` at blogicum/blogicum/urls.py:28 comes first, so the framework's own reset view answers `auth/password_reset/` and shadows the blog's `password_reset` at line 47. The `<int:uidb64>` converter at line 51 lets only digits reach `password_reset_confirm`, so its `ValueError` branch cannot be reached through a URL.
- The debug `print` in `edit_profile` has no effect on the store or the response.

## Findings

| source | as written | input that shows it | evidently intended | confidence | as-written member | corrected member |
|---|---|---|---|---|---|---|
| blogicum/blog/forms.py:20-24 | `clean_password2` reads `cleaned_data['password']` unconditionally | username `ann`, email `ann@example.org`, password empty (or only spaces), password2 `secret`: the empty password fails its own required check, is absent from `cleaned_data`, and the lookup raises `KeyError`, a server error | report only that the password is required, and skip the comparison | not executed | Forms.CleanRegistrationAsWritten (shown by Forms.RegistrationKeyError), run by Views.RegistrationStep (shown by Views.RegistrationCrashes) | Forms.CleanRegistration, which states what the view does outside the crash case (Forms.RegistrationAgrees) |
