# Social posts and library book views, modelled in Dafny

This project models the two view modules of the Django tutorial repository
that contain decision logic:

- **Social posts** (`social_media_api/posts/views.py`). A store holds posts,
  comments, the `following` relation, the like table and the notification
  table. The feed lists the followed authors' posts newest first. Liking is a
  get-or-create on the pair (user, post). It answers "Already liked" when the
  row exists. It notifies the post's author once, on a fresh like by someone
  else. Unliking deletes the pair's row, or answers "You have not liked this
  post". The author-or-read-only permission lets GET, HEAD and OPTIONS through
  and lets other methods through only for the author. Creating a post or a
  comment stamps the requester as author. Pages hold 10 items by default and
  never more than 50.
- **Library books** (`advanced_features_and_security/LibraryProject/relationship_app/views.py`).
  The role predicates `is_admin`, `is_librarian` and `is_member` are modelled,
  and so is Django's `has_perm` with the group table of the setup script. The
  model covers the `can_view` gate of `list_books`, and the add, edit and
  delete views over a book table (`map<BookId, Book>`). Each of the three
  checks its permission first (403). Edit and delete then look the book up
  (404); add looks up no book. Add and edit then check the posted form: the
  stripped title first, then `author_id`, then that the author exists. Delete
  checks no form. Only a POST changes the table. `search_books` strips the query and finds nothing for an empty query.
  Otherwise it returns the books whose title or author name contains the query,
  ignoring case.

Files: `wrappers.dfy` (Option), `text.dfy` (Python's `str.strip()` and the
`icontains` substring test), `posts_model.dfy` and `posts_views.dfy` (the post
views: pure part and the `SocialStore` class), `library_model.dfy` and
`library_views.dfy` (the library views: pure part and the `BookStore` class).

Clock and identity are parameters: `now` is the creation time a new row gets,
and the requester is `Option<UserId>` (None for an anonymous request) or an
`Account` value.

Two defects in `social_media_api/posts/views.py` do not affect the model,
which follows the evident intent. `APIView` (line 27) and `status` (line 37 and
later) are used but never imported, so the module as written fails at import
time. Lines 52-62 of `LikePostView.post` come after the `return` at line 49 and
never run. The live success reply is therefore 200 "Post liked" with at most
one notification. The 201 variant is not modelled.

## Model

| member | source | states |
|---|---|---|
| `Text.Strip` | advanced_features_and_security/LibraryProject/relationship_app/views.py:112 | the stripped text is the slice of the input between its leading and its trailing whitespace; it is empty exactly when the input is all whitespace, and otherwise neither starts nor ends with whitespace |
| `Text.StripIdempotent` | advanced_features_and_security/LibraryProject/relationship_app/views.py:153 | stripping a stripped title changes nothing |
| `Text.ContainsIff` | advanced_features_and_security/LibraryProject/relationship_app/views.py:214-216 | the substring scan succeeds exactly when the query occurs at some index of the field |
| `Text.FoldIdempotent` | advanced_features_and_security/LibraryProject/relationship_app/views.py:215 | case folding twice is folding once |
| `Text.IContainsIgnoresCase` | advanced_features_and_security/LibraryProject/relationship_app/views.py:215 | `icontains` gives the same answer whatever the case of field and query |
| `Posts.FindPost` | social_media_api/posts/views.py:31 | the lookup returns a stored post with the requested key, and returns nothing exactly when no stored post has that key |
| `Posts.FindPostUnique` | social_media_api/posts/views.py:69 | with unique keys the lookup returns the one post that carries the key |
| `Posts.FromFollowed` | social_media_api/posts/views.py:22-23 | each post occurs in the filtered list as often as in the table if its author is followed, and not at all otherwise |
| `Posts.InsertByDate` | social_media_api/posts/views.py:23 | inserting into a newest-first list keeps it newest first and adds exactly that post |
| `Posts.SortNewestFirst` | social_media_api/posts/views.py:23 | the ordering is newest first and is a permutation of its input |
| `Posts.Feed` | social_media_api/posts/views.py:20-23 | the feed is newest first, a permutation of the followed authors' posts, and holds a post exactly when it is stored and its author is followed |
| `Posts.EmptyFollowingEmptyFeed` | social_media_api/posts/views.py:21-23 | following nobody gives an empty feed |
| `Posts.FeedScenario` | social_media_api/posts/views.py:20-23 | A follows B and C, B posts "Hello" at 1, C posts "World" at 2, A posts at 3: A's feed is World, Hello |
| `Posts.FeedCounts` | social_media_api/posts/views.py:23 | no post is added to or dropped from the filtered posts by the ordering |
| `Posts.GetOrCreate` | social_media_api/posts/views.py:34 | a row is created exactly when the pair was absent; the pair is present afterwards, nothing else is added, and a table without duplicates stays so |
| `Posts.GetOrCreateTwice` | social_media_api/posts/views.py:34-37 | a second like of the same pair creates nothing and leaves the table as the first left it |
| `Posts.RemoveFirst` | social_media_api/posts/views.py:71-75 | deleting removes one row equal to the pair, if there is one, and otherwise leaves the table unchanged |
| `Posts.RemoveFirstRemovesPair` | social_media_api/posts/views.py:71-75 | on a table without duplicates, deleting removes that pair only, shrinks the table by one and keeps it duplicate-free |
| `Posts.LikeThenUnlike` | social_media_api/posts/views.py:34-75 | a fresh like followed by an unlike restores the like table exactly |
| `Posts.LikeNotifications` | social_media_api/posts/views.py:40-47 | a fresh like creates one notification (recipient the author, actor the liker, verb "liked your post", target the post) unless the liker is the author, and then none |
| `Posts.ObjectAccess` | social_media_api/posts/views.py:79-86 | an anonymous request gets 401; GET, HEAD and OPTIONS are allowed; any other method is allowed exactly when the requester is the object's author |
| `Posts.OnlyAuthorMutates` | social_media_api/posts/views.py:83-86 | a POST, PUT, PATCH or DELETE reaches an object exactly when it comes from the object's author |
| `Posts.EffectivePageSize` | social_media_api/posts/views.py:10-13 | the page size is 10 without a usable `page_size`, the requested size when it is between 1 and 50, and never more than 50 |
| `Posts.PageCount` | social_media_api/posts/views.py:10-13 | the page count is at least 1 and just large enough to hold every item |
| `Posts.PageOf` | social_media_api/posts/views.py:10-13 | a numbered page exists exactly when its number is between 1 and the page count (otherwise 404) and holds items (n-1)*size up to n*size, cut at the end of the list; no page number means page 1, "last" means the last page, which runs to the end; a non-numeric page is refused; a page never holds more items than the page size |
| `Posts.PageHoldsItem` | social_media_api/posts/views.py:10-13 | every item sits on the page its index names, at its offset within that page |
| `PostsViews.SocialStore.GetFeed` | social_media_api/posts/views.py:16-23 | an anonymous request gets 401; otherwise the reply is the requester's feed (`Posts.Feed`): newest first, holding exactly the followed authors' posts, each as often as stored, and empty when nobody is followed |
| `PostsViews.SocialStore.LikePost` | social_media_api/posts/views.py:27-49 | 401 and 404 change nothing; a repeat like answers "Already liked" and changes nothing; a fresh like answers "Post liked", appends exactly the pair and appends the author's notification unless it is a self-like; the table stays duplicate-free |
| `PostsViews.SocialStore.UnlikePost` | social_media_api/posts/views.py:65-76 | 401 and 404 change nothing; with no row it answers "You have not liked this post" and changes nothing; otherwise it answers "Post unliked" and removes exactly that pair; notifications never change |
| `PostsViews.SocialStore.CreatePost` | social_media_api/posts/views.py:97-98 | the new post's author is the requester whatever the client sent; it gets a fresh key and is appended to the table |
| `PostsViews.SocialStore.CreateComment` | social_media_api/posts/views.py:107-108 | the new comment's author is the requester whatever the client sent; it is appended with a fresh key |
| `Library.ViewersOnlyView` | advanced_features_and_security/LibraryProject/relationship_app/setup_groups.py:26-45 | a plain active user in the Viewers group alone has `can_view` and none of `can_create`, `can_edit`, `can_delete` |
| `Library.RolePredicates` | advanced_features_and_security/LibraryProject/relationship_app/views.py:66-76 | each role predicate holds exactly for a signed-in user whose profile role is the exact string "Admin", "Librarian" or "Member"; the anonymous user has no role |
| `Library.RolesExclusive` | advanced_features_and_security/LibraryProject/relationship_app/views.py:66-76 | no user satisfies two role predicates |
| `Library.CheckBookForm` | advanced_features_and_security/LibraryProject/relationship_app/views.py:112-136 | a form is accepted exactly when the stripped title is non-empty and `author_id` names a stored author, and then yields that title and author; a blank title is refused first, then a missing or empty `author_id`, then an unknown author with the lookup's error, or an unconvertible `author_id` with the conversion's error |
| `Library.AcceptedTitleIsStable` | advanced_features_and_security/LibraryProject/relationship_app/views.py:153-171 | re-posting the title an edit stored is accepted with the same title and author |
| `Library.FormFlash` | advanced_features_and_security/LibraryProject/relationship_app/views.py:116-134 | a refused form flashes an error: "Title is required.", "Author is required.", or "Error creating book: " / "Error updating book: " followed by the lookup's error |
| `Library.ListBooks` | advanced_features_and_security/LibraryProject/relationship_app/views.py:15-27 | a user without `can_view` is redirected to login with the permission message and sees no books; otherwise every book is listed |
| `Library.SearchResults` | advanced_features_and_security/LibraryProject/relationship_app/views.py:209-216 | an empty query finds nothing; otherwise a stored book is found exactly when its title or its author's name contains the query ignoring case, and found books are shown as stored |
| `Library.FoundByTitleInfix` | advanced_features_and_security/LibraryProject/relationship_app/views.py:214-216 | any non-empty piece of a book's title, typed in any ASCII case, finds that book |
| `Library.SearchBooks` | advanced_features_and_security/LibraryProject/relationship_app/views.py:203-218 | an anonymous user is sent to login; a query that strips to nothing shows no books; otherwise the shown books are exactly those matching the stripped query, each shown as stored |
| `LibraryViews.BookStore.AddBook` | advanced_features_and_security/LibraryProject/relationship_app/views.py:103-140 | without `can_create` 403 and nothing changes; a GET shows the form and nothing changes; an accepted POST adds exactly one book, under a fresh key, with the stripped title and that author; a refused POST adds nothing and flashes the error |
| `LibraryViews.BookStore.EditBook` | advanced_features_and_security/LibraryProject/relationship_app/views.py:142-181 | without `can_edit` 403; a missing book 404; a GET or a refused POST leaves the table unchanged; an accepted POST replaces only that book's title (stripped) and author |
| `LibraryViews.BookStore.DeleteBook` | advanced_features_and_security/LibraryProject/relationship_app/views.py:183-199 | without `can_delete` 403; a missing book 404; only a POST removes the book, and only that one, flashing its title; any other method leaves the table unchanged |

## Left out

- HTTP transport, URL routing, template rendering and the message store. A reply is a tagged value: a status with its detail text, a redirect target name or a template name, plus the flashed message.
- The ORM and its database. Tables are sequences or maps and each view runs alone. The atomicity of `get_or_create` under concurrent requests is not modelled, and neither are database errors inside the `try` blocks.
- The `IsAuthenticated` check and `has_perm` are modelled only as far as the views use them. The token lookup behind the requester and the login/register views are not modelled.
- Follow and unfollow: no view in these files changes the `following` relation, so the store takes it as given.
- `social_media_api/posts/models.py`, the serializers and `relationship_app/models.py` are not part of this model. The fields of Post, Comment, Like, Notification, Book and Author are those the views use. The comment serializer's check that the commented post exists is taken as a precondition of `CreateComment`.
- The ModelViewSet list, retrieve, update and destroy actions, their `-created_at` ordering and the `SearchFilter` on title and content are framework configuration. Only their object-permission decision (`Posts.ObjectAccess`) is modelled.
- Posts.Feed: posts with equal `created_at` keep their table order. The query leaves the order of ties to the database.
- Notifications record their target as the post's id. The content type is always Post here.
- The `author_id` form field arrives already classified (`Absent`, `Blank`, `Given(id)`, `Malformed(error)`). Python's conversion of the posted string to an integer and the exact wording of its error are inputs.
- Text.Fold: case folding covers ASCII letters only. The case-insensitivity of `icontains` for other letters depends on the database's collation.
- The order of `list_books` and `search_books` results is left to the database by the views, so both are maps.
- `list_libraries`, `LibraryDetailView`, `register`, `view_book` and the three role-gated template views only read or render. They add no decision beyond the predicates modelled here.
- Pagination: the `page` parameter arrives already classified, and Django's paginator is modelled with its defaults (no orphans, an empty first page allowed).
- Posts.EffectivePageSize: the `page_size` parameter arrives already parsed (`Option<int>`, None when absent or not an integer). The conversion of the query string is not modelled.
- Library.SearchBooks: `@login_required` sends an anonymous user to `settings.LOGIN_URL` with a `next` parameter, not to the `login` URL name that `list_books` uses. The project's settings module is not part of this model, so its `LOGIN_URL` and the exact redirect target are not modelled. The model records only that the user is redirected to login.
