/**
 * The pure part of the library app's views
 * (advanced_features_and_security/LibraryProject/relationship_app/views.py):
 * accounts and their permissions, the role predicates, the book form check,
 * the messages the views flash, and the list and search queries.
 */
module Library {
  import opened Wrappers
  import opened Text

  type BookId = int
  type AuthorId = int

  datatype Author = Author(name: string)
  datatype Book = Book(title: string, author: AuthorId)

  /** The profile attached to a user; `role` is a free-form string. */
  datatype Profile = Profile(role: string)

  /**
   * The requesting user: the anonymous user, or a stored account with its
   * active and superuser flags, its groups, the permissions granted to it
   * directly and its profile, if it has one.
   */
  datatype Account =
    | Anonymous
    | Account(active: bool, superuser: bool, groups: set<string>, perms: set<string>, profile: Option<Profile>)

  const CanView := "relationship_app.can_view"
  const CanCreate := "relationship_app.can_create"
  const CanEdit := "relationship_app.can_edit"
  const CanDelete := "relationship_app.can_delete"

  /** The groups the setup script creates and the permissions each one grants. */
  const GroupPermissions: map<string, set<string>> := map[
    "Editors" := {CanCreate, CanEdit},
    "Viewers" := {CanView},
    "Admins" := {CanView, CanCreate, CanEdit, CanDelete}
  ]

  predicate GroupGrants(groups: set<string>, perm: string) {
    exists g :: g in groups && g in GroupPermissions && perm in GroupPermissions[g]
  }

  /**
   * `user.has_perm(perm)`: an active superuser has every permission; another
   * active user has those granted directly or through a group; an inactive or
   * anonymous user has none.
   */
  predicate HasPerm(user: Account, perm: string) {
    && user.Account?
    && user.active
    && (user.superuser || perm in user.perms || GroupGrants(user.groups, perm))
  }

  /** A member of the Viewers group alone may list books but not add, edit or delete them. */
  lemma ViewersOnlyView(user: Account)
    requires user.Account? && user.active && !user.superuser
    requires user.perms == {} && user.groups == {"Viewers"}
    ensures HasPerm(user, CanView)
    ensures !HasPerm(user, CanCreate) && !HasPerm(user, CanEdit) && !HasPerm(user, CanDelete)
  {
    assert "Viewers" in user.groups;
  }

  /** The shared test of the three role predicates. */
  predicate HasRole(user: Account, role: string) {
    user.Account? && user.profile.Some? && user.profile.value.role == role
  }

  predicate IsAdmin(user: Account) { HasRole(user, "Admin") }
  predicate IsLibrarian(user: Account) { HasRole(user, "Librarian") }
  predicate IsMember(user: Account) { HasRole(user, "Member") }

  /** Each role predicate holds exactly for a signed-in user whose profile names that role. */
  lemma RolePredicates(user: Account)
    ensures IsAdmin(user) <==> user.Account? && user.profile == Some(Profile("Admin"))
    ensures IsLibrarian(user) <==> user.Account? && user.profile == Some(Profile("Librarian"))
    ensures IsMember(user) <==> user.Account? && user.profile == Some(Profile("Member"))
    ensures user.Anonymous? ==> !IsAdmin(user) && !IsLibrarian(user) && !IsMember(user)
  {
  }

  /** No user holds two roles. */
  lemma RolesExclusive(user: Account)
    ensures !(IsAdmin(user) && IsLibrarian(user))
    ensures !(IsAdmin(user) && IsMember(user))
    ensures !(IsLibrarian(user) && IsMember(user))
  {
  }

  // ---------------------------------------------------------------------------
  // The book form

  /**
   * The `author_id` form field: missing, the empty string, a value the ORM reads
   * as an id, or a value it cannot convert (with the error text it raises).
   */
  datatype AuthorField = Absent | Blank | Given(id: AuthorId) | Malformed(error: string)

  /** The posted form: `title` is None when the field was not sent. */
  datatype BookForm = BookForm(title: Option<string>, authorId: AuthorField)

  /** Why a posted form was refused. */
  datatype FormError = NoTitle | NoAuthor | LookupFailed(detail: string)

  datatype FormCheck = Accepted(title: string, author: AuthorId) | Rejected(error: FormError)

  /** The error text of get_object_or_404 when no author has the id. */
  const NoAuthorMatches := "No Author matches the given query."

  /** `request.POST.get('title', '').strip()`. */
  function FormTitle(form: BookForm): string {
    Strip(form.title.GetOr(""))
  }

  /**
   * The checks add_book and edit_book run on a posted form, in their order: the
   * stripped title must be non-empty, then `author_id` must be present and
   * non-empty, then it must name a stored author.
   */
  function CheckBookForm(form: BookForm, authors: map<AuthorId, Author>): (r: FormCheck)
    ensures r.Accepted? <==> FormTitle(form) != [] && form.authorId.Given? && form.authorId.id in authors
    ensures r.Accepted? ==> r.title == FormTitle(form) && r.author == form.authorId.id
    ensures AllSpace(form.title.GetOr("")) ==> r == Rejected(NoTitle)
    ensures FormTitle(form) != [] && (form.authorId.Absent? || form.authorId.Blank?) ==> r == Rejected(NoAuthor)
    ensures FormTitle(form) != [] && form.authorId.Given? && form.authorId.id !in authors ==>
              r == Rejected(LookupFailed(NoAuthorMatches))
    ensures FormTitle(form) != [] && form.authorId.Malformed? ==> r == Rejected(LookupFailed(form.authorId.error))
  {
    var title := FormTitle(form);
    if title == [] then Rejected(NoTitle)
    else match form.authorId
      case Absent => Rejected(NoAuthor)
      case Blank => Rejected(NoAuthor)
      case Malformed(e) => Rejected(LookupFailed(e))
      case Given(id) => if id in authors then Accepted(title, id) else Rejected(LookupFailed(NoAuthorMatches))
  }

  /** Re-submitting an accepted title is accepted unchanged: the stored title is already stripped. */
  lemma AcceptedTitleIsStable(form: BookForm, authors: map<AuthorId, Author>)
    requires CheckBookForm(form, authors).Accepted?
    ensures var c := CheckBookForm(form, authors);
            CheckBookForm(BookForm(Some(c.title), form.authorId), authors) == c
  {
    var c := CheckBookForm(form, authors);
    var raw := form.title.GetOr("");
    assert c.title == Strip(raw);
    var again := BookForm(Some(c.title), form.authorId);
    assert FormTitle(again) == FormTitle(form) by {
      StripIdempotent(raw);
    }
    SameTitleSameCheck(form, again, authors);
  }

  /** The check sees the title only through its stripped text. */
  lemma SameTitleSameCheck(f1: BookForm, f2: BookForm, authors: map<AuthorId, Author>)
    requires FormTitle(f1) == FormTitle(f2) && f1.authorId == f2.authorId
    ensures CheckBookForm(f1, authors) == CheckBookForm(f2, authors)
  {
  }

  // ---------------------------------------------------------------------------
  // Messages and responses

  /** The messages the views flash. */
  datatype Flash =
    | ViewDenied
    | TitleRequired
    | AuthorRequired
    | CreateFailed(detail: string)
    | UpdateFailed(detail: string)
    | BookAdded(title: string)
    | BookUpdated(title: string)
    | BookDeleted(title: string)
  {
    predicate IsError() {
      ViewDenied? || TitleRequired? || AuthorRequired? || CreateFailed? || UpdateFailed?
    }

    function Text(): string {
      match this
      case ViewDenied => "You do not have permission to view books."
      case TitleRequired => "Title is required."
      case AuthorRequired => "Author is required."
      case CreateFailed(d) => "Error creating book: " + d
      case UpdateFailed(d) => "Error updating book: " + d
      case BookAdded(t) => "Book \"" + t + "\" added successfully!"
      case BookUpdated(t) => "Book \"" + t + "\" updated successfully!"
      case BookDeleted(t) => "Book \"" + t + "\" deleted successfully!"
    }
  }

  /** The message a refused form flashes in add_book (`creating`) or edit_book. */
  function FormFlash(e: FormError, creating: bool): (f: Flash)
    ensures f.IsError()
    ensures e.NoTitle? ==> f.Text() == "Title is required."
    ensures e.NoAuthor? ==> f.Text() == "Author is required."
    ensures e.LookupFailed? && creating ==> f.Text() == "Error creating book: " + e.detail
    ensures e.LookupFailed? && !creating ==> f.Text() == "Error updating book: " + e.detail
  {
    match e
    case NoTitle => TitleRequired
    case NoAuthor => AuthorRequired
    case LookupFailed(d) => if creating then CreateFailed(d) else UpdateFailed(d)
  }

  datatype Response =
    | Forbidden                  // 403: permission_required(..., raise_exception=True)
    | NotFound                   // 404: get_object_or_404(Book, ...)
    | Redirect(to: string)       // redirect('list_books'), redirect('login')
    | Render(template: string)

  /** A response, the message flashed with it, and the books it shows. */
  datatype Page = Page(response: Response, flash: Option<Flash>, books: map<BookId, Book>)

  const AddTemplate := "relationship_app/add_book.html"
  const EditTemplate := "relationship_app/edit_book.html"
  const DeleteTemplate := "relationship_app/delete_book.html"
  const ListTemplate := "relationship_app/list_books.html"
  const SearchTemplate := "relationship_app/search_books.html"

  /** list_books: without `can_view` the user is sent to the login page with no books. */
  function ListBooks(user: Account, books: map<BookId, Book>): (p: Page)
    ensures !HasPerm(user, CanView) ==> p == Page(Redirect("login"), Some(ViewDenied), map[])
    ensures HasPerm(user, CanView) ==> p == Page(Render(ListTemplate), None, books)
  {
    if !HasPerm(user, CanView) then Page(Redirect("login"), Some(ViewDenied), map[])
    else Page(Render(ListTemplate), None, books)
  }

  // ---------------------------------------------------------------------------
  // Search

  /** `Q(title__icontains=q) | Q(author__name__icontains=q)`. */
  predicate Matches(book: Book, authors: map<AuthorId, Author>, query: string) {
    IContains(book.title, query) || (book.author in authors && IContains(authors[book.author].name, query))
  }

  /** The books search_books shows for the stripped query `query`. */
  function SearchResults(books: map<BookId, Book>, authors: map<AuthorId, Author>, query: string): (r: map<BookId, Book>)
    ensures query == [] ==> r == map[]
    ensures query != [] ==> forall id :: id in r <==> id in books && Matches(books[id], authors, query)
    ensures forall id :: id in r ==> id in books && r[id] == books[id]
  {
    if query == [] then map[]
    else map id | id in books && Matches(books[id], authors, query) :: books[id]
  }

  /** A book is found by any piece of its title, typed in any case. */
  lemma {:induction false} FoundByTitleInfix(books: map<BookId, Book>, authors: map<AuthorId, Author>, id: BookId,
                                            i: nat, j: nat, q: string)
    requires id in books && i < j <= |books[id].title|
    requires Fold(q) == Fold(books[id].title[i..j])
    ensures id in SearchResults(books, authors, q)
  {
    var title := books[id].title;
    assert q != [];
    assert OccursAt(Fold(title), Fold(q), i) by {
      assert Fold(title)[i..i + |Fold(q)|] == Fold(title[i..j]);
    }
    ContainsIff(Fold(title), Fold(q));
  }

  /** search_books: login required; a query that strips to nothing finds no books. */
  function SearchBooks(user: Account, q: Option<string>, books: map<BookId, Book>, authors: map<AuthorId, Author>): (p: Page)
    ensures user.Anonymous? ==> p.response == Redirect("login") && p.books == map[]
    ensures user.Account? && AllSpace(q.GetOr("")) ==> p == Page(Render(SearchTemplate), None, map[])
    ensures user.Account? ==> p.response == Render(SearchTemplate)
    ensures user.Account? ==> forall id :: id in p.books <==>
              id in books && Strip(q.GetOr("")) != [] && Matches(books[id], authors, Strip(q.GetOr("")))
    ensures user.Account? ==> p.books == SearchResults(books, authors, Strip(q.GetOr("")))
    ensures forall id :: id in p.books ==> id in books && p.books[id] == books[id]
  {
    if user.Anonymous? then Page(Redirect("login"), None, map[])
    else Page(Render(SearchTemplate), None, SearchResults(books, authors, Strip(q.GetOr(""))))
  }
}
