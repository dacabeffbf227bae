/**
 * The book views of advanced_features_and_security/LibraryProject/relationship_app/views.py
 * that write to the book table: add_book, edit_book and delete_book. Each
 * checks its permission first (403). edit_book and delete_book then look the
 * book up (404). add_book and edit_book check the posted form. Only a POST
 * changes the table.
 */
module LibraryViews {
  import opened Wrappers
  import opened Library

  /** A view's answer: the response and the message flashed with it. */
  datatype Reply = Reply(response: Response, flash: Option<Flash>)

  class BookStore {
    var books: map<BookId, Book>
    const authors: map<AuthorId, Author>
    var nextId: BookId

    /** Every stored key is below the next key handed out. */
    ghost predicate Valid()
      reads this
    {
      forall id :: id in books ==> id < nextId
    }

    constructor (authors: map<AuthorId, Author>)
      ensures Valid()
      ensures this.authors == authors && books == map[]
    {
      this.authors := authors;
      books := map[];
      nextId := 1;
    }

    /** add_book. */
    method AddBook(user: Account, requestMethod: string, form: BookForm) returns (reply: Reply)
      requires Valid()
      modifies this`books, this`nextId
      ensures Valid()
      ensures !HasPerm(user, CanCreate) ==> reply == Reply(Forbidden, None) && books == old(books)
      ensures HasPerm(user, CanCreate) && requestMethod != "POST" ==>
                reply == Reply(Render(AddTemplate), None) && books == old(books)
      ensures HasPerm(user, CanCreate) && requestMethod == "POST" ==>
                match CheckBookForm(form, authors)
                case Accepted(title, author) =>
                  && old(nextId) !in old(books)
                  && books == old(books)[old(nextId) := Book(title, author)]
                  && |books| == |old(books)| + 1
                  && reply == Reply(Redirect("list_books"), Some(BookAdded(title)))
                case Rejected(e) =>
                  && books == old(books)
                  && reply == Reply(Render(AddTemplate), Some(FormFlash(e, true)))
    {
      if !HasPerm(user, CanCreate) {
        return Reply(Forbidden, None);
      }
      if requestMethod != "POST" {
        return Reply(Render(AddTemplate), None);
      }
      match CheckBookForm(form, authors) {
        case Accepted(title, author) =>
          assert forall id :: id in books ==> id < nextId;
          books := books[nextId := Book(title, author)];
          nextId := nextId + 1;
          reply := Reply(Redirect("list_books"), Some(BookAdded(title)));
        case Rejected(e) =>
          reply := Reply(Render(AddTemplate), Some(FormFlash(e, true)));
      }
    }

    /** edit_book. */
    method EditBook(user: Account, bookId: BookId, requestMethod: string, form: BookForm) returns (reply: Reply)
      requires Valid()
      modifies this`books
      ensures Valid()
      ensures !HasPerm(user, CanEdit) ==> reply == Reply(Forbidden, None) && books == old(books)
      ensures HasPerm(user, CanEdit) && bookId !in old(books) ==> reply == Reply(NotFound, None) && books == old(books)
      ensures HasPerm(user, CanEdit) && bookId in old(books) && requestMethod != "POST" ==>
                reply == Reply(Render(EditTemplate), None) && books == old(books)
      ensures HasPerm(user, CanEdit) && bookId in old(books) && requestMethod == "POST" ==>
                match CheckBookForm(form, authors)
                case Accepted(title, author) =>
                  && books == old(books)[bookId := Book(title, author)]
                  && books.Keys == old(books).Keys
                  && reply == Reply(Redirect("list_books"), Some(BookUpdated(title)))
                case Rejected(e) =>
                  && books == old(books)
                  && reply == Reply(Render(EditTemplate), Some(FormFlash(e, false)))
    {
      if !HasPerm(user, CanEdit) {
        return Reply(Forbidden, None);
      }
      if bookId !in books {
        return Reply(NotFound, None);
      }
      if requestMethod != "POST" {
        return Reply(Render(EditTemplate), None);
      }
      match CheckBookForm(form, authors) {
        case Accepted(title, author) =>
          books := books[bookId := Book(title, author)];
          reply := Reply(Redirect("list_books"), Some(BookUpdated(title)));
        case Rejected(e) =>
          reply := Reply(Render(EditTemplate), Some(FormFlash(e, false)));
      }
    }

    /** delete_book: only a POST deletes; any other method shows the confirmation page. */
    method DeleteBook(user: Account, bookId: BookId, requestMethod: string) returns (reply: Reply)
      requires Valid()
      modifies this`books
      ensures Valid()
      ensures !HasPerm(user, CanDelete) ==> reply == Reply(Forbidden, None) && books == old(books)
      ensures HasPerm(user, CanDelete) && bookId !in old(books) ==> reply == Reply(NotFound, None) && books == old(books)
      ensures HasPerm(user, CanDelete) && bookId in old(books) && requestMethod != "POST" ==>
                reply == Reply(Render(DeleteTemplate), None) && books == old(books)
      ensures HasPerm(user, CanDelete) && bookId in old(books) && requestMethod == "POST" ==>
                && books == old(books) - {bookId}
                && |books| == |old(books)| - 1
                && reply == Reply(Redirect("list_books"), Some(BookDeleted(old(books)[bookId].title)))
    {
      if !HasPerm(user, CanDelete) {
        return Reply(Forbidden, None);
      }
      if bookId !in books {
        return Reply(NotFound, None);
      }
      if requestMethod != "POST" {
        return Reply(Render(DeleteTemplate), None);
      }
      var title := books[bookId].title;
      books := books - {bookId};
      reply := Reply(Redirect("list_books"), Some(BookDeleted(title)));
    }
  }
}
