/**
  The catalog handlers of library/views.py (`add_book`, `edit_book`,
  `delete_book`), all librarian-only, with the validation the book form
  applies to a submission before it is saved.
 */
module Catalog {
  import opened Text
  import opened Models
  import opened Roles

  /** The submitted fields of the book form. */
  datatype BookForm = BookForm(title: string, author: string, isbn: string, availableCopies: int)

  /** Some book other than the one being edited already uses the ISBN. */
  predicate IsbnTaken(books: map<BookId, Book>, editing: Option<BookId>, isbn: string) {
    exists b :: b in books && Some(b) != editing && books[b].isbn == isbn
  }

  /** The book form's cleaning: text fields are stripped of surrounding
      whitespace, must be non-empty, free of NUL characters and fit their
      column; the copy count must not be negative; no other book may already
      use the ISBN (`editing` names the book being edited, which does not
      clash with itself). */
  function CleanBookForm(books: map<BookId, Book>, editing: Option<BookId>, f: BookForm): (r: Option<BookForm>)
    ensures r.Some? ==>
      && r.value == BookForm(Strip(f.title), Strip(f.author), Strip(f.isbn), f.availableCopies)
      && 0 < |r.value.title| <= TEXT_MAX_LENGTH && TextFieldClean(r.value.title)
      && 0 < |r.value.author| <= TEXT_MAX_LENGTH && TextFieldClean(r.value.author)
      && 0 < |r.value.isbn| <= ISBN_MAX_LENGTH && TextFieldClean(r.value.isbn)
      && r.value.availableCopies >= 0
      && !IsbnTaken(books, editing, r.value.isbn)
    ensures r.None? ==>
      || AllSpace(f.title) || |Strip(f.title)| > TEXT_MAX_LENGTH || !TextFieldClean(Strip(f.title))
      || AllSpace(f.author) || |Strip(f.author)| > TEXT_MAX_LENGTH || !TextFieldClean(Strip(f.author))
      || AllSpace(f.isbn) || |Strip(f.isbn)| > ISBN_MAX_LENGTH || !TextFieldClean(Strip(f.isbn))
      || f.availableCopies < 0
      || IsbnTaken(books, editing, Strip(f.isbn))
  {
    var title := Strip(f.title);
    var author := Strip(f.author);
    var isbn := Strip(f.isbn);
    if && 0 < |title| <= TEXT_MAX_LENGTH && TextFieldClean(title)
       && 0 < |author| <= TEXT_MAX_LENGTH && TextFieldClean(author)
       && 0 < |isbn| <= ISBN_MAX_LENGTH && TextFieldClean(isbn)
       && f.availableCopies >= 0
       && !IsbnTaken(books, editing, isbn)
    then
      Some(BookForm(title, author, isbn, f.availableCopies))
    else
      None
  }

  /** Catalogs a new book; the adding librarian and the time are recorded. */
  function AddBook(lib: Library, actor: Actor, f: BookForm, now: Time): (r: Step)
    ensures r.outcome == Ok || r.outcome == LoginRedirect || r.outcome == Invalid
    ensures r.outcome == LoginRedirect <==> !Admits(LibrarianRequired, PrincipalOf(lib, actor))
    ensures r.outcome == Invalid <==>
      Admits(LibrarianRequired, PrincipalOf(lib, actor)) && CleanBookForm(lib.books, None, f).None?
    ensures r.outcome != Ok ==> r.lib == lib
    ensures r.outcome == Ok ==>
      var id := lib.nextBook;
      var clean := CleanBookForm(lib.books, None, f).value;
      && actor.Session?
      && r.lib.books.Keys == lib.books.Keys + {id}
      && r.lib.books[id] == Book(clean.title, clean.author, clean.isbn, clean.availableCopies, Some(actor.user), now)
      && (forall b :: b in lib.books && b != id ==> r.lib.books[b] == lib.books[b])
      // nothing else: borrows, members, accounts, groups and the other counters as they were
      && r.lib == lib.(books := r.lib.books, nextBook := id + 1)
  {
    if !Admits(LibrarianRequired, PrincipalOf(lib, actor)) then
      Step(lib, LoginRedirect)
    else
      var clean := CleanBookForm(lib.books, None, f);
      if clean.None? then
        Step(lib, Invalid)
      else
        var c := clean.value;
        Step(Shelve(lib, Book(c.title, c.author, c.isbn, c.availableCopies, Some(actor.user), now)), Ok)
  }

  /** Adds a book row under the next book id. */
  function Shelve(lib: Library, book: Book): Library {
    lib.(books := lib.books[lib.nextBook := book], nextBook := lib.nextBook + 1)
  }

  /** Overwrites the form fields of a book, the copy count included; who
      added it and when stay as they were. */
  function EditBook(lib: Library, actor: Actor, bookId: BookId, f: BookForm): (r: Step)
    ensures r.outcome == Ok || r.outcome == LoginRedirect || r.outcome == NotFound || r.outcome == Invalid
    ensures r.outcome == LoginRedirect <==> !Admits(LibrarianRequired, PrincipalOf(lib, actor))
    ensures r.outcome == NotFound <==> Admits(LibrarianRequired, PrincipalOf(lib, actor)) && bookId !in lib.books
    ensures r.outcome == Invalid <==>
      && Admits(LibrarianRequired, PrincipalOf(lib, actor)) && bookId in lib.books
      && CleanBookForm(lib.books, Some(bookId), f).None?
    ensures r.outcome != Ok ==> r.lib == lib
    ensures r.outcome == Ok ==>
      var clean := CleanBookForm(lib.books, Some(bookId), f).value;
      var before := lib.books[bookId];
      && r.lib.books.Keys == lib.books.Keys
      && r.lib.books[bookId] == Book(clean.title, clean.author, clean.isbn, clean.availableCopies, before.addedBy, before.addedDate)
      && (forall b :: b in lib.books && b != bookId ==> r.lib.books[b] == lib.books[b])
      // nothing else: borrows, members, accounts, groups and the counters as they were
      && r.lib == lib.(books := r.lib.books)
  {
    if !Admits(LibrarianRequired, PrincipalOf(lib, actor)) then
      Step(lib, LoginRedirect)
    else if bookId !in lib.books then
      Step(lib, NotFound)
    else
      var clean := CleanBookForm(lib.books, Some(bookId), f);
      if clean.None? then
        Step(lib, Invalid)
      else
        var c := clean.value;
        var book := lib.books[bookId].(title := c.title, author := c.author, isbn := c.isbn, availableCopies := c.availableCopies);
        Step(lib.(books := lib.books[bookId := book]), Ok)
  }

  /** Removes a book and, by the cascade on the Borrow table's book column,
      every borrow of it, outstanding or not. */
  function DeleteBook(lib: Library, actor: Actor, bookId: BookId): (r: Step)
    ensures r.outcome == Ok || r.outcome == LoginRedirect || r.outcome == NotFound
    ensures r.outcome == LoginRedirect <==> !Admits(LibrarianRequired, PrincipalOf(lib, actor))
    ensures r.outcome == NotFound <==> Admits(LibrarianRequired, PrincipalOf(lib, actor)) && bookId !in lib.books
    ensures r.outcome != Ok ==> r.lib == lib
    ensures r.outcome == Ok ==>
      && r.lib.books.Keys == lib.books.Keys - {bookId}
      && (forall b :: b in r.lib.books ==> r.lib.books[b] == lib.books[b])
      && (forall k :: k in r.lib.borrows <==> k in lib.borrows && lib.borrows[k].book != bookId)
      && (forall k :: k in r.lib.borrows ==> r.lib.borrows[k] == lib.borrows[k])
      && r.lib == lib.(books := r.lib.books, borrows := r.lib.borrows)
  {
    if !Admits(LibrarianRequired, PrincipalOf(lib, actor)) then
      Step(lib, LoginRedirect)
    else if bookId !in lib.books then
      Step(lib, NotFound)
    else
      var borrows := map k | k in lib.borrows && lib.borrows[k].book != bookId :: lib.borrows[k];
      Step(lib.(books := lib.books - {bookId}, borrows := borrows), Ok)
  }

  /** Adding a book row keeps the borrow table's constraints and the
      counters ahead of the ids. */
  lemma ShelveKeepsBorrows(lib: Library, book: Book)
    requires BorrowsResolve(lib) && IdsBelowCounters(lib)
    ensures BorrowsResolve(Shelve(lib, book)) && IdsBelowCounters(Shelve(lib, book))
  {
  }

  /** A new book row that fits its columns, clashes with no other ISBN and
      names an existing account keeps every constraint. */
  lemma ShelveKeepsValid(lib: Library, book: Book)
    requires Valid(lib)
    requires book.availableCopies >= 0 && |book.isbn| <= ISBN_MAX_LENGTH
    requires forall b :: b in lib.books ==> lib.books[b].isbn != book.isbn
    requires UserRef(lib.users, book.addedBy)
    ensures Valid(Shelve(lib, book))
  {
    BookRowKeepsBooks(lib.books, lib.nextBook, book);
    ShelveKeepsBorrows(lib, book);
  }

  /** Overwriting an existing book row with one that fits its columns and
      clashes with no other ISBN keeps every constraint. */
  lemma RewriteKeepsValid(lib: Library, id: BookId, book: Book)
    requires Valid(lib) && id in lib.books
    requires book.availableCopies >= 0 && |book.isbn| <= ISBN_MAX_LENGTH
    requires forall b :: b in lib.books && b != id ==> lib.books[b].isbn != book.isbn
    requires UserRef(lib.users, book.addedBy)
    ensures Valid(lib.(books := lib.books[id := book]))
  {
    BookRowKeepsBooks(lib.books, id, book);
  }

  lemma AddBookPreservesValid(lib: Library, actor: Actor, f: BookForm, now: Time)
    requires Valid(lib)
    ensures Valid(AddBook(lib, actor, f, now).lib)
  {
    if AddBook(lib, actor, f, now).outcome == Ok {
      var c := CleanBookForm(lib.books, None, f).value;
      var book := Book(c.title, c.author, c.isbn, c.availableCopies, Some(actor.user), now);
      assert AddBook(lib, actor, f, now).lib == Shelve(lib, book);
      ShelveKeepsValid(lib, book);
    }
  }

  lemma EditBookPreservesValid(lib: Library, actor: Actor, bookId: BookId, f: BookForm)
    requires Valid(lib)
    ensures Valid(EditBook(lib, actor, bookId, f).lib)
  {
    var r := EditBook(lib, actor, bookId, f);
    if r.outcome == Ok {
      var book := r.lib.books[bookId];
      assert r.lib == lib.(books := lib.books[bookId := book]);
      RewriteKeepsValid(lib, bookId, book);
    }
  }

  lemma DeleteBookPreservesValid(lib: Library, actor: Actor, bookId: BookId)
    requires Valid(lib)
    ensures Valid(DeleteBook(lib, actor, bookId).lib)
  {
  }
}
