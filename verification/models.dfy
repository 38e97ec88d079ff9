/**
  The persisted state of the library: the Book, Member and Borrow tables, the
  user accounts with their group memberships, and the group table. Each table
  is a map from auto-increment ids to records; the `next…` counters play the
  role of the database's id sequences.

  `Valid` collects the constraints the database schema enforces (a column
  that cannot be negative, unique columns, the foreign keys between the
  tables and to the accounts, group memberships that name existing groups)
  and the id counters being ahead of the ids. The life cycle of a Borrow is
  kept by the handlers but is not a schema constraint, and stays outside.
 */
module Models {

  type UserId = nat
  type BookId = nat
  type MemberId = nat
  type BorrowId = nat

  /** An abstract clock reading; the model never compares it with wall time. */
  type Time = nat

  datatype Option<T> = None | Some(value: T)

  /** `max_length` of the ISBN column. */
  const ISBN_MAX_LENGTH := 13
  /** `max_length` of the book title, book author and member name columns. */
  const TEXT_MAX_LENGTH := 200
  /** Default `max_length` of an email column. */
  const EMAIL_MAX_LENGTH := 254

  datatype Book = Book(
    title: string,
    author: string,
    isbn: string,
    availableCopies: int,
    addedBy: Option<UserId>,
    addedDate: Time)

  /** A library patron; `user` links it to at most one login account. */
  datatype Member = Member(
    user: Option<UserId>,
    name: string,
    email: string,
    joinedDate: Time,
    isActive: bool)

  /** One loan of one copy of a book to a member. */
  datatype Borrow = Borrow(
    book: BookId,
    member: MemberId,
    borrowedBy: Option<UserId>,
    borrowDate: Time,
    returnDate: Option<Time>,
    returnedBy: Option<UserId>,
    returned: bool)

  /** A login account as far as the library looks at it: its names, its
      email and the names of the groups it belongs to. */
  datatype Account = Account(
    username: string,
    firstName: string,
    lastName: string,
    email: string,
    groups: set<string>)

  datatype Library = Library(
    books: map<BookId, Book>,
    members: map<MemberId, Member>,
    borrows: map<BorrowId, Borrow>,
    users: map<UserId, Account>,
    groups: seq<string>,
    nextBook: BookId,
    nextMember: MemberId,
    nextBorrow: BorrowId)

  /** Who sends a request: nobody logged in, or the session of an account. */
  datatype Actor = Anonymous | Session(user: UserId)

  /** What a request handler reports back, in place of its flash message and
      redirect. */
  datatype Outcome =
    | Ok
    | NotAvailable        // borrowing a book with no copy left
    | AlreadyReturned     // returning a borrow a second time
    | Forbidden           // returning somebody else's borrow
    | NotFound            // an id that names no row
    | LoginRedirect       // a role or login gate turned the request away
    | RedirectedToLogs    // a librarian asking for a member's own page
    | Invalid             // the submitted form did not validate
    | Conflict            // the database refused a row (a unique column)

  /** The state after a request together with its outcome. */
  datatype Step = Step(lib: Library, outcome: Outcome)

  /** The life cycle the handlers give a Borrow: empty return fields until it
      is returned, both set afterwards. The schema does not enforce it (the
      three columns are independent), so it is not part of `Valid`. */
  predicate Lifecycle(b: Borrow) {
    && (b.returned <==> b.returnDate.Some?)
    && (b.returned <==> b.returnedBy.Some?)
  }

  predicate CopiesNonNegative(books: map<BookId, Book>) {
    forall id :: id in books ==> books[id].availableCopies >= 0
  }

  predicate IsbnsFit(books: map<BookId, Book>) {
    forall id :: id in books ==> |books[id].isbn| <= ISBN_MAX_LENGTH
  }

  predicate IsbnsUnique(books: map<BookId, Book>) {
    forall id, id' :: id in books && id' in books && id != id' ==> books[id].isbn != books[id'].isbn
  }

  predicate EmailsUnique(members: map<MemberId, Member>) {
    forall m, m' :: m in members && m' in members && m != m' ==> members[m].email != members[m'].email
  }

  /** The one-to-one link: no account is linked to two members. */
  predicate LinksUnique(members: map<MemberId, Member>) {
    forall m, m' :: m in members && m' in members && m != m' && members[m].user.Some? ==>
      members[m].user != members[m'].user
  }

  /** An optional reference to an account names an existing account. */
  predicate UserRef(users: map<UserId, Account>, u: Option<UserId>) {
    u.Some? ==> u.value in users
  }

  /** The foreign keys to the User table: who added a book, */
  predicate AddersKnown(users: map<UserId, Account>, books: map<BookId, Book>) {
    forall id :: id in books ==> UserRef(users, books[id].addedBy)
  }

  /** the account of a member, */
  predicate LinksKnown(users: map<UserId, Account>, members: map<MemberId, Member>) {
    forall id :: id in members ==> UserRef(users, members[id].user)
  }

  /** and who lent and who took back a borrow. */
  predicate HandlersKnown(users: map<UserId, Account>, borrows: map<BorrowId, Borrow>) {
    forall id :: id in borrows ==> UserRef(users, borrows[id].borrowedBy) && UserRef(users, borrows[id].returnedBy)
  }

  /** Every Borrow points at an existing Book and Member (foreign keys). */
  predicate BorrowsResolve(lib: Library) {
    forall id :: id in lib.borrows ==>
      lib.borrows[id].book in lib.books && lib.borrows[id].member in lib.members
  }

  predicate BorrowsLifecycle(borrows: map<BorrowId, Borrow>) {
    forall id :: id in borrows ==> Lifecycle(borrows[id])
  }

  /** Group names are unique in the group table. */
  predicate NoDuplicates(s: seq<string>) {
    forall i, j :: 0 <= i < j < |s| ==> s[i] != s[j]
  }

  /** Every group an account belongs to is a row of the group table (the
      many-to-many between accounts and groups). */
  predicate GroupsKnown(lib: Library) {
    forall u, g :: u in lib.users && g in lib.users[u].groups ==> g in lib.groups
  }

  /** Ids handed out so far are all below the counters. */
  predicate IdsBelowCounters(lib: Library) {
    && (forall id :: id in lib.books ==> id < lib.nextBook)
    && (forall id :: id in lib.members ==> id < lib.nextMember)
    && (forall id :: id in lib.borrows ==> id < lib.nextBorrow)
  }

  predicate Valid(lib: Library) {
    && CopiesNonNegative(lib.books)
    && IsbnsFit(lib.books)
    && IsbnsUnique(lib.books)
    && EmailsUnique(lib.members)
    && LinksUnique(lib.members)
    && BorrowsResolve(lib)
    && AddersKnown(lib.users, lib.books)
    && LinksKnown(lib.users, lib.members)
    && HandlersKnown(lib.users, lib.borrows)
    && NoDuplicates(lib.groups)
    && GroupsKnown(lib)
    && IdsBelowCounters(lib)
  }

  /** Writing one book row that fits its columns and clashes with no other
      ISBN keeps the book table's constraints. */
  lemma BookRowKeepsBooks(books: map<BookId, Book>, id: BookId, book: Book)
    requires CopiesNonNegative(books) && IsbnsFit(books) && IsbnsUnique(books)
    requires book.availableCopies >= 0 && |book.isbn| <= ISBN_MAX_LENGTH
    requires forall b :: b in books && b != id ==> books[b].isbn != book.isbn
    ensures var books' := books[id := book];
      CopiesNonNegative(books') && IsbnsFit(books') && IsbnsUnique(books')
  {
    var books' := books[id := book];
    forall b, b' | b in books' && b' in books' && b != b'
      ensures books'[b].isbn != books'[b'].isbn
    {
      if b != id && b' != id {
        assert books'[b] == books[b] && books'[b'] == books[b'];
      }
    }
  }

  /** Some member already uses this email. */
  predicate EmailTaken(members: map<MemberId, Member>, email: string) {
    exists m :: m in members && members[m].email == email
  }

  /** The account has a linked member profile. */
  predicate HasProfile(members: map<MemberId, Member>, u: UserId) {
    exists m :: m in members && members[m].user == Some(u)
  }
}
