/**
  The borrow/return ledger (library/views.py `borrow_book`, `return_book`).
  A Borrow starts outstanding and is returned at most once; each direction
  moves the book's available-copy count by exactly one.
 */
module Ledger {
  import opened Models
  import opened Roles

  /** The account the borrow belongs to: the user linked to its member, if
      the member exists and has one. */
  function OwnerOf(lib: Library, b: Borrow): Option<UserId> {
    if b.member in lib.members then lib.members[b.member].user else None
  }

  /** A librarian may return any borrow, anybody else only their own. */
  predicate MayReturn(lib: Library, actor: Actor, b: Borrow) {
    IsLibrarian(PrincipalOf(lib, actor)) || (actor.Session? && OwnerOf(lib, b) == Some(actor.user))
  }

  /** Records a new loan under the next borrow id and takes one copy of its
      book off the shelf. */
  function Lend(lib: Library, loan: Borrow): Library
    requires loan.book in lib.books
  {
    var book := lib.books[loan.book];
    lib.(
      borrows := lib.borrows[lib.nextBorrow := loan],
      nextBorrow := lib.nextBorrow + 1,
      books := lib.books[loan.book := book.(availableCopies := book.availableCopies - 1)])
  }

  /** Marks a borrow returned by `u` at `now` and puts its copy back on the
      shelf (if its book still exists). */
  function Close(lib: Library, borrowId: BorrowId, now: Time, u: UserId): Library
    requires borrowId in lib.borrows
  {
    var b := lib.borrows[borrowId];
    var closed := b.(returned := true, returnDate := Some(now), returnedBy := Some(u));
    var books :=
      if b.book in lib.books then
        var book := lib.books[b.book];
        lib.books[b.book := book.(availableCopies := book.availableCopies + 1)]
      else
        lib.books;
    lib.(borrows := lib.borrows[borrowId := closed], books := books)
  }

  /** Lends one copy of a book to a member on behalf of a librarian. */
  function BorrowBook(lib: Library, actor: Actor, bookId: BookId, memberId: MemberId, now: Time): (r: Step)
    ensures r.outcome == LoginRedirect <==> !Admits(LibrarianRequired, PrincipalOf(lib, actor))
    ensures r.outcome == NotFound <==>
      Admits(LibrarianRequired, PrincipalOf(lib, actor)) && (bookId !in lib.books || memberId !in lib.members)
    ensures r.outcome == NotAvailable <==>
      && Admits(LibrarianRequired, PrincipalOf(lib, actor))
      && bookId in lib.books && memberId in lib.members
      && lib.books[bookId].availableCopies <= 0
    ensures r.outcome == Ok <==>
      && Admits(LibrarianRequired, PrincipalOf(lib, actor))
      && bookId in lib.books && memberId in lib.members
      && lib.books[bookId].availableCopies > 0
    ensures r.outcome != Ok ==> r.lib == lib
    ensures r.outcome == Ok ==>
      var id := lib.nextBorrow;
      && actor.Session?
      // exactly one new record, outstanding, made by the actor
      && r.lib.borrows.Keys == lib.borrows.Keys + {id}
      && r.lib.borrows[id].book == bookId && r.lib.borrows[id].member == memberId
      && r.lib.borrows[id].borrowedBy == Some(actor.user) && r.lib.borrows[id].borrowDate == now
      && !r.lib.borrows[id].returned
      && r.lib.borrows[id].returnDate == None && r.lib.borrows[id].returnedBy == None
      && (forall k :: k in lib.borrows && k != id ==> r.lib.borrows[k] == lib.borrows[k])
      // one copy fewer of that book, and no other book touched
      && r.lib.books.Keys == lib.books.Keys
      && r.lib.books[bookId].availableCopies == lib.books[bookId].availableCopies - 1
      && r.lib.books[bookId] == lib.books[bookId].(availableCopies := r.lib.books[bookId].availableCopies)
      && (forall b :: b in lib.books && b != bookId ==> r.lib.books[b] == lib.books[b])
      // nothing else: members, accounts, groups and the other counters as they were
      && r.lib == lib.(books := r.lib.books, borrows := r.lib.borrows, nextBorrow := id + 1)
  {
    if !Admits(LibrarianRequired, PrincipalOf(lib, actor)) then
      Step(lib, LoginRedirect)
    else if bookId !in lib.books || memberId !in lib.members then
      Step(lib, NotFound)
    else if lib.books[bookId].availableCopies > 0 then
      Step(Lend(lib, Borrow(bookId, memberId, Some(actor.user), now, None, None, false)), Ok)
    else
      Step(lib, NotAvailable)
  }

  /** Closes a borrow: the first return records who and when and puts the
      copy back; later returns only report that it was already returned. */
  function ReturnBook(lib: Library, actor: Actor, borrowId: BorrowId, now: Time): (r: Step)
    ensures r.outcome == LoginRedirect <==> !Admits(LoginRequired, PrincipalOf(lib, actor))
    ensures r.outcome == NotFound <==>
      Admits(LoginRequired, PrincipalOf(lib, actor)) && borrowId !in lib.borrows
    ensures r.outcome == Forbidden <==>
      && Admits(LoginRequired, PrincipalOf(lib, actor)) && borrowId in lib.borrows
      && !IsLibrarian(PrincipalOf(lib, actor)) && OwnerOf(lib, lib.borrows[borrowId]) != Some(actor.user)
    ensures r.outcome == AlreadyReturned <==>
      && Admits(LoginRequired, PrincipalOf(lib, actor)) && borrowId in lib.borrows
      && MayReturn(lib, actor, lib.borrows[borrowId]) && lib.borrows[borrowId].returned
    ensures r.outcome == Ok <==>
      && Admits(LoginRequired, PrincipalOf(lib, actor)) && borrowId in lib.borrows
      && MayReturn(lib, actor, lib.borrows[borrowId]) && !lib.borrows[borrowId].returned
    ensures r.outcome != Ok ==> r.lib == lib
    ensures r.outcome == Ok ==>
      var b := lib.borrows[borrowId];
      && actor.Session?
      // the record, and only it, moves to the returned state
      && r.lib.borrows.Keys == lib.borrows.Keys
      && r.lib.borrows[borrowId].returned
      && r.lib.borrows[borrowId].returnDate == Some(now)
      && r.lib.borrows[borrowId].returnedBy == Some(actor.user)
      && r.lib.borrows[borrowId].book == b.book && r.lib.borrows[borrowId].member == b.member
      && r.lib.borrows[borrowId].borrowedBy == b.borrowedBy && r.lib.borrows[borrowId].borrowDate == b.borrowDate
      && (forall k :: k in lib.borrows && k != borrowId ==> r.lib.borrows[k] == lib.borrows[k])
      // one copy more of its book, and no other book touched
      && r.lib.books.Keys == lib.books.Keys
      && (b.book in lib.books ==>
            && r.lib.books[b.book].availableCopies == lib.books[b.book].availableCopies + 1
            && r.lib.books[b.book] == lib.books[b.book].(availableCopies := r.lib.books[b.book].availableCopies))
      && (forall k :: k in lib.books && k != b.book ==> r.lib.books[k] == lib.books[k])
      // nothing else: members, accounts, groups and the counters as they were
      && r.lib == lib.(books := r.lib.books, borrows := r.lib.borrows)
  {
    if !Admits(LoginRequired, PrincipalOf(lib, actor)) then
      Step(lib, LoginRedirect)
    else if borrowId !in lib.borrows then
      Step(lib, NotFound)
    else
      var b := lib.borrows[borrowId];
      if !IsLibrarian(PrincipalOf(lib, actor)) && OwnerOf(lib, b) != Some(actor.user) then
        Step(lib, Forbidden)
      else if !b.returned then
        Step(Close(lib, borrowId, now, actor.user), Ok)
      else
        Step(lib, AlreadyReturned)
  }

  /** The outstanding borrows of a book. */
  function Outstanding(borrows: map<BorrowId, Borrow>, bookId: BookId): set<BorrowId> {
    set id | id in borrows && borrows[id].book == bookId && !borrows[id].returned
  }

  /** Copies on the shelf plus copies out on loan. */
  function Stock(lib: Library, bookId: BookId): int
    requires bookId in lib.books
  {
    lib.books[bookId].availableCopies + |Outstanding(lib.borrows, bookId)|
  }

  /** A new loan of an existing book to an existing member, under the next
      id, keeps the borrow table's constraints. */
  lemma LendKeepsBorrows(lib: Library, loan: Borrow)
    requires BorrowsResolve(lib) && IdsBelowCounters(lib)
    requires loan.book in lib.books && loan.member in lib.members
    ensures BorrowsResolve(Lend(lib, loan))
    ensures IdsBelowCounters(Lend(lib, loan))
  {
  }

  /** Lending an available copy to an existing member keeps every constraint. */
  lemma LendKeepsValid(lib: Library, loan: Borrow)
    requires Valid(lib)
    requires loan.book in lib.books && lib.books[loan.book].availableCopies > 0
    requires loan.member in lib.members
    requires UserRef(lib.users, loan.borrowedBy) && UserRef(lib.users, loan.returnedBy)
    ensures Valid(Lend(lib, loan))
  {
    var book := lib.books[loan.book];
    BookRowKeepsBooks(lib.books, loan.book, book.(availableCopies := book.availableCopies - 1));
    LendKeepsBorrows(lib, loan);
  }

  /** Closing a borrow keeps the borrow table's constraints. */
  lemma CloseKeepsBorrows(lib: Library, borrowId: BorrowId, now: Time, u: UserId)
    requires BorrowsResolve(lib) && IdsBelowCounters(lib)
    requires borrowId in lib.borrows
    ensures BorrowsResolve(Close(lib, borrowId, now, u))
    ensures IdsBelowCounters(Close(lib, borrowId, now, u))
  {
  }

  /** Closing an outstanding borrow keeps every constraint. */
  lemma CloseKeepsValid(lib: Library, borrowId: BorrowId, now: Time, u: UserId)
    requires Valid(lib) && borrowId in lib.borrows && !lib.borrows[borrowId].returned
    requires u in lib.users
    ensures Valid(Close(lib, borrowId, now, u))
  {
    var b := lib.borrows[borrowId];
    assert b.book in lib.books;
    var book := lib.books[b.book];
    BookRowKeepsBooks(lib.books, b.book, book.(availableCopies := book.availableCopies + 1));
    CloseKeepsBorrows(lib, borrowId, now, u);
  }

  lemma BorrowPreservesValid(lib: Library, actor: Actor, bookId: BookId, memberId: MemberId, now: Time)
    requires Valid(lib)
    ensures Valid(BorrowBook(lib, actor, bookId, memberId, now).lib)
  {
    if BorrowBook(lib, actor, bookId, memberId, now).outcome == Ok {
      LendKeepsValid(lib, Borrow(bookId, memberId, Some(actor.user), now, None, None, false));
    }
  }

  lemma ReturnPreservesValid(lib: Library, actor: Actor, borrowId: BorrowId, now: Time)
    requires Valid(lib)
    ensures Valid(ReturnBook(lib, actor, borrowId, now).lib)
  {
    if ReturnBook(lib, actor, borrowId, now).outcome == Ok {
      CloseKeepsValid(lib, borrowId, now, actor.user);
    }
  }

  /** A borrow starts outstanding with both return fields empty, so the life
      cycle of the borrow table is kept. */
  lemma BorrowKeepsLifecycle(lib: Library, actor: Actor, bookId: BookId, memberId: MemberId, now: Time)
    ensures BorrowsLifecycle(lib.borrows) ==> BorrowsLifecycle(BorrowBook(lib, actor, bookId, memberId, now).lib.borrows)
  {
    var r := BorrowBook(lib, actor, bookId, memberId, now);
    if BorrowsLifecycle(lib.borrows) && r.outcome == Ok {
      var id := lib.nextBorrow;
      forall k | k in r.lib.borrows
        ensures Lifecycle(r.lib.borrows[k])
      {
        if k != id {
          assert r.lib.borrows[k] == lib.borrows[k];
        }
      }
    }
  }

  /** A return sets the returned flag, the return date and the returner
      together, so the life cycle of the borrow table is kept. */
  lemma ReturnKeepsLifecycle(lib: Library, actor: Actor, borrowId: BorrowId, now: Time)
    ensures BorrowsLifecycle(lib.borrows) ==> BorrowsLifecycle(ReturnBook(lib, actor, borrowId, now).lib.borrows)
  {
    var r := ReturnBook(lib, actor, borrowId, now);
    if BorrowsLifecycle(lib.borrows) && r.outcome == Ok {
      forall k | k in r.lib.borrows
        ensures Lifecycle(r.lib.borrows[k])
      {
        if k != borrowId {
          assert r.lib.borrows[k] == lib.borrows[k];
        }
      }
    }
  }

  /** The outstanding borrows of a book after one more entry is written. */
  lemma OutstandingAfterWrite(borrows: map<BorrowId, Borrow>, id: BorrowId, loan: Borrow, bookId: BookId)
    ensures Outstanding(borrows[id := loan], bookId) ==
      (Outstanding(borrows, bookId) - {id}) + (if loan.book == bookId && !loan.returned then {id} else {})
  {
  }

  /** A new outstanding loan balances the copy it takes off the shelf. */
  lemma LendConservesStock(lib: Library, loan: Borrow, b: BookId)
    requires loan.book in lib.books && !loan.returned
    requires lib.nextBorrow !in lib.borrows
    requires b in lib.books
    ensures b in Lend(lib, loan).books && Stock(Lend(lib, loan), b) == Stock(lib, b)
  {
    var id := lib.nextBorrow;
    OutstandingAfterWrite(lib.borrows, id, loan, b);
    assert id !in Outstanding(lib.borrows, b);
  }

  /** Closing an outstanding borrow balances the copy it puts back. */
  lemma CloseConservesStock(lib: Library, borrowId: BorrowId, now: Time, u: UserId, b: BookId)
    requires borrowId in lib.borrows && !lib.borrows[borrowId].returned
    requires lib.borrows[borrowId].book in lib.books
    requires b in lib.books
    ensures b in Close(lib, borrowId, now, u).books && Stock(Close(lib, borrowId, now, u), b) == Stock(lib, b)
  {
    var closed := Close(lib, borrowId, now, u).borrows[borrowId];
    OutstandingAfterWrite(lib.borrows, borrowId, closed, b);
    assert borrowId in Outstanding(lib.borrows, b) <==> lib.borrows[borrowId].book == b;
  }

  /** A borrow moves one copy from the shelf to the loans: the stock of every
      book stays what it was. */
  lemma {:induction false} BorrowConservesStock(lib: Library, actor: Actor, bookId: BookId, memberId: MemberId, now: Time)
    requires Valid(lib)
    ensures var r := BorrowBook(lib, actor, bookId, memberId, now);
      && r.lib.books.Keys == lib.books.Keys
      && forall b :: b in lib.books ==> Stock(r.lib, b) == Stock(lib, b)
  {
    if BorrowBook(lib, actor, bookId, memberId, now).outcome == Ok {
      assert lib.nextBorrow !in lib.borrows;
      forall b | b in lib.books
        ensures Stock(BorrowBook(lib, actor, bookId, memberId, now).lib, b) == Stock(lib, b)
      {
        LendConservesStock(lib, Borrow(bookId, memberId, Some(actor.user), now, None, None, false), b);
      }
    }
  }

  /** A return moves one copy from the loans back to the shelf, and a repeated
      return moves nothing: the stock of every book stays what it was. */
  lemma {:induction false} ReturnConservesStock(lib: Library, actor: Actor, borrowId: BorrowId, now: Time)
    requires Valid(lib)
    ensures var r := ReturnBook(lib, actor, borrowId, now);
      && r.lib.books.Keys == lib.books.Keys
      && forall b :: b in lib.books ==> Stock(r.lib, b) == Stock(lib, b)
  {
    if ReturnBook(lib, actor, borrowId, now).outcome == Ok {
      forall b | b in lib.books
        ensures Stock(ReturnBook(lib, actor, borrowId, now).lib, b) == Stock(lib, b)
      {
        CloseConservesStock(lib, borrowId, now, actor.user, b);
      }
    }
  }

  /** Borrowing a copy and then returning that same borrow, by the librarian
      or by the member's own account, leaves the catalog as it was. */
  lemma BorrowThenReturnRestoresCopies(
    lib: Library, librarian: Actor, returner: Actor, bookId: BookId, memberId: MemberId, t1: Time, t2: Time)
    requires BorrowBook(lib, librarian, bookId, memberId, t1).outcome == Ok
    requires
      || IsLibrarian(PrincipalOf(lib, returner))
      || (returner.Session? && returner.user in lib.users && lib.members[memberId].user == Some(returner.user))
    ensures var s1 := BorrowBook(lib, librarian, bookId, memberId, t1).lib;
      var s2 := ReturnBook(s1, returner, lib.nextBorrow, t2);
      && s2.outcome == Ok
      && s2.lib.books == lib.books
      && s2.lib.members == lib.members
      && s2.lib.borrows.Keys == lib.borrows.Keys + {lib.nextBorrow}
      && s2.lib.borrows[lib.nextBorrow].returned
  {
    var s1 := BorrowBook(lib, librarian, bookId, memberId, t1).lib;
    assert PrincipalOf(s1, returner) == PrincipalOf(lib, returner);
    var s2 := ReturnBook(s1, returner, lib.nextBorrow, t2);
    assert s2.lib.books[bookId] == lib.books[bookId];
    assert s2.lib.books == lib.books;
  }

  /** A second return of the same borrow, by anybody, changes nothing: the
      count is not raised again and the recorded return is kept. */
  lemma SecondReturnChangesNothing(lib: Library, first: Actor, second: Actor, borrowId: BorrowId, t1: Time, t2: Time)
    requires ReturnBook(lib, first, borrowId, t1).outcome == Ok
    ensures var s1 := ReturnBook(lib, first, borrowId, t1).lib;
      var r2 := ReturnBook(s1, second, borrowId, t2);
      && r2.lib == s1
      && r2.outcome != Ok
      && (second == first ==> r2.outcome == AlreadyReturned)
      && s1.borrows[borrowId].returnDate == Some(t1)
      && s1.borrows[borrowId].returnedBy == Some(first.user)
  {
    var s1 := ReturnBook(lib, first, borrowId, t1).lib;
    assert PrincipalOf(s1, first) == PrincipalOf(lib, first);
    assert OwnerOf(s1, s1.borrows[borrowId]) == OwnerOf(lib, lib.borrows[borrowId]);
  }

  /** The member's active flag plays no part in borrowing: an inactive member
      can be lent a book like any other. */
  lemma InactiveMemberCanBorrow(lib: Library, actor: Actor, bookId: BookId, memberId: MemberId, now: Time)
    requires IsLibrarian(PrincipalOf(lib, actor))
    requires bookId in lib.books && lib.books[bookId].availableCopies > 0
    requires memberId in lib.members && !lib.members[memberId].isActive
    ensures BorrowBook(lib, actor, bookId, memberId, now).outcome == Ok
  {
  }
}
