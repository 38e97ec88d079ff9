/**
  Sequences of requests against the library. Each handler runs as one atomic
  step; the schema's constraints hold after any sequence of them, and a run
  of borrows and returns alone keeps every book's stock (copies on the shelf
  plus copies out on loan) as it was.
 */
module Requests {
  import opened Models
  import opened Roles
  import opened Ledger
  import opened Catalog
  import opened Membership

  /** The state-changing requests of the library views, and the one-off
      setup of the default groups. */
  datatype Request =
    | BorrowRequest(actor: Actor, book: BookId, member: MemberId, now: Time)
    | ReturnRequest(actor: Actor, borrow: BorrowId, now: Time)
    | AddBookRequest(actor: Actor, form: BookForm, now: Time)
    | EditBookRequest(actor: Actor, book: BookId, form: BookForm)
    | DeleteBookRequest(actor: Actor, book: BookId)
    | AddMemberRequest(actor: Actor, name: string, email: string, now: Time)
    | MyBorrowsRequest(actor: Actor, now: Time)
    | SetupGroups

  /** The state after one request. */
  function Apply(lib: Library, req: Request): (r: Library)
    requires Valid(lib)
    ensures Valid(r)
    ensures BorrowsLifecycle(lib.borrows) ==> BorrowsLifecycle(r.borrows)
  {
    match req
    case BorrowRequest(a, b, m, t) =>
      BorrowPreservesValid(lib, a, b, m, t);
      BorrowKeepsLifecycle(lib, a, b, m, t);
      BorrowBook(lib, a, b, m, t).lib
    case ReturnRequest(a, id, t) =>
      ReturnPreservesValid(lib, a, id, t);
      ReturnKeepsLifecycle(lib, a, id, t);
      ReturnBook(lib, a, id, t).lib
    case AddBookRequest(a, f, t) =>
      AddBookPreservesValid(lib, a, f, t);
      AddBook(lib, a, f, t).lib
    case EditBookRequest(a, b, f) =>
      EditBookPreservesValid(lib, a, b, f);
      EditBook(lib, a, b, f).lib
    case DeleteBookRequest(a, b) =>
      DeleteBookPreservesValid(lib, a, b);
      SubTableKeepsLifecycle(lib.borrows, DeleteBook(lib, a, b).lib.borrows);
      DeleteBook(lib, a, b).lib
    case AddMemberRequest(a, n, e, t) =>
      AddMemberPreservesValid(lib, a, n, e, t);
      AddMember(lib, a, n, e, t).lib
    case MyBorrowsRequest(a, t) =>
      GetOrCreateProfilePreservesValid(lib, a, t);
      GetOrCreateProfile(lib, a, t).lib
    case SetupGroups =>
      lib.(groups := CreateDefaultGroups(lib.groups))
  }

  /** The state after a sequence of requests, applied in order. After any
      sequence no book's available-copy count is negative, ISBNs and member
      emails stay unique and every borrow still names its book and member.
      Borrows that followed the life cycle (return fields set exactly when
      returned) still follow it. */
  function Run(lib: Library, reqs: seq<Request>): (r: Library)
    requires Valid(lib)
    ensures Valid(r)
    ensures forall b :: b in r.books ==> r.books[b].availableCopies >= 0
    ensures BorrowsLifecycle(lib.borrows) ==> BorrowsLifecycle(r.borrows)
    decreases |reqs|
  {
    if reqs == [] then lib else Run(Apply(lib, reqs[0]), reqs[1..])
  }

  /** Rows kept from a table that follows the life cycle follow it too. */
  lemma SubTableKeepsLifecycle(borrows: map<BorrowId, Borrow>, kept: map<BorrowId, Borrow>)
    requires forall k :: k in kept ==> k in borrows && kept[k] == borrows[k]
    ensures BorrowsLifecycle(borrows) ==> BorrowsLifecycle(kept)
  {
  }

  /** Requests that only move copies between shelf and loans. */
  predicate LedgerOnly(reqs: seq<Request>) {
    forall i :: 0 <= i < |reqs| ==> reqs[i].BorrowRequest? || reqs[i].ReturnRequest?
  }

  /** However borrows and returns interleave, however often a borrow is
      returned and whoever asks, the catalog keeps its books and each book
      its stock: every borrow takes one copy, only its first return gives it
      back. */
  lemma {:induction false} LedgerRunConservesStock(lib: Library, reqs: seq<Request>)
    requires Valid(lib) && LedgerOnly(reqs)
    ensures Run(lib, reqs).books.Keys == lib.books.Keys
    ensures forall b :: b in lib.books ==> Stock(Run(lib, reqs), b) == Stock(lib, b)
    decreases |reqs|
  {
    if reqs != [] {
      var next := Apply(lib, reqs[0]);
      var req := reqs[0];
      if req.BorrowRequest? {
        BorrowConservesStock(lib, req.actor, req.book, req.member, req.now);
      } else {
        assert req.ReturnRequest?;
        ReturnConservesStock(lib, req.actor, req.borrow, req.now);
      }
      assert LedgerOnly(reqs[1..]) by {
        forall i | 0 <= i < |reqs[1..]|
          ensures reqs[1..][i].BorrowRequest? || reqs[1..][i].ReturnRequest?
        {
          assert reqs[1..][i] == reqs[i + 1];
        }
      }
      LedgerRunConservesStock(next, reqs[1..]);
    }
  }
}
