/**
  Borrow listings (library/views.py `logs`; the ordering of library/models.py
  `Borrow.Meta`): a filter by state and the newest-first order every Borrow
  query comes back in.
 */
module Listing {
  import opened Models
  import opened Roles

  /** The borrows the log page shows for a filter value: returned ones for
      "returned", outstanding ones for "unreturned", all of them otherwise
      (an absent filter parameter reads as "all"). */
  function LogFilter(borrows: map<BorrowId, Borrow>, filter: string): (r: set<BorrowId>)
    ensures r <= borrows.Keys
    ensures filter == "returned" ==> forall id :: id in borrows ==> (id in r <==> borrows[id].returned)
    ensures filter == "unreturned" ==> forall id :: id in borrows ==> (id in r <==> !borrows[id].returned)
    ensures filter != "returned" && filter != "unreturned" ==> r == borrows.Keys
  {
    if filter == "returned" then
      set id | id in borrows && borrows[id].returned
    else if filter == "unreturned" then
      set id | id in borrows && !borrows[id].returned
    else
      borrows.Keys
  }

  /** The two state filters split the full log: every borrow is in exactly
      one of them. */
  lemma FiltersPartitionLog(borrows: map<BorrowId, Borrow>)
    ensures LogFilter(borrows, "returned") + LogFilter(borrows, "unreturned") == LogFilter(borrows, "all")
    ensures LogFilter(borrows, "returned") * LogFilter(borrows, "unreturned") == {}
  {
  }

  /** All ids name borrows, and borrow dates never increase along the list. */
  predicate NewestFirst(borrows: map<BorrowId, Borrow>, s: seq<BorrowId>) {
    && (forall i :: 0 <= i < |s| ==> s[i] in borrows)
    && (forall i, j :: 0 <= i < j < |s| ==> borrows[s[i]].borrowDate >= borrows[s[j]].borrowDate)
  }

  /** Puts one more borrow into a newest-first list, in front of the first
      entry that is not newer than it. */
  function InsertNewestFirst(borrows: map<BorrowId, Borrow>, id: BorrowId, s: seq<BorrowId>): (r: seq<BorrowId>)
    requires id in borrows && NewestFirst(borrows, s)
    ensures NewestFirst(borrows, r)
    ensures multiset(r) == multiset(s) + multiset{id}
  {
    if s == [] then
      [id]
    else if borrows[id].borrowDate >= borrows[s[0]].borrowDate then
      [id] + s
    else
      var t := InsertNewestFirst(borrows, id, s[1..]);
      assert s == [s[0]] + s[1..];
      PrependKeepsNewestFirst(borrows, s[0], t, s[1..], id);
      [s[0]] + t
  }

  /** An entry no older than anything in a newest-first list may go in front
      of it. */
  lemma PrependKeepsNewestFirst(borrows: map<BorrowId, Borrow>, x: BorrowId, t: seq<BorrowId>, u: seq<BorrowId>, id: BorrowId)
    requires x in borrows && id in borrows && NewestFirst(borrows, t)
    requires multiset(t) == multiset(u) + multiset{id}
    requires forall y :: y in u ==> y in borrows && borrows[y].borrowDate <= borrows[x].borrowDate
    requires borrows[id].borrowDate <= borrows[x].borrowDate
    ensures NewestFirst(borrows, [x] + t)
  {
    forall k | 0 <= k < |t|
      ensures borrows[t[k]].borrowDate <= borrows[x].borrowDate
    {
      assert t[k] in multiset(t);
      assert t[k] == id || t[k] in multiset(u);
    }
  }

  /** Lists a set of borrows newest first, each exactly once. */
  method SortNewestFirst(borrows: map<BorrowId, Borrow>, ids: set<BorrowId>) returns (s: seq<BorrowId>)
    requires ids <= borrows.Keys
    ensures NewestFirst(borrows, s)
    ensures multiset(s) == multiset(ids)
  {
    s := [];
    var rest := ids;
    while rest != {}
      invariant rest <= ids
      invariant NewestFirst(borrows, s)
      invariant multiset(s) + multiset(rest) == multiset(ids)
      decreases |rest|
    {
      var id :| id in rest;
      s := InsertNewestFirst(borrows, id, s);
      assert multiset(rest) == multiset(rest - {id}) + multiset{id};
      rest := rest - {id};
    }
  }

  /** A repeated entry occurs at least twice. */
  lemma RepeatCountsTwice(s: seq<BorrowId>, i: nat, j: nat)
    requires i < j < |s| && s[i] == s[j]
    ensures multiset(s)[s[i]] >= 2
  {
    assert s == s[..i] + [s[i]] + s[i + 1..j] + [s[j]] + s[j + 1..];
  }

  /** A listing that holds every id of a set exactly once holds just those
      ids, with no repeats. */
  lemma ListingHoldsExactly(s: seq<BorrowId>, ids: set<BorrowId>)
    requires multiset(s) == multiset(ids)
    ensures forall id :: id in s <==> id in ids
    ensures forall i, j :: 0 <= i < j < |s| ==> s[i] != s[j]
  {
    forall id
      ensures id in s <==> id in ids
    {
      assert id in s <==> id in multiset(s);
    }
    forall i, j | 0 <= i < j < |s|
      ensures s[i] != s[j]
    {
      assert multiset(ids)[s[i]] <= 1;
      if s[i] == s[j] {
        RepeatCountsTwice(s, i, j);
      }
    }
  }

  /** The borrow log page for librarians: the filtered borrows, newest first. */
  method Logs(lib: Library, actor: Actor, filter: string) returns (outcome: Outcome, listing: seq<BorrowId>)
    ensures outcome == Ok || outcome == LoginRedirect
    ensures outcome == LoginRedirect <==> !Admits(LibrarianRequired, PrincipalOf(lib, actor))
    ensures outcome == LoginRedirect ==> listing == []
    ensures outcome == Ok ==>
      && NewestFirst(lib.borrows, listing)
      && multiset(listing) == multiset(LogFilter(lib.borrows, filter))
      // exactly the selected borrows, none of them twice
      && (forall id :: id in listing <==> id in LogFilter(lib.borrows, filter))
      && (forall i, j :: 0 <= i < j < |listing| ==> listing[i] != listing[j])
  {
    if !Admits(LibrarianRequired, PrincipalOf(lib, actor)) {
      return LoginRedirect, [];
    }
    listing := SortNewestFirst(lib.borrows, LogFilter(lib.borrows, filter));
    ListingHoldsExactly(listing, LogFilter(lib.borrows, filter));
    outcome := Ok;
  }
}
