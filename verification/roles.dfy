/**
  Role resolution and access gates (library/utils.py), the role dispatch of
  the home page (library/views.py `home_redirect`), and the idempotent
  creation of the two default groups.
 */
module Roles {
  import opened Models

  const LIBRARIAN_GROUP := "Librarian"
  const MEMBER_GROUP := "Member"

  /** What the role checks look at: whether the request is authenticated, the
      account's group names, and whether a member profile is linked to it. */
  datatype Principal = Principal(authenticated: bool, groups: set<string>, hasProfile: bool)

  /** The principal behind a request. A session whose account no longer
      exists is anonymous, as session authentication then yields no user. */
  function PrincipalOf(lib: Library, actor: Actor): (p: Principal)
    ensures p.authenticated <==> actor.Session? && actor.user in lib.users
    ensures p.authenticated ==>
      && p.groups == lib.users[actor.user].groups
      && (p.hasProfile <==> HasProfile(lib.members, actor.user))
    ensures !p.authenticated ==> p.groups == {} && !p.hasProfile
  {
    if actor.Session? && actor.user in lib.users then
      Principal(true, lib.users[actor.user].groups, HasProfile(lib.members, actor.user))
    else
      Principal(false, {}, false)
  }

  predicate IsLibrarian(p: Principal) {
    p.authenticated && LIBRARIAN_GROUP in p.groups
  }

  predicate IsMember(p: Principal) {
    p.authenticated && (MEMBER_GROUP in p.groups || p.hasProfile)
  }

  /** The role name shown to the user; the librarian check comes first. */
  function GetUserRole(p: Principal): (r: string)
    ensures r == "librarian" || r == "member" || r == "guest"
    ensures r == "librarian" <==> IsLibrarian(p)
    ensures r == "member" <==> !IsLibrarian(p) && IsMember(p)
    ensures r == "guest" <==> !IsLibrarian(p) && !IsMember(p)
  {
    if IsLibrarian(p) then "librarian"
    else if IsMember(p) then "member"
    else "guest"
  }

  /** An unauthenticated request never has the librarian or member role. */
  lemma AnonymousIsGuest(p: Principal)
    requires !p.authenticated
    ensures !IsLibrarian(p) && !IsMember(p)
    ensures GetUserRole(p) == "guest"
  {
  }

  /** Logged in, but in neither group and without a profile: still a guest. */
  lemma UnaffiliatedIsGuest(p: Principal)
    requires p.authenticated
    requires LIBRARIAN_GROUP !in p.groups && MEMBER_GROUP !in p.groups && !p.hasProfile
    ensures GetUserRole(p) == "guest"
  {
  }

  /** The librarian role wins over the member role. */
  lemma LibrarianTakesPriority(p: Principal)
    requires IsLibrarian(p) && IsMember(p)
    ensures GetUserRole(p) == "librarian"
  {
  }

  /** The gates a request handler can be wrapped in. */
  datatype Gate = LibrarianRequired | MemberRequired | LoginRequired

  /** Whether the gate lets the request through to the handler. */
  predicate Admits(g: Gate, p: Principal) {
    match g
    case LibrarianRequired => IsLibrarian(p)
    case MemberRequired => IsMember(p)
    case LoginRequired => p.authenticated
  }

  /** Every gate turns unauthenticated requests away. */
  lemma GatesNeedLogin(g: Gate, p: Principal)
    requires Admits(g, p)
    ensures p.authenticated
  {
  }

  /** Where the site root sends a request. */
  datatype Page = BookListPage | MyBorrowsPage | LoginPage

  /** The home page dispatch: to the catalog for librarians, to the member's
      own borrows for members, to the login page for everybody else. */
  function HomeRedirect(p: Principal): (r: Page)
    ensures r == BookListPage <==> GetUserRole(p) == "librarian"
    ensures r == MyBorrowsPage <==> GetUserRole(p) == "member"
    ensures r == LoginPage <==> GetUserRole(p) == "guest"
  {
    if p.authenticated then
      if IsLibrarian(p) then BookListPage
      else if IsMember(p) then MyBorrowsPage
      else LoginPage
    else
      LoginPage
  }

  /** A get-or-create on the group table, whose name column is unique. */
  function GetOrCreateGroup(table: seq<string>, name: string): (r: seq<string>)
    ensures name in r
    ensures name in table ==> r == table
    ensures name !in table ==> r == table + [name]
    ensures NoDuplicates(table) ==> NoDuplicates(r)
  {
    if name in table then table else table + [name]
  }

  /** Makes sure both default groups exist. */
  function CreateDefaultGroups(table: seq<string>): (r: seq<string>)
    ensures LIBRARIAN_GROUP in r && MEMBER_GROUP in r
    ensures forall g :: g in r <==> g in table || g == LIBRARIAN_GROUP || g == MEMBER_GROUP
    ensures |table| <= |r| && r[..|table|] == table
    ensures NoDuplicates(table) ==> NoDuplicates(r)
  {
    GetOrCreateGroup(GetOrCreateGroup(table, LIBRARIAN_GROUP), MEMBER_GROUP)
  }

  /** Running the setup again changes nothing. */
  lemma CreateDefaultGroupsIdempotent(table: seq<string>)
    ensures CreateDefaultGroups(CreateDefaultGroups(table)) == CreateDefaultGroups(table)
  {
  }

  /** The rows of the table that carry the given name. */
  function Positions(table: seq<string>, name: string): set<nat> {
    set i: nat | i < |table| && table[i] == name
  }

  /** In a table with unique names, a present name sits in exactly one row. */
  lemma {:induction false} PresentOnce(table: seq<string>, name: string)
    requires NoDuplicates(table) && name in table
    ensures |Positions(table, name)| == 1
  {
    var k :| 0 <= k < |table| && table[k] == name;
    assert Positions(table, name) == {k};
  }

  /** After the setup, each default group exists exactly once. */
  lemma DefaultGroupsExactlyOnce(table: seq<string>)
    requires NoDuplicates(table)
    ensures |Positions(CreateDefaultGroups(table), LIBRARIAN_GROUP)| == 1
    ensures |Positions(CreateDefaultGroups(table), MEMBER_GROUP)| == 1
  {
    PresentOnce(CreateDefaultGroups(table), LIBRARIAN_GROUP);
    PresentOnce(CreateDefaultGroups(table), MEMBER_GROUP);
  }
}
