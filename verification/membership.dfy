/**
  Member profiles (library/views.py `members`, `my_borrows`; the Member and
  Borrow columns of library/models.py): the librarian's member form, the
  get-or-create of a profile for a logged-in account, and the cascade that
  removes a member's borrows with it.
 */
module Membership {
  import opened Text
  import opened Models
  import opened Roles
  import opened Listing

  /** The domain of the placeholder email given to accounts without one. */
  const PLACEHOLDER_DOMAIN := "@example.com"

  function FullName(acc: Account): string {
    acc.firstName + " " + acc.lastName
  }

  /** Default profile name: "first last" with surrounding whitespace removed,
      or the username when that leaves nothing. */
  function ProfileName(acc: Account): (r: string)
    ensures AllSpace(FullName(acc)) ==> r == acc.username
    ensures !AllSpace(FullName(acc)) ==>
      && r == Strip(FullName(acc))
      && r != [] && !IsSpace(r[0]) && !IsSpace(r[|r| - 1])
  {
    var name := Strip(FullName(acc));
    if name != [] then name else acc.username
  }

  /** With both names filled in and no stray whitespace around them, the
      profile name is exactly "first last". */
  lemma ProfileNameJoinsNames(acc: Account)
    requires acc.firstName != [] && !IsSpace(acc.firstName[0])
    requires acc.lastName != [] && !IsSpace(acc.lastName[|acc.lastName| - 1])
    ensures ProfileName(acc) == acc.firstName + " " + acc.lastName
  {
    var full := FullName(acc);
    assert full[0] == acc.firstName[0];
    assert full[|full| - 1] == acc.lastName[|acc.lastName| - 1];
    StripKeepsStripped(full);
  }

  /** Default profile email: the account's email, or a placeholder built from
      the username when the account has none. */
  function ProfileEmail(acc: Account): (r: string)
    ensures r != []
    ensures acc.email != [] ==> r == acc.email
    ensures acc.email == [] ==>
      && |r| == |acc.username| + |PLACEHOLDER_DOMAIN|
      && r[..|acc.username|] == acc.username
      && r[|acc.username|..] == PLACEHOLDER_DOMAIN
  {
    if acc.email != [] then acc.email else acc.username + PLACEHOLDER_DOMAIN
  }

  /** The member linked to an account, if any; there is at most one. */
  function ProfileOf(members: map<MemberId, Member>, u: UserId): (r: Option<MemberId>)
    requires LinksUnique(members)
    ensures r.Some? <==> HasProfile(members, u)
    ensures r.Some? ==> r.value in members && members[r.value].user == Some(u)
  {
    if HasProfile(members, u) then
      var m :| m in members && members[m].user == Some(u);
      Some(m)
    else
      None
  }

  /** The state after a profile request, the outcome, the profile in use and
      whether it was created by this request. */
  datatype ProfileStep = ProfileStep(lib: Library, outcome: Outcome, member: Option<MemberId>, created: bool)

  /** The profile part of the member's own-borrows page: librarians are sent
      to the log page; any other logged-in account gets its existing profile,
      or a new one with default name and email. A default email that another
      member already uses makes the database refuse the new row. */
  function GetOrCreateProfile(lib: Library, actor: Actor, now: Time): (r: ProfileStep)
    requires LinksUnique(lib.members)
    ensures LinksUnique(r.lib.members)
    ensures r.outcome == Ok || r.outcome == LoginRedirect || r.outcome == RedirectedToLogs || r.outcome == Conflict
    ensures r.outcome == LoginRedirect <==> !Admits(LoginRequired, PrincipalOf(lib, actor))
    ensures r.outcome == RedirectedToLogs <==> IsLibrarian(PrincipalOf(lib, actor))
    // the get half: an existing profile is found and nothing changes
    ensures PrincipalOf(lib, actor).authenticated && !IsLibrarian(PrincipalOf(lib, actor))
              && HasProfile(lib.members, actor.user) ==>
      r.outcome == Ok && r.lib == lib && r.member == ProfileOf(lib.members, actor.user)
    // the create half fails exactly when the default email is taken
    ensures r.outcome == Conflict <==>
      && PrincipalOf(lib, actor).authenticated && !IsLibrarian(PrincipalOf(lib, actor))
      && !HasProfile(lib.members, actor.user)
      && EmailTaken(lib.members, ProfileEmail(lib.users[actor.user]))
    ensures r.created <==> r.outcome == Ok && !HasProfile(lib.members, actor.user)
    ensures !r.created ==> r.lib == lib
    ensures r.outcome != Ok ==> r.member == None
    ensures r.outcome == Ok ==>
      && actor.Session? && r.member.Some?
      && r.member.value in r.lib.members
      && r.lib.members[r.member.value].user == Some(actor.user)
      // the only profile of the account
      && (forall m :: m in r.lib.members && r.lib.members[m].user == Some(actor.user) ==> m == r.member.value)
  {
    var p := PrincipalOf(lib, actor);
    if !Admits(LoginRequired, p) then
      ProfileStep(lib, LoginRedirect, None, false)
    else if IsLibrarian(p) then
      ProfileStep(lib, RedirectedToLogs, None, false)
    else
      match ProfileOf(lib.members, actor.user)
      case Some(m) => ProfileStep(lib, Ok, Some(m), false)
      case None =>
        var r := CreateProfile(lib, actor.user, now);
        if r.created then
          LinkFreshProfile(lib.members, lib.nextMember, r.lib.members[lib.nextMember], actor.user, r.lib.members);
          r
        else
          r
  }

  /** The create half of the get-or-create: a new active profile with the
      default name and email, unless that email is already taken. */
  function CreateProfile(lib: Library, u: UserId, now: Time): (r: ProfileStep)
    requires u in lib.users
    ensures r.outcome == Ok || r.outcome == Conflict
    ensures r.outcome == Conflict <==> EmailTaken(lib.members, ProfileEmail(lib.users[u]))
    ensures r.created <==> r.outcome == Ok
    ensures !r.created ==> r.lib == lib && r.member == None
    ensures r.created ==>
      var id := lib.nextMember;
      var acc := lib.users[u];
      && r.member == Some(id)
      // the new row under the next id: linked to the account, with the
      // default name and email, active, joined now
      && r.lib.members.Keys == lib.members.Keys + {id}
      && r.lib.members[id] == Member(Some(u), ProfileName(acc), ProfileEmail(acc), now, true)
      && (forall m :: m in lib.members && m != id ==> r.lib.members[m] == lib.members[m])
      // one row more whenever the counter is ahead of the ids
      && (id !in lib.members ==> |r.lib.members| == |lib.members| + 1)
      // nothing else: books, borrows, accounts, groups and the other counters as they were
      && r.lib == lib.(members := r.lib.members, nextMember := id + 1)
  {
    var acc := lib.users[u];
    var email := ProfileEmail(acc);
    if EmailTaken(lib.members, email) then
      ProfileStep(lib, Conflict, None, false)
    else
      var profile := Member(Some(u), ProfileName(acc), email, now, true);
      EnrolAddsRow(lib, profile);
      ProfileStep(Enrol(lib, profile), Ok, Some(lib.nextMember), true)
  }

  /** Adds a member row under the next member id. */
  function Enrol(lib: Library, member: Member): Library {
    lib.(members := lib.members[lib.nextMember := member], nextMember := lib.nextMember + 1)
  }

  /** Enrolling puts the row under the next id, keeps the other rows and
      advances the counter; the table grows by one when the id is unused. */
  lemma EnrolAddsRow(lib: Library, member: Member)
    ensures var r := Enrol(lib, member);
      var id := lib.nextMember;
      && r.members.Keys == lib.members.Keys + {id}
      && r.members[id] == member
      && (forall m :: m in lib.members && m != id ==> r.members[m] == lib.members[m])
      && (id !in lib.members ==> |r.members| == |lib.members| + 1)
      && r == lib.(members := r.members, nextMember := id + 1)
  {
  }

  /** A new row whose email no member uses keeps emails unique. */
  lemma EnrolKeepsEmails(members: map<MemberId, Member>, id: MemberId, member: Member)
    requires EmailsUnique(members) && id !in members && !EmailTaken(members, member.email)
    ensures EmailsUnique(members[id := member])
  {
    var members' := members[id := member];
    forall m, m' | m in members' && m' in members' && m != m'
      ensures members'[m].email != members'[m'].email
    {
      if m != id && m' != id {
        assert members'[m] == members[m] && members'[m'] == members[m'];
      } else if m == id {
        assert members'[m'] == members[m'];
      } else {
        assert members'[m] == members[m];
      }
    }
  }

  /** A row linked to no account, or to one without a profile, keeps the
      link one to one. */
  lemma EnrolKeepsLinks(members: map<MemberId, Member>, id: MemberId, member: Member)
    requires LinksUnique(members)
    requires member.user.Some? ==> !HasProfile(members, member.user.value)
    ensures LinksUnique(members[id := member])
  {
    var members' := members[id := member];
    forall m, m' | m in members' && m' in members' && m != m' && members'[m].user.Some?
      ensures members'[m].user != members'[m'].user
    {
      if m != id && m' != id {
        assert members'[m] == members[m] && members'[m'] == members[m'];
      } else if m == id {
        assert members'[m'] == members[m'];
      } else {
        assert members'[m] == members[m];
      }
    }
  }

  /** Adding a member row keeps the borrow table's constraints and the
      counters ahead of the ids. */
  lemma EnrolKeepsBorrows(lib: Library, member: Member)
    requires BorrowsResolve(lib) && IdsBelowCounters(lib)
    ensures BorrowsResolve(Enrol(lib, member)) && IdsBelowCounters(Enrol(lib, member))
  {
  }

  /** Adding a member with an unused email, linked to no account or to one
      without a profile, keeps every constraint. */
  lemma EnrolKeepsValid(lib: Library, member: Member)
    requires Valid(lib) && !EmailTaken(lib.members, member.email)
    requires member.user.Some? ==> !HasProfile(lib.members, member.user.value)
    requires UserRef(lib.users, member.user)
    ensures Valid(Enrol(lib, member))
  {
    assert lib.nextMember !in lib.members;
    EnrolKeepsEmails(lib.members, lib.nextMember, member);
    EnrolKeepsLinks(lib.members, lib.nextMember, member);
    EnrolKeepsBorrows(lib, member);
  }

  /** The new profile of a first visit carries the defaults, and the
      visit is refused exactly when the default email is already taken. */
  lemma NewProfileDefaults(lib: Library, actor: Actor, now: Time)
    requires LinksUnique(lib.members)
    requires PrincipalOf(lib, actor).authenticated && !IsLibrarian(PrincipalOf(lib, actor))
    requires !HasProfile(lib.members, actor.user)
    ensures var r := GetOrCreateProfile(lib, actor, now);
      var acc := lib.users[actor.user];
      var id := lib.nextMember;
      && (r.outcome == Conflict <==> EmailTaken(lib.members, ProfileEmail(acc)))
      && (r.outcome == Ok ==>
            && r.created && r.member == Some(id)
            && r.lib.members.Keys == lib.members.Keys + {id}
            && r.lib.members[id] == Member(Some(actor.user), ProfileName(acc), ProfileEmail(acc), now, true)
            && (forall m :: m in lib.members && m != id ==> r.lib.members[m] == lib.members[m])
            // nothing else: books, borrows, accounts, groups and the other counters as they were
            && r.lib == lib.(members := r.lib.members, nextMember := id + 1))
  {
  }

  /** Linking a new profile to an account that has none keeps the link one
      to one, and the new profile is the account's only one. */
  lemma LinkFreshProfile(members: map<MemberId, Member>, id: MemberId, profile: Member, u: UserId, members': map<MemberId, Member>)
    requires LinksUnique(members) && !HasProfile(members, u) && profile.user == Some(u)
    requires members' == members[id := profile]
    ensures LinksUnique(members')
    ensures forall m :: m in members' && members'[m].user == Some(u) ==> m == id
  {
    EnrolKeepsLinks(members, id, profile);
  }

  /** Asking again finds the profile the first request settled on and
      creates nothing. */
  lemma GetOrCreateProfileIdempotent(lib: Library, actor: Actor, t1: Time, t2: Time)
    requires LinksUnique(lib.members)
    requires GetOrCreateProfile(lib, actor, t1).outcome == Ok
    ensures var r1 := GetOrCreateProfile(lib, actor, t1);
      var r2 := GetOrCreateProfile(r1.lib, actor, t2);
      && r2.outcome == Ok && !r2.created
      && r2.lib == r1.lib
      && r2.member == r1.member
  {
    var r1 := GetOrCreateProfile(lib, actor, t1);
    assert PrincipalOf(r1.lib, actor).authenticated;
    assert !IsLibrarian(PrincipalOf(r1.lib, actor));
  }

  /** A logged-in account that is not a librarian is a member once it has
      opened its own-borrows page, whatever its groups. */
  lemma ProfileVisitMakesMember(lib: Library, actor: Actor, now: Time)
    requires LinksUnique(lib.members)
    requires GetOrCreateProfile(lib, actor, now).outcome == Ok
    ensures GetUserRole(PrincipalOf(GetOrCreateProfile(lib, actor, now).lib, actor)) == "member"
  {
    var r := GetOrCreateProfile(lib, actor, now);
    assert r.lib.members[r.member.value].user == Some(actor.user);
    assert HasProfile(r.lib.members, actor.user);
  }

  lemma GetOrCreateProfilePreservesValid(lib: Library, actor: Actor, now: Time)
    requires Valid(lib)
    ensures Valid(GetOrCreateProfile(lib, actor, now).lib)
  {
    if GetOrCreateProfile(lib, actor, now).created {
      var acc := lib.users[actor.user];
      var profile := Member(Some(actor.user), ProfileName(acc), ProfileEmail(acc), now, true);
      assert GetOrCreateProfile(lib, actor, now).lib == Enrol(lib, profile);
      EnrolKeepsValid(lib, profile);
    }
  }

  /** The borrows of one member. */
  function MemberBorrows(borrows: map<BorrowId, Borrow>, m: MemberId): (r: set<BorrowId>)
    ensures r <= borrows.Keys
    ensures forall id :: id in borrows ==> (id in r <==> borrows[id].member == m)
  {
    set id | id in borrows && borrows[id].member == m
  }

  /** A profile created just now has no borrows yet. */
  lemma NewProfileHasNoBorrows(lib: Library, actor: Actor, now: Time)
    requires Valid(lib)
    requires GetOrCreateProfile(lib, actor, now).created
    ensures var r := GetOrCreateProfile(lib, actor, now);
      MemberBorrows(r.lib.borrows, r.member.value) == {}
  {
    var r := GetOrCreateProfile(lib, actor, now);
    assert lib.nextMember !in lib.members;
  }

  /** The member's own-borrows page: the profile step, then that member's
      borrows newest first. */
  method MyBorrows(lib: Library, actor: Actor, now: Time) returns (r: ProfileStep, listing: seq<BorrowId>)
    requires LinksUnique(lib.members)
    ensures r == GetOrCreateProfile(lib, actor, now)
    ensures r.outcome != Ok ==> listing == []
    ensures r.outcome == Ok ==>
      && r.member.Some?
      && NewestFirst(r.lib.borrows, listing)
      && multiset(listing) == multiset(MemberBorrows(r.lib.borrows, r.member.value))
      // exactly that member's borrows, none of them twice
      && (forall id :: id in listing <==> id in r.lib.borrows && r.lib.borrows[id].member == r.member.value)
      && (forall i, j :: 0 <= i < j < |listing| ==> listing[i] != listing[j])
  {
    r := GetOrCreateProfile(lib, actor, now);
    if r.outcome != Ok {
      return r, [];
    }
    listing := SortNewestFirst(r.lib.borrows, MemberBorrows(r.lib.borrows, r.member.value));
    ListingHoldsExactly(listing, MemberBorrows(r.lib.borrows, r.member.value));
  }

  /** The member form's cleaning: name and email stripped, non-empty, free
      of NUL characters and within their columns, and the email unused by any
      member. */
  function CleanMemberForm(members: map<MemberId, Member>, name: string, email: string): (r: Option<(string, string)>)
    ensures r.Some? ==>
      && r.value == (Strip(name), Strip(email))
      && 0 < |r.value.0| <= TEXT_MAX_LENGTH && TextFieldClean(r.value.0)
      && 0 < |r.value.1| <= EMAIL_MAX_LENGTH && TextFieldClean(r.value.1)
      && !EmailTaken(members, r.value.1)
    ensures r.None? ==>
      || AllSpace(name) || |Strip(name)| > TEXT_MAX_LENGTH || !TextFieldClean(Strip(name))
      || AllSpace(email) || |Strip(email)| > EMAIL_MAX_LENGTH || !TextFieldClean(Strip(email))
      || EmailTaken(members, Strip(email))
  {
    var n := Strip(name);
    var e := Strip(email);
    if && 0 < |n| <= TEXT_MAX_LENGTH && TextFieldClean(n)
       && 0 < |e| <= EMAIL_MAX_LENGTH && TextFieldClean(e)
       && !EmailTaken(members, e)
    then
      Some((n, e))
    else
      None
  }

  /** A librarian registers a member without a login account; the new
      member starts active and joins today. */
  function AddMember(lib: Library, actor: Actor, name: string, email: string, now: Time): (r: Step)
    ensures r.outcome == Ok || r.outcome == LoginRedirect || r.outcome == Invalid
    ensures r.outcome == LoginRedirect <==> !Admits(LibrarianRequired, PrincipalOf(lib, actor))
    ensures r.outcome == Invalid <==>
      Admits(LibrarianRequired, PrincipalOf(lib, actor)) && CleanMemberForm(lib.members, name, email).None?
    ensures r.outcome != Ok ==> r.lib == lib
    ensures r.outcome == Ok ==>
      var id := lib.nextMember;
      && r.lib.members.Keys == lib.members.Keys + {id}
      && r.lib.members[id] == Member(None, Strip(name), Strip(email), now, true)
      && (forall m :: m in lib.members && m != id ==> r.lib.members[m] == lib.members[m])
      // nothing else: books, borrows, accounts, groups and the other counters as they were
      && r.lib == lib.(members := r.lib.members, nextMember := id + 1)
  {
    if !Admits(LibrarianRequired, PrincipalOf(lib, actor)) then
      Step(lib, LoginRedirect)
    else
      match CleanMemberForm(lib.members, name, email)
      case None => Step(lib, Invalid)
      case Some((n, e)) =>
        Step(Enrol(lib, Member(None, n, e, now, true)), Ok)
  }

  lemma AddMemberPreservesValid(lib: Library, actor: Actor, name: string, email: string, now: Time)
    requires Valid(lib)
    ensures Valid(AddMember(lib, actor, name, email, now).lib)
  {
    if AddMember(lib, actor, name, email, now).outcome == Ok {
      EnrolKeepsValid(lib, Member(None, Strip(name), Strip(email), now, true));
    }
  }

  /** Removing a member row removes its borrows with it (the cascade on the
      Borrow table's member column). */
  function DeleteMember(lib: Library, memberId: MemberId): (r: Library)
    ensures r.members.Keys == lib.members.Keys - {memberId}
    ensures forall m :: m in r.members ==> r.members[m] == lib.members[m]
    ensures forall k :: k in r.borrows <==> k in lib.borrows && lib.borrows[k].member != memberId
    ensures forall k :: k in r.borrows ==> r.borrows[k] == lib.borrows[k]
    ensures r == lib.(members := r.members, borrows := r.borrows)
  {
    var borrows := map k | k in lib.borrows && lib.borrows[k].member != memberId :: lib.borrows[k];
    lib.(members := lib.members - {memberId}, borrows := borrows)
  }

  lemma DeleteMemberPreservesValid(lib: Library, memberId: MemberId)
    requires Valid(lib)
    ensures Valid(DeleteMember(lib, memberId))
  {
  }
}
