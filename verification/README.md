# Library borrow/return ledger and role checks, in Dafny

This project models the core of a small library-management web application:
librarians catalog books and register members, books are lent to members and
returned, and every request is gated by a role derived from the account's
groups and member profile. The model is functional. The state is a
`Library` value, with maps from ids to `Book`, `Member` and `Borrow` rows,
the user accounts with their group names, the group table and the
auto-increment counters. Each request handler is a pure function from a state
to the next state plus an `Outcome`. The outcome replaces the handler's flash
message and redirect:

- `Ok`
- `NotAvailable`
- `AlreadyReturned`
- `Forbidden`
- `NotFound`
- `LoginRedirect`
- `RedirectedToLogs`
- `Invalid`
- `Conflict`

Modules:

- `Text`: Python's `str.strip()`, used for the default profile name and by
  form cleaning, and the form text fields' refusal of NUL characters.
- `Models`: the three tables, the accounts and the schema's constraints
  (`Valid`). These are: non-negative copy counts, ISBN length and uniqueness,
  unique member emails, and at most one member per account. They also
  cover the foreign keys: borrows to books and members, and every reference
  to an account (who added a book, a member's account, who lent and who took
  back a borrow). Account groups must exist in the group table. The life
  cycle of a Borrow (`Models.BorrowsLifecycle`: return date and returner set
  exactly when returned) is not a schema constraint, because the three
  columns are independent and a row may be written with `returned` set and
  no returner. It is kept separately: the handlers preserve it, and
  `Requests.Apply` and `Requests.Run` carry it along next to `Valid`.
- `Roles`: `is_librarian`, `is_member`, `get_user_role`, the access gates,
  the home-page dispatch and the default-group setup.
- `Ledger`: `borrow_book` and `return_book`, with the conservation of each
  book's stock. Stock means copies on the shelf plus outstanding borrows.
- `Listing`: the `logs` filter and the newest-first order of borrow listings.
- `Catalog`: `add_book`, `edit_book` and `delete_book`, with the book form's
  validation and the cascade to borrows.
- `Membership`: the default profile name and email, the `my_borrows`
  get-or-create, the `members` form, and the member cascade.
- `Requests`: arbitrary sequences of requests. The constraints hold after
  any sequence. A run of only borrows and returns keeps every book's stock.

The clock is an abstract natural number passed to each handler as `now`. The
current request's user is an `Actor`: either `Anonymous` or the `Session` of
an account id. A session whose account id is not in the user table counts as
anonymous.

Several behaviours of the code are easy to misread; the model keeps them
as the code has them:

- The ISBN column is at most 13 characters, not fixed-length.
- Deleting a book or a member deletes its borrows, through the cascade on
  the Borrow table.
- When a first visit to the own-borrows page would create a profile whose
  default email another member already uses, the code does not report a
  validation error. The database refuses the row and the request fails with
  an integrity error, leaving no new row. The model reports this as
  `Conflict` with the state unchanged.
- `borrow_book` does not look at `Member.is_active`. Only the member drop-down
  of the borrow form filters inactive members, so an inactive member can
  still be lent a book (`Ledger.InactiveMemberCanBorrow`).
- Opening the own-borrows page gives an authenticated account with neither
  group a profile, which makes it a member from then on
  (`Membership.ProfileVisitMakesMember`).

## Model

| member | source | states |
|---|---|---|
| `Text.Strip` | library/views.py:204 | The result has no whitespace at either end, is no longer than the input, and is empty exactly when the input is all whitespace (Python's whitespace set) |
| `Text.StripIsSlice` | library/views.py:204 | The stripped text is a contiguous piece of the input, and everything removed on either side is whitespace |
| `Text.StripKeepsStripped` | library/views.py:204 | A string with no whitespace at either end comes out of stripping unchanged |
| `Text.StripIdempotent` | library/views.py:204 | Stripping an already stripped string changes nothing |
| `Roles.PrincipalOf` | library/utils.py:6-17 | A request is authenticated exactly when it has a session of an existing account; the role checks then see that account's groups and whether a member profile is linked to it |
| `Roles.IsLibrarian` | library/utils.py:6-10 | Defined as: authenticated and in the "Librarian" group |
| `Roles.IsMember` | library/utils.py:13-17 | Defined as: authenticated, and either in the "Member" group or with a linked member profile |
| `Roles.Admits` | library/utils.py:20-29 | Defined as: the librarian gate admits exactly librarians, the member gate exactly members, the login gate exactly authenticated users |
| `Roles.GetUserRole` | library/utils.py:32-39 | The role is one of "librarian", "member", "guest": "librarian" exactly when `is_librarian` holds, "member" exactly when `is_member` holds and `is_librarian` does not, "guest" otherwise |
| `Roles.AnonymousIsGuest` | library/utils.py:6-17 | An unauthenticated user is neither librarian nor member and resolves to "guest" |
| `Roles.UnaffiliatedIsGuest` | library/utils.py:32-39 | An authenticated user in neither group and without a profile resolves to "guest" |
| `Roles.LibrarianTakesPriority` | library/utils.py:34-37 | A user who is both librarian and member resolves to "librarian" |
| `Roles.GatesNeedLogin` | library/utils.py:20-29 | Both role gates and the login gate admit only authenticated users |
| `Roles.HomeRedirect` | library/views.py:14-21 | The site root sends a user to the book list exactly when their role is librarian, to their own borrows exactly when it is member, and to the login page exactly when it is guest |
| `Roles.GetOrCreateGroup` | library/utils.py:44-45 | The named group exists afterwards; an existing group is not created again; a table without duplicate names keeps none |
| `Roles.CreateDefaultGroups` | library/utils.py:42-46 | Afterwards "Librarian" and "Member" exist; no other group is added or removed; the existing rows stay in place; names stay unique |
| `Roles.CreateDefaultGroupsIdempotent` | library/utils.py:42-46 | Running the setup a second time changes nothing |
| `Roles.DefaultGroupsExactlyOnce` | library/utils.py:42-46 | After the setup each default group occupies exactly one row of the table |
| `Models.Valid` | library/models.py:6-42 | Defined as the conjunction of the schema's constraints: non-negative counts, ISBNs of at most 13 characters and unique, unique member emails, one member per account, borrows that reference an existing book and member, account references (`added_by`, `Member.user`, `borrowed_by`, `returned_by`) that name existing accounts, unique group names, account groups present in the group table, and ids below the counters |
| `Ledger.OwnerOf` | library/views.py:149 | Defined as: the account linked to the borrow's member, if the member exists and has one |
| `Ledger.MayReturn` | library/views.py:149 | Defined as: the actor is a librarian, or is logged in as the account that owns the borrow |
| `Ledger.BorrowBook` | library/views.py:118-140 | Non-librarians are turned away with no change. A missing book or member gives NotFound. With no copy left the result is NotAvailable and nothing changes. Otherwise exactly one new outstanding Borrow is added: made by the actor, with no return date and no returner. That book's count drops by exactly 1, the borrow counter advances, and nothing else in the state changes |
| `Ledger.ReturnBook` | library/views.py:143-172 | Anonymous requests are turned away. A missing borrow gives NotFound. A non-librarian returning a borrow not linked to their account gets Forbidden with no change; a librarian is never Forbidden. A returned borrow gives AlreadyReturned with no change. Otherwise only that record becomes returned, with the return time and the actor, and its book's count rises by exactly 1; nothing else in the state changes |
| `Ledger.BorrowPreservesValid` | library/views.py:124-134 | A borrow keeps every schema constraint; in particular no count goes negative |
| `Ledger.ReturnPreservesValid` | library/views.py:153-163 | A return keeps every schema constraint: the book and member still exist, the returning account is a known account, and the copy count stays non-negative |
| `Ledger.BorrowKeepsLifecycle` | library/views.py:124-134 | If every borrow had its return fields set exactly when returned, that still holds after a borrow request: the new Borrow starts with no return date and no returner |
| `Ledger.ReturnKeepsLifecycle` | library/views.py:153-163 | If every borrow had its return fields set exactly when returned, that still holds after a return: the flag, the date and the returner are set together |
| `Ledger.LendConservesStock` | library/views.py:126-134 | Recording a new outstanding loan of a book and taking one copy of it off the shelf leaves that book's, and every other book's, stock unchanged |
| `Ledger.CloseConservesStock` | library/views.py:155-163 | Marking an outstanding borrow returned and putting one copy back on the shelf leaves every book's stock unchanged |
| `Ledger.BorrowConservesStock` | library/views.py:124-134 | Whatever the outcome, a borrow keeps every book's copies-on-shelf plus outstanding borrows unchanged |
| `Ledger.ReturnConservesStock` | library/views.py:153-167 | Whatever the outcome, a return (first or repeated) keeps every book's copies-on-shelf plus outstanding borrows unchanged |
| `Ledger.BorrowThenReturnRestoresCopies` | library/views.py:124-163 | A successful borrow followed by a return of that same borrow, by a librarian or by the member's own account, succeeds. Afterwards the book table equals what it was before the borrow, and the new borrow stays on record as returned |
| `Ledger.SecondReturnChangesNothing` | library/views.py:153-167 | A second return of an already returned borrow, by anybody, leaves the state unchanged and never succeeds. It reports AlreadyReturned when the same user repeats it. The first return's date and returner are kept |
| `Ledger.InactiveMemberCanBorrow` | library/views.py:121-130 | Borrowing for an inactive member succeeds like any other borrow |
| `Listing.LogFilter` | library/views.py:178-185 | "returned" selects exactly the returned borrows, "unreturned" exactly the outstanding ones, any other value all borrows |
| `Listing.FiltersPartitionLog` | library/views.py:180-185 | The "returned" and "unreturned" selections are disjoint and together make up the full log |
| `Listing.InsertNewestFirst` | library/models.py:47-48 | Inserting into a newest-first list gives a newest-first list holding exactly one more entry, the inserted one |
| `Listing.SortNewestFirst` | library/models.py:47-48 | The listing holds each requested borrow exactly once and orders them by borrow date, most recent first |
| `Listing.Logs` | library/views.py:175-191 | Non-librarians are turned away with an empty listing. Librarians get a listing that holds an id exactly when the filter selects it, never twice, most recent first |
| `Catalog.CleanBookForm` | library/models.py:7-10 | An accepted form holds stripped, non-empty title and author of at most 200 characters, a stripped non-empty ISBN of at most 13 characters used by no other book, no NUL character in any of the three, and a non-negative count. A rejected form breaks one of these |
| `Catalog.AddBook` | library/views.py:217-231 | Non-librarians are turned away and invalid forms rejected, both with no change. Otherwise exactly one new book is added with the cleaned fields, added by the actor at the current time. Nothing else changes |
| `Catalog.EditBook` | library/views.py:234-248 | Non-librarians are turned away; a missing book gives NotFound; an invalid form changes nothing. Otherwise only that book's title, author, ISBN and count are overwritten with the cleaned fields; who added it and when are kept |
| `Catalog.DeleteBook` | library/views.py:251-262 | Non-librarians are turned away; a missing book gives NotFound. Otherwise the book is removed, with exactly the borrows that reference it, whether outstanding or not. Other books and borrows are untouched |
| `Catalog.AddBookPreservesValid` | library/models.py:9-10 | Adding a book keeps ISBNs unique and short and counts non-negative |
| `Catalog.EditBookPreservesValid` | library/models.py:9-10 | Editing a book keeps ISBNs unique and short and counts non-negative |
| `Catalog.DeleteBookPreservesValid` | library/models.py:36 | After the cascade every borrow still references an existing book |
| `Membership.ProfileName` | library/views.py:204 | The default name is "first last" stripped, with no whitespace at either end, or the username when that is blank |
| `Membership.ProfileNameJoinsNames` | library/views.py:204 | With both names filled in and no stray whitespace around them, the default name is exactly first name, a space, last name |
| `Membership.ProfileEmail` | library/views.py:205 | The default email is never empty: it is the account's email, or the username followed by "@example.com" |
| `Membership.ProfileOf` | library/models.py:22 | Finds the member linked to an account exactly when one exists |
| `Membership.GetOrCreateProfile` | library/views.py:194-207 | Anonymous requests are turned away. Librarians are sent to the log page. Otherwise the result is a profile linked to the account, and it is the account's only one. An existing profile is returned as it is and nothing changes. A new one is created exactly when the account had none. The request fails with a conflict exactly when the account has no profile and the default email of a new one is already taken. At most one member per account still holds afterwards |
| `Membership.CreateProfile` | library/views.py:201-207 | The database refuses the new profile exactly when its default email is taken, and then nothing changes. Otherwise the next member id holds a new row linked to the account, with the default name and email, active and joined now. The other rows are kept and the table grows by exactly one row when that id was unused. Nothing else in the state changes except the member counter |
| `Membership.NewProfileDefaults` | library/views.py:201-207 | A first visit fails exactly when the default email is taken. On success it creates exactly one member, linked to the account, with the default name and email, active, joined now. Nothing else changes |
| `Membership.GetOrCreateProfileIdempotent` | library/views.py:201-207 | A second visit finds the same profile, creates nothing and leaves the state unchanged |
| `Membership.ProfileVisitMakesMember` | library/utils.py:13-17 | After a successful visit, an authenticated non-librarian resolves to "member" |
| `Membership.GetOrCreateProfilePreservesValid` | library/models.py:22-24 | The get-or-create keeps emails unique and at most one member per account |
| `Membership.MemberBorrows` | library/views.py:208 | Selects exactly the borrows of the given member |
| `Membership.NewProfileHasNoBorrows` | library/views.py:201-208 | A profile created by this visit has no borrows |
| `Membership.MyBorrows` | library/views.py:194-214 | The page performs the profile step; on success the listing holds a borrow exactly when it belongs to that member, never twice, most recent first; otherwise it lists nothing |
| `Membership.CleanMemberForm` | library/models.py:23-24 | An accepted form holds a stripped non-empty name of at most 200 characters and a stripped non-empty email of at most 254 characters unused by any member, neither holding a NUL character; a rejected form breaks one of these |
| `Membership.AddMember` | library/views.py:97-115 | Non-librarians are turned away and invalid forms rejected, with no change. Otherwise exactly one member is added: no linked account, active, joined now, with the cleaned name and email |
| `Membership.AddMemberPreservesValid` | library/models.py:24 | Adding a member keeps member emails unique |
| `Membership.DeleteMember` | library/models.py:37 | Removing a member removes exactly the borrows that reference it and nothing else |
| `Membership.DeleteMemberPreservesValid` | library/models.py:35-37 | After the cascade every borrow still references an existing member |
| `Requests.Apply` | library/views.py:118-262 | Every state-changing request, from any valid state, leads to a valid state, and borrows that followed the life cycle still follow it |
| `Requests.Run` | library/models.py:10 | After any sequence of requests every constraint holds; in particular no book's available-copy count is negative. Borrows that followed the life cycle still follow it |
| `Requests.LedgerRunConservesStock` | library/views.py:124-163 | Over any sequence of borrows and returns, however often a borrow is returned, the set of books and every book's stock stay as they were |

## Left out

- HTTP handling, flash messages, templates and the pages that only render (the catalog list, the member list, the GET forms of add/edit/delete). Outcomes stand in for messages and redirects.
- The redirect target after a return (the log page for librarians, the own-borrows page otherwise). It does not affect the state.
- The borrow form on the book list. It only redirects to `borrow_book`.
- Login and logout (library/views.py:49-72). These are framework-provided session handling.
- Registration (`register`, library/views.py:24-46). This is the project's own view. It creates the account through the framework's user-creation form, adds it to the Member group and creates a member profile with the same defaults as `Membership.ProfileName` and `Membership.ProfileEmail`. The account creation and the form's password checks are framework code, so the view is left out. The profile step is the create half of `Membership.GetOrCreateProfile`.
- Deleting user accounts. Their cascades (member profile) and SET_NULL columns (`added_by`, `borrowed_by`, `returned_by`) are therefore not modelled. Without account deletion, a returned borrow always keeps its returner.
- Transactions and concurrency. Each handler is one atomic step.
- Wall-clock time. `now` is an abstract natural number supplied by the caller, and the model never checks that it increases.
- Catalog.CleanBookForm: does not apply the upper bound the database backend sets on the copy column (a range validator whose limit depends on the configured database), so counts are unbounded integers and a return always adds one.
- The admin interface, the seeding commands and the template tags. The template tags only wrap `is_librarian` and `is_member`.
- The `available_copies` default of 0. No modelled handler uses it, because the book form makes the field required.
- Membership.CleanMemberForm: does not check the syntax of the email address, which Django's email validator does, because that validator is outside the modelled code.
- Catalog.CleanBookForm: the count is taken as an already parsed integer, so a non-numeric submission is not modelled.
- Membership.GetOrCreateProfile: Django would raise an error if two members were linked to one account. The function instead requires the one-to-one constraint (`LinksUnique`), which the database guarantees.
