# Library Hub loan and account rules, in Dafny

This project models the parts of the Library Hub backend that have real rules:

- **The loan state machine** of `TransactionsService`. A transaction (loan) is Requested, Borrowed, Returned, Overdue or Rejected. Each loan points at a book whose `quantity` counts the copies available to lend. There are five operations: `borrowBook`, `createBorrowRequest`, `approveBorrowRequest`, `rejectBorrowRequest` and the librarian override `updateTransactionStatus`. The model is the class `Loans.Library`, which holds the book table (id to quantity), the user ids and the loan table (id to user, book and status), with one method per operation.
  - The override's ladder of twelve guarded updates is the method `Loans.OverrideQuantity`. Its contract is the classification rule. Borrowed and Overdue are *occupying*; Requested, Returned and Rejected are *free*. Free to occupying takes a copy and fails at zero. Occupying to free returns a copy. Any other pair, including an unknown status string, leaves the quantity alone.
  - Every operation keeps a non-negative quantity non-negative.
  - Every operation keeps each book's *owned* count constant, except an override where the loan's old or new status is not one of the five names. The owned count is the copies on the shelf plus the loans of that book in an occupying status.
- **The paging arithmetic** of `getAllTransactions` (module `Pagination`).
- **The user role lifecycle** of `UsersService` (class `Accounts.UserTable`). Registering as librarian stores a pending librarian, and registering as admin is refused. Login refuses pending librarians. An admin approves or rejects pending librarians. Only students can be blocked. A user can edit their own name and password.
- **The role guard** `RolesGuard.canActivate`, as a pure decision function (module `RolesGuard`). The role enum is the module `Roles`.

Points where the code's behaviour is easy to misread:

- The override stores any status string, not only the five names, and no ladder branch matches an unknown name. So an unknown status breaks the owned count in both directions:
  - A Borrowed loan moved to an unknown status and then to Returned never gives its copy back (`Loans.UnknownStatusLosesCopy`).
  - A Requested loan moved to an unknown status and then to Borrowed passes no stock check, even at quantity 0. Returning it afterwards adds a copy that was never taken (`Loans.UnknownStatusSkipsStockCheck`).
  - The override's conservation guarantee therefore holds only when both the old and the new status are known.
- Catalogue edits can store any 32-bit integer quantity, including a negative one. So the model proves that a non-negative quantity stays non-negative (`Stocked`) and does not assume it.
- A failed approval or rejection is a bad-request error. A direct borrow of an unavailable book fails with "Book is not available" (`BookNotAvailable`), which is a different error from the approval's "Book is out of stock" (`OutOfStock`).
- No status pair is forbidden. Pairs such as Requested to Returned are allowed and have no effect on stock.
- With one copy and two pending requests, the first approval takes the copy and the second fails with `OutOfStock`, leaving its request pending. The method `Loans.ExampleTwoApprovalsOneCopy` is a verified client that runs this scenario against the contracts.

Two JavaScript details are modelled as the code behaves:

- In the guard, `handlerRoles || classRoles` treats an empty role list as present. So an empty list on the handler denies everyone (`RolesGuard.EmptyRoleListDenies`).
- In `updateMyInfo`, an empty string is falsy. So an empty name or password leaves the stored value unchanged (`Accounts.Provided`).

## Model

| member | source | states |
|---|---|---|
| `Roles.Parse` | backend/src/auth/role.enum.ts:1-13 | a string is in `allowedRoles` exactly when it is the name of one of the four roles, and the parsed role carries that name |
| `Roles.ParseName` | backend/src/auth/role.enum.ts:1-6 | each role's name parses back to that role, so the four names are distinct |
| `RolesGuard.AnyMatches` | backend/src/auth/roles.guard.ts:30 | `some` holds exactly when one of the required roles is named by the user's role string |
| `RolesGuard.CanActivate` | backend/src/auth/roles.guard.ts:10-39 | never returns false; with no user it throws Unauthorized; with no roles on handler or class it allows; otherwise it allows exactly when the user's role is one of the effective required roles, and throws otherwise |
| `RolesGuard.HandlerRolesTakePrecedence` | backend/src/auth/roles.guard.ts:14-16 | when the handler declares roles, the class-level roles do not affect the decision |
| `RolesGuard.ClassRolesApplyWithoutHandlerRoles` | backend/src/auth/roles.guard.ts:14-16 | with no handler roles, the class roles decide exactly as if they had been declared on the handler |
| `RolesGuard.EmptyRoleListDenies` | backend/src/auth/roles.guard.ts:14-36 | an empty role list on the handler is used, not skipped, and denies every user |
| `RolesGuard.UnknownRoleDenied` | backend/src/auth/roles.guard.ts:30-36 | a user whose role string names no role is refused by any route that requires roles |
| `Loans.Parse` | backend/src/transaction/transaction.service.ts:150-246 | reading an unvalidated status string gives a status whose stored name is that same string; it is one of the five exactly when the string is one of the five exact names |
| `Loans.ParseName` | backend/src/transaction/transaction.service.ts:246 | a stored status is recovered from the string written to the `status` column |
| `Loans.OverrideQuantity` | backend/src/transaction/transaction.service.ts:150-244 | the twelve-branch ladder equals the classification: it fails with OutOfStock exactly when a free-to-occupying move finds a quantity of 0 or less; otherwise the new quantity is the old one plus `Delta` (−1, +1 or 0) |
| `Loans.TransitionTable` | backend/src/transaction/transaction.service.ts:150-244 | the classification gives each of the twelve ladder pairs its ±1, and gives 0 to the four pairs the comment lists and to Overdue↔Borrowed |
| `Loans.DeltaBalancesHolding` | backend/src/transaction/transaction.service.ts:150-244 | for known statuses, the quantity change plus the copies the loan holds afterwards equals the copies it held before |
| `Loans.DeltaAntisymmetric` | backend/src/transaction/transaction.service.ts:150-238 | the quantity change of a move is the negation of the change of the reverse move: each +1 branch mirrors a −1 branch |
| `Loans.OverrideRoundTrip` | backend/src/transaction/transaction.service.ts:150-246 | from a non-negative quantity, overriding a status and then overriding it back leaves status and quantity where they were |
| `Loans.DeltaPathIndependent` | backend/src/transaction/transaction.service.ts:150-238 | for known statuses, the total quantity change of two overrides depends only on the first and last status |
| `Loans.UnknownStatusLosesCopy` | backend/src/transaction/transaction.service.ts:142-246 | moving a Borrowed loan to an unknown status and then to Returned never gives the copy back, whereas Borrowed to Returned does |
| `Loans.UnknownStatusSkipsStockCheck` | backend/src/transaction/transaction.service.ts:150-246 | at quantity 0, Requested to an unknown status, then to Borrowed, then to Returned ends at quantity 1, whereas the direct route fails its stock check and ends at 0 |
| `Loans.Step` | backend/src/transaction/transaction.service.ts:142-247 | one override call on one loan: the status becomes the target or stays; a copy is taken only from a positive quantity, so a non-negative quantity stays non-negative; between known statuses the quantity plus the loan's held copies is unchanged. `Loans.Library.UpdateTransactionStatus` is proved to agree with it on the overridden loan |
| `Loans.ReplayConserves` | backend/src/transaction/transaction.service.ts:142-247 | any sequence of overrides on one loan keeps a non-negative quantity non-negative; with known statuses it keeps quantity plus held copies constant |
| `Loans.Library.BorrowBook` | backend/src/transaction/transaction.service.ts:19-45 | a missing user, a missing book or a quantity of 0 or less fails and changes nothing; otherwise it adds one Borrowed loan under a fresh id and lowers that book's quantity by exactly 1; owned counts are kept |
| `Loans.Library.CreateBorrowRequest` | backend/src/transaction/transaction.service.ts:47-66 | a missing user or book is not-found; otherwise it adds one Requested loan; no quantity ever changes |
| `Loans.Library.ApproveBorrowRequest` | backend/src/transaction/transaction.service.ts:75-100 | a missing loan, a status other than Requested, or a quantity of 0 or less fails and changes nothing; otherwise the status becomes Borrowed and the quantity drops by 1; owned counts are kept |
| `Loans.Library.RejectBorrowRequest` | backend/src/transaction/transaction.service.ts:102-120 | a missing loan or a status other than Requested fails and changes nothing; otherwise the status becomes Rejected; books are never touched |
| `Loans.Library.UpdateTransactionStatus` | backend/src/transaction/transaction.service.ts:142-253 | a missing loan is not-found; a free-to-occupying move at quantity 0 or less fails and leaves status and quantity unchanged; otherwise the stored status name equals `newStatus` and only that loan's book changes, by `Delta`; non-negative stock and (for known statuses) owned counts are kept |
| `Pagination.PageOf` | backend/src/transaction/transaction.service.ts:128-134 | a page holds at most `limit` rows: row i is row `(page-1)*limit + i` of the listing, and the length is whatever is left after the skip, capped at `limit` |
| `Pagination.TotalPages` | backend/src/transaction/transaction.service.ts:136-139 | the page count is the ceiling of `total/limit`: those pages hold all rows, and one page fewer would not |
| `Pagination.RowOnItsPage` | backend/src/transaction/transaction.service.ts:128-139 | every row of the listing is on page `k/limit + 1` at position `k % limit`, and that page number is within the reported page count |
| `Pagination.PastLastPageEmpty` | backend/src/transaction/transaction.service.ts:128-139 | a page beyond the reported page count is empty |
| `Accounts.UserTable.Register` | backend/src/users/users.service.ts:29-64 | role `admin` throws; a role outside `allowedRoles` answers invalid-role and stores nothing; an email already in use throws and stores nothing; otherwise it stores one user under a fresh id, with librarian turned into pending-librarian, the password stored as its hash, and emails kept unique |
| `Accounts.UserTable.Login` | backend/src/users/users.service.ts:66-99 | an unknown email or a wrong password is invalid-credentials; a pending librarian is not-approved; otherwise it returns the claims (id, email, role, name) of the user with that email |
| `Accounts.UserTable.ApproveLibrarian` | backend/src/users/users.service.ts:106-117 | an existing pending librarian becomes a librarian and nothing else changes; any other id errors with no change |
| `Accounts.UserTable.RejectLibrarian` | backend/src/users/users.service.ts:122-133 | an existing pending librarian is removed and no one else is; any other id errors with no change |
| `Accounts.UserTable.UpdateActiveStatus` | backend/src/users/users.service.ts:135-159 | a missing user or a non-student errors with no change; otherwise only that user's `active` flag is set to the given value |
| `Accounts.UserTable.UpdateMyInfo` | backend/src/users/users.service.ts:168-204 | a missing user errors; otherwise the name changes only if a non-empty one is given, the password only if a non-empty one is given (stored hashed), and email, role and active never change |

## Left out

- `Pagination.PageOf`, `Pagination.RowOnItsPage` and `Pagination.PastLastPageEmpty` require `page >= 1` and `limit >= 1`. How the ORM treats a negative skip or a take of zero is not part of this model, and `parseInt` of a bad query string is not modelled.
- `Pagination.TotalPages` is the integer ceiling. `Math.ceil` over floating-point division agrees with it only while the counts are exactly representable.
- The row order of `getAllTransactions` (id descending) is the listing `PageOf` is given; the query, its joins and the sort are left out.
- Concurrency: the service saves the loan and the book in separate awaits with no locking. Each operation is modelled as one sequential step, and interleavings are not modelled.
- Referential integrity is part of `Loans.Library.Valid`: every loan's book and user exist. Deleting books or users from under a loan is catalogue or account work and is out of scope. The `Library` keeps its own set of user ids, independent of `Accounts.UserTable`.
- Catalogue CRUD (`booklist.service`), including edits that set any quantity, is left out; quantities are plain integers so the model does not depend on it.
- Quantities are unbounded integers in the model. The `quantity` column is a 32-bit Postgres integer (lms/src/booklist/booklist.entity.ts:17-18). In the code, a release that lifts a quantity of 2147483647 fails when the book is saved, and the loan's new status is then not saved either. In the model that release succeeds.
- The read-only queries `getBorrowRequests`, `getUserTransactions`, `getLibrarianSummary`, `getTopBorrowedBooks`, `getLibrarianTodo`, `findOneByEmail`, `findById`, `getAllUsers` and `getAllStudents` are ORM filters, counts and group-bys, and are not modelled.
- `transactionDate` is set by the database clock and is left out.
- `bcrypt` is a foreign library. `Accounts.Hash` is a symbolic digest, and `Accounts.Compare` succeeds exactly for the hashed text. Salt, cost and collisions are left out. The signed JWT is left out; only its payload (`Accounts.Claims`) is returned.
- The user entity file is not part of this model. A new user's `active` flag is taken to default to true. Email uniqueness is an invariant that `register` maintains (`Accounts.UserTable.Valid`); a table that broke it would make `login`'s "first match" choice matter, and that is not modelled.
- Request validation by DTOs (email format, non-empty fields, minimum password length) happens before the services run and is not modelled.
- HTTP routing, controllers and the front end are left out. In particular, the status-override endpoint checks no role, and the model does not assume one.
- Password reset by one-time code (random code, mail, wall-clock expiry) is left out.
