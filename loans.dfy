/** The loan state machine of `TransactionsService`
    (backend/src/transaction/transaction.service.ts): borrow, request, approve,
    reject and the librarian's free-form status override, and their effect on
    each book's available `quantity`. */
module Loans {
  import opened Wrappers

  type UserId = nat
  type BookId = nat
  type LoanId = nat

  /** A transaction's status column. The five names the service knows, plus
      `Other` for any other string the override endpoint was sent. */
  datatype Status = Requested | Borrowed | Returned | Overdue | Rejected | Other(name: string)

  /** The string stored in the `status` column. */
  function Name(s: Status): string {
    match s
    case Requested => "Requested"
    case Borrowed => "Borrowed"
    case Returned => "Returned"
    case Overdue => "Overdue"
    case Rejected => "Rejected"
    case Other(n) => n
  }

  predicate IsKnownName(n: string) {
    n == "Requested" || n == "Borrowed" || n == "Returned" || n == "Overdue" || n == "Rejected"
  }

  predicate Known(s: Status) {
    !s.Other?
  }

  /** `Other` never carries one of the five names, so each string has one reading. */
  predicate WellFormed(s: Status) {
    s.Other? ==> !IsKnownName(s.name)
  }

  /** Reads an unvalidated status string, comparing case-sensitively as `===` does. */
  function Parse(name: string): (s: Status)
    ensures Name(s) == name
    ensures WellFormed(s)
    ensures Known(s) <==> IsKnownName(name)
  {
    if name == "Requested" then Requested
    else if name == "Borrowed" then Borrowed
    else if name == "Returned" then Returned
    else if name == "Overdue" then Overdue
    else if name == "Rejected" then Rejected
    else Other(name)
  }

  lemma ParseName(s: Status)
    requires WellFormed(s)
    ensures Parse(Name(s)) == s
  {
  }

  /** A copy is out with the borrower. */
  predicate Occupying(s: Status) {
    s.Borrowed? || s.Overdue?
  }

  /** No copy is held against the loan. */
  predicate Free(s: Status) {
    s.Requested? || s.Returned? || s.Rejected?
  }

  /** The classification rule: free to occupying reserves a copy, occupying to
      free releases one, anything else (including unknown strings) leaves the
      quantity alone. */
  function Delta(from: Status, to: Status): int {
    if Free(from) && Occupying(to) then -1
    else if Occupying(from) && Free(to) then 1
    else 0
  }

  /** Copies a loan in status `s` holds. */
  function Occ(s: Status): nat {
    if Occupying(s) then 1 else 0
  }

  /** Every effect moves one copy between the shelf and the loan, when both
      statuses are known. */
  lemma DeltaBalancesHolding(from: Status, to: Status)
    requires Known(from) && Known(to)
    ensures Delta(from, to) + Occ(to) == Occ(from)
  {
  }

  /** The quantity change of a move is the negation of the reverse move's. */
  lemma DeltaAntisymmetric(a: Status, b: Status)
    ensures Delta(a, b) == -Delta(b, a)
  {
  }

  /** For known statuses the effect depends only on the end points. */
  lemma DeltaPathIndependent(a: Status, b: Status, c: Status)
    requires Known(a) && Known(b) && Known(c)
    ensures Delta(a, b) + Delta(b, c) == Delta(a, c)
  {
  }

  /** Through an unknown status a copy is lost: Borrowed to "Lost" releases
      nothing, and "Lost" to Returned releases nothing either. */
  lemma UnknownStatusLosesCopy()
    ensures Delta(Borrowed, Other("Lost")) + Delta(Other("Lost"), Returned) == 0
    ensures Delta(Borrowed, Returned) == 1
  {
  }

  /** The pairs the override names, one ensures per line of its ladder and of
      the comment listing the pairs with no effect. */
  lemma TransitionTable()
    ensures Delta(Borrowed, Returned) == 1
    ensures Delta(Returned, Borrowed) == -1
    ensures Delta(Returned, Overdue) == -1
    ensures Delta(Overdue, Returned) == 1
    ensures Delta(Overdue, Rejected) == 1
    ensures Delta(Rejected, Overdue) == -1
    ensures Delta(Overdue, Requested) == 1
    ensures Delta(Requested, Overdue) == -1
    ensures Delta(Rejected, Borrowed) == -1
    ensures Delta(Requested, Borrowed) == -1
    ensures Delta(Borrowed, Requested) == 1
    ensures Delta(Borrowed, Rejected) == 1
    ensures Delta(Rejected, Requested) == 0
    ensures Delta(Requested, Rejected) == 0
    ensures Delta(Returned, Requested) == 0
    ensures Delta(Requested, Returned) == 0
    ensures Delta(Overdue, Borrowed) == 0 && Delta(Borrowed, Overdue) == 0
  {
  }

  datatype Error =
    | UserNotFound
    | BookNotFound
    | BookNotAvailable   // borrowBook's 'Book is not available'
    | TransactionNotFound
    | NotPendingRequest
    | OutOfStock

  /** The override's ladder of twelve guarded updates, run on the loan's current
      status, the requested one and the book's quantity. The status is not
      reassigned inside the ladder, so at most one branch fires. Returns the new
      quantity, or `OutOfStock` when a decrement finds no copy. */
  method OverrideQuantity(from: Status, to: Status, quantity: int) returns (r: Result<int, Error>)
    ensures r.Err? <==> Delta(from, to) == -1 && quantity <= 0
    ensures r.Err? ==> r.error == OutOfStock
    ensures r.Ok? ==> r.value == quantity + Delta(from, to)
  {
    var q := quantity;
    if from == Borrowed && to == Returned {
      q := q + 1;
    }
    if from == Returned && to == Borrowed {
      if q <= 0 { return Err(OutOfStock); }
      q := q - 1;
    }
    if from == Returned && to == Overdue {
      if q <= 0 { return Err(OutOfStock); }
      q := q - 1;
    }
    if from == Overdue && to == Returned {
      q := q + 1;
    }
    if from == Overdue && to == Rejected {
      q := q + 1;
    }
    if from == Rejected && to == Overdue {
      if q <= 0 { return Err(OutOfStock); }
      q := q - 1;
    }
    if from == Overdue && to == Requested {
      q := q + 1;
    }
    if from == Requested && to == Overdue {
      if q <= 0 { return Err(OutOfStock); }
      q := q - 1;
    }
    if from == Rejected && to == Borrowed {
      if q <= 0 { return Err(OutOfStock); }
      q := q - 1;
    }
    if from == Requested && to == Borrowed {
      if q <= 0 { return Err(OutOfStock); }
      q := q - 1;
    }
    if from == Borrowed && to == Requested {
      q := q + 1;
    }
    if from == Borrowed && to == Rejected {
      q := q + 1;
    }
    return Ok(q);
  }

  /** One override call on a single loan, by the classification: a failed call
      changes nothing, a successful one stores the target. It never takes the
      last copy, and between known statuses the copy it moves is the one the
      loan takes or gives back. */
  function Step(s: Status, q: int, to: Status): (r: (Status, int))
    ensures r.0 == s || r.0 == to
    ensures r.1 < q ==> r.0 == to && q > 0
    ensures q >= 0 ==> r.1 >= 0
    ensures Known(s) && Known(to) ==> r.1 + Occ(r.0) == q + Occ(s)
  {
    if Delta(s, to) == -1 && q <= 0 then (s, q) else (to, q + Delta(s, to))
  }

  /** A sequence of override calls on one loan whose book no other loan touches. */
  function Replay(s: Status, q: int, targets: seq<Status>): (Status, int)
    decreases |targets|
  {
    if targets == [] then (s, q)
    else
      var next := Step(s, q, targets[0]);
      Replay(next.0, next.1, targets[1..])
  }

  /** Overriding a loan's status and then overriding it back leaves status and
      quantity where they were, from any non-negative quantity. (From a negative
      quantity the release succeeds and the reserve back fails.) */
  lemma OverrideRoundTrip(a: Status, b: Status, q: int)
    requires q >= 0
    ensures Step(Step(a, q, b).0, Step(a, q, b).1, a) == (a, q)
  {
    DeltaAntisymmetric(a, b);
  }

  /** Through an unknown status a copy can also appear: a Requested loan moved
      to "x" and then to Borrowed meets no stock check, even at quantity 0, and
      returning it then puts back a copy that was never taken. The direct move
      to Borrowed fails instead, and returning leaves the quantity at 0. */
  lemma UnknownStatusSkipsStockCheck()
    ensures Replay(Requested, 0, [Other("x"), Borrowed, Returned]) == (Returned, 1)
    ensures Replay(Requested, 0, [Borrowed, Returned]) == (Returned, 0)
  {
    var viaUnknown := [Other("x"), Borrowed, Returned];
    assert viaUnknown[1..] == [Borrowed, Returned] && viaUnknown[1..][1..] == [Returned];
    assert Step(Requested, 0, Other("x")) == (Other("x"), 0);
    assert Step(Other("x"), 0, Borrowed) == (Borrowed, 0);
    assert Step(Borrowed, 0, Returned) == (Returned, 1);
    assert Replay(Returned, 1, []) == (Returned, 1);
    var direct := [Borrowed, Returned];
    assert direct[1..] == [Returned];
    assert Step(Requested, 0, Borrowed) == (Requested, 0);
    assert Step(Requested, 0, Returned) == (Returned, 0);
    assert Replay(Returned, 0, []) == (Returned, 0);
  }

  /** Any sequence of overrides keeps a non-negative quantity non-negative, and
      with known statuses keeps shelf plus held copies constant. */
  lemma {:induction false} ReplayConserves(s: Status, q: int, targets: seq<Status>)
    decreases |targets|
    ensures q >= 0 ==> Replay(s, q, targets).1 >= 0
    ensures Known(s) && (forall i :: 0 <= i < |targets| ==> Known(targets[i])) ==>
      Replay(s, q, targets).1 + Occ(Replay(s, q, targets).0) == q + Occ(s)
  {
    if targets != [] {
      var next := Step(s, q, targets[0]);
      ReplayConserves(next.0, next.1, targets[1..]);
      if Known(s) && Known(targets[0]) {
        DeltaBalancesHolding(s, targets[0]);
      }
    }
  }

  /** A transaction row; `transactionDate` is left out. */
  datatype Loan = Loan(user: UserId, book: BookId, status: Status)

  predicate Holds(l: Loan, b: BookId) {
    l.book == b && Occupying(l.status)
  }

  /** The loans currently holding a copy of book `b`. */
  ghost function Holding(loans: map<LoanId, Loan>, b: BookId): set<LoanId> {
    set id | id in loans && Holds(loans[id], b)
  }

  /** Writing one loan changes the number of holders of `b` by what that loan
      held before and holds after. */
  lemma HoldingAfterPut(loans: map<LoanId, Loan>, id: LoanId, l: Loan, b: BookId)
    ensures |Holding(loans[id := l], b)| ==
      |Holding(loans, b)| - (if id in loans && Holds(loans[id], b) then 1 else 0) + (if Holds(l, b) then 1 else 0)
  {
    var rest := Holding(loans, b) - {id};
    assert Holding(loans[id := l], b) == if Holds(l, b) then rest + {id} else rest;
    assert Holding(loans, b) == if id in loans && Holds(loans[id], b) then rest + {id} else rest;
  }

  /** Copies of `b` the library owns: on the shelf plus out with borrowers. */
  ghost function OwnedIn(books: map<BookId, int>, loans: map<LoanId, Loan>, b: BookId): int
    requires b in books
  {
    books[b] + |Holding(loans, b)|
  }

  /** Writing loan `id` of book `b0` together with a new quantity `q` for that
      book keeps every book's owned count when the copy the loan starts or stops
      holding is exactly the copy taken from or put back on the shelf. */
  lemma OwnedAfterPut(books: map<BookId, int>, loans: map<LoanId, Loan>, id: LoanId, l: Loan, q: int)
    requires l.book in books
    requires id in loans ==> loans[id].book == l.book
    requires q + Occ(l.status) == books[l.book] + (if id in loans then Occ(loans[id].status) else 0)
    ensures forall b :: b in books ==>
      OwnedIn(books[l.book := q], loans[id := l], b) == OwnedIn(books, loans, b)
  {
    forall b | b in books
      ensures OwnedIn(books[l.book := q], loans[id := l], b) == OwnedIn(books, loans, b)
    {
      HoldingAfterPut(loans, id, l, b);
    }
  }

  /** The service's view of the book, user and transaction tables. */
  class Library {
    var books: map<BookId, int>    // available `quantity` per catalogue entry
    var users: set<UserId>
    var loans: map<LoanId, Loan>
    var nextId: LoanId             // the next generated transaction id

    /** Every transaction references an existing book and user (foreign keys),
        has an id below `nextId`, and a well-formed status. */
    ghost predicate Valid()
      reads this
    {
      forall id :: id in loans ==>
        id < nextId && loans[id].book in books && loans[id].user in users && WellFormed(loans[id].status)
    }

    /** Every book has a non-negative quantity. Catalogue edits can break it, so
        it is preserved rather than required. */
    ghost predicate Stocked()
      reads this
    {
      forall b :: b in books ==> books[b] >= 0
    }

    ghost function Owned(b: BookId): int
      reads this
      requires b in books
    {
      OwnedIn(books, loans, b)
    }

    constructor (books: map<BookId, int>, users: set<UserId>)
      ensures Valid()
      ensures this.books == books && this.users == users && loans == map[] && nextId == 0
    {
      this.books := books;
      this.users := users;
      loans := map[];
      nextId := 0;
    }

    /** `borrowBook`: records a loan directly in Borrowed and takes a copy. */
    method BorrowBook(user: UserId, book: BookId) returns (r: Result<LoanId, Error>)
      requires Valid()
      modifies this
      ensures Valid() && users == old(users) && books.Keys == old(books).Keys
      ensures user !in users ==> r == Err(UserNotFound)
      ensures user in users && book !in books ==> r == Err(BookNotFound)
      ensures user in users && book in books && old(books[book]) <= 0 ==> r == Err(BookNotAvailable)
      ensures r.Ok? <==> user in users && book in books && old(books[book]) > 0
      ensures r.Err? ==> books == old(books) && loans == old(loans) && nextId == old(nextId)
      ensures r.Ok? ==>
        r.value == old(nextId) && r.value !in old(loans) && nextId == old(nextId) + 1 &&
        loans == old(loans)[r.value := Loan(user, book, Borrowed)] &&
        books == old(books)[book := old(books[book]) - 1]
      ensures old(Stocked()) ==> Stocked()
      ensures forall b :: b in books ==> Owned(b) == old(Owned(b))
    {
      if user !in users { return Err(UserNotFound); }
      if book !in books { return Err(BookNotFound); }
      if books[book] <= 0 { return Err(BookNotAvailable); }
      var id := nextId;
      var l := Loan(user, book, Borrowed);
      OwnedAfterPut(books, loans, id, l, books[book] - 1);
      loans := loans[id := l];
      nextId := nextId + 1;
      books := books[book := books[book] - 1];
      r := Ok(id);
    }

    /** `createBorrowRequest`: records a loan in Requested; no copy is taken. */
    method CreateBorrowRequest(user: UserId, book: BookId) returns (r: Result<LoanId, Error>)
      requires Valid()
      modifies this
      ensures Valid() && users == old(users) && books == old(books)
      ensures user !in users ==> r == Err(UserNotFound)
      ensures user in users && book !in books ==> r == Err(BookNotFound)
      ensures r.Err? ==> loans == old(loans) && nextId == old(nextId)
      ensures user in users && book in books ==>
        r == Ok(old(nextId)) && old(nextId) !in old(loans) && nextId == old(nextId) + 1 &&
        loans == old(loans)[old(nextId) := Loan(user, book, Requested)]
      ensures forall b :: b in books ==> Owned(b) == old(Owned(b))
    {
      if user !in users { return Err(UserNotFound); }
      if book !in books { return Err(BookNotFound); }
      var id := nextId;
      var l := Loan(user, book, Requested);
      OwnedAfterPut(books, loans, id, l, books[book]);
      assert books[book := books[book]] == books;
      loans := loans[id := l];
      nextId := nextId + 1;
      r := Ok(id);
    }

    /** `approveBorrowRequest`: Requested to Borrowed, taking a copy. */
    method ApproveBorrowRequest(id: LoanId) returns (r: Result<Loan, Error>)
      requires Valid()
      modifies this
      ensures Valid() && users == old(users) && nextId == old(nextId) && books.Keys == old(books).Keys
      ensures id !in old(loans) ==> r == Err(TransactionNotFound)
      ensures id in old(loans) && old(loans[id].status) != Requested ==> r == Err(NotPendingRequest)
      ensures id in old(loans) && old(loans[id].status) == Requested && old(books[loans[id].book]) <= 0 ==>
        r == Err(OutOfStock)
      ensures r.Ok? <==>
        id in old(loans) && old(loans[id].status) == Requested && old(books[loans[id].book]) > 0
      ensures r.Err? ==> books == old(books) && loans == old(loans)
      ensures r.Ok? ==>
        r.value == old(loans[id]).(status := Borrowed) &&
        loans == old(loans)[id := r.value] &&
        books == old(books)[r.value.book := old(books[loans[id].book]) - 1]
      ensures old(Stocked()) ==> Stocked()
      ensures forall b :: b in books ==> Owned(b) == old(Owned(b))
    {
      if id !in loans { return Err(TransactionNotFound); }
      var tx := loans[id];
      if tx.status != Requested { return Err(NotPendingRequest); }
      if books[tx.book] <= 0 { return Err(OutOfStock); }
      var l := tx.(status := Borrowed);
      OwnedAfterPut(books, loans, id, l, books[tx.book] - 1);
      loans := loans[id := l];
      books := books[tx.book := books[tx.book] - 1];
      r := Ok(l);
    }

    /** `rejectBorrowRequest`: Requested to Rejected; quantities are never touched. */
    method RejectBorrowRequest(id: LoanId) returns (r: Result<Loan, Error>)
      requires Valid()
      modifies this
      ensures Valid() && users == old(users) && nextId == old(nextId) && books == old(books)
      ensures id !in old(loans) ==> r == Err(TransactionNotFound)
      ensures id in old(loans) && old(loans[id].status) != Requested ==> r == Err(NotPendingRequest)
      ensures r.Err? ==> loans == old(loans)
      ensures id in old(loans) && old(loans[id].status) == Requested ==>
        r == Ok(old(loans[id]).(status := Rejected)) && loans == old(loans)[id := r.value]
      ensures forall b :: b in books ==> Owned(b) == old(Owned(b))
    {
      if id !in loans { return Err(TransactionNotFound); }
      var tx := loans[id];
      if tx.status != Requested { return Err(NotPendingRequest); }
      var l := tx.(status := Rejected);
      OwnedAfterPut(books, loans, id, l, books[tx.book]);
      assert books[tx.book := books[tx.book]] == books;
      loans := loans[id := l];
      r := Ok(l);
    }

    /** `updateTransactionStatus`: the librarian override. No authorization is
        checked. The new status is stored as given, after the ladder has moved
        at most one copy of the loan's book. */
    method UpdateTransactionStatus(id: LoanId, newStatus: string) returns (r: Result<Loan, Error>)
      requires Valid()
      modifies this
      ensures Valid() && users == old(users) && nextId == old(nextId) && books.Keys == old(books).Keys
      ensures id !in old(loans) ==> r == Err(TransactionNotFound)
      ensures id in old(loans) ==>
        var tx := old(loans[id]);
        var d := Delta(tx.status, Parse(newStatus));
        if d == -1 && old(books[tx.book]) <= 0 then
          r == Err(OutOfStock)
        else
          r == Ok(tx.(status := Parse(newStatus))) &&
          loans == old(loans)[id := r.value] &&
          books == old(books)[tx.book := old(books[tx.book]) + d]
      ensures r.Err? ==> books == old(books) && loans == old(loans)
      ensures id in old(loans) ==>
        (loans[id].status, books[old(loans[id].book)]) == Step(old(loans[id].status), old(books[loans[id].book]), Parse(newStatus))
      ensures r.Ok? ==> Name(r.value.status) == newStatus
      ensures old(Stocked()) ==> Stocked()
      ensures id in old(loans) && Known(old(loans[id].status)) && IsKnownName(newStatus) ==>
        forall b :: b in books ==> Owned(b) == old(Owned(b))
    {
      if id !in loans { return Err(TransactionNotFound); }
      var tx := loans[id];
      var to := Parse(newStatus);
      var q := OverrideQuantity(tx.status, to, books[tx.book]);
      if q.Err? { return Err(q.error); }
      var l := tx.(status := to);
      if Known(tx.status) && Known(to) {
        DeltaBalancesHolding(tx.status, to);
        OwnedAfterPut(books, loans, id, l, q.value);
      }
      loans := loans[id := l];
      books := books[tx.book := q.value];
      r := Ok(l);
    }
  }

  /** With one copy and two pending requests for it, the first approval takes
      the copy and the second fails, leaving its request pending. */
  method ExampleTwoApprovalsOneCopy() {
    var lib := new Library(map[1 := 1], {1, 2});
    var a := lib.CreateBorrowRequest(1, 1);
    var b := lib.CreateBorrowRequest(2, 1);
    assert a == Ok(0) && b == Ok(1);
    var first := lib.ApproveBorrowRequest(0);
    assert first.Ok? && lib.books[1] == 0;
    var second := lib.ApproveBorrowRequest(1);
    assert second == Err(OutOfStock) && lib.loans[1].status == Requested && lib.books[1] == 0;
  }
}
