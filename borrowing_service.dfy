/**
  * The borrowing engine: borrow and return over the catalog, the stored
  * transactions and the notification log. `Borrow` and `Return` state each
  * operation on a value `Ledger`; the `BorrowingService` class performs the
  * same steps in place, in the order the Java service performs them, and is
  * proved to reach the state those functions describe.
  */
module Borrowing {
  import opened Wrappers
  import opened Text
  import opened Entities
  import opened TransactionQueries
  import opened BookCatalog
  import opened Notifications

  /** At most this many BORROWED transactions per member. */
  const MaxBorrowingLimit: nat := 5

  /** A loan is due this many days after it starts. */
  const BorrowingPeriodDays: nat := 14

  /** The distinct reasons a borrow or a return is refused. */
  datatype LoanError = LimitExceeded | BookUnavailable | TransactionNotFound | AlreadyReturned

  /** The message of the RuntimeException the service throws for each refusal. */
  function ErrorMessage(e: LoanError): (m: string)
    ensures |m| > 0
  {
    match e
    case LimitExceeded => "Member has reached maximum borrowing limit"
    case BookUnavailable => "Book is not available for borrowing"
    case TransactionNotFound => "Transaction not found"
    case AlreadyReturned => "Book is already returned"
  }

  /** Each refusal is told apart by its message alone. */
  lemma ErrorMessagesDistinct(e1: LoanError, e2: LoanError)
    ensures ErrorMessage(e1) == ErrorMessage(e2) ==> e1 == e2
  {
  }

  /** The state the engine works on: the catalog's books, the transaction store (id = position) and the notification log. */
  datatype Ledger = Ledger(books: map<nat, Book>, transactions: seq<Transaction>, notifications: seq<Notification>)

  /** The unsaved transaction `borrowBook` builds: BORROWED on `today`, due 14 days later. */
  function PendingLoan(bookId: nat, memberId: nat, today: nat): (t: Transaction)
    ensures t.id.None? && t.bookId == bookId && t.memberId == memberId
    ensures t.borrowDate == today && t.dueDate == Some(today + BorrowingPeriodDays)
    ensures t.status == Borrowed && t.returnDate.None?
  {
    NewTransaction(bookId, memberId, today).(dueDate := Some(today + BorrowingPeriodDays), status := Borrowed)
  }

  /**
    * `borrowBook(bookId, memberId)` on day `today` at time `now`. The member
    * is never looked up: only the count of its BORROWED transactions matters.
    */
  function Borrow(s: Ledger, bookId: nat, memberId: nat, today: nat, now: nat): (out: (Result<Transaction, LoanError>, Ledger))
    // the limit is checked first, whatever the book's availability
    ensures CountActiveBorrowingsByMember(s.transactions, memberId) >= MaxBorrowingLimit
            ==> out == (Failure(LimitExceeded), s)
    ensures CountActiveBorrowingsByMember(s.transactions, memberId) < MaxBorrowingLimit && !IsAvailable(s.books, bookId)
            ==> out == (Failure(BookUnavailable), s)
    ensures out.0.Success? <==>
            CountActiveBorrowingsByMember(s.transactions, memberId) < MaxBorrowingLimit && IsAvailable(s.books, bookId)
    ensures out.0.Failure? ==> out.1 == s
    ensures out.0.Success? ==>
              var t := out.0.value;
              var s' := out.1;
              && t == Transaction(Some(|s.transactions|), bookId, memberId, today, Some(today + BorrowingPeriodDays), None, Borrowed)
              && s'.transactions == s.transactions + [t]
              && s'.books.Keys == s.books.Keys
              && s'.books[bookId] == s.books[bookId].(availableCopies := s.books[bookId].availableCopies - 1)
              && (forall k :: k in s.books && k != bookId ==> s'.books[k] == s.books[k])
              && |s'.notifications| == |s.notifications| + 1
              && s'.notifications[..|s.notifications|] == s.notifications
              && var n := s'.notifications[|s.notifications|];
                 && n.memberId == memberId && n.kind == General && !n.isRead && n.dateSent == now
                 && Contains(n.message, "successfully borrowed")
                 && Contains(n.message, "null")
  {
    if CountActiveBorrowingsByMember(s.transactions, memberId) >= MaxBorrowingLimit then
      (Failure(LimitExceeded), s)
    else if !IsAvailable(s.books, bookId) then
      (Failure(BookUnavailable), s)
    else
      var saved := PendingLoan(bookId, memberId, today).(id := Some(|s.transactions|));
      var books := DecreasedCopies(s.books, bookId);
      var transactions := s.transactions + [saved];
      var notifications := Appended(s.notifications, BorrowingConfirmation(memberId, StubBook(bookId), today, now));
      (Success(saved), Ledger(books, transactions, notifications))
  }

  /**
    * The loan terms: a member with four BORROWED transactions may take a fifth
    * book, due fourteen days after `today`; a member with five is refused.
    */
  lemma LoanTerms(s: Ledger, bookId: nat, memberId: nat, today: nat, now: nat)
    requires IsAvailable(s.books, bookId)
    ensures CountActiveBorrowingsByMember(s.transactions, memberId) == 4 ==>
              var r := Borrow(s, bookId, memberId, today, now).0;
              r.Success? && r.value.dueDate == Some(today + BorrowingPeriodDays) && r.value.borrowDate == today
    ensures CountActiveBorrowingsByMember(s.transactions, memberId) == 5 ==>
              Borrow(s, bookId, memberId, today, now).0 == Failure(LimitExceeded)
  {
  }

  /** The book the return confirmation names: the stored record, or a bare stub when none is stored. */
  function LoanedBook(books: map<nat, Book>, bookId: nat): (b: Book)
    ensures bookId in books ==> b == books[bookId]
    ensures bookId !in books ==> b.title.None?
  {
    if bookId in books then books[bookId] else StubBook(bookId)
  }

  /** `returnBook(transactionId)` on day `today` at time `now`. */
  function Return(s: Ledger, transactionId: nat, today: nat, now: nat): (out: (Result<Transaction, LoanError>, Ledger))
    ensures transactionId >= |s.transactions| ==> out == (Failure(TransactionNotFound), s)
    ensures transactionId < |s.transactions| && s.transactions[transactionId].status != Borrowed
            ==> out == (Failure(AlreadyReturned), s)
    ensures out.0.Success? <==> transactionId < |s.transactions| && s.transactions[transactionId].status == Borrowed
    ensures out.0.Failure? ==> out.1 == s
    ensures out.0.Success? ==>
              var old_t := s.transactions[transactionId];
              var t := out.0.value;
              var s' := out.1;
              && t == old_t.(returnDate := Some(today), status := Returned)
              && s'.transactions == s.transactions[transactionId := t]
              && s'.books.Keys == s.books.Keys
              && (old_t.bookId in s.books ==>
                    s'.books[old_t.bookId] == s.books[old_t.bookId].(availableCopies := s.books[old_t.bookId].availableCopies + 1))
              && (forall k :: k in s.books && k != old_t.bookId ==> s'.books[k] == s.books[k])
              && |s'.notifications| == |s.notifications| + 1
              && s'.notifications[..|s.notifications|] == s.notifications
              && var n := s'.notifications[|s.notifications|];
                 && n.memberId == old_t.memberId && n.kind == General && !n.isRead && n.dateSent == now
                 && Contains(n.message, "successfully returned")
                 && (old_t.bookId in s.books ==> Contains(n.message, TitleText(s.books[old_t.bookId].title)))
  {
    if transactionId >= |s.transactions| then
      (Failure(TransactionNotFound), s)
    else if s.transactions[transactionId].status != Borrowed then
      (Failure(AlreadyReturned), s)
    else
      var t := s.transactions[transactionId].(returnDate := Some(today), status := Returned);
      var books := IncreasedCopies(s.books, t.bookId);
      var transactions := s.transactions[transactionId := t];
      var notifications := Appended(s.notifications, ReturnConfirmation(t.memberId, LoanedBook(books, t.bookId), now));
      (Success(t), Ledger(books, transactions, notifications))
  }

  // ---------------------------------------------------------------- invariants

  /** No member holds more than the limit of BORROWED transactions. */
  ghost predicate WithinLimit(ts: seq<Transaction>) {
    forall m :: CountActiveBorrowingsByMember(ts, m) <= MaxBorrowingLimit
  }

  /** A transaction has a return date exactly when it is RETURNED. */
  predicate ReturnDatesConsistent(ts: seq<Transaction>) {
    forall i :: 0 <= i < |ts| ==> (ts[i].returnDate.Some? <==> ts[i].status == Returned)
  }

  /** No stored transaction has the status OVERDUE. */
  predicate NoOverdueStored(ts: seq<Transaction>) {
    forall i :: 0 <= i < |ts| ==> ts[i].status != Overdue
  }

  /** Each stored transaction carries its position as its id. */
  predicate TransactionIdsArePositions(ts: seq<Transaction>) {
    forall i :: 0 <= i < |ts| ==> ts[i].id == Some(i)
  }

  /** What the stored transactions satisfy: the limit, return dates, no OVERDUE, ids equal to positions. */
  ghost predicate LoanRecordsValid(ts: seq<Transaction>) {
    && WithinLimit(ts)
    && ReturnDatesConsistent(ts)
    && NoOverdueStored(ts)
    && TransactionIdsArePositions(ts)
  }

  /** What every state the engine produces from an empty store satisfies. */
  ghost predicate Invariant(s: Ledger) {
    && NonNegativeCopies(s.books)
    && LoanRecordsValid(s.transactions)
    && IdsArePositions(s.notifications)
  }

  lemma EmptyLedgerInvariant(books: map<nat, Book>)
    requires NonNegativeCopies(books)
    ensures Invariant(Ledger(books, [], []))
  {
  }

  lemma WithinLimitAfterAppend(ts: seq<Transaction>, t: Transaction)
    requires WithinLimit(ts)
    requires CountActiveBorrowingsByMember(ts, t.memberId) < MaxBorrowingLimit
    ensures WithinLimit(ts + [t])
  {
    forall m ensures CountActiveBorrowingsByMember(ts + [t], m) <= MaxBorrowingLimit {
      CountAppend(ts, t, m);
    }
  }

  /** Saving one new BORROWED loan, under the next id, for a member below the limit keeps the records valid. */
  lemma LoanRecordsAfterAppend(ts: seq<Transaction>, t: Transaction)
    requires LoanRecordsValid(ts)
    requires CountActiveBorrowingsByMember(ts, t.memberId) < MaxBorrowingLimit
    requires t.id == Some(|ts|) && t.status == Borrowed && t.returnDate.None?
    ensures LoanRecordsValid(ts + [t])
  {
    WithinLimitAfterAppend(ts, t);
    var ext := ts + [t];
    forall i | 0 <= i < |ext|
      ensures ext[i] == (if i < |ts| then ts[i] else t)
    {
    }
    assert ReturnDatesConsistent(ext);
    assert NoOverdueStored(ext);
    assert TransactionIdsArePositions(ext);
  }

  /** Replacing a BORROWED transaction by its RETURNED version, dated, keeps the records valid. */
  lemma LoanRecordsAfterReturn(ts: seq<Transaction>, i: nat, t: Transaction)
    requires LoanRecordsValid(ts)
    requires i < |ts| && ts[i].status == Borrowed
    requires t.id == ts[i].id && t.memberId == ts[i].memberId && t.status == Returned && t.returnDate.Some?
    ensures LoanRecordsValid(ts[i := t])
  {
    var updated := ts[i := t];
    forall m ensures CountActiveBorrowingsByMember(updated, m) <= MaxBorrowingLimit {
      CountUpdate(ts, i, t, m);
    }
  }

  /** Recording one new BORROWED loan of an available book, within the member's limit, keeps the invariant. */
  lemma LoanStepKeepsInvariant(s: Ledger, bookId: nat, t: Transaction, n: Notification)
    requires Invariant(s)
    requires IsAvailable(s.books, bookId)
    requires CountActiveBorrowingsByMember(s.transactions, t.memberId) < MaxBorrowingLimit
    requires t.id == Some(|s.transactions|) && t.status == Borrowed && t.returnDate.None?
    ensures Invariant(Ledger(DecreasedCopies(s.books, bookId), s.transactions + [t], Appended(s.notifications, n)))
  {
    LoanRecordsAfterAppend(s.transactions, t);
    AppendedKeepsIds(s.notifications, n);
  }

  /** A borrow, successful or not, preserves the invariant: in particular no member passes the limit and no copy count goes negative. */
  lemma BorrowPreservesInvariant(s: Ledger, bookId: nat, memberId: nat, today: nat, now: nat)
    requires Invariant(s)
    ensures Invariant(Borrow(s, bookId, memberId, today, now).1)
  {
    if CountActiveBorrowingsByMember(s.transactions, memberId) < MaxBorrowingLimit && IsAvailable(s.books, bookId) {
      var t := PendingLoan(bookId, memberId, today).(id := Some(|s.transactions|));
      var n := BorrowingConfirmation(memberId, StubBook(bookId), today, now);
      LoanStepKeepsInvariant(s, bookId, t, n);
    }
  }

  /** A return, successful or not, preserves the invariant. */
  lemma ReturnPreservesInvariant(s: Ledger, transactionId: nat, today: nat, now: nat)
    requires Invariant(s)
    ensures Invariant(Return(s, transactionId, today, now).1)
  {
    var (r, s') := Return(s, transactionId, today, now);
    if r.Success? {
      var t := r.value;
      LoanRecordsAfterReturn(s.transactions, transactionId, t);
      var books := IncreasedCopies(s.books, t.bookId);
      assert IdsArePositions(s'.notifications) by {
        AppendedKeepsIds(s.notifications, ReturnConfirmation(t.memberId, LoanedBook(books, t.bookId), now));
      }
    }
  }

  /** A successful borrow followed by the return of that transaction leaves every book exactly as it was. */
  lemma BorrowThenReturnRestoresBooks(s: Ledger, bookId: nat, memberId: nat, d1: nat, n1: nat, d2: nat, n2: nat)
    requires Borrow(s, bookId, memberId, d1, n1).0.Success?
    ensures var (r1, s1) := Borrow(s, bookId, memberId, d1, n1);
            var (r2, s2) := Return(s1, |s.transactions|, d2, n2);
            r1.value.id == Some(|s.transactions|) && r2.Success? && s2.books == s.books
  {
    DecreaseThenIncrease(s.books, bookId);
  }

  /** A successful borrow followed by its return also gives the member back the same active count. */
  lemma {:induction false} BorrowThenReturnRestoresCount(s: Ledger, bookId: nat, memberId: nat, d1: nat, n1: nat, d2: nat, n2: nat, m: nat)
    requires Borrow(s, bookId, memberId, d1, n1).0.Success?
    ensures var (r1, s1) := Borrow(s, bookId, memberId, d1, n1);
            var (r2, s2) := Return(s1, |s.transactions|, d2, n2);
            CountActiveBorrowingsByMember(s2.transactions, m) == CountActiveBorrowingsByMember(s.transactions, m)
  {
    var (r1, s1) := Borrow(s, bookId, memberId, d1, n1);
    var (r2, s2) := Return(s1, |s.transactions|, d2, n2);
    CountAppend(s.transactions, r1.value, m);
    CountUpdate(s1.transactions, |s.transactions|, r2.value, m);
  }

  /** RETURNED is terminal: once a return succeeds, returning the same id again fails and changes nothing. */
  lemma SecondReturnFails(s: Ledger, transactionId: nat, d1: nat, n1: nat, d2: nat, n2: nat)
    requires Return(s, transactionId, d1, n1).0.Success?
    ensures var s1 := Return(s, transactionId, d1, n1).1;
            Return(s1, transactionId, d2, n2) == (Failure(AlreadyReturned), s1)
  {
  }

  /** Neither operation ever writes the status OVERDUE. */
  lemma OverdueNeverWritten(s: Ledger, bookId: nat, memberId: nat, transactionId: nat, today: nat, now: nat)
    requires NoOverdueStored(s.transactions)
    ensures NoOverdueStored(Borrow(s, bookId, memberId, today, now).1.transactions)
    ensures NoOverdueStored(Return(s, transactionId, today, now).1.transactions)
  {
    var (b, sb) := Borrow(s, bookId, memberId, today, now);
    if b.Success? {
      var ts := sb.transactions;
      forall i | 0 <= i < |ts| ensures ts[i].status != Overdue {
        if i < |s.transactions| {
          assert ts[i] == s.transactions[i];
        }
      }
    }
    var (r, sr) := Return(s, transactionId, today, now);
    if r.Success? {
      var ts := sr.transactions;
      forall i | 0 <= i < |ts| ensures ts[i].status != Overdue {
        if i != transactionId {
          assert ts[i] == s.transactions[i];
        }
      }
    }
  }

  /** After a return the overdue scan finds nothing it did not find before, and never the returned transaction. */
  lemma ReturnShrinksOverdue(s: Ledger, transactionId: nat, today: nat, now: nat, date: nat)
    requires Return(s, transactionId, today, now).0.Success?
    ensures var (r, s') := Return(s, transactionId, today, now);
            && r.value !in FindOverdueTransactions(s'.transactions, date)
            && forall t :: t in FindOverdueTransactions(s'.transactions, date) ==> t in FindOverdueTransactions(s.transactions, date)
  {
    var (r, s') := Return(s, transactionId, today, now);
    forall t | t in FindOverdueTransactions(s'.transactions, date)
      ensures t in FindOverdueTransactions(s.transactions, date)
    {
      var i :| 0 <= i < |s'.transactions| && s'.transactions[i] == t;
      assert i != transactionId;
      assert t == s.transactions[i];
    }
  }

  /**
    * The borrowing confirmation names no title ("null"), since it is built
    * from a stub book, while the return confirmation names the stored
    * book's real title.
    */
  lemma ConfirmationTitles(s: Ledger, nextBookId: nat, bookId: nat, memberId: nat, d1: nat, n1: nat, d2: nat, n2: nat)
    requires WellFormed(s.books, nextBookId)
    requires Borrow(s, bookId, memberId, d1, n1).0.Success?
    ensures var (r1, s1) := Borrow(s, bookId, memberId, d1, n1);
            var (r2, s2) := Return(s1, |s.transactions|, d2, n2);
            && Contains(s1.notifications[|s.notifications|].message, "null")
            && Contains(s2.notifications[|s1.notifications|].message, s.books[bookId].title.value)
  {
    DecreaseThenIncrease(s.books, bookId);
  }

  // ---------------------------------------------------------------- the service

  /** The borrowing service, wired to the catalog and the notification recorder it delegates to. */
  class BorrowingService {
    const catalog: BookService
    const notices: NotificationService
    var transactions: seq<Transaction>

    ghost predicate Valid()
      reads this, catalog, notices
    {
      catalog.Valid() && notices.Valid() && LoanRecordsValid(transactions)
    }

    /** The engine's view of the shared state. */
    function State(): Ledger
      reads this, catalog, notices
    {
      Ledger(catalog.books, transactions, notices.log)
    }

    constructor (catalog: BookService, notices: NotificationService)
      requires catalog.Valid() && notices.Valid()
      ensures Valid() && this.catalog == catalog && this.notices == notices && transactions == []
    {
      this.catalog := catalog;
      this.notices := notices;
      transactions := [];
    }

    /** `getAllTransactions`: every stored transaction, in id order. */
    function GetAllTransactions(): (r: seq<Transaction>)
      reads this, catalog, notices
      requires Valid()
      ensures forall t :: t in r <==> t in transactions
      ensures forall i :: 0 <= i < |r| ==> r[i].id == Some(i)
    {
      transactions
    }

    /** `getTransactionById`. */
    function GetTransactionById(id: nat): (r: Option<Transaction>)
      reads this
      ensures r.Some? <==> id < |transactions|
      ensures r.Some? ==> r.value == transactions[id]
    {
      if id < |transactions| then Some(transactions[id]) else None
    }

    /** `getMemberBorrowings(memberId)`: the member's BORROWED transactions; returned history is excluded. */
    function GetMemberBorrowings(memberId: nat): (r: seq<Transaction>)
      reads this, catalog, notices
      requires Valid()
      ensures forall t :: t in r <==> t in transactions && t.memberId == memberId && t.status == Borrowed
      ensures |r| == CountActiveBorrowingsByMember(transactions, memberId)
      ensures |r| <= MaxBorrowingLimit
    {
      CountIsLengthOfActiveList(transactions, memberId);
      FindByMemberAndStatus(transactions, memberId, Borrowed)
    }

    /** `getOverdueTransactions()` on day `today`. */
    function GetOverdueTransactions(today: nat): (r: seq<Transaction>)
      reads this
      ensures forall t :: t in r <==> t in transactions && IsOverdueAt(t, today)
    {
      FindOverdueTransactions(transactions, today)
    }

    /** `borrowBook`: limit check, availability check, then decrement, save, notify. */
    method BorrowBook(bookId: nat, memberId: nat, today: nat, now: nat) returns (r: Result<Transaction, LoanError>)
      requires Valid()
      modifies this, catalog, notices
      ensures Valid()
      ensures (r, State()) == Borrow(old(State()), bookId, memberId, today, now)
      ensures catalog.nextId == old(catalog.nextId)
    {
      var activeBorrowings := CountActiveBorrowingsByMember(transactions, memberId);
      if activeBorrowings >= MaxBorrowingLimit {
        return Failure(LimitExceeded);
      }
      if !catalog.IsBookAvailable(bookId) {
        return Failure(BookUnavailable);
      }
      ghost var before := State();
      var transaction := PendingLoan(bookId, memberId, today);
      var book := StubBook(bookId);
      catalog.DecreaseAvailableCopies(bookId);
      var saved := transaction.(id := Some(|transactions|));
      LoanRecordsAfterAppend(transactions, saved);
      transactions := transactions + [saved];
      notices.SendBorrowingConfirmation(memberId, book, today, now);
      r := Success(saved);
      assert State() == Ledger(DecreasedCopies(before.books, bookId), before.transactions + [saved],
                               Appended(before.notifications, BorrowingConfirmation(memberId, book, today, now)));
    }

    /** `returnBook`: lookup, status check, then mark returned, increment, save, notify. */
    method ReturnBook(transactionId: nat, today: nat, now: nat) returns (r: Result<Transaction, LoanError>)
      requires Valid()
      modifies this, catalog, notices
      ensures Valid()
      ensures (r, State()) == Return(old(State()), transactionId, today, now)
      ensures catalog.nextId == old(catalog.nextId)
    {
      if transactionId >= |transactions| {
        return Failure(TransactionNotFound);
      }
      var transaction := transactions[transactionId];
      if transaction.status != Borrowed {
        return Failure(AlreadyReturned);
      }
      transaction := transaction.(returnDate := Some(today), status := Returned);
      LoanRecordsAfterReturn(transactions, transactionId, transaction);
      catalog.IncreaseAvailableCopies(transaction.bookId);
      transactions := transactions[transactionId := transaction];
      var book := match catalog.GetBookById(transaction.bookId)
        case Some(b) => b
        case None => StubBook(transaction.bookId);
      notices.SendReturnConfirmation(transaction.memberId, book, now);
      r := Success(transaction);
    }
  }
}
