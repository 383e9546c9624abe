# Library borrowing core, modelled in Dafny

This project models the core of a library management back end: the catalog
of books, the member register, book loans (borrow and return) and the
notification log they write to. It covers four things:

- **Borrowing.**
  - A member may hold at most 5 loans with status BORROWED.
  - A borrow is refused when the member is at that limit. It is also refused when the book is not stored or has no copy on the shelf.
  - A successful borrow takes one copy off the shelf. It stores a BORROWED transaction due 14 days later and records a confirmation for the member.
  - A return is refused for an unknown transaction, and for one whose status is not BORROWED.
  - A successful return marks the transaction RETURNED with the return date. It puts the copy back and records a confirmation.
- **The catalog.**
  - Availability test; decrease and increase of the available copies.
  - A save fills in a missing total from the available count.
  - Deletion, the listing of available books, and keyword search. The search looks at title, author and genre and ignores case.
- **The member register.**
  - Lookup by id and by email, a case-insensitive name search, the list of ACTIVE members, save and delete.
- **Notifications.**
  - The three messages: borrow confirmation, return confirmation and overdue notice.
  - A member's notifications, listed newest first.

## How the model is built

- **Records.** Each persisted record is a `datatype` in module `Entities`. Its id is `Option<nat>`: `None` means not yet saved.
  - A transaction refers to its book and its member by id.
  - The nullable columns without a field default are `Option`s. The nullable columns that have one are plain fields (see "Left out").
  - The entity defaults are the constructor functions `NewTransaction`, `NewMember` and `NewNotification`. These defaults are status BORROWED, membership ACTIVE, registration today, and unread with a creation timestamp.
- **Services.** The services are classes over their stores, and their methods are proved against value-level functions:
  - `BookCatalog.BookService`: a map of books and the next fresh id.
  - `MemberStore.MemberService`: a map of members and the next fresh id.
  - `Notifications.NotificationService`: an append-only log whose ids are positions.
  - `Borrowing.BorrowingService`: the transaction store. It also holds references to the catalog and notification service objects it delegates to.
- **Borrow and return.** The functions `Borrow` and `Return` in module `Borrowing` state each operation on a value `Ledger` (books, transactions, notifications). `BorrowBook` and `ReturnBook` perform the same steps in place, in the order the Java service performs them, and are proved to reach exactly the state `Borrow`/`Return` describe. The invariant and round-trip lemmas are then stated about those functions.
- **Repository queries.** The queries of the transaction repository are filters over the stored transactions, in module `TransactionQueries`. The COUNT query is a recursive count.
- **Store constraints.** A column constraint the store enforces is modelled as a rejected save: `SaveBook` and `SaveMember` return `None`. The constraints modelled are:
  - book title and author NOT NULL;
  - book ISBN UNIQUE;
  - member email UNIQUE.
  - not modelled: member name and email NOT NULL. They are plain strings, so no value can be missing (see "Left out").
- **Loan records invariant.** `BorrowingService.Valid` holds the catalog's and the log's invariants and `LoanRecordsValid` on the transactions: no member above 5 BORROWED loans, a return date exactly on RETURNED transactions, no OVERDUE status, ids equal to positions. The copy-count half of `Invariant` (no negative available count) is kept by each `Borrow` and `Return` step but is not an object invariant of the services: `saveBook` stores a book as given, negative count included.
- **Clock.** Calendar days (`today`) and timestamps (`now`) are parameters. The system clock is not read.

Points where the model follows the code rather than what one might expect:

- **Borrow confirmation.** `borrowBook` hands the notification service a new book object that carries only the id. So the borrow confirmation names the title `null` (`Borrowing.Borrow`, `Borrowing.ConfirmationTitles`). The return confirmation uses the stored book and names its real title.
- **Member lookup.** `borrowBook` never looks the member up. Only the count of that member id's BORROWED transactions matters.
- **OVERDUE status.** No operation ever writes the status OVERDUE. The overdue query selects BORROWED transactions whose due date has passed, so a transaction stored as OVERDUE would not be found by it. The test data builder's `overdue()` sets exactly that status. `BorrowingServiceTest.java:259-275` stubs `findOverdueTransactions`, so it never exercises the query's `status = 'BORROWED'` condition.
- **No bound on copies.** `increaseAvailableCopies` has no bound: `availableCopies` can exceed `totalCopies` (`BookCatalog.IncreaseMayExceedTotal`).
- **Search query.** The catalog's search query lives in `BookRepository.java`, which is not part of this model. `BookCatalog.MatchesKeyword` models the documented behaviour: title, author or genre contains the keyword, ignoring case. `Scenarios.KeywordMatchesTitleScenario` checks that behaviour against the repository test that searches for "java".

## Model

| member | source | states |
|---|---|---|
| Entities.NewTransaction | src/main/java/com/library/entity/BorrowingTransaction.java:42-48 | a new transaction is unsaved, has status BORROWED (the field default, one of BORROWED/RETURNED/OVERDUE), no due date and no return date |
| Entities.StubBook | src/main/java/com/library/service/BorrowingService.java:55-56 | the book `borrowBook` builds carries its id and no title, author, genre or ISBN |
| Borrowing.PendingLoan | src/main/java/com/library/service/BorrowingService.java:54-61 | the loan built for a borrow is BORROWED on `today`, due `today + 14`, with no return date and no id yet |
| Borrowing.Borrow | src/main/java/com/library/service/BorrowingService.java:38-73 | limit reached (count >= 5) fails with LimitExceeded before availability is looked at; otherwise an unavailable book fails with BookUnavailable; success exactly when count < 5 and the book is available; a failure changes nothing; a success stores the BORROWED transaction under the next id, takes one copy off that book only, and appends one GENERAL unread notification stamped `now` whose message contains "successfully borrowed" and "null" |
| Borrowing.Return | src/main/java/com/library/service/BorrowingService.java:76-103 | unknown id fails with TransactionNotFound; a non-BORROWED transaction fails with AlreadyReturned; success exactly when the transaction exists and is BORROWED; a failure changes nothing; a success marks it RETURNED with return date `today`, puts one copy back on a stored book, changes no other book and appends one GENERAL notification whose message contains "successfully returned" and the stored title |
| Borrowing.LoanedBook | src/main/java/com/library/service/BorrowingService.java:100 | the return confirmation uses the stored book when there is one, and a book without a title otherwise |
| Borrowing.BorrowPreservesInvariant | src/main/java/com/library/service/BorrowingService.java:42-64 | a borrow keeps: no member above 5 BORROWED loans, no negative copy count, a return date exactly on RETURNED transactions, no OVERDUE status, ids equal to positions |
| Borrowing.LoanStepKeepsInvariant | src/main/java/com/library/service/BorrowingService.java:53-70 | recording one BORROWED loan of an available book for a member under the limit keeps the invariant |
| Borrowing.ReturnPreservesInvariant | src/main/java/com/library/service/BorrowingService.java:76-103 | a return keeps the same invariant |
| Borrowing.EmptyLedgerInvariant | src/main/java/com/library/service/BorrowingService.java:26 | an empty transaction store over books with non-negative copies satisfies the invariant |
| Borrowing.WithinLimitAfterAppend | src/main/java/com/library/service/BorrowingService.java:42-46 | adding a loan for a member below the limit keeps every member within the limit |
| Borrowing.LoanRecordsAfterAppend | src/main/java/com/library/service/BorrowingService.java:42-67 | saving a BORROWED loan without return date under the next id, for a member below the limit, keeps the loan records invariant |
| Borrowing.LoanRecordsAfterReturn | src/main/java/com/library/service/BorrowingService.java:89-94 | replacing a BORROWED transaction by its RETURNED version with a return date, same id and member, keeps the loan records invariant |
| Borrowing.ErrorMessage | src/main/java/com/library/service/BorrowingService.java:45-86 | each refusal maps to the non-empty message of the exception the service throws for it |
| Borrowing.ErrorMessagesDistinct | src/main/java/com/library/service/BorrowingService.java:45-86 | two refusals with the same message are the same refusal |
| Borrowing.LoanTerms | src/main/java/com/library/service/BorrowingService.java:26-27 | with 4 BORROWED loans and an available book a borrow succeeds, borrowed today and due 14 days later; with 5 it fails with LimitExceeded |
| Borrowing.BorrowThenReturnRestoresBooks | src/main/java/com/library/service/BorrowingService.java:64 | a successful borrow followed by the return of that transaction leaves every book as it was |
| Borrowing.BorrowThenReturnRestoresCount | src/main/java/com/library/service/BorrowingService.java:91 | a successful borrow followed by its return leaves every member's active count as it was |
| Borrowing.SecondReturnFails | src/main/java/com/library/service/BorrowingService.java:85-87 | once a return succeeds, returning the same id again fails with AlreadyReturned and changes nothing |
| Borrowing.OverdueNeverWritten | src/main/java/com/library/service/BorrowingService.java:61 | neither borrow nor return ever stores the status OVERDUE |
| Borrowing.ReturnShrinksOverdue | src/main/java/com/library/service/BorrowingService.java:91 | after a return the overdue query never finds the returned transaction and finds nothing it did not find before |
| Borrowing.ConfirmationTitles | src/main/java/com/library/service/BorrowingService.java:70 | the borrow confirmation contains "null" while the confirmation of its return contains the stored title |
| Borrowing.BorrowingService.constructor | src/main/java/com/library/service/BorrowingService.java:17-24 | the service starts with an empty transaction store over the given catalog and notification service, and satisfies its invariant |
| Borrowing.BorrowingService.BorrowBook | src/main/java/com/library/service/BorrowingService.java:38-73 | the in-place borrow (count, availability, decrement, save, notify) reaches exactly the result and state of `Borrow` |
| Borrowing.BorrowingService.ReturnBook | src/main/java/com/library/service/BorrowingService.java:76-103 | the in-place return (lookup, status check, update, increment, save, notify) reaches exactly the result and state of `Return` |
| Borrowing.BorrowingService.GetAllTransactions | src/main/java/com/library/service/BorrowingService.java:29-31 | every stored transaction, each carrying its position as id |
| Borrowing.BorrowingService.GetTransactionById | src/main/java/com/library/service/BorrowingService.java:33-35 | present exactly for a stored id, and then that transaction |
| Borrowing.BorrowingService.GetMemberBorrowings | src/main/java/com/library/service/BorrowingService.java:105-109 | exactly the member's BORROWED transactions, as many as the active count, and so at most 5 |
| Borrowing.BorrowingService.GetOverdueTransactions | src/main/java/com/library/service/BorrowingService.java:111-113 | exactly the stored transactions overdue on `today` |
| TransactionQueries.IsOverdueAt | src/main/java/com/library/repository/BorrowingTransactionRepository.java:16 | only a BORROWED transaction with a due date strictly before the date is overdue; no due date, or a due date on or after the date, is not |
| TransactionQueries.Select | src/main/java/com/library/repository/BorrowingTransactionRepository.java:13-17 | a filter keeps exactly the elements satisfying the condition, never more often than they occur |
| TransactionQueries.SelectWeaker | src/main/java/com/library/repository/BorrowingTransactionRepository.java:16-17 | a weaker condition selects everything a stronger one does |
| TransactionQueries.FindByMemberAndStatus | src/main/java/com/library/repository/BorrowingTransactionRepository.java:13 | exactly the member's transactions with that status |
| TransactionQueries.FindByStatus | src/main/java/com/library/repository/BorrowingTransactionRepository.java:14 | exactly the transactions with that status |
| TransactionQueries.FindOverdueTransactions | src/main/java/com/library/repository/BorrowingTransactionRepository.java:16-17 | exactly the BORROWED transactions with a due date strictly before the date; never a RETURNED or OVERDUE one; a missing due date never qualifies |
| TransactionQueries.OverdueMonotone | src/main/java/com/library/repository/BorrowingTransactionRepository.java:16-17 | a later date finds every transaction an earlier date finds |
| TransactionQueries.CountActiveBorrowingsByMember | src/main/java/com/library/repository/BorrowingTransactionRepository.java:19-20 | the count is at most the number of transactions and is zero exactly when the member has no BORROWED transaction |
| TransactionQueries.CountAllActive | src/main/java/com/library/repository/BorrowingTransactionRepository.java:19-20 | when every transaction is a BORROWED loan of the member, the count is their number |
| TransactionQueries.CountIsLengthOfActiveList | src/main/java/com/library/repository/BorrowingTransactionRepository.java:13-20 | the COUNT query equals the length of the list query for status BORROWED |
| TransactionQueries.CountAppend | src/main/java/com/library/repository/BorrowingTransactionRepository.java:19-20 | saving one more transaction raises the count by one exactly when it is a BORROWED loan of the member |
| TransactionQueries.CountUpdate | src/main/java/com/library/repository/BorrowingTransactionRepository.java:19-20 | replacing a transaction swaps its contribution to the count for the new one's |
| TransactionQueries.StatusQueriesPartition | src/main/java/com/library/repository/BorrowingTransactionRepository.java:14 | the three status queries together find every transaction exactly once |
| BookCatalog.DecreasedCopies | src/main/java/com/library/service/BookService.java:48-57 | an available book loses exactly one copy; an unknown book or one with no copies is unchanged; other books and all keys are unchanged; copy counts stay non-negative |
| BookCatalog.IncreasedCopies | src/main/java/com/library/service/BookService.java:59-66 | a stored book gains exactly one copy; an unknown id changes nothing; other books and keys are unchanged |
| BookCatalog.DecreaseThenIncrease | src/main/java/com/library/service/BookService.java:48-66 | a decrease that happened is undone by an increase of the same book |
| BookCatalog.IncreaseMayExceedTotal | src/main/java/com/library/service/BookService.java:59-66 | an increase on a book with every copy on the shelf goes above its total |
| BookCatalog.WithDefaultTotal | src/main/java/com/library/service/BookService.java:24-29 | a missing total becomes the available count; a present total is kept; nothing else changes |
| BookCatalog.IsAvailable | src/main/java/com/library/service/BookService.java:43-46 | false for an unknown id; for a stored book, true exactly when it has more than zero available copies |
| BookCatalog.MatchesKeyword | src/main/java/com/library/service/BookService.java:35-37 | only a book with some title, author or genre can match; the empty keyword matches exactly those; a book whose title, author or genre contains the keyword ignoring case matches |
| BookCatalog.Search | src/main/java/com/library/service/BookService.java:35-37 | exactly the stored books whose title, author or genre contains the keyword ignoring case |
| BookCatalog.SearchIgnoresKeywordCase | src/main/java/com/library/service/BookService.java:35-37 | the search result does not depend on the case of the keyword |
| BookCatalog.Available | src/main/java/com/library/service/BookService.java:39-41 | exactly the stored books with more than zero available copies |
| BookCatalog.AvailableListMatchesTest | src/main/java/com/library/service/BookService.java:39-46 | a stored book is listed as available exactly when the availability test holds for its id |
| BookCatalog.BookService.constructor | src/main/java/com/library/service/BookService.java:13-14 | the catalog starts empty |
| BookCatalog.BookService.GetBookById | src/main/java/com/library/service/BookService.java:20-22 | present exactly for a stored id, and then that book |
| BookCatalog.BookService.IsBookAvailable | src/main/java/com/library/service/BookService.java:43-46 | the availability test on the stored books |
| BookCatalog.BookService.GetAvailableBooks | src/main/java/com/library/service/BookService.java:39-41 | the available listing of the stored books |
| BookCatalog.BookService.SearchBooks | src/main/java/com/library/service/BookService.java:35-37 | the keyword search over the stored books |
| BookCatalog.BookService.SaveBook | src/main/java/com/library/service/BookService.java:24-29 | fills in a missing total, then stores the book under its own id or the next fresh one unless title/author are missing or the ISBN is taken; the result and the new store are stated in both cases |
| BookCatalog.BookService.DeleteBook | src/main/java/com/library/service/BookService.java:31-33 | that book is removed and every other book stays |
| BookCatalog.BookService.DecreaseAvailableCopies | src/main/java/com/library/service/BookService.java:48-57 | the store becomes `DecreasedCopies` of the old store |
| BookCatalog.BookService.IncreaseAvailableCopies | src/main/java/com/library/service/BookService.java:59-66 | the store becomes `IncreasedCopies` of the old store |
| MemberStore.ByEmail | src/main/java/com/library/repository/MemberRepository.java:11 | present exactly when a stored member has that email; then it is that member, and the only one |
| MemberStore.NameSearch | src/main/java/com/library/repository/MemberRepository.java:12 | exactly the stored members whose name contains the text ignoring case |
| MemberStore.NameSearchIgnoresCase | src/main/java/com/library/repository/MemberRepository.java:12 | the name search does not depend on the case of the name asked for |
| MemberStore.NameSearchEmptyIsAll | src/main/java/com/library/repository/MemberRepository.java:12 | searching for the empty name lists every stored member |
| MemberStore.WithStatus | src/main/java/com/library/repository/MemberRepository.java:13 | exactly the stored members with that membership status |
| MemberStore.NewMemberSavedActive | src/main/java/com/library/entity/Member.java:36-41 | a new member with an unused email is accepted and stored ACTIVE, so it is listed among the active members |
| MemberStore.MemberService.constructor | src/main/java/com/library/service/MemberService.java:13-14 | the register starts empty |
| MemberStore.MemberService.GetMemberById | src/main/java/com/library/service/MemberService.java:20-22 | present exactly for a stored id, and then that member |
| MemberStore.MemberService.GetMemberByEmail | src/main/java/com/library/service/MemberService.java:32-34 | the email lookup over the stored members |
| MemberStore.MemberService.SearchMembers | src/main/java/com/library/service/MemberService.java:36-38 | the name search over the stored members |
| MemberStore.MemberService.GetActiveMembers | src/main/java/com/library/service/MemberService.java:40-42 | the stored members with status ACTIVE |
| MemberStore.MemberService.SaveMember | src/main/java/com/library/service/MemberService.java:24-26 | stores the member as given under its own id or the next fresh one unless another member has its email; the result and the new store are stated in both cases |
| MemberStore.MemberService.DeleteMember | src/main/java/com/library/service/MemberService.java:28-30 | that member is removed and every other stays |
| Entities.NewMember | src/main/java/com/library/entity/Member.java:36-41 | a new member is unsaved, ACTIVE and registered on the day it is built |
| Entities.NewNotification | src/main/java/com/library/entity/Notification.java:26-32 | a new notification is unsaved, unread and stamped with its creation time |
| Notifications.TitleText | src/main/java/com/library/service/NotificationService.java:20-21 | a missing title renders as "null", a present one as itself |
| Notifications.BorrowingConfirmation | src/main/java/com/library/service/NotificationService.java:17-24 | a GENERAL unread notification for the member whose message contains "successfully borrowed", the title and the due date 14 days after `today` |
| Notifications.ReturnConfirmation | src/main/java/com/library/service/NotificationService.java:26-32 | a GENERAL unread notification for the member whose message contains "successfully returned" and the title |
| Notifications.OverdueNoticeFor | src/main/java/com/library/service/NotificationService.java:34-41 | an OVERDUE_NOTICE unread notification for the member whose message contains the title and "<days> days overdue" |
| Notifications.Appended | src/main/java/com/library/service/NotificationService.java:23 | saving adds exactly one record at the end under the next id and keeps every earlier record |
| Notifications.AppendedKeepsIds | src/main/java/com/library/service/NotificationService.java:23 | saving keeps notification ids equal to positions |
| Notifications.ForMember | src/main/java/com/library/repository/NotificationRepository.java:11 | exactly the member's records, never more often than logged |
| Notifications.InsertByDate | src/main/java/com/library/repository/NotificationRepository.java:11 | inserting adds exactly that record |
| Notifications.InsertStaysBelow | src/main/java/com/library/repository/NotificationRepository.java:11 | inserting a record no newer than a bound among records no newer than it keeps all of them below the bound |
| Notifications.InsertKeepsOrder | src/main/java/com/library/repository/NotificationRepository.java:11 | inserting into a newest-first sequence keeps it newest first |
| Notifications.NewestFirst | src/main/java/com/library/repository/NotificationRepository.java:11 | the result is a permutation of the input ordered by date sent, newest first |
| Notifications.MemberNotifications | src/main/java/com/library/service/NotificationService.java:43-47 | exactly the member's notifications, each as often as logged, newest first |
| Notifications.NotificationService.constructor | src/main/java/com/library/service/NotificationService.java:14-15 | the log starts empty |
| Notifications.NotificationService.SendBorrowingConfirmation | src/main/java/com/library/service/NotificationService.java:17-24 | the log gains exactly the borrowing confirmation at its end |
| Notifications.NotificationService.SendReturnConfirmation | src/main/java/com/library/service/NotificationService.java:26-32 | the log gains exactly the return confirmation at its end |
| Notifications.NotificationService.SendOverdueNotice | src/main/java/com/library/service/NotificationService.java:34-41 | the log gains exactly the overdue notice at its end |
| Notifications.NotificationService.GetMemberNotifications | src/main/java/com/library/service/NotificationService.java:43-47 | the member's notifications, newest first |
| Text.Lower | src/main/java/com/library/repository/MemberRepository.java:12 | same length, every letter lower-cased, no upper-case letter left |
| Text.LowerIdempotent | src/main/java/com/library/repository/MemberRepository.java:12 | lower-casing twice is lower-casing once |
| Text.ContainsIgnoreCaseOfLower | src/main/java/com/library/repository/MemberRepository.java:12 | case-insensitive matching gives the same answer for a pattern and its lower-cased form |
| Text.ContainsIgnoreCaseEmpty | src/main/java/com/library/repository/MemberRepository.java:12 | the empty pattern matches every text |
| Text.ContainsGrowRight | src/main/java/com/library/service/NotificationService.java:20-21 | what occurs in a text still occurs once more text is appended |
| Text.NatText | src/main/java/com/library/service/NotificationService.java:37-38 | a non-empty string of decimal digits whose value is the number |
| Scenarios.LastCopyScenario | src/main/java/com/library/service/BorrowingService.java:47-64 | the first borrow of a last copy succeeds and empties the shelf; a second member's borrow is refused as unavailable |
| Scenarios.SixthBorrowScenario | src/test/java/com/library/service/BorrowingServiceTest.java:118-134 | with five BORROWED loans the sixth borrow fails with LimitExceeded and changes nothing |
| Scenarios.OverdueUntilReturnedScenario | src/main/java/com/library/repository/BorrowingTransactionRepository.java:16-17 | a loan due five days ago is found overdue, and no longer after its return |
| Scenarios.KeywordMatchesTitleScenario | src/test/java/com/library/repository/BookRepositoryTest.java:98-105 | over the test's two books, searching for "java" finds exactly "Java Programming" by John Doe and not "Python Programming" by Jane Smith |
| Scenarios.AvailableListingScenario | src/test/java/com/library/repository/BookRepositoryTest.java:87-94 | of a book with five copies and one with none, only the first is listed as available |

## Left out

- Web controllers and the front end. `BorrowingController` turns the borrowing service's `RuntimeException`s into HTTP 400; the model keeps those distinct errors as `LoanError` values. The book and member controllers do not catch a failed save, so a save that `SaveBook` or `SaveMember` rejects with `None` reaches the client as an uncaught store exception.
- Fines (`Fine`, `FineRepository`): no operation of the modelled services touches them.
- `@Transactional` rollback and concurrent requests. Each operation is one atomic step on the state, and the failure paths change nothing before they fail.
- The clock: `LocalDate.now()` and `LocalDateTime.now()` are the parameters `today` and `now`. The notification service reads the clock separately from the borrowing service; the model passes it the same `today`.
- Dates are rendered into messages as a decimal day number, not as an ISO date.
- Lower-casing is ASCII only; Java's `toLowerCase` handles all of Unicode.
- The store's foreign keys are not checked. The member join column of a transaction is `nullable = false` (`BorrowingTransaction.java:28-30`), so in the source saving a transaction for a member id that is not stored fails at the insert (`BorrowingService.java:67`) and the whole borrow rolls back. In the model that borrow succeeds, as nothing in `borrowBook` looks the member up.
- A stored `null` in `availableCopies` is not modelled: the column is NOT NULL, and the model's field is a plain `int` (the Java field is an `Integer`).
- The order of book and member query results: they are sets. Transaction queries keep the stored (id) order.
- BookCatalog.IncreasedCopies: does not model the 32-bit wrap of `getAvailableCopies() + 1` at `Integer.MAX_VALUE` (`BookService.java:63`). The model's counts are unbounded, and `ReturnPreservesInvariant`'s non-negative copy count relies on that.
- MemberStore.MemberService.SaveMember: a save with an explicit id that is not stored is an upsert under that id and advances the next fresh id past it; JPA's merge would assign a fresh id instead. Name and email are plain strings, so the NOT NULL constraint on them (`Member.java:23-28`) cannot be expressed and is never a reason to reject.
- BookCatalog.BookService.SaveBook: a save with an explicit id that is not stored is an upsert under that id. It does not model JPA's merge assigning a fresh id in that case.
- BookCatalog.BookService.DeleteBook: deleting an id that is not stored is a no-op, with no error. The deletion of a book that transactions still refer to is not refused, as the store's foreign key would refuse it; a later return of such a loan uses a titleless book for its confirmation.
- MemberStore.MemberService.DeleteMember: deleting an id that is not stored is a no-op, with no error. The deletion of a member that transactions still refer to is not refused, as the store's foreign key would refuse it.
- Three nullable columns with a field default are modelled as always set: `Member.membershipStatus` and `Member.registrationDate` (`Member.java:37-41`) and `BorrowingTransaction.status` (`BorrowingTransaction.java:43-44`). In the source a member saved with a null status is stored and then found by no status query; the model cannot represent that member.
- `Notification.type` (`Notification.java:29-30`) is nullable and has no field default, but every send method of the notification service sets it before saving, so the model's `kind` is a plain field.
- `getAllBooks` and `getAllMembers` are the maps' value sets and have no members of their own.
- The message wording: `BorrowingConfirmation`, `ReturnConfirmation` and `OverdueNoticeFor` state which parts a message contains, not the exact text.
