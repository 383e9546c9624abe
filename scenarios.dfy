/** Concrete runs of the model, matching the situations the repository's tests describe. */
module Scenarios {
  import opened Wrappers
  import opened Text
  import opened Entities
  import opened TransactionQueries
  import opened BookCatalog
  import opened Notifications
  import opened Borrowing

  function CatalogEntry(id: nat, title: string, author: string, genre: string, copies: int): Book {
    Book(Some(id), Some(title), Some(author), Some(genre), None, None, copies, Some(copies))
  }

  /**
    * The last copy: the first borrow succeeds and empties the shelf, a second
    * member's borrow of the same book is refused as unavailable.
    */
  lemma LastCopyScenario(today: nat, now: nat)
    ensures var s := Ledger(map[1 := CatalogEntry(1, "Test Book", "Author", "Fiction", 1)], [], []);
            var (r1, s1) := Borrow(s, 1, 10, today, now);
            && r1.Success?
            && r1.value.status == Borrowed && r1.value.dueDate == Some(today + 14)
            && s1.books[1].availableCopies == 0
            && Borrow(s1, 1, 11, today, now) == (Failure(BookUnavailable), s1)
  {
  }

  /** Five transactions BORROWED by one member, the sixth borrow is refused for the limit. */
  lemma SixthBorrowScenario(today: nat, now: nat)
    ensures var loan := Transaction(Some(0), 2, 10, 0, Some(14), None, Borrowed);
            var ts := [loan.(id := Some(0)), loan.(id := Some(1)), loan.(id := Some(2)), loan.(id := Some(3)), loan.(id := Some(4))];
            var s := Ledger(map[1 := CatalogEntry(1, "Test Book", "Author", "Fiction", 3)], ts, []);
            Borrow(s, 1, 10, today, now) == (Failure(LimitExceeded), s)
  {
    var loan := Transaction(Some(0), 2, 10, 0, Some(14), None, Borrowed);
    var ts := [loan.(id := Some(0)), loan.(id := Some(1)), loan.(id := Some(2)), loan.(id := Some(3)), loan.(id := Some(4))];
    CountAllActive(ts, 10);
  }

  /** A loan due five days ago is overdue until it is returned, and not after. */
  lemma OverdueUntilReturnedScenario(today: nat, now: nat)
    requires today >= 19
    ensures var loan := Transaction(Some(0), 1, 10, today - 19, Some(today - 5), None, Borrowed);
            var s := Ledger(map[1 := CatalogEntry(1, "Test Book", "Author", "Fiction", 0)], [loan], []);
            var (r, s') := Return(s, 0, today, now);
            && FindOverdueTransactions(s.transactions, today) == [loan]
            && r.Success?
            && FindOverdueTransactions(s'.transactions, today) == []
  {
  }

  /** A text none of whose letters folds to the pattern's first letter does not contain the pattern, ignoring case. */
  lemma NoLeadLetterNoMatch(s: string, t: string)
    requires |t| > 0
    requires forall i :: 0 <= i < |s| ==> LowerChar(s[i]) != LowerChar(t[0])
    ensures !ContainsIgnoreCase(s, t)
  {
    forall i | 0 <= i <= |Lower(s)| ensures !OccursAt(Lower(s), Lower(t), i) {
      if i <= |s| - |t| {
        assert Lower(s)[i..i + |t|][0] == LowerChar(s[i]) != Lower(t)[0];
      }
    }
  }

  /** "java" occurs in "Java Programming", ignoring case. */
  lemma JavaInJavaProgramming()
    ensures ContainsIgnoreCase("Java Programming", "java")
  {
    var title, keyword := "Java Programming", "java";
    assert |Lower(keyword)| == 4;
    assert Lower(title)[0] == LowerChar('J') == 'j' == Lower(keyword)[0];
    assert Lower(title)[1] == 'a' == Lower(keyword)[1];
    assert Lower(title)[2] == 'v' == Lower(keyword)[2];
    assert Lower(title)[3] == 'a' == Lower(keyword)[3];
    assert Lower(title)[0..4] == Lower(keyword);
    ContainsAt(Lower(title), Lower(keyword), 0);
  }

  /** "java" does not occur in "Jane Smith", ignoring case: the only `j` is followed by "an", then `e`. */
  lemma JavaNotInJaneSmith()
    ensures !ContainsIgnoreCase("Jane Smith", "java")
  {
    var author, keyword := "Jane Smith", "java";
    forall i | 0 <= i <= |Lower(author)| ensures !OccursAt(Lower(author), Lower(keyword), i) {
      if i == 0 {
        assert Lower(author)[0..4][2] == 'n' != Lower(keyword)[2];
      } else if i <= |author| - |keyword| {
        assert Lower(author)[i..i + 4][0] == LowerChar(author[i]) != Lower(keyword)[0];
      }
    }
  }

  /**
    * The keyword search of the repository test: over the Java and the Python
    * book, "java" finds the Java book alone.
    */
  lemma KeywordMatchesTitleScenario()
    ensures var java := CatalogEntry(1, "Java Programming", "John Doe", "Programming", 5);
            var python := CatalogEntry(2, "Python Programming", "Jane Smith", "Programming", 0);
            Search(map[1 := java, 2 := python], "java") == {java}
  {
    var java := CatalogEntry(1, "Java Programming", "John Doe", "Programming", 5);
    var python := CatalogEntry(2, "Python Programming", "Jane Smith", "Programming", 0);
    var m := map[1 := java, 2 := python];
    JavaInJavaProgramming();
    NoLeadLetterNoMatch("Python Programming", "java");
    NoLeadLetterNoMatch("Programming", "java");
    JavaNotInJaneSmith();
    assert !MatchesKeyword(python, "java");
    assert m[1] == java && m[2] == python;
    assert java in m.Values && python in m.Values;
    assert forall b :: b in m.Values ==> b == java || b == python;
  }

  /** The repository test's listing of available books: the book with no copies left is not listed. */
  lemma AvailableListingScenario()
    ensures var java := CatalogEntry(1, "Java Programming", "John Doe", "Programming", 5);
            var python := CatalogEntry(2, "Python Programming", "Jane Smith", "Programming", 0);
            Available(map[1 := java, 2 := python]) == {java}
  {
    var java := CatalogEntry(1, "Java Programming", "John Doe", "Programming", 5);
    var python := CatalogEntry(2, "Python Programming", "Jane Smith", "Programming", 0);
    var m := map[1 := java, 2 := python];
    assert m[1] == java && m[2] == python;
    assert java in m.Values && python in m.Values;
    assert forall b :: b in m.Values ==> b == java || b == python;
    assert Available(m) == {java};
  }

  /** The services wired together as the application wires them, driven through one loan. */
  method CirculationRun(today: nat, now: nat)
  {
    var catalog := new BookService();
    var notices := new NotificationService();
    var saved := catalog.SaveBook(Book(None, Some("Test Book"), Some("Author"), None, None, None, 1, None));
    assert saved.Some? && saved.value.id == Some(0) && saved.value.totalCopies == Some(1);
    var engine := new BorrowingService(catalog, notices);
    assert IsAvailable(engine.State().books, 0);

    var loan := engine.BorrowBook(0, 7, today, now);
    assert loan.Success? && loan.value.id == Some(0);
    assert catalog.books[0].availableCopies == 0;
    assert engine.transactions[0].memberId == 7 && |engine.transactions| == 1;
    RefusedBorrow(engine, today, now);

  }

  /** While the only copy is out, another member's borrow is refused and changes nothing. */
  method RefusedBorrow(engine: BorrowingService, today: nat, now: nat)
    requires engine.Valid() && 0 in engine.catalog.books && engine.catalog.books[0].availableCopies == 0
    requires |engine.transactions| == 1 && engine.transactions[0].memberId == 7
    modifies engine, engine.catalog, engine.notices
  {
    var before := engine.State();
    assert CountActiveBorrowingsByMember(before.transactions, 8) == 0;
    var refused := engine.BorrowBook(0, 8, today, now);
    assert refused == Failure(BookUnavailable) && engine.State() == before;
  }

  /** The same wiring driven through a return: the copy comes back, and a second return is refused. */
  method ReturnRun(today: nat, now: nat)
  {
    var catalog := new BookService();
    var notices := new NotificationService();
    var saved := catalog.SaveBook(Book(None, Some("Test Book"), Some("Author"), None, None, None, 1, None));
    assert saved.Some? && saved.value.id == Some(0);
    var engine := new BorrowingService(catalog, notices);
    assert IsAvailable(engine.State().books, 0);
    var loan := engine.BorrowBook(0, 7, today, now);
    assert loan.Success? && engine.transactions[0].status == Borrowed;

    var back := engine.ReturnBook(0, today + 3, now + 1);
    assert back.Success? && back.value.returnDate == Some(today + 3);
    assert catalog.books[0].availableCopies == 1;
    assert engine.transactions[0].status == Returned && |engine.transactions| == 1;
    RefusedReturns(engine, today + 4, now + 2);
  }

  /** Returning a loan that is already closed, or one that was never opened, changes nothing. */
  method RefusedReturns(engine: BorrowingService, today: nat, now: nat)
    requires engine.Valid() && |engine.transactions| == 1 && engine.transactions[0].status == Returned
    modifies engine, engine.catalog, engine.notices
  {
    var before := engine.State();
    var again := engine.ReturnBook(0, today, now);
    assert again == Failure(AlreadyReturned) && engine.State() == before;
    var missing := engine.ReturnBook(5, today, now);
    assert missing == Failure(TransactionNotFound) && engine.State() == before;
  }
}
