/**
  * The catalog: the stored books keyed by id, and the service that is the
  * only writer of their `availableCopies`.
  */
module BookCatalog {
  import opened Wrappers
  import opened Entities
  import opened Text

  /** Availability: the book is stored and has at least one copy on the shelf. */
  function IsAvailable(books: map<nat, Book>, id: nat): (r: bool)
    ensures id !in books ==> !r
    ensures id in books ==> (r <==> books[id].availableCopies > 0)
  {
    id in books && books[id].availableCopies > 0
  }

  /** No stored book has a negative number of available copies. */
  predicate NonNegativeCopies(books: map<nat, Book>) {
    forall k :: k in books ==> books[k].availableCopies >= 0
  }

  /**
    * `decreaseAvailableCopies`: one copy fewer for a stored book that has a
    * copy left; otherwise nothing changes.
    */
  function DecreasedCopies(books: map<nat, Book>, id: nat): (r: map<nat, Book>)
    ensures r.Keys == books.Keys
    ensures forall k :: k in books && k != id ==> r[k] == books[k]
    ensures id in books ==> r[id] == books[id].(availableCopies := r[id].availableCopies)
    ensures IsAvailable(books, id) ==> r[id].availableCopies == books[id].availableCopies - 1
    ensures !IsAvailable(books, id) ==> r == books
    ensures forall k :: k in r ==> r[k].availableCopies >= 0 || r[k] == books[k]
    ensures NonNegativeCopies(books) ==> NonNegativeCopies(r)
  {
    if IsAvailable(books, id) then
      books[id := books[id].(availableCopies := books[id].availableCopies - 1)]
    else
      books
  }

  /**
    * `increaseAvailableCopies`: one copy more for a stored book, with no
    * bound against `totalCopies`; nothing changes for an unknown id.
    */
  function IncreasedCopies(books: map<nat, Book>, id: nat): (r: map<nat, Book>)
    ensures r.Keys == books.Keys
    ensures forall k :: k in books && k != id ==> r[k] == books[k]
    ensures id in books ==> r[id] == books[id].(availableCopies := books[id].availableCopies + 1)
    ensures id !in books ==> r == books
    ensures NonNegativeCopies(books) ==> NonNegativeCopies(r)
  {
    if id in books then
      books[id := books[id].(availableCopies := books[id].availableCopies + 1)]
    else
      books
  }

  /** A decrease that happened is undone by an increase of the same book. */
  lemma DecreaseThenIncrease(books: map<nat, Book>, id: nat)
    requires IsAvailable(books, id)
    ensures IncreasedCopies(DecreasedCopies(books, id), id) == books
  {
    var after := IncreasedCopies(DecreasedCopies(books, id), id);
    assert after.Keys == books.Keys;
    assert forall k :: k in books ==> after[k] == books[k];
  }

  /**
    * The increase is not bounded by `totalCopies`: a book whose every copy
    * is on the shelf goes above its total.
    */
  lemma IncreaseMayExceedTotal(books: map<nat, Book>, id: nat)
    requires id in books && books[id].totalCopies == Some(books[id].availableCopies)
    ensures IncreasedCopies(books, id)[id].availableCopies > IncreasedCopies(books, id)[id].totalCopies.value
  {
  }

  /** The default `saveBook` applies: a missing total becomes the available count. */
  function WithDefaultTotal(b: Book): (r: Book)
    ensures b.totalCopies.None? ==> r.totalCopies == Some(b.availableCopies)
    ensures b.totalCopies.Some? ==> r == b
    ensures r.(totalCopies := b.totalCopies) == b
  {
    if b.totalCopies.None? then b.(totalCopies := Some(b.availableCopies)) else b
  }

  /**
    * The store's column constraints for keeping `b` under key `k`: title and
    * author NOT NULL, ISBN UNIQUE among the other stored books.
    */
  predicate AcceptsRow(books: map<nat, Book>, k: nat, b: Book) {
    && b.title.Some?
    && b.author.Some?
    && (b.isbn.Some? ==> forall j :: j in books && j != k ==> books[j].isbn != b.isbn)
  }

  /** The stored books as the store keeps them: keyed by their own id, below the next fresh id, within the constraints. */
  predicate WellFormed(books: map<nat, Book>, nextId: nat) {
    && (forall k :: k in books ==> k < nextId && books[k].id == Some(k))
    && (forall k :: k in books ==> books[k].title.Some? && books[k].author.Some?)
    && (forall i, j :: i in books && j in books && i != j && books[i].isbn.Some? ==> books[i].isbn != books[j].isbn)
  }

  /** The id a save stores under: the record's own id, or the next fresh one for a new record. */
  function SaveKey(b: Book, nextId: nat): nat {
    if b.id.Some? then b.id.value else nextId
  }

  /** The keyword match of `searchBooks`: title, author or genre contains it, ignoring case; a missing field never matches. */
  function MatchesKeyword(b: Book, keyword: string): (r: bool)
    ensures r ==> b.title.Some? || b.author.Some? || b.genre.Some?
    ensures keyword == "" ==> (r <==> b.title.Some? || b.author.Some? || b.genre.Some?)
    ensures b.title.Some? && ContainsIgnoreCase(b.title.value, keyword) ==> r
    ensures b.author.Some? && ContainsIgnoreCase(b.author.value, keyword) ==> r
    ensures b.genre.Some? && ContainsIgnoreCase(b.genre.value, keyword) ==> r
  {
    ContainsIgnoreCaseEmpty();
    || (b.title.Some? && ContainsIgnoreCase(b.title.value, keyword))
    || (b.author.Some? && ContainsIgnoreCase(b.author.value, keyword))
    || (b.genre.Some? && ContainsIgnoreCase(b.genre.value, keyword))
  }

  /** `searchBooks(keyword)` over the stored books. */
  function Search(books: map<nat, Book>, keyword: string): (r: set<Book>)
    ensures forall b :: b in r <==> b in books.Values && MatchesKeyword(b, keyword)
  {
    set b | b in books.Values && MatchesKeyword(b, keyword)
  }

  /** The search does not depend on the case of the keyword. */
  lemma SearchIgnoresKeywordCase(books: map<nat, Book>, keyword: string)
    ensures Search(books, Lower(keyword)) == Search(books, keyword)
  {
    ContainsIgnoreCaseOfLower(keyword);
  }

  /** `getAvailableBooks`: the stored books with more than zero available copies. */
  function Available(books: map<nat, Book>): (r: set<Book>)
    ensures forall b :: b in r <==> b in books.Values && b.availableCopies > 0
  {
    set b | b in books.Values && b.availableCopies > 0
  }

  /** A stored book is listed as available exactly when the availability test says so. */
  lemma AvailableListMatchesTest(books: map<nat, Book>, k: nat)
    requires k in books
    ensures books[k] in Available(books) <==> IsAvailable(books, k)
  {
  }

  /** The catalog service: the stored books and the next fresh id. */
  class BookService {
    var books: map<nat, Book>
    var nextId: nat

    ghost predicate Valid()
      reads this
    {
      WellFormed(books, nextId)
    }

    constructor ()
      ensures Valid() && books == map[] && nextId == 0
    {
      books := map[];
      nextId := 0;
    }

    /** `getBookById`. */
    function GetBookById(id: nat): (r: Option<Book>)
      reads this
      ensures r.Some? <==> id in books
      ensures r.Some? ==> r.value == books[id]
    {
      if id in books then Some(books[id]) else None
    }

    /** `isBookAvailable(id)`: look the book up, then test its shelf count. */
    function IsBookAvailable(id: nat): (r: bool)
      reads this
      ensures r == IsAvailable(books, id)
    {
      match GetBookById(id)
      case Some(b) => b.availableCopies > 0
      case None => false
    }

    /** `getAvailableBooks`. */
    function GetAvailableBooks(): (r: set<Book>)
      reads this
      ensures r == Available(books)
    {
      Available(books)
    }

    /** `searchBooks(keyword)`. */
    function SearchBooks(keyword: string): (r: set<Book>)
      reads this
      ensures r == Search(books, keyword)
    {
      Search(books, keyword)
    }

    /**
      * `saveBook`: fill in a missing total, then store the row (under its own
      * id, or a fresh one for a new book) unless a column constraint rejects it.
      */
    method SaveBook(b: Book) returns (r: Option<Book>)
      requires Valid()
      modifies this
      ensures Valid()
      ensures var k := SaveKey(b, old(nextId));
              var stored := WithDefaultTotal(b).(id := Some(k));
              if AcceptsRow(old(books), k, WithDefaultTotal(b)) then
                && r == Some(stored)
                && books == old(books)[k := stored]
                && nextId == (if k < old(nextId) then old(nextId) else k + 1)
              else
                r.None? && books == old(books) && nextId == old(nextId)
    {
      var book := b;
      if book.totalCopies.None? {
        book := book.(totalCopies := Some(book.availableCopies));
      }
      var k := SaveKey(book, nextId);
      if AcceptsRow(books, k, book) {
        var stored := book.(id := Some(k));
        books := books[k := stored];
        if nextId <= k {
          nextId := k + 1;
        }
        r := Some(stored);
      } else {
        r := None;
      }
    }

    /** `deleteBook(id)`: that book goes, every other stays as it was. */
    method DeleteBook(id: nat)
      requires Valid()
      modifies this
      ensures Valid()
      ensures books == old(books) - {id} && nextId == old(nextId)
    {
      books := books - {id};
    }

    /** `decreaseAvailableCopies(id)`. */
    method DecreaseAvailableCopies(id: nat)
      requires Valid()
      modifies this
      ensures Valid()
      ensures books == DecreasedCopies(old(books), id) && nextId == old(nextId)
    {
      if id in books {
        var book := books[id];
        if book.availableCopies > 0 {
          book := book.(availableCopies := book.availableCopies - 1);
          books := books[id := book];
        }
      }
    }

    /** `increaseAvailableCopies(id)`. */
    method IncreaseAvailableCopies(id: nat)
      requires Valid()
      modifies this
      ensures Valid()
      ensures books == IncreasedCopies(old(books), id) && nextId == old(nextId)
    {
      if id in books {
        var book := books[id];
        book := book.(availableCopies := book.availableCopies + 1);
        books := books[id := book];
      }
    }
  }
}
