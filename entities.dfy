/**
  * The four persisted records of the library: books, members, borrowing
  * transactions and notifications. Every record carries `id: Option<nat>`:
  * `None` is the id of a record that has been built but not saved yet, and the
  * store assigns `Some(k)` when it saves it. References between records
  * (a transaction's book and member, a notification's member) are ids.
  */
module Entities {
  import opened Wrappers

  // ---------------------------------------------------------------- Book

  /**
    * A catalog entry. The title and author columns are NOT NULL and the ISBN
    * column is UNIQUE in the store; the record itself may lack any of them
    * (the stub book that `borrowBook` builds carries only an id).
    * `totalCopies` is nullable until the catalog service fills it in on save.
    */
  datatype Book = Book(
    id: Option<nat>,
    title: Option<string>,
    author: Option<string>,
    genre: Option<string>,
    isbn: Option<string>,
    yearPublished: Option<int>,
    availableCopies: int,
    totalCopies: Option<int>)

  /** An unsaved-looking book that carries nothing but its id, as `new Book(); setBookId(id)` does. */
  function StubBook(id: nat): (b: Book)
    ensures b.id == Some(id)
    ensures b.title.None? && b.author.None? && b.genre.None? && b.isbn.None?
  {
    Book(Some(id), None, None, None, None, None, 0, None)
  }

  // ---------------------------------------------------------------- Member

  datatype MembershipStatus = Active | Suspended | Expired

  /** A library member. The email column is NOT NULL and UNIQUE in the store. */
  datatype Member = Member(
    id: Option<nat>,
    name: string,
    email: string,
    phone: Option<string>,
    address: Option<string>,
    membershipStatus: MembershipStatus,
    registrationDate: nat)

  /**
    * A freshly constructed member: not saved yet, ACTIVE, registered on the
    * day it was built.
    */
  function NewMember(name: string, email: string, today: nat): (m: Member)
    ensures m.id.None? && m.membershipStatus == Active && m.registrationDate == today
    ensures m.name == name && m.email == email
  {
    Member(None, name, email, None, None, Active, today)
  }

  // ---------------------------------------------------------------- Borrowing transaction

  /** The three statuses a transaction may hold; a value of the type is exactly one of them. */
  datatype TransactionStatus = Borrowed | Returned | Overdue

  /**
    * One loan of one book to one member. Book, member and borrow date are
    * mandatory columns and so are plain fields; the due date and the return
    * date are nullable.
    */
  datatype Transaction = Transaction(
    id: Option<nat>,
    bookId: nat,
    memberId: nat,
    borrowDate: nat,
    dueDate: Option<nat>,
    returnDate: Option<nat>,
    status: TransactionStatus)

  /**
    * A newly constructed transaction for the given book, member and borrow
    * date: unsaved, with the field default status BORROWED, and no due or
    * return date yet.
    */
  function NewTransaction(bookId: nat, memberId: nat, borrowDate: nat): (t: Transaction)
    ensures t.status == Borrowed
    ensures t.id.None? && t.dueDate.None? && t.returnDate.None?
    ensures t.bookId == bookId && t.memberId == memberId && t.borrowDate == borrowDate
  {
    Transaction(None, bookId, memberId, borrowDate, None, None, Borrowed)
  }

  // ---------------------------------------------------------------- Notification

  datatype NotificationType = DueDateReminder | OverdueNotice | FineNotice | General

  /** A message recorded for a member; `dateSent` is the timestamp of its creation. */
  datatype Notification = Notification(
    id: Option<nat>,
    memberId: nat,
    message: string,
    dateSent: nat,
    kind: NotificationType,
    isRead: bool)

  /**
    * A newly constructed notification: unsaved, stamped with the creation
    * time `now` and unread (the field defaults), then given its member,
    * message and type.
    */
  function NewNotification(memberId: nat, message: string, kind: NotificationType, now: nat): (n: Notification)
    ensures n.id.None? && !n.isRead && n.dateSent == now
    ensures n.memberId == memberId && n.message == message && n.kind == kind
  {
    Notification(None, memberId, message, now, kind, false)
  }
}
