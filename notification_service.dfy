/**
  * The notification recorder: an append-only log of messages for members.
  * "Sending" a notification means building the record and saving it.
  */
module Notifications {
  import opened Wrappers
  import opened Entities
  import opened Text

  /** How `%s` renders a possibly missing title: a null reference prints as "null". */
  function TitleText(title: Option<string>): (r: string)
    ensures title.Some? ==> r == title.value
    ensures title.None? ==> r == "null"
  {
    if title.Some? then title.value else "null"
  }

  /** How a day number is rendered in a message. */
  function DateText(day: nat): string {
    NatText(day)
  }

  /**
    * The borrowing confirmation for `member` and `book`: GENERAL, naming the
    * title and a due date 14 days after `today`.
    */
  function BorrowingConfirmation(member: nat, book: Book, today: nat, now: nat): (n: Notification)
    ensures n.id.None? && n.memberId == member && n.kind == General
    ensures !n.isRead && n.dateSent == now
    ensures Contains(n.message, "successfully borrowed")
    ensures Contains(n.message, TitleText(book.title))
    ensures Contains(n.message, DateText(today + 14))
  {
    var title := TitleText(book.title);
    var due := DateText(today + 14);
    var lead := "You have " + "successfully borrowed";
    var named := lead + " '" + title;
    var message := named + "'. Due date: " + due;
    ContainsSuffix("You have ", "successfully borrowed");
    ContainsGrowRight(lead, "successfully borrowed", " '");
    ContainsGrowRight(lead + " '", "successfully borrowed", title);
    ContainsGrowRight(named, "successfully borrowed", "'. Due date: ");
    ContainsGrowRight(named + "'. Due date: ", "successfully borrowed", due);
    ContainsSuffix(lead + " '", title);
    ContainsGrowRight(named, title, "'. Due date: ");
    ContainsGrowRight(named + "'. Due date: ", title, due);
    ContainsSuffix(named + "'. Due date: ", due);
    NewNotification(member, message, General, now)
  }

  /** The return confirmation for `member` and `book`: GENERAL, naming the title. */
  function ReturnConfirmation(member: nat, book: Book, now: nat): (n: Notification)
    ensures n.id.None? && n.memberId == member && n.kind == General
    ensures !n.isRead && n.dateSent == now
    ensures Contains(n.message, "successfully returned")
    ensures Contains(n.message, TitleText(book.title))
  {
    var title := TitleText(book.title);
    var lead := "You have " + "successfully returned";
    var named := lead + " '" + title;
    var message := named + "'. Thank you!";
    ContainsSuffix("You have ", "successfully returned");
    ContainsGrowRight(lead, "successfully returned", " '");
    ContainsGrowRight(lead + " '", "successfully returned", title);
    ContainsGrowRight(named, "successfully returned", "'. Thank you!");
    ContainsSuffix(lead + " '", title);
    ContainsGrowRight(named, title, "'. Thank you!");
    NewNotification(member, message, General, now)
  }

  /** The overdue notice for `member` and `book`: OVERDUE_NOTICE, naming the title and "<days> days overdue". */
  function OverdueNoticeFor(member: nat, book: Book, daysOverdue: int, now: nat): (n: Notification)
    ensures n.id.None? && n.memberId == member && n.kind == OverdueNotice
    ensures !n.isRead && n.dateSent == now
    ensures Contains(n.message, TitleText(book.title))
    ensures Contains(n.message, IntText(daysOverdue) + " days overdue")
  {
    var title := TitleText(book.title);
    var days := IntText(daysOverdue) + " days overdue";
    var named := "Your book '" + title;
    var stated := named + "' is " + days;
    var message := stated + ". Please return it immediately to avoid additional fines.";
    ContainsSuffix("Your book '", title);
    ContainsGrowRight(named, title, "' is ");
    ContainsGrowRight(named + "' is ", title, days);
    ContainsGrowRight(stated, title, ". Please return it immediately to avoid additional fines.");
    ContainsSuffix(named + "' is ", days);
    ContainsGrowRight(stated, days, ". Please return it immediately to avoid additional fines.");
    NewNotification(member, message, OverdueNotice, now)
  }

  /** Saving `n` at the end of the log, under the next id. Earlier records are untouched. */
  function Appended(log: seq<Notification>, n: Notification): (r: seq<Notification>)
    ensures |r| == |log| + 1
    ensures r[..|log|] == log
    ensures r[|log|] == n.(id := Some(|log|))
  {
    log + [n.(id := Some(|log|))]
  }

  /** Each logged record carries its position as its id. */
  predicate IdsArePositions(log: seq<Notification>) {
    forall i :: 0 <= i < |log| ==> log[i].id == Some(i)
  }

  lemma AppendedKeepsIds(log: seq<Notification>, n: Notification)
    requires IdsArePositions(log)
    ensures IdsArePositions(Appended(log, n))
  {
  }

  /** The records of member `m`, in log order. */
  function ForMember(log: seq<Notification>, m: nat): (r: seq<Notification>)
    ensures forall x :: x in r <==> x in log && x.memberId == m
    ensures multiset(r) <= multiset(log)
  {
    if log == [] then []
    else
      assert log == [log[0]] + log[1..];
      (if log[0].memberId == m then [log[0]] else []) + ForMember(log[1..], m)
  }

  /** Ordered by `dateSent`, newest first. */
  predicate NewestFirstOrder(s: seq<Notification>) {
    forall i, j :: 0 <= i < j < |s| ==> s[i].dateSent >= s[j].dateSent
  }

  /** Insert `n` into a newest-first sequence, after every record at least as new. */
  function InsertByDate(n: Notification, s: seq<Notification>): (r: seq<Notification>)
    ensures |r| == |s| + 1
    ensures multiset(r) == multiset(s) + multiset{n}
  {
    if s == [] || n.dateSent > s[0].dateSent then
      [n] + s
    else
      assert s == [s[0]] + s[1..];
      [s[0]] + InsertByDate(n, s[1..])
  }

  /** Inserting a record no newer than `d` among records no newer than `d` keeps every record no newer than `d`. */
  lemma {:induction false} InsertStaysBelow(n: Notification, s: seq<Notification>, d: nat)
    requires n.dateSent <= d
    requires forall i :: 0 <= i < |s| ==> s[i].dateSent <= d
    ensures forall i :: 0 <= i < |InsertByDate(n, s)| ==> InsertByDate(n, s)[i].dateSent <= d
  {
    if s == [] || n.dateSent > s[0].dateSent {
      assert InsertByDate(n, s) == [n] + s;
    } else {
      InsertStaysBelow(n, s[1..], d);
      assert InsertByDate(n, s) == [s[0]] + InsertByDate(n, s[1..]);
    }
  }

  lemma {:induction false} InsertKeepsOrder(n: Notification, s: seq<Notification>)
    requires NewestFirstOrder(s)
    ensures NewestFirstOrder(InsertByDate(n, s))
  {
    if s == [] || n.dateSent > s[0].dateSent {
      assert InsertByDate(n, s) == [n] + s;
    } else {
      var rest := InsertByDate(n, s[1..]);
      InsertKeepsOrder(n, s[1..]);
      InsertStaysBelow(n, s[1..], s[0].dateSent);
      assert InsertByDate(n, s) == [s[0]] + rest;
    }
  }

  /** The log sorted newest first; records with the same timestamp keep the later-logged one first. */
  function NewestFirst(s: seq<Notification>): (r: seq<Notification>)
    ensures multiset(r) == multiset(s)
    ensures NewestFirstOrder(r)
  {
    if s == [] then []
    else
      assert s == [s[0]] + s[1..];
      InsertKeepsOrder(s[0], NewestFirst(s[1..]));
      InsertByDate(s[0], NewestFirst(s[1..]))
  }

  /** `findByMemberOrderByDateSentDesc`: member `m`'s records, newest first. */
  function MemberNotifications(log: seq<Notification>, m: nat): (r: seq<Notification>)
    ensures forall x :: x in r <==> x in log && x.memberId == m
    ensures multiset(r) == multiset(ForMember(log, m))
    ensures NewestFirstOrder(r)
  {
    var mine := ForMember(log, m);
    var r := NewestFirst(mine);
    assert forall x :: x in r <==> x in mine by {
      forall x ensures x in r <==> x in mine {
        assert x in r <==> x in multiset(r);
        assert x in mine <==> x in multiset(mine);
      }
    }
    r
  }

  /** The notification service over its log. */
  class NotificationService {
    var log: seq<Notification>

    ghost predicate Valid()
      reads this
    {
      IdsArePositions(log)
    }

    constructor ()
      ensures Valid() && log == []
    {
      log := [];
    }

    /** `sendBorrowingConfirmation(member, book)`. */
    method SendBorrowingConfirmation(member: nat, book: Book, today: nat, now: nat)
      requires Valid()
      modifies this
      ensures Valid()
      ensures log == Appended(old(log), BorrowingConfirmation(member, book, today, now))
    {
      AppendedKeepsIds(log, BorrowingConfirmation(member, book, today, now));
      log := Appended(log, BorrowingConfirmation(member, book, today, now));
    }

    /** `sendReturnConfirmation(member, book)`. */
    method SendReturnConfirmation(member: nat, book: Book, now: nat)
      requires Valid()
      modifies this
      ensures Valid()
      ensures log == Appended(old(log), ReturnConfirmation(member, book, now))
    {
      AppendedKeepsIds(log, ReturnConfirmation(member, book, now));
      log := Appended(log, ReturnConfirmation(member, book, now));
    }

    /** `sendOverdueNotice(member, book, daysOverdue)`. */
    method SendOverdueNotice(member: nat, book: Book, daysOverdue: int, now: nat)
      requires Valid()
      modifies this
      ensures Valid()
      ensures log == Appended(old(log), OverdueNoticeFor(member, book, daysOverdue, now))
    {
      AppendedKeepsIds(log, OverdueNoticeFor(member, book, daysOverdue, now));
      log := Appended(log, OverdueNoticeFor(member, book, daysOverdue, now));
    }

    /** `getMemberNotifications(memberId)`. */
    function GetMemberNotifications(member: nat): (r: seq<Notification>)
      reads this
      ensures r == MemberNotifications(log, member)
    {
      MemberNotifications(log, member)
    }
  }
}
