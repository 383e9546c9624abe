/**
  * The read-only queries of the borrowing-transaction repository, as filters
  * over the stored transactions (kept in id order). None of them changes the
  * store.
  */
module TransactionQueries {
  import opened Entities

  /** The transactions of `ts` that satisfy `p`, in stored order. */
  function Select(ts: seq<Transaction>, p: Transaction -> bool): (r: seq<Transaction>)
    ensures |r| <= |ts|
    ensures forall t :: t in r <==> t in ts && p(t)
    ensures forall i :: 0 <= i < |r| ==> p(r[i])
    ensures multiset(r) <= multiset(ts)
  {
    if ts == [] then []
    else
      assert ts == [ts[0]] + ts[1..];
      (if p(ts[0]) then [ts[0]] else []) + Select(ts[1..], p)
  }

  /** Selecting by a weaker condition keeps everything a stronger one selects, with its multiplicity. */
  lemma {:induction false} SelectWeaker(ts: seq<Transaction>, p: Transaction -> bool, q: Transaction -> bool)
    requires forall t :: p(t) ==> q(t)
    ensures multiset(Select(ts, p)) <= multiset(Select(ts, q))
  {
    if ts != [] {
      SelectWeaker(ts[1..], p, q);
    }
  }

  /** `findByStatus`: exactly the transactions whose status is `s`. */
  function FindByStatus(ts: seq<Transaction>, s: TransactionStatus): (r: seq<Transaction>)
    ensures forall t :: t in r <==> t in ts && t.status == s
  {
    Select(ts, (t: Transaction) => t.status == s)
  }

  /** `findByMemberAndStatus`: exactly member `m`'s transactions whose status is `s`. */
  function FindByMemberAndStatus(ts: seq<Transaction>, m: nat, s: TransactionStatus): (r: seq<Transaction>)
    ensures forall t :: t in r <==> t in ts && t.memberId == m && t.status == s
  {
    Select(ts, (t: Transaction) => t.memberId == m && t.status == s)
  }

  /**
    * The condition of the overdue query: still BORROWED and due strictly
    * before `date`. A missing due date compares as unknown in the query and
    * so never qualifies.
    */
  function IsOverdueAt(t: Transaction, date: nat): (r: bool)
    ensures t.status != Borrowed ==> !r
    ensures t.dueDate.None? ==> !r
    ensures t.dueDate.Some? && date <= t.dueDate.value ==> !r
  {
    t.status == Borrowed && t.dueDate.Some? && t.dueDate.value < date
  }

  /** `findOverdueTransactions(date)`. */
  function FindOverdueTransactions(ts: seq<Transaction>, date: nat): (r: seq<Transaction>)
    ensures forall t :: t in r <==> t in ts && t.status == Borrowed && t.dueDate.Some? && t.dueDate.value < date
    ensures forall t :: t in r ==> t.status != Returned && t.status != Overdue
  {
    Select(ts, (t: Transaction) => IsOverdueAt(t, date))
  }

  /** A later date finds every transaction an earlier one found, each as often. */
  lemma OverdueMonotone(ts: seq<Transaction>, d1: nat, d2: nat)
    requires d1 <= d2
    ensures multiset(FindOverdueTransactions(ts, d1)) <= multiset(FindOverdueTransactions(ts, d2))
  {
    SelectWeaker(ts, (t: Transaction) => IsOverdueAt(t, d1), (t: Transaction) => IsOverdueAt(t, d2));
  }

  /** `t` is an active (still BORROWED) loan of member `m`. */
  predicate IsActiveLoanOf(t: Transaction, m: nat) {
    t.memberId == m && t.status == Borrowed
  }

  function ActiveWeight(t: Transaction, m: nat): nat {
    if IsActiveLoanOf(t, m) then 1 else 0
  }

  /** `countActiveBorrowingsByMember`: the COUNT query, counted directly. */
  function CountActiveBorrowingsByMember(ts: seq<Transaction>, m: nat): (n: nat)
    ensures n <= |ts|
    ensures n == 0 <==> forall t :: t in ts ==> !IsActiveLoanOf(t, m)
  {
    if ts == [] then 0
    else
      assert forall t :: t in ts <==> t == ts[0] || t in ts[1..];
      ActiveWeight(ts[0], m) + CountActiveBorrowingsByMember(ts[1..], m)
  }

  /** When every transaction is an active loan of `m`, the count is the length. */
  lemma {:induction false} CountAllActive(ts: seq<Transaction>, m: nat)
    requires forall i :: 0 <= i < |ts| ==> IsActiveLoanOf(ts[i], m)
    ensures CountActiveBorrowingsByMember(ts, m) == |ts|
  {
    if ts != [] {
      CountAllActive(ts[1..], m);
    }
  }

  /** The count equals the length of the list query for status BORROWED. */
  lemma {:induction false} CountIsLengthOfActiveList(ts: seq<Transaction>, m: nat)
    ensures CountActiveBorrowingsByMember(ts, m) == |FindByMemberAndStatus(ts, m, Borrowed)|
  {
    if ts != [] {
      CountIsLengthOfActiveList(ts[1..], m);
    }
  }

  /** Saving one more transaction adds its own weight to the count. */
  lemma {:induction false} CountAppend(ts: seq<Transaction>, t: Transaction, m: nat)
    ensures CountActiveBorrowingsByMember(ts + [t], m) == CountActiveBorrowingsByMember(ts, m) + ActiveWeight(t, m)
  {
    if ts == [] {
      assert [] + [t] == [t];
    } else {
      assert (ts + [t])[1..] == ts[1..] + [t];
      CountAppend(ts[1..], t, m);
    }
  }

  /** Replacing the transaction at `i` swaps its weight for the new one's. */
  lemma {:induction false} CountUpdate(ts: seq<Transaction>, i: nat, t: Transaction, m: nat)
    requires i < |ts|
    ensures CountActiveBorrowingsByMember(ts[i := t], m)
            == CountActiveBorrowingsByMember(ts, m) - ActiveWeight(ts[i], m) + ActiveWeight(t, m)
  {
    if i == 0 {
      assert ts[i := t][1..] == ts[1..];
    } else {
      assert ts[i := t][1..] == ts[1..][i - 1 := t];
      CountUpdate(ts[1..], i - 1, t, m);
    }
  }

  /** Every transaction is found by exactly one of the three status queries. */
  lemma {:induction false} StatusQueriesPartition(ts: seq<Transaction>)
    ensures |FindByStatus(ts, Borrowed)| + |FindByStatus(ts, Returned)| + |FindByStatus(ts, Overdue)| == |ts|
  {
    if ts != [] {
      StatusQueriesPartition(ts[1..]);
    }
  }
}
