/** What the loan handlers keep true of the tables, and what a whole run of repayments
    does to an approved loan.

    The central invariant ties the loan table to the schedule table: a loan's number of
    remaining EMIs is the number of its unpaid schedule rows while it is APPROVED, and it is
    PAID exactly when nothing remains. */
module LoanInvariants {
  import opened LoanModels
  import opened LoanRules

  // ---------------------------------------------------------------------------------------
  // Counting unpaid rows

  /** The number of unpaid schedule rows of loan `loanId`. */
  function UnpaidCount(rows: seq<RepaymentSchedule>, loanId: nat): (n: nat)
    ensures n <= |rows|
    decreases |rows|
  {
    if rows == [] then 0
    else (if UnpaidOf(rows[0], loanId) then 1 else 0) + UnpaidCount(rows[1..], loanId)
  }

  /** A loan has no unpaid rows exactly when its unpaid-row count is zero. */
  lemma {:induction false} UnpaidCountZero(rows: seq<RepaymentSchedule>, loanId: nat)
    ensures UnpaidCount(rows, loanId) == 0 <==> forall j :: 0 <= j < |rows| ==> !UnpaidOf(rows[j], loanId)
    decreases |rows|
  {
    if rows != [] {
      UnpaidCountZero(rows[1..], loanId);
      assert forall j :: 1 <= j < |rows| ==> rows[j] == rows[1..][j - 1];
    }
  }

  /** Counting distributes over appending rows to the table. */
  lemma {:induction false} UnpaidCountAppend(a: seq<RepaymentSchedule>, b: seq<RepaymentSchedule>, loanId: nat)
    ensures UnpaidCount(a + b, loanId) == UnpaidCount(a, loanId) + UnpaidCount(b, loanId)
    decreases |a|
  {
    if a == [] {
      assert a + b == b;
    } else {
      assert (a + b)[0] == a[0] && (a + b)[1..] == a[1..] + b;
      UnpaidCountAppend(a[1..], b, loanId);
    }
  }

  /** A generated schedule holds `n` unpaid rows of its own loan and none of any other. */
  lemma {:induction false} UnpaidCountWeekly(owner: nat, emi: real, start: int, n: nat, loanId: nat)
    ensures UnpaidCount(WeeklyRows(owner, emi, start, n), loanId) == if loanId == owner then n else 0
    decreases n
  {
    if n > 0 {
      var rows := WeeklyRows(owner, emi, start, n);
      assert rows[0] == NewRepaymentSchedule(owner, start + WEEK, emi);
      assert rows[1..] == WeeklyRows(owner, emi, start + WEEK, n - 1);
      UnpaidCountWeekly(owner, emi, start + WEEK, n - 1, loanId);
    }
  }

  /** Paying an unpaid row takes one off its own loan's count and leaves every other loan's
      count as it was. */
  lemma {:induction false} UnpaidCountPay(rows: seq<RepaymentSchedule>, k: nat, amount: real, today: int, loanId: nat)
    requires k < |rows| && !rows[k].emiPaid
    ensures UnpaidCount(rows[k := MarkPaid(rows[k], amount, today)], loanId)
         == UnpaidCount(rows, loanId) - (if rows[k].loanId == loanId then 1 else 0)
    decreases |rows|
  {
    var paid := rows[k := MarkPaid(rows[k], amount, today)];
    if k == 0 {
      assert paid[1..] == rows[1..];
    } else {
      assert paid[0] == rows[0];
      assert paid[1..] == rows[1..][k - 1 := MarkPaid(rows[k], amount, today)];
      UnpaidCountPay(rows[1..], k - 1, amount, today, loanId);
    }
  }

  // ---------------------------------------------------------------------------------------
  // The table invariant

  /** Loan keys are unique, as the auto-increment primary key makes them. */
  ghost predicate UniqueIds(loans: seq<Loan>)
  {
    forall i, j :: 0 <= i < j < |loans| ==> loans[i].loanId != loans[j].loanId
  }

  /** What holds of one loan against the schedule table.
      For a positive term: the remaining count stays within [0, term]; a PENDING loan has
      its whole term remaining and no unpaid rows; an APPROVED loan has as many unpaid rows
      as EMIs remaining, and at least one; a PAID loan has nothing remaining and no unpaid
      rows; a REJECTED loan has no unpaid rows.
      For a negative term (which the request handler does not refuse), no rows are ever
      generated: the loan keeps its remaining count and never becomes PAID. */
  ghost predicate LoanInv(l: Loan, rows: seq<RepaymentSchedule>)
  {
    && l.termInWeeks != 0
    && (l.termInWeeks > 0 ==>
          && 0 <= l.emiRemaining <= l.termInWeeks
          && UnpaidCount(rows, l.loanId) == (if l.status == Approved then l.emiRemaining else 0)
          && (l.status == Pending ==> l.emiRemaining == l.termInWeeks)
          && (l.status == Approved ==> l.emiRemaining > 0)
          && (l.status == Paid ==> l.emiRemaining == 0))
    && (l.termInWeeks < 0 ==>
          && l.emiRemaining == l.termInWeeks
          && l.status != Paid
          && UnpaidCount(rows, l.loanId) == 0)
  }

  /** The invariant of the two tables. */
  ghost predicate Inv(db: Db)
  {
    && UniqueIds(db.loans)
    && (forall i :: 0 <= i < |db.loans| ==> db.loans[i].loanId < db.nextLoanId)
    && (forall k :: 0 <= k < |db.schedules| ==> db.schedules[k].loanId < db.nextLoanId)
    && (forall i :: 0 <= i < |db.loans| ==> LoanInv(db.loans[i], db.schedules))
  }

  /** Under the invariant a loan with a positive term is PAID exactly when no EMI remains,
      unless it was rejected. */
  lemma PaidIffNothingRemains(db: Db, i: nat)
    requires Inv(db) && i < |db.loans|
    requires db.loans[i].termInWeeks > 0 && db.loans[i].status != Rejected
    ensures db.loans[i].status == Paid <==> db.loans[i].emiRemaining == 0
  {
  }

  /** With unique keys, a lookup by key finds the loan that has it. */
  lemma FindUnique(loans: seq<Loan>, i: nat, owner: Option<nat>)
    requires UniqueIds(loans) && i < |loans| && Matches(loans[i], loans[i].loanId, owner)
    ensures FindLoan(loans, loans[i].loanId, owner) == Some(i)
  {
  }

  /** The empty tables satisfy the invariant. */
  lemma EmptyInv()
    ensures Inv(Db([], [], 0))
  {
  }

  /** Submitting a loan request keeps the invariant. */
  lemma LoanRequestKeepsInv(db: Db, user: User, amount: real, term: int)
    requires Inv(db) && term != 0
    ensures Inv(LoanRequest(db, user, amount, term).0)
  {
    var (db', loan) := LoanRequest(db, user, amount, term);
    UnpaidCountZero(db.schedules, loan.loanId);
    assert LoanInv(loan, db'.schedules);
    forall i | 0 <= i < |db'.loans|
      ensures LoanInv(db'.loans[i], db'.schedules)
    {
      if i < |db.loans| {
        assert db'.loans[i] == db.loans[i];
      }
    }
  }

  /** Approving a loan keeps the invariant: its new rows are all its own, one per EMI. */
  lemma ApproveLoanKeepsInv(db: Db, loanId: nat, today: int)
    requires Inv(db)
    ensures Inv(ApproveLoan(db, loanId, today).0)
  {
    var f := FindLoan(db.loans, loanId, None);
    if f.Some? && db.loans[f.value].status == Pending {
      var i := f.value;
      var loan := db.loans[i];
      var db' := ApproveLoan(db, loanId, today).0;
      var added := WeeklySchedule(loan, today);
      assert db'.schedules == db.schedules + added;
      assert db'.loans == db.loans[i := loan.(status := Approved)];
      WeeklyScheduleShape(loan, today);
      forall k | 0 <= k < |db'.schedules|
        ensures db'.schedules[k].loanId < db'.nextLoanId
      {
        if k >= |db.schedules| {
          assert db'.schedules[k] == added[k - |db.schedules|];
        }
      }
      forall j | 0 <= j < |db'.loans|
        ensures LoanInv(db'.loans[j], db'.schedules)
      {
        assert LoanInv(db.loans[j], db.schedules);
        UnpaidCountAppend(db.schedules, added, db.loans[j].loanId);
        UnpaidCountWeekly(loan.loanId, loan.emi, today, Weeks(loan.termInWeeks), db.loans[j].loanId);
        if j != i {
          assert db'.loans[j] == db.loans[j];
        }
      }
    }
  }

  /** Submitting a repayment keeps the invariant: the row paid is the loan's own, so its
      count goes down with its remaining EMIs, and PAID comes exactly when both reach 0. */
  lemma RepaymentKeepsInv(db: Db, user: User, loanId: nat, amount: real, today: int)
    requires Inv(db)
    ensures Inv(LoanRepaymentSubmit(db, user, loanId, amount, today).0)
  {
    var f := FindLoan(db.loans, loanId, Some(user.id));
    if f.Some? {
      var i := f.value;
      var loan := db.loans[i];
      var e := EarliestUnpaid(db.schedules, loan.loanId);
      if loan.status == Approved && amount >= loan.emi && e.Some? {
        var k := e.value;
        var db' := LoanRepaymentSubmit(db, user, loanId, amount, today).0;
        assert db'.loans == db.loans[i := AfterRepayment(loan)];
        assert db'.schedules == db.schedules[k := MarkPaid(db.schedules[k], amount, today)];
        assert LoanInv(loan, db.schedules);
        UnpaidCountZero(db.schedules, loan.loanId);
        forall j | 0 <= j < |db'.loans|
          ensures LoanInv(db'.loans[j], db'.schedules)
        {
          assert LoanInv(db.loans[j], db.schedules);
          UnpaidCountPay(db.schedules, k, amount, today, db.loans[j].loanId);
          if j != i {
            assert db'.loans[j] == db.loans[j];
          }
        }
      }
    }
  }

  /** The "schedule not found" answer cannot happen to a loan with a positive term while the
      invariant holds: an APPROVED loan with EMIs remaining always has an unpaid row. */
  lemma NoScheduleUnreachable(db: Db, user: User, loanId: nat, amount: real, today: int)
    requires Inv(db)
    requires forall i :: 0 <= i < |db.loans| && db.loans[i].loanId == loanId ==> db.loans[i].termInWeeks > 0
    ensures LoanRepaymentSubmit(db, user, loanId, amount, today).1 != Err(NoScheduleFound)
  {
    var f := FindLoan(db.loans, loanId, Some(user.id));
    if f.Some? {
      var loan := db.loans[f.value];
      assert LoanInv(loan, db.schedules);
      UnpaidCountZero(db.schedules, loan.loanId);
    }
  }

  // ---------------------------------------------------------------------------------------
  // Paying off an approved loan

  /** Applies repayments of `amount` on the successive days `days`, collecting the results. */
  function RepayEach(db: Db, user: User, loanId: nat, amount: real, days: seq<int>): (out: (Db, seq<Result<int>>))
    ensures |out.1| == |days|
    ensures |out.0.loans| == |db.loans|
    decreases |days|
  {
    if days == [] then (db, [])
    else
      var first := LoanRepaymentSubmit(db, user, loanId, amount, days[0]);
      var rest := RepayEach(first.0, user, loanId, amount, days[1..]);
      (rest.0, [first.1] + rest.1)
  }

  /** The state of loan `i` after `paid` of the `n` EMIs of its schedule are paid: its rows
      are the `n` rows from `base` on, due weekly after `start`, the first `paid` of them
      paid and the rest unpaid; no other row belongs to it; it is APPROVED with `n - paid`
      remaining, or PAID once all are paid. */
  ghost predicate Settled(db: Db, i: nat, user: User, emi: real, base: nat, start: int, n: nat, paid: nat)
  {
    && paid <= n
    && UniqueIds(db.loans)
    && i < |db.loans|
    && db.loans[i].user == user.id
    && db.loans[i].emi == emi
    && db.loans[i].emiRemaining == n - paid
    && db.loans[i].status == (if paid < n then Approved else Paid)
    && |db.schedules| == base + n
    && (forall k :: 0 <= k < base ==> db.schedules[k].loanId != db.loans[i].loanId)
    && (forall k :: base <= k < base + n ==>
          && db.schedules[k].loanId == db.loans[i].loanId
          && db.schedules[k].dueDate == start + WEEK * (k - base + 1)
          && db.schedules[k].emiPaid == (k - base < paid))
  }

  /** The answer of a repayment that passes every guard, as a value. */
  lemma RepaymentAccepted(db: Db, user: User, loanId: nat, amount: real, today: int, i: nat, k: nat)
    requires FindLoan(db.loans, loanId, Some(user.id)) == Some(i)
    requires db.loans[i].status == Approved && amount >= db.loans[i].emi
    requires EarliestUnpaid(db.schedules, db.loans[i].loanId) == Some(k)
    ensures LoanRepaymentSubmit(db, user, loanId, amount, today)
         == (Db(db.loans[i := AfterRepayment(db.loans[i])],
                db.schedules[k := MarkPaid(db.schedules[k], amount, today)],
                db.nextLoanId),
             Ok(db.schedules[k].dueDate))
  {
  }

  /** In a settled state, the earliest unpaid row of the loan is the next one in the schedule. */
  lemma SettledNextRow(db: Db, i: nat, user: User, emi: real, base: nat, start: int, n: nat, paid: nat)
    requires Settled(db, i, user, emi, base, start, n, paid) && paid < n
    ensures EarliestUnpaid(db.schedules, db.loans[i].loanId) == Some(base + paid)
  {
    var loanId := db.loans[i].loanId;
    var e := EarliestUnpaid(db.schedules, loanId);
    assert UnpaidOf(db.schedules[base + paid], loanId);
    var k := e.value;
    assert db.schedules[k].dueDate <= db.schedules[base + paid].dueDate;
  }

  /** Paying the next row of a settled state gives the settled state with one more paid. */
  lemma SettledPay(db: Db, i: nat, user: User, emi: real, base: nat, start: int, n: nat, paid: nat,
                   amount: real, today: int)
    requires Settled(db, i, user, emi, base, start, n, paid) && paid < n
    ensures Settled(Db(db.loans[i := AfterRepayment(db.loans[i])],
                       db.schedules[base + paid := MarkPaid(db.schedules[base + paid], amount, today)],
                       db.nextLoanId),
                    i, user, emi, base, start, n, paid + 1)
  {
  }

  /** One more full repayment settles the next row in due-date order. */
  lemma RepaymentStep(db: Db, i: nat, user: User, emi: real, base: nat, start: int, n: nat, paid: nat,
                      amount: real, today: int)
    returns (db': Db)
    requires Settled(db, i, user, emi, base, start, n, paid) && paid < n && amount >= emi
    ensures db' == LoanRepaymentSubmit(db, user, db.loans[i].loanId, amount, today).0
    ensures LoanRepaymentSubmit(db, user, db.loans[i].loanId, amount, today).1 == Ok(start + WEEK * (paid + 1))
    ensures Settled(db', i, user, emi, base, start, n, paid + 1)
    ensures db'.loans[i].loanId == db.loans[i].loanId
  {
    FindUnique(db.loans, i, Some(user.id));
    SettledNextRow(db, i, user, emi, base, start, n, paid);
    RepaymentAccepted(db, user, db.loans[i].loanId, amount, today, i, base + paid);
    SettledPay(db, i, user, emi, base, start, n, paid, amount, today);
    assert db.schedules[base + paid].dueDate == start + WEEK * (paid + 1);
    db' := LoanRepaymentSubmit(db, user, db.loans[i].loanId, amount, today).0;
  }

  /** Successive full repayments settle the rows in due-date order. */
  lemma {:induction false} RepayEachSettles(db: Db, i: nat, user: User, emi: real, base: nat, start: int, n: nat,
                                            paid: nat, amount: real, days: seq<int>)
    requires Settled(db, i, user, emi, base, start, n, paid) && paid + |days| <= n && amount >= emi
    ensures Settled(RepayEach(db, user, db.loans[i].loanId, amount, days).0, i, user, emi, base, start, n, paid + |days|)
    ensures RepayEach(db, user, db.loans[i].loanId, amount, days).0.loans[i].loanId == db.loans[i].loanId
    decreases |days|
  {
    if days != [] {
      var loanId := db.loans[i].loanId;
      var db1 := RepaymentStep(db, i, user, emi, base, start, n, paid, amount, days[0]);
      var rest := RepayEach(db1, user, loanId, amount, days[1..]);
      var rs := [Ok(start + WEEK * (paid + 1))] + rest.1;
      assert RepayEach(db, user, loanId, amount, days) == (rest.0, rs);
      RepayEachSettles(db1, i, user, emi, base, start, n, paid + 1, amount, days[1..]);
    }
  }

  /** Successive full repayments answer with the due dates of the rows in schedule order. */
  lemma {:induction false} RepayEachAnswers(db: Db, i: nat, user: User, emi: real, base: nat, start: int, n: nat,
                                            paid: nat, amount: real, days: seq<int>)
    requires Settled(db, i, user, emi, base, start, n, paid) && paid + |days| <= n && amount >= emi
    ensures forall t :: 0 <= t < |days| ==>
      RepayEach(db, user, db.loans[i].loanId, amount, days).1[t] == Ok(start + WEEK * (paid + t + 1))
    decreases |days|
  {
    if days != [] {
      var loanId := db.loans[i].loanId;
      var db1 := RepaymentStep(db, i, user, emi, base, start, n, paid, amount, days[0]);
      var rest := RepayEach(db1, user, loanId, amount, days[1..]);
      var rs := [Ok(start + WEEK * (paid + 1))] + rest.1;
      assert RepayEach(db, user, loanId, amount, days).1 == rs;
      RepayEachAnswers(db1, i, user, emi, base, start, n, paid + 1, amount, days[1..]);
      forall t | 1 <= t < |days|
        ensures rs[t] == Ok(start + WEEK * (paid + t + 1))
      {
        assert rs[t] == rest.1[t - 1];
      }
    }
  }

  /** Approving a fresh PENDING loan of positive term, whose key has no rows yet, leaves it
      APPROVED with its whole schedule unpaid. */
  lemma ApprovalSettles(db: Db, i: nat, user: User, start: int)
    requires UniqueIds(db.loans) && i < |db.loans|
    requires db.loans[i].user == user.id && db.loans[i].status == Pending
    requires db.loans[i].termInWeeks > 0 && db.loans[i].emiRemaining == db.loans[i].termInWeeks
    requires forall k :: 0 <= k < |db.schedules| ==> db.schedules[k].loanId != db.loans[i].loanId
    ensures ApproveLoan(db, db.loans[i].loanId, start).1 == Ok(())
    ensures Settled(ApproveLoan(db, db.loans[i].loanId, start).0, i, user, db.loans[i].emi,
                    |db.schedules|, start, db.loans[i].termInWeeks, 0)
    ensures ApproveLoan(db, db.loans[i].loanId, start).0.loans[i].loanId == db.loans[i].loanId
  {
    var loan := db.loans[i];
    var base := |db.schedules|;
    FindUnique(db.loans, i, None);
    var db1 := ApproveLoan(db, loan.loanId, start).0;
    var added := WeeklySchedule(loan, start);
    assert db1.schedules == db.schedules + added;
    assert db1.loans == db.loans[i := loan.(status := Approved)];
    WeeklyScheduleShape(loan, start);
    forall k | base <= k < base + loan.termInWeeks
      ensures db1.schedules[k] == added[k - base]
    {
    }
    forall a, b | 0 <= a < b < |db1.loans|
      ensures db1.loans[a].loanId != db1.loans[b].loanId
    {
      assert db1.loans[a].loanId == db.loans[a].loanId && db1.loans[b].loanId == db.loans[b].loanId;
    }
  }

  /** A PENDING loan of term N > 0, owned by `user`, with nothing yet in the schedule table,
      is approved on day `start` and then repaid N times with at least its EMI: every
      repayment succeeds, the t-th settles the row due t + 1 weeks after `start` (so rows
      are settled in ascending due-date order), the loan is still APPROVED after fewer than
      N repayments and PAID after the N-th, and any further repayment is refused as
      already paid, changing nothing. */
  lemma FullRepayment(db: Db, i: nat, user: User, start: int, amount: real, days: seq<int>,
                      laterAmount: real, laterDay: int)
    requires UniqueIds(db.loans) && i < |db.loans|
    requires db.loans[i].user == user.id && db.loans[i].status == Pending
    requires db.loans[i].termInWeeks > 0 && db.loans[i].emiRemaining == db.loans[i].termInWeeks
    requires forall k :: 0 <= k < |db.schedules| ==> db.schedules[k].loanId != db.loans[i].loanId
    requires amount >= db.loans[i].emi && |days| == db.loans[i].termInWeeks
    ensures var loanId := db.loans[i].loanId;
      var (db1, approved) := ApproveLoan(db, loanId, start);
      var (db2, rs) := RepayEach(db1, user, loanId, amount, days);
      && approved == Ok(())
      && (forall t :: 0 <= t < |days| ==> rs[t] == Ok(start + WEEK * (t + 1)))
      && (forall t :: 0 <= t < |days| ==> RepayEach(db1, user, loanId, amount, days[..t]).0.loans[i].status == Approved)
      && db2.loans[i].status == Paid && db2.loans[i].emiRemaining == 0
      && LoanRepaymentSubmit(db2, user, loanId, laterAmount, laterDay) == (db2, Err(AlreadyPaid))
  {
    var loan := db.loans[i];
    var n := loan.termInWeeks;
    var base := |db.schedules|;
    ApprovalSettles(db, i, user, start);
    var db1 := ApproveLoan(db, loan.loanId, start).0;
    RepayEachSettles(db1, i, user, loan.emi, base, start, n, 0, amount, days);
    RepayEachAnswers(db1, i, user, loan.emi, base, start, n, 0, amount, days);
    forall t | 0 <= t < |days|
      ensures RepayEach(db1, user, loan.loanId, amount, days[..t]).0.loans[i].status == Approved
    {
      RepayEachSettles(db1, i, user, loan.emi, base, start, n, 0, amount, days[..t]);
    }
    var db2 := RepayEach(db1, user, loan.loanId, amount, days).0;
    FindUnique(db2.loans, i, Some(user.id));
  }
}
