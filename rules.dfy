/** The loan request handlers as functions on the two tables: submitting a loan, approving
    it, submitting a repayment, and the ownership filter on loan listings.

    The loan and schedule tables are sequences of rows held in a `Db` value; a query's
    `filter(...).first()` is the first matching row in table order. */
module LoanRules {
  import opened LoanModels

  /** The requesting user: an identifier and whether the user is a superuser. */
  datatype User = User(id: nat, isSuperuser: bool)

  /** The error outcomes of the handlers, one per error response. */
  datatype Error =
    | NotFound            // loan application not found (or not the caller's)
    | AlreadyPaid         // loan already paid
    | LoanRejected        // your loan is rejected
    | NotApproved         // loan application is not approved yet
    | InsufficientAmount  // paid amount is less than the weekly EMI
    | NoScheduleFound     // no unpaid repayment schedule row
    | NotPending          // approval of a loan that is not PENDING

  datatype Result<+T> = Ok(value: T) | Err(error: Error)

  /** The loan table, the schedule table and the next value of the loan's auto-increment key. */
  datatype Db = Db(loans: seq<Loan>, schedules: seq<RepaymentSchedule>, nextLoanId: nat)

  // ---------------------------------------------------------------------------------------
  // Access policy on listings

  /** The loans of `loans` that belong to user `userId`, in table order. */
  function OwnedBy(loans: seq<Loan>, userId: nat): (r: seq<Loan>)
    ensures |r| <= |loans|
    ensures forall l :: l in r <==> l in loans && l.user == userId
    decreases |loans|
  {
    if loans == [] then []
    else (if loans[0].user == userId then [loans[0]] else []) + OwnedBy(loans[1..], userId)
  }

  /** Filtering keeps the table order: the loans of a concatenation are the loans of the
      first part followed by the loans of the second. */
  lemma {:induction false} OwnedByAppend(a: seq<Loan>, b: seq<Loan>, userId: nat)
    ensures OwnedBy(a + b, userId) == OwnedBy(a, userId) + OwnedBy(b, userId)
    decreases |a|
  {
    if a != [] {
      var head := if a[0].user == userId then [a[0]] else [];
      assert (a + b)[0] == a[0] && (a + b)[1..] == a[1..] + b;
      assert OwnedBy(a + b, userId) == head + OwnedBy(a[1..] + b, userId);
      OwnedByAppend(a[1..], b, userId);
      assert OwnedBy(a, userId) == head + OwnedBy(a[1..], userId);
    } else {
      assert a + b == b;
    }
  }

  /** A superuser sees every loan, in table order; any other user sees exactly the loans
      whose owner is that user. */
  function FilterWithAccessPolicy(loans: seq<Loan>, user: User): (r: seq<Loan>)
    ensures user.isSuperuser ==> r == loans
    ensures !user.isSuperuser ==> r == OwnedBy(loans, user.id)
    ensures forall l :: l in r <==> l in loans && (user.isSuperuser || l.user == user.id)
  {
    if user.isSuperuser then loans else OwnedBy(loans, user.id)
  }

  // ---------------------------------------------------------------------------------------
  // Queries

  /** A loan row matches a lookup by key and, when `owner` is given, by owner. */
  predicate Matches(l: Loan, loanId: nat, owner: Option<nat>)
  {
    l.loanId == loanId && (owner.None? || l.user == owner.value)
  }

  /** The index of the first loan that matches the lookup, if any. */
  function FindLoan(loans: seq<Loan>, loanId: nat, owner: Option<nat>): (k: Option<nat>)
    ensures k.None? <==> forall j :: 0 <= j < |loans| ==> !Matches(loans[j], loanId, owner)
    ensures k.Some? ==> k.value < |loans| && Matches(loans[k.value], loanId, owner)
    ensures k.Some? ==> forall j :: 0 <= j < k.value ==> !Matches(loans[j], loanId, owner)
    decreases |loans|
  {
    if loans == [] then None
    else if Matches(loans[0], loanId, owner) then Some(0)
    else
      match FindLoan(loans[1..], loanId, owner)
      case None => None
      case Some(k) => Some(k + 1)
  }

  /** A schedule row of loan `loanId` that is not paid yet. */
  predicate UnpaidOf(row: RepaymentSchedule, loanId: nat)
  {
    row.loanId == loanId && !row.emiPaid
  }

  /** Row `k` is an unpaid row of the loan with the smallest due date; among rows with that
      due date it is the first in table order. */
  ghost predicate IsEarliestUnpaid(rows: seq<RepaymentSchedule>, loanId: nat, k: nat)
  {
    && k < |rows|
    && UnpaidOf(rows[k], loanId)
    && (forall j :: 0 <= j < |rows| && UnpaidOf(rows[j], loanId) ==> rows[k].dueDate <= rows[j].dueDate)
    && (forall j :: 0 <= j < k && UnpaidOf(rows[j], loanId) ==> rows[k].dueDate < rows[j].dueDate)
  }

  /** The unpaid rows of the loan ordered by due date, first one: the earliest unpaid row. */
  function EarliestUnpaid(rows: seq<RepaymentSchedule>, loanId: nat): (k: Option<nat>)
    ensures k.None? <==> forall j :: 0 <= j < |rows| ==> !UnpaidOf(rows[j], loanId)
    ensures k.Some? ==> IsEarliestUnpaid(rows, loanId, k.value)
    decreases |rows|
  {
    if rows == [] then None
    else
      var rest := EarliestUnpaid(rows[1..], loanId);
      if !UnpaidOf(rows[0], loanId) then
        (if rest.None? then None else Some(rest.value + 1))
      else if rest.None? || rows[0].dueDate <= rows[rest.value + 1].dueDate then Some(0)
      else Some(rest.value + 1)
  }

  /** The earliest unpaid row is unique: no other index has the property. */
  lemma EarliestUnpaidUnique(rows: seq<RepaymentSchedule>, loanId: nat, k: nat, k': nat)
    requires IsEarliestUnpaid(rows, loanId, k) && IsEarliestUnpaid(rows, loanId, k')
    ensures k == k'
  {
  }

  // ---------------------------------------------------------------------------------------
  // Handlers

  /** Submitting a loan request creates a PENDING loan with the weekly EMI and the number of
      remaining EMIs derived from the amount and the term. The division by the term is not
      guarded, so a zero term is excluded. */
  function LoanRequest(db: Db, user: User, amount: real, term: int): (out: (Db, Loan))
    requires term != 0
    ensures var loan := out.1;
      && loan.loanId == db.nextLoanId && loan.user == user.id
      && loan.amount == amount && loan.termInWeeks == term
      && loan.emi * (term as real) == amount
      && loan.emiRemaining == term
      && loan.status == Pending
    ensures out.0 == Db(db.loans + [out.1], db.schedules, db.nextLoanId + 1)
  {
    var loan := NewLoanApplication(db.nextLoanId, user.id, amount, term, amount / (term as real), term);
    (Db(db.loans + [loan], db.schedules, db.nextLoanId + 1), loan)
  }

  /** Approving a loan: a missing loan is NotFound, a loan that is not PENDING is NotPending,
      and neither changes anything; a PENDING loan (the first row with the key) is always
      approved: it gets its weekly schedule appended to the
      schedule table and becomes APPROVED, and nothing else changes. */
  function ApproveLoan(db: Db, loanId: nat, today: int): (out: (Db, Result<()>))
    ensures out.1.Err? ==> out.0 == db
    ensures out.1 == Err(NotFound) <==> forall i :: 0 <= i < |db.loans| ==> db.loans[i].loanId != loanId
    ensures out.1 == Err(NotPending) <==>
      exists i :: 0 <= i < |db.loans| && db.loans[i].loanId == loanId &&
        (forall j :: 0 <= j < i ==> db.loans[j].loanId != loanId) && db.loans[i].status != Pending
    ensures out.1.Ok? <==>
      exists i :: 0 <= i < |db.loans| && db.loans[i].loanId == loanId &&
        (forall j :: 0 <= j < i ==> db.loans[j].loanId != loanId) && db.loans[i].status == Pending
    ensures out.1.Ok? ==>
      exists i :: 0 <= i < |db.loans| && db.loans[i].loanId == loanId &&
        (forall j :: 0 <= j < i ==> db.loans[j].loanId != loanId) && db.loans[i].status == Pending &&
        out.0 == Db(db.loans[i := db.loans[i].(status := Approved)],
                    db.schedules + WeeklySchedule(db.loans[i], today),
                    db.nextLoanId)
  {
    match FindLoan(db.loans, loanId, None)
    case None => (db, Err(NotFound))
    case Some(i) =>
      var loan := db.loans[i];
      if loan.status != Pending then (db, Err(NotPending))
      else
        (Db(db.loans[i := loan.(status := Approved)], db.schedules + WeeklySchedule(loan, today), db.nextLoanId),
         Ok(()))
  }

  /** The schedule row after it is paid on day `today` with `amount`. */
  function MarkPaid(row: RepaymentSchedule, amount: real, today: int): (r: RepaymentSchedule)
    ensures r.emiPaid && r.paidOn == Some(today) && r.paidAmount == Some(amount)
    ensures r.loanId == row.loanId && r.dueDate == row.dueDate && r.emiAmount == row.emiAmount
  {
    row.(emiPaid := true, paidOn := Some(today), paidAmount := Some(amount))
  }

  /** The loan after one more EMI is paid: one EMI fewer remains, and the loan is PAID once
      none remains. */
  function AfterRepayment(loan: Loan): (r: Loan)
    ensures r.emiRemaining == loan.emiRemaining - 1
    ensures r.status == (if r.emiRemaining == 0 then Paid else loan.status)
    ensures r.loanId == loan.loanId && r.user == loan.user && r.amount == loan.amount
    ensures r.termInWeeks == loan.termInWeeks && r.emi == loan.emi
  {
    var remaining := loan.emiRemaining - 1;
    loan.(emiRemaining := remaining, status := if remaining == 0 then Paid else loan.status)
  }

  /** Submitting a repayment of `amount` on day `today` by `user` for loan `loanId`. */
  function LoanRepaymentSubmit(db: Db, user: User, loanId: nat, amount: real, today: int): (out: (Db, Result<int>))
    // every error leaves both tables as they were; no row is ever added or removed
    ensures out.1.Err? ==> out.0 == db
    ensures |out.0.loans| == |db.loans| && |out.0.schedules| == |db.schedules|
  {
    match FindLoan(db.loans, loanId, Some(user.id))
    case None => (db, Err(NotFound))
    case Some(i) =>
      var loan := db.loans[i];
      if loan.status == Paid then (db, Err(AlreadyPaid))
      else if loan.status == Rejected then (db, Err(LoanRejected))
      else if loan.status == Pending then (db, Err(NotApproved))
      else if amount < loan.emi then (db, Err(InsufficientAmount))
      else
        match EarliestUnpaid(db.schedules, loan.loanId)
        case None => (db, Err(NoScheduleFound))
        case Some(k) =>
          (Db(db.loans[i := AfterRepayment(loan)],
              db.schedules[k := MarkPaid(db.schedules[k], amount, today)],
              db.nextLoanId),
           Ok(db.schedules[k].dueDate))
  }

  /** The guards of a repayment, in the order they are checked: the first that fails
      decides the answer. */
  lemma RepaymentGuardOrder(db: Db, user: User, loanId: nat, amount: real, today: int)
    ensures var out := LoanRepaymentSubmit(db, user, loanId, amount, today);
      var found := FindLoan(db.loans, loanId, Some(user.id));
      && (found.None? <==> out.1 == Err(NotFound))
      && (found.Some? ==>
            var loan := db.loans[found.value];
            && (loan.status == Paid <==> out.1 == Err(AlreadyPaid))
            && (loan.status == Rejected <==> out.1 == Err(LoanRejected))
            && (loan.status == Pending <==> out.1 == Err(NotApproved))
            && (loan.status == Approved ==>
                  && (amount < loan.emi <==> out.1 == Err(InsufficientAmount))
                  && (amount >= loan.emi ==>
                        ((forall j :: 0 <= j < |db.schedules| ==> !UnpaidOf(db.schedules[j], loan.loanId))
                         <==> out.1 == Err(NoScheduleFound)))))
  {
  }

  /** A successful repayment pays the earliest unpaid row of the caller's loan with the
      amount as tendered, on the day given, answers with that row's due date, takes one
      EMI off the loan (PAID when none remains), and changes nothing else. */
  lemma RepaymentSettlesEarliest(db: Db, user: User, loanId: nat, amount: real, today: int)
    ensures var out := LoanRepaymentSubmit(db, user, loanId, amount, today);
      out.1.Ok? ==>
        exists i: nat, k: nat ::
          && i < |db.loans| && Matches(db.loans[i], loanId, Some(user.id))
          && db.loans[i].status == Approved && amount >= db.loans[i].emi
          && IsEarliestUnpaid(db.schedules, db.loans[i].loanId, k)
          && out.1.value == db.schedules[k].dueDate
          && out.0 == Db(db.loans[i := AfterRepayment(db.loans[i])],
                         db.schedules[k := MarkPaid(db.schedules[k], amount, today)],
                         db.nextLoanId)
  {
  }
}
