/** The request handlers as imperative operations on an in-memory store of the loan table
    and the schedule table. Each handler checks its guards in the source's order, then
    updates the rows it selected and writes them back; each is proved to act exactly as the
    corresponding function of `LoanRules`, and to keep the table invariant of
    `LoanInvariants`. */
module LoanViews {
  import opened LoanModels
  import opened LoanRules
  import opened LoanInvariants

  class LoanBook {
    var loans: seq<Loan>
    var schedules: seq<RepaymentSchedule>
    var nextLoanId: nat

    /** The two tables as a value. */
    ghost function State(): Db
      reads this
    {
      Db(loans, schedules, nextLoanId)
    }

    ghost predicate Valid()
      reads this
    {
      Inv(State())
    }

    /** Empty tables. */
    constructor ()
      ensures Valid()
      ensures loans == [] && schedules == [] && nextLoanId == 0
    {
      loans := [];
      schedules := [];
      nextLoanId := 0;
      EmptyInv();
    }

    /** A borrower requests a loan of `amount` over `term` weeks. */
    method SubmitLoan(user: User, amount: real, term: int) returns (loan: Loan)
      requires Valid() && term != 0
      modifies this
      ensures Valid()
      ensures (State(), loan) == LoanRequest(old(State()), user, amount, term)
    {
      LoanRequestKeepsInv(State(), user, amount, term);
      var emi := amount / (term as real);
      var remaining := term;
      loan := NewLoanApplication(nextLoanId, user.id, amount, term, emi, remaining);
      loans := loans + [loan];
      nextLoanId := nextLoanId + 1;
    }

    /** An administrator approves loan `loanId` on day `today`. */
    method Approve(loanId: nat, today: int) returns (r: Result<()>)
      requires Valid()
      modifies this
      ensures Valid()
      ensures (State(), r) == ApproveLoan(old(State()), loanId, today)
    {
      ApproveLoanKeepsInv(State(), loanId, today);
      var found := FindLoan(loans, loanId, None);
      if found.None? {
        return Err(NotFound);
      }
      var i := found.value;
      var loan := loans[i];
      if loan.status != Pending {
        return Err(NotPending);
      }
      schedules := CreateWeeklyRepaymentSchedules(schedules, loan, today);
      loans := loans[i := loan.(status := Approved)];
      r := Ok(());
    }

    /** Borrower `user` pays `amount` towards loan `loanId` on day `today`; on success the
        answer is the due date of the row settled. */
    method SubmitRepayment(user: User, loanId: nat, amount: real, today: int) returns (r: Result<int>)
      requires Valid()
      modifies this
      ensures Valid()
      ensures (State(), r) == LoanRepaymentSubmit(old(State()), user, loanId, amount, today)
      // what the invariant buys: a loan with a positive term always has a row left to pay
      ensures (forall i :: 0 <= i < |old(loans)| && old(loans)[i].loanId == loanId ==> old(loans)[i].termInWeeks > 0)
        ==> r != Err(NoScheduleFound)
    {
      RepaymentKeepsInv(State(), user, loanId, amount, today);
      if forall i :: 0 <= i < |loans| && loans[i].loanId == loanId ==> loans[i].termInWeeks > 0 {
        NoScheduleUnreachable(State(), user, loanId, amount, today);
      }
      var found := FindLoan(loans, loanId, Some(user.id));
      if found.None? {
        return Err(NotFound);
      }
      var i := found.value;
      var loan := loans[i];
      if loan.status == Paid {
        return Err(AlreadyPaid);
      }
      if loan.status == Rejected {
        return Err(LoanRejected);
      }
      if loan.status == Pending {
        return Err(NotApproved);
      }
      if amount < loan.emi {
        return Err(InsufficientAmount);
      }
      var earliest := EarliestUnpaid(schedules, loan.loanId);
      if earliest.None? {
        return Err(NoScheduleFound);
      }
      var k := earliest.value;
      var row := schedules[k];
      row := row.(emiPaid := true, paidOn := Some(today), paidAmount := Some(amount));
      schedules := schedules[k := row];
      loan := loan.(emiRemaining := loan.emiRemaining - 1);
      if loan.emiRemaining == 0 {
        loan := loan.(status := Paid);
      }
      loans := loans[i := loan];
      r := Ok(row.dueDate);
    }
  }
}
