/** The data model of the loan application: loan status, loans, repayment schedule rows,
    their field defaults, and the generator of the weekly repayment schedule.

    Dates are whole days (an `int`), so one week is `WEEK` days; amounts are exact `real`s. */
module LoanModels {

  datatype Option<+T> = None | Some(value: T)

  /** The four states of a loan application. */
  datatype LoanStatus = Pending | Approved | Rejected | Paid

  /** A loan application row: identifier, owning user, amount, term, status, weekly EMI and
      the number of EMIs still to pay. */
  datatype Loan = Loan(
    loanId: nat,
    user: nat,
    amount: real,
    termInWeeks: int,
    status: LoanStatus,
    emi: real,
    emiRemaining: int)

  /** A repayment schedule row: the loan it belongs to, whether it is paid, its due date,
      the amount due, and the day and amount of the payment once made. */
  datatype RepaymentSchedule = RepaymentSchedule(
    loanId: nat,
    emiPaid: bool,
    dueDate: int,
    emiAmount: real,
    paidOn: Option<int>,
    paidAmount: Option<real>)

  const WEEK: int := 7

  /** A new loan application; the status column defaults to PENDING. */
  function NewLoanApplication(loanId: nat, user: nat, amount: real, term: int, emi: real, remaining: int): (l: Loan)
    ensures l.status == Pending
    ensures l.loanId == loanId && l.user == user && l.amount == amount
    ensures l.termInWeeks == term && l.emi == emi && l.emiRemaining == remaining
  {
    Loan(loanId, user, amount, term, Pending, emi, remaining)
  }

  /** A new schedule row as the generator creates it: unpaid, with no payment day and no
      paid amount yet. */
  function NewRepaymentSchedule(loanId: nat, dueDate: int, emi: real): (s: RepaymentSchedule)
    ensures !s.emiPaid && s.paidOn == None && s.paidAmount == None
    ensures s.loanId == loanId && s.dueDate == dueDate && s.emiAmount == emi
  {
    RepaymentSchedule(loanId, false, dueDate, emi, None, None)
  }

  /** The number of iterations of `range(term)`: none when the term is not positive. */
  function Weeks(term: int): (n: nat)
    ensures term > 0 ==> n == term
    ensures term <= 0 ==> n == 0
  {
    if term > 0 then term else 0
  }

  /** The `n` weekly rows that follow `start`: each is due one week after the previous one. */
  function WeeklyRows(loanId: nat, emi: real, start: int, n: nat): (rows: seq<RepaymentSchedule>)
    ensures |rows| == n
    decreases n
  {
    if n == 0 then []
    else [NewRepaymentSchedule(loanId, start + WEEK, emi)] + WeeklyRows(loanId, emi, start + WEEK, n - 1)
  }

  /** The schedule generated for `loan` on day `today`. */
  function WeeklySchedule(loan: Loan, today: int): (rows: seq<RepaymentSchedule>)
    ensures |rows| == Weeks(loan.termInWeeks)
  {
    WeeklyRows(loan.loanId, loan.emi, today, Weeks(loan.termInWeeks))
  }

  /** The i-th weekly row (counting from 0) is an unpaid row of the loan, for the EMI, due
      i + 1 weeks after the start. */
  lemma {:induction false} WeeklyRowsAt(loanId: nat, emi: real, start: int, n: nat, i: nat)
    requires i < n
    ensures WeeklyRows(loanId, emi, start, n)[i] == NewRepaymentSchedule(loanId, start + WEEK * (i + 1), emi)
    decreases n
  {
    if i > 0 {
      WeeklyRowsAt(loanId, emi, start + WEEK, n - 1, i - 1);
    }
  }

  /** Every generated row belongs to the loan, is unpaid, is for the loan's EMI, and the
      due dates step forward exactly one week from row to row, starting a week after
      `today`; so they are strictly increasing. */
  lemma WeeklyScheduleShape(loan: Loan, today: int)
    ensures forall i :: 0 <= i < |WeeklySchedule(loan, today)| ==>
      var row := WeeklySchedule(loan, today)[i];
      row.loanId == loan.loanId && !row.emiPaid && row.emiAmount == loan.emi &&
      row.paidOn == None && row.paidAmount == None &&
      row.dueDate == today + WEEK * (i + 1)
    ensures forall i, j :: 0 <= i < j < |WeeklySchedule(loan, today)| ==>
      WeeklySchedule(loan, today)[i].dueDate < WeeklySchedule(loan, today)[j].dueDate
    ensures forall i :: 0 <= i < |WeeklySchedule(loan, today)| - 1 ==>
      WeeklySchedule(loan, today)[i + 1].dueDate == WeeklySchedule(loan, today)[i].dueDate + WEEK
  {
    var n := Weeks(loan.termInWeeks);
    forall i | 0 <= i < n
      ensures WeeklySchedule(loan, today)[i] == NewRepaymentSchedule(loan.loanId, today + WEEK * (i + 1), loan.emi)
    {
      WeeklyRowsAt(loan.loanId, loan.emi, today, n, i);
    }
  }

  /** A ten-week loan gets ten schedule rows, as the repository's test expects. */
  lemma TenWeekLoanHasTenRows(loan: Loan, today: int)
    requires loan.termInWeeks == 10
    ensures |WeeklySchedule(loan, today)| == 10
  {
  }

  /** Appends the weekly schedule of `loan` to the schedule table `table`, starting from
      day `today`: one row per week of the term, each due one week after the previous one. */
  method CreateWeeklyRepaymentSchedules(table: seq<RepaymentSchedule>, loan: Loan, today: int)
    returns (table': seq<RepaymentSchedule>)
    ensures |table'| == |table| + Weeks(loan.termInWeeks)
    ensures table'[..|table|] == table
    ensures forall k :: |table| <= k < |table'| ==>
      table'[k] == NewRepaymentSchedule(loan.loanId, today + WEEK * (k - |table| + 1), loan.emi)
    ensures table' == table + WeeklySchedule(loan, today)
  {
    var n := Weeks(loan.termInWeeks);
    var dueDate := today;
    table' := table;
    for i := 0 to n
      invariant |table'| == |table| + i
      invariant table'[..|table|] == table
      invariant dueDate == today + WEEK * i
      invariant forall k :: |table| <= k < |table'| ==>
        table'[k] == NewRepaymentSchedule(loan.loanId, today + WEEK * (k - |table| + 1), loan.emi)
    {
      dueDate := dueDate + WEEK;
      table' := table' + [NewRepaymentSchedule(loan.loanId, dueDate, loan.emi)];
    }
    forall i | 0 <= i < n
      ensures table'[|table| + i] == WeeklySchedule(loan, today)[i]
    {
      WeeklyRowsAt(loan.loanId, loan.emi, today, n, i);
    }
    assert table' == table + WeeklySchedule(loan, today);
  }
}
