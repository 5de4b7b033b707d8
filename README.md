# Loan lifecycle of the loan management backend, in Dafny

This project models the loan lifecycle of a Django loan management backend. A borrower
submits a loan request with an amount and a term in weeks. The request handler derives the
weekly EMI as amount / term (EMI usually stands for equated monthly instalment; the
source never expands the abbreviation, and here the instalment is weekly) and records the
whole term as remaining EMIs. The loan starts PENDING. An administrator approves a PENDING
loan. Approval generates one repayment schedule row per week of the term, each due one
week after the previous one, starting one week after the day of approval, and the loan
becomes APPROVED. The borrower then submits repayments. Each repayment passes a fixed
sequence of guards and then pays the unpaid schedule row with the earliest due date,
recording the amount as tendered. It takes one EMI off the loan, and the loan becomes PAID
when none remains. Loan listings are filtered by ownership: superusers see every loan,
everyone else sees only their own.

The model has four modules, one per file:

- `LoanModels` (`models.dfy`): the loan status, the loan and schedule rows with their field
  defaults, and the schedule generator. The generator is a method with a `for` loop that
  extends the schedule table, proved against a recursive specification of the weekly rows.
- `LoanRules` (`rules.dfy`): the request handlers as functions from the two tables
  (a `Db` value) to new tables and an answer (`Result`). This module also holds the
  queries the handlers run: key lookup with `.first()`, and the earliest unpaid row by due
  date. It also holds the ownership filter.
- `LoanInvariants` (`invariants.dfy`): the invariant that ties each loan's remaining EMI
  count to its unpaid schedule rows, preserved by every handler. It also holds the theorem
  that an approved N-week loan is paid off by exactly N full repayments, settled in
  due-date order.
- `LoanViews` (`views.dfy`): class `LoanBook`, which holds the two tables as fields. Its
  handler methods check guards and update the selected rows in place, in the same order as
  the source. Each method is proved to produce exactly what the `LoanRules` function
  produces, and to keep the invariant.

Dates are whole days, so one week is 7. Amounts are exact reals. The day of approval and
the day of payment are parameters.

## Model

| member | source | states |
|---|---|---|
| `LoanModels.NewLoanApplication` | apps/loan/models.py:18-25 | a new loan row has status PENDING by default, with the given key, owner, amount, term, EMI and remaining count |
| `LoanModels.NewRepaymentSchedule` | apps/loan/models.py:57-63 | a new schedule row is unpaid and has no payment day and no paid amount; it has the given loan, due date and EMI amount |
| `LoanModels.Weeks` | apps/loan/models.py:47 | `range(term)` runs `term` times for a positive term and not at all otherwise |
| `LoanModels.WeeklyRows` | apps/loan/models.py:47-54 | the weekly specification yields exactly `n` rows |
| `LoanModels.WeeklyRowsAt` | apps/loan/models.py:45-53 | row i (from 0) belongs to the loan, is unpaid, carries the EMI, and is due i + 1 weeks after the start |
| `LoanModels.WeeklyScheduleShape` | apps/loan/models.py:43-54 | every generated row belongs to the loan, is unpaid with no payment recorded, and carries the loan's EMI; due dates are strictly increasing and exactly one week apart, the first one week after the start day |
| `LoanModels.TenWeekLoanHasTenRows` | apps/loan/tests.py:21-32 | a ten-week loan gets ten schedule rows |
| `LoanModels.CreateWeeklyRepaymentSchedules` | apps/loan/models.py:35-54 | the loop appends exactly `Weeks(term)` rows and leaves the existing rows untouched; appended row i is the unpaid row of the loan for its EMI due i + 1 weeks after `today`; the result equals the table followed by the weekly specification |
| `LoanRules.OwnedBy` | apps/loan/views.py:29 | the filtered loans are exactly the loans owned by the user, and no more than the input |
| `LoanRules.OwnedByAppend` | apps/loan/views.py:29 | filtering keeps table order: filtering a concatenation gives the filtered parts concatenated |
| `LoanRules.FilterWithAccessPolicy` | apps/loan/views.py:26-29 | a superuser gets the whole collection unchanged; any other user gets the ownership filter `OwnedBy` of the collection, in table order: exactly the loans whose owner is that user |
| `LoanRules.FindLoan` | apps/loan/views.py:87-90 | the lookup answers "not found" exactly when no loan matches the key (and owner, if given); otherwise it returns the first matching row in table order |
| `LoanRules.EarliestUnpaid` | apps/loan/views.py:107-111 | "no schedule" exactly when the loan has no unpaid row; otherwise the returned row is unpaid, belongs to the loan, and has the smallest due date among its unpaid rows; among rows with that date it is the first in the table |
| `LoanRules.EarliestUnpaidUnique` | apps/loan/views.py:111 | only one row can be the earliest unpaid row |
| `LoanRules.LoanRequest` | apps/loan/views.py:35-43 | the new loan gets the next key and the caller as owner; its EMI times the term equals the amount; the remaining count is the term; the status is PENDING; it is appended to the loan table; the schedule table is unchanged |
| `LoanRules.ApproveLoan` | apps/loan/views.py:131-141 | NotFound exactly when no loan has the key; NotPending exactly when the first loan with the key is not PENDING; success exactly when that first loan is PENDING, whatever its term; an error changes nothing; on success that first, PENDING loan becomes APPROVED, its weekly schedule is appended, and nothing else changes |
| `LoanRules.MarkPaid` | apps/loan/views.py:113-115 | a paid row is marked paid, with the payment day and the amount as tendered; its loan, due date and EMI amount are kept |
| `LoanRules.AfterRepayment` | apps/loan/views.py:118-120 | a repayment takes one EMI off the remaining count; the status becomes PAID when the count reaches 0 and is kept otherwise; all other fields are kept |
| `LoanRules.LoanRepaymentSubmit` | apps/loan/views.py:86-125 | every error leaves both tables as they were; no row is added or removed |
| `LoanRules.RepaymentGuardOrder` | apps/loan/views.py:87-110 | the answer follows the guards in order: no loan with that key owned by the caller gives NotFound; then PAID gives AlreadyPaid, REJECTED gives LoanRejected, PENDING gives NotApproved; for an APPROVED loan, an amount below the EMI gives InsufficientAmount, and otherwise NoScheduleFound comes exactly when the loan has no unpaid row |
| `LoanRules.RepaymentSettlesEarliest` | apps/loan/views.py:111-124 | a successful repayment pays exactly the earliest unpaid row of the caller's approved loan, with the amount as tendered (even above the EMI); it answers that row's due date, decrements the loan's remaining count, and changes no other row and no other loan |
| `LoanInvariants.UnpaidCountWeekly` | apps/loan/models.py:47-54 | a generated schedule adds `n` unpaid rows to its own loan and none to any other |
| `LoanInvariants.UnpaidCountPay` | apps/loan/views.py:113-116 | paying an unpaid row lowers its own loan's unpaid count by one and leaves every other loan's count unchanged |
| `LoanInvariants.PaidIffNothingRemains` | apps/loan/views.py:118-120 | under the invariant, a loan with a positive term that was not rejected is PAID exactly when no EMI remains |
| `LoanInvariants.LoanRequestKeepsInv` | apps/loan/views.py:35-43 | submitting a loan keeps the table invariant |
| `LoanInvariants.ApproveLoanKeepsInv` | apps/loan/views.py:131-141 | approval keeps the table invariant: an approved loan has exactly as many unpaid rows as remaining EMIs |
| `LoanInvariants.RepaymentKeepsInv` | apps/loan/views.py:86-125 | repayment keeps the table invariant: the unpaid-row count and the remaining count drop together, and PAID comes exactly when both reach 0 |
| `LoanInvariants.NoScheduleUnreachable` | apps/loan/views.py:107-110 | under the invariant, a loan with a positive term never gets the "schedule not found" answer |
| `LoanInvariants.RepaymentAccepted` | apps/loan/views.py:111-124 | when every guard passes, the repayment answers with the due date of the earliest unpaid row and produces the updated tables |
| `LoanInvariants.ApprovalSettles` | apps/loan/views.py:137-141 | approving a fresh PENDING loan with a positive term succeeds; the loan is APPROVED with its whole term remaining, and its rows are exactly the generated schedule, all unpaid, due weekly after the approval day |
| `LoanInvariants.RepaymentStep` | apps/loan/views.py:111-121 | on an approved loan with its schedule partly paid in order, one full repayment pays the next row in due-date order |
| `LoanInvariants.RepayEachSettles` | apps/loan/views.py:111-121 | successive full repayments keep the rows of the loan paid in schedule order, and the remaining count and status follow |
| `LoanInvariants.RepayEachAnswers` | apps/loan/views.py:123-125 | the t-th of successive full repayments answers the due date of the t-th row of the schedule |
| `LoanInvariants.FullRepayment` | apps/loan/views.py:86-143 | approving a fresh N-week PENDING loan and then making N repayments of at least the EMI: every repayment succeeds; the t-th settles the row due t + 1 weeks after approval (ascending due-date order); the loan is APPROVED after fewer than N repayments and PAID after the N-th; any further repayment gives AlreadyPaid and changes nothing |
| `LoanViews.LoanBook.SubmitLoan` | apps/loan/views.py:35-45 | updating the tables in place gives exactly the tables and loan of `LoanRequest`, and keeps the invariant |
| `LoanViews.LoanBook.Approve` | apps/loan/views.py:131-143 | updating the tables in place gives exactly the tables and answer of `ApproveLoan`, and keeps the invariant |
| `LoanViews.LoanBook.SubmitRepayment` | apps/loan/views.py:86-125 | updating the selected row and loan in place gives exactly the tables and answer of `LoanRepaymentSubmit`, and keeps the invariant; because of the invariant, a repayment towards a loan with a positive term never answers "schedule not found" |

`LoanStatus` is a datatype with exactly the four values PENDING, APPROVED, REJECTED and
PAID (apps/loan/models.py:7-15).

Behaviour of the handlers that the model keeps as written:

- The request handler does not validate the term or the amount. A negative term is
  accepted. The EMI is then amount / term, so its sign depends on the amount: a positive
  amount gives a negative EMI, an amount of 0 gives an EMI of 0, and a negative amount gives
  a positive EMI. The remaining count is negative, and approval generates no rows (`range`
  of a negative number is empty). A repayment of at least the EMI on such an approved loan
  answers "schedule not found"; a smaller one answers "insufficient amount"
  (apps/loan/views.py:104-110). The loan never becomes PAID. The invariant covers this case.
- No handler rejects a loan. REJECTED is guarded against in repayments but is never set by
  the modelled handlers.
- Approval writes the schedule rows and then the status, as two separate writes. The model
  performs both in one step.
- The repayment lookup filters by owner for every caller, superusers included. Approval
  looks the loan up by key alone.

## Left out

- `LoanRules.LoanRequest`, `LoanViews.LoanBook.SubmitLoan`: a term of 0 makes the EMI
  division at apps/loan/views.py:40 raise an unhandled ZeroDivisionError (a server error).
  That crash is not modelled; both members require `term != 0` instead.
- `LoanModels.CreateWeeklyRepaymentSchedules`, `LoanRules.ApproveLoan`: days are unbounded
  integers, so the calendar's upper limit (9999-12-31) is not modelled. In the source, once
  a due date would pass that limit, the `timedelta` addition (apps/loan/models.py:45-48)
  raises OverflowError in the middle of the loop. The rows already created stay in the
  table, the status update at apps/loan/views.py:141 never runs, and the loan stays
  PENDING. The model instead approves the loan and appends all of its rows. Only a term of
  hundreds of thousands of weeks reaches the limit.
- HTTP concerns are not modelled. Responses, status codes and message texts become the
  `Error` constructors. Authentication and permission classes, URL routing, and pagination
  are also left out.
- Request validation by the serializers (apps/loan/serializers.py) is not modelled.
  Inputs are typed parameters, so the "invalid payload" answers of the submit and
  repayment handlers (apps/loan/views.py:44-45, 99-101) are not modelled.
- The three read-only views (loan list, loan status, schedule list; apps/loan/views.py:48-80)
  are left out. They only combine the modelled ownership filter and key lookup with
  serialization and pagination.
- Persistence through the ORM (`objects.create`, `save`, `update`, querysets) is modelled
  as in-memory sequences of rows. Queryset `update` on a primary key touches one row,
  which the model updates by index. Cascade deletion is not modelled because nothing
  deletes rows.
- Floating-point arithmetic of `FloatField` and of the EMI division is replaced by exact
  reals.
- The clock is a parameter. `datetime.today()` and `timezone.now()` become the day
  parameters. The truncation of a timestamp to a date is left out, and so are the
  `created_at`/`updated_at` timestamps.
- The order of rows with equal due dates is unspecified in the database. The model picks
  the first such row in table order.
- Transactions and concurrent requests are not modelled. Each handler runs as one
  sequential step.
- The `loan_user` property (a username lookup on a foreign table) is left out.
