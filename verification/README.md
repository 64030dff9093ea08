# Library bookkeeping, modelled in Dafny

A lending library keeps one document with two mappings: the **book
inventory** (title → total copies and available copies) and the **active
loans** (transaction id → user, title, issue time, due date). The `Library`
store issues a copy to a user, takes a loan back, adds a new title and
answers three read-only questions: which titles are on the shelf, which
loans are active, and which loans one user holds, with the days left on
each.

The model has three modules:

- `Clock` (`clock.dfy`): the time arithmetic. A clock reading is an integer
  count of microseconds; its calendar day is the reading divided by the
  length of a day, rounded down. A loan is due `MaxBorrowDays` = 15 days
  after the day of issue. "Days remaining" is the difference between midnight
  at the start of the due day and the reading, counted in whole days and
  rounded down. This matches the day part of a time difference, and it is
  negative exactly when the reading is strictly after midnight opening the
  due day.
- `Ledger` (`ledger.dfy`): the document as a value (`State`) and one step
  function per mutating operation (`Issue`, `Return`, `AddBook`), each
  returning a reply and the next state. It also holds the catalog invariant
  `Valid`: for every title, available = total − (active loans on that
  title), and 0 ≤ available ≤ total; every loan names a title in the
  inventory. The lemmas say what each operation does. They prove that a
  return keeps the invariant, an issue keeps it when its id is not active,
  and an addition keeps it when its count is at least 0. They also prove
  that a return undoes an issue made under a fresh id.
- `LibraryStore` (`library.dfy`): the `Library` class. Its two map fields are
  updated in place by `IssueBook`, `ReturnBook` and `AddNewBook`. Each of
  these methods is tied to its step function and states when it keeps the
  invariant. The queries are loops over the maps that build their answers
  entry by entry.

Notes on the code:

- `add_new_book` does not check the copy count. Its only caller, the admin
  form at `app.py:350`, enforces at least one copy. `AddBook` accepts any
  count, and the invariant lemma requires a count of at least 0.
  `AddBookNegativeBreaksValid` shows what a negative count would do.
- Issuing fails when the available count is `<= 0`.
- On its day of issue a loan shows 14 days remaining, except at exactly
  midnight, when it shows 15. The due date is a date, which parses to
  midnight, while the current time carries the time of day.
  `DaysRemainingOnIssueDay` states both cases.
- An active transaction id is overwritten (see Findings).

## Model

| member | source | states |
|---|---|---|
| `Clock.Day` | code.py:75 | the day of a reading is the unique day whose midnight lies at or before it and whose next midnight lies after it |
| `Clock.Second` | code.py:74-76 | the second of a reading is the unique second that starts at or before it and ends after it (the timestamp truncated to seconds) |
| `Clock.DueDay` | code.py:75 | the due day is the date of the moment 15 days after the reading |
| `Clock.DaysRemaining` | code.py:121-125 | days remaining is the largest whole number of days that fits between the reading and midnight opening the due day |
| `Clock.IsOverdue` | code.py:117 | no contract; specified by `Clock.OverdueIffPastDueMidnight` |
| `Clock.OverdueIffPastDueMidnight` | code.py:117 | a loan is overdue (days remaining < 0) exactly when the reading is strictly after midnight at the start of its due day |
| `Clock.DaysRemainingOnIssueDay` | code.py:121-125 | on its day of issue, a loan has 15 days remaining at exactly midnight and 14 at any later moment of that day |
| `Clock.NotOverdueBeforeDueDay` | code.py:121-125 | before its due day a loan is not overdue, and its days remaining are the whole days left, minus one unless it is exactly midnight |
| `Ledger.DefaultState` | code.py:24-36 | no contract; the six titles and counts of the default inventory with no loans, specified by `Ledger.DefaultStateValid` |
| `Ledger.Issue` | code.py:65-88 | no contract; issue as written, specified by `Ledger.IssueEffect`, `Ledger.IssuePreservesValid` and `Ledger.IssueOnActiveIdBreaksValid` |
| `Ledger.IssueChecked` | code.py:65-88 | no contract; issue with the id-collision guard, specified by `Ledger.IssueCheckedPreservesValid` |
| `Ledger.Return` | code.py:90-103 | no contract; specified by `Ledger.ReturnEffect`, `Ledger.ReturnPreservesValid` and `Ledger.IssueThenReturn` |
| `Ledger.AddBook` | code.py:127-137 | no contract; specified by `Ledger.AddBookEffect` and `Ledger.AddBookPreservesValid` |
| `Ledger.DefaultStateValid` | code.py:24-36 | the six-title default inventory with no loans satisfies the catalog invariant |
| `Ledger.IssueEffect` | code.py:65-88 | unknown title: BookNotFound, state unchanged; no copy on the shelf (≤ 0): NoCopiesAvailable, state unchanged; otherwise success with due day = issue day + 15, that title's available count one lower and its total unchanged, the loan (user, title, issue second, due day) stored under the id, and every other title and loan untouched |
| `Ledger.IssueAddsOneLoan` | code.py:79-85 | a successful issue under a fresh id adds exactly one active loan on that title and one loan overall |
| `Ledger.IssuePreservesValid` | code.py:65-88 | an issue under an id that is not active keeps the catalog invariant |
| `Ledger.IssueCheckedPreservesValid` | code.py:65-88 | the issue with the id-collision guard keeps the catalog invariant for every id |
| `Ledger.ReturnEffect` | code.py:90-103 | unknown id: TransactionNotFound, state unchanged; a failed return changes nothing; success exactly when the loan's title is present, and then the reply is that title, its available count is one higher, exactly that loan is gone, and everything else is untouched |
| `Ledger.ReturnNeverDangles` | code.py:95-99 | under the invariant, the inventory lookup for the returned loan's title never fails |
| `Ledger.ReturnPreservesValid` | code.py:90-103 | a return keeps the catalog invariant |
| `Ledger.AddBookEffect` | code.py:127-137 | existing title: AlreadyExists, state unchanged; otherwise the new title has total = available = copies, and no other title and no loan changes |
| `Ledger.AddBookPreservesValid` | code.py:127-137 | adding a title with a non-negative copy count keeps the catalog invariant |
| `Ledger.AddBookNegativeBreaksValid` | code.py:127-135 | adding a new title with a negative copy count leaves a state that breaks the invariant |
| `Ledger.IssueThenReturn` | code.py:65-103 | returning the loan just issued under a fresh id replies with its title and restores the exact previous state |
| `Ledger.CollisionBreaksValid` | code.py:76-85 | two issues of one title under the same id succeed from a valid state, yet the resulting state breaks the invariant |
| `Ledger.IssueOnActiveIdBreaksValid` | code.py:76-85 | from any valid state, a successful issue under an id that is already active leaves a state that breaks the invariant |
| `Ledger.RunPreservesValid` | code.py:65-137 | any sequence of guarded issues, returns and non-negative additions from a valid state ends in a valid state |
| `Ledger.ReachableFromDefaultValid` | code.py:24-137 | every state reached from the default inventory by such a sequence satisfies the catalog invariant |
| `LibraryStore.Library.constructor` | code.py:9-22 | the store holds the stored document when one could be read, otherwise the default inventory, which is valid |
| `LibraryStore.Library.IssueBook` | code.py:65-88 | the reply and the new maps are those of `Issue` on the old maps; from a valid state, a successful issue keeps the invariant exactly when the id was not active, and a failed one changes nothing |
| `LibraryStore.Library.ReturnBook` | code.py:90-103 | the reply and the new maps are those of `Return` on the old maps; from a valid state the invariant is kept and the lookup never fails |
| `LibraryStore.Library.AddNewBook` | code.py:127-137 | the reply and the new maps are those of `AddBook` on the old maps; the invariant is kept for a non-negative copy count |
| `LibraryStore.Library.GetAvailableBooks` | code.py:43-49 | the result holds exactly the titles whose available count is positive, each with its counts as stored |
| `LibraryStore.Library.GetIssuedBooks` | code.py:51-63 | one row per active loan, none twice and none missing, each carrying that loan's user, title, issue second, due day and days remaining at the reading |
| `LibraryStore.Library.GetUserBorrowedBooks` | code.py:105-119 | one row for each active loan of that user and for no other loan, none twice, each with the days remaining and overdue exactly when they are negative |

## Left out

- Reading and writing the document file is not modelled: the constructor takes the document already read, or none when the file is missing or cannot be parsed. Writing after each change, and any failure of that write, is not modelled.
- The date strings (`%Y-%m-%d %H:%M:%S` for the issue date, `%Y-%m-%d` for the due date) and their parsing are not modelled. A loan stores its issue second and its due day number instead.
- The clock is a parameter. The three separate readings taken during one issue are modelled as a single reading. The listing of all loans and the listing of one user's loans read the clock once per row; the model uses one reading for every row. A midnight or a second boundary between readings is therefore not captured.
- The transaction id is a parameter. Its text (user, title and the issue second joined by underscores) is not built by the model.
- The reply messages are not modelled. Replies are an error kind, or on success the due day, the returned title, or nothing.
- A returned loan whose title is missing makes the source raise a lookup error. The model returns `DanglingLoan` with the state unchanged instead, and proves this cannot happen under the invariant.
- The stored document is trusted as read, as in the source. Only the default inventory is proved valid at construction.
- The order of the query results is not modelled: the source lists them in the maps' insertion order.
- `LibraryStore.Library.GetAvailableBooks`: the source returns the stored count records themselves, so a caller changing them would change the store. The model returns copies.
- The `User` class, the console menu at the end of `code.py`, and all of `app.py` (page rendering, login table, display filters) are not part of this model.

## Findings

| source | as written | input that shows it | evidently intended | confidence | as-written member | corrected member |
|---|---|---|---|---|---|---|
| code.py:76-80 | the transaction id is built from user, title and the issue second, and the new loan is stored under it, overwriting any active loan with that id | one user issues the same title twice within one second (e.g. a repeated form submission): two copies leave the shelf but only one loan is recorded, so available ≠ total − loans | an issue under an active id is refused, or the id is made unique, so that every copy taken has its loan | medium, not executed | `Ledger.CollisionBreaksValid` | `Ledger.IssueCheckedPreservesValid` |

`Ledger.Issue` is the issue as written; the store's `IssueBook` follows it.
`Ledger.IssueOnActiveIdBreaksValid` shows that, from every valid state,
such an issue breaks the invariant. `Ledger.IssueChecked` adds the guard. The whole-run lemmas
`RunPreservesValid` and `ReachableFromDefaultValid` use `IssueChecked`.
