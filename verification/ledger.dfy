/**
 * The library's bookkeeping as values: the book inventory, the active loans,
 * one step function per mutating operation and the catalog invariant
 * ("available copies = total copies - active loans on that title") with the
 * lemmas that say when each operation keeps it: a return always, an issue when
 * its id is not active, an addition when its count is at least 0.
 */
module Ledger {
  import opened Clock

  /** Copy counts of one title. */
  datatype BookInfo = BookInfo(total: int, available: int)

  /** One active loan; `issuedAt` is a second, `dueDay` a day number. */
  datatype Loan = Loan(user: string, book: string, issuedAt: int, dueDay: int)

  /** The whole persisted document: title -> counts, transaction id -> loan. */
  datatype State = State(books: map<string, BookInfo>, issued: map<string, Loan>)

  datatype Error =
    | BookNotFound        // issue of a title that is not in the inventory
    | NoCopiesAvailable   // issue of a title with no copy on the shelf
    | TransactionNotFound // return of an unknown transaction id
    | DanglingLoan        // return of a loan whose title is missing (a lookup failure)
    | AlreadyExists       // addition of a title that is already present
    | IdCollision         // issue under a transaction id that is already active

  datatype Result<T> = Ok(value: T) | Err(error: Error)

  /** The reply of an operation together with the state it leaves. */
  datatype Step<T> = Step(result: Result<T>, next: State)

  // ---------------------------------------------------------------------
  // The catalog invariant

  /** Transaction ids of the active loans on `title`. */
  function LoanIdsOn(issued: map<string, Loan>, title: string): set<string>
  {
    set id | id in issued && issued[id].book == title
  }

  /** Number of active loans on `title`. */
  function LoansOn(issued: map<string, Loan>, title: string): nat
  {
    |LoanIdsOn(issued, title)|
  }

  /**
   * Every title's available count is its total minus its active loans and
   * lies between 0 and the total; every loan refers to a title in the inventory.
   */
  predicate Valid(s: State)
  {
    && (forall t :: t in s.books ==>
          s.books[t].available == s.books[t].total - LoansOn(s.issued, t)
          && 0 <= s.books[t].available <= s.books[t].total)
    && (forall id :: id in s.issued ==> s.issued[id].book in s.books)
  }

  /** The inventory a new library starts with. */
  function DefaultState(): State
  {
    State(
      map[
        "The Great Gatsby" := BookInfo(3, 3),
        "To Kill a Mockingbird" := BookInfo(2, 2),
        "1984" := BookInfo(3, 3),
        "Pride and Prejudice" := BookInfo(2, 2),
        "The Catcher in the Rye" := BookInfo(2, 2),
        "Brave New World" := BookInfo(3, 3)
      ],
      map[])
  }

  // ---------------------------------------------------------------------
  // Operations

  /**
   * Lend a copy of `title` to `user` at moment `now` under transaction id
   * `id`, as the store does it: an id that is already active is overwritten.
   * The reply carries the due day.
   */
  function Issue(s: State, user: string, title: string, now: int, id: string): Step<int>
  {
    if title !in s.books then Step(Err(BookNotFound), s)
    else if s.books[title].available <= 0 then Step(Err(NoCopiesAvailable), s)
    else
      var info := s.books[title];
      var loan := Loan(user, title, Second(now), DueDay(now));
      Step(Ok(loan.dueDay),
           State(s.books[title := info.(available := info.available - 1)],
                 s.issued[id := loan]))
  }

  /**
   * `Issue` with the missing guard: an id that is already active is refused
   * instead of overwriting the loan it names.
   */
  function IssueChecked(s: State, user: string, title: string, now: int, id: string): Step<int>
  {
    if title !in s.books then Step(Err(BookNotFound), s)
    else if s.books[title].available <= 0 then Step(Err(NoCopiesAvailable), s)
    else if id in s.issued then Step(Err(IdCollision), s)
    else Issue(s, user, title, now, id)
  }

  /**
   * Take back the loan `id`; the reply carries its title. A loan whose title
   * is absent fails the inventory lookup before anything is changed.
   */
  function Return(s: State, id: string): Step<string>
  {
    if id !in s.issued then Step(Err(TransactionNotFound), s)
    else
      var title := s.issued[id].book;
      if title !in s.books then Step(Err(DanglingLoan), s)
      else
        var info := s.books[title];
        Step(Ok(title),
             State(s.books[title := info.(available := info.available + 1)],
                   s.issued - {id}))
  }

  /** Add a title with `copies` copies, all on the shelf. */
  function AddBook(s: State, title: string, copies: int): Step<()>
  {
    if title in s.books then Step(Err(AlreadyExists), s)
    else Step(Ok(()), State(s.books[title := BookInfo(copies, copies)], s.issued))
  }

  // ---------------------------------------------------------------------
  // Counting loans

  /** Adding a loan under a fresh id adds one loan to its title and none elsewhere. */
  lemma LoansOnAdd(issued: map<string, Loan>, id: string, loan: Loan, t: string)
    requires id !in issued
    ensures LoansOn(issued[id := loan], t) == LoansOn(issued, t) + (if loan.book == t then 1 else 0)
  {
    var before := LoanIdsOn(issued, t);
    var after := LoanIdsOn(issued[id := loan], t);
    if loan.book == t {
      assert after == before + {id};
    } else {
      assert after == before;
    }
  }

  /** Removing an active loan removes one loan from its title and none elsewhere. */
  lemma LoansOnRemove(issued: map<string, Loan>, id: string, t: string)
    requires id in issued
    ensures LoansOn(issued - {id}, t) == LoansOn(issued, t) - (if issued[id].book == t then 1 else 0)
  {
    var before := LoanIdsOn(issued, t);
    var after := LoanIdsOn(issued - {id}, t);
    if issued[id].book == t {
      assert after == before - {id};
    } else {
      assert after == before;
    }
  }

  /** A title no loan refers to has no loans. */
  lemma NoLoansOnUnreferenced(issued: map<string, Loan>, t: string)
    requires forall id :: id in issued ==> issued[id].book != t
    ensures LoansOn(issued, t) == 0
  {
  }

  // ---------------------------------------------------------------------
  // What each operation does

  /**
   * Issue fails with BookNotFound on an unknown title and with
   * NoCopiesAvailable on a title without a copy on the shelf, changing
   * nothing; otherwise it takes one copy of that title, records exactly the
   * loan (user, title, due in the borrow window) under `id`, and leaves every
   * other title and every other loan as it was.
   */
  lemma IssueEffect(s: State, user: string, title: string, now: int, id: string)
    ensures var st := Issue(s, user, title, now, id);
      && (title !in s.books ==> st == Step(Err(BookNotFound), s))
      && (title in s.books && s.books[title].available <= 0 ==> st == Step(Err(NoCopiesAvailable), s))
      && (st.result.Ok? <==> title in s.books && s.books[title].available > 0)
      && (st.result.Ok? ==>
            && st.result.value == Day(now) + MaxBorrowDays
            && st.next.books.Keys == s.books.Keys
            && st.next.books[title].available == s.books[title].available - 1
            && st.next.books[title].total == s.books[title].total
            && (forall t :: t in s.books && t != title ==> st.next.books[t] == s.books[t])
            && st.next.issued.Keys == s.issued.Keys + {id}
            && st.next.issued[id] == Loan(user, title, Second(now), Day(now) + MaxBorrowDays)
            && (forall k :: k in s.issued && k != id ==> st.next.issued[k] == s.issued[k]))
  {
  }

  /** A successful issue under a fresh id adds one loan on that title, and one loan in all. */
  lemma IssueAddsOneLoan(s: State, user: string, title: string, now: int, id: string)
    requires id !in s.issued
    requires Issue(s, user, title, now, id).result.Ok?
    ensures LoansOn(Issue(s, user, title, now, id).next.issued, title) == LoansOn(s.issued, title) + 1
    ensures |Issue(s, user, title, now, id).next.issued| == |s.issued| + 1
  {
    LoansOnAdd(s.issued, id, Loan(user, title, Second(now), DueDay(now)), title);
  }

  /**
   * Return fails with TransactionNotFound on an unknown id, changing nothing;
   * otherwise, when the loan's title is present, it puts one copy back,
   * deletes exactly that loan and leaves everything else as it was.
   */
  lemma ReturnEffect(s: State, id: string)
    ensures var st := Return(s, id);
      && (id !in s.issued ==> st == Step(Err(TransactionNotFound), s))
      && (st.result.Err? ==> st.next == s)
      && (st.result.Ok? <==> id in s.issued && s.issued[id].book in s.books)
      && (st.result.Ok? ==>
            var title := s.issued[id].book;
            && st.result.value == title
            && st.next.books.Keys == s.books.Keys
            && st.next.books[title] == s.books[title].(available := s.books[title].available + 1)
            && (forall t :: t in s.books && t != title ==> st.next.books[t] == s.books[t])
            && st.next.issued.Keys == s.issued.Keys - {id}
            && (forall k :: k in st.next.issued ==> st.next.issued[k] == s.issued[k]))
  {
  }

  /** Under the invariant a return never meets a loan whose title is missing. */
  lemma ReturnNeverDangles(s: State, id: string)
    requires Valid(s)
    ensures Return(s, id).result != Err(DanglingLoan)
  {
  }

  /**
   * Adding fails with AlreadyExists on a present title and changes nothing;
   * otherwise it creates the title with total and available both `copies`
   * and touches no other title and no loan.
   */
  lemma AddBookEffect(s: State, title: string, copies: int)
    ensures var st := AddBook(s, title, copies);
      && (title in s.books ==> st == Step(Err(AlreadyExists), s))
      && (title !in s.books ==>
            && st.result.Ok?
            && st.next.books.Keys == s.books.Keys + {title}
            && st.next.books[title] == BookInfo(copies, copies)
            && (forall t :: t in s.books ==> st.next.books[t] == s.books[t])
            && st.next.issued == s.issued)
  {
  }

  // ---------------------------------------------------------------------
  // The invariant is kept

  /** The default inventory satisfies the invariant. */
  lemma DefaultStateValid()
    ensures Valid(DefaultState())
  {
  }

  /** Issue under a fresh id keeps the invariant. */
  lemma IssuePreservesValid(s: State, user: string, title: string, now: int, id: string)
    requires Valid(s)
    requires id !in s.issued
    ensures Valid(Issue(s, user, title, now, id).next)
  {
    var st := Issue(s, user, title, now, id);
    if st.result.Ok? {
      var loan := Loan(user, title, Second(now), DueDay(now));
      forall t | t in st.next.books
        ensures st.next.books[t].available == st.next.books[t].total - LoansOn(st.next.issued, t)
      {
        LoansOnAdd(s.issued, id, loan, t);
      }
    }
  }

  /** The guarded issue keeps the invariant whatever id it is given. */
  lemma IssueCheckedPreservesValid(s: State, user: string, title: string, now: int, id: string)
    requires Valid(s)
    ensures Valid(IssueChecked(s, user, title, now, id).next)
  {
    if id !in s.issued {
      IssuePreservesValid(s, user, title, now, id);
    }
  }

  /** Return keeps the invariant. */
  lemma ReturnPreservesValid(s: State, id: string)
    requires Valid(s)
    ensures Valid(Return(s, id).next)
  {
    var st := Return(s, id);
    if st.result.Ok? {
      forall t | t in st.next.books
        ensures st.next.books[t].available == st.next.books[t].total - LoansOn(st.next.issued, t)
      {
        LoansOnRemove(s.issued, id, t);
      }
    }
  }

  /** Adding a title with a non-negative number of copies keeps the invariant. */
  lemma AddBookPreservesValid(s: State, title: string, copies: int)
    requires Valid(s)
    requires copies >= 0
    ensures Valid(AddBook(s, title, copies).next)
  {
  }

  /** Adding a title with a negative number of copies breaks the invariant. */
  lemma AddBookNegativeBreaksValid(s: State, title: string, copies: int)
    requires title !in s.books
    requires copies < 0
    ensures !Valid(AddBook(s, title, copies).next)
  {
    assert AddBook(s, title, copies).next.books[title].available < 0;
  }

  // ---------------------------------------------------------------------
  // Round trip

  /** Returning the loan just issued under a fresh id restores the state exactly. */
  lemma IssueThenReturn(s: State, user: string, title: string, now: int, id: string)
    requires id !in s.issued
    requires Issue(s, user, title, now, id).result.Ok?
    ensures Return(Issue(s, user, title, now, id).next, id) == Step(Ok(title), s)
  {
  }

  // ---------------------------------------------------------------------
  // The overwrite on an id collision

  /**
   * Two issues of one title under the same id, as when one user borrows the
   * same title twice within one second, leave a single loan but take two
   * copies off the shelf: the invariant no longer holds.
   */
  lemma CollisionBreaksValid()
    ensures var s0 := State(map["1984" := BookInfo(3, 3)], map[]);
      var s1 := Issue(s0, "alice", "1984", 0, "alice_1984_19700101000000");
      var s2 := Issue(s1.next, "alice", "1984", 0, "alice_1984_19700101000000");
      && Valid(s0) && Valid(s1.next)
      && s2.result.Ok?
      && !Valid(s2.next)
  {
    var id := "alice_1984_19700101000000";
    var s0 := State(map["1984" := BookInfo(3, 3)], map[]);
    NoLoansOnUnreferenced(s0.issued, "1984");
    var s1 := Issue(s0, "alice", "1984", 0, id);
    IssuePreservesValid(s0, "alice", "1984", 0, id);
    var s2 := Issue(s1.next, "alice", "1984", 0, id);
    assert LoanIdsOn(s2.next.issued, "1984") == {id};
    assert s2.next.books["1984"].available == 1;
  }

  /**
   * From any valid state, a successful issue under an id that is already
   * active always breaks the invariant: the title loses a copy while its
   * loan count does not rise by one.
   */
  lemma IssueOnActiveIdBreaksValid(s: State, user: string, title: string, now: int, id: string)
    requires Valid(s)
    requires id in s.issued
    requires Issue(s, user, title, now, id).result.Ok?
    ensures !Valid(Issue(s, user, title, now, id).next)
  {
    var next := Issue(s, user, title, now, id).next;
    var loan := Loan(user, title, Second(now), DueDay(now));
    var rest := s.issued - {id};
    var lost := s.issued[id].book;
    assert next.issued == rest[id := loan];
    LoansOnRemove(s.issued, id, lost);
    LoansOnAdd(rest, id, loan, lost);
    if lost == title {
      // the title lost a copy but kept the same number of loans
      assert LoansOn(next.issued, title) == LoansOn(s.issued, title);
      assert next.books[title].available != next.books[title].total - LoansOn(next.issued, title);
    } else {
      // the overwritten loan's title kept its copies but lost a loan
      assert LoansOn(next.issued, lost) == LoansOn(s.issued, lost) - 1;
      assert next.books[lost].available != next.books[lost].total - LoansOn(next.issued, lost);
    }
  }

  // ---------------------------------------------------------------------
  // Any run of operations

  /** One call to the store, with the clock reading and id it is given. */
  datatype Op =
    | IssueOp(user: string, title: string, now: int, id: string)
    | ReturnOp(id: string)
    | AddOp(title: string, copies: int)

  /** The state after one operation (issue with the id guard). */
  function Apply(s: State, op: Op): State
  {
    match op
    case IssueOp(user, title, now, id) => IssueChecked(s, user, title, now, id).next
    case ReturnOp(id) => Return(s, id).next
    case AddOp(title, copies) => AddBook(s, title, copies).next
  }

  /** The state after a run of operations. */
  function Run(s: State, ops: seq<Op>): State
    decreases |ops|
  {
    if ops == [] then s else Run(Apply(s, ops[0]), ops[1..])
  }

  /** Copy counts added are never negative. */
  predicate NonNegativeAdds(ops: seq<Op>)
  {
    forall i :: 0 <= i < |ops| && ops[i].AddOp? ==> ops[i].copies >= 0
  }

  /** Every state reachable from a valid one is valid. */
  lemma {:induction false} RunPreservesValid(s: State, ops: seq<Op>)
    requires Valid(s)
    requires NonNegativeAdds(ops)
    ensures Valid(Run(s, ops))
    decreases |ops|
  {
    if ops != [] {
      match ops[0] {
        case IssueOp(user, title, now, id) => IssueCheckedPreservesValid(s, user, title, now, id);
        case ReturnOp(id) => ReturnPreservesValid(s, id);
        case AddOp(title, copies) =>
          AddBookPreservesValid(s, title, copies);
      }
      assert NonNegativeAdds(ops[1..]) by {
        forall i | 0 <= i < |ops[1..]| && ops[1..][i].AddOp?
          ensures ops[1..][i].copies >= 0
        {
          assert ops[1..][i] == ops[i + 1];
        }
      }
      RunPreservesValid(Apply(s, ops[0]), ops[1..]);
    }
  }

  /** Every state the store reaches from its default inventory is valid. */
  lemma ReachableFromDefaultValid(ops: seq<Op>)
    requires NonNegativeAdds(ops)
    ensures Valid(Run(DefaultState(), ops))
  {
    DefaultStateValid();
    RunPreservesValid(DefaultState(), ops);
  }
}
