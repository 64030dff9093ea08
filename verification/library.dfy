/**
 * The library store object: the book inventory and the active loans held in
 * two map fields that the operations update in place, and the read-only
 * queries that build their answers entry by entry.
 *
 * Each mutating method is tied to its step function in `Ledger`, where the
 * catalog invariant is proved about it.
 */
module LibraryStore {
  import opened Clock
  import opened Ledger

  datatype Option<T> = None | Some(value: T)

  /** One line of the list of all active loans. */
  datatype IssuedRow = IssuedRow(
    transId: string, user: string, book: string,
    issuedAt: int, dueDay: int, daysRemaining: int)

  /** One line of a user's own loans. */
  datatype BorrowedRow = BorrowedRow(
    transId: string, book: string,
    issuedAt: int, dueDay: int, daysRemaining: int, isOverdue: bool)

  class Library {
    /** Title -> total and available copies. */
    var books: map<string, BookInfo>
    /** Transaction id -> active loan. */
    var issued: map<string, Loan>

    /** The document the store holds. */
    function Snapshot(): State
      reads this
    {
      State(books, issued)
    }

    ghost predicate Valid()
      reads this
    {
      Ledger.Valid(Snapshot())
    }

    /**
     * A store over the document read from storage, or over the default
     * inventory when there is none or it cannot be read.
     */
    constructor (stored: Option<State>)
      ensures Snapshot() == (if stored.Some? then stored.value else DefaultState())
      ensures stored.None? ==> Valid()
    {
      match stored {
        case Some(doc) =>
          books := doc.books;
          issued := doc.issued;
        case None =>
          books := DefaultState().books;
          issued := DefaultState().issued;
          DefaultStateValid();
      }
    }

    /**
     * Lend a copy of `bookName` to `user` at moment `now` under `transId`.
     * An active `transId` is overwritten, so a successful issue keeps the
     * invariant exactly when the id is fresh.
     */
    method IssueBook(user: string, bookName: string, now: int, transId: string) returns (r: Result<int>)
      modifies this
      ensures Step(r, Snapshot()) == Issue(old(Snapshot()), user, bookName, now, transId)
      ensures old(Valid()) && transId !in old(issued) ==> Valid()
      ensures old(Valid()) && r.Ok? ==> (Valid() <==> transId !in old(issued))
    {
      if bookName !in books {
        return Err(BookNotFound);
      }
      if books[bookName].available <= 0 {
        return Err(NoCopiesAvailable);
      }
      var due := DueDay(now);
      var info := books[bookName];
      books := books[bookName := info.(available := info.available - 1)];
      issued := issued[transId := Loan(user, bookName, Second(now), due)];
      r := Ok(due);
      if old(Valid()) {
        if transId !in old(issued) {
          IssuePreservesValid(old(Snapshot()), user, bookName, now, transId);
        } else {
          IssueOnActiveIdBreaksValid(old(Snapshot()), user, bookName, now, transId);
        }
      }
    }

    /** Take back the loan `transactionId`; the reply carries its title. */
    method ReturnBook(transactionId: string) returns (r: Result<string>)
      modifies this
      ensures Step(r, Snapshot()) == Return(old(Snapshot()), transactionId)
      ensures old(Valid()) ==> Valid() && r != Err(DanglingLoan)
    {
      if transactionId !in issued {
        return Err(TransactionNotFound);
      }
      var bookName := issued[transactionId].book;
      if bookName !in books {
        return Err(DanglingLoan);
      }
      var info := books[bookName];
      books := books[bookName := info.(available := info.available + 1)];
      issued := issued - {transactionId};
      r := Ok(bookName);
      if old(Valid()) {
        ReturnPreservesValid(old(Snapshot()), transactionId);
      }
    }

    /** Add the title `bookName` with `copies` copies. */
    method AddNewBook(bookName: string, copies: int) returns (r: Result<()>)
      modifies this
      ensures Step(r, Snapshot()) == AddBook(old(Snapshot()), bookName, copies)
      ensures old(Valid()) && copies >= 0 ==> Valid()
    {
      if bookName in books {
        return Err(AlreadyExists);
      }
      books := books[bookName := BookInfo(copies, copies)];
      r := Ok(());
      if old(Valid()) && copies >= 0 {
        AddBookPreservesValid(old(Snapshot()), bookName, copies);
      }
    }

    /** Exactly the titles with a copy on the shelf, with their counts as stored. */
    method GetAvailableBooks() returns (available: map<string, BookInfo>)
      ensures forall t :: t in available <==> t in books && books[t].available > 0
      ensures forall t :: t in available ==> available[t] == books[t]
    {
      available := map[];
      var rest := books.Keys;
      while rest != {}
        invariant rest <= books.Keys
        invariant forall t :: t in available <==> t in books && t !in rest && books[t].available > 0
        invariant forall t :: t in available ==> available[t] == books[t]
        decreases rest
      {
        var t :| t in rest;
        if books[t].available > 0 {
          available := available[t := books[t]];
        }
        rest := rest - {t};
      }
    }

    /**
     * One row per active loan, each with the days left at moment `now`;
     * no loan is listed twice.
     */
    method GetIssuedBooks(now: int) returns (rows: seq<IssuedRow>)
      ensures forall id :: id in issued ==> exists i :: 0 <= i < |rows| && rows[i].transId == id
      ensures forall i, j :: 0 <= i < j < |rows| ==> rows[i].transId != rows[j].transId
      ensures forall i :: 0 <= i < |rows| ==>
        && rows[i].transId in issued
        && var loan := issued[rows[i].transId];
           rows[i] == IssuedRow(rows[i].transId, loan.user, loan.book, loan.issuedAt,
                                loan.dueDay, DaysRemaining(loan.dueDay, now))
    {
      rows := [];
      var rest := issued.Keys;
      while rest != {}
        invariant rest <= issued.Keys
        invariant forall id :: id in issued && id !in rest ==>
          exists i :: 0 <= i < |rows| && rows[i].transId == id
        invariant forall i, j :: 0 <= i < j < |rows| ==> rows[i].transId != rows[j].transId
        invariant forall i :: 0 <= i < |rows| ==>
          && rows[i].transId in issued
          && rows[i].transId !in rest
          && var loan := issued[rows[i].transId];
             rows[i] == IssuedRow(rows[i].transId, loan.user, loan.book, loan.issuedAt,
                                  loan.dueDay, DaysRemaining(loan.dueDay, now))
        decreases rest
      {
        var id :| id in rest;
        var loan := issued[id];
        var row := IssuedRow(id, loan.user, loan.book, loan.issuedAt, loan.dueDay,
                             DaysRemaining(loan.dueDay, now));
        ghost var prev := rows;
        rows := rows + [row];
        assert forall i :: 0 <= i < |prev| ==> rows[i] == prev[i];
        assert rows[|prev|].transId == id;
        rest := rest - {id};
      }
    }

    /**
     * One row per active loan of `user` and no other, each with the days
     * left at moment `now` and flagged overdue exactly when they are
     * negative; no loan is listed twice.
     */
    method GetUserBorrowedBooks(user: string, now: int) returns (rows: seq<BorrowedRow>)
      ensures forall id :: id in issued && issued[id].user == user ==>
        exists i :: 0 <= i < |rows| && rows[i].transId == id
      ensures forall i, j :: 0 <= i < j < |rows| ==> rows[i].transId != rows[j].transId
      ensures forall i :: 0 <= i < |rows| ==>
        && rows[i].transId in issued
        && var loan := issued[rows[i].transId];
           && loan.user == user
           && rows[i] == BorrowedRow(rows[i].transId, loan.book, loan.issuedAt, loan.dueDay,
                                     DaysRemaining(loan.dueDay, now), DaysRemaining(loan.dueDay, now) < 0)
    {
      rows := [];
      var rest := issued.Keys;
      while rest != {}
        invariant rest <= issued.Keys
        invariant forall id :: id in issued && id !in rest && issued[id].user == user ==>
          exists i :: 0 <= i < |rows| && rows[i].transId == id
        invariant forall i, j :: 0 <= i < j < |rows| ==> rows[i].transId != rows[j].transId
        invariant forall i :: 0 <= i < |rows| ==>
          && rows[i].transId in issued
          && rows[i].transId !in rest
          && var loan := issued[rows[i].transId];
             && loan.user == user
             && rows[i] == BorrowedRow(rows[i].transId, loan.book, loan.issuedAt, loan.dueDay,
                                       DaysRemaining(loan.dueDay, now), DaysRemaining(loan.dueDay, now) < 0)
        decreases rest
      {
        var id :| id in rest;
        var loan := issued[id];
        if loan.user == user {
          var days := DaysRemaining(loan.dueDay, now);
          ghost var prev := rows;
          rows := rows + [BorrowedRow(id, loan.book, loan.issuedAt, loan.dueDay, days, days < 0)];
          assert forall i :: 0 <= i < |prev| ==> rows[i] == prev[i];
          assert rows[|prev|].transId == id;
        }
        rest := rest - {id};
      }
    }
  }
}
