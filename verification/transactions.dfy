/** The step 6 borrow transaction: who borrowed which book, when, and a flag
    that moves once from open to returned. */
module Transactions {
  import opened Common

  /** A wall-clock instant (`java.util.Date`), supplied by the caller. */
  datatype Date = Date(millis: int)

  datatype BorrowTransaction = BorrowTransaction(
    transactionId: string,
    bookIsbn: string,
    userId: string,
    borrowDate: Date,
    returnDate: Option<Date>,
    isReturned: bool)

  /** `new BorrowTransaction(id, isbn, userId)` at instant `now`: open, with
      no return date and the status text `"Active"`. */
  function NewTransaction(id: string, isbn: string, userId: string, now: Date): (t: BorrowTransaction)
    ensures t.transactionId == id && t.bookIsbn == isbn && t.userId == userId
    ensures t.borrowDate == now
    ensures !t.isReturned && t.returnDate == None
    ensures Status(t) == "Active"
    ensures Stamped(t)
  {
    BorrowTransaction(id, isbn, userId, now, None, false)
  }

  /** A transaction carries a return date exactly when it has been returned. */
  predicate Stamped(t: BorrowTransaction) {
    t.isReturned <==> t.returnDate.Some?
  }

  /** `markAsReturned()` at instant `now`: sets the flag and the return date,
      and leaves the id, ISBN, user and borrow date alone. */
  function MarkAsReturned(t: BorrowTransaction, now: Date): (t': BorrowTransaction)
    ensures t'.isReturned && t'.returnDate == Some(now)
    ensures t'.transactionId == t.transactionId && t'.bookIsbn == t.bookIsbn
    ensures t'.userId == t.userId && t'.borrowDate == t.borrowDate
    ensures Stamped(t') && Status(t') == "Returned"
  {
    t.(returnDate := Some(now), isReturned := true)
  }

  /** `getStatus()`: `"Returned"` once returned, `"Active"` before. */
  function Status(t: BorrowTransaction): (s: string)
    ensures s == "Returned" <==> t.isReturned
    ensures s == "Active" <==> !t.isReturned
  {
    if t.isReturned then "Returned" else "Active"
  }

  /** Marking twice is the same as marking once, except that the return date
      is the later instant; the flag and status stay `"Returned"`. */
  lemma MarkAsReturnedIdempotent(t: BorrowTransaction, first: Date, second: Date)
    ensures MarkAsReturned(MarkAsReturned(t, first), second) == MarkAsReturned(t, second)
    ensures Status(MarkAsReturned(MarkAsReturned(t, first), second)) == Status(MarkAsReturned(t, first))
  {
  }
}
