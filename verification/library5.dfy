/** The step 5 `SimpleLibrary` running without a database: add, update and
    remove for books and users, and borrow/return answering with the text
    messages of the source. Transaction ids are `"T"` followed by the
    counter formatted with `%03d`. */
module LibraryV5 {
  import opened Common
  import opened TransactionIds
  import opened Books
  import opened Users
  import opened Transactions
  import opened Ledger

  /** The named ways borrow and return can fail, in the order they are checked. */
  datatype LedgerError =
    | BookNotFound
    | UserNotFound
    | BookNotAvailable
    | LimitReached
    | BookNotBorrowed
    | BookNotHeld
    | NoActiveTransaction

  datatype BorrowResult = BorrowFailed(borrowError: LedgerError) | BorrowSucceeded(transactionId: string)

  datatype ReturnResult = ReturnFailed(returnError: LedgerError) | ReturnSucceeded

  /** The text the source returns for each failure. */
  function ErrorMessage(e: LedgerError): (s: string)
    ensures |s| > 0 && s[0] != 'S'
  {
    match e
    case BookNotFound => "Book not found"
    case UserNotFound => "User not found"
    case BookNotAvailable => "Book is not available"
    case LimitReached => "User has reached maximum book limit"
    case BookNotBorrowed => "Book is not currently borrowed"
    case BookNotHeld => "User has not borrowed this book"
    case NoActiveTransaction => "No active transaction found"
  }

  /** The string `borrowBook` returns: only a success starts with `S`, and
      the id can be read back after the fixed prefix. */
  function BorrowMessage(r: BorrowResult): (s: string)
    ensures |s| > 0 && (s[0] == 'S' <==> r.BorrowSucceeded?)
    ensures r.BorrowSucceeded? ==> |s| >= 25 && s[25..] == r.transactionId
  {
    match r
    case BorrowFailed(e) => ErrorMessage(e)
    case BorrowSucceeded(id) => "Success! Transaction ID: " + id
  }

  /** The string `returnBook` returns: the success text is never one of the
      failure texts. */
  function ReturnMessage(r: ReturnResult): (s: string)
    ensures s == "Book returned successfully" <==> r.ReturnSucceeded?
  {
    match r
    case ReturnFailed(e) => ErrorMessage(e)
    case ReturnSucceeded => "Book returned successfully"
  }

  lemma ErrorMessagesDistinct(e1: LedgerError, e2: LedgerError)
    requires ErrorMessage(e1) == ErrorMessage(e2)
    ensures e1 == e2
  {
  }

  /** The returned text determines the outcome: distinct outcomes of a borrow
      never share a message, and the success message carries the id. */
  lemma BorrowMessageDeterminesOutcome(a: BorrowResult, b: BorrowResult)
    requires BorrowMessage(a) == BorrowMessage(b)
    ensures a == b
  {
    if a.BorrowFailed? && b.BorrowFailed? {
      ErrorMessagesDistinct(a.borrowError, b.borrowError);
    }
  }

  /** Ids the counter can still produce are not yet used as keys. */
  ghost predicate IdsFresh(lib: Library) {
    forall n :: n >= lib.counter ==> PaddedId(n) !in lib.transactions
  }

  /** The step 5 ledger invariant. */
  ghost predicate Inv(lib: Library) {
    Valid(lib) && IdsFresh(lib)
  }

  lemma EmptyInv()
    ensures Inv(Empty())
  {
  }

  /** `addBook`: `null` is refused; any other book is stored under its ISBN,
      replacing whatever was stored there. Nothing else changes. */
  function AddBook(lib: Library, book: Option<Book>): (r: (bool, Library))
    ensures book.None? ==> r == (false, lib)
    ensures book.Some? ==> r.0 && r.1.books.Keys == lib.books.Keys + {book.value.isbn}
    ensures book.Some? ==> r.1.books[book.value.isbn] == book.value
    ensures forall k :: k in lib.books && (book.None? || k != book.value.isbn) ==> r.1.books[k] == lib.books[k]
    ensures r.1.users == lib.users && r.1.transactions == lib.transactions && r.1.counter == lib.counter
  {
    match book
    case None => (false, lib)
    case Some(b) => (true, lib.(books := lib.books[b.isbn := b]))
  }

  /** `updateBook`: unknown ISBN fails; otherwise only title and author of that
      book change. */
  function UpdateBook(lib: Library, isbn: string, title: string, author: string): (r: (bool, Library))
    ensures isbn !in lib.books ==> r == (false, lib)
    ensures isbn in lib.books ==> r.0 && r.1.books.Keys == lib.books.Keys
    ensures isbn in lib.books ==> r.1.books[isbn] == lib.books[isbn].(title := title, author := author)
    ensures forall k :: k in lib.books && k != isbn ==> r.1.books[k] == lib.books[k]
    ensures r.1.users == lib.users && r.1.transactions == lib.transactions && r.1.counter == lib.counter
  {
    match GetBook(lib, isbn)
    case None => (false, lib)
    case Some(b) => (true, lib.(books := lib.books[isbn := SetAuthor(SetTitle(b, title), author)]))
  }

  /** `removeBook`: unknown or borrowed books stay; otherwise only that key goes. */
  function RemoveBook(lib: Library, isbn: string): (r: (bool, Library))
    ensures r.0 <==> isbn in lib.books && lib.books[isbn].status == Available
    ensures !r.0 ==> r.1 == lib
    ensures r.0 ==> r.1.books.Keys == lib.books.Keys - {isbn}
    ensures forall k :: k in r.1.books ==> k in lib.books && r.1.books[k] == lib.books[k]
    ensures r.1.users == lib.users && r.1.transactions == lib.transactions && r.1.counter == lib.counter
  {
    match GetBook(lib, isbn)
    case None => (false, lib)
    case Some(b) =>
      if b.status == Borrowed then (false, lib)
      else
        assert lib.books[isbn].status == Available;
        (true, lib.(books := lib.books - {isbn}))
  }

  /** `addUser`: `null` is refused; any other user is stored under its id,
      replacing whatever was stored there. Nothing else changes. */
  function AddUser(lib: Library, user: Option<User>): (r: (bool, Library))
    ensures user.None? ==> r == (false, lib)
    ensures user.Some? ==> r.0 && r.1.users.Keys == lib.users.Keys + {user.value.userId}
    ensures user.Some? ==> r.1.users[user.value.userId] == user.value
    ensures forall k :: k in lib.users && (user.None? || k != user.value.userId) ==> r.1.users[k] == lib.users[k]
    ensures r.1.books == lib.books && r.1.transactions == lib.transactions && r.1.counter == lib.counter
  {
    match user
    case None => (false, lib)
    case Some(u) => (true, lib.(users := lib.users[u.userId := u]))
  }

  /** `updateUser`: unknown id fails; otherwise only that user's name changes. */
  function UpdateUser(lib: Library, userId: string, name: string): (r: (bool, Library))
    ensures userId !in lib.users ==> r == (false, lib)
    ensures userId in lib.users ==> r.0 && r.1.users.Keys == lib.users.Keys
    ensures userId in lib.users ==> r.1.users[userId] == lib.users[userId].(name := name)
    ensures forall k :: k in lib.users && k != userId ==> r.1.users[k] == lib.users[k]
    ensures r.1.books == lib.books && r.1.transactions == lib.transactions && r.1.counter == lib.counter
  {
    match GetUser(lib, userId)
    case None => (false, lib)
    case Some(u) => (true, lib.(users := lib.users[userId := SetName(u, name)]))
  }

  /** `removeUser`: unknown users and users holding books stay; otherwise only
      that key goes. */
  function RemoveUser(lib: Library, userId: string): (r: (bool, Library))
    ensures r.0 <==> userId in lib.users && lib.users[userId].borrowedBooks == []
    ensures !r.0 ==> r.1 == lib
    ensures r.0 ==> r.1.users.Keys == lib.users.Keys - {userId}
    ensures forall k :: k in r.1.users ==> k in lib.users && r.1.users[k] == lib.users[k]
    ensures r.1.books == lib.books && r.1.transactions == lib.transactions && r.1.counter == lib.counter
  {
    match GetUser(lib, userId)
    case None => (false, lib)
    case Some(u) =>
      if BorrowedBooksCount(u) > 0 then (false, lib)
      else (true, lib.(users := lib.users - {userId}))
  }

  /** `borrowBook`: the four checks in source order, each failing with the
      ledger untouched; on success the id is `"T"` + the counter in `%03d`
      form and the counter moves on by one. */
  function BorrowBook(lib: Library, isbn: string, userId: string, now: Date): (r: (BorrowResult, Library))
    ensures isbn !in lib.books ==> r == (BorrowFailed(BookNotFound), lib)
    ensures isbn in lib.books && userId !in lib.users ==> r == (BorrowFailed(UserNotFound), lib)
    ensures isbn in lib.books && userId in lib.users && !IsAvailable(lib.books[isbn])
        ==> r == (BorrowFailed(BookNotAvailable), lib)
    ensures isbn in lib.books && userId in lib.users && IsAvailable(lib.books[isbn])
        && !CanBorrowMoreBooks(lib.users[userId])
        ==> r == (BorrowFailed(LimitReached), lib)
    ensures r.0.BorrowSucceeded? <==>
              (isbn in lib.books && userId in lib.users
               && IsAvailable(lib.books[isbn]) && CanBorrowMoreBooks(lib.users[userId]))
    ensures r.0.BorrowSucceeded? ==> r.0.transactionId == PaddedId(lib.counter) && r.1.counter == lib.counter + 1
    ensures r.0.BorrowSucceeded? ==> r.1 == CommitBorrow(lib, isbn, userId, PaddedId(lib.counter), now)
  {
    match GetBook(lib, isbn)
    case None => (BorrowFailed(BookNotFound), lib)
    case Some(book) =>
      match GetUser(lib, userId)
      case None => (BorrowFailed(UserNotFound), lib)
      case Some(user) =>
        if !IsAvailable(book) then (BorrowFailed(BookNotAvailable), lib)
        else if !CanBorrowMoreBooks(user) then (BorrowFailed(LimitReached), lib)
        else
          var tid := PaddedId(lib.counter);
          (BorrowSucceeded(tid), CommitBorrow(lib, isbn, userId, tid, now))
  }

  /** `returnBook`: the four checks in source order, then the search for an
      open transaction of this book and user in iteration order `order`; every
      failure leaves the ledger untouched. */
  function ReturnBook(lib: Library, isbn: string, userId: string, now: Date, order: seq<string>)
    : (r: (ReturnResult, Library))
    ensures isbn !in lib.books ==> r == (ReturnFailed(BookNotFound), lib)
    ensures isbn in lib.books && userId !in lib.users ==> r == (ReturnFailed(UserNotFound), lib)
    ensures isbn in lib.books && userId in lib.users && IsAvailable(lib.books[isbn])
        ==> r == (ReturnFailed(BookNotBorrowed), lib)
    ensures isbn in lib.books && userId in lib.users && !IsAvailable(lib.books[isbn])
        && !HasBorrowedBook(lib.users[userId], isbn)
        ==> r == (ReturnFailed(BookNotHeld), lib)
    ensures r.0.ReturnFailed? ==> r.1 == lib
    ensures Enumerates(order, lib.transactions) ==>
        (r.0 == ReturnFailed(NoActiveTransaction) <==>
          isbn in lib.books && userId in lib.users && !IsAvailable(lib.books[isbn])
          && HasBorrowedBook(lib.users[userId], isbn)
          && forall id :: id in lib.transactions ==> !OpenMatch(lib.transactions[id], isbn, userId))
    ensures Enumerates(order, lib.transactions) ==>
        (r.0 == ReturnSucceeded <==>
          isbn in lib.books && userId in lib.users && !IsAvailable(lib.books[isbn])
          && HasBorrowedBook(lib.users[userId], isbn)
          && exists id :: id in lib.transactions && OpenMatch(lib.transactions[id], isbn, userId))
    ensures r.0.ReturnSucceeded? ==>
              (isbn in lib.books && userId in lib.users
               && exists tid :: (tid in lib.transactions && OpenMatch(lib.transactions[tid], isbn, userId)
                                 && r.1 == CommitReturn(lib, isbn, userId, tid, now)))
  {
    match GetBook(lib, isbn)
    case None => (ReturnFailed(BookNotFound), lib)
    case Some(book) =>
      match GetUser(lib, userId)
      case None => (ReturnFailed(UserNotFound), lib)
      case Some(user) =>
        if IsAvailable(book) then (ReturnFailed(BookNotBorrowed), lib)
        else if !HasBorrowedBook(user, isbn) then (ReturnFailed(BookNotHeld), lib)
        else
          match FirstOpenMatch(order, lib.transactions, isbn, userId)
          case None => (ReturnFailed(NoActiveTransaction), lib)
          case Some(tid) => (ReturnSucceeded, CommitReturn(lib, isbn, userId, tid, now))
  }

  /** What a successful borrow does on a consistent ledger: the book becomes
      borrowed, the ISBN is appended to the user's list, one new open
      transaction under a previously unused id is stored, the counter grows by
      one, and nothing else changes. */
  lemma BorrowEffects(lib: Library, isbn: string, userId: string, now: Date)
    requires Inv(lib)
    requires BorrowBook(lib, isbn, userId, now).0.BorrowSucceeded?
    ensures var (res, lib') := BorrowBook(lib, isbn, userId, now);
      && res.transactionId !in lib.transactions
      && lib'.transactions == lib.transactions[res.transactionId := NewTransaction(res.transactionId, isbn, userId, now)]
      && lib'.books == lib.books[isbn := lib.books[isbn].(status := Borrowed)]
      && lib'.users == lib.users[userId := lib.users[userId].(borrowedBooks := lib.users[userId].borrowedBooks + [isbn])]
      && lib'.counter == lib.counter + 1
  {
    CommitBorrowPreservesValid(lib, isbn, userId, PaddedId(lib.counter), now);
  }

  /** A borrow, successful or not, keeps the step 5 invariant. */
  lemma BorrowPreservesInv(lib: Library, isbn: string, userId: string, now: Date)
    requires Inv(lib)
    ensures Inv(BorrowBook(lib, isbn, userId, now).1)
  {
    var (res, lib') := BorrowBook(lib, isbn, userId, now);
    if res.BorrowSucceeded? {
      var tid := PaddedId(lib.counter);
      CommitBorrowPreservesValid(lib, isbn, userId, tid, now);
      forall n | n >= lib'.counter ensures PaddedId(n) !in lib'.transactions {
        PaddedIdInjective(n, lib.counter);
      }
    }
  }

  /** What a successful return does on a consistent ledger: the book becomes
      available, the ISBN leaves the user's list, exactly the one open
      transaction of this book is marked returned and kept, and nothing else
      changes. */
  lemma ReturnEffects(lib: Library, isbn: string, userId: string, now: Date, order: seq<string>)
    requires Inv(lib)
    requires ReturnBook(lib, isbn, userId, now, order).0.ReturnSucceeded?
    ensures var lib' := ReturnBook(lib, isbn, userId, now, order).1;
      && lib'.books == lib.books[isbn := lib.books[isbn].(status := Available)]
      && lib'.users == lib.users[userId := lib.users[userId].(borrowedBooks := RemoveFirst(lib.users[userId].borrowedBooks, isbn))]
      && !HasBorrowedBook(lib'.users[userId], isbn)
      && lib'.transactions.Keys == lib.transactions.Keys
      && lib'.counter == lib.counter
      && exists tid :: tid in lib.transactions && OpenMatch(lib.transactions[tid], isbn, userId)
           && (forall id :: id in lib.transactions && OpenMatch(lib.transactions[id], isbn, userId) ==> id == tid)
           && lib'.transactions == lib.transactions[tid := MarkAsReturned(lib.transactions[tid], now)]
  {
    var lib' := ReturnBook(lib, isbn, userId, now, order).1;
    var tid :| tid in lib.transactions && OpenMatch(lib.transactions[tid], isbn, userId)
           && lib' == CommitReturn(lib, isbn, userId, tid, now);
    CommitReturnPreservesValid(lib, isbn, userId, tid, now);
    forall id | id in lib.transactions && OpenMatch(lib.transactions[id], isbn, userId) ensures id == tid {
      AtMostOneOpenLoan(lib, id, tid);
    }
  }

  /** On a consistent ledger searched in a complete order, a return never
      ends in "No active transaction found": the user's list and the open
      transactions agree, so once the user holds the book its open
      transaction is found. */
  lemma ReturnNeverMissesOnValid(lib: Library, isbn: string, userId: string, now: Date, order: seq<string>)
    requires Valid(lib) && Enumerates(order, lib.transactions)
    ensures ReturnBook(lib, isbn, userId, now, order).0 != ReturnFailed(NoActiveTransaction)
  {
    if isbn in lib.books && userId in lib.users && HasBorrowedBook(lib.users[userId], isbn) {
      assert isbn in Elems(lib.users[userId].borrowedBooks);
      assert isbn in HeldIsbns(lib.transactions, userId);
    }
  }

  /** A return, successful or not, keeps the step 5 invariant. */
  lemma ReturnPreservesInv(lib: Library, isbn: string, userId: string, now: Date, order: seq<string>)
    requires Inv(lib)
    ensures Inv(ReturnBook(lib, isbn, userId, now, order).1)
  {
    var (res, lib') := ReturnBook(lib, isbn, userId, now, order);
    if res.ReturnSucceeded? {
      var tid :| tid in lib.transactions && OpenMatch(lib.transactions[tid], isbn, userId)
             && lib' == CommitReturn(lib, isbn, userId, tid, now);
      CommitReturnPreservesValid(lib, isbn, userId, tid, now);
    }
  }

  /** Right after a successful borrow, returning the same book by the same
      user succeeds and closes the transaction the borrow opened. */
  lemma ReturnAfterBorrow(lib: Library, isbn: string, userId: string, t1: Date, t2: Date, order: seq<string>)
    requires Inv(lib)
    requires BorrowBook(lib, isbn, userId, t1).0.BorrowSucceeded?
    requires Enumerates(order, BorrowBook(lib, isbn, userId, t1).1.transactions)
    ensures var lib1 := BorrowBook(lib, isbn, userId, t1).1;
      var tid := PaddedId(lib.counter);
      && ReturnBook(lib1, isbn, userId, t2, order).0 == ReturnSucceeded
      && ReturnBook(lib1, isbn, userId, t2, order).1 == CommitReturn(lib1, isbn, userId, tid, t2)
  {
    var tid := PaddedId(lib.counter);
    var lib1 := CommitBorrow(lib, isbn, userId, tid, t1);
    assert BorrowBook(lib, isbn, userId, t1).1 == lib1;
    assert tid !in lib.transactions;
    CommitBorrowPreservesValid(lib, isbn, userId, tid, t1);
    assert lib1.transactions[tid] == NewTransaction(tid, isbn, userId, t1);
    assert OpenMatch(lib1.transactions[tid], isbn, userId);
    assert HasBorrowedBook(lib1.users[userId], isbn);
    var (back, lib2) := ReturnBook(lib1, isbn, userId, t2, order);
    assert back != ReturnFailed(NoActiveTransaction);
    var other :| other in lib1.transactions && OpenMatch(lib1.transactions[other], isbn, userId)
                 && lib2 == CommitReturn(lib1, isbn, userId, other, t2);
    AtMostOneOpenLoan(lib1, other, tid);
  }

  /** Borrowing a book and returning it restores the book and the user
      exactly; the transaction stays behind, returned, with a return date. */
  lemma BorrowThenReturnRoundTrip(lib: Library, isbn: string, userId: string, t1: Date, t2: Date, order: seq<string>)
    requires Inv(lib)
    requires BorrowBook(lib, isbn, userId, t1).0.BorrowSucceeded?
    requires Enumerates(order, BorrowBook(lib, isbn, userId, t1).1.transactions)
    ensures var (res, lib1) := BorrowBook(lib, isbn, userId, t1);
      var (back, lib2) := ReturnBook(lib1, isbn, userId, t2, order);
      && back == ReturnSucceeded
      && lib2.books == lib.books
      && lib2.users == lib.users
      && lib2.counter == lib.counter + 1
      && res.transactionId in lib2.transactions
      && lib2.transactions[res.transactionId].isReturned
      && lib2.transactions[res.transactionId].returnDate == Some(t2)
  {
    var tid := PaddedId(lib.counter);
    var lib1 := CommitBorrow(lib, isbn, userId, tid, t1);
    assert BorrowBook(lib, isbn, userId, t1) == (BorrowSucceeded(tid), lib1);
    ReturnAfterBorrow(lib, isbn, userId, t1, t2, order);
    AvailableBookIsFree(lib, isbn, userId);
    CommitRoundTrip(lib, isbn, userId, tid, t1, t2);
  }

  /** Committing a borrow and then the return of the same transaction gives
      back the books and users the ledger started with. */
  lemma CommitRoundTrip(lib: Library, isbn: string, userId: string, tid: string, t1: Date, t2: Date)
    requires isbn in lib.books && userId in lib.users
    requires lib.books[isbn].status == Available
    requires CanBorrowMoreBooks(lib.users[userId]) && !HasBorrowedBook(lib.users[userId], isbn)
    ensures var lib1 := CommitBorrow(lib, isbn, userId, tid, t1);
      var lib2 := CommitReturn(lib1, isbn, userId, tid, t2);
      && lib2.books == lib.books
      && lib2.users == lib.users
      && lib2.counter == lib.counter + 1
      && lib2.transactions == lib.transactions[tid := MarkAsReturned(NewTransaction(tid, isbn, userId, t1), t2)]
  {
    var u := lib.users[userId];
    Users.BorrowThenReturn(u, isbn);
    assert lib.books[isbn].(status := Borrowed).(status := Available) == lib.books[isbn];
  }

  /** Removing an available book keeps the invariant. */
  lemma RemoveBookPreservesInv(lib: Library, isbn: string)
    requires Inv(lib)
    ensures Inv(RemoveBook(lib, isbn).1)
  {
    var (ok, lib') := RemoveBook(lib, isbn);
    if ok {
      forall id | id in lib.transactions && !lib.transactions[id].isReturned
        ensures lib.transactions[id].bookIsbn != isbn
      {
        assert id !in OpenLoans(lib.transactions, isbn);
      }
    }
  }

  /** Removing a user who holds no books keeps the invariant. */
  lemma RemoveUserPreservesInv(lib: Library, userId: string)
    requires Inv(lib)
    ensures Inv(RemoveUser(lib, userId).1)
  {
    var (ok, lib') := RemoveUser(lib, userId);
    if ok {
      forall id | id in lib.transactions && !lib.transactions[id].isReturned
        ensures lib.transactions[id].userId != userId
      {
        assert HeldIsbns(lib.transactions, userId) == {};
        HeldIsbnsMember(lib.transactions, id);
      }
    }
  }

  /** Renaming a book or a user keeps the invariant. */
  lemma UpdatesPreserveInv(lib: Library, key: string, a: string, b: string)
    requires Inv(lib)
    ensures Inv(UpdateBook(lib, key, a, b).1)
    ensures Inv(UpdateUser(lib, key, a).1)
  {
  }

  /** Adding a book under a new ISBN, in its initial available state, keeps
      the ledger consistent. */
  lemma AddBookPreservesValid(lib: Library, book: Book)
    requires Valid(lib)
    requires book.isbn !in lib.books && book.status == Available
    ensures Valid(AddBook(lib, Some(book)).1)
  {
    var lib' := AddBook(lib, Some(book)).1;
    assert OpenLoans(lib.transactions, book.isbn) == {} by {
      forall id | id in lib.transactions && !lib.transactions[id].isReturned
        ensures lib.transactions[id].bookIsbn != book.isbn
      {
      }
    }
  }

  /** Adding a user under a new id, holding nothing yet, keeps the ledger
      consistent. */
  lemma AddUserPreservesValid(lib: Library, user: User)
    requires Valid(lib)
    requires user.userId !in lib.users && user.borrowedBooks == []
    ensures Valid(AddUser(lib, Some(user)).1)
  {
    var lib' := AddUser(lib, Some(user)).1;
    assert HeldIsbns(lib.transactions, user.userId) == {} by {
      forall id | id in lib.transactions && !lib.transactions[id].isReturned
        ensures lib.transactions[id].userId != user.userId
      {
      }
    }
  }

  /** Because `addBook` overwrites, re-adding a borrowed ISBN as a fresh
      available book breaks the invariant: one open transaction remains for a
      book that now reads available. */
  lemma AddBookOverwriteBreaksInv(lib: Library, book: Book)
    requires Valid(lib)
    requires book.isbn in lib.books && lib.books[book.isbn].status == Borrowed
    requires book.status == Available
    ensures !Valid(AddBook(lib, Some(book)).1)
  {
    var lib' := AddBook(lib, Some(book)).1;
    assert |OpenLoans(lib'.transactions, book.isbn)| == 1;
    assert lib'.books[book.isbn].status == Available;
  }

  /** Because `addUser` overwrites, re-adding a user who holds a book as a new
      user with an empty list breaks the invariant. */
  lemma AddUserOverwriteBreaksInv(lib: Library, user: User)
    requires Valid(lib)
    requires user.userId in lib.users && |lib.users[user.userId].borrowedBooks| > 0
    requires user.borrowedBooks == []
    ensures !Valid(AddUser(lib, Some(user)).1)
  {
    var old_ := lib.users[user.userId];
    var isbn := old_.borrowedBooks[0];
    assert isbn in Elems(old_.borrowedBooks);
    assert isbn in HeldIsbns(lib.transactions, user.userId);
    assert Elems(user.borrowedBooks) == {};
  }

  /** One call a client can make on the ledger. */
  datatype Op =
    | AddBookOp(book: Option<Book>)
    | UpdateBookOp(isbn: string, title: string, author: string)
    | RemoveBookOp(isbn: string)
    | AddUserOp(user: Option<User>)
    | UpdateUserOp(userId: string, name: string)
    | RemoveUserOp(userId: string)
    | BorrowOp(isbn: string, userId: string, now: Date)
    | ReturnOp(isbn: string, userId: string, now: Date, order: seq<string>)

  /** Performs one call; also yields the id of the transaction it opened, if any. */
  function Apply(lib: Library, op: Op): (r: (Library, Option<string>))
    ensures r.1.Some? ==> op.BorrowOp? && r.1.value == PaddedId(lib.counter)
    ensures r.0.counter == lib.counter + (if r.1.Some? then 1 else 0)
  {
    match op
    case AddBookOp(b) => (AddBook(lib, b).1, None)
    case UpdateBookOp(isbn, title, author) => (UpdateBook(lib, isbn, title, author).1, None)
    case RemoveBookOp(isbn) => (RemoveBook(lib, isbn).1, None)
    case AddUserOp(u) => (AddUser(lib, u).1, None)
    case UpdateUserOp(userId, name) => (UpdateUser(lib, userId, name).1, None)
    case RemoveUserOp(userId) => (RemoveUser(lib, userId).1, None)
    case BorrowOp(isbn, userId, now) =>
      var (res, lib') := BorrowBook(lib, isbn, userId, now);
      (lib', if res.BorrowSucceeded? then Some(res.transactionId) else None)
    case ReturnOp(isbn, userId, now, order) => (ReturnBook(lib, isbn, userId, now, order).1, None)
  }

  /** Performs the calls in order; yields the final ledger and the ids of the
      transactions opened along the way, one per counter step. */
  function Run(lib: Library, ops: seq<Op>): (r: (Library, seq<string>))
    ensures r.0.counter == lib.counter + |r.1|
    ensures |r.1| <= |ops|
    decreases |ops|
  {
    if |ops| == 0 then (lib, [])
    else
      var (lib1, issued) := Apply(lib, ops[0]);
      var (lib2, ids) := Run(lib1, ops[1..]);
      (lib2, (if issued.Some? then [issued.value] else []) + ids)
  }

  /** Every call keeps future ids unused, never drops a transaction, never
      touches a returned one, and an id it issues was not in use before. */
  lemma ApplyKeepsHistory(lib: Library, op: Op)
    requires IdsFresh(lib)
    ensures var (lib', issued) := Apply(lib, op);
      && IdsFresh(lib')
      && lib'.counter >= lib.counter
      && lib.transactions.Keys <= lib'.transactions.Keys
      && (forall id :: id in lib.transactions && lib.transactions[id].isReturned
            ==> lib'.transactions[id] == lib.transactions[id])
      && (issued.Some? ==> issued.value !in lib.transactions && issued.value in lib'.transactions)
  {
    var (lib', issued) := Apply(lib, op);
    match op
    case BorrowOp(isbn, userId, now) =>
      if issued.Some? {
        forall n | n >= lib'.counter ensures PaddedId(n) !in lib'.transactions {
          PaddedIdInjective(n, lib.counter);
        }
      }
    case _ =>
  }

  /** The ids a run issues are those of the consecutive counter values from
      the starting one, in order. */
  lemma {:induction false} RunIssuesConsecutiveIds(lib: Library, ops: seq<Op>)
    ensures forall i :: 0 <= i < |Run(lib, ops).1| ==> Run(lib, ops).1[i] == PaddedId(lib.counter + i)
    decreases |ops|
  {
    if |ops| > 0 {
      var (lib1, issued) := Apply(lib, ops[0]);
      RunIssuesConsecutiveIds(lib1, ops[1..]);
      var ids := Run(lib1, ops[1..]).1;
      var all := (if issued.Some? then [issued.value] else []) + ids;
      assert Run(lib, ops).1 == all;
      forall i | 0 <= i < |all| ensures all[i] == PaddedId(lib.counter + i) {
        if issued.Some? && i > 0 {
          assert lib1.counter == lib.counter + 1;
          assert all[i] == ids[i - 1] == PaddedId(lib1.counter + (i - 1));
        } else if issued.None? {
          assert lib1.counter == lib.counter;
          assert all[i] == ids[i] == PaddedId(lib1.counter + i);
        }
      }
    }
  }

  /** Transaction ids issued during any run are pairwise distinct, were never
      in use before the run, and are all still present at its end. */
  lemma {:induction false} RunIssuesDistinctIds(lib: Library, ops: seq<Op>)
    requires IdsFresh(lib)
    ensures IdsFresh(Run(lib, ops).0)
    ensures lib.transactions.Keys <= Run(lib, ops).0.transactions.Keys
    ensures NoDup(Run(lib, ops).1)
    ensures forall id :: id in Run(lib, ops).1 ==> id !in lib.transactions && id in Run(lib, ops).0.transactions
    decreases |ops|
  {
    if |ops| > 0 {
      var (lib1, issued) := Apply(lib, ops[0]);
      ApplyKeepsHistory(lib, ops[0]);
      RunIssuesDistinctIds(lib1, ops[1..]);
      var (lib2, ids) := Run(lib1, ops[1..]);
      assert Run(lib, ops) == (lib2, (if issued.Some? then [issued.value] else []) + ids);
      if issued.Some? {
        assert issued.value !in ids;
        PrependFreshNoDup(issued.value, ids);
      } else {
        assert [] + ids == ids;
      }
    }
  }

  /** The add calls the invariant tolerates: a new key, in the state a
      freshly constructed book or user has. */
  ghost predicate Admissible(lib: Library, op: Op) {
    match op
    case AddBookOp(Some(b)) => b.isbn !in lib.books && b.status == Available
    case AddUserOp(Some(u)) => u.userId !in lib.users && u.borrowedBooks == []
    case _ => true
  }

  ghost predicate AdmissibleRun(lib: Library, ops: seq<Op>)
    decreases |ops|
  {
    |ops| == 0 || (Admissible(lib, ops[0]) && AdmissibleRun(Apply(lib, ops[0]).0, ops[1..]))
  }

  lemma ApplyPreservesInv(lib: Library, op: Op)
    requires Inv(lib) && Admissible(lib, op)
    ensures Inv(Apply(lib, op).0)
  {
    match op
    case AddBookOp(b) => if b.Some? { AddBookPreservesValid(lib, b.value); }
    case UpdateBookOp(isbn, title, author) => UpdatesPreserveInv(lib, isbn, title, author);
    case RemoveBookOp(isbn) => RemoveBookPreservesInv(lib, isbn);
    case AddUserOp(u) => if u.Some? { AddUserPreservesValid(lib, u.value); }
    case UpdateUserOp(userId, name) => UpdatesPreserveInv(lib, userId, name, name);
    case RemoveUserOp(userId) => RemoveUserPreservesInv(lib, userId);
    case BorrowOp(isbn, userId, now) => BorrowPreservesInv(lib, isbn, userId, now);
    case ReturnOp(isbn, userId, now, order) => ReturnPreservesInv(lib, isbn, userId, now, order);
  }

  /** Starting from a consistent ledger, the invariant holds after every run
      whose adds use new keys. */
  lemma {:induction false} RunPreservesInv(lib: Library, ops: seq<Op>)
    requires Inv(lib) && AdmissibleRun(lib, ops)
    ensures Inv(Run(lib, ops).0)
    decreases |ops|
  {
    if |ops| > 0 {
      ApplyPreservesInv(lib, ops[0]);
      RunPreservesInv(Apply(lib, ops[0]).0, ops[1..]);
    }
  }
}
