/** The step 6 `SimpleLibrary` running without a database: unguarded adds,
    and borrow/return answering true or false. Transaction ids are `"T"`
    followed by the counter's plain decimal text. */
module LibraryV6 {
  import opened Common
  import opened TransactionIds
  import opened Books
  import opened Users
  import opened Transactions
  import opened Ledger
  import LibraryV5

  /** `addBook`: stores the book under its ISBN, replacing whatever was there;
      the same state change as a step 5 `addBook` given a book. */
  function AddBook(lib: Library, book: Book): (r: Library)
    ensures r.books.Keys == lib.books.Keys + {book.isbn} && r.books[book.isbn] == book
    ensures forall k :: k in lib.books && k != book.isbn ==> r.books[k] == lib.books[k]
    ensures r.users == lib.users && r.transactions == lib.transactions && r.counter == lib.counter
    ensures r == LibraryV5.AddBook(lib, Some(book)).1
  {
    lib.(books := lib.books[book.isbn := book])
  }

  /** `addUser`: stores the user under its id, replacing whatever was there;
      the same state change as a step 5 `addUser` given a user. */
  function AddUser(lib: Library, user: User): (r: Library)
    ensures r.users.Keys == lib.users.Keys + {user.userId} && r.users[user.userId] == user
    ensures forall k :: k in lib.users && k != user.userId ==> r.users[k] == lib.users[k]
    ensures r.books == lib.books && r.transactions == lib.transactions && r.counter == lib.counter
    ensures r == LibraryV5.AddUser(lib, Some(user)).1
  {
    lib.(users := lib.users[user.userId := user])
  }

  /** `borrowBook`: false, with the ledger untouched, when the book or user is
      missing, the book is not available or the user is at the limit;
      otherwise true, with id `"T"` + counter and the counter moved on. */
  function BorrowBook(lib: Library, isbn: string, userId: string, now: Date): (r: (bool, Library))
    ensures r.0 <==> (isbn in lib.books && userId in lib.users
                      && IsAvailable(lib.books[isbn]) && CanBorrowMoreBooks(lib.users[userId]))
    ensures !r.0 ==> r.1 == lib
    ensures r.0 ==> r.1.counter == lib.counter + 1 && PlainId(lib.counter) in r.1.transactions
    ensures r.0 ==> r.1 == CommitBorrow(lib, isbn, userId, PlainId(lib.counter), now)
  {
    if isbn !in lib.books || userId !in lib.users || !IsAvailable(lib.books[isbn])
       || !CanBorrowMoreBooks(lib.users[userId])
    then
      (false, lib)
    else
      var tid := PlainId(lib.counter);
      (true, CommitBorrow(lib, isbn, userId, tid, now))
  }

  /** `returnBook`: false, with the ledger untouched, when the book or user is
      missing, the book is available, the user does not hold it, or no open
      transaction of this book and user turns up in iteration order `order`. */
  function ReturnBook(lib: Library, isbn: string, userId: string, now: Date, order: seq<string>)
    : (r: (bool, Library))
    ensures !r.0 ==> r.1 == lib
    ensures (isbn !in lib.books || userId !in lib.users) ==> !r.0
    ensures (isbn in lib.books && userId in lib.users
             && (IsAvailable(lib.books[isbn]) || !HasBorrowedBook(lib.users[userId], isbn))) ==> !r.0
    ensures Enumerates(order, lib.transactions) ==>
        (r.0 <==> (isbn in lib.books && userId in lib.users && !IsAvailable(lib.books[isbn])
                   && HasBorrowedBook(lib.users[userId], isbn)
                   && exists id :: id in lib.transactions && OpenMatch(lib.transactions[id], isbn, userId)))
    ensures r.0 ==>
        (isbn in lib.books && userId in lib.users
         && exists tid :: (tid in lib.transactions && OpenMatch(lib.transactions[tid], isbn, userId)
                           && r.1 == CommitReturn(lib, isbn, userId, tid, now)))
  {
    if isbn !in lib.books || userId !in lib.users || IsAvailable(lib.books[isbn])
       || !HasBorrowedBook(lib.users[userId], isbn)
    then
      (false, lib)
    else
      match FirstOpenMatch(order, lib.transactions, isbn, userId)
      case None => (false, lib)
      case Some(tid) => (true, CommitReturn(lib, isbn, userId, tid, now))
  }

  /** Ids the counter can still produce before it leaves the 32-bit range are
      not yet used as keys. */
  ghost predicate IdsFresh(lib: Library) {
    forall n :: lib.counter <= n <= Int32Max ==> PlainId(n) !in lib.transactions
  }

  /** The step 6 ledger invariant. */
  ghost predicate Inv(lib: Library) {
    Valid(lib) && IdsFresh(lib)
  }

  lemma EmptyInv()
    ensures Inv(Empty())
  {
  }

  /** What a successful borrow does on a consistent ledger whose counter is
      still in range: a new open transaction under an unused id, the book
      borrowed, the ISBN appended to the user's list, nothing else. */
  lemma BorrowEffects(lib: Library, isbn: string, userId: string, now: Date)
    requires Inv(lib) && lib.counter <= Int32Max
    requires BorrowBook(lib, isbn, userId, now).0
    ensures var lib' := BorrowBook(lib, isbn, userId, now).1;
      var tid := PlainId(lib.counter);
      && tid !in lib.transactions
      && lib'.transactions == lib.transactions[tid := NewTransaction(tid, isbn, userId, now)]
      && lib'.books == lib.books[isbn := lib.books[isbn].(status := Borrowed)]
      && lib'.users == lib.users[userId := lib.users[userId].(borrowedBooks := lib.users[userId].borrowedBooks + [isbn])]
      && lib'.counter == lib.counter + 1
  {
    CommitBorrowPreservesValid(lib, isbn, userId, PlainId(lib.counter), now);
  }

  /** A borrow keeps the step 6 invariant while the counter is in range. */
  lemma BorrowPreservesInv(lib: Library, isbn: string, userId: string, now: Date)
    requires Inv(lib) && lib.counter <= Int32Max
    ensures Inv(BorrowBook(lib, isbn, userId, now).1)
  {
    var (ok, lib') := BorrowBook(lib, isbn, userId, now);
    if ok {
      CommitBorrowPreservesValid(lib, isbn, userId, PlainId(lib.counter), now);
      forall n | lib'.counter <= n <= Int32Max ensures PlainId(n) !in lib'.transactions {
        PlainIdInjective(n, lib.counter);
      }
    }
  }

  /** What a successful return does on a consistent ledger: the book becomes
      available, the ISBN leaves the user's list, exactly the one open
      transaction of this book is marked returned and kept, and nothing else
      changes. */
  lemma ReturnEffects(lib: Library, isbn: string, userId: string, now: Date, order: seq<string>)
    requires Inv(lib)
    requires ReturnBook(lib, isbn, userId, now, order).0
    ensures var lib' := ReturnBook(lib, isbn, userId, now, order).1;
      && lib'.books == lib.books[isbn := lib.books[isbn].(status := Available)]
      && lib'.users == lib.users[userId := lib.users[userId].(borrowedBooks := RemoveFirst(lib.users[userId].borrowedBooks, isbn))]
      && !HasBorrowedBook(lib'.users[userId], isbn)
      && lib'.transactions.Keys == lib.transactions.Keys
      && lib'.counter == lib.counter
      && exists tid :: tid in lib.transactions && OpenMatch(lib.transactions[tid], isbn, userId)
           && (forall id :: id in lib.transactions && OpenMatch(lib.transactions[id], isbn, userId) ==> id == tid)
           && lib'.transactions == lib.transactions[tid := MarkAsReturned(lib.transactions[tid], now)]
  {
    var lib' := ReturnBook(lib, isbn, userId, now, order).1;
    var tid :| tid in lib.transactions && OpenMatch(lib.transactions[tid], isbn, userId)
           && lib' == CommitReturn(lib, isbn, userId, tid, now);
    CommitReturnPreservesValid(lib, isbn, userId, tid, now);
    forall id | id in lib.transactions && OpenMatch(lib.transactions[id], isbn, userId) ensures id == tid {
      AtMostOneOpenLoan(lib, id, tid);
    }
  }

  /** A return keeps the step 6 invariant. */
  lemma ReturnPreservesInv(lib: Library, isbn: string, userId: string, now: Date, order: seq<string>)
    requires Inv(lib)
    ensures Inv(ReturnBook(lib, isbn, userId, now, order).1)
  {
    var (ok, lib') := ReturnBook(lib, isbn, userId, now, order);
    if ok {
      var tid :| tid in lib.transactions && OpenMatch(lib.transactions[tid], isbn, userId)
             && lib' == CommitReturn(lib, isbn, userId, tid, now);
      CommitReturnPreservesValid(lib, isbn, userId, tid, now);
    }
  }

  /** Step 6 books expose `isbn`, `title` and `author` as final fields: borrow
      and return change a stored book's status and nothing else. */
  lemma OnlyStatusChanges(lib: Library, isbn: string, userId: string, now: Date, order: seq<string>)
    ensures var lib' := BorrowBook(lib, isbn, userId, now).1;
      lib'.books.Keys == lib.books.Keys
      && forall k :: k in lib.books ==> lib'.books[k] == lib.books[k].(status := lib'.books[k].status)
    ensures var lib' := ReturnBook(lib, isbn, userId, now, order).1;
      lib'.books.Keys == lib.books.Keys
      && forall k :: k in lib.books ==> lib'.books[k] == lib.books[k].(status := lib'.books[k].status)
  {
  }

  /** Adding a book under a new ISBN, in its initial available state, keeps
      the invariant; adding over a borrowed ISBN breaks it. */
  lemma AddBookInv(lib: Library, book: Book)
    requires Inv(lib) && book.status == Available
    ensures book.isbn !in lib.books ==> Inv(AddBook(lib, book))
    ensures book.isbn in lib.books && lib.books[book.isbn].status == Borrowed ==> !Valid(AddBook(lib, book))
  {
    if book.isbn !in lib.books {
      LibraryV5.AddBookPreservesValid(lib, book);
    } else if lib.books[book.isbn].status == Borrowed {
      LibraryV5.AddBookOverwriteBreaksInv(lib, book);
    }
  }

  /** Adding a user under a new id with nothing borrowed keeps the invariant;
      adding over a user who holds books breaks it. */
  lemma AddUserInv(lib: Library, user: User)
    requires Inv(lib) && user.borrowedBooks == []
    ensures user.userId !in lib.users ==> Inv(AddUser(lib, user))
    ensures user.userId in lib.users && |lib.users[user.userId].borrowedBooks| > 0 ==> !Valid(AddUser(lib, user))
  {
    if user.userId !in lib.users {
      LibraryV5.AddUserPreservesValid(lib, user);
    } else if |lib.users[user.userId].borrowedBooks| > 0 {
      LibraryV5.AddUserOverwriteBreaksInv(lib, user);
    }
  }

  /** One call a client can make on the step 6 ledger. */
  datatype Op =
    | AddBookOp(book: Book)
    | AddUserOp(user: User)
    | BorrowOp(isbn: string, userId: string, now: Date)
    | ReturnOp(isbn: string, userId: string, now: Date, order: seq<string>)

  /** Performs one call; also yields the id of the transaction it opened, if any. */
  function Apply(lib: Library, op: Op): (r: (Library, Option<string>))
    ensures r.1.Some? ==> op.BorrowOp? && r.1.value == PlainId(lib.counter)
    ensures r.0.counter == lib.counter + (if r.1.Some? then 1 else 0)
  {
    match op
    case AddBookOp(b) => (AddBook(lib, b), None)
    case AddUserOp(u) => (AddUser(lib, u), None)
    case BorrowOp(isbn, userId, now) =>
      var (ok, lib') := BorrowBook(lib, isbn, userId, now);
      (lib', if ok then Some(PlainId(lib.counter)) else None)
    case ReturnOp(isbn, userId, now, order) => (ReturnBook(lib, isbn, userId, now, order).1, None)
  }

  /** Performs the calls in order; yields the final ledger and the ids of the
      transactions opened along the way, one per counter step. */
  function Run(lib: Library, ops: seq<Op>): (r: (Library, seq<string>))
    ensures r.0.counter == lib.counter + |r.1|
    ensures |r.1| <= |ops|
    decreases |ops|
  {
    if |ops| == 0 then (lib, [])
    else
      var (lib1, issued) := Apply(lib, ops[0]);
      var (lib2, ids) := Run(lib1, ops[1..]);
      (lib2, (if issued.Some? then [issued.value] else []) + ids)
  }

  /** While the counter is in range, every call keeps the ids still to come
      unused, never drops a transaction, never touches a returned one, and an
      id it issues was not in use before. */
  lemma ApplyKeepsHistory(lib: Library, op: Op)
    requires IdsFresh(lib) && lib.counter <= Int32Max
    ensures var (lib', issued) := Apply(lib, op);
      && IdsFresh(lib')
      && lib.transactions.Keys <= lib'.transactions.Keys
      && (forall id :: id in lib.transactions && lib.transactions[id].isReturned
            ==> lib'.transactions[id] == lib.transactions[id])
      && (issued.Some? ==> issued.value !in lib.transactions && issued.value in lib'.transactions)
  {
    var (lib', issued) := Apply(lib, op);
    match op
    case BorrowOp(isbn, userId, now) =>
      if issued.Some? {
        forall n | lib'.counter <= n <= Int32Max ensures PlainId(n) !in lib'.transactions {
          PlainIdInjective(n, lib.counter);
        }
      }
    case _ =>
  }

  /** The ids a run issues are those of the consecutive counter values from
      the starting one, in order. */
  lemma {:induction false} RunIssuesConsecutiveIds(lib: Library, ops: seq<Op>)
    ensures forall i :: 0 <= i < |Run(lib, ops).1| ==> Run(lib, ops).1[i] == PlainId(lib.counter + i)
    decreases |ops|
  {
    if |ops| > 0 {
      var (lib1, issued) := Apply(lib, ops[0]);
      RunIssuesConsecutiveIds(lib1, ops[1..]);
      var ids := Run(lib1, ops[1..]).1;
      var all := (if issued.Some? then [issued.value] else []) + ids;
      assert Run(lib, ops).1 == all;
      forall i | 0 <= i < |all| ensures all[i] == PlainId(lib.counter + i) {
        if issued.Some? && i > 0 {
          assert lib1.counter == lib.counter + 1;
          assert all[i] == ids[i - 1] == PlainId(lib1.counter + (i - 1));
        } else if issued.None? {
          assert lib1.counter == lib.counter;
          assert all[i] == ids[i] == PlainId(lib1.counter + i);
        }
      }
    }
  }

  /** Transaction ids issued during a run that stays within the 32-bit counter
      range are pairwise distinct, were never in use before the run, and are
      all still present at its end. */
  lemma {:induction false} RunIssuesDistinctIds(lib: Library, ops: seq<Op>)
    requires IdsFresh(lib) && lib.counter + |ops| <= Int32Max + 1
    ensures IdsFresh(Run(lib, ops).0)
    ensures lib.transactions.Keys <= Run(lib, ops).0.transactions.Keys
    ensures NoDup(Run(lib, ops).1)
    ensures forall id :: id in Run(lib, ops).1 ==> id !in lib.transactions && id in Run(lib, ops).0.transactions
    decreases |ops|
  {
    if |ops| > 0 {
      var (lib1, issued) := Apply(lib, ops[0]);
      ApplyKeepsHistory(lib, ops[0]);
      RunIssuesDistinctIds(lib1, ops[1..]);
      var (lib2, ids) := Run(lib1, ops[1..]);
      assert Run(lib, ops) == (lib2, (if issued.Some? then [issued.value] else []) + ids);
      if issued.Some? {
        assert issued.value !in ids;
        PrependFreshNoDup(issued.value, ids);
      } else {
        assert [] + ids == ids;
      }
    }
  }
}
