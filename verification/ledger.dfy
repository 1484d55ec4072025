/** The state shared by the step 5 and step 6 `SimpleLibrary` ledgers: books,
    users and borrow transactions in three maps plus the transaction counter,
    the consistency invariant tying them together, and the state change a
    successful borrow or return makes. */
module Ledger {
  import opened Common
  import opened Books
  import opened Users
  import opened Transactions

  datatype Library = Library(
    books: map<string, Book>,
    users: map<string, User>,
    transactions: map<string, BorrowTransaction>,
    counter: int)

  /** The ledger right after construction: empty maps, counter 1. */
  function Empty(): (lib: Library)
    ensures Valid(lib) && lib.counter == 1
    ensures lib.books == map[] && lib.users == map[] && lib.transactions == map[]
  {
    Library(map[], map[], map[], 1)
  }

  /** `getBook`: the book stored under `isbn`, if any. */
  function GetBook(lib: Library, isbn: string): (r: Option<Book>)
    ensures r.Some? <==> isbn in lib.books
    ensures r.Some? ==> r.value == lib.books[isbn]
  {
    if isbn in lib.books then Some(lib.books[isbn]) else None
  }

  /** `getUser`: the user stored under `userId`, if any. */
  function GetUser(lib: Library, userId: string): (r: Option<User>)
    ensures r.Some? <==> userId in lib.users
    ensures r.Some? ==> r.value == lib.users[userId]
  {
    if userId in lib.users then Some(lib.users[userId]) else None
  }

  /** The condition `returnBook` looks for: same ISBN, same user, not returned. */
  predicate OpenMatch(t: BorrowTransaction, isbn: string, userId: string) {
    t.bookIsbn == isbn && t.userId == userId && !t.isReturned
  }

  /** Ids of the open transactions that reference `isbn`. */
  function OpenLoans(txs: map<string, BorrowTransaction>, isbn: string): set<string> {
    set id | id in txs && !txs[id].isReturned && txs[id].bookIsbn == isbn
  }

  /** ISBNs of the open transactions of user `userId`. */
  function HeldIsbns(txs: map<string, BorrowTransaction>, userId: string): set<string> {
    set id | id in txs && !txs[id].isReturned && txs[id].userId == userId :: txs[id].bookIsbn
  }

  /** Each open transaction contributes its ISBN to its user's held set. */
  lemma HeldIsbnsMember(txs: map<string, BorrowTransaction>, id: string)
    requires id in txs && !txs[id].isReturned
    ensures txs[id].bookIsbn in HeldIsbns(txs, txs[id].userId)
  {
  }

  /** Every entry is stored under its own key, and every transaction has a
      return date exactly when it is returned. */
  predicate KeysConsistent(lib: Library) {
    && (forall isbn :: isbn in lib.books ==> lib.books[isbn].isbn == isbn)
    && (forall uid :: uid in lib.users ==> lib.users[uid].userId == uid)
    && (forall id :: id in lib.transactions ==>
          lib.transactions[id].transactionId == id && Stamped(lib.transactions[id]))
  }

  /** A book is `BORROWED` exactly when one open transaction references it,
      and `AVAILABLE` exactly when none does. */
  predicate StatusMatchesLoans(lib: Library) {
    forall isbn :: isbn in lib.books ==>
      |OpenLoans(lib.transactions, isbn)| == if lib.books[isbn].status == Borrowed then 1 else 0
  }

  /** Open transactions name a book and a user that are present. */
  predicate LoansReferenceEntries(lib: Library) {
    forall id :: id in lib.transactions && !lib.transactions[id].isReturned ==>
      lib.transactions[id].bookIsbn in lib.books && lib.transactions[id].userId in lib.users
  }

  /** Each user's list holds no duplicates, at most three ISBNs, and exactly
      the ISBNs of that user's open transactions. */
  predicate ListsMatchLoans(lib: Library) {
    forall uid :: uid in lib.users ==>
      WellFormed(lib.users[uid]) && Elems(lib.users[uid].borrowedBooks) == HeldIsbns(lib.transactions, uid)
  }

  /** The ledger invariant every in-memory operation is meant to keep. */
  predicate Valid(lib: Library) {
    KeysConsistent(lib) && StatusMatchesLoans(lib) && LoansReferenceEntries(lib) && ListsMatchLoans(lib)
  }

  /** A HashMap iteration order: every key of the map, and nothing else. */
  ghost predicate Enumerates(order: seq<string>, txs: map<string, BorrowTransaction>) {
    forall id :: id in order <==> id in txs
  }

  /** The search loop of `returnBook`: the first transaction, in iteration
      order `order`, that is open for this book and this user. */
  function FirstOpenMatch(order: seq<string>, txs: map<string, BorrowTransaction>, isbn: string, userId: string)
    : (r: Option<string>)
    ensures r.Some? ==> r.value in order && r.value in txs && OpenMatch(txs[r.value], isbn, userId)
    ensures r.None? ==> forall id :: id in order && id in txs ==> !OpenMatch(txs[id], isbn, userId)
  {
    if |order| == 0 then None
    else if order[0] in txs && OpenMatch(txs[order[0]], isbn, userId) then Some(order[0])
    else FirstOpenMatch(order[1..], txs, isbn, userId)
  }

  /** The state change of a successful borrow: the book becomes borrowed, the
      user's `borrowBook` runs (its answer is ignored, as in the source), an
      open transaction `tid` is stored and the counter moves on by one. */
  function CommitBorrow(lib: Library, isbn: string, userId: string, tid: string, now: Date): Library
    requires isbn in lib.books && userId in lib.users
  {
    lib.(books := lib.books[isbn := SetStatus(lib.books[isbn], Borrowed)],
         users := lib.users[userId := Users.BorrowBook(lib.users[userId], isbn).1],
         transactions := lib.transactions[tid := NewTransaction(tid, isbn, userId, now)],
         counter := lib.counter + 1)
  }

  /** The state change of a successful return of transaction `tid`: the book
      becomes available, the user's `returnBook` runs, the transaction is
      marked returned and stays in the map. */
  function CommitReturn(lib: Library, isbn: string, userId: string, tid: string, now: Date): Library
    requires isbn in lib.books && userId in lib.users && tid in lib.transactions
  {
    lib.(books := lib.books[isbn := SetStatus(lib.books[isbn], Available)],
         users := lib.users[userId := Users.ReturnBook(lib.users[userId], isbn).1],
         transactions := lib.transactions[tid := MarkAsReturned(lib.transactions[tid], now)])
  }

  lemma OpenLoansAfterPut(txs: map<string, BorrowTransaction>, tid: string, t: BorrowTransaction, isbn: string)
    requires tid !in txs
    ensures OpenLoans(txs[tid := t], isbn)
         == OpenLoans(txs, isbn) + (if !t.isReturned && t.bookIsbn == isbn then {tid} else {})
  {
  }

  lemma HeldIsbnsAfterPut(txs: map<string, BorrowTransaction>, tid: string, t: BorrowTransaction, userId: string)
    requires tid !in txs
    ensures HeldIsbns(txs[tid := t], userId)
         == HeldIsbns(txs, userId) + (if !t.isReturned && t.userId == userId then {t.bookIsbn} else {})
  {
    var txs' := txs[tid := t];
    forall x | x in HeldIsbns(txs', userId)
      ensures x in HeldIsbns(txs, userId) + (if !t.isReturned && t.userId == userId then {t.bookIsbn} else {})
    {
      var id :| id in txs' && !txs'[id].isReturned && txs'[id].userId == userId && txs'[id].bookIsbn == x;
      if id != tid {
        assert txs[id] == txs'[id];
      }
    }
    forall x | x in HeldIsbns(txs, userId) ensures x in HeldIsbns(txs', userId) {
      var id :| id in txs && !txs[id].isReturned && txs[id].userId == userId && txs[id].bookIsbn == x;
      assert txs'[id] == txs[id];
    }
    if !t.isReturned && t.userId == userId {
      assert txs'[tid] == t;
    }
  }

  lemma OpenLoansAfterClose(txs: map<string, BorrowTransaction>, tid: string, t: BorrowTransaction, isbn: string)
    requires tid in txs && t.isReturned
    ensures OpenLoans(txs[tid := t], isbn) == OpenLoans(txs, isbn) - {tid}
  {
  }

  /** Closing the only open loan of its book removes exactly that ISBN from
      its user's held set and nobody else's. */
  lemma HeldIsbnsAfterClose(txs: map<string, BorrowTransaction>, tid: string, t: BorrowTransaction, userId: string)
    requires tid in txs && t.isReturned && !txs[tid].isReturned
    requires OpenLoans(txs, txs[tid].bookIsbn) == {tid}
    ensures HeldIsbns(txs[tid := t], userId)
         == if txs[tid].userId == userId then HeldIsbns(txs, userId) - {txs[tid].bookIsbn}
            else HeldIsbns(txs, userId)
  {
    var txs' := txs[tid := t];
    var isbn := txs[tid].bookIsbn;
    forall x | x in HeldIsbns(txs', userId) ensures x in HeldIsbns(txs, userId) && (txs[tid].userId == userId ==> x != isbn) {
      var id :| id in txs' && !txs'[id].isReturned && txs'[id].userId == userId && txs'[id].bookIsbn == x;
      assert id != tid && txs[id] == txs'[id];
      assert id !in OpenLoans(txs, isbn);
    }
    forall x | x in HeldIsbns(txs, userId) && (txs[tid].userId == userId ==> x != isbn)
      ensures x in HeldIsbns(txs', userId)
    {
      var id :| id in txs && !txs[id].isReturned && txs[id].userId == userId && txs[id].bookIsbn == x;
      assert id != tid;
      assert txs'[id] == txs[id];
    }
  }

  /** A set of size one holding `x` is `{x}`. */
  lemma SingletonOf<T>(s: set<T>, x: T)
    requires |s| == 1 && x in s
    ensures s == {x}
  {
    assert |s - {x}| == 0;
  }

  /** Under the invariant at most one open transaction references a book. */
  lemma AtMostOneOpenLoan(lib: Library, a: string, b: string)
    requires Valid(lib)
    requires a in lib.transactions && !lib.transactions[a].isReturned
    requires b in lib.transactions && !lib.transactions[b].isReturned
    requires lib.transactions[a].bookIsbn == lib.transactions[b].bookIsbn
    ensures a == b
  {
    var isbn := lib.transactions[a].bookIsbn;
    assert a in OpenLoans(lib.transactions, isbn);
    SingletonOf(OpenLoans(lib.transactions, isbn), a);
    assert b in OpenLoans(lib.transactions, isbn);
  }

  /** Under the invariant the transaction `returnBook` picks does not depend
      on the HashMap iteration order. */
  lemma FirstOpenMatchOrderIrrelevant(lib: Library, o1: seq<string>, o2: seq<string>, isbn: string, userId: string)
    requires Valid(lib)
    requires Enumerates(o1, lib.transactions) && Enumerates(o2, lib.transactions)
    ensures FirstOpenMatch(o1, lib.transactions, isbn, userId) == FirstOpenMatch(o2, lib.transactions, isbn, userId)
  {
    var r1 := FirstOpenMatch(o1, lib.transactions, isbn, userId);
    var r2 := FirstOpenMatch(o2, lib.transactions, isbn, userId);
    if r1.Some? && r2.Some? {
      AtMostOneOpenLoan(lib, r1.value, r2.value);
    }
  }

  /** On a valid ledger an available book has no open loan, and no user
      holds it. */
  lemma AvailableBookIsFree(lib: Library, isbn: string, userId: string)
    requires Valid(lib)
    requires isbn in lib.books && userId in lib.users && lib.books[isbn].status == Available
    ensures OpenLoans(lib.transactions, isbn) == {}
    ensures isbn !in HeldIsbns(lib.transactions, userId)
    ensures isbn !in lib.users[userId].borrowedBooks
  {
    var txs := lib.transactions;
    assert |OpenLoans(txs, isbn)| == 0;
    forall id | id in txs && !txs[id].isReturned && txs[id].userId == userId
      ensures txs[id].bookIsbn != isbn
    {
      assert id !in OpenLoans(txs, isbn);
    }
    assert isbn !in Elems(lib.users[userId].borrowedBooks);
  }

  /** The borrow keeps the status of every book in step with its open loans. */
  lemma CommitBorrowStatus(lib: Library, isbn: string, userId: string, tid: string, now: Date)
    requires StatusMatchesLoans(lib)
    requires isbn in lib.books && userId in lib.users && tid !in lib.transactions
    requires OpenLoans(lib.transactions, isbn) == {}
    ensures StatusMatchesLoans(CommitBorrow(lib, isbn, userId, tid, now))
  {
    var lib' := CommitBorrow(lib, isbn, userId, tid, now);
    forall k | k in lib'.books
      ensures |OpenLoans(lib'.transactions, k)| == if lib'.books[k].status == Borrowed then 1 else 0
    {
      OpenLoansAfterPut(lib.transactions, tid, NewTransaction(tid, isbn, userId, now), k);
    }
  }

  /** The borrow keeps every user's list equal to that user's held ISBNs. */
  lemma CommitBorrowLists(lib: Library, isbn: string, userId: string, tid: string, now: Date)
    requires ListsMatchLoans(lib)
    requires isbn in lib.books && userId in lib.users && tid !in lib.transactions
    requires isbn !in lib.users[userId].borrowedBooks && CanBorrowMoreBooks(lib.users[userId])
    ensures ListsMatchLoans(CommitBorrow(lib, isbn, userId, tid, now))
  {
    var lib' := CommitBorrow(lib, isbn, userId, tid, now);
    AppendFreshNoDup(lib.users[userId].borrowedBooks, isbn);
    forall uid | uid in lib'.users
      ensures WellFormed(lib'.users[uid]) && Elems(lib'.users[uid].borrowedBooks) == HeldIsbns(lib'.transactions, uid)
    {
      HeldIsbnsAfterPut(lib.transactions, tid, NewTransaction(tid, isbn, userId, now), uid);
    }
  }

  /** A successful borrow on a valid ledger appends the ISBN to the user's
      list and keeps the invariant, provided `tid` is a new key. */
  lemma CommitBorrowPreservesValid(lib: Library, isbn: string, userId: string, tid: string, now: Date)
    requires Valid(lib)
    requires isbn in lib.books && userId in lib.users && tid !in lib.transactions
    requires lib.books[isbn].status == Available && CanBorrowMoreBooks(lib.users[userId])
    ensures Users.BorrowBook(lib.users[userId], isbn).0
    ensures CommitBorrow(lib, isbn, userId, tid, now).users[userId].borrowedBooks
         == lib.users[userId].borrowedBooks + [isbn]
    ensures Valid(CommitBorrow(lib, isbn, userId, tid, now))
  {
    AvailableBookIsFree(lib, isbn, userId);
    CommitBorrowStatus(lib, isbn, userId, tid, now);
    CommitBorrowLists(lib, isbn, userId, tid, now);
  }

  /** Returning the open transaction `tid` of this book and user on a valid
      ledger keeps the invariant and takes the ISBN off the user's list. */
  lemma CommitReturnPreservesValid(lib: Library, isbn: string, userId: string, tid: string, now: Date)
    requires Valid(lib)
    requires isbn in lib.books && userId in lib.users
    requires tid in lib.transactions && OpenMatch(lib.transactions[tid], isbn, userId)
    ensures lib.books[isbn].status == Borrowed && HasBorrowedBook(lib.users[userId], isbn)
    ensures !HasBorrowedBook(CommitReturn(lib, isbn, userId, tid, now).users[userId], isbn)
    ensures Valid(CommitReturn(lib, isbn, userId, tid, now))
  {
    var txs := lib.transactions;
    var t := MarkAsReturned(txs[tid], now);
    var lib' := CommitReturn(lib, isbn, userId, tid, now);
    var u := lib.users[userId];
    assert tid in OpenLoans(txs, isbn);
    SingletonOf(OpenLoans(txs, isbn), tid);
    assert isbn in HeldIsbns(txs, userId);
    assert isbn in Elems(u.borrowedBooks);
    ReturnPreservesWellFormed(u, isbn);
    RemoveFirstNoDup(u.borrowedBooks, isbn);
    forall k | k in lib'.books
      ensures |OpenLoans(lib'.transactions, k)| == if lib'.books[k].status == Borrowed then 1 else 0
    {
      OpenLoansAfterClose(txs, tid, t, k);
    }
    forall uid | uid in lib'.users
      ensures WellFormed(lib'.users[uid]) && Elems(lib'.users[uid].borrowedBooks) == HeldIsbns(lib'.transactions, uid)
    {
      HeldIsbnsAfterClose(txs, tid, t, uid);
    }
  }
}
