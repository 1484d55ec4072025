/** Reloading the step 6 ledger from its three tables. The tables are given
    as sequences of rows in the order the database returns them; the whole
    reload is a pure function from those rows (and the instant `now` that
    stamps every rebuilt transaction) to a fresh ledger. */
module Reload {
  import opened Common
  import opened TransactionIds
  import opened Books
  import opened Users
  import opened Transactions
  import opened Ledger
  import LibraryV6

  /** A row of `books`; `status` is the stored text already read as a status. */
  datatype BookRow = BookRow(isbn: string, title: string, author: string, status: BookStatus)

  /** A row of `users`. */
  datatype UserRow = UserRow(userId: string, name: string)

  /** A row of `transactions`; `isReturned` is the stored integer column. */
  datatype TransactionRow = TransactionRow(transactionId: string, bookIsbn: string, userId: string, isReturned: int)

  /** Storing every row in a map under its key, in row order, so that a later
      row with the same key replaces an earlier one. */
  function LoadKeyed<R, V>(rows: seq<R>, key: R -> string, make: R -> V): (m: map<string, V>)
    ensures m.Keys == set i | 0 <= i < |rows| :: key(rows[i])
    ensures forall k :: k in m ==> exists i :: 0 <= i < |rows| && key(rows[i]) == k && m[k] == make(rows[i])
    decreases |rows|
  {
    if |rows| == 0 then
      map[]
    else
      var init := rows[..|rows| - 1];
      var last := rows[|rows| - 1];
      var m := LoadKeyed(init, key, make);
      assert forall i :: 0 <= i < |init| ==> init[i] == rows[i];
      m[key(last) := make(last)]
  }

  /** The row stored under a key is the last row carrying that key. */
  lemma {:induction false} LoadKeyedLastWins<R, V>(rows: seq<R>, key: R -> string, make: R -> V)
    ensures var m := LoadKeyed(rows, key, make);
      forall i :: 0 <= i < |rows| && (forall j :: i < j < |rows| ==> key(rows[j]) != key(rows[i]))
                  ==> key(rows[i]) in m && m[key(rows[i])] == make(rows[i])
    decreases |rows|
  {
    if |rows| > 0 {
      var init := rows[..|rows| - 1];
      LoadKeyedLastWins(init, key, make);
      var m := LoadKeyed(rows, key, make);
      forall i | 0 <= i < |rows| && (forall j :: i < j < |rows| ==> key(rows[j]) != key(rows[i]))
        ensures key(rows[i]) in m && m[key(rows[i])] == make(rows[i])
      {
        if i < |init| {
          assert key(rows[|rows| - 1]) != key(rows[i]);
          assert forall j :: i < j < |init| ==> key(init[j]) != key(init[i]);
        }
      }
    }
  }

  /** One stored book: title and author as stored, status as stored. */
  function BookOfRow(row: BookRow): (b: Book)
    ensures b.isbn == row.isbn && b.title == row.title && b.author == row.author
    ensures b.status == row.status
  {
    SetStatus(NewBook(row.isbn, row.title, row.author), row.status)
  }

  /** One stored user, with an empty borrowed list. */
  function UserOfRow(row: UserRow): (u: User)
    ensures u.userId == row.userId && u.name == row.name && u.borrowedBooks == []
  {
    NewUser(row.userId, row.name)
  }

  /** One stored transaction, rebuilt with borrow date `now`; a stored
      `is_returned` of 1, and only 1, marks it returned at `now` as well. */
  function TransactionOfRow(row: TransactionRow, now: Date): (t: BorrowTransaction)
    ensures t.transactionId == row.transactionId && t.bookIsbn == row.bookIsbn && t.userId == row.userId
    ensures t.borrowDate == now && Stamped(t)
    ensures t.isReturned <==> row.isReturned == 1
  {
    var t := NewTransaction(row.transactionId, row.bookIsbn, row.userId, now);
    if row.isReturned == 1 then MarkAsReturned(t, now) else t
  }

  function LoadBooks(rows: seq<BookRow>): (m: map<string, Book>)
    ensures m.Keys == set i | 0 <= i < |rows| :: rows[i].isbn
    ensures forall i :: 0 <= i < |rows| && (forall j :: i < j < |rows| ==> rows[j].isbn != rows[i].isbn)
                        ==> rows[i].isbn in m && m[rows[i].isbn] == BookOfRow(rows[i])
  {
    LoadKeyedLastWins(rows, (r: BookRow) => r.isbn, BookOfRow);
    LoadKeyed(rows, (r: BookRow) => r.isbn, BookOfRow)
  }

  function LoadUsers(rows: seq<UserRow>): (m: map<string, User>)
    ensures m.Keys == set i | 0 <= i < |rows| :: rows[i].userId
    ensures forall k :: k in m ==> m[k].userId == k && m[k].borrowedBooks == []
    ensures forall i :: 0 <= i < |rows| && (forall j :: i < j < |rows| ==> rows[j].userId != rows[i].userId)
                        ==> rows[i].userId in m && m[rows[i].userId] == UserOfRow(rows[i])
  {
    LoadKeyedLastWins(rows, (r: UserRow) => r.userId, UserOfRow);
    LoadKeyed(rows, (r: UserRow) => r.userId, UserOfRow)
  }

  function LoadTransactions(rows: seq<TransactionRow>, now: Date): (m: map<string, BorrowTransaction>)
    ensures m.Keys == set i | 0 <= i < |rows| :: rows[i].transactionId
    ensures forall i :: 0 <= i < |rows| && (forall j :: i < j < |rows| ==> rows[j].transactionId != rows[i].transactionId)
                        ==> rows[i].transactionId in m && m[rows[i].transactionId] == TransactionOfRow(rows[i], now)
  {
    var key := (r: TransactionRow) => r.transactionId;
    var make := (r: TransactionRow) => TransactionOfRow(r, now);
    LoadKeyedLastWins(rows, key, make);
    LoadKeyed(rows, key, make)
  }

  /** The reference for rebuilding a borrowed list: the ISBNs of the rows with
      `is_returned` 0 that name the user, in row order. */
  function OpenIsbnsOf(rows: seq<TransactionRow>, userId: string): (s: seq<string>)
    ensures forall x :: x in s <==> exists i :: 0 <= i < |rows| && rows[i].isReturned == 0
                                             && rows[i].userId == userId && rows[i].bookIsbn == x
    decreases |rows|
  {
    if |rows| == 0 then
      []
    else
      var init := rows[..|rows| - 1];
      var last := rows[|rows| - 1];
      assert forall i :: 0 <= i < |init| ==> init[i] == rows[i];
      OpenIsbnsOf(init, userId) + (if last.isReturned == 0 && last.userId == userId then [last.bookIsbn] else [])
  }

  /** Rebuilding the borrowed lists: each open row appends its ISBN to the
      list of the user it names, when that user is loaded; rows naming an
      unknown user are skipped. No limit or duplicate check applies. */
  function AttachOpenLoans(users: map<string, User>, rows: seq<TransactionRow>): (r: map<string, User>)
    ensures r.Keys == users.Keys
    ensures forall k :: k in users ==>
      r[k] == users[k].(borrowedBooks := users[k].borrowedBooks + OpenIsbnsOf(rows, k))
    decreases |rows|
  {
    if |rows| == 0 then
      users
    else
      var init := rows[..|rows| - 1];
      var row := rows[|rows| - 1];
      var prev := AttachOpenLoans(users, init);
      if row.isReturned == 0 && row.userId in prev then
        prev[row.userId := prev[row.userId].(borrowedBooks := prev[row.userId].borrowedBooks + [row.bookIsbn])]
      else
        prev
  }

  /** Identifiers the counter scan looks at: those starting with `T`. */
  predicate IsTId(id: string) {
    |id| >= 1 && id[0] == 'T'
  }

  /** The number after the `T`; text `Integer.parseInt` rejects counts as 0. */
  function SuffixValue(id: string): (v: int)
    requires IsTId(id)
    ensures Int32Min <= v <= Int32Max
    ensures ParseInt(id[1..]).Some? ==> v == ParseInt(id[1..]).value
    ensures ParseInt(id[1..]).None? ==> v == 0
  {
    match ParseInt(id[1..])
    case Some(v) => v
    case None => 0
  }

  /** The largest suffix among the `T` identifiers of the rows, if any. */
  function MaxSuffix(rows: seq<TransactionRow>): (r: Option<int>)
    ensures r.None? <==> forall i :: 0 <= i < |rows| ==> !IsTId(rows[i].transactionId)
    ensures r.Some? ==> forall i :: 0 <= i < |rows| && IsTId(rows[i].transactionId)
                                    ==> SuffixValue(rows[i].transactionId) <= r.value
    ensures r.Some? ==> exists i :: 0 <= i < |rows| && IsTId(rows[i].transactionId)
                                    && SuffixValue(rows[i].transactionId) == r.value
    decreases |rows|
  {
    if |rows| == 0 then
      None
    else
      var init := rows[..|rows| - 1];
      var id := rows[|rows| - 1].transactionId;
      assert forall i :: 0 <= i < |init| ==> init[i] == rows[i];
      var prev := MaxSuffix(init);
      if !IsTId(id) then
        prev
      else if prev.None? || prev.value < SuffixValue(id) then
        Some(SuffixValue(id))
      else
        prev
  }

  /** Java `int` addition: the exact sum brought back into the 32-bit range. */
  function AddInt32(a: int, b: int): (r: int)
    requires Int32Min <= a <= Int32Max && Int32Min <= b <= Int32Max
    ensures Int32Min <= r <= Int32Max
    ensures Int32Min <= a + b <= Int32Max ==> r == a + b
    ensures a + b > Int32Max ==> r == a + b - 0x1_0000_0000
    ensures a + b < Int32Min ==> r == a + b + 0x1_0000_0000
  {
    if a + b > Int32Max then a + b - 0x1_0000_0000
    else if a + b < Int32Min then a + b + 0x1_0000_0000
    else a + b
  }

  /** The counter after a reload: one past the largest suffix (0 when there is
      none), computed in 32-bit arithmetic. */
  function NextCounter(rows: seq<TransactionRow>): (c: int)
    ensures Int32Min <= c <= Int32Max
    ensures MaxSuffix(rows).None? ==> c == 1
    ensures MaxSuffix(rows).Some? && MaxSuffix(rows).value < Int32Max ==> c == MaxSuffix(rows).value + 1
    ensures MaxSuffix(rows) == Some(Int32Max) ==> c == Int32Min
  {
    var maxCounter := match MaxSuffix(rows) case Some(v) => v case None => 0;
    AddInt32(maxCounter, 1)
  }

  /** `loadDataFromDatabase` run by the constructor on an empty ledger. */
  function Reload(bookRows: seq<BookRow>, userRows: seq<UserRow>, txRows: seq<TransactionRow>, now: Date)
    : (lib: Library)
    ensures lib.books == LoadBooks(bookRows)
    ensures lib.users.Keys == set i | 0 <= i < |userRows| :: userRows[i].userId
    ensures forall k :: k in lib.users ==>
      lib.users[k].userId == k && lib.users[k].borrowedBooks == OpenIsbnsOf(txRows, k)
    ensures forall k :: k in lib.users ==> lib.users[k].name == LoadUsers(userRows)[k].name
    ensures lib.transactions == LoadTransactions(txRows, now)
    ensures lib.counter == NextCounter(txRows)
  {
    Library(LoadBooks(bookRows), AttachOpenLoans(LoadUsers(userRows), txRows),
            LoadTransactions(txRows, now), NextCounter(txRows))
  }

  /** A reloaded user carries the name of the last row stored under its id. */
  lemma ReloadUserName(bookRows: seq<BookRow>, userRows: seq<UserRow>, txRows: seq<TransactionRow>, now: Date, i: int)
    requires 0 <= i < |userRows|
    requires forall j :: i < j < |userRows| ==> userRows[j].userId != userRows[i].userId
    ensures var users := Reload(bookRows, userRows, txRows, now).users;
      userRows[i].userId in users && users[userRows[i].userId].name == userRows[i].name
  {
    var k := userRows[i].userId;
    assert LoadUsers(userRows)[k] == UserOfRow(userRows[i]);
  }

  /** The suffix of the identifier the step 6 ledger issues for `n` reads back
      as `n`. */
  lemma SuffixOfPlainId(n: int)
    requires Int32Min <= n <= Int32Max
    ensures IsTId(PlainId(n)) && SuffixValue(PlainId(n)) == n
  {
    assert PlainId(n)[1..] == IntToString(n);
    ParseIntOfIntToString(n);
  }

  /** No row carries an identifier the counter issues from the reloaded
      value up to the 32-bit maximum, unless the counter wrapped. */
  lemma {:induction false} UnusedAfterReload(rows: seq<TransactionRow>, n: int)
    requires MaxSuffix(rows) != Some(Int32Max)
    requires NextCounter(rows) <= n <= Int32Max
    ensures forall i :: 0 <= i < |rows| ==> rows[i].transactionId != PlainId(n)
  {
    SuffixOfPlainId(n);
    forall i | 0 <= i < |rows| ensures rows[i].transactionId != PlainId(n) {
      var id := rows[i].transactionId;
      if IsTId(id) {
        var top := MaxSuffix(rows);
        assert top.Some? && SuffixValue(id) <= top.value < Int32Max;
        assert NextCounter(rows) == top.value + 1;
        assert SuffixValue(id) < n == SuffixValue(PlainId(n));
      }
    }
  }

  /** After a reload whose largest suffix is below the 32-bit maximum, no
      identifier the counter goes on to issue within range is already loaded. */
  lemma {:induction false} ReloadIdsFresh(bookRows: seq<BookRow>, userRows: seq<UserRow>, txRows: seq<TransactionRow>, now: Date)
    requires MaxSuffix(txRows) != Some(Int32Max)
    ensures LibraryV6.IdsFresh(Reload(bookRows, userRows, txRows, now))
  {
    var txs := LoadTransactions(txRows, now);
    forall n | NextCounter(txRows) <= n <= Int32Max ensures PlainId(n) !in txs {
      UnusedAfterReload(txRows, n);
    }
  }

  /** When the largest stored suffix is 2147483647 the counter wraps to
      -2147483648, and when `T-2147483648` is stored as well the next borrow
      reuses that id. */
  lemma {:induction false} ReloadCounterWraps(now: Date)
    ensures var rows := [TransactionRow(PlainId(Int32Max), "b1", "u1", 1),
                         TransactionRow(PlainId(Int32Min), "b2", "u1", 1)];
      var txs := LoadTransactions(rows, now);
      NextCounter(rows) == Int32Min && PlainId(NextCounter(rows)) in txs
  {
    var rows := [TransactionRow(PlainId(Int32Max), "b1", "u1", 1),
                 TransactionRow(PlainId(Int32Min), "b2", "u1", 1)];
    SuffixOfPlainId(Int32Max);
    SuffixOfPlainId(Int32Min);
    assert rows[0].transactionId == PlainId(Int32Max);
    assert SuffixValue(rows[0].transactionId) == Int32Max;
    assert MaxSuffix(rows) == Some(Int32Max);
    assert rows[1].transactionId in LoadTransactions(rows, now);
  }

  /** The open rows fully determine the rebuilt lists: a reload answers
      `hasBorrowedBook(x)` for a loaded user exactly when some row with
      `is_returned` 0 names that user and `x`. */
  lemma ReloadHeldBooks(bookRows: seq<BookRow>, userRows: seq<UserRow>, txRows: seq<TransactionRow>,
                        now: Date, userId: string, isbn: string)
    ensures var users := Reload(bookRows, userRows, txRows, now).users;
      userId in users ==>
        (HasBorrowedBook(users[userId], isbn) <==>
         exists i :: 0 <= i < |txRows| && txRows[i].isReturned == 0
                     && txRows[i].userId == userId && txRows[i].bookIsbn == isbn)
  {
  }

  /** The stored status is trusted as it is: a book stored as borrowed with no
      transaction behind it reloads into a ledger that is not consistent. */
  lemma ReloadTrustsStoredStatus(now: Date)
    ensures !Valid(Reload([BookRow("b1", "Title", "Author", Borrowed)], [], [], now))
  {
    var lib := Reload([BookRow("b1", "Title", "Author", Borrowed)], [], [], now);
    assert lib.books["b1"].status == Borrowed;
    assert OpenLoans(lib.transactions, "b1") == {};
  }

  /** A stored `is_returned` other than 0 and 1 leaves the transaction open
      while the user's list does not get the ISBN back. */
  lemma {:induction false} ReloadOddFlag(now: Date)
    ensures var lib := Reload([BookRow("b1", "Title", "Author", Borrowed)], [UserRow("u1", "Ann")],
                              [TransactionRow("T1", "b1", "u1", 2)], now);
      "T1" in lib.transactions && !lib.transactions["T1"].isReturned
      && "u1" in lib.users && !HasBorrowedBook(lib.users["u1"], "b1") && !Valid(lib)
  {
    var txRows := [TransactionRow("T1", "b1", "u1", 2)];
    var lib := Reload([BookRow("b1", "Title", "Author", Borrowed)], [UserRow("u1", "Ann")], txRows, now);
    assert OpenIsbnsOf(txRows, "u1") == [];
    assert lib.users["u1"].borrowedBooks == [];
    HeldIsbnsMember(lib.transactions, "T1");
    assert "b1" in HeldIsbns(lib.transactions, "u1");
    assert "b1" !in Elems(lib.users["u1"].borrowedBooks);
  }
}
