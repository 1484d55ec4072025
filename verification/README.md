# Lending ledger of the step 5 and step 6 `SimpleLibrary`

A Dafny model of the in-memory lending ledger of the Java tutorial library.
The ledger keeps three keyed tables: books by ISBN, users by user id, and
borrow transactions by transaction id. It also keeps a counter from which
transaction ids are made. Two generations of the ledger are modelled:

- **Step 5** (`LibraryV5`) answers borrow and return with text messages. It
  checks the failure cases one after another, in the source's order. Its
  transaction ids are `"T"` plus the counter written with `%03d` (`T001`).
  It also adds, updates and removes books and users.
- **Step 6** (`LibraryV6`) answers borrow and return with `true`/`false`.
  Its transaction ids are `"T"` plus the counter in plain decimal (`T1`).
  When it starts up, it rebuilds the ledger from three database tables
  (`Reload`). That step also rebuilds each user's borrowed list from the open
  transactions and sets the counter one past the largest id suffix it finds.

The entities are the book (`Books`), the user with a borrowing limit of three
(`Users`) and the borrow transaction (`Transactions`). `Ledger` holds the state
shared by both steps and the consistency invariant `Ledger.Valid`:

- every stored entity sits under its own key;
- a book is borrowed exactly when it has one open transaction, and it never
  has more than one;
- every open transaction names a stored book and a stored user;
- each user's list has no duplicates, holds at most three ISBNs, and holds
  exactly the ISBNs of that user's open transactions.

Every operation is a pure function from a ledger to a result and a new ledger.
The wall clock (`new Date()`) becomes a `Date` parameter. `HashMap` iteration
order becomes an `order` parameter that lists the transaction ids.
`Ledger.FirstOpenMatchOrderIrrelevant` proves that on a consistent ledger the
order does not change the result.

Three behaviours of the code differ from what a reader of a lending library
might expect; the model follows the code in each:

- `addBook` and `addUser` replace an entry already stored under the same key.
  They do not report a duplicate. The lemmas `LibraryV5.AddBookOverwriteBreaksInv`
  and `LibraryV5.AddUserOverwriteBreaksInv` show that this can break the invariant.
- Borrowing does not check separately whether the user already holds the
  book. The book's status rules that out, because a held book is never
  available.
- Reloading trusts the stored book status and does not recompute it from the
  transactions (`Reload.ReloadTrustsStoredStatus`).

The step 5 ledger calls `getUserId` and `getName`
(src/step5/SimpleLibrary.java:125-126, 134), `setName` (142),
`getBorrowedBooksCount` (127, 162, 206, 263), and `canBorrowMoreBooks`,
`borrowBook`, `hasBorrowedBook` and `returnBook` (186, 192, 235, 248). Of the
user classes, only the step 4 one declares the getters and `setName`, so the
single `Users.User` type follows the step 4 class. The step 3 and step 5 user
classes have the same code for the limit, the membership test, borrowing and
returning.

Two classes the ledgers call are not part of this model, and the model
assumes their behaviour:

- The step 6 `User` class. The step 6 ledger reads `user.userId`, `user.name`
  and `user.borrowedBooks` as fields (src/step6/SimpleLibrary.java:54, 59
  and 148). It also calls `new User(id, name)` (141), `canBorrowMoreBooks`
  (68), `borrowBook` (74), `hasBorrowedBook` (94) and `returnBook` (99). The
  model gives that class the step 4 semantics: the same fields, an empty list
  at construction, and the same limit of three.
- The step 5 `BorrowTransaction` class. The model takes its constructor,
  `isReturned`, `markAsReturned` and the id, ISBN and user getters to behave
  like those of the step 6 class, which the model follows.

## Model

| member | source | states |
|---|---|---|
| Users.CanBorrowMoreBooks | src/step4/User.java:39-41 | true exactly when the held count is below three; a well-formed user who may not borrow more holds exactly three distinct ISBNs |
| Users.BorrowedBooksCount | src/step4/User.java:43-45 | the count is the list's length; for a well-formed user it is the number of distinct ISBNs held and at most three |
| Users.HasBorrowedBook | src/step4/User.java:51-53 | true exactly when some position of the list holds the ISBN, that is, when the ISBN is among the held ones |
| Users.NewUser | src/step4/User.java:13-17 | a new user has the given id and name, holds nothing, and is well formed |
| Users.BorrowBook | src/step4/User.java:55-61 | succeeds exactly when the user holds fewer than three ISBNs and not this one; success appends the ISBN, failure changes nothing |
| Users.ReturnBook | src/step4/User.java:63-65 | succeeds exactly when the ISBN is held; removes only its first occurrence (the list shrinks by one) and keeps id and name |
| Users.RemainingBorrowLimit | src/step4/User.java:47-49 | the remaining allowance plus the held count is three; it lies in 0..3 for a well-formed user and is positive exactly when the user may borrow more |
| Users.SetName | src/step4/User.java:31-33 | only the name changes |
| Users.BorrowedBooks | src/step4/User.java:35-37 | the copy has the same length and the same ISBNs in the same order |
| Users.BorrowPreservesWellFormed | src/step5/User.java:27-33 | borrowing keeps a user's list duplicate-free and within the limit |
| Users.ReturnPreservesWellFormed | src/step3/User.java:35-37 | returning keeps the list duplicate-free and within the limit, and afterwards the ISBN is no longer held |
| Users.HasBorrowedAfterBorrow | src/step3/User.java:23-33 | after a successful borrow the ISBN is held, and every ISBN held before is still held |
| Users.BorrowThenReturn | src/step4/User.java:55-65 | borrowing an ISBN the user may take and then returning it gives back the original user |
| Common.RemoveFirst | src/step4/User.java:63-65 | `List.remove(Object)`: no change when the element is absent, otherwise the list without its first occurrence |
| Common.RemoveFirstNoDup | src/step4/User.java:63-65 | removing from a duplicate-free list keeps it duplicate-free and removes the element from its contents |
| Books.IsAvailable | src/step5/Book.java:44-46 | true exactly when the status is AVAILABLE, which is exactly when it is not BORROWED |
| Books.IsBorrowed | src/step5/Book.java:48-50 | true exactly when the status is BORROWED, which is exactly when it is not AVAILABLE |
| Books.NewBook | src/step5/Book.java:9-14 | a new book keeps the given ISBN, title and author, and is available and not borrowed |
| Books.AvailableXorBorrowed | src/step5/Book.java:44-50 | exactly one of `isAvailable` and `isBorrowed` holds |
| Books.SetStatus | src/step5/Book.java:40-42 | the status becomes the given one; ISBN, title and author stay |
| Books.MarkAsAvailable | src/step5/Book.java:52-54 | the book becomes available and not borrowed, and nothing else changes |
| Books.MarkAsBorrowed | src/step5/Book.java:56-58 | the book becomes borrowed and not available, and nothing else changes |
| Books.SetTitle | src/step5/Book.java:24-26 | only the title changes; the ISBN is fixed |
| Books.SetAuthor | src/step5/Book.java:32-34 | only the author changes; the ISBN is fixed |
| Books.Describe | src/step6/Book.java:20-22 | the text is the title, then `" by "`, then the author |
| Transactions.NewTransaction | src/step6/BorrowTransaction.java:13-20 | a new transaction keeps the id, ISBN and user, is dated `now`, is open, has no return date, and its status is `"Active"` |
| Transactions.MarkAsReturned | src/step6/BorrowTransaction.java:48-51 | sets the flag and the return date `now`; id, ISBN, user and borrow date stay; status becomes `"Returned"` |
| Transactions.Status | src/step6/BorrowTransaction.java:53-55 | `"Returned"` exactly when returned, `"Active"` exactly when open |
| Transactions.MarkAsReturnedIdempotent | src/step6/BorrowTransaction.java:48-51 | marking twice equals marking once at the later instant, with the same status |
| TransactionIds.IntToString | src/step6/SimpleLibrary.java:70 | the text is non-empty, starts with `-` exactly for a negative number, is otherwise all digits, and has no leading zero |
| TransactionIds.Format03 | src/step5/SimpleLibrary.java:188 | the `%03d` text is at least three characters, starts with `-` exactly for a negative number, is otherwise all digits, and is exactly three characters from -99 to 999 |
| TransactionIds.Digits | src/step6/SimpleLibrary.java:70 | the decimal digits of a number are non-empty and have no leading zero |
| TransactionIds.ParseInt | src/step6/SimpleLibrary.java:162 | `Integer.parseInt` yields a value in the 32-bit range, and yields the decimal reading whenever that is in range |
| TransactionIds.IntToStringRoundTrip | src/step6/SimpleLibrary.java:70 | reading back the decimal text of any integer gives that integer |
| TransactionIds.Format03RoundTrip | src/step5/SimpleLibrary.java:188 | reading back the `%03d` text of any integer gives that integer, including negatives |
| TransactionIds.ParseIntOfIntToString | src/step6/SimpleLibrary.java:160-163 | `Integer.parseInt` reads back every 32-bit integer's text |
| TransactionIds.PaddedIdInjective | src/step5/SimpleLibrary.java:188 | two counter values give the same step 5 id exactly when they are equal |
| TransactionIds.PlainIdInjective | src/step6/SimpleLibrary.java:70 | two counter values give the same step 6 id exactly when they are equal |
| TransactionIds.FirstIdentifiers | src/step5/SimpleLibrary.java:16-23 | the first id is `T001` in step 5 and `T1` in step 6 |
| Ledger.Empty | src/step5/SimpleLibrary.java:16-23 | the new ledger is empty, consistent, and its counter starts at 1 |
| Ledger.GetBook | src/step5/SimpleLibrary.java:281-283 | finds a book exactly when its ISBN is stored, and returns the stored book |
| Ledger.GetUser | src/step5/SimpleLibrary.java:285-287 | finds a user exactly when the id is stored, and returns the stored user |
| Ledger.FirstOpenMatch | src/step5/SimpleLibrary.java:237-243 | the search finds an id that is listed, stored and open for this book and user; it finds nothing only when no listed stored id is |
| Ledger.AtMostOneOpenLoan | src/step5/SimpleLibrary.java:237-243 | on a consistent ledger, two open transactions of the same book are the same transaction |
| Ledger.FirstOpenMatchOrderIrrelevant | src/step5/SimpleLibrary.java:238 | on a consistent ledger, any two complete iteration orders find the same transaction |
| Ledger.AvailableBookIsFree | src/step5/SimpleLibrary.java:185 | on a consistent ledger an available book has no open transaction and no user holds it, so the borrow guard also rules out a repeat borrow |
| Ledger.CommitBorrowPreservesValid | src/step5/SimpleLibrary.java:188-224 | a guarded borrow under an unused id appends the ISBN to the user's list and keeps the ledger consistent |
| Ledger.CommitReturnPreservesValid | src/step5/SimpleLibrary.java:245-249 | closing the open transaction shows the book borrowed and held before; afterwards it is no longer held and the ledger stays consistent |
| LibraryV5.ErrorMessage | src/step5/SimpleLibrary.java:183-245 | every failure text is non-empty and does not start with `S`, so none can be taken for the success text |
| LibraryV5.BorrowMessage | src/step5/SimpleLibrary.java:183-225 | the text starts with `S` exactly on success, and on success the id follows the fixed 25-character prefix |
| LibraryV5.ReturnMessage | src/step5/SimpleLibrary.java:232-278 | the text is "Book returned successfully" exactly on success |
| LibraryV5.BorrowMessageDeterminesOutcome | src/step5/SimpleLibrary.java:183-225 | different borrow outcomes never return the same text; the success text carries the id |
| LibraryV5.EmptyInv | src/step5/SimpleLibrary.java:16-23 | the new ledger satisfies the step 5 invariant |
| LibraryV5.AddBook | src/step5/SimpleLibrary.java:54-73 | `null` is refused with nothing changed; a book is stored under its ISBN, replacing any earlier one; nothing else changes |
| LibraryV5.UpdateBook | src/step5/SimpleLibrary.java:75-96 | an unknown ISBN fails with nothing changed; otherwise only that book's title and author change |
| LibraryV5.RemoveBook | src/step5/SimpleLibrary.java:98-116 | succeeds exactly for a stored available book; only that key goes, and failure changes nothing |
| LibraryV5.AddUser | src/step5/SimpleLibrary.java:118-136 | `null` is refused with nothing changed; a user is stored under its id, replacing any earlier one; nothing else changes |
| LibraryV5.UpdateUser | src/step5/SimpleLibrary.java:138-157 | an unknown id fails with nothing changed; otherwise only that user's name changes |
| LibraryV5.RemoveUser | src/step5/SimpleLibrary.java:159-177 | succeeds exactly for a stored user holding nothing; only that key goes, and failure changes nothing |
| LibraryV5.BorrowBook | src/step5/SimpleLibrary.java:179-226 | each of the four checks fails in source order with nothing changed; success happens exactly when all pass, uses id `"T"` + `%03d` of the counter, and moves the counter on by one |
| LibraryV5.ReturnBook | src/step5/SimpleLibrary.java:228-279 | each of the four checks fails in source order with nothing changed; given a complete order, "No active transaction found" comes exactly when no open transaction of this book and user exists, and success comes exactly when all checks pass and one does; success closes one such transaction |
| LibraryV5.ReturnNeverMissesOnValid | src/step5/SimpleLibrary.java:235-245 | on a consistent ledger searched in a complete order, a return never ends in "No active transaction found" |
| LibraryV5.BorrowEffects | src/step5/SimpleLibrary.java:188-225 | on a consistent ledger a successful borrow adds one open transaction under an id not used before, marks the book borrowed, appends the ISBN, bumps the counter, and changes nothing else |
| LibraryV5.BorrowPreservesInv | src/step5/SimpleLibrary.java:179-226 | every borrow keeps the step 5 invariant |
| LibraryV5.ReturnEffects | src/step5/SimpleLibrary.java:237-249 | on a consistent ledger a successful return makes the book available, drops the ISBN from the user's list, and marks the one open transaction of the book as returned |
| LibraryV5.ReturnPreservesInv | src/step5/SimpleLibrary.java:228-279 | every return keeps the step 5 invariant |
| LibraryV5.ReturnAfterBorrow | src/step5/SimpleLibrary.java:237-249 | right after a successful borrow, a return of the same book by the same user succeeds and closes exactly the transaction the borrow opened |
| LibraryV5.CommitRoundTrip | src/step5/SimpleLibrary.java:191-249 | the borrow's state change followed by the return's gives back the original books and users, with the transaction stored as returned |
| LibraryV5.BorrowThenReturnRoundTrip | src/step5/SimpleLibrary.java:179-279 | a successful borrow followed by a return of the same book by the same user restores books and users and keeps the closed transaction |
| LibraryV5.RemoveBookPreservesInv | src/step5/SimpleLibrary.java:98-116 | removing a book keeps the invariant, because borrowed books are refused |
| LibraryV5.RemoveUserPreservesInv | src/step5/SimpleLibrary.java:159-177 | removing a user keeps the invariant, because users holding books are refused |
| LibraryV5.UpdatesPreserveInv | src/step5/SimpleLibrary.java:75-96 | renaming a book or a user keeps the invariant |
| LibraryV5.AddBookPreservesValid | src/step5/SimpleLibrary.java:54-73 | adding an available book under a new ISBN keeps the ledger consistent |
| LibraryV5.AddUserPreservesValid | src/step5/SimpleLibrary.java:118-136 | adding a user who holds nothing under a new id keeps the ledger consistent |
| LibraryV5.AddBookOverwriteBreaksInv | src/step5/SimpleLibrary.java:71 | re-adding a borrowed ISBN as an available book breaks consistency |
| LibraryV5.AddUserOverwriteBreaksInv | src/step5/SimpleLibrary.java:134 | re-adding a user who holds books, with an empty list, breaks consistency |
| LibraryV5.Apply | src/step5/SimpleLibrary.java:179-226 | only a borrow issues an id, namely the one made from the counter, and the counter moves on by one exactly when an id is issued |
| LibraryV5.Run | src/step5/SimpleLibrary.java:188 | over a sequence of operations the counter moves on by exactly the number of ids issued, which is at most the number of operations |
| LibraryV5.RunIssuesConsecutiveIds | src/step5/SimpleLibrary.java:188 | the ids a sequence of operations issues are `"T"` + the `%03d` text of each consecutive counter value from the starting one, in order |
| LibraryV5.ApplyKeepsHistory | src/step5/SimpleLibrary.java:224 | one operation never removes a stored transaction and never alters a returned one; an id it issues was unused before and is stored after |
| LibraryV5.RunIssuesDistinctIds | src/step5/SimpleLibrary.java:188 | over any sequence of operations the issued ids are pairwise distinct, were unused at the start, and are all stored at the end |
| LibraryV5.ApplyPreservesInv | src/step5/SimpleLibrary.java:54-279 | every admissible operation keeps the step 5 invariant |
| LibraryV5.RunPreservesInv | src/step5/SimpleLibrary.java:54-279 | every admissible sequence of operations keeps the step 5 invariant |
| LibraryV6.AddBook | src/step6/SimpleLibrary.java:39-40 | the book is stored under its ISBN, replacing any earlier one, with nothing else changed; this is the same change as a step 5 add |
| LibraryV6.AddUser | src/step6/SimpleLibrary.java:53-54 | the user is stored under its id, replacing any earlier one, with nothing else changed; this is the same change as a step 5 add |
| LibraryV6.BorrowBook | src/step6/SimpleLibrary.java:65-89 | true exactly when book and user exist, the book is available and the user is under the limit; false changes nothing; true stores id `"T"` + counter and moves the counter on |
| LibraryV6.ReturnBook | src/step6/SimpleLibrary.java:91-115 | false changes nothing; a missing entry, an available book or an unheld ISBN gives false; given a complete order, true comes exactly when an open transaction of this book and user exists |
| LibraryV6.EmptyInv | src/step6/SimpleLibrary.java:7-10 | the new ledger satisfies the step 6 invariant |
| LibraryV6.BorrowEffects | src/step6/SimpleLibrary.java:70-75 | while the counter is in range, a successful borrow stores one new open transaction under an unused id, marks the book borrowed, appends the ISBN and bumps the counter |
| LibraryV6.BorrowPreservesInv | src/step6/SimpleLibrary.java:65-89 | while the counter is in range, every borrow keeps the step 6 invariant |
| LibraryV6.ReturnEffects | src/step6/SimpleLibrary.java:96-100 | a successful return makes the book available, removes the ISBN's first occurrence from that user's list and leaves other users alone, keeps the transaction keys and the counter, and marks the one open transaction of the book as returned |
| LibraryV6.ReturnPreservesInv | src/step6/SimpleLibrary.java:91-115 | every return keeps the step 6 invariant |
| LibraryV6.OnlyStatusChanges | src/step6/Book.java:4-7 | borrow and return change only the status of stored books, because ISBN, title and author are final |
| LibraryV6.AddBookInv | src/step6/SimpleLibrary.java:39-40 | adding an available book under a new ISBN keeps the invariant; adding it over a borrowed ISBN breaks consistency |
| LibraryV6.Apply | src/step6/SimpleLibrary.java:65-89 | only a borrow issues an id, namely `"T"` + the counter, and the counter moves on by one exactly when an id is issued |
| LibraryV6.Run | src/step6/SimpleLibrary.java:70 | over a sequence of operations the counter moves on by exactly the number of ids issued, which is at most the number of operations |
| LibraryV6.RunIssuesConsecutiveIds | src/step6/SimpleLibrary.java:70 | the ids a sequence of operations issues are `"T"` + each consecutive counter value from the starting one, in order |
| LibraryV6.ApplyKeepsHistory | src/step6/SimpleLibrary.java:70-75 | while the counter is in range, one operation never removes a stored transaction and never alters a returned one; an id it issues was unused before and is stored after |
| LibraryV6.RunIssuesDistinctIds | src/step6/SimpleLibrary.java:70 | over a sequence of operations that keeps the counter within 32 bits, the issued ids are pairwise distinct, were unused at the start, and are all stored at the end |
| LibraryV6.AddUserInv | src/step6/SimpleLibrary.java:53-54 | adding a user who holds nothing under a new id keeps the invariant; adding over a user who holds books breaks consistency |
| Reload.LoadKeyed | src/step6/SimpleLibrary.java:132-135 | the loaded keys are exactly the rows' keys, and every stored value was made from a row with that key |
| Reload.LoadKeyedLastWins | src/step6/SimpleLibrary.java:152-157 | the value under a key is made from the last row carrying that key |
| Reload.BookOfRow | src/step6/SimpleLibrary.java:133-134 | a loaded book has the stored ISBN, title, author and status |
| Reload.LoadBooks | src/step6/SimpleLibrary.java:131-136 | the book keys are the rows' ISBNs, and each is loaded from the last row with that ISBN |
| Reload.UserOfRow | src/step6/SimpleLibrary.java:141 | a user built from a row has the row's id and name and holds nothing |
| Reload.LoadUsers | src/step6/SimpleLibrary.java:139-142 | the user keys are the rows' ids; every loaded user sits under its own id and holds nothing; each id's user is made from the last row with that id, name included |
| Reload.TransactionOfRow | src/step6/SimpleLibrary.java:154-155 | a loaded transaction keeps the row's id, ISBN and user, is dated `now`, and is returned exactly when the stored flag is 1 |
| Reload.LoadTransactions | src/step6/SimpleLibrary.java:152-157 | the transaction keys are the rows' ids, and each is loaded from the last row with that id |
| Reload.OpenIsbnsOf | src/step6/SimpleLibrary.java:145 | an ISBN is listed exactly when some row with flag 0 names the user and that ISBN |
| Reload.AttachOpenLoans | src/step6/SimpleLibrary.java:145-149 | user keys do not change; each user's list grows by the ISBNs of that user's open rows, in row order |
| Reload.SuffixValue | src/step6/SimpleLibrary.java:162 | the suffix value lies in the 32-bit range; it is the `parseInt` reading of the text after `T`, or 0 when that text is rejected |
| Reload.MaxSuffix | src/step6/SimpleLibrary.java:160-163 | the result is absent exactly when no id starts with `T`; otherwise it bounds every suffix and some suffix attains it |
| Reload.AddInt32 | src/step6/SimpleLibrary.java:164 | Java `int` addition: the exact sum when it fits; a sum above the range loses 2^32 and one below it gains 2^32 |
| Reload.NextCounter | src/step6/SimpleLibrary.java:160-164 | the counter is 1 when no id starts with `T`, otherwise one past the largest suffix, and -2147483648 when that suffix is 2147483647 |
| Reload.Reload | src/step6/SimpleLibrary.java:127-167 | the reloaded ledger has the loaded books and transactions and the computed counter; each loaded user keeps the loaded name and holds exactly that user's open ISBNs |
| Reload.ReloadUserName | src/step6/SimpleLibrary.java:141 | a reloaded user carries the name of the last row stored under its id |
| Reload.SuffixOfPlainId | src/step6/SimpleLibrary.java:70 | the suffix of a step 6 id reads back as its counter value |
| Reload.UnusedAfterReload | src/step6/SimpleLibrary.java:160-164 | unless the counter wrapped, no stored row uses an id the reloaded counter goes on to issue within range |
| Reload.ReloadIdsFresh | src/step6/SimpleLibrary.java:160-164 | unless the largest suffix is 2147483647, the reloaded ledger satisfies the step 6 id freshness |
| Reload.ReloadCounterWraps | src/step6/SimpleLibrary.java:164 | with stored ids `T2147483647` and `T-2147483648`, the counter wraps and the next id is one already stored |
| Reload.ReloadHeldBooks | src/step6/SimpleLibrary.java:145-149 | a reloaded user holds an ISBN exactly when some row with flag 0 names that user and ISBN |
| Reload.ReloadTrustsStoredStatus | src/step6/SimpleLibrary.java:134 | a book stored as borrowed with no transaction behind it reloads into an inconsistent ledger |
| Reload.ReloadOddFlag | src/step6/SimpleLibrary.java:145-155 | a stored flag other than 0 and 1 leaves the transaction open but out of the user's list, and the ledger is inconsistent |

## Left out

- Database code: connection set-up, table creation, every `useDatabase` branch,
  the SQL writes in add/update/remove/borrow/return, and the step 5 `getAll*`
  reloads (`loadBooksFromDatabase` and the others) are not modelled. A failed
  SQL write in step 5 returns false only after the in-memory change in some
  operations; that ordering belongs to the database branch and is left out too.
- Reload.Reload: models the step 6 `loadDataFromDatabase` with the result sets
  given as row sequences in the order the database returns them. Opening the
  connection and running the queries are left out. One `txRows` sequence
  stands for two separate queries on the transactions table: the open rows
  (src/step6/SimpleLibrary.java:145) and all rows (152). Neither query has an
  `ORDER BY`, so the database may return them in different relative orders.
  The model assumes both return the open rows in the same relative order. A
  rebuilt borrowed list therefore follows `txRows` order, and
  `borrowedBooks == OpenIsbnsOf(txRows, k)` promises that order. Under a
  different order of the open rows, the list would hold the same ISBNs in
  another order. `Reload.ReloadHeldBooks` states membership, which does not
  depend on order.
- `BookStatus.valueOf` on stored text that names no status throws. The model
  stores an already-decoded status, so that failure is left out.
- Console output (`printStatus`, the messages printed when the database fails),
  `close`, and the Swing `LibraryGUI` are left out. They are I/O.
- `new Date()` is the `now` parameter. `HashMap` iteration order is the `order`
  parameter. Neither is modelled further.
- LibraryV5.BorrowBook: the counter is an unbounded integer. The model does not
  reproduce the 32-bit wrap-around of `transactionCounter++` after 2147483647 borrows.
- LibraryV6.BorrowBook: the counter is an unbounded integer. The model does not
  reproduce the 32-bit wrap-around of `transactionCounter++` after 2147483647;
  past that point Java issues `T-2147483648` and counts up from there.
- LibraryV6.RunIssuesDistinctIds: proved only for runs whose borrows keep the
  counter at most 2147483647, for the same reason.
- LibraryV6.BorrowPreservesInv: id freshness is proved only while the counter
  is at most 2147483647. Past that point Java's counter wraps and the model's
  does not.
- LibraryV6.AddBook: in step 6, `addBook(null)` fails when it dereferences
  null. The model's book argument is always present.
- LibraryV6.AddUser: in step 6, `addUser(null)` fails when it dereferences
  null (src/step6/SimpleLibrary.java:54). The model's user argument is always
  present, so that failure is not modelled.
- TransactionIds.Format03: writes ASCII digits. `String.format("%03d", n)`
  uses the default locale's digits, which differ in some locales; the model
  assumes a locale with ASCII digits.
- TransactionIds.ParseInt: accepts ASCII digits only. `Integer.parseInt` also
  accepts other Unicode decimal digits, and no id the ledger issues contains any.
- `toString` of the step 3–5 users and step 4–5 books, `getRole`, and the plain
  getters are left out. They only format text or read a field.
- Aliasing: the Java tables hold mutable objects, so a caller holding a `Book`
  or `User` can change the ledger from outside. The model has value semantics.
  Only the copy made by `getBorrowedBooks` is modelled.
