/** The library user of step 4 (whose operation set the step 5 and step 6
    ledgers call): a fixed id, a renamable name, and the list of ISBNs the
    user currently holds, capped at `MaxBooksLimit`. The step 3 and step 5
    user classes implement `canBorrowMoreBooks`, `hasBorrowedBook`,
    `borrowBook` and `returnBook` with the same code. */
module Users {
  import opened Common

  const MaxBooksLimit: nat := 3

  datatype User = User(userId: string, name: string, borrowedBooks: seq<string>)

  /** `new User(userId, name)`: no books held yet. */
  function NewUser(userId: string, name: string): (u: User)
    ensures u.userId == userId && u.name == name && u.borrowedBooks == []
    ensures WellFormed(u)
  {
    User(userId, name, [])
  }

  /** What every user reachable through the ledger satisfies: the list is
      free of duplicates and within the limit. */
  predicate WellFormed(u: User) {
    NoDup(u.borrowedBooks) && |u.borrowedBooks| <= MaxBooksLimit
  }

  /** `canBorrowMoreBooks`: below the limit; a well-formed user who cannot
      borrow more holds exactly `MaxBooksLimit` books. */
  function CanBorrowMoreBooks(u: User): (b: bool)
    ensures b <==> BorrowedBooksCount(u) < MaxBooksLimit
    ensures WellFormed(u) && !b ==> |Elems(u.borrowedBooks)| == MaxBooksLimit
  {
    NoDupCard(u.borrowedBooks);
    |u.borrowedBooks| < MaxBooksLimit
  }

  /** `hasBorrowedBook`: some position of the list holds the ISBN. */
  function HasBorrowedBook(u: User, isbn: string): (b: bool)
    ensures b <==> exists i :: 0 <= i < |u.borrowedBooks| && u.borrowedBooks[i] == isbn
    ensures b <==> isbn in Elems(u.borrowedBooks)
  {
    isbn in u.borrowedBooks
  }

  /** `borrowBook(isbn)`: appends the ISBN and answers true exactly when the
      user is below the limit and does not hold it yet; otherwise answers
      false and leaves the user as it was. */
  function BorrowBook(u: User, isbn: string): (r: (bool, User))
    ensures r.0 <==> |u.borrowedBooks| < MaxBooksLimit && isbn !in u.borrowedBooks
    ensures r.0 ==> r.1 == u.(borrowedBooks := u.borrowedBooks + [isbn])
    ensures !r.0 ==> r.1 == u
  {
    if CanBorrowMoreBooks(u) && !HasBorrowedBook(u, isbn) then
      (true, u.(borrowedBooks := u.borrowedBooks + [isbn]))
    else
      (false, u)
  }

  /** `returnBook(isbn)`: removes the first occurrence of the ISBN and
      answers whether it was held; the id and name never change. */
  function ReturnBook(u: User, isbn: string): (r: (bool, User))
    ensures r.0 <==> isbn in u.borrowedBooks
    ensures r.1.userId == u.userId && r.1.name == u.name
    ensures !r.0 ==> r.1 == u
    ensures r.0 ==> |r.1.borrowedBooks| == |u.borrowedBooks| - 1
    ensures r.0 ==> var i := FirstIndex(u.borrowedBooks, isbn);
      r.1.borrowedBooks == u.borrowedBooks[..i] + u.borrowedBooks[i + 1..]
  {
    (HasBorrowedBook(u, isbn), u.(borrowedBooks := RemoveFirst(u.borrowedBooks, isbn)))
  }

  /** `getBorrowedBooksCount`: for a well-formed user, the number of
      distinct ISBNs held, never above the limit. */
  function BorrowedBooksCount(u: User): (n: nat)
    ensures n == |u.borrowedBooks|
    ensures WellFormed(u) ==> n == |Elems(u.borrowedBooks)| && n <= MaxBooksLimit
  {
    NoDupCard(u.borrowedBooks);
    |u.borrowedBooks|
  }

  /** `getRemainingBorrowLimit`: how many more books the user may take. */
  function RemainingBorrowLimit(u: User): (n: int)
    ensures n + BorrowedBooksCount(u) == MaxBooksLimit
    ensures WellFormed(u) ==> 0 <= n <= MaxBooksLimit
    ensures n > 0 <==> CanBorrowMoreBooks(u)
  {
    MaxBooksLimit - |u.borrowedBooks|
  }

  /** `setName`: only the name changes. */
  function SetName(u: User, name: string): (u': User)
    ensures u'.name == name
    ensures u'.userId == u.userId && u'.borrowedBooks == u.borrowedBooks
  {
    u.(name := name)
  }

  /** `getBorrowedBooks`: a copy with the same contents, in the same order. */
  function BorrowedBooks(u: User): (s: seq<string>)
    ensures |s| == BorrowedBooksCount(u)
    ensures forall i :: 0 <= i < |s| ==> s[i] == u.borrowedBooks[i]
  {
    u.borrowedBooks
  }

  /** `borrowBook` keeps a user within the limit and free of duplicates. */
  lemma BorrowPreservesWellFormed(u: User, isbn: string)
    requires WellFormed(u)
    ensures WellFormed(BorrowBook(u, isbn).1)
  {
    if BorrowBook(u, isbn).0 {
      AppendFreshNoDup(u.borrowedBooks, isbn);
    }
  }

  /** `returnBook` keeps a user within the limit and free of duplicates,
      and afterwards the user no longer holds the ISBN. */
  lemma ReturnPreservesWellFormed(u: User, isbn: string)
    requires WellFormed(u)
    ensures WellFormed(ReturnBook(u, isbn).1)
    ensures !HasBorrowedBook(ReturnBook(u, isbn).1, isbn)
  {
    RemoveFirstNoDup(u.borrowedBooks, isbn);
  }

  /** After a successful `borrowBook(x)`, `hasBorrowedBook(x)` holds and
      every previously held ISBN is still held. */
  lemma HasBorrowedAfterBorrow(u: User, isbn: string, other: string)
    requires BorrowBook(u, isbn).0
    ensures HasBorrowedBook(BorrowBook(u, isbn).1, isbn)
    ensures HasBorrowedBook(u, other) ==> HasBorrowedBook(BorrowBook(u, isbn).1, other)
  {
  }

  /** Borrowing an ISBN the user does not hold and then returning it gives
      back the original user. */
  lemma BorrowThenReturn(u: User, isbn: string)
    requires CanBorrowMoreBooks(u) && !HasBorrowedBook(u, isbn)
    ensures ReturnBook(BorrowBook(u, isbn).1, isbn) == (true, u)
  {
    var s := u.borrowedBooks;
    var t := s + [isbn];
    assert FirstIndex(t, isbn) == |s| by {
      assert forall j :: 0 <= j < |s| ==> t[j] == s[j];
    }
    assert t[..|s|] + t[|s| + 1..] == s;
  }
}
