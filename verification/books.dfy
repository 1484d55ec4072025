/** The book entity of steps 4 to 6: an ISBN that never changes, a title and
    an author, and a two-valued lending status. */
module Books {

  datatype BookStatus = Available | Borrowed

  datatype Book = Book(isbn: string, title: string, author: string, status: BookStatus)

  /** `new Book(isbn, title, author)`: every new book starts out available. */
  function NewBook(isbn: string, title: string, author: string): (b: Book)
    ensures b.isbn == isbn && b.title == title && b.author == author
    ensures IsAvailable(b) && !IsBorrowed(b)
  {
    Book(isbn, title, author, Available)
  }

  /** `isAvailable`: the status is AVAILABLE, which for a two-valued status
      means the book is not lent out. */
  function IsAvailable(b: Book): (r: bool)
    ensures r <==> b.status == Available
    ensures r <==> b.status != Borrowed
  {
    b.status == Available
  }

  /** `isBorrowed`: the status is BORROWED, which for a two-valued status
      means the book is not on the shelf. */
  function IsBorrowed(b: Book): (r: bool)
    ensures r <==> b.status == Borrowed
    ensures r <==> b.status != Available
  {
    b.status == Borrowed
  }

  /** Exactly one of `isAvailable` and `isBorrowed` holds for every book. */
  lemma AvailableXorBorrowed(b: Book)
    ensures IsAvailable(b) <==> !IsBorrowed(b)
  {
  }

  /** `setStatus(s)`: afterwards `getStatus()` yields `s`; nothing else changes. */
  function SetStatus(b: Book, s: BookStatus): (b': Book)
    ensures b'.status == s
    ensures b'.isbn == b.isbn && b'.title == b.title && b'.author == b.author
  {
    b.(status := s)
  }

  function MarkAsAvailable(b: Book): (b': Book)
    ensures IsAvailable(b') && !IsBorrowed(b')
    ensures b' == SetStatus(b, Available)
  {
    b.(status := Available)
  }

  function MarkAsBorrowed(b: Book): (b': Book)
    ensures IsBorrowed(b') && !IsAvailable(b')
    ensures b' == SetStatus(b, Borrowed)
  {
    b.(status := Borrowed)
  }

  /** `setTitle`: only the title changes; the ISBN is fixed. */
  function SetTitle(b: Book, title: string): (b': Book)
    ensures b'.title == title
    ensures b'.isbn == b.isbn && b'.author == b.author && b'.status == b.status
  {
    b.(title := title)
  }

  /** `setAuthor`: only the author changes; the ISBN is fixed. */
  function SetAuthor(b: Book, author: string): (b': Book)
    ensures b'.author == author
    ensures b'.isbn == b.isbn && b'.title == b.title && b'.status == b.status
  {
    b.(author := author)
  }

  /** Step 6 `toString`: the title, `" by "`, then the author. */
  function Describe(b: Book): (s: string)
    ensures |s| == |b.title| + 4 + |b.author|
    ensures s[..|b.title|] == b.title && s[|b.title|..|b.title| + 4] == " by "
    ensures s[|b.title| + 4..] == b.author
  {
    b.title + " by " + b.author
  }
}
