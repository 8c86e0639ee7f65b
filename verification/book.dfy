/** `Book` (lab6/lab6.cpp): a title and an author held as C strings (null
    until a valid one is set), a year and an ID drawn from the static
    counter `Book::idCounter`, which starts at 1 and is passed in and
    returned explicitly here.  A C string argument is an `Option`, `None`
    for the null pointer. */
module Book {
  import opened Wrappers

  datatype Book = Book(title: Option<string>, author: Option<string>, year: int, id: int)

  /** `Book::idCounter` starts at 1. */
  const FirstId: int := 1

  /** The member constant `maxLen`. */
  const MaxLen: int := 256

  /** What `setTitle` and `setAuthor` accept: non-empty and shorter than 256. */
  predicate Acceptable(text: string) {
    0 < |text| < MaxLen
  }

  /** The rule shared by `setTitle` and `setAuthor`: a null or unacceptable
      text leaves the field as it was. */
  function Replace(current: Option<string>, text: Option<string>): (r: Option<string>)
    ensures text.Some? && Acceptable(text.value) ==> r == text
    ensures text.None? || !Acceptable(text.value) ==> r == current
  {
    if text.None? then current
    else if 0 < |text.value| < MaxLen then text
    else current
  }

  function SetTitle(b: Book, title: Option<string>): (r: Book)
    ensures r.title == Replace(b.title, title) && r.(title := b.title) == b
  {
    b.(title := Replace(b.title, title))
  }

  function SetAuthor(b: Book, author: Option<string>): (r: Book)
    ensures r.author == Replace(b.author, author) && r.(author := b.author) == b
  {
    b.(author := Replace(b.author, author))
  }

  /** `setYear`: only 0..2025 is stored. */
  function SetYear(b: Book, year: int): (r: Book)
    ensures 0 <= year <= 2025 ==> r.year == year
    ensures !(0 <= year <= 2025) ==> r.year == b.year
    ensures r.(year := b.year) == b
  {
    if year > -1 && year < 2026 then b.(year := year) else b
  }

  /** The default constructor: null strings, year 0, the next ID. */
  function NewDefault(idCounter: int): (r: (Book, int))
    ensures r.0 == Book(None, None, 0, idCounter) && r.1 == idCounter + 1
  {
    (Book(None, None, 0, idCounter), idCounter + 1)
  }

  /** The parametrized constructor: the next ID, then the three setters on
      a book with null strings and year 0. */
  function NewBook(title: Option<string>, author: Option<string>, year: int, idCounter: int): (r: (Book, int))
    ensures r.0.id == idCounter && r.1 == idCounter + 1
    ensures r.0.title == (if title.Some? && Acceptable(title.value) then title else None)
    ensures r.0.author == (if author.Some? && Acceptable(author.value) then author else None)
    ensures r.0.year == (if 0 <= year <= 2025 then year else 0)
  {
    var b := Book(None, None, 0, idCounter);
    (SetYear(SetAuthor(SetTitle(b, title), author), year), idCounter + 1)
  }

  /** Constructing books one after another with the parametrized constructor. */
  function NewBooks(args: seq<(Option<string>, Option<string>, int)>, idCounter: int): (r: (seq<Book>, int))
    ensures |r.0| == |args|
  {
    if |args| == 0 then ([], idCounter)
    else
      var (first, next) := NewBook(args[0].0, args[0].1, args[0].2, idCounter);
      var (rest, last) := NewBooks(args[1..], next);
      ([first] + rest, last)
  }

  /** Successive constructions number the books consecutively from the
      counter, so their IDs are distinct and increasing. */
  lemma {:induction false} NewBooksIds(args: seq<(Option<string>, Option<string>, int)>, idCounter: int)
    ensures var (books, next) := NewBooks(args, idCounter);
            next == idCounter + |args| &&
            (forall i | 0 <= i < |books| :: books[i].id == idCounter + i) &&
            (forall i, j | 0 <= i < j < |books| :: books[i].id < books[j].id)
    decreases |args|
  {
    if |args| > 0 {
      NewBooksIds(args[1..], idCounter + 1);
      var (books, next) := NewBooks(args, idCounter);
      var (rest, last) := NewBooks(args[1..], idCounter + 1);
      assert books == [books[0]] + rest;
      assert forall i | 1 <= i < |books| :: books[i] == rest[i - 1];
    }
  }

}
