/** The persisted book store (store/useBookStore.ts): the selected books and the
    year filter, with the reducers that replace them. Each reducer computes its new
    list with a function of the old one; the class applies it to its field. */
module BookStore {
  import opened Books
  import opened Seqs

  /** `"all" | number`: every year, or one reading year. */
  datatype YearFilter = All | Year(year: int)

  const DefaultYearFilter: YearFilter := Year(2025)

  // ---------------------------------------------------------------------------
  // The list operations behind the reducers

  /** `books.some(b => b.id === id)`, walking the list from the front. */
  function HasId(books: seq<Book>, id: string): (r: bool)
    ensures r <==> exists i :: 0 <= i < |books| && books[i].id == id
  {
    if books == [] then false
    else if books[0].id == id then true
    else
      var r := HasId(books[1..], id);
      assert forall i :: 0 < i < |books| ==> books[i] == books[1..][i - 1];
      r
  }

  /** The list `addBook` stores: unchanged when a book with the same id is already
      there, else the book appended. */
  function WithBook(books: seq<Book>, book: Book): (r: seq<Book>)
    ensures books <= r && |r| <= |books| + 1
    ensures |r| == |books| + 1 <==> !HasId(books, book.id)
    ensures |r| == |books| + 1 ==> r[|books|] == book
    ensures HasId(r, book.id)
  {
    if HasId(books, book.id) then books else books + [book]
  }

  /** `new Set(books.map(b => b.id))`. */
  function IdsOf(books: seq<Book>): (ids: set<string>)
    ensures forall i :: 0 <= i < |books| ==> books[i].id in ids
    ensures forall id :: id in ids <==> HasId(books, id)
  {
    set i | 0 <= i < |books| :: books[i].id
  }

  function NotIn(ids: set<string>): Book -> bool
  {
    (b: Book) => b.id !in ids
  }

  /** The list `addBooks(ns)` stores: the old list, then the books of `ns` whose id
      is not among the old ids, in the order of `ns`. */
  function WithBooks(books: seq<Book>, ns: seq<Book>): (r: seq<Book>)
    ensures books <= r && |r| <= |books| + |ns|
    ensures forall i :: |books| <= i < |r| ==> !HasId(books, r[i].id)
  {
    books + Filter(ns, NotIn(IdsOf(books)))
  }

  function IdIsNot(id: string): Book -> bool
  {
    (b: Book) => b.id != id
  }

  /** The list `removeBook(id)` stores: every book whose id differs, in order. */
  function WithoutId(books: seq<Book>, id: string): (r: seq<Book>)
    ensures !HasId(r, id)
    ensures |r| <= |books|
  {
    Filter(books, IdIsNot(id))
  }

  /** The list `updateBook(u)` stores: `books.map(b => b.id === u.id ? u : b)`. */
  function Replaced(books: seq<Book>, u: Book): (r: seq<Book>)
    ensures |r| == |books|
    ensures forall i :: 0 <= i < |r| ==> r[i].id == books[i].id
    ensures forall i :: 0 <= i < |r| ==> r[i] == books[i] || r[i] == u
    ensures forall i :: 0 <= i < |r| && books[i].id == u.id ==> r[i] == u
    ensures forall i :: 0 <= i < |r| && books[i].id != u.id ==> r[i] == books[i]
  {
    if books == [] then []
    else [if books[0].id == u.id then u else books[0]] + Replaced(books[1..], u)
  }

  // ---------------------------------------------------------------------------
  // Properties of the list operations

  /** Adding a book whose id is present changes nothing; adding it twice is adding
      it once. */
  lemma WithBookIdempotent(books: seq<Book>, book: Book)
    ensures HasId(books, book.id) ==> WithBook(books, book) == books
    ensures WithBook(WithBook(books, book), book) == WithBook(books, book)
  {
  }

  /** addBook keeps the ids distinct. */
  lemma WithBookUnique(books: seq<Book>, book: Book)
    requires UniqueIds(books)
    ensures UniqueIds(WithBook(books, book))
  {
    var r := WithBook(books, book);
    if |r| == |books| + 1 {
      forall i, j | 0 <= i < j < |r| ensures r[i].id != r[j].id {
        if j == |books| {
          assert r[i] == books[i];
        } else {
          assert r[i] == books[i] && r[j] == books[j];
        }
      }
    }
  }

  /** Removing the id of a book just added restores the list. */
  lemma RemoveUndoesAdd(books: seq<Book>, book: Book)
    requires !HasId(books, book.id)
    ensures WithoutId(WithBook(books, book), book.id) == books
  {
    var p := IdIsNot(book.id);
    FilterConcat(books, [book], p);
    assert forall i :: 0 <= i < |books| ==> p(books[i]);
    FilterAll(books, p);
    assert !p(book);
    assert Filter([book], p) == Filter([book][1..], p);
  }

  /** addBooks appends exactly the books of `ns` whose id the old list lacks, in
      the order of `ns`. */
  lemma WithBooksMembers(books: seq<Book>, ns: seq<Book>)
    ensures forall i :: |books| <= i < |WithBooks(books, ns)| ==> WithBooks(books, ns)[i] in ns
    ensures forall j :: 0 <= j < |ns| && !HasId(books, ns[j].id) ==> ns[j] in WithBooks(books, ns)[|books|..]
  {
    var p := NotIn(IdsOf(books));
    var added := Filter(ns, p);
    FilterMembers(ns, p);
    assert WithBooks(books, ns)[|books|..] == added;
    forall i | |books| <= i < |WithBooks(books, ns)| ensures WithBooks(books, ns)[i] in ns {
      assert WithBooks(books, ns)[i] == added[i - |books|];
    }
    forall j | 0 <= j < |ns| && !HasId(books, ns[j].id) ensures ns[j] in added {
      assert p(ns[j]);
    }
  }

  /** When no new book shares an id with the list, addBooks appends all of them. */
  lemma WithBooksAllNew(books: seq<Book>, ns: seq<Book>)
    requires forall j :: 0 <= j < |ns| ==> !HasId(books, ns[j].id)
    ensures WithBooks(books, ns) == books + ns
  {
    var p := NotIn(IdsOf(books));
    assert forall j :: 0 <= j < |ns| ==> p(ns[j]);
    FilterAll(ns, p);
  }

  /** addBooks keeps the ids distinct when the new books have distinct ids. */
  lemma WithBooksUnique(books: seq<Book>, ns: seq<Book>)
    requires UniqueIds(books) && UniqueIds(ns)
    ensures UniqueIds(WithBooks(books, ns))
  {
    var p := NotIn(IdsOf(books));
    var added := Filter(ns, p);
    var r := WithBooks(books, ns);
    FilterMembers(ns, p);
    FilterUnique(ns, p);
    forall i, j | 0 <= i < j < |r| ensures r[i].id != r[j].id {
      if j < |books| {
        assert r[i] == books[i] && r[j] == books[j];
      } else if i < |books| {
        assert r[i] == books[i];
        assert !HasId(books, r[j].id);
      } else {
        assert r[i] == added[i - |books|] && r[j] == added[j - |books|];
      }
    }
  }

  /** Filtering a list with distinct ids keeps them distinct. */
  lemma {:induction false} FilterUnique(s: seq<Book>, p: Book -> bool)
    requires UniqueIds(s)
    ensures UniqueIds(Filter(s, p))
  {
    if s != [] {
      FilterUnique(s[1..], p);
      var rest := Filter(s[1..], p);
      FilterMembers(s[1..], p);
      if p(s[0]) {
        var r := Filter(s, p);
        assert r == [s[0]] + rest;
        forall i, j | 0 <= i < j < |r| ensures r[i].id != r[j].id {
          if i == 0 {
            var k :| 0 <= k < |s[1..]| && s[1..][k] == r[j];
            assert s[k + 1] == r[j];
          } else {
            assert r[i] == rest[i - 1] && r[j] == rest[j - 1];
          }
        }
      }
    }
  }

  /** Two new books with one id that the list lacks are both appended: addBooks
      does not remove duplicates inside its argument. */
  lemma WithBooksKeepsDuplicates(books: seq<Book>, x: Book, y: Book)
    requires !HasId(books, x.id) && y.id == x.id
    ensures WithBooks(books, [x, y]) == books + [x, y]
    ensures !UniqueIds(WithBooks(books, [x, y]))
  {
    WithBooksAllNew(books, [x, y]);
    var r := books + [x, y];
    assert r[|books|].id == r[|books| + 1].id;
  }

  /** removeBook keeps every other book, in order, and nothing else; without a
      book of that id it changes nothing. */
  lemma WithoutIdKeeps(books: seq<Book>, id: string)
    ensures forall i :: 0 <= i < |WithoutId(books, id)| ==> WithoutId(books, id)[i] in books
    ensures forall i :: 0 <= i < |books| && books[i].id != id ==> books[i] in WithoutId(books, id)
    ensures !HasId(books, id) ==> WithoutId(books, id) == books
  {
    var p := IdIsNot(id);
    FilterMembers(books, p);
    forall i | 0 <= i < |books| && books[i].id != id ensures books[i] in WithoutId(books, id) {
      assert p(books[i]);
    }
    if !HasId(books, id) {
      assert forall i :: 0 <= i < |books| ==> p(books[i]);
      FilterAll(books, p);
    }
  }

  /** updateBook with an id the list lacks changes nothing; it never changes the
      ids, so it keeps them distinct; a matching book is replaced by the update. */
  lemma ReplacedProperties(books: seq<Book>, u: Book)
    ensures !HasId(books, u.id) ==> Replaced(books, u) == books
    ensures UniqueIds(books) ==> UniqueIds(Replaced(books, u))
    ensures HasId(books, u.id) ==> HasId(Replaced(books, u), u.id)
  {
    var r := Replaced(books, u);
    if HasId(books, u.id) {
      var i :| 0 <= i < |books| && books[i].id == u.id;
      assert r[i] == u;
    }
  }

  /** Applying the same update twice is applying it once. */
  lemma ReplacedIdempotent(books: seq<Book>, u: Book)
    ensures Replaced(Replaced(books, u), u) == Replaced(books, u)
  {
  }

  // ---------------------------------------------------------------------------
  // The store

  class BookStore {
    var books: seq<Book>
    var yearFilter: YearFilter

    /** The initial state: no books, year filter 2025. */
    constructor()
      ensures books == [] && yearFilter == DefaultYearFilter
    {
      books := [];
      yearFilter := DefaultYearFilter;
    }

    method SetYearFilter(y: YearFilter)
      modifies this
      ensures yearFilter == y && books == old(books)
    {
      yearFilter := y;
    }

    method AddBook(book: Book)
      modifies this
      ensures books == WithBook(old(books), book) && yearFilter == old(yearFilter)
      ensures IsSelected(book.id)
      ensures UniqueIds(old(books)) ==> UniqueIds(books)
    {
      assert UniqueIds(books) ==> UniqueIds(WithBook(books, book)) by {
        if UniqueIds(books) { WithBookUnique(books, book); }
      }
      books := WithBook(books, book);
    }

    method AddBooks(ns: seq<Book>)
      modifies this
      ensures books == WithBooks(old(books), ns) && yearFilter == old(yearFilter)
      ensures UniqueIds(old(books)) && UniqueIds(ns) ==> UniqueIds(books)
    {
      assert UniqueIds(books) && UniqueIds(ns) ==> UniqueIds(WithBooks(books, ns)) by {
        if UniqueIds(books) && UniqueIds(ns) { WithBooksUnique(books, ns); }
      }
      books := WithBooks(books, ns);
    }

    method RemoveBook(id: string)
      modifies this
      ensures books == WithoutId(old(books), id) && yearFilter == old(yearFilter)
      ensures !IsSelected(id)
      ensures UniqueIds(old(books)) ==> UniqueIds(books)
    {
      assert UniqueIds(books) ==> UniqueIds(WithoutId(books, id)) by {
        if UniqueIds(books) { FilterUnique(books, IdIsNot(id)); }
      }
      books := WithoutId(books, id);
    }

    /** `isSelected(id)`: some stored book has this id. */
    function IsSelected(id: string): (r: bool)
      reads this
      ensures r <==> exists i :: 0 <= i < |books| && books[i].id == id
    {
      HasId(books, id)
    }

    method UpdateBook(u: Book)
      modifies this
      ensures books == Replaced(old(books), u) && yearFilter == old(yearFilter)
      ensures UniqueIds(old(books)) ==> UniqueIds(books)
    {
      ReplacedProperties(books, u);
      books := Replaced(books, u);
    }

    method Reset()
      modifies this
      ensures books == [] && yearFilter == DefaultYearFilter
    {
      books := [];
      yearFilter := DefaultYearFilter;
    }
  }
}
