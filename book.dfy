/** The Book record shared by pair selection, the store and the CSV import. */
module Books {

  datatype Option<+T> = None | Some(value: T)

  /** `o ?? otherwise`. */
  function GetOr<T>(o: Option<T>, otherwise: T): (r: T)
    ensures o.Some? ==> r == o.value
    ensures o.None? ==> r == otherwise
  {
    match o
    case None => otherwise
    case Some(v) => v
  }

  /** JavaScript truthiness of an optional string: present and not empty. */
  predicate Truthy(s: Option<string>)
  {
    s.Some? && s.value != ""
  }

  /** `undefined` and the empty string are falsy; every other string is truthy. */
  lemma TruthyCases(s: Option<string>)
    ensures s.None? ==> !Truthy(s)
    ensures s == Some("") ==> !Truthy(s)
    ensures s.Some? && |s.value| > 0 ==> Truthy(s)
  {
  }

  /** A book of the user's collection. `rating` and `rd` are only compared and
      subtracted by the modelled code, so they are exact reals here. */
  datatype Book = Book(
    id: string,
    title: string,
    authors: seq<string>,
    thumbnail: string,
    comparisons: nat,
    rating: real,
    rd: real)

  /** Starting values of a book that has not been compared yet. */
  const InitialRating: real := 1500.0
  const InitialRd: real := 350.0

  predicate Unrated(b: Book)
  {
    b.rating == InitialRating && b.rd == InitialRd && b.comparisons == 0
  }

  /** No two books of the list share an id. */
  predicate UniqueIds(bs: seq<Book>)
  {
    forall i, j :: 0 <= i < j < |bs| ==> bs[i].id != bs[j].id
  }
}
