/** Turning one row of a Goodreads export into a Book (lib/importFromCSV.ts):
    the Open Library record that matches it best, chosen in tiers, or a book
    made from the CSV fields themselves. The two search requests are inputs
    here: each is either a failed response or the `docs` of its JSON body. */
module ImportFromCsv {
  import opened Books
  import opened Seqs
  import opened Text
  import opened Normalize

  /** One document of an Open Library search response; a field is None when the
      record does not carry it. */
  datatype Doc = Doc(key: string, title: Option<string>,
                     authorName: Option<seq<string>>, coverI: Option<int>)

  /** A search request: a response that is not `ok`, or the `docs` field of the
      body of one that is (None when the body has no `docs`). */
  datatype SearchResponse = Failed | Ok(docs: Option<seq<Doc>>)

  // ---------------------------------------------------------------------------
  // Cover URLs

  const CoverPrefix: string := "https://covers.openlibrary.org/b/id/"
  const CoverSuffix: string := "-M.jpg"

  /** The cover shown for a book without one of its own. */
  const PlaceholderCoverId: int := 10909258

  /** The medium-size cover image of cover `id`. */
  function CoverUrl(id: int): (r: string)
    ensures StartsWith(r, CoverPrefix)
    ensures |r| > |CoverPrefix| + |CoverSuffix| && r[|r| - |CoverSuffix|..] == CoverSuffix
    ensures r[|CoverPrefix|..|r| - |CoverSuffix|] == IntToString(id)
  {
    var r := CoverPrefix + IntToString(id) + CoverSuffix;
    assert r[..|CoverPrefix|] == CoverPrefix;
    assert r[|r| - |CoverSuffix|..] == CoverSuffix;
    assert r[|CoverPrefix|..|r| - |CoverSuffix|] == IntToString(id);
    r
  }

  /** The placeholder thumbnail, the URL of cover 10909258. */
  function PlaceholderThumbnail(): (r: string)
    ensures r == "https://covers.openlibrary.org/b/id/10909258-M.jpg"
  {
    CoverUrl(PlaceholderCoverId)
  }

  /** The placeholder names cover 10909258. */
  lemma PlaceholderCover()
    ensures CoverIdOf(PlaceholderThumbnail()) == Some(PlaceholderCoverId)
  {
    CoverUrlRoundTrip(PlaceholderCoverId);
  }

  /** Digits read as a number; None unless `s` is a non-empty run of digits. */
  function ParseNat(s: string): Option<nat>
  {
    if s != [] && forall k :: 0 <= k < |s| ==> IsDigit(s[k]) then Some(DigitsValue(s)) else None
  }

  /** An optional minus sign, then digits. */
  function ParseInt(s: string): Option<int>
  {
    if s != [] && s[0] == '-' then
      match ParseNat(s[1..])
      case None => None
      case Some(n) => Some(0 - n)
    else
      match ParseNat(s)
      case None => None
      case Some(n) => Some(n)
  }

  /** The cover id a cover URL names, if it is one. */
  function CoverIdOf(url: string): Option<int>
  {
    if |url| >= |CoverPrefix| + |CoverSuffix| && StartsWith(url, CoverPrefix)
       && url[|url| - |CoverSuffix|..] == CoverSuffix
    then ParseInt(url[|CoverPrefix|..|url| - |CoverSuffix|])
    else None
  }

  /** Reading an integer back from its rendering gives the integer. */
  lemma IntToStringParse(n: int)
    ensures ParseInt(IntToString(n)) == Some(n)
  {
    if n < 0 {
      var t := NatToString(-n);
      NatToStringValue(-n);
      assert ParseNat(t) == Some(-n);
      assert IntToString(n) == "-" + t && ("-" + t)[1..] == t;
    } else {
      var t := NatToString(n);
      NatToStringValue(n);
      assert ParseNat(t) == Some(n);
      assert IsDigit(t[0]);
    }
  }

  /** The cover id can be read back out of its URL. */
  lemma CoverUrlRoundTrip(id: int)
    ensures CoverIdOf(CoverUrl(id)) == Some(id)
  {
    var r := CoverUrl(id);
    assert r[|CoverPrefix|..|r| - |CoverSuffix|] == IntToString(id);
    IntToStringParse(id);
  }

  /** The thumbnail of a record: its cover when `cover_i` is truthy (present and
      not 0), the placeholder otherwise. */
  function Thumbnail(coverI: Option<int>): (r: string)
    ensures coverI.Some? && coverI.value != 0 ==> r == CoverUrl(coverI.value)
    ensures !(coverI.Some? && coverI.value != 0) ==> r == PlaceholderThumbnail()
    ensures CoverIdOf(r) == Some(if coverI.Some? && coverI.value != 0 then coverI.value else PlaceholderCoverId)
  {
    if coverI.Some? && coverI.value != 0 then
      CoverUrlRoundTrip(coverI.value);
      CoverUrl(coverI.value)
    else
      PlaceholderCover();
      PlaceholderThumbnail()
  }

  // ---------------------------------------------------------------------------
  // Building a Book

  /** `mapToBook(item)`: an unrated book with the record's key, title, authors
      and cover. */
  function MapToBook(doc: Doc): (b: Book)
    ensures Unrated(b) && b.id == doc.key
    ensures doc.title.Some? ==> b.title == doc.title.value
    ensures doc.authorName.Some? ==> b.authors == doc.authorName.value
    ensures doc.authorName.None? ==> b.authors == []
    ensures b.thumbnail == Thumbnail(doc.coverI)
    ensures CoverIdOf(b.thumbnail) ==
      Some(if doc.coverI.Some? && doc.coverI.value != 0 then doc.coverI.value else PlaceholderCoverId)
  {
    Book(doc.key, GetOr(doc.title, ""), GetOr(doc.authorName, []), Thumbnail(doc.coverI),
         0, InitialRating, InitialRd)
  }

  /** `mapCSVFallback(title, author)`, with the random UUID as a parameter: an
      unrated book with the placeholder cover, made from the trimmed CSV fields. */
  function MapCsvFallback(title: string, author: Option<string>, uuid: string): (b: Book)
    ensures Unrated(b) && StartsWith(b.id, "csv-") && b.id[4..] == uuid
    ensures b.title == Trim(title)
    ensures b.thumbnail == PlaceholderThumbnail()
    ensures CoverIdOf(b.thumbnail) == Some(PlaceholderCoverId)
    ensures b.authors == [] <==> !Truthy(author)
    ensures Truthy(author) ==> b.authors == [Trim(author.value)]
  {
    PlaceholderCover();
    var authors := if Truthy(author) then [Trim(author.value)] else [];
    Book("csv-" + uuid, Trim(title), authors, PlaceholderThumbnail(), 0, InitialRating, InitialRd)
  }

  // ---------------------------------------------------------------------------
  // Matching a record against the CSV row

  /** The normalised CSV title the records are matched against. */
  function CleanTitle(title: string): (r: string)
    ensures r == NormalizeTitle(title)
    ensures forall k :: 0 <= k < |r| ==> IsTitleChar(r[k])
    ensures NormalizeTitle(r) == r
  {
    NormalizeTitleIdempotent(title);
    NormalizeTitle(title)
  }

  /** The normalised CSV author; a missing author counts as "". */
  function CsvAuthor(author: Option<string>): (r: string)
    ensures r == NormalizeAuthor(GetOr(author, ""))
    ensures author.None? ==> r == ""
    ensures NormalizeAuthor(r) == r
  {
    NormalizeAuthorEmpty();
    NormalizeAuthorIdempotent(GetOr(author, ""));
    NormalizeAuthor(GetOr(author, ""))
  }

  /** Some author name of the record contains the CSV author once normalised. */
  predicate AuthorMatches(names: seq<string>, csvAuthor: string)
    ensures AuthorMatches(names, csvAuthor) ==> names != []
  {
    exists i | 0 <= i < |names| :: Includes(NormalizeAuthor(names[i]), csvAuthor)
  }

  /** The strict test: a non-empty title containing the CSV title once
      normalised, and an author matching. */
  predicate StrictMatch(clean: string, csvAuthor: string, doc: Doc)
    ensures StrictMatch(clean, csvAuthor, doc) ==> AuthorOnlyMatch(csvAuthor, doc)
    ensures StrictMatch(clean, csvAuthor, doc) ==> Truthy(doc.title)
  {
    Truthy(doc.title) && doc.authorName.Some?
    && Includes(NormalizeTitle(doc.title.value), clean)
    && AuthorMatches(doc.authorName.value, csvAuthor)
  }

  /** The author-only test. */
  predicate AuthorOnlyMatch(csvAuthor: string, doc: Doc)
    ensures AuthorOnlyMatch(csvAuthor, doc) ==> doc.authorName.Some? && doc.authorName.value != []
  {
    doc.authorName.Some? && AuthorMatches(doc.authorName.value, csvAuthor)
  }

  function Strict(clean: string, csvAuthor: string): Doc -> bool
  {
    d => StrictMatch(clean, csvAuthor, d)
  }

  function AuthorOnly(csvAuthor: string): Doc -> bool
  {
    d => AuthorOnlyMatch(csvAuthor, d)
  }

  /** The records of a search, none for a failed one. */
  function Found(res: SearchResponse): (docs: seq<Doc>)
    ensures res.Failed? || res.docs.None? ==> docs == []
    ensures res.Ok? && res.docs.Some? ==> docs == res.docs.value
  {
    match res
    case Failed => []
    case Ok(docs) => GetOr(docs, [])
  }

  /** The tiers of `fetchBookFromCSV` after a successful first search with
      records `docs`: the only strict match, else the only author-only match,
      else the only record of the title search, else `fallback`. */
  function SelectRecord(clean: string, csvAuthor: string, docs: seq<Doc>,
                        titleSearch: SearchResponse, fallback: Book): (b: Book)
    ensures b == fallback || Unrated(b)
    ensures b == fallback || exists d :: (d in docs || d in Found(titleSearch)) && b == MapToBook(d)
  {
    FilterMembers(docs, Strict(clean, csvAuthor));
    FilterMembers(docs, AuthorOnly(csvAuthor));
    var strict := Filter(docs, Strict(clean, csvAuthor));
    if |strict| == 1 then MapToBook(strict[0])
    else
      var byAuthor := Filter(docs, AuthorOnly(csvAuthor));
      if |byAuthor| == 1 then MapToBook(byAuthor[0])
      else if titleSearch.Ok? && |Found(titleSearch)| == 1 then MapToBook(Found(titleSearch)[0])
      else fallback
  }

  /** `fetchBookFromCSV(title, author)` once both searches have answered. The
      title search is only made, and so only looked at, when the first search
      succeeded and neither of its tiers decided. */
  function FetchBookFromCsv(title: string, author: Option<string>, primary: SearchResponse,
                            titleSearch: SearchResponse, uuid: string): (b: Book)
    ensures Unrated(b)
    ensures primary.Failed? ==> b == MapCsvFallback(title, author, uuid)
    ensures primary.Ok? ==>
      b == SelectRecord(NormalizeTitle(title), NormalizeAuthor(GetOr(author, "")), Found(primary),
                        titleSearch, MapCsvFallback(title, author, uuid))
  {
    var fallback := MapCsvFallback(title, author, uuid);
    if primary.Failed? then fallback
    else
      var clean, csvAuthor := CleanTitle(title), CsvAuthor(author);
      SelectRecord(clean, csvAuthor, Found(primary), titleSearch, fallback)
  }

  // ---------------------------------------------------------------------------
  // Properties

  /** A strict match is an author-only match. */
  lemma StrictImpliesAuthorOnly(clean: string, csvAuthor: string, docs: seq<Doc>)
    ensures forall d :: Strict(clean, csvAuthor)(d) ==> AuthorOnly(csvAuthor)(d)
    ensures |Filter(docs, Strict(clean, csvAuthor))| <= |Filter(docs, AuthorOnly(csvAuthor))|
  {
    FilterMonotone(docs, Strict(clean, csvAuthor), AuthorOnly(csvAuthor));
  }

  /** The empty text normalises to itself. */
  lemma NormalizeAuthorEmpty()
    ensures NormalizeAuthor("") == ""
  {
    assert Lower("") == "";
    assert Filter("", AuthorClass()) == "";
  }

  /** Without a CSV author every record with at least one author name passes the
      author test, and a record with an empty name list never does. */
  lemma NoAuthorMatchesAnyNamed(names: seq<string>)
    ensures AuthorMatches(names, CsvAuthor(None)) <==> names != []
  {
    NormalizeAuthorEmpty();
    if names != [] {
      IncludesEmpty(NormalizeAuthor(names[0]));
    }
  }

  /** A record that is the only strict match is the result. */
  lemma SelectStrict(clean: string, csvAuthor: string, docs: seq<Doc>,
                     titleSearch: SearchResponse, fallback: Book, i: nat)
    requires i < |docs| && StrictMatch(clean, csvAuthor, docs[i])
    requires forall j :: 0 <= j < |docs| && j != i ==> !StrictMatch(clean, csvAuthor, docs[j])
    ensures SelectRecord(clean, csvAuthor, docs, titleSearch, fallback) == MapToBook(docs[i])
  {
    FilterSingle(docs, Strict(clean, csvAuthor), i);
  }

  /** A record that is the only author-only match is the result, whether or not
      it also passes the strict test. */
  lemma SelectAuthorOnly(clean: string, csvAuthor: string, docs: seq<Doc>,
                         titleSearch: SearchResponse, fallback: Book, i: nat)
    requires i < |docs| && AuthorOnlyMatch(csvAuthor, docs[i])
    requires forall j :: 0 <= j < |docs| && j != i ==> !AuthorOnlyMatch(csvAuthor, docs[j])
    ensures SelectRecord(clean, csvAuthor, docs, titleSearch, fallback) == MapToBook(docs[i])
  {
    StrictImpliesAuthorOnly(clean, csvAuthor, docs);
    FilterSingle(docs, AuthorOnly(csvAuthor), i);
    if StrictMatch(clean, csvAuthor, docs[i]) {
      SelectStrict(clean, csvAuthor, docs, titleSearch, fallback, i);
    } else {
      FilterNone(docs, Strict(clean, csvAuthor));
    }
  }

  /** When neither the strict nor the author-only test singles out a record of the
      first search (none matches, or several do), a title search with exactly one
      record decides. */
  lemma SelectTitleOnly(clean: string, csvAuthor: string, docs: seq<Doc>, doc: Doc, fallback: Book)
    requires |Filter(docs, Strict(clean, csvAuthor))| != 1
    requires |Filter(docs, AuthorOnly(csvAuthor))| != 1
    ensures SelectRecord(clean, csvAuthor, docs, Ok(Some([doc])), fallback) == MapToBook(doc)
  {
  }

  /** In particular, a title search with one record decides when no record of the
      first search names a matching author. */
  lemma SelectTitleOnlyNoAuthor(clean: string, csvAuthor: string, docs: seq<Doc>, doc: Doc, fallback: Book)
    requires forall j :: 0 <= j < |docs| ==> !AuthorOnlyMatch(csvAuthor, docs[j])
    ensures SelectRecord(clean, csvAuthor, docs, Ok(Some([doc])), fallback) == MapToBook(doc)
  {
    StrictImpliesAuthorOnly(clean, csvAuthor, docs);
    FilterNone(docs, AuthorOnly(csvAuthor));
    SelectTitleOnly(clean, csvAuthor, docs, doc, fallback);
  }

  /** When neither test of the first search singles out a record and the title
      search fails or does not have exactly one record, the fallback is used. */
  lemma SelectFallback(clean: string, csvAuthor: string, docs: seq<Doc>,
                       titleSearch: SearchResponse, fallback: Book)
    requires |Filter(docs, Strict(clean, csvAuthor))| != 1
    requires |Filter(docs, AuthorOnly(csvAuthor))| != 1
    requires |Found(titleSearch)| != 1
    ensures SelectRecord(clean, csvAuthor, docs, titleSearch, fallback) == fallback
  {
  }

  /** An ambiguous author match (two records naming the author, none passing the
      strict test) goes on to the title search. */
  lemma AmbiguousAuthorGoesToTitleSearch(clean: string, csvAuthor: string, docs: seq<Doc>,
                                         titleSearch: SearchResponse, fallback: Book, i: nat, j: nat)
    requires i < j < |docs|
    requires AuthorOnlyMatch(csvAuthor, docs[i]) && AuthorOnlyMatch(csvAuthor, docs[j])
    requires forall k :: 0 <= k < |docs| ==> !StrictMatch(clean, csvAuthor, docs[k])
    ensures SelectRecord(clean, csvAuthor, docs, titleSearch, fallback) ==
      if titleSearch.Ok? && |Found(titleSearch)| == 1 then MapToBook(Found(titleSearch)[0]) else fallback
  {
    assert AuthorOnly(csvAuthor)(docs[i]) && AuthorOnly(csvAuthor)(docs[j]);
    FilterTwo(docs, AuthorOnly(csvAuthor), i, j);
    assert forall k :: 0 <= k < |docs| ==> !Strict(clean, csvAuthor)(docs[k]);
    FilterNone(docs, Strict(clean, csvAuthor));
    if titleSearch.Ok? && |Found(titleSearch)| == 1 {
    } else {
      SelectFallback(clean, csvAuthor, docs, titleSearch, fallback);
    }
  }

  /** The result is a record of one of the two searches or the fallback. */
  lemma SelectProvenance(clean: string, csvAuthor: string, docs: seq<Doc>,
                         titleSearch: SearchResponse, fallback: Book)
    returns (d: Option<Doc>)
    ensures d.None? ==> SelectRecord(clean, csvAuthor, docs, titleSearch, fallback) == fallback
    ensures d.Some? ==> SelectRecord(clean, csvAuthor, docs, titleSearch, fallback) == MapToBook(d.value)
    ensures d.Some? ==> d.value in docs || d.value in Found(titleSearch)
  {
    var strict := Filter(docs, Strict(clean, csvAuthor));
    var byAuthor := Filter(docs, AuthorOnly(csvAuthor));
    FilterMembers(docs, Strict(clean, csvAuthor));
    FilterMembers(docs, AuthorOnly(csvAuthor));
    if |strict| == 1 {
      d := Some(strict[0]);
    } else if |byAuthor| == 1 {
      d := Some(byAuthor[0]);
    } else if titleSearch.Ok? && |Found(titleSearch)| == 1 {
      d := Some(Found(titleSearch)[0]);
    } else {
      d := None;
    }
  }
}
