# Rank Your Books — a verified model of the core

Rank Your Books lets a reader import the books they read (from a Goodreads CSV
export, matched against Open Library), keeps the selection in a persisted store,
and ranks the books through a quiz of head-to-head comparisons. This project
models the parts of that program that decide things:

- **Pair selection** (`lib/generatePairs.ts`, module `GeneratePairs`). `PairKey`
  is the order-free key of two ids. `PickPair` is the nested search of `pickPair`,
  kept as a method with loops. It is proved against a declarative description
  (`IsPick`). The first book is the most uncertain book (largest `rd`, earliest
  on ties, as the stable sort gives) that still has an unseen partner. The second
  is that book's unseen partner closest in rating. The answer is "none" exactly
  when every pair has been seen. The quiz loop of `app/quiz/page.tsx` (pick a
  pair, mark its key as seen, repeat) is the method `Session`. Over books with
  distinct, bar-free ids it shows every pair exactly once: n·(n−1)/2 pairs.
- **The book store** (`store/useBookStore.ts`, module `BookStore`). It is a class
  with the fields `books` and `yearFilter`. Each reducer is a method whose new
  state is given by a pure function (`WithBook`, `WithBooks`, `WithoutId`,
  `Replaced`). The lemmas beside those functions prove what the reducers promise:
  adding is idempotent, removing undoes adding, an update touches only the
  matching id, and distinct ids stay distinct. They also prove that `addBooks`
  does *not* remove duplicates inside one batch (`WithBooksKeepsDuplicates`).
- **Reading a Goodreads export** (`lib/parseGoodreadsCSV.ts`, module
  `GoodreadsCsv`). It covers the map from CSV rows to trimmed entries and the
  filter that keeps read books, optionally of one year.
- **Importing a CSV row** (`lib/importFromCSV.ts`, modules `Normalize` and
  `ImportFromCsv`).
  - The two normalisations are modelled step by step. They cover
    `toLowerCase`, the four regular-expression replacements (lazy bracket
    removal, the cut at the first dash and at the first colon, and the character
    classes under the `i` flag) and `trim`.
  - The normalisations are proved idempotent. A subtitle after a colon or after a
    spaced dash is proved not to change the normalised title, whatever the case
    of either part. A bracketed group is proved to be removed up to its first
    closing bracket, as the lazy pattern does.
  - `mapToBook` and `mapCSVFallback` build the book. The cover URL is proved to
    round-trip its cover id.
  - The tier selection of `fetchBookFromCSV` is modelled as a pure function of
    the two search responses. Each tier is characterised by the number of
    records that match it: a unique strict match, then a unique author-only
    match, then a unique title-only result, then the fallback. An ambiguous
    author match (two or more records by the author, none matching strictly) is
    proved to go on to the title-only search.

Shared pieces: `Books` (the `Book` record of `types/book.ts`, `Option`, JavaScript
truthiness of an optional string), `Seqs` (`Array.prototype.filter` and the stable
`Array.prototype.sort` with a numeric comparator, proved sorted, a permutation and
stable), and `Text` (ECMAScript white space, `trim`, `startsWith`, `includes`, and
integers in template strings).

Inputs that come from outside are parameters:
- the responses of the two Open Library searches (`SearchResponse`);
- the UUID of a fallback book;
- the CSV rows, already split into named columns.

## Model

| member | source | states |
|---|---|---|
| Books.GetOr | lib/importFromCSV.ts:24 | `o ?? otherwise`: the value when present, the default otherwise |
| Books.TruthyCases | lib/parseGoodreadsCSV.ts:32-35 | JavaScript truthiness of an optional string: `undefined` and "" are falsy, every other string is truthy |
| Seqs.Filter | store/useBookStore.ts:46 | `filter` keeps only passing elements and never grows the list |
| Seqs.FilterMembers | lib/generatePairs.ts:14-15 | everything kept comes from the input, and every passing element is kept |
| Seqs.FilterConcat | lib/parseGoodreadsCSV.ts:31-43 | filtering a concatenation filters each part, so order is kept |
| Seqs.FilterAll | lib/parseGoodreadsCSV.ts:31-43 | when every element passes, the filter returns its input |
| Seqs.FilterNone | lib/importFromCSV.ts:66-75 | when nothing passes, the filter returns the empty list |
| Seqs.FilterMonotone | lib/importFromCSV.ts:66-86 | a weaker test keeps at least as many elements |
| Seqs.FilterSingle | lib/importFromCSV.ts:77-79 | a one-element result `[s[i]]` holds exactly when `i` is the only passing position |
| Seqs.FilterAround | lib/importFromCSV.ts:77-79 | the filter of a list is the filter of what comes before position `i`, then `s[i]` if it passes, then the filter of the rest |
| Seqs.FilterCons | lib/importFromCSV.ts:66-75 | filtering a list with one element in front keeps that element exactly when it passes |
| Seqs.FilterTwo | lib/importFromCSV.ts:88 | two passing positions give at least two kept elements, so the length test `=== 1` fails |
| Seqs.MinIndex | lib/generatePairs.ts:11 | the first position of least key: no key is smaller, and every earlier key is larger |
| Seqs.SortBy | lib/generatePairs.ts:11 | the sort returns a permutation of its input of the same length |
| Seqs.SortBySorted | lib/generatePairs.ts:11 | the sorted copy is ordered by key |
| Seqs.SortByMembers | lib/generatePairs.ts:11 | the sorted copy has the same members as the input |
| Seqs.SortByStable | lib/generatePairs.ts:16-18 | the sort is stable: the elements of any one key keep their relative order |
| Seqs.SortedFirst | lib/generatePairs.ts:20-24 | the first element of the sorted copy that passes a test has a smaller key than every other passing element, or the same key and an earlier position |
| Text.IsSpace | lib/importFromCSV.ts:10 | the white space `trim()` and `\s` see includes every line terminator, space, tab and no-break space, and no digit or Latin letter |
| Text.SpacesFrom | lib/parseGoodreadsCSV.ts:26 | the first non-space position from `i` on, with only white space before it |
| Text.SpacesBefore | lib/parseGoodreadsCSV.ts:26 | the end of `s[..j]` without trailing white space, with only white space after it |
| Text.TrimStart | lib/importFromCSV.ts:10 | a suffix of the input that starts with a non-space, after only white space |
| Text.TrimEnd | lib/importFromCSV.ts:10 | a prefix of the input that ends with a non-space, before only white space |
| Text.Trim | lib/parseGoodreadsCSV.ts:26 | `trim()` returns a text no longer than the input with no white space at either end |
| Text.TrimInfix | lib/importFromCSV.ts:38 | what `trim()` keeps is an infix of the input with only white space around it |
| Text.TrimIdempotent | lib/importFromCSV.ts:38 | trimming twice is trimming once |
| Text.TrimEmpty | lib/parseGoodreadsCSV.ts:32 | `trim()` gives the empty text exactly when the input is all white space |
| Text.TrimEndAppendSpaces | lib/importFromCSV.ts:10 | white space appended to a text is removed again by trimming the end |
| Text.TrimAppendSpaces | lib/importFromCSV.ts:10 | white space appended to a text does not change its trim |
| Text.StartsWith | lib/parseGoodreadsCSV.ts:39 | `startsWith` holds exactly when the prefix fits and the text begins with it |
| Text.Includes | lib/importFromCSV.ts:69 | `includes` holds exactly when the needle occurs at some position of the text |
| Text.IncludesEmpty | lib/importFromCSV.ts:71 | every text includes the empty text |
| Text.NatToString | lib/importFromCSV.ts:26 | the decimal digits of a number: non-empty, digits only, no leading zero |
| Text.NatToStringValue | lib/importFromCSV.ts:26 | reading the decimal digits back gives the number |
| Text.IntToString | lib/importFromCSV.ts:26 | an integer renders with a leading minus exactly when it is negative |
| GeneratePairs.Before | lib/generatePairs.ts:4 | the default string order of `sort()`: never between equal strings, and a proper prefix comes first |
| GeneratePairs.BeforeLexicographic | lib/generatePairs.ts:4 | the order is lexicographic: a proper prefix comes first, otherwise the first differing character decides |
| GeneratePairs.FirstCharDiffers | lib/generatePairs.ts:4 | when the first characters differ, they alone decide |
| GeneratePairs.SameFirstChar | lib/generatePairs.ts:4 | a shared first character does not change the comparison of the rest |
| GeneratePairs.BeforeTrichotomy | lib/generatePairs.ts:4 | the default string order is a strict total order |
| GeneratePairs.PairKey | lib/generatePairs.ts:3-5 | the key is the two ids joined by a bar, in one order or the other |
| GeneratePairs.PairKeyOrdered | lib/generatePairs.ts:4 | the id that sorts first comes first in the key |
| GeneratePairs.PairKeySymmetric | lib/generatePairs.ts:3-5 | `pairKey(a, b) == pairKey(b, a)` |
| GeneratePairs.BarIndex | lib/generatePairs.ts:4 | the position of the first bar of a key, within the key |
| GeneratePairs.BarIndexAfter | lib/generatePairs.ts:4 | in `lo + "|" + hi` with no bar in `lo`, the first bar follows `lo` |
| GeneratePairs.SplitAtBar | lib/generatePairs.ts:4 | `lo + "|" + hi` determines `lo` and `hi` when `lo` holds no bar |
| GeneratePairs.PairKeyInjective | lib/generatePairs.ts:3-5 | for bar-free ids, equal keys mean the same unordered pair of ids |
| GeneratePairs.Abs | lib/generatePairs.ts:17 | `Math.abs`: non-negative and equal to the input or its negation |
| GeneratePairs.ByRd | lib/generatePairs.ts:11 | the copy sorted by `b.rd - a.rd` is a permutation of the books with `rd` not increasing |
| GeneratePairs.Candidates | lib/generatePairs.ts:14-18 | the candidates of `a` are exactly the books with another id, sorted by distance from `a`'s rating |
| GeneratePairs.CandidateIn | lib/generatePairs.ts:14-15 | every candidate of `a` is a book of the list with another id |
| GeneratePairs.PartnerIsCandidate | lib/generatePairs.ts:14-15 | every book with an id other than `a`'s is a candidate of `a` |
| GeneratePairs.CandidateMembers | lib/generatePairs.ts:14-18 | the candidates of `a` are exactly the books with another id |
| GeneratePairs.NoPartnerStep | lib/generatePairs.ts:13 | the outer-loop invariant advances past a book without unseen partner |
| GeneratePairs.NoUnseenPartner | lib/generatePairs.ts:20-25 | when every candidate's pair is seen, `a` has no unseen partner |
| GeneratePairs.AllExhausted | lib/generatePairs.ts:28-29 | when no book of the rd order has an unseen partner, every pair is seen |
| GeneratePairs.FilterPosition | lib/generatePairs.ts:14-15 | a kept element's position in the filtered list, with only earlier input elements before it |
| GeneratePairs.ChosenFirst | lib/generatePairs.ts:11-13 | the first book of the rd order with an unseen partner is the most uncertain such book |
| GeneratePairs.ChosenSecond | lib/generatePairs.ts:14-24 | the first unseen candidate is the closest unseen partner, the earliest one on a tie |
| GeneratePairs.ChosenPair | lib/generatePairs.ts:13-23 | the pair returned at that point is a valid pick and not every pair has been seen |
| GeneratePairs.FirstUnseen | lib/generatePairs.ts:20-24 | the inner loop stops at the first candidate whose key is unseen, with all earlier keys seen |
| GeneratePairs.PickPair | lib/generatePairs.ts:7-30 | `null` exactly when every pair of distinct-id books is seen, so always `null` for fewer than two books; otherwise the most uncertain book with an unseen partner and its closest unseen partner |
| GeneratePairs.FirstPickMostUncertain | lib/generatePairs.ts:11-13 | on a fresh quiz over distinct ids the first book has the largest `rd` of all |
| GeneratePairs.KeysWithWitness | lib/generatePairs.ts:3-5 | each key made with `x` is the key of `x` and a book of the list with another id |
| GeneratePairs.KeysWithComplete | lib/generatePairs.ts:3-5 | each book with another id than `x` contributes its key with `x` |
| GeneratePairs.AllKeysWitness | lib/generatePairs.ts:3-5 | each key of the list is the key of two of its books with different ids |
| GeneratePairs.AllKeysComplete | lib/generatePairs.ts:3-5 | the key of any two books with different ids is a key of the list |
| GeneratePairs.ExhaustedIffAllKeysSeen | lib/generatePairs.ts:28-29 | every pair is seen exactly when all the keys of the list are seen |
| GeneratePairs.PickAddsNewKey | app/quiz/page.tsx:55-59 | marking a pick adds a key of the list that was not seen before |
| GeneratePairs.MarkStep | app/quiz/page.tsx:55-59 | marking a new key adds exactly one marked key and leaves fewer unseen |
| GeneratePairs.SessionEnd | app/quiz/page.tsx:25-28 | when the quiz ends, the seen keys are the old ones plus every key of the list |
| GeneratePairs.AppendShown | app/quiz/page.tsx:25-31 | showing a pair with an unmarked key keeps the shown keys distinct |
| GeneratePairs.Session | app/quiz/page.tsx:19-32 | the pick-then-mark loop ends with every pair seen and shows each unseen pair exactly once |
| GeneratePairs.AllKeysCount | app/quiz/page.tsx:19-32 | over `n` books with distinct, bar-free ids there are `n·(n−1)/2` keys |
| GeneratePairs.KeyNotNew | lib/generatePairs.ts:3-5 | a key among the earlier books is not a key with the last book |
| GeneratePairs.KeysWithCount | lib/generatePairs.ts:3-5 | a new bar-free id makes one new key with each book |
| BookStore.HasId | store/useBookStore.ts:28 | `some(b => b.id === id)` is true exactly when some book has the id |
| BookStore.WithBook | store/useBookStore.ts:26-31 | the list grows by the book at the end exactly when its id is absent, and afterwards the id is present |
| BookStore.IdsOf | store/useBookStore.ts:35 | the id set holds exactly the ids of the list |
| BookStore.WithBooks | store/useBookStore.ts:33-42 | the old list is a prefix, and every appended book has an id the old list lacks |
| BookStore.WithoutId | store/useBookStore.ts:44-47 | no book with the id remains, and the list does not grow |
| BookStore.Replaced | store/useBookStore.ts:53-56 | same length and ids; a book with the updated id becomes the update, every other book stays |
| BookStore.WithBookIdempotent | store/useBookStore.ts:28-29 | adding a present id changes nothing, so adding twice is adding once |
| BookStore.WithBookUnique | store/useBookStore.ts:26-31 | adding keeps ids distinct |
| BookStore.RemoveUndoesAdd | store/useBookStore.ts:44-47 | removing the id of a book just added restores the list |
| BookStore.WithBooksMembers | store/useBookStore.ts:37-40 | the appended books are exactly the new books whose id the old list lacks |
| BookStore.WithBooksAllNew | store/useBookStore.ts:37-40 | with no shared ids, every new book is appended, in order |
| BookStore.WithBooksUnique | store/useBookStore.ts:33-42 | distinct old ids and distinct new ids give distinct ids |
| BookStore.FilterUnique | store/useBookStore.ts:46 | filtering keeps ids distinct |
| BookStore.WithBooksKeepsDuplicates | store/useBookStore.ts:35-40 | two new books sharing an absent id are both appended, so ids are no longer distinct |
| BookStore.WithoutIdKeeps | store/useBookStore.ts:44-47 | every other book is kept and nothing else; removing an absent id changes nothing |
| BookStore.ReplacedProperties | store/useBookStore.ts:53-56 | updating an absent id changes nothing, keeps ids distinct and keeps a present id present |
| BookStore.ReplacedIdempotent | store/useBookStore.ts:53-56 | applying the same update twice is applying it once |
| BookStore.BookStore.constructor | store/useBookStore.ts:21-23 | the store starts with no books and the year filter 2025 |
| BookStore.BookStore.SetYearFilter | store/useBookStore.ts:24 | sets the year filter and keeps the books |
| BookStore.BookStore.AddBook | store/useBookStore.ts:26-31 | stores the added list, afterwards the id is selected, and distinct ids stay distinct |
| BookStore.BookStore.AddBooks | store/useBookStore.ts:33-42 | stores the list with the new ids appended, keeping distinct ids when the batch is distinct |
| BookStore.BookStore.RemoveBook | store/useBookStore.ts:44-47 | stores the list without the id, after which the id is not selected |
| BookStore.BookStore.IsSelected | store/useBookStore.ts:49-51 | true exactly when a stored book has the id |
| BookStore.BookStore.UpdateBook | store/useBookStore.ts:53-56 | stores the updated list and keeps distinct ids distinct |
| BookStore.BookStore.Reset | store/useBookStore.ts:58 | no books and the year filter 2025 again |
| GoodreadsCsv.Column | lib/parseGoodreadsCSV.ts:26-29 | a column is present exactly when the row has it, and its value is the trimmed column text |
| GoodreadsCsv.ToEntry | lib/parseGoodreadsCSV.ts:25-30 | each field is present exactly when its column is, and holds the trimmed column text |
| GoodreadsCsv.HasValidDate | lib/parseGoodreadsCSV.ts:34-35 | a read date that is present, not empty and not "not set" |
| GoodreadsCsv.Keep | lib/parseGoodreadsCSV.ts:31-43 | a kept entry has a title and a valid date or the shelf "read"; with a year, a valid date starting with it; an untitled entry is never kept |
| GoodreadsCsv.Entries | lib/parseGoodreadsCSV.ts:24-30 | one entry per row, in row order |
| GoodreadsCsv.ParseRows | lib/parseGoodreadsCSV.ts:24-43 | never more entries than rows; each kept entry has a title and passes the filter |
| GoodreadsCsv.KeepWithYear | lib/parseGoodreadsCSV.ts:37-40 | with a year, an entry is kept exactly when it has a title and a valid read date starting with that year |
| GoodreadsCsv.KeepWithoutYear | lib/parseGoodreadsCSV.ts:32-42 | without a year, an entry is kept exactly when it has a title and a valid read date or the shelf "read" |
| GoodreadsCsv.YearNarrows | lib/parseGoodreadsCSV.ts:37-42 | choosing a year never keeps more entries |
| GoodreadsCsv.ParseRowsConcat | lib/parseGoodreadsCSV.ts:24-43 | rows are handled independently, in order |
| GoodreadsCsv.EntriesConcat | lib/parseGoodreadsCSV.ts:25-30 | mapping a concatenation maps each part |
| GoodreadsCsv.ParseRowsMembers | lib/parseGoodreadsCSV.ts:24-43 | every result comes from a row, and every row that passes is in the result |
| GoodreadsCsv.ShelfReadKept | lib/parseGoodreadsCSV.ts:42 | without a year, a titled row on the shelf "read" is kept even with no read date |
| GoodreadsCsv.NotSetExcluded | lib/parseGoodreadsCSV.ts:34-38 | with a year, a read date of "not set" is never kept |
| Normalize.LowerChar | lib/importFromCSV.ts:5 | each upper-case letter of the kept alphabet maps to its lower case (A-Z to a-z, Ç to ç, Ö to ö, Ü to ü, Ğ to ğ, Ş to ş, İ to i with a combining dot, the Kelvin sign to k), and every other character is unchanged |
| Normalize.Lower | lib/importFromCSV.ts:5 | `toLowerCase()` leaves no upper-case letter of the kept alphabet; without İ it maps the text character by character, keeping its length |
| Normalize.LowerCons | lib/importFromCSV.ts:5 | the lower case of the first character followed by the lower case of the rest is the lower case of the text, character by character |
| Normalize.LowerLetters | lib/importFromCSV.ts:5 | a text lowers to `t` when each of its characters lowers to the character of `t` at the same position |
| Normalize.CloseIndex | lib/importFromCSV.ts:6 | the lazy `.*?\)`: the first `)` from the position on, with neither a `)` nor a line terminator before it, or none when every `)` is behind a line terminator |
| Normalize.StripParens | lib/importFromCSV.ts:6 | removing bracketed parts never lengthens the text (the lazy, left-to-right removal is stated by `StripParensPair`) |
| Normalize.StripParensChars | lib/importFromCSV.ts:6 | removing bracketed parts adds no character |
| Normalize.StripParensNoOpen | lib/importFromCSV.ts:6 | without `(` nothing is removed |
| Normalize.StripParensPrefix | lib/importFromCSV.ts:6 | text before the first `(` passes through unchanged |
| Normalize.CloseIndexAt | lib/importFromCSV.ts:6 | the lazy search stops at the first `)` when no line terminator comes before it |
| Normalize.StripParensGroup | lib/importFromCSV.ts:6 | a group `(m)` closed on its line is removed with its brackets, and the scan goes on after it |
| Normalize.StripParensPair | lib/importFromCSV.ts:6 | `a + "(" + m + ")" + c` becomes `a` followed by the removal applied to `c`: only the text up to the first `)` goes |
| Normalize.DropLeading | lib/importFromCSV.ts:6 | "every `)` is behind a line terminator" survives dropping a leading ordinary character |
| Normalize.AddLeading | lib/importFromCSV.ts:6 | the same property survives prepending an ordinary character |
| Normalize.LeadingBreak | lib/importFromCSV.ts:6 | a text starting with a line terminator has the property |
| Normalize.OpenNotClosed | lib/importFromCSV.ts:6 | an unclosed leading `(` leaves every later `)` behind a line terminator |
| Normalize.StripParensKeepsBreaks | lib/importFromCSV.ts:6 | the removal keeps the property |
| Normalize.NoCloseAfterOpen | lib/importFromCSV.ts:6 | under the property a leading `(` finds no `)` |
| Normalize.StripParensNoPair | lib/importFromCSV.ts:6 | after the global replacement, no `(` is followed on its line by a `)` |
| Normalize.ConsNoPair | lib/importFromCSV.ts:6 | a character in front keeps "no bracket pair on a line" when a `(` there finds no `)` |
| Normalize.TailMatches | lib/importFromCSV.ts:7-8 | `\s*.*$` matches at a position exactly when no line terminator follows its white space |
| Normalize.SepMatchAt | lib/importFromCSV.ts:7-8 | for separators that are not white space, `\s*SEP\s*.*$` matches at a position exactly when the first non-space character there is a separator followed by a matching tail |
| Normalize.FirstSepMatch | lib/importFromCSV.ts:7-8 | the leftmost position where `\s*SEP\s*.*$` matches, or none when it matches nowhere |
| Normalize.CutSep | lib/importFromCSV.ts:7-8 | the replacement keeps a prefix of the text |
| Normalize.NoMatchBefore | lib/importFromCSV.ts:7-8 | no match starts where the first non-space character is not a separator |
| Normalize.NoMatchInHead | lib/importFromCSV.ts:7-8 | no match starts before the last non-space character ahead of the first separator |
| Normalize.SpacesThenSep | lib/importFromCSV.ts:7-8 | white space, a separator and a matching tail make a match |
| Normalize.CutAtFirstSep | lib/importFromCSV.ts:7-8 | on one line the text is cut at its first separator, white space before it included |
| Normalize.NextNonSpace | lib/importFromCSV.ts:7-8 | the first non-space character from a position, with only white space before it |
| Normalize.FirstSepFrom | lib/importFromCSV.ts:7-8 | a match with none before it is the leftmost match |
| Normalize.NoSepNoMatch | lib/importFromCSV.ts:7-8 | without a separator from a position on there is no match from there |
| Normalize.NoSepUnchanged | lib/importFromCSV.ts:7-8 | without a separator the text is unchanged |
| Normalize.KeepAndTrim | lib/importFromCSV.ts:9-10 | keeping a class and trimming a lower-cased text leaves only the allowed characters |
| Normalize.TitleClass | lib/importFromCSV.ts:9 | `[^a-z0-9çğıöşü\s]` under `i` removes exactly the characters that are not title characters or their kept upper case |
| Normalize.AuthorClass | lib/importFromCSV.ts:16 | `[^a-zçğıöşü\s]` under `i` removes exactly the characters that are not author characters or their kept upper case |
| Normalize.NormalizeTitle | lib/importFromCSV.ts:3-11 | a normalised title holds only kept lower-case letters, digits and white space, and is trimmed |
| Normalize.NormalizeAuthor | lib/importFromCSV.ts:13-18 | a normalised author holds only kept lower-case letters and white space, and is trimmed |
| Normalize.TrimTrimmed | lib/importFromCSV.ts:10 | a trimmed text is its own trim |
| Normalize.NormalizeTitleFixed | lib/importFromCSV.ts:3-11 | a trimmed text of title characters is left unchanged |
| Normalize.TitleCharsPass | lib/importFromCSV.ts:5-9 | title characters are not upper case, brackets, dashes or colons, and pass the class |
| Normalize.NormalizeTitleIdempotent | lib/importFromCSV.ts:3-11 | normalising a title twice is normalising it once |
| Normalize.NormalizeAuthorFixed | lib/importFromCSV.ts:13-18 | a trimmed text of author characters is left unchanged |
| Normalize.NormalizeAuthorIdempotent | lib/importFromCSV.ts:13-18 | normalising an author twice is normalising it once |
| Normalize.SubtitleDropped | lib/importFromCSV.ts:8 | `main + ": " + sub` normalises to `main` for a normalised one-line `main` |
| Normalize.SubtitleCut | lib/importFromCSV.ts:5-8 | the steps before the class filter reduce `main + ": " + sub` to `main` without trailing white space |
| Normalize.SubtitleChars | lib/importFromCSV.ts:5-8 | the characters of `main + ": " + sub` pass the earlier steps and the first colon follows `main` |
| Normalize.LowerAppend | lib/importFromCSV.ts:5 | `toLowerCase` works character by character: it distributes over concatenation |
| Normalize.LowerKeepsOut | lib/importFromCSV.ts:5 | a kind of character that lower-casing never produces stays absent |
| Normalize.LowerPlain | lib/importFromCSV.ts:5 | lower-casing adds no bracket, dash, line terminator or colon |
| Normalize.LowerAround | lib/importFromCSV.ts:5 | a separator without upper case passes lower-casing unchanged between the two lower-cased parts |
| Normalize.NormalizePlainTitle | lib/importFromCSV.ts:3-11 | a title with no bracket, dash, colon or line terminator is only lower-cased, class-filtered and trimmed |
| Normalize.KeepTrimEnd | lib/importFromCSV.ts:9-10 | trailing white space removed before the class filter makes no difference after the final trim |
| Normalize.TrimEndNoColon | lib/importFromCSV.ts:8 | without a colon, the colon cut leaves a text unchanged |
| Normalize.ColonJoinChars | lib/importFromCSV.ts:6-8 | `x + ": " + y` has no `(`, no dash and no line terminator, and no colon inside `x` |
| Normalize.ColonCutRaw | lib/importFromCSV.ts:8 | the colon cut takes `x + ": " + y` back to `x` without trailing white space |
| Normalize.ColonCutJoined | lib/importFromCSV.ts:6-8 | the bracket removal and both cuts take `x + ": " + y` back to `x` without trailing white space |
| Normalize.ColonCut | lib/importFromCSV.ts:5-8 | the steps before the class filter reduce `main + ": " + sub` to the lower case of `main` without trailing white space, in any case |
| Normalize.ColonSubtitleIgnored | lib/importFromCSV.ts:3-11 | a subtitle after a colon does not change the normalised title, whatever the case of either part |
| Normalize.DashJoinChars | lib/importFromCSV.ts:6-7 | `x + " — " + y` has no `(` and no line terminator, and its first dash is the one after `x` |
| Normalize.DashCutRaw | lib/importFromCSV.ts:7 | the dash cut takes `x + " — " + y` back to `x + " "` without trailing white space |
| Normalize.DashCutJoined | lib/importFromCSV.ts:6-7 | the bracket removal and the dash cut take `x + " — " + y` back to `x` without trailing white space |
| Normalize.DashCut | lib/importFromCSV.ts:5-8 | the steps before the class filter reduce `main + " — " + sub` (any of the three dashes) to the lower case of `main` without trailing white space |
| Normalize.DashSubtitleIgnored | lib/importFromCSV.ts:3-11 | a subtitle after a spaced dash does not change the normalised title, whatever its case |
| Normalize.HobbitSubtitleIgnored | __tests__/fetchBookFromCSV.test.ts:128-145 | "The Hobbit: Illustrated" normalises as "The Hobbit" does |
| Normalize.SameLowerSameTitle | lib/importFromCSV.ts:3-11 | titles with the same lower case normalise alike, so matching ignores case |
| Normalize.LowerHobbit | lib/importFromCSV.ts:5 | "The Hobbit" lowers to "the hobbit" |
| Normalize.HobbitFixed | lib/importFromCSV.ts:3-11 | "the hobbit" is already normalised |
| Normalize.HobbitNormalised | __tests__/fetchBookFromCSV.test.ts:128-145 | "The Hobbit: Illustrated" normalises to "the hobbit" |
| ImportFromCsv.CoverUrl | lib/importFromCSV.ts:26 | a cover URL starts with the covers prefix, ends with `-M.jpg`, and between them holds exactly the decimal rendering of the cover id |
| ImportFromCsv.PlaceholderThumbnail | lib/importFromCSV.ts:27 | the placeholder is exactly the literal URL `https://covers.openlibrary.org/b/id/10909258-M.jpg` |
| ImportFromCsv.PlaceholderCover | lib/importFromCSV.ts:27 | the placeholder thumbnail names cover 10909258 |
| ImportFromCsv.IntToStringParse | lib/importFromCSV.ts:26 | reading back the rendering of an integer gives the integer |
| ImportFromCsv.CoverUrlRoundTrip | lib/importFromCSV.ts:26 | the cover id can be read back out of its URL |
| ImportFromCsv.Thumbnail | lib/importFromCSV.ts:25-27 | the thumbnail is exactly the cover URL of `cover_i` when `cover_i` is truthy, exactly the placeholder URL otherwise, and the cover id read back from it is that cover |
| ImportFromCsv.MapToBook | lib/importFromCSV.ts:20-32 | an unrated book with the record's key, title and authors (none when missing), whose thumbnail is exactly the thumbnail URL of the record's `cover_i` |
| ImportFromCsv.MapCsvFallback | lib/importFromCSV.ts:35-45 | an unrated book with id `csv-` + UUID, the trimmed title, exactly the placeholder thumbnail URL, and the trimmed author exactly when the author is truthy |
| ImportFromCsv.CleanTitle | lib/importFromCSV.ts:51 | the CSV title after `normalizeTitle(title)`: only title characters, and a fixed point of the normalisation |
| ImportFromCsv.CsvAuthor | lib/importFromCSV.ts:52 | `normalizeAuthor(author ?? "")`: empty for a missing author, and a fixed point of the normalisation |
| ImportFromCsv.AuthorMatches | lib/importFromCSV.ts:70-72 | some author name contains the CSV author once normalised; never for an empty name list |
| ImportFromCsv.StrictMatch | lib/importFromCSV.ts:66-75 | a strict match has a title and is also an author-only match |
| ImportFromCsv.AuthorOnlyMatch | lib/importFromCSV.ts:82-86 | an author-only match has a non-empty list of author names |
| ImportFromCsv.Found | lib/importFromCSV.ts:61-63 | `data.docs ?? []`: the records of a successful search, none for a failed search or a missing list |
| ImportFromCsv.SelectRecord | lib/importFromCSV.ts:61-117 | the chosen book is the fallback, or an unrated book mapped from a record of the first search or of the title search |
| ImportFromCsv.FetchBookFromCsv | lib/importFromCSV.ts:47-125 | the result is unrated; a failed first search gives the CSV fallback; otherwise the tier choice over the normalised title and author, the two searches and the CSV fallback |
| ImportFromCsv.StrictImpliesAuthorOnly | lib/importFromCSV.ts:66-86 | a strict match is an author-only match, so there are never more strict matches than author-only ones |
| ImportFromCsv.NormalizeAuthorEmpty | lib/importFromCSV.ts:52 | the missing author normalises to the empty text |
| ImportFromCsv.NoAuthorMatchesAnyNamed | lib/importFromCSV.ts:52 | without a CSV author, a record passes the author test exactly when it has an author name |
| ImportFromCsv.SelectStrict | lib/importFromCSV.ts:66-79 | the only strict match is the result |
| ImportFromCsv.SelectAuthorOnly | lib/importFromCSV.ts:82-95 | the only author-only match is the result, whether or not it also matches strictly |
| ImportFromCsv.SelectTitleOnly | lib/importFromCSV.ts:98-116 | when neither the strict nor the author-only test singles out one record (none or several match), a title search with one record decides |
| ImportFromCsv.SelectTitleOnlyNoAuthor | lib/importFromCSV.ts:82-116 | in particular when no record of the first search names a matching author |
| ImportFromCsv.SelectFallback | lib/importFromCSV.ts:98-124 | when neither test singles out one record and the title search fails or does not have exactly one record, the CSV fallback is used |
| ImportFromCsv.AmbiguousAuthorGoesToTitleSearch | __tests__/fetchBookFromCSV.test.ts:60-85 | two records by the author and no strict match send the choice on to the title search: its single record, or else the fallback |
| ImportFromCsv.SelectProvenance | lib/importFromCSV.ts:61-124 | the result is a record of one of the two searches or the fallback |

## Left out

- Glicko rating updates (`lib/glicko.ts`, used at `app/quiz/page.tsx:38-52`) are floating-point arithmetic. They are not part of this model.
- Session: runs the quiz over a fixed list. Between picks the source also updates ratings, so the next pick may differ. The model does not capture that, nor the stop after 12 comparisons per book (`app/quiz/page.tsx:62-63`). It proves the loop terminates and shows every pair once.
- `rating` and `rd` are exact reals. Floating-point rounding, NaN in comparators and subtraction overflow are not modelled.
- The network is left out: `fetch`, `res.json()`, rejected promises and thrown exceptions. The request URLs and `encodeURIComponent` are left out too. A search is a `SearchResponse` input.
- `console.log` and `console.warn` output is left out.
- `crypto.randomUUID()` becomes the `uuid` parameter of `MapCsvFallback`.
- Papa Parse is left out: CSV splitting, `header`, `skipEmptyLines`, and the rejection paths of `parseGoodreadsCSV`. A row arrives as a map from column name to text.
- zustand, its `persist` middleware and localStorage are left out. `BookStore` keeps its state in memory.
- Normalize.LowerChar: only the characters whose lower case falls in the kept letters are mapped. These are A-Z, Ç, Ö, Ü, Ğ, Ş, İ and the Kelvin sign. Every other character is left as it is. That changes no result of either normalisation: no other character lowers to a kept letter, a bracket, a dash, a colon or white space, so the class filter removes it either way.
- The default string order of `Array.prototype.sort` compares UTF-16 code units. `Before` compares whole characters. The two differ only between characters above U+FFFF and characters in U+E000–U+FFFF.
- ImportFromCsv.MapToBook: a record without a title gives a book whose title is `undefined` in the source. Here the title is "". The `Book` record of `types/book.ts` has no missing title.
- ImportFromCsv.Doc: `key` is always present, and `cover_i` is an integer. The model has no non-numeric cover id and no rendering of fractional or very large numbers.
- BookStore.YearFilter: a year is an integer, not an arbitrary JavaScript number.
- GeneratePairs.PairKeyInjective: the key determines the pair only for ids without `|`. Two different pairs whose ids contain bars can share a key in the source. They can also share one here.
- The React pages are left out: routing, rendering, the results page and `topFiveThemes`.
