/** Choosing the next two books to compare (lib/generatePairs.ts) and the quiz's
    pick-then-mark cycle over it (app/quiz/page.tsx). */
module GeneratePairs {
  import opened Books
  import opened Seqs

  // ---------------------------------------------------------------------------
  // Pair keys

  /** JavaScript's default string comparison, `x < y`: lexicographic order of the
      characters, a proper prefix coming first. */
  predicate Before(x: string, y: string)
    ensures Before(x, y) ==> x != y
    ensures x < y ==> Before(x, y)
  {
    if y == [] then false
    else if x == [] then true
    else if x[0] != y[0] then x[0] < y[0]
    else Before(x[1..], y[1..])
  }

  /** `Before` is a strict total order: of two strings exactly one comes first,
      unless they are equal. */
  lemma {:induction false} BeforeTrichotomy(x: string, y: string)
    ensures x == y <==> !Before(x, y) && !Before(y, x)
    ensures !(Before(x, y) && Before(y, x))
  {
    if x != [] && y != [] && x[0] == y[0] {
      BeforeTrichotomy(x[1..], y[1..]);
      if x[1..] == y[1..] {
        assert x == [x[0]] + x[1..] && y == [y[0]] + y[1..];
      }
    }
  }

  /** At the first position where `x` and `y` differ, `x` has the smaller
      character. */
  ghost predicate FirstDifferenceBelow(x: string, y: string)
  {
    exists k :: 0 <= k < |x| && k < |y| && x[..k] == y[..k] && x[k] < y[k]
  }

  /** `Before` is the lexicographic order: a proper prefix comes first, and
      otherwise the first differing character decides. */
  lemma {:induction false} BeforeLexicographic(x: string, y: string)
    ensures Before(x, y) <==> x < y || FirstDifferenceBelow(x, y)
  {
    if x != [] && y != [] {
      if x[0] != y[0] {
        FirstCharDiffers(x, y);
      } else {
        BeforeLexicographic(x[1..], y[1..]);
        SameFirstChar(x, y);
      }
    }
  }

  lemma FirstCharDiffers(x: string, y: string)
    requires x != [] && y != [] && x[0] != y[0]
    ensures FirstDifferenceBelow(x, y) <==> x[0] < y[0]
    ensures !(x < y)
  {
    assert x[..0] == y[..0];
    forall k | 0 < k < |x| && k < |y| ensures x[..k] != y[..k] {
      assert x[..k][0] == x[0];
    }
  }

  lemma SameFirstChar(x: string, y: string)
    requires x != [] && y != [] && x[0] == y[0]
    ensures x < y <==> x[1..] < y[1..]
    ensures FirstDifferenceBelow(x, y) <==> FirstDifferenceBelow(x[1..], y[1..])
  {
    assert x == [x[0]] + x[1..] && y == [y[0]] + y[1..];
    if FirstDifferenceBelow(x, y) {
      var k :| 0 <= k < |x| && k < |y| && x[..k] == y[..k] && x[k] < y[k];
      assert k > 0;
      assert x[1..][..k - 1] == x[..k][1..] && y[1..][..k - 1] == y[..k][1..];
      assert x[1..][k - 1] < y[1..][k - 1];
    }
    if FirstDifferenceBelow(x[1..], y[1..]) {
      var k :| 0 <= k < |x| - 1 && k < |y| - 1 && x[1..][..k] == y[1..][..k] && x[1..][k] < y[1..][k];
      assert x[..k + 1] == [x[0]] + x[1..][..k] && y[..k + 1] == [y[0]] + y[1..][..k];
      assert x[k + 1] < y[k + 1];
    }
  }

  /** `pairKey(aId, bId)`: `[aId, bId].sort().join("|")`. The default sort swaps
      the two ids only when the second comes strictly first. */
  function PairKey(x: string, y: string): (k: string)
    ensures k == x + "|" + y || k == y + "|" + x
  {
    if Before(y, x) then y + "|" + x else x + "|" + y
  }

  /** The key is the id that does not come after the other, a bar, then the other. */
  lemma {:induction false} PairKeyOrdered(x: string, y: string)
    ensures exists lo, hi :: ((lo == x && hi == y) || (lo == y && hi == x))
                             && !Before(hi, lo) && PairKey(x, y) == lo + "|" + hi
  {
    BeforeTrichotomy(x, y);
    if Before(y, x) {
      assert !Before(x, y) && PairKey(x, y) == y + "|" + x;
    } else {
      assert PairKey(x, y) == x + "|" + y;
    }
  }

  /** The key does not depend on the order of the two ids. */
  lemma PairKeySymmetric(x: string, y: string)
    ensures PairKey(x, y) == PairKey(y, x)
  {
    BeforeTrichotomy(x, y);
  }

  /** The position of the first bar in `k`, or `|k|` when there is none. */
  function BarIndex(k: string): (n: nat)
    ensures n <= |k|
  {
    if k == [] || k[0] == '|' then 0 else 1 + BarIndex(k[1..])
  }

  lemma {:induction false} BarIndexAfter(lo: string, hi: string)
    requires '|' !in lo
    ensures BarIndex(lo + "|" + hi) == |lo|
  {
    if lo != [] {
      assert (lo + "|" + hi)[1..] == lo[1..] + "|" + hi;
      BarIndexAfter(lo[1..], hi);
    }
  }

  /** Splitting `lo + "|" + hi` at its first bar, when `lo` holds none. */
  lemma SplitAtBar(lo: string, hi: string, lo': string, hi': string)
    requires '|' !in lo && '|' !in lo'
    requires lo + "|" + hi == lo' + "|" + hi'
    ensures lo == lo' && hi == hi'
  {
    var k := lo + "|" + hi;
    BarIndexAfter(lo, hi);
    BarIndexAfter(lo', hi');
    assert lo == k[..|lo|] && lo' == k[..|lo'|];
    assert hi == k[|lo| + 1..] && hi' == k[|lo'| + 1..];
  }

  /** With no `|` inside the ids, a key determines its unordered pair of ids.
      (An id holding `|` can make two different pairs share a key.) */
  lemma PairKeyInjective(x: string, y: string, x': string, y': string)
    requires '|' !in x && '|' !in y && '|' !in x' && '|' !in y'
    requires PairKey(x, y) == PairKey(x', y')
    ensures (x == x' && y == y') || (x == y' && y == x')
  {
    var k := PairKey(x, y);
    if k == x + "|" + y {
      if k == x' + "|" + y' { SplitAtBar(x, y, x', y'); } else { SplitAtBar(x, y, y', x'); }
    } else {
      if k == x' + "|" + y' { SplitAtBar(y, x, x', y'); } else { SplitAtBar(y, x, y', x'); }
    }
  }

  // ---------------------------------------------------------------------------
  // The orders pickPair searches in

  function Abs(x: real): (r: real)
    ensures r >= 0.0 && (r == x || r == -x)
  {
    if x < 0.0 then -x else x
  }

  /** Sort key of the outer order: `(a, b) => b.rd - a.rd` sorts by `-rd`. */
  function RdPriority(b: Book): real
  {
    -b.rd
  }

  /** `|b.rating - a.rating|`, the sort key of the candidates for `a`. */
  function Dist(a: Book, b: Book): real
  {
    Abs(b.rating - a.rating)
  }

  function DistanceFrom(a: Book): Book -> real
  {
    (b: Book) => Dist(a, b)
  }

  function OtherThan(a: Book): Book -> bool
  {
    (b: Book) => b.id != a.id
  }

  /** `[...books].sort((a, b) => b.rd - a.rd)`. */
  function ByRd(books: seq<Book>): (r: seq<Book>)
    ensures multiset(r) == multiset(books)
    ensures forall i, j :: 0 <= i < j < |r| ==> r[i].rd >= r[j].rd
  {
    SortBySorted(books, RdPriority);
    SortBy(books, RdPriority)
  }

  /** `books.filter(b => b.id !== a.id).sort(...)` by distance of rating from `a`. */
  function Candidates(books: seq<Book>, a: Book): (r: seq<Book>)
    ensures forall x :: x in r <==> x in books && x.id != a.id
    ensures forall i, j :: 0 <= i < j < |r| ==> Dist(a, r[i]) <= Dist(a, r[j])
  {
    var others := Filter(books, OtherThan(a));
    FilterMembers(books, OtherThan(a));
    SortByMembers(others, DistanceFrom(a));
    SortBySorted(others, DistanceFrom(a));
    assert forall x :: x in books && x.id != a.id ==> OtherThan(a)(x);
    SortBy(others, DistanceFrom(a))
  }

  // ---------------------------------------------------------------------------
  // What a pick promises

  /** `x` and `y` have different ids and their pair has not been shown yet. */
  predicate Unseen(seen: set<string>, x: Book, y: Book)
  {
    x.id != y.id && PairKey(x.id, y.id) !in seen
  }

  ghost predicate HasUnseenPartner(books: seq<Book>, seen: set<string>, x: Book)
  {
    exists j :: 0 <= j < |books| && Unseen(seen, x, books[j])
  }

  /** Every pair of books with different ids has been shown. */
  ghost predicate Exhausted(books: seq<Book>, seen: set<string>)
  {
    forall i, j :: 0 <= i < |books| && 0 <= j < |books| ==> !Unseen(seen, books[i], books[j])
  }

  /** `a` is the most uncertain book (largest `rd`) that still has an unseen
      partner; on equal `rd` it is the one that comes first in `books`. */
  ghost predicate MostUncertain(books: seq<Book>, seen: set<string>, a: Book)
  {
    forall q :: 0 <= q < |books| && HasUnseenPartner(books, seen, books[q]) ==>
      a.rd > books[q].rd || (a.rd == books[q].rd && a in books[..q+1])
  }

  /** `b` is the unseen partner of `a` closest to it in rating; on equal distance
      it is the one that comes first in `books`. */
  ghost predicate ClosestPartner(books: seq<Book>, seen: set<string>, a: Book, b: Book)
  {
    forall q :: 0 <= q < |books| && Unseen(seen, a, books[q]) ==>
      Dist(a, b) < Dist(a, books[q]) || (Dist(a, b) == Dist(a, books[q]) && b in books[..q+1])
  }

  /** A pick: both books are in the list, their pair is unseen, the first is the
      most uncertain book with an unseen partner and the second its closest one. */
  ghost predicate IsPick(books: seq<Book>, seen: set<string>, a: Book, b: Book)
  {
    && a in books && b in books && Unseen(seen, a, b)
    && MostUncertain(books, seen, a) && ClosestPartner(books, seen, a, b)
  }

  /** A candidate of `a` is a book of the list with an id other than `a`'s. */
  lemma CandidateIn(books: seq<Book>, a: Book, j: nat)
    requires j < |Candidates(books, a)|
    ensures Candidates(books, a)[j] in books && Candidates(books, a)[j].id != a.id
  {
    var others := Filter(books, OtherThan(a));
    var c := Candidates(books, a)[j];
    SortByMembers(others, DistanceFrom(a));
    assert c in others;
    var i :| 0 <= i < |others| && others[i] == c;
    assert OtherThan(a)(others[i]);
    FilterMembers(books, OtherThan(a));
  }

  /** Every book with an id other than `a`'s is a candidate of `a`. */
  lemma PartnerIsCandidate(books: seq<Book>, a: Book, j: nat)
    requires j < |books| && books[j].id != a.id
    ensures books[j] in Candidates(books, a)
  {
    var others := Filter(books, OtherThan(a));
    assert OtherThan(a)(books[j]);
    FilterMembers(books, OtherThan(a));
    assert books[j] in others;
    SortByMembers(others, DistanceFrom(a));
  }

  lemma CandidateMembers(books: seq<Book>, a: Book)
    ensures forall j :: 0 <= j < |Candidates(books, a)| ==>
      Candidates(books, a)[j] in books && Candidates(books, a)[j].id != a.id
    ensures forall j :: 0 <= j < |books| && books[j].id != a.id ==> books[j] in Candidates(books, a)
  {
    forall j | 0 <= j < |Candidates(books, a)|
      ensures Candidates(books, a)[j] in books && Candidates(books, a)[j].id != a.id
    {
      CandidateIn(books, a, j);
    }
    forall j | 0 <= j < |books| && books[j].id != a.id ensures books[j] in Candidates(books, a) {
      PartnerIsCandidate(books, a, j);
    }
  }

  /** None of the first `i` books of `order` has an unseen partner. */
  ghost predicate NoPartnerBefore(books: seq<Book>, seen: set<string>, order: seq<Book>, i: nat)
  {
    forall j :: 0 <= j < i && j < |order| ==> !HasUnseenPartner(books, seen, order[j])
  }

  lemma NoPartnerStep(books: seq<Book>, seen: set<string>, order: seq<Book>, i: nat)
    requires i < |order| && NoPartnerBefore(books, seen, order, i)
    requires !HasUnseenPartner(books, seen, order[i])
    ensures NoPartnerBefore(books, seen, order, i + 1)
  {
  }

  /** A book whose candidates are all seen has no unseen partner. */
  lemma NoUnseenPartner(books: seq<Book>, seen: set<string>, a: Book)
    requires forall j :: 0 <= j < |Candidates(books, a)| ==> PairKey(a.id, Candidates(books, a)[j].id) in seen
    ensures !HasUnseenPartner(books, seen, a)
  {
    CandidateMembers(books, a);
  }

  lemma AllExhausted(books: seq<Book>, seen: set<string>)
    requires forall j :: 0 <= j < |ByRd(books)| ==> !HasUnseenPartner(books, seen, ByRd(books)[j])
    ensures Exhausted(books, seen)
  {
    SortByMembers(books, RdPriority);
    forall i | 0 <= i < |books| ensures !HasUnseenPartner(books, seen, books[i]) {
      assert books[i] in ByRd(books);
    }
  }

  /** The position in the filtered list of a kept element, and what precedes it there. */
  lemma FilterPosition(s: seq<Book>, p: Book -> bool, q: nat) returns (q': nat)
    requires q < |s| && p(s[q])
    ensures q' < |Filter(s, p)| && Filter(s, p)[q'] == s[q]
    ensures forall j :: 0 <= j <= q' ==> Filter(s, p)[j] in s[..q+1]
  {
    assert s == s[..q+1] + s[q+1..];
    FilterConcat(s[..q+1], s[q+1..], p);
    assert s[..q+1] == s[..q] + [s[q]];
    FilterConcat(s[..q], [s[q]], p);
    assert Filter([s[q]], p) == [s[q]];
    q' := |Filter(s[..q], p)|;
    assert Filter(s, p)[..q'+1] == Filter(s[..q+1], p);
    FilterMembers(s[..q+1], p);
  }

  /** The first book of the rd order with an unseen partner is the most uncertain one. */
  lemma ChosenFirst(books: seq<Book>, seen: set<string>, i: nat)
    requires i < |ByRd(books)|
    requires forall j :: 0 <= j < i ==> !HasUnseenPartner(books, seen, ByRd(books)[j])
    requires HasUnseenPartner(books, seen, ByRd(books)[i])
    ensures MostUncertain(books, seen, ByRd(books)[i])
  {
    var hasPartner := (x: Book) => HasUnseenPartner(books, seen, x);
    SortedFirst(books, RdPriority, hasPartner, i);
  }

  /** The first unseen candidate of `a` is its closest unseen partner. */
  lemma ChosenSecond(books: seq<Book>, seen: set<string>, a: Book, k: nat)
    requires k < |Candidates(books, a)|
    requires forall j :: 0 <= j < k ==> PairKey(a.id, Candidates(books, a)[j].id) in seen
    requires PairKey(a.id, Candidates(books, a)[k].id) !in seen
    ensures ClosestPartner(books, seen, a, Candidates(books, a)[k])
  {
    var cands := Candidates(books, a);
    var b := cands[k];
    var others := Filter(books, OtherThan(a));
    var notShown := (y: Book) => PairKey(a.id, y.id) !in seen;
    assert forall j :: 0 <= j < k ==> !notShown(cands[j]);
    SortedFirst(others, DistanceFrom(a), notShown, k);
    forall q | 0 <= q < |books| && Unseen(seen, a, books[q])
      ensures Dist(a, b) < Dist(a, books[q]) || (Dist(a, b) == Dist(a, books[q]) && b in books[..q+1])
    {
      assert OtherThan(a)(books[q]);
      var q' := FilterPosition(books, OtherThan(a), q);
      assert notShown(others[q']);
      if Dist(a, b) == Dist(a, books[q]) {
        var j :| 0 <= j <= q' && others[j] == b;
      }
    }
  }

  /** What the search has established when it returns the `k`-th candidate of the
      `i`-th book in rd order. */
  lemma ChosenPair(books: seq<Book>, seen: set<string>, i: nat, k: nat)
    requires i < |ByRd(books)|
    requires forall j :: 0 <= j < i ==> !HasUnseenPartner(books, seen, ByRd(books)[j])
    requires k < |Candidates(books, ByRd(books)[i])|
    requires forall j :: 0 <= j < k ==>
      PairKey(ByRd(books)[i].id, Candidates(books, ByRd(books)[i])[j].id) in seen
    requires PairKey(ByRd(books)[i].id, Candidates(books, ByRd(books)[i])[k].id) !in seen
    ensures IsPick(books, seen, ByRd(books)[i], Candidates(books, ByRd(books)[i])[k])
    ensures !Exhausted(books, seen) && |books| >= 2
  {
    var a := ByRd(books)[i];
    var b := Candidates(books, a)[k];
    assert a in multiset(ByRd(books));
    assert b in Candidates(books, a);
    var ia :| 0 <= ia < |books| && books[ia] == a;
    var ib :| 0 <= ib < |books| && books[ib] == b;
    assert Unseen(seen, books[ia], books[ib]);
    assert ia != ib;
    assert HasUnseenPartner(books, seen, a);
    ChosenFirst(books, seen, i);
    ChosenSecond(books, seen, a, k);
  }

  /** The inner loop of `pickPair`: the position of the first candidate whose pair
      with `a` has not been shown, or `|cands|` when there is none. */
  method FirstUnseen(a: Book, cands: seq<Book>, seen: set<string>) returns (k: nat)
    ensures k <= |cands|
    ensures forall j :: 0 <= j < k ==> PairKey(a.id, cands[j].id) in seen
    ensures k < |cands| ==> PairKey(a.id, cands[k].id) !in seen
  {
    k := 0;
    while k < |cands|
      invariant k <= |cands|
      invariant forall j :: 0 <= j < k ==> PairKey(a.id, cands[j].id) in seen
    {
      if PairKey(a.id, cands[k].id) !in seen {
        return;
      }
      k := k + 1;
    }
  }

  /** `pickPair(books, seenPairs)`: the most uncertain book with an unseen partner,
      paired with its closest unseen partner, or None once every pair has been shown. */
  method PickPair(books: seq<Book>, seen: set<string>) returns (r: Option<(Book, Book)>)
    ensures r.None? <==> Exhausted(books, seen)
    ensures |books| < 2 ==> r.None?
    ensures r.Some? ==> IsPick(books, seen, r.value.0, r.value.1)
  {
    var order := ByRd(books);
    var i := 0;
    while i < |order|
      invariant 0 <= i <= |order|
      invariant NoPartnerBefore(books, seen, order, i)
    {
      var a := order[i];
      var cands := Candidates(books, a);
      var k := FirstUnseen(a, cands, seen);
      if k < |cands| {
        ChosenPair(books, seen, i, k);
        return Some((a, cands[k]));
      }
      NoUnseenPartner(books, seen, a);
      NoPartnerStep(books, seen, order, i);
      i := i + 1;
    }
    AllExhausted(books, seen);
    return None;
  }

  /** On a fresh quiz over books with distinct ids, the first pick starts from a
      book of largest `rd`. */
  lemma FirstPickMostUncertain(books: seq<Book>, a: Book)
    requires UniqueIds(books) && |books| >= 2
    requires MostUncertain(books, {}, a)
    ensures forall q :: 0 <= q < |books| ==> books[q].rd <= a.rd
  {
    forall q | 0 <= q < |books| ensures books[q].rd <= a.rd {
      var other := if q == 0 then 1 else 0;
      assert Unseen({}, books[q], books[other]);
    }
  }

  // ---------------------------------------------------------------------------
  // The quiz: pick a pair, mark its key as seen, repeat

  /** The keys of the pairs of distinct-id books `x` makes with the books of `bs`. */
  ghost function KeysWith(bs: seq<Book>, x: Book): set<string>
  {
    if bs == [] then {}
    else
      var last := bs[|bs| - 1];
      KeysWith(bs[..|bs| - 1], x) + (if last.id != x.id then {PairKey(last.id, x.id)} else {})
  }

  /** The keys of all pairs of books with different ids. */
  ghost function AllKeys(bs: seq<Book>): set<string>
  {
    if bs == [] then {} else AllKeys(bs[..|bs| - 1]) + KeysWith(bs[..|bs| - 1], bs[|bs| - 1])
  }

  /** Each key made with `x` comes from a book of `bs` with another id. */
  lemma {:induction false} KeysWithWitness(bs: seq<Book>, x: Book, k: string) returns (j: nat)
    requires k in KeysWith(bs, x)
    ensures j < |bs| && bs[j].id != x.id && k == PairKey(bs[j].id, x.id)
  {
    var n := |bs| - 1;
    var front := bs[..n];
    if k in KeysWith(front, x) {
      j := KeysWithWitness(front, x, k);
      assert bs[j] == front[j];
    } else {
      j := n;
    }
  }

  /** Each book of `bs` with another id than `x` contributes its key. */
  lemma {:induction false} KeysWithComplete(bs: seq<Book>, x: Book, j: nat)
    requires j < |bs| && bs[j].id != x.id
    ensures PairKey(bs[j].id, x.id) in KeysWith(bs, x)
  {
    var n := |bs| - 1;
    if j < n {
      var front := bs[..n];
      assert front[j] == bs[j];
      KeysWithComplete(front, x, j);
    }
  }

  /** Each key of AllKeys is the key of two books of the list with different ids. */
  lemma {:induction false} AllKeysWitness(bs: seq<Book>, k: string) returns (i: nat, j: nat)
    requires k in AllKeys(bs)
    ensures i < |bs| && j < |bs| && Unseen({}, bs[i], bs[j]) && k == PairKey(bs[i].id, bs[j].id)
  {
    var n := |bs| - 1;
    var front, last := bs[..n], bs[n];
    if k in AllKeys(front) {
      i, j := AllKeysWitness(front, k);
      assert bs[i] == front[i] && bs[j] == front[j];
    } else {
      i := KeysWithWitness(front, last, k);
      j := n;
      assert bs[i] == front[i];
    }
  }

  /** The key of any two books of the list with different ids is in AllKeys. */
  lemma {:induction false} AllKeysComplete(bs: seq<Book>, i: nat, j: nat)
    requires i < |bs| && j < |bs| && bs[i].id != bs[j].id
    ensures PairKey(bs[i].id, bs[j].id) in AllKeys(bs)
  {
    var n := |bs| - 1;
    var front, last := bs[..n], bs[n];
    if i < n && j < n {
      assert front[i] == bs[i] && front[j] == bs[j];
      AllKeysComplete(front, i, j);
    } else if i == n {
      assert front[j] == bs[j];
      KeysWithComplete(front, last, j);
      PairKeySymmetric(bs[i].id, bs[j].id);
    } else {
      assert front[i] == bs[i];
      KeysWithComplete(front, last, i);
    }
  }

  /** Every pair has been shown exactly when every key is among the seen ones. */
  lemma ExhaustedIffAllKeysSeen(books: seq<Book>, seen: set<string>)
    ensures Exhausted(books, seen) <==> AllKeys(books) <= seen
  {
    if Exhausted(books, seen) {
      forall k | k in AllKeys(books) ensures k in seen {
        var i, j := AllKeysWitness(books, k);
        assert !Unseen(seen, books[i], books[j]);
      }
    }
    if AllKeys(books) <= seen {
      forall i, j | 0 <= i < |books| && 0 <= j < |books| ensures !Unseen(seen, books[i], books[j]) {
        if books[i].id != books[j].id {
          AllKeysComplete(books, i, j);
        }
      }
    }
  }

  /** Marking a pick as seen adds a key of the list that was not seen before. */
  lemma PickAddsNewKey(books: seq<Book>, seen: set<string>, a: Book, b: Book)
    requires IsPick(books, seen, a, b)
    ensures PairKey(a.id, b.id) in AllKeys(books) - seen
  {
    var i :| 0 <= i < |books| && books[i] == a;
    var j :| 0 <= j < |books| && books[j] == b;
    AllKeysComplete(books, i, j);
  }

  /** The key a shown pair is marked with. */
  function KeyOf(p: (Book, Book)): string
  {
    PairKey(p.0.id, p.1.id)
  }

  /** Marking a new key `key` of `all` grows the marked keys by one and shrinks
      the keys still to show. */
  lemma MarkStep(all: set<string>, seen0: set<string>, seen: set<string>, key: string)
    requires seen0 <= seen && seen - seen0 <= all
    requires key in all - seen
    ensures seen0 <= seen + {key} && (seen + {key}) - seen0 <= all
    ensures (seen + {key}) - seen0 == (seen - seen0) + {key} && key !in seen - seen0
    ensures |(seen + {key}) - seen0| == |seen - seen0| + 1
    ensures all - (seen + {key}) < all - seen
  {
    assert (seen + {key}) - seen0 == (seen - seen0) + {key};
  }

  /** Once every key of `all` is seen, the marked keys are the unseen part of `all`. */
  lemma SessionEnd(all: set<string>, seen0: set<string>, seen: set<string>)
    requires seen0 <= seen && seen - seen0 <= all && all <= seen
    ensures seen == seen0 + all
    ensures |seen - seen0| == |all - seen0|
  {
    assert seen - seen0 == all - seen0;
  }

  /** Appending a pair whose key is not yet marked keeps the shown keys distinct
      and all marked. */
  lemma AppendShown(shown: seq<(Book, Book)>, p: (Book, Book), marked: set<string>)
    requires forall i :: 0 <= i < |shown| ==> KeyOf(shown[i]) in marked
    requires forall i, j :: 0 <= i < j < |shown| ==> KeyOf(shown[i]) != KeyOf(shown[j])
    requires KeyOf(p) !in marked
    ensures forall i :: 0 <= i < |shown + [p]| ==> KeyOf((shown + [p])[i]) in marked + {KeyOf(p)}
    ensures forall i, j :: 0 <= i < j < |shown + [p]| ==> KeyOf((shown + [p])[i]) != KeyOf((shown + [p])[j])
  {
  }

  /** The quiz loop over a fixed list: pick a pair with `pickPair`, add its key to
      the seen set, and stop when `pickPair` finds nothing. Every pair is shown
      once, no key twice, and the quiz ends with every key seen. */
  method Session(books: seq<Book>, seen0: set<string>) returns (shown: seq<(Book, Book)>, seen: set<string>)
    ensures seen == seen0 + AllKeys(books)
    ensures Exhausted(books, seen)
    ensures |shown| == |AllKeys(books) - seen0|
    ensures forall i :: 0 <= i < |shown| ==> KeyOf(shown[i]) in AllKeys(books) - seen0
    ensures forall i, j :: 0 <= i < j < |shown| ==> KeyOf(shown[i]) != KeyOf(shown[j])
  {
    shown, seen := [], seen0;
    while true
      invariant seen0 <= seen && seen - seen0 <= AllKeys(books)
      invariant |shown| == |seen - seen0|
      invariant forall i :: 0 <= i < |shown| ==> KeyOf(shown[i]) in seen - seen0
      invariant forall i, j :: 0 <= i < j < |shown| ==> KeyOf(shown[i]) != KeyOf(shown[j])
      decreases AllKeys(books) - seen
    {
      var next := PickPair(books, seen);
      if next.None? {
        ExhaustedIffAllKeysSeen(books, seen);
        SessionEnd(AllKeys(books), seen0, seen);
        return;
      }
      var (a, b) := next.value;
      var key := PairKey(a.id, b.id);
      PickAddsNewKey(books, seen, a, b);
      MarkStep(AllKeys(books), seen0, seen, key);
      AppendShown(shown, (a, b), seen - seen0);
      shown, seen := shown + [(a, b)], seen + {key};
    }
  }

  /** With distinct ids and no `|` inside any id, the quiz over `n` books shows
      exactly `n * (n - 1) / 2` pairs before it ends. */
  lemma {:induction false} AllKeysCount(bs: seq<Book>)
    requires UniqueIds(bs)
    requires forall i :: 0 <= i < |bs| ==> '|' !in bs[i].id
    ensures |AllKeys(bs)| == |bs| * (|bs| - 1) / 2
  {
    if bs != [] {
      var n := |bs| - 1;
      var front, last := bs[..n], bs[n];
      AllKeysCount(front);
      KeysWithCount(front, last);
      forall k | k in AllKeys(front) ensures k !in KeysWith(front, last) {
        KeyNotNew(bs, k);
      }
      assert AllKeys(bs) == AllKeys(front) + KeysWith(front, last);
      assert AllKeys(front) * KeysWith(front, last) == {};
      assert |AllKeys(bs)| == n * (n - 1) / 2 + n;
      TriangleStep(n);
    }
  }

  lemma TriangleStep(n: nat)
    ensures n * (n - 1) / 2 + n == (n + 1) * n / 2
  {
    assert n * (n - 1) + 2 * n == (n + 1) * n;
  }

  /** The keys among the books before the last are not keys with the last. */
  lemma KeyNotNew(bs: seq<Book>, k: string)
    requires bs != [] && UniqueIds(bs)
    requires forall i :: 0 <= i < |bs| ==> '|' !in bs[i].id
    requires k in AllKeys(bs[..|bs| - 1])
    ensures k !in KeysWith(bs[..|bs| - 1], bs[|bs| - 1])
  {
    var n := |bs| - 1;
    var front, last := bs[..n], bs[n];
    var i, j := AllKeysWitness(front, k);
    assert bs[i] == front[i] && bs[j] == front[j];
    if k in KeysWith(front, last) {
      var q := KeysWithWitness(front, last, k);
      assert bs[q] == front[q];
      PairKeyInjective(front[i].id, front[j].id, front[q].id, last.id);
      assert false;
    }
  }

  /** A book whose id none of `bs` shares and contains no bar forms one new key
      with each of them. */
  lemma {:induction false} KeysWithCount(bs: seq<Book>, x: Book)
    requires UniqueIds(bs)
    requires forall i :: 0 <= i < |bs| ==> '|' !in bs[i].id && bs[i].id != x.id
    requires '|' !in x.id
    ensures |KeysWith(bs, x)| == |bs|
  {
    if bs != [] {
      var n := |bs| - 1;
      var front, last := bs[..n], bs[n];
      KeysWithCount(front, x);
      var k := PairKey(last.id, x.id);
      if k in KeysWith(front, x) {
        var j := KeysWithWitness(front, x, k);
        assert bs[j] == front[j];
        PairKeyInjective(front[j].id, x.id, last.id, x.id);
        assert false;
      }
    }
  }
}
