/** The two array built-ins the modelled code leans on: `Array.prototype.filter`
    and the stable `Array.prototype.sort` with a numeric comparator
    `(x, y) => key(x) - key(y)`. */
module Seqs {

  /** `s.filter(p)`: the elements satisfying `p`, in their original order. */
  function Filter<T>(s: seq<T>, p: T -> bool): (r: seq<T>)
    ensures |r| <= |s|
    ensures forall i :: 0 <= i < |r| ==> p(r[i])
  {
    if s == [] then []
    else if p(s[0]) then [s[0]] + Filter(s[1..], p)
    else Filter(s[1..], p)
  }

  /** What the filter keeps is exactly the passing elements of its input. */
  lemma {:induction false} FilterMembers<T>(s: seq<T>, p: T -> bool)
    ensures forall i :: 0 <= i < |Filter(s, p)| ==> Filter(s, p)[i] in s
    ensures forall i :: 0 <= i < |s| && p(s[i]) ==> s[i] in Filter(s, p)
  {
    if s != [] {
      FilterMembers(s[1..], p);
      forall i | 0 <= i < |s| && p(s[i]) ensures s[i] in Filter(s, p) {
        if i > 0 {
          assert s[i] == s[1..][i - 1];
        }
      }
    }
  }

  /** Filtering works piece by piece: it keeps the relative order of what it keeps. */
  lemma {:induction false} FilterConcat<T>(a: seq<T>, b: seq<T>, p: T -> bool)
    ensures Filter(a + b, p) == Filter(a, p) + Filter(b, p)
  {
    if a == [] {
      assert a + b == b;
    } else {
      assert (a + b)[1..] == a[1..] + b;
      FilterConcat(a[1..], b, p);
    }
  }

  /** When every element passes, the filter returns its input. */
  lemma {:induction false} FilterAll<T>(s: seq<T>, p: T -> bool)
    requires forall i :: 0 <= i < |s| ==> p(s[i])
    ensures Filter(s, p) == s
  {
    if s != [] {
      FilterAll(s[1..], p);
    }
  }

  /** Nothing passes, nothing is kept. */
  lemma {:induction false} FilterNone<T>(s: seq<T>, p: T -> bool)
    requires forall i :: 0 <= i < |s| ==> !p(s[i])
    ensures Filter(s, p) == []
  {
    if s != [] {
      FilterNone(s[1..], p);
    }
  }

  /** A weaker test keeps at least as many elements. */
  lemma {:induction false} FilterMonotone<T>(s: seq<T>, p: T -> bool, q: T -> bool)
    requires forall x :: p(x) ==> q(x)
    ensures |Filter(s, p)| <= |Filter(s, q)|
  {
    if s != [] {
      FilterMonotone(s[1..], p, q);
    }
  }

  /** Exactly one passing position `i` makes the filter return `[s[i]]`, and a
      one-element result comes from exactly one passing position. */
  lemma FilterSingle<T>(s: seq<T>, p: T -> bool, i: nat)
    requires i < |s| && p(s[i])
    ensures Filter(s, p) == [s[i]] <==> forall j :: 0 <= j < |s| && j != i ==> !p(s[j])
  {
    FilterAround(s, p, i);
    if forall j :: 0 <= j < |s| && j != i ==> !p(s[j]) {
      FilterOthersNone(s, p, i);
    } else {
      var j :| 0 <= j < |s| && j != i && p(s[j]);
      FilterOtherKept(s, p, i, j);
    }
  }

  /** Filtering around a passing position. */
  lemma {:induction false} FilterAround<T>(s: seq<T>, p: T -> bool, i: nat)
    requires i < |s| && p(s[i])
    ensures Filter(s, p) == Filter(s[..i], p) + [s[i]] + Filter(s[i+1..], p)
  {
    if i == 0 {
      assert s[..0] == [] && s == [s[0]] + s[1..];
      FilterCons(s[0], s[1..], p);
    } else {
      var t := s[1..];
      FilterAround(t, p, i - 1);
      assert t[..i-1] == s[..i][1..] && t[i-1] == s[i] && t[i..] == s[i+1..];
      assert s == [s[0]] + t && s[..i] == [s[0]] + s[..i][1..];
      FilterCons(s[0], t, p);
      FilterCons(s[0], s[..i][1..], p);
    }
  }

  /** Filtering a list with a head. */
  lemma FilterCons<T>(x: T, b: seq<T>, p: T -> bool)
    ensures Filter([x] + b, p) == (if p(x) then [x] else []) + Filter(b, p)
  {
    assert ([x] + b)[1..] == b;
  }

  lemma FilterOthersNone<T>(s: seq<T>, p: T -> bool, i: nat)
    requires i < |s|
    requires forall j :: 0 <= j < |s| && j != i ==> !p(s[j])
    ensures Filter(s[..i], p) == [] && Filter(s[i+1..], p) == []
  {
    var a, b := s[..i], s[i+1..];
    assert forall j :: 0 <= j < |a| ==> a[j] == s[j];
    assert forall j :: 0 <= j < |b| ==> b[j] == s[i + 1 + j];
    FilterNone(a, p);
    FilterNone(b, p);
  }

  lemma FilterOtherKept<T>(s: seq<T>, p: T -> bool, i: nat, j: nat)
    requires i < |s| && j < |s| && j != i && p(s[j])
    ensures Filter(s[..i], p) != [] || Filter(s[i+1..], p) != []
  {
    var a, b := s[..i], s[i+1..];
    FilterMembers(a, p);
    FilterMembers(b, p);
    if j < i {
      assert a[j] == s[j];
    } else {
      assert b[j - i - 1] == s[j];
    }
  }

  /** Two passing positions keep at least two elements. */
  lemma FilterTwo<T>(s: seq<T>, p: T -> bool, i: nat, j: nat)
    requires i < j < |s| && p(s[i]) && p(s[j])
    ensures |Filter(s, p)| >= 2
  {
    FilterAround(s, p, j);
    assert s[..j][i] == s[i];
    FilterMembers(s[..j], p);
  }

  /** The index of the first element of smallest key. */
  function MinIndex<T>(s: seq<T>, key: T -> real): (m: nat)
    requires s != []
    ensures m < |s|
    ensures forall j :: 0 <= j < |s| ==> key(s[m]) <= key(s[j])
    ensures forall j :: 0 <= j < m ==> key(s[m]) < key(s[j])
  {
    if |s| == 1 then 0
    else
      var m' := MinIndex(s[1..], key);
      if key(s[0]) <= key(s[1 + m']) then 0 else 1 + m'
  }

  /** `s` with position `m` removed. */
  function Without<T>(s: seq<T>, m: nat): (r: seq<T>)
    requires m < |s|
    ensures |r| == |s| - 1
  {
    s[..m] + s[m+1..]
  }

  ghost predicate SortedBy<T>(r: seq<T>, key: T -> real)
  {
    forall i, j :: 0 <= i < j < |r| ==> key(r[i]) <= key(r[j])
  }

  /** `s.sort((x, y) => key(x) - key(y))` on a copy of `s`. ECMAScript requires
      this sort to be stable; the result is written here as repeatedly taking the
      first element of least key, the one stable order there is. */
  function SortBy<T>(s: seq<T>, key: T -> real): (r: seq<T>)
    ensures |r| == |s|
    ensures multiset(r) == multiset(s)
    decreases |s|
  {
    if s == [] then []
    else
      var m := MinIndex(s, key);
      assert s == s[..m] + [s[m]] + s[m+1..];
      [s[m]] + SortBy(Without(s, m), key)
  }

  /** The sorted copy is ordered by key. */
  lemma {:induction false} SortBySorted<T>(s: seq<T>, key: T -> real)
    ensures SortedBy(SortBy(s, key), key)
    decreases |s|
  {
    if s != [] {
      var m := MinIndex(s, key);
      var rest := SortBy(Without(s, m), key);
      SortBySorted(Without(s, m), key);
      forall j | 0 <= j < |rest| ensures key(s[m]) <= key(rest[j]) {
        assert rest[j] in multiset(Without(s, m));
        MinBelowOthers(s, key, m, rest[j]);
      }
      SortedCons(s[m], rest, key);
    }
  }

  /** The least key is no larger than the key of anything left beside it. */
  lemma MinBelowOthers<T>(s: seq<T>, key: T -> real, m: nat, x: T)
    requires s != [] && m == MinIndex(s, key) && x in Without(s, m)
    ensures key(s[m]) <= key(x)
  {
    var s' := Without(s, m);
    var q :| 0 <= q < |s'| && s'[q] == x;
    if q < m {
      assert s'[q] == s[q];
    } else {
      assert s'[q] == s[q + 1];
    }
  }

  lemma SortedCons<T>(h: T, rest: seq<T>, key: T -> real)
    requires SortedBy(rest, key)
    requires forall j :: 0 <= j < |rest| ==> key(h) <= key(rest[j])
    ensures SortedBy([h] + rest, key)
  {
    var r := [h] + rest;
    forall i, j | 0 <= i < j < |r| ensures key(r[i]) <= key(r[j]) {
      assert r[j] == rest[j - 1];
      if i > 0 {
        assert r[i] == rest[i - 1];
      }
    }
  }

  lemma SortByMembers<T>(s: seq<T>, key: T -> real)
    ensures forall x :: x in SortBy(s, key) <==> x in s
  {
    var r := SortBy(s, key);
    assert forall x :: x in r <==> x in multiset(r);
  }

  /** The predicate "key equals v", as a value to filter by. */
  function KeyIs<T>(key: T -> real, v: real): T -> bool
  {
    x => key(x) == v
  }

  /** Nothing before the first element of least key has that least key. */
  lemma BeforeMinIndex<T>(s: seq<T>, key: T -> real)
    requires s != []
    ensures Filter(s[..MinIndex(s, key)], KeyIs(key, key(s[MinIndex(s, key)]))) == []
  {
    var m := MinIndex(s, key);
    var a := s[..m];
    var p := KeyIs(key, key(s[m]));
    forall j | 0 <= j < |a| ensures !p(a[j]) {
      assert a[j] == s[j];
    }
    FilterNone(a, p);
  }

  /** Stability: among elements of equal key the sorted output keeps input order. */
  lemma {:induction false} SortByStable<T>(s: seq<T>, key: T -> real, v: real)
    ensures Filter(SortBy(s, key), KeyIs(key, v)) == Filter(s, KeyIs(key, v))
    decreases |s|
  {
    if s != [] {
      var p := KeyIs(key, v);
      var m := MinIndex(s, key);
      var a, b := s[..m], s[m+1..];
      assert s == a + ([s[m]] + b);
      var s' := Without(s, m);
      var rest := SortBy(s', key);
      assert SortBy(s, key) == [s[m]] + rest;
      SortByStable(s', key, v);
      FilterConcat([s[m]], rest, p);
      FilterConcat(a, [s[m]] + b, p);
      FilterConcat([s[m]], b, p);
      FilterConcat(a, b, p);
      var fa, fm, fb := Filter(a, p), Filter([s[m]], p), Filter(b, p);
      assert Filter(SortBy(s, key), p) == fm + (fa + fb);
      assert Filter(s, p) == fa + (fm + fb);
      if key(s[m]) == v {
        BeforeMinIndex(s, key);
        assert fa == [];
      } else {
        assert [s[m]][1..] == [];
        assert !p(s[m]);
        assert fm == [];
      }
    }
  }

  /** An element of `Without(s, m)` up to position `q'` occurs in `s` up to the
      matching position. */
  lemma WithoutPrefix<T>(s: seq<T>, m: nat, q: nat, x: T)
    requires m < |s| && q < |s| && q != m
    requires x in Without(s, m)[..(if q < m then q else q - 1) + 1]
    ensures x in s[..q+1]
  {
    var q' := if q < m then q else q - 1;
    var i :| 0 <= i < q' + 1 && Without(s, m)[i] == x;
    assert s[if i < m then i else i + 1] == x;
  }

  /** One position `q` of the statement of SortedFirst. */
  lemma {:induction false} SortedFirstAt<T>(s: seq<T>, key: T -> real, p: T -> bool, k: nat, q: nat)
    requires k < |s| && q < |s| && p(s[q])
    requires p(SortBy(s, key)[k])
    requires forall j :: 0 <= j < k ==> !p(SortBy(s, key)[j])
    ensures key(SortBy(s, key)[k]) < key(s[q])
         || (key(SortBy(s, key)[k]) == key(s[q]) && SortBy(s, key)[k] in s[..q+1])
    decreases |s|
  {
    var m := MinIndex(s, key);
    var s' := Without(s, m);
    var r, r' := SortBy(s, key), SortBy(s', key);
    assert r == [s[m]] + r';
    if k == 0 {
      if key(r[0]) == key(s[q]) {
        assert s[..q+1][m] == s[m];
      }
    } else {
      assert !p(r[0]);
      assert q != m;
      var q' := if q < m then q else q - 1;
      assert s'[q'] == s[q];
      forall j | 0 <= j < k - 1 ensures !p(r'[j]) {
        assert r'[j] == r[j+1];
      }
      SortedFirstAt(s', key, p, k - 1, q');
      if key(r[k]) == key(s[q]) {
        WithoutPrefix(s, m, q, r[k]);
      }
    }
  }

  /** The first element of the sorted copy that satisfies `p` has the least key
      among all elements satisfying `p`, and among those of equal key it occurs in
      the input no later than any other. */
  lemma SortedFirst<T>(s: seq<T>, key: T -> real, p: T -> bool, k: nat)
    requires k < |s|
    requires p(SortBy(s, key)[k])
    requires forall j :: 0 <= j < k ==> !p(SortBy(s, key)[j])
    ensures forall q :: 0 <= q < |s| && p(s[q]) ==>
      key(SortBy(s, key)[k]) < key(s[q])
      || (key(SortBy(s, key)[k]) == key(s[q]) && SortBy(s, key)[k] in s[..q+1])
  {
    forall q | 0 <= q < |s| && p(s[q])
      ensures key(SortBy(s, key)[k]) < key(s[q])
           || (key(SortBy(s, key)[k]) == key(s[q]) && SortBy(s, key)[k] in s[..q+1])
    {
      SortedFirstAt(s, key, p, k, q);
    }
  }
}
