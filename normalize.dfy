/** The two normalisations of lib/importFromCSV.ts that make a CSV title or
    author comparable with an Open Library record: lower-casing, the regular
    expression replacements, and `trim`. */
module Normalize {
  import opened Books
  import opened Seqs
  import opened Text

  // ---------------------------------------------------------------------------
  // toLowerCase

  /** The characters whose lower case lands among the letters the normalisations
      keep: A-Z, Ç, Ö, Ü, Ğ, Ş, the dotted capital I and the Kelvin sign. Every
      other character either has no lower case or lowers to a character that the
      class filters below remove anyway, and none of them is a bracket, a dash, a
      colon or white space. */
  predicate IsUpperKept(c: char)
  {
    || ('A' <= c <= 'Z') || c == '\U{00C7}' || c == '\U{00D6}' || c == '\U{00DC}'
    || c == '\U{011E}' || c == '\U{015E}' || c == '\U{0130}' || c == '\U{212A}'
  }

  predicate NoUpperKept(s: string)
  {
    forall k :: 0 <= k < |s| ==> !IsUpperKept(s[k])
  }

  /** The lower case of one character, per the Unicode case mapping. */
  function LowerChar(c: char): (r: string)
    ensures NoUpperKept(r)
    ensures !IsUpperKept(c) ==> r == [c]
    ensures 'A' <= c <= 'Z' ==> r == [(c as int + 32) as char] && 'a' <= r[0] <= 'z'
    ensures c == '\U{00C7}' ==> r == "\U{00E7}"
    ensures c == '\U{00D6}' ==> r == "\U{00F6}"
    ensures c == '\U{00DC}' ==> r == "\U{00FC}"
    ensures c == '\U{011E}' ==> r == "\U{011F}"
    ensures c == '\U{015E}' ==> r == "\U{015F}"
    ensures c == '\U{0130}' ==> r == "i\U{0307}"
    ensures c == '\U{212A}' ==> r == "k"
    ensures c != '\U{0130}' ==> |r| == 1
  {
    if 'A' <= c <= 'Z' then [(c as int + 32) as char]
    else if c == '\U{00C7}' then "\U{00E7}"
    else if c == '\U{00D6}' then "\U{00F6}"
    else if c == '\U{00DC}' then "\U{00FC}"
    else if c == '\U{011E}' then "\U{011F}"
    else if c == '\U{015E}' then "\U{015F}"
    else if c == '\U{0130}' then "i\U{0307}"
    else if c == '\U{212A}' then "k"
    else [c]
  }

  /** `s.toLowerCase()`. */
  function Lower(s: string): (r: string)
    ensures NoUpperKept(r)
    ensures NoUpperKept(s) ==> r == s
    ensures '\U{0130}' !in s ==> |r| == |s| && forall k :: 0 <= k < |s| ==> r[k] == LowerChar(s[k])[0]
  {
    if s == [] then []
    else
      var head, rest := LowerChar(s[0]), Lower(s[1..]);
      LowerCons(s, head, rest);
      head + rest
  }

  /** The step of `Lower`: the lower case of the first character, then the
      lower case of the rest. */
  lemma LowerCons(s: string, head: string, rest: string)
    requires s != [] && head == LowerChar(s[0]) && NoUpperKept(rest)
    requires '\U{0130}' !in s[1..] ==>
      |rest| == |s| - 1 && forall k :: 0 <= k < |s| - 1 ==> rest[k] == LowerChar(s[1..][k])[0]
    ensures NoUpperKept(head + rest)
    ensures '\U{0130}' !in s ==>
      |head + rest| == |s| && forall k :: 0 <= k < |s| ==> (head + rest)[k] == LowerChar(s[k])[0]
  {
    var r := head + rest;
    forall k | 0 <= k < |r| ensures !IsUpperKept(r[k]) {
      if k < |head| { assert r[k] == head[k]; } else { assert r[k] == rest[k - |head|]; }
    }
    if '\U{0130}' !in s {
      assert '\U{0130}' !in s[1..] by {
        forall k | 0 <= k < |s| - 1 ensures s[1..][k] != '\U{0130}' { assert s[1..][k] == s[k + 1]; }
      }
      forall k | 0 <= k < |s| ensures r[k] == LowerChar(s[k])[0] {
        if k > 0 { assert r[k] == rest[k - 1] && s[1..][k - 1] == s[k]; }
      }
    }
  }

  // ---------------------------------------------------------------------------
  // .replace(/\(.*?\)/g, "")

  /** From position `k`, the lazy `.*?\)`: the first `)` before any line
      terminator, or None when a line terminator or the end comes first. */
  function CloseIndex(s: string, k: nat): (r: Option<nat>)
    ensures r.Some? ==> k <= r.value < |s| && s[r.value] == ')' && NoLineTerminator(s[k..r.value])
    ensures r.Some? ==> forall j :: k <= j < r.value ==> s[j] != ')'
    ensures r.None? ==> forall j :: k <= j < |s| && s[j] == ')' ==> !NoLineTerminator(s[k..j])
    decreases |s| - k
  {
    if k >= |s| then None
    else if s[k] == ')' then Some(k)
    else if IsLineTerminator(s[k]) then
      assert forall j :: k < j < |s| ==> s[k..j][0] == s[k];
      None
    else
      var r := CloseIndex(s, k + 1);
      assert forall j :: k < j <= |s| ==> s[k..j] == [s[k]] + s[k + 1..j];
      r
  }

  /** The global replacement: scanning left to right, every `(` that is closed
      on its line is removed up to and including the first `)`; the scan resumes
      after it. */
  function StripParens(s: string): (r: string)
    ensures |r| <= |s|
    decreases |s|
  {
    if s == [] then []
    else if s[0] == '(' && CloseIndex(s, 1).Some? then StripParens(s[CloseIndex(s, 1).value + 1..])
    else [s[0]] + StripParens(s[1..])
  }

  /** Every character left is a character of the input. */
  lemma {:induction false} StripParensChars(s: string)
    ensures forall i :: 0 <= i < |StripParens(s)| ==> StripParens(s)[i] in s
    decreases |s|
  {
    if s != [] {
      if s[0] == '(' && CloseIndex(s, 1).Some? {
        StripParensChars(s[CloseIndex(s, 1).value + 1..]);
      } else {
        StripParensChars(s[1..]);
      }
    }
  }

  /** Without an opening bracket there is nothing to remove. */
  lemma {:induction false} StripParensNoOpen(s: string)
    requires '(' !in s
    ensures StripParens(s) == s
  {
    if s != [] {
      StripParensNoOpen(s[1..]);
    }
  }

  /** Text before the first `(` passes through unchanged. */
  lemma {:induction false} StripParensPrefix(a: string, t: string)
    requires '(' !in a
    ensures StripParens(a + t) == a + StripParens(t)
  {
    if a != [] {
      assert (a + t)[0] == a[0] && (a + t)[1..] == a[1..] + t;
      StripParensPrefix(a[1..], t);
      assert a == [a[0]] + a[1..];
    } else {
      assert a + t == t;
    }
  }

  /** The lazy search from `k` stops at the first `)` when no line terminator
      comes before it. */
  lemma {:induction false} CloseIndexAt(s: string, k: nat, q: nat)
    requires k <= q < |s| && s[q] == ')'
    requires forall j :: k <= j < q ==> s[j] != ')' && !IsLineTerminator(s[j])
    ensures CloseIndex(s, k) == Some(q)
    decreases q - k
  {
    if k < q {
      CloseIndexAt(s, k + 1, q);
    }
  }

  /** A bracketed group closed on its line is removed with its brackets, and the
      scan goes on after it. */
  lemma StripParensGroup(m: string, c: string)
    requires ')' !in m && NoLineTerminator(m)
    ensures StripParens("(" + m + ")" + c) == StripParens(c)
  {
    var s := "(" + m + ")" + c;
    forall j | 1 <= j < |m| + 1 ensures s[j] != ')' && !IsLineTerminator(s[j]) {
      assert s[j] == m[j - 1];
    }
    CloseIndexAt(s, 1, |m| + 1);
    assert s[|m| + 2..] == c;
  }

  /** `a + "(" + m + ")" + c` loses exactly its first group: the text before it is
      kept, and the rest is scanned on. */
  lemma StripParensPair(a: string, m: string, c: string)
    requires '(' !in a && ')' !in m && NoLineTerminator(m)
    ensures StripParens(a + "(" + m + ")" + c) == a + StripParens(c)
  {
    assert a + "(" + m + ")" + c == a + ("(" + m + ")" + c);
    StripParensPrefix(a, "(" + m + ")" + c);
    StripParensGroup(m, c);
  }

  /** No `(` is followed on its own line by a `)`. */
  ghost predicate NoParenPair(r: string)
  {
    forall i, j :: 0 <= i < j < |r| && r[i] == '(' && r[j] == ')' ==> !NoLineTerminator(r[i + 1..j])
  }

  /** Every `)` comes after a line terminator. */
  ghost predicate NoCloseBeforeBreak(t: string)
  {
    forall j :: 0 <= j < |t| && t[j] == ')' ==> !NoLineTerminator(t[..j])
  }

  /** A text in which no `)` is reachable without crossing a line, with one more
      leading character that is neither `)` nor a line terminator, keeps that
      property after the leading character is dropped. */
  lemma DropLeading(t: string)
    requires t != [] && t[0] != ')' && !IsLineTerminator(t[0])
    requires NoCloseBeforeBreak(t)
    ensures NoCloseBeforeBreak(t[1..])
  {
    forall j | 0 <= j < |t[1..]| && t[1..][j] == ')' ensures !NoLineTerminator(t[1..][..j]) {
      assert t[j + 1] == ')';
      var m :| 0 <= m < j + 1 && IsLineTerminator(t[..j + 1][m]);
      assert t[1..][..j][m - 1] == t[m];
    }
  }

  /** Prepending a character that is neither `)` nor a line terminator keeps the
      property. */
  lemma AddLeading(c: char, t: string)
    requires c != ')' && !IsLineTerminator(c)
    requires NoCloseBeforeBreak(t)
    ensures NoCloseBeforeBreak([c] + t)
  {
    var u := [c] + t;
    forall j | 0 <= j < |u| && u[j] == ')' ensures !NoLineTerminator(u[..j]) {
      assert t[j - 1] == ')';
      var m :| 0 <= m < j - 1 && IsLineTerminator(t[..j - 1][m]);
      assert u[..j][m + 1] == t[m];
    }
  }

  /** A text starting with a line terminator has the property. */
  lemma LeadingBreak(t: string)
    requires t != [] && IsLineTerminator(t[0])
    ensures NoCloseBeforeBreak(t)
  {
    forall j | 0 <= j < |t| && t[j] == ')' ensures !NoLineTerminator(t[..j]) {
      assert t[..j][0] == t[0];
    }
  }

  /** When a `(` at the front finds no `)` on its line, so does every later `(`. */
  lemma OpenNotClosed(s: string)
    requires s != [] && CloseIndex(s, 1).None?
    ensures NoCloseBeforeBreak(s[1..])
  {
    forall j | 0 <= j < |s[1..]| && s[1..][j] == ')' ensures !NoLineTerminator(s[1..][..j]) {
      assert s[j + 1] == ')';
      assert s[1..j + 1] == s[1..][..j];
    }
  }

  /** The removal keeps the property: it removes no line terminator. */
  lemma {:induction false} StripParensKeepsBreaks(t: string)
    requires NoCloseBeforeBreak(t)
    ensures NoCloseBeforeBreak(StripParens(t))
    decreases |t|
  {
    if t != [] {
      assert t[0] != ')' by {
        assert t[..0] == [];
      }
      if IsLineTerminator(t[0]) {
        LeadingBreak(t);
        LeadingBreak(StripParens(t));
      } else {
        NoCloseAfterOpen(t);
        DropLeading(t);
        StripParensKeepsBreaks(t[1..]);
        AddLeading(t[0], StripParens(t[1..]));
      }
    }
  }

  /** With no `)` reachable on the first line, a leading `(` is never closed. */
  lemma NoCloseAfterOpen(t: string)
    requires t != [] && !IsLineTerminator(t[0])
    requires NoCloseBeforeBreak(t)
    ensures CloseIndex(t, 1).None?
  {
    forall c | 1 <= c < |t| && t[c] == ')' ensures !NoLineTerminator(t[1..c]) {
      var m :| 0 <= m < c && IsLineTerminator(t[..c][m]);
      assert m != 0;
      assert t[1..c][m - 1] == t[m];
    }
  }

  /** After the removal, no bracket pair is left on any line. */
  lemma {:induction false} StripParensNoPair(s: string)
    ensures NoParenPair(StripParens(s))
    decreases |s|
  {
    if s != [] {
      if s[0] == '(' && CloseIndex(s, 1).Some? {
        StripParensNoPair(s[CloseIndex(s, 1).value + 1..]);
      } else {
        StripParensNoPair(s[1..]);
        if s[0] == '(' {
          OpenNotClosed(s);
          StripParensKeepsBreaks(s[1..]);
        }
        ConsNoPair(s[0], StripParens(s[1..]));
      }
    }
  }

  /** A character in front of a text without bracket pairs makes none, when an
      opening bracket there finds every `)` of the text behind a line terminator. */
  lemma ConsNoPair(c: char, rest: string)
    requires NoParenPair(rest)
    requires c == '(' ==> NoCloseBeforeBreak(rest)
    ensures NoParenPair([c] + rest)
  {
    var r := [c] + rest;
    forall i, j | 0 <= i < j < |r| && r[i] == '(' && r[j] == ')'
      ensures !NoLineTerminator(r[i + 1..j])
    {
      if i == 0 {
        assert rest[j - 1] == ')';
        var m :| 0 <= m < j - 1 && IsLineTerminator(rest[..j - 1][m]);
        assert r[i + 1..j][m] == rest[m];
      } else {
        assert r[i + 1..j] == rest[i..j - 1];
      }
    }
  }

  // ---------------------------------------------------------------------------
  // .replace(/\s*[—–-]\s*.*$/, "") and .replace(/\s*:\s*.*$/, "")

  predicate IsDash(c: char)
  {
    c == '\U{2014}' || c == '\U{2013}' || c == '-'
  }

  predicate IsColon(c: char)
  {
    c == ':'
  }

  /** `\s*.*$` at position `k`: some white space, then no line terminator up to
      the end. */
  predicate TailMatches(s: string, k: nat)
    requires k <= |s|
    ensures TailMatches(s, k) <==> NoLineTerminator(s[SpacesFrom(s, k)..])
    decreases |s| - k
  {
    if k < |s| && IsSpace(s[k]) then
      var n := SpacesFrom(s, k);
      assert forall j :: 0 <= j < |s| - n ==> s[n..][j] == s[k..][j + n - k];
      NoLineTerminator(s[k..]) || TailMatches(s, k + 1)
    else NoLineTerminator(s[k..])
  }

  /** `\s*SEP\s*.*$` at position `i`: some white space, a separator, then the tail. */
  predicate SepMatchAt(s: string, sep: char -> bool, i: nat)
    requires i <= |s|
    ensures (forall c :: sep(c) ==> !IsSpace(c)) ==>
      (SepMatchAt(s, sep, i) <==>
         SpacesFrom(s, i) < |s| && sep(s[SpacesFrom(s, i)]) && TailMatches(s, SpacesFrom(s, i) + 1))
    decreases |s| - i
  {
    i < |s| && ((sep(s[i]) && TailMatches(s, i + 1)) || (IsSpace(s[i]) && SepMatchAt(s, sep, i + 1)))
  }

  /** The leftmost position, from `i` on, where the pattern matches. */
  function FirstSepMatch(s: string, sep: char -> bool, i: nat): (r: Option<nat>)
    requires i <= |s|
    ensures r.Some? ==> i <= r.value < |s| && SepMatchAt(s, sep, r.value)
    ensures r.Some? ==> forall m :: i <= m < r.value ==> !SepMatchAt(s, sep, m)
    ensures r.None? ==> forall m :: i <= m <= |s| ==> !SepMatchAt(s, sep, m)
    decreases |s| - i
  {
    if i == |s| then None
    else if SepMatchAt(s, sep, i) then Some(i)
    else FirstSepMatch(s, sep, i + 1)
  }

  /** The non-global replacement by "": everything from the leftmost match on is
      cut; without a match the text is unchanged. */
  function CutSep(s: string, sep: char -> bool): (r: string)
    ensures r <= s
  {
    match FirstSepMatch(s, sep, 0)
    case None => s
    case Some(i) => s[..i]
  }

  /** No match at a position whose first non-space character is not a separator. */
  lemma {:induction false} NoMatchBefore(s: string, sep: char -> bool, i: nat, q: nat)
    requires forall c :: sep(c) ==> !IsSpace(c)
    requires i <= q < |s| && !IsSpace(s[q]) && !sep(s[q])
    requires forall p :: i <= p < q ==> IsSpace(s[p])
    ensures !SepMatchAt(s, sep, i)
    decreases q - i
  {
    if i < q {
      NoMatchBefore(s, sep, i + 1, q);
    }
  }

  /** White space, a separator and a matching tail make a match. */
  lemma {:induction false} SpacesThenSep(s: string, sep: char -> bool, i: nat, j: nat)
    requires i <= j < |s| && sep(s[j]) && TailMatches(s, j + 1)
    requires forall p :: i <= p < j ==> IsSpace(s[p])
    ensures SepMatchAt(s, sep, i)
    decreases j - i
  {
    if i < j {
      SpacesThenSep(s, sep, i + 1, j);
    }
  }

  /** On a single line, the cut happens at the first separator, together with the
      white space just before it. */
  lemma CutAtFirstSep(s: string, sep: char -> bool, j: nat)
    requires forall c :: sep(c) ==> !IsSpace(c)
    requires NoLineTerminator(s)
    requires j < |s| && sep(s[j]) && forall k :: 0 <= k < j ==> !sep(s[k])
    ensures CutSep(s, sep) == TrimEnd(s[..j])
  {
    var head := TrimEnd(s[..j]);
    var i0 := |head|;
    assert forall p :: i0 <= p < j ==> IsSpace(s[p]) by {
      forall p | i0 <= p < j ensures IsSpace(s[p]) {
        assert s[p] == s[..j][i0..][p - i0];
      }
    }
    assert TailMatches(s, j + 1) by {
      var tail := s[j + 1..];
      assert NoLineTerminator(tail) by {
        forall k | 0 <= k < |tail| ensures !IsLineTerminator(tail[k]) {
          assert tail[k] == s[j + 1 + k];
        }
      }
    }
    SpacesThenSep(s, sep, i0, j);
    if 0 < i0 {
      assert s[i0 - 1] == head[i0 - 1];
    }
    NoMatchInHead(s, sep, i0, j);
    FirstSepFrom(s, sep, 0, i0);
    assert s[..i0] == head;
  }

  /** Before the last non-space character ahead of the first separator, nothing
      matches. */
  lemma NoMatchInHead(s: string, sep: char -> bool, i0: nat, j: nat)
    requires forall c :: sep(c) ==> !IsSpace(c)
    requires i0 <= j < |s| && forall k :: 0 <= k < j ==> !sep(s[k])
    requires 0 < i0 ==> !IsSpace(s[i0 - 1])
    ensures forall m :: 0 <= m < i0 ==> !SepMatchAt(s, sep, m)
  {
    forall m | 0 <= m < i0 ensures !SepMatchAt(s, sep, m) {
      var q := NextNonSpace(s, m, i0 - 1);
      NoMatchBefore(s, sep, m, q);
    }
  }

  /** The first non-space character from `m` on, when there is one by `b`. */
  lemma {:induction false} NextNonSpace(s: string, m: nat, b: nat) returns (q: nat)
    requires m <= b < |s| && !IsSpace(s[b])
    ensures m <= q <= b && !IsSpace(s[q])
    ensures forall p :: m <= p < q ==> IsSpace(s[p])
    decreases b - m
  {
    if IsSpace(s[m]) {
      q := NextNonSpace(s, m + 1, b);
    } else {
      q := m;
    }
  }

  /** The first matching position, told by the matches around it. */
  lemma {:induction false} FirstSepFrom(s: string, sep: char -> bool, k: nat, i: nat)
    requires k <= i < |s| && SepMatchAt(s, sep, i)
    requires forall m :: k <= m < i ==> !SepMatchAt(s, sep, m)
    ensures FirstSepMatch(s, sep, k) == Some(i)
    decreases i - k
  {
    if k < i {
      FirstSepFrom(s, sep, k + 1, i);
    }
  }

  /** No separator from `i` on, no match from `i` on. */
  lemma {:induction false} NoSepNoMatch(s: string, sep: char -> bool, i: nat)
    requires i <= |s| && forall k :: i <= k < |s| ==> !sep(s[k])
    ensures !SepMatchAt(s, sep, i)
    decreases |s| - i
  {
    if i < |s| {
      NoSepNoMatch(s, sep, i + 1);
    }
  }

  /** Without a separator in the text there is no match and nothing is cut. */
  lemma NoSepUnchanged(s: string, sep: char -> bool)
    requires forall k :: 0 <= k < |s| ==> !sep(s[k])
    ensures CutSep(s, sep) == s
  {
    forall m | 0 <= m <= |s| ensures !SepMatchAt(s, sep, m) {
      NoSepNoMatch(s, sep, m);
    }
  }

  // ---------------------------------------------------------------------------
  // .replace(/[^...]/gi, "") and the two normalisations

  /** The letters both normalisations keep once the text is lower case. */
  predicate IsKeptLetter(c: char)
  {
    || ('a' <= c <= 'z')
    || c == '\U{00E7}' || c == '\U{011F}' || c == '\U{0131}'
    || c == '\U{00F6}' || c == '\U{015F}' || c == '\U{00FC}'
  }

  /** The upper-case letters that the `i` flag adds to the class: the ones whose
      canonical (upper-case) form equals that of a listed letter. */
  predicate IsKeptUpper(c: char)
  {
    || ('A' <= c <= 'Z')
    || c == '\U{00C7}' || c == '\U{011E}' || c == '\U{00D6}' || c == '\U{015E}' || c == '\U{00DC}'
  }

  /** `[a-z0-9çğıöşü\s]` with the `i` flag. */
  function TitleClass(): (r: char -> bool)
    ensures forall c :: r(c) <==> IsTitleChar(c) || IsKeptUpper(c)
  {
    c => IsKeptLetter(c) || IsKeptUpper(c) || IsDigit(c) || IsSpace(c)
  }

  /** `[a-zçğıöşü\s]` with the `i` flag. */
  function AuthorClass(): (r: char -> bool)
    ensures forall c :: r(c) <==> IsAuthorChar(c) || IsKeptUpper(c)
  {
    c => IsKeptLetter(c) || IsKeptUpper(c) || IsSpace(c)
  }

  /** What a normalised title may contain. */
  predicate IsTitleChar(c: char)
  {
    IsKeptLetter(c) || IsDigit(c) || IsSpace(c)
  }

  /** What a normalised author may contain. */
  predicate IsAuthorChar(c: char)
  {
    IsKeptLetter(c) || IsSpace(c)
  }

  /** No white space at either end. */
  predicate Trimmed(r: string)
  {
    r == [] || (!IsSpace(r[0]) && !IsSpace(r[|r| - 1]))
  }

  /** Keeping the class and trimming a text without upper-case letters leaves only
      the allowed characters. */
  lemma KeepAndTrim(s: string, keep: char -> bool, allowed: char -> bool)
    requires NoUpperKept(s)
    requires forall c :: keep(c) && !IsUpperKept(c) ==> allowed(c)
    ensures forall k :: 0 <= k < |Trim(Filter(s, keep))| ==> allowed(Trim(Filter(s, keep))[k])
  {
    var kept := Filter(s, keep);
    FilterMembers(s, keep);
    var i := TrimInfix(kept);
    var r := Trim(kept);
    forall k | 0 <= k < |r| ensures allowed(r[k]) {
      assert r[k] == kept[i + k];
      var p :| 0 <= p < |s| && s[p] == kept[i + k];
    }
  }

  /** `normalizeTitle(title)`: lower case, bracketed parts removed, cut at the
      first dash and then at the first colon, only letters, digits and white
      space kept, trimmed. */
  function NormalizeTitle(title: string): (r: string)
    ensures forall k :: 0 <= k < |r| ==> IsTitleChar(r[k])
    ensures Trimmed(r)
  {
    var lowered := Lower(title);
    var noParens := StripParens(lowered);
    var noDash := CutSep(noParens, IsDash);
    var noColon := CutSep(noDash, IsColon);
    StripParensChars(lowered);
    assert NoUpperKept(noColon) by {
      forall k | 0 <= k < |noColon| ensures !IsUpperKept(noColon[k]) {
        assert noColon[k] == noParens[k];
      }
    }
    KeepAndTrim(noColon, TitleClass(), IsTitleChar);
    Trim(Filter(noColon, TitleClass()))
  }

  /** `normalizeAuthor(author)`: lower case, only letters and white space kept,
      trimmed. */
  function NormalizeAuthor(author: string): (r: string)
    ensures forall k :: 0 <= k < |r| ==> IsAuthorChar(r[k])
    ensures Trimmed(r)
  {
    KeepAndTrim(Lower(author), AuthorClass(), IsAuthorChar);
    Trim(Filter(Lower(author), AuthorClass()))
  }

  // ---------------------------------------------------------------------------
  // Properties

  /** A trimmed text is its own trim. */
  lemma TrimTrimmed(s: string)
    requires Trimmed(s)
    ensures Trim(s) == s
  {
  }

  /** A trimmed text of title characters is left as it is. */
  lemma NormalizeTitleFixed(s: string)
    requires forall k :: 0 <= k < |s| ==> IsTitleChar(s[k])
    requires Trimmed(s)
    ensures NormalizeTitle(s) == s
  {
    TitleCharsPass(s);
    assert Lower(s) == s;
    StripParensNoOpen(s);
    NoSepUnchanged(s, IsDash);
    NoSepUnchanged(s, IsColon);
    FilterAll(s, TitleClass());
    TrimTrimmed(s);
  }

  /** Title characters pass every step of the title normalisation unchanged. */
  lemma TitleCharsPass(s: string)
    requires forall k :: 0 <= k < |s| ==> IsTitleChar(s[k])
    ensures NoUpperKept(s) && '(' !in s
    ensures forall k :: 0 <= k < |s| ==> !IsDash(s[k]) && !IsColon(s[k]) && TitleClass()(s[k])
  {
    forall k | 0 <= k < |s|
      ensures !IsUpperKept(s[k]) && s[k] != '(' && !IsDash(s[k]) && !IsColon(s[k]) && TitleClass()(s[k])
    {
      assert IsTitleChar(s[k]);
    }
  }

  /** Normalising a normalised title changes nothing. */
  lemma NormalizeTitleIdempotent(title: string)
    ensures NormalizeTitle(NormalizeTitle(title)) == NormalizeTitle(title)
  {
    NormalizeTitleFixed(NormalizeTitle(title));
  }

  /** A trimmed text of author characters is left as it is. */
  lemma NormalizeAuthorFixed(s: string)
    requires forall k :: 0 <= k < |s| ==> IsAuthorChar(s[k])
    requires Trimmed(s)
    ensures NormalizeAuthor(s) == s
  {
    assert NoUpperKept(s) by {
      forall k | 0 <= k < |s| ensures !IsUpperKept(s[k]) {
        assert IsAuthorChar(s[k]);
      }
    }
    var lowered := Lower(s);
    assert lowered == s;
    assert forall k :: 0 <= k < |s| ==> AuthorClass()(s[k]);
    FilterAll(s, AuthorClass());
    TrimTrimmed(s);
  }

  /** Normalising a normalised author changes nothing. */
  lemma NormalizeAuthorIdempotent(author: string)
    ensures NormalizeAuthor(NormalizeAuthor(author)) == NormalizeAuthor(author)
  {
    NormalizeAuthorFixed(NormalizeAuthor(author));
  }

  /** A subtitle after a colon is dropped together with the white space before
      it: "the hobbit: illustrated edition" normalises to "the hobbit". */
  lemma SubtitleDropped(main: string, sub: string)
    requires forall k :: 0 <= k < |main| ==> IsTitleChar(main[k])
    requires Trimmed(main) && NoLineTerminator(main)
    requires NoUpperKept(sub) && NoLineTerminator(sub)
    requires forall k :: 0 <= k < |sub| ==> sub[k] != '(' && !IsDash(sub[k])
    ensures NormalizeTitle(main + ": " + sub) == main
  {
    SubtitleCut(main, sub);
    assert TrimEnd(main) == main;
    forall k | 0 <= k < |main| ensures TitleClass()(main[k]) {
      assert IsTitleChar(main[k]);
    }
    FilterAll(main, TitleClass());
    TrimTrimmed(main);
  }

  /** The steps before the class filter leave the main title alone. */
  lemma SubtitleCut(main: string, sub: string)
    requires forall k :: 0 <= k < |main| ==> IsTitleChar(main[k])
    requires NoLineTerminator(main)
    requires NoUpperKept(sub) && NoLineTerminator(sub)
    requires forall k :: 0 <= k < |sub| ==> sub[k] != '(' && !IsDash(sub[k])
    ensures CutSep(CutSep(StripParens(Lower(main + ": " + sub)), IsDash), IsColon) == TrimEnd(main)
  {
    var s := main + ": " + sub;
    SubtitleChars(main, sub);
    assert Lower(s) == s;
    StripParensNoOpen(s);
    NoSepUnchanged(s, IsDash);
    CutAtFirstSep(s, IsColon, |main|);
    assert s[..|main|] == main;
  }

  lemma SubtitleChars(main: string, sub: string)
    requires forall k :: 0 <= k < |main| ==> IsTitleChar(main[k])
    requires NoLineTerminator(main)
    requires NoUpperKept(sub) && NoLineTerminator(sub)
    requires forall k :: 0 <= k < |sub| ==> sub[k] != '(' && !IsDash(sub[k])
    ensures NoUpperKept(main + ": " + sub) && NoLineTerminator(main + ": " + sub)
    ensures '(' !in main + ": " + sub
    ensures forall k :: 0 <= k < |main + ": " + sub| ==> !IsDash((main + ": " + sub)[k])
    ensures (main + ": " + sub)[|main|] == ':'
    ensures forall k :: 0 <= k < |main| ==> !IsColon((main + ": " + sub)[k])
  {
    var s := main + ": " + sub;
    forall k | 0 <= k < |s|
      ensures !IsUpperKept(s[k]) && s[k] != '(' && !IsDash(s[k]) && !IsLineTerminator(s[k])
      ensures k < |main| ==> !IsColon(s[k])
    {
      if k < |main| {
        assert s[k] == main[k] && IsTitleChar(main[k]);
      } else if k >= |main| + 2 {
        assert s[k] == sub[k - |main| - 2];
      }
    }
  }

  // ---------------------------------------------------------------------------
  // Subtitles of any case

  /** The characters that lower-casing can introduce. */
  predicate IsLoweredLetter(c: char)
  {
    || ('a' <= c <= 'z') || c == '\U{00E7}' || c == '\U{00F6}' || c == '\U{00FC}'
    || c == '\U{011F}' || c == '\U{015F}' || c == '\U{0307}'
  }

  /** Lower-casing works character by character. */
  lemma {:induction false} LowerAppend(a: string, b: string)
    ensures Lower(a + b) == Lower(a) + Lower(b)
  {
    if a == [] {
      assert a + b == b;
    } else {
      assert (a + b)[0] == a[0] && (a + b)[1..] == a[1..] + b;
      LowerAppend(a[1..], b);
    }
  }

  /** A kind of character that lower-casing never produces stays absent. */
  lemma {:induction false} LowerKeepsOut(s: string, bad: char -> bool)
    requires forall c :: IsLoweredLetter(c) ==> !bad(c)
    requires forall k :: 0 <= k < |s| ==> !bad(s[k])
    ensures forall k :: 0 <= k < |Lower(s)| ==> !bad(Lower(s)[k])
  {
    if s != [] {
      var head := LowerChar(s[0]);
      assert forall k :: 0 <= k < |head| ==> !bad(head[k]);
      LowerKeepsOut(s[1..], bad);
      assert Lower(s) == head + Lower(s[1..]);
    }
  }

  /** Neither a bracket nor a dash nor a line terminator. */
  predicate Plain(c: char)
  {
    c != '(' && !IsDash(c) && !IsLineTerminator(c)
  }

  /** The lower case of a text of plain characters is plain, and has no colon
      when the text has none. */
  lemma LowerPlain(s: string)
    requires forall k :: 0 <= k < |s| ==> Plain(s[k])
    ensures forall k :: 0 <= k < |Lower(s)| ==> Plain(Lower(s)[k])
    ensures (forall k :: 0 <= k < |s| ==> !IsColon(s[k])) ==>
      forall k :: 0 <= k < |Lower(s)| ==> !IsColon(Lower(s)[k])
  {
    LowerKeepsOut(s, c => !Plain(c));
    if forall k :: 0 <= k < |s| ==> !IsColon(s[k]) {
      LowerKeepsOut(s, IsColon);
    }
  }

  /** The title of plain characters and no colon: only lower-casing, the class
      filter and trimming act on it. */
  lemma NormalizePlainTitle(main: string)
    requires forall k :: 0 <= k < |main| ==> Plain(main[k]) && !IsColon(main[k])
    ensures NormalizeTitle(main) == Trim(Filter(Lower(main), TitleClass()))
  {
    var x := Lower(main);
    LowerPlain(main);
    assert '(' !in x by {
      forall k | 0 <= k < |x| ensures x[k] != '(' { assert Plain(x[k]); }
    }
    StripParensNoOpen(x);
    NoSepUnchanged(x, IsDash);
    NoSepUnchanged(x, IsColon);
  }

  /** White space the class keeps does not survive the final trim. */
  lemma KeepTrimEnd(x: string)
    ensures Trim(Filter(TrimEnd(x), TitleClass())) == Trim(Filter(x, TitleClass()))
  {
    var t := TrimEnd(x);
    var w := x[|t|..];
    assert x == t + w;
    FilterConcat(t, w, TitleClass());
    forall k | 0 <= k < |w| ensures TitleClass()(w[k]) && IsSpace(w[k]) {
      assert w[k] == x[|t| + k];
    }
    FilterAll(w, TitleClass());
    TrimAppendSpaces(Filter(t, TitleClass()), w);
  }

  /** Lower-casing `main + sep + sub` when `sep` has no upper case. */
  lemma LowerAround(main: string, sep: string, sub: string)
    requires NoUpperKept(sep)
    ensures Lower(main + sep + sub) == Lower(main) + sep + Lower(sub)
  {
    LowerAppend(main + sep, sub);
    LowerAppend(main, sep);
  }

  /** The characters of `x + ": " + y` for lower-cased plain `x` and `y`. */
  lemma ColonJoinChars(x: string, y: string)
    requires forall k :: 0 <= k < |x| ==> Plain(x[k]) && !IsColon(x[k])
    requires forall k :: 0 <= k < |y| ==> Plain(y[k])
    ensures '(' !in x + ": " + y && NoLineTerminator(x + ": " + y)
    ensures forall k :: 0 <= k < |x + ": " + y| ==> !IsDash((x + ": " + y)[k])
    ensures forall k :: 0 <= k < |x| ==> !IsColon((x + ": " + y)[k])
  {
    var s := x + ": " + y;
    forall k | 0 <= k < |s| ensures Plain(s[k]) && (k < |x| ==> !IsColon(s[k])) {
      if k < |x| { assert s[k] == x[k]; }
      else if k >= |x| + 2 { assert s[k] == y[k - |x| - 2]; }
    }
  }

  /** The steps before the class filter cut `x + ": " + y` back to `x` without its
      trailing white space. */
  lemma ColonCutJoined(x: string, y: string)
    requires forall k :: 0 <= k < |x| ==> Plain(x[k]) && !IsColon(x[k])
    requires forall k :: 0 <= k < |y| ==> Plain(y[k])
    ensures CutSep(CutSep(StripParens(x + ": " + y), IsDash), IsColon) == TrimEnd(x)
  {
    var s := x + ": " + y;
    ColonJoinChars(x, y);
    StripParensNoOpen(s);
    NoSepUnchanged(s, IsDash);
    ColonCutRaw(x, y);
  }

  /** The colon cut alone takes `x + ": " + y` back to `x` without its trailing
      white space. */
  lemma ColonCutRaw(x: string, y: string)
    requires forall k :: 0 <= k < |x| ==> Plain(x[k]) && !IsColon(x[k])
    requires forall k :: 0 <= k < |y| ==> Plain(y[k])
    ensures CutSep(x + ": " + y, IsColon) == TrimEnd(x)
  {
    var s := x + ": " + y;
    ColonJoinChars(x, y);
    CutAtFirstSep(s, IsColon, |x|);
    assert s[..|x|] == x;
  }

  /** The steps before the class filter cut `main + ": " + sub` back to the lower
      case of `main`, without trailing white space. */
  lemma ColonCut(main: string, sub: string)
    requires forall k :: 0 <= k < |main| ==> Plain(main[k]) && !IsColon(main[k])
    requires forall k :: 0 <= k < |sub| ==> Plain(sub[k])
    ensures CutSep(CutSep(StripParens(Lower(main + ": " + sub)), IsDash), IsColon) == TrimEnd(Lower(main))
  {
    LowerPlain(main);
    LowerPlain(sub);
    LowerAround(main, ": ", sub);
    ColonCutJoined(Lower(main), Lower(sub));
  }

  /** A subtitle after a colon does not change the normalised title, whatever the
      case: "The Hobbit: Illustrated" normalises like "The Hobbit". */
  lemma ColonSubtitleIgnored(main: string, sub: string)
    requires forall k :: 0 <= k < |main| ==> Plain(main[k]) && !IsColon(main[k])
    requires forall k :: 0 <= k < |sub| ==> Plain(sub[k])
    ensures NormalizeTitle(main + ": " + sub) == NormalizeTitle(main)
  {
    ColonCut(main, sub);
    KeepTrimEnd(Lower(main));
    NormalizePlainTitle(main);
  }

  /** The characters of `x + [' ', dash, ' '] + y` for lower-cased `x` and `y`. */
  lemma DashJoinChars(x: string, dash: char, y: string)
    requires IsDash(dash)
    requires forall k :: 0 <= k < |x| ==> Plain(x[k])
    requires forall k :: 0 <= k < |y| ==> y[k] != '(' && !IsLineTerminator(y[k])
    ensures '(' !in x + [' ', dash, ' '] + y && NoLineTerminator(x + [' ', dash, ' '] + y)
    ensures forall k :: 0 <= k <= |x| ==> !IsDash((x + [' ', dash, ' '] + y)[k])
    ensures (x + [' ', dash, ' '] + y)[|x| + 1] == dash
  {
    var s := x + [' ', dash, ' '] + y;
    forall k | 0 <= k < |s| ensures s[k] != '(' && !IsLineTerminator(s[k]) && (k <= |x| ==> !IsDash(s[k])) {
      if k < |x| { assert s[k] == x[k] && Plain(x[k]); }
      else if k >= |x| + 3 { assert s[k] == y[k - |x| - 3]; }
    }
  }

  /** The dash cut of `x + [' ', dash, ' '] + y` keeps `x` without its trailing
      white space. */
  lemma DashCutJoined(x: string, dash: char, y: string)
    requires IsDash(dash)
    requires forall k :: 0 <= k < |x| ==> Plain(x[k])
    requires forall k :: 0 <= k < |y| ==> y[k] != '(' && !IsLineTerminator(y[k])
    ensures CutSep(StripParens(x + [' ', dash, ' '] + y), IsDash) == TrimEnd(x)
  {
    var s := x + [' ', dash, ' '] + y;
    DashJoinChars(x, dash, y);
    StripParensNoOpen(s);
    DashCutRaw(x, dash, y);
    TrimEndAppendSpaces(x, [' ']);
  }

  lemma DashCutRaw(x: string, dash: char, y: string)
    requires IsDash(dash)
    requires forall k :: 0 <= k < |x| ==> Plain(x[k])
    requires forall k :: 0 <= k < |y| ==> y[k] != '(' && !IsLineTerminator(y[k])
    ensures CutSep(x + [' ', dash, ' '] + y, IsDash) == TrimEnd(x + [' '])
  {
    var s := x + [' ', dash, ' '] + y;
    DashJoinChars(x, dash, y);
    CutAtFirstSep(s, IsDash, |x| + 1);
    assert s[..|x| + 1] == x + [' '];
  }

  /** Without a colon, the colon cut leaves a trimmed prefix alone. */
  lemma TrimEndNoColon(x: string)
    requires forall k :: 0 <= k < |x| ==> !IsColon(x[k])
    ensures CutSep(TrimEnd(x), IsColon) == TrimEnd(x)
  {
    var t := TrimEnd(x);
    forall k | 0 <= k < |t| ensures !IsColon(t[k]) { assert t[k] == x[k]; }
    NoSepUnchanged(t, IsColon);
  }

  /** The steps before the class filter cut `main + " - " + sub` back to the lower
      case of `main`, without trailing white space. */
  lemma DashCut(main: string, dash: char, sub: string)
    requires IsDash(dash)
    requires forall k :: 0 <= k < |main| ==> Plain(main[k]) && !IsColon(main[k])
    requires forall k :: 0 <= k < |sub| ==> sub[k] != '(' && !IsLineTerminator(sub[k])
    ensures CutSep(CutSep(StripParens(Lower(main + [' ', dash, ' '] + sub)), IsDash), IsColon)
            == TrimEnd(Lower(main))
  {
    LowerPlain(main);
    LowerKeepsOut(sub, c => c == '(' || IsLineTerminator(c));
    LowerAround(main, [' ', dash, ' '], sub);
    DashCutJoined(Lower(main), dash, Lower(sub));
    TrimEndNoColon(Lower(main));
  }

  /** A subtitle after a dash set off by spaces does not change the normalised
      title either; the subtitle may hold further dashes and colons. */
  lemma DashSubtitleIgnored(main: string, dash: char, sub: string)
    requires IsDash(dash)
    requires forall k :: 0 <= k < |main| ==> Plain(main[k]) && !IsColon(main[k])
    requires forall k :: 0 <= k < |sub| ==> sub[k] != '(' && !IsLineTerminator(sub[k])
    ensures NormalizeTitle(main + [' ', dash, ' '] + sub) == NormalizeTitle(main)
  {
    DashCut(main, dash, sub);
    KeepTrimEnd(Lower(main));
    NormalizePlainTitle(main);
  }

  /** "The Hobbit: Illustrated" is matched as "The Hobbit" is. */
  lemma HobbitSubtitleIgnored()
    ensures NormalizeTitle("The Hobbit: Illustrated") == NormalizeTitle("The Hobbit")
  {
    assert "The Hobbit: Illustrated" == "The Hobbit" + ": " + "Illustrated";
    ColonSubtitleIgnored("The Hobbit", "Illustrated");
  }

  /** Titles with the same lower case normalise alike: matching ignores case. */
  lemma SameLowerSameTitle(a: string, b: string)
    requires Lower(a) == Lower(b)
    ensures NormalizeTitle(a) == NormalizeTitle(b)
  {
  }

  /** "The Hobbit: Illustrated" normalises to "the hobbit". */
  lemma HobbitNormalised()
    ensures NormalizeTitle("The Hobbit: Illustrated") == "the hobbit"
  {
    HobbitSubtitleIgnored();
    LowerHobbit();
    SameLowerSameTitle("The Hobbit", "the hobbit");
    HobbitFixed();
  }

  lemma LowerHobbit()
    ensures Lower("The Hobbit") == "the hobbit"
  {
    var s, t := "The Hobbit", "the hobbit";
    LowerLetters(s, t);
  }

  /** A text lowers to `t` when each of its characters lowers to the character of
      `t` at the same position. */
  lemma LowerLetters(s: string, t: string)
    requires '\U{0130}' !in s && |s| == |t|
    requires forall k :: 0 <= k < |s| ==> LowerChar(s[k]) == [t[k]]
    ensures Lower(s) == t
  {
  }

  lemma HobbitFixed()
    ensures NormalizeTitle("the hobbit") == "the hobbit"
  {
    var t := "the hobbit";
    assert forall k :: 0 <= k < |t| ==> IsTitleChar(t[k]);
    NormalizeTitleFixed(t);
  }
}
