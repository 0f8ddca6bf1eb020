/**
 * The handful of Python string operations the configuration parser relies on,
 * with their Python semantics: `str.strip()`, `str.startswith`/`endswith`,
 * substring search, `str.split(sep)` with a non-empty separator, `sep.join`
 * and `str.replace`.
 */
module Text {
  import opened Wrappers

  /** The characters Python's `str.strip()` removes (Unicode whitespace). */
  predicate IsSpace(c: char) {
    || ('\t' <= c <= '\r')
    || ('\U{1c}' <= c <= ' ')
    || c == '\U{85}' || c == '\U{a0}' || c == '\U{1680}'
    || ('\U{2000}' <= c <= '\U{200a}')
    || c == '\U{2028}' || c == '\U{2029}' || c == '\U{202f}' || c == '\U{205f}' || c == '\U{3000}'
  }

  predicate AllSpace(s: string) {
    forall i | 0 <= i < |s| :: IsSpace(s[i])
  }

  /** Neither starts nor ends with whitespace. */
  predicate Stripped(s: string) {
    s == [] || (!IsSpace(s[0]) && !IsSpace(s[|s| - 1]))
  }

  /** The first index at or after `i` that does not hold whitespace, or `|s|`. */
  function SkipSpace(s: string, i: nat): (j: nat)
    requires i <= |s|
    ensures i <= j <= |s|
    decreases |s| - i
  {
    if i < |s| && IsSpace(s[i]) then SkipSpace(s, i + 1) else i
  }

  lemma {:induction false} SkipSpaceSpec(s: string, i: nat)
    requires i <= |s|
    ensures var j := SkipSpace(s, i);
      && i <= j <= |s|
      && (forall k | i <= k < j :: IsSpace(s[k]))
      && (j == |s| || !IsSpace(s[j]))
    decreases |s| - i
  {
    if i < |s| && IsSpace(s[i]) {
      SkipSpaceSpec(s, i + 1);
    }
  }

  /** The smallest index `k` in `lo..j` such that `s[k..j]` is all whitespace. */
  function SkipSpaceBack(s: string, lo: nat, j: nat): (k: nat)
    requires lo <= j <= |s|
    ensures lo <= k <= j
    decreases j
  {
    if lo < j && IsSpace(s[j - 1]) then SkipSpaceBack(s, lo, j - 1) else j
  }

  lemma {:induction false} SkipSpaceBackSpec(s: string, lo: nat, j: nat)
    requires lo <= j <= |s|
    ensures var k := SkipSpaceBack(s, lo, j);
      && lo <= k <= j
      && (forall m | k <= m < j :: IsSpace(s[m]))
      && (k == lo || !IsSpace(s[k - 1]))
    decreases j
  {
    if lo < j && IsSpace(s[j - 1]) {
      SkipSpaceBackSpec(s, lo, j - 1);
    }
  }

  /** Python's `s.strip()`: `s` with the whitespace cut from both ends. */
  function Strip(s: string): string {
    var a := SkipSpace(s, 0);
    s[a..SkipSpaceBack(s, a, |s|)]
  }

  /**
   * What `Strip` gives: a slice of `s` that neither starts nor ends with
   * whitespace and outside of which `s` has only whitespace; it is empty
   * exactly when `s` is all whitespace.
   */
  lemma StripSpec(s: string)
    ensures Stripped(Strip(s))
    ensures exists a: nat :: PaddedAt(s, Strip(s), a)
    ensures Strip(s) == [] <==> AllSpace(s)
  {
    var a := SkipSpace(s, 0);
    SkipSpaceSpec(s, 0);
    SkipSpaceBackSpec(s, a, |s|);
    var b := SkipSpaceBack(s, a, |s|);
    assert PaddedAt(s, s[a..b], a);
  }

  /** `s` is `r`, starting at index `a`, with only whitespace around it. */
  predicate PaddedAt(s: string, r: string, a: nat) {
    && a + |r| <= |s|
    && r == s[a..a + |r|]
    && (forall k | 0 <= k < a :: IsSpace(s[k]))
    && (forall k | a + |r| <= k < |s| :: IsSpace(s[k]))
  }

  /** Stripping text that is already stripped changes nothing. */
  lemma StrippedFixed(s: string)
    requires Stripped(s)
    ensures Strip(s) == s
  {
    SkipSpaceSpec(s, 0);
    SkipSpaceBackSpec(s, 0, |s|);
  }

  /** Stripping only removes characters. */
  lemma StripChars(s: string, c: char)
    requires c in Strip(s)
    ensures c in s
  {
    var r := Strip(s);
    StripSpec(s);
    var a: nat :| PaddedAt(s, r, a);
    var k :| 0 <= k < |r| && r[k] == c;
    assert s[a + k] == c;
  }

  predicate StartsWith(s: string, prefix: string) {
    |prefix| <= |s| && s[..|prefix|] == prefix
  }

  predicate EndsWith(s: string, suffix: string) {
    |suffix| <= |s| && s[|s| - |suffix|..] == suffix
  }

  /** `pat` occurs in `s` starting at index `i`. */
  predicate OccursAt(s: string, pat: string, i: nat) {
    i + |pat| <= |s| && s[i..i + |pat|] == pat
  }

  /** Python's `pat in s` for strings. */
  predicate Contains(s: string, pat: string) {
    exists i: nat | i <= |s| :: OccursAt(s, pat, i)
  }

  /** A one-character pattern occurs exactly when that character does. */
  lemma ContainsChar(s: string, c: char)
    ensures Contains(s, [c]) <==> c in s
  {
    if c in s {
      var i :| 0 <= i < |s| && s[i] == c;
      assert OccursAt(s, [c], i);
    }
    if Contains(s, [c]) {
      var i: nat :| i <= |s| && OccursAt(s, [c], i);
      assert s[i] == c;
    }
  }

  /** The first occurrence of `pat` in `s` at or after `from` (Python's `s.find(pat, from)`). */
  function FindFrom(s: string, pat: string, from: nat): (r: Option<nat>)
    ensures r.Some? ==> from <= r.value && OccursAt(s, pat, r.value)
    ensures forall j: nat | from <= j && (r.None? || j < r.value) :: !OccursAt(s, pat, j)
    decreases |s| - from
  {
    if from + |pat| > |s| then None
    else if OccursAt(s, pat, from) then Some(from)
    else FindFrom(s, pat, from + 1)
  }

  /** A one-character pattern occurs at `k` exactly when that character sits there. */
  lemma OccursChar(s: string, c: char, k: nat)
    ensures OccursAt(s, [c], k) <==> k < |s| && s[k] == c
  {
    if k < |s| {
      assert s[k..k + 1] == [s[k]];
    }
  }

  /** Searching for one character finds nothing exactly when it is absent. */
  lemma FindCharNone(s: string, c: char)
    ensures FindFrom(s, [c], 0).None? <==> c !in s
  {
    if FindFrom(s, [c], 0).None? {
      forall k | 0 <= k < |s| ensures s[k] != c {
        OccursChar(s, c, k);
      }
    } else {
      OccursChar(s, c, FindFrom(s, [c], 0).value);
    }
  }

  /** A found character sits at the returned index, and not before it. */
  lemma FindCharSome(s: string, c: char, i: nat)
    requires FindFrom(s, [c], 0) == Some(i)
    ensures i < |s| && s[i] == c && c !in s[..i]
  {
    OccursChar(s, c, i);
    forall k | 0 <= k < i ensures s[k] != c {
      OccursChar(s, c, k);
    }
    assert c !in s[..i];
  }

  /** Pieces free of a one-character pattern do not hold that character. */
  lemma PiecesFreeOfChar(pieces: seq<string>, c: char)
    requires forall k | 0 <= k < |pieces| :: !Contains(pieces[k], [c])
    ensures forall k | 0 <= k < |pieces| :: c !in pieces[k]
  {
    forall k | 0 <= k < |pieces| ensures c !in pieces[k] {
      ContainsChar(pieces[k], c);
    }
  }

  /** Python's `sep.join(parts)`. */
  function Join(sep: string, parts: seq<string>): string
  {
    if |parts| == 0 then []
    else if |parts| == 1 then parts[0]
    else parts[0] + sep + Join(sep, parts[1..])
  }

  /** Python's `s.split(sep)` for a non-empty separator: the pieces between the leftmost non-overlapping occurrences of `sep`. */
  function Split(s: string, sep: string): (parts: seq<string>)
    requires sep != []
    ensures |parts| >= 1
    decreases |s|
  {
    match FindFrom(s, sep, 0)
    case None => [s]
    case Some(i) => [s[..i]] + Split(s[i + |sep|..], sep)
  }

  /** No piece of a split contains the separator. */
  lemma {:induction false} SplitPieces(s: string, sep: string)
    requires sep != []
    ensures forall k | 0 <= k < |Split(s, sep)| :: !Contains(Split(s, sep)[k], sep)
    decreases |s|
  {
    match FindFrom(s, sep, 0)
    case None =>
    case Some(i) =>
      var rest := s[i + |sep|..];
      assert Split(s, sep) == [s[..i]] + Split(rest, sep);
      SplitPieces(rest, sep);
      PrefixFree(s, sep, i);
  }

  /**
   * Splitting keeps every character and loses none: joining the pieces with
   * the separator gives `s` back (empty pieces included).
   */
  lemma {:induction false} SplitSpec(s: string, sep: string)
    requires sep != []
    ensures Join(sep, Split(s, sep)) == s
    decreases |s|
  {
    match FindFrom(s, sep, 0)
    case None =>
    case Some(i) =>
      var rest := s[i + |sep|..];
      assert Split(s, sep) == [s[..i]] + Split(rest, sep);
      SplitSpec(rest, sep);
      JoinCons(sep, s[..i], Split(rest, sep));
      assert s == s[..i] + sep + rest;
  }

  /** No occurrence of `sep` before index `i` means the prefix `s[..i]` does not contain it. */
  lemma PrefixFree(s: string, sep: string, i: nat)
    requires sep != [] && i <= |s|
    requires forall j: nat | j < i :: !OccursAt(s, sep, j)
    ensures !Contains(s[..i], sep)
  {
    forall j: nat | j <= i ensures !OccursAt(s[..i], sep, j) {
      if j + |sep| <= i {
        assert !OccursAt(s, sep, j);
        assert s[..i][j..j + |sep|] == s[j..j + |sep|];
      }
    }
  }

  /**
   * For a one-character separator, splitting undoes joining: pieces that do
   * not contain the separator come back unchanged.
   */
  lemma {:induction false} SplitJoin(sep: string, parts: seq<string>)
    requires |sep| == 1 && |parts| >= 1
    requires forall k | 0 <= k < |parts| :: sep[0] !in parts[k]
    ensures Split(Join(sep, parts), sep) == parts
    decreases |parts|
  {
    var p := parts[0];
    if |parts| == 1 {
      NoOccurrence(p, sep, 0);
    } else {
      var s := Join(sep, parts);
      var rest := Join(sep, parts[1..]);
      assert s == p + sep + rest;
      assert OccursAt(s, sep, |p|) by {
        assert s[|p|..|p| + 1] == sep;
      }
      forall j: nat | j < |p| ensures !OccursAt(s, sep, j) {
        assert s[j] == p[j];
      }
      var f := FindFrom(s, sep, 0);
      assert f == Some(|p|);
      assert s[|p| + |sep|..] == rest;
      assert s[..|p|] == p;
      SplitJoin(sep, parts[1..]);
      assert Split(rest, sep) == parts[1..];
    }
  }

  /** A one-character separator that does not appear leaves a single piece. */
  lemma NoOccurrence(s: string, sep: string, from: nat)
    requires |sep| == 1 && sep[0] !in s
    ensures FindFrom(s, sep, from) == None
    ensures Split(s, sep) == [s]
  {
    forall j: nat ensures !OccursAt(s, sep, j) {
      if j < |s| {
        assert s[j..j + 1] == [s[j]];
      }
    }
  }

  /**
   * The first piece of a split at a one-character separator is the longest
   * prefix without that character: either all of `s`, or followed in `s` by
   * the separator.
   */
  lemma FirstPiece(s: string, c: char)
    ensures var p := Split(s, [c])[0];
      && c !in p
      && (p == s || StartsWith(s, p + [c]))
  {
    match FindFrom(s, [c], 0)
    case None =>
      FindCharNone(s, c);
      NoOccurrence(s, [c], 0);
    case Some(i) =>
      FindCharSome(s, c, i);
      assert s[..i + 1] == s[..i] + [c];
  }

  /** Splitting at a one-character separator gives more than one piece exactly when the separator occurs. */
  lemma SeveralPieces(s: string, c: char)
    ensures |Split(s, [c])| >= 2 <==> c in s
  {
    FindCharNone(s, c);
    if c !in s {
      NoOccurrence(s, [c], 0);
    }
  }

  /** Python's `s.replace(pat, sub)` for a non-empty `pat`. */
  function Replace(s: string, pat: string, sub: string): string
    requires pat != []
  {
    Join(sub, Split(s, pat))
  }

  /** `s` with every `a` turned into `b`. */
  function MapChar(s: string, a: char, b: char): (r: string)
    ensures |r| == |s|
  {
    seq(|s|, i requires 0 <= i < |s| => if s[i] == a then b else s[i])
  }

  /** Replacing one character by another is a character-wise substitution. */
  lemma {:induction false} ReplaceChar(s: string, a: char, b: char)
    ensures Replace(s, [a], [b]) == MapChar(s, a, b)
    decreases |s|
  {
    match FindFrom(s, [a], 0)
    case None =>
      FindCharNone(s, a);
      NoOccurrence(s, [a], 0);
      assert MapChar(s, a, b) == s;
    case Some(i) =>
      FindCharSome(s, a, i);
      var tail := s[i + 1..];
      assert Split(s, [a]) == [s[..i]] + Split(tail, [a]);
      JoinCons([b], s[..i], Split(tail, [a]));
      ReplaceChar(tail, a, b);
      MapCharAt(s, a, b, i);
  }

  /** Joining a piece in front of at least one more puts the separator between them. */
  lemma JoinCons(sep: string, p: string, rest: seq<string>)
    requires rest != []
    ensures Join(sep, [p] + rest) == p + sep + Join(sep, rest)
  {
    assert ([p] + rest)[1..] == rest;
  }

  /** Mapping a string whose first `a` is at `i` maps that `a` and the tail after it. */
  lemma MapCharAt(s: string, a: char, b: char, i: nat)
    requires i < |s| && s[i] == a && a !in s[..i]
    ensures MapChar(s, a, b) == s[..i] + [b] + MapChar(s[i + 1..], a, b)
  {
    var r := s[..i] + [b] + MapChar(s[i + 1..], a, b);
    forall k | 0 <= k < |s| ensures r[k] == MapChar(s, a, b)[k] {
      if k < i {
        assert s[..i][k] == s[k];
      }
    }
  }

  /**
   * Python's list comprehension `[x for x in xs if x != t]`: the elements of
   * `xs` other than `t`, in order.
   */
  function Without(xs: seq<string>, t: string): (r: seq<string>)
    ensures forall x :: x in r <==> x in xs && x != t
    ensures multiset(r) == multiset(xs)[t := 0]
    ensures |r| <= |xs|
    decreases |xs|
  {
    if xs == [] then []
    else
      assert xs == [xs[0]] + xs[1..];
      (if xs[0] == t then [] else [xs[0]]) + Without(xs[1..], t)
  }

  /** Filtering a concatenation filters each part and keeps them in order. */
  lemma {:induction false} WithoutConcat(a: seq<string>, b: seq<string>, t: string)
    ensures Without(a + b, t) == Without(a, t) + Without(b, t)
    decreases |a|
  {
    if a == [] {
      assert a + b == b;
    } else {
      assert (a + b)[1..] == a[1..] + b;
      WithoutConcat(a[1..], b, t);
    }
  }

  /** Filtering out an element that does not occur keeps the list as it is. */
  lemma {:induction false} WithoutAbsent(xs: seq<string>, t: string)
    requires t !in xs
    ensures Without(xs, t) == xs
    decreases |xs|
  {
    if xs != [] {
      WithoutAbsent(xs[1..], t);
      assert xs == [xs[0]] + xs[1..];
    }
  }

  /** A pattern that does not occur in `s` occurs in no slice of it. */
  lemma SliceFree(s: string, pat: string, i: nat, j: nat)
    requires i <= j <= |s| && !Contains(s, pat)
    ensures !Contains(s[i..j], pat)
  {
    if Contains(s[i..j], pat) {
      var k: nat :| k <= |s[i..j]| && OccursAt(s[i..j], pat, k);
      forall m | 0 <= m < |pat| ensures s[i + k + m] == pat[m] {
        assert s[i..j][k..k + |pat|][m] == pat[m];
      }
      assert s[i + k..i + k + |pat|] == pat;
      assert OccursAt(s, pat, i + k);
    }
  }

  /** A string without the separator is split into itself. */
  lemma NotContainsSplit(s: string, sep: string)
    requires sep != [] && !Contains(s, sep)
    ensures Split(s, sep) == [s]
  {
  }

  /** A pattern that does not occur in `s` occurs in none of the pieces of its split. */
  lemma {:induction false} SplitPiecesFree(s: string, sep: string, pat: string)
    requires sep != [] && !Contains(s, pat)
    ensures forall k | 0 <= k < |Split(s, sep)| :: !Contains(Split(s, sep)[k], pat)
    decreases |s|
  {
    match FindFrom(s, sep, 0)
    case None =>
    case Some(i) =>
      var rest := s[i + |sep|..];
      assert Split(s, sep) == [s[..i]] + Split(rest, sep);
      SliceFree(s, pat, 0, i);
      SliceFree(s, pat, i + |sep|, |s|);
      assert s[0..i] == s[..i];
      assert s[i + |sep|..|s|] == rest;
      SplitPiecesFree(rest, sep, pat);
  }

  /** A character in neither the separator nor any part is not in their join. */
  lemma {:induction false} JoinFree(sep: string, parts: seq<string>, c: char)
    requires c !in sep && forall k | 0 <= k < |parts| :: c !in parts[k]
    ensures c !in Join(sep, parts)
    decreases |parts|
  {
    if |parts| > 1 {
      JoinFree(sep, parts[1..], c);
    }
  }

  /** A two-character pattern occurs at `k` exactly when its two characters sit at `k` and `k + 1`. */
  lemma PairOccurs(s: string, pat: string, k: nat)
    requires |pat| == 2
    ensures OccursAt(s, pat, k) <==> k + 2 <= |s| && s[k] == pat[0] && s[k + 1] == pat[1]
  {
    if k + 2 <= |s| {
      assert s[k..k + 2] == [s[k], s[k + 1]];
    }
  }

  /**
   * Joining pieces free of a two-character pattern with a one-character
   * separator that is neither of the pattern's characters does not create
   * the pattern.
   */
  lemma {:induction false} JoinPairFree(c: char, parts: seq<string>, pat: string)
    requires |pat| == 2 && c != pat[0] && c != pat[1]
    requires forall k | 0 <= k < |parts| :: !Contains(parts[k], pat)
    ensures !Contains(Join([c], parts), pat)
    decreases |parts|
  {
    if |parts| > 1 {
      var p := parts[0];
      var rest := Join([c], parts[1..]);
      var s := Join([c], parts);
      JoinPairFree(c, parts[1..], pat);
      assert s == p + [c] + rest;
      assert !Contains(p, pat) && !Contains(rest, pat);
      forall k: nat | k <= |s| ensures !OccursAt(s, pat, k) {
        PairOccurs(s, pat, k);
        if k + 2 <= |p| {
          PairOccurs(p, pat, k);
          assert !OccursAt(p, pat, k);
        } else if k > |p| && k + 2 <= |s| {
          var m: nat := k - |p| - 1;
          PairOccurs(rest, pat, m);
          assert !OccursAt(rest, pat, m);
        }
      }
    }
  }

  /**
   * For a separator of two different characters, splitting undoes joining:
   * pieces that do not contain the separator come back unchanged.
   */
  lemma {:induction false} SplitJoinPair(sep: string, parts: seq<string>)
    requires |sep| == 2 && sep[0] != sep[1] && |parts| >= 1
    requires forall k | 0 <= k < |parts| :: !Contains(parts[k], sep)
    ensures Split(Join(sep, parts), sep) == parts
    decreases |parts|
  {
    var p := parts[0];
    if |parts| == 1 {
      NotContainsSplit(p, sep);
    } else {
      var s := Join(sep, parts);
      var rest := Join(sep, parts[1..]);
      assert s == p + sep + rest;
      assert OccursAt(s, sep, |p|) by {
        assert s[|p|..|p| + 2] == sep;
      }
      forall j: nat | j < |p| ensures !OccursAt(s, sep, j) {
        if j + 2 <= |p| {
          assert s[j..j + 2] == p[j..j + 2];
          assert !OccursAt(p, sep, j);
        } else {
          assert s[j + 1] == sep[0];
          assert s[j..j + 2][1] == sep[0];
        }
      }
      assert FindFrom(s, sep, 0) == Some(|p|);
      assert s[|p| + |sep|..] == rest;
      assert s[..|p|] == p;
      SplitJoinPair(sep, parts[1..]);
    }
  }

  /** Index `i` holds the last occurrence of `c` in `s`. */
  predicate LastAt(s: string, c: char, i: nat) {
    i < |s| && s[i] == c && c !in s[i + 1..]
  }

  function LastOf<T>(xs: seq<T>): T
    requires xs != []
  {
    xs[|xs| - 1]
  }

  /**
   * The last piece of a split at one character is what follows the last
   * occurrence of that character, or all of `s` when it does not occur.
   */
  lemma {:induction false} LastPiece(s: string, c: char)
    ensures c !in s ==> LastOf(Split(s, [c])) == s
    ensures c in s ==> exists i: nat :: LastAt(s, c, i) && LastOf(Split(s, [c])) == s[i + 1..]
    decreases |s|
  {
    match FindFrom(s, [c], 0)
    case None =>
      FindCharNone(s, c);
      NoOccurrence(s, [c], 0);
    case Some(i) =>
      FindCharSome(s, c, i);
      var rest := s[i + 1..];
      assert LastOf(Split(s, [c])) == LastOf(Split(rest, [c])) by {
        assert Split(s, [c]) == [s[..i]] + Split(rest, [c]);
      }
      LastPiece(rest, c);
      if c in rest {
        var j: nat :| LastAt(rest, c, j) && LastOf(Split(rest, [c])) == rest[j + 1..];
        assert s[i + 1 + j + 1..] == rest[j + 1..];
        assert LastAt(s, c, i + 1 + j);
      } else {
        assert LastAt(s, c, i);
      }
  }
}
