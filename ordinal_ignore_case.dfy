/**
 * The string operations behind `StringComparison.OrdinalIgnoreCase` and
 * `StringComparer.OrdinalIgnoreCase`: both strings are upper-cased character by
 * character, then compared by character code. Only the ASCII letters are folded
 * here; every other character compares as itself.
 */
module OrdinalIgnoreCase {
  import opened Wrappers

  predicate IsAsciiLower(c: char) {
    'a' <= c <= 'z'
  }

  /** The character fold: ASCII lower-case letters become upper-case, nothing else changes. */
  function Fold(c: char): (f: char)
    ensures !IsAsciiLower(f)
    ensures IsAsciiLower(c) ==> f as int == c as int - 32
    ensures !IsAsciiLower(c) ==> f == c
  {
    if IsAsciiLower(c) then (c as int - 32) as char else c
  }

  /** The string fold, character by character. */
  function FoldString(s: string): (f: string)
    ensures |f| == |s|
    ensures forall i :: 0 <= i < |s| ==> f[i] == Fold(s[i])
  {
    if s == [] then [] else [Fold(s[0])] + FoldString(s[1..])
  }

  lemma FoldStringIdempotent(s: string)
    ensures FoldString(FoldString(s)) == FoldString(s)
  {
    assert forall i :: 0 <= i < |s| ==> FoldString(FoldString(s))[i] == FoldString(s)[i];
  }

  lemma FoldStringSlice(s: string, i: nat, j: nat)
    requires i <= j <= |s|
    ensures FoldString(s[i..j]) == FoldString(s)[i..j]
  {
    var f, g := FoldString(s[i..j]), FoldString(s)[i..j];
    forall k | 0 <= k < j - i
      ensures f[k] == g[k]
    {
      assert s[i..j][k] == s[i + k];
    }
    assert |f| == |g|;
  }

  // ---------------------------------------------------------------- equality

  /** `string.Equals(a, b, StringComparison.OrdinalIgnoreCase)`: same length, and equal characters after folding. */
  predicate EqualsIgnoreCase(a: string, b: string): (r: bool)
    ensures r <==> |a| == |b| && forall i :: 0 <= i < |a| ==> Fold(a[i]) == Fold(b[i])
  {
    var fa, fb := FoldString(a), FoldString(b);
    assert |a| == |b| && (forall i :: 0 <= i < |a| ==> Fold(a[i]) == Fold(b[i])) ==> fa == fb by {
      if |a| == |b| && forall i :: 0 <= i < |a| ==> Fold(a[i]) == Fold(b[i]) {
        assert forall i :: 0 <= i < |fa| ==> fa[i] == fb[i];
      }
    }
    fa == fb
  }

  // ---------------------------------------------------------------- search

  /** `key` occurs in `s` at offset `at`, ignoring case. */
  predicate MatchesAt(s: string, key: string, at: nat) {
    at + |key| <= |s| && FoldString(s[at..at + |key|]) == FoldString(key)
  }

  /**
   * `s.IndexOf(key, from, StringComparison.OrdinalIgnoreCase)`: the first offset at or
   * after `from` where `key` occurs, ignoring case, or None where .NET returns -1.
   */
  function IndexOfIgnoreCase(s: string, key: string, from: nat): (r: Option<nat>)
    decreases |s| - from
    ensures r.Some? ==> from <= r.value && MatchesAt(s, key, r.value)
    ensures r.Some? ==> forall j :: from <= j < r.value ==> !MatchesAt(s, key, j)
    ensures r.None? ==> forall j :: from <= j ==> !MatchesAt(s, key, j)
  {
    if from + |key| > |s| then None
    else if MatchesAt(s, key, from) then Some(from)
    else IndexOfIgnoreCase(s, key, from + 1)
  }

  /** `s.Contains(key, StringComparison.OrdinalIgnoreCase)`, which .NET computes as `IndexOf(...) >= 0`. */
  function ContainsIgnoreCase(s: string, key: string): (r: bool)
    ensures r <==> exists at: nat :: MatchesAt(s, key, at)
  {
    IndexOfIgnoreCase(s, key, 0).Some?
  }

  lemma MatchesAtFolded(s: string, key: string, at: nat)
    ensures MatchesAt(FoldString(s), FoldString(key), at) == MatchesAt(s, key, at)
  {
    if at + |key| <= |s| {
      FoldStringIdempotent(key);
      FoldStringSlice(s, at, at + |key|);
      FoldStringIdempotent(s[at..at + |key|]);
    }
  }

  /** Containment depends only on the folded strings: case is irrelevant on both sides. */
  lemma ContainsIgnoresCase(s: string, key: string)
    ensures ContainsIgnoreCase(FoldString(s), FoldString(key)) == ContainsIgnoreCase(s, key)
  {
    if ContainsIgnoreCase(s, key) {
      var at: nat :| MatchesAt(s, key, at);
      MatchesAtFolded(s, key, at);
    }
    if ContainsIgnoreCase(FoldString(s), FoldString(key)) {
      var at: nat :| MatchesAt(FoldString(s), FoldString(key), at);
      MatchesAtFolded(s, key, at);
    }
  }

  /** A key that literally occurs in `s` at some offset is found. */
  lemma ContainsAt(s: string, key: string, at: nat)
    requires at + |key| <= |s| && s[at..at + |key|] == key
    ensures ContainsIgnoreCase(s, key)
  {
    assert MatchesAt(s, key, at);
  }

  /** A key that literally occurs in `s` is found. */
  lemma ContainsSubstring(prefix: string, key: string, suffix: string)
    ensures ContainsIgnoreCase(prefix + key + suffix, key)
  {
    var s := prefix + key + suffix;
    assert s[|prefix|..|prefix| + |key|] == key;
    ContainsAt(s, key, |prefix|);
  }

  // ---------------------------------------------------------------- ordering

  /** Lexicographic order on character codes; a proper prefix comes first. */
  predicate LexLe(u: string, v: string): (r: bool)
    decreases |u|
    ensures |u| <= |v| && u == v[..|u|] ==> r
    ensures |v| < |u| && v == u[..|v|] ==> !r
  {
    if u == [] then true
    else if v == [] then false
    else if u[0] != v[0] then u[0] < v[0]
    else
      assert |u| <= |v| && u == v[..|u|] ==> u[1..] == v[1..][..|u| - 1];
      assert |v| < |u| && v == u[..|v|] ==> v[1..] == u[1..][..|v| - 1];
      LexLe(u[1..], v[1..])
  }

  lemma {:induction false} LexLeReflexive(u: string)
    ensures LexLe(u, u)
    decreases |u|
  {
    if u != [] {
      LexLeReflexive(u[1..]);
    }
  }

  lemma {:induction false} LexLeTotal(u: string, v: string)
    ensures LexLe(u, v) || LexLe(v, u)
    decreases |u|
  {
    if u != [] && v != [] && u[0] == v[0] {
      LexLeTotal(u[1..], v[1..]);
    }
  }

  lemma {:induction false} LexLeAntisymmetric(u: string, v: string)
    requires LexLe(u, v) && LexLe(v, u)
    ensures u == v
    decreases |u|
  {
    if u != [] {
      LexLeAntisymmetric(u[1..], v[1..]);
      assert u == [u[0]] + u[1..] && v == [v[0]] + v[1..];
    }
  }

  lemma {:induction false} LexLeTransitive(u: string, v: string, w: string)
    requires LexLe(u, v) && LexLe(v, w)
    ensures LexLe(u, w)
    decreases |u|
  {
    if u != [] && u[0] == v[0] && v[0] == w[0] {
      LexLeTransitive(u[1..], v[1..], w[1..]);
    }
  }

  /** The first position where two strings differ decides their order. */
  lemma {:induction false} LexLeFirstDifference(u: string, v: string, k: nat)
    requires k < |u| && k < |v| && u[..k] == v[..k] && u[k] != v[k]
    ensures LexLe(u, v) <==> u[k] < v[k]
    decreases k
  {
    if k > 0 {
      assert u[0] == u[..k][0] == v[..k][0] == v[0];
      assert u[1..][..k - 1] == u[1..k] == u[..k][1..];
      assert v[1..][..k - 1] == v[1..k] == v[..k][1..];
      LexLeFirstDifference(u[1..], v[1..], k - 1);
    }
  }

  /**
   * `StringComparer.OrdinalIgnoreCase.Compare(a, b) <= 0`: strings equal ignoring case
   * compare equal, the empty string comes first, and otherwise the folded first
   * characters must not be in descending order.
   */
  predicate LessOrEqualIgnoreCase(a: string, b: string): (r: bool)
    ensures EqualsIgnoreCase(a, b) ==> r
    ensures a == [] ==> r
    ensures r && a != [] ==> b != [] && Fold(a[0]) <= Fold(b[0])
  {
    LexLeReflexive(FoldString(a));
    LexLe(FoldString(a), FoldString(b))
  }

  lemma LessOrEqualIgnoreCaseTotal(a: string, b: string)
    ensures LessOrEqualIgnoreCase(a, b) || LessOrEqualIgnoreCase(b, a)
  {
    LexLeTotal(FoldString(a), FoldString(b));
  }

  lemma LessOrEqualIgnoreCaseTransitive(a: string, b: string, c: string)
    requires LessOrEqualIgnoreCase(a, b) && LessOrEqualIgnoreCase(b, c)
    ensures LessOrEqualIgnoreCase(a, c)
  {
    LexLeTransitive(FoldString(a), FoldString(b), FoldString(c));
  }

  /** The comparer returns 0 exactly for strings equal ignoring case. */
  lemma LessOrEqualIgnoreCaseBoth(a: string, b: string)
    ensures (LessOrEqualIgnoreCase(a, b) && LessOrEqualIgnoreCase(b, a)) <==> EqualsIgnoreCase(a, b)
  {
    if LessOrEqualIgnoreCase(a, b) && LessOrEqualIgnoreCase(b, a) {
      LexLeAntisymmetric(FoldString(a), FoldString(b));
    }
    if EqualsIgnoreCase(a, b) {
      LexLeReflexive(FoldString(a));
    }
  }

  // ---------------------------------------------------------------- white space

  /** `char.IsWhiteSpace`: the Unicode separators plus U+0009..U+000D and U+0085. */
  predicate IsWhiteSpace(c: char): (r: bool)
    ensures c as int < 0x80 ==> (r <==> c == ' ' || '\t' <= c <= '\r')
  {
    || '\U{0009}' <= c <= '\U{000D}'
    || c == '\U{0020}' || c == '\U{0085}' || c == '\U{00A0}' || c == '\U{1680}'
    || '\U{2000}' <= c <= '\U{200A}'
    || c == '\U{2028}' || c == '\U{2029}' || c == '\U{202F}' || c == '\U{205F}' || c == '\U{3000}'
  }

  /** `string.IsNullOrWhiteSpace`: null, empty, or white space only. */
  function IsNullOrWhiteSpace(s: Option<string>): (r: bool)
    ensures s.None? ==> r
    ensures s.Some? ==> (r <==> forall i :: 0 <= i < |s.value| ==> IsWhiteSpace(s.value[i]))
  {
    match s
    case None => true
    case Some(str) => AllWhiteSpace(str)
  }

  function AllWhiteSpace(s: string): (r: bool)
    ensures r <==> forall i :: 0 <= i < |s| ==> IsWhiteSpace(s[i])
  {
    if s == [] then true else IsWhiteSpace(s[0]) && AllWhiteSpace(s[1..])
  }
}
