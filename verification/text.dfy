/** String helpers with the ordinal semantics the parser relies on: .NET
    whitespace trimming, prefix tests, separator search, ordinal `Replace`,
    ASCII case folding and ordinal lexicographic order. Culture-sensitive
    variants of these operations are modelled by their ordinal counterparts. */
module Text {

  /** A .NET string reference, which may be null. */
  datatype NStr = Null | Str(s: string)

  /** `string.IsNullOrEmpty`. */
  predicate IsNullOrEmpty(n: NStr) {
    n.Null? || n.s == ""
  }

  /** How `string.Format` renders an argument: null becomes empty text. */
  function Render(n: NStr): string {
    match n
    case Null => ""
    case Str(s) => s
  }

  /** `char.IsWhiteSpace`: the Unicode White_Space characters. */
  predicate IsWhiteSpace(c: char) {
    || ('\U{0009}' <= c <= '\U{000D}')
    || c == ' ' || c == '\U{0085}' || c == '\U{00A0}' || c == '\U{1680}'
    || ('\U{2000}' <= c <= '\U{200A}')
    || c == '\U{2028}' || c == '\U{2029}' || c == '\U{202F}' || c == '\U{205F}' || c == '\U{3000}'
  }

  /** Leading whitespace removed. */
  function TrimStart(s: string): (r: string)
    ensures |r| <= |s| && r == s[|s| - |r|..]
    ensures forall i :: 0 <= i < |s| - |r| ==> IsWhiteSpace(s[i])
    ensures |r| > 0 ==> !IsWhiteSpace(r[0])
  {
    if |s| > 0 && IsWhiteSpace(s[0]) then TrimStart(s[1..]) else s
  }

  /** Trailing whitespace removed. */
  function TrimEnd(s: string): (r: string)
    ensures |r| <= |s| && r == s[..|r|]
    ensures forall i :: |r| <= i < |s| ==> IsWhiteSpace(s[i])
    ensures |r| > 0 ==> !IsWhiteSpace(r[|r| - 1])
  {
    if |s| > 0 && IsWhiteSpace(s[|s| - 1]) then TrimEnd(s[..|s| - 1]) else s
  }

  /** Number of leading whitespace characters. */
  function Lead(s: string): (n: nat)
    ensures n <= |s|
  {
    |s| - |TrimStart(s)|
  }

  /** `string.Trim()`: whitespace dropped from both ends. */
  function Trim(s: string): (r: string)
    ensures Lead(s) + |r| <= |s| && r == s[Lead(s)..Lead(s) + |r|]
    ensures forall i :: 0 <= i < Lead(s) ==> IsWhiteSpace(s[i])
    ensures forall i :: Lead(s) + |r| <= i < |s| ==> IsWhiteSpace(s[i])
    ensures |r| > 0 ==> !IsWhiteSpace(r[0]) && !IsWhiteSpace(r[|r| - 1])
  {
    TrimEnd(TrimStart(s))
  }

  /** A string without whitespace at either end is its own trim. */
  lemma TrimIdentity(s: string)
    requires |s| > 0 ==> !IsWhiteSpace(s[0]) && !IsWhiteSpace(s[|s| - 1])
    ensures Trim(s) == s
  {
  }

  /** Ordinal `StartsWith`. */
  predicate StartsWith(s: string, p: string) {
    |p| <= |s| && s[..|p|] == p
  }

  /** ASCII lower-casing of one character. */
  function LowerChar(c: char): (r: char)
    ensures 'A' <= c <= 'Z' ==> 'a' <= r <= 'z' && r as int - c as int == 32
    ensures !('A' <= c <= 'Z') ==> r == c
  {
    if 'A' <= c <= 'Z' then (c as int + 32) as char else c
  }

  /** `ToLower`, modelled as ASCII lower-casing. */
  function Lower(s: string): (r: string)
    ensures |r| == |s|
    ensures forall i :: 0 <= i < |s| ==> r[i] == LowerChar(s[i])
  {
    if s == [] then [] else [LowerChar(s[0])] + Lower(s[1..])
  }

  /** Lower-casing is idempotent, so a lower-cased name compares equal to
      itself under either case rule. */
  lemma LowerIdempotent(s: string)
    ensures Lower(Lower(s)) == Lower(s)
  {
    assert forall i :: 0 <= i < |s| ==> LowerChar(LowerChar(s[i])) == LowerChar(s[i]);
  }

  /** The suffix test used to skip compiler-generated backing fields:
      `EndsWith(suffix, StringComparison.OrdinalIgnoreCase)`. */
  predicate EndsWithIgnoreCase(s: string, suffix: string) {
    |suffix| <= |s| && Lower(s[|s| - |suffix|..]) == Lower(suffix)
  }

  /** Does `p` occur in `s` at position `k` (characters compared exactly,
      or after ASCII folding when `fold` holds)? */
  predicate OccursAt(s: string, p: string, k: int, fold: bool) {
    0 <= k && k + |p| <= |s| &&
    (if fold then Lower(s[k..k + |p|]) == Lower(p) else s[k..k + |p|] == p)
  }

  /** `s.IndexOf(p, from, comparison)`: the first position at or after
      `from` where `p` occurs, or -1. An empty `p` occurs at `from`. */
  function IndexOfFrom(s: string, p: string, from: nat, fold: bool): (r: int)
    requires from <= |s|
    ensures r == -1 || from <= r <= |s| - |p|
    ensures r != -1 ==> OccursAt(s, p, r, fold)
    ensures forall k :: from <= k && (r == -1 || k < r) ==> !OccursAt(s, p, k, fold)
    decreases |s| - from
  {
    if from + |p| > |s| then -1
    else if OccursAt(s, p, from, fold) then from
    else if from == |s| then -1
    else IndexOfFrom(s, p, from + 1, fold)
  }

  function IndexOf(s: string, p: string, fold: bool): (r: int)
    ensures r == -1 || 0 <= r <= |s| - |p|
    ensures r != -1 ==> OccursAt(s, p, r, fold)
    ensures forall k :: 0 <= k && (r == -1 || k < r) ==> !OccursAt(s, p, k, fold)
  {
    IndexOfFrom(s, p, 0, fold)
  }

  /** Number of non-overlapping occurrences of `p` found scanning left to
      right, as `Replace` finds them. */
  function Occurrences(s: string, p: string): nat
    requires |p| > 0
  {
    if |s| < |p| then 0
    else if s[..|p|] == p then 1 + Occurrences(s[|p|..], p)
    else Occurrences(s[1..], p)
  }

  /** Ordinal `s.Replace(p, "")` for a non-empty `p`: every occurrence of
      `p`, found left to right without overlap, is deleted. */
  function RemoveAll(s: string, p: string): (r: string)
    requires |p| > 0
    ensures |r| <= |s|
  {
    if |s| < |p| then s
    else if s[..|p|] == p then RemoveAll(s[|p|..], p)
    else [s[0]] + RemoveAll(s[1..], p)
  }

  /** Each occurrence removed shortens the string by the length of `p`. */
  lemma {:induction false} RemoveAllLength(s: string, p: string)
    requires |p| > 0
    ensures |RemoveAll(s, p)| == |s| - |p| * Occurrences(s, p)
  {
    if |s| >= |p| {
      if s[..|p|] == p {
        RemoveAllLength(s[|p|..], p);
        assert |p| * (1 + Occurrences(s[|p|..], p)) == |p| + |p| * Occurrences(s[|p|..], p);
      } else {
        RemoveAllLength(s[1..], p);
      }
    }
  }

  /** A leading occurrence is removed together with all later ones. */
  lemma {:induction false} RemoveAllLeading(p: string, s: string)
    requires |p| > 0
    ensures RemoveAll(p + s, p) == RemoveAll(s, p)
  {
    assert (p + s)[..|p|] == p;
    assert (p + s)[|p|..] == s;
  }

  /** `RemoveAll` changes the string exactly when `p` occurs in it. */
  lemma {:induction false} RemoveAllChanges(s: string, p: string)
    requires |p| > 0
    ensures RemoveAll(s, p) == s <==> Occurrences(s, p) == 0
  {
    if |s| >= |p| && s[..|p|] != p {
      RemoveAllChanges(s[1..], p);
      assert s == [s[0]] + s[1..];
    }
  }

  /** Ordinal order on strings: comparison by character code, a proper
      prefix sorting first. */
  predicate LexLe(a: string, b: string) {
    if a == [] then true
    else if b == [] then false
    else if a[0] != b[0] then a[0] < b[0]
    else LexLe(a[1..], b[1..])
  }

  lemma {:induction false} LexLeTotal(a: string, b: string)
    ensures LexLe(a, b) || LexLe(b, a)
  {
    if a != [] && b != [] && a[0] == b[0] {
      LexLeTotal(a[1..], b[1..]);
    }
  }

  lemma {:induction false} LexLeTrans(a: string, b: string, c: string)
    requires LexLe(a, b) && LexLe(b, c)
    ensures LexLe(a, c)
  {
    if a != [] && b != [] && c != [] && a[0] == b[0] && b[0] == c[0] {
      LexLeTrans(a[1..], b[1..], c[1..]);
    }
  }

  /** Prepending the same character preserves the order in both
      directions. */
  lemma LexLeCons(c: char, a: string, b: string)
    ensures LexLe([c] + a, [c] + b) <==> LexLe(a, b)
  {
    assert ([c] + a)[1..] == a;
    assert ([c] + b)[1..] == b;
  }
}
