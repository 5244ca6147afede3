/**
 * The JavaScript string operations the resolvers depend on: `String.prototype.trim` (blank
 * bodies), `String.prototype.split` with a non-empty separator (the bearer header), and the
 * binary string order the store sorts `createdAt` by.
 */
module Text {
  import opened Outcomes

  // ---------------------------------------------------------------------------------------
  // trim

  /** The code points ECMAScript's trim strips: WhiteSpace (TAB, VT, FF, ZWNBSP, every Zs) and LineTerminator. */
  predicate IsJsWhitespace(c: char) {
    || c == '\t' || c == '\n' || c == '\U{B}' || c == '\U{C}' || c == '\r' || c == ' '
    || c == '\U{A0}' || c == '\U{1680}' || ('\U{2000}' <= c <= '\U{200A}')
    || c == '\U{2028}' || c == '\U{2029}' || c == '\U{202F}' || c == '\U{205F}'
    || c == '\U{3000}' || c == '\U{FEFF}'
  }

  /** Every character of `s` is whitespace (the empty string included). */
  predicate IsBlank(s: string) {
    forall i :: 0 <= i < |s| ==> IsJsWhitespace(s[i])
  }

  /** The index of the first non-whitespace character of `s` at or after `from`; `|s|` if none. */
  function LeadingEnd(s: string, from: nat): (n: nat)
    requires from <= |s|
    ensures from <= n <= |s|
    ensures forall k :: from <= k < n ==> IsJsWhitespace(s[k])
    ensures n < |s| ==> !IsJsWhitespace(s[n])
    decreases |s| - from
  {
    if from < |s| && IsJsWhitespace(s[from]) then LeadingEnd(s, from + 1) else from
  }

  /** The index just past the last non-whitespace character of `s[lo..hi]`; `lo` if none. */
  function TrailingStart(s: string, lo: nat, hi: nat): (n: nat)
    requires lo <= hi <= |s|
    ensures lo <= n <= hi
    ensures forall k :: n <= k < hi ==> IsJsWhitespace(s[k])
    ensures n > lo ==> !IsJsWhitespace(s[n - 1])
    decreases hi
  {
    if lo < hi && IsJsWhitespace(s[hi - 1]) then TrailingStart(s, lo, hi - 1) else hi
  }

  /**
   * `s.trim()`: the empty string exactly when `s` is blank; otherwise a string that neither
   * starts nor ends with whitespace, and `s` itself when `s` already has no such ends.
   */
  function Trim(s: string): (r: string)
    ensures r == [] <==> IsBlank(s)
    ensures r != [] ==> !IsJsWhitespace(r[0]) && !IsJsWhitespace(r[|r| - 1])
    ensures s != [] && !IsJsWhitespace(s[0]) && !IsJsWhitespace(s[|s| - 1]) ==> r == s
  {
    var a := LeadingEnd(s, 0);
    var b := TrailingStart(s, a, |s|);
    s[a..b]
  }

  // ---------------------------------------------------------------------------------------
  // string order

  /** Binary (code point) string order: the order a sort on a string field uses. */
  predicate LexLess(a: string, b: string)
    ensures LexLess(a, b) ==> a != b
    decreases |a|
  {
    if |a| == 0 then |b| > 0
    else if |b| == 0 then false
    else if a[0] != b[0] then a[0] < b[0]
    else LexLess(a[1..], b[1..])
  }

  lemma {:induction false} LexLessTransitive(a: string, b: string, c: string)
    requires LexLess(a, b) && LexLess(b, c)
    ensures LexLess(a, c)
    decreases |a|
  {
    if |a| > 0 && a[0] == b[0] == c[0] {
      LexLessTransitive(a[1..], b[1..], c[1..]);
    }
  }

  lemma {:induction false} LexLessTotal(a: string, b: string)
    ensures a == b || LexLess(a, b) || LexLess(b, a)
    decreases |a|
  {
    if |a| > 0 && |b| > 0 && a[0] == b[0] {
      LexLessTotal(a[1..], b[1..]);
      if a[1..] == b[1..] {
        assert a == [a[0]] + a[1..] && b == [b[0]] + b[1..];
      }
    }
  }

  lemma {:induction false} LexLessAsymmetric(a: string, b: string)
    requires LexLess(a, b)
    ensures !LexLess(b, a)
    decreases |a|
  {
    if |a| > 0 && |b| > 0 && a[0] == b[0] {
      LexLessAsymmetric(a[1..], b[1..]);
    }
  }

  /** "`a` is not older than `b`" is transitive: the relation a newest-first sort keeps. */
  lemma NotLessTransitive(a: string, b: string, c: string)
    requires !LexLess(a, b) && !LexLess(b, c)
    ensures !LexLess(a, c)
  {
    LexLessTotal(a, b);
    if LexLess(a, c) && a != b {
      LexLessTransitive(b, a, c);
    }
  }

  // ---------------------------------------------------------------------------------------
  // indexOf and split

  /** `sep` occurs in `s` starting at index `k`. */
  predicate OccursAt(s: string, sep: string, k: int) {
    0 <= k && k + |sep| <= |s| && s[k..k + |sep|] == sep
  }

  /** `sep` occurs somewhere in `s`. */
  ghost predicate Occurs(s: string, sep: string) {
    exists k :: OccursAt(s, sep, k)
  }

  /** `s.indexOf(sep, from)`: the first position at or after `from` where `sep` occurs. */
  function IndexOfFrom(s: string, sep: string, from: nat): (r: Option<nat>)
    requires from <= |s|
    ensures r.Some? ==> from <= r.value && r.value + |sep| <= |s|
    decreases |s| - from
  {
    if OccursAt(s, sep, from) then Some(from)
    else if from == |s| then None
    else IndexOfFrom(s, sep, from + 1)
  }

  /** The search finds the first occurrence at or after `from`, and finds none only when there is none. */
  lemma {:induction false} IndexOfFromIsFirst(s: string, sep: string, from: nat)
    requires from <= |s|
    ensures IndexOfFrom(s, sep, from).Some? ==> OccursAt(s, sep, IndexOfFrom(s, sep, from).value)
    ensures IndexOfFrom(s, sep, from).Some? ==>
      forall k :: from <= k < IndexOfFrom(s, sep, from).value ==> !OccursAt(s, sep, k)
    ensures IndexOfFrom(s, sep, from).None? ==> forall k :: from <= k ==> !OccursAt(s, sep, k)
    decreases |s| - from
  {
    if !OccursAt(s, sep, from) && from < |s| {
      IndexOfFromIsFirst(s, sep, from + 1);
    }
  }

  /** `s.indexOf(sep)`, with None for -1. */
  function IndexOf(s: string, sep: string): (r: Option<nat>)
    ensures r.Some? ==> r.value + |sep| <= |s|
  {
    IndexOfFrom(s, sep, 0)
  }

  /** `indexOf` finds the first occurrence, and reports none exactly when `sep` does not occur. */
  lemma IndexOfIsFirst(s: string, sep: string)
    ensures IndexOf(s, sep).None? <==> !Occurs(s, sep)
    ensures IndexOf(s, sep).Some? ==> OccursAt(s, sep, IndexOf(s, sep).value)
    ensures IndexOf(s, sep).Some? ==> forall k :: k < IndexOf(s, sep).value ==> !OccursAt(s, sep, k)
  {
    IndexOfFromIsFirst(s, sep, 0);
  }

  /** An occurrence with none before it is the one `indexOf` reports. */
  lemma IndexOfAt(s: string, sep: string, i: nat)
    requires OccursAt(s, sep, i)
    requires forall k :: 0 <= k < i ==> !OccursAt(s, sep, k)
    ensures IndexOf(s, sep) == Some(i)
  {
    IndexOfIsFirst(s, sep);
  }

  /** No occurrence of `sep` lies inside a prefix of `s` that ends before the first occurrence. */
  lemma PrefixBeforeFirstOccurrence(s: string, sep: string, i: nat)
    requires |sep| > 0 && i <= |s|
    requires forall k :: k < i ==> !OccursAt(s, sep, k)
    ensures !Occurs(s[..i], sep)
  {
    forall k | 0 <= k && k + |sep| <= i
      ensures !OccursAt(s[..i], sep, k)
    {
      assert !OccursAt(s, sep, k);
      assert s[..i][k..k + |sep|] == s[k..k + |sep|];
    }
  }

  /**
   * `s.split(sep)` for a non-empty separator: the pieces between successive non-overlapping
   * occurrences, scanning left to right.
   */
  function Split(s: string, sep: string): (parts: seq<string>)
    requires |sep| > 0
    ensures |parts| >= 1
    decreases |s|
  {
    match IndexOf(s, sep)
    case None => [s]
    case Some(i) => [s[..i]] + Split(s[i + |sep|..], sep)
  }

  /** Splitting at the first occurrence: the text before it, then the pieces of the text after it. */
  lemma SplitAtFirst(s: string, sep: string, i: nat)
    requires |sep| > 0 && IndexOf(s, sep) == Some(i)
    ensures Split(s, sep) == [s[..i]] + Split(s[i + |sep|..], sep)
  {
  }

  /** No piece contains the separator, and there is a single piece exactly when `sep` does not occur. */
  lemma {:induction false} SplitPiecesFree(s: string, sep: string)
    requires |sep| > 0
    ensures forall k :: 0 <= k < |Split(s, sep)| ==> !Occurs(Split(s, sep)[k], sep)
    ensures |Split(s, sep)| == 1 <==> !Occurs(s, sep)
    decreases |s|
  {
    IndexOfIsFirst(s, sep);
    match IndexOf(s, sep)
    case None =>
    case Some(i) =>
      var rest := s[i + |sep|..];
      SplitPiecesFree(rest, sep);
      PrefixBeforeFirstOccurrence(s, sep, i);
      SplitAtFirst(s, sep, i);
  }

  /** `parts.join(sep)`. */
  function Join(parts: seq<string>, sep: string): string
    requires |parts| >= 1
  {
    if |parts| == 1 then parts[0] else parts[0] + sep + Join(parts[1..], sep)
  }

  lemma JoinCons(head: string, parts: seq<string>, sep: string)
    requires |parts| >= 1
    ensures Join([head] + parts, sep) == head + sep + Join(parts, sep)
  {
    assert ([head] + parts)[1..] == parts;
  }

  lemma Recompose(s: string, i: nat, n: nat)
    requires i + n <= |s|
    ensures s == s[..i] + s[i..i + n] + s[i + n..]
  {
  }

  /** Joining the pieces back with the separator gives the original string: nothing is lost. */
  lemma {:induction false} JoinSplit(s: string, sep: string)
    requires |sep| > 0
    ensures Join(Split(s, sep), sep) == s
    decreases |s|
  {
    match IndexOf(s, sep)
    case None =>
    case Some(i) =>
      var rest := s[i + |sep|..];
      IndexOfIsFirst(s, sep);
      SplitAtFirst(s, sep, i);
      JoinSplit(rest, sep);
      JoinCons(s[..i], Split(rest, sep), sep);
      Recompose(s, i, |sep|);
  }
}
