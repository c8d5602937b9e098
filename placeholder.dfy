// The import placeholder of lib/go/contracts/contracts.go, line 38: the
// regular expression `"[^"\s].*/NAME.cdc"` built for one import name, and
// `ReplaceAllString` with it, written out by hand.
//
// A match starts at a double quote followed by a character that is neither a
// quote nor white space (`\s` is tab, newline, form feed, carriage return and
// space).  Then `.*` runs over any characters but a newline, and the match
// ends with the closing `/NAME?cdc"`, where `?` is the unescaped `.` of the
// pattern: any character but a newline.  Among the starts the leftmost one
// wins, and from a start the greedy `.*` takes the rightmost closing on the
// same line.  Scanning resumes after the match.
module Placeholder {
  import opened Options

  /** `\s` of the Go regular expression syntax. */
  predicate IsSpace(c: char) {
    c == ' ' || c == '\t' || c == '\n' || c == '\U{000C}' || c == '\r'
  }

  predicate IsIdentifierChar(c: char) {
    ('a' <= c <= 'z') || ('A' <= c <= 'Z') || ('0' <= c <= '9') || c == '_'
  }

  /**
    * An import name that `%v` can paste into the pattern without adding a
    * metacharacter.
    */
  predicate IsIdentifier(name: string) {
    |name| > 0 && forall k :: 0 <= k < |name| ==> IsIdentifierChar(name[k])
  }

  /** Length of the closing `/NAME.cdc"`. */
  function ClosingLength(name: string): nat {
    |name| + 6
  }

  /** `w` is exactly a closing `/NAME?cdc"` of the pattern for `name`. */
  predicate IsClosing(w: string, name: string) {
    |w| == ClosingLength(name) && w[0] == '/' && w[1..|name| + 1] == name
    && w[|name| + 1] != '\n' && w[|name| + 2..] == "cdc\""
  }

  /** A closing for `name` starts at index `j` of `s`. */
  predicate ClosesAt(s: string, j: nat, name: string) {
    j + ClosingLength(name) <= |s| && IsClosing(s[j..j + ClosingLength(name)], name)
  }

  /** `"[^"\s]` matches at index `i` of `s`. */
  predicate Opens(s: string, i: nat) {
    i + 1 < |s| && s[i] == '"' && s[i + 1] != '"' && !IsSpace(s[i + 1])
  }

  /** No newline among `s[a..b]`, so `.*` can run over it. */
  predicate NoNewline(s: string, a: nat, b: nat)
    requires a <= b <= |s|
  {
    forall k :: a <= k < b ==> s[k] != '\n'
  }

  /**
    * The pattern for `name` matches `s` from index `i` up to the closing that
    * starts at index `j`, i.e. the span `s[i..j + ClosingLength(name)]`.
    */
  predicate MatchSpan(s: string, i: nat, j: nat, name: string) {
    Opens(s, i) && i + 2 <= j && ClosesAt(s, j, name) && NoNewline(s, i + 2, j)
  }

  /** The pattern for `name` matches somewhere in `s`. */
  ghost predicate HasMatch(s: string, name: string) {
    exists i: nat, j: nat :: MatchSpan(s, i, j, name)
  }

  /** `j` is the closing the greedy `.*` stops at from `i`: the last one a match from `i` reaches. */
  ghost predicate IsGreedyMatch(s: string, i: nat, j: nat, name: string) {
    MatchSpan(s, i, j, name) && forall k: nat :: j < k ==> !MatchSpan(s, i, k, name)
  }

  /** No match of the pattern for `name` starts in `[a, b)`. */
  ghost predicate NoMatchFrom(s: string, a: nat, b: nat, name: string) {
    forall k: nat, j: nat :: a <= k < b ==> !MatchSpan(s, k, j, name)
  }

  /** The first newline at or after `k`, or the length of `s` when there is none. */
  function LineEnd(s: string, k: nat): (r: nat)
    requires k <= |s|
    ensures k <= r <= |s|
    ensures r < |s| ==> s[r] == '\n'
    ensures NoNewline(s, k, r)
    decreases |s| - k
  {
    if k == |s| || s[k] == '\n' then k else LineEnd(s, k + 1)
  }

  /** The last index in `[lo, hi)` where a closing for `name` starts. */
  function LastClosing(s: string, lo: nat, hi: nat, name: string): (r: Option<nat>)
    requires lo <= hi <= |s|
    ensures r.Some? ==> lo <= r.value < hi && ClosesAt(s, r.value, name)
    ensures r.Some? ==> forall k :: r.value < k < hi ==> !ClosesAt(s, k, name)
    ensures r.None? ==> forall k :: lo <= k < hi ==> !ClosesAt(s, k, name)
    decreases hi - lo
  {
    if lo == hi then None
    else if ClosesAt(s, hi - 1, name) then Some(hi - 1)
    else LastClosing(s, lo, hi - 1, name)
  }

  /** The characters of a closing are never a newline. */
  lemma ClosingHasNoNewline(s: string, j: nat, name: string)
    requires IsIdentifier(name) && ClosesAt(s, j, name)
    ensures s[j] == '/' && s[j + ClosingLength(name) - 1] == '"'
    ensures NoNewline(s, j, j + ClosingLength(name))
  {
    var w := s[j..j + ClosingLength(name)];
    forall k | j <= k < j + ClosingLength(name)
      ensures s[k] != '\n'
    {
      var t := k - j;
      assert s[k] == w[t];
      if 1 <= t < |name| + 1 {
        assert w[t] == w[1..|name| + 1][t - 1] == name[t - 1];
        assert IsIdentifierChar(name[t - 1]);
      } else if t >= |name| + 2 {
        assert w[t] == w[|name| + 2..][t - |name| - 2];
      }
    }
    assert w[|w| - 1] == w[|name| + 2..][3];
  }

  /**
    * The leftmost-longest match from index `i`: the end of the greedy `.*` is
    * the rightmost closing reachable without crossing a newline.
    */
  function Greedy(s: string, i: nat, name: string): (r: Option<nat>)
    ensures r.Some? ==> IsGreedyMatch(s, i, r.value, name)
    ensures r.None? ==> forall k: nat :: !MatchSpan(s, i, k, name)
  {
    if Opens(s, i) then
      var hi := LineEnd(s, i + 2);
      var r := LastClosing(s, i + 2, hi, name);
      assert forall k: nat :: MatchSpan(s, i, k, name) ==> i + 2 <= k < hi by {
        forall k: nat | MatchSpan(s, i, k, name)
          ensures k < hi
        {
          assert s[k] == s[k..k + ClosingLength(name)][0] == '/';
        }
      }
      r
    else
      None
  }

  /**
    * The leftmost start at or after `from` from which the pattern matches,
    * with the closing that the greedy match ends at.
    */
  function Leftmost(s: string, from: nat, name: string): (r: Option<(nat, nat)>)
    ensures r.Some? ==> from <= r.value.0 && Greedy(s, r.value.0, name) == Some(r.value.1)
    ensures r.Some? ==> NoMatchFrom(s, from, r.value.0, name)
    ensures r.None? ==> NoMatchFrom(s, from, |s|, name)
    decreases |s| - from
  {
    if from >= |s| then None
    else match Greedy(s, from, name)
      case Some(j) => Some((from, j))
      case None => Leftmost(s, from + 1, name)
  }

  /**
    * A replaced span: the match that opens at `start` and whose closing starts
    * at `closing`, i.e. `s[start..closing + ClosingLength(name)]`.
    */
  datatype Span = Span(start: nat, closing: nat)

  /** End of a span: the index just after its closing quote. */
  function SpanEnd(sp: Span, name: string): nat {
    sp.closing + ClosingLength(name)
  }

  /**
    * `spans` are the spans that `ReplaceAllString` replaces in `s` from index
    * `from` on: each one opens at the leftmost index where a match starts,
    * ends at the greedy closing, and the scan resumes after it; when no match
    * is left, the list ends.
    */
  ghost predicate ReplacedSpans(s: string, from: nat, spans: seq<Span>, name: string)
    decreases |spans|
  {
    from <= |s| &&
    if spans == [] then NoMatchFrom(s, from, |s|, name)
    else
      from <= spans[0].start && NoMatchFrom(s, from, spans[0].start, name)
      && IsGreedyMatch(s, spans[0].start, spans[0].closing, name)
      && ReplacedSpans(s, SpanEnd(spans[0], name), spans[1..], name)
  }

  /** The matches that `ReplaceAllString` finds in `s` from index `from` on, left to right. */
  function MatchesFrom(s: string, from: nat, name: string): (spans: seq<Span>)
    requires from <= |s|
    ensures ReplacedSpans(s, from, spans, name)
    decreases |s| - from
  {
    match Leftmost(s, from, name)
    case None => []
    case Some((m, j)) => [Span(m, j)] + MatchesFrom(s, j + ClosingLength(name), name)
  }

  /**
    * The output of `ReplaceAllString` from index `from` on: the text between
    * the spans is copied, and each span, quotes included, becomes `rep`,
    * taken literally.
    */
  function Stitch(s: string, from: nat, spans: seq<Span>, name: string, rep: string): string
    requires ReplacedSpans(s, from, spans, name)
    decreases |spans|
  {
    if spans == [] then s[from..]
    else s[from..spans[0].start] + rep + Stitch(s, SpanEnd(spans[0], name), spans[1..], name, rep)
  }

  /**
    * `placeholder.ReplaceAllString(code, rep)` for the placeholder of `name`:
    * a text holding no placeholder comes back unchanged.
    */
  function ReplaceAll(s: string, name: string, rep: string): (r: string)
    ensures !HasMatch(s, name) ==> r == s
  {
    Stitch(s, 0, MatchesFrom(s, 0, name), name, rep)
  }
}
