/**
  * What one `ReplaceAllString` pass with the import placeholder does to the
  * text: the replaced spans are the only leftmost-greedy segmentation of the
  * text, outside them nothing changes, a text without a match is returned as
  * it is, and the output holds no match of the replaced name and no match of
  * any other name that the input did not already hold.
  */
module ReplaceFacts {
  import opened Placeholder

  /**
    * The replaced spans are determined by the text: two lists that both scan
    * leftmost-first with greedy closings are the same list.
    */
  lemma {:induction false} ReplacedSpansUnique(s: string, from: nat, a: seq<Span>, b: seq<Span>, name: string)
    requires ReplacedSpans(s, from, a, name) && ReplacedSpans(s, from, b, name)
    ensures a == b
    decreases |a|
  {
    if a != [] && b != [] {
      assert MatchSpan(s, a[0].start, a[0].closing, name);
      assert MatchSpan(s, b[0].start, b[0].closing, name);
      assert a[0].start == b[0].start;
      assert a[0].closing == b[0].closing;
      ReplacedSpansUnique(s, SpanEnd(a[0], name), a[1..], b[1..], name);
      assert a == [a[0]] + a[1..] && b == [b[0]] + b[1..];
    }
  }

  /**
    * `ReplaceAll` is the stitching over any leftmost-greedy segmentation of
    * the text: it copies the text between the spans and puts `rep` in place
    * of each span.
    */
  lemma ReplaceAllIsStitch(s: string, name: string, rep: string, spans: seq<Span>)
    requires ReplacedSpans(s, 0, spans, name)
    ensures ReplaceAll(s, name, rep) == Stitch(s, 0, spans, name, rep)
  {
    ReplacedSpansUnique(s, 0, MatchesFrom(s, 0, name), spans, name);
  }

  /**
    * The text before the first placeholder is copied unchanged: when no match
    * opens in `s[..n]`, the output starts with `s[..n]`.
    */
  lemma ReplaceAllKeepsUnmatchedPrefix(s: string, name: string, rep: string, n: nat)
    requires n <= |s| && NoMatchFrom(s, 0, n, name)
    ensures n <= |ReplaceAll(s, name, rep)| && ReplaceAll(s, name, rep)[..n] == s[..n]
  {
    var spans := MatchesFrom(s, 0, name);
    if spans != [] {
      var m := spans[0].start;
      assert MatchSpan(s, m, spans[0].closing, name);
      assert n <= m;
      assert ReplaceAll(s, name, rep)[..n] == s[0..m][..n];
    }
  }

  /**
    * A line holding one quoted import path that ends in `/NAME.cdc`, after a
    * text without quotes, becomes that text followed by `rep`: the path goes,
    * both quotes included.
    */
  lemma ImportPathReplaced(p: string, rel: string, name: string, rep: string)
    requires IsIdentifier(name) && '"' !in p
    requires rel != [] && rel[0] != '"' && !IsSpace(rel[0]) && '\n' !in rel
    ensures ReplaceAll(p + "\"" + rel + "/" + name + ".cdc\"", name, rep) == p + rep
  {
    var s := p + "\"" + rel + "/" + name + ".cdc\"";
    var span := Span(|p|, |p| + 1 + |rel|);
    ImportPathSpans(p, rel, name, rep, s);
    ReplaceAllIsStitch(s, name, rep, [span]);
  }

  /** The quoted path is the one span replaced in such a line. */
  lemma ImportPathSpans(p: string, rel: string, name: string, rep: string, s: string)
    requires IsIdentifier(name) && '"' !in p
    requires rel != [] && rel[0] != '"' && !IsSpace(rel[0]) && '\n' !in rel
    requires s == p + "\"" + rel + "/" + name + ".cdc\""
    ensures ReplacedSpans(s, 0, [Span(|p|, |p| + 1 + |rel|)], name)
    ensures Stitch(s, 0, [Span(|p|, |p| + 1 + |rel|)], name, rep) == p + rep
  {
    var i, j := |p|, |p| + 1 + |rel|;
    ImportPathMatch(p, rel, name, s);
    forall k: nat, j': nat | k < i
      ensures !MatchSpan(s, k, j', name)
    {
      assert s[k] == p[k];
    }
    assert ReplacedSpans(s, 0, [Span(i, j)], name);
    assert s[..i] == p;
  }

  /** The quoted path of such a line is a match, ending where the line ends. */
  lemma ImportPathMatch(p: string, rel: string, name: string, s: string)
    requires IsIdentifier(name)
    requires rel != [] && rel[0] != '"' && !IsSpace(rel[0]) && '\n' !in rel
    requires s == p + "\"" + rel + "/" + name + ".cdc\""
    ensures |p| + 1 + |rel| + ClosingLength(name) == |s|
    ensures MatchSpan(s, |p|, |p| + 1 + |rel|, name)
  {
    var i, j := |p|, |p| + 1 + |rel|;
    assert s[i] == '"' && s[i + 1] == rel[0];
    assert s[j..] == "/" + name + ".cdc\"";
    assert IsClosing(s[j..j + ClosingLength(name)], name) by {
      var w := s[j..j + ClosingLength(name)];
      assert w == "/" + name + ".cdc\"";
      assert w[1..|name| + 1] == name;
      assert w[|name| + 2..] == ".cdc\""[1..] == "cdc\"";
    }
    forall k | i + 2 <= k < j
      ensures s[k] != '\n'
    {
      assert s[k] == rel[k - i - 1];
    }
  }

  /**
    * No placeholder of `name` fits after any double quote of `s`: the text
    * after each quote is too short for a closing of `name`.
    */
  lemma NoRoomForMatch(s: string, name: string)
    requires forall k :: 0 <= k < |s| && s[k] == '"' ==> |s| < k + 2 + ClosingLength(name)
    ensures !HasMatch(s, name)
  {
  }

  /** A match read through a window that two strings share is a match of both. */
  lemma MatchSpanWindow(t: string, a: nat, n: nat, u: string, c: nat, p: nat, q: nat, name: string)
    requires a + n <= |t| && c + n <= |u| && t[a..a + n] == u[c..c + n]
    requires a <= p && q + ClosingLength(name) <= a + n
    requires MatchSpan(t, p, q, name)
    ensures MatchSpan(u, c + (p - a), c + (q - a), name)
  {
    forall k | a <= k < a + n
      ensures t[k] == u[c + (k - a)]
    {
      assert t[k] == t[a..a + n][k - a];
    }
    var L := ClosingLength(name);
    var q' := c + (q - a);
    assert t[q..q + L] == u[q'..q' + L];
    forall k | c + (p - a) + 2 <= k < q'
      ensures u[k] != '\n'
    {
      assert u[k] == t[a + (k - c)];
    }
  }

  /** Two stretches without a newline that meet make one. */
  lemma NoNewlineJoin(s: string, a: nat, b: nat, c: nat)
    requires a <= b <= c <= |s|
    requires NoNewline(s, a, b) && NoNewline(s, b, c)
    ensures NoNewline(s, a, c)
  {
  }

  /**
    * After a greedy match no other match of the same name starts on the rest
    * of its line: the greedy `.*` already ran to the line's last closing.
    */
  lemma RestOfLineUnmatched(s: string, m: nat, j: nat, name: string)
    requires IsIdentifier(name) && IsGreedyMatch(s, m, j, name)
    ensures j + ClosingLength(name) <= |s|
    ensures NoMatchFrom(s, j + ClosingLength(name), LineEnd(s, j + ClosingLength(name)), name)
  {
    MatchesOnRestOfLineExtend(s, m, j, name);
  }

  /**
    * A match that opens on the rest of a match's line, after its closing,
    * also completes a longer match from the first one's opening.
    */
  lemma MatchesOnRestOfLineExtend(s: string, m: nat, j: nat, name: string)
    requires IsIdentifier(name) && MatchSpan(s, m, j, name)
    ensures forall k: nat, j': nat ::
      j + ClosingLength(name) <= k < LineEnd(s, j + ClosingLength(name)) && MatchSpan(s, k, j', name)
      ==> j < j' && MatchSpan(s, m, j', name)
  {
    var e := j + ClosingLength(name);
    ClosingHasNoNewline(s, j, name);
    NoNewlineJoin(s, m + 2, j, e);
    forall k: nat, j': nat | e <= k < LineEnd(s, e) && MatchSpan(s, k, j', name)
      ensures j < j' && MatchSpan(s, m, j', name)
    {
      assert NoNewline(s, e, k + 2);
      NoNewlineJoin(s, m + 2, e, k + 2);
      NoNewlineJoin(s, m + 2, k + 2, j');
    }
  }

  /**
    * A match of the output that opens in the text copied before the leftmost
    * match and closes at or beyond that match's start would give an earlier
    * match of `name` in the input.
    */
  lemma StraddleOpensEarlier(s: string, from: nat, m: nat, j: nat, name: string,
                             out: string, p: nat, q: nat, other: string)
    requires IsIdentifier(name) && IsIdentifier(other)
    requires from <= m && MatchSpan(s, m, j, name)
    requires m - from <= |out| && out[..m - from] == s[from..m]
    requires p + 2 <= m - from < q + ClosingLength(other)
    requires MatchSpan(out, p, q, other)
    ensures MatchSpan(s, from + p, j, name)
  {
    ClosingHasNoNewline(out, q, other);
    forall k | from + p + 2 <= k < m
      ensures s[k] != '\n'
    {
      assert s[k] == s[from..m][k - from] == out[k - from];
    }
    assert s[from + p] == out[p] && s[from + p + 1] == out[p + 1];
  }

  /**
    * A closing on the first line of `tail`, the output that follows a match of
    * `name` ending at `e` when that output copies the rest of the line, is a
    * closing in the input on the same line, within reach of the match's opening.
    */
  lemma ClosingOnRestOfLine(s: string, m: nat, j: nat, name: string, e: nat, r: nat,
                            tail: string, q': nat, other: string)
    requires IsIdentifier(name) && IsIdentifier(other)
    requires MatchSpan(s, m, j, name) && e == j + ClosingLength(name)
    requires e <= r <= |s| && NoNewline(s, e, r) && (r < |s| ==> s[r] == '\n')
    requires r == |s| ==> tail == s[e..]
    requires r < |s| ==> |tail| > r - e && tail[..r - e + 1] == s[e..r + 1]
    requires ClosesAt(tail, q', other) && NoNewline(tail, 0, q')
    ensures MatchSpan(s, m, e + q', other)
  {
    var n := r - e;
    ClosingHasNoNewline(tail, q', other);
    assert n <= |tail|;
    assert tail[..n] == s[e..r] by {
      if r < |s| {
        assert tail[..n] == tail[..n + 1][..n];
      }
    }
    assert q' + ClosingLength(other) <= n by {
      if r < |s| {
        assert tail[n] == tail[..n + 1][n] == s[r];
      }
    }
    forall k | 0 <= k < n
      ensures tail[k] == s[e + k]
    {
      assert tail[k] == tail[..n][k];
    }
    assert tail[q'..q' + ClosingLength(other)] == s[e + q'..e + q' + ClosingLength(other)];
    assert NoNewline(s, e, e + q');
    ClosingHasNoNewline(s, j, name);
    NoNewlineJoin(s, m + 2, j, e);
    NoNewlineJoin(s, m + 2, e, e + q');
  }

  /**
    * The step of `OutputMatchFromInput` for a match that opens before the
    * output of the later passes: in the copied text `s[from..m]`, or on its
    * last character, just before `rep`.
    */
  lemma MatchBeforeLaterPasses(s: string, from: nat, m: nat, j: nat, name: string, rep: string,
                               r: nat, tail: string, out: string, p: nat, q: nat, other: string)
    requires IsIdentifier(name) && IsIdentifier(other)
    requires '"' !in rep && '/' !in rep
    requires from <= m && IsGreedyMatch(s, m, j, name) && NoMatchFrom(s, from, m, name)
    requires j + ClosingLength(name) <= r <= |s| && NoNewline(s, j + ClosingLength(name), r)
    requires r < |s| ==> s[r] == '\n'
    requires r == |s| ==> tail == s[j + ClosingLength(name)..]
    requires r < |s| ==> |tail| > r - (j + ClosingLength(name)) &&
                         tail[..r - (j + ClosingLength(name)) + 1] == s[j + ClosingLength(name)..r + 1]
    requires out == s[from..m] + rep + tail
    requires p < m - from + |rep|
    requires MatchSpan(out, p, q, other)
    ensures other != name && HasMatch(s, other)
  {
    var head := s[from..m];
    ClosingHasNoNewline(out, q, other);
    if p >= |head| {
      // `rep` holds no quote, so no match opens inside it.
      assert false;
    } else if p + 2 <= |head| {
      MatchInCopiedText(s, from, m, j, name, out, p, q, other);
    } else {
      MatchOpensBeforeRep(s, from, m, j, name, rep, r, tail, out, p, q, other);
    }
  }

  /**
    * A match of the output that opens in the text copied before the leftmost
    * match, at least two characters before it, lies in that text: otherwise
    * it would open a match of `name` left of the leftmost one.
    */
  lemma MatchInCopiedText(s: string, from: nat, m: nat, j: nat, name: string,
                          out: string, p: nat, q: nat, other: string)
    requires IsIdentifier(name) && IsIdentifier(other)
    requires from <= m && MatchSpan(s, m, j, name) && NoMatchFrom(s, from, m, name)
    requires m - from <= |out| && out[..m - from] == s[from..m]
    requires p + 2 <= m - from
    requires MatchSpan(out, p, q, other)
    ensures other != name && HasMatch(s, other)
  {
    if q + ClosingLength(other) <= m - from {
      assert out[0..m - from] == s[from..from + (m - from)];
      MatchSpanWindow(out, 0, m - from, s, from, p, q, other);
      assert MatchSpan(s, from + p, from + q, other);
    } else {
      StraddleOpensEarlier(s, from, m, j, name, out, p, q, other);
      assert false;
    }
  }

  /**
    * A match of the output that opens on the last copied character, just
    * before `rep`: its closing lies in `tail` (`rep` holds no slash), on the
    * first line of `tail`, which copies the rest of the greedy match's line.
    */
  lemma MatchOpensBeforeRep(s: string, from: nat, m: nat, j: nat, name: string, rep: string,
                            r: nat, tail: string, out: string, p: nat, q: nat, other: string)
    requires IsIdentifier(name) && IsIdentifier(other)
    requires '/' !in rep
    requires from <= m && IsGreedyMatch(s, m, j, name)
    requires j + ClosingLength(name) <= r <= |s| && NoNewline(s, j + ClosingLength(name), r)
    requires r < |s| ==> s[r] == '\n'
    requires r == |s| ==> tail == s[j + ClosingLength(name)..]
    requires r < |s| ==> |tail| > r - (j + ClosingLength(name)) &&
                         tail[..r - (j + ClosingLength(name)) + 1] == s[j + ClosingLength(name)..r + 1]
    requires out == s[from..m] + rep + tail
    requires p + 1 == m - from
    requires MatchSpan(out, p, q, other)
    ensures other != name && HasMatch(s, other)
  {
    var e := j + ClosingLength(name);
    var off := m - from + |rep|;
    ClosingHasNoNewline(out, q, other);
    if q < off {
      assert false;
    }
    var q' := q - off;
    assert out[off..] == tail;
    forall k | 0 <= k < q'
      ensures tail[k] != '\n'
    {
      assert tail[k] == out[off + k];
    }
    assert ClosesAt(tail, q', other) by {
      assert out[q..q + ClosingLength(other)] == tail[q'..q' + ClosingLength(other)];
    }
    ClosingOnRestOfLine(s, m, j, name, e, r, tail, q', other);
    assert MatchSpan(s, m, e + q', other);
  }

  /**
    * When nothing matches on the rest of the line from `from`, the output from
    * there on starts with that rest of the line, copied, and its newline.
    */
  lemma CopiesRestOfLine(s: string, from: nat, spans: seq<Span>, name: string, rep: string,
                         r: nat, out: string)
    requires ReplacedSpans(s, from, spans, name) && r == LineEnd(s, from)
    requires out == Stitch(s, from, spans, name, rep)
    requires NoMatchFrom(s, from, r, name)
    ensures r == |s| ==> out == s[from..]
    ensures r < |s| ==> |out| > r - from && out[..r - from + 1] == s[from..r + 1]
  {
    if spans != [] && r < |s| {
      var m := spans[0].start;
      assert MatchSpan(s, m, spans[0].closing, name);
      assert r < m;
      assert out == s[from..m] + rep + Stitch(s, SpanEnd(spans[0], name), spans[1..], name, rep);
      assert out[..r - from + 1] == s[from..m][..r - from + 1];
    }
  }

  /**
    * Every match in the output of a replacement pass comes from the input: it
    * is a match of another name, which the input already had, and never one of
    * the name just replaced.  `rep` holds no quote and no slash, so it can
    * neither open a match nor start a closing.
    */
  lemma {:induction false} OutputMatchFromInput(s: string, from: nat, spans: seq<Span>, name: string,
                                                rep: string, out: string, other: string, p: nat, q: nat)
    requires ReplacedSpans(s, from, spans, name) && out == Stitch(s, from, spans, name, rep)
    requires IsIdentifier(name) && IsIdentifier(other)
    requires '"' !in rep && '/' !in rep
    requires MatchSpan(out, p, q, other)
    ensures other != name && HasMatch(s, other)
    decreases |spans|, 1
  {
    if spans == [] {
      MatchAfterLastSpan(s, from, name, rep, other, p, q);
    } else if p >= spans[0].start - from + |rep| {
      MatchInLaterSpans(s, from, spans, name, rep, out, other, p, q);
    } else {
      MatchBeforeFirstRep(s, from, spans, name, rep, other, p, q);
    }
  }

  /**
    * The step of `OutputMatchFromInput` for a match of the output that opens
    * after the first `rep`: it is a match of the output of the later spans.
    */
  lemma {:induction false} MatchInLaterSpans(s: string, from: nat, spans: seq<Span>, name: string,
                                             rep: string, out: string, other: string, p: nat, q: nat)
    requires ReplacedSpans(s, from, spans, name) && spans != [] && out == Stitch(s, from, spans, name, rep)
    requires IsIdentifier(name) && IsIdentifier(other)
    requires '"' !in rep && '/' !in rep
    requires p >= spans[0].start - from + |rep| && MatchSpan(out, p, q, other)
    ensures other != name && HasMatch(s, other)
    decreases |spans|, 0
  {
    var head := s[from..spans[0].start] + rep;
    var tail := Stitch(s, SpanEnd(spans[0], name), spans[1..], name, rep);
    MatchInSuffix(out, head, tail, p, q, other);
    OutputMatchFromInput(s, SpanEnd(spans[0], name), spans[1..], name, rep, tail, other, p - |head|, q - |head|);
  }

  /** The base case of `OutputMatchFromInput`: past the last span, the output is the input. */
  lemma MatchAfterLastSpan(s: string, from: nat, name: string, rep: string, other: string, p: nat, q: nat)
    requires ReplacedSpans(s, from, [], name)
    requires MatchSpan(Stitch(s, from, [], name, rep), p, q, other)
    ensures other != name && HasMatch(s, other)
  {
    var out := Stitch(s, from, [], name, rep);
    assert out[0..|out|] == s[from..from + |out|];
    MatchSpanWindow(out, 0, |out|, s, from, p, q, other);
    assert MatchSpan(s, from + p, from + q, other);
  }

  /** A match that opens past `head` in `out == head + tail` is a match of `tail`. */
  lemma MatchInSuffix(out: string, head: string, tail: string, p: nat, q: nat, other: string)
    requires out == head + tail
    requires p >= |head| && MatchSpan(out, p, q, other)
    ensures MatchSpan(tail, p - |head|, q - |head|, other)
  {
    assert out[|head|..|head| + |tail|] == tail[0..|tail|];
    MatchSpanWindow(out, |head|, |tail|, tail, 0, p, q, other);
  }

  /**
    * The step of `OutputMatchFromInput` for a match of the output that opens
    * before the output of the later spans.
    */
  lemma MatchBeforeFirstRep(s: string, from: nat, spans: seq<Span>, name: string,
                            rep: string, other: string, p: nat, q: nat)
    requires ReplacedSpans(s, from, spans, name) && spans != []
    requires IsIdentifier(name) && IsIdentifier(other)
    requires '"' !in rep && '/' !in rep
    requires p < spans[0].start - from + |rep|
    requires MatchSpan(Stitch(s, from, spans, name, rep), p, q, other)
    ensures other != name && HasMatch(s, other)
  {
    var m, j := spans[0].start, spans[0].closing;
    var e := SpanEnd(spans[0], name);
    var tail := Stitch(s, e, spans[1..], name, rep);
    var r := LineEnd(s, e);
    RestOfLineUnmatched(s, m, j, name);
    CopiesRestOfLine(s, e, spans[1..], name, rep, r, tail);
    MatchBeforeLaterPasses(s, from, m, j, name, rep, r, tail, Stitch(s, from, spans, name, rep), p, q, other);
  }

  /** After the pass for `name`, no match of the placeholder for `name` is left. */
  lemma ReplaceAllLeavesNoMatch(s: string, name: string, rep: string)
    requires IsIdentifier(name)
    requires '"' !in rep && '/' !in rep
    ensures !HasMatch(ReplaceAll(s, name, rep), name)
  {
    if HasMatch(ReplaceAll(s, name, rep), name) {
      var p: nat, q: nat :| MatchSpan(ReplaceAll(s, name, rep), p, q, name);
      OutputMatchFromInput(s, 0, MatchesFrom(s, 0, name), name, rep, ReplaceAll(s, name, rep), name, p, q);
    }
  }

  /**
    * The pass for `name` creates no match of another name: a text without a
    * placeholder for `other` still has none afterwards.
    */
  lemma ReplaceAllKeepsAbsence(s: string, name: string, rep: string, other: string)
    requires IsIdentifier(name) && IsIdentifier(other)
    requires '"' !in rep && '/' !in rep
    requires !HasMatch(s, other)
    ensures !HasMatch(ReplaceAll(s, name, rep), other)
  {
    if HasMatch(ReplaceAll(s, name, rep), other) {
      var p: nat, q: nat :| MatchSpan(ReplaceAll(s, name, rep), p, q, other);
      OutputMatchFromInput(s, 0, MatchesFrom(s, 0, name), name, rep, ReplaceAll(s, name, rep), other, p, q);
    }
  }
}
