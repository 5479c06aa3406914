/**
 * The preview both indexers store: the stripped content split at blank-line separators
 * (`re.split(r'\n\s*\n', text, maxsplit=2)`), keeping the first two paragraphs joined by a
 * blank line, or the whole text when it has no separator.
 */
module Paragraphs {
  import opened Wrappers
  import opened PyStr

  /** A separator `\n\s*\n` can start at `k`: a newline, whitespace, then another newline. */
  ghost predicate BreakAt(t: string, k: nat) {
    k < |t| && t[k] == '\n' &&
    exists m :: k < m < |t| && t[m] == '\n' && forall q :: k < q < m ==> IsSpace(t[q])
  }

  /** First index at or after `j` that is not whitespace, or `|t|`. */
  function SpaceEnd(t: string, j: nat): (r: nat)
    requires j <= |t|
    ensures j <= r <= |t|
    ensures forall q :: j <= q < r ==> IsSpace(t[q])
    ensures r == |t| || !IsSpace(t[r])
    decreases |t| - j
  {
    if j < |t| && IsSpace(t[j]) then SpaceEnd(t, j + 1) else j
  }

  /** Where the separator starting at the newline `k` ends, when one starts there: the
      greedy `\s*` runs to the end of the whitespace and backs off to its last newline. */
  function BreakEnd(t: string, k: nat): (r: Option<nat>)
    requires k < |t| && t[k] == '\n'
    ensures r.Some? <==> BreakAt(t, k)
    ensures r.Some? ==> k + 2 <= r.value <= |t| && t[r.value - 1] == '\n' &&
                        forall q :: k <= q < r.value ==> IsSpace(t[q])
    ensures r.Some? ==> r.value <= SpaceEnd(t, k + 1) &&
                        forall q :: r.value <= q < SpaceEnd(t, k + 1) ==> t[q] != '\n'
  {
    var j := SpaceEnd(t, k + 1);
    var i := RFind(t[k + 1..j], '\n');
    if i >= 0 then
      assert t[k + 1 + i] == t[k + 1..j][i];
      assert forall q :: k + 2 + i <= q < j ==> t[q] == t[k + 1..j][q - k - 1];
      Some(k + 2 + i)
    else
      assert !BreakAt(t, k) by {
        forall m | k < m < |t| && t[m] == '\n' && forall q :: k < q < m ==> IsSpace(t[q])
          ensures false
        {
          assert IsSpace(t[m]);
        }
      }
      None
  }

  /** The leftmost separator at or after `from`, as (start, end). */
  function FindBreak(t: string, from: nat): (r: Option<(nat, nat)>)
    requires from <= |t|
    ensures r.Some? ==> from <= r.value.0 && r.value.0 + 2 <= r.value.1 <= |t|
    decreases |t| - from
  {
    if from == |t| then None
    else if t[from] == '\n' && BreakEnd(t, from).Some? then Some((from, BreakEnd(t, from).value))
    else FindBreak(t, from + 1)
  }

  /** `FindBreak` finds the leftmost separator, and the end the regex engine gives it. */
  lemma {:induction false} FindBreakLeftmost(t: string, from: nat)
    requires from <= |t|
    ensures var r := FindBreak(t, from);
            (r.None? ==> forall k :: from <= k < |t| ==> !BreakAt(t, k)) &&
            (r.Some? ==> BreakAt(t, r.value.0) && BreakEnd(t, r.value.0) == Some(r.value.1) &&
                         forall k :: from <= k < r.value.0 ==> !BreakAt(t, k))
    decreases |t| - from
  {
    if from < |t| && !(t[from] == '\n' && BreakEnd(t, from).Some?) {
      FindBreakLeftmost(t, from + 1);
    }
  }

  /** The preview of a file's content. */
  function Preview(content: string): string {
    PreviewOf(Strip(content))
  }

  /** The first two paragraphs of an already stripped text. */
  function PreviewOf(t: string): string {
    match FindBreak(t, 0)
    case None => t
    case Some((i1, e1)) =>
      var second := match FindBreak(t, e1)
                    case None => t[e1..]
                    case Some((i2, _)) => t[e1..i2];
      t[..i1] + "\n\n" + second
  }

  /** Without a blank-line separator the preview is the whole stripped content. */
  lemma PreviewSingleParagraph(content: string)
    requires forall k :: 0 <= k < |Strip(content)| ==> !BreakAt(Strip(content), k)
    ensures Preview(content) == Strip(content)
  {
    FindBreakLeftmost(Strip(content), 0);
  }

  /** A paragraph: non-empty, one line, no surrounding whitespace. */
  predicate Paragraph(a: string) {
    a != [] && '\n' !in a && !IsSpace(a[0]) && !IsSpace(a[|a| - 1])
  }

  /** The leftmost separator from `from` on is the one at `n`. */
  lemma {:induction false} FindBreakAt(t: string, from: nat, n: nat, e: nat)
    requires from <= n && BreakAt(t, n) && BreakEnd(t, n) == Some(e)
    requires forall k :: from <= k < n ==> !BreakAt(t, k)
    ensures FindBreak(t, from) == Some((n, e))
    decreases n - from
  {
    if from < n {
      assert !BreakAt(t, from);
      FindBreakAt(t, from + 1, n, e);
    }
  }

  /** A paragraph at `s` followed by a blank line and non-space text: the first separator
      from `s` on is that blank line. */
  lemma BreakAfterParagraph(t: string, s: nat, b: string, n: nat)
    requires n == s + |b|
    requires Paragraph(b) && n + 2 < |t| && t[s..n] == b
    requires t[n] == '\n' && t[n + 1] == '\n' && !IsSpace(t[n + 2])
    ensures FindBreak(t, s) == Some((n, n + 2))
  {
    assert SpaceEnd(t, n + 2) == n + 2;
    assert SpaceEnd(t, n + 1) == n + 2;
    assert t[n + 1..n + 2] == "\n";
    assert BreakAt(t, n) by {
      assert n < n + 1 < |t| && t[n + 1] == '\n';
    }
    forall k | s <= k < n ensures !BreakAt(t, k) {
      assert t[k] == b[k - s];
    }
    FindBreakAt(t, s, n, n + 2);
  }

  /** A stretch without newlines holds no separator. */
  lemma {:induction false} NoBreakInLine(t: string, s: nat)
    requires s <= |t| && '\n' !in t[s..]
    ensures FindBreak(t, s) == None
    decreases |t| - s
  {
    if s < |t| {
      assert t[s] == t[s..][0];
      assert t[s + 1..] == t[s..][1..];
      NoBreakInLine(t, s + 1);
    }
  }

  /** The preview once the first two separators are known. */
  lemma PreviewFrom(t: string, i1: nat, e1: nat)
    requires FindBreak(t, 0) == Some((i1, e1))
    ensures FindBreak(t, e1).None? ==> PreviewOf(t) == t[..i1] + "\n\n" + t[e1..]
    ensures FindBreak(t, e1).Some? ==> PreviewOf(t) == t[..i1] + "\n\n" + t[e1..FindBreak(t, e1).value.0]
  {
  }

  /** Two paragraphs separated by a blank line form the whole preview. */
  lemma PreviewTwoParagraphs(a: string, b: string)
    requires Paragraph(a) && Paragraph(b)
    ensures Preview(a + "\n\n" + b) == a + "\n\n" + b
  {
    var t := a + "\n\n" + b;
    var n := |a|;
    assert t[..n] == a && t[n + 2..] == b && t[0..n] == a;
    assert t[n] == '\n' && t[n + 1] == '\n' && t[n + 2] == b[0];
    StripUntrimmed(t);
    BreakAfterParagraph(t, 0, a, n);
    NoBreakInLine(t, n + 2);
    PreviewFrom(t, n, n + 2);
  }

  /** Three paragraphs separated by blank lines: the preview keeps the first two. */
  lemma PreviewThreeParagraphs(a: string, b: string, c: string)
    requires Paragraph(a) && Paragraph(b) && Paragraph(c)
    ensures Preview(a + "\n\n" + b + "\n\n" + c) == a + "\n\n" + b
  {
    ThreeAssoc(a, b, c);
    PreviewOfGlued(a, b, c);
  }

  lemma PreviewOfGlued(a: string, b: string, c: string)
    requires Paragraph(a) && Paragraph(b) && Paragraph(c)
    ensures Preview(a + "\n\n" + (b + "\n\n" + c)) == a + "\n\n" + b
  {
    var t := a + "\n\n" + (b + "\n\n" + c);
    ThreeLayout(a, b, c);
    PreviewOfThree(t, a, b);
    PrefixGlue(a, b, c);
  }

  lemma ThreeAssoc(a: string, b: string, c: string)
    ensures a + "\n\n" + b + "\n\n" + c == a + "\n\n" + (b + "\n\n" + c)
  {
  }

  /** Where the pieces of three paragraphs lie. */
  lemma ThreeLayout(a: string, b: string, c: string)
    requires Paragraph(b) && Paragraph(c)
    ensures var t := a + "\n\n" + (b + "\n\n" + c);
            var n, m := |a|, |a| + 2 + |b|;
            m + 2 < |t| && t[0..n] == a && t[n] == '\n' && t[n + 1] == '\n' && !IsSpace(t[n + 2]) &&
            t[n + 2..m] == b && t[m] == '\n' && t[m + 1] == '\n' && !IsSpace(t[m + 2]) && !IsSpace(t[|t| - 1])
  {
    var u := b + "\n\n" + c;
    Glue(a, u);
    Glue(b, c);
    SuffixWindow(a + "\n\n" + u, u, |a| + 2, |b|);
  }

  /** What a string whose tail from `d` on is `u` holds around `d + k`. */
  lemma SuffixWindow(t: string, u: string, d: nat, k: nat)
    requires d <= |t| && t[d..] == u && k + 2 < |u|
    ensures t[d..d + k] == u[..k] && t[d] == u[0]
    ensures t[d + k] == u[k] && t[d + k + 1] == u[k + 1] && t[d + k + 2] == u[k + 2]
  {
    assert t[d..d + k] == t[d..][..k];
  }

  lemma PreviewOfThree(t: string, a: string, b: string)
    requires Paragraph(a) && Paragraph(b)
    requires var n, m := |a|, |a| + 2 + |b|;
             m + 2 < |t| && t[0..n] == a && t[n] == '\n' && t[n + 1] == '\n' && !IsSpace(t[n + 2]) &&
             t[n + 2..m] == b && t[m] == '\n' && t[m + 1] == '\n' && !IsSpace(t[m + 2]) && !IsSpace(t[|t| - 1])
    ensures Preview(t) == t[..|a| + 2 + |b|]
  {
    var n, m := |a|, |a| + 2 + |b|;
    StripUntrimmed(t);
    BreakAfterParagraph(t, 0, a, n);
    BreakAfterParagraph(t, n + 2, b, m);
    PreviewOfBreaks(t, n, m);
  }

  /** Once the first two separators are known to be single blank lines, the preview is
      everything before the second one. */
  lemma PreviewOfBreaks(t: string, n: nat, m: nat)
    requires n + 2 <= m <= |t| && t[n] == '\n' && t[n + 1] == '\n'
    requires FindBreak(t, 0) == Some((n, n + 2)) && FindBreak(t, n + 2) == Some((m, m + 2))
    ensures PreviewOf(t) == t[..m]
  {
    PreviewFrom(t, n, n + 2);
    GapPrefix(t, n, m);
  }

  /** A prefix that contains a blank line at `n`, cut there. */
  lemma GapPrefix(t: string, n: nat, m: nat)
    requires n + 2 <= m <= |t| && t[n] == '\n' && t[n + 1] == '\n'
    ensures t[..m] == t[..n] + "\n\n" + t[n + 2..m]
  {
  }

  /** Where the pieces of `x`, a blank line and `y` lie. */
  lemma Glue(x: string, y: string)
    ensures var t := x + "\n\n" + y;
            |t| == |x| + 2 + |y| && t[..|x|] == x && t[0..|x|] == x && t[|x|] == '\n' && t[|x| + 1] == '\n' &&
            t[|x| + 2..] == y
  {
  }

  lemma PrefixGlue(x: string, y: string, z: string)
    ensures (x + "\n\n" + (y + "\n\n" + z))[..|x| + 2 + |y|] == x + "\n\n" + y
  {
    var u := y + "\n\n" + z;
    assert u[..|y|] == y;
  }
}
