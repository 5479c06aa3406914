/**
 * The Python string, `os.path` and `pathlib` operations the search engine relies on,
 * written over `seq<char>`.  Case mapping and the regex word class `\w` cover ASCII only;
 * the whitespace class is the one `str.isspace`, `str.strip`, `str.split` and the regex
 * class `\s` share.
 */
module PyStr {

  /** `c.isspace()` */
  predicate IsSpace(c: char) {
    c == ' ' || ('\t' <= c <= '\r') || ('\U{1C}' <= c <= '\U{1F}') ||
    c == '\U{85}' || c == '\U{A0}' || c == '\U{1680}' || ('\U{2000}' <= c <= '\U{200A}') ||
    c == '\U{2028}' || c == '\U{2029}' || c == '\U{202F}' || c == '\U{205F}' || c == '\U{3000}'
  }

  /** The regex class `\w` on ASCII: letters, digits and underscore. */
  predicate IsWordChar(c: char) {
    ('a' <= c <= 'z') || ('A' <= c <= 'Z') || ('0' <= c <= '9') || c == '_'
  }

  predicate IsAsciiLetter(c: char) {
    ('a' <= c <= 'z') || ('A' <= c <= 'Z')
  }

  /** True when `s` is empty or made only of whitespace, i.e. `s.strip() == ''`. */
  predicate IsBlank(s: string) {
    forall i :: 0 <= i < |s| ==> IsSpace(s[i])
  }

  function LowerChar(c: char): (d: char)
    ensures !('A' <= d <= 'Z')
    ensures !('A' <= c <= 'Z') ==> d == c
  {
    if 'A' <= c <= 'Z' then (c as int + 32) as char else c
  }

  /** `s.lower()`: one character for one, upper-case ASCII letters mapped down. */
  function Lower(s: string): (r: string)
    ensures |r| == |s|
    ensures forall i :: 0 <= i < |s| ==> r[i] == LowerChar(s[i])
  {
    seq(|s|, i requires 0 <= i < |s| => LowerChar(s[i]))
  }

  /** `s.startswith(p)` */
  predicate StartsWith(s: string, p: string) {
    |p| <= |s| && s[..|p|] == p
  }

  /** `sub` occurs in `s` starting at index `i`. */
  predicate OccursAt(s: string, sub: string, i: nat) {
    i + |sub| <= |s| && s[i..i + |sub|] == sub
  }

  /** `sub in s` */
  predicate Contains(s: string, sub: string) {
    exists i: nat | i <= |s| :: OccursAt(s, sub, i)
  }

  /** `s.lstrip()` */
  function LStrip(s: string): (r: string)
    ensures |r| <= |s| && r == s[|s| - |r|..]
    ensures forall i :: 0 <= i < |s| - |r| ==> IsSpace(s[i])
    ensures r == [] || !IsSpace(r[0])
  {
    if s != [] && IsSpace(s[0]) then
      var r := LStrip(s[1..]);
      assert s[1..][|s| - 1 - |r|..] == s[|s| - |r|..];
      r
    else s
  }

  /** `s.rstrip()` */
  function RStrip(s: string): (r: string)
    ensures |r| <= |s| && r == s[..|r|]
    ensures forall i :: |r| <= i < |s| ==> IsSpace(s[i])
    ensures r == [] || !IsSpace(r[|r| - 1])
  {
    if s != [] && IsSpace(s[|s| - 1]) then RStrip(s[..|s| - 1]) else s
  }

  /** `s.strip()`: the text between the leading and the trailing whitespace. */
  function Strip(s: string): (r: string)
    ensures |r| <= |s|
    ensures exists k: nat :: OccursAt(s, r, k)
    ensures r == [] || (!IsSpace(r[0]) && !IsSpace(r[|r| - 1]))
  {
    var t := LStrip(s);
    var u := RStrip(t);
    TrimmedSlice(s, t, u);
    assert OccursAt(s, u, |s| - |t|);
    u
  }

  /** The stripped text is the slice of the text between its leading and its trailing
      whitespace: both cut-off ends are blank, and what is kept neither starts nor ends with
      whitespace. */
  lemma StripMiddle(s: string)
    ensures Trimmed(s, |s| - |LStrip(s)|, Strip(s))
  {
    var t := LStrip(s);
    var u := RStrip(t);
    assert Strip(s) == u;
    TrimmedSlice(s, t, u);
  }

  /** `r` is the slice of `s` from `k`, and the text on either side of it is blank. */
  predicate Trimmed(s: string, k: nat, r: string) {
    k + |r| <= |s| && r == s[k..k + |r|] && IsBlank(s[..k]) && IsBlank(s[k + |r|..])
  }

  /** A prefix of a suffix, whose cut-off parts are whitespace, is a slice between two blank
      ends. */
  lemma TrimmedSlice(s: string, t: string, u: string)
    requires |t| <= |s| && t == s[|s| - |t|..] && |u| <= |t| && u == t[..|u|]
    requires forall i :: 0 <= i < |s| - |t| ==> IsSpace(s[i])
    requires forall i :: |u| <= i < |t| ==> IsSpace(t[i])
    ensures Trimmed(s, |s| - |t|, u)
  {
    var k := |s| - |t|;
    SliceOfSuffix(s, k, |u|);
    var head, tail := s[..k], s[k + |u|..];
    forall q | 0 <= q < |head| ensures IsSpace(head[q]) {
      assert head[q] == s[q];
    }
    forall q | 0 <= q < |tail| ensures IsSpace(tail[q]) {
      assert tail[q] == t[|u| + q];
    }
  }

  /** The first `n` characters of the suffix from `k` are the slice from `k` of length `n`. */
  lemma SliceOfSuffix(s: string, k: nat, n: nat)
    requires k + n <= |s|
    ensures s[k..][..n] == s[k..k + n]
  {
  }

  lemma {:induction false} StripEmptyIffBlank(s: string)
    ensures Strip(s) == [] <==> IsBlank(s)
  {
    var t := LStrip(s);
    var u := RStrip(t);
    if u != [] {
      assert u[0] == t[0] == s[|s| - |t|];
    }
  }

  /** Strip of a text that has no surrounding whitespace changes nothing. */
  lemma StripUntrimmed(s: string)
    requires s == [] || (!IsSpace(s[0]) && !IsSpace(s[|s| - 1]))
    ensures Strip(s) == s
  {
  }

  /** First index at or after `i` that holds whitespace, or `|s|`. */
  function SpaceFrom(s: string, i: nat): (j: nat)
    requires i <= |s|
    ensures i <= j <= |s|
    ensures forall k :: i <= k < j ==> !IsSpace(s[k])
    ensures j == |s| || IsSpace(s[j])
    decreases |s| - i
  {
    if i < |s| && !IsSpace(s[i]) then SpaceFrom(s, i + 1) else i
  }

  /** First index at or after `i` that is not a word character, or `|s|`. */
  function WordEnd(s: string, i: nat): (j: nat)
    requires i <= |s|
    ensures i <= j <= |s|
    ensures forall k :: i <= k < j ==> IsWordChar(s[k])
    ensures j == |s| || !IsWordChar(s[j])
    decreases |s| - i
  {
    if i < |s| && IsWordChar(s[i]) then WordEnd(s, i + 1) else i
  }

  /** A non-empty text without whitespace. */
  predicate IsWord(w: string) {
    w != [] && forall k :: 0 <= k < |w| ==> !IsSpace(w[k])
  }

  /** `s.split()`: the maximal runs of non-whitespace characters, in order. */
  function Split(s: string): seq<string>
    decreases |s|
  {
    var t := LStrip(s);
    if t == [] then []
    else
      var n := SpaceFrom(t, 0);
      [t[..n]] + Split(t[n..])
  }

  /** Every piece of the split is a word: non-empty, without whitespace. */
  lemma {:induction false} SplitWords(s: string, w: string)
    requires w in Split(s)
    ensures IsWord(w)
    decreases |s|
  {
    var t := LStrip(s);
    if t != [] {
      var n := SpaceFrom(t, 0);
      SplitUnfold(s);
      if w == t[..n] {
        FirstPieceWord(t);
      } else {
        assert w in Split(t[n..]);
        SplitWords(t[n..], w);
      }
    }
  }

  /** The text up to the first whitespace of a text that starts with a non-space is a word. */
  lemma FirstPieceWord(t: string)
    requires t != [] && !IsSpace(t[0])
    ensures IsWord(t[..SpaceFrom(t, 0)])
  {
    var w := t[..SpaceFrom(t, 0)];
    forall k | 0 <= k < |w| ensures !IsSpace(w[k]) {
      assert w[k] == t[k];
    }
  }

  /** `gaps[0] + pieces[0] + gaps[1] + ... + pieces[n - 1] + gaps[n]` */
  function Weave(gaps: seq<string>, pieces: seq<string>): string
    requires |gaps| == |pieces| + 1
    decreases |pieces|
  {
    if pieces == [] then gaps[0] else gaps[0] + pieces[0] + Weave(gaps[1..], pieces[1..])
  }

  /** The gaps of a weave are blank, and the gaps between two pieces are non-empty. */
  ghost predicate RunGaps(gaps: seq<string>, pieces: seq<string>)
    requires |gaps| == |pieces| + 1
  {
    (forall g :: g in gaps ==> IsBlank(g)) && (forall k :: 0 < k < |pieces| ==> gaps[k] != [])
  }

  /** The pieces of `s.split()` are the maximal runs of non-whitespace, in order: the text is
      the pieces interleaved with blank gaps, and every gap between two pieces is non-empty
      (so no piece can be extended; `SplitWords` says no piece holds whitespace). */
  lemma SplitRuns(s: string)
    ensures exists gaps :: |gaps| == |Split(s)| + 1 && Weave(gaps, Split(s)) == s && RunGaps(gaps, Split(s))
  {
    SplitGapsWeave(s);
  }

  /** The whitespace around and between the pieces of `s.split()`. */
  ghost function SplitGaps(s: string): seq<string>
    decreases |s|
  {
    var t := LStrip(s);
    if t == [] then [s] else [s[..|s| - |t|]] + SplitGaps(t[SpaceFrom(t, 0)..])
  }

  lemma {:induction false} SplitGapsWeave(s: string)
    ensures |SplitGaps(s)| == |Split(s)| + 1
    ensures Weave(SplitGaps(s), Split(s)) == s && RunGaps(SplitGaps(s), Split(s))
    decreases |s|, 1
  {
    if LStrip(s) == [] {
      LeadBlank(s);
      assert Weave([s], []) == s;
    } else {
      SplitGapsWeaveStep(s);
    }
  }

  /** The inductive step: a first piece, then the rest of the text. */
  lemma {:induction false} SplitGapsWeaveStep(s: string)
    requires LStrip(s) != []
    ensures |SplitGaps(s)| == |Split(s)| + 1
    ensures Weave(SplitGaps(s), Split(s)) == s && RunGaps(SplitGaps(s), Split(s))
    decreases |s|, 0
  {
    var t := LStrip(s);
    var k := |s| - |t|;
    var lead := s[..k];
    var n := SpaceFrom(t, 0);
    var piece, rest := t[..n], t[n..];
    assert 0 < n && (rest == [] || IsSpace(rest[0]));
    RestWeave(rest);
    var gaps', pieces' := SplitGaps(rest), Split(rest);
    assert s == lead + t && t == piece + rest && IsBlank(lead) by {
      LeadBlank(s);
      Halves(t, n);
      Halves(s, k);
    }
    RunsStep(s, lead, t, piece, rest, gaps', pieces');
    SplitUnfold(s);
  }

  /** The text after a piece starts with whitespace, so its weave begins with a gap unless
      nothing follows. */
  lemma {:induction false} RestWeave(rest: string)
    requires rest == [] || IsSpace(rest[0])
    ensures |SplitGaps(rest)| == |Split(rest)| + 1
    ensures Weave(SplitGaps(rest), Split(rest)) == rest && RunGaps(SplitGaps(rest), Split(rest))
    ensures Split(rest) != [] ==> SplitGaps(rest)[0] != []
    decreases |rest|, 2
  {
    SplitGapsWeave(rest);
    var gaps, pieces := SplitGaps(rest), Split(rest);
    if pieces != [] {
      SplitWords(rest, pieces[0]);
      WeaveGapNonEmpty(gaps, pieces, rest);
    }
  }

  /** One step of `Split` and of `SplitGaps` on a text that is not blank. */
  lemma SplitUnfold(s: string)
    requires LStrip(s) != []
    ensures var t := LStrip(s);
            var n := SpaceFrom(t, 0);
            SplitGaps(s) == [s[..|s| - |t|]] + SplitGaps(t[n..]) && Split(s) == [t[..n]] + Split(t[n..])
  {
  }

  lemma Halves(s: string, k: nat)
    requires k <= |s|
    ensures s == s[..k] + s[k..]
  {
  }

  /** The whitespace `lstrip` removes is blank. */
  lemma LeadBlank(s: string)
    ensures IsBlank(s[..|s| - |LStrip(s)|])
  {
    var lead := s[..|s| - |LStrip(s)|];
    forall q | 0 <= q < |lead| ensures IsSpace(lead[q]) {
      assert lead[q] == s[q];
    }
  }

  /** A blank gap and a piece in front of a weave whose first gap is non-empty. */
  lemma RunsStep(s: string, lead: string, t: string, piece: string, rest: string, gaps: seq<string>, pieces: seq<string>)
    requires s == lead + t && t == piece + rest
    requires |gaps| == |pieces| + 1 && Weave(gaps, pieces) == rest
    requires IsBlank(lead) && RunGaps(gaps, pieces) && (pieces != [] ==> gaps[0] != [])
    ensures Weave([lead] + gaps, [piece] + pieces) == s
    ensures RunGaps([lead] + gaps, [piece] + pieces)
  {
    assert lead + piece + rest == lead + (piece + rest);
    var gs := [lead] + gaps;
    assert gs[1..] == gaps && ([piece] + pieces)[1..] == pieces;
    forall k | 0 < k < |pieces| + 1 ensures gs[k] != [] {
      assert gs[k] == gaps[k - 1];
    }
  }

  /** A weave that starts with whitespace and whose first piece is a word starts with a gap. */
  lemma WeaveGapNonEmpty(gaps: seq<string>, pieces: seq<string>, text: string)
    requires |gaps| == |pieces| + 1 && Weave(gaps, pieces) == text
    requires pieces != [] && IsWord(pieces[0]) && text != [] && IsSpace(text[0])
    ensures gaps[0] != []
  {
    var rest := Weave(gaps[1..], pieces[1..]);
    assert text == gaps[0] + pieces[0] + rest;
    assert !IsSpace(pieces[0][0]);
  }

  /** `s.split()` is empty exactly for a blank text. */
  lemma SplitEmptyIffBlank(s: string)
    ensures Split(s) == [] <==> IsBlank(s)
  {
    var t := LStrip(s);
    if t != [] {
      assert s[|s| - |t|] == t[0];
    }
  }

  /** A single word splits into itself. */
  lemma SplitWord(w: string)
    requires IsWord(w)
    ensures Split(w) == [w]
  {
    assert LStrip(w) == w;
    assert SpaceFrom(w, 0) == |w|;
    assert w[..|w|] == w && w[|w|..] == [];
  }

  /** Leading whitespace does not change the split. */
  lemma SplitSkipsSpace(s: string)
    ensures Split(s) == Split(LStrip(s))
  {
    var t := LStrip(s);
    assert LStrip(t) == t;
  }

  /** A word followed by whitespace splits off as the first piece. */
  lemma SplitFirstWord(a: string, rest: string)
    requires IsWord(a) && rest != [] && IsSpace(rest[0])
    ensures Split(a + rest) == [a] + Split(rest)
  {
    var s := a + rest;
    assert s[0] == a[0];
    assert LStrip(s) == s;
    var n := SpaceFrom(s, 0);
    assert s[|a|] == rest[0];
    assert n == |a|;
    assert s[..n] == a;
    assert s[n..] == rest;
  }

  /** A leading whitespace character does not change the split. */
  lemma SplitAfterSpace(s: string)
    requires s != [] && IsSpace(s[0])
    ensures Split(s) == Split(s[1..])
  {
    SplitSkipsSpace(s);
    SplitSkipsSpace(s[1..]);
  }

  lemma SeqPair(a: string, b: string)
    ensures [a] + [b] == [a, b]
  {
  }

  /** Two words joined by one space split back into the two words. */
  lemma SplitTwoWords(a: string, b: string)
    requires IsWord(a) && IsWord(b)
    ensures Split(a + " " + b) == [a, b]
  {
    var rest := " " + b;
    calc {
      Split(a + " " + b);
      { assert a + " " + b == a + rest; }
      Split(a + rest);
      { SplitFirstWord(a, rest); }
      [a] + Split(rest);
      { SplitAfterSpace(rest); assert rest[1..] == b; }
      [a] + Split(b);
      { SplitWord(b); }
      [a] + [b];
      { SeqPair(a, b); }
      [a, b];
    }
  }

  /** Lower-casing never turns a character into whitespace or back. */
  lemma LowerKeepsSpace(c: char)
    ensures IsSpace(LowerChar(c)) == IsSpace(c)
  {
  }

  /** `s.lower().lstrip() == s.lstrip().lower()` */
  lemma LStripLower(s: string)
    ensures LStrip(Lower(s)) == Lower(LStrip(s))
  {
    var l := Lower(s);
    LowerSameSpaces(s);
    LStripSameSpaces(l, s);
    LowerSlice(s, |s| - |LStrip(s)|, |s|);
  }

  /** `s.lower().rstrip() == s.rstrip().lower()` */
  lemma RStripLower(s: string)
    ensures RStrip(Lower(s)) == Lower(RStrip(s))
  {
    var l := Lower(s);
    LowerSameSpaces(s);
    RStripSameSpaces(l, s);
    LowerSlice(s, 0, |RStrip(s)|);
  }

  /** Lowering keeps every whitespace character and adds none. */
  lemma LowerSameSpaces(s: string)
    ensures forall i :: 0 <= i < |s| ==> IsSpace(Lower(s)[i]) == IsSpace(s[i])
  {
    forall i | 0 <= i < |s| ensures IsSpace(Lower(s)[i]) == IsSpace(s[i]) {
      LowerKeepsSpace(s[i]);
    }
  }

  /** Texts with whitespace at the same places lose the same number of leading characters. */
  lemma {:induction false} LStripSameSpaces(t: string, u: string)
    requires |t| == |u| && forall i :: 0 <= i < |t| ==> IsSpace(t[i]) == IsSpace(u[i])
    ensures |LStrip(t)| == |LStrip(u)|
    decreases |t|
  {
    if t != [] && IsSpace(t[0]) {
      LStripSameSpaces(t[1..], u[1..]);
    }
  }

  /** ... and the same number of trailing characters. */
  lemma {:induction false} RStripSameSpaces(t: string, u: string)
    requires |t| == |u| && forall i :: 0 <= i < |t| ==> IsSpace(t[i]) == IsSpace(u[i])
    ensures |RStrip(t)| == |RStrip(u)|
    decreases |t|
  {
    if t != [] && IsSpace(t[|t| - 1]) {
      RStripSameSpaces(t[..|t| - 1], u[..|u| - 1]);
    }
  }

  /** Lowering commutes with taking a slice. */
  lemma LowerSlice(s: string, i: nat, j: nat)
    requires i <= j <= |s|
    ensures Lower(s)[i..j] == Lower(s[i..j])
  {
    var a, b := Lower(s)[i..j], Lower(s[i..j]);
    forall k | 0 <= k < j - i ensures a[k] == b[k] {
      assert a[k] == LowerChar(s[i + k]);
    }
  }

  /** Lowering twice is lowering once. */
  lemma LowerIdempotent(s: string)
    ensures Lower(Lower(s)) == Lower(s)
  {
    var t := Lower(s);
    forall i | 0 <= i < |s| ensures Lower(t)[i] == t[i] {
      assert t[i] == LowerChar(s[i]);
    }
  }

  /** `s.lower().strip() == s.strip().lower()` */
  lemma StripLower(s: string)
    ensures Strip(Lower(s)) == Lower(Strip(s))
  {
    LStripLower(s);
    RStripLower(LStrip(s));
  }

  /** One more whitespace character in front changes nothing once stripped. */
  lemma StripLeadingSpace(c: char, s: string)
    requires IsSpace(c)
    ensures Strip([c] + s) == Strip(s)
  {
    assert ([c] + s)[1..] == s;
  }

  /** Left-stripping a text that is not blank keeps everything from its first visible character on. */
  lemma {:induction false} LStripAppend(s: string, t: string)
    requires !IsBlank(s)
    ensures LStrip(s + t) == LStrip(s) + t
    decreases |s|
  {
    assert (s + t)[0] == s[0];
    if IsSpace(s[0]) {
      assert (s + t)[1..] == s[1..] + t;
      assert !IsBlank(s[1..]) by {
        var i :| 0 <= i < |s| && !IsSpace(s[i]);
        assert s[1..][i - 1] == s[i];
      }
      LStripAppend(s[1..], t);
    }
  }

  /** One more whitespace character at the end changes nothing once stripped. */
  lemma StripTrailingSpace(s: string, c: char)
    requires IsSpace(c)
    ensures Strip(s + [c]) == Strip(s)
  {
    if IsBlank(s) {
      StripEmptyIffBlank(s);
      StripEmptyIffBlank(s + [c]);
    } else {
      LStripAppend(s, [c]);
      RStripTrailingSpace(LStrip(s), c);
    }
  }

  lemma RStripTrailingSpace(t: string, c: char)
    requires IsSpace(c)
    ensures RStrip(t + [c]) == RStrip(t)
  {
    assert (t + [c])[..|t|] == t;
  }

  /** `s.split(sep)` for a one-character separator: the pieces between separators, empty ones included. */
  function SplitOn(s: string, sep: char): (r: seq<string>)
    ensures |r| == multiset(s)[sep] + 1
    ensures forall p :: p in r ==> sep !in p
    ensures Join(r, [sep]) == s
  {
    if s == [] then [[]]
    else
      var rest := SplitOn(s[1..], sep);
      HeadCount(s, sep);
      if s[0] == sep then
        JoinEmptyHead(rest, [sep]);
        [[]] + rest
      else
        JoinGrowHead(s[0], rest, [sep]);
        GrowHeadFree(s[0], rest, sep);
        [[s[0]] + rest[0]] + rest[1..]
  }

  /** The first character and the rest of a non-empty text. */
  lemma HeadCount(s: string, c: char)
    requires s != []
    ensures s == [s[0]] + s[1..]
    ensures multiset(s)[c] == multiset(s[1..])[c] + (if s[0] == c then 1 else 0)
  {
    assert s == [s[0]] + s[1..];
  }

  /** Growing the first piece by a character other than the separator keeps every piece
      free of the separator. */
  lemma GrowHeadFree(c: char, rest: seq<string>, sep: char)
    requires rest != [] && c != sep && forall p :: p in rest ==> sep !in p
    ensures forall p :: p in [[c] + rest[0]] + rest[1..] ==> sep !in p
  {
    forall p | p in [[c] + rest[0]] + rest[1..] ensures sep !in p {
      if p != [c] + rest[0] {
        assert p in rest[1..];
      }
    }
  }

  /** An empty first piece leaves only the separator in front. */
  lemma JoinEmptyHead(rest: seq<string>, sep: string)
    requires rest != []
    ensures Join([[]] + rest, sep) == sep + Join(rest, sep)
  {
    assert ([[]] + rest)[1..] == rest;
  }

  /** A character put in front of the first piece comes first in the joined text. */
  lemma JoinGrowHead(c: char, rest: seq<string>, sep: string)
    requires rest != []
    ensures Join([[c] + rest[0]] + rest[1..], sep) == [c] + Join(rest, sep)
  {
    var r := [[c] + rest[0]] + rest[1..];
    if |rest| > 1 {
      assert r[1..] == rest[1..];
    }
  }

  /** `sep.join(pieces)` */
  function Join(pieces: seq<string>, sep: string): (r: string)
    ensures pieces == [] ==> r == []
    ensures |pieces| == 1 ==> r == pieces[0]
  {
    if pieces == [] then []
    else if |pieces| == 1 then pieces[0]
    else pieces[0] + sep + Join(pieces[1..], sep)
  }

  /** `s.replace(pat, "")`: one left-to-right pass deleting non-overlapping occurrences. */
  function RemoveAll(s: string, pat: string): (r: string)
    requires pat != []
    ensures |r| <= |s|
    decreases |s|
  {
    if |s| < |pat| then s
    else if s[..|pat|] == pat then RemoveAll(s[|pat|..], pat)
    else [s[0]] + RemoveAll(s[1..], pat)
  }

  /** Deleting a pattern that does not occur leaves the text unchanged. */
  lemma {:induction false} RemoveAbsent(s: string, pat: string)
    requires pat != [] && !Contains(s, pat)
    ensures RemoveAll(s, pat) == s
    decreases |s|
  {
    if |s| >= |pat| {
      assert s[..|pat|] != pat by { assert s[0..0 + |pat|] == s[..|pat|]; assert !OccursAt(s, pat, 0); }
      assert !Contains(s[1..], pat) by {
        forall i: nat | OccursAt(s[1..], pat, i) ensures false {
          assert s[1..][i..i + |pat|] == s[i + 1..i + 1 + |pat|];
          assert OccursAt(s, pat, i + 1);
        }
      }
      RemoveAbsent(s[1..], pat);
      assert s == [s[0]] + s[1..];
    }
  }

  /** `s.replace(old, new)` for single characters. */
  function ReplaceChar(s: string, from: char, to: char): (r: string)
    ensures |r| == |s|
    ensures forall i :: 0 <= i < |s| ==> r[i] == (if s[i] == from then to else s[i])
  {
    if s == [] then [] else [if s[0] == from then to else s[0]] + ReplaceChar(s[1..], from, to)
  }

  /** `os.path.join(a, b)` on POSIX. */
  function PathJoin(a: string, b: string): (r: string)
    ensures StartsWith(b, "/") ==> r == b
    ensures !StartsWith(b, "/") ==> |r| >= |b| && r[|r| - |b|..] == b
    ensures !StartsWith(b, "/") ==>
              var sep := if a != [] && a[|a| - 1] != '/' then 1 else 0;
              |r| == |a| + sep + |b| && r[..|a|] == a && (sep == 1 ==> r[|a|] == '/')
  {
    if StartsWith(b, "/") then b
    else if a == [] || a[|a| - 1] == '/' then a + b
    else a + "/" + b
  }

  /** `s.rfind(c)`: the last index holding `c`, or -1. */
  function RFind(s: string, c: char): (i: int)
    ensures -1 <= i < |s|
    ensures i >= 0 ==> s[i] == c
    ensures forall k :: i < k < |s| ==> s[k] != c
  {
    if s == [] then -1
    else if s[|s| - 1] == c then |s| - 1
    else RFind(s[..|s| - 1], c)
  }

  /** `PurePath(name).suffix`: from the last dot on, unless that dot leads or ends the name. */
  function Suffix(name: string): (r: string)
    ensures r == [] || (r[0] == '.' && '.' !in r[1..] && |r| >= 2 && |r| < |name| &&
                        r == name[|name| - |r|..])
    ensures r != [] <==> exists i :: 0 < i < |name| - 1 && name[i] == '.' && LastDot(name, i)
  {
    var i := RFind(name, '.');
    if 0 < i < |name| - 1 then
      assert forall k :: 1 <= k < |name[i..]| ==> name[i..][k] == name[i + k];
      assert LastDot(name, i);
      name[i..]
    else
      assert forall j :: 0 < j < |name| - 1 && name[j] == '.' && LastDot(name, j) ==> j == i;
      []
  }

  /** No dot follows index `i`. */
  predicate LastDot(name: string, i: nat) {
    forall k :: i < k < |name| ==> name[k] != '.'
  }

  /** `s.lstrip(chars)` for a one-character set. */
  function LStripChar(s: string, c: char): (r: string)
    ensures |r| <= |s| && r == s[|s| - |r|..]
    ensures forall k :: 0 <= k < |s| - |r| ==> s[k] == c
    ensures r == [] || r[0] != c
  {
    if s != [] && s[0] == c then LStripChar(s[1..], c) else s
  }
}
