/**
 * The legacy indexer's keywords: the words of three or more ASCII letters of the
 * lower-cased content (`\b[a-zA-Z]{3,}\b`), stopwords removed, counted with a `Counter`,
 * and the five most common kept by `most_common(5)`: by decreasing count, ties in order
 * of first occurrence.
 */
module Keywords {
  import opened PyStr

  /** The words never kept as keywords. */
  const Stopwords: set<string> := {
    "the", "a", "an", "in", "on", "at", "to", "for", "of", "and", "or", "but",
    "is", "are", "was", "were", "be", "been", "being", "have", "has", "had",
    "do", "does", "did", "this", "that", "these", "those", "i", "you", "he",
    "she", "it", "we", "they", "with", "by", "as", "not", "what", "from"}

  predicate AllLetters(w: string) {
    forall k :: 0 <= k < |w| ==> IsAsciiLetter(w[k])
  }

  /** The matches of `\b[a-zA-Z]{3,}\b` from `i` on, where `i` is not inside a run of word
      characters: the maximal runs of word characters that consist of at least three letters
      (a run with a digit or underscore in it has no word boundary next to its letters). */
  function LetterWords(s: string, i: nat): (r: seq<string>)
    requires i <= |s|
    ensures forall w :: w in r ==> |w| >= 3 && AllLetters(w)
    decreases |s| - i
  {
    if i == |s| then []
    else if !IsWordChar(s[i]) then LetterWords(s, i + 1)
    else
      var j := WordEnd(s, i);
      (if j - i >= 3 && AllLetters(s[i..j]) then [s[i..j]] else []) + LetterWords(s, j)
  }

  /** `s[a..b]` is a match of `\b[a-zA-Z]{3,}\b`: three or more letters with no word
      character on either side. */
  predicate LetterRun(s: string, a: nat, b: nat) {
    a < b <= |s| && b - a >= 3 && AllLetters(s[a..b]) &&
    (a == 0 || !IsWordChar(s[a - 1])) && (b == |s| || !IsWordChar(s[b]))
  }

  /** A word is found from `i` on exactly when it is a match of the pattern starting at or
      after `i`. */
  lemma {:induction false} LetterWordsMembers(s: string, i: nat, w: string)
    requires i <= |s| && (i == 0 || !IsWordChar(s[i - 1]))
    ensures w in LetterWords(s, i) <==> exists a: nat, b: nat :: i <= a && LetterRun(s, a, b) && w == s[a..b]
    decreases |s| - i
  {
    forall a: nat, b: nat
      ensures LetterRun(s, a, b) ==> forall k :: a <= k < b ==> IsAsciiLetter(s[k])
    {
      RunLetters(s, a, b);
    }
    if i < |s| && !IsWordChar(s[i]) {
      LetterWordsMembers(s, i + 1, w);
    } else if i < |s| {
      var j := WordEnd(s, i);
      if j < |s| {
        LetterWordsMembers(s, j + 1, w);
        assert LetterWords(s, j) == LetterWords(s, j + 1);
      }
    }
  }

  /** Every character of a match is a letter. */
  lemma RunLetters(s: string, a: nat, b: nat)
    ensures LetterRun(s, a, b) ==> forall k :: a <= k < b ==> IsAsciiLetter(s[k])
  {
    if LetterRun(s, a, b) {
      forall k | a <= k < b ensures IsAsciiLetter(s[k]) {
        assert s[a..b][k - a] == s[k];
      }
    }
  }

  /** `[word for word in re.findall(..., content.lower()) if word not in stopwords]` */
  function ImportantWords(content: string): (r: seq<string>)
    ensures forall w :: w in r ==> |w| >= 3 && AllLetters(w) && w !in Stopwords
    ensures forall w :: w in r <==> w in LetterWords(Lower(content), 0) && w !in Stopwords
  {
    Unstopped(LetterWords(Lower(content), 0))
  }

  /** The words that are not stopwords, in their order. */
  function Unstopped(ws: seq<string>): (r: seq<string>)
    ensures forall w :: w in r <==> w in ws && w !in Stopwords
  {
    if ws == [] then []
    else Unstopped(ws[..|ws| - 1]) + (if ws[|ws| - 1] in Stopwords then [] else [ws[|ws| - 1]])
  }

  /** Every word that is not a stopword is kept as often as it occurs, and stopwords are
      dropped: the counts `Counter` works on are those of the input without its stopwords. */
  lemma {:induction false} UnstoppedCount(ws: seq<string>, w: string)
    ensures multiset(Unstopped(ws))[w] == if w in Stopwords then 0 else multiset(ws)[w]
  {
    if ws != [] {
      var init, last := ws[..|ws| - 1], ws[|ws| - 1];
      var kept := if last in Stopwords then [] else [last];
      UnstoppedCount(init, w);
      LastSplit(ws);
      assert Unstopped(ws) == Unstopped(init) + kept;
      CountConcat(Unstopped(init), kept, w);
      CountConcat(init, [last], w);
    }
  }

  lemma LastSplit(ws: seq<string>)
    requires ws != []
    ensures ws == ws[..|ws| - 1] + [ws[|ws| - 1]]
  {
  }

  lemma CountConcat(a: seq<string>, b: seq<string>, w: string)
    ensures multiset(a + b)[w] == multiset(a)[w] + multiset(b)[w]
  {
    assert multiset(a + b) == multiset(a) + multiset(b);
  }

  /** Every word found is in lower case: it is a run of letters of the lowered content. */
  lemma {:induction false} LetterWordsLower(s: string, i: nat, w: string)
    requires i <= |s| && Lower(s) == s && w in LetterWords(s, i)
    ensures Lower(w) == w
    decreases |s| - i
  {
    if i < |s| {
      if !IsWordChar(s[i]) {
        LetterWordsLower(s, i + 1, w);
      } else {
        var j := WordEnd(s, i);
        if w in LetterWords(s, j) {
          LetterWordsLower(s, j, w);
        } else {
          assert w == s[i..j];
          assert forall k :: 0 <= k < |w| ==> w[k] == s[i + k];
        }
      }
    }
  }

  /** A lone lower-case word of three or more letters that is not a stopword is the one
      important word of its text. */
  lemma SingleWord(w: string)
    requires |w| >= 3 && AllLetters(w) && Lower(w) == w && w !in Stopwords
    ensures ImportantWords(w) == [w]
  {
    SingleLetterWord(w);
    UnstoppedOne(w);
  }

  lemma UnstoppedOne(w: string)
    requires w !in Stopwords
    ensures Unstopped([w]) == [w]
  {
    assert [w][..0] == [];
  }

  lemma SingleLetterWord(w: string)
    requires |w| >= 3 && AllLetters(w) && Lower(w) == w
    ensures LetterWords(Lower(w), 0) == [w]
  {
    assert forall k :: 0 <= k < |w| ==> IsWordChar(w[k]);
    assert WordEnd(w, 0) == |w|;
    assert w[0..|w|] == w;
  }

  /** The distinct words in order of first occurrence: a `Counter`'s keys. */
  function Dedup(ws: seq<string>): (r: seq<string>)
    ensures forall w :: w in r <==> w in ws
  {
    if ws == [] then []
    else if ws[|ws| - 1] in Dedup(ws[..|ws| - 1]) then Dedup(ws[..|ws| - 1])
    else Dedup(ws[..|ws| - 1]) + [ws[|ws| - 1]]
  }

  ghost predicate Distinct(s: seq<string>) {
    forall i, j :: 0 <= i < j < |s| ==> s[i] != s[j]
  }

  lemma {:induction false} DedupDistinct(ws: seq<string>)
    ensures Distinct(Dedup(ws))
  {
    if ws != [] {
      DedupDistinct(ws[..|ws| - 1]);
    }
  }

  /** Place `x` after every element whose count is not smaller, as `sorted(..., reverse=True)`
      does: it passes only strictly smaller counts. */
  function InsertByCount(s: seq<string>, x: string, counts: multiset<string>): (r: seq<string>)
    ensures |r| == |s| + 1
  {
    if s == [] || counts[x] <= counts[s[|s| - 1]] then s + [x]
    else InsertByCount(s[..|s| - 1], x, counts) + [s[|s| - 1]]
  }

  /** The stable sort by decreasing count. */
  function SortByCount(s: seq<string>, counts: multiset<string>): (r: seq<string>)
    ensures |r| == |s|
  {
    if s == [] then [] else InsertByCount(SortByCount(s[..|s| - 1], counts), s[|s| - 1], counts)
  }

  /** `[word for word, _ in Counter(words).most_common(5)]` */
  function MostCommon(words: seq<string>): seq<string> {
    var ranked := SortByCount(Dedup(words), multiset(words));
    if |ranked| <= 5 then ranked else ranked[..5]
  }

  /** `top_words` of a file's content. */
  function TopWords(content: string): seq<string> {
    MostCommon(ImportantWords(content))
  }

  ghost predicate ByCount(s: seq<string>, counts: multiset<string>) {
    forall i, j :: 0 <= i < j < |s| ==> counts[s[i]] >= counts[s[j]]
  }

  lemma {:induction false} InsertByCountPermutes(s: seq<string>, x: string, counts: multiset<string>)
    ensures multiset(InsertByCount(s, x, counts)) == multiset(s) + multiset{x}
    decreases |s|
  {
    if s != [] && counts[x] > counts[s[|s| - 1]] {
      InsertByCountPermutes(s[..|s| - 1], x, counts);
      assert s == s[..|s| - 1] + [s[|s| - 1]];
    }
  }

  lemma {:induction false} InsertByCountSorted(s: seq<string>, x: string, counts: multiset<string>)
    requires ByCount(s, counts)
    ensures ByCount(InsertByCount(s, x, counts), counts)
    decreases |s|
  {
    if s != [] && counts[x] > counts[s[|s| - 1]] {
      var init, last := s[..|s| - 1], s[|s| - 1];
      InsertByCountSorted(init, x, counts);
      var t := InsertByCount(init, x, counts);
      InsertByCountPermutes(init, x, counts);
      forall i | 0 <= i < |t| ensures counts[t[i]] >= counts[last] {
        assert t[i] in multiset(t);
        if t[i] != x {
          assert t[i] in multiset(init);
          var k :| 0 <= k < |init| && init[k] == t[i];
        }
      }
    }
  }

  lemma {:induction false} SortByCountPermutes(s: seq<string>, counts: multiset<string>)
    ensures multiset(SortByCount(s, counts)) == multiset(s)
  {
    if s != [] {
      SortByCountPermutes(s[..|s| - 1], counts);
      InsertByCountPermutes(SortByCount(s[..|s| - 1], counts), s[|s| - 1], counts);
      assert s == s[..|s| - 1] + [s[|s| - 1]];
    }
  }

  lemma {:induction false} SortByCountSorted(s: seq<string>, counts: multiset<string>)
    ensures ByCount(SortByCount(s, counts), counts)
  {
    if s != [] {
      SortByCountSorted(s[..|s| - 1], counts);
      InsertByCountSorted(SortByCount(s[..|s| - 1], counts), s[|s| - 1], counts);
    }
  }

  /** The elements with count `n`, in order. */
  function WithCount(s: seq<string>, counts: multiset<string>, n: nat): seq<string> {
    if s == [] then []
    else WithCount(s[..|s| - 1], counts, n) + (if counts[s[|s| - 1]] == n then [s[|s| - 1]] else [])
  }

  lemma {:induction false} WithCountAppend(a: seq<string>, b: seq<string>, counts: multiset<string>, n: nat)
    ensures WithCount(a + b, counts, n) == WithCount(a, counts, n) + WithCount(b, counts, n)
    decreases |b|
  {
    if b == [] {
      assert a + b == a;
    } else {
      assert (a + b)[..|a + b| - 1] == a + b[..|b| - 1];
      WithCountAppend(a, b[..|b| - 1], counts, n);
    }
  }

  lemma {:induction false} InsertByCountStable(s: seq<string>, x: string, counts: multiset<string>, n: nat)
    ensures WithCount(InsertByCount(s, x, counts), counts, n) == WithCount(s, counts, n) + WithCount([x], counts, n)
    decreases |s|
  {
    if s == [] || counts[x] <= counts[s[|s| - 1]] {
      WithCountAppend(s, [x], counts, n);
    } else {
      var init, last := s[..|s| - 1], s[|s| - 1];
      InsertByCountStable(init, x, counts, n);
      WithCountAppend(InsertByCount(init, x, counts), [last], counts, n);
      WithCountAppend(init, [last], counts, n);
      assert s == init + [last];
    }
  }

  /** The sort is stable: words with equal counts keep their order. */
  lemma {:induction false} SortByCountStable(s: seq<string>, counts: multiset<string>, n: nat)
    ensures WithCount(SortByCount(s, counts), counts, n) == WithCount(s, counts, n)
  {
    if s != [] {
      var init, last := s[..|s| - 1], s[|s| - 1];
      SortByCountStable(init, counts, n);
      InsertByCountStable(SortByCount(init, counts), last, counts, n);
      WithCountAppend(init, [last], counts, n);
      assert s == init + [last];
    }
  }

  /** A permutation of a sequence without repetitions has none either. */
  lemma DistinctPermutation(a: seq<string>, b: seq<string>)
    requires multiset(a) == multiset(b) && Distinct(b)
    ensures Distinct(a)
  {
    forall i, j | 0 <= i < j < |a| ensures a[i] != a[j] {
      if a[i] == a[j] {
        assert multiset(a) == multiset(a[..j]) + multiset(a[j..]) by {
          assert a == a[..j] + a[j..];
        }
        assert a[i] in a[..j] && a[j] in a[j..];
        assert multiset(b)[a[i]] >= 2;
        CountAtMostOne(b, a[i]);
      }
    }
  }

  lemma {:induction false} CountAtMostOne(b: seq<string>, x: string)
    requires Distinct(b)
    ensures multiset(b)[x] <= 1
  {
    if b != [] {
      var init := b[..|b| - 1];
      CountAtMostOne(init, x);
      assert b == init + [b[|b| - 1]];
      if b[|b| - 1] == x {
        assert x !in init;
      }
    }
  }

  /** `most_common(5)`: at most five words, none twice, each occurring in the input, by
      decreasing count. */
  lemma MostCommonShape(words: seq<string>)
    ensures var top := MostCommon(words);
            |top| <= 5 && Distinct(top) && (forall u :: u in top ==> u in words) &&
            ByCount(top, multiset(words))
  {
    var ranked := SortByCount(Dedup(words), multiset(words));
    RankedShape(words);
    var top := MostCommon(words);
    assert top == ranked[..if |ranked| <= 5 then |ranked| else 5];
    forall u | u in top ensures u in words {
      assert u in multiset(ranked);
    }
  }

  /** All distinct words, most common first, none twice. */
  lemma RankedShape(words: seq<string>)
    ensures var ranked := SortByCount(Dedup(words), multiset(words));
            Distinct(ranked) && ByCount(ranked, multiset(words)) && multiset(ranked) == multiset(Dedup(words))
  {
    var counts := multiset(words);
    var keys := Dedup(words);
    var ranked := SortByCount(keys, counts);
    SortByCountPermutes(keys, counts);
    SortByCountSorted(keys, counts);
    DedupDistinct(words);
    DistinctPermutation(ranked, keys);
  }

  /** A word left out occurs no more often than any word kept, and is left out only when
      five words are kept. */
  lemma MostCommonMaximal(words: seq<string>, w: string)
    requires w in words && w !in MostCommon(words)
    ensures |MostCommon(words)| == 5
    ensures forall u :: u in MostCommon(words) ==> multiset(words)[u] >= multiset(words)[w]
  {
    var counts := multiset(words);
    var keys := Dedup(words);
    var ranked := SortByCount(keys, counts);
    var top := MostCommon(words);
    SortByCountPermutes(keys, counts);
    SortByCountSorted(keys, counts);
    assert w in multiset(keys);
    var k :| 0 <= k < |ranked| && ranked[k] == w;
    assert k >= 5;
    assert top == ranked[..5];
  }

  /** Among words of equal count the ranking keeps the order of first occurrence. */
  lemma MostCommonTies(words: seq<string>, n: nat)
    ensures WithCount(SortByCount(Dedup(words), multiset(words)), multiset(words), n) ==
            WithCount(Dedup(words), multiset(words), n)
  {
    SortByCountStable(Dedup(words), multiset(words), n);
  }

  /** `top_words` draws only on the important words of the content: lower-case words of at
      least three letters that are not stopwords. */
  lemma TopWordsAreImportant(content: string, u: string)
    requires u in TopWords(content)
    ensures u in ImportantWords(content)
    ensures |u| >= 3 && AllLetters(u) && Lower(u) == u && u !in Stopwords
  {
    MostCommonShape(ImportantWords(content));
    LowerLetterWords(content, u);
  }

  lemma LowerLetterWords(content: string, u: string)
    requires u in ImportantWords(content)
    ensures Lower(u) == u
  {
    var s := Lower(content);
    LowerIdempotent(content);
    LetterWordsLower(s, 0, u);
  }
}
