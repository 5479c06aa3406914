/**
 * The query parser and dispatcher.  A query is scanned for `name:value` and
 * `name:"quoted value"` qualifiers; when any are found their values are looked up in the
 * store and the results intersected by path, otherwise the leftover text is routed to an
 * extension, multi-word or content lookup.  Every function here returns, next to the
 * results, the store calls made, so that "no store call" and "called with X" can be stated.
 */
module Selector {
  import opened Wrappers
  import opened PyStr
  import opened SearchStore

  // ---------------------------------------------------------------------------
  // Tokens of the pattern (\w+):(?:"([^"]+)"|([^\s]+))
  // ---------------------------------------------------------------------------

  /** One match of the qualifier pattern: the name as written, the captured value, and
      whether the quoted alternative matched. */
  datatype Token = Token(name: string, value: string, quoted: bool)

  /** The text of the query the token was matched on. */
  function Matched(t: Token): string {
    t.name + ":" + (if t.quoted then "\"" + t.value + "\"" else t.value)
  }

  /** The text the leftover computation deletes for a token: name, colon and value, with
      the quotes of a quoted value left out. */
  function Rebuilt(t: Token): string {
    t.name + ":" + t.value
  }

  /** What the pattern guarantees of its captures. */
  predicate WellFormed(t: Token) {
    && t.name != []
    && (forall k :: 0 <= k < |t.name| ==> IsWordChar(t.name[k]))
    && t.value != []
    && (if t.quoted then '"' !in t.value else forall k :: 0 <= k < |t.value| ==> !IsSpace(t.value[k]))
  }

  /** First index at or after `i` holding a double quote, or `|s|`. */
  function QuoteFrom(s: string, i: nat): (j: nat)
    requires i <= |s|
    ensures i <= j <= |s|
    ensures forall k :: i <= k < j ==> s[k] != '"'
    ensures j == |s| || s[j] == '"'
    decreases |s| - i
  {
    if i < |s| && s[i] != '"' then QuoteFrom(s, i + 1) else i
  }

  /** The quoted alternative `"([^"]+)"` matches at `v`: an opening quote, a character that
      is not a quote, and a closing quote later on. */
  predicate QuotedAt(s: string, v: nat) {
    v + 1 < |s| && s[v] == '"' && s[v + 1] != '"' && exists q :: v + 1 < q < |s| && s[q] == '"'
  }

  /** The value part of the pattern tried at index `v`, just past the colon: the quoted
      alternative first, which needs a non-empty text and a closing quote; otherwise the
      whole run of non-whitespace.  Gives the value, which alternative matched and the
      index just past the match. */
  function ValueAt(s: string, v: nat): (m: Option<(string, bool, nat)>)
    requires v < |s|
    ensures m.None? <==> IsSpace(s[v])
    ensures m.Some? ==> var (value, quoted, e) := m.value;
                        v < e <= |s| && value != [] &&
                        s[v..e] == (if quoted then "\"" + value + "\"" else value) &&
                        (quoted ==> '"' !in value) &&
                        (!quoted ==> (forall k :: 0 <= k < |value| ==> !IsSpace(value[k])) &&
                                     (e == |s| || IsSpace(s[e])))
    ensures m.Some? ==> (m.value.1 <==> QuotedAt(s, v))
  {
    var q := if s[v] == '"' then QuoteFrom(s, v + 1) else v;
    if s[v] == '"' && v + 1 < q < |s| then
      QuotedSlice(s, v, q);
      Some((s[v + 1..q], true, q + 1))
    else
      assert !QuotedAt(s, v) by {
        if s[v] == '"' {
          forall p | v + 1 < p < |s| && s[p] == '"' ensures q <= p {
          }
        }
      }
      var e := SpaceFrom(s, v);
      if e == v then None else Some((s[v..e], false, e))
  }

  /** The pattern tried at index `i`: the token and the index just past it.  The name is
      the whole run of word characters (a shorter one is followed by a word character,
      not a colon). */
  function MatchAt(s: string, i: nat): (m: Option<(Token, nat)>)
    requires i <= |s|
    ensures m.Some? ==> i < m.value.1 <= |s| && WellFormed(m.value.0) &&
                        s[i..m.value.1] == Matched(m.value.0) &&
                        m.value.0.name == s[i..WordEnd(s, i)]
    ensures m.Some? && !m.value.0.quoted ==> m.value.1 == |s| || IsSpace(s[m.value.1])
    ensures m.Some? <==> var n := WordEnd(s, i);
                         i < n && n + 1 < |s| && s[n] == ':' && !IsSpace(s[n + 1])
    ensures m.Some? ==> (m.value.0.quoted <==> QuotedAt(s, WordEnd(s, i) + 1))
  {
    var n := WordEnd(s, i);
    if n == i || n + 1 >= |s| || s[n] != ':' then None
    else
      match ValueAt(s, n + 1)
      case None => None
      case Some((value, quoted, e)) =>
        var t := Token(s[i..n], value, quoted);
        ColonSlice(s, i, n, e);
        Some((t, e))
  }

  /** A quoted value: the text between an opening quote and the first quote after it. */
  lemma QuotedSlice(s: string, v: nat, q: nat)
    requires v + 1 < q < |s| && s[v] == '"' && s[q] == '"'
    requires forall k :: v + 1 <= k < q ==> s[k] != '"'
    ensures s[v..q + 1] == "\"" + s[v + 1..q] + "\""
    ensures '"' !in s[v + 1..q] && s[v + 1..q] != []
    ensures !IsSpace(s[v])
  {
    var value := s[v + 1..q];
    forall k | 0 <= k < |value| ensures value[k] != '"' {
      assert value[k] == s[v + 1 + k];
    }
    var r := "\"" + s[v + 1..q] + "\"";
    assert |r| == q + 1 - v;
    forall k | 0 <= k < |r| ensures s[v..q + 1][k] == r[k] {
      if 0 < k < |r| - 1 {
        assert r[k] == s[v + 1..q][k - 1];
      }
    }
  }

  lemma ColonSlice(s: string, i: nat, n: nat, e: nat)
    requires i <= n < e <= |s| && s[n] == ':'
    ensures s[i..e] == s[i..n] + ":" + s[n + 1..e]
  {
    assert s[i..e] == s[i..n] + s[n..e];
    assert s[n..e] == [s[n]] + s[n + 1..e];
  }

  /** `re.findall` from index `i`: a match is taken at the leftmost index where the
      pattern matches, and scanning resumes just past it. */
  function FindFrom(s: string, i: nat): (toks: seq<Token>)
    requires i <= |s|
    ensures forall t :: t in toks ==> WellFormed(t)
    decreases |s| - i
  {
    if i == |s| then []
    else
      match MatchAt(s, i)
      case Some((t, e)) => [t] + FindFrom(s, e)
      case None => FindFrom(s, i + 1)
  }

  function FindAll(s: string): seq<Token> {
    FindFrom(s, 0)
  }

  /** `p` is the leftmost index from `i` on where the pattern matches. */
  predicate Leftmost(s: string, i: nat, p: nat) {
    i <= p < |s| && MatchAt(s, p).Some? && forall k :: i <= k < p ==> MatchAt(s, k).None?
  }

  /** The `re.findall` scan finds nothing from `i` on exactly when the pattern matches
      nowhere from `i` on. */
  lemma {:induction false} FindFromEmpty(s: string, i: nat)
    requires i <= |s|
    ensures FindFrom(s, i) == [] <==> forall k :: i <= k < |s| ==> MatchAt(s, k).None?
    decreases |s| - i
  {
    if i < |s| {
      match MatchAt(s, i)
      case Some((t, e)) =>
        assert FindFrom(s, i) == [t] + FindFrom(s, e);
      case None =>
        FindFromEmpty(s, i + 1);
        assert FindFrom(s, i) == FindFrom(s, i + 1);
    }
  }

  /** Otherwise its first token is the match at the leftmost index where the pattern
      matches, and the rest are the tokens found from just past that match. */
  lemma {:induction false} FindFromLeftmost(s: string, i: nat)
    requires i <= |s| && FindFrom(s, i) != []
    ensures exists p :: Leftmost(s, i, p) &&
                        FindFrom(s, i) == [MatchAt(s, p).value.0] + FindFrom(s, MatchAt(s, p).value.1)
    decreases |s| - i
  {
    if MatchAt(s, i).Some? {
      assert Leftmost(s, i, i);
    } else {
      FindFromLeftmost(s, i + 1);
      var p :| Leftmost(s, i + 1, p) &&
               FindFrom(s, i + 1) == [MatchAt(s, p).value.0] + FindFrom(s, MatchAt(s, p).value.1);
      assert Leftmost(s, i, p);
    }
  }

  /** The qualifier text used by the example lemmas below. */
  const Example: string := "path:a content:\"b c\" extra"

  /** A bare and a quoted qualifier, followed by plain text. */
  lemma FindAllExample()
    ensures FindAll(Example) == [Token("path", "a", false), Token("content", "b c", true)]
  {
    ExampleTail();
    ExamplePath();
    assert FindFrom(Example, 0) == [Token("path", "a", false)] + FindFrom(Example, 6);
  }

  lemma ExampleTail()
    ensures FindFrom(Example, 6) == [Token("content", "b c", true)]
  {
    forall k | 20 <= k < |Example| ensures MatchAt(Example, k).None? {
      ExampleNoMatchAfter(k);
    }
    FindFromEmpty(Example, 20);
    ExampleContent();
    ExampleNoMatchAt6();
    assert FindFrom(Example, 6) == FindFrom(Example, 7);
  }

  lemma ExamplePath()
    ensures MatchAt(Example, 0) == Some((Token("path", "a", false), 6))
  {
    ExamplePathName();
    ExamplePathValue();
  }

  lemma ExamplePathName()
    ensures WordEnd(Example, 0) == 4 && Example[0..4] == "path" && Example[4] == ':'
  {
    var s := Example;
    assert |s| == 26;
    assert IsWordChar(s[0]) && IsWordChar(s[1]) && IsWordChar(s[2]) && IsWordChar(s[3]) && !IsWordChar(s[4]);
    assert s[0..4] == "path";
  }

  lemma ExamplePathValue()
    ensures ValueAt(Example, 5) == Some(("a", false, 6))
  {
    var s := Example;
    assert |s| == 26;
    assert SpaceFrom(s, 5) == 6 by {
      assert !IsSpace(s[5]) && IsSpace(s[6]);
    }
    assert s[5..6] == [s[5]] == "a";
  }

  lemma ExampleNoMatchAt6()
    ensures MatchAt(Example, 6).None?
  {
    assert !IsWordChar(Example[6]);
  }

  lemma ExampleContent()
    ensures MatchAt(Example, 7) == Some((Token("content", "b c", true), 20))
  {
    ExampleContentName();
    ExampleQuoted();
  }

  lemma ExampleContentName()
    ensures WordEnd(Example, 7) == 14 && Example[7..14] == "content" && Example[14] == ':'
  {
    ExampleContentEnd();
    assert Example[7..14] == "content";
  }

  lemma ExampleContentEnd()
    ensures WordEnd(Example, 7) == 14
  {
    var s := Example;
    assert |s| == 26;
    assert forall k :: 7 <= k < 14 ==> IsWordChar(s[k]);
    assert !IsWordChar(s[14]);
  }

  lemma ExampleQuoted()
    ensures ValueAt(Example, 15) == Some(("b c", true, 20))
  {
    var s := Example;
    assert |s| == 26;
    assert QuoteFrom(s, 16) == 19 by {
      assert s[16] != '"' && s[17] != '"' && s[18] != '"' && s[19] == '"';
    }
    assert s[16..19] == "b c" by {
      assert s[16] == 'b' && s[17] == ' ' && s[18] == 'c';
    }
  }

  lemma ExampleNoMatchAfter(k: nat)
    requires 20 <= k < |Example|
    ensures MatchAt(Example, k).None?
  {
    var s := Example;
    assert |s| == 26;
    if k > 20 {
      assert forall q :: k <= q < 26 ==> IsWordChar(s[q]);
      assert WordEnd(s, k) == 26;
    }
  }

  /** Every match holds a colon, so a query without one has no tokens. */
  lemma {:induction false} NoColonNoTokens(s: string, i: nat)
    requires i <= |s| && ':' !in s
    ensures FindFrom(s, i) == []
    decreases |s| - i
  {
    if i < |s| {
      assert MatchAt(s, i).None?;
      NoColonNoTokens(s, i + 1);
    }
  }

  /** A blank query has no tokens: a match needs a word character. */
  lemma {:induction false} BlankNoTokens(s: string, i: nat)
    requires i <= |s| && IsBlank(s)
    ensures FindFrom(s, i) == []
    decreases |s| - i
  {
    if i < |s| {
      assert IsSpace(s[i]) && !IsWordChar(s[i]);
      assert MatchAt(s, i).None?;
      BlankNoTokens(s, i + 1);
    }
  }

  // ---------------------------------------------------------------------------
  // Grouping the values by lower-cased qualifier name
  // ---------------------------------------------------------------------------

  /** The values captured under qualifier `key` (compared lower-cased), in order of appearance. */
  function ValuesFor(toks: seq<Token>, key: string): seq<string> {
    if toks == [] then []
    else
      var last := toks[|toks| - 1];
      ValuesFor(toks[..|toks| - 1], key) + (if Lower(last.name) == key then [last.value] else [])
  }

  /** The lower-cased qualifier names that occur. */
  function Names(toks: seq<Token>): set<string> {
    set t | t in toks :: Lower(t.name)
  }

  /** The qualifier map built by the parser. */
  function Qualifiers(toks: seq<Token>): (q: map<string, seq<string>>)
    ensures q.Keys == Names(toks)
  {
    map k | k in Names(toks) :: ValuesFor(toks, k)
  }

  /** Repeated qualifiers accumulate: values found later are appended, never overwrite. */
  lemma {:induction false} ValuesForAppend(a: seq<Token>, b: seq<Token>, key: string)
    ensures ValuesFor(a + b, key) == ValuesFor(a, key) + ValuesFor(b, key)
    decreases |b|
  {
    if b != [] {
      assert (a + b)[..|a + b| - 1] == a + b[..|b| - 1];
      ValuesForAppend(a, b[..|b| - 1], key);
    } else {
      assert a + b == a;
    }
  }

  /** A value is listed under a key exactly when some token with that (lower-cased) name captured it. */
  lemma {:induction false} ValuesForMembers(toks: seq<Token>, key: string, v: string)
    ensures v in ValuesFor(toks, key) <==> exists t :: t in toks && Lower(t.name) == key && t.value == v
  {
    if toks != [] {
      var init := toks[..|toks| - 1];
      ValuesForMembers(init, key, v);
      assert toks == init + [toks[|toks| - 1]];
    }
  }

  /** A name has an entry exactly when it has at least one value. */
  lemma ValuesForNonEmpty(toks: seq<Token>, key: string)
    ensures ValuesFor(toks, key) != [] <==> key in Names(toks)
  {
    if ValuesFor(toks, key) != [] {
      var v := ValuesFor(toks, key)[0];
      ValuesForMembers(toks, key, v);
    }
  }

  /** Qualifier values are never empty strings. */
  lemma QualifierValuesNonEmpty(toks: seq<Token>, key: string, v: string)
    requires forall t :: t in toks ==> WellFormed(t)
    requires key in Qualifiers(toks) && v in Qualifiers(toks)[key]
    ensures v != []
  {
    ValuesForMembers(toks, key, v);
  }

  // ---------------------------------------------------------------------------
  // The leftover text
  // ---------------------------------------------------------------------------

  /** The query with every occurrence of each rebuilt token deleted, token by token. */
  function RemoveTokens(s: string, toks: seq<Token>): string
    requires forall t :: t in toks ==> WellFormed(t)
    decreases |toks|
  {
    if toks == [] then s else RemoveTokens(RemoveAll(s, Rebuilt(toks[0])), toks[1..])
  }

  /** The leftover text of a query. */
  function Leftover(query: string): string {
    Strip(RemoveTokens(query, FindAll(query)))
  }

  /** With no token matched, the leftover is the stripped query. */
  lemma LeftoverWithoutTokens(query: string)
    requires FindAll(query) == []
    ensures Leftover(query) == Strip(query)
  {
  }

  /** The deletion never touches a quoted token's own text: the rebuilt form has no quotes,
      and every window of its length in the matched text covers the opening quote. */
  lemma QuotedTokenNotDeleted(t: Token)
    requires WellFormed(t) && t.quoted
    ensures !Contains(Matched(t), Rebuilt(t))
  {
    var m, r := Matched(t), Rebuilt(t);
    var q := |t.name| + 1;
    assert m[q] == '"';
    assert '"' !in r by {
      forall k | 0 <= k < |r| ensures r[k] != '"' {
        if k < |t.name| { assert r[k] == t.name[k]; }
        else if k > |t.name| { assert r[k] == t.value[k - q]; }
      }
    }
    forall i: nat | OccursAt(m, r, i) ensures false {
    }
  }

  /** `parsed` maps each name that occurs in `toks` to its values. */
  ghost predicate Grouped(parsed: map<string, seq<string>>, toks: seq<Token>) {
    parsed.Keys == Names(toks) && forall k :: k in parsed ==> parsed[k] == ValuesFor(toks, k)
  }

  /** Appending one token's value under its lower-cased name extends the grouping by that token. */
  lemma GroupStep(parsed: map<string, seq<string>>, toks: seq<Token>, t: Token,
                  after: map<string, seq<string>>)
    requires Grouped(parsed, toks)
    requires var q := Lower(t.name); after == parsed[q := (if q in parsed then parsed[q] else []) + [t.value]]
    ensures Grouped(after, toks + [t])
  {
    var q := Lower(t.name);
    var toks' := toks + [t];
    assert toks'[..|toks'| - 1] == toks && toks'[|toks'| - 1] == t;
    NamesSnoc(toks, t);
    forall k | k in after ensures after[k] == ValuesFor(toks', k) {
      assert ValuesFor(toks', k) == ValuesFor(toks, k) + (if q == k then [t.value] else []);
      if k == q && q !in parsed {
        ValuesForNonEmpty(toks, q);
      }
    }
  }

  lemma NamesSnoc(toks: seq<Token>, t: Token)
    ensures Names(toks + [t]) == Names(toks) + {Lower(t.name)}
  {
    var toks' := toks + [t];
    forall n | n in Names(toks') ensures n in Names(toks) + {Lower(t.name)} {
      var u :| u in toks' && Lower(u.name) == n;
      if u != t {
        assert u in toks;
      }
    }
    assert t in toks';
  }

  /** One more match: its value is appended under its lower-cased name. */
  lemma QualifiersSnoc(toks: seq<Token>, i: nat)
    requires i < |toks|
    ensures var q, before := Lower(toks[i].name), Qualifiers(toks[..i]);
            Qualifiers(toks[..i + 1]) == before[q := (if q in before then before[q] else []) + [toks[i].value]]
  {
    GroupNext(Qualifiers(toks[..i]), toks, i);
    var q, before := Lower(toks[i].name), Qualifiers(toks[..i]);
    GroupedIsQualifiers(before[q := (if q in before then before[q] else []) + [toks[i].value]], toks[..i + 1]);
  }

  lemma GroupNext(parsed: map<string, seq<string>>, toks: seq<Token>, i: nat)
    requires i < |toks| && Grouped(parsed, toks[..i])
    ensures var q := Lower(toks[i].name);
            Grouped(parsed[q := (if q in parsed then parsed[q] else []) + [toks[i].value]], toks[..i + 1])
  {
    var q := Lower(toks[i].name);
    var after := parsed[q := (if q in parsed then parsed[q] else []) + [toks[i].value]];
    GroupStep(parsed, toks[..i], toks[i], after);
    GroupPrefix(after, toks, i);
  }

  lemma GroupPrefix(parsed: map<string, seq<string>>, toks: seq<Token>, i: nat)
    requires i < |toks| && Grouped(parsed, toks[..i] + [toks[i]])
    ensures Grouped(parsed, toks[..i + 1])
  {
    assert toks[..i + 1] == toks[..i] + [toks[i]];
  }

  lemma GroupedIsQualifiers(parsed: map<string, seq<string>>, toks: seq<Token>)
    requires Grouped(parsed, toks)
    ensures parsed == Qualifiers(toks)
  {
  }

  /** `_parse_query`: the qualifier map and the leftover text. */
  method ParseQuery(query: string) returns (parsed: map<string, seq<string>>, remaining: string)
    ensures IsBlank(query) ==> parsed == map[] && remaining == []
    ensures parsed == Qualifiers(FindAll(query))
    ensures remaining == Leftover(query)
  {
    StripEmptyIffBlank(query);
    if Strip(query) == [] {
      BlankNoTokens(query, 0);
      return map[], [];
    }
    var matches := FindAll(query);
    parsed := GroupValues(matches);
    remaining := RemoveMatches(query, matches);
    remaining := Strip(remaining);
  }

  /** The first loop of `_parse_query`: each match appends its value under its lower-cased
      name. */
  method GroupValues(matches: seq<Token>) returns (parsed: map<string, seq<string>>)
    ensures parsed == Qualifiers(matches)
  {
    parsed := map[];
    assert matches[..0] == [];
    assert Names([]) == {};
    for i := 0 to |matches|
      invariant parsed == Qualifiers(matches[..i])
    {
      QualifiersSnoc(matches, i);
      var qualifier := Lower(matches[i].name);
      var prior := if qualifier in parsed then parsed[qualifier] else [];
      parsed := parsed[qualifier := prior + [matches[i].value]];
    }
    assert matches[..|matches|] == matches;
  }

  /** The second loop of `_parse_query`: every occurrence of each rebuilt match is deleted. */
  method RemoveMatches(query: string, matches: seq<Token>) returns (remaining: string)
    requires forall t :: t in matches ==> WellFormed(t)
    ensures remaining == RemoveTokens(query, matches)
  {
    remaining := query;
    for i := 0 to |matches|
      invariant RemoveTokens(remaining, matches[i..]) == RemoveTokens(query, matches)
    {
      assert matches[i..][1..] == matches[i + 1..];
      remaining := RemoveAll(remaining, Rebuilt(matches[i]));
    }
  }

  // ---------------------------------------------------------------------------
  // Intersection by path
  // ---------------------------------------------------------------------------

  /** The elements of `cur` whose path is in `paths`, in order, duplicates kept. */
  function KeepPaths(cur: seq<SearchResult>, paths: set<string>): (r: seq<SearchResult>)
    ensures |r| <= |cur|
  {
    if cur == [] then []
    else (if cur[0].path in paths then [cur[0]] else []) + KeepPaths(cur[1..], paths)
  }

  /** Each record is kept with all its copies when its path is listed, and dropped otherwise. */
  lemma {:induction false} KeepPathsCount(cur: seq<SearchResult>, paths: set<string>, x: SearchResult)
    ensures multiset(KeepPaths(cur, paths))[x] == if x.path in paths then multiset(cur)[x] else 0
  {
    if cur != [] {
      KeepPathsCount(cur[1..], paths, x);
      var head := if cur[0].path in paths then [cur[0]] else [];
      assert multiset(KeepPaths(cur, paths)) == multiset(head) + multiset(KeepPaths(cur[1..], paths));
      assert cur == [cur[0]] + cur[1..];
      assert multiset(cur) == multiset([cur[0]]) + multiset(cur[1..]);
    }
  }

  /** `a` is `b` with some elements left out, the rest in their order. */
  ghost predicate Sublist(a: seq<SearchResult>, b: seq<SearchResult>)
    decreases |b|
  {
    a == [] || (b != [] && ((a[0] == b[0] && Sublist(a[1..], b[1..])) || Sublist(a, b[1..])))
  }

  /** Filtering keeps the running results in their order. */
  lemma {:induction false} KeepPathsInOrder(cur: seq<SearchResult>, paths: set<string>)
    ensures Sublist(KeepPaths(cur, paths), cur)
  {
    if cur != [] {
      var rest := KeepPaths(cur[1..], paths);
      KeepPathsInOrder(cur[1..], paths);
      if cur[0].path in paths {
        var r := [cur[0]] + rest;
        assert KeepPaths(cur, paths) == r;
        assert r[0] == cur[0] && r[1..] == rest;
      } else {
        assert KeepPaths(cur, paths) == [] + rest == rest;
      }
    }
  }

  /** `_filter_results`: no running result yet means the new results; otherwise the
      running results whose path occurs among the new ones. */
  function FilterResults(current: Option<seq<SearchResult>>, incoming: seq<SearchResult>): seq<SearchResult> {
    match current
    case None => incoming
    case Some(cur) => KeepPaths(cur, Paths(incoming))
  }

  /** An element survives the filter exactly when it was running and its path is new. */
  lemma FilterResultsMembers(cur: seq<SearchResult>, incoming: seq<SearchResult>, x: SearchResult)
    ensures x in FilterResults(Some(cur), incoming) <==> x in cur && x.path in Paths(incoming)
  {
    var r := FilterResults(Some(cur), incoming);
    KeepPathsCount(cur, Paths(incoming), x);
    assert x in r <==> multiset(r)[x] > 0;
    assert x in cur <==> multiset(cur)[x] > 0;
  }

  /** The store calls for each value of one qualifier. */
  function PathCalls(vs: seq<string>): (cs: seq<StoreCall>)
    ensures |cs| == |vs|
  {
    if vs == [] then [] else [ByPath(vs[0])] + PathCalls(vs[1..])
  }

  function ContentCalls(vs: seq<string>): (cs: seq<StoreCall>)
    ensures |cs| == |vs|
  {
    if vs == [] then [] else [ByContent(vs[0])] + ContentCalls(vs[1..])
  }

  function ExtensionCalls(vs: seq<string>): (cs: seq<StoreCall>)
    ensures |cs| == |vs|
  {
    if vs == [] then [] else [ByExtension(vs[0])] + ExtensionCalls(vs[1..])
  }

  function Lookup(parsed: map<string, seq<string>>, key: string): seq<string> {
    if key in parsed then parsed[key] else []
  }

  /** The supported qualifiers' lookups, in the order they are applied: every `path`
      value, then every `content` value, then every `extension` value. */
  function Steps(parsed: map<string, seq<string>>): seq<StoreCall> {
    PathCalls(Lookup(parsed, "path")) +
    (ContentCalls(Lookup(parsed, "content")) + ExtensionCalls(Lookup(parsed, "extension")))
  }

  /** Apply the lookups one by one, intersecting by path, and stop with no results as soon
      as the running results are empty.  Returns the results and the calls made. */
  function Narrow(store: Store, current: Option<seq<SearchResult>>, steps: seq<StoreCall>)
    : (out: (seq<SearchResult>, seq<StoreCall>))
    ensures out.1 <= steps
    ensures |out.1| < |steps| ==> out.0 == []
    decreases |steps|
  {
    if steps == [] then (current.GetOr([]), [])
    else
      var next := FilterResults(current, Perform(store, steps[0]));
      if next == [] then ([], [steps[0]])
      else
        var rest := Narrow(store, Some(next), steps[1..]);
        assert steps == [steps[0]] + steps[1..];
        (rest.0, [steps[0]] + rest.1)
  }

  /** The results the intersection starts from: the running ones, or the first lookup's. */
  function Seed(store: Store, current: Option<seq<SearchResult>>, steps: seq<StoreCall>): seq<SearchResult> {
    match current
    case Some(cur) => cur
    case None => if steps == [] then [] else Perform(store, steps[0])
  }

  /** AND semantics: a record is returned exactly when it is among the seed results and its
      path occurs in the answer to every lookup, so stopping early loses nothing. */
  lemma {:induction false} NarrowMembers(store: Store, current: Option<seq<SearchResult>>,
                                         steps: seq<StoreCall>, x: SearchResult)
    ensures x in Narrow(store, current, steps).0 <==>
            x in Seed(store, current, steps) &&
            forall c :: c in steps ==> x.path in Paths(Perform(store, c))
    decreases |steps|
  {
    if steps != [] {
      var got := Perform(store, steps[0]);
      var next := FilterResults(current, got);
      FirstFilter(store, current, steps, x);
      AllStepsCons(store, steps, x);
      if next != [] {
        NarrowMembers(store, Some(next), steps[1..], x);
      }
    }
  }

  /** The first lookup keeps exactly the seed results whose path it answers. */
  lemma FirstFilter(store: Store, current: Option<seq<SearchResult>>, steps: seq<StoreCall>, x: SearchResult)
    requires steps != []
    ensures x in FilterResults(current, Perform(store, steps[0])) <==>
            x in Seed(store, current, steps) && x.path in Paths(Perform(store, steps[0]))
  {
    var got := Perform(store, steps[0]);
    if current.Some? {
      FilterResultsMembers(current.value, got, x);
    } else {
      assert x in got ==> x.path in Paths(got);
    }
  }

  /** A path answered by every lookup is answered by the first and by all the others. */
  lemma AllStepsCons(store: Store, steps: seq<StoreCall>, x: SearchResult)
    requires steps != []
    ensures (forall c :: c in steps ==> x.path in Paths(Perform(store, c))) <==>
            x.path in Paths(Perform(store, steps[0])) &&
            forall c :: c in steps[1..] ==> x.path in Paths(Perform(store, c))
  {
    assert steps == [steps[0]] + steps[1..];
  }

  /** Every path returned occurs in every store answer that was consulted. */
  lemma NarrowConsulted(store: Store, current: Option<seq<SearchResult>>,
                        steps: seq<StoreCall>, x: SearchResult, c: StoreCall)
    requires x in Narrow(store, current, steps).0 && c in Narrow(store, current, steps).1
    ensures x.path in Paths(Perform(store, c))
  {
    var out := Narrow(store, current, steps);
    assert out.1 == steps;
    NarrowMembers(store, current, steps, x);
  }

  /** The outcome of the remaining lookups, after the calls already made. */
  function Resume(done: seq<StoreCall>, rest: (seq<SearchResult>, seq<StoreCall>)): (seq<SearchResult>, seq<StoreCall>) {
    (rest.0, done + rest.1)
  }

  /** One lookup of the intersection, unfolded. */
  lemma NarrowCons(store: Store, current: Option<seq<SearchResult>>, c: StoreCall, rest: seq<StoreCall>,
                   done: seq<StoreCall>, next: seq<SearchResult>)
    requires next == FilterResults(current, Perform(store, c))
    ensures Resume(done, Narrow(store, current, [c] + rest)) ==
            if next == [] then ([], done + [c]) else Resume(done + [c], Narrow(store, Some(next), rest))
  {
    assert ([c] + rest)[1..] == rest;
    assert done + ([c] + Narrow(store, Some(next), rest).1) == (done + [c]) + Narrow(store, Some(next), rest).1;
  }

  /** Peeling the first value off each qualifier's call list. */
  lemma PathCallsCons(vs: seq<string>, i: nat, tail: seq<StoreCall>)
    requires i < |vs|
    ensures PathCalls(vs[i..]) + tail == [ByPath(vs[i])] + (PathCalls(vs[i + 1..]) + tail)
  {
    assert vs[i..][1..] == vs[i + 1..];
  }

  lemma ContentCallsCons(vs: seq<string>, i: nat, tail: seq<StoreCall>)
    requires i < |vs|
    ensures ContentCalls(vs[i..]) + tail == [ByContent(vs[i])] + (ContentCalls(vs[i + 1..]) + tail)
  {
    assert vs[i..][1..] == vs[i + 1..];
  }

  lemma ExtensionCallsCons(vs: seq<string>, i: nat)
    requires i < |vs|
    ensures ExtensionCalls(vs[i..]) == [ByExtension(vs[i])] + ExtensionCalls(vs[i + 1..])
  {
    assert vs[i..][1..] == vs[i + 1..];
  }

  /** The `path` loop of `_handle_parsed_items`: each value looked up and intersected with
      the running results; `stopped` is the early `return []` once nothing is left. */
  method FilterByPaths(store: Store, before: Option<seq<SearchResult>>, done: seq<StoreCall>,
                       vs: seq<string>, ghost tail: seq<StoreCall>)
    returns (current: Option<seq<SearchResult>>, calls: seq<StoreCall>, stopped: bool)
    ensures Resume(done, Narrow(store, before, PathCalls(vs) + tail)) ==
            if stopped then ([], calls) else Resume(calls, Narrow(store, current, tail))
  {
    current, calls, stopped := before, done, false;
    assert vs[0..] == vs;
    for i := 0 to |vs|
      invariant Resume(done, Narrow(store, before, PathCalls(vs) + tail)) ==
                Resume(calls, Narrow(store, current, PathCalls(vs[i..]) + tail))
    {
      var next := FilterResults(current, store.byPath(vs[i]));
      PathCallsCons(vs, i, tail);
      NarrowCons(store, current, ByPath(vs[i]), PathCalls(vs[i + 1..]) + tail, calls, next);
      calls := calls + [ByPath(vs[i])];
      if next == [] {
        return current, calls, true;
      }
      current := Some(next);
    }
    assert vs[|vs|..] == [] && [] + tail == tail;
  }

  /** The `content` loop, likewise. */
  method FilterByContents(store: Store, before: Option<seq<SearchResult>>, done: seq<StoreCall>,
                          vs: seq<string>, ghost tail: seq<StoreCall>)
    returns (current: Option<seq<SearchResult>>, calls: seq<StoreCall>, stopped: bool)
    ensures Resume(done, Narrow(store, before, ContentCalls(vs) + tail)) ==
            if stopped then ([], calls) else Resume(calls, Narrow(store, current, tail))
  {
    current, calls, stopped := before, done, false;
    assert vs[0..] == vs;
    for i := 0 to |vs|
      invariant Resume(done, Narrow(store, before, ContentCalls(vs) + tail)) ==
                Resume(calls, Narrow(store, current, ContentCalls(vs[i..]) + tail))
    {
      var next := FilterResults(current, store.byContent(vs[i]));
      ContentCallsCons(vs, i, tail);
      NarrowCons(store, current, ByContent(vs[i]), ContentCalls(vs[i + 1..]) + tail, calls, next);
      calls := calls + [ByContent(vs[i])];
      if next == [] {
        return current, calls, true;
      }
      current := Some(next);
    }
    assert vs[|vs|..] == [] && [] + tail == tail;
  }

  /** The `extension` loop, the last one. */
  method FilterByExtensions(store: Store, before: Option<seq<SearchResult>>, done: seq<StoreCall>,
                            vs: seq<string>)
    returns (current: Option<seq<SearchResult>>, calls: seq<StoreCall>, stopped: bool)
    ensures Resume(done, Narrow(store, before, ExtensionCalls(vs))) ==
            if stopped then ([], calls) else (current.GetOr([]), calls)
  {
    current, calls, stopped := before, done, false;
    assert vs[0..] == vs;
    for i := 0 to |vs|
      invariant Resume(done, Narrow(store, before, ExtensionCalls(vs))) ==
                Resume(calls, Narrow(store, current, ExtensionCalls(vs[i..])))
    {
      var next := FilterResults(current, store.byExtension(vs[i]));
      ExtensionCallsCons(vs, i);
      NarrowCons(store, current, ByExtension(vs[i]), ExtensionCalls(vs[i + 1..]), calls, next);
      calls := calls + [ByExtension(vs[i])];
      if next == [] {
        return current, calls, true;
      }
      current := Some(next);
    }
    assert vs[|vs|..] == [];
    assert calls + [] == calls;
  }

  /** `_handle_parsed_items`: the supported qualifiers' values, looked up and intersected. */
  method HandleParsedItems(store: Store, parsed: map<string, seq<string>>)
    returns (results: seq<SearchResult>, calls: seq<StoreCall>)
    ensures (results, calls) == Narrow(store, None, Steps(parsed))
  {
    if parsed == map[] {
      return [], [];
    }
    var paths, contents, extensions := Lookup(parsed, "path"), Lookup(parsed, "content"), Lookup(parsed, "extension");
    var current: Option<seq<SearchResult>> := None;
    var stopped := false;
    calls := [];
    ghost var outcome := Narrow(store, None, Steps(parsed));
    ghost var tail := ContentCalls(contents) + ExtensionCalls(extensions);
    assert [] + outcome.1 == outcome.1;
    assert outcome == Resume(calls, Narrow(store, current, PathCalls(paths) + tail));

    if "path" in parsed {
      current, calls, stopped := FilterByPaths(store, current, calls, paths, tail);
      if stopped {
        return [], calls;
      }
    } else {
      assert PathCalls(paths) + tail == tail;
    }

    if "content" in parsed {
      current, calls, stopped := FilterByContents(store, current, calls, contents, ExtensionCalls(extensions));
      if stopped {
        return [], calls;
      }
    } else {
      assert ContentCalls(contents) + ExtensionCalls(extensions) == ExtensionCalls(extensions);
    }

    if "extension" in parsed {
      current, calls, stopped := FilterByExtensions(store, current, calls, extensions);
      if stopped {
        return [], calls;
      }
      return current.GetOr([]), calls;
    }
    assert calls + [] == calls;
    results := current.GetOr([]);
  }

  // ---------------------------------------------------------------------------
  // Dispatch
  // ---------------------------------------------------------------------------

  /** The lookup for a query without qualifiers: a leading dot selects the extension
      (dot dropped), several words the multi-word search, anything else the content search. */
  function Route(left: string): StoreCall {
    if StartsWith(left, ".") then ByExtension(left[1..])
    else if |Split(left)| > 1 then MultiWords(Split(left))
    else ByContent(left)
  }

  /** `search_prompt`: the results and the store calls made. */
  function Dispatch(store: Store, prompt: string): (seq<SearchResult>, seq<StoreCall>) {
    if Strip(prompt) == [] then ([], [])
    else Answer(store, Qualifiers(FindAll(prompt)), Leftover(prompt))
  }

  /** The search for a parsed, non-blank prompt: the intersection when there are
      qualifiers, otherwise the one lookup the leftover text selects. */
  function Answer(store: Store, parsed: map<string, seq<string>>, left: string): (seq<SearchResult>, seq<StoreCall>) {
    if parsed != map[] then Narrow(store, None, Steps(parsed))
    else
      var call := Route(left);
      (Perform(store, call), [call])
  }

  /** `search_prompt` as the source runs it: parse, then structured or heuristic search. */
  method SearchPrompt(store: Store, prompt: string) returns (results: seq<SearchResult>, calls: seq<StoreCall>)
    ensures (results, calls) == Dispatch(store, prompt)
  {
    if Strip(prompt) == [] {
      return [], [];
    }
    var parsed, remaining := ParseQuery(prompt);
    assert Dispatch(store, prompt) == Answer(store, parsed, remaining);
    if parsed != map[] {
      results, calls := HandleParsedItems(store, parsed);
      return;
    }
    var call;
    results, call := HeuristicSearch(store, remaining);
    calls := [call];
  }

  /** The branch of `search_prompt` for a prompt without qualifiers: one lookup, chosen
      from the leftover text. */
  method HeuristicSearch(store: Store, remaining: string) returns (results: seq<SearchResult>, call: StoreCall)
    ensures call == Route(remaining) && results == Perform(store, call)
  {
    if StartsWith(remaining, ".") {
      var extension := remaining[1..];
      return store.byExtension(extension), ByExtension(extension);
    }
    if |Split(remaining)| > 1 {
      var words := Split(remaining);
      return store.multiWords(words), MultiWords(words);
    } else {
      return store.byContent(remaining), ByContent(remaining);
    }
  }

  /** An empty or whitespace-only prompt gives no results and makes no store call. */
  lemma DispatchBlank(store: Store, prompt: string)
    requires IsBlank(prompt)
    ensures Dispatch(store, prompt) == ([], [])
  {
    StripEmptyIffBlank(prompt);
  }

  /** With no qualifier in the prompt, exactly one store call is made, chosen from the
      stripped prompt, and its answer is returned unchanged. */
  lemma DispatchHeuristic(store: Store, prompt: string)
    requires !IsBlank(prompt) && FindAll(prompt) == []
    ensures Dispatch(store, prompt).1 == [Route(Strip(prompt))]
    ensures Dispatch(store, prompt).0 == Perform(store, Route(Strip(prompt)))
  {
    StripEmptyIffBlank(prompt);
    assert Qualifiers([]) == map[];
  }

  /** With qualifiers, the results are the AND of every supported qualifier value. */
  lemma DispatchStructured(store: Store, prompt: string, x: SearchResult)
    requires FindAll(prompt) != []
    ensures var steps := Steps(Qualifiers(FindAll(prompt)));
            x in Dispatch(store, prompt).0 <==>
            steps != [] && x in Perform(store, steps[0]) &&
            forall c :: c in steps ==> x.path in Paths(Perform(store, c))
  {
    var toks := FindAll(prompt);
    assert Strip(prompt) != [] by {
      StripEmptyIffBlank(prompt);
      if IsBlank(prompt) { BlankNoTokens(prompt, 0); }
    }
    assert Lower(toks[0].name) in Qualifiers(toks);
    NarrowMembers(store, None, Steps(Qualifiers(toks)), x);
  }

  /** Qualifiers of which none is `path`, `content` or `extension` give no results and no store call. */
  lemma DispatchUnsupportedOnly(store: Store, prompt: string)
    requires FindAll(prompt) != []
    requires forall t :: t in FindAll(prompt) ==> Lower(t.name) !in {"path", "content", "extension"}
    ensures Dispatch(store, prompt) == ([], [])
  {
    assert Strip(prompt) != [] by {
      StripEmptyIffBlank(prompt);
      if IsBlank(prompt) { BlankNoTokens(prompt, 0); }
    }
    UnsupportedSteps(FindAll(prompt));
  }

  /** Only unsupported qualifiers: a non-empty map, but no lookup to make. */
  lemma UnsupportedSteps(toks: seq<Token>)
    requires toks != []
    requires forall t :: t in toks ==> Lower(t.name) !in {"path", "content", "extension"}
    ensures Qualifiers(toks) != map[] && Steps(Qualifiers(toks)) == []
  {
    var q := Qualifiers(toks);
    assert Lower(toks[0].name) in q;
    assert "path" !in q && "content" !in q && "extension" !in q;
    assert Lookup(q, "path") == Lookup(q, "content") == Lookup(q, "extension") == [];
  }

  /** A prompt without colon or surrounding whitespace is routed as a whole. */
  lemma DispatchPlain(store: Store, prompt: string)
    requires prompt != [] && !IsSpace(prompt[0]) && !IsSpace(prompt[|prompt| - 1]) && ':' !in prompt
    ensures Dispatch(store, prompt).1 == [Route(prompt)]
  {
    NoColonNoTokens(prompt, 0);
    assert !IsBlank(prompt);
    DispatchHeuristic(store, prompt);
    StripUntrimmed(prompt);
  }

  /** A text starting with a dot is an extension search for the rest, whatever follows:
      `.py foo` looks up the extension `py foo`. */
  lemma RouteDot(x: string)
    ensures Route("." + x) == ByExtension(x)
  {
    assert StartsWith("." + x, ".");
    assert ("." + x)[1..] == x;
  }

  /** Two words separated by a space, the first not starting with a dot, make a
      multi-word search. */
  lemma {:induction false} RouteTwoWords(a: string, b: string)
    requires IsWord(a) && IsWord(b) && a[0] != '.'
    ensures Route(a + " " + b) == MultiWords([a, b])
  {
    SplitTwoWords(a, b);
    assert (a + " " + b)[..1][0] == a[0];
    assert !StartsWith(a + " " + b, ".");
  }

  /** One word not starting with a dot is a content search for that word. */
  lemma {:induction false} RouteOneWord(w: string)
    requires IsWord(w) && w[0] != '.'
    ensures Route(w) == ByContent(w)
  {
    assert w[..1][0] == w[0];
    assert !StartsWith(w, ".");
    SplitWord(w);
  }
}
