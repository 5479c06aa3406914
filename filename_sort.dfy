/**
 * The final step of the index-free search: `results.sort(key=lambda x: x.get("filename", ""))`,
 * Python's stable sort, comparing file names the way Python compares strings (code point by
 * code point, a proper prefix first).  Specified by insertion into a sorted sequence, and
 * carried out in place on an array.
 */
module FilenameSort {
  import opened Worker

  /** Python's `a < b` on strings. */
  predicate StrLess(a: string, b: string)
    decreases |a|
  {
    if a == [] then b != []
    else if b == [] then false
    else if a[0] != b[0] then a[0] < b[0]
    else StrLess(a[1..], b[1..])
  }

  lemma {:induction false} StrLessIrreflexive(a: string)
    ensures !StrLess(a, a)
    decreases |a|
  {
    if a != [] {
      StrLessIrreflexive(a[1..]);
    }
  }

  lemma {:induction false} StrLessTrans(a: string, b: string, c: string)
    requires StrLess(a, b) && StrLess(b, c)
    ensures StrLess(a, c)
    decreases |a|
  {
    if a != [] && b != [] && c != [] && a[0] == b[0] && b[0] == c[0] {
      StrLessTrans(a[1..], b[1..], c[1..]);
    }
  }

  lemma {:induction false} StrLessTotal(a: string, b: string)
    ensures a == b || StrLess(a, b) || StrLess(b, a)
    decreases |a|
  {
    if a != [] && b != [] && a[0] == b[0] {
      StrLessTotal(a[1..], b[1..]);
      if a[1..] == b[1..] {
        assert a == [a[0]] + a[1..] && b == [b[0]] + b[1..];
      }
    }
  }

  /** Neither name is smaller than the other: they are equal. */
  lemma StrLessAntisym(a: string, b: string)
    requires !StrLess(a, b) && !StrLess(b, a)
    ensures a == b
  {
    StrLessTotal(a, b);
  }

  /** `a <= b` on file names. */
  predicate NameLe(x: Match, y: Match) {
    !StrLess(y.filename, x.filename)
  }

  lemma StrLessAsym(a: string, b: string)
    requires StrLess(a, b)
    ensures !StrLess(b, a)
  {
    if StrLess(b, a) {
      StrLessTrans(a, b, a);
      StrLessIrreflexive(a);
    }
  }

  lemma NameLeTrans(x: Match, y: Match, z: Match)
    requires NameLe(x, y) && NameLe(y, z)
    ensures NameLe(x, z)
  {
    if StrLess(z.filename, x.filename) {
      StrLessTotal(x.filename, y.filename);
      if StrLess(x.filename, y.filename) {
        StrLessTrans(z.filename, x.filename, y.filename);
      }
    }
  }

  /** Ascending by file name. */
  predicate SortedByName(s: seq<Match>) {
    forall i, j :: 0 <= i < j < |s| ==> NameLe(s[i], s[j])
  }

  /** Put `x` after every element of `s` whose name is not larger, the way a stable insertion
      sort does: scanning from the end, it passes only strictly larger names. */
  function Insert(s: seq<Match>, x: Match): (r: seq<Match>)
    ensures |r| == |s| + 1
  {
    if s == [] || !StrLess(x.filename, s[|s| - 1].filename) then s + [x]
    else Insert(s[..|s| - 1], x) + [s[|s| - 1]]
  }

  /** The stable sort of `s` by file name, inserting the elements one by one. */
  function SortByName(s: seq<Match>): (r: seq<Match>)
    ensures |r| == |s|
  {
    if s == [] then [] else Insert(SortByName(s[..|s| - 1]), s[|s| - 1])
  }

  lemma {:induction false} InsertPermutes(s: seq<Match>, x: Match)
    ensures multiset(Insert(s, x)) == multiset(s) + multiset{x}
    decreases |s|
  {
    if s != [] && StrLess(x.filename, s[|s| - 1].filename) {
      InsertPermutes(s[..|s| - 1], x);
      assert s == s[..|s| - 1] + [s[|s| - 1]];
    }
  }

  lemma {:induction false} InsertSorted(s: seq<Match>, x: Match)
    requires SortedByName(s)
    ensures SortedByName(Insert(s, x))
    decreases |s|
  {
    if s == [] {
    } else if !StrLess(x.filename, s[|s| - 1].filename) {
      var r := s + [x];
      forall i | 0 <= i < |s| ensures NameLe(s[i], x) {
        if i < |s| - 1 {
          NameLeTrans(s[i], s[|s| - 1], x);
        }
      }
      assert forall i, j :: 0 <= i < j < |r| ==> NameLe(r[i], r[j]);
    } else {
      var init, last := s[..|s| - 1], s[|s| - 1];
      InsertSorted(init, x);
      var t := Insert(init, x);
      InsertPermutes(init, x);
      forall i | 0 <= i < |t| ensures NameLe(t[i], last) {
        assert t[i] in multiset(t);
        if t[i] == x {
          StrLessAsym(x.filename, last.filename);
        } else {
          assert t[i] in multiset(init);
          var k :| 0 <= k < |init| && init[k] == t[i];
        }
      }
      var r := t + [last];
      assert forall i, j :: 0 <= i < j < |r| ==> NameLe(r[i], r[j]);
    }
  }

  /** The sort orders by file name. */
  lemma {:induction false} SortByNameSorted(s: seq<Match>)
    ensures SortedByName(SortByName(s))
  {
    if s != [] {
      SortByNameSorted(s[..|s| - 1]);
      InsertSorted(SortByName(s[..|s| - 1]), s[|s| - 1]);
    }
  }

  /** The sort rearranges and neither drops nor adds an element. */
  lemma {:induction false} SortByNamePermutes(s: seq<Match>)
    ensures multiset(SortByName(s)) == multiset(s)
  {
    if s != [] {
      SortByNamePermutes(s[..|s| - 1]);
      InsertPermutes(SortByName(s[..|s| - 1]), s[|s| - 1]);
      assert s == s[..|s| - 1] + [s[|s| - 1]];
    }
  }

  /** The elements named `name`, in order. */
  function WithName(s: seq<Match>, name: string): seq<Match> {
    if s == [] then []
    else WithName(s[..|s| - 1], name) + (if s[|s| - 1].filename == name then [s[|s| - 1]] else [])
  }

  lemma {:induction false} WithNameAppend(a: seq<Match>, b: seq<Match>, name: string)
    ensures WithName(a + b, name) == WithName(a, name) + WithName(b, name)
    decreases |b|
  {
    if b == [] {
      assert a + b == a;
    } else {
      assert (a + b)[..|a + b| - 1] == a + b[..|b| - 1];
      WithNameAppend(a, b[..|b| - 1], name);
    }
  }

  /** Insertion puts `x` after every element with the same name. */
  lemma {:induction false} InsertStable(s: seq<Match>, x: Match, name: string)
    ensures WithName(Insert(s, x), name) == WithName(s, name) + WithName([x], name)
    decreases |s|
  {
    if s == [] || !StrLess(x.filename, s[|s| - 1].filename) {
      WithNameAppend(s, [x], name);
    } else {
      var init, last := s[..|s| - 1], s[|s| - 1];
      InsertStable(init, x, name);
      WithNameAppend(Insert(init, x), [last], name);
      WithNameAppend(init, [last], name);
      assert s == init + [last];
      if last.filename == name {
        StrLessIrreflexive(name);
        assert x.filename != name;
      }
    }
  }

  /** The sort is stable: elements with equal names keep their relative order. */
  lemma {:induction false} SortByNameStable(s: seq<Match>, name: string)
    ensures WithName(SortByName(s), name) == WithName(s, name)
  {
    if s != [] {
      var init, last := s[..|s| - 1], s[|s| - 1];
      SortByNameStable(init, name);
      InsertStable(SortByName(init), last, name);
      WithNameAppend(init, [last], name);
      assert s == init + [last];
    }
  }

  /** One more element inserted into the sorted prefix. */
  lemma SortByNameSnoc(s: seq<Match>, i: nat)
    requires i < |s|
    ensures SortByName(s[..i + 1]) == Insert(SortByName(s[..i]), s[i])
  {
    assert s[..i + 1][..i] == s[..i];
  }

  /** Passing over one strictly larger name while looking for the insertion point. */
  lemma InsertPasses(sorted: seq<Match>, j: nat, x: Match)
    requires 0 < j <= |sorted| && StrLess(x.filename, sorted[j - 1].filename)
    ensures Insert(sorted[..j], x) + sorted[j..] == Insert(sorted[..j - 1], x) + sorted[j - 1..]
  {
    assert sorted[..j][..j - 1] == sorted[..j - 1];
    assert [sorted[j - 1]] + sorted[j..] == sorted[j - 1..];
  }

  /** The insertion point is found: `x` goes right here. */
  lemma InsertStops(sorted: seq<Match>, j: nat, x: Match)
    requires j <= |sorted| && (j == 0 || !StrLess(x.filename, sorted[j - 1].filename))
    ensures Insert(sorted[..j], x) + sorted[j..] == sorted[..j] + [x] + sorted[j..]
  {
  }

  /** One pass of insertion sort: `a[i]` moves left past the strictly larger names of the
      prefix `a[..i]`, which shift one place right. */
  method InsertInto(a: array<Match>, i: nat)
    requires i < a.Length
    modifies a
    ensures a[..i + 1] == Insert(old(a[..i]), old(a[i]))
    ensures a[i + 1..] == old(a[i + 1..])
  {
    var x := a[i];
    ghost var sorted := a[..i];
    ghost var rest := a[i + 1..];
    assert sorted[i..] == [] && sorted[..i] == sorted;
    var j := i;
    while j > 0 && StrLess(x.filename, a[j - 1].filename)
      invariant 0 <= j <= i
      invariant a[..j] == sorted[..j]
      invariant a[j + 1..i + 1] == sorted[j..]
      invariant a[i + 1..] == rest
      invariant Insert(sorted, x) == Insert(sorted[..j], x) + sorted[j..]
      decreases j
    {
      InsertPasses(sorted, j, x);
      Shifted(a[..], sorted, rest, i, j);
      a[j] := a[j - 1];
      j := j - 1;
    }
    InsertStops(sorted, j, x);
    Placed(a[..], sorted, rest, i, j, x);
    a[j] := x;
  }

  /** Shifting the name at `j - 1` one place right moves the gap to `j - 1`. */
  lemma Shifted(s: seq<Match>, sorted: seq<Match>, rest: seq<Match>, i: nat, j: nat)
    requires 0 < j <= i < |s| && |sorted| == i
    requires s[..j] == sorted[..j] && s[j + 1..i + 1] == sorted[j..] && s[i + 1..] == rest
    ensures var t := s[j := s[j - 1]];
            t[..j - 1] == sorted[..j - 1] && t[j..i + 1] == sorted[j - 1..] && t[i + 1..] == rest
  {
    var t := s[j := s[j - 1]];
    assert t[..j - 1] == s[..j][..j - 1];
    assert t[j..i + 1] == [s[j - 1]] + s[j + 1..i + 1];
    assert t[i + 1..] == s[i + 1..];
  }

  /** Dropping `x` into the gap at `j`. */
  lemma Placed(s: seq<Match>, sorted: seq<Match>, rest: seq<Match>, i: nat, j: nat, x: Match)
    requires j <= i < |s| && |sorted| == i
    requires s[..j] == sorted[..j] && s[j + 1..i + 1] == sorted[j..] && s[i + 1..] == rest
    ensures var t := s[j := x];
            t[..i + 1] == sorted[..j] + [x] + sorted[j..] && t[i + 1..] == rest
  {
    var t := s[j := x];
    assert t[..i + 1] == s[..j] + [x] + s[j + 1..i + 1];
    assert t[i + 1..] == s[i + 1..];
  }

  /** `results.sort(key=filename)`: insertion sort in place. */
  method SortResults(a: array<Match>)
    modifies a
    ensures a[..] == SortByName(old(a[..]))
  {
    ghost var input := a[..];
    for i := 0 to a.Length
      invariant a[..i] == SortByName(input[..i])
      invariant a[i..] == input[i..]
    {
      InsertInto(a, i);
      SortByNameSnoc(input, i);
    }
    assert input[..a.Length] == input;
  }
}
