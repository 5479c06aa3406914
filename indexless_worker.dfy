/**
 * The search worker of the index-free search: it walks a directory tree and reports every
 * file whose name contains the query, ignoring letter case.  The walk, file sizes and
 * modification times come from the file system, so they are given: the walk as the
 * sequence of `(root, files)` steps `os.walk` yields, sizes and times as functions of a path
 * that may fail.
 */
module Worker {
  import opened Wrappers
  import opened PyStr

  /** One step of `os.walk`: a directory and the names of the files directly in it. */
  datatype WalkStep = WalkStep(root: string, files: seq<string>)

  /** A file met during the walk. */
  datatype Walked = Walked(root: string, filename: string)

  /** One reported file. */
  datatype Match = Match(filename: string, path: string, size: int, modified: real)

  /** The files of one walk step, in listing order. */
  function StepEntries(root: string, files: seq<string>): (es: seq<Walked>)
    ensures |es| == |files|
    ensures forall j :: 0 <= j < |files| ==> es[j] == Walked(root, files[j])
  {
    if files == [] then []
    else StepEntries(root, files[..|files| - 1]) + [Walked(root, files[|files| - 1])]
  }

  /** Every file of the walk, root by root and file by file. */
  function Entries(walk: seq<WalkStep>): seq<Walked> {
    if walk == [] then []
    else
      var last := walk[|walk| - 1];
      Entries(walk[..|walk| - 1]) + StepEntries(last.root, last.files)
  }

  /** The name test: `query.lower() in filename.lower()`. */
  predicate NameHit(query: string, filename: string) {
    Contains(Lower(filename), Lower(query))
  }

  /** A size or time lookup: `os.path.getsize` / `os.path.getmtime` of a path, or None when it
      raises (a dangling link listed among the files, a file removed during the walk). */
  type SizeLookup = string -> Option<int>
  type TimeLookup = string -> Option<real>

  /** The report for a walked file, with the size and time read from its full path; None when
      either lookup raises. */
  function MatchOf(e: Walked, sizeOf: SizeLookup, modifiedAt: TimeLookup): Option<Match> {
    var full := PathJoin(e.root, e.filename);
    match sizeOf(full)
    case None => None
    case Some(size) =>
      match modifiedAt(full)
      case None => None
      case Some(modified) => Some(Match(e.filename, full, size, modified))
  }

  /** The reports so far, extended by one more walked file: a hit adds its report, and a hit
      whose lookups raise makes the whole search raise. */
  function Step(prev: Option<seq<Match>>, query: string, e: Walked, sizeOf: SizeLookup, modifiedAt: TimeLookup)
    : Option<seq<Match>>
  {
    if prev.None? || !NameHit(query, e.filename) then prev
    else
      match MatchOf(e, sizeOf, modifiedAt)
      case None => None
      case Some(m) => Some(prev.value + [m])
  }

  /** What `search_files` gives for the walked files `es`: the reports of the hits, in order, or
      None when it raises. */
  function Matches(query: string, es: seq<Walked>, sizeOf: SizeLookup, modifiedAt: TimeLookup): Option<seq<Match>> {
    if es == [] then Some([])
    else Step(Matches(query, es[..|es| - 1], sizeOf, modifiedAt), query, es[|es| - 1], sizeOf, modifiedAt)
  }

  /** Both searches succeed, and their reports one after the other; None otherwise. */
  function Concat(x: Option<seq<Match>>, y: Option<seq<Match>>): Option<seq<Match>> {
    if x.Some? && y.Some? then Some(x.value + y.value) else None
  }

  /** Reports over two stretches of the walk are the reports of the first, then of the second,
      and the search raises when either stretch does. */
  lemma {:induction false} MatchesAppend(query: string, a: seq<Walked>, b: seq<Walked>,
                                         sizeOf: SizeLookup, modifiedAt: TimeLookup)
    ensures Matches(query, a + b, sizeOf, modifiedAt) ==
            Concat(Matches(query, a, sizeOf, modifiedAt), Matches(query, b, sizeOf, modifiedAt))
    decreases |b|
  {
    if b == [] {
      assert a + b == a;
      var x := Matches(query, a, sizeOf, modifiedAt);
      if x.Some? {
        assert x.value + [] == x.value;
      }
    } else {
      assert (a + b)[..|a + b| - 1] == a + b[..|b| - 1];
      MatchesAppend(query, a, b[..|b| - 1], sizeOf, modifiedAt);
      var x, y := Matches(query, a, sizeOf, modifiedAt), Matches(query, b[..|b| - 1], sizeOf, modifiedAt);
      var last := b[|b| - 1];
      if x.Some? && y.Some? && NameHit(query, last.filename) && MatchOf(last, sizeOf, modifiedAt).Some? {
        assert x.value + y.value + [MatchOf(last, sizeOf, modifiedAt).value] ==
               x.value + (y.value + [MatchOf(last, sizeOf, modifiedAt).value]);
      }
    }
  }

  /** The search raises exactly when some hit's size or time lookup raises. */
  lemma {:induction false} MatchesFail(query: string, es: seq<Walked>, sizeOf: SizeLookup, modifiedAt: TimeLookup)
    ensures Matches(query, es, sizeOf, modifiedAt).None? <==>
            exists e :: e in es && NameHit(query, e.filename) && MatchOf(e, sizeOf, modifiedAt).None?
  {
    if es != [] {
      var init, last := es[..|es| - 1], es[|es| - 1];
      MatchesFail(query, init, sizeOf, modifiedAt);
      assert es == init + [last];
      if exists e :: e in es && NameHit(query, e.filename) && MatchOf(e, sizeOf, modifiedAt).None? {
        var e :| e in es && NameHit(query, e.filename) && MatchOf(e, sizeOf, modifiedAt).None?;
        if e != last {
          assert e in init;
        }
      }
    }
  }

  /** When the search succeeds, a file is reported exactly when its name contains the query,
      ignoring case, and the report carries the walked name, the joined path and the size and
      time read from it. */
  lemma {:induction false} MatchesMembers(query: string, es: seq<Walked>, sizeOf: SizeLookup,
                                          modifiedAt: TimeLookup, m: Match)
    requires Matches(query, es, sizeOf, modifiedAt).Some?
    ensures m in Matches(query, es, sizeOf, modifiedAt).value <==>
            exists e :: e in es && NameHit(query, e.filename) && MatchOf(e, sizeOf, modifiedAt) == Some(m)
  {
    if es != [] {
      var init := es[..|es| - 1];
      MatchesMembers(query, init, sizeOf, modifiedAt, m);
      assert es == init + [es[|es| - 1]];
    }
  }

  /** Every name contains the empty query. */
  lemma EmptyQueryHits(filename: string)
    ensures NameHit("", filename)
  {
    assert Lower("") == [];
    assert OccursAt(Lower(filename), [], 0);
  }

  /** With the empty query a successful search reports every walked file, in walk order. */
  lemma {:induction false} EmptyQueryReports(es: seq<Walked>, sizeOf: SizeLookup, modifiedAt: TimeLookup)
    requires Matches("", es, sizeOf, modifiedAt).Some?
    ensures var r := Matches("", es, sizeOf, modifiedAt).value;
            |r| == |es| && forall i :: 0 <= i < |es| ==> Some(r[i]) == MatchOf(es[i], sizeOf, modifiedAt)
  {
    if es != [] {
      var init, last := es[..|es| - 1], es[|es| - 1];
      EmptyQueryHits(last.filename);
      EmptyQueryReports(init, sizeOf, modifiedAt);
      forall i | 0 <= i < |init|
        ensures es[i] == init[i]
      {
      }
    }
  }

  /** The empty query matches every walked file: the search raises exactly when some file's
      lookups do, and otherwise gives one report per file, in walk order. */
  lemma EmptyQueryMatchesAll(es: seq<Walked>, sizeOf: SizeLookup, modifiedAt: TimeLookup)
    ensures var r := Matches("", es, sizeOf, modifiedAt);
            (r.None? <==> exists i :: 0 <= i < |es| && MatchOf(es[i], sizeOf, modifiedAt).None?) &&
            (r.Some? ==> |r.value| == |es| &&
                         forall i :: 0 <= i < |es| ==> Some(r.value[i]) == MatchOf(es[i], sizeOf, modifiedAt))
  {
    MatchesFail("", es, sizeOf, modifiedAt);
    if exists i :: 0 <= i < |es| && MatchOf(es[i], sizeOf, modifiedAt).None? {
      var i :| 0 <= i < |es| && MatchOf(es[i], sizeOf, modifiedAt).None?;
      EmptyQueryHits(es[i].filename);
    }
    if Matches("", es, sizeOf, modifiedAt).Some? {
      EmptyQueryReports(es, sizeOf, modifiedAt);
    }
  }

  /** The test ignores the case of the query. */
  lemma QueryCaseIgnored(query: string, filename: string)
    ensures NameHit(Lower(query), filename) == NameHit(query, filename)
  {
    LowerIdempotent(query);
  }

  /** One more walked file extends the search by one step. */
  lemma MatchesSnoc(query: string, prefix: seq<Walked>, e: Walked, sizeOf: SizeLookup, modifiedAt: TimeLookup)
    ensures Matches(query, prefix + [e], sizeOf, modifiedAt) == Step(Matches(query, prefix, sizeOf, modifiedAt), query, e, sizeOf, modifiedAt)
  {
    assert (prefix + [e])[..|prefix|] == prefix;
  }

  /** The walk so far, one file further. */
  lemma EntriesStep(walk: seq<WalkStep>, i: nat, j: nat)
    requires i < |walk| && j < |walk[i].files|
    ensures Entries(walk[..i]) + StepEntries(walk[i].root, walk[i].files[..j + 1]) ==
            (Entries(walk[..i]) + StepEntries(walk[i].root, walk[i].files[..j])) + [Walked(walk[i].root, walk[i].files[j])]
  {
    assert walk[i].files[..j + 1][..j] == walk[i].files[..j];
  }

  /** The walk so far, one root further. */
  lemma EntriesRoot(walk: seq<WalkStep>, i: nat)
    requires i < |walk|
    ensures Entries(walk[..i + 1]) == Entries(walk[..i]) + StepEntries(walk[i].root, walk[i].files[..|walk[i].files|])
  {
    assert walk[..i + 1][..i] == walk[..i];
    assert walk[i].files[..|walk[i].files|] == walk[i].files;
  }

  /** Every file of every walk step is among the walked files. */
  lemma {:induction false} EntriesMember(walk: seq<WalkStep>, i: nat, j: nat)
    requires i < |walk| && j < |walk[i].files|
    ensures Walked(walk[i].root, walk[i].files[j]) in Entries(walk)
  {
    var init, last := walk[..|walk| - 1], walk[|walk| - 1];
    if i < |walk| - 1 {
      assert init[i] == walk[i];
      EntriesMember(init, i, j);
    } else {
      assert StepEntries(last.root, last.files)[j] == Walked(walk[i].root, walk[i].files[j]);
    }
  }

  /** `search_files(query, search_path)` over the given walk of `search_path`: the reports, or
      None when a size or time lookup raises (the exception leaves the function). */
  method SearchFiles(query: string, walk: seq<WalkStep>, sizeOf: SizeLookup, modifiedAt: TimeLookup)
    returns (matches: Option<seq<Match>>)
    ensures matches == Matches(query, Entries(walk), sizeOf, modifiedAt)
  {
    var found: seq<Match> := [];
    for i := 0 to |walk|
      invariant Matches(query, Entries(walk[..i]), sizeOf, modifiedAt) == Some(found)
    {
      var root, files := walk[i].root, walk[i].files;
      ghost var done := Entries(walk[..i]);
      assert files[..0] == [] && done + [] == done;
      for j := 0 to |files|
        invariant Matches(query, done + StepEntries(root, files[..j]), sizeOf, modifiedAt) == Some(found)
      {
        var filename := files[j];
        var fullPath := PathJoin(root, filename);
        EntriesStep(walk, i, j);
        MatchesSnoc(query, done + StepEntries(root, files[..j]), Walked(root, filename), sizeOf, modifiedAt);
        if Contains(Lower(filename), Lower(query)) {
          var size := sizeOf(fullPath);
          var modified := if size.Some? then modifiedAt(fullPath) else None;
          if size.None? || modified.None? {
            EntriesMember(walk, i, j);
            MatchesFail(query, Entries(walk), sizeOf, modifiedAt);
            return None;
          }
          found := found + [Match(filename, fullPath, size.value, modified.value)];
        }
      }
      EntriesRoot(walk, i);
    }
    assert walk[..|walk|] == walk;
    return Some(found);
  }
}
