/**
 * The directory tree both indexers walk, as given data: what `Path.iterdir()` yields for a
 * directory (and whether it raised after that), what `stat()` and `open().read()` give for
 * a file (or that they failed), and the record handed to the database's `add_file`.
 */
module FsTree {
  import opened Wrappers

  /** `p.stat()`: size and the two timestamps, kept as seconds since the epoch. */
  datatype Stat = Stat(size: int, mtime: real, ctime: real)

  /** A regular file: its absolute path, its name, its `stat()` (None when it raises) and its
      text as `open(p, 'r', errors='ignore').read()` gives it (None when that raises). */
  datatype FileEntry = FileEntry(path: string, name: string, stat: Option<Stat>, text: Option<string>)

  /** One entry of a listing: a file, a directory, or anything else (a broken link, a
      socket), for which both `is_file()` and `is_dir()` are false. */
  datatype Entry = File(file: FileEntry) | Dir(listing: Listing) | Other(name: string)

  /** What iterating a directory gives: the entries yielded, in order, and whether the
      iteration then raised (a directory that cannot be opened yields nothing and raises). */
  datatype Listing = Listing(entries: seq<Entry>, failed: bool)

  /** The `file_data` dictionary passed to `add_file`; the optional keys are None when the
      indexer does not set them. */
  datatype FileData = FileData(
    path: string,
    filename: string,
    extension: string,
    size: int,
    modified: real,
    created: real,
    content: Option<string>,
    preview: Option<string>,
    topWords: Option<seq<string>>)

  /** What a depth-first walk meets: a file, or a fault (an entry that is neither file nor
      directory, or a listing that raised). */
  datatype Event = Visit(file: FileEntry) | Fault

  /** The events of a listing, in the order `index_path` meets them. */
  function Walk(l: Listing): seq<Event>
    decreases l
  {
    WalkEntries(l.entries) + (if l.failed then [Fault] else [])
  }

  function WalkEntries(es: seq<Entry>): seq<Event>
    decreases es
  {
    if es == [] then [] else WalkEntries(es[..|es| - 1]) + WalkEntry(es[|es| - 1])
  }

  function WalkEntry(e: Entry): seq<Event>
    decreases e
  {
    match e
    case File(f) => [Visit(f)]
    case Dir(l) => Walk(l)
    case Other(_) => [Fault]
  }

  /** `f` lies somewhere below the directory listed by `l`. */
  ghost predicate InListing(l: Listing, f: FileEntry)
    decreases l
  {
    exists i :: 0 <= i < |l.entries| && InEntry(l.entries[i], f)
  }

  ghost predicate InEntry(e: Entry, f: FileEntry)
    decreases e
  {
    match e
    case File(g) => g == f
    case Dir(l) => InListing(l, f)
    case Other(_) => false
  }

  /** The walk of consecutive entries is the walks of its parts, one after the other. */
  lemma {:induction false} WalkEntriesAppend(a: seq<Entry>, b: seq<Entry>)
    ensures WalkEntries(a + b) == WalkEntries(a) + WalkEntries(b)
    decreases |b|
  {
    if b == [] {
      assert a + b == a;
    } else {
      assert (a + b)[..|a + b| - 1] == a + b[..|b| - 1];
      WalkEntriesAppend(a, b[..|b| - 1]);
    }
  }

  /** The walk visits exactly the files of the tree. */
  lemma {:induction false} WalkVisitsTree(l: Listing, f: FileEntry)
    ensures Visit(f) in Walk(l) <==> InListing(l, f)
    decreases l, 1
  {
    WalkEntriesVisit(l.entries, f);
  }

  lemma {:induction false} WalkEntriesVisit(es: seq<Entry>, f: FileEntry)
    ensures Visit(f) in WalkEntries(es) <==> exists i :: 0 <= i < |es| && InEntry(es[i], f)
    decreases es
  {
    if es != [] {
      var init, last := es[..|es| - 1], es[|es| - 1];
      WalkEntriesVisit(init, f);
      WalkEntryVisit(last, f);
      SomeEntrySnoc(es, init, f);
    }
  }

  /** Some entry holds `f` exactly when one of the first ones does or the last one does. */
  lemma SomeEntrySnoc(es: seq<Entry>, init: seq<Entry>, f: FileEntry)
    requires es != [] && init == es[..|es| - 1]
    ensures (exists i :: 0 <= i < |es| && InEntry(es[i], f)) <==>
            (exists i :: 0 <= i < |init| && InEntry(init[i], f)) || InEntry(es[|es| - 1], f)
  {
    if exists i :: 0 <= i < |es| && InEntry(es[i], f) {
      var i :| 0 <= i < |es| && InEntry(es[i], f);
      if i < |es| - 1 {
        assert init[i] == es[i];
      }
    }
    if exists i :: 0 <= i < |init| && InEntry(init[i], f) {
      var i :| 0 <= i < |init| && InEntry(init[i], f);
      assert es[i] == init[i];
    }
  }

  lemma {:induction false} WalkEntryVisit(e: Entry, f: FileEntry)
    ensures Visit(f) in WalkEntry(e) <==> InEntry(e, f)
    decreases e
  {
    match e
    case File(g) =>
    case Dir(l) =>
      WalkVisitsTree(l, f);
    case Other(_) =>
  }

  /** The records a walk produces, given what becomes of each file: `record(f)` is None
      when processing `f` raised and nothing was added. */
  function Records(evs: seq<Event>, record: FileEntry -> Option<FileData>): seq<FileData> {
    if evs == [] then []
    else
      Records(evs[..|evs| - 1], record) +
      (match evs[|evs| - 1]
       case Visit(f) => (if record(f).Some? then [record(f).value] else [])
       case Fault => [])
  }

  lemma {:induction false} RecordsAppend(a: seq<Event>, b: seq<Event>, record: FileEntry -> Option<FileData>)
    ensures Records(a + b, record) == Records(a, record) + Records(b, record)
    decreases |b|
  {
    if b == [] {
      assert a + b == a;
    } else {
      assert (a + b)[..|a + b| - 1] == a + b[..|b| - 1];
      RecordsAppend(a, b[..|b| - 1], record);
    }
  }

  /** A record is produced exactly for a visited file whose processing succeeded. */
  lemma {:induction false} RecordsMembers(evs: seq<Event>, record: FileEntry -> Option<FileData>, d: FileData)
    ensures d in Records(evs, record) <==> exists f :: Visit(f) in evs && record(f) == Some(d)
  {
    if evs != [] {
      var init, last := evs[..|evs| - 1], evs[|evs| - 1];
      RecordsMembers(init, record, d);
      assert evs == init + [last];
      if exists f :: Visit(f) in evs && record(f) == Some(d) {
        var f :| Visit(f) in evs && record(f) == Some(d);
        if Visit(f) != last {
          assert Visit(f) in init;
        }
      }
    }
  }

  /** The events up to (not including) the first fault. */
  function BeforeFault(evs: seq<Event>): (r: seq<Event>)
    ensures Fault !in r
    ensures |r| <= |evs| && r == evs[..|r|]
    ensures |r| < |evs| ==> evs[|r|] == Fault
  {
    if evs == [] then []
    else if Fault in evs[..|evs| - 1] then BeforeFault(evs[..|evs| - 1])
    else if evs[|evs| - 1] == Fault then evs[..|evs| - 1]
    else evs
  }

  /** Without a fault nothing is cut off. */
  lemma BeforeNoFault(evs: seq<Event>)
    requires Fault !in evs
    ensures BeforeFault(evs) == evs
  {
    if evs != [] {
      assert evs[|evs| - 1] in evs;
    }
  }

  /** Events after a fault-free stretch do not change what precedes the first fault in it. */
  lemma BeforeFaultAppend(a: seq<Event>, b: seq<Event>)
    requires Fault !in a
    ensures BeforeFault(a + b) == a + BeforeFault(b)
  {
    var r, s := BeforeFault(a + b), BeforeFault(b);
    assert Fault !in a + s;
    assert r[..|a|] == a;
    if |s| < |b| {
      assert (a + b)[|a| + |s|] == Fault;
    }
    FirstFaultUnique(a + b, r, a + s);
  }

  /** Events after a fault are never reached. */
  lemma BeforeFaultFaulty(a: seq<Event>, b: seq<Event>)
    requires Fault in a
    ensures BeforeFault(a + b) == BeforeFault(a)
  {
    var r := BeforeFault(a);
    assert |r| < |a|;
    assert (a + b)[..|r|] == r && (a + b)[|r|] == Fault;
    FirstFaultUnique(a + b, BeforeFault(a + b), r);
  }

  /** Two fault-free prefixes that stop at a fault or at the end are the same prefix. */
  lemma FirstFaultUnique(evs: seq<Event>, r: seq<Event>, s: seq<Event>)
    requires Fault !in r && |r| <= |evs| && r == evs[..|r|] && (|r| < |evs| ==> evs[|r|] == Fault)
    requires Fault !in s && |s| <= |evs| && s == evs[..|s|] && (|s| < |evs| ==> evs[|s|] == Fault)
    ensures r == s
  {
  }

  /** One more entry of a listing, walked. */
  lemma WalkEntriesStep(es: seq<Entry>, i: nat, record: FileEntry -> Option<FileData>)
    requires i < |es|
    ensures Records(WalkEntries(es[..i + 1]), record) == Records(WalkEntries(es[..i]), record) + Records(WalkEntry(es[i]), record)
  {
    assert es[..i + 1][..i] == es[..i];
    RecordsAppend(WalkEntries(es[..i]), WalkEntry(es[i]), record);
  }

  /** A fault adds nothing. */
  lemma NoRecordAtFault(record: FileEntry -> Option<FileData>)
    ensures Records([Fault], record) == []
  {
    assert [Fault][..0] == [];
  }

  /** A single file adds its record, when it has one. */
  lemma OneVisit(f: FileEntry, record: FileEntry -> Option<FileData>)
    ensures Records([Visit(f)], record) == (if record(f).Some? then [record(f).value] else [])
  {
    assert [Visit(f)][..0] == [];
  }
}
