/**
 * The first indexer: the same depth-first walk, but the extension is stored as `p.suffix`
 * (dot and case kept), six kinds of file are read, the content is stored whole with its
 * preview and its five most common words, and an entry that is neither a file nor a
 * directory raises `FileNotFoundError`, which nothing catches: the walk stops there.
 * A failure while processing one file is printed and the file skipped.
 */
module LegacyIndexer {
  import opened Wrappers
  import opened PyStr
  import opened FsTree
  import opened Paragraphs
  import opened Keywords

  /** The suffixes, compared in lower case, whose files have their content read. */
  const LegacyReadableSuffixes: seq<string> := [".txt", ".md", ".py", ".html", ".css", ".js"]

  predicate LegacyReadable(name: string) {
    Lower(Suffix(name)) in LegacyReadableSuffixes
  }

  /** The record built for a file, or None when building it raises. */
  function LegacyRecord(f: FileEntry): Option<FileData> {
    match f.stat
    case None => None
    case Some(st) =>
      var base := FileData(f.path, f.name, Suffix(f.name), st.size, st.mtime, st.ctime, None, None, None);
      if !LegacyReadable(f.name) then Some(base)
      else match f.text
        case None => None
        case Some(content) =>
          Some(base.(content := Some(content), preview := Some(Preview(content)), topWords := Some(TopWords(content))))
  }

  /** What each file becomes: a record exactly when `stat()` works and, for a readable file,
      reading works too.  The extension is the suffix itself, leading dot and case kept; the
      readable kinds carry the whole content, its preview and its five most common important
      words, which are at most five distinct important words of the content. */
  lemma LegacyRecordShape(f: FileEntry)
    ensures LegacyRecord(f).Some? <==> f.stat.Some? && (LegacyReadable(f.name) ==> f.text.Some?)
    ensures LegacyRecord(f).Some? ==>
              var d := LegacyRecord(f).value;
              d.path == f.path && d.filename == f.name && d.extension == Suffix(f.name) &&
              (d.extension == [] || d.extension[0] == '.') &&
              d.size == f.stat.value.size && d.modified == f.stat.value.mtime && d.created == f.stat.value.ctime &&
              (d.content.Some? <==> LegacyReadable(f.name)) &&
              d.content.Some? == d.preview.Some? && d.content.Some? == d.topWords.Some? &&
              (d.content.Some? ==>
                 d.content == f.text && d.preview.value == Preview(d.content.value) &&
                 d.topWords == Some(TopWords(d.content.value)) &&
                 |d.topWords.value| <= 5 && Distinct(d.topWords.value) &&
                 forall u :: u in d.topWords.value ==> u in ImportantWords(d.content.value))
  {
    if f.stat.Some? && LegacyReadable(f.name) && f.text.Some? {
      var content := f.text.value;
      MostCommonShape(ImportantWords(content));
    }
  }

  /** What `index_path` adds before it returns or raises, and whether it raised. */
  function Indexed(l: Listing): (seq<FileData>, bool)
    decreases l
  {
    var (added, raised) := IndexedEntries(l.entries);
    (added, raised || l.failed)
  }

  function IndexedEntries(es: seq<Entry>): (seq<FileData>, bool)
    decreases es
  {
    if es == [] then ([], false)
    else
      var (before, raised) := IndexedEntries(es[..|es| - 1]);
      if raised then (before, true)
      else
        var (more, raisedNow) := IndexedEntry(es[|es| - 1]);
        (before + more, raisedNow)
  }

  function IndexedEntry(e: Entry): (seq<FileData>, bool)
    decreases e
  {
    match e
    case File(f) => (if LegacyRecord(f).Some? then [LegacyRecord(f).value] else [], false)
    case Dir(l) => Indexed(l)
    case Other(_) => ([], true)
  }

  class LegacyIndexer {
    /** The records passed to `add_file` so far. */
    var added: seq<FileData>

    constructor ()
      ensures added == []
    {
      added := [];
    }

    method AddFile(data: FileData)
      modifies this
      ensures added == old(added) + [data]
    {
      added := added + [data];
    }

    /** The per-file `try`: build `file_data` step by step and add it; any failure skips
        the file. */
    method IndexFile(f: FileEntry)
      modifies this
      ensures added == old(added) + (if LegacyRecord(f).Some? then [LegacyRecord(f).value] else [])
    {
      if f.stat.None? {
        return;
      }
      var st := f.stat.value;
      var data := FileData(f.path, f.name, Suffix(f.name), st.size, st.mtime, st.ctime, None, None, None);
      if Lower(Suffix(f.name)) in LegacyReadableSuffixes {
        if f.text.None? {
          return;
        }
        var content := f.text.value;
        data := data.(content := Some(content));
        data := data.(preview := Some(Preview(content)));
        data := data.(topWords := Some(TopWords(content)));
      }
      AddFile(data);
    }

    /** `index_path(path)`, given the listing of `path`; `raised` tells whether it ended by
        raising (the records added before stay added). */
    method IndexPath(l: Listing) returns (raised: bool)
      modifies this
      ensures added == old(added) + Indexed(l).0
      ensures raised == Indexed(l).1
      decreases l, 1
    {
      var es := l.entries;
      ghost var start := added;
      for i := 0 to |es|
        invariant added == start + IndexedEntries(es[..i]).0
        invariant !IndexedEntries(es[..i]).1
      {
        IndexedEntriesStep(es, i);
        raised := IndexEntry(es[i]);
        SeqAssoc(start, IndexedEntries(es[..i]).0, IndexedEntry(es[i]).0);
        if raised {
          RaisedSticks(es, i + 1);
          return;
        }
      }
      assert es[..|es|] == es;
      raised := l.failed;
    }

    /** One entry of the loop: a file is indexed, a directory recursed into, and anything
        else raises. */
    method IndexEntry(e: Entry) returns (raised: bool)
      modifies this
      ensures added == old(added) + IndexedEntry(e).0
      ensures raised == IndexedEntry(e).1
      decreases e, 0
    {
      match e
      case File(f) =>
        IndexFile(f);
        raised := false;
      case Dir(sub) =>
        raised := IndexPath(sub);
      case Other(_) =>
        raised := true;
    }
  }

  lemma SeqAssoc(a: seq<FileData>, b: seq<FileData>, c: seq<FileData>)
    ensures a + b + c == a + (b + c)
  {
  }

  lemma IndexedEntriesStep(es: seq<Entry>, i: nat)
    requires i < |es| && !IndexedEntries(es[..i]).1
    ensures IndexedEntries(es[..i + 1]) ==
            (IndexedEntries(es[..i]).0 + IndexedEntry(es[i]).0, IndexedEntry(es[i]).1)
  {
    assert es[..i + 1][..i] == es[..i];
  }

  /** Once an entry has raised, the later entries are never reached. */
  lemma {:induction false} RaisedSticks(es: seq<Entry>, k: nat)
    requires k <= |es| && IndexedEntries(es[..k]).1
    ensures IndexedEntries(es) == IndexedEntries(es[..k])
    decreases |es| - k
  {
    if k < |es| {
      assert es[..k + 1][..k] == es[..k];
      RaisedSticks(es, k + 1);
    } else {
      assert es[..k] == es;
    }
  }

  /** The walk's events up to the first fault are what is indexed, and it raises exactly
      when the tree holds a fault. */
  lemma {:induction false} IndexedIsWalkBeforeFault(l: Listing)
    ensures Indexed(l) == (Records(BeforeFault(Walk(l)), LegacyRecord), Fault in Walk(l))
    decreases l, 1
  {
    var w := WalkEntries(l.entries);
    IndexedEntriesIsWalk(l.entries);
    if l.failed {
      if Fault in w {
        BeforeFaultFaulty(w, [Fault]);
      } else {
        BeforeFaultAppend(w, [Fault]);
        assert BeforeFault([Fault]) == [];
        BeforeNoFault(w);
      }
    } else {
      assert Walk(l) == w;
    }
  }

  lemma {:induction false} IndexedEntriesIsWalk(es: seq<Entry>)
    ensures IndexedEntries(es) == (Records(BeforeFault(WalkEntries(es)), LegacyRecord), Fault in WalkEntries(es))
    decreases es
  {
    if es != [] {
      var init, last := es[..|es| - 1], es[|es| - 1];
      var a := WalkEntries(init);
      IndexedEntriesIsWalk(init);
      assert WalkEntries(es) == a + WalkEntry(last);
      if Fault in a {
        BeforeFaultFaulty(a, WalkEntry(last));
      } else {
        BeforeFaultAppend(a, WalkEntry(last));
        BeforeNoFault(a);
        IndexedEntryIsWalk(last);
        RecordsAppend(a, BeforeFault(WalkEntry(last)), LegacyRecord);
      }
    }
  }

  lemma {:induction false} IndexedEntryIsWalk(e: Entry)
    ensures IndexedEntry(e) == (Records(BeforeFault(WalkEntry(e)), LegacyRecord), Fault in WalkEntry(e))
    decreases e, 0
  {
    match e
    case File(f) =>
      BeforeNoFault([Visit(f)]);
      OneVisit(f, LegacyRecord);
    case Dir(l) =>
      IndexedIsWalkBeforeFault(l);
    case Other(_) =>
      assert BeforeFault([Fault]) == [];
      assert [Fault][..0] == [];
  }

  /** Without a fault in the tree the walk completes and every file is processed. */
  lemma IndexesAllWithoutFault(l: Listing)
    requires Fault !in Walk(l)
    ensures Indexed(l) == (Records(Walk(l), LegacyRecord), false)
  {
    IndexedIsWalkBeforeFault(l);
    BeforeNoFault(Walk(l));
  }

  /** An entry that is neither file nor directory raises, and nothing after it is indexed. */
  lemma OtherStopsWalk(before: seq<Entry>, name: string, after: seq<Entry>, failed: bool)
    ensures var r := Indexed(Listing(before + [Other(name)] + after, failed));
            r.1 && r.0 == IndexedEntries(before).0
  {
    var es := before + [Other(name)] + after;
    var k := |before| + 1;
    assert es[..k] == before + [Other(name)];
    assert es[..k][..|before|] == before;
    RaisedSticks(es, k);
  }
}
