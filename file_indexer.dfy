/**
 * The current indexer: walks a directory tree depth first and hands the database one
 * `file_data` record per regular file, with the extension normalised (no dot, lower case)
 * and, for the readable kinds of file, the content cut at 10000 characters and a
 * two-paragraph preview.  A file that fails is skipped; a directory that fails is
 * abandoned, and only that directory.
 */
module FileIndexer {
  import opened Wrappers
  import opened PyStr
  import opened FsTree
  import opened Paragraphs

  const ContentLimit: nat := 10000

  const TruncationMark: string := "... (truncated)"

  /** `p.suffix.lstrip('.').lower()` */
  function Extension(name: string): (r: string)
    ensures '.' !in r
    ensures Lower(r) == r
    ensures r == [] <==> Suffix(name) == []
    ensures Suffix(name) != [] ==> r == Lower(Suffix(name)[1..])
  {
    var suffix := Suffix(name);
    var bare := LStripChar(suffix, '.');
    assert bare == (if suffix == [] then [] else suffix[1..]) by {
      if suffix != [] {
        assert suffix[1..][0] == suffix[1] && suffix[1] in suffix[1..];
      }
    }
    LowerNoDot(bare);
    LowerIdempotent(bare);
    Lower(bare)
  }

  lemma LowerNoDot(s: string)
    requires '.' !in s
    ensures '.' !in Lower(s)
  {
    forall i | 0 <= i < |s| ensures Lower(s)[i] != '.' {
      assert s[i] in s;
    }
  }

  /** The suffixes, compared in lower case, whose files have their content read. */
  const ReadableSuffixes: seq<string> := [".txt", ".md", ".py", ".html", ".css", ".js", ".json", ".xml", ".csv"]

  predicate Readable(name: string) {
    Lower(Suffix(name)) in ReadableSuffixes
  }

  /** The stored content: longer than the limit, it is cut there and marked. */
  function Truncate(content: string): string {
    if |content| > ContentLimit then content[..ContentLimit] + TruncationMark else content
  }

  /** What is stored keeps the content's first 10000 characters, is never longer than the
      limit plus the mark, and is the content itself exactly when that fits. */
  lemma TruncateBounds(content: string)
    ensures var r := Truncate(content);
            |r| <= ContentLimit + |TruncationMark| &&
            (|content| <= ContentLimit ==> r == content) &&
            (|content| > ContentLimit ==> r[..ContentLimit] == content[..ContentLimit] && r[ContentLimit..] == TruncationMark) &&
            (|content| <= ContentLimit ==> |r| <= ContentLimit)
  {
  }

  /** Truncating what was stored changes nothing. */
  lemma TruncateIdempotent(content: string)
    ensures Truncate(Truncate(content)) == Truncate(content)
  {
    if |content| > ContentLimit {
      var r := Truncate(content);
      assert r[..ContentLimit] == content[..ContentLimit];
    }
  }

  /** The record built for a file, or None when building it raises (the failure is logged
      and the file skipped). */
  function FileRecord(f: FileEntry): Option<FileData> {
    match f.stat
    case None => None
    case Some(st) =>
      var base := FileData(f.path, f.name, Extension(f.name), st.size, st.mtime, st.ctime, None, None, None);
      if !Readable(f.name) then Some(base)
      else match f.text
        case None => None
        case Some(text) =>
          var content := Truncate(text);
          Some(base.(content := Some(content), preview := Some(Preview(content))))
  }

  /** What each file becomes: a record exactly when `stat()` works and, for a readable file,
      reading works too; the record names the file, carries its normalised extension and,
      exactly for the readable kinds, the cut content and its preview. */
  lemma FileRecordShape(f: FileEntry)
    ensures FileRecord(f).Some? <==> f.stat.Some? && (Readable(f.name) ==> f.text.Some?)
    ensures FileRecord(f).Some? ==>
              var d := FileRecord(f).value;
              d.path == f.path && d.filename == f.name && d.extension == Extension(f.name) &&
              d.size == f.stat.value.size && d.modified == f.stat.value.mtime && d.created == f.stat.value.ctime &&
              (d.content.Some? <==> Readable(f.name)) && d.content.Some? == d.preview.Some? &&
              (d.content.Some? ==> d.content.value == Truncate(f.text.value) && d.preview.value == Preview(d.content.value)) &&
              d.topWords.None?
  {
  }

  /** The records the walk of a directory adds, in order. */
  function Indexed(l: Listing): seq<FileData>
    decreases l
  {
    IndexedEntries(l.entries)
  }

  function IndexedEntries(es: seq<Entry>): seq<FileData>
    decreases es
  {
    if es == [] then [] else IndexedEntries(es[..|es| - 1]) + IndexedEntry(es[|es| - 1])
  }

  function IndexedEntry(e: Entry): seq<FileData>
    decreases e
  {
    match e
    case File(f) => if FileRecord(f).Some? then [FileRecord(f).value] else []
    case Dir(l) => Indexed(l)
    case Other(_) => []
  }

  /** The records are those of the walk's visits, one per file whose processing succeeds. */
  lemma {:induction false} IndexedIsWalkRecords(l: Listing)
    ensures Indexed(l) == Records(Walk(l), FileRecord)
    decreases l, 1
  {
    IndexedEntriesIsWalkRecords(l.entries);
    RecordsAppend(WalkEntries(l.entries), if l.failed then [Fault] else [], FileRecord);
    NoRecordAtFault(FileRecord);
  }

  lemma {:induction false} IndexedEntriesIsWalkRecords(es: seq<Entry>)
    ensures IndexedEntries(es) == Records(WalkEntries(es), FileRecord)
    decreases es
  {
    if es != [] {
      var init, last := es[..|es| - 1], es[|es| - 1];
      IndexedEntriesIsWalkRecords(init);
      RecordsAppend(WalkEntries(init), WalkEntry(last), FileRecord);
      match last
      case File(f) => OneVisit(f, FileRecord);
      case Dir(sub) =>
        assert sub < last;
        IndexedIsWalkRecords(sub);
      case Other(_) => NoRecordAtFault(FileRecord);
    }
  }

  class Indexer {
    /** The records passed to `add_file` so far (whether the database accepted them or not). */
    var added: seq<FileData>

    constructor ()
      ensures added == []
    {
      added := [];
    }

    /** `db.add_file(file_data)`; a refusal is only logged. */
    method AddFile(data: FileData)
      modifies this
      ensures added == old(added) + [data]
    {
      added := added + [data];
    }

    /** The body of the per-file `try`: build `file_data` step by step and add it. */
    method IndexFile(f: FileEntry)
      modifies this
      ensures added == old(added) + (if FileRecord(f).Some? then [FileRecord(f).value] else [])
    {
      if f.stat.None? {
        return;
      }
      var st := f.stat.value;
      var data := FileData(f.path, f.name, Extension(f.name), st.size, st.mtime, st.ctime, None, None, None);
      if Lower(Suffix(f.name)) in ReadableSuffixes {
        if f.text.None? {
          return;
        }
        var content := f.text.value;
        if |content| > ContentLimit {
          content := content[..ContentLimit] + TruncationMark;
        }
        data := data.(content := Some(content));
        data := data.(preview := Some(Preview(content)));
      }
      AddFile(data);
    }

    /** `index_path(path)`, given the listing of `path`: every file below it, depth first.
        A listing that raises part-way ends the loop; the error is logged. */
    method IndexPath(l: Listing)
      modifies this
      ensures added == old(added) + Indexed(l)
      decreases l, 1
    {
      var es := l.entries;
      ghost var start := added;
      for i := 0 to |es|
        invariant added == start + IndexedEntries(es[..i])
      {
        IndexedEntriesStep(es, i);
        IndexEntry(es[i]);
        SeqAssoc(start, IndexedEntries(es[..i]), IndexedEntry(es[i]));
      }
      assert es[..|es|] == es;
    }

    /** One entry of the loop: a file is indexed, a directory recursed into, anything else
        passed over. */
    method IndexEntry(e: Entry)
      modifies this
      ensures added == old(added) + IndexedEntry(e)
      decreases e, 0
    {
      match e
      case File(f) =>
        IndexFile(f);
      case Dir(sub) =>
        IndexPath(sub);
      case Other(_) =>
    }
  }

  /** The records added are exactly those of the files below the directory whose processing
      succeeds. */
  lemma IndexedMembers(l: Listing, d: FileData)
    ensures d in Indexed(l) <==> exists f :: InListing(l, f) && FileRecord(f) == Some(d)
  {
    IndexedIsWalkRecords(l);
    RecordsMembers(Walk(l), FileRecord, d);
    forall f ensures Visit(f) in Walk(l) <==> InListing(l, f) {
      WalkVisitsTree(l, f);
    }
  }

  /** Every record added has a normalised extension and, when it has content, content cut
      at the limit and the preview of that content. */
  lemma IndexedRecordsWellFormed(l: Listing, d: FileData)
    requires d in Indexed(l)
    ensures '.' !in d.extension && Lower(d.extension) == d.extension
    ensures d.content.Some? ==> |d.content.value| <= ContentLimit + |TruncationMark| &&
                                d.preview == Some(Preview(d.content.value))
  {
    IndexedMembers(l, d);
    var f :| InListing(l, f) && FileRecord(f) == Some(d);
    FileRecordShape(f);
    if d.content.Some? {
      TruncateBounds(f.text.value);
    }
  }

  /** A directory that fails is abandoned on its own: the entries around it are indexed as
      if it were not there, and a listing that raises keeps what it yielded before. */
  lemma FailureStaysLocal(before: seq<Entry>, bad: seq<Entry>, after: seq<Entry>, failed: bool)
    ensures Indexed(Listing(before + [Dir(Listing(bad, true))] + after, failed)) ==
            Indexed(Listing(before, false)) + Indexed(Listing(bad, false)) + Indexed(Listing(after, failed))
  {
    var d := Dir(Listing(bad, true));
    IndexedEntriesAppend(before + [d], after);
    IndexedEntriesAppend(before, [d]);
    IndexedEntriesSingle(d);
  }

  lemma SeqAssoc(a: seq<FileData>, b: seq<FileData>, c: seq<FileData>)
    ensures a + b + c == a + (b + c)
  {
  }

  lemma IndexedEntriesSingle(e: Entry)
    ensures IndexedEntries([e]) == IndexedEntry(e)
  {
    assert [e][..0] == [];
  }

  lemma IndexedEntriesStep(es: seq<Entry>, i: nat)
    requires i < |es|
    ensures IndexedEntries(es[..i + 1]) == IndexedEntries(es[..i]) + IndexedEntry(es[i])
  {
    assert es[..i + 1][..i] == es[..i];
  }

  lemma IndexedEntriesAppend(a: seq<Entry>, b: seq<Entry>)
    ensures IndexedEntries(a + b) == IndexedEntries(a) + IndexedEntries(b)
  {
    IndexedEntriesIsWalkRecords(a + b);
    IndexedEntriesIsWalkRecords(a);
    IndexedEntriesIsWalkRecords(b);
    WalkEntriesAppend(a, b);
    RecordsAppend(WalkEntries(a), WalkEntries(b), FileRecord);
  }
}
