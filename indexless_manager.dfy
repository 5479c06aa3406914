/**
 * The search manager of the index-free search.  It lists the top-level entries of the
 * requested directory, makes one unit of work per subdirectory plus one for the directory
 * itself, deals the units round-robin to three workers, asks each worker about each of its
 * units in turn, and returns every answer it got, sorted by file name.
 *
 * The directory listing is given as a `Result`: `Failure` carries the text of the exception
 * `os.listdir` raised.  The workers' HTTP answers are given as a function of the request:
 * `None` when the request raised or came back with a status other than 200, `Some(results)`
 * otherwise (an answer without a "results" field is `Some([])`).
 */
module Manager {
  import opened Wrappers
  import opened PyStr
  import opened Worker
  import opened FilenameSort

  /** The workers' base URLs, one per worker port 5002, 5003 and 5004. */
  const Workers: seq<string> := ["http://localhost:5002", "http://localhost:5003", "http://localhost:5004"]

  /** `len(WORKERS)`. */
  const WorkerCount: nat := 3

  /** No URL is listed twice. */
  ghost predicate Distinct(ws: seq<string>) {
    forall i, j :: 0 <= i < j < |ws| ==> ws[i] != ws[j]
  }

  lemma WorkersDistinct()
    ensures |Workers| == WorkerCount && Distinct(Workers)
  {
    assert Workers[0][20] == '2' && Workers[1][20] == '3' && Workers[2][20] == '4';
  }

  /** One entry of a directory listing. */
  datatype DirEntry = DirEntry(name: string, isDir: bool)

  /** One request to a worker: its base URL and the `q` and `path` parameters. */
  datatype Request = Request(worker: string, query: string, path: string)

  /** What `/api/search` answers: the results, or a 400 with an error message. */
  datatype ApiResponse = Found(results: seq<Match>) | BadRequest(error: string)

  /** The subdirectories of `path`, joined to it, in listing order. */
  function Subdirs(path: string, listing: seq<DirEntry>): seq<string> {
    if listing == [] then []
    else
      var last := listing[|listing| - 1];
      Subdirs(path, listing[..|listing| - 1]) + (if last.isDir then [PathJoin(path, last.name)] else [])
  }

  lemma {:induction false} SubdirsMembers(path: string, listing: seq<DirEntry>, u: string)
    ensures u in Subdirs(path, listing) <==> exists e :: e in listing && e.isDir && u == PathJoin(path, e.name)
  {
    if listing != [] {
      var init := listing[..|listing| - 1];
      SubdirsMembers(path, init, u);
      assert listing == init + [listing[|listing| - 1]];
    }
  }

  /** The units of work: every subdirectory, then the directory itself for its own files. */
  function WorkUnits(path: string, listing: seq<DirEntry>): seq<string> {
    Subdirs(path, listing) + [path]
  }

  /** The units are the joined subdirectories and, last, the directory itself. */
  lemma WorkUnitsShape(path: string, listing: seq<DirEntry>, u: string)
    ensures var units := WorkUnits(path, listing);
            units[|units| - 1] == path &&
            (u in units[..|units| - 1] <==> exists e :: e in listing && e.isDir && u == PathJoin(path, e.name))
  {
    var units := WorkUnits(path, listing);
    assert units[..|units| - 1] == Subdirs(path, listing);
    SubdirsMembers(path, listing, u);
  }

  /** How many workers get work: one per unit, at most all of them. */
  function Assigned(n: nat): nat {
    if n < WorkerCount then n else WorkerCount
  }

  /** The units dealt to worker number `w`: those at positions `i` with `i % 3 == w`. */
  function Stride(units: seq<string>, w: nat): seq<string> {
    if units == [] then []
    else
      var i := |units| - 1;
      Stride(units[..i], w) + (if i % WorkerCount == w then [units[i]] else [])
  }

  /** Worker `w` gets units `w`, `w + 3`, `w + 6`, ... and nothing else. */
  lemma {:induction false} StrideIndex(units: seq<string>, w: nat)
    requires w < WorkerCount
    ensures |Stride(units, w)| == (|units| + 2 - w) / 3
    ensures forall k :: 0 <= k < |Stride(units, w)| ==> Stride(units, w)[k] == units[3 * k + w]
  {
    if units != [] {
      var i := |units| - 1;
      var init := units[..i];
      var s, t := Stride(init, w), Stride(units, w);
      StrideIndex(init, w);
      ThirdStep(i, w);
      assert t == s + (if i % WorkerCount == w then [units[i]] else []);
      assert |init| == i && |units| + 2 - w == i + 3 - w;
      forall k | 0 <= k < |t| ensures t[k] == units[3 * k + w] {
        if k < |s| {
          assert t[k] == s[k] == init[3 * k + w];
        } else {
          assert t[k] == units[i];
        }
      }
    }
  }

  /** Counting the positions `w`, `w + 3`, ... below `i + 1` from those below `i`. */
  lemma ThirdStep(i: nat, w: nat)
    requires w < 3
    ensures (i + 3 - w) / 3 == (i + 2 - w) / 3 + (if i % 3 == w then 1 else 0)
    ensures i % 3 == w ==> i == 3 * ((i + 2 - w) / 3) + w
  {
    var q, r := i / 3, i % 3;
    assert i == 3 * q + r;
    if r == w {
      assert i + 2 - w == 3 * q + 2;
      assert i + 3 - w == 3 * (q + 1);
    } else if r < w {
      assert 3 * q <= i + 2 - w < i + 3 - w < 3 * q + 3;
    } else {
      assert 3 * q + 3 <= i + 2 - w < i + 3 - w < 3 * q + 6;
    }
  }

  /** A worker numbered past the units so far has been dealt nothing. */
  lemma {:induction false} StrideEmpty(units: seq<string>, w: nat)
    requires |units| <= w
    ensures Stride(units, w) == []
  {
    if units != [] {
      StrideEmpty(units[..|units| - 1], w);
    }
  }

  /** All the workers' shares together. */
  function Dealt(units: seq<string>): multiset<string> {
    multiset(Stride(units, 0)) + multiset(Stride(units, 1)) + multiset(Stride(units, 2))
  }

  /** Every unit is dealt to exactly one worker. */
  lemma {:induction false} StridePartition(units: seq<string>)
    ensures Dealt(units) == multiset(units)
  {
    if units != [] {
      var init, x := units[..|units| - 1], units[|units| - 1];
      calc {
        Dealt(units);
        { StrideDeal(units); }
        Dealt(init) + multiset{x};
        { StridePartition(init); }
        multiset(init) + multiset{x};
        { assert units == init + [x]; }
        multiset(units);
      }
    }
  }

  /** The last unit joins exactly one worker's share. */
  lemma StrideDeal(units: seq<string>)
    requires units != []
    ensures Dealt(units) == Dealt(units[..|units| - 1]) + multiset{units[|units| - 1]}
  {
    var i := |units| - 1;
    var init, x := units[..i], units[i];
    assert units[..i + 1] == units;
    StrideSnoc(units, i, 0);
    StrideSnoc(units, i, 1);
    StrideSnoc(units, i, 2);
    JoinOne(Stride(init, 0), Stride(init, 1), Stride(init, 2), x, i % WorkerCount);
  }

  /** Adding `x` to one of three shares adds it to their sum. */
  lemma JoinOne(s0: seq<string>, s1: seq<string>, s2: seq<string>, x: string, w: nat)
    requires w < 3
    ensures multiset(s0 + (if w == 0 then [x] else [])) + multiset(s1 + (if w == 1 then [x] else [])) +
            multiset(s2 + (if w == 2 then [x] else [])) ==
            multiset(s0) + multiset(s1) + multiset(s2) + multiset{x}
  {
    assert s0 + [] == s0 && s1 + [] == s1 && s2 + [] == s2;
  }

  lemma StrideSnoc(units: seq<string>, i: nat, w: nat)
    requires i < |units|
    ensures Stride(units[..i + 1], w) == Stride(units[..i], w) + (if i % WorkerCount == w then [units[i]] else [])
  {
    assert units[..i + 1][..i] == units[..i];
  }

  /** The `worker_dirs` loop: `order` lists the workers in the order they were first given a
      unit (the dictionary's insertion order), `dirs` maps each to its units. */
  method Distribute(units: seq<string>) returns (order: seq<string>, dirs: map<string, seq<string>>)
    ensures order == Workers[..Assigned(|units|)]
    ensures forall w :: w in dirs <==> w in order
    ensures forall k :: 0 <= k < |order| ==> dirs[order[k]] == Stride(units, k)
  {
    order, dirs := [], map[];
    for i := 0 to |units|
      invariant order == Workers[..Assigned(i)]
      invariant forall w :: w in dirs <==> w in order
      invariant forall k :: 0 <= k < |order| ==> dirs[order[k]] == Stride(units[..i], k)
    {
      var worker := Workers[i % |Workers|];
      ghost var before, known := dirs, order;
      if worker !in dirs {
        dirs := dirs[worker := []];
        order := order + [worker];
      }
      dirs := dirs[worker := dirs[worker] + [units[i]]];
      WorkersDistinct();
      DealOrder(Workers, i, known, before, order);
      DealStrides(Workers, units, i, known, before, order, dirs);
    }
    assert units[..|units|] == units;
  }

  /** A worker enters the dictionary the first time it is dealt a unit, which happens for the
      first three units only. */
  lemma DealOrder(ws: seq<string>, i: nat, known: seq<string>, before: map<string, seq<string>>, order: seq<string>)
    requires |ws| == WorkerCount && Distinct(ws)
    requires known == ws[..Assigned(i)]
    requires forall w :: w in before <==> w in known
    requires var worker := ws[i % WorkerCount];
             order == if worker in before then known else known + [worker]
    ensures order == ws[..Assigned(i + 1)]
    ensures forall w :: w in before[ws[i % WorkerCount] := []] <==> w in order
  {
    var worker := ws[i % WorkerCount];
    if i < WorkerCount {
      assert worker == ws[i] && worker !in ws[..i];
      assert ws[..i + 1] == ws[..i] + [ws[i]];
    } else {
      assert known == ws;
    }
  }

  /** Each worker's units after the deal are its stride over one more unit. */
  lemma DealStrides(ws: seq<string>, units: seq<string>, i: nat, known: seq<string>, before: map<string, seq<string>>,
                    order: seq<string>, dirs: map<string, seq<string>>)
    requires |ws| == WorkerCount && Distinct(ws)
    requires i < |units|
    requires known == ws[..Assigned(i)] && order == ws[..Assigned(i + 1)]
    requires forall w :: w in before <==> w in known
    requires forall k :: 0 <= k < |known| ==> before[known[k]] == Stride(units[..i], k)
    requires var worker := ws[i % WorkerCount];
             dirs == before[worker := (if worker in before then before[worker] else []) + [units[i]]]
    ensures forall k :: 0 <= k < |order| ==> order[k] in dirs && dirs[order[k]] == Stride(units[..i + 1], k)
  {
    assert ws[i % WorkerCount] in before <==> ws[i % WorkerCount] in known;
    WorkerKnown(ws, i, known);
    forall k | 0 <= k < |order|
      ensures order[k] in dirs && dirs[order[k]] == Stride(units[..i + 1], k)
    {
      if k < |known| {
        assert known[k] == ws[k];
      }
      DealStride(ws, units, i, k, before, dirs);
    }
  }

  /** The worker due unit `i` already has units exactly from the fourth unit on. */
  lemma WorkerKnown(ws: seq<string>, i: nat, known: seq<string>)
    requires |ws| == WorkerCount && Distinct(ws)
    requires known == ws[..Assigned(i)]
    ensures ws[i % WorkerCount] in known <==> WorkerCount <= i
  {
    if WorkerCount <= i {
      assert known == ws;
    }
  }

  /** Worker `k`'s units after the deal of unit `i`. */
  lemma DealStride(ws: seq<string>, units: seq<string>, i: nat, k: nat,
                   before: map<string, seq<string>>, dirs: map<string, seq<string>>)
    requires |ws| == WorkerCount && Distinct(ws)
    requires i < |units| && k < Assigned(i + 1)
    requires k < Assigned(i) ==> ws[k] in before && before[ws[k]] == Stride(units[..i], k)
    requires ws[i % WorkerCount] in before <==> WorkerCount <= i
    requires var worker := ws[i % WorkerCount];
             dirs == before[worker := (if worker in before then before[worker] else []) + [units[i]]]
    ensures ws[k] in dirs && dirs[ws[k]] == Stride(units[..i + 1], k)
  {
    var w := i % WorkerCount;
    StrideSnoc(units, i, k);
    if k != w {
      assert ws[k] != ws[w];
    } else if i < WorkerCount {
      StrideEmpty(units[..i], k);
    }
  }

  /** The requests for one worker, one per unit, in order. */
  function WorkerRequests(worker: string, query: string, ds: seq<string>): seq<Request> {
    seq(|ds|, j requires 0 <= j < |ds| => Request(worker, query, ds[j]))
  }

  /** Asking about one more unit adds one request at the end. */
  lemma WorkerRequestsSnoc(worker: string, query: string, ds: seq<string>, q: nat)
    requires q < |ds|
    ensures WorkerRequests(worker, query, ds[..q + 1]) == WorkerRequests(worker, query, ds[..q]) + [Request(worker, query, ds[q])]
  {
    var rs, ts := WorkerRequests(worker, query, ds[..q + 1]), WorkerRequests(worker, query, ds[..q]) + [Request(worker, query, ds[q])];
    assert |rs| == |ts|;
    forall j | 0 <= j < |rs| ensures rs[j] == ts[j] {
      if j < q {
        assert ts[j] == WorkerRequests(worker, query, ds[..q])[j];
      }
    }
  }

  /** The requests of the fan-out loop: worker by worker, unit by unit. */
  function Requests(query: string, order: seq<string>, dirs: map<string, seq<string>>): seq<Request>
    requires forall w :: w in order ==> w in dirs
  {
    if order == [] then []
    else
      var last := order[|order| - 1];
      Requests(query, order[..|order| - 1], dirs) + WorkerRequests(last, query, dirs[last])
  }

  /** The requests to the first `n` of the workers `ws`, in order, each for its stride. */
  function Planned(ws: seq<string>, query: string, units: seq<string>, n: nat): seq<Request>
    requires n <= |ws|
  {
    if n == 0 then [] else Planned(ws, query, units, n - 1) + WorkerRequests(ws[n - 1], query, Stride(units, n - 1))
  }

  /** The requests the manager sends for `units`. */
  function PlannedRequests(query: string, units: seq<string>): seq<Request> {
    Planned(Workers, query, units, Assigned(|units|))
  }

  /** The distribution's requests are the planned ones. */
  lemma {:induction false} DistributedRequests(ws: seq<string>, query: string, units: seq<string>, order: seq<string>,
                                               dirs: map<string, seq<string>>, n: nat)
    requires n <= |order| <= |ws| && order == ws[..|order|]
    requires forall w :: w in order ==> w in dirs
    requires forall k :: 0 <= k < |order| ==> dirs[order[k]] == Stride(units, k)
    ensures Requests(query, order[..n], dirs) == Planned(ws, query, units, n)
  {
    if n > 0 {
      DistributedRequests(ws, query, units, order, dirs, n - 1);
      assert order[..n][..n - 1] == order[..n - 1];
    }
  }

  /** The requests for what `Distribute` builds are the planned ones. */
  lemma DistributionIsPlan(query: string, units: seq<string>, order: seq<string>, dirs: map<string, seq<string>>)
    requires order == Workers[..Assigned(|units|)]
    requires forall w :: w in dirs <==> w in order
    requires forall k :: 0 <= k < |order| ==> dirs[order[k]] == Stride(units, k)
    ensures Requests(query, order, dirs) == PlannedRequests(query, units)
  {
    WorkersDistinct();
    assert |order| == Assigned(|units|);
    DistributedRequests(Workers, query, units, order, dirs, |order|);
    assert order[..|order|] == order;
  }

  /** Everything the workers answered, request by request; failed requests add nothing. */
  function Merged(reqs: seq<Request>, respond: Request -> Option<seq<Match>>): seq<Match> {
    if reqs == [] then []
    else
      var last := reqs[|reqs| - 1];
      Merged(reqs[..|reqs| - 1], respond) + respond(last).GetOr([])
  }

  /** A result is in the merge exactly when some request's successful answer holds it. */
  lemma {:induction false} MergedMembers(reqs: seq<Request>, respond: Request -> Option<seq<Match>>, m: Match)
    ensures m in Merged(reqs, respond) <==> exists r :: r in reqs && respond(r).Some? && m in respond(r).value
  {
    if reqs != [] {
      var init := reqs[..|reqs| - 1];
      MergedMembers(init, respond, m);
      assert reqs == init + [reqs[|reqs| - 1]];
    }
  }

  lemma MergedSnoc(reqs: seq<Request>, r: Request, respond: Request -> Option<seq<Match>>)
    ensures Merged(reqs + [r], respond) == Merged(reqs, respond) + respond(r).GetOr([])
  {
    assert (reqs + [r])[..|reqs|] == reqs;
  }

  lemma RequestsStep(query: string, order: seq<string>, dirs: map<string, seq<string>>, p: nat, q: nat)
    requires p < |order| && forall w :: w in order ==> w in dirs
    requires q < |dirs[order[p]]|
    ensures Requests(query, order[..p], dirs) + WorkerRequests(order[p], query, dirs[order[p]][..q + 1]) ==
            (Requests(query, order[..p], dirs) + WorkerRequests(order[p], query, dirs[order[p]][..q])) +
            [Request(order[p], query, dirs[order[p]][q])]
  {
    WorkerRequestsSnoc(order[p], query, dirs[order[p]], q);
  }

  lemma RequestsWorker(query: string, order: seq<string>, dirs: map<string, seq<string>>, p: nat)
    requires p < |order| && forall w :: w in order ==> w in dirs
    ensures Requests(query, order[..p + 1], dirs) ==
            Requests(query, order[..p], dirs) + WorkerRequests(order[p], query, dirs[order[p]][..|dirs[order[p]]|])
  {
    assert order[..p + 1][..p] == order[..p];
    assert dirs[order[p]][..|dirs[order[p]]|] == dirs[order[p]];
  }

  /** The fan-out loop: every worker, every unit, one request each; `sent` is the request log. */
  method FanOut(query: string, order: seq<string>, dirs: map<string, seq<string>>,
                respond: Request -> Option<seq<Match>>)
    returns (results: seq<Match>, sent: seq<Request>)
    requires forall w :: w in order ==> w in dirs
    ensures sent == Requests(query, order, dirs)
    ensures results == Merged(sent, respond)
  {
    results, sent := [], [];
    for p := 0 to |order|
      invariant sent == Requests(query, order[..p], dirs)
      invariant results == Merged(sent, respond)
    {
      var worker := order[p];
      var ds := dirs[worker];
      ghost var done := sent;
      assert ds[..0] == [] && done + [] == done;
      for q := 0 to |ds|
        invariant sent == done + WorkerRequests(worker, query, ds[..q])
        invariant results == Merged(sent, respond)
      {
        var req := Request(worker, query, ds[q]);
        RequestsStep(query, order, dirs, p, q);
        MergedSnoc(sent, req, respond);
        sent := sent + [req];
        var response := respond(req);
        if response.Some? {
          results := results + response.value;
        }
      }
      RequestsWorker(query, order, dirs, p);
    }
    assert order[..|order|] == order;
  }

  /** Every planned request carries the query, and the unit at position `i` is asked of
      worker `i % 3`. */
  lemma PlannedCoversUnits(query: string, units: seq<string>, i: nat)
    requires i < |units|
    ensures Request(Workers[i % 3], query, units[i]) in PlannedRequests(query, units)
  {
    var w := i % 3;
    StrideIndex(units, w);
    assert Stride(units, w)[i / 3] == units[i];
    WorkersDistinct();
    RequestForUnit(Workers[w], query, Stride(units, w), i / 3);
    PlannedContains(Workers, query, units, Assigned(|units|), w, Request(Workers[w], query, units[i]));
  }

  lemma {:induction false} PlannedContains(ws: seq<string>, query: string, units: seq<string>, n: nat, w: nat, r: Request)
    requires w < n <= |ws| && r in WorkerRequests(ws[w], query, Stride(units, w))
    ensures r in Planned(ws, query, units, n)
  {
    if w < n - 1 {
      PlannedContains(ws, query, units, n - 1, w, r);
    }
  }

  /** The `k`-th unit of a worker is asked of it. */
  lemma RequestForUnit(worker: string, query: string, ds: seq<string>, k: nat)
    requires k < |ds|
    ensures Request(worker, query, ds[k]) in WorkerRequests(worker, query, ds)
  {
    assert WorkerRequests(worker, query, ds)[k] == Request(worker, query, ds[k]);
  }

  /** Every planned request is for the query and for one of the units. */
  lemma {:induction false} PlannedOnlyUnits(ws: seq<string>, query: string, units: seq<string>, n: nat, r: Request)
    requires n <= |ws| && n <= WorkerCount
    requires r in Planned(ws, query, units, n)
    ensures r.query == query && r.path in units
  {
    if n > 0 {
      if r in Planned(ws, query, units, n - 1) {
        PlannedOnlyUnits(ws, query, units, n - 1, r);
      } else {
        var rs := WorkerRequests(ws[n - 1], query, Stride(units, n - 1));
        var j :| 0 <= j < |rs| && rs[j] == r;
        StrideIndex(units, n - 1);
      }
    }
  }

  /** `api_search()` for `q = query` and `path = path`, with `listing` the outcome of listing
      `path`: the error, or the sorted merge of all answers to the planned requests. */
  method ApiSearch(query: string, path: string, listing: Result<seq<DirEntry>>,
                   respond: Request -> Option<seq<Match>>)
    returns (response: ApiResponse, sent: seq<Request>)
    ensures listing.Failure? ==> response == BadRequest("Error reading directory: " + listing.error) && sent == []
    ensures listing.Success? ==> sent == PlannedRequests(query, WorkUnits(path, listing.value)) &&
                                 response == Found(SortByName(Merged(sent, respond)))
  {
    if listing.Failure? {
      return BadRequest("Error reading directory: " + listing.error), [];
    }
    var units := Subdirs(path, listing.value) + [path];
    var order, dirs := Distribute(units);
    var results;
    results, sent := FanOut(query, order, dirs, respond);
    DistributionIsPlan(query, units, order, dirs);
    results := SortCopy(results);
    response := Found(results);
  }

  /** `all_results.sort(key=lambda x: x['filename'])`: the list is copied into an array and
      sorted there. */
  method SortCopy(results: seq<Match>) returns (sorted: seq<Match>)
    ensures sorted == SortByName(results)
  {
    var a := new Match[|results|](i requires 0 <= i < |results| => results[i]);
    assert a[..] == results;
    SortResults(a);
    sorted := a[..];
  }

  /** What the manager returns is exactly the workers' successful answers to the planned
      requests: nothing is lost or duplicated, and the order is by file name. */
  lemma ApiResultsAreAnswers(query: string, units: seq<string>, respond: Request -> Option<seq<Match>>, m: Match)
    ensures var out := SortByName(Merged(PlannedRequests(query, units), respond));
            SortedByName(out) &&
            multiset(out) == multiset(Merged(PlannedRequests(query, units), respond)) &&
            (m in out <==> exists r :: r in PlannedRequests(query, units) && respond(r).Some? && m in respond(r).value)
  {
    var merged := Merged(PlannedRequests(query, units), respond);
    SortByNameSorted(merged);
    SortByNamePermutes(merged);
    MergedMembers(PlannedRequests(query, units), respond, m);
    assert m in SortByName(merged) <==> m in multiset(SortByName(merged));
  }
}
