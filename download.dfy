/**
 * Acquisition, part two: the resumable download of one file into the local
 * directory, the directory rescan, the budget loop, and the whole run of
 * `main` from listing to the last download.
 */
module Download {
  import opened Wrappers
  import opened Seqs
  import opened Text
  import opened Listing

  /** `int(TARGET_GB * (1024**3))` with `TARGET_GB = 16.0`: the product is exact. */
  const TargetBytes: int := 16 * 1024 * 1024 * 1024

  /** A streaming GET; `rangeStart == Some(e)` sends the header `Range: bytes=e-`. */
  datatype FetchRequest = FetchRequest(url: string, rangeStart: Option<nat>)

  /** The status and the body as the sequence of chunks `iter_content` yields. */
  datatype FetchResponse = FetchResponse(status: int, chunks: seq<Bytes>)

  /** `os.path.getsize` of the file if it exists, else 0. */
  function ExistingSize(files: map<string, Bytes>, name: string): nat
  {
    if name in files then |files[name]| else 0
  }

  /** File `n` is the same (present with the same bytes, or absent) in both directories. */
  predicate Unchanged(a: map<string, Bytes>, b: map<string, Bytes>, n: string)
  {
    (n in a <==> n in b) && (n in a ==> a[n] == b[n])
  }

  /** The local output directory: each file name with its contents. */
  class LocalDir {
    var files: map<string, Bytes>

    constructor (initial: map<string, Bytes>)
      ensures files == initial
    {
      files := initial;
    }

    function Size(name: string): nat
      reads this
    {
      ExistingSize(files, name)
    }

    /** `open(name, "ab")` keeps (or creates empty) the file; `open(name, "wb")` truncates it. */
    method Open(name: string, append: bool)
      modifies this
      ensures files == old(files)[name := if append && name in old(files) then old(files)[name] else []]
    {
      files := files[name := if append && name in files then files[name] else []];
    }

    /** `f.write(chunk)` on a file opened for writing. */
    method Write(name: string, chunk: Bytes)
      requires name in files
      modifies this
      ensures files == old(files)[name := old(files)[name] + chunk]
    {
      files := files[name := files[name] + chunk];
    }
  }

  // ---------------------------------------------------------------------------
  // download_file

  /** The request `download_file` sends: a range from the existing size, only when that is positive. */
  function ResumeRequest(url: string, files: map<string, Bytes>, name: string): (r: FetchRequest)
    ensures r.url == url
    ensures r.rangeStart.Some? <==> name in files && |files[name]| > 0
    ensures r.rangeStart.Some? ==> r.rangeStart.value == |files[name]|
  {
    var e := ExistingSize(files, name);
    FetchRequest(url, if e > 0 then Some(e) else None)
  }

  /** `existing` once the status is known: a 200 to a range request means a full restart. */
  function ResumeOffset(existing: nat, status: int): nat
  {
    if status == 200 && existing > 0 then 0 else existing
  }

  /** The bytes `download_file` writes: the non-empty chunks, in order. */
  function Streamed(chunks: seq<Bytes>): Bytes
  {
    Concat(Filter(IsNonEmpty, chunks))
  }

  /**
   * The directory after `download_file(url, name)` answered with `resp`, or the
   * status that made `raise_for_status` raise (before the file is opened).
   */
  function AfterFetch(files: map<string, Bytes>, name: string, resp: FetchResponse): (r: Result<map<string, Bytes>, int>)
    ensures r.Failure? <==> IsHttpError(resp.status)
    ensures r.Failure? ==> r.error == resp.status
    ensures r.Success? ==>
              var e := ResumeOffset(ExistingSize(files, name), resp.status);
              && name in r.value
              && (forall n :: n != name ==> Unchanged(files, r.value, n))
              && |r.value[name]| == e + |Streamed(resp.chunks)|
              && r.value[name][e..] == Streamed(resp.chunks)
              && (e > 0 ==> name in files && r.value[name][..e] == files[name])
  {
    if IsHttpError(resp.status) then Failure(resp.status)
    else
      var e := ResumeOffset(ExistingSize(files, name), resp.status);
      var kept := if e > 0 then files[name] else [];
      Success(files[name := kept + Streamed(resp.chunks)])
  }

  lemma StreamedStep(chunks: seq<Bytes>, i: nat)
    requires i < |chunks|
    ensures Streamed(chunks[..i + 1]) == Streamed(chunks[..i]) + if |chunks[i]| > 0 then chunks[i] else []
  {
    assert chunks[..i + 1] == chunks[..i] + [chunks[i]];
    FilterAppend(IsNonEmpty, chunks[..i], [chunks[i]]);
    ConcatAppend(Filter(IsNonEmpty, chunks[..i]), Filter(IsNonEmpty, [chunks[i]]));
    assert Filter(IsNonEmpty, [chunks[i]]) == if |chunks[i]| > 0 then [chunks[i]] else [];
  }

  /** The loop `for chunk in r.iter_content(...): if chunk: f.write(chunk)`. */
  method WriteChunks(dir: LocalDir, name: string, chunks: seq<Bytes>) returns (count: nat)
    requires name in dir.files
    modifies dir
    ensures dir.files == old(dir.files)[name := old(dir.files)[name] + Streamed(chunks)]
    ensures count == |Streamed(chunks)|
  {
    count := 0;
    ghost var kept := dir.files[name];
    assert chunks[..0] == [];
    assert Streamed([]) == [];
    assert kept + Streamed(chunks[..0]) == kept;
    assert old(dir.files)[name := kept] == old(dir.files);
    for i := 0 to |chunks|
      invariant dir.files == old(dir.files)[name := kept + Streamed(chunks[..i])]
      invariant count == |Streamed(chunks[..i])|
    {
      StreamedStep(chunks, i);
      if |chunks[i]| == 0 {
        assert Streamed(chunks[..i + 1]) == Streamed(chunks[..i]);
        continue;
      }
      assert kept + Streamed(chunks[..i + 1]) == (kept + Streamed(chunks[..i])) + chunks[i];
      dir.Write(name, chunks[i]);
      count := count + |chunks[i]|;
    }
    assert chunks[..|chunks|] == chunks;
  }

  /** `download_file(url, out_path)`: the resume/overwrite decision and the chunk loop. */
  method DownloadFile(dir: LocalDir, url: string, name: string, server: FetchRequest -> FetchResponse)
    returns (request: FetchRequest, result: Result<nat, int>)
    modifies dir
    ensures request == ResumeRequest(url, old(dir.files), name)
    ensures result.Failure? <==> IsHttpError(server(request).status)
    ensures result.Failure? ==> result.error == server(request).status && dir.files == old(dir.files)
    ensures result.Success? ==>
              && AfterFetch(old(dir.files), name, server(request)) == Success(dir.files)
              && name in dir.files
              && result.value == |dir.files[name]|
              && result.value == ResumeOffset(ExistingSize(old(dir.files), name), server(request).status)
                                 + |Streamed(server(request).chunks)|
  {
    var existing := dir.Size(name);
    request := FetchRequest(url, if existing > 0 then Some(existing) else None);
    var r := server(request);
    if r.status == 200 && existing > 0 {
      existing := 0;
    }
    if IsHttpError(r.status) {
      result := Failure(r.status);
      return;
    }
    var append := existing > 0;
    ghost var kept := if append then old(dir.files)[name] else [];
    dir.Open(name, append);
    assert dir.files == old(dir.files)[name := kept];
    var count := WriteChunks(dir, name, r.chunks);
    assert dir.files == old(dir.files)[name := kept + Streamed(r.chunks)];
    assert existing == ResumeOffset(ExistingSize(old(dir.files), name), r.status);
    result := Success(existing + count);
  }

  /** The count `download_file` returns is the size of the file it leaves. */
  lemma FetchCountIsFileSize(files: map<string, Bytes>, name: string, resp: FetchResponse)
    requires AfterFetch(files, name, resp).Success?
    ensures var after := AfterFetch(files, name, resp).value;
            && name in after
            && |after[name]| == ResumeOffset(ExistingSize(files, name), resp.status) + |Streamed(resp.chunks)|
  {
  }

  /**
   * A successful fetch appends the body to a non-empty local copy unless the
   * status is 200, and otherwise replaces the file with the body; no other
   * file changes.
   */
  lemma AppendOrOverwrite(files: map<string, Bytes>, name: string, resp: FetchResponse)
    requires !IsHttpError(resp.status)
    ensures AfterFetch(files, name, resp).Success?
    ensures var after := AfterFetch(files, name, resp).value;
            && name in after
            && (if name in files && |files[name]| > 0 && resp.status != 200
                then after[name] == files[name] + Concat(resp.chunks)
                else after[name] == Concat(resp.chunks))
            && forall n :: n != name ==> Unchanged(files, after, n)
  {
    EmptyChunksIgnored(resp.chunks);
    var body := Concat(resp.chunks);
    var e := ResumeOffset(ExistingSize(files, name), resp.status);
    var kept: Bytes := if e > 0 then files[name] else [];
    var after := files[name := kept + body];
    assert AfterFetch(files, name, resp) == Success(after);
    assert forall n :: n != name ==> Unchanged(files, after, n);
    if name in files && |files[name]| > 0 && resp.status != 200 {
      assert e > 0;
    } else {
      assert e == 0;
      assert kept + body == body;
    }
  }

  /** Empty chunks change neither the content nor the count. */
  lemma EmptyChunksIgnored(chunks: seq<Bytes>)
    ensures Streamed(chunks) == Concat(chunks)
  {
    ConcatDropsEmpty(chunks);
  }

  /**
   * Resuming a partial copy `obj[..e]` against a server that honours the range
   * and sends `obj[e..]` gives the same bytes as one uninterrupted fetch.
   */
  lemma ResumeCompletesObject(files: map<string, Bytes>, name: string, obj: Bytes, e: nat, chunks: seq<Bytes>)
    requires 0 < e <= |obj| && name in files && files[name] == obj[..e]
    requires Concat(chunks) == obj[e..]
    ensures ResumeRequest("u", files, name).rangeStart == Some(e)
    ensures AfterFetch(files, name, FetchResponse(206, chunks)) == Success(files[name := obj])
  {
    EmptyChunksIgnored(chunks);
    assert obj[..e] + obj[e..] == obj;
  }

  /** A server that ignores the range (status 200) and sends the whole object overwrites the partial copy with it. */
  lemma RestartCompletesObject(files: map<string, Bytes>, name: string, obj: Bytes, chunks: seq<Bytes>)
    requires Concat(chunks) == obj
    ensures AfterFetch(files, name, FetchResponse(200, chunks)) == Success(files[name := obj])
  {
    EmptyChunksIgnored(chunks);
    assert ResumeOffset(ExistingSize(files, name), 200) == 0;
    assert [] + Streamed(chunks) == obj;
  }

  // ---------------------------------------------------------------------------
  // Directory total

  predicate IsParquetName(n: string)
  {
    EndsWith(n, ".parquet")
  }

  /** The bytes file `n` adds to the directory total. */
  function Counted(files: map<string, Bytes>, n: string): nat
  {
    if n in files && IsParquetName(n) then |files[n]| else 0
  }

  /** Sum of `Counted` over `names`, taken in an arbitrary order. */
  ghost function SizeSum(files: map<string, Bytes>, names: set<string>): nat
    decreases names
  {
    if names == {} then 0
    else
      var n :| n in names;
      Counted(files, n) + SizeSum(files, names - {n})
  }

  /** The sum of the sizes of the `.parquet` files of the directory. */
  ghost function ParquetTotal(files: map<string, Bytes>): nat
  {
    SizeSum(files, files.Keys)
  }

  /** The sum does not depend on which name is taken first (so neither on `os.listdir` order). */
  lemma {:induction false} SizeSumRemove(files: map<string, Bytes>, names: set<string>, n: string)
    requires n in names
    ensures SizeSum(files, names) == Counted(files, n) + SizeSum(files, names - {n})
    decreases names
  {
    var m :| m in names && SizeSum(files, names) == Counted(files, m) + SizeSum(files, names - {m});
    if m != n {
      SizeSumRemove(files, names - {m}, n);
      SizeSumRemove(files, names - {n}, m);
      assert names - {m} - {n} == names - {n} - {m};
    }
  }

  /** The rescan `sum(getsize(f) for f in listdir(OUT_DIR) if f.endswith(".parquet"))`. */
  method Rescan(dir: LocalDir) returns (total: nat)
    ensures total == ParquetTotal(dir.files)
  {
    total := 0;
    var left := dir.files.Keys;
    while left != {}
      invariant total + SizeSum(dir.files, left) == ParquetTotal(dir.files)
      decreases left
    {
      var n :| n in left;
      SizeSumRemove(dir.files, left, n);
      total := total + Counted(dir.files, n);
      left := left - {n};
    }
  }

  // ---------------------------------------------------------------------------
  // The budget loop

  /** What happened to one chosen file. */
  datatype Action =
    | Skipped(name: string)
    | Fetched(name: string, request: FetchRequest, written: nat)
    | Failed(name: string, request: FetchRequest, status: int)

  /** The directory after the loop and the actions taken, in order. */
  datatype Trace = Trace(files: map<string, Bytes>, actions: seq<Action>)

  /** The skip rule: the local file exists, the remote size is known, and the local size reaches it. */
  predicate AlreadyComplete(files: map<string, Bytes>, name: string, size: Option<nat>)
    ensures size.None? || name !in files ==> !AlreadyComplete(files, name, size)
  {
    name in files && size.Some? && |files[name]| >= size.value
  }

  function Prepend(acts: seq<Action>, t: Trace): Trace
  {
    Trace(t.files, acts + t.actions)
  }

  /** One iteration for file `rf`: skip it, or download it (the directory changes only on success). */
  function Attempt(files: map<string, Bytes>, rf: RemoteFile, server: FetchRequest -> FetchResponse): (r: (Action, map<string, Bytes>))
    ensures !r.0.Fetched? ==> r.1 == files
    ensures forall n :: n != BaseName(rf.key) ==> Unchanged(files, r.1, n)
  {
    var name := BaseName(rf.key);
    if AlreadyComplete(files, name, rf.sizeBytes) then (Skipped(name), files)
    else
      var req := ResumeRequest(rf.url, files, name);
      match AfterFetch(files, name, server(req))
      case Failure(status) => (Failed(name, req, status), files)
      case Success(files') => (Fetched(name, req, |files'[name]|), files')
  }

  /** The figure the loop holds after action `a`: a fresh rescan after a download, else the previous one. */
  ghost function NextTotal(a: Action, files': map<string, Bytes>, total: nat): nat
  {
    if a.Fetched? then ParquetTotal(files') else total
  }

  /**
   * The loop `for rf in chosen` of `main`, with `total` the last figure the
   * directory rescan produced: it is recomputed after each download only. A
   * failed download ends the run (the exception leaves `main`).
   */
  ghost function Run(files: map<string, Bytes>, chosen: seq<RemoteFile>, target: int,
                     server: FetchRequest -> FetchResponse, total: nat): Trace
    decreases |chosen|
  {
    if chosen == [] || total >= target then Trace(files, [])
    else
      var step := Attempt(files, chosen[0], server);
      if step.0.Failed? then Trace(files, [step.0])
      else Prepend([step.0], Run(step.1, chosen[1..], target, server, NextTotal(step.0, step.1, total)))
  }

  lemma PrependPrepend(a: seq<Action>, b: seq<Action>, t: Trace)
    ensures Prepend(a, Prepend(b, t)) == Prepend(a + b, t)
  {
    assert a + (b + t.actions) == (a + b) + t.actions;
  }

  lemma RunStep(files: map<string, Bytes>, chosen: seq<RemoteFile>, target: int,
                server: FetchRequest -> FetchResponse, total: nat)
    requires chosen != [] && total < target
    ensures var step := Attempt(files, chosen[0], server);
            Run(files, chosen, target, server, total)
            == if step.0.Failed? then Trace(files, [step.0])
               else Prepend([step.0], Run(step.1, chosen[1..], target, server, NextTotal(step.0, step.1, total)))
  {
  }

  /** The body of the loop: the skip test, else `download_file`. */
  method HandleOne(dir: LocalDir, rf: RemoteFile, server: FetchRequest -> FetchResponse) returns (action: Action)
    modifies dir
    ensures (action, dir.files) == Attempt(old(dir.files), rf, server)
  {
    var name := BaseName(rf.key);
    if name in dir.files && rf.sizeBytes.Some? && |dir.files[name]| >= rf.sizeBytes.value {
      action := Skipped(name);
      return;
    }
    var request, result := DownloadFile(dir, rf.url, name, server);
    match result
    case Failure(status) =>
      action := Failed(name, request, status);
    case Success(written) =>
      action := Fetched(name, request, written);
  }

  /** One pass of the loop body past the budget test, with the rescan that follows a download. */
  method Advance(dir: LocalDir, rest: seq<RemoteFile>, target: int, server: FetchRequest -> FetchResponse, downloaded: nat)
    returns (action: Action, downloaded': nat)
    requires rest != [] && downloaded < target && downloaded == ParquetTotal(dir.files)
    modifies dir
    ensures downloaded' == ParquetTotal(dir.files)
    ensures Run(old(dir.files), rest, target, server, downloaded)
            == if action.Failed? then Trace(dir.files, [action])
               else Prepend([action], Run(dir.files, rest[1..], target, server, downloaded'))
  {
    ghost var before := dir.files;
    RunStep(before, rest, target, server, downloaded);
    action := HandleOne(dir, rest[0], server);
    ghost var after := dir.files;
    assert (action, after) == Attempt(before, rest[0], server);
    downloaded' := downloaded;
    if action.Fetched? {
      downloaded' := Rescan(dir);
    }
    assert downloaded' == NextTotal(action, after, downloaded);
  }

  /** The loop of `main` from the first directory scan to the last download (lines 178-209). */
  method DownloadWithinBudget(dir: LocalDir, chosen: seq<RemoteFile>, target: int, server: FetchRequest -> FetchResponse)
    returns (actions: seq<Action>)
    modifies dir
    ensures Trace(dir.files, actions) == Run(old(dir.files), chosen, target, server, ParquetTotal(old(dir.files)))
  {
    var downloaded := Rescan(dir);
    ghost var spec := Run(dir.files, chosen, target, server, downloaded);
    assert spec == Run(old(dir.files), chosen, target, server, ParquetTotal(old(dir.files)));
    actions := [];
    var rest := chosen;
    while rest != []
      invariant downloaded == ParquetTotal(dir.files)
      invariant spec == Prepend(actions, Run(dir.files, rest, target, server, downloaded))
      decreases |rest|
    {
      if downloaded >= target {
        break;
      }
      var action, downloaded' := Advance(dir, rest, target, server, downloaded);
      if action.Failed? {
        PrependDone(actions + [action], dir.files);
        actions := actions + [action];
        return;
      }
      PrependPrepend(actions, [action], Run(dir.files, rest[1..], target, server, downloaded'));
      actions := actions + [action];
      downloaded := downloaded';
      rest := rest[1..];
    }
    RunStops(dir.files, rest, target, server, downloaded);
    PrependDone(actions, dir.files);
  }

  /** With nothing left to treat, or the budget reached, the run does nothing. */
  lemma RunStops(files: map<string, Bytes>, chosen: seq<RemoteFile>, target: int,
                 server: FetchRequest -> FetchResponse, total: nat)
    requires chosen == [] || total >= target
    ensures Run(files, chosen, target, server, total) == Trace(files, [])
  {
  }

  lemma PrependDone(acts: seq<Action>, files: map<string, Bytes>)
    ensures Prepend(acts, Trace(files, [])) == Trace(files, acts)
  {
    assert acts + [] == acts;
  }

  // ---------------------------------------------------------------------------
  // What the budget loop guarantees

  predicate EndsInFailure(acts: seq<Action>)
  {
    acts != [] && acts[|acts| - 1].Failed?
  }

  /** Action `a` is about file `rf`: its local name, its URL, and it is never a skip when the size is unknown. */
  predicate ActsOn(a: Action, rf: RemoteFile)
  {
    && a.name == BaseName(rf.key)
    && (!a.Skipped? ==> a.request.url == rf.url)
    && (rf.sizeBytes.None? ==> !a.Skipped?)
  }

  /** The actions treat a prefix of `chosen`, in order; only the last can be a failure. */
  predicate Follows(acts: seq<Action>, chosen: seq<RemoteFile>)
  {
    && |acts| <= |chosen|
    && (forall i :: 0 <= i < |acts| ==> ActsOn(acts[i], chosen[i]))
    && (forall i :: 0 <= i < |acts| - 1 ==> !acts[i].Failed?)
  }

  /** No action downloads into file `n`. */
  predicate NotFetched(acts: seq<Action>, n: string)
  {
    forall j :: 0 <= j < |acts| ==> !(acts[j].Fetched? && acts[j].name == n)
  }

  lemma AttemptShape(files: map<string, Bytes>, rf: RemoteFile, server: FetchRequest -> FetchResponse)
    ensures ActsOn(Attempt(files, rf, server).0, rf)
    ensures Attempt(files, rf, server).0.Skipped? <==> AlreadyComplete(files, BaseName(rf.key), rf.sizeBytes)
    ensures !Attempt(files, rf, server).0.Fetched? ==> Attempt(files, rf, server).1 == files
    ensures forall n :: n != BaseName(rf.key) ==> Unchanged(files, Attempt(files, rf, server).1, n)
  {
    var name := BaseName(rf.key);
    var res := Attempt(files, rf, server);
    if AlreadyComplete(files, name, rf.sizeBytes) {
      assert res == (Skipped(name), files);
    } else {
      var req := ResumeRequest(rf.url, files, name);
      match AfterFetch(files, name, server(req))
      case Failure(status) =>
        assert res == (Failed(name, req, status), files);
      case Success(after) =>
        assert res == (Fetched(name, req, |after[name]|), after);
        assert after == files[name := after[name]];
    }
  }

  lemma FollowsCons(a: Action, acts: seq<Action>, chosen: seq<RemoteFile>)
    requires chosen != [] && ActsOn(a, chosen[0]) && !a.Failed? && Follows(acts, chosen[1..])
    ensures Follows([a] + acts, chosen)
  {
    var all := [a] + acts;
    forall i | 0 <= i < |all|
      ensures ActsOn(all[i], chosen[i]) && (i < |all| - 1 ==> !all[i].Failed?)
    {
      if i > 0 {
        assert all[i] == acts[i - 1];
        assert chosen[i] == chosen[1..][i - 1];
      }
    }
  }

  /** The run treats the chosen files in order, each under its own base name, and stops at the first failure. */
  lemma {:induction false} RunFollowsChosen(files: map<string, Bytes>, chosen: seq<RemoteFile>, target: int,
                                            server: FetchRequest -> FetchResponse, total: nat)
    ensures Follows(Run(files, chosen, target, server, total).actions, chosen)
    decreases |chosen|
  {
    if chosen != [] && total < target {
      AttemptShape(files, chosen[0], server);
      RunStep(files, chosen, target, server, total);
      var step := Attempt(files, chosen[0], server);
      if !step.0.Failed? {
        var total' := NextTotal(step.0, step.1, total);
        RunFollowsChosen(step.1, chosen[1..], target, server, total');
        FollowsCons(step.0, Run(step.1, chosen[1..], target, server, total').actions, chosen);
      }
    }
  }

  lemma FrameCons(files: map<string, Bytes>, files': map<string, Bytes>, final: map<string, Bytes>,
                  a: Action, acts: seq<Action>)
    requires forall n :: !(a.Fetched? && n == a.name) ==> Unchanged(files, files', n)
    requires forall n :: NotFetched(acts, n) ==> Unchanged(files', final, n)
    ensures forall n :: NotFetched([a] + acts, n) ==> Unchanged(files, final, n)
  {
    var all := [a] + acts;
    forall n | NotFetched(all, n)
      ensures Unchanged(files, final, n)
    {
      assert all[0] == a;
      assert NotFetched(acts, n) by {
        forall j | 0 <= j < |acts|
          ensures !(acts[j].Fetched? && acts[j].name == n)
        {
          assert acts[j] == all[j + 1];
        }
      }
      assert Unchanged(files, files', n);
      assert Unchanged(files', final, n);
    }
  }

  /** Only downloads change the directory, and each changes only its own file. */
  lemma {:induction false} RunFrame(files: map<string, Bytes>, chosen: seq<RemoteFile>, target: int,
                                    server: FetchRequest -> FetchResponse, total: nat)
    ensures forall n :: NotFetched(Run(files, chosen, target, server, total).actions, n) ==>
              Unchanged(files, Run(files, chosen, target, server, total).files, n)
    decreases |chosen|
  {
    if chosen != [] && total < target {
      AttemptShape(files, chosen[0], server);
      RunStep(files, chosen, target, server, total);
      var step := Attempt(files, chosen[0], server);
      if !step.0.Failed? {
        var total' := NextTotal(step.0, step.1, total);
        RunFrame(step.1, chosen[1..], target, server, total');
        var t' := Run(step.1, chosen[1..], target, server, total');
        FrameCons(files, step.1, t'.files, step.0, t'.actions);
      }
    }
  }

  lemma EndsInFailureCons(a: Action, acts: seq<Action>)
    requires !a.Failed?
    ensures EndsInFailure([a] + acts) == EndsInFailure(acts)
  {
    if acts != [] {
      assert ([a] + acts)[|acts|] == acts[|acts| - 1];
    }
  }

  /**
   * The loop leaves early only at the budget: if the run neither failed nor
   * treated every chosen file, the directory holds at least `target` bytes of
   * Parquet files.
   */
  lemma {:induction false} RunStopsAtBudget(files: map<string, Bytes>, chosen: seq<RemoteFile>, target: int,
                                            server: FetchRequest -> FetchResponse)
    ensures var t := Run(files, chosen, target, server, ParquetTotal(files));
            |t.actions| < |chosen| && !EndsInFailure(t.actions) ==> ParquetTotal(t.files) >= target
    decreases |chosen|
  {
    var total := ParquetTotal(files);
    if chosen != [] && total < target {
      RunStep(files, chosen, target, server, total);
      AttemptShape(files, chosen[0], server);
      var step := Attempt(files, chosen[0], server);
      if !step.0.Failed? {
        assert NextTotal(step.0, step.1, total) == ParquetTotal(step.1);
        RunStopsAtBudget(step.1, chosen[1..], target, server);
        EndsInFailureCons(step.0, Run(step.1, chosen[1..], target, server, ParquetTotal(step.1)).actions);
      }
    }
  }

  /** The run over the first `k` files, below the budget, begins with the same first step as the whole run. */
  lemma RunHeadStep(files: map<string, Bytes>, chosen: seq<RemoteFile>, target: int,
                    server: FetchRequest -> FetchResponse, total: nat, k: nat)
    requires 0 < k <= |chosen| && total < target
    requires !Attempt(files, chosen[0], server).0.Failed?
    ensures var step := Attempt(files, chosen[0], server);
            Run(files, chosen[..k], target, server, total)
            == Prepend([step.0], Run(step.1, chosen[1..][..k - 1], target, server, NextTotal(step.0, step.1, total)))
  {
    var head := chosen[..k];
    assert head[0] == chosen[0] && head[1..] == chosen[1..][..k - 1];
    RunStep(files, head, target, server, total);
  }

  lemma TakeCons<T>(a: T, xs: seq<T>, k: nat)
    requires 0 < k <= |xs| + 1
    ensures ([a] + xs)[..k] == [a] + xs[..k - 1]
  {
  }

  /**
   * The loop checks the budget before every file: whenever the run takes a
   * `k`-th action, the run over the first `k` files took exactly the first `k`
   * actions and left the directory below the budget.
   */
  lemma {:induction false} RunUnderBudget(files: map<string, Bytes>, chosen: seq<RemoteFile>, target: int,
                                          server: FetchRequest -> FetchResponse, k: nat)
    requires k < |Run(files, chosen, target, server, ParquetTotal(files)).actions|
    ensures k < |chosen|
    ensures var t := Run(files, chosen, target, server, ParquetTotal(files));
            var p := Run(files, chosen[..k], target, server, ParquetTotal(files));
            && p.actions == t.actions[..k]
            && ParquetTotal(p.files) < target
    decreases |chosen|
  {
    var total := ParquetTotal(files);
    assert chosen != [] && total < target;
    RunStep(files, chosen, target, server, total);
    var step := Attempt(files, chosen[0], server);
    if k == 0 {
      RunStops(files, chosen[..0], target, server, total);
    } else {
      assert !step.0.Failed?;
      var total' := ParquetTotal(step.1);
      assert NextTotal(step.0, step.1, total) == total';
      var t' := Run(step.1, chosen[1..], target, server, total');
      RunUnderBudget(step.1, chosen[1..], target, server, k - 1);
      RunHeadStep(files, chosen, target, server, total, k);
      TakeCons(step.0, t'.actions, k);
    }
  }

  /**
   * Once the directory holds the budget after the first `k` files, no later
   * file is treated: the run takes at most `k` actions.
   */
  lemma RunStopsOnceReached(files: map<string, Bytes>, chosen: seq<RemoteFile>, target: int,
                            server: FetchRequest -> FetchResponse, k: nat)
    requires k <= |chosen|
    requires ParquetTotal(Run(files, chosen[..k], target, server, ParquetTotal(files)).files) >= target
    ensures |Run(files, chosen, target, server, ParquetTotal(files)).actions| <= k
  {
    if k < |Run(files, chosen, target, server, ParquetTotal(files)).actions| {
      RunUnderBudget(files, chosen, target, server, k);
    }
  }

  /** No chosen file before the `i`-th has its base name. */
  predicate FirstWithName(chosen: seq<RemoteFile>, i: nat)
    requires i < |chosen|
  {
    forall j :: 0 <= j < i ==> BaseName(chosen[j].key) != BaseName(chosen[i].key)
  }

  lemma FirstWithNameTail(chosen: seq<RemoteFile>, i: nat)
    requires 0 < i < |chosen| && FirstWithName(chosen, i)
    ensures chosen[1..][i - 1] == chosen[i]
    ensures BaseName(chosen[0].key) != BaseName(chosen[i].key)
    ensures FirstWithName(chosen[1..], i - 1)
  {
    forall j | 0 <= j < i - 1
      ensures BaseName(chosen[1..][j].key) != BaseName(chosen[1..][i - 1].key)
    {
      assert chosen[1..][j] == chosen[j + 1];
    }
  }

  /**
   * The skip rule, read against the directory the run started from: the
   * action on the `i`-th chosen file is a skip exactly when that directory
   * already holds a complete copy, provided no earlier chosen file has the
   * same base name (which could have rewritten the copy).
   */
  predicate SkipsWhenComplete(acts: seq<Action>, chosen: seq<RemoteFile>, files: map<string, Bytes>)
  {
    forall i :: 0 <= i < |acts| && i < |chosen| && FirstWithName(chosen, i) ==>
      (acts[i].Skipped? <==> AlreadyComplete(files, BaseName(chosen[i].key), chosen[i].sizeBytes))
  }

  lemma SkipsCons(a: Action, acts: seq<Action>, chosen: seq<RemoteFile>, files: map<string, Bytes>, files': map<string, Bytes>)
    requires chosen != []
    requires a.Skipped? <==> AlreadyComplete(files, BaseName(chosen[0].key), chosen[0].sizeBytes)
    requires forall n :: n != BaseName(chosen[0].key) ==> Unchanged(files, files', n)
    requires SkipsWhenComplete(acts, chosen[1..], files')
    ensures SkipsWhenComplete([a] + acts, chosen, files)
  {
    var all := [a] + acts;
    forall i | 0 <= i < |all| && i < |chosen| && FirstWithName(chosen, i)
      ensures all[i].Skipped? <==> AlreadyComplete(files, BaseName(chosen[i].key), chosen[i].sizeBytes)
    {
      if i > 0 {
        FirstWithNameTail(chosen, i);
        assert all[i] == acts[i - 1];
        SkipCarries(acts[i - 1], files, files', BaseName(chosen[i].key), chosen[i].sizeBytes);
      }
    }
  }

  lemma SkipCarries(a: Action, files: map<string, Bytes>, files': map<string, Bytes>, name: string, size: Option<nat>)
    requires Unchanged(files, files', name)
    requires a.Skipped? <==> AlreadyComplete(files', name, size)
    ensures a.Skipped? <==> AlreadyComplete(files, name, size)
  {
  }

  /** The loop follows the skip rule on every chosen file it reaches. */
  lemma {:induction false} RunSkipRule(files: map<string, Bytes>, chosen: seq<RemoteFile>, target: int,
                                       server: FetchRequest -> FetchResponse, total: nat)
    ensures SkipsWhenComplete(Run(files, chosen, target, server, total).actions, chosen, files)
    decreases |chosen|
  {
    if chosen != [] && total < target {
      AttemptShape(files, chosen[0], server);
      RunStep(files, chosen, target, server, total);
      var step := Attempt(files, chosen[0], server);
      if step.0.Failed? {
        SkipsCons(step.0, [], chosen, files, step.1);
        assert [step.0] + [] == [step.0];
      } else {
        var total' := NextTotal(step.0, step.1, total);
        RunSkipRule(step.1, chosen[1..], target, server, total');
        SkipsCons(step.0, Run(step.1, chosen[1..], target, server, total').actions, chosen, files, step.1);
      }
    }
  }

  // ---------------------------------------------------------------------------
  // main

  /** How `main` ends: normally, by `sys.exit(1)`, or by an exception from an HTTP status. */
  datatype Outcome = Finished | NoFilesFound | NoTargetYears | ListingFailed(status: int) | DownloadFailed(status: int)

  /** The files `main` decides to download (before the size probe), or the way it exits before. */
  function Plan(responses: seq<ListResponse>, targets: seq<int>): (r: Result<seq<RemoteFile>, Outcome>)
    requires ListingEnds(responses)
    ensures r.Success? ==> ListingResult(responses).Success? && r.value != [] && |r.value| <= |targets|
    ensures ListingResult(responses).Failure? <==> r.Failure? && r.error.ListingFailed?
  {
    match ListingResult(responses)
    case Failure(status) => Failure(ListingFailed(status))
    case Success(keys) =>
      if keys == [] then Failure(NoFilesFound)
      else
        var chosen := Chosen(YearIndex(keys), targets);
        if chosen == [] then Failure(NoTargetYears) else Success(chosen)
  }

  /** A successful plan holds one entry per target year the listing has, with its exact-year key. */
  lemma PlanChoosesTargetYears(responses: seq<ListResponse>, targets: seq<int>)
    requires ListingEnds(responses)
    requires Plan(responses, targets).Success?
    ensures ListingResult(responses).Success?
    ensures var keys := ListingResult(responses).value;
            var chosen := Plan(responses, targets).value;
            && chosen != []
            && EntryYears(chosen) == Filter((y: int) => y in YearIndex(keys), targets)
            && forall f :: f in chosen ==> IsEntryFor(YearIndex(keys), targets, f) && IsYearKey(f.key)
  {
    var keys := ListingResult(responses).value;
    var idx := YearIndex(keys);
    ChosenEntries(idx, targets);
    ChosenFollowsTargets(idx, targets);
    forall y | y in idx
      ensures idx[y] != ""
    {
      YearIndexNonEmpty(keys, y);
    }
    FilterSame(targets, (y: int) => y in idx && idx[y] != "", (y: int) => y in idx);
    forall f | f in Plan(responses, targets).value
      ensures IsYearKey(f.key)
    {
      assert IsEntryFor(idx, targets, f);
      var i := YearIndexEntry(keys, f.year.value);
    }
  }

  /** No two files of `c` share a base name. */
  predicate NamesDistinct(c: seq<RemoteFile>)
  {
    forall i, j :: 0 <= i < j < |c| ==> BaseName(c[i].key) != BaseName(c[j].key)
  }

  /** For distinct target years, no two files of a successful plan share a base name. */
  lemma PlanNamesDistinct(responses: seq<ListResponse>, targets: seq<int>)
    requires ListingEnds(responses)
    requires Plan(responses, targets).Success?
    requires NoRepeats(targets)
    ensures NamesDistinct(Plan(responses, targets).value)
  {
    var keys := ListingResult(responses).value;
    var idx := YearIndex(keys);
    var c := Chosen(idx, targets);
    assert c == Plan(responses, targets).value;
    ChosenEntries(idx, targets);
    ChosenYearsDistinct(idx, targets);
    forall i, j | 0 <= i < j < |c|
      ensures BaseName(c[i].key) != BaseName(c[j].key)
    {
      assert c[i] in c && c[j] in c;
      assert IsEntryFor(idx, targets, c[i]) && IsEntryFor(idx, targets, c[j]);
      BaseNameKeepsYear(c[i].key);
      BaseNameKeepsYear(c[j].key);
    }
  }

  /**
   * The skip rule for the run of `main`: every file the loop reaches is
   * skipped exactly when the starting directory holds a complete copy of it.
   */
  lemma AcquireSkipRule(files: map<string, Bytes>, responses: seq<ListResponse>, headSize: string -> Option<nat>,
                        server: FetchRequest -> FetchResponse)
    requires ListingEnds(responses)
    requires Plan(responses, TargetYears).Success?
    ensures var p := Probed(Plan(responses, TargetYears).value, headSize);
            var acts := Run(files, p, TargetBytes, server, ParquetTotal(files)).actions;
            && |acts| <= |p|
            && forall i :: 0 <= i < |acts| ==>
                 (acts[i].Skipped? <==> AlreadyComplete(files, BaseName(p[i].key), p[i].sizeBytes))
  {
    var c := Plan(responses, TargetYears).value;
    var p := Probed(c, headSize);
    TargetYearsNoRepeats();
    PlanNamesDistinct(responses, TargetYears);
    RunFollowsChosen(files, p, TargetBytes, server, ParquetTotal(files));
    RunSkipRule(files, p, TargetBytes, server, ParquetTotal(files));
    forall i | 0 <= i < |p|
      ensures FirstWithName(p, i)
    {
      forall j | 0 <= j < i
        ensures BaseName(p[j].key) != BaseName(p[i].key)
      {
        assert p[j].key == c[j].key && p[i].key == c[i].key;
      }
    }
  }

  /** `main`: list, index, choose, probe, then the budget loop; each early exit happens before any download. */
  method Acquire(dir: LocalDir, responses: seq<ListResponse>, headSize: string -> Option<nat>,
                 server: FetchRequest -> FetchResponse)
    returns (actions: seq<Action>, outcome: Outcome)
    requires ListingEnds(responses)
    modifies dir
    ensures match Plan(responses, TargetYears)
            case Failure(o) => outcome == o && actions == [] && dir.files == old(dir.files)
            case Success(chosen) =>
              && Trace(dir.files, actions)
                 == Run(old(dir.files), Probed(chosen, headSize), TargetBytes, server, ParquetTotal(old(dir.files)))
              && outcome == if EndsInFailure(actions) then DownloadFailed(actions[|actions| - 1].status) else Finished
  {
    actions := [];
    var requests, listed := ListKeys(Prefix, responses);
    if listed.Failure? {
      outcome := ListingFailed(listed.error);
      return;
    }
    var keys := listed.value;
    if keys == [] {
      outcome := NoFilesFound;
      return;
    }
    var yearToKey, decadeKeys := IndexByYear(keys);
    var chosen := ChooseTargets(yearToKey, TargetYears);
    if chosen == [] {
      outcome := NoTargetYears;
      return;
    }
    chosen := ProbeSizes(chosen, headSize);
    actions := DownloadWithinBudget(dir, chosen, TargetBytes, server);
    if EndsInFailure(actions) {
      outcome := DownloadFailed(actions[|actions| - 1].status);
    } else {
      outcome := Finished;
    }
  }
}
