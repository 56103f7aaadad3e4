/**
 * The cache-filling download of `get_remote_file` and the `get` command
 * around it. The server is a finite list of replies, the i-th reply
 * answering the i-th request; the cache directory is a map from file name to
 * the (uncompressed) text stored under it.
 */
module CacheStore {
  import opened Wrappers
  import opened Text
  import opened RecordStream
  import opened TopN
  import opened RangeWindow

  /** One reply of the server: its status code and its body text. */
  datatype Response = Response(status: int, body: string)

  /** The exceptions the download loop raises. */
  datatype FetchError =
    | RangeUnsupported       // a plain 200: the host ignored the `Range` header
    | HttpError(status: int) // `raise_for_status` on a 4xx or 5xx reply

  /** Why `get` stops without printing. */
  datatype GetError = FetchFailed(fetch: FetchError) | ParseFailed(parse: ParseError)

  /**
   * The effect of a run on the cache: what it yields, the cache directory
   * afterwards, and how many requests it sent.
   */
  datatype Run<T> = Run(outcome: T, files: map<string, string>, requestCount: nat)

  /** 416 Range Not Satisfiable (section 15.5.17 of RFC 9110): the file is exhausted. */
  const RangeNotSatisfiable := 416
  /** 200 OK: the whole file, sent by a host that ignores ranges. */
  const StatusOk := 200

  /** `requests`' `raise_for_status`: client errors 400-499 and server errors 500-599. */
  predicate RaisesForStatus(status: int) {
    400 <= status < 600
  }

  /**
   * The exception a reply raises inside the loop body, given the status that
   * counts as success: none for the success status, `RangeUnsupported` for a
   * plain 200, `HttpError` for a 4xx or 5xx; any other status is passed over.
   * A 416 never reaches the body.
   */
  function Failure(status: int, successStatus: int): Option<FetchError> {
    if status == RangeNotSatisfiable || status == successStatus then None
    else if status == StatusOk then Some(RangeUnsupported)
    else if RaisesForStatus(status) then Some(HttpError(status))
    else None
  }

  /** A reply after which no further request is sent. */
  predicate Halts(status: int, successStatus: int) {
    status == RangeNotSatisfiable || Failure(status, successStatus).Some?
  }

  /** The index of the first reply that ends the loop, or `|server|` when none does. */
  function FirstStop(server: seq<Response>, successStatus: int): (i: nat)
    ensures i <= |server|
    ensures i < |server| ==> Halts(server[i].status, successStatus)
  {
    if server == [] || Halts(server[0].status, successStatus) then 0
    else 1 + FirstStop(server[1..], successStatus)
  }

  /** No reply before the first stop halts the loop. */
  lemma {:induction false} FirstStopIsFirst(server: seq<Response>, successStatus: int, j: nat)
    requires j < FirstStop(server, successStatus)
    ensures !Halts(server[j].status, successStatus)
    decreases |server|
  {
    if j > 0 {
      FirstStopIsFirst(server[1..], successStatus, j - 1);
    }
  }

  /** The server eventually answers 416 or an error, so the loop ends. */
  predicate Terminates(server: seq<Response>, successStatus: int) {
    FirstStop(server, successStatus) < |server|
  }

  /** The bodies of the replies carrying the success status, in order. */
  function SuccessBodies(rs: seq<Response>, successStatus: int): seq<string> {
    if rs == [] then []
    else
      SuccessBodies(rs[..|rs| - 1], successStatus)
        + (if rs[|rs| - 1].status == successStatus then [rs[|rs| - 1].body] else [])
  }

  lemma SuccessBodiesSnoc(rs: seq<Response>, r: Response, successStatus: int)
    ensures SuccessBodies(rs + [r], successStatus)
         == SuccessBodies(rs, successStatus) + (if r.status == successStatus then [r.body] else [])
  {
    assert (rs + [r])[..|rs + [r]| - 1] == rs;
  }

  /**
   * The text in the cache entry after the first `i` replies: every success
   * body appended in turn.
   */
  function Written(server: seq<Response>, successStatus: int, i: nat): string
    requires i <= |server|
  {
    if i == 0 then []
    else if server[i - 1].status == successStatus then Written(server, successStatus, i - 1) + server[i - 1].body
    else Written(server, successStatus, i - 1)
  }

  lemma WrittenNext(server: seq<Response>, successStatus: int, i: nat)
    requires i < |server|
    ensures Written(server, successStatus, i + 1)
         == Written(server, successStatus, i) + (if server[i].status == successStatus then server[i].body else [])
  {
  }

  /** The entry holds exactly the success bodies among the first `i` replies, in order. */
  lemma {:induction false} WrittenIsSuccessBodies(server: seq<Response>, successStatus: int, i: nat)
    requires i <= |server|
    ensures Written(server, successStatus, i) == Concat(SuccessBodies(server[..i], successStatus))
  {
    if i > 0 {
      WrittenIsSuccessBodies(server, successStatus, i - 1);
      assert server[..i] == server[..i - 1] + [server[i - 1]];
      SuccessBodiesSnoc(server[..i - 1], server[i - 1], successStatus);
      if server[i - 1].status == successStatus {
        ConcatSnoc(SuccessBodies(server[..i - 1], successStatus), server[i - 1].body);
      } else {
        assert SuccessBodies(server[..i - 1], successStatus) + [] == SuccessBodies(server[..i - 1], successStatus);
      }
    }
  }

  /** A halting reply at or before the first stop is the first stop. */
  lemma StopIsFirstHalt(server: seq<Response>, successStatus: int, i: nat)
    requires i < |server| && i <= FirstStop(server, successStatus)
    requires Halts(server[i].status, successStatus)
    ensures i == FirstStop(server, successStatus)
  {
    if i < FirstStop(server, successStatus) {
      FirstStopIsFirst(server, successStatus, i);
    }
  }

  /** Whether the cached copy is used as it is: it exists and no refresh is asked for. */
  predicate IsHit(files: map<string, string>, name: string, shouldRefresh: bool) {
    name in files && !shouldRefresh
  }

  /**
   * `get_remote_file` on the cache `files`, for the entry `name`: a hit
   * returns at once; otherwise the entry is (re)created empty, then holds the
   * success bodies received before the reply that ended the loop, and is left
   * in place whether or not that reply raised.
   */
  function FetchSpec(files: map<string, string>, name: string, shouldRefresh: bool,
                     server: seq<Response>, successStatus: int): (run: Run<Option<FetchError>>)
    requires IsHit(files, name, shouldRefresh) || Terminates(server, successStatus)
    ensures name in run.files
  {
    if IsHit(files, name, shouldRefresh) then Run(None, files, 0)
    else
      var i := FirstStop(server, successStatus);
      Run(Failure(server[i].status, successStatus),
          files[name := Written(server, successStatus, i)],
          i + 1)
  }

  /**
   * The cache directory of one installation: `{sha256(url)}.gz` files. The
   * digest is a parameter of the model.
   */
  class Cache {
    var files: map<string, string>
    const hexDigest: string -> string

    constructor (hexDigest: string -> string, files: map<string, string>)
      ensures this.hexDigest == hexDigest && this.files == files
    {
      this.hexDigest := hexDigest;
      this.files := files;
    }

    /** The cache file of a URL: the hex digest of the URL followed by `.gz`. */
    function FileName(url: string): (name: string)
      ensures |name| >= 3 && name[..|name| - 3] == hexDigest(url) && name[|name| - 3..] == ".gz"
    {
      hexDigest(url) + ".gz"
    }

    /**
     * `get_remote_file`: on a hit, the name at once; otherwise the entry is
     * opened empty and filled by the ranged download.
     */
    method GetRemoteFile(url: string, chunkSize: int, shouldRefresh: bool,
                         server: seq<Response>, successStatus: int, fileStart: int)
      returns (result: Result<string, FetchError>, sent: seq<Header>)
      requires IsHit(files, FileName(url), shouldRefresh) || Terminates(server, successStatus)
      modifies this
      ensures var run := FetchSpec(old(files), FileName(url), shouldRefresh, server, successStatus);
        && result == (if run.outcome.Some? then Err(run.outcome.value) else Ok(FileName(url)))
        && files == run.files
        && sent == Requests(fileStart, chunkSize, run.requestCount)
    {
      var currentChunk := fileStart;
      var fileName := FileName(url);
      if fileName in files && !shouldRefresh {
        return Ok(fileName), [];
      }
      ghost var stop := FirstStop(server, successStatus);
      ghost var before := files;
      files := files[fileName := ""];
      var failure;
      failure, sent := Download(fileName, currentChunk, chunkSize, server, successStatus);
      assert files == before[fileName := Written(server, successStatus, stop)];
      result := if failure.Some? then Err(failure.value) else Ok(fileName);
    }

    /**
     * The request loop of `get_remote_file`: one ranged request per window
     * from `fileStart` on, appending every success body to the open entry,
     * until a 416 ends the download or a reply raises.
     */
    method Download(fileName: string, fileStart: int, chunkSize: int,
                    server: seq<Response>, successStatus: int)
      returns (failure: Option<FetchError>, sent: seq<Header>)
      requires fileName in files && files[fileName] == []
      requires Terminates(server, successStatus)
      modifies this
      ensures var stop := FirstStop(server, successStatus);
        && failure == Failure(server[stop].status, successStatus)
        && files == old(files)[fileName := Written(server, successStatus, stop)]
        && sent == Requests(fileStart, chunkSize, stop + 1)
    {
      ghost var stop := FirstStop(server, successStatus);
      var currentChunk := fileStart;
      sent := [MakeRangeHeader(currentChunk, chunkSize)];
      var i := 0;
      var req := server[0];
      while req.status != RangeNotSatisfiable
        invariant 0 <= i <= stop < |server|
        invariant req == server[i]
        invariant currentChunk == Offset(fileStart, chunkSize, i)
        invariant sent == Requests(fileStart, chunkSize, i + 1)
        invariant files == old(files)[fileName := Written(server, successStatus, i)]
        decreases stop - i
      {
        WrittenNext(server, successStatus, i);
        if req.status == successStatus {
          files := files[fileName := files[fileName] + req.body];
        } else {
          if req.status == StatusOk {
            StopIsFirstHalt(server, successStatus, i);
            return Some(RangeUnsupported), sent;
          }
          if RaisesForStatus(req.status) {
            StopIsFirstHalt(server, successStatus, i);
            return Some(HttpError(req.status)), sent;
          }
        }
        assert !Halts(req.status, successStatus);
        assert i < stop;
        RequestsNext(fileStart, chunkSize, i + 1);
        currentChunk := currentChunk + chunkSize + 1;
        i := i + 1;
        sent := sent + [MakeRangeHeader(currentChunk, chunkSize)];
        req := server[i];
      }
      StopIsFirstHalt(server, successStatus, i);
      return None, sent;
    }

    /**
     * `get`: download (or reuse) the file, decode it, select the `n` largest
     * and print their ids; with `--no-cache`, remove the entry afterwards.
     * An exception on the way leaves the cache as the download left it.
     */
    method Get(noCache: bool, refreshCache: bool, chunkSize: int, url: string, n: int,
               server: seq<Response>, successStatus: int, fileStart: int)
      returns (outcome: Result<seq<string>, GetError>, sent: seq<Header>)
      requires chunkSize >= 1024 && n >= 1
      requires IsHit(files, FileName(url), refreshCache) || Terminates(server, successStatus)
      modifies this
      ensures var run := GetSpec(old(files), FileName(url), noCache, refreshCache, server, successStatus, n);
        && files == run.files
        && sent == Requests(fileStart, chunkSize, run.requestCount)
        && outcome.Ok? == run.outcome.Ok?
        && (outcome.Err? ==> outcome.error == run.outcome.error)
        && (outcome.Ok? ==>
              |outcome.value| == |run.outcome.value| &&
              forall i :: 0 <= i < |outcome.value| ==> outcome.value[i] == run.outcome.value[i].id)
    {
      var fetched;
      fetched, sent := GetRemoteFile(url, chunkSize, refreshCache, server, successStatus, fileStart);
      if fetched.Err? {
        return Err(FetchFailed(fetched.error)), sent;
      }
      var fileName := fetched.value;
      ghost var content := files[fileName];
      var file := new TextFile(files[fileName]);
      var rows := SplitGenerator(file);
      assert rows == Rows(Lines(content));
      assert files[fileName] == content;
      match DecodeRecords(rows) {
        case Err(e) =>
          return Err(ParseFailed(e)), sent;
        case Ok(records) =>
          var top := SelectTopN(records, n);
          var lines := PrintNLargest(top);
          if noCache {
            files := files - {fileName};
          }
          outcome := Ok(lines);
      }
    }
  }

  /**
   * `get` as a function of the cache before it: the records it prints the
   * ids of (or the exception it stops with), the cache after it, and the
   * requests it sent.
   */
  function GetSpec(files: map<string, string>, name: string, noCache: bool, refreshCache: bool,
                   server: seq<Response>, successStatus: int, n: nat): (run: Run<Result<seq<Record>, GetError>>)
    requires IsHit(files, name, refreshCache) || Terminates(server, successStatus)
    ensures run.requestCount == FetchSpec(files, name, refreshCache, server, successStatus).requestCount
    ensures name in run.files <==> !(noCache && run.outcome.Ok?)
    ensures run.outcome.Ok? ==> |run.outcome.value| <= n
  {
    var fetched := FetchSpec(files, name, refreshCache, server, successStatus);
    if fetched.outcome.Some? then Run(Err(FetchFailed(fetched.outcome.value)), fetched.files, fetched.requestCount)
    else match ProcessFile(fetched.files[name], n)
      case Err(e) => Run(Err(ParseFailed(e)), fetched.files, fetched.requestCount)
      case Ok(top) =>
        Run(Ok(top), if noCache then fetched.files - {name} else fetched.files, fetched.requestCount)
  }

  /** The first reply that halts, with none halting before it, is where the loop stops. */
  lemma {:induction false} FirstStopAt(server: seq<Response>, successStatus: int, j: nat)
    requires j < |server| && Halts(server[j].status, successStatus)
    requires forall k :: 0 <= k < j ==> !Halts(server[k].status, successStatus)
    ensures FirstStop(server, successStatus) == j
    decreases j
  {
    if j > 0 {
      assert !Halts(server[0].status, successStatus);
      forall k | 0 <= k < j - 1 ensures !Halts(server[1..][k].status, successStatus) {
        assert server[1..][k] == server[k + 1];
      }
      FirstStopAt(server[1..], successStatus, j - 1);
    }
  }

  /** A hit sends no request and leaves the cache as it is. */
  lemma HitSendsNothing(files: map<string, string>, name: string, server: seq<Response>, successStatus: int)
    requires name in files
    ensures FetchSpec(files, name, false, server, successStatus) == Run(None, files, 0)
  {
  }

  /**
   * A miss or a refresh touches only its own entry, which exists afterwards,
   * and sends at least one request.
   */
  lemma FetchTouchesOnlyItsEntry(files: map<string, string>, name: string, shouldRefresh: bool,
                                 server: seq<Response>, successStatus: int)
    requires !IsHit(files, name, shouldRefresh) && Terminates(server, successStatus)
    ensures var run := FetchSpec(files, name, shouldRefresh, server, successStatus);
      && run.files.Keys == files.Keys + {name}
      && (forall k :: k in files && k != name ==> run.files[k] == files[k])
      && run.requestCount >= 1
  {
  }

  /**
   * A download in which no reply before the first 416 is a plain 200 or a
   * 4xx/5xx ends without error after one request per reply up to that 416,
   * and the entry holds exactly the success bodies before it, in order; the
   * 416 body is not written.
   */
  lemma CleanRunStoresSuccessBodies(files: map<string, string>, name: string, shouldRefresh: bool,
                                    server: seq<Response>, successStatus: int, j: nat)
    requires !IsHit(files, name, shouldRefresh)
    requires j < |server| && server[j].status == RangeNotSatisfiable
    requires forall k :: 0 <= k < j ==>
      server[k].status != RangeNotSatisfiable && server[k].status != StatusOk && !RaisesForStatus(server[k].status)
    ensures Terminates(server, successStatus)
    ensures FetchSpec(files, name, shouldRefresh, server, successStatus)
         == Run(None, files[name := Concat(SuccessBodies(server[..j], successStatus))], j + 1)
  {
    FirstStopAt(server, successStatus, j);
    WrittenIsSuccessBodies(server, successStatus, j);
  }

  /**
   * A plain 200, or a 4xx/5xx that is not the success status, raises; the
   * entry created for the download stays, holding the success bodies that
   * came before the failing reply.
   */
  lemma FailedFetchKeepsPartialEntry(files: map<string, string>, name: string, shouldRefresh: bool,
                                     server: seq<Response>, successStatus: int, j: nat)
    requires !IsHit(files, name, shouldRefresh)
    requires j < |server| && server[j].status != successStatus
    requires server[j].status == StatusOk || RaisesForStatus(server[j].status)
    requires server[j].status != RangeNotSatisfiable
    requires forall k :: 0 <= k < j ==> !Halts(server[k].status, successStatus)
    ensures Terminates(server, successStatus)
    ensures var run := FetchSpec(files, name, shouldRefresh, server, successStatus);
      && run.outcome == Some(if server[j].status == StatusOk then RangeUnsupported else HttpError(server[j].status))
      && run.files == files[name := Concat(SuccessBodies(server[..j], successStatus))]
      && run.requestCount == j + 1
  {
    FirstStopAt(server, successStatus, j);
    WrittenIsSuccessBodies(server, successStatus, j);
  }

  /** A host that answers the first ranged request with a plain 200 leaves an empty entry behind. */
  lemma RangeIgnoredLeavesEmptyEntry(files: map<string, string>, name: string, shouldRefresh: bool,
                                     server: seq<Response>, successStatus: int)
    requires !IsHit(files, name, shouldRefresh)
    requires |server| > 0 && server[0].status == StatusOk && successStatus != StatusOk
    ensures Terminates(server, successStatus)
    ensures FetchSpec(files, name, shouldRefresh, server, successStatus)
         == Run(Some(RangeUnsupported), files[name := []], 1)
  {
    FirstStopAt(server, successStatus, 0);
  }

  /**
   * Whatever a download leaves behind, failed or not, the next run without a
   * refresh takes it as a hit: a partial entry is served as the file.
   */
  lemma NextRunIsHit(files: map<string, string>, name: string, shouldRefresh: bool,
                     server: seq<Response>, successStatus: int, nextServer: seq<Response>)
    requires IsHit(files, name, shouldRefresh) || Terminates(server, successStatus)
    ensures var run := FetchSpec(files, name, shouldRefresh, server, successStatus);
      FetchSpec(run.files, name, false, nextServer, successStatus) == Run(None, run.files, 0)
  {
  }

  /**
   * With `--no-cache` and an existing entry, `get` sends no request and
   * works from the cached copy, then removes it once the ids are printed.
   */
  lemma NoCacheHitReadsCachedCopy(files: map<string, string>, name: string,
                                  server: seq<Response>, successStatus: int, n: nat)
    requires name in files
    ensures var run := GetSpec(files, name, true, false, server, successStatus, n);
      && run.requestCount == 0
      && (ProcessFile(files[name], n).Ok? ==> run.outcome == Ok(ProcessFile(files[name], n).value)
                                               && run.files == files - {name})
      && (ProcessFile(files[name], n).Err? ==> run.outcome == Err(ParseFailed(ProcessFile(files[name], n).error))
                                                && run.files == files)
  {
  }

  /**
   * `get` removes the entry only when it printed and `--no-cache` was given;
   * an exception leaves it in place, as the download left it.
   */
  lemma EntryRemovedOnlyAfterNoCacheSuccess(files: map<string, string>, name: string, noCache: bool,
                                            refreshCache: bool, server: seq<Response>, successStatus: int, n: nat)
    requires IsHit(files, name, refreshCache) || Terminates(server, successStatus)
    ensures var run := GetSpec(files, name, noCache, refreshCache, server, successStatus, n);
      var fetched := FetchSpec(files, name, refreshCache, server, successStatus);
      && (name in run.files <==> !(noCache && run.outcome.Ok?))
      && run.files == fetched.files - (if noCache && run.outcome.Ok? then {name} else {})
  {
  }

  /**
   * What `get` prints is the selection of `process_file`: at most `n`
   * records, largest number first.
   */
  lemma GetPrintsLargestFirst(files: map<string, string>, name: string, noCache: bool,
                              refreshCache: bool, server: seq<Response>, successStatus: int, n: nat)
    requires IsHit(files, name, refreshCache) || Terminates(server, successStatus)
    ensures var run := GetSpec(files, name, noCache, refreshCache, server, successStatus, n);
      run.outcome.Ok? ==> |run.outcome.value| <= n && NonIncreasing(run.outcome.value)
  {
    var fetched := FetchSpec(files, name, refreshCache, server, successStatus);
    match DecodeFile(fetched.files[name]) {
      case Ok(records) => NLargestIsOrdered(records, n);
      case Err(_) =>
    }
  }

  /**
   * Running `get` again, without `--no-cache` or a refresh, after a run that
   * printed, sends nothing and prints the same ids from the same cache.
   */
  lemma RerunIsIdempotent(files: map<string, string>, name: string, refreshCache: bool,
                          server: seq<Response>, successStatus: int, n: nat, nextServer: seq<Response>)
    requires IsHit(files, name, refreshCache) || Terminates(server, successStatus)
    requires GetSpec(files, name, false, refreshCache, server, successStatus, n).outcome.Ok?
    ensures var run := GetSpec(files, name, false, refreshCache, server, successStatus, n);
      GetSpec(run.files, name, false, false, nextServer, successStatus, n) == Run(run.outcome, run.files, 0)
  {
  }
}
