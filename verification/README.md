# nlargest-cli in Dafny

A model of the `get` command of `n_largest.py`, together with proofs about it.
The command does four things:

1. It downloads a text file in ranged chunks into a local cache keyed by the
   SHA-256 of the URL.
2. It decodes the file line by line into `(id, number)` records.
3. It selects the `n` records with the largest numbers.
4. It prints their ids, largest first.

The project has one module for each stage of that pipeline:

- `Text` (`text.dfy`) holds the Python built-ins the pipeline relies on:
  - `str.strip()` with Python's whitespace set;
  - `re.split('\s+', ...)`, including the `[""]` it returns for an empty string;
  - `int()` and `str()` on integers;
  - the line cutting that `readline()` performs on a binary file.
- `RecordStream` (`record_stream.dfy`) holds:
  - a `TextFile` class, a cursor over the file text whose `ReadLine` method
    advances it;
  - `split_generator` as the looping method `SplitGenerator`;
  - `id_number_tuple_generator` as the functions `ToRecord` and
    `DecodeRecords`, with a `Result` for the unpacking and `int()` errors.
- `TopN` (`top_n.dfy`) holds:
  - `heapq.nlargest(n, records, key=number)` as `NLargest`. By Python's
    documented contract, that call is `sorted(records, key=number,
    reverse=True)[:n]`, a stable sort, and `NLargest` states exactly that;
  - `SelectTopN`, a one-pass method that keeps at most `n` records, proved equal
    to `NLargest`;
  - `print_n_largest` as `PrintNLargest`.
- `RangeWindow` (`range_window.dfy`) holds:
  - `make_range_header` and the `bytes=first-last` value it formats;
  - the offsets the download loop walks through;
  - the headers of the requests it sends.
- `CacheStore` (`cache_store.dfy`) holds:
  - the cache directory as the `files` map of a `Cache` object;
  - `get_remote_file` as `GetRemoteFile` and its loop `Download`;
  - `get` as `Get`;
  - the specification functions `FetchSpec` and `GetSpec`, which state the
    effect of one run on the cache.

Modelling choices:

- **The server.** It is a finite list of replies `(status, body)`: the i-th
  reply answers the i-th request.
- **Constants.** `SUCCESS_STATUS` and `FILE_START` come from a `constants`
  module that is not part of this model, so they are parameters
  (`successStatus`, `fileStart`).
- **Header name and template.** The `Range` name and the `bytes={}-{}`
  template are the literals at `n_largest.py:14-15`.
- **Where the code's behaviour is surprising, or differs from its own help text (`n_largest.py:28-29`), the model follows the code:**
  - The cache entry is created empty (`n_largest.py:150`) before the first
    request, and it is left in place, partially filled, when a reply raises.
    A later run without a refresh then serves that partial entry as a hit.
  - `--no-cache` with an existing entry does not fetch the remote file, although
    its help text (`n_largest.py:28-29`) says the remote file will be used. `get`
    reads the cached copy without sending a request, then removes the entry after
    printing.
  - An exception in the download or in decoding leaves the entry in place even
    with `--no-cache`, because the removal is the last statement of `get`.
  - `raise_for_status` raises for statuses 400 to 599, which is the rule of
    `requests`; a status of 600 or more does not raise. Any other status that
    is neither the success status, 200 nor 416 is passed over. The offset still
    advances past it.
  - Each window `bytes=c-(c+s)` covers `s + 1` bytes, because the last position
    is included (section 14.1.2 of RFC 9110). The next window starts at
    `c + s + 1`, so windows are adjacent.

## Model

| member | source | states |
|---|---|---|
| Text.StripLeftSpec | n_largest.py:141 | `lstrip` keeps the suffix after the leading whitespace run; that suffix is empty or starts with non-whitespace |
| Text.StripRightSpec | n_largest.py:141 | `rstrip` keeps the prefix before the trailing whitespace run; that prefix is empty or ends with non-whitespace |
| Text.StripSpec | n_largest.py:141 | `strip` cuts the line into leading whitespace, the kept text and trailing whitespace, and the kept text has no whitespace at either edge |
| Text.StripUnique | n_largest.py:141 | stripping whitespace + m + whitespace, where m has no edge whitespace, gives back exactly m |
| Text.FieldsHaveNoSpace | n_largest.py:141 | no piece returned by `re.split('\s+', ...)` contains whitespace |
| Text.FieldsOfJoin | n_largest.py:141 | splitting non-empty, whitespace-free tokens joined by single spaces gives the tokens back |
| Text.FieldsOfTwo | n_largest.py:141 | two tokens separated by any non-empty whitespace run (tabs included) split into exactly those two |
| Text.ParseIntOfIntToString | n_largest.py:133 | `int(str(v)) == v` for every integer, negative ones included |
| Text.LinesSplitText | n_largest.py:136-140 | the successive `readline()` results, up to the first empty one, concatenate to the whole text; each is a non-empty line, and all but the last end with a newline |
| Text.LinesOfConcat | n_largest.py:136-140 | this cutting into lines is the only one: cutting the concatenation of any such lines gives back those lines |
| RecordStream.TextFile.ReadLine | n_largest.py:138 | `readline()` returns the next line, including its newline, or the rest of the file; it returns `""` exactly at the end, and the cursor moves past what it returned |
| RecordStream.SplitGenerator | n_largest.py:136-141 | reads until the first empty read and yields one token list per line, in file order, each being the whitespace split of the stripped line; the file is then fully read |
| RecordStream.ToRecord | n_largest.py:131-133 | a token list gives a record exactly when it has two tokens and the second is an integer; any other count fails with the count (unpacking), and two tokens whose second `int()` rejects fail with `IntError` naming that token |
| RecordStream.DecodeRecords | n_largest.py:131-133 | `id_number_tuple_generator` drained over the rows: on success one record per row; a first row that fails gives that row's error |
| RecordStream.DecodeFile | n_largest.py:131-141 | the decoding of a whole file's text, the rows of its lines decoded in order; on success one record per line |
| RecordStream.DecodeRecordsSpec | n_largest.py:131-133 | decoding succeeds iff every row gives a record, and then yields them all in order; otherwise it fails with the error of the first bad row |
| RecordStream.DecodeFileOfEncode | n_largest.py:131-141 | a file written one `id number` line per record, with whitespace-free ids, decodes back to exactly those records |
| RecordStream.FinalLineWithoutNewline | n_largest.py:136-141 | a last line with no trailing newline is still read and decoded: the records before it, then its own |
| RecordStream.BlankLineFails | n_largest.py:131-141 | a blank line strips and splits to `[""]`, one token, and fails to unpack |
| RecordStream.ThreeTokensFail | n_largest.py:131-141 | a line of three tokens fails to unpack, reporting three tokens |
| RecordStream.NonNumberFails | n_largest.py:131-141 | a second token that is not an integer is an `int()` error naming that token |
| RecordStream.SignedNumberParses | n_largest.py:131-141 | surrounding whitespace is dropped, a tab separates, and `-3` reads as -3 |
| TopN.InsertDescPermutes | n_largest.py:123 | inserting a record adds exactly that record, keeping every other record as often as before |
| TopN.InsertDescOrders | n_largest.py:123 | inserting into a list ordered largest first keeps it ordered |
| TopN.SortDescPermutes | n_largest.py:123 | the sort keeps every record, each as often as it occurs |
| TopN.SortDescOrders | n_largest.py:123 | the sort orders the records largest number first |
| TopN.SortDescIsStable | n_largest.py:123 | for every number, the records carrying it keep their input order (stability) |
| TopN.SortDescIsTheStableSort | n_largest.py:123 | any list ordered largest first that keeps the input order within each number equals the sort: it is Python's `sorted(..., reverse=True)` |
| TopN.NLargest | n_largest.py:122-123 | `heapq.nlargest(n, records, key=number)`, defined as the first `n` records of the stable descending sort; it has exactly `min(n, len(records))` records |
| TopN.NLargestIsOrdered | n_largest.py:122-123 | the selection has exactly `min(n, len(records))` records, ordered largest first |
| TopN.NLargestIsDrawnFromInput | n_largest.py:122-123 | the selection is a sub-multiset of the input, and when `n` is at least the record count it holds all of them |
| TopN.NLargestLeavesOutSmaller | n_largest.py:122-123 | every record left out has a number no larger than that of any record kept |
| TopN.NLargestTiesFirstSeen | n_largest.py:122-123 | for every number, the kept records carrying it are the first ones carrying it in the input, in input order |
| TopN.TakeInsertDesc | n_largest.py:123 | inserting into the first `n` records and keeping `n` gives the same as inserting into the whole list and keeping `n` |
| TopN.NLargestSnoc | n_largest.py:123 | after one more record, the new selection follows from the old selection alone |
| TopN.SelectTopN | n_largest.py:122-123 | the one-pass bounded selection returns exactly `nlargest(n, records)` and never holds more than `n` records |
| TopN.ProcessFile | n_largest.py:122-123 | `process_file`: fails exactly when decoding fails, with decoding's error; otherwise it returns `min(n, number of lines)` records, the `NLargest` of the decoded records |
| TopN.PrintNLargest | n_largest.py:126-128 | one printed line per selected record: its id, in selection order |
| TopN.SortWithTie | n_largest.py:122-123 | with numbers a < b = b' and c <= a, input `a, b, b', c` sorts to `b, b', a, c`, and n = 2 selects `b, b'` |
| TopN.TieFileDecodes | n_largest.py:131-141 | the file `a 5`, `b 9`, `b2 9`, `c 1` decodes to those four records |
| TopN.TieScenario | n_largest.py:122-128 | that file with n = 2 selects `b` then `b2`, the two 9s in reading order |
| RangeWindow.MakeRangeHeader | n_largest.py:170-171 | the header is named `Range`, and its window starts at `c` and ends `s` positions later, both ends included |
| RangeWindow.Format | n_largest.py:15 | the header value as sent: `bytes=` then the first position, `-` and the last; `RangeHeaderRoundTrip` shows it reads back as the window |
| RangeWindow.RangeHeaderRoundTrip | n_largest.py:170-171 | the header is named `Range`, and for a non-negative offset and size its formatted value reads back as exactly the window `[c, c + s]` |
| RangeWindow.OffsetIsWholeWindows | n_largest.py:161 | after k advances the offset is `FILE_START + k(s + 1)` |
| RangeWindow.WindowsTile | n_largest.py:161 | every position from `FILE_START` on lies in exactly one window `[offset_k, offset_k + s]` |
| RangeWindow.RequestsAt | n_largest.py:151-162 | request k asks for the window at the k-th offset |
| RangeWindow.ConsecutiveRequestsAdjacent | n_largest.py:161-162 | each request asks for `s + 1` positions, and request k + 1 starts right after the last position of request k |
| CacheStore.FirstStopAt | n_largest.py:153-160 | the loop stops at the first reply that is a 416 or raises |
| CacheStore.WrittenIsSuccessBodies | n_largest.py:154-155 | the entry holds exactly the bodies of the success-status replies so far, concatenated in order |
| CacheStore.FetchSpec | n_largest.py:144-167 | whatever the replies, the entry for the URL exists after the run |
| CacheStore.Cache.FileName | n_largest.py:146 | the cache name of a URL is its hex digest followed by `.gz`, so it depends on the URL alone |
| CacheStore.Cache.GetRemoteFile | n_largest.py:144-167 | result, new cache and requests sent are those of `FetchSpec`: on a hit, the name with nothing sent; otherwise an empty entry filled with the success bodies before the stopping reply, one request per reply up to it, and the error of that reply, if any |
| CacheStore.Cache.Download | n_largest.py:150-166 | the loop sends the window headers in order, appends each success body to the entry, and stops at the first 416 (no error) or raising reply (its error) |
| CacheStore.Cache.Get | n_largest.py:62-68 | prints the ids of `GetSpec`'s selection in order, or stops with its error; the cache and requests sent are `GetSpec`'s, so the entry is removed only after printing with `--no-cache` |
| CacheStore.GetSpec | n_largest.py:62-68 | `get` as a function of the cache before it: the download's request count; the entry is absent afterwards exactly when `--no-cache` was given and the ids were printed; at most `n` records printed |
| CacheStore.HitSendsNothing | n_largest.py:146-149 | an existing entry without refresh returns at once: no request, cache unchanged |
| CacheStore.FetchTouchesOnlyItsEntry | n_largest.py:146-166 | a miss or refresh changes only the URL's own entry, which then exists, and sends at least one request |
| CacheStore.CleanRunStoresSuccessBodies | n_largest.py:150-166 | if no reply before the first 416 is a 200 or a 4xx/5xx, the run ends without error after one request per reply up to that 416, and the entry holds exactly the earlier success bodies, in order, without the 416 body |
| CacheStore.FailedFetchKeepsPartialEntry | n_largest.py:150-160 | a 200 raises "range unsupported", and a 4xx/5xx that is not the success status raises its HTTP error; either way the entry stays, holding the success bodies that came before |
| CacheStore.RangeIgnoredLeavesEmptyEntry | n_largest.py:150-159 | a host answering the first ranged request with a plain 200 raises and leaves an empty entry |
| CacheStore.NextRunIsHit | n_largest.py:148-150 | whatever a run leaves, failed or not, the next run without refresh takes it as a hit |
| CacheStore.NoCacheHitReadsCachedCopy | n_largest.py:62-68 | `--no-cache` with an existing entry sends no request and decodes the cached copy; it removes the entry only if printing happened |
| CacheStore.EntryRemovedOnlyAfterNoCacheSuccess | n_largest.py:62-68 | after `get` the entry is absent iff `--no-cache` was given and the ids were printed; nothing else in the cache changes beyond what the download did |
| CacheStore.GetPrintsLargestFirst | n_largest.py:62-65 | what `get` prints is at most `n` records, largest number first |
| CacheStore.RerunIsIdempotent | n_largest.py:62-68 | after a run that printed without `--no-cache`, running again without refresh sends nothing and prints the same ids from the same cache |

## Left out

- The `click` command layer, `param_types` and the `IntRange` option checks. Only their bounds remain, as preconditions of `Get`: chunk size at least 1024 and `n` at least 1.
- The pickle configuration file in `get`, and the `set_cache_dir` and `clear_cache` commands. These are directory creation, renames and deletes with no further logic. The cache directory is the `files` map.
- SHA-256 is not computed. `Cache.FileName` applies a digest function that is a constant of the `Cache` object, so the name depends on the URL alone.
- HTTP, `req.text` decoding and UTF-8 encoding. A reply is an abstract `(status, body)` pair, and bodies and file text are `string`.
- gzip compression, `flush` and `fsync`. An entry holds the uncompressed concatenation of what was written.
- The `constants` module is not part of this model. `SUCCESS_STATUS` and `FILE_START` are parameters.
- Laziness and the min-heap of `heapq.nlargest`. The model decodes the whole file before selecting, whereas `nlargest` pulls records into its heap as the generator yields them. On a bad line the two agree on what is observable: nothing is returned and nothing is printed.
- The missing cache directory. `gzip.open(cache_file, 'wb+')` at `n_largest.py:150` raises `FileNotFoundError` when the cache root does not exist, before any request and without creating the entry. The model assumes the cache root exists and is writable, so a miss always creates the entry.
- `int()` accepts underscores, surrounding whitespace and non-ASCII digits. The model accepts an optional sign followed by ASCII digits.
- `Get`, `GetRemoteFile`, `Download`: a server that never answers 416 or an error would make the source loop forever. These members require that the finite reply list contains such a reply (`Terminates`), or that the run is a cache hit.
- RangeWindow.MakeRangeHeader: the header value is kept as a structured `ByteRange`. Its text is the separate function `Format`, which `RangeHeaderRoundTrip` relates to it.
- CacheStore.RaisesForStatus: follows the rule of `requests`, 400–599; statuses of 600 and above do not raise.
