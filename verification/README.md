# nanos3reader, verified

A Dafny model of the S3 reader, its disk cache, its uploads and its wire text, with proofs about whole runs.
Each module follows one component of `src/s3_reader.cpp`:

- `Reader`, `Playback`, `Retargeting`: the seekable window over range GETs (`S3Streambuf`), with the disk cache on
  or off, against a flat byte array; and when a load succeeds, told from the replies alone.
- `DiskCache`, `Recency`, `CacheLru`, `CacheTruth`: the cache directory whose modification times are an LRU
  list, its eviction loop, its file names, and what its block files hold while threads interleave and the
  process dies.
- `Requests`, `Http`: one signed request with its callbacks and retries, and the exact range read.
- `Parts`, `Completion`, `Multipart`, `PartRetry`: the part arithmetic, the completion body, every interleaving of
  the upload's worker threads, and what becomes of one part in it.
- `DirectoryPool`: the largest-first order and the worker pool of a directory upload.
- `Words`, `Machine`: the words of FIPS 180-4, bit by bit, and the std::uint32_t arithmetic that computes on them.
- `Fips180`, `Roots`, `KnownRound`, `StreamingSha256`: the standard, its tables as roots of primes, a round of it in
  numbers, and the bundled SHA-256.
- `SigV4`, `SignatureFields`, `HeaderOrder`: the signature, what a service reads in its texts, and when the order of
  headers shows in it.
- `Text`, `Xml`, `Markup`, `Query`, `Listing`, `BadPages`: numbers, entities, tag searching, percent-encoding, and
  ListObjectsV2 with its continuation pages, sound and faulty.
- `CredentialChain`: when the credential provider walks its sources again.

Objects that the program updates in place are classes here (`S3Streambuf`, `Cache`, `Sha256State`, `Sink`,
`Upload`, `FileHandle`, `CredentialProvider`); loops over locals are methods proved against functions; threads are
state machines whose steps are the program's atomic steps. The network, the file system and the clock are
parameters: a server answers the k-th request, an I/O outcome is given for each file operation, a clock never
repeats.

`dafny verify dfyconfig.toml` checks the project.

## Findings

Claims that do not hold of the code without a condition, each with the exact condition:

- A seek past the object's end is clamped or aligned down (`Reader.LandingIsExact`), so a later relative seek
  can show a different position than indexing a flat array would; the runs that show what indexing shows are
  exactly those of `Playback.IndexingIsShown`, and `Playback.SkipFromPastTheEnd` is the shortest one that does not.
- A load that fails, and exactly when it does is `Reader.S3Streambuf.Succeeds`, leaves the window empty at its old
  start, so the position moves back to that start, and stays exactly when it was there (`Playback.FailureMoves`);
  reads then go on from there (`Playback.RunIsFlat`). `Reader.ReadsTwice` is a stream that shows its caller the
  first byte of an object twice.
- A refill dereferences the get pointer of any window that is not empty. That is inside the window exactly when
  the target is inside the object, so a server that turns from ranges to whole objects, or a cache switched on
  in mid-run, makes a refill at the end read past its window (`Reader.DereferenceIsSafe`; streams that get there
  are built in `Reader.WholeReplyAtTheEnd` and `Reader.CacheOnAtTheEnd`).
- `store` checks its stream before closing it, so a close that cannot write the last buffered bytes goes
  unnoticed and a short block is renamed into place. The comment at src/s3_reader.cpp:911-912 rules torn blocks out
  for crashes, rightly; but the block is true exactly when closing lost nothing (`CacheTruth.ClosingDecides`,
  `CacheTruth.TornBlock`).
- Block names hold a 64-bit djb2 hash and no read-ahead: URIs collide (`DiskCache.UrisCollide`), colliding URIs
  see each other's blocks (`CacheTruth.CollisionSharesBlocks`), and a directory shared by two read-aheads
  gives wrong blocks and wrong ends of object (`CacheTruth.ReadAheadMatters`, `CacheTruth.EofFlagAcrossReadAheads`).
- The order of signed headers shows in the canonical request exactly when two headers of one name differ by
  more than blanks around their values (`HeaderOrder.OrderShows`).
- The uploads of a directory need not start largest first, only the items are taken in that order
  (`DirectoryPool.SmallerStartsFirst`, `DirectoryPool.ClaimsAreLargestFirst`).
- The listing loop stops on an immediately repeated token only: a server that names two tokens in turn keeps it
  going for ever (`Listing.TurningNeverEnds`).
- A numeric reference to a surrogate, which XML forbids, is decoded to bytes that are no UTF-8; a reference to any
  other code point is decoded to its UTF-8 form (`Xml.Utf8ReadsBack`).
- The two-second pause between walks of the credential chain does not apply after a walk that leaves credentials
  about to expire (`CredentialChain.ExpiringIsRetriedAtOnce`, `CredentialChain.ThreeWalks`).

## Conditions of use

- One server per run that is honest in the sense of sections 14.2, 15.3.7 and 15.5.17 of RFC 9110 and either
  serves ranges or ignores them; one object content per URI; a cache switch that is not flipped in mid-run.
- One read-ahead per cache directory, no two URIs in use with the same hash, and block files that lose nothing
  when closed.
- Positions plus the read-ahead stay below 2^63, and sizes plus part sizes below 2^64.
- A file clock that never repeats (the LRU results), and removals that succeed (the eviction loop).
- A listing server whose chain of pages ends; over any other the listing loop never returns.
- A part is accepted with an ETag only after all its announced bytes have arrived, and requests for one part
  reach the server in order.

## Model

| member | source | states |
|---|---|---|
| Reader.LandingIsExact | src/s3_reader.cpp:1094-1109 | a successful seek lands where it was sent exactly when the target is not past the end, or the server serves ranges and the target is not aligned down; it lands past the end exactly when it was sent there |
| Reader.DereferenceIsSafe | src/s3_reader.cpp:1038-1042 | for an honest reply the get pointer of a window that is not empty is inside it exactly when the target is inside the object |
| Reader.ReliableStream | src/s3_reader.cpp:1004-1016 | for every object and read-ahead, cache on or off, there is a stream that meets all the conditions of use and on which nothing can fail |
| Reader.WholeReplyAtTheEnd | src/s3_reader.cpp:1034-1042 | for every object of at least one read-ahead, a stream whose server turns to whole objects reaches the dereference with a window that is not empty and the get pointer at its end |
| Reader.CacheOnAtTheEnd | src/s3_reader.cpp:1034-1042 | so does a stream on which the cache is switched on in mid-run, for every object of at least one read-ahead that does not end at a chunk boundary |
| Reader.ReadsTwice | src/s3_reader.cpp:1032-1042 | for every object longer than the read-ahead, a stream whose credentials are missing at the second load: the refill fails, the position goes from the read-ahead to 0, and the next byte read is the first once more |
| Reader.RangeLoads | src/s3_reader.cpp:1124-1252 | over a server that answers every range request, without the cache, a load succeeds exactly when credentials are there |
| Retargeting.PlanIsCarriedOut | src/s3_reader.cpp:1143-1252 | passing failures are waited out, and a redirect of a virtual-hosted stream, after any of them, is followed; then the first answer within max_attempts makes the load succeed, with one request for each reply and the stream left in the region that answered |
| Retargeting.SucceedsExactly | src/s3_reader.cpp:1143-1252 | with a handle and credentials, and no block on disk, a load succeeds exactly when the replies let it reach an answer in that way |
| Retargeting.MovesAtMostOnce | src/s3_reader.cpp:1219-1230 | a first reply that names another region fails the load of a path-style stream after one request, and a second one fails the load of any stream after two |
| Retargeting.GivesUp | src/s3_reader.cpp:1232-1251 | when max_attempts replies all fail in passing, the load fails after exactly that many requests |
| Reader.S3Streambuf.InstallWindow | src/s3_reader.cpp:1094-1109 | the window starts where the bytes do, the end flag is set for a short or whole window, and the get pointer is clamped into it |
| Reader.S3Streambuf.InstalledCovers | src/s3_reader.cpp:1094-1109 | what a 206 or cached block, a 200 or a 416 leaves covers its target: the window is that part of the object, the flag is right, the position is where the seek lands, and a byte is available exactly when the target is inside the object |
| Reader.S3Streambuf.InstalledSeen | src/s3_reader.cpp:1094-1109 | and its start, length, flag and position are a function of the object's size, the setting and the target alone |
| Reader.S3Streambuf.Fail | src/s3_reader.cpp:1111-1116 | a failure empties the window and keeps its start |
| Reader.S3Streambuf.Probe | src/s3_reader.cpp:1129-1130 | a block is loaded exactly when the cache holds it and its file can be read, and is the block of the object at the aligned start |
| Reader.S3Streambuf.Keep | src/s3_reader.cpp:1200-1202 | a stored block is in the cache afterwards, and the directory stays truthful |
| Reader.S3Streambuf.FromCache | src/s3_reader.cpp:1129-1133 | a window served from disk covers its target; a miss leaves the old start and end flag |
| Reader.S3Streambuf.LoadWindow | src/s3_reader.cpp:1124-1252 | succeeds exactly when there is a handle and either the cache serves the block or credentials are there and the deciding request is answered; the number of requests sent, the region and the error are those of that decision, and nothing is sent when the cache serves the block; success installs the window of the reply's code, a function of setting and target, and covers the target; failure empties the window at its old start and keeps the flag; afterwards the cache holds a block that was fetched; host, url and path stay those of the current region |
| Reader.S3Streambuf.Fetch | src/s3_reader.cpp:1143-1251 | the request loop ends with the first request that is neither redirected, once, nor retried, within max_attempts; it sends exactly the requests up to that one, ends in its region, and returns its answer, code or error |
| Reader.S3Streambuf.Retarget | src/s3_reader.cpp:1222-1229 | after a redirect host, url and path are those of the region named |
| Reader.S3Streambuf.Received | src/s3_reader.cpp:1198-1213 | a 200, 206 or 416 installs its window, and a 206 goes to the cache when it is on |
| Reader.S3Streambuf.ReplyTells | src/s3_reader.cpp:1151-1152 | the range asked for is one read-ahead from the start, so an honest 206 is that block, a 200 the object, a 416 a start at or past the end |
| Reader.S3Streambuf.Underflow | src/s3_reader.cpp:1027-1043 | exactly what a refill makes of start, length, flag, position and error; the byte returned is the object's at the position and the get pointer is inside the window; a clean end of file means the position is at or past the object's length; a failure moves the position to the window's start |
| Reader.S3Streambuf.Get | src/s3_reader.cpp:1027-1043 | consuming returns the object's byte at the position and moves it by one, or reports the end exactly there, or fails and moves to the window's start; the whole resulting view is stated |
| Reader.S3Streambuf.Peek | src/s3_reader.cpp:1027-1043 | looking returns the object's byte at the position and does not move it, or fails and moves to the window's start; the whole resulting view is stated |
| Reader.S3Streambuf.SeekPos | src/s3_reader.cpp:1064-1082 | an absolute seek clears the error and lands as LandingIsExact says, inside the live window without a load, or after one; a failed load gives -1 and moves to the window's start; the whole resulting view is stated |
| Reader.S3Streambuf.SeekOff | src/s3_reader.cpp:1045-1062 | a relative seek is the absolute seek to position plus offset; from the end, or to a negative target, it is refused and changes nothing |
| Playback.OperationIsFlat | src/s3_reader.cpp:1027-1116 | at any moment, an error pending or not, an operation either fails and leaves the position at the window's start, or shows what the flat array shows at the position and moves as it does |
| Playback.FailureMoves | src/s3_reader.cpp:1111-1116 | a failed operation keeps the position exactly when it was at the window's start |
| Playback.FailsExactly | src/s3_reader.cpp:1027-1082 | without a load that works, an operation fails exactly when it seeks out of reach of a live window, or reads at the window's end with the object's end unknown or an error pending |
| Playback.WorksExactly | src/s3_reader.cpp:1027-1082 | with one, it fails exactly when it reads at the object's end with an error pending; a seek never does |
| Playback.RunIsFlat | src/s3_reader.cpp:1027-1252 | so in whole runs with any failures, each operation shows what the flat array shows at the position the operations before it have left |
| Playback.CleanRunIsFlat | src/s3_reader.cpp:1027-1252 | a run in which nothing fails is the flat array's run |
| Playback.Step | src/s3_reader.cpp:1027-1082 | what one operation shows and leaves is decided by the view and by whether its load succeeds |
| Playback.Play | src/s3_reader.cpp:1027-1252 | over any run of seeks and reads, started at any moment, with other threads changing the cache between them, the stream shows exactly what the view machine of RunIsFlat shows, given which loads succeed; with nothing failing, the whole run is the flat run |
| Playback.ReadThrough | src/s3_reader.cpp:1027-1252 | reading a reliable stream through gives the object byte by byte and then the end of file, for every object and read-ahead, cache on or off |
| Playback.ShowTheSame | src/s3_reader.cpp:1094-1109 | the same run over two settings of cache, read-ahead and server style shows the same exactly when its relative seeks start at the same position or are refused in both |
| Playback.IndexingIsShown | src/s3_reader.cpp:1094-1109 | in particular, exactly when a run shows what indexing the bare object shows |
| Playback.SameAsIndexing | src/s3_reader.cpp:1094-1109 | it does when no relative seek starts past the end, whatever the cache, read-ahead and style |
| Playback.UncachedRangesAreExact | src/s3_reader.cpp:1127-1127 | it always does over a server that serves ranges, with the cache off |
| Playback.CacheIsInvisible | src/s3_reader.cpp:1124-1133 | exactly when the same run shows the same with the cache on and off, even with different read-aheads |
| Playback.SkipFromPastTheEnd | src/s3_reader.cpp:1050-1061 | the two-operation run that shows a difference, with the exact inputs |
| Http.BackoffCeiling | src/s3_reader.cpp:835-844 | the ceiling before the k-th retry is min(100 * 2^(k-1), 2000) ms, for every k |
| Http.RetriableIsPassing | src/s3_reader.cpp:817-832 | what is retried is a timeout, a connection that fails or breaks, a failing TLS handshake, and the statuses 429, 500, 502, 503 and 504; nothing else |
| Http.VirtualHostedEndpoint | src/s3_reader.cpp:792-796 | without path style the host is bucket.s3.region.amazonaws.com over TLS, and the path decodes to the key |
| Http.PathStyleEndpoint | src/s3_reader.cpp:776-791 | with path style the endpoint is split into scheme, https when it names none, host and dropped slashes, and the path decodes to bucket and key |
| Http.PathReadsBack | src/s3_reader.cpp:335-350 | percent-decoding inverts the encoding of a path on every byte string |
| Http.PathKeepsSlashes | src/s3_reader.cpp:335-350 | slashes stay as they are, and what they separate is encoded piece by piece |
| DiskCache.Hex16 | src/s3_reader.cpp:950-958 | the digit loop writes the sixteen hexadecimal digits of its argument |
| DiskCache.PathOf | src/s3_reader.cpp:942-948 | the hash loop, in 64 bits, gives the block's name |
| DiskCache.NameReads | src/s3_reader.cpp:942-958 | a name holds sixteen hexadecimal digits that read back to the hash of the URI, sixteen that read back to the start, and the extension |
| DiskCache.KnownHash | src/s3_reader.cpp:943-946 | the hash of one URI, worked out from 5381 and 33 |
| DiskCache.HexDigitsInjective | src/s3_reader.cpp:950-958 | different 64-bit numbers have different digits |
| DiskCache.PathInjective | src/s3_reader.cpp:942-948 | a block name tells the hash of the URI and the start, and nothing more |
| DiskCache.BlockNames | src/s3_reader.cpp:916-971 | block names have the block extension and temporary names do not, so no temporary file is loaded, counted or evicted |
| DiskCache.BlockExtension | src/s3_reader.cpp:971-973 | a name that ends in the block extension is a block file exactly when something stands in front of it, and no other extension of that length makes one |
| DiskCache.UrisCollide | src/s3_reader.cpp:942-947 | two different URIs with the same block names, behind any common text |
| DiskCache.Cache.Configure | src/s3_reader.cpp:855-872 | capacity clamped to 2..500, off for a capacity of 0 or less or a directory that cannot be made, contents and counters kept |
| DiskCache.Cache.TryLoad | src/s3_reader.cpp:887-909 | exactly when it is a hit, what it returns, that only the date of the hit block changes, and one of the two counters grows by one |
| DiskCache.Cache.Store | src/s3_reader.cpp:913-939 | the new directory for every I/O outcome: the block under its name and the oldest others evicted, or nothing but the temporary file gone |
| DiskCache.Cache.EvictIfNeeded | src/s3_reader.cpp:961-989 | from any directory the loop ends, within capacity, having removed only blocks no newer than any survivor and no more than needed |
| DiskCache.Cache.Scan | src/s3_reader.cpp:963-982 | one pass in any order counts the block files and finds one of the oldest |
| CacheLru.EvictionIsExact | src/s3_reader.cpp:961-989 | exactly max(0, count - max_blocks) blocks are deleted, none newer than a survivor |
| CacheLru.NewestSurvives | src/s3_reader.cpp:931-938 | the block just stored survives its own eviction pass |
| CacheLru.EvictionTruncates | src/s3_reader.cpp:961-989 | on the list of blocks by falling date, eviction keeps the first max_blocks |
| CacheLru.UseMovesToFront | src/s3_reader.cpp:906-906 | dating a block now moves it to the front of that list |
| CacheLru.ReadThrough | src/s3_reader.cpp:1129-1202 | one read-through request, whatever its fetch brings, does to the directory what an LRU list does, counts one hit or one miss, serves the held bytes or the fetched ones, and leaves every other file's bytes alone |
| CacheLru.RunTrace | src/s3_reader.cpp:887-989 | after any sequence of requests from an empty directory, each with its own fetch outcome, the block files are the LRU list's, newest first, hits + misses is the number of requests, and the hits are the list's; when a block is always cacheable or never, they are the max_blocks most recently used distinct cacheable blocks; and when the fetches bring what their names stand for, every request is served that, hit or miss, and the files hold it |
| Recency.LruIsMostRecent | src/s3_reader.cpp:961-989 | when names are always cacheable or never, an LRU list is the most recently used distinct cacheable names, cut to capacity |
| Recency.RecentMembers | src/s3_reader.cpp:906-906 | the recency list holds exactly the names with a cacheable use |
| Recency.RecentOrder | src/s3_reader.cpp:974-981 | it lists them by falling position of the last one |
| Recency.UseKeepsIncluded | src/s3_reader.cpp:861-868 | one use keeps what a smaller cache holds some of a larger one's names in its order, and all of them while the smaller one has room |
| Recency.LargerCacheHoldsMore | src/s3_reader.cpp:861-868 | on the same trace, whatever each fetch brings, a larger capacity holds a superset and never has fewer hits |
| CacheTruth.TruthOfPart | src/s3_reader.cpp:961-989 | removing and dating files keeps every block true |
| CacheTruth.TruthOfStore | src/s3_reader.cpp:913-938 | putting a true block in place keeps every block true, because no other block has its name |
| CacheTruth.StoredBlockSurvives | src/s3_reader.cpp:931-938 | the block just stored is in the cache after its own eviction pass |
| CacheTruth.StoredBlockIsTrue | src/s3_reader.cpp:913-938 | a store that loses nothing keeps every block true, whatever else the file system does |
| CacheTruth.ClosingDecides | src/s3_reader.cpp:917-938 | after a store every block is true exactly when closing the file did not lose some of the block |
| CacheTruth.CollisionSharesBlocks | src/s3_reader.cpp:942-948 | a block stored for a colliding URI is right for the other exactly when the objects agree there |
| CacheTruth.ReadAheadMatters | src/s3_reader.cpp:942-948 | a block stored with one read-ahead is the block of another exactly when they are equal or the object ends within both |
| CacheTruth.EofFlagAcrossReadAheads | src/s3_reader.cpp:1098-1098 | the short-window check is right for such a block exactly under this condition |
| CacheTruth.StepKeepsInv | src/s3_reader.cpp:887-989 | every step of every thread, and a crash between any two, keeps the blocks true and the temporary file a beginning of the block it becomes |
| CacheTruth.TornBlock | src/s3_reader.cpp:917-938 | step by step: a rename keeps the invariant exactly when the temporary file held the whole block |
| CacheTruth.RunKeepsInv | src/s3_reader.cpp:887-989 | hence in every reachable state |
| CacheTruth.LoadsAreTrue | src/s3_reader.cpp:887-909 | every load that finds a file gets object[start .. min(start + read_ahead, size)), never empty, and a rename puts in place what the temporary file held |
| Requests.TransferIsFaithful | src/s3_reader.cpp:1631-1651 | for any chunks, what an attempt keeps is a beginning of the body within the limit, all of it unless a callback aborts, and it overflows only past the limit |
| Requests.Sink.Write | src/s3_reader.cpp:1631-1651 | a chunk is appended whole or refused whole; the buffer is never written past its capacity; only a 206 goes to the buffer |
| Requests.FileHandle.Read | src/s3_reader.cpp:1687-1691 | a full read gives the next bytes of the file; a failing or ending one gives fewer |
| Requests.Upload.Read | src/s3_reader.cpp:1673-1695 | each call gives the next bytes of the body, as many as fit, never short; exactly when it aborts |
| Requests.Perform | src/s3_reader.cpp:1792-1838 | under any order and size of callback calls, the pieces sent are together the beginning of the body, and the kept bytes and the result code are the specification's |
| Requests.LastAttempt | src/s3_reader.cpp:1753-1862 | the reply is that of the first attempt that is not retried, at most the fourth |
| Requests.RetriesExactly | src/s3_reader.cpp:1850-1860 | an attempt is repeated exactly when it failed in passing and neither the body's source nor the destination aborted it |
| Requests.TextIsCapped | src/s3_reader.cpp:1645-1650 | a reply that is not read into a buffer is kept whole up to 16 MiB, and a longer one stops the transfer |
| Requests.SendsWhatIsThere | src/s3_reader.cpp:1673-1695 | from a file nothing is sent that it does not hold, and an attempt that asks for bytes past its end fails |
| Requests.ArrivesAfterTrouble | src/s3_reader.cpp:1850-1860 | a range that arrives after at most three passing failures is in the deciding attempt, so ReadRange returns it |
| Requests.RunRequest | src/s3_reader.cpp:1716-1863 | at most four attempts, the reply and the buffer are the last attempt's, nothing past the capacity is written; false exactly without credentials or handle |
| Requests.ReadRange | src/s3_reader.cpp:1971-2024 | true exactly when the last attempt's 206 has n bytes, and then dst[0..n) is that whole body and, from an honest server, object[offset..offset+n); nothing past n is written; at most four requests |
| Parts.PartSizeFor | src/s3_reader.cpp:2212-2219 | the part size is at least the request and 5 MiB |
| Parts.PartSizeIsRight | src/s3_reader.cpp:2212-2219 | between 1 and 10,000 parts; a raised size is whole MiB and less than 1 MiB above any size that would do |
| Parts.CountIsExact | src/s3_reader.cpp:2302-2302 | the part count is the only one whose last part is not empty and reaches the end |
| Parts.SinglePutFits | src/s3_reader.cpp:2267-2268 | one PUT never carries more than 5 GiB and a multipart upload is never empty; exactly when multipart is chosen |
| Parts.PartsTile | src/s3_reader.cpp:2358-2366 | each part starts where the one before ends, all but the last are full, the last is not empty and ends the file |
| Parts.PartsAreTheFile | src/s3_reader.cpp:2358-2366 | the parts put together are the file |
| Completion.CompletionBody | src/s3_reader.cpp:2407-2412 | the loop builds the body for its ETags |
| Completion.CompletionReadsBack | src/s3_reader.cpp:2407-2412 | read back element by element, the body lists parts 1 to n in ascending order, each with its ETag, whatever characters these hold |
| Completion.BodyIsOneElement | src/s3_reader.cpp:2407-2412 | the body is one element of Amazon's namespace, closed at its end, with a Part element for each ETag in between |
| Multipart.TakenIsThePart | src/s3_reader.cpp:2358-2366 | a part the server takes is the whole part of the file |
| Multipart.ExclusiveKept | src/s3_reader.cpp:2354-2357 | every step keeps each index with at most one worker |
| Multipart.ShapeKept | src/s3_reader.cpp:2347-2388 | every step keeps each worker's index taken, and an accepted part held by the server under its ETag |
| Multipart.EtagsKept | src/s3_reader.cpp:2386-2386 | every step keeps each stored ETag that of a finished part the server holds whole |
| Multipart.CoveredKept | src/s3_reader.cpp:2354-2386 | every step keeps, without failure, each index taken finished or in flight |
| Multipart.OrderedKept | src/s3_reader.cpp:2399-2434 | every step keeps the requests in order: parts, at most one completion, at most one abort |
| Multipart.StepKeepsInv | src/s3_reader.cpp:2347-2434 | every step of every thread keeps all of these |
| Multipart.RunKeepsInv | src/s3_reader.cpp:2329-2434 | hence in every state of every run |
| Multipart.ClaimsAreExact | src/s3_reader.cpp:2354-2386 | at every moment an index belongs to at most one worker; without failure every index below min(next, parts) is finished with an ETag or in flight in exactly one worker |
| Multipart.CompletionIsWhole | src/s3_reader.cpp:2396-2406 | a completion is only sent after every worker returned, with every ETag present and every part held |
| Multipart.UploadIsTheFile | src/s3_reader.cpp:2300-2439 | when the upload succeeds, its completion lists parts 1 to n in order with the ETags returned for them, and the parts the server holds under those, in that order, are the file |
| Multipart.OneVerdict | src/s3_reader.cpp:2399-2434 | counting calls of run_request, each of at most four attempts: no part request starts after a completion or abort was called for; at most one completion; success means exactly one completion, last, and no abort; failure exactly one abort, last |
| Multipart.StepsRunOut | src/s3_reader.cpp:2353-2387 | every step lowers a measure |
| Multipart.EveryRunFinishes | src/s3_reader.cpp:2347-2434 | every run has at most 8 * parts + 5 * threads + 3 steps, and only a finished one cannot go on |
| Multipart.CanSucceed | src/s3_reader.cpp:2347-2439 | from every reachable state in which nothing has failed the upload can still succeed |
| Multipart.SomeRunSucceeds | src/s3_reader.cpp:2300-2439 | for every file, part size and number of threads there is a run that succeeds |
| PartRetry.PartIsRetried | src/s3_reader.cpp:2347-2388 | in every run and interleaving a part is sent again after each attempt that is retried, at most four times in all, and the request log grows by exactly these; then the worker has its ETag when the last attempt was accepted, and reports a failure otherwise |
| PartRetry.AcceptedExactly | src/s3_reader.cpp:2378-2386 | a part is accepted exactly for a complete transfer that ends in a 200 with an ETag |
| PartRetry.FailureStopsParts | src/s3_reader.cpp:2354-2357 | once a failure is reported no part is begun: what is being sent later was being sent already |
| PartRetry.UnreadablePartFails | src/s3_reader.cpp:1852-1855 | a part whose bytes cannot be read is not sent again and fails its worker |
| PartRetry.CompletionDecides | src/s3_reader.cpp:2419-2434 | in every run the upload succeeds exactly with a completion answered by a complete 200 whose body does not say that it failed; any other outcome leads to the abort |
| DirectoryPool.LargestFirstIsStableSort | src/s3_reader.cpp:2500-2501 | the upload order is a permutation of the listing, of non-increasing size, stable |
| DirectoryPool.StableSortIsUnique | src/s3_reader.cpp:2501-2501 | no other order is |
| DirectoryPool.StepKeepsInv | src/s3_reader.cpp:2506-2534 | every step keeps each item with at most one worker, its report final, and the statistics those of the reports |
| DirectoryPool.RunKeepsInv | src/s3_reader.cpp:2506-2544 | hence in every state of every run |
| DirectoryPool.ClaimsAreLargestFirst | src/s3_reader.cpp:2501-2509 | at every moment the items claimed so far, in the order of their claims, are the first of the sorted listing, so their sizes do not increase |
| DirectoryPool.SmallerStartsFirst | src/s3_reader.cpp:2506-2521 | a run of two threads in which the smaller of two items starts first |
| DirectoryPool.EveryItemOnce | src/s3_reader.cpp:2500-2551 | at the end every item of the listing was claimed, largest first, attempted once and reported once, files + failed is the item count, the bytes are those of the successful items, and the call fails exactly when an item did |
| DirectoryPool.StepsRunOut | src/s3_reader.cpp:2507-2534 | every step lowers a measure |
| DirectoryPool.EveryRunFinishes | src/s3_reader.cpp:2506-2544 | every run has at most 4 * items + 2 * threads + 1 steps, and only a finished one cannot go on |
| StreamingSha256.Sha256State.Block | src/s3_reader.cpp:68-99 | the 64-round loop computes the compression of section 6.2.2 of FIPS 180-4 |
| Machine.BitOfU | src/s3_reader.cpp:66-66 | a std::uint32_t has the bits of the number it holds |
| Machine.URotr | src/s3_reader.cpp:66-66 | shifting both ways and joining rotates the bits, for every distance |
| Machine.UShr | src/s3_reader.cpp:84-85 | a shift to the right moves the bits down and fills with zeros, for every distance |
| Machine.UXor | src/s3_reader.cpp:84-93 | exclusive or works bit by bit |
| Machine.UAnd | src/s3_reader.cpp:90-93 | and so does and |
| Machine.UNot | src/s3_reader.cpp:90-90 | and so does not |
| Machine.UWord | src/s3_reader.cpp:80-81 | four bytes shifted into place are their big-endian number |
| Words.ShrDivides | src/s3_reader.cpp:119-122 | a shift to the right by c is the quotient by 2^c |
| Fips180.ChooseAndMajority | src/s3_reader.cpp:90-93 | Ch chooses between two bits by the third, Maj is the majority of the three |
| Fips180.WordBytesReadBack | src/s3_reader.cpp:118-123 | the bytes of a word of the digest read back to it, most significant first |
| Fips180.PadReads | src/s3_reader.cpp:110-117 | behind the message stand the byte 128, zeros, and the number of bits modulo 2^64 in eight bytes that read back to it; at most 72 bytes in all |
| KnownRound.FirstRound | src/s3_reader.cpp:88-95 | the standard's round, worked out in numbers: the first round for "abc" gives the published working variables |
| KnownRound.FortiethWord | src/s3_reader.cpp:83-87 | and so a word of the schedule |
| KnownRound.ScheduleSum | src/s3_reader.cpp:83-87 | each further word of the schedule is a sum of four modulo 2^32, from 2, 7, 15 and 16 places before it |
| KnownRound.RoundSum | src/s3_reader.cpp:89-96 | each round adds seven words into a and six into e, modulo 2^32, and moves the others on |
| KnownRound.CompressSum | src/s3_reader.cpp:98-98 | and the result of the rounds is added to the hash word by word |
| KnownRound.DigestReads | src/s3_reader.cpp:118-123 | the digest is the eight words in their order, each most significant byte first |
| Roots.CubeRoots | src/s3_reader.cpp:69-77 | the 64 round constants are the first 32 fractional bits of the cube roots of the first primes |
| Roots.SquareRoots | src/s3_reader.cpp:60-61 | the initial hash value is the first 32 fractional bits of the square roots of the first eight |
| Roots.FirstPrimes | src/s3_reader.cpp:69-77 | the list of these primes holds the primes up to 311 and no other number |
| Roots.PrimesAscend | src/s3_reader.cpp:69-77 | and it ascends |
| StreamingSha256.Sha256State.Absorb | src/s3_reader.cpp:102-107 | a piece goes behind the buffered bytes; the state is the fold over the full blocks, the buffer the rest |
| StreamingSha256.Sha256State.Update | src/s3_reader.cpp:100-109 | so for a piece of any length |
| StreamingSha256.Sha256State.PadZeros | src/s3_reader.cpp:114-115 | the zero loop ends with the least number of zeros that leaves room for the length |
| StreamingSha256.Sha256State.Finish | src/s3_reader.cpp:110-124 | the digest of everything fed |
| StreamingSha256.Mix | src/s3_reader.cpp:88-95 | the in-place rotation of the eight variables is one round |
| StreamingSha256.HashPieces | src/s3_reader.cpp:59-131 | however a message is cut into updates, the digest is the one-shot SHA-256 of the whole |
| StreamingSha256.Sha256Raw | src/s3_reader.cpp:127-131 | the one-shot digest |
| StreamingSha256.HexEncode | src/s3_reader.cpp:167-175 | two lower-case digits a byte |
| StreamingSha256.HexReadsBack | src/s3_reader.cpp:167-175 | the two digits of each byte, lower-case, read in base 16, are that byte |
| StreamingSha256.HexInjective | src/s3_reader.cpp:167-175 | different digests have different hexadecimal forms |
| StreamingSha256.Sha256FileHex | src/s3_reader.cpp:190-235 | exactly when it succeeds, and then it is the hash of the file slice, whatever the number of 1 MiB reads |
| StreamingSha256.HmacSha256Raw | src/s3_reader.cpp:139-163 | HMAC as section 2 of RFC 2104 defines it, long keys included |
| KnownRound.HmacReads | src/s3_reader.cpp:139-163 | for a key that fits a block: its bytes exclusive-ored with 54 and 92, bit by bit, and these behind them, in front of the message and of the inner digest |
| SigV4.SortHeaders | src/s3_reader.cpp:259-261 | a permutation in ascending order of names |
| SigV4.SortIsUnique | src/s3_reader.cpp:259-261 | for distinct names there is only one |
| SigV4.DeriveSigningKey | src/s3_reader.cpp:244-252 | the four chained HMACs over the definitions of FIPS 180-4 and RFC 2104 |
| SigV4.SortsShow | src/s3_reader.cpp:259-271 | the signed-header list never depends on the order; the canonical headers do not when headers of one name have the same trimmed value |
| SigV4.BuildAuthorization | src/s3_reader.cpp:254-290 | the value is that of some sort of the headers, and of every sort when headers of one name have the same trimmed value |
| SigV4.OrderDoesNotMatter | src/s3_reader.cpp:254-290 | requests that differ in the order of headers, those of one name with the same trimmed value, have the same canonical request, signed-header list and Authorization |
| SigV4.BuildersAgree | src/s3_reader.cpp:1155-1163 | the stream's and the client's header orders sort to the same list |
| SignatureFields.SignedByStream | src/s3_reader.cpp:1155-1163 | a window request signs host, range, payload hash and date, and the session token exactly when there is one |
| SignatureFields.SignedByClient | src/s3_reader.cpp:1755-1765 | a client request signs host, payload hash and date, the range exactly when one is read, and the session token exactly when there is one |
| SignatureFields.ScopeReads | src/s3_reader.cpp:276-277 | the parts of the scope between slashes are the first eight characters of the date, the region, the service and aws4_request |
| SignatureFields.KeyFollowsScope | src/s3_reader.cpp:244-252 | the signing key is the secret behind AWS4 chained through exactly those parts |
| SignatureFields.StringToSignReads | src/s3_reader.cpp:278-279 | the lines of the text that is signed are the algorithm, the date, the scope and the hash of the canonical request |
| SignatureFields.CanonicalTextReads | src/s3_reader.cpp:263-274 | the lines of the canonical request are verb, path and query, one for each header, an empty one, the signed headers and the payload hash |
| SignatureFields.SignedHeadersRead | src/s3_reader.cpp:267-270 | the signed-header list, split at semicolons, is the names in their order |
| SignatureFields.AuthorizationReads | src/s3_reader.cpp:288-289 | the Authorization value, split at blanks, is the algorithm, the key and scope, the signed headers and the signature |
| SignatureFields.TrimIsExact | src/s3_reader.cpp:44-51 | trimming drops the blanks and tabs around a value, all of them and nothing else |
| SignatureFields.LessIsFirstDifference | src/s3_reader.cpp:260-261 | names are ordered by the first character where they differ, a prefix first |
| HeaderOrder.OrderShows | src/s3_reader.cpp:259-271 | for every header list with values of one line: all sorts give the same canonical headers exactly when headers of one name have equal trimmed values |
| HeaderOrder.SameNameOrder | src/s3_reader.cpp:259-271 | the two-header list that shows it |
| Text.ParseU64 | src/s3_reader.cpp:1404-1421 | accepts exactly the non-empty digit strings whose value fits 64 bits, and returns that value |
| Text.DecimalReadsBack | src/s3_reader.cpp:1992-1996 | reading back a printed number gives it |
| Xml.XmlEscape | src/s3_reader.cpp:2195-2208 | the loop escapes character by character |
| Xml.Utf8ReadsBack | src/s3_reader.cpp:1423-1439 | a decoder that checks the marks of every byte, as section 3 of RFC 3629 gives them, reads a code point up to 0x10FFFF back exactly when it is no surrogate |
| Xml.OnlyUtf8ReadsBack | src/s3_reader.cpp:1423-1439 | and whatever that decoder accepts is the UTF-8 form written for what it reads |
| Xml.NumericReference | src/s3_reader.cpp:1462-1486 | the digit loop computes the reference's code point and its accumulator never overflows 32 bits |
| Xml.XmlUnescape | src/s3_reader.cpp:1442-1501 | the scan decodes entity by entity, each within its twelve-byte window |
| Xml.UnescapeInvertsEscape | src/s3_reader.cpp:2195-2208 | unescaping inverts escaping on every string |
| Xml.UnescapeReads | src/s3_reader.cpp:1442-1501 | however a text is written, each character raw, by name or by number, unescaping gives what it means |
| Xml.EscapeIsOneWay | src/s3_reader.cpp:2195-2208 | this program's escaping is one such way |
| Xml.NumericReferenceDecodes | src/s3_reader.cpp:1442-1501 | a decimal or hexadecimal reference that fits the window decodes to the UTF-8 form of its code point, in front of any text |
| Xml.CodePointDecodes | src/s3_reader.cpp:1442-1501 | in particular every code point as std::to_string writes it |
| Xml.HexCodePointDecodes | src/s3_reader.cpp:1467-1484 | so does every code point written in base 16, with digits and an x of either case |
| Xml.NoCodePointIsLeft | src/s3_reader.cpp:1484-1492 | a number above 0x10FFFF is left as it is written |
| Xml.FarSemicolonIsLeft | src/s3_reader.cpp:1450-1454 | an ampersand whose semicolon is more than twelve characters behind it, or missing, stands for itself |
| Xml.PredefinedEntities | src/s3_reader.cpp:1456-1465 | the five predefined entities stand for their characters, in front of any text |
| Xml.UnknownNameIsLeft | src/s3_reader.cpp:1493-1497 | any other name is left as it is written |
| Markup.FindPasses | src/s3_reader.cpp:1505-1520 | searching for a tag passes over every token that is not that tag |
| Markup.ElementFound | src/s3_reader.cpp:1505-1520 | the next element is the first one standing in the document, with its text and the position behind it |
| Markup.ElementMissing | src/s3_reader.cpp:1505-1520 | nothing is found when no such tag stands there |
| Query.UriEncodeComponent | src/s3_reader.cpp:1369-1384 | the loop encodes byte by byte |
| Query.DecodeInvertsEncode | src/s3_reader.cpp:1369-1384 | percent-decoding, section 2.1 of RFC 3986, inverts it on every byte string |
| Query.EncodeIsEncoded | src/s3_reader.cpp:1369-1384 | its output holds only unreserved bytes and percent signs |
| Query.LeftAsItIs | src/s3_reader.cpp:1373-1380 | a byte is left as it is exactly when it is a letter, a digit or one of - _ . ~; every other becomes three characters behind a percent sign |
| Query.ListQueryParses | src/s3_reader.cpp:1533-1543 | a server that splits at the delimiters reads exactly the parameters meant |
| Query.ListQueryInjective | src/s3_reader.cpp:1533-1543 | different (prefix, delimiter, token) give different queries |
| Query.ListParamsAscend | src/s3_reader.cpp:1533-1543 | its parameter names are in ascending order |
| Listing.ParseListPage | src/s3_reader.cpp:1546-1587 | appends exactly what the page says, or fails exactly for a malformed page |
| Listing.ContentsOnTheWire | src/s3_reader.cpp:1546-1570 | the object elements that the round trip below is about, as they stand in a reply |
| Listing.PrefixOnTheWire | src/s3_reader.cpp:1546-1587 | so the common prefixes |
| Listing.FlagOnTheWire | src/s3_reader.cpp:1546-1587 | the truncation flag |
| Listing.TokenOnTheWire | src/s3_reader.cpp:1546-1587 | and the continuation token |
| Listing.PageReadsBack | src/s3_reader.cpp:1546-1587 | parsing a rendered page gives exactly its keys, sizes, prefixes, flag and token, each character of a text written raw, by name, or by a reference that fits the twelve-byte window, and with any other markup around them |
| BadPages.BadObjectFails | src/s3_reader.cpp:1550-1563 | a page fails when one of its objects says no key, no size or no number of 64 bits, whatever children stand in front of it and whatever text follows |
| BadPages.BadPrefixFails | src/s3_reader.cpp:1566-1574 | so does a page with a common prefix that says none |
| Listing.List | src/s3_reader.cpp:2026-2076 | over every server whose chain of pages ends the loop ends with the concatenation of all pages; on any failure the caller's vectors are unchanged |
| BadPages.ListingIsWhole | src/s3_reader.cpp:2048-2075 | a listing that succeeds has followed the chain of truncated pages, each naming a new token, to one that is not truncated, and returns all of them; it is never partial |
| BadPages.ChainIsListed | src/s3_reader.cpp:2048-2075 | and whenever there is such a chain it succeeds |
| Listing.AdvancingEnds | src/s3_reader.cpp:2048-2075 | the chain ends for a server whose truncated pages name tokens of falling rank |
| Listing.TurningNeverEnds | src/s3_reader.cpp:2067-2070 | it never does for a server that names two tokens in turn |
| Listing.ListsEveryPage | src/s3_reader.cpp:2048-2075 | listing a server that renders its pages ends and returns the objects and prefixes of all of them, in order |
| Listing.EveryListingIsServed | src/s3_reader.cpp:2048-2075 | every listing has a server that serves it, and is returned whole |
| CredentialChain.CredentialProvider.Get | src/s3_reader.cpp:674-695 | what is returned and remembered, and exactly when the chain is walked |
| CredentialChain.LastFoundIsReturned | src/s3_reader.cpp:685-694 | over any history a get returns what the last walk that found something found, whatever was cached before, and nothing as long as no walk has |
| CredentialChain.RenewedInTime | src/s3_reader.cpp:677-694 | credentials within five minutes of their expiry or past it are replaced by what can be found, missing ones are except in the two seconds after a walk, and lasting ones never are |
| CredentialChain.ValidStaysValid | src/s3_reader.cpp:674-695 | once valid credentials are returned, every later result is valid |
| CredentialChain.WalksAreSpaced | src/s3_reader.cpp:677-684 | no walk while static or lasting credentials are cached; without any, two walks are at least 2 seconds apart |
| CredentialChain.WalksAreFew | src/s3_reader.cpp:680-684 | without any found, the number of walks is bounded by the time that passes |
| CredentialChain.ExpiringIsRetriedAtOnce | src/s3_reader.cpp:677-684 | within two seconds of a walk, over any history, the chain is walked again exactly when that walk left valid credentials within five minutes of their expiry |
| CredentialChain.ThreeWalks | src/s3_reader.cpp:677-684 | a history of three walks in one nanosecond, renewed in vain or by short-lived credentials |

## Left out

- libcurl options, TLS, timeouts, keep-alive and response header parsing: a request is its result code, status,
  body and the headers the code reads.
- The OpenSSL backend: only the bundled hash is modelled.
- Whether AWS accepts a signature, and the strength of the hash.
- Finding credentials: environment variables, INI files, helper processes and metadata endpoints are an oracle
  that gives valid credentials or nothing.
- URI splitting, `head`, `put` from memory and the option checks in front of the uploads: easy members.
- The walk of a directory and its symbolic links: the items are given.
- Error message wording, jitter below the backoff ceiling, and timing statistics.
- Objects or files that change during a run, processes that share a cache directory, and durability after a
  power loss.
- What a request whose response was lost did on the server beyond storing its part.
- An eviction whose removal fails: the program then repeats its scan for ever.
- The per-thread sharing of the error string: each stream has its own here.
- Thread creation that fails, and memory that runs out.
- Reader.S3Streambuf.SeekPos: positions so large that position plus read-ahead passes 2^64 are excluded.
- Listing.List: a server whose chain of pages never ends is excluded, as the loop then never returns.
- Playback.Play: other threads change the cache directory between the caller's operations, not between the load
  and the store of one operation; `CacheTruth` covers that interleaving.
- HeaderOrder.OrderShows: values with line breaks are excluded, as HTTP does; two of them can hide a difference.
- Parts.PartSizeIsRight: sizes are unbounded, so the wrap of size plus part size at 2^64 is not modelled.
- CacheLru.RunTrace: I/O failures of the cache are left to the contracts of TryLoad and Store.
