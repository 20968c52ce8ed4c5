# Caching HTTP proxy: the data layer

This project models the core of a caching HTTP/1.0 proxy and proves properties of the model. The core has three parts:

- **The stream cache** (`3/cache.c`). This is a hash table of records with one mutex per bucket, keyed by URL.
  - Each record holds a response stream. The stream is a growing array of fixed-size blocks, filled by one fetcher and read by any number of clients.
  - A reference count says who still holds the record: the table itself, plus one count per handle from `cache_acquire`.
  - Completed records sit on an LRU list. `try_evict_until_soft` drops records from the tail of that list whenever the completed bytes exceed the soft limit.
- **The client-side HTTP parser** (`3/http.c`).
  - It reads the request line and headers byte by byte, splits the request line as `sscanf("%7s %2047s %15s")` does, and takes the last `Host:` header.
  - It resolves an absolute-form URL or an origin-form path into host, port and path.
  - It writes the upstream `GET` request with `snprintf`, truncation included.
- **The worker pool** (`3/threadpool.c`): a bounded ring buffer of jobs, the worker loop that runs jobs until it pops a poison job, and shutdown by one poison job per worker.

## How the model is organised

| Module (file) | What it holds |
|---|---|
| `Bits` (`bits.dfy`) | `uint64` arithmetic on naturals below 2^64: exclusive-or and and bit by bit, and reduction mod 2^64. |
| `Hashing` (`hashing.dfy`) | `fnv1a64` and `bucket_of`, plus the guard of `cache_init`. |
| `Blocks` (`blocks.dfy`) | The block store of a record, as values: a block is its `used` count and its `BLOCK_SZ` bytes. A ghost `content` gives the stream the blocks hold. |
| `Records` (`record.dfy`) | The class `Record`: the fields of `record_t` that the methods update in place. |
| `Chains` (`chains.dfy`) | The bucket chains, stated against a ghost map from key to record. |
| `Lru` (`lru.dfy`) | The doubly linked LRU list. Its `prev`/`next` links are maps; an index-based ghost sequence says which list they describe. |
| `CacheState` (`state.dfy`) | `View`, a value snapshot of the whole cache; its invariant `Good`; one step function per operation, each with a lemma that the step keeps `Good`. |
| `Eviction` (`evict.dfy`) | One step of eviction, as a step function with its lemmas, and what the passes of the loop leave alone. |
| `Teardown` (`teardown.dfy`) | `cache_destroy`, as a function of the view. |
| `StreamCache` (`cache.dfy`) | The class `Cache` (the fields of `cache_t`). Each public method is proved to move `Abstract()` by the matching step function. |
| `Http` (`http.dfy`) | The input is a sequence of events: a byte, end of file, or an error. Contains `read_line` (a method over a `char` array), the request parser, `parse_url` and the upstream request. |
| `ThreadPool` (`threadpool.dfy`) | The class `JobQueue` over an `array<Job>`, the worker loop, and the class `Pool`. |

The constants match `3/config.h` and the sources:

| Constant | Value | Where it is used |
|---|---|---|
| `BLOCK_SZ` | 65536 | block size |
| first capacity of the block-pointer array | 4, then doubled | `rec_append` |
| FNV prime | 1099511628211 | `fnv1a64` |
| line buffer | 4096 | request and header lines |
| `Host` buffer | 1024 | `host_from_hdr` |
| word widths | 7, 2047 and 15 | the request line's `sscanf` |
| default port | 80 | `parse_url` and host resolution |

## Model

| member | source | states |
|---|---|---|
| Hashing.HashKey | 3/cache.c:47-54 | The loop computes `Fnv1a64(key)`: starting from the FNV-1a offset basis (the corrected value, see Findings), for each byte, xor it into the hash, then multiply by the FNV prime modulo 2^64. The result fits in 64 bits. |
| Hashing.Fnv1a64TestVector | 3/cache.c:47-54 | With the FNV-1a offset basis, the hash of "a" is the published FNV-1a 64-bit value 0xaf63dc4c8601ec8c. |
| Hashing.AsWrittenMissesTestVector | 3/cache.c:48 | With the basis as written in the source, the hash of "a" is 0x44bd8ad473cd9906. That is not the FNV-1a value. |
| Hashing.BucketInRange | 3/cache.c:45 | For any non-zero bucket count, `h & (nbuckets-1)` is a valid bucket index. |
| Hashing.BucketIsRemainder | 3/cache.c:45 | For a power-of-two bucket count, the mask picks `h mod nbuckets`. |
| Hashing.ZeroBucketsAcceptedAsWritten | 3/cache.c:96-97 | The guard as written accepts 0 buckets, which the corrected guard refuses. The mask `0 - 1` is then all ones, so `bucket_of` returns the whole hash: an index into a table with no buckets. |
| Hashing.InitGuardMeansPow2 | 3/cache.c:96-97 | The corrected guard accepts exactly the powers of two. It agrees with the source's guard on every non-zero count, and under it `bucket_of` is in range and equals the remainder. |
| Blocks.EmptyBlock | 3/cache.c:282 | A freshly allocated block has `used == 0` and `BLOCK_SZ` bytes of data. |
| Blocks.NextCapacity | 3/cache.c:271-272 | Growing the block-pointer array gives a strictly larger capacity. Starting at 4 and doubling keeps to the capacities "0, 4, 8, 16, …". |
| Blocks.BlockRun | 3/cache.c:347-362 | Take an offset below the total of a well-shaped block store. Block `off / BLOCK_SZ` holds a non-empty run from `off % BLOCK_SZ` up to its `used` count, and that run is exactly the stream's bytes from `off`. The run ends at the total or at a block boundary. |
| Blocks.Poke | 3/cache.c:298-302 | Copying `bytes` into a block at offset `bo` puts them at `bo…`, raises `used` to `bo + |bytes|` when that is larger, and leaves every other byte unchanged. |
| Blocks.CopyStep | 3/cache.c:293-307 | One iteration of the copy loop extends the stored stream by `take` bytes of the buffer and keeps the block store well shaped. |
| Blocks.GrowKeepsShape | 3/cache.c:282-288 | Adding an empty block keeps the shape and the stored stream. |
| Records.Record.constructor | 3/cache.c:69-83 | A new record has the given key, `keep_on_complete` set and reference count 1. No flag is set, it has no blocks, and its stream is empty. |
| Records.Record.WaitChunk | 3/cache.c:340-377 | A chunk is returned exactly when `off < total`. It is non-empty, ends at the total or at a block boundary, and equals the stream from `off`. Otherwise the result is `Canceled` if the record is canceled, else `Done` if it is completed, else `WouldBlock`: the point where the source waits on its condition. |
| Records.Record.ReadAt | 3/cache.c:347-363 | The run at an offset below the total is the stream's bytes from there, up to the end of that block. |
| Records.Record.DropOne | 3/cache.c:179 | The reference count drops by one and nothing else in the record changes. |
| Records.Record.Join | 3/cache.c:161-168 | The reference count rises by one. The caller becomes the fetcher exactly when the record is not completed, not canceled and has no fetcher. |
| Records.Record.Cancel | 3/cache.c:333-335 | The record is canceled and has no fetcher. Nothing else changes. |
| Records.Record.Complete | 3/cache.c:315-317 | The record is completed and has no fetcher. Nothing else changes. |
| Records.Record.Unlist | 3/cache.c:195 | `in_lru` is cleared. |
| Records.Record.List | 3/cache.c:206 | `in_lru` is set. |
| Records.Record.Size | 3/cache.c:380 | `rec_size` is the length of the stored stream. |
| Records.Record.AppendBytes | 3/cache.c:269-308 | The append succeeds exactly when the allocations the growth loop needs fit the allocation budget. On success the stream is the old stream followed by `buf`. On failure the stream is unchanged. The block store stays well shaped either way. |
| Records.Record.Grow | 3/cache.c:269-289 | It succeeds exactly when the needed allocations fit the budget. Then the blocks cover `need` bytes. Blocks and capacity never shrink. |
| Records.Record.CopyIn | 3/cache.c:290-308 | Into blocks that cover the room, the copy loop appends `buf` to the stream and leaves the number of blocks alone. |
| Chains.ChainsFind | 3/cache.c:137-142 | In the key's bucket, the first node with the same hash and key exists exactly when the key is in the table, and that node holds the table's record. |
| Chains.ChainsHoldRecord | 3/cache.c:228-245 | A record in the table has a node in its bucket, and that node carries its key. The scan of `try_evict_until_soft` therefore finds it. |
| Chains.ChainsInsert | 3/cache.c:146-152 | Pushing a new node at the head of the key's bucket keeps the chain/table invariant, with the key added to the table. |
| Chains.ChainsRemove | 3/cache.c:231 | Unlinking a node keeps the invariant, with its key removed from the table. |
| Chains.FindRec | 3/cache.c:229-245 | The index of the first node holding `r`; the chain's length when no node holds it. |
| Chains.NodeUnique | 3/cache.c:145-153 | Under the invariant, a record sits in at most one node of the whole table. |
| Lru.Neighbours | 3/cache.c:183-196 | In a well-linked list, `r` has no `prev` exactly at the head and no `next` exactly at the tail. Otherwise its neighbours sit at the adjacent positions. |
| Lru.UnlinkKeepsLinks | 3/cache.c:186-194 | Relinking around `r`, with head and tail moved when `r` was one of them, leaves a well-linked list: the old list without `r`. |
| Lru.LinkKeepsLinks | 3/cache.c:199-205 | Linking `r` in at the head, and at the tail too if the list was empty, gives a well-linked list: `r` followed by the old list. |
| CacheState.EmptyGood | 3/cache.c:98-107 | An initialised cache meets the invariant. |
| CacheState.Listed | 3/cache.c:322-324 | A record on the LRU list is live, in the table, completed and marked `in_lru`. Its count is one more than its handles: the table's own reference. |
| CacheState.BytesWithout | 3/cache.c:223 | Removing a record from the list takes exactly its total off the completed-bytes sum. |
| CacheState.BytesCons | 3/cache.c:323 | Pushing a record adds exactly its total to that sum. |
| CacheState.CancelGood | 3/cache.c:331-338 | `rec_cancel` keeps the invariant. |
| CacheState.AppendGood | 3/cache.c:258-312 | A store into a record keeps the invariant. |
| CacheState.AcquireHitGood | 3/cache.c:156-168 | A hit adds a handle and a reference, possibly grants the fetcher role, and keeps the invariant. |
| CacheState.AcquireMissGood | 3/cache.c:145-168 | A miss publishes a new record with reference count 2 (table plus handle) and the fetcher role, and keeps the invariant. |
| CacheState.ReleaseGood | 3/cache.c:176-181 | `cache_release` of a held handle keeps the invariant. |
| CacheState.ReleaseLast | 3/cache.c:179-180 | When the last reference goes, the record is freed and the invariant still holds. |
| CacheState.UnlinkedOK | 3/cache.c:183-196 | `lru_remove` leaves the list without `r`, takes `r`'s total off the list's byte sum and clears `in_lru`. |
| CacheState.PushedOK | 3/cache.c:198-207 | `lru_push_front` puts `r` first, adds its total to the list's byte sum and sets `in_lru`. |
| CacheState.TouchGood | 3/cache.c:209-216 | `rec_touch_lru` keeps the invariant. A listed record moves to the front; any other record leaves the list alone. |
| CacheState.TouchList | 3/cache.c:211-214 | Moving a listed record to the front keeps the set of listed records, their states and the byte sum. |
| CacheState.FinishGood | 3/cache.c:314-329 | `rec_finish` keeps the invariant. |
| Eviction.TailListed | 3/cache.c:220-221 | The tail of a non-empty list is its last record. It is live, in the table and completed, and its count includes the table's reference. |
| Eviction.EvictedIsPass | 3/cache.c:221-245 | One eviction pass is: unlink the tail, take off its bytes, find its node in its bucket, unchain it and drop the table's reference. That node exists. |
| Eviction.EvictedRecs | 3/cache.c:221-245 | After one eviction, the list is the old list without its tail and the key has left the table. The tail is freed exactly when its count was 1; otherwise its count drops by one and it is unlisted. |
| Eviction.EvictOneGood | 3/cache.c:220-252 | One eviction keeps the invariant. It removes the last list entry and its bytes, removes the key, and frees the record exactly when the table held the last reference. |
| Eviction.KeptStart | 3/cache.c:218-220 | Before the loop's first pass, every live record and every table entry is kept. |
| Eviction.KeptOne | 3/cache.c:221-245 | A pass on the tail leaves every other live record live with the same state, and every table entry of another record in place. Only the tail joins the records taken off. |
| Eviction.KeptStore | 3/cache.c:263-311 | A store into the appending record, or a refusal, leaves every other live record and every other table entry as the eviction left it. |
| Eviction.EvictNext | 3/cache.c:220-253 | Across the loop, each pass shortens the list by one and keeps the evicted prefix trimmed from the start list. A pass that freed its record marks where the loop returns. |
| Teardown.DropAllEffect | 3/cache.c:117-119 | Dropping one reference per node frees exactly the records whose count reaches zero. Every other record only loses those references. |
| Teardown.NodeOrderMembers | 3/cache.c:112-123 | Walking the buckets in order, and each chain from its head, meets exactly the records that have a node. |
| Teardown.NodeOrderDistinct | 3/cache.c:112-123 | That walk meets each record once. |
| Teardown.GoodNodes | 3/cache.c:112-123 | Under the invariant, the walk meets exactly the records in the table. |
| Teardown.SweepStep | 3/cache.c:115-122 | Each node visited holds a record that is still live, and visiting it drops one reference. |
| Teardown.SweepBucket | 3/cache.c:112-127 | Sweeping bucket `i` empties it and moves the sweep to bucket `i + 1`. |
| Teardown.DestroyedLive | 3/cache.c:111-131 | After `cache_destroy`, a record survives exactly when some handle still holds it, and its count is then its number of handles. |
| Teardown.DestroyedShape | 3/cache.c:111-131 | After `cache_destroy`, every bucket is empty and the table is empty. No record is created and the handles are untouched. |
| StreamCache.Cache.Init | 3/cache.c:95-110 | Returns -1 unless the bucket count is a non-zero power of two. Otherwise it returns an empty cache that meets the invariant, with its limits set and every counter at zero. |
| StreamCache.Cache.constructor | 3/cache.c:98-107 | The initialised cache: empty buckets, an empty LRU list, no completed bytes and zero counters. |
| StreamCache.Cache.Lookup | 3/cache.c:134-142 | Computes the key's hash and bucket, then scans the chain. The index is below the chain's length exactly when the key is cached, and then the node holds the key and its record. |
| StreamCache.Cache.Acquire | 3/cache.c:133-174 | On a hit: returns the cached record and counts a hit; the caller becomes the fetcher exactly when the record is not completed, not canceled and has no fetcher. On a miss: a fresh record with the key is published, the caller is its fetcher, and a miss is counted. Either way the caller holds a handle and the invariant holds. |
| StreamCache.Cache.HitSteps | 3/cache.c:156-168 | A hit adds a handle and a reference and grants the fetcher role as `Join` does. |
| StreamCache.Cache.MissSteps | 3/cache.c:145-155 | A miss creates a fresh record for the key with `keep_on_complete` set and publishes it as a new node at the head of its bucket. |
| StreamCache.Cache.Release | 3/cache.c:176-181 | Releasing `NULL` changes nothing. Otherwise the handle goes, the count drops by one, and the record is freed exactly when that was the last reference. The invariant holds. |
| StreamCache.Cache.Drop | 3/cache.c:179-180 | It frees exactly when the old count was 1. |
| StreamCache.Cache.LruRemove | 3/cache.c:183-196 | Updates the links, head and tail so that the list is the old list without `r`, and clears `in_lru`. |
| StreamCache.Cache.LruPushFront | 3/cache.c:198-207 | Updates the links, head and tail so that the list is `r` followed by the old list, and sets `in_lru`. |
| StreamCache.Cache.Touch | 3/cache.c:209-216 | A listed record moves to the front of the list and nothing else moves. An unlisted record leaves the list alone. The invariant holds. |
| StreamCache.Cache.FindNode | 3/cache.c:228-245 | The scan stops at the first node holding `r`. |
| StreamCache.Cache.Unchain | 3/cache.c:231 | The node is cut out of its chain and its key leaves the table. |
| StreamCache.Cache.EvictOne | 3/cache.c:221-252 | Evicts the list's tail as `EvictedOne` says and counts one eviction. It reports `freed` exactly when the table held the last reference. |
| StreamCache.Cache.EvictUntilSoft | 3/cache.c:218-256 | The list loses only entries from its tail, one eviction counted per entry, and handles are untouched. On exit: the completed bytes are within the soft limit, or the list is empty, or the last pass freed its record (the source returns there). Every evicted record not so freed is still live. Every live record that was not evicted is still live with the same state, and every table entry for such a record is still there (`KeptBut`). The invariant holds. |
| StreamCache.Cache.Append | 3/cache.c:258-312 | For an empty buffer: returns 0 and changes nothing. Otherwise it first evicts as `try_evict_until_soft` does. It stops where that loop stops: within the soft limit, with an empty list, or after a pass that freed its record. Every record and table entry other than `r` and the records taken off the list is unchanged. Then it returns 0 exactly when the record is neither canceled nor completed and the growth fits the allocation budget. On 0 the stream gains `buf`; on -1 it is unchanged. The invariant holds. |
| StreamCache.Cache.Store | 3/cache.c:269-308 | The store succeeds exactly when the allocations fit the budget. Then the record's stream gains `buf`; otherwise it is unchanged. The view changes only in that record's total. |
| StreamCache.Cache.Finish | 3/cache.c:314-329 | The record becomes completed without a fetcher. With `keep_on_complete`, its total joins the completed bytes, it is pushed at the LRU front and one store is counted. The invariant holds. |
| StreamCache.Cache.Keep | 3/cache.c:322-326 | Adds the record's total to the completed bytes, pushes it at the front and counts one store. |
| StreamCache.Cache.Cancel | 3/cache.c:331-338 | The record is canceled without a fetcher, and the invariant holds. |
| StreamCache.Cache.Destroy | 3/cache.c:111-131 | The new view is `Destroyed` of the old one: one reference dropped per node and every bucket emptied. The lemmas `DestroyedLive` and `DestroyedShape` state what that leaves. |
| StreamCache.Cache.SweepAll | 3/cache.c:112-127 | The bucket loop sweeps every bucket, in order. |
| StreamCache.Cache.SweepChain | 3/cache.c:114-123 | The chain loop drops one reference per node of bucket `i`, then empties it. |
| Http.ReadLine | 3/http.c:12-34 | The return is -1 on a read error, 0 at end of file before a line, and otherwise the line's length. A line ends after CR LF, or when the buffer is full with `cap - 1` bytes. Its bytes are in `buf[..n]` followed by a NUL, and the rest of the input is returned. |
| Http.ScanShape | 3/http.c:14-33 | A line read is at most `cap - 1` bytes. It ends in CR LF or fills the buffer, has no earlier CR LF, and is followed by exactly the remaining input. Without a line, the input held no CR LF and under `cap - 1` bytes. The result is end of file exactly when no read failed. |
| Http.LineOfBytes | 3/http.c:14-30 | Bytes that form a line are read back as that line, and the rest of the input is kept. |
| Http.ScanWord | 3/http.c:73 | A `%Ns` conversion skips leading white space and takes at most `N` non-space characters. It ends at white space or at the width. It fails exactly when only white space is left. |
| Http.RequestLineWords | 3/http.c:70-78 | A split request line has a method of 1..7 characters, a URL of 1..2047 and a version of 1..15, none containing white space. |
| Http.SkipBlanks | 3/http.c:94-95 | Drops exactly the leading spaces and tabs: the result is a suffix, every character dropped is a space or a tab, and the result does not start with either. |
| Http.LineSpan | 3/http.c:96 | `strcspn(p, "\r\n")`: the length of the run before the first CR or LF. |
| Http.HostValue | 3/http.c:92-103 | A value is taken only from a line starting with `Host:` in any case. The value is 1..1023 characters, contains no CR or LF, and is cut to 1023 characters. |
| Http.HostCaseBlind | 3/http.c:92 | Lines that differ only in the case of `Host` give the same value. |
| Http.HostCut | 3/http.c:97-101 | A host value of 1024 characters or more is cut to its first 1023. |
| Http.ReadHeaders | 3/http.c:84-104 | A new host is taken from the headers only if it fits the 1024-byte buffer and contains no CR or LF. |
| Http.HeadersCutWhen | 3/http.c:84-91 | The headers are cut short (-4) exactly when some read gives end of input or an error while every line before it is a header line, that is, before a line whose C string is `\r\n`. |
| Http.HeaderStep | 3/http.c:85-103 | A header line sets the host when it is a `Host:` line with a value, and leaves it otherwise. |
| Http.HeaderEnd | 3/http.c:90-91 | The empty line ends the headers with the host found so far. |
| Http.LastHostWins | 3/http.c:92-103 | Of two `Host` lines in a row, the second one's value is used. |
| Http.Find | 3/http.c:39-41 | The index of the first `x`; the length when there is none. |
| Http.TargetShape | 3/http.c:36-62 | The target is absolute-form exactly for `http://…`; its host has no `:` or `/`, and its path starts with `/`. Otherwise it is origin-form exactly for a URL starting with `/`, and the path is the URL. Anything else is refused. |
| Http.AuthorityShape | 3/http.c:37-56 | An absolute-form target's host has neither `:` nor `/`, and its path is `/` or starts with `/`. |
| Http.ParseUrlPort | 3/http.c:37-56 | Round trip: `http://` + host + `:` + port + path parses back to that host, port and path, with path `/` when it is empty. |
| Http.ParseUrlNoPort | 3/http.c:37-56 | Without a port, it parses back to the host, port 80 and the path. |
| Http.AtoiShow | 3/http.c:45 | `atoi` reads a written decimal number back, up to the first non-digit. |
| Http.OriginForm | 3/http.c:57-59 | A URL starting with `/` is the path itself. |
| Http.SplitHost | 3/http.c:111-119 | The host kept is a prefix of the header's value, and it has no `:`. |
| Http.SplitHostBack | 3/http.c:111-119 | `host:port` splits back into the host and that port; a host without `:` gets port 80. |
| Http.ResolveCodes | 3/http.c:106-122 | The target is resolved to 0, -5 or -6. It is -6 exactly when the target is unparsed, and -5 exactly for an origin-form target with no `Host` header. The request words are kept. On 0 the path starts with `/` and the host has no `:`. The host and port come from an absolute URL, or from the `Host` header, whose bounds the host keeps. |
| Http.RequestCodes | 3/http.c:64-125 | The return is one of 0 to -6. It is -1 exactly when no line can be read, and -2 exactly when the line read does not split into three words; with either, the request stays blank. From -3 on, the request holds the request line's words, within their widths. It is -3 exactly for a method other than `GET`, and -4 exactly for a `GET` whose headers are cut short. After the headers end, it is -5 exactly for an origin-form target with no Host value, and -6 exactly for a target `parse_url` refuses. On 0: a `GET` for a path starting with `/`, from a host without `:` that fits its buffer when it came from a header. |
| Http.ParseClientRequest | 3/http.c:64-125 | Reads the request line into a 4096-byte array and loops over header lines until the empty line. It returns what `ParseRequest` of the input gives, whose codes `RequestCodes` states. |
| Http.BuildUpstreamGet | 3/http.c:127-139 | Returns the full length of the request, as `snprintf` does. The text written is a prefix of the request: all of it when it fits in `cap`, and otherwise `cap - 1` characters (none for `cap == 0`). |
| Http.GetLineSplits | 3/http.c:73 | The request line the proxy writes for a path splits back into `GET`, that path and `HTTP/1.0`. |
| Http.HostLineValue | 3/http.c:92-103 | The `Host` line the proxy writes is read back as that host. |
| Http.FixedLinesNoHost | 3/http.c:133-134 | The `Connection` and `User-Agent` lines set no host. |
| Http.UpstreamGetParses | 3/http.c:127-139 | Round trip: for a well-formed path and host, the upstream request, parsed as a client request, gives 0 and a `GET` of that path. Its host and port are those of the host text. |
| ThreadPool.JobQueue.constructor | 3/threadpool.c:6-17 | An empty queue of capacity `cap` with head, tail and count at 0, over zeroed jobs. |
| ThreadPool.RingPush | 3/threadpool.c:32-34 | Writing at the tail slot and advancing modulo the capacity appends the job to the queue's contents. |
| ThreadPool.RingPop | 3/threadpool.c:47-49 | Reading at the head slot and advancing modulo the capacity takes the first job off the contents. |
| ThreadPool.JobQueue.Push | 3/threadpool.c:27-40 | On a full queue it blocks and changes nothing. Otherwise the job is stored at the tail, the tail advances modulo the capacity, the count rises by one, and the contents gain the job at the end. |
| ThreadPool.JobQueue.Pop | 3/threadpool.c:42-55 | On an empty queue it blocks. Otherwise it returns the head job, which is the first of the contents; the head advances modulo the capacity and the contents lose their first job. |
| ThreadPool.Fifo | 3/threadpool.c:27-55 | After any pushes and pops: the jobs popped, followed by those still queued, are the start queue followed by the jobs the pushes got in. The queue never exceeds its capacity. |
| ThreadPool.FirstPoison | 3/threadpool.c:59-63 | The index of the first poison job, with no poison before it. |
| ThreadPool.Worker | 3/threadpool.c:57-69 | The worker runs the jobs before the first poison job, in queue order. It stops exactly when it pops a poison job, consuming that one job and no more. |
| ThreadPool.Poisons | 3/threadpool.c:103-108 | `n` poison jobs. |
| ThreadPool.StopsAtPoison | 3/threadpool.c:62-63 | Behind jobs that are not poison, the first poison is the first of the poison jobs, and the ones after it remain. |
| ThreadPool.WorkersAreWorker | 3/threadpool.c:57-69 | Running `w` workers one after another is one `Worker` run (the jobs before the first poison job, then the queue past that poison job, or empty), followed by the other `w - 1` on the queue it leaves. Only a worker that popped a poison job stops. |
| ThreadPool.Shutdown | 3/threadpool.c:103-112 | With `n > 0` poison jobs behind queued ordinary jobs, `n` workers run every queued job in order, all `n` stop, and the queue is left empty. |
| ThreadPool.Pool.constructor | 3/threadpool.c:71-87 | A pool with its worker count and an empty queue of the given capacity. |
| ThreadPool.Pool.Submit | 3/threadpool.c:94-101 | Pushes one job, not a poison, with the given function and argument. It blocks exactly when the queue is full. |
| ThreadPool.Pool.PoisonAll | 3/threadpool.c:103-108 | Appends one poison job per worker while there is room. The number pushed is the smaller of the worker count and the free slots. |

## Left out

- Threads, mutexes and condition variables are left out. Each cache operation is one atomic step.
  - `pthread_cond_wait` in `rec_wait_chunk` becomes the `WouldBlock` result.
  - A blocked `jq_push` or `jq_pop` returns `blocked` and changes nothing.
  - The `pthread_create` of `tp_init` and the `pthread_join` of `tp_poison_and_join` are not modelled.
- `jq_destroy` and `tp_destroy` only free memory and destroy locks. They are not modelled.
- The pool's job function and argument are opaque numbers; `j.fn(j.arg)` is the worker appending the job to `ran`. A poison job's function and argument are 0 (the source leaves them unset).
- ThreadPool.JobQueue.constructor: requires `cap > 0`. `calloc(0)` and the `% 0` of a zero-capacity queue are not modelled, and a failed `calloc` is not modelled.
- ThreadPool.Pool.PoisonAll: pushes while there is room, where the source blocks until workers make room. The blocking half is what `Push` models.
- Memory is not modelled: `malloc` and `calloc` results, `free`, and the strings `strdup_safe` makes.
  - A record's "freed" state is its absence from the ghost `live` set.
  - Record creation and node allocation do not fail (`rec_create` returning `NULL` is not modelled).
- The allocations of `rec_append` (the `realloc` of the pointer array, then the block `calloc`) are counted against an `allocs` budget parameter. The model fails exactly when the budget is too small.
- In the model, the LRU links `prev` and `next` of a record are maps in the cache object rather than fields of the record.
- Counters are relaxed atomics in the source; the model writes them at the end of each operation. The exception is `evicts`, which is counted per pass.
- On a miss, the model creates the record, joins it (reference count 2, fetcher role) and publishes it in its bucket in one atomic step. The source is not atomic here:
  - only the reference increment (`3/cache.c:161`) happens under the bucket lock;
  - the creator's `is_fetcher = 1` is set earlier, at line 155;
  - `has_fetcher` is granted after the bucket is unlocked, under the record's own mutex (lines 164-168);
  - a concurrent hit in that window can also take the fetcher role, so two callers are both told they are the fetcher. The atomic model does not show that interleaving.
- Hashing.HashKey: hashes from the FNV-1a offset basis 14695981039346656037, not the 1469598103934665603 written at `3/cache.c:48` (see Findings). A key's bucket in the model therefore differs from its bucket in the program. No cache property depends on the basis; the hash as written is `Fnv1a64AsWritten`.
- StreamCache.Cache.Init: refuses a bucket count of 0, which the source's guard accepts and then returns 0 for (`3/cache.c:96-97`, see Findings). The guard as written is `InitGuardAsWritten`.
- `rec_wait_chunk`'s `avail == 0` branch (`3/cache.c:351-358`), which steps to the next block, is not in `Records.Record.ReadAt` and `Records.Record.WaitChunk`. Under the block-store invariant it cannot be taken: `Blocks.BlockRun` proves the run at any offset below the total non-empty.
- StreamCache.Cache.EvictUntilSoft: eviction after the freeing pass is not modelled as memory.
  - When a pass frees its record, the source returns without freeing the unchained node (`3/cache.c:232-237`). The model only unchains it.
  - The reload of `refcnt` after unlocking the bucket (`3/cache.c:248-252`) only sees another thread's release, so it is not modelled.
- StreamCache.Cache.Destroy: the model empties each bucket's chain, where the source frees the nodes but leaves the heads dangling. The ghost table is cleared too. The LRU fields and the counters are untouched in both.
- `rec_key` returns the record's constant key, which is the `key` constant of `Record`. `rec_is_completed` reads the `completed` field; it is that field.
- Integer widths: `size_t` totals and reference counts are unbounded.
  - `atoi` overflow on long port strings is not modelled.
  - The `int` port of `parse_url` is `Atoi`'s unbounded value.
- `parse_url` copies the authority into the 1024-byte `req->host` without a bound. A URL whose host part is 1024 characters or more overflows it (the request line allows 2047). The model keeps the whole host.
- Http.ReadLine: requires a buffer of at least 2 characters. The source's only caller passes 4096. `read` is modelled as a sequence of events (a byte, end of file, an error), and an `EINTR` retry is a byte-less event that is skipped.
- Http.BuildUpstreamGet: `snprintf` is modelled on strings. The port is not written into the upstream `Host` line, in the model as in the source.
- Http.SplitRequestLine, Http.ParseRequest and Http.Resolve carry no contracts of their own. Their properties are the lemmas `RequestLineWords`, `RequestCodes` and `ResolveCodes`.
- Logging, sockets, `main.c` and the proxy's connection handling are outside this core.

## Findings

| source | as written | input that shows it | evidently intended | confidence | as-written member | corrected member |
|---|---|---|---|---|---|---|
| 3/cache.c:48 | offset basis 1469598103934665603, the FNV-1a basis 14695981039346656037 with its last digit dropped | key "a": the hash is 0x44bd8ad473cd9906 instead of FNV-1a's 0xaf63dc4c8601ec8c | the FNV-1a 64-bit offset basis 14695981039346656037 | not executed | Hashing.AsWrittenMissesTestVector | Hashing.Fnv1a64TestVector |
| 3/cache.c:96-97 | `(nbuckets & (nbuckets-1)) != 0` is the only check, so 0 passes | `cache_init(c, 0, soft)` returns 0, then `bucket_of` masks with `0 - 1` = all ones and indexes an empty table | refuse a bucket count of 0 as well | not executed | Hashing.ZeroBucketsAcceptedAsWritten | Hashing.InitGuardMeansPow2 |
