# VHttp server, verified

A Dafny model of the four libraries the VHttp server is built from, and proofs about them: the open-addressing
hash table (`vhash_table.c`), the string and split library (`vstring.c`), the request-head parser that works inside
the receive buffer (`http_request.c`), and the thread pool (`vthread_pool.c`). `dafny verify dfyconfig.toml` checks
the whole project.

## How the model is laid out

| file | what it holds |
|---|---|
| `Basics.dfy` | bytes, C strings, character classes |
| `Probing.dfy`, `TableSpec.dfy`, `Removal.dfy`, `Iteration.dfy` | djb2, linear probing, the table's operations as functions of its slots and its counter, and their theory |
| `HashTable.dfy` | the table and its iterator as objects, each method proved against those functions |
| `Splitting.dfy`, `Trimming.dfy` | the separator matcher, true splitting, trimming and searching, as functions of a text |
| `VStrings.dfy` | the string builder and the functions that read or rewrite a view of a buffer |
| `PercentCoding.dfy`, `HttpSpec.dfy` | percent-decoding; what one call of the parser computes from the bytes of the buffer |
| `HttpRequest.dfy` | the parser itself, trimming and NUL-terminating header values in place |
| `Framing.dfy`, `RoundTrip.dfy` | where the head ends, the in-place parse as a pure one, and the print/parse round trip |
| `TaskRing.dfy`, `ThreadPool.dfy` | the task ring and the pool's critical sections as objects |
| `PoolSteps.dfy`, `PoolSafety.dfy`, `PoolProgress.dfy`, `PoolWaiting.dfy` | the pool as a step system, and what holds in every run of it |
| `PoolRuns.dfy`, `PoolStranding.dfy` | runs put together from pieces, and exactly which lists of tasks can leave a call asleep or a task in the ring |

The three libraries that change objects are modelled as classes over arrays whose methods are proved against pure
functions; the theorems are about those functions. The pool's critical sections are methods too; the step system
uses the same functions, so a step is what the method does.

Conventions of the model:

- Bytes are 0..255. Lengths, indices and capacities are unbounded. `Count` of the hash table is decremented with
  64-bit wrap-around, djb2 wraps at 64 bits, and the pool's working counters wrap at 32 bits.
- A key is a byte string without NUL; the parser's keys go through a C string first, so a NUL in a header name cuts it.
- A view is a pair of start and length in a buffer. A view that the source lets run past its line does so here.
- The arrays that receive the pieces of a split have one cell more than in the source, because the last piece may be
  written behind the last cell (`Splitting.OverflowIff` says exactly when). The same holds for the one-byte overrun
  when a header key is terminated (http_request.c:81-83).
- A `requires` of a method states what the C code needs in order to be defined: that its probe stops, that its views
  lie in the buffer, that a view to be trimmed has a byte to keep.

## What the code does not do as documented

- `Rehash` sets `Count` to zero and never restores it, so `VHashTable_Count` is too small from then on
  (`TableSpec.CountAfterInsertions`), a table created with capacity C takes exactly 2C distinct keys and the next one
  makes the probe loop run forever (`TableSpec.FreshTableTheorem`), and an iteration misses C keys
  (`Iteration.IterationAfterInsertions`). All but the endless insertion sets in with the first insertion after the C-th
  distinct key.
- `Get` is to give the null pointer for a key that is not stored, and so is `Remove`. In a full table neither returns
  (`Removal.LookupIff`): after insertions alone that is so when the distinct keys are exactly C and the table has not
  rehashed, or exactly 2C (`TableSpec.LookupAfterInsertions`), as with 16 or 32 distinct header names
  (`RoundTrip.HeadersStored`).
- `Remove` frees a slot without closing the gap: later keys of the same run are lost
  (`Removal.LookupAfterRemoval`), and inserting such a key again stores it twice, unless that insertion rehashes the
  table and so repairs it (`Removal.InsertAfterRemoval`). It does so when `Count` was zero before the removal, as it can
  be on a rehashed table (`Removal.RehashLeavesZero`): the decrement wraps to the largest 64-bit value
  (`Removal.CountAfterRemoval`, `Removal.RehashAfterRemovalIff`).
- The separator matcher does not look again at a mismatching byte, so it misses a CRLF behind an even run of CRs
  (`Splitting.CrlfMatcherIff`), where the caller's search finds it (`Framing.FramingsDisagree`).
- A plus sign in a URL decodes to a space followed by a plus sign, so decoding is the decoding of forms exactly on URLs
  without plus signs (`PercentCoding.PlusIff`, `PercentCoding.DecodeIsForm`).
- Any token of at most seven bytes that begins with a method name counts as that method, `OPTIONS` as none
  (`HttpSpec.MethodOfView`), and any prefix of `HTTP/1.1`, the empty one included, counts as the version
  (`HttpSpec.VersionIff`).
- `CopyCString` into a string that is not empty yields zeros (`VStrings.CopiedIff`).
- `Wait` can return while a task is taken but not yet counted, in a pool of any number of threads exactly when some task
  has a procedure (`PoolStranding.EarlyReturnIff`).
- In a pool made with n threads, and until an infinite task with a procedure (an endless one) returns:
  `Wait` can sleep exactly when some task is endless (`PoolStranding.WaiterServedIff`); a caller of `AddTask` can stay
  blocked exactly when there are more than n tasks and at least n of them are endless or without a procedure
  (`PoolStranding.CallerStrandedIff`), and whatever returns when at least n have no procedure
  (`PoolStranding.RoomComesIff`); and a task can stay queued, although its call and all others have returned, exactly
  when there are more than n tasks and at least n of them are endless (`PoolStranding.StarvedIff`). The last happens
  because a thread that has taken an endless task but not yet written its state counts as one that can still serve.

## Model

| member | source | states |
|---|---|---|
| Probing.Djb2WrapsOnce | vhash_table.c:57-63 | djb2 with 64-bit wrap-around at every step equals the unbounded value reduced once at the end |
| Probing.Djb2Is | vhash_table.c:57-63 | the hash is 5381 times 33 to the length, plus the bytes as digits to the base 33, modulo two to the 64 |
| Probing.ProbeIff | vhash_table.c:130-143 | the probe loop ends in a hit, a miss or never, exactly as the slots from the home slot on dictate |
| Probing.LoopsIffFullWithout | vhash_table.c:134-140 | the probe loop never stops if and only if every slot is in use by another key |
| Probing.HitIffStored | vhash_table.c:130-143 | with unbroken runs and distinct keys a probe hits slot j if and only if j stores the key |
| Probing.LookupIsMap | vhash_table.c:130-143 | with the probing invariant, Get is lookup in the map the slots stand for; for a missing key it gives nothing, and in a full table it never returns |
| Probing.StoreRefines | vhash_table.c:98-128 | storing keeps the probing invariant and updates the map at that key alone |
| TableSpec.CountAfterInsertions | vhash_table.c:164-166 | after a list of insertions into a new table Count is the number of distinct keys, unless the list without its last insertion has as many distinct keys as the capacity; then the table has rehashed and Count is short by the capacity |
| TableSpec.DoublingRepairs | vhash_table.c:69-91 | rehashing distinct keys with right stored hashes re-establishes the invariant with the same map and as many slots in use, even after removals broke runs |
| TableSpec.InsertStep | vhash_table.c:93-128 | an insertion into a table with an insertion history returns if and only if its key is stored or fewer than 2C are, and then updates the map |
| TableSpec.FreshTableTheorem | vhash_table.c:27-40 | a table created with capacity C, or 16 for zero, takes a list of insertions if and only if it has at most 2C distinct keys; it has then rehashed at most once and Get gives each key its last value |
| TableSpec.LookupAfterInsertions | vhash_table.c:130-143 | Get after a list of insertions into a new table gives the last value of a key of the list; for another key it gives nothing, and never returns if and only if the distinct keys fill the table, which is 2C of them or, before a rehash, C |
| Removal.FoundAfterRemoval | vhash_table.c:145-162 | after removing a key another is found if and only if its run does not cross the freed slot; otherwise its probe stops at that slot |
| Removal.LookupAfterRemoval | vhash_table.c:145-162 | every lookup after a removal, in terms of the map before it and the runs that cross the freed slot |
| Removal.InvariantAfterRemoval | vhash_table.c:145-162 | the probing invariant survives a removal if and only if no remaining run crosses the freed slot |
| Removal.FoundIff | vhash_table.c:130-143 | in any table without repeated keys, whatever was removed from it, a key is found at a slot if and only if it is stored there and no slot of its run before it is free |
| Removal.LookupIff | vhash_table.c:130-143 | so Get gives exactly the stored keys with unbroken runs their value in the map; for other keys it gives nothing, and in a full table it never returns |
| Removal.RemovalKeepsDistinct | vhash_table.c:145-162 | a removal from such a table keeps keys distinct and hashes right, and takes the key out of the map if it is found |
| Removal.RemovedIff | vhash_table.c:145-162 | a removal leaves slots and Count as they were if and only if its key is not found |
| Removal.InsertDistinctIff | vhash_table.c:93-128 | an insertion into such a table keeps hashes right, and keys distinct if and only if it rehashes first or its key, if stored, can be found; it then updates the map |
| Removal.CallsTheorem | vhash_table.c:93-162 | over any list of insertions and removals keys stay distinct throughout if and only if no insertion, unless it rehashes first, is of a key that is stored and cannot be found; the table then stands for the map the calls make |
| Removal.CallsCount | vhash_table.c:93-166 | over any list of insertions and removals without a rehash Count stays the number of slots in use |
| Removal.InsertAfterRemoval | vhash_table.c:93-128 | after one removal an insertion returns, and stores its key twice if and only if the decremented Count is below the capacity and the run of the stored key crosses the freed slot; otherwise the map is the old one without the removed key, updated |
| Removal.RehashLeavesZero | vhash_table.c:69-96 | Count is zero after an insertion that rehashes a table for a key it holds |
| Removal.CountAfterRemoval | vhash_table.c:151-155 | a removal that finds its key frees one slot and decrements Count, from zero to the largest 64-bit value; Count stays at most the slots in use if and only if it was not zero |
| Iteration.IterationExact | vhash_table.c:168-184 | while Count does not exceed the slots in use, repeated Next gives the first Count of them in slot order, each once, then nothing |
| Iteration.IterationSafeIff | vhash_table.c:168-184 | every call of Next stays inside the array if and only if Count does not exceed the slots in use or the last slot is in use |
| Iteration.IterationKeys | vhash_table.c:168-184 | with distinct keys and Count at most the slots in use an iteration gives Count keys of the map, no key twice, and the whole map if and only if Count equals the slots in use |
| Iteration.IterationAfterInsertions | vhash_table.c:69-76 | after a list of insertions into a new table the keys an iteration gives are all keys inserted if and only if the table has not rehashed; otherwise as many as the initial capacity are missing |
| Iteration.IterationAfterCalls | vhash_table.c:168-184 | after any list of insertions and removals without a rehash, none of a key that is stored and cannot be found, an iteration gives the whole map the calls make |
| HashTables.HashOf | vhash_table.c:57-63 | the hash loop computes djb2 |
| HashTables.HashTable.Rehash | vhash_table.c:69-91 | the table becomes the doubled table with Count zero |
| HashTables.HashTable.Get | vhash_table.c:130-143 | the loop returns the value at the slot the probe hits, or nothing |
| HashTables.HashTable.Insert | vhash_table.c:93-128 | the table becomes the table after the insertion function, growth included |
| HashTables.HashTable.Remove | vhash_table.c:145-162 | the value found is returned and the table becomes the one after the removal function |
| HashTables.HashIterator.Next | vhash_table.c:168-184 | the item and the new position are those of the iteration function |
| Splitting.SplitTiles | vstring.c:286-315 | for any text and separator, recognised separators are genuine and with the gaps between them tile the text; the pieces are the non-empty closed gaps and the last gap, or the first Size closed ones when the split is cut off |
| Splitting.PiecesInOrder | vstring.c:286-315 | pieces are in order, inside the text, at least a separator apart, non-empty but for the last, and at most Size + 1 |
| Splitting.OverflowIff | vstring.c:312-313 | the last piece goes to index Size if and only if the split is not cut off and has exactly Size non-empty closed pieces |
| Splitting.ClosedBySeparator | vstring.c:294-302 | every piece but the last is followed by an occurrence of the separator |
| Splitting.OneByteSplit | vstring.c:276-316 | for a one-byte separator the split is the leftmost non-overlapping one on any text |
| Splitting.CrlfMatcherIff | vstring.c:291-310 | for separators made of CRLFs the matcher recognises exactly the leftmost non-overlapping occurrences if and only if every occurrence ends an odd run of CRs |
| Splitting.CrlfSplit | vstring.c:276-316 | on such texts, and on all texts without adjacent CRs, the split is the true one |
| Trimming.TrimmedIff | vstring.c:199-214 | the trimmed text is the one middle that starts and ends with none of the bytes 9 to 13 and 32, between only such bytes on both sides |
| Trimming.FindInExact | vstring.c:318-338 | the search gives the end of the first occurrence inside the string; without one it gives zero or an end past the string |
| VStrings.FindFirstCharOccurence | vstring.c:233-241 | the loop returns the first index of the byte in the view, or -1 |
| VStrings.FindSubstring | vstring.c:318-338 | wherever the comparisons made stay in the buffer the loop returns what the search function gives |
| VStrings.TrimOverwrites | vstring.c:209-213 | trimming writes the trimmed text over the start of the view and changes no other byte |
| VStrings.Trim | vstring.c:199-214 | the buffer becomes the trimmed buffer and the view shrinks to the trimmed text |
| VStrings.SplitBySubstring | vstring.c:276-316 | the loop fills the result with the pieces of the split, placed on the buffer; an empty separator gives none |
| VStrings.VString.Resize | vstring.c:44-53 | the new capacity, with the bytes that fit kept |
| VStrings.VString.Append | vstring.c:57-65 | appends one byte; a full buffer doubles, one of no bytes gets 512 |
| VStrings.VString.Insert | vstring.c:67-77 | inserts one byte at the index and moves the rest up; the capacity doubles when one byte more would fill it |
| VStrings.VString.Remove | vstring.c:79-88 | deletes the byte at the index, or nothing when there is none |
| VStrings.VString.Concat | vstring.c:90-98 | appends the contents of another string |
| VStrings.VString.CopyCString | vstring.c:130-149 | the contents become as many bytes of zeros and the C string as the C string is long |
| VStrings.CopiedIff | vstring.c:140-146 | the copy has as many zeros as the destination had bytes, then the C string, cut at its length; it equals the C string if and only if one of them was empty |
| PercentCoding.HexIff | http_request.c:42-44 | the bytes taken as hexadecimal digits are 0 to 9, a to f and A to F, each with its value |
| PercentCoding.EscapeDecodes | http_request.c:42-44 | a percent sign and two digits of either case decode to sixteen times the first plus the second |
| PercentCoding.DecodeSpelling | http_request.c:35-59 | decoding inverts every spelling of a byte string: any byte but the percent and the plus sign may stand for itself, and any byte may be escaped, each digit in either case |
| PercentCoding.DecodeEncode | http_request.c:35-59 | so decoding inverts percent-encoding on every byte string |
| PercentCoding.DecodePlain | http_request.c:53-55 | a text without escapes and plus signs decodes to itself |
| PercentCoding.PlusDecodes | http_request.c:50-56 | a plus sign decodes to a space and a plus sign |
| PercentCoding.DecodeIsForm | http_request.c:35-59 | decoding any text is decoding it as a form is, with an escaped plus sign put behind each plus sign |
| PercentCoding.PlusIff | http_request.c:50-56 | decoding is the decoding of forms, in which a plus sign is a space, if and only if the text has no plus sign |
| HttpSpec.MethodIff | http_request.c:10-33 | the method found is m if and only if the view has at most seven bytes and the name of m stands in the buffer where the view starts |
| HttpSpec.MethodsFound | http_request.c:10-33 | the same for each of GET, HEAD, POST, PUT, DELETE, TRACE, CONNECT and PATCH, written out; OPTIONS is never found |
| HttpSpec.MethodOfView | http_request.c:10-33 | where no upper-case letter follows a view shorter than seven bytes, that is if and only if the view has at most seven bytes and begins with the name of m |
| HttpSpec.VersionIff | http_request.c:160-162 | a version is accepted if and only if it is a prefix of HTTP/1.1, written out, or continues it with a NUL |
| HttpSpec.PartsAre | http_request.c:138-143 | the pieces of a request line are those of a true split at spaces with three closed ones at most |
| HttpSpec.LinesAre | http_request.c:69-70 | the lines of a head in which every CRLF ends an odd run of CRs are those of a true split at CRLF with 64 closed ones at most |
| HttpSpec.RequestLineIff | http_request.c:138-164 | a request line is accepted if and only if it has three pieces, the first of at most seven bytes and beginning with the name of a method, the last a version; which method and URL it sets, also when it is rejected |
| HttpSpec.ScanExact | http_request.c:71-91 | the header loop inserts the pairs of the lines before the first that begins with a colon, and fails if and only if there is one |
| HttpSpec.ParsedIff | http_request.c:62-165 | a request is accepted if and only if no header line begins with a colon and the request line is accepted; its length is that of the head plus four in any case |
| HttpRequests.HeaderWrites | http_request.c:77-88 | trimming and terminating a header value writes the value and its NUL behind the colon, up to the CR of its line, and nothing else |
| HttpRequests.RequestLineKept | http_request.c:138-160 | processing the headers leaves the request line and its meaning as they were |
| HttpRequests.StrNEqual | http_request.c:160-162 | the comparison accepts exactly the accepted versions |
| HttpRequests.GetMethodFromString | http_request.c:10-33 | the chain of comparisons finds the method of the view |
| HttpRequests.HttpRequest.constructor | http_request.c:168-176 | a fresh request has empty strings, a table of default capacity, no method and length zero |
| HttpRequests.HttpRequest.DecodeUrl | http_request.c:35-59 | the decoded URL is inserted before what the string held, and look-ahead stops at the byte behind the URL |
| HttpRequests.HttpRequest.InsertHeader | http_request.c:73-91 | one header line: false for an empty key, otherwise the pair is inserted and the buffer trimmed and terminated |
| HttpRequests.HttpRequest.ParseHeaders | http_request.c:71-136 | the loop inserts the pairs of the original lines and changes only bytes of their values |
| HttpRequests.HttpRequest.ParseRequestLine | http_request.c:138-164 | method, its string, URL and result are those of the request line |
| HttpRequests.HttpRequest.Parse | http_request.c:62-165 | true if and only if no header line begins with a colon and the request line is accepted; length, headers, method and URL are the function of the original bytes, and only header values are overwritten |
| Framing.FramingsAgreeIff | main.c:162-176 | for every text, the caller's scan and the parser's Length agree if and only if there is a CRLFCRLF and the first one ends an odd run of CRs or, when it opens the text, the text is nothing but CRLFCRLFs |
| Framing.FramingsDisagree | http_request.c:64-67 | a concrete text on which the two differ |
| Framing.LinesEndInCr | http_request.c:69-70 | every line of a head whose end was found is followed by a CR |
| Framing.ValueBeforeCr | http_request.c:76-88 | a value view that takes in the CR behind its line gives the plain value, and writes end on that CR at the latest |
| Framing.ParseIsPure | http_request.c:62-165 | on a closed head with well-formed header lines the in-place parse inserts exactly the fields of the original lines |
| Framing.WritesStayInLines | http_request.c:71-91 | on a closed head every byte the parse changes lies behind the colon of a header line and at the latest on the CR behind that line |
| RoundTrip.SplitJoined | vstring.c:276-316 | splitting a joined list of non-empty texts gives the list back |
| RoundTrip.ParsePrinted | http_request.c:62-165 | a request printed in plain characters, its URL in any spelling, and followed by a body without CRLFCRLF parses to its method, URL, header pairs and length |
| RoundTrip.HeadersStored | http_request.c:90-91 | the header table takes distinct names if and only if they are at most 32, and gives each name its value; for another name it gives nothing, and never returns if and only if there are 16 or 32 |
| RoundTrip.ParsePrintedRequest | http_request.c:62-165 | Parse of a printed request on a fresh request object returns true with the same method, URL, length and headers, and leaves the body as it was |
| TaskRing.EnqueuedAppends | vthread_pool.c:71-74 | enqueuing into a ring that is not full keeps the cursors consistent and appends the task |
| TaskRing.DequeuedTakes | vthread_pool.c:78-89 | dequeuing keeps the cursors consistent and takes the oldest task |
| TaskRing.TaskList.Enqueue | vthread_pool.c:71-74 | the ring's contents grow by the task at the end |
| TaskRing.TaskList.Dequeue | vthread_pool.c:78-89 | the oldest task is returned and removed; an empty ring gives the zero task |
| ThreadPools.ThreadPool.constructor | vthread_pool.c:176-206 | a new pool has an empty ring as long as its threads are many, all idle, and counters at zero |
| ThreadPools.ThreadPool.IsAllThreadsInfinite | vthread_pool.c:231-244 | the counting loop says whether every thread runs an infinite procedure |
| ThreadPools.ThreadPool.AddThread | vthread_pool.c:246-254 | one idle thread is added behind the others, the list doubling when full |
| ThreadPools.ThreadPool.EnterEnqueue | vthread_pool.c:59-75 | the section adds a thread if all are infinite, then enqueues, or reports that the caller must wait |
| ThreadPools.ThreadPool.TakeTask | vthread_pool.c:118-133 | the worker gets the oldest task, or goes idle on an empty ring |
| ThreadPools.ThreadPool.ServeOnce | vthread_pool.c:116-169 | an uninterrupted round takes the oldest task, leaves the thread idle if there was a procedure to run and, unless the task was infinite, leaves both counters as they were |
| PoolSteps.CountedOutIff | vthread_pool.c:139-161 | counting a task out undoes counting it in, wrap-around included, if and only if it is a default task |
| PoolSteps.CounterWraps | vthread_pool.c:142-159 | the working counters wrap at 32 bits |
| PoolSteps.ShapeKept | vthread_pool.c:51-172 | every step keeps the ring's cursors, the thread list and the counters in range |
| PoolSafety.FifoKept | vthread_pool.c:65-89 | every step keeps dequeued tasks followed by the ring's contents equal to the enqueued tasks |
| PoolSafety.TasksConserved | vthread_pool.c:65-152 | in every reachable state tasks left in order, and however tasks are weighed the accepted ones weigh as much as those in the ring, with workers, finished and skipped together |
| PoolSafety.TaskInOnePlace | vthread_pool.c:65-152 | so as often as a task was accepted it is in the ring, with a worker, finished or skipped, and only tasks without a procedure are skipped |
| PoolSafety.WakeupsNeverLost | vthread_pool.c:116-133 | in every reachable state with a waiting worker, queued tasks are at most the callers yet to signal and the ready workers |
| PoolSafety.RoomComesKeptIff | vthread_pool.c:65-67 | a blocked caller implies a queued task, a busy worker or a woken caller; a step breaks this if and only if it skips the last such task while callers are blocked |
| PoolSafety.RoomAlwaysOwed | vthread_pool.c:65-67 | in every reachable state with a blocked caller, queued tasks, busy workers, woken callers and skipped tasks are together at least the cells of the ring |
| PoolSafety.StatesInEveryRun | vthread_pool.c:116-158 | in every reachable state each thread's state is that of the task it has marked or runs, and otherwise idle |
| PoolSafety.ThreadAddedIff | vthread_pool.c:52-62 | in every reachable state a call of AddTask starts a thread if and only if every thread has marked or runs an infinite task, and leaves one that does not, though that one may hold an infinite task not yet marked |
| PoolSafety.ExactKeptIff | vthread_pool.c:136-161 | a step keeps the working counters exact if and only if it is not the return of an infinite task |
| PoolSafety.CountersInEveryRun | vthread_pool.c:136-161 | in every run without such a return the counters are the numbers of workers running default and infinite tasks, and no decrement wraps |
| PoolProgress.RankFalls | vthread_pool.c:51-169 | every step but a spurious wake-up lowers a natural-number rank |
| PoolProgress.RunBound | vthread_pool.c:51-169 | without spurious wake-ups a run has at most 12 steps a task, one a thread, and two for Wait |
| PoolProgress.WaiterServedKeptIff | vthread_pool.c:155-168 | a sleeping waiter implies a queued task or a worker that will still reach the signalling section; from exact counters a step breaks this if and only if the last such worker starts an infinite task while the waiter sleeps |
| PoolProgress.SettleRouses | vthread_pool.c:164-168 | a worker that settles rouses a sleeping waiter unless a default task is counted, and then only queued tasks can send it back to sleep |
| PoolProgress.StuckIsDrained | vthread_pool.c:100-169 | a pool without endless tasks, with no waiting worker and no blocked caller forgotten, is drained when no thread can step: every call has returned and every worker waits |
| PoolProgress.EveryRunDrains | vthread_pool.c:208-219 | every run of returning tasks is of linear length and, when it cannot go on, has executed each task exactly as often as it was added |
| PoolProgress.SomeThreadSteps | vthread_pool.c:65-67 | in every reachable state with a call that has not returned, some thread can step |
| PoolWaiting.RunWaitReturns | vthread_pool.c:256-264 | when Wait returns, in any run in which no infinite task returns, the ring is empty and every accepted task is finished, skipped, taken and not yet counted, or an endless one being run |
| PoolWaiting.FusedWaitReturns | vthread_pool.c:131-148 | with taking and counting in one section, and no endless task, every accepted task is finished or skipped when Wait returns |
| PoolStranding.RoomComesIff | vthread_pool.c:65-67 | blocked callers are owed room in every reachable state if and only if the tasks are no more than the n threads or fewer than n of them lack a procedure; otherwise the pool can come to rest with a caller blocked |
| PoolStranding.CallerStrandedIff | vthread_pool.c:60-67 | a state with a caller blocked in which nothing can step before an endless task returns is reachable if and only if there are more than n tasks and at least n are endless or without a procedure |
| PoolStranding.WaiterServedIff | vthread_pool.c:256-264 | Wait is served in every reachable state if and only if no task is endless; a state in which it sleeps until an endless task returns is reachable if and only if some task is |
| PoolStranding.BothStrandedIff | vthread_pool.c:256-264 | caller and waiter can be stranded at once if and only if both conditions hold |
| PoolStranding.StarvedIff | vthread_pool.c:60-75 | a state with a task queued, every call returned, and nothing able to step before an endless task returns is reachable if and only if there are more than n tasks and at least n are endless |
| PoolStranding.EarlyReturnIff | vthread_pool.c:133-148 | a state in which Wait and all calls have returned and a worker still has to run a task it has taken is reachable if and only if some task has a procedure, whatever the number of threads |
| PoolStranding.DrainedIff | vthread_pool.c:208-219 | without endless tasks every run without spurious wake-ups that cannot step is drained, with exactly the tasks that have a procedure executed as often as added, if and only if the tasks are no more than the n threads or fewer than n of them lack a procedure |

## Left out

- Sockets, epoll, sending, files and responses (`main.c`, `vtcp_socket.c`, `vepoll.c`, `vfile.c`): input and output;
  only the framing call of the receive loop is used.
- The connection slots of `main.c`, the file-type table of `vmime.c` and the growing array of `varray.h`: no modelled
  library uses them.
- `VString_ReadEntireFile`, `VString_ToLower`, `VString_FindLastCharOccurence`, `VString_Copy`, the printing functions
  and `VStringView_ToCString`: input and output, or loops of one line that the parser does not use.
- Allocation, ownership and `free`: arrays are collected, so use after free and double free cannot be stated, nor that
  a value returned by `Remove` still hangs off its free slot.
- Pointers into the thread list: threads have stable indices, although `realloc` may move the list under running threads.
- `VThreadPool_Destroy`, `Terminate`, `pthread_cancel` and `ThreadCount`: teardown depends on timing, and nothing reads
  `ThreadCount`. A thread that is added begins at the top of its loop.
- More than one concurrent call of `Wait`, and memory orders weaker than one thread at a time: a step is atomic, and
  the state write outside the lock is a step of its own.
- HttpRequests.HttpRequest.Parse: header lines without a colon or with a blank value, and request lines of a recognised
  method with fewer than three pieces, are excluded, because the C code then reads memory that is not defined.
- ThreadPools.ThreadPool.constructor: needs at least one thread, because the source declares an array of as many elements
  (vthread_pool.c:194), which C defines only for at least one; and the first call of AddTask would add a thread to a
  list of zero cells that doubling does not grow.
- HashTables.HashTable.Insert: does not model allocation failure or a table of 2^31 slots, where the 32-bit index of
  the copying loop would overflow.
- PoolProgress.EveryRunDrains: spurious wake-ups are excluded, because a run that has them without end never ends.
