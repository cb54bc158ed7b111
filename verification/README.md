# A model of chttpc

chttpc is an `HttpURLConnection` for Android on top of libcurl. This project models the parts of it that carry
state, and proves what they promise: the pause/resume byte streams between Java and libcurl, the response-header store
from the received line to the Java map, the hash map under it, the growable URL buffer with its decimal printer, the
list of native handles, the time budget of the perform loop, and the demo's bitmap cache.

Code that changes things step by step is imperative Dafny (classes, arrays, linked entries, loops), proved against
functions over values; the laws are lemmas about those functions and invariants of the classes.

| file | what it holds |
|---|---|
| Protocol.dfy, ProtocolProofs.dfy, StreamTheorems.dfy, EndOfStream.dfy | the transfer as a state machine, its invariant, the theorems over all runs, and the exact conditions for the end of a stream and for complete writes |
| Progress.dfy, Returns.dfy | when a call goes on and when it returns, what each callback achieves, and how soon calls are over |
| Configuration.dfy | at which response configure stops, what a reset leaves, and what becomes of the bodies |
| Streams.dfy | the Java stream classes over them |
| Transfer.dfy | the control block and its entry points as imperative code that refines the state machine |
| Hashing.dfy, KeyCompare.dfy | 32-bit hashes, masking, case folding, and the key comparison as shipped |
| Table.dfy, Load.dfy, Hashmap.dfy | the bucket table as a value that refines a map, its load over runs, and the linked hash map that refines the table |
| HeaderLine.dfy | parsing of one header line |
| HeaderRings.dfy, HeaderIndex.dfy | circular lists of values, the index that leads to them, and writing it out |
| HeaderArray.dfy, HeaderStore.dfy, HeaderExchange.dfy | the null-separated array and its decoder; the pair array and the callback; whole exchanges |
| JavaHeaders.dfy, RoundTrip.dfy | HeaderPair, HeaderMap, the Java loops, and the composition with the native side |
| Decimal.dfy, MutableUrl.dfy | decimal printing, the URL buffer and the write-back after redirects |
| CleanerList.dfy, Timeout.dfy, BadCache.dfy | the list of native handles, timeout accounting, cache eviction |
| Options.dfy, CStrings.dfy | a value that may be missing; strings up to a NUL |

libcurl is an adversary. It owns the response body and decides what to offer, how to cut it, when to ask for upload
data, when to run callbacks and when to finish; a script of events, arbitrary, stands for these decisions, and an event
that libcurl's documented contract forbids does nothing. A paused chunk is offered again from the consumed position,
cut anew. Either unpause call resumes both directions, since both constants are 0. Allocation results, the clock,
interruptions and socket events are parameters too. `int` and `size_t` have 32 bits, as on the shipped ABIs.

Several promises do not hold as written. Each has a lemma at an input where it fails and one that says exactly when it
holds:

- Reading until -1 yields the whole body as long as no call threw. Once a call has reported a failure of the transfer,
  the next reads return -1 with the body unread (MemoryReadExactly, EndAfterFailure).
- A write that returns normally was complete if the data fits the announced length; past it bytes are dropped
  (WriteCompleteExactly, WriteCanDrop).
- A single-byte read of 0xFF looks like the end of the stream where `char` is signed (SingleByteRead, LostByte), and a
  one-byte array read returns the advanced offset (OneByteArrayRead, OneByteTwice).
- A map made for n entries may expand before them when 4n wraps (CapacityExactly, CapacityWraps).
- A redirect is missed when the low bytes of the URL's characters spell the effective URL (RedirectReplaces,
  WideUrlStays).
- Timeouts are early exactly when a wait without events follows one with events (EarlyExactlyAfterEvents).
- The key comparison is a prefix test on the wrong bytes (ComparesPrefixes, RightExactly) and never tells names of like
  length apart. The header store is therefore proved over any lawful equality of names, and instantiated with equality
  up to ASCII case.

## Model

| member | source | states |
|---|---|---|
| `ProtocolProofs.EventKeeps` | lib/src/main/jni/native-lib.c:264-352 | every callback keeps the invariant of the transfer (consumed plus overflow is what was delivered, a held direction is flagged, room and pending bytes only move to the logs) |
| `ProtocolProofs.PerformKeeps` | lib/src/main/jni/native-lib.c:909-1005 | the perform loop keeps it for every script, and says in what state it can return; within a read a receive pause means that no room is left |
| `ProtocolProofs.PerformHidesNothing` | lib/src/main/jni/native-lib.c:879-907 | a failed transfer ends the loop with an exception: no quiet outcome hides a failure |
| `ProtocolProofs.RunQuiet` | lib/src/main/jni/native-lib.c:845-1473 | every run of configure, read, write, closeOutput and reset calls leaves the between-calls invariant in place |
| `StreamTheorems.DeliveredIsPrefix` | lib/src/main/jni/native-lib.c:497-566 | over any disciplined run the bytes delivered since the reset are exactly the prefix of the body of length consumed plus readOverflow |
| `StreamTheorems.StoredBySteps` | lib/src/main/jni/native-lib.c:1310-1473 | a call stores at most count bytes, appended to the log; only reads store anything |
| `StreamTheorems.StreamTheorem` | lib/src/main/jni/native-lib.c:1310-1373 | after a configure, whatever calls follow and however libcurl cuts and re-offers data, the bytes stored in callers' arrays in call order are the delivered prefix of the body |
| `StreamTheorems.CleanReadIsMemoryRead` | lib/src/main/jni/native-lib.c:1346-1365 | a read that is neither interrupted nor in error, on a handle on which no failure of the transfer was reported before, stores what an in-memory stream over the body would, and, for count other than 1, returns the same: the full count, or a short count or -1 only at the end of the body |
| `StreamTheorems.CleanReadsRefineMemory` | lib/src/main/jni/native-lib.c:1310-1373 | any run of clean reads, under the same condition at its start, is a run of the in-memory stream |
| `EndOfStream.QuietCallReportsNothing` | lib/src/main/jni/native-lib.c:879-907 | a failure is reported by an exception only: a call that throws nothing, interrupted or not, leaves no reported failure behind |
| `EndOfStream.HealthyAfterRun` | lib/src/main/jni/native-lib.c:1310-1473 | after a configure and any reads, writes and closes of which none threw, the download is where the received bytes say |
| `EndOfStream.ReadInRunIsMemoryRead` | lib/src/main/jni/native-lib.c:1310-1373 | so a clean read anywhere in such a run, between writes, closes and interrupted reads, is a read of the in-memory stream |
| `EndOfStream.ReadingUntilEndYieldsBody` | lib/src/main/jni/native-lib.c:1346-1365 | after a configure and any such run a clean array read of more than one byte that returns -1 means that the received bytes are the entire body |
| `EndOfStream.ReadAfterFailure` | lib/src/main/jni/native-lib.c:879-907 | once a failure was reported, a clean read stores nothing and returns -1, whatever is left of the body |
| `EndOfStream.MemoryReadExactly` | lib/src/main/jni/native-lib.c:1346-1365 | a clean read of more than one byte is one of the in-memory stream if and only if no failure was reported before or nothing was left to read |
| `EndOfStream.EndAfterFailure` | lib/src/main/jni/native-lib.c:1346-1365 | a run from a new handle in which a read throws, and the next one says that the body, of which nothing was read, is over |
| `StreamTheorems.SingleByteRead` | lib/src/main/jni/native-lib.c:541-549 | the single-byte read returns the byte, and -1 at the end; on a platform with signed char exactly the bytes from 0x80 on come out negative, 0xFF as -1 |
| `StreamTheorems.OneByteArrayRead` | lib/src/main/jni/native-lib.c:1346-1365 | an array read of one byte returns the advanced offset, which is the count exactly for offset 0 |
| `EndOfStream.LostByte` | lib/src/main/jni/native-lib.c:541-549 | a run from a new handle in which the single byte 0xFF of the body is taken for its end |
| `EndOfStream.OneByteTwice` | lib/src/main/jni/native-lib.c:1346-1365 | a run from a new handle in which a read of one byte at offset 1 returns 2 |
| `StreamTheorems.WriteHandsOver` | lib/src/main/jni/native-lib.c:1386-1431 | what libcurl took during a write is the first bytes of its data, as many as the result says |
| `StreamTheorems.CleanWriteIsComplete` | lib/src/main/jni/native-lib.c:939-943 | a clean write before closeOutput hands over every byte, unless the goal or the end of the transfer came first |
| `EndOfStream.WriteWithinGoal` | lib/src/main/jni/native-lib.c:1386-1431 | so a clean write that fits the announced length hands over every byte, or the transfer is over |
| `EndOfStream.WriteCompleteExactly` | lib/src/main/jni/native-lib.c:1386-1431 | on a handle that is uploading, every clean write of some data is complete, or finds the transfer over, if and only if the data fits the announced length or that was used up before |
| `StreamTheorems.UploadTheorem` | lib/src/main/jni/native-lib.c:264-318 | over any run the bytes libcurl took are, in order, the claimed parts of the writes, and uploadedCount is their number while a goal is set |
| `StreamTheorems.PauseDiscipline` | lib/src/main/jni/native-lib.c:1323-1342 | over all runs a direction libcurl holds has its PAUSED flag set, NEED_INPUT and NEED_OUTPUT are never set together and are clear between calls, and every read or write starts with its own direction resumed |
| `StreamTheorems.LockHeldExactly` | lib/src/main/jni/native-lib.c:1375-1390 | a call leaves the lock held exactly when it has not returned or was a write refused because the goal was reached |
| `StreamTheorems.LockedForGood` | lib/src/main/jni/native-lib.c:1380-1390 | and then every later call is refused and changes nothing |
| `Progress.RoundGoesOn` | lib/src/main/jni/native-lib.c:939-1003 | a round of the loop goes on if and only if nothing interrupts it, fails or times out, and libcurl has left the caller something to wait for: for a read, the transfer running and receiving not paused |
| `Progress.LoopInFlightExactly` | lib/src/main/jni/native-lib.c:909-1005 | the loop is in flight exactly as long as every round, told by what libcurl has done since the call began, leaves the caller waiting |
| `Progress.PerformStops` | lib/src/main/jni/native-lib.c:939-948 | the first calm round that leaves nothing to wait for, with the transfer running, ends the loop in the state that libcurl has reached |
| `Progress.RoundEnds` | lib/src/main/jni/native-lib.c:909-1003 | the other ways out of the loop: interruptions, errors, timeouts, and the end of the transfer, reported once |
| `Progress.ReadInFlightExactly` | lib/src/main/jni/native-lib.c:1333-1348 | a read is in flight if and only if resuming worked, nobody interrupted it and every round was calm and left the transfer running and receiving not paused |
| `Progress.WriteInFlightExactly` | lib/src/main/jni/native-lib.c:1380-1420 | the same for a write, which also returns at once past the announced length or with nothing left to hand over |
| `Progress.CloseInFlightExactly` | lib/src/main/jni/native-lib.c:1453-1470 | the same for closeOutput, which needs no loop when the end of the body was asked for while resuming |
| `Progress.ConfigureInFlightExactly` | lib/src/main/jni/native-lib.c:1215-1246 | the same for configure, which waits for headers |
| `Progress.FullReadReturns` | lib/src/main/jni/native-lib.c:939-943 | the first calm round that leaves receiving paused ends a read with its room used up: count bytes were stored and it returns their number |
| `Progress.TakenWriteReturns` | lib/src/main/jni/native-lib.c:939-943 | the first calm round that leaves sending paused ends a write with the number of bytes taken |
| `Progress.EndedCloseReturns` | lib/src/main/jni/native-lib.c:939-943 | closeOutput returns once libcurl has come for the end of the body, or receiving is paused |
| `Returns.OfferStores` | lib/src/main/jni/native-lib.c:497-566 | an offer stores the next bytes of the body, as many as are new to the caller and have room; it is accepted exactly when it leaves none over and there was room, and else held, with receiving paused |
| `Returns.AskTakes` | lib/src/main/jni/native-lib.c:264-318 | a request takes the first pending bytes, as many as it asks for; it pauses sending exactly at the end of the body, with nothing pending, or at the announced length, and is held only for want of data |
| `Returns.ReadReturnsInTime` | lib/src/main/jni/native-lib.c:1333-1365 | a read is over after more rounds than bytes are left of the body, if libcurl offers something or ends the transfer in every round that does not begin with receiving paused or the transfer over |
| `Returns.WriteReturnsInTime` | lib/src/main/jni/native-lib.c:1386-1431 | a write is over after more rounds than it has bytes, if libcurl asks for some or ends the transfer in every such round |
| `Returns.CloseReturnsInTime` | lib/src/main/jni/native-lib.c:1453-1475 | closeOutput is over after one such round |
| `Returns.ReadReturns` | lib/src/main/jni/native-lib.c:1310-1373 | a single offer of more bytes than the read asks for makes it return with exactly the next count bytes of the body, whether receiving was paused before or not |
| `Returns.WriteReturns` | lib/src/main/jni/native-lib.c:1375-1432 | a write within the announced length returns with all its bytes once libcurl has asked for that many, and once more |
| `Returns.ReadSaysSo` | lib/src/main/jni/native-lib.c:909-1003 | an interruption inside the loop of a read makes it return interrupted and without an exception, an error or a timeout makes it throw |
| `Returns.WriteSaysSo` | lib/src/main/jni/native-lib.c:909-1003 | the same for a write |
| `Returns.CloseSaysSo` | lib/src/main/jni/native-lib.c:909-1003 | the same for closeOutput |
| `Returns.ConfigureSaysSo` | lib/src/main/jni/native-lib.c:909-1003 | the same for configure |
| `Returns.ReadCounts` | lib/src/main/jni/native-lib.c:1345-1365 | for counts other than 1 a read returns the number of bytes it stored, or -1 when it throws or has stored nothing; an interrupted one always returns the number |
| `Returns.WriteFlags` | lib/src/main/jni/native-lib.c:1380-1425 | a write past the announced length or whose resuming fails throws; an interruption seen before or after the loop is what the result says |
| `Returns.ConfigureFlags` | lib/src/main/jni/native-lib.c:1215-1250 | the same for configure, and a transfer that ended during the first perform is reported with its failure |
| `Returns.CloseEnds` | lib/src/main/jni/native-lib.c:1450-1453 | closeOutput installs the end-of-file callback and marks sending done, and libcurl takes nothing during it |
| `Returns.ClosedForGood` | lib/src/main/jni/native-lib.c:264-272 | after that no read, write or close of the transfer lets libcurl take another byte |
| `Configuration.HeadsMean` | lib/src/main/jni/native-lib.c:390-464 | whatever libcurl passes to the header callback while the transfer runs: the end flag says that the headers of the current response have ended, a Location is known exactly if one of its lines was one, and the pairs are counted since it began |
| `Configuration.LocationSinceStatus` | lib/src/main/jni/native-lib.c:396-409 | for responses in order the Location counts since the last status line |
| `Configuration.LinesMean` | lib/src/main/jni/native-lib.c:378-491 | the end flag, the pair count and the lookup of Location that the loop sees are those of the header store for the same lines |
| `Configuration.ResponsesEnd` | lib/src/main/jni/native-lib.c:944-948 | after any number of whole responses the headers are final unless the last has a Location and redirects are followed |
| `Configuration.ConfigureStopsAt` | lib/src/main/jni/native-lib.c:944-948 | a configure that returns normally with the transfer running and neither direction paused has seen the end of a response with no Location since its beginning, or redirects are off; and after no round before had it |
| `Configuration.FinalHeadersStop` | lib/src/main/jni/native-lib.c:944-948 | conversely the first calm round that ends with such headers stops it |
| `Configuration.RedirectGoesOn` | lib/src/main/jni/native-lib.c:944-948 | and as long as no round ends with them, it is in flight, the headers of redirects notwithstanding |
| `Configuration.RunStartable` | lib/src/main/jni/native-lib.c:845-867 | whatever was done with a handle, when it has no transfer and the lock is free its header flags are clear and configure can start one |
| `Configuration.ResetForgets` | lib/src/main/jni/native-lib.c:845-867 | configure after a reset goes in every respect as on a new handle, but for the read function where there is no body to send; the reset itself leaves only that, the stale counts and the announced length |
| `Configuration.ConfigureSets` | lib/src/main/jni/native-lib.c:1066-1210 | however it ends, configure leaves the redirect flag, the body, the upload flag and the announced length as it was told |
| `Configuration.UnwantedOffer` | lib/src/main/jni/native-lib.c:343-354 | a response body that is not wanted is swallowed while there is a request body, and else its first bytes end the transfer, which is no failure |
| `Configuration.UnwantedBody` | lib/src/main/jni/native-lib.c:1198-1206 | none of it ever reaches a caller |
| `Transfer.CurlData.WriteCallback` | lib/src/main/jni/native-lib.c:497-566 | the imperative callback, with its stores into the caller's array, is the state machine's write step; every store is inside the caller's region and nothing else in the array changes |
| `Transfer.CurlData.ReadCallback` | lib/src/main/jni/native-lib.c:264-318 | the imperative callback is the state machine's read step |
| `Transfer.CurlData.HeaderReceived` | lib/src/main/jni/native-lib.c:390-417 | the part of header_callback that the perform loop sees |
| `Transfer.CurlData.CheckResult` | lib/src/main/jni/native-lib.c:879-907 | a finished transfer is reported once, with its error |
| `Transfer.CurlData.CurlPerform` | lib/src/main/jni/native-lib.c:909-1005 | the loop refines Perform for every script |
| `Transfer.CurlData.Read` | lib/src/main/jni/native-lib.c:1310-1373 | refines the state machine's read; an array argument afterwards holds the stored bytes at consecutive positions from off on and is unchanged elsewhere |
| `Transfer.CurlData.Write` | lib/src/main/jni/native-lib.c:1375-1432 | refines the state machine's write; no array changes |
| `Transfer.CurlData.CloseOutput` | lib/src/main/jni/native-lib.c:1434-1475 | refines the state machine's closeOutput |
| `Transfer.CurlData.Configure` | lib/src/main/jni/native-lib.c:1013-1284 | refines the state machine's configure, as far as the transfer is concerned |
| `Transfer.CurlData.Reset` | lib/src/main/jni/native-lib.c:845-867 | refines the state machine's reset |
| `Streams.InputStream.Read` | lib/src/main/java/net/sf/chttpc/CurlHttp.java:487-511 | for any offset and length: an exception exactly when the region is not inside the array, otherwise the native read, after which the array holds the stored bytes from the offset on and nothing else has changed; an interruption, seen before, by or after the native call, is thrown with the count, and only an uninterrupted call returns normally |
| `Streams.InputStream.ReadOne` | lib/src/main/java/net/sf/chttpc/CurlHttp.java:477-479 | the native single-byte read, unless closed; interruptions as for arrays |
| `Streams.OutputStream.Write` | lib/src/main/java/net/sf/chttpc/CurlHttp.java:532-558 | for any offset and length: an exception exactly when the region is not inside the array, otherwise the native write of exactly that region; interruptions as for reads |
| `Streams.OutputStream.Close` | lib/src/main/java/net/sf/chttpc/CurlHttp.java:560-576 | the first close ends the request body, later ones change nothing; an interruption is thrown |
| `Streams.InterruptedProgress` | lib/src/main/java/net/sf/chttpc/CurlHttp.java:458-470 | a run from a new handle in which a read is interrupted after three of six bytes: they are in the array, and the exception says three |
| `Streams.InterruptedReadCounts` | lib/src/main/java/net/sf/chttpc/CurlHttp.java:458-470 | for every interrupted read of other than one byte the exception says how many bytes are in the array, or -1 with none there, and every interruption of a read that does not fail is thrown |
| `Streams.InterruptedWriteCounts` | lib/src/main/java/net/sf/chttpc/CurlHttp.java:458-470 | the exception for a write says how many bytes libcurl took, and these are the first of the data |
| `Streams.WriteCanDrop` | lib/src/main/java/net/sf/chttpc/CurlHttp.java:545-558 | a run from a new handle in which a write of two bytes, one announced, returns normally after libcurl took one, since the native count is not looked at |
| `Hashing.MaskIsMod` | lib/src/main/jni/hashmap.c:74-76 | masking with a power of two less one is the remainder |
| `Hashing.IndexIsMod` | lib/src/main/jni/hashmap.c:74-76 | the bucket is the Euclidean remainder of the hash, negative or not |
| `Hashing.DoublingSplits` | lib/src/main/jni/hashmap.c:91-99 | doubling sends an entry of bucket i to i or to i plus the old count |
| `Hashing.OrIsAdd` | lib/src/main/jni/native-lib.c:88 | the folding macro on an upper-case letter gives the lower-case one |
| `Hashing.HashName` | lib/src/main/jni/native-lib.c:738-756 | the loop of hashCalc computes the hash function that the lemmas are about |
| `Hashing.HashIsPolynomial` | lib/src/main/jni/native-lib.c:738-756 | the hash is the 32-bit remainder of a polynomial in 31 whose coefficients are the length and the folded characters |
| `Hashing.MixInjective` | lib/src/main/jni/hashmap.c:58-68 | the secondary hash tells two hashes apart exactly when they differ in their 32 bits |
| `Hashing.SameBucket` | lib/src/main/jni/native-lib.c:738-756 | names equal up to ASCII case have the same hash and the same bucket at every capacity |
| `KeyCompare.HashKeyCompare` | lib/src/main/jni/native-lib.c:758-772 | the loop as written, with the macro's repeated increments and reads behind the end as None |
| `KeyCompare.ComparesPrefixes` | lib/src/main/jni/native-lib.c:758-772 | for every pair of names: equality is denied exactly when the bytes that the increments pick out of the second name begin with the folded bytes of the first and its NUL, the read goes too far exactly when they end within them, and otherwise equality is granted |
| `KeyCompare.RightExactly` | lib/src/main/jni/native-lib.c:758-772 | so the result is equality up to case exactly for equal names of which neither reading is a prefix of the other, and for different names of which the first is a prefix of what is seen of the second |
| `KeyCompare.NeverToldApart` | lib/src/main/jni/native-lib.c:758-772 | unless the second name is more than twice as long as the first, equality is never denied, and the result is right exactly for equal names whose second reading does not end within the first |
| `KeyCompare.LowerIsToLower` | lib/src/main/jni/native-lib.c:88 | the macro without side effects is the folding of the hash and of the intended equality |
| `KeyCompare.NotEqualFold` | lib/src/main/jni/native-lib.c:758-772 | a pair of different names that it calls equal |
| `KeyCompare.ToldApart` | lib/src/main/jni/native-lib.c:758-772 | the bound is sharp: one byte more than twice the length gives a no |
| `KeyCompare.ThirdByteSeen` | lib/src/main/jni/native-lib.c:758-772 | where three bytes are read, the third is what counts, folded or not depending on the second |
| `Table.LookupIsVals` | lib/src/main/jni/hashmap.c:215-226 | searching one bucket finds the values stored under the key anywhere in the table |
| `Table.ExpandKeepsItems` | lib/src/main/jni/hashmap.c:78-106 | relinking neither loses nor duplicates an entry |
| `Table.ExpandRefines` | lib/src/main/jni/hashmap.c:78-106 | expansion keeps the table well formed and changes no lookup |
| `Table.PutRefines` | lib/src/main/jni/hashmap.c:187-213 | a put changes the lookup of its key and of no other |
| `Table.RemoveRefines` | lib/src/main/jni/hashmap.c:270-287 | a removal clears the lookup of its key and of no other |
| `Table.DoRefines` | lib/src/main/jni/hashmap.c:187-287 | every call, with any allocation failures, has the result and effect of the same call on a map; a put that finds no memory changes nothing |
| `Table.RunRefines` | lib/src/main/jni/hashmap.c:187-287 | and so has every sequence of calls |
| `Table.SizeIsKeyCount` | lib/src/main/jni/hashmap.c:70-72 | size is the number of stored keys, one for each class of equal keys of the map |
| `Table.PutKeys` | lib/src/main/jni/hashmap.c:187-213 | a put stores its key when it is new and leaves the stored one as it is spelled otherwise; expansions change no key |
| `Load.CapacityExactly` | lib/src/main/jni/hashmap.c:33-39 | the buckets made for n entries hold them at three quarters exactly when 4n does not wrap a size_t |
| `Load.RunKeepsBuckets` | lib/src/main/jni/hashmap.c:78-84 | no run of calls with at most as many insertions as there is room for below three quarters expands the map |
| `Load.CapacitySuffices` | lib/src/main/jni/hashmap.c:33-39 | a map created for n entries takes any calls with at most n insertions without expanding, while 4n does not wrap |
| `Load.CapacityWraps` | lib/src/main/jni/hashmap.c:33-39 | when 4n wraps, at most n different keys make a map created for n entries expand |
| `Load.LoadStaysBelow` | lib/src/main/jni/hashmap.c:78-84 | over any run of calls in which expansions succeed, size is at most three quarters of the bucket count |
| `Hashmap.BucketCount` | lib/src/main/jni/hashmap.c:33-39 | the loop finds the least power of two above 4/3 of the capacity, as computed in 32 bits |
| `Hashmap.Hashmap.constructor` | lib/src/main/jni/hashmap.c:23-50 | an empty, valid map |
| `Hashmap.Hashmap.Search` | lib/src/main/jni/hashmap.c:169-185 | the walk along a chain ends at the first entry with the key, with its predecessor at hand |
| `Hashmap.Hashmap.Get` | lib/src/main/jni/hashmap.c:215-226 | the linked map's get is the table's |
| `Hashmap.Hashmap.ContainsKey` | lib/src/main/jni/hashmap.c:228-239 | the linked map's containsKey is the table's |
| `Hashmap.Hashmap.EntryGet` | lib/src/main/jni/hashmap.c:169-185 | the entry whose value the table's lookup gives, with a stored key that equals the one looked up, or null |
| `Hashmap.Hashmap.Replace` | lib/src/main/jni/native-lib.c:455-463 | assigning the value of that entry has the effect of a put |
| `Hashmap.Hashmap.Put` | lib/src/main/jni/hashmap.c:187-213 | the linked map's put is the table's, for every pattern of allocation failures, and keeps the map valid |
| `Hashmap.Hashmap.Memoize` | lib/src/main/jni/hashmap.c:241-268 | the linked map's memoize is the table's |
| `Hashmap.Hashmap.Remove` | lib/src/main/jni/hashmap.c:270-287 | the linked map's remove is the table's |
| `Hashmap.Hashmap.Clear` | lib/src/main/jni/hashmap.c:108-122 | the linked map is empty and keeps its buckets |
| `Hashmap.Hashmap.ExpandIfNecessary` | lib/src/main/jni/hashmap.c:78-106 | in-place relinking of all chains is the table's expansion |
| `Hashmap.Relink` | lib/src/main/jni/hashmap.c:86-105 | the two loops move every entry to an array twice as long |
| `HeaderLine.WspTrimStart` | lib/src/main/jni/native-lib.c:356-360 | trims spaces from the front |
| `HeaderLine.WspTrimEnd` | lib/src/main/jni/native-lib.c:362-371 | trims spaces, line ends and NULs from the end |
| `HeaderLine.Parse` | lib/src/main/jni/native-lib.c:378-440 | the parsing half of header_callback, copying of name and value as C strings included, computes Read |
| `HeaderLine.ReadPrint` | lib/src/main/jni/native-lib.c:381-440 | a printed name and value, with any spaces around the colon and behind the value and a CRLF, are read back exactly if and only if the byte behind the line is blank, as a NUL is, and neither has a NUL inside |
| `HeaderLine.PrintedIsRead` | lib/src/main/jni/native-lib.c:381-440 | status lines, fields and blank lines that survive printing are read as what they print |
| `HeaderLine.StatusRecognised` | lib/src/main/jni/native-lib.c:390-394 | a status line is taken for one exactly when it has no colon, otherwise for a field |
| `HeaderLine.LineKinds` | lib/src/main/jni/native-lib.c:390-417 | which lines are status lines, which end the headers, and that all others are fields |
| `HeaderLine.TrimEndExactly` | lib/src/main/jni/native-lib.c:362-371 | what is trimmed from the end is all the NULs, spaces, returns and line feeds there and nothing else |
| `HeaderLine.TrimStartExactly` | lib/src/main/jni/native-lib.c:356-360 | what is trimmed from the front is all the spaces there |
| `HeaderRings.SelComplete` | lib/src/main/jni/native-lib.c:448-464 | the positions of a name in the log are all its arrivals |
| `HeaderRings.ArriveCyclic` | lib/src/main/jni/native-lib.c:448-464 | the linking of one more value keeps every ring: from the oldest value each leads to the next in order of arrival, and the newest to the oldest |
| `HeaderRings.ArriveAgree` | lib/src/main/jni/native-lib.c:448-464 | and the index leads from every name to its newest value |
| `HeaderRings.ArriveFirst` | lib/src/main/jni/native-lib.c:448-464 | and stores every name as it was spelled when it first arrived |
| `HeaderRings.LinkAlone` | lib/src/main/jni/native-lib.c:449-453 | the first value of a name is a ring of its own |
| `HeaderRings.LinkAfter` | lib/src/main/jni/native-lib.c:455-463 | a further value is linked between the newest and the oldest |
| `HeaderRings.WriteValues` | lib/src/main/jni/native-lib.c:1542-1562 | the traversal from `ref` on writes every value of the ring once, in order of arrival, and terminates |
| `HeaderIndex.GroupsCount` | lib/src/main/jni/native-lib.c:1510 | the stored rings together hold every arrival once, and none is empty |
| `HeaderIndex.GroupsAreMultimap` | lib/src/main/jni/native-lib.c:1528-1568 | the stored names are those that arrived, each once up to equality and as it was first spelled |
| `HeaderIndex.ResponseIndex.Add` | lib/src/main/jni/native-lib.c:448-464 | a field is added to its ring and to the index, under the first spelling of its name, which is handed back; with no memory for a new entry both stay as they were |
| `HeaderIndex.ResponseIndex.Clear` | lib/src/main/jni/native-lib.c:399-406 | the index is empty |
| `HeaderIndex.ResponseIndex.Flatten` | lib/src/main/jni/native-lib.c:1486-1580 | null exactly with no field; a store behind the end of the array exactly when the log counts fewer fields than the index; otherwise the array holds the encoded groups, and nulls behind them where the log counts more |
| `HeaderIndex.WriteBuckets` | lib/src/main/jni/native-lib.c:1526-1568 | the loops over buckets, entries and rings write the groups one behind the other, and throw exactly when they do not fit |
| `HeaderArray.EncodedLength` | lib/src/main/jni/native-lib.c:1510 | the array has two slots per name and one per value, less one |
| `HeaderArray.DecodeEncode` | lib/src/main/java/net/sf/chttpc/CurlConnection.java:163-182 | decoding gives back every encoded name with its values in order |
| `HeaderArray.MissingExactly` | lib/src/main/java/net/sf/chttpc/CurlConnection.java:163-182 | the decoder throws exactly when a field begins in the last cell |
| `HeaderStore.NamesLawful` | lib/src/main/jni/native-lib.c:738-772 | equality up to ASCII case is an equivalence and consistent with the hash |
| `HeaderStore.LastResponseRemains` | lib/src/main/jni/native-lib.c:390-417 | the lines of any number of responses come in order, and what remains is the last response |
| `HeaderStore.HeaderStore.EnsureCapacity` | lib/src/main/jni/native-lib.c:240-259 | growth, to half as much again as is asked for, keeps all pairs and makes room, or fails and changes nothing |
| `HeaderStore.HeaderStore.OnStatus` | lib/src/main/jni/native-lib.c:396-409 | a status line restarts an ended store and becomes pair 0; with no blank line before it, it replaces pair 0 and counts a pair that was never written |
| `HeaderStore.HeaderStore.OnField` | lib/src/main/jni/native-lib.c:448-490 | a field becomes the next pair and is added to the index; all indices stay inside the array |
| `HeaderStore.HeaderStore.HeaderCallback` | lib/src/main/jni/native-lib.c:378-491 | the callback on a received line has the effect of that line on the log; pair 0 is the status line and pair k the k-th field of the current response, its name as it was first spelled there, and while memory lasts the pair array and the index hold the same fields |
| `HeaderStore.HeaderStore.Reset` | lib/src/main/jni/native-lib.c:857-866 | the store is as new |
| `HeaderStore.HeaderStore.SpecialHeader` | lib/src/main/jni/native-lib.c:1702-1716 | positive n gives the value of the n-th field of the current response, 0 the status line, negative n the name of a field as it was first spelled; a negative n past the last pair gives a stale name or something never written |
| `HeaderStore.HeaderStore.ResponseHeaders` | lib/src/main/jni/native-lib.c:1486-1580 | the array decodes to the map of the indexed fields, and overruns exactly when the pair array lost one of them; where both agree it is the map of the current response, filled exactly (2 names + values - 1 cells) |
| `HeaderExchange.Exchange` | lib/src/main/jni/native-lib.c:378-491 | for every sequence of responses handed over line by line, whatever becomes of larger bucket arrays, the store ends up with the status and fields of the last one, and its array decodes to their map |
| `JavaHeaders.HeaderPair.Get` | deps/src/main/java/net/sf/chttpc/HeaderPair.java:30-42 | the element at an index of the list, exactly when the call succeeds, and what it gives past the end of a slice |
| `JavaHeaders.HeaderPair.Append` | deps/src/main/java/net/sf/chttpc/HeaderPair.java:44-62 | the list gets the element at its end, through the switch from one string to an array and every regrowth; it throws exactly for a slice of one and for a slice, not from the start, that reaches the end of its array |
| `JavaHeaders.HeaderMap.Append` | deps/src/main/java/net/sf/chttpc/HeaderMap.java:23-31 | the list of the name, up to case, gets the value at its end, and no other list changes; a new entry has the given name as its key and an old one keeps its own; it throws exactly when that list is a slice that cannot be extended |
| `JavaHeaders.HeaderMap.AppendSlice` | deps/src/main/java/net/sf/chttpc/HeaderMap.java:33-52 | the name has exactly the slice as its list, copied or not, in an entry with this name as its key, and no other list or key changes |
| `JavaHeaders.RequestProperties` | lib/src/main/java/net/sf/chttpc/CurlConnection.java:497-503 | for every name up to case, the list of its values in array order, under the first spelling of the name; it throws exactly for a name in the last cell |
| `JavaHeaders.SpreadIsRead` | lib/src/main/java/net/sf/chttpc/CurlConnection.java:497-503 | the loop reads back any list of pairs from its array |
| `JavaHeaders.ThrowsExactly` | lib/src/main/java/net/sf/chttpc/CurlConnection.java:497-503 | the loop throws exactly when the number of cells is odd and every second one holds a name |
| `JavaHeaders.HeaderFields` | lib/src/main/java/net/sf/chttpc/CurlConnection.java:163-182 | the map has for every name the cells that the decoder finds, under the name that it finds, and no other entry |
| `RoundTrip.LookupIsValues` | lib/src/main/java/net/sf/chttpc/CurlConnection.java:163-182 | looking a name up in the decoded map gives its values in order of arrival, under the spelling of its first arrival, or nothing when there is none |
| `RoundTrip.EntryKeysArrived` | deps/src/main/java/net/sf/chttpc/HeaderPair.java:69-72 | the key of every entry of the map is a name that arrived in the response |
| `RoundTrip.ArrivedHasEntry` | deps/src/main/java/net/sf/chttpc/HeaderMap.java:33-52 | every name that arrived has an entry, whose key is that name up to case |
| `RoundTrip.FetchHeaders` | lib/src/main/java/net/sf/chttpc/CurlConnection.java:149-182 | from received lines that read as the responses to the Java map: for every name, up to case, the values of the last response in order of arrival, in an entry whose key is the name as it first arrived there, and no other entries |
| `RoundTrip.PrintAndFetch` | lib/src/main/java/net/sf/chttpc/CurlConnection.java:149-182 | the whole round trip: any responses, printed to lines with any spacing, parsed, indexed, flattened and decoded, give that map |
| `Decimal.TextIsCanonical` | lib/src/main/java/net/sf/chttpc/MutableUrl.java:201-246 | decimal text has no leading zero and parses back to its number |
| `Decimal.CanonicalIsText` | lib/src/main/java/net/sf/chttpc/MutableUrl.java:201-246 | and is the only text that does |
| `Decimal.StringSize` | lib/src/main/java/net/sf/chttpc/MutableUrl.java:153-161 | the length of the decimal text |
| `Decimal.MultiplyShift` | lib/src/main/java/net/sf/chttpc/MutableUrl.java:236-242 | below 65536, multiplying by 52429 in 32 bits and shifting by 19 without sign divides by ten |
| `Decimal.PrintLong` | lib/src/main/java/net/sf/chttpc/MutableUrl.java:212-220 | the first loop prints two digits at a time until the rest fits an int |
| `Decimal.PrintInt` | lib/src/main/java/net/sf/chttpc/MutableUrl.java:222-232 | the second loop until it is below 65536 |
| `Decimal.PrintSmall` | lib/src/main/java/net/sf/chttpc/MutableUrl.java:234-242 | the third loop ends exactly at the first slot of the text |
| `Decimal.GetNumberChars` | lib/src/main/java/net/sf/chttpc/MutableUrl.java:201-246 | exactly the slots in front of the index are filled, with the signed text; the least long prints as -0 |
| `MutableUrl.Grow` | lib/src/main/java/net/sf/chttpc/MutableUrl.java:133-145 | the new size holds the additions, is at least two and a half times the old one, and ten more, as far as the limit allows, and no larger than either asks for; it throws exactly when the additions cannot fit |
| `MutableUrl.MutableUrl.EnsureBufferSpace` | lib/src/main/java/net/sf/chttpc/MutableUrl.java:124-131 | the text is kept and there is room, or it fails and changes nothing; cells behind the text stay zero |
| `MutableUrl.MutableUrl.AppendChars` | lib/src/main/java/net/sf/chttpc/MutableUrl.java:34-69 | the text with the characters behind it |
| `MutableUrl.MutableUrl.AppendLong` | lib/src/main/java/net/sf/chttpc/MutableUrl.java:71-79 | the text with the canonical decimal text behind it, for every long but the least, whose text is wrong in the way stated |
| `MutableUrl.MutableUrl.AppendPart` | lib/src/main/java/net/sf/chttpc/MutableUrl.java:43-47 | what append(String, off, count) adds as written, for any arguments and any buffer: the characters from off to count, and then what the buffer happens to hold |
| `MutableUrl.PartAppendedExactly` | lib/src/main/java/net/sf/chttpc/MutableUrl.java:43-47 | it is the requested part exactly when the offset is 0 or the characters it misses are NULs |
| `MutableUrl.MutableUrl.SetLength` | lib/src/main/java/net/sf/chttpc/MutableUrl.java:81-91 | the text is cut, or extended by the cells behind it, which are NULs where those are zero; cells behind it stay zero |
| `MutableUrl.MutableUrl.Clear` | lib/src/main/java/net/sf/chttpc/MutableUrl.java:93-95 | the text is empty and the cells are zero |
| `MutableUrl.MutableUrl.Release` | lib/src/main/java/net/sf/chttpc/MutableUrl.java:97-100 | the buffer is as new |
| `MutableUrl.MutableUrl.WriteBack` | lib/src/main/jni/native-lib.c:1252-1276 | the effective URL is written into the array, with a NUL behind it where there is room, or into a new array |
| `MutableUrl.MutableUrl.UpdateUrl` | lib/src/main/java/net/sf/chttpc/CurlHttp.java:382-395 | the text up to the first NUL of the same array, or all of a new one |
| `MutableUrl.MutableUrl.FollowRedirects` | lib/src/main/java/net/sf/chttpc/CurlHttp.java:377-395 | both together |
| `MutableUrl.RedirectReplaces` | lib/src/main/jni/native-lib.c:1252-1276 | after a redirect the URL is exactly the effective one, whether shorter than, equal to or longer than the buffer |
| `MutableUrl.WideUrlStays` | lib/src/main/jni/native-lib.c:1252-1276 | a URL with a character beyond a byte that is taken for the effective one and stays |
| `MutableUrl.NoRedirectKeeps` | lib/src/main/jni/native-lib.c:1252-1276 | without one the text stays exactly when it has no NUL and is followed by one or by nothing |
| `MutableUrl.StaleTail` | lib/src/main/java/net/sf/chttpc/CurlHttp.java:382-395 | a redirect to a shorter URL and then a longer text of its own lead to a URL with a stale tail |
| `CleanerList.Cleaners.Create` | lib/src/main/java/net/sf/chttpc/CleanerRef.java:28-44 | a new reference in front of the list |
| `CleanerList.Cleaners.Remove` | lib/src/main/java/net/sf/chttpc/CleanerRef.java:46-70 | true for the one call that finds the reference in the list, which loses just that reference and stays doubly linked |
| `CleanerList.Cleaners.Close` | lib/src/main/java/net/sf/chttpc/CleanerRef.java:72-76 | the list loses just this reference, if it was there, and its handle has been disposed of once or is about to be by another thread |
| `CleanerList.Unlink` | lib/src/main/java/net/sf/chttpc/CleanerRef.java:52-67 | the link surgery, at the front, in the middle and at the end |
| `CleanerList.Execute` | lib/src/main/java/net/sf/chttpc/CleanerRef.java:28-76 | every interleaving of creations, removals and disposals by any threads, on the real list: it is the doubly linked list of exactly the references made and not closed, each with the handle it was made for; each handle is disposed of at most once, and once if it was closed and no thread is about to; and the threads about to are, in order, those that the schedule leaves between a removal and its disposal |
| `Timeout.ChargeIsElapsed` | lib/src/main/jni/native-lib.c:985-994 | a charge never exceeds the elapsed milliseconds and falls short of them by exactly the milliseconds by which the nanoseconds of the readings grew: by less than a second, and not at all exactly when they did not grow by a millisecond or more |
| `Timeout.Account` | lib/src/main/jni/native-lib.c:910-1003 | the loop reports the first round in which the budget is used up; with a clock that does not go back it has done so by every wait that is overdue by a second per wait |
| `Timeout.ChargedAtMostElapsed` | lib/src/main/jni/native-lib.c:982-1003 | over rounds without socket events everything charged is at most the time since the call began |
| `Timeout.QuietIsNeverEarly` | lib/src/main/jni/native-lib.c:982-1003 | so no timeout is reported early in such a call |
| `Timeout.ChargedAlmostElapsed` | lib/src/main/jni/native-lib.c:982-1003 | with events or without, what was charged since the budget was set falls short of the time since then by at most a second for every wait |
| `Timeout.OverdueExpires` | lib/src/main/jni/native-lib.c:996-1000 | so a wait without events that ends later than the budget and a second per wait since it was set times out |
| `Timeout.QuietIsReported` | lib/src/main/jni/native-lib.c:996-1000 | and without any events the timeout has been reported by then |
| `Timeout.EarlyExactlyAfterEvents` | lib/src/main/jni/native-lib.c:982-1003 | a pattern of events admits an early timeout if and only if a wait without events follows one with events |
| `BadCache.WorkSet.TryRecycle` | app/src/main/java/net/sf/chttpc/demo/WorkSet.java:24-30 | recycles exactly the bitmaps that are not in use |
| `BadCache.BadCache.GetCached` | app/src/main/java/net/sf/chttpc/demo/BadCache.java:20-22 | the bitmap of the key, now first, with the others behind it in their order; a lookup that finds nothing changes nothing |
| `BadCache.BadCache.Evict` | app/src/main/java/net/sf/chttpc/demo/BadCache.java:27-36 | the victim is the least recently used bitmap not in use; with all in use the full rotation restores the order |
| `BadCache.BadCache.PutIntoCache` | app/src/main/java/net/sf/chttpc/demo/BadCache.java:24-39 | the new bitmap is first; behind it is every old entry but the victim of a full cache and one of the same key, and nothing else; with fewer than five entries the others keep their order |
| `BadCache.EvictsOne` | app/src/main/java/net/sf/chttpc/demo/BadCache.java:27-36 | eviction loses the victim and nothing else |
| `BadCache.PutMeans` | app/src/main/java/net/sf/chttpc/demo/BadCache.java:24-39 | a put leaves its entry first and behind it exactly the others, but one of the same key and the victim of a full cache; with room left they keep their order |
| `BadCache.UseHolds` | app/src/main/java/net/sf/chttpc/demo/BadCache.java:20-39 | after a put or a lookup a key has a bitmap if and only if that was put under it, or it had it before and it was neither replaced nor given up |
| `BadCache.LookupAfterPut` | app/src/main/java/net/sf/chttpc/demo/BadCache.java:20-39 | over any run of puts and lookups that neither replaces nor gives up a bitmap, a lookup of its key gives it |
| `BadCache.InUseIsKept` | app/src/main/java/net/sf/chttpc/demo/BadCache.java:27-36 | and a bitmap in use is never given up |
| `BadCache.CacheStaysSmall` | app/src/main/java/net/sf/chttpc/demo/BadCache.java:24-39 | over any run of puts and lookups the cache holds at most five bitmaps, or one more than were in use together |

## Left out

- libcurl, JNI, signals, sockets, TLS, proxy and DNS options, logging, and the mapping of error codes to exceptions: foreign calls; of libcurl only the callback contract is kept.
- The header store with the shipped key comparison: a map whose equality is not lawful refines no map; KeyCompare says what the comparison does, and the store uses the intended equality.
- Request-header list editing and listing (`setHeader`, `addHeader`, `getRequestHeaders`): only the Java loop over the resulting array is modelled.
- Full memory reclamation: `releaseHeaders` frees every second pair only; the model has no `free`.
- HeaderStore.HeaderStore.OnField: at most 65534 fields in a response, because the pair counter has 16 bits; the failure of the first `malloc` of the callback, whose result is not looked at, is left out.
- HeaderStore.HeaderStore.HeaderCallback: lines out of order, of which OnStatus says what a status line does, and a full 16-bit counter are excluded.
- HeaderExchange.Exchange: entries and pairs find their memory; bucket arrays need not.
- RoundTrip.FetchHeaders: the same.
- JavaHeaders.HeaderPair.Append: slices share their array in Java; the model gives each list its own, so it does not show that appending to a slice overwrites a cell of its neighbour.
- JavaHeaders.HeaderMap: the open-addressing table under it (HPPC) is a map by folded name.
- Transfer.CurlData.CheckResult: the queue of messages of the multi handle, which has one easy handle, is two flags: done and reported.
- Transfer.CurlData.Configure: the setting of options and the URL buffer's allocation, whose failure returns early, are left out.
- Transfer.CurlData: the state word is one boolean per bit; the perform loop sees of the headers only their number, the end marker and whether there is a Location; `uploadedCount` and `uploadGoal` are unbounded.
- Protocol: a run configures a handle once between resets, as the documentation of `configure` demands.
- MutableUrl: `subSequence`, `charAt`, and the rounding of the growth factor beyond 2^24 characters; characters of headers are ASCII where C narrows them.
- Timeout.Account: seconds that overflow a 32-bit product, after some 24 days in one wait.
- `hashmapForEach`, `hashmapCountCollisions`, `hashmapHash` and the integer-key helpers: unused by the store or one loop each.
- Sizing of the conversion buffer by `maxHeaderLength`.
- Header-map and response-message caching across `reset`, the demo's user interface, tile levels, build scripts.
