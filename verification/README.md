# Ocean server: a Dafny model of its parser, timers, pools and streams

The project models the parts of the server whose correctness is not visible from one function at a
time, and proves what they guarantee over all inputs, all runs or all interleavings:

- **The HTTP request parser** (`HttpRequest`, `HttpConnection`): a resumable two-level state machine
  that rewrites the 2048-byte buffer it is reading. `HttpPure` shows that the destructive parse equals
  a parse of the immutable stream and settles, on top of `HttpSplit`, for every stream and every way of
  cutting it into reads, when the outcome is independent of the cuts. `HttpHead` says which streams have
  a request head and what the parser learns from it. `HttpGrammar` and `HttpHeaders` compare the
  handlers with the grammar of sections 3 and 3.2 of RFC 9112 and with the header fields they look for.
- **The response printer** (`HttpResponse`), the round trip of its headers through the parser, and the
  framing of whole responses (`HttpRoundTrip`).
- **The sorted timer list** (`TimerOrder`, `TimerList`) as a pointer-linked list, and whole runs of the
  web server that drives it (`IdleTimers`, `WebServerTimers`).
- **Thread pool and SQL connection pool** (`ThreadPool`, `SqlPool`, `Workers`) as step relations over
  the program counters of any number of threads (`Threads` holds the counting lemmas).
- **The blocking ring queue** (`BlockQueue`) and its condition-variable protocol (`QueueWaits`).
- **The consistent-hash ring** (`HashRing`).
- **The AMF byte streams** (`AmfBytes`, `AmfStreams`) over chunked zero-copy buffers.

## Reading the model

- Bytes are `char` in the HTTP modules and numbers below 256 in the AMF modules. Pointers into a buffer
  are indices, NULL is `None`. `do_request`, the file system, the database client, sockets and the clock
  are not modelled: a read is an append of bytes, the time is a parameter, and the parser's
  `GetRequest` is the moment at which `do_request` would be called.
- Where C++ leaves the behaviour undefined the model has an explicit result: `Undefined` for a null
  pointer passed to `strncasecmp` (http_conn.cpp:415-421) and for a body store outside the buffer
  (http_conn.cpp:489), `OutOfBounds` for the access with index -1 in `block_queue::front`
  (block_queue.h:116).
- The reading and the printing half of `http_conn` are two objects, which share only the linger flag. The
  ordered map of the hash ring is its in-order sequence of entries; the timer fields of `users_timer` are
  a map from descriptors to timers.
- `atol` saturates at the limits of a 64-bit `long`, as `strtol` does.
- `parse_content` has no return statement for an incomplete body (http_conn.cpp:484-494); the model takes
  NO_REQUEST.
- The thread pool's constructor does not store its arguments (threadpool.h:39-46); the model takes them
  as stored. `find` asserts that the ring is empty (consistent_hash.h:72); the model requires that it is
  not.
- A statement that turned out not to hold in general is given with the exact condition under which it
  does: split independence (`SplitIndependence`, failing in `SplitBodyStarves`), repositioning a timer
  (`AdjustTimer`, failing in `LoweredExpiry`), framing of large files (`ResponseFraming`, `FileFraming`),
  `front` (`FrontIsNextIff`, failing in `FrontAfterPop` and `FrontBeforePop`), `check_emptiness`
  (`CheckEmptiness`, failing in `DryNotReported`), insert followed by erase (`InsertErase`), the arc sums
  (`ArcAccounting`).

## Model

| member | source | states |
|---|---|---|
| HttpPure.SplitIndependence | ocean_http/http/http_conn.cpp:255-302 | for every stream that fits the buffer and every cutting into reads: calling `process_read` after each read agrees with one call on the whole stream (code, request, pointers, position, buffer before it, body text) if and only if, in the stream as it was sent, the head has no body, or the stream ends inside the body, or no read ends inside the body where the line scanner runs on over body bytes |
| HttpPure.WaitsForBody | ocean_http/http/http_conn.cpp:288-299 | behind a head with a body one call waits for more exactly if the announced length exceeds what the stream holds |
| HttpPure.BodyHandedOver | ocean_http/http/http_conn.cpp:484-494 | a body that the stream holds, with room for a NUL behind it, is handed over: its text is the announced number of bytes behind the head, up to the first NUL among them |
| HttpHead.HeadExactly | ocean_http/http/http_conn.cpp:255-302 | for every stream: the parser leaves the head at `i`, for GET_REQUEST or for the body, if and only if the first `i` bytes are a request line of the grammar, lines with some text, and a first line without |
| HttpHead.HeadMeaning | ocean_http/http/http_conn.cpp:255-302 | what it has learnt there: method, cgi, url and version as the request line says, the linger flag exactly if some line asks to keep the connection alive, and a body exactly if a length was announced |
| HttpHead.HeadLength | ocean_http/http/http_conn.cpp:442-481 | the announced length is that of the last line that announces one, and zero without any |
| HttpHead.HeadEndsAtBlankLine | ocean_http/http/http_conn.cpp:446-454 | in a stream without NULs the head ends with the first CR LF CR LF |
| HttpHead.FirstLineRejected | ocean_http/http/http_conn.cpp:376-439 | a complete first line outside the grammar ends the request with BAD_REQUEST, or with the null pointer in exactly its case |
| HttpSplit.SplitByHead | ocean_http/http/http_conn.cpp:255-302 | the same equivalence, with the condition read off the parser's own run on the whole stream |
| HttpSplit.SplitBodyStarves | ocean_http/http/http_conn.cpp:288-295 | the failing family: a body in two ordinary pieces is taken in one read and never completed in two |
| HttpSplit.BadLineAbsorbs | ocean_http/http/http_conn.cpp:652-685 | LINE_BAD is final: no later reads move the position, change the request or give an outcome |
| HttpSplit.ScanFeed | ocean_http/http/http_conn.cpp:652-685 | a delivered or bad line is unaffected by later bytes, an open one is scanned on from where the scan stopped |
| HttpSplit.HeadFeed | ocean_http/http/http_conn.cpp:261-287 | later bytes commute with everything done up to the blank line |
| HttpSplit.HeadFrame | ocean_http/http/http_conn.cpp:255-302 | parsing the head leaves every byte behind the scan position as received |
| HttpSplit.BodyScan | ocean_http/http/http_conn.cpp:288-299 | while the body is incomplete, `process_read` only runs the line scanner over body bytes |
| HttpSplit.CompleteFeed | ocean_http/http/http_conn.cpp:484-494 | a complete body is taken the same way whatever bytes follow it |
| HttpPure.HeadIsPure | ocean_http/http/http_conn.cpp:255-302 | the in-place parse, with its NULs and "judge.html", gives the request, position and end that the immutable stream determines line by line |
| HttpPure.StreamDeterminesHead | ocean_http/http/http_conn.cpp:229-302 | the same from a fresh connection for every stream that fits |
| HttpRequest.ParseLineMeaning | ocean_http/http/http_conn.cpp:652-685 | from any clean state the LF-after-CR repair branch is dead; a line is delivered exactly when the first end-of-line byte is a CR with an LF buffered behind it; otherwise only the position moves |
| HttpRequest.ParseLineClean | ocean_http/http/http_conn.cpp:652-685 | no CR and no LF is ever left before the position, and a delivered line is followed by its two NULs |
| HttpRequest.EffectFrame | ocean_http/http/http_conn.cpp:386-435 | every store of a line handler lands inside the line just consumed, never at or past `m_checked_idx`, and brings no CR or LF |
| HttpRequest.PatchFrame | ocean_http/http/http_conn.cpp:386-435 | stores change no byte outside their range |
| HttpRequest.ParseRequestLine | ocean_http/http/http_conn.cpp:376-439 | stores stay within the text and its two NULs (the 11 bytes of `strcat` reach at most the line's end), fields other than method, cgi, url, version and state are untouched |
| HttpRequest.ProcessRead | ocean_http/http/http_conn.cpp:255-302 | terminates from every reachable state, keeps the state well formed and clean, never moves the position back and never touches `m_read_idx` |
| HttpGrammar.RequestLineGrammar | ocean_http/http/http_conn.cpp:376-439 | a request line is accepted if and only if it is method, blanks, target, blanks, version with an origin-form or absolute-form target |
| HttpGrammar.RequestLineAccepts | ocean_http/http/http_conn.cpp:376-439 | the exact consequences of every accepted line: GET or POST as the name spells it, cgi exactly for POST or if it was set, url and version pointers, state and stores |
| HttpGrammar.MethodIs | ocean_http/http/http_conn.cpp:388-400 | the method is GET exactly for the name GET and POST exactly for the name POST, in letters of any case |
| HttpGrammar.RejectedStays | ocean_http/http/http_conn.cpp:376-439 | a line that is not accepted leaves the parser in its state |
| CStrings.SameLetter | ocean_http/http/http_conn.cpp:388-396 | two characters compare equal exactly if they are the same or one letter in both cases |
| HttpGrammar.JudgeRoom | ocean_http/http/http_conn.cpp:433-435 | the 11 bytes of `strcat` end at most behind the line's two NULs, and exactly there if one blank precedes the version |
| HttpGrammar.NullPointerExactly | ocean_http/http/http_conn.cpp:415-425 | the null pointer reaches the second scheme test exactly for an "http://" target without a slash behind the authority |
| HttpGrammar.UrlText | ocean_http/http/http_conn.cpp:402-436 | after the stores the C string at `m_url` is the path of the target, and "/judge.html" instead of "/" |
| HttpHeaders.LingerExactly | ocean_http/http/http_conn.cpp:455-463 | the linger flag is raised exactly by a Connection field with value keep-alive and is never lowered |
| HttpHeaders.LengthExactly | ocean_http/http/http_conn.cpp:464-469 | the content length is set exactly by a Content-length field, to the number its value starts with |
| HttpHeaders.BlankLineExactly | ocean_http/http/http_conn.cpp:446-454 | GET_REQUEST comes exactly from a line without text when no length was announced, the move to the body exactly from one when a length was; every other line leads on |
| HttpHeaders.HostNeverFromField | ocean_http/http/http_conn.cpp:470-475 | the comparison of five characters accepts only a bare "Host" line, for which the host is set; a "Host:" field is never recorded |
| HttpHeaders.HostSpanMeaning | ocean_http/http/http_conn.cpp:470-475 | the recorded host is the first byte behind the NUL that is no blank |
| HttpHeaders.BodyStoreMisses | ocean_http/http/http_conn.cpp:487-492 | a complete body's store misses the buffer exactly for a negative length reaching below it or a body ending with its last byte |
| HttpConnection.HttpConn.constructor | ocean_http/http/http_conn.cpp:229-253 | the state of a fresh connection |
| HttpConnection.HttpConn.Receive | ocean_http/http/http_conn.cpp:150-152 | the received bytes are stored at `m_read_idx` and nothing else changes |
| HttpConnection.HttpConn.ParseLine | ocean_http/http/http_conn.cpp:652-685 | the scanning loop on the array computes the specified scan |
| HttpConnection.HttpConn.ParseRequestLine | ocean_http/http/http_conn.cpp:376-439 | reading and storing in the same buffer, the handler has exactly the effect that the line's characters determine |
| HttpConnection.HttpConn.AfterMethod | ocean_http/http/http_conn.cpp:402-439 | the same for the part behind the method test |
| HttpConnection.HttpConn.LocatePath | ocean_http/http/http_conn.cpp:415-425 | `m_url` ends at the path of the target, or null, and the fault is reported exactly when the second test gets null |
| HttpConnection.HttpConn.FinishRequestLine | ocean_http/http/http_conn.cpp:415-438 | the same for the part behind the version test |
| HttpConnection.HttpConn.ParseHeaders | ocean_http/http/http_conn.cpp:442-481 | the header handler on the object has the specified effect and stores nothing into the buffer |
| HttpConnection.HttpConn.ParseContent | ocean_http/http/http_conn.cpp:484-494 | the body check on the object has the specified effect |
| HttpConnection.HttpConn.HandleLine | ocean_http/http/http_conn.cpp:264-298 | one turn of the switch is the specified step |
| HttpConnection.HttpConn.ProcessRead | ocean_http/http/http_conn.cpp:255-302 | the loop on the array computes the specified result, so every lemma above holds of the object |
| HttpResponse.ResponseWriter.Vsnprintf | ocean_http/http/http_conn.cpp:707 | a bounded print stores as much of the text as leaves room for a NUL, and the NUL, and changes nothing else |
| HttpResponse.ResponseWriter.AddResponse | ocean_http/http/http_conn.cpp:696-721 | appends the whole text and succeeds exactly if at most 1022 bytes result, otherwise leaves what was written |
| HttpResponse.ResponseWriter.AddHeaders | ocean_http/http/http_conn.cpp:733-756 | length, connection and blank line in this order, successful exactly if all of them fit, otherwise with those before the first that does not |
| HttpResponse.ResponseWriter.ProcessWrite | ocean_http/http/http_conn.cpp:304-373 | which outcomes are answered, the whole text, and iovec lengths and `bytes_to_send`; no print fails |
| HttpResponse.ResponseWriter.SendError | ocean_http/http/http_conn.cpp:308-337 | status line, headers with the length of the page, and the page, as one buffer |
| HttpResponse.ResponseWriter.SendFile | ocean_http/http/http_conn.cpp:338-363 | head and file as two parts; a zero-length file is not answered |
| HttpRoundTrip.ResponseFraming | ocean_http/http/http_conn.cpp:304-373 | for every answered outcome: what the header parser reads as length between the first line and the first blank line is the number of bytes behind the blank line, file included, exactly if the file's size fits an int; the flag is read back too |
| HttpRoundTrip.HeaderReadBack | ocean_http/http/http_conn.cpp:733-756 | length and flag are read back for every int, also a negative one |
| HttpResponse.FileFraming | ocean_http/http/http_conn.cpp:343-351 | the printed length is the file's size exactly if the size fits an int, and `bytes_to_send` is the sum of the parts exactly if the sum does |
| HttpResponse.AnswerTexts | ocean_http/http/http_conn.cpp:304-345 | the literal text of each error answer and of the first line in front of a file |
| HttpResponse.AtolText | ocean_http/http/http_conn.cpp:464-469 | `atol` skips white space, takes a sign, stops at the first other character and saturates |
| HttpResponse.AtolPlus | ocean_http/http/http_conn.cpp:464-469 | the same with a plus sign |
| HttpResponse.AtolFormat | ocean_http/http/http_conn.cpp:743-746 | reading back a printed number gives the number |
| HttpRoundTrip.HeaderRoundTrip | ocean_http/http/http_conn.cpp:733-756 | for every non-negative int and flag the printed headers, received in the header state, give back length and flag, are consumed exactly, and lead to GET_REQUEST or into the body |
| TimerOrder.InsertSorted | ocean_http/timer/lst_timer.cpp:229-255 | stable insertion keeps a list sorted and adds exactly the new entry |
| TimerOrder.ExpiredIsPrefix | ocean_http/timer/lst_timer.cpp:113-130 | in a sorted list the expired entries are a prefix and the others the rest, in order |
| TimerOrder.StayInPlace | ocean_http/timer/lst_timer.cpp:48-52 | a timer that still expires before its successor is in order exactly if it does not expire before its predecessor, and then reinsertion would not move it |
| TimerList.SortTimerLst.AddTimer | ocean_http/timer/lst_timer.cpp:20-39 | the linked list stays well formed and becomes the stable insertion, behind equal expiries |
| TimerList.SortTimerLst.AddFrom | ocean_http/timer/lst_timer.cpp:229-255 | links the timer before the first later node behind the start, or last |
| TimerList.SortTimerLst.AdjustTimer | ocean_http/timer/lst_timer.cpp:41-68 | remove then reinsert; the list ends up sorted if and only if the new expiry is not below the predecessor's |
| TimerList.LoweredExpiry | ocean_http/timer/lst_timer.cpp:41-52 | the failing family: a timer lowered below its predecessor stays behind it |
| TimerList.SortTimerLst.Move | ocean_http/timer/lst_timer.cpp:54-67 | taking the node out and linking it in further on is removal followed by stable insertion |
| TimerList.SortTimerLst.DelTimer | ocean_http/timer/lst_timer.cpp:70-104 | removes exactly that node and keeps the rest linked and sorted |
| TimerList.SortTimerLst.Tick | ocean_http/timer/lst_timer.cpp:106-131 | terminates; the callback runs once, in order, for exactly the timers that have expired; the others remain in order |
| IdleTimers.RunsAreLru | ocean_http/webserver.cpp:216-264 | in every legal run under a clock that never goes back the list holds exactly the open connections in the order of their last touch, each expiring three slots after it |
| IdleTimers.TouchedGoesLast | ocean_http/webserver.cpp:226-254 | a new or touched timer ends at the tail |
| IdleTimers.AfterTick | ocean_http/timer/lst_timer.cpp:206-210 | after every sweep all expiries lie in (cur, cur + 15] |
| IdleTimers.TickClosesIdle | ocean_http/timer/lst_timer.cpp:106-131 | a sweep takes an open connection off the list exactly if its last touch is at least 15 ago |
| WebServerTimers.WebServer.Timer | ocean_http/webserver.cpp:226-243 | accepting a connection extends the run by one connect event and keeps list and run in step |
| WebServerTimers.WebServer.AdjustTimer | ocean_http/webserver.cpp:247-254 | the same for activity |
| WebServerTimers.WebServer.DealTimer | ocean_http/webserver.cpp:256-264 | the same for a close |
| WebServerTimers.WebServer.TimerHandler | ocean_http/timer/lst_timer.cpp:206-227 | the same for a sweep, which closes exactly the expired descriptors in order |
| WebServerTimers.WebServer.ListIsLru | ocean_http/webserver.cpp:216-264 | in every reachable state of the object the linked list is the LRU list of its run |
| SqlPool.InitPool | ocean_http/cgimysql/sql_connection_pool.cpp:88-121 | the pool starts with every connection free and matching counters, unless a connection fails |
| SqlPool.RunInv | ocean_http/cgimysql/sql_connection_pool.cpp:15-54 | in every interleaving: list length is semaphore plus getters past the wait plus releasers not yet posted; free and held connections are the initial ones; counters lag only inside the lock; the lock has one holder |
| SqlPool.StepInv | ocean_http/cgimysql/sql_connection_pool.cpp:15-54 | every atomic step keeps that invariant |
| SqlPool.NullExactly | ocean_http/cgimysql/sql_connection_pool.cpp:15-24 | in every run a caller is given NULL exactly if the list is empty when it enters |
| SqlPool.GetAlone | ocean_http/cgimysql/sql_connection_pool.cpp:15-34 | an undisturbed get takes the first connection, one from the semaphore, and counts it as used |
| SqlPool.ReleaseAlone | ocean_http/cgimysql/sql_connection_pool.cpp:36-54 | an undisturbed release puts the connection behind the others and posts once |
| SqlPool.GetThenRelease | ocean_http/cgimysql/sql_connection_pool.cpp:15-54 | get and release together move the first connection to the end and change nothing else; NULL given back changes nothing |
| SqlPool.NeverPopsEmpty | ocean_http/cgimysql/sql_connection_pool.cpp:25-27 | `front()` is never called on an empty list |
| SqlPool.ExclusiveHolders | ocean_http/cgimysql/sql_connection_pool.cpp:15-54 | no connection has two holders, and a held one is not on the list |
| SqlPool.CountersAddUp | ocean_http/cgimysql/sql_connection_pool.cpp:29-48 | with nobody inside the lock free plus current is the maximum, also when NULL was handed out and given back |
| SqlPool.NoDeadlock | ocean_http/cgimysql/sql_connection_pool.cpp:15-54 | with at least one connection, some thread inside the pool can always move |
| ThreadPool.RunInv | ocean_http/threadpool/threadpool.h:74-132 | in every interleaving: queue length is semaphore plus appends not yet posted plus workers past the wait; the queue is bounded and FIFO; the empty-queue branch is unreachable |
| ThreadPool.StepInv | ocean_http/threadpool/threadpool.h:74-132 | every atomic step keeps that invariant |
| ThreadPool.AppendExactly | ocean_http/threadpool/threadpool.h:74-103 | in every run an append is rejected exactly if the queue is full at its test; otherwise its request is queued last |
| ThreadPool.DequeueExactly | ocean_http/threadpool/threadpool.h:118-128 | in every run a worker gets the request that was queued longest |
| ThreadPool.AppendAlone | ocean_http/threadpool/threadpool.h:74-103 | an undisturbed append queues its request and posts once, or changes nothing |
| ThreadPool.WorkAlone | ocean_http/threadpool/threadpool.h:114-132 | an undisturbed worker takes the first request, processes it and waits again |
| Workers.Safety | ocean_http/threadpool/threadpool.h:114-167 | both pools together: every state of every interleaving is safe for both |
| Workers.BusyWorkersProgress | ocean_http/threadpool/threadpool.h:133-166 | with at least one connection and any number of workers, busy workers are never all blocked at `reserve.wait()` |
| Workers.StuckMeansDone | ocean_http/threadpool/threadpool.h:114-167 | if nothing can move but new appends, every accepted request was dequeued and finished and every connection is back |
| Workers.CallsStart | ocean_http/threadpool/threadpool.h:74-167 | an append of any request, and the end of a request, are possible at any time |
| BlockQueue.Queue.Create | ocean_http/log/block_queue.h:42-55 | an empty queue with both indices at -1, or the end of the process for a size that is not positive |
| BlockQueue.Queue.Push | ocean_http/log/block_queue.h:156-175 | appends to the FIFO contents, or rejects exactly if full |
| BlockQueue.Queue.Pop | ocean_http/log/block_queue.h:190-195 | takes the oldest element, whose slot becomes the front index |
| BlockQueue.Queue.Clear | ocean_http/log/block_queue.h:68-76 | empties the queue and sets both indices back to -1 |
| BlockQueue.Queue.Back | ocean_http/log/block_queue.h:121-134 | returns the newest element |
| BlockQueue.Queue.Full | ocean_http/log/block_queue.h:78-90 | exactly at capacity |
| BlockQueue.Queue.Empty | ocean_http/log/block_queue.h:92-104 | exactly without elements |
| BlockQueue.Queue.Front | ocean_http/log/block_queue.h:106-119 | reads the slot of the last popped element; out of bounds exactly if a non-empty queue had no pop since its creation or the last clear; the newest element of a full queue |
| BlockQueue.Queue.NextIsOldest | ocean_http/log/block_queue.h:190-191 | the slot behind the front index holds the oldest element |
| BlockQueue.Queue.BackIsFrontPlusSize | ocean_http/log/block_queue.h:167-192 | back is congruent to front plus size modulo the capacity |
| BlockQueue.FrontIsNextIff | ocean_http/log/block_queue.h:106-119 | in a non-empty queue the access that `front` makes yields the next element to pop, whatever the slots hold, exactly if the capacity is 1 and the front index has left -1 |
| BlockQueue.FrontAfterPop | ocean_http/log/block_queue.h:106-119 | the failing family for capacities above 1: push, push, pop, and `front` returns the popped element |
| BlockQueue.FrontBeforePop | ocean_http/log/block_queue.h:106-119 | the failing family for every capacity: push, and `front` reads index -1 |
| QueueWaits.RunInv | ocean_http/log/block_queue.h:156-196 | mutex, FIFO and wakeup invariants in every interleaving of producers and untimed consumers |
| QueueWaits.PushExactly | ocean_http/log/block_queue.h:156-175 | in every run a push stores its element last exactly if there is room at its test |
| QueueWaits.PopExactly | ocean_http/log/block_queue.h:177-196 | in every run a pop takes the oldest element, or waits with the mutex released if there is none |
| QueueWaits.CallsStart | ocean_http/log/block_queue.h:156-196 | any element can be pushed, and a pop called, at any time |
| QueueWaits.WaitsOnlyWhileEmpty | ocean_http/log/block_queue.h:156-196 | while the mutex is free a consumer sits un-notified only if the queue is empty; popped is a prefix of pushed |
| QueueWaits.StuckMeansEmpty | ocean_http/log/block_queue.h:156-196 | if only new calls or spontaneous wakeups are possible, nobody waits beside an element |
| HashRing.FindIsClosest | ocean_im/oceanim/util/consistent_hash.h:70-79 | `find` returns the node of the virtual node that comes first clockwise |
| HashRing.InsertRemaps | ocean_im/oceanim/util/consistent_hash.h:55-79 | inserting at a free hash changes the lookup exactly on the arc from the predecessor to the new key, to the new node, wraparound included |
| HashRing.InsertFirst | ocean_im/oceanim/util/consistent_hash.h:55-79 | the first insertion takes every hash |
| HashRing.InsertExactly | ocean_im/oceanim/util/consistent_hash.h:55-58 | an occupied hash keeps its entry; otherwise exactly the new entry is added |
| HashRing.EraseExactly | ocean_im/oceanim/util/consistent_hash.h:65-68 | exactly the entry at the hash is taken away |
| HashRing.EraseRemaps | ocean_im/oceanim/util/consistent_hash.h:65-79 | erasing changes it exactly on the arc that ends at the key, to the successor |
| HashRing.InsertErase | ocean_im/oceanim/util/consistent_hash.h:55-68 | insert then erase is the identity if and only if the hash was free |
| HashRing.ArcAccounting | ocean_im/oceanim/util/consistent_hash.h:86-113 | each node's sum is the number of 32-bit hashes that `find` sends to it, one less for the owner of the smallest key |
| HashRing.SumsTotal | ocean_im/oceanim/util/consistent_hash.h:86-113 | the sums total 2^32 - 1 |
| HashRing.NoWrap | ocean_im/oceanim/util/consistent_hash.h:100 | the arc over the end of the hash space fits 32 bits |
| HashRing.ConsistentHash.InsertNode | ocean_im/oceanim/util/consistent_hash.h:55-58 | keeps the ring sorted and an existing entry in place, and reports whether it inserted |
| HashRing.ConsistentHash.EraseNode | ocean_im/oceanim/util/consistent_hash.h:65-68 | removes whatever sits at the hash and returns how many entries that were |
| HashRing.ConsistentHash.FindNode | ocean_im/oceanim/util/consistent_hash.h:70-79 | the lookup of the ring |
| HashRing.ConsistentHash.Describe | ocean_im/oceanim/util/consistent_hash.h:86-113 | the 32-bit loop computes every node's sum without wrapping |
| AmfBytes.DecodeEncode | ocean_im/thirds/brpc1.7/include/brpc/amf_inl.h:53-166 | an encoded value is read back from the front of a flat sequence |
| AmfBytes.BigEndian | ocean_im/thirds/brpc1.7/include/brpc/amf_inl.h:153-166 | byte i of k is the digit of weight 256^(k - 1 - i): the most significant byte comes first |
| AmfBytes.ToFromBE | ocean_im/thirds/brpc1.7/include/brpc/amf_inl.h:64-107 | reading inverts writing on every byte sequence |
| AmfBytes.WireWidths | ocean_im/thirds/brpc1.7/include/brpc/amf_inl.h:138-166 | one, two, four and eight bytes; the two bytes of a 16-bit value; raw bytes as they are |
| AmfBytes.EncodeConcat | ocean_im/thirds/brpc1.7/include/brpc/amf_inl.h:116-166 | values follow each other on the wire in the order of the puts |
| AmfStreams.AMFInputStream.CutN | ocean_im/thirds/brpc1.7/include/brpc/amf_inl.h:27-47 | whatever the chunks, the cut is the front of the flat rest, and the rest and the byte count follow |
| AmfStreams.AMFInputStream.CutU8 | ocean_im/thirds/brpc1.7/include/brpc/amf_inl.h:53-62 | fast and slow path agree with the flat sequence; at the end the value is kept |
| AmfStreams.AMFInputStream.CutFixed | ocean_im/thirds/brpc1.7/include/brpc/amf_inl.h:64-107 | fast and slow path both give the big-endian value of the flat front, missing bytes counting as zero |
| AmfStreams.AMFInputStream.CutU16 | ocean_im/thirds/brpc1.7/include/brpc/amf_inl.h:64-77 | the two-byte case |
| AmfStreams.AMFInputStream.CutU32 | ocean_im/thirds/brpc1.7/include/brpc/amf_inl.h:79-92 | the four-byte case |
| AmfStreams.AMFInputStream.CutU64 | ocean_im/thirds/brpc1.7/include/brpc/amf_inl.h:94-107 | the eight-byte case |
| AmfStreams.AMFInputStream.CheckEmptiness | ocean_im/thirds/brpc1.7/include/brpc/amf_inl.h:49-51 | loses nothing; a yes is right, and on a dry stream the answer is yes exactly if no empty chunk is still to come |
| AmfStreams.DryNotReported | ocean_im/thirds/brpc1.7/include/brpc/amf_inl.h:49-51 | a wrong answer: with one empty chunk to come a dry stream is not reported as empty |
| AmfStreams.AMFOutputStream.PutN | ocean_im/thirds/brpc1.7/include/brpc/amf_inl.h:116-136 | appends everything if there is room, else fills all room and turns bad |
| AmfStreams.AMFOutputStream.PutU8 | ocean_im/thirds/brpc1.7/include/brpc/amf_inl.h:138-151 | the same for one byte |
| AmfStreams.AMFOutputStream.PutFixed | ocean_im/thirds/brpc1.7/include/brpc/amf_inl.h:153-166 | the same for the bytes of an integer in network order |
| AmfStreams.AMFOutputStream.PutU16 | ocean_im/thirds/brpc1.7/include/brpc/amf_inl.h:153-156 | the two-byte case |
| AmfStreams.AMFOutputStream.PutU32 | ocean_im/thirds/brpc1.7/include/brpc/amf_inl.h:158-161 | the four-byte case |
| AmfStreams.AMFOutputStream.PutU64 | ocean_im/thirds/brpc1.7/include/brpc/amf_inl.h:163-166 | the eight-byte case |
| AmfStreams.AMFOutputStream.Done | ocean_im/thirds/brpc1.7/include/brpc/amf_inl.h:109-114 | afterwards the stream holds exactly what was put, `pushed_bytes` of it |
| AmfStreams.Send | ocean_im/thirds/brpc1.7/include/brpc/amf_inl.h:109-166 | whatever buffers are handed out, puts and done leave exactly the big-endian concatenation |
| AmfStreams.Receive | ocean_im/thirds/brpc1.7/include/brpc/amf_inl.h:27-107 | whatever chunks those bytes come in, the matching cuts return the values and consume all of it |
| AmfStreams.RoundTrip | ocean_im/thirds/brpc1.7/include/brpc/amf_inl.h:27-166 | both together |

## Left out

- `do_request`, file routing, login, registration and the SQL text: file-system and database effects with fixed string tables.
- epoll, sockets, signals, `mmap`, the system calls of `read_once`, and the empty `write()`: a read is modelled as appended bytes.
- HttpConnection.HttpConn.ParseContent: as in HttpRequest.ParseContent, which specifies it, the sum `m_content_length + m_checked_idx` is taken over unbounded integers; in C++ it overflows for a Content-Length within 2048 of the largest `long`.
- `m_user_count`: both `close_conn` and the timer callback decrement it; runs of the timer model close connections through `deal_timer` and the sweep only.
- The reactor's spin loop on `improv` and `timer_flag`, and `request->m_state`: unsynchronised fields without a stable guarantee.
- Workers.BusyWorkersProgress: a busy worker may use the connection pool any number of times per request and each use is assumed to end; the choice between reactor and proactor branches is left open.
- HttpResponse.ResponseWriter.AddResponse: takes the formatted text; the formats used are spelled out as texts. `add_content_type` is never called by the server and is not modelled.
- The timed `pop`, `DestroyPool`, copying of `sem`, and the destructors: platform details and easy members.
- `log.cpp` in both log libraries, the dbproxy and logic services, fiber and mutex declarations, and the other brpc headers: output, calls into unseen libraries, or declarations without bodies.
- The CRC32C of a virtual node: an arbitrary function into 32 bits.
