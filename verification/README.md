# A verified model of a small HTTP server

The server accepts connections in one main loop, parses requests in a pool of worker threads, answers with a
page or a mapped file, closes idle connections by a timer list, and writes a log through a bounded queue.
This project models its stateful parts in Dafny and proves what they keep over every run:

* **Request parsing** (`HttpParser`, `HttpScan`, `HttpChunks`, `HttpReference`, `HttpLines`, `HttpInPlace`,
  `HttpConn`, `HttpRoundTrip`, `HttpForm`). `HttpConn` is the object with its buffer and cursors, changed in
  place. It is proved against a transition function on its fields, and that function against `ParseRequest`, a
  parser on plain sequences without buffer, cursors or state; what that parser makes of each line is said letter
  by letter (`HttpLines`). Both loop tests are modelled: the one in the code, and a repaired one that does not
  scan a partly arrived body. The repaired one is independent of how the input is cut into reads. The code is so
  exactly when no cut falls inside the body (`EndsInsideBody`, which leaves out a first byte at which the scanner
  stops at once); otherwise a request with nothing behind it is never answered.
* **Replies** (`HttpReply`, `HttpSend`, `HttpResponder`). Every reply is given byte for byte, fits its buffer, and
  reads back. The bytes handed to the socket are the reply exactly when at most one `writev` result stops
  strictly inside the header; with the length of the header taken from `m_write_idx` they always are.
* **Timers and main loop** (`TimerList`, `EventLoop`, `Expiry`, `Server`). The linked list is proved against a
  sequence sorted by expiry, the loop against a queue of connections in order of last activity, and expiry
  against the inputs: a tick closes exactly the connections whose descriptor has a timer set 15 or more seconds
  ago, their own or one that a close by a worker has left.
* **Pools** (`ThreadPool`, `ConnectionPool`, `Ownership`, `OnePlaceOnly`, `OpenOwners`, `NoneLost`,
  `OwnershipRuns`). Any number of threads, one statement at a time. Units of each semaphore, queued requests and
  database connections are conserved. A connection of a client is in at most one place exactly when no accept
  returns a descriptor that still has a place, and also open there exactly when, besides, no timer expires in
  flight; then it also never is without a place, unless an append has refused it.
* **Log** (`BlockQueue`, `AsyncLog`, `LogRotation`). The ring is a bounded FIFO. A line can be lost exactly
  when more than one thread writes to the asynchronous log. No log file exceeds its limit.

Bytes are `char`; pointers into `m_read_buf` are indices, NULL is `None`. Results of system calls (the bytes of
a `recv`, the count of a `writev`, the time, which thread runs next) are parameters over which the theorems
quantify.

## Where the code differs from what it seems meant to do

* `http/http_conn.cpp:456` sets `LINE_OPEN` after an incomplete body, but the test at line 408 then still calls
  `parse_line`, which moves `m_checked_idx` over the body. Modelled as coded (`AsWritten`), beside the
  repaired test (`Repaired`).
* `http/http_conn.cpp:674` and `:683` subtract from a segment length that an earlier short write has already
  reduced. Modelled as coded (`AsCoded`), beside the arithmetic with `m_write_idx` (`ByWriteIdx`).
* `http/http_conn.cpp:785-811`: an empty file reaches the default case and returns false, as does
  `NO_RESOURCE`; `BAD_REQUEST` is answered with the page for 404. Modelled as coded.
* `http/http_conn.cpp:830-832`: after close_conn process() goes on to modfd, and the timer of the connection
  stays in the list. Modelled as coded, in three steps; `ReusedDescriptor` and `StaleTimerCloses` show what
  follows when the descriptor is accepted again.
* `threadpool/threadpool.h:84` admits one request more than `m_max_requests`; the bound proved is the one the
  code keeps, and it is reached (`LimitIsReached`).
* `log/log.cpp:100` compares days of the month only, so a first line after exactly one month of silence goes to the
  old file (`WrongDay`; `OwnDayOverRuns` says exactly when); the limit on lines holds all the same.
* `log/log.cpp:143-145` asks the queue whether it is full and pushes in a second critical section, whose result
  is ignored. Modelled as coded.

## Model

| member | source | states |
|---|---|---|
| HttpParser.ScanEndIs | http/http_conn.cpp:199-229 | The scan passes no CR or LF and stops at one or at m_read_idx. |
| HttpScan.LineFeedCaseIsDead | http/http_conn.cpp:217-225 | In every valid state the byte before the scan stop is no CR, so the LF-after-CR case never succeeds. |
| HttpScan.StatusAt | http/http_conn.cpp:202-228 | The first line end among the unread bytes decides the status: CR LF is a line, a CR that comes last is open, any other is bad. |
| HttpScan.ParseLineKeepsValid | http/http_conn.cpp:199-229 | parse_line changes nothing before m_checked_idx or from m_read_idx on; without a line it changes no byte and keeps the invariant; with one it leaves a line that ends in two NULs and holds no CR or LF. |
| HttpScan.RequestLineStaysInLine | http/http_conn.cpp:279-334 | Parsing the request line writes only between the start of the line and m_checked_idx; the page name appended to "/" fits. |
| HttpScan.DispatchKeepsValid | http/http_conn.cpp:416-461 | Each of the three parsers keeps the cursor order and the scanner invariant. |
| HttpScan.ProcessReadKeepsValid | http/http_conn.cpp:398-464 | A call of process_read keeps the cursor order and the scanner invariant, with both loop tests. |
| HttpScan.ReadCostIs | http/http_conn.cpp:202-228 | One call reads exactly as many bytes of m_read_buf as it moves m_checked_idx, and those at the end of its last scan, the look-ahead at lines 209 and 219 included. |
| HttpChunks.LinearScanning | http/http_conn.cpp:398-464 | From init to the verdict parse_line reads at most one byte per call more than m_checked_idx has moved, and one more for each call that stops at a bad line end. |
| HttpChunks.BareReturnCost | http/http_conn.cpp:205-215 | A concrete bad line end: two bytes read and no progress, so the extra byte is needed. |
| HttpChunks.Resume | http/http_conn.cpp:398-464 | With the repaired test, the calls before and after an arrival of bytes do together what one call does with all bytes. |
| HttpChunks.RepairedChunkIndependence | http/http_conn.cpp:234-464 | With the repaired test every way of cutting the input ends in the verdict, buffer, cursors and fields of one read. |
| HttpChunks.AgreesUnlessBodyScanned | http/http_conn.cpp:408-457 | One call as coded equals the repaired call if and only if no incomplete body is scanned; if one is, m_checked_idx ends too far. |
| HttpChunks.AsWrittenExactly | http/http_conn.cpp:398-464 | For every input that brings a verdict, the code is independent of the cuts if and only if no cut makes it scan part of a body. |
| HttpChunks.ScannedBodyIsNeverAnswered | http/http_conn.cpp:385-395 | If a cut makes the code scan part of a body, a request with nothing behind it is never answered. |
| HttpReference.ParseLineSplits | http/http_conn.cpp:199-229 | parse_line finds a line if and only if splitting the unread bytes at CR LF does, and finds the same line and rest. |
| HttpReference.HeadersCompute | http/http_conn.cpp:343-395 | From the first header line on, process_read computes, with the loop test as coded and with the repaired one, the left fold of the header lines up to the first empty one, then the body; the repaired one awaits a body exactly if the fold does. |
| HttpReference.ProcessReadComputes | http/http_conn.cpp:398-464 | On a whole input process_read, as coded and repaired, gives the verdict of ParseRequest and leaves its parts in the fields, for every Content-Length: after a negative one they are as parsed but for the NUL written before the body. The repaired one awaits a body exactly if ParseRequest does. |
| HttpReference.RepairedComputes | http/http_conn.cpp:398-464 | The same for input that arrives in any number of reads, with the repaired test. |
| HttpReference.AsWrittenComputes | http/http_conn.cpp:398-464 | The same for the code as written if no cut falls inside the body; the condition is on the bytes alone. |
| HttpReference.IndependentExactly | http/http_conn.cpp:398-464 | On every input that ParseRequest decides, the code is independent of the cuts if and only if no cut falls inside the body. |
| HttpReference.AnsweredExactly | http/http_conn.cpp:398-464 | The code answers one whole request if and only if no cut falls inside its body. |
| HttpLines.FoldIsCaseVariant | http/http_conn.cpp:294-314 | Two strings compare equal if and only if at each place they have the same character or the two cases of one letter. |
| HttpLines.HeaderMeans | http/http_conn.cpp:343-382 | What every header line does: Connection with keep-alive, Content-length and Host in any letter case set their fields from the text behind blanks, and every other line has no effect. |
| HttpLines.AtolIsNumber | http/http_conn.cpp:367 | The number read is the decimal value of the digits behind blanks and a sign, clamped to a long. |
| HttpLines.RequestLineMeans | http/http_conn.cpp:279-334 | What every request line of three words gives: method, path or judge page, and rejection of any other method, version or target; absolute targets give their path. |
| HttpLines.ShortLine | http/http_conn.cpp:287-309 | A line of fewer words is rejected. |
| HttpLines.EveryLine | http/http_conn.cpp:287-311 | Every line is of one of these two kinds. |
| HttpLines.MalformedExactly | http/http_conn.cpp:279-334 | Whatever follows its first line, a request is malformed if and only if method, version or target is wrong; otherwise its header is read on. |
| HttpRoundTrip.RoundTrip | http/http_conn.cpp:279-395 | Parsing a printed request (RFC 9112, sections 3 and 6) gives its method, its URL and the fold of its header lines, with "/" read as the judge page. |
| HttpRoundTrip.PrintedHeadersFold | http/http_conn.cpp:343-382 | The fold of printed Host, Connection and Content-Length lines gives the three values back. |
| HttpRoundTrip.NoticedFold | http/http_conn.cpp:343-382 | Any number of header lines without effect, anywhere in the header, change nothing. |
| HttpRoundTrip.StandardRoundTrip | http/http_conn.cpp:279-395 | A request with the three known headers, and any number of others between them, parses into exactly its parts, body included. |
| HttpRoundTrip.ServedRoundTrip | http/http_conn.cpp:398-464 | Sent in pieces, such a request is answered with its own parts in the fields of the connection; as coded if no cut falls inside the content. |
| HttpRoundTrip.CutInsideContent | http/http_conn.cpp:408-457 | A printed request cut anywhere inside its content is answered by the code as written if and only if parse_line stops at the first content byte (a LF, or a CR that no LF follows); the repaired test answers it in any case. |
| HttpRoundTrip.LostRequest | http/http_conn.cpp:408-457 | A concrete request of that kind. |
| HttpInPlace.InPlaceIsScan | http/http_conn.cpp:287-333 | Cutting the line while reading it, pointer by pointer, gives what reading the untouched line and then cutting it gives. |
| HttpConn.HttpConn.Init | http/http_conn.cpp:178-190 | init() leaves exactly the fresh fields of the request side; m_string keeps its value. |
| HttpResponder.HttpResponder.Init | http/http_conn.cpp:176-191 | init() empties m_write_buf and the counts of the response side and resets m_linger. |
| HttpConn.HttpConn.ReadOnce | http/http_conn.cpp:234-255 | read_once appends the received bytes and fails on a full buffer or an empty result. |
| HttpConn.HttpConn.ParseLine | http/http_conn.cpp:199-229 | The scanning loop on the array computes the line scanner and reads as many bytes as its cost says. |
| HttpConn.HttpConn.ParseRequestLine | http/http_conn.cpp:279-334 | The in-place parser computes the request line parser. |
| HttpConn.HttpConn.ParseHeaders | http/http_conn.cpp:343-382 | The method computes the header parser. |
| HttpConn.HttpConn.ParseContent | http/http_conn.cpp:385-395 | The method computes the body parser, the terminating NUL included. |
| HttpConn.HttpConn.ProcessRead | http/http_conn.cpp:398-464 | The loop on the object computes process_read as written, terminates, and keeps the invariant. |
| HttpConn.HttpConn.ReadRequest | http/http_conn.cpp:819-826 | Reading and parsing event by event computes the run about which the theorems speak, at its cost. |
| HttpForm.ReadForm | http/http_conn.cpp:490-503 | The two arrays hold the part between "user=" and the first '&', and the part behind "&password=". |
| HttpForm.FormRoundTrip | http/http_conn.cpp:490-503 | Every name without '&' and every password of up to 99 characters is read back from its form. |
| HttpSend.CallsCompose | http/http_conn.cpp:637-702 | A delivery interrupted by errors and resumed is one delivery over the joined results. |
| HttpSend.RepairedDelivery | http/http_conn.cpp:672-684 | With m_write_idx for the header length, every schedule hands over a prefix of header and file, all of it on completion. |
| HttpSend.NeverRight | http/http_conn.cpp:674-684 | Once the first segment is too short, no schedule delivers the reply. |
| HttpSend.ExactDelivery | http/http_conn.cpp:637-702 | A completed reply is header and file if and only if at most one result left bytes_have_send strictly inside the header. |
| HttpSend.MisdeliveredReply | http/http_conn.cpp:672-684 | For every header of at least four bytes and every file, two results of one byte each spoil the reply: write() completes without the last header byte and with the last file byte twice. |
| HttpSend.PrefixDelivery | http/http_conn.cpp:637-702 | Under that condition the bytes sent are a prefix at every moment. |
| HttpSend.BytesDelivered | http/http_conn.cpp:637-702 | The same in bytes: a prefix of header followed by file, and equal to it on completion. |
| HttpSend.ErrorPageStalls | http/http_conn.cpp:650-701 | A reply without a file is never completed after a second result inside it. |
| HttpReply.RoomIsForTheNul | http/http_conn.cpp:710-720 | add_response accepts a text exactly if its characters and a NUL fit into 1023 bytes with what is there. |
| HttpReply.HeaderFits | http/http_conn.cpp:704-752 | Status line and headers are accepted whole and are shorter than 120 bytes. |
| HttpReply.Framing | http/http_conn.cpp:757-818 | process_write succeeds exactly on the three error codes and on a file that is not empty; then the buffer holds head and form, Content-Length is the length of the body, and the segments are bytes_to_send long. |
| HttpReply.FileFramingExactly | http/http_conn.cpp:785-799 | The counts of a file reply are right if and only if head and file together fit an int. |
| HttpReply.StartsOnTrack | http/http_conn.cpp:785-817 | An answered reply leaves write() in the state from which the delivery theorems start. |
| HttpReply.HeadersReadBack | http/http_conn.cpp:731-752 | The emitted header lines, read as the server reads header lines, give length and persistence back. |
| HttpReply.ReplyReadsBack | http/http_conn.cpp:757-818 | Every answered reply is, byte for byte, the status line of its code, the length of its body, its persistence, and the page or file; a reader finds these parts again. |
| HttpReply.ReplyDelivered | http/http_conn.cpp:637-818 | From process_write to the wire: with at most one result inside the header, what is handed over is a prefix of that reply, and on completion the whole of it, which reads back. |
| HttpReply.FileMisdelivered | http/http_conn.cpp:637-702 | The same for every file reply that process_write builds, in bytes. |
| HttpResponder.HttpResponder.AddResponse | http/http_conn.cpp:704-726 | The text is appended and the index moved if it fits; otherwise the text up to m_write_idx stays as it was. |
| HttpResponder.HttpResponder.ProcessWrite | http/http_conn.cpp:757-818 | The method computes the reply and sets the segments for it, or leaves them alone. |
| HttpResponder.HttpResponder.Write | http/http_conn.cpp:637-702 | One call of write() continues the delivery; it says what is watched next, whether the connection stays, and when the fields are reset. |
| HttpResponder.HttpResponder.SendReply | http/http_conn.cpp:637-818 | process_write and any sequence of write() calls on the object hand over what the delivery over the joined results prescribes; the same guarantee holds. |
| TimerList.InsertKeepsOrder | timer/lst_timer.h:147-171 | Inserting behind all that expire no later keeps the order. |
| TimerList.InsertInPlace | timer/lst_timer.h:68-72 | A timer that still expires before its successor stands where inserting it again would put it. |
| TimerList.SortedTimerList.Link | timer/lst_timer.h:155-169 | prev and next stay each other's inverse, tail right, and the list gains exactly this timer at this place. |
| TimerList.SortedTimerList.FindPlace | timer/lst_timer.h:149-163 | The loop ends at the last timer that expires no later, and its successor. |
| TimerList.SortedTimerList.AddTimer | timer/lst_timer.h:42-61 | The list stays linked and ascending, and gains exactly this timer, behind all that expire no later. |
| TimerList.SortedTimerList.AdjustTimer | timer/lst_timer.h:62-86 | A timer whose expiry grew moves to the place where removing and inserting it puts it; nothing else changes. |
| TimerList.SortedTimerList.DelTimer | timer/lst_timer.h:87-117 | The list stays linked and ascending and loses exactly this timer. |
| TimerList.SortedTimerList.Tick | timer/lst_timer.h:118-144 | The callbacks are for the expired prefix, each once and in order; only timers that expire later stay. |
| EventLoop.StepRefines | main.cpp:222-405 | Each input, a close by a worker included, changes the list as a queue by last activity prescribes. |
| EventLoop.TimersAreLru | main.cpp:207-406 | In every run with a clock that does not run backwards the list is the queue by last activity of the connections, those closed by workers included until they expire; without such closes it holds each open connection once and nothing else. |
| EventLoop.CountOverRuns | http/http_conn.cpp:149-157 | In every run the length of the list is m_user_count and the number of closes by workers. |
| EventLoop.ExpiryIsExact | timer/lst_timer.h:118-144 | A tick spares an open connection if and only if every timer of its descriptor, old ones included, was active less than 15 seconds ago. |
| EventLoop.QueueIsHistory | main.cpp:254-257 | The newest entry of an open connection holds the time of its last accept or successful read or write in the inputs. |
| EventLoop.ExpiryOverRuns | main.cpp:94-109 | In every run from the start a tick closes an open connection whose last accept, read or write in the inputs is 15 seconds old; if no worker has closed its descriptor before, it closes no other. |
| Expiry.LifeIsKnown | main.cpp:245-398 | In every run the state of one descriptor - its connection and the timers it has in the list - is what a fold of the inputs over that descriptor alone says, given the loop's count and flag. |
| Expiry.ExpiryExactly | main.cpp:94-109 | In every run a tick spares an open connection if and only if every accept, read or write that still has a timer under its descriptor is less than 15 seconds ago, for descriptors that workers have closed too. |
| EventLoop.StaleTimerCloses | http/http_conn.cpp:830 | A concrete run in which the timer that a worker left closes the next connection of its descriptor after one second; when the timer of that connection expires too, no connection is open and m_user_count is -1. |
| Server.Server.Accept | main.cpp:238-257 | A new connection gets a timer in the list and a pointer to it, unless 65536 are connected. |
| Server.Server.CloseConnection | main.cpp:293-304 | The timer that users_timer points to leaves the list and m_user_count drops by one. |
| Server.Server.Touch | main.cpp:352-361 | The timer is postponed by 15 seconds and moved; the list stays right. |
| Server.Server.HandleTimers | main.cpp:94-98 | The expired connections are closed in order, each once. |
| Server.Server.CountWorkerClose | http/http_conn.cpp:149-157 | A close by a worker lowers the count and leaves list and timer pointers as they are. |
| Server.Server.MainLoop | main.cpp:207-406 | The loop over the linked list computes the run of the model, and ends exactly at the end of the first batch that finds stop_server set. |
| ThreadPool.StepConserves | threadpool/threadpool.h:81-124 | A statement keeps: queue length = semaphore + appenders before post + workers between wait and pop, if and only if it is not the way out of the branch for an empty queue. |
| ThreadPool.RunKeepsInv | threadpool/threadpool.h:81-132 | In every interleaving the whole invariant holds: the lock, the semaphore, the order and the limit. |
| ThreadPool.EmptyBranchIsDead | threadpool/threadpool.h:117-121 | No worker ever finds the queue empty, and the queue never exceeds m_max_requests + 1. |
| ThreadPool.LimitIsReached | threadpool/threadpool.h:84-89 | That bound is met by some run. |
| ThreadPool.ServedInOrder | threadpool/threadpool.h:89-123 | Requests are taken in the order of their acceptance, none twice, none invented. |
| ThreadPool.NoLostWakeup | threadpool/threadpool.h:91-111 | With no append under way and no worker past its wait, a waiting worker can go on if and only if a request is queued. |
| ThreadPool.HolderGoesOn | threadpool/threadpool.h:83-124 | The thread that holds the lock is never blocked. |
| ThreadPool.ThreadPool.Append | threadpool/threadpool.h:81-97 | append() is the run of its statements; it succeeds if and only if the queue is not over the limit. |
| ThreadPool.ThreadPool.Take | threadpool/threadpool.h:111-124 | A worker's statements up to the request take the first one. |
| ConnectionPool.StepConservesSemaphore | CGImysql/sql_connection_pool.cpp:70-107 | Every statement keeps: list length = semaphore + granted waiters + pending posts, and list length + holders = MaxConn. |
| ConnectionPool.StepConservesConnections | CGImysql/sql_connection_pool.cpp:70-107 | Every statement keeps each connection in the list exactly once or with exactly one thread. |
| ConnectionPool.PoolIsSound | CGImysql/sql_connection_pool.cpp:70-107 | In every run front() is never taken of an empty list, FreeConn is the list length and FreeConn + CurConn is MaxConn whenever the lock is free, and the holder of the lock is never blocked. |
| ConnectionPool.NoStarvation | CGImysql/sql_connection_pool.cpp:145-154 | With no more threads than connections GetConnection neither returns NULL nor blocks on the semaphore. |
| ConnectionPool.NullExactlyWhenOutnumbered | CGImysql/sql_connection_pool.cpp:74-75 | Some run returns NULL if and only if there are more threads than connections. |
| ConnectionPool.ConnectionPool.Init | CGImysql/sql_connection_pool.cpp:38-66 | After init() all connections are free, and semaphore and counters are their number. |
| ConnectionPool.ConnectionPool.GetConnection | CGImysql/sql_connection_pool.cpp:70-89 | The method gives NULL on an empty list, else waits while the other threads make any calls, and takes the first connection of what they leave. |
| ConnectionPool.GetsIsRun | CGImysql/sql_connection_pool.cpp:70-89 | Such a call is a run of the step system, keeps the invariant, and waits only without a unit of the semaphore. |
| ConnectionPool.ConnectionPool.ReleaseConnection | CGImysql/sql_connection_pool.cpp:92-107 | The connection goes to the end of the list, and NULL is refused; the invariant is kept. |
| ConnectionPool.CalledIsRun | CGImysql/sql_connection_pool.cpp:70-107 | A whole call of either is a run of its statements. |
| OnePlaceOnly.ActKeepsOnePlace | http/http_conn.cpp:819-833 | Every action, the three steps of a failed reply and expiries in flight among them, keeps each connection in at most one place, unless it accepts a descriptor that still has a place. |
| OnePlaceOnly.ReuseBreaks | main.cpp:232-245 | Such an accept gives a second place. |
| OnePlaceOnly.OnePlaceExactly | main.cpp:207-406 | In every interleaving each connection is at every moment in at most one of epoll, main loop, queue and worker if and only if no accept returns a descriptor that is still queued or with a worker. |
| OpenOwners.ActKeepsInv | http/http_conn.cpp:819-833 | Every action keeps each connection in at most one place, and open there unless its worker has closed it, unless it expires a connection in flight or accepts a descriptor still being processed. |
| OpenOwners.CarelessBreaks | main.cpp:100-109 | Each of these two breaks that at once: the expiry leaves a place that is not open, the accept makes a second one. |
| OpenOwners.OneOwnerExactly | main.cpp:207-406 | In every interleaving each connection is at every moment in at most one place, and open there unless its worker has closed it, if and only if no timer expires in flight and no accept returns a descriptor whose object a worker still processes. |
| OpenOwners.OneOwner | main.cpp:341-399 | In such runs nothing is queued twice, epoll reports nothing that is queued or with a worker, and the modfd behind close_conn arms nothing. |
| NoneLost.NoneIsLost | http/http_conn.cpp:645-689 | In every careful run a connection that an accept has opened, that is still open, and that no append has refused since is in exactly one place. |
| NoneLost.EveryPlaceGoesOn | http/http_conn.cpp:819-833 | From each place outside the queue the next step is possible and leads on: epoll reports, registration and modfd arm, closing closes, a worker ends. |
| NoneLost.ReportedIsOpen | http/http_conn.cpp:115-142 | In every run whatsoever, careful or not, epoll reports only open descriptors that addfd has registered. |
| NoneLost.ResetObjectStays | http/http_conn.cpp:149-157 | close_conn on an object whose m_sockfd is -1 closes nothing, and the modfd behind it arms nothing. |
| OwnershipRuns.ExpiryInFlight | main.cpp:94-109 | From every start a run in which a queued connection expires, which leaves it one place, and its descriptor is accepted again, which gives it two. |
| OwnershipRuns.ReusedDescriptor | http/http_conn.cpp:830-832 | From every start a run without any expiry in which a descriptor that a failed reply has closed is accepted and queued again, and the late modfd of the first worker arms it in the queue. |
| BlockQueue.PushAppends | log/block_queue.h:127-147 | A push appends to the contents, and is refused if and only if the ring is full. |
| BlockQueue.PopTakesFirst | log/block_queue.h:149-199 | A pop takes the first of the contents. |
| BlockQueue.BackIsLast | log/block_queue.h:90-101 | back() is the last of the contents. |
| BlockQueue.RingIsFifo | log/block_queue.h:20-199 | Every run of operations gives the answers of a bounded sequence, from the indices -1 on and across every wrap-around. |
| BlockQueue.PopsInOrder | log/block_queue.h:127-199 | With any number of threads pushing, popping and waiting, the pops return the accepted items in order, none twice. |
| BlockQueue.PushIsServed | log/block_queue.h:127-147 | With any number of threads, a push is refused only on a full queue. |
| BlockQueue.PopIsServed | log/block_queue.h:149-199 | A pop takes the first item at once unless the queue is empty. |
| BlockQueue.WakeIsServed | log/block_queue.h:149-199 | So does a woken one; on an empty queue it waits on, or gives up if it is timed. |
| BlockQueue.BlockQueue.Push | log/block_queue.h:127-147 | The method on the array appends, or refuses on a full ring. |
| BlockQueue.BlockQueue.Back | log/block_queue.h:90-101 | The method gives the last item, or none from an empty ring. |
| BlockQueue.BlockQueue.Full | log/block_queue.h:52-64 | The method is true if and only if the contents fill the ring. |
| BlockQueue.BlockQueue.Pop | log/block_queue.h:149-168 | The waiting loop on the array gives what pop() gives on a bounded sequence, whatever the other threads do during its waits. |
| BlockQueue.BlockQueue.PopTimed | log/block_queue.h:171-199 | The same for the timed pop, which waits once. |
| BlockQueue.PopEnds | log/block_queue.h:149-168 | Every wait that a pop meets begins on an empty queue and only the last may fail; a pop takes the first item of what the others have left, gives up only on a failed wait and then takes nothing, and waits on only on an empty queue. |
| AsyncLog.LinesConserved | log/log.cpp:143-152 | In every run each completed line is in the file, in the queue, in the consumer's hand or was refused; queued lines keep their order. |
| AsyncLog.ConsumerDrains | log/log.h:37-47 | From every state some steps of the consumer bring the line in its hand and the queued lines, in order, into the file. |
| AsyncLog.CallCompletes | log/log.cpp:143-152 | A call of write_log that no other thread interrupts queues its line, or writes it if the queue is full, and loses nothing. |
| AsyncLog.NothingLost | log/log.cpp:143-146 | With one producer no push is refused. |
| AsyncLog.LossExactlyWhenRacing | log/log.cpp:143-146 | A line is lost in some run if and only if there is more than one producer. |
| AsyncLog.RaceLoses | log/log.cpp:143-146 | The run in which it is lost: two threads both see the last free place. |
| LogRotation.RotationBound | log/log.cpp:97-121 | In every run over days that do not go backwards no file name is opened twice and no file receives more than m_split_lines lines. |
| LogRotation.SuffixCounts | log/log.cpp:118 | The suffix of the current file is always the line count divided by the limit. |
| LogRotation.OwnDayExactly | log/log.cpp:97-121 | From any state whose m_today is right, each line is in a file of its own day if and only if every line comes on the day of the one before it, on another day of the month, or at a count that rotates. |
| LogRotation.OwnDayOverRuns | log/log.cpp:59-121 | The same for whole runs from fresh files, for all sequences of dates. |
| LogRotation.WrongDay | log/log.cpp:100-114 | A concrete run in which a change of month goes unnoticed: the line is in a file of the wrong day. |
| LogRotation.RotatingLog.WriteLine | log/log.cpp:97-121 | The method on the object computes one step of the run. |

## Left out

* http_conn is two classes here, `HttpConn` for requests and `HttpResponder` for replies; the branches of
  process(), m_real_file, the address and the mysql field are not in them.
- Init: resets only the fields of its own class, because the source has one object and the model has two;
  m_real_file is not modelled.
* do_request: the verdict is `GetRequest` where the code calls it. Its routing table, account checks, file
  status and mapping are not modelled, only the reading of the form.
- ReadForm: describes only forms on which the loops of the code stay inside the string and the two arrays,
  because outside them the code has no defined behaviour.
- ParseContent: does not represent a terminating NUL that falls outside m_read_buf, because that memory is not
  part of the model; a body that fills the buffer is then read up to the end of the buffer.
* `m_content_length + m_checked_idx` beyond an int. A null m_url at http/http_conn.cpp:321 is taken as the
  `BAD_REQUEST` of line 327.
* Inputs longer than the read buffer: runs cover what fits into 2048 bytes; read_once on a full buffer fails.
* Bytes behind a finished request: runs end at the first verdict, after which init() discards them.
* Sockets, epoll, mmap, signals, MySQL and errno: replaced by their results. A `writev` result larger than what
  was offered is cut to it. The missing return in add_headers is ignored, and so are the log calls.
* Events of one epoll_wait are handed out one by one when they are handled; accept errors, an epoll failure, the
  listening descriptor's edge-triggered variant and the closing of descriptors behind the loop are left out.
* The timer theorems assume a clock that does not run backwards. The changes of m_user_count by the main loop
  and by workers are taken as atomic.
* A connection whose append is refused stays open in no place until its timer expires.
* Concurrency is modelled on values, one statement or one critical section per step; the methods of the pool
  classes are runs in which calls are not interrupted. `connList.size()` outside the lock is read atomically,
  and the copy in `reserve = sem(FreeConn)` is taken as the semaphore itself.
* In the method GetConnection the other threads make whole calls during the wait; calls that interleave
  statement by statement are in the step system.
* block_queue::front, the nanoseconds of the timed pop, the shutdown of the pools and the failures of constructors.
* The text of log lines and of file names: a name is a date and an index. Rotation in asynchronous runs, and
  files that already hold lines, are not modelled.
