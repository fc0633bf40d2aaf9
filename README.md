# proxyx relay core in Dafny

proxyx is an HTTP-routing TCP relay. A listening `TCPRelay` accepts connections and creates one
`TCPRelayHandler` per connection. Each handler is registered in a table shared by the relay
and its handlers, which maps a file descriptor to its handler. The relay passes each readiness
event from the event loop to the handler registered under the event's descriptor. It also keeps
an append-only list of handlers ordered by last activity, and sweeps idle handlers from that list
at most every `TIMEOUT_PRECISION` (4) seconds. Requests are read with `HTTPX`, an incremental
HTTP header parser. `HTTPX` takes the request in arbitrary chunks and captures the start line
and the header lines up to the empty line (the message layout of section 2.1 of RFC 9112). It
rebuilds the message with the absolute-form URL turned into a path, and reads the destination
from the `Host` field (section 7.2 of RFC 9110, port 80 by default).

The model has five modules:

- `Builtins` (builtins.dfy): the Python the core relies on, stated as functions:
  - `str.find` as a first-occurrence search;
  - `str.replace(old, new, 1)`;
  - slicing past the end;
  - `int()` of a decimal string, with surrounding white space, a sign and `_` between digits;
  - the exceptions the core can raise, as the `Err` side of a `Result`.
- `EventLoop` (eventloop.dfy): the readiness bits `POLL_*`, sockets compared by identity, and
  the event triple `(sock, fd, event)`.
- `HttpX` (httpx.dfy): class `HTTPX` with the source's fields and methods. Each method is
  specified by a pure function on `Parser`, the value of those fields, for example
  `RequestStep` for `parse_request`. The lemmas are stated about these functions:
  - the header scan splits its input exactly;
  - chunk boundaries do not matter;
  - `check_header` is true exactly when an empty line has arrived;
  - the rebuild round trips: `get_response` gives back exactly the text fed, and the
    corrected request rebuild gives it back up to the one rewrite of `_host` to "/"
    (`get_data` as written drops the start line, see Findings);
  - the `Host` field is read as described.
- `Prepull` (prepull.dfy): the stage and status constants; class `TCPRelayHandler`, whose
  constructor registers it in the shared `FdToHandlers` table; and `handle_event`.
  - In the source the six `_on_*` callbacks only write a debug line. Here each callback
    appends its name to `log`. A parameter `destroys` says which callbacks leave the handler in
    `STAGE_DESTROYED`.
  - The dispatch discipline is proved for every choice of `destroys`:
    - nothing runs once the handler is destroyed;
    - error runs before read, and read before write;
    - a callback runs only when its bits are set;
    - nothing runs after a destroying callback;
    - nothing runs for a foreign socket.
- `TcpRelay` (tcprelay.dfy): class `TCPRelay` with `update_activity`, `remove_hanlder`,
  `_sweep_timeout` and the routing and sweep gate of `_handle_events`.
  - The slot list and its index are the value `Table`.
  - `Reslotted`, `Unslotted`, `StopAt`, `Nulled`, `Occupants` and `Compact` say what the
    methods do to a `Table`.
  - `IndexExact` says that every mapped handler's slot holds it and no other slot does.
    `update_activity` and `remove_hanlder` keep it (`ReslotKeepsExact`, `UnslotKeepsExact`).
  - The walk of `_sweep_timeout` does not keep `IndexExact`: a destroyed handler keeps its
    entry, which points at a slot the walk emptied. It keeps only the weaker `IndexSound`,
    and so does the rebasing `Compact` (`SweepKeepsSound`). The compaction as written breaks
    `IndexSound` (`CompactAsWrittenLosesSlot`).
  - The slot list stays in order of last activity (`ActivityOrdered`) under re-slotting,
    removal and the sweep, so the sweep destroys exactly the idle handlers from the cursor on
    (`SweepDestroysExactlyIdle`).
  - `_handle_events` routes each event (`Route`):
    - the event takes the route `RouteFits` gives against the descriptor table and backlog
      as the earlier accepts left them (`RoutedInOrder`, `RoutedAt`);
    - the tables end as `Registered` and `Routed` of the accepted handlers;
    - each handler ends with its `Replay`: the `Dispatch` of every event delivered to it, in
      order, from its old log and stage, or from a fresh start once accepted;
    - an accepted handler is `JustAccepted`: no remote socket, and activity time `now` from
      second 4 on (0 before), which is what the sweep that follows reads.

The class methods follow the code as written. This covers:
- the request line that `get_data` drops;
- the compaction that maps every handler to the same index;
- the misspelt attribute and the undefined global in `httpx.py`;
- the text `parse_request` throws away when it finds no method name.

For the first two, a corrected definition (`RebuildRequest`, `Compact`) carries the intended
property. Both are listed under "## Findings".

Time is a parameter:
- `update_activity` gets the whole second `int(time.time())`;
- `_sweep_timeout` and `_handle_events` get the float `time.time()` as a `real`.

A handler's `destroy()` is not carried out. The sweep returns the handlers it destroyed, in
order.

## Model

| member | source | states |
|---|---|---|
| Builtins.PyIntDecimal | modules/httpx.py:104 | `int()` of a port written in decimal digits gives that number back |
| HttpX.HTTPX.constructor | modules/httpx.py:26-32 | a new parser is in HTTP_INIT with no headers, an empty host, nothing pending and no start line yet |
| HttpX.HTTPX.CheckHeader | modules/httpx.py:34-38 | returns true exactly when the state is at least HTTP_REQUEST_HEADER |
| HttpX.HeaderCompleteIff | modules/httpx.py:34-38 | after a text naming a method is parsed from the initial state, `check_header` is true iff the text holds CRLF CRLF |
| HttpX.HeaderCompleteAnyChunking | modules/httpx.py:151-189 | the same holds for any split of the text into chunks whose first chunk names a method |
| HttpX.HTTPX.ParseRequest | modules/httpx.py:151-189 | the new fields and the returned value (False, True, or None in a response state) are `RequestStep` of the old fields and the chunk |
| HttpX.HTTPX.TakePending | modules/httpx.py:155-159 | the text worked on is the old pending text followed by the chunk, and the pending buffer is emptied |
| HttpX.RejectsWithoutMethod | modules/httpx.py:155-165 | in HTTP_INIT, without "GET" or "POST" in the accumulated text, the result is False, the state stays HTTP_INIT and the pending text is empty (discarded) |
| HttpX.DiscardsChunkWithoutMethod | modules/httpx.py:155-165 | a first chunk without a method name leaves the parser as if it had never arrived |
| HttpX.SplitMethodNameIsDropped | modules/httpx.py:155-165 | the chunks "GE" then "T\r\n" leave the parser in its initial state, while "GET\r\n" fed at once is accepted as the start line "GET" |
| HttpX.KeepsPartialStartLine | modules/httpx.py:169-179 | in HTTP_INIT with a method name but no CRLF, the whole accumulated text is kept pending, the state stays HTTP_INIT and the result is True |
| HttpX.CapturesRequestLine | modules/httpx.py:169-176 | once a CRLF is in, the start line is exactly the text before the first CRLF, holds no CRLF, and the state is at least HTTP_REQUEST_LINE |
| HttpX.BodyOnlyBuffered | modules/httpx.py:186-189 | in HTTP_REQUEST_HEADER any further chunks are only appended to the pending text in arrival order, and the headers and state do not change |
| HttpX.RequestStepJoin | modules/httpx.py:151-189 | feeding two chunks one after the other leaves the parser as feeding their concatenation, once a method name has been seen |
| HttpX.RequestChunksJoin | modules/httpx.py:151-189 | any non-empty sequence of chunks leaves the parser as their concatenation fed at once |
| HttpX.CollectJoin | modules/httpx.py:182-184 | a header line split across two calls is collected as if the joined text had come at once, because the unconsumed tail is put in front of the next chunk |
| HttpX.HTTPX.ParseHeaders | modules/httpx.py:111-124 | the fields become `CollectHeaders` of `buf[start:]`: scanned lines appended, HTTP_REQUEST_HEADER once the empty line is seen, the rest pending |
| HttpX.HTTPX.CollectHeaderLines | modules/httpx.py:111-124 | the loop shared by both header parsers results in `CollectHeaders` of `buf[start:]` with the given final state |
| HttpX.HeaderLoop | modules/httpx.py:112-123 | the `while` loop returns exactly the lines of `ScanHeaders(buf[start:])` appended to the old ones, whether the empty line was reached, and where the rest starts |
| HttpX.TakeHeaderLine | modules/httpx.py:119-121 | one loop turn appends the line ending at the found CRLF, moves past that CRLF, and keeps the scan invariant |
| HttpX.ScanHeadersSplits | modules/httpx.py:111-124 | the collected lines each followed by CRLF, then CRLF if the empty line was seen, then the pending rest, give back the scanned text exactly |
| HttpX.ScanHeadersLines | modules/httpx.py:111-124 | every collected line is non-empty and holds no CRLF, and without an empty line the pending rest holds no CRLF |
| HttpX.ScanHeadersExtend | modules/httpx.py:111-124 | scanning a text with more appended continues the scan of the first part on its pending rest followed by the addition, or only extends the rest once the empty line was seen |
| HttpX.ScanHeadersBlankIff | modules/httpx.py:113-117 | the scan sees the empty line iff the text starts with CRLF or holds CRLF CRLF |
| HttpX.TerminatedAppend | modules/httpx.py:55-56 | writing each line followed by CRLF distributes over concatenating the line lists |
| HttpX.HTTPX.ParseResponseHeaders | modules/httpx.py:127-141 | the fields become `CollectHeaders` of `buf[start:]` ending in HTTP_RESPONSE_HEADER |
| HttpX.HTTPX.ParseBody | modules/httpx.py:145-146 | the whole text becomes the pending text and nothing else changes |
| HttpX.HTTPX.ParseResponseBody | modules/httpx.py:148-149 | the whole text becomes the pending text and nothing else changes |
| HttpX.HTTPX.ParseResponse | modules/httpx.py:191-219 | the new fields and the outcome are `ResponseStep` of the old fields and the chunk |
| HttpX.ResponseOutsideInitRaises | modules/httpx.py:213-215 | outside HTTP_INIT, `parse_response` raises NameError after taking out the pending text, and changes nothing else |
| HttpX.HTTPX.GetData | modules/httpx.py:40-65 | the fields and the result are `DataStep` of the old fields (AttributeError before any start line) |
| HttpX.DataStepClears | modules/httpx.py:54-65 | the output is a start-line part, then each header with CRLF, CRLF and the pending text; start line, headers and pending text are emptied, and state and host are kept |
| HttpX.DataStepDropsStartLine | modules/httpx.py:42-44 | when `_host` is empty or does not occur in the start line, the output starts with the bare CRLF: the intended rebuild is exactly the start line followed by this output |
| HttpX.DataStepDropsOriginFormLine | modules/httpx.py:42-54 | with the start line "GET / HTTP/1.1" and the header "Host: a", the host read is ("a", 80) and `get_data` returns "\r\nHost: a\r\n\r\n" without the start line |
| HttpX.RebuildRoundTrip | modules/httpx.py:40-65 | after a complete header block is parsed, the intended rebuild gives back the text fed, with only the first occurrence of `_host` replaced by "/" when it occurs in the start line |
| HttpX.RebuildRoundTripChunked | modules/httpx.py:40-65 | the same round trip holds for the concatenation of any chunking whose first chunk names a method |
| HttpX.HTTPX.GetResponse | modules/httpx.py:67-77 | the fields and the result are `ResponseDataStep` of the old fields |
| HttpX.ResponseRoundTrip | modules/httpx.py:67-77 | after a status line and a complete header block are parsed, `get_response` returns exactly the text fed |
| HttpX.HTTPX.GetHostAddressAndPort | modules/httpx.py:81-109 | the fields and the result are `HostStep` of the old fields |
| HttpX.HostFromFirstHostLine | modules/httpx.py:83-106 | the host is the text from index 6 of the first header containing "Host:". `_host` becomes "http://" + host + "/". Without ':' the result is (host, 80); otherwise the text is split at the first ':', and a port that is not an integer raises ValueError |
| HttpX.HostPortRoundTrip | modules/httpx.py:102-106 | a first header "Host: addr:port" with no ':' in addr and a decimal port gives (addr, port) |
| HttpX.NoHostLineRaises | modules/httpx.py:94-96 | without a header containing "Host:", the fallback raises AttributeError, with `_host` reset to "": on `self._request_line` at line 95 when no start line was captured, and otherwise on the misspelt `self.request_line` at line 96 |
| Prepull.ReadWritingIsBoth | modules/prepull.py:53-56 | WAIT_STATUS_READWRITING is 3 and contains both the READING and the WRITING flag |
| Prepull.FdToHandlers.constructor | proxyx/tcprelay.py:36 | the shared descriptor table starts empty |
| Prepull.TCPRelayHandler.constructor | modules/prepull.py:60-82 | registers the handler under its local socket's descriptor and changes no other entry. Initial values: stage STAGE_INIT, both write buffers empty, upstream READING, downstream INIT, no remote socket or address, `last_activity` 0, and the configured server chosen only when local |
| Prepull.AskedIff | modules/prepull.py:123-133 | the three tests of `handle_event` ask for a callback exactly when the event carries one of its bits (ERR; IN or HUP; OUT) |
| Prepull.PlannedIff | modules/prepull.py:122-145 | a callback is planned for an event iff it belongs to the event's socket and its bits are set |
| Prepull.PlannedOrdered | modules/prepull.py:122-145 | planned callbacks are in the order error, read, write |
| Prepull.RunShape | modules/prepull.py:125-131 | running a plan stops right after the first destroying callback. What runs is a prefix of the plan, and it falls short only by ending on a destroying callback |
| Prepull.DestroyedIgnoresEvents | modules/prepull.py:118-120 | a destroyed handler runs no callback for any event and stays destroyed |
| Prepull.UnknownSocketIgnored | modules/prepull.py:146-147 | an event on neither of the handler's sockets runs no callback and leaves the stage unchanged |
| Prepull.DispatchDiscipline | modules/prepull.py:117-147 | what runs is a prefix of the plan in strictly increasing dispatch order. Each callback belongs to the event's socket and has its bits set, and only the last one may destroy |
| Prepull.DestroyedIffDestroyingRan | modules/prepull.py:122-145 | the handler ends destroyed iff a callback that ran destroyed it |
| Prepull.RunsWholePlan | modules/prepull.py:122-145 | when no planned callback destroys, all planned callbacks run |
| Prepull.EmptyCallbacksRunWholePlan | modules/prepull.py:94-114 | with the source's callbacks, which never destroy, every planned callback runs and the stage is unchanged |
| Prepull.TCPRelayHandler.OnCallback | modules/prepull.py:94-114 | a callback records its name and sets STAGE_DESTROYED exactly when it is one that destroys |
| Prepull.TCPRelayHandler.HandleEvent | modules/prepull.py:117-147 | the callbacks run are exactly `Dispatch` of the stage on entry, the socket's side and the event bits, and the stage after is `StageAfter` |
| Prepull.TCPRelayHandler.RunCallbacks | modules/prepull.py:122-133 | one socket's branch runs error, read and write as asked, stopping after a destroying one. It ends destroyed iff an asked callback destroys |
| Prepull.TCPRelayHandler.RunIfAsked | modules/prepull.py:123-126 | a guarded call runs the callback iff its bits are set, and reports whether it destroyed the handler |
| TcpRelay.TCPRelay.constructor | proxyx/tcprelay.py:30-43 | a new relay has no handlers, an empty slot list and index, cursor 0, its last sweep time at `now`, and an empty descriptor table |
| TcpRelay.TCPRelay.RemoveHandler | proxyx/tcprelay.py:82-87 | the table becomes `Unslotted`, or IndexError leaves it unchanged; the cursor and last sweep time are kept |
| TcpRelay.UnslotKeepsExact | proxyx/tcprelay.py:82-87 | under the exact invariant, removal cannot fail and keeps the invariant. Afterwards the handler is unmapped and in no slot |
| TcpRelay.UnslotKeepsSound | proxyx/tcprelay.py:82-87 | under the sound invariant and a clear prefix, removal cannot fail and keeps both |
| TcpRelay.UnslotShape | proxyx/tcprelay.py:82-87 | the length never changes and an unmapped handler changes nothing. For a mapped one, its slot is nulled, its key is deleted, and every other slot and entry stays |
| TcpRelay.UnslotKeepsOrder | proxyx/tcprelay.py:82-87 | removal keeps the list in activity order |
| TcpRelay.TCPRelay.UpdateActivity | proxyx/tcprelay.py:89-99 | within TIMEOUT_PRECISION of the last activity nothing changes. Otherwise `last_activity` becomes `now` and the table becomes `Reslotted` (IndexError on a mapped slot past the end). Only the handler's `last_activity` changes. Under the exact invariant, with the list in activity order and no slotted handler active after `now`, the list stays in activity order |
| TcpRelay.ReslotKeepsExact | proxyx/tcprelay.py:93-99 | under the exact invariant, re-slotting cannot fail and keeps the invariant. The handler then occupies the new last slot only |
| TcpRelay.ReslotKeepsSound | proxyx/tcprelay.py:93-99 | under the sound invariant and a clear prefix, re-slotting cannot fail and keeps both |
| TcpRelay.ReslotShape | proxyx/tcprelay.py:93-99 | the list grows by exactly one and ends in the handler, mapped to the old length. Its previous slot is nulled, and every other slot and entry is kept |
| TcpRelay.ReslotKeepsOrder | proxyx/tcprelay.py:93-99 | under the exact invariant, when the list without the handler is in activity order and no other slotted handler is more recent, re-slotting cannot fail and keeps the list in activity order |
| TcpRelay.ExactIsSound | proxyx/tcprelay.py:82-99 | the exact index invariant implies the sound one |
| TcpRelay.StopAt | proxyx/tcprelay.py:109-125 | the walk stops within the list. Every occupied slot before the stop holds an idle handler, and the stop slot (if inside the list) holds a live one |
| TcpRelay.OccupantsIff | proxyx/tcprelay.py:112-123 | a handler is among the destroyed iff it occupies a slot of the walked range |
| TcpRelay.SweptAreIdle | proxyx/tcprelay.py:112-123 | every handler the sweep destroys has been idle for at least the timeout |
| TcpRelay.NulledKeepsOrder | proxyx/tcprelay.py:112-123 | emptying any range of slots keeps the list in activity order |
| TcpRelay.LiveFromStop | proxyx/tcprelay.py:109-125 | in a list in activity order, every occupied slot from the stop of the walk on holds a live handler |
| TcpRelay.SweptExactlyIdle | proxyx/tcprelay.py:109-125 | in a list in activity order, a handler is among the walk's occupants iff it occupies a slot from the cursor on and is idle |
| TcpRelay.SuffixKeepsOrder | proxyx/tcprelay.py:127-133 | the suffix kept by the compaction is in activity order when the list is |
| TcpRelay.SweptKeepsOrder | proxyx/tcprelay.py:101-133 | a whole sweep keeps the list in activity order |
| TcpRelay.SweepDestroysExactlyIdle | proxyx/tcprelay.py:101-133 | with a timeout set and the list in activity order, a handler is destroyed by the sweep iff it occupies a slot from the cursor on and is idle |
| TcpRelay.WalkShape | proxyx/tcprelay.py:109-125 | the walk empties exactly the slots it passes, and leaves every slot before the cursor and from the stop on as it was |
| TcpRelay.WalkKeepsSound | proxyx/tcprelay.py:109-125 | the walk keeps the sound invariant and leaves every slot before the stop empty |
| TcpRelay.CompactKeepsSound | proxyx/tcprelay.py:127-133 | the rebasing compaction keeps the sound invariant with the cursor at 0 |
| TcpRelay.SweepKeepsSound | proxyx/tcprelay.py:101-133 | a whole sweep with the rebasing compaction keeps the sound invariant, with the cursor at the stop or, after compaction, at 0 |
| TcpRelay.CompactAsWrittenLosesSlot | proxyx/tcprelay.py:127-133 | one live handler in slot 600 behind 600 empty slots: the compaction as written indexes it 600 in a one-slot list, so its next re-slot raises IndexError, while the rebasing one indexes it 0 |
| TcpRelay.TCPRelay.SweepTimeout | proxyx/tcprelay.py:101-133 | the new table, cursor and destroyed handlers are `Swept` of the old table and cursor. With timeout 0 nothing changes. Otherwise the occupants before `StopAt` are destroyed in order and their slots emptied. The list is compacted as written when `pos > 512` and `pos > length >> 1`; otherwise the cursor moves to the stop. The last sweep time is kept |
| TcpRelay.TCPRelay.WalkExpired | proxyx/tcprelay.py:105-125 | the loop stops at `StopAt`, empties the slots it passed, returns their occupants in order, and leaves the index and cursor alone |
| TcpRelay.TCPRelay.SetAllIndices | proxyx/tcprelay.py:130-131 | every key of the index is mapped to `pos`, the key set is unchanged, and nothing else changes |
| TcpRelay.TCPRelay.AcceptConnection | proxyx/tcprelay.py:145-148 | a fresh handler in STAGE_INIT, with no remote socket, is registered under the accepted socket's descriptor. When `now >= 4` its activity time becomes `now` and it is appended to the slot list; before that its activity time stays 0 and the table is unchanged |
| TcpRelay.TCPRelay.RouteEvent | proxyx/tcprelay.py:136-163 | the route is `RouteFits` of the descriptor table and the pending connections. POLL_ERR on the listening socket raises. Any other listening event accepts the head of the backlog, or nothing on EAGAIN. The accepted handler starts in STAGE_INIT with no remote socket and activity time `now` from second 4 on (0 before), is registered under its descriptor and, from second 4 on, is slotted at the end. Otherwise both tables stay. An event for a registered descriptor goes to the handler registered under it, which ends as `Handled` says (its `Dispatch`). Every other handler keeps its log and stage |
| TcpRelay.TCPRelay.RouteEvents | proxyx/tcprelay.py:136-163 | succeeds iff no event is POLL_ERR on the listening socket. On success there is one route per event; on error the routes stop at the first such event with ServerSocketError. The routes are `RoutedInOrder`: each event's route fits the descriptor table and backlog as the earlier accepts left them. The descriptor table ends as `Registered` with the accepted handlers, in route order. The timeout table ends as `Routed`: those handlers are appended at new slots from second 4 on, and it is unchanged before. Each handler registered before ends with its `Replay` over the routes from its old log and stage, and each accepted one with its `Replay` from a fresh start. Every accepted handler is `JustAccepted`: no remote socket, activity time `now` from second 4 on and 0 before. The cursor and last sweep time are kept |
| TcpRelay.TCPRelay.RouteLoop | proxyx/tcprelay.py:136-163 | the loop routes every event, or stops right after the first server error. The tables end as `Registered` and `Routed`, every handler holds the log and stage its replay predicts, and every accepted handler is `JustAccepted` at `now` |
| TcpRelay.TCPRelay.RouteNext | proxyx/tcprelay.py:136-163 | one turn of the loop: the routing, both tables, the rest of the backlog and the predicted log and stage of every handler move on by exactly the one route the event takes, and the handlers accepted so far, with the one it may accept, stay `JustAccepted` |
| TcpRelay.ServerErrorIff | proxyx/tcprelay.py:140-142 | an event's route is the server error exactly when it is POLL_ERR on the listening socket |
| TcpRelay.RoutedAt | proxyx/tcprelay.py:136-163 | in a routing in order, event `i` is routed by `RouteFits` against the table as the accepts before it left it, with the backlog after those accepts. A registered descriptor's event goes to the handler registered under it at that point; an unregistered one is dropped |
| TcpRelay.RoutedErrors | proxyx/tcprelay.py:140-142 | in a routing in order, a route is the server error exactly when its event is POLL_ERR on the listening socket |
| TcpRelay.AcceptsFromBacklog | proxyx/tcprelay.py:143-152 | the accepted handlers are, in order, the handlers of the first pending connections, one per accept |
| TcpRelay.DeliveredToKnown | proxyx/tcprelay.py:157-161 | an event is only delivered to a handler registered before the loop or accepted earlier in it |
| TcpRelay.RegisteredValues | proxyx/tcprelay.py:145-148 | after the accepts register themselves, the descriptor table holds only the handlers it held before and the accepted ones |
| TcpRelay.AppendedShape | proxyx/tcprelay.py:89-99 | slotting distinct new handlers at the end grows the list by exactly them, maps each to its new slot, and keeps every other entry |
| TcpRelay.AppendedKeepsExact | proxyx/tcprelay.py:89-99 | slotting handlers new to the table at the end keeps the exact index invariant |
| TcpRelay.ReplayUntouched | proxyx/tcprelay.py:157-161 | a handler that no route accepts or delivers to keeps its log and stage |
| TcpRelay.ReplayStaysDestroyed | modules/prepull.py:117-120 | a destroyed handler runs no more callbacks and stays destroyed for the rest of the events |
| TcpRelay.TCPRelay.SweepGate | proxyx/tcprelay.py:164-167 | when more than 4 seconds have passed since the last sweep, the last sweep time becomes `now` and the sweep is `Swept` of the old table and cursor. Otherwise nothing changes and nothing is destroyed |
| TcpRelay.TCPRelay.HandleEvents | proxyx/tcprelay.py:135-167 | the routing is exactly as `RouteEvents` states, with the clock read as a whole second, so every accepted handler is `JustAccepted` at `now.Floor` when the sweep reads its activity time. On error nothing is swept and the last sweep time is kept. On success, when more than 4 seconds have passed since the last sweep, the last sweep time becomes `now`, and the table, cursor and destroyed handlers are `Swept` of `Routed(old table, routes, now)`, the table the routing left. Otherwise nothing is destroyed, and the routed table and cursor stay |

## Left out

- proxyx/server.py and proxyx/utils.py are not part of this model: process start-up, signals and a constant configuration.
- The event-loop and DNS-resolver modules are not part of this model. Only the readiness bits and socket identity are modelled.
- Socket work is not modelled: `getaddrinfo`, bind, listen and fast open in `TCPRelay.__init__`; `add_to_loop`; `close`; and the close path at the end of `_handle_events`. That path names a method `_handler_events` that does not exist.
- Accepting connections: `accept()` takes the next socket of a given backlog. An empty backlog stands for EAGAIN. Other accept errors, which the source only logs, are not modelled.
- `setblocking`, `setsockopt` and `loop.add` in the handler constructor are not modelled.
- Logging and `traceback` output are not modelled. The logging call at modules/httpx.py:60 reads `_request_line`; before any start line it raises AttributeError, which is the error case of `get_data` in the model.
- `time.time()` is a parameter. `_handle_events` uses one `now` for the whole call, whereas the source reads the clock again in each new handler and in the sweep.
- `_get_a_server` is given as the `configServer` parameter. When the handler is not local, `chosenServer` is None; the source leaves the attribute unset.
- `hash(handler)` is the handler's identity, which is what Python's default hash gives. Hash reuse after a handler is freed is not modelled.
- Prepull.TCPRelayHandler.constructor: the source's last step, `self._update_activity()`, calls back into the relay. That call is made by `TcpRelay.TCPRelay.AcceptConnection` right after construction, because `Prepull` cannot import `TcpRelay`.
- The `_on_*` callbacks relay no bytes in the source. Here they only log, and may destroy the handler as the parameter `destroys` says. The unused write buffers, `BUF_SIZE` and the stream constants are data only.
- TcpRelay.TCPRelay.SweepTimeout: `handler.destroy()` is not performed. The destroyed handlers are returned, and their index entries stay, as nothing visible removes them. The handler class in modules/prepull.py has no `remote_address` or `destroy` attribute, so with it the sweep as written would raise AttributeError at the first idle handler. The model takes the sweep as the relay intends it for a handler that has them.
- TcpRelay.TCPRelay.SweepTimeout: the source's `_timeout` comes from the configuration and is any truthy value; here it is an `int`.
- HttpX.HTTPX.GetHostAddressAndPort: without a Host line, the fallback that would parse an absolute-form start line (modules/httpx.py:95-100) always raises AttributeError before computing anything: at line 95 on `self._request_line` when no start line exists yet, otherwise at line 96 on the misspelt `self.request_line`. What the fallback would compute is not modelled.
- HttpX.HTTPX: `_start` and `_pos` are set by the constructor and never read, so they are left out.
- Builtins.PyInt: accepts ASCII digits only, where Python also accepts other Unicode decimal digits.
- Builtins.PyInt: strips only ASCII white space (space and `\t\n\v\f\r`), where Python 3 also strips other Unicode white space such as `\x1c`-`\x1f`, `\x85` and `\xa0`.
- Builtins.PyInt: accepts `_` between digits, as Python 3.6 and later do. Python 2, which the source is written for, rejects it.

## Findings

| source | as written | input that shows it | evidently intended | confidence | as-written member | corrected member |
|---|---|---|---|---|---|---|
| modules/httpx.py:42-44 | `url` starts as '' and is set only when `_host` occurs in the start line, so `get_data` drops the start line otherwise | start line "GET / HTTP/1.1" with header "Host: a": `_host` is "http://a/" and the output is "\r\nHost: a\r\n\r\n" | keep the start line, rewriting only an absolute-form URL, so the rebuild gives back the request | not executed | HttpX.DataStepDropsOriginFormLine | HttpX.RebuildRoundTrip |
| proxyx/tcprelay.py:130-131 | after compaction every index entry is set to `pos` instead of being reduced by `pos` | the table of 600 empty slots followed by a handler h, with h indexed 600, swept while h is live: it compacts to the one-slot list [h] with h still indexed 600, and h's next `update_activity` raises IndexError | rebase every entry by `pos`, keeping each mapped index inside the list | not executed | TcpRelay.CompactAsWrittenLosesSlot | TcpRelay.SweepKeepsSound |
