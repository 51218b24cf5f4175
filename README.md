# A verified model of a C doubly-linked list and a libcurl/libuv driver

This project models two parts of a small C utility library in Dafny and
proves properties of the model.

- **The list container** (`list.h`, `list.c`). A list header holds
  `head`, `tail` and `size` over caller-allocated nodes (`data`, `next`,
  `previous`). An iterator walks the nodes from either end. Every entry
  point returns a `list_rc` code.
  - `ListCodes.dfy` holds the return codes and the `list_opt` end selectors
    with their C values.
  - `LinkedList.dfy` holds `Node`, `List` and `Iterator` as classes whose
    fields the methods update in place. A ghost sequence `Nodes` is the
    list's contents from head to tail. `List.Valid()` says that the links,
    `head`, `tail` and `size` agree with it.
  - Each C function is a method that takes possibly-null references, so
    every NULL-argument path is modelled.
    - A NULL out-pointer is `outGiven == false`.
    - Whether `calloc` succeeded is `allocOk`.
    - A NULL `void *data` is `None`.
    - `free` sets a ghost `freed` flag.
  - Insert is proved to prepend or append to `Nodes` and Remove to delete
    exactly the removed node. The iterator is proved to return the nodes
    in list order from the head and in reverse order from the tail, each
    exactly once, then to report the end.
  - On an empty list `list_iterator_new` frees the iterator it allocated.
    The caller's out-pointer is still left pointing at it, so the model
    returns the freed iterator together with `FailureEmpty`.
- **The libcurl multi / libuv driver** (`uv_curlm_driver.h`), in
  `CurlmDriver.dfy`. It is modelled as a state machine.
  - The driver's globals are the fields of `Driver`:
    - the multi handle;
    - whether its callbacks are registered;
    - the timer's reference, closing flag and pending deadline;
    - libcurl's socket-to-watch assignment `assoc`.
  - Each poll handle is a `Watch`.
  - The calls into the transfer engine go onto a ghost trace:
    `curl_multi_socket_action`, `curl_multi_info_check` and
    `curl_multi_cleanup`.
  - Each callback is a method that the event loop or libcurl may invoke.
  - The readiness-to-flags mapping is the pure function `SelectFlags`.
  - The set of polled sockets and their event masks, `Registrations()`,
    is tied by every socket request to the one-step function
    `NextRegistrations`. Lemmas over request sequences prove two things:
    - the last request for a socket alone decides its mask, which replaces
      the old mask rather than being added to it;
    - sockets that no request names are untouched.

The libcurl and libuv constants (`CURL_POLL_*`, `CURL_CSELECT_*`,
`UV_READABLE`, `UV_WRITABLE`, `CURL_SOCKET_TIMEOUT`) have the values of
those libraries' public headers. The headers themselves are not part of
this model.

## Model

| member | source | states |
|---|---|---|
| `ListCodes.Code` | list.h:20-26 | LIST_SUCCESS is 0, and every failure code is negative, no lower than -4 |
| `ListCodes.CodeToRc` | list.h:20-26 | an integer names a return code exactly when it lies in -4..0 |
| `ListCodes.CodeRoundTrip` | list.h:20-26 | every return code is recovered from its integer value |
| `ListCodes.CodeToRcRoundTrip` | list.h:20-26 | every integer the enum names is the value of the code it is read as |
| `ListCodes.CodesDistinct` | list.h:20-26 | two different return codes never share a value |
| `ListCodes.OptValue` | list.h:28-31 | LIST_OPT_HEAD is 1 and LIST_OPT_TAIL is 2, and the value is HEAD exactly for the head selector |
| `ListCodes.DecodeOpt` | list.c:75 | an `opt` argument passes the check exactly when it is HEAD or TAIL, and it then decodes to the selector with that value |
| `ListCodes.OptRoundTrip` | list.h:28-31 | decoding a selector's value gives the selector back |
| `ListCodes.HeadBitSet` | list.c:88-91 | for a valid selector, `opt & LIST_OPT_HEAD` is nonzero exactly for LIST_OPT_HEAD |
| `LinkedList.Node.constructor` | list.c:154-161 | a freshly allocated node holds the given data, has null links and is not freed |
| `LinkedList.List.constructor` | list.c:39-46 | a freshly allocated list header is valid and empty: size 0, null head and tail |
| `LinkedList.Iterator.constructor` | list.c:200 | a freshly `calloc`ed iterator: null cursor, zero selector, position 0, not freed |
| `LinkedList.NewList` | list.c:33-49 | NULL out-pointer gives FAILURE_ARGUMENTS; failed allocation gives FAILURE_MEMORY; otherwise a fresh valid empty list with size 0 and null head and tail |
| `LinkedList.DestroyList` | list.c:51-60 | NULL gives FAILURE_ARGUMENTS; otherwise the header is freed and the nodes are left as they were |
| `LinkedList.SizeGet` | list.c:62-71 | NULL list or out-pointer gives FAILURE_ARGUMENTS and no size; otherwise SUCCESS and the number of nodes in the list |
| `LinkedList.Insert` | list.c:73-107 | bad arguments give FAILURE_ARGUMENTS and change nothing; otherwise the list stays valid, grows by one, and its contents are the node prepended (HEAD) or appended (TAIL), with the node as the new head or tail linked to the old one |
| `LinkedList.PrependedValid` | list.c:93-97 | linking a node in front of a valid chain, each pointing at the other, yields a valid list |
| `LinkedList.AppendedValid` | list.c:98-101 | linking a node behind a valid chain, each pointing at the other, yields a valid list |
| `LinkedList.Peek` | list.c:109-122 | bad arguments give FAILURE_ARGUMENTS; an empty list gives FAILURE_EMPTY; otherwise the first node for HEAD and the last for TAIL |
| `LinkedList.Remove` | list.c:124-146 | NULL arguments give FAILURE_ARGUMENTS and change nothing; otherwise the list stays valid, loses one node, and its contents are the old contents with exactly that node deleted; head or tail moves to the neighbour when the node was at an end; the removed node keeps its links |
| `LinkedList.UnlinkedValid` | list.c:130-141 | after the two unlink assignments, with the neighbours pointing at each other, the remaining nodes form a valid list |
| `LinkedList.DeleteAt` | list.c:124-146 | deleting the node at position i keeps the nodes before and after it in their order |
| `LinkedList.DeleteRemovesOne` | list.c:124-146 | on distinct nodes, deletion removes exactly the given node and keeps every other one |
| `LinkedList.NewNode` | list.c:148-164 | NULL out-pointer or NULL data gives FAILURE_ARGUMENTS; failed allocation gives FAILURE_MEMORY; otherwise a fresh node holding the data with null links |
| `LinkedList.DestroyNode` | list.c:166-181 | NULL gives FAILURE_ARGUMENTS; otherwise the data goes to the free callback exactly when one is given, and the node's links are cleared before it is freed |
| `LinkedList.NodeDataGet` | list.c:183-192 | NULL node or out-pointer gives FAILURE_ARGUMENTS; otherwise SUCCESS and the node's data |
| `LinkedList.NewIterator` | list.c:194-212 | bad arguments give FAILURE_ARGUMENTS; failed allocation gives FAILURE_MEMORY; an empty list gives FAILURE_EMPTY with the iterator freed; otherwise a valid iterator positioned on the first node of the chosen traversal |
| `LinkedList.DestroyIterator` | list.c:214-223 | NULL gives FAILURE_ARGUMENTS; otherwise the iterator is freed |
| `LinkedList.IteratorNext` | list.c:225-240 | NULL arguments give FAILURE_ARGUMENTS; otherwise the node at the cursor's position in the traversal, with the cursor moved to the next position, or ITERATOR_FAILURE_END with NULL once every node has been returned; the iterator stays valid |
| `LinkedList.TraversalVisitsEachOnce` | list.c:236-237 | following `next` from the head or `previous` from the tail visits every node exactly once, in list order or in reverse order |
| `CurlmDriver.SelectFlags` | uv_curlm_driver.h:170-182 | a negative error gives exactly CSELECT_ERR, a positive one no flags; with no error, IN is set iff the socket is readable and OUT iff writable, and nothing else |
| `CurlmDriver.SelectFlagsIsReadiness` | uv_curlm_driver.h:170-182 | with no error the flags equal the readable and writable bits of the events; any error clears IN and OUT |
| `CurlmDriver.Interest` | uv_curlm_driver.h:139-151 | IN, OUT and INOUT map to a mask; readable is set unless the action is OUT, writable unless it is IN, and no other bit; REMOVE and unknown actions map to no mask |
| `CurlmDriver.RequestReplacesMask` | uv_curlm_driver.h:138-157 | a request sets its socket's mask to exactly the requested one, or to none, and leaves every other socket's mask alone |
| `CurlmDriver.UnnamedSocketKeepsMask` | uv_curlm_driver.h:138-157 | a socket no request in a sequence names keeps its mask |
| `CurlmDriver.LastRequestWins` | uv_curlm_driver.h:138-157 | after any sequence of requests, a socket's mask is the one its last request sets, whatever came before |
| `CurlmDriver.NextTimer` | uv_curlm_driver.h:101-106 | -1 cancels the deadline; any other timeout sets it to the timeout converted to uint64 (below 2^64, congruent modulo 2^64, unchanged for non-negative values) |
| `CurlmDriver.LastTimerRequestWins` | uv_curlm_driver.h:101-106 | after a sequence of timer requests the deadline depends on the last request alone |
| `CurlmDriver.DebugCb` | uv_curlm_driver.h:64-93 | the debug callback returns 0 for every kind of debug information |
| `CurlmDriver.Watch.constructor` | uv_curlm_driver.h:131-134 | a new watch stores its socket, is stopped and is neither closing nor freed |
| `CurlmDriver.Driver.constructor` | uv_curlm_driver.h:33-34 | the zero-initialised globals: no multi handle, an untouched timer and no assigned watches |
| `CurlmDriver.Driver.Init` | uv_curlm_driver.h:36-48 | a failed `curl_multi_init` gives -1 and registers nothing; otherwise both callbacks are registered, the timer is initialised and unarmed, and the result is 0 |
| `CurlmDriver.Driver.Clean` | uv_curlm_driver.h:50-62 | returns 0; cleans up the multi handle once and forgets it; closes the timer only if it is referenced and not already closing; on a cleaned driver it does nothing |
| `CurlmDriver.Driver.TimerRequest` | uv_curlm_driver.h:95-107 | the pending deadline becomes the one NextTimer gives; nothing else changes |
| `CurlmDriver.Driver.TimerFire` | uv_curlm_driver.h:109-115 | the one-shot timer is disarmed, then socket_action(CURL_SOCKET_TIMEOUT, 0) and info_check are issued in that order |
| `CurlmDriver.Driver.AttachWatch` | uv_curlm_driver.h:125-136 | the watch passed back is reused; without one, a fresh stopped watch for the socket is created and assigned; nothing polled changes |
| `CurlmDriver.Driver.Rearm` | uv_curlm_driver.h:138-161 | the watch is stopped, then started with exactly the action's mask, or closed and unassigned (not freed) on REMOVE; an unknown action aborts with the watch stopped; the polled set changes as NextRegistrations says |
| `CurlmDriver.Driver.SocketRequest` | uv_curlm_driver.h:117-164 | creates a watch only when none is passed; re-arms with exactly the requested mask or closes and unassigns on REMOVE; returns 0 for the four known actions and aborts otherwise; the assignment table stays consistent and the polled set changes as NextRegistrations says |
| `CurlmDriver.Driver.SocketReady` | uv_curlm_driver.h:166-186 | issues socket_action with the watch's own socket and SelectFlags of the readiness, then info_check |
| `CurlmDriver.Driver.PollFree` | uv_curlm_driver.h:188-194 | a watch that has finished closing is freed; no socket is still assigned to it |

## Left out

- The opaque types of list.h:16-18 are not enforced. Dafny would need export sets to hide the class fields. All operations of the model still go through the methods above.
- `size_t` is an unbounded `nat`, so the model has no size overflow.
- Every list operation requires a valid list (or NULL). A list corrupted by misuse is outside the model.
- `LinkedList.Insert` requires that the node is not already in the list and, when the list is empty, that its links are null. list.c does not check either. The empty-list path relies on `list_node_new` having nulled the links.
- The two unchecked preconditions above hide a reachable defect in list.c. `list_remove` leaves the removed node's links stale (list.c:131-143). `list_insert` into an empty list does not reset the inserted node's links (list.c:80-86). Example: from the list [X, B], remove X, then remove B, then insert X at the head. X's `next` still points at B, so an iterator from the head returns B, which is no longer in the list. The model rules this sequence out by requiring null links on that path; it does not model the corrupted list.
- `LinkedList.Remove` requires that the node is in the list. list.c neither checks membership nor clears the removed node's links.
- `LinkedList.DestroyNode` does not model the `data = NULL` store just before the free. A node's data is a constant fixed by `list_node_new`; list.c writes it nowhere else. The freed flag stands for everything after the free.
- `LinkedList.IteratorNext` covers iteration over a list that is not changed while the iterator is in use. Changing the list under a live iterator is outside the model.
- The free callback of `list_node_destroy` is not run. The model returns the data handed to it.
- memory.c and memory.h are not part of this model. In the socket callback, allocation always succeeds, because `xcalloc` aborts the process on failure.
- debug.h is not part of this model: logging is a no-op, and the formatting in `curl_debug_cb` is not modelled.
- libuv and libcurl are not modelled: the event loop, readiness timing and the engine's own re-entrant callbacks. Only their visible effects are kept, as the watch and timer state and the engine trace. The libcurl effects are `curl_multi_assign`, `curl_multi_socket_action`, `curl_multi_cleanup` and `curl_multi_info_check`, whose body the caller supplies.
- `CurlmDriver.Driver.SocketReady` does not tie the ready events to the watch's mask; libuv's filtering of events is not modelled.
- `CurlmDriver.Driver.SocketRequest` requires that libcurl passes back the watch it was assigned for the socket, or null when there is none. This is the contract of `curl_multi_assign`.
- `CurlmDriver.Driver.TimerFire` requires a pending deadline. The loop runs the timer callback only when the timer is due.
- `abort()` in the socket callback is the `Aborted` outcome. Process termination itself is not modelled.
- The return values of `curl_multi_setopt`, `uv_timer_init`, `uv_timer_start` and `uv_poll_start` are ignored by the source, and they are not modelled.
