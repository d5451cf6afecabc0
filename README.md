# tcp_closer in Dafny

tcp_closer closes idle TCP connections. It compiles the source and
destination ports from its command line into an `inet_diag` bytecode
filter. It asks the kernel's sock_diag interface for a dump of the
matching established connections, and for every connection idle long
enough it sends a `SOCK_DESTROY` request. Where netlink destroy is not
used, it kills every process that holds the socket, found through the
socket inode among the fd links under `/proc`. An event loop keeps a
sorted list of timers and fires them.

This project models the parts of the program that compute:

- `bytes.dfy` (`Bytes`): bytes, 16/32-bit little-endian encoding,
  4-byte alignment, the int32 conversion.
- `cstring.dfy` (`CString`): `atoi`/`atoll` and the decimal rendering they
  invert.
- `bytecode.dfy` (`Bytecode`): the `inet_diag_bc_op` layout and the
  kernel's filter interpreter as `src/tcp_closer.h` documents it. The
  counter starts at the filter length, every op subtracts its `yes` or
  `no` offset, and the filter accepts iff the counter ends at exactly 0.
- `closer.dfy` (`Closer`): `parse_cmdargs`, `create_filter` (an in-place
  writer into an array) and the sizing in `main`. It also proves what the
  compiled filter means under that interpreter.
- `mnl.dfy` (`Mnl`): the libmnl framing the program relies on. This is
  the netlink header and attribute layout with 4-byte alignment (section
  2.3.2 of RFC 3549), and the `mnl_nlmsg_ok/next` and `mnl_attr_ok/next`
  walks.
- `diag.dfy` (`Diag`): the dump and destroy requests, the attribute walk
  and retention policy of `parse_diag_msg`, and the two receive loops. The
  receive loops are methods of a context class that holds
  `dump_in_progress` and the stop request.
- `eventloop.dfy` (`EventLoop`): the timer list of the event loop as a
  class with insert, remove and `run_timers`, proved against a list of
  values. It also covers the sleep-time computation.
- `procscan.dfy` (`ProcScan`): `destroy_socket_proc`, two nested loops
  over a snapshot of `/proc`.

The following become parameters or values rather than I/O:

- The wall-clock time `cur_time` is a parameter `now`.
- Received netlink data is a byte buffer with the byte count `recvfrom`
  returned.
- Sent requests are byte sequences.
- The `/proc` tree is a value.
- Processes killed and callbacks fired are returned as sequences.

Byte order is little-endian, as on the hosts the program targets.

## Model

| member | source | states |
|---|---|---|
| Bytecode.DecodeEncode | src/tcp_closer.h:10-16 | any sequence of ops written as 4-byte `inet_diag_bc_op`s (code, 8-bit yes, 16-bit no) reads back as the same ops |
| Bytecode.AbortAlwaysWorksIff | src/tcp_closer.h:13-18 | a 0xFFFF `no` jump drives the length counter negative from every op exactly when the filter is at most 0xFFFF-1 bytes |
| Bytecode.HeaderArithmetic | src/tcp_closer.h:16-27 | with the header's 8 bytes per port, MAX_NUM_PORTS = 8191 ports keep the abort working and one more port does not |
| Bytecode.AbortRejects | src/tcp_closer.h:4-8 | taking the abort jump inside a filter within that bound ends the interpreter with a rejection |
| CString.AtoiDecimal | src/tcp_closer_proc.c:70 | the decimal text of every natural number reads back as that number; within the range of long, strtol and atoll return it exactly and atoi returns it modulo 2^32, exactly below 2^31 |
| CString.Strtol | src/tcp_closer_proc.c:30 | atoll (strtoll on a 64-bit long) returns the number read when it fits a long and saturates at LONG_MIN/LONG_MAX otherwise |
| CString.Atoi | src/tcp_closer.c:132 | atoi returns a 32-bit int congruent modulo 2^32 to the saturated long strtol reads |
| CString.AtoiWrapsToZero | src/tcp_closer.c:132 | atoi of "4294967296" is 0 |
| CString.AtoiStopsAtNonDigit | src/tcp_closer_proc.c:66-70 | the number read stops at the first non-digit, so a trailing ']' does not change it |
| Closer.ParseCmdargs | src/tcp_closer.c:111-170 | succeeds iff every option is a -s/-d whose atoi is non-zero or --kill_only, and the port total never exceeds MAX_NUM_PORTS; the counts are then the number of source and destination ports; the count stops at MAX_NUM_PORTS + 1 |
| Closer.WrappedPortRejected | src/tcp_closer.c:131-135 | a port argument "4294967296" fails parsing, like "0", because atoi's int result is 0 |
| Closer.ListOpBlock | src/tcp_closer.c:77-103 | block k of a list is GE (yes 8, no 16 or 0xFFFF for the last), NOP with the port mod 2^16, LE (yes 8 + 16*(count-k-1) mod 2^8, no 8 or 0xFFFF for the last), NOP with the port |
| Closer.WriteBlock | src/tcp_closer.c:77-106 | writing one port's four ops at its slot turns the buffer with ns source and nd destination blocks into the one with the next block of that list also written |
| Closer.CreateFilter | src/tcp_closer.c:27-108 | the zeroed buffer ends up holding the source blocks in argument order from op 0, then the destination blocks in argument order from op 4*num_sport, whatever the interleaving of -s and -d |
| Closer.Start | src/tcp_closer.c:187-231 | exit status 1 when argc < 2 or parsing fails, otherwise 0; then the filter is 16 bytes per port, at most 16 * MAX_NUM_PORTS bytes, and is the compiled filter of the parsed ports |
| Closer.FilterLists | src/tcp_closer.c:30-32 | the source list starts at op 0 and the destination list at op 4*num_sport |
| Closer.ListRun | src/tcp_closer.c:86-101 | from block k of a list of at most 16 ports, a port found in the rest of the list jumps to the list's end, and any other port rejects |
| Closer.ListsSemantics | src/tcp_closer.c:77-106 | any program holding the source list from op 0 and the destination list right after it accepts exactly the connections whose ports are in both lists (an empty list allows every port) and rejects the rest |
| Closer.FilterSemantics | src/tcp_closer.c:179-182 | with at most 16 ports per list, the filter accepts exactly when the source port is one of the -s ports (or there are none) and the destination port one of the -d ports (or there are none), comparing ports mod 2^16 |
| Closer.FilterSafe | src/tcp_closer.c:179-182 | with at most 4095 ports in all, whatever each list's length, an accepted connection has its source port among the -s ports (if any) and its destination port among the -d ports (if any) |
| Closer.ListsSafe | src/tcp_closer.c:77-106 | any program holding the source list from op 0 and the destination list right after it, of any lengths and at most 4095 ports in all, accepts only connections whose ports are in both lists (an empty list allows every port) |
| Closer.ListReaches | src/tcp_closer.c:86-101 | from any block of a list of any length, with the abort jump working, the run either rejects or arrives at the list's end |
| Closer.BlockHitAny | src/tcp_closer.c:90-96 | in a list of any length, a port matching block k goes on at the block its wrapped LE offset names, which lies after block k and not beyond the list's end |
| Closer.JumpsLandOnComparisons | src/tcp_closer.c:77-101 | for lists of any length, every yes jump, and every no jump other than 0xFFFF, of a comparison lands on a comparison or exactly at the filter's end, never on an operand NOP |
| Closer.LeJumpLands | src/tcp_closer.c:90-96 | even when the 8-bit LE `yes` wraps (more than 16 ports), it lands on the GE of a later block of the list or at the list's end |
| Closer.LeJumpWrapsBeyond16 | src/tcp_closer.c:90-96 | with 17 source ports the 8-bit LE `yes` of the first block wraps, so a connection whose source port is the first one listed is rejected |
| Closer.FilterAbortBound | src/tcp_closer.c:218-219 | at the 16 bytes per port actually allocated, the abort jump works from every op iff there are at most 4095 ports, and not at MAX_NUM_PORTS |
| Closer.AbortFailsAt4096Ports | src/tcp_closer.c:218-219 | a filter of 4096 ports (within the limit) whose first source port misses runs into a fault instead of rejecting |
| Mnl.ReadEncodeHdr | src/tcp_closer_netlink.c:57-60 | a netlink header written anywhere in a buffer reads back unchanged |
| Mnl.FramesWithin | src/tcp_closer_netlink.c:211-247 | every message the `mnl_nlmsg_ok`/`mnl_nlmsg_next` walk visits lies within the bytes received, the first starts at the buffer start, and each starts at the aligned end of the previous one |
| Mnl.NlmsgOkCast | src/tcp_closer_netlink.c:211 | for an int count, libmnl's test, with its `(int)` cast of `nlmsg_len`, passes exactly when the unbounded test does or the length is 2^31 or more |
| Mnl.NextC | src/tcp_closer_netlink.c:237 | `mnl_nlmsg_next` moves the cursor forward by less than 2^32 bytes and lowers the int count by the same amount modulo 2^32 |
| Mnl.NextCAgrees | src/tcp_closer_netlink.c:246 | for a message that passes the unbounded test, the C step is the aligned step of the model's walk |
| Mnl.HugeLengthStep | src/tcp_closer_netlink.c:211-247 | a length of 2^31 or more passes the C test, and the step then jumps at least 2 GiB past the message or, exactly for lengths 0xFFFFFFFD and up, leaves cursor and count unchanged, so the walk repeats forever |
| Mnl.FramesCExtends | src/tcp_closer_netlink.c:262-282 | the C walk, for any number of steps, visits the model's messages first and in order; a further message it visits has a length of 2^31 or more |
| Mnl.AttrNext | src/tcp_closer_netlink.c:139-140 | the next attribute starts between 0 and 3 bytes after the current one ends |
| Mnl.ReadEncodeAttr | src/tcp_closer_netlink.c:72-73 | an attribute written by `mnl_attr_put` reads back with its type and 16-bit truncated length, and with its payload when the length did not wrap |
| Diag.ReadEncodeReq | src/tcp_closer_netlink.c:62-70 | an `inet_diag_req_v2` written anywhere reads back unchanged |
| Diag.DumpRequestLayout | src/tcp_closer_netlink.c:57-75 | with the bytes built in a buffer large enough (see DumpBufferBound), the dump request is a SOCK_DIAG_BY_FAMILY message with DUMP, REQUEST and ACK flags and the socket's port id, of exactly `nlmsg_len` bytes; it asks for TCP of the configured family, states `1<<TCP_ESTABLISHED` and the INET_DIAG_INFO extension, and carries the filter verbatim in one INET_DIAG_REQ_BYTECODE attribute |
| Diag.DumpRequestDropsLargeFilter | src/tcp_closer_netlink.c:72-75 | the length arithmetic of `mnl_attr_put` for a 65536-byte filter (4096 ports), taking the buffer as unbounded: the 16-bit attribute length wraps to 4, so `nlmsg_len` is 76 and the bytes sent carry an empty bytecode attribute; with the real buffer the filter copy has overflowed long before (DumpBufferBound) |
| Diag.DumpBytesWritten | src/tcp_closer_netlink.c:57-73 | send_diag_msg writes at least header, request, attribute header and the whole filter into its buffer |
| Diag.DumpBufferBound | src/tcp_closer_netlink.c:51-73 | the request of n ports fits a 4096-byte `MNL_SOCKET_BUFFER_SIZE` only for n <= 251 and an 8192-byte one only for n <= 507, both below MAX_NUM_PORTS, so larger accepted port lists overflow the stack buffer |
| Diag.DestroyRequestLayout | src/tcp_closer_netlink.c:88-100 | the destroy request is SOCK_DESTROY with REQUEST and ACK, for TCP, and copies the entry's family and whole socket id unchanged |
| Diag.AttrWalkDrift | src/tcp_closer_netlink.c:137-141 | because the walk lowers `payload_len` by the unaligned length but advances by the aligned one, attribute k may end up to 3*k bytes past the entry's payload |
| Diag.FindInfoAttr | src/tcp_closer_netlink.c:134-146 | the walk finds an attribute iff some INET_DIAG_INFO attribute is reachable, and then it is the first one |
| Diag.InfoIndex | src/tcp_closer_netlink.c:137-145 | the index found holds INET_DIAG_INFO and no earlier attribute does |
| Diag.ParseDiagMsg | src/tcp_closer_netlink.c:106-196 | the action taken for an entry is the policy's action for it |
| Diag.EntryActionSpec | src/tcp_closer_netlink.c:176-195 | an entry is acted on iff (idle_time is 0 or last_data_recv >= idle_time) and (the limit is 0 or last_data_recv < limit); the action is a netlink destroy iff use_netlink, otherwise a /proc kill of the entry's inode; the destroy carries the entry's family and id |
| Diag.DoneIndex | src/tcp_closer_netlink.c:212-217 | the index is the first NLMSG_DONE, and no message before it is one |
| Diag.HasErrorExists | src/tcp_closer_netlink.c:220-235 | "some NLMSG_ERROR" and "some NLMSG_ERROR with a nonzero code" among the messages mean what they say |
| Diag.Ctx.constructor | src/tcp_closer.c:209 | the zeroed context holds the configuration, with no dump in progress and no stop requested |
| Diag.Ctx.HandleDumpMsg | src/tcp_closer_netlink.c:220-246 | an NLMSG_ERROR clears dump_in_progress and, with a nonzero code and no dump interval, requests a stop; any other message is parsed once and leaves both flags alone |
| Diag.Ctx.RecvDiagMsg | src/tcp_closer_netlink.c:198-248 | the actions are those of the entries before the first NLMSG_DONE, in order; dump_in_progress is cleared iff a DONE or an ERROR was reached; a stop is requested iff there is no dump interval and a DONE or a failing ERROR was reached; nothing after DONE is read |
| Diag.HugeDoneSeenOnlyInC | src/tcp_closer_netlink.c:211-218 | an NLMSG_DONE header with `nlmsg_len` 0x80000000 is visited by the C walk, which then clears dump_in_progress, but not by the model's walk |
| Diag.RecvDestroyMsg | src/tcp_closer_netlink.c:250-283 | the reports are those of the walk: unexpected types are reported and skipped, zero-code acknowledgements pass, and the walk ends at NLMSG_DONE or at the first failure |
| Diag.DestroyReportsShape | src/tcp_closer_netlink.c:262-282 | at most one report per message, and every report except the last is an unexpected type, so at most one failure is reported and it ends the walk |
| Diag.AcksReportNothing | src/tcp_closer_netlink.c:272-281 | a buffer of acknowledgements with code 0 reports nothing |
| EventLoop.TimeoutHandle.constructor | src/backend_event_loop.c:103-121 | a new handle holds the given deadline and interval |
| EventLoop.Loop.constructor | src/backend_event_loop.c:26-41 | a new loop has an empty timeout list |
| EventLoop.Loop.InsertTimeout | src/backend_event_loop.c:73-93 | the list stays sorted by deadline, with each handle once and its own deadline; it becomes the old list with the handle inserted before the first later deadline |
| EventLoop.Loop.Slot | src/backend_event_loop.c:76-90 | the head test and the walk with strict `<` stop at the first entry whose deadline is later than the new one |
| EventLoop.FirstLaterSplits | src/backend_event_loop.c:85-88 | on a sorted list the entries before that position are exactly those due by the deadline |
| EventLoop.InsertIndex | src/backend_event_loop.c:73-93 | insertion adds exactly one entry at that position; the entries before it are unchanged and those after are shifted by one |
| EventLoop.InsertKeepsOthers | src/backend_event_loop.c:73-93 | taking the new entry out again gives back the old list |
| EventLoop.InsertSorted | src/backend_event_loop.c:73-93 | insertion keeps the list sorted: every entry before the new one has an earlier or equal deadline, every entry after a later one |
| EventLoop.InsertBehind | src/backend_event_loop.c:84-92 | insertion is stable: entries with an earlier or equal deadline in front stay in front of the new one |
| EventLoop.SpliceValid | src/backend_event_loop.c:73-93 | inserting a handle not on a sorted list of distinct handles gives a sorted list of distinct handles |
| EventLoop.Loop.RemoveTimeout | src/backend_event_loop.c:96-101 | the handle leaves the list, the list stays valid, and the rest is left in order |
| EventLoop.WithoutAt | src/backend_event_loop.c:96-101 | removing the handle at position k of a list of distinct handles is cutting out position k |
| EventLoop.RemoveSorted | src/backend_event_loop.c:96-101 | removal keeps a sorted list sorted |
| EventLoop.Loop.RunTimers | src/backend_event_loop.c:123-151 | the handles fired, in order, are exactly the prefix whose deadline is at most now; the list becomes the rest with each fired periodic handle re-inserted at now + interval, in firing order; every one-shot handle, the fired ones that leave the list included, keeps its deadline |
| EventLoop.Loop.FireNext | src/backend_event_loop.c:133-146 | one pass takes the next handle before firing the head; that handle is the next due one, or is not due when none is left; a one-shot handle keeps its deadline |
| EventLoop.Loop.FireHead | src/backend_event_loop.c:138-146 | firing the head removes it and puts it back at now + interval if periodic; a one-shot head keeps its deadline |
| EventLoop.Loop.Reinsert | src/backend_event_loop.c:144-146 | re-arming sets the deadline to now + interval and inserts the handle |
| EventLoop.HeadRearmed | src/backend_event_loop.c:140-146 | removing the head and re-inserting it when periodic equals re-arming it on the rest of the list |
| EventLoop.AfterRunSpec | src/backend_event_loop.c:133-150 | after a pass the list is sorted, nothing on it is due by now, and it holds the handles that were not due plus the periodic ones fired; one-shot handles that fired are gone |
| EventLoop.RearmLater | src/backend_event_loop.c:143-146 | a re-armed handle is later than now, so it is not fired again in the same pass |
| EventLoop.RearmSorted | src/backend_event_loop.c:143-146 | re-arming keeps the list sorted |
| EventLoop.RearmHandles | src/backend_event_loop.c:139-146 | re-arming the fired handles adds exactly the periodic ones back to the list |
| EventLoop.Loop.SleepTime | src/backend_event_loop.c:164-175 | -1 with no timer, 0 once the first deadline has passed, otherwise the time left when it is below 2^31 ms |
| EventLoop.SleepUntilEarliest | src/backend_event_loop.c:168-172 | when the first deadline is less than 2^31 ms ahead, a non-zero sleep ends no later than any deadline on the list |
| EventLoop.SleepTimeWraps | src/backend_event_loop.c:171-172 | a first deadline exactly 2^31 ms ahead gives a negative sleep time, which makes epoll_wait block with no timeout |
| ProcScan.Pid | src/tcp_closer_proc.c:30 | the pid is atoll of the name as a uint64_t: the number itself when it is not negative |
| ProcScan.KillTarget | src/tcp_closer_proc.c:77 | kill() receives the pid as a 32-bit pid_t, congruent to it modulo 2^32 and equal to it below 2^31 |
| ProcScan.FirstBracket | src/tcp_closer_proc.c:67 | the index found holds '[' and there is none before it; no index means there is no '[' |
| ProcScan.LinkInode | src/tcp_closer_proc.c:61-70 | a link not starting with "socket" names no inode |
| ProcScan.FdInode | src/tcp_closer_proc.c:46-70 | only a symlink whose readlink succeeded with non-empty text can name an inode |
| ProcScan.DestroySocketProc | src/tcp_closer_proc.c:11-88 | no kill when /proc does not open; otherwise the pids killed are exactly the victims, in directory order |
| ProcScan.ScanFdDir | src/tcp_closer_proc.c:46-82 | the fd scan finds a match iff some fd of the directory is a socket link to the inode |
| ProcScan.Victims | src/tcp_closer_proc.c:29-85 | there are at most as many victims as /proc entries |
| ProcScan.VictimsIff | src/tcp_closer_proc.c:29-81 | a pid is killed iff some /proc entry with that non-zero pid opens and has a socket link to the inode |
| ProcScan.VictimsNonZero | src/tcp_closer_proc.c:29-34 | no victim has pid 0 (its kill target is therefore non-zero for every pid below 2^31) |
| ProcScan.VictimsDistinct | src/tcp_closer_proc.c:76-81 | when the entries' pids are distinct, no pid is killed twice, because the fd scan stops at the first match |
| ProcScan.SocketLinkInode | src/tcp_closer_proc.c:66-70 | the inode read from a kernel socket link `socket:[N]` is N |
| ProcScan.HolderKilled | src/tcp_closer_proc.c:72-81 | a process with a non-zero pid whose fd directory holds the socket link of the inode is killed |
| ProcScan.WrappedPidSignalsGroup | src/tcp_closer_proc.c:29-34 | an entry named "4294967296" holding the socket passes the pid test and is killed, yet kill() gets pid_t 0, the caller's process group |

## Left out

- Socket and epoll I/O are not modelled: `mnl_socket_*`, `epoll_create/ctl/wait`, the `while(1)` of `backend_event_loop_run`, and callbacks through function pointers. `run_timers` returns the fired handles in order, and the callback runs before the handle is unlinked.
- A callback that changes the timer list while it runs is not modelled.
- Wall-clock time, computed from `gettimeofday` in double arithmetic, is the parameter `now`.
- The 64-bit wrap of `cur_time + intvl` and of deadlines is not modelled: clocks are unbounded naturals.
- The intrusive `LIST` links (`le_next`, `le_prev`) are a sequence field of the loop. Insertion splices the sequence and removal filters it. Pointer surgery, and the nulling of a removed handle's links, are therefore not modelled.
- EventLoop.Loop.SleepTime: the contract states the time left only below 2^31 ms; beyond that the model wraps the value to 32 bits (see SleepTimeWraps), as the C conversion to `int` does on its targets.
- Allocation failures (`calloc` in `main`, `backend_event_loop_create` and `backend_event_loop_create_timeout`, and `epoll_create`) are not modelled.
- Diag.DumpRequestLayout: the request is built as an unbounded byte sequence. `send_diag_msg` builds it in `uint8_t[MNL_SOCKET_BUFFER_SIZE]` (the page size, at most 8192), and from 252 ports (4 KiB pages) or 508 ports (8 KiB pages) the filter copy writes past that stack buffer (DumpBufferBound). The model does not capture the overflow itself. The receive buffers of the same size are modelled as the bytes received.
- Bytes past the received buffer read as 0, where the C code would read stale stack memory.
- Mnl.NlmsgOk: the receive loops (RecvDiagMsg, RecvDestroyMsg) test each header without libmnl's `(int)` cast of `nlmsg_len`, so their walk (Frames) ends at a header whose length is 2^31 or more. The C test passes such a header (NlmsgOkCast, HugeDoneSeenOnlyInC): the C loop acts on it and then reads 2 GiB or more past the buffer or, for lengths 0xFFFFFFFD and up, repeats it forever (HugeLengthStep). FramesCExtends shows that this one header is the only point where the two walks part.
- Mnl.FramesWithin: holds for the model's walk; the C walk's extra header of length 2^31 or more reaches beyond the bytes received.
- The `NO_SOCK_DESTROY` build option is not modelled: destroy requests are always built.
- `parse_diag_msg` relies on the kernel attaching INET_DIAG_INFO to every entry. The model takes that as a precondition (HasInfo) instead of reading through a null `tcpi`.
- Logging, `output_filter`, `show_help`, verbose prints, address formatting, `getpwuid` and `tcp_states_map` have no effect on state and are not modelled.
- `getopt_long` is abstracted into a sequence of parsed options.
- Closer.FilterSemantics: stated for lists of at most 16 ports. Beyond 16, the 8-bit LE offset wraps (LeJumpWrapsBeyond16); FilterSafe still gives the direction that an accepted connection matches, for up to 4095 ports in all.
- ProcScan.LinkInode: a socket link with no '[' makes the C code pass address 1 to `atoi`, which is undefined behaviour; the model treats such a link as naming no inode.
- ProcScan: a link of 255 bytes or more fills `link_buf` with no terminator; the model takes the link text as read, with no length limit.
- `destroy_socket_proc` is called with two arguments but defined with one; the model follows the definition, with the inode as its only input besides `/proc`.
- The dump's proc fallback kills every process holding the inode, as the code does, not at most one.
- CString.Atoi: converting an out-of-range long to int is implementation-defined in C; the model takes the wrap modulo 2^32 that gcc performs.
- ProcScan.DestroySocketProc: returns the uint64 pids it kills; `kill` receives KillTarget of each, which differs only for pids of 2^31 or more, which the kernel does not hand out.
- Each filter block is four operations laid out from the start of the filter, as the code writes them.
