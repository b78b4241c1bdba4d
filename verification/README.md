# A verified model of wamr-ext-libc's process, socket and ancillary-data code

wamr-ext-libc is a libc layer for WebAssembly programs. Most of it passes calls on to
the host; this project models the parts that keep state, loop or calculate:

* **Command lines and child processes** (`process.c`). `Tokenizer` is the scanner of
  `__process_split_cmdline` as a state machine on sequences and `Quoting` is a grammar of
  its quoting language that knows nothing of the scanner; the two are proved to agree on
  every command line. `Argv` is the C code: a scratch buffer written in place, an argument
  vector that grows by five, blocks taken from and given back to a heap (`CMemory`).
  `PosixSpawn` is `posix_spawnp` over its two linked lists, `SpawnActions` is what becomes
  of its file actions, and `Process` is `popen`, `pclose`, `system` and `waitpid`.
* **Sockets** (`socket_api.c`). `HostSockets` is the host: descriptors, the sockets behind
  them, who is bound, who waits at an address, who is whose peer, which children were asked
  for and which were waited for. `SocketPair` is the `socketpair` protocol, `SockAddr` the two address
  converters byte by byte, `Interfaces` the views of the host's interface table.
* **Ancillary data** (`sys/socket.h`). `Ancillary` is the `CMSG_*` macros in 32-bit
  arithmetic over memory (sections 5.1 to 5.3 of RFC 3542).

What the host, the C library and the heap answer is an argument of each operation (a
record of replies, or a flag such as `mallocOk`), so every contract is about all behaviours
of the environment. Giving back everything taken is an equality of sets: `Heap.live` for
blocks and `HostState.fds` for descriptors. `Heap.Free` and `Host.Close` may only be called
on what is live or open, so no method here frees or closes anything twice.

Where C works in place so do the methods; each is tied to a function of its inputs or of
the old state, and the laws are lemmas about that function. Some C functions are cut into
several methods in the order of their statements.

Results that differ from what a caller may expect:

* An empty argument cannot be written in any quoting (`Quoting.QuotingRoundTripExactly`).
* `CMSG_NXTHDR` misses a last object without data unless it is the only one
  (`Ancillary.RoundTrip`), and one step of the walk can only go wrong for length fields
  above 2^32 - 16 (`Ancillary.StepIsGoodExactly`).
* Only dup2 actions of a spawn reach the host (`SpawnActions.ChildFdsExactly`), so closes and
  opens are lost (`SpawnActions.CloseIsLost`). `SpawnActions.AsAskedExactly` tells for all
  lists of actions when the child nevertheless has the descriptors that were asked for.
* `if_nametoindex(if_indextoname(i))` is `i` exactly when the name was short enough not to
  be cut (`Interfaces.IndexRoundTripExactly`).
* The functions that return early on an empty interface table forget the block the host
  may have allocated for it (`heap.live == old(heap.live) <==> reply != Table([], true)`).

`dafny verify dfyconfig.toml` checks the whole project (Dafny 4.11).

## Model

| member | source | states |
|---|---|---|
| Quoting.SplitIsMeaning | wamr-ext-libc/src/process.c:39-81 | Soundness: for every reading of a command line in the quoting grammar (plain, backslash, single and double quotes, cut off anywhere), splitting yields the reading's non-empty words; unmatched quotes are ignored and a trailing backslash is dropped. |
| Quoting.EveryCommandIsRead | wamr-ext-libc/src/process.c:39-81 | Completeness: every command line has a reading, and its split is that reading's meaning. |
| Quoting.ReadingIsUnique | wamr-ext-libc/src/process.c:39-81 | The grammar is unambiguous: no command line has two readings. |
| Quoting.SplitUndoesQuoting | wamr-ext-libc/src/process.c:39-81 | Round trip: arguments quoted in any mix of styles, with any spaces around and at least one between them, split into exactly the non-empty ones in order. |
| Quoting.QuotingRoundTripExactly | wamr-ext-libc/src/process.c:22-24 | All arguments come back if and only if none is empty. |
| Quoting.SplitIsStable | wamr-ext-libc/src/process.c:39-81 | Quoting the result of a split again, in any way, and splitting gives the same result. |
| Quoting.EscapedHasText | wamr-ext-libc/src/process.c:52-60 | Every word has a quoting: a backslash before each character. |
| Tokenizer.SplitAfterSafe | wamr-ext-libc/src/process.c:48-79 | If scanning `a` ends outside quotes and unescaped, split(a + " " + b) = split(a) + split(b). |
| Tokenizer.SplitIsHomomorphicExactly | wamr-ext-libc/src/process.c:48-79 | That law holds for all `b` if and only if scanning `a` ends so. |
| Tokenizer.WordsAreCarried | wamr-ext-libc/src/process.c:50-76 | From any intermediate state, words already flushed do not influence the rest of the scan. |
| Tokenizer.SplitConserves | wamr-ext-libc/src/process.c:22-28 | No argument is empty, their concatenation is an order-preserving subsequence of the command, and argc plus their lengths is at most strlen(cmd) + 1. |
| Tokenizer.BoundIsReachedExactly | wamr-ext-libc/src/process.c:50-79 | The bound is reached exactly by unquoted words separated by single spaces. |
| Argv.GrowthIsByFive | wamr-ext-libc/src/process.c:25-28 | The vector grows exactly when argc is a multiple of five, to argc + 5 slots and one for the NULL. |
| Argv.ArgvVar.Add | wamr-ext-libc/src/process.c:22-29 | An empty or NULL argument changes nothing; another is copied to a new string at the end, the vector stays NULL-terminated with capacity 5*ceil(argc/5) + 1, and a reallocation happens exactly at every fifth argument. |
| Argv.FreeArgv | wamr-ext-libc/src/process.c:31-37 | Gives back the vector and each of its strings, and nothing else. |
| Argv.Scanner.Feed | wamr-ext-libc/src/process.c:51-75 | One turn of the in-place loop keeps the scratch buffer, end_char, escaped and argv in step with the specification; the buffer never holds more than has been read. |
| Argv.Scanner.Flush | wamr-ext-libc/src/process.c:68-69 | Terminating the reused buffer and adding its C string appends exactly the word in the making. |
| Argv.SplitCmdline | wamr-ext-libc/src/process.c:39-81 | The in-place scanner refines the specification for every NUL-free command: argv holds exactly the words of Split(cmd) as C strings and then NULL, or is NULL without words or memory; only argv is left allocated, after ceil(argc/5) reallocations. |
| SpawnActions.HostSeesCallOrder | wamr-ext-libc/src/process.c:221-237 | A list built by prepending and reversed again carries the dup2 actions in call order. |
| SpawnActions.RequestKeepsAllExactly | wamr-ext-libc/src/process.c:221-237 | The request has as many actions as were added if and only if all of them are dup2s. |
| SpawnActions.ChildFdsExactly | wamr-ext-libc/src/process.c:220-238 | The child's descriptor table is exactly what the dup2 calls alone, in call order, make of the parent's. |
| SpawnActions.AsAskedAllAlongExactly | wamr-ext-libc/src/process.c:220-238 | For any list of dup2s, closes, opens and chdirs: the child would have the table asked for after every single action if and only if each close is of a descriptor not open at that point and each open of a file already there. |
| SpawnActions.AsAskedExactly | wamr-ext-libc/src/process.c:220-238 | The actions can be carried out and the child has the table they ask for at the end if and only if a check of the list against the set of descriptors the parent has open finds a source for every dup2 and no descriptor left apart. |
| SpawnActions.CloseIsLost | wamr-ext-libc/src/process.c:223-232 | The shortest failing list, a close of an open descriptor: the child still has it. |
| SpawnActions.OpenIsLost | wamr-ext-libc/src/process.c:223-232 | The same for an open: the child does not have the file. |
| PosixSpawn.RequestMakesChild | wamr-ext-libc/src/process.c:221-238 | The request built from the library's list gives a child with those descriptors. |
| PosixSpawn.BuildActions | wamr-ext-libc/src/process.c:221-237 | The request's list has one new node per dup2, in reverse list order, source and target kept. |
| PosixSpawn.SetArgs | wamr-ext-libc/src/process.c:214-219 | The request points at the second argument and counts the rest. |
| PosixSpawn.FreeActions | wamr-ext-libc/src/process.c:243-247 | Every node of the list is freed, each once. |
| PosixSpawn.PosixSpawnp | wamr-ext-libc/src/process.c:205-251 | An empty command is EINVAL and reaches nobody; otherwise the host is asked once for exactly this request, its answer is returned, and the heap is as before. |
| Process.OpenPipe | wamr-ext-libc/src/process.c:104-135 | popen after its argument checks: when it succeeds, what it adds and what it asks for, and that failure leaves nothing. |
| Process.Popen | wamr-ext-libc/src/process.c:84-135 | Success exactly under Opens. For mode r the stream is the accepted socket and the host is asked for the command's words with the client as descriptor 1; for mode w the stream is the client and the child gets the accepted socket as descriptor 0. Exactly the stream and its descriptor are added; the two ends are peers exactly when accept picked the pair's own client; the stream is blocking; the listener was bound to 127.0.0.1. Failure leaves descriptors and heap unchanged, with the right errno. |
| Process.OpensExactly | wamr-ext-libc/src/process.c:84-124 | popen succeeds if and only if there is a command, the mode starts with r or w, three distinct new descriptors are granted, one of 100 binds works, listen works, connect works or is under way, a client is there to accept, and every allocation and the spawn succeed. |
| Process.LaunchChild | wamr-ext-libc/src/process.c:114-129 | File actions and argv are gone again on every path; ENOMEM unless the host was asked. |
| Process.Waitpid | wamr-ext-libc/src/process.c:257-278 | Passes pid and options to the host as 32-bit values; error, pid and status as the host gave them; the status is written only for a positive pid and is 255 when the host left it out; a NULL status pointer is EINVAL and the host is not asked. |
| Process.EndsExactly | wamr-ext-libc/src/process.c:142 | The wait loop goes round exactly for EINTR, and for a pid of -1 without an error while errno still is EINTR. |
| Process.FirstOtherEnds | wamr-ext-libc/src/process.c:142 | After any number of EINTR answers the first other answer ends the loop, and no other does. |
| Process.WaitUntilDone | wamr-ext-libc/src/process.c:142 | The retry loop ends with the first answer that is not an interruption, and only that answer shows; every request is for the same pid, one for each answer. |
| Process.Pclose | wamr-ext-libc/src/process.c:137-146 | Closes and frees the stream once, waits for the pid in the stream, and returns that child's status, 0, or the error. |
| Process.System | wamr-ext-libc/src/process.c:149-173 | 1 without a command, 127 for a command not found, -1 with errno for other failures, otherwise the status of the spawned child, which is the one waited for; heap and descriptors as before. |
| Process.PopenThenPclose | wamr-ext-libc/src/process.c:84-146 | popen followed by pclose leaves descriptors and heap as they were, whatever happens; the result is that of the answer that ends the wait for the child popen spawned. |
| SocketPair.Socketpair | wamr-ext-libc/src/socket_api.c:541-609 | Success exactly under Succeeds; then exactly two new descriptors, for new sockets, are added, otherwise none; both ends block or not as asked; stream ends are peers of each other exactly when accept picked the pair's own client, so always without other clients; the listener is bound to the address of the last of at most 100 attempts. |
| SocketPair.SucceedsExactly | wamr-ext-libc/src/socket_api.c:541-609 | Success if and only if: two distinct new descriptors, AF_INET or AF_INET6, one of 100 binds works, connect works or answers EAGAIN, EWOULDBLOCK or EINPROGRESS, and for streams listen works and accept gives a third new descriptor for a waiting client. |
| SocketPair.BoundAddrExactly | wamr-ext-libc/src/socket_api.c:552-571 | Attempt k binds 127.0.0.1 or ::1, by family, with port random % 16284 + 49152 in network byte order. |
| SocketPair.BindSomePort | wamr-ext-libc/src/socket_api.c:565-578 | The loop tries one address for each attempt and stops at the first that works; it succeeds exactly when one of the first 100 does and the address is convertible, and otherwise all 100 are tried. |
| SocketPair.Reach | wamr-ext-libc/src/socket_api.c:579-589 | listen and connect: EAGAIN, EWOULDBLOCK and EINPROGRESS count as under way; the client is then non-blocking and waits at the listener. |
| SocketPair.Finish | wamr-ext-libc/src/socket_api.c:590-602 | For streams the listener is replaced by the accepted socket; modes and vector order. |
| SocketPair.Attempt | wamr-ext-libc/src/socket_api.c:544-603 | The whole protocol once both sockets exist: when it completes, what it leaves, and that failure changes no descriptor. |
| SocketPair.BoundThenReached | wamr-ext-libc/src/socket_api.c:565-591 | After bind, listen and connect, accept can succeed exactly for a waiting client with a fresh descriptor. |
| SocketPair.ReachedThenFinished | wamr-ext-libc/src/socket_api.c:590-602 | From there the steps compose to the modes, peers and descriptors socketpair promises. |
| SocketPair.AttemptedIsPair | wamr-ext-libc/src/socket_api.c:541-602 | Counted from before the two socket calls, the attempt adds exactly the pair, connected exactly when the client accepted is its own. |
| SocketPair.SetBlocking | wamr-ext-libc/src/socket_api.c:531-539 | Changes O_NONBLOCK of this socket and no other flag, and only if both fcntl calls work. |
| SockAddr.ToHost | wamr-ext-libc/src/socket_api.c:53-83 | Accepts exactly long enough IPv4 and IPv6 addresses and then has every field at its offset; a refused address has still stored its family. |
| SockAddr.FromHost | wamr-ext-libc/src/socket_api.c:85-108 | Writes exactly the first min(addrlen, size) bytes of the converted structure, which has every field at its offset; an unknown family or zero length changes nothing. |
| SockAddr.SizeIsLeastAccepted | wamr-ext-libc/src/socket_api.c:60-93 | The size *addrlen is cut to, 16 or 32, is the least that the other converter accepts for the family. |
| SockAddr.SockaddrRoundTrip | wamr-ext-libc/src/socket_api.c:53-108 | There and back restores family, address, port, flow information and scope; exactly min(*addrlen, size) bytes are written, the rest of the buffer is unchanged, and a refused address or zero length writes nothing. |
| SockAddr.HostRoundTrip | wamr-ext-libc/src/socket_api.c:53-108 | An address from the host, converted and converted back, is accepted and unchanged. |
| SockAddr.PrefixHasFields | wamr-ext-libc/src/socket_api.c:93-107 | The size *addrlen is cut to covers every field. |
| Interfaces.ListedExactly | wamr-ext-libc/src/socket_api.c:503-516 | In terms of the table alone: if_nameindex lists, in table order, the index and name of exactly the rows whose index no earlier row has. |
| Interfaces.NameToIndexExactly | wamr-ext-libc/src/socket_api.c:456-466 | In terms of the table alone: the index of the first row with the name, 0 for a name no row has. |
| Interfaces.IndexToNameExactly | wamr-ext-libc/src/socket_api.c:481-491 | In terms of the table alone: the cut name of the first row with the index, nothing for an index no row has. |
| Interfaces.Truncated | wamr-ext-libc/src/socket_api.c:483 | A prefix of the name: all of it below 16 characters, otherwise the first 15. |
| Interfaces.FirstRowsExactly | wamr-ext-libc/src/socket_api.c:503-516 | The deduplicated rows are exactly the first row of each index, in strictly increasing position. |
| Interfaces.ListedIsFirstRows | wamr-ext-libc/src/socket_api.c:503-516 | if_nameindex lists exactly those rows' indices and names, in table order. |
| Interfaces.IndexToNameIsListed | wamr-ext-libc/src/socket_api.c:481-521 | if_indextoname succeeds exactly for listed indices and gives the listed name cut to IF_NAMESIZE - 1 characters. |
| Interfaces.IndexRoundTripExactly | wamr-ext-libc/src/socket_api.c:445-492 | On a one-to-one table index to name to index is the identity exactly for names below IF_NAMESIZE (section 4 of RFC 3493). |
| Interfaces.NameRoundTrip | wamr-ext-libc/src/socket_api.c:445-492 | Name to index to name gives the name, cut to size. |
| Interfaces.IfNametoindex | wamr-ext-libc/src/socket_api.c:445-467 | The index of the first row with the name, else 0 with errno; the heap is restored unless an empty table came with a block. |
| Interfaces.IfIndextoname | wamr-ext-libc/src/socket_api.c:469-492 | The first row's name, cut and terminated in the buffer, else ENXIO with the buffer untouched; the heap as above. |
| Interfaces.IfNameindex | wamr-ext-libc/src/socket_api.c:494-521 | The array holds exactly the list with each name in its own string and the sentinel after it; nothing else stays allocated. |
| Interfaces.IfFreenameindex | wamr-ext-libc/src/socket_api.c:523-529 | Frees every name and the array; an entry with index 0 does not stop it. |
| Interfaces.NameindexThenFree | wamr-ext-libc/src/socket_api.c:494-529 | Both together leave the heap as it was. |
| Interfaces.LinkedIsChain | wamr-ext-libc/src/socket_api.c:432 | Links to the next slot, NULL in the last, visit every slot once in order and end. |
| Interfaces.Getifaddrs | wamr-ext-libc/src/socket_api.c:397-437 | One block; following ifa_next shows every row once in host order; each pointer is into the row's own storage and an address is NULL exactly for families other than AF_INET and AF_INET6. |
| Interfaces.RowIsShown | wamr-ext-libc/src/socket_api.c:408-434 | An element has its row's name, flags, hardware address and index; address, netmask and broadcast address are non-NULL if and only if the host's family is AF_INET or AF_INET6, and then have the host's fields. |
| Interfaces.Freeifaddrs | wamr-ext-libc/src/socket_api.c:439-443 | Freeing the head frees the block. |
| Interfaces.GetifaddrsThenFree | wamr-ext-libc/src/socket_api.c:397-443 | Both together leave the heap as it was, except exactly when the host made a block for an empty table. |
| Ancillary.RoundTrip | wamr-ext-libc/include/sys/socket.h:103-115 | Walking a buffer laid out with CMSG_LEN and CMSG_SPACE reads the same messages in order, all of them if and only if there is at most one or the last has data. |
| Ancillary.WalkIsUnique | wamr-ext-libc/include/sys/socket.h:108-111 | There is only one walk. |
| Ancillary.WalkIsSafe | wamr-ext-libc/include/sys/socket.h:103-111 | If no length field the walk stepped over misleads it, every visited header is inside the buffer, data ends before the next header, steps are at least 12 bytes and there are at most msg_controllen / 12 of them. |
| Ancillary.WalkEnds | wamr-ext-libc/include/sys/socket.h:103-111 | If no header the walk meets misleads it, it ends within msg_controllen / 12 headers. |
| Ancillary.StepIsGoodExactly | wamr-ext-libc/include/sys/socket.h:103-110 | One CMSG_NXTHDR step ends the walk or moves on inside the buffer if and only if the length field is at most 2^32 - 16, or is one of the three largest in the last header. |
| Ancillary.WalkIsGoodExactly | wamr-ext-libc/include/sys/socket.h:103-111 | Every header met on the way is inside the buffer and has a good step if and only if every one has a length of at most 2^32 - 16, or is the last header with one of the three largest. |
| Ancillary.AlignedLenIsSpace | wamr-ext-libc/include/sys/socket.h:103-115 | Rounding CMSG_LEN(n) up gives CMSG_SPACE(n). |
| Ancillary.LoneGiantIsLeft | wamr-ext-libc/include/sys/socket.h:108-110 | The one layout without overflow in its total that the macros do not walk: from it CMSG_NXTHDR goes on past the buffer. |
| Ancillary.OneByteEncoded | wamr-ext-libc/include/sys/socket.h:91-115 | The 16 bytes of a message of one byte, written out. |
| Ancillary.EncodedIsHeld | wamr-ext-libc/include/sys/socket.h:91-115 | The bytes of a header (length, level, type, least significant first), the data and any padding bytes, different for each message, are a memory the walk theorems speak of. |

## Left out

- Argv.SplitCmdline: does not model the 32-bit width of `argc` and of the size passed to realloc, which a command within the 4 GiB address space reaches only with more than 2^30 words.
- Argv.ArgvVar.Add: realloc and strdup are taken to succeed, as the code does not check them; a strdup block is a value that is never written again.
- Ancillary.RoundTrip: asks that no 32-bit sum in the macros wraps; besides totals of 2^32 and more this excludes only a single object that takes up all but 12 bytes of the address space, and Ancillary.LoneGiantIsLeft shows that the macros do not walk that one.
- Process.WaitUntilDone: asks for a finite list of answers that contains the one that ends the loop; whether the host ever gives it is not modelled.
- Process.Popen: which other descriptors a child inherits, and SOCK_CLOEXEC, are the host's business and are not modelled.
- SocketPair.Socketpair: for a datagram pair only the client is connected, so nothing is said about peers; its first descriptor has the mode socket() gave it.
- SockAddr.ToHost: sockaddr_in, sockaddr_in6 and sockaddr_storage are laid out as in wasi-libc, whose headers are not part of this model.
- Interfaces.Getifaddrs: the storage behind each element is a field of the element, not addressable bytes; malloc is taken to succeed.
- SpawnActions.ChildFdsExactly: that the C library adds file actions at the head of its list is an assumption, as musl's spawn file-action builder is not part of this model; a dup2 from a descriptor that is not open is taken to change nothing, and an open to succeed.
- SpawnActions.AsAskedExactly: a file that is opened is taken to be a new one, none of those the parent has open; directories of the child are not modelled.
- The FILE buffer and locking, getentropy and srandom: random numbers are arbitrary arguments.
- Interface names longer than the host's 32-byte field, or not terminated in it, are taken not to occur.
- One-call socket wrappers, memory, C++ ABI, sysconf, user, thread and utility stubs, the flock translation and signal sets: thin or decided by one branch.
