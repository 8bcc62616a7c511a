# icbinn, modelled and proved in Dafny

icbinn is a remote file service: a client library cuts requests into RPCs of at most 65536 bytes, a server
process forked for each connection runs them against a file store, and small client programs build transfers
and listings on top. This project models the client loops, the wire format, the server handlers and the
accept/fork loop, and proves what they guarantee together. `dafny verify dfyconfig.toml` checks everything.

## How the model is laid out

| file | models |
|---|---|
| `Bytes.dfy` | limits and shared types |
| `FileStore.dfy` | one file under POSIX pread, pwrite and ftruncate (System Interfaces volume of IEEE Std 1003.1), and histories of effects on it |
| `Server.dfy` | the server as a state machine: names, inodes, descriptor tables and record locks of all connections; runs of atomic moves |
| `ChunkedIo.dfy` | the client's chunk loops as running code over heap buffers, tied to functions of the environment's script |
| `Refinement.dfy`, `Session.dfy`, `Interleaving.dfy` | what the loops achieve: one call under faults, whole sessions, and calls with other clients between the chunks |
| `Success.dfy` | the conditions under which opens and writes cannot fail, whatever other clients do |
| `Transfer.dfy` | `put`, `get` and FUSE truncation with their cleanup exits |
| `Xdr.dfy`, `Protocol.dfy`, `WireLoops.dfy` | RFC 4506 encoding of a schema language, every message type of the protocol as a schema, and the chunk loops run over encoded and decoded messages |
| `Listing.dfy`, `ListingWire.dfy`, `ReaddirServer.dfy`, `ReaddirClient.dfy` | paged directory listing: meaning, wire form, the handler over the heap, the client's array walk, `ls` and FUSE |
| `AcceptLoop.dfy` | the accept/fork loop as concurrent process steps |
| `Commands.dfy`, `PathField.dfy` | command lookup, the in-place tokeniser, and comma-field selection |

Everything the program cannot decide itself is an explicit input. A `Net` carries a *script*: for each future
call of this client, which moves other connections make first, whether the request or the reply is lost, and
how the kernel answers (refuse with any errno, read at most `n` bytes, store at most `room` bytes). Theorems
quantify over all scripts and state their assumptions as predicates on them.

## Assumptions, and why they are needed

- The write handler tests the kernel's count only for a negative value (libicbinn/server/server.c:473-484), so a
  short write is acknowledged as complete. `AllOrError` excludes short writes where contents are claimed.
  `AcknowledgedChunkExact` gives the exact condition under which an acknowledged chunk is a complete one,
  `ShortWriteReportedComplete` the exact condition for a write of any size, whose caller is told the whole count
  either way, and `ShortWriteLosesBytes` an input for which the condition fails.
- `NoOtherWriter` admits other connections that read, lock, close, exit or open without truncating. The theorems
  of `Interleaving.dfy` do without it.
- `put` and `get` request their lock on the number of a local descriptor, or on an uninitialised one
  (libicbinn/client/put.c:46, libicbinn/client/get.c:36). The model does the same, treats the outcome as
  arbitrary and claims no mutual exclusion for these commands.
- The length test of the readdir handler is on an unsigned variable and never fires
  (libicbinn/server/server.c:106-108); the needed bound on the path comes from `stat` refusing empty and
  over-long paths, which is a precondition of the model's handler.
- The handler's skip counter is a 32-bit unsigned integer. For more than 2^32 listable entries paging is false
  of the code: `PagingExact` gives the exact condition and `PagingFailsWhenCounterWraps` an input.
- A readdir request for zero entries reports end of directory (libicbinn/server/server.c:88 and 138); the model's
  contract says so.
- File offsets are cast to the signed `off_t` (libicbinn/server/server.c:405 and 475); `OffT` models the cast, and
  offsets beyond it are refused by the kernel.
- All connections share one name space, as they do when their processes are confined to the same directory. In the
  source each child does `chroot` to the path of the socket that accepted it (libicbinn/server/svc_main.c:316), so a
  name means the same file to two connections only if they came in on the same socket.
- The tokeniser has 32 argument slots and uses one past the last token (libicbinn/client/client.c:139 and 161), so
  it is specified for at most 31 tokens.
- The decoder ignores the content of padding bytes and reads any nonzero boolean as true; libtirpc is not part of
  this model.

## Model

| member | source | states |
|---|---|---|
| `FileStore.WriteSplit` | libicbinn/src/pwrite.c:52-66 | Two adjacent writes equal one write of the concatenation, holes and extension included: the law behind chunking. |
| `FileStore.LastEffectWins` | libicbinn/server/server.c:458-485 | After any history of writes and truncations, a touched byte is that of the latest effect touching it, zero if that effect cut it off. |
| `FileStore.UntouchedByte` | libicbinn/server/server.c:419-437 | A byte no effect touched keeps its original value, or reads as zero in a hole. |
| `FileStore.LastSizingDecides` | libicbinn/server/server.c:419-485 | A position is inside the file iff the latest effect deciding about it reached it. |
| `FileStore.StoredStaysInside` | libicbinn/server/server.c:458-484 | A position written and not cut off since is inside the file. |
| `Server.RunKeepsSafe` | libicbinn/server/server.c:289-327 | In every state reachable by any clients and kernel, a write-locked file is locked by no other connection, no descriptor dangles and no file exceeds the offset range. |
| `Server.LockPersists` | libicbinn/server/server.c:313-326 | A granted lock stays, unchanged, through any run in which its owner neither locks, closes a descriptor of that file, nor exits. |
| `Server.LockLossHasCause` | libicbinn/server/server.c:487-502 | Conversely, a lost or changed lock has a releasing move of its owner in the run. |
| `Server.LockGrantedExactly` | libicbinn/server/server.c:296-323 | A permitted lock request on an open file is granted iff recording it keeps every write lock exclusive, and then it is recorded; otherwise it fails with EAGAIN and nothing changes. |
| `Server.ReleaseTakesEffect` | libicbinn/server/server.c:304-326 | An acknowledged unlock, a close of any descriptor of the file, whatever it reports, and an exit each drop the lock at once; the closed descriptor, or all of an exiting process, goes with it, and no other lock, descriptor, file or name changes. |
| `Server.LockFreeAfterRelease` | libicbinn/server/server.c:296-326 | After such a release a permitted lock request of another connection is granted iff no third connection's lock conflicts, and is then held. |
| `Server.StaysReleased` | libicbinn/server/server.c:313-323 | Through any run in which a connection makes no lock request on a file, it acquires no lock on it. |
| `Server.ClosedIsUnusable` | libicbinn/server/server.c:487-502 | After a close, successful or not, every request naming the descriptor fails, with EBADF if the kernel says nothing else. |
| `Server.RefusedWithCause` | libicbinn/server/server.c:254-411 | Requests over the limits are refused with ENOENT or EINVAL before reaching the kernel, the kernel's errno is passed on unchanged, a descriptor not open or not open for the access is EBADF, and a failed request other than a close changes nothing. |
| `Server.GrantedIsAnswered` | libicbinn/server/server.c:390-485 | Conversely, with the access needed and a granting kernel every request succeeds, exactly as long as it stays in the range of file offsets: truncation and writing need write access only, and an offset beyond is EINVAL or EFBIG. |
| `Server.RunReplays` | libicbinn/server/server.c:390-485 | A file after any interleaved run is the replay of exactly the effects the executed chunks had on it. |
| `Server.LastChunkWins` | libicbinn/server/server.c:473-475 | However clients interleave, each final byte is the one stored by the last executed chunk covering it and lies inside the file; it is zero if that move cut it off. |
| `Server.LastChunkSizes` | libicbinn/server/server.c:428-433 | After any interleaved run a position is inside the file iff the last move deciding about it reached it. |
| `ChunkedIo.LostCall` | libicbinn/src/pwrite.c:34-37 | A call whose reply is lost has done on the server everything the answered call would have done; a lost request has done nothing. |
| `ChunkedIo.Icbinn.PWrite` | libicbinn/src/pwrite.c:45-69 | The running write loop computes the specified loop over the caller's buffer, for every count, offset and script. |
| `ChunkedIo.Icbinn.FetchWorker` | libicbinn/src/pread.c:22-58 | One piece: the result code, and exactly the received bytes copied at their place in the buffer; an over-long reply gives -1 and leaves the buffer alone, and a lost call or a failed random source gives -1. |
| `ChunkedIo.Icbinn.Fetch` | libicbinn/src/pread.c:60-85 | The running read loop (and the identical random-data loop) fills the buffer's front with the specified bytes and leaves the rest alone. |
| `Refinement.WriteLoopAccounts` | libicbinn/src/pwrite.c:52-68 | At any iteration: bytes acknowledged, bytes applied, and the returned count agree up to one chunk after a lost reply. |
| `Refinement.WriteFaultAccounting` | libicbinn/src/pwrite.c:22-69 | The result is the count, a multiple of 65536 below it, or negative; exactly that many bytes were applied, plus at most one further whole chunk and only after a lost reply; nothing else changed. |
| `Refinement.AcknowledgedChunkExact` | libicbinn/server/server.c:466-484 | An acknowledged chunk, extending or overwriting, leaves the fully written file iff the kernel had room for it or the file already held the bytes left out. |
| `Refinement.ShortWriteReportedComplete` | libicbinn/src/pwrite.c:36-42 | A write of any size is reported complete whatever room the store has; afterwards each byte of the request is in the file iff its own piece had room for it, and the file is the written one iff its end was reached and every byte had room or was there already, overwrites included. |
| `Refinement.ShortWriteLosesBytes` | libicbinn/server/server.c:473-484 | An input: two pieces with no room for the first return the whole count and reach the end of the write, with the first 65536 bytes zero. |
| `Refinement.FetchLoopReads` | libicbinn/src/pread.c:67-84 | At any iteration and for any replies, what was copied is the file's content there, an empty read means end of file, and full replies give the one-shot read. |
| `Refinement.ReadRefinement` | libicbinn/server/server.c:397-416 | A nonnegative result r is at most the count, the buffer holds file[off..off+r], and with full replies r = min(count, max(0, size - off)). |
| `Refinement.RandRefinement` | libicbinn/src/rand.c:55-80 | The result counts the random bytes copied; byte p is copied iff the source is valid and every byte up to p was supplied by its own piece's call, and it is that call's byte; so the whole count is returned iff every call is answered with enough entropy. |
| `Refinement.WriteSucceeds` | libicbinn/server/server.c:458-484 | When every call is answered by a willing kernel, a write of any size returns its whole count after exactly one call a piece, whatever other clients do and however little is stored; the size check never rejects a piece and the descriptor stays usable. |
| `Refinement.CutSucceeds` | libicbinn/server/server.c:428-436 | A truncation through a descriptor open for writing is acknowledged whenever the call is answered by a willing kernel and the length is a file offset. |
| `Refinement.GrantedRead` | libicbinn/server/server.c:404-416 | A read of one piece answered by a willing kernel does not fail and takes one call. |
| `Refinement.WriteErrno` | libicbinn/src/pwrite.c:36-68 | A write whose first piece fails returns -1 if the call was lost, the kernel's errno negated if it was refused, and -EBADF if the descriptor is not open for writing. |
| `Refinement.FetchErrno` | libicbinn/src/pread.c:35-84 | The same for reads; every failed first call for random data returns -1. |
| `Refinement.WriteCalls` | libicbinn/src/pwrite.c:52-67 | Whatever the replies, the calls sent are the pieces of the request in order, and a complete write makes exactly ceil(count/65536). |
| `Refinement.FetchCalls` | libicbinn/src/rand.c:58-80 | The same for reads and random data. |
| `Refinement.WritePieceAt` | libicbinn/src/pwrite.c:54-65 | Piece q starts at q * 65536 and carries exactly the caller's bytes there. |
| `Refinement.FetchPieceAt` | libicbinn/src/rand.c:66-76 | Piece q of a fetch asks for the right, never empty, never over-long range. |
| `Session.SessionUnderFaults` | libicbinn/src/pwrite.c:22-69 | Under any failed or lost calls the file is the replay of what each call delivered: the reported bytes of a write, an acknowledged truncation, and, only after a lost reply, one further chunk or the unacknowledged truncation. |
| `Session.SessionSucceeds` | libicbinn/src/pwrite.c:45-69 | When every call is answered by a willing kernel and stays in the range of file offsets, every write and truncation of any session succeeds, whatever other clients do. |
| `Session.LastDeliveryWins` | libicbinn/src/pread.c:60-85 | After such a session a read shows per position the latest of what the calls delivered. |
| `Session.SessionRefinesPosix` | libicbinn/src/pwrite.c:45-69 | Hence any successful session of writes and truncations of any size leaves the file as if each had been one POSIX call. |
| `Session.LastWriterWins` | libicbinn/test/test.c:99-141 | After any successful session, a read returns per position the latest covering write not cut off since, zero in holes, and reaches exactly as far as the latest deciding call made the file reach. |
| `Interleaving.WriteInterleaves` | libicbinn/src/pwrite.c:52-66 | With arbitrary other clients between chunks, every own move stores the caller's own bytes at their place or nothing, and all acknowledged bytes were stored. |
| `Interleaving.AcknowledgedBytesLand` | libicbinn/server/server.c:473-483 | On return each acknowledged byte's position is inside the file and holds that byte, unless another connection's move during the call touched that position. |
| `Interleaving.BytesReadAreCurrent` | libicbinn/src/pread.c:67-82 | Each byte read is the file's byte at the moment that byte's own chunk ran. |
| `Success.NamesPersist` | libicbinn/server/server.c:245-287 | No run of moves takes a name away. |
| `Success.OpenSucceeds` | libicbinn/server/server.c:260-286 | An answered open of a file that exists, or may be created, for which the kernel has a descriptor yields exactly that descriptor, whatever other clients do first, and opening write-only gives write access. |
| `Transfer.OpenMove` | libicbinn/server/server.c:245-287 | A successful open yields a descriptor of the named file with exactly the requested access, emptied under the truncate flag, created only under the create flag; every other file, name, descriptor and lock is untouched. |
| `Transfer.PutLoop` | libicbinn/client/put.c:54-67 | On every exit the remote file holds a prefix of the local one, all of it on success, for any local read sizes; it succeeds when the reads are given and the calls answered by a willing kernel. |
| `Transfer.OpenFrame` | libicbinn/src/open.c:22-40 | An open request, answered or lost, successful or not, affects no file but the named one. |
| `Transfer.CmdPut` | libicbinn/client/put.c:21-81 | Success means the remote name holds the local content; a failure after the open leaves a prefix; no exit changes another remote file. The requests sent are one open, the lock request next and, exactly if the open yielded a handle, one final close of that handle; the local descriptor is closed once. When everything else is granted the result is 0 iff the lock is acknowledged, and 0 always means that it was. |
| `Transfer.GetLoop` | libicbinn/client/get.c:52-63 | The download loop appends what each read returns; on every exit the local file is a prefix of the remote one, on success all of it, and nothing remote changed; it succeeds when the calls are answered and the local writes have room. |
| `Transfer.CmdGet` | libicbinn/client/get.c:21-75 | Success means the local copy equals the remote file; any failure leaves the local file as it was or a prefix of the remote one; no exit changes a remote file or another local one. The requests sent are one open, the lock request next and, exactly if the open yielded a handle, one final close of that handle; a local descriptor that was opened is closed once. When everything else is granted the result is 0 iff the lock is acknowledged, and 0 always means that it was. |
| `Transfer.PutThenGet` | libicbinn/client/get.c:52-74 | Put then get, both successful and with no other writer, returns the original byte for byte at any length, however short the reads. |
| `Transfer.FuseTruncate` | icbinn-fuse/src/icbinn-fs.c:173-185 | Exactly one open and, iff its reply yielded a handle, one ftruncate and one close of it, with the failing stub's result returned; it succeeds on an existing file when the calls are granted and the length is a file offset; success truncates the named file, a reported failure leaves it or truncates it, and no other file changes. |
| `Transfer.StubErrno` | libicbinn/src/open.c:31-39 | The one-call stubs return -1 for a lost call and the negated errno of a refused one. |
| `Xdr.RoundTrip` | libicbinn/rpc/icbinn_prot.x:8-213 | For every type and in-bounds value, lists of any length included, decode(encode(v) + rest) = (v, rest). |
| `Xdr.Aligned` | libicbinn/rpc/icbinn_prot.x:8-11 | Every encoding is a multiple of four bytes long. |
| `Xdr.DecodedFits` | libicbinn/rpc/icbinn_prot.x:115-134 | Whatever bytes arrive, a decoded value respects every declared bound. |
| `Xdr.Unambiguous` | libicbinn/rpc/icbinn_prot.x:42-71 | Encodings are self-delimiting: equal byte strings carry equal values and remainders. |
| `Xdr.BigEndian` | libicbinn/rpc/icbinn_prot.x:49-53 | Numbers of 32 and of 64 bits and their encodings are ordered alike: most significant byte, and word, first. |
| `Xdr.EncodingIsStandard` | libicbinn/rpc/icbinn_prot.x:8-213 | For every type and value, a byte string is the encoding iff it satisfies the format rules of RFC 4506, stated without the encoder: two's complement and big-endian value of every number, counted and zero-padded data, discriminant and arm, presence word before every list element. |
| `Protocol.CallOverTheWire` | libicbinn/rpc/icbinn_prot.x:216-238 | A request's bytes decode on the server to that request, every handler's reply is within bounds, and its bytes decode on the client to that reply. |
| `Protocol.RequestLayout` | libicbinn/rpc/icbinn_prot.x:74-238 | Each request goes out under its procedure number with its fields at their byte positions, in the declared order and format. |
| `Protocol.ReplyLayout` | libicbinn/rpc/icbinn_prot.x:42-197 | Each reply is a status word followed by the descriptor, the counted data or the errno, and by nothing where the declaration says void. |
| `WireLoops.WireCallIsCall` | libicbinn/rpc/icbinn_prot.x:42-197 | A call that is encoded, decoded, executed, and answered through encode and decode again is the direct call. |
| `WireLoops.WriteLoopOverWire` | libicbinn/src/pwrite.c:22-69 | The write loop run over such calls equals the write loop of the model, for every size and script. |
| `WireLoops.FetchLoopOverWire` | libicbinn/src/pread.c:22-85 | The same for the read and random-data loops, copied bytes included. |
| `Protocol.WritePiecesInBounds` | libicbinn/rpc/icbinn_prot.x:130-134 | Every request a write loop sends is within the message bounds. |
| `Protocol.FetchPiecesInBounds` | libicbinn/rpc/icbinn_prot.x:109-113 | Every request a fetch loop sends is within the message bounds. |
| `Listing.PagingExact` | libicbinn/server/server.c:136-160 | The reply is exactly the requested page of the filtered listing iff the 32-bit skip counter cannot come round first. |
| `Listing.PagingFailsWhenCounterWraps` | libicbinn/server/server.c:158-160 | A directory stream of 2^32 + 1 listable names and a request for which the reply is not the page. |
| `Listing.WalkIsContiguous` | libicbinn/server/server.c:158-177 | Consecutive pages of any sizes concatenate to the listing without gap or repeat, as long as each starts at an offset the wire can carry. |
| `Listing.ListedExactly` | libicbinn/server/server.c:138-156 | The listing selects from the directory stream, in order and with multiplicity, exactly the names that are neither "." nor "..", are shorter than 1024 bytes and whose path (directory, one slash, name) lstat finds, each with the type lstat gives; no name is missed. |
| `ListingWire.ListingRoundTrip` | libicbinn/rpc/icbinn_prot.x:55-71 | A listing reply of any length decodes to itself. |
| `ListingWire.ListingLayout` | libicbinn/rpc/icbinn_prot.x:25-71 | A listing reply is a status word, then per entry a presence word, the counted name and its type code, then the absence word and the end flag. |
| `ReaddirServer.Service.StartPath` | libicbinn/server/server.c:128-134 | The path buffer starts with the directory and exactly one separator. |
| `ReaddirServer.Service.LstatEntry` | libicbinn/server/server.c:148-156 | Read as a C string, the buffer is directory, separator and name when lstat is called, and every write stays inside it. |
| `ReaddirServer.Service.Append` | libicbinn/server/server.c:162-176 | Linking through the pointer to the last link appends one fresh node to a well-formed heap list. |
| `ReaddirServer.Service.Visit` | libicbinn/server/server.c:140-176 | Each name is filtered, skipped or appended, and the skip counter advances, exactly as its listability and the offset say. |
| `ReaddirServer.Service.Fill` | libicbinn/server/server.c:136-181 | On exit the heap list is the scanned page in order, and end of directory is reported iff fewer than count entries were found or count is zero. |
| `ReaddirServer.Service.FreeReply` | libicbinn/server/server.c:96-100 | Frees every node of the previous reply, each exactly once. |
| `ReaddirServer.Service.Readdir` | libicbinn/server/server.c:81-188 | Frees the previous list, succeeds iff stat, the type test and opendir do, leaves no stream open, and owns exactly the new list. |
| `ReaddirServer.ServeAll` | libicbinn/server/server.c:85-126 | Over every run of calls, failing ones included, lists are disjoint, each is freed by the next call, only the last may be live, and streams balance. |
| `ReaddirClient.WalkReply` | libicbinn/src/readdir.c:47-72 | The list walk fills the array with exactly the entries, in order. |
| `ReaddirClient.Readdir` | libicbinn/src/readdir.c:22-78 | Through handler, wire and walk, the caller's array holds the page; any failure returns -1. |
| `ReaddirClient.ReadEnt` | libicbinn/src/readdir.c:80-85 | Returns 0 and entry i iff it exists and the call is delivered. |
| `ReaddirClient.Ls` | libicbinn/client/ls.c:21-38 | Prints each entry once in order in n+1 calls; it stops early only at the first failing call and then leaves a prefix. |
| `ReaddirClient.FuseReaddir` | icbinn-fuse/src/icbinn-fs.c:110-129 | Fills the names in order; it stops at the end or at the first failing call with 0, or with -ENOMEM at the first name the filler refuses. |
| `ReaddirClient.EnumerationAgreesWithBulk` | libicbinn/src/readdir.c:47-84 | Enumeration by single entries delivers what one bulk request would. |
| `AcceptLoop.AcceptOne` | libicbinn/server/svc_main.c:144-197 | Selects over all sockets and returns the first ready one whose accept succeeds with its index, or fails only if all ready ones fail. |
| `AcceptLoop.RunKeepsOwned` | libicbinn/server/svc_main.c:256-289 | The ownership invariant holds after every interleaving of parent and child steps. |
| `AcceptLoop.OneChildPerConnection` | libicbinn/server/svc_main.c:256-322 | In every reachable state: the parent holds no connection at the loop head; every live child holds exactly its own connection; each accepted connection, except at most one still unforked or whose fork failed, has one child, and no other child holds it; a serving child holds no listening socket and serves the path index of the socket that accepted it. |
| `AcceptLoop.NewConnectionCanBeServed` | libicbinn/server/svc_main.c:264-338 | From any state at the loop head, a new connection on any socket can be brought to a child serving that socket's path. |
| `AcceptLoop.ServesUntilExit` | libicbinn/server/svc_main.c:316-338 | A serving child goes on serving the same connection and path through every interleaving of all processes until it exits itself. |
| `AcceptLoop.StepFrame` | libicbinn/server/svc_main.c:266-289 | The parent's steps change no existing child, and a child's steps neither the parent nor another child. |
| `AcceptLoop.StartOrExit` | libicbinn/server/svc_main.c:299-335 | A child serves its path if its setup succeeds and is gone, holding nothing, if it fails or exits. |
| `AcceptLoop.FailedForkIsFatal` | libicbinn/server/svc_main.c:270-273 | After a failed fork the parent holds nothing, and no later run accepts a connection or creates a child. |
| `AcceptLoop.DeathHasCause` | libicbinn/server/svc_main.c:256-282 | Nothing but a failed fork ends the parent's loop. |
| `Commands.FindCommand` | libicbinn/client/client.c:83-131 | The first exact match, else the only command a nonempty name abbreviates, else none. |
| `Commands.TokensAreRuns` | libicbinn/client/client.c:147-160 | Tokens are exactly the maximal non-space runs, in order. |
| `Commands.TokensStable` | libicbinn/client/client.c:149-157 | Joining the tokens with any whitespace and tokenising again gives the same tokens. |
| `Commands.SpaceCharacters` | libicbinn/client/client.c:149-155 | Exactly the six white-space characters of the C locale separate tokens. |
| `Commands.ParseLine` | libicbinn/client/client.c:136-161 | After in-place NUL insertion the argument pointers are C strings equal to the tokens, the next pointer is at a NUL, and nothing past the line or in later slots changes. |
| `PathField.FieldsOfJoined` | libicbinn/server/dbusrpc.c:71-84 | Splitting undoes joining for every list of comma-free fields. |
| `PathField.GetPath` | libicbinn/server/dbusrpc.c:71-110 | Succeeds iff field i exists, is nonempty and is shorter than the buffer, and then yields exactly that field. |

## Left out

- Socket creation, V4V, host lookup, RPC client setup, `select` timing and liveness probing: foreign calls without internal properties.
- One-call stubs (mkdir, rmdir, rename, unlink, stat, statfs, symlink, readlink, fsync, fallocate, null): each is one branch; their messages are covered by the wire theorems only.
- Renaming, unlinking and fallocate by other clients: "other clients" may open, create, truncate, read, write, lock, close and exit, but no move of the model removes or redirects a name or changes contents in another way.
- The shared static `readbuf` and the static replies of handlers other than readdir: replies are values here, so reuse of the buffer by the next call is not modelled.
- The client's buffer and count are unbounded; a count beyond SSIZE_MAX, which no C object can have, is not modelled.
- Attributes passed along by FUSE's readdir, and FUSE's readlink buffer.
- Memory exhaustion, which aborts the process; allocation always succeeds here.
- Dispatch after parsing: the argument-count test and the handler call of `parse_cmd`.
- The D-Bus calls that fetch the comma-separated value, logging, option parsing and usage text.
