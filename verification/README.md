# Verification of the game server's core

A Dafny model of the parts of this server that carry hard invariants, with proofs of what they promise.
`dafny verify dfyconfig.toml` checks everything. Nothing here runs the C program.

## What is modelled

**Red-black tree** (`RbModel`, `RbRotate`, `RbSnapshot`, `RbInsertFixup`, `RbInsert`, `RbStuck`, `RbRemoveFixup`, `RbRemove`, `RbTraverse`, `RbCheck`).
Nodes are objects with the `parent`, `left`, `right` and `color` fields of the source, rewritten in place. Each node also
carries ghost numbers: its in-order position, the range its subtree covers, and a black height. `Shape` says that the links
are one binary tree whose in-order sequence is `order`; `Graded` says that the colours are those of a red-black tree;
`Valid` is shape, search order, black root and cached minimum.

- The insert loop is the one in the source. `RbSnapshot` writes it once more as a function on values, every node being its
  in-order position, and `RbInsert.Insert` computes exactly that. Line 93 says that the node is always red inside the loop,
  but the guard in line 94 tests the parent only. Order, contents, links, cached minimum and termination hold for the loop
  as it is. Balance does not: `RbInsert.Insert` proves that a red-black tree stays one exactly when `Dooms` is false, a
  condition on the colours along the descent that can be evaluated before the call, and that otherwise the repository's own
  balance checks fail. `RbInsertGuarded` has the loop with the stated invariant enforced (a deviation), for which every
  insertion keeps balance.
- `rbt_remove` relies on balance: the comment at lines 193-195 argues that a sibling is there. On any other tree it either
  dereferences a null sibling, exactly when `RbRemove.Crashes` says so beforehand, or removes the node and keeps order, links
  and cached minimum. `RbCounterexample` gets from the empty tree by seven insertions to one that fails the balance checks,
  and from which three of the seven nodes cannot be removed.
- `rbt_find` compares in the opposite orientation to `rbt_insert`; `RbTraverse.Find` proves what it does find.

**Connection manager and login ownership** (`ConnUid`, `ConnLog`, `ConnState`, `ConnSpec`, `ConnTable`, `ConnIo`,
`ConnProtocol`, `ConnEvents`, `ConnStart`, `ConnRun`, `LoginRecords`, `LoginResolve`, `ConnTheorems`, `ConnTrace`, `ConnLaws`). The static
tables of the source are the fields of one object `Server`. `ConnSpec.Leads` says, on values, which state each event leads
to; the handlers are proved against it. The system's operations in flight are maps from slots to operations, each tagged with the
allocation of the slot that started it. The environment delivers completions in any order, lets starts of I/O succeed or
fail, lets the timeout check run, and schedules the database and server threads step by step; `ConnRun.Run` shows the
invariant for every finite run of such events from the empty server and delivers the states it goes through.
`ConnTheorems` draws the conclusions that hold in every state of a run, `ConnTrace` and `ConnLaws` those about how a run goes on:
how a closing connection drains, when an idle one is closed, how a login waits for its answer and gets it, and what each
event decides about a connection. Output buffers have a ghost owner (record, connection, or pool): `ConnTable.Release` demands
that the buffer is out and that no write of it is in flight, so each release site proves both.

- One assumption on the environment: a new connection may not get the identifier that an outstanding login record still
  carries (`ConnSpec.Unclaimed`). `ConnStart.UnclaimedIff` says when that is: a record is outstanding for the connection
  exactly 65536 allocations before in the same slot, as docs/problems/connection_uid.txt discusses. `ConnStart.ForeignTaken`
  shows that then a record of a connection that is gone finds the new one in its place.
- `ConnStart.StartConnection` returns nothing when the table is full; the source does not test the null result (line 487).
  Runs contain new connections while there is room.

**RSA** (`NumberTheory`, `Rsa`). The `mpz_*` calls are their meaning over the integers. The code follows RSAEP and the
Chinese-remainder form of RSADP, sections 5.1.1 and 5.1.2 of RFC 8017. The proof goes through Bezout's identity, least
common multiples, Fermat's little theorem by binomial coefficients, and Garner recombination. The scratch fields x0 to
x3 of the context are local variables.

**Checksum, cipher and framing** (`Bytes`, `Bits`, `Adler`, `Xtea`, `XteaVectors`, `Framing`). Words are integers with explicit
wrap-around; `Bits` says what the operators of machine words do to numbers. `Adler` follows section 2.2 of RFC 1950.
`XteaVectors` evaluates the cipher on machine words.

**Passwords** (`Base64`, `Bcrypt`, `Blowfish`, `KeyExpansion`). Base64, the bcrypt strings, the Blowfish block functions
and both key expansions. In `Bcrypt` the key schedule is a parameter, any deterministic function of key, salt and rounds.
`hash_cmp` adds up XORs of signed characters, which need not be positive. `Bcrypt.LookAlikeAccepted` makes from every hash a
different string that is accepted in its place, and `Bcrypt.AcceptedOnlyIfRegenerated` says for which strings this can
happen: a search over the characters that needs neither a password nor the key schedule.

**Task ring buffer** (`RingIndex`, `TaskRing`) and **arena allocator** (`Arena`).

## Model

| member | source | states |
|---|---|---|
| RbModel.RbTree.constructor | src/rbtree.c:10-19 | an empty tree satisfies every invariant |
| RbRotate.RotateLeft | src/rbtree.c:46-62 | rotation keeps mutual links, the in-order sequence and every subtree range, and changes exactly the pointers of the diagram |
| RbRotate.RotateRight | src/rbtree.c:72-88 | the mirror image |
| RbInsertFixup.FixupPass | src/rbtree.c:94-147 | one pass, all six branches: the links and colours are those of the pass on values, the links stay a tree with the same order, the node's range grows, and the colouring is right except at the new node, unless a double rotation met a black node |
| RbInsertFixup.InnerSpoils | src/rbtree.c:106-116 | a double rotation around a black node leaves a node whose subtrees differ in black height |
| RbInsertFixup.InsertFixup | src/rbtree.c:90-152 | the loop as written: terminates, leaves exactly the links and colours computed on values, keeps order, and restores the colouring exactly when the node is not doomed beforehand |
| RbInsert.Insert | src/rbtree.c:154-187 | succeeds if and only if no equal key is present; a rejected node changes nothing; the sequence gains exactly the node, cached minimum is the first, links and colours are those of insertion and loop on values; the result passes the balance checks exactly when `Dooms` was false |
| RbInsert.UpdateMin | src/rbtree.c:178-184 | the cached minimum is the leftmost node after the new one is linked |
| RbInsertGuarded.GuardedFixup | src/rbtree.c:93-94 | with line 93's invariant enforced, the loop always restores a red-black colouring |
| RbInsertGuarded.InsertGuarded | src/rbtree.c:154-187 | with that loop, insertion into any red-black tree gives one with exactly one more node |
| RbCounterexample.InsertLosesBalance | src/rbtree.c:90-152 | inserting 35 next gives one known ordered tree, in which the red 20 has a red child, and the balance checks fail |
| RbCounterexample.SixInsertions | src/rbtree.c:90-187 | inserting 50, 20, 60, 10, 40 and 30 into an empty tree gives one known tree that passes the balance checks |
| RbCounterexample.SevenCrash | src/rbtree.c:275-286 | in the tree after the seven insertions exactly the removals of 10, 50 and 60 come to a null sibling |
| RbCheck.GradedPasses | src/test/rbtree_test.c:28-63 | every red-black tree passes the repository's two balance checks |
| RbCheck.UnlevelNeverPasses | src/test/rbtree_test.c:28-51 | one node with unequal black heights anywhere makes the check fail |
| RbCheck.HeightBound | src/rbtree.c:90-152 | a red-black tree of n nodes has height h with 2^h at most (n+1)^2 |
| RbRemoveFixup.SiblingExists | src/rbtree.c:193-195 | the sibling of a subtree whose black height is one short is never null |
| RbRemoveFixup.PassLeft | src/rbtree.c:235-274 | the cases with the node on the left, on any tree: it stops at a null sibling, ends the loop, or moves the gap one level up, and whether the loop gets stuck is what `Stuck` said before; on a tree short of one black node it never meets a null sibling and restores the colouring or moves the gap |
| RbRemoveFixup.PassRight | src/rbtree.c:275-314 | the mirrored cases |
| RbRemoveFixup.RemoveFixup | src/rbtree.c:222-316 | from any node, null included, of any tree: a null sibling is dereferenced exactly when the colours on the way up say so beforehand; otherwise links and order are kept; a tree short of one black node becomes red-black |
| RbRemove.Remove | src/rbtree.c:318-386 | on every ordered tree: a null sibling is dereferenced exactly when `Crashes` held; otherwise the tree loses exactly the given node, stays ordered and linked, and keeps the cached minimum; a red-black tree never crashes and stays red-black |
| RbStuck.GradedNeverStuck | src/rbtree.c:193-195 | in a red-black tree the way up from a gap below a black height of at least one meets no missing sibling |
| RbRemove.GradedNeverCrashes | src/rbtree.c:318-386 | no removal from a red-black tree meets one |
| RbTraverse.Min | src/rbtree.c:393-404 | the cached minimum is the first node of the sequence, null when empty |
| RbTraverse.Max | src/rbtree.c:406-413 | the last node of the sequence, null when empty |
| RbTraverse.Next | src/rbtree.c:415-437 | the in-order successor, null after the last; the climb terminates |
| RbTraverse.Prev | src/rbtree.c:439-453 | the in-order predecessor, null before the first: the inverse step |
| RbTraverse.Walk | src/rbtree.c:393-437 | stepping from the minimum meets every node exactly once, in strictly increasing order, and then null |
| RbTraverse.Find | src/rbtree.c:23-36 | as written, only the root can be found: the result is non-null exactly when the root is equal, and any other member is missed |
| ConnUid.NextUid | src/server/iocp_connmgr.c:90 | allocation advances the 16-bit counter, wrapping, and names the slot |
| ConnUid.FreedUid | src/server/iocp_connmgr.c:98 | freeing keeps the counter and links the next free slot |
| ConnUid.UidRepeats | src/server/iocp_connmgr.c:67-90 | two allocations of a slot get the same identifier exactly when they are a multiple of 65536 apart |
| ConnIo.LookupIsLive | src/server/iocp_connmgr.c:521-545 | an issued identifier is accepted exactly when its slot is in use by that allocation or by one a multiple of 65536 later |
| ConnStart.Alloc | src/server/iocp_connmgr.c:76-93 | takes the head of the free list, else the next unused slot, else nothing; the new record and list |
| ConnStart.NoRoomAllInUse | src/server/iocp_connmgr.c:85-86 | allocation fails only when all 4096 slots are in use |
| ConnTable.FreeSlot | src/server/iocp_connmgr.c:94-101 | the slot becomes the head of the list, threaded through its identifier |
| ConnTable.DispatchOnClose | src/server/iocp_connmgr.c:129-135 | the protocol, if any, is told once and unset; the login protocol releases its buffer |
| ConnTable.CloseOperation | src/server/iocp_connmgr.c:417-426 | closing with nothing pending keeps every invariant; its whole effect |
| ConnTable.Release | src/outbuf.c:34-45 | a buffer that is out and not being written goes to the pool, or is freed when 2048 are idle |
| LoginRecords.Acquire | src/outbuf.c:19-32 | a pooled buffer if there is one, else a new one, owned by the record |
| ConnTable.WrittenByItsOwner | src/outbuf.c:34-45 | a buffer in flight is owned by the connection that writes it |
| ConnIo.StartClose | src/server/iocp_connmgr.c:428-451 | closed at once when nothing is pending, otherwise marked closing; no other connection is touched |
| ConnIo.AsyncRead | src/server/iocp_connmgr.c:355-372 | a read is started unless five attempts fail, which aborts the connection |
| ConnIo.AsyncWrite | src/server/iocp_connmgr.c:402-415 | the same data is written again unless five attempts fail, which aborts the connection |
| ConnIo.ConnectionSend | src/server/iocp_connmgr.c:540-555 | sends exactly when the identifier is current, no output is in progress and the system accepts |
| ConnEvents.ReadLengthDone | src/server/iocp_connmgr.c:179-222 | every outcome of a length read: closing, retry, abort, or a body read of 1 to 1024 bytes; each completion of a closing connection counts down and the last one closes it |
| ConnEvents.ReadBodyDone | src/server/iocp_connmgr.c:224-271 | every outcome of a body read: closing, retry with the same length, abort, or the message to the protocol, with the callbacks in order, what the protocol makes of the connection and whether the next read is started |
| ConnEvents.DispatchRecv | src/server/iocp_connmgr.c:160-177 | the first message selects the protocol; the protocol the connection has then, the callbacks made, the answer to the manager, the connection and the records it leaves |
| ConnEvents.WriteDone | src/server/iocp_connmgr.c:273-321 | every outcome of a write: a closing connection counts down, an error sends the same data again or aborts, success clears the output flag and tells the protocol |
| ConnEvents.WriteArrived | src/server/iocp_connmgr.c:304-320 | output is no longer in progress and the protocol is told; a login connection is closed |
| ConnStart.DispatchConnect | src/server/iocp_connmgr.c:137-152 | a service that sends first gets its protocol assigned and told of the connection at once |
| ConnStart.StartConnection | src/server/iocp_connmgr.c:482-519 | nothing without room; otherwise the slot's next allocation with the record, operations and callbacks it has then: greeted if the service sends first, reading, closing or gone |
| ConnStart.UnclaimedIff | src/server/iocp_connmgr.c:90 | the next identifier is claimed exactly when a record waits for the connection 65536 allocations earlier in that slot |
| ConnStart.ForeignTaken | docs/problems/connection_uid.txt:19-23 | opening the slot then gives the identifier of a record of a connection that is gone to the new connection |
| ConnRun.TimeoutCheck | src/server/iocp_connmgr.c:468-480 | each connection without completed I/O is closed or marked closing, each other one starts counting again; the callbacks, in the order of the slots |
| ConnRun.CloseByUid | src/server/iocp_connmgr.c:521-531 | an old identifier is ignored unless its slot is in use by an allocation a multiple of 65536 later |
| ConnProtocol.EchoRecv | src/protocol_echo.c:37-48 | an answer is sent exactly when no earlier one is being written and the system accepts; the record it leaves |
| ConnProtocol.GameConnect | src/protocol_game.c:132-147 | the challenge is being written exactly when the system accepts |
| ConnProtocol.LoginFirst | src/protocol_login.c:254-320 | the outcomes of a login message: rejected, answered at once with the buffer handed to the connection, or one new record queued for the database |
| ConnProtocol.LoginWritten | src/protocol_login.c:241-248 | the written buffer is released and no longer pointed at |
| LoginRecords.NewLogin | src/protocol_login.c:283-285 | a new record for a live connection keeps every invariant |
| LoginRecords.GiveBuffer | src/protocol_login.c:129-136 | the record becomes the one owner of an acquired buffer |
| LoginRecords.DbPost | src/protocol_login.c:143-146 | the answered record goes to the server queue, or is dropped if that refuses it |
| LoginResolve.RecordFindsItsConnection | src/protocol_login.c:110-112 | a record's identifier is still accepted exactly when its own connection is still there |
| LoginResolve.ResolveLogin | src/protocol_login.c:107-127 | the buffer goes to the live connection, sent or not, or is released; the record is freed; nothing else changes |
| ConnRun.Step | src/server/iocp_connmgr.c:179-545 | every event of the environment and every step of a thread leads to the state that `ConnSpec.Leads` gives and keeps all invariants |
| ConnRun.Run | src/server/iocp_connmgr.c:179-545 | every finite run goes from the empty server through states each event of which leads to the next, and ends with all invariants; without refused server tasks no record is dropped |
| ConnTrace.ClosingDrains | src/server/iocp_connmgr.c:428-443 | over any run, a closing connection with p operations pending goes with exactly the p-th completion of its slot; until then no other event reopens it or changes what it waits for, and it never comes back |
| ConnLaws.IdleIsClosed | src/server/iocp_connmgr.c:468-480 | over any run: a connection that is there after one timeout check and has no body read or write completed before the next is closing or gone after that |
| ConnLaws.ActiveIsKept | src/server/iocp_connmgr.c:468-480 | over any run: a connection opened since the last check, or with such a completion since, is left by the next check as it is |
| ConnLaws.LoginWaits | src/protocol_login.c:315-319 | over any run: after an accepted and queued login the connection stays open and waits, whatever happens to others, until a timeout check, a call that closes its slot, or the task of its own record |
| ConnLaws.LoginAnswered | src/protocol_login.c:107-116 | that task then leaves the record's buffer as the connection's data, being written if the system accepts the write |
| ConnLaws.RefusalIsSent | src/protocol_login.c:315-318 | a refused login, or one the database queue does not take, is told so if the system accepts the write and closes behind it; no record stays |
| ConnLaws.AlwaysListens | src/server/iocp_connmgr.c:224-271 | in every state of every run a read is under way for each open connection that is not a login |
| ConnLaws.LengthDecides | src/server/iocp_connmgr.c:179-222 | a length read leaves a connection open exactly with a length from 1 to 1024, or an error, and a read that starts within five attempts |
| ConnLaws.BodyDecides | src/server/iocp_connmgr.c:224-271 | a body read leaves it open exactly as an echo connection that goes on reading, as an accepted and queued login, or after an error when a read starts again |
| ConnLaws.BodyCalls | src/server/iocp_connmgr.c:160-177 | the callbacks of a message, in order: assigned if it selects the protocol, received, and closed if that is the end |
| ConnLaws.EchoAnswers | src/protocol_echo.c:37-48 | an echo connection sends its answer exactly when none is being written and the system takes it, and then has to wait |
| ConnLaws.WriteDecides | src/server/iocp_connmgr.c:273-321 | a finished write leaves a connection open unless it is a login; after it an echo connection may answer again |
| ConnLaws.RestDecides | src/server/iocp_connmgr.c:468-550 | nothing else ends an open connection but a timeout check without anything counted and a call that carries its identifier |
| ConnLaws.ConnectDecides | src/server/iocp_connmgr.c:482-519 | a new connection takes the first free slot, is open exactly when its first read starts, and a service that sends first has its challenge under way if the system takes it |
| ConnTheorems.PendingIsInFlight | src/server/iocp_connmgr.c:179-443 | pending_work is the number of operations in flight, at most one read and one write; closing implies it is positive |
| ConnTheorems.CompletionFindsItsConnection | src/server/iocp_connmgr.c:179-321 | every completion finds the incarnation of the connection that started the operation |
| ConnTheorems.SlotsArePartitioned | src/server/iocp_connmgr.c:67-101 | a used slot is in use, its identifier naming it, or on the list exactly once, the list threaded through the identifiers |
| ConnTheorems.FreeSlotIsUnused | src/server/iocp_connmgr.c:67-101 | everything on the list is an unused slot below next_unused_slot |
| ConnTheorems.StaleUidRefused | src/server/iocp_connmgr.c:521-545 | the identifier of a connection that is gone is refused for its slot's next 65535 allocations |
| ConnTheorems.StaleUidAcceptedAgain | docs/problems/connection_uid.txt:19-23 | after exactly 65536 allocations it is accepted for the new connection |
| ConnTheorems.ClosedExactlyOnce | src/server/iocp_connmgr.c:129-135 | a connection that had a protocol and is gone got on_close exactly once and no callback afterwards |
| ConnTheorems.NotClosedWhilePending | src/server/iocp_connmgr.c:428-443 | on_close has not been called while an operation is in flight |
| ConnLog.NothingAfterClose | src/server/iocp_connmgr.c:129-135 | in an orderly log no callback of a connection follows its on_close |
| ConnTheorems.OneHolder | src/protocol_login.c:68-73 | every buffer has exactly one holder: one record, one connection, or the pool |
| ConnTheorems.NoDanglingHolder | src/protocol_login.c:107-127 | whoever holds a buffer holds one that has not been freed |
| ConnTheorems.WrittenBufferIsHeld | src/protocol_login.c:241-248 | a buffer in flight is held by the connection writing it, not by the pool |
| ConnTheorems.AnswerFindsItsConnection | src/protocol_login.c:107-116 | a login connection that is still there when its answer comes has no user data, nothing pending and no output in progress |
| ConnTheorems.RecordIsSomewhere | src/protocol_login.c:68-73 | a record that was not refused waits in a queue or is in a thread's hands |
| ConnTheorems.NothingLeaks | src/protocol_login.c:68-73 | with no connection and no task left, and none refused, every record is freed and every buffer is in the pool or freed |
| NumberTheory.Fermat | src/crypto/rsa.c:77-78 | x^(p-1) is 1 modulo a prime p that does not divide x |
| NumberTheory.LcmLeast | src/crypto/rsa.c:42 | mpz_lcm as meant: every common multiple is a multiple of it |
| NumberTheory.GcdGreatest | src/crypto/rsa.c:49 | mpz_gcd as meant: every common divisor divides it |
| NumberTheory.InvertInverts | src/crypto/rsa.c:54-60 | mpz_invert as meant: the inverse modulo m of a number coprime to m |
| Rsa.ImportExport | src/crypto/rsa.c:70-72 | importing what was exported gives the number back |
| Rsa.ExportImport | src/crypto/rsa.c:70-72 | exporting what was imported gives the bytes back without leading zeros |
| Rsa.FirstByteCounts | src/crypto/rsa.c:70 | bytes are read as a number in base 256, the first byte highest |
| Rsa.SizeInBytes | src/crypto/rsa.c:4 | the macro's byte count is the length of the exported number |
| Rsa.RsaCtx.SetKey | src/crypto/rsa.c:32-67 | accepts an exponent if and only if it is below the least common multiple of p - 1 and q - 1 and some d undoes it modulo that, and then sets up the CRT exponents |
| Rsa.AcceptedIffInvertible | src/crypto/rsa.c:42-51 | the tests of the code accept exactly the exponents below lambda that have an inverse modulo lambda |
| Rsa.RecombineRange | src/crypto/rsa.c:79-84 | the recombination lies in [0, n) for all residues, also when x1 - x2 + p is negative |
| Rsa.DecodeIsPower | src/crypto/rsa.c:75-86 | for every ciphertext, CRT decoding equals c^d mod n |
| Rsa.RoundTrip | src/crypto/rsa.c:69-86 | decoding undoes encoding for every message below n, multiples of p or q included |
| Rsa.TwoBreaksZero | src/crypto/rsa.c:58-59 | with the prime 2 the message 0 does not come back |
| Rsa.TwoIsAccepted | src/crypto/rsa.c:32-67 | such a key: 2, 5 and the exponent 3 are accepted |
| Rsa.RoundTripIffOdd | src/crypto/rsa.c:32-86 | among distinct primes, an accepted key decodes everything it encodes exactly when both are odd |
| Rsa.RoundTripBytes | src/crypto/rsa.c:69-86 | on bytes the message comes back without its leading zeros |
| Rsa.RsaCtx.EncodeBytes | src/crypto/rsa.c:69-73 | the buffer holds the bytes of m^e mod n, the rest of it unchanged |
| Rsa.RsaCtx.DecodeBytes | src/crypto/rsa.c:75-86 | the buffer holds the bytes of the decoded number |
| Rsa.EncodeThenDecode | src/crypto/rsa.c:69-86 | both in place, one after the other, give back the message |
| Adler.DeferredModulo | src/adler32.c:20-36 | reducing at the end gives the definition that reduces after every byte |
| Adler.ClosedForm | src/adler32.c:16-37 | the low half is one more than the sum of the bytes, the high half their number plus their sum weighted by position, both modulo 65521 |
| Adler.ChunkFits | src/adler32.c:8 | n bytes never overflow 32 bits, from any reduced sums, exactly when n <= 5552 |
| Adler.Do16 | src/adler32.c:10-14 | the unrolled steps add up sixteen bytes in uint32 arithmetic |
| Adler.Chunk | src/adler32.c:24-32 | within a chunk the sums are exact: no addition wraps |
| Adler.Adler32 | src/adler32.c:16-37 | for every length the result is the checksum of section 2.2 of RFC 1950, in closed form in `ClosedForm` |
| Xtea.UnroundRound | src/crypto/xtea.c:13-37 | one decoding round undoes one encoding round, the sums tracking each other |
| Xtea.LastSum | src/crypto/xtea.c:30 | the decoding sum starts at 32 times delta modulo 2^32 |
| Xtea.RoundReads | src/crypto/xtea.c:13-17 | a round as arithmetic: each half gains the XOR of ((v * 16 ^ v / 32) + v) and (sum + key word), the key word chosen by the sum |
| XteaVectors.CountingBuffer | src/crypto/xtea.c:6-23 | the published vector: the key of the bytes 0 to 15 and the text ABCDEFGH give 497DF3D0 72612CB5, over a little-endian buffer |
| XteaVectors.EveryKeyWordCounts | src/crypto/xtea.c:14-16 | for each of the four key words two keys that differ only there encode some block differently |
| Xtea.CipherInverse | src/crypto/xtea.c:6-40 | the block functions are inverse to each other, both ways, for every key |
| Xtea.DecodedEncoded | src/crypto/xtea.c:6-40 | decoding undoes encoding on every buffer whose length is a multiple of 8 |
| Xtea.EncodedDecoded | src/crypto/xtea.c:6-40 | and the other way round |
| Xtea.BlocksInPlace | src/crypto/xtea.c:9-22 | every eight bytes are encoded, and decoded, in their place |
| Xtea.XteaEncode | src/crypto/xtea.c:6-23 | in place, block by block, nothing outside the range touched; what becomes of a block, `RoundReads` and the test vectors say |
| Xtea.XteaDecode | src/crypto/xtea.c:25-40 | the same for decoding, which undoes encoding |
| Bytes.Le32Inverse | src/buffer_util.h:59-67 | the 32-bit codec loses nothing |
| Framing.Outbuf.WriteByte | src/outbuf.c:52-56 | the contents grow by the byte |
| Framing.Outbuf.WriteU16 | src/outbuf.c:58-62 | the contents grow by the little-endian bytes |
| Framing.Outbuf.WriteU32 | src/outbuf.c:64-68 | the contents grow by the little-endian bytes |
| Framing.Outbuf.WriteStr | src/outbuf.c:70-80 | the contents grow by the length and the characters |
| Framing.Outbuf.Wrap | src/protocol_login.c:88-105 | the contents become the frame of what was written after the header |
| Framing.PaddingLeast | src/protocol_login.c:92 | the padded length is the least sufficient multiple of 8 |
| Framing.PaddingFits | src/protocol_login.c:92-98 | header and padding fit the buffer exactly when the payload ends at 16366 or before |
| Framing.FrameSplits | src/protocol_login.c:101-104 | the outer length covers exactly the frame, whatever follows in the stream |
| Framing.FrameRoundTrip | src/protocol_login.c:49-55 | reading the length, checking the checksum, decoding and taking the inner length gives exactly the payload |
| Framing.FrameLayout | src/protocol_login.c:88-105 | a frame byte by byte: length without itself, Adler-32 in closed form, and encrypted the length of the payload, the payload and fewer than eight bytes 0x33 |
| Framing.BuildDisconnect | src/protocol_login.c:129-136 | the message is the frame of the opcode and the text |
| Base64.TablesAgree | src/crypto/base64.c:3-43 | the two tables are inverse to each other |
| Base64.Alphabet | src/crypto/base64.c:3-8 | the table is "./", upper case, lower case, digits |
| Base64.SameNumber | src/crypto/base64.c:45-73 | the text is the number that the bytes are, written in base 64, the unused bits zero |
| Base64.DecodedEncoded | src/crypto/base64.c:45-114 | decoding undoes encoding for every byte string and remainder, whatever follows in the text |
| Base64.EncodedDecoded | src/crypto/base64.c:45-114 | encoding what was decoded gives the text back exactly when its unused bits are zero |
| Base64.Encode | src/crypto/base64.c:45-73 | the text and a terminating zero, nothing else written |
| Base64.Decode | src/crypto/base64.c:75-114 | succeeds exactly when the characters it needs are in the table; nothing beyond the length is written |
| Bcrypt.ParseBack | src/crypto/bcrypt.c:47-75 | a salt string, and every string that starts with it, is read back as the setting it was written for |
| Bcrypt.PrefixText | src/crypto/bcrypt.c:31 | the front of a salt string: "$2b$" or "$2a$", two decimal digits of the cost, "$" |
| Bcrypt.ClampNearest | src/crypto/bcrypt.c:26-29 | the cost used is the nearest from 4 to 31 |
| Bcrypt.GenerateSalt | src/crypto/bcrypt.c:22-34 | the salt string for the clamped cost |
| Bcrypt.GenerateHash | src/crypto/bcrypt.c:36-96 | fails exactly on unreadable settings or too little room; otherwise the hash string, whose dependence on password, salt and cost `HashesAgreeIff` states |
| Bcrypt.NewHash | src/crypto/bcrypt.c:105-112 | fails exactly for too little room |
| Bcrypt.HashCmp | src/crypto/bcrypt.c:98-103 | decides whether the signed XORs add up to zero |
| Bcrypt.ComparisonExact | src/crypto/bcrypt.c:98-103 | on seven-bit strings that is equality |
| Bcrypt.CheckPass | src/crypto/bcrypt.c:114-123 | accepts exactly when regenerating from the hash gives a string the comparison calls equal; which passwords that are, the rows below say |
| Bcrypt.OwnHashAccepted | src/crypto/bcrypt.c:105-123 | a password is accepted with every hash made for it, for every salt and cost |
| Bcrypt.AcceptedIffSameCipher | src/crypto/bcrypt.c:105-123 | another password is accepted exactly when the key schedule cannot tell the two apart |
| Bcrypt.AcceptedIffFrontsAgree | src/crypto/bcrypt.c:55-59 | minor b: a hash is accepted with another password under every key schedule if and only if the two, with their zeros, agree in their first 72 bytes |
| Bcrypt.AcceptedIffSamePassword | src/crypto/bcrypt.c:55-62 | minor a: if and only if they are equal |
| Bcrypt.HashesAgreeIff | src/crypto/bcrypt.c:79-96 | the hash depends on exactly what the schedule makes of the cut password, the salt and 2^cost rounds |
| Bcrypt.LookAlikeAccepted | src/crypto/bcrypt.c:98-123 | for every password and every hash made for it, the hash with the lowest bit of its last character but one flipped and its last character complemented is accepted, though it is not what is regenerated |
| Bcrypt.AcceptedOnlyIfRegenerated | src/crypto/bcrypt.c:98-123 | a string is accepted only as the hash generated from itself, for every key schedule and password, if and only if it is not ambiguous: unreadable, seven-bit, of another length, or without symbols that cancel its differences |
| Bcrypt.LongPasswordsCollide | src/crypto/bcrypt.c:55-62 | passwords that agree in 72 characters are accepted for each other |
| Blowfish.DecodedEncoded | src/crypto/blowfish.c:274-307 | decode_one undoes encode_one for arbitrary P and S |
| Blowfish.EncodedDecoded | src/crypto/blowfish.c:274-307 | and the other way round |
| Blowfish.DecodingIsBackwards | src/crypto/blowfish.c:294-307 | decode_one is encode_one with P reversed |
| Blowfish.EncodedIsFeistel | src/crypto/blowfish.c:279-292 | the unrolled rounds without swaps are the usual network of sixteen rounds with a swap after each |
| Blowfish.FReads | src/crypto/blowfish.c:274-277 | f as arithmetic on the four bytes of its argument |
| Blowfish.CyclicRead | src/crypto/blowfish.c:309-320 | the next four bytes of the endlessly repeated data, and the position after them |
| Blowfish.CyclicWordReads | src/crypto/blowfish.c:310-320 | the word is the number of four bytes, the first one highest, taken around the end of the data |
| KeyExpansion.BlowfishCtx.EncodeOne | src/crypto/blowfish.c:279-292 | the block function, computed in place |
| KeyExpansion.BlowfishCtx.DecodeOne | src/crypto/blowfish.c:294-307 | its inverse, computed in place |
| KeyExpansion.BlowfishCtx.Expand | src/crypto/blowfish.c:332-379 | both expansions replace P and S by the chain of encodings of the salted halves |
| KeyExpansion.PairsOfP | src/crypto/blowfish.c:353-369 | every pair of the new P is the pair before it, masked with the salt, encoded with the tables half way: new before that pair, the keyed old P from it on, the old S |
| KeyExpansion.PairsOfS | src/crypto/blowfish.c:370-376 | every pair of the new S likewise, the first following the last pair of P |
| KeyExpansion.ZeroSaltIsPlain | src/crypto/blowfish.c:332-379 | the salted expansion with an all-zero salt is the plain one |
| KeyExpansion.RepeatedKey | src/crypto/blowfish.c:309-337 | a key and the same key written twice expand alike |
| KeyExpansion.ScheduleIsPermutation | src/crypto/blowfish.c:332-379 | every key schedule yields a permutation of the blocks |
| RingIndex.CheckFindsPowers | src/common.h:106 | the size test accepts exactly the powers of two |
| RingIndex.IndexOf | src/task_rbuffer.c:65 | the masked wrapped position is the task's number modulo the capacity |
| TaskRing.Ring.Occupancy | src/task_rbuffer.c:37-43 | the comparisons of wrapped positions recognise exactly the empty and the full queue |
| TaskRing.Ring.EnterPush | src/task_rbuffer.c:45-70 | the stretch before the first wait: refused when inactive, waiting when full, otherwise the queue grows at its end |
| TaskRing.Ring.ResumePush | src/task_rbuffer.c:54-70 | the stretch after a wait, whatever ended it |
| TaskRing.Ring.EnterRun | src/task_rbuffer.c:72-97 | refused when inactive, waiting when empty, otherwise the oldest task is taken |
| TaskRing.Ring.ResumeRun | src/task_rbuffer.c:83-97 | the stretch after a wait |
| TaskRing.Step | src/task_rbuffer.c:37-109 | each call or wake-up does to the ring buffer and the threads what it does to a plain bounded queue |
| TaskRing.Execute | src/task_rbuffer.c:37-109 | over every interleaving the ring buffer ends where the plain queue ends, with the tasks accepted and not yet run in its buffer, in their order |
| TaskRing.RunsAPrefix | src/task_rbuffer.c:45-97 | the tasks run are a prefix of the tasks accepted, at most a capacity behind |
| TaskRing.PushSettles | src/task_rbuffer.c:45-70 | a push that is called or goes on: refused when inactive, waiting with just its task when full, otherwise its task is the newest |
| TaskRing.RunSettles | src/task_rbuffer.c:72-97 | a run: sent away when inactive, waiting when empty, otherwise it gets the oldest task |
| TaskRing.OfferedIsKept | src/task_rbuffer.c:52-69 | over any run: a task offered to an active queue is never lost; its thread waits with it or it is among those accepted since |
| TaskRing.NothingAfterInactive | src/task_rbuffer.c:103-109 | after set_inactive no task is accepted or run, and every thread woken leaves |
| Arena.AlignedCovers | src/common.h:113-116 | alignment gives the least sufficient multiple of 8 exactly when the sum does not wrap |
| Arena.MemArena.Alloc | src/mem_arena.c:45-71 | null exactly for more than half a block; otherwise the head serves the request while it has room and a new block does when not, the cursors and the ranges exactly; the assertion about the fresh block holds |
| Arena.FreshBlockServes | src/mem_arena.c:63-69 | a fresh block serves every admitted request exactly when the block size is not zero |
| Arena.MemArena.Rollback | src/mem_arena.c:73-82 | undoes exactly the latest allocation, the cursor back at its start, at most once |
| Arena.MemArena.Reset | src/mem_arena.c:84-102 | nothing stays live, one empty block is kept, every other block is given back once |
| Arena.MemArena.Cleanup | src/mem_arena.c:11-20 | every block is given back exactly once |
| Arena.LiveRangesApart | src/mem_arena.c:45-82 | live allocations are disjoint, aligned and inside their blocks |
| Arena.Run | src/mem_arena.c:11-102 | any sequence of operations leads to the computed state; a further allocation stays apart from all live ones, and undoing it restores the ranges and the cursor, an empty new block remaining if it needed one |

## Left out

- ConnStart.StartConnection: requires an identifier that no outstanding record carries, which the source does not test; the invariants do not hold of the state after such a start.
- ConnProtocol.EchoRecv: the bytes of the answer and their clamp to the echo buffer are not modelled.
- ConnProtocol.LoginFirst: which outcome a login message has is chosen by the environment; the parsing of its bytes is not modelled.
- ConnRun.Run: stops before connmgr_shutdown, which closes connections whose operations are still in flight.
- Framing.Outbuf.Wrap: requires room for the padding, which the source asserts in debug builds only.
- TaskRing.Execute: safety only. A pusher that waited does not signal the worker and a worker signals only when it pops from a full buffer, so progress is not claimed.
- The double buffer of server tasks (src/task_dbuffer.c): a plain queue here. Its add keeps the buffer index from before a wait, so conservation would hold for runs without waits only.
- The database queue in the connection model is a plain queue; its ring buffer is modelled on its own in `TaskRing`.
- Sockets, completion ports, CancelIoEx, mutexes and condition variables: choices of the environment, or steps under the lock.
- The accept loop and its services: a new connection is an event.
- The linked lists of arena blocks and of pooled buffers are sequences; addresses are numbers.
- Reading the key strings as decimal numbers, and the size limits of the big-integer library.
- Blowfish ECB and CBC buffer functions: both words are stored at the same place (src/crypto/blowfish.c:386-387), so no buffer round trip holds. The bcrypt text encryption is part of the key schedule parameter.
- The numbers in the Blowfish tables: P and S are arbitrary.
- isdigit on characters beyond ASCII, which C leaves undefined.
- PostgreSQL, Lua configuration, logging, clocks, the random source and the frame loop.
- The configuration hash table and murmur2.
- The character list message: built from the same write functions as the disconnect message.
